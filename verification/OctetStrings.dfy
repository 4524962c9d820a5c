/** OCTET STRING in its fixed, bounded and unbounded forms (X.691 section 16). */
module OctetStrings {
  import opened Bits
  import opened Per
  import opened BitRefs
  import opened Lengths
  import opened Numbers
  import opened Integers

  ghost function ReadByte(s: seq<bool>, pos: nat): Decoding<byte> {
    ReadBound(s, pos, 8);
    Pow2Values();
    var (v, p) :- Read(s, pos, 8);
    Decoded(v, p)
  }

  lemma ReadByteBack(s: seq<bool>, pos: nat, b: byte)
    requires At(s, pos, NatBits(b, 8))
    ensures ReadByte(s, pos) == Decoded(b, pos + 8)
  {
    Pow2Values();
    ReadBack(s, pos, b, 8);
  }

  /** The loop that reads n octets one by one. */
  ghost function ReadOctets(s: seq<bool>, pos: nat, n: nat): (d: Decoding<seq<byte>>)
    ensures !d.Rejected? && (d.Decoded? ==> |d.value| == n)
    decreases n
  {
    if n == 0 then Decoded([], pos)
    else
      var (init, p) :- ReadOctets(s, pos, n - 1);
      var (b, q) :- ReadByte(s, p);
      Decoded(init + [b], q)
  }

  lemma {:induction false} ReadOctetsBack(s: seq<bool>, pos: nat, bs: seq<byte>)
    requires At(s, pos, BytesBits(bs))
    ensures ReadOctets(s, pos, |bs|) == Decoded(bs, pos + 8 * |bs|)
    decreases |bs|
  {
    if bs != [] {
      var n := |bs| - 1;
      BytesBitsSnoc(bs, n);
      assert bs[..n + 1] == bs == bs[..n] + [bs[n]];
      AtSplit(s, pos, BytesBits(bs[..n]), NatBits(bs[n], 8));
      ReadOctetsBack(s, pos, bs[..n]);
      ReadByteBack(s, pos + 8 * n, bs[n]);
    }
  }

  /** Reading stops being defined at the first octet that is missing. */
  lemma {:induction false} ReadOctetsPrefix(s: seq<bool>, pos: nat, i: nat, n: nat)
    requires i <= n && ReadOctets(s, pos, n).Decoded?
    ensures ReadOctets(s, pos, i).Decoded?
    decreases n
  {
    if i < n { ReadOctetsPrefix(s, pos, i, n - 1); }
  }

  method UnpackEach(bref: CBitRef, n: nat) returns (bs: seq<byte>)
    requires bref.Valid() && ReadOctets(bref.stream, bref.pos, n).Decoded?
    modifies bref
    ensures bref.Valid() && ReadOctets(bref.stream, old(bref.pos), n) == Decoded(bs, bref.pos)
  {
    bs := [];
    for i := 0 to n
      invariant bref.Valid() && ReadOctets(bref.stream, old(bref.pos), i) == Decoded(bs, bref.pos)
    {
      ReadOctetsPrefix(bref.stream, old(bref.pos), i + 1, n);
      ReadBound(bref.stream, bref.pos, 8);
      Pow2Values();
      var b := bref.Unpack(8);
      bs := bs + [b];
    }
  }

  // Unbounded: a length determinant and the octets.

  function EncodeOctetString(bs: seq<byte>, aligned: bool, pos: nat): Encoding {
    var length :- EncodeLength(|bs|, aligned, pos);
    Encoded(length + BytesBits(bs))
  }

  ghost function DecodeOctetString(s: seq<bool>, pos: nat, aligned: bool): Decoding<seq<byte>> {
    var (len, p) :- DecodeLength(s, pos, aligned);
    ReadOctets(s, p, len)
  }

  /** An octet string that is written is read back if it is shorter than 16K octets,
      and otherwise rejected. */
  lemma OctetStringRoundTrip(s: seq<bool>, pos: nat, bs: seq<byte>, aligned: bool)
    requires EncodeOctetString(bs, aligned, pos).Encoded? && At(s, pos, EncodeOctetString(bs, aligned, pos).bits)
    ensures DecodeOctetString(s, pos, aligned)
         == if |bs| < ASN_16K then Decoded(bs, pos + |EncodeOctetString(bs, aligned, pos).bits|)
            else Rejected(AlignUp(pos) + 8)
  {
    var length := EncodeLength(|bs|, aligned, pos).bits;
    AtSplit(s, pos, length, BytesBits(bs));
    if |bs| < ASN_16K {
      LengthRoundTrip(s, pos, |bs|, aligned);
      ReadOctetsBack(s, pos + |length|, bs);
    } else {
      LongLengthRejected(s, pos, |bs|);
    }
  }

  method PackOctetString(bref: BitRef, bs: seq<byte>, aligned: bool) returns (code: Code)
    requires bref.Valid()
    modifies bref
    ensures bref.Valid() && Appended(old(bref.bits), bref.bits, code, EncodeOctetString(bs, aligned, |old(bref.bits)|))
  {
    code := PackLength(bref, |bs|, aligned);
    if code != Success {
      return;
    }
    bref.PackEach(bs);
  }

  method UnpackOctetString(bref: CBitRef, aligned: bool) returns (r: Result<seq<byte>>)
    requires bref.Valid() && DecodeOctetString(bref.stream, bref.pos, aligned) != DecodeUndefined
    modifies bref
    ensures bref.Valid() && Consumed(bref.pos, r, DecodeOctetString(bref.stream, old(bref.pos), aligned))
  {
    var len, ok := UnpackLength(bref, aligned);
    if !ok {
      return Fail;
    }
    var bs := UnpackEach(bref, len);
    return Ok(bs);
  }

  // Fixed size: aligned when longer than two octets.

  function EncodeFixedOctets(bs: seq<byte>, aligned: bool, pos: nat): seq<bool> {
    PadIf(aligned && |bs| > 2, pos) + BytesBits(bs)
  }

  ghost function DecodeFixedOctets(s: seq<bool>, pos: nat, n: nat, aligned: bool): Decoding<seq<byte>> {
    ReadOctets(s, AlignIf(aligned && n > 2, pos), n)
  }

  lemma FixedOctetsRoundTrip(s: seq<bool>, pos: nat, bs: seq<byte>, aligned: bool)
    requires At(s, pos, EncodeFixedOctets(bs, aligned, pos))
    ensures DecodeFixedOctets(s, pos, |bs|, aligned) == Decoded(bs, pos + |EncodeFixedOctets(bs, aligned, pos)|)
  {
    var pad := PadIf(aligned && |bs| > 2, pos);
    AtSplit(s, pos, pad, BytesBits(bs));
    ReadOctetsBack(s, pos + |pad|, bs);
  }

  method PackFixedOctets(bref: BitRef, bs: seq<byte>, aligned: bool)
    requires bref.Valid()
    modifies bref
    ensures bref.Valid() && bref.bits == old(bref.bits) + EncodeFixedOctets(bs, aligned, |old(bref.bits)|)
  {
    if aligned && |bs| > 2 {
      bref.AlignBytesZero();
    }
    bref.PackEach(bs);
  }

  method UnpackFixedOctets(bref: CBitRef, n: nat, aligned: bool) returns (bs: seq<byte>)
    requires bref.Valid() && DecodeFixedOctets(bref.stream, bref.pos, n, aligned).Decoded?
    modifies bref
    ensures bref.Valid() && DecodeFixedOctets(bref.stream, old(bref.pos), n, aligned) == Decoded(bs, bref.pos)
  {
    if aligned && n > 2 {
      bref.AlignBytes();
    }
    bs := UnpackEach(bref, n);
  }

  // Bounded size: a bounded length, alignment, the octets.

  function EncodeBoundedOctets(bs: seq<byte>, lb: nat, ub: nat, aligned: bool, pos: nat): Encoding {
    var length :- EncodeBoundedLength(|bs|, lb, ub, aligned, pos);
    Encoded(length + (PadIf(aligned, pos + |length|) + BytesBits(bs)))
  }

  ghost function DecodeBoundedOctets(s: seq<bool>, pos: nat, lb: nat, ub: nat, aligned: bool): Decoding<seq<byte>> {
    var (len, p) :- DecodeBoundedLength(s, pos, lb, ub, aligned);
    ReadOctets(s, AlignIf(aligned, p), len)
  }

  lemma BoundedOctetsRoundTrip(s: seq<bool>, pos: nat, bs: seq<byte>, lb: nat, ub: nat, aligned: bool)
    requires ub >= ASN_64K ==> |bs| < ASN_16K
    requires var e := EncodeBoundedOctets(bs, lb, ub, aligned, pos); e.Encoded? && At(s, pos, e.bits)
    ensures DecodeBoundedOctets(s, pos, lb, ub, aligned)
         == Decoded(bs, pos + |EncodeBoundedOctets(bs, lb, ub, aligned, pos).bits|)
  {
    hide ReadOctets, AlignIf, PadIf, At, EncodeBoundedLength, DecodeBoundedLength, BytesBits;
    var length := EncodeBoundedLength(|bs|, lb, ub, aligned, pos).bits;
    var pad := PadIf(aligned, pos + |length|);
    LengthThenOctets(s, pos, length, pad, bs);
    BoundedLengthRoundTrip(s, pos, |bs|, lb, ub, aligned);
    assert |length + (pad + BytesBits(bs))| == |length| + |pad| + 8 * |bs|;
  }

  lemma LengthThenOctets(s: seq<bool>, pos: nat, length: seq<bool>, pad: seq<bool>, bs: seq<byte>)
    requires At(s, pos, length + (pad + BytesBits(bs)))
    ensures At(s, pos, length)
    ensures ReadOctets(s, pos + |length| + |pad|, |bs|) == Decoded(bs, pos + |length| + |pad| + 8 * |bs|)
  {
    AtSplit(s, pos, length, pad + BytesBits(bs));
    AtSplit(s, pos + |length|, pad, BytesBits(bs));
    ReadOctetsBack(s, pos + |length| + |pad|, bs);
  }

  method PackBoundedOctets(bref: BitRef, bs: seq<byte>, lb: nat, ub: nat, aligned: bool) returns (code: Code)
    requires bref.Valid() && EncodeBoundedOctets(bs, lb, ub, aligned, |bref.bits|) != EncodeUndefined
    modifies bref
    ensures bref.Valid()
    ensures Appended(old(bref.bits), bref.bits, code, EncodeBoundedOctets(bs, lb, ub, aligned, |old(bref.bits)|))
  {
    ghost var before := bref.bits;
    code := PackBoundedLength(bref, |bs|, lb, ub, aligned);
    if code != Success {
      return;
    }
    ghost var mid := bref.bits;
    if aligned {
      bref.AlignBytesZero();
    }
    ghost var pad := PadIf(aligned, |mid|);
    assert bref.bits == mid + pad;
    bref.PackEach(bs);
    Concat4(before, EncodeBoundedLength(|bs|, lb, ub, aligned, |before|).bits, pad, BytesBits(bs));
  }

  method UnpackBoundedOctets(bref: CBitRef, lb: nat, ub: nat, aligned: bool) returns (r: Result<seq<byte>>)
    requires bref.Valid() && DecodeBoundedOctets(bref.stream, bref.pos, lb, ub, aligned) != DecodeUndefined
    modifies bref
    ensures bref.Valid() && Consumed(bref.pos, r, DecodeBoundedOctets(bref.stream, old(bref.pos), lb, ub, aligned))
  {
    var len := UnpackBoundedLength(bref, lb, ub, aligned);
    if len.Fail? {
      return Fail;
    }
    if aligned {
      bref.AlignBytes();
    }
    var bs := UnpackEach(bref, len.value);
    return Ok(bs);
  }
}
