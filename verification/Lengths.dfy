/** Normally small numbers and length determinants (X.691 sections 10.6 and 10.9). */
module Lengths {
  import opened Bits
  import opened Per
  import opened BitRefs

  const ASN_16K := 16384
  const ASN_64K := 65536

  // Normally small non-negative whole numbers.

  function EncodeSmall(n: nat): Encoding {
    if n <= 63 then Encoded(NatBits(n, 7)) else Refused
  }

  ghost function DecodeSmall(s: seq<bool>, pos: nat): Decoding<nat> {
    var (ext, p) :- Read(s, pos, 1);
    if ext == 0 then Read(s, p, 6) else Rejected(p)
  }

  /** A leading zero bit announces a number that fits the rest of its field. */
  lemma LeadingZero(s: seq<bool>, pos: nat, v: nat, n: nat)
    requires v < Pow2(n) && At(s, pos, NatBits(v, 1 + n))
    ensures Read(s, pos, 1) == Decoded(0, pos + 1)
    ensures Read(s, pos + 1, n) == Decoded(v, pos + 1 + n)
  {
    NatBitsZeroExtend(v, 1, n);
    NatBitsZero(1);
    AtSplit(s, pos, NatBits(0, 1), NatBits(v, n));
    ReadBack(s, pos, 0, 1);
    ReadBack(s, pos + 1, v, n);
  }

  lemma SmallRoundTrip(s: seq<bool>, pos: nat, n: nat)
    requires n <= 63 && At(s, pos, NatBits(n, 7))
    ensures DecodeSmall(s, pos) == Decoded(n, pos + 7)
  {
    Pow2Values();
    LeadingZero(s, pos, n, 6);
  }

  method PackSmall(bref: BitRef, n: nat) returns (code: Code)
    requires bref.Valid()
    modifies bref
    ensures bref.Valid() && Appended(old(bref.bits), bref.bits, code, EncodeSmall(n))
    ensures code != Success ==> bref.bits == old(bref.bits) + [true]
  {
    if n <= 63 {
      bref.Pack(n, 7);
    } else {
      bref.Pack(1, 1);
      NatBitsBit(1);
      return EncodeFail;
    }
    return Success;
  }

  method UnpackSmall(bref: CBitRef) returns (r: Result<nat>)
    requires bref.Valid() && DecodeSmall(bref.stream, bref.pos) != DecodeUndefined
    modifies bref
    ensures bref.Valid() && Consumed(bref.pos, r, DecodeSmall(bref.stream, old(bref.pos)))
  {
    var ext := bref.Unpack(1);
    if ext == 0 {
      var n := bref.Unpack(6);
      return Ok(n);
    } else {
      return Fail;
    }
  }

  // Length determinants.

  /** The determinant itself, without alignment: one octet below 128, two below 16K, and
      in the aligned variant the prefix 11, the count of 16K blocks and the rest. */
  function LengthBits(val: nat): seq<bool> {
    if val < 128 then NatBits(val, 8)
    else if val < ASN_16K then NatBits(2, 2) + NatBits(val, 14)
    else NatBits(3, 2) + (NatBits(val / ASN_16K, 6) + NatBits(val % ASN_16K, 16))
  }

  function EncodeLength(val: nat, aligned: bool, pos: nat): Encoding {
    if !aligned then
      if val < ASN_16K then Encoded(LengthBits(val)) else Refused
    else
      if val > ASN_64K then Refused else Encoded(PadBits(pos) + LengthBits(val))
  }

  /** The out-parameter and return code of the reader; the out-parameter is also set
      when the determinant is not supported. */
  ghost function LengthOut(s: seq<bool>, pos: nat, aligned: bool): Decoding<(nat, bool)> {
    if !aligned then
      var (ext, p) :- Read(s, pos, 1);
      if ext == 0 then
        var (val, q) :- Read(s, p, 7);
        Decoded((val, true), q)
      else
        var (ext2, p2) :- Read(s, p, 1);
        if ext2 == 0 then
          var (val, q) :- Read(s, p2, 14);
          Decoded((val, true), q)
        else Decoded((0, false), p2)
    else
      var (first, p) :- Read(s, AlignUp(pos), 8);
      if first < 128 then Decoded((first, true), p)
      else if first - 128 < 64 then
        var (second, q) :- Read(s, p, 8);
        Decoded(((first - 128) * 256 + second, true), q)
      else Decoded((first - 128, false), p)
  }

  ghost function DecodeLength(s: seq<bool>, pos: nat, aligned: bool): Decoding<nat> {
    var (out, p) :- LengthOut(s, pos, aligned);
    if out.1 then Decoded(out.0, p) else Rejected(p)
  }

  lemma UnalignedLength(s: seq<bool>, pos: nat, val: nat)
    requires val < ASN_16K && At(s, pos, LengthBits(val))
    ensures LengthOut(s, pos, false) == Decoded((val, true), pos + |LengthBits(val)|)
  {
    Pow2Values();
    if val < 128 {
      LeadingZero(s, pos, val, 7);
    } else {
      AtSplit(s, pos, NatBits(2, 2), NatBits(val, 14));
      TwoBits(s, pos, 1, 0);
      ReadBack(s, pos + 2, val, 14);
    }
  }

  /** Reading a two-bit prefix bit by bit. */
  lemma TwoBits(s: seq<bool>, pos: nat, a: nat, b: nat)
    requires a < 2 && b < 2 && At(s, pos, NatBits(2 * a + b, 2))
    ensures Read(s, pos, 1) == Decoded(a, pos + 1)
    ensures Read(s, pos + 1, 1) == Decoded(b, pos + 2)
  {
    Pow2Values();
    ShlDef(a, 1);
    ShlDef(2 * a, 0);
    SplicedBits(a, 1, b, 1);
    AtSplit(s, pos, NatBits(a, 1), NatBits(b, 1));
    ReadBack(s, pos, a, 1);
    ReadBack(s, pos + 1, b, 1);
  }

  /** An octet that starts with two given bits. */
  lemma PrefixedOctet(s: seq<bool>, pos: nat, prefix: nat, x: nat)
    requires prefix < 4 && x < 64 && At(s, pos, NatBits(prefix, 2) + NatBits(x, 6))
    ensures Read(s, pos, 8) == Decoded(64 * prefix + x, pos + 8)
  {
    Pow2Values();
    ShlMultiplies(prefix, 6);
    SplicedBits(prefix, 2, x, 6);
    ReadBack(s, pos, 64 * prefix + x, 8);
  }

  /** The two-octet form read octet by octet. */
  lemma TwoOctets(s: seq<bool>, pos: nat, val: nat)
    requires val < ASN_16K && At(s, pos, NatBits(2, 2) + NatBits(val, 14))
    ensures Read(s, pos, 8) == Decoded(128 + val / 256, pos + 8)
    ensures Read(s, pos + 8, 8) == Decoded(val % 256, pos + 16)
  {
    Pow2Values();
    SplitAt256(val);
    NatBitsSplit(val, 6, 8);
    NatBitsLow(val, 8);
    var hi, lo := NatBits(val / 256, 6), NatBits(val % 256, 8);
    assert NatBits(2, 2) + (hi + lo) == (NatBits(2, 2) + hi) + lo;
    AtSplit(s, pos, NatBits(2, 2) + hi, lo);
    PrefixedOctet(s, pos, 2, val / 256);
    ReadBack(s, pos + 8, val % 256, 8);
  }

  lemma SplitAt256(val: nat)
    ensures Shr(val, 8) == val / 256 && Low(val, 8) == val % 256
  {
    Pow2Values();
    ShiftMask(val, 8);
    ShlMultiplies(Shr(val, 8), 8);
  }

  lemma AlignedLength(s: seq<bool>, pos: nat, val: nat)
    requires val < ASN_16K && At(s, pos, PadBits(pos) + LengthBits(val))
    ensures LengthOut(s, pos, true) == Decoded((val, true), AlignUp(pos) + |LengthBits(val)|)
  {
    Pow2Values();
    AtSplit(s, pos, PadBits(pos), LengthBits(val));
    if val < 128 {
      ReadBack(s, AlignUp(pos), val, 8);
    } else {
      TwoOctets(s, AlignUp(pos), val);
    }
  }

  /** Every length below 16K is read back, in both variants. */
  lemma LengthRoundTrip(s: seq<bool>, pos: nat, val: nat, aligned: bool)
    requires val < ASN_16K && At(s, pos, EncodeLength(val, aligned, pos).bits)
    ensures LengthOut(s, pos, aligned) == Decoded((val, true), pos + |EncodeLength(val, aligned, pos).bits|)
    ensures DecodeLength(s, pos, aligned) == Decoded(val, pos + |EncodeLength(val, aligned, pos).bits|)
  {
    if aligned {
      AlignedLength(s, pos, val);
    } else {
      UnalignedLength(s, pos, val);
    }
  }

  /** Longer lengths are either not written or always rejected by the reader. */
  lemma LongLengthRejected(s: seq<bool>, pos: nat, val: nat)
    requires ASN_16K <= val <= ASN_64K && At(s, pos, EncodeLength(val, true, pos).bits)
    ensures DecodeLength(s, pos, true) == Rejected(AlignUp(pos) + 8)
    ensures LengthOut(s, pos, true) == Decoded((64 + val / ASN_16K, false), AlignUp(pos) + 8)
  {
    var p, m, rest := AlignUp(pos), val / ASN_16K, NatBits(val % ASN_16K, 16);
    AtSplit(s, pos, PadBits(pos), LengthBits(val));
    assert NatBits(3, 2) + (NatBits(m, 6) + rest) == (NatBits(3, 2) + NatBits(m, 6)) + rest;
    AtSplit(s, p, NatBits(3, 2) + NatBits(m, 6), rest);
    PrefixedOctet(s, p, 3, m);
  }

  /** No supported determinant starts another one. */
  lemma LengthPrefixFree(v: nat, w: nat, aligned: bool, pos: nat)
    requires v < ASN_16K && w < ASN_16K
    requires EncodeLength(v, aligned, pos).bits <= EncodeLength(w, aligned, pos).bits
    ensures v == w
  {
    var a, b := EncodeLength(v, aligned, pos).bits, EncodeLength(w, aligned, pos).bits;
    var s := Zeros(pos) + b;
    assert s[pos..pos + |b|] == b && s[pos..pos + |a|] == a;
    LengthRoundTrip(s, pos, v, aligned);
    LengthRoundTrip(s, pos, w, aligned);
  }

  /** What a determinant takes: nothing but padding before it, one octet below 128, two
      below 16K, and in the aligned variant three up to 64K; others are refused. */
  lemma DeterminantSize(val: nat, aligned: bool, pos: nat)
    ensures var e := EncodeLength(val, aligned, pos);
            var pad := if aligned then AlignUp(pos) - pos else 0;
            if val < 128 then e.Encoded? && |e.bits| == pad + 8
            else if val < 16384 then e.Encoded? && |e.bits| == pad + 16
            else if aligned && val <= 65536 then e.Encoded? && |e.bits| == pad + 24
            else e == Refused
  {
  }

  /** A determinant that is written is the shortest of those that the reader takes for its
      value: no stream gives that value in fewer bits. */
  lemma ShortestLength(s: seq<bool>, pos: nat, aligned: bool)
    ensures var d := DecodeLength(s, pos, aligned);
            d.Decoded? ==>
              && EncodeLength(d.value, aligned, pos).Encoded?
              && d.pos - pos >= |EncodeLength(d.value, aligned, pos).bits|
  {
    hide Read, AlignUp;
    Pow2Values();
    ReadsBounded(s);
    var d := DecodeLength(s, pos, aligned);
    if d.Decoded? { DeterminantSize(d.value, aligned, pos); }
  }

  lemma ReadsBounded(s: seq<bool>)
    ensures forall p: nat, n: nat ::
              var d := Read(s, p, n); d.Decoded? ==> d.value < Pow2(n) && d.pos == p + n <= |s|
  {
    forall p: nat, n: nat ensures var d := Read(s, p, n); d.Decoded? ==> d.value < Pow2(n) && d.pos == p + n <= |s| {
      ReadBound(s, p, n);
    }
  }

  /** A single bit as a number. */
  lemma ReadBit(s: seq<bool>, p: nat)
    ensures Read(s, p, 1) == if p < |s| then Decoded(if s[p] then 1 else 0, p + 1) else DecodeUndefined
  {
    if p < |s| {
      var v := if s[p] then 1 else 0;
      NatBitsBit(v);
      Pow2Values();
      assert s[p..p + 1] == NatBits(v, 1);
      ReadBack(s, p, v, 1);
    }
  }

  /** The first two bits of an octet as they appear in its number. */
  lemma OctetTop(s: seq<bool>, p: nat)
    requires p + 8 <= |s|
    ensures var d := Read(s, p, 8);
            && d.Decoded? && d.pos == p + 8
            && (s[p] <==> d.value >= 128) && (s[p] && s[p + 1] <==> d.value >= 192)
  {
    Pow2Values();
    var a, b, x := if s[p] then 1 else 0, if s[p + 1] then 1 else 0, NatAt(s, p + 2, p + 8);
    NatAtDef(s, p + 2, p + 8);
    NatBitsBit(a);
    NatBitsBit(b);
    ShlDef(a, 1);
    ShlDef(2 * a, 0);
    SplicedBits(a, 1, b, 1);
    assert s[p..p + 8] == NatBits(2 * a + b, 2) + NatBits(x, 6);
    PrefixedOctet(s, p, 2 * a + b, x);
  }

  /** The reader rejects exactly the determinants that start with two ones, which announce
      fragments. */
  lemma FragmentsRejected(s: seq<bool>, pos: nat, aligned: bool)
    ensures var p, n := AlignIf(aligned, pos), if aligned then 8 else 2;
            DecodeLength(s, pos, aligned).Rejected? <==> p + n <= |s| && s[p] && s[p + 1]
    ensures var d := DecodeLength(s, pos, aligned);
            d.Rejected? ==> d.at == if aligned then AlignUp(pos) + 8 else pos + 2
  {
    hide Read, AlignUp;
    Pow2Values();
    if aligned {
      var p := AlignUp(pos);
      ReadTakes(s, p, 8);
      ReadTakes(s, p + 8, 8);
      if p + 8 <= |s| { OctetTop(s, p); }
    } else {
      ReadBit(s, pos);
      ReadBit(s, pos + 1);
      ReadTakes(s, pos + 1, 7);
      ReadTakes(s, pos + 2, 14);
    }
  }

  /** The long form of a normally small number is rejected behind its first bit. */
  lemma LongSmallRejected(s: seq<bool>, pos: nat)
    ensures DecodeSmall(s, pos).Rejected? <==> pos < |s| && s[pos]
    ensures DecodeSmall(s, pos).Rejected? ==> DecodeSmall(s, pos) == Rejected(pos + 1)
    ensures var d := DecodeSmall(s, pos); d.Decoded? ==> d.value <= 63 && d.pos == pos + 7
  {
    Pow2Values();
    ReadBit(s, pos);
    ReadBound(s, pos + 1, 6);
  }

  method PackLength(bref: BitRef, val: nat, aligned: bool) returns (code: Code)
    requires bref.Valid()
    modifies bref
    ensures bref.Valid() && Appended(old(bref.bits), bref.bits, code, EncodeLength(val, aligned, |old(bref.bits)|))
    ensures code != Success ==> bref.bits == old(bref.bits)
  {
    if !aligned {
      if val < ASN_16K {
        PackDeterminant(bref, val);
        return Success;
      }
      return EncodeFail;
    } else {
      if val > ASN_64K {
        return EncodeFail;
      }
      bref.AlignBytesZero();
      PackDeterminant(bref, val);
      return Success;
    }
  }

  method PackDeterminant(bref: BitRef, val: nat)
    requires bref.Valid() && val <= ASN_64K
    modifies bref
    ensures bref.Valid() && bref.bits == old(bref.bits) + LengthBits(val)
  {
    hide NatBits;
    ghost var before := bref.bits;
    if val < 128 {
      bref.Pack(val, 8);
    } else if val < ASN_16K {
      bref.Pack(2, 2);
      bref.Pack(val, 14);
      assert bref.bits == before + (NatBits(2, 2) + NatBits(val, 14));
    } else {
      bref.Pack(3, 2);
      var m := val / ASN_16K;
      bref.Pack(m, 6);
      bref.Pack(val - m * ASN_16K, 16);
      assert bref.bits == before + (NatBits(3, 2) + (NatBits(m, 6) + NatBits(val % ASN_16K, 16)));
    }
  }

  /** The out-parameter is returned with the code, as callers may ignore the latter. */
  method UnpackLength(bref: CBitRef, aligned: bool) returns (val: nat, ok: bool)
    requires bref.Valid() && LengthOut(bref.stream, bref.pos, aligned).Decoded?
    modifies bref
    ensures bref.Valid() && LengthOut(bref.stream, old(bref.pos), aligned) == Decoded((val, ok), bref.pos)
  {
    if !aligned {
      val, ok := UnpackUnaligned(bref);
    } else {
      bref.AlignBytes();
      val := bref.Unpack(8);
      if val < 128 {
        return val, true;
      }
      val := val - 128;
      if val < 64 {
        var second := bref.Unpack(8);
        return val * 256 + second, true;
      }
      ok := false;
    }
  }

  method UnpackUnaligned(bref: CBitRef) returns (val: nat, ok: bool)
    requires bref.Valid() && LengthOut(bref.stream, bref.pos, false).Decoded?
    modifies bref
    ensures bref.Valid() && LengthOut(bref.stream, old(bref.pos), false) == Decoded((val, ok), bref.pos)
  {
    ok := true;
    var ext := bref.Unpack(1);
    if ext == 0 {
      val := bref.Unpack(7);
    } else {
      ext := bref.Unpack(1);
      if ext == 0 {
        val := bref.Unpack(14);
      } else {
        val, ok := 0, false;
      }
    }
  }
}
