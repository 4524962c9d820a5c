/** Which bit strings survive being written and read, where, and what becomes of others. */
module BitStringLaws {
  import opened Bits
  import opened Per
  import opened BitRefs
  import opened Lengths
  import opened Numbers
  import opened Integers
  import opened BitStrings

  /** One bit string, written at one place, is read back. */
  ghost predicate Survives(s: seq<bool>, pos: nat, buf: seq<byte>, n: nat, lb: nat, ub: nat, ext: bool, aligned: bool)
    requires |buf| == CeilOctets(n)
  {
    var e := EncodeBitString(buf, n, lb, ub, ext, aligned, pos);
    e.Encoded? && At(s, pos, e.bits) ==>
      DecodeBitString(s, pos, lb, ub, ext, aligned) == Decoded((n, Canonical(buf, n)), pos + |e.bits|)
  }

  /** Where the prefix starts after the extension bit. */
  function BodyAt(pos: nat, ext: bool): nat {
    if ext then pos + 1 else pos
  }

  lemma FiniteSize(lb: nat, ub: nat)
    requires lb < ub < UnboundedSize()
    ensures CeilLog2(ub - lb) <= 32
  {
    if CeilLog2(ub - lb) > 32 { Pow2Monotone(32, CeilLog2(ub - lb) - 1); }
  }

  // Strings of zeros.

  function ZeroOctets(n: nat): (buf: seq<byte>)
    ensures |buf| == CeilOctets(n)
  {
    seq(CeilOctets(n), _ => 0)
  }

  /** Behind its prefix, a string of zeros is nothing but zeros. */
  lemma ZeroStringEncoded(n: nat, lb: nat, ub: nat, ext: bool, aligned: bool, pos: nat) returns (k: nat)
    requires n >= 1 && EncodePrefix(n, lb, ub, ext, aligned, pos).Encoded?
    ensures k >= 1 && EncodeBitString(ZeroOctets(n), n, lb, ub, ext, aligned, pos)
                      == Encoded(EncodePrefix(n, lb, ub, ext, aligned, pos).bits + Zeros(k))
  {
    hide EncodePrefix, NatBits;
    var prefix := EncodePrefix(n, lb, ub, ext, aligned, pos).bits;
    var pad := PadIf(FieldAligned(lb, ub, aligned), pos + |prefix|);
    BitFieldNumber(ZeroOctets(n), n);
    ZeroNumber(ZeroOctets(n));
    NatBitsZero(n);
    k := |pad| + n;
    assert pad + Zeros(n) == Zeros(k);
  }

  /** A stream in which a string of zeros stands at a position, with zeros before and
      after it. */
  lemma ZeroStringStream(n: nat, lb: nat, ub: nat, ext: bool, aligned: bool, pos: nat) returns (s: seq<bool>, m: nat)
    requires n >= 1 && EncodePrefix(n, lb, ub, ext, aligned, pos).Encoded?
    ensures var e := EncodeBitString(ZeroOctets(n), n, lb, ub, ext, aligned, pos); e.Encoded? && At(s, pos, e.bits)
    ensures m >= 17 && s == Zeros(pos) + (EncodePrefix(n, lb, ub, ext, aligned, pos).bits + Zeros(m))
  {
    hide EncodeBitString;
    var prefix := EncodePrefix(n, lb, ub, ext, aligned, pos).bits;
    var k := ZeroStringEncoded(n, lb, ub, ext, aligned, pos);
    m := k + 16;
    s := Zeros(pos) + (prefix + Zeros(m));
    assert s[pos..pos + |prefix + Zeros(k)|] == prefix + Zeros(k);
  }

  /** A string whose length is misread does not survive. */
  lemma Lost(s: seq<bool>, pos: nat, buf: seq<byte>, n: nat, lb: nat, ub: nat, ext: bool, aligned: bool)
    requires |buf| == CeilOctets(n)
    requires var e := EncodeBitString(buf, n, lb, ub, ext, aligned, pos); e.Encoded? && At(s, pos, e.bits)
    requires var d := DecodePrefix(s, pos, lb, ub, ext, aligned); d.Decoded? ==> d.value != n
    ensures !Survives(s, pos, buf, n, lb, ub, ext, aligned)
  {
    hide EncodeBitString, At, Canonical, DecodeBitField;
  }

  lemma BoundedPrefix(n: nat, lb: nat, ub: nat, ext: bool, aligned: bool, pos: nat) returns (j: nat)
    requires lb <= n <= ub && lb < ub < UnboundedSize()
    ensures EncodePrefix(n, lb, ub, ext, aligned, pos)
         == Encoded(Zeros(BodyAt(pos, ext) - pos) + (NatBits(n - lb, CeilLog2(ub - lb)) + Zeros(j)))
  {
    FiniteSize(lb, ub);
    var w := CeilLog2(ub - lb);
    var pad := PadIf(aligned, BodyAt(pos, ext) + w);
    j := |pad|;
    assert pad == Zeros(j);
    NatBitsZero(1);
    assert [] + (NatBits(n - lb, w) + Zeros(j)) == NatBits(n - lb, w) + Zeros(j);
  }

  lemma Regroup(a: nat, e: nat, bits: seq<bool>, j: nat, m: nat)
    ensures Zeros(a) + ((Zeros(e) + (bits + Zeros(j))) + Zeros(m)) == Zeros(a + e) + (bits + Zeros(j + m))
  {
  }

  /** The stream of a string within bounds, in terms of the prefix after the extension bit. */
  lemma BoundedStream(n: nat, lb: nat, ub: nat, ext: bool, aligned: bool, pos: nat) returns (s: seq<bool>, m: nat)
    requires 1 <= n && lb <= n <= ub && lb < ub < UnboundedSize()
    ensures var e := EncodeBitString(ZeroOctets(n), n, lb, ub, ext, aligned, pos); e.Encoded? && At(s, pos, e.bits)
    ensures m >= 17 && s == Zeros(BodyAt(pos, ext)) + (NatBits(n - lb, CeilLog2(ub - lb)) + Zeros(m))
    ensures ext ==> pos < |s| && !s[pos]
  {
    hide EncodeBitString, At, EncodePrefix, NatBits, CeilLog2, ZeroOctets;
    var j := BoundedPrefix(n, lb, ub, ext, aligned, pos);
    var m0;
    s, m0 := ZeroStringStream(n, lb, ub, ext, aligned, pos);
    m := j + m0;
    Regroup(pos, BodyAt(pos, ext) - pos, NatBits(n - lb, CeilLog2(ub - lb)), j, m0);
  }

  lemma ZeroRead(s: seq<bool>, q: nat, k: nat)
    requires q + k <= |s| && forall i | q <= i < q + k :: !s[i]
    ensures At(s, q, NatBits(0, k)) && Read(s, q, k) == Decoded(0, q + k)
  {
    NatBitsZero(k);
    assert s[q..q + k] == Zeros(k);
    Pow2Monotone(0, k);
    Pow2Def(0);
    ReadBack(s, q, 0, k);
  }

  // A prefix of the wrong width.

  /** Where the reader takes a plain field one bit wider than the writer's, the string of
      lb + 1 zeros is read as one of lb or lb + 2 bits. */
  lemma PlainLost(lb: nat, ub: nat, ext: bool, aligned: bool, pos: nat) returns (s: seq<bool>)
    requires lb < ub < ASN_64K && IsPow2(ub - lb) && (aligned ==> ub - lb + 1 < 256)
    ensures !Survives(s, pos, ZeroOctets(lb + 1), lb + 1, lb, ub, ext, aligned)
  {
    hide EncodeBitString, At, Survives, ZeroOctets, DecodePrefix, DecodeBoundedLength, Read, NatBits, CeilLog2, BodyAt;
    SizeIsBounded(ub);
    var p, w := BodyAt(pos, ext), CeilLog2(ub - lb);
    var m;
    s, m := BoundedStream(lb + 1, lb, ub, ext, aligned, pos);
    var raw := if w == 0 then 0 else 2;
    StolenBit(s, p, w, m, raw);
    RawWithin(ub - lb, w, raw);
    PrefixWidths(ub - lb);
    PlainConstrained(s, p, lb + raw, lb, ub, aligned, w + 1);
    WithinBoundsRead(s, pos, lb, ub, ext, aligned);
    Lost(s, pos, ZeroOctets(lb + 1), lb + 1, lb, ub, ext, aligned);
  }

  lemma WithinBoundsRead(s: seq<bool>, pos: nat, lb: nat, ub: nat, ext: bool, aligned: bool)
    requires lb < ub < UnboundedSize() && (ext ==> pos < |s| && !s[pos])
    ensures DecodePrefix(s, pos, lb, ub, ext, aligned) == DecodeBoundedLength(s, BodyAt(pos, ext), lb, ub, aligned)
  {
    hide DecodeBoundedLength;
    if ext { ZeroRead(s, pos, 1); }
  }

  lemma SizeIsBounded(ub: nat)
    requires ub < ASN_64K
    ensures ub < UnboundedSize()
  {
    Pow2Values();
    Pow2Strict(16, 32);
  }

  lemma RawWithin(d: nat, w: nat, raw: nat)
    requires d == Pow2(w) && raw == if w == 0 then 0 else 2
    ensures raw <= d
  {
    Pow2Def(w);
  }

  lemma StolenBit(s: seq<bool>, p: nat, w: nat, m: nat, raw: nat)
    requires m >= 1 && s == Zeros(p) + (NatBits(1, w) + Zeros(m)) && raw == if w == 0 then 0 else 2
    ensures At(s, p, NatBits(raw, w + 1))
  {
    var c := Low(1, w);
    Pow2Values();
    assert c == if w == 0 then 0 else 1 by {
      LowDef(1, w);
      if w > 0 { LowZero(w - 1); }
    }
    NatBitsZero(1);
    NatBitsLow(1, w);
    SplicedBits(c, w, 0, 1);
    ShlDef(c, 1);
    ShlDef(2 * c, 0);
    assert s[p..p + w + 1] == NatBits(1, w) + NatBits(0, 1);
  }

  /** What the reader makes of whole octets. */
  lemma OctetsMisread(s: seq<bool>, p: nat, lb: nat, ub: nat, raw: nat)
    requires lb < ub < ASN_64K && ub - lb + 1 >= 256
    requires var w := 8 * CeilOctets(CeilLog2(ub - lb + 1)); Read(s, AlignUp(p), w) == Decoded(raw, AlignUp(p) + w)
    ensures var d := DecodeBoundedLength(s, p, lb, ub, true); d.Decoded? && d.value == lb + raw
  {
    var nBits := CeilLog2(ub - lb + 1);
    SmallRange(lb, ub, nBits);
    Pow2Values();
    Pow2Strict(17, 64);
    Pow2Def(17);
    OctetsSum(s, p, lb, nBits, raw);
  }

  lemma OctetsSum(s: seq<bool>, p: nat, lb: nat, nBits: nat, raw: nat)
    requires lb < ASN_64K && CeilOctets(nBits) <= 2
    requires var w := 8 * CeilOctets(nBits); Read(s, AlignUp(p), w) == Decoded(raw, AlignUp(p) + w)
    ensures var d := DecodeOctetForm(UINT32, s, p, lb, nBits); d.Decoded? && d.value == lb + raw
  {
    var w := 8 * CeilOctets(nBits);
    ReadBound(s, AlignUp(p), w);
    Pow2Monotone(w, 16);
    Pow2Values();
    Pow2Monotone(17, 32);
    Pow2Def(17);
    OffsetRestored(UINT32, lb + raw, lb, AlignUp(AlignUp(p) + w));
  }

  /** The widths that writer and reader use for ranges of 256 and above. */
  lemma OctetWidths(lb: nat, ub: nat)
    requires lb < ub < ASN_64K && ub - lb + 1 >= 256
    ensures var w, f := CeilLog2(ub - lb), 8 * CeilOctets(CeilLog2(ub - lb + 1)); 8 <= w <= f <= 16
    ensures 8 * CeilOctets(CeilLog2(ub - lb + 1)) in {8, 16}
  {
    var w, n := CeilLog2(ub - lb), CeilLog2(ub - lb + 1);
    Pow2Values();
    if w < 8 { Pow2Monotone(w, 7); }
    if n > 16 { Pow2Monotone(16, n - 1); }
    if n < w { Pow2Monotone(n, w - 1); }
  }

  /** At an octet boundary, where the reader takes more octets than the writer wrote bits,
      the string of lb + 1 zeros is read as a longer one. */
  lemma OctetsLost(lb: nat, ub: nat, ext: bool, pos: nat) returns (s: seq<bool>)
    requires lb < ub < ASN_64K && ub - lb + 1 >= 256
    requires var p := BodyAt(pos, ext); AlignUp(p) == p
    requires CeilLog2(ub - lb) != 8 * CeilOctets(CeilLog2(ub - lb + 1))
    ensures !Survives(s, pos, ZeroOctets(lb + 1), lb + 1, lb, ub, ext, true)
  {
    hide EncodeBitString, Survives, DecodeBoundedLength, BodyAt, ZeroOctets, Read, DecodePrefix, At, NatBits, CeilLog2;
    SizeIsBounded(ub);
    OctetWidths(lb, ub);
    var p, w, f := BodyAt(pos, ext), CeilLog2(ub - lb), 8 * CeilOctets(CeilLog2(ub - lb + 1));
    var m;
    s, m := BoundedStream(lb + 1, lb, ub, ext, true, pos);
    var raw := Pow2(f - w);
    assert s[p..p + f] == NatBits(1, w) + Zeros(f - w);
    ShiftedOne(w, f - w);
    Pow2Strict(0, f - w);
    Pow2Strict(f - w, f);
    Pow2Def(0);
    ReadBack(s, p, raw, f);
    OctetsMisread(s, p, lb, ub, raw);
    WithinBoundsRead(s, pos, lb, ub, ext, true);
    Lost(s, pos, ZeroOctets(lb + 1), lb + 1, lb, ub, ext, true);
  }

  lemma ShiftedOne(w: nat, k: nat)
    requires w >= 1
    ensures NatBits(Pow2(k), w + k) == NatBits(1, w) + Zeros(k)
  {
    Pow2Monotone(0, k);
    Pow2Def(0);
    ShlPow2(0, k);
    SplicedBits(1, w, 0, k);
    NatBitsZero(k);
  }

  /** Behind the first r bits of the field, which hold its only one, there are zeros. */
  lemma SkippedBits(s: seq<bool>, p: nat, r: nat, w: nat, m: nat, f: nat)
    requires 1 <= r <= w && f <= m && s == Zeros(p) + (NatBits(Pow2(w - r), w) + Zeros(m))
    ensures Read(s, p + r, f) == Decoded(0, p + r + f)
  {
    hide NatBits, Pow2, Read;
    ShiftedOne(r, w - r);
    ZeroRead(s, p + r, f);
  }

  /** Off an octet boundary the reader skips the first bits of the length: a string whose
      length has its one bit among them is read as the shortest. */
  lemma SkippedLost(lb: nat, ub: nat, ext: bool, pos: nat) returns (s: seq<bool>, n: nat)
    requires lb < ub < ASN_64K && ub - lb + 1 >= 256
    requires var p := BodyAt(pos, ext); AlignUp(p) != p
    ensures 1 <= n && lb <= n <= ub && !Survives(s, pos, ZeroOctets(n), n, lb, ub, ext, true)
  {
    hide EncodeBitString, Survives, DecodeBoundedLength, BodyAt, ZeroOctets, Read, DecodePrefix, At, NatBits, CeilLog2;
    SizeIsBounded(ub);
    OctetWidths(lb, ub);
    var p, w, f := BodyAt(pos, ext), CeilLog2(ub - lb), 8 * CeilOctets(CeilLog2(ub - lb + 1));
    var r := AlignUp(p) - p;
    var v := Pow2(w - r);
    Pow2Monotone(w - r, w - 1);
    Pow2Monotone(0, w - r);
    Pow2Def(0);
    n := lb + v;
    var m;
    s, m := BoundedStream(n, lb, ub, ext, true, pos);
    SkippedBits(s, p, r, w, m, f);
    OctetsMisread(s, p, lb, ub, 0);
    WithinBoundsRead(s, pos, lb, ub, ext, true);
    Lost(s, pos, ZeroOctets(n), n, lb, ub, ext, true);
  }

  /** With an upper bound of 64K or more the reader takes a general determinant, and finds
      the length 0 where the shortest string was written. */
  lemma LargeLost(lb: nat, ub: nat, ext: bool, aligned: bool, pos: nat) returns (s: seq<bool>, n: nat)
    requires lb < ub && ASN_64K <= ub < UnboundedSize()
    ensures 1 <= n && lb <= n <= ub && !Survives(s, pos, ZeroOctets(n), n, lb, ub, ext, aligned)
  {
    hide EncodeBitString, Survives, At, ZeroOctets, DecodePrefix;
    var p, w := BodyAt(pos, ext), CeilLog2(ub - lb);
    n := if lb == 0 then 1 else lb;
    var m;
    s, m := BoundedStream(n, lb, ub, ext, aligned, pos);
    LeadingZeros(n - lb, w, m, ub - lb);
    assert forall i | p <= i < p + 15 :: !s[i] by {
      assert forall i | p <= i < p + 15 :: s[i] == (NatBits(n - lb, w) + Zeros(m))[i - p];
    }
    ZeroLength(s, p, aligned);
    WithinBoundsRead(s, pos, lb, ub, ext, aligned);
    Lost(s, pos, ZeroOctets(n), n, lb, ub, ext, aligned);
  }

  lemma LeadingZeros(v: nat, w: nat, m: nat, d: nat)
    requires m >= 17 && w == CeilLog2(if d >= 1 then d else 1) && (v == 0 || (v == 1 && d >= ASN_64K))
    ensures forall i | 0 <= i < 15 :: !(NatBits(v, w) + Zeros(m))[i]
  {
    Pow2Values();
    if v == 0 {
      NatBitsZero(w);
    } else {
      if w < 16 { Pow2Strict(w, 16); }
      NatBitsZeroExtend(1, w - 1, 1);
      NatBitsZero(w - 1);
    }
  }

  lemma ZeroLength(s: seq<bool>, p: nat, aligned: bool)
    requires p + 15 <= |s| && forall i | p <= i < p + 15 :: !s[i]
    ensures var d := DecodeLength(s, p, aligned); d.Decoded? && d.value == 0
  {
    Pow2Values();
    ZeroRead(s, AlignIf(aligned, p), 8);
    assert EncodeLength(0, aligned, p).bits == PadIf(aligned, p) + NatBits(0, 8) by {
      if !aligned { assert [] + NatBits(0, 8) == NatBits(0, 8); }
    }
    assert At(s, p, PadIf(aligned, p)) by { assert s[p..p + |PadIf(aligned, p)|] == PadIf(aligned, p); }
    AtSplit(s, p, PadIf(aligned, p), NatBits(0, 8));
    LengthRoundTrip(s, p, 0, aligned);
  }

  /** Strings of a fixed size above 64K bits are written and rejected. */
  lemma FixedLost(n: nat, ext: bool, aligned: bool, pos: nat) returns (s: seq<bool>)
    requires ASN_64K < n < UnboundedSize()
    ensures !Survives(s, pos, ZeroOctets(n), n, n, n, ext, aligned)
  {
    hide EncodeBitString, Canonical;
    var m;
    s, m := ZeroStringStream(n, n, n, ext, aligned, pos);
    NatBitsZero(1);
    if ext { ZeroRead(s, pos, 1); }
  }

  // Strings within the bounds of their type.

  /** All strings within bounds, written at a position, survive. */
  ghost predicate BoundedStringsSurvive(lb: nat, ub: nat, ext: bool, aligned: bool, pos: nat) {
    forall s: seq<bool>, buf: seq<byte>, n: nat | 1 <= n && lb <= n <= ub && |buf| == CeilOctets(n) ::
      Survives(s, pos, buf, n, lb, ub, ext, aligned)
  }

  /** Which types of bounded strings survive at a position. */
  predicate BoundedSafe(lb: nat, ub: nat, aligned: bool, p: nat)
    requires lb <= ub
  {
    if lb == ub then ub <= ASN_64K else BoundedAgrees(lb, ub, aligned, p)
  }

  /** Strings of lb..ub bits, extensible or not, survive at a position if and only if their
      size is fixed to at most 64K, or writer and reader agree on the length there. */
  lemma BoundedStringsExact(lb: nat, ub: nat, ext: bool, aligned: bool, pos: nat)
    requires lb <= ub < UnboundedSize()
    ensures BoundedStringsSurvive(lb, ub, ext, aligned, pos) <==> BoundedSafe(lb, ub, aligned, BodyAt(pos, ext))
  {
    hide Survives;
    var p := BodyAt(pos, ext);
    if BoundedSafe(lb, ub, aligned, p) {
      forall s: seq<bool>, buf: seq<byte>, n: nat | 1 <= n && lb <= n <= ub && |buf| == CeilOctets(n)
        ensures Survives(s, pos, buf, n, lb, ub, ext, aligned)
      {
        SafeSurvives(s, pos, buf, n, lb, ub, ext, aligned);
      }
    } else {
      var s, n := BoundedLost(lb, ub, ext, aligned, pos);
    }
  }

  lemma SafeSurvives(s: seq<bool>, pos: nat, buf: seq<byte>, n: nat, lb: nat, ub: nat, ext: bool, aligned: bool)
    requires 1 <= n && lb <= n <= ub < UnboundedSize() && |buf| == CeilOctets(n)
    requires BoundedSafe(lb, ub, aligned, BodyAt(pos, ext))
    ensures Survives(s, pos, buf, n, lb, ub, ext, aligned)
  {
    hide EncodeBitString, DecodeBitString, Canonical, At;
    var e := EncodeBitString(buf, n, lb, ub, ext, aligned, pos);
    if e.Encoded? && At(s, pos, e.bits) {
      BitStringRoundTrip(s, pos, buf, n, lb, ub, ext, aligned);
    }
  }

  /** For every other type and position, a string and a stream on which the round trip
      fails. */
  lemma BoundedLost(lb: nat, ub: nat, ext: bool, aligned: bool, pos: nat) returns (s: seq<bool>, n: nat)
    requires lb <= ub < UnboundedSize() && !BoundedSafe(lb, ub, aligned, BodyAt(pos, ext))
    ensures 1 <= n && lb <= n <= ub && !Survives(s, pos, ZeroOctets(n), n, lb, ub, ext, aligned)
  {
    hide Survives;
    if lb == ub {
      n := ub;
      s := FixedLost(n, ext, aligned, pos);
    } else if ub >= ASN_64K {
      s, n := LargeLost(lb, ub, ext, aligned, pos);
    } else if !aligned || ub - lb + 1 < 256 {
      n := lb + 1;
      s := PlainLost(lb, ub, ext, aligned, pos);
    } else if AlignUp(BodyAt(pos, ext)) != BodyAt(pos, ext) {
      s, n := SkippedLost(lb, ub, ext, pos);
    } else {
      n := lb + 1;
      s := OctetsLost(lb, ub, ext, pos);
    }
  }

  /** They survive at every position if and only if their size is fixed to at most 64K, or
      below 64K with ub - lb not a power of two and, in the aligned variant, fewer than
      256 sizes. */
  lemma BoundedStringsEverywhere(lb: nat, ub: nat, ext: bool, aligned: bool)
    requires lb <= ub < UnboundedSize()
    ensures (forall pos: nat :: BoundedStringsSurvive(lb, ub, ext, aligned, pos))
       <==> if lb == ub then ub <= ASN_64K
            else ub < ASN_64K && !IsPow2(ub - lb) && (aligned ==> ub - lb + 1 < 256)
  {
    hide BoundedStringsSurvive;
    forall pos: nat
      ensures BoundedStringsSurvive(lb, ub, ext, aligned, pos) <==> BoundedSafe(lb, ub, aligned, BodyAt(pos, ext))
    {
      BoundedStringsExact(lb, ub, ext, aligned, pos);
    }
    var off := if ext then 0 else 1;
    assert AlignUp(1) == 8;
    assert BoundedStringsSurvive(lb, ub, ext, aligned, off) <==> BoundedSafe(lb, ub, aligned, 1);
  }

  // Strings whose length is written as a general determinant.

  /** The longest length a general determinant can have. */
  const LONGEST := ASN_16K - 1

  /** The stream of a string of zeros without an upper bound, or outside its bounds. */
  lemma GeneralStream(n: nat, lb: nat, ub: nat, ext: bool, aligned: bool, pos: nat)
    returns (s: seq<bool>, before: seq<bool>, m: nat)
    requires 1 <= n < ASN_16K && lb <= ub
    requires if ext then ub < UnboundedSize() && !(lb <= n <= ub) else lb < ub == UnboundedSize() && lb <= n
    ensures var e := EncodeBitString(ZeroOctets(n), n, lb, ub, ext, aligned, pos); e.Encoded? && At(s, pos, e.bits)
    ensures |before| == BodyAt(pos, ext) && m >= 17 && s == before + (LengthBits(n) + Zeros(m))
    ensures DecodePrefix(s, pos, lb, ub, ext, aligned) == DecodeLength(s, BodyAt(pos, ext), aligned)
  {
    hide EncodeBitString, At, DecodeLength;
    UnboundedIsLarge();
    s, m := ZeroStringStream(n, lb, ub, ext, aligned, pos);
    before := Zeros(pos) + if ext then [true] else [];
    NatBitsBit(1);
    assert s == before + (LengthBits(n) + Zeros(m));
    if ext { OneRead(s, pos); }
  }

  lemma UnboundedIsLarge()
    ensures UnboundedSize() > ASN_64K
  {
    Pow2Values();
    Pow2Strict(16, 32);
    Pow2Strict(16, 17);
    Pow2Def(17);
    Pow2Monotone(17, 32);
  }

  lemma OneRead(s: seq<bool>, pos: nat)
    requires pos < |s| && s[pos]
    ensures Read(s, pos, 1) == Decoded(1, pos + 1)
  {
    NatBitsBit(1);
    Pow2Values();
    assert s[pos..pos + 1] == [s[pos]];
    ReadBack(s, pos, 1, 1);
  }

  lemma {:induction false} OnesBits(n: nat)
    ensures NatBits(Pow2(n) - 1, n) == seq(n, _ => true)
  {
    Pow2Def(n);
    if n == 0 {
      NatBitsZero(0);
    } else {
      OnesBits(n - 1);
      NatBitsInit(Pow2(n) - 1, n);
      var bits := NatBits(Pow2(n) - 1, n);
      assert bits == bits[..n - 1] + [bits[n - 1]];
    }
  }

  /** Read off its boundary, the longest length is rejected or taken for 127. */
  lemma LongestMisread(s: seq<bool>, p: nat, before: seq<bool>, m: nat)
    requires |before| == p && AlignUp(p) != p && s == before + (LengthBits(LONGEST) + Zeros(m))
    ensures var d := DecodeLength(s, p, true); d.Decoded? ==> d.value != LONGEST
  {
    var q := AlignUp(p);
    var r := q - p;
    Pow2Values();
    OnesBits(14);
    OnesBits(7);
    OnesBits(8);
    NatBitsInit(2, 2);
    NatBitsBit(1);
    assert NatBits(2, 2) == [true, false];
    if r == 1 {
      NatBitsZeroExtend(127, 1, 7);
      NatBitsZero(1);
      assert s[q..q + 8] == NatBits(127, 8);
      ReadBack(s, q, 127, 8);
    } else {
      assert s[q..q + 8] == NatBits(255, 8);
      ReadBack(s, q, 255, 8);
    }
  }

  /** Read off its boundary by r bits, the length 1 is taken for 2^r, or for 0 if r is 7. */
  lemma ShortestMisread(s: seq<bool>, p: nat, before: seq<bool>, m: nat)
    requires |before| == p && AlignUp(p) != p && m >= 16 && s == before + (LengthBits(1) + Zeros(m))
    ensures var d := DecodeLength(s, p, true); d.Decoded? && d.value != 1
  {
    var q := AlignUp(p);
    var r := q - p;
    Pow2Values();
    NatBitsZeroExtend(1, r, 8 - r) by { Pow2Strict(0, 8 - r); }
    ShiftedOne(8 - r, r);
    Pow2Strict(0, r);
    Pow2Monotone(r, 7);
    assert s[q..q + 8] == NatBits(Pow2(r), 8);
    ReadBack(s, q, Pow2(r), 8);
    if r == 7 { ZeroRead(s, q + 8, 8); } else { Pow2Strict(r, 7); }
  }

  /** All strings of at least lb bits without an upper bound, written at a position,
      survive. */
  ghost predicate UnboundedStringsSurvive(lb: nat, aligned: bool, pos: nat) {
    forall s: seq<bool>, buf: seq<byte>, n: nat | 1 <= n && lb <= n && |buf| == CeilOctets(n) ::
      Survives(s, pos, buf, n, lb, UnboundedSize(), false, aligned)
  }

  /** They do if and only if the variant is unaligned, the position is an octet boundary,
      or the least length is too long to be written; the writer does not align lengths. */
  lemma UnboundedStringsExact(lb: nat, aligned: bool, pos: nat)
    requires lb < UnboundedSize()
    ensures UnboundedStringsSurvive(lb, aligned, pos) <==> !aligned || AlignUp(pos) == pos || lb > LONGEST
  {
    hide Survives;
    UnboundedIsLarge();
    if !aligned || AlignUp(pos) == pos || lb > LONGEST {
      forall s: seq<bool>, buf: seq<byte>, n: nat | 1 <= n && lb <= n && |buf| == CeilOctets(n)
        ensures Survives(s, pos, buf, n, lb, UnboundedSize(), false, aligned)
      {
        GeneralSurvives(s, pos, buf, n, lb, UnboundedSize(), false, aligned);
      }
    } else {
      var s := GeneralLost(LONGEST, lb, UnboundedSize(), false, pos);
    }
  }

  /** All strings outside the bounds of an extensible type, written at a position, survive. */
  ghost predicate OutsideStringsSurvive(lb: nat, ub: nat, aligned: bool, pos: nat) {
    forall s: seq<bool>, buf: seq<byte>, n: nat | 1 <= n && !(lb <= n <= ub) && |buf| == CeilOctets(n) ::
      Survives(s, pos, buf, n, lb, ub, true, aligned)
  }

  /** They do if and only if the variant is unaligned, the length is at an octet boundary
      behind the extension bit, or no length outside the bounds can be written. */
  lemma OutsideStringsExact(lb: nat, ub: nat, aligned: bool, pos: nat)
    requires lb <= ub < UnboundedSize()
    ensures OutsideStringsSurvive(lb, ub, aligned, pos)
       <==> !aligned || AlignUp(pos + 1) == pos + 1 || (lb <= 1 && ub >= LONGEST)
  {
    hide Survives;
    if !aligned || AlignUp(pos + 1) == pos + 1 || (lb <= 1 && ub >= LONGEST) {
      forall s: seq<bool>, buf: seq<byte>, n: nat | 1 <= n && !(lb <= n <= ub) && |buf| == CeilOctets(n)
        ensures Survives(s, pos, buf, n, lb, ub, true, aligned)
      {
        GeneralSurvives(s, pos, buf, n, lb, ub, true, aligned);
      }
    } else if ub < LONGEST {
      var s := GeneralLost(LONGEST, lb, ub, true, pos);
    } else {
      var s := GeneralLost(1, lb, ub, true, pos);
    }
  }

  lemma GeneralSurvives(s: seq<bool>, pos: nat, buf: seq<byte>, n: nat, lb: nat, ub: nat, ext: bool, aligned: bool)
    requires 1 <= n && |buf| == CeilOctets(n) && lb <= ub
    requires if ext then ub < UnboundedSize() && !(lb <= n <= ub) else lb < ub == UnboundedSize() && lb <= n
    requires !aligned || AlignUp(BodyAt(pos, ext)) == BodyAt(pos, ext) || n > LONGEST
    ensures Survives(s, pos, buf, n, lb, ub, ext, aligned)
  {
    hide DecodeBitString, Canonical, At, EncodeBitField;
    UnboundedIsLarge();
    var e := EncodeBitString(buf, n, lb, ub, ext, aligned, pos);
    if e.Encoded? && At(s, pos, e.bits) {
      BitStringRoundTrip(s, pos, buf, n, lb, ub, ext, aligned);
    }
  }

  lemma GeneralLost(n: nat, lb: nat, ub: nat, ext: bool, pos: nat) returns (s: seq<bool>)
    requires n == 1 || n == LONGEST
    requires if ext then lb <= ub < UnboundedSize() && !(lb <= n <= ub) else lb < ub == UnboundedSize() && lb <= n
    requires AlignUp(BodyAt(pos, ext)) != BodyAt(pos, ext)
    ensures !Survives(s, pos, ZeroOctets(n), n, lb, ub, ext, true)
  {
    hide EncodeBitString, At, DecodeLength, Survives;
    var before, m;
    s, before, m := GeneralStream(n, lb, ub, ext, true, pos);
    if n == 1 {
      ShortestMisread(s, BodyAt(pos, ext), before, m);
    } else {
      LongestMisread(s, BodyAt(pos, ext), before, m);
    }
    Lost(s, pos, ZeroOctets(n), n, lb, ub, ext, true);
  }
}
