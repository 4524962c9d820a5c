/** Which ranges a reader of constrained whole numbers keeps its results in, whatever is
    on the wire. */
module NumberBounds {
  import opened Bits
  import opened Per
  import opened Lengths
  import opened Numbers

  /** A range of more than one value whose size can be computed. */
  predicate Ranged(t: IntType, lb: int, ub: int) {
    t.Valid() && lb < ub && RangeDefined(t, lb, ub) && ub - lb + 1 < Pow2(64)
  }

  function RangeBits(lb: int, ub: int): (n: nat)
    requires lb < ub
    ensures n >= 1
  {
    Pow2Def(0);
    CeilLog2(ub - lb + 1)
  }

  /** The number of bits of the widest raw value that the reader of a range can take in. */
  function FieldBits(lb: int, ub: int, aligned: bool): nat
    requires lb < ub
  {
    var nBits := RangeBits(lb, ub);
    if !aligned || ub - lb + 1 < 256 then nBits
    else if ub - lb + 1 <= ASN_64K then 8 * CeilOctets(nBits)
    else 8 * Pow2(LengthWidth(nBits))
  }

  /** More bits than any of the forms has, with alignment. */
  const AMPLE := 88

  /** Whatever is decoded is within the bounds, and whatever is on the wire is decoded or
      rejected, if only there are bits enough. */
  ghost predicate AlwaysWithin(t: IntType, lb: int, ub: int, aligned: bool)
    requires t.Valid()
  {
    forall s: seq<bool>, pos: nat ::
      var d := DecodeConstrained(t, s, pos, lb, ub, aligned);
      (d.Decoded? ==> lb <= d.value <= ub) && (pos + AMPLE <= |s| ==> d != DecodeUndefined)
  }

  /** What becomes of a raw value: the lower bound is added in the type, and in the
      unaligned variant the sum is compared with the upper bound. */
  ghost function Outcome(t: IntType, raw: nat, lb: int, ub: int, aligned: bool, p: nat): Decoding<int>
    requires t.Valid()
  {
    var d := AddBound(t, t.Wrap(raw), lb, p);
    if d.Decoded? && !aligned && d.value > ub then Rejected(d.pos) else d
  }

  // From the wire to raw values.

  lemma FieldWidths(t: IntType, lb: int, ub: int)
    requires Ranged(t, lb, ub)
    ensures RangeBits(lb, ub) <= t.Width() <= 64 && LengthWidth(RangeBits(lb, ub)) <= 3
    ensures 8 * CeilOctets(RangeBits(lb, ub)) <= t.Width()
    ensures ub - lb + 1 <= ASN_64K ==> RangeBits(lb, ub) <= 16
  {
    RangeWidth(t, lb, ub);
    LengthWidthSmall(RangeBits(lb, ub));
    OctetsFitType(t, CeilOctets(RangeBits(lb, ub)), RangeBits(lb, ub));
    Pow2Values();
    if RangeBits(lb, ub) > 16 { Pow2Monotone(16, RangeBits(lb, ub) - 1); }
  }

  /** Every stream holds some raw value of the field, unless it is too short. */
  lemma SomeRaw(t: IntType, s: seq<bool>, pos: nat, lb: int, ub: int, aligned: bool) returns (raw: nat, p: nat)
    requires Ranged(t, lb, ub) && FieldBits(lb, ub, aligned) <= t.Width()
    ensures raw < Pow2(FieldBits(lb, ub, aligned))
    ensures var d := DecodeConstrained(t, s, pos, lb, ub, aligned);
            d == Outcome(t, raw, lb, ub, aligned, p) || (d == DecodeUndefined && |s| < pos + AMPLE)
  {
    FieldWidths(t, lb, ub);
    Pow2Monotone(0, FieldBits(lb, ub, aligned));
    Pow2Def(0);
    raw, p := 0, 0;
    if !aligned || ub - lb + 1 < 256 {
      raw, p := PlainRaw(s, pos, RangeBits(lb, ub));
    } else if ub - lb + 1 <= ASN_64K {
      raw, p := OctetRaw(t, s, pos, lb, RangeBits(lb, ub));
    } else {
      raw, p := LongRaw(t, s, pos, lb, RangeBits(lb, ub));
    }
  }

  lemma PlainRaw(s: seq<bool>, pos: nat, n: nat) returns (raw: nat, p: nat)
    requires n <= 64
    ensures raw < Pow2(n)
    ensures Read(s, pos, n) == Decoded(raw, p) || (Read(s, pos, n) == DecodeUndefined && |s| < pos + 64)
  {
    ReadBound(s, pos, n);
    Pow2Monotone(0, n);
    Pow2Def(0);
    raw, p := 0, 0;
    if pos + n <= |s| { raw, p := Read(s, pos, n).value, pos + n; }
  }

  lemma OctetRaw(t: IntType, s: seq<bool>, pos: nat, lb: int, nBits: nat) returns (raw: nat, p: nat)
    requires t.Valid() && 8 * CeilOctets(nBits) <= t.Width()
    ensures raw < Pow2(8 * CeilOctets(nBits))
    ensures var d := DecodeOctetForm(t, s, pos, lb, nBits);
            d == AddBound(t, t.Wrap(raw), lb, p) || (d == DecodeUndefined && |s| < pos + AMPLE)
  {
    raw, p := PlainRaw(s, AlignUp(pos), 8 * CeilOctets(nBits));
    p := AlignUp(p);
  }

  lemma LongRaw(t: IntType, s: seq<bool>, pos: nat, lb: int, nBits: nat) returns (raw: nat, p: nat)
    requires t.Valid() && nBits >= 1 && LengthWidth(nBits) <= 3 && 8 * Pow2(LengthWidth(nBits)) <= t.Width()
    ensures raw < Pow2(8 * Pow2(LengthWidth(nBits)))
    ensures var d := DecodeLongForm(t, s, pos, lb, nBits);
            d == AddBound(t, t.Wrap(raw), lb, p) || (d == DecodeUndefined && |s| < pos + AMPLE)
  {
    hide Pow2, LengthWidth, AddBound;
    var w := LengthWidth(nBits);
    var k, q := PlainRaw(s, pos, w);
    Pow2Monotone(8 * (k + 1), 8 * Pow2(w));
    raw, p := PlainRaw(s, AlignUp(pos + w), 8 * (k + 1));
  }

  // From raw values to the wire.

  /** The bits by which a writer that ignores the range would send a raw value. */
  function RawBits(raw: nat, lb: int, ub: int, aligned: bool): seq<bool>
    requires lb < ub
  {
    var f := FieldBits(lb, ub, aligned);
    if aligned && ub - lb + 1 > ASN_64K then
      var w := LengthWidth(RangeBits(lb, ub));
      NatBits(Pow2(w) - 1, w) + (PadBits(w) + NatBits(raw, f))
    else NatBits(raw, f)
  }

  /** Every raw value of the field can be on the wire. */
  lemma EveryRaw(t: IntType, raw: nat, lb: int, ub: int, aligned: bool) returns (s: seq<bool>, p: nat)
    requires Ranged(t, lb, ub) && FieldBits(lb, ub, aligned) <= t.Width()
    requires raw < Pow2(FieldBits(lb, ub, aligned))
    ensures |s| >= AMPLE && DecodeConstrained(t, s, 0, lb, ub, aligned) == Outcome(t, raw, lb, ub, aligned, p)
  {
    hide At, AddBound, ReadInt, DecodeOctetForm, DecodeLongForm;
    var bits, f := RawBits(raw, lb, ub, aligned), FieldBits(lb, ub, aligned);
    s := bits + Zeros(AMPLE);
    FrontAt(bits, AMPLE);
    FieldWidths(t, lb, ub);
    if !aligned || ub - lb + 1 < 256 {
      ReadBack(s, 0, raw, f);
      ReadIntBack(t, s, raw, f);
      p := f;
    } else if ub - lb + 1 <= ASN_64K {
      ReadBack(s, 0, raw, f);
      p := OctetSent(t, s, raw, lb, RangeBits(lb, ub), f);
    } else {
      p := LongSent(t, s, raw, lb, RangeBits(lb, ub), f);
    }
  }

  lemma FrontAt(bits: seq<bool>, n: nat)
    ensures At(bits + Zeros(n), 0, bits)
  {
    assert (bits + Zeros(n))[0..|bits|] == bits;
  }

  lemma ReadIntBack(t: IntType, s: seq<bool>, raw: nat, f: nat)
    requires t.Valid() && f <= t.Width() && Read(s, 0, f) == Decoded(raw, f)
    ensures ReadInt(t, s, 0, f) == Decoded(t.Wrap(raw), f)
  {
  }

  lemma OctetSent(t: IntType, s: seq<bool>, raw: nat, lb: int, nBits: nat, f: nat) returns (p: nat)
    requires t.Valid() && f == 8 * CeilOctets(nBits) <= t.Width() && Read(s, 0, f) == Decoded(raw, f)
    ensures DecodeOctetForm(t, s, 0, lb, nBits) == AddBound(t, t.Wrap(raw), lb, p)
  {
    assert AlignUp(0) == 0;
    p := AlignUp(f);
    hide AlignUp;
  }

  lemma LongSent(t: IntType, s: seq<bool>, raw: nat, lb: int, nBits: nat, f: nat) returns (p: nat)
    requires t.Valid() && nBits >= 1 && f == 8 * Pow2(LengthWidth(nBits)) <= t.Width() && raw < Pow2(f)
    requires var w := LengthWidth(nBits); At(s, 0, NatBits(Pow2(w) - 1, w) + (PadBits(w) + NatBits(raw, f)))
    ensures DecodeLongForm(t, s, 0, lb, nBits) == AddBound(t, t.Wrap(raw), lb, p)
  {
    var w := LengthWidth(nBits);
    CountedReadBack(s, 0, Pow2(w) - 1, w, raw, f);
    hide AlignUp, LengthWidth, At;
    p := AlignUp(w) + f;
  }

  /** A count of octets that the type cannot take in is on the wire with any octets. */
  lemma TooWide(t: IntType, lb: int, ub: int) returns (s: seq<bool>)
    requires Ranged(t, lb, ub) && FieldBits(lb, ub, true) > t.Width()
    ensures |s| >= AMPLE && DecodeConstrained(t, s, 0, lb, ub, true) == DecodeUndefined
  {
    var w := LengthWidth(RangeBits(lb, ub));
    FieldWidths(t, lb, ub);
    s := NatBits(Pow2(w) - 1, w) + Zeros(AMPLE);
    assert s[0..w] == NatBits(Pow2(w) - 1, w);
    ReadBack(s, 0, Pow2(w) - 1, w);
  }

  // Which raw values lead out of bounds.

  lemma PastMax(t: IntType)
    requires t.Valid()
    ensures t.Wrap(t.Max() + 1) == t.Min()
  {
    Pow2Def(t.Width());
    WrapOfMultiple(t, t.Max() + 1, t.Min(), 1);
    WrapExact(t, t.Min());
  }

  predicate Kept(d: Decoding<int>, lb: int, ub: int) {
    d.Rejected? || (d.Decoded? && lb <= d.value <= ub)
  }

  /** A sum that the type can hold is what is decoded. */
  lemma SumFits(t: IntType, raw: nat, lb: int, ub: int, aligned: bool, p: nat)
    requires t.Valid() && t.Has(lb) && lb <= raw + lb <= t.Max()
    requires t.signed && !t.Promoted() ==> raw <= t.Max()
    ensures Outcome(t, raw, lb, ub, aligned, p)
         == if !aligned && raw + lb > ub then Rejected(p) else Decoded(raw + lb, p)
  {
    OffsetRestored(t, raw + lb, lb, p);
  }

  /** One more than the type can hold is undefined, or the least value. */
  lemma SumPastMax(t: IntType, raw: nat, lb: int, ub: int, aligned: bool, p: nat)
    requires t.Valid() && t.Has(lb) && t.Has(ub) && raw + lb == t.Max() + 1 && t.Min() < lb <= ub
    ensures !Kept(Outcome(t, raw, lb, ub, aligned, p), lb, ub)
  {
    WrapAdd(t, raw, lb);
    PastMax(t);
    if t.signed && !t.Promoted() {
      if raw <= t.Max() { WrapExact(t, raw); } else { TwiceMax(t, raw, lb); }
    }
  }

  /** A raw value beyond a signed type turns negative. */
  lemma TwiceMax(t: IntType, raw: nat, lb: int)
    requires t.Valid() && t.signed && t.Has(lb) && raw + lb == t.Max() + 1 && raw > t.Max()
    ensures t.Wrap(raw) + lb <= t.Min() && t.Wrap(t.Min()) == t.Min()
  {
    var k := WrapMultiple(t, raw);
    var P := Pow2(t.Width());
    Pow2Def(t.Width());
    WrapExact(t, t.Min());
    NegativeMultiple(k, P);
  }

  lemma NegativeMultiple(k: int, P: nat)
    ensures k <= -1 ==> k * P <= -(P as int)
    ensures k >= 0 ==> k * P >= 0
  {
  }

  /** The first value past the upper bound is not kept without a check. */
  lemma FirstPast(t: IntType, lb: int, ub: int, p: nat)
    requires Ranged(t, lb, ub) && (ub == t.Max() ==> t.Min() < lb)
    ensures !Kept(Outcome(t, ub - lb + 1, lb, ub, true, p), lb, ub)
  {
    var raw := ub - lb + 1;
    if ub == t.Max() {
      SumPastMax(t, raw, lb, ub, true, p);
    } else if t.signed && !t.Promoted() && raw > t.Max() {
      PastMax(t);
    } else {
      SumFits(t, raw, lb, ub, true, p);
    }
  }

  /** A range from the least to the largest value fills its field. */
  lemma LeastIsSafe(t: IntType, lb: int, ub: int)
    requires Ranged(t, lb, ub) && lb + Pow2(RangeBits(lb, ub)) - 1 > t.Max()
    ensures t.Min() < lb
  {
    RangeWidth(t, lb, ub);
    Pow2Monotone(RangeBits(lb, ub), t.Width());
    Pow2Def(t.Width());
  }

  lemma TrappingWidth(t: IntType, lb: int, ub: int)
    requires Ranged(t, lb, ub) && t.signed && !t.Promoted()
    ensures Pow2(RangeBits(lb, ub)) - 1 <= t.Max()
  {
    var k, w := RangeBits(lb, ub), t.Width();
    if k > w - 1 { Pow2Monotone(w - 1, k - 1); }
    Pow2Monotone(k, w - 1);
  }

  lemma FieldHoldsRange(lb: int, ub: int)
    requires lb < ub
    ensures RangeBits(lb, ub) <= FieldBits(lb, ub, true)
    ensures ub - lb + 1 <= Pow2(FieldBits(lb, ub, true))
    ensures Pow2(FieldBits(lb, ub, true)) == ub - lb + 1 ==> FieldBits(lb, ub, true) == RangeBits(lb, ub)
  {
    var n, f := RangeBits(lb, ub), FieldBits(lb, ub, true);
    Pow2Monotone(n, f);
    if n < f { Pow2Strict(n, f); }
  }

  // When results are always within bounds.

  /** In the unaligned variant, if and only if no raw value of the field overflows when the
      lower bound is added. An 8-bit unsigned 200..255 is not kept: a raw 56 is returned
      as 0. */
  lemma UnalignedBounds(t: IntType, lb: int, ub: int)
    requires Ranged(t, lb, ub)
    ensures AlwaysWithin(t, lb, ub, false) <==> lb + Pow2(RangeBits(lb, ub)) - 1 <= t.Max()
  {
    hide Outcome;
    FieldWidths(t, lb, ub);
    if lb + Pow2(RangeBits(lb, ub)) - 1 <= t.Max() {
      forall raw: nat, p: nat | raw < Pow2(RangeBits(lb, ub)) ensures Kept(Outcome(t, raw, lb, ub, false, p), lb, ub) {
        if t.signed && !t.Promoted() { TrappingWidth(t, lb, ub); }
        SumFits(t, raw, lb, ub, false, p);
      }
      AllKept(t, lb, ub, false);
    } else {
      LeastIsSafe(t, lb, ub);
      var s, p := EveryRaw(t, t.Max() + 1 - lb, lb, ub, false);
      SumPastMax(t, t.Max() + 1 - lb, lb, ub, false, p);
    }
  }

  /** In the aligned variant, where nothing is checked, if and only if the range uses every
      value of its field, whichever the form. */
  lemma AlignedBounds(t: IntType, lb: int, ub: int)
    requires Ranged(t, lb, ub)
    ensures AlwaysWithin(t, lb, ub, true) <==> Pow2(FieldBits(lb, ub, true)) == ub - lb + 1
  {
    hide Outcome, FieldBits;
    FieldWidths(t, lb, ub);
    FieldHoldsRange(lb, ub);
    if Pow2(FieldBits(lb, ub, true)) == ub - lb + 1 {
      forall raw: nat, p: nat | raw < ub - lb + 1 ensures Kept(Outcome(t, raw, lb, ub, true, p), lb, ub) {
        SumFits(t, raw, lb, ub, true, p);
      }
      AllKept(t, lb, ub, true);
    } else if FieldBits(lb, ub, true) > t.Width() {
      var s := TooWide(t, lb, ub);
    } else {
      var s, p := EveryRaw(t, ub - lb + 1, lb, ub, true);
      WholeTypeFills(t, lb, ub);
      FirstPast(t, lb, ub, p);
    }
  }

  lemma WholeTypeFills(t: IntType, lb: int, ub: int)
    requires Ranged(t, lb, ub) && FieldBits(lb, ub, true) <= t.Width()
    requires Pow2(FieldBits(lb, ub, true)) != ub - lb + 1
    ensures ub == t.Max() ==> t.Min() < lb
  {
    var w := FieldBits(lb, ub, true);
    FieldHoldsRange(lb, ub);
    hide FieldBits, Pow2;
    Pow2Monotone(w, t.Width());
    Pow2Def(t.Width());
  }

  lemma AllKept(t: IntType, lb: int, ub: int, aligned: bool)
    requires Ranged(t, lb, ub) && FieldBits(lb, ub, aligned) <= t.Width()
    requires forall raw: nat, p: nat | raw < Pow2(FieldBits(lb, ub, aligned)) ::
               Kept(Outcome(t, raw, lb, ub, aligned, p), lb, ub)
    ensures AlwaysWithin(t, lb, ub, aligned)
  {
    hide Outcome;
    forall s: seq<bool>, pos: nat
      ensures var d := DecodeConstrained(t, s, pos, lb, ub, aligned);
              (d.Decoded? ==> lb <= d.value <= ub) && (pos + AMPLE <= |s| ==> d != DecodeUndefined)
    {
      var raw, p := SomeRaw(t, s, pos, lb, ub, aligned);
    }
  }
}
