/** Constrained whole numbers (X.691 section 10.5) and the integer types they live in. */
module Numbers {
  import opened Bits
  import opened Per
  import opened BitRefs
  import opened Lengths

  // The integer types the codec is instantiated with.

  /** An integer type of whole octets. The source instantiates its templates with 1,
      2, 4 and 8 octets; those of one and two are promoted to int in arithmetic. */
  datatype IntType = IntType(octets: nat, signed: bool) {
    predicate Valid() {
      1 <= octets <= 8
    }

    function Width(): nat {
      8 * octets
    }

    predicate Promoted() {
      octets <= 2
    }

    function Min(): int
      requires Valid()
    {
      if signed then 0 - Pow2(Width() - 1) else 0
    }

    function Max(): int
      requires Valid()
    {
      if signed then Pow2(Width() - 1) - 1 else Pow2(Width()) - 1
    }

    predicate Has(x: int)
      requires Valid()
    {
      Min() <= x <= Max()
    }

    /** Conversion to the type: the value of the type congruent modulo 2^width. */
    function Wrap(x: int): (r: int)
      requires Valid()
    {
      WrapRec(Width(), signed, x, 2)
    }
  }

  function WrapRec(width: nat, signed: bool, x: int, guard: nat): int
    requires width >= 1
    decreases guard
  {
    if guard > 0 then WrapRec(width, signed, x, guard - 1)
    else
      var m := x % Pow2(width);
      if signed && m >= Pow2(width - 1) then m - Pow2(width) else m
  }

  /** A wrapped value is in the type and differs by a multiple of 2^width. */
  lemma WrapMultiple(t: IntType, x: int) returns (k: int)
    requires t.Valid()
    ensures t.Wrap(x) == x + k * Pow2(t.Width())
    ensures t.Has(t.Wrap(x))
  {
    var w := t.Width();
    Pow2Def(w);
    assert WrapRec(w, t.signed, x, 2) == WrapRec(w, t.signed, x, 1) == WrapRec(w, t.signed, x, 0);
    var P := Pow2(w);
    var q, m := x / P, x % P;
    assert x == q * P + m;
    if t.signed && m >= Pow2(w - 1) {
      k := -q - 1;
      assert (-q - 1) * P == -(q * P) - P;
    } else {
      k := -q;
      assert (-q) * P == -(q * P);
    }
  }

  lemma SameResidue(t: IntType, x: int, y: int, k: int)
    requires t.Valid() && t.Has(x) && t.Has(y) && x == y + k * Pow2(t.Width())
    ensures x == y
  {
    var P := Pow2(t.Width());
    Pow2Def(t.Width());
    if k >= 1 {
      MulGrows(k, P);
    } else if k <= -1 {
      assert (-k) * P == -(k * P);
      MulGrows(-k, P);
    }
  }

  lemma WrapOfMultiple(t: IntType, x: int, y: int, k: int)
    requires t.Valid() && x == y + k * Pow2(t.Width())
    ensures t.Wrap(x) == t.Wrap(y)
  {
    var i := WrapMultiple(t, x);
    var j := WrapMultiple(t, y);
    var P := Pow2(t.Width());
    assert t.Wrap(x) == t.Wrap(y) + (k + i - j) * P by {
      assert (k + i - j) * P == k * P + i * P - j * P;
    }
    SameResidue(t, t.Wrap(x), t.Wrap(y), k + i - j);
  }

  lemma WrapExact(t: IntType, x: int)
    requires t.Valid() && t.Has(x)
    ensures t.Wrap(x) == x
  {
    var k := WrapMultiple(t, x);
    SameResidue(t, t.Wrap(x), x, k);
  }

  /** Adding in the type is adding and wrapping once. */
  lemma WrapAdd(t: IntType, x: int, y: int)
    requires t.Valid()
    ensures t.Wrap(t.Wrap(x) + y) == t.Wrap(x + y)
  {
    var k := WrapMultiple(t, x);
    WrapOfMultiple(t, t.Wrap(x) + y, x + y, k);
  }

  const UINT64 := IntType(8, false)

  /** Conversion of any integer to uint64_t, as happens to the argument of pack. */
  function AsUint64(x: int): (r: nat)
  {
    AsUint64NonNegative(x);
    UINT64.Wrap(x)
  }

  lemma AsUint64NonNegative(x: int)
    ensures 0 <= UINT64.Wrap(x) < Pow2(64)
  {
    var k := WrapMultiple(UINT64, x);
  }

  /** Congruent numbers have the same low bits. */
  lemma CongruentLow(v: nat, d: nat, k: nat, w: nat, n: nat)
    requires n <= w && v == d + k * Pow2(w)
    ensures Low(v, n) == Low(d, n)
  {
    ShlMultiplies(k, w);
    ShlShl(k, w - n, n);
    ShiftMask(d, n);
    ShlAdd(Shr(d, n), Shl(k, w - n), n);
    ShiftMaskUnique(Shr(d, n) + Shl(k, w - n), Low(d, n), n);
  }

  lemma Recombine(d: int, j: int, i: int, P: int, Q: int, R: int)
    requires R == P * Q
    ensures d + j * P + i * R == d + (j + i * Q) * P
  {
    assert i * (P * Q) == i * Q * P;
    assert (j + i * Q) * P == j * P + i * Q * P;
  }

  lemma CongruentLowEither(v: nat, d: nat, k: int, w: nat, n: nat)
    requires n <= w && v == d + k * Pow2(w)
    ensures Low(v, n) == Low(d, n)
  {
    if k >= 0 {
      CongruentLow(v, d, k, w, n);
    } else {
      assert (-k) * Pow2(w) == -(k * Pow2(w));
      CongruentLow(d, v, -k, w, n);
    }
  }

  /** Converting a non-negative number to an integer type and on to 64 bits keeps the
      bits the type holds. */
  lemma ConvertedLow(t: IntType, d: nat, n: nat)
    requires t.Valid() && n <= t.Width()
    ensures Low(AsUint64(t.Wrap(d)), n) == Low(d, n)
  {
    var w := t.Width();
    var j := WrapMultiple(t, d);
    var i := WrapMultiple(UINT64, t.Wrap(d));
    var Q := Pow2(64 - w);
    assert Pow2(64) == Pow2(w) * Q by {
      ShlPow2(w, 64 - w);
      ShlMultiplies(Pow2(w), 64 - w);
    }
    Recombine(d, j, i, Pow2(w), Q, Pow2(64));
    CongruentLowEither(AsUint64(t.Wrap(d)), d, j + i * Q, w, n);
  }

  lemma ConvertedBits(t: IntType, d: nat, n: nat)
    requires t.Valid() && n <= t.Width()
    ensures NatBits(AsUint64(t.Wrap(d)), n) == NatBits(d, n)
  {
    ConvertedLow(t, d, n);
    NatBitsLow(AsUint64(t.Wrap(d)), n);
    NatBitsLow(d, n);
  }

  // Constrained whole numbers, X.691 section 10.5.

  /** The bounds fit the type and their difference does not overflow. */
  predicate RangeDefined(t: IntType, lb: int, ub: int)
    requires t.Valid()
  {
    t.Has(lb) && t.Has(ub) && (t.signed && !t.Promoted() ==> ub - lb <= t.Max())
  }

  /** The width of the length-of-length field for a range wider than 64K. */
  function LengthWidth(nBits: nat): nat
    requires nBits >= 1
  {
    CeilLog2(CeilOctets(nBits))
  }

  /** Ranges of 256 to 64K: whole octets, aligned. */
  function OctetForm(toEncode: int, nBits: nat, pos: nat): seq<bool> {
    PadBits(pos) + (NatBits(0, 8 * CeilOctets(nBits) - nBits) + NatBits(AsUint64(toEncode), nBits))
  }

  /** Octets the value itself needs. */
  function OctetCount(toEncode: int): nat {
    CeilOctets(BitLength(if toEncode > 1 then toEncode else 1))
  }

  /** Ranges above 64K: octet count, alignment, octets. */
  function LongForm(toEncode: int, nBits: nat, pos: nat): Encoding
    requires nBits >= 1
  {
    var nOctets := OctetCount(toEncode);
    if nOctets == 0 || nOctets >= 8 then EncodeUndefined
    else Encoded(Counted(toEncode, nOctets, nBits, pos))
  }

  /** The long form with any octet count. */
  function Counted(toEncode: int, nOctets: nat, nBits: nat, pos: nat): seq<bool>
    requires nBits >= 1 && nOctets >= 1
  {
    var w := LengthWidth(nBits);
    NatBits(nOctets - 1, w) + (PadBits(pos + w) + NatBits(AsUint64(toEncode), 8 * nOctets))
  }

  function EncodeConstrained(t: IntType, n: int, lb: int, ub: int, aligned: bool, pos: nat): Encoding
    requires t.Valid()
  {
    if ub < lb || n < lb || n > ub then Refused
    else if !RangeDefined(t, lb, ub) then EncodeUndefined
    else if ub == lb then Encoded([])
    else
      var ra := ub - lb + 1;
      var nBits := CeilLog2(ra);
      var toEncode := t.Wrap(n - lb);
      if ra >= Pow2(64) || nBits == 0 then EncodeUndefined
      else if !aligned || ra < 256 then
        if nBits >= 64 then EncodeUndefined else Encoded(NatBits(AsUint64(toEncode), nBits))
      else if ra <= ASN_64K then Encoded(OctetForm(toEncode, nBits, pos))
      else LongForm(toEncode, nBits, pos)
  }

  ghost function DecodeOctetForm(t: IntType, s: seq<bool>, pos: nat, lb: int, nBits: nat): Decoding<int>
    requires t.Valid()
  {
    var (raw, p) :- ReadInt(t, s, AlignUp(pos), 8 * CeilOctets(nBits));
    AddBound(t, raw, lb, AlignUp(p))
  }

  ghost function DecodeLongForm(t: IntType, s: seq<bool>, pos: nat, lb: int, nBits: nat): Decoding<int>
    requires t.Valid() && nBits >= 1
  {
    var (k, p) :- Read(s, pos, LengthWidth(nBits));
    var (raw, q) :- ReadInt(t, s, AlignUp(p), 8 * (k + 1));
    AddBound(t, raw, lb, q)
  }

  /** The unaligned reader checks the upper bound, the aligned one checks nothing. */
  ghost function DecodeConstrained(t: IntType, s: seq<bool>, pos: nat, lb: int, ub: int, aligned: bool): Decoding<int>
    requires t.Valid()
  {
    if ub < lb then Rejected(pos)
    else if !RangeDefined(t, lb, ub) then DecodeUndefined
    else if ub == lb then Decoded(lb, pos)
    else
      var ra := ub - lb + 1;
      var nBits := CeilLog2(ra);
      if ra >= Pow2(64) || nBits == 0 then DecodeUndefined
      else if !aligned || ra < 256 then
        var (raw, p) :- ReadInt(t, s, pos, nBits);
        var (n, q) :- AddBound(t, raw, lb, p);
        if !aligned && n > ub then Rejected(q) else Decoded(n, q)
      else if ra <= ASN_64K then DecodeOctetForm(t, s, pos, lb, nBits)
      else DecodeLongForm(t, s, pos, lb, nBits)
  }

  /** `unpack(n, n_bits)` into a variable of type t, which must be wide enough. */
  ghost function ReadInt(t: IntType, s: seq<bool>, pos: nat, n: nat): Decoding<int>
    requires t.Valid()
  {
    if n > t.Width() then DecodeUndefined
    else
      var (v, p) :- Read(s, pos, n);
      Decoded(t.Wrap(v), p)
  }

  /** `n += lb` in type t: wide signed types must not overflow, the others wrap. */
  ghost function AddBound(t: IntType, raw: int, lb: int, p: nat): Decoding<int>
    requires t.Valid()
  {
    if t.signed && !t.Promoted() && !t.Has(raw + lb) then DecodeUndefined else Decoded(t.Wrap(raw + lb), p)
  }

  /** n - lb can be computed in the type or its promotion. */
  predicate Offset(t: IntType, n: int, lb: int)
    requires t.Valid()
  {
    t.Has(n) && t.Has(lb) && lb <= n && (t.signed && !t.Promoted() ==> n - lb <= t.Max())
  }

  /** An offset from the lower bound survives the detour through the type. */
  lemma OffsetRestored(t: IntType, n: int, lb: int, p: nat)
    requires t.Valid() && Offset(t, n, lb)
    ensures AddBound(t, t.Wrap(n - lb), lb, p) == Decoded(n, p)
  {
    WrapAdd(t, n - lb, lb);
    WrapExact(t, n);
    if t.signed && !t.Promoted() { WrapExact(t, n - lb); }
  }

  /** The bit-field of a range is no wider than the type of its bounds. */
  lemma RangeWidth(t: IntType, lb: int, ub: int)
    requires t.Valid() && t.Has(lb) && t.Has(ub) && lb <= ub
    ensures CeilLog2(ub - lb + 1) <= t.Width()
  {
    var k := CeilLog2(ub - lb + 1);
    Pow2Def(t.Width());
    if k > t.Width() { Pow2Monotone(t.Width(), k - 1); }
  }

  // What is on the wire, without regard to integer types.

  lemma PaddedReadBack(s: seq<bool>, pos: nat, v: nat, n: nat)
    requires At(s, pos, PadBits(pos) + NatBits(v, n)) && v < Pow2(n)
    ensures Read(s, AlignUp(pos), n) == Decoded(v, AlignUp(pos) + n)
  {
    AtSplit(s, pos, PadBits(pos), NatBits(v, n));
    ReadBack(s, AlignUp(pos), v, n);
  }

  lemma CountedReadBack(s: seq<bool>, pos: nat, c: nat, w: nat, v: nat, n: nat)
    requires At(s, pos, NatBits(c, w) + (PadBits(pos + w) + NatBits(v, n))) && c < Pow2(w) && v < Pow2(n)
    ensures Read(s, pos, w) == Decoded(c, pos + w)
    ensures Read(s, AlignUp(pos + w), n) == Decoded(v, AlignUp(pos + w) + n)
  {
    AtSplit(s, pos, NatBits(c, w), PadBits(pos + w) + NatBits(v, n));
    ReadBack(s, pos, c, w);
    PaddedReadBack(s, pos + w, v, n);
  }

  /** The octet form is the padding and then the offset on whole octets. */
  lemma OctetFormBits(t: IntType, d: nat, nBits: nat, pos: nat)
    requires t.Valid() && nBits <= t.Width() && d < Pow2(nBits)
    ensures OctetForm(t.Wrap(d), nBits, pos) == PadBits(pos) + NatBits(d, 8 * CeilOctets(nBits))
    ensures d < Pow2(8 * CeilOctets(nBits))
  {
    var w := 8 * CeilOctets(nBits);
    ConvertedBits(t, d, nBits);
    NatBitsZero(w - nBits);
    NatBitsZeroExtend(d, w - nBits, nBits);
    Pow2Monotone(nBits, w);
  }

  /** The octet count of any value in a range fits the length-of-length field that the
      range prescribes, and the octets hold the value. */
  lemma OctetCountFits(d: nat, nBits: nat)
    requires d < Pow2(nBits) && nBits >= 1
    ensures 1 <= OctetCount(d) <= CeilOctets(nBits)
    ensures OctetCount(d) - 1 < Pow2(LengthWidth(nBits))
    ensures d < Pow2(8 * OctetCount(d))
  {
    var l := BitLength(if d > 1 then d else 1);
    Pow2Def(nBits);
    if l > nBits { Pow2Monotone(nBits, l - 1); }
    Pow2Monotone(l, 8 * CeilOctets(l));
  }

  // From the wire to the value, without regard to bit strings.

  lemma SimpleValue(t: IntType, s: seq<bool>, pos: nat, n: int, lb: int, nBits: nat, end: nat)
    requires t.Valid() && Offset(t, n, lb) && nBits <= t.Width()
    requires Read(s, pos, nBits) == Decoded(n - lb, end)
    ensures ReadInt(t, s, pos, nBits) == Decoded(t.Wrap(n - lb), end)
    ensures AddBound(t, t.Wrap(n - lb), lb, end) == Decoded(n, end)
  {
    hide Read, Pow2;
    OffsetRestored(t, n, lb, end);
  }

  lemma OctetValue(t: IntType, s: seq<bool>, pos: nat, n: int, lb: int, nBits: nat, p: nat, w: nat, end: nat)
    requires t.Valid() && Offset(t, n, lb) && w == 8 * CeilOctets(nBits) <= t.Width()
    requires p == AlignUp(pos) && end == AlignUp(end) && Read(s, p, w) == Decoded(n - lb, end)
    ensures DecodeOctetForm(t, s, pos, lb, nBits) == Decoded(n, end)
  {
    hide Read, AlignUp, Offset;
    OffsetRestored(t, n, lb, end);
  }

  lemma LongValue(t: IntType, s: seq<bool>, pos: nat, n: int, lb: int, nBits: nat, k: nat)
    requires t.Valid() && Offset(t, n, lb) && nBits >= 1 && 1 <= k && 8 * k <= t.Width()
    requires Read(s, pos, LengthWidth(nBits)) == Decoded(k - 1, pos + LengthWidth(nBits))
    requires var p := AlignUp(pos + LengthWidth(nBits)); Read(s, p, 8 * k) == Decoded(n - lb, p + 8 * k)
    ensures DecodeLongForm(t, s, pos, lb, nBits) == Decoded(n, AlignUp(pos + LengthWidth(nBits)) + 8 * k)
  {
    hide Read, AlignUp, LengthWidth, Offset;
    OffsetRestored(t, n, lb, AlignUp(pos + LengthWidth(nBits)) + 8 * k);
  }

  // The forms put together.

  lemma OctetFormRoundTrip(t: IntType, s: seq<bool>, pos: nat, n: int, lb: int, nBits: nat)
    requires t.Valid() && Offset(t, n, lb) && nBits <= t.Width() && n - lb < Pow2(nBits)
    requires At(s, pos, OctetForm(t.Wrap(n - lb), nBits, pos))
    ensures DecodeOctetForm(t, s, pos, lb, nBits) == Decoded(n, pos + |OctetForm(t.Wrap(n - lb), nBits, pos)|)
  {
    var w := 8 * CeilOctets(nBits);
    var end := AlignUp(pos) + w;
    OctetFormBits(t, n - lb, nBits, pos);
    PaddedReadBack(s, pos, n - lb, w);
    WholeOctets(pos, end, CeilOctets(nBits));
    OctetsFitType(t, CeilOctets(nBits), nBits);
    OctetValue(t, s, pos, n, lb, nBits, AlignUp(pos), w, end);
  }

  lemma LongFormRoundTrip(t: IntType, s: seq<bool>, pos: nat, n: int, lb: int, nBits: nat)
    requires t.Valid() && Offset(t, n, lb) && t.Has(n - lb) && 1 <= nBits <= t.Width() && n - lb < Pow2(nBits)
    requires LongForm(n - lb, nBits, pos).Encoded? && At(s, pos, LongForm(n - lb, nBits, pos).bits)
    ensures DecodeLongForm(t, s, pos, lb, nBits) == Decoded(n, pos + |LongForm(n - lb, nBits, pos).bits|)
  {
    hide DecodeLongForm, AsUint64, At, BitLength, LengthWidth;
    OctetCountFits(n - lb, nBits);
    OctetsFitType(t, OctetCount(n - lb), nBits);
    CountExact(t, s, pos, n, lb, nBits, OctetCount(n - lb));
  }

  /** Written with any count of octets that hold it, the offset is read back if and only if
      the count fits the length-of-length field. */
  lemma CountExact(t: IntType, s: seq<bool>, pos: nat, n: int, lb: int, nBits: nat, k: nat)
    requires t.Valid() && Offset(t, n, lb) && t.Has(n - lb) && nBits >= 1
    requires k >= 1 && 8 * k <= t.Width() && n - lb < Pow2(8 * k)
    requires At(s, pos, Counted(n - lb, k, nBits, pos))
    ensures DecodeLongForm(t, s, pos, lb, nBits) == Decoded(n, pos + |Counted(n - lb, k, nBits, pos)|)
       <==> k - 1 < Pow2(LengthWidth(nBits))
  {
    hide AsUint64, At, LengthWidth, AlignUp, PadBits, Read, NatBits;
    var d, w := n - lb, LengthWidth(nBits);
    WrapExact(t, d);
    ConvertedBits(t, d, 8 * k);
    if k - 1 < Pow2(w) {
      hide DecodeLongForm;
      CountedReadBack(s, pos, k - 1, w, d, 8 * k);
      LongValue(t, s, pos, n, lb, nBits, k);
    } else {
      hide DecodeLongForm;
      AtSplit(s, pos, NatBits(k - 1, w), PadBits(pos + w) + NatBits(d, 8 * k));
      CountCut(s, pos, k - 1, w);
      LongEnd(t, s, pos, lb, nBits);
    }
  }

  /** One octet more than the range needs, as a logarithm rounded up gives for values at
      its top, is fatal if and only if the octets of the range are a power of two. */
  lemma ExtraOctet(t: IntType, s: seq<bool>, pos: nat, n: int, lb: int, nBits: nat)
    requires t.Valid() && Offset(t, n, lb) && t.Has(n - lb) && nBits >= 1 && n - lb < Pow2(nBits)
    requires 8 * (CeilOctets(nBits) + 1) <= t.Width()
    requires At(s, pos, Counted(n - lb, CeilOctets(nBits) + 1, nBits, pos))
    ensures DecodeLongForm(t, s, pos, lb, nBits)
            == Decoded(n, pos + |Counted(n - lb, CeilOctets(nBits) + 1, nBits, pos)|)
       <==> Pow2(CeilLog2(CeilOctets(nBits))) != CeilOctets(nBits)
  {
    hide DecodeLongForm, Counted, At, Offset;
    Pow2Monotone(nBits, 8 * (CeilOctets(nBits) + 1));
    CountExact(t, s, pos, n, lb, nBits, CeilOctets(nBits) + 1);
  }

  /** Where the reader of the long form ends depends on the count alone. */
  lemma LongEnd(t: IntType, s: seq<bool>, pos: nat, lb: int, nBits: nat)
    requires t.Valid() && nBits >= 1
    ensures var c, d := Read(s, pos, LengthWidth(nBits)), DecodeLongForm(t, s, pos, lb, nBits);
            d.Decoded? ==> c.Decoded? && d.pos == AlignUp(c.pos) + 8 * (c.value + 1)
  {
    hide Read, AlignUp, LengthWidth;
    var c := Read(s, pos, LengthWidth(nBits));
    if c.Decoded? { ReadBound(s, AlignUp(c.pos), 8 * (c.value + 1)); }
  }

  /** A count that does not fit its field is read as a smaller one. */
  lemma CountCut(s: seq<bool>, pos: nat, c: nat, w: nat)
    requires At(s, pos, NatBits(c, w)) && c >= Pow2(w)
    ensures var d := Read(s, pos, w); d.Decoded? && d.value < c && d.pos == pos + w
  {
    NatAtNotation(s, pos, c, w);
  }

  lemma OctetsFitType(t: IntType, k: nat, nBits: nat)
    requires t.Valid() && k <= CeilOctets(nBits) && nBits <= t.Width()
    ensures 8 * k <= t.Width()
  {
  }

  /** Every value within its bounds is decoded from its encoding, in both variants and
      all four forms. */
  lemma ConstrainedRoundTrip(t: IntType, s: seq<bool>, pos: nat, n: int, lb: int, ub: int, aligned: bool)
    requires t.Valid()
    requires var e := EncodeConstrained(t, n, lb, ub, aligned, pos); e.Encoded? && At(s, pos, e.bits)
    ensures DecodeConstrained(t, s, pos, lb, ub, aligned)
         == Decoded(n, pos + |EncodeConstrained(t, n, lb, ub, aligned, pos).bits|)
  {
    hide OctetForm, LongForm, DecodeOctetForm, DecodeLongForm, At, Offset,
         CeilLog2, Pow2, NatBits, Read, AsUint64, RangeDefined;
    if ub > lb {
      var nBits := CeilLog2(ub - lb + 1);
      OffsetFits(t, n, lb, ub, nBits);
      if !aligned || ub - lb + 1 < 256 {
        ConvertedBits(t, n - lb, nBits);
        ReadBack(s, pos, n - lb, nBits);
        SimpleValue(t, s, pos, n, lb, nBits, pos + nBits);
      } else if ub - lb + 1 <= ASN_64K {
        OctetFormRoundTrip(t, s, pos, n, lb, nBits);
      } else {
        LongFormRoundTrip(t, s, pos, n, lb, nBits);
      }
    }
  }

  /** An offset into the range fits the field, and that of a wide range fits the type. */
  lemma OffsetFits(t: IntType, n: int, lb: int, ub: int, nBits: nat)
    requires t.Valid() && RangeDefined(t, lb, ub) && lb <= n <= ub && nBits == CeilLog2(ub - lb + 1)
    ensures Offset(t, n, lb) && nBits <= t.Width() && n - lb < Pow2(nBits)
    ensures ub - lb + 1 > ASN_64K ==> t.Has(n - lb) && t.Wrap(n - lb) == n - lb
  {
    RangeWidth(t, lb, ub);
    if ub - lb + 1 > ASN_64K {
      WideType(t, lb, ub, n - lb);
      WrapExact(t, n - lb);
    }
  }

  /** Only types wider than two octets have ranges above 64K, and there offsets do not wrap. */
  lemma WideType(t: IntType, lb: int, ub: int, d: int)
    requires t.Valid() && RangeDefined(t, lb, ub) && ub - lb + 1 > ASN_64K && 0 <= d <= ub - lb
    ensures !t.Promoted() && t.Has(d)
  {
    Pow2Values();
    Pow2Def(8);
    Pow2Def(16);
  }

  method PackConstrained(bref: BitRef, t: IntType, n: int, lb: int, ub: int, aligned: bool) returns (code: Code)
    requires t.Valid() && bref.Valid()
    requires EncodeConstrained(t, n, lb, ub, aligned, |bref.bits|) != EncodeUndefined
    modifies bref
    ensures bref.Valid()
    ensures Appended(old(bref.bits), bref.bits, code, EncodeConstrained(t, n, lb, ub, aligned, |old(bref.bits)|))
  {
    if ub < lb || n < lb || n > ub {
      return EncodeFail;
    }
    var ra := ub - lb + 1;
    if ra == 1 {
      return Success;
    }
    var nBits := CeilLog2(ra);
    RangeWidth(t, lb, ub);
    if ra <= ASN_64K { ShortRange(ra); }
    hide CeilLog2, Pow2, NatBits, OctetForm, LongForm, AsUint64, RangeDefined;
    var toEncode := t.Wrap(n - lb);
    if !aligned {
      bref.Pack(AsUint64(toEncode), nBits);
    } else if ra < 256 {
      bref.Pack(AsUint64(toEncode), nBits);
    } else if ra <= ASN_64K {
      PackOctets(bref, toEncode, nBits);
    } else {
      PackLong(bref, toEncode, nBits);
    }
    return Success;
  }

  lemma ShortRange(ra: nat)
    requires 1 <= ra <= ASN_64K
    ensures CeilLog2(ra) <= 16
  {
    Pow2Values();
    if CeilLog2(ra) > 16 { Pow2Monotone(16, CeilLog2(ra) - 1); }
  }

  method PackOctets(bref: BitRef, toEncode: int, nBits: nat)
    requires bref.Valid() && nBits < 64
    modifies bref
    ensures bref.Valid() && bref.bits == old(bref.bits) + OctetForm(toEncode, nBits, |old(bref.bits)|)
  {
    var nOctets := CeilOctets(nBits);
    bref.AlignBytesZero();
    bref.Pack(0, nOctets * 8 - nBits);
    bref.Pack(AsUint64(toEncode), nBits);
    WholeOctets(|old(bref.bits)|, |bref.bits|, nOctets);
    bref.AlignBytesZero();
    Concat4(old(bref.bits), PadBits(|old(bref.bits)|), NatBits(0, nOctets * 8 - nBits),
            NatBits(AsUint64(toEncode), nBits));
  }

  lemma WholeOctets(p: nat, q: nat, k: nat)
    requires q == AlignUp(p) + 8 * k
    ensures AlignUp(q) == q && PadBits(q) == []
  {
  }

  method PackLong(bref: BitRef, toEncode: int, nBits: nat)
    requires bref.Valid() && 1 <= nBits <= 64 && LongForm(toEncode, nBits, |bref.bits|).Encoded?
    modifies bref
    ensures bref.Valid() && bref.bits == old(bref.bits) + LongForm(toEncode, nBits, |old(bref.bits)|).bits
  {
    hide AlignUp, PadBits, OctetCount, LengthWidth;
    var nBitsLen := LengthWidth(nBits);
    var nOctets := OctetCount(toEncode);
    LengthWidthSmall(nBits);
    ghost var before, p := bref.bits, |bref.bits| + nBitsLen;
    bref.Pack(nOctets - 1, nBitsLen);
    bref.AlignBytesZero();
    bref.Pack(AsUint64(toEncode), nOctets * 8);
    Concat4(before, NatBits(nOctets - 1, nBitsLen), PadBits(p), NatBits(AsUint64(toEncode), nOctets * 8));
  }

  lemma Concat4(a: seq<bool>, b: seq<bool>, c: seq<bool>, d: seq<bool>)
    ensures ((a + b) + c) + d == a + (b + (c + d))
  {
  }

  lemma LengthWidthSmall(nBits: nat)
    requires 1 <= nBits <= 64
    ensures LengthWidth(nBits) <= 3
  {
    var k := LengthWidth(nBits);
    Pow2Values();
    if k > 3 { Pow2Monotone(3, k - 1); }
  }

  /** `bref.unpack(n, nBits)` with n of type t. */
  method UnpackInt(bref: CBitRef, t: IntType, nBits: nat) returns (n: int)
    requires t.Valid() && bref.Valid() && ReadInt(t, bref.stream, bref.pos, nBits).Decoded?
    modifies bref
    ensures bref.Valid() && ReadInt(t, bref.stream, old(bref.pos), nBits) == Decoded(n, bref.pos)
  {
    var raw := bref.Unpack(nBits);
    n := t.Wrap(raw);
  }

  /** Without a check of the bounds there is nothing to reject. */
  lemma NeverRejects(t: IntType, s: seq<bool>, pos: nat, lb: int, nBits: nat)
    requires t.Valid()
    ensures !ReadInt(t, s, pos, nBits).Rejected? && !DecodeOctetForm(t, s, pos, lb, nBits).Rejected?
    ensures nBits >= 1 ==> !DecodeLongForm(t, s, pos, lb, nBits).Rejected?
  {
    ReadNeverRejects(s);
  }

  lemma ReadNeverRejects(s: seq<bool>)
    ensures forall pos: nat, n: nat :: !Read(s, pos, n).Rejected?
  {
    forall pos: nat, n: nat ensures !Read(s, pos, n).Rejected? {
    }
  }

  method UnpackConstrained(bref: CBitRef, t: IntType, lb: int, ub: int, aligned: bool) returns (r: Result<int>)
    requires t.Valid() && bref.Valid()
    requires DecodeConstrained(t, bref.stream, bref.pos, lb, ub, aligned) != DecodeUndefined
    modifies bref
    ensures bref.Valid()
    ensures Consumed(bref.pos, r, DecodeConstrained(t, bref.stream, old(bref.pos), lb, ub, aligned))
  {
    hide DecodeOctetForm, DecodeLongForm, CeilLog2, Pow2, Read;
    if ub < lb {
      return Fail;
    }
    var ra := ub - lb + 1;
    if ra == 1 {
      return Ok(lb);
    }
    var nBits := CeilLog2(ra);
    NeverRejects(t, bref.stream, bref.pos, lb, nBits);
    RangeWidth(t, lb, ub);
    if !aligned {
      var raw := UnpackInt(bref, t, nBits);
      var n := t.Wrap(raw + lb);
      if n > ub {
        return Fail;
      }
      return Ok(n);
    } else if ra < 256 {
      var raw := UnpackInt(bref, t, nBits);
      return Ok(t.Wrap(raw + lb));
    } else if ra <= ASN_64K {
      var n := UnpackOctets(bref, t, lb, nBits);
      return Ok(n);
    } else {
      var n := UnpackLong(bref, t, lb, nBits);
      return Ok(n);
    }
  }

  method UnpackOctets(bref: CBitRef, t: IntType, lb: int, nBits: nat) returns (n: int)
    requires t.Valid() && bref.Valid() && DecodeOctetForm(t, bref.stream, bref.pos, lb, nBits).Decoded?
    modifies bref
    ensures bref.Valid()
    ensures DecodeOctetForm(t, bref.stream, old(bref.pos), lb, nBits) == Decoded(n, bref.pos)
  {
    bref.AlignBytes();
    var raw := UnpackInt(bref, t, 8 * CeilOctets(nBits));
    bref.AlignBytes();
    n := t.Wrap(raw + lb);
  }

  lemma LongFormParts(t: IntType, s: seq<bool>, pos: nat, lb: int, nBits: nat)
    requires t.Valid() && nBits >= 1 && DecodeLongForm(t, s, pos, lb, nBits).Decoded?
    ensures var d := Read(s, pos, LengthWidth(nBits));
            && d.Decoded?
            && var raw := ReadInt(t, s, AlignUp(d.pos), 8 * (d.value + 1));
               raw.Decoded? && DecodeLongForm(t, s, pos, lb, nBits) == AddBound(t, raw.value, lb, raw.pos)
  {
  }

  method UnpackLong(bref: CBitRef, t: IntType, lb: int, nBits: nat) returns (n: int)
    requires t.Valid() && bref.Valid() && 1 <= nBits <= 64
    requires DecodeLongForm(t, bref.stream, bref.pos, lb, nBits).Decoded?
    modifies bref
    ensures bref.Valid()
    ensures DecodeLongForm(t, bref.stream, old(bref.pos), lb, nBits) == Decoded(n, bref.pos)
  {
    hide DecodeLongForm, LengthWidth, AlignUp;
    LengthWidthSmall(nBits);
    LongFormParts(t, bref.stream, bref.pos, lb, nBits);
    var nOctets := bref.Unpack(LengthWidth(nBits));
    nOctets := nOctets + 1;
    bref.AlignBytes();
    var raw := UnpackInt(bref, t, 8 * nOctets);
    n := t.Wrap(raw + lb);
  }
}
