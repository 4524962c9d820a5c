/** What becomes of the values of the leaf types when they are written, in plain numbers:
    which are written, in how many bits, which are refused, and which the source does not
    support. No encoder is named in these definitions. */
module LeafExtents {
  import opened Bits
  import opened Per
  import opened BitRefs
  import opened Lengths
  import opened Numbers
  import opened Integers
  import opened OctetStrings
  import opened BitStrings
  import opened Leaves

  /** A number of bits; an error return; or an assertion, an overflow or a shape that the
      type does not have. */
  datatype Extent = Takes(bits: nat) | Refuses | Unsupported

  function ExtentOf(e: Encoding): Extent {
    match e
    case Encoded(bits) => Takes(|bits|)
    case Refused => Refuses
    case EncodeUndefined => Unsupported
  }

  function After(k: nat, x: Extent): Extent {
    if x.Takes? then Takes(k + x.bits) else x
  }

  /** Bits up to the next octet boundary, in the aligned variant. */
  function Pad(aligned: bool, pos: nat): nat {
    if aligned then AlignUp(pos) - pos else 0
  }

  /** The least number of octets, one or more, that hold a number. */
  function Octets(d: nat): nat {
    if d < 256 then 1 else 1 + Octets(d / 256)
  }

  // Numbers.

  function DeterminantExtent(val: nat, aligned: bool, pos: nat): Extent {
    if val < 128 then Takes(Pad(aligned, pos) + 8)
    else if val < 16384 then Takes(Pad(aligned, pos) + 16)
    else if aligned && val <= 65536 then Takes(Pad(aligned, pos) + 24)
    else Refuses
  }

  function ConstrainedExtent(t: IntType, n: int, lb: int, ub: int, aligned: bool, pos: nat): Extent
    requires t.Valid()
  {
    var ra := ub - lb + 1;
    if !(lb <= n <= ub) then Refuses
    else if !t.Has(lb) || !t.Has(ub) || (t.signed && t.octets > 2 && ub - lb > t.Max()) then Unsupported
    else if ra == 1 then Takes(0)
    else if ra >= Pow2(64) then Unsupported
    else if !aligned || ra < 256 then if ra > Pow2(63) then Unsupported else Takes(CeilLog2(ra))
    else if ra <= 65536 then Takes(Pad(true, pos) + if ra == 256 then 8 else 16)
    else if n - lb >= Pow2(56) then Unsupported
    else
      var w := if ra <= Pow2(32) then 2 else 3;
      Takes(w + Pad(true, pos + w) + 8 * Octets(n - lb))
  }

  function UnconstrainedExtent(n: int, aligned: bool, pos: nat): Extent {
    if 1 <= n <= Pow2(55) then Takes(Pad(aligned, pos) + 8 + 8 * UnconstrainedOctets(n)) else Unsupported
  }

  function IntegerExtent(t: IntType, n: int, lb: int, ub: int, ext: bool, aligned: bool, pos: nat): Extent
    requires t.Valid()
  {
    if !ext && !(lb <= n <= ub) then Refuses
    else
      var e := if ext then 1 else 0;
      After(e, IntegerBodyExtent(t, n, lb, ub, aligned, pos + e))
  }

  function IntegerBodyExtent(t: IntType, n: int, lb: int, ub: int, aligned: bool, pos: nat): Extent
    requires t.Valid()
  {
    var noLower, noUpper := t.signed && lb == t.Min(), ub == t.Max();
    if !(lb <= n <= ub) || (noLower && noUpper) then UnconstrainedExtent(n, aligned, pos)
    else if noLower || noUpper || lb == ub then Takes(0)
    else ConstrainedExtent(t, n, lb, ub, aligned, pos)
  }

  function EnumExtent(e: nat, nofTypes: nat, nofExts: nat, ext: bool): Extent {
    if e >= nofTypes then Refuses
    else if !ext then if nofTypes > Pow2(63) then Unsupported else Takes(CeilLog2(nofTypes))
    else if nofExts >= nofTypes || nofTypes - nofExts > Pow2(63) then Unsupported
    else if e < nofTypes - nofExts then Takes(1 + CeilLog2(nofTypes - nofExts))
    else if e - (nofTypes - nofExts) <= 63 then Takes(8)
    else Refuses
  }

  lemma WidthBelow(v: nat, m: nat)
    requires v >= 1
    ensures CeilLog2(v) <= m <==> v <= Pow2(m)
  {
    var k := CeilLog2(v);
    if k <= m { Pow2Monotone(k, m); } else { Pow2Monotone(m, k - 1); }
  }

  lemma {:induction false} OctetsExact(d: nat)
    ensures Octets(d) == OctetCount(d)
  {
    OctetsBounds(d);
    var k, l := Octets(d), BitLength(if d > 1 then d else 1);
    Pow2Values();
    if l > 8 * k { Pow2Monotone(8 * k, l - 1); }
    if k > 1 && l <= 8 * (k - 1) { Pow2Monotone(l, 8 * (k - 1)); }
  }

  lemma {:induction false} OctetsBounds(d: nat)
    ensures Octets(d) >= 1 && d < Pow2(8 * Octets(d)) && (Octets(d) > 1 ==> Pow2(8 * (Octets(d) - 1)) <= d)
  {
    Pow2Values();
    if d >= 256 {
      var k := Octets(d / 256);
      OctetsBounds(d / 256);
      Times256(8 * k);
      if k > 1 { Times256(8 * (k - 1)); }
    }
  }

  lemma Times256(m: nat)
    ensures Pow2(m + 8) == 256 * Pow2(m)
  {
    Pow2Def(m + 8); Pow2Def(m + 7); Pow2Def(m + 6); Pow2Def(m + 5);
    Pow2Def(m + 4); Pow2Def(m + 3); Pow2Def(m + 2); Pow2Def(m + 1);
  }

  lemma {:induction false} OctetsBelow(d: nat, k: nat)
    requires k >= 1
    ensures Octets(d) <= k <==> d < Pow2(8 * k)
  {
    OctetsBounds(d);
    var c := Octets(d);
    if c <= k { Pow2Monotone(8 * c, 8 * k); } else { Pow2Monotone(8 * k, 8 * (c - 1)); }
  }

  /** The length-of-length field of a range above 64K. */
  lemma LengthWidthExact(ra: nat)
    requires ASN_64K < ra < Pow2(64)
    ensures var nBits := CeilLog2(ra); nBits >= 1 && LengthWidth(nBits) == if ra <= Pow2(32) then 2 else 3
  {
    Pow2Values();
    WidthBelow(ra, 16);
    WidthBelow(ra, 32);
    WidthBelow(ra, 64);
    var k := CeilOctets(CeilLog2(ra));
    WidthBelow(k, 1);
    WidthBelow(k, 2);
    WidthBelow(k, 3);
  }

  lemma DeterminantExact(val: nat, aligned: bool, pos: nat)
    ensures ExtentOf(EncodeLength(val, aligned, pos)) == DeterminantExtent(val, aligned, pos)
  {
    DeterminantSize(val, aligned, pos);
  }

  /** Which constrained whole numbers are written, and in how many bits. */
  lemma ConstrainedExact(t: IntType, n: int, lb: int, ub: int, aligned: bool, pos: nat)
    requires t.Valid()
    ensures ExtentOf(EncodeConstrained(t, n, lb, ub, aligned, pos)) == ConstrainedExtent(t, n, lb, ub, aligned, pos)
  {
    hide NatBits, LongForm, OctetForm, Pow2, CeilLog2, LengthWidth, Octets;
    var ra := ub - lb + 1;
    if lb <= n <= ub && RangeDefined(t, lb, ub) && 1 < ra < Pow2(64) {
      var nBits := CeilLog2(ra);
      Pow2Values();
      WidthBelow(ra, 0);
      WidthBelow(ra, 63);
      OffsetFits(t, n, lb, ub, nBits);
      if !aligned || ra < 256 {
      } else if ra <= ASN_64K {
        OctetFormExact(t.Wrap(n - lb), ra, pos);
      } else {
        LongFormExact(n - lb, ra, pos);
      }
    }
  }

  lemma OctetFormExact(toEncode: int, ra: nat, pos: nat)
    requires 256 <= ra <= ASN_64K
    ensures |OctetForm(toEncode, CeilLog2(ra), pos)| == Pad(true, pos) + if ra == 256 then 8 else 16
  {
    Pow2Values();
    WidthBelow(ra, 7);
    WidthBelow(ra, 8);
    WidthBelow(ra, 16);
  }

  lemma LongFormExact(d: nat, ra: nat, pos: nat)
    requires ASN_64K < ra < Pow2(64)
    ensures CeilLog2(ra) >= 1
    ensures ExtentOf(LongForm(d, CeilLog2(ra), pos))
         == if d >= Pow2(56) then Unsupported
            else
              var w := if ra <= Pow2(32) then 2 else 3;
              Takes(w + Pad(true, pos + w) + 8 * Octets(d))
  {
    hide NatBits, CeilLog2, BitLength, Octets, Pow2;
    LengthWidthExact(ra);
    OctetsExact(d);
    OctetsBelow(d, 7);
    OctetsBounds(d);
  }

  lemma UnconstrainedExact(n: int, aligned: bool, pos: nat)
    ensures ExtentOf(EncodeUnconstrained(n, aligned, pos)) == UnconstrainedExtent(n, aligned, pos)
  {
    hide NatBits, Pow2, UnconstrainedOctets;
    if n >= 1 {
      var k := UnconstrainedOctets(n);
      if k <= 7 { Pow2Monotone(8 * k - 1, 55); } else { Pow2Monotone(55, 8 * (k - 1) - 1); }
      DeterminantSize(k, aligned, pos);
      AlignedAgain(pos);
    }
  }

  lemma AlignedAgain(pos: nat)
    ensures AlignUp(AlignUp(pos) + 8) == AlignUp(pos) + 8
  {
  }

  /** Which INTEGERs are written, and in how many bits. */
  lemma IntegerExtentExact(t: IntType, n: int, lb: int, ub: int, ext: bool, aligned: bool, pos: nat)
    requires t.Valid()
    ensures ExtentOf(EncodeInteger(t, n, lb, ub, ext, aligned, pos)) == IntegerExtent(t, n, lb, ub, ext, aligned, pos)
  {
    hide EncodeConstrained, EncodeUnconstrained, ConstrainedExtent, UnconstrainedExtent, NatBits, Pow2;
    var p := pos + if ext then 1 else 0;
    ConstrainedExact(t, n, lb, ub, aligned, p);
    UnconstrainedExact(n, aligned, p);
  }

  /** Which enumerators are written, and in how many bits. */
  lemma EnumExact(e: nat, nofTypes: nat, nofExts: nat, ext: bool)
    ensures ExtentOf(EncodeEnum(e, nofTypes, nofExts, ext)) == EnumExtent(e, nofTypes, nofExts, ext)
  {
    hide NatBits, Pow2, CeilLog2;
    if nofTypes >= 1 { WidthBelow(nofTypes, 63); }
    if nofExts < nofTypes { WidthBelow(nofTypes - nofExts, 63); }
  }

  // Strings.

  function BoundedLengthExtent(n: nat, lb: nat, ub: nat, aligned: bool, pos: nat): Extent {
    if ub >= 65536 then DeterminantExtent(n, aligned, pos) else ConstrainedExtent(UINT32, n, lb, ub, aligned, pos)
  }

  function OctetStringExtent(n: nat, aligned: bool, pos: nat): Extent {
    After(8 * n, DeterminantExtent(n, aligned, pos))
  }

  function BoundedOctetsExtent(n: nat, lb: nat, ub: nat, aligned: bool, pos: nat): Extent {
    match BoundedLengthExtent(n, lb, ub, aligned, pos)
    case Takes(k) => Takes(k + Pad(aligned, pos + k) + 8 * n)
    case x => x
  }

  function PrefixExtent(n: nat, lb: nat, ub: nat, ext: bool, aligned: bool, pos: nat): Extent {
    var within, unbounded := lb <= n <= ub, ub == Pow2(32) - 1;
    if (ext && unbounded) || (!ext && !within) then Refuses
    else
      var e := if ext then 1 else 0;
      After(e, if within && lb == ub then Takes(0)
               else if unbounded || !within then DeterminantExtent(n, false, pos + e)
               else if ub - lb > Pow2(63) then Unsupported
               else var w := CeilLog2(ub - lb); Takes(w + Pad(aligned, pos + e + w)))
  }

  function BitStringExtent(n: nat, lb: nat, ub: nat, ext: bool, aligned: bool, pos: nat): Extent {
    match PrefixExtent(n, lb, ub, ext, aligned, pos)
    case Takes(k) =>
      if n == 0 then Refuses else Takes(k + Pad(aligned && (lb != ub || ub > 16), pos + k) + n)
    case x => x
  }

  lemma BoundedLengthExact(n: nat, lb: nat, ub: nat, aligned: bool, pos: nat)
    ensures ExtentOf(EncodeBoundedLength(n, lb, ub, aligned, pos)) == BoundedLengthExtent(n, lb, ub, aligned, pos)
  {
    hide EncodeLength, EncodeConstrained, DeterminantExtent, ConstrainedExtent;
    DeterminantExact(n, aligned, pos);
    ConstrainedExact(UINT32, n, lb, ub, aligned, pos);
  }

  /** A bounded length is written exactly if it is within its bounds, or below the limit of
      the determinant; nothing about it is unsupported. */
  lemma BoundedLengthOutcome(n: nat, lb: nat, ub: nat, aligned: bool, pos: nat)
    ensures var e := EncodeBoundedLength(n, lb, ub, aligned, pos);
            if LengthInBounds(n, lb, ub, aligned) then e.Encoded? else e == Refused
  {
    hide EncodeBoundedLength;
    BoundedLengthExact(n, lb, ub, aligned, pos);
    Pow2Values();
    Pow2Monotone(16, 32);
    Pow2Strict(16, 63);
    Pow2Strict(63, 64);
  }

  predicate LengthInBounds(n: nat, lb: nat, ub: nat, aligned: bool) {
    if ub >= 65536 then n < 16384 || (aligned && n <= 65536) else lb <= n <= ub
  }

  lemma PrefixExact(n: nat, lb: nat, ub: nat, ext: bool, aligned: bool, pos: nat)
    ensures ExtentOf(EncodePrefix(n, lb, ub, ext, aligned, pos)) == PrefixExtent(n, lb, ub, ext, aligned, pos)
  {
    hide NatBits, Pow2, CeilLog2, EncodeLength, DeterminantExtent;
    DeterminantExact(n, false, pos + if ext then 1 else 0);
    if lb < ub { WidthBelow(ub - lb, 63); }
  }

  /** Which bit strings are written, and in how many bits. */
  lemma BitStringExtentExact(buf: seq<byte>, n: nat, lb: nat, ub: nat, ext: bool, aligned: bool, pos: nat)
    requires |buf| == CeilOctets(n)
    ensures ExtentOf(EncodeBitString(buf, n, lb, ub, ext, aligned, pos))
         == BitStringExtent(n, lb, ub, ext, aligned, pos)
  {
    hide EncodePrefix, PrefixExtent, EncodeBitField, NatBits;
    PrefixExact(n, lb, ub, ext, aligned, pos);
    var e := EncodePrefix(n, lb, ub, ext, aligned, pos);
    if e.Encoded? { FieldShape(buf, n, lb, ub, aligned, pos + |e.bits|); }
  }

  // All of them.

  function LeafExtent(leaf: Leaf, v: Datum, aligned: bool, pos: nat): Extent {
    match (leaf, v)
    case (BitField(w), Number(n)) => if n < 0 || w >= 64 then Unsupported else Takes(w)
    case (Integer(t, lb, ub, ext), Number(n)) =>
      if t.Valid() && t.Has(n) then IntegerExtent(t, n, lb, ub, ext, aligned, pos) else Unsupported
    case (Enumerated(k, x, ext), Number(n)) => if n < 0 then Unsupported else EnumExtent(n, k, x, ext)
    case (OctetString, Octets(bs)) => OctetStringExtent(|bs|, aligned, pos)
    case (FixedOctets(k), Octets(bs)) =>
      if |bs| != k then Unsupported else Takes(Pad(aligned && k > 2, pos) + 8 * k)
    case (BoundedOctets(lb, ub), Octets(bs)) => BoundedOctetsExtent(|bs|, lb, ub, aligned, pos)
    case (BitString(lb, ub, ext), Bitmap(n, buf)) =>
      if |buf| != CeilOctets(n) then Unsupported else BitStringExtent(n, lb, ub, ext, aligned, pos)
    case _ => Unsupported
  }

  /** Every value of every leaf type is written in so many bits, refused or unsupported
      exactly as the numbers say. */
  lemma LeafExact(leaf: Leaf, v: Datum, aligned: bool, pos: nat)
    requires LeafValid(leaf)
    ensures ExtentOf(EncodeLeaf(leaf, v, aligned, pos)) == LeafExtent(leaf, v, aligned, pos)
  {
    hide EncodeInteger, EncodeEnum, EncodeLength, EncodeBoundedLength, EncodeBitString, IntegerExtent, EnumExtent,
         DeterminantExtent, BoundedLengthExtent, BitStringExtent, NatBits, BytesBits;
    match (leaf, v)
    case (Integer(t, lb, ub, ext), Number(n)) => IntegerExtentExact(t, n, lb, ub, ext, aligned, pos);
    case (Enumerated(k, x, ext), Number(n)) => if n >= 0 { EnumExact(n, k, x, ext); }
    case (OctetString, Octets(bs)) => DeterminantExact(|bs|, aligned, pos);
    case (BoundedOctets(lb, ub), Octets(bs)) => BoundedLengthExact(|bs|, lb, ub, aligned, pos);
    case (BitString(lb, ub, ext), Bitmap(n, buf)) =>
      if |buf| == CeilOctets(n) { BitStringExtentExact(buf, n, lb, ub, ext, aligned, pos); }
    case _ =>
  }

  /** Only the number of bits depends on the position. */
  lemma LeafKind(leaf: Leaf, v: Datum, aligned: bool, pos: nat)
    ensures var a, b := LeafExtent(leaf, v, aligned, pos), LeafExtent(leaf, v, aligned, 0);
            (a.Takes? <==> b.Takes?) && (a.Refuses? <==> b.Refuses?)
  {
    hide AlignUp, Octets, UnconstrainedOctets, CeilLog2, Pow2;
  }
}
