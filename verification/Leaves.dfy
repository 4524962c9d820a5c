/** The types without components, their encoders and decoders under one roof. */
module Leaves {
  import opened Bits
  import opened Per
  import opened BitRefs
  import opened Lengths
  import opened Numbers
  import opened Integers
  import opened OctetStrings
  import opened BitStrings

  datatype Leaf =
    | BitField(width: nat)
    | Integer(t: IntType, lb: int, ub: int, ext: bool)
    | Enumerated(nofTypes: nat, nofExts: nat, hasExt: bool)
    | OctetString
    | FixedOctets(size: nat)
    | BoundedOctets(minOctets: nat, maxOctets: nat)
    | BitString(minBits: nat, maxBits: nat, extensible: bool)

  datatype Datum =
    | Number(n: int)
    | Octets(bs: seq<byte>)
    | Bitmap(size: nat, octets: seq<byte>)

  /** A leaf of a type the templates of the source can be instantiated with. */
  predicate LeafValid(leaf: Leaf) {
    leaf.Integer? ==> leaf.t.Valid()
  }

  function EncodeLeaf(leaf: Leaf, v: Datum, aligned: bool, pos: nat): Encoding
    requires LeafValid(leaf)
  {
    match (leaf, v)
    case (BitField(w), Number(n)) => if n < 0 || w >= 64 then EncodeUndefined else Encoded(NatBits(n, w))
    case (Integer(t, lb, ub, ext), Number(n)) =>
      if t.Has(n) then EncodeInteger(t, n, lb, ub, ext, aligned, pos) else EncodeUndefined
    case (Enumerated(k, x, ext), Number(n)) => if n < 0 then EncodeUndefined else EncodeEnum(n, k, x, ext)
    case (OctetString, Octets(bs)) => EncodeOctetString(bs, aligned, pos)
    case (FixedOctets(k), Octets(bs)) =>
      if |bs| != k then EncodeUndefined else Encoded(EncodeFixedOctets(bs, aligned, pos))
    case (BoundedOctets(lb, ub), Octets(bs)) => EncodeBoundedOctets(bs, lb, ub, aligned, pos)
    case (BitString(lb, ub, ext), Bitmap(n, buf)) =>
      if |buf| != CeilOctets(n) then EncodeUndefined else EncodeBitString(buf, n, lb, ub, ext, aligned, pos)
    case _ => EncodeUndefined
  }

  /** Destinations are taken to hold zero before they are decoded into. */
  ghost function DecodeLeaf(leaf: Leaf, s: seq<bool>, pos: nat, aligned: bool): Decoding<Datum>
    requires LeafValid(leaf)
  {
    match leaf
    case BitField(w) =>
      if w > 64 then DecodeUndefined
      else
        var (n, p) :- Read(s, pos, w);
        Decoded(Number(n), p)
    case Integer(t, lb, ub, ext) =>
      var (n, p) :- DecodeInteger(t, 0, s, pos, lb, ub, ext, aligned);
      Decoded(Number(n), p)
    case Enumerated(k, x, ext) =>
      var (n, p) :- DecodeEnum(s, pos, k, x, ext);
      Decoded(Number(n), p)
    case OctetString =>
      var (bs, p) :- DecodeOctetString(s, pos, aligned);
      Decoded(Octets(bs), p)
    case FixedOctets(k) =>
      var (bs, p) :- DecodeFixedOctets(s, pos, k, aligned);
      Decoded(Octets(bs), p)
    case BoundedOctets(lb, ub) =>
      var (bs, p) :- DecodeBoundedOctets(s, pos, lb, ub, aligned);
      Decoded(Octets(bs), p)
    case BitString(lb, ub, ext) =>
      var (v, p) :- DecodeBitString(s, pos, lb, ub, ext, aligned);
      Decoded(Bitmap(v.0, v.1), p)
  }

  /** What a leaf and its value must satisfy to be delivered from a position; see the
      leaf's own lemma. */
  predicate LeafDeliverable(leaf: Leaf, v: Datum, aligned: bool, pos: nat)
    requires LeafValid(leaf)
  {
    match (leaf, v)
    case (BitField(w), Number(n)) => 0 <= n < Pow2(w)
    case (Integer(t, lb, ub, ext), Number(n)) => Receivable(t, n, lb, ub) && ReadBackAs(t, 0, n, lb, ub) == n
    case (Enumerated(k, _, _), _) => k <= Pow2(32)
    case (OctetString, Octets(bs)) => |bs| < ASN_16K
    case (BoundedOctets(_, ub), Octets(bs)) => ub >= ASN_64K ==> |bs| < ASN_16K
    case (BitString(lb, ub, ext), Bitmap(n, buf)) =>
      && PrefixAgrees(n, lb, ub, aligned, if ext then pos + 1 else pos) && n <= ASN_64K
      && |buf| == CeilOctets(n) && buf == Canonical(buf, n)
    case _ => true
  }

  /** Every deliverable value of every leaf type is decoded from its encoding. */
  lemma LeafRoundTrip(leaf: Leaf, v: Datum, aligned: bool, s: seq<bool>, pos: nat)
    requires LeafValid(leaf) && LeafDeliverable(leaf, v, aligned, pos)
    requires EncodeLeaf(leaf, v, aligned, pos).Encoded? && At(s, pos, EncodeLeaf(leaf, v, aligned, pos).bits)
    ensures DecodeLeaf(leaf, s, pos, aligned) == Decoded(v, pos + |EncodeLeaf(leaf, v, aligned, pos).bits|)
  {
    hide EncodeInteger, DecodeInteger, EncodeEnum, DecodeEnum, EncodeOctetString, DecodeOctetString, EncodeFixedOctets,
         DecodeFixedOctets, EncodeBoundedOctets, DecodeBoundedOctets, EncodeBitString, DecodeBitString, At, Read,
         PrefixAgrees;
    match (leaf, v)
    case (BitField(w), Number(n)) => ReadBack(s, pos, n, w);
    case (Integer(t, lb, ub, ext), Number(n)) => IntegerRoundTrip(t, 0, s, pos, n, lb, ub, ext, aligned);
    case (Enumerated(k, x, ext), Number(n)) => EnumRoundTrip(s, pos, n, k, x, ext);
    case (OctetString, Octets(bs)) => OctetStringRoundTrip(s, pos, bs, aligned);
    case (FixedOctets(k), Octets(bs)) => FixedOctetsRoundTrip(s, pos, bs, aligned);
    case (BoundedOctets(lb, ub), Octets(bs)) => BoundedOctetsRoundTrip(s, pos, bs, lb, ub, aligned);
    case (BitString(lb, ub, ext), Bitmap(n, buf)) => BitStringRoundTrip(s, pos, buf, n, lb, ub, ext, aligned);
    case _ =>
  }

  // Encodings depend on the position only through its place in the octet, and not at
  // all in the unaligned variant.

  predicate SamePhase(a: nat, b: nat) {
    AlignUp(a) - a == AlignUp(b) - b
  }

  lemma PhaseShift(a: nat, b: nat, k: nat)
    requires SamePhase(a, b)
    ensures SamePhase(a + k, b + k)
  {
    var x, y := CeilOctets(a + k), CeilOctets(b + k);
    assert 8 * (CeilOctets(b) - CeilOctets(a)) == b - a;
    assert 8 * (x + CeilOctets(b) - CeilOctets(a) - 1) < b + k <= 8 * (x + CeilOctets(b) - CeilOctets(a));
  }

  lemma LengthPhase(n: nat, aligned: bool, a: nat, b: nat)
    requires aligned ==> SamePhase(a, b)
    ensures EncodeLength(n, aligned, a) == EncodeLength(n, aligned, b)
  {
  }

  lemma ConstrainedPhase(t: IntType, n: int, lb: int, ub: int, aligned: bool, a: nat, b: nat)
    requires t.Valid() && (aligned ==> SamePhase(a, b))
    ensures EncodeConstrained(t, n, lb, ub, aligned, a) == EncodeConstrained(t, n, lb, ub, aligned, b)
  {
    hide OctetForm, LongForm, CeilLog2, NatBits, AsUint64, SamePhase;
    if aligned && lb < ub {
      var nBits := CeilLog2(ub - lb + 1);
      if nBits >= 1 { FormsPhase(t.Wrap(n - lb), nBits, a, b); }
    }
  }

  lemma FormsPhase(toEncode: int, nBits: nat, a: nat, b: nat)
    requires nBits >= 1 && SamePhase(a, b)
    ensures OctetForm(toEncode, nBits, a) == OctetForm(toEncode, nBits, b)
    ensures LongForm(toEncode, nBits, a) == LongForm(toEncode, nBits, b)
  {
    PhaseShift(a, b, LengthWidth(nBits));
  }

  lemma BoundedLengthPhase(n: nat, lb: nat, ub: nat, aligned: bool, a: nat, b: nat)
    requires aligned ==> SamePhase(a, b)
    ensures EncodeBoundedLength(n, lb, ub, aligned, a) == EncodeBoundedLength(n, lb, ub, aligned, b)
  {
    LengthPhase(n, aligned, a, b);
    ConstrainedPhase(UINT32, n, lb, ub, aligned, a, b);
  }

  lemma PadIfPhase(aligned: bool, a: nat, b: nat, k: nat)
    requires aligned ==> SamePhase(a, b)
    ensures PadIf(aligned, a + k) == PadIf(aligned, b + k)
  {
    if aligned { PhaseShift(a, b, k); }
  }

  lemma UnconstrainedPhase(n: int, aligned: bool, a: nat, b: nat)
    requires aligned ==> SamePhase(a, b)
    ensures EncodeUnconstrained(n, aligned, a) == EncodeUnconstrained(n, aligned, b)
  {
    if n >= 1 {
      var len := UnconstrainedOctets(n);
      LengthPhase(len, aligned, a, b);
      if EncodeLength(len, aligned, a).Encoded? {
        PadIfPhase(aligned, a, b, |EncodeLength(len, aligned, a).bits|);
      }
    }
  }

  lemma IntegerPhase(t: IntType, n: int, lb: int, ub: int, ext: bool, aligned: bool, a: nat, b: nat)
    requires t.Valid() && (aligned ==> SamePhase(a, b))
    ensures EncodeInteger(t, n, lb, ub, ext, aligned, a) == EncodeInteger(t, n, lb, ub, ext, aligned, b)
  {
    var k := if ext then 1 else 0;
    if aligned { PhaseShift(a, b, k); }
    IntegerBodyPhase(t, n, lb, ub, aligned, a + k, b + k);
  }

  lemma IntegerBodyPhase(t: IntType, n: int, lb: int, ub: int, aligned: bool, a: nat, b: nat)
    requires t.Valid() && (aligned ==> SamePhase(a, b))
    ensures EncodeIntegerBody(t, n, lb, ub, aligned, a) == EncodeIntegerBody(t, n, lb, ub, aligned, b)
  {
    UnconstrainedPhase(n, aligned, a, b);
    ConstrainedPhase(t, n, lb, ub, aligned, a, b);
  }

  lemma BoundedOctetsPhase(bs: seq<byte>, lb: nat, ub: nat, aligned: bool, a: nat, b: nat)
    requires aligned ==> SamePhase(a, b)
    ensures EncodeBoundedOctets(bs, lb, ub, aligned, a) == EncodeBoundedOctets(bs, lb, ub, aligned, b)
  {
    BoundedLengthPhase(|bs|, lb, ub, aligned, a, b);
    var e := EncodeBoundedLength(|bs|, lb, ub, aligned, a);
    if e.Encoded? { PadIfPhase(aligned, a, b, |e.bits|); }
  }

  lemma PrefixBodyPhase(len: nat, lb: nat, ub: nat, aligned: bool, a: nat, b: nat)
    requires aligned ==> SamePhase(a, b)
    ensures EncodePrefixBody(len, lb, ub, aligned, a) == EncodePrefixBody(len, lb, ub, aligned, b)
  {
    if lb <= len <= ub && lb < ub { PadIfPhase(aligned, a, b, CeilLog2(ub - lb)); }
  }

  lemma PrefixPhase(len: nat, lb: nat, ub: nat, ext: bool, aligned: bool, a: nat, b: nat)
    requires aligned ==> SamePhase(a, b)
    ensures EncodePrefix(len, lb, ub, ext, aligned, a) == EncodePrefix(len, lb, ub, ext, aligned, b)
  {
    var k := if ext then 1 else 0;
    if aligned { PhaseShift(a, b, k); }
    PrefixBodyPhase(len, lb, ub, aligned, a + k, b + k);
  }

  lemma BitStringPhase(buf: seq<byte>, n: nat, lb: nat, ub: nat, ext: bool, aligned: bool, a: nat, b: nat)
    requires |buf| == CeilOctets(n) && (aligned ==> SamePhase(a, b))
    ensures EncodeBitString(buf, n, lb, ub, ext, aligned, a) == EncodeBitString(buf, n, lb, ub, ext, aligned, b)
  {
    PrefixPhase(n, lb, ub, ext, aligned, a, b);
    var e := EncodePrefix(n, lb, ub, ext, aligned, a);
    if e.Encoded? { PadIfPhase(FieldAligned(lb, ub, aligned), a, b, |e.bits|); }
  }

  lemma LeafPhase(leaf: Leaf, v: Datum, aligned: bool, a: nat, b: nat)
    requires LeafValid(leaf) && (aligned ==> SamePhase(a, b))
    ensures EncodeLeaf(leaf, v, aligned, a) == EncodeLeaf(leaf, v, aligned, b)
  {
    match (leaf, v)
    case (Integer(t, lb, ub, ext), Number(n)) => IntegerPhase(t, n, lb, ub, ext, aligned, a, b);
    case (OctetString, Octets(bs)) => LengthPhase(|bs|, aligned, a, b);
    case (FixedOctets(k), Octets(bs)) => PadIfPhase(aligned && |bs| > 2, a, b, 0);
    case (BoundedOctets(lb, ub), Octets(bs)) => BoundedOctetsPhase(bs, lb, ub, aligned, a, b);
    case (BitString(lb, ub, ext), Bitmap(n, buf)) =>
      if |buf| == CeilOctets(n) { BitStringPhase(buf, n, lb, ub, ext, aligned, a, b); }
    case _ =>
  }

  /** So does whether a leaf is delivered. */
  lemma LeafDeliverablePhase(leaf: Leaf, v: Datum, aligned: bool, a: nat, b: nat)
    requires LeafValid(leaf) && (aligned ==> SamePhase(a, b))
    ensures LeafDeliverable(leaf, v, aligned, a) <==> LeafDeliverable(leaf, v, aligned, b)
  {
    if aligned && leaf.BitString? && leaf.extensible { PhaseShift(a, b, 1); }
  }

  // The methods that pack and unpack a leaf.

  method PackLeaf(bref: BitRef, leaf: Leaf, v: Datum, aligned: bool) returns (code: Code)
    requires LeafValid(leaf) && bref.Valid() && EncodeLeaf(leaf, v, aligned, |bref.bits|) != EncodeUndefined
    modifies bref
    ensures bref.Valid() && Appended(old(bref.bits), bref.bits, code, EncodeLeaf(leaf, v, aligned, |old(bref.bits)|))
  {
    match (leaf, v)
    case (BitField(w), Number(n)) =>
      bref.Pack(n, w);
      code := Success;
    case (Integer(t, lb, ub, ext), Number(n)) =>
      code := PackInteger(bref, t, n, lb, ub, ext, aligned);
    case (Enumerated(k, x, ext), Number(n)) =>
      code := PackEnum(bref, n, k, x, ext);
    case (OctetString, Octets(bs)) =>
      code := PackOctetString(bref, bs, aligned);
    case (FixedOctets(k), Octets(bs)) =>
      PackFixedOctets(bref, bs, aligned);
      code := Success;
    case (BoundedOctets(lb, ub), Octets(bs)) =>
      code := PackBoundedOctets(bref, bs, lb, ub, aligned);
    case (BitString(lb, ub, ext), Bitmap(n, buf)) =>
      code := PackBitString(bref, buf, n, lb, ub, ext, aligned);
  }

  method UnpackLeaf(bref: CBitRef, leaf: Leaf, aligned: bool) returns (r: Result<Datum>)
    requires LeafValid(leaf) && bref.Valid() && DecodeLeaf(leaf, bref.stream, bref.pos, aligned) != DecodeUndefined
    modifies bref
    ensures bref.Valid() && Consumed(bref.pos, r, DecodeLeaf(leaf, bref.stream, old(bref.pos), aligned))
  {
    match leaf
    case BitField(w) =>
      var n := bref.Unpack(w);
      r := Ok(Number(n));
    case Integer(t, lb, ub, ext) =>
      var n := UnpackInteger(bref, t, 0, lb, ub, ext, aligned);
      r := if n.Ok? then Ok(Number(n.value)) else Fail;
    case Enumerated(k, x, ext) =>
      var n := UnpackEnum(bref, k, x, ext);
      r := if n.Ok? then Ok(Number(n.value)) else Fail;
    case OctetString =>
      var bs := UnpackOctetString(bref, aligned);
      r := if bs.Ok? then Ok(Octets(bs.value)) else Fail;
    case FixedOctets(k) =>
      ReadOctetsNeverRejects(bref.stream, bref.pos, k, aligned);
      var bs := UnpackFixedOctets(bref, k, aligned);
      r := Ok(Octets(bs));
    case BoundedOctets(lb, ub) =>
      var bs := UnpackBoundedOctets(bref, lb, ub, aligned);
      r := if bs.Ok? then Ok(Octets(bs.value)) else Fail;
    case BitString(lb, ub, ext) =>
      var v := UnpackBitString(bref, lb, ub, ext, aligned);
      r := if v.Ok? then Ok(Bitmap(v.value.0, v.value.1)) else Fail;
  }

  lemma ReadOctetsNeverRejects(s: seq<bool>, pos: nat, n: nat, aligned: bool)
    ensures !DecodeFixedOctets(s, pos, n, aligned).Rejected?
  {
  }
}
