/** Messages that are always written and read back, told by numbers alone: no encoder, no
    decoder and no position is named in the condition. */
module Guarantees {
  import opened Bits
  import opened Per
  import opened Lengths
  import opened Numbers
  import opened Integers
  import opened OpenFields
  import opened ExtGroups
  import opened BitStrings
  import opened Leaves
  import opened Messages
  import opened LeafExtents
  import opened Extents
  import opened Deliveries
  import opened MessageLaws

  /** Both bounds are stated and differ, or neither is; other types carry only the value
      that the destination starts with. Values outside the bounds are at most half the
      unsigned range. */
  predicate IntegerSafe(t: IntType, n: int, lb: int, ub: int)
    requires t.Valid()
  {
    var noLower, noUpper := t.signed && lb == t.Min(), ub == t.Max();
    if lb <= n <= ub && !(noLower && noUpper) then (!noLower && !noUpper && lb < ub) || n == 0
    else n <= Pow2(8 * t.octets - 1)
  }

  /** A fixed size; a bounded one whose length is written as it is read; or a length without
      bounds, in the unaligned variant. */
  predicate SizeSafe(n: nat, lb: nat, ub: nat, aligned: bool) {
    if lb == n == ub then true
    else if ub == Pow2(32) - 1 || !(lb <= n <= ub) then !aligned
    else ub < 65536 && Pow2(CeilLog2(ub - lb)) != ub - lb && (aligned ==> ub - lb < 255)
  }

  predicate LeafSafe(leaf: Leaf, d: Datum, aligned: bool) {
    match (leaf, d)
    case (BitField(w), Number(n)) => 0 <= n < Pow2(w)
    case (Integer(t, lb, ub, _), Number(n)) => t.Valid() && IntegerSafe(t, n, lb, ub)
    case (Enumerated(k, _, _), _) => k <= Pow2(32)
    case (OctetString, Octets(bs)) => |bs| < 16384
    case (BoundedOctets(_, ub), Octets(bs)) => ub >= 65536 ==> |bs| < 16384
    case (BitString(lb, ub, _), Bitmap(n, buf)) =>
      && 1 <= n <= 65536 && |buf| == CeilOctets(n)
      && buf[|buf| - 1] < Pow2(n - 8 * (|buf| - 1))
      && SizeSafe(n, lb, ub, aligned)
    case _ => true
  }

  /** Delimited content takes at most 16383 octets. */
  const LARGEST := 8 * 16383

  ghost predicate Safe(schema: Schema, v: Value, aligned: bool)
    decreases schema
  {
    match (schema, v)
    case (Atom(leaf), Single(d)) => LeafSafe(leaf, d, aligned)
    case (SequenceOf(_, ub, elem), List(items)) =>
      (ub >= 65536 ==> |items| < 16384) && forall i | 0 <= i < |items| :: Safe(elem, items[i], aligned)
    case (Choice(alternatives), Chosen(i, w)) =>
      |alternatives| <= Pow2(32) && (i < |alternatives| ==> Safe(alternatives[i], w, aligned))
    case (Open(content), _) => Safe(content, v, aligned) && Size(content, v, aligned, 0) <= LARGEST
    case (Sequence(fields, _, groups), Record(vs, ext, gs)) =>
      |vs| == |fields| && |gs| == |groups| ==>
        && (forall i | 0 <= i < |fields| ::
              assert fields[i].schema < fields[i];
              (fields[i].optional && vs[i].Absent?) || Safe(fields[i].schema, vs[i], aligned))
        && (forall i | 0 <= i < |groups| ::
              || gs[i].Absent?
              || (ext && i <= 63 && Safe(groups[i], gs[i], aligned) && Size(groups[i], gs[i], aligned, 0) <= LARGEST))
        && (ext && groups != [] ==> !aligned)
    case _ => true
  }

  // Such messages are deliverable at every position.

  lemma LeafSafeDelivers(leaf: Leaf, d: Datum, aligned: bool, pos: nat)
    requires LeafValid(leaf) && LeafSafe(leaf, d, aligned)
    ensures LeafDeliverable(leaf, d, aligned, pos)
  {
    hide Pow2, CeilLog2, Canonical, PrefixAgrees;
    match (leaf, d)
    case (BitString(lb, ub, ext), Bitmap(n, buf)) =>
      SizeSafeAgrees(n, lb, ub, aligned, if ext then pos + 1 else pos);
      CanonicalOctets(buf, n);
    case _ =>
  }

  lemma SizeSafeAgrees(n: nat, lb: nat, ub: nat, aligned: bool, pos: nat)
    requires 1 <= n <= 65536 && SizeSafe(n, lb, ub, aligned)
    ensures PrefixAgrees(n, lb, ub, aligned, pos)
  {
    hide CeilLog2;
    Pow2Values();
    Pow2Monotone(17, 32);
    Pow2Def(17);
  }

  lemma CanonicalOctets(buf: seq<byte>, n: nat)
    requires n >= 1 && |buf| == CeilOctets(n) && buf[|buf| - 1] < Pow2(n - 8 * (|buf| - 1))
    ensures Canonical(buf, n) == buf
  {
    LowSmall(buf[|buf| - 1], TopBits(n));
    assert buf[..|buf| - 1] + [buf[|buf| - 1]] == buf;
  }

  lemma {:induction false} SafeDelivers(schema: Schema, v: Value, aligned: bool, pos: nat)
    requires Supported(schema, v, aligned) && InBounds(schema, v, aligned) && Safe(schema, v, aligned)
    ensures Deliverable(schema, v, aligned, pos)
    decreases schema, 1, 0
  {
    hide LeafExtent, LeafDeliverable, LeafSafe, ItemsDeliverable, FieldsDeliverable, GroupsDeliverable, ShortContent,
         EncodeBoundedLength, EncodeEnum, Pow2, Size, LengthInBounds, Highest, PresentGroups, SequenceHead;
    match (schema, v)
    case (Atom(leaf), Single(d)) => LeafSafeDelivers(leaf, d, aligned, pos);
    case (SequenceOf(lb, ub, elem), List(items)) =>
      var head := EncodeBoundedLength(|items|, lb, ub, aligned, pos);
      if head.Encoded? { ItemsSafe(elem, items, aligned, pos + |head.bits|); }
    case (Choice(alternatives), Chosen(i, w)) =>
      var head := EncodeEnum(i, |alternatives|, 0, false);
      if head.Encoded? { SafeDelivers(alternatives[i], w, aligned, pos + |head.bits|); }
    case (Open(content), _) =>
      SafeDelivers(content, v, aligned, 0);
      SizeIsShort(content, v, aligned);
    case (Sequence(fields, extensible, groups), Record(vs, ext, gs)) =>
      FieldsSafe(fields, vs, aligned, pos + |SequenceHead(fields, extensible, vs, ext)|);
      GroupsSafe(groups, gs, aligned);
      HighestSafe(gs, ext);
  }

  lemma SizeIsShort(schema: Schema, v: Value, aligned: bool)
    requires Size(schema, v, aligned, 0) <= LARGEST
    ensures ShortContent(schema, v, aligned)
  {
    hide Encode, Supported, InBounds, Size;
    WritesExactly(schema, v, aligned, 0);
  }

  lemma HighestSafe(gs: seq<Value>, ext: bool)
    requires forall i | 0 <= i < |gs| :: gs[i].Absent? || (ext && i <= 63)
    ensures Highest(PresentGroups(gs)) <= if ext then 63 else -1
  {
    var h := Highest(PresentGroups(gs));
    if h >= 0 { assert PresentGroups(gs)[h] && !gs[h].Absent?; }
  }

  lemma {:induction false} ItemsSafe(elem: Schema, items: seq<Value>, aligned: bool, pos: nat)
    requires forall i | 0 <= i < |items| ::
               Supported(elem, items[i], aligned) && InBounds(elem, items[i], aligned) && Safe(elem, items[i], aligned)
    ensures ItemsDeliverable(elem, items, aligned, pos)
    decreases elem, 2, |items|
  {
    hide Encode, Supported, InBounds, Safe, Deliverable;
    if items != [] {
      SafeDelivers(elem, items[0], aligned, pos);
      var head := Encode(elem, items[0], aligned, pos);
      if head.Encoded? { ItemsSafe(elem, items[1..], aligned, pos + |head.bits|); }
    }
  }

  lemma {:induction false} FieldsSafe(fields: seq<Field>, vs: seq<Value>, aligned: bool, pos: nat)
    requires |fields| == |vs|
    requires forall i | 0 <= i < |fields| ::
               || (fields[i].optional && vs[i].Absent?)
               || (&& Supported(fields[i].schema, vs[i], aligned) && InBounds(fields[i].schema, vs[i], aligned)
                   && Safe(fields[i].schema, vs[i], aligned))
    ensures FieldsDeliverable(fields, vs, aligned, pos)
    decreases fields, 2, |fields|
  {
    hide Encode, Supported, InBounds, Safe, Deliverable;
    if fields != [] {
      assert forall i | 1 <= i < |fields| :: fields[1..][i - 1] == fields[i] && vs[1..][i - 1] == vs[i];
      if fields[0].optional && vs[0].Absent? {
        FieldsSafe(fields[1..], vs[1..], aligned, pos);
      } else {
        assert fields[0].schema < fields[0];
        SafeDelivers(fields[0].schema, vs[0], aligned, pos);
        var head := Encode(fields[0].schema, vs[0], aligned, pos);
        if head.Encoded? { FieldsSafe(fields[1..], vs[1..], aligned, pos + |head.bits|); }
      }
    }
  }

  lemma {:induction false} GroupsSafe(groups: seq<Schema>, gs: seq<Value>, aligned: bool)
    requires |groups| == |gs|
    requires forall i | 0 <= i < |groups| ::
               || gs[i].Absent?
               || (&& Supported(groups[i], gs[i], aligned) && InBounds(groups[i], gs[i], aligned)
                   && Safe(groups[i], gs[i], aligned) && Size(groups[i], gs[i], aligned, 0) <= LARGEST)
    ensures GroupsDeliverable(groups, gs, aligned)
    decreases groups, 2, |groups|
  {
    hide Supported, InBounds, Safe, Deliverable, Size, ShortContent;
    if groups != [] {
      assert forall i | 1 <= i < |groups| :: groups[1..][i - 1] == groups[i] && gs[1..][i - 1] == gs[i];
      if !gs[0].Absent? {
        SafeDelivers(groups[0], gs[0], aligned, 0);
        SizeIsShort(groups[0], gs[0], aligned);
      }
      GroupsSafe(groups[1..], gs[1..], aligned);
    }
  }

  /** Every safe message that is supported and in bounds is written at every position, and
      read back from whatever stream holds what was written, with the cursor behind it. */
  lemma Guaranteed(schema: Schema, v: Value, aligned: bool, pos: nat)
    requires Supported(schema, v, aligned) && InBounds(schema, v, aligned) && Safe(schema, v, aligned)
    ensures var e := Encode(schema, v, aligned, pos);
            && e.Encoded?
            && forall s: seq<bool> | At(s, pos, e.bits) ::
                 Decode(schema, s, pos, aligned) == Decoded(v, pos + Size(schema, v, aligned, pos))
  {
    hide Encode, Decode, Supported, InBounds, Safe, Size, Deliverable, At;
    WritesExactly(schema, v, aligned, pos);
    SafeDelivers(schema, v, aligned, pos);
    var e := Encode(schema, v, aligned, pos);
    forall s: seq<bool> | At(s, pos, e.bits)
      ensures Decode(schema, s, pos, aligned) == Decoded(v, pos + Size(schema, v, aligned, pos))
    {
      RoundTrip(schema, v, aligned, s, pos);
    }
  }
}
