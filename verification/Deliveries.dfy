/** Which messages are delivered, and that the encoding of a message and whether it is
    delivered depend on its position only through alignment. */
module Deliveries {
  import opened Bits
  import opened Per
  import opened Lengths
  import opened Integers
  import opened OpenFields
  import opened ExtGroups
  import opened Leaves
  import opened Messages

  // Position independence.

  predicate InPhase(aligned: bool, a: nat, b: nat) {
    aligned ==> SamePhase(a, b)
  }

  lemma InPhaseShift(aligned: bool, a: nat, b: nat, k: nat)
    requires InPhase(aligned, a, b)
    ensures InPhase(aligned, a + k, b + k)
  {
    if aligned { PhaseShift(a, b, k); }
  }

  /** The start of a fresh buffer is in phase with any octet boundary. */
  lemma InPhaseStart(aligned: bool, start: nat)
    requires aligned ==> AlignUp(start) == start
    ensures InPhase(aligned, 0, start)
  {
  }

  lemma OpenFieldPhase(inner: seq<bool>, aligned: bool, a: nat, b: nat)
    requires InPhase(aligned, a, b)
    ensures OpenFieldBits(inner, aligned, a) == OpenFieldBits(inner, aligned, b)
  {
    LengthPhase(CeilOctets(|inner|), aligned, a, b);
  }

  lemma {:induction false} FieldsBitsPhase(present: seq<bool>, inners: seq<seq<bool>>, i: nat, n: nat, a: nat, b: nat)
    requires n <= |present| == |inners|
    ensures FieldsBits(present, inners, i, n, a) == FieldsBits(present, inners, i, n, b)
    decreases n - i
  {
    hide OpenFieldBits;
    if i < n {
      if present[i] {
        OpenFieldPhase(inners[i], false, a, b);
        var k := |OpenFieldBits(inners[i], false, a)|;
        FieldsBitsPhase(present, inners, i + 1, n, a + k, b + k);
      } else {
        FieldsBitsPhase(present, inners, i + 1, n, a, b);
      }
    }
  }

  /** A message is encoded alike at positions that agree in alignment; in the unaligned
      variant, at any two positions. */
  lemma {:induction false} EncodePhase(schema: Schema, v: Value, aligned: bool, a: nat, b: nat)
    requires InPhase(aligned, a, b)
    ensures Encode(schema, v, aligned, a) == Encode(schema, v, aligned, b)
    decreases schema, 0, 0
  {
    hide EncodeItems, EncodeSequence, EncodeBoundedLength, EncodeEnum, SamePhase;
    match (schema, v)
    case (Atom(leaf), Single(d)) =>
      if LeafValid(leaf) { LeafPhase(leaf, d, aligned, a, b); }
    case (SequenceOf(lb, ub, elem), List(items)) =>
      BoundedLengthPhase(|items|, lb, ub, aligned, a, b);
      var head := EncodeBoundedLength(|items|, lb, ub, aligned, a);
      if head.Encoded? {
        InPhaseShift(aligned, a, b, |head.bits|);
        ItemsPhase(elem, items, aligned, a + |head.bits|, b + |head.bits|);
      }
    case (Choice(alternatives), Chosen(i, w)) =>
      if i < |alternatives| {
        var head := EncodeEnum(i, |alternatives|, 0, false);
        if head.Encoded? {
          InPhaseShift(aligned, a, b, |head.bits|);
          EncodePhase(alternatives[i], w, aligned, a + |head.bits|, b + |head.bits|);
        }
      }
    case (Open(content), _) =>
      var inner := Encode(content, v, aligned, 0);
      if inner.Encoded? { OpenFieldPhase(inner.bits, aligned, a, b); }
    case (Sequence(fields, extensible, groups), Record(vs, ext, gs)) =>
      SequencePhase(fields, extensible, groups, vs, ext, gs, aligned, a, b);
    case _ =>
  }

  lemma {:induction false} SequencePhase(fields: seq<Field>, extensible: bool, groups: seq<Schema>,
                                         vs: seq<Value>, ext: bool, gs: seq<Value>, aligned: bool, a: nat, b: nat)
    requires InPhase(aligned, a, b)
    ensures EncodeSequence(Sequence(fields, extensible, groups), vs, ext, gs, aligned, a)
         == EncodeSequence(Sequence(fields, extensible, groups), vs, ext, gs, aligned, b)
    decreases fields, 2, 0
  {
    hide EncodeFields, EncodeContents, EncodeExtensions;
    if |vs| == |fields| && |gs| == |groups| {
      var k := |SequenceHead(fields, extensible, vs, ext)|;
      InPhaseShift(aligned, a, b, k);
      FieldsPhase(fields, vs, aligned, a + k, b + k);
      var contents := EncodeContents(groups, gs, aligned);
      ExtensionsPhase(PresentGroups(gs), contents);
    }
  }

  lemma ExtensionsPhase(present: seq<bool>, contents: Contents)
    requires contents.Contents? ==> |contents.inners| == |present|
    ensures forall a: nat, b: nat :: EncodeExtensions(present, contents, a) == EncodeExtensions(present, contents, b)
  {
    forall a: nat, b: nat
      ensures EncodeExtensions(present, contents, a) == EncodeExtensions(present, contents, b)
    {
      var k := |FlagsWritten(present)|;
      if contents.Contents? { FieldsBitsPhase(present, contents.inners, 0, |present|, a + k, b + k); }
    }
  }

  lemma {:induction false} ItemsPhase(elem: Schema, items: seq<Value>, aligned: bool, a: nat, b: nat)
    requires InPhase(aligned, a, b)
    ensures EncodeItems(elem, items, aligned, a) == EncodeItems(elem, items, aligned, b)
    decreases elem, 1, |items|
  {
    hide Encode, InPhase, Then;
    if items != [] {
      EncodePhase(elem, items[0], aligned, a, b);
      var head := Encode(elem, items[0], aligned, a);
      if head.Encoded? {
        InPhaseShift(aligned, a, b, |head.bits|);
        ItemsPhase(elem, items[1..], aligned, a + |head.bits|, b + |head.bits|);
      }
    }
  }

  lemma {:induction false} FieldsPhase(fields: seq<Field>, vs: seq<Value>, aligned: bool, a: nat, b: nat)
    requires |fields| == |vs| && InPhase(aligned, a, b)
    ensures EncodeFields(fields, vs, aligned, a) == EncodeFields(fields, vs, aligned, b)
    decreases fields, 1, |fields|
  {
    hide Encode, InPhase, Then;
    if fields != [] {
      if fields[0].optional && vs[0].Absent? {
        FieldsPhase(fields[1..], vs[1..], aligned, a, b);
      } else {
        assert fields[0].schema < fields[0];
        EncodePhase(fields[0].schema, vs[0], aligned, a, b);
        var head := Encode(fields[0].schema, vs[0], aligned, a);
        if head.Encoded? {
          InPhaseShift(aligned, a, b, |head.bits|);
          FieldsPhase(fields[1..], vs[1..], aligned, a + |head.bits|, b + |head.bits|);
        }
      }
    }
  }

  // Round trip.

  /** The content of an open type field is short enough for its length to be supported. */
  predicate ShortContent(schema: Schema, v: Value, aligned: bool) {
    var inner := Encode(schema, v, aligned, 0);
    inner.Encoded? ==> CeilOctets(|inner.bits|) < ASN_16K
  }

  /** What a message must satisfy to be delivered from a position: its leaves are
      deliverable where they come to stand, lengths without a small upper bound and open
      type fields stay below 16K, groups are announced by the extension bit and have
      indices up to 63, and they are used in the unaligned variant only, because they are
      always delimited without alignment. */
  predicate Deliverable(schema: Schema, v: Value, aligned: bool, pos: nat)
    decreases schema, 0, 0
  {
    match (schema, v)
    case (Atom(leaf), Single(d)) => LeafValid(leaf) && LeafDeliverable(leaf, d, aligned, pos)
    case (SequenceOf(lb, ub, elem), List(items)) =>
      var head := EncodeBoundedLength(|items|, lb, ub, aligned, pos);
      && (ub >= ASN_64K ==> |items| < ASN_16K)
      && (head.Encoded? ==> ItemsDeliverable(elem, items, aligned, pos + |head.bits|))
    case (Choice(alternatives), Chosen(i, w)) =>
      && |alternatives| <= Pow2(32) && i < |alternatives|
      && var head := EncodeEnum(i, |alternatives|, 0, false);
         head.Encoded? ==> Deliverable(alternatives[i], w, aligned, pos + |head.bits|)
    case (Open(content), _) => Deliverable(content, v, aligned, 0) && ShortContent(content, v, aligned)
    case (Sequence(fields, extensible, groups), Record(vs, ext, gs)) =>
      && |vs| == |fields| && |gs| == |groups| < TWO32
      && FieldsDeliverable(fields, vs, aligned, pos + |SequenceHead(fields, extensible, vs, ext)|)
      && GroupsDeliverable(groups, gs, aligned)
      && Highest(PresentGroups(gs)) <= (if ext then 63 else -1)
      && (ext && groups != [] ==> !aligned)
    case _ => false
  }

  predicate ItemsDeliverable(elem: Schema, items: seq<Value>, aligned: bool, pos: nat)
    decreases elem, 1, |items|
  {
    items == [] ||
    (&& Deliverable(elem, items[0], aligned, pos)
     && var head := Encode(elem, items[0], aligned, pos);
        head.Encoded? ==> ItemsDeliverable(elem, items[1..], aligned, pos + |head.bits|))
  }

  predicate FieldsDeliverable(fields: seq<Field>, vs: seq<Value>, aligned: bool, pos: nat)
    requires |fields| == |vs|
    decreases fields, 1, |fields|
  {
    if fields == [] then true
    else if fields[0].optional && vs[0].Absent? then FieldsDeliverable(fields[1..], vs[1..], aligned, pos)
    else
      assert fields[0].schema < fields[0];
      && Deliverable(fields[0].schema, vs[0], aligned, pos)
      && var head := Encode(fields[0].schema, vs[0], aligned, pos);
         head.Encoded? ==> FieldsDeliverable(fields[1..], vs[1..], aligned, pos + |head.bits|)
  }

  predicate GroupsDeliverable(groups: seq<Schema>, gs: seq<Value>, aligned: bool)
    requires |groups| == |gs|
    decreases groups, 1, |groups|
  {
    groups == [] ||
    ((gs[0].Absent? || (Deliverable(groups[0], gs[0], aligned, 0) && ShortContent(groups[0], gs[0], aligned)))
     && GroupsDeliverable(groups[1..], gs[1..], aligned))
  }

  /** Whether a message is delivered depends on its position only through alignment. */
  lemma {:induction false} DeliverablePhase(schema: Schema, v: Value, aligned: bool, a: nat, b: nat)
    requires InPhase(aligned, a, b)
    ensures Deliverable(schema, v, aligned, a) == Deliverable(schema, v, aligned, b)
    decreases schema, 0, 0
  {
    hide ItemsDeliverable, FieldsDeliverable, GroupsDeliverable, ShortContent, Encode, SequenceHead, EncodeEnum,
         EncodeBoundedLength, LeafDeliverable, LeafValid, SamePhase, PresentGroups, Highest;
    match (schema, v)
    case (Atom(leaf), Single(d)) =>
      if LeafValid(leaf) { LeafDeliverablePhase(leaf, d, aligned, a, b); }
    case (SequenceOf(lb, ub, elem), List(items)) =>
      BoundedLengthPhase(|items|, lb, ub, aligned, a, b);
      var head := EncodeBoundedLength(|items|, lb, ub, aligned, a);
      if head.Encoded? {
        InPhaseShift(aligned, a, b, |head.bits|);
        ItemsDeliverablePhase(elem, items, aligned, a + |head.bits|, b + |head.bits|);
      }
    case (Choice(alternatives), Chosen(i, w)) =>
      if i < |alternatives| {
        var head := EncodeEnum(i, |alternatives|, 0, false);
        if head.Encoded? {
          InPhaseShift(aligned, a, b, |head.bits|);
          DeliverablePhase(alternatives[i], w, aligned, a + |head.bits|, b + |head.bits|);
        }
      }
    case (Sequence(fields, extensible, groups), Record(vs, ext, gs)) =>
      if |vs| == |fields| {
        var k := |SequenceHead(fields, extensible, vs, ext)|;
        InPhaseShift(aligned, a, b, k);
        FieldsDeliverablePhase(fields, vs, aligned, a + k, b + k);
      }
    case _ =>
  }

  lemma {:induction false} ItemsDeliverablePhase(elem: Schema, items: seq<Value>, aligned: bool, a: nat, b: nat)
    requires InPhase(aligned, a, b)
    ensures ItemsDeliverable(elem, items, aligned, a) == ItemsDeliverable(elem, items, aligned, b)
    decreases elem, 1, |items|
  {
    hide Encode, InPhase, Deliverable;
    if items != [] {
      DeliverablePhase(elem, items[0], aligned, a, b);
      EncodePhase(elem, items[0], aligned, a, b);
      var head := Encode(elem, items[0], aligned, a);
      if head.Encoded? {
        InPhaseShift(aligned, a, b, |head.bits|);
        ItemsDeliverablePhase(elem, items[1..], aligned, a + |head.bits|, b + |head.bits|);
      }
    }
  }

  lemma {:induction false} FieldsDeliverablePhase(fields: seq<Field>, vs: seq<Value>, aligned: bool, a: nat, b: nat)
    requires |fields| == |vs| && InPhase(aligned, a, b)
    ensures FieldsDeliverable(fields, vs, aligned, a) == FieldsDeliverable(fields, vs, aligned, b)
    decreases fields, 1, |fields|
  {
    hide Encode, InPhase, Deliverable;
    if fields != [] {
      if fields[0].optional && vs[0].Absent? {
        FieldsDeliverablePhase(fields[1..], vs[1..], aligned, a, b);
      } else {
        assert fields[0].schema < fields[0];
        DeliverablePhase(fields[0].schema, vs[0], aligned, a, b);
        EncodePhase(fields[0].schema, vs[0], aligned, a, b);
        var head := Encode(fields[0].schema, vs[0], aligned, a);
        if head.Encoded? {
          InPhaseShift(aligned, a, b, |head.bits|);
          FieldsDeliverablePhase(fields[1..], vs[1..], aligned, a + |head.bits|, b + |head.bits|);
        }
      }
    }
  }
}
