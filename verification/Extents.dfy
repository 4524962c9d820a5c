/** What becomes of a message when it is written: which messages are written and in how
    many bits, and which are refused; and a class of messages, given by numbers alone, that
    are always written and read back. */
module Extents {
  import opened Bits
  import opened Per
  import opened Lengths
  import opened Integers
  import opened OpenFields
  import opened ExtGroups
  import opened BitStrings
  import opened Leaves
  import opened Messages
  import opened LeafExtents
  import opened Deliveries
  import opened MessageLaws

  /** The value has the shape of the schema, and writing it meets no assertion, overflow or
      shift out of range. */
  ghost predicate Supported(schema: Schema, v: Value, aligned: bool)
    decreases schema
  {
    match (schema, v)
    case (Atom(leaf), Single(d)) => LeafValid(leaf) && !LeafExtent(leaf, d, aligned, 0).Unsupported?
    case (SequenceOf(_, _, elem), List(items)) => forall i | 0 <= i < |items| :: Supported(elem, items[i], aligned)
    case (Choice(alternatives), Chosen(i, w)) =>
      i < |alternatives| <= Pow2(63) && Supported(alternatives[i], w, aligned)
    case (Open(content), _) => Supported(content, v, aligned)
    case (Sequence(fields, extensible, groups), Record(vs, ext, gs)) =>
      && |vs| == |fields| && |gs| == |groups| < TWO32
      && (!extensible ==> !ext && groups == [])
      && (forall i | 0 <= i < |fields| ::
            assert fields[i].schema < fields[i];
            (fields[i].optional && vs[i].Absent?) || Supported(fields[i].schema, vs[i], aligned))
      && (ext ==> forall i | 0 <= i < |groups| :: gs[i].Absent? || Supported(groups[i], gs[i], aligned))
    case _ => false
  }

  /** Numbers, enumerators and sizes of strings and lists are within their bounds, and those
      without a bound below the limit of the length determinant. */
  ghost predicate InBounds(schema: Schema, v: Value, aligned: bool)
    decreases schema
  {
    match (schema, v)
    case (Atom(leaf), Single(d)) => !LeafExtent(leaf, d, aligned, 0).Refuses?
    case (SequenceOf(lb, ub, elem), List(items)) =>
      && LengthInBounds(|items|, lb, ub, aligned)
      && forall i | 0 <= i < |items| :: InBounds(elem, items[i], aligned)
    case (Choice(alternatives), Chosen(i, w)) => i < |alternatives| ==> InBounds(alternatives[i], w, aligned)
    case (Open(content), _) => InBounds(content, v, aligned)
    case (Sequence(fields, _, groups), Record(vs, ext, gs)) =>
      |vs| == |fields| && |gs| == |groups| ==>
        && (forall i | 0 <= i < |fields| ::
              assert fields[i].schema < fields[i];
              (fields[i].optional && vs[i].Absent?) || InBounds(fields[i].schema, vs[i], aligned))
        && (ext ==> forall i | 0 <= i < |groups| :: gs[i].Absent? || InBounds(groups[i], gs[i], aligned))
    case _ => true
  }

  // Sizes.

  /** The bits of a message that is written at a position. */
  ghost function Size(schema: Schema, v: Value, aligned: bool, pos: nat): nat
    decreases schema, 0, 0
  {
    match (schema, v)
    case (Atom(leaf), Single(d)) => Taken(LeafExtent(leaf, d, aligned, pos))
    case (SequenceOf(lb, ub, elem), List(items)) =>
      var k := Taken(BoundedLengthExtent(|items|, lb, ub, aligned, pos));
      k + ItemsSize(elem, items, aligned, pos + k)
    case (Choice(alternatives), Chosen(i, w)) =>
      if i < |alternatives| then
        var k := CeilLog2(|alternatives|);
        k + Size(alternatives[i], w, aligned, pos + k)
      else 0
    case (Open(content), _) => FieldSize(Size(content, v, aligned, 0), aligned, pos)
    case (Sequence(fields, extensible, groups), Record(vs, ext, gs)) =>
      if |vs| == |fields| && |gs| == |groups| then
        var head := (if extensible then 1 else 0) + CountOptional(fields);
        var root := head + FieldsSize(fields, vs, aligned, pos + head);
        if !ext || groups == [] then root else root + FlagsSize(gs) + GroupsSize(groups, gs, aligned)
      else 0
    case _ => 0
  }

  function Taken(x: Extent): nat {
    if x.Takes? then x.bits else 0
  }

  ghost function ItemsSize(elem: Schema, items: seq<Value>, aligned: bool, pos: nat): nat
    decreases elem, 1, |items|
  {
    if items == [] then 0
    else
      var k := Size(elem, items[0], aligned, pos);
      k + ItemsSize(elem, items[1..], aligned, pos + k)
  }

  ghost function FieldsSize(fields: seq<Field>, vs: seq<Value>, aligned: bool, pos: nat): nat
    requires |fields| == |vs|
    decreases fields, 1, |fields|
  {
    if fields == [] then 0
    else if fields[0].optional && vs[0].Absent? then FieldsSize(fields[1..], vs[1..], aligned, pos)
    else
      assert fields[0].schema < fields[0];
      var k := Size(fields[0].schema, vs[0], aligned, pos);
      k + FieldsSize(fields[1..], vs[1..], aligned, pos + k)
  }

  /** Seven bits and a flag for each group up to the last present one, which has an index up
      to 63; or a single bit. */
  ghost function FlagsSize(gs: seq<Value>): nat {
    if (exists i :: 0 <= i < |gs| && !gs[i].Absent?) && (forall i | 64 <= i < |gs| :: gs[i].Absent?)
    then 8 + Highest(PresentGroups(gs)) else 1
  }

  /** Each present group is delimited without alignment. */
  ghost function GroupsSize(groups: seq<Schema>, gs: seq<Value>, aligned: bool): nat
    requires |groups| == |gs|
    decreases groups, 1, |groups|
  {
    if groups == [] then 0
    else
      (if gs[0].Absent? then 0 else FieldSize(Size(groups[0], gs[0], aligned, 0), false, 0))
      + GroupsSize(groups[1..], gs[1..], aligned)
  }

  /** A delimited field: its length in octets, unless that cannot be written, and whole
      octets. */
  function FieldSize(inner: nat, aligned: bool, pos: nat): nat {
    Taken(DeterminantExtent(CeilOctets(inner), aligned, pos)) + 8 * CeilOctets(inner)
  }

  // Messages are written exactly as these say.

  /** Outcomes of parts that are all supported. */
  predicate Written(e: Encoding, supported: bool, inBounds: bool, size: nat) {
    && (e.Encoded? <==> supported && inBounds)
    && (supported && !inBounds ==> e == Refused)
    && (e.Encoded? ==> |e.bits| == size)
  }

  lemma Joins(head: seq<bool>, rest: Encoding, s: bool, b: bool, size: nat)
    requires Written(rest, s, b, size)
    ensures Written(Then(head, rest), s, b, |head| + size)
  {
  }

  /** A message is written if and only if it is supported and in bounds; one that is
      supported and not in bounds is refused; and one that is written takes the bits that its
      size says. */
  lemma {:induction false} WritesExactly(schema: Schema, v: Value, aligned: bool, pos: nat)
    ensures Written(Encode(schema, v, aligned, pos), Supported(schema, v, aligned), InBounds(schema, v, aligned),
                    Size(schema, v, aligned, pos))
    decreases schema, 1, 0
  {
    hide EncodeSequence, EncodeItems, EncodeBoundedLength, BoundedLengthExtent, LeafExtent, EncodeLeaf, LengthInBounds,
         ItemsSize, FieldsSize, FlagsSize, GroupsSize, EncodeEnum, CeilLog2, Pow2, OpenFieldBits, FieldSize;
    match (schema, v)
    case (Atom(leaf), Single(d)) =>
      if LeafValid(leaf) {
        LeafExact(leaf, d, aligned, pos);
        LeafKind(leaf, d, aligned, pos);
      }
    case (SequenceOf(lb, ub, elem), List(items)) =>
      BoundedLengthOutcome(|items|, lb, ub, aligned, pos);
      BoundedLengthExact(|items|, lb, ub, aligned, pos);
      var head := EncodeBoundedLength(|items|, lb, ub, aligned, pos);
      if head.Encoded? {
        ItemsWrite(elem, items, aligned, pos + |head.bits|);
      }
    case (Choice(alternatives), Chosen(i, w)) =>
      if i < |alternatives| {
        EnumExact(i, |alternatives|, 0, false);
        var head := EncodeEnum(i, |alternatives|, 0, false);
        if head.Encoded? { WritesExactly(alternatives[i], w, aligned, pos + |head.bits|); }
      }
    case (Open(content), _) =>
      WritesExactly(content, v, aligned, 0);
      var inner := Encode(content, v, aligned, 0);
      if inner.Encoded? { FieldWrites(inner.bits, aligned, pos); }
    case (Sequence(fields, extensible, groups), Record(vs, ext, gs)) =>
      SequenceWrites(schema, vs, ext, gs, aligned, pos);
    case _ =>
  }

  lemma FieldWrites(inner: seq<bool>, aligned: bool, pos: nat)
    ensures |OpenFieldBits(inner, aligned, pos)| == FieldSize(|inner|, aligned, pos)
  {
    DeterminantExact(CeilOctets(|inner|), aligned, pos);
  }

  ghost predicate ItemsSupported(elem: Schema, items: seq<Value>, aligned: bool) {
    forall i | 0 <= i < |items| :: Supported(elem, items[i], aligned)
  }

  ghost predicate ItemsInBounds(elem: Schema, items: seq<Value>, aligned: bool) {
    forall i | 0 <= i < |items| :: InBounds(elem, items[i], aligned)
  }

  lemma {:induction false} ItemsWrite(elem: Schema, items: seq<Value>, aligned: bool, pos: nat)
    ensures Written(EncodeItems(elem, items, aligned, pos), ItemsSupported(elem, items, aligned),
                    ItemsInBounds(elem, items, aligned), ItemsSize(elem, items, aligned, pos))
    decreases elem, 2, |items|
  {
    hide Encode, Supported, InBounds, Size;
    if items != [] {
      WritesExactly(elem, items[0], aligned, pos);
      var head := Encode(elem, items[0], aligned, pos);
      if head.Encoded? { ItemsWrite(elem, items[1..], aligned, pos + |head.bits|); }
      assert ItemsSupported(elem, items, aligned)
        <==> Supported(elem, items[0], aligned) && ItemsSupported(elem, items[1..], aligned);
      assert ItemsInBounds(elem, items, aligned)
        <==> InBounds(elem, items[0], aligned) && ItemsInBounds(elem, items[1..], aligned);
    }
  }

  ghost predicate FieldsSupported(fields: seq<Field>, vs: seq<Value>, aligned: bool)
    requires |fields| == |vs|
  {
    forall i | 0 <= i < |fields| ::
      (fields[i].optional && vs[i].Absent?) || Supported(fields[i].schema, vs[i], aligned)
  }

  ghost predicate FieldsInBounds(fields: seq<Field>, vs: seq<Value>, aligned: bool)
    requires |fields| == |vs|
  {
    forall i | 0 <= i < |fields| ::
      (fields[i].optional && vs[i].Absent?) || InBounds(fields[i].schema, vs[i], aligned)
  }

  lemma {:induction false} FieldsWrite(fields: seq<Field>, vs: seq<Value>, aligned: bool, pos: nat)
    requires |fields| == |vs|
    ensures Written(EncodeFields(fields, vs, aligned, pos), FieldsSupported(fields, vs, aligned),
                    FieldsInBounds(fields, vs, aligned), FieldsSize(fields, vs, aligned, pos))
    decreases fields, 2, |fields|
  {
    hide Encode, Supported, InBounds, Size;
    if fields != [] {
      FieldsOf(fields, vs, aligned);
      if fields[0].optional && vs[0].Absent? {
        FieldsWrite(fields[1..], vs[1..], aligned, pos);
      } else {
        assert fields[0].schema < fields[0];
        WritesExactly(fields[0].schema, vs[0], aligned, pos);
        var head := Encode(fields[0].schema, vs[0], aligned, pos);
        if head.Encoded? { FieldsWrite(fields[1..], vs[1..], aligned, pos + |head.bits|); }
      }
    }
  }

  lemma FieldsOf(fields: seq<Field>, vs: seq<Value>, aligned: bool)
    requires |fields| == |vs| && fields != []
    ensures var skipped := fields[0].optional && vs[0].Absent?;
            && (FieldsSupported(fields, vs, aligned)
                <==> (skipped || Supported(fields[0].schema, vs[0], aligned))
                     && FieldsSupported(fields[1..], vs[1..], aligned))
            && (FieldsInBounds(fields, vs, aligned)
                <==> (skipped || InBounds(fields[0].schema, vs[0], aligned))
                     && FieldsInBounds(fields[1..], vs[1..], aligned))
  {
    hide Supported, InBounds;
    assert forall i | 1 <= i < |fields| :: fields[1..][i - 1] == fields[i] && vs[1..][i - 1] == vs[i];
  }

  ghost predicate GroupsSupported(groups: seq<Schema>, gs: seq<Value>, aligned: bool)
    requires |groups| == |gs|
  {
    forall i | 0 <= i < |groups| :: gs[i].Absent? || Supported(groups[i], gs[i], aligned)
  }

  ghost predicate GroupsInBounds(groups: seq<Schema>, gs: seq<Value>, aligned: bool)
    requires |groups| == |gs|
  {
    forall i | 0 <= i < |groups| :: gs[i].Absent? || InBounds(groups[i], gs[i], aligned)
  }

  lemma {:induction false} ContentsWrite(groups: seq<Schema>, gs: seq<Value>, aligned: bool)
    requires |groups| == |gs|
    ensures var c, s, b := EncodeContents(groups, gs, aligned), GroupsSupported(groups, gs, aligned),
                           GroupsInBounds(groups, gs, aligned);
            (c.Contents? <==> s && b) && (s && !b ==> c == NoContents(Refused))
    decreases groups, 2, |groups|
  {
    hide Encode, Supported, InBounds, Size;
    if groups != [] {
      GroupsOf(groups, gs, aligned);
      if !gs[0].Absent? { WritesExactly(groups[0], gs[0], aligned, 0); }
      if gs[0].Absent? || Encode(groups[0], gs[0], aligned, 0).Encoded? {
        ContentsWrite(groups[1..], gs[1..], aligned);
      }
    }
  }

  lemma GroupsOf(groups: seq<Schema>, gs: seq<Value>, aligned: bool)
    requires |groups| == |gs| && groups != []
    ensures GroupsSupported(groups, gs, aligned)
       <==> (gs[0].Absent? || Supported(groups[0], gs[0], aligned)) && GroupsSupported(groups[1..], gs[1..], aligned)
    ensures GroupsInBounds(groups, gs, aligned)
       <==> (gs[0].Absent? || InBounds(groups[0], gs[0], aligned)) && GroupsInBounds(groups[1..], gs[1..], aligned)
  {
    hide Supported, InBounds;
    assert forall i | 1 <= i < |groups| :: groups[1..][i - 1] == groups[i] && gs[1..][i - 1] == gs[i];
  }

  lemma {:induction false} GroupsWrite(groups: seq<Schema>, gs: seq<Value>, inners: seq<seq<bool>>, aligned: bool,
                                       i: nat, pos: nat)
    requires i <= |groups| == |gs| && EncodeContents(groups, gs, aligned) == Contents(inners)
    ensures |FieldsBits(PresentGroups(gs), inners, i, |gs|, pos)| == GroupsSize(groups[i..], gs[i..], aligned)
    decreases groups, 3, |groups| - i
  {
    hide Encode, EncodeContents, Size, OpenFieldBits, FieldSize, Supported, InBounds;
    if i < |groups| {
      assert groups[i..][1..] == groups[i + 1..] && gs[i..][1..] == gs[i + 1..];
      var k := 0;
      if !gs[i].Absent? {
        ContentsAt(groups, gs, aligned, i);
        WritesExactly(groups[i], gs[i], aligned, 0);
        FieldWrites(inners[i], false, pos);
        FieldAnywhere(|inners[i]|, pos);
        k := |OpenFieldBits(inners[i], false, pos)|;
      }
      GroupsWrite(groups, gs, inners, aligned, i + 1, pos + k);
    }
  }

  lemma FieldAnywhere(inner: nat, pos: nat)
    ensures FieldSize(inner, false, pos) == FieldSize(inner, false, 0)
  {
  }

  lemma FlagsWrite(gs: seq<Value>)
    requires |gs| < TWO32
    ensures |FlagsWritten(PresentGroups(gs))| == FlagsSize(gs)
  {
    hide FlagsWritten;
    var present := PresentGroups(gs);
    FlagsLength(present);
    var h := Highest(present);
    hide Highest;
    if h < 0 {
      forall i | 0 <= i < |gs| ensures gs[i].Absent? { assert !present[i]; }
    } else {
      assert present[h] && !gs[h].Absent?;
      if h <= 63 {
        forall i | 64 <= i < |gs| ensures gs[i].Absent? { assert !present[i]; }
      }
    }
  }

  lemma FlagsLength(groups: seq<bool>)
    requires |groups| < TWO32
    ensures var h := Highest(groups); |FlagsWritten(groups)| == if 0 <= h <= 63 then 8 + h else 1
  {
    hide Highest, NatBits;
    var h := Highest(groups);
    if h < 0 { assert h % TWO32 == TWO32 - 1; } else { assert h % TWO32 == h; }
  }

  lemma {:induction false} SequenceWrites(schema: Schema, vs: seq<Value>, ext: bool, gs: seq<Value>, aligned: bool,
                                          pos: nat)
    requires schema.Sequence?
    ensures Written(EncodeSequence(schema, vs, ext, gs, aligned, pos),
                    Supported(schema, Record(vs, ext, gs), aligned), InBounds(schema, Record(vs, ext, gs), aligned),
                    Size(schema, Record(vs, ext, gs), aligned, pos))
    decreases schema, 0, 1
  {
    hide EncodeSequence, Supported, InBounds, Size, Written;
    var v := Record(vs, ext, gs);
    if Shaped(schema, vs, ext, gs) {
      PartsWrite(schema, vs, ext, gs, aligned, pos, EncodeSequence(schema, vs, ext, gs, aligned, pos),
                 Supported(schema, v, aligned), InBounds(schema, v, aligned), Size(schema, v, aligned, pos))
      by {
        SequenceOfParts(schema, vs, ext, gs, aligned);
        SequenceForm(schema, vs, ext, gs, aligned, pos);
      }
    } else {
      NotWritten(schema, vs, ext, gs, aligned, pos);
      UndefinedWritten(InBounds(schema, v, aligned), Size(schema, v, aligned, pos));
    }
  }

  /** The encoding of a sequence that has the shape of its schema, from its parts. */
  ghost predicate OfParts(schema: Schema, vs: seq<Value>, ext: bool, gs: seq<Value>, aligned: bool, pos: nat,
                          all: Encoding, size: nat)
    requires schema.Sequence? && Shaped(schema, vs, ext, gs)
  {
    var Sequence(fields, extensible, groups) := schema;
    var head := SequenceHead(fields, extensible, vs, ext);
    var body := EncodeFields(fields, vs, aligned, pos + |head|);
    var p := pos + |head| + if body.Encoded? then |body.bits| else 0;
    var root := |head| + FieldsSize(fields, vs, aligned, pos + |head|);
    var none := !ext || groups == [];
    && all == (if !body.Encoded? then body
               else Then(head + body.bits,
                         if none then Encoded([])
                         else EncodeExtensions(PresentGroups(gs), EncodeContents(groups, gs, aligned), p)))
    && size == root + if none then 0 else FlagsSize(gs) + GroupsSize(groups, gs, aligned)
  }

  lemma {:induction false} PartsWrite(schema: Schema, vs: seq<Value>, ext: bool, gs: seq<Value>, aligned: bool,
                                      pos: nat, all: Encoding, supported: bool, inBounds: bool, size: nat)
    requires schema.Sequence? && Shaped(schema, vs, ext, gs)
    requires OfParts(schema, vs, ext, gs, aligned, pos, all, size)
    requires supported
        <==> FieldsSupported(schema.fields, vs, aligned) && (ext ==> GroupsSupported(schema.groups, gs, aligned))
    requires inBounds
        <==> FieldsInBounds(schema.fields, vs, aligned) && (ext ==> GroupsInBounds(schema.groups, gs, aligned))
    ensures Written(all, supported, inBounds, size)
    decreases schema, 0, 0
  {
    hide EncodeFields, EncodeContents, FieldsSize, FlagsSize, GroupsSize, SequenceHead, FieldsSupported, FieldsInBounds,
         GroupsSupported, GroupsInBounds, PresentGroups, EncodeExtensions, Written, Then;
    var Sequence(fields, extensible, groups) := schema;
    var head := SequenceHead(fields, extensible, vs, ext);
    var body := EncodeFields(fields, vs, aligned, pos + |head|);
    FieldsWrite(fields, vs, aligned, pos + |head|);
    var s, b, k := FieldsSupported(fields, vs, aligned), FieldsInBounds(fields, vs, aligned),
                   FieldsSize(fields, vs, aligned, pos + |head|);
    if !ext || groups == [] {
      EmptyWritten();
      NoGroups(groups, gs, aligned);
      Followed(all, supported, inBounds, size, head, body, s, b, k, Encoded([]), true, true, 0);
    } else {
      var p := pos + |head| + if body.Encoded? then |body.bits| else 0;
      ExtensionWrites(groups, gs, aligned, p);
      Followed(all, supported, inBounds, size, head, body, s, b, k,
               EncodeExtensions(PresentGroups(gs), EncodeContents(groups, gs, aligned), p),
               GroupsSupported(groups, gs, aligned), GroupsInBounds(groups, gs, aligned),
               FlagsSize(gs) + GroupsSize(groups, gs, aligned));
    }
  }

  predicate Shaped(schema: Schema, vs: seq<Value>, ext: bool, gs: seq<Value>)
    requires schema.Sequence?
  {
    && |vs| == |schema.fields| && |gs| == |schema.groups| < TWO32
    && (schema.extensible || (!ext && schema.groups == []))
  }

  lemma EmptyWritten()
    ensures Written(Encoded([]), true, true, 0)
  {
  }

  lemma UndefinedWritten(b: bool, size: nat)
    ensures Written(EncodeUndefined, false, b, size)
  {
  }

  lemma SequenceForm(schema: Schema, vs: seq<Value>, ext: bool, gs: seq<Value>, aligned: bool, pos: nat)
    requires schema.Sequence? && Shaped(schema, vs, ext, gs)
    ensures OfParts(schema, vs, ext, gs, aligned, pos, EncodeSequence(schema, vs, ext, gs, aligned, pos),
                    Size(schema, Record(vs, ext, gs), aligned, pos))
  {
    hide EncodeFields, EncodeContents, FieldsSize, FlagsSize, GroupsSize, SequenceHead, EncodeExtensions, CountOptional;
    HeadSize(schema.fields, schema.extensible, vs, ext);
    var head := SequenceHead(schema.fields, schema.extensible, vs, ext);
    var body := EncodeFields(schema.fields, vs, aligned, pos + |head|);
    if body.Encoded? { assert (head + body.bits) + [] == head + body.bits; }
  }

  lemma NotWritten(schema: Schema, vs: seq<Value>, ext: bool, gs: seq<Value>, aligned: bool, pos: nat)
    requires schema.Sequence? && !Shaped(schema, vs, ext, gs)
    ensures EncodeSequence(schema, vs, ext, gs, aligned, pos) == EncodeUndefined
    ensures !Supported(schema, Record(vs, ext, gs), aligned)
  {
  }

  lemma NoGroups(groups: seq<Schema>, gs: seq<Value>, aligned: bool)
    requires |groups| == |gs|
    ensures groups == [] ==> GroupsSupported(groups, gs, aligned) && GroupsInBounds(groups, gs, aligned)
  {
  }

  /** Two parts, the second written only if the first is. */
  lemma Followed(all: Encoding, supported: bool, inBounds: bool, total: nat, head: seq<bool>, body: Encoding, s: bool,
                 b: bool, size: nat, rest: Encoding, s': bool, b': bool, size': nat)
    requires all == if body.Encoded? then Then(head + body.bits, rest) else body
    requires (supported <==> s && s') && (inBounds <==> b && b') && total == |head| + size + size'
    requires Written(body, s, b, size) && (body.Encoded? ==> Written(rest, s', b', size'))
    ensures Written(all, supported, inBounds, total)
  {
  }

  lemma {:induction false} ExtensionWrites(groups: seq<Schema>, gs: seq<Value>, aligned: bool, pos: nat)
    requires |groups| == |gs| < TWO32
    ensures Written(EncodeExtensions(PresentGroups(gs), EncodeContents(groups, gs, aligned), pos),
                    GroupsSupported(groups, gs, aligned), GroupsInBounds(groups, gs, aligned),
                    FlagsSize(gs) + GroupsSize(groups, gs, aligned))
    decreases groups, 4, 0
  {
    hide EncodeContents, FieldsBits, GroupsSize, FlagsSize, FlagsWritten, GroupsSupported, GroupsInBounds,
         PresentGroups;
    ContentsWrite(groups, gs, aligned);
    FlagsWrite(gs);
    var c := EncodeContents(groups, gs, aligned);
    if c.Contents? {
      assert groups[0..] == groups && gs[0..] == gs;
      GroupsWrite(groups, gs, c.inners, aligned, 0, pos + |FlagsWritten(PresentGroups(gs))|);
    }
  }

  lemma SequenceOfParts(schema: Schema, vs: seq<Value>, ext: bool, gs: seq<Value>, aligned: bool)
    requires schema.Sequence? && |vs| == |schema.fields| && |gs| == |schema.groups|
    ensures Supported(schema, Record(vs, ext, gs), aligned)
       <==> && |schema.groups| < TWO32 && (!schema.extensible ==> !ext && schema.groups == [])
            && FieldsSupported(schema.fields, vs, aligned) && (ext ==> GroupsSupported(schema.groups, gs, aligned))
    ensures InBounds(schema, Record(vs, ext, gs), aligned)
       <==> FieldsInBounds(schema.fields, vs, aligned) && (ext ==> GroupsInBounds(schema.groups, gs, aligned))
  {
  }

  lemma {:induction false} HeadSize(fields: seq<Field>, extensible: bool, vs: seq<Value>, ext: bool)
    requires |fields| == |vs|
    ensures |SequenceHead(fields, extensible, vs, ext)| == (if extensible then 1 else 0) + CountOptional(fields)
  {
    SamePresence(fields, fields, vs);
  }
}
