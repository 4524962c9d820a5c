/** What packing and unpacking messages promise: every deliverable message is decoded from
    its encoding, and what a reader that knows fewer extension groups makes of it. */
module MessageLaws {
  import opened Bits
  import opened Per
  import opened Lengths
  import opened Integers
  import opened OpenFields
  import opened ExtGroups
  import opened Leaves
  import opened Messages
  import opened Deliveries

  /** The encoding of a message is found at a position of a stream. */
  ghost predicate EncodedAt(schema: Schema, v: Value, aligned: bool, s: seq<bool>, pos: nat) {
    Encode(schema, v, aligned, pos).Encoded? && At(s, pos, Encode(schema, v, aligned, pos).bits)
  }

  // Readers built from an older version of a message.

  /** The older version lacks extension groups, at the end of any sequence anywhere in the
      message. */
  ghost predicate Older(known: Schema, sent: Schema)
    decreases sent, 0
  {
    known == sent ||
    match (known, sent)
    case (SequenceOf(a, b, e), SequenceOf(lb, ub, elem)) => a == lb && b == ub && Older(e, elem)
    case (Choice(xs), Choice(ys)) => |xs| == |ys| && forall i | 0 <= i < |ys| :: Older(xs[i], ys[i])
    case (Open(a), Open(b)) => Older(a, b)
    case (Sequence(fs, x, gs), Sequence(fields, extensible, groups)) =>
      x == extensible && FieldsOlder(fs, fields) && GroupsOlder(gs, groups)
    case _ => false
  }

  ghost predicate FieldsOlder(fs: seq<Field>, fields: seq<Field>)
    decreases fields, 1
  {
    && |fs| == |fields|
    && forall i | 0 <= i < |fields| ::
         assert fields[i].schema < fields[i];
         fs[i].optional == fields[i].optional && Older(fs[i].schema, fields[i].schema)
  }

  ghost predicate GroupsOlder(gs: seq<Schema>, groups: seq<Schema>)
    decreases groups, 1
  {
    |gs| <= |groups| && forall i | 0 <= i < |gs| :: Older(gs[i], groups[i])
  }

  /** What the older version has of a value: all but the groups it lacks. */
  ghost function Trim(known: Schema, sent: Schema, v: Value): Value
    decreases sent, 0, 0
  {
    if known == sent then v
    else
      match (known, sent, v)
      case (SequenceOf(_, _, e), SequenceOf(_, _, elem), List(items)) => List(TrimItems(e, elem, items))
      case (Choice(xs), Choice(ys), Chosen(i, w)) =>
        if i < |xs| && i < |ys| then Chosen(i, Trim(xs[i], ys[i], w)) else v
      case (Open(a), Open(b), _) => Trim(a, b, v)
      case (Sequence(fs, _, gs), Sequence(fields, _, groups), Record(vs, ext, ws)) =>
        if |fs| == |fields| == |vs| && |gs| <= |groups| == |ws| then
          Record(TrimFields(fs, fields, vs), ext, TrimGroups(gs, groups, ws, 0))
        else v
      case _ => v
  }

  ghost function TrimItems(known: Schema, sent: Schema, items: seq<Value>): seq<Value>
    decreases sent, 1, |items|
  {
    if items == [] then [] else [Trim(known, sent, items[0])] + TrimItems(known, sent, items[1..])
  }

  ghost function TrimFields(fs: seq<Field>, fields: seq<Field>, vs: seq<Value>): seq<Value>
    requires |fs| == |fields| == |vs|
    decreases fields, 1, |fields|
  {
    if fields == [] then []
    else
      assert fields[0].schema < fields[0];
      [if vs[0].Absent? then Absent else Trim(fs[0].schema, fields[0].schema, vs[0])]
      + TrimFields(fs[1..], fields[1..], vs[1..])
  }

  /** The groups of the older version from index i on. */
  ghost function TrimGroups(gs: seq<Schema>, groups: seq<Schema>, ws: seq<Value>, i: nat): seq<Value>
    requires |gs| <= |groups| == |ws|
    decreases groups, 1, |gs| - i
  {
    if i >= |gs| then []
    else [if ws[i].Absent? then Absent else Trim(gs[i], groups[i], ws[i])] + TrimGroups(gs, groups, ws, i + 1)
  }

  /** What awaits the older reader in a message: it keeps in step; or it comes to an unknown
      group of more than four octets, on which the bit cursor trips; or it meets an
      extension of a sequence of which it knows no group at all, and does not see it. */
  datatype Outlook = InStep | Trips | Blind {
    function And(other: Outlook): Outlook {
      if Blind? || other.Blind? then Blind else if Trips? || other.Trips? then Trips else InStep
    }
  }

  ghost function Ahead(known: Schema, sent: Schema, v: Value): Outlook
    decreases sent, 0, 0
  {
    if known == sent then InStep
    else
      match (known, sent, v)
      case (SequenceOf(_, _, e), SequenceOf(_, _, elem), List(items)) => ItemsAhead(e, elem, items)
      case (Choice(xs), Choice(ys), Chosen(i, w)) =>
        if i < |xs| && i < |ys| then Ahead(xs[i], ys[i], w) else InStep
      case (Open(a), Open(b), _) => Ahead(a, b, v)
      case (Sequence(fs, _, gs), Sequence(fields, _, groups), Record(vs, ext, ws)) =>
        if |fs| == |fields| == |vs| && |gs| <= |groups| == |ws| then
          FieldsAhead(fs, fields, vs).And(if ext then ExtensionAhead(gs, groups, ws) else InStep)
        else InStep
      case _ => InStep
  }

  ghost function ItemsAhead(known: Schema, sent: Schema, items: seq<Value>): Outlook
    decreases sent, 1, |items|
  {
    if items == [] then InStep else Ahead(known, sent, items[0]).And(ItemsAhead(known, sent, items[1..]))
  }

  ghost function FieldsAhead(fs: seq<Field>, fields: seq<Field>, vs: seq<Value>): Outlook
    requires |fs| == |fields| == |vs|
    decreases fields, 1, |fields|
  {
    if fields == [] then InStep
    else
      assert fields[0].schema < fields[0];
      (if vs[0].Absent? then InStep else Ahead(fs[0].schema, fields[0].schema, vs[0]))
      .And(FieldsAhead(fs[1..], fields[1..], vs[1..]))
  }

  ghost function ExtensionAhead(gs: seq<Schema>, groups: seq<Schema>, ws: seq<Value>): Outlook
    requires |gs| <= |groups| == |ws|
    decreases groups, 2, 0
  {
    if groups == [] then InStep
    else if gs == [] then Blind
    else GroupsAhead(gs, groups, ws, 0).And(if UnknownShort(groups, ws, |gs|) then InStep else Trips)
  }

  ghost function GroupsAhead(gs: seq<Schema>, groups: seq<Schema>, ws: seq<Value>, i: nat): Outlook
    requires |gs| <= |groups| == |ws|
    decreases groups, 1, |gs| - i
  {
    if i >= |gs| then InStep
    else
      (if ws[i].Absent? then InStep else Ahead(gs[i], groups[i], ws[i])).And(GroupsAhead(gs, groups, ws, i + 1))
  }

  /** Groups the reader does not know have fields of at most four octets. */
  predicate UnknownShort(groups: seq<Schema>, gs: seq<Value>, k: nat)
    requires |groups| == |gs|
  {
    forall i | k <= i < |groups| && !gs[i].Absent? ::
      var inner := Encode(groups[i], gs[i], false, 0); inner.Encoded? ==> CeilOctets(|inner.bits|) <= 4
  }

  // A reader of the same version lacks nothing.

  lemma {:induction false} SameItems(schema: Schema, items: seq<Value>)
    ensures TrimItems(schema, schema, items) == items && ItemsAhead(schema, schema, items) == InStep
  {
    if items != [] { SameItems(schema, items[1..]); }
  }

  lemma {:induction false} SameFields(fields: seq<Field>, vs: seq<Value>)
    requires |fields| == |vs|
    ensures TrimFields(fields, fields, vs) == vs && FieldsAhead(fields, fields, vs) == InStep
  {
    if fields != [] { SameFields(fields[1..], vs[1..]); }
  }

  lemma {:induction false} SameGroups(groups: seq<Schema>, ws: seq<Value>, k: nat, i: nat)
    requires i <= k <= |groups| == |ws|
    ensures TrimGroups(groups[..k], groups, ws, i) == ws[i..k] && GroupsAhead(groups[..k], groups, ws, i) == InStep
    decreases k - i
  {
    if i < k {
      SameGroups(groups, ws, k, i + 1);
      assert ws[i..k] == [ws[i]] + ws[i + 1..k];
    }
  }

  /** What a sequence comes to, also for a reader of the same version. */
  lemma SequenceParts(known: Schema, sent: Schema, vs: seq<Value>, ext: bool, ws: seq<Value>)
    requires known.Sequence? && sent.Sequence? && Older(known, sent)
    requires |vs| == |sent.fields| && |ws| == |sent.groups|
    ensures FieldsOlder(known.fields, sent.fields) && GroupsOlder(known.groups, sent.groups)
    ensures known.extensible == sent.extensible
    ensures Trim(known, sent, Record(vs, ext, ws))
         == Record(TrimFields(known.fields, sent.fields, vs), ext, TrimGroups(known.groups, sent.groups, ws, 0))
    ensures Ahead(known, sent, Record(vs, ext, ws))
         == FieldsAhead(known.fields, sent.fields, vs).And(
              if ext then ExtensionAhead(known.groups, sent.groups, ws) else InStep)
  {
    hide UnknownShort, TrimFields, TrimGroups, FieldsAhead, GroupsAhead;
    if known == sent {
      SameFields(sent.fields, vs);
      SameGroups(sent.groups, ws, |ws|, 0);
      assert sent.groups[..|ws|] == sent.groups && ws[0..|ws|] == ws;
      assert UnknownShort(sent.groups, ws, |ws|) by { NoneUnknown(sent.groups, ws); }
    }
  }

  lemma NoneUnknown(groups: seq<Schema>, ws: seq<Value>)
    requires |groups| == |ws|
    ensures UnknownShort(groups, ws, |ws|)
  {
  }

  /** What comes of reading: all there is, or nothing defined. */
  function Seen<T>(ahead: Outlook, v: T, end: nat): Decoding<T> {
    if ahead == InStep then Decoded(v, end) else DecodeUndefined
  }

  /** A reader built from an older version, in which groups may be missing from any sequence
      at any depth, decodes what it knows of every deliverable message and ends exactly
      behind it, if no group that it has to skip takes more than four octets; otherwise the
      bit cursor trips. This holds of all messages without an extension that it is blind to. */
  lemma {:induction false} OlderReads(known: Schema, sent: Schema, v: Value, aligned: bool, s: seq<bool>, pos: nat)
    requires Older(known, sent) && !Ahead(known, sent, v).Blind?
    requires Deliverable(sent, v, aligned, pos) && EncodedAt(sent, v, aligned, s, pos)
    ensures Decode(known, s, pos, aligned)
         == Seen(Ahead(known, sent, v), Trim(known, sent, v), pos + |Encode(sent, v, aligned, pos).bits|)
    decreases sent, 1, 0
  {
    hide EncodeSequence, DecodeSequence, EncodeItems, DecodeItems, ItemsDeliverable, FieldsDeliverable,
         GroupsDeliverable, ShortContent, At, EncodeBoundedLength, DecodeBoundedLength, EncodeEnum, DecodeEnum,
         TrimItems, TrimFields, TrimGroups, ItemsAhead, FieldsAhead, ExtensionAhead, FieldsOlder, GroupsOlder;
    match (sent, v)
    case (Atom(leaf), Single(d)) =>
      LeafRoundTrip(leaf, d, aligned, s, pos);
    case (SequenceOf(lb, ub, elem), List(items)) =>
      ListReads(known, sent, items, aligned, s, pos);
    case (Choice(alternatives), Chosen(i, w)) =>
      ChoiceReads(known, sent, i, w, aligned, s, pos);
    case (Open(content), _) =>
      OpenReads(known.content, content, v, aligned, s, pos);
    case (Sequence(fields, extensible, groups), Record(vs, ext, gs)) =>
      SequenceReads(known, sent, vs, ext, gs, aligned, s, pos);
  }

  /** Every deliverable message is decoded from its encoding, and the cursor ends exactly
      behind it, in both variants. */
  lemma RoundTrip(schema: Schema, v: Value, aligned: bool, s: seq<bool>, pos: nat)
    requires Deliverable(schema, v, aligned, pos) && EncodedAt(schema, v, aligned, s, pos)
    ensures Decode(schema, s, pos, aligned) == Decoded(v, pos + |Encode(schema, v, aligned, pos).bits|)
  {
    hide Encode, Decode, Deliverable, EncodedAt;
    OlderReads(schema, schema, v, aligned, s, pos);
  }

  lemma {:induction false} ListReads(known: Schema, sent: Schema, items: seq<Value>, aligned: bool, s: seq<bool>,
                                     pos: nat)
    requires sent.SequenceOf? && Older(known, sent) && !Ahead(known, sent, List(items)).Blind?
    requires Deliverable(sent, List(items), aligned, pos) && EncodedAt(sent, List(items), aligned, s, pos)
    ensures Decode(known, s, pos, aligned)
         == Seen(Ahead(known, sent, List(items)), Trim(known, sent, List(items)),
                 pos + |Encode(sent, List(items), aligned, pos).bits|)
    decreases sent, 0, 0
  {
    hide EncodeItems, DecodeItems, At, ItemsDeliverable, EncodeBoundedLength, DecodeBoundedLength, ItemsAhead,
         TrimItems;
    var SequenceOf(lb, ub, elem) := sent;
    var head := EncodeBoundedLength(|items|, lb, ub, aligned, pos).bits;
    var p := pos + |head|;
    AtSplit(s, pos, head, EncodeItems(elem, items, aligned, p).bits);
    BoundedLengthRoundTrip(s, pos, |items|, lb, ub, aligned);
    SameItems(elem, items);
    ItemsRead(known.elem, elem, items, aligned, s, p);
  }

  lemma {:induction false} ItemsRead(known: Schema, sent: Schema, items: seq<Value>, aligned: bool, s: seq<bool>,
                                     pos: nat)
    requires Older(known, sent) && !ItemsAhead(known, sent, items).Blind?
    requires ItemsDeliverable(sent, items, aligned, pos)
    requires var e := EncodeItems(sent, items, aligned, pos); e.Encoded? && At(s, pos, e.bits)
    ensures DecodeItems(known, s, pos, |items|, aligned)
         == Seen(ItemsAhead(known, sent, items), TrimItems(known, sent, items),
                 pos + |EncodeItems(sent, items, aligned, pos).bits|)
    decreases sent, 2, |items|
  {
    hide Encode, Decode, EncodeItems, DecodeItems, Deliverable, ItemsDeliverable, Older, Ahead, Trim, At;
    ItemsStep(known, s, pos, |items|, aligned);
    ItemsWritten(sent, items, aligned, pos);
    if items != [] {
      var head := Encode(sent, items[0], aligned, pos).bits;
      var p := pos + |head|;
      var a, b := Ahead(known, sent, items[0]), ItemsAhead(known, sent, items[1..]);
      assert ItemsAhead(known, sent, items) == a.And(b);
      assert TrimItems(known, sent, items) == [Trim(known, sent, items[0])] + TrimItems(known, sent, items[1..]);
      SeenNext(a, b, Trim(known, sent, items[0]), TrimItems(known, sent, items[1..]),
               p + |EncodeItems(sent, items[1..], aligned, p).bits|);
      hide ItemsAhead, TrimItems, Prepended;
      AtSplit(s, pos, head, EncodeItems(sent, items[1..], aligned, p).bits);
      OlderReads(known, sent, items[0], aligned, s, pos);
      if a == InStep { ItemsRead(known, sent, items[1..], aligned, s, p); }
    }
  }

  function Prepended(v: Value, rest: Decoding<seq<Value>>): Decoding<seq<Value>> {
    match rest
    case Decoded(vs, q) => Decoded([v] + vs, q)
    case _ => rest
  }

  lemma SeenNext(a: Outlook, b: Outlook, v: Value, vs: seq<Value>, end: nat)
    requires !a.And(b).Blind?
    ensures Seen(a.And(b), [v] + vs, end) == if a == InStep then Prepended(v, Seen(b, vs, end)) else DecodeUndefined
  {
  }

  lemma {:induction false} ItemsStep(schema: Schema, s: seq<bool>, pos: nat, n: nat, aligned: bool)
    ensures n == 0 ==> DecodeItems(schema, s, pos, n, aligned) == Decoded([], pos)
    ensures n > 0 ==>
              var d, all := Decode(schema, s, pos, aligned), DecodeItems(schema, s, pos, n, aligned);
              && (d == DecodeUndefined ==> all == DecodeUndefined)
              && (d.Decoded? ==> all == Prepended(d.value, DecodeItems(schema, s, d.pos, n - 1, aligned)))
  {
    hide Decode;
  }

  lemma {:induction false} ItemsWritten(schema: Schema, items: seq<Value>, aligned: bool, pos: nat)
    requires ItemsDeliverable(schema, items, aligned, pos) && EncodeItems(schema, items, aligned, pos).Encoded?
    ensures items == [] ==> EncodeItems(schema, items, aligned, pos) == Encoded([])
    ensures items != [] ==>
              && var head := Encode(schema, items[0], aligned, pos);
              && head.Encoded? && Deliverable(schema, items[0], aligned, pos)
              && var rest := EncodeItems(schema, items[1..], aligned, pos + |head.bits|);
              && rest.Encoded? && ItemsDeliverable(schema, items[1..], aligned, pos + |head.bits|)
              && EncodeItems(schema, items, aligned, pos) == Encoded(head.bits + rest.bits)
  {
    hide Encode, Deliverable;
  }

  lemma {:induction false} ChoiceReads(known: Schema, sent: Schema, i: nat, w: Value, aligned: bool, s: seq<bool>,
                                       pos: nat)
    requires sent.Choice? && Older(known, sent) && !Ahead(known, sent, Chosen(i, w)).Blind?
    requires Deliverable(sent, Chosen(i, w), aligned, pos) && EncodedAt(sent, Chosen(i, w), aligned, s, pos)
    ensures Decode(known, s, pos, aligned)
         == Seen(Ahead(known, sent, Chosen(i, w)), Trim(known, sent, Chosen(i, w)),
                 pos + |Encode(sent, Chosen(i, w), aligned, pos).bits|)
    decreases sent, 0, 0
  {
    hide EncodeSequence, DecodeSequence, EncodeItems, DecodeItems, EncodeEnum, DecodeEnum, At, EncodeBoundedLength,
         DecodeBoundedLength, FieldsDeliverable, ItemsDeliverable, GroupsDeliverable, ShortContent, LeafDeliverable,
         EncodeAtom, DecodeAtom, SequenceHead, Pow2, FieldsAhead, ItemsAhead, ExtensionAhead, TrimFields, TrimItems,
         TrimGroups, FieldsOlder, GroupsOlder, Highest, PresentGroups, DecodeOpen;
    var alternatives := sent.alternatives;
    var head := EncodeEnum(i, |alternatives|, 0, false).bits;
    var p := pos + |head|;
    AtSplit(s, pos, head, Encode(alternatives[i], w, aligned, p).bits);
    EnumRoundTrip(s, pos, i, |alternatives|, 0, false);
    OlderReads(known.alternatives[i], alternatives[i], w, aligned, s, p);
  }

  /** The content of a field, encoded in a buffer of its own, is decoded in place. */
  lemma {:induction false} OpenReads(known: Schema, content: Schema, v: Value, aligned: bool, s: seq<bool>, pos: nat)
    requires Older(known, content) && !Ahead(known, content, v).Blind?
    requires Deliverable(content, v, aligned, 0) && ShortContent(content, v, aligned)
    requires EncodedAt(Open(content), v, aligned, s, pos)
    ensures Decode(Open(known), s, pos, aligned)
         == Seen(Ahead(known, content, v), Trim(known, content, v),
                 pos + |Encode(Open(content), v, aligned, pos).bits|)
    decreases content, 2, 0
  {
    hide At, SkipRest, AlignUp, EncodeSequence, DecodeSequence, EncodeItems, DecodeItems, Deliverable, SamePhase, Older,
         Ahead, Trim, EncodeAtom, DecodeAtom, EncodeEnum, DecodeEnum, EncodeBoundedLength, DecodeBoundedLength,
         LengthOut, OpenFieldBits;
    var inner := Encode(content, v, aligned, 0).bits;
    var start := OpenFieldWire(s, pos, inner, aligned);
    InPhaseStart(aligned, start);
    EncodePhase(content, v, aligned, 0, start);
    DeliverablePhase(content, v, aligned, 0, start);
    OlderReads(known, content, v, aligned, s, start);
  }

  lemma PresenceStep(fields: seq<Field>, vs: seq<Value>)
    requires |fields| == |vs|
    ensures fields == [] ==> |PresenceBits(fields, vs)| == CountOptional(fields) == 0
    ensures fields != [] ==>
              var flags, rest := PresenceBits(fields, vs), PresenceBits(fields[1..], vs[1..]);
              if fields[0].optional then
                && flags != [] && flags[0] == !vs[0].Absent? && flags[1..] == rest
                && CountOptional(fields) == 1 + CountOptional(fields[1..])
              else flags == rest && CountOptional(fields) == CountOptional(fields[1..])
  {
  }

  /** Both versions announce the same fields. */
  lemma {:induction false} SamePresence(fs: seq<Field>, fields: seq<Field>, vs: seq<Value>)
    requires |fs| == |fields| == |vs| && forall i | 0 <= i < |fs| :: fs[i].optional == fields[i].optional
    ensures PresenceBits(fs, vs) == PresenceBits(fields, vs)
    ensures CountOptional(fs) == CountOptional(fields) == |PresenceBits(fields, vs)|
  {
    if fs != [] { SamePresence(fs[1..], fields[1..], vs[1..]); }
  }

  lemma {:induction false} FieldsRead(fs: seq<Field>, fields: seq<Field>, vs: seq<Value>, aligned: bool, s: seq<bool>,
                                      pos: nat)
    requires |fields| == |vs| && FieldsOlder(fs, fields) && !FieldsAhead(fs, fields, vs).Blind?
    requires FieldsDeliverable(fields, vs, aligned, pos)
    requires var e := EncodeFields(fields, vs, aligned, pos); e.Encoded? && At(s, pos, e.bits)
    requires |PresenceBits(fs, vs)| == CountOptional(fs)
    ensures DecodeFields(fs, PresenceBits(fs, vs), s, pos, aligned)
         == Seen(FieldsAhead(fs, fields, vs), TrimFields(fs, fields, vs),
                 pos + |EncodeFields(fields, vs, aligned, pos).bits|)
    decreases fields, 2, |fields|
  {
    hide Encode, Decode, Deliverable, PresenceBits, CountOptional, At, Older, Ahead, Trim;
    PresenceStep(fs, vs);
    if fields != [] {
      if fields[0].optional && vs[0].Absent? {
        FieldsRead(fs[1..], fields[1..], vs[1..], aligned, s, pos);
      } else {
        assert fields[0].schema < fields[0];
        NotAbsent(fields[0].schema, vs[0], aligned, pos);
        var head := Encode(fields[0].schema, vs[0], aligned, pos).bits;
        var p := pos + |head|;
        AtSplit(s, pos, head, EncodeFields(fields[1..], vs[1..], aligned, p).bits);
        OlderReads(fs[0].schema, fields[0].schema, vs[0], aligned, s, pos);
        FieldsRead(fs[1..], fields[1..], vs[1..], aligned, s, p);
      }
    }
  }

  lemma {:induction false} NotAbsent(schema: Schema, v: Value, aligned: bool, pos: nat)
    requires Deliverable(schema, v, aligned, pos)
    ensures !v.Absent?
  {
    if schema.Open? { NotAbsent(schema.content, v, aligned, 0); }
  }

  // Sequences.

  lemma HeadReads(fields: seq<Field>, extensible: bool, vs: seq<Value>, ext: bool, s: seq<bool>, pos: nat)
    requires |fields| == |vs| && |PresenceBits(fields, vs)| == CountOptional(fields)
    requires At(s, pos, SequenceHead(fields, extensible, vs, ext))
    ensures var n := if extensible then 1 else 0;
            && ReadFlags(s, pos, n) == Decoded(if extensible then [ext] else [], pos + n)
            && ReadFlags(s, pos + n, CountOptional(fields))
               == Decoded(PresenceBits(fields, vs), pos + |SequenceHead(fields, extensible, vs, ext)|)
  {
    AtSplit(s, pos, if extensible then [ext] else [], PresenceBits(fields, vs));
  }

  /** Each content is the encoding of its group. */
  lemma {:induction false} ContentsAt(groups: seq<Schema>, gs: seq<Value>, aligned: bool, i: nat)
    requires |groups| == |gs| && i < |groups| && !gs[i].Absent? && EncodeContents(groups, gs, aligned).Contents?
    ensures Encode(groups[i], gs[i], aligned, 0) == Encoded(EncodeContents(groups, gs, aligned).inners[i])
    decreases i
  {
    if i > 0 { ContentsAt(groups[1..], gs[1..], aligned, i - 1); }
  }

  lemma {:induction false} GroupDeliverableAt(groups: seq<Schema>, gs: seq<Value>, aligned: bool, i: nat)
    requires |groups| == |gs| && i < |groups| && !gs[i].Absent? && GroupsDeliverable(groups, gs, aligned)
    ensures Deliverable(groups[i], gs[i], aligned, 0) && ShortContent(groups[i], gs[i], aligned)
    decreases i
  {
    if i > 0 { GroupDeliverableAt(groups[1..], gs[1..], aligned, i - 1); }
  }

  /** The known groups from index i on are decoded, and the cursor stands before the
      fields of the unknown ones. */
  lemma {:induction false} GroupsRead(known: seq<Schema>, groups: seq<Schema>, gs: seq<Value>, inners: seq<seq<bool>>,
                                      flags: seq<bool>, i: nat, s: seq<bool>, pos: nat) returns (q: nat)
    requires |groups| == |gs| && i <= |known| <= |flags| && GroupsOlder(known, groups)
    requires !GroupsAhead(known, groups, gs, i).Blind?
    requires EncodeContents(groups, gs, false) == Contents(inners) && GroupsDeliverable(groups, gs, false)
    requires forall j | 0 <= j < |known| :: flags[j] == PresentGroups(gs)[j]
    requires At(s, pos, FieldsBits(PresentGroups(gs), inners, i, |gs|, pos))
    ensures DecodeGroups(known, flags, i, s, pos, false)
         == Seen(GroupsAhead(known, groups, gs, i), TrimGroups(known, groups, gs, i), q)
    ensures GroupsAhead(known, groups, gs, i) == InStep ==>
              var rest := FieldsBits(PresentGroups(gs), inners, |known|, |gs|, q);
              At(s, q, rest) && q + |rest| == pos + |FieldsBits(PresentGroups(gs), inners, i, |gs|, pos)|
    decreases groups, 2, |known| - i
  {
    hide Encode, Decode, Deliverable, GroupsDeliverable, EncodeContents, At, SkipRest, Older, Ahead, Trim,
         OpenFieldBits;
    if i == |known| {
      q := pos;
    } else if gs[i].Absent? {
      q := GroupsRead(known, groups, gs, inners, flags, i + 1, s, pos);
    } else {
      var field := OpenFieldBits(inners[i], false, pos);
      AtSplit(s, pos, field, FieldsBits(PresentGroups(gs), inners, i + 1, |gs|, pos + |field|));
      GroupReads(known[i], groups, gs, inners, i, s, pos);
      q := GroupsRead(known, groups, gs, inners, flags, i + 1, s, pos + |field|);
    }
  }

  lemma {:induction false} GroupReads(known: Schema, groups: seq<Schema>, gs: seq<Value>, inners: seq<seq<bool>>,
                                      i: nat, s: seq<bool>, pos: nat)
    requires |groups| == |gs| && i < |groups| && !gs[i].Absent?
    requires Older(known, groups[i]) && !Ahead(known, groups[i], gs[i]).Blind?
    requires EncodeContents(groups, gs, false) == Contents(inners) && GroupsDeliverable(groups, gs, false)
    requires At(s, pos, OpenFieldBits(inners[i], false, pos))
    ensures DecodeOpen(known, s, pos, false, false)
         == Seen(Ahead(known, groups[i], gs[i]), Trim(known, groups[i], gs[i]),
                 pos + |OpenFieldBits(inners[i], false, pos)|)
    decreases groups, 1, 0
  {
    hide Encode, Decode, Deliverable, GroupsDeliverable, EncodeContents, At, SkipRest, Older, Ahead, Trim;
    ContentsAt(groups, gs, false, i);
    GroupDeliverableAt(groups, gs, false, i);
    var start := OpenFieldWire(s, pos, inners[i], false);
    EncodePhase(groups[i], gs[i], false, 0, start);
    DeliverablePhase(groups[i], gs[i], false, 0, start);
    OlderReads(known, groups[i], gs[i], false, s, start);
  }

  /** Skipping looks only at the flags up to the last one that was sent. */
  lemma {:induction false} SkipSame(s: seq<bool>, pos: nat, a: seq<bool>, n: nat, b: seq<bool>, m: nat, i: nat)
    requires n <= |a| && m <= |b| && n <= m
    requires forall j | i <= j < n :: a[j] == b[j]
    requires forall j | i <= j < m && n <= j :: !b[j]
    ensures SkipUnknown(s, pos, a, i, n) == SkipUnknown(s, pos, b, i, m)
    decreases m - i
  {
    if i < m {
      if i < n && a[i] {
        var len := LengthOut(s, pos, false);
        if len.Decoded? {
          var d := SkipRest(s, len.pos, len.value.0, len.pos);
          if d.Decoded? { SkipSame(s, d.pos, a, n, b, m, i + 1); }
        }
      } else {
        SkipSame(s, pos, a, n, b, m, i + 1);
      }
    }
  }

  lemma UnknownFieldsShort(groups: seq<Schema>, gs: seq<Value>, inners: seq<seq<bool>>, k: nat)
    requires |groups| == |gs| && GroupsDeliverable(groups, gs, false)
    requires EncodeContents(groups, gs, false) == Contents(inners)
    ensures ShortFields(PresentGroups(gs), inners, k, |gs|, ASN_16K - 1)
    ensures UnknownShort(groups, gs, k) <==> ShortFields(PresentGroups(gs), inners, k, |gs|, 4)
  {
    hide Encode, Deliverable, GroupsDeliverable, EncodeContents;
    forall i | k <= i < |gs| && PresentGroups(gs)[i]
      ensures Encode(groups[i], gs[i], false, 0) == Encoded(inners[i]) && CeilOctets(|inners[i]|) < ASN_16K
    {
      ContentsAt(groups, gs, false, i);
      GroupDeliverableAt(groups, gs, false, i);
    }
    if UnknownShort(groups, gs, k) {
      assert ShortFields(PresentGroups(gs), inners, k, |gs|, 4);
    }
    if ShortFields(PresentGroups(gs), inners, k, |gs|, 4) {
      forall i | k <= i < |gs| && !gs[i].Absent? ensures CeilOctets(|inners[i]|) <= 4 {
        assert PresentGroups(gs)[i];
      }
    }
  }

  /** A reader that knows some groups reads these and skips the others. */
  lemma {:induction false} ExtensionsRead(known: seq<Schema>, groups: seq<Schema>, gs: seq<Value>,
                                          inners: seq<seq<bool>>, s: seq<bool>, pos: nat)
    requires |groups| == |gs| < TWO32 && GroupsOlder(known, groups) && Highest(PresentGroups(gs)) <= 63
    requires !GroupsAhead(known, groups, gs, 0).Blind?
    requires EncodeContents(groups, gs, false) == Contents(inners) && GroupsDeliverable(groups, gs, false)
    requires var e := EncodeExtensions(PresentGroups(gs), Contents(inners), pos); e.Encoded? && At(s, pos, e.bits)
    ensures var d := FlagsRead(s, pos, |known|);
            && d.Decoded?
            && var g := DecodeGroups(known, d.value.0, 0, s, d.pos, false);
               && g == Seen(GroupsAhead(known, groups, gs, 0), TrimGroups(known, groups, gs, 0),
                            if g.Decoded? then g.pos else 0)
               && (g.Decoded? ==>
                     SkipUnknown(s, g.pos, d.value.0, |known|, d.value.1)
                     == if UnknownShort(groups, gs, |known|)
                        then Decoded(0, pos + |EncodeExtensions(PresentGroups(gs), Contents(inners), pos).bits|)
                        else DecodeUndefined)
    decreases groups, 3, 0
  {
    hide Encode, Decode, Deliverable, GroupsDeliverable, EncodeContents, DecodeGroups, FieldsBits, SkipUnknown;
    hide At, Highest, Extended, FlagsRead, FlagsWritten, UnknownShort, ShortFields, GroupsAhead, TrimGroups, Older;
    var k, present := |known|, PresentGroups(gs);
    var flags := FlagsWritten(present);
    var p := pos + |flags|;
    AtSplit(s, pos, flags, FieldsBits(present, inners, 0, |gs|, p));
    FlagsSurvive(s, pos, present, k);
    var h := Highest(present);
    var announced := Extended(present[..h + 1], k);
    var q := GroupsRead(known, groups, gs, inners, announced, 0, s, p);
    if GroupsAhead(known, groups, gs, 0) == InStep {
      UnknownFieldsShort(groups, gs, inners, k);
      SkipUnknownExact(s, q, present, inners, k, |gs|);
      SkipSame(s, q, announced, h + 1, present, |gs|, k);
    }
  }

  /** What the parts of a sequence come to for an older reader. */
  lemma {:induction false} HeadAndFieldsRead(known: Schema, sent: Schema, vs: seq<Value>, ext: bool, aligned: bool,
                                             s: seq<bool>, pos: nat) returns (bits: seq<bool>)
    requires known.Sequence? && sent.Sequence? && |vs| == |sent.fields| && known.extensible == sent.extensible
    requires FieldsOlder(known.fields, sent.fields) && !FieldsAhead(known.fields, sent.fields, vs).Blind?
    requires var head := SequenceHead(sent.fields, sent.extensible, vs, ext);
             var body := EncodeFields(sent.fields, vs, aligned, pos + |head|);
             FieldsDeliverable(sent.fields, vs, aligned, pos + |head|) && body.Encoded? && At(s, pos, head + body.bits)
    ensures var head := SequenceHead(sent.fields, sent.extensible, vs, ext);
            bits == head + EncodeFields(sent.fields, vs, aligned, pos + |head|).bits
    ensures var n := if known.extensible then 1 else 0;
            var flags := ReadFlags(s, pos + n, CountOptional(known.fields));
            && ReadFlags(s, pos, n) == Decoded(if known.extensible then [ext] else [], pos + n)
            && flags.Decoded?
            && DecodeFields(known.fields, flags.value, s, flags.pos, aligned)
               == Seen(FieldsAhead(known.fields, sent.fields, vs), TrimFields(known.fields, sent.fields, vs),
                       pos + |bits|)
    decreases sent, 0, 0
  {
    hide EncodeFields, DecodeFields, FieldsAhead, TrimFields, FieldsDeliverable, At, Older, PresenceBits, CountOptional;
    var Sequence(fields, extensible, groups) := sent;
    var head := SequenceHead(fields, extensible, vs, ext);
    var body := EncodeFields(fields, vs, aligned, pos + |head|).bits;
    bits := head + body;
    AtSplit(s, pos, head, body);
    SamePresence(known.fields, fields, vs);
    HeadReads(known.fields, extensible, vs, ext, s, pos);
    FieldsRead(known.fields, fields, vs, aligned, s, pos + |head|);
  }

  lemma {:induction false} SequenceReads(known: Schema, sent: Schema, vs: seq<Value>, ext: bool, gs: seq<Value>,
                                         aligned: bool, s: seq<bool>, pos: nat)
    requires sent.Sequence? && Older(known, sent) && !Ahead(known, sent, Record(vs, ext, gs)).Blind?
    requires Deliverable(sent, Record(vs, ext, gs), aligned, pos)
    requires var e := EncodeSequence(sent, vs, ext, gs, aligned, pos); e.Encoded? && At(s, pos, e.bits)
    ensures known.Sequence?
    ensures DecodeSequence(known, s, pos, aligned)
         == Seen(Ahead(known, sent, Record(vs, ext, gs)), Trim(known, sent, Record(vs, ext, gs)),
                 pos + |EncodeSequence(sent, vs, ext, gs, aligned, pos).bits|)
    decreases sent, 0, 1
  {
    hide Encode, EncodeContents, DecodeGroups, FieldsBits, SkipUnknown, EncodeFields, DecodeFields;
    hide FlagsWritten, FlagsRead, SequenceHead, UnknownShort, At, FieldsDeliverable, GroupsDeliverable, CountOptional;
    hide Trim, TrimFields, TrimGroups, Ahead, FieldsAhead, GroupsAhead, Highest, PresentGroups, ReadFlags;
    SequenceParts(known, sent, vs, ext, gs);
    hide Older, FieldsOlder, GroupsOlder;
    var groups, present := sent.groups, PresentGroups(gs);
    var contents := EncodeContents(groups, gs, aligned);
    if !ext || groups == [] {
      var bits := HeadAndFieldsRead(known, sent, vs, ext, aligned, s, pos);
      NoneKnown(known.groups, groups, gs);
    } else {
      var head := SequenceHead(sent.fields, sent.extensible, vs, ext);
      var body := EncodeFields(sent.fields, vs, aligned, pos + |head|).bits;
      AtSplit(s, pos, head + body, EncodeExtensions(present, contents, pos + |head + body|).bits);
      var bits := HeadAndFieldsRead(known, sent, vs, ext, aligned, s, pos);
      ExtensionsRead(known.groups, groups, gs, contents.inners, s, pos + |bits|);
    }
  }

  /** Without an extension the older version has as many absent groups as it knows. */
  lemma {:induction false} NoneKnown(known: seq<Schema>, groups: seq<Schema>, gs: seq<Value>)
    requires |known| <= |groups| == |gs| && (groups == [] || Highest(PresentGroups(gs)) < 0)
    ensures TrimGroups(known, groups, gs, 0) == AllAbsent(|known|)
  {
    forall i | 0 <= i < |gs| ensures gs[i] == Absent {
      assert !PresentGroups(gs)[i];
    }
    AbsentGroups(known, groups, gs, 0);
  }

  lemma {:induction false} AbsentGroups(known: seq<Schema>, groups: seq<Schema>, gs: seq<Value>, i: nat)
    requires i <= |known| <= |groups| == |gs| && forall j | 0 <= j < |gs| :: gs[j] == Absent
    ensures TrimGroups(known, groups, gs, i) == AllAbsent(|known| - i)
    decreases |known| - i
  {
    if i < |known| { AbsentGroups(known, groups, gs, i + 1); }
  }

  lemma FlagsNotEmpty(present: seq<bool>)
    ensures FlagsWritten(present) != []
  {
  }

  // Readers that are blind to an extension.

  /** The bits of a sequence up to its extension. */
  function RootSize(sent: Schema, vs: seq<Value>, pos: nat): nat
    requires sent.Sequence? && |vs| == |sent.fields|
  {
    var head := SequenceHead(sent.fields, sent.extensible, vs, true);
    var body := EncodeFields(sent.fields, vs, false, pos + |head|);
    |head| + if body.Encoded? then |body.bits| else 0
  }

  /** A reader that knows no group of a sequence stops behind its fields, before the end. */
  lemma BlindReads(known: Schema, sent: Schema, vs: seq<Value>, gs: seq<Value>, s: seq<bool>, pos: nat)
    requires sent.Sequence? && known.Sequence? && Older(known, sent) && known.groups == [] != sent.groups
    requires Deliverable(sent, Record(vs, true, gs), false, pos) && EncodedAt(sent, Record(vs, true, gs), false, s, pos)
    requires |vs| == |sent.fields| == |known.fields| && !FieldsAhead(known.fields, sent.fields, vs).Blind?
    ensures RootSize(sent, vs, pos) < |Encode(sent, Record(vs, true, gs), false, pos).bits|
    ensures Decode(known, s, pos, false)
         == Seen(FieldsAhead(known.fields, sent.fields, vs), Trim(known, sent, Record(vs, true, gs)),
                 pos + RootSize(sent, vs, pos))
  {
    hide EncodeContents, DecodeGroups, FieldsBits, SkipUnknown, EncodeFields, DecodeFields;
    hide FlagsWritten, FlagsRead, SequenceHead, UnknownShort, At, FieldsDeliverable, GroupsDeliverable;
    hide TrimFields, Ahead, FieldsAhead, GroupsAhead;
    SequenceParts(known, sent, vs, true, gs);
    hide Older, FieldsOlder, GroupsOlder, Trim;
    var e := EncodeSequence(sent, vs, true, gs, false, pos);
    assert Encode(sent, Record(vs, true, gs), false, pos) == e && e.Encoded? && At(s, pos, e.bits);
    var present, contents := PresentGroups(gs), EncodeContents(sent.groups, gs, false);
    var head := SequenceHead(sent.fields, sent.extensible, vs, true);
    var body := EncodeFields(sent.fields, vs, false, pos + |head|).bits;
    var extension := EncodeExtensions(present, contents, pos + |head + body|).bits;
    AtSplit(s, pos, head + body, extension);
    var bits := HeadAndFieldsRead(known, sent, vs, true, false, s, pos);
    FlagsNotEmpty(present);
    assert Decode(known, s, pos, false) == DecodeSequence(known, s, pos, false);
    assert TrimGroups([], sent.groups, gs, 0) == [] == AllAbsent(0);
  }

  /** Inside a field that is delimited by its length such a reader is brought back in step
      if and only if it has left at most 32 bits of the field unread. */
  lemma BlindInField(known: Schema, sent: Schema, vs: seq<Value>, gs: seq<Value>, s: seq<bool>, pos: nat)
    requires sent.Sequence? && known.Sequence? && Older(known, sent) && known.groups == [] != sent.groups
    requires Deliverable(sent, Record(vs, true, gs), false, 0) && ShortContent(sent, Record(vs, true, gs), false)
    requires EncodedAt(Open(sent), Record(vs, true, gs), false, s, pos)
    requires |vs| == |sent.fields| == |known.fields| && FieldsAhead(known.fields, sent.fields, vs) == InStep
    ensures var inner := Encode(sent, Record(vs, true, gs), false, 0).bits;
            Decode(Open(known), s, pos, false)
            == if 8 * CeilOctets(|inner|) - RootSize(sent, vs, 0) <= 32
               then Decoded(Trim(known, sent, Record(vs, true, gs)),
                            pos + |Encode(Open(sent), Record(vs, true, gs), false, pos).bits|)
               else DecodeUndefined
  {
    hide At, SkipRest, Deliverable, Older, Ahead, Trim, FieldsAhead, EncodeFields, EncodeSequence, DecodeSequence;
    var v := Record(vs, true, gs);
    var inner := Encode(sent, v, false, 0).bits;
    var start := OpenFieldWire(s, pos, inner, false);
    EncodePhase(sent, v, false, 0, start);
    DeliverablePhase(sent, v, false, 0, start);
    RootPhase(sent, vs, start);
    BlindReads(known, sent, vs, gs, s, start);
    FieldEnd(s, start, inner, pos + |OpenFieldBits(inner, false, pos)|);
    SkipRestDefined(s, start, CeilOctets(|inner|), start + RootSize(sent, vs, 0));
    if 8 * CeilOctets(|inner|) - RootSize(sent, vs, 0) <= 32 {
      SkipRestEnds(s, start, CeilOctets(|inner|), start + RootSize(sent, vs, 0));
    }
  }

  lemma RootPhase(sent: Schema, vs: seq<Value>, pos: nat)
    requires sent.Sequence? && |vs| == |sent.fields|
    ensures RootSize(sent, vs, pos) == RootSize(sent, vs, 0)
  {
    var head := SequenceHead(sent.fields, sent.extensible, vs, true);
    FieldsPhase(sent.fields, vs, false, |head|, pos + |head|);
  }

  lemma FieldEnd(s: seq<bool>, start: nat, inner: seq<bool>, end: nat)
    requires CeilOctets(|inner|) < ASN_16K
    requires var d := SkipRest(s, start, CeilOctets(|inner|), start + |inner|); d.Decoded? && d.pos == end
    ensures end == start + 8 * CeilOctets(|inner|) <= |s|
  {
    ReadBound(s, start + |inner|, 8 * CeilOctets(|inner|) - |inner|);
  }

  /** A reader built from an older version of a sequence knows only the first k extension
      groups. It decodes the fields and groups it knows and ends where the newer message
      ends if and only if the message has no extension, or the reader knows some group and
      those it does not know take at most four octets each. A reader that knows no group
      does not skip any, and a longer group trips the width assertion of the bit cursor. */
  lemma ForwardCompatible(fields: seq<Field>, groups: seq<Schema>, vs: seq<Value>, ext: bool, gs: seq<Value>,
                          k: nat, s: seq<bool>, pos: nat)
    requires k <= |groups| == |gs| && groups != []
    requires Deliverable(Sequence(fields, true, groups), Record(vs, ext, gs), false, pos)
    requires EncodedAt(Sequence(fields, true, groups), Record(vs, ext, gs), false, s, pos)
    ensures var newer := Encode(Sequence(fields, true, groups), Record(vs, ext, gs), false, pos).bits;
            var older := Decode(Sequence(fields, true, groups[..k]), s, pos, false);
            older == Decoded(Record(vs, ext, gs[..k]), pos + |newer|)
            <==> !ext || (k > 0 && UnknownShort(groups, gs, k))
  {
    hide Encode, Decode, UnknownShort, TrimFields, TrimGroups, FieldsAhead, GroupsAhead, FieldsDeliverable,
         GroupsDeliverable, EncodedAt, Highest;
    var known, sent := Sequence(fields, true, groups[..k]), Sequence(fields, true, groups);
    assert FieldsOlder(fields, fields);
    assert GroupsOlder(groups[..k], groups) by {
      forall i | 0 <= i < k ensures Older(groups[..k][i], groups[i]) { assert groups[..k][i] == groups[i]; }
    }
    SameFields(fields, vs);
    SameGroups(groups, gs, k, 0);
    SequenceParts(known, sent, vs, ext, gs);
    hide Older, FieldsOlder, GroupsOlder, Trim, Ahead;
    if ext && k == 0 {
      BlindReads(known, sent, vs, gs, s, pos);
    } else {
      OlderReads(known, sent, Record(vs, ext, gs), false, s, pos);
    }
  }
}
