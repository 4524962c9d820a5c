/** Messages: trees of leaves, lists, sequences with optional fields and extension
    groups, choices and open type fields, as the code generated from ASN.1 modules
    packs and unpacks them. */
module Messages {
  import opened Bits
  import opened Per
  import opened BitRefs
  import opened Lengths
  import opened Integers
  import opened OpenFields
  import opened ExtGroups
  import opened Leaves

  datatype Field = Field(optional: bool, schema: Schema)

  datatype Schema =
    | Atom(leaf: Leaf)
    | SequenceOf(lb: nat, ub: nat, elem: Schema)
    | Sequence(fields: seq<Field>, extensible: bool, groups: seq<Schema>)
    | Choice(alternatives: seq<Schema>)
    | Open(content: Schema)

  datatype Value =
    | Absent
    | Single(datum: Datum)
    | List(items: seq<Value>)
    | Record(fields: seq<Value>, ext: bool, groups: seq<Value>)
    | Chosen(index: nat, value: Value)

  // Encoding.

  function EncodeAtom(leaf: Leaf, d: Datum, aligned: bool, pos: nat): Encoding {
    if LeafValid(leaf) then EncodeLeaf(leaf, d, aligned, pos) else EncodeUndefined
  }

  /** One bit for each optional field. */
  function PresenceBits(fields: seq<Field>, vs: seq<Value>): seq<bool>
    requires |fields| == |vs|
  {
    if fields == [] then []
    else (if fields[0].optional then [!vs[0].Absent?] else []) + PresenceBits(fields[1..], vs[1..])
  }

  function PresentGroups(gs: seq<Value>): (r: seq<bool>)
    ensures |r| == |gs|
  {
    seq(|gs|, i requires 0 <= i < |gs| => !gs[i].Absent?)
  }

  /** The contents of the extension groups, each encoded in a buffer of its own. */
  datatype Contents = Contents(inners: seq<seq<bool>>) | NoContents(why: Encoding)

  function Encode(schema: Schema, v: Value, aligned: bool, pos: nat): Encoding
    decreases schema, 1, 0
  {
    match (schema, v)
    case (Atom(leaf), Single(d)) => EncodeAtom(leaf, d, aligned, pos)
    case (SequenceOf(lb, ub, elem), List(items)) =>
      var head :- EncodeBoundedLength(|items|, lb, ub, aligned, pos);
      Then(head, EncodeItems(elem, items, aligned, pos + |head|))
    case (Choice(alternatives), Chosen(i, w)) =>
      if i >= |alternatives| then EncodeUndefined
      else
        var head :- EncodeEnum(i, |alternatives|, 0, false);
        Then(head, Encode(alternatives[i], w, aligned, pos + |head|))
    case (Open(content), _) =>
      var inner :- Encode(content, v, aligned, 0);
      Encoded(OpenFieldBits(inner, aligned, pos))
    case (Sequence(_, _, _), Record(vs, ext, gs)) =>
      EncodeSequence(schema, vs, ext, gs, aligned, pos)
    case _ => EncodeUndefined
  }

  /** Extension bit and presence bits, the fields, and, if the extension bit is set and the
      type has groups, the groups. The bit is a value of its own, not derived from them. */
  function EncodeSequence(schema: Schema, vs: seq<Value>, ext: bool, gs: seq<Value>, aligned: bool,
                          pos: nat): Encoding
    requires schema.Sequence?
    decreases schema, 0, 0
  {
    var Sequence(fields, extensible, groups) := schema;
    if |vs| != |fields| || |gs| != |groups| || |groups| >= TWO32 || (!extensible && (ext || groups != [])) then
      EncodeUndefined
    else
      var head := SequenceHead(fields, extensible, vs, ext);
      var body :- EncodeFields(fields, vs, aligned, pos + |head|);
      if !ext || groups == [] then Encoded(head + body)
      else
        var contents := EncodeContents(groups, gs, aligned);
        Then(head + body, EncodeExtensions(PresentGroups(gs), contents, pos + |head + body|))
  }

  function SequenceHead(fields: seq<Field>, extensible: bool, vs: seq<Value>, ext: bool): seq<bool>
    requires |fields| == |vs|
  {
    (if extensible then [ext] else []) + PresenceBits(fields, vs)
  }

  function EncodeItems(elem: Schema, items: seq<Value>, aligned: bool, pos: nat): Encoding
    decreases elem, 2, |items|
  {
    if items == [] then Encoded([])
    else
      var head :- Encode(elem, items[0], aligned, pos);
      Then(head, EncodeItems(elem, items[1..], aligned, pos + |head|))
  }

  function EncodeFields(fields: seq<Field>, vs: seq<Value>, aligned: bool, pos: nat): Encoding
    requires |fields| == |vs|
    decreases fields, 2, |fields|
  {
    if fields == [] then Encoded([])
    else if fields[0].optional && vs[0].Absent? then EncodeFields(fields[1..], vs[1..], aligned, pos)
    else
      assert fields[0].schema < fields[0];
      var head :- Encode(fields[0].schema, vs[0], aligned, pos);
      Then(head, EncodeFields(fields[1..], vs[1..], aligned, pos + |head|))
  }

  function EncodeContents(groups: seq<Schema>, gs: seq<Value>, aligned: bool): (c: Contents)
    requires |groups| == |gs|
    ensures if c.Contents? then |c.inners| == |groups| else !c.why.Encoded?
    decreases groups, 2, |groups|
  {
    if groups == [] then Contents([])
    else
      match (if gs[0].Absent? then Encoded([]) else Encode(groups[0], gs[0], aligned, 0))
      case Encoded(inner) =>
        var rest := EncodeContents(groups[1..], gs[1..], aligned);
        if rest.Contents? then Contents([inner] + rest.inners) else rest
      case e => NoContents(e)
  }

  /** The return code of packing the flags is ignored. */
  function EncodeExtensions(present: seq<bool>, contents: Contents, pos: nat): Encoding
    requires contents.Contents? ==> |contents.inners| == |present|
  {
    if contents.NoContents? then contents.why
    else
      var flags := FlagsWritten(present);
      Encoded(flags + FieldsBits(present, contents.inners, 0, |present|, pos + |flags|))
  }

  // Decoding.

  ghost function DecodeAtom(leaf: Leaf, s: seq<bool>, pos: nat, aligned: bool): Decoding<Datum> {
    if LeafValid(leaf) then DecodeLeaf(leaf, s, pos, aligned) else DecodeUndefined
  }

  /** Reading n one-bit flags. */
  ghost function ReadFlags(s: seq<bool>, pos: nat, n: nat): (d: Decoding<seq<bool>>)
    ensures d.Decoded? ==> |d.value| == n
  {
    if pos + n <= |s| then Decoded(s[pos..pos + n], pos + n) else DecodeUndefined
  }

  function CountOptional(fields: seq<Field>): nat {
    if fields == [] then 0 else (if fields[0].optional then 1 else 0) + CountOptional(fields[1..])
  }

  ghost function Decode(schema: Schema, s: seq<bool>, pos: nat, aligned: bool): Decoding<Value>
    decreases schema, 1, 0
  {
    match schema
    case Atom(leaf) =>
      var (d, p) :- DecodeAtom(leaf, s, pos, aligned);
      Decoded(Single(d), p)
    case SequenceOf(lb, ub, elem) =>
      var (n, p) :- DecodeBoundedLength(s, pos, lb, ub, aligned);
      var (items, q) :- DecodeItems(elem, s, p, n, aligned);
      Decoded(List(items), q)
    case Choice(alternatives) =>
      var (i, p) :- DecodeEnum(s, pos, |alternatives|, 0, false);
      if i >= |alternatives| then Rejected(p)
      else
        var (v, q) :- Decode(alternatives[i], s, p, aligned);
        Decoded(Chosen(i, v), q)
    case Open(content) => DecodeOpen(content, s, pos, aligned, aligned)
    case Sequence(_, _, _) =>
      DecodeSequence(schema, s, pos, aligned)
  }

  ghost function DecodeSequence(schema: Schema, s: seq<bool>, pos: nat, aligned: bool): Decoding<Value>
    requires schema.Sequence?
    decreases schema, 0, 0
  {
    var Sequence(fields, extensible, groups) := schema;
    var (ext, p0) :- ReadFlags(s, pos, if extensible then 1 else 0);
    var (flags, p) :- ReadFlags(s, p0, CountOptional(fields));
    var (vs, q) :- DecodeFields(fields, flags, s, p, aligned);
    if ext != [true] || groups == [] then Decoded(Record(vs, ext == [true], AllAbsent(|groups|)), q)
    else
      var (present, q0) :- FlagsRead(s, q, |groups|);
      CloseGroups(vs, DecodeGroups(groups, present.0, 0, s, q0, aligned), s, present.0, |groups|, present.1)
  }

  /** The fields of the groups that the reader does not know are skipped whether or not the
      known ones were decoded. */
  ghost function CloseGroups(vs: seq<Value>, gs: Decoding<seq<Value>>, s: seq<bool>, flags: seq<bool>, known: nat,
                             sent: nat): Decoding<Value>
    requires sent <= |flags|
  {
    match gs
    case Decoded(g, p) =>
      var (_, end) :- SkipUnknown(s, p, flags, known, sent);
      Decoded(Record(vs, true, g), end)
    case Rejected(at) =>
      var (_, end) :- SkipUnknown(s, at, flags, known, sent);
      Rejected(end)
    case DecodeUndefined => DecodeUndefined
  }

  /** A field that is delimited by its length: the content is read in place, and what is
      left of the field is skipped whether or not the content was decoded. */
  ghost function DecodeOpen(content: Schema, s: seq<bool>, pos: nat, aligned: bool, align: bool): Decoding<Value>
    decreases content, 2, 0
  {
    var (len, start) :- LengthOut(s, pos, align);
    CloseField(Decode(content, s, start, aligned), s, start, len.0)
  }

  ghost function CloseField(content: Decoding<Value>, s: seq<bool>, start: nat, len: nat): Decoding<Value> {
    match content
    case Decoded(v, p) =>
      var (_, q) :- SkipRest(s, start, len, p);
      Decoded(v, q)
    case Rejected(at) =>
      var (_, q) :- SkipRest(s, start, len, at);
      Rejected(q)
    case DecodeUndefined => DecodeUndefined
  }

  function AllAbsent(n: nat): seq<Value> {
    seq(n, _ => Absent)
  }

  ghost function DecodeItems(elem: Schema, s: seq<bool>, pos: nat, n: nat, aligned: bool): Decoding<seq<Value>>
    decreases elem, 2, n
  {
    if n == 0 then Decoded([], pos)
    else
      var (v, p) :- Decode(elem, s, pos, aligned);
      var (rest, q) :- DecodeItems(elem, s, p, n - 1, aligned);
      Decoded([v] + rest, q)
  }

  ghost function DecodeFields(fields: seq<Field>, flags: seq<bool>, s: seq<bool>, pos: nat,
                              aligned: bool): Decoding<seq<Value>>
    requires |flags| == CountOptional(fields)
    decreases fields, 2, |fields|
  {
    if fields == [] then Decoded([], pos)
    else if fields[0].optional && !flags[0] then
      var (rest, q) :- DecodeFields(fields[1..], flags[1..], s, pos, aligned);
      Decoded([Absent] + rest, q)
    else
      assert fields[0].schema < fields[0];
      var (v, p) :- Decode(fields[0].schema, s, pos, aligned);
      var (rest, q) :- DecodeFields(fields[1..], if fields[0].optional then flags[1..] else flags, s, p, aligned);
      Decoded([v] + rest, q)
  }

  /** The known groups from index i on, each an open type field read in place. */
  ghost function DecodeGroups(groups: seq<Schema>, flags: seq<bool>, i: nat, s: seq<bool>, pos: nat,
                              aligned: bool): Decoding<seq<Value>>
    requires |groups| <= |flags|
    decreases groups, 2, |groups| - i
  {
    if i >= |groups| then Decoded([], pos)
    else if !flags[i] then
      var (rest, q) :- DecodeGroups(groups, flags, i + 1, s, pos, aligned);
      Decoded([Absent] + rest, q)
    else
      var (v, q) :- DecodeOpen(groups[i], s, pos, aligned, false);
      var (rest, end) :- DecodeGroups(groups, flags, i + 1, s, q, aligned);
      Decoded([v] + rest, end)
  }
}
