/** The methods that pack and unpack messages through the bit cursors. */
module MessagePacking {
  import opened Bits
  import opened Per
  import opened BitRefs
  import opened Lengths
  import opened Integers
  import opened OpenFields
  import opened ExtGroups
  import opened Leaves
  import opened Messages
  import opened Deliveries
  import opened MessageLaws
  import opened Extents

  // Packing.

  lemma ThenThen(a: seq<bool>, b: seq<bool>, e: Encoding)
    ensures Then(a, Then(b, e)) == Then(a + b, e)
  {
    if e.Encoded? { assert a + (b + e.bits) == a + b + e.bits; }
  }

  method PackMessage(bref: BitRef, schema: Schema, v: Value, aligned: bool) returns (code: Code)
    requires bref.Valid() && Encode(schema, v, aligned, |bref.bits|) != EncodeUndefined
    modifies bref
    ensures bref.Valid() && Appended(old(bref.bits), bref.bits, code, Encode(schema, v, aligned, |old(bref.bits)|))
    decreases schema, 1, 0
  {
    hide EncodeSequence, EncodeItems;
    match (schema, v)
    case (Atom(leaf), Single(d)) =>
      code := PackLeaf(bref, leaf, d, aligned);
    case (SequenceOf(lb, ub, elem), List(items)) =>
      code := PackBoundedLength(bref, |items|, lb, ub, aligned);
      if code == Success {
        ghost var head := EncodeBoundedLength(|items|, lb, ub, aligned, |old(bref.bits)|).bits;
        code := PackItems(bref, elem, items, aligned);
        AppendedThen(old(bref.bits), head, bref.bits, code, EncodeItems(elem, items, aligned, |old(bref.bits) + head|));
      }
    case (Choice(alternatives), Chosen(i, w)) =>
      code := PackEnum(bref, i, |alternatives|, 0, false);
      if code == Success {
        ghost var head := EncodeEnum(i, |alternatives|, 0, false).bits;
        code := PackMessage(bref, alternatives[i], w, aligned);
        AppendedThen(old(bref.bits), head, bref.bits, code,
                     Encode(alternatives[i], w, aligned, |old(bref.bits) + head|));
      }
    case (Open(content), _) =>
      code := PackOpen(bref, content, v, aligned, aligned);
    case (Sequence(_, _, _), Record(vs, ext, gs)) =>
      code := PackSequence(bref, schema, vs, ext, gs, aligned);
  }

  /** Content in a buffer of its own, behind its length; the field is closed whether or
      not its content was packed. */
  method PackOpen(bref: BitRef, content: Schema, v: Value, aligned: bool, align: bool) returns (code: Code)
    requires bref.Valid() && Encode(content, v, aligned, 0) != EncodeUndefined
    modifies bref
    ensures bref.Valid()
    ensures match Encode(content, v, aligned, 0)
            case Encoded(inner) =>
              code == Success && bref.bits == old(bref.bits) + OpenFieldBits(inner, align, |old(bref.bits)|)
            case _ => code == EncodeFail && old(bref.bits) <= bref.bits
    decreases content, 2, 0
  {
    hide Encode, OpenFieldBits;
    var scope := new VarlengthFieldPackGuard(bref, align);
    code := PackMessage(bref, content, v, aligned);
    ghost var e := Encode(content, v, aligned, 0);
    assert e.Encoded? ==> bref.bits == [] + e.bits == e.bits;
    scope.Close();
  }

  method PackItems(bref: BitRef, elem: Schema, items: seq<Value>, aligned: bool) returns (code: Code)
    requires bref.Valid() && EncodeItems(elem, items, aligned, |bref.bits|) != EncodeUndefined
    modifies bref
    ensures bref.Valid()
    ensures Appended(old(bref.bits), bref.bits, code, EncodeItems(elem, items, aligned, |old(bref.bits)|))
    decreases elem, 2, 0
  {
    hide Encode;
    ghost var done: seq<bool> := [];
    ghost var before := bref.bits;
    assert items[0..] == items;
    for i := 0 to |items|
      invariant bref.Valid() && bref.bits == before + done
      invariant EncodeItems(elem, items, aligned, |before|)
             == Then(done, EncodeItems(elem, items[i..], aligned, |bref.bits|))
    {
      ghost var rest := items[i..];
      assert rest[0] == items[i] && rest[1..] == items[i + 1..];
      ghost var head := Encode(elem, items[i], aligned, |bref.bits|);
      code := PackMessage(bref, elem, items[i], aligned);
      if code != Success {
        return;
      }
      ThenThen(done, head.bits, EncodeItems(elem, items[i + 1..], aligned, |bref.bits|));
      done := done + head.bits;
      assert before + done == bref.bits;
    }
    code := Success;
  }

  method PackSequence(bref: BitRef, schema: Schema, vs: seq<Value>, ext: bool, gs: seq<Value>, aligned: bool)
    returns (code: Code)
    requires bref.Valid() && schema.Sequence?
    requires EncodeSequence(schema, vs, ext, gs, aligned, |bref.bits|) != EncodeUndefined
    modifies bref
    ensures bref.Valid()
    ensures Appended(old(bref.bits), bref.bits, code, EncodeSequence(schema, vs, ext, gs, aligned, |old(bref.bits)|))
    decreases schema, 0, 0
  {
    hide EncodeFields, EncodeContents, EncodeExtensions;
    var Sequence(fields, extensible, groups) := schema;
    ghost var before := bref.bits;
    PackHead(bref, fields, extensible, ext, vs);
    ghost var head := SequenceHead(fields, extensible, vs, ext);
    code := PackFields(bref, fields, vs, aligned);
    ghost var body := EncodeFields(fields, vs, aligned, |before + head|);
    AppendedThen(before, head, bref.bits, code, body);
    if code == Success && ext && groups != [] {
      code := PackExtensions(bref, groups, gs, aligned);
      ghost var contents := EncodeContents(groups, gs, aligned);
      AppendedThen(before, head + body.bits, bref.bits, code,
                   EncodeExtensions(PresentGroups(gs), contents, |before + (head + body.bits)|));
    }
  }

  method PackHead(bref: BitRef, fields: seq<Field>, extensible: bool, ext: bool, vs: seq<Value>)
    requires bref.Valid() && |fields| == |vs|
    modifies bref
    ensures bref.Valid() && bref.bits == old(bref.bits) + SequenceHead(fields, extensible, vs, ext)
  {
    ghost var start := old(bref.bits) + if extensible then [ext] else [];
    if extensible {
      bref.Pack(if ext then 1 else 0, 1);
      NatBitsBit(if ext then 1 else 0);
    }
    PackPresence(bref, fields, vs);
    assert start + PresenceBits(fields, vs) == old(bref.bits) + SequenceHead(fields, extensible, vs, ext);
  }

  method PackPresence(bref: BitRef, fields: seq<Field>, vs: seq<Value>)
    requires bref.Valid() && |fields| == |vs|
    modifies bref
    ensures bref.Valid() && bref.bits == old(bref.bits) + PresenceBits(fields, vs)
  {
    assert fields[0..] == fields && vs[0..] == vs;
    for i := 0 to |fields|
      invariant bref.Valid()
      invariant bref.bits + PresenceBits(fields[i..], vs[i..]) == old(bref.bits) + PresenceBits(fields, vs)
    {
      ghost var b, rest := bref.bits, PresenceBits(fields[i + 1..], vs[i + 1..]);
      assert fields[i..][1..] == fields[i + 1..] && vs[i..][1..] == vs[i + 1..];
      if fields[i].optional {
        bref.Pack(if vs[i].Absent? then 0 else 1, 1);
        NatBitsBit(if vs[i].Absent? then 0 else 1);
        assert b + ([!vs[i].Absent?] + rest) == bref.bits + rest;
      } else {
        assert [] + rest == rest;
      }
    }
    assert bref.bits + [] == bref.bits;
  }

  method PackFields(bref: BitRef, fields: seq<Field>, vs: seq<Value>, aligned: bool) returns (code: Code)
    requires bref.Valid() && |fields| == |vs| && EncodeFields(fields, vs, aligned, |bref.bits|) != EncodeUndefined
    modifies bref
    ensures bref.Valid()
    ensures Appended(old(bref.bits), bref.bits, code, EncodeFields(fields, vs, aligned, |old(bref.bits)|))
    decreases fields, 2, 0
  {
    hide Encode;
    ghost var done: seq<bool> := [];
    ghost var before := bref.bits;
    assert fields[0..] == fields && vs[0..] == vs;
    for i := 0 to |fields|
      invariant bref.Valid() && bref.bits == before + done
      invariant EncodeFields(fields, vs, aligned, |before|)
             == Then(done, EncodeFields(fields[i..], vs[i..], aligned, |bref.bits|))
    {
      ghost var fs, ws := fields[i..], vs[i..];
      assert fs[0] == fields[i] && fs[1..] == fields[i + 1..] && ws[0] == vs[i] && ws[1..] == vs[i + 1..];
      if !fields[i].optional || !vs[i].Absent? {
        ghost var head := Encode(fields[i].schema, vs[i], aligned, |bref.bits|);
        assert fields[i].schema < fields[i];
        code := PackMessage(bref, fields[i].schema, vs[i], aligned);
        if code != Success {
          return;
        }
        ThenThen(done, head.bits, EncodeFields(fields[i + 1..], vs[i + 1..], aligned, |bref.bits|));
        done := done + head.bits;
        assert before + done == bref.bits;
      }
    }
    code := Success;
  }

  method PackExtensions(bref: BitRef, groups: seq<Schema>, gs: seq<Value>, aligned: bool) returns (code: Code)
    requires bref.Valid() && |groups| == |gs| < TWO32
    requires EncodeExtensions(PresentGroups(gs), EncodeContents(groups, gs, aligned), |bref.bits|) != EncodeUndefined
    modifies bref
    ensures bref.Valid()
    ensures Appended(old(bref.bits), bref.bits, code,
                     EncodeExtensions(PresentGroups(gs), EncodeContents(groups, gs, aligned), |old(bref.bits)|))
    decreases groups, 3, 0
  {
    hide EncodeContents, FieldsBits, FlagsWritten;
    var flags := new ExtGroupsPackerGuard();
    MarkAll(flags, gs);
    ghost var before, present := bref.bits, PresentGroups(gs);
    var ignored := flags.Pack(bref);
    code := PackGroups(bref, groups, gs, aligned);
    ghost var c, bits := EncodeContents(groups, gs, aligned), FlagsWritten(present);
    if c.Contents? {
      ghost var fields := FieldsBits(present, c.inners, 0, |gs|, |before + bits|);
      assert before + bits + fields == before + (bits + fields);
    }
  }

  method MarkAll(flags: ExtGroupsPackerGuard, gs: seq<Value>)
    requires flags.groups == []
    modifies flags
    ensures flags.groups == PresentGroups(gs)
  {
    for i := 0 to |gs|
      invariant flags.groups == PresentGroups(gs)[..i]
    {
      flags.Mark(i, !gs[i].Absent?);
    }
  }

  /** What is left of the contents from index i on. */
  ghost function Rest(c: Contents, i: nat): Contents
    requires c.Contents? ==> i <= |c.inners|
  {
    if c.Contents? then Contents(c.inners[i..]) else c
  }

  method PackGroups(bref: BitRef, groups: seq<Schema>, gs: seq<Value>, aligned: bool) returns (code: Code)
    requires bref.Valid() && |groups| == |gs| && EncodeContents(groups, gs, aligned) != NoContents(EncodeUndefined)
    modifies bref
    ensures bref.Valid()
    ensures match EncodeContents(groups, gs, aligned)
            case Contents(inners) =>
              && code == Success
              && bref.bits == old(bref.bits) + FieldsBits(PresentGroups(gs), inners, 0, |gs|, |old(bref.bits)|)
            case NoContents(_) => code == EncodeFail && old(bref.bits) <= bref.bits
    decreases groups, 2, 0
  {
    hide Encode, EncodeContents, OpenFieldBits;
    ghost var before, c, present := bref.bits, EncodeContents(groups, gs, aligned), PresentGroups(gs);
    assert groups[0..] == groups && gs[0..] == gs;
    for i := 0 to |gs|
      invariant bref.Valid() && before <= bref.bits
      invariant EncodeContents(groups[i..], gs[i..], aligned) == Rest(c, i)
      invariant c.Contents? ==>
                  bref.bits + FieldsBits(present, c.inners, i, |gs|, |bref.bits|)
                  == before + FieldsBits(present, c.inners, 0, |gs|, |before|)
    {
      assert groups[i..][1..] == groups[i + 1..] && gs[i..][1..] == gs[i + 1..];
      ContentsStep(groups[i..], gs[i..], aligned);
      ghost var b := bref.bits;
      if !gs[i].Absent? {
        code := PackOpen(bref, groups[i], gs[i], aligned, false);
        if code != Success {
          return;
        }
        if c.Contents? {
          assert c.inners[i] == c.inners[i..][0];
          ghost var field := OpenFieldBits(c.inners[i], false, |b|);
          assert b + (field + FieldsBits(present, c.inners, i + 1, |gs|, |b| + |field|))
              == bref.bits + FieldsBits(present, c.inners, i + 1, |gs|, |bref.bits|);
        }
      }
      if c.Contents? { assert c.inners[i..][1..] == c.inners[i + 1..]; }
    }
    ContentsStep(groups[|gs|..], gs[|gs|..], aligned);
    code := Success;
  }

  lemma ContentsStep(groups: seq<Schema>, gs: seq<Value>, aligned: bool)
    requires |groups| == |gs|
    ensures EncodeContents(groups, gs, aligned)
         == if groups == [] then Contents([])
            else
              var e := if gs[0].Absent? then Encoded([]) else Encode(groups[0], gs[0], aligned, 0);
              var rest := EncodeContents(groups[1..], gs[1..], aligned);
              if !e.Encoded? then NoContents(e)
              else if rest.Contents? then Contents([e.bits] + rest.inners) else rest
  {
    hide Encode;
  }

  // Unpacking.

  /** Values decoded ahead of the outcome for the rest. */
  ghost function Onto(done: seq<Value>, d: Decoding<seq<Value>>): Decoding<seq<Value>> {
    if d.Decoded? then Decoded(done + d.value, d.pos) else d
  }

  lemma OntoNothing(d: Decoding<seq<Value>>)
    ensures Onto([], d) == d
  {
    if d.Decoded? { assert [] + d.value == d.value; }
  }

  lemma OntoOnto(a: seq<Value>, b: seq<Value>, d: Decoding<seq<Value>>)
    ensures Onto(a, Onto(b, d)) == Onto(a + b, d)
  {
    if d.Decoded? { assert a + (b + d.value) == a + b + d.value; }
  }

  method UnpackMessage(bref: CBitRef, schema: Schema, aligned: bool) returns (r: Result<Value>)
    requires bref.Valid() && Decode(schema, bref.stream, bref.pos, aligned) != DecodeUndefined
    modifies bref
    ensures bref.Valid() && Consumed(bref.pos, r, Decode(schema, bref.stream, old(bref.pos), aligned))
    decreases schema, 1, 0
  {
    hide DecodeSequence, DecodeItems;
    match schema
    case Atom(leaf) =>
      var d := UnpackLeaf(bref, leaf, aligned);
      r := if d.Ok? then Ok(Single(d.value)) else Fail;
    case SequenceOf(lb, ub, elem) =>
      var n := UnpackBoundedLength(bref, lb, ub, aligned);
      if n.Fail? {
        return Fail;
      }
      var items := UnpackItems(bref, elem, n.value, aligned);
      r := if items.Ok? then Ok(List(items.value)) else Fail;
    case Choice(alternatives) =>
      var i := UnpackEnum(bref, |alternatives|, 0, false);
      if i.Fail? || i.value >= |alternatives| {
        return Fail;
      }
      var w := UnpackMessage(bref, alternatives[i.value], aligned);
      r := if w.Ok? then Ok(Chosen(i.value, w.value)) else Fail;
    case Open(content) =>
      r := UnpackOpen(bref, content, aligned, aligned);
    case Sequence(_, _, _) =>
      r := UnpackSequence(bref, schema, aligned);
  }

  /** The content of a field is read in place, and the field is closed on success and on
      failure. */
  method UnpackOpen(bref: CBitRef, content: Schema, aligned: bool, align: bool) returns (r: Result<Value>)
    requires bref.Valid() && DecodeOpen(content, bref.stream, bref.pos, aligned, align) != DecodeUndefined
    modifies bref
    ensures bref.Valid() && Consumed(bref.pos, r, DecodeOpen(content, bref.stream, old(bref.pos), aligned, align))
    decreases content, 2, 0
  {
    hide Decode, SkipRest;
    LengthNeverRejects(bref.stream, bref.pos, align);
    SkipNeverRejects(bref.stream);
    var scope := new VarlengthFieldUnpackGuard(bref, align);
    r := UnpackMessage(bref, content, aligned);
    scope.Close();
  }

  /** The return code of the length is ignored. */
  lemma LengthNeverRejects(s: seq<bool>, pos: nat, align: bool)
    ensures !LengthOut(s, pos, align).Rejected?
  {
  }

  lemma SkipNeverRejects(s: seq<bool>)
    ensures forall start: nat, len: nat, p: nat :: !SkipRest(s, start, len, p).Rejected?
  {
    forall start: nat, len: nat, p: nat ensures !SkipRest(s, start, len, p).Rejected? {
      var n := (8 * len - (p - start)) % TWO32;
    }
  }

  method UnpackItems(bref: CBitRef, elem: Schema, n: nat, aligned: bool) returns (r: Result<seq<Value>>)
    requires bref.Valid() && DecodeItems(elem, bref.stream, bref.pos, n, aligned) != DecodeUndefined
    modifies bref
    ensures bref.Valid() && Consumed(bref.pos, r, DecodeItems(elem, bref.stream, old(bref.pos), n, aligned))
    decreases elem, 2, 0
  {
    hide Decode;
    var items: seq<Value> := [];
    ghost var s, all := bref.stream, DecodeItems(elem, bref.stream, bref.pos, n, aligned);
    OntoNothing(all);
    for i := 0 to n
      invariant bref.Valid() && all == Onto(items, DecodeItems(elem, s, bref.pos, n - i, aligned))
    {
      ghost var v := Decode(elem, s, bref.pos, aligned);
      var item := UnpackMessage(bref, elem, aligned);
      if item.Fail? {
        return Fail;
      }
      OntoOnto(items, [item.value], DecodeItems(elem, s, bref.pos, n - i - 1, aligned));
      items := items + [item.value];
    }
    assert items + [] == items;
    return Ok(items);
  }

  method UnpackFlags(bref: CBitRef, n: nat) returns (flags: seq<bool>)
    requires bref.Valid() && ReadFlags(bref.stream, bref.pos, n).Decoded?
    modifies bref
    ensures bref.Valid() && ReadFlags(bref.stream, old(bref.pos), n) == Decoded(flags, bref.pos)
  {
    flags := [];
    ghost var p := bref.pos;
    for i := 0 to n
      invariant bref.Valid() && bref.pos == p + i && flags == bref.stream[p..p + i]
    {
      ReadBit(bref.stream, p + i);
      var flag := bref.Unpack(1);
      flags := flags + [flag == 1];
    }
  }

  method UnpackFields(bref: CBitRef, fields: seq<Field>, flags: seq<bool>,
                      aligned: bool) returns (r: Result<seq<Value>>)
    requires bref.Valid() && |flags| == CountOptional(fields)
    requires DecodeFields(fields, flags, bref.stream, bref.pos, aligned) != DecodeUndefined
    modifies bref
    ensures bref.Valid() && Consumed(bref.pos, r, DecodeFields(fields, flags, bref.stream, old(bref.pos), aligned))
    decreases fields, 2, 0
  {
    hide Decode;
    var vs: seq<Value> := [];
    var k := 0;
    ghost var s, all := bref.stream, DecodeFields(fields, flags, bref.stream, bref.pos, aligned);
    assert fields[0..] == fields && flags[0..] == flags;
    OntoNothing(all);
    for i := 0 to |fields|
      invariant bref.Valid() && k <= |flags| && |flags[k..]| == CountOptional(fields[i..])
      invariant all == Onto(vs, DecodeFields(fields[i..], flags[k..], s, bref.pos, aligned))
    {
      assert fields[i..][1..] == fields[i + 1..];
      var present := true;
      ghost var rest := flags[k..];
      if fields[i].optional {
        assert rest[0] == flags[k] && rest[1..] == flags[k + 1..];
        present := flags[k];
        k := k + 1;
      }
      if present {
        assert fields[i].schema < fields[i];
        var v := UnpackMessage(bref, fields[i].schema, aligned);
        if v.Fail? {
          return Fail;
        }
        OntoOnto(vs, [v.value], DecodeFields(fields[i + 1..], flags[k..], s, bref.pos, aligned));
        vs := vs + [v.value];
      } else {
        OntoOnto(vs, [Absent], DecodeFields(fields[i + 1..], flags[k..], s, bref.pos, aligned));
        vs := vs + [Absent];
      }
    }
    assert vs + [] == vs;
    return Ok(vs);
  }

  method UnpackSequence(bref: CBitRef, schema: Schema, aligned: bool) returns (r: Result<Value>)
    requires bref.Valid() && schema.Sequence?
    requires DecodeSequence(schema, bref.stream, bref.pos, aligned) != DecodeUndefined
    modifies bref
    ensures bref.Valid() && Consumed(bref.pos, r, DecodeSequence(schema, bref.stream, old(bref.pos), aligned))
    decreases schema, 0, 0
  {
    hide DecodeFields, DecodeGroups, DecodeFlags, FlagsRead, SkipUnknown;
    var Sequence(fields, extensible, groups) := schema;
    var ext := UnpackFlags(bref, if extensible then 1 else 0);
    var flags := UnpackFlags(bref, CountOptional(fields));
    var vs := UnpackFields(bref, fields, flags, aligned);
    if vs.Fail? {
      return Fail;
    }
    if ext != [true] || groups == [] {
      return Ok(Record(vs.value, ext == [true], AllAbsent(|groups|)));
    }
    var present := new ExtGroupsUnpackerGuard(|groups|, bref);
    FlagsDefined(bref.stream, bref.pos, |groups|);
    var ignored := present.Unpack();
    var gs := UnpackGroups(bref, groups, present.groups, aligned);
    SkipUnknownNeverRejects(bref.stream, bref.pos, present.groups, |groups|, present.unpacked);
    present.Close();
    return if gs.Ok? then Ok(Record(vs.value, true, gs.value)) else Fail;
  }

  /** With the return code ignored, reading flags is undefined only where decoding them is. */
  lemma FlagsDefined(s: seq<bool>, pos: nat, supported: nat)
    ensures !FlagsRead(s, pos, supported).Rejected?
    ensures FlagsRead(s, pos, supported) == DecodeUndefined <==> DecodeFlags(s, pos, supported) == DecodeUndefined
  {
  }

  lemma {:induction false} SkipUnknownNeverRejects(s: seq<bool>, pos: nat, groups: seq<bool>, i: nat, n: nat)
    requires n <= |groups|
    ensures !SkipUnknown(s, pos, groups, i, n).Rejected?
    decreases n - i
  {
    hide SkipRest;
    if i < n {
      LengthNeverRejects(s, pos, false);
      SkipNeverRejects(s);
      if groups[i] {
        var len := LengthOut(s, pos, false);
        if len.Decoded? {
          var d := SkipRest(s, len.pos, len.value.0, len.pos);
          if d.Decoded? { SkipUnknownNeverRejects(s, d.pos, groups, i + 1, n); }
        }
      } else {
        SkipUnknownNeverRejects(s, pos, groups, i + 1, n);
      }
    }
  }

  method UnpackGroups(bref: CBitRef, groups: seq<Schema>, flags: seq<bool>,
                      aligned: bool) returns (r: Result<seq<Value>>)
    requires bref.Valid() && |groups| <= |flags|
    requires DecodeGroups(groups, flags, 0, bref.stream, bref.pos, aligned) != DecodeUndefined
    modifies bref
    ensures bref.Valid() && Consumed(bref.pos, r, DecodeGroups(groups, flags, 0, bref.stream, old(bref.pos), aligned))
    decreases groups, 2, 0
  {
    hide Decode, SkipRest;
    var gs: seq<Value> := [];
    ghost var s, all := bref.stream, DecodeGroups(groups, flags, 0, bref.stream, bref.pos, aligned);
    OntoNothing(all);
    for i := 0 to |groups|
      invariant bref.Valid() && all == Onto(gs, DecodeGroups(groups, flags, i, s, bref.pos, aligned))
    {
      if flags[i] {
        ghost var d := DecodeOpen(groups[i], s, bref.pos, aligned, false);
        var g := UnpackOpen(bref, groups[i], aligned, false);
        if g.Fail? {
          return Fail;
        }
        OntoOnto(gs, [g.value], DecodeGroups(groups, flags, i + 1, s, bref.pos, aligned));
        gs := gs + [g.value];
      } else {
        OntoOnto(gs, [Absent], DecodeGroups(groups, flags, i + 1, s, bref.pos, aligned));
        gs := gs + [Absent];
      }
    }
    assert gs + [] == gs;
    return Ok(gs);
  }

  // Packing, unpacking and packing again.

  lemma {:induction false} SameBytes(a: seq<byte>, b: seq<byte>)
    requires BytesBits(a) == BytesBits(b)
    ensures a == b
  {
    forall i | 0 <= i < |a| ensures a[i] == b[i] {
      BytesBitsWindow(a, i, 0, 8);
      BytesBitsWindow(b, i, 0, 8);
      Pow2Values();
      NotationUnique(a[i], b[i], 8);
    }
  }

  /** The repository's own consistency test succeeds on every deliverable message that can
      be packed, in either variant. */
  method TestPackUnpackConsistency(schema: Schema, msg: Value, aligned: bool) returns (code: Code)
    requires Encode(schema, msg, aligned, 0) != EncodeUndefined && Deliverable(schema, msg, aligned, 0)
    ensures code == Success <==> Supported(schema, msg, aligned) && InBounds(schema, msg, aligned)
  {
    hide Encode, Decode, Deliverable, Supported, InBounds, Size;
    WritesExactly(schema, msg, aligned, 0);
    var bref := new BitRef();
    var bref3 := new BitRef();
    code := PackMessage(bref, schema, msg, aligned);
    if code != Success {
      return EncodeFail;
    }
    ghost var bits := Encode(schema, msg, aligned, 0).bits;
    assert bref.bits == bits;
    var bref2 := new CBitRef(bref.writer);
    bref.BufferBits();
    assert At(bref2.stream, 0, bits);
    RoundTrip(schema, msg, aligned, bref2.stream, 0);
    var msg2 := UnpackMessage(bref2, schema, aligned);
    if msg2.Fail? {
      return DecodeFail;
    }
    code := PackMessage(bref3, schema, msg2.value, aligned);
    if code != Success {
      return EncodeFail;
    }
    assert bref3.bits == bits;
    bref3.BufferBits();
    SameBytes(bref.writer, bref3.writer);
    var d := bref.Distance();
    var d2 := bref2.Distance();
    var d3 := bref3.Distance();
    if d3 != d2 || d3 != d || bref.writer != bref3.writer {
      return EncodeFail;
    }
    return Success;
  }
}
