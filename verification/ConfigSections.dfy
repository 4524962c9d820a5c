/** Reading a configuration file: section headers become items named `++` and `--`, which
    open and close the sections on the path from one header to the next. */
module ConfigSections {
  import opened Options

  /** A section path, or an entry with its value. */
  datatype ConfigItem = ConfigItem(parents: seq<string>, name: string, inputs: seq<string>)

  /** A line of the file, after its text has been taken apart: the header of a section
      with its path of one or more names, a header that returns to the default section, an entry with its
      parents, or a line without effect. */
  datatype Line =
    | Header(top: string, below: seq<string>)
    | DefaultHeader
    | Entry(parents: seq<string>, name: string, inputs: seq<string>)
    | Skipped

  const OPEN := "++"
  const CLOSE := "--"

  function Opening(path: seq<string>): ConfigItem {
    ConfigItem(path, OPEN, [])
  }

  function Closing(path: seq<string>): ConfigItem {
    ConfigItem(path, CLOSE, [])
  }

  function Init<T>(s: seq<T>): seq<T>
    requires s != []
  {
    s[..|s| - 1]
  }

  function Last<T>(s: seq<T>): T
    requires s != []
  {
    s[|s| - 1]
  }

  // What the reader emits.

  /** The length of the longest common prefix. */
  function Common(p: seq<string>, q: seq<string>): (n: nat)
    ensures n <= |p| && n <= |q| && p[..n] == q[..n]
    ensures n < |p| && n < |q| ==> p[n] != q[n]
  {
    if p == [] || q == [] || p[0] != q[0] then 0 else 1 + Common(p[1..], q[1..])
  }

  /** A closing item and those of its ancestors deeper than c, innermost first. */
  function Closes(item: ConfigItem, c: nat): seq<ConfigItem>
    decreases |item.parents|
  {
    if |item.parents| <= c then [] else [item] + Closes(item.(parents := Init(item.parents)), c)
  }

  /** Opening items for the prefixes of a path longer than c, outermost first. */
  function Opens(path: seq<string>, c: nat): seq<ConfigItem>
    decreases |path| - c
  {
    if c >= |path| then [] else [Opening(path[..c + 1])] + Opens(path, c + 1)
  }

  predicate EndsClosed(output: seq<ConfigItem>) {
    output != [] && Last(output).name == CLOSE
  }

  /** Entering a section. Behind a closing item, sections are closed only down to the
      common ancestor; a closing item that turns out to be one is taken back. */
  function Enter(output: seq<ConfigItem>, path: seq<string>): seq<ConfigItem>
    requires path != []
  {
    if EndsClosed(output) then
      var last := Last(output);
      var c := Common(last.parents, Init(path));
      (if last.parents == [] && |path| == 1 then output else Init(output) + Closes(last, c)) + Opens(path, c)
    else
      output + Opens(path, 0)
  }

  /** The output so far and the path of the current section, empty for the default one. */
  datatype Reader = Reader(output: seq<ConfigItem>, current: seq<string>)

  function Leave(r: Reader): seq<ConfigItem> {
    if r.current == [] then r.output else r.output + [Closing(r.current)]
  }

  function Add(output: seq<ConfigItem>, item: ConfigItem): seq<ConfigItem> {
    if output != [] && item.name == Last(output).name && item.parents == Last(output).parents
    then Init(output) + [Last(output).(inputs := Last(output).inputs + item.inputs)]
    else output + [item]
  }

  function ReadLine(r: Reader, line: Line): Reader {
    match line
    case Header(top, below) => Reader(Enter(Leave(r), [top] + below), [top] + below)
    case DefaultHeader => Reader(Leave(r), [])
    case Entry(parents, name, inputs) => Reader(Add(r.output, ConfigItem(parents, name, inputs)), r.current)
    case Skipped => r
  }

  function ReadLines(r: Reader, lines: seq<Line>): Reader
    decreases |lines|
  {
    if lines == [] then r else ReadLines(ReadLine(r, lines[0]), lines[1..])
  }

  function Finish(r: Reader): seq<ConfigItem> {
    if r.current == [] then r.output else r.output + Closes(Closing(r.current), 0)
  }

  function FromConfig(lines: seq<Line>): seq<ConfigItem> {
    Finish(ReadLines(Reader([], []), lines))
  }

  // What the items mean to their consumer.

  /** The section that is open after an item, if the item is legal: only a child of the
      open section can be opened, and only the open section closed. */
  function Move(at: seq<string>, item: ConfigItem): Option<seq<string>> {
    var p := item.parents;
    if item.name == OPEN then
      if p != [] && Init(p) == at then Some(p) else None
    else if item.name == CLOSE then
      if p != [] && p == at then Some(Init(p)) else None
    else
      Some(at)
  }

  function Walk(items: seq<ConfigItem>): Option<seq<string>> {
    if items == [] then Some([])
    else
      match Walk(Init(items))
      case None => None
      case Some(at) => Move(at, Last(items))
  }

  lemma WalkOn(items: seq<ConfigItem>, item: ConfigItem)
    ensures Walk(items + [item]) == if Walk(items).None? then None else Move(Walk(items).value, item)
  {
    assert Init(items + [item]) == items;
  }

  lemma {:induction false} WalkStuck(items: seq<ConfigItem>, more: seq<ConfigItem>)
    requires Walk(items).None?
    ensures Walk(items + more).None?
    decreases |more|
  {
    if more == [] {
      assert items + more == items;
    } else {
      WalkOn(items, more[0]);
      WalkStuck(items + [more[0]], more[1..]);
      assert items + more == items + [more[0]] + more[1..];
    }
  }

  lemma {:induction false} WalkCloses(items: seq<ConfigItem>, item: ConfigItem, c: nat)
    requires item.name == CLOSE && c <= |item.parents| && Walk(items) == Some(item.parents)
    ensures Walk(items + Closes(item, c)) == Some(item.parents[..c])
    decreases |item.parents|
  {
    hide Walk;
    var q := item.parents;
    if |q| == c {
      assert items + [] == items && q[..c] == q;
    } else {
      var up := item.(parents := Init(q));
      WalkOn(items, item);
      WalkCloses(items + [item], up, c);
      assert items + Closes(item, c) == items + [item] + Closes(up, c);
      assert Init(q)[..c] == q[..c];
    }
  }

  lemma {:induction false} WalkOpens(items: seq<ConfigItem>, path: seq<string>, c: nat)
    requires c <= |path| && Walk(items) == Some(path[..c])
    ensures Walk(items + Opens(path, c)) == Some(path)
    decreases |path| - c
  {
    hide Walk;
    if c == |path| {
      assert items + [] == items && path[..c] == path;
    } else {
      var p := path[..c + 1];
      assert Init(p) == path[..c];
      WalkOn(items, Opening(p));
      WalkOpens(items + [Opening(p)], path, c + 1);
      assert items + Opens(path, c) == items + [Opening(p)] + Opens(path, c + 1);
    }
  }

  /** Behind the closing item of the open section, entering leads to the new section. */
  lemma WalkEnter(output: seq<ConfigItem>, path: seq<string>)
    requires path != [] && EndsClosed(output) && Walk(output).Some?
    ensures Walk(Enter(output, path)) == Some(path)
  {
    var before, last := Init(output), Last(output);
    var c := Common(last.parents, Init(path));
    WalkCloses(before, last, c);
    assert last.parents[..c] == Init(path)[..c] == path[..c];
    WalkOpens(before + Closes(last, c), path, c);
  }

  lemma WalkEnterDefault(output: seq<ConfigItem>, path: seq<string>)
    requires path != [] && !EndsClosed(output)
    ensures Walk(output) == Some([]) ==> Walk(Enter(output, path)) == Some(path)
    ensures Walk(output) != Some([]) ==> Walk(Enter(output, path)).None?
  {
    if Walk(output) == Some([]) {
      WalkOpens(output, path, 0);
    } else {
      assert Opens(path, 0) == [Opening(path[..1])] + Opens(path, 1);
      WalkOn(output, Opening(path[..1]));
      WalkStuck(output + [Opening(path[..1])], Opens(path, 1));
      assert output + Opens(path, 0) == output + [Opening(path[..1])] + Opens(path, 1);
    }
  }

  /** Entries do not move. */
  lemma WalkAdd(output: seq<ConfigItem>, item: ConfigItem)
    requires item.name != OPEN && item.name != CLOSE
    ensures Walk(Add(output, item)) == Walk(output) && !EndsClosed(Add(output, item))
  {
    if output != [] && item.name == Last(output).name && item.parents == Last(output).parents {
      assert output == Init(output) + [Last(output)];
      WalkOn(Init(output), Last(output));
      WalkOn(Init(output), Last(output).(inputs := Last(output).inputs + item.inputs));
    } else {
      WalkOn(output, item);
    }
  }

  // When the walk is properly nested.

  /** No entry is named like a section item. */
  predicate PlainNames(lines: seq<Line>) {
    forall i | 0 <= i < |lines| && lines[i].Entry? :: lines[i].name != OPEN && lines[i].name != CLOSE
  }

  /** The next section header comes before any entry. */
  predicate Reentered(lines: seq<Line>) {
    lines != [] && !lines[0].Entry? && (lines[0].Header? || Reentered(lines[1..]))
  }

  /** Every return to the default section is from a top-level section, or is followed by
      a section header before any entry. */
  predicate Balanced(lines: seq<Line>, current: seq<string>)
    decreases |lines|
  {
    lines != [] ==>
      match lines[0]
      case Header(top, below) => Balanced(lines[1..], [top] + below)
      case DefaultHeader => (|current| >= 2 ==> Reentered(lines[1..])) && Balanced(lines[1..], [])
      case _ => Balanced(lines[1..], current)
  }

  /** The output ends in the closing item of a section whose ancestors are still open. */
  predicate Pending(r: Reader) {
    r.current == [] && EndsClosed(r.output) && Walk(r.output).Some? && Walk(r.output) != Some([])
  }

  /** Exactly the current section and its ancestors are open. */
  predicate InStep(r: Reader) {
    Walk(r.output) == Some(r.current)
  }

  lemma StepInStep(r: Reader, line: Line)
    requires InStep(r) && PlainNames([line])
    ensures var t := ReadLine(r, line);
            if line.DefaultHeader? && |r.current| >= 2 then Pending(t) else InStep(t)
  {
    match line
    case Header(top, below) =>
      if r.current == [] {
        if EndsClosed(r.output) { WalkEnter(r.output, [top] + below); }
        else { WalkEnterDefault(r.output, [top] + below); }
      } else {
        WalkOn(r.output, Closing(r.current));
        WalkEnter(Leave(r), [top] + below);
      }
    case DefaultHeader => WalkOn(r.output, Closing(r.current));
    case Entry(parents, name, inputs) =>
      assert [line][0].name == name;
      WalkAdd(r.output, ConfigItem(parents, name, inputs));
    case Skipped =>
  }

  lemma StepPending(r: Reader, line: Line)
    requires Pending(r) && !line.Entry?
    ensures var t := ReadLine(r, line); if line.Header? then InStep(t) else Pending(t)
  {
    if line.Header? { WalkEnter(r.output, [line.top] + line.below); }
  }

  /** In a balanced file, wherever an entry stands, exactly the section it stands in and
      the ancestors of that section are open; at the end nothing is. */
  lemma {:induction false} BalancedWalk(r: Reader, lines: seq<Line>)
    requires PlainNames(lines) && Balanced(lines, r.current)
    requires InStep(r) || (Pending(r) && Reentered(lines))
    ensures Walk(Finish(ReadLines(r, lines))) == Some([])
    ensures forall k | 0 <= k < |lines| && lines[k].Entry? :: InStep(ReadLines(r, lines[..k]))
    decreases |lines|
  {
    if lines == [] {
      WalkCloses(r.output, Closing(r.current), 0);
    } else {
      var t := ReadLine(r, lines[0]);
      assert PlainNames([lines[0]]) by { assert forall i | 0 <= i < 1 :: [lines[0]][i] == lines[i]; }
      if InStep(r) { StepInStep(r, lines[0]); } else { StepPending(r, lines[0]); }
      BalancedWalk(t, lines[1..]);
      forall k | 0 <= k < |lines| && lines[k].Entry? ensures InStep(ReadLines(r, lines[..k])) {
        if k > 0 {
          assert lines[..k][1..] == lines[1..][..k - 1] && lines[1..][k - 1] == lines[k];
        }
      }
    }
  }

  /** The walk is stuck, and stays stuck if a closing item at the end is taken back. */
  predicate Broken(r: Reader) {
    Walk(r.output).None? && (EndsClosed(r.output) ==> Walk(Init(r.output)).None?)
  }

  /** Ancestors of a section were left open and an entry of the default section follows. */
  predicate Stranded(r: Reader) {
    r.current == [] && !EndsClosed(r.output) && Walk(r.output).Some? && Walk(r.output) != Some([])
  }

  lemma StepBroken(r: Reader, line: Line)
    requires Broken(r) && PlainNames([line])
    ensures Broken(ReadLine(r, line))
  {
    match line
    case Header(top, below) => BrokenEnter(Leave(r), [top] + below) by { BrokenLeave(r); }
    case DefaultHeader => BrokenLeave(r);
    case Entry(parents, name, inputs) =>
      assert [line][0].name == name;
      WalkAdd(r.output, ConfigItem(parents, name, inputs));
    case Skipped =>
  }

  lemma BrokenLeave(r: Reader)
    requires Broken(r)
    ensures Broken(r.(output := Leave(r)))
  {
    if r.current != [] {
      WalkOn(r.output, Closing(r.current));
      assert Init(Leave(r)) == r.output;
    }
  }

  lemma BrokenEnter(output: seq<ConfigItem>, path: seq<string>)
    requires path != [] && Broken(Reader(output, []))
    ensures Broken(Reader(Enter(output, path), path))
  {
    hide Walk, Common, Closes, Opens;
    if EndsClosed(output) {
      var last := Last(output);
      var c := Common(last.parents, Init(path));
      OpensLast(path, c);
      if last.parents == [] && |path| == 1 {
        WalkStuck(output, Opens(path, c));
      } else {
        WalkStuck(Init(output), Closes(last, c) + Opens(path, c));
        assert Init(output) + (Closes(last, c) + Opens(path, c)) == Enter(output, path);
      }
    } else {
      OpensLast(path, 0);
      WalkStuck(output, Opens(path, 0));
    }
  }

  lemma {:induction false} OpensLast(path: seq<string>, c: nat)
    requires c < |path|
    ensures Opens(path, c) != [] && Last(Opens(path, c)) == Opening(path)
    decreases |path| - c
  {
    if c + 1 < |path| { OpensLast(path, c + 1); } else { assert path[..c + 1] == path; }
  }

  lemma {:induction false} BrokenWalk(r: Reader, lines: seq<Line>)
    requires Broken(r) && PlainNames(lines)
    ensures Walk(Finish(ReadLines(r, lines))).None?
    decreases |lines|
  {
    if lines == [] {
      WalkStuck(r.output, Closes(Closing(r.current), 0));
    } else {
      assert PlainNames([lines[0]]) by { assert forall i | 0 <= i < 1 :: [lines[0]][i] == lines[i]; }
      StepBroken(r, lines[0]);
      BrokenWalk(ReadLine(r, lines[0]), lines[1..]);
    }
  }

  lemma {:induction false} StrandedWalk(r: Reader, lines: seq<Line>)
    requires Stranded(r) && PlainNames(lines)
    ensures Walk(Finish(ReadLines(r, lines))) != Some([])
    decreases |lines|
  {
    if lines != [] {
      var t := ReadLine(r, lines[0]);
      match lines[0]
      case Header(top, below) =>
        var path := [top] + below;
        WalkEnterDefault(r.output, path);
        OpensLast(path, 0);
        assert Last(t.output) == Opening(path);
        BrokenWalk(t, lines[1..]);
      case Entry(parents, name, inputs) =>
        WalkAdd(r.output, ConfigItem(parents, name, inputs));
        StrandedWalk(t, lines[1..]);
      case _ => StrandedWalk(t, lines[1..]);
    }
  }

  lemma {:induction false} PendingWalk(r: Reader, lines: seq<Line>)
    requires Pending(r) && PlainNames(lines) && !Reentered(lines)
    ensures Walk(Finish(ReadLines(r, lines))) != Some([])
    decreases |lines|
  {
    if lines != [] {
      var t := ReadLine(r, lines[0]);
      if lines[0].Entry? {
        WalkAdd(r.output, ConfigItem(lines[0].parents, lines[0].name, lines[0].inputs));
        StrandedWalk(t, lines[1..]);
      } else {
        StepPending(r, lines[0]);
        PendingWalk(t, lines[1..]);
      }
    }
  }

  lemma {:induction false} UnbalancedWalk(r: Reader, lines: seq<Line>)
    requires PlainNames(lines) && !Balanced(lines, r.current)
    requires InStep(r) || Pending(r)
    ensures Walk(Finish(ReadLines(r, lines))) != Some([])
    decreases |lines|
  {
    var t := ReadLine(r, lines[0]);
    assert PlainNames([lines[0]]) by { assert forall i | 0 <= i < 1 :: [lines[0]][i] == lines[i]; }
    if InStep(r) {
      StepInStep(r, lines[0]);
      if Pending(t) && !Reentered(lines[1..]) {
        PendingWalk(t, lines[1..]);
      } else {
        UnbalancedWalk(t, lines[1..]);
      }
    } else if lines[0].Entry? {
      PendingWalk(r, lines);
    } else {
      StepPending(r, lines[0]);
      UnbalancedWalk(t, lines[1..]);
    }
  }

  /** The section items of a file form a properly nested walk that ends with nothing open
      if and only if the file is balanced. */
  lemma NestedIffBalanced(lines: seq<Line>)
    requires PlainNames(lines)
    ensures Walk(FromConfig(lines)) == Some([]) <==> Balanced(lines, [])
  {
    if Balanced(lines, []) {
      BalancedWalk(Reader([], []), lines);
    } else {
      UnbalancedWalk(Reader([], []), lines);
    }
  }

  /** A file without a header of the default section is balanced. */
  lemma {:induction false} NoDefaultHeader(lines: seq<Line>, current: seq<string>)
    requires forall i | 0 <= i < |lines| :: !lines[i].DefaultHeader?
    ensures Balanced(lines, current)
    decreases |lines|
  {
    if lines != [] {
      NoDefaultHeader(lines[1..], if lines[0].Header? then [lines[0].top] + lines[0].below else current);
    }
  }

  // The reader, which appends to and takes back from its output.

  class Output {
    var items: seq<ConfigItem>

    constructor ()
      ensures items == []
    {
      items := [];
    }

    /** Repeats the last item, with one parent less, while it has n parents or more. */
    method CloseDownTo(n: nat, ghost c: nat)
      requires items != [] && n >= 1 && c < n
      modifies this
      ensures items != [] && Init(items) + Closes(Last(items), c) == old(Init(items) + Closes(Last(items), c))
      ensures |old(Last(items).parents)| < n ==> items == old(items)
      ensures |Last(items).parents| == if |old(Last(items).parents)| < n then |old(Last(items).parents)| else n - 1
      ensures Last(items).parents <= old(Last(items).parents)
    {
      while |Last(items).parents| >= n
        invariant items != [] && (|old(Last(items).parents)| < n ==> items == old(items))
        invariant Init(items) + Closes(Last(items), c) == old(Init(items) + Closes(Last(items), c))
        invariant Last(items).parents <= old(Last(items).parents)
        invariant |Last(items).parents| == |old(Last(items).parents)| || |Last(items).parents| >= n - 1
        decreases |Last(items).parents|
      {
        ghost var before := items;
        items := items + [Last(items).(parents := Init(Last(items).parents))];
        assert Init(items) == Init(before) + [Last(before)];
      }
    }

    method OpenFrom(path: seq<string>, c: nat)
      requires c < |path|
      modifies this
      ensures items == old(items) + Opens(path, c)
    {
      assert Opens(path, c) == [] + Opens(path, c);
      for i := c to |path| - 1
        invariant items + Opens(path, i) == old(items) + Opens(path, c)
      {
        items := items + [Opening(path[..i + 1])];
      }
      assert path[..|path|] == path && Opens(path, |path|) == [];
      items := items + [Opening(path)];
    }

    method CheckParentSegments(path: seq<string>)
      requires path != []
      modifies this
      ensures items == Enter(old(items), path)
    {
      if |items| > 0 && Last(items).name == CLOSE {
        var start := ReturnToCommon(path);
        OpenFrom(path, start);
      } else {
        OpenFrom(path, 0);
      }
    }

    method ReturnToCommon(path: seq<string>) returns (common: nat)
      requires path != [] && EndsClosed(items)
      modifies this
      ensures common == Common(old(Last(items).parents), Init(path))
      ensures var last := old(Last(items));
              items == if last.parents == [] && |path| == 1 then old(items) else old(Init(items)) + Closes(last, common)
    {
      hide Common, Closes;
      ghost var last := Last(items);
      ghost var c := Common(last.parents, Init(path));
      CloseDownTo(if |path| > 1 then |path| else 2, c);
      common := 0;
      if |path| > 1 {
        ghost var back := Last(items);
        var m := Min(|Last(items).parents|, |path| - 1);
        common := CountCommon(Last(items).parents, path, m);
        PrefixCommon(last.parents, back.parents, Init(path));
        if common == m {
          items := Init(items);
          ClosesOne(back, c);
          return;
        }
        CloseDownTo(common + 2, c);
      }
      ClosesOne(Last(items), c);
    }
  }

  function Min(a: nat, b: nat): nat {
    if a < b then a else b
  }

  method CountCommon(q: seq<string>, path: seq<string>, m: nat) returns (common: nat)
    requires path != [] && m == Min(|q|, |path| - 1)
    ensures common == Common(q, Init(path))
  {
    common := 0;
    while common < m && q[common] == path[common]
      invariant common <= m && q[..common] == Init(path)[..common]
    {
      common := common + 1;
    }
    CommonUnique(q, Init(path), common);
  }

  /** Shortening a path to the length of another does not change what they share. */
  lemma PrefixCommon(p: seq<string>, q: seq<string>, r: seq<string>)
    requires q <= p && |q| == Min(|p|, |r|)
    ensures Common(p, r) == Common(q, r)
  {
    var c := Common(q, r);
    assert p[..c] == q[..c];
    CommonUnique(p, r, c);
  }

  /** Reads a file line by line. */
  method ReadConfig(lines: seq<Line>) returns (items: seq<ConfigItem>)
    ensures items == FromConfig(lines)
  {
    var output := new Output();
    var current: seq<string> := [];
    assert lines[0..] == lines;
    for i := 0 to |lines|
      invariant ReadLines(Reader(output.items, current), lines[i..]) == ReadLines(Reader([], []), lines)
    {
      assert lines[i..][1..] == lines[i + 1..];
      match lines[i]
      case Header(top, below) =>
        if current != [] {
          output.items := output.items + [Closing(current)];
        }
        current := [top] + below;
        output.CheckParentSegments(current);
      case DefaultHeader =>
        if current != [] {
          output.items := output.items + [Closing(current)];
        }
        current := [];
      case Entry(parents, name, inputs) =>
        output.items := Add(output.items, ConfigItem(parents, name, inputs));
      case Skipped =>
    }
    if current != [] {
      ghost var before := output.items;
      output.items := output.items + [Closing(current)];
      assert Init(output.items) == before;
      output.CloseDownTo(2, 0);
      ClosesOne(Last(output.items), 0);
    }
    items := output.items;
  }

  lemma {:induction false} CommonUnique(p: seq<string>, q: seq<string>, n: nat)
    requires n <= |p| && n <= |q| && p[..n] == q[..n]
    requires n == |p| || n == |q| || p[n] != q[n]
    ensures n == Common(p, q)
  {
    if n > 0 {
      assert p[0] == p[..n][0] == q[..n][0] == q[0];
      assert p[1..][..n - 1] == p[..n][1..] == q[..n][1..] == q[1..][..n - 1];
      CommonUnique(p[1..], q[1..], n - 1);
    }
  }

  lemma ClosesOne(item: ConfigItem, c: nat)
    requires |item.parents| <= c + 1
    ensures Closes(item, c) == if |item.parents| == c + 1 then [item] else []
  {
  }
}
