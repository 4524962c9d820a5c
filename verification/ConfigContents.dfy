/** What becomes of the entries of a configuration file: the items emitted for a file set
    what its entries set. */
module ConfigContents {
  import opened ConfigSections

  /** One value under its parents and name. */
  datatype Setting = Setting(parents: seq<string>, name: string, input: string)

  /** The parents and names that are set, in order, one after another only if they differ;
      and all values with theirs, in order. */
  datatype Content = Content(keys: seq<(seq<string>, string)>, settings: seq<Setting>)

  function With(c: Content, parents: seq<string>, name: string, inputs: seq<string>): Content {
    var key := (parents, name);
    Content(if c.keys != [] && Last(c.keys) == key then c.keys else c.keys + [key],
            c.settings + seq(|inputs|, i requires 0 <= i < |inputs| => Setting(parents, name, inputs[i])))
  }

  predicate OfSection(item: ConfigItem) {
    item.name == OPEN || item.name == CLOSE
  }

  /** What the items set, section items aside. */
  function ItemsContent(items: seq<ConfigItem>): Content {
    if items == [] then Content([], [])
    else
      var before, item := ItemsContent(Init(items)), Last(items);
      if OfSection(item) then before else With(before, item.parents, item.name, item.inputs)
  }

  /** What the entries of a file set. */
  function LinesContent(lines: seq<Line>): Content {
    if lines == [] then Content([], [])
    else
      match Last(lines)
      case Entry(parents, name, inputs) => With(LinesContent(Init(lines)), parents, name, inputs)
      case _ => LinesContent(Init(lines))
  }

  lemma ContentOn(items: seq<ConfigItem>, item: ConfigItem)
    ensures ItemsContent(items + [item])
         == if OfSection(item) then ItemsContent(items)
            else With(ItemsContent(items), item.parents, item.name, item.inputs)
  {
    assert Init(items + [item]) == items;
  }

  /** Section items set nothing. */
  lemma {:induction false} SectionsSetNothing(items: seq<ConfigItem>, more: seq<ConfigItem>)
    requires forall i | 0 <= i < |more| :: OfSection(more[i])
    ensures ItemsContent(items + more) == ItemsContent(items)
    decreases |more|
  {
    if more == [] {
      assert items + more == items;
    } else {
      SectionsSetNothing(items, Init(more));
      ContentOn(items + Init(more), Last(more));
      assert items + more == items + Init(more) + [Last(more)];
    }
  }

  lemma {:induction false} ClosesAreSections(item: ConfigItem, c: nat)
    requires item.name == CLOSE
    ensures forall i | 0 <= i < |Closes(item, c)| :: OfSection(Closes(item, c)[i])
    decreases |item.parents|
  {
    if |item.parents| > c { ClosesAreSections(item.(parents := Init(item.parents)), c); }
  }

  lemma {:induction false} OpensAreSections(path: seq<string>, c: nat)
    ensures forall i | 0 <= i < |Opens(path, c)| :: OfSection(Opens(path, c)[i])
    decreases |path| - c
  {
    if c < |path| { OpensAreSections(path, c + 1); }
  }

  /** Entering a section neither loses nor adds an entry. */
  lemma EnterSetsNothing(output: seq<ConfigItem>, path: seq<string>)
    requires path != []
    ensures ItemsContent(Enter(output, path)) == ItemsContent(output)
  {
    if EndsClosed(output) {
      var last := Last(output);
      var c := Common(last.parents, Init(path));
      ClosesAreSections(last, c);
      OpensAreSections(path, c);
      if last.parents == [] && |path| == 1 {
        SectionsSetNothing(output, Opens(path, c));
      } else {
        SectionsSetNothing(Init(output), Closes(last, c));
        SectionsSetNothing(Init(output) + Closes(last, c), Opens(path, c));
      }
    } else {
      OpensAreSections(path, 0);
      SectionsSetNothing(output, Opens(path, 0));
    }
  }

  lemma WithTwice(c: Content, parents: seq<string>, name: string, first: seq<string>, second: seq<string>)
    ensures With(With(c, parents, name, first), parents, name, second) == With(c, parents, name, first + second)
  {
  }

  /** An entry is added with all its values, behind those of the item it is merged into. */
  lemma AddSets(output: seq<ConfigItem>, item: ConfigItem)
    requires !OfSection(item)
    ensures ItemsContent(Add(output, item)) == With(ItemsContent(output), item.parents, item.name, item.inputs)
  {
    hide With;
    if output != [] && item.name == Last(output).name && item.parents == Last(output).parents {
      var last := Last(output);
      ContentOn(Init(output), last.(inputs := last.inputs + item.inputs));
      WithTwice(ItemsContent(Init(output)), last.parents, last.name, last.inputs, item.inputs);
    } else {
      ContentOn(output, item);
    }
  }

  lemma NothingSet()
    ensures ItemsContent(ReadLines(Reader([], []), []).output) == Content([], [])
  {
  }

  lemma {:induction false} LinesSet(lines: seq<Line>)
    requires PlainNames(lines)
    ensures ItemsContent(ReadLines(Reader([], []), lines).output) == LinesContent(lines)
    decreases |lines|
  {
    hide Enter, Add, With, ItemsContent, ReadLines;
    if lines == [] {
      NothingSet();
    } else {
      var r, line := ReadLines(Reader([], []), Init(lines)), Last(lines);
      LinesSet(Init(lines));
      ReadLinesOn(Reader([], []), Init(lines), line);
      assert lines == Init(lines) + [line];
      match line
      case Header(top, below) =>
        SectionsSetNothing(r.output, [Closing(r.current)]);
        EnterSetsNothing(Leave(r), [top] + below);
      case DefaultHeader => SectionsSetNothing(r.output, [Closing(r.current)]);
      case Entry(parents, name, inputs) => AddSets(r.output, ConfigItem(parents, name, inputs));
      case Skipped =>
    }
  }

  lemma {:induction false} ReadLinesOn(r: Reader, lines: seq<Line>, line: Line)
    ensures ReadLines(r, lines + [line]) == ReadLine(ReadLines(r, lines), line)
    decreases |lines|
  {
    if lines == [] {
      assert lines + [line] == [line] && [line][1..] == [];
    } else {
      ReadLinesOn(ReadLine(r, lines[0]), lines[1..], line);
      assert (lines + [line])[1..] == lines[1..] + [line];
    }
  }

  /** The items of a file set what its entries set, under the same parents and names and in
      the same order; beside them there are only section items. */
  lemma FileContentKept(lines: seq<Line>)
    requires PlainNames(lines)
    ensures ItemsContent(FromConfig(lines)) == LinesContent(lines)
  {
    var r := ReadLines(Reader([], []), lines);
    LinesSet(lines);
    if r.current != [] {
      ClosesAreSections(Closing(r.current), 0);
      SectionsSetNothing(r.output, Closes(Closing(r.current), 0));
    }
  }

  // Section items carry a path and nothing else.

  predicate SectionsBare(items: seq<ConfigItem>) {
    forall i | 0 <= i < |items| && OfSection(items[i]) :: items[i].inputs == []
  }

  lemma {:induction false} ClosesBare(item: ConfigItem, c: nat)
    requires item.inputs == []
    ensures SectionsBare(Closes(item, c))
    decreases |item.parents|
  {
    if |item.parents| > c { ClosesBare(item.(parents := Init(item.parents)), c); }
  }

  lemma {:induction false} OpensBare(path: seq<string>, c: nat)
    ensures SectionsBare(Opens(path, c))
    decreases |path| - c
  {
    if c < |path| { OpensBare(path, c + 1); }
  }

  lemma EnterBare(output: seq<ConfigItem>, path: seq<string>)
    requires path != [] && SectionsBare(output)
    ensures SectionsBare(Enter(output, path))
  {
    hide Closes, Opens, Common;
    if EndsClosed(output) {
      var c := Common(Last(output).parents, Init(path));
      ClosesBare(Last(output), c);
      OpensBare(path, c);
    } else {
      OpensBare(path, 0);
    }
  }

  lemma {:induction false} LinesBare(r: Reader, lines: seq<Line>)
    requires PlainNames(lines) && SectionsBare(r.output)
    ensures SectionsBare(ReadLines(r, lines).output)
    decreases |lines|
  {
    if lines != [] {
      var t := ReadLine(r, lines[0]);
      assert SectionsBare(t.output) by {
        hide Enter;
        match lines[0]
        case Header(top, below) => EnterBare(Leave(r), [top] + below);
        case _ =>
      }
      LinesBare(t, lines[1..]);
    }
  }

  /** No section item has inputs. */
  lemma SectionItemsBare(lines: seq<Line>)
    requires PlainNames(lines)
    ensures SectionsBare(FromConfig(lines))
  {
    var r := ReadLines(Reader([], []), lines);
    LinesBare(Reader([], []), lines);
    ClosesBare(Closing(r.current), 0);
  }

  // The inputs under one name.

  function Joined(items: seq<ConfigItem>, parents: seq<string>, name: string): seq<string> {
    if items == [] then []
    else
      Joined(Init(items), parents, name)
      + if Last(items).parents == parents && Last(items).name == name then Last(items).inputs else []
  }

  function JoinedLines(lines: seq<Line>, parents: seq<string>, name: string): seq<string> {
    if lines == [] then []
    else
      var line := Last(lines);
      JoinedLines(Init(lines), parents, name)
      + if line.Entry? && line.parents == parents && line.name == name then line.inputs else []
  }

  function Under(settings: seq<Setting>, parents: seq<string>, name: string): seq<string> {
    if settings == [] then []
    else
      var last := Last(settings);
      Under(Init(settings), parents, name) + if last.parents == parents && last.name == name then [last.input] else []
  }

  lemma {:induction false} UnderWith(c: Content, ps: seq<string>, n: string, inputs: seq<string>, parents: seq<string>,
                                     name: string)
    ensures Under(With(c, ps, n, inputs).settings, parents, name)
         == Under(c.settings, parents, name) + if ps == parents && n == name then inputs else []
    decreases |inputs|
  {
    var s := With(c, ps, n, inputs).settings;
    if inputs == [] {
      assert s == c.settings;
    } else {
      UnderWith(c, ps, n, Init(inputs), parents, name);
      assert Init(s) == With(c, ps, n, Init(inputs)).settings && Last(s) == Setting(ps, n, Last(inputs));
      assert inputs == Init(inputs) + [Last(inputs)];
    }
  }

  lemma {:induction false} JoinedUnder(items: seq<ConfigItem>, parents: seq<string>, name: string)
    requires name != OPEN && name != CLOSE
    ensures Joined(items, parents, name) == Under(ItemsContent(items).settings, parents, name)
  {
    if items != [] {
      var last := Last(items);
      JoinedUnder(Init(items), parents, name);
      UnderWith(ItemsContent(Init(items)), last.parents, last.name, last.inputs, parents, name);
    }
  }

  lemma {:induction false} LinesUnder(lines: seq<Line>, parents: seq<string>, name: string)
    ensures JoinedLines(lines, parents, name) == Under(LinesContent(lines).settings, parents, name)
  {
    if lines != [] {
      var last := Last(lines);
      LinesUnder(Init(lines), parents, name);
      if last.Entry? { UnderWith(LinesContent(Init(lines)), last.parents, last.name, last.inputs, parents, name); }
    }
  }

  /** Under every name, the consumer finds the inputs that the file gives it, in order. */
  lemma InputsKept(lines: seq<Line>, parents: seq<string>, name: string)
    requires PlainNames(lines) && name != OPEN && name != CLOSE
    ensures Joined(FromConfig(lines), parents, name) == JoinedLines(lines, parents, name)
  {
    FileContentKept(lines);
    JoinedUnder(FromConfig(lines), parents, name);
    LinesUnder(lines, parents, name);
  }
}
