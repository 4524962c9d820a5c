/** The list operations as they update lists in place, with any two of the lists allowed
    to be the same object. */
module AddModMethods {
  import opened AddModLists
  import opened Options

  class List<E> {
    var elems: seq<E>

    constructor (elems: seq<E>)
      ensures this.elems == elems
    {
      this.elems := elems;
    }
  }

  class IdList {
    var ids: seq<int>
  }

  // Applying a difference.

  method MergeDifference<E>(s: seq<E>, ks: seq<int>, id: E -> int) returns (out: seq<E>)
    ensures out == SetDifference(s, ks, id)
  {
    out := [];
    var i, j := 0, 0;
    assert s[0..] == s && ks[0..] == ks;
    while i < |s|
      invariant i <= |s| && j <= |ks| && out + SetDifference(s[i..], ks[j..], id) == SetDifference(s, ks, id)
      decreases |s| - i + |ks| - j
    {
      if j == |ks| {
        return out + s[i..];
      }
      assert s[i..][1..] == s[i + 1..] && ks[j..][1..] == ks[j + 1..];
      if id(s[i]) < ks[j] {
        out := out + [s[i]];
        i := i + 1;
      } else {
        if !(ks[j] < id(s[i])) {
          i := i + 1;
        }
        j := j + 1;
      }
    }
  }

  method MergeUnion<E>(a: seq<E>, b: seq<E>, id: E -> int) returns (out: seq<E>)
    ensures out == SetUnion(a, b, id)
  {
    hide SetUnion;
    out := [];
    var i, j := 0, 0;
    assert a[0..] == a && b[0..] == b;
    while i < |a| && j < |b|
      invariant i <= |a| && j <= |b| && out + SetUnion(a[i..], b[j..], id) == SetUnion(a, b, id)
      decreases |a| - i + |b| - j
    {
      assert a[i..][1..] == a[i + 1..] && b[j..][1..] == b[j + 1..];
      UnionStep(a[i..], b[j..], id);
      if id(a[i]) < id(b[j]) {
        out := out + [a[i]];
        i := i + 1;
      } else if id(b[j]) < id(a[i]) {
        out := out + [b[j]];
        j := j + 1;
      } else {
        out := out + [a[i]];
        i, j := i + 1, j + 1;
      }
    }
    UnionEnd(a[i..], b[j..], id);
    out := out + a[i..] + b[j..];
  }

  lemma UnionStep<E>(a: seq<E>, b: seq<E>, id: E -> int)
    requires a != [] && b != []
    ensures SetUnion(a, b, id)
         == if id(a[0]) < id(b[0]) then [a[0]] + SetUnion(a[1..], b, id)
            else if id(b[0]) < id(a[0]) then [b[0]] + SetUnion(a, b[1..], id)
            else [a[0]] + SetUnion(a[1..], b[1..], id)
  {
  }

  lemma UnionEnd<E>(a: seq<E>, b: seq<E>, id: E -> int)
    requires a == [] || b == []
    ensures SetUnion(a, b, id) == a + b
  {
    assert a == [] ==> a + b == b;
    assert b == [] ==> a + b == a;
  }

  /** The destination may be the previous list. If it is the list of additions, that list
      is emptied before it is read, and the additions are lost. */
  method ApplyDiff<E>(prev: List<E>, add: List<E>, rem: IdList, next: List<E>, id: E -> int)
    modifies next
    ensures next.elems == Apply(old(prev.elems), if next == add then [] else old(add.elems), rem.ids, id)
  {
    if |add.elems| == 0 && |rem.ids| == 0 {
      if next != prev {
        next.elems := prev.elems;
      }
      return;
    }
    var kept := MergeDifference(prev.elems, rem.ids, id);
    NothingToDo(prev.elems, id);
    next.elems := [];
    var merged := MergeUnion(add.elems, kept, id);
    next.elems := merged;
  }

  method ApplyDiffInPlace<E>(list: List<E>, add: List<E>, rem: IdList, id: E -> int)
    modifies list
    ensures list.elems == Apply(old(list.elems), if list == add then [] else old(add.elems), rem.ids, id)
  {
    ApplyDiff(list, add, rem, list, id);
  }

  /** Losing the additions is harmless exactly if each of them is already in place. */
  lemma LostAdditions<E>(prev: seq<E>, add: seq<E>, rem: seq<int>, id: E -> int)
    requires Sorted(prev, id) && Sorted(add, id) && Ascending(rem)
    ensures Apply(prev, [], rem, id) == Apply(prev, add, rem, id)
       <==> forall i | 0 <= i < |add| :: add[i] in prev && id(add[i]) !in rem
  {
    var a, b := Apply(prev, [], rem, id), Apply(prev, add, rem, id);
    if a == b {
      forall i | 0 <= i < |add| ensures add[i] in prev && id(add[i]) !in rem {
        InApply(prev, [], rem, id, add[i]);
        InApply(prev, add, rem, id, add[i]);
      }
    } else if forall i | 0 <= i < |add| :: add[i] in prev && id(add[i]) !in rem {
      SameApplied(prev, add, rem, id);
    }
  }

  lemma SameApplied<E>(prev: seq<E>, add: seq<E>, rem: seq<int>, id: E -> int)
    requires Sorted(prev, id) && Sorted(add, id) && Ascending(rem)
    requires forall i | 0 <= i < |add| :: add[i] in prev && id(add[i]) !in rem
    ensures Apply(prev, [], rem, id) == Apply(prev, add, rem, id)
  {
    var a, b := Apply(prev, [], rem, id), Apply(prev, add, rem, id);
    InApplySorted(prev, [], rem, id);
    InApplySorted(prev, add, rem, id);
    forall i | 0 <= i < |a| ensures a[i] in b {
      InApply(prev, [], rem, id, a[i]);
      InApply(prev, add, rem, id, a[i]);
      if HasId(add, id(a[i]), id) {
        var j :| 0 <= j < |add| && id(add[j]) == id(a[i]);
        assert add[j] == a[i];
      }
    }
    forall i | 0 <= i < |b| ensures b[i] in a {
      InApply(prev, [], rem, id, b[i]);
      InApply(prev, add, rem, id, b[i]);
    }
    SortedUnique(a, b, id);
  }

  /** Strictly sorted lists of the same objects are equal. */
  lemma {:induction false} SortedUnique<E>(a: seq<E>, b: seq<E>, id: E -> int)
    requires Sorted(a, id) && Sorted(b, id)
    requires forall i | 0 <= i < |a| :: a[i] in b
    requires forall i | 0 <= i < |b| :: b[i] in a
    ensures a == b
  {
    if a != [] {
      SortedTail(a, id);
      SortedTail(b, id);
      NotAbove(a[1..], id(a[0]), id);
      NotAbove(b[1..], id(b[0]), id);
      hide Sorted, Above, HasId;
      InSplit(b, a[0]);
      InSplit(a, b[0]);
      TailWithin(a, b, id);
      TailWithin(b, a, id);
      SortedUnique(a[1..], b[1..], id);
      assert a == [a[0]] + a[1..] && b == [b[0]] + b[1..];
    }
  }

  lemma TailWithin<E>(a: seq<E>, b: seq<E>, id: E -> int)
    requires a != [] && b != [] && a[0] == b[0] && Sorted(a, id)
    requires forall i | 0 <= i < |a| :: a[i] in b
    ensures forall i | 0 <= i < |a[1..]| :: a[1..][i] in b[1..]
  {
    forall i | 0 <= i < |a[1..]| ensures a[1..][i] in b[1..] {
      assert a[1 + i] in b && id(a[0]) < id(a[1 + i]);
      InSplit(b, a[1 + i]);
    }
  }

  // Computing a difference.

  lemma {:induction false} NoDiffWithSelf<E>(s: seq<E>, id: E -> int)
    ensures Added(s, s, id) == [] && Removed(s, s, id) == []
  {
    if s != [] { NoDiffWithSelf(s[1..], id); }
  }

  lemma MapNothing<E, A>(f: E -> A)
    ensures Map([], f) == []
  {
  }

  lemma MapCons<E, A>(x: E, s: seq<E>, f: E -> A)
    ensures Map([x] + s, f) == [f(x)] + Map(s, f)
  {
    assert ([x] + s)[1..] == s;
  }

  lemma {:induction false} MapSelf<E>(s: seq<E>)
    ensures Map(s, e => e) == s
  {
    if s != [] { MapSelf(s[1..]); }
  }

  /** Objects of one type in, objects of another out. An input that is also the output is
      cleared before it is looked at; only appending to the list that is being walked, as
      happens to a previous list that is the output, is undefined. */
  method CalculateConverted<E(==), A>(add: List<A>, rem: IdList, prev: List<E>, next: List<E>, convert: E -> A,
                                      id: E -> int)
    requires (add as object) == prev != next ==> next.elems == []
    modifies add, rem
    ensures var p := if (add as object) == prev then [] else old(prev.elems);
            var n := if (add as object) == next then [] else old(next.elems);
            add.elems == Map(Added(p, n, id), convert) && rem.ids == Removed(p, n, id)
  {
    hide Added, Removed, Map;
    add.elems := [];
    rem.ids := [];
    if prev == next {
      NoDiffWithSelf(prev.elems, id);
      MapNothing(convert);
      return;
    }
    var p, n := prev.elems, next.elems;
    var i, j := 0, 0;
    assert p[0..] == p && n[0..] == n;
    while i < |p| || j < |n|
      invariant i <= |p| && j <= |n|
      invariant add.elems + Map(Added(p[i..], n[j..], id), convert) == Map(Added(p, n, id), convert)
      invariant rem.ids + Removed(p[i..], n[j..], id) == Removed(p, n, id)
      decreases |p| - i + |n| - j
    {
      ghost var ps, ns := p[i..], n[j..];
      assert (i < |p| ==> ps[1..] == p[i + 1..]) && (j < |n| ==> ns[1..] == n[j + 1..]);
      if j == |n| || (i < |p| && id(p[i]) < id(n[j])) {
        RemovedStep(ps, ns, id);
        rem.ids := rem.ids + [id(p[i])];
        i := i + 1;
      } else if i == |p| || id(n[j]) < id(p[i]) {
        AddedStep(ps, ns, id, convert);
        add.elems := add.elems + [convert(n[j])];
        j := j + 1;
      } else {
        PairStep(ps, ns, id, convert);
        if p[i] != n[j] {
          add.elems := add.elems + [convert(n[j])];
        }
        i, j := i + 1, j + 1;
      }
    }
    NoDiffWithSelf<E>([], id);
    MapNothing(convert);
  }

  lemma RemovedStep<E>(p: seq<E>, n: seq<E>, id: E -> int)
    requires p != [] && (n == [] || id(p[0]) < id(n[0]))
    ensures Added(p, n, id) == Added(p[1..], n, id)
    ensures Removed(p, n, id) == [id(p[0])] + Removed(p[1..], n, id)
  {
  }

  lemma PairStep<E, A>(p: seq<E>, n: seq<E>, id: E -> int, convert: E -> A)
    requires p != [] && n != [] && id(p[0]) == id(n[0])
    ensures Map(Added(p, n, id), convert)
         == (if p[0] == n[0] then [] else [convert(n[0])]) + Map(Added(p[1..], n[1..], id), convert)
    ensures Removed(p, n, id) == Removed(p[1..], n[1..], id)
  {
    var rest := Added(p[1..], n[1..], id);
    if p[0] == n[0] { assert [] + rest == rest; } else { MapCons(n[0], rest, convert); }
  }

  lemma AddedStep<E, A>(p: seq<E>, n: seq<E>, id: E -> int, convert: E -> A)
    requires n != [] && (p == [] || id(n[0]) < id(p[0]))
    ensures Map(Added(p, n, id), convert) == [convert(n[0])] + Map(Added(p, n[1..], id), convert)
    ensures Removed(p, n, id) == Removed(p, n[1..], id)
  {
    MapCons(n[0], Added(p, n[1..], id), convert);
    if p == [] { assert [n[0]] + n[1..] == n; }
  }

  /** The result does not depend on which of the lists are the same object. */
  method CalculateDiff<E(==)>(add: List<E>, rem: IdList, prev: List<E>, next: List<E>, id: E -> int)
    modifies add, rem
    ensures add.elems == Added(old(prev.elems), old(next.elems), id)
    ensures rem.ids == Removed(old(prev.elems), old(next.elems), id)
    decreases (if prev == add then 1 else 0) + (if next == add then 1 else 0)
  {
    if prev == add {
      var prev2 := new List(prev.elems);
      CalculateDiff(add, rem, prev2, next, id);
      return;
    }
    if next == add {
      var next2 := new List(next.elems);
      CalculateDiff(add, rem, prev, next2, id);
      return;
    }
    MapSelf(Added(prev.elems, next.elems, id));
    CalculateConverted(add, rem, prev, next, e => e, id);
  }

  // Setup or release.

  datatype SetupRelease<+A> = Null | Release | Setup(value: A)

  /** What the receiver of a setup or release does to its optional value. */
  function Receive<A>(held: Option<A>, message: SetupRelease<A>): Option<A> {
    match message
    case Null => held
    case Release => None
    case Setup(v) => Some(v)
  }

  function Convert<E, A>(o: Option<E>, f: E -> A): Option<A> {
    match o
    case None => None
    case Some(e) => Some(f(e))
  }

  class SetupReleaseChoice<A> {
    var choice: SetupRelease<A>
  }

  /** Takes a receiver of the previous value to the next one, and reports whether the
      value changes, if and only if an object left alone was as it should be. */
  method CalculateSetupRelease<E(==), A>(s: SetupReleaseChoice<A>, prev: Option<E>, next: Option<E>, convert: E -> A)
    returns (changes: bool)
    modifies s
    ensures changes == !s.choice.Null?
    ensures prev == next && prev.Some? ==> s.choice == old(s.choice)
    ensures Receive(Convert(prev, convert), s.choice) == Convert(next, convert)
       <==> (prev == next && prev.Some? && !old(s.choice).Null? ==> old(s.choice) == Setup(convert(next.value)))
    ensures changes == (prev != next) <==> (prev == next && prev.Some? ==> old(s.choice).Null?)
  {
    if next.Some? {
      if prev.None? || prev.value != next.value {
        s.choice := Setup(convert(next.value));
      }
    } else if prev.Some? {
      s.choice := Release;
    } else {
      s.choice := Null;
    }
    return !s.choice.Null?;
  }
}
