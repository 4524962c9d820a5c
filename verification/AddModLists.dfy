/** Differences between lists of configured objects: the list of objects to add or modify
    and the list of ids to release, and how they are applied. Objects are compared by an
    id that the caller extracts. */
module AddModLists {
  /** Strictly ascending ids, so that no id occurs twice. */
  predicate Sorted<E>(s: seq<E>, id: E -> int) {
    forall i, j | 0 <= i < j < |s| :: id(s[i]) < id(s[j])
  }

  predicate Ascending(ks: seq<int>) {
    forall i, j | 0 <= i < j < |ks| :: ks[i] < ks[j]
  }

  // The merges of the standard library.

  /** `std::set_difference` of objects and ids. */
  function SetDifference<E>(s: seq<E>, ks: seq<int>, id: E -> int): seq<E> {
    if s == [] then []
    else if ks == [] then s
    else if id(s[0]) < ks[0] then [s[0]] + SetDifference(s[1..], ks, id)
    else if ks[0] < id(s[0]) then SetDifference(s, ks[1..], id)
    else SetDifference(s[1..], ks[1..], id)
  }

  /** `std::set_union`, which prefers the first list where ids meet. */
  function SetUnion<E>(a: seq<E>, b: seq<E>, id: E -> int): seq<E> {
    if a == [] then b
    else if b == [] then a
    else if id(b[0]) < id(a[0]) then [b[0]] + SetUnion(a, b[1..], id)
    else if id(a[0]) < id(b[0]) then [a[0]] + SetUnion(a[1..], b, id)
    else [a[0]] + SetUnion(a[1..], b[1..], id)
  }

  function Apply<E>(prev: seq<E>, add: seq<E>, rem: seq<int>, id: E -> int): seq<E> {
    if add == [] && rem == [] then prev else SetUnion(add, SetDifference(prev, rem, id), id)
  }

  // The difference, by two iterators.

  function Added<E(==)>(prev: seq<E>, next: seq<E>, id: E -> int): seq<E>
    decreases |prev| + |next|
  {
    if next == [] then []
    else if prev == [] then next
    else if id(prev[0]) < id(next[0]) then Added(prev[1..], next, id)
    else if id(next[0]) < id(prev[0]) then [next[0]] + Added(prev, next[1..], id)
    else (if prev[0] == next[0] then [] else [next[0]]) + Added(prev[1..], next[1..], id)
  }

  function Removed<E>(prev: seq<E>, next: seq<E>, id: E -> int): seq<int>
    decreases |prev| + |next|
  {
    if prev == [] then []
    else if next == [] || id(prev[0]) < id(next[0]) then [id(prev[0])] + Removed(prev[1..], next, id)
    else if id(next[0]) < id(prev[0]) then Removed(prev, next[1..], id)
    else Removed(prev[1..], next[1..], id)
  }

  // Order.

  predicate Above<E>(s: seq<E>, k: int, id: E -> int) {
    forall i | 0 <= i < |s| :: k < id(s[i])
  }

  lemma SortedTail<E>(s: seq<E>, id: E -> int)
    requires Sorted(s, id) && s != []
    ensures Sorted(s[1..], id) && Above(s[1..], id(s[0]), id)
  {
  }

  lemma SortedCons<E>(x: E, s: seq<E>, k: int, id: E -> int)
    requires Sorted(s, id) && k < id(x) && Above(s, id(x), id)
    ensures Sorted([x] + s, id) && Above([x] + s, k, id)
  {
  }

  lemma AboveTail<E>(s: seq<E>, k: int, id: E -> int)
    requires s != [] && Above(s, k, id)
    ensures k < id(s[0]) && Above(s[1..], k, id)
  {
  }

  lemma {:induction false} SetDifferenceSorted<E>(s: seq<E>, ks: seq<int>, k: int, id: E -> int)
    requires Sorted(s, id) && Above(s, k, id)
    ensures Sorted(SetDifference(s, ks, id), id) && Above(SetDifference(s, ks, id), k, id)
  {
    if s != [] && ks != [] {
      SortedTail(s, id);
      AboveTail(s, k, id);
      hide Sorted, Above;
      if id(s[0]) < ks[0] {
        SetDifferenceSorted(s[1..], ks, id(s[0]), id);
        SortedCons(s[0], SetDifference(s[1..], ks, id), k, id);
      } else if ks[0] < id(s[0]) {
        SetDifferenceSorted(s, ks[1..], k, id);
      } else {
        SetDifferenceSorted(s[1..], ks[1..], k, id);
      }
    }
  }

  lemma {:induction false} SetUnionSorted<E>(a: seq<E>, b: seq<E>, k: int, id: E -> int)
    requires Sorted(a, id) && Sorted(b, id) && Above(a, k, id) && Above(b, k, id)
    ensures Sorted(SetUnion(a, b, id), id) && Above(SetUnion(a, b, id), k, id)
  {
    if a != [] && b != [] {
      SortedTail(a, id);
      SortedTail(b, id);
      AboveTail(a, k, id);
      AboveTail(b, k, id);
      var i, j := id(a[0]), id(b[0]);
      if j < i {
        SetUnionSorted(a, b[1..], j, id);
        SortedCons(b[0], SetUnion(a, b[1..], id), k, id);
      } else if i < j {
        SetUnionSorted(a[1..], b, i, id);
        SortedCons(a[0], SetUnion(a[1..], b, id), k, id);
      } else {
        SetUnionSorted(a[1..], b[1..], i, id);
        SortedCons(a[0], SetUnion(a[1..], b[1..], id), k, id);
      }
    }
  }

  lemma {:induction false} AddedSorted<E>(prev: seq<E>, next: seq<E>, k: int, id: E -> int)
    requires Sorted(next, id) && Above(next, k, id)
    ensures Sorted(Added(prev, next, id), id) && Above(Added(prev, next, id), k, id)
    decreases |prev| + |next|
  {
    if prev != [] && next != [] {
      SortedTail(next, id);
      AboveTail(next, k, id);
      hide Sorted, Above;
      var i, j := id(prev[0]), id(next[0]);
      if i < j {
        AddedSorted(prev[1..], next, k, id);
      } else if j < i {
        AddedSorted(prev, next[1..], j, id);
        SortedCons(next[0], Added(prev, next[1..], id), k, id);
      } else if prev[0] == next[0] {
        AddedSorted(prev[1..], next[1..], k, id);
        assert [] + Added(prev[1..], next[1..], id) == Added(prev[1..], next[1..], id);
      } else {
        AddedSorted(prev[1..], next[1..], j, id);
        SortedCons(next[0], Added(prev[1..], next[1..], id), k, id);
      }
    }
  }

  predicate AllAbove(ks: seq<int>, k: int) {
    forall i | 0 <= i < |ks| :: k < ks[i]
  }

  lemma {:induction false} RemovedSorted<E>(prev: seq<E>, next: seq<E>, k: int, id: E -> int)
    requires Sorted(prev, id) && Above(prev, k, id)
    ensures Ascending(Removed(prev, next, id)) && AllAbove(Removed(prev, next, id), k)
    decreases |prev| + |next|
  {
    if prev != [] {
      SortedTail(prev, id);
      AboveTail(prev, k, id);
      hide Sorted, Above;
      var i := id(prev[0]);
      if next == [] || i < id(next[0]) {
        RemovedSorted(prev[1..], next, i, id);
      } else if id(next[0]) < i {
        RemovedSorted(prev, next[1..], k, id);
      } else {
        RemovedSorted(prev[1..], next[1..], k, id);
      }
    }
  }

  // Membership.

  predicate HasId<E>(s: seq<E>, k: int, id: E -> int) {
    exists i | 0 <= i < |s| :: id(s[i]) == k
  }

  lemma InSplit<E>(s: seq<E>, e: E)
    requires s != []
    ensures e in s <==> e == s[0] || e in s[1..]
  {
  }

  lemma HasIdSplit<E>(s: seq<E>, k: int, id: E -> int)
    requires s != []
    ensures HasId(s, k, id) <==> id(s[0]) == k || HasId(s[1..], k, id)
  {
  }

  /** No object at or below a bound. */
  lemma NotAbove<E>(s: seq<E>, k: int, id: E -> int)
    requires Above(s, k, id)
    ensures forall e | e in s :: k < id(e)
    ensures forall m | m <= k :: !HasId(s, m, id)
  {
  }

  lemma {:induction false} InSetDifference<E>(s: seq<E>, ks: seq<int>, id: E -> int, e: E)
    requires Sorted(s, id) && Ascending(ks)
    ensures e in SetDifference(s, ks, id) <==> e in s && id(e) !in ks
  {
    if s != [] && ks != [] {
      SortedTail(s, id);
      InSplit(s, e);
      InSplit(ks, id(e));
      NotAbove(s[1..], id(s[0]), id);
      NotBelow(ks);
      hide Sorted, Ascending;
      if id(s[0]) < ks[0] {
        InSetDifference(s[1..], ks, id, e);
        assert e in SetDifference(s, ks, id) <==> e == s[0] || e in SetDifference(s[1..], ks, id);
      } else if ks[0] < id(s[0]) {
        InSetDifference(s, ks[1..], id, e);
      } else {
        InSetDifference(s[1..], ks[1..], id, e);
      }
    }
  }

  lemma NotBelow(ks: seq<int>)
    requires Ascending(ks) && ks != []
    ensures Ascending(ks[1..]) && forall k | k in ks :: ks[0] <= k
  {
  }

  lemma {:induction false} InSetUnion<E>(a: seq<E>, b: seq<E>, id: E -> int, e: E)
    requires Sorted(a, id) && Sorted(b, id)
    ensures e in SetUnion(a, b, id) <==> e in a || (e in b && !HasId(a, id(e), id))
  {
    if a != [] && b != [] {
      SortedTail(a, id);
      SortedTail(b, id);
      InSplit(a, e);
      InSplit(b, e);
      HasIdSplit(a, id(e), id);
      NotAbove(a[1..], id(a[0]), id);
      NotAbove(b[1..], id(b[0]), id);
      hide Sorted, Above, HasId;
      if id(b[0]) < id(a[0]) {
        InSetUnion(a, b[1..], id, e);
        assert e in SetUnion(a, b, id) <==> e == b[0] || e in SetUnion(a, b[1..], id);
      } else if id(a[0]) < id(b[0]) {
        InSetUnion(a[1..], b, id, e);
        assert e in SetUnion(a, b, id) <==> e == a[0] || e in SetUnion(a[1..], b, id);
      } else {
        InSetUnion(a[1..], b[1..], id, e);
        assert e in SetUnion(a, b, id) <==> e == a[0] || e in SetUnion(a[1..], b[1..], id);
      }
    }
  }

  /** Applying a difference gives, per id, the object to add or modify if there is one,
      else the previous object unless its id is released, in strict order. */
  lemma InApply<E>(prev: seq<E>, add: seq<E>, rem: seq<int>, id: E -> int, e: E)
    requires Sorted(prev, id) && Sorted(add, id) && Ascending(rem)
    ensures e in Apply(prev, add, rem, id) <==> e in add || (e in prev && id(e) !in rem && !HasId(add, id(e), id))
    ensures Sorted(Apply(prev, add, rem, id), id)
  {
    var kept := SetDifference(prev, rem, id);
    var low := Low(prev, id);
    var least := if add == [] || low < id(add[0]) then low else id(add[0]) - 1;
    SetDifferenceSorted(prev, rem, least, id);
    SetUnionSorted(add, kept, least, id);
    InSetDifference(prev, rem, id, e);
    InSetUnion(add, kept, id, e);
  }

  /** A bound below every id of a sorted list. */
  function Low<E>(s: seq<E>, id: E -> int): (k: int)
    requires Sorted(s, id)
    ensures Above(s, k, id)
  {
    if s == [] then 0 else id(s[0]) - 1
  }

  /** The list to add or modify holds exactly the new and the changed objects. */
  lemma {:induction false} InAdded<E>(prev: seq<E>, next: seq<E>, id: E -> int, e: E)
    requires Sorted(prev, id) && Sorted(next, id)
    ensures e in Added(prev, next, id) <==> e in next && e !in prev
    decreases |prev| + |next|
  {
    if prev != [] && next != [] {
      SortedTail(prev, id);
      SortedTail(next, id);
      InSplit(prev, e);
      InSplit(next, e);
      NotAbove(prev[1..], id(prev[0]), id);
      NotAbove(next[1..], id(next[0]), id);
      hide Sorted, Above;
      if id(prev[0]) < id(next[0]) {
        InAdded(prev[1..], next, id, e);
      } else if id(next[0]) < id(prev[0]) {
        InAdded(prev, next[1..], id, e);
        assert e in Added(prev, next, id) <==> e == next[0] || e in Added(prev, next[1..], id);
      } else {
        InAdded(prev[1..], next[1..], id, e);
        assert e in Added(prev, next, id)
          <==> (prev[0] != next[0] && e == next[0]) || e in Added(prev[1..], next[1..], id);
      }
    }
  }

  /** The list to release holds exactly the ids that are gone. */
  lemma {:induction false} InRemoved<E>(prev: seq<E>, next: seq<E>, id: E -> int, k: int)
    requires Sorted(prev, id) && Sorted(next, id)
    ensures k in Removed(prev, next, id) <==> HasId(prev, k, id) && !HasId(next, k, id)
    decreases |prev| + |next|
  {
    if prev != [] {
      SortedTail(prev, id);
      HasIdSplit(prev, k, id);
      NotAbove(prev[1..], id(prev[0]), id);
      if next != [] {
        SortedTail(next, id);
        HasIdSplit(next, k, id);
        NotAbove(next[1..], id(next[0]), id);
      }
      hide Sorted, Above;
      if next == [] || id(prev[0]) < id(next[0]) {
        InRemoved(prev[1..], next, id, k);
        assert k in Removed(prev, next, id) <==> k == id(prev[0]) || k in Removed(prev[1..], next, id);
      } else if id(next[0]) < id(prev[0]) {
        InRemoved(prev, next[1..], id, k);
      } else {
        InRemoved(prev[1..], next[1..], id, k);
      }
    }
  }

  // Patching undoes the difference.

  lemma UnionLeft<E>(x: E, a: seq<E>, b: seq<E>, id: E -> int)
    requires Above(b, id(x), id)
    ensures SetUnion([x] + a, b, id) == [x] + SetUnion(a, b, id)
  {
    if b != [] { assert ([x] + a)[1..] == a; }
  }

  lemma UnionRight<E>(x: E, a: seq<E>, b: seq<E>, id: E -> int)
    requires Above(a, id(x), id)
    ensures SetUnion(a, [x] + b, id) == [x] + SetUnion(a, b, id)
  {
    if a != [] { assert ([x] + b)[1..] == b; }
  }

  lemma DifferenceKeeps<E>(s: seq<E>, ks: seq<int>, id: E -> int)
    requires s != [] && AllAbove(ks, id(s[0]))
    ensures SetDifference(s, ks, id) == [s[0]] + SetDifference(s[1..], ks, id)
  {
    if ks == [] { assert [s[0]] + s[1..] == s; }
  }

  /** Applying the lists computed from two strictly sorted lists to the first gives the
      second. */
  lemma PatchUndoesDiff<E>(prev: seq<E>, next: seq<E>, id: E -> int)
    requires Sorted(prev, id) && Sorted(next, id)
    ensures Apply(prev, Added(prev, next, id), Removed(prev, next, id), id) == next
  {
    MergeUndoesDiff(prev, next, id);
    NothingToDo(prev, id);
  }

  /** The shortcut for two empty lists gives what the merges would give. */
  lemma NothingToDo<E>(prev: seq<E>, id: E -> int)
    ensures SetUnion([], SetDifference(prev, [], id), id) == prev
  {
  }

  lemma {:induction false} MergeUndoesDiff<E>(prev: seq<E>, next: seq<E>, id: E -> int)
    requires Sorted(prev, id) && Sorted(next, id)
    ensures SetUnion(Added(prev, next, id), SetDifference(prev, Removed(prev, next, id), id), id) == next
    decreases |prev| + |next|
  {
    if prev != [] {
      SortedTail(prev, id);
      var i := id(prev[0]);
      if next == [] || i < id(next[0]) {
        MergeUndoesDiff(prev[1..], next, id);
        assert ([i] + Removed(prev[1..], next, id))[1..] == Removed(prev[1..], next, id);
      } else {
        SortedTail(next, id);
        if id(next[0]) < i { MergeAdds(prev, next, id); } else { MergeMeets(prev, next, id); }
      }
    }
  }

  lemma {:induction false} MergeAdds<E>(prev: seq<E>, next: seq<E>, id: E -> int)
    requires Sorted(prev, id) && Sorted(next, id) && prev != [] && next != [] && id(next[0]) < id(prev[0])
    ensures SetUnion(Added(prev, next, id), SetDifference(prev, Removed(prev, next, id), id), id) == next
    decreases |prev| + |next|, 0
  {
    SortedTail(next, id);
    MergeUndoesDiff(prev, next[1..], id);
    var kept := SetDifference(prev, Removed(prev, next[1..], id), id);
    assert Above(prev, id(next[0]), id) by { SortedTail(prev, id); }
    SetDifferenceSorted(prev, Removed(prev, next[1..], id), id(next[0]), id);
    UnionLeft(next[0], Added(prev, next[1..], id), kept, id);
    assert [next[0]] + next[1..] == next;
  }

  lemma {:induction false} MergeMeets<E>(prev: seq<E>, next: seq<E>, id: E -> int)
    requires Sorted(prev, id) && Sorted(next, id) && prev != [] && next != [] && id(next[0]) == id(prev[0])
    ensures SetUnion(Added(prev, next, id), SetDifference(prev, Removed(prev, next, id), id), id) == next
    decreases |prev| + |next|, 0
  {
    var p, n, k := prev[1..], next[1..], id(prev[0]);
    SortedTail(prev, id);
    SortedTail(next, id);
    MergeUndoesDiff(p, n, id);
    RemovedSorted(p, n, k, id);
    AddedSorted(p, n, k, id);
    DifferenceKeeps(prev, Removed(p, n, id), id);
    var kept := SetDifference(p, Removed(p, n, id), id);
    assert [next[0]] + n == next;
    if prev[0] == next[0] {
      assert [] + Added(p, n, id) == Added(p, n, id);
      UnionRight(prev[0], Added(p, n, id), kept, id);
    } else {
      assert ([next[0]] + Added(p, n, id))[1..] == Added(p, n, id) && ([prev[0]] + kept)[1..] == kept;
    }
  }

  /** No smaller lists would do: whatever strictly sorted lists take `prev` to `next`, they
      contain the computed ones. */
  lemma DiffIsMinimal<E>(prev: seq<E>, next: seq<E>, add: seq<E>, rem: seq<int>, id: E -> int)
    requires Sorted(prev, id) && Sorted(add, id) && Ascending(rem)
    requires Apply(prev, add, rem, id) == next
    ensures forall e | e in Added(prev, next, id) :: e in add
    ensures forall k | k in Removed(prev, next, id) :: k in rem
  {
    forall e | e in Added(prev, next, id) ensures e in add {
      InApply(prev, add, rem, id, e);
      InAdded(prev, next, id, e);
    }
    forall k | k in Removed(prev, next, id) ensures k in rem {
      assert Sorted(next, id) by { InApplySorted(prev, add, rem, id); }
      InRemoved(prev, next, id, k);
      var i :| 0 <= i < |prev| && id(prev[i]) == k;
      InApply(prev, add, rem, id, prev[i]);
      if k !in rem && HasId(add, k, id) {
        var j :| 0 <= j < |add| && id(add[j]) == k;
        InApply(prev, add, rem, id, add[j]);
      }
    }
  }

  lemma InApplySorted<E>(prev: seq<E>, add: seq<E>, rem: seq<int>, id: E -> int)
    requires Sorted(prev, id) && Sorted(add, id) && Ascending(rem)
    ensures Sorted(Apply(prev, add, rem, id), id)
  {
    if prev != [] {
      InApply(prev, add, rem, id, prev[0]);
    } else if add != [] {
      InApply(prev, add, rem, id, add[0]);
    }
  }

  // Conversion.

  function Map<E, A>(s: seq<E>, f: E -> A): seq<A> {
    if s == [] then [] else [f(s[0])] + Map(s[1..], f)
  }

  lemma {:induction false} ConvertedDifference<E, A>(s: seq<E>, ks: seq<int>, id: E -> int, f: E -> A, id': A -> int)
    requires forall e :: id'(f(e)) == id(e)
    ensures SetDifference(Map(s, f), ks, id') == Map(SetDifference(s, ks, id), f)
  {
    if s != [] && ks != [] {
      assert Map(s, f)[1..] == Map(s[1..], f);
      if id(s[0]) < ks[0] {
        ConvertedDifference(s[1..], ks, id, f, id');
        assert ([s[0]] + SetDifference(s[1..], ks, id))[1..] == SetDifference(s[1..], ks, id);
      } else if ks[0] < id(s[0]) {
        ConvertedDifference(s, ks[1..], id, f, id');
      } else {
        ConvertedDifference(s[1..], ks[1..], id, f, id');
      }
    }
  }

  lemma {:induction false} ConvertedUnion<E, A>(a: seq<E>, b: seq<E>, id: E -> int, f: E -> A, id': A -> int)
    requires forall e :: id'(f(e)) == id(e)
    ensures SetUnion(Map(a, f), Map(b, f), id') == Map(SetUnion(a, b, id), f)
  {
    if a != [] && b != [] {
      assert Map(a, f)[1..] == Map(a[1..], f) && Map(b, f)[1..] == Map(b[1..], f);
      if id(b[0]) < id(a[0]) {
        ConvertedUnion(a, b[1..], id, f, id');
        assert ([b[0]] + SetUnion(a, b[1..], id))[1..] == SetUnion(a, b[1..], id);
      } else if id(a[0]) < id(b[0]) {
        ConvertedUnion(a[1..], b, id, f, id');
        assert ([a[0]] + SetUnion(a[1..], b, id))[1..] == SetUnion(a[1..], b, id);
      } else {
        ConvertedUnion(a[1..], b[1..], id, f, id');
        assert ([a[0]] + SetUnion(a[1..], b[1..], id))[1..] == SetUnion(a[1..], b[1..], id);
      }
    }
  }

  /** With a conversion that keeps ids, applying the converted lists to the converted
      first list gives the converted second list. */
  lemma ConvertedPatch<E, A>(prev: seq<E>, next: seq<E>, id: E -> int, f: E -> A, id': A -> int)
    requires Sorted(prev, id) && Sorted(next, id) && forall e :: id'(f(e)) == id(e)
    ensures Apply(Map(prev, f), Map(Added(prev, next, id), f), Removed(prev, next, id), id') == Map(next, f)
  {
    var add, rem := Added(prev, next, id), Removed(prev, next, id);
    MergeUndoesDiff(prev, next, id);
    ConvertedDifference(prev, rem, id, f, id');
    ConvertedUnion(add, SetDifference(prev, rem, id), id, f, id');
  }
}
