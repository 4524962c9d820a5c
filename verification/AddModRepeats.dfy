/** Lists in which ids repeat: when applying a computed difference still gives the next
    list. */
module AddModRepeats {
  import opened AddModLists

  predicate WeaklySorted<E>(s: seq<E>, id: E -> int) {
    forall i, j | 0 <= i < j < |s| :: id(s[i]) <= id(s[j])
  }

  /** All objects have the id k. */
  predicate AllId<E>(s: seq<E>, k: int, id: E -> int) {
    forall i | 0 <= i < |s| :: id(s[i]) == k
  }

  predicate AllEqual(ks: seq<int>, k: int) {
    forall i | 0 <= i < |ks| :: ks[i] == k
  }

  /** The objects with the id k, in order. */
  function Having<E>(s: seq<E>, k: int, id: E -> int): seq<E> {
    if s == [] then []
    else if id(s[0]) == k then [s[0]] + Having(s[1..], k, id)
    else Having(s[1..], k, id)
  }

  function Patched<E(==)>(prev: seq<E>, next: seq<E>, id: E -> int): seq<E> {
    Apply(prev, Added(prev, next, id), Removed(prev, next, id), id)
  }

  lemma PatchedMerges<E>(prev: seq<E>, next: seq<E>, id: E -> int)
    ensures Patched(prev, next, id)
         == SetUnion(Added(prev, next, id), SetDifference(prev, Removed(prev, next, id), id), id)
  {
    NothingToDo(prev, id);
  }

  // The objects of one id.

  /** Applying the difference keeps the objects of one id, p before and n after: all of p
      differ from what takes their place if there are fewer of them; otherwise the objects
      of n that differ come first, and the rest of n is the end of p. */
  predicate GroupKept<E(==)>(p: seq<E>, n: seq<E>) {
    if |p| < |n| then forall i | 0 <= i < |p| :: p[i] != n[i]
    else
      var changed := Changed(p, n);
      changed <= n && p[|p| - |n| + |changed|..] == n[|changed|..]
  }

  /** The objects of n that differ from the object of p at the same place. */
  function Changed<E(==)>(p: seq<E>, n: seq<E>): (c: seq<E>)
    ensures |c| <= |n|
  {
    if p == [] || n == [] then []
    else (if p[0] == n[0] then [] else [n[0]]) + Changed(p[1..], n[1..])
  }

  lemma {:induction false} AddedGroup<E>(p: seq<E>, n: seq<E>, k: int, id: E -> int)
    requires AllId(p, k, id) && AllId(n, k, id)
    ensures Added(p, n, id) == Changed(p, n) + if |p| < |n| then n[|p|..] else []
    ensures AllId(Added(p, n, id), k, id)
  {
    if p != [] && n != [] {
      AddedGroup(p[1..], n[1..], k, id);
      if |p| < |n| { assert n[1..][|p[1..]|..] == n[|p|..]; }
    }
  }

  lemma {:induction false} RemovedGroup<E>(p: seq<E>, n: seq<E>, k: int, id: E -> int)
    requires AllId(p, k, id) && AllId(n, k, id)
    ensures AllEqual(Removed(p, n, id), k)
    ensures |Removed(p, n, id)| == if |p| > |n| then |p| - |n| else 0
    decreases |p| + |n|
  {
    if p != [] {
      if n == [] { RemovedGroup(p[1..], n, k, id); } else { RemovedGroup(p[1..], n[1..], k, id); }
    }
  }

  lemma {:induction false} DifferenceGroup<E>(p: seq<E>, ks: seq<int>, k: int, id: E -> int)
    requires AllId(p, k, id) && AllEqual(ks, k) && |ks| <= |p|
    ensures SetDifference(p, ks, id) == p[|ks|..]
  {
    if ks != [] {
      DifferenceGroup(p[1..], ks[1..], k, id);
      assert p[1..][|ks[1..]|..] == p[|ks|..];
    }
  }

  lemma {:induction false} UnionGroup<E>(a: seq<E>, b: seq<E>, k: int, id: E -> int)
    requires AllId(a, k, id) && AllId(b, k, id)
    ensures SetUnion(a, b, id) == a + if |a| < |b| then b[|a|..] else []
  {
    if a != [] && b != [] {
      UnionGroup(a[1..], b[1..], k, id);
      if |a| < |b| { assert b[1..][|a[1..]|..] == b[|a|..]; }
    }
  }

  lemma {:induction false} AllChanged<E>(p: seq<E>, n: seq<E>)
    requires |p| <= |n|
    ensures |Changed(p, n)| <= |p|
    ensures |Changed(p, n)| == |p| <==> forall i | 0 <= i < |p| :: p[i] != n[i]
    ensures |Changed(p, n)| == |p| ==> Changed(p, n) == n[..|p|]
  {
    if p != [] {
      AllChanged(p[1..], n[1..]);
      assert forall i | 0 <= i < |p[1..]| :: p[1..][i] == p[i + 1] && n[1..][i] == n[i + 1];
      assert n[..|p|] == [n[0]] + n[1..][..|p[1..]|];
    }
  }

  /** The condition decides whether the group is kept. */
  lemma GroupExact<E>(p: seq<E>, n: seq<E>, k: int, id: E -> int)
    requires AllId(p, k, id) && AllId(n, k, id)
    ensures Patched(p, n, id) == n <==> GroupKept(p, n)
    ensures AllId(Patched(p, n, id), k, id)
  {
    PatchedGroup(p, n, k, id);
    MergedExact(p, n);
  }

  /** What becomes of the objects of one id: the changed and the further ones of n, and what
      the longer end of p has beyond them. */
  function Merged<E(==)>(p: seq<E>, n: seq<E>): seq<E> {
    var add := Changed(p, n) + if |p| < |n| then n[|p|..] else [];
    var kept := if |p| > |n| then p[|p| - |n|..] else p;
    add + if |add| < |kept| then kept[|add|..] else []
  }

  lemma PatchedGroup<E>(p: seq<E>, n: seq<E>, k: int, id: E -> int)
    requires AllId(p, k, id) && AllId(n, k, id)
    ensures Patched(p, n, id) == Merged(p, n) && AllId(Merged(p, n), k, id)
  {
    hide Patched, Added, Removed, SetUnion, SetDifference, Changed;
    PatchedMerges(p, n, id);
    var add, rem := Added(p, n, id), Removed(p, n, id);
    AddedGroup(p, n, k, id);
    RemovedGroup(p, n, k, id);
    DifferenceGroup(p, rem, k, id);
    UnionGroup(add, p[|rem|..], k, id);
  }

  lemma MergedExact<E>(p: seq<E>, n: seq<E>)
    ensures Merged(p, n) == n <==> GroupKept(p, n)
  {
    hide Changed;
    var c := Changed(p, n);
    if |p| < |n| {
      AllChanged(p, n);
      if |c| == |p| { assert n == n[..|p|] + n[|p|..]; }
    } else {
      var kept := p[|p| - |n|..];
      assert kept[|c|..] == p[|p| - |n| + |c|..] && Merged(p, n) == c + kept[|c|..];
      if c + kept[|c|..] == n { assert c == n[..|c|] && kept[|c|..] == n[|c|..]; }
    }
  }

  lemma {:induction false} TailSame<E>(p: seq<E>, n: seq<E>, t: nat)
    requires t <= |p| == |n| && p[t..] == n[t..]
    ensures Changed(p, n) == Changed(p[..t], n[..t])
  {
    if p != [] {
      if t == 0 {
        assert p == p[0..] == n[0..] == n;
        TailSame(p[1..], n[1..], 0);
      } else {
        assert p[1..][t - 1..] == p[t..] && n[1..][t - 1..] == n[t..];
        TailSame(p[1..], n[1..], t - 1);
        assert p[..t][1..] == p[1..][..t - 1] && n[..t][1..] == n[1..][..t - 1];
      }
    }
  }

  /** Where an id occurs as often before as after, its objects are kept exactly if no change
      comes after an object that stays. */
  lemma SameCountKept<E>(p: seq<E>, n: seq<E>)
    requires |p| == |n|
    ensures GroupKept(p, n) <==> forall i, j | 0 <= i < j < |p| && p[i] == n[i] :: p[j] == n[j]
  {
    if GroupKept(p, n) {
      var c := |Changed(p, n)|;
      TailSame(p, n, c);
      AllChanged(p[..c], n[..c]);
      assert forall i | 0 <= i < c :: p[i] != n[i] by {
        assert forall i | 0 <= i < c :: p[..c][i] == p[i] && n[..c][i] == n[i];
      }
      forall i, j | 0 <= i < j < |p| && p[i] == n[i] ensures p[j] == n[j] {
        assert p[c..][j - c] == n[c..][j - c];
      }
    }
    if forall i, j | 0 <= i < j < |p| && p[i] == n[i] :: p[j] == n[j] {
      var t := FirstSame(p, n);
      assert p[t..] == n[t..];
      TailSame(p, n, t);
      AllChanged(p[..t], n[..t]);
      assert n[..t][..t] == n[..t];
    }
  }

  lemma FirstSame<E>(p: seq<E>, n: seq<E>) returns (t: nat)
    requires |p| == |n|
    ensures t <= |p| && (forall i | 0 <= i < t :: p[i] != n[i]) && (t < |p| ==> p[t] == n[t])
  {
    t := 0;
    while t < |p| && p[t] != n[t]
      invariant t <= |p| && forall i | 0 <= i < t :: p[i] != n[i]
    {
      t := t + 1;
    }
  }

  // From groups to lists: the objects of the least id come first and are treated apart.

  lemma ConcatTail<E>(a: seq<E>, b: seq<E>)
    requires a != []
    ensures (a + b)[0] == a[0] && (a + b)[1..] == a[1..] + b
  {
  }

  lemma {:induction false} AddedSplit<E>(p: seq<E>, n: seq<E>, p': seq<E>, n': seq<E>, k: int, id: E -> int)
    requires AllId(p, k, id) && AllId(n, k, id) && Above(p', k, id) && Above(n', k, id)
    ensures Added(p + p', n + n', id) == Added(p, n, id) + Added(p', n', id)
    decreases |p| + |n|
  {
    if p != [] {
      ConcatTail(p, p');
      if n != [] {
        ConcatTail(n, n');
        AddedSplit(p[1..], n[1..], p', n', k, id);
      } else {
        assert [] + n' == n';
        AddedSplit(p[1..], [], p', n', k, id);
      }
    } else {
      assert [] + p' == p';
      if n != [] {
        ConcatTail(n, n');
        AddedSplit([], n[1..], p', n', k, id);
        assert Added([], n, id) == [n[0]] + Added([], n[1..], id);
        assert p' == [] ==> Added(p', n + n', id) == [n[0]] + Added(p', n[1..] + n', id);
      } else {
        assert [] + n' == n';
      }
    }
  }

  lemma {:induction false} RemovedSplit<E>(p: seq<E>, n: seq<E>, p': seq<E>, n': seq<E>, k: int, id: E -> int)
    requires AllId(p, k, id) && AllId(n, k, id) && Above(p', k, id) && Above(n', k, id)
    ensures Removed(p + p', n + n', id) == Removed(p, n, id) + Removed(p', n', id)
    decreases |p| + |n|
  {
    if p != [] {
      ConcatTail(p, p');
      if n != [] {
        ConcatTail(n, n');
        RemovedSplit(p[1..], n[1..], p', n', k, id);
      } else {
        assert [] + n' == n';
        RemovedSplit(p[1..], [], p', n', k, id);
      }
    } else {
      assert [] + p' == p';
      if n != [] {
        ConcatTail(n, n');
        RemovedSplit([], n[1..], p', n', k, id);
      } else {
        assert [] + n' == n';
      }
    }
  }

  lemma {:induction false} DifferenceSplit<E>(p: seq<E>, ks: seq<int>, p': seq<E>, ks': seq<int>, k: int, id: E -> int)
    requires AllId(p, k, id) && AllEqual(ks, k) && |ks| <= |p| && Above(p', k, id) && AllAbove(ks', k)
    ensures SetDifference(p + p', ks + ks', id) == SetDifference(p, ks, id) + SetDifference(p', ks', id)
    decreases |p|
  {
    if p == [] {
      assert [] + p' == p' && ks + ks' == ks';
    } else {
      ConcatTail(p, p');
      if ks == [] {
        assert [] + ks' == ks';
        DifferenceSplit(p[1..], [], p', ks', k, id);
        DifferenceKeeps(p + p', ks', id);
        assert [p[0]] + p[1..] == p;
      } else {
        ConcatTail(ks, ks');
        DifferenceSplit(p[1..], ks[1..], p', ks', k, id);
      }
    }
  }

  lemma {:induction false} UnionSplit<E>(a: seq<E>, b: seq<E>, a': seq<E>, b': seq<E>, k: int, id: E -> int)
    requires AllId(a, k, id) && AllId(b, k, id) && Above(a', k, id) && Above(b', k, id)
    ensures SetUnion(a + a', b + b', id) == SetUnion(a, b, id) + SetUnion(a', b', id)
    decreases |a| + |b|
  {
    if a != [] && b != [] {
      ConcatTail(a, a');
      ConcatTail(b, b');
      UnionSplit(a[1..], b[1..], a', b', k, id);
    } else if a != [] {
      ConcatTail(a, a');
      assert [] + b' == b' && [a[0]] + (a[1..] + a') == a + a' && [a[0]] + a[1..] == a;
      UnionSplit(a[1..], [], a', b', k, id);
      UnionLeft(a[0], a[1..] + a', b', id);
    } else if b != [] {
      ConcatTail(b, b');
      assert [] + a' == a' && [b[0]] + (b[1..] + b') == b + b' && [b[0]] + b[1..] == b;
      UnionSplit([], b[1..], a', b', k, id);
      UnionRight(b[0], a', b[1..] + b', id);
    } else {
      assert [] + a' == a' && [] + b' == b';
    }
  }

  lemma {:induction false} HighAdded<E>(p: seq<E>, n: seq<E>, k: int, id: E -> int)
    requires Above(n, k, id)
    ensures Above(Added(p, n, id), k, id)
    decreases |p| + |n|
  {
    if p != [] && n != [] {
      if id(p[0]) < id(n[0]) { HighAdded(p[1..], n, k, id); }
      else if id(n[0]) < id(p[0]) { HighAdded(p, n[1..], k, id); }
      else { HighAdded(p[1..], n[1..], k, id); }
    }
  }

  lemma {:induction false} HighRemoved<E>(p: seq<E>, n: seq<E>, k: int, id: E -> int)
    requires Above(p, k, id)
    ensures AllAbove(Removed(p, n, id), k)
    decreases |p| + |n|
  {
    if p != [] {
      if n == [] || id(p[0]) < id(n[0]) { HighRemoved(p[1..], n, k, id); }
      else if id(n[0]) < id(p[0]) { HighRemoved(p, n[1..], k, id); }
      else { HighRemoved(p[1..], n[1..], k, id); }
    }
  }

  lemma {:induction false} HighDifference<E>(p: seq<E>, ks: seq<int>, k: int, id: E -> int)
    requires Above(p, k, id)
    ensures Above(SetDifference(p, ks, id), k, id)
    decreases |p| + |ks|
  {
    if p != [] && ks != [] {
      if id(p[0]) < ks[0] { HighDifference(p[1..], ks, k, id); }
      else if ks[0] < id(p[0]) { HighDifference(p, ks[1..], k, id); }
      else { HighDifference(p[1..], ks[1..], k, id); }
    }
  }

  lemma {:induction false} HighUnion<E>(a: seq<E>, b: seq<E>, k: int, id: E -> int)
    requires Above(a, k, id) && Above(b, k, id)
    ensures Above(SetUnion(a, b, id), k, id)
    decreases |a| + |b|
  {
    if a != [] && b != [] {
      if id(b[0]) < id(a[0]) { HighUnion(a, b[1..], k, id); }
      else if id(a[0]) < id(b[0]) { HighUnion(a[1..], b, k, id); }
      else { HighUnion(a[1..], b[1..], k, id); }
    }
  }

  lemma PatchedSplit<E>(p: seq<E>, n: seq<E>, p': seq<E>, n': seq<E>, k: int, id: E -> int)
    requires AllId(p, k, id) && AllId(n, k, id) && Above(p', k, id) && Above(n', k, id)
    ensures Patched(p + p', n + n', id) == Patched(p, n, id) + Patched(p', n', id)
    ensures Above(Patched(p', n', id), k, id)
  {
    PatchedMerges(p + p', n + n', id);
    PatchedMerges(p, n, id);
    PatchedMerges(p', n', id);
    AddedSplit(p, n, p', n', k, id);
    RemovedSplit(p, n, p', n', k, id);
    RemovedGroup(p, n, k, id);
    HighRemoved(p', n', k, id);
    HighAdded(p', n', k, id);
    var rem, rem' := Removed(p, n, id), Removed(p', n', id);
    DifferenceSplit(p, rem, p', rem', k, id);
    DifferenceGroup(p, rem, k, id);
    HighDifference(p', rem', k, id);
    AddedGroup(p, n, k, id);
    HighUnion(Added(p', n', id), SetDifference(p', rem', id), k, id);
    UnionSplit(Added(p, n, id), SetDifference(p, rem, id), Added(p', n', id), SetDifference(p', rem', id), k, id);
  }

  /** Lists of a group and of higher ids agree exactly if both parts do. */
  lemma PartsAgree<E>(x: seq<E>, y: seq<E>, n: seq<E>, n': seq<E>, k: int, id: E -> int)
    requires AllId(x, k, id) && AllId(n, k, id) && Above(y, k, id) && Above(n', k, id)
    ensures x + y == n + n' <==> x == n && y == n'
  {
    if x != [] && n != [] {
      ConcatTail(x, y);
      ConcatTail(n, n');
      PartsAgree(x[1..], y, n[1..], n', k, id);
      assert x == [x[0]] + x[1..] && n == [n[0]] + n[1..];
      assert x + y == [x[0]] + (x[1..] + y) && n + n' == [n[0]] + (n[1..] + n');
    } else if x != [] {
      ConcatTail(x, y);
      assert n + n' == n';
    } else {
      assert x + y == y;
      if n != [] { ConcatTail(n, n'); } else { assert n + n' == n'; }
    }
  }

  /** The objects with ids other than k. */
  function Others<E>(s: seq<E>, k: int, id: E -> int): seq<E> {
    if s == [] then []
    else if id(s[0]) == k then Others(s[1..], k, id)
    else [s[0]] + Others(s[1..], k, id)
  }

  /** The objects of the least id come first. */
  lemma LeastFirst<E>(s: seq<E>, k: int, id: E -> int)
    requires WeaklySorted(s, id) && forall i | 0 <= i < |s| :: k <= id(s[i])
    ensures s == Having(s, k, id) + Others(s, k, id)
    ensures AllId(Having(s, k, id), k, id) && Above(Others(s, k, id), k, id) && WeaklySorted(Others(s, k, id), id)
  {
    var n := LeastCount(s, k, id);
    assert s == s[..n] + s[n..];
  }

  lemma {:induction false} LeastCount<E>(s: seq<E>, k: int, id: E -> int) returns (n: nat)
    requires WeaklySorted(s, id) && forall i | 0 <= i < |s| :: k <= id(s[i])
    ensures n <= |s| && Having(s, k, id) == s[..n] && Others(s, k, id) == s[n..]
    ensures AllId(s[..n], k, id) && Above(s[n..], k, id)
  {
    if s == [] || id(s[0]) != k {
      n := 0;
      NoneHas(s, k, id);
    } else {
      var m := LeastCount(s[1..], k, id);
      n := m + 1;
      assert s[..n] == [s[0]] + s[1..][..m] && s[n..] == s[1..][m..];
    }
  }

  lemma {:induction false} NoneHas<E>(s: seq<E>, k: int, id: E -> int)
    requires Above(s, k, id)
    ensures Having(s, k, id) == [] && Others(s, k, id) == s
  {
    HavingNone(s, k, id);
    if s != [] { NoneHas(s[1..], k, id); }
  }

  lemma {:induction false} OthersHave<E>(s: seq<E>, k: int, j: int, id: E -> int)
    ensures Having(Others(s, k, id), j, id) == if j == k then [] else Having(s, j, id)
  {
    if s != [] {
      OthersHave(s[1..], k, j, id);
      if id(s[0]) != k { assert ([s[0]] + Others(s[1..], k, id))[1..] == Others(s[1..], k, id); }
    }
  }

  /** The objects of every id are kept. */
  ghost predicate AllKept<E>(prev: seq<E>, next: seq<E>, id: E -> int) {
    forall k :: GroupKept(Having(prev, k, id), Having(next, k, id))
  }

  /** For all sorted lists, with ids that may repeat, applying the computed lists to the
      previous list gives the next one if and only if the objects of each id are kept. */
  lemma {:induction false} RepeatedIdsExact<E>(prev: seq<E>, next: seq<E>, id: E -> int)
    requires WeaklySorted(prev, id) && WeaklySorted(next, id)
    ensures Patched(prev, next, id) == next <==> AllKept(prev, next, id)
    decreases |prev| + |next|
  {
    if prev != [] || next != [] {
      var k := if next == [] || (prev != [] && id(prev[0]) <= id(next[0])) then id(prev[0]) else id(next[0]);
      LeastFirst(prev, k, id);
      LeastFirst(next, k, id);
      hide GroupKept, Patched, AllKept, WeaklySorted;
      var p, n, p', n' := Having(prev, k, id), Having(next, k, id), Others(prev, k, id), Others(next, k, id);
      PatchedSplit(p, n, p', n', k, id);
      GroupExact(p, n, k, id);
      PartsAgree(Patched(p, n, id), Patched(p', n', id), n, n', k, id);
      RepeatedIdsExact(p', n', id);
      OtherGroups(prev, next, k, id);
    }
  }

  lemma OtherGroups<E>(prev: seq<E>, next: seq<E>, k: int, id: E -> int)
    ensures AllKept(prev, next, id)
       <==> (GroupKept(Having(prev, k, id), Having(next, k, id))
             && AllKept(Others(prev, k, id), Others(next, k, id), id))
  {
    var p', n' := Others(prev, k, id), Others(next, k, id);
    assert GroupKept<E>([], []);
    hide GroupKept;
    forall j
      ensures GroupKept(Having(p', j, id), Having(n', j, id))
         <==> j == k || GroupKept(Having(prev, j, id), Having(next, j, id))
    {
      OthersHave(prev, k, j, id);
      OthersHave(next, k, j, id);
    }
  }

  // Ids that repeat in the next list only.

  lemma FewKept<E>(x: E, n: seq<E>)
    ensures GroupKept([], n)
    ensures GroupKept([x], n) <==> (|n| >= 2 ==> n[0] != x)
  {
    NoneChanged(x, n);
    if |n| == 1 { ChangedOne(x, n); }
    hide Changed;
  }

  lemma NoneChanged<E>(x: E, n: seq<E>)
    ensures Changed([], n) == [] && (n == [] ==> Changed([x], n) == [])
  {
  }

  lemma ChangedOne<E>(x: E, n: seq<E>)
    requires |n| == 1
    ensures Changed([x], n) == if x == n[0] then [] else n
  {
    assert Changed([x][1..], n[1..]) == [] && [] + Changed([x][1..], n[1..]) == [];
    assert [n[0]] + [] == n;
    hide Changed;
  }

  lemma {:induction false} HavingSorted<E>(s: seq<E>, i: nat, id: E -> int)
    requires Sorted(s, id) && i < |s|
    ensures Having(s, id(s[i]), id) == [s[i]]
  {
    if i == 0 {
      SortedTail(s, id);
      NoneHas(s[1..], id(s[0]), id);
    } else {
      HavingSorted(s[1..], i - 1, id);
    }
  }

  lemma {:induction false} HavingNone<E>(s: seq<E>, k: int, id: E -> int)
    requires forall i | 0 <= i < |s| :: id(s[i]) != k
    ensures Having(s, k, id) == []
  {
    if s != [] { HavingNone(s[1..], k, id); }
  }

  /** An object is the first of several with its id. */
  predicate FirstOfSeveral<E(==)>(x: E, next: seq<E>, id: E -> int) {
    var n := Having(next, id(x), id); |n| >= 2 && n[0] == x
  }

  /** If ids do not repeat in the previous list, the next list is missed exactly if some
      object of the previous list is the first of several with its id in the next. */
  lemma UniquePrevExact<E>(prev: seq<E>, next: seq<E>, id: E -> int)
    requires Sorted(prev, id) && WeaklySorted(next, id)
    ensures Patched(prev, next, id) == next
       <==> forall i | 0 <= i < |prev| :: !FirstOfSeveral(prev[i], next, id)
  {
    RepeatedIdsExact(prev, next, id);
    hide GroupKept, Patched;
    if AllKept(prev, next, id) {
      forall i | 0 <= i < |prev| ensures !FirstOfSeveral(prev[i], next, id) {
        var k := id(prev[i]);
        assert GroupKept(Having(prev, k, id), Having(next, k, id));
        HavingSorted(prev, i, id);
        FewKept(prev[i], Having(next, k, id));
      }
    }
    if forall i | 0 <= i < |prev| :: !FirstOfSeveral(prev[i], next, id) {
      forall k ensures GroupKept(Having(prev, k, id), Having(next, k, id)) {
        if i :| 0 <= i < |prev| && id(prev[i]) == k {
          HavingSorted(prev, i, id);
          FewKept(prev[i], Having(next, k, id));
        } else {
          HavingNone(prev, k, id);
          if next != [] { FewKept(next[0], Having(next, k, id)); }
        }
      }
    }
  }

  // Ids that repeat in the previous list.

  /** Where an id occurs twice, applying the computed lists can miss the next list: of two
      objects with one id, dropping the second releases the id, and the first is removed. */
  lemma RepeatedIds()
    ensures var id := (e: (int, int)) => e.0;
            var prev, next := [(1, 0), (1, 1)], [(1, 0)];
            Apply(prev, Added(prev, next, id), Removed(prev, next, id), id) == [(1, 1)] != next
  {
    var id := (e: (int, int)) => e.0;
    var prev, next := [(1, 0), (1, 1)], [(1, 0)];
    assert prev[1..] == [(1, 1)] && next[1..] == [];
    assert Added(prev[1..], [], id) == [] && Added(prev, next, id) == [];
    assert Removed(prev[1..], [], id) == [1] && Removed(prev, next, id) == [1];
    assert SetDifference(prev, [1], id) == SetDifference(prev[1..], [], id) == [(1, 1)];
  }
}
