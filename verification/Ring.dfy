/** Positions of a ring of n slots that is walked one slot at a time. */
module Ring {
  function Next(i: nat, n: nat): nat {
    if i + 1 == n then 0 else i + 1
  }

  /** The slot reached after k steps from slot 0. */
  function Slot(k: nat, n: nat): (i: nat)
    requires n > 0
    ensures i < n
  {
    if k < n then k else Slot(k - n, n)
  }

  lemma SlotTurn(k: nat, n: nat)
    requires n > 0
    ensures Slot(k + n, n) == Slot(k, n)
  {
  }

  lemma {:induction false} SlotNext(k: nat, n: nat)
    requires n > 0
    ensures Slot(k + 1, n) == Next(Slot(k, n), n)
  {
    if k >= n { SlotNext(k - n, n); }
  }

  /** Within one turn of the ring, different counts stand on different slots. */
  lemma {:induction false} SlotInjective(a: nat, b: nat, n: nat)
    requires n > 0 && a <= b < a + n
    ensures Slot(a, n) == Slot(b, n) <==> a == b
  {
    if a >= n { SlotInjective(a - n, b - n, n); }
  }

  /** The number of steps between two counts, from their slots. */
  lemma {:induction false} SlotDistance(a: nat, b: nat, n: nat)
    requires n > 0 && a <= b < a + n
    ensures var d := Slot(b, n) - Slot(a, n); b - a == if d < 0 then d + n else d
  {
    if a >= n { SlotDistance(a - n, b - n, n); }
  }

  /** The slot after b is that of a, fewer than n counts before, exactly if the slots from
      a to b are all but one of the ring. */
  lemma NextMeets(a: nat, b: nat, n: nat)
    requires n > 0 && a <= b < a + n
    ensures Next(Slot(b, n), n) == Slot(a, n) <==> b - a == n - 1
  {
    SlotNext(b, n);
    if b + 1 < a + n { SlotInjective(a, b + 1, n); }
  }

  /** Every slot is visited once in each turn. */
  lemma {:induction false} SlotOnto(lo: nat, i: nat, n: nat) returns (k: nat)
    requires i < n
    ensures lo <= k < lo + n && Slot(k, n) == i
    decreases lo
  {
    if lo <= i {
      k := i;
    } else if lo < n {
      k := i + n;
    } else {
      k := SlotOnto(lo - n, i, n);
      k := k + n;
    }
  }
}
