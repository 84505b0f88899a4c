/** Lists of process slots: the ready queue and the child lists. */
module SlotLists {
  import opened Processes

  ghost predicate Distinct(xs: seq<Slot>) {
    forall i, j :: 0 <= i < j < |xs| ==> xs[i] != xs[j]
  }

  ghost function IndexIn(xs: seq<Slot>, x: Slot): (k: nat)
    requires x in xs
    ensures k < |xs| && xs[k] == x
    ensures forall j :: 0 <= j < k ==> xs[j] != x
  {
    if xs[0] == x then 0 else 1 + IndexIn(xs[1..], x)
  }

  /** The index is that of the first occurrence. */
  lemma IndexIs(xs: seq<Slot>, x: Slot, k: nat)
    requires k < |xs| && xs[k] == x && forall j :: 0 <= j < k ==> xs[j] != x
    ensures x in xs && IndexIn(xs, x) == k
  {
  }

  /** Removing cuts out the first occurrence and keeps the order of the rest. */
  lemma {:induction false} RemoveFirstCuts(xs: seq<Slot>, x: Slot)
    ensures x !in xs ==> RemoveFirst(xs, x) == xs
    ensures x in xs ==> RemoveFirst(xs, x) == xs[..IndexIn(xs, x)] + xs[IndexIn(xs, x) + 1..]
  {
    hide IndexIn;
    if xs != [] && xs[0] != x {
      RemoveFirstCuts(xs[1..], x);
      if x in xs[1..] {
        IndexBehind(xs, x);
        CutBehind(xs, IndexIn(xs[1..], x));
      }
    }
  }

  lemma IndexBehind(xs: seq<Slot>, x: Slot)
    requires xs != [] && xs[0] != x && x in xs[1..]
    ensures x in xs && IndexIn(xs, x) == IndexIn(xs[1..], x) + 1
  {
  }

  lemma CutBehind(xs: seq<Slot>, k: nat)
    requires k + 1 < |xs|
    ensures [xs[0]] + (xs[1..][..k] + xs[1..][k + 1..]) == xs[..k + 1] + xs[k + 2..]
  {
  }

  lemma RemoveFirstDistinct(xs: seq<Slot>, x: Slot)
    requires Distinct(xs)
    ensures var r := RemoveFirst(xs, x);
            Distinct(r) && forall y :: y in r <==> y in xs && y != x
  {
    RemoveFirstCuts(xs, x);
    if x in xs {
      var k := IndexIn(xs, x);
      assert xs == xs[..k] + [x] + xs[k + 1..];
    }
  }
}
