/**
 The sets of the Earley parser: two lists, of processed and of new numbers, that are linked through one vector.

 Cell 0 links the set into the list of its state, cells 1 and 2 hold the end and the start of the processed list,
 cells 3 and 4 those of the new list, and cell i + 5 links the number i to the next one in its list.  Where a list
 is empty its end is the number whose cell is the start of the list.
 */
module EarleySets {
  import opened Sequences

  /** What the source writes as `false`: not a member. */
  const NONE := -4

  ghost predicate Disjoint(l: seq<nat>, m: seq<nat>) {
    forall i, j :: 0 <= i < |l| && 0 <= j < |m| ==> l[i] != m[j]
  }

  function First(l: seq<nat>): int {
    if l == [] then -1 else l[0]
  }

  function Last(l: seq<nat>, empty: int): int {
    if l == [] then empty else l[|l| - 1]
  }

  function Link(v: seq<int>, i: nat): int
    requires i + 5 < |v|
  {
    v[i + 5]
  }

  /** The link of member `k` of a list. */
  function Next(l: seq<nat>, k: nat): int {
    if k + 1 < |l| then l[k + 1] else -1
  }

  /** The links of a list, which ends with -1. */
  ghost predicate Linked(v: seq<int>, l: seq<nat>) {
    forall k :: 0 <= k < |l| ==> l[k] + 5 < |v| && Link(v, l[k]) == Next(l, k)
  }

  /** Two lists without repetition. */
  ghost predicate Lists(done: seq<nat>, recent: seq<nat>) {
    Distinct(done) && Distinct(recent) && Disjoint(done, recent)
  }

  ghost predicate Header(v: seq<int>, done: seq<nat>, recent: seq<nat>) {
    && |v| >= 6
    && v[1] == Last(done, -3) && v[2] == First(done)
    && v[3] == Last(recent, -1) && v[4] == First(recent)
  }

  ghost predicate Others(v: seq<int>, done: seq<nat>, recent: seq<nat>) {
    forall i :: 0 <= i < |v| - 5 && i !in done && i !in recent ==> Link(v, i) == NONE
  }

  ghost predicate Rep(v: seq<int>, done: seq<nat>, recent: seq<nat>) {
    Lists(done, recent) && Linked(v, done) && Linked(v, recent) && Header(v, done, recent) && Others(v, done, recent)
  }

  /** A new set for the numbers up to `n`. */
  function NewSet(n: nat): (v: seq<int>)
    ensures |v| == n + 6 && Rep(v, [], [])
  {
    [NONE, -3, -1, -1, -1] + seq(n + 1, _ => NONE)
  }

  /** Membership is one look at the vector. */
  lemma MemberIff(v: seq<int>, done: seq<nat>, recent: seq<nat>, i: nat)
    requires Rep(v, done, recent) && i + 5 < |v|
    ensures Link(v, i) != NONE <==> i in done || i in recent
  {
    if i in done {
      var k :| 0 <= k < |done| && done[k] == i;
    } else if i in recent {
      var k :| 0 <= k < |recent| && recent[k] == i;
    }
  }

  /** Adds a number at the end of the new list. */
  function Adjoined(v: seq<int>, i: nat): (r: seq<int>)
    requires |v| >= 6 && i + 5 < |v| && -1 <= v[3] < |v| - 5
    ensures |r| == |v| && r[0] == v[0]
  {
    var tail := v[3];
    v[i + 5 := -1][tail + 5 := i][3 := i]
  }

  /** The cells after adding a number. */
  ghost predicate AdjoinedCells(v: seq<int>, r: seq<int>, i: nat) {
    && |r| == |v| >= 6 && i + 5 < |v| && -1 <= v[3] < |v| - 5 && v[3] != i
    && r[1] == v[1] && r[2] == v[2] && r[3] == i && r[4] == (if v[3] < 0 then i else v[4])
    && Link(r, i) == -1 && (v[3] >= 0 ==> Link(r, v[3]) == i)
    && forall x :: 0 <= x < |v| - 5 && x != i && x != v[3] ==> Link(r, x) == Link(v, x)
  }

  lemma AdjoinedRep(v: seq<int>, done: seq<nat>, recent: seq<nat>, i: nat)
    requires Rep(v, done, recent) && i + 5 < |v| && i !in done && i !in recent
    ensures -1 <= v[3] < |v| - 5 && Rep(Adjoined(v, i), done, recent + [i])
  {
    hide Rep;
    InRange(v, done, recent);
    assert v[3] >= 0 ==> v[3] in recent;
    var r := Adjoined(v, i);
    assert AdjoinedCells(v, r, i);
    RepAfterAdjoin(v, r, done, recent, i);
  }

  lemma RepAfterAdjoin(v: seq<int>, r: seq<int>, done: seq<nat>, recent: seq<nat>, i: nat)
    requires Rep(v, done, recent) && i !in done && i !in recent && AdjoinedCells(v, r, i)
    ensures Rep(r, done, recent + [i])
  {
    hide Others, Linked, Lists;
    var l := recent + [i];
    LastIn(recent);
    LinkedElsewhere(v, r, done, recent, i);
    LinkedLonger(v, r, done, recent, i);
    ListsLonger(done, recent, i);
    OthersLeft(v, r, done, recent, i);
  }

  lemma LastIn(l: seq<nat>)
    ensures l != [] ==> Last(l, -1) in l && Last(l, -3) in l
  {
  }

  lemma LinkedElsewhere(v: seq<int>, r: seq<int>, done: seq<nat>, recent: seq<nat>, i: nat)
    requires AdjoinedCells(v, r, i) && Lists(done, recent) && Linked(v, done) && i !in done && v[3] == Last(recent, -1)
    ensures Linked(r, done)
  {
    forall k | 0 <= k < |done|
      ensures done[k] + 5 < |r| && Link(r, done[k]) == Next(done, k)
    {
      assert done[k] in done;
    }
  }

  lemma LinkedLonger(v: seq<int>, r: seq<int>, done: seq<nat>, recent: seq<nat>, i: nat)
    requires AdjoinedCells(v, r, i) && Lists(done, recent) && Linked(v, recent) && i !in recent
    requires v[3] == Last(recent, -1)
    ensures Linked(r, recent + [i])
  {
    var l := recent + [i];
    forall k | 0 <= k < |l|
      ensures l[k] + 5 < |r| && Link(r, l[k]) == Next(l, k)
    {
      if k < |recent| {
        assert recent[k] in recent && Link(v, recent[k]) == Next(recent, k);
      }
    }
  }

  lemma ListsLonger(done: seq<nat>, recent: seq<nat>, i: nat)
    requires Lists(done, recent) && i !in done && i !in recent
    ensures Lists(done, recent + [i])
  {
  }

  lemma OthersLeft(v: seq<int>, r: seq<int>, done: seq<nat>, recent: seq<nat>, i: nat)
    requires AdjoinedCells(v, r, i) && Others(v, done, recent) && (v[3] >= 0 ==> v[3] in recent)
    ensures Others(r, done, recent + [i])
  {
    var l := recent + [i];
    forall x | 0 <= x < |r| - 5 && x !in done && x !in l
      ensures Link(r, x) == NONE
    {
      assert x !in recent by {
        assert forall y :: y in recent ==> y in l;
      }
      assert x != i by { assert l[|recent|] == i; }
      assert Link(v, x) == NONE;
    }
  }

  lemma InRange(v: seq<int>, done: seq<nat>, recent: seq<nat>)
    requires Rep(v, done, recent)
    ensures |v| >= 6 && -3 <= v[1] < |v| - 5 && -1 <= v[3] < |v| - 5 && Linked(v, done) && Linked(v, recent)
    ensures Distinct(done) && Distinct(recent) && Disjoint(done, recent)
    ensures v[1] == Last(done, -3) && v[2] == First(done) && v[3] == Last(recent, -1) && v[4] == First(recent)
  {
  }

  /** Puts the new list behind the processed one. */
  function Merged(v: seq<int>): (r: seq<int>)
    requires |v| >= 6 && -3 <= v[1] < |v| - 5
    ensures |r| == |v|
  {
    v[v[1] + 5 := v[4]][1 := v[3]][3 := -1][4 := -1]
  }

  /** The cells after merging. */
  ghost predicate MergedCells(v: seq<int>, r: seq<int>) {
    && |r| == |v| >= 6 && -3 <= v[1] < |v| - 5
    && r[1] == v[3] && r[2] == (if v[1] < 0 then v[4] else v[2]) && r[3] == -1 && r[4] == -1
    && (v[1] >= 0 ==> Link(r, v[1]) == v[4])
    && forall x :: 0 <= x < |v| - 5 && x != v[1] ==> Link(r, x) == Link(v, x)
  }

  lemma MergedRep(v: seq<int>, done: seq<nat>, recent: seq<nat>)
    requires Rep(v, done, recent) && recent != []
    ensures -3 <= v[1] < |v| - 5 && Rep(Merged(v), done + recent, []) && Merged(v)[0] == v[0]
  {
    hide Rep;
    InRange(v, done, recent);
    assert v[1] == -3 || v[1] >= 0;
    assert MergedCells(v, Merged(v));
    RepAfterMerge(v, Merged(v), done, recent);
  }

  lemma RepAfterMerge(v: seq<int>, r: seq<int>, done: seq<nat>, recent: seq<nat>)
    requires Rep(v, done, recent) && recent != [] && MergedCells(v, r)
    ensures Rep(r, done + recent, [])
  {
    hide Others, Linked, Lists;
    LastIn(done);
    ListsJoined(done, recent);
    LinkedJoined(v, r, done, recent);
    OthersJoined(v, r, done, recent);
    assert Linked(r, []) by { NoLinks(r); }
  }

  lemma NoLinks(r: seq<int>)
    ensures Linked(r, [])
  {
  }

  lemma ListsJoined(done: seq<nat>, recent: seq<nat>)
    requires Lists(done, recent)
    ensures Lists(done + recent, [])
  {
  }

  lemma LinkedJoined(v: seq<int>, r: seq<int>, done: seq<nat>, recent: seq<nat>)
    requires MergedCells(v, r) && Lists(done, recent) && Linked(v, done) && Linked(v, recent) && Header(v, done, recent)
    requires recent != []
    ensures Linked(r, done + recent)
  {
    var l := done + recent;
    forall k | 0 <= k < |l|
      ensures l[k] + 5 < |r| && Link(r, l[k]) == Next(l, k)
    {
      if k < |done| {
        DoneJoined(v, r, done, recent, k);
      } else {
        RecentJoined(v, r, done, recent, k - |done|);
      }
    }
  }

  lemma DoneJoined(v: seq<int>, r: seq<int>, done: seq<nat>, recent: seq<nat>, k: nat)
    requires MergedCells(v, r) && Distinct(done) && Linked(v, done) && Header(v, done, recent)
    requires recent != [] && k < |done|
    ensures done[k] + 5 < |r| && Link(r, done[k]) == Next(done + recent, k)
  {
    assert Link(v, done[k]) == Next(done, k);
    assert k + 1 < |done| ==> done[k] != done[|done| - 1];
  }

  lemma RecentJoined(v: seq<int>, r: seq<int>, done: seq<nat>, recent: seq<nat>, k: nat)
    requires MergedCells(v, r) && Disjoint(done, recent) && Linked(v, recent) && Header(v, done, recent) && k < |recent|
    ensures recent[k] + 5 < |r| && Link(r, recent[k]) == Next(done + recent, |done| + k)
  {
    assert Link(v, recent[k]) == Next(recent, k);
    assert done != [] ==> recent[k] != done[|done| - 1];
  }

  lemma OthersJoined(v: seq<int>, r: seq<int>, done: seq<nat>, recent: seq<nat>)
    requires MergedCells(v, r) && Others(v, done, recent) && (v[1] >= 0 ==> v[1] in done)
    ensures Others(r, done + recent, [])
  {
    var l := done + recent;
    forall x | 0 <= x < |r| - 5 && x !in l
      ensures Link(r, x) == NONE
    {
      assert x !in done && x !in recent by {
        assert forall y :: y in done ==> y in l;
        assert forall y :: y in recent ==> y in l;
      }
      assert Link(v, x) == NONE;
    }
  }

  /** Following the links of the processed list visits its members in order. */
  lemma NextDone(v: seq<int>, done: seq<nat>, recent: seq<nat>, k: nat)
    requires Rep(v, done, recent) && k < |done|
    ensures done[k] + 5 < |v| && Link(v, done[k]) == Next(done, k)
  {
  }

  lemma RelinkedRep(v: seq<int>, done: seq<nat>, recent: seq<nat>, x: int)
    requires Rep(v, done, recent)
    ensures Rep(v[0 := x], done, recent)
  {
  }
}
