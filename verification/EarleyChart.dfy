/**
 The chart of the Earley parser: for every position a state, with a set for every configuration and a linked list
 of the configurations whose sets have new members.
 */
module EarleyChart {
  import opened Sequences
  import opened EarleySets

  /** The first configuration to process, or -1, and the sets; [] stands for a set that does not exist yet. */
  datatype State = State(work: int, sets: seq<seq<int>>)

  /** What a state holds: the configurations to process, and the two lists of every configuration. */
  datatype Items = Items(work: seq<nat>, done: seq<seq<nat>>, recent: seq<seq<nat>>)

  ghost predicate Has(a: Items, c: nat, i: nat) {
    c < |a.done| && c < |a.recent| && (i in a.done[c] || i in a.recent[c])
  }

  ghost predicate SetRep(v: seq<int>, done: seq<nat>, recent: seq<nat>, j: nat) {
    if v == [] then done == [] && recent == [] else |v| == j + 6 && Rep(v, done, recent)
  }

  ghost predicate SetsRep(sets: seq<seq<int>>, a: Items, j: nat) {
    |sets| == |a.done| == |a.recent| && forall c :: 0 <= c < |sets| ==> SetRep(sets[c], a.done[c], a.recent[c], j)
  }

  /** The list of configurations is linked through cell 0 of their sets. */
  ghost predicate WorkRep(st: State, work: seq<nat>) {
    && st.work == First(work) && Distinct(work)
    && forall k :: 0 <= k < |work| ==>
      work[k] < |st.sets| && |st.sets[work[k]]| > 0 && st.sets[work[k]][0] == Next(work, k)
  }

  /** The list holds the configurations with new members. */
  ghost predicate WorkIff(a: Items) {
    forall c :: 0 <= c < |a.recent| ==> (c in a.work <==> a.recent[c] != [])
  }

  ghost predicate StateRep(st: State, a: Items, j: nat) {
    SetsRep(st.sets, a, j) && WorkRep(st, a.work) && WorkIff(a)
  }

  // ----- the operations on what a state holds -----

  function Added(a: Items, c: nat, i: nat): Items
    requires c < |a.recent|
  {
    Items(if a.recent[c] == [] then [c] + a.work else a.work, a.done, a.recent[c := a.recent[c] + [i]])
  }

  function Popped(a: Items): Items
    requires a.work != [] && a.work[0] < |a.recent| && a.work[0] < |a.done|
  {
    var c := a.work[0];
    Items(a.work[1..], a.done[c := a.done[c] + a.recent[c]], a.recent[c := []])
  }

  /** `b` has the members of `a` and those of `l` for the configuration `c`, and nothing more is processed. */
  ghost predicate Plus(a: Items, b: Items, c: nat, l: seq<nat>) {
    && b.done == a.done && |b.recent| == |a.recent|
    && forall c': nat, i': nat :: Has(b, c', i') <==> Has(a, c', i') || (c' == c && i' in l)
  }

  lemma PlusAdded(a: Items, c: nat, i: nat)
    requires c < |a.recent| == |a.done|
    ensures Plus(a, Added(a, c, i), c, [i])
  {
    var b := Added(a, c, i);
    forall c': nat, i': nat
      ensures Has(b, c', i') <==> Has(a, c', i') || (c' == c && i' in [i])
    {
      if c' < |b.recent| {
        assert b.recent[c'] == if c' == c then a.recent[c] + [i] else a.recent[c'];
      }
    }
  }

  lemma PlusNone(a: Items, c: nat, i: nat)
    requires Has(a, c, i)
    ensures Plus(a, a, c, [i])
  {
  }

  lemma PlusMore(a: Items, b: Items, d: Items, c: nat, l: seq<nat>, i: nat)
    requires Plus(a, b, c, l) && Plus(b, d, c, [i])
    ensures Plus(a, d, c, l + [i])
  {
    forall c': nat, i': nat
      ensures Has(d, c', i') <==> Has(a, c', i') || (c' == c && i' in l + [i])
    {
    }
  }

  // ----- the operations on the representation -----

  /** The set is made. */
  lemma GetRep(st: State, a: Items, j: nat, c: nat)
    requires StateRep(st, a, j) && c < |st.sets| && st.sets[c] == []
    ensures StateRep(st.(sets := st.sets[c := NewSet(j)]), a, j)
  {
    hide Rep;
    var sets := st.sets[c := NewSet(j)];
    assert SetRep(st.sets[c], a.done[c], a.recent[c], j);
    forall k | 0 <= k < |a.work|
      ensures a.work[k] < |sets| && |sets[a.work[k]]| > 0 && sets[a.work[k]][0] == Next(a.work, k)
    {
      assert |st.sets[a.work[k]]| > 0;
    }
  }

  /** A number is added to a set, and the configuration is put on the list unless it is there. */
  function AdjoinedState(st: State, c: nat, i: nat): State
    requires c < |st.sets| && |st.sets[c]| >= 6 && i + 5 < |st.sets[c]| && -1 <= st.sets[c][3] < |st.sets[c]| - 5
  {
    var v := Adjoined(st.sets[c], i);
    if st.sets[c][3] < 0 then State(c, st.sets[c := v[0 := st.work]]) else st.(sets := st.sets[c := v])
  }

  lemma AdjoinRep(st: State, a: Items, j: nat, c: nat, i: nat)
    requires StateRep(st, a, j) && c < |st.sets| && st.sets[c] != [] && i <= j && !Has(a, c, i)
    ensures |st.sets[c]| >= 6 && i + 5 < |st.sets[c]| && -1 <= st.sets[c][3] < |st.sets[c]| - 5
    ensures StateRep(AdjoinedState(st, c, i), Added(a, c, i), j)
  {
    hide Rep;
    var v, b := st.sets[c], Added(a, c, i);
    assert SetRep(v, a.done[c], a.recent[c], j);
    InRange(v, a.done[c], a.recent[c]);
    AdjoinedRep(v, a.done[c], a.recent[c], i);
    RelinkedRep(Adjoined(v, i), a.done[c], a.recent[c] + [i], st.work);
    assert st.sets[c][3] < 0 <==> a.recent[c] == [];
    WorkAdjoined(st, a, c, i);
  }

  lemma WorkAdjoined(st: State, a: Items, c: nat, i: nat)
    requires c < |st.sets| == |a.recent| && WorkRep(st, a.work) && WorkIff(a)
    requires |st.sets[c]| >= 6 && i + 5 < |st.sets[c]| && -1 <= st.sets[c][3] < |st.sets[c]| - 5
    requires st.sets[c][3] < 0 <==> a.recent[c] == []
    ensures WorkRep(AdjoinedState(st, c, i), Added(a, c, i).work) && WorkIff(Added(a, c, i))
  {
    var st', b := AdjoinedState(st, c, i), Added(a, c, i);
    forall k | 0 <= k < |b.work|
      ensures b.work[k] < |st'.sets| && |st'.sets[b.work[k]]| > 0 && st'.sets[b.work[k]][0] == Next(b.work, k)
    {
      if a.recent[c] == [] && k > 0 {
        assert b.work[k] == a.work[k - 1] && a.work[k - 1] in a.work && Next(b.work, k) == Next(a.work, k - 1);
      }
    }
    forall d | 0 <= d < |b.recent|
      ensures d in b.work <==> b.recent[d] != []
    {
    }
  }

  function PoppedState(st: State): State
    requires 0 <= st.work < |st.sets| && |st.sets[st.work]| >= 6 && -3 <= st.sets[st.work][1] < |st.sets[st.work]| - 5
  {
    var v := st.sets[st.work];
    State(v[0], st.sets[st.work := Merged(v)])
  }

  lemma PopRep(st: State, a: Items, j: nat)
    requires StateRep(st, a, j) && st.work >= 0
    ensures a.work != [] && st.work == a.work[0] < |st.sets| == |a.recent| == |a.done| && a.recent[st.work] != []
    ensures |st.sets[st.work]| >= 6 && -3 <= st.sets[st.work][1] < |st.sets[st.work]| - 5
    ensures st.sets[st.work][4] == First(a.recent[st.work])
    ensures StateRep(PoppedState(st), Popped(a), j)
  {
    hide Rep;
    var c := st.work;
    assert a.work[0] in a.work;
    var v := st.sets[c];
    assert SetRep(v, a.done[c], a.recent[c], j);
    InRange(v, a.done[c], a.recent[c]);
    MergedRep(v, a.done[c], a.recent[c]);
    WorkPopped(st, a);
  }

  lemma WorkPopped(st: State, a: Items)
    requires a.work != [] && |st.sets| == |a.recent| == |a.done| && WorkRep(st, a.work) && WorkIff(a)
    requires st.work == a.work[0] && |st.sets[st.work]| >= 6 && -3 <= st.sets[st.work][1] < |st.sets[st.work]| - 5
    ensures WorkRep(PoppedState(st), Popped(a).work) && WorkIff(Popped(a))
  {
    var st', b := PoppedState(st), Popped(a);
    assert st.sets[a.work[0]][0] == Next(a.work, 0);
    forall k | 0 <= k < |b.work|
      ensures b.work[k] < |st'.sets| && |st'.sets[b.work[k]]| > 0 && st'.sets[b.work[k]][0] == Next(b.work, k)
    {
      assert b.work[k] == a.work[k + 1] && Next(b.work, k) == Next(a.work, k + 1);
    }
    forall d | 0 <= d < |b.recent|
      ensures d in b.work <==> b.recent[d] != []
    {
      if d in b.work {
        var k :| 0 <= k < |b.work| && b.work[k] == d;
        assert a.work[k + 1] == d && a.work[k + 1] in a.work;
      } else if d != st.work {
        assert d !in a.work by {
          assert a.work == [a.work[0]] + a.work[1..];
        }
      }
    }
  }

  /** All members of a set are numbers up to `j`. */
  lemma MembersBelow(st: State, a: Items, j: nat, c: nat, i: nat)
    requires StateRep(st, a, j) && Has(a, c, i)
    ensures i <= j && c < |st.sets| && st.sets[c] != []
  {
    assert SetRep(st.sets[c], a.done[c], a.recent[c], j);
    if i in a.done[c] {
      var k :| 0 <= k < |a.done[c]| && a.done[c][k] == i;
    } else {
      var k :| 0 <= k < |a.recent[c]| && a.recent[c][k] == i;
    }
  }

  /** There is a set for the configuration. */
  ghost predicate Made(states: seq<State>, j: nat, c: nat) {
    j < |states| && c < |states[j].sets| && states[j].sets[c] != []
  }

  /** The set of `c` in state `j` is there, and the others that were there before. */
  ghost predicate MadeOne(before: seq<State>, now: seq<State>, j: nat, c: nat) {
    forall k: nat, d: nat :: Made(now, k, d) <==> Made(before, k, d) || (k == j && d == c)
  }

  /** No set is empty. */
  ghost predicate NoneEmpty(states: seq<State>, items: seq<Items>) {
    forall k: nat, d: nat :: Made(states, k, d) && k < |items| ==> Occupied(items[k], d)
  }

  ghost predicate Occupied(a: Items, c: nat) {
    exists i: nat :: Has(a, c, i)
  }

  class Chart {
    const confs: nat
    var states: seq<State>
    ghost var items: seq<Items>

    /** Empty states for the positions up to `n`. */
    constructor (n: nat, confs: nat)
      ensures Valid() && |states| == n + 1 && this.confs == confs
      ensures forall j, c, i :: 0 <= j <= n ==> !Has(items[j], c, i)
      ensures forall j :: 0 <= j <= n ==> items[j].work == []
      ensures forall j: nat, c: nat :: !Made(states, j, c)
    {
      this.confs := confs;
      states := seq(n + 1, _ => State(-1, seq(confs, _ => [])));
      items := seq(n + 1, _ => Items([], seq(confs, _ => []), seq(confs, _ => [])));
    }

    ghost predicate Valid()
      reads this
    {
      && |states| == |items|
      && forall j :: 0 <= j < |states| ==> |states[j].sets| == confs && StateRep(states[j], items[j], j)
    }

    /** Only the state `j` may differ. */
    twostate predicate OnlyState(j: nat)
      reads this
    {
      && |states| == |items| == |old(states)| == |old(items)|
      && (forall k :: 0 <= k < |items| && k != j ==> items[k] == old(items)[k])
    }

    method Member(j: nat, c: nat, i: nat) returns (r: bool)
      requires Valid() && j < |states| && c < confs && i <= j
      ensures r == Has(items[j], c, i)
    {
      hide Rep;
      assert SetRep(states[j].sets[c], items[j].done[c], items[j].recent[c], j);
      var v := states[j].sets[c];
      r := v != [] && v[i + 5] != NONE;
      if v != [] {
        MemberIff(v, items[j].done[c], items[j].recent[c], i);
      }
    }

    /** Makes sure that the set exists. */
    method Get(j: nat, c: nat)
      requires Valid() && j < |states| && c < confs
      modifies `states
      ensures Valid() && |states| == |old(states)| && MadeOne(old(states), states, j, c)
    {
      hide Rep, StateRep;
      SetsLength(states[j], items[j], j);
      if states[j].sets[c] == [] {
        GetRep(states[j], items[j], j, c);
        states := states[j := states[j].(sets := states[j].sets[c := NewSet(j)])];
      }
    }

    /** Makes sure that the set exists, and adds the number unless it is a member. */
    method Adjoin(j: nat, c: nat, i: nat)
      requires Valid() && j < |states| && c < confs && i <= j
      modifies this
      ensures Valid() && OnlyState(j) && Plus(old(items)[j], items[j], c, [i]) && MadeOne(old(states), states, j, c)
    {
      hide Rep, StateRep;
      ghost var a := items[j];
      Get(j, c);
      SetsLength(states[j], a, j);
      assert Made(states, j, c);
      var present := Member(j, c, i);
      if !present {
        AdjoinRep(states[j], a, j, c, i);
        PlusAdded(a, c, i);
        states := states[j := AdjoinedState(states[j], c, i)];
        items := items[j := Added(a, c, i)];
      } else {
        PlusNone(a, c, i);
      }
    }

    /** Adds the processed members of the set of `p` in state `k` to that of `c` in state `j`. */
    method Union(j: nat, c: nat, k: nat, p: nat)
      requires Valid() && k <= j < |states| && c < confs && p < confs && states[k].sets[p] != [] && (k != j || c != p)
      modifies this
      ensures Valid() && OnlyState(j) && p < |old(items)[k].done|
      ensures Plus(old(items)[j], items[j], c, old(items)[k].done[p])
    {
      hide Rep, StateRep, Has;
      assert Made(states, k, p);
      Get(j, c);
      assert Made(states, k, p);
      SetsLength(states[k], items[k], k);
      ghost var l := items[k].done[p];
      FirstLink(states[k], items[k], k, p);
      PlusNothing(items[j], c);
      var i := states[k].sets[p][2];
      ghost var m := 0;
      assert l[..0] == [];
      while i >= 0
        invariant Valid() && OnlyState(j) && m <= |l| && i == (if m < |l| then l[m] else -1)
        invariant |items[k].done| == confs && items[k].done[p] == l && Plus(old(items)[j], items[j], c, l[..m])
        decreases |l| - m
      {
        NextLink(states[k], items[k], k, p, m);
        ghost var b := items[j];
        Adjoin(j, c, i);
        PlusMore(old(items)[j], b, items[j], c, l[..m], i);
        assert l[..m + 1] == l[..m] + [i];
        NextLink(states[k], items[k], k, p, m);
        i, m := states[k].sets[p][i + 5], m + 1;
      }
      assert l[..m] == l;
    }

    /** Takes the first configuration off the list and makes its new members processed ones. */
    method Pop(j: nat) returns (c: nat, head: nat)
      requires Valid() && j < |states| && states[j].work >= 0
      modifies this
      ensures Valid() && OnlyState(j) && old(items)[j].work != [] && c == old(items)[j].work[0] < confs
      ensures |old(items)[j].done| == |old(items)[j].recent| == confs && old(items)[j].recent[c] != []
      ensures head == old(items)[j].recent[c][0] && items[j] == Popped(old(items)[j])
      ensures forall k: nat, d: nat :: Made(states, k, d) <==> Made(old(states), k, d)
    {
      hide Rep, StateRep;
      PopRep(states[j], items[j], j);
      c := states[j].work;
      head := states[j].sets[c][4];
      states := states[j := PoppedState(states[j])];
      items := items[j := Popped(items[j])];
    }
  }

  lemma PlusNothing(a: Items, c: nat)
    ensures Plus(a, a, c, [])
  {
  }

  lemma FirstLink(st: State, a: Items, j: nat, c: nat)
    requires StateRep(st, a, j) && c < |st.sets| && st.sets[c] != []
    ensures c < |a.done| && |st.sets[c]| >= 6 && st.sets[c][2] == First(a.done[c])
  {
    assert SetRep(st.sets[c], a.done[c], a.recent[c], j);
  }

  lemma NextLink(st: State, a: Items, j: nat, c: nat, m: nat)
    requires StateRep(st, a, j) && c < |st.sets| && c < |a.done| && m < |a.done[c]|
    ensures a.done[c][m] <= j && |st.sets[c]| == j + 6 && st.sets[c][a.done[c][m] + 5] == Next(a.done[c], m)
  {
    assert SetRep(st.sets[c], a.done[c], a.recent[c], j);
    NextDone(st.sets[c], a.done[c], a.recent[c], m);
  }

  /** A set cannot have more processed members than there are numbers. */
  lemma DoneBound(st: State, a: Items, j: nat, c: nat)
    requires StateRep(st, a, j) && c < |a.done|
    ensures |a.done[c]| <= j + 1
  {
    var l := a.done[c];
    assert SetRep(st.sets[c], l, a.recent[c], j);
    forall m | 0 <= m < |l|
      ensures l[m] < j + 1
    {
      NextLink(st, a, j, c, m);
    }
    FewNumbers(l, j + 1);
  }

  lemma SetsLength(st: State, a: Items, j: nat)
    requires StateRep(st, a, j)
    ensures |st.sets| == |a.done| == |a.recent|
  {
  }
}
