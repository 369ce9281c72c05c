/**
 The Earley parser: the forward pass over the tokens, the backward pass that keeps what the goal needs, and the
 question whether a symbol was parsed.
 */
module EarleyParser {
  import opened EarleyChart
  import opened EarleyGrammar
  import opened EarleyTheory
  import opened EarleyForward
  import opened EarleyParts

  // ----- the forward pass -----

  /** State `j` is complete. */
  ghost predicate Good(env: Env, all: seq<Items>, j: nat) {
    && ClosedAt(env, all, j) && Finished(all[j]) && Seeded(env, all[j], j) && Sound(env, all[j], j)
  }

  ghost predicate NoItems(a: Items) {
    forall c: nat, i: nat :: !Has(a, c, i)
  }

  lemma EmptyState(env: Env, all: seq<Items>, j: nat)
    requires j < |all| && |all[j].done| == |all[j].recent| && NoItems(all[j])
    ensures Sound(env, all[j], j) && ClosedAt(env, all, j)
  {
    forall c: nat | c < |all[j].done|
      ensures all[j].done[c] == []
    {
      if all[j].done[c] != [] {
        assert Has(all[j], c, all[j].done[c][0]);
      }
    }
  }

  /** Fresh items do not matter as long as they are not processed. */
  lemma GrewClosed(env: Env, all: seq<Items>, now: seq<Items>, j: nat)
    requires j < |all| == |now| && ClosedAt(env, all, j) && Grew(all[j], now[j])
    requires forall k :: 0 <= k < |all| && k != j ==> all[k] == now[k]
    ensures ClosedAt(env, now, j)
  {
    hide Has;
    GrewDone(all[j], now[j]);
    GrewHas(all[j], now[j]);
    GrewLists(all[j], now[j]);
    forall k | 0 <= k <= j
      ensures Completes(env, now[k], now[j], k)
    {
      assert Completes(env, all[k], all[j], k);
      forall e: nat, p: nat, i: nat | Fits(env, e, p) && Done(now[j], e, k) && Done(now[k], p, i)
        ensures Has(now[j], p + 1, i)
      {
        assert Done(all[j], e, k) && Done(all[k], p, i);
      }
    }
  }

  lemma GoodSame(env: Env, all: seq<Items>, now: seq<Items>, j: nat)
    requires Good(env, all, j) && |now| == |all| && forall k :: 0 <= k <= j ==> now[k] == all[k]
    ensures Good(env, now, j)
  {
    hide Completes;
  }

  /** Starts state `j` with the configurations of `l` and the number `i`, and processes it. */
  method Fill(env: Env, ch: Chart, j: nat, l: seq<nat>, i: nat)
    requires AllFit(env, ch, j) && i <= j && NoItems(ch.items[j])
    requires forall c: nat :: c in l ==> IsSeed(env, j, c, i)
    requires forall c: nat, k: nat :: IsSeed(env, j, c, k) ==> c in l && k == i
    modifies ch
    ensures AllFit(env, ch, j) && ch.OnlyState(j) && Good(env, ch.items, j)
  {
    hide Ok, Sound, SoundAt, StateRep, Predicts, Completes, Has, IsSeed, NoItems;
    ghost var all := ch.items;
    SetsLength(ch.states[j], ch.items[j], j);
    EmptyState(env, ch.items, j);
    SeedsSound(env, j, l, i);
    AdjoinAll(env, ch, j, l, i);
    GrewClosed(env, all, ch.items, j);
    Forw(env, ch, j);
  }

  lemma SeedsSound(env: Env, j: nat, l: seq<nat>, i: nat)
    requires Ok(env) && forall c: nat :: c in l ==> IsSeed(env, j, c, i)
    ensures forall c :: c in l ==> c < |env.t.steps| && SoundAt(env, c, i, j)
  {
    forall c | c in l
      ensures c < |env.t.steps| && SoundAt(env, c, i, j)
    {
      assert IsSeed(env, j, c, i);
      if j == 0 {
        SoundStart(env, 0, c, 0);
      } else {
        TokenStep(env, c);
      }
    }
  }

  /** All tokens, one state after the other. */
  method Forward(env: Env) returns (ch: Chart)
    requires Ok(env)
    ensures fresh(ch) && ch.Valid() && ch.confs == |env.t.steps| && |ch.states| == |env.toks| + 1
    ensures Closed(env, ch.items) && forall j :: 0 <= j < |ch.items| ==> Sound(env, ch.items[j], j)
  {
    hide Ok, Sound, StateRep, Good, Closed, Has;
    StartersCount(env);
    ch := new Chart(|env.toks|, |env.t.steps|);
    SoundNothing(env, ch.items);
    Fill(env, ch, 0, env.t.starters[0], 0);
    for i := 0 to |env.toks|
      invariant fresh(ch) && AllFit(env, ch, i) && |ch.states| == |env.toks| + 1
      invariant forall j :: 0 <= j <= i ==> Good(env, ch.items, j)
      invariant forall j :: i < j < |ch.items| ==> NoItems(ch.items[j])
    {
      ghost var all := ch.items;
      SoundNothing(env, ch.items);
      Fill(env, ch, i + 1, env.toks[i], i);
      forall j | 0 <= j <= i
        ensures Good(env, ch.items, j)
      {
        GoodSame(env, all, ch.items, j);
      }
    }
    AllGood(env, ch.items);
  }

  lemma StartersCount(env: Env)
    requires Ok(env)
    ensures |env.t.starters| == env.n > 0
  {
  }

  lemma SoundNothing(env: Env, all: seq<Items>)
    ensures forall j :: 0 <= j < |all| && NoItems(all[j]) ==> Sound(env, all[j], j)
  {
  }

  lemma AllGood(env: Env, all: seq<Items>)
    requires Ok(env) && |all| == |env.toks| + 1 && forall j :: 0 <= j < |all| ==> Good(env, all, j)
    ensures Closed(env, all) && forall j :: 0 <= j < |all| ==> Sound(env, all[j], j)
  {
    hide Ok, Sound, Predicts, Completes, Seeded, Finished;
    forall j | 0 <= j < |all|
      ensures Finished(all[j]) && Predicts(env, all[j], j) && Seeded(env, all[j], j) && Sound(env, all[j], j)
    {
      assert Good(env, all, j);
    }
    forall j, k | 0 <= k <= j < |all|
      ensures Completes(env, all[k], all[j], k)
    {
      assert Good(env, all, j);
    }
  }

  // ----- the backward pass -----

  /** Items have been added to the states up to `j`, but none has been processed. */
  ghost predicate GrewUpTo(all: seq<Items>, now: seq<Items>, j: nat) {
    && |now| == |all| && (forall k :: 0 <= k < |all| ==> Grew(all[k], now[k]))
    && (forall k :: j < k < |all| ==> now[k] == all[k])
  }

  lemma GrewUpToTwice(all: seq<Items>, mid: seq<Items>, now: seq<Items>, j: nat)
    requires GrewUpTo(all, mid, j) && GrewUpTo(mid, now, j)
    ensures GrewUpTo(all, now, j)
  {
    forall k | 0 <= k < |all|
      ensures Grew(all[k], now[k])
    {
      GrewTwice(all[k], mid[k], now[k]);
    }
  }

  lemma GrewUpToNot(all: seq<Items>, j: nat)
    ensures GrewUpTo(all, all, j)
  {
  }

  /** The finished chart `f` and the pruned chart `ch` made from it. */
  ghost predicate Both(env: Env, f: Chart, ch: Chart)
    reads f, ch
  {
    && Ok(env) && f != ch && f.Valid() && ch.Valid() && f.confs == ch.confs == |env.t.steps|
    && |f.states| == |ch.states| == |env.toks| + 1 && Justified(env, f.items, ch.items)
    && (forall j :: 0 <= j < |f.items| ==> Sound(env, f.items[j], j))
    && (forall j :: 0 <= j < |f.items| ==> Finished(f.items[j]))
    && NoneEmpty(ch.states, ch.items)
  }

  /** Adds an item of the chart to the pruned chart, and tells whether there is such an item. */
  method AdjoinKept(env: Env, f: Chart, ch: Chart, k: nat, c: nat, i: nat) returns (r: bool)
    requires Both(env, f, ch) && k < |f.states| && c < f.confs && i <= k
    requires Has(f.items[k], c, i) ==> Needed(env, c, i, k)
    modifies ch
    ensures Both(env, f, ch) && GrewUpTo(old(ch.items), ch.items, k)
    ensures r == Has(f.items[k], c, i) && (r ==> Has(ch.items[k], c, i))
  {
    hide Ok, Sound, StateRep, Has, Finished, Needed, Grew, Plus, NoneEmpty, MadeOne;
    r := f.Member(k, c, i);
    ghost var all, before := ch.items, ch.states;
    NotGrown(all);
    if r {
      ch.Adjoin(k, c, i);
      assert i in [i];
      PlusGrew(all[k], ch.items[k], c, [i]);
      PlusJustified(env, f.items, all, ch.items, k, c, i);
      PlusNoneEmpty(before, all, ch.states, ch.items, k, c, i);
    }
  }

  /** The one set that may be new has the new item. */
  lemma PlusNoneEmpty(before: seq<State>, all: seq<Items>, states: seq<State>, now: seq<Items>, k: nat, c: nat, i: nat)
    requires NoneEmpty(before, all) && MadeOne(before, states, k, c) && k < |all| == |now| && Has(now[k], c, i)
    requires Grew(all[k], now[k]) && forall j :: 0 <= j < |all| && j != k ==> now[j] == all[j]
    ensures NoneEmpty(states, now)
  {
    hide Has, Made;
    forall j: nat, d: nat | Made(states, j, d) && j < |now|
      ensures Occupied(now[j], d)
    {
      if j != k || d != c {
        assert Occupied(all[j], d);
        var a: nat :| Has(all[j], d, a);
        GrewHas(all[k], now[k]);
        assert Has(now[j], d, a);
      }
    }
  }

  lemma PoppedNoneEmpty(before: seq<State>, all: seq<Items>, states: seq<State>, now: seq<Items>, j: nat)
    requires NoneEmpty(before, all) && (forall k: nat, d: nat :: Made(states, k, d) <==> Made(before, k, d))
    requires j < |all| == |now| && forall c: nat, i: nat :: Has(now[j], c, i) <==> Has(all[j], c, i)
    requires forall k :: 0 <= k < |all| && k != j ==> now[k] == all[k]
    ensures NoneEmpty(states, now)
  {
    hide Has, Made;
    forall k: nat, d: nat | Made(states, k, d) && k < |now|
      ensures Occupied(now[k], d)
    {
      assert Occupied(all[k], d);
      var a: nat :| Has(all[k], d, a);
      assert Has(now[k], d, a);
    }
  }

  lemma NotGrown(all: seq<Items>)
    ensures forall k :: 0 <= k < |all| ==> Grew(all[k], all[k])
  {
  }

  lemma PlusJustified(env: Env, before: seq<Items>, all: seq<Items>, now: seq<Items>, k: nat, c: nat, i: nat)
    requires Justified(env, before, all) && k < |all| == |now| && Plus(all[k], now[k], c, [i])
    requires Has(before[k], c, i) && Needed(env, c, i, k)
    requires forall j :: 0 <= j < |all| && j != k ==> now[j] == all[j]
    ensures Justified(env, before, now)
  {
    hide Needed;
    forall j: nat, c': nat, i': nat | j < |now| && Has(now[j], c', i')
      ensures Has(before[j], c', i') && Needed(env, c', i', j)
    {
      if j == k && !Has(all[k], c', i') {
        assert c' == c && i' == i;
      } else {
        assert Has(all[j], c', i');
      }
    }
  }

  /** Takes the item behind `p` apart in all ways in which its last symbol is completed by `e`. */
  method TakeApart(env: Env, f: Chart, ch: Chart, j: nat, p: nat, i: nat, e: nat)
    requires Both(env, f, ch) && j < |f.states| && Fits(env, e, p) && f.states[j].sets[e] != []
    requires Needed(env, p + 1, i, j)
    modifies ch
    ensures Both(env, f, ch) && GrewUpTo(old(ch.items), ch.items, j)
    ensures forall k: nat :: Makes(env, f.items, j, p, i, e, k) ==> Taken(ch.items, j, p, i, e, k)
  {
    hide Ok, Sound, SoundAt, StateRep, Has, Finished, Needed, Grew, Plus, Done, Justified, GrewUpTo;
    ghost var all := ch.items;
    GrewUpToNot(all, j);
    EnderConf(env, e, p);
    FirstLink(f.states[j], f.items[j], j, e);
    ghost var l, m := f.items[j].done[e], 0;
    var k := f.states[j].sets[e][2];
    while k >= 0
      invariant Both(env, f, ch) && GrewUpTo(all, ch.items, j)
      invariant m <= |l| && k == (if m < |l| then l[m] else -1)
      invariant forall q: nat :: q < m && Makes(env, f.items, j, p, i, e, l[q]) ==> Taken(ch.items, j, p, i, e, l[q])
      decreases |l| - m
    {
      NextLink(f.states[j], f.items[j], j, e, m);
      ghost var now := ch.items;
      if k >= i {
        DoneHas(f.states[j], f.items[j], j, e, m);
        KeepBoth(env, f, ch, j, p, i, e, k);
        GrewUpToTwice(all, now, ch.items, j);
        forall q: nat | q < m && Makes(env, f.items, j, p, i, e, l[q])
          ensures Taken(ch.items, j, p, i, e, l[q])
        {
          TakenMore(now, ch.items, j, p, i, e, l[q]);
        }
      }
      k, m := f.states[j].sets[e][k + 5], m + 1;
    }
    forall k: nat | Makes(env, f.items, j, p, i, e, k)
      ensures Taken(ch.items, j, p, i, e, k)
    {
      var q := DoneAt(env, f.items, j, p, i, e, k);
    }
  }

  lemma DoneAt(env: Env, before: seq<Items>, j: nat, p: nat, i: nat, e: nat, k: nat) returns (q: nat)
    requires Makes(env, before, j, p, i, e, k) && j < |before| && Finished(before[j])
    ensures e < |before[j].done| && q < |before[j].done[e]| && before[j].done[e][q] == k
  {
    assert Done(before[j], e, k);
    q :| 0 <= q < |before[j].done[e]| && before[j].done[e][q] == k;
  }

  lemma TakenMore(all: seq<Items>, now: seq<Items>, j: nat, p: nat, i: nat, e: nat, k: nat)
    requires Taken(all, j, p, i, e, k) && GrewUpTo(all, now, j)
    ensures Taken(now, j, p, i, e, k)
  {
    GrewHas(all[k], now[k]);
    GrewHas(all[j], now[j]);
  }

  method KeepBoth(env: Env, f: Chart, ch: Chart, j: nat, p: nat, i: nat, e: nat, k: nat)
    requires Both(env, f, ch) && i <= k <= j < |f.states| && Fits(env, e, p) && Needed(env, p + 1, i, j)
    requires Has(f.items[j], e, k)
    modifies ch
    ensures Both(env, f, ch) && GrewUpTo(old(ch.items), ch.items, j)
    ensures Makes(env, f.items, j, p, i, e, k) ==> Taken(ch.items, j, p, i, e, k)
  {
    hide Ok, Sound, SoundAt, StateRep, Has, Finished, Needed, Grew, Plus, Done, Justified;
    ghost var all := ch.items;
    EnderConf(env, e, p);
    BothNeeded(env, f.items, j, p, i, e, k);
    var kept := AdjoinKept(env, f, ch, k, p, i);
    ghost var now := ch.items;
    if kept {
      var done := AdjoinKept(env, f, ch, j, e, k);
      GrewHas(now[k], ch.items[k]);
      GrewFurther(all, now, ch.items, k, j);
    }
  }

  lemma GrewFurther(all: seq<Items>, mid: seq<Items>, now: seq<Items>, k: nat, j: nat)
    requires k <= j && GrewUpTo(all, mid, k) && GrewUpTo(mid, now, j)
    ensures GrewUpTo(all, now, j)
  {
    forall k | 0 <= k < |all|
      ensures Grew(all[k], now[k])
    {
      GrewTwice(all[k], mid[k], now[k]);
    }
  }

  lemma BothNeeded(env: Env, before: seq<Items>, j: nat, p: nat, i: nat, e: nat, k: nat)
    requires Ok(env) && Fits(env, e, p) && k <= j < |before| && Sound(env, before[j], j) && Sound(env, before[k], k)
    requires Needed(env, p + 1, i, j) && Has(before[j], e, k)
    ensures Has(before[k], p, i) ==> Needed(env, p, i, k) && Needed(env, e, k, j)
  {
    if Has(before[k], p, i) {
      NeededStep(env, p, e, i, k, j);
    }
  }

  lemma DoneHas(st: State, a: Items, j: nat, c: nat, m: nat)
    requires StateRep(st, a, j) && c < |a.done| && m < |a.done[c]|
    ensures Has(a, c, a.done[c][m])
  {
  }

  /** Takes the item (c, i) of state `j` apart in all ways. */
  method TakeItem(env: Env, f: Chart, ch: Chart, j: nat, c: nat, i: nat)
    requires Both(env, f, ch) && j < |f.states| && c < f.confs && Needed(env, c, i, j)
    modifies ch
    ensures Both(env, f, ch) && GrewUpTo(old(ch.items), ch.items, j)
    ensures forall p: nat, e: nat, k: nat :: p + 1 == c && Makes(env, f.items, j, p, i, e, k) ==>
      Taken(ch.items, j, p, i, e, k)
  {
    hide Ok, Sound, SoundAt, StateRep, Has, Finished, Needed, Grew, Plus, Done, Justified, GrewUpTo, Makes, Fits;
    ghost var all := ch.items;
    GrewUpToNot(all, j);
    if c >= env.n && c > 0 && env.t.steps[c - 1] >= 0 {
      var p := c - 1;
      NextConf(env, p);
      EndersFit(env, p);
      var l := env.t.enders[env.t.steps[p]];
      for m := 0 to |l|
        invariant Both(env, f, ch) && GrewUpTo(all, ch.items, j)
        invariant forall q: nat, k: nat :: q < m && Makes(env, f.items, j, p, i, l[q], k) ==>
          Taken(ch.items, j, p, i, l[q], k)
      {
        ghost var now := ch.items;
        var e := l[m];
        assert e in l;
        EnderConf(env, e, p);
        if f.states[j].sets[e] != [] {
          TakeApart(env, f, ch, j, p, i, e);
          GrewUpToTwice(all, now, ch.items, j);
          forall q: nat, k: nat | q < m && Makes(env, f.items, j, p, i, l[q], k)
            ensures Taken(ch.items, j, p, i, l[q], k)
          {
            TakenMore(now, ch.items, j, p, i, l[q], k);
          }
        } else {
          NoSetNoMake(env, f.states[j], f.items, j, p, i, e);
        }
      }
      forall e: nat, k: nat | Makes(env, f.items, j, p, i, e, k)
        ensures Taken(ch.items, j, p, i, e, k)
      {
        MakesFits(env, f.items, j, p, i, e, k);
        var q: nat :| q < |l| && l[q] == e;
      }
    } else {
      NoStepNoMake(env, f.items, j, c, i);
    }
  }

  lemma MakesFits(env: Env, before: seq<Items>, j: nat, p: nat, i: nat, e: nat, k: nat)
    requires Makes(env, before, j, p, i, e, k)
    ensures Fits(env, e, p)
  {
  }

  lemma NoSetNoMake(env: Env, st: State, before: seq<Items>, j: nat, p: nat, i: nat, e: nat)
    requires j < |before| && StateRep(st, before[j], j) && e < |st.sets| && st.sets[e] == []
    ensures forall k: nat :: !Makes(env, before, j, p, i, e, k)
  {
    assert SetRep(st.sets[e], before[j].done[e], before[j].recent[e], j);
  }

  lemma NoStepNoMake(env: Env, before: seq<Items>, j: nat, c: nat, i: nat)
    requires Ok(env) && c < |env.t.steps| && !(c >= env.n && c > 0 && env.t.steps[c - 1] >= 0)
    ensures forall p: nat, e: nat, k: nat :: p + 1 == c ==> !Makes(env, before, j, p, i, e, k)
  {
    forall p: nat, e: nat, k: nat | p + 1 == c
      ensures !Makes(env, before, j, p, i, e, k)
    {
      if c < env.n {
        TokenStep(env, p);
      }
    }
  }

  /** Takes a configuration off the list of the pruned chart, and its new items apart. */
  method TakeConf(env: Env, f: Chart, ch: Chart, j: nat)
    requires Both(env, f, ch) && j < |f.states| && ch.states[j].work >= 0 && Keeps(env, f.items, ch.items, j)
    modifies ch
    ensures Both(env, f, ch) && Keeps(env, f.items, ch.items, j) && HasUpTo(old(ch.items), ch.items, j)
    ensures Total(ch.items[j].done) > Total(old(ch.items)[j].done)
  {
    hide Ok, Sound, SoundAt, StateRep, Has, Finished, Needed, Grew, Plus, Done, GrewUpTo, Makes, Fits, Total, Popped,
      Justified, Taken, Keeps, NoneEmpty, Made;
    ghost var all, a, before := ch.items, ch.items[j], ch.states;
    var c, head := ch.Pop(j);
    PoppedFacts(a, c, head);
    PoppedHas(a);
    PoppedNoneEmpty(before, all, ch.states, ch.items, j);
    ghost var popped, from, l := ch.items, |a.done[c]|, ch.items[j].done[c];
    PoppedJustified(env, f.items, all, popped, j);
    GrewUpToNot(popped, j);
    ghost var m := from;
    var i: int := head;
    while i >= 0
      invariant Both(env, f, ch) && GrewUpTo(popped, ch.items, j)
      invariant from <= m <= |l| && i == (if m < |l| then l[m] else -1)
      invariant forall q: nat :: from <= q < m ==> AllTaken(env, f.items, ch.items, j, c, l[q])
      decreases |l| - m
    {
      ghost var now := ch.items;
      GrewAt(popped, now, j);
      NextLink(ch.states[j], now[j], j, c, m);
      DoneHas(ch.states[j], now[j], j, c, m);
      NeededItem(env, f.items, now, j, c, i);
      TakeItem(env, f, ch, j, c, i);
      GrewUpToTwice(popped, now, ch.items, j);
      GrewAt(popped, ch.items, j);
      NextLink(ch.states[j], ch.items[j], j, c, m);
      forall q: nat | from <= q < m
        ensures AllTaken(env, f.items, ch.items, j, c, l[q])
      {
        AllTakenMore(env, f.items, now, ch.items, j, c, l[q]);
      }
      i, m := ch.states[j].sets[c][i + 5], m + 1;
    }
    StillKeeps(env, f.items, all, popped, ch.items, j);
    GrewAt(popped, ch.items, j);
    PoppedUpTo(all, popped, ch.items, j);
  }

  /** The states up to `j` have at least the items that they had, and the others are the same. */
  ghost predicate HasUpTo(all: seq<Items>, now: seq<Items>, j: nat) {
    && |now| == |all| && (forall k: nat, c: nat, i: nat :: k < |all| && Has(all[k], c, i) ==> Has(now[k], c, i))
    && (forall k :: j < k < |all| ==> now[k] == all[k])
    && (forall k :: 0 <= k < |all| && k != j ==> now[k].done == all[k].done && |now[k].recent| == |all[k].recent|)
  }

  ghost predicate AllTaken(env: Env, before: seq<Items>, now: seq<Items>, j: nat, c: nat, i: nat) {
    forall p: nat, e: nat, k: nat :: p + 1 == c && Makes(env, before, j, p, i, e, k) ==> Taken(now, j, p, i, e, k)
  }

  lemma AllTakenMore(env: Env, before: seq<Items>, all: seq<Items>, now: seq<Items>, j: nat, c: nat, i: nat)
    requires AllTaken(env, before, all, j, c, i) && GrewUpTo(all, now, j)
    ensures AllTaken(env, before, now, j, c, i)
  {
    hide Taken, Makes, GrewUpTo;
    forall p: nat, e: nat, k: nat | p + 1 == c && Makes(env, before, j, p, i, e, k)
      ensures Taken(now, j, p, i, e, k)
    {
      TakenMore(all, now, j, p, i, e, k);
    }
  }

  lemma GrewAt(all: seq<Items>, now: seq<Items>, j: nat)
    requires GrewUpTo(all, now, j) && j < |all|
    ensures |now| == |all| && now[j].done == all[j].done && |now[j].recent| == |all[j].recent|
  {
  }

  lemma NeededItem(env: Env, before: seq<Items>, now: seq<Items>, j: nat, c: nat, i: nat)
    requires Justified(env, before, now) && j < |now| && Has(now[j], c, i)
    ensures Needed(env, c, i, j)
  {
  }

  lemma PoppedJustified(env: Env, before: seq<Items>, all: seq<Items>, now: seq<Items>, j: nat)
    requires Justified(env, before, all) && j < |all| == |now|
    requires forall c: nat, i: nat :: Has(now[j], c, i) <==> Has(all[j], c, i)
    requires forall k :: 0 <= k < |all| && k != j ==> now[k] == all[k]
    ensures Justified(env, before, now)
  {
    hide Needed, Has;
    forall k: nat, c: nat, i: nat | k < |now| && Has(now[k], c, i)
      ensures Has(before[k], c, i) && Needed(env, c, i, k)
    {
      assert Has(all[k], c, i);
    }
  }

  lemma PoppedUpTo(all: seq<Items>, popped: seq<Items>, now: seq<Items>, j: nat)
    requires j < |all| == |popped| && GrewUpTo(popped, now, j)
    requires forall c: nat, i: nat :: Has(popped[j], c, i) <==> Has(all[j], c, i)
    requires forall k :: 0 <= k < |all| && k != j ==> popped[k] == all[k]
    ensures HasUpTo(all, now, j)
  {
    hide Has;
    forall k: nat, c: nat, i: nat | k < |all| && Has(all[k], c, i)
      ensures Has(now[k], c, i)
    {
      GrewHas(popped[k], now[k]);
      assert Has(popped[k], c, i);
    }
    forall k | 0 <= k < |all| && k != j
      ensures now[k].done == all[k].done && |now[k].recent| == |all[k].recent|
    {
      GrewLists(popped[k], now[k]);
    }
  }

  lemma StillKeeps(env: Env, before: seq<Items>, all: seq<Items>, popped: seq<Items>, now: seq<Items>, j: nat)
    requires j < |all| == |popped| && all[j].work != [] && all[j].work[0] < |all[j].recent| == |all[j].done|
    requires popped[j] == Popped(all[j]) && (forall k :: 0 <= k < |all| && k != j ==> popped[k] == all[k])
    requires GrewUpTo(popped, now, j) && Keeps(env, before, all, j)
    requires var c := all[j].work[0]; var l := popped[j].done[c];
      forall q: nat :: |all[j].done[c]| <= q < |l| ==> AllTaken(env, before, now, j, c, l[q])
    ensures Keeps(env, before, now, j)
  {
    var c, a := all[j].work[0], all[j];
    PoppedHas(a);
    GrewDone(popped[j], now[j]);
    hide Makes, Has, Popped, Grew;
    forall p: nat, i: nat, e: nat, k: nat | Done(now[j], p + 1, i) && Makes(env, before, j, p, i, e, k)
      ensures Taken(now, j, p, i, e, k)
    {
      if Done(a, p + 1, i) {
        assert Taken(all, j, p, i, e, k);
        TakenPopped(all, popped, j, p, i, e, k);
        TakenMore(popped, now, j, p, i, e, k);
      } else {
        var l := popped[j].done[c];
        var q := PlaceOf(a, i, p + 1);
        assert AllTaken(env, before, now, j, c, l[q]);
      }
    }
  }

  lemma PlaceOf(a: Items, i: nat, c: nat) returns (q: nat)
    requires a.work != [] && a.work[0] < |a.recent| == |a.done| && Done(Popped(a), c, i) && !Done(a, c, i)
    ensures c == a.work[0] && |a.done[c]| <= q < |Popped(a).done[c]| && Popped(a).done[c][q] == i
  {
    PoppedHas(a);
    var b := Popped(a);
    assert b.done[a.work[0]] == a.done[a.work[0]] + a.recent[a.work[0]];
    var m :| 0 <= m < |a.recent[c]| && a.recent[c][m] == i;
    q := |a.done[c]| + m;
  }

  lemma TakenPopped(all: seq<Items>, popped: seq<Items>, j: nat, p: nat, i: nat, e: nat, k: nat)
    requires Taken(all, j, p, i, e, k) && j < |all| == |popped|
    requires forall c: nat, i: nat :: Has(popped[j], c, i) <==> Has(all[j], c, i)
    requires forall k :: 0 <= k < |all| && k != j ==> popped[k] == all[k]
    ensures Taken(popped, j, p, i, e, k)
  {
    hide Has;
    if k != j {
      assert popped[k] == all[k];
    }
  }

  ghost predicate NotBegun(a: Items) {
    forall c: nat, i: nat :: !Done(a, c, i)
  }

  lemma NotBegunKeeps(env: Env, before: seq<Items>, now: seq<Items>, j: nat)
    requires j < |now| && NotBegun(now[j])
    ensures Keeps(env, before, now, j)
  {
  }

  lemma HasUpToTwice(all: seq<Items>, mid: seq<Items>, now: seq<Items>, j: nat)
    requires HasUpTo(all, mid, j) && HasUpTo(mid, now, j)
    ensures HasUpTo(all, now, j)
  {
  }

  lemma KeepsMore(env: Env, before: seq<Items>, all: seq<Items>, now: seq<Items>, j: nat, j': nat)
    requires HasUpTo(all, now, j) && j < j' < |all| && Keeps(env, before, all, j')
    ensures Keeps(env, before, now, j')
  {
    hide Has, Makes;
    forall p: nat, i: nat, e: nat, k: nat | Done(now[j'], p + 1, i) && Makes(env, before, j', p, i, e, k)
      ensures Taken(now, j', p, i, e, k)
    {
      assert Taken(all, j', p, i, e, k);
    }
  }

  lemma NotBegunMore(all: seq<Items>, now: seq<Items>, j: nat, j': nat)
    requires HasUpTo(all, now, j) && j != j' && j' < |all| && NotBegun(all[j'])
    ensures NotBegun(now[j'])
  {
    forall c: nat, i: nat
      ensures !Done(now[j'], c, i)
    {
      assert !Done(all[j'], c, i);
    }
  }

  /** Processes state `j` of the pruned chart until nothing is left to do. */
  method Prune(env: Env, f: Chart, ch: Chart, j: nat)
    requires Both(env, f, ch) && j < |f.states| && Keeps(env, f.items, ch.items, j)
    modifies ch
    ensures Both(env, f, ch) && Keeps(env, f.items, ch.items, j) && Finished(ch.items[j])
    ensures HasUpTo(old(ch.items), ch.items, j)
  {
    hide Ok, Sound, StateRep, Total, Has, Justified, Keeps, Finished;
    AllBound(ch.states[j], ch.items[j], j);
    HasUpToNot(ch.items, j);
    hide HasUpTo;
    while ch.states[j].work >= 0
      invariant Both(env, f, ch) && Keeps(env, f.items, ch.items, j) && HasUpTo(old(ch.items), ch.items, j)
      invariant Total(ch.items[j].done) <= ch.confs * (j + 1)
      decreases ch.confs * (j + 1) - Total(ch.items[j].done)
    {
      ghost var all := ch.items;
      TakeConf(env, f, ch, j);
      HasUpToTwice(old(ch.items), all, ch.items, j);
      AllBound(ch.states[j], ch.items[j], j);
    }
    NothingLeft(ch.states[j], ch.items[j], j);
  }

  lemma HasUpToNot(all: seq<Items>, j: nat)
    ensures HasUpTo(all, all, j)
  {
  }

  /** The first items of the backward pass: those of the complete goal. */
  method KeepGoal(env: Env, f: Chart, ch: Chart)
    requires Both(env, f, ch) && forall j :: 0 <= j < |ch.items| ==> NotBegun(ch.items[j])
    modifies ch
    ensures Both(env, f, ch) && GoalKept(env, f.items, ch.items)
    ensures forall j :: 0 <= j < |ch.items| ==> NotBegun(ch.items[j])
  {
    hide Sound, SoundAt, StateRep, Has, Justified, Finished, Needed, Grew;
    var n := |env.toks|;
    GoalEnders(env);
    var l := env.t.enders[0];
    hide Ok;
    for m := 0 to |l|
      invariant Both(env, f, ch) && forall j :: 0 <= j < |ch.items| ==> NotBegun(ch.items[j])
      invariant forall q :: 0 <= q < m && Has(f.items[n], l[q], 0) ==> Has(ch.items[n], l[q], 0)
    {
      ghost var all := ch.items;
      assert l[m] in l;
      GoalItem(env, f.items, l[m]);
      var kept := AdjoinKept(env, f, ch, n, l[m], 0);
      GrewHas(all[n], ch.items[n]);
      forall j | 0 <= j < |ch.items|
        ensures NotBegun(ch.items[j])
      {
        GrewDone(all[j], ch.items[j]);
      }
    }
  }

  lemma GoalEnders(env: Env)
    requires Ok(env)
    ensures |env.t.enders| > 0 && forall e :: e in env.t.enders[0] ==> e < |env.t.steps|
  {
  }

  lemma GoalItem(env: Env, before: seq<Items>, e: nat)
    requires Ok(env) && |before| == |env.toks| + 1 && Sound(env, before[|env.toks|], |env.toks|)
    requires |env.t.enders| > 0 && e in env.t.enders[0]
    ensures Has(before[|env.toks|], e, 0) ==> Needed(env, e, 0, |env.toks|)
  {
    if Has(before[|env.toks|], e, 0) {
      GoalNeeded(env, e);
    }
  }

  /** The pruned chart. */
  method Backward(env: Env, f: Chart) returns (ch: Chart)
    requires Ok(env) && f.Valid() && f.confs == |env.t.steps| && |f.states| == |env.toks| + 1
    requires Closed(env, f.items) && forall j :: 0 <= j < |f.items| ==> Sound(env, f.items[j], j)
    ensures fresh(ch) && ch.Valid() && ch.confs == f.confs && |ch.states| == |f.states|
    ensures Pruned(env, f.items, ch.items) && NoneEmpty(ch.states, ch.items)
  {
    ch := new Chart(|env.toks|, |env.t.steps|);
    EmptyBoth(env, f, ch);
    hide Ok, Sound, StateRep, Has, Justified, Keeps, Finished, Closed, NotBegun, HasUpTo;
    KeepGoal(env, f, ch);
    var i := |env.toks|;
    while i >= 0
      invariant -1 <= i <= |env.toks| && fresh(ch) && Both(env, f, ch) && GoalKept(env, f.items, ch.items)
      invariant forall j :: 0 <= j <= i ==> NotBegun(ch.items[j])
      invariant forall j :: i < j < |ch.items| ==> Keeps(env, f.items, ch.items, j) && Finished(ch.items[j])
    {
      ghost var all := ch.items;
      NotBegunKeeps(env, f.items, all, i);
      Prune(env, f, ch, i);
      AfterPrune(env, f.items, all, ch.items, i);
      i := i - 1;
    }
  }

  lemma EmptyBoth(env: Env, f: Chart, ch: Chart)
    requires Ok(env) && f.Valid() && f.confs == |env.t.steps| && |f.states| == |env.toks| + 1
    requires Closed(env, f.items) && forall j :: 0 <= j < |f.items| ==> Sound(env, f.items[j], j)
    requires f != ch && ch.Valid() && |ch.states| == |f.states| && ch.confs == f.confs
    requires forall j, c, i :: 0 <= j < |ch.states| ==> !Has(ch.items[j], c, i)
    requires forall j: nat, c: nat :: !Made(ch.states, j, c)
    ensures Both(env, f, ch) && forall j :: 0 <= j < |ch.items| ==> NotBegun(ch.items[j])
  {
    hide Ok, Sound, StateRep, Needed;
    forall j | 0 <= j < |ch.items|
      ensures NotBegun(ch.items[j])
    {
      forall c: nat, i: nat
        ensures !Done(ch.items[j], c, i)
      {
        assert !Has(ch.items[j], c, i);
      }
    }
  }

  lemma AfterPrune(env: Env, before: seq<Items>, all: seq<Items>, now: seq<Items>, i: nat)
    requires |all| == |before| == |env.toks| + 1 && i < |all| && HasUpTo(all, now, i) && GoalKept(env, before, all)
    requires Keeps(env, before, now, i) && Finished(now[i])
    requires forall j :: 0 <= j <= i ==> NotBegun(all[j])
    requires forall j :: i < j < |all| ==> Keeps(env, before, all, j) && Finished(all[j])
    ensures GoalKept(env, before, now)
    ensures forall j :: 0 <= j < i ==> NotBegun(now[j])
    ensures forall j :: i <= j < |now| ==> Keeps(env, before, now, j) && Finished(now[j])
  {
    hide Has, Keeps, Finished, NotBegun;
    forall j | 0 <= j < i
      ensures NotBegun(now[j])
    {
      NotBegunMore(all, now, i, j);
    }
    forall j | i < j < |now|
      ensures Keeps(env, before, now, j) && Finished(now[j])
    {
      KeepsMore(env, before, all, now, i, j);
    }
  }

  // ----- the answers -----

  /** What a look at the set of `e` in a state says about `i`.  Reading beyond the end of a set gives a value that is
      not `false`, so for i > j the answer is yes as soon as there is a set. */
  ghost predicate Says(st: State, a: Items, j: nat, e: nat, i: nat) {
    if i <= j then Has(a, e, i) else e < |st.sets| && st.sets[e] != []
  }

  method Look(ch: Chart, j: nat, e: nat, i: nat) returns (r: bool)
    requires ch.Valid() && j < |ch.states| && e < ch.confs
    ensures |ch.items| == |ch.states| && r == Says(ch.states[j], ch.items[j], j, e, i)
  {
    hide StateRep, Has;
    if i <= j {
      r := ch.Member(j, e, i);
    } else {
      r := ch.states[j].sets[e] != [];
    }
  }

  method LookAtAll(ch: Chart, j: nat, l: seq<nat>, i: nat) returns (r: bool)
    requires ch.Valid() && j < |ch.states| && forall q :: 0 <= q < |l| ==> l[q] < ch.confs
    ensures |ch.items| == |ch.states|
    ensures r <==> exists q :: 0 <= q < |l| && Says(ch.states[j], ch.items[j], j, l[q], i)
  {
    hide StateRep, Says;
    r := false;
    var m := 0;
    while m < |l| && !r
      invariant m <= |l| && (r <==> exists q :: 0 <= q < m && Says(ch.states[j], ch.items[j], j, l[q], i))
    {
      r := Look(ch, j, l[m], i);
      m := m + 1;
    }
  }

  /** A number that stands for no symbol of the grammar occurs nowhere. */
  lemma NoSuchSymbol(env: Env, x: nat, i: nat, j: nat)
    requires Ok(env) && x >= env.n
    ensures !PartOfParse(env, x, i, j)
  {
    forall t, s | Part(env, t, s, x, i, j)
      ensures false
    {
      InsideParses(env, t, 0, 0, |env.toks|, s, x, i, j);
    }
  }

  /** Whether the symbol, if it is one, was parsed from `i` to `j`. */
  method IsParsed(env: Env, ch: Chart, x: nat, i: nat, j: nat, ghost all: seq<Items>) returns (r: bool)
    requires Ok(env) && ch.Valid() && ch.confs == |env.t.steps| && j < |ch.states| == |all|
    requires Closed(env, all) && Sound(env, all[j], j) && Pruned(env, all, ch.items) && NoneEmpty(ch.states, ch.items)
    ensures r <==> Answer(env, x, i, j)
  {
    if x >= env.n {
      forall a: nat
        ensures !PartOfParse(env, x, a, j)
      {
        NoSuchSymbol(env, x, a, j);
      }
      return false;
    }
    r := IsSymbolParsed(env, ch, x, i, j, all);
  }

  method IsSymbolParsed(env: Env, ch: Chart, x: nat, i: nat, j: nat, ghost all: seq<Items>) returns (r: bool)
    requires Ok(env) && ch.Valid() && ch.confs == |env.t.steps| && j < |ch.states| == |all| && x < env.n
    requires Closed(env, all) && Sound(env, all[j], j) && Pruned(env, all, ch.items) && NoneEmpty(ch.states, ch.items)
    ensures r <==> Answer(env, x, i, j)
  {
    SymbolEnders(env, x);
    hide Ok, StateRep, Says, Closed, Sound, Pruned, NoneEmpty, Answer;
    var l := env.t.enders[x];
    assert forall q :: 0 <= q < |l| ==> l[q] in l;
    r := LookAtAll(ch, j, l, i);
    if i <= j {
      FoundForwards(env, all, ch.states, ch.items, x, i, j);
    } else {
      FoundBackwards(env, all, ch.states, ch.items, x, i, j);
    }
  }

  /** What `is_parsed` answers, in terms of derivations: for i > j, whether the symbol occurs from anywhere to `j`. */
  ghost predicate Answer(env: Env, x: nat, i: nat, j: nat) {
    if i <= j then PartOfParse(env, x, i, j) else exists a: nat :: a <= j && PartOfParse(env, x, a, j)
  }

  lemma FoundForwards(env: Env, all: seq<Items>, states: seq<State>, now: seq<Items>, x: nat, i: nat, j: nat)
    requires Closed(env, all) && Pruned(env, all, now) && j < |all| && |states| == |now| && Sound(env, all[j], j)
    requires x < env.n == |env.t.enders| && i <= j
    ensures (exists e :: e in env.t.enders[x] && Says(states[j], now[j], j, e, i)) <==> Answer(env, x, i, j)
  {
    hide Closed, PartOfParse, Sound;
    assert |now| == |all|;
    hide Pruned;
    PrunedIff(env, all, now, x, i, j);
    SaysFound(env, states[j], now[j], x, i, j);
  }

  lemma FoundBackwards(env: Env, all: seq<Items>, states: seq<State>, now: seq<Items>, x: nat, i: nat, j: nat)
    requires Closed(env, all) && Pruned(env, all, now) && j < |all| && |states| == |now| && Sound(env, all[j], j)
    requires x < env.n == |env.t.enders| && i > j && StateRep(states[j], now[j], j) && NoneEmpty(states, now)
    ensures (exists e :: e in env.t.enders[x] && Says(states[j], now[j], j, e, i)) <==> Answer(env, x, i, j)
  {
    hide Closed, PartOfParse, Sound, StateRep;
    assert |now| == |all|;
    hide Pruned;
    if e :| e in env.t.enders[x] && Says(states[j], now[j], j, e, i) {
      assert Made(states, j, e);
      var a: nat :| Has(now[j], e, a);
      MembersBelow(states[j], now[j], j, e, a);
      PrunedIff(env, all, now, x, a, j);
    }
    if a: nat :| a <= j && PartOfParse(env, x, a, j) {
      PrunedIff(env, all, now, x, a, j);
      var e :| e in env.t.enders[x] && Has(now[j], e, a);
      MembersBelow(states[j], now[j], j, e, a);
      assert Says(states[j], now[j], j, e, i);
    }
  }

  lemma SymbolEnders(env: Env, x: nat)
    requires Ok(env) && x < env.n
    ensures |env.t.enders| == env.n && forall e :: e in env.t.enders[x] ==> e < |env.t.steps|
  {
  }

  /** Parses the tokens and asks for a symbol.  For i <= j it is found exactly where it occurs in a derivation of all
      tokens from the goal. */
  method Parsed(env: Env, x: nat, i: nat, j: nat) returns (r: bool)
    requires Ok(env) && j <= |env.toks|
    ensures r <==> if i <= j then PartOfParse(env, x, i, j) else exists a: nat :: a <= j && PartOfParse(env, x, a, j)
  {
    hide Ok, StateRep, PartOfParse, Closed, Pruned, Sound, NoneEmpty;
    var f := Forward(env);
    var ch := Backward(env, f);
    r := IsParsed(env, ch, x, i, j, f.items);
  }

  lemma SaysFound(env: Env, st: State, a: Items, x: nat, i: nat, j: nat)
    requires i <= j && x < |env.t.enders|
    ensures SymbolFound(env, a, x, i) <==> exists e :: e in env.t.enders[x] && Says(st, a, j, e, i)
  {
    if SymbolFound(env, a, x, i) {
      var e :| e in env.t.enders[x] && Has(a, e, i);
      assert Says(st, a, j, e, i);
    }
  }

  /** The goal is part of a parse of all tokens exactly when the grammar derives them from it. */
  lemma WholeIffDerives(env: Env)
    ensures PartOfParse(env, 0, 0, |env.toks|) <==> Derives(env.g, env.toks, 0, 0, |env.toks|)
  {
    var n := |env.toks|;
    if PartOfParse(env, 0, 0, n) {
      var t, s :| Part(env, t, s, 0, 0, n);
    }
    if Derives(env.g, env.toks, 0, 0, n) {
      var t :| Parses(env.g, env.toks, t, 0, 0, n);
      assert Part(env, t, t, 0, 0, n);
    }
  }

  /** No symbol occurs backwards, so for i > j an answer of yes is wrong. */
  lemma NothingBackwards(env: Env, x: nat, i: nat, j: nat)
    requires i > j
    ensures !PartOfParse(env, x, i, j)
  {
    forall t, s
      ensures !Part(env, t, s, x, i, j)
    {
      if Part(env, t, s, x, i, j) {
        InsideParses(env, t, 0, 0, |env.toks|, s, x, i, j);
        ParsesForward(env.g, env.toks, s, x, i, j);
      }
    }
  }

  /** The answer is right exactly for i <= j, and where the symbol does not occur up to `j` at all. */
  lemma RightIff(env: Env, x: nat, i: nat, j: nat)
    ensures (Answer(env, x, i, j) <==> PartOfParse(env, x, i, j)) <==>
      (i <= j || forall a: nat :: a <= j ==> !PartOfParse(env, x, a, j))
  {
    hide PartOfParse;
    if i > j {
      NothingBackwards(env, x, i, j);
    }
  }

  /** Whenever the goal derives all tokens, it is also said to be parsed from every position beyond the end. */
  lemma WrongBeyondTheEnd(env: Env, i: nat)
    requires Derives(env.g, env.toks, 0, 0, |env.toks|) && i > |env.toks|
    ensures Answer(env, 0, i, |env.toks|) && !PartOfParse(env, 0, i, |env.toks|)
  {
    hide PartOfParse;
    WholeIffDerives(env);
    NothingBackwards(env, 0, i, |env.toks|);
  }

  /** For example with one symbol, no rule and one token: is_parsed(0, 2, 1) is true. */
  method WrongExample() returns (r: bool)
    ensures r && forall t: Tables :: !PartOfParse(Env([], 1, t, [[0]]), 0, 2, 1)
  {
    var toks := [[0]];
    var t := MakeTables([], 1);
    var env := Env([], 1, t, toks);
    r := Parsed(env, 0, 2, 1);
    assert Parses([], toks, Token, 0, 0, 1);
    WrongBeyondTheEnd(env, 2);
    forall t: Tables
      ensures !PartOfParse(Env([], 1, t, [[0]]), 0, 2, 1)
    {
      NothingBackwards(Env([], 1, t, [[0]]), 0, 2, 1);
    }
  }

  /** The parser of a grammar, applied to tokens: the tables are made, and the tokens are parsed from symbol 0. */
  method Recognise(g: seq<Production>, n: nat, toks: seq<seq<nat>>) returns (r: bool)
    requires n > 0 && Symbols(g, n)
    requires forall i, k :: 0 <= i < |toks| && 0 <= k < |toks[i]| ==> toks[i][k] < n
    ensures r <==> Derives(g, toks, 0, 0, |toks|)
  {
    hide Symbols, Describes, PartOfParse, Derives;
    var t := MakeTables(g, n);
    var env := Env(g, n, t, toks);
    r := Parsed(env, 0, 0, |toks|);
    WholeIffDerives(env);
  }
}
