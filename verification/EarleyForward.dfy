/**
 The forward pass of the Earley parser.
 */
module EarleyForward {
  import opened EarleyChart
  import opened EarleyGrammar
  import opened EarleyTheory

  /** Items have been added, but none has been processed. */
  ghost predicate Grew(a: Items, b: Items) {
    b.done == a.done && |b.recent| == |a.recent| && forall c: nat, i: nat :: Has(a, c, i) ==> Has(b, c, i)
  }

  lemma GrewTwice(a: Items, b: Items, d: Items)
    requires Grew(a, b) && Grew(b, d)
    ensures Grew(a, d)
  {
  }

  lemma PlusGrew(a: Items, b: Items, c: nat, l: seq<nat>)
    requires Plus(a, b, c, l)
    ensures Grew(a, b) && forall i :: i in l ==> Has(b, c, i)
  {
  }

  lemma PlusSound(env: Env, a: Items, b: Items, c: nat, l: seq<nat>, j: nat)
    requires Plus(a, b, c, l) && Sound(env, a, j) && forall i :: i in l ==> SoundAt(env, c, i, j)
    ensures Sound(env, b, j)
  {
  }

  /** The chart belongs to the tables, and state `j` is sound. */
  ghost predicate Fit(env: Env, ch: Chart, j: nat)
    reads ch
  {
    Ok(env) && ch.Valid() && ch.confs == |env.t.steps| && j < |ch.states| && Sound(env, ch.items[j], j)
  }

  /** Adds the configurations of a list, all with the number `i`. */
  method AdjoinAll(env: Env, ch: Chart, j: nat, l: seq<nat>, i: nat)
    requires Fit(env, ch, j) && i <= j && forall c :: c in l ==> c < ch.confs && SoundAt(env, c, i, j)
    modifies ch
    ensures Fit(env, ch, j) && ch.OnlyState(j) && Grew(old(ch.items)[j], ch.items[j])
    ensures forall c :: c in l ==> Has(ch.items[j], c, i)
  {
    hide Ok, Sound, SoundAt, Has, StateRep, Plus, Grew;
    GrewNot(ch.items[j]);
    for m := 0 to |l|
      invariant Fit(env, ch, j) && ch.OnlyState(j) && Grew(old(ch.items)[j], ch.items[j])
      invariant forall k :: 0 <= k < m ==> Has(ch.items[j], l[k], i)
    {
      ghost var a := ch.items[j];
      assert l[m] in l;
      ch.Adjoin(j, l[m], i);
      PlusGrew(a, ch.items[j], l[m], [i]);
      assert i in [i];
      PlusSound(env, a, ch.items[j], l[m], [i], j);
      GrewTwice(old(ch.items)[j], a, ch.items[j]);
    }
  }

  lemma GrewNot(a: Items)
    ensures Grew(a, a)
  {
  }

  /** Moves every processed item of `p` in state `k` over the symbol that `e` has completed from `k` to `j`. */
  method Advance(env: Env, ch: Chart, j: nat, k: nat, p: nat, ghost e: nat)
    requires Fit(env, ch, j) && Fit(env, ch, k) && k <= j && EarleyTheory.Fits(env, e, p) && SoundAt(env, e, k, j)
    requires ch.states[k].sets[p] != []
    modifies ch
    ensures Fit(env, ch, j) && ch.OnlyState(j) && Grew(old(ch.items)[j], ch.items[j])
    ensures forall i: nat :: Done(old(ch.items)[k], p, i) ==> Has(ch.items[j], p + 1, i)
  {
    hide Ok, Sound, SoundAt, Has, StateRep, Plus, Grew;
    NextConf(env, p);
    SetsLength(ch.states[k], ch.items[k], k);
    ghost var a, l := ch.items[j], ch.items[k].done[p];
    ch.Union(j, p + 1, k, p);
    PlusGrew(a, ch.items[j], p + 1, l);
    forall i | i in l
      ensures SoundAt(env, p + 1, i, j)
    {
      SoundDone(env, old(ch.items)[k], k, p, i);
      SoundComplete(env, e, p, i, k, j);
    }
    PlusSound(env, a, ch.items[j], p + 1, l, j);
  }

  lemma SoundDone(env: Env, a: Items, j: nat, c: nat, i: nat)
    requires Sound(env, a, j) && c < |a.done| && c < |a.recent| && i in a.done[c]
    ensures SoundAt(env, c, i, j)
  {
    assert Has(a, c, i);
  }

  /** When the symbol that `c` waits for is already complete in its own state, `c` moves on at once. */
  method MoveOn(env: Env, ch: Chart, j: nat, c: nat, ghost first: nat)
    requires Fit(env, ch, j) && c < ch.confs && env.t.steps[c] >= 0 && Done(ch.items[j], c, first)
    modifies ch
    ensures Fit(env, ch, j) && ch.OnlyState(j) && Grew(old(ch.items)[j], ch.items[j])
    ensures forall e: nat, i: nat :: Fits(env, e, c) && Has(old(ch.items)[j], e, j) && Done(old(ch.items)[j], c, i) ==>
      Has(ch.items[j], c + 1, i)
  {
    hide Ok, Sound, SoundAt, Has, StateRep, Plus, Grew, Done, Fits;
    NextConf(env, c);
    EndersFit(env, c);
    var l := env.t.enders[env.t.steps[c]];
    ghost var a := ch.items[j];
    GrewNot(a);
    for m := 0 to |l|
      invariant Fit(env, ch, j) && ch.OnlyState(j) && Grew(a, ch.items[j])
      invariant forall n: nat, i: nat :: n < m && Has(a, l[n], j) && Done(a, c, i) ==> Has(ch.items[j], c + 1, i)
    {
      var e := l[m];
      assert e in l;
      EnderConf(env, e, c);
      var complete := ch.Member(j, e, j);
      ghost var b := ch.items[j];
      if complete {
        SoundHas(env, b, j, e, j);
        GrewDone(a, b);
        DoneSet(ch.states[j], b, j, c, first);
        Advance(env, ch, j, j, c, e);
        GrewTwice(a, b, ch.items[j]);
        GrewHas(b, ch.items[j]);
      } else {
        GrewHas(a, b);
      }
    }
  }

  lemma EndersFit(env: Env, c: nat)
    requires Ok(env) && c < |env.t.steps| && 0 <= env.t.steps[c] < env.n
    ensures |env.t.enders| == env.n && forall e: nat :: Fits(env, e, c) <==> e in env.t.enders[env.t.steps[c]]
  {
  }

  lemma EnderConf(env: Env, e: nat, c: nat)
    requires Fits(env, e, c)
    ensures e < |env.t.steps| && c < |env.t.steps|
  {
  }

  lemma SoundHas(env: Env, a: Items, j: nat, c: nat, i: nat)
    requires Sound(env, a, j) && Has(a, c, i)
    ensures SoundAt(env, c, i, j)
  {
  }

  lemma GrewHas(a: Items, b: Items)
    requires Grew(a, b)
    ensures forall c: nat, i: nat :: Has(a, c, i) ==> Has(b, c, i)
  {
  }

  lemma GrewDone(a: Items, b: Items)
    requires Grew(a, b)
    ensures forall c: nat, i: nat :: Done(a, c, i) <==> Done(b, c, i)
  {
  }

  /** The processed items of a configuration are in a set that exists. */
  lemma DoneSet(st: State, a: Items, j: nat, c: nat, i: nat)
    requires StateRep(st, a, j) && Done(a, c, i)
    ensures c < |st.sets| && st.sets[c] != [] && i <= j
  {
    assert Has(a, c, i);
    MembersBelow(st, a, j, c, i);
  }

  /** All states up to `j` are sound. */
  ghost predicate AllFit(env: Env, ch: Chart, j: nat)
    reads ch
  {
    && Ok(env) && ch.Valid() && ch.confs == |env.t.steps| && j < |ch.states|
    && forall k :: 0 <= k <= j ==> Sound(env, ch.items[k], k)
  }

  /** The processed items of `p` in the states l[from..upto] have moved on. */
  ghost predicate MovedOver(all: seq<Items>, l: seq<nat>, from: nat, upto: nat, p: nat, d: Items) {
    forall m: nat, i: nat :: from <= m < upto <= |l| && l[m] < |all| && Done(all[l[m]], p, i) ==> Has(d, p + 1, i)
  }

  /** The new members `k` of the set of `c` say that a symbol is complete from `k` to `j`; `p` waits for it. */
  method CompleteOne(env: Env, ch: Chart, j: nat, c: nat, p: nat, head: nat, ghost from: nat)
    requires AllFit(env, ch, j) && Fits(env, c, p) && c < |ch.items[j].done| && c < |ch.items[j].recent|
    requires from < |ch.items[j].done[c]| && head == ch.items[j].done[c][from]
    modifies ch
    ensures AllFit(env, ch, j) && ch.OnlyState(j) && Grew(old(ch.items)[j], ch.items[j])
    ensures MovedOver(old(ch.items), old(ch.items)[j].done[c], from, |old(ch.items)[j].done[c]|, p, ch.items[j])
  {
    hide Ok, Sound, SoundAt, Has, StateRep, Plus, Grew, Done, Fits;
    EnderConf(env, c, p);
    ghost var a, l, all, m := ch.items[j], ch.items[j].done[c], ch.items, from;
    GrewNot(a);
    var k: int := head;
    while k >= 0
      invariant AllFit(env, ch, j) && ch.OnlyState(j) && Grew(a, ch.items[j])
      invariant from <= m <= |l| && k == (if m < |l| then l[m] else -1)
      invariant MovedOver(all, l, from, m, p, ch.items[j])
      decreases |l| - m
    {
      ghost var b := ch.items[j];
      GrewLists(a, b);
      NextLink(ch.states[j], b, j, c, m);
      SetsLength(ch.states[j], b, j);
      SoundDone(env, b, j, c, k);
      GrewDone(a, b);
      if ch.states[k].sets[p] != [] {
        Advance(env, ch, j, k, p, c);
        GrewTwice(a, b, ch.items[j]);
        GrewHas(b, ch.items[j]);
      } else {
        NoSetNotDone(ch.states[k], ch.items[k], k, p);
      }
      GrewLists(a, ch.items[j]);
      NextLink(ch.states[j], ch.items[j], j, c, m);
      k, m := ch.states[j].sets[c][k + 5], m + 1;
    }
  }

  lemma GrewLists(a: Items, b: Items)
    requires Grew(a, b)
    ensures b.done == a.done && |b.recent| == |a.recent|
  {
  }

  lemma NoSetNotDone(st: State, a: Items, j: nat, c: nat)
    requires StateRep(st, a, j) && c < |st.sets| && st.sets[c] == []
    ensures forall i: nat :: !Done(a, c, i)
  {
    assert SetRep(st.sets[c], a.done[c], a.recent[c], j);
  }

  /** All that wait for the symbol that `c` completes move on over its new members. */
  method CompleteAll(env: Env, ch: Chart, j: nat, c: nat, head: nat, ghost from: nat)
    requires AllFit(env, ch, j) && c < |env.t.steps| && env.t.steps[c] < 0
    requires c < |ch.items[j].done| && c < |ch.items[j].recent|
    requires from < |ch.items[j].done[c]| && head == ch.items[j].done[c][from]
    modifies ch
    ensures AllFit(env, ch, j) && ch.OnlyState(j) && Grew(old(ch.items)[j], ch.items[j])
    ensures forall p: nat :: Fits(env, c, p) ==>
      MovedOver(old(ch.items), old(ch.items)[j].done[c], from, |old(ch.items)[j].done[c]|, p, ch.items[j])
  {
    hide Ok, Sound, SoundAt, Has, StateRep, Plus, Grew, Done, Fits, MovedOver;
    PredictorsFit(env, c);
    var preds := env.t.predictors[env.t.steps[c] + env.n];
    ghost var a, l, all := ch.items[j], ch.items[j].done[c], ch.items;
    GrewNot(a);
    for m := 0 to |preds|
      invariant AllFit(env, ch, j) && ch.OnlyState(j) && Grew(a, ch.items[j])
      invariant forall q :: 0 <= q < m ==> MovedOver(all, l, from, |l|, preds[q], ch.items[j])
    {
      ghost var b, now := ch.items[j], ch.items;
      GrewLists(a, b);
      assert preds[m] in preds;
      CompleteOne(env, ch, j, c, preds[m], head, from);
      GrewTwice(a, b, ch.items[j]);
      MovedSame(all, now, j, l, from, preds[m], ch.items[j]);
      forall q | 0 <= q < m
        ensures MovedOver(all, l, from, |l|, preds[q], ch.items[j])
      {
        MovedMore(all, l, from, preds[q], b, ch.items[j]);
      }
    }
  }

  lemma PredictorsFit(env: Env, c: nat)
    requires Ok(env) && c < |env.t.steps| && env.t.steps[c] < 0
    ensures 0 <= env.t.steps[c] + env.n < env.n == |env.t.predictors|
    ensures forall p: nat :: Fits(env, c, p) <==> p in env.t.predictors[env.t.steps[c] + env.n]
  {
    if c >= env.n {
      var k, p := Locate(env.g, env.n, c, |env.g|);
      assert StepAt(env.t.steps, env.g, env.n, k, p);
      BodySymbols(env.g, env.n, k);
    }
  }

  /** Only items that were processed count. */
  lemma MovedSame(all: seq<Items>, now: seq<Items>, j: nat, l: seq<nat>, from: nat, p: nat, d: Items)
    requires MovedOver(now, l, from, |l|, p, d) && |all| == |now| && j < |all| && Grew(all[j], now[j])
    requires forall k :: 0 <= k < |all| && k != j ==> all[k] == now[k]
    ensures MovedOver(all, l, from, |l|, p, d)
  {
    GrewDone(all[j], now[j]);
    forall m: nat, i: nat | from <= m < |l| && l[m] < |all| && Done(all[l[m]], p, i)
      ensures Has(d, p + 1, i)
    {
      assert Done(now[l[m]], p, i);
    }
  }

  lemma MovedMore(all: seq<Items>, l: seq<nat>, from: nat, p: nat, b: Items, d: Items)
    requires MovedOver(all, l, from, |l|, p, b) && Grew(b, d)
    ensures MovedOver(all, l, from, |l|, p, d)
  {
  }

  // ----- processing one configuration -----

  /** State `j` is closed as far as its items have been processed. */
  ghost predicate ClosedAt(env: Env, all: seq<Items>, j: nat) {
    j < |all| && Predicts(env, all[j], j) && forall k :: 0 <= k <= j ==> Completes(env, all[k], all[j], k)
  }

  lemma PoppedHas(a: Items)
    requires a.work != [] && a.work[0] < |a.recent| == |a.done|
    ensures forall c: nat, i: nat :: Has(Popped(a), c, i) <==> Has(a, c, i)
    ensures forall c: nat, i: nat :: c != a.work[0] ==> (Done(Popped(a), c, i) <==> Done(a, c, i))
    ensures forall i: nat :: Done(Popped(a), a.work[0], i) <==> Done(a, a.work[0], i) || i in a.recent[a.work[0]]
  {
    var c, b := a.work[0], Popped(a);
    assert b.done[c] == a.done[c] + a.recent[c];
  }

  /** What processing `c` has to do: `b` are the items after `c` has been popped, `d` those at the end. */
  ghost predicate Handled(env: Env, all: seq<Items>, a: Items, d: Items, j: nat, c: nat) {
    && (forall s: nat :: Begins(env, c, s) ==> Has(d, s, j))
    && (forall e: nat, i: nat :: Fits(env, e, c) && Has(a, e, j) && Done(d, c, i) ==> Has(d, c + 1, i))
    && (forall p: nat, k: nat, i: nat ::
          Fits(env, c, p) && Recent(a, c, k) && Done(At(all, d, j, k), p, i) ==> Has(d, p + 1, i))
  }

  ghost predicate Recent(a: Items, c: nat, k: nat) {
    c < |a.recent| && k in a.recent[c]
  }

  /** The items of state `k`, where those of state `j` are `d`. */
  ghost function At(all: seq<Items>, d: Items, j: nat, k: nat): Items {
    if k < |all| && k != j then all[k] else d
  }

  lemma StillPredicts(env: Env, all: seq<Items>, a: Items, d: Items, j: nat)
    requires a.work != [] && a.work[0] < |a.recent| == |a.done| && Grew(Popped(a), d)
    requires Predicts(env, a, j) && Handled(env, all, a, d, j, a.work[0])
    ensures Predicts(env, d, j)
  {
    PoppedHas(a);
    forall c: nat, s: nat | Begins(env, c, s) && c < |d.done| && d.done[c] != []
      ensures Has(d, s, j)
    {
      if c != a.work[0] {
        assert Has(a, s, j);
      }
    }
  }

  lemma StillCompletes(env: Env, all: seq<Items>, a: Items, d: Items, j: nat, k: nat)
    requires a.work != [] && a.work[0] < |a.recent| == |a.done| && Grew(Popped(a), d)
    requires k < j < |all| && Completes(env, all[k], a, k) && Handled(env, all, a, d, j, a.work[0])
    ensures Completes(env, all[k], d, k)
  {
    PoppedHas(a);
    GrewDone(Popped(a), d);
    forall e: nat, p: nat, i: nat | Fits(env, e, p) && Done(d, e, k) && Done(all[k], p, i)
      ensures Has(d, p + 1, i)
    {
      if Done(a, e, k) {
        assert Has(a, p + 1, i);
      } else {
        assert Recent(a, e, k) && At(all, d, j, k) == all[k];
      }
    }
  }

  lemma StillCompletesHere(env: Env, all: seq<Items>, a: Items, d: Items, j: nat)
    requires a.work != [] && a.work[0] < |a.recent| == |a.done| && Grew(Popped(a), d)
    requires j < |all| && Completes(env, a, a, j) && Handled(env, all, a, d, j, a.work[0])
    ensures Completes(env, d, d, j)
  {
    PoppedHas(a);
    GrewDone(Popped(a), d);
    var c := a.work[0];
    forall e: nat, p: nat, i: nat | Fits(env, e, p) && Done(d, e, j) && Done(d, p, i)
      ensures Has(d, p + 1, i)
    {
      if Done(a, e, j) && Done(a, p, i) {
        assert Has(a, p + 1, i);
      } else if p == c {
        assert Has(a, e, j);
      } else {
        assert Recent(a, e, j) && At(all, d, j, j) == d;
      }
    }
  }

  /** Takes a configuration off the list, and predicts or completes with its new items. */
  method Process(env: Env, ch: Chart, j: nat)
    requires AllFit(env, ch, j) && ch.states[j].work >= 0 && ClosedAt(env, ch.items, j)
    modifies ch
    ensures AllFit(env, ch, j) && ch.OnlyState(j) && ClosedAt(env, ch.items, j)
    ensures Total(ch.items[j].done) > Total(old(ch.items)[j].done)
    ensures forall c: nat, i: nat :: Has(old(ch.items)[j], c, i) ==> Has(ch.items[j], c, i)
  {
    hide Ok, Sound, SoundAt, StateRep, Plus, Grew, Done, Fits, MovedOver, Predicts, Completes, Total, Has, Popped;
    hide Handled, Begins;
    ghost var all, a := ch.items, ch.items[j];
    RecentBelow(ch.states[j], a, j);
    var c, head := ch.Pop(j);
    ghost var b, from := ch.items[j], |a.done[c]|;
    PoppedFacts(a, c, head);
    PoppedHas(a);
    SoundSame(env, a, b, j);
    var step := env.t.steps[c];
    if step >= 0 {
      NextConf(env, c);
      StartersSound(env, step, j);
      AdjoinAll(env, ch, j, env.t.starters[step], j);
      ghost var d := ch.items[j];
      GrewHas(b, d);
      GrewDone(b, d);
      MoveOn(env, ch, j, c, head);
      GrewTwice(b, d, ch.items[j]);
      GrewHas(d, ch.items[j]);
      GrewDone(d, ch.items[j]);
      HandledWaiting(env, all, a, ch.items[j], j, c);
    } else {
      ghost var now := ch.items;
      CompleteAll(env, ch, j, c, head, from);
      HandledComplete(env, all, now, a, ch.items[j], j, c);
    }
    GrewHas(b, ch.items[j]);
    GrewLists(b, ch.items[j]);
    StillClosed(env, all, ch.items, a, j);
  }

  lemma RecentBelow(st: State, a: Items, j: nat)
    requires StateRep(st, a, j)
    ensures forall c: nat, k: nat :: c < |a.recent| && k < |a.recent[c]| ==> a.recent[c][k] <= j
  {
    forall c: nat, k: nat | c < |a.recent| && k < |a.recent[c]|
      ensures a.recent[c][k] <= j
    {
      assert a.recent[c][k] in a.recent[c];
      MembersBelow(st, a, j, c, a.recent[c][k]);
    }
  }

  /** The number of processed items. */
  ghost function Total(done: seq<seq<nat>>): nat {
    if done == [] then 0 else |done[0]| + Total(done[1..])
  }

  lemma {:induction false} TotalUpdate(done: seq<seq<nat>>, c: nat, l: seq<nat>)
    requires c < |done|
    ensures Total(done[c := l]) == Total(done) - |done[c]| + |l|
  {
    var done' := done[c := l];
    if c == 0 {
      assert done'[1..] == done[1..];
    } else {
      assert done'[1..] == done[1..][c - 1 := l];
      TotalUpdate(done[1..], c - 1, l);
    }
  }

  lemma {:induction false} TotalBound(done: seq<seq<nat>>, n: nat)
    requires forall c :: 0 <= c < |done| ==> |done[c]| <= n
    ensures Total(done) <= |done| * n
  {
    if done != [] {
      TotalBound(done[1..], n);
      assert |done| * n == |done[1..]| * n + n;
    }
  }

  lemma PoppedFacts(a: Items, c: nat, head: nat)
    requires a.work != [] && c == a.work[0] < |a.recent| == |a.done| && a.recent[c] != [] && head == a.recent[c][0]
    ensures var b, from := Popped(a), |a.done[c]|;
      && |b.done| == |a.done| && |b.recent| == |a.recent| && b.done[c] == a.done[c] + a.recent[c]
      && from < |b.done[c]| && head == b.done[c][from] && Done(b, c, head)
      && Total(b.done) > Total(a.done)
  {
    TotalUpdate(a.done, c, a.done[c] + a.recent[c]);
  }

  lemma SoundSame(env: Env, a: Items, b: Items, j: nat)
    requires Sound(env, a, j) && forall c: nat, i: nat :: Has(b, c, i) <==> Has(a, c, i)
    ensures Sound(env, b, j)
  {
  }

  lemma StartersSound(env: Env, x: nat, j: nat)
    requires Ok(env) && x < env.n
    ensures |env.t.starters| == env.n
    ensures forall s :: s in env.t.starters[x] ==> s < |env.t.steps| && SoundAt(env, s, j, j)
  {
    forall s | s in env.t.starters[x]
      ensures s < |env.t.steps| && SoundAt(env, s, j, j)
    {
      SoundStart(env, x, s, j);
    }
  }

  lemma HandledWaiting(env: Env, all: seq<Items>, a: Items, d: Items, j: nat, c: nat)
    requires Ok(env) && c < |env.t.steps| && 0 <= env.t.steps[c] < env.n == |env.t.starters|
    requires forall s :: s in env.t.starters[env.t.steps[c]] ==> Has(d, s, j)
    requires forall e: nat, i: nat :: Fits(env, e, c) && Has(a, e, j) && Done(d, c, i) ==> Has(d, c + 1, i)
    ensures Handled(env, all, a, d, j, c)
  {
    forall p: nat
      ensures !Fits(env, c, p)
    {
      if p < |env.t.steps| && env.t.steps[p] >= 0 {
        NextConf(env, p);
      }
    }
  }

  lemma HandledComplete(env: Env, all: seq<Items>, now: seq<Items>, a: Items, d: Items, j: nat, c: nat)
    requires c < |env.t.steps| && env.t.steps[c] < 0 && c < |a.done| == |a.recent|
    requires j < |all| == |now| && c < |now[j].done| && now[j].done[c] == a.done[c] + a.recent[c] && Grew(now[j], d)
    requires forall k :: 0 <= k < |all| && k != j ==> all[k] == now[k]
    requires forall k :: 0 <= k < |a.recent[c]| ==> a.recent[c][k] <= j
    requires forall p: nat :: Fits(env, c, p) ==> MovedOver(now, now[j].done[c], |a.done[c]|, |now[j].done[c]|, p, d)
    ensures Handled(env, all, a, d, j, c)
  {
    GrewDone(now[j], d);
    forall p: nat, k: nat, i: nat | Fits(env, c, p) && Recent(a, c, k) && Done(At(all, d, j, k), p, i)
      ensures Has(d, p + 1, i)
    {
      var m :| 0 <= m < |a.recent[c]| && a.recent[c][m] == k;
      assert now[j].done[c][|a.done[c]| + m] == k;
      assert Done(now[k], p, i);
    }
  }

  lemma StillClosed(env: Env, all: seq<Items>, now: seq<Items>, a: Items, j: nat)
    requires j < |all| == |now| && a == all[j] && a.work != [] && a.work[0] < |a.recent| == |a.done|
    requires Grew(Popped(a), now[j]) && Handled(env, all, a, now[j], j, a.work[0]) && ClosedAt(env, all, j)
    requires forall k :: 0 <= k < |all| && k != j ==> all[k] == now[k]
    ensures ClosedAt(env, now, j)
  {
    hide Predicts, Completes, Handled, Grew, Popped;
    StillPredicts(env, all, a, now[j], j);
    StillCompletesHere(env, all, a, now[j], j);
    forall k | 0 <= k < j
      ensures Completes(env, now[k], now[j], k)
    {
      StillCompletes(env, all, a, now[j], j, k);
    }
  }

  // ----- the whole pass -----

  /** Processes state `j` until nothing is left to do. */
  method Forw(env: Env, ch: Chart, j: nat)
    requires AllFit(env, ch, j) && ClosedAt(env, ch.items, j)
    modifies ch
    ensures AllFit(env, ch, j) && ch.OnlyState(j) && ClosedAt(env, ch.items, j) && Finished(ch.items[j])
    ensures forall c: nat, i: nat :: Has(old(ch.items)[j], c, i) ==> Has(ch.items[j], c, i)
  {
    hide Ok, Sound, StateRep, Predicts, Completes, Total, Has;
    AllBound(ch.states[j], ch.items[j], j);
    while ch.states[j].work >= 0
      invariant AllFit(env, ch, j) && ch.OnlyState(j) && ClosedAt(env, ch.items, j)
      invariant Total(ch.items[j].done) <= ch.confs * (j + 1)
      invariant forall c: nat, i: nat :: Has(old(ch.items)[j], c, i) ==> Has(ch.items[j], c, i)
      decreases ch.confs * (j + 1) - Total(ch.items[j].done)
    {
      Process(env, ch, j);
      AllBound(ch.states[j], ch.items[j], j);
    }
    NothingLeft(ch.states[j], ch.items[j], j);
  }

  lemma AllBound(st: State, a: Items, j: nat)
    requires StateRep(st, a, j)
    ensures Total(a.done) <= |st.sets| * (j + 1)
  {
    forall c | 0 <= c < |a.done|
      ensures |a.done[c]| <= j + 1
    {
      DoneBound(st, a, j, c);
    }
    TotalBound(a.done, j + 1);
  }

  lemma NothingLeft(st: State, a: Items, j: nat)
    requires StateRep(st, a, j) && st.work < 0
    ensures Finished(a)
  {
  }
}
