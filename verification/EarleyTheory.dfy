/**
 What the chart of the Earley parser means: its items are sound, and a chart that is closed under prediction and
 completion has an item for every derivation.
 */
module EarleyTheory {
  import opened EarleyChart
  import opened EarleyGrammar

  /** A grammar with its tables, and for every token the symbols that it may be. */
  datatype Env = Env(g: seq<Production>, n: nat, t: Tables, toks: seq<seq<nat>>)

  ghost predicate Ok(env: Env) {
    && env.n > 0 && Symbols(env.g, env.n) && Describes(env.t, env.g, env.n)
    && forall i, k :: 0 <= i < |env.toks| && 0 <= k < |env.toks[i]| ==> env.toks[i][k] < env.n
  }

  // ----- soundness -----

  ghost predicate SoundVia(env: Env, c: nat, i: nat, j: nat, k: nat, p: nat, kids: Kids) {
    && k < |env.g| && p <= |env.g[k].body| && c == Start(env.g, env.n, k) + p
    && ParsesTo(env.g, env.toks, kids, env.g[k].body, p, i, j)
  }

  /** The item says that the part of the rule before its position derives the tokens from `i` to `j`. */
  ghost predicate SoundAt(env: Env, c: nat, i: nat, j: nat) {
    if c < env.n then Parses(env.g, env.toks, Token, c, i, j)
    else exists k, p, kids :: SoundVia(env, c, i, j, k, p, kids)
  }

  ghost predicate Sound(env: Env, a: Items, j: nat) {
    forall c: nat, i: nat :: Has(a, c, i) ==> SoundAt(env, c, i, j)
  }

  lemma {:induction false} Locate(g: seq<Production>, n: nat, c: nat, upto: nat) returns (k: nat, p: nat)
    requires upto <= |g| && n <= c < Start(g, n, upto)
    ensures k < upto && p <= |g[k].body| && c == Start(g, n, k) + p
  {
    if c >= Start(g, n, upto - 1) {
      k, p := upto - 1, c - Start(g, n, upto - 1);
    } else {
      k, p := Locate(g, n, c, upto - 1);
    }
  }

  /** A configuration that waits for a symbol is not the last one of its rule. */
  lemma NextConf(env: Env, c: nat)
    requires Ok(env) && c < |env.t.steps| && env.t.steps[c] >= 0
    ensures c + 1 < |env.t.steps| && c >= env.n && env.t.steps[c] < env.n
  {
    var k, p := Locate(env.g, env.n, c, |env.g|);
    assert StepAt(env.t.steps, env.g, env.n, k, p);
    BodySymbols(env.g, env.n, k);
    assert StepAt(env.t.steps, env.g, env.n, k, |env.g[k].body|);
  }

  lemma SoundStart(env: Env, x: nat, c: nat, j: nat)
    requires Ok(env) && x < env.n && c in env.t.starters[x]
    ensures SoundAt(env, c, j, j) && c < |env.t.steps|
  {
    var k :| 0 <= k < |env.g| && StartsRule(env.g, env.n, x, c, k);
    assert SoundVia(env, c, j, j, k, 0, Empty);
    assert StepAt(env.t.steps, env.g, env.n, k, 0);
  }

  /** A sound item of a complete symbol is a derivation of it. */
  lemma SoundTree(env: Env, e: nat, x: nat, i: nat, j: nat) returns (t: Tree)
    requires Ok(env) && SoundAt(env, e, i, j) && e < |env.t.steps| && env.t.steps[e] == x - env.n && x < env.n
    ensures Parses(env.g, env.toks, t, x, i, j)
  {
    if e < env.n {
      t := Token;
    } else {
      var k: nat, p: nat, kids :| SoundVia(env, e, i, j, k, p, kids);
      assert StepAt(env.t.steps, env.g, env.n, k, p);
      t := Branch(k, kids);
    }
  }

  /** Moving the position over a symbol that has been derived. */
  lemma SoundAdvance(env: Env, c: nat, i: nat, k: nat, j: nat, t: Tree)
    requires Ok(env) && SoundAt(env, c, i, k) && c < |env.t.steps| && env.t.steps[c] >= 0
    requires Parses(env.g, env.toks, t, env.t.steps[c], k, j)
    ensures SoundAt(env, c + 1, i, j)
  {
    NextConf(env, c);
    var r: nat, p: nat, kids :| SoundVia(env, c, i, k, r, p, kids);
    assert StepAt(env.t.steps, env.g, env.n, r, p);
    assert SoundVia(env, c + 1, i, j, r, p + 1, Snoc(kids, t, k));
  }

  lemma SoundComplete(env: Env, e: nat, p: nat, i: nat, k: nat, j: nat)
    requires Ok(env) && SoundAt(env, p, i, k) && SoundAt(env, e, k, j)
    requires p < |env.t.steps| && e < |env.t.steps| && env.t.steps[p] >= 0 && env.t.steps[e] == env.t.steps[p] - env.n
    ensures SoundAt(env, p + 1, i, j)
  {
    NextConf(env, p);
    var t := SoundTree(env, e, env.t.steps[p], k, j);
    SoundAdvance(env, p, i, k, j, t);
  }

  // ----- completeness -----

  /** `s` begins a rule for the symbol that `c` waits for. */
  ghost predicate Begins(env: Env, c: nat, s: nat) {
    && c < |env.t.steps| && 0 <= env.t.steps[c] < |env.t.starters|
    && s in env.t.starters[env.t.steps[c]]
  }

  /** What waits for a symbol has all beginnings of that symbol beside it. */
  ghost predicate Predicts(env: Env, a: Items, j: nat) {
    forall c: nat, s: nat :: Begins(env, c, s) && c < |a.done| && a.done[c] != [] ==> Has(a, s, j)
  }

  /** `e` completes what `p` waits for. */
  ghost predicate Fits(env: Env, e: nat, p: nat) {
    e < |env.t.steps| && p < |env.t.steps| && env.t.steps[p] >= 0 && env.t.steps[e] == env.t.steps[p] - env.n
  }

  ghost predicate Done(a: Items, c: nat, i: nat) {
    c < |a.done| && c < |a.recent| && i in a.done[c]
  }

  /** What waits for a symbol that is complete has moved on: `a` are the items at `k`, `b` those at `j`. */
  ghost predicate Completes(env: Env, a: Items, b: Items, k: nat) {
    forall e: nat, p: nat, i: nat :: Fits(env, e, p) && Done(b, e, k) && Done(a, p, i) ==> Has(b, p + 1, i)
  }

  /** The items that a state starts with: the beginnings of the goal, or the symbols of the token before it. */
  ghost predicate IsSeed(env: Env, j: nat, c: nat, i: nat) {
    if j == 0 then i == 0 && 0 < |env.t.starters| && c in env.t.starters[0]
    else j <= |env.toks| && i == j - 1 && c in env.toks[j - 1]
  }

  ghost predicate Seeded(env: Env, a: Items, j: nat) {
    forall c: nat, i: nat :: IsSeed(env, j, c, i) ==> Has(a, c, i)
  }

  ghost predicate Finished(a: Items) {
    forall c: nat, i: nat :: Has(a, c, i) ==> Done(a, c, i)
  }

  /** A finished chart. */
  ghost predicate Closed(env: Env, chart: seq<Items>) {
    && Ok(env) && |chart| == |env.toks| + 1
    && (forall j :: 0 <= j < |chart| ==> Finished(chart[j]) && Predicts(env, chart[j], j) && Seeded(env, chart[j], j))
    && (forall j, k :: 0 <= k <= j < |chart| ==> Completes(env, chart[k], chart[j], k))
  }

  lemma Moves(env: Env, chart: seq<Items>, e: nat, p: nat, k: nat, j: nat, i: nat)
    requires Closed(env, chart) && k <= j < |chart| && Fits(env, e, p) && Done(chart[j], e, k) && Done(chart[k], p, i)
    ensures Done(chart[j], p + 1, i)
  {
    hide Ok;
    assert Completes(env, chart[k], chart[j], k);
    assert Has(chart[j], p + 1, i);
  }

  lemma BeginsDone(env: Env, chart: seq<Items>, c: nat, i: nat, j: nat, s: nat)
    requires Closed(env, chart) && j < |chart| && Done(chart[j], c, i) && Begins(env, c, s)
    ensures Done(chart[j], s, j)
  {
    hide Ok;
    assert Has(chart[j], s, j);
  }

  lemma SeedDone(env: Env, chart: seq<Items>, c: nat, i: nat, j: nat)
    requires Closed(env, chart) && j < |chart| && IsSeed(env, j, c, i)
    ensures Done(chart[j], c, i)
  {
    hide Ok;
    assert Has(chart[j], c, i);
  }

  /** The first and the last configuration of a rule, and what is known of them. */
  lemma RuleEnds(env: Env, r: nat)
    requires Ok(env) && r < |env.g|
    ensures var s, x := Start(env.g, env.n, r), env.g[r].head;
      && x < env.n == |env.t.starters| == |env.t.enders| && s in env.t.starters[x]
      && s + |env.g[r].body| < |env.t.steps| && env.t.steps[s + |env.g[r].body|] == x - env.n
      && s + |env.g[r].body| in env.t.enders[x]
  {
    hide Start;
    var s, x := Start(env.g, env.n, r), env.g[r].head;
    assert StartsRule(env.g, env.n, x, s, r);
    assert StepAt(env.t.steps, env.g, env.n, r, |env.g[r].body|);
  }

  lemma TokenStep(env: Env, x: nat)
    requires Ok(env) && x < env.n
    ensures x < |env.t.steps| && env.t.steps[x] == x - env.n && |env.t.enders| == env.n && x in env.t.enders[x]
  {
  }

  /** An item that waits for a symbol moves over every derivation of it. */
  lemma {:induction false} ItemsComplete(env: Env, chart: seq<Items>, t: Tree, j: nat, k: nat, c: nat, i: nat)
    requires Closed(env, chart) && j < |chart| && c < |env.t.steps| && env.t.steps[c] >= 0
    requires Parses(env.g, env.toks, t, env.t.steps[c], j, k) && Done(chart[j], c, i)
    ensures k < |chart| && j <= k && Done(chart[k], c + 1, i)
    decreases t
  {
    assert Ok(env) && |chart| == |env.toks| + 1;
    hide Ok, Closed, Done;
    var x := env.t.steps[c];
    NextConf(env, c);
    ParsesForward(env.g, env.toks, t, x, j, k);
    if t.Token? {
      SeedDone(env, chart, x, j, k);
      TokenStep(env, x);
      Moves(env, chart, x, c, j, k, i);
    } else {
      var r := t.rule;
      var s := Start(env.g, env.n, r);
      RuleEnds(env, r);
      BeginsDone(env, chart, c, i, j, s);
      KidsComplete(env, chart, r, t.kids, |env.g[r].body|, j, k);
      Moves(env, chart, s + |env.g[r].body|, c, j, k, i);
    }
  }

  lemma {:induction false} KidsComplete(env: Env, chart: seq<Items>, r: nat, kids: Kids, p: nat, j: nat, k: nat)
    requires Closed(env, chart) && j < |chart| && r < |env.g| && p <= |env.g[r].body|
    requires ParsesTo(env.g, env.toks, kids, env.g[r].body, p, j, k) && Done(chart[j], Start(env.g, env.n, r), j)
    ensures k < |chart| && j <= k && Done(chart[k], Start(env.g, env.n, r) + p, j)
    decreases kids
  {
    assert Ok(env);
    hide Ok, Closed, Done;
    if kids.Snoc? {
      KidsComplete(env, chart, r, kids.prev, p - 1, j, kids.mid);
      var c := Start(env.g, env.n, r) + p - 1;
      BodyStep(env, r, p - 1);
      ItemsComplete(env, chart, kids.tree, kids.mid, k, c, j);
    }
  }

  lemma BodyStep(env: Env, r: nat, p: nat)
    requires Ok(env) && r < |env.g| && p < |env.g[r].body|
    ensures var c := Start(env.g, env.n, r) + p; c < |env.t.steps| && env.t.steps[c] == env.g[r].body[p]
  {
    assert StepAt(env.t.steps, env.g, env.n, r, p);
  }

  /** In a sound and closed chart, the goal has an item for the whole input exactly when the grammar derives the
      input. */
  lemma RecognisesIff(env: Env, chart: seq<Items>)
    requires Closed(env, chart) && Sound(env, chart[|env.toks|], |env.toks|)
    ensures GoalFound(env, chart[|env.toks|]) <==> Derives(env.g, env.toks, 0, 0, |env.toks|)
  {
    var n := |env.toks|;
    if GoalFound(env, chart[n]) {
      var e :| e in env.t.enders[0] && Has(chart[n], e, 0);
      var t := SoundTree(env, e, 0, 0, n);
    }
    if Derives(env.g, env.toks, 0, 0, n) {
      var t :| Parses(env.g, env.toks, t, 0, 0, n);
      GoalComplete(env, chart, t);
    }
  }

  ghost predicate GoalFound(env: Env, a: Items) {
    |env.t.enders| > 0 && exists e :: e in env.t.enders[0] && Has(a, e, 0)
  }

  lemma GoalComplete(env: Env, chart: seq<Items>, t: Tree)
    requires Closed(env, chart) && Parses(env.g, env.toks, t, 0, 0, |env.toks|)
    ensures GoalFound(env, chart[|env.toks|])
  {
    assert Ok(env) && env.n > 0 && |chart| == |env.toks| + 1;
    hide Ok, Closed;
    var n := |env.toks|;
    if t.Token? {
      SeedDone(env, chart, 0, 0, n);
      TokenStep(env, 0);
      assert Has(chart[n], 0, 0);
    } else {
      var r := t.rule;
      var s := Start(env.g, env.n, r);
      RuleEnds(env, r);
      SeedDone(env, chart, s, 0, 0);
      KidsComplete(env, chart, r, t.kids, |env.g[r].body|, 0, n);
      assert Has(chart[n], s + |env.g[r].body|, 0);
    }
  }
}
