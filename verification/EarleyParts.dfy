/**
 The parts of the derivations of the whole input, and what they have to do with the chart.
 */
module EarleyParts {
  import opened EarleyChart
  import opened EarleyGrammar
  import opened EarleyTheory

  /** The node `s`, which derives the tokens from `a` to `b` from `y`, is part of the tree `t` for `x` from `i` to
      `j`. */
  ghost predicate Inside(g: seq<Production>, t: Tree, x: nat, i: nat, j: nat, s: Tree, y: nat, a: nat, b: nat)
    decreases t
  {
    || (s == t && y == x && a == i && b == j)
    || (t.Branch? && t.rule < |g| && InsideKids(g, t.kids, g[t.rule].body, |g[t.rule].body|, i, j, s, y, a, b))
  }

  ghost predicate InsideKids(g: seq<Production>, kids: Kids, body: seq<nat>, p: nat, i: nat, j: nat, s: Tree, y: nat,
                             a: nat, b: nat)
    decreases kids
  {
    kids.Snoc? && 0 < p <= |body|
    && (|| InsideKids(g, kids.prev, body, p - 1, i, kids.mid, s, y, a, b)
        || Inside(g, kids.tree, body[p - 1], kids.mid, j, s, y, a, b))
  }

  /** The first `p` of the `q` trees `full` are `kids`, which end at `b`. */
  ghost predicate IsPrefix(kids: Kids, p: nat, b: nat, full: Kids, q: nat, j: nat)
    decreases full
  {
    || (kids == full && p == q && b == j)
    || (full.Snoc? && q > 0 && IsPrefix(kids, p, b, full.prev, q - 1, full.mid))
  }

  /** A part of a part is a part. */
  lemma {:induction false} InsideTrans(g: seq<Production>, t: Tree, x: nat, i: nat, j: nat, s: Tree, y: nat, a: nat,
                                       b: nat,
                                       r: Tree, z: nat, c: nat, d: nat)
    requires Inside(g, t, x, i, j, s, y, a, b) && Inside(g, s, y, a, b, r, z, c, d)
    ensures Inside(g, t, x, i, j, r, z, c, d)
    decreases t
  {
    if !(s == t && y == x && a == i && b == j) {
      InsideKidsTrans(g, t.kids, g[t.rule].body, |g[t.rule].body|, i, j, s, y, a, b, r, z, c, d);
    }
  }

  lemma {:induction false} InsideKidsTrans(g: seq<Production>, kids: Kids, body: seq<nat>, p: nat, i: nat, j: nat,
                                           s: Tree, y: nat, a: nat, b: nat, r: Tree, z: nat, c: nat, d: nat)
    requires InsideKids(g, kids, body, p, i, j, s, y, a, b) && Inside(g, s, y, a, b, r, z, c, d)
    ensures InsideKids(g, kids, body, p, i, j, r, z, c, d)
    decreases kids
  {
    if InsideKids(g, kids.prev, body, p - 1, i, kids.mid, s, y, a, b) {
      InsideKidsTrans(g, kids.prev, body, p - 1, i, kids.mid, s, y, a, b, r, z, c, d);
    } else {
      InsideTrans(g, kids.tree, body[p - 1], kids.mid, j, s, y, a, b, r, z, c, d);
    }
  }

  lemma {:induction false} PrefixShorter(kids: Kids, p: nat, b: nat, full: Kids, q: nat, j: nat)
    requires IsPrefix(kids, p, b, full, q, j) && kids.Snoc? && p > 0
    ensures IsPrefix(kids.prev, p - 1, kids.mid, full, q, j)
    decreases full
  {
    if !(kids == full && p == q && b == j) {
      PrefixShorter(kids, p, b, full.prev, q - 1, full.mid);
    }
  }

  /** The last tree of a prefix is a part. */
  lemma {:induction false} PrefixInside(g: seq<Production>, kids: Kids, p: nat, b: nat, full: Kids, body: seq<nat>,
                                        q: nat, i: nat, j: nat)
    requires IsPrefix(kids, p, b, full, q, j) && kids.Snoc? && 0 < p && q <= |body| && p <= q
    ensures InsideKids(g, full, body, q, i, j, kids.tree, body[p - 1], kids.mid, b)
    decreases full
  {
    if !(kids == full && p == q && b == j) {
      PrefixLength(kids, p, b, full.prev, q - 1, full.mid);
      PrefixInside(g, kids, p, b, full.prev, body, q - 1, i, full.mid);
    }
  }

  lemma {:induction false} PrefixLength(kids: Kids, p: nat, b: nat, full: Kids, q: nat, j: nat)
    requires IsPrefix(kids, p, b, full, q, j)
    ensures p <= q
    decreases full
  {
    if !(kids == full && p == q && b == j) {
      PrefixLength(kids, p, b, full.prev, q - 1, full.mid);
    }
  }

  // ----- needed items -----

  /** A derivation of the whole input from the goal. */
  ghost predicate Whole(env: Env, t: Tree) {
    Parses(env.g, env.toks, t, 0, 0, |env.toks|)
  }

  ghost predicate Part(env: Env, t: Tree, s: Tree, y: nat, a: nat, b: nat) {
    Whole(env, t) && Inside(env.g, t, 0, 0, |env.toks|, s, y, a, b)
  }

  /** The symbol occurs from `a` to `b` in a derivation of the whole input. */
  ghost predicate PartOfParse(env: Env, y: nat, a: nat, b: nat) {
    exists t, s :: Part(env, t, s, y, a, b)
  }

  /** `kids` begin the trees of a node of rule `r` that is a part of `t`. */
  ghost predicate BeginsPart(env: Env, t: Tree, full: Kids, end: nat, r: nat, p: nat, kids: Kids, a: nat, b: nat) {
    && r < |env.g| && Part(env, t, Branch(r, full), env.g[r].head, a, end)
    && IsPrefix(kids, p, b, full, |env.g[r].body|, end)
  }

  ghost predicate BeginsSome(env: Env, r: nat, p: nat, kids: Kids, a: nat, b: nat) {
    exists t, full, end :: BeginsPart(env, t, full, end, r, p, kids, a, b)
  }

  /** Whatever the item stands for is part of a derivation of the whole input. */
  ghost predicate Needed(env: Env, c: nat, i: nat, j: nat) {
    if c < env.n then exists t :: Part(env, t, Token, c, i, j)
    else forall r: nat, p: nat, kids :: SoundVia(env, c, i, j, r, p, kids) ==> BeginsSome(env, r, p, kids, i, j)
  }

  lemma BeginsShorter(env: Env, r: nat, p: nat, kids: Kids, i: nat, j: nat)
    requires BeginsSome(env, r, p, kids, i, j) && kids.Snoc? && p > 0
    ensures BeginsSome(env, r, p - 1, kids.prev, i, kids.mid)
  {
    var t, full, end :| BeginsPart(env, t, full, end, r, p, kids, i, j);
    PrefixShorter(kids, p, j, full, |env.g[r].body|, end);
    assert BeginsPart(env, t, full, end, r, p - 1, kids.prev, i, kids.mid);
  }

  lemma LastIsPart(env: Env, r: nat, p: nat, kids: Kids, i: nat, j: nat) returns (t: Tree)
    requires BeginsSome(env, r, p, kids, i, j) && kids.Snoc? && p > 0
    ensures r < |env.g| && p <= |env.g[r].body| && Part(env, t, kids.tree, env.g[r].body[p - 1], kids.mid, j)
  {
    hide Inside, InsideKids, IsPrefix, Whole;
    var t', full, end :| BeginsPart(env, t', full, end, r, p, kids, i, j);
    t := t';
    var g, body, N := env.g, env.g[r].body, |env.toks|;
    PrefixLength(kids, p, j, full, |body|, end);
    PrefixInside(g, kids, p, j, full, body, |body|, i, end);
    KidsInside(g, r, full, i, end, kids.tree, body[p - 1], kids.mid, j);
    InsideTrans(g, t, 0, 0, N, Branch(r, full), g[r].head, i, end, kids.tree, body[p - 1], kids.mid, j);
  }

  lemma KidsInside(g: seq<Production>, r: nat, full: Kids, i: nat, j: nat, s: Tree, y: nat, a: nat, b: nat)
    requires r < |g| && InsideKids(g, full, g[r].body, |g[r].body|, i, j, s, y, a, b)
    ensures Inside(g, Branch(r, full), g[r].head, i, j, s, y, a, b)
  {
  }

  lemma WholeBegins(env: Env, t: Tree, r: nat, kids: Kids, i: nat, j: nat)
    requires r < |env.g| && Part(env, t, Branch(r, kids), env.g[r].head, i, j)
    ensures BeginsSome(env, r, |env.g[r].body|, kids, i, j)
  {
    assert BeginsPart(env, t, kids, j, r, |env.g[r].body|, kids, i, j);
  }

  /** The item of a complete goal is needed. */
  lemma GoalNeeded(env: Env, e: nat)
    requires Ok(env) && e < |env.t.steps| && env.t.steps[e] == 0 - env.n && SoundAt(env, e, 0, |env.toks|)
    ensures Needed(env, e, 0, |env.toks|)
  {
    var N := |env.toks|;
    if e < env.n {
      TokenStep(env, e);
      assert Part(env, Token, Token, e, 0, N);
    } else {
      forall r: nat, p: nat, kids | SoundVia(env, e, 0, N, r, p, kids)
        ensures BeginsSome(env, r, p, kids, 0, N)
      {
        AtEnd(env, e, 0, r, p);
        assert Part(env, Branch(r, kids), Branch(r, kids), 0, 0, N);
        WholeBegins(env, Branch(r, kids), r, kids, 0, N);
      }
    }
  }

  /** A configuration whose step is a complete symbol is at the end of a rule for it. */
  lemma AtEnd(env: Env, e: nat, x: nat, r: nat, p: nat)
    requires Ok(env) && e < |env.t.steps| && env.t.steps[e] == x - env.n && x < env.n
    requires r < |env.g| && p <= |env.g[r].body| && e == Start(env.g, env.n, r) + p
    ensures p == |env.g[r].body| && env.g[r].head == x
  {
    assert StepAt(env.t.steps, env.g, env.n, r, p);
  }

  /** Moving over a symbol, forwards: what the items before and after it stand for. */
  lemma Append(env: Env, p: nat, i: nat, k: nat, j: nat, r: nat, q: nat, kids: Kids, t: Tree)
    requires Ok(env) && p < |env.t.steps| && env.t.steps[p] >= 0 && SoundVia(env, p, i, k, r, q, kids)
    requires Parses(env.g, env.toks, t, env.t.steps[p], k, j)
    ensures q < |env.g[r].body| && env.g[r].body[q] == env.t.steps[p]
    ensures SoundVia(env, p + 1, i, j, r, q + 1, Snoc(kids, t, k))
  {
    assert StepAt(env.t.steps, env.g, env.n, r, q);
    BodySymbols(env.g, env.n, r);
  }

  /** When the item behind a symbol is needed, so are the item before it and that of the symbol. */
  lemma NeededStep(env: Env, p: nat, e: nat, i: nat, k: nat, j: nat)
    requires Ok(env) && Fits(env, e, p) && SoundAt(env, p, i, k) && SoundAt(env, e, k, j) && Needed(env, p + 1, i, j)
    ensures Needed(env, p, i, k) && Needed(env, e, k, j)
  {
    hide Ok, Parses, Part;
    NextConf(env, p);
    NeededBefore(env, p, e, i, k, j);
    NeededSymbol(env, p, e, i, k, j);
  }

  lemma NeededBefore(env: Env, p: nat, e: nat, i: nat, k: nat, j: nat)
    requires Ok(env) && Fits(env, e, p) && p >= env.n && SoundAt(env, e, k, j) && Needed(env, p + 1, i, j)
    ensures Needed(env, p, i, k)
  {
    hide Part, BeginsSome;
    NextConf(env, p);
    var t := SoundTree(env, e, env.t.steps[p], k, j);
    hide Ok, Parses;
    forall r: nat, q: nat, kids | SoundVia(env, p, i, k, r, q, kids)
      ensures BeginsSome(env, r, q, kids, i, k)
    {
      Append(env, p, i, k, j, r, q, kids, t);
      BeginsShorter(env, r, q + 1, Snoc(kids, t, k), i, j);
    }
  }

  lemma NeededSymbol(env: Env, p: nat, e: nat, i: nat, k: nat, j: nat)
    requires Ok(env) && Fits(env, e, p) && p >= env.n && SoundAt(env, p, i, k) && SoundAt(env, e, k, j)
    requires Needed(env, p + 1, i, j)
    ensures Needed(env, e, k, j)
  {
    var r: nat, q: nat, kids :| SoundVia(env, p, i, k, r, q, kids);
    NextConf(env, p);
    var x := env.t.steps[p];
    if e < env.n {
      TokenStep(env, e);
      var t := SymbolPart(env, p, i, k, j, r, q, kids, Token);
    } else {
      forall r': nat, p': nat, kids' | SoundVia(env, e, k, j, r', p', kids')
        ensures BeginsSome(env, r', p', kids', k, j)
      {
        AtEnd(env, e, x, r', p');
        var t := SymbolPart(env, p, i, k, j, r, q, kids, Branch(r', kids'));
        WholeBegins(env, t, r', kids', k, j);
      }
    }
  }

  lemma SymbolPart(env: Env, p: nat, i: nat, k: nat, j: nat, r: nat, q: nat, kids: Kids, s: Tree) returns (t: Tree)
    requires Ok(env) && env.n <= p < |env.t.steps| && env.t.steps[p] >= 0 && Needed(env, p + 1, i, j)
    requires SoundVia(env, p, i, k, r, q, kids) && Parses(env.g, env.toks, s, env.t.steps[p], k, j)
    ensures Part(env, t, s, env.t.steps[p], k, j)
  {
    hide Part, BeginsSome, Parses;
    Append(env, p, i, k, j, r, q, kids, s);
    t := LastIsPart(env, r, q + 1, Snoc(kids, s, k), i, j);
  }

  // ----- the pruned chart -----

  /** The item `p` in state `k` and `e` from `k` to `j` are there. */
  ghost predicate Taken(now: seq<Items>, j: nat, p: nat, i: nat, e: nat, k: nat) {
    k <= j < |now| && Has(now[k], p, i) && Has(now[j], e, k)
  }

  /** `e` from `k` to `j` and the item `p` in state `k` make the item behind `p`. */
  ghost predicate Makes(env: Env, before: seq<Items>, j: nat, p: nat, i: nat, e: nat, k: nat) {
    Fits(env, e, p) && i <= k <= j < |before| && Has(before[j], e, k) && Has(before[k], p, i)
  }

  /** `now` is closed under taking items apart, as far as its items in state `j` have been processed. */
  ghost predicate Keeps(env: Env, before: seq<Items>, now: seq<Items>, j: nat) {
    j < |now| && forall p: nat, i: nat, e: nat, k: nat ::
      Done(now[j], p + 1, i) && Makes(env, before, j, p, i, e, k) ==> Taken(now, j, p, i, e, k)
  }

  /** The pruned chart has only needed items of the chart. */
  ghost predicate Justified(env: Env, before: seq<Items>, now: seq<Items>) {
    && |now| == |before|
    && forall j: nat, c: nat, i: nat :: j < |now| && Has(now[j], c, i) ==> Has(before[j], c, i) && Needed(env, c, i, j)
  }

  ghost predicate GoalKept(env: Env, before: seq<Items>, now: seq<Items>) {
    var n := |env.toks|;
    && n < |before| == |now| && 0 < |env.t.enders|
    && forall e :: e in env.t.enders[0] && Has(before[n], e, 0) ==> Has(now[n], e, 0)
  }

  ghost predicate Pruned(env: Env, before: seq<Items>, now: seq<Items>) {
    && Justified(env, before, now) && GoalKept(env, before, now)
    && forall j :: 0 <= j < |now| ==> Keeps(env, before, now, j) && Finished(now[j])
  }

  /** The last configuration of a tree. */
  ghost function EnderOf(env: Env, t: Tree, x: nat): nat {
    if t.Token? || t.rule >= |env.g| then x else Start(env.g, env.n, t.rule) + |env.g[t.rule].body|
  }

  lemma EnderFits(env: Env, t: Tree, x: nat, i: nat, j: nat)
    requires Ok(env) && Parses(env.g, env.toks, t, x, i, j) && x < env.n
    ensures var e := EnderOf(env, t, x);
      e < |env.t.steps| && env.t.steps[e] == x - env.n && |env.t.enders| == env.n && e in env.t.enders[x]
  {
    TokenStep(env, x);
    if t.Branch? {
      RuleEnds(env, t.rule);
    }
  }

  /** Where a symbol is expected, the chart has the last configuration of each of its trees. */
  lemma TreeInChart(env: Env, chart: seq<Items>, t: Tree, j: nat, k: nat, c: nat, i: nat)
    requires Closed(env, chart) && j < |chart| && c < |env.t.steps| && env.t.steps[c] >= 0
    requires Parses(env.g, env.toks, t, env.t.steps[c], j, k) && Done(chart[j], c, i)
    ensures k < |chart| && j <= k && Done(chart[k], EnderOf(env, t, env.t.steps[c]), j)
    ensures Fits(env, EnderOf(env, t, env.t.steps[c]), c)
    ensures t.Branch? ==> t.rule < |env.g| && Done(chart[j], Start(env.g, env.n, t.rule), j)
  {
    assert Ok(env) && |chart| == |env.toks| + 1;
    hide Ok, Closed, Done;
    var x := env.t.steps[c];
    NextConf(env, c);
    EnderFits(env, t, x, j, k);
    ParsesForward(env.g, env.toks, t, x, j, k);
    if t.Token? {
      SeedDone(env, chart, x, j, k);
    } else {
      RuleEnds(env, t.rule);
      BeginsDone(env, chart, c, i, j, Start(env.g, env.n, t.rule));
      KidsComplete(env, chart, t.rule, t.kids, |env.g[t.rule].body|, j, k);
    }
  }

  lemma TakenApart(env: Env, before: seq<Items>, now: seq<Items>, j: nat, p: nat, i: nat, e: nat, k: nat)
    requires Pruned(env, before, now) && j < |now| && Done(now[j], p + 1, i) && Fits(env, e, p) && i <= k <= j
    requires Done(before[j], e, k) && Done(before[k], p, i)
    ensures Done(now[k], p, i) && Done(now[j], e, k)
  {
    assert Keeps(env, before, now, j);
    assert Makes(env, before, j, p, i, e, k);
    assert Taken(now, j, p, i, e, k);
    assert Finished(now[j]) && Finished(now[k]);
  }

  /** Every node of a tree whose item is kept is kept, too. */
  lemma {:induction false} NodeKept(env: Env, chart: seq<Items>, now: seq<Items>, t: Tree, x: nat, i: nat, j: nat,
                                    s: Tree, y: nat, a: nat, b: nat)
    requires Closed(env, chart) && Pruned(env, chart, now) && x < env.n && i <= j < |chart|
    requires Parses(env.g, env.toks, t, x, i, j) && Inside(env.g, t, x, i, j, s, y, a, b)
    requires Done(now[j], EnderOf(env, t, x), i)
    requires t.Branch? ==> t.rule < |env.g| && Done(chart[i], Start(env.g, env.n, t.rule), i)
    ensures b < |now| && Done(now[b], EnderOf(env, s, y), a)
    decreases t
  {
    assert |now| == |chart|;
    hide Ok, Closed, Done, Pruned;
    if !(s == t && y == x && a == i && b == j) {
      KidsKept(env, chart, now, t.rule, t.kids, |env.g[t.rule].body|, i, j, s, y, a, b);
    }
  }

  lemma {:induction false} KidsKept(env: Env, chart: seq<Items>, now: seq<Items>, r: nat, kids: Kids, p: nat, i: nat,
                                    j: nat,
                                    s: Tree, y: nat, a: nat, b: nat)
    requires Closed(env, chart) && Pruned(env, chart, now) && r < |env.g| && p <= |env.g[r].body| && i <= j < |chart|
    requires ParsesTo(env.g, env.toks, kids, env.g[r].body, p, i, j)
    requires InsideKids(env.g, kids, env.g[r].body, p, i, j, s, y, a, b)
    requires Done(chart[i], Start(env.g, env.n, r), i) && Done(now[j], Start(env.g, env.n, r) + p, i)
    ensures b < |now| && Done(now[b], EnderOf(env, s, y), a)
    decreases kids
  {
    assert Ok(env) && |now| == |chart|;
    hide Ok, Closed, Done, Pruned;
    var mid, x, c := kids.mid, env.g[r].body[p - 1], Start(env.g, env.n, r) + p - 1;
    KidsComplete(env, chart, r, kids.prev, p - 1, i, mid);
    BodyStep(env, r, p - 1);
    NextConf(env, c);
    TreeInChart(env, chart, kids.tree, mid, j, c, i);
    TakenApart(env, chart, now, j, c, i, EnderOf(env, kids.tree, x), mid);
    if InsideKids(env.g, kids.prev, env.g[r].body, p - 1, i, mid, s, y, a, b) {
      KidsKept(env, chart, now, r, kids.prev, p - 1, i, mid, s, y, a, b);
    } else {
      NodeKept(env, chart, now, kids.tree, x, mid, j, s, y, a, b);
    }
  }

  ghost predicate SymbolFound(env: Env, a: Items, y: nat, i: nat) {
    y < |env.t.enders| && exists e :: e in env.t.enders[y] && Has(a, e, i)
  }

  /** The pruned chart has an item for a symbol exactly where the symbol occurs in a derivation of the whole input. */
  lemma PrunedIff(env: Env, chart: seq<Items>, now: seq<Items>, y: nat, a: nat, b: nat)
    requires Closed(env, chart) && Pruned(env, chart, now) && y < env.n && a <= b < |chart| && Sound(env, chart[b], b)
    ensures SymbolFound(env, now[b], y, a) <==> PartOfParse(env, y, a, b)
  {
    if SymbolFound(env, now[b], y, a) {
      var e :| e in env.t.enders[y] && Has(now[b], e, a);
      NeededPart(env, e, y, a, b);
    }
    if PartOfParse(env, y, a, b) {
      var t, s :| Part(env, t, s, y, a, b);
      PartKept(env, chart, now, t, s, y, a, b);
    }
  }

  lemma NeededPart(env: Env, e: nat, y: nat, a: nat, b: nat)
    requires Ok(env) && y < env.n && e in env.t.enders[y] && SoundAt(env, e, a, b) && Needed(env, e, a, b)
    ensures PartOfParse(env, y, a, b)
  {
    if e < env.n {
      TokenStep(env, e);
    } else {
      var r: nat, p: nat, kids :| SoundVia(env, e, a, b, r, p, kids);
      AtEnd(env, e, y, r, p);
      var t, full, end :| BeginsPart(env, t, full, end, r, p, kids, a, b);
      PrefixLast(kids, p, b, full, p, end);
    }
  }

  lemma PrefixLast(kids: Kids, p: nat, b: nat, full: Kids, q: nat, j: nat)
    requires IsPrefix(kids, p, b, full, q, j) && p == q
    ensures kids == full && b == j
  {
    if !(kids == full && b == j) {
      PrefixLength(kids, p, b, full.prev, q - 1, full.mid);
    }
  }

  lemma PartKept(env: Env, chart: seq<Items>, now: seq<Items>, t: Tree, s: Tree, y: nat, a: nat, b: nat)
    requires Closed(env, chart) && Pruned(env, chart, now) && y < env.n && b < |chart| && Part(env, t, s, y, a, b)
    ensures SymbolFound(env, now[b], y, a)
  {
    assert Ok(env) && env.n > 0 && |chart| == |env.toks| + 1 && |now| == |chart|;
    var n := |env.toks|;
    var e := EnderOf(env, t, 0);
    EnderFits(env, t, 0, 0, n);
    WholeInChart(env, chart, t);
    assert Has(chart[n], e, 0) && Has(now[n], e, 0) && Finished(now[n]);
    NodeKept(env, chart, now, t, 0, 0, n, s, y, a, b);
    InsideParses(env, t, 0, 0, n, s, y, a, b);
    EnderFits(env, s, y, a, b);
    assert Has(now[b], EnderOf(env, s, y), a);
  }

  lemma WholeInChart(env: Env, chart: seq<Items>, t: Tree)
    requires Closed(env, chart) && Whole(env, t)
    ensures Done(chart[|env.toks|], EnderOf(env, t, 0), 0)
    ensures t.Branch? ==> t.rule < |env.g| && Done(chart[0], Start(env.g, env.n, t.rule), 0)
  {
    assert Ok(env) && env.n > 0 && |chart| == |env.toks| + 1;
    hide Ok, Closed, Done;
    if t.Token? {
      SeedDone(env, chart, 0, 0, |env.toks|);
    } else {
      RuleEnds(env, t.rule);
      SeedDone(env, chart, Start(env.g, env.n, t.rule), 0, 0);
      KidsComplete(env, chart, t.rule, t.kids, |env.g[t.rule].body|, 0, |env.toks|);
    }
  }

  /** A part of a derivation is a derivation. */
  lemma {:induction false} InsideParses(env: Env, t: Tree, x: nat, i: nat, j: nat, s: Tree, y: nat, a: nat, b: nat)
    requires Parses(env.g, env.toks, t, x, i, j) && Inside(env.g, t, x, i, j, s, y, a, b)
    ensures Parses(env.g, env.toks, s, y, a, b)
    decreases t
  {
    if !(s == t && y == x && a == i && b == j) {
      InsideKidsParse(env, t.kids, env.g[t.rule].body, |env.g[t.rule].body|, i, j, s, y, a, b);
    }
  }

  lemma {:induction false} InsideKidsParse(env: Env, kids: Kids, body: seq<nat>, p: nat, i: nat, j: nat, s: Tree,
                                           y: nat, a: nat, b: nat)
    requires ParsesTo(env.g, env.toks, kids, body, p, i, j) && InsideKids(env.g, kids, body, p, i, j, s, y, a, b)
    ensures Parses(env.g, env.toks, s, y, a, b)
    decreases kids
  {
    if InsideKids(env.g, kids.prev, body, p - 1, i, kids.mid, s, y, a, b) {
      InsideKidsParse(env, kids.prev, body, p - 1, i, kids.mid, s, y, a, b);
    } else {
      InsideParses(env, kids.tree, body[p - 1], kids.mid, j, s, y, a, b);
    }
  }
}
