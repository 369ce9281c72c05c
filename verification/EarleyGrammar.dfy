/**
 Grammars, their derivation trees, and the tables that the Earley parser works with.
 */
module EarleyGrammar {

  /** Symbols are numbers below the number of symbols.  Every symbol may be lexed from a token, and may have rules. */
  datatype Production = Production(head: nat, body: seq<nat>)

  ghost predicate Symbols(g: seq<Production>, n: nat) {
    forall k :: 0 <= k < |g| ==> g[k].head < n && forall p :: 0 <= p < |g[k].body| ==> g[k].body[p] < n
  }

  // ----- derivations -----

  datatype Tree = Token | Branch(rule: nat, kids: Kids)

  /** The trees for the symbols of a body so far; the last one starts at `mid`. */
  datatype Kids = Empty | Snoc(prev: Kids, tree: Tree, mid: nat)

  /** `t` derives the tokens from `i` to `j` from the symbol `x`. */
  ghost predicate Parses(g: seq<Production>, toks: seq<seq<nat>>, t: Tree, x: nat, i: nat, j: nat)
    decreases t
  {
    match t
    case Token => j == i + 1 && i < |toks| && x in toks[i]
    case Branch(k, kids) => k < |g| && g[k].head == x && ParsesTo(g, toks, kids, g[k].body, |g[k].body|, i, j)
  }

  /** `kids` derive the tokens from `i` to `j` from the first `p` symbols of a body. */
  ghost predicate ParsesTo(g: seq<Production>, toks: seq<seq<nat>>, kids: Kids, body: seq<nat>, p: nat, i: nat, j: nat)
    decreases kids
  {
    match kids
    case Empty => p == 0 && i == j
    case Snoc(prev, t, mid) =>
      0 < p <= |body| && ParsesTo(g, toks, prev, body, p - 1, i, mid) && Parses(g, toks, t, body[p - 1], mid, j)
  }

  ghost predicate Derives(g: seq<Production>, toks: seq<seq<nat>>, x: nat, i: nat, j: nat) {
    exists t :: Parses(g, toks, t, x, i, j)
  }

  /** Derivations do not go backwards or beyond the end. */
  lemma {:induction false} ParsesForward(g: seq<Production>, toks: seq<seq<nat>>, t: Tree, x: nat, i: nat, j: nat)
    requires Parses(g, toks, t, x, i, j)
    ensures i <= j && (i <= |toks| ==> j <= |toks|)
    decreases t
  {
    if t.Branch? {
      ParsesToForward(g, toks, t.kids, g[t.rule].body, |g[t.rule].body|, i, j);
    }
  }

  lemma {:induction false} ParsesToForward(g: seq<Production>, toks: seq<seq<nat>>, kids: Kids, body: seq<nat>, p: nat,
                                           i: nat, j: nat)
    requires ParsesTo(g, toks, kids, body, p, i, j)
    ensures i <= j && (i <= |toks| ==> j <= |toks|)
    decreases kids
  {
    if kids.Snoc? {
      ParsesToForward(g, toks, kids.prev, body, p - 1, i, kids.mid);
      ParsesForward(g, toks, kids.tree, body[p - 1], kids.mid, j);
    }
  }

  // ----- configurations -----

  /** The first configuration of rule `k`.  The configurations below `n` stand for tokens; then every rule has one
      for each position in its body, and one for its end. */
  function Start(g: seq<Production>, n: nat, k: nat): (c: nat)
    requires k <= |g|
    ensures c >= n
  {
    if k == 0 then n else Start(g, n, k - 1) + |g[k - 1].body| + 1
  }

  function Confs(g: seq<Production>, n: nat): nat {
    Start(g, n, |g|)
  }

  lemma {:induction false} StartGrows(g: seq<Production>, n: nat, k: nat, l: nat)
    requires k < l <= |g|
    ensures Start(g, n, k) + |g[k].body| < Start(g, n, l)
    decreases l
  {
    if k < l - 1 {
      StartGrows(g, n, k, l - 1);
    }
  }

  datatype Tables = Tables(starters: seq<seq<nat>>, enders: seq<seq<nat>>, predictors: seq<seq<nat>>, steps: seq<int>)

  /** What a configuration waits for: a symbol, or, shifted below zero, the symbol that is complete. */
  function StepOf(g: seq<Production>, n: nat, k: nat, p: nat): int
    requires k < |g| && p <= |g[k].body|
  {
    if p < |g[k].body| then g[k].body[p] else g[k].head - n
  }

  ghost predicate StepAt(steps: seq<int>, g: seq<Production>, n: nat, k: nat, p: nat)
    requires k < |g| && p <= |g[k].body|
  {
    Start(g, n, k) + p < |steps| && steps[Start(g, n, k) + p] == StepOf(g, n, k, p)
  }

  ghost predicate StepsDescribe(steps: seq<int>, g: seq<Production>, n: nat, upto: nat)
    requires upto <= |g|
  {
    && Start(g, n, upto) <= |steps|
    && (forall c :: 0 <= c < n ==> steps[c] == c - n)
    && (forall k: nat, p: nat :: k < upto && p <= |g[k].body| ==> StepAt(steps, g, n, k, p))
  }

  ghost predicate StartsRule(g: seq<Production>, n: nat, x: nat, c: nat, k: nat)
    requires k < |g|
  {
    g[k].head == x && c == Start(g, n, k)
  }

  ghost predicate StartersDescribe(starters: seq<seq<nat>>, g: seq<Production>, n: nat, upto: nat)
    requires upto <= |g|
  {
    && |starters| == n
    && forall x: nat, c: nat :: x < n ==>
      (c in starters[x] <==> exists k :: 0 <= k < upto && StartsRule(g, n, x, c, k))
  }

  /** `lists[x]` holds the configurations, up to a limit, whose step is x + shift. */
  ghost predicate ByStep(lists: seq<seq<nat>>, steps: seq<int>, n: nat, limit: nat, shift: int)
    requires limit <= |steps|
  {
    && |lists| == n
    && forall x: nat, c: nat {:trigger c in lists[x]} :: x < n ==>
      (c in lists[x] <==> c < limit && steps[c] == x + shift)
  }

  ghost predicate Describes(t: Tables, g: seq<Production>, n: nat) {
    && |t.steps| == Confs(g, n) && StepsDescribe(t.steps, g, n, |g|)
    && StartersDescribe(t.starters, g, n, |g|)
    && ByStep(t.enders, t.steps, n, |t.steps|, 0 - n)
    && ByStep(t.predictors, t.steps, n, |t.steps|, 0)
  }

  // ----- making the tables -----

  /** Puts `c` before the list of `x`. */
  function Push(lists: seq<seq<nat>>, x: nat, c: nat): seq<seq<nat>>
    requires x < |lists|
  {
    lists[x := [c] + lists[x]]
  }

  lemma ByStepPush(lists: seq<seq<nat>>, steps: seq<int>, n: nat, limit: nat, shift: int, x: nat)
    requires limit < |steps| && ByStep(lists, steps, n, limit, shift) && x < n
    ensures ByStep(Push(lists, x, limit), steps[limit := x + shift], n, limit + 1, shift)
  {
    var lists', steps' := Push(lists, x, limit), steps[limit := x + shift];
    forall y: nat, c: nat | y < n
      ensures c in lists'[y] <==> c < limit + 1 && steps'[c] == y + shift
    {
      assert c in lists'[y] <==> c in lists[y] || (y == x && c == limit);
    }
  }

  lemma ByStepSkip(lists: seq<seq<nat>>, steps: seq<int>, n: nat, limit: nat, shift: int, y: int)
    requires limit < |steps| && ByStep(lists, steps, n, limit, shift) && !(shift <= y < n + shift)
    ensures ByStep(lists, steps[limit := y], n, limit + 1, shift)
  {
    var steps' := steps[limit := y];
    forall x: nat, c: nat | x < n
      ensures c in lists[x] <==> c < limit + 1 && steps'[c] == x + shift
    {
      assert c in lists[x] <==> c < limit && steps[c] == x + shift;
    }
  }

  /** The tables for the tokens. */
  method TokenTables(n: nat, confs: nat) returns (enders: seq<seq<nat>>, steps: seq<int>)
    requires n <= confs
    ensures |steps| == confs && (forall c :: 0 <= c < n ==> steps[c] == c - n) && ByStep(enders, steps, n, n, 0 - n)
  {
    enders, steps := seq(n, _ => []), seq(confs, _ => 0);
    var i := n - 1;
    while i >= 0
      invariant -1 <= i < n && |enders| == n && |steps| == confs
      invariant forall c :: i < c < n ==> steps[c] == c - n && enders[c] == [c]
    {
      steps, enders := steps[i := i - n], enders[i := [i]];
      i := i - 1;
    }
  }

  /** Enters the body of rule `k` and its end. */
  method EnterRule(t: Tables, g: seq<Production>, n: nat, k: nat) returns (r: Tables)
    requires k < |g| && Symbols(g, n) && Start(g, n, k) <= Start(g, n, k + 1) <= |t.steps|
    requires ByStep(t.enders, t.steps, n, Start(g, n, k), 0 - n) && ByStep(t.predictors, t.steps, n, Start(g, n, k), 0)
    ensures r.starters == t.starters && |r.steps| == |t.steps| && r.steps[..Start(g, n, k)] == t.steps[..Start(g, n, k)]
    ensures forall p :: 0 <= p <= |g[k].body| ==> r.steps[Start(g, n, k) + p] == StepOf(g, n, k, p)
    ensures ByStep(r.enders, r.steps, n, Start(g, n, k + 1), 0 - n)
    ensures ByStep(r.predictors, r.steps, n, Start(g, n, k + 1), 0)
  {
    hide ByStep, Start, Symbols;
    StartNext(g, n, k);
    var conf, body := Start(g, n, k), g[k].body;
    BodySymbols(g, n, k);
    r := t;
    for p := 0 to |body|
      invariant r.starters == t.starters && |r.steps| == |t.steps| && r.steps[..conf] == t.steps[..conf]
      invariant forall q :: 0 <= q < p ==> r.steps[conf + q] == body[q]
      invariant ByStep(r.enders, r.steps, n, conf + p, 0 - n) && ByStep(r.predictors, r.steps, n, conf + p, 0)
    {
      ByStepPush(r.predictors, r.steps, n, conf + p, 0, body[p]);
      ByStepSkip(r.enders, r.steps, n, conf + p, 0 - n, body[p]);
      ListsOf(r.predictors, r.steps, n, conf + p, 0);
      r := r.(steps := r.steps[conf + p := body[p]], predictors := Push(r.predictors, body[p], conf + p));
    }
    var last := conf + |body|;
    ByStepPush(r.enders, r.steps, n, last, 0 - n, g[k].head);
    ByStepSkip(r.predictors, r.steps, n, last, 0, g[k].head - n);
    ListsOf(r.enders, r.steps, n, last, 0 - n);
    r := r.(steps := r.steps[last := g[k].head - n], enders := Push(r.enders, g[k].head, last));
  }

  lemma StartNext(g: seq<Production>, n: nat, k: nat)
    requires k < |g|
    ensures Start(g, n, k + 1) == Start(g, n, k) + |g[k].body| + 1 <= Confs(g, n)
  {
    if k + 1 < |g| {
      StartGrows(g, n, k + 1, |g|);
    }
  }

  lemma BodySymbols(g: seq<Production>, n: nat, k: nat)
    requires Symbols(g, n) && k < |g|
    ensures g[k].head < n && forall p :: 0 <= p < |g[k].body| ==> g[k].body[p] < n
  {
  }

  lemma ListsOf(lists: seq<seq<nat>>, steps: seq<int>, n: nat, limit: nat, shift: int)
    requires limit <= |steps| && ByStep(lists, steps, n, limit, shift)
    ensures |lists| == n
  {
  }

  lemma StartersPush(starters: seq<seq<nat>>, g: seq<Production>, n: nat, k: nat)
    requires k < |g| && g[k].head < n && StartersDescribe(starters, g, n, k)
    ensures StartersDescribe(Push(starters, g[k].head, Start(g, n, k)), g, n, k + 1)
  {
    hide Start;
    var r := Push(starters, g[k].head, Start(g, n, k));
    forall x: nat, c: nat | x < n
      ensures c in r[x] <==> exists l :: 0 <= l < k + 1 && StartsRule(g, n, x, c, l)
    {
      assert c in r[x] <==> c in starters[x] || StartsRule(g, n, x, c, k);
    }
  }

  lemma StepsNext(steps: seq<int>, steps': seq<int>, g: seq<Production>, n: nat, k: nat)
    requires k < |g| && StepsDescribe(steps, g, n, k) && |steps'| == |steps| >= Start(g, n, k + 1)
    requires steps'[..Start(g, n, k)] == steps[..Start(g, n, k)]
    requires forall p :: 0 <= p <= |g[k].body| ==> steps'[Start(g, n, k) + p] == StepOf(g, n, k, p)
    ensures StepsDescribe(steps', g, n, k + 1)
  {
    hide StepOf;
    var s := Start(g, n, k);
    assert forall c :: 0 <= c < s ==> steps'[c] == steps'[..s][c] && steps[c] == steps[..s][c];
    forall l: nat, p: nat | l < k + 1 && p <= |g[l].body|
      ensures StepAt(steps', g, n, l, p)
    {
      if l < k {
        assert StepAt(steps, g, n, l, p);
        StartGrows(g, n, l, k);
      }
    }
  }

  /** The tables of a grammar, rule by rule. */
  method MakeTables(g: seq<Production>, n: nat) returns (t: Tables)
    requires Symbols(g, n)
    ensures Describes(t, g, n)
  {
    hide ByStep, StepsDescribe, StartersDescribe, Symbols;
    var confs := Confs(g, n);
    var enders, steps := TokenTables(n, confs);
    t := Tables(seq(n, _ => []), enders, seq(n, _ => []), steps);
    NoRules(t, g, n);
    for k := 0 to |g|
      invariant |t.steps| == confs && StepsDescribe(t.steps, g, n, k) && StartersDescribe(t.starters, g, n, k)
      invariant Start(g, n, k) <= confs
      invariant ByStep(t.enders, t.steps, n, Start(g, n, k), 0 - n)
      invariant ByStep(t.predictors, t.steps, n, Start(g, n, k), 0)
    {
      BodySymbols(g, n, k);
      StartNext(g, n, k);
      StartersPush(t.starters, g, n, k);
      StartersLength(t.starters, g, n, k);
      var t' := t.(starters := Push(t.starters, g[k].head, Start(g, n, k)));
      var r := EnterRule(t', g, n, k);
      StepsNext(t.steps, r.steps, g, n, k);
      t := r;
    }
  }

  lemma StartersLength(starters: seq<seq<nat>>, g: seq<Production>, n: nat, k: nat)
    requires k <= |g| && StartersDescribe(starters, g, n, k)
    ensures |starters| == n
  {
  }

  lemma NoRules(t: Tables, g: seq<Production>, n: nat)
    requires |t.steps| == Confs(g, n) && n <= Confs(g, n)
    requires t.starters == seq(n, _ => []) && t.predictors == seq(n, _ => [])
    requires forall c :: 0 <= c < n ==> t.steps[c] == c - n
    ensures StepsDescribe(t.steps, g, n, 0) && StartersDescribe(t.starters, g, n, 0)
    ensures ByStep(t.predictors, t.steps, n, n, 0)
  {
    assert forall x :: 0 <= x < n ==> t.predictors[x] == [];
    assert forall c: nat :: c < n ==> t.steps[c] < 0;
  }
}
