/**
 Rewriting with lemmas that are indexed by the head of their left-hand side.
 */
module BoyerRewrite {
  import opened Wrappers
  import opened BoyerTerms

  /** The lemma (equal lhs rhs). */
  datatype Rule<H> = Rule(lhs: Term<H>, rhs: Term<H>)

  /** The instance of the right-hand side of the first rule that matches. */
  function FirstMatch<H(==)>(t: Term<H>, rules: seq<Rule<H>>): Option<Term<H>> {
    if rules == [] then None
    else
      var r := Unify(t, rules[0].lhs, []);
      if r.0 then Some(Apply(r.1, rules[0].rhs)) else FirstMatch(t, rules[1..])
  }

  /** Rewrites the arguments, then the term itself as long as a lemma matches.  Rewriting need not end; `fuel`
      bounds the number of lemmas applied one after the other, and None means that it was not enough. */
  function Rewrite<H(==)>(t: Term<H>, rules: H -> seq<Rule<H>>, fuel: nat): Option<Term<H>>
    decreases fuel, t
  {
    match t
    case Leaf(_) => Some(t)
    case Node(h, args) =>
      match RewriteArgs(args, rules, fuel)
      case None => None
      case Some(args') =>
        match FirstMatch(Node(h, args'), rules(h))
        case None => Some(Node(h, args'))
        case Some(next) => if fuel == 0 then None else Rewrite(next, rules, fuel - 1)
  }

  function RewriteArgs<H(==)>(l: List<Term<H>>, rules: H -> seq<Rule<H>>, fuel: nat): Option<List<Term<H>>>
    decreases fuel, l
  {
    match l
    case Nil => Some(Nil)
    case Cons(t, rest) =>
      match Rewrite(t, rules, fuel)
      case None => None
      case Some(t') =>
        match RewriteArgs(rest, rules, fuel)
        case None => None
        case Some(rest') => Some(Cons(t', rest'))
  }

  /** The rule that is applied is the first one that matches, and what comes of it is its right-hand side under a
      substitution that turns its left-hand side into the term. */
  lemma {:induction false} FirstMatchIs<H(!new)>(t: Term<H>, rules: seq<Rule<H>>) returns (k: nat, s: Alist<H>)
    ensures k <= |rules| && forall j :: 0 <= j < k ==> !Matches(t, rules[j].lhs)
    ensures k == |rules| ==> FirstMatch(t, rules) == None
    ensures k < |rules| ==>
      NumbersFixed(s) && Apply(s, rules[k].lhs) == t && FirstMatch(t, rules) == Some(Apply(s, rules[k].rhs))
  {
    k, s := 0, [];
    if rules != [] {
      UnifyIffMatches(t, rules[0].lhs);
      var r := Unify(t, rules[0].lhs, []);
      if r.0 {
        s := r.1;
      } else {
        var l, s' := FirstMatchIs(t, rules[1..]);
        k, s := l + 1, s';
        assert forall j :: 0 < j < k ==> rules[j] == rules[1..][j - 1];
      }
    }
  }

  // ----- more fuel does not change a result -----

  lemma {:induction false} RewriteMore<H>(t: Term<H>, rules: H -> seq<Rule<H>>, fuel: nat, more: nat)
    requires Rewrite(t, rules, fuel).Some? && fuel <= more
    ensures Rewrite(t, rules, more) == Rewrite(t, rules, fuel)
    decreases fuel, t
  {
    match t
    case Leaf(_) =>
    case Node(h, args) =>
      RewriteArgsMore(args, rules, fuel, more);
      var next := FirstMatch(Node(h, RewriteArgs(args, rules, fuel).value), rules(h));
      if next.Some? {
        RewriteMore(next.value, rules, fuel - 1, more - 1);
      }
  }

  lemma {:induction false} RewriteArgsMore<H>(l: List<Term<H>>, rules: H -> seq<Rule<H>>, fuel: nat, more: nat)
    requires RewriteArgs(l, rules, fuel).Some? && fuel <= more
    ensures RewriteArgs(l, rules, more) == RewriteArgs(l, rules, fuel)
    decreases fuel, l
  {
    if l.Cons? {
      RewriteMore(l.car, rules, fuel, more);
      RewriteArgsMore(l.cdr, rules, fuel, more);
    }
  }

  // ----- meaning -----

  ghost predicate RuleHolds<H, D(!new)>(i: Interpretation<H, D>, r: Rule<H>) {
    forall v: string -> D :: Eval(i, v, r.lhs) == Eval(i, v, r.rhs)
  }

  ghost predicate AllHold<H, D(!new)>(i: Interpretation<H, D>, rules: seq<Rule<H>>) {
    forall k :: 0 <= k < |rules| ==> RuleHolds(i, rules[k])
  }

  ghost predicate LemmasHold<H(!new), D(!new)>(i: Interpretation<H, D>, rules: H -> seq<Rule<H>>) {
    forall h :: AllHold(i, rules(h))
  }

  lemma {:induction false} FirstMatchMeaning<H(!new), D(!new)>(i: Interpretation<H, D>, v: string -> D, t: Term<H>,
                                                               rules: seq<Rule<H>>)
    requires AllHold(i, rules) && FirstMatch(t, rules).Some?
    ensures Eval(i, v, FirstMatch(t, rules).value) == Eval(i, v, t)
  {
    var r := Unify(t, rules[0].lhs, []);
    if r.0 {
      UnifyIffMatches(t, rules[0].lhs);
      EvalApply(i, v, r.1, rules[0].lhs);
      EvalApply(i, v, r.1, rules[0].rhs);
      assert RuleHolds(i, rules[0]);
    } else {
      FirstMatchMeaning(i, v, t, rules[1..]);
    }
  }

  /** Whenever rewriting ends, its result means what the term meant, in every interpretation of the lemmas. */
  lemma {:induction false} RewritePreservesMeaning<H(!new), D(!new)>(
      i: Interpretation<H, D>, v: string -> D, t: Term<H>, rules: H -> seq<Rule<H>>, fuel: nat)
    requires LemmasHold(i, rules) && Rewrite(t, rules, fuel).Some?
    ensures Eval(i, v, Rewrite(t, rules, fuel).value) == Eval(i, v, t)
    decreases fuel, t
  {
    match t
    case Leaf(_) =>
    case Node(h, args) =>
      RewriteArgsPreserveMeaning(i, v, args, rules, fuel);
      var t' := Node(h, RewriteArgs(args, rules, fuel).value);
      var next := FirstMatch(t', rules(h));
      if next.Some? {
        FirstMatchMeaning(i, v, t', rules(h));
        RewritePreservesMeaning(i, v, next.value, rules, fuel - 1);
      }
  }

  lemma {:induction false} RewriteArgsPreserveMeaning<H(!new), D(!new)>(
      i: Interpretation<H, D>, v: string -> D, l: List<Term<H>>, rules: H -> seq<Rule<H>>, fuel: nat)
    requires LemmasHold(i, rules) && RewriteArgs(l, rules, fuel).Some?
    ensures EvalList(i, v, RewriteArgs(l, rules, fuel).value) == EvalList(i, v, l)
    decreases fuel, l
  {
    if l.Cons? {
      RewritePreservesMeaning(i, v, l.car, rules, fuel);
      RewriteArgsPreserveMeaning(i, v, l.cdr, rules, fuel);
    }
  }

  // ----- normal forms -----

  /** No lemma applies anywhere in the term. */
  ghost predicate Normal<H(!new)>(t: Term<H>, rules: H -> seq<Rule<H>>) {
    match t
    case Leaf(_) => true
    case Node(h, args) => NormalArgs(args, rules) && forall k :: 0 <= k < |rules(h)| ==> !Matches(t, rules(h)[k].lhs)
  }

  ghost predicate NormalArgs<H(!new)>(l: List<Term<H>>, rules: H -> seq<Rule<H>>) {
    match l
    case Nil => true
    case Cons(t, rest) => Normal(t, rules) && NormalArgs(rest, rules)
  }

  lemma {:induction false} NoMatch<H(!new)>(t: Term<H>, rules: seq<Rule<H>>)
    ensures FirstMatch(t, rules).None? <==> forall k :: 0 <= k < |rules| ==> !Matches(t, rules[k].lhs)
  {
    if rules != [] {
      NoMatch(t, rules[1..]);
      UnifyIffMatches(t, rules[0].lhs);
      assert forall k :: 1 <= k < |rules| ==> rules[k] == rules[1..][k - 1];
      assert forall k :: 0 <= k < |rules| - 1 ==> rules[1..][k] == rules[k + 1];
    }
  }

  /** The result of rewriting cannot be rewritten any further. */
  lemma {:induction false} RewriteNormal<H(!new)>(t: Term<H>, rules: H -> seq<Rule<H>>, fuel: nat)
    requires Rewrite(t, rules, fuel).Some?
    ensures Normal(Rewrite(t, rules, fuel).value, rules)
    decreases fuel, t
  {
    match t
    case Leaf(_) =>
    case Node(h, args) =>
      RewriteArgsNormal(args, rules, fuel);
      var t' := Node(h, RewriteArgs(args, rules, fuel).value);
      var next := FirstMatch(t', rules(h));
      NoMatch(t', rules(h));
      if next.Some? {
        RewriteNormal(next.value, rules, fuel - 1);
      }
  }

  lemma {:induction false} RewriteArgsNormal<H(!new)>(l: List<Term<H>>, rules: H -> seq<Rule<H>>, fuel: nat)
    requires RewriteArgs(l, rules, fuel).Some?
    ensures NormalArgs(RewriteArgs(l, rules, fuel).value, rules)
    decreases fuel, l
  {
    if l.Cons? {
      RewriteNormal(l.car, rules, fuel);
      RewriteArgsNormal(l.cdr, rules, fuel);
    }
  }

  /** A term is its own result exactly when no lemma applies to it anywhere. */
  lemma {:induction false} NormalFixed<H(!new)>(t: Term<H>, rules: H -> seq<Rule<H>>, fuel: nat)
    requires Normal(t, rules)
    ensures Rewrite(t, rules, fuel) == Some(t)
    decreases t
  {
    match t
    case Leaf(_) =>
    case Node(h, args) =>
      NormalArgsFixed(args, rules, fuel);
      NoMatch(t, rules(h));
  }

  lemma {:induction false} NormalArgsFixed<H(!new)>(l: List<Term<H>>, rules: H -> seq<Rule<H>>, fuel: nat)
    requires NormalArgs(l, rules)
    ensures RewriteArgs(l, rules, fuel) == Some(l)
    decreases l
  {
    if l.Cons? {
      NormalFixed(l.car, rules, fuel);
      NormalArgsFixed(l.cdr, rules, fuel);
    }
  }

  /** Rewriting twice is rewriting once. */
  lemma RewriteIdempotent<H(!new)>(t: Term<H>, rules: H -> seq<Rule<H>>, fuel: nat, again: nat)
    requires Rewrite(t, rules, fuel).Some?
    ensures Rewrite(Rewrite(t, rules, fuel).value, rules, again) == Rewrite(t, rules, fuel)
  {
    RewriteNormal(t, rules, fuel);
    NormalFixed(Rewrite(t, rules, fuel).value, rules, again);
  }

  /** Where no lemma applies to the arguments, the first lemma that matches the term is applied, and rewriting goes on
      with what comes of it. */
  lemma LemmaApplied<H(!new)>(h: H, args: List<Term<H>>, rules: H -> seq<Rule<H>>, fuel: nat)
    returns (k: nat, s: Alist<H>)
    requires NormalArgs(args, rules)
    ensures k <= |rules(h)| && forall j :: 0 <= j < k ==> !Matches(Node(h, args), rules(h)[j].lhs)
    ensures k == |rules(h)| ==> Rewrite(Node(h, args), rules, fuel) == Some(Node(h, args))
    ensures k < |rules(h)| ==>
      && NumbersFixed(s) && Apply(s, rules(h)[k].lhs) == Node(h, args)
      && Rewrite(Node(h, args), rules, fuel + 1) == Rewrite(Apply(s, rules(h)[k].rhs), rules, fuel)
  {
    NormalArgsFixed(args, rules, fuel);
    NormalArgsFixed(args, rules, fuel + 1);
    k, s := FirstMatchIs(Node(h, args), rules(h));
  }

  /** Arguments are rewritten first, one by one. */
  lemma ArgumentsFirst<H(!new)>(h: H, args: List<Term<H>>, args': List<Term<H>>, rules: H -> seq<Rule<H>>, fuel: nat)
    requires RewriteArgs(args, rules, fuel) == Some(args')
    ensures Rewrite(Node(h, args), rules, fuel) == Rewrite(Node(h, args'), rules, fuel)
    ensures args.Cons? ==> args'.Cons? && Rewrite(args.car, rules, fuel) == Some(args'.car)
    ensures args.Cons? ==> RewriteArgs(args.cdr, rules, fuel) == Some(args'.cdr)
  {
    RewriteArgsNormal(args, rules, fuel);
    NormalArgsFixed(args', rules, fuel);
  }

  lemma AllArguments<H(!new)>(l: List<Term<H>>, rules: H -> seq<Rule<H>>, fuel: nat)
    ensures RewriteArgs(l, rules, fuel).Some? <==>
      l == Nil || (Rewrite(l.car, rules, fuel).Some? && RewriteArgs(l.cdr, rules, fuel).Some?)
  {
  }

  // ----- the index -----

  /** The lemmas whose left-hand side has the head `h`. */
  function Indexed<H(==)>(h: H, rules: seq<Rule<H>>): seq<Rule<H>> {
    if rules == [] then []
    else (if rules[0].lhs.Node? && rules[0].lhs.head == h then [rules[0]] else []) + Indexed(h, rules[1..])
  }

  /** Looking only at the lemmas of its head finds the same lemma for a term as looking at all of them. */
  lemma {:induction false} IndexedMatch<H>(t: Term<H>, rules: seq<Rule<H>>)
    requires t.Node? && forall k :: 0 <= k < |rules| ==> rules[k].lhs.Node?
    ensures FirstMatch(t, Indexed(t.head, rules)) == FirstMatch(t, rules)
  {
    if rules != [] {
      IndexedMatch(t, rules[1..]);
      var l := Indexed(t.head, rules);
      if rules[0].lhs.head == t.head {
        assert l[0] == rules[0] && l[1..] == Indexed(t.head, rules[1..]);
      } else {
        assert l == Indexed(t.head, rules[1..]);
      }
    }
  }

  /** So rewriting with the index is rewriting with the whole list of lemmas. */
  lemma {:induction false} IndexedRewrite<H(!new)>(t: Term<H>, index: H -> seq<Rule<H>>, rules: seq<Rule<H>>, fuel: nat)
    requires forall k :: 0 <= k < |rules| ==> rules[k].lhs.Node?
    requires forall h :: index(h) == Indexed(h, rules)
    ensures Rewrite(t, index, fuel) == Rewrite(t, h => rules, fuel)
    decreases fuel, t
  {
    match t
    case Leaf(_) =>
    case Node(h, args) =>
      IndexedRewriteArgs(args, index, rules, fuel);
      var args' := RewriteArgs(args, index, fuel);
      if args'.Some? {
        IndexedMatch(Node(h, args'.value), rules);
        var next := FirstMatch(Node(h, args'.value), rules);
        if next.Some? && fuel > 0 {
          IndexedRewrite(next.value, index, rules, fuel - 1);
        }
      }
  }

  lemma {:induction false} IndexedRewriteArgs<H(!new)>(l: List<Term<H>>, index: H -> seq<Rule<H>>, rules: seq<Rule<H>>,
                                                       fuel: nat)
    requires forall k :: 0 <= k < |rules| ==> rules[k].lhs.Node?
    requires forall h :: index(h) == Indexed(h, rules)
    ensures RewriteArgs(l, index, fuel) == RewriteArgs(l, h => rules, fuel)
    decreases fuel, l
  {
    if l.Cons? {
      IndexedRewrite(l.car, index, rules, fuel);
      IndexedRewriteArgs(l.cdr, index, rules, fuel);
    }
  }
}
