/**
 Rewriting and checking together: what the answer of the benchmark means.
 */
module BoyerLogic {
  import opened Wrappers
  import opened BoyerTerms
  import opened BoyerRewrite
  import opened BoyerTautology

  // ----- every `if` has three arguments, before and after rewriting -----

  ghost predicate Ternary<H(!new)>(c: Logic<H>, t: Term<H>) {
    match t
    case Leaf(_) => true
    case Node(h, args) => (h == c.cond ==> ExactlyThree(args)) && TernaryList(c, args)
  }

  ghost predicate TernaryList<H(!new)>(c: Logic<H>, l: List<Term<H>>) {
    match l
    case Nil => true
    case Cons(t, rest) => Ternary(c, t) && TernaryList(c, rest)
  }

  predicate ExactlyThree<T>(l: List<T>) {
    AtLeastThree(l) && l.cdr.cdr.cdr.Nil?
  }

  ghost predicate TernaryValues<H(!new)>(c: Logic<H>, s: Alist<H>) {
    forall k :: 0 <= k < |s| ==> Ternary(c, s[k].value)
  }

  lemma {:induction false} TernaryComplete<H(!new)>(c: Logic<H>, t: Term<H>)
    requires Ternary(c, t)
    ensures Complete(c, t)
    decreases t
  {
    if IsIf(c, t) {
      assert TernaryList(c, t.args.cdr) && TernaryList(c, t.args.cdr.cdr);
      TernaryComplete(c, t.args.cdr.car);
      TernaryComplete(c, t.args.cdr.cdr.car);
    }
  }

  lemma {:induction false} UnifyTernary<H(!new)>(c: Logic<H>, t: Term<H>, p: Term<H>, s: Alist<H>)
    requires Ternary(c, t) && TernaryValues(c, s)
    ensures TernaryValues(c, Unify(t, p, s).1)
    decreases p
  {
    match p
    case Leaf(_) =>
    case Node(h, args) =>
      if t.Node? && t.head == h {
        UnifyListTernary(c, t.args, args, s);
      }
  }

  lemma {:induction false} UnifyListTernary<H(!new)>(c: Logic<H>, l: List<Term<H>>, p: List<Term<H>>, s: Alist<H>)
    requires TernaryList(c, l) && TernaryValues(c, s)
    ensures TernaryValues(c, UnifyList(l, p, s).1)
    decreases p
  {
    if l.Cons? && p.Cons? {
      UnifyTernary(c, l.car, p.car, s);
      if Unify(l.car, p.car, s).0 {
        UnifyListTernary(c, l.cdr, p.cdr, Unify(l.car, p.car, s).1);
      }
    }
  }

  lemma {:induction false} ApplyTernary<H(!new)>(c: Logic<H>, s: Alist<H>, t: Term<H>)
    requires Ternary(c, t) && TernaryValues(c, s)
    ensures Ternary(c, Apply(s, t))
  {
    match t
    case Leaf(_) =>
    case Node(_, args) =>
      ApplyListTernary(c, s, args);
  }

  lemma {:induction false} ApplyListTernary<H(!new)>(c: Logic<H>, s: Alist<H>, l: List<Term<H>>)
    requires TernaryList(c, l) && TernaryValues(c, s)
    ensures TernaryList(c, ApplyList(s, l)) && (ExactlyThree(l) <==> ExactlyThree(ApplyList(s, l)))
    ensures AtLeastThree(l) <==> AtLeastThree(ApplyList(s, l))
  {
    if l.Cons? {
      ApplyTernary(c, s, l.car);
      ApplyListTernary(c, s, l.cdr);
    }
  }

  ghost predicate TernaryRules<H(!new)>(c: Logic<H>, rules: H -> seq<Rule<H>>) {
    forall h, k :: 0 <= k < |rules(h)| ==> Ternary(c, rules(h)[k].rhs)
  }

  lemma {:induction false} FirstMatchTernary<H(!new)>(c: Logic<H>, t: Term<H>, rules: seq<Rule<H>>)
    requires Ternary(c, t) && FirstMatch(t, rules).Some? && forall k :: 0 <= k < |rules| ==> Ternary(c, rules[k].rhs)
    ensures Ternary(c, FirstMatch(t, rules).value)
  {
    var r := Unify(t, rules[0].lhs, []);
    if r.0 {
      UnifyTernary(c, t, rules[0].lhs, []);
      ApplyTernary(c, r.1, rules[0].rhs);
    } else {
      FirstMatchTernary(c, t, rules[1..]);
    }
  }

  lemma {:induction false} RewriteTernary<H(!new)>(c: Logic<H>, t: Term<H>, rules: H -> seq<Rule<H>>, fuel: nat)
    requires Ternary(c, t) && TernaryRules(c, rules) && Rewrite(t, rules, fuel).Some?
    ensures Ternary(c, Rewrite(t, rules, fuel).value)
    decreases fuel, t
  {
    match t
    case Leaf(_) =>
    case Node(h, args) =>
      RewriteArgsTernary(c, args, rules, fuel);
      var t' := Node(h, RewriteArgs(args, rules, fuel).value);
      var next := FirstMatch(t', rules(h));
      if next.Some? {
        FirstMatchTernary(c, t', rules(h));
        RewriteTernary(c, next.value, rules, fuel - 1);
      }
  }

  lemma {:induction false} RewriteArgsTernary<H(!new)>(c: Logic<H>, l: List<Term<H>>, rules: H -> seq<Rule<H>>,
                                                       fuel: nat)
    requires TernaryList(c, l) && TernaryRules(c, rules) && RewriteArgs(l, rules, fuel).Some?
    ensures var r := RewriteArgs(l, rules, fuel).value;
      TernaryList(c, r) && (ExactlyThree(l) <==> ExactlyThree(r)) && (AtLeastThree(l) <==> AtLeastThree(r))
    decreases fuel, l
  {
    if l.Cons? {
      RewriteTernary(c, l.car, rules, fuel);
      RewriteArgsTernary(c, l.cdr, rules, fuel);
    }
  }

  // ----- one lemma makes all terms if-normal -----

  function Three<T>(x: T, y: T, z: T): List<T> {
    Cons(x, Cons(y, Cons(z, Nil)))
  }

  function Var<H>(x: string): Term<H> {
    Leaf(Symbol(x))
  }

  /** (if (if a b c) d e). */
  function IfIf<H>(c: Logic<H>): Term<H> {
    Node(c.cond, Three(Node(c.cond, Three(Var("a"), Var("b"), Var("c"))), Var("d"), Var("e")))
  }

  lemma IfIfMatches<H(!new)>(c: Logic<H>, x: Term<H>, y: Term<H>, z: Term<H>, u: Term<H>, w: Term<H>)
    ensures Matches(Node(c.cond, Three(Node(c.cond, Three(x, y, z)), u, w)), IfIf(c))
  {
    hide Assq, IfIf, Matches, Apply;
    var s: Alist<H> := [Binding(Symbol("a"), x), Binding(Symbol("b"), y), Binding(Symbol("c"), z),
                        Binding(Symbol("d"), u), Binding(Symbol("e"), w)];
    assert "a"[0] == 'a' && "b"[0] == 'b' && "c"[0] == 'c' && "d"[0] == 'd' && "e"[0] == 'e';
    FirstBinding(s, 0);
    FirstBinding(s, 1);
    FirstBinding(s, 2);
    FirstBinding(s, 3);
    FirstBinding(s, 4);
    IfIfInstance(c, s, x, y, z, u, w);
    MatchesBy(Node(c.cond, Three(Node(c.cond, Three(x, y, z)), u, w)), IfIf(c), s);
  }

  lemma MatchesBy<H(!new)>(t: Term<H>, p: Term<H>, f: Alist<H>)
    requires NumbersFixed(f) && Apply(f, p) == t
    ensures Matches(t, p)
  {
  }

  lemma IfIfInstance<H>(c: Logic<H>, s: Alist<H>, x: Term<H>, y: Term<H>, z: Term<H>, u: Term<H>, w: Term<H>)
    requires Assq(Symbol("a"), s) == Some(x) && Assq(Symbol("b"), s) == Some(y) && Assq(Symbol("c"), s) == Some(z)
    requires Assq(Symbol("d"), s) == Some(u) && Assq(Symbol("e"), s) == Some(w)
    ensures Apply(s, IfIf(c)) == Node(c.cond, Three(Node(c.cond, Three(x, y, z)), u, w))
  {
    hide Assq;
    ApplyThree(s, Var("a"), Var("b"), Var("c"));
    ApplyThree(s, Node(c.cond, Three(Var("a"), Var("b"), Var("c"))), Var("d"), Var("e"));
  }

  lemma FirstBinding<H>(s: Alist<H>, k: nat)
    requires k < |s| && forall j :: 0 <= j < k ==> s[j].key != s[k].key
    ensures Assq(s[k].key, s) == Some(s[k].value)
  {
  }

  lemma ApplyThree<H>(s: Alist<H>, x: Term<H>, y: Term<H>, z: Term<H>)
    ensures ApplyList(s, Three(x, y, z)) == Three(Apply(s, x), Apply(s, y), Apply(s, z))
  {
    assert ApplyList(s, Cons(z, Nil)) == Cons(Apply(s, z), Nil);
    assert ApplyList(s, Cons(y, Cons(z, Nil))) == Cons(Apply(s, y), Cons(Apply(s, z), Nil));
  }

  ghost predicate HasIfIf<H(!new)>(c: Logic<H>, rules: H -> seq<Rule<H>>) {
    exists k :: 0 <= k < |rules(c.cond)| && rules(c.cond)[k].lhs == IfIf(c)
  }

  /** With the lemma on nested conditions, a fully rewritten term has no condition within a condition. */
  lemma {:induction false} NormalIsIfNormal<H(!new)>(c: Logic<H>, t: Term<H>, rules: H -> seq<Rule<H>>)
    requires Ternary(c, t) && Normal(t, rules) && HasIfIf(c, rules)
    ensures Complete(c, t) && IfNormal(c, t)
    decreases t
  {
    TernaryComplete(c, t);
    if IsIf(c, t) {
      var l := t.args;
      assert TernaryList(c, l.cdr) && TernaryList(c, l.cdr.cdr);
      assert NormalArgs(l.cdr, rules) && NormalArgs(l.cdr.cdr, rules);
      NormalIsIfNormal(c, Then(c, t), rules);
      NormalIsIfNormal(c, Else(c, t), rules);
      var b := Test(c, t);
      assert Ternary(c, b);
      if IsIf(c, b) {
        IfIfMatches(c, b.args.car, b.args.cdr.car, b.args.cdr.cdr.car, l.cdr.car, l.cdr.cdr.car);
      }
    }
  }

  // ----- the answer -----

  /** The interpretation treats `if`, true and false as they are meant: everything but false counts as true. */
  ghost predicate Standard<H(!new), D(!new)>(c: Logic<H>, i: Interpretation<H, D>) {
    && i.call(c.truth, Nil) != i.call(c.falsity, Nil)
    && (forall x, y, z :: i.call(c.cond, Three(x, y, z)) == if x != i.call(c.falsity, Nil) then y else z)
  }

  lemma {:induction false} TruthIsMeaning<H(!new), D(!new)>(c: Logic<H>, i: Interpretation<H, D>, v: string -> D,
                                                            t: Term<H>)
    requires Standard(c, i) && Ternary(c, t)
    ensures Holds(c, x => Eval(i, v, x) != i.call(c.falsity, Nil), t) <==> Eval(i, v, t) != i.call(c.falsity, Nil)
    decreases t
  {
    if t != True(c) && t != False(c) && IsIf(c, t) {
      var l := t.args;
      assert TernaryList(c, l.cdr) && TernaryList(c, l.cdr.cdr);
      TruthIsMeaning(c, i, v, l.car);
      TruthIsMeaning(c, i, v, l.cdr.car);
      TruthIsMeaning(c, i, v, l.cdr.cdr.car);
      ThreeValues(i, v, l);
    }
  }

  lemma ThreeValues<H(!new), D>(i: Interpretation<H, D>, v: string -> D, l: List<Term<H>>)
    requires ExactlyThree(l)
    ensures EvalList(i, v, l) == Three(Eval(i, v, l.car), Eval(i, v, l.cdr.car), Eval(i, v, l.cdr.cdr.car))
  {
    assert EvalList(i, v, l.cdr.cdr) == Cons(Eval(i, v, l.cdr.cdr.car), Nil);
    assert EvalList(i, v, l.cdr) == Cons(Eval(i, v, l.cdr.car), EvalList(i, v, l.cdr.cdr));
  }

  /** The term is rewritten, and the result is a tautology. */
  ghost predicate Proves<H(!new)>(c: Logic<H>, rules: H -> seq<Rule<H>>, t: Term<H>, fuel: nat) {
    Rewrite(t, rules, fuel).Some? && var r := Rewrite(t, rules, fuel).value; Complete(c, r) && Tautology(c, r, [], [])
  }

  /** What is proved is true: in every interpretation of the lemmas, under every valuation. */
  lemma ProvedIsTrue<H(!new), D(!new)>(c: Logic<H>, rules: H -> seq<Rule<H>>, t: Term<H>, fuel: nat,
                                           i: Interpretation<H, D>, v: string -> D)
    requires Proves(c, rules, t, fuel) && Ternary(c, t) && TernaryRules(c, rules)
    requires Standard(c, i) && LemmasHold(i, rules)
    ensures Eval(i, v, t) != i.call(c.falsity, Nil)
  {
    var r := Rewrite(t, rules, fuel).value;
    RewriteTernary(c, t, rules, fuel);
    TautologySound(c, r, [], [], x => Eval(i, v, x) != i.call(c.falsity, Nil));
    TruthIsMeaning(c, i, v, r);
    RewritePreservesMeaning(i, v, t, rules, fuel);
  }

  /** A term that was rewritten is proved exactly when its result holds however its parts that are not conditions
      turn out, provided that the lemma on nested conditions is there. */
  lemma ProvedIffTautology<H(!new)>(c: Logic<H>, rules: H -> seq<Rule<H>>, t: Term<H>, fuel: nat)
    requires Rewrite(t, rules, fuel).Some? && Ternary(c, t) && TernaryRules(c, rules)
    requires Distinct(c) && HasIfIf(c, rules)
    ensures Proves(c, rules, t, fuel) <==> forall given :: Holds(c, given, Rewrite(t, rules, fuel).value)
  {
    var r := Rewrite(t, rules, fuel).value;
    RewriteTernary(c, t, rules, fuel);
    RewriteNormal(t, rules, fuel);
    NormalIsIfNormal(c, r, rules);
    if Proves(c, rules, t, fuel) {
      forall given
        ensures Holds(c, given, r)
      {
        TautologySound(c, r, [], [], given);
      }
    } else {
      var given := TautologyComplete(c, r, [], []);
    }
  }
}
