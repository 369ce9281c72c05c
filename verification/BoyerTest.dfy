/**
 The Boyer benchmark from the lemmas and the term as they are written to the answer.
 */
module BoyerTest {
  import opened Wrappers
  import opened BoyerTerms
  import opened BoyerRewrite
  import opened BoyerTautology
  import opened BoyerLogic
  import opened Boyer

  // ----- translated terms are terms as they are written, in other clothes -----

  /** The interpretation of records that goes with an interpretation of names. */
  function Through<D>(rs: seq<Record>, i: Interpretation<string, D>): Interpretation<nat, D> {
    Interpretation((h: nat, l: List<D>) => i.call(Name(rs, h), l), i.number)
  }

  lemma {:induction false} EvalThrough<D>(rs: seq<Record>, i: Interpretation<string, D>, v: string -> D, t: Term<nat>)
    ensures Eval(Through(rs, i), v, t) == Eval(i, v, Untranslate(rs, t))
  {
    match t
    case Leaf(_) =>
    case Node(_, args) => EvalListThrough(rs, i, v, args);
  }

  lemma {:induction false} EvalListThrough<D>(rs: seq<Record>, i: Interpretation<string, D>, v: string -> D,
                                              l: List<Term<nat>>)
    ensures EvalList(Through(rs, i), v, l) == EvalList(i, v, UntranslateArgs(rs, l))
  {
    if l.Cons? {
      EvalThrough(rs, i, v, l.car);
      EvalListThrough(rs, i, v, l.cdr);
    }
  }

  lemma {:induction false} TernaryThrough(rs: seq<Record>, t: Term<nat>)
    requires LogicNamed(rs) && OneEach(rs) && Known(|rs|, t) && Ternary(NAMES, Untranslate(rs, t))
    ensures Ternary(LOGIC, t)
  {
    match t
    case Leaf(_) =>
    case Node(h, args) => TernaryListThrough(rs, args);
  }

  lemma {:induction false} TernaryListThrough(rs: seq<Record>, l: List<Term<nat>>)
    requires LogicNamed(rs) && OneEach(rs) && KnownArgs(|rs|, l) && TernaryList(NAMES, UntranslateArgs(rs, l))
    ensures TernaryList(LOGIC, l)
    ensures ExactlyThree(UntranslateArgs(rs, l)) <==> ExactlyThree(l)
    ensures AtLeastThree(UntranslateArgs(rs, l)) <==> AtLeastThree(l)
  {
    if l.Cons? {
      TernaryThrough(rs, l.car);
      TernaryListThrough(rs, l.cdr);
    }
  }

  /** The association list `r` is the translation of `s`. */
  ghost predicate Translated(rs: seq<Record>, r: Alist<nat>, s: Alist<string>) {
    |r| == |s| && forall k :: 0 <= k < |s| ==>
      r[k].key == s[k].key && Known(|rs|, r[k].value) && Untranslate(rs, r[k].value) == s[k].value
  }

  lemma {:induction false} AssqTranslated(rs: seq<Record>, a: Atom, r: Alist<nat>, s: Alist<string>)
    requires Translated(rs, r, s)
    ensures Assq(a, r).Some? <==> Assq(a, s).Some?
    ensures Assq(a, r).Some? ==> Known(|rs|, Assq(a, r).value) && Untranslate(rs, Assq(a, r).value) == Assq(a, s).value
  {
    if s != [] && s[0].key != a {
      AssqTranslated(rs, a, r[1..], s[1..]);
    }
  }

  lemma {:induction false} ApplyTranslated(rs: seq<Record>, r: Alist<nat>, s: Alist<string>, t: Term<nat>)
    requires Translated(rs, r, s) && Known(|rs|, t)
    ensures Known(|rs|, Apply(r, t)) && Untranslate(rs, Apply(r, t)) == Apply(s, Untranslate(rs, t))
  {
    match t
    case Leaf(a) => AssqTranslated(rs, a, r, s);
    case Node(_, args) => ApplyListTranslated(rs, r, s, args);
  }

  lemma {:induction false} ApplyListTranslated(rs: seq<Record>, r: Alist<nat>, s: Alist<string>, l: List<Term<nat>>)
    requires Translated(rs, r, s) && KnownArgs(|rs|, l)
    ensures KnownArgs(|rs|, ApplyList(r, l))
    ensures UntranslateArgs(rs, ApplyList(r, l)) == ApplyList(s, UntranslateArgs(rs, l))
  {
    if l.Cons? {
      ApplyTranslated(rs, r, s, l.car);
      ApplyListTranslated(rs, r, s, l.cdr);
    }
  }

  // ----- the lemmas -----

  /** The state that `Setup` leaves behind, possibly with more records. */
  ghost predicate Ready(rs: seq<Record>, rules: seq<Rule<nat>>, lemmas: seq<Term<string>>) {
    OneEach(rs) && LogicNamed(rs) && AllStand(rs, rules, lemmas) && IndexIs(rs, rules)
  }

  lemma {:induction false} IndexedFrom<H>(h: H, rules: seq<Rule<H>>, k: nat)
    requires k < |Indexed(h, rules)|
    ensures Indexed(h, rules)[k] in rules
  {
    if rules[0].lhs.Node? && rules[0].lhs.head == h {
      if k > 0 {
        IndexedFrom(h, rules[1..], k - 1);
      }
    } else {
      IndexedFrom(h, rules[1..], k);
    }
  }

  /** A lemma in the index of a record is the translation of a lemma as it is written. */
  lemma FromLemma(rs: seq<Record>, rules: seq<Rule<nat>>, lemmas: seq<Term<string>>, h: nat, k: nat) returns (j: nat)
    requires Ready(rs, rules, lemmas) && k < |LemmasOf(rs)(h)|
    ensures j < |lemmas| && IsLemma(lemmas[j]) && HasRight(lemmas[j]) && Stands(rs, LemmasOf(rs)(h)[k], lemmas[j])
  {
    hide Known, Untranslate, OneEach, Indexed, IsLemma, HasRight, Stands;
    assert h < |rs| && rs[h].lemmas == Indexed(h, rules);
    IndexedFrom(h, rules, k);
    var i :| 0 <= i < |rules| && rules[i] == Indexed(h, rules)[k];
    j := |lemmas| - 1 - i;
    assert rules[|lemmas| - 1 - j] == rules[i];
  }

  ghost predicate Holds1<D(!new)>(i: Interpretation<string, D>, t: Term<string>)
    requires IsLemma(t) && HasRight(t)
  {
    forall v: string -> D :: Eval(i, v, t.args.car) == Eval(i, v, t.args.cdr.car)
  }

  /** The interpretation satisfies the lemmas as they are written. */
  ghost predicate Satisfies<D(!new)>(i: Interpretation<string, D>, lemmas: seq<Term<string>>) {
    forall k :: 0 <= k < |lemmas| ==> IsLemma(lemmas[k]) && HasRight(lemmas[k]) && Holds1(i, lemmas[k])
  }

  lemma LemmasThrough<D(!new)>(rs: seq<Record>, rules: seq<Rule<nat>>, lemmas: seq<Term<string>>,
                               i: Interpretation<string, D>)
    requires Ready(rs, rules, lemmas) && Satisfies(i, lemmas)
    ensures LemmasHold(Through(rs, i), LemmasOf(rs))
  {
    hide Ready, Stands;
    forall h, k | 0 <= k < |LemmasOf(rs)(h)|
      ensures RuleHolds(Through(rs, i), LemmasOf(rs)(h)[k])
    {
      var j := FromLemma(rs, rules, lemmas, h, k);
      RuleThrough(rs, i, LemmasOf(rs)(h)[k], lemmas[j]);
    }
  }

  lemma RuleThrough<D(!new)>(rs: seq<Record>, i: Interpretation<string, D>, r: Rule<nat>, t: Term<string>)
    requires IsLemma(t) && HasRight(t) && Stands(rs, r, t) && Holds1(i, t)
    ensures RuleHolds(Through(rs, i), r)
  {
    forall v: string -> D
      ensures Eval(Through(rs, i), v, r.lhs) == Eval(Through(rs, i), v, r.rhs)
    {
      EvalThrough(rs, i, v, r.lhs);
      EvalThrough(rs, i, v, r.rhs);
    }
  }

  /** The conditions in the lemmas have three arguments. */
  ghost predicate TernaryLemmas(lemmas: seq<Term<string>>) {
    forall k :: 0 <= k < |lemmas| ==>
      IsLemma(lemmas[k]) && HasRight(lemmas[k]) && Ternary(NAMES, lemmas[k].args.cdr.car)
  }

  lemma RulesTernary(rs: seq<Record>, rules: seq<Rule<nat>>, lemmas: seq<Term<string>>)
    requires Ready(rs, rules, lemmas) && TernaryLemmas(lemmas)
    ensures TernaryRules(LOGIC, LemmasOf(rs))
  {
    forall h, k | 0 <= k < |LemmasOf(rs)(h)|
      ensures Ternary(LOGIC, LemmasOf(rs)(h)[k].rhs)
    {
      var j := FromLemma(rs, rules, lemmas, h, k);
      TernaryThrough(rs, LemmasOf(rs)(h)[k].rhs);
    }
  }

  /** The lemma that was added last comes first. */
  lemma LastLemmaFirst(rs: seq<Record>, rules: seq<Rule<nat>>, lemmas: seq<Term<string>>, k: nat)
    requires Ready(rs, rules, lemmas) && k < |lemmas|
    ensures |rules| == |lemmas| && lemmas[k].Node? && lemmas[k].head == "equal" && lemmas[k].args.Cons?
    ensures lemmas[k].args.cdr.Cons? && Untranslate(rs, rules[|rules| - 1 - k].lhs) == lemmas[k].args.car
    ensures Untranslate(rs, rules[|rules| - 1 - k].rhs) == lemmas[k].args.cdr.car
  {
    hide Known, Untranslate, OneEach, Indexed;
  }

  /** Rewriting with the lists of the records is rewriting with all lemmas, the last one first. */
  lemma RecordsAreAllLemmas(rs: seq<Record>, rules: seq<Rule<nat>>, lemmas: seq<Term<string>>, t: Term<nat>, fuel: nat)
    requires Ready(rs, rules, lemmas)
    ensures Rewrite(t, LemmasOf(rs), fuel) == Rewrite(t, h => rules, fuel)
  {
    RulesKnown(rs, rules, lemmas);
    forall h: nat
      ensures LemmasOf(rs)(h) == Indexed(h, rules)
    {
      if h >= |rs| {
        NotIndexed(h, rules);
      }
    }
    IndexedRewrite(t, LemmasOf(rs), rules, fuel);
  }

  // ----- the benchmark -----

  /** (or ... (or term (f)) ... (f)), `n` times. */
  function Ors(term: Term<string>, n: nat): Term<string> {
    if n == 0 then term else Node("or", Cons(Ors(term, n - 1), Cons(Node("f", Nil), Nil)))
  }

  method Wrap(term: Term<string>, n: nat) returns (r: Term<string>)
    ensures r == Ors(term, n)
  {
    r := term;
    var k := n;
    while k != 0
      invariant 0 <= k <= n && Ors(r, k) == Ors(term, n)
    {
      OrsInside(r, k);
      r := Node("or", Cons(r, Cons(Node("f", Nil), Nil)));
      k := k - 1;
    }
  }

  method TranslateAlist(b: Prover, s: Alist<string>) returns (r: Alist<nat>)
    requires b.Valid()
    modifies b`alist, b`records
    ensures b.Valid() && Grown(old(b.records), b.records) && Translated(b.records, r, s)
    decreases |s|
  {
    if s == [] {
      return [];
    }
    var t := b.TranslateTerm(s[0].value);
    ghost var rs := b.records;
    var rest := TranslateAlist(b, s[1..]);
    UntranslateGrown(rs, b.records, t);
    r := [Binding(s[0].key, t)] + rest;
  }

  /** The term to prove, translated with what is to be substituted in it. */
  method Prepare(b: Prover, term: Term<string>, n: nat, s: Alist<string>,
                 ghost rules: seq<Rule<nat>>, ghost lemmas: seq<Term<string>>) returns (t: Term<nat>)
    requires b.Valid() && Ready(b.records, rules, lemmas)
    modifies b`alist, b`records
    ensures b.Valid() && Ready(b.records, rules, lemmas)
    ensures Known(|b.records|, t) && Untranslate(b.records, t) == Apply(s, Ors(term, n))
  {
    hide Ready, Known, Untranslate, Apply, Grown, OneEach, Translated, Ors;
    ghost var rs0 := b.records;
    var or := Wrap(term, n);
    var t0 := b.TranslateTerm(or);
    ghost var rs1 := b.records;
    var s' := TranslateAlist(b, s);
    ghost var rs := b.records;
    GrownTwice(rs0, rs1, rs);
    GrownSame(rs1, rs);
    StillReady(rs0, rs, rules, lemmas);
    UntranslateGrown(rs1, rs, t0);
    ApplyTranslated(rs, s', s, t0);
    t := Apply(s', t0);
  }

  lemma GrownSame(a: seq<Record>, b: seq<Record>)
    requires Grown(a, b)
    ensures SameNames(a, b)
  {
    assert forall h :: 0 <= h < |a| ==> b[h] == b[..|a|][h];
  }

  /** Prepares the term, rewrites it and checks it.  The answer is None when rewriting has not ended. */
  method Test(b: Prover, term: Term<string>, n: nat, s: Alist<string>, fuel: nat,
              ghost rules: seq<Rule<nat>>, ghost lemmas: seq<Term<string>>)
    returns (answer: Option<bool>, ghost t: Term<nat>)
    requires b.Valid() && Ready(b.records, rules, lemmas) && TernaryLemmas(lemmas)
    requires Ternary(NAMES, Apply(s, Ors(term, n)))
    modifies b
    ensures b.Valid() && Ready(b.records, rules, lemmas)
    ensures Known(|b.records|, t) && Untranslate(b.records, t) == Apply(s, Ors(term, n)) && Ternary(LOGIC, t)
    ensures answer.None? <==> Rewrite(t, LemmasOf(b.records), fuel).None?
    ensures answer.Some? ==> answer.value == Proves(LOGIC, LemmasOf(b.records), t, fuel)
  {
    hide Ready, TernaryLemmas, Ternary, Known, Untranslate, Apply, Rewrite, Ors, OneEach, LemmasOf, Complete, Tautology;
    var t' := Prepare(b, term, n, s, rules, lemmas);
    t := t';
    ghost var rs := b.records;
    IsTernary(rs, rules, lemmas, t);
    RulesTernary(rs, rules, lemmas);
    var r := b.Rewrite(t', fuel);
    if r.None? {
      return None, t;
    }
    RewriteTernary(LOGIC, t, LemmasOf(rs), fuel);
    TernaryComplete(LOGIC, r.value);
    var a := Tautologyp(LOGIC, r.value, [], []);
    return Some(a), t;
  }

  lemma {:induction false} OrsInside(term: Term<string>, n: nat)
    requires n > 0
    ensures Ors(Node("or", Cons(term, Cons(Node("f", Nil), Nil))), n - 1) == Ors(term, n)
  {
    if n > 1 {
      OrsInside(term, n - 1);
    }
  }

  lemma StillReady(a: seq<Record>, b: seq<Record>, rules: seq<Rule<nat>>, lemmas: seq<Term<string>>)
    requires Ready(a, rules, lemmas) && Grown(a, b) && OneEach(b)
    ensures Ready(b, rules, lemmas)
  {
    hide Known, Untranslate, OneEach, IsLemma, HasRight;
    assert SameNames(a, b) by {
      assert forall h :: 0 <= h < |a| ==> b[h] == b[..|a|][h];
    }
    RulesKnown(a, rules, lemmas);
    IndexGrown(a, b, rules);
    forall k | 0 <= k < |lemmas|
      ensures IsLemma(lemmas[k]) && HasRight(lemmas[k]) && Stands(b, rules[|lemmas| - 1 - k], lemmas[k])
    {
      assert Stands(a, rules[|lemmas| - 1 - k], lemmas[k]);
      UntranslateGrown(a, b, rules[|lemmas| - 1 - k].lhs);
      UntranslateGrown(a, b, rules[|lemmas| - 1 - k].rhs);
    }
  }

  lemma IsTernary(rs: seq<Record>, rules: seq<Rule<nat>>, lemmas: seq<Term<string>>, t: Term<nat>)
    requires Ready(rs, rules, lemmas) && Known(|rs|, t) && Ternary(NAMES, Untranslate(rs, t))
    ensures Ternary(LOGIC, t)
  {
    TernaryThrough(rs, t);
  }

  lemma CallThrough<D>(rs: seq<Record>, i: Interpretation<string, D>, h: nat, l: List<D>)
    ensures Through(rs, i).call(h, l) == i.call(Name(rs, h), l)
  {
  }

  lemma StandardThrough<D(!new)>(rs: seq<Record>, i: Interpretation<string, D>)
    requires LogicNamed(rs) && Standard(NAMES, i)
    ensures Standard(LOGIC, Through(rs, i)) && Through(rs, i).call(1, Nil) == i.call("f", Nil)
  {
    var j := Through(rs, i);
    CallThrough(rs, i, 1, Nil);
    CallThrough(rs, i, 2, Nil);
    forall x, y, z
      ensures j.call(0, Three(x, y, z)) == if x != j.call(1, Nil) then y else z
    {
      CallThrough(rs, i, 0, Three(x, y, z));
      assert i.call("if", Three(x, y, z)) == if x != i.call("f", Nil) then y else z;
    }
  }

  /** What is proved is true under every valuation in every interpretation that satisfies the lemmas as they are
      written. */
  lemma WrappedIsTrue<D(!new)>(rs: seq<Record>, rules: seq<Rule<nat>>, lemmas: seq<Term<string>>, t: Term<nat>,
                              fuel: nat,
                              i: Interpretation<string, D>, v: string -> D)
    requires Ready(rs, rules, lemmas) && TernaryLemmas(lemmas) && Ternary(LOGIC, t)
    requires Proves(LOGIC, LemmasOf(rs), t, fuel)
    requires Standard(NAMES, i) && Satisfies(i, lemmas)
    ensures Eval(i, v, Untranslate(rs, t)) != i.call("f", Nil)
  {
    hide Proves, Ternary, TernaryLemmas, Satisfies;
    LemmasThrough(rs, rules, lemmas, i);
    RulesTernary(rs, rules, lemmas);
    var j := Through(rs, i);
    StandardThrough(rs, i);
    ProvedIsTrue(LOGIC, LemmasOf(rs), t, fuel, j, v);
    EvalThrough(rs, i, v, t);
  }

  // ----- what the benchmark has proved -----

  /** (equal (or p q) (if p (t) (if q (t) (f)))) */
  const OR_LEMMA: Term<string> :=
    Node("equal",
         Cons(Node("or", Cons(Leaf(Symbol("p")), Cons(Leaf(Symbol("q")), Nil))),
              Cons(Node("if", Cons(Leaf(Symbol("p")),
                                   Cons(Node("t", Nil),
                                        Cons(Node("if", Cons(Leaf(Symbol("q")),
                                                             Cons(Node("t", Nil), Cons(Node("f", Nil), Nil)))),
                                             Nil)))),
                   Nil)))

  /** In an interpretation that satisfies that lemma, a disjunction is false iff both of its parts are. */
  lemma OrMeans<D(!new)>(i: Interpretation<string, D>, x: D, y: D)
    requires i.call("t", Nil) != i.call("f", Nil)
    requires forall x, y, z :: i.call("if", Cons(x, Cons(y, Cons(z, Nil)))) == if x != i.call("f", Nil) then y else z
    requires forall v: string -> D :: Eval(i, v, OR_LEMMA.args.car) == Eval(i, v, OR_LEMMA.args.cdr.car)
    ensures i.call("or", Cons(x, Cons(y, Nil))) == i.call("f", Nil) <==> x == i.call("f", Nil) && y == i.call("f", Nil)
  {
    var v: string -> D := n => if n == "p" then x else y;
    assert "p"[0] != "q"[0];
    assert v("p") == x && v("q") == y;
    var p, q, t, f := Leaf(Symbol("p")), Leaf(Symbol("q")), Node("t", Nil), Node("f", Nil);
    assert Eval(i, v, OR_LEMMA.args.car) == i.call("or", Cons(x, Cons(y, Nil))) by {
      assert EvalList(i, v, Cons(q, Nil)) == Cons(y, Nil);
      assert EvalList(i, v, Cons(p, Cons(q, Nil))) == Cons(x, Cons(y, Nil));
    }
    var inner := Node("if", Cons(q, Cons(t, Cons(f, Nil))));
    EvalIf(i, v, q, t, f);
    EvalIf(i, v, p, t, inner);
  }

  lemma EvalIf<D>(i: Interpretation<string, D>, v: string -> D, x: Term<string>, y: Term<string>, z: Term<string>)
    ensures Eval(i, v, Node("if", Cons(x, Cons(y, Cons(z, Nil)))))
            == i.call("if", Cons(Eval(i, v, x), Cons(Eval(i, v, y), Cons(Eval(i, v, z), Nil))))
  {
    assert EvalList(i, v, Cons(z, Nil)) == Cons(Eval(i, v, z), Nil);
    assert EvalList(i, v, Cons(y, Cons(z, Nil))) == Cons(Eval(i, v, y), Cons(Eval(i, v, z), Nil));
  }

  /** Wrapping a term changes nothing about its being false, however often it is done. */
  lemma {:induction false} OrsMean<D(!new)>(i: Interpretation<string, D>, v: string -> D, term: Term<string>, n: nat)
    requires i.call("t", Nil) != i.call("f", Nil)
    requires forall x, y, z :: i.call("if", Cons(x, Cons(y, Cons(z, Nil)))) == if x != i.call("f", Nil) then y else z
    requires forall v: string -> D :: Eval(i, v, OR_LEMMA.args.car) == Eval(i, v, OR_LEMMA.args.cdr.car)
    ensures Eval(i, v, Ors(term, n)) == i.call("f", Nil) <==> Eval(i, v, term) == i.call("f", Nil)
  {
    hide OR_LEMMA;
    if n > 0 {
      OrsMean(i, v, term, n - 1);
      var t, f := Ors(term, n - 1), Node("f", Nil);
      OrMeans(i, Eval(i, v, t), Eval(i, v, f));
      assert Eval(i, v, f) == i.call("f", Nil);
      assert EvalList(i, v, Cons(f, Nil)) == Cons(Eval(i, v, f), Nil);
      assert EvalList(i, v, Cons(t, Cons(f, Nil))) == Cons(Eval(i, v, t), Cons(Eval(i, v, f), Nil));
    }
  }

  /** Not wrapped, a term is as it was; wrapped once more, it is (or term (f)). */
  lemma OrsAre(term: Term<string>, n: nat)
    ensures Ors(term, 0) == term
    ensures Ors(term, n + 1) == Node("or", Cons(Ors(term, n), Cons(Node("f", Nil), Nil)))
  {
  }

  lemma {:induction false} ApplyOrs(s: Alist<string>, term: Term<string>, n: nat)
    ensures Apply(s, Ors(term, n)) == Ors(Apply(s, term), n)
  {
    if n > 0 {
      ApplyOrs(s, term, n - 1);
      var t, f: Term<string> := Ors(term, n - 1), Node("f", Nil);
      assert ApplyList(s, Cons(f, Nil)) == Cons(f, Nil);
      assert ApplyList(s, Cons(t, Cons(f, Nil))) == Cons(Apply(s, t), Cons(f, Nil));
    }
  }

  /** The benchmark is sound: when it answers true, the term with what is substituted in it is true under every
      valuation in every interpretation that satisfies the lemmas as they are written, if the one for `or` is among
      them.  The requirements on `t` are what `Test` ensures. */
  lemma AnswerIsTrue<D(!new)>(rs: seq<Record>, rules: seq<Rule<nat>>, lemmas: seq<Term<string>>, term: Term<string>,
                              n: nat, s: Alist<string>, t: Term<nat>, fuel: nat, i: Interpretation<string, D>,
                              v: string -> D)
    requires Ready(rs, rules, lemmas) && TernaryLemmas(lemmas) && Ternary(LOGIC, t)
    requires Untranslate(rs, t) == Apply(s, Ors(term, n)) && Proves(LOGIC, LemmasOf(rs), t, fuel)
    requires i.call("t", Nil) != i.call("f", Nil)
    requires forall x, y, z :: i.call("if", Cons(x, Cons(y, Cons(z, Nil)))) == if x != i.call("f", Nil) then y else z
    requires Satisfies(i, lemmas) && (n == 0 || OR_LEMMA in lemmas)
    ensures Eval(i, v, Apply(s, term)) != i.call("f", Nil)
  {
    hide Proves, Ternary, TernaryLemmas, Ready, Ors, LemmasOf;
    assert Standard(NAMES, i);
    WrappedIsTrue(rs, rules, lemmas, t, fuel, i, v);
    ApplyOrs(s, term, n);
    if n > 0 {
      var k :| 0 <= k < |lemmas| && lemmas[k] == OR_LEMMA;
      assert Holds1(i, lemmas[k]);
      OrsMean(i, v, Apply(s, term), n);
    } else {
      OrsAre(Apply(s, term), 0);
    }
  }
}
