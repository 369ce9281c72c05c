/**
 Terms of the Boyer benchmark, substitution, one-way matching, and what terms mean.
 */
module BoyerTerms {
  import opened Wrappers

  datatype List<T> = Nil | Cons(car: T, cdr: List<T>)

  datatype Atom = Symbol(name: string) | Number(n: int)

  /** A leaf is a variable or a number.  The head of a node is a name in terms as they are written, and the
      record of a name in terms as they are rewritten. */
  datatype Term<H> = Leaf(atom: Atom) | Node(head: H, args: List<Term<H>>)

  datatype Binding<H> = Binding(key: Atom, value: Term<H>)

  /** An association list; the first binding of an atom counts. */
  type Alist<H> = seq<Binding<H>>

  // ----- substitution -----

  function Assq<H>(a: Atom, s: Alist<H>): (r: Option<Term<H>>)
    ensures r.None? <==> forall i :: 0 <= i < |s| ==> s[i].key != a
    ensures r.Some? ==>
      exists i :: 0 <= i < |s| && s[i] == Binding(a, r.value) && forall j :: 0 <= j < i ==> s[j].key != a
  {
    if s == [] then None
    else if s[0].key == a then Some(s[0].value)
    else
      var r := Assq(a, s[1..]);
      assert forall i :: 1 <= i < |s| ==> s[i] == s[1..][i - 1];
      assert forall i :: 0 <= i < |s| - 1 ==> s[1..][i] == s[i + 1];
      r
  }

  function Apply<H>(s: Alist<H>, t: Term<H>): Term<H> {
    match t
    case Leaf(a) => (match Assq(a, s) case Some(u) => u case None => t)
    case Node(h, args) => Node(h, ApplyList(s, args))
  }

  function ApplyList<H>(s: Alist<H>, l: List<Term<H>>): List<Term<H>> {
    match l
    case Nil => Nil
    case Cons(t, rest) => Cons(Apply(s, t), ApplyList(s, rest))
  }

  // ----- one-way matching -----

  /** Matches the pattern `p` with the term `t`, given the bindings `s` made so far.  The bindings that a failed
      match has made are kept, too. */
  function Unify<H(==)>(t: Term<H>, p: Term<H>, s: Alist<H>): (r: (bool, Alist<H>))
    decreases p
  {
    match p
    case Leaf(a) =>
      (match Assq(a, s)
       case Some(u) => (t == u, s)
       case None => if a.Number? then (t == p, s) else (true, [Binding(a, t)] + s))
    case Node(h, args) =>
      if t.Leaf? || t.head != h then (false, s) else UnifyList(t.args, args, s)
  }

  function UnifyList<H(==)>(l: List<Term<H>>, p: List<Term<H>>, s: Alist<H>): (r: (bool, Alist<H>))
    decreases p
  {
    match l
    case Nil => (p.Nil?, s)
    case Cons(t, rest) =>
      if p.Nil? then (false, s)
      else
        var r := Unify(t, p.car, s);
        if r.0 then UnifyList(rest, p.cdr, r.1) else r
  }

  /** A substitution that leaves numbers alone. */
  ghost predicate NumbersFixed<H>(s: Alist<H>) {
    forall i :: 0 <= i < |s| ==> s[i].key.Symbol?
  }

  /** `s'` binds whatever `s` binds, to the same term. */
  ghost predicate Extends<H>(s: Alist<H>, s': Alist<H>) {
    NumbersFixed(s) && NumbersFixed(s') && forall a :: Assq(a, s).Some? ==> Assq(a, s') == Assq(a, s)
  }

  /** All symbols of `p` are bound. */
  ghost predicate Covers<H>(s: Alist<H>, p: Term<H>) {
    match p
    case Leaf(a) => a.Number? || Assq(a, s).Some?
    case Node(_, args) => CoversList(s, args)
  }

  ghost predicate CoversList<H>(s: Alist<H>, l: List<Term<H>>) {
    match l
    case Nil => true
    case Cons(t, rest) => Covers(s, t) && CoversList(s, rest)
  }

  lemma NumberUnbound<H>(s: Alist<H>, a: Atom)
    requires NumbersFixed(s) && a.Number?
    ensures Assq(a, s).None?
  {
  }

  /** Later bindings do not change what a covered pattern has become. */
  lemma {:induction false} ApplyExtended<H>(s: Alist<H>, s': Alist<H>, p: Term<H>)
    requires Extends(s, s') && Covers(s, p)
    ensures Apply(s', p) == Apply(s, p) && Covers(s', p)
  {
    match p
    case Leaf(a) =>
      if a.Number? {
        NumberUnbound(s, a);
        NumberUnbound(s', a);
      }
    case Node(_, args) => ApplyListExtended(s, s', args);
  }

  lemma {:induction false} ApplyListExtended<H>(s: Alist<H>, s': Alist<H>, l: List<Term<H>>)
    requires Extends(s, s') && CoversList(s, l)
    ensures ApplyList(s', l) == ApplyList(s, l) && CoversList(s', l)
  {
    if l.Cons? {
      ApplyExtended(s, s', l.car);
      ApplyListExtended(s, s', l.cdr);
    }
  }

  lemma PushExtends<H>(s: Alist<H>, a: Atom, t: Term<H>)
    requires NumbersFixed(s) && a.Symbol? && Assq(a, s).None?
    ensures Extends(s, [Binding(a, t)] + s) && Assq(a, [Binding(a, t)] + s) == Some(t)
  {
    var s' := [Binding(a, t)] + s;
    assert s'[1..] == s;
  }

  /** A match is right: the bindings turn the pattern into the term. */
  lemma {:induction false} UnifySound<H>(t: Term<H>, p: Term<H>, s: Alist<H>)
    requires NumbersFixed(s)
    ensures var r := Unify(t, p, s);
      Extends(s, r.1) && (r.0 ==> Covers(r.1, p) && Apply(r.1, p) == t)
    decreases p
  {
    match p
    case Leaf(a) =>
      if Assq(a, s).None? {
        if a.Symbol? {
          PushExtends(s, a, t);
        }
      }
    case Node(h, args) =>
      if t.Node? && t.head == h {
        UnifyListSound(t.args, args, s);
      }
  }

  lemma {:induction false} UnifyListSound<H>(l: List<Term<H>>, p: List<Term<H>>, s: Alist<H>)
    requires NumbersFixed(s)
    ensures var r := UnifyList(l, p, s);
      Extends(s, r.1) && (r.0 ==> CoversList(r.1, p) && ApplyList(r.1, p) == l)
    decreases p
  {
    if l.Cons? && p.Cons? {
      UnifySound(l.car, p.car, s);
      var s1 := Unify(l.car, p.car, s).1;
      if Unify(l.car, p.car, s).0 {
        UnifyListSound(l.cdr, p.cdr, s1);
        ApplyExtended(s1, UnifyList(l.cdr, p.cdr, s1).1, p.car);
      }
    }
  }

  /** The bindings are what the substitution `f` does. */
  ghost predicate Agrees<H>(s: Alist<H>, f: Alist<H>) {
    forall a :: Assq(a, s).Some? ==> Apply(f, Leaf(a)) == Assq(a, s).value
  }

  /** A match is found whenever there is one, and it is the most general one. */
  lemma {:induction false} UnifyComplete<H>(t: Term<H>, p: Term<H>, s: Alist<H>, f: Alist<H>)
    requires NumbersFixed(f) && Agrees(s, f) && Apply(f, p) == t
    ensures var r := Unify(t, p, s); r.0 && Agrees(r.1, f)
    decreases p
  {
    match p
    case Leaf(a) =>
      if a.Number? {
        NumberUnbound(f, a);
      }
      var s' := [Binding(a, t)] + s;
      assert s'[1..] == s;
    case Node(h, args) => UnifyListComplete(t.args, args, s, f);
  }

  lemma {:induction false} UnifyListComplete<H>(l: List<Term<H>>, p: List<Term<H>>, s: Alist<H>, f: Alist<H>)
    requires NumbersFixed(f) && Agrees(s, f) && ApplyList(f, p) == l
    ensures var r := UnifyList(l, p, s); r.0 && Agrees(r.1, f)
    decreases p
  {
    if p.Cons? {
      UnifyComplete(l.car, p.car, s, f);
      UnifyListComplete(l.cdr, p.cdr, Unify(l.car, p.car, s).1, f);
    }
  }

  /** The pattern has an instance equal to the term. */
  ghost predicate Matches<H(!new)>(t: Term<H>, p: Term<H>) {
    exists f: Alist<H> :: NumbersFixed(f) && Apply(f, p) == t
  }

  lemma UnifyIffMatches<H(!new)>(t: Term<H>, p: Term<H>)
    ensures Unify(t, p, []).0 <==> Matches(t, p)
    ensures Unify(t, p, []).0 ==> NumbersFixed(Unify(t, p, []).1) && Apply(Unify(t, p, []).1, p) == t
  {
    UnifySound(t, p, []);
    if Matches(t, p) {
      var f: Alist<H> :| NumbersFixed(f) && Apply(f, p) == t;
      UnifyComplete(t, p, [], f);
    }
  }

  // ----- meaning -----

  datatype Interpretation<!H, !D> = Interpretation(call: (H, List<D>) -> D, number: int -> D)

  function Eval<H, D>(i: Interpretation<H, D>, v: string -> D, t: Term<H>): D {
    match t
    case Leaf(Symbol(x)) => v(x)
    case Leaf(Number(n)) => i.number(n)
    case Node(h, args) => i.call(h, EvalList(i, v, args))
  }

  function EvalList<H, D>(i: Interpretation<H, D>, v: string -> D, l: List<Term<H>>): List<D> {
    match l
    case Nil => Nil
    case Cons(t, rest) => Cons(Eval(i, v, t), EvalList(i, v, rest))
  }

  /** The valuation after a substitution. */
  function After<H, D>(i: Interpretation<H, D>, v: string -> D, s: Alist<H>): string -> D {
    (x: string) => Eval(i, v, Apply(s, Leaf(Symbol(x))))
  }

  lemma {:induction false} EvalApply<H, D>(i: Interpretation<H, D>, v: string -> D, s: Alist<H>, t: Term<H>)
    requires NumbersFixed(s)
    ensures Eval(i, v, Apply(s, t)) == Eval(i, After(i, v, s), t)
  {
    match t
    case Leaf(a) =>
      if a.Number? {
        NumberUnbound(s, a);
      }
    case Node(_, args) => EvalApplyList(i, v, s, args);
  }

  lemma {:induction false} EvalApplyList<H, D>(i: Interpretation<H, D>, v: string -> D, s: Alist<H>, l: List<Term<H>>)
    requires NumbersFixed(s)
    ensures EvalList(i, v, ApplyList(s, l)) == EvalList(i, After(i, v, s), l)
  {
    if l.Cons? {
      EvalApply(i, v, s, l.car);
      EvalApplyList(i, v, s, l.cdr);
    }
  }
}
