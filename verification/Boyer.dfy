/**
 The Boyer benchmark: names are interned as records, every record holds the lemmas for its name, and the
 substitution of the match under way is a variable that all matching shares.
 */
module Boyer {
  import opened Wrappers
  import opened BoyerTerms
  import opened BoyerRewrite
  import opened BoyerTautology

  /** References to records are their numbers in the order of creation. */
  datatype Record = Record(name: string, lemmas: seq<Rule<nat>>)

  function Name(rs: seq<Record>, h: nat): string {
    if h < |rs| then rs[h].name else ""
  }

  function LemmasOf(rs: seq<Record>): nat -> seq<Rule<nat>> {
    (h: nat) => if h < |rs| then rs[h].lemmas else []
  }

  /** Every name has one record. */
  ghost predicate OneEach(rs: seq<Record>) {
    forall h, k :: 0 <= h < |rs| && 0 <= k < |rs| && rs[h].name == rs[k].name ==> h == k
  }

  function Untranslate(rs: seq<Record>, t: Term<nat>): Term<string> {
    match t
    case Leaf(a) => Leaf(a)
    case Node(h, args) => Node(Name(rs, h), UntranslateArgs(rs, args))
  }

  function UntranslateArgs(rs: seq<Record>, l: List<Term<nat>>): List<Term<string>> {
    match l
    case Nil => Nil
    case Cons(t, rest) => Cons(Untranslate(rs, t), UntranslateArgs(rs, rest))
  }

  /** All heads are records. */
  ghost predicate Known(n: nat, t: Term<nat>) {
    match t
    case Leaf(_) => true
    case Node(h, args) => h < n && KnownArgs(n, args)
  }

  ghost predicate KnownArgs(n: nat, l: List<Term<nat>>) {
    match l
    case Nil => true
    case Cons(t, rest) => Known(n, t) && KnownArgs(n, rest)
  }

  /** New records have been added, without lemmas. */
  ghost predicate Grown(a: seq<Record>, b: seq<Record>) {
    |a| <= |b| && b[..|a|] == a && forall h :: |a| <= h < |b| ==> b[h].lemmas == []
  }

  /** The names of the records have not changed. */
  ghost predicate SameNames(a: seq<Record>, b: seq<Record>) {
    |a| <= |b| && forall h :: 0 <= h < |a| ==> b[h].name == a[h].name
  }

  lemma {:induction false} UntranslateGrown(a: seq<Record>, b: seq<Record>, t: Term<nat>)
    requires SameNames(a, b) && Known(|a|, t)
    ensures Known(|b|, t) && Untranslate(b, t) == Untranslate(a, t)
  {
    match t
    case Leaf(_) =>
    case Node(_, args) => UntranslateArgsGrown(a, b, args);
  }

  lemma {:induction false} UntranslateArgsGrown(a: seq<Record>, b: seq<Record>, l: List<Term<nat>>)
    requires SameNames(a, b) && KnownArgs(|a|, l)
    ensures KnownArgs(|b|, l) && UntranslateArgs(b, l) == UntranslateArgs(a, l)
  {
    if l.Cons? {
      UntranslateGrown(a, b, l.car);
      UntranslateArgsGrown(a, b, l.cdr);
    }
  }

  /** Terms are equal as they are rewritten exactly when they are equal as they are written. */
  lemma {:induction false} TranslationUnique(rs: seq<Record>, t: Term<nat>, u: Term<nat>)
    requires OneEach(rs) && Known(|rs|, t) && Known(|rs|, u) && Untranslate(rs, t) == Untranslate(rs, u)
    ensures t == u
    decreases t
  {
    if t.Node? {
      TranslationArgsUnique(rs, t.args, u.args);
    }
  }

  lemma {:induction false} TranslationArgsUnique(rs: seq<Record>, l: List<Term<nat>>, m: List<Term<nat>>)
    requires OneEach(rs) && KnownArgs(|rs|, l) && KnownArgs(|rs|, m) && UntranslateArgs(rs, l) == UntranslateArgs(rs, m)
    ensures l == m
    decreases l
  {
    if l.Cons? {
      TranslationUnique(rs, l.car, m.car);
      TranslationArgsUnique(rs, l.cdr, m.cdr);
    }
  }

  /** (equal (head ...) right ...). */
  predicate IsLemma(t: Term<string>) {
    t.Node? && t.head == "equal" && t.args.Cons? && t.args.car.Node?
  }

  /** The right-hand side of an equation is there. */
  predicate HasRight(t: Term<string>) {
    t.Node? && t.args.Cons? ==> t.args.cdr.Cons?
  }

  ghost predicate Stands(rs: seq<Record>, r: Rule<nat>, t: Term<string>)
    requires IsLemma(t) && HasRight(t)
  {
    && Known(|rs|, r.lhs) && Known(|rs|, r.rhs) && r.lhs.Node?
    && Untranslate(rs, r.lhs) == t.args.car && Untranslate(rs, r.rhs) == t.args.cdr.car
  }

  /** The rules are the lemmas, the last one first. */
  ghost predicate AllStand(rs: seq<Record>, rules: seq<Rule<nat>>, lemmas: seq<Term<string>>) {
    |rules| == |lemmas| &&
    forall k :: 0 <= k < |lemmas| ==>
      IsLemma(lemmas[k]) && HasRight(lemmas[k]) && Stands(rs, rules[|lemmas| - 1 - k], lemmas[k])
  }

  ghost predicate IndexIs(rs: seq<Record>, rules: seq<Rule<nat>>) {
    forall h :: 0 <= h < |rs| ==> rs[h].lemmas == Indexed(h, rules)
  }

  const LOGIC: Logic<nat> := Logic(0, 2, 1)
  const NAMES: Logic<string> := Logic("if", "t", "f")

  ghost predicate LogicNamed(rs: seq<Record>) {
    |rs| >= 3 && rs[0].name == "if" && rs[1].name == "f" && rs[2].name == "t"
  }

  class Prover {
    var alist: seq<(string, nat)>
    var records: seq<Record>
    var subst: Alist<nat>

    constructor ()
      ensures Valid() && records == []
    {
      alist, records, subst := [], [], [];
    }

    /** The list of names has the youngest record first. */
    ghost predicate Valid()
      reads this
    {
      && |alist| == |records| && OneEach(records)
      && forall k :: 0 <= k < |alist| ==> alist[k] == (records[|records| - 1 - k].name, |records| - 1 - k)
    }

    /** The record of a name, which is made if there is none. */
    method SymbolRecord(sym: string) returns (r: nat)
      requires Valid()
      modifies `alist, `records
      ensures Valid() && Grown(old(records), records) && r < |records| && records[r].name == sym
      ensures records == if r < |old(records)| then old(records) else old(records) + [Record(sym, [])]
    {
      var k := 0;
      while k < |alist|
        invariant k <= |alist| && forall j :: 0 <= j < k ==> alist[j].0 != sym
      {
        if alist[k].0 == sym {
          return alist[k].1;
        }
        k := k + 1;
      }
      r := |records|;
      assert forall h :: 0 <= h < |records| ==> records[h].name == alist[|records| - 1 - h].0;
      records := records + [Record(sym, [])];
      alist := [(sym, r)] + alist;
    }

    method TranslateTerm(t: Term<string>) returns (r: Term<nat>)
      requires Valid()
      modifies `alist, `records
      ensures Valid() && Grown(old(records), records) && Known(|records|, r) && Untranslate(records, r) == t
      decreases t
    {
      if t.Leaf? {
        return Leaf(t.atom);
      }
      var h := SymbolRecord(t.head);
      var args := TranslateArgs(t.args);
      r := Node(h, args);
    }

    method TranslateArgs(l: List<Term<string>>) returns (r: List<Term<nat>>)
      requires Valid()
      modifies `alist, `records
      ensures Valid() && Grown(old(records), records) && KnownArgs(|records|, r) && UntranslateArgs(records, r) == l
      decreases l
    {
      if l.Nil? {
        return Nil;
      }
      var t := TranslateTerm(l.car);
      ghost var rs := records;
      var rest := TranslateArgs(l.cdr);
      UntranslateGrown(rs, records, t);
      r := Cons(t, rest);
    }

    /** Puts a lemma before the others of the head of its left-hand side. */
    method AddLemma(t: Term<string>, ghost rules: seq<Rule<nat>>, ghost lemmas: seq<Term<string>>)
      returns (ok: bool, ghost rule: Rule<nat>)
      requires Valid() && HasRight(t) && AllStand(records, rules, lemmas) && IndexIs(records, rules)
      modifies `alist, `records
      ensures ok <==> t.Node? && t.head == "equal" && t.args.Cons? && t.args.car.Node?
      ensures ok ==> t.args.cdr.Cons? && Untranslate(records, rule.lhs) == t.args.car
                     && Untranslate(records, rule.rhs) == t.args.cdr.car
      ensures ok ==> Valid() && SameNames(old(records), records)
                     && AllStand(records, [rule] + rules, lemmas + [t]) && IndexIs(records, [rule] + rules)
    {
      hide AllStand, IndexIs, Stands, Known, Untranslate, OneEach, Indexed;
      ok := IsLemma(t);
      rule := Rule(Leaf(Number(0)), Leaf(Number(0)));
      if ok {
        ghost var before := records;
        var t' := TranslateTerm(t);
        ghost var rs := records;
        var h := SymbolRecord(t.args.car.head);
        ghost var rs' := records;
        UntranslateGrown(rs, rs', t');
        LemmaParts(rs', t', t);
        RulesKnown(before, rules, lemmas);
        rule := Rule(t'.args.car, t'.args.cdr.car);
        GrownTwice(before, rs, rs');
        IndexGrown(before, rs', rules);
        SameHead(rs', rule, t, h);
        records := records[h := records[h].(lemmas := [Rule(t'.args.car, t'.args.cdr.car)] + records[h].lemmas)];
        StillOneEach(rs', records);
        OneMore(before, rs', records, rules, lemmas, rule, t);
        NewestReads(records, rule, rules, lemmas, t);
      }
    }

    /** The names that the checker knows come first. */
    method InternLogic()
      modifies this
      ensures Valid() && LogicNamed(records) && forall h :: 0 <= h < |records| ==> records[h].lemmas == []
    {
      hide OneEach, Grown;
      alist, records := [], [];
      NoRecords();
      var i := SymbolRecord("if");
      assert records == [Record("if", [])];
      var f := SymbolRecord("f");
      assert "if"[0] == 'i' && "f"[0] == 'f' && "t"[0] == 't';
      assert records == [Record("if", []), Record("f", [])];
      var t := SymbolRecord("t");
      assert records == [Record("if", []), Record("f", []), Record("t", [])];
    }

    /** Starts anew with the lemmas; fails on a term that is not an equation for a head. */
    method Setup(lemmas: seq<Term<string>>) returns (ok: bool, ghost rules: seq<Rule<nat>>)
      requires forall k :: 0 <= k < |lemmas| ==> HasRight(lemmas[k])
      modifies this
      ensures ok <==> forall k :: 0 <= k < |lemmas| ==> IsLemma(lemmas[k])
      ensures ok ==> Valid() && LogicNamed(records) && AllStand(records, rules, lemmas) && IndexIs(records, rules)
    {
      hide AllStand, IndexIs, Stands, OneEach, HasRight, LogicNamed, Untranslate;
      InternLogic();
      rules := [];
      NoRules(records);
      ok := true;
      assert lemmas[..0] == [];
      var k := 0;
      while k < |lemmas|
        invariant k <= |lemmas| && Valid() && LogicNamed(records)
        invariant forall j :: 0 <= j < k ==> IsLemma(lemmas[j])
        invariant AllStand(records, rules, lemmas[..k]) && IndexIs(records, rules)
      {
        ghost var rule;
        ghost var rs := records;
        ok, rule := AddLemma(lemmas[k], rules, lemmas[..k]);
        if !ok {
          return;
        }
        StillNamed(rs, records);
        rules := [rule] + rules;
        assert lemmas[..k + 1] == lemmas[..k] + [lemmas[k]];
        k := k + 1;
      }
      assert lemmas[..k] == lemmas;
    }

    method OneWayUnify1(t: Term<nat>, p: Term<nat>) returns (ok: bool)
      modifies `subst
      ensures (ok, subst) == Unify(t, p, old(subst))
      decreases p
    {
      if p.Leaf? {
        var found := Assq(p.atom, subst);
        if found.Some? {
          return t == found.value;
        } else if p.atom.Number? {
          return t == p;
        } else {
          subst := [Binding(p.atom, t)] + subst;
          return true;
        }
      } else if t.Leaf? || t.head != p.head {
        return false;
      }
      var l, m := t.args, p.args;
      while true
        invariant m < p && UnifyList(l, m, subst) == Unify(t, p, old(subst))
        decreases m
      {
        if l.Nil? {
          return m.Nil?;
        } else if m.Nil? {
          return false;
        }
        var first := OneWayUnify1(l.car, m.car);
        if !first {
          return false;
        }
        l, m := l.cdr, m.cdr;
      }
    }

    method Rewrite(t: Term<nat>, fuel: nat) returns (r: Option<Term<nat>>)
      modifies `subst
      ensures r == BoyerRewrite.Rewrite(t, LemmasOf(records), fuel)
      decreases fuel, t
    {
      if t.Leaf? {
        return Some(t);
      }
      var args := RewriteArgs(t.args, fuel);
      if args.None? {
        return None;
      }
      var t' := Node(t.head, args.value);
      var l := LemmasOf(records)(t.head);
      while true
        invariant FirstMatch(t', LemmasOf(records)(t.head)) == FirstMatch(t', l)
        decreases |l|
      {
        if l == [] {
          return Some(t');
        }
        subst := [];
        var matched := OneWayUnify1(t', l[0].lhs);
        if matched {
          if fuel == 0 {
            return None;
          }
          r := Rewrite(Apply(subst, l[0].rhs), fuel - 1);
          return;
        }
        l := l[1..];
      }
    }

    method RewriteArgs(l: List<Term<nat>>, fuel: nat) returns (r: Option<List<Term<nat>>>)
      modifies `subst
      ensures r == BoyerRewrite.RewriteArgs(l, LemmasOf(records), fuel)
      decreases fuel, l
    {
      if l.Nil? {
        return Some(Nil);
      }
      var t := Rewrite(l.car, fuel);
      if t.None? {
        return None;
      }
      var rest := RewriteArgs(l.cdr, fuel);
      if rest.None? {
        return None;
      }
      return Some(Cons(t.value, rest.value));
    }
  }

  lemma LemmaParts(rs: seq<Record>, t': Term<nat>, t: Term<string>)
    requires IsLemma(t) && HasRight(t) && Known(|rs|, t') && Untranslate(rs, t') == t
    ensures t'.Node? && t'.args.Cons? && t'.args.cdr.Cons?
    ensures Stands(rs, Rule(t'.args.car, t'.args.cdr.car), t)
  {
    assert UntranslateArgs(rs, t'.args.cdr) == t.args.cdr;
    assert KnownArgs(|rs|, t'.args.cdr);
  }

  lemma RulesKnown(rs: seq<Record>, rules: seq<Rule<nat>>, lemmas: seq<Term<string>>)
    requires AllStand(rs, rules, lemmas)
    ensures forall k :: 0 <= k < |rules| ==> rules[k].lhs.Node? && rules[k].lhs.head < |rs|
  {
    forall k | 0 <= k < |rules|
      ensures rules[k].lhs.Node? && rules[k].lhs.head < |rs|
    {
      assert rules[k] == rules[|lemmas| - 1 - (|lemmas| - 1 - k)];
      assert Stands(rs, rules[k], lemmas[|lemmas| - 1 - k]);
    }
  }

  lemma SameHead(rs: seq<Record>, rule: Rule<nat>, t: Term<string>, h: nat)
    requires OneEach(rs) && IsLemma(t) && HasRight(t) && Stands(rs, rule, t) && h < |rs|
    requires rs[h].name == t.args.car.head
    ensures rule.lhs.Node? && rule.lhs.head == h
  {
  }

  lemma StillOneEach(a: seq<Record>, b: seq<Record>)
    requires OneEach(a) && |a| == |b| && SameNames(a, b)
    ensures OneEach(b)
  {
  }

  lemma GrownTwice(a: seq<Record>, b: seq<Record>, c: seq<Record>)
    requires Grown(a, b) && Grown(b, c)
    ensures Grown(a, c)
  {
    assert c[..|a|] == c[..|b|][..|a|];
  }

  lemma StillNamed(a: seq<Record>, b: seq<Record>)
    requires LogicNamed(a) && SameNames(a, b)
    ensures LogicNamed(b)
  {
  }

  lemma NoRecords()
    ensures OneEach([])
  {
  }

  lemma NoRules(rs: seq<Record>)
    requires forall h :: 0 <= h < |rs| ==> rs[h].lemmas == []
    ensures AllStand(rs, [], []) && IndexIs(rs, [])
  {
  }

  lemma IndexGrown(a: seq<Record>, b: seq<Record>, rules: seq<Rule<nat>>)
    requires Grown(a, b) && IndexIs(a, rules)
    requires forall k :: 0 <= k < |rules| ==> rules[k].lhs.Node? && rules[k].lhs.head < |a|
    ensures IndexIs(b, rules)
  {
    forall h | |a| <= h < |b|
      ensures b[h].lemmas == Indexed(h, rules)
    {
      NotIndexed(h, rules);
    }
  }

  lemma {:induction false} NotIndexed(h: nat, rules: seq<Rule<nat>>)
    requires forall k :: 0 <= k < |rules| ==> rules[k].lhs.Node? && rules[k].lhs.head != h
    ensures Indexed(h, rules) == []
  {
    if rules != [] {
      NotIndexed(h, rules[1..]);
    }
  }

  lemma OneMore(before: seq<Record>, a: seq<Record>, b: seq<Record>, rules: seq<Rule<nat>>, lemmas: seq<Term<string>>,
                rule: Rule<nat>, t: Term<string>)
    requires SameNames(before, a) && AllStand(before, rules, lemmas) && IndexIs(a, rules)
    requires IsLemma(t) && HasRight(t) && Stands(a, rule, t)
    requires b == a[rule.lhs.head := a[rule.lhs.head].(lemmas := [rule] + a[rule.lhs.head].lemmas)]
    ensures AllStand(b, [rule] + rules, lemmas + [t]) && IndexIs(b, [rule] + rules)
  {
    var rules', lemmas' := [rule] + rules, lemmas + [t];
    assert SameNames(before, b) && SameNames(a, b);
    assert rules'[1..] == rules;
    forall k | 0 <= k < |lemmas'|
      ensures IsLemma(lemmas'[k]) && HasRight(lemmas'[k]) && Stands(b, rules'[|lemmas'| - 1 - k], lemmas'[k])
    {
      if k < |lemmas| {
        var r := rules[|lemmas| - 1 - k];
        assert rules'[|lemmas'| - 1 - k] == r && lemmas'[k] == lemmas[k];
        UntranslateGrown(before, b, r.lhs);
        UntranslateGrown(before, b, r.rhs);
      } else {
        UntranslateGrown(a, b, rule.lhs);
        UntranslateGrown(a, b, rule.rhs);
      }
    }
  }

  lemma NewestReads(rs: seq<Record>, rule: Rule<nat>, rules: seq<Rule<nat>>, lemmas: seq<Term<string>>,
                    t: Term<string>)
    requires AllStand(rs, [rule] + rules, lemmas + [t])
    ensures t.Node? && t.args.Cons? && t.args.cdr.Cons?
    ensures Untranslate(rs, rule.lhs) == t.args.car && Untranslate(rs, rule.rhs) == t.args.cdr.car
  {
    hide Untranslate, Known;
    var rules', lemmas' := [rule] + rules, lemmas + [t];
    assert rules'[|lemmas'| - 1 - |lemmas|] == rule && lemmas'[|lemmas|] == t;
  }
}
