/**
 The tautology checker, and what its answer says about a rewritten term.
 */
module BoyerTautology {
  import opened BoyerTerms

  /** The heads with a meaning of their own. */
  datatype Logic<H> = Logic(cond: H, truth: H, falsity: H)

  ghost predicate Distinct<H>(c: Logic<H>) {
    c.cond != c.truth && c.cond != c.falsity && c.truth != c.falsity
  }

  function True<H>(c: Logic<H>): Term<H> {
    Node(c.truth, Nil)
  }

  function False<H>(c: Logic<H>): Term<H> {
    Node(c.falsity, Nil)
  }

  predicate AtLeastThree<T>(l: List<T>) {
    l.Cons? && l.cdr.Cons? && l.cdr.cdr.Cons?
  }

  predicate IsIf<H(==)>(c: Logic<H>, t: Term<H>) {
    t.Node? && t.head == c.cond
  }

  /** The branches of every `if` are there; taking them apart fails otherwise. */
  predicate Complete<H(==)>(c: Logic<H>, t: Term<H>)
    decreases t
  {
    IsIf(c, t) ==>
      && AtLeastThree(t.args)
      && Complete(c, t.args.cdr.car) && Complete(c, t.args.cdr.cdr.car)
  }

  function Test<H(==)>(c: Logic<H>, t: Term<H>): Term<H>
    requires IsIf(c, t) && Complete(c, t)
  {
    t.args.car
  }

  function Then<H(==)>(c: Logic<H>, t: Term<H>): (r: Term<H>)
    requires IsIf(c, t) && Complete(c, t)
    ensures Complete(c, r) && r < t
  {
    t.args.cdr.car
  }

  function Else<H(==)>(c: Logic<H>, t: Term<H>): (r: Term<H>)
    requires IsIf(c, t) && Complete(c, t)
    ensures Complete(c, r) && r < t
  {
    t.args.cdr.cdr.car
  }

  // ----- the checker -----

  /** Whether `x` is true in view of the terms known to be true and known to be false.  The source recurses into the
      first branch and loops for the second. */
  method Tautologyp<H(==, !new)>(c: Logic<H>, x: Term<H>, trueList: seq<Term<H>>, falseList: seq<Term<H>>)
    returns (r: bool)
    requires Complete(c, x)
    ensures r == Tautology(c, x, trueList, falseList)
    decreases x
  {
    var t, f := x, falseList;
    while true
      invariant Complete(c, t) && (t == x || t < x)
      invariant Tautology(c, t, trueList, f) == Tautology(c, x, trueList, falseList)
      decreases t
    {
      if t == True(c) || t in trueList {
        return true;
      } else if t == False(c) || t in f {
        return false;
      } else if !IsIf(c, t) {
        return false;
      } else if Test(c, t) == True(c) || Test(c, t) in trueList {
        t := Then(c, t);
      } else if Test(c, t) == False(c) || Test(c, t) in f {
        t := Else(c, t);
      } else {
        var first := Tautologyp(c, Then(c, t), [Test(c, t)] + trueList, f);
        if !first {
          return false;
        }
        f := [Test(c, t)] + f;
        t := Else(c, t);
      }
    }
  }

  ghost predicate Tautology<H(!new)>(c: Logic<H>, t: Term<H>, trueList: seq<Term<H>>, falseList: seq<Term<H>>)
    requires Complete(c, t)
    decreases t
  {
    if t == True(c) || t in trueList then true
    else if t == False(c) || t in falseList then false
    else if !IsIf(c, t) then false
    else if Test(c, t) == True(c) || Test(c, t) in trueList then Tautology(c, Then(c, t), trueList, falseList)
    else if Test(c, t) == False(c) || Test(c, t) in falseList then Tautology(c, Else(c, t), trueList, falseList)
    else
      && Tautology(c, Then(c, t), [Test(c, t)] + trueList, falseList)
      && Tautology(c, Else(c, t), trueList, [Test(c, t)] + falseList)
  }

  // ----- what it decides -----

  /** The truth of a term when the truth of every term that is not an `if`, true or false is given. */
  ghost predicate Holds<H(!new)>(c: Logic<H>, given: Term<H> -> bool, t: Term<H>)
    decreases t
  {
    if t == True(c) then true
    else if t == False(c) then false
    else if IsIf(c, t) && AtLeastThree(t.args) then
      if Holds(c, given, t.args.car) then Holds(c, given, t.args.cdr.car) else Holds(c, given, t.args.cdr.cdr.car)
    else given(t)
  }

  ghost predicate Consistent<H(!new)>(c: Logic<H>, given: Term<H> -> bool, trueList: seq<Term<H>>,
                                      falseList: seq<Term<H>>) {
    && (forall k :: 0 <= k < |trueList| ==> Holds(c, given, trueList[k]))
    && (forall k :: 0 <= k < |falseList| ==> !Holds(c, given, falseList[k]))
  }

  /** An answer of true is right. */
  lemma {:induction false} TautologySound<H(!new)>(c: Logic<H>, t: Term<H>, trueList: seq<Term<H>>,
                                                   falseList: seq<Term<H>>,
                                                   given: Term<H> -> bool)
    requires Complete(c, t) && Tautology(c, t, trueList, falseList) && Consistent(c, given, trueList, falseList)
    ensures Holds(c, given, t)
    decreases t
  {
    if t == True(c) || t in trueList {
    } else {
      var b := Test(c, t);
      if b == True(c) || b in trueList {
        TautologySound(c, Then(c, t), trueList, falseList, given);
      } else if b == False(c) || b in falseList {
        TautologySound(c, Else(c, t), trueList, falseList, given);
      } else if Holds(c, given, b) {
        TautologySound(c, Then(c, t), [b] + trueList, falseList, given);
      } else {
        TautologySound(c, Else(c, t), trueList, [b] + falseList, given);
      }
    }
  }

  /** No test is itself an `if`. */
  ghost predicate IfNormal<H(!new)>(c: Logic<H>, t: Term<H>)
    requires Complete(c, t)
    decreases t
  {
    IsIf(c, t) ==> !IsIf(c, Test(c, t)) && IfNormal(c, Then(c, t)) && IfNormal(c, Else(c, t))
  }

  /** The lists hold terms whose truth is free, none of them in both. */
  ghost predicate Assumptions<H(!new)>(c: Logic<H>, trueList: seq<Term<H>>, falseList: seq<Term<H>>) {
    && (forall x :: x in trueList ==> !IsIf(c, x) && x != False(c) && x !in falseList)
    && (forall x :: x in falseList ==> !IsIf(c, x) && x != True(c))
  }

  /** On terms in normal form an answer of false is right, too: here is a falsifying assignment. */
  lemma {:induction false} TautologyComplete<H(!new)>(c: Logic<H>, t: Term<H>, trueList: seq<Term<H>>,
                                                      falseList: seq<Term<H>>)
    returns (given: Term<H> -> bool)
    requires Distinct(c) && Complete(c, t) && IfNormal(c, t) && Assumptions(c, trueList, falseList)
    requires !Tautology(c, t, trueList, falseList)
    ensures Consistent(c, given, trueList, falseList) && !Holds(c, given, t)
    decreases t
  {
    if t == False(c) || t in falseList || !IsIf(c, t) {
      given := x => x in trueList;
      Default(c, trueList, falseList);
    } else {
      var b := Test(c, t);
      if b == True(c) || b in trueList {
        given := TautologyComplete(c, Then(c, t), trueList, falseList);
      } else if b == False(c) || b in falseList {
        given := TautologyComplete(c, Else(c, t), trueList, falseList);
      } else if !Tautology(c, Then(c, t), [b] + trueList, falseList) {
        given := TautologyComplete(c, Then(c, t), [b] + trueList, falseList);
        Shrink(c, given, b, trueList, falseList);
      } else {
        given := TautologyComplete(c, Else(c, t), trueList, [b] + falseList);
        Shrink'(c, given, b, trueList, falseList);
      }
    }
  }

  lemma Default<H(!new)>(c: Logic<H>, trueList: seq<Term<H>>, falseList: seq<Term<H>>)
    requires Distinct(c) && Assumptions(c, trueList, falseList)
    ensures Consistent(c, x => x in trueList, trueList, falseList)
  {
    forall k | 0 <= k < |trueList|
      ensures Holds(c, x => x in trueList, trueList[k])
    {
      assert trueList[k] in trueList;
    }
    forall k | 0 <= k < |falseList|
      ensures !Holds(c, x => x in trueList, falseList[k])
    {
      assert falseList[k] in falseList;
    }
  }

  lemma Shrink<H(!new)>(c: Logic<H>, given: Term<H> -> bool, b: Term<H>, trueList: seq<Term<H>>,
                        falseList: seq<Term<H>>)
    requires Consistent(c, given, [b] + trueList, falseList)
    ensures Consistent(c, given, trueList, falseList) && Holds(c, given, b)
  {
    var l := [b] + trueList;
    assert l[0] == b && forall k :: 0 <= k < |trueList| ==> trueList[k] == l[k + 1];
  }

  lemma Shrink'<H(!new)>(c: Logic<H>, given: Term<H> -> bool, b: Term<H>, trueList: seq<Term<H>>,
                         falseList: seq<Term<H>>)
    requires Consistent(c, given, trueList, [b] + falseList)
    ensures Consistent(c, given, trueList, falseList) && !Holds(c, given, b)
  {
    var l := [b] + falseList;
    assert l[0] == b && forall k :: 0 <= k < |falseList| ==> falseList[k] == l[k + 1];
  }
}
