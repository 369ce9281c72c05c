/**
 Extracting and executing plans in DeltaBlue's dataflow graph.

 Variables and constraints are referred to by their numbers.
 */
module DeltaBlue {
  import opened Sequences

  /** Stay and edit constraints have an output only.  The direction of an equality is 1 when its output is `v2`, -1 when
      it is `v1`, and 0 when the constraint is not satisfied. */
  datatype Constraint =
    | Stay(myOutput: nat, satisfied: bool)
    | Edit(myOutput: nat, satisfied: bool)
    | Equality(v1: nat, v2: nat, direction: int)
  {
    predicate IsSatisfied() {
      if Equality? then direction != 0 else satisfied
    }

    predicate IsInput() {
      Edit?
    }

    function Output(): nat {
      if !Equality? then myOutput else if direction == 1 then v2 else v1
    }

    function Input(): nat
      requires Equality?
    {
      if direction == 1 then v1 else v2
    }
  }

  /** What a variable knows of the graph: -1 when no constraint determines it. */
  datatype Node = Node(stay: bool, determinedBy: int, constraints: seq<nat>)

  ghost predicate Mentions(c: Constraint, v: nat) {
    if c.Equality? then v == c.v1 || v == c.v2 else v == c.myOutput
  }

  /** A satisfied constraint determines its output, and the variables list the constraints that mention them. */
  ghost predicate Graph(nodes: seq<Node>, cons: seq<Constraint>) {
    && (forall c: nat, v: nat :: c < |cons| && Mentions(cons[c], v) ==> v < |nodes|)
    && (forall v: nat, c: nat {:trigger c in nodes[v].constraints} {:trigger nodes[v], Mentions(cons[c], v)} ::
          v < |nodes| ==> (c in nodes[v].constraints <==> c < |cons| && Mentions(cons[c], v)))
    && (forall c: nat :: c < |cons| && cons[c].IsSatisfied() ==>
          cons[c].Output() < |nodes| && nodes[cons[c].Output()].determinedBy == c)
  }

  /** `c` takes its input from the output of `d`. */
  ghost predicate Feeds(cons: seq<Constraint>, d: nat, c: nat) {
    && d < |cons| && c < |cons| && cons[d].IsSatisfied() && cons[c].IsSatisfied() && cons[c].Equality?
    && cons[c].Input() == cons[d].Output() && cons[c].Output() != cons[d].Output()
  }

  /** A constraint whose input, if any, need not be computed. */
  predicate Rooted(nodes: seq<Node>, cons: seq<Constraint>, c: nat)
    requires c < |cons|
  {
    cons[c].Equality? && cons[c].Input() < |nodes| ==>
      nodes[cons[c].Input()].stay || nodes[cons[c].Input()].determinedBy == -1
  }

  /** `c` is reached from a source in `n` steps. */
  ghost predicate Downstream(nodes: seq<Node>, cons: seq<Constraint>, sources: seq<nat>, c: nat, n: nat)
    decreases n
  {
    if n == 0 then c in sources && c < |cons| && Rooted(nodes, cons, c)
    else exists d: nat :: Feeds(cons, d, c) && Downstream(nodes, cons, sources, d, n - 1)
  }

  ghost predicate IsDownstream(nodes: seq<Node>, cons: seq<Constraint>, sources: seq<nat>, c: nat) {
    exists n: nat :: Downstream(nodes, cons, sources, c, n)
  }

  /** A constraint in a plan comes after the one that produces its input, or is a source that needs no input. */
  ghost predicate InOrder(nodes: seq<Node>, cons: seq<Constraint>, sources: seq<nat>, plan: seq<nat>, k: nat)
    requires k < |plan| && plan[k] < |cons|
  {
    || (plan[k] in sources && Rooted(nodes, cons, plan[k]))
    || exists l :: 0 <= l < k && Feeds(cons, plan[l], plan[k])
  }

  ghost predicate Ordered(nodes: seq<Node>, cons: seq<Constraint>, sources: seq<nat>, plan: seq<nat>) {
    && (forall k :: 0 <= k < |plan| ==> plan[k] < |cons| && cons[plan[k]].IsSatisfied())
    && (forall k :: 0 <= k < |plan| ==> InOrder(nodes, cons, sources, plan, k))
    && Distinct(plan)
  }

  /** The plan holds every constraint downstream of the sources and no other, once, behind what it needs. */
  ghost predicate IsPlan(nodes: seq<Node>, cons: seq<Constraint>, sources: seq<nat>, plan: seq<nat>) {
    Ordered(nodes, cons, sources, plan) && forall c: nat :: c in plan <==> IsDownstream(nodes, cons, sources, c)
  }

  /** Whatever the plan feeds, and every source that needs no input, is in the plan or still to do. */
  ghost predicate Pending(nodes: seq<Node>, cons: seq<Constraint>, sources: seq<nat>, plan: seq<nat>, todo: seq<nat>) {
    && (forall c: nat :: c in sources && c < |cons| && Rooted(nodes, cons, c) ==> c in plan || c in todo)
    && (forall d: nat, c: nat :: d in plan && Feeds(cons, d, c) ==> c in plan || c in todo)
  }

  /** What is to do is satisfied, and is a source or fed by the plan. */
  ghost predicate Todo(cons: seq<Constraint>, sources: seq<nat>, plan: seq<nat>, todo: seq<nat>) {
    forall c: nat {:trigger c in todo} :: c in todo ==>
      c < |cons| && cons[c].IsSatisfied() && (c in sources || FedBy(cons, plan, c))
  }

  ghost predicate FedBy(cons: seq<Constraint>, plan: seq<nat>, c: nat) {
    exists d: nat :: d in plan && Feeds(cons, d, c)
  }

  /** The variables with the mark are the outputs of the plan. */
  ghost predicate Marked(marks: seq<int>, mark: int, cons: seq<Constraint>, plan: seq<nat>) {
    forall v: nat :: v < |marks| ==> (marks[v] == mark <==> IsOutput(cons, plan, v))
  }

  ghost predicate IsOutput(cons: seq<Constraint>, plan: seq<nat>, v: nat) {
    exists d: nat :: d in plan && d < |cons| && cons[d].Output() == v
  }

  // ----- plans hold what is downstream -----

  lemma {:induction false} DownstreamPlanned(nodes: seq<Node>, cons: seq<Constraint>, sources: seq<nat>, plan: seq<nat>,
                                             c: nat, n: nat)
    requires Pending(nodes, cons, sources, plan, []) && Downstream(nodes, cons, sources, c, n)
    ensures c in plan
    decreases n
  {
    if n > 0 {
      var d: nat :| Feeds(cons, d, c) && Downstream(nodes, cons, sources, d, n - 1);
      DownstreamPlanned(nodes, cons, sources, plan, d, n - 1);
    }
  }

  lemma {:induction false} PlannedDownstream(nodes: seq<Node>, cons: seq<Constraint>, sources: seq<nat>, plan: seq<nat>,
                                             k: nat)
    requires Ordered(nodes, cons, sources, plan) && k < |plan|
    ensures IsDownstream(nodes, cons, sources, plan[k])
    decreases k
  {
    assert InOrder(nodes, cons, sources, plan, k);
    if plan[k] in sources && Rooted(nodes, cons, plan[k]) {
      assert Downstream(nodes, cons, sources, plan[k], 0);
    } else {
      var l :| 0 <= l < k && Feeds(cons, plan[l], plan[k]);
      PlannedDownstream(nodes, cons, sources, plan, l);
      var n: nat :| Downstream(nodes, cons, sources, plan[l], n);
      assert Downstream(nodes, cons, sources, plan[k], n + 1);
    }
  }

  lemma PlanDone(nodes: seq<Node>, cons: seq<Constraint>, sources: seq<nat>, plan: seq<nat>)
    requires Ordered(nodes, cons, sources, plan) && Pending(nodes, cons, sources, plan, [])
    ensures IsPlan(nodes, cons, sources, plan)
  {
    forall c: nat
      ensures c in plan <==> IsDownstream(nodes, cons, sources, c)
    {
      if c in plan {
        var k :| 0 <= k < |plan| && plan[k] == c;
        PlannedDownstream(nodes, cons, sources, plan, k);
      }
      if IsDownstream(nodes, cons, sources, c) {
        var n: nat :| Downstream(nodes, cons, sources, c, n);
        DownstreamPlanned(nodes, cons, sources, plan, c, n);
      }
    }
  }

  // ----- one step of making a plan -----

  /** The consumers of `v`: the satisfied constraints that mention it and do not determine it. */
  ghost predicate Consumers(nodes: seq<Node>, cons: seq<Constraint>, v: nat, l: seq<nat>)
    requires v < |nodes|
  {
    forall c: nat :: c in l <==>
      c in nodes[v].constraints && c != nodes[v].determinedBy && c < |cons| && cons[c].IsSatisfied()
  }

  /** They are the constraints that the determining one feeds. */
  lemma ConsumersFed(nodes: seq<Node>, cons: seq<Constraint>, d: nat, l: seq<nat>)
    requires Graph(nodes, cons) && d < |cons| && cons[d].IsSatisfied() && cons[d].Output() < |nodes|
    requires Consumers(nodes, cons, cons[d].Output(), l)
    ensures forall c: nat :: c in l <==> Feeds(cons, d, c)
  {
    var v := cons[d].Output();
    forall c: nat
      ensures c in l <==> Feeds(cons, d, c)
    {
      if c in l {
        assert Mentions(cons[c], v);
      }
      if Feeds(cons, d, c) {
        assert Mentions(cons[c], v);
      }
    }
  }

  /** A constraint whose output is marked is in the plan. */
  lemma MarkedPlanned(nodes: seq<Node>, cons: seq<Constraint>, sources: seq<nat>, plan: seq<nat>, marks: seq<int>,
                      mark: int, c: nat)
    requires Graph(nodes, cons) && Ordered(nodes, cons, sources, plan) && Marked(marks, mark, cons, plan)
    requires |marks| == |nodes|
    requires c < |cons| && cons[c].IsSatisfied()
    ensures cons[c].Output() < |nodes| && (marks[cons[c].Output()] == mark <==> c in plan)
  {
    var v := cons[c].Output();
    if marks[v] == mark {
      var d: nat :| d in plan && d < |cons| && cons[d].Output() == v;
      var k :| 0 <= k < |plan| && plan[k] == d;
      assert cons[plan[k]].IsSatisfied();
    }
    if c in plan {
      assert IsOutput(cons, plan, v);
    }
  }

  /** The input of a constraint that is fed by the plan is marked, and the converse. */
  lemma MarkedFed(nodes: seq<Node>, cons: seq<Constraint>, sources: seq<nat>, plan: seq<nat>, marks: seq<int>,
                  mark: int, c: nat)
    requires Graph(nodes, cons) && Ordered(nodes, cons, sources, plan) && Marked(marks, mark, cons, plan)
    requires |marks| == |nodes|
    requires c < |cons| && cons[c].IsSatisfied() && cons[c].Equality? && c !in plan
    ensures cons[c].Input() < |nodes| && (marks[cons[c].Input()] == mark <==> FedBy(cons, plan, c))
  {
    var v := cons[c].Input();
    assert Mentions(cons[c], v);
    MarkedPlanned(nodes, cons, sources, plan, marks, mark, c);
    if marks[v] == mark {
      var d: nat :| d in plan && d < |cons| && cons[d].Output() == v;
      var k :| 0 <= k < |plan| && plan[k] == d;
      assert Feeds(cons, d, c);
    }
    if FedBy(cons, plan, c) {
      var d: nat :| d in plan && Feeds(cons, d, c);
      assert IsOutput(cons, plan, v);
    }
  }

  lemma AddToPlan(nodes: seq<Node>, cons: seq<Constraint>, sources: seq<nat>, plan: seq<nat>, c: nat)
    requires Ordered(nodes, cons, sources, plan) && c < |cons| && cons[c].IsSatisfied() && c !in plan
    requires (c in sources && Rooted(nodes, cons, c)) || FedBy(cons, plan, c)
    ensures Ordered(nodes, cons, sources, plan + [c])
  {
    var plan' := plan + [c];
    forall k | 0 <= k < |plan'|
      ensures plan'[k] < |cons| && InOrder(nodes, cons, sources, plan', k)
    {
      if k < |plan| {
        assert InOrder(nodes, cons, sources, plan, k);
        if !(plan[k] in sources && Rooted(nodes, cons, plan[k])) {
          var l :| 0 <= l < k && Feeds(cons, plan[l], plan[k]);
          assert Feeds(cons, plan'[l], plan'[k]);
        }
      } else if !(c in sources && Rooted(nodes, cons, c)) {
        var d: nat :| d in plan && Feeds(cons, d, c);
        var l :| 0 <= l < |plan| && plan[l] == d;
        assert Feeds(cons, plan'[l], plan'[k]);
      }
    }
  }

  lemma MarkOutput(cons: seq<Constraint>, plan: seq<nat>, marks: seq<int>, mark: int, c: nat)
    requires Marked(marks, mark, cons, plan) && c < |cons| && cons[c].Output() < |marks|
    ensures Marked(marks[cons[c].Output() := mark], mark, cons, plan + [c])
  {
    var marks', plan' := marks[cons[c].Output() := mark], plan + [c];
    assert forall d: nat :: d in plan' <==> d in plan || d == c;
    forall v: nat | v < |marks'|
      ensures marks'[v] == mark <==> IsOutput(cons, plan', v)
    {
      if IsOutput(cons, plan, v) {
        var d: nat :| d in plan && d < |cons| && cons[d].Output() == v;
        assert d in plan';
      }
    }
  }

  /** Taking `c` off the end of what is to do, when it goes into the plan with its consumers `l` to do. */
  lemma StepTaken(nodes: seq<Node>, cons: seq<Constraint>, sources: seq<nat>, plan: seq<nat>, todo: seq<nat>, c: nat,
                  l: seq<nat>)
    requires Pending(nodes, cons, sources, plan, todo + [c]) && Todo(cons, sources, plan, todo + [c])
    requires forall e: nat :: e in l <==> Feeds(cons, c, e)
    ensures Pending(nodes, cons, sources, plan + [c], todo + l) && Todo(cons, sources, plan + [c], todo + l)
  {
    var plan', todo', before := plan + [c], todo + l, todo + [c];
    assert forall d: nat :: d in plan' <==> d in plan || d == c;
    assert forall d: nat :: d in todo' <==> d in todo || d in l;
    assert forall d: nat :: d in before <==> d in todo || d == c;
    forall e: nat | e in todo'
      ensures e < |cons| && cons[e].IsSatisfied() && (e in sources || FedBy(cons, plan', e))
    {
      if e in l {
        assert c in plan' && Feeds(cons, c, e);
      } else if e !in sources {
        assert e in before;
        var d: nat :| d in plan && Feeds(cons, d, e);
        assert d in plan';
      }
    }
  }

  /** Taking `c` off when it is not needed: it is in the plan already, or neither a root nor fed. */
  lemma StepSkipped(nodes: seq<Node>, cons: seq<Constraint>, sources: seq<nat>, plan: seq<nat>, todo: seq<nat>, c: nat)
    requires Pending(nodes, cons, sources, plan, todo + [c]) && Todo(cons, sources, plan, todo + [c])
    requires c in plan || (c < |cons| && !Rooted(nodes, cons, c) && !FedBy(cons, plan, c))
    ensures Pending(nodes, cons, sources, plan, todo) && Todo(cons, sources, plan, todo)
  {
    var before := todo + [c];
    assert forall d: nat :: d in before <==> d in todo || d == c;
  }

  class Planner {
    var values: seq<int>
    var marks: seq<int>
    var nodes: seq<Node>
    var cons: seq<Constraint>
    var currentMark: int

    ghost predicate Valid()
      reads this
    {
      && Graph(nodes, cons) && |values| == |marks| == |nodes|
      && forall v :: 0 <= v < |marks| ==> marks[v] <= currentMark
    }

    /** The satisfied constraints that use `v` are appended to `coll`. */
    method AddConstraintsConsumingTo(v: nat, coll: seq<nat>) returns (r: seq<nat>, ghost l: seq<nat>)
      requires Valid() && v < |nodes|
      ensures r == coll + l && Consumers(nodes, cons, v, l)
    {
      hide Graph;
      var determining, cc := nodes[v].determinedBy, nodes[v].constraints;
      r, l := coll, [];
      ListedInRange(nodes, cons, v);
      for i := 0 to |cc|
        invariant r == coll + l
        invariant forall c: nat :: c in l <==> c in cc[..i] && c != determining && c < |cons| && cons[c].IsSatisfied()
      {
        var c := cc[i];
        assert cc[..i + 1] == cc[..i] + [c];
        assert c in cc;
        if c != determining && cons[c].IsSatisfied() {
          r, l := r + [c], l + [c];
        }
      }
      assert cc[..|cc|] == cc;
    }

    predicate InputsKnown(c: nat, mark: int)
      requires c < |cons| && (cons[c].Equality? ==> cons[c].Input() < |nodes| == |marks|)
      reads this
    {
      cons[c].Equality? ==>
        var i := cons[c].Input(); marks[i] == mark || nodes[i].stay || nodes[i].determinedBy == -1
    }

    /** The plan for satisfied sources. */
    method MakePlan(sources: seq<nat>) returns (plan: seq<nat>)
      requires Valid() && forall c: nat :: c in sources ==> c < |cons| && cons[c].IsSatisfied()
      modifies `marks, `currentMark
      ensures Valid() && IsPlan(nodes, cons, sources, plan)
    {
      hide Graph, Ordered, Pending, Todo, Marked;
      currentMark := currentMark + 1;
      var mark := currentMark;
      var todo := sources;
      plan := [];
      NothingPlanned(nodes, cons, sources, marks, mark);
      while |todo| > 0
        invariant Valid() && nodes == old(nodes) && cons == old(cons) && mark == currentMark
        invariant Ordered(nodes, cons, sources, plan) && Marked(marks, mark, cons, plan)
        invariant Pending(nodes, cons, sources, plan, todo) && Todo(cons, sources, plan, todo)
        invariant |plan| <= |cons|
        decreases |cons| - |plan|, |todo|
      {
        var c, rest := todo[|todo| - 1], todo[..|todo| - 1];
        assert todo == rest + [c];
        IsTodo(cons, sources, plan, rest, c);
        MarkedPlanned(nodes, cons, sources, plan, marks, mark, c);
        InputInRange(nodes, cons, c);
        if marks[cons[c].Output()] != mark && InputsKnown(c, mark) {
          if cons[c].Equality? {
            MarkedFed(nodes, cons, sources, plan, marks, mark, c);
          }
          RootedOrFed(nodes, cons, sources, plan, rest, marks, mark, c);
          AddToPlan(nodes, cons, sources, plan, c);
          MarkOutput(cons, plan, marks, mark, c);
          marks := marks[cons[c].Output() := mark];
          ghost var l;
          todo, l := AddConstraintsConsumingTo(cons[c].Output(), rest);
          ConsumersFed(nodes, cons, c, l);
          StepTaken(nodes, cons, sources, plan, rest, c, l);
          plan := plan + [c];
          PlanFits(nodes, cons, sources, plan);
        } else {
          if cons[c].Equality? && c !in plan {
            MarkedFed(nodes, cons, sources, plan, marks, mark, c);
          }
          StepSkipped(nodes, cons, sources, plan, rest, c);
          todo := rest;
        }
      }
      PlanDone(nodes, cons, sources, plan);
    }

    /** The plan for the satisfied input constraints of a collection. */
    method ExtractPlanFromConstraints(constraints: seq<nat>) returns (plan: seq<nat>, ghost sources: seq<nat>)
      requires Valid() && forall i :: 0 <= i < |constraints| ==> constraints[i] < |cons|
      modifies `marks, `currentMark
      ensures Valid() && IsPlan(nodes, cons, sources, plan)
      ensures forall c: nat :: c in sources <==>
        c in constraints && c < |cons| && cons[c].IsInput() && cons[c].IsSatisfied()
    {
      hide Graph;
      var l := [];
      for i := 0 to |constraints|
        invariant forall c: nat :: c in l <==>
          c in constraints[..i] && c < |cons| && cons[c].IsInput() && cons[c].IsSatisfied()
      {
        var c := constraints[i];
        assert constraints[..i + 1] == constraints[..i] + [c];
        if cons[c].IsInput() && cons[c].IsSatisfied() {
          l := l + [c];
        }
      }
      assert constraints[..|constraints|] == constraints;
      sources := l;
      plan := MakePlan(l);
    }

    /** Executes the constraints of a plan one after the other; only equalities do anything. */
    method Execute(plan: seq<nat>)
      requires Valid() && forall k :: 0 <= k < |plan| ==> plan[k] < |cons|
      modifies `values
      ensures Valid() && values == Run(cons, old(values), plan)
    {
      hide Graph;
      for i := 0 to |plan|
        invariant Valid() && values == Run(cons, old(values), plan[..i])
      {
        assert plan[..i + 1][..i] == plan[..i];
        InputInRange(nodes, cons, plan[i]);
        OutputInRange(nodes, cons, plan[i]);
        var c := cons[plan[i]];
        if c.Equality? {
          values := values[c.Output() := values[c.Input()]];
        }
      }
      assert plan[..|plan|] == plan;
    }
  }

  /** Edits a variable ten times, with the plan that belongs to the edit constraint.  If that is satisfied, all
      satisfied equalities hold again and the variable has the new value; if not, there is nothing to execute. */
  method Change(planner: Planner, edit: nat, newValue: int)
    requires planner.Valid() && edit < |planner.cons| && planner.cons[edit].Edit?
    requires AllHold(planner.cons, planner.values)
    modifies planner`values, planner`marks, planner`currentMark
    ensures planner.Valid() && planner.cons[edit].Output() < |old(planner.values)|
    ensures planner.cons[edit].IsSatisfied() ==>
      AllHold(planner.cons, planner.values) && planner.values[planner.cons[edit].Output()] == newValue
    ensures !planner.cons[edit].IsSatisfied() ==>
      planner.values == old(planner.values)[planner.cons[edit].Output() := newValue]
  {
    hide Graph, AllHold, IsOutput;
    var plan;
    ghost var sources;
    plan, sources := planner.ExtractPlanFromConstraints([edit]);
    OutputInRange(planner.nodes, planner.cons, edit);
    var v := planner.cons[edit].Output();
    if planner.cons[edit].IsSatisfied() {
      assert edit in sources && IsOutput(planner.cons, sources, v) by { SourceOutput(planner.cons, sources, edit); }
    } else {
      assert forall c: nat :: c in sources ==> c == edit;
      NothingDownstream(planner.nodes, planner.cons, sources, plan);
    }
    for i := 0 to 10
      invariant planner.Valid() && planner.cons == old(planner.cons) && planner.nodes == old(planner.nodes)
      invariant planner.cons[edit].IsSatisfied() ==>
        AllHold(planner.cons, planner.values) && (i > 0 ==> planner.values[v] == newValue)
      invariant !planner.cons[edit].IsSatisfied() ==>
        planner.values == if i == 0 then old(planner.values) else old(planner.values)[v := newValue]
    {
      ghost var before := planner.values;
      planner.values := planner.values[v := newValue];
      if planner.cons[edit].IsSatisfied() {
        PlanRestores(planner.nodes, planner.cons, sources, plan, before, planner.values);
        EditKept(planner.nodes, planner.cons, sources, plan, planner.values, edit);
      }
      planner.Execute(plan);
    }
  }

  lemma SourceOutput(cons: seq<Constraint>, sources: seq<nat>, c: nat)
    requires c in sources && c < |cons|
    ensures IsOutput(cons, sources, cons[c].Output())
  {
  }

  lemma NothingDownstream(nodes: seq<Node>, cons: seq<Constraint>, sources: seq<nat>, plan: seq<nat>)
    requires IsPlan(nodes, cons, sources, plan) && forall c: nat :: c !in sources
    ensures plan == []
  {
    assert |plan| > 0 ==> !InOrder(nodes, cons, sources, plan, 0);
  }

  /** No equality of the plan writes to the edited variable. */
  lemma EditKept(nodes: seq<Node>, cons: seq<Constraint>, sources: seq<nat>, plan: seq<nat>, values: seq<int>,
                 edit: nat)
    requires Graph(nodes, cons) && IsPlan(nodes, cons, sources, plan) && |values| == |nodes|
    requires edit < |cons| && cons[edit].Edit? && cons[edit].IsSatisfied()
    ensures cons[edit].Output() < |nodes|
    ensures Run(cons, values, plan)[cons[edit].Output()] == values[cons[edit].Output()]
  {
    var v := cons[edit].Output();
    forall k | 0 <= k < |plan|
      ensures plan[k] < |cons| && (cons[plan[k]].Equality? ==> cons[plan[k]].Output() != v)
    {
      assert cons[plan[k]].IsSatisfied();
      assert nodes[cons[plan[k]].Output()].determinedBy == plan[k] && nodes[v].determinedBy == edit;
    }
    RunFrame(cons, values, plan, v);
  }

  lemma OutputInRange(nodes: seq<Node>, cons: seq<Constraint>, c: nat)
    requires Graph(nodes, cons) && c < |cons|
    ensures cons[c].Output() < |nodes|
  {
    assert Mentions(cons[c], cons[c].Output());
  }

  /** A source is planned if it has no input, or if its input stays or is determined by nothing; the input is the first
      variable of an equality in its forward direction and the second one in its backward direction. */
  lemma SourcePlanned(nodes: seq<Node>, cons: seq<Constraint>, sources: seq<nat>, plan: seq<nat>, c: nat)
    requires IsPlan(nodes, cons, sources, plan) && c in sources && c < |cons|
    ensures !cons[c].Equality? ==> c in plan
    ensures forall v1: nat, v2: nat :: cons[c] == Equality(v1, v2, 1) && v1 < |nodes| ==>
      if nodes[v1].stay || nodes[v1].determinedBy == -1 then c in plan else c in plan ==> FedBy(cons, plan, c)
    ensures forall v1: nat, v2: nat :: cons[c] == Equality(v1, v2, -1) && v2 < |nodes| ==>
      if nodes[v2].stay || nodes[v2].determinedBy == -1 then c in plan else c in plan ==> FedBy(cons, plan, c)
  {
    if Rooted(nodes, cons, c) {
      assert Downstream(nodes, cons, sources, c, 0);
    } else if c in plan {
      var k :| 0 <= k < |plan| && plan[k] == c;
      assert InOrder(nodes, cons, sources, plan, k);
      var l :| 0 <= l < k && Feeds(cons, plan[l], plan[k]);
      assert plan[l] in plan;
    }
  }

  // ----- executing a plan -----

  /** The values after executing one constraint. */
  function Enforced(cons: seq<Constraint>, values: seq<int>, c: nat): (r: seq<int>)
    ensures |r| == |values|
  {
    if c < |cons| && cons[c].Equality? && cons[c].Input() < |values| && cons[c].Output() < |values|
    then values[cons[c].Output() := values[cons[c].Input()]] else values
  }

  /** The values after executing a plan. */
  function Run(cons: seq<Constraint>, values: seq<int>, plan: seq<nat>): (r: seq<int>)
    ensures |r| == |values|
  {
    if plan == [] then values else Enforced(cons, Run(cons, values, plan[..|plan| - 1]), plan[|plan| - 1])
  }

  /** An equality in its forward direction copies the first variable to the second one, and in its backward direction
      the second one to the first; it changes nothing else.  Other constraints change nothing. */
  lemma Copied(cons: seq<Constraint>, values: seq<int>, c: nat)
    requires c < |cons|
    ensures forall v1: nat, v2: nat :: cons[c] == Equality(v1, v2, 1) && v1 < |values| && v2 < |values| ==>
      Enforced(cons, values, c) == values[v2 := values[v1]]
    ensures forall v1: nat, v2: nat :: cons[c] == Equality(v1, v2, -1) && v1 < |values| && v2 < |values| ==>
      Enforced(cons, values, c) == values[v1 := values[v2]]
    ensures !cons[c].Equality? ==> Enforced(cons, values, c) == values
  {
  }

  /** A variable that is edited is copied to the one that is to be equal to it. */
  lemma EditCopied(x: int, y: int)
    ensures Run([Edit(0, true), Equality(0, 1, 1)], [x, y], [0, 1]) == [x, x]
  {
    var cons := [Edit(0, true), Equality(0, 1, 1)];
    assert [0, 1][..1] == [0] && [0][..0] == [];
    assert Run(cons, [x, y], []) == [x, y];
    assert Run(cons, [x, y], [0]) == [x, y];
  }

  ghost predicate HoldsAt(cons: seq<Constraint>, values: seq<int>, c: nat) {
    c < |cons| && cons[c].Equality? && cons[c].Input() < |values| && cons[c].Output() < |values| ==>
      values[cons[c].Output()] == values[cons[c].Input()]
  }

  /** All satisfied equalities hold. */
  ghost predicate AllHold(cons: seq<Constraint>, values: seq<int>) {
    forall c: nat :: c < |cons| && cons[c].IsSatisfied() ==> HoldsAt(cons, values, c)
  }

  /** Only outputs of the equalities in the plan change. */
  lemma {:induction false} RunFrame(cons: seq<Constraint>, values: seq<int>, plan: seq<nat>, v: nat)
    requires v < |values|
    requires forall k :: 0 <= k < |plan| ==>
      plan[k] < |cons| && (cons[plan[k]].Equality? ==> cons[plan[k]].Output() != v)
    ensures Run(cons, values, plan)[v] == values[v]
    decreases |plan|
  {
    if plan != [] {
      RunFrame(cons, values, plan[..|plan| - 1], v);
    }
  }

  /** Different constraints in a plan have different outputs. */
  lemma OutputsDiffer(nodes: seq<Node>, cons: seq<Constraint>, sources: seq<nat>, plan: seq<nat>, c: nat, k: nat)
    requires Graph(nodes, cons) && Ordered(nodes, cons, sources, plan) && k < |plan| && c < |cons|
    requires cons[c].IsSatisfied()
    ensures cons[plan[k]].Output() == cons[c].Output() ==> plan[k] == c
  {
    assert cons[plan[k]].IsSatisfied();
  }

  /** In a plan whose sources have no input, the input of an equality is produced before it, and so not after it. */
  lemma InputSettled(nodes: seq<Node>, cons: seq<Constraint>, sources: seq<nat>, plan: seq<nat>, m: nat, k: nat)
    requires Graph(nodes, cons) && Ordered(nodes, cons, sources, plan) && m <= k < |plan| && cons[plan[m]].Equality?
    requires forall c: nat :: c in sources ==> c < |cons| && !cons[c].Equality?
    ensures cons[plan[k]].Output() == cons[plan[m]].Input() ==> cons[plan[m]].Input() == cons[plan[m]].Output()
  {
    assert InOrder(nodes, cons, sources, plan, m);
    assert plan[m] !in sources;
    var l :| 0 <= l < m && Feeds(cons, plan[l], plan[m]);
    OutputsDiffer(nodes, cons, sources, plan, plan[l], k);
    assert plan[l] != plan[k];
  }

  /** After each step the equalities executed so far hold. */
  lemma {:induction false} PrefixHolds(nodes: seq<Node>, cons: seq<Constraint>, sources: seq<nat>, plan: seq<nat>,
                                       values: seq<int>, n: nat, m: nat)
    requires Graph(nodes, cons) && Ordered(nodes, cons, sources, plan) && m < n <= |plan| && |values| == |nodes|
    requires forall c: nat :: c in sources ==> c < |cons| && !cons[c].Equality?
    ensures HoldsAt(cons, Run(cons, values, plan[..n]), plan[m])
    decreases n
  {
    var c := plan[n - 1];
    assert plan[..n][..n - 1] == plan[..n - 1] && plan[..n][n - 1] == c;
    assert plan[m] < |cons| && cons[plan[m]].IsSatisfied() && c < |cons| && cons[c].IsSatisfied();
    var before := Run(cons, values, plan[..n - 1]);
    if m < n - 1 {
      PrefixHolds(nodes, cons, sources, plan, values, n - 1, m);
      OutputsDiffer(nodes, cons, sources, plan, plan[m], n - 1);
      if cons[plan[m]].Equality? {
        InputSettled(nodes, cons, sources, plan, m, n - 1);
      }
    }
  }

  /** The plan restores what editing has disturbed: if all satisfied equalities held before the outputs of the sources
      were written, they hold after the plan is executed. */
  lemma PlanRestores(nodes: seq<Node>, cons: seq<Constraint>, sources: seq<nat>, plan: seq<nat>, before: seq<int>,
                     values: seq<int>)
    requires Graph(nodes, cons) && IsPlan(nodes, cons, sources, plan) && |before| == |values| == |nodes|
    requires forall c: nat :: c in sources ==> c < |cons| && cons[c].IsInput() && cons[c].IsSatisfied()
    requires AllHold(cons, before)
    requires forall v: nat :: v < |nodes| && values[v] != before[v] ==> IsOutput(cons, sources, v)
    ensures AllHold(cons, Run(cons, values, plan))
  {
    forall c: nat | c < |cons| && cons[c].IsSatisfied()
      ensures HoldsAt(cons, Run(cons, values, plan), c)
    {
      if c in plan {
        var m :| 0 <= m < |plan| && plan[m] == c;
        PrefixHolds(nodes, cons, sources, plan, values, |plan|, m);
        assert plan[..|plan|] == plan;
      } else if cons[c].Equality? {
        InputInRange(nodes, cons, c);
        OutputInRange(nodes, cons, c);
        Untouched(nodes, cons, sources, plan, before, values, c, cons[c].Output());
        Untouched(nodes, cons, sources, plan, before, values, c, cons[c].Input());
        assert HoldsAt(cons, before, c);
      }
    }
  }

  /** The variables of a constraint that is not in the plan keep their values. */
  lemma Untouched(nodes: seq<Node>, cons: seq<Constraint>, sources: seq<nat>, plan: seq<nat>, before: seq<int>,
                  values: seq<int>, c: nat, v: nat)
    requires Graph(nodes, cons) && IsPlan(nodes, cons, sources, plan) && |before| == |values| == |nodes|
    requires forall c: nat :: c in sources ==> c < |cons| && cons[c].IsInput() && cons[c].IsSatisfied()
    requires forall v: nat :: v < |nodes| && values[v] != before[v] ==> IsOutput(cons, sources, v)
    requires c < |cons| && cons[c].IsSatisfied() && cons[c].Equality? && c !in plan && v < |nodes|
    requires v == cons[c].Output() || v == cons[c].Input()
    ensures Run(cons, values, plan)[v] == before[v]
  {
    forall k | 0 <= k < |plan|
      ensures plan[k] < |cons| && cons[plan[k]].Output() != v
    {
      NotFed(nodes, cons, sources, plan, c, v, k);
    }
    RunFrame(cons, values, plan, v);
    forall s: nat | s in sources
      ensures cons[s].Output() != v
    {
      assert Downstream(nodes, cons, sources, s, 0);
      assert s in plan;
    }
  }

  lemma NotFed(nodes: seq<Node>, cons: seq<Constraint>, sources: seq<nat>, plan: seq<nat>, c: nat, v: nat, k: nat)
    requires Graph(nodes, cons) && IsPlan(nodes, cons, sources, plan) && k < |plan|
    requires c < |cons| && cons[c].IsSatisfied() && cons[c].Equality? && c !in plan
    requires v == cons[c].Output() || v == cons[c].Input()
    ensures plan[k] < |cons| && cons[plan[k]].Output() != v
  {
    OutputsDiffer(nodes, cons, sources, plan, c, k);
    assert plan[k] in plan;
    if Feeds(cons, plan[k], c) {
      var n: nat :| Downstream(nodes, cons, sources, plan[k], n);
      assert Downstream(nodes, cons, sources, c, n + 1);
    }
  }

  lemma ListedInRange(nodes: seq<Node>, cons: seq<Constraint>, v: nat)
    requires Graph(nodes, cons) && v < |nodes|
    ensures forall c: nat :: c in nodes[v].constraints ==> c < |cons|
  {
  }

  lemma NothingPlanned(nodes: seq<Node>, cons: seq<Constraint>, sources: seq<nat>, marks: seq<int>, mark: int)
    requires forall c: nat :: c in sources ==> c < |cons| && cons[c].IsSatisfied()
    requires forall v :: 0 <= v < |marks| ==> marks[v] < mark
    ensures Ordered(nodes, cons, sources, []) && Marked(marks, mark, cons, [])
    ensures Pending(nodes, cons, sources, [], sources) && Todo(cons, sources, [], sources)
  {
  }

  lemma IsTodo(cons: seq<Constraint>, sources: seq<nat>, plan: seq<nat>, rest: seq<nat>, c: nat)
    requires Todo(cons, sources, plan, rest + [c])
    ensures c < |cons| && cons[c].IsSatisfied() && (c in sources || FedBy(cons, plan, c))
  {
    assert (rest + [c])[|rest|] == c;
    assert c in rest + [c];
  }

  lemma InputInRange(nodes: seq<Node>, cons: seq<Constraint>, c: nat)
    requires Graph(nodes, cons) && c < |cons|
    ensures cons[c].Equality? ==> cons[c].Input() < |nodes|
  {
    if cons[c].Equality? {
      assert Mentions(cons[c], cons[c].Input());
    }
  }

  lemma RootedOrFed(nodes: seq<Node>, cons: seq<Constraint>, sources: seq<nat>, plan: seq<nat>, rest: seq<nat>,
                    marks: seq<int>, mark: int, c: nat)
    requires c < |cons| && (c in sources || FedBy(cons, plan, c)) && |marks| == |nodes|
    requires cons[c].Equality? ==>
      cons[c].Input() < |nodes| && (marks[cons[c].Input()] == mark <==> FedBy(cons, plan, c))
    requires cons[c].Equality? ==>
      marks[cons[c].Input()] == mark || nodes[cons[c].Input()].stay || nodes[cons[c].Input()].determinedBy == -1
    ensures (c in sources && Rooted(nodes, cons, c)) || FedBy(cons, plan, c)
  {
  }

  lemma PlanFits(nodes: seq<Node>, cons: seq<Constraint>, sources: seq<nat>, plan: seq<nat>)
    requires Ordered(nodes, cons, sources, plan)
    ensures |plan| <= |cons|
  {
    FewNumbers(plan, |cons|);
  }
}
