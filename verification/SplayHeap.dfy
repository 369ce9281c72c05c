/**
 How the nodes of a splay tree are laid out in memory: a pool of nodes that refer to each other by number.
 The two spines under construction are the same structure, mirrored; `right` says which child continues
 the spine.
 */
module SplayHeap {
  import opened SplayModel

  const NULL := -1

  datatype NodeRecord = NodeRecord(key: real, value: Value, left: int, right: int)

  ghost predicate Holds(nodes: seq<NodeRecord>, e: Entry) {
    e.ref < |nodes| && nodes[e.ref].key == e.key && nodes[e.ref].value == e.value
  }

  /** The nodes reachable from `n` form exactly the tree `t`. */
  ghost predicate Shape(nodes: seq<NodeRecord>, n: int, t: Tree)
    decreases t
  {
    if t.Leaf? then n == NULL
    else
      && n == t.item.ref && Holds(nodes, t.item)
      && Shape(nodes, nodes[n].left, t.left) && Shape(nodes, nodes[n].right, t.right)
  }

  ghost function Refs(es: seq<Entry>): set<nat> {
    set i | 0 <= i < |es| :: es[i].ref
  }

  ghost predicate Distinct(es: seq<Entry>) {
    forall i, j :: 0 <= i < j < |es| ==> es[i].ref != es[j].ref
  }

  lemma RefsConcat(a: seq<Entry>, b: seq<Entry>)
    ensures Refs(a + b) == Refs(a) + Refs(b)
  {
    forall r | r in Refs(a) + Refs(b)
      ensures r in Refs(a + b)
    {
      if r in Refs(a) {
        var i :| 0 <= i < |a| && a[i].ref == r;
        assert (a + b)[i].ref == r;
      } else {
        var i :| 0 <= i < |b| && b[i].ref == r;
        assert (a + b)[|a| + i].ref == r;
      }
    }
  }

  lemma DistinctConcat(a: seq<Entry>, b: seq<Entry>)
    requires Distinct(a + b)
    ensures Distinct(a) && Distinct(b) && Refs(a) !! Refs(b)
  {
    forall i, j | 0 <= i < |a| && 0 <= j < |b|
      ensures a[i].ref != b[j].ref
    {
      assert (a + b)[i] == a[i] && (a + b)[|a| + j] == b[j];
    }
    forall i, j | 0 <= i < j < |b|
      ensures b[i].ref != b[j].ref
    {
      assert (a + b)[|a| + i] == b[i] && (a + b)[|a| + j] == b[j];
    }
    assert forall i :: 0 <= i < |a| ==> (a + b)[i] == a[i];
  }

  lemma DistinctAround(a: seq<Entry>, x: Entry, b: seq<Entry>)
    ensures Refs(a + [x] + b) == Refs(a) + {x.ref} + Refs(b)
    ensures Distinct(a + [x] + b) ==>
      Distinct(a) && Distinct(b) && x.ref !in Refs(a) && x.ref !in Refs(b) && Refs(a) !! Refs(b)
  {
    hide Refs, Distinct;
    RefsConcat(a + [x], b);
    RefsConcat(a, [x]);
    assert Refs([x]) == {x.ref} by { RefsOne(x); }
    if Distinct(a + [x] + b) {
      DistinctConcat(a + [x], b);
      DistinctConcat(a, [x]);
    }
  }

  lemma RefsOne(x: Entry)
    ensures Refs([x]) == {x.ref}
  {
    assert [x][0].ref == x.ref;
  }

  ghost predicate Agree(nodes: seq<NodeRecord>, nodes': seq<NodeRecord>, refs: set<nat>) {
    |nodes| <= |nodes'| && forall r :: r in refs && r < |nodes| ==> nodes'[r] == nodes[r]
  }

  /** A tree depends on its own nodes only. */
  lemma {:induction false} ShapeFrame(nodes: seq<NodeRecord>, nodes': seq<NodeRecord>, n: int, t: Tree)
    requires Shape(nodes, n, t) && Agree(nodes, nodes', Refs(Entries(t)))
    ensures Shape(nodes', n, t)
    decreases t
  {
    hide Refs, Entries;
    if t.Node? {
      TreeRefs(t);
      ShapeFrame(nodes, nodes', nodes[n].left, t.left);
      ShapeFrame(nodes, nodes', nodes[n].right, t.right);
    }
  }

  lemma TreeRefs(t: Tree)
    requires t.Node?
    ensures Refs(Entries(t)) == Refs(Entries(t.left)) + {t.item.ref} + Refs(Entries(t.right))
    ensures Distinct(Entries(t)) ==>
      && Distinct(Entries(t.left)) && Distinct(Entries(t.right))
      && t.item.ref !in Refs(Entries(t.left)) && t.item.ref !in Refs(Entries(t.right))
      && Refs(Entries(t.left)) !! Refs(Entries(t.right))
  {
    hide Refs, Distinct;
    DistinctAround(Entries(t.left), t.item, Entries(t.right));
  }

  // ----- spines -----

  ghost function Child(node: NodeRecord, right: bool): int {
    if right then node.right else node.left
  }

  ghost predicate LinkHolds(nodes: seq<NodeRecord>, l: Link, right: bool) {
    Holds(nodes, l.item) && Shape(nodes, Child(nodes[l.item.ref], !right), l.sub)
  }

  /** Below `from`, following the `right` children (or the left ones), come the nodes of `ls` with their
      subtrees on the other side.  Where the last of them points is left open. */
  ghost predicate Spine(nodes: seq<NodeRecord>, from: nat, ls: seq<Link>, right: bool)
    decreases |ls|
  {
    from < |nodes| &&
    (ls != [] ==>
      && Child(nodes[from], right) == ls[0].item.ref
      && LinkHolds(nodes, ls[0], right)
      && Spine(nodes, ls[0].item.ref, ls[1..], right))
  }

  function Tail(from: nat, ls: seq<Link>): nat {
    if ls == [] then from else ls[|ls| - 1].item.ref
  }

  ghost function LinkRefs(l: Link): set<nat> {
    Refs(Entries(l.sub)) + {l.item.ref}
  }

  ghost function SpineRefs(ls: seq<Link>): set<nat> {
    if ls == [] then {} else LinkRefs(ls[0]) + SpineRefs(ls[1..])
  }

  ghost predicate DistinctSpine(ls: seq<Link>) {
    ls != [] ==>
      && ls[0].item.ref !in Refs(Entries(ls[0].sub)) && LinkRefs(ls[0]) !! SpineRefs(ls[1..])
      && DistinctSpine(ls[1..])
  }

  lemma LinkFrame(nodes: seq<NodeRecord>, nodes': seq<NodeRecord>, l: Link, right: bool)
    requires LinkHolds(nodes, l, right) && Agree(nodes, nodes', Refs(Entries(l.sub)))
    requires l.item.ref < |nodes'| && nodes'[l.item.ref].key == nodes[l.item.ref].key
             && nodes'[l.item.ref].value == nodes[l.item.ref].value
             && Child(nodes'[l.item.ref], !right) == Child(nodes[l.item.ref], !right)
    ensures LinkHolds(nodes', l, right)
  {
    ShapeFrame(nodes, nodes', Child(nodes[l.item.ref], !right), l.sub);
  }

  lemma {:induction false} SpineFrame(nodes: seq<NodeRecord>, nodes': seq<NodeRecord>, from: nat, ls: seq<Link>,
                                      right: bool)
    requires Spine(nodes, from, ls, right) && Agree(nodes, nodes', SpineRefs(ls))
    requires ls != [] ==> Child(nodes'[from], right) == Child(nodes[from], right)
    ensures Spine(nodes', from, ls, right)
    decreases |ls|
  {
    hide Refs;
    if ls != [] {
      LinkFrame(nodes, nodes', ls[0], right);
      SpineFrame(nodes, nodes', ls[0].item.ref, ls[1..], right);
    }
  }

  lemma {:induction false} TailInSpine(from: nat, ls: seq<Link>)
    ensures ls != [] ==> Tail(from, ls) in SpineRefs(ls)
    ensures ls != [] ==> Tail(from, ls) == Tail(ls[0].item.ref, ls[1..])
  {
    if |ls| > 1 {
      TailInSpine(from, ls[1..]);
    }
  }

  function SetChild(node: NodeRecord, right: bool, child: int): NodeRecord {
    if right then node.(right := child) else node.(left := child)
  }

  /** Hooking a node below the last node of the spine. */
  lemma {:induction false} SpineAppend(nodes: seq<NodeRecord>, from: nat, ls: seq<Link>, right: bool, x: Link)
    requires Spine(nodes, from, ls, right) && DistinctSpine(ls) && LinkHolds(nodes, x, right)
    requires from !in SpineRefs(ls) && Tail(from, ls) !in LinkRefs(x)
    ensures Tail(from, ls) < |nodes|
    ensures var tail := Tail(from, ls);
      Spine(nodes[tail := SetChild(nodes[tail], right, x.item.ref)], from, ls + [x], right)
    decreases |ls|
  {
    hide Refs;
    var tail := Tail(from, ls);
    TailInSpine(from, ls);
    if ls == [] {
      var nodes' := nodes[tail := SetChild(nodes[tail], right, x.item.ref)];
      LinkFrame(nodes, nodes', x, right);
      assert [x][1..] == [];
    } else {
      var l, rest := ls[0], ls[1..];
      assert l.item.ref !in SpineRefs(rest);
      SpineAppend(nodes, l.item.ref, rest, right, x);
      var nodes' := nodes[tail := SetChild(nodes[tail], right, x.item.ref)];
      assert (ls + [x])[1..] == rest + [x];
      assert tail !in Refs(Entries(l.sub)) by {
        if rest != [] {
          TailInSpine(l.item.ref, rest);
        }
      }
      LinkFrame(nodes, nodes', l, right);
    }
  }

  /** Closing a spine: with `bottom` below its last node it is a tree. */
  lemma {:induction false} SpineClose(nodes: seq<NodeRecord>, from: nat, ls: seq<Link>, right: bool, bottom: Tree)
    requires Spine(nodes, from, ls, right) && Tail(from, ls) < |nodes|
    requires Shape(nodes, Child(nodes[Tail(from, ls)], right), bottom)
    ensures Shape(nodes, Child(nodes[from], right), if right then LeftTree(ls, bottom) else RightTree(ls, bottom))
    decreases |ls|
  {
    if ls != [] {
      TailInSpine(from, ls);
      SpineClose(nodes, ls[0].item.ref, ls[1..], right, bottom);
    }
  }

  // ----- the loop of splay_ in memory -----

  lemma {:induction false} LeftSpineRefs(ls: seq<Link>)
    ensures SpineRefs(ls) == Refs(LeftEntries(ls)) && (Distinct(LeftEntries(ls)) ==> DistinctSpine(ls))
  {
    hide Refs, Distinct;
    if ls == [] {
      NoRefs();
    } else {
      LeftSpineRefs(ls[1..]);
      DistinctAround(Entries(ls[0].sub), ls[0].item, LeftEntries(ls[1..]));
    }
  }

  lemma {:induction false} RightSpineRefs(rs: seq<Link>)
    ensures SpineRefs(rs) == Refs(RightEntries(rs)) && (Distinct(RightEntries(rs)) ==> DistinctSpine(rs))
  {
    hide Refs, Distinct;
    if rs == [] {
      NoRefs();
    } else {
      RightSpineRefs(rs[1..]);
      DistinctAround(RightEntries(rs[1..]), rs[0].item, Entries(rs[0].sub));
    }
  }

  lemma NoRefs()
    ensures Refs([]) == {}
  {
  }

  /** The three parts share no node. */
  lemma Parts(s: Split)
    ensures Refs(AllEntries(s)) == SpineRefs(s.ls) + Refs(Entries(s.current)) + SpineRefs(s.rs)
    ensures Distinct(AllEntries(s)) ==>
      && Distinct(Entries(s.current)) && DistinctSpine(s.ls) && DistinctSpine(s.rs)
      && SpineRefs(s.ls) !! Refs(Entries(s.current)) && SpineRefs(s.rs) !! Refs(Entries(s.current))
      && SpineRefs(s.ls) !! SpineRefs(s.rs)
  {
    hide Refs, Distinct;
    LeftSpineRefs(s.ls);
    RightSpineRefs(s.rs);
    var l, c, r := LeftEntries(s.ls), Entries(s.current), RightEntries(s.rs);
    RefsConcat(l + c, r);
    RefsConcat(l, c);
    if Distinct(AllEntries(s)) {
      DistinctConcat(l + c, r);
      DistinctConcat(l, c);
    }
  }

  /** The memory while splaying: the current tree, and both spines hanging from the dummy node. */
  ghost predicate Splaying(nodes: seq<NodeRecord>, dummy: nat, current: int, s: Split) {
    && dummy < |nodes| && Shape(nodes, current, s.current)
    && Spine(nodes, dummy, s.ls, true) && Spine(nodes, dummy, s.rs, false)
    && Distinct(AllEntries(s)) && dummy !in Refs(AllEntries(s))
  }

  /** Writes to nodes of the current tree leave the spines alone. */
  lemma SpinesKept(nodes: seq<NodeRecord>, nodes': seq<NodeRecord>, dummy: nat, current: int, s: Split, current': int,
                   t: Tree)
    requires Splaying(nodes, dummy, current, s) && |nodes'| == |nodes|
    requires forall r :: 0 <= r < |nodes| && r !in Refs(Entries(s.current)) ==> nodes'[r] == nodes[r]
    requires Shape(nodes', current', t) && Entries(t) == Entries(s.current)
    ensures Splaying(nodes', dummy, current', s.(current := t))
  {
    hide Refs, Distinct, Entries;
    Parts(s);
    SpineFrame(nodes, nodes', dummy, s.ls, true);
    SpineFrame(nodes, nodes', dummy, s.rs, false);
  }

  lemma RotatedRight(nodes: seq<NodeRecord>, n: nat, t: Tree)
    requires Shape(nodes, n, t) && t.Node? && t.left.Node? && Distinct(Entries(t))
    ensures n < |nodes| && 0 <= nodes[n].left < |nodes|
    ensures var tmp := nodes[n].left;
      Shape(nodes[n := nodes[n].(left := nodes[tmp].right)][tmp := nodes[tmp].(right := n)], tmp, RotateRight(t))
  {
    hide Refs, Distinct, Entries;
    TreeRefs(t);
    TreeRefs(t.left);
    var tmp := nodes[n].left;
    var nodes' := nodes[n := nodes[n].(left := nodes[tmp].right)][tmp := nodes[tmp].(right := n)];
    ShapeFrame(nodes, nodes', nodes[tmp].left, t.left.left);
    ShapeFrame(nodes, nodes', nodes[tmp].right, t.left.right);
    ShapeFrame(nodes, nodes', nodes[n].right, t.right);
  }

  lemma RotatedLeft(nodes: seq<NodeRecord>, n: nat, t: Tree)
    requires Shape(nodes, n, t) && t.Node? && t.right.Node? && Distinct(Entries(t))
    ensures n < |nodes| && 0 <= nodes[n].right < |nodes|
    ensures var tmp := nodes[n].right;
      Shape(nodes[n := nodes[n].(right := nodes[tmp].left)][tmp := nodes[tmp].(left := n)], tmp, RotateLeft(t))
  {
    hide Refs, Distinct, Entries;
    TreeRefs(t);
    TreeRefs(t.right);
    var tmp := nodes[n].right;
    var nodes' := nodes[n := nodes[n].(right := nodes[tmp].left)][tmp := nodes[tmp].(left := n)];
    ShapeFrame(nodes, nodes', nodes[tmp].left, t.right.left);
    ShapeFrame(nodes, nodes', nodes[tmp].right, t.right.right);
    ShapeFrame(nodes, nodes', nodes[n].left, t.left);
  }

  lemma LinkedRight(nodes: seq<NodeRecord>, dummy: nat, n: nat, s: Split)
    requires Splaying(nodes, dummy, n, s) && s.current.Node?
    ensures n < |nodes| && Tail(dummy, s.rs) < |nodes|
    ensures var tail, c := Tail(dummy, s.rs), s.current;
      Splaying(nodes[tail := nodes[tail].(left := n)], dummy, nodes[n].left,
               Split(c.left, s.ls, s.rs + [Link(c.item, c.right)]))
  {
    hide Refs, Distinct, Entries;
    var c, ls, rs := s.current, s.ls, s.rs;
    Parts(s);
    TreeRefs(c);
    TailInSpine(dummy, rs);
    SpineAppend(nodes, dummy, rs, false, Link(c.item, c.right));
    var tail := Tail(dummy, rs);
    var nodes' := nodes[tail := nodes[tail].(left := n)];
    SpineFrame(nodes, nodes', dummy, ls, true);
    ShapeFrame(nodes, nodes', nodes[n].left, c.left);
    LinkRightEntries(c, ls, rs);
  }

  lemma LinkedLeft(nodes: seq<NodeRecord>, dummy: nat, n: nat, s: Split)
    requires Splaying(nodes, dummy, n, s) && s.current.Node?
    ensures n < |nodes| && Tail(dummy, s.ls) < |nodes|
    ensures var tail, c := Tail(dummy, s.ls), s.current;
      Splaying(nodes[tail := nodes[tail].(right := n)], dummy, nodes[n].right,
               Split(c.right, s.ls + [Link(c.item, c.left)], s.rs))
  {
    hide Refs, Distinct, Entries;
    var c, ls, rs := s.current, s.ls, s.rs;
    Parts(s);
    TreeRefs(c);
    TailInSpine(dummy, ls);
    SpineAppend(nodes, dummy, ls, true, Link(c.item, c.left));
    var tail := Tail(dummy, ls);
    var nodes' := nodes[tail := nodes[tail].(right := n)];
    SpineFrame(nodes, nodes', dummy, rs, false);
    ShapeFrame(nodes, nodes', nodes[n].right, c.right);
    LinkLeftEntries(c, ls, rs);
  }

  /** Where the last node of a spine points is of no account to the spine. */
  lemma {:induction false} SpineTailFree(nodes: seq<NodeRecord>, from: nat, ls: seq<Link>, right: bool, child: int)
    requires Spine(nodes, from, ls, right) && DistinctSpine(ls) && from !in SpineRefs(ls)
    ensures Tail(from, ls) < |nodes|
    ensures var tail := Tail(from, ls); Spine(nodes[tail := SetChild(nodes[tail], right, child)], from, ls, right)
    decreases |ls|
  {
    hide Refs;
    if ls != [] {
      var l, rest := ls[0], ls[1..];
      TailInSpine(from, ls);
      assert l.item.ref !in SpineRefs(rest);
      SpineTailFree(nodes, l.item.ref, rest, right, child);
      var tail := Tail(from, ls);
      assert tail !in Refs(Entries(l.sub)) by {
        TailInSpine(l.item.ref, rest);
      }
      LinkFrame(nodes, nodes[tail := SetChild(nodes[tail], right, child)], l, right);
    }
  }

  ghost function SpineTree(ls: seq<Link>, bottom: Tree, right: bool): Tree {
    if right then LeftTree(ls, bottom) else RightTree(ls, bottom)
  }

  lemma SpineTreeRefs(ls: seq<Link>, bottom: Tree, right: bool)
    ensures Refs(Entries(SpineTree(ls, bottom, right))) == SpineRefs(ls) + Refs(Entries(bottom))
  {
    hide Refs;
    if right {
      LeftTreeEntries(ls, bottom);
      LeftSpineRefs(ls);
      RefsConcat(LeftEntries(ls), Entries(bottom));
    } else {
      RightTreeEntries(ls, bottom);
      RightSpineRefs(ls);
      RefsConcat(Entries(bottom), RightEntries(ls));
    }
  }

  /** Hanging `bottom`, at `child`, below the last node of the spine. */
  lemma SpineClosed(nodes: seq<NodeRecord>, from: nat, ls: seq<Link>, right: bool, child: int, bottom: Tree)
    requires Spine(nodes, from, ls, right) && DistinctSpine(ls) && from !in SpineRefs(ls)
    requires Shape(nodes, child, bottom) && Tail(from, ls) !in Refs(Entries(bottom))
    ensures Tail(from, ls) < |nodes|
    ensures var tail := Tail(from, ls); var nodes' := nodes[tail := SetChild(nodes[tail], right, child)];
      Shape(nodes', Child(nodes'[from], right), SpineTree(ls, bottom, right))
  {
    hide Refs;
    SpineTailFree(nodes, from, ls, right, child);
    var tail := Tail(from, ls);
    var nodes' := nodes[tail := SetChild(nodes[tail], right, child)];
    ShapeFrame(nodes, nodes', child, bottom);
    SpineClose(nodes', from, ls, right, bottom);
  }

  /** The four writes at the end of `splay_`. */
  function AssembleNodes(nodes: seq<NodeRecord>, dummy: nat, left: nat, right: nat, current: nat): seq<NodeRecord>
    requires dummy < |nodes| && left < |nodes| && right < |nodes| && current < |nodes|
  {
    var nodes1 := nodes[left := nodes[left].(right := nodes[current].left)];
    var nodes2 := nodes1[right := nodes1[right].(left := nodes1[current].right)];
    var nodes3 := nodes2[current := nodes2[current].(left := nodes2[dummy].right)];
    nodes3[current := nodes3[current].(right := nodes3[dummy].left)]
  }

  lemma Assembled(nodes: seq<NodeRecord>, dummy: nat, n: nat, s: Split)
    requires Splaying(nodes, dummy, n, s) && s.current.Node?
    ensures n < |nodes| && Tail(dummy, s.ls) < |nodes| && Tail(dummy, s.rs) < |nodes|
    ensures Shape(AssembleNodes(nodes, dummy, Tail(dummy, s.ls), Tail(dummy, s.rs), n), n, Assemble(s))
  {
    hide Refs, Distinct, Entries;
    var c, ls, rs := s.current, s.ls, s.rs;
    Parts(s);
    TreeRefs(c);
    TailInSpine(dummy, ls);
    TailInSpine(dummy, rs);
    var left, right := Tail(dummy, ls), Tail(dummy, rs);
    SpineClosed(nodes, dummy, ls, true, nodes[n].left, c.left);
    var nodes1 := nodes[left := nodes[left].(right := nodes[n].left)];
    SpineFrame(nodes, nodes1, dummy, rs, false);
    ShapeFrame(nodes, nodes1, nodes[n].right, c.right);
    SpineClosed(nodes1, dummy, rs, false, nodes1[n].right, c.right);
    var nodes2 := nodes1[right := nodes1[right].(left := nodes1[n].right)];
    SpineTreeRefs(ls, c.left, true);
    SpineTreeRefs(rs, c.right, false);
    ShapeFrame(nodes1, nodes2, nodes1[dummy].right, LeftTree(ls, c.left));
    var nodes4 := AssembleNodes(nodes, dummy, left, right, n);
    ShapeFrame(nodes2, nodes4, nodes2[dummy].right, LeftTree(ls, c.left));
    ShapeFrame(nodes2, nodes4, nodes2[dummy].left, RightTree(rs, c.right));
  }
}
