/**
 The splay tree as it runs: nodes rewired in place through a dummy node.
 */
module SplayTree {
  import opened SplayModel
  import opened SplayHeap
  import opened SplayCost

  /** `node` has the key and the value of the answer, or is null if there is none. */
  ghost predicate Returns(nodes: seq<NodeRecord>, node: int, answer: Answer) {
    if answer.Found? then 0 <= node < |nodes| && nodes[node].key == answer.key && nodes[node].value == answer.value
    else node == NULL
  }

  class SplayTree {
    var nodes: seq<NodeRecord>
    var root: int
    ghost var tree: Tree
    /** How often the loop of `Splay_` has been run through. */
    ghost var turns: nat

    /** The nodes represent `tree`. */
    ghost predicate Layout()
      reads this
    {
      Shape(nodes, root, tree) && Distinct(Entries(tree))
    }

    ghost predicate Valid()
      reads this
    {
      Layout() && Sorted(Entries(tree))
    }

    ghost function Contents(): map<real, Value>
      reads this
    {
      MapOf(Entries(tree))
    }

    constructor ()
      ensures Valid() && Contents() == map[] && tree == Leaf && turns == 0
    {
      nodes, root, tree, turns := [], NULL, Leaf, 0;
    }

    /** The nodes that were in the pool and are not in `old tree` are as they were. */
    twostate predicate OthersKept(new t: Tree)
      reads this
    {
      && |old(nodes)| <= |nodes|
      && forall r :: 0 <= r < |old(nodes)| && r !in Refs(Entries(t)) ==> nodes[r] == old(nodes)[r]
    }

    /** Top-down splaying.  The tree becomes the splayed tree; no other node is touched. */
    method Splay_(key: real)
      requires Layout()
      modifies this
      ensures Layout() && tree == Splay(old(tree), key) && OthersKept(old(tree))
      ensures turns == old(turns) + Turns(old(tree), key)
    {
      hide Refs, Distinct, Entries, Spine, Splaying, Shape, Descend, LeftTree, RightTree, Turns;
      if root == NULL {
        LeafIsNull(nodes, root, tree);
        NoTurns(key);
        return;
      }
      var dummy := |nodes|;
      nodes := nodes + [NodeRecord(0.0, 0, NULL, NULL)];
      var left, right, current := dummy, dummy, root;
      ghost var s := Split(tree, [], []);
      StartSplaying(old(nodes), nodes, root, tree);
      var stop := false;
      while !stop
        invariant Splaying(nodes, dummy, current, s) && s.current.Node?
        invariant left == Tail(dummy, s.ls) && right == Tail(dummy, s.rs)
        invariant (if stop then s else Descend(s.current, key, s.ls, s.rs)) == Descend(old(tree), key, [], [])
        invariant turns + (if stop then 0 else Turns(s.current, key)) == old(turns) + Turns(old(tree), key)
        invariant AllEntries(s) == Entries(old(tree)) && |nodes| == |old(nodes)| + 1
        invariant forall r :: 0 <= r < |old(nodes)| && r !in Refs(Entries(old(tree))) ==> nodes[r] == old(nodes)[r]
        decreases !stop, Size(s.current)
      {
        turns := turns + 1;
        CurrentNode(nodes, dummy, current, s);
        if key < nodes[current].key {
          nodes, right, current, stop, s := StepLeft(nodes, dummy, right, current, key, s);
        } else if key > nodes[current].key {
          nodes, left, current, stop, s := StepRight(nodes, dummy, left, current, key, s);
        } else {
          FoundKey(s, key);
          stop := true;
        }
      }
      CurrentNode(nodes, dummy, current, s);
      TailKept(nodes, dummy, current, s);
      Assembled(nodes, dummy, current, s);
      nodes := AssembleNodes(nodes, dummy, left, right, current);
      root := current;
      tree := Assemble(s);
      SplayKeepsEntries(old(tree), key);
    }

    method Insert(key: real, value: Value)
      requires Valid()
      modifies this
      ensures Valid()
      ensures Allowed(old(Contents()), InsertOp(Entry(0, key, value)), Contents(), Nothing)
      ensures turns >= old(turns) && Amortised(old(tree), tree, turns - old(turns))
    {
      hide Refs, Distinct, Entries, Sorted, Shape, MapOf, Splay, Turns, Amortised;
      ghost var before := tree;
      if root == NULL {
        LeafIsNull(nodes, root, tree);
        ghost var item := Entry(|nodes|, key, value);
        InsertRefines(before, item);
        InsertPaid(before, item);
        NoTurns(key);
        FreshLeafs(nodes, item);
        nodes := nodes + [NodeRecord(key, value, NULL, NULL)];
        root := |nodes| - 1;
        tree := Node(item, Leaf, Leaf);
        return;
      }
      LeafIsNull(nodes, root, tree);
      Splay_(key);
      ghost var r := tree;
      SplayKeepsEntries(before, key);
      SplaySplits(before, key);
      RootNode(nodes, root, r);
      if nodes[root].key == key {
        MapOfKeys(Entries(before), key);
        FindPaid(before, key);
        return;
      }
      ghost var item := Entry(|nodes|, key, value);
      InsertRefines(before, item);
      InsertPaid(before, item);
      RefsInPool(nodes, root, r);
      InsertHeap(nodes, root, r, item);
      if key > nodes[root].key {
        var node := NodeRecord(key, value, root, nodes[root].right);
        nodes := nodes[root := nodes[root].(right := NULL)] + [node];
        tree := Node(item, r.(right := Leaf), r.right);
      } else {
        var node := NodeRecord(key, value, nodes[root].left, root);
        nodes := nodes[root := nodes[root].(left := NULL)] + [node];
        tree := Node(item, r.left, r.(left := Leaf));
      }
      root := |nodes| - 1;
    }

    /** The removed node with its key and value, or the error thrown when the key is missing. */
    method Remove(key: real) returns (node: int, answer: Answer)
      requires Valid()
      modifies this
      ensures Valid() && Allowed(old(Contents()), RemoveOp(key), Contents(), answer)
      ensures turns >= old(turns) && Amortised(old(tree), tree, turns - old(turns))
      ensures Returns(nodes, node, answer)
      ensures node != NULL ==> node in Refs(Entries(old(tree))) && node !in Refs(Entries(tree))
    {
      hide Refs, Distinct, Entries, Sorted, Shape, MapOf, Splay, Turns, Amortised;
      ghost var before := tree;
      RemoveRefines(before, key);
      RemovePaid(before, key);
      NoTurns(key);
      LeafIsNull(nodes, root, tree);
      if root == NULL {
        SplayLeaf(key);
        return NULL, Missing;
      }
      Splay_(key);
      ghost var r := tree;
      SplayKeepsEntries(before, key);
      SplaySplits(before, key);
      RootNode(nodes, root, r);
      if nodes[root].key != key {
        return NULL, Missing;
      }
      node := root;
      answer := Found(nodes[root].key, nodes[root].value);
      TreeRefs(r);
      RemoveEntries(r, key);
      WithoutRoot(r);
      if nodes[root].left == NULL {
        root := nodes[root].right;
        tree := r.right;
      } else {
        var right := nodes[root].right;
        ghost var pool := nodes;
        root := nodes[root].left;
        tree := r.left;
        Splay_(key);
        ghost var l := tree;
        SplayKeepsEntries(r.left, key);
        SplaySplits(r.left, key);
        RootNode(nodes, root, l);
        ShapeFrame(pool, nodes, right, r.right);
        TreeRefs(l);
        RightReplaced(nodes, root, l, right, r.right);
        nodes := nodes[root := nodes[root].(right := right)];
        tree := l.(right := r.right);
        TreeRefs(tree);
      }
    }

    /** The node with the key. */
    method Find(key: real) returns (node: int, answer: Answer)
      requires Valid()
      modifies this
      ensures Valid() && Allowed(old(Contents()), FindOp(key), Contents(), answer)
      ensures turns >= old(turns) && Amortised(old(tree), tree, turns - old(turns))
      ensures Returns(nodes, node, answer) && (node != NULL ==> node in Refs(Entries(tree)))
    {
      hide Refs, Distinct, Entries, Sorted, Shape, MapOf, Splay, Turns, Amortised;
      SplayedRoot(tree, key);
      FindPaid(tree, key);
      NoTurns(key);
      LeafIsNull(nodes, root, tree);
      if root == NULL {
        SplayLeaf(key);
        return NULL, NotFound;
      }
      Splay_(key);
      SplaySplits(old(tree), key);
      RootNode(nodes, root, tree);
      TreeRefs(tree);
      if nodes[root].key == key {
        return root, Found(key, nodes[root].value);
      }
      return NULL, NotFound;
    }

    /** The node with the greatest key in the subtree at `start`, or in the whole tree. */
    method FindMax(start: int, ghost t: Tree) returns (node: int)
      requires Valid() && (if start == NULL then t == tree else Shape(nodes, start, t))
      ensures tree.Leaf? || t.Leaf? ==> node == NULL
      ensures tree.Node? && t.Node? ==> node == Max(t).ref && Holds(nodes, Max(t))
    {
      LeafIsNull(nodes, root, tree);
      if root == NULL {
        return NULL;
      }
      node := if start != NULL then start else root;
      ghost var rest := t;
      while node != NULL && nodes[node].right != NULL
        invariant Shape(nodes, node, rest)
        invariant t.Node? ==> rest.Node? && Max(rest) == Max(t)
        invariant t.Leaf? ==> node == NULL
        decreases rest
      {
        LeafIsNull(nodes, nodes[node].right, rest.right);
        node := nodes[node].right;
        rest := rest.right;
      }
      if t.Node? {
        LeafIsNull(nodes, nodes[node].right, rest.right);
      }
    }

    /** The node with the greatest key below `key`. */
    method FindGreatestLessThan(key: real) returns (node: int, answer: Answer)
      requires Valid()
      modifies this
      ensures Valid() && Allowed(old(Contents()), GreatestOp(key), Contents(), answer)
      ensures turns >= old(turns) && Amortised(old(tree), tree, turns - old(turns))
      ensures Returns(nodes, node, answer) && (node != NULL ==> node in Refs(Entries(tree)))
    {
      hide Refs, Distinct, Entries, Sorted, Shape, MapOf, Splay, IsGreatestBelow, Turns, Amortised;
      GreatestRefines(tree, key);
      FindPaid(tree, key);
      NoTurns(key);
      LeafIsNull(nodes, root, tree);
      if root == NULL {
        SplayLeaf(key);
        return NULL, NotFound;
      }
      Splay_(key);
      SplaySplits(old(tree), key);
      RootNode(nodes, root, tree);
      TreeRefs(tree);
      if nodes[root].key < key {
        node := root;
      } else if nodes[root].left != NULL {
        node := FindMax(nodes[root].left, tree.left);
        MaxInTree(tree.left);
      } else {
        return NULL, NotFound;
      }
      answer := Found(nodes[node].key, nodes[node].value);
    }

    method ExportKeys() returns (answer: Answer)
      requires Valid()
      ensures Allowed(Contents(), ExportOp, Contents(), answer)
    {
      var keys := Traverse(nodes, root, tree);
      ExportRefines(Entries(tree));
      answer := Keys(keys);
    }
  }

  /** The ordered traversal: recursion to the left, a loop to the right. */
  method Traverse(nodes: seq<NodeRecord>, start: int, ghost t: Tree) returns (keys: seq<real>)
    requires Shape(nodes, start, t)
    ensures keys == KeysOf(Entries(t))
    decreases Size(t)
  {
    hide Entries, KeysOf;
    keys := [];
    var current := start;
    ghost var rest := t;
    assert [] + KeysOf(Entries(t)) == KeysOf(Entries(t));
    while current != NULL
      invariant Shape(nodes, current, rest)
      invariant KeysOf(Entries(t)) == keys + KeysOf(Entries(rest))
      invariant rest == t || (t.Node? && Size(rest) < Size(t))
      decreases Size(rest)
    {
      LeafIsNull(nodes, current, rest);
      var left := Traverse(nodes, nodes[current].left, rest.left);
      KeysOfNode(rest);
      assert keys + (left + [nodes[current].key] + KeysOf(Entries(rest.right)))
          == (keys + left + [nodes[current].key]) + KeysOf(Entries(rest.right));
      keys := keys + left + [nodes[current].key];
      current := nodes[current].right;
      rest := rest.right;
    }
    LeafIsNull(nodes, current, rest);
    NoKeys();
    assert keys + [] == keys;
  }

  lemma KeysOfNode(t: Tree)
    requires t.Node?
    ensures KeysOf(Entries(t)) == KeysOf(Entries(t.left)) + [t.item.key] + KeysOf(Entries(t.right))
  {
    hide Entries;
    EntriesNode(t.item, t.left, t.right);
  }

  lemma NoKeys()
    ensures KeysOf(Entries(Leaf)) == []
  {
  }

  lemma MaxInTree(t: Tree)
    requires t.Node?
    ensures Max(t).ref in Refs(Entries(t))
  {
    hide Entries;
    MaxIsLast(t);
    var es := Entries(t);
    assert es[|es| - 1] == Max(t);
  }

  lemma FreshLeafs(nodes: seq<NodeRecord>, item: Entry)
    requires item.ref == |nodes|
    ensures Shape(nodes + [NodeRecord(item.key, item.value, NULL, NULL)], |nodes|, Node(item, Leaf, Leaf))
    ensures Distinct(Entries(Node(item, Leaf, Leaf)))
  {
  }

  lemma RootNode(nodes: seq<NodeRecord>, n: int, t: Tree)
    requires Shape(nodes, n, t) && t.Node?
    ensures 0 <= n < |nodes| && n == t.item.ref && nodes[n].key == t.item.key && nodes[n].value == t.item.value
    ensures Shape(nodes, nodes[n].left, t.left) && Shape(nodes, nodes[n].right, t.right)
    ensures nodes[n].left == NULL <==> t.left.Leaf?
    ensures nodes[n].right == NULL <==> t.right.Leaf?
  {
    LeafIsNull(nodes, nodes[n].left, t.left);
    LeafIsNull(nodes, nodes[n].right, t.right);
  }

  /** Putting a fresh node above the root, with the root to its left or to its right. */
  lemma InsertHeap(nodes: seq<NodeRecord>, n: int, r: Tree, item: Entry)
    requires Shape(nodes, n, r) && r.Node? && Distinct(Entries(r)) && item.ref == |nodes| && 0 <= n < |nodes|
    requires forall k :: k in Refs(Entries(r)) ==> k < |nodes|
    ensures Shape(nodes[n := nodes[n].(right := NULL)] + [NodeRecord(item.key, item.value, n, nodes[n].right)], |nodes|,
                  Node(item, r.(right := Leaf), r.right))
    ensures Shape(nodes[n := nodes[n].(left := NULL)] + [NodeRecord(item.key, item.value, nodes[n].left, n)], |nodes|,
                  Node(item, r.left, r.(left := Leaf)))
    ensures Distinct(Entries(Node(item, r.(right := Leaf), r.right)))
    ensures Distinct(Entries(Node(item, r.left, r.(left := Leaf))))
  {
    hide Refs, Distinct, Entries, Shape;
    RootNode(nodes, n, r);
    RootBelow(nodes, n, r, nodes[n].(right := NULL), r.(right := Leaf),
              NodeRecord(item.key, item.value, n, nodes[n].right));
    RootBelow(nodes, n, r, nodes[n].(left := NULL), r.(left := Leaf),
              NodeRecord(item.key, item.value, nodes[n].left, n));
    NewRoot(nodes[n := nodes[n].(right := NULL)] + [NodeRecord(item.key, item.value, n, nodes[n].right)], item,
            r.(right := Leaf), r.right);
    NewRoot(nodes[n := nodes[n].(left := NULL)] + [NodeRecord(item.key, item.value, nodes[n].left, n)], item, r.left,
            r.(left := Leaf));
    InsertDistinct(r, item);
  }

  lemma NewRoot(nodes: seq<NodeRecord>, item: Entry, l: Tree, r: Tree)
    requires Holds(nodes, item) && Shape(nodes, nodes[item.ref].left, l) && Shape(nodes, nodes[item.ref].right, r)
    ensures Shape(nodes, item.ref, Node(item, l, r))
  {
  }

  /** Cutting one subtree off the root and appending a node to the pool. */
  lemma RootBelow(nodes: seq<NodeRecord>, n: int, r: Tree, cut: NodeRecord, r': Tree, fresh': NodeRecord)
    requires Shape(nodes, n, r) && r.Node? && Distinct(Entries(r)) && 0 <= n < |nodes|
    requires || (cut == nodes[n].(right := NULL) && r' == r.(right := Leaf))
             || (cut == nodes[n].(left := NULL) && r' == r.(left := Leaf))
    ensures var nodes' := nodes[n := cut] + [fresh'];
      Shape(nodes', n, r') && Shape(nodes', nodes[n].left, r.left) && Shape(nodes', nodes[n].right, r.right)
  {
    hide Refs, Distinct, Entries;
    TreeRefs(r);
    var nodes' := nodes[n := cut] + [fresh'];
    assert nodes'[n] == cut;
    ShapeFrame(nodes, nodes', nodes[n].left, r.left);
    ShapeFrame(nodes, nodes', nodes[n].right, r.right);
  }

  lemma InsertDistinct(r: Tree, item: Entry)
    requires r.Node? && Distinct(Entries(r)) && item.ref !in Refs(Entries(r))
    ensures Distinct(Entries(Node(item, r.(right := Leaf), r.right)))
    ensures Distinct(Entries(Node(item, r.left, r.(left := Leaf))))
  {
    hide Refs, Distinct;
    var a, b := Entries(r.left), Entries(r.right);
    assert Entries(r.(right := Leaf)) == a + [r.item];
    assert Entries(r.(left := Leaf)) == [r.item] + b;
    assert a + [r.item] + b == a + ([r.item] + b);
    DistinctInsert(a + [r.item], item, b);
    DistinctInsert(a, item, [r.item] + b);
  }

  lemma WithoutRoot(r: Tree)
    requires r.Node? && Distinct(Entries(r)) && Sorted(Entries(r))
    ensures Distinct(Entries(r.left) + Entries(r.right)) && Sorted(Entries(r.left)) && Sorted(Entries(r.right))
  {
    hide Distinct, Sorted;
    DistinctWithout(Entries(r.left), r.item, Entries(r.right), Entries(r));
    SortedAround(Entries(r.left), r.item, Entries(r.right));
  }

  lemma DistinctInsert(a: seq<Entry>, x: Entry, b: seq<Entry>)
    requires Distinct(a + b) && x.ref !in Refs(a + b)
    ensures Distinct(a + [x] + b)
  {
    var es := a + [x] + b;
    forall i | 0 <= i < |es| && i != |a|
      ensures es[i] == (a + b)[if i < |a| then i else i - 1] && es[i].ref in Refs(a + b)
    {
    }
  }

  lemma DistinctWithout(a: seq<Entry>, x: Entry, b: seq<Entry>, es: seq<Entry>)
    requires es == a + [x] + b && Distinct(es)
    ensures Distinct(a + b)
  {
    forall i | 0 <= i < |a + b|
      ensures (a + b)[i] == es[if i < |a| then i else i + 1]
    {
    }
  }

  lemma RightReplaced(nodes: seq<NodeRecord>, n: int, l: Tree, right: int, t: Tree)
    requires Shape(nodes, n, l) && l.Node? && Distinct(Entries(l)) && 0 <= n < |nodes|
    requires Shape(nodes, right, t) && l.item.ref !in Refs(Entries(t))
    ensures Shape(nodes[n := nodes[n].(right := right)], n, l.(right := t))
  {
    hide Refs, Distinct, Entries;
    TreeRefs(l);
    var nodes' := nodes[n := nodes[n].(right := right)];
    ShapeFrame(nodes, nodes', nodes[n].left, l.left);
    ShapeFrame(nodes, nodes', right, t);
  }

  lemma FoundKey(s: Split, key: real)
    requires s.current.Node? && s.current.item.key == key
    ensures Descend(s.current, key, s.ls, s.rs) == s && Turns(s.current, key) == 1
  {
  }

  ghost function Size(t: Tree): nat {
    if t.Leaf? then 0 else Size(t.left) + 1 + Size(t.right)
  }

  /** The branch of the loop that goes left: rotate right if the key is to the left of the left child too,
      then move the current node to the right tree. */
  method StepLeft(nodes: seq<NodeRecord>, dummy: nat, right: nat, current: nat, key: real, ghost s: Split)
    returns (nodes': seq<NodeRecord>, right': nat, current': nat, stop: bool, ghost s': Split)
    requires Splaying(nodes, dummy, current, s) && s.current.Node? && key < s.current.item.key
    requires right == Tail(dummy, s.rs)
    ensures Splaying(nodes', dummy, current', s') && s'.current.Node? && right' == Tail(dummy, s'.rs) && s'.ls == s.ls
    ensures (if stop then s' else Descend(s'.current, key, s'.ls, s'.rs)) == Descend(s.current, key, s.ls, s.rs)
    ensures AllEntries(s') == AllEntries(s) && |nodes'| == |nodes|
    ensures forall r :: 0 <= r < |nodes| && r != dummy && r !in Refs(AllEntries(s)) ==> nodes'[r] == nodes[r]
    ensures !stop ==> Size(s'.current) < Size(s.current)
    ensures Turns(s.current, key) == 1 + if stop then 0 else Turns(s'.current, key)
  {
    hide Refs, Distinct, Entries, Spine, Splaying, Shape, AllEntries;
    nodes', right', current', stop, s' := nodes, right, current, true, s;
    CurrentNode(nodes, dummy, current, s);
    if nodes'[current].left == NULL {
      return;
    }
    var tmp := nodes'[current].left;
    if key < nodes'[tmp].key {
      RotateRightStep(nodes', dummy, current, s);
      nodes' := nodes'[current := nodes'[current].(left := nodes'[tmp].right)][tmp := nodes'[tmp].(right := current)];
      current' := tmp;
      s' := s.(current := RotateRight(s.current));
      CurrentNode(nodes', dummy, current', s');
      if nodes'[current'].left == NULL {
        return;
      }
    }
    stop := false;
    LinkedRight(nodes', dummy, current', s');
    LinkRightEntries(s'.current, s'.ls, s'.rs);
    TailKept(nodes', dummy, current', s');
    nodes' := nodes'[right := nodes'[right].(left := current')];
    s' := Split(s'.current.left, s'.ls, s'.rs + [Link(s'.current.item, s'.current.right)]);
    right' := current';
    NextNode(nodes', dummy, nodes'[current'].left, s');
    current' := nodes'[current'].left;
  }

  method StepRight(nodes: seq<NodeRecord>, dummy: nat, left: nat, current: nat, key: real, ghost s: Split)
    returns (nodes': seq<NodeRecord>, left': nat, current': nat, stop: bool, ghost s': Split)
    requires Splaying(nodes, dummy, current, s) && s.current.Node? && key > s.current.item.key
    requires left == Tail(dummy, s.ls)
    ensures Splaying(nodes', dummy, current', s') && s'.current.Node? && left' == Tail(dummy, s'.ls) && s'.rs == s.rs
    ensures (if stop then s' else Descend(s'.current, key, s'.ls, s'.rs)) == Descend(s.current, key, s.ls, s.rs)
    ensures AllEntries(s') == AllEntries(s) && |nodes'| == |nodes|
    ensures forall r :: 0 <= r < |nodes| && r != dummy && r !in Refs(AllEntries(s)) ==> nodes'[r] == nodes[r]
    ensures !stop ==> Size(s'.current) < Size(s.current)
    ensures Turns(s.current, key) == 1 + if stop then 0 else Turns(s'.current, key)
  {
    hide Refs, Distinct, Entries, Spine, Splaying, Shape, AllEntries;
    nodes', left', current', stop, s' := nodes, left, current, true, s;
    CurrentNode(nodes, dummy, current, s);
    if nodes'[current].right == NULL {
      return;
    }
    var tmp := nodes'[current].right;
    if key > nodes'[tmp].key {
      RotateLeftStep(nodes', dummy, current, s);
      nodes' := nodes'[current := nodes'[current].(right := nodes'[tmp].left)][tmp := nodes'[tmp].(left := current)];
      current' := tmp;
      s' := s.(current := RotateLeft(s.current));
      CurrentNode(nodes', dummy, current', s');
      if nodes'[current'].right == NULL {
        return;
      }
    }
    stop := false;
    LinkedLeft(nodes', dummy, current', s');
    LinkLeftEntries(s'.current, s'.ls, s'.rs);
    TailKept(nodes', dummy, current', s');
    nodes' := nodes'[left := nodes'[left].(right := current')];
    s' := Split(s'.current.right, s'.ls + [Link(s'.current.item, s'.current.left)], s'.rs);
    left' := current';
    NextNode(nodes', dummy, nodes'[current'].right, s');
    current' := nodes'[current'].right;
  }

  lemma NextNode(nodes: seq<NodeRecord>, dummy: nat, n: int, s: Split)
    requires Splaying(nodes, dummy, n, s) && s.current.Node?
    ensures n >= 0
  {
  }

  lemma LeafIsNull(nodes: seq<NodeRecord>, n: int, t: Tree)
    requires Shape(nodes, n, t)
    ensures n == NULL <==> t.Leaf?
  {
  }

  lemma StartSplaying(nodes: seq<NodeRecord>, nodes': seq<NodeRecord>, n: int, t: Tree)
    requires Shape(nodes, n, t) && Distinct(Entries(t)) && |nodes'| == |nodes| + 1 && nodes <= nodes'
    ensures Splaying(nodes', |nodes|, n, Split(t, [], [])) && AllEntries(Split(t, [], [])) == Entries(t)
    ensures n != NULL ==> t.Node?
  {
    hide Refs, Distinct;
    assert AllEntries(Split(t, [], [])) == Entries(t);
    ShapeFrame(nodes, nodes', n, t);
    RefsInPool(nodes, n, t);
  }

  lemma {:induction false} RefsInPool(nodes: seq<NodeRecord>, n: int, t: Tree)
    requires Shape(nodes, n, t)
    ensures forall r :: r in Refs(Entries(t)) ==> r < |nodes|
    decreases t
  {
    hide Refs, Entries;
    if t.Node? {
      TreeRefs(t);
      RefsInPool(nodes, nodes[n].left, t.left);
      RefsInPool(nodes, nodes[n].right, t.right);
    } else {
      assert Entries(t) == [] && Refs([]) == {} by { LeafRefs(t); }
    }
  }

  lemma LeafRefs(t: Tree)
    requires t.Leaf?
    ensures Entries(t) == [] && Refs([]) == {}
  {
  }

  /** What the loop reads: the key and the children of the current node. */
  lemma CurrentNode(nodes: seq<NodeRecord>, dummy: nat, n: int, s: Split)
    requires Splaying(nodes, dummy, n, s) && s.current.Node?
    ensures 0 <= n < |nodes| && n == s.current.item.ref && nodes[n].key == s.current.item.key
    ensures nodes[n].left == NULL <==> s.current.left.Leaf?
    ensures nodes[n].right == NULL <==> s.current.right.Leaf?
    ensures s.current.left.Node? ==> 0 <= nodes[n].left < |nodes| && nodes[nodes[n].left].key == s.current.left.item.key
    ensures s.current.right.Node? ==>
      0 <= nodes[n].right < |nodes| && nodes[nodes[n].right].key == s.current.right.item.key
  {
    var t := s.current;
    assert Shape(nodes, nodes[t.item.ref].left, t.left) && Shape(nodes, nodes[t.item.ref].right, t.right);
    LeafIsNull(nodes, nodes[t.item.ref].left, t.left);
    LeafIsNull(nodes, nodes[t.item.ref].right, t.right);
  }

  /** Only nodes of the tree and the dummy node are written to. */
  lemma TailKept(nodes: seq<NodeRecord>, dummy: nat, n: nat, s: Split)
    requires Splaying(nodes, dummy, n, s) && s.current.Node?
    ensures n in Refs(AllEntries(s)) && n != Tail(dummy, s.ls) && n != Tail(dummy, s.rs)
    ensures Tail(dummy, s.ls) == dummy || Tail(dummy, s.ls) in Refs(AllEntries(s))
    ensures Tail(dummy, s.rs) == dummy || Tail(dummy, s.rs) in Refs(AllEntries(s))
  {
    hide Refs, Distinct, Entries;
    Parts(s);
    TreeRefs(s.current);
    TailInSpine(dummy, s.ls);
    TailInSpine(dummy, s.rs);
  }

  lemma RotateRightStep(nodes: seq<NodeRecord>, dummy: nat, n: nat, s: Split)
    requires Splaying(nodes, dummy, n, s) && s.current.Node? && s.current.left.Node?
    ensures n < |nodes| && 0 <= nodes[n].left < |nodes| && n in Refs(AllEntries(s))
    ensures nodes[n].left in Refs(AllEntries(s))
    ensures AllEntries(s.(current := RotateRight(s.current))) == AllEntries(s)
    ensures var tmp := nodes[n].left;
      Splaying(nodes[n := nodes[n].(left := nodes[tmp].right)][tmp := nodes[tmp].(right := n)], dummy, tmp,
               s.(current := RotateRight(s.current)))
  {
    hide Refs, Distinct;
    Parts(s);
    TreeRefs(s.current);
    TreeRefs(s.current.left);
    RotatedRight(nodes, n, s.current);
    RotateEntries(s.current);
    hide Entries, Spine;
    var tmp := nodes[n].left;
    var nodes' := nodes[n := nodes[n].(left := nodes[tmp].right)][tmp := nodes[tmp].(right := n)];
    SpinesKept(nodes, nodes', dummy, n, s, tmp, RotateRight(s.current));
  }

  lemma RotateLeftStep(nodes: seq<NodeRecord>, dummy: nat, n: nat, s: Split)
    requires Splaying(nodes, dummy, n, s) && s.current.Node? && s.current.right.Node?
    ensures n < |nodes| && 0 <= nodes[n].right < |nodes| && n in Refs(AllEntries(s))
    ensures nodes[n].right in Refs(AllEntries(s))
    ensures AllEntries(s.(current := RotateLeft(s.current))) == AllEntries(s)
    ensures var tmp := nodes[n].right;
      Splaying(nodes[n := nodes[n].(right := nodes[tmp].left)][tmp := nodes[tmp].(left := n)], dummy, tmp,
               s.(current := RotateLeft(s.current)))
  {
    hide Refs, Distinct;
    Parts(s);
    TreeRefs(s.current);
    TreeRefs(s.current.right);
    RotatedLeft(nodes, n, s.current);
    RotateEntries(s.current);
    hide Entries, Spine;
    var tmp := nodes[n].right;
    var nodes' := nodes[n := nodes[n].(right := nodes[tmp].left)][tmp := nodes[tmp].(left := n)];
    SpinesKept(nodes, nodes', dummy, n, s, tmp, RotateLeft(s.current));
  }
}
