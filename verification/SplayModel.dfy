/**
 Top-down splaying and the operations built on it, on trees as values.
 */
module SplayModel {
  import opened Wrappers

  type Value = int

  datatype Entry = Entry(ref: nat, key: real, value: Value)

  datatype Tree = Leaf | Node(item: Entry, left: Tree, right: Tree)

  /** A node of the left or right tree under construction, with the subtree that stays attached to it. */
  datatype Link = Link(item: Entry, sub: Tree)

  ghost function Entries(t: Tree): seq<Entry> {
    if t.Leaf? then [] else Entries(t.left) + [t.item] + Entries(t.right)
  }

  /** The left tree: its nodes run down the right spine, and `bottom` hangs below the last of them. */
  ghost function LeftTree(ls: seq<Link>, bottom: Tree): Tree {
    if ls == [] then bottom else Node(ls[0].item, ls[0].sub, LeftTree(ls[1..], bottom))
  }

  /** The right tree: its nodes run down the left spine. */
  ghost function RightTree(rs: seq<Link>, bottom: Tree): Tree {
    if rs == [] then bottom else Node(rs[0].item, RightTree(rs[1..], bottom), rs[0].sub)
  }

  datatype Split = Split(current: Tree, ls: seq<Link>, rs: seq<Link>)

  ghost function RotateRight(t: Tree): Tree
    requires t.Node? && t.left.Node?
  {
    Node(t.left.item, t.left.left, Node(t.item, t.left.right, t.right))
  }

  ghost function RotateLeft(t: Tree): Tree
    requires t.Node? && t.right.Node?
  {
    Node(t.right.item, Node(t.item, t.left, t.right.left), t.right.right)
  }

  /** The loop of `splay_`. */
  ghost function Descend(t: Tree, key: real, ls: seq<Link>, rs: seq<Link>): (r: Split)
    requires t.Node?
    ensures r.current.Node?
    decreases t
  {
    if key < t.item.key then
      if t.left.Leaf? then Split(t, ls, rs)
      else
        var c := if key < t.left.item.key then RotateRight(t) else t;
        if c.left.Leaf? then Split(c, ls, rs)
        else Descend(c.left, key, ls, rs + [Link(c.item, c.right)])
    else if key > t.item.key then
      if t.right.Leaf? then Split(t, ls, rs)
      else
        var c := if key > t.right.item.key then RotateLeft(t) else t;
        if c.right.Leaf? then Split(c, ls, rs)
        else Descend(c.right, key, ls + [Link(c.item, c.left)], rs)
    else Split(t, ls, rs)
  }

  ghost function Assemble(s: Split): Tree
    requires s.current.Node?
  {
    Node(s.current.item, LeftTree(s.ls, s.current.left), RightTree(s.rs, s.current.right))
  }

  ghost function Splay(t: Tree, key: real): Tree {
    if t.Leaf? then t else Assemble(Descend(t, key, [], []))
  }

  // ----- the entries and their order survive -----

  ghost function LeftEntries(ls: seq<Link>): seq<Entry> {
    if ls == [] then [] else Entries(ls[0].sub) + [ls[0].item] + LeftEntries(ls[1..])
  }

  ghost function RightEntries(rs: seq<Link>): seq<Entry> {
    if rs == [] then [] else RightEntries(rs[1..]) + [rs[0].item] + Entries(rs[0].sub)
  }

  lemma {:induction false} LeftTreeEntries(ls: seq<Link>, bottom: Tree)
    ensures Entries(LeftTree(ls, bottom)) == LeftEntries(ls) + Entries(bottom)
  {
    hide Entries;
    if ls == [] {
      assert LeftEntries(ls) + Entries(bottom) == Entries(bottom);
    } else {
      LeftTreeEntries(ls[1..], bottom);
      EntriesNode(ls[0].item, ls[0].sub, LeftTree(ls[1..], bottom));
      Regroup(Entries(ls[0].sub) + [ls[0].item], LeftEntries(ls[1..]), Entries(bottom));
    }
  }

  lemma EntriesNode(item: Entry, left: Tree, right: Tree)
    ensures Entries(Node(item, left, right)) == Entries(left) + [item] + Entries(right)
  {
  }

  lemma Regroup(a: seq<Entry>, b: seq<Entry>, c: seq<Entry>)
    ensures a + (b + c) == (a + b) + c
  {
  }

  lemma {:induction false} RightTreeEntries(rs: seq<Link>, bottom: Tree)
    ensures Entries(RightTree(rs, bottom)) == Entries(bottom) + RightEntries(rs)
  {
    hide Entries;
    if rs == [] {
      assert Entries(bottom) + RightEntries(rs) == Entries(bottom);
    } else {
      RightTreeEntries(rs[1..], bottom);
      EntriesNode(rs[0].item, RightTree(rs[1..], bottom), rs[0].sub);
      Regroup(Entries(bottom), RightEntries(rs[1..]), [rs[0].item]);
      Regroup(Entries(bottom), RightEntries(rs[1..]) + [rs[0].item], Entries(rs[0].sub));
    }
  }

  lemma {:induction false} LeftEntriesAppend(ls: seq<Link>, l: Link)
    ensures LeftEntries(ls + [l]) == LeftEntries(ls) + Entries(l.sub) + [l.item]
  {
    if ls != [] {
      assert (ls + [l])[1..] == ls[1..] + [l];
      LeftEntriesAppend(ls[1..], l);
    } else {
      assert LeftEntries([l][1..]) == [];
    }
  }

  lemma {:induction false} RightEntriesAppend(rs: seq<Link>, r: Link)
    ensures RightEntries(rs + [r]) == [r.item] + Entries(r.sub) + RightEntries(rs)
  {
    if rs != [] {
      assert (rs + [r])[1..] == rs[1..] + [r];
      RightEntriesAppend(rs[1..], r);
    } else {
      assert RightEntries([r][1..]) == [];
    }
  }

  ghost function AllEntries(s: Split): seq<Entry> {
    LeftEntries(s.ls) + Entries(s.current) + RightEntries(s.rs)
  }

  lemma RotateEntries(t: Tree)
    requires t.Node?
    ensures t.left.Node? ==> Entries(RotateRight(t)) == Entries(t)
    ensures t.right.Node? ==> Entries(RotateLeft(t)) == Entries(t)
  {
    hide Entries;
    EntriesNode(t.item, t.left, t.right);
    if t.left.Node? {
      RotateAround(t.left.left, t.left.item, t.left.right, t.item, t.right);
    }
    if t.right.Node? {
      RotateAround(t.left, t.item, t.right.left, t.right.item, t.right.right);
    }
  }

  lemma RotateAround(a: Tree, x: Entry, b: Tree, y: Entry, c: Tree)
    ensures Entries(Node(x, a, Node(y, b, c))) == Entries(Node(y, Node(x, a, b), c))
  {
    hide Entries;
    EntriesNode(x, a, Node(y, b, c));
    EntriesNode(y, b, c);
    EntriesNode(y, Node(x, a, b), c);
    EntriesNode(x, a, b);
    var p, q, r := Entries(a) + [x], Entries(b), Entries(c);
    assert p + (q + [y] + r) == (p + q) + [y] + r;
  }

  /** Moving the current node to the right tree, or to the left tree, keeps the entries in order. */
  lemma LinkRightEntries(c: Tree, ls: seq<Link>, rs: seq<Link>)
    requires c.Node?
    ensures AllEntries(Split(c.left, ls, rs + [Link(c.item, c.right)])) == AllEntries(Split(c, ls, rs))
  {
    RightEntriesAppend(rs, Link(c.item, c.right));
    hide LeftEntries, RightEntries;
  }

  lemma LinkLeftEntries(c: Tree, ls: seq<Link>, rs: seq<Link>)
    requires c.Node?
    ensures AllEntries(Split(c.right, ls + [Link(c.item, c.left)], rs)) == AllEntries(Split(c, ls, rs))
  {
    LeftEntriesAppend(ls, Link(c.item, c.left));
    hide LeftEntries, RightEntries;
  }

  lemma {:induction false} DescendKeepsEntries(t: Tree, key: real, ls: seq<Link>, rs: seq<Link>)
    requires t.Node?
    ensures AllEntries(Descend(t, key, ls, rs)) == AllEntries(Split(t, ls, rs))
    decreases t
  {
    RotateEntries(t);
    if key < t.item.key && t.left.Node? {
      var c := if key < t.left.item.key then RotateRight(t) else t;
      if c.left.Node? {
        LinkRightEntries(c, ls, rs);
        DescendKeepsEntries(c.left, key, ls, rs + [Link(c.item, c.right)]);
      }
    } else if key > t.item.key && t.right.Node? {
      var c := if key > t.right.item.key then RotateLeft(t) else t;
      if c.right.Node? {
        LinkLeftEntries(c, ls, rs);
        DescendKeepsEntries(c.right, key, ls + [Link(c.item, c.left)], rs);
      }
    }
  }

  lemma AssembleEntries(s: Split)
    requires s.current.Node?
    ensures Entries(Assemble(s)) == AllEntries(s)
  {
    hide Entries, LeftEntries, RightEntries;
    var c := s.current;
    LeftTreeEntries(s.ls, c.left);
    RightTreeEntries(s.rs, c.right);
    EntriesNode(c.item, LeftTree(s.ls, c.left), RightTree(s.rs, c.right));
    EntriesNode(c.item, c.left, c.right);
    var a, l, r, b := LeftEntries(s.ls), Entries(c.left), Entries(c.right), RightEntries(s.rs);
    assert (a + l) + [c.item] + (r + b) == a + (l + [c.item] + r) + b;
  }

  /** Splaying keeps the nodes and their in-order sequence. */
  lemma SplayKeepsEntries(t: Tree, key: real)
    ensures Entries(Splay(t, key)) == Entries(t)
  {
    if t.Node? {
      DescendKeepsEntries(t, key, [], []);
      AssembleEntries(Descend(t, key, [], []));
    }
  }

  // ----- the root separates the keys -----

  ghost predicate Sorted(es: seq<Entry>) {
    forall i, j :: 0 <= i < j < |es| ==> es[i].key < es[j].key
  }

  ghost predicate Below(es: seq<Entry>, key: real) {
    forall i :: 0 <= i < |es| ==> es[i].key < key
  }

  ghost predicate Above(es: seq<Entry>, key: real) {
    forall i :: 0 <= i < |es| ==> es[i].key > key
  }

  ghost predicate HasKey(es: seq<Entry>, key: real) {
    exists i :: 0 <= i < |es| && es[i].key == key
  }

  lemma SortedAround(a: seq<Entry>, x: Entry, b: seq<Entry>)
    requires Sorted(a + [x] + b)
    ensures Sorted(a) && Sorted(b) && Below(a, x.key) && Above(b, x.key)
  {
    var es := a + [x] + b;
    assert forall i :: 0 <= i < |a| ==> es[i] == a[i];
    assert es[|a|] == x;
    forall i | 0 <= i < |b|
      ensures b[i].key > x.key
    {
      assert es[|a| + 1 + i] == b[i];
    }
    forall i, j | 0 <= i < j < |b|
      ensures b[i].key < b[j].key
    {
      assert es[|a| + 1 + i] == b[i] && es[|a| + 1 + j] == b[j];
    }
  }

  lemma SortedJoin(a: seq<Entry>, x: Entry, b: seq<Entry>)
    requires Sorted(a) && Sorted(b) && Below(a, x.key) && Above(b, x.key)
    ensures Sorted(a + [x] + b)
  {
    var es := a + [x] + b;
    forall i, j | 0 <= i < j < |es|
      ensures es[i].key < es[j].key
    {
      if i < |a| {
        assert es[i] == a[i] && a[i].key < x.key;
      }
      if j > |a| {
        assert es[j] == b[j - |a| - 1] && b[j - |a| - 1].key > x.key;
      }
    }
  }

  /** What the loop of `splay_` keeps: the left tree is below the key and the right tree above it; when it
      stops, so are the subtrees of the current node. */
  lemma {:induction false} DescendSplits(t: Tree, key: real, ls: seq<Link>, rs: seq<Link>)
    requires t.Node? && Sorted(Entries(t)) && Below(LeftEntries(ls), key) && Above(RightEntries(rs), key)
    ensures var r := Descend(t, key, ls, rs);
      && Below(LeftEntries(r.ls), key) && Above(RightEntries(r.rs), key)
      && Below(Entries(r.current.left), key) && Above(Entries(r.current.right), key)
    decreases t
  {
    hide LeftEntries, RightEntries;
    RotateEntries(t);
    SortedAround(Entries(t.left), t.item, Entries(t.right));
    if key < t.item.key && t.left.Node? {
      var c := if key < t.left.item.key then RotateRight(t) else t;
      SortedAround(Entries(c.left), c.item, Entries(c.right));
      if c.left.Node? {
        RightEntriesAppend(rs, Link(c.item, c.right));
        DescendSplits(c.left, key, ls, rs + [Link(c.item, c.right)]);
      }
    } else if key > t.item.key && t.right.Node? {
      var c := if key > t.right.item.key then RotateLeft(t) else t;
      SortedAround(Entries(c.left), c.item, Entries(c.right));
      if c.right.Node? {
        LeftEntriesAppend(ls, Link(c.item, c.left));
        DescendSplits(c.right, key, ls + [Link(c.item, c.left)], rs);
      }
    }
  }

  /** After splaying, every key to the left of the root is smaller than `key` and every key to the right is
      greater; so the key is in the tree iff it is at the root. */
  lemma SplaySplits(t: Tree, key: real)
    requires t.Node? && Sorted(Entries(t))
    ensures var r := Splay(t, key);
      && r.Node? && Entries(r) == Entries(t)
      && Below(Entries(r.left), key) && Above(Entries(r.right), key)
      && (HasKey(Entries(t), key) <==> r.item.key == key)
  {
    hide LeftEntries, RightEntries, Descend, LeftTree, RightTree;
    SplayKeepsEntries(t, key);
    var d := Descend(t, key, [], []);
    NoLinks();
    DescendSplits(t, key, [], []);
    LeftTreeEntries(d.ls, d.current.left);
    RightTreeEntries(d.rs, d.current.right);
    KeyAtRoot(Splay(t, key), key);
  }

  lemma NoLinks()
    ensures LeftEntries([]) == [] && RightEntries([]) == []
  {
  }

  lemma KeyAtRoot(t: Tree, key: real)
    requires t.Node? && Below(Entries(t.left), key) && Above(Entries(t.right), key)
    ensures HasKey(Entries(t), key) <==> t.item.key == key
  {
    var es := Entries(t.left) + [t.item] + Entries(t.right);
    assert es[|Entries(t.left)|] == t.item;
  }

  // ----- the ordered map -----

  ghost function Insert(t: Tree, item: Entry): Tree {
    if t.Leaf? then Node(item, Leaf, Leaf)
    else
      var r := Splay(t, item.key);
      if r.Leaf? || r.item.key == item.key then r
      else if item.key > r.item.key then Node(item, r.(right := Leaf), r.right)
      else Node(item, r.left, r.(left := Leaf))
  }

  /** The tree without the key at its root; the second splay makes room for the right subtree. */
  ghost function RemoveRoot(r: Tree, key: real): Tree
    requires r.Node?
  {
    if r.left.Leaf? then r.right
    else
      var l := Splay(r.left, key);
      if l.Leaf? then l else l.(right := r.right)
  }

  ghost function Max(t: Tree): Entry
    requires t.Node?
  {
    if t.right.Leaf? then t.item else Max(t.right)
  }

  ghost function GreatestLessThan(r: Tree, key: real): Option<Entry> {
    if r.Leaf? then None
    else if r.item.key < key then Some(r.item)
    else if r.left.Node? then Some(Max(r.left))
    else None
  }

  lemma SortedConcat(a: seq<Entry>, key: real, b: seq<Entry>)
    requires Sorted(a) && Sorted(b) && Below(a, key) && Above(b, key)
    ensures Sorted(a + b)
  {
    forall i, j | 0 <= i < j < |a + b|
      ensures (a + b)[i].key < (a + b)[j].key
    {
      if i < |a| <= j {
        assert (a + b)[i] == a[i] && (a + b)[j] == b[j - |a|];
      }
    }
  }

  lemma SortedPieces(a: seq<Entry>, b: seq<Entry>)
    requires Sorted(a + b)
    ensures Sorted(a) && Sorted(b)
  {
    assert forall i :: 0 <= i < |a| ==> (a + b)[i] == a[i];
    forall i, j | 0 <= i < j < |b|
      ensures b[i].key < b[j].key
    {
      assert (a + b)[|a| + i] == b[i] && (a + b)[|a| + j] == b[j];
    }
  }

  /** Inserting adds the entry at its place in the order, unless the key is there already. */
  lemma InsertEntries(t: Tree, item: Entry) returns (a: seq<Entry>, b: seq<Entry>)
    requires Sorted(Entries(t))
    ensures Sorted(Entries(Insert(t, item)))
    ensures HasKey(Entries(t), item.key) ==> Entries(Insert(t, item)) == Entries(t)
    ensures !HasKey(Entries(t), item.key) ==>
      Entries(t) == a + b && Below(a, item.key) && Above(b, item.key) && Entries(Insert(t, item)) == a + [item] + b
  {
    hide Splay, Sorted;
    a, b := [], [];
    if t.Leaf? {
      SortedJoin([], item, []);
    } else {
      var r := Splay(t, item.key);
      SplaySplits(t, item.key);
      if r.item.key != item.key {
        a, b := InsertAtRoot(r, item);
      }
    }
  }

  lemma InsertAtRoot(r: Tree, item: Entry) returns (a: seq<Entry>, b: seq<Entry>)
    requires r.Node? && Sorted(Entries(r)) && r.item.key != item.key
    requires Below(Entries(r.left), item.key) && Above(Entries(r.right), item.key)
    ensures var t := if item.key > r.item.key then Node(item, r.(right := Leaf), r.right)
                     else Node(item, r.left, r.(left := Leaf));
      Entries(t) == a + [item] + b && Sorted(Entries(t))
    ensures Entries(r) == a + b && Below(a, item.key) && Above(b, item.key)
  {
    hide Sorted;
    var l, m, g := Entries(r.left), [r.item], Entries(r.right);
    if item.key > r.item.key {
      a, b := l + m, g;
      assert Entries(r.(right := Leaf)) == l + m + [];
    } else {
      a, b := l, m + g;
      assert Entries(r.(left := Leaf)) == [] + m + g;
      assert l + m + g == l + (m + g);
    }
    SortedPieces(a, b);
    SortedJoin(a, item, b);
  }

  /** The second splay of `remove` leaves an empty right child. */
  lemma NothingAbove(t: Tree, key: real)
    requires t.Node? && Sorted(Entries(t)) && Below(Entries(t), key)
    ensures Splay(t, key).Node? && Splay(t, key).right.Leaf? && Entries(Splay(t, key)) == Entries(t)
  {
    hide Splay, Sorted, Below, Above;
    SplaySplits(t, key);
    var r := Splay(t, key);
    BelowEnd(Entries(r.left), r.item, Entries(r.right), key);
    NotBelowAndAbove(Entries(r.right), key);
  }

  lemma BelowEnd(a: seq<Entry>, x: Entry, b: seq<Entry>, key: real)
    requires Below(a + [x] + b, key)
    ensures Below(b, key)
  {
    assert forall i :: 0 <= i < |b| ==> b[i] == (a + [x] + b)[|a| + 1 + i];
  }

  lemma NotBelowAndAbove(es: seq<Entry>, key: real)
    ensures es != [] ==> !(Below(es, key) && Above(es, key))
  {
    assert es != [] && Below(es, key) ==> es[0].key < key;
  }

  lemma RemoveEntries(r: Tree, key: real)
    requires r.Node? && Sorted(Entries(r)) && r.item.key == key
    ensures Entries(RemoveRoot(r, key)) == Entries(r.left) + Entries(r.right)
    ensures Sorted(Entries(RemoveRoot(r, key)))
  {
    hide Splay, Sorted, Below, Above;
    var a, b := Entries(r.left), Entries(r.right);
    SortedAround(a, r.item, b);
    if r.left.Node? {
      NothingAbove(r.left, key);
      var l := Splay(r.left, key);
      assert Entries(l) == Entries(l.left) + [l.item] + [];
    }
    SortedConcat(a, key, b);
  }

  lemma {:induction false} MaxIsLast(t: Tree)
    requires t.Node?
    ensures Entries(t) != [] && Max(t) == Entries(t)[|Entries(t)| - 1]
  {
    if t.right.Node? {
      MaxIsLast(t.right);
    }
  }

  // ----- every sequence of calls refines a finite ordered map -----

  ghost function MapOf(es: seq<Entry>): map<real, Value> {
    if es == [] then map[] else MapOf(es[1..])[es[0].key := es[0].value]
  }

  lemma {:induction false} MapOfKeys(es: seq<Entry>, key: real)
    ensures key in MapOf(es) <==> HasKey(es, key)
  {
    if es != [] {
      MapOfKeys(es[1..], key);
      if HasKey(es[1..], key) {
        var i :| 0 <= i < |es[1..]| && es[1..][i].key == key;
        assert es[i + 1].key == key;
      }
      if HasKey(es, key) && es[0].key != key {
        var i :| 0 <= i < |es| && es[i].key == key;
        assert es[1..][i - 1].key == key;
      }
    }
  }

  lemma {:induction false} MapOfValue(es: seq<Entry>, i: nat)
    requires Sorted(es) && i < |es|
    ensures es[i].key in MapOf(es) && MapOf(es)[es[i].key] == es[i].value
  {
    if i > 0 {
      assert es[1..][i - 1] == es[i];
      MapOfValue(es[1..], i - 1);
    }
  }

  /** Two sorted sequences with the same keys and values stand for the same map. */
  lemma {:induction false} MapOfConcat(a: seq<Entry>, b: seq<Entry>)
    requires Sorted(a + b)
    ensures MapOf(a + b) == MapOf(b) + MapOf(a)
  {
    if a != [] {
      assert (a + b)[1..] == a[1..] + b;
      MapOfConcat(a[1..], b);
    } else {
      assert a + b == b;
    }
  }

  lemma MapOfInsert(a: seq<Entry>, item: Entry, b: seq<Entry>)
    requires Sorted(a + [item] + b) && Sorted(a + b)
    ensures MapOf(a + [item] + b) == MapOf(a + b)[item.key := item.value]
    ensures item.key !in MapOf(a + b) && MapOf(a + b) == MapOf(a + [item] + b) - {item.key}
  {
    hide Sorted;
    assert a + [item] + b == a + ([item] + b);
    MapOfConcat(a, [item] + b);
    assert ([item] + b)[1..] == b;
    MapOfConcat(a, b);
    SortedAround(a, item, b);
    MapOfKeys(a, item.key);
    MapOfKeys(b, item.key);
  }

  datatype Op = InsertOp(item: Entry) | RemoveOp(key: real) | FindOp(key: real) | GreatestOp(key: real) | ExportOp

  datatype Answer = Nothing | Missing | NotFound | Found(key: real, value: Value) | Keys(keys: seq<real>)

  ghost function KeysOf(es: seq<Entry>): seq<real> {
    seq(|es|, i requires 0 <= i < |es| => es[i].key)
  }

  ghost function Answered(item: Option<Entry>): Answer {
    if item.Some? then Found(item.value.key, item.value.value) else NotFound
  }

  /** What a call does to the tree and what it answers; `remove` throws when the key is missing. */
  ghost function Apply(t: Tree, op: Op): (Tree, Answer) {
    match op
    case InsertOp(item) => (Insert(t, item), Nothing)
    case RemoveOp(key) =>
      var r := Splay(t, key);
      if r.Leaf? || r.item.key != key then (r, Missing)
      else (RemoveRoot(r, key), Found(key, r.item.value))
    case FindOp(key) =>
      var r := Splay(t, key);
      (r, if r.Node? && r.item.key == key then Found(key, r.item.value) else NotFound)
    case GreatestOp(key) =>
      var r := Splay(t, key);
      (r, Answered(GreatestLessThan(r, key)))
    case ExportOp => (t, Keys(KeysOf(Entries(t))))
  }

  ghost predicate IsGreatestBelow(m: map<real, Value>, key: real, answer: Answer) {
    if answer.Found? then
      && answer.key in m && answer.key < key && m[answer.key] == answer.value
      && forall k :: k in m && k < key ==> k <= answer.key
    else answer == NotFound && forall k :: k in m ==> !(k < key)
  }

  ghost predicate IsSortedDomain(m: map<real, Value>, keys: seq<real>) {
    && (forall i, j :: 0 <= i < j < |keys| ==> keys[i] < keys[j])
    && (forall k :: k in keys <==> k in m)
  }

  /** What a finite ordered map does. */
  ghost predicate Allowed(m: map<real, Value>, op: Op, m': map<real, Value>, answer: Answer) {
    match op
    case InsertOp(item) => answer == Nothing && m' == if item.key in m then m else m[item.key := item.value]
    case RemoveOp(key) => m' == m - {key} && answer == if key in m then Found(key, m[key]) else Missing
    case FindOp(key) => m' == m && answer == if key in m then Found(key, m[key]) else NotFound
    case GreatestOp(key) => m' == m && IsGreatestBelow(m, key, answer)
    case ExportOp => m' == m && answer.Keys? && IsSortedDomain(m, answer.keys)
  }

  lemma RootValue(r: Tree, key: real)
    requires r.Node? && Sorted(Entries(r)) && r.item.key == key
    ensures key in MapOf(Entries(r)) && MapOf(Entries(r))[key] == r.item.value
  {
    var es := Entries(r.left) + [r.item] + Entries(r.right);
    assert es[|Entries(r.left)|] == r.item;
    MapOfValue(es, |Entries(r.left)|);
  }

  lemma InsertRefines(t: Tree, item: Entry)
    requires Sorted(Entries(t))
    ensures Sorted(Entries(Insert(t, item)))
    ensures Allowed(MapOf(Entries(t)), InsertOp(item), MapOf(Entries(Insert(t, item))), Nothing)
  {
    hide Insert, Sorted;
    MapOfKeys(Entries(t), item.key);
    var a, b := InsertEntries(t, item);
    if !HasKey(Entries(t), item.key) {
      MapOfInsert(a, item, b);
    }
  }

  lemma SplayedRoot(t: Tree, key: real)
    requires Sorted(Entries(t))
    ensures var r := Splay(t, key);
      && Entries(r) == Entries(t)
      && (key in MapOf(Entries(t)) <==> r.Node? && r.item.key == key)
      && (key in MapOf(Entries(t)) ==> MapOf(Entries(t))[key] == r.item.value)
  {
    hide Sorted, HasKey, MapOf;
    SplayKeepsEntries(t, key);
    MapOfKeys(Entries(t), key);
    NothingInLeaf(key);
    var r := Splay(t, key);
    if t.Node? {
      SplaySplits(t, key);
      if r.item.key == key {
        RootValue(r, key);
      }
    }
  }

  lemma NothingInLeaf(key: real)
    ensures !HasKey(Entries(Leaf), key)
  {
  }

  lemma RemoveRefines(t: Tree, key: real)
    requires Sorted(Entries(t))
    ensures var (t', answer) := Apply(t, RemoveOp(key));
      Sorted(Entries(t')) && Allowed(MapOf(Entries(t)), RemoveOp(key), MapOf(Entries(t')), answer)
  {
    hide Sorted, Splay, RemoveRoot;
    SplayedRoot(t, key);
    var r := Splay(t, key);
    if r.Node? && r.item.key == key {
      RemoveEntries(r, key);
      MapOfInsert(Entries(r.left), r.item, Entries(r.right));
    }
  }

  /** In a sorted sequence split at `n` into keys below and keys not below `key`, the last key before `n` is
      the greatest below `key`. */
  lemma LastBelow(es: seq<Entry>, n: nat, key: real)
    requires Sorted(es) && n <= |es| && Below(es[..n], key)
    requires forall i :: n <= i < |es| ==> es[i].key >= key
    ensures IsGreatestBelow(MapOf(es), key, Answered(if n == 0 then None else Some(es[n - 1])))
  {
    if n > 0 {
      MapOfValue(es, n - 1);
      assert es[..n][n - 1].key < key;
    }
    forall k | k in MapOf(es) && k < key
      ensures n > 0 && k <= es[n - 1].key
    {
      MapOfKeys(es, k);
      var i :| 0 <= i < |es| && es[i].key == k;
    }
  }

  lemma GreatestRefines(t: Tree, key: real)
    requires Sorted(Entries(t))
    ensures IsGreatestBelow(MapOf(Entries(t)), key, Answered(GreatestLessThan(Splay(t, key), key)))
  {
    hide MapOf, Sorted, IsGreatestBelow, Splay, Entries;
    var r := Splay(t, key);
    if t.Node? {
      SplaySplits(t, key);
      SplayKeepsEntries(t, key);
      EntriesNode(r.item, r.left, r.right);
      GreatestOfRoot(r, key);
    } else {
      SplayKeepsEntries(t, key);
      EmptyRefines(t, key);
    }
  }

  /** In a splayed tree the answer is the root or the last entry to its left. */
  lemma GreatestOfRoot(r: Tree, key: real)
    requires r.Node? && Sorted(Entries(r)) && Below(Entries(r.left), key) && Above(Entries(r.right), key)
    ensures IsGreatestBelow(MapOf(Entries(r)), key, Answered(GreatestLessThan(r, key)))
  {
    hide MapOf, Sorted, IsGreatestBelow, Entries;
    var a, b, es := Entries(r.left), Entries(r.right), Entries(r);
    EntriesNode(r.item, r.left, r.right);
    SortedAround(a, r.item, b);
    assert es[..|a|] == a && es[..|a| + 1] == a + [r.item] && es[|a|] == r.item;
    assert forall i :: |a| < i < |es| ==> es[i] == b[i - |a| - 1];
    if r.item.key < key {
      LastBelow(es, |a| + 1, key);
    } else {
      LastBelow(es, |a|, key);
      if r.left.Node? {
        MaxIsLast(r.left);
      } else {
        NothingInLeafTree(r.left);
      }
    }
  }

  lemma NothingInLeafTree(t: Tree)
    requires t.Leaf?
    ensures Entries(t) == []
  {
  }

  lemma EmptyRefines(t: Tree, key: real)
    requires t.Leaf?
    ensures Splay(t, key).Leaf? && IsGreatestBelow(MapOf(Entries(t)), key, NotFound)
  {
  }

  lemma ExportRefines(es: seq<Entry>)
    requires Sorted(es)
    ensures IsSortedDomain(MapOf(es), KeysOf(es))
  {
    forall k
      ensures k in KeysOf(es) <==> k in MapOf(es)
    {
      MapOfKeys(es, k);
      if HasKey(es, k) {
        var i :| 0 <= i < |es| && es[i].key == k;
        assert KeysOf(es)[i] == k;
      }
    }
  }

  /** One call on a sorted tree: the tree stays sorted and the map behind it does what it should. */
  lemma CallRefines(t: Tree, op: Op)
    requires Sorted(Entries(t))
    ensures var (t', answer) := Apply(t, op);
      Sorted(Entries(t')) && Allowed(MapOf(Entries(t)), op, MapOf(Entries(t')), answer)
  {
    hide Sorted, MapOf, Insert, Splay, IsGreatestBelow, IsSortedDomain, GreatestLessThan, KeysOf;
    match op
    case InsertOp(item) => InsertRefines(t, item);
    case RemoveOp(key) => RemoveRefines(t, key);
    case FindOp(key) => SplayedRoot(t, key);
    case GreatestOp(key) =>
      SplayKeepsEntries(t, key);
      GreatestRefines(t, key);
    case ExportOp => ExportRefines(Entries(t));
  }

  /** The tree after a sequence of calls, and the answers. */
  ghost function Calls(t: Tree, ops: seq<Op>): (Tree, seq<Answer>)
    decreases |ops|
  {
    if ops == [] then (t, [])
    else
      var (t', answer) := Apply(t, ops[0]);
      var (t'', answers) := Calls(t', ops[1..]);
      (t'', [answer] + answers)
  }

  /** A finite ordered map could have given the answers of a sequence of calls and ended up as `m'`. */
  ghost predicate MapAllows(m: map<real, Value>, ops: seq<Op>, answers: seq<Answer>, m': map<real, Value>)
    decreases |ops|
  {
    if ops == [] then answers == [] && m' == m
    else
      && answers != []
      && exists next :: Allowed(m, ops[0], next, answers[0]) && MapAllows(next, ops[1..], answers[1..], m')
  }

  /** Every sequence of calls, from any sorted tree and in particular from the empty one. */
  lemma {:induction false} CallsRefine(t: Tree, ops: seq<Op>)
    requires Sorted(Entries(t))
    ensures var (t', answers) := Calls(t, ops);
      Sorted(Entries(t')) && MapAllows(MapOf(Entries(t)), ops, answers, MapOf(Entries(t')))
    decreases |ops|
  {
    hide Sorted, MapOf, Apply, Allowed;
    if ops != [] {
      CallRefines(t, ops[0]);
      var (t', answer) := Apply(t, ops[0]);
      CallsRefine(t', ops[1..]);
      var (t'', answers) := Calls(t', ops[1..]);
      assert ([answer] + answers)[1..] == answers;
      assert Allowed(MapOf(Entries(t)), ops[0], MapOf(Entries(t')), answer);
    }
  }
}
