/**
 The amortised cost of splaying.  The potential of a tree is the product of the weights of its nodes, so that its
 logarithm is the sum of their logarithms.
 */
module SplayCost {
  import opened Arithmetic
  import opened SplayModel
  import opened Bits
  import opened Exponentiation

  /** The number of leaves, which is one more than the number of nodes. */
  ghost function Weight(t: Tree): (w: nat)
    ensures w >= 1
  {
    if t.Leaf? then 1 else Weight(t.left) + Weight(t.right)
  }

  ghost function Potential(t: Tree): (p: nat)
    ensures p >= 1
  {
    if t.Leaf? then 1 else Positive(Weight(t), Positive(Potential(t.left), Potential(t.right)))
  }

  ghost function Positive(a: nat, b: nat): (p: nat)
    ensures a >= 1 && b >= 1 ==> p >= 1
  {
    a * b
  }

  /** How often the loop of `splay_` is run through. */
  ghost function Turns(t: Tree, key: real): nat
    decreases t
  {
    if t.Leaf? then 0
    else if key < t.item.key && t.left.Node? then
      if key < t.left.item.key then 1 + Turns(t.left.left, key) else 1 + Turns(t.left, key)
    else if key > t.item.key && t.right.Node? then
      if key > t.right.item.key then 1 + Turns(t.right.right, key) else 1 + Turns(t.right, key)
    else 1
  }

  // ----- splaying as a recursive function -----

  lemma {:induction false} DescendAppends(t: Tree, key: real, ls: seq<Link>, rs: seq<Link>)
    requires t.Node?
    ensures var d := Descend(t, key, [], []); Descend(t, key, ls, rs) == Split(d.current, ls + d.ls, rs + d.rs)
    decreases t
  {
    if key < t.item.key && t.left.Node? {
      var c := if key < t.left.item.key then RotateRight(t) else t;
      if c.left.Node? {
        var l := Link(c.item, c.right);
        DescendAppends(c.left, key, ls, rs + [l]);
        DescendAppends(c.left, key, [], [] + [l]);
      }
    } else if key > t.item.key && t.right.Node? {
      var c := if key > t.right.item.key then RotateLeft(t) else t;
      if c.right.Node? {
        var l := Link(c.item, c.left);
        DescendAppends(c.right, key, ls + [l], rs);
        DescendAppends(c.right, key, [] + [l], []);
      }
    }
  }

  /** A turn to the left puts the current node, after the rotation if there is one, on top of the right tree. */
  lemma TurnLeft(t: Tree, key: real)
    requires t.Node? && t.left.Node? && key < t.item.key
    ensures var c := if key < t.left.item.key then RotateRight(t) else t;
      if c.left.Leaf? then Splay(t, key) == c
      else
        var z := Splay(c.left, key);
        z.Node? && Splay(t, key) == Node(z.item, z.left, Node(c.item, z.right, c.right))
  {
    var c := if key < t.left.item.key then RotateRight(t) else t;
    if c.left.Node? {
      var l := Link(c.item, c.right);
      DescendAppends(c.left, key, [], [l]);
      var d := Descend(c.left, key, [], []);
      assert Descend(t, key, [], []) == Split(d.current, d.ls, [l] + d.rs) by { assert [] + [l] == [l]; }
      assert ([l] + d.rs)[1..] == d.rs;
    }
  }

  lemma TurnRight(t: Tree, key: real)
    requires t.Node? && t.right.Node? && key > t.item.key
    ensures var c := if key > t.right.item.key then RotateLeft(t) else t;
      if c.right.Leaf? then Splay(t, key) == c
      else
        var z := Splay(c.right, key);
        z.Node? && Splay(t, key) == Node(z.item, Node(c.item, c.left, z.left), z.right)
  {
    var c := if key > t.right.item.key then RotateLeft(t) else t;
    if c.right.Node? {
      var l := Link(c.item, c.left);
      DescendAppends(c.right, key, [l], []);
      var d := Descend(c.right, key, [], []);
      assert Descend(t, key, [], []) == Split(d.current, [l] + d.ls, d.rs) by { assert [] + [l] == [l]; }
      assert ([l] + d.ls)[1..] == d.ls;
    }
  }

  lemma NoTurn(t: Tree, key: real)
    requires t.Node? && (key < t.item.key ==> t.left.Leaf?) && (key > t.item.key ==> t.right.Leaf?)
    ensures Splay(t, key) == t
  {
  }

  // ----- left and right -----

  /** The mirror image, for the order of the negated keys. */
  ghost function Flip(t: Tree): (f: Tree)
    ensures f.Leaf? <==> t.Leaf?
  {
    if t.Leaf? then Leaf else Node(t.item.(key := -t.item.key), Flip(t.right), Flip(t.left))
  }

  lemma {:induction false} FlipKeeps(t: Tree)
    ensures Weight(Flip(t)) == Weight(t) && Potential(Flip(t)) == Potential(t)
  {
    if t.Node? {
      FlipKeeps(t.left);
      FlipKeeps(t.right);
    }
  }

  lemma {:induction false} FlipNode(item: Entry, l: Tree, r: Tree)
    ensures Flip(Node(item, l, r)) == Node(item.(key := -item.key), Flip(r), Flip(l))
  {
  }

  lemma {:induction false} FlipRotate(t: Tree)
    requires t.Node?
    ensures t.left.Node? ==> Flip(t).right.Node? && RotateLeft(Flip(t)) == Flip(RotateRight(t))
    ensures t.right.Node? ==> Flip(t).left.Node? && RotateRight(Flip(t)) == Flip(RotateLeft(t))
  {
    hide Flip;
    FlipNode(t.item, t.left, t.right);
    if t.left.Node? {
      FlipNode(t.left.item, t.left.left, t.left.right);
      FlipNode(t.item, t.left.right, t.right);
      FlipNode(t.left.item, t.left.left, Node(t.item, t.left.right, t.right));
    }
    if t.right.Node? {
      FlipNode(t.right.item, t.right.left, t.right.right);
      FlipNode(t.item, t.left, t.right.left);
      FlipNode(t.right.item, Node(t.item, t.left, t.right.left), t.right.right);
    }
  }

  lemma {:induction false} FlipSplay(t: Tree, key: real)
    ensures Splay(Flip(t), -key) == Flip(Splay(t, key)) && Turns(Flip(t), -key) == Turns(t, key)
    decreases t, 1
  {
    hide Splay;
    if t.Leaf? {
      SplayLeaf(key);
      SplayLeaf(-key);
    } else if key < t.item.key && t.left.Node? {
      FlipLeft(t, key);
    } else if key > t.item.key && t.right.Node? {
      FlipRight(t, key);
    } else {
      NoTurn(t, key);
      NoTurn(Flip(t), -key);
    }
  }

  lemma {:induction false} FlipLeft(t: Tree, key: real)
    requires t.Node? && t.left.Node? && key < t.item.key
    ensures Splay(Flip(t), -key) == Flip(Splay(t, key)) && Turns(Flip(t), -key) == Turns(t, key)
    decreases t, 0
  {
    hide Splay;
    TurnLeft(t, key);
    TurnRight(Flip(t), -key);
    if key < t.left.item.key {
      FlipSplay(t.left.left, key);
      assert RotateLeft(Flip(t)) == Flip(RotateRight(t)) by { FlipRotate(t); }
    } else {
      FlipSplay(t.left, key);
    }
  }

  lemma {:induction false} FlipRight(t: Tree, key: real)
    requires t.Node? && t.right.Node? && key > t.item.key
    ensures Splay(Flip(t), -key) == Flip(Splay(t, key)) && Turns(Flip(t), -key) == Turns(t, key)
    decreases t, 0
  {
    hide Splay;
    TurnRight(t, key);
    TurnLeft(Flip(t), -key);
    if key > t.right.item.key {
      FlipSplay(t.right.right, key);
      assert RotateRight(Flip(t)) == Flip(RotateLeft(t)) by { FlipRotate(t); }
    } else {
      FlipSplay(t.right, key);
    }
  }

  lemma SplayLeaf(key: real)
    ensures Splay(Leaf, key) == Leaf
  {
  }

  // ----- one splay -----

  /** The turns of one splay are paid for by the drop in potential and two more weights: in logarithms,
      turns + the potential of the two subtrees <= the potential of the tree + 2 log(weight). */
  ghost predicate Paid(t: Tree, key: real) {
    t.Node? && var z := Splay(t, key);
    z.Node? && Two(Turns(t, key)) * (Potential(z.left) * Potential(z.right)) <= Potential(t) * (Weight(t) * Weight(t))
  }

  lemma Scale(e: nat, q: nat, p: nat, g: nat, c: nat, k: nat, k': nat, s: nat)
    requires e * q <= p * g && c * (g * k) <= k' * s
    ensures (c * e) * (q * k) <= (p * k') * s
  {
    calc {
      (c * e) * (q * k);
      (e * q) * (c * k);
    <=  { MulLe(e * q, p * g, c * k); }
      (p * g) * (c * k);
      p * (c * (g * k));
    <=  { MulLe(c * (g * k), k' * s, p); }
      p * (k' * s);
      (p * k') * s;
    }
  }

  /** Two parts of a sum have at most a quarter of its square as their product. */
  lemma QuarterSquare(a: nat, b: nat, s: nat)
    requires a + b <= s
    ensures 4 * (a * b) <= s * s
  {
    Square(a - b);
    MulLe(a + b, s, a + b);
    MulLe(a + b, s, s);
    assert (a + b) * (a + b) == (a - b) * (a - b) + 4 * (a * b);
  }

  lemma Square(x: int)
    ensures x * x >= 0
  {
  }

  lemma Both(a: nat, b: nat, c: nat, d: nat)
    requires a <= c && b <= d
    ensures a * b <= c * d
  {
    MulLe(a, c, b);
    MulLe(b, d, c);
  }

  lemma Exchange(a: int, b: int, c: int, d: int)
    ensures (a * b) * (c * d) == (a * d) * (b * c)
  {
    calc {
      (a * b) * (c * d);
      { MulAssoc(a, b, c * d); }
      a * (b * (c * d));
      { MulAssoc(b, c, d); }
      a * ((b * c) * d);
      { assert (b * c) * d == d * (b * c); }
      a * (d * (b * c));
      { MulAssoc(a, d, b * c); }
      (a * d) * (b * c);
    }
  }

  lemma ZigZigWeights(g: nat, u: nat, s: nat, sx: nat, sy: nat)
    requires g <= u && g + sx <= s && sy <= s
    ensures 2 * ((g * g) * (sy * sx)) <= (s * u) * (s * s)
  {
    QuarterSquare(g, sx, s);
    Both(g, sy, u, s);
    Exchange(g, g, sy, sx);
    Exchange(s, u, s, s);
    FourTimes(g * sx, g * sy, s * s, u * s);
  }

  lemma FourTimes(a: nat, b: nat, c: nat, d: nat)
    requires 4 * a <= c && b <= d
    ensures 4 * (a * b) <= c * d
  {
    Both(4 * a, b, c, d);
  }

  lemma ZigZagWeights(v: nat, u: nat, s: nat, sx: nat, sy: nat)
    requires v <= u <= s && sy + sx <= s
    ensures 4 * ((v * v) * (sy * sx)) <= (s * u) * (s * s)
  {
    QuarterSquare(sy, sx, s);
    Both(v, v, s, u);
    FourTimes(sy * sx, v * v, s * s, s * u);
  }

  lemma ThreeWeights(g: nat, v: nat, u: nat, s: nat, sw: nat, sx: nat, sy: nat)
    requires g <= v && g <= s && sy <= u && sw + sx <= s
    ensures 4 * ((g * g) * ((sw * sx) * sy)) <= ((s * u) * v) * (s * s)
  {
    QuarterSquare(sw, sx, s);
    Both(g, g, s, v);
    Both(g * g, sy, s * v, u);
    FourTimes(sw * sx, (g * g) * sy, s * s, (s * v) * u);
    Across(g * g, sw * sx, sy);
    SwapLast(s, v, u);
    Swapped(s * s, (s * u) * v);
  }

  /** A smaller tree is paid for; `k` and `k'` are the weights that change, and `m` is the potential of the rest. */
  lemma Passed(e: nat, q: nat, p: nat, g: nat, c: nat, k: nat, k': nat, m: nat, s: nat)
    requires e * q <= p * (g * g) && c * ((g * g) * k) <= k' * (s * s)
    ensures (c * e) * (q * (k * m)) <= (p * (k' * m)) * (s * s)
  {
    var g2, s2 := g * g, s * s;
    calc {
      c * (g2 * (k * m));
      { MulAssoc(g2, k, m); MulAssoc(c, g2 * k, m); }
      (c * (g2 * k)) * m;
    <=  { MulLe(c * (g2 * k), k' * s2, m); }
      (k' * s2) * m;
      { SwapLast(k', s2, m); }
      (k' * m) * s2;
    }
    Scale(e, q, p, g2, c, k * m, k' * m, s2);
  }

  lemma Across(a: int, b: int, c: int)
    ensures a * (b * c) == b * (a * c)
  {
  }

  lemma Swapped(a: int, b: int)
    ensures a * b == b * a
  {
  }

  lemma SwapLast(a: int, b: int, c: int)
    ensures (a * b) * c == (a * c) * b
  {
  }

  lemma {:induction false} WeightIs(t: Tree)
    ensures Weight(t) == |Entries(t)| + 1
  {
    if t.Node? {
      WeightIs(t.left);
      WeightIs(t.right);
    }
  }

  lemma SplayWeight(t: Tree, key: real)
    requires t.Node?
    ensures var z := Splay(t, key); z.Node? && Weight(z.left) + Weight(z.right) == Weight(t)
  {
    hide Entries;
    SplayKeepsEntries(t, key);
    WeightIs(t);
    WeightIs(Splay(t, key));
  }

  lemma PotentialIs(item: Entry, l: Tree, r: Tree)
    ensures Weight(Node(item, l, r)) == Weight(l) + Weight(r)
    ensures Potential(Node(item, l, r)) == (Weight(l) + Weight(r)) * (Potential(l) * Potential(r))
  {
  }

  /** A turn to the left with a rotation; then the tree to the left of the left child is splayed. */
  lemma ZigZig(t: Tree, key: real)
    requires t.Node? && t.left.Node? && t.left.left.Node? && key < t.item.key && key < t.left.item.key
    requires Paid(t.left.left, key)
    ensures Paid(t, key)
  {
    hide Splay, Two, Weight, Potential;
    var y := t.left;
    var a, b, d, z := y.left, y.right, t.right, Splay(y.left, key);
    TurnLeft(t, key);
    SplayWeight(a, key);
    PotentialIs(t.item, y, d);
    PotentialIs(y.item, a, b);
    var right := Node(t.item, b, d);
    PotentialIs(t.item, b, d);
    PotentialIs(y.item, z.right, right);
    TwoDoubles(Turns(a, key));
    var g, u, s, sx := Weight(a), Weight(y), Weight(t), Weight(right);
    var sy := Weight(z.right) + sx;
    ZigZigWeights(g, u, s, sx, sy);
    Passed(Two(Turns(a, key)), Potential(z.left) * Potential(z.right), Potential(a), g, 2, sy * sx, s * u,
           Potential(b) * Potential(d), s);
    ZigZigProducts(Potential(z.left), Potential(z.right), Potential(a), Potential(b), Potential(d), s, u, sx, sy);
  }

  lemma ZigZigProducts(l: nat, r: nat, pa: nat, pb: nat, pd: nat, s: nat, u: nat, sx: nat, sy: nat)
    ensures l * (sy * (r * (sx * (pb * pd)))) == (l * r) * ((sy * sx) * (pb * pd))
    ensures s * ((u * (pa * pb)) * pd) == pa * ((s * u) * (pb * pd))
  {
  }

  /** A turn to the left and one to the right, without rotations. */
  lemma ZigZag(t: Tree, key: real)
    requires t.Node? && t.left.Node? && t.left.right.Node?
    requires t.left.item.key < key < t.item.key && key <= t.left.right.item.key && Paid(t.left.right, key)
    ensures Paid(t, key)
  {
    hide Splay, Two, Weight, Potential;
    var y := t.left;
    var a, b, d, z := y.left, y.right, t.right, Splay(y.right, key);
    TurnRight(y, key);
    TurnLeft(t, key);
    SplayWeight(b, key);
    PotentialIs(t.item, y, d);
    PotentialIs(y.item, a, b);
    PotentialIs(y.item, a, z.left);
    PotentialIs(t.item, z.right, d);
    TwoTwice(Turns(b, key));
    assert Turns(t, key) == Turns(y, key) + 1 && Turns(y, key) == Turns(b, key) + 1;
    ZigZagNumbers(Two(Turns(b, key)), Potential(z.left), Potential(z.right), Potential(a), Potential(b), Potential(d),
                  Weight(b), Weight(t), Weight(y), Weight(z.right) + Weight(d), Weight(a) + Weight(z.left));
  }

  lemma TwoTwice(n: nat)
    ensures Two(n + 1 + 1) == 4 * Two(n)
  {
    TwoDoubles(n);
    TwoDoubles(n + 1);
  }

  lemma ZigZagNumbers(e: nat, l: nat, r: nat, pa: nat, pb: nat, pd: nat, v: nat, s: nat, u: nat, sx: nat, sy: nat)
    requires e * (l * r) <= pb * (v * v) && v <= u <= s && sy + sx <= s
    ensures (4 * e) * ((sy * (pa * l)) * (sx * (r * pd))) <= (s * ((u * (pa * pb)) * pd)) * (s * s)
  {
    ZigZagWeights(v, u, s, sx, sy);
    Passed(e, l * r, pb, v, 4, sy * sx, s * u, pa * pd, s);
    ZigZagProducts(l, r, pa, pb, pd, s, u, sx, sy);
  }

  lemma ZigZagProducts(l: nat, r: nat, pa: nat, pb: nat, pd: nat, s: nat, u: nat, sx: nat, sy: nat)
    ensures (sy * (pa * l)) * (sx * (r * pd)) == (l * r) * ((sy * sx) * (pa * pd))
    ensures s * ((u * (pa * pb)) * pd) == pb * ((s * u) * (pa * pd))
  {
  }

  /** A turn to the left, and one to the right with a rotation. */
  lemma ZigZagZag(t: Tree, key: real)
    requires t.Node? && t.left.Node? && t.left.right.Node? && t.left.right.right.Node?
    requires t.left.item.key < key < t.item.key && key > t.left.right.item.key && Paid(t.left.right.right, key)
    ensures Paid(t, key)
  {
    hide Splay, Two, Weight, Potential;
    var y, w := t.left, t.left.right;
    var a, b, f, d, z := y.left, w.left, w.right, t.right, Splay(w.right, key);
    TurnRight(y, key);
    TurnLeft(t, key);
    SplayWeight(f, key);
    PotentialIs(t.item, y, d);
    PotentialIs(y.item, a, w);
    PotentialIs(w.item, b, f);
    var left := Node(y.item, a, b);
    PotentialIs(y.item, a, b);
    PotentialIs(w.item, left, z.left);
    PotentialIs(t.item, z.right, d);
    TwoTwice(Turns(f, key));
    assert Turns(t, key) == Turns(y, key) + 1 && Turns(y, key) == Turns(f, key) + 1;
    ThreeNumbers(Two(Turns(f, key)), Potential(z.left), Potential(z.right), Potential(a), Potential(b), Potential(f),
                 Potential(d), Weight(f), Weight(t), Weight(y), Weight(w), Weight(left) + Weight(z.left),
                 Weight(z.right) + Weight(d), Weight(left));
  }

  lemma ThreeNumbers(e: nat, l: nat, r: nat, pa: nat, pb: nat, pf: nat, pd: nat, g: nat, s: nat, u: nat, v: nat,
                     sw: nat, sx: nat, sy: nat)
    requires e * (l * r) <= pf * (g * g) && g <= v && g <= s && sy <= u && sw + sx <= s
    ensures (4 * e) * ((sw * ((sy * (pa * pb)) * l)) * (sx * (r * pd)))
         <= (s * ((u * (pa * (v * (pb * pf)))) * pd)) * (s * s)
  {
    ThreeWeights(g, v, u, s, sw, sx, sy);
    Passed(e, l * r, pf, g, 4, (sw * sx) * sy, (s * u) * v, pa * (pb * pd), s);
    ThreeProducts(l, r, pa, pb, pf, pd, s, u, v, sw, sx, sy);
  }

  lemma ThreeProducts(l: nat, r: nat, pa: nat, pb: nat, pf: nat, pd: nat, s: nat, u: nat, v: nat, sw: nat, sx: nat,
                      sy: nat)
    ensures (sw * ((sy * (pa * pb)) * l)) * (sx * (r * pd)) == (l * r) * (((sw * sx) * sy) * (pa * (pb * pd)))
    ensures s * ((u * (pa * (v * (pb * pf)))) * pd) == pf * (((s * u) * v) * (pa * (pb * pd)))
  {
    ZigZagProducts(l, r, sy * (pa * pb), v * (pb * pf), pd, s, u, sx, sw);
    ZigZagProducts(l, r, pa, v * (pb * pf), pd, s, u, sx, sw);
    Nested(sw * sx, sy, pa, pb, pd);
    Outermost(v, pb, pf, s * u, pa, pd);
  }

  lemma Nested(k: nat, sy: nat, pa: nat, pb: nat, pd: nat)
    ensures k * ((sy * (pa * pb)) * pd) == (k * sy) * (pa * (pb * pd))
  {
  }

  lemma Outermost(v: nat, pb: nat, pf: nat, k: nat, pa: nat, pd: nat)
    ensures (v * (pb * pf)) * (k * (pa * pd)) == pf * ((k * v) * (pa * (pb * pd)))
  {
  }

  // ----- the last turns -----

  lemma Stays(t: Tree, key: real)
    requires t.Node? && (key < t.item.key ==> t.left.Leaf?) && (key > t.item.key ==> t.right.Leaf?)
    ensures Paid(t, key)
  {
    hide Splay, Weight, Potential;
    NoTurn(t, key);
    PotentialIs(t.item, t.left, t.right);
    var q, s := Potential(t.left) * Potential(t.right), Weight(t);
    QuarterSquare(1, 1, s);
    Passed(1, 1, 1, 1, 2, 1, s, q, s);
    FewWeights(1, 1, s);
  }

  lemma FewWeights(k: nat, k': nat, s: nat)
    requires k <= s && k' >= 1 && s >= 2
    ensures 4 * k <= (s * k') * (s * s)
  {
    Both(2, 2, s, s);
    MulLe(1, k', s);
    Both(k, 4, s * k', s * s);
  }

  /** The left child is rotated to the top and has nothing to its left. */
  lemma ZigZigStop(t: Tree, key: real)
    requires t.Node? && t.left.Node? && t.left.left.Leaf? && key < t.item.key && key < t.left.item.key
    ensures Paid(t, key)
  {
    hide Splay, Weight, Potential;
    var y, d := t.left, t.right;
    TurnLeft(t, key);
    PotentialIs(t.item, y, d);
    PotentialIs(y.item, Leaf, y.right);
    PotentialIs(t.item, y.right, d);
    PotentialLeaf();
    assert Turns(t, key) == 1;
    StopNumbers(1, Potential(y.right), Potential(d), Weight(y.right) + Weight(d), Weight(y), Weight(t));
  }

  lemma PotentialLeaf()
    ensures Potential(Leaf) == 1 == Weight(Leaf)
  {
  }

  lemma StopNumbers(pa: nat, pb: nat, pd: nat, k: nat, u: nat, s: nat)
    requires k <= s && u >= 1 && s >= 2
    ensures 4 * (pa * (k * (pb * pd))) <= (s * ((u * (pa * pb)) * pd)) * (s * s)
  {
    FewWeights(k, u, s);
    Passed(1, 1, 1, 1, 4, k, s * u, pa * (pb * pd), s);
    ZigZigProducts(1, 1, pa, pb, pd, s, u, 1, 1);
    Across(pa, k, pb * pd);
    Across(pa, s * u, pb * pd);
  }

  /** The left child stays where it is after a turn to it. */
  lemma ZigStop(t: Tree, key: real)
    requires t.Node? && t.left.Node? && t.left.item.key <= key < t.item.key
    requires key == t.left.item.key || t.left.right.Leaf?
    ensures Paid(t, key)
  {
    hide Splay, Two, Weight, Potential;
    var y, d := t.left, t.right;
    TurnLeft(t, key);
    NoTurn(y, key);
    PotentialIs(t.item, y, d);
    PotentialIs(y.item, y.left, y.right);
    PotentialIs(t.item, y.right, d);
    TwoOfTwo();
    assert Turns(y, key) == 1 && Turns(t, key) == 2;
    StopNumbers(Potential(y.left), Potential(y.right), Potential(d), Weight(y.right) + Weight(d), Weight(y), Weight(t));
  }

  /** After a turn to the left child its right child is rotated to the top, and has nothing to its right. */
  lemma ZigZagStop(t: Tree, key: real)
    requires t.Node? && t.left.Node? && t.left.right.Node? && t.left.right.right.Leaf?
    requires t.left.item.key < key < t.item.key && key > t.left.right.item.key
    ensures Paid(t, key)
  {
    hide Splay, Two, Weight, Potential;
    var y, w, d := t.left, t.left.right, t.right;
    TurnRight(y, key);
    TurnLeft(t, key);
    PotentialIs(t.item, y, d);
    PotentialIs(y.item, y.left, w);
    PotentialIs(w.item, w.left, Leaf);
    PotentialIs(y.item, y.left, w.left);
    PotentialIs(t.item, Leaf, d);
    PotentialLeaf();
    TwoOfTwo();
    assert Turns(y, key) == 1 && Turns(t, key) == 2;
    assert Splay(t, key) == Node(w.item, Node(y.item, y.left, w.left), Node(t.item, Leaf, d));
    LastNumbers(Potential(y.left), Potential(w.left), Potential(d), Weight(t), Weight(y), Weight(w),
                Weight(y.left) + Weight(w.left), 1 + Weight(d));
  }

  lemma TwoOfTwo()
    ensures Two(2) == 4
  {
  }

  lemma LastNumbers(pa: nat, pb: nat, pd: nat, s: nat, u: nat, v: nat, sy: nat, sx: nat)
    requires sy + sx <= s && s >= 1 && u >= 1 && v >= 1
    ensures 4 * ((sy * (pa * pb)) * (sx * (1 * pd))) <= (s * ((u * (pa * (v * (pb * 1)))) * pd)) * (s * s)
  {
    QuarterSquare(sy, sx, s);
    Both(1, 1, s, u);
    Both(1, 1, s * u, v);
    MulLe(1, (s * u) * v, s * s);
    Passed(1, 1, 1, 1, 4, sy * sx, (s * u) * v, pa * (pb * pd), s);
    ThreeProducts(1, 1, pa, pb, 1, pd, s, u, v, 1, 1, 1);
    Exchange(sy, pa * pb, pd, sx);
    MulAssoc(pa, pb, pd);
  }

  lemma {:induction false} PaidLeft(t: Tree, key: real)
    requires t.Node? && t.left.Node? && key < t.item.key
    ensures Paid(t, key)
    decreases Weight(t), 0
  {
    hide Paid, Splay, Weight;
    var y := t.left;
    Lighter(t);
    Lighter(y);
    if key < y.item.key {
      if y.left.Leaf? {
        ZigZigStop(t, key);
      } else {
        SplayPaid(y.left, key);
        ZigZig(t, key);
      }
    } else if key == y.item.key || y.right.Leaf? {
      ZigStop(t, key);
    } else if key <= y.right.item.key {
      SplayPaid(y.right, key);
      ZigZag(t, key);
    } else if y.right.right.Leaf? {
      ZigZagStop(t, key);
    } else {
      Lighter(y.right);
      SplayPaid(y.right.right, key);
      ZigZagZag(t, key);
    }
  }

  lemma Lighter(t: Tree)
    requires t.Node?
    ensures Weight(t.left) < Weight(t) && Weight(t.right) < Weight(t)
  {
  }

  /** Every splay of every tree. */
  lemma {:induction false} SplayPaid(t: Tree, key: real)
    requires t.Node?
    ensures Paid(t, key)
    decreases Weight(t), 1
  {
    hide Paid, Splay, Potential;
    if key < t.item.key && t.left.Node? {
      PaidLeft(t, key);
    } else if key > t.item.key && t.right.Node? {
      FlipKeeps(t);
      PaidLeft(Flip(t), -key);
      FlipPaid(t, key);
    } else {
      Stays(t, key);
    }
  }

  lemma FlipPaid(t: Tree, key: real)
    requires Paid(Flip(t), -key)
    ensures Paid(t, key)
  {
    hide Splay, Weight, Potential, Two, Turns;
    FlipSplay(t, key);
    FlipKeeps(t);
    var z := Splay(t, key);
    FlipKeeps(z.left);
    FlipKeeps(z.right);
  }

  // ----- calls -----

  /** In logarithms: turns + the potential after <= the potential before + 5 log(weight). */
  ghost predicate Amortised(t: Tree, t': Tree, turns: nat) {
    forall w: nat :: w >= Weight(t) && w >= Weight(t') ==> Two(turns) * Potential(t') <= Potential(t) * Exp(w, 5)
  }

  lemma Fifth(w: int)
    ensures Exp(w, 5) == (w * w) * ((w * w) * w)
  {
    var e := Exp(w, 0);
    assert Exp(w, 1) == w * e && Exp(w, 2) == w * Exp(w, 1) && Exp(w, 3) == w * Exp(w, 2);
    assert Exp(w, 4) == w * Exp(w, 3) && Exp(w, 5) == w * Exp(w, 4);
    MulAssoc(w, w, w);
    MulAssoc(w, w, w * (w * w));
    assert Exp(w, 3) == (w * w) * w;
  }

  /** A splay that is followed by a change of the weights at the top. */
  lemma OneSplay(e: nat, q: nat, p: nat, s: nat, k: nat, w: nat)
    requires e * q <= p * (s * s) && s <= w && k <= (w * w) * w
    ensures e * (k * q) <= p * Exp(w, 5)
  {
    Fifth(w);
    Both(s, s, w, w);
    Both(e * q, k, p * (s * s), (w * w) * w);
    Both(s * s, (w * w) * w, w * w, (w * w) * w);
    MulLe((s * s) * ((w * w) * w), (w * w) * ((w * w) * w), p);
    MulAssoc(p, s * s, (w * w) * w);
    Across(e, k, q);
    Swapped(e * q, k);
  }

  lemma FindPaid(t: Tree, key: real)
    ensures Amortised(t, Splay(t, key), Turns(t, key))
  {
    hide Splay, Two, Exp, Potential, Weight, Turns;
    if t.Leaf? {
      SplayLeaf(key);
      NothingPaid(t);
      NoTurns(key);
    } else {
      var z := Splay(t, key);
      SplayPaid(t, key);
      SplayWeight(t, key);
      PotentialIs(z.item, z.left, z.right);
      forall w: nat | w >= Weight(t) && w >= Weight(z)
        ensures Two(Turns(t, key)) * Potential(z) <= Potential(t) * Exp(w, 5)
      {
        Cubed(Weight(t), w);
        OneSplay(Two(Turns(t, key)), Potential(z.left) * Potential(z.right), Potential(t), Weight(t), Weight(t), w);
      }
    }
  }

  lemma NoTurns(key: real)
    ensures Turns(Leaf, key) == 0
  {
  }

  lemma Cubed(k: nat, w: nat)
    requires k <= w && w >= 1
    ensures k <= w * w <= (w * w) * w
  {
    Both(k, 1, w, w);
    MulLe(1, w, w * w);
  }

  lemma NothingPaid(t: Tree)
    ensures Amortised(t, t, 0)
  {
    hide Exp, Potential, Weight;
    forall w: nat | w >= Weight(t)
      ensures Two(0) * Potential(t) <= Potential(t) * Exp(w, 5)
    {
      Fifth(w);
      Cubed(1, w);
      Both(1, 1, w * w, (w * w) * w);
      MulLe(1, (w * w) * ((w * w) * w), Potential(t));
    }
  }

  lemma InsertPaid(t: Tree, item: Entry)
    ensures Amortised(t, Insert(t, item), Turns(t, item.key))
  {
    hide Splay, Two, Exp, Potential, Weight, Turns;
    FindPaid(t, item.key);
    NoTurns(item.key);
    var z, t' := Splay(t, item.key), Insert(t, item);
    if t.Leaf? {
      FirstPaid(item);
    } else {
      SplayPaid(t, item.key);
      SplayWeight(t, item.key);
      if z.item.key != item.key {
        NewRootPaid(t, z, item, Turns(t, item.key));
      }
    }
  }

  lemma FirstPaid(item: Entry)
    ensures Amortised(Leaf, Node(item, Leaf, Leaf), 0)
  {
    hide Exp, Potential, Weight;
    PotentialIs(item, Leaf, Leaf);
    PotentialLeaf();
    forall w: nat | w >= 2
      ensures Two(0) * 2 <= 1 * Exp(w, 5)
    {
      Fifth(w);
      Cubed(2, w);
      Both(2, 1, w * w, (w * w) * w);
    }
  }

  lemma NewRootPaid(t: Tree, z: Tree, item: Entry, turns: nat)
    requires z.Node? && Weight(z.left) + Weight(z.right) == Weight(t)
    requires Two(turns) * (Potential(z.left) * Potential(z.right)) <= Potential(t) * (Weight(t) * Weight(t))
    ensures Amortised(t, Node(item, z.(right := Leaf), z.right), turns)
    ensures Amortised(t, Node(item, z.left, z.(left := Leaf)), turns)
  {
    hide Two, Exp, Potential, Weight;
    PotentialLeaf();
    PotentialIs(z.item, z.left, Leaf);
    PotentialIs(z.item, Leaf, z.right);
    PotentialIs(item, z.(right := Leaf), z.right);
    PotentialIs(item, z.left, z.(left := Leaf));
    var s, l, r, a, b := Weight(t), Potential(z.left), Potential(z.right), Weight(z.left), Weight(z.right);
    forall w: nat | w >= s && w >= s + 1
      ensures Two(turns) * ((a + 1 + b) * (((a + 1) * (l * 1)) * r)) <= Potential(t) * Exp(w, 5)
      ensures Two(turns) * ((a + (1 + b)) * (l * ((1 + b) * (1 * r)))) <= Potential(t) * Exp(w, 5)
    {
      NewRootNumbers(Two(turns), l, r, Potential(t), s, a + 1, w);
      NewRootNumbers(Two(turns), l, r, Potential(t), s, 1 + b, w);
    }
  }

  lemma NewRootNumbers(e: nat, l: nat, r: nat, p: nat, s: nat, k: nat, w: nat)
    requires e * (l * r) <= p * (s * s) && k <= w && s < w
    ensures e * ((s + 1) * ((k * l) * r)) <= p * Exp(w, 5)
    ensures e * ((s + 1) * (l * (k * r))) <= p * Exp(w, 5)
  {
    TwoWeights(s + 1, k, w);
    OneSplay(e, l * r, p, s, (s + 1) * k, w);
    MulAssoc(s + 1, k, l * r);
    MulAssoc(k, l, r);
    Across(l, k, r);
  }

  lemma TwoWeights(a: nat, b: nat, w: nat)
    requires a <= w && b <= w
    ensures a * b <= (w * w) * w
  {
    Both(a, b, w, w);
    if w > 0 {
      MulLe(1, w, w * w);
    }
  }

  /** The turns of both splays of `remove`. */
  ghost function RemoveTurns(t: Tree, key: real): nat {
    var r := Splay(t, key);
    Turns(t, key) + if r.Node? && r.item.key == key then Turns(r.left, key) else 0
  }

  lemma RemovePaid(t: Tree, key: real)
    ensures Amortised(t, Apply(t, RemoveOp(key)).0, RemoveTurns(t, key))
  {
    hide Splay, Two, Exp, Potential, Weight, Turns;
    FindPaid(t, key);
    var z := Splay(t, key);
    if z.Node? && z.item.key == key {
      if t.Leaf? {
        SplayLeaf(key);
      }
      SplayPaid(t, key);
      SplayWeight(t, key);
      if z.left.Leaf? {
        NoTurns(key);
        CutPaid(t, z, Turns(t, key));
      } else {
        SplayPaid(z.left, key);
        SplayWeight(z.left, key);
        JoinPaid(t, z, Splay(z.left, key), Turns(t, key), Turns(z.left, key));
      }
    }
  }

  lemma CutPaid(t: Tree, z: Tree, turns: nat)
    requires z.Node? && z.left.Leaf?
    requires Two(turns) * (Potential(z.left) * Potential(z.right)) <= Potential(t) * (Weight(t) * Weight(t))
    ensures Amortised(t, z.right, turns)
  {
    hide Two, Exp, Potential, Weight;
    PotentialLeaf();
    forall w: nat | w >= Weight(t)
      ensures Two(turns) * Potential(z.right) <= Potential(t) * Exp(w, 5)
    {
      Cubed(1, w);
      OneSplay(Two(turns), Potential(z.right), Potential(t), Weight(t), 1, w);
    }
  }

  /** The right subtree goes to the root of the left one, which was splayed again. */
  lemma JoinPaid(t: Tree, z: Tree, l: Tree, turns: nat, more: nat)
    requires z.Node? && z.left.Node? && l.Node?
    requires Weight(z.left) + Weight(z.right) == Weight(t) && Weight(l.left) + Weight(l.right) == Weight(z.left)
    requires Two(turns) * (Potential(z.left) * Potential(z.right)) <= Potential(t) * (Weight(t) * Weight(t))
    requires Two(more) * (Potential(l.left) * Potential(l.right))
          <= Potential(z.left) * (Weight(z.left) * Weight(z.left))
    ensures Amortised(t, l.(right := z.right), turns + more)
  {
    hide Two, Exp, Potential, Weight;
    PotentialIs(l.item, l.left, z.right);
    TwoAdd(turns, more);
    var k := Weight(l.left) + Weight(z.right);
    forall w: nat | w >= Weight(t) && w >= k
      ensures Two(turns + more) * (k * (Potential(l.left) * Potential(z.right))) <= Potential(t) * Exp(w, 5)
    {
      TwoSplays(Two(turns), Two(more), Potential(z.left), Potential(z.right), Potential(l.left), Potential(l.right),
                Potential(t), Weight(t), Weight(z.left), k, w);
    }
  }

  lemma TwoSplays(e: nat, e': nat, zl: nat, zr: nat, a: nat, b: nat, p: nat, s: nat, g: nat, k: nat, w: nat)
    requires e * (zl * zr) <= p * (s * s) && e' * (a * b) <= zl * (g * g) && b >= 1
    requires s <= w && g <= w && k <= w
    ensures (e * e') * (k * (a * zr)) <= p * Exp(w, 5)
  {
    assert e' * a <= zl * (g * g) by {
      MulLe(1, b, e' * a);
      MulAssoc(e', a, b);
    }
    Both(g, g, w, w);
    Both(g * g, k, w * w, w);
    OneSplay(e, zl * zr, p, s, (g * g) * k, w);
    MulLe(e' * a, zl * (g * g), e * (k * zr));
    assert (e * e') * (k * (a * zr)) == (e' * a) * (e * (k * zr)) by { FiveFactors(e, e', k, a, zr); }
    assert (zl * (g * g)) * (e * (k * zr)) == e * (((g * g) * k) * (zl * zr)) by { FiveOthers(e, zl, g * g, k, zr); }
  }

  lemma FiveFactors(e: nat, f: nat, k: nat, a: nat, z: nat)
    ensures (e * f) * (k * (a * z)) == (f * a) * (e * (k * z))
  {
  }

  lemma FiveOthers(e: nat, zl: nat, g: nat, k: nat, z: nat)
    ensures (zl * g) * (e * (k * z)) == e * ((g * k) * (zl * z))
  {
  }

  /** How often the loop of `splay_` is run through in a call. */
  ghost function CallTurns(t: Tree, op: Op): nat {
    match op
    case InsertOp(item) => Turns(t, item.key)
    case RemoveOp(key) => RemoveTurns(t, key)
    case FindOp(key) => Turns(t, key)
    case GreatestOp(key) => Turns(t, key)
    case ExportOp => 0
  }

  lemma CallPaid(t: Tree, op: Op)
    ensures Amortised(t, Apply(t, op).0, CallTurns(t, op))
  {
    hide Amortised, Splay, Insert, Turns, RemoveTurns;
    match op
    case InsertOp(item) => InsertPaid(t, item);
    case RemoveOp(key) => RemovePaid(t, key);
    case FindOp(key) => FindPaid(t, key);
    case GreatestOp(key) => FindPaid(t, key);
    case ExportOp => NothingPaid(t);
  }

  ghost function AllTurns(t: Tree, ops: seq<Op>): nat
    decreases |ops|
  {
    if ops == [] then 0 else CallTurns(t, ops[0]) + AllTurns(Apply(t, ops[0]).0, ops[1..])
  }

  /** The tree never has more than `n` nodes. */
  ghost predicate AtMost(t: Tree, ops: seq<Op>, n: nat)
    decreases |ops|
  {
    |Entries(t)| <= n && (ops != [] ==> AtMost(Apply(t, ops[0]).0, ops[1..], n))
  }

  /** Every sequence of calls on every tree. */
  lemma {:induction false} CallsPaid(t: Tree, ops: seq<Op>, n: nat)
    requires AtMost(t, ops, n)
    ensures Two(AllTurns(t, ops)) * Potential(Calls(t, ops).0) <= Potential(t) * Exp(n + 1, 5 * |ops|)
    decreases |ops|
  {
    hide Apply, Potential, Weight, Two, Exp, CallTurns;
    if ops == [] {
      NoCalls(n + 1);
    } else {
      var t' := Apply(t, ops[0]).0;
      CallPaid(t, ops[0]);
      CallsPaid(t', ops[1..], n);
      WeightIs(t);
      WeightIs(t');
      TwoAdd(CallTurns(t, ops[0]), AllTurns(t', ops[1..]));
      ExpAdd(n + 1, 5, 5 * |ops[1..]|);
      assert 5 * |ops| == 5 + 5 * |ops[1..]|;
      Chained(Two(CallTurns(t, ops[0])), Two(AllTurns(t', ops[1..])), Potential(t), Potential(t'),
              Potential(Calls(t, ops).0), Exp(n + 1, 5), Exp(n + 1, 5 * |ops[1..]|));
    }
  }

  lemma NoCalls(w: nat)
    ensures Two(0) == 1 == Exp(w, 0)
  {
  }

  lemma Chained(e: nat, f: nat, p: nat, q: nat, r: nat, x: int, y: int)
    requires e * q <= p * x && f * r <= q * y && y >= 0
    ensures (e * f) * r <= p * (x * y)
  {
    MulLe(f * r, q * y, e);
    MulLe(e * q, p * x, y);
    MulAssoc(e, f, r);
    MulAssoc(e, q, y);
    MulAssoc(p, x, y);
    Swapped(e, f * r);
    Swapped(e, q * y);
  }

  /** From the empty tree, k calls on at most n nodes take at most 5 k log(n + 1) turns, to the base 2. */
  lemma LogarithmicTurns(ops: seq<Op>, n: nat)
    requires AtMost(Leaf, ops, n)
    ensures Two(AllTurns(Leaf, ops)) <= Exp(n + 1, 5 * |ops|)
  {
    hide Potential, Two, Exp, AllTurns, Calls, AtMost;
    CallsPaid(Leaf, ops, n);
    PotentialLeaf();
    MulLe(1, Potential(Calls(Leaf, ops).0), Two(AllTurns(Leaf, ops)));
  }

  // ----- the walk of `findGreatestLessThan` -----

  /** How many nodes `findMax` walks along. */
  ghost function Walk(t: Tree): nat {
    if t.Leaf? || t.right.Leaf? then 0 else 1 + Walk(t.right)
  }

  /** `n` nodes with rising keys, each the right child of the one before. */
  ghost function Chain(n: nat, first: real): Tree {
    if n == 0 then Leaf else Node(Entry(0, first, 0), Leaf, Chain(n - 1, first + 1.0))
  }

  lemma {:induction false} ChainIs(n: nat, first: real)
    ensures |Entries(Chain(n, first))| == n && (n > 0 ==> Walk(Chain(n, first)) == n - 1)
    ensures forall i :: 0 <= i < n ==> Entries(Chain(n, first))[i].key == first + i as real
  {
    if n > 0 {
      ChainIs(n - 1, first + 1.0);
      var rest := Entries(Chain(n - 1, first + 1.0));
      assert Entries(Chain(n, first)) == [Entry(0, first, 0)] + rest;
    }
  }

  /** The walk is not paid for: there are trees of every size that the call leaves as they are after a single turn,
      and on which it walks along all but two nodes, each time it is made. */
  lemma WalkUnpaid(n: nat)
    ensures var t, key := Node(Entry(0, n as real + 1.0, 0), Chain(n + 1, 0.0), Leaf), n as real + 1.0;
      && Sorted(Entries(t)) && |Entries(t)| == n + 2
      && Apply(t, GreatestOp(key)).0 == t && Turns(t, key) == 1 && Walk(t.left) == n
  {
    hide Chain, Walk;
    var t, key := Node(Entry(0, n as real + 1.0, 0), Chain(n + 1, 0.0), Leaf), n as real + 1.0;
    ChainIs(n + 1, 0.0);
    var es := Entries(Chain(n + 1, 0.0));
    assert Entries(t) == es + [t.item];
    NoTurn(t, key);
  }
}
