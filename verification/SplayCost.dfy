/** What splaying does to a tree, said by recursion on it, and what it costs.

    The potential of a tree is the product of the sizes of all its subtrees, so that a number of turns shows
    as a power of two and the bounds need no logarithms. */
module SplayCost {
  import opened DivMod
  import opened Trees

  function Size(t: Tree): nat {
    if t.Leaf? then 0 else Size(t.left) + 1 + Size(t.right)
  }

  function Weight(t: Tree): (w: nat)
    ensures w > 0
  {
    if t.Leaf? then 1
    else
      MulPositive(Weight(t.left), Weight(t.right));
      MulPositive(Size(t), Weight(t.left) * Weight(t.right));
      Size(t) * (Weight(t.left) * Weight(t.right))
  }

  /** A tree cut in two around the node that splaying brings to the root, and the turns that takes. */
  datatype Split = Split(left: Tree, node: Node, right: Tree, turns: nat)

  /** `SPLAY` without its spines. */
  function SplitAt(t: Tree, key: int): (p: Split)
    requires t.Bin?
    ensures Size(p.left) + 1 + Size(p.right) == Size(t)
    decreases t
  {
    var x := t.node;
    if key < x.key && t.left.Bin? then
      var y, rest := t.left.node, Bin(t.left.right, x, t.red, t.right);
      if key >= y.key then
        var p := SplitAt(t.left, key);
        Split(p.left, p.node, Bin(p.right, x, false, t.right), p.turns + 1)
      else if t.left.left.Leaf? then Split(Leaf, y, rest, 1)
      else
        var p := SplitAt(t.left.left, key);
        Split(p.left, p.node, Bin(p.right, y, false, rest), p.turns + 1)
    else if key > x.key && t.right.Bin? then
      var y, rest := t.right.node, Bin(t.left, x, t.red, t.right.left);
      if key <= y.key then
        var p := SplitAt(t.right, key);
        Split(Bin(t.left, x, false, p.left), p.node, p.right, p.turns + 1)
      else if t.right.right.Leaf? then Split(rest, y, Leaf, 1)
      else
        var p := SplitAt(t.right.right, key);
        Split(Bin(rest, y, false, p.left), p.node, p.right, p.turns + 1)
    else Split(t.left, x, t.right, if key == x.key then 0 else 1)
  }

  /** The tree after `SPLAY`. */
  function Splayed(t: Tree, key: int): (s: Tree)
    requires t.Bin?
    ensures Size(s) == Size(t)
  {
    var p := SplitAt(t, key);
    Bin(p.left, p.node, false, p.right)
  }

  // ---------------------------------------------------------------- arithmetic

  lemma MulPositive(a: nat, b: nat)
    requires a > 0 && b > 0
    ensures a * b > 0
  {
  }

  lemma MulBoth(a: nat, b: nat, c: nat, d: nat)
    requires a <= b && c <= d
    ensures a * c <= b * d
  {
    MulMonotone(a, b, c);
    MulMonotone(c, d, b);
  }

  /** What makes a double step pay: of two parts of `s` the product is at most a quarter of its square. */
  lemma Quarter(a: nat, b: nat, s: nat)
    requires a + b <= s
    ensures 4 * (a * b) <= s * s
  {
    var d := a - b;
    assert d * d >= 0;
    assert (a + b) * (a + b) == 4 * (a * b) + d * d;
    SquareMonotone(a + b, s);
  }

  // The products that the bounds compare, under names, so that each step is about a few of them.

  function Share(b: nat, c: nat, w: nat): nat {
    2 * (b * c) * w
  }

  function Bill(x: nat, a: nat, b: nat, u: nat): nat {
    4 * (x * (a * b * u))
  }

  function Due(a: nat, b: nat, y: nat, u: nat): nat {
    4 * (a * b) * (y * u)
  }

  function Budget(s: nat, q: nat, w: nat, u: nat): nat {
    2 * (s * s) * (s * (q * (w * u)))
  }

  lemma Spread(x: nat, a: nat, b: nat, u: nat)
    ensures Bill(x, a, b, u) == Due(a, b, x, u)
  {
  }

  lemma Carried(x: nat, w: nat, u: nat, b: nat, r: nat, c: nat)
    requires x <= Share(c, c, w)
    ensures Bill(x, b, r, u) <= Due(r, c, Share(b, c, w), u)
  {
    var v := b * r * u;
    MulMonotone(x, Share(c, c, w), 4 * v);
    Pull(c, w, u, b, r);
    assert 4 * (x * v) == x * (4 * v);
  }

  lemma Pull(x: nat, w: nat, u: nat, b: nat, r: nat)
    ensures 2 * (x * x) * w * (4 * (b * r * u)) == 4 * (r * x) * (2 * (b * x) * w * u)
  {
  }

  lemma Cleared(b: nat, s: nat, c: nat, q: nat, w: nat)
    requires b <= s && c <= q
    ensures Share(b, c, w) <= Share(s, q, w)
  {
    MulBoth(b, s, c, q);
    MulMonotone(2 * (b * c), 2 * (s * q), w);
  }

  lemma PaidOff(a: nat, b: nat, y: nat, s: nat, q: nat, w: nat, u: nat)
    requires a + b <= s && y <= Share(s, q, w)
    ensures Due(a, b, y, u) <= Budget(s, q, w, u)
  {
    hide Share;
    var z := Share(s, q, w);
    Quarter(a, b, s);
    MulMonotone(y, z, u);
    MulBoth(4 * (a * b), s * s, y * u, z * u);
    Gather(s, q, w, u);
  }

  lemma Gather(s: nat, q: nat, w: nat, u: nat)
    ensures s * s * (Share(s, q, w) * u) == Budget(s, q, w, u)
  {
  }

  /** Two nodes end up in disjoint parts `a` and `b` of the `s` nodes they were above. */
  lemma Halved(x: nat, w: nat, u: nat, a: nat, b: nat, s: nat, q: nat, c: nat)
    requires x <= Share(c, c, w) && a + b <= s && c <= s && c <= q
    ensures Bill(x, a, b, u) <= Budget(s, q, w, u)
  {
    hide Share, Bill, Due, Budget;
    Spread(x, a, b, u);
    Cleared(c, s, c, q, w);
    PaidOff(a, b, x, s, q, w, u);
  }

  /** A node ends up below the one that was below it, with `r` nodes instead of `s`. */
  lemma Lowered(x: nat, w: nat, u: nat, b: nat, r: nat, s: nat, q: nat, c: nat)
    requires x <= Share(c, c, w) && b <= s && r + c <= s && c <= q
    ensures Bill(x, b, r, u) <= Budget(s, q, w, u)
  {
    hide Share, Bill, Due, Budget;
    Carried(x, w, u, b, r, c);
    Cleared(b, s, c, q, w);
    PaidOff(r, c, Share(b, c, w), s, q, w, u);
  }

  /** One node ends up with `b` nodes instead of `s`; the step to it is paid for below. */
  lemma Lent(x: nat, w: nat, u: nat, b: nat, s: nat, s1: nat)
    requires 2 * x <= Share(s1, s1, w) && b <= s && s1 <= s
    ensures 2 * (x * (b * u)) <= Share(s, s, s * (w * u))
  {
    SquareMonotone(s1, s);
    MulMonotone(2 * (s1 * s1), 2 * (s * s), w);
    MulMonotone(b, s, u);
    MulBoth(2 * x, 2 * (s * s) * w, b * u, s * u);
  }

  /** The search ends right below. */
  lemma Ended(x: nat, w: nat, u: nat, b: nat, s: nat, s1: nat)
    requires x <= 2 * w && b <= s && 1 <= s1 < s
    ensures 2 * (x * (b * u)) <= Share(s, s, s * (s1 * w * u))
  {
    SquareMonotone(2, s);
    MulMonotone(b, s, u);
    EndedCost(x, w, b * u, s * u, s * s, s1);
    assert s * (s1 * w * u) == s1 * (w * (s * u));
  }

  lemma EndedCost(x: nat, w: nat, y: nat, v: nat, ss: nat, s1: nat)
    requires x <= 2 * w && y <= v && 4 <= ss && 1 <= s1
    ensures 2 * (x * y) <= 2 * ss * (s1 * (w * v))
  {
    MulBoth(x, 2 * w, y, v);
    MulMonotone(1, s1, w * v);
    MulBoth(4, 2 * ss, w * v, s1 * (w * v));
  }

  // ---------------------------------------------------------------- one splay

  /** The potential of the two parts. */
  function Parts(p: Split): nat {
    Weight(p.left) * Weight(p.right)
  }

  /** Two to the number of turns, with the potential of what they leave. */
  function Owed(p: Split): nat {
    Pow2(p.turns) * Parts(p)
  }

  /** What the turns cost is paid by the potential, `c` times over. */
  predicate Bounded(p: Split, t: Tree, c: nat) {
    c * Owed(p) <= Share(Size(t), Size(t), Weight(t))
  }

  /** The first turn rotates. */
  predicate Rotates(t: Tree, key: int)
    requires t.Bin?
  {
    || (key < t.node.key && t.left.Bin? && key < t.left.node.key)
    || (key > t.node.key && t.right.Bin? && key > t.right.node.key)
  }

  /** The search is over at the root. */
  predicate Ends(t: Tree, key: int)
    requires t.Bin?
  {
    key == t.node.key || (key < t.node.key && t.left.Leaf?) || (key > t.node.key && t.right.Leaf?)
  }

  lemma EndsBound(t: Tree, key: int)
    requires t.Bin? && Ends(t, key)
    ensures var p := SplitAt(t, key); Pow2(p.turns) <= 2 && Weight(t) == Size(t) * Parts(p)
    ensures Bounded(SplitAt(t, key), t, 1)
  {
    var w, s, two := Weight(t.left) * Weight(t.right), Size(t), Pow2(SplitAt(t, key).turns);
    assert two <= 2;
    MulMonotone(two, 2, w);
    MulBoth(1, s, 1, s);
    MulMonotone(1, s, w);
    MulBoth(2, 2 * (s * s), w, s * w);
  }

  lemma RotatesEnds(p: Split, t: Tree, r: nat, u: nat, s1: nat)
    requires p.turns == 1 && Parts(p) == r * u && Weight(t) == Size(t) * (s1 * u) && 1 <= r < Size(t) && 1 <= s1
    ensures Bounded(p, t, 2)
  {
    hide Parts, Weight, Size;
    var s := Size(t);
    SquareMonotone(2, s);
    MulMonotone(1, s1, u);
    MulBoth(r, s, u, s1 * u);
    MulBoth(4, 2 * (s * s), r * u, s * (s1 * u));
    assert Pow2(1) == 2 * Pow2(0);
  }

  lemma RotatesOn(p: Split, q: Split, t: Tree, t2: Tree, b: nat, r: nat, u: nat, s1: nat)
    requires p.turns == q.turns + 1 && Bounded(q, t2, 1)
    requires Parts(p) == Parts(q) * (b * r * u) && Weight(t) == Size(t) * (s1 * (Weight(t2) * u))
    requires b <= Size(t) && r + Size(t2) <= Size(t) && Size(t2) <= s1
    ensures Bounded(p, t, 2)
  {
    hide Parts, Owed, Weight, Size, Share, Bill, Budget;
    Lowered(Owed(q), Weight(t2), u, b, r, Size(t), s1, Size(t2));
    TurnBilled(p, q, b, r, u);
    BudgetIs(t, s1, Weight(t2), u);
  }

  lemma MovesEnds(p: Split, q: Split, t: Tree, t1: Tree, b: nat, u: nat)
    requires p.turns == q.turns + 1 && Pow2(q.turns) <= 2 && Weight(t1) == Size(t1) * Parts(q)
    requires Parts(p) == Parts(q) * (b * u) && Weight(t) == Size(t) * (Weight(t1) * u)
    requires b <= Size(t) && 1 <= Size(t1) < Size(t)
    ensures Bounded(p, t, 1)
  {
    hide Parts, Weight, Size, Share;
    MulMonotone(Pow2(q.turns), 2, Parts(q));
    Ended(Owed(q), Parts(q), u, b, Size(t), Size(t1));
    TurnAdded(p, q, b * u);
  }

  lemma MovesOn(p: Split, q: Split, t: Tree, t1: Tree, b: nat, u: nat)
    requires p.turns == q.turns + 1 && Bounded(q, t1, 2)
    requires Parts(p) == Parts(q) * (b * u) && Weight(t) == Size(t) * (Weight(t1) * u)
    requires b <= Size(t) && Size(t1) <= Size(t)
    ensures Bounded(p, t, 1)
  {
    hide Parts, Owed, Weight, Size, Share;
    Lent(Owed(q), Weight(t1), u, b, Size(t), Size(t1));
    TurnAdded(p, q, b * u);
  }

  lemma MovesTwice(p: Split, q: Split, t: Tree, t2: Tree, a: nat, b: nat, u: nat, s1: nat)
    requires p.turns == q.turns + 2 && Bounded(q, t2, 1)
    requires Parts(p) == Parts(q) * (a * b * u) && Weight(t) == Size(t) * (s1 * (Weight(t2) * u))
    requires a + b <= Size(t) && Size(t2) <= s1 && Size(t2) <= Size(t)
    ensures Bounded(p, t, 1)
  {
    hide Parts, Owed, Weight, Size, Share, Bill, Budget;
    Halved(Owed(q), Weight(t2), u, a, b, Size(t), s1, Size(t2));
    TwoTurnsBilled(p, q, a, b, u);
    BudgetIs(t, s1, Weight(t2), u);
  }

  lemma BudgetIs(t: Tree, q: nat, w: nat, u: nat)
    requires Weight(t) == Size(t) * (q * (w * u))
    ensures Share(Size(t), Size(t), Weight(t)) == Budget(Size(t), q, w, u)
  {
    hide Weight, Size;
  }

  lemma TurnAdded(p: Split, q: Split, v: nat)
    requires p.turns == q.turns + 1 && Parts(p) == Parts(q) * v
    ensures Owed(p) == 2 * (Owed(q) * v)
  {
    hide Parts;
    Turns(Pow2(q.turns), Parts(q), v);
  }

  lemma TurnBilled(p: Split, q: Split, a: nat, b: nat, u: nat)
    requires p.turns == q.turns + 1 && Parts(p) == Parts(q) * (a * b * u)
    ensures 2 * Owed(p) == Bill(Owed(q), a, b, u)
  {
    hide Parts, Owed;
    TurnAdded(p, q, a * b * u);
  }

  lemma TwoTurnsBilled(p: Split, q: Split, a: nat, b: nat, u: nat)
    requires p.turns == q.turns + 2 && Parts(p) == Parts(q) * (a * b * u)
    ensures Owed(p) == Bill(Owed(q), a, b, u)
  {
    hide Parts;
    assert Pow2(p.turns) == 2 * Pow2(q.turns + 1);
    Turns(Pow2(q.turns), Parts(q), a * b * u);
  }

  lemma Turns(k: nat, w: nat, u: nat)
    ensures 2 * k * (w * u) == 2 * (k * w * u) && 2 * (2 * k) * (w * u) == 4 * (k * w * u)
  {
  }

  lemma Factors(a: nat, b: nat, c: nat, d: nat, e: nat)
    ensures a * (b * (c * d)) == a * c * (b * d) && b * (d * a) * c == a * c * (b * d)
    ensures a * (b * (c * (d * e))) == a * c * (b * d * e) && b * (d * e * a) * c == a * c * (b * d * e)
  {
  }

  lemma Rest(s: nat, q: nat, w: nat, a: nat, b: nat)
    ensures s * (q * (w * a) * b) == s * (q * (w * (a * b))) && s * (b * (q * (a * w))) == s * (q * (w * (b * a)))
    ensures s * (q * (1 * a) * b) == s * (q * (a * b)) && s * (b * (q * (a * 1))) == s * (q * (b * a))
  {
  }

  lemma WeightBin(l: Tree, x: Node, red: bool, r: Tree)
    ensures Weight(Bin(l, x, red, r)) == Size(Bin(l, x, red, r)) * (Weight(l) * Weight(r)) && Weight(Leaf) == 1
  {
  }

  /** A first turn that rotates, to the left of the root. */
  lemma RotatesLeft(t: Tree, key: int)
    requires t.Bin? && key < t.node.key && t.left.Bin? && key < t.left.node.key
    requires t.left.left.Bin? ==> Bounded(SplitAt(t.left.left, key), t.left.left, 1)
    ensures Bounded(SplitAt(t, key), t, 2)
  {
    hide Bounded, Pow2, Weight, Share;
    var p, y, z := SplitAt(t, key), t.left, t.right;
    var rest, u := Bin(y.right, t.node, t.red, z), Weight(y.right) * Weight(z);
    WeightBin(y, t.node, t.red, z);
    WeightBin(y.left, y.node, y.red, y.right);
    WeightBin(y.right, t.node, t.red, z);
    Rest(Size(t), Size(y), Weight(y.left), Weight(y.right), Weight(z));
    if y.left.Leaf? {
      RotatesEnds(p, t, Size(rest), u, Size(y));
    } else {
      var q := SplitAt(y.left, key);
      WeightBin(q.right, y.node, false, rest);
      Factors(Weight(q.left), Size(p.right), Weight(q.right), Size(rest), u);
      RotatesOn(p, q, t, y.left, Size(p.right), Size(rest), u, Size(y));
    }
  }

  /** The same to the right. */
  lemma RotatesRight(t: Tree, key: int)
    requires t.Bin? && key > t.node.key && t.right.Bin? && key > t.right.node.key
    requires t.right.right.Bin? ==> Bounded(SplitAt(t.right.right, key), t.right.right, 1)
    ensures Bounded(SplitAt(t, key), t, 2)
  {
    hide Bounded, Pow2, Weight, Share;
    var p, y, z := SplitAt(t, key), t.right, t.left;
    var rest, u := Bin(z, t.node, t.red, y.left), Weight(z) * Weight(y.left);
    WeightBin(z, t.node, t.red, y);
    WeightBin(y.left, y.node, y.red, y.right);
    WeightBin(z, t.node, t.red, y.left);
    Rest(Size(t), Size(y), Weight(y.right), Weight(y.left), Weight(z));
    if y.right.Leaf? {
      RotatesEnds(p, t, Size(rest), u, Size(y));
    } else {
      var q := SplitAt(y.right, key);
      WeightBin(rest, y.node, false, q.left);
      Factors(Weight(q.left), Size(p.left), Weight(q.right), Size(rest), u);
      RotatesOn(p, q, t, y.right, Size(p.left), Size(rest), u, Size(y));
    }
  }

  /** A first turn that does not rotate. */
  lemma MovesBound(t: Tree, key: int)
    requires t.Bin? && !Rotates(t, key) && !Ends(t, key)
    requires var t1 := if key < t.node.key then t.left else t.right;
             && (Rotates(t1, key) ==> Bounded(SplitAt(t1, key), t1, 2))
             && (!Rotates(t1, key) && !Ends(t1, key) ==>
                  var t2 := if key < t1.node.key then t1.left else t1.right; Bounded(SplitAt(t2, key), t2, 1))
    ensures Bounded(SplitAt(t, key), t, 1)
  {
    hide Bounded, Pow2;
    var p, s := SplitAt(t, key), Size(t);
    if key < t.node.key {
      var t1, z := t.left, t.right;
      var q, b, u := SplitAt(t1, key), Size(p.right), Weight(z);
      Factors(Weight(q.left), b, Weight(q.right), u, 1);
      if Ends(t1, key) {
        EndsBound(t1, key);
        MovesEnds(p, q, t, t1, b, u);
      } else if Rotates(t1, key) {
        MovesOn(p, q, t, t1, b, u);
      } else {
        var t2, a := t1.right, Size(q.left);
        var q2, v := SplitAt(t2, key), Weight(t1.left);
        Twice(Weight(q2.left), Weight(q2.right), a, b, v, u);
        Rest(s, Size(t1), Weight(t2), v, u);
        MovesTwice(p, q2, t, t2, a, b, v * u, Size(t1));
      }
    } else {
      var t1, z := t.right, t.left;
      var q, a, u := SplitAt(t1, key), Size(p.left), Weight(z);
      Factors(Weight(q.left), a, Weight(q.right), u, 1);
      if Ends(t1, key) {
        EndsBound(t1, key);
        MovesEnds(p, q, t, t1, a, u);
      } else if Rotates(t1, key) {
        MovesOn(p, q, t, t1, a, u);
      } else {
        var t2, b := t1.left, Size(q.right);
        var q2, v := SplitAt(t2, key), Weight(t1.right);
        Twice(Weight(q2.left), Weight(q2.right), a, b, u, v);
        Rest(s, Size(t1), Weight(t2), v, u);
        MovesTwice(p, q2, t, t2, a, b, u * v, Size(t1));
      }
    }
  }

  lemma Twice(x: nat, y: nat, a: nat, b: nat, v: nat, u: nat)
    ensures a * (v * x) * (b * (y * u)) == x * y * (a * b * (v * u))
  {
  }

  lemma BoundedOnce(t: Tree, key: int)
    requires t.Bin?
    ensures Bounded(SplitAt(t, key), t, 1)
    decreases t, 1
  {
    SplitBound(t, key);
  }

  lemma {:induction false} SplitBound(t: Tree, key: int)
    requires t.Bin?
    ensures Bounded(SplitAt(t, key), t, if Rotates(t, key) then 2 else 1)
    decreases t, 0
  {
    hide Bounded;
    if Ends(t, key) {
      EndsBound(t, key);
    } else {
      var t1 := if key < t.node.key then t.left else t.right;
      SplitBound(t1, key);
      if t1.left.Bin? {
        BoundedOnce(t1.left, key);
      }
      if t1.right.Bin? {
        BoundedOnce(t1.right, key);
      }
      if Rotates(t, key) {
        if key < t.node.key {
          RotatesLeft(t, key);
        } else {
          RotatesRight(t, key);
        }
      } else {
        MovesBound(t, key);
      }
    }
  }

  // ---------------------------------------------------------------- operations

  /** What one operation on a tree of `n` elements may cost: two to the number of its turns is at most this. */
  function Cost(n: nat): nat {
    var m := n + 1;
    4 * (m * m * (m * m * m))
  }

  /** The same for splaying alone. */
  function AccessCost(n: nat): nat {
    2 * (n * n * n)
  }

  /** `turns` turns that lead from `t` to `t'` cost at most the factor `c`. */
  predicate Afforded(t: Tree, t': Tree, turns: nat, c: nat) {
    Pow2(turns) * Weight(t') <= c * Weight(t)
  }

  /** Costs multiply. */
  lemma AffordedTwice(t: Tree, t1: Tree, t2: Tree, k1: nat, k2: nat, c1: nat, c2: nat)
    requires Afforded(t, t1, k1, c1) && Afforded(t1, t2, k2, c2)
    ensures Afforded(t, t2, k1 + k2, c2 * c1)
  {
    hide Weight, Pow2;
    Pow2Sum(k1, k2);
    Chained(Pow2(k1), Pow2(k2), Weight(t), Weight(t1), Weight(t2), c1, c2);
  }

  lemma Chained(a: nat, b: nat, w: nat, w1: nat, w2: nat, c1: nat, c2: nat)
    requires a * w1 <= c1 * w && b * w2 <= c2 * w1
    ensures a * b * w2 <= c2 * c1 * w
  {
    MulMonotone(b * w2, c2 * w1, a);
    MulMonotone(a * w1, c1 * w, c2);
    Associated(a, b, w2);
    Exchange(a, c2, w1);
    Associated(c2, c1, w);
  }

  lemma Exchange(a: nat, b: nat, c: nat)
    ensures a * (b * c) == b * (a * c)
  {
  }

  lemma AffordedMore(t: Tree, t': Tree, turns: nat, c: nat, d: nat)
    requires Afforded(t, t', turns, c) && c <= d
    ensures Afforded(t, t', turns, d)
  {
    MulMonotone(c, d, Weight(t));
  }

  lemma SplayedBound(t: Tree, key: int)
    requires t.Bin?
    ensures Afforded(t, Splayed(t, key), SplitAt(t, key).turns, AccessCost(Size(t)))
  {
    hide Weight, SplitAt;
    var p, s := SplitAt(t, key), Size(t);
    BoundedOnce(t, key);
    WeightBin(p.left, p.node, false, p.right);
    MulMonotone(Pow2(p.turns) * Parts(p), 2 * (s * s) * Weight(t), s);
    Scaled(Pow2(p.turns), Parts(p), s, Weight(t));
  }

  lemma Scaled(k: nat, w: nat, s: nat, v: nat)
    ensures k * (s * w) == k * w * s && 2 * (s * s) * v * s == 2 * (s * s * s) * v
  {
  }

  /** Cutting a splayed tree beside its root and putting a new root on top. */
  lemma CrownedBound(l: Tree, x: Node, red: bool, r: Tree, elm: Node)
    ensures var s, c := Bin(l, x, red, r), Size(l) + Size(r) + 2;
      && Afforded(s, Bin(l, elm, false, Bin(Leaf, x, red, r)), 0, c)
      && Afforded(s, Bin(Bin(l, x, red, Leaf), elm, false, r), 0, c)
  {
    hide Weight;
    var s, low, high := Bin(l, x, red, r), Bin(l, x, red, Leaf), Bin(Leaf, x, red, r);
    WeightBin(l, x, red, r);
    WeightBin(Leaf, x, red, r);
    WeightBin(l, x, red, Leaf);
    WeightBin(l, elm, false, high);
    WeightBin(low, elm, false, r);
    Capped(Size(high), Weight(l), Weight(r), Size(l) + Size(r) + 2, Size(s));
    Capped(Size(low), Weight(l), Weight(r), Size(l) + Size(r) + 2, Size(s));
  }

  lemma Capped(h: nat, v: nat, w: nat, c: nat, s: nat)
    requires h <= s
    ensures c * (v * (h * (1 * w))) <= c * (s * (v * w)) && c * (h * (v * 1) * w) <= c * (s * (v * w))
  {
    Regrouped(h, v, w);
    MulMonotone(h, s, v * w);
    MulMonotone(h * (v * w), s * (v * w), c);
  }

  lemma Regrouped(h: nat, v: nat, w: nat)
    ensures v * (h * (1 * w)) == h * (v * w) && h * (v * 1) * w == h * (v * w)
  {
  }

  /** Hanging `r` to the right of a root that has nothing there, and dropping the root above both. */
  lemma JoinedBound(l: Tree, l': Tree, r: Tree, x: Node, red: bool, turns: nat)
    requires l.Bin? && l'.Bin? && l'.right.Leaf? && Size(l') == Size(l)
    requires Afforded(l, l', turns, AccessCost(Size(l)))
    ensures Afforded(Bin(l, x, red, r), Bin(l'.left, l'.node, l'.red, r), turns, 2 * (Size(l) * Size(l)))
  {
    hide Weight;
    WeightBin(l, x, red, r);
    WeightBin(l'.left, l'.node, l'.red, Leaf);
    WeightBin(l'.left, l'.node, l'.red, r);
    HungUp(Pow2(turns), Weight(l'.left), Size(l) + Size(r), Weight(r), Size(l), Weight(l));
  }

  lemma HungUp(k: nat, v: nat, m: nat, w: nat, n: nat, u: nat)
    requires k * (n * (v * 1)) <= 2 * (n * n * n) * u && n > 0
    ensures k * (m * (v * w)) <= 2 * (n * n) * ((m + 1) * (u * w))
  {
    Hung(k, v, m, w, n, u);
    Cancel(n, k * v, 2 * (n * n) * u);
    MulMonotone(k * v, 2 * (n * n) * u, m * w);
    MulMonotone(m, m + 1, 2 * (n * n) * (u * w));
  }

  lemma Cancel(n: nat, a: nat, b: nat)
    requires n > 0 && n * a <= n * b
    ensures a <= b
  {
    if a > b {
      MulMonotone(b + 1, a, n);
    }
  }

  lemma Hung(k: nat, v: nat, m: nat, w: nat, n: nat, u: nat)
    ensures k * (n * (v * 1)) == n * (k * v) && 2 * (n * n * n) * u == n * (2 * (n * n) * u)
    ensures k * v * (m * w) == k * (m * (v * w)) && 2 * (n * n) * u * (m * w) == m * (2 * (n * n) * (u * w))
    ensures (m + 1) * (2 * (n * n) * (u * w)) == 2 * (n * n) * ((m + 1) * (u * w))
  {
  }

  /** Each operation costs at most `Cost`, when `n` is the number of elements it starts with. */
  lemma CostCovers(n: nat, l: nat)
    requires l <= n
    ensures 1 <= Cost(n) && AccessCost(n) <= Cost(n) && (n + 1) * AccessCost(n) <= Cost(n)
    ensures 2 * (l * l) * AccessCost(n) <= Cost(n)
  {
    var m := n + 1;
    SquareMonotone(n, m);
    SquareMonotone(l, m);
    SquareMonotone(1, m);
    MulBoth(n * n, m * m, n, m);
    MulMonotone(1, m, m);
    MulMonotone(1, m, m * m);
    CostParts(m, m * m, m * m * m, n * n * n, l * l);
  }

  lemma CostParts(m: nat, mm: nat, mmm: nat, nnn: nat, ll: nat)
    requires 1 <= m <= mm <= mmm && nnn <= mmm && ll <= mm
    ensures 1 <= 4 * (mm * mmm) && 2 * nnn <= 4 * (mm * mmm) && m * (2 * nnn) <= 4 * (mm * mmm)
    ensures 2 * ll * (2 * nnn) <= 4 * (mm * mmm)
  {
    MulBoth(1, mm, 1, mmm);
    MulBoth(1, mm, nnn, mmm);
    MulBoth(m, mm, nnn, mmm);
    MulBoth(ll, mm, nnn, mmm);
  }

  lemma CostMonotone(n: nat, m: nat)
    requires n <= m
    ensures Cost(n) <= Cost(m)
  {
    var a, b := n + 1, m + 1;
    SquareMonotone(a, b);
    MulBoth(a * a, b * b, a, b);
    MulBoth(a * a, b * b, a * a * a, b * b * b);
  }

  /** An operation that does nothing. */
  lemma StillBound(t: Tree)
    ensures Afforded(t, t, 0, Cost(Size(t)))
  {
    CostCovers(Size(t), 0);
    MulMonotone(1, Cost(Size(t)), Weight(t));
  }

  /** An operation that splays once. */
  lemma AccessBound(t: Tree, key: int)
    requires t.Bin?
    ensures Afforded(t, Splayed(t, key), SplitAt(t, key).turns, Cost(Size(t)))
  {
    hide Afforded, Splayed, SplitAt, Cost, AccessCost;
    SplayedBound(t, key);
    CostCovers(Size(t), 0);
    AffordedMore(t, Splayed(t, key), SplitAt(t, key).turns, AccessCost(Size(t)), Cost(Size(t)));
  }

  /** What taking out the root costs. */
  function BeheadCost(t: Tree): nat
    requires t.Bin?
  {
    if t.left.Leaf? then 1 else 2 * (Size(t.left) * Size(t.left))
  }

  lemma DroppedBound(t: Tree)
    requires t.Bin? && t.left.Leaf?
    ensures Afforded(t, t.right, 0, BeheadCost(t))
  {
    MulMonotone(1, Size(t), Weight(t.right));
  }

  /** An operation that splays and then does something else, at the cost `c`. */
  lemma SecondBound(t: Tree, key: int, t': Tree, more: nat, c: nat)
    requires t.Bin? && Afforded(Splayed(t, key), t', more, c)
    requires c == Size(t) + 1 || c == BeheadCost(Splayed(t, key))
    ensures Afforded(t, t', SplitAt(t, key).turns + more, Cost(Size(t)))
  {
    hide Afforded, Cost, AccessCost, SplitAt;
    var t1, n, turns := Splayed(t, key), Size(t), SplitAt(t, key).turns;
    SplayedBound(t, key);
    AffordedTwice(t, t1, t', turns, more, AccessCost(n), c);
    CostCovers(n, Size(t1.left));
    AffordedMore(t, t', turns + more, c * AccessCost(n), Cost(n));
  }

  /** The length of the leftmost path. */
  function LeftDepth(t: Tree): nat {
    if t.Leaf? || t.left.Leaf? then 0 else 1 + LeftDepth(t.left)
  }

  // ---------------------------------------------------------------- runs

  /** The potential of a tree of `n` elements is at most `n` to the `n`. */
  lemma {:induction false} WeightBound(t: Tree, n: nat)
    requires Size(t) <= n
    ensures Weight(t) <= PowerOf(n, Size(t))
  {
    if t.Bin? {
      var a, b := Size(t.left), Size(t.right);
      WeightBound(t.left, n);
      WeightBound(t.right, n);
      MulBoth(Weight(t.left), PowerOf(n, a), Weight(t.right), PowerOf(n, b));
      PowerOfSum(n, a, b);
      MulBoth(Size(t), n, Weight(t.left) * Weight(t.right), PowerOf(n, a + b));
    }
  }

  /** One more operation in a run. */
  lemma AffordedNext(t: Tree, t1: Tree, t2: Tree, k1: nat, k2: nat, c: nat, i: nat, d: nat)
    requires Afforded(t, t1, k1, PowerOf(c, i)) && Afforded(t1, t2, k2, d) && d <= c
    ensures Afforded(t, t2, k1 + k2, PowerOf(c, i + 1))
  {
    AffordedMore(t1, t2, k2, d, c);
    AffordedTwice(t, t1, t2, k1, k2, PowerOf(c, i), c);
  }

  /** What a run from `t` to `t'` costs: nothing of the potential of `t'` is needed. */
  lemma RunBound(t: Tree, t': Tree, turns: nat, c: nat)
    requires Afforded(t, t', turns, c)
    ensures Pow2(turns) <= c * Weight(t) && Pow2(turns) <= c * PowerOf(Size(t), Size(t))
  {
    MulMonotone(1, Weight(t'), Pow2(turns));
    WeightBound(t, Size(t));
    MulMonotone(Weight(t), PowerOf(Size(t), Size(t)), c);
  }
}
