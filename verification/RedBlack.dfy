/** The red-black half of `shell/include/tree.h`. */
module RedBlack {
  import opened Trees
  import opened RbShape

  function Painted(t: Tree, red: bool): (r: Tree)
    ensures InOrder(r) == InOrder(t)
  {
    if t.Leaf? then t else t.(red := red)
  }

  lemma RepBin(l: Tree, x: Node, red: bool, r: Tree, p: Node?)
    ensures Rep(Bin(l, x, red, r), p) <==>
              && x.parent == p && x.red == red && x.left == RootOf(l) && x.right == RootOf(r)
              && Rep(l, x) && Rep(r, x)
  {
  }

  /** What the pointers are when `x` is above `y` ... */
  lemma LinkedRight(x: Node, y: Node, rx: bool, ry: bool, a: Tree, b: Tree, d: Tree, c: Ctx, root: Node?)
    ensures Linked(c, Bin(a, x, rx, Bin(b, y, ry, d)), root) <==>
              && CtxRep(c, x, root) && x.parent == HoleParent(c) && x.red == rx && x.left == RootOf(a) && x.right == y
              && y.parent == x && y.red == ry && y.left == RootOf(b) && y.right == RootOf(d)
              && Rep(a, x) && Rep(b, y) && Rep(d, y)
  {
    hide Nodes, CtxNodes, CtxRep, Rep;
    RepBin(b, y, ry, d, x);
    RepBin(a, x, rx, Bin(b, y, ry, d), HoleParent(c));
  }

  /** ... and when `y` is above `x`. */
  lemma LinkedLeft(x: Node, y: Node, rx: bool, ry: bool, a: Tree, b: Tree, d: Tree, c: Ctx, root: Node?)
    ensures Linked(c, Bin(Bin(a, x, rx, b), y, ry, d), root) <==>
              && CtxRep(c, y, root) && y.parent == HoleParent(c) && y.red == ry && y.left == x && y.right == RootOf(d)
              && x.parent == y && x.red == rx && x.left == RootOf(a) && x.right == RootOf(b)
              && Rep(a, x) && Rep(b, x) && Rep(d, y)
  {
    hide Nodes, CtxNodes, CtxRep, Rep;
    RepBin(a, x, rx, b, y);
    RepBin(Bin(a, x, rx, b), y, ry, d, HoleParent(c));
  }

  // ---------------------------------------------------------------- colours during insertion

  function Depth(c: Ctx): nat {
    if c.Top? then 0 else 1 + Depth(c.up)
  }

  /** A path leaves room for what is below it. */
  lemma {:induction false} DepthBound(c: Ctx, t: Tree)
    ensures Depth(c) + Height(t) <= Height(Fill(c, t)) && (t.Bin? ==> Depth(c) < Height(Fill(c, t)))
    decreases c
  {
    if !c.Top? {
      DepthBound(c.up, Above(c, t));
    }
  }

  /** The tree on the other side of the hole's parent. */
  function Sibling(c: Ctx): Tree
    requires !c.Top?
  {
    if c.InLeft? then c.right else c.left
  }

  /** All is well but that the root of `t`, which is red, may have a red parent or be the root. */
  predicate RedAt(c: Ctx, t: Tree, h: nat) {
    IsRed(t) && Ok(t, h) && CtxOk(c, h)
  }

  /** `pt` and its red sibling made black and their parent made red. */
  function Recolored(cu: Ctx, pt: Tree): Tree
    requires !cu.Top?
  {
    match cu
    case InLeft(g, _, u, _) => Bin(Painted(pt, false), g, true, Painted(u, false))
    case InRight(u, g, _, _) => Bin(Painted(u, false), g, true, Painted(pt, false))
  }

  /** Recolouring moves the only flaw two levels up. */
  lemma RecoloredOk(c: Ctx, t: Tree, h: nat)
    requires RedAt(c, t, h) && ParentRed(c) && !c.up.Top? && IsRed(Sibling(c.up))
    ensures RedAt(c.up.up, Recolored(c.up, Above(c, t)), h + 1)
  {
    hide InOrder;
    var p, s := c.node, Sibling(c);
    assert Painted(Above(c, t), false) == if c.InLeft? then Bin(t, p, false, s) else Bin(s, p, false, t);
    assert Ok(Painted(Above(c, t), false), h + 1);
    var u := Sibling(c.up);
    assert CtxOk(c.up, h) && Ok(u, h);
    assert Painted(u, false) == Bin(u.left, u.node, false, u.right);
    assert Ok(Painted(u, false), h + 1);
  }

  /** A red node with one red child, on the left. */
  predicate RedLeft(q: Tree, h: nat) {
    IsRed(q) && IsRed(q.left) && !IsRed(q.right) && Ok(q.left, h) && Ok(q.right, h)
  }

  predicate RedRight(q: Tree, h: nat) {
    IsRed(q) && IsRed(q.right) && !IsRed(q.left) && Ok(q.left, h) && Ok(q.right, h)
  }

  /** A red node below a red one, once they are in line. */
  lemma InLine(c: Ctx, t: Tree, h: nat)
    requires RedAt(c, t, h) && ParentRed(c)
    ensures !c.up.Top? && !ParentRed(c.up) && CtxOk(c.up, h)
    ensures c.InLeft? ==> RedLeft(Above(c, t), h) && RedRight(RotatedRight(Above(c, t)), h)
    ensures c.InRight? ==> RedRight(Above(c, t), h) && RedLeft(RotatedLeft(Above(c, t)), h)
  {
    hide InOrder;
  }

  /** What the final rotation of the insertion fix-up leaves. */
  lemma LiftedOk(q: Tree, cu: Ctx, h: nat)
    requires !cu.Top? && !ParentRed(cu) && CtxOk(cu, h) && !IsRed(Sibling(cu))
    ensures cu.InLeft? && RedLeft(q, h) ==>
              RedAt(InLeft(q.node, false, Bin(q.right, cu.node, true, cu.right), cu.up), q.left, h)
    ensures cu.InRight? && RedRight(q, h) ==>
              RedAt(InRight(Bin(cu.left, cu.node, true, q.left), q.node, false, cu.up), q.right, h)
  {
  }

  lemma {:induction false} FilledBin(c: Ctx, t: Tree)
    requires t.Bin?
    ensures Fill(c, t).Bin?
    decreases c
  {
    if !c.Top? {
      FilledBin(c.up, Above(c, t));
    }
  }

  lemma {:induction false} FilledRoot(c: Ctx, t: Tree)
    requires !c.Top?
    ensures Fill(c, t).Bin? && Fill(c, t).node in CtxNodes(c)
    decreases c
  {
    if !c.up.Top? {
      FilledRoot(c.up, Above(c, t));
    }
  }

  /** Once the parent of the red node is black, or the red node is the root, blackening the root is all
      that is left to do. */
  lemma BlackenedOk(c: Ctx, t: Tree, h: nat)
    requires RedAt(c, t, h) && !ParentRed(c)
    ensures RedBlack(Painted(Fill(c, t), false))
  {
    hide InOrder;
    if c.Top? {
      assert Ok(Painted(t, false), h + 1);
      OkHeight(Painted(t, false), h + 1);
    } else {
      FillOk(c, t, h);
    }
  }

  // ---------------------------------------------------------------- colours during removal

  /** The tree in the hole has one black node too few on every path, which blackening its root, if that
      is red, makes up for. */
  predicate ShortAt(c: Ctx, t: Tree, h: nat) {
    CtxOk(c, h + 1) && if IsRed(t) then Ok(Painted(t, false), h + 1) else Ok(t, h)
  }

  /** `c` with `s` on the other side of the hole's parent, which has colour `red`. */
  function Beside(c: Ctx, red: bool, s: Tree): Ctx
    requires !c.Top?
  {
    if c.InLeft? then c.(red := red, right := s) else c.(red := red, left := s)
  }

  /** The hole of the sibling of `t`. */
  function Across(c: Ctx, t: Tree): Ctx
    requires !c.Top?
  {
    if c.InLeft? then InRight(t, c.node, c.red, c.up) else InLeft(c.node, c.red, t, c.up)
  }

  /** The nephew on the side of the hole, and the one on the far side. */
  function Near(c: Ctx): Tree
    requires !c.Top? && Sibling(c).Bin?
  {
    if c.InLeft? then c.right.left else c.left.right
  }

  function Far(c: Ctx): Tree
    requires !c.Top? && Sibling(c).Bin?
  {
    if c.InLeft? then c.right.right else c.left.left
  }

  /** `c` after a rotation at the hole's parent brought its red sibling above it. */
  function Lowered(c: Ctx): Ctx
    requires !c.Top? && Sibling(c).Bin?
  {
    if c.InLeft? then InLeft(c.node, true, c.right.left, InLeft(c.right.node, false, c.right.right, c.up))
    else InRight(c.left.right, c.node, true, InRight(c.left.left, c.left.node, false, c.up))
  }

  lemma SiblingBin(c: Ctx, t: Tree, h: nat)
    requires ShortAt(c, t, h) && !c.Top?
    ensures Sibling(c).Bin? && Ok(Sibling(c), h + 1)
  {
  }

  lemma LoweredOk(c: Ctx, t: Tree, h: nat)
    requires ShortAt(c, t, h) && !IsRed(t) && !c.Top? && IsRed(Sibling(c))
    ensures !c.red && ShortAt(Lowered(c), t, h) && Sibling(Lowered(c)).Bin? && !IsRed(Sibling(Lowered(c)))
  {
    hide InOrder;
    var s := Sibling(c);
    assert Ok(s.left, h + 1) && Ok(s.right, h + 1);
    assert CtxOk(Lowered(c).up, h + 1);
  }

  /** With two black nephews the sibling turns red and the parent is short instead. */
  lemma SiblingRedOk(c: Ctx, t: Tree, h: nat)
    requires ShortAt(c, t, h) && !IsRed(t) && !c.Top? && Sibling(c).Bin? && !IsRed(Sibling(c))
    requires !IsRed(Near(c)) && !IsRed(Far(c))
    ensures ShortAt(c.up, Above(Beside(c, c.red, Painted(Sibling(c), true)), t), if c.red then h else h + 1)
  {
    hide InOrder;
    var s := Sibling(c);
    var s' := Painted(s, true);
    assert s' == Bin(s.left, s.node, true, s.right) && Ok(s', h);
    var t' := Above(Beside(c, c.red, s'), t);
    assert Ok(Painted(t', false), h + 1) by {
      assert Painted(t', false) == if c.InLeft? then Bin(t, c.node, false, s') else Bin(s', c.node, false, t);
    }
  }

  /** A red near nephew rotated above the sibling, with their colours exchanged. */
  function Straightened(c: Ctx): Tree
    requires !c.Top? && Sibling(c).Bin? && Near(c).Bin?
  {
    var s, n := Sibling(c), Near(c);
    if c.InLeft? then Bin(n.left, n.node, false, Bin(n.right, s.node, true, s.right))
    else Bin(Bin(s.left, s.node, true, n.left), n.node, false, n.right)
  }

  lemma StraightenedOk(c: Ctx, t: Tree, h: nat)
    requires ShortAt(c, t, h) && !IsRed(t) && !c.Top? && Sibling(c).Bin? && !IsRed(Sibling(c))
    requires IsRed(Near(c)) && !IsRed(Far(c))
    ensures var c' := Beside(c, c.red, Straightened(c));
            ShortAt(c', t, h) && !IsRed(Sibling(c')) && IsRed(Far(c'))
  {
    hide InOrder;
    var s, n := Sibling(c), Near(c);
    assert Ok(n, h) && Ok(n.left, h) && Ok(n.right, h);
    assert Ok(Sibling(Beside(c, c.red, Straightened(c))), h + 1);
  }

  /** The last step: the sibling takes the parent's place and colour, the parent and the far nephew
      become black. */
  function Settled(c: Ctx, t: Tree): Tree
    requires !c.Top? && Sibling(c).Bin?
  {
    var s, far := Sibling(c), Painted(Far(c), false);
    if c.InLeft? then Bin(Bin(t, c.node, false, s.left), s.node, c.red, far)
    else Bin(far, s.node, c.red, Bin(s.right, c.node, false, t))
  }

  lemma SettledOk(c: Ctx, t: Tree, h: nat)
    requires ShortAt(c, t, h) && !IsRed(t) && !c.Top? && Sibling(c).Bin? && !IsRed(Sibling(c)) && IsRed(Far(c))
    ensures RedBlack(Fill(c.up, Settled(c, t)))
  {
    hide InOrder, Fill;
    var s, f := Sibling(c), Far(c);
    assert Ok(s, h + 1) && Ok(f, h);
    assert Painted(f, false) == Bin(f.left, f.node, false, f.right);
    assert Ok(Painted(f, false), h + 1) && Ok(Near(c), h);
    FillOk(c.up, Settled(c, t), if c.red then h + 1 else h + 2);
  }

  lemma BlackRoot(t: Tree)
    requires RedBlack(t)
    ensures ShortAt(Top, t, BlackHeight(t))
  {
  }

  /** When the loop ends blackening the root of `t` settles the debt. */
  lemma FilledShort(c: Ctx, t: Tree, h: nat)
    requires ShortAt(c, t, h) && (IsRed(t) || c.Top?)
    ensures RedBlack(Fill(c, Painted(t, false)))
  {
    hide InOrder;
    if IsRed(t) {
      FillOk(c, Painted(t, false), h + 1);
    } else {
      FillOk(c, t, h);
      assert Painted(t, false) == t;
    }
  }

  // ---------------------------------------------------------------- the successor's place

  /** The focus on a red-black tree. */
  predicate FocusOk(c: Ctx, t: Tree, h: nat) {
    CtxOk(c, h) && Ok(t, h) && (IsRed(t) ==> !c.Top? && !ParentRed(c))
  }

  /** The node `x` somewhere below the hole of `c`. */
  lemma {:induction false} Locate(c: Ctx, t: Tree, h: nat, x: Node) returns (c': Ctx, t': Tree, h': nat)
    requires x in Nodes(t) && FocusOk(c, t, h)
    ensures Fill(c', t') == Fill(c, t) && t'.Bin? && t'.node == x && FocusOk(c', t', h')
    decreases t
  {
    if t.node == x {
      c', t', h' := c, t, h;
    } else if x in Nodes(t.left) {
      c', t', h' := Locate(DownLeft(c, t), t.left, if t.red then h else h - 1, x);
    } else {
      c', t', h' := Locate(DownRight(c, t), t.right, if t.red then h else h - 1, x);
    }
  }

  /** `e` is reached from `base` by going left. */
  predicate Leftmost(e: Ctx, base: Ctx) {
    e == base || (e.InLeft? && Leftmost(e.up, base))
  }

  /** What fills the hole of `base` when `t` fills that of `e`. */
  function Plug(e: Ctx, base: Ctx, t: Tree): Tree
    requires Leftmost(e, base)
    decreases e
  {
    if e == base then t else Plug(e.up, base, Above(e, t))
  }

  function Tail(e: Ctx, base: Ctx): seq<Node>
    requires Leftmost(e, base)
    decreases e
  {
    if e == base then [] else [e.node] + InOrder(e.right) + Tail(e.up, base)
  }

  /** `e` with `base'` in place of `base`. */
  function Rebased(e: Ctx, base: Ctx, base': Ctx): Ctx
    requires Leftmost(e, base)
    decreases e
  {
    if e == base then base' else InLeft(e.node, e.red, e.right, Rebased(e.up, base, base'))
  }

  lemma {:induction false} PlugFill(e: Ctx, base: Ctx, t: Tree)
    requires Leftmost(e, base)
    ensures Fill(e, t) == Fill(base, Plug(e, base, t))
    ensures InOrder(Plug(e, base, t)) == InOrder(t) + Tail(e, base)
    decreases e
  {
    if e != base {
      PlugFill(e.up, base, Above(e, t));
      assert InOrder(t) + [e.node] + InOrder(e.right) + Tail(e.up, base) == InOrder(t) + Tail(e, base);
    }
  }

  lemma {:induction false} RebasedFill(e: Ctx, base: Ctx, base': Ctx, t: Tree)
    requires Leftmost(e, base)
    ensures Fill(Rebased(e, base, base'), t) == Fill(base', Plug(e, base, t))
    decreases e
  {
    if e != base {
      RebasedFill(e.up, base, base', Above(e, t));
    }
  }

  lemma {:induction false} RebasedDepth(e: Ctx, base: Ctx, base': Ctx)
    requires Leftmost(e, base) && Depth(base) == Depth(base')
    ensures Depth(Rebased(e, base, base')) == Depth(e)
    decreases e
  {
    if e != base {
      RebasedDepth(e.up, base, base');
    }
  }

  lemma {:induction false} RebasedOk(e: Ctx, base: Ctx, base': Ctx, h: nat)
    requires Leftmost(e, base) && base.InRight? && base'.InRight?
            && base' == InRight(base.left, base'.node, base.red, base.up)
    ensures CtxOk(Rebased(e, base, base'), h) == CtxOk(e, h) && ParentRed(Rebased(e, base, base')) == ParentRed(e)
    ensures Rebased(e, base, base').Top? == e.Top?
    decreases e
  {
    if e != base {
      RebasedOk(e.up, base, base', if e.red then h else h + 1);
    }
  }

  lemma {:induction false} BaseIn(e: Ctx, base: Ctx)
    requires Leftmost(e, base) && base.InRight?
    ensures base.node in CtxNodes(e)
  {
    if e != base {
      BaseIn(e.up, base);
    }
  }

  /** The hole's parent is the base's node only right below it. */
  lemma BaseParent(e: Ctx, base: Ctx)
    requires Leftmost(e, base) && base.InRight? && CtxProper(e)
    ensures HoleParent(e) == base.node <==> e == base
  {
    if e != base {
      BaseIn(e.up, base);
    }
  }

  lemma RebasedShort(e: Ctx, base: Ctx, base': Ctx, k: Tree, h: nat)
    requires Leftmost(e, base) && base.InRight? && base'.InRight?
            && base' == InRight(base.left, base'.node, base.red, base.up)
    ensures FocusOk(Rebased(e, base, base'), k, h) == FocusOk(e, k, h)
    ensures h > 0 ==> ShortAt(Rebased(e, base, base'), k, h - 1) == ShortAt(e, k, h - 1)
  {
    RebasedOk(e, base, base', h);
  }

  /** The order once the successor `s.node` is in the place of the removed node. */
  lemma SuccessorOrder(c: Ctx, t: Tree, e: Ctx, s: Tree)
    requires t.Bin? && s.Bin? && s.left.Leaf? && Leftmost(e, DownRight(c, t)) && t.right == Plug(e, DownRight(c, t), s)
    ensures var u := Plug(e, DownRight(c, t), s.right);
            InOrder(Fill(c, Bin(t.left, s.node, t.red, u))) == Pre(c) + InOrder(t.left) + InOrder(t.right) + Post(c)
  {
    hide Fill, Pre, Post, Plug, Leftmost, Tail;
    var base := DownRight(c, t);
    var u, tail := Plug(e, base, s.right), Tail(e, base);
    PlugFill(e, base, s);
    PlugFill(e, base, s.right);
    FillInOrder(c, Bin(t.left, s.node, t.red, u));
    Moved(Pre(c), InOrder(t.left), s.node, InOrder(s.right), tail, Post(c));
    assert InOrder(s) == [] + [s.node] + InOrder(s.right);
  }

  lemma Moved(a: seq<Node>, l: seq<Node>, x: Node, r: seq<Node>, tail: seq<Node>, p: seq<Node>)
    ensures a + (l + [x] + (r + tail)) + p == a + l + (([] + [x] + r) + tail) + p
  {
    assert l + [x] + (r + tail) == l + (([] + [x] + r) + tail);
  }

  /** The order without the root of `t`. */
  lemma RemovedOrder(c: Ctx, t: Tree)
    requires t.Bin? && Sorted(InOrder(Fill(c, t)))
    ensures var s, i := InOrder(Fill(c, t)), |Pre(c)| + |InOrder(t.left)|;
            && i < |s| && s[i] == t.node && Sorted(s[..i] + s[i + 1..])
            && s[..i] + s[i + 1..] == Pre(c) + InOrder(t.left) + InOrder(t.right) + Post(c)
    ensures InOrder(t.left) == [] ==>
            Pre(c) + InOrder(t.left) + InOrder(t.right) + Post(c) == Pre(c) + InOrder(t.right) + Post(c)
    ensures InOrder(t.right) == [] ==>
            Pre(c) + InOrder(t.left) + InOrder(t.right) + Post(c) == Pre(c) + InOrder(t.left) + Post(c)
  {
    hide Fill, Pre, Post, Sorted, InOrder;
    FillInOrder(c, t);
    InOrderBin(t);
    var l, r := InOrder(t.left), InOrder(t.right);
    WithoutMiddle(Pre(c), l, t.node, r, Post(c));
    SortedWithout(InOrder(Fill(c, t)), |Pre(c)| + |l|);
    NoMiddle(Pre(c), l, r);
  }

  /** Where the focused node is in order, and what its neighbours are. */
  lemma Place(c: Ctx, t: Tree, s: seq<Node>, i: int)
    requires t.Bin? && s == InOrder(Fill(c, t)) && Sorted(s) && 0 <= i < |s| && s[i] == t.node
    ensures i == |Pre(c)| + |InOrder(t.left)|
    ensures s[..i] == Pre(c) + InOrder(t.left) && s[i + 1..] == InOrder(t.right) + Post(c)
  {
    hide Fill, Pre, Post, InOrder;
    FillInOrder(c, t);
    InOrderBin(t);
    var k := |Pre(c)| + |InOrder(t.left)|;
    WithoutMiddle(Pre(c), InOrder(t.left), t.node, InOrder(t.right), Post(c));
    assert i == k;
    assert s[..i] == Pre(c) + InOrder(t.left);
    assert s[i + 1..] == InOrder(t.right) + Post(c);
  }

  lemma DownLeftRest(c: Ctx, t: Tree)
    requires t.Bin?
    ensures InOrder(t.left) + Post(DownLeft(c, t)) == InOrder(t) + Post(c)
  {
    assert InOrder(t.left) + (([t.node] + InOrder(t.right)) + Post(c)) == InOrder(t) + Post(c);
  }

  lemma DownRightRest(c: Ctx, t: Tree)
    requires t.Bin?
    ensures Pre(DownRight(c, t)) + InOrder(t.right) == Pre(c) + InOrder(t)
  {
    assert Pre(c) + (InOrder(t.left) + [t.node]) + InOrder(t.right) == Pre(c) + InOrder(t);
  }

  /** Taking out a node of a red-black tree whose one subtree is empty: all is well or one black node is
      missing. */
  lemma RemovedOk(c: Ctx, t: Tree, h: nat, k: Tree)
    requires FocusOk(c, t, h) && t.Bin? && ((t.left.Leaf? && k == t.right) || (t.right.Leaf? && k == t.left))
    ensures t.red ==> FocusOk(c, k, h)
    ensures !t.red ==> h > 0 && ShortAt(c, k, h - 1)
  {
    hide InOrder;
    if IsRed(k) {
      assert Painted(k, false) == Bin(k.left, k.node, false, k.right);
      if !t.red {
        assert Ok(k, h - 1);
        assert Ok(Painted(k, false), h);
      }
    }
  }

  // ---------------------------------------------------------------- search order

  /** The hole is where `key` belongs. */
  ghost predicate Between(c: Ctx, key: int) {
    AllBelow(Pre(c), key) && AllAbove(Post(c), key)
  }

  /** `t` without its root, as seen from one of its two subtrees. */
  function DownLeft(c: Ctx, t: Tree): Ctx
    requires t.Bin?
  {
    InLeft(t.node, t.red, t.right, c)
  }

  function DownRight(c: Ctx, t: Tree): Ctx
    requires t.Bin?
  {
    InRight(t.left, t.node, t.red, c)
  }

  lemma Descend(c: Ctx, t: Tree, key: int)
    requires t.Bin? && Sorted(InOrder(Fill(c, t))) && Between(c, key)
    ensures key < t.node.key ==> Between(DownLeft(c, t), key)
    ensures key > t.node.key ==> Between(DownRight(c, t), key)
  {
    hide Fill, InOrder, Sorted, AllAbove, AllBelow;
    var x, l, r := t.node, InOrder(t.left), InOrder(t.right);
    InOrderBin(t);
    FillInOrder(c, t);
    SortedParts(Pre(c), l, x, r, Post(c));
    if key < x.key {
      AllAboveCons(x, r + Post(c), key);
      assert Post(DownLeft(c, t)) == [x] + (r + Post(c));
    } else if key > x.key {
      AllBelowSnoc(Pre(c) + l, x, key);
      assert Pre(DownRight(c, t)) == (Pre(c) + l) + [x];
    }
  }

  /** Where the search for a key ends, the next element is the least that is not below the key. */
  lemma NextAbove(c: Ctx, key: int)
    requires Sorted(InOrder(Fill(c, Leaf))) && Between(c, key)
    ensures Post(c) != [] ==> Post(c)[0] in InOrder(Fill(c, Leaf)) && Post(c)[0].key >= key
    ensures forall i :: 0 <= i < |InOrder(Fill(c, Leaf))| && InOrder(Fill(c, Leaf))[i].key >= key ==>
              Post(c) != [] && Post(c)[0].key <= InOrder(Fill(c, Leaf))[i].key
  {
    hide Fill;
    FillInOrder(c, Leaf);
    var s := InOrder(Fill(c, Leaf));
    assert s == Pre(c) + Post(c);
    assert Post(c) != [] ==> s[|Pre(c)|] == Post(c)[0];
  }

  lemma InsertedOrder(c: Ctx, elm: Node)
    requires Sorted(InOrder(Fill(c, Leaf))) && Between(c, elm.key)
    ensures var s, i := InOrder(Fill(c, Leaf)), |Pre(c)|;
            i <= |s| && InOrder(Fill(c, Bin(Leaf, elm, true, Leaf))) == s[..i] + [elm] + s[i..]
    ensures Sorted(InOrder(Fill(c, Bin(Leaf, elm, true, Leaf))))
  {
    hide Fill, Pre, Post, Sorted, AllAbove, AllBelow;
    FillInOrder(c, Leaf);
    FillInOrder(c, Bin(Leaf, elm, true, Leaf));
    assert InOrder(Fill(c, Leaf)) == Pre(c) + Post(c);
    SortedWith(Pre(c), elm, Post(c));
    Halves(Pre(c), Post(c));
    assert InOrder(Bin(Leaf, elm, true, Leaf)) == [elm];
  }

  lemma NewNode(elm: Node, p: Node?)
    ensures Nodes(Leaf) == {} && Nodes(Bin(Leaf, elm, true, Leaf)) == {elm} && Proper(Bin(Leaf, elm, true, Leaf))
    ensures Rep(Bin(Leaf, elm, true, Leaf), p) <==> elm.parent == p && elm.red && elm.left == null && elm.right == null
  {
  }

  class RbTree {
    var root: Node?
    ghost var shape: Tree
    ghost var repr: set<Node>

    /** The nodes are linked as `shape` says, each in one place. */
    ghost predicate Shaped()
      reads this, repr
    {
      Nodes(shape) == repr && Linked(Top, shape, root) && Proper(shape)
    }

    /** The focus `c`, `t` on the tree is as the pointers are. */
    lemma Look(c: Ctx, t: Tree)
      requires Shaped() && shape == Fill(c, t)
      ensures Linked(c, t, root) && ProperParts(c, t)
      ensures repr == Nodes(t) + CtxNodes(c)
    {
      Focus(c, t, root);
      ProperFill(c, t);
      FillNodes(c, t);
    }

    lemma Unlook(c: Ctx, t: Tree)
      requires Linked(c, t, root) && ProperParts(c, t) && shape == Fill(c, t) && repr == Nodes(t) + CtxNodes(c)
      ensures Shaped()
    {
      Focus(c, t, root);
      ProperFill(c, t);
      FillNodes(c, t);
    }

    /** What the fields of the focused node and the colours of its children are. */
    lemma Fields(c: Ctx, t: Tree)
      requires Shaped() && shape == Fill(c, t) && t.Bin?
      ensures t.node.left == RootOf(t.left) && t.node.right == RootOf(t.right) && t.node.parent == HoleParent(c)
      ensures t.node.red == t.red
      ensures t.left.Bin? ==> t.left.node.red == t.left.red && t.left.node.parent == t.node
      ensures t.right.Bin? ==> t.right.node.red == t.right.red && t.right.node.parent == t.node
      ensures RootOf(t.left) != null ==> RootOf(t.left) != RootOf(t.right)
      ensures t.node in repr
    {
      Look(c, t);
      var l, r := t.left, t.right;
      if l.Bin? {
        RepBin(l.left, l.node, l.red, l.right, t.node);
      }
      if r.Bin? {
        RepBin(r.left, r.node, r.red, r.right, t.node);
      }
    }

    /** The pointer that led to `from` now leads to `to`. */
    method Relink(parent: Node?, from: Node, to: Node?, ghost c: Ctx)
      requires CtxRep(c, from, root) && CtxProper(c) && from !in CtxNodes(c) && parent == HoleParent(c)
      modifies this`root, CtxNodes(c)
      ensures CtxRep(c, to, root)
    {
      if parent != null {
        if parent.left == from {
          parent.left := to;
        } else {
          parent.right := to;
        }
      } else {
        root := to;
      }
    }

    method Adopt(child: Node?, parent: Node?, ghost t: Tree, ghost p: Node?)
      requires Rep(t, p) && Proper(t) && child == RootOf(t)
      modifies Nodes(t)
      ensures Rep(t, parent)
    {
      if child != null {
        child.parent := parent;
      }
    }

    /** `RB_COLOR(elm) = red` */
    method Paint(elm: Node, red: bool, ghost c: Ctx, ghost t: Tree)
      requires Shaped() && shape == Fill(c, t) && t.Bin? && elm == t.node
      modifies this`shape, repr
      ensures Shaped() && shape == Fill(c, Painted(t, red))
      ensures repr == old(repr) && InOrder(shape) == old(InOrder(shape))
    {
      hide Fill, InOrder;
      Look(c, t);
      SameInOrder(c, t, Painted(t, red));
      elm.red := red;
      shape := Fill(c, Painted(t, red));
      Unlook(c, Painted(t, red));
    }

    /** `RB_ROTATE_LEFT` */
    method RotateLeft(elm: Node, ghost c: Ctx, ghost t: Tree) returns (tmp: Node)
      requires Shaped() && shape == Fill(c, t) && t.Bin? && elm == t.node && t.right.Bin?
      modifies this`root, this`shape, repr
      ensures tmp == t.right.node && Shaped() && shape == Fill(c, RotatedLeft(t))
      ensures repr == old(repr) && InOrder(shape) == old(InOrder(shape))
    {
      hide RbTree.Shaped, Fill, InOrder, Nodes, CtxNodes, Rep, CtxRep, Linked, Proper, CtxProper;
      ghost var y, a, b, d := t.right.node, t.left, t.right.left, t.right.right;
      Look(c, t);
      SameInOrder(c, t, RotatedLeft(t));
      SeparateBoth(elm, y, t.red, t.right.red, a, b, d, CtxNodes(c));
      LinkedRight(elm, y, t.red, t.right.red, a, b, d, c, root);
      tmp := elm.right;
      elm.right := tmp.left;
      Adopt(elm.right, elm, b, tmp);
      assert CtxRep(c, elm, root) && Rep(a, elm) && Rep(d, tmp);
      tmp.parent := elm.parent;
      Relink(elm.parent, elm, tmp, c);
      assert Rep(a, elm) && Rep(b, elm) && Rep(d, tmp);
      tmp.left := elm;
      elm.parent := tmp;
      shape := Fill(c, RotatedLeft(t));
      LinkedLeft(elm, y, t.red, t.right.red, a, b, d, c, root);
      Unlook(c, RotatedLeft(t));
    }

    /** `RB_ROTATE_RIGHT` */
    method RotateRight(elm: Node, ghost c: Ctx, ghost t: Tree) returns (tmp: Node)
      requires Shaped() && shape == Fill(c, t) && t.Bin? && elm == t.node && t.left.Bin?
      modifies this`root, this`shape, repr
      ensures tmp == t.left.node && Shaped() && shape == Fill(c, RotatedRight(t))
      ensures repr == old(repr) && InOrder(shape) == old(InOrder(shape))
    {
      hide RbTree.Shaped, Fill, InOrder, Nodes, CtxNodes, Rep, CtxRep, Linked, Proper, CtxProper;
      ghost var x, a, b, d := t.left.node, t.left.left, t.left.right, t.right;
      Look(c, t);
      SameInOrder(c, t, RotatedRight(t));
      SeparateBoth(x, elm, t.left.red, t.red, a, b, d, CtxNodes(c));
      LinkedLeft(x, elm, t.left.red, t.red, a, b, d, c, root);
      tmp := elm.left;
      elm.left := tmp.right;
      Adopt(elm.left, elm, b, tmp);
      assert CtxRep(c, elm, root) && Rep(a, tmp) && Rep(d, elm);
      tmp.parent := elm.parent;
      Relink(elm.parent, elm, tmp, c);
      assert Rep(a, tmp) && Rep(b, elm) && Rep(d, elm);
      tmp.right := elm;
      elm.parent := tmp;
      shape := Fill(c, RotatedRight(t));
      LinkedRight(x, elm, t.left.red, t.red, a, b, d, c, root);
      Unlook(c, RotatedRight(t));
    }

    /** The uncle is red: the recolouring of `RB_INSERT_COLOR`. */
    method Recolor(parent: Node, gparent: Node, uncle: Node, ghost c: Ctx, ghost t: Tree, ghost h: nat)
      requires Shaped() && shape == Fill(c, t) && RedAt(c, t, h) && ParentRed(c) && !c.up.Top?
      requires parent == c.node && gparent == c.up.node && IsRed(Sibling(c.up)) && uncle == Sibling(c.up).node
      modifies this`shape, repr
      ensures Shaped() && repr == old(repr) && InOrder(shape) == old(InOrder(shape))
      ensures shape == Fill(c.up.up, Recolored(c.up, Above(c, t)))
      ensures RedAt(c.up.up, Recolored(c.up, Above(c, t)), h + 1)
    {
      hide RbTree.Shaped, InOrder, Nodes, CtxNodes, Ok, CtxOk;
      RecoloredOk(c, t, h);
      ghost var pt, u, g, cu := Above(c, t), Sibling(c.up), gparent, c.up;
      ghost var u', p' := Painted(u, false), Painted(pt, false);
      ghost var cOfUncle := if cu.InLeft? then InRight(pt, g, cu.red, cu.up) else InLeft(g, cu.red, pt, cu.up);
      Paint(uncle, false, cOfUncle, u);
      ghost var cOfParent := if cu.InLeft? then InLeft(g, cu.red, u', cu.up) else InRight(u', g, cu.red, cu.up);
      Paint(parent, false, cOfParent, pt);
      Paint(gparent, true, cu.up, Above(cOfParent, p'));
    }

    /** `RB_SET_BLACKRED` on a red node and its black parent followed by the rotation at the parent, which
        lies to the right; this ends the insertion fix-up. */
    method LiftRight(parent: Node, gparent: Node, ghost cu: Ctx, ghost q: Tree, ghost h: nat) returns (ghost c': Ctx)
      requires Shaped() && cu.InLeft? && shape == Fill(cu, q) && RedLeft(q, h) && CtxOk(cu, h) && !ParentRed(cu)
      requires !IsRed(cu.right) && parent == q.node && gparent == cu.node
      modifies this`root, this`shape, repr
      ensures Shaped() && repr == old(repr) && InOrder(shape) == old(InOrder(shape))
      ensures shape == Fill(c', q.left) && RedAt(c', q.left, h) && HoleParent(c') == parent && !ParentRed(c')
    {
      hide RbTree.Shaped, InOrder, Nodes, CtxNodes, Ok, CtxOk;
      LiftedOk(q, cu, h);
      ghost var q' := Painted(q, false);
      Paint(parent, false, cu, q);
      Paint(gparent, true, cu.up, Bin(q', gparent, cu.red, cu.right));
      var tmp := RotateRight(gparent, cu.up, Bin(q', gparent, true, cu.right));
      c' := InLeft(q.node, false, Bin(q.right, gparent, true, cu.right), cu.up);
    }

    /** The same with the parent to the left. */
    method LiftLeft(parent: Node, gparent: Node, ghost cu: Ctx, ghost q: Tree, ghost h: nat) returns (ghost c': Ctx)
      requires Shaped() && cu.InRight? && shape == Fill(cu, q) && RedRight(q, h) && CtxOk(cu, h) && !ParentRed(cu)
      requires !IsRed(cu.left) && parent == q.node && gparent == cu.node
      modifies this`root, this`shape, repr
      ensures Shaped() && repr == old(repr) && InOrder(shape) == old(InOrder(shape))
      ensures shape == Fill(c', q.right) && RedAt(c', q.right, h) && HoleParent(c') == parent && !ParentRed(c')
    {
      hide RbTree.Shaped, InOrder, Nodes, CtxNodes, Ok, CtxOk;
      LiftedOk(q, cu, h);
      ghost var q' := Painted(q, false);
      Paint(parent, false, cu, q);
      Paint(gparent, true, cu.up, Bin(cu.left, gparent, cu.red, q'));
      var tmp := RotateLeft(gparent, cu.up, Bin(cu.left, gparent, true, q'));
      c' := InRight(Bin(cu.left, gparent, true, q.left), q.node, false, cu.up);
    }

    /** One turn of the loop of `RB_INSERT_COLOR` for a parent that is a left child. */
    method InsertStepLeft(elm: Node, parent: Node, gparent: Node, ghost c: Ctx, ghost t: Tree, ghost h: nat)
      returns (next: Node, ghost c': Ctx, ghost t': Tree, ghost h': nat)
      requires Shaped() && shape == Fill(c, t) && RedAt(c, t, h) && ParentRed(c) && c.up.InLeft?
      requires elm == t.node && parent == c.node && gparent == c.up.node
      modifies this`root, this`shape, repr
      ensures Shaped() && repr == old(repr) && InOrder(shape) == old(InOrder(shape))
      ensures shape == Fill(c', t') && RedAt(c', t', h') && next == t'.node
      ensures ParentRed(c') ==> Depth(c') < Depth(c)
    {
      hide RbTree.Shaped, InOrder, Nodes, CtxNodes, Ok, CtxOk;
      next, t', h' := elm, t, h;
      ghost var cu, q := c.up, Above(c, t);
      InLine(c, t, h);
      Fields(c.up.up, Above(cu, q));
      var tmp := gparent.right;
      if tmp != null && tmp.red {
        Recolor(parent, gparent, tmp, c, t, h);
        next, c', t', h' := gparent, cu.up, Recolored(cu, q), h + 1;
        return;
      }
      Fields(cu, q);
      var p := parent;
      if parent.right == elm {
        tmp := RotateLeft(parent, cu, q);
        q := RotatedLeft(q);
        p := elm;
        next := parent;
      }
      c' := LiftRight(p, gparent, cu, q, h);
      t' := q.left;
    }

    /** One turn of the loop for a parent that is a right child. */
    method InsertStepRight(elm: Node, parent: Node, gparent: Node, ghost c: Ctx, ghost t: Tree, ghost h: nat)
      returns (next: Node, ghost c': Ctx, ghost t': Tree, ghost h': nat)
      requires Shaped() && shape == Fill(c, t) && RedAt(c, t, h) && ParentRed(c) && c.up.InRight?
      requires elm == t.node && parent == c.node && gparent == c.up.node
      modifies this`root, this`shape, repr
      ensures Shaped() && repr == old(repr) && InOrder(shape) == old(InOrder(shape))
      ensures shape == Fill(c', t') && RedAt(c', t', h') && next == t'.node
      ensures ParentRed(c') ==> Depth(c') < Depth(c)
    {
      hide RbTree.Shaped, InOrder, Nodes, CtxNodes, Ok, CtxOk;
      next, t', h' := elm, t, h;
      ghost var cu, q := c.up, Above(c, t);
      InLine(c, t, h);
      Fields(c.up.up, Above(cu, q));
      var tmp := gparent.left;
      if tmp != null && tmp.red {
        Recolor(parent, gparent, tmp, c, t, h);
        next, c', t', h' := gparent, cu.up, Recolored(cu, q), h + 1;
        return;
      }
      Fields(cu, q);
      var p := parent;
      if parent.left == elm {
        tmp := RotateRight(parent, cu, q);
        q := RotatedRight(q);
        p := elm;
        next := parent;
      }
      c' := LiftLeft(p, gparent, cu, q, h);
      t' := q.right;
    }

    /** `RB_INSERT_COLOR`: ends with a red-black tree of the same nodes in the same order. */
    method InsertColor(elm: Node, ghost c: Ctx, ghost t: Tree, ghost h: nat) returns (ghost turns: nat)
      requires Shaped() && shape == Fill(c, t) && RedAt(c, t, h) && elm == t.node
      modifies this`root, this`shape, repr
      ensures Shaped() && RedBlack(shape) && repr == old(repr) && InOrder(shape) == old(InOrder(shape))
      ensures turns <= Depth(c)
    {
      hide RbTree.Shaped, InOrder, Nodes, CtxNodes, Ok;
      var e, parent := elm, elm.parent;
      ghost var c0 := c;
      ghost var c, t, h := c, t, h;
      turns := 0;
      Fields(c, t);
      if !c.Top? {
        Fields(c.up, Above(c, t));
      }
      while parent != null && parent.red
        invariant Shaped() && repr == old(repr) && InOrder(shape) == old(InOrder(shape))
        invariant shape == Fill(c, t) && RedAt(c, t, h) && e == t.node && parent == HoleParent(c)
        invariant parent != null ==> parent.red == c.red
        invariant turns + (if ParentRed(c) then Depth(c) else 0) <= Depth(c0)
        decreases if ParentRed(c) then Depth(c) else 0
      {
        turns := turns + 1;
        var gparent := parent.parent;
        Fields(c.up, Above(c, t));
        Fields(c.up.up, Above(c.up, Above(c, t)));
        if parent == gparent.left {
          e, c, t, h := InsertStepLeft(e, parent, gparent, c, t, h);
        } else {
          e, c, t, h := InsertStepRight(e, parent, gparent, c, t, h);
        }
        parent := e.parent;
        Fields(c, t);
        if !c.Top? {
          Fields(c.up, Above(c, t));
        }
      }
      BlackenRoot(c, t, h);
    }

    /** The end of `RB_INSERT_COLOR`: `RB_COLOR(head->rbh_root) = RB_BLACK`. */
    method BlackenRoot(ghost c: Ctx, ghost t: Tree, ghost h: nat)
      requires Shaped() && shape == Fill(c, t) && RedAt(c, t, h) && !ParentRed(c)
      modifies this`root, this`shape, repr
      ensures Shaped() && RedBlack(shape) && repr == old(repr) && InOrder(shape) == old(InOrder(shape))
    {
      hide RbTree.Shaped, InOrder, Nodes, CtxNodes;
      FilledBin(c, t);
      Look(Top, shape);
      BlackenedOk(c, t, h);
      Paint(root, false, Top, shape);
    }

    // -------------------------------------------------------------- searching and inserting

    ghost predicate Valid()
      reads this, repr
    {
      Shaped() && RedBlack(shape) && Sorted(InOrder(shape))
    }

    /** The elements, in order. */
    ghost function Contents(): seq<Node>
      reads this
    {
      InOrder(shape)
    }

    constructor ()
      ensures Valid() && Contents() == [] && repr == {}
    {
      root, shape, repr := null, Leaf, {};
    }

    /** `RB_FIND` */
    method Find(key: int) returns (r: Node?, ghost turns: nat)
      requires Valid()
      ensures r != null ==> r in Contents() && r.key == key
      ensures r == null ==> forall i :: 0 <= i < |Contents()| ==> Contents()[i].key != key
      ensures turns <= Height(shape)
    {
      hide Height, Ok, RedBlack, Nodes;
      var tmp := root;
      turns := 0;
      ghost var c, t := Top, shape;
      while tmp != null
        invariant shape == Fill(c, t) && tmp == RootOf(t) && Between(c, key) && turns == Depth(c)
        decreases t
      {
        turns := turns + 1;
        DepthBound(c, t);
        Fields(c, t);
        Descend(c, t, key);
        FillInOrder(c, t);
        if key < tmp.key {
          tmp := tmp.left;
          c, t := DownLeft(c, t), t.left;
        } else if key > tmp.key {
          tmp := tmp.right;
          c, t := DownRight(c, t), t.right;
        } else {
          return tmp, turns;
        }
      }
      FillInOrder(c, t);
      DepthBound(c, t);
      return null, turns;
    }

    /** `RB_NFIND`: the least element that is not below the key. */
    method NFind(key: int) returns (r: Node?, ghost turns: nat)
      requires Valid()
      ensures r != null ==> r in Contents() && r.key >= key
      ensures forall i :: 0 <= i < |Contents()| && Contents()[i].key >= key ==> r != null && r.key <= Contents()[i].key
      ensures turns <= Height(shape)
    {
      hide Height, Ok, RedBlack, Nodes, InOrder, Sorted;
      var tmp := root;
      turns := 0;
      r := null;
      ghost var c, t := Top, shape;
      while tmp != null
        invariant shape == Fill(c, t) && tmp == RootOf(t) && Between(c, key) && turns == Depth(c)
        invariant r == if Post(c) == [] then null else Post(c)[0]
        decreases t
      {
        turns := turns + 1;
        DepthBound(c, t);
        Fields(c, t);
        Descend(c, t, key);
        FillInOrder(c, t);
        if key < tmp.key {
          r := tmp;
          tmp := tmp.left;
          c, t := DownLeft(c, t), t.left;
        } else if key > tmp.key {
          tmp := tmp.right;
          c, t := DownRight(c, t), t.right;
        } else {
          InOrderBin(t);
          assert Contents()[|Pre(c)| + |InOrder(t.left)|] == tmp;
          return tmp, turns;
        }
      }
      NextAbove(c, key);
      DepthBound(c, t);
    }

    /** `RB_MINMAX` */
    method MinMax(val: int) returns (r: Node?, ghost turns: nat)
      requires Valid()
      ensures Contents() == [] ==> r == null
      ensures Contents() != [] ==> r == if val < 0 then Contents()[0] else Contents()[|Contents()| - 1]
      ensures turns <= Height(shape)
    {
      var tmp := root;
      turns := 0;
      r := null;
      ghost var c, t := Top, shape;
      while tmp != null
        invariant shape == Fill(c, t) && tmp == RootOf(t) && r == HoleParent(c) && turns == Depth(c)
        invariant val < 0 ==> Pre(c) == [] && r == if Post(c) == [] then null else Post(c)[0]
        invariant val >= 0 ==> Post(c) == [] && r == if Pre(c) == [] then null else Pre(c)[|Pre(c)| - 1]
        decreases t
      {
        turns := turns + 1;
        Fields(c, t);
        r := tmp;
        if val < 0 {
          tmp := tmp.left;
          c, t := DownLeft(c, t), t.left;
        } else {
          tmp := tmp.right;
          c, t := DownRight(c, t), t.right;
        }
      }
      FillInOrder(c, t);
      DepthBound(c, t);
    }

    /** `RB_INSERT` linking the new element to its parent. */
    method LinkChild(elm: Node, parent: Node?, comp: int, ghost c: Ctx)
      requires CtxRep(c, null, root) && CtxProper(c) && parent == HoleParent(c)
      requires parent != null ==> (comp < 0 <==> c.InLeft?)
      modifies this`root, CtxNodes(c)
      ensures CtxRep(c, elm, root)
    {
      if parent != null {
        if comp < 0 {
          parent.left := elm;
        } else {
          parent.right := elm;
        }
      } else {
        root := elm;
      }
    }

    /** `RB_SET` and the link from the parent. */
    method Attach(elm: Node, parent: Node?, comp: int, ghost c: Ctx)
      requires Shaped() && shape == Fill(c, Leaf) && elm !in repr && parent == HoleParent(c)
      requires parent != null ==> (comp < 0 <==> c.InLeft?)
      modifies this, repr, elm
      ensures Shaped() && repr == old(repr) + {elm} && shape == Fill(c, Bin(Leaf, elm, true, Leaf))
    {
      hide RbTree.Shaped, Fill, InOrder, Nodes, CtxNodes, Rep, CtxRep, Proper, CtxProper;
      Look(c, Leaf);
      NewNode(elm, parent);
      elm.parent := parent;
      elm.left, elm.right := null, null;
      elm.red := true;
      LinkChild(elm, parent, comp, c);
      shape, repr := Fill(c, Bin(Leaf, elm, true, Leaf)), repr + {elm};
      NewNode(elm, parent);
      Unlook(c, Bin(Leaf, elm, true, Leaf));
    }

    /** `RB_INSERT`: returns the element with the same key if there is one, and otherwise inserts. */
    method Insert(elm: Node) returns (existing: Node?, ghost i: int, ghost turns: nat)
      requires Valid()
      modifies this, repr, elm
      ensures Valid()
      ensures existing != null ==>
                existing in old(Contents()) && existing.key == elm.key && Contents() == old(Contents())
                    && repr == old(repr)
      ensures existing == null ==>
                && 0 <= i <= |old(Contents())| && Contents() == old(Contents())[..i] + [elm] + old(Contents())[i..]
                && repr == old(repr) + {elm}
      ensures turns <= 2 * Height(old(shape))
    {
      var tmp := root;
      turns := 0;
      var parent: Node? := null;
      var comp := 0;
      ghost var c, t, h := Top, shape, BlackHeight(shape);
      while tmp != null
        invariant Valid() && shape == old(shape) && repr == old(repr) && turns == Depth(c)
        invariant shape == Fill(c, t) && tmp == RootOf(t) && parent == HoleParent(c) && Between(c, elm.key)
        invariant CtxOk(c, h) && Ok(t, h) && (IsRed(t) ==> !c.Top? && !ParentRed(c))
        invariant parent != null ==> (comp < 0 <==> c.InLeft?)
        decreases t
      {
        turns := turns + 1;
        DepthBound(c, t);
        Fields(c, t);
        Descend(c, t, elm.key);
        FillInOrder(c, t);
        parent := tmp;
        comp := elm.key - parent.key;
        if comp < 0 {
          tmp := tmp.left;
          c, t, h := DownLeft(c, t), t.left, if t.red then h else h - 1;
        } else if comp > 0 {
          tmp := tmp.right;
          c, t, h := DownRight(c, t), t.right, if t.red then h else h - 1;
        } else {
          return tmp, 0, turns;
        }
      }
      NotThere(c, elm);
      DepthBound(c, Leaf);
      Attach(elm, parent, comp, c);
      InsertedOrder(c, elm);
      ghost var more := InsertColor(elm, c, Bin(Leaf, elm, true, Leaf), 0);
      turns := turns + more;
      existing, i := null, |Pre(c)|;
    }

    lemma NotThere(c: Ctx, elm: Node)
      requires Shaped() && shape == Fill(c, Leaf) && Between(c, elm.key)
      ensures elm !in repr
    {
      FillInOrder(c, Leaf);
      InOrderNodes(shape);
    }

    // -------------------------------------------------------------- removing

    /** The red sibling is brought above the parent, which leaves a black sibling. */
    method LowerLeft(parent: Node, tmp: Node, ghost c: Ctx, ghost t: Tree, ghost h: nat) returns (sibling: Node)
      requires Shaped() && shape == Fill(c, t) && ShortAt(c, t, h) && !IsRed(t) && c.InLeft? && IsRed(c.right)
      requires parent == c.node && tmp == c.right.node
      modifies this`root, this`shape, repr
      ensures Shaped() && repr == old(repr) && InOrder(shape) == old(InOrder(shape))
      ensures shape == Fill(Lowered(c), t) && sibling == RootOf(Near(c))
    {
      hide RbTree.Shaped, InOrder, Nodes, CtxNodes, Ok, CtxOk;
      LoweredOk(c, t, h);
      ghost var s' := Painted(c.right, false);
      Paint(tmp, false, Across(c, t), c.right);
      Paint(parent, true, c.up, Bin(t, parent, c.red, s'));
      var top := RotateLeft(parent, c.up, Bin(t, parent, true, s'));
      Fields(Lowered(c).up, Above(Lowered(c), t));
      sibling := parent.right;
    }

    method LowerRight(parent: Node, tmp: Node, ghost c: Ctx, ghost t: Tree, ghost h: nat) returns (sibling: Node)
      requires Shaped() && shape == Fill(c, t) && ShortAt(c, t, h) && !IsRed(t) && c.InRight? && IsRed(c.left)
      requires parent == c.node && tmp == c.left.node
      modifies this`root, this`shape, repr
      ensures Shaped() && repr == old(repr) && InOrder(shape) == old(InOrder(shape))
      ensures shape == Fill(Lowered(c), t) && sibling == RootOf(Near(c))
    {
      hide RbTree.Shaped, InOrder, Nodes, CtxNodes, Ok, CtxOk;
      LoweredOk(c, t, h);
      ghost var s' := Painted(c.left, false);
      Paint(tmp, false, Across(c, t), c.left);
      Paint(parent, true, c.up, Bin(s', parent, c.red, t));
      var top := RotateRight(parent, c.up, Bin(s', parent, true, t));
      Fields(Lowered(c).up, Above(Lowered(c), t));
      sibling := parent.left;
    }

    /** Both nephews are black. */
    method RedSibling(tmp: Node, ghost c: Ctx, ghost t: Tree, ghost h: nat) returns (ghost t': Tree, ghost h': nat)
      requires Shaped() && shape == Fill(c, t) && ShortAt(c, t, h) && !IsRed(t) && !c.Top?
      requires Sibling(c).Bin? && !IsRed(Sibling(c)) && tmp == Sibling(c).node && !IsRed(Near(c)) && !IsRed(Far(c))
      modifies this`shape, repr
      ensures Shaped() && repr == old(repr) && InOrder(shape) == old(InOrder(shape))
      ensures shape == Fill(c.up, t') && ShortAt(c.up, t', h') && t'.Bin? && t'.node == c.node && t'.red == c.red
    {
      hide RbTree.Shaped, InOrder, Nodes, CtxNodes, Ok, CtxOk;
      SiblingRedOk(c, t, h);
      Paint(tmp, true, Across(c, t), Sibling(c));
      t' := Above(Beside(c, c.red, Painted(Sibling(c), true)), t);
      h' := if c.red then h else h + 1;
    }

    /** The far nephew is black: the near one, which is red, is rotated above the sibling. */
    method StraightenLeft(parent: Node, tmp: Node, ghost c: Ctx, ghost t: Tree, ghost h: nat) returns (sibling: Node)
      requires Shaped() && shape == Fill(c, t) && ShortAt(c, t, h) && !IsRed(t) && c.InLeft?
      requires Sibling(c).Bin? && !IsRed(Sibling(c)) && IsRed(Near(c)) && !IsRed(Far(c))
      requires parent == c.node && tmp == c.right.node
      modifies this`root, this`shape, repr
      ensures Shaped() && repr == old(repr) && InOrder(shape) == old(InOrder(shape))
      ensures shape == Fill(Beside(c, c.red, Straightened(c)), t) && sibling == Near(c).node
    {
      hide RbTree.Shaped, InOrder, Nodes, CtxNodes, Ok, CtxOk;
      ghost var s, n, ca := c.right, c.right.left, Across(c, t);
      ghost var n' := Painted(n, false);
      Fields(ca, s);
      var oleft := tmp.left;
      if oleft != null {
        Paint(oleft, false, InLeft(s.node, s.red, s.right, ca), n);
      }
      Paint(tmp, true, ca, Bin(n', s.node, s.red, s.right));
      oleft := RotateRight(tmp, ca, Bin(n', s.node, true, s.right));
      Fields(c.up, Above(Beside(c, c.red, Straightened(c)), t));
      sibling := parent.right;
    }

    method StraightenRight(parent: Node, tmp: Node, ghost c: Ctx, ghost t: Tree, ghost h: nat) returns (sibling: Node)
      requires Shaped() && shape == Fill(c, t) && ShortAt(c, t, h) && !IsRed(t) && c.InRight?
      requires Sibling(c).Bin? && !IsRed(Sibling(c)) && IsRed(Near(c)) && !IsRed(Far(c))
      requires parent == c.node && tmp == c.left.node
      modifies this`root, this`shape, repr
      ensures Shaped() && repr == old(repr) && InOrder(shape) == old(InOrder(shape))
      ensures shape == Fill(Beside(c, c.red, Straightened(c)), t) && sibling == Near(c).node
    {
      hide RbTree.Shaped, InOrder, Nodes, CtxNodes, Ok, CtxOk;
      ghost var s, n, ca := c.left, c.left.right, Across(c, t);
      ghost var n' := Painted(n, false);
      Fields(ca, s);
      var oright := tmp.right;
      if oright != null {
        Paint(oright, false, InRight(s.left, s.node, s.red, ca), n);
      }
      Paint(tmp, true, ca, Bin(s.left, s.node, s.red, n'));
      oright := RotateLeft(tmp, ca, Bin(s.left, s.node, true, n'));
      Fields(c.up, Above(Beside(c, c.red, Straightened(c)), t));
      sibling := parent.left;
    }

    /** The last step for a hole on the left. */
    method SettleLeft(parent: Node, tmp: Node, ghost c: Ctx, ghost t: Tree, ghost h: nat)
      requires Shaped() && shape == Fill(c, t) && ShortAt(c, t, h) && !IsRed(t) && c.InLeft?
      requires Sibling(c).Bin? && !IsRed(Sibling(c)) && IsRed(Far(c)) && parent == c.node && tmp == c.right.node
      modifies this`root, this`shape, repr
      ensures Shaped() && RedBlack(shape) && repr == old(repr) && InOrder(shape) == old(InOrder(shape))
    {
      hide RbTree.Shaped, InOrder, Nodes, CtxNodes, Ok, CtxOk;
      SettledOk(c, t, h);
      ghost var s, far, red := c.right, c.right.right, c.red;
      ghost var far' := Painted(far, false);
      Fields(c.up, Above(c, t));
      Paint(tmp, parent.red, Across(c, t), s);
      Paint(parent, false, c.up, Bin(t, parent, red, Bin(s.left, s.node, red, far)));
      Fields(InRight(t, parent, false, c.up), Bin(s.left, s.node, red, far));
      if tmp.right != null {
        Paint(tmp.right, false, InRight(s.left, s.node, red, InRight(t, parent, false, c.up)), far);
      }
      var top := RotateLeft(parent, c.up, Bin(t, parent, false, Bin(s.left, s.node, red, far')));
    }

    method SettleRight(parent: Node, tmp: Node, ghost c: Ctx, ghost t: Tree, ghost h: nat)
      requires Shaped() && shape == Fill(c, t) && ShortAt(c, t, h) && !IsRed(t) && c.InRight?
      requires Sibling(c).Bin? && !IsRed(Sibling(c)) && IsRed(Far(c)) && parent == c.node && tmp == c.left.node
      modifies this`root, this`shape, repr
      ensures Shaped() && RedBlack(shape) && repr == old(repr) && InOrder(shape) == old(InOrder(shape))
    {
      hide RbTree.Shaped, InOrder, Nodes, CtxNodes, Ok, CtxOk;
      SettledOk(c, t, h);
      ghost var s, far, red := c.left, c.left.left, c.red;
      ghost var far' := Painted(far, false);
      Fields(c.up, Above(c, t));
      Paint(tmp, parent.red, Across(c, t), s);
      Paint(parent, false, c.up, Bin(Bin(far, s.node, red, s.right), parent, red, t));
      Fields(InLeft(parent, false, t, c.up), Bin(far, s.node, red, s.right));
      if tmp.left != null {
        Paint(tmp.left, false, InLeft(s.node, red, s.right, InLeft(parent, false, t, c.up)), far);
      }
      var top := RotateRight(parent, c.up, Bin(Bin(far', s.node, red, s.right), parent, false, t));
    }

    /** One turn of the loop of `RB_REMOVE_COLOR` for a hole on the left. */
    method RemoveStepLeft(elm: Node?, parent: Node, ghost c: Ctx, ghost t: Tree, ghost h: nat)
      returns (done: bool, ghost c': Ctx, ghost t': Tree, ghost h': nat)
      requires Shaped() && shape == Fill(c, t) && ShortAt(c, t, h) && !IsRed(t) && c.InLeft?
      requires elm == RootOf(t) && parent == c.node
      modifies this`root, this`shape, repr
      ensures Shaped() && repr == old(repr) && InOrder(shape) == old(InOrder(shape))
      ensures done ==> RedBlack(shape)
      ensures !done ==> shape == Fill(c', t') && ShortAt(c', t', h') && t'.Bin? && t'.node == parent
      ensures !done ==> IsRed(t') || Depth(c') < Depth(c)
    {
      hide RbTree.Shaped, InOrder, Nodes, CtxNodes, Ok, CtxOk, RedBlack;
      c', t', h' := c, t, h;
      SiblingBin(c, t, h);
      Fields(c.up, Above(c, t));
      var tmp := parent.right;
      if tmp.red {
        LoweredOk(c, t, h);
        tmp := LowerLeft(parent, tmp, c, t, h);
        c' := Lowered(c);
      }
      Fields(Across(c', t), Sibling(c'));
      if (tmp.left == null || !tmp.left.red) && (tmp.right == null || !tmp.right.red) {
        t', h' := RedSibling(tmp, c', t, h);
        c' := c'.up;
        return false, c', t', h';
      }
      if tmp.right == null || !tmp.right.red {
        StraightenedOk(c', t, h);
        tmp := StraightenLeft(parent, tmp, c', t, h);
        c' := Beside(c', c'.red, Straightened(c'));
      }
      SettleLeft(parent, tmp, c', t, h);
      done := true;
    }

    /** One turn of the loop for a hole on the right. */
    method RemoveStepRight(elm: Node?, parent: Node, ghost c: Ctx, ghost t: Tree, ghost h: nat)
      returns (done: bool, ghost c': Ctx, ghost t': Tree, ghost h': nat)
      requires Shaped() && shape == Fill(c, t) && ShortAt(c, t, h) && !IsRed(t) && c.InRight?
      requires elm == RootOf(t) && parent == c.node
      modifies this`root, this`shape, repr
      ensures Shaped() && repr == old(repr) && InOrder(shape) == old(InOrder(shape))
      ensures done ==> RedBlack(shape)
      ensures !done ==> shape == Fill(c', t') && ShortAt(c', t', h') && t'.Bin? && t'.node == parent
      ensures !done ==> IsRed(t') || Depth(c') < Depth(c)
    {
      hide RbTree.Shaped, InOrder, Nodes, CtxNodes, Ok, CtxOk, RedBlack;
      c', t', h' := c, t, h;
      SiblingBin(c, t, h);
      Fields(c.up, Above(c, t));
      var tmp := parent.left;
      if tmp.red {
        LoweredOk(c, t, h);
        tmp := LowerRight(parent, tmp, c, t, h);
        c' := Lowered(c);
      }
      Fields(Across(c', t), Sibling(c'));
      if (tmp.left == null || !tmp.left.red) && (tmp.right == null || !tmp.right.red) {
        t', h' := RedSibling(tmp, c', t, h);
        c' := c'.up;
        return false, c', t', h';
      }
      if tmp.left == null || !tmp.left.red {
        StraightenedOk(c', t, h);
        tmp := StraightenRight(parent, tmp, c', t, h);
        c' := Beside(c', c'.red, Straightened(c'));
      }
      SettleRight(parent, tmp, c', t, h);
      done := true;
    }

    /** `RB_REMOVE_COLOR`: makes up for the black node that the tree at `elm` lacks. */
    method RemoveColor(parent: Node?, elm: Node?, ghost c: Ctx, ghost t: Tree, ghost h: nat) returns (ghost turns: nat)
      requires Shaped() && shape == Fill(c, t) && ShortAt(c, t, h) && elm == RootOf(t) && parent == HoleParent(c)
      modifies this`root, this`shape, repr
      ensures Shaped() && RedBlack(shape) && repr == old(repr) && InOrder(shape) == old(InOrder(shape))
      ensures turns <= Depth(c) + 1
    {
      hide RbTree.Shaped, InOrder, Nodes, CtxNodes, Ok, RedBlack;
      var e, p := elm, parent;
      ghost var c0 := c;
      ghost var c, t, h := c, t, h;
      turns := 0;
      Hole(c, t);
      while (e == null || !e.red) && e != root
        invariant Shaped() && repr == old(repr) && InOrder(shape) == old(InOrder(shape))
        invariant shape == Fill(c, t) && ShortAt(c, t, h) && e == RootOf(t) && p == HoleParent(c)
        invariant (e == root <==> c.Top?) && (e != null ==> e.red == t.red)
        invariant turns + (if IsRed(t) then 0 else Depth(c) + 1) <= Depth(c0) + 1
        decreases if IsRed(t) then 0 else Depth(c) + 1
      {
        turns := turns + 1;
        var done;
        Fields(c.up, Above(c, t));
        SiblingBin(c, t, h);
        if p.left == e {
          done, c, t, h := RemoveStepLeft(e, p, c, t, h);
        } else {
          done, c, t, h := RemoveStepRight(e, p, c, t, h);
        }
        if done {
          e := root;
          BlackRoot(shape);
          c, t, h := Top, shape, BlackHeight(shape);
          Hole(c, t);
          break;
        }
        e := p;
        Fields(c, t);
        p := e.parent;
        Hole(c, t);
      }
      FilledShort(c, t, h);
      if e != null {
        Paint(e, false, c, t);
      }
    }

    /** Whether the hole is at the top can be told from the pointers. */
    lemma Hole(c: Ctx, t: Tree)
      requires Shaped() && shape == Fill(c, t)
      ensures RootOf(t) == root <==> c.Top?
      ensures t.Bin? ==> t.node.red == t.red
    {
      Look(c, t);
      if !c.Top? {
        FilledRoot(c, t);
      }
    }

    /** `RB_REMOVE` taking out a node with one subtree: the subtree takes its place. */
    method Unlink(elm: Node, child: Node?, ghost c: Ctx, ghost t: Tree, ghost k: Tree)
      returns (parent: Node?, red: bool)
      requires Shaped() && shape == Fill(c, t) && t.Bin? && elm == t.node && child == RootOf(k)
      requires (t.left.Leaf? && k == t.right) || (t.right.Leaf? && k == t.left)
      modifies this, repr
      ensures Shaped() && shape == Fill(c, k) && repr == old(repr) - {elm}
      ensures parent == elm.parent == HoleParent(c) && red == t.red
    {
      hide Fill, InOrder, CtxNodes, Rep, CtxRep, Proper, CtxProper;
      Look(c, t);
      ProperBin(t.left, elm, t.red, t.right);
      RepBin(t.left, elm, t.red, t.right, HoleParent(c));
      parent := elm.parent;
      red := elm.red;
      Adopt(child, parent, k, elm);
      Relink(parent, elm, child, c);
      shape, repr := Fill(c, k), repr - {elm};
      Unlook(c, k);
    }

    /** `RB_REMOVE` putting `elm`, which is off the tree, in the place of `was`. */
    method Replace(was: Node, elm: Node, ghost c: Ctx, ghost t: Tree)
      requires Shaped() && shape == Fill(c, t) && t.Bin? && was == t.node && t.left.Bin? && elm !in repr
      modifies this, repr, elm
      ensures Shaped() && shape == Fill(c, Bin(t.left, elm, t.red, t.right)) && repr == old(repr) - {was} + {elm}
    {
      hide Fill, InOrder, Nodes, CtxNodes, Rep, CtxRep, Proper, CtxProper;
      Look(c, t);
      ProperBin(t.left, was, t.red, t.right);
      RepBin(t.left, was, t.red, t.right, HoleParent(c));
      elm.left, elm.right, elm.parent, elm.red := was.left, was.right, was.parent, was.red;
      assert CtxRep(c, was, root) && Rep(t.left, was) && Rep(t.right, was);
      Relink(was.parent, was, elm, c);
      assert Rep(t.left, was) && Rep(t.right, was);
      Adopt(was.left, elm, t.left, was);
      assert CtxRep(c, elm, root) && Rep(t.right, was);
      Adopt(was.right, elm, t.right, was);
      assert CtxRep(c, elm, root) && Rep(t.left, elm);
      shape, repr := Fill(c, Bin(t.left, elm, t.red, t.right)), repr - {was} + {elm};
      ProperBin(t.left, elm, t.red, t.right);
      RepBin(t.left, elm, t.red, t.right, HoleParent(c));
      Unlook(c, Bin(t.left, elm, t.red, t.right));
    }

    /** The tail of `RB_REMOVE`, from its label `color` on. */
    method Recover(parent: Node?, child: Node?, red: bool, ghost c: Ctx, ghost k: Tree, ghost h: nat)
      returns (ghost turns: nat)
      requires Shaped() && shape == Fill(c, k) && child == RootOf(k) && parent == HoleParent(c)
      requires if red then FocusOk(c, k, h) else h > 0 && ShortAt(c, k, h - 1)
      modifies this`root, this`shape, repr
      ensures Shaped() && RedBlack(shape) && repr == old(repr) && InOrder(shape) == old(InOrder(shape))
      ensures turns <= Depth(c) + 1
    {
      hide RbTree.Shaped, InOrder, Ok, CtxOk, RedBlack;
      if !red {
        turns := RemoveColor(parent, child, c, k, h - 1);
      } else {
        turns := 0;
        FillOk(c, k, h);
      }
    }

    /** The walk of `RB_REMOVE` to the successor of `t.node`. */
    method Successor(elm: Node, ghost c: Ctx, ghost t: Tree, ghost h: nat)
      returns (next: Node, ghost e: Ctx, ghost s: Tree, ghost h': nat, ghost turns: nat)
      requires Shaped() && shape == Fill(c, t) && FocusOk(c, t, h) && t.Bin? && elm == t.node && t.right.Bin?
      ensures Leftmost(e, DownRight(c, t)) && shape == Fill(e, s) && FocusOk(e, s, h')
      ensures s.Bin? && next == s.node && s.left.Leaf? && t.right == Plug(e, DownRight(c, t), s)
      ensures next.right == RootOf(s.right) && Depth(e) == Depth(c) + 1 + turns
    {
      hide RbTree.Shaped, InOrder, Nodes, CtxNodes;
      Fields(c, t);
      next := elm.right;
      e, s, h' := DownRight(c, t), t.right, if t.red then h else h - 1;
      turns := 0;
      Fields(e, s);
      var left := next.left;
      while left != null
        invariant Leftmost(e, DownRight(c, t)) && shape == Fill(e, s) && FocusOk(e, s, h')
        invariant s.Bin? && next == s.node && left == RootOf(s.left) && t.right == Plug(e, DownRight(c, t), s)
        invariant next.right == RootOf(s.right) && Depth(e) == Depth(c) + 1 + turns
        decreases s
      {
        turns := turns + 1;
        next := left;
        e, s, h' := DownLeft(e, s), s.left, if s.red then h' else h' - 1;
        Fields(e, s);
        left := next.left;
      }
    }

    /** The walk of `RB_REMOVE` from the parent of the hole to the root; `RB_AUGMENT` is empty. */
    method WalkUp(parent: Node?, ghost c: Ctx, ghost k: Tree) returns (ghost turns: nat)
      requires Shaped() && shape == Fill(c, k) && parent == HoleParent(c)
      ensures turns == Depth(c)
    {
      hide RbTree.Shaped;
      ghost var d, x := c, k;
      turns := 0;
      var left := parent;
      while left != null
        invariant shape == Fill(d, x) && left == HoleParent(d) && turns + Depth(d) == Depth(c)
        decreases d
      {
        turns := turns + 1;
        d, x := d.up, Above(d, x);
        Fields(d, x);
        left := left.parent;
      }
    }

    /** `RB_REMOVE` when the element has two subtrees: its successor takes its place. */
    method RemoveInner(was: Node, ghost c: Ctx, ghost t: Tree, ghost h: nat) returns (ghost turns: nat)
      requires Shaped() && shape == Fill(c, t) && FocusOk(c, t, h) && t.Bin? && was == t.node
      requires t.left.Bin? && t.right.Bin?
      modifies this, repr
      ensures Shaped() && RedBlack(shape) && repr == old(repr) - {was}
      ensures InOrder(shape) == Pre(c) + InOrder(t.left) + InOrder(t.right) + Post(c)
      ensures turns <= 3 * Height(old(shape))
    {
      hide RbTree.Shaped, InOrder, Nodes, CtxNodes, Ok, CtxOk, RedBlack, FocusOk, ShortAt, Pre, Post;
      ghost var e, s, h';
      var elm;
      elm, e, s, h', turns := Successor(was, c, t, h);
      DepthBound(e, s);
      var child := elm.right;
      ghost var base, k := DownRight(c, t), s.right;
      ghost var base' := InRight(t.left, elm, t.red, c);
      ghost var u := Plug(e, base, k);
      Distinct(e, s, base);
      RemovedOk(e, s, h', k);
      PlugFill(e, base, s);
      PlugFill(e, base, k);
      RebasedFill(e, base, base', k);
      RebasedDepth(e, base, base');
      SuccessorOrder(c, t, e, s);
      RebasedShort(e, base, base', k, h');
      var parent, red := Unlink(elm, child, e, s, k);
      if elm.parent == was {
        parent := elm;
      }
      Replace(was, elm, c, Bin(t.left, was, t.red, u));
      ghost var up := WalkUp(parent, Rebased(e, base, base'), k);
      ghost var more := Recover(parent, child, red, Rebased(e, base, base'), k, h');
      turns := turns + up + more;
    }

    lemma Distinct(e: Ctx, s: Tree, base: Ctx)
      requires Shaped() && shape == Fill(e, s) && s.Bin? && Leftmost(e, base) && base.InRight?
      ensures s.node != base.node && base.node in repr && s.node in repr
      ensures HoleParent(e) == base.node <==> e == base
    {
      Look(e, s);
      BaseIn(e, base);
      BaseParent(e, base);
    }

    /** `RB_REMOVE`: removes exactly the element it is given. */
    method Remove(elm: Node) returns (was: Node, ghost i: int, ghost turns: nat)
      requires Valid() && elm in repr
      modifies this, repr
      ensures Valid() && was == elm && repr == old(repr) - {elm}
      ensures 0 <= i < |old(Contents())| && old(Contents())[i] == elm
      ensures Contents() == old(Contents())[..i] + old(Contents())[i + 1..]
      ensures turns <= 3 * Height(old(shape))
    {
      hide RbTree.Shaped, InOrder, Nodes, CtxNodes, Ok, CtxOk, Pre, Post, Fill;
      ghost var c, t, h := FocusOn(elm);
      RemovedOrder(c, t);
      InOrderBin(t);
      i := |Pre(c)| + |InOrder(t.left)|;
      ghost var s0 := InOrder(shape);
      Fields(c, t);
      was := elm;
      var child;
      if elm.left == null {
        child := elm.right;
      } else if elm.right == null {
        child := elm.left;
      } else {
        turns := RemoveInner(elm, c, t, h);
        return;
      }
      ghost var k := if t.left.Leaf? then t.right else t.left;
      RemovedOk(c, t, h, k);
      DepthBound(c, t);
      var parent, red := Unlink(elm, child, c, t, k);
      FillInOrder(c, k);
      turns := Recover(parent, child, red, c, k, h);
    }

    lemma FocusOn(elm: Node) returns (c: Ctx, t: Tree, h: nat)
      requires Valid() && elm in repr
      ensures shape == Fill(c, t) && t.Bin? && t.node == elm && FocusOk(c, t, h)
    {
      c, t, h := Locate(Top, shape, BlackHeight(shape), elm);
    }

    // -------------------------------------------------------------- neighbours and iteration

    /** `RB_NEXT` */
    method Next(elm: Node, ghost i: int) returns (r: Node?, ghost turns: nat)
      requires Valid() && 0 <= i < |Contents()| && Contents()[i] == elm
      ensures r == if i + 1 < |Contents()| then Contents()[i + 1] else null
      ensures turns <= Height(shape)
    {
      hide RbTree.Shaped, InOrder, Nodes, Ok, CtxOk, Sorted, RedBlack;
      ghost var c, t := FocusOf(elm);
      ghost var s := Contents();
      ghost var c0 := c;
      turns := 0;
      DepthBound(c, t);
      Place(c, t, s, i);
      Fields(c, t);
      var e := elm;
      if e.right != null {
        r, turns := FirstOfRight(e, c, t);
        return;
      }
      InOrderBin(t);
      assert s[i + 1..] == Post(c);
      if e.parent != null && e == e.parent.left {
        ParentFields(c, t);
        return e.parent, 0;
      }
      ParentFields(c, t);
      while e.parent != null && e == e.parent.right
        invariant shape == Fill(c, t) && t.Bin? && e == t.node && s[i + 1..] == Post(c) && e.parent == HoleParent(c)
        invariant e.parent != null ==> (e == e.parent.left <==> c.InLeft?) && (e == e.parent.right <==> c.InRight?)
        invariant turns + Depth(c) == Depth(c0)
        decreases Depth(c)
      {
        turns := turns + 1;
        e := e.parent;
        c, t := c.up, Above(c, t);
        Fields(c, t);
        ParentFields(c, t);
      }
      r := e.parent;
    }

    /** `RB_PREV` */
    method Prev(elm: Node, ghost i: int) returns (r: Node?, ghost turns: nat)
      requires Valid() && 0 <= i < |Contents()| && Contents()[i] == elm
      ensures r == if i > 0 then Contents()[i - 1] else null
      ensures turns <= Height(shape)
    {
      hide RbTree.Shaped, InOrder, Nodes, Ok, CtxOk, Sorted, RedBlack;
      ghost var c, t := FocusOf(elm);
      ghost var s := Contents();
      ghost var c0 := c;
      turns := 0;
      DepthBound(c, t);
      Place(c, t, s, i);
      Fields(c, t);
      var e := elm;
      if e.left != null {
        r, turns := LastOfLeft(e, c, t);
        return;
      }
      InOrderBin(t);
      assert s[..i] == Pre(c);
      if e.parent != null && e == e.parent.right {
        ParentFields(c, t);
        return e.parent, 0;
      }
      ParentFields(c, t);
      while e.parent != null && e == e.parent.left
        invariant shape == Fill(c, t) && t.Bin? && e == t.node && s[..i] == Pre(c) && e.parent == HoleParent(c)
        invariant e.parent != null ==> (e == e.parent.left <==> c.InLeft?) && (e == e.parent.right <==> c.InRight?)
        invariant turns + Depth(c) == Depth(c0)
        decreases Depth(c)
      {
        turns := turns + 1;
        e := e.parent;
        c, t := c.up, Above(c, t);
        Fields(c, t);
        ParentFields(c, t);
      }
      r := e.parent;
    }

    /** The first loop of `RB_NEXT`. */
    method FirstOfRight(elm: Node, ghost c: Ctx, ghost t: Tree) returns (e: Node, ghost turns: nat)
      requires Shaped() && shape == Fill(c, t) && t.Bin? && elm == t.node && t.right.Bin?
      ensures var rest := InOrder(t.right) + Post(c); rest != [] && rest[0] == e
      ensures turns <= Height(shape)
    {
      hide RbTree.Shaped, InOrder, Nodes, CtxNodes, Height;
      Fields(c, t);
      e := elm.right;
      ghost var d, s := DownRight(c, t), t.right;
      turns := 0;
      Fields(d, s);
      while e.left != null
        invariant shape == Fill(d, s) && s.Bin? && e == s.node && e.left == RootOf(s.left)
        invariant InOrder(s) + Post(d) == InOrder(t.right) + Post(c)
        invariant turns <= Depth(d)
        decreases s
      {
        turns := turns + 1;
        e := e.left;
        DownLeftRest(d, s);
        d, s := DownLeft(d, s), s.left;
        Fields(d, s);
      }
      InOrderBin(s);
      DepthBound(d, s);
    }

    /** The first loop of `RB_PREV`. */
    method LastOfLeft(elm: Node, ghost c: Ctx, ghost t: Tree) returns (e: Node, ghost turns: nat)
      requires Shaped() && shape == Fill(c, t) && t.Bin? && elm == t.node && t.left.Bin?
      ensures var rest := Pre(c) + InOrder(t.left); rest != [] && rest[|rest| - 1] == e
      ensures turns <= Height(shape)
    {
      hide RbTree.Shaped, InOrder, Nodes, CtxNodes, Height;
      Fields(c, t);
      e := elm.left;
      ghost var d, s := DownLeft(c, t), t.left;
      turns := 0;
      Fields(d, s);
      while e.right != null
        invariant shape == Fill(d, s) && s.Bin? && e == s.node && e.right == RootOf(s.right)
        invariant Pre(d) + InOrder(s) == Pre(c) + InOrder(t.left)
        invariant turns <= Depth(d)
        decreases s
      {
        turns := turns + 1;
        e := e.right;
        DownRightRest(d, s);
        d, s := DownRight(d, s), s.right;
        Fields(d, s);
      }
      InOrderBin(s);
      DepthBound(d, s);
    }

    lemma FocusOf(elm: Node) returns (c: Ctx, t: Tree)
      requires Valid() && elm in Contents()
      ensures shape == Fill(c, t) && t.Bin? && t.node == elm
    {
      InOrderNodes(shape);
      var h;
      c, t, h := FocusOn(elm);
    }

    /** On which side of its parent the focused node is can be told from the pointers. */
    lemma ParentFields(c: Ctx, t: Tree)
      requires Shaped() && shape == Fill(c, t) && t.Bin?
      ensures HoleParent(c) != null ==>
                && (t.node == HoleParent(c).left <==> c.InLeft?) && (t.node == HoleParent(c).right <==> c.InRight?)
    {
      if !c.Top? {
        Fields(c.up, Above(c, t));
        Look(c, t);
      }
    }

    /** `RB_FOREACH`: every element once, in order. */
    method Foreach() returns (visited: seq<Node>)
      requires Valid()
      ensures visited == Contents()
    {
      hide RbTree.Valid, InOrder;
      visited := [];
      ghost var turns;
      var x;
      x, turns := MinMax(-1);
      while x != null
        invariant |visited| <= |Contents()| && visited == Contents()[..|visited|]
        invariant x == if |visited| < |Contents()| then Contents()[|visited|] else null
        decreases |Contents()| - |visited|
      {
        visited := visited + [x];
        x, turns := Next(x, |visited| - 1);
      }
    }
  }
}
