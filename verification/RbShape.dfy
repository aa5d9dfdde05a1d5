/** Red-black trees of `shell/include/tree.h`: the nodes, the shape of a tree as a value, and the shape
    of a tree with a hole.

    A tree whose root is at the end of a path from the root of the whole tree is described by a pair: a
    `Ctx`, which lists the path from the hole up to the top with what hangs off it, and the `Tree` that
    fills the hole.  The fix-up loops move this focus and change the tree only around it. */
module RbShape {
  import opened DivMod
  import opened Trees

  /** `InLeft`: the hole is the left child of `node`. */
  datatype Ctx = Top
               | InLeft(node: Node, red: bool, right: Tree, up: Ctx)
               | InRight(left: Tree, node: Node, red: bool, up: Ctx)

  ghost function CtxNodes(c: Ctx): set<Node> {
    match c
    case Top => {}
    case InLeft(x, _, r, up) => {x} + Nodes(r) + CtxNodes(up)
    case InRight(l, x, _, up) => Nodes(l) + {x} + CtxNodes(up)
  }

  /** The node of which the hole is a child. */
  function HoleParent(c: Ctx): Node? {
    if c.Top? then null else c.node
  }

  /** The tree at the parent of the hole, once `t` fills the hole. */
  function Above(c: Ctx, t: Tree): Tree
    requires !c.Top?
  {
    match c
    case InLeft(x, red, r, _) => Bin(t, x, red, r)
    case InRight(l, x, red, _) => Bin(l, x, red, t)
  }

  /** The whole tree. */
  function Fill(c: Ctx, t: Tree): Tree
    decreases c
  {
    if c.Top? then t else Fill(c.up, Above(c, t))
  }

  /** What comes before the hole in order, and after it. */
  function Pre(c: Ctx): seq<Node> {
    match c
    case Top => []
    case InLeft(_, _, _, up) => Pre(up)
    case InRight(l, x, _, up) => Pre(up) + (InOrder(l) + [x])
  }

  function Post(c: Ctx): seq<Node> {
    match c
    case Top => []
    case InLeft(x, _, r, up) => ([x] + InOrder(r)) + Post(up)
    case InRight(_, _, _, up) => Post(up)
  }

  lemma {:induction false} FillInOrder(c: Ctx, t: Tree)
    ensures InOrder(Fill(c, t)) == Pre(c) + InOrder(t) + Post(c)
    decreases c
  {
    match c
    case Top =>
    case InLeft(x, red, r, up) =>
      FillInOrder(up, Bin(t, x, red, r));
      Regroup(Pre(up), InOrder(t), [x], InOrder(r), Post(up));
    case InRight(l, x, red, up) =>
      FillInOrder(up, Bin(l, x, red, t));
      Regroup(Pre(up), InOrder(l), [x], InOrder(t), Post(up));
  }

  lemma SameInOrder(c: Ctx, t: Tree, t': Tree)
    requires InOrder(t') == InOrder(t)
    ensures InOrder(Fill(c, t')) == InOrder(Fill(c, t))
  {
    FillInOrder(c, t);
    FillInOrder(c, t');
  }

  lemma {:induction false} FillNodes(c: Ctx, t: Tree)
    ensures Nodes(Fill(c, t)) == Nodes(t) + CtxNodes(c)
    decreases c
  {
    if !c.Top? {
      FillNodes(c.up, Above(c, t));
    }
  }

  // ---------------------------------------------------------------- each node once

  ghost predicate CtxProper(c: Ctx) {
    match c
    case Top => true
    case InLeft(x, _, r, up) =>
      && x !in Nodes(r) && x !in CtxNodes(up)
      && Nodes(r) !! CtxNodes(up) && Proper(r) && CtxProper(up)
    case InRight(l, x, _, up) =>
      && x !in Nodes(l) && x !in CtxNodes(up)
      && Nodes(l) !! CtxNodes(up) && Proper(l) && CtxProper(up)
  }

  ghost predicate ProperParts(c: Ctx, t: Tree) {
    Proper(t) && CtxProper(c) && Nodes(t) !! CtxNodes(c)
  }

  lemma {:induction false} ProperFill(c: Ctx, t: Tree)
    ensures Proper(Fill(c, t)) <==> ProperParts(c, t)
    decreases c
  {
    if !c.Top? {
      ProperFill(c.up, Above(c, t));
    }
  }

  // ---------------------------------------------------------------- pointers

  /** The nodes of `t` are linked as `t` says, below parent `p`. */
  ghost predicate Rep(t: Tree, p: Node?)
    reads Nodes(t)
  {
    match t
    case Leaf => true
    case Bin(l, x, red, r) =>
      && x.parent == p && x.red == red && x.left == RootOf(l) && x.right == RootOf(r)
      && Rep(l, x) && Rep(r, x)
  }

  /** The nodes of `c` are linked as `c` says, with `n` where the hole is. */
  ghost predicate CtxRep(c: Ctx, n: Node?, root: Node?)
    reads CtxNodes(c)
  {
    match c
    case Top => root == n
    case InLeft(x, red, r, up) =>
      && x.parent == HoleParent(up) && x.red == red && x.left == n && x.right == RootOf(r)
      && Rep(r, x) && CtxRep(up, x, root)
    case InRight(l, x, red, up) =>
      && x.parent == HoleParent(up) && x.red == red && x.left == RootOf(l) && x.right == n
      && Rep(l, x) && CtxRep(up, x, root)
  }

  ghost predicate Linked(c: Ctx, t: Tree, root: Node?)
    reads CtxNodes(c), Nodes(t)
  {
    CtxRep(c, RootOf(t), root) && Rep(t, HoleParent(c))
  }

  lemma {:induction false} Focus(c: Ctx, t: Tree, root: Node?)
    ensures Linked(Top, Fill(c, t), root) <==> Linked(c, t, root)
    decreases c
  {
    if !c.Top? {
      Focus(c.up, Above(c, t), root);
    }
  }

  // ---------------------------------------------------------------- colours

  predicate IsRed(t: Tree) {
    t.Bin? && t.red
  }

  predicate ParentRed(c: Ctx) {
    !c.Top? && c.red
  }

  /** No red node has a red child, and every path down has `h` black nodes. */
  predicate Ok(t: Tree, h: nat) {
    match t
    case Leaf => h == 0
    case Bin(l, _, red, r) =>
      if red then !IsRed(l) && !IsRed(r) && Ok(l, h) && Ok(r, h)
      else h > 0 && Ok(l, h - 1) && Ok(r, h - 1)
  }

  /** With a black tree of black height `h` in the hole this is a red-black tree with a black root. */
  predicate CtxOk(c: Ctx, h: nat) {
    match c
    case Top => true
    case InLeft(_, red, r, up) =>
      Ok(r, h) && if red then !IsRed(r) && !up.Top? && !ParentRed(up) && CtxOk(up, h) else CtxOk(up, h + 1)
    case InRight(l, _, red, up) =>
      Ok(l, h) && if red then !IsRed(l) && !up.Top? && !ParentRed(up) && CtxOk(up, h) else CtxOk(up, h + 1)
  }

  /** The black height of a red-black tree, which every path shares. */
  function BlackHeight(t: Tree): nat {
    if t.Leaf? then 0 else BlackHeight(t.left) + if t.red then 0 else 1
  }

  /** A red-black tree: black root, no red node with a red child, as many black nodes on every path. */
  predicate RedBlack(t: Tree) {
    !IsRed(t) && Ok(t, BlackHeight(t))
  }

  lemma {:induction false} OkHeight(t: Tree, h: nat)
    requires Ok(t, h)
    ensures h == BlackHeight(t)
  {
    if t.Bin? {
      OkHeight(t.left, if t.red then h else h - 1);
    }
  }

  /** A focus whose two parts fit is a red-black tree. */
  lemma {:induction false} FillOk(c: Ctx, t: Tree, h: nat)
    requires CtxOk(c, h) && Ok(t, h) && (IsRed(t) ==> !c.Top? && !ParentRed(c))
    ensures RedBlack(Fill(c, t))
    decreases c
  {
    if c.Top? {
      OkHeight(t, h);
    } else {
      FillOk(c.up, Above(c, t), if c.red then h else h + 1);
    }
  }

  function Height(t: Tree): nat {
    if t.Leaf? then 0
    else 1 + if Height(t.left) > Height(t.right) then Height(t.left) else Height(t.right)
  }

  lemma {:induction false} FullEnough(t: Tree, h: nat)
    requires Ok(t, h)
    ensures Pow2(h) <= |InOrder(t)| + 1
  {
    if t.Bin? {
      FullEnough(t.left, if t.red then h else h - 1);
      FullEnough(t.right, if t.red then h else h - 1);
    }
  }

  lemma {:induction false} NotTooTall(t: Tree, h: nat)
    requires Ok(t, h)
    ensures Height(t) <= 2 * h + if IsRed(t) then 1 else 0
  {
    if t.Bin? {
      NotTooTall(t.left, if t.red then h else h - 1);
      NotTooTall(t.right, if t.red then h else h - 1);
    }
  }

  /** The height of a red-black tree of `n` nodes is at most `2 lg (n + 1)`. */
  lemma HeightBound(t: Tree)
    requires RedBlack(t)
    ensures var n := |InOrder(t)|; Pow2(Height(t)) <= (n + 1) * (n + 1)
  {
    var n, h := |InOrder(t)|, BlackHeight(t);
    FullEnough(t, h);
    NotTooTall(t, h);
    Pow2Monotone(Height(t), h + h);
    Pow2Sum(h, h);
    SquareMonotone(Pow2(h), n + 1);
  }
}
