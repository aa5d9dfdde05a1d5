/** The splay-tree half of `shell/include/tree.h`.  `SPLAY_ENTRY` has the two child pointers only.

    Top-down splaying takes the tree apart on the way down: what is smaller than the key is hung on the
    right spine of one tree, what is larger on the left spine of another, both below a dummy node; in the
    end the two are put under the node the search stopped at. */
module Splay {
  import opened SplayCost
  import opened Trees

  /** A spine that grows at its end: each node with the subtree on its outer side.  The last node's inner
      link is where the next node goes. */
  datatype Spine = End | More(node: Node, side: Tree, up: Spine)

  ghost function SpineNodes(c: Spine): set<Node> {
    if c.End? then {} else {c.node} + Nodes(c.side) + SpineNodes(c.up)
  }

  ghost predicate SpineProper(c: Spine) {
    c.More? ==>
      && c.node !in Nodes(c.side) && c.node !in SpineNodes(c.up) && Nodes(c.side) !! SpineNodes(c.up)
      && Proper(c.side) && SpineProper(c.up)
  }

  /** The node the spine starts with. */
  function First(c: Spine): Node
    requires c.More?
  {
    if c.up.End? then c.node else First(c.up)
  }

  /** The child pointers are as `t` says. */
  ghost predicate Rep(t: Tree)
    reads Nodes(t)
  {
    t.Bin? ==> t.node.left == RootOf(t.left) && t.node.right == RootOf(t.right) && Rep(t.left) && Rep(t.right)
  }

  /** A right spine, open at its end. */
  ghost predicate RightSpine(c: Spine)
    reads SpineNodes(c)
  {
    c.More? ==>
      && c.node.left == RootOf(c.side) && Rep(c.side)
      && (c.up.More? ==> c.up.node in SpineNodes(c.up) && c.up.node.right == c.node) && RightSpine(c.up)
  }

  /** A left spine, open at its end. */
  ghost predicate LeftSpine(c: Spine)
    reads SpineNodes(c)
  {
    c.More? ==>
      && c.node.right == RootOf(c.side) && Rep(c.side)
      && (c.up.More? ==> c.up.node in SpineNodes(c.up) && c.up.node.left == c.node) && LeftSpine(c.up)
  }

  /** The right spine with `t` at its end. */
  function CloseRight(c: Spine, t: Tree): Tree
    decreases c
  {
    if c.End? then t else CloseRight(c.up, Bin(c.side, c.node, false, t))
  }

  /** The left spine with `t` at its end. */
  function CloseLeft(c: Spine, t: Tree): Tree
    decreases c
  {
    if c.End? then t else CloseLeft(c.up, Bin(t, c.node, false, c.side))
  }

  /** What a right spine holds, in order; and what a left spine holds. */
  function Before(c: Spine): seq<Node> {
    if c.End? then [] else Before(c.up) + (InOrder(c.side) + [c.node])
  }

  function After(c: Spine): seq<Node> {
    if c.End? then [] else ([c.node] + InOrder(c.side)) + After(c.up)
  }

  lemma {:induction false} CloseRightOrder(c: Spine, t: Tree)
    ensures InOrder(CloseRight(c, t)) == Before(c) + InOrder(t)
    decreases c
  {
    if c.More? {
      CloseRightOrder(c.up, Bin(c.side, c.node, false, t));
      Regroup(Before(c.up), InOrder(c.side), [c.node], InOrder(t), []);
    }
  }

  lemma {:induction false} CloseLeftOrder(c: Spine, t: Tree)
    ensures InOrder(CloseLeft(c, t)) == InOrder(t) + After(c)
    decreases c
  {
    if c.More? {
      CloseLeftOrder(c.up, Bin(t, c.node, false, c.side));
      Regroup([], InOrder(t), [c.node], InOrder(c.side), After(c.up));
    }
  }

  lemma {:induction false} CloseRightNodes(c: Spine, t: Tree)
    ensures Nodes(CloseRight(c, t)) == SpineNodes(c) + Nodes(t)
    ensures Proper(CloseRight(c, t)) <==> Proper(t) && SpineProper(c) && Nodes(t) !! SpineNodes(c)
    ensures RootOf(CloseRight(c, t)) == if c.More? then First(c) else RootOf(t)
    decreases c
  {
    if c.More? {
      CloseRightNodes(c.up, Bin(c.side, c.node, false, t));
    }
  }

  lemma {:induction false} CloseLeftNodes(c: Spine, t: Tree)
    ensures Nodes(CloseLeft(c, t)) == SpineNodes(c) + Nodes(t)
    ensures Proper(CloseLeft(c, t)) <==> Proper(t) && SpineProper(c) && Nodes(t) !! SpineNodes(c)
    ensures RootOf(CloseLeft(c, t)) == if c.More? then First(c) else RootOf(t)
    decreases c
  {
    if c.More? {
      CloseLeftNodes(c.up, Bin(t, c.node, false, c.side));
    }
  }

  lemma {:induction false} ClosedRight(c: Spine, t: Tree)
    requires RightSpine(c) && Rep(t) && (c.More? ==> c.node.right == RootOf(t))
    ensures Rep(CloseRight(c, t))
    decreases c
  {
    if c.More? {
      ClosedRight(c.up, Bin(c.side, c.node, false, t));
    }
  }

  lemma {:induction false} ClosedLeft(c: Spine, t: Tree)
    requires LeftSpine(c) && Rep(t) && (c.More? ==> c.node.left == RootOf(t))
    ensures Rep(CloseLeft(c, t))
    decreases c
  {
    if c.More? {
      ClosedLeft(c.up, Bin(t, c.node, false, c.side));
    }
  }

  lemma RotatedSize(t: Tree)
    requires t.Bin?
    ensures t.left.Bin? ==> Size(RotatedRight(t)) == Size(t)
    ensures t.right.Bin? ==> Size(RotatedLeft(t)) == Size(t)
  {
    hide InOrder;
    assert t.left.Bin? ==> Size(t.left) == Size(t.left.left) + 1 + Size(t.left.right);
    assert t.right.Bin? ==> Size(t.right) == Size(t.right.left) + 1 + Size(t.right.right);
    assert t.left.Bin? ==> Size(RotatedRight(t).right) == Size(t.left.right) + 1 + Size(t.right);
    assert t.right.Bin? ==> Size(RotatedLeft(t).left) == Size(t.left) + 1 + Size(t.right.left);
  }

  /** What splaying for `key` leaves at the root: the key, or else its successor or its predecessor. */
  ghost predicate Settled(t: Tree, key: int) {
    && t.Bin?
    && (key < t.node.key ==> AllBelow(InOrder(t.left), key))
    && (key > t.node.key ==> AllAbove(InOrder(t.right), key))
  }

  /** The search is over at the root of `t`. */
  predicate Stopped(t: Tree, key: int) {
    t.Bin? && (key == t.node.key || (key < t.node.key && t.left.Leaf?) || (key > t.node.key && t.right.Leaf?))
  }

  /** The pieces of a tree being taken apart hold the elements `s` in order. */
  predicate InPieces(l: Spine, t: Tree, r: Spine, s: seq<Node>) {
    Before(l) + InOrder(t) + After(r) == s
  }

  /** ... and what is on the spines lies on the two sides of `key`. */
  ghost predicate Brackets(l: Spine, t: Tree, r: Spine, s: seq<Node>, key: int) {
    InPieces(l, t, r, s) && AllBelow(Before(l), key) && AllAbove(After(r), key)
  }

  /** The tree that `SPLAY_ASSEMBLE` makes. */
  function Assembled(l: Spine, t: Tree, r: Spine): Tree
    requires t.Bin?
  {
    Bin(CloseRight(l, t.left), t.node, false, CloseLeft(r, t.right))
  }

  lemma AssembledOrder(l: Spine, t: Tree, r: Spine, s: seq<Node>)
    requires t.Bin? && InPieces(l, t, r, s)
    ensures InOrder(Assembled(l, t, r)) == s
  {
    CloseRightOrder(l, t.left);
    CloseLeftOrder(r, t.right);
    Outer(Before(l), InOrder(t.left), [t.node], InOrder(t.right), After(r));
  }

  lemma AssembledSettled(l: Spine, t: Tree, r: Spine, s: seq<Node>, key: int)
    requires Brackets(l, t, r, s, key) && Stopped(t, key)
    ensures Settled(Assembled(l, t, r), key) && InOrder(Assembled(l, t, r)) == s
  {
    AssembledOrder(l, t, r, s);
    CloseRightOrder(l, t.left);
    CloseLeftOrder(r, t.right);
    assert Before(l) + [] == Before(l);
  }

  /** Moving the root onto either spine keeps the order. */
  lemma LinkedOrder(l: Spine, t: Tree, r: Spine, s: seq<Node>)
    requires t.Bin? && InPieces(l, t, r, s)
    ensures InPieces(l, t.left, More(t.node, t.right, r), s)
    ensures InPieces(More(t.node, t.left, l), t.right, r, s)
  {
    Regroup(Before(l), InOrder(t.left), [t.node], InOrder(t.right), After(r));
  }

  lemma Outer(a: seq<Node>, b: seq<Node>, c: seq<Node>, d: seq<Node>, e: seq<Node>)
    ensures (a + b) + c + (d + e) == a + (b + c + d) + e
  {
  }

  /** What is left and right of the root lies below and above it. */
  lemma RootBetween(l: Spine, t: Tree, r: Spine, s: seq<Node>)
    requires t.Bin? && InPieces(l, t, r, s) && Sorted(s)
    ensures AllBelow(Before(l) + InOrder(t.left), t.node.key) && AllAbove(InOrder(t.right) + After(r), t.node.key)
  {
    hide InOrder, Sorted, AllAbove, AllBelow;
    InOrderBin(t);
    SortedParts(Before(l), InOrder(t.left), t.node, InOrder(t.right), After(r));
  }

  lemma Associate(a: seq<Node>, b: seq<Node>, c: seq<Node>)
    ensures (a + b) + c == a + (b + c)
  {
  }

  lemma LinkedLeft(l: Spine, t: Tree, r: Spine, s: seq<Node>, key: int)
    requires t.Bin? && Brackets(l, t, r, s, key) && Sorted(s) && key < t.node.key
    ensures Brackets(l, t.left, More(t.node, t.right, r), s, key)
  {
    hide InOrder, InPieces, Sorted, AllAbove, AllBelow;
    RootBetween(l, t, r, s);
    AllAboveCons(t.node, InOrder(t.right) + After(r), key);
    Associate([t.node], InOrder(t.right), After(r));
    LinkedOrder(l, t, r, s);
  }

  lemma LinkedRight(l: Spine, t: Tree, r: Spine, s: seq<Node>, key: int)
    requires t.Bin? && Brackets(l, t, r, s, key) && Sorted(s) && key > t.node.key
    ensures Brackets(More(t.node, t.left, l), t.right, r, s, key)
  {
    hide InOrder, InPieces, Sorted, AllAbove, AllBelow;
    RootBetween(l, t, r, s);
    AllBelowSnoc(Before(l) + InOrder(t.left), t.node, key);
    Associate(Before(l), InOrder(t.left), [t.node]);
    LinkedOrder(l, t, r, s);
  }

  lemma RepBin(l: Tree, x: Node, red: bool, r: Tree)
    ensures Rep(Bin(l, x, red, r)) <==> x.left == RootOf(l) && x.right == RootOf(r) && Rep(l) && Rep(r)
  {
  }

  lemma RightSpineMore(c: Spine)
    requires c.More?
    ensures RightSpine(c) <==>
              && c.node.left == RootOf(c.side) && Rep(c.side) && (c.up.More? ==> c.up.node.right == c.node)
                  && RightSpine(c.up)
    ensures c.up.More? ==> c.up.node in SpineNodes(c.up)
  {
  }

  lemma LeftSpineMore(c: Spine)
    requires c.More?
    ensures LeftSpine(c) <==>
              && c.node.right == RootOf(c.side) && Rep(c.side) && (c.up.More? ==> c.up.node.left == c.node)
                  && LeftSpine(c.up)
    ensures c.up.More? ==> c.up.node in SpineNodes(c.up)
  {
  }

  /** The elements of a splayed tree split around the key beside the root. */
  lemma SettledSplit(t: Tree, key: int)
    requires Settled(t, key) && Sorted(InOrder(t))
    ensures InOrder(t) == InOrder(t.left) + ([t.node] + InOrder(t.right))
    ensures InOrder(t) == (InOrder(t.left) + [t.node]) + InOrder(t.right)
    ensures key < t.node.key ==> AllBelow(InOrder(t.left), key) && AllAbove([t.node] + InOrder(t.right), key)
    ensures key > t.node.key ==> AllBelow(InOrder(t.left) + [t.node], key) && AllAbove(InOrder(t.right), key)
  {
    hide InOrder, Sorted, AllAbove, AllBelow;
    var a, b := InOrder(t.left), InOrder(t.right);
    InOrderBin(t);
    Bare(a, t.node, b);
    SortedParts([], a, t.node, b, []);
    if key < t.node.key {
      AllAboveCons(t.node, b, key);
    } else if key > t.node.key {
      AllBelowSnoc(a, t.node, key);
    }
  }

  lemma Bare(a: seq<Node>, x: Node, b: seq<Node>)
    ensures [] + (a + [x] + b) + [] == a + [x] + b && [] + a == a && b + [] == b
    ensures a + [x] + b == a + ([x] + b)
  {
  }

  /** If the key is not at the root of a splayed tree it is nowhere. */
  lemma SettledFound(t: Tree, key: int)
    requires Settled(t, key) && Sorted(InOrder(t))
    ensures t.node in InOrder(t)
    ensures key != t.node.key ==> forall i :: 0 <= i < |InOrder(t)| ==> InOrder(t)[i].key != key
  {
    hide InOrder, Sorted;
    SettledSplit(t, key);
    assert InOrder(t)[|InOrder(t.left)|] == t.node;
  }

  /** The tree after `SPLAY_INSERT` put `elm` above the two halves of the splayed tree `t`. */
  function Inserted(t: Tree, elm: Node): Tree
    requires t.Bin?
  {
    if elm.key < t.node.key then Bin(t.left, elm, false, Bin(Leaf, t.node, t.red, t.right))
    else Bin(Bin(t.left, t.node, t.red, Leaf), elm, false, t.right)
  }

  lemma InsertedOrder(t: Tree, elm: Node)
    requires t.Bin? && Settled(t, elm.key) && Sorted(InOrder(t)) && elm.key != t.node.key
    ensures var s, i := InOrder(t), |InOrder(t.left)| + if elm.key < t.node.key then 0 else 1;
            i <= |s| && InOrder(Inserted(t, elm)) == s[..i] + [elm] + s[i..] && Sorted(InOrder(Inserted(t, elm)))
  {
    hide InOrder, Sorted, AllAbove, AllBelow, Settled;
    SettledSplit(t, elm.key);
    var a, x, b := InOrder(t.left), [t.node], InOrder(t.right);
    InOrderBin(Inserted(t, elm));
    InOrderBin(Bin(Leaf, t.node, t.red, t.right));
    InOrderBin(Bin(t.left, t.node, t.red, Leaf));
    if elm.key < t.node.key {
      SortedWith(a, elm, x + b);
      Halves(a, x + b);
      assert [] + x + b == x + b;
    } else {
      SortedWith(a + x, elm, b);
      Halves(a + x, b);
      assert a + x + [] == a + x;
    }
  }

  lemma EmptyProper()
    ensures Nodes(Leaf) == {} && Proper(Leaf) && Rep(Leaf)
  {
  }

  lemma RotatedBrackets(l: Spine, t: Tree, r: Spine, s: seq<Node>, key: int)
    requires t.Bin? && Brackets(l, t, r, s, key)
    ensures t.left.Bin? ==> Brackets(l, RotatedRight(t), r, s, key)
    ensures t.right.Bin? ==> Brackets(l, RotatedLeft(t), r, s, key)
  {
    hide InOrder, Before, After, AllBelow, AllAbove;
  }

  lemma RootRemoved(t: Tree)
    requires t.Bin? && Sorted(InOrder(t))
    ensures var s, i := InOrder(t), |InOrder(t.left)|;
            i < |s| && s[i] == t.node && s[..i] + s[i + 1..] == InOrder(t.left) + InOrder(t.right)
    ensures Sorted(InOrder(t.left) + InOrder(t.right))
    ensures t.left.Leaf? ==> InOrder(t.left) + InOrder(t.right) == InOrder(t.right)
  {
    hide InOrder, Sorted;
    InOrderBin(t);
    var a, b := InOrder(t.left), InOrder(t.right);
    Bare(a, t.node, b);
    WithoutMiddle([], a, t.node, b, []);
    SortedWithout(InOrder(t), |a|);
    assert [] + a + b + [] == a + b;
    assert [] + b == b;
  }

  lemma SortedRoot(t: Tree)
    requires t.Bin? && Sorted(InOrder(t))
    ensures Sorted(InOrder(t.left)) && AllBelow(InOrder(t.left), t.node.key)
  {
    hide InOrder, Sorted, AllBelow;
    InOrderBin(t);
    Bare(InOrder(t.left), t.node, InOrder(t.right));
    SortedParts([], InOrder(t.left), t.node, InOrder(t.right), []);
  }

  /** Splaying for a key above all elements brings the last one to the root. */
  lemma LastIsRoot(t: Tree, key: int, s: seq<Node>)
    requires Settled(t, key) && InOrder(t) == s && AllBelow(s, key)
    ensures t.right.Leaf? && InOrder(t.left) + [t.node] == s
  {
    var a, b := InOrder(t.left), InOrder(t.right);
    assert s[|a|] == t.node;
    if t.right.Bin? {
      var c := t.right;
      assert b[|InOrder(c.left)|] == c.node;
      assert s[|a| + 1 + |InOrder(c.left)|] == c.node;
    }
  }

  /** With nothing to its left the root of the assembled tree is the first element; with nothing to its
      right, the last. */
  lemma AssembledEnd(l: Spine, t: Tree, r: Spine, s: seq<Node>)
    requires t.Bin? && InPieces(l, t, r, s)
    ensures InOrder(Assembled(l, t, r)) == s && s != []
    ensures l.End? && t.left.Leaf? ==> s[0] == t.node && Assembled(l, t, r).left.Leaf?
    ensures r.End? && t.right.Leaf? ==> s[|s| - 1] == t.node && Assembled(l, t, r).right.Leaf?
  {
    AssembledOrder(l, t, r, s);
  }

  lemma WholePieces(t: Tree)
    ensures InPieces(End, t, End, InOrder(t))
  {
    assert [] + InOrder(t) + [] == InOrder(t);
  }

  lemma RotatedPieces(l: Spine, t: Tree, r: Spine, s: seq<Node>)
    requires t.Bin? && InPieces(l, t, r, s)
    ensures t.left.Bin? ==> InPieces(l, RotatedRight(t), r, s)
    ensures t.right.Bin? ==> InPieces(l, RotatedLeft(t), r, s)
  {
    hide InOrder;
  }

  lemma EmptyOrder(t: Tree)
    ensures InOrder(t) == [] <==> t.Leaf?
  {
  }

  lemma DownLeftOrder(t: Tree, rest: seq<Node>)
    requires t.Bin?
    ensures InOrder(t) + rest == InOrder(t.left) + ([t.node] + InOrder(t.right) + rest)
    ensures t.left.Leaf? ==> (InOrder(t) + rest)[0] == t.node
  {
    var l, m, r := InOrder(t.left), [t.node], InOrder(t.right);
    Associate(l, m + r, rest);
    assert InOrder(t) == l + (m + r);
  }

  /** The split `p` of the whole tree has been reached: it is that of `t` with the spines closed. */
  predicate Reached(p: Split, l: Spine, t: Tree, r: Spine, turns: nat)
    requires t.Bin?
  {
    p == Split(CloseRight(l, t.left), t.node, CloseLeft(r, t.right), turns)
  }

  /** The split `p` of the whole tree is what splitting `t` leads to, after `turns` turns. */
  predicate Ahead(p: Split, l: Spine, t: Tree, r: Spine, key: int, turns: nat)
    requires t.Bin?
  {
    var q := SplitAt(t, key);
    p == Split(CloseRight(l, q.left), q.node, CloseLeft(r, q.right), turns + q.turns)
  }

  lemma FirstTurn(t: Tree, key: int)
    requires t.Bin?
    ensures Ahead(SplitAt(t, key), End, t, End, key, 0)
  {
    hide SplitAt;
  }

  lemma NoTurn(p: Split, l: Spine, t: Tree, r: Spine, key: int, k: nat)
    requires t.Bin? && Ahead(p, l, t, r, key, k) && key == t.node.key
    ensures Reached(p, l, t, r, k)
  {
  }

  lemma TurnLeft(p: Split, l: Spine, t: Tree, r: Spine, key: int, k: nat)
    requires t.Bin? && Ahead(p, l, t, r, key, k) && key < t.node.key
    ensures t.left.Leaf? ==> Reached(p, l, t, r, k + 1)
    ensures t.left.Bin? && key >= t.left.node.key ==> Ahead(p, l, t.left, More(t.node, t.right, r), key, k + 1)
    ensures t.left.Bin? && key < t.left.node.key ==>
              var u := RotatedRight(t);
              if u.left.Leaf? then Reached(p, l, u, r, k + 1)
              else Ahead(p, l, u.left, More(u.node, u.right, r), key, k + 1)
  {
    hide InOrder;
  }

  lemma TurnRight(p: Split, l: Spine, t: Tree, r: Spine, key: int, k: nat)
    requires t.Bin? && Ahead(p, l, t, r, key, k) && key > t.node.key
    ensures t.right.Leaf? ==> Reached(p, l, t, r, k + 1)
    ensures t.right.Bin? && key <= t.right.node.key ==> Ahead(p, More(t.node, t.left, l), t.right, r, key, k + 1)
    ensures t.right.Bin? && key > t.right.node.key ==>
              var u := RotatedLeft(t);
              if u.right.Leaf? then Reached(p, l, u, r, k + 1)
              else Ahead(p, More(u.node, u.left, l), u.right, r, key, k + 1)
  {
    hide InOrder;
  }

  lemma ReachedAssembled(t0: Tree, key: int, l: Spine, t: Tree, r: Spine, k: nat)
    requires t0.Bin? && t.Bin? && Reached(SplitAt(t0, key), l, t, r, k)
    ensures Assembled(l, t, r) == Splayed(t0, key) && k == SplitAt(t0, key).turns
  {
    hide SplitAt;
  }

  /** A key below all elements of `s`, or above them all. */
  ghost function Outside(s: seq<Node>, comp: int): (key: int)
    requires Sorted(s)
    ensures Beyond(s, key, comp)
  {
    if s == [] then 0 else if comp < 0 then s[0].key - 1 else s[|s| - 1].key + 1
  }

  ghost predicate Beyond(s: seq<Node>, key: int, comp: int) {
    if comp < 0 then AllAbove(s, key) else AllBelow(s, key)
  }

  lemma BeyondRoot(l: Spine, t: Tree, r: Spine, s: seq<Node>, key: int, comp: int)
    requires t.Bin? && InPieces(l, t, r, s) && Beyond(s, key, comp)
    ensures comp < 0 ==> key < t.node.key && (t.left.Bin? ==> key < t.left.node.key)
    ensures comp >= 0 ==> key > t.node.key && (t.right.Bin? ==> key > t.right.node.key)
  {
    var k := |Before(l)|;
    assert s[k + |InOrder(t.left)|] == t.node;
    if t.left.Bin? {
      assert InOrder(t.left)[|InOrder(t.left.left)|] == t.left.node;
      assert s[k + |InOrder(t.left.left)|] == t.left.node;
    }
    if t.right.Bin? {
      var m := |InOrder(t.left)| + 1;
      assert InOrder(t.right)[|InOrder(t.right.left)|] == t.right.node;
      assert s[k + m + |InOrder(t.right.left)|] == t.right.node;
    }
  }

  /** The same tree but for the colour of the root, which means nothing here. */
  predicate SameShape(t: Tree, t': Tree) {
    t.Bin? && t'.Bin? && t.left == t'.left && t.node == t'.node && t.right == t'.right
  }

  lemma NewRootBound(t: Tree, elm: Node)
    requires t.Bin?
    ensures Afforded(t, Inserted(t, elm), 0, Size(t) + 1)
  {
    hide Afforded, Weight;
    CrownedBound(t.left, t.node, t.red, t.right, elm);
  }

  lemma InsertedBound(t: Tree, elm: Node)
    requires t.Bin?
    ensures Afforded(t, Inserted(Splayed(t, elm.key), elm), SplitAt(t, elm.key).turns, Cost(Size(t)))
  {
    hide Afforded, Cost, BeheadCost, SplitAt, Weight, Size, Inserted;
    NewRootBound(Splayed(t, elm.key), elm);
    SecondBound(t, elm.key, Inserted(Splayed(t, elm.key), elm), 0, Size(t) + 1);
  }

  lemma FirstBound(elm: Node)
    ensures Afforded(Leaf, Bin(Leaf, elm, false, Leaf), 0, Cost(Size(Leaf)))
  {
    CostCovers(0, 0);
  }

  class SplayTree {
    var root: Node?
    ghost var shape: Tree
    ghost var repr: set<Node>

    ghost predicate Shaped()
      reads this, repr
    {
      Nodes(shape) == repr && Proper(shape) && Rep(shape) && root == RootOf(shape)
    }

    ghost predicate Valid()
      reads this, repr
    {
      Shaped() && Sorted(InOrder(shape))
    }

    ghost function Contents(): seq<Node>
      reads this
    {
      InOrder(shape)
    }

    constructor ()
      ensures Valid() && Contents() == [] && repr == {}
    {
      root, shape, repr := null, Leaf, {};
    }

    /** The three pieces share no node and make up the tree. */
    ghost predicate Disjoint(l: Spine, t: Tree, r: Spine)
      reads this`repr
    {
      && Proper(t) && SpineProper(l) && SpineProper(r)
      && SpineNodes(l) !! Nodes(t) && SpineNodes(l) !! SpineNodes(r) && Nodes(t) !! SpineNodes(r)
      && SpineNodes(l) + Nodes(t) + SpineNodes(r) == repr
    }

    /** The tree taken apart into `l`, `t` and `r`; `left` and `right` are where to hang the next node. */
    ghost predicate Apart(l: Spine, t: Tree, r: Spine, dummy: Node, left: Node, right: Node)
      reads this, repr, dummy
    {
      && t.Bin? && root == t.node && dummy !in repr
      && Disjoint(l, t, r) && Rep(t) && RightSpine(l) && LeftSpine(r)
      && left == (if l.More? then l.node else dummy) && right == (if r.More? then r.node else dummy)
      && (l.More? ==> dummy.right == First(l)) && (r.More? ==> dummy.left == First(r))
    }

    lemma RotatedDisjoint(l: Spine, t: Tree, r: Spine)
      requires t.Bin? && Disjoint(l, t, r)
      ensures t.left.Bin? ==>
                && Disjoint(l, RotatedRight(t), r)
                && Separate(t.left.node, t.node, t.left.left, t.left.right, t.right, SpineNodes(l) + SpineNodes(r))
      ensures t.right.Bin? ==>
                && Disjoint(l, RotatedLeft(t), r)
                && Separate(t.node, t.right.node, t.left, t.right.left, t.right.right, SpineNodes(l) + SpineNodes(r))
    {
      hide InOrder, Nodes, Proper, SpineNodes, SpineProper;
      if t.left.Bin? {
        SeparateBoth(t.left.node, t.node, t.left.red, t.red, t.left.left, t.left.right, t.right,
            SpineNodes(l) + SpineNodes(r));
      }
      if t.right.Bin? {
        SeparateBoth(t.node, t.right.node, t.red, t.right.red, t.left, t.right.left, t.right.right,
            SpineNodes(l) + SpineNodes(r));
      }
    }

    /** `SPLAY_ROTATE_RIGHT` */
    method RotateRight(tmp: Node, ghost l: Spine, ghost t: Tree, ghost r: Spine, ghost dummy: Node, ghost left: Node,
                       ghost right: Node)
      requires Apart(l, t, r, dummy, left, right) && t.left.Bin? && tmp == t.left.node
      modifies this`root, repr
      ensures Apart(l, RotatedRight(t), r, dummy, left, right)
    {
      hide InOrder, Nodes, Proper, SpineProper, Rep, RightSpine, LeftSpine;
      ghost var x, y, a, b, d := tmp, t.node, t.left.left, t.left.right, t.right;
      RotatedDisjoint(l, t, r);
      RepBin(a, x, t.left.red, b);
      RepBin(t.left, y, t.red, d);
      ProperBin(a, x, t.left.red, b);
      ProperBin(t.left, y, t.red, d);
      root.left := tmp.right;
      tmp.right := root;
      root := tmp;
      RepBin(b, y, t.red, d);
      RepBin(a, x, t.left.red, Bin(b, y, t.red, d));
    }

    /** `SPLAY_ROTATE_LEFT` */
    method RotateLeft(tmp: Node, ghost l: Spine, ghost t: Tree, ghost r: Spine, ghost dummy: Node, ghost left: Node,
                      ghost right: Node)
      requires Apart(l, t, r, dummy, left, right) && t.right.Bin? && tmp == t.right.node
      modifies this`root, repr
      ensures Apart(l, RotatedLeft(t), r, dummy, left, right)
    {
      hide InOrder, Nodes, Proper, SpineProper, Rep, RightSpine, LeftSpine;
      ghost var x, y, a, b, d := t.node, tmp, t.left, t.right.left, t.right.right;
      RotatedDisjoint(l, t, r);
      RepBin(b, y, t.right.red, d);
      RepBin(a, x, t.red, t.right);
      ProperBin(b, y, t.right.red, d);
      ProperBin(a, x, t.red, t.right);
      root.right := tmp.left;
      tmp.left := root;
      root := tmp;
      RepBin(a, x, t.red, b);
      RepBin(Bin(a, x, t.red, b), y, t.right.red, d);
    }

    /** Moving the root onto either spine. */
    lemma LinkedDisjoint(l: Spine, t: Tree, r: Spine)
      requires t.Bin? && Disjoint(l, t, r)
      ensures Disjoint(l, t.left, More(t.node, t.right, r)) && Disjoint(More(t.node, t.left, l), t.right, r)
    {
      hide InOrder;
    }

    lemma Pieces(l: Spine, t: Tree, r: Spine)
      requires t.Bin? && Disjoint(l, t, r)
      ensures SpineNodes(l) !! Nodes(t) && SpineNodes(l) !! SpineNodes(r) && Nodes(t) !! SpineNodes(r)
      ensures SpineNodes(l) + Nodes(t) + SpineNodes(r) == repr
      ensures t.node in Nodes(t) && t.node !in Nodes(t.left) && t.node !in Nodes(t.right)
      ensures Nodes(t.left) <= Nodes(t) && Nodes(t.right) <= Nodes(t)
      ensures l.More? ==> l.node in SpineNodes(l) && l.node !in Nodes(l.side) && l.node !in SpineNodes(l.up)
      ensures r.More? ==> r.node in SpineNodes(r) && r.node !in Nodes(r.side) && r.node !in SpineNodes(r.up)
    {
      hide InOrder;
    }

    /** `SPLAY_LINKLEFT` */
    method LinkLeft(ghost l: Spine, ghost t: Tree, ghost r: Spine, ghost dummy: Node, ghost left: Node, right: Node)
      returns (tmp: Node)
      requires Apart(l, t, r, dummy, left, right) && t.left.Bin?
      modifies this`root, repr, dummy
      ensures Apart(l, t.left, More(t.node, t.right, r), dummy, left, tmp)
    {
      hide InOrder, Nodes, Proper, SpineProper, SplayTree.Disjoint;
      LinkedDisjoint(l, t, r);
      Pieces(l, t, r);
      assert Rep(t.left) && Rep(t.right);
      right.left := root;
      tmp := root;
      root := root.left;
      assert RightSpine(l);
      assert LeftSpine(r);
      assert LeftSpine(More(t.node, t.right, r));
    }

    /** `SPLAY_LINKRIGHT` */
    method LinkRight(ghost l: Spine, ghost t: Tree, ghost r: Spine, ghost dummy: Node, left: Node, ghost right: Node)
      returns (tmp: Node)
      requires Apart(l, t, r, dummy, left, right) && t.right.Bin?
      modifies this`root, repr, dummy
      ensures Apart(More(t.node, t.left, l), t.right, r, dummy, tmp, right)
    {
      hide InOrder, Nodes, Proper, SpineProper, SplayTree.Disjoint;
      LinkedDisjoint(l, t, r);
      Pieces(l, t, r);
      assert Rep(t.left) && Rep(t.right);
      left.right := root;
      tmp := root;
      root := root.right;
      assert LeftSpine(r);
      assert RightSpine(l);
      assert RightSpine(More(t.node, t.left, l));
    }

    lemma AssembledShape(l: Spine, t: Tree, r: Spine)
      requires t.Bin? && Disjoint(l, t, r)
      ensures Proper(Assembled(l, t, r)) && Nodes(Assembled(l, t, r)) == repr
      ensures RootOf(CloseRight(l, t.left)) == if l.More? then First(l) else RootOf(t.left)
      ensures RootOf(CloseLeft(r, t.right)) == if r.More? then First(r) else RootOf(t.right)
    {
      hide InOrder, CloseRight, CloseLeft;
      CloseRightNodes(l, t.left);
      CloseLeftNodes(r, t.right);
    }

    /** `SPLAY_ASSEMBLE` closing the two spines with the subtrees of the root. */
    method CloseSpines(node: Node, left: Node, right: Node, ghost l: Spine, ghost t: Tree, ghost r: Spine)
      requires Apart(l, t, r, node, left, right)
      modifies repr, node
      ensures Rep(CloseRight(l, t.left)) && node.right == RootOf(CloseRight(l, t.left))
      ensures Rep(CloseLeft(r, t.right)) && node.left == RootOf(CloseLeft(r, t.right))
    {
      hide InOrder, CloseRight, CloseLeft, Proper, SpineProper, Nodes, SplayTree.Disjoint, Rep, RightSpine, LeftSpine;
      AssembledShape(l, t, r);
      Pieces(l, t, r);
      RepBin(t.left, t.node, t.red, t.right);
      if l.More? {
        RightSpineMore(l);
      }
      if r.More? {
        LeftSpineMore(r);
      }
      left.right := root.left;
      right.left := root.right;
      if l.More? {
        RightSpineMore(l);
      }
      if r.More? {
        LeftSpineMore(r);
      }
      ClosedRight(l, t.left);
      ClosedLeft(r, t.right);
    }

    /** `SPLAY_ASSEMBLE` */
    method Assemble(node: Node, left: Node, right: Node, ghost l: Spine, ghost t: Tree, ghost r: Spine)
      requires Apart(l, t, r, node, left, right)
      modifies this`root, this`shape, repr, node
      ensures Shaped() && shape == Assembled(l, t, r)
    {
      hide InOrder, CloseRight, CloseLeft, Proper, SpineProper, SplayTree.Disjoint, Rep, RightSpine, LeftSpine;
      AssembledShape(l, t, r);
      CloseSpines(node, left, right, l, t, r);
      ProperBin(CloseRight(l, t.left), t.node, false, CloseLeft(r, t.right));
      root.left := node.right;
      root.right := node.left;
      RepBin(CloseRight(l, t.left), root, false, CloseLeft(r, t.right));
      shape := Assembled(l, t, r);
    }

    /** `SPLAY`: the elements stay in order, and what was searched for, or else a neighbour of the place
        where it belongs, comes to the root.  The loop on two spines does what `Splayed` does by recursion. */
    method Splay(key: int) returns (ghost turns: nat)
      requires Valid() && root != null
      modifies this`root, this`shape, repr
      ensures Valid() && repr == old(repr) && Contents() == old(Contents())
      ensures Settled(shape, key)
      ensures shape == Splayed(old(shape), key) && turns == SplitAt(old(shape), key).turns
    {
      hide InOrder, Nodes, Proper, Rep, Sorted, Brackets, InPieces, Settled, SplayTree.Disjoint, SplayTree.Apart;
      hide SplitAt, Ahead, Reached, Splayed, Assembled;
      var node := new Node(0);
      var left, right := node, node;
      ghost var l, t, r, s, t0 := End, shape, End, Contents(), shape;
      ghost var p := SplitAt(t0, key);
      TakenApart(node);
      FirstTurn(t0, key);
      turns := 0;
      var comp := key - root.key;
      while comp != 0
        invariant Apart(l, t, r, node, left, right) && Brackets(l, t, r, s, key) && Sorted(s)
        invariant repr == old(repr) && root != null && comp == key - root.key && t.Bin? && root == t.node
        invariant Ahead(p, l, t, r, key, turns)
        decreases Size(t)
      {
        Root(l, t, r, node, left, right);
        RotatedSize(t);
        RotatedBrackets(l, t, r, s, key);
        if comp < 0 {
          TurnLeft(p, l, t, r, key, turns);
          turns := turns + 1;
          var tmp := root.left;
          if tmp == null {
            break;
          }
          if key < tmp.key {
            RotateRight(tmp, l, t, r, node, left, right);
            t := RotatedRight(t);
            Root(l, t, r, node, left, right);
            if root.left == null {
              break;
            }
          }
          right := LinkLeft(l, t, r, node, left, right);
          LinkedLeft(l, t, r, s, key);
          t, r := t.left, More(t.node, t.right, r);
        } else {
          TurnRight(p, l, t, r, key, turns);
          turns := turns + 1;
          var tmp := root.right;
          if tmp == null {
            break;
          }
          if key > tmp.key {
            RotateLeft(tmp, l, t, r, node, left, right);
            t := RotatedLeft(t);
            Root(l, t, r, node, left, right);
            if root.right == null {
              break;
            }
          }
          left := LinkRight(l, t, r, node, left, right);
          LinkedRight(l, t, r, s, key);
          l, t := More(t.node, t.left, l), t.right;
        }
        Root(l, t, r, node, left, right);
        comp := key - root.key;
      }
      Root(l, t, r, node, left, right);
      if comp == 0 {
        NoTurn(p, l, t, r, key, turns);
      }
      AssembledSettled(l, t, r, s, key);
      ReachedAssembled(t0, key, l, t, r, turns);
      Assemble(node, left, right, l, t, r);
    }

    lemma TakenApart(dummy: Node)
      requires Valid() && root != null && dummy !in repr
      ensures Apart(End, shape, End, dummy, dummy, dummy) && shape.Bin?
      ensures forall key :: Brackets(End, shape, End, Contents(), key)
    {
      assert [] + InOrder(shape) + [] == InOrder(shape);
    }

    lemma Root(l: Spine, t: Tree, r: Spine, dummy: Node, left: Node, right: Node)
      requires Apart(l, t, r, dummy, left, right)
      ensures t.Bin? && root == t.node && root.left == RootOf(t.left) && root.right == RootOf(t.right)
    {
    }

    /** `SPLAY_FIND` */
    method Find(key: int) returns (r: Node?, ghost turns: nat)
      requires Valid()
      modifies this`root, this`shape, repr
      ensures Valid() && repr == old(repr) && Contents() == old(Contents())
      ensures shape == if old(shape).Leaf? then Leaf else Splayed(old(shape), key)
      ensures turns == if old(shape).Leaf? then 0 else SplitAt(old(shape), key).turns
      ensures Afforded(old(shape), shape, turns, Cost(Size(old(shape))))
      ensures r != null ==> r in Contents() && r.key == key
      ensures r == null ==> forall i :: 0 <= i < |Contents()| ==> Contents()[i].key != key
    {
      ghost var t0 := shape;
      if root == null {
        StillBound(t0);
        return null, 0;
      }
      turns := Splay(key);
      SettledFound(shape, key);
      AccessBound(t0, key);
      r := if key == root.key then root else null;
    }

    /** `SPLAY_INSERT` */
    method Insert(elm: Node) returns (existing: Node?, ghost i: int, ghost turns: nat)
      requires Valid()
      modifies this, repr, elm
      ensures Valid()
      ensures existing != null ==>
                existing in old(Contents()) && existing.key == elm.key && Contents() == old(Contents())
                    && repr == old(repr)
      ensures existing == null ==>
                && 0 <= i <= |old(Contents())| && Contents() == old(Contents())[..i] + [elm] + old(Contents())[i..]
                && repr == old(repr) + {elm}
      ensures existing == null ==>
                shape == if old(shape).Leaf? then Bin(Leaf, elm, false, Leaf)
                         else Inserted(Splayed(old(shape), elm.key), elm)
      ensures Afforded(old(shape), shape, turns, Cost(Size(old(shape))))
    {
      hide Afforded, Splayed, SplitAt, Inserted;
      ghost var t0 := shape;
      existing, i, turns := null, 0, 0;
      if root == null {
        elm.left, elm.right := null, null;
        root := elm;
        shape, repr := Bin(Leaf, elm, false, Leaf), {elm};
        FirstBound(elm);
        return;
      }
      turns := Splay(elm.key);
      ghost var t1 := shape;
      SettledFound(t1, elm.key);
      if elm.key == root.key {
        AccessBound(t0, elm.key);
        return root, 0, turns;
      }
      InOrderNodes(t1);
      InsertedOrder(t1, elm);
      i := |InOrder(t1.left)| + if elm.key < root.key then 0 else 1;
      Crown(elm);
      InsertedBound(t0, elm);
    }

    /** `SPLAY_INSERT` putting `elm` at the root of the splayed tree. */
    method Crown(elm: Node)
      requires Shaped() && root != null && elm !in repr && elm.key != root.key
      modifies this, repr, elm
      ensures Shaped() && shape == Inserted(old(shape), elm) && repr == old(repr) + {elm}
    {
      hide InOrder, Nodes, Proper, Rep;
      ghost var t := shape;
      ProperBin(t.left, t.node, t.red, t.right);
      RepBin(t.left, t.node, t.red, t.right);
      var comp := elm.key - root.key;
      if comp < 0 {
        elm.left := root.left;
        elm.right := root;
        root.left := null;
      } else {
        elm.right := root.right;
        elm.left := root;
        root.right := null;
      }
      root := elm;
      shape, repr := Inserted(t, elm), repr + {elm};
      CrownProper(t, elm);
      EmptyProper();
      RepBin(Leaf, t.node, t.red, t.right);
      RepBin(t.left, t.node, t.red, Leaf);
      RepBin(shape.left, elm, false, shape.right);
    }

    lemma CrownProper(t: Tree, elm: Node)
      requires Proper(t) && t.Bin? && elm !in Nodes(t)
      ensures Proper(Inserted(t, elm)) && Nodes(Inserted(t, elm)) == Nodes(t) + {elm}
    {
      hide InOrder, Nodes, Proper;
      EmptyProper();
      ProperBin(t.left, t.node, t.red, t.right);
      ProperBin(Leaf, t.node, t.red, t.right);
      ProperBin(t.left, elm, false, Bin(Leaf, t.node, t.red, t.right));
      ProperBin(t.left, t.node, t.red, Leaf);
      ProperBin(Bin(t.left, t.node, t.red, Leaf), elm, false, t.right);
    }

    /** `SPLAY_REMOVE`.  What it returns is its argument, even when it is another element with the same
        key that it took out. */
    method Remove(elm: Node) returns (r: Node?, ghost i: int, ghost turns: nat)
      requires Valid()
      modifies this, repr
      ensures Valid()
      ensures r == null ==> Contents() == old(Contents()) && repr == old(repr)
      ensures r == null ==> forall j :: 0 <= j < |Contents()| ==> Contents()[j].key != elm.key
      ensures r != null ==>
                && r == elm && 0 <= i < |old(Contents())| && old(Contents())[i].key == elm.key
                && Contents() == old(Contents())[..i] + old(Contents())[i + 1..]
                && repr == old(repr) - {old(Contents())[i]} && (r == old(Contents())[i] <==> elm in old(Contents()))
      ensures Afforded(old(shape), shape, turns, Cost(Size(old(shape))))
    {
      hide Afforded, Cost, BeheadCost, SplitAt, Splayed;
      ghost var t0 := shape;
      r, i, turns := null, 0, 0;
      if root == null {
        StillBound(t0);
        return;
      }
      turns := Splay(elm.key);
      ghost var t1 := shape;
      SettledFound(t1, elm.key);
      if elm.key != root.key {
        AccessBound(t0, elm.key);
        return;
      }
      i := |InOrder(t1.left)|;
      RootRemoved(t1);
      ghost var more := Behead(elm.key);
      SecondBound(t0, elm.key, shape, more, BeheadCost(t1));
      turns := turns + more;
      r := elm;
    }

    /** `SPLAY_REMOVE` taking out the root. */
    method Behead(key: int) returns (ghost turns: nat)
      requires Valid() && root != null && key == root.key
      modifies this, repr
      ensures Shaped() && repr == old(repr) - {old(root)}
      ensures Afforded(old(shape), shape, turns, BeheadCost(old(shape)))
      ensures Contents() == old(InOrder(shape.left) + InOrder(shape.right))
    {
      hide InOrder, Nodes, Proper, Rep, Sorted, Settled, Afforded, AccessCost, SplitAt, Size;
      ghost var t := shape;
      EmptyProper();
      ProperBin(t.left, t.node, t.red, t.right);
      RepBin(t.left, t.node, t.red, t.right);
      RootRemoved(t);
      turns := 0;
      if root.left == null {
        root := root.right;
        shape, repr := t.right, repr - {t.node};
        DroppedBound(t);
      } else {
        var tmp := root.right;
        root := root.left;
        shape, repr := t.left, Nodes(t.left);
        SortedRoot(t);
        turns := Splay(key);
        LastIsRoot(shape, key, InOrder(t.left));
        ghost var l := shape;
        SplayedBound(t.left, key);
        JoinedBound(t.left, l, t.right, t.node, t.red, turns);
        ProperBin(l.left, l.node, l.red, l.right);
        RepBin(l.left, l.node, l.red, l.right);
        root.right := tmp;
        shape, repr := Bin(l.left, l.node, l.red, t.right), repr + Nodes(t.right);
        ProperBin(l.left, l.node, l.red, t.right);
        RepBin(l.left, l.node, l.red, t.right);
        InOrderBin(shape);
      }
    }

    /** `SPLAY_MINMAX` on a nonempty tree; for 0 the source's loop would not end. */
    method MinMax(comp: int) returns (ghost turns: nat)
      requires Valid() && root != null && comp != 0
      modifies this`root, this`shape, repr
      ensures Afforded(old(shape), shape, turns, Cost(Size(old(shape))))
      ensures Valid() && repr == old(repr) && Contents() == old(Contents()) && root != null
      ensures comp < 0 ==> root == Contents()[0]
      ensures comp > 0 ==> root == Contents()[|Contents()| - 1]
    {
      hide InOrder, Nodes, Proper, Rep, Sorted, InPieces, SplayTree.Disjoint, SplayTree.Apart;
      hide SplitAt, Ahead, Reached, Splayed, Afforded, Beyond;
      var node := new Node(0);
      var left, right := node, node;
      ghost var l, t, r, s, t0 := End, shape, End, Contents(), shape;
      ghost var key := Outside(s, comp);
      ghost var p := SplitAt(t0, key);
      TakenApart(node);
      WholePieces(shape);
      FirstTurn(t0, key);
      turns := 0;
      while true
        invariant Apart(l, t, r, node, left, right) && InPieces(l, t, r, s) && t.Bin?
        invariant repr == old(repr) && root != null
        invariant (comp < 0 ==> l.End?) && (comp > 0 ==> r.End?)
        invariant Ahead(p, l, t, r, key, turns)
        decreases Size(t)
      {
        Root(l, t, r, node, left, right);
        RotatedSize(t);
        RotatedPieces(l, t, r, s);
        BeyondRoot(l, t, r, s, key, comp);
        if comp < 0 {
          TurnLeft(p, l, t, r, key, turns);
          turns := turns + 1;
          var tmp := root.left;
          if tmp == null {
            break;
          }
          RotateRight(tmp, l, t, r, node, left, right);
          t := RotatedRight(t);
          Root(l, t, r, node, left, right);
          if root.left == null {
            break;
          }
          right := LinkLeft(l, t, r, node, left, right);
          LinkedOrder(l, t, r, s);
          t, r := t.left, More(t.node, t.right, r);
        } else {
          TurnRight(p, l, t, r, key, turns);
          turns := turns + 1;
          var tmp := root.right;
          if tmp == null {
            break;
          }
          RotateLeft(tmp, l, t, r, node, left, right);
          t := RotatedLeft(t);
          Root(l, t, r, node, left, right);
          if root.right == null {
            break;
          }
          left := LinkRight(l, t, r, node, left, right);
          LinkedOrder(l, t, r, s);
          l, t := More(t.node, t.left, l), t.right;
        }
        Root(l, t, r, node, left, right);
      }
      Root(l, t, r, node, left, right);
      AssembledEnd(l, t, r, s);
      ReachedAssembled(t0, key, l, t, r, turns);
      AccessBound(t0, key);
      Assemble(node, left, right, l, t, r);
    }

    /** `SPLAY_NEXT` */
    method Next(elm: Node, ghost i: int) returns (r: Node?, ghost turns: nat, ghost walk: nat)
      requires Valid() && 0 <= i < |Contents()| && Contents()[i] == elm
      modifies this`root, this`shape, repr
      ensures Valid() && repr == old(repr) && Contents() == old(Contents())
      ensures r == if i + 1 < |Contents()| then Contents()[i + 1] else null
      ensures Afforded(old(shape), shape, turns, Cost(Size(old(shape))))
      ensures shape.Bin? && walk == LeftDepth(shape.right)
      ensures elm == old(root) ==> SameShape(old(shape), shape) && turns == 0
    {
      hide InOrder, Settled, Sorted;
      ghost var t0 := shape;
      EmptyOrder(shape);
      turns := Splay(elm.key);
      AccessBound(t0, elm.key);
      RootIs(elm, i);
      EmptyOrder(shape.right);
      r, walk := null, 0;
      if elm.right != null {
        r, walk := Leftmost(elm.right, shape.right);
      }
    }

    /** The loop of `SPLAY_NEXT`. */
    static method Leftmost(elm: Node, ghost t: Tree) returns (e: Node, ghost walk: nat)
      requires t.Bin? && Rep(t) && elm == t.node
      ensures InOrder(t) != [] && e == InOrder(t)[0] && walk == LeftDepth(t)
    {
      e, walk := elm, 0;
      ghost var d, rest := t, [];
      assert InOrder(d) + rest == InOrder(t);
      while e.left != null
        invariant d.Bin? && Rep(d) && e == d.node && InOrder(d) + rest == InOrder(t)
        invariant walk + LeftDepth(d) == LeftDepth(t)
        decreases d
      {
        walk := walk + 1;
        DownLeftOrder(d, rest);
        rest, d := [d.node] + InOrder(d.right) + rest, d.left;
        e := e.left;
      }
      DownLeftOrder(d, rest);
    }

    /** An element of a splayed tree that has the sought key is the root. */
    lemma RootIs(elm: Node, i: int)
      requires Valid() && 0 <= i < |Contents()| && Contents()[i] == elm && Settled(shape, elm.key)
      ensures root == elm && Contents()[i + 1..] == InOrder(shape.right) && Rep(shape.right)
      ensures elm.right == RootOf(shape.right)
    {
      SettledFound(shape, elm.key);
      RootRemoved(shape);
      var k := |InOrder(shape.left)|;
      assert i == k;
      assert Contents()[k + 1..] == InOrder(shape.right);
    }

    /** `SPLAY_FOREACH` */
    method Foreach() returns (visited: seq<Node>)
      requires Valid()
      modifies this`root, this`shape, repr
      ensures Valid() && repr == old(repr) && visited == Contents() == old(Contents())
    {
      hide InOrder;
      visited := [];
      EmptyOrder(shape);
      var x: Node? := null;
      if root != null {
        ghost var turns := MinMax(-1);
        x := root;
      }
      while x != null
        invariant Valid() && repr == old(repr) && Contents() == old(Contents())
        invariant |visited| <= |Contents()| && visited == Contents()[..|visited|]
        invariant x == if |visited| < |Contents()| then Contents()[|visited|] else null
        decreases |Contents()| - |visited|
      {
        visited := visited + [x];
        ghost var turns, walk;
        x, turns, walk := Next(x, |visited| - 1);
      }
    }
  }
}
