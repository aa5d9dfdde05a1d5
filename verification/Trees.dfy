/** Elements of the trees of `shell/include/tree.h` and the shapes they form, as values. */
module Trees {

  /** An element with its `RB_ENTRY` fields.  The comparison function the client supplies is a total
      order, represented by integer keys. */
  class Node {
    const key: int
    var left: Node?
    var right: Node?
    var parent: Node?
    var red: bool

    constructor (key: int)
      ensures this.key == key
    {
      this.key := key;
      left, right, parent, red := null, null, null, false;
    }
  }

  datatype Tree = Leaf | Bin(left: Tree, node: Node, red: bool, right: Tree)

  ghost function Nodes(t: Tree): set<Node> {
    match t
    case Leaf => {}
    case Bin(l, x, _, r) => Nodes(l) + {x} + Nodes(r)
  }

  function RootOf(t: Tree): Node? {
    if t.Leaf? then null else t.node
  }

  function InOrder(t: Tree): seq<Node> {
    match t
    case Leaf => []
    case Bin(l, x, _, r) => InOrder(l) + [x] + InOrder(r)
  }

  lemma Regroup(a: seq<Node>, b: seq<Node>, c: seq<Node>, d: seq<Node>, e: seq<Node>)
    ensures a + (b + c + d) + e == a + b + ((c + d) + e)
    ensures a + (b + c + d) + e == (a + (b + c)) + d + e
  {
  }

  lemma Regroup4(a: seq<Node>, b: seq<Node>, c: seq<Node>, d: seq<Node>, e: seq<Node>)
    ensures a + b + (c + d + e) == (a + b + c) + d + e
  {
  }

  /** `t` after `RB_ROTATE_LEFT` at its root. */
  function RotatedLeft(t: Tree): (r: Tree)
    requires t.Bin? && t.right.Bin?
    ensures InOrder(r) == InOrder(t)
  {
    Regroup4(InOrder(t.left), [t.node], InOrder(t.right.left), [t.right.node], InOrder(t.right.right));
    Bin(Bin(t.left, t.node, t.red, t.right.left), t.right.node, t.right.red, t.right.right)
  }

  /** `t` after `RB_ROTATE_RIGHT` at its root. */
  function RotatedRight(t: Tree): (r: Tree)
    requires t.Bin? && t.left.Bin?
    ensures InOrder(r) == InOrder(t)
  {
    Regroup4(InOrder(t.left.left), [t.left.node], InOrder(t.left.right), [t.node], InOrder(t.right));
    Bin(t.left.left, t.left.node, t.left.red, Bin(t.left.right, t.node, t.red, t.right))
  }

  // ---------------------------------------------------------------- each node once

  ghost predicate Proper(t: Tree) {
    match t
    case Leaf => true
    case Bin(l, x, _, r) => x !in Nodes(l) && x !in Nodes(r) && Nodes(l) !! Nodes(r) && Proper(l) && Proper(r)
  }

  lemma ProperBin(l: Tree, x: Node, red: bool, r: Tree)
    ensures Nodes(Bin(l, x, red, r)) == Nodes(l) + {x} + Nodes(r)
    ensures Proper(Bin(l, x, red, r)) <==>
              x !in Nodes(l) && x !in Nodes(r) && Nodes(l) !! Nodes(r) && Proper(l) && Proper(r)
  {
  }

  /** `x`, `y`, the subtrees `a`, `b`, `d` and `rest` share no node. */
  ghost predicate Separate(x: Node, y: Node, a: Tree, b: Tree, d: Tree, rest: set<Node>) {
    && x != y && x !in Nodes(a) && x !in Nodes(b) && x !in Nodes(d) && x !in rest
    && y !in Nodes(a) && y !in Nodes(b) && y !in Nodes(d) && y !in rest
    && Nodes(a) !! Nodes(b) && Nodes(a) !! Nodes(d) && Nodes(b) !! Nodes(d)
    && Nodes(a) !! rest && Nodes(b) !! rest && Nodes(d) !! rest
    && Proper(a) && Proper(b) && Proper(d)
  }

  /** The two shapes that a rotation turns into each other. */
  lemma SeparateBoth(x: Node, y: Node, rx: bool, ry: bool, a: Tree, b: Tree, d: Tree, rest: set<Node>)
    ensures var t := Bin(a, x, rx, Bin(b, y, ry, d));
            && (Proper(t) && Nodes(t) !! rest <==> Separate(x, y, a, b, d, rest))
            && Nodes(t) == Nodes(a) + Nodes(b) + Nodes(d) + {x, y}
    ensures var t := Bin(Bin(a, x, rx, b), y, ry, d);
            && (Proper(t) && Nodes(t) !! rest <==> Separate(x, y, a, b, d, rest))
            && Nodes(t) == Nodes(a) + Nodes(b) + Nodes(d) + {x, y}
  {
    ProperBin(b, y, ry, d);
    ProperBin(a, x, rx, Bin(b, y, ry, d));
    ProperBin(a, x, rx, b);
    ProperBin(Bin(a, x, rx, b), y, ry, d);
  }

  lemma {:induction false} InOrderNodes(t: Tree)
    ensures forall x {:trigger x in Nodes(t)} {:trigger x in InOrder(t)} :: x in Nodes(t) <==> x in InOrder(t)
  {
    if t.Bin? {
      InOrderNodes(t.left);
      InOrderNodes(t.right);
    }
  }

  // ---------------------------------------------------------------- search order

  ghost predicate Sorted(s: seq<Node>) {
    forall i, j {:trigger s[i], s[j]} :: 0 <= i < j < |s| ==> s[i].key < s[j].key
  }

  ghost predicate AllBelow(s: seq<Node>, key: int) {
    forall i {:trigger s[i]} :: 0 <= i < |s| ==> s[i].key < key
  }

  ghost predicate AllAbove(s: seq<Node>, key: int) {
    forall i {:trigger s[i]} :: 0 <= i < |s| ==> key < s[i].key
  }

  /** In a sorted sequence the elements before one are smaller and those after it larger. */
  lemma SortedParts(a: seq<Node>, b: seq<Node>, x: Node, d: seq<Node>, e: seq<Node>)
    requires Sorted(a + (b + [x] + d) + e)
    ensures AllBelow(a + b, x.key) && AllAbove(d + e, x.key)
    ensures Sorted(a) && Sorted(b) && Sorted(d) && Sorted(e)
  {
    var s := a + (b + [x] + d) + e;
    var k := |a| + |b|;
    assert s[k] == x && s[..k] == a + b && s[k + 1..] == d + e;
    assert a == s[..|a|] && b == s[|a|..k] && d == s[k + 1..k + 1 + |d|] && e == s[k + 1 + |d|..];
  }

  lemma AllAboveCons(x: Node, s: seq<Node>, key: int)
    requires key < x.key && AllAbove(s, x.key)
    ensures AllAbove([x] + s, key)
  {
  }

  lemma AllBelowSnoc(s: seq<Node>, x: Node, key: int)
    requires x.key < key && AllBelow(s, x.key)
    ensures AllBelow(s + [x], key)
  {
  }

  lemma InOrderBin(t: Tree)
    requires t.Bin?
    ensures InOrder(t) == InOrder(t.left) + [t.node] + InOrder(t.right)
    ensures (t.left.Leaf? ==> InOrder(t.left) == []) && (t.right.Leaf? ==> InOrder(t.right) == [])
  {
  }

  lemma WithoutMiddle(a: seq<Node>, l: seq<Node>, x: Node, r: seq<Node>, p: seq<Node>)
    ensures var s, i := a + (l + [x] + r) + p, |a| + |l|;
            s[i] == x && s[..i] + s[i + 1..] == a + l + r + p
  {
    var s, i := a + (l + [x] + r) + p, |a| + |l|;
    assert s[..i] == a + l;
    assert s[i + 1..] == r + p;
  }

  lemma NoMiddle(a: seq<Node>, l: seq<Node>, r: seq<Node>)
    ensures l == [] ==> a + l + r == a + r
    ensures r == [] ==> a + l + r == a + l
  {
  }

  lemma Halves(a: seq<Node>, b: seq<Node>)
    ensures (a + b)[..|a|] == a && (a + b)[|a|..] == b
  {
  }

  /** A sorted sequence with a new element where it belongs. */
  lemma SortedWith(a: seq<Node>, x: Node, b: seq<Node>)
    requires Sorted(a + b) && AllBelow(a, x.key) && AllAbove(b, x.key)
    ensures Sorted(a + [x] + b)
  {
    var s := a + [x] + b;
    forall i, j {:trigger s[i], s[j]} | 0 <= i < j < |s| ensures s[i].key < s[j].key {
      if i != |a| && j != |a| {
        assert (a + b)[if i < |a| then i else i - 1] == s[i] && (a + b)[if j < |a| then j else j - 1] == s[j];
      }
    }
  }

  lemma SortedWithout(s: seq<Node>, i: int)
    requires Sorted(s) && 0 <= i < |s|
    ensures Sorted(s[..i] + s[i + 1..])
  {
    var s' := s[..i] + s[i + 1..];
    forall j, k {:trigger s'[j], s'[k]} | 0 <= j < k < |s'| ensures s'[j].key < s'[k].key {
      assert s'[j] == s[if j < i then j else j + 1] && s'[k] == s[if k < i then k else k + 1];
    }
  }
}
