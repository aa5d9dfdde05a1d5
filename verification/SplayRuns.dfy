/** Runs of operations on a splay tree: the Balance Theorem that `shell/include/tree.h` quotes, and the operation
    to which it does not apply. */
module SplayRuns {
  import opened DivMod
  import opened Splay
  import opened SplayCost
  import opened Trees

  datatype Op = Find(key: int) | Insert(key: int) | Remove(key: int) | Min | Max

  function Inserts(ops: seq<Op>): (n: nat)
    ensures n <= |ops|
  {
    if ops == [] then 0 else Inserts(ops[..|ops| - 1]) + if ops[|ops| - 1].Insert? then 1 else 0
  }

  lemma {:induction false} InsertsUpTo(ops: seq<Op>, i: nat)
    requires i <= |ops|
    ensures Inserts(ops[..i]) <= Inserts(ops)
    ensures i < |ops| ==> Inserts(ops[..i + 1]) == Inserts(ops[..i]) + if ops[i].Insert? then 1 else 0
    decreases |ops|
  {
    if i < |ops| {
      assert ops[..i + 1][..i] == ops[..i];
      assert ops[..|ops| - 1][..i] == ops[..i];
      InsertsUpTo(ops[..|ops| - 1], i);
    } else {
      assert ops[..i] == ops;
    }
  }

  lemma {:induction false} SizeIs(t: Tree)
    ensures Size(t) == |InOrder(t)|
  {
    if t.Bin? {
      SizeIs(t.left);
      SizeIs(t.right);
    }
  }

  // ---------------------------------------------------------------- what is answered

  ghost function KeysOf(s: seq<Node>): set<int> {
    set x | x in s :: x.key
  }

  function Step(keys: set<int>, op: Op): set<int> {
    match op
    case Insert(key) => keys + {key}
    case Remove(key) => keys - {key}
    case _ => keys
  }

  /** The keys in the tree after a run. */
  function KeysAfter(ops: seq<Op>): set<int> {
    if ops == [] then {} else Step(KeysAfter(ops[..|ops| - 1]), ops[|ops| - 1])
  }

  /** The element with the key is found, is in the way, or is taken out, exactly when there is one. */
  ghost predicate Answers(op: Op, keys: set<int>, r: Node?) {
    match op
    case Min => if keys == {} then r == null else r != null && r.key in keys && forall k :: k in keys ==> r.key <= k
    case Max => if keys == {} then r == null else r != null && r.key in keys && forall k :: k in keys ==> k <= r.key
    case _ => (r != null <==> op.key in keys) && (r != null ==> r.key == op.key)
  }

  lemma KeysInserted(s: seq<Node>, i: int, elm: Node)
    requires 0 <= i <= |s|
    ensures KeysOf(s[..i] + [elm] + s[i..]) == KeysOf(s) + {elm.key}
  {
    var t := s[..i] + [elm] + s[i..];
    assert t[i] == elm;
    forall x | x in s ensures x in t {
      var j :| 0 <= j < |s| && s[j] == x;
      assert t[if j < i then j else j + 1] == x;
    }
  }

  lemma OtherKeys(s: seq<Node>, i: int, j: int)
    requires Sorted(s) && 0 <= i < |s| && 0 <= j < |s| && i != j
    ensures s[i].key != s[j].key
  {
  }

  lemma KeysRemoved(s: seq<Node>, i: int)
    requires Sorted(s) && 0 <= i < |s|
    ensures KeysOf(s[..i] + s[i + 1..]) == KeysOf(s) - {s[i].key}
  {
    hide Sorted;
    var t := s[..i] + s[i + 1..];
    forall x | x in s && x.key != s[i].key ensures x in t {
      var j :| 0 <= j < |s| && s[j] == x;
      assert t[if j < i then j else j - 1] == x;
    }
    forall x | x in t ensures x in s && x.key != s[i].key {
      var j :| 0 <= j < |t| && t[j] == x;
      var k := if j < i then j else j + 1;
      assert x == s[k];
      OtherKeys(s, k, i);
    }
  }

  lemma KeyAt(s: seq<Node>, i: int)
    requires 0 <= i < |s|
    ensures s[i].key in KeysOf(s)
  {
    assert s[i] in s;
  }

  lemma KeysBetween(s: seq<Node>)
    requires Sorted(s) && s != []
    ensures s[0].key in KeysOf(s) && s[|s| - 1].key in KeysOf(s)
    ensures forall k :: k in KeysOf(s) ==> s[0].key <= k <= s[|s| - 1].key
  {
    KeyAt(s, 0);
    KeyAt(s, |s| - 1);
  }

  lemma RootOnly(tree: SplayTree)
    requires tree.Valid()
    ensures Sorted(tree.Contents()) && (tree.root == null <==> tree.Contents() == [])
  {
  }

  method FindKey(tree: SplayTree, key: int) returns (r: Node?, ghost turns: nat)
    requires tree.Valid()
    modifies tree, tree.repr
    ensures tree.Valid() && tree.repr == old(tree.repr) && KeysOf(tree.Contents()) == KeysOf(old(tree.Contents()))
    ensures Answers(Find(key), KeysOf(old(tree.Contents())), r)
    ensures Afforded(old(tree.shape), tree.shape, turns, Cost(Size(old(tree.shape))))
  {
    hide SplayTree.Valid, SplayTree.Contents, Afforded, Cost, Size, Splayed, SplitAt;
    ghost var s := tree.Contents();
    r, turns := tree.Find(key);
    if r != null {
      assert r.key in KeysOf(s);
    }
  }

  method InsertKey(tree: SplayTree, key: int) returns (r: Node?, ghost turns: nat)
    requires tree.Valid()
    modifies tree, tree.repr
    ensures tree.Valid() && fresh(tree.repr - old(tree.repr))
    ensures KeysOf(tree.Contents()) == Step(KeysOf(old(tree.Contents())), Insert(key))
    ensures Answers(Insert(key), KeysOf(old(tree.Contents())), r)
    ensures Afforded(old(tree.shape), tree.shape, turns, Cost(Size(old(tree.shape))))
  {
    hide SplayTree.Valid, SplayTree.Contents, Afforded, Cost, Size, Splayed, Inserted, Sorted;
    ghost var s := tree.Contents();
    var elm := new Node(key);
    ghost var i;
    r, i, turns := tree.Insert(elm);
    RootOnly(tree);
    if r != null {
      assert r.key in KeysOf(s);
      assert KeysOf(s) + {key} == KeysOf(s);
    } else {
      KeysInserted(s, i, elm);
      OneOnly(tree.Contents(), s, i, elm);
    }
  }

  /** The inserted element is the only one with its key. */
  lemma OneOnly(t: seq<Node>, s: seq<Node>, i: int, elm: Node)
    requires 0 <= i <= |s| && t == s[..i] + [elm] + s[i..] && Sorted(t)
    ensures elm.key !in KeysOf(s)
  {
    forall x | x in s ensures x.key != elm.key {
      var j :| 0 <= j < |s| && s[j] == x;
      assert t[if j < i then j else j + 1] == x && t[i] == elm;
    }
  }

  method RemoveKey(tree: SplayTree, key: int) returns (r: Node?, ghost turns: nat)
    requires tree.Valid()
    modifies tree, tree.repr
    ensures tree.Valid() && fresh(tree.repr - old(tree.repr))
    ensures KeysOf(tree.Contents()) == Step(KeysOf(old(tree.Contents())), Remove(key))
    ensures Answers(Remove(key), KeysOf(old(tree.Contents())), r)
    ensures Afforded(old(tree.shape), tree.shape, turns, Cost(Size(old(tree.shape))))
  {
    hide SplayTree.Valid, SplayTree.Contents, Afforded, Cost, Size, Sorted;
    RootOnly(tree);
    ghost var s := tree.Contents();
    var elm := new Node(key);
    ghost var i;
    r, i, turns := tree.Remove(elm);
    if r != null {
      KeysRemoved(s, i);
      KeyAt(s, i);
    } else {
      assert key !in KeysOf(s);
      assert KeysOf(s) - {key} == KeysOf(s);
    }
  }

  method EndKey(tree: SplayTree, op: Op) returns (r: Node?, ghost turns: nat)
    requires tree.Valid() && (op == Min || op == Max)
    modifies tree, tree.repr
    ensures tree.Valid() && tree.repr == old(tree.repr) && KeysOf(tree.Contents()) == KeysOf(old(tree.Contents()))
    ensures Answers(op, KeysOf(old(tree.Contents())), r)
    ensures Afforded(old(tree.shape), tree.shape, turns, Cost(Size(old(tree.shape))))
  {
    hide SplayTree.Valid, SplayTree.Contents, Afforded, Cost, Size, Sorted;
    RootOnly(tree);
    ghost var s := tree.Contents();
    turns := 0;
    if tree.root != null {
      turns := tree.MinMax(if op == Min then -1 else 1);
      KeysBetween(s);
    } else {
      StillBound(tree.shape);
      assert KeysOf(s) == {};
    }
    r := tree.root;
  }

  /** One operation; the client makes an element to insert, or to name the one it wants removed. */
  method Perform(tree: SplayTree, op: Op) returns (r: Node?, ghost turns: nat)
    requires tree.Valid()
    modifies tree, tree.repr
    ensures tree.Valid() && fresh(tree.repr - old(tree.repr))
    ensures KeysOf(tree.Contents()) == Step(KeysOf(old(tree.Contents())), op)
    ensures Answers(op, KeysOf(old(tree.Contents())), r)
    ensures Afforded(old(tree.shape), tree.shape, turns, Cost(Size(old(tree.shape))))
  {
    hide SplayTree.Valid, SplayTree.Contents, Afforded, Cost, Size, KeysOf;
    match op {
      case Find(key) => r, turns := FindKey(tree, key);
      case Insert(key) => r, turns := InsertKey(tree, key);
      case Remove(key) => r, turns := RemoveKey(tree, key);
      case _ => r, turns := EndKey(tree, op);
    }
  }

  lemma {:induction false} KeysCount(s: seq<Node>)
    requires Sorted(s)
    ensures |KeysOf(s)| == |s|
  {
    if s == [] {
      assert KeysOf(s) == {};
    } else {
      var t := s[..|s| - 1];
      KeysCount(t);
      assert s[..|t|] + s[|t| + 1..] == t;
      KeysRemoved(s, |t|);
      KeyAt(s, |t|);
      assert KeysOf(s) == KeysOf(t) + {s[|t|].key};
    }
  }

  lemma SizeBound(tree: SplayTree, ops: seq<Op>)
    requires tree.Valid() && KeysOf(tree.Contents()) == KeysAfter(ops)
    ensures Size(tree.shape) <= Inserts(ops)
  {
    hide SplayTree.Valid, Sorted;
    RootOnly(tree);
    SizeIs(tree.shape);
    KeysCount(tree.Contents());
    FewKeys(ops);
  }

  lemma {:induction false} FewKeys(ops: seq<Op>)
    ensures |KeysAfter(ops)| <= Inserts(ops)
  {
    if ops != [] {
      FewKeys(ops[..|ops| - 1]);
    }
  }

  lemma KeysNext(ops: seq<Op>, i: nat)
    requires i < |ops|
    ensures KeysAfter(ops[..i + 1]) == Step(KeysAfter(ops[..i]), ops[i])
  {
    assert ops[..i + 1][..i] == ops[..i];
  }

  /** The Balance Theorem: `m` operations on a tree that starts empty, `n` of them insertions, take
      `O(m * lg n)` turns.  They do what they would do to a set of keys. */
  method Session(ops: seq<Op>) returns (tree: SplayTree, answers: seq<Node?>, ghost turns: nat)
    ensures fresh(tree) && tree.Valid() && KeysOf(tree.Contents()) == KeysAfter(ops) && |answers| == |ops|
    ensures forall i :: 0 <= i < |ops| ==> Answers(ops[i], KeysAfter(ops[..i]), answers[i])
    ensures Pow2(turns) <= PowerOf(Cost(Inserts(ops)), |ops|)
  {
    hide Afforded, Cost, Size, SplayTree.Valid, SplayTree.Contents, KeysAfter, Answers, Step, Inserts;
    ghost var c := Cost(Inserts(ops));
    tree := new SplayTree();
    turns, answers := 0, [];
    EmptyRun(tree.shape, c);
    NoKeys(tree, ops);
    for i := 0 to |ops|
      invariant fresh(tree) && fresh(tree.repr) && tree.Valid() && |answers| == i
      invariant KeysOf(tree.Contents()) == KeysAfter(ops[..i])
      invariant forall j :: 0 <= j < i ==> Answers(ops[j], KeysAfter(ops[..j]), answers[j])
      invariant Afforded(Leaf, tree.shape, turns, PowerOf(c, i))
    {
      ghost var t1 := tree.shape;
      SizeBound(tree, ops[..i]);
      InsertsUpTo(ops, i);
      CostMonotone(Size(t1), Inserts(ops));
      KeysNext(ops, i);
      ghost var more;
      var answer;
      answer, more := Perform(tree, ops[i]);
      AffordedNext(Leaf, t1, tree.shape, turns, more, c, i, Cost(Size(t1)));
      answers, turns := answers + [answer], turns + more;
    }
    assert ops[..|ops|] == ops;
    RunBound(Leaf, tree.shape, turns, PowerOf(c, |ops|));
  }

  lemma NoKeys(tree: SplayTree, ops: seq<Op>)
    requires tree.Valid() && tree.Contents() == []
    ensures KeysOf(tree.Contents()) == KeysAfter(ops[..0]) && InOrder(tree.shape) == []
  {
  }

  const OPS: seq<Op> := [Insert(5), Insert(3), Insert(5), Find(3), Find(4), Min, Remove(5), Max, Remove(7)]

  function KeysBefore(i: nat): set<int> {
    if i == 0 then {} else if i == 1 then {5} else if i <= 6 then {3, 5} else {3}
  }

  lemma KeysStep(i: nat)
    requires i < 9
    ensures Step(KeysBefore(i), OPS[i]) == KeysBefore(i + 1)
  {
  }

  lemma {:induction false} KeysAre(i: nat)
    requires i <= 9
    ensures KeysAfter(OPS[..i]) == KeysBefore(i)
  {
    hide Step;
    if i > 0 {
      KeysAre(i - 1);
      KeysNext(OPS, i - 1);
      KeysStep(i - 1);
    }
  }

  /** A run with literal results: the key of each answer, -1 for none. */
  method Run() returns (keys: seq<int>)
    ensures keys == [-1, -1, 5, 3, -1, 3, 5, 3, -1]
  {
    hide KeysAfter, Step, Afforded, Cost, SplayTree.Valid;
    var tree, answers;
    ghost var turns;
    tree, answers, turns := Session(OPS);
    keys := [];
    for i := 0 to 9
      invariant |keys| == i && keys == [-1, -1, 5, 3, -1, 3, 5, 3, -1][..i]
    {
      KeysAre(i);
      assert Answers(OPS[i], KeysBefore(i), answers[i]);
      var answer := answers[i];
      keys := keys + [if answer == null then -1 else answer.key];
    }
  }

  lemma EmptyRun(t: Tree, c: nat)
    ensures InOrder(t) == [] ==> t == Leaf && Size(t) == 0
    ensures Afforded(t, t, 0, PowerOf(c, 0))
  {
  }

  /** Of a sequence of accesses each costs `O(lg n)`, but for what the tree owes when it starts. */
  method Accesses(tree: SplayTree, keys: seq<int>) returns (found: seq<Node?>, ghost turns: nat)
    requires tree.Valid()
    modifies tree, tree.repr
    ensures tree.Valid() && tree.repr == old(tree.repr) && tree.Contents() == old(tree.Contents())
    ensures |found| == |keys|
    ensures forall j :: 0 <= j < |keys| && found[j] != null ==> found[j] in tree.Contents() && found[j].key == keys[j]
    ensures forall j, x :: 0 <= j < |keys| && found[j] == null && x in tree.Contents() ==> x.key != keys[j]
    ensures var n := |tree.Contents()|; Pow2(turns) <= PowerOf(Cost(n), |keys|) * PowerOf(n, n)
  {
    hide Afforded, Cost, Size, InOrder, Sorted, SplayTree.Shaped;
    ghost var t0, s := tree.shape, tree.Contents();
    ghost var c := Cost(|s|);
    SizeIs(t0);
    EmptyRun(t0, c);
    found, turns := [], 0;
    for i := 0 to |keys|
      invariant tree.Valid() && tree.repr == old(tree.repr) && tree.Contents() == s && |found| == i
      invariant forall j :: 0 <= j < i && found[j] != null ==> found[j] in s && found[j].key == keys[j]
      invariant forall j, x :: 0 <= j < i && found[j] == null && x in s ==> x.key != keys[j]
      invariant Afforded(t0, tree.shape, turns, PowerOf(c, i))
    {
      ghost var t1 := tree.shape;
      SizeIs(t1);
      var r;
      ghost var more;
      r, more := tree.Find(keys[i]);
      AffordedNext(t0, t1, tree.shape, turns, more, c, i, Cost(Size(t1)));
      found, turns := found + [r], turns + more;
    }
    RunBound(t0, tree.shape, turns, PowerOf(c, |keys|));
  }

  // ---------------------------------------------------------------- where it does not hold

  /** What inserting the keys 1 to `n` in this order gives. */
  predicate LeftChain(t: Tree, n: nat) {
    if n == 0 then t.Leaf?
    else t.Bin? && t.node.key == n && !t.red && t.right.Leaf? && LeftChain(t.left, n - 1)
  }

  lemma ChainGrows(t: Tree, n: nat, elm: Node)
    requires n > 0 && LeftChain(t, n) && elm.key == n + 1
    ensures LeftChain(Inserted(Splayed(t, n + 1), elm), n + 1)
  {
  }

  /** Searching for 1 takes half as many turns as there are elements and leaves a leftmost path half as long. */
  lemma {:induction false} ChainSplit(t: Tree, n: nat)
    requires n > 0 && LeftChain(t, n)
    ensures var p := SplitAt(t, 1);
      && p.left.Leaf? && p.node.key == 1 && p.turns == n / 2
      && (n > 1 ==> p.right.Bin? && LeftDepth(p.right) == n / 2 - 1)
  {
    assert LeftChain(t.left, n - 1);
    if n > 1 {
      assert LeftChain(t.left.left, n - 2);
    }
    if n > 2 {
      ChainSplit(t.left.left, n - 2);
    }
  }

  /** `SPLAY_NEXT` walks without splaying where it walked: after `n` insertions and one search, which takes `n / 2`
      turns, `m` calls of it take `m * (n / 2 - 1)` turns of its loop. */
  method NextAgain(n: nat, m: nat) returns (tree: SplayTree, ghost searched: nat, ghost walked: nat)
    requires n > 1
    ensures fresh(tree) && tree.Valid() && |tree.Contents()| == n
    ensures searched == n / 2 && walked == m * (n / 2 - 1)
  {
    hide InOrder, Sorted, Afforded, Cost, SplitAt, Nodes, Proper, Rep;
    tree := GrownChain(n);
    ghost var t0, turns := tree.shape, 0;
    ChainSplit(t0, n);
    var first;
    first, searched := tree.Find(1);
    SizeIs(t0);
    SizeIs(tree.shape);
    walked := 0;
    for i := 0 to m
      invariant fresh(tree) && fresh(tree.repr) && tree.Valid() && |tree.Contents()| == n
      invariant tree.shape.Bin? && tree.shape.left.Leaf? && LeftDepth(tree.shape.right) == n / 2 - 1
      invariant walked == i * (n / 2 - 1)
    {
      InOrderBin(tree.shape);
      var next;
      ghost var walk;
      next, turns, walk := tree.Next(tree.root, 0);
      walked := walked + walk;
    }
  }

  method GrownChain(n: nat) returns (tree: SplayTree)
    ensures fresh(tree) && fresh(tree.repr) && tree.Valid() && LeftChain(tree.shape, n) && Size(tree.shape) == n
  {
    hide Sorted, Afforded, Cost, Splayed, Inserted, SplayTree.Shaped;
    tree := new SplayTree();
    for i := 0 to n
      invariant fresh(tree) && fresh(tree.repr) && tree.Valid() && LeftChain(tree.shape, i)
    {
      ghost var t := tree.shape;
      var elm := new Node(i + 1);
      ChainKeys(t, i);
      var existing;
      ghost var k, turns;
      existing, k, turns := tree.Insert(elm);
      if i > 0 {
        ChainGrows(t, i, elm);
      }
    }
    ChainKeys(tree.shape, n);
  }

  lemma {:induction false} ChainKeys(t: Tree, n: nat)
    requires LeftChain(t, n)
    ensures Size(t) == n && forall x :: x in InOrder(t) ==> 1 <= x.key <= n
  {
    if n > 0 {
      ChainKeys(t.left, n - 1);
    }
  }

  lemma {:induction false} PowerOfPow2(a: nat, k: nat)
    ensures PowerOf(Pow2(a), k) == Pow2(a * k)
  {
    if k > 0 {
      PowerOfPow2(a, k - 1);
      Pow2Sum(a, a * (k - 1));
      assert a * k == a + a * (k - 1);
    }
  }

  lemma {:induction false} PowerOfMonotone(b: nat, c: nat, k: nat)
    requires b <= c
    ensures PowerOf(b, k) <= PowerOf(c, k)
  {
    if k > 0 {
      PowerOfMonotone(b, c, k - 1);
      MulBoth(b, c, PowerOf(b, k - 1), PowerOf(c, k - 1));
    }
  }

  /** The bound of the Balance Theorem does not hold once `SPLAY_NEXT` is among the operations: after 256 insertions and
      a search any 257 or more calls of it exceed what as many accesses may cost. */
  lemma NotBalanced(m: nat)
    requires m > 256
    ensures Pow2(m * (256 / 2 - 1)) > PowerOf(Cost(256), 256 + 1 + m)
  {
    hide Cost, Pow2;
    FortyThree();
    PowerOfMonotone(Cost(256), Pow2(43), 257 + m);
    PowerOfPow2(43, 257 + m);
    Pow2Monotone(43 * (257 + m) + 1, 127 * m);
    Pow2Twice(43 * (257 + m));
  }

  lemma Pow2Twice(n: nat)
    ensures Pow2(n + 1) == 2 * Pow2(n) > Pow2(n)
  {
  }

  lemma FortyThree()
    ensures Cost(256) <= Pow2(43)
  {
    assert Pow2(4) == 2 * Pow2(3) && Pow2(3) == 2 * Pow2(2) && Pow2(2) == 2 * Pow2(1) && Pow2(1) == 2 * Pow2(0);
    Pow2Sum(4, 4);
    Pow2Sum(8, 8);
    Pow2Sum(16, 16);
    Pow2Sum(32, 8);
    Pow2Sum(40, 3);
  }
}
