/** The traces that `malloc/mdriver.c` replays, described operation by operation: which of them the driver accepts, what
    it records, and a whole run of it. */
module Traces {
  import opened HeapLayout
  import opened Allocator
  import opened Bytes
  import opened Driver

  predicate Takes(op: Op, i: int) {
    op.index == i && (op.Alloc? || (op.Realloc? && op.size > 0))
  }

  predicate Drops(op: Op, i: int) {
    op.index == i && (op.Free? || (op.Realloc? && op.size <= 0))
  }

  /** Id `i` is allocated before operation `n`. */
  ghost predicate Held(ops: seq<Op>, n: int, i: int)
    requires 0 <= n <= |ops|
  {
    exists m {:trigger ops[m]} :: 0 <= m < n && Takes(ops[m], i) && forall k :: m < k < n ==> !Drops(ops[k], i)
  }

  /** Id `i` was freed before operation `n` and not allocated again. */
  ghost predicate Gone(ops: seq<Op>, n: int, i: int)
    requires 0 <= n <= |ops|
  {
    exists m {:trigger ops[m]} :: 0 <= m < n && ops[m] == Free(i) && Held(ops, m, i) &&
      forall k :: m < k < n ==> !(ops[k].Alloc? && ops[k].index == i)
  }

  lemma HeldStep(ops: seq<Op>, n: int, i: int)
    requires 0 <= n < |ops|
    ensures Held(ops, n + 1, i) <==> Takes(ops[n], i) || (Held(ops, n, i) && !Drops(ops[n], i))
  {
    if Held(ops, n, i) && !Drops(ops[n], i) {
      var m :| 0 <= m < n && Takes(ops[m], i) && forall k :: m < k < n ==> !Drops(ops[k], i);
      assert forall k :: m < k < n + 1 ==> !Drops(ops[k], i);
    }
  }

  lemma GoneStep(ops: seq<Op>, n: int, i: int)
    requires 0 <= n < |ops|
    ensures Gone(ops, n + 1, i) <==>
            (ops[n] == Free(i) && Held(ops, n, i)) || (Gone(ops, n, i) && !(ops[n].Alloc? && ops[n].index == i))
  {
    hide Held;
    if Gone(ops, n, i) && !(ops[n].Alloc? && ops[n].index == i) {
      var m :| 0 <= m < n && ops[m] == Free(i) && Held(ops, m, i) &&
        forall k :: m < k < n ==> !(ops[k].Alloc? && ops[k].index == i);
      assert forall k :: m < k < n + 1 ==> !(ops[k].Alloc? && ops[k].index == i);
    }
  }

  /** The driver's view of the ids after a prefix of the trace. */
  lemma {:induction false} IdsAre(ops: seq<Op>, n: int, numIds: nat, i: int)
    requires 0 <= n <= |ops|
    ensures i in Replay(ops[..n], numIds).0.live <==> Held(ops, n, i)
    ensures i in Replay(ops[..n], numIds).0.freed <==> Gone(ops, n, i)
  {
    hide Held, Gone;
    if n == 0 {
      NoneHeld(ops, i);
    } else {
      IdsAre(ops, n - 1, numIds, i);
      IdsAre(ops, n - 1, numIds, ops[n - 1].index);
      ReplayStep(ops, numIds, n - 1);
      HeldStep(ops, n - 1, i);
      GoneStep(ops, n - 1, i);
    }
  }

  lemma NoneHeld(ops: seq<Op>, i: int)
    ensures !Held(ops, 0, i) && !Gone(ops, 0, i)
  {
  }

  /** What the driver records for an id is the size it was last allocated or reallocated with. */
  lemma {:induction false} SizeIs(ops: seq<Op>, n: int, numIds: nat, m: int)
    requires 0 <= m < n <= |ops| && !ops[m].Free? && 0 <= ops[m].index < numIds
    requires forall k :: m < k < n ==> ops[k].Free? || ops[k].index != ops[m].index
    ensures Replay(ops[..n], numIds).1[ops[m].index] == ops[m].size
  {
    ReplayStep(ops, numIds, n - 1);
    if m < n - 1 {
      SizeIs(ops, n - 1, numIds, m);
    }
  }

  /** Operation `n` may follow those before it: an id that is allocated is not allocated again, and one that was freed
      is neither reallocated nor freed.  A size can be rounded up within 64 bits. */
  ghost predicate Follows(ops: seq<Op>, n: int, numIds: int)
    requires 0 <= n < |ops|
  {
    match ops[n]
    case Alloc(i, size) => 0 <= i < numIds && !Held(ops, n, i) && 0 <= size <= 18446744073709551592
    case Realloc(i, size) => 0 <= i < numIds && !Gone(ops, n, i) && 0 <= size <= 18446744073709551592
    case Free(i) => i == -1 || (0 <= i < numIds && !Gone(ops, n, i))
  }

  lemma {:induction false} LegalFrom(ops: seq<Op>, n: int, numIds: nat)
    requires 0 <= n <= |ops|
    ensures LegalTrace(Replay(ops[..n], numIds).0, ops[n..], numIds) <==>
            forall k :: n <= k < |ops| ==> Follows(ops, k, numIds)
    decreases |ops| - n
  {
    hide Held, Gone, Replay;
    if n < |ops| {
      IdsAre(ops, n, numIds, ops[n].index);
      ReplayStep(ops, numIds, n);
      LegalFrom(ops, n + 1, numIds);
      assert ops[n..][1..] == ops[n + 1..];
      assert Legal(Replay(ops[..n], numIds).0, ops[n], numIds) <==> Follows(ops, n, numIds);
    }
  }

  /** The traces for which the results about the driver hold. */
  lemma LegalTraceExact(ops: seq<Op>, numIds: nat)
    ensures LegalTrace(Ids({}, {}), ops, numIds) <==> forall k :: 0 <= k < |ops| ==> Follows(ops, k, numIds)
  {
    LegalFrom(ops, 0, numIds);
    assert ops[0..] == ops;
  }

  /** An operation needs the least multiple of 16 bytes with room for the request and two tags. */
  lemma NeedIs(op: Op)
    requires op.Free? || 0 <= op.size <= 18446744073709551592
    ensures op.Free? || op.size == 0 ==> Need(op) == 0
    ensures !op.Free? && op.size > 0 ==> Need(op) % 4 == 0 && op.size + 8 <= 4 * Need(op) < op.size + 24
  {
    if !op.Free? && op.size > 0 {
      var words := NormalizedWords(op.size);
    }
  }

  lemma {:induction false} TotalNeedIs(ops: seq<Op>, n: int)
    requires 0 <= n < |ops|
    ensures TotalNeed(ops[..0]) == 0 && TotalNeed(ops[..n + 1]) == TotalNeed(ops[..n]) + Need(ops[n])
    decreases |ops|
  {
    var tail := ops[1..];
    assert ops[..n + 1][0] == ops[0];
    if n > 0 {
      TotalNeedIs(tail, n - 1);
      assert ops[..n + 1][1..] == tail[..n] && ops[..n][1..] == tail[..n - 1];
      assert tail[n - 1] == ops[n];
    } else {
      assert ops[..1][1..] == [];
    }
  }

  // ---------------------------------------------------------------- one run

  const OPS: seq<Op> := [Alloc(0, 100), Alloc(1, 40), Realloc(0, 200), Free(1), Realloc(2, 30), Realloc(0, 0), Free(-1)]

  /** What is live and freed before operation `n`, and the sizes recorded so far. */
  function Before(n: nat): (Ids, seq<int>)
    requires n <= 7
  {
    if n == 0 then (Ids({}, {}), [0, 0, 0])
    else if n == 1 then (Ids({0}, {}), [100, 0, 0])
    else if n == 2 then (Ids({0, 1}, {}), [100, 40, 0])
    else if n == 3 then (Ids({0, 1}, {}), [200, 40, 0])
    else if n == 4 then (Ids({0}, {1}), [200, 40, 0])
    else if n == 5 then (Ids({0, 2}, {1}), [200, 40, 30])
    else (Ids({2}, {1}), [0, 40, 30])
  }

  lemma BeforeStep(n: nat)
    requires n < 7
    ensures After(Before(n).0, OPS[n]) == Before(n + 1).0
    ensures Before(n + 1).1 ==
            if OPS[n].Free? || !(0 <= OPS[n].index < 3) then Before(n).1 else Before(n).1[OPS[n].index := OPS[n].size]
  {
    var next := After(Before(n).0, OPS[n]);
    assert next.live == Before(n + 1).0.live && next.freed == Before(n + 1).0.freed;
  }

  lemma {:induction false} OpsReplayed(n: nat)
    requires n <= 7
    ensures Replay(OPS[..n], 3) == Before(n)
  {
    if n == 0 {
      assert seq(3, i => 0) == [0, 0, 0];
    } else {
      OpsReplayed(n - 1);
      ReplayStep(OPS, 3, n - 1);
      BeforeStep(n - 1);
    }
  }

  lemma {:induction false} OpsLegal(n: nat)
    requires n <= 7
    ensures LegalTrace(Before(n).0, OPS[n..], 3)
    decreases 7 - n
  {
    if n < 7 {
      OpsLegal(n + 1);
      assert OPS[n..][0] == OPS[n] && OPS[n..][1..] == OPS[n + 1..];
      BeforeStep(n);
    }
  }

  lemma OpsRequested(n: nat)
    requires n <= 7
    ensures Requested(OPS[..n], 3) == [0, 100, 140, 240, 200, 230, 30, 30][n]
  {
    OpsReplayed(n);
    var (ids, sizes) := Before(n);
    assert LiveBytes(sizes, ids.live, 0) == 0;
    assert LiveBytes(sizes, ids.live, 3) == LiveBytes(sizes, ids.live, 2) + if 2 in ids.live then sizes[2] else 0;
    assert LiveBytes(sizes, ids.live, 1) == if 0 in ids.live then sizes[0] else 0;
    assert LiveBytes(sizes, ids.live, 2) == LiveBytes(sizes, ids.live, 1) + if 1 in ids.live then sizes[1] else 0;
  }

  lemma {:induction false} NeedUpTo(n: nat)
    requires n <= 7
    ensures TotalNeed(OPS[..n]) <= 56 * n
  {
    if n > 0 {
      NeedUpTo(n - 1);
      TotalNeedIs(OPS, n - 1);
      NeedIs(OPS[n - 1]);
    }
  }

  lemma OpsNeed()
    ensures FIRST + TotalNeed(OPS) <= MAX_WORDS
  {
    NeedUpTo(7);
    assert OPS[..7] == OPS;
  }

  lemma OpsHighWater(used: int)
    requires HighWater(OPS, 7, 3, used)
    ensures used == 240
  {
    hide Requested;
    forall n: nat | n <= 7
      ensures Requested(OPS[..n], 3) <= 240 && Requested(OPS[..3], 3) == 240
    {
      OpsRequested(n);
      OpsRequested(3);
    }
  }

  /** On this trace the driver finds nothing wrong. */
  method RunValid(data: seq<Byte>) returns (valid: bool, errors: int)
    requires |data| == 65536
    ensures valid && errors == 0
  {
    hide LegalTrace, TotalNeed, Replay, Heap.Valid, Checker.Base, Checker.Inv;
    OpsLegal(0);
    OpsNeed();
    assert OPS[0..] == OPS && OPS[..7] == OPS;
    var heap := new Heap();
    var checker := new Checker(heap, 0, data, DbgExpensive, false, 3);
    var alive, at;
    valid, alive, at := checker.EvalMmValid(OPS, [7, 0, 65535, 1, 2, 3, 4]);
    errors := checker.errors;
  }

  /** The most that is requested at a time are 240 bytes. */
  method RunUtil(data: seq<Byte>) returns (ok: bool, used: int, total: int)
    requires |data| == 65536
    ensures ok && used == 240 && 240 <= total
  {
    hide LegalTrace, TotalNeed, Replay, HighWater, Heap.Valid, Checker.Base, Checker.Inv;
    OpsLegal(0);
    OpsNeed();
    assert OPS[0..] == OPS;
    var heap := new Heap();
    var checker := new Checker(heap, 0, data, DbgNone, true, 3);
    var alive, at;
    used, total, ok, alive, at := checker.EvalMmUtil(OPS);
    OpsHighWater(used);
  }
}
