/** A run of the allocator with literal results: where the payloads are and how far the heap has grown. */
module AllocatorRun {
  import opened HeapLayout
  import opened Allocator

  lemma Extent(heap: Heap, p: int)
    requires heap.Valid() && p in heap.Payloads()
    ensures 4 <= p && p + |heap.Payloads()[p]| < heap.memBrk
  {
    PayloadsApart(heap.mem[..], heap.blk, heap.memBrk, p, p);
  }

  lemma Between(heap: Heap, p: int, q: int)
    requires heap.Valid() && p in heap.Payloads() && q in heap.Payloads() && p < q
    ensures p + |heap.Payloads()[p]| < q - 1
  {
    PayloadsApart(heap.mem[..], heap.blk, heap.memBrk, p, q);
  }

  /** No word below the break is unused, so nothing fits. */
  lemma Crowded(heap: Heap, words: int)
    requires heap.Valid() && words > 0
    requires forall lo, hi :: !heap.Vacant(lo, hi)
    ensures !HasFit(heap.blk, words)
  {
    heap.HasFitExact(words);
  }

  lemma InHole(heap: Heap, b: int, words: int)
    requires heap.Valid() && words > 0 && SmallestFit(heap.blk, words, b)
    ensures exists hi :: heap.Vacant(b, hi) && words <= hi - b
  {
    FreeUnused(heap.blk, heap.memBrk, b);
    heap.VacantUnused(b, Next(heap.blk, b));
  }

  lemma InHoleOf(heap: Heap, words: int)
    requires heap.Valid() && words > 0
    ensures forall b :: SmallestFit(heap.blk, words, b) ==> exists hi :: heap.Vacant(b, hi) && words <= hi - b
  {
    hide SmallestFit;
    forall b | SmallestFit(heap.blk, words, b)
      ensures exists hi :: heap.Vacant(b, hi) && words <= hi - b
    {
      InHole(heap, b, words);
    }
  }

  lemma Rounded()
    ensures NormalizeSize(1) == 16 && NormalizeSize(8) == 16 && NormalizeSize(100) == 112
  {
  }

  /** One byte takes 16 and a hundred take 112. */
  method Fill() returns (heap: Heap, p: int, q: int)
    ensures fresh(heap) && fresh(heap.mem) && heap.Valid() && p == 4 && q == 8 && heap.memBrk == 35
    ensures heap.Payloads().Keys == {4, 8} && |heap.Payloads()[4]| == 2 && |heap.Payloads()[8]| == 26
  {
    hide Heap.Valid, HasFit, SmallestFit, Heap.Payloads, NormalizeSize;
    Rounded();
    heap := new Heap();
    var alive;
    Crowded(heap, 4);
    p, alive := heap.Malloc(1);
    Extent(heap, p);
    Crowded(heap, 28);
    q, alive := heap.Malloc(100);
    Extent(heap, q);
    Between(heap, p, q);
  }

  /** Eight bytes go where one byte was freed, and then the heap grows again. */
  method Refill(heap: Heap) returns (r: int, s: int)
    requires heap.Valid() && heap.memBrk == 35 && heap.Payloads().Keys == {8} && |heap.Payloads()[8]| == 26
    modifies heap, heap.mem
    ensures heap.Valid() && heap.memBrk == 39 && r == 4 && s == 36
  {
    hide Heap.Valid, HasFit, SmallestFit, Heap.Payloads, NormalizeSize;
    Rounded();
    var alive;
    heap.HasFitExact(4);
    assert heap.Vacant(3, 7);
    InHoleOf(heap, 4);
    r, alive := heap.Malloc(8);
    Between(heap, r, 8);
    Crowded(heap, 4);
    s, alive := heap.Malloc(1);
  }

  method Run() returns (p: int, q: int, r: int, s: int, brk: int)
    ensures p == 4 && q == 8 && r == 4 && s == 36 && brk == 39
  {
    hide Heap.Valid, Heap.Payloads;
    var heap;
    heap, p, q := Fill();
    heap.Free(p);
    r, s := Refill(heap);
    brk := heap.memBrk;
  }
}
