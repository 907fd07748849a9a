/** A run of the contract allocator in which growing a block traps
    (libraries/eosiolib/simple_malloc.cpp). */
module ReallocTrap {
  import opened Memory
  import opened BigMemory
  import opened Words
  import opened SimpleMalloc

  const BASE := 0x1_0040

  /** Freeing enabled, a block of 64 KiB and one of 64 bytes: when the first is free, the
      second cannot grow to the first's size. */
  method GrowthTraps() returns (r: Outcome)
    ensures r == Trapped
  {
    var m := new DsMalloc(seq(MEMORY, i => 0), BASE, 2);
    m.EnableFree(true);
    var p := TwoBlocks(m);
    r := GrowSecond(m, p);
  }

  method GrowSecond(m: DsMalloc, p: nat) returns (r: Outcome)
    requires m.Valid() && m.nextPage == 3 && p == 0x2_0050 && p - META in m.live && m.live[p - META] == 64
    requires FromList(m.Snapshot(), 10)
    modifies m`mem, m`live, m`free, m`lists, m`lastPtr, m`nextPage, m.freeLists, m.big.chunks
    ensures r == Trapped
  {
    ghost var total, mid, dropped;
    r, total, mid, dropped := m.Realloc(p, 0xFFF0, true);
    ClassTen(10, PAGE);
  }

  lemma ClassTen(id: int, total: nat)
    ensures Classified(Request(0xFFF0), id, total) <==> id == 10 && total == PAGE
  {
    assert Request(0xFFF0) == PAGE == SIZES[10];
    assert SIZES[9] < PAGE;
  }

  lemma ClassZero(id: int, total: nat)
    ensures Classified(Request(48), id, total) <==> id == 0 && total == 64
  {
    assert Request(48) == 64 == SIZES[0];
  }

  /** The first block is freed again; the second is at the end of the heap. */
  method TwoBlocks(m: DsMalloc) returns (p: nat)
    requires m.Valid() && m.freeEnabled && m.live == map[] && m.lists == seq(CLASSES, i => [])
    requires m.lastPtr == BASE && m.nextPage == 2
    modifies m`mem, m`live, m`free, m`lists, m`lastPtr, m`nextPage, m.freeLists, m.big.chunks
    ensures m.Valid() && m.nextPage == 3 && p == 0x2_0050 && p - META in m.live && m.live[p - META] == 64
    ensures FromList(m.Snapshot(), 10)
  {
    var first := LargeBlock(m);
    p := SmallBlock(m);
    FreeFirst(m, first);
  }

  method LargeBlock(m: DsMalloc) returns (p: nat)
    requires m.Valid() && m.live == map[] && m.lists == seq(CLASSES, i => []) && m.lastPtr == BASE && m.nextPage == 2
    modifies m`mem, m`live, m`free, m`lists, m`lastPtr, m`nextPage, m.freeLists, m.big.chunks
    ensures m.Valid() && m.lastPtr == BASE + PAGE && m.nextPage == 3 && m.lists == old(m.lists)
    ensures p == BASE + META && m.live == map[BASE := PAGE] && Tagged(m.mem, BASE, 10)
  {
    ClassTen(10, PAGE);
    p := TakeLast(m, 0xFFF0, 10, PAGE, 1);
  }

  method SmallBlock(m: DsMalloc) returns (p: nat)
    requires m.Valid() && m.lists == seq(CLASSES, i => []) && m.nextPage == 3
    requires m.lastPtr % 16 == 0 && m.lastPtr + 64 < 3 * PAGE
    requires BASE in m.live && m.live[BASE] == PAGE && Tagged(m.mem, BASE, 10) && BASE < m.lastPtr
    modifies m`mem, m`live, m`free, m`lists, m`lastPtr, m`nextPage, m.freeLists, m.big.chunks
    ensures m.Valid() && m.lastPtr == old(m.lastPtr) + 64 && m.nextPage == 3 && m.lists == old(m.lists)
    ensures p == old(m.lastPtr) + META && m.live == old(m.live)[old(m.lastPtr) := 64] && Tagged(m.mem, BASE, 10)
  {
    ghost var m0, live0 := m.mem, m.live;
    SmallStep(m.lastPtr);
    ClassZero(0, 64);
    p := TakeLast(m, 48, 0, 64, 0);
    TagKept(m0, m.mem, live0, BASE, 10);
  }

  lemma SmallStep(last: nat)
    requires last % 16 == 0 && last + 64 < 3 * PAGE
    ensures Align(last + 64) == last + 64 && PagesFor(last, 3, 64) == 0
  {
    RaisedFits(last, 64);
  }

  /** A request for which there is no free block, but a page. */
  method TakeLast(m: DsMalloc, size: u32, ghost id: nat, ghost total: nat, ghost pages: nat)
      returns (p: nat)
    requires m.Valid() && size > 0 && Classified(Request(size), id, total) && id < CLASSES && m.lists[id] == []
    requires PagesFor(m.lastPtr, m.nextPage, total) == pages && m.nextPage + pages <= MAX_PAGES
    modifies m`mem, m`live, m`free, m`lists, m`lastPtr, m`nextPage, m.freeLists, m.big.chunks
    ensures m.Valid() && BytesKept(old(m.mem), m.mem, old(m.live)) && m.lists == old(m.lists)
    ensures p == old(m.lastPtr) + META && Tagged(m.mem, p - META, id) && m.live == old(m.live)[p - META := total]
    ensures m.lastPtr == Align(old(m.lastPtr) + total)
    ensures m.nextPage == old(m.nextPage) + pages
  {
    ghost var id', total', slot;
    ghost var h := m.Snapshot();
    ListHead(h, id);
    var r;
    r, id', total', slot := m.Malloc(size, true);
    OneClass(Request(size), id, total, id', total');
    assert Advanced(h, old(m.nextPage), true, id, total, slot, PoolsOf(m.Snapshot()), m.lastPtr, m.nextPage);
    p := r.ptr;
  }

  method FreeFirst(m: DsMalloc, p: nat)
    requires m.Valid() && m.freeEnabled && p >= META && p - META in m.live && Tagged(m.mem, p - META, 10)
    modifies m`mem, m`live, m`free, m`lists, m.freeLists, m.big.chunks
    ensures m.Valid() && m.live == old(m.live) - {p - META} && FromList(m.Snapshot(), 10)
  {
    ghost var h := m.Snapshot();
    Within(h, p - META);
    ghost var dropped := m.Free(p);
    ListHead(m.Snapshot(), 10);
  }

  lemma ListHead(h: Heap, id: nat)
    requires Inv(h) && id < CLASSES
    ensures |h.lists| == CLASSES && (FromList(h, id) <==> h.lists[id] != [])
  {
    assert Chain(h.mem, h.heads[id], h.lists[id]) && Members(h.lists[id], h.free, id);
  }

  lemma TagKept(m: seq<byte>, m': seq<byte>, live: map<nat, nat>, a: nat, id: int)
    requires BytesKept(m, m', live) && a in live && live[a] >= 4 && Tagged(m, a, id)
    ensures Tagged(m', a, id)
  {
    assert m'[a] == m[a] && m'[a + 1] == m[a + 1] && m'[a + 2] == m[a + 2] && m'[a + 3] == m[a + 3];
  }
}
