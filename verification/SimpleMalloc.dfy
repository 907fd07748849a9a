/** The contract allocator (libraries/eosiolib/simple_malloc.cpp and
    libraries/eosiolib/malloc/eosio/small_memory_alloc.hpp): a bump pointer, free
    lists of fifteen size classes threaded through freed memory, and the table of
    big chunks.  One flat memory; pointers and sizes are 4 bytes, as on wasm32. */
module SimpleMalloc {
  import opened Memory
  import opened BigMemory
  import opened Words

  const META := 16
  const PAGE := 0x1_0000
  /** The host grows the linear memory up to 33 MiB. */
  const MAX_PAGES := 528
  const MEMORY := MAX_PAGES * PAGE

  const SIZES: seq<nat> := [
    0x40, 0x80, 0x100, 0x200, 0x400, 0x800, 0x1000, 0x2000, 0x4000, 0x8000,
    0x1_0000, 0x2_0000, 0x4_0000, 0x8_0000, 0x10_0000]
  const CLASSES := 15

  /** -1 as an unsigned word: the tag of a block of no size class. */
  const NO_CLASS: u32 := 0xFFFF_FFFF

  function Align(x: nat): (r: nat)
    ensures x <= r < x + 16 && r % 16 == 0
  {
    (x + 15) / 16 * 16
  }

  // ----- the heap and its invariant

  /** A snapshot of the allocator.  `live` maps the address of an allocated block to
      its size, `free` that of a freed small block to its class; `lists` are the
      free lists, first element first. */
  datatype Heap = Heap(mem: seq<byte>, heads: seq<nat>, chunks: seq<Chunk>, base: nat, last: nat,
                       live: map<nat, nat>, free: map<nat, nat>, lists: seq<seq<nat>>)

  function ClassSize(id: nat): (size: nat)
    ensures size >= 64
  {
    if id < CLASSES then SIZES[id] else 64
  }

  // The invariant, one predicate for each pair of components it relates.

  ghost predicate LiveWithin(live: map<nat, nat>, base: nat, last: nat) {
    forall a :: a in live ==> base <= a && 64 <= live[a] && a + live[a] <= last
  }
  ghost predicate FreeWithin(free: map<nat, nat>, base: nat, last: nat) {
    forall a :: a in free ==> base <= a && free[a] < CLASSES && a + ClassSize(free[a]) <= last
  }
  ghost predicate ChunksWithin(chunks: seq<Chunk>, base: nat, last: nat) {
    forall i :: 0 <= i < |chunks| && chunks[i].capacity > 0 ==>
      base <= chunks[i].ptr && chunks[i].ptr + chunks[i].capacity <= last
  }
  /** The range meets no live block. */
  ghost predicate ApartLive(live: map<nat, nat>, lo: nat, len: nat) {
    forall a :: a in live ==> Apart(lo, len, a, live[a])
  }
  ghost predicate ApartFree(free: map<nat, nat>, lo: nat, len: nat) {
    forall a :: a in free ==> Apart(lo, len, a, ClassSize(free[a]))
  }
  ghost predicate LiveDisjoint(live: map<nat, nat>) {
    forall a, b :: a in live && b in live && a != b ==> Apart(a, live[a], b, live[b])
  }
  ghost predicate FreeDisjoint(free: map<nat, nat>) {
    forall a, b :: a in free && b in free && a != b ==> Apart(a, ClassSize(free[a]), b, ClassSize(free[b]))
  }
  ghost predicate LiveApartFree(live: map<nat, nat>, free: map<nat, nat>) {
    forall a, b :: a in live && b in free ==> Apart(a, live[a], b, ClassSize(free[b]))
  }
  ghost predicate LiveClear(live: map<nat, nat>, chunks: seq<Chunk>) {
    forall a :: a in live ==> Clear(chunks, a, live[a])
  }
  ghost predicate FreeClear(free: map<nat, nat>, chunks: seq<Chunk>) {
    forall a :: a in free ==> Clear(chunks, a, ClassSize(free[a]))
  }

  /** The two header words of a live block. */
  ghost predicate Header(mem: seq<byte>, a: nat, size: nat) {
    && a + 8 <= |mem| && Load32(mem, a + 4) == size
    && (Load32(mem, a) < CLASSES ==> size == ClassSize(Load32(mem, a)))
    && (Load32(mem, a) >= CLASSES ==> Load32(mem, a) == NO_CLASS)
  }
  ghost predicate Headers(mem: seq<byte>, live: map<nat, nat>) {
    forall a :: a in live ==> Header(mem, a, live[a])
  }

  function Next(list: seq<nat>, j: nat): nat { if j + 1 < |list| then list[j + 1] else 0 }

  /** The words stored in the blocks of a free list link them in order to null. */
  ghost predicate Chain(mem: seq<byte>, head: nat, list: seq<nat>) {
    && head == (if list == [] then 0 else list[0])
    && (forall j :: 0 <= j < |list| ==> list[j] + 4 <= |mem| && Load32(mem, list[j]) == Next(list, j))
  }
  ghost predicate Chains(mem: seq<byte>, heads: seq<nat>, lists: seq<seq<nat>>) {
    |heads| == |lists| == CLASSES && forall i :: 0 <= i < CLASSES ==> Chain(mem, heads[i], lists[i])
  }

  /** A free list holds blocks of its class, none twice. */
  ghost predicate Members(list: seq<nat>, free: map<nat, nat>, id: nat) {
    && (forall j :: 0 <= j < |list| ==> list[j] in free && free[list[j]] == id)
    && (forall j, k :: 0 <= j < k < |list| ==> list[j] != list[k])
  }
  ghost predicate AllMembers(lists: seq<seq<nat>>, free: map<nat, nat>) {
    |lists| == CLASSES && forall i :: 0 <= i < CLASSES ==> Members(lists[i], free, i)
  }

  /** Live blocks, free blocks and tracked chunks are pairwise disjoint ranges below
      the bump pointer; headers and free lists in memory say what they should. */
  ghost predicate Inv(h: Heap) {
    && |h.mem| == MEMORY && 0 < h.base <= h.last <= MEMORY
    && LiveWithin(h.live, h.base, h.last) && FreeWithin(h.free, h.base, h.last) &&
      ChunksWithin(h.chunks, h.base, h.last)
    && LiveDisjoint(h.live) && FreeDisjoint(h.free) && LiveApartFree(h.live, h.free)
    && WellFormed(h.chunks) && LiveClear(h.live, h.chunks) && FreeClear(h.free, h.chunks)
    && Headers(h.mem, h.live) && Chains(h.mem, h.heads, h.lists) && AllMembers(h.lists, h.free)
  }

  /** Nothing owned meets the range. */
  ghost predicate Unowned(h: Heap, lo: nat, len: nat) {
    ApartLive(h.live, lo, len) && ApartFree(h.free, lo, len) && Clear(h.chunks, lo, len)
  }

  // ----- writing to memory

  /** The live blocks hold the bytes they held. */
  ghost predicate BytesKept(m: seq<byte>, m': seq<byte>, live: map<nat, nat>) {
    |m| == |m'| && forall a, i :: a in live && a <= i < a + live[a] && i < |m| ==> m'[i] == m[i]
  }

  lemma HeadersKept(m: seq<byte>, m': seq<byte>, live: map<nat, nat>, lo: nat, len: nat)
    requires Headers(m, live) && ApartLive(live, lo, len) && OnlyIn(m, m', lo, lo + len)
    requires forall a :: a in live ==> 64 <= live[a]
    ensures Headers(m', live)
  {
    forall a | a in live
      ensures Header(m', a, live[a])
    {
      assert Header(m, a, live[a]) && Apart(lo, len, a, live[a]);
    }
  }

  lemma LoadKept(m: seq<byte>, m': seq<byte>, a: nat, lo: nat, len: nat)
    requires OnlyIn(m, m', lo, lo + len) && a + 4 <= |m| && (a + 4 <= lo || lo + len <= a)
    ensures Load32(m', a) == Load32(m, a)
  {
    assert m'[a] == m[a] && m'[a + 1] == m[a + 1] && m'[a + 2] == m[a + 2] && m'[a + 3] == m[a + 3];
  }

  lemma ChainKept(m: seq<byte>, m': seq<byte>, head: nat, list: seq<nat>, free: map<nat, nat>, id: nat, lo: nat,
      len: nat)
    requires Chain(m, head, list) && Members(list, free, id) && ApartFree(free, lo, len) && OnlyIn(m, m', lo, lo + len)
    ensures Chain(m', head, list)
  {
    forall j | 0 <= j < |list|
      ensures Load32(m', list[j]) == Load32(m, list[j])
    {
      assert Apart(lo, len, list[j], ClassSize(free[list[j]]));
      LoadKept(m, m', list[j], lo, len);
    }
  }

  lemma ChainsKept(m: seq<byte>, m': seq<byte>, heads: seq<nat>, lists: seq<seq<nat>>, free: map<nat, nat>, lo: nat,
      len: nat)
    requires Chains(m, heads, lists) && AllMembers(lists, free) && ApartFree(free, lo, len) &&
      OnlyIn(m, m', lo, lo + len)
    ensures Chains(m', heads, lists)
  {
    forall i | 0 <= i < CLASSES
      ensures Chain(m', heads[i], lists[i])
    {
      assert Members(lists[i], free, i);
      ChainKept(m, m', heads[i], lists[i], free, i, lo, len);
    }
  }

  /** Nobody notices a write to a range nobody owns. */
  lemma UnownedWrite(h: Heap, m': seq<byte>, lo: nat, len: nat)
    requires Inv(h) && Unowned(h, lo, len) && OnlyIn(h.mem, m', lo, lo + len)
    ensures Inv(h.(mem := m'))
  {
    HeadersKept(h.mem, m', h.live, lo, len);
    ChainsKept(h.mem, m', h.heads, h.lists, h.free, lo, len);
  }

  // ----- ownership changes

  function Headed(mem: seq<byte>, a: nat, tag: u32, size: u32): seq<byte>
    requires a + 8 <= |mem|
  {
    Store32(Store32(mem, a, tag), a + 4, size)
  }

  /** A range nobody owns, with a header in it, becomes a live block. */
  lemma AdoptHeaded(h: Heap, r: nat, size: nat)
    requires Inv(h) && Unowned(h, r, size) && Header(h.mem, r, size)
    requires h.base <= r && 64 <= size && r + size <= h.last
    ensures r !in h.live && Inv(h.(live := h.live[r := size]))
  {
    assert r !in h.live;
  }

  lemma Adopt(h: Heap, r: nat, size: u32, tag: u32)
    requires Inv(h) && Unowned(h, r, size)
    requires h.base <= r && 64 <= size && r + size <= h.last
    requires tag == NO_CLASS || (tag < CLASSES && size == ClassSize(tag))
    ensures r !in h.live && Inv(h.(live := h.live[r := size], mem := Headed(h.mem, r, tag, size)))
  {
    var m' := Headed(h.mem, r, tag, size);
    UnownedWrite(h, m', r, size);
    assert Load32(m', r) == Load32(Store32(h.mem, r, tag), r);
    AdoptHeaded(h.(mem := m'), r, size);
  }

  lemma HeadedKept(mem: seq<byte>, live: map<nat, nat>, a: nat, tag: u32, size: u32)
    requires a + 8 <= |mem| && 64 <= size && ApartLive(live, a, size)
    ensures BytesKept(mem, Headed(mem, a, tag, size), live)
  {
    var m' := Headed(mem, a, tag, size);
    forall b, i | b in live && b <= i < b + live[b] && i < |mem|
      ensures m'[i] == mem[i]
    {
      assert Apart(a, size, b, live[b]);
    }
  }

  /** A live block is given up. */
  lemma Release(h: Heap, a: nat)
    requires Inv(h) && a in h.live
    ensures var h' := h.(live := h.live - {a}); Inv(h') && Unowned(h', a, h.live[a])
  {
  }

  /** The bump pointer moves up over fresh memory. */
  lemma Bump(h: Heap, last: nat)
    requires Inv(h) && h.last <= last <= MEMORY
    ensures var h' := h.(last := last); Inv(h') && Unowned(h', h.last, last - h.last)
  {
  }

  lemma ChainTail(mem: seq<byte>, head: nat, list: seq<nat>)
    requires Chain(mem, head, list) && list != []
    ensures list[0] + 4 <= |mem| && Chain(mem, Load32(mem, list[0]), list[1..])
  {
    var rest := list[1..];
    forall j | 0 <= j < |rest|
      ensures rest[j] + 4 <= |mem| && Load32(mem, rest[j]) == Next(rest, j)
    {
      assert rest[j] == list[j + 1] && Next(rest, j) == Next(list, j + 1);
    }
    assert Load32(mem, list[0]) == Next(list, 0);
  }

  lemma MembersTail(lists: seq<seq<nat>>, free: map<nat, nat>, id: nat)
    requires AllMembers(lists, free) && id < CLASSES && lists[id] != []
    ensures AllMembers(lists[id := lists[id][1..]], free - {lists[id][0]})
  {
    var a, lists', free' := lists[id][0], lists[id := lists[id][1..]], free - {lists[id][0]};
    assert Members(lists[id], free, id);
    forall i | 0 <= i < CLASSES
      ensures Members(lists'[i], free', i)
    {
      assert Members(lists[i], free, i);
      if i == id {
        var list, rest := lists[id], lists[id][1..];
        assert forall j :: 0 <= j < |rest| ==> rest[j] == list[j + 1];
      } else {
        forall j | 0 <= j < |lists[i]|
          ensures lists[i][j] != a
        {
        }
      }
    }
  }

  /** Without the first block of a free list. */
  ghost function Unlinked(h: Heap, id: nat): Heap
    requires id < |h.heads| && h.heads[id] + 4 <= |h.mem| && id < |h.lists| && h.lists[id] != []
  {
    var a := h.heads[id];
    h.(heads := h.heads[id := Load32(h.mem, a)], lists := h.lists[id := h.lists[id][1..]], free := h.free - {a})
  }

  /** The first block of a free list is unlinked. */
  lemma Unlink(h: Heap, id: nat)
    requires Inv(h) && id < CLASSES && h.heads[id] != 0
    ensures var a := h.heads[id];
      && h.lists[id] != [] && a == h.lists[id][0] && a in h.free && a + 4 <= |h.mem|
      && h.base <= a && a + ClassSize(id) <= h.last
      && Inv(Unlinked(h, id)) && Unowned(Unlinked(h, id), a, ClassSize(id)) && h.lists[id] == [a] + h.lists[id][1..]
  {
    var a := h.heads[id];
    assert Chain(h.mem, a, h.lists[id]) && Members(h.lists[id], h.free, id);
    assert a == h.lists[id][0] && a in h.free && h.free[a] == id;
    ChainTail(h.mem, a, h.lists[id]);
    MembersTail(h.lists, h.free, id);
  }

  lemma ChainCons(mem: seq<byte>, head: nat, list: seq<nat>, a: nat)
    requires Chain(mem, head, list) && a + 4 <= |mem| && Load32(mem, a) == head
    ensures Chain(mem, a, [a] + list)
  {
    var more := [a] + list;
    forall j | 0 <= j < |more|
      ensures more[j] + 4 <= |mem| && Load32(mem, more[j]) == Next(more, j)
    {
      if j > 0 { assert more[j] == list[j - 1] && Next(more, j) == Next(list, j - 1); }
    }
  }

  lemma ChainsSet(mem: seq<byte>, heads: seq<nat>, lists: seq<seq<nat>>, id: nat, head: nat, list: seq<nat>)
    requires Chains(mem, heads, lists) && id < CLASSES && Chain(mem, head, list)
    ensures Chains(mem, heads[id := head], lists[id := list])
  {
  }

  lemma MembersCons(lists: seq<seq<nat>>, free: map<nat, nat>, id: nat, a: nat)
    requires AllMembers(lists, free) && id < CLASSES && a !in free
    ensures AllMembers(lists[id := [a] + lists[id]], free[a := id])
  {
    var lists', free' := lists[id := [a] + lists[id]], free[a := id];
    forall i | 0 <= i < CLASSES
      ensures Members(lists'[i], free', i)
    {
      assert Members(lists[i], free, i);
      if i == id {
        var list, more := lists[id], [a] + lists[id];
        assert forall j :: 0 < j < |more| ==> more[j] == list[j - 1];
      }
    }
  }

  /** The blocks stay disjoint when a range apart from all of them joins. */
  lemma FreeJoined(live: map<nat, nat>, free: map<nat, nat>, chunks: seq<Chunk>, a: nat, id: nat)
    requires FreeDisjoint(free) && LiveApartFree(live, free) && FreeClear(free, chunks)
    requires ApartFree(free, a, ClassSize(id)) && ApartLive(live, a, ClassSize(id)) && Clear(chunks, a, ClassSize(id))
    ensures FreeDisjoint(free[a := id]) && LiveApartFree(live, free[a := id]) && FreeClear(free[a := id], chunks)
  {
  }

  /** A range nobody owns, of the right size and linked to it, goes to the front of a
      free list. */
  lemma LinkStored(h: Heap, a: nat, id: nat)
    requires Inv(h) && id < CLASSES && Unowned(h, a, ClassSize(id))
    requires h.base <= a && a + ClassSize(id) <= h.last && Load32(h.mem, a) == h.heads[id]
    ensures Inv(h.(heads := h.heads[id := a], lists := h.lists[id := [a] + h.lists[id]], free := h.free[a := id]))
  {
    assert a !in h.free;
    assert Chain(h.mem, h.heads[id], h.lists[id]);
    ChainCons(h.mem, h.heads[id], h.lists[id], a);
    ChainsSet(h.mem, h.heads, h.lists, id, a, [a] + h.lists[id]);
    MembersCons(h.lists, h.free, id, a);
    FreeJoined(h.live, h.free, h.chunks, a, id);
  }

  lemma Link(h: Heap, a: nat, id: nat)
    requires Inv(h) && id < CLASSES && Unowned(h, a, ClassSize(id))
    requires h.base <= a && a + ClassSize(id) <= h.last && h.heads[id] < B32
    ensures Inv(h.(heads := h.heads[id := a], lists := h.lists[id := [a] + h.lists[id]], free := h.free[a := id],
                   mem := Store32(h.mem, a, h.heads[id])))
  {
    var m' := Store32(h.mem, a, h.heads[id]);
    UnownedWrite(h, m', a, ClassSize(id));
    LinkStored(h.(mem := m'), a, id);
  }

  lemma CutChunk(s: seq<Chunk>, i: nat, size: nat)
    requires WellFormed(s) && i < |s| && s[i].ptr != 0 && 0 < size <= s[i].capacity
    ensures var s' := s[i := Chunk(s[i].ptr + size, s[i].capacity - size)];
      && WellFormed(s') && Clear(s', s[i].ptr, size)
      && forall lo: nat, len: nat :: Clear(s, lo, len) ==> Clear(s', lo, len) && Apart(s[i].ptr, size, lo, len)
  {
  }

  /** The front of a chunk is cut off. */
  lemma Cut(h: Heap, i: nat, size: nat)
    requires Inv(h) && i < |h.chunks| && h.chunks[i].ptr != 0 && 0 < size <= h.chunks[i].capacity
    ensures var ptr := h.chunks[i].ptr; var h' := h.(chunks := CutAt(h.chunks, i, size));
      Inv(h') && Unowned(h', ptr, size) && h.base <= ptr && ptr + size <= h.last
  {
    CutChunk(h.chunks, i, size);
    ApartFromChunks(h, h.chunks[i].ptr, size);
  }

  /** The owned blocks are clear of the chunks, so a range that is apart from whatever is
      clear of them is apart from the blocks. */
  lemma ApartFromChunks(h: Heap, ptr: nat, size: nat)
    requires LiveClear(h.live, h.chunks) && FreeClear(h.free, h.chunks)
    requires forall lo: nat, len: nat :: Clear(h.chunks, lo, len) ==> Apart(ptr, size, lo, len)
    ensures ApartLive(h.live, ptr, size) && ApartFree(h.free, ptr, size)
  {
  }

  /** A range nobody owns is filed in the table of chunks. */
  lemma File(h: Heap, a: nat, size: nat, chunks': seq<Chunk>, dropped: nat)
    requires Inv(h) && Unowned(h, a, size) && Filed(h.chunks, chunks', a, size, dropped)
    requires h.base <= a && 0 < size && a + size <= h.last
    ensures Inv(h.(chunks := chunks'))
  {
    FiledWithin(h, a, size, chunks', dropped);
    forall b | b in h.live
      ensures Clear(chunks', b, h.live[b])
    {
      assert Apart(b, h.live[b], a, size) && Clear(h.chunks, b, h.live[b]);
    }
    forall b | b in h.free
      ensures Clear(chunks', b, ClassSize(h.free[b]))
    {
      assert Apart(b, ClassSize(h.free[b]), a, size) && Clear(h.chunks, b, ClassSize(h.free[b]));
    }
  }

  lemma FiledWithin(h: Heap, a: nat, size: nat, chunks': seq<Chunk>, dropped: nat)
    requires ChunksWithin(h.chunks, h.base, h.last) && Filed(h.chunks, chunks', a, size, dropped)
    requires 0 < h.base <= a && a + size <= h.last
    ensures ChunksWithin(chunks', h.base, h.last)
  {
    forall i | 0 <= i < |chunks'| && chunks'[i].capacity > 0
      ensures h.base <= chunks'[i].ptr && chunks'[i].ptr + chunks'[i].capacity <= h.last
    {
      assert Clear(h.chunks, 0, h.base) && Apart(0, h.base, a, size);
      assert Clear(chunks', 0, h.base);
      var beyond := chunks'[i].ptr + 1;
      assert Clear(h.chunks, h.last, beyond) && Apart(h.last, beyond, a, size);
      assert Clear(chunks', h.last, beyond);
    }
  }

  /** The program writes inside a block it holds. */
  lemma LiveWrite(h: Heap, m': seq<byte>, a: nat)
    requires Inv(h) && a in h.live && OnlyIn(h.mem, m', a + META, a + h.live[a])
    ensures Inv(h.(mem := m'))
  {
    forall b | b in h.live
      ensures Header(m', b, h.live[b])
    {
      assert Header(h.mem, b, h.live[b]);
      assert b != a ==> Apart(b, h.live[b], a, h.live[a]);
      LoadKept(h.mem, m', b, a + META, h.live[a] - META);
      LoadKept(h.mem, m', b + 4, a + META, h.live[a] - META);
    }
    ChainsKept(h.mem, m', h.heads, h.lists, h.free, a + META, h.live[a] - META);
  }

  // ----- sizes

  /** `sz` is the class size a request is rounded up to; larger requests keep their size. */
  ghost predicate Classified(sz: nat, id: int, total: nat) {
    if sz > 0x10_0000 then id == -1 && total == sz
    else 0 <= id < CLASSES && sz <= total == SIZES[id] && (forall j :: 0 <= j < id ==> SIZES[j] < sz)
  }

  method FindSmallMemSize(sz: nat) returns (id: int, total: nat)
    ensures Classified(sz, id, total)
  {
    for i := 0 to CLASSES
      invariant forall j :: 0 <= j < i ==> SIZES[j] < sz
    {
      if sz <= SIZES[i] {
        return i, SIZES[i];
      }
    }
    assert SIZES[14] < sz;
    return -1, sz;
  }

  /** The request with its header, rounded up to 16, in 32-bit words. */
  function Request(size: u32): (sz: nat)
    ensures sz < B32 && sz % 16 == 0
    ensures size + META <= sz <==> size < B32 - 31
    ensures size < B32 - 31 ==> sz == Align(size + META)
  {
    ((size + META) % B32 + 15) % B32 / 16 * 16
  }

  /** The bump pointer and the page count asked for, in 32-bit words. */
  function Raised(last: nat, sz: nat): nat {
    ((last + sz) % B32 + 15) % B32 / 16 * 16
  }
  function PagesFor(last: nat, nextPage: nat, sz: nat): nat {
    var pages := sz / PAGE;
    if (nextPage + pages) * PAGE % B32 <= Raised(last, sz) then pages + 1 else pages
  }

  lemma RaisedFits(last: nat, sz: nat)
    requires last + sz + 15 < B32
    ensures Raised(last, sz) == Align(last + sz)
  {
    ModSmall(last + sz, B32);
    ModSmall(last + sz + 15, B32);
  }

  lemma AlignFits(x: nat, pages: nat)
    requires x <= pages * PAGE
    ensures Align(x) <= pages * PAGE
  {
    AlignBelow(x, pages * 0x1000);
  }

  lemma AlignBelow(x: nat, k: nat)
    requires x <= k * 16
    ensures Align(x) <= k * 16
  {
    var q := (x + 15) / 16;
    assert q * 16 <= k * 16 + 15;
  }

  /** When the host grants the pages the new block lies inside them, and 32 bits did
      not wrap; a page beyond those the request fills is taken only if it is needed. */
  lemma GrowthFits(last: nat, nextPage: nat, sz: nat)
    requires last <= nextPage * PAGE && sz < B32
    requires nextPage + PagesFor(last, nextPage, sz) <= MAX_PAGES
    ensures Raised(last, sz) == Align(last + sz) <= (nextPage + PagesFor(last, nextPage, sz)) * PAGE
    ensures sz / PAGE <= PagesFor(last, nextPage, sz) <= sz / PAGE + 1
    ensures PagesFor(last, nextPage, sz) > sz / PAGE ==> (nextPage + sz / PAGE) * PAGE <= Raised(last, sz)
  {
    var pages := sz / PAGE;
    assert sz <= pages * PAGE + PAGE - 1;
    assert last + sz + 1 <= (nextPage + pages + 1) * PAGE;
    RaisedFits(last, sz);
    ModSmall((nextPage + pages) * PAGE, B32);
    AlignFits(last + sz, nextPage + pages + 1);
  }

  /** The heap with its bump pointer raised over a new block. */
  lemma Extended(h: Heap, nextPage: nat, sz: nat)
    requires Inv(h) && h.last <= nextPage * PAGE && sz < B32
    requires nextPage + PagesFor(h.last, nextPage, sz) <= MAX_PAGES
    ensures var h' := h.(last := Raised(h.last, sz)); Inv(h') && Unowned(h', h.last, sz)
    ensures Raised(h.last, sz) == Align(h.last + sz) <= (nextPage + PagesFor(h.last, nextPage, sz)) * PAGE <= MEMORY
  {
    GrowthFits(h.last, nextPage, sz);
    var last := Raised(h.last, sz);
    Bump(h, last);
    UnownedPart(h.(last := last), h.last, last - h.last, sz);
  }

  // ----- the allocator

  /** An address, null being 0; or the contract stopped, because no page and no chunk
      was left, or because memory past the last page was read. */
  datatype Outcome = Done(ptr: nat) | Aborted | Trapped

  class DsMalloc {
    var mem: seq<byte>
    const heapBase: nat
    const freeLists: array<nat>
    const big: BigMemAlloc
    var lastPtr: nat
    var nextPage: nat
    var freeEnabled: bool
    ghost var live: map<nat, nat>
    ghost var free: map<nat, nat>
    ghost var lists: seq<seq<nat>>

    ghost function Snapshot(): Heap
      reads this, freeLists, big, big.chunks
    {
      Heap(mem, freeLists[..], big.chunks[..], heapBase, lastPtr, live, free, lists)
    }

    ghost predicate Valid()
      reads this, freeLists, big, big.chunks
    {
      Inv(Snapshot()) && lastPtr <= nextPage * PAGE <= MEMORY
    }

    constructor (memory: seq<byte>, base: nat, pages: nat)
      requires |memory| == MEMORY && 0 < base <= pages * PAGE <= MEMORY
      ensures Valid() && fresh(freeLists) && fresh(big) && fresh(big.chunks)
      ensures mem == memory && heapBase == lastPtr == base && nextPage == pages && !freeEnabled
      ensures live == map[] && lists == seq(CLASSES, i => [])
    {
      mem, heapBase, lastPtr, nextPage, freeEnabled := memory, base, base, pages, false;
      freeLists := new nat[CLASSES](i => 0);
      big := new BigMemAlloc();
      live, free, lists := map[], map[], seq(CLASSES, i => []);
    }

    method EnableFree(enable: bool)
      requires Valid()
      modifies this`freeEnabled
      ensures Valid() && freeEnabled == enable
    {
      freeEnabled := enable;
    }

    /** The header words of a block nobody owns are written and it is handed out. */
    method HandOut(a: nat, id: int, total: u32)
      requires Valid() && Unowned(Snapshot(), a, total)
      requires heapBase <= a && 64 <= total && a + total <= lastPtr
      requires id == -1 || (0 <= id < CLASSES && total == ClassSize(id))
      modifies this`mem, this`live
      ensures Valid() && a !in old(live) && live == old(live)[a := total] && ApartLive(old(live), a, total)
      ensures BytesKept(old(mem), mem, old(live)) && Tagged(mem, a, id)
    {
      var tag: u32 := if id == -1 then NO_CLASS else id;
      ghost var h := Snapshot();
      Adopt(h, a, total, tag);
      HeadedKept(mem, live, a, tag, total);
      mem := Headed(mem, a, tag, total);
      live := live[a := total];
      assert Snapshot() == h.(live := h.live[a := total], mem := Headed(h.mem, a, tag, total));
    }

    method AllocateFromFreeList(id: nat, total: u32) returns (a: nat)
      requires Valid() && id < CLASSES && total == ClassSize(id) && freeLists[id] != 0
      modifies this`mem, this`live, this`free, this`lists, freeLists
      ensures Valid() && a == old(freeLists[id]) && a !in old(live) && live == old(live)[a := total] &&
        ApartLive(old(live), a, total)
      ensures free == old(free) - {a} && old(lists[id]) == [a] + lists[id] && lists == old(lists)[id := lists[id]]
      ensures BytesKept(old(mem), mem, old(live)) && Tagged(mem, a, id)
    {
      a := Pop(id);
      HandOut(a, id, total);
    }

    /** The first block of a free list is nobody's. */
    method Pop(id: nat) returns (a: nat)
      requires Valid() && id < CLASSES && freeLists[id] != 0
      modifies this`free, this`lists, freeLists
      ensures Valid() && a == old(freeLists[id]) && Unowned(Snapshot(), a, ClassSize(id))
      ensures heapBase <= a && a + ClassSize(id) <= lastPtr
      ensures free == old(free) - {a} && old(lists[id]) == [a] + lists[id] && lists == old(lists)[id := lists[id]]
    {
      ghost var h := Snapshot();
      Unlink(h, id);
      a := freeLists[id];
      freeLists[id] := Load32(mem, a);
      free, lists := free - {a}, lists[id := lists[id][1..]];
      assert freeLists[..] == h.heads[id := Load32(h.mem, a)];
      assert Snapshot() == Unlinked(h, id);
    }

    /** Raise the bump pointer, with more pages if the host grants them. */
    method Extend(sz: u32, granted: bool) returns (ok: bool)
      requires Valid()
      modifies this`lastPtr, this`nextPage
      ensures Valid()
      ensures ok == (granted && old(nextPage) + PagesFor(old(lastPtr), old(nextPage), sz) <= MAX_PAGES)
      ensures ok ==>
        lastPtr == Align(old(lastPtr) + sz) && nextPage == old(nextPage) + PagesFor(old(lastPtr), old(nextPage), sz)
      ensures ok ==> Unowned(Snapshot(), old(lastPtr), sz)
      ensures !ok ==> lastPtr == old(lastPtr) && nextPage == old(nextPage)
    {
      ghost var h := Snapshot();
      var oldLastPtr, oldNextPage := lastPtr, nextPage;
      var pages;
      lastPtr, nextPage, pages := RaisedPointers(lastPtr, nextPage, sz);
      ok := granted && oldNextPage + pages <= MAX_PAGES;
      if !ok {
        lastPtr, nextPage := oldLastPtr, oldNextPage;
        assert Snapshot() == h;
      } else {
        Extended(h, oldNextPage, sz);
        assert Snapshot() == h.(last := lastPtr);
      }
    }

    /** The bump pointer and page count with a block of sz bytes. */
    static method RaisedPointers(last: nat, next: nat, sz: u32) returns (last': nat, next': nat, pages: nat)
      ensures last' == Raised(last, sz) && pages == PagesFor(last, next, sz) && next' == next + pages
    {
      last', pages := Raised(last, sz), sz / PAGE;
      next' := next + pages;
      if next' * PAGE % B32 <= last' {
        next', pages := next' + 1, pages + 1;
      }
    }

    /** A request is cut from the first chunk that is large enough. */
    method CutFromChunks(total: nat) returns (a: nat, ghost slot: nat)
      requires Valid() && total > 0
      modifies big.chunks
      ensures Valid() && FirstFit(old(big.chunks[..]), total, slot)
      ensures slot <= MAX_ITEMS && big.chunks[..] == CutAt(old(big.chunks[..]), slot, total)
      ensures slot == MAX_ITEMS ==> a == 0
      ensures slot < MAX_ITEMS ==>
        && a == old(big.chunks[slot]).ptr != 0 && Total(big.chunks[..]) + total == old(Total(big.chunks[..]))
        && Unowned(Snapshot(), a, total) && heapBase <= a && a + total <= lastPtr
    {
      ghost var h := Snapshot();
      var i: nat;
      a, i := big.AllocFromBigChunk(total);
      slot := i;
      if i < MAX_ITEMS {
        Cut(h, i, total);
        assert Snapshot() == h.(chunks := CutAt(h.chunks, i, total));
      } else {
        assert Snapshot() == h;
      }
    }

    /** Room for a block: at the end of the heap if the host grants the pages, else in
        a chunk, else none (null). */
    method Reserve(total: u32, granted: bool) returns (a: nat, ghost slot: nat)
      requires Valid() && 64 <= total
      modifies this`lastPtr, this`nextPage, big.chunks
      ensures Valid() && PlacedFresh(old(Snapshot()), old(nextPage), granted, total, slot, a)
      ensures EndsAt(old(lastPtr), old(nextPage), granted, total, lastPtr, nextPage)
      ensures big.chunks[..] == ChunksAfter(old(Snapshot()), old(nextPage), granted, total, slot)
      ensures a != 0 ==> Unowned(Snapshot(), a, total) && heapBase <= a && a + total <= lastPtr
    {
      a, slot := lastPtr, MAX_ITEMS;
      var ok := Extend(total, granted);
      if !ok {
        a, slot := CutFromChunks(total);
      }
    }

    /** Memory for a request that no free list serves. */
    method Fresh(id: int, total: u32, granted: bool) returns (r: Outcome, ghost slot: nat)
      requires Valid() && 64 <= total && (id == -1 || (0 <= id < CLASSES && total == ClassSize(id)))
      modifies this`mem, this`live, this`lastPtr, this`nextPage, big.chunks
      ensures Valid() && BytesKept(old(mem), mem, old(live))
      ensures PlacedFresh(old(Snapshot()), old(nextPage), granted, total, slot, Address(r))
      ensures EndsAt(old(lastPtr), old(nextPage), granted, total, lastPtr, nextPage)
      ensures big.chunks[..] == ChunksAfter(old(Snapshot()), old(nextPage), granted, total, slot)
      ensures Served(old(live), live, r, total) && (r.Done? ==> Tagged(mem, Address(r), id))
    {
      var a;
      a, slot := Reserve(total, granted);
      if a == 0 {
        return Aborted, slot;
      }
      HandOut(a, id, total);
      r := Done(a + META);
    }

    method Malloc(size: u32, granted: bool) returns (r: Outcome, ghost id: int, ghost total: nat, ghost slot: nat)
      requires Valid()
      modifies this`mem, this`live, this`free, this`lists, this`lastPtr, this`nextPage, freeLists, big.chunks
      ensures Valid() && BytesKept(old(mem), mem, old(live))
      ensures size == 0 ==> r == Done(0) && Snapshot() == old(Snapshot()) && nextPage == old(nextPage)
      ensures size > 0 ==>
        && Classified(Request(size), id, total) && (size + META <= total <==> size < B32 - 31)
        && Placed(old(Snapshot()), old(nextPage), granted, id, total, slot, Address(r))
        && Served(old(live), live, r, total) && (r.Done? ==> Tagged(mem, Address(r), id))
        && Advanced(old(Snapshot()), old(nextPage), granted, id, total, slot, PoolsOf(Snapshot()), lastPtr, nextPage)
    {
      if size == 0 {
        return Done(0), 0, 0, 0;
      }
      var cls: int, sz: nat := FindSmallMemSize(Request(size));
      id, total := cls, sz;
      RequestFits(size, id, total);
      r, slot := Provide(cls, sz, granted);
    }

    /** A block of a class, or of a size above all classes: a free one, or fresh memory. */
    method Provide(id: int, total: u32, granted: bool) returns (r: Outcome, ghost slot: nat)
      requires Valid() && 64 <= total && (id == -1 || (0 <= id < CLASSES && total == ClassSize(id)))
      modifies this`mem, this`live, this`free, this`lists, this`lastPtr, this`nextPage, freeLists, big.chunks
      ensures Valid() && BytesKept(old(mem), mem, old(live))
      ensures Placed(old(Snapshot()), old(nextPage), granted, id, total, slot, Address(r))
      ensures Served(old(live), live, r, total) && (r.Done? ==> Tagged(mem, Address(r), id))
      ensures
        Advanced(old(Snapshot()), old(nextPage), granted, id, total, slot, PoolsOf(Snapshot()), lastPtr, nextPage)
    {
      if id >= 0 && freeLists[id] != 0 {
        ghost var h := Snapshot();
        Unlink(h, id);
        var a := AllocateFromFreeList(id, total);
        r, slot := Done(a + META), MAX_ITEMS;
      } else {
        r, slot := Fresh(id, total, granted);
      }
    }

    /** A freed small block goes to the front of its free list. */
    method AddToFreeList(a: nat, id: nat)
      requires Valid() && id < CLASSES && Unowned(Snapshot(), a, ClassSize(id))
      requires heapBase <= a && a + ClassSize(id) <= lastPtr
      modifies this`mem, this`free, this`lists, freeLists
      ensures Valid() && BytesKept(old(mem), mem, live) && freeLists[id] == a
      ensures free == old(free)[a := id] && lists == old(lists)[id := [a] + old(lists[id])]
    {
      ghost var h := Snapshot();
      HeadWord(h, id);
      Link(h, a, id);
      OnlyInKept(mem, Store32(mem, a, freeLists[id]), live, a, ClassSize(id));
      mem := Store32(mem, a, freeLists[id]);
      freeLists[id] := a;
      free, lists := free[a := id], lists[id := [a] + lists[id]];
      assert Snapshot() == h.(heads := h.heads[id := a], lists := h.lists[id := [a] + h.lists[id]],
        free := h.free[a := id],
                              mem := Store32(h.mem, a, h.heads[id]));
    }

    /** A freed block of no class goes to the table of chunks. */
    method AddToChunks(a: nat, size: nat) returns (ghost dropped: nat)
      requires Valid() && size > 0 && Unowned(Snapshot(), a, size) && heapBase <= a && a + size <= lastPtr
      modifies big.chunks
      ensures Valid() && Filed(old(big.chunks[..]), big.chunks[..], a, size, dropped)
    {
      ghost var h := Snapshot();
      dropped := big.AddToBigChunk(a, size);
      File(h, a, size, big.chunks[..], dropped);
      assert Snapshot() == h.(chunks := big.chunks[..]);
    }

    method FreeBlock(a: nat) returns (ghost dropped: nat)
      requires Valid() && a in live
      modifies this`mem, this`live, this`free, this`lists, freeLists, big.chunks
      ensures Valid() && live == old(live) - {a} && BytesKept(old(mem), mem, live)
      ensures GivenBack(old(Snapshot()), Snapshot(), a, dropped)
    {
      dropped := 0;
      ghost var h := Snapshot();
      Within(h, a);
      var id: nat, size: nat := Load32(mem, a), Load32(mem, a + 4);
      Release(h, a);
      live := live - {a};
      assert Snapshot() == h.(live := h.live - {a});
      if id < CLASSES {
        AddToFreeList(a, id);
      } else {
        dropped := AddToChunks(a, size);
      }
    }

    /** Null and other pointers below the header size are ignored, and so is every
        pointer while freeing is disabled. */
    method Free(ptr: nat) returns (ghost dropped: nat)
      requires Valid() && (ptr >= META ==> ptr - META in live)
      modifies this`mem, this`live, this`free, this`lists, freeLists, big.chunks
      ensures Valid()
      ensures !(freeEnabled && ptr >= META) ==> Snapshot() == old(Snapshot())
      ensures freeEnabled && ptr >= META ==> GivenBack(old(Snapshot()), Snapshot(), ptr - META, dropped)
      ensures live == (if freeEnabled then Others(old(live), ptr) else old(live)) && BytesKept(old(mem), mem, live)
    {
      dropped := 0;
      if freeEnabled {
        if ptr >= META {
          dropped := FreeBlock(ptr - META);
        }
      }
    }

    /** The program writes n bytes at an offset inside a block it holds. */
    method Write(ptr: nat, offset: nat, bytes: seq<byte>)
      requires Valid() && ptr >= META && ptr - META in live && offset + |bytes| + META <= live[ptr - META]
      modifies this`mem
      ensures Valid() && BytesKept(old(mem), mem, Others(live, ptr))
      ensures mem == Written(old(mem), ptr + offset, bytes)
    {
      ghost var h, a := Snapshot(), ptr - META;
      Within(h, a);
      mem := Written(mem, ptr + offset, bytes);
      LiveWrite(h, mem, a);
      assert Snapshot() == h.(mem := mem);
      OnlyInKept(h.mem, mem, live - {a}, a, live[a]);
    }

    /** The first bytes of the memory at src are copied into the payload of a new block;
        reading past the last page traps. */
    method Copy(ptr: nat, src: nat, size: nat) returns (ok: bool)
      requires Valid() && ptr >= META && ptr - META in live
      requires size + META <= live[ptr - META] || size > MEMORY
      modifies this`mem
      ensures Valid() && BytesKept(old(mem), mem, Others(live, ptr))
      ensures ok == !PastEnd(src, size, nextPage)
      ensures ok ==> Copied(old(mem), mem, src, ptr, size) && size + META <= live[ptr - META]
      ensures !ok ==> mem == old(mem)
    {
      Within(Snapshot(), ptr - META);
      CopyFits(ptr, live[ptr - META], lastPtr, nextPage, size, src);
      ok := src + size <= nextPage * PAGE && ptr + size <= nextPage * PAGE;
      if ok {
        CopyBytes(ptr, src, size);
      }
    }

    method CopyBytes(ptr: nat, src: nat, size: nat)
      requires Valid() && ptr >= META && ptr - META in live && size + META <= live[ptr - META]
      requires src + size <= |mem| && ptr + size <= |mem|
      modifies this`mem
      ensures Valid() && BytesKept(old(mem), mem, Others(live, ptr)) && Copied(old(mem), mem, src, ptr, size)
    {
      ghost var m0 := mem;
      var bytes := mem[src..src + size];
      Write(ptr, 0, bytes);
      CopyWritten(m0, src, ptr, bytes);
    }

    /** The new block takes the old one's place; `m0` and `live0` are from before it was
        handed out. */
    method Replace(ptr: nat, ptr': nat, size: u32, ghost m0: seq<byte>, ghost live0: map<nat, nat>, ghost total: nat)
        returns (ok: bool, ghost dropped: nat)
      requires Valid() && BytesKept(m0, mem, live0) && (ptr != 0 ==> InHeap(m0, live0, ptr))
      requires ptr' > META && NewBlock(live0, live, ptr' - META, total) && (size + META <= total || size > MEMORY)
      modifies this`mem, this`live, this`free, this`lists, freeLists, big.chunks
      ensures Valid() && BytesKept(m0, mem, Others(live0, ptr))
      ensures ok == !PastEnd(ptr, size, nextPage)
      ensures ok ==> Moved(m0, mem, live0, live, ptr, ptr', size, total, freeEnabled)
      ensures ok ==> GivenUp(m0, live0, freeEnabled, ptr, old(PoolsOf(Snapshot())), PoolsOf(Snapshot()), dropped)
    {
      ghost var m1 := mem;
      Within(Snapshot(), ptr' - META);
      ok := Copy(ptr', ptr, size);
      dropped := Settle(ok, ptr, ptr', size, m0, m1, live0, total);
    }

    /** Unless the copy has trapped, the old block is given up. */
    method Settle(ok: bool, ptr: nat, ptr': nat, size: u32, ghost m0: seq<byte>, ghost m1: seq<byte>,
        ghost live0: map<nat, nat>, ghost total: nat)
        returns (ghost dropped: nat)
      requires Valid() && BytesKept(m0, m1, live0) && (ptr != 0 ==> InHeap(m0, live0, ptr))
      requires ptr' > META && NewBlock(live0, live, ptr' - META, total)
      requires ok ==> size + META <= total && BytesKept(m1, mem, Others(live, ptr')) && Copied(m1, mem, ptr, ptr', size)
      requires !ok ==> mem == m1
      modifies this`mem, this`live, this`free, this`lists, freeLists, big.chunks
      ensures Valid() && BytesKept(m0, mem, Others(live0, ptr))
      ensures ok ==> Moved(m0, mem, live0, live, ptr, ptr', size, total, freeEnabled)
      ensures ok ==> GivenUp(m0, live0, freeEnabled, ptr, old(PoolsOf(Snapshot())), PoolsOf(Snapshot()), dropped)
    {
      dropped := 0;
      if ok {
        dropped := GiveUpOld(ptr, ptr', size, m0, m1, live0, total);
      } else {
        KeptInTurn(m0, m1, m1, live0, Others(live0, ptr), Others(live0, ptr));
      }
    }

    /** The old block is freed once its contents are copied. */
    method GiveUpOld(ptr: nat, ptr': nat, size: u32, ghost m0: seq<byte>, ghost m1: seq<byte>,
        ghost live0: map<nat, nat>, ghost total: nat)
        returns (ghost dropped: nat)
      requires Valid() && BytesKept(m0, m1, live0) && (ptr != 0 ==> InHeap(m0, live0, ptr))
      requires ptr' > META && NewBlock(live0, live, ptr' - META, total) && size + META <= total
      requires BytesKept(m1, mem, Others(live, ptr')) && Copied(m1, mem, ptr, ptr', size)
      modifies this`mem, this`live, this`free, this`lists, freeLists, big.chunks
      ensures Valid() && Moved(m0, mem, live0, live, ptr, ptr', size, total, freeEnabled)
      ensures GivenUp(m0, live0, freeEnabled, ptr, old(PoolsOf(Snapshot())), PoolsOf(Snapshot()), dropped)
    {
      ghost var m2, live1 := mem, live;
      Within(Snapshot(), ptr' - META);
      if ptr != 0 { TagInTurn(m0, m1, m2, live0, live1, ptr, ptr', total); }
      dropped := Free(ptr);
      MovedInTurn(m0, m1, m2, mem, live0, live1, live, ptr, ptr', size, total, freeEnabled);
    }

    /** Malloc as realloc uses it, for a block at ptr; `past` says that the copy to come
        will read past the last page. */
    method NewPayload(size: u32, granted: bool, ghost ptr: nat) returns (r: Outcome, ghost total: nat, ghost past: bool)
      requires Valid() && size > 0 && (ptr != 0 ==> ptr >= META && ptr - META in live)
      modifies this`mem, this`live, this`free, this`lists, this`lastPtr, this`nextPage, freeLists, big.chunks
      ensures Valid() && BytesKept(old(mem), mem, old(live))
      ensures r.Done? ==>
        r.ptr > META && NewBlock(old(live), live, r.ptr - META, total) && (size + META <= total || size > MEMORY)
      ensures !r.Done? ==> r.Aborted? && live == old(live)
      ensures BytesKept(old(mem), mem, Others(old(live), ptr)) && (ptr != 0 ==> InHeap(old(mem), old(live), ptr))
      ensures past <==> r.Done? && PastEnd(ptr, size, nextPage)
      ensures Foretold(old(Snapshot()), old(nextPage), granted, ptr, size, if past then Trapped else r)
      ensures
        Allotted(old(Snapshot()), old(nextPage), granted, size, Address(r), PoolsOf(Snapshot()), lastPtr, nextPage)
    {
      ghost var h, n, id, slot := Snapshot(), nextPage, 0, 0;
      if ptr != 0 { Within(h, ptr - META); }
      r, id, total, slot := Malloc(size, granted);
      past := r.Done? && PastEnd(ptr, size, nextPage);
      ForetoldNow(h, n, granted, ptr, size, id, total, slot, PoolsOf(Snapshot()), lastPtr, nextPage, r, past);
      AllottedNow(h, n, granted, size, id, total, slot, Address(r), PoolsOf(Snapshot()), lastPtr, nextPage);
    }

    /** Growing a block: a new block with the old contents takes its place.  `ptr` is
        null or a block held. */
    method Regrow(ptr: nat, size: u32, granted: bool)
        returns (r: Outcome, ghost total: nat, ghost mid: Pools, ghost dropped: nat)
      requires Valid() && size > 0 && (ptr != 0 ==> ptr >= META && ptr - META in live)
      modifies this`mem, this`live, this`free, this`lists, this`lastPtr, this`nextPage, freeLists, big.chunks
      ensures Valid() && BytesKept(old(mem), mem, Others(old(live), ptr))
      ensures r.Done? ==> Moved(old(mem), mem, old(live), live, ptr, r.ptr, size, total, freeEnabled)
      ensures Foretold(old(Snapshot()), old(nextPage), granted, ptr, size, r)
      ensures !r.Trapped? ==>
        Allotted(old(Snapshot()), old(nextPage), granted, size, Address(r), mid, lastPtr, nextPage)
      ensures !r.Trapped? ==>
        GivenUp(old(mem), old(live), freeEnabled && r.Done?, ptr, mid, PoolsOf(Snapshot()), dropped)
    {
      ghost var m0, live0, past := mem, live, false;
      var r0;
      r0, total, past := NewPayload(size, granted, ptr);
      mid := PoolsOf(Snapshot());
      r, dropped := TakeOver(r0, ptr, size, m0, live0, total);
    }

    /** The new block, if there is one, takes the old one's place. */
    method TakeOver(r0: Outcome, ptr: nat, size: u32, ghost m0: seq<byte>, ghost live0: map<nat, nat>,
        ghost total: nat) returns (r: Outcome, ghost dropped: nat)
      requires Valid() && BytesKept(m0, mem, live0) && (ptr != 0 ==> InHeap(m0, live0, ptr))
      requires BytesKept(m0, mem, Others(live0, ptr)) && !r0.Trapped?
      requires r0.Done? ==>
        r0.ptr > META && NewBlock(live0, live, r0.ptr - META, total) && (size + META <= total || size > MEMORY)
      modifies this`mem, this`live, this`free, this`lists, freeLists, big.chunks
      ensures Valid() && BytesKept(m0, mem, Others(live0, ptr))
      ensures r == if r0.Done? && PastEnd(ptr, size, nextPage) then Trapped else r0
      ensures r.Done? ==> Moved(m0, mem, live0, live, ptr, r.ptr, size, total, freeEnabled)
      ensures !r.Trapped? ==>
        GivenUp(m0, live0, freeEnabled && r.Done?, ptr, old(PoolsOf(Snapshot())), PoolsOf(Snapshot()), dropped)
    {
      r, dropped := r0, 0;
      if r.Done? {
        var ok;
        ok, dropped := Replace(ptr, r.ptr, size, m0, live0, total);
        r := if ok then r else Trapped;
      }
    }

    /** A block that is large enough stays; else a new one takes over its contents. */
    method Realloc(ptr: nat, size: u32, granted: bool)
        returns (r: Outcome, ghost total: nat, ghost mid: Pools, ghost dropped: nat)
      requires Valid() && (ptr != 0 ==> ptr >= META && ptr - META in live)
      modifies this`mem, this`live, this`free, this`lists, this`lastPtr, this`nextPage, freeLists, big.chunks
      ensures Valid() && BytesKept(old(mem), mem, Others(old(live), ptr))
      ensures Stays(old(live), ptr, size) ==>
        r == Done(ptr) && Snapshot() == old(Snapshot()) && nextPage == old(nextPage)
      ensures !Stays(old(live), ptr, size) ==>
        && (r.Done? ==> Moved(old(mem), mem, old(live), live, ptr, r.ptr, size, total, freeEnabled))
        && Foretold(old(Snapshot()), old(nextPage), granted, ptr, size, r)
      ensures !Stays(old(live), ptr, size) && !r.Trapped? ==>
        && Allotted(old(Snapshot()), old(nextPage), granted, size, Address(r), mid, lastPtr, nextPage)
        && GivenUp(old(mem), old(live), freeEnabled && r.Done?, ptr, mid, PoolsOf(Snapshot()), dropped)
    {
      total, mid, dropped := 0, PoolsOf(Snapshot()), 0;
      if ptr >= META {
        Within(Snapshot(), ptr - META);
        var sz: nat := Load32(mem, ptr - META + 4);
        if sz - META >= size {
          return Done(ptr), 0, mid, 0;
        }
      }
      if size == 0 {
        return Done(0), 0, mid, 0;
      }
      r, total, mid, dropped := Regrow(ptr, size, granted);
    }
  }

  /** The old block keeps its class until it is freed. */
  lemma TagInTurn(m0: seq<byte>, m1: seq<byte>, m2: seq<byte>, live0: map<nat, nat>, live1: map<nat, nat>, ptr: nat,
      ptr': nat, total: nat)
    requires InHeap(m0, live0, ptr) && ptr' > META && NewBlock(live0, live1, ptr' - META, total)
    requires BytesKept(m0, m1, live0) && BytesKept(m1, m2, Others(live1, ptr'))
    ensures Load32(m2, ptr - META) == Load32(m0, ptr - META)
  {
    var a := ptr - META;
    assert a in Others(live1, ptr') && live1[a] == live0[a] && a != ptr' - META;
    forall i | a <= i < a + 4
      ensures m2[i] == m0[i]
    {
      assert m1[i] == m0[i];
    }
  }

  lemma ShorterCopy(m: seq<byte>, m': seq<byte>, src: nat, dst: nat, size: nat, n: nat)
    requires Copied(m, m', src, dst, size) && n <= size
    ensures Copied(m, m', src, dst, n)
  {
    SlicePrefix(m', dst, size, n);
    SlicePrefix(m, src, size, n);
  }

  lemma SlicePrefix(m: seq<byte>, a: nat, size: nat, n: nat)
    requires a + size <= |m| && n <= size
    ensures Slice(m, a, n) == Slice(m, a, size)[..n]
  {
    assert m[a..a + n] == m[a..a + size][..n];
  }

  lemma CopyWritten(m: seq<byte>, src: nat, dst: nat, bytes: seq<byte>)
    requires src + |bytes| <= |m| && dst + |bytes| <= |m| && bytes == m[src..src + |bytes|]
    ensures Copied(m, Written(m, dst, bytes), src, dst, |bytes|)
  {
    assert Slice(Written(m, dst, bytes), dst, |bytes|) == bytes;
  }

  /** The copy reads past the last page. */
  predicate PastEnd(ptr: nat, size: nat, nextPage: nat) { ptr + size > nextPage * PAGE || size > MEMORY }

  lemma CopyFits(ptr: nat, len: nat, last: nat, nextPage: nat, size: nat, src: nat)
    requires ptr - META + len <= last <= nextPage * PAGE <= MEMORY && (size + META <= len || size > MEMORY)
    ensures (src + size <= nextPage * PAGE && ptr + size <= nextPage * PAGE) == !PastEnd(src, size, nextPage)
    ensures !PastEnd(src, size, nextPage) ==> src + size <= MEMORY && ptr + size <= MEMORY && size + META <= len
  {
  }

  /** Realloc leaves everything as it is. */
  ghost predicate Stays(live: map<nat, nat>, ptr: nat, size: nat) {
    if ptr >= META && ptr - META in live then size + META <= live[ptr - META] else size == 0
  }

  /** The blocks other than the one with payload ptr. */
  function Others(live: map<nat, nat>, ptr: nat): map<nat, nat> {
    if ptr >= META then live - {ptr - META} else live
  }

  /** How much of an old payload a new one of the given size takes over. */
  function Kept(live: map<nat, nat>, ptr: nat, size: nat): (n: nat)
    ensures n <= size
  {
    if ptr >= META && ptr - META in live && META <= live[ptr - META] < size + META then live[ptr - META] - META
    else if ptr >= META && ptr - META in live then size
    else 0
  }

  function Slice(m: seq<byte>, a: nat, n: nat): seq<byte>
    requires a + n <= |m|
  {
    m[a..a + n]
  }

  /** The n bytes from src in one memory are those from dst in the other. */
  ghost predicate Copied(m: seq<byte>, m': seq<byte>, src: nat, dst: nat, n: nat) {
    src + n <= |m| && dst + n <= |m'| && Slice(m', dst, n) == Slice(m, src, n)
  }

  /** ptr is the payload of a block inside the memory. */
  ghost predicate InHeap(m: seq<byte>, live: map<nat, nat>, ptr: nat) {
    ptr > META && ptr - META in live && 64 <= live[ptr - META] && ptr - META + live[ptr - META] <= |m|
  }

  /** A block apart from all others is added. */
  ghost predicate NewBlock(live: map<nat, nat>, live': map<nat, nat>, a: nat, total: nat) {
    a !in live && ApartLive(live, a, total) && live' == live[a := total]
  }

  /** A block moved: a new block, apart from every block held before, has room for `size`
      bytes and starts with the old contents; the old block is given up if freeing is
      enabled, and the other blocks and their contents stay. */
  ghost predicate Moved(m: seq<byte>, m': seq<byte>, live: map<nat, nat>, live': map<nat, nat>,
                        ptr: nat, ptr': nat, size: nat, total: nat, enabled: bool) {
    && ptr' > META && (ptr' - META) !in live && ApartLive(live, ptr' - META, total) && size + META <= total
    && live' == (if enabled then Others(live, ptr) else live)[ptr' - META := total]
    && BytesKept(m, m', Others(live, ptr))
    && Copied(m, m', ptr, ptr', Kept(live, ptr, size))
  }

  lemma KeptInTurn(m0: seq<byte>, m1: seq<byte>, m2: seq<byte>, live1: map<nat, nat>, live2: map<nat, nat>,
      live: map<nat, nat>)
    requires BytesKept(m0, m1, live1) && BytesKept(m1, m2, live2)
    requires Part(live, live1) && Part(live, live2)
    ensures BytesKept(m0, m2, live)
  {
    forall a, i | a in live && a <= i < a + live[a] && i < |m0|
      ensures m2[i] == m0[i]
    {
      assert m1[i] == m0[i];
    }
  }

  ghost predicate Part(live: map<nat, nat>, live': map<nat, nat>) {
    forall a :: a in live ==> a in live' && live[a] == live'[a]
  }

  lemma SliceKept(m: seq<byte>, m': seq<byte>, live: map<nat, nat>, a: nat, lo: nat, n: nat)
    requires BytesKept(m, m', live) && a in live && a <= lo && lo + n <= a + live[a] <= |m|
    ensures m'[lo..lo + n] == m[lo..lo + n]
  {
  }

  lemma MovedInTurn(m0: seq<byte>, m1: seq<byte>, m2: seq<byte>, m3: seq<byte>,
                    live0: map<nat, nat>, live1: map<nat, nat>, live3: map<nat, nat>,
                    ptr: nat, ptr': nat, size: nat, total: nat, enabled: bool)
    requires ptr' > META && NewBlock(live0, live1, ptr' - META, total) && size + META <= total
    requires ptr != 0 ==> InHeap(m0, live0, ptr)
    requires live3 == if enabled then Others(live1, ptr) else live1
    requires BytesKept(m0, m1, live0) && BytesKept(m1, m2, Others(live1, ptr')) && BytesKept(m2, m3, live3)
    requires ptr + size <= |m0| && ptr' - META + total <= |m0|
    requires Copied(m1, m2, ptr, ptr', size)
    ensures Moved(m0, m3, live0, live3, ptr, ptr', size, total, enabled)
  {
    var rest, n := Others(live0, ptr), Kept(live0, ptr, size);
    assert Others(live1, ptr') == live0;
    KeptInTurn(m0, m1, m2, live0, live0, rest);
    KeptInTurn(m0, m2, m3, rest, live3, rest);
    SliceKept(m2, m3, live3, ptr' - META, ptr', n);
    if n > 0 { SliceKept(m0, m1, live0, ptr - META, ptr, n); }
    ShorterCopy(m1, m2, ptr, ptr', size, n);
  }

  function Written(mem: seq<byte>, at: nat, bytes: seq<byte>): (mem': seq<byte>)
    requires at + |bytes| <= |mem|
    ensures |mem'| == |mem| && OnlyIn(mem, mem', at, at + |bytes|)
  {
    mem[..at] + bytes + mem[at + |bytes|..]
  }

  /** A freed block is in the free list of its class, or filed in the table of chunks. */
  ghost predicate GivenBack(h: Heap, h': Heap, a: nat, dropped: nat)
    requires a + 8 <= |h.mem| && |h.lists| == CLASSES && a in h.live
  {
    Returned(PoolsOf(h), PoolsOf(h'), Load32(h.mem, a), a, h.live[a], dropped)
  }

  /** What the invariant says of one live block. */
  lemma Within(h: Heap, a: nat)
    requires Inv(h) && a in h.live
    ensures h.base <= a && 64 <= h.live[a] && a + h.live[a] <= h.last <= |h.mem|
    ensures Header(h.mem, a, h.live[a]) && ApartLive(h.live - {a}, a, h.live[a])
  {
  }

  /** The first block of a free list has an address of 32 bits. */
  lemma HeadWord(h: Heap, id: nat)
    requires Inv(h) && id < CLASSES
    ensures h.heads[id] < B32
  {
    if h.heads[id] != 0 { Unlink(h, id); }
  }

  lemma OnlyInKept(m: seq<byte>, m': seq<byte>, live: map<nat, nat>, lo: nat, len: nat)
    requires OnlyIn(m, m', lo, lo + len) && ApartLive(live, lo, len)
    ensures BytesKept(m, m', live)
  {
    forall a, i | a in live && a <= i < a + live[a] && i < |m|
      ensures m'[i] == m[i]
    {
      assert Apart(lo, len, a, live[a]);
    }
  }

  /** The block has room for the payload exactly when the request and its header do not
      wrap around 32 bits. */
  lemma RequestFits(size: u32, id: int, total: nat)
    requires Classified(Request(size), id, total)
    ensures 64 <= total < B32 && (id == -1 || (0 <= id < CLASSES && total == ClassSize(id)))
    ensures size + META <= total <==> size < B32 - 31
  {
    if id != -1 { assert total <= 0x10_0000; }
  }

  /** The largest request wraps to 64 bytes, header included. */
  lemma RequestWraps(id: int, total: nat)
    requires Classified(Request(0xFFFF_FFFF), id, total)
    ensures total == 64 && 0xFFFF_FFFF + META > total
  {
    assert Request(0xFFFF_FFFF) <= SIZES[0] == 64;
  }

  /** A new block for the caller, apart from every block still held; or none. */
  ghost predicate Served(live: map<nat, nat>, live': map<nat, nat>, r: Outcome, total: nat) {
    if r.Done? then
      r.ptr > META && NewBlock(live, live', Address(r), total)
    else r.Aborted? && live' == live
  }

  /** The first header word: the block's class, or -1. */
  ghost predicate Tagged(m: seq<byte>, a: nat, id: int) {
    a + 4 <= |m| && (Load32(m, a) as int == if id == -1 then NO_CLASS else id)
  }

  ghost predicate FromList(h: Heap, id: int) { 0 <= id < |h.heads| && h.heads[id] != 0 }

  /** The bump pointer moves, and as many pages as needed are granted. */
  ghost predicate FromEnd(h: Heap, nextPage: nat, granted: bool, id: int, total: nat) {
    !FromList(h, id) && granted && nextPage + PagesFor(h.last, nextPage, total) <= MAX_PAGES
  }

  /** No block: no free one of the class, no pages, and no chunk that is large enough. */
  ghost predicate NoneLeft(h: Heap, nextPage: nat, granted: bool, id: int, total: nat) {
    !FromList(h, id) && !FromEnd(h, nextPage, granted, id, total) && FirstFit(h.chunks, total, |h.chunks|)
  }

  /** The copy reads past the last page, which can be told before the call: the request
      wraps, or the heap does not grow and what is read does not end inside it. */
  ghost predicate ReadsPast(h: Heap, nextPage: nat, granted: bool, id: int, total: nat, ptr: nat, size: nat) {
    && !NoneLeft(h, nextPage, granted, id, total)
    && (size >= B32 - 31 || (!FromEnd(h, nextPage, granted, id, total) && ptr + size > nextPage * PAGE))
  }

  /** Whether growing a block aborts, traps or succeeds, told from the state before the
      call: `id` and `total` are the class and the size of the new block. */
  ghost predicate Foretold(h: Heap, nextPage: nat, granted: bool, ptr: nat, size: u32, r: Outcome) {
    forall id, total {:trigger Classified(Request(size), id, total)} :: Classified(Request(size), id, total) ==>
      && (r.Aborted? <==> NoneLeft(h, nextPage, granted, id, total))
      && (r.Trapped? <==> ReadsPast(h, nextPage, granted, id, total, ptr, size))
  }

  /** Where the bump pointer and the page count end. */
  ghost predicate EndsAt(last: nat, nextPage: nat, granted: bool, total: nat, last': nat, nextPage': nat) {
    var pages := PagesFor(last, nextPage, total);
    if granted && nextPage + pages <= MAX_PAGES then last' == Align(last + total) && nextPage' == nextPage + pages
    else last' == last && nextPage' == nextPage
  }

  /** What can be handed out again: free blocks with their lists, and the chunks. */
  datatype Pools = Pools(free: map<nat, nat>, lists: seq<seq<nat>>, chunks: seq<Chunk>)

  ghost function PoolsOf(h: Heap): Pools { Pools(h.free, h.lists, h.chunks) }

  function Tail(list: seq<nat>): seq<nat> { if list == [] then [] else list[1..] }

  /** A block is cut from the front of a chunk. */
  function CutAt(chunks: seq<Chunk>, slot: nat, total: nat): seq<Chunk> {
    if slot < |chunks| && total <= chunks[slot].capacity then
      chunks[slot := Chunk(chunks[slot].ptr + total, chunks[slot].capacity - total)]
    else chunks
  }

  ghost function ChunksAfter(h: Heap, nextPage: nat, granted: bool, total: nat, slot: nat): seq<Chunk> {
    if granted && nextPage + PagesFor(h.last, nextPage, total) <= MAX_PAGES then h.chunks
    else CutAt(h.chunks, slot, total)
  }

  /** What a request does to the pools, the bump pointer and the page count. */
  ghost predicate Advanced(h: Heap, nextPage: nat, granted: bool, id: int, total: nat, slot: nat, pools: Pools,
      last': nat, nextPage': nat) {
    if FromList(h, id) then
      && id < |h.lists| && h.lists[id] != [] && last' == h.last && nextPage' == nextPage
      && pools == Pools(h.free - {h.heads[id]}, h.lists[id := Tail(h.lists[id])], h.chunks)
    else
      && pools == Pools(h.free, h.lists, ChunksAfter(h, nextPage, granted, total, slot))
      && EndsAt(h.last, nextPage, granted, total, last', nextPage')
  }

  /** A block for a request, and what is left, told from the state before the call. */
  ghost predicate Allotted(h: Heap, nextPage: nat, granted: bool, size: u32, a: nat, pools: Pools, last': nat,
      nextPage': nat) {
    forall id, total {:trigger Classified(Request(size), id, total)} :: Classified(Request(size), id, total) ==>
      exists slot: nat :: Placed(h, nextPage, granted, id, total, slot, a) &&
        Advanced(h, nextPage, granted, id, total, slot, pools, last', nextPage')
  }

  lemma AllottedNow(h: Heap, nextPage: nat, granted: bool, size: u32, id: int, total: nat, slot: nat, a: nat,
      pools: Pools, last': nat, nextPage': nat)
    requires Classified(Request(size), id, total) && Placed(h, nextPage, granted, id, total, slot, a)
    requires Advanced(h, nextPage, granted, id, total, slot, pools, last', nextPage')
    ensures Allotted(h, nextPage, granted, size, a, pools, last', nextPage')
  {
    forall id', total' | Classified(Request(size), id', total')
      ensures id' == id && total' == total
    {
      OneClass(Request(size), id, total, id', total');
    }
  }

  /** A block given up is the first of the free list of its class, or filed as a chunk. */
  ghost predicate Returned(p: Pools, p': Pools, tag: nat, a: nat, len: nat, dropped: nat)
    requires |p.lists| == CLASSES
  {
    if tag < CLASSES then p' == Pools(p.free[a := tag], p.lists[tag := [a] + p.lists[tag]], p.chunks)
    else p'.free == p.free && p'.lists == p.lists && Filed(p.chunks, p'.chunks, a, len, dropped)
  }

  /** The old block of a payload that has moved is given up, if freeing is enabled. */
  ghost predicate GivenUp(m: seq<byte>, live: map<nat, nat>, enabled: bool, ptr: nat, p: Pools, p': Pools,
      dropped: nat) {
    if enabled && ptr >= META then
      && ptr - META in live && ptr - META + 4 <= |m| && |p.lists| == CLASSES
      && Returned(p, p', Load32(m, ptr - META), ptr - META, live[ptr - META], dropped)
    else p' == p
  }

  lemma AbortsWhen(h: Heap, nextPage: nat, granted: bool, id: int, total: nat, slot: nat, a: nat)
    requires Inv(h) && Placed(h, nextPage, granted, id, total, slot, a)
    ensures a == 0 <==> NoneLeft(h, nextPage, granted, id, total)
  {
  }

  lemma ForetoldNow(h: Heap, nextPage: nat, granted: bool, ptr: nat, size: u32, id: int, total: nat, slot: nat,
      pools: Pools, last': nat, nextPage': nat, r: Outcome, past: bool)
    requires Inv(h) && h.last <= nextPage * PAGE && last' <= nextPage' * PAGE <= MEMORY
    requires ptr != 0 ==> ptr >= META && ptr - META in h.live
    requires Classified(Request(size), id, total)
    requires Advanced(h, nextPage, granted, id, total, slot, pools, last', nextPage')
    requires Placed(h, nextPage, granted, id, total, slot, Address(r)) && (if r.Done? then r.ptr > META else r.Aborted?)
    requires past <==> r.Done? && PastEnd(ptr, size, nextPage')
    ensures Foretold(h, nextPage, granted, ptr, size, if past then Trapped else r)
  {
    AbortsWhen(h, nextPage, granted, id, total, slot, Address(r));
    ReadsPastWhen(h, nextPage, granted, id, total, slot, ptr, size, pools, last', nextPage');
    forall id', total' | Classified(Request(size), id', total')
      ensures id' == id && total' == total
    {
      OneClass(Request(size), id, total, id', total');
    }
  }

  lemma OneClass(sz: nat, id: int, total: nat, id': int, total': nat)
    requires Classified(sz, id, total) && Classified(sz, id', total')
    ensures id == id' && total == total'
  {
  }

  lemma ReadsPastWhen(h: Heap, nextPage: nat, granted: bool, id: int, total: nat, slot: nat, ptr: nat, size: u32,
      pools: Pools, last': nat, nextPage': nat)
    requires Inv(h) && h.last <= nextPage * PAGE && last' <= nextPage' * PAGE <= MEMORY
    requires ptr != 0 ==> ptr >= META && ptr - META in h.live
    requires Classified(Request(size), id, total)
    requires Advanced(h, nextPage, granted, id, total, slot, pools, last', nextPage')
    ensures !NoneLeft(h, nextPage, granted, id, total) ==>
      (PastEnd(ptr, size, nextPage') <==> ReadsPast(h, nextPage, granted, id, total, ptr, size))
  {
    RequestFits(size, id, total);
    if ptr != 0 { Within(h, ptr - META); }
  }

  /** Where the memory of a block comes from: the end of the heap if the host grants the
      pages, else the first chunk large enough, else nowhere. */
  ghost predicate PlacedFresh(h: Heap, nextPage: nat, granted: bool, total: nat, slot: nat, a: nat) {
    if granted && nextPage + PagesFor(h.last, nextPage, total) <= MAX_PAGES then a == h.last
    else ServedByChunk(h.chunks, total, slot, a)
  }

  ghost predicate ServedByChunk(chunks: seq<Chunk>, total: nat, slot: nat, a: nat) {
    FirstFit(chunks, total, slot) && a == if slot < |chunks| then chunks[slot].ptr else 0
  }

  /** The block of an outcome, 0 when there is none. */
  function Address(r: Outcome): nat { if r.Done? && r.ptr >= META then r.ptr - META else 0 }

  /** The free list of its class comes first. */
  ghost predicate Placed(h: Heap, nextPage: nat, granted: bool, id: int, total: nat, slot: nat, a: nat) {
    if FromList(h, id) then a == h.heads[id]
    else PlacedFresh(h, nextPage, granted, total, slot, a)
  }

  lemma UnownedPart(h: Heap, lo: nat, len: nat, len': nat)
    requires Unowned(h, lo, len) && len' <= len
    ensures Unowned(h, lo, len')
  {
  }
}
