/** The header-in-heap allocator (class memory and buffer_ptr in
    libraries/eosiolib/malloc.cpp): a heap filled by blocks, each a header word and its
    payload, and merged lazily.  The header holds the payload's size, with the top bit
    set while the block is allocated.  Pointers are offsets from `_heap`; a payload never
    starts at 0, which is null. */
module Malloc {
  import opened Memory
  import opened Words

  const MARKER := 4
  const ALLOC := 0x8000_0000

  datatype Block = Block(size: nat, live: bool)

  function Word(b: Block): nat { if b.live then b.size + ALLOC else b.size }

  /** Where block i starts. */
  function Off(blocks: seq<Block>, i: nat): nat
    requires i <= |blocks|
  {
    OffRec(blocks, i)
  }

  function OffRec(blocks: seq<Block>, i: nat): nat
    requires i <= |blocks|
  {
    if i == 0 then 0 else OffRec(blocks, i - 1) + MARKER + blocks[i - 1].size
  }

  lemma OffStep(blocks: seq<Block>, i: nat)
    requires i < |blocks|
    ensures Off(blocks, 0) == 0 && Off(blocks, i + 1) == Off(blocks, i) + MARKER + blocks[i].size
  {
  }

  ghost predicate HeaderAt(heap: seq<byte>, at: nat, b: Block) {
    at + MARKER + b.size <= |heap| && Load32(heap, at) == Word(b)
  }

  /** The blocks lie side by side from the start of the heap. */
  ghost predicate Tiled(heap: seq<byte>, blocks: seq<Block>) {
    forall i {:trigger Off(blocks, i)} :: 0 <= i < |blocks| ==> HeaderAt(heap, Off(blocks, i), blocks[i])
  }

  /** Whole blocks are multiples of 8 bytes. */
  ghost predicate Sized(blocks: seq<Block>) {
    forall i :: 0 <= i < |blocks| ==> blocks[i].size % 8 == 4
  }

  /** The payloads handed out: address and size. */
  ghost function Live(blocks: seq<Block>): set<(nat, nat)> {
    set i {:trigger Off(blocks, i)} | 0 <= i < |blocks| && blocks[i].live :: (Off(blocks, i) + MARKER, blocks[i].size)
  }

  ghost predicate AllFree(blocks: seq<Block>, a: nat, b: nat) {
    forall i :: a <= i < b && i < |blocks| ==> !blocks[i].live
  }

  // ----- offsets

  lemma {:induction false} OffPrefix(s: seq<Block>, t: seq<Block>, i: nat)
    requires i <= |s| && i <= |t| && s[..i] == t[..i]
    ensures Off(s, i) == Off(t, i)
  {
    if i > 0 {
      assert s[i - 1] == s[..i][i - 1] == t[..i][i - 1] == t[i - 1];
      assert s[..i - 1] == s[..i][..i - 1] == t[..i][..i - 1] == t[..i - 1];
      OffPrefix(s, t, i - 1);
      OffStep(s, i - 1);
      OffStep(t, i - 1);
    }
  }

  /** Equal tails at equal offsets stay at equal offsets. */
  lemma {:induction false} OffTail(s: seq<Block>, t: seq<Block>, i: nat, j: nat, n: nat)
    requires i + n <= |s| && j + n <= |t| && Off(s, i) == Off(t, j) && s[i..i + n] == t[j..j + n]
    ensures Off(s, i + n) == Off(t, j + n)
  {
    if n > 0 {
      assert s[i + n - 1] == s[i..i + n][n - 1] == t[j..j + n][n - 1] == t[j + n - 1];
      assert s[i..i + (n - 1)] == s[i..i + n][..n - 1] == t[j..j + n][..n - 1] == t[j..j + (n - 1)];
      OffTail(s, t, i, j, n - 1);
      OffStep(s, i + n - 1);
      OffStep(t, j + n - 1);
    }
  }

  lemma {:induction false} OffMono(s: seq<Block>, i: nat, j: nat)
    requires i < j <= |s|
    ensures Off(s, i) + MARKER + s[i].size <= Off(s, j)
  {
    OffStep(s, j - 1);
    if i < j - 1 { OffMono(s, i, j - 1); }
  }

  /** Offsets are multiples of 8. */
  lemma {:induction false} OffAligned(s: seq<Block>, i: nat)
    requires Sized(s) && i <= |s|
    ensures Off(s, i) % 8 == 0
  {
    if i > 0 {
      OffAligned(s, i - 1);
      OffStep(s, i - 1);
      Aligned(Off(s, i - 1), s[i - 1].size);
    }
  }

  lemma Aligned(at: nat, size: nat)
    requires at % 8 == 0 && size % 8 == 4
    ensures (at + MARKER + size) % 8 == 0
  {
  }

  // ----- replacing a run of blocks

  /** Blocks i..j are replaced by `mid`. */
  function Spliced(s: seq<Block>, i: nat, j: nat, mid: seq<Block>): seq<Block>
    requires i <= j <= |s|
  {
    s[..i] + mid + s[j..]
  }

  /** The replacement fills the same bytes. */
  ghost predicate Fills(s: seq<Block>, i: nat, j: nat, mid: seq<Block>) {
    i <= j <= |s| && Off(s, i) + Off(mid, |mid|) == Off(s, j)
  }

  lemma {:induction false} OffMid(s: seq<Block>, i: nat, j: nat, mid: seq<Block>, n: nat)
    requires i <= j <= |s| && n <= |mid|
    ensures Off(Spliced(s, i, j, mid), i + n) == Off(s, i) + Off(mid, n)
  {
    var t := Spliced(s, i, j, mid);
    if n == 0 {
      assert t[..i] == s[..i];
      OffPrefix(s, t, i);
    } else {
      OffMid(s, i, j, mid, n - 1);
      OffStep(t, i + n - 1);
      OffStep(mid, n - 1);
      assert t[i + n - 1] == mid[n - 1];
    }
  }

  // Where the blocks of a splice lie: before it and after it nothing moves.

  lemma SplicedBefore(s: seq<Block>, i: nat, j: nat, mid: seq<Block>, k: nat)
    requires i <= j <= |s| && k <= i
    ensures Off(Spliced(s, i, j, mid), k) == Off(s, k)
    ensures k < i ==> Spliced(s, i, j, mid)[k] == s[k]
  {
    var t := Spliced(s, i, j, mid);
    assert t[..k] == s[..k];
    OffPrefix(s, t, k);
  }

  lemma SplicedAfter(s: seq<Block>, i: nat, j: nat, mid: seq<Block>, k: nat)
    requires Fills(s, i, j, mid) && j <= k <= |s|
    ensures Off(Spliced(s, i, j, mid), i + |mid| + (k - j)) == Off(s, k)
    ensures k < |s| ==> Spliced(s, i, j, mid)[i + |mid| + (k - j)] == s[k]
  {
    var t := Spliced(s, i, j, mid);
    OffMid(s, i, j, mid, |mid|);
    assert s[j..j + (k - j)] == t[i + |mid|..i + |mid| + (k - j)];
    OffTail(s, t, j, i + |mid|, k - j);
  }

  lemma HeaderKept(m: seq<byte>, m': seq<byte>, lo: nat, hi: nat, at: nat, b: Block)
    requires OnlyIn(m, m', lo, hi) && HeaderAt(m, at, b) && (at + MARKER <= lo || hi <= at)
    ensures HeaderAt(m', at, b)
  {
    assert m'[at] == m[at] && m'[at + 1] == m[at + 1] && m'[at + 2] == m[at + 2] && m'[at + 3] == m[at + 3];
  }

  ghost predicate MidTiled(m: seq<byte>, at: nat, mid: seq<Block>) {
    forall k {:trigger Off(mid, k)} :: 0 <= k < |mid| ==> HeaderAt(m, at + Off(mid, k), mid[k])
  }

  lemma HeaderMid(m: seq<byte>, at: nat, mid: seq<Block>, k: nat, x: nat, b: Block)
    requires MidTiled(m, at, mid) && k < |mid| && x == at + Off(mid, k) && b == mid[k]
    ensures HeaderAt(m, x, b)
  {
  }

  lemma HeaderBefore(m: seq<byte>, m': seq<byte>, s: seq<Block>, i: nat, j: nat, k: nat)
    requires k < i <= j <= |s| && HeaderAt(m, Off(s, k), s[k]) && OnlyIn(m, m', Off(s, i), Off(s, j))
    ensures HeaderAt(m', Off(s, k), s[k])
  {
    OffMono(s, k, i);
    HeaderKept(m, m', Off(s, i), Off(s, j), Off(s, k), s[k]);
  }

  lemma HeaderAfter(m: seq<byte>, m': seq<byte>, s: seq<Block>, i: nat, j: nat, k: nat)
    requires i <= j <= k < |s| && HeaderAt(m, Off(s, k), s[k]) && OnlyIn(m, m', Off(s, i), Off(s, j))
    ensures HeaderAt(m', Off(s, k), s[k])
  {
    if j < k { OffMono(s, j, k); }
    HeaderKept(m, m', Off(s, i), Off(s, j), Off(s, k), s[k]);
  }

  /** Writing the headers of the replacement, and only inside it, keeps the heap tiled. */
  lemma SplicedTiled(m: seq<byte>, m': seq<byte>, s: seq<Block>, i: nat, j: nat, mid: seq<Block>)
    requires Tiled(m, s) && Fills(s, i, j, mid) && OnlyIn(m, m', Off(s, i), Off(s, j)) && MidTiled(m', Off(s, i), mid)
    ensures Tiled(m', Spliced(s, i, j, mid))
  {
    var t := Spliced(s, i, j, mid);
    forall k | 0 <= k < |t|
      ensures HeaderAt(m', Off(t, k), t[k])
    {
      if k < i {
        SplicedBefore(s, i, j, mid, k);
        HeaderBefore(m, m', s, i, j, k);
      } else if k < i + |mid| {
        OffMid(s, i, j, mid, k - i);
        HeaderMid(m', Off(s, i), mid, k - i, Off(t, k), t[k]);
      } else {
        SplicedAfter(s, i, j, mid, k - i - |mid| + j);
        HeaderAfter(m, m', s, i, j, k - i - |mid| + j);
      }
    }
  }

  /** What is handed out after a splice: the replacement's live blocks instead of those
      it replaces, and all others as they were. */
  lemma SplicedLive(s: seq<Block>, i: nat, j: nat, mid: seq<Block>)
    requires Fills(s, i, j, mid)
    ensures Live(Spliced(s, i, j, mid)) == LiveIn(s, 0, i) + MidLive(s, i, mid) + LiveIn(s, j, |s|)
  {
    var t := Spliced(s, i, j, mid);
    var right := LiveIn(s, 0, i) + MidLive(s, i, mid) + LiveIn(s, j, |s|);
    forall p
      ensures p in Live(t) <==> p in right
    {
      if p in Live(t) { SplicedLiveInto(s, i, j, mid, p); }
      if p in right { SplicedLiveBack(s, i, j, mid, p); }
    }
  }

  lemma SplicedLiveInto(s: seq<Block>, i: nat, j: nat, mid: seq<Block>, p: (nat, nat))
    requires Fills(s, i, j, mid) && p in Live(Spliced(s, i, j, mid))
    ensures p in LiveIn(s, 0, i) + MidLive(s, i, mid) + LiveIn(s, j, |s|)
  {
    var t := Spliced(s, i, j, mid);
    var k :| 0 <= k < |t| && t[k].live && p == (Off(t, k) + MARKER, t[k].size);
    if k < i {
      SplicedBefore(s, i, j, mid, k);
      assert p in LiveIn(s, 0, i);
    } else if k < i + |mid| {
      OffMid(s, i, j, mid, k - i);
      assert t[k] == mid[k - i];
      assert p in MidLive(s, i, mid);
    } else {
      SplicedAfter(s, i, j, mid, k - i - |mid| + j);
      assert p in LiveIn(s, j, |s|);
    }
  }

  lemma SplicedLiveBack(s: seq<Block>, i: nat, j: nat, mid: seq<Block>, p: (nat, nat))
    requires Fills(s, i, j, mid) && p in LiveIn(s, 0, i) + MidLive(s, i, mid) + LiveIn(s, j, |s|)
    ensures p in Live(Spliced(s, i, j, mid))
  {
    var t := Spliced(s, i, j, mid);
    if p in LiveIn(s, 0, i) {
      var k :| 0 <= k < i && s[k].live && p == (Off(s, k) + MARKER, s[k].size);
      SplicedBefore(s, i, j, mid, k);
    } else if p in MidLive(s, i, mid) {
      var n :| 0 <= n < |mid| && mid[n].live && p == (Off(s, i) + Off(mid, n) + MARKER, mid[n].size);
      OffMid(s, i, j, mid, n);
      assert t[i + n] == mid[n];
    } else {
      var n :| j <= n < |s| && s[n].live && p == (Off(s, n) + MARKER, s[n].size);
      SplicedAfter(s, i, j, mid, n);
    }
  }

  ghost function LiveIn(s: seq<Block>, a: nat, b: nat): set<(nat, nat)>
    requires b <= |s|
  {
    set i {:trigger Off(s, i)} | a <= i < b && s[i].live :: (Off(s, i) + MARKER, s[i].size)
  }
  ghost function MidLive(s: seq<Block>, i: nat, mid: seq<Block>): set<(nat, nat)>
    requires i <= |s|
  {
    set n {:trigger Off(mid, n)} | 0 <= n < |mid| && mid[n].live :: (Off(s, i) + Off(mid, n) + MARKER, mid[n].size)
  }

  // ----- adding a block at the end

  lemma AppendedTiled(m: seq<byte>, m': seq<byte>, s: seq<Block>, b: Block, end: nat)
    requires Tiled(m, s) && Off(s, |s|) == end && |m| == |m'| && OnlyIn(m, m', end, |m|) && HeaderAt(m', end, b)
    ensures Tiled(m', s + [b]) && Off(s + [b], |s| + 1) == end + MARKER + b.size
  {
    var t := s + [b];
    forall k {:trigger Off(t, k)} | 0 <= k <= |s|
      ensures Off(t, k) == Off(s, k)
    {
      assert t[..k] == s[..k];
      OffPrefix(s, t, k);
    }
    forall k {:trigger Off(t, k)} | 0 <= k < |t|
      ensures HeaderAt(m', Off(t, k), t[k])
    {
      if k < |s| {
        assert Off(t, k) == Off(s, k);
        OffMono(s, k, |s|);
        HeaderKept(m, m', end, |m|, Off(s, k), s[k]);
      } else {
        assert Off(t, |s|) == end;
      }
    }
    OffStep(t, |s|);
    assert Off(t, |s|) == end;
  }

  lemma AppendedLive(s: seq<Block>, b: Block)
    ensures Live(s + [b]) == Live(s) + if b.live then {(Off(s, |s|) + MARKER, b.size)} else {}
  {
    var t := s + [b];
    forall k | 0 <= k <= |s|
      ensures Off(t, k) == Off(s, k)
    {
      assert t[..k] == s[..k];
      OffPrefix(s, t, k);
    }
    forall p
      ensures p in Live(t) <==> p in Live(s) + if b.live then {(Off(s, |s|) + MARKER, b.size)} else {}
    {
      if p in Live(t) {
        var k :| 0 <= k < |t| && t[k].live && p == (Off(t, k) + MARKER, t[k].size);
        assert Off(t, k) == Off(s, k);
      }
      if p in Live(s) {
        var k :| 0 <= k < |s| && s[k].live && p == (Off(s, k) + MARKER, s[k].size);
        assert t[k] == s[k] && Off(t, k) == Off(s, k);
      }
      if b.live && p == (Off(s, |s|) + MARKER, b.size) {
        assert t[|s|] == b && Off(t, |s|) == Off(s, |s|);
      }
    }
  }

  // ----- header words, as buffer_ptr reads and writes them

  function SizeAt(heap: seq<byte>, p: nat): nat
    requires MARKER <= p <= |heap|
  {
    Load32(heap, p - MARKER) % ALLOC
  }
  predicate IsAlloc(heap: seq<byte>, p: nat)
    requires MARKER <= p <= |heap|
  {
    Load32(heap, p - MARKER) >= ALLOC
  }
  /** The state bit stays, or'ed with the size's own top bit. */
  function WithSize(heap: seq<byte>, p: nat, size: nat): seq<byte>
    requires MARKER <= p <= |heap| && size < B32
  {
    Store32(heap, p - MARKER, size % ALLOC + if IsAlloc(heap, p) || size >= ALLOC then ALLOC else 0)
  }
  /** The size stays. */
  function Marked(heap: seq<byte>, p: nat, live: bool): seq<byte>
    requires MARKER <= p <= |heap|
  {
    Store32(heap, p - MARKER, SizeAt(heap, p) + if live then ALLOC else 0)
  }

  /** What buffer_ptr reads of a block. */
  lemma Reads(heap: seq<byte>, at: nat, b: Block)
    requires HeaderAt(heap, at, b) && |heap| < ALLOC
    ensures SizeAt(heap, at + MARKER) == b.size && IsAlloc(heap, at + MARKER) == b.live
  {
  }

  /** A size and a mark written make a header, whatever was there before. */
  lemma Writes(heap: seq<byte>, at: nat, size: nat, live: bool)
    requires at + MARKER + size <= |heap| < ALLOC
    ensures var heap' := Marked(WithSize(heap, at + MARKER, size), at + MARKER, live);
      HeaderAt(heap', at, Block(size, live)) && OnlyIn(heap, heap', at, at + MARKER)
  {
    var h := WithSize(heap, at + MARKER, size);
    assert SizeAt(h, at + MARKER) == size;
  }

  /** A size written keeps the mark. */
  lemma WritesSize(heap: seq<byte>, at: nat, b: Block, size: nat)
    requires HeaderAt(heap, at, b) && at + MARKER + size <= |heap| < ALLOC
    ensures var heap' := WithSize(heap, at + MARKER, size);
      HeaderAt(heap', at, Block(size, b.live)) && OnlyIn(heap, heap', at, at + MARKER)
  {
    Reads(heap, at, b);
  }

  /** A mark written keeps the size. */
  lemma WritesMark(heap: seq<byte>, at: nat, b: Block, live: bool)
    requires HeaderAt(heap, at, b) && |heap| < ALLOC
    ensures var heap' := Marked(heap, at + MARKER, live);
      HeaderAt(heap', at, Block(b.size, live)) && OnlyIn(heap, heap', at, at + MARKER)
  {
    Reads(heap, at, b);
  }

  // ----- the heap

  /** A payload apart from all others, headers included, joins those handed out. */
  ghost predicate HandedOut(live: set<(nat, nat)>, live': set<(nat, nat)>, p: nat, size: nat) {
    live' == live + {(p, size)} && forall q :: q in live ==> q.0 + q.1 + MARKER <= p || p + size + MARKER <= q.0
  }

  ghost predicate Inv(heap: seq<byte>, offset: nat, blocks: seq<Block>) {
    && 0 < |heap| < ALLOC && |heap| % 8 == 0 && offset <= |heap|
    && Tiled(heap, blocks) && Sized(blocks) && Off(blocks, |blocks|) == offset
  }

  /** The payloads handed out hold the bytes they held. */
  ghost predicate ContentsKept(m: seq<byte>, m': seq<byte>, live: set<(nat, nat)>) {
    |m| == |m'| && forall q, x :: q in live && q.0 <= x < q.0 + q.1 && x < |m| ==> m'[x] == m[x]
  }

  class HeaderHeap {
    var heap: seq<byte>
    var offset: nat
    /** The address of `_heap` in memory. */
    const base: nat
    ghost var blocks: seq<Block>

    ghost predicate Valid()
      reads this
    {
      Inv(heap, offset, blocks)
    }

    constructor Init(address: nat, bytes: seq<byte>)
      requires |bytes| % 8 == 0 && 0 < |bytes| < ALLOC
      ensures Valid() && heap == bytes && base == address && offset == 0 && blocks == []
    {
      base, heap, offset, blocks := address, bytes, 0, [];
    }

    /** A new buffer_ptr with its state marked. */
    method WriteHeader(p: nat, size: nat, live: bool)
      requires MARKER <= p && p + size <= |heap| < ALLOC
      modifies this`heap
      ensures HeaderAt(heap, p - MARKER, Block(size, live)) && OnlyIn(old(heap), heap, p - MARKER, p)
    {
      Writes(heap, p - MARKER, size, live);
      heap := WithSize(heap, p, size);
      heap := Marked(heap, p, live);
    }

    /** buffer_ptr.size(val): the state bit stays. */
    method SetSize(p: nat, size: nat, ghost b: Block)
      requires MARKER <= p <= |heap| < ALLOC && size < B32 && HeaderAt(heap, p - MARKER, b)
      modifies this`heap
      ensures OnlyIn(old(heap), heap, p - MARKER, p)
      ensures p + size <= |heap| ==> HeaderAt(heap, p - MARKER, Block(size, b.live))
    {
      if p + size <= |heap| { WritesSize(heap, p - MARKER, b, size); }
      heap := WithSize(heap, p, size);
    }

    /** mark_alloc and mark_free: the size stays. */
    method Mark(p: nat, ghost b: Block, live: bool)
      requires MARKER <= p <= |heap| < ALLOC && HeaderAt(heap, p - MARKER, b)
      modifies this`heap
      ensures HeaderAt(heap, p - MARKER, Block(b.size, live)) && OnlyIn(old(heap), heap, p - MARKER, p)
    {
      WritesMark(heap, p - MARKER, b, live);
      heap := Marked(heap, p, live);
    }

    /** A block at the end of the heap.  Where the sum wraps around at 32 bits a block that
        does not fit is handed out; its header goes behind the heap if that is full. */
    method Malloc(size: nat) returns (p: nat)
      requires Valid() && size % 8 == 4 && size < B32
      modifies this
      ensures |heap| == |old(heap)| && ContentsKept(old(heap), heap, old(Live(blocks)))
      ensures Valid() && (p != 0 ==> p + size <= |heap|) <==> old(offset) + size + MARKER < B32
      ensures old(offset) + size + MARKER < B32 ==>
        && p == (if old(offset) + size + MARKER <= |heap| then old(offset) + MARKER else 0)
        && (p == 0 ==> heap == old(heap) && offset == old(offset) && blocks == old(blocks))
        && (p != 0 ==> offset == p + size && blocks == old(blocks) + [Block(size, true)])
        && (p != 0 ==> HandedOut(old(Live(blocks)), Live(blocks), p, size))
      ensures old(offset) + size + MARKER >= B32 ==>
        p == old(offset) + MARKER && offset == old(offset) + size + MARKER - B32
    {
      var usedUpSize := (offset + size + MARKER) % B32;
      Wrapped(offset, size, |heap|);
      if usedUpSize > |heap| {
        return 0;
      }
      p := offset + MARKER;
      if p <= |heap| { NewHeader(p, size, offset + size + MARKER < B32); }
      if offset + size + MARKER < B32 {
        blocks := blocks + [Block(size, true)];
      }
      offset := (offset + size + MARKER) % B32;
    }

    /** The header of a block at the end, for a size that fits or not. */
    method NewHeader(p: nat, size: nat, ghost fits: bool)
      requires Valid() && size % 8 == 4 && size < B32 && p == offset + MARKER <= |heap| && (fits ==> p + size <= |heap|)
      modifies this`heap
      ensures |heap| == |old(heap)| && ContentsKept(old(heap), heap, Live(blocks))
      ensures fits ==>
        && Inv(heap, p + size, blocks + [Block(size, true)])
        && HandedOut(Live(blocks), Live(blocks + [Block(size, true)]), p, size)
    {
      heap := Marked(WithSize(heap, p, size), p, true);
      Keeps(old(heap), heap, blocks, offset, p);
      if fits {
        Writes(old(heap), offset, size, true);
        Extended(old(heap), heap, offset, blocks, size, true);
        ExtendedLive(old(heap), heap, offset, blocks, size, true);
      }
    }

    /** What is left of the heap becomes one free block. */
    method CleanupRemaining()
      requires Valid()
      modifies this
      ensures Valid() && offset == |heap| == |old(heap)|
      ensures Live(blocks) == old(Live(blocks)) && ContentsKept(old(heap), heap, Live(blocks))
      ensures blocks == old(blocks) + if old(offset) == |heap| then [] else [Block(Rest(|heap|, old(offset)), false)]
    {
      if offset == |heap| {
        return;
      }
      OffAligned(blocks, |blocks|);
      Remaining(offset, |heap|);
      var size := Rest(|heap|, offset);
      WriteHeader(offset + MARKER, size, false);
      Extended(old(heap), heap, offset, blocks, size, false);
      ExtendedLive(old(heap), heap, offset, blocks, size, false);
      offset := |heap|;
      blocks := blocks + [Block(size, false)];
    }

    method ExpandMemory(address: nat, more: seq<byte>) returns (ok: bool)
      requires Valid() && |more| % 8 == 0 && ((base + |heap|) % B32 == address ==> |heap| + |more| < ALLOC)
      modifies this`heap
      ensures Valid() && ok == ((base + |old(heap)|) % B32 == address)
      ensures heap == if ok then old(heap) + more else old(heap)
    {
      ok := (base + |heap|) % B32 == address;
      if ok {
        forall k {:trigger Off(blocks, k)} | 0 <= k < |blocks|
          ensures HeaderAt(heap + more, Off(blocks, k), blocks[k])
        {
          HeaderGrown(heap, more, Off(blocks, k), blocks[k]);
        }
        heap := heap + more;
      }
    }

    method Free(p: nat, ghost i: nat)
      requires Valid() && i < |blocks| && blocks[i].live && p == Off(blocks, i) + MARKER
      modifies this
      ensures Valid() && offset == old(offset) && |heap| == |old(heap)|
      ensures blocks == old(blocks)[i := Block(old(blocks)[i].size, false)]
      ensures Live(blocks) == old(Live(blocks)) - {(p, old(blocks)[i].size)} &&
        ContentsKept(old(heap), heap, old(Live(blocks)))
    {
      BlockFits(heap, offset, blocks, i);
      Mark(p, blocks[i], false);
      Remarked(old(heap), heap, offset, blocks, i, false);
      HeaderKeeps(old(heap), heap, blocks, i);
      blocks := blocks[i := Block(blocks[i].size, false)];
    }

    /** The state and size in the header after k more blocks. */
    method Peek(q: nat, ghost i: nat, ghost k: nat) returns (live: bool, size: nat)
      requires Valid() && i + 1 + k <= |blocks| && q == Off(blocks, i + 1 + k) + MARKER && q < offset + MARKER
      ensures i + 1 + k < |blocks| && blocks[i + 1 + k] == Block(size, live) && q + size <= |heap|
    {
      NextHeader(heap, offset, blocks, i, k, q);
      live, size := IsAlloc(heap, q), SizeAt(heap, q);
    }

    /** The block after k more blocks, and what taking it over gives. */
    method NextFree(p: nat, possible: nat, needed: nat, ghost i: nat, ghost k: nat) returns (live: bool, size: nat)
      requires Valid() && i < |blocks| && p == Off(blocks, i) + MARKER && Bounded(|heap|, offset, blocks, i, needed)
      requires Taken(blocks, i, k, needed) && possible == Room(blocks, i, k) < needed && p + possible < |heap|
      ensures i + 1 + k < |blocks| && live == blocks[i + 1 + k].live
      ensures !live ==> Taken(blocks, i, k + 1, needed) && possible + size + MARKER == Room(blocks, i, k + 1)
    {
      InBlocks(|heap|, offset, blocks, i, k, needed);
      live, size := Peek(p + possible + MARKER, i, k);
      if !live { TakeOne(blocks, i, k, needed); }
    }

    /** How far the free blocks after block i reach, up to the room needed. */
    method FreeRun(p: nat, needed: nat, ghost i: nat) returns (possible: nat, ghost k: nat)
      requires Valid() && i < |blocks| && p == Off(blocks, i) + MARKER && Bounded(|heap|, offset, blocks, i, needed)
      ensures Run(blocks, i, k, needed) && possible == Room(blocks, i, k)
    {
      k := 0;
      BlockFits(heap, offset, blocks, i);
      Reads(heap, Off(blocks, i), blocks[i]);
      possible := SizeAt(heap, p);
      while possible < needed && p + possible < |heap|
        invariant Taken(blocks, i, k, needed) && possible == Room(blocks, i, k)
        decreases |heap| - possible
      {
        var live, size := NextFree(p, possible, needed, i, k);
        if live {
          break;
        }
        possible := possible + size + MARKER;
        k := k + 1;
      }
    }

    /** Take over the free blocks after block i until there is enough room; what is more
        than needed becomes a free block again. */
    method MergeContiguous(p: nat, needed: nat, allOrNothing: bool, ghost i: nat) returns (ok: bool, ghost k: nat)
      requires Valid() && needed % 8 == 4 && i < |blocks| && Bounded(|heap|, offset, blocks, i, needed)
      requires p == Off(blocks, i) + MARKER && (blocks[i].live ==> blocks[i].size <= needed)
      modifies this`heap, this`blocks
      ensures Valid() && ok == CanGrow(old(blocks), i, needed) && ContentsKept(old(heap), heap, old(Live(blocks)))
      ensures !ok && allOrNothing ==> heap == old(heap) && blocks == old(blocks)
      ensures ok || !allOrNothing ==>
        && Run(old(blocks), i, k, needed) && |heap| == |old(heap)|
        && blocks == Spliced(old(blocks), i, i + 1 + k, Mid(Room(old(blocks), i, k), needed, old(blocks)[i].live))
    {
      BlockFits(heap, offset, blocks, i);
      if allOrNothing && |heap| - p < needed {
        NoRoom(heap, offset, blocks, i, needed);
        return false, 0;
      }
      var possible: nat;
      possible, k := FreeRun(p, needed, i);
      RunDecides(blocks, i, k, needed);
      ok := possible >= needed;
      if allOrNothing && !ok {
        return;
      }
      Combine(p, possible, needed, i, k);
      MergeKeeps(old(heap), heap, old(blocks), i, k, needed);
    }

    method NextPtr(p: nat, ghost i: nat) returns (next: nat)
      requires Valid() && offset == |heap| && i < |blocks| && p == Off(blocks, i) + MARKER
      ensures next == if i + 1 < |blocks| then Off(blocks, i + 1) + MARKER else 0
    {
      BlockFits(heap, offset, blocks, i);
      Reads(heap, Off(blocks, i), blocks[i]);
      if i + 1 < |blocks| { BlockFits(heap, offset, blocks, i + 1); }
      next := p + SizeAt(heap, p) + MARKER;
      if next >= |heap| {
        next := 0;
      }
    }

    /** A block of the given size is marked as allocated. */
    method TakeMerged(p: nat, size: nat, ghost i: nat)
      requires Valid() && i < |blocks| && p == Off(blocks, i) + MARKER && blocks[i] == Block(size, false)
      modifies this`heap, this`blocks
      ensures Valid() && |heap| == |old(heap)| && HandedOut(old(Live(blocks)), Live(blocks), p, size)
      ensures ContentsKept(old(heap), heap, old(Live(blocks)))
    {
      BlockFits(heap, offset, blocks, i);
      NotLive(blocks, i, size);
      Mark(p, blocks[i], true);
      Remarked(old(heap), heap, offset, blocks, i, true);
      HeaderKeeps(old(heap), heap, blocks, i);
      blocks := blocks[i := Block(size, true)];
      forall q | q in old(Live(blocks))
        ensures q.0 + q.1 + MARKER <= p || p + size + MARKER <= q.0
      {
        LiveApart(blocks, (p, size), q);
      }
    }

    /** One block of the walk: a free one is merged with those after it, and taken if
        that makes enough room. */
    method Visit(current: nat, size: nat, ghost s0: seq<Block>, ghost m: nat, ghost i: nat)
        returns (found: bool, ghost k: nat)
      requires Valid() && offset == |heap| && size % 8 == 4
      requires Walk(s0, blocks, m, i, size) && i < |blocks| && current == Off(blocks, i) + MARKER
      modifies this`heap, this`blocks
      ensures Valid() && |heap| == |old(heap)| && ContentsKept(old(heap), heap, old(Live(blocks)))
      ensures found ==> FirstRun(s0, size, current) && HandedOut(Live(s0), Live(blocks), current, size)
      ensures !found ==> Walk(s0, blocks, m + 1 + k, i + 1, size) && Off(blocks, i) == Off(old(blocks), i)
    {
      k := 0;
      BlockFits(heap, offset, blocks, i);
      Reads(heap, Off(blocks, i), blocks[i]);
      if IsAlloc(heap, current) {
        WalkLive(s0, blocks, m, i, size);
        return false, 0;
      }
      ghost var s := blocks;
      found, k := MergeContiguous(current, size, false, i);
      RunDecides(s, i, k, size);
      if found {
        WalkFound(s0, s, m, i, k, size);
        TakeMerged(current, size, i);
      } else {
        WalkMerged(s0, s, m, i, k, size);
      }
    }

    /** One block of the walk, and where the next one is. */
    method VisitNext(current: nat, size: nat, ghost s0: seq<Block>, ghost m: nat, ghost i: nat)
        returns (found: bool, next: nat, ghost m': nat)
      requires Valid() && offset == |heap| && size % 8 == 4
      requires Walk(s0, blocks, m, i, size) && i < |blocks| && current == Off(blocks, i) + MARKER
      modifies this`heap, this`blocks
      ensures Valid() && |heap| == |old(heap)| && ContentsKept(old(heap), heap, old(Live(blocks)))
      ensures found ==> FirstRun(s0, size, current) && HandedOut(Live(s0), Live(blocks), current, size)
      ensures !found ==> m < m' && Walk(s0, blocks, m', i + 1, size)
      ensures !found ==> next == if i + 1 < |blocks| then Off(blocks, i + 1) + MARKER else 0
    {
      ghost var k;
      found, k := Visit(current, size, s0, m, i);
      next, m' := 0, m + 1 + k;
      if !found { next := NextPtr(current, i); }
    }

    /** First fit among the freed blocks of a heap that is full; neighbours are merged on
        the way.  Fails exactly when no run of adjacent free blocks has room. */
    method MallocFromFreed(size: nat) returns (checkFailed: bool, p: nat)
      requires Valid() && size % 8 == 4
      modifies this`heap, this`blocks
      ensures Valid() && |heap| == |old(heap)|
      ensures checkFailed == (offset != |heap|) && ContentsKept(old(heap), heap, old(Live(blocks)))
      ensures checkFailed ==> p == 0 && heap == old(heap) && blocks == old(blocks)
      ensures !checkFailed ==> (p != 0 <==> HasRun(old(blocks), size))
      ensures p == 0 ==> Live(blocks) == old(Live(blocks))
      ensures p != 0 ==> HandedOut(old(Live(blocks)), Live(blocks), p, size) && FirstRun(old(blocks), size, p)
    {
      if offset != |heap| {
        return true, 0;
      }
      checkFailed := false;
      ghost var s0, m: nat, i: nat := blocks, 0, 0;
      p := MARKER;
      while p != 0
        invariant Valid() && |heap| == |old(heap)| && Walk(s0, blocks, m, i, size) &&
          ContentsKept(old(heap), heap, Live(s0))
        invariant offset == |heap| && p == if i < |blocks| then Off(blocks, i) + MARKER else 0
        decreases |s0| - m
      {
        var found, next;
        found, next, m := VisitNext(p, size, s0, m, i);
        if found {
          return;
        }
        p, i := next, i + 1;
      }
      WalkDone(s0, blocks, m, i, size);
    }

    /** Write the header of the merged block, and that of what is left over. */
    method Combine(p: nat, possible: nat, needed: nat, ghost i: nat, ghost k: nat)
      requires Valid() && i + 1 + k <= |blocks| && p == Off(blocks, i) + MARKER && possible == Room(blocks, i, k)
      requires needed % 8 == 4
      modifies this`heap, this`blocks
      ensures Valid() && |heap| == |old(heap)|
      ensures blocks == Spliced(old(blocks), i, i + 1 + k, Mid(possible, needed, old(blocks)[i].live))
      ensures OnlyIn(old(heap), heap, Off(old(blocks), i), Off(old(blocks), i + 1 + k))
      ensures SameBytes(old(heap), heap, p, if possible < needed then possible else needed)
    {
      RoomFits(heap, offset, blocks, i, k, needed);
      var newSize := if possible < needed then possible else needed;
      SetSize(p, newSize, blocks[i]);
      if possible > needed {
        WriteHeader(p + needed + MARKER, possible - needed - MARKER, false);
      }
      Combined(old(heap), heap, offset, blocks, i, k, needed);
      blocks := Spliced(blocks, i, i + 1 + k, Mid(possible, needed, blocks[i].live));
    }

    /** The last block gets a new size, whether or not the heap has room for it. */
    method GrowLast(p: nat, size: nat, ghost i: nat)
      requires Valid() && i + 1 == |blocks| && blocks[i].live && p == Off(blocks, i) + MARKER
      requires size % 8 == 4 && blocks[i].size <= size < B32
      modifies this
      ensures |heap| == |old(heap)| && offset == (p + size) % B32
      ensures ContentsKept(old(heap), heap, old(Live(blocks)))
      ensures p + size <= |heap| ==>
        && Valid() && offset == p + size && blocks == old(blocks)[i := Block(size, true)]
        && Live(blocks) == old(Live(blocks)) - {(p, old(blocks)[i].size)} + {(p, size)}
    {
      BlockFits(heap, offset, blocks, i);
      Reads(heap, Off(blocks, i), blocks[i]);
      var origSize := SizeAt(heap, p);
      SetSize(p, size, blocks[i]);
      HeaderKeeps(old(heap), heap, blocks, i);
      if p + size <= |heap| { LastGrown(old(heap), heap, offset, blocks, size); }
      NewOffset(offset, size, origSize, p, |heap|);
      offset := (offset + size - origSize) % B32;
      blocks := blocks[i := Block(size, true)];
    }

    /** Growing by taking over free blocks: all or nothing. */
    method GrowMerge(p: nat, size: nat, ghost i: nat) returns (ok: bool)
      requires Valid() && i < |blocks| && blocks[i].live && p == Off(blocks, i) + MARKER
      requires Bounded(|heap|, offset, blocks, i, size)
      requires size % 8 == 4 && blocks[i].size <= size
      modifies this`heap, this`blocks
      ensures Valid() && |heap| == |old(heap)| && ok == CanGrow(old(blocks), i, size)
      ensures !ok ==> heap == old(heap) && blocks == old(blocks)
      ensures ok ==> Live(blocks) == old(Live(blocks)) - {(p, old(blocks)[i].size)} + {(p, size)}
      ensures ContentsKept(old(heap), heap, old(Live(blocks)))
    {
      ghost var s, k := blocks, 0;
      ok, k := MergeContiguous(p, size, true, i);
      if ok {
        RunDecides(s, i, k, size);
        MergedGrown(s, i, k, size);
        MergedLive(s, i, k, size);
        MarkAgain(p, i, s);
      }
    }

    /** mark_alloc on a block that is allocated. */
    method MarkAgain(p: nat, ghost i: nat, ghost s: seq<Block>)
      requires Valid() && i < |blocks| && blocks[i].live && p == Off(blocks, i) + MARKER
      requires i < |s| && Off(s, i) == Off(blocks, i)
      modifies this`heap
      ensures Valid() && |heap| == |old(heap)| && ContentsKept(old(heap), heap, Live(s))
    {
      BlockFits(heap, offset, blocks, i);
      Mark(p, blocks[i], true);
      HeaderKeeps(old(heap), heap, s, i);
      Remarked(old(heap), heap, offset, blocks, i, true);
      assert blocks[i := Block(blocks[i].size, true)] == blocks;
    }

    /** Shrinking writes a header for the excess inside the block, whose own header
        stays: nothing is given back. */
    method Shrink(p: nat, size: nat, ghost i: nat)
      requires Valid() && i < |blocks| && p == Off(blocks, i) + MARKER && size + 8 <= blocks[i].size
      modifies this`heap
      ensures Valid() && OnlyIn(old(heap), heap, p + size, p + size + MARKER)
    {
      BlockFits(heap, offset, blocks, i);
      Reads(heap, Off(blocks, i), blocks[i]);
      var excess := p + size + MARKER;
      ExcessWritten(heap, excess, SizeAt(heap, p) - size);
      heap := Marked(WithSize(heap, excess, SizeAt(heap, p) - size), excess, false);
      PayloadWritten(old(heap), heap, offset, blocks, i);
    }

    /** Addresses have 32 bits.  For a size above the end of the heap the comparison wraps
        around: the last block is then said to have grown, past the end of the heap, and
        every other block is still answered rightly. */
    method ReallocInPlace(p: nat, size: nat, ghost i: nat) returns (q: nat, origSize: nat)
      requires Valid() && i < |blocks| && blocks[i].live && p == Off(blocks, i) + MARKER
      requires size % 8 == 4 && size < B32 && base + |heap| < B32
      requires i + 1 == |blocks| || size <= blocks[i].size || Bounded(|heap|, offset, blocks, i, size)
      modifies this
      ensures |heap| == |old(heap)| && origSize == old(blocks)[i].size
      ensures ContentsKept(old(heap), heap, old(Live(blocks)) - {(p, origSize)})
      ensures SameBytes(old(heap), heap, p, if size < origSize then size else origSize)
      ensures Valid() && (q != 0 ==> p + size <= |heap|) <==> size <= base + |heap| || i + 1 < |old(blocks)|
      ensures size <= base + |heap| || i + 1 < |old(blocks)| ==>
        && q == (if FitsInPlace(old(blocks), i, size, |heap|) then p else 0)
        && (q == 0 || size < origSize ==> blocks == old(blocks) && offset == old(offset))
        && (q != 0 && size >= origSize ==> Live(blocks) == old(Live(blocks)) - {(p, origSize)} + {(p, size)})
      ensures !(size <= base + |heap| || i + 1 < |old(blocks)|) ==> q == p && offset == (p + size) % B32
    {
      BlockFits(heap, offset, blocks, i);
      Reads(heap, Off(blocks, i), blocks[i]);
      LiveAt(blocks, i);
      origSize := SizeAt(heap, p);
      TooHighWhen(base, |heap|, p, size);
      if TooHigh(base, |heap|, p, size) {
        return 0, origSize;
      }
      if origSize > size {
        Multiple4(origSize, size);
        Shrink(p, size, i);
        ShrinkKeeps(old(heap), heap, blocks, i, size);
        q := p;
      } else if p + origSize == offset {
        LastBlock(heap, offset, blocks, i);
        GrowLast(p, size, i);
        q := p;
      } else if size == origSize {
        q := p;
      } else {
        if p + size > |heap| { NoRoom(heap, offset, blocks, i, size); }
        var ok := GrowMerge(p, size, i);
        q := if ok then p else 0;
      }
    }
  }

  lemma NewOffset(offset: nat, size: nat, origSize: nat, p: nat, len: nat)
    requires p + origSize == offset && origSize <= size && len < B32
    ensures (offset + size - origSize) % B32 == (p + size) % B32
    ensures p + size <= len ==> (p + size) % B32 == p + size
  {
  }

  /** What the wrapped sum says. */
  lemma Wrapped(offset: nat, size: nat, len: nat)
    requires offset <= len < ALLOC && size < B32 && size % 8 == 4
    ensures offset + size + MARKER < B32 ==> (offset + size + MARKER) % B32 == offset + size + MARKER
    ensures offset + size + MARKER >= B32 ==> (offset + size + MARKER) % B32 == offset + size + MARKER - B32 <= offset
  {
  }

  /** An empty heap hands out 2^32 - 4 bytes, and stays empty. */
  method HandsOutNothing() returns (h: HeaderHeap, p: nat)
    ensures fresh(h) && p == 4 && h.offset == 0 && |h.heap| == 0x2000
  {
    h := new HeaderHeap.Init(0x4000, seq(0x2000, i => 0));
    p := h.Malloc(0xFFFF_FFFC);
  }

  /** `ptr > end_of_buffer - size`, on addresses of 32 bits. */
  predicate TooHigh(base: nat, len: nat, p: nat, size: nat) { base + p > (base + len - size) % B32 }

  /** The comparison tells whether the size fits, unless it exceeds the address of the
      heap's end; then it never holds. */
  lemma TooHighWhen(base: nat, len: nat, p: nat, size: nat)
    requires p <= len && base + len < B32 && size < B32
    ensures TooHigh(base, len, p, size) <==> size <= base + len && p + size > len
  {
    if size > base + len {
      assert (base + len - size) % B32 == base + len - size + B32;
    }
  }

  /** A heap of 8 KiB at 0x4000 that holds one block: it is said to have grown to 64 KiB. */
  method GrowsPastEnd() returns (h: HeaderHeap)
    ensures fresh(h) && !h.Valid() && h.offset == 0x1_0008 && |h.heap| == 0x2000
  {
    h := new HeaderHeap.Init(0x4000, seq(0x2000, i => 0));
    var p := h.Malloc(12);
    var q, origSize := h.ReallocInPlace(p, 0x1_0004, 0);
  }

  /** No payload handed out meets the range [lo, hi). */
  ghost predicate Outside(live: set<(nat, nat)>, lo: nat, hi: nat) {
    forall q :: q in live ==> q.0 + q.1 <= lo || hi <= q.0
  }

  lemma OutsideKept(m: seq<byte>, m': seq<byte>, live: set<(nat, nat)>, lo: nat, hi: nat)
    requires OnlyIn(m, m', lo, hi) && Outside(live, lo, hi)
    ensures ContentsKept(m, m', live)
  {
  }

  /** A write behind the last block. */
  lemma Keeps(m: seq<byte>, m': seq<byte>, s: seq<Block>, lo: nat, hi: nat)
    requires OnlyIn(m, m', lo, hi) && Off(s, |s|) == lo <= hi
    ensures ContentsKept(m, m', Live(s)) && forall q :: q in Live(s) ==> q.0 + q.1 <= lo
  {
    forall q | q in Live(s)
      ensures q.0 + q.1 <= lo
    {
      var k :| 0 <= k < |s| && s[k].live && q == (Off(s, k) + MARKER, s[k].size);
      OffMono(s, k, |s|);
    }
    OutsideKept(m, m', Live(s), lo, hi);
  }

  /** A write of one header. */
  lemma HeaderKeeps(m: seq<byte>, m': seq<byte>, s: seq<Block>, i: nat)
    requires i < |s| && OnlyIn(m, m', Off(s, i), Off(s, i) + MARKER)
    ensures ContentsKept(m, m', Live(s))
  {
    forall q | q in Live(s)
      ensures q.0 + q.1 <= Off(s, i) || Off(s, i) + MARKER <= q.0
    {
      var k :| 0 <= k < |s| && s[k].live && q == (Off(s, k) + MARKER, s[k].size);
      if k < i { OffMono(s, k, i); }
      if i < k { OffMono(s, i, k); }
    }
    OutsideKept(m, m', Live(s), Off(s, i), Off(s, i) + MARKER);
  }

  /** Payload bytes in what is left. */
  function Rest(size: nat, offset: nat): nat { if offset + MARKER <= size then size - offset - MARKER else 0 }

  lemma Remaining(offset: nat, size: nat)
    requires offset < size && offset % 8 == 0 && size % 8 == 0
    ensures Rest(size, offset) % 8 == 4 && offset + MARKER + Rest(size, offset) == size
  {
  }

  /** A block is cut from the end of the heap. */
  lemma Extended(heap: seq<byte>, heap': seq<byte>, offset: nat, s: seq<Block>, size: nat, live: bool)
    requires Inv(heap, offset, s) && size % 8 == 4 && offset + MARKER + size <= |heap|
    requires HeaderAt(heap', offset, Block(size, live)) && OnlyIn(heap, heap', offset, offset + MARKER)
    ensures Inv(heap', offset + MARKER + size, s + [Block(size, live)])
  {
    AppendedTiled(heap, heap', s, Block(size, live), offset);
  }

  lemma ExtendedLive(heap: seq<byte>, heap': seq<byte>, offset: nat, s: seq<Block>, size: nat, live: bool)
    requires Off(s, |s|) == offset && OnlyIn(heap, heap', offset, offset + MARKER)
    ensures ContentsKept(heap, heap', Live(s))
    ensures live ==> HandedOut(Live(s), Live(s + [Block(size, live)]), offset + MARKER, size)
    ensures !live ==> Live(s + [Block(size, live)]) == Live(s)
  {
    AppendedLive(s, Block(size, live));
    Keeps(heap, heap', s, offset, offset + MARKER);
  }

  lemma BlockFits(heap: seq<byte>, offset: nat, s: seq<Block>, i: nat)
    requires Inv(heap, offset, s) && i < |s|
    ensures HeaderAt(heap, Off(s, i), s[i]) && Off(s, i) + MARKER + s[i].size ==
      Off(s, i + 1) <= offset <= |heap| < ALLOC
    ensures i + 1 < |s| ==> Off(s, i + 1) < offset
    ensures i + 1 == |s| ==> Off(s, i + 1) == offset
  {
    OffStep(s, i);
    if i + 1 < |s| { OffMono(s, i + 1, |s|); }
  }

  // ----- merging a block with the free blocks after it

  /** Payload bytes of block i merged with the k blocks after it. */
  function Room(s: seq<Block>, i: nat, k: nat): nat
    requires i + 1 + k <= |s|
  {
    OffMono(s, i, i + 1 + k);
    Off(s, i + 1 + k) - Off(s, i) - MARKER
  }

  /** The blocks the merging loop takes over: the free ones after block i, until there is
      enough room. */
  ghost predicate Run(s: seq<Block>, i: nat, k: nat, needed: nat) {
    && i + 1 + k <= |s| && AllFree(s, i + 1, i + 1 + k)
    && (k > 0 ==> Room(s, i, k - 1) < needed)
    && (Room(s, i, k) < needed && i + 1 + k < |s| ==> s[i + 1 + k].live)
  }

  /** Block i and free blocks after it have room. */
  ghost predicate CanGrow(s: seq<Block>, i: nat, needed: nat) {
    exists k: nat :: i + 1 + k <= |s| && AllFree(s, i + 1, i + 1 + k) && Room(s, i, k) >= needed
  }

  lemma RoomMono(s: seq<Block>, i: nat, k: nat, l: nat)
    requires k <= l && i + 1 + l <= |s|
    ensures Room(s, i, k) <= Room(s, i, l)
  {
    if k < l { OffMono(s, i + 1 + k, i + 1 + l); }
  }

  /** The blocks taken over so far. */
  ghost predicate Taken(s: seq<Block>, i: nat, k: nat, needed: nat) {
    i + 1 + k <= |s| && AllFree(s, i + 1, i + 1 + k) && (k > 0 ==> Room(s, i, k - 1) < needed)
  }

  /** The merging loop stops among the blocks: the heap is full, or a live block or enough
      room comes before their end. */
  ghost predicate Bounded(len: nat, offset: nat, s: seq<Block>, i: nat, needed: nat)
    requires i < |s|
  {
    offset == len || !AllFree(s, i + 1, |s|) || Room(s, i, |s| - i - 1) >= needed
  }

  lemma InBlocks(len: nat, offset: nat, s: seq<Block>, i: nat, k: nat, needed: nat)
    requires i < |s| && Bounded(len, offset, s, i, needed) && Taken(s, i, k, needed) && Room(s, i, k) < needed
    requires Off(s, |s|) == offset && Off(s, i) + MARKER + Room(s, i, k) < len
    ensures i + 1 + k < |s| && Off(s, i) + MARKER + Room(s, i, k) < offset
  {
    if i + 1 + k < |s| { OffMono(s, i + 1 + k, |s|); }
  }

  /** What the merging loop reads after k blocks. */
  lemma NextHeader(heap: seq<byte>, offset: nat, s: seq<Block>, i: nat, k: nat, q: nat)
    requires Inv(heap, offset, s) && i + 1 + k <= |s| && q == Off(s, i + 1 + k) + MARKER && q < offset + MARKER
    ensures i + 1 + k < |s| && q + s[i + 1 + k].size <= |heap|
    ensures SizeAt(heap, q) == s[i + 1 + k].size && IsAlloc(heap, q) == s[i + 1 + k].live
  {
    BlockFits(heap, offset, s, i + 1 + k);
    Reads(heap, Off(s, i + 1 + k), s[i + 1 + k]);
  }

  /** One more free block is taken over. */
  lemma TakeOne(s: seq<Block>, i: nat, k: nat, needed: nat)
    requires Taken(s, i, k, needed) && i + 1 + k < |s| && !s[i + 1 + k].live && Room(s, i, k) < needed
    ensures Taken(s, i, k + 1, needed) && Room(s, i, k + 1) == Room(s, i, k) + s[i + 1 + k].size + MARKER
  {
    OffStep(s, i + 1 + k);
  }

  lemma Multiples(a: nat, b: nat, needed: nat)
    requires a % 8 == 0 && b % 8 == 0 && needed % 8 == 4 && a + MARKER <= b
    ensures (b - a - MARKER) % 8 == 4
    ensures b - a - MARKER > needed ==> b - a - MARKER >= needed + 8 && (b - a - MARKER - needed - MARKER) % 8 == 4
  {
  }

  lemma RoomFits(heap: seq<byte>, offset: nat, s: seq<Block>, i: nat, k: nat, needed: nat)
    requires Inv(heap, offset, s) && i + 1 + k <= |s| && needed % 8 == 4
    ensures HeaderAt(heap, Off(s, i), s[i]) && Off(s, i) + MARKER <= Off(s, i + 1 + k) <= offset <= |heap| < ALLOC
    ensures var room := Room(s, i, k);
      room % 8 == 4 && (room > needed ==> room >= needed + 8 && (room - needed - MARKER) % 8 == 4)
  {
    BlockFits(heap, offset, s, i);
    BlockFits(heap, offset, s, i + k);
    RoomMono(s, i, 0, k);
    OffAligned(s, i);
    OffAligned(s, i + 1 + k);
    Multiples(Off(s, i), Off(s, i + 1 + k), needed);
  }

  /** The headers written by a merge. */
  lemma Combined(heap: seq<byte>, heap': seq<byte>, offset: nat, s: seq<Block>, i: nat, k: nat, needed: nat)
    requires Inv(heap, offset, s) && i + 1 + k <= |s| && needed % 8 == 4 && Room(s, i, k) >= 0
    requires var room := Room(s, i, k); var at := Off(s, i);
      && HeaderAt(heap', at, Block(if room < needed then room else needed, s[i].live))
      && (room > needed ==>
        room >= needed + MARKER && HeaderAt(heap', at + MARKER + needed, Block(room - needed - MARKER, false)))
      && OnlyIn(heap, heap', at, Off(s, i + 1 + k))
    ensures Inv(heap', offset, Spliced(s, i, i + 1 + k, Mid(Room(s, i, k), needed, s[i].live)))
  {
    RoomFits(heap, offset, s, i, k, needed);
    var mid := Mid(Room(s, i, k), needed, s[i].live);
    MidFills(s, i, k, needed);
    SplicedInv(heap, heap', offset, s, i, i + 1 + k, mid);
  }

  lemma MidFills(s: seq<Block>, i: nat, k: nat, needed: nat)
    requires i + 1 + k <= |s|
    ensures var mid := Mid(Room(s, i, k), needed, s[i].live);
      Fills(s, i, i + 1 + k, mid) && Off(mid, 0) == 0 && (|mid| == 2 ==> Off(mid, 1) == MARKER + needed)
  {
    var mid := Mid(Room(s, i, k), needed, s[i].live);
    OffMono(s, i, i + 1 + k);
    OffStep(mid, 0);
    if |mid| == 2 { OffStep(mid, 1); }
  }

  /** Merging free blocks moves no block that is handed out; merging into a block in use
      changes that one's size. */
  lemma MergedLive(s: seq<Block>, i: nat, k: nat, needed: nat)
    requires i + 1 + k <= |s| && AllFree(s, i + 1, i + 1 + k)
    ensures var mid := Mid(Room(s, i, k), needed, s[i].live);
      var t, p := Spliced(s, i, i + 1 + k, mid), Off(s, i) + MARKER;
      Live(t) == if s[i].live then Live(s) - {(p, s[i].size)} + {(p, mid[0].size)} else Live(s)
  {
    var mid, p := Mid(Room(s, i, k), needed, s[i].live), Off(s, i) + MARKER;
    MidFills(s, i, k, needed);
    SplicedLive(s, i, i + 1 + k, mid);
    LiveSplit(s, i, i + 1 + k);
    OneLive(s, i, k);
    MidOneLive(s, i, mid);
    if s[i].live { NotElsewhere(s, i, i + 1 + k); }
  }

  lemma MergeKeeps(m: seq<byte>, m': seq<byte>, s: seq<Block>, i: nat, k: nat, needed: nat)
    requires i + 1 + k <= |s| && AllFree(s, i + 1, i + 1 + k) && OnlyIn(m, m', Off(s, i), Off(s, i + 1 + k))
    requires SameBytes(m, m', Off(s, i) + MARKER, if Room(s, i, k) < needed then Room(s, i, k) else needed)
    requires s[i].live ==> s[i].size <= needed
    ensures ContentsKept(m, m', Live(s))
  {
    OffStep(s, i);
    RoomMono(s, i, 0, k);
    forall q | q in Live(s)
      ensures SameBytes(m, m', q.0, q.1)
    {
      var n :| 0 <= n < |s| && s[n].live && q == (Off(s, n) + MARKER, s[n].size);
      if n < i { OffMono(s, n, i); }
      if i + 1 + k < n { OffMono(s, i + 1 + k, n); }
    }
  }

  /** A block with room takes exactly the size needed. */
  lemma MergedGrown(s: seq<Block>, i: nat, k: nat, needed: nat)
    requires i + 1 + k <= |s| && Sized(s) && needed % 8 == 4 && Room(s, i, k) >= needed
    ensures var mid := Mid(Room(s, i, k), needed, s[i].live);
      var t := Spliced(s, i, i + 1 + k, mid);
      mid[0] == t[i] == Block(needed, s[i].live) && Off(t, i) == Off(s, i)
  {
    MidFills(s, i, k, needed);
    SplicedBefore(s, i, i + 1 + k, Mid(Room(s, i, k), needed, s[i].live), i);
    OffAligned(s, i);
    OffAligned(s, i + 1 + k);
    OffMono(s, i, i + 1 + k);
    Multiples(Off(s, i), Off(s, i + 1 + k), needed);
  }

  /** The last block gets a new size. */
  lemma LastGrown(heap: seq<byte>, heap': seq<byte>, offset: nat, s: seq<Block>, size: nat)
    requires Inv(heap, offset, s) && s != [] && s[|s| - 1].live && size % 8 == 4
    requires var at := Off(s, |s| - 1);
      at + MARKER + size <= |heap| && HeaderAt(heap', at, Block(size, true)) && OnlyIn(heap, heap', at, at + MARKER)
    ensures var i := |s| - 1; var t, p := s[i := Block(size, true)], Off(s, i) + MARKER;
      Inv(heap', p + size, t) && Live(t) == Live(s) - {(p, s[i].size)} + {(p, size)}
  {
    var i := |s| - 1;
    var rest, b := s[..i], Block(size, true);
    assert s == rest + [s[i]] && s[i := b] == rest + [b];
    forall k {:trigger Off(rest, k)} | 0 <= k <= i
      ensures Off(rest, k) == Off(s, k)
    {
      assert rest[..k] == s[..k];
      OffPrefix(rest, s, k);
    }
    assert Off(rest, |rest|) == Off(s, i);
    BlockFits(heap, offset, s, i);
    RestTiled(heap, s, i);
    Extended(heap, heap', Off(s, i), rest, size, true);
    AppendedLive(rest, b);
    AppendedLive(rest, s[i]);
    Keeps(heap, heap, rest, Off(s, i), Off(s, i));
  }

  lemma RestTiled(heap: seq<byte>, s: seq<Block>, i: nat)
    requires Tiled(heap, s) && i <= |s|
    ensures Tiled(heap, s[..i])
  {
    var rest := s[..i];
    forall k {:trigger Off(rest, k)} | 0 <= k < i
      ensures HeaderAt(heap, Off(rest, k), rest[k])
    {
      assert rest[..k] == s[..k];
      OffPrefix(rest, s, k);
    }
  }

  /** A block can be given a new size where it is: a smaller one always, a larger one if
      it is the last block, or free blocks after it have room. */
  ghost predicate FitsInPlace(s: seq<Block>, i: nat, size: nat, heapSize: nat)
    requires i < |s|
  {
    Off(s, i) + MARKER + size <= heapSize && (size <= s[i].size || i + 1 == |s| || CanGrow(s, i, size))
  }

  lemma ExcessWritten(heap: seq<byte>, q: nat, size: nat)
    requires MARKER <= q <= |heap| && size < ALLOC
    ensures OnlyIn(heap, Marked(WithSize(heap, q, size), q, false), q - MARKER, q)
  {
  }

  lemma Multiple4(a: nat, b: nat)
    requires a % 8 == 4 && b % 8 == 4 && b < a
    ensures b + 8 <= a
  {
  }

  lemma LiveAt(s: seq<Block>, i: nat)
    requires i < |s| && s[i].live
    ensures (Off(s, i) + MARKER, s[i].size) in Live(s)
  {
    assert Off(s, i) == Off(s, i);
  }

  lemma LastBlock(heap: seq<byte>, offset: nat, s: seq<Block>, i: nat)
    requires Inv(heap, offset, s) && i < |s| && Off(s, i) + MARKER + s[i].size == offset
    ensures i + 1 == |s|
  {
    BlockFits(heap, offset, s, i);
  }

  lemma ShrinkKeeps(m: seq<byte>, m': seq<byte>, s: seq<Block>, i: nat, size: nat)
    requires i < |s| && s[i].live && size + MARKER <= s[i].size
    requires var p := Off(s, i) + MARKER; OnlyIn(m, m', p + size, p + size + MARKER)
    ensures var p := Off(s, i) + MARKER; ContentsKept(m, m', Live(s) - {(p, s[i].size)}) && SameBytes(m, m', p, size)
  {
    var p := Off(s, i) + MARKER;
    LiveAt(s, i);
    forall q | q in Live(s) - {(p, s[i].size)}
      ensures q.0 + q.1 <= p + size || p + size + MARKER <= q.0
    {
      LiveApart(s, q, (p, s[i].size));
    }
    OutsideKept(m, m', Live(s) - {(p, s[i].size)}, p + size, p + size + MARKER);
  }

  lemma LiveSplit(s: seq<Block>, i: nat, j: nat)
    requires i <= j <= |s|
    ensures Live(s) == LiveIn(s, 0, i) + LiveIn(s, i, j) + LiveIn(s, j, |s|)
  {
    forall q | q in Live(s)
      ensures q in LiveIn(s, 0, i) + LiveIn(s, i, j) + LiveIn(s, j, |s|)
    {
      var k :| 0 <= k < |s| && s[k].live && q == (Off(s, k) + MARKER, s[k].size);
      assert k < i ==> q in LiveIn(s, 0, i);
      assert i <= k < j ==> q in LiveIn(s, i, j);
    }
  }

  lemma OneLive(s: seq<Block>, i: nat, k: nat)
    requires i + 1 + k <= |s| && AllFree(s, i + 1, i + 1 + k)
    ensures LiveIn(s, i, i + 1 + k) == if s[i].live then {(Off(s, i) + MARKER, s[i].size)} else {}
  {
    if s[i].live { assert (Off(s, i) + MARKER, s[i].size) in LiveIn(s, i, i + 1 + k); }
  }

  lemma MidOneLive(s: seq<Block>, i: nat, mid: seq<Block>)
    requires i <= |s| && 1 <= |mid| && forall n :: 1 <= n < |mid| ==> !mid[n].live
    ensures MidLive(s, i, mid) == if mid[0].live then {(Off(s, i) + MARKER, mid[0].size)} else {}
  {
    OffStep(mid, 0);
    if mid[0].live { assert (Off(s, i) + Off(mid, 0) + MARKER, mid[0].size) in MidLive(s, i, mid); }
  }

  lemma NotElsewhere(s: seq<Block>, i: nat, j: nat)
    requires i < j <= |s|
    ensures (Off(s, i) + MARKER, s[i].size) !in LiveIn(s, 0, i) + LiveIn(s, j, |s|)
  {
    var q := (Off(s, i) + MARKER, s[i].size);
    if q in LiveIn(s, 0, i) {
      var k :| 0 <= k < i && s[k].live && q == (Off(s, k) + MARKER, s[k].size);
      OffMono(s, k, i);
    }
    if q in LiveIn(s, j, |s|) {
      var k :| j <= k < |s| && s[k].live && q == (Off(s, k) + MARKER, s[k].size);
      OffMono(s, i, k);
    }
  }

  /** Payloads handed out do not overlap, headers included. */
  lemma LiveApart(s: seq<Block>, p: (nat, nat), q: (nat, nat))
    requires p in Live(s) && q in Live(s) && p != q
    ensures p.0 + p.1 + MARKER <= q.0 || q.0 + q.1 + MARKER <= p.0
  {
    var i :| 0 <= i < |s| && s[i].live && p == (Off(s, i) + MARKER, s[i].size);
    var j :| 0 <= j < |s| && s[j].live && q == (Off(s, j) + MARKER, s[j].size);
    if i < j { OffMono(s, i, j); }
    if j < i { OffMono(s, j, i); }
  }

  /** What the program writes inside its own block leaves the heap tiled as it was. */
  lemma PayloadWritten(heap: seq<byte>, heap': seq<byte>, offset: nat, s: seq<Block>, i: nat)
    requires Inv(heap, offset, s) && i < |s|
    requires OnlyIn(heap, heap', Off(s, i) + MARKER, Off(s, i) + MARKER + s[i].size)
    ensures Inv(heap', offset, s)
  {
    forall k {:trigger Off(s, k)} | 0 <= k < |s|
      ensures HeaderAt(heap', Off(s, k), s[k])
    {
      if k < i { OffMono(s, k, i); }
      if i < k { OffMono(s, i, k); }
      HeaderKept(heap, heap', Off(s, i) + MARKER, Off(s, i) + MARKER + s[i].size, Off(s, k), s[k]);
    }
  }

  lemma NotLive(s: seq<Block>, i: nat, size: nat)
    requires i < |s| && !s[i].live
    ensures (Off(s, i) + MARKER, size) !in Live(s)
  {
    if (Off(s, i) + MARKER, size) in Live(s) {
      var k :| 0 <= k < |s| && s[k].live && (Off(s, i) + MARKER, size) == (Off(s, k) + MARKER, s[k].size);
      if k < i { OffMono(s, k, i); }
      if i < k { OffMono(s, i, k); }
    }
  }

  // ----- the walk over a full heap

  ghost predicate FitsAt(s: seq<Block>, a: nat, needed: nat) {
    a < |s| && !s[a].live && CanGrow(s, a, needed)
  }

  /** Some run of adjacent free blocks has room. */
  ghost predicate HasRun(s: seq<Block>, needed: nat) {
    exists a :: FitsAt(s, a, needed)
  }

  /** The first of those runs starts with the payload at p. */
  ghost predicate FirstRun(s: seq<Block>, needed: nat, p: nat) {
    exists m :: FitsAt(s, m, needed) && p == Off(s, m) + MARKER && NoneBefore(s, m, needed)
  }

  ghost predicate NoneBefore(s: seq<Block>, m: nat, needed: nat) { forall a: nat :: a < m ==> !FitsAt(s, a, needed) }

  /** At block i, with all before it seen: the blocks from here on are those of the
      original list from m on, and no run of the original list starting before m has room. */
  ghost predicate Walk(s0: seq<Block>, s: seq<Block>, m: nat, i: nat, needed: nat) {
    && m <= |s0| && i <= |s| && s[i..] == s0[m..] && Off(s, i) == Off(s0, m)
    && (forall a :: 0 <= a < m ==> !FitsAt(s0, a, needed))
    && Live(s) == Live(s0)
  }

  /** k blocks further on. */
  lemma Ahead(s0: seq<Block>, s: seq<Block>, m: nat, i: nat, k: nat)
    requires m <= |s0| && i <= |s| && s[i..] == s0[m..] && Off(s, i) == Off(s0, m) && i + k <= |s|
    ensures m + k <= |s0| && Off(s, i + k) == Off(s0, m + k) && s[i + k..] == s0[m + k..]
    ensures i + k < |s| ==> m + k < |s0| && s[i + k] == s0[m + k]
    ensures i + k == |s| ==> m + k == |s0|
  {
    assert |s| - i == |s0| - m;
    assert s[i..i + k] == s[i..][..k] == s0[m..][..k] == s0[m..m + k];
    OffTail(s, s0, i, m, k);
    assert s[i + k..] == s[i..][k..] == s0[m..][k..] == s0[m + k..];
    if i + k < |s| { assert s[i + k] == s[i..][k] == s0[m..][k]; }
  }

  lemma WalkLive(s0: seq<Block>, s: seq<Block>, m: nat, i: nat, needed: nat)
    requires Walk(s0, s, m, i, needed) && i < |s| && s[i].live
    ensures Walk(s0, s, m + 1, i + 1, needed)
  {
    Ahead(s0, s, m, i, 0);
    Ahead(s0, s, m, i, 1);
  }

  lemma WalkDone(s0: seq<Block>, s: seq<Block>, m: nat, i: nat, needed: nat)
    requires Walk(s0, s, m, i, needed) && i == |s|
    ensures !HasRun(s0, needed)
  {
    Ahead(s0, s, m, i, 0);
  }

  lemma RoomInside(s: seq<Block>, a: nat, l: nat, m: nat, k: nat)
    requires m <= a && a + 1 + l <= m + 1 + k <= |s|
    ensures Room(s, a, l) <= Room(s, m, k)
  {
    if m < a { OffMono(s, m, a); }
    if a + 1 + l < m + 1 + k { OffMono(s, a + 1 + l, m + 1 + k); }
  }

  /** A block inside a run that ends before a live block has no more room than the run. */
  lemma NoFitInside(s: seq<Block>, m: nat, k: nat, needed: nat, a: nat)
    requires m + 1 + k <= |s| && Room(s, m, k) < needed && m <= a <= m + k
    requires m + 1 + k < |s| ==> s[m + 1 + k].live
    ensures !CanGrow(s, a, needed)
  {
    forall l: nat | a + 1 + l <= |s| && AllFree(s, a + 1, a + 1 + l)
      ensures Room(s, a, l) < needed
    {
      RoomInside(s, a, l, m, k);
    }
  }

  lemma WalkMerged(s0: seq<Block>, s: seq<Block>, m: nat, i: nat, k: nat, needed: nat)
    requires Walk(s0, s, m, i, needed) && Run(s, i, k, needed) && Room(s, i, k) < needed && !s[i].live
    ensures var t := Spliced(s, i, i + 1 + k, Mid(Room(s, i, k), needed, false));
      Walk(s0, t, m + 1 + k, i + 1, needed) && Off(t, i) == Off(s, i)
  {
    var mid := Mid(Room(s, i, k), needed, false);
    var t := Spliced(s, i, i + 1 + k, mid);
    MidFills(s, i, k, needed);
    Ahead(s0, s, m, i, 0);
    Ahead(s0, s, m, i, 1 + k);
    assert Room(s0, m, k) == Room(s, i, k);
    SplicedBefore(s, i, i + 1 + k, mid, i);
    SplicedAfter(s, i, i + 1 + k, mid, i + 1 + k);
    assert t[i + 1..] == s[i + 1 + k..];
    MergedLive(s, i, k, needed);
    forall a | 0 <= a < m + 1 + k
      ensures !FitsAt(s0, a, needed)
    {
      if a >= m { NoFitInside(s0, m, k, needed, a); }
    }
  }

  lemma WalkFound(s0: seq<Block>, s: seq<Block>, m: nat, i: nat, k: nat, needed: nat)
    requires Walk(s0, s, m, i, needed) && Run(s, i, k, needed) && Room(s, i, k) >= needed && !s[i].live
    requires Sized(s) && needed % 8 == 4
    ensures FirstRun(s0, needed, Off(s, i) + MARKER)
    ensures var t := Spliced(s, i, i + 1 + k, Mid(Room(s, i, k), needed, false));
      i < |t| && t[i] == Block(needed, false) && Off(t, i) == Off(s, i) && Live(t) == Live(s0)
  {
    var mid := Mid(Room(s, i, k), needed, false);
    MidFills(s, i, k, needed);
    MergedLive(s, i, k, needed);
    SplicedBefore(s, i, i + 1 + k, mid, i);
    OffAligned(s, i);
    OffAligned(s, i + 1 + k);
    OffMono(s, i, i + 1 + k);
    Multiples(Off(s, i), Off(s, i + 1 + k), needed);
    Ahead(s0, s, m, i, 0);
    Ahead(s0, s, m, i, 1 + k);
    forall n | m + 1 <= n < m + 1 + k
      ensures !s0[n].live
    {
      Ahead(s0, s, m, i, n - m);
    }
    assert AllFree(s0, m + 1, m + 1 + k) && Room(s0, m, k) >= needed;
    assert FitsAt(s0, m, needed) && NoneBefore(s0, m, needed);
  }

  lemma NoRoom(heap: seq<byte>, offset: nat, s: seq<Block>, i: nat, needed: nat)
    requires Inv(heap, offset, s) && i < |s| && |heap| - Off(s, i) - MARKER < needed
    ensures !CanGrow(s, i, needed)
  {
    forall k: nat | i + 1 + k <= |s|
      ensures Room(s, i, k) < needed
    {
      RoomMono(s, i, k, |s| - i - 1);
    }
  }

  lemma RunDecides(s: seq<Block>, i: nat, k: nat, needed: nat)
    requires Run(s, i, k, needed)
    ensures CanGrow(s, i, needed) <==> Room(s, i, k) >= needed
  {
    if CanGrow(s, i, needed) {
      var l: nat :| i + 1 + l <= |s| && AllFree(s, i + 1, i + 1 + l) && Room(s, i, l) >= needed;
      if l <= k { RoomMono(s, i, l, k); }
    }
  }

  /** The merged block and what is left over. */
  function Mid(room: nat, needed: nat, live: bool): seq<Block> {
    if room >= needed + MARKER then [Block(needed, live), Block(room - needed - MARKER, false)] else [Block(room, live)]
  }

  lemma HeaderGrown(heap: seq<byte>, more: seq<byte>, at: nat, b: Block)
    requires HeaderAt(heap, at, b)
    ensures HeaderAt(heap + more, at, b)
  {
    var m := heap + more;
    assert m[at] == heap[at] && m[at + 1] == heap[at + 1] && m[at + 2] == heap[at + 2] && m[at + 3] == heap[at + 3];
  }

  /** A splice that fills the same bytes keeps the invariant. */
  lemma SplicedInv(heap: seq<byte>, heap': seq<byte>, offset: nat, s: seq<Block>, i: nat, j: nat, mid: seq<Block>)
    requires Inv(heap, offset, s) && Fills(s, i, j, mid) && Sized(mid)
    requires OnlyIn(heap, heap', Off(s, i), Off(s, j)) && MidTiled(heap', Off(s, i), mid)
    ensures Inv(heap', offset, Spliced(s, i, j, mid))
  {
    SplicedTiled(heap, heap', s, i, j, mid);
    SplicedAfter(s, i, j, mid, |s|);
  }

  lemma MidOne(m: seq<byte>, at: nat, b: Block)
    requires HeaderAt(m, at, b)
    ensures MidTiled(m, at, [b]) && Off([b], 1) == MARKER + b.size
  {
    OffStep([b], 0);
  }

  /** The mark of a block changes. */
  lemma Remarked(heap: seq<byte>, heap': seq<byte>, offset: nat, s: seq<Block>, i: nat, live: bool)
    requires Inv(heap, offset, s) && i < |s|
    requires HeaderAt(heap', Off(s, i), Block(s[i].size, live)) && OnlyIn(heap, heap', Off(s, i), Off(s, i) + MARKER)
    ensures Inv(heap', offset, s[i := Block(s[i].size, live)])
    ensures var p := (Off(s, i) + MARKER, s[i].size);
      Live(s[i := Block(s[i].size, live)]) == if live then Live(s) + {p} else Live(s) - {p}
  {
    var b := Block(s[i].size, live);
    MidOne(heap', Off(s, i), b);
    OffStep(s, i);
    assert s[i := b] == Spliced(s, i, i + 1, [b]);
    SplicedInv(heap, heap', offset, s, i, i + 1, [b]);
    RemarkedLive(s, i, live);
  }

  lemma RemarkedLive(s: seq<Block>, i: nat, live: bool)
    requires i < |s|
    ensures var p := (Off(s, i) + MARKER, s[i].size);
      Live(s[i := Block(s[i].size, live)]) == if live then Live(s) + {p} else Live(s) - {p}
  {
    var t, p := s[i := Block(s[i].size, live)], (Off(s, i) + MARKER, s[i].size);
    forall k | 0 <= k <= |s|
      ensures Off(t, k) == Off(s, k)
    {
      SizesOnly(s, t, k);
    }
    forall q
      ensures q in Live(t) <==> q in if live then Live(s) + {p} else Live(s) - {p}
    {
      if q in Live(t) {
        var k :| 0 <= k < |t| && t[k].live && q == (Off(t, k) + MARKER, t[k].size);
        assert Off(t, k) == Off(s, k);
        if k != i {
          assert q in Live(s);
          if k < i { OffMono(s, k, i); } else { OffMono(s, i, k); }
        }
      }
      if q in Live(s) {
        var k :| 0 <= k < |s| && s[k].live && q == (Off(s, k) + MARKER, s[k].size);
        assert Off(t, k) == Off(s, k);
        if k != i { assert t[k] == s[k] && q in Live(t); }
      }
      if live && q == p {
        assert Off(t, i) == Off(s, i) && t[i].live;
      }
    }
  }

  lemma {:induction false} SizesOnly(s: seq<Block>, t: seq<Block>, k: nat)
    requires |s| == |t| && k <= |s| && forall j :: 0 <= j < |s| ==> s[j].size == t[j].size
    ensures Off(s, k) == Off(t, k)
  {
    if k > 0 {
      SizesOnly(s, t, k - 1);
      OffStep(s, k - 1);
      OffStep(t, k - 1);
    }
  }
}