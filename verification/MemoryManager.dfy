/** The manager of the header-in-heap allocator (class memory_manager in
    libraries/eosiolib/malloc.cpp): it hands requests to the active heap, asks the host for
    more memory when that is full, and is meant to fall back on freed blocks when the host
    refuses.  It only notices a refusal when a pointer is widened with its sign; clang
    extends pointers by zeros, and then a heap is put at address 2^32 - 1, whose first
    header lies outside the memory.  Nobody else is taken to call sbrk. */
module MemoryManager {
  import opened Malloc
  import opened Memory
  import opened Words

  const PAGE := 0x1_0000
  const INITIAL := 8192
  const HEAPS := 16
  /** What sbrk returns when the host refuses: -1 as a pointer of 32 bits. */
  const REFUSED := 0xFFFF_FFFF

  /** How the compiler turns a pointer of 32 bits into an integer of 64. */
  datatype Widening = ByZeros | BySign

  function Widened(address: nat, how: Widening): int
    requires address < B32
  {
    if how == BySign && address >= B31 then address - B32 else address
  }

  /** The test for -1 never succeeds on a pointer that was extended by zeros. */
  lemma NoticedWhen(address: nat, how: Widening)
    requires address < B32
    ensures Widened(address, how) == -1 <==> address == REFUSED && how == BySign
  {
  }

  function Zeros(n: nat): (s: seq<byte>)
    ensures |s| == n
  {
    seq(n, i => 0)
  }

  /** A heap at one time. */
  datatype Snap = Snap(heap: seq<byte>, blocks: seq<Block>, offset: nat, base: nat)

  /** The payloads handed out hold what they held; the heap may have grown. */
  ghost predicate PayloadsKept(m: seq<byte>, m': seq<byte>, live: set<(nat, nat)>) {
    |m| <= |m'| && forall q, x :: q in live && q.0 <= x < q.0 + q.1 && x < |m| ==> m'[x] == m[x]
  }

  /** What is handed out in heap i; a heap that is not there yet holds nothing. */
  ghost function HandedIn(s: seq<Snap>, i: nat): set<(nat, nat)> {
    if i < |s| then Live(s[i].blocks) else {}
  }

  ghost predicate KeptAt(s: seq<Snap>, t: seq<Snap>, i: nat) {
    i < |s| ==> i < |t| && t[i].base == s[i].base && PayloadsKept(s[i].heap, t[i].heap, Live(s[i].blocks))
  }

  /** Nothing happened to what is handed out in heap i. */
  ghost predicate StillAt(s: seq<Snap>, t: seq<Snap>, i: nat) {
    HandedIn(t, i) == HandedIn(s, i) && KeptAt(s, t, i)
  }

  /** Nothing happened to what is handed out in any heap. */
  ghost predicate AllStill(s: seq<Snap>, t: seq<Snap>) {
    |s| <= |t| && forall i: nat {:trigger StillAt(s, t, i)} :: StillAt(s, t, i)
  }

  ghost predicate OthersStill(s: seq<Snap>, t: seq<Snap>, h: nat) {
    |s| == |t| && forall i :: 0 <= i < |s| && i != h ==> t[i] == s[i]
  }

  /** In heap h a payload joins those handed out, apart from them; nothing else happened. */
  ghost predicate Handed(s: seq<Snap>, t: seq<Snap>, h: nat, p: nat, size: nat) {
    && |s| <= |t| && h < |t| && HandedOut(HandedIn(s, h), HandedIn(t, h), p, size) && KeptAt(s, t, h)
    && forall i: nat {:trigger StillAt(s, t, i)} :: i != h ==> StillAt(s, t, i)
  }

  /** What payloads held, they hold. */
  ghost predicate AllKept(s: seq<Snap>, t: seq<Snap>) {
    forall i: nat {:trigger KeptAt(s, t, i)} :: KeptAt(s, t, i)
  }

  /** The payload q, an address in memory and a size, is handed out by heap i. */
  ghost predicate HoldsAt(s: seq<Snap>, i: nat, q: (nat, nat)) {
    i < |s| && s[i].base <= q.0 && (q.0 - s[i].base, q.1) in HandedIn(s, i)
  }
  ghost predicate Holds(s: seq<Snap>, q: (nat, nat)) {
    exists i: nat :: HoldsAt(s, i, q)
  }

  ghost predicate SameHeld(s: seq<Snap>, t: seq<Snap>) {
    forall q: (nat, nat) :: Holds(t, q) <==> Holds(s, q)
  }

  /** A payload apart from all others joins those handed out. */
  ghost predicate Joined(s: seq<Snap>, t: seq<Snap>, p: nat, size: nat) {
    && (forall q: (nat, nat) :: Holds(t, q) <==> Holds(s, q) || q == (p, size))
    && (forall q: (nat, nat) :: Holds(s, q) ==> q.0 + q.1 <= p || p + size <= q.0)
  }

  /** A payload, and no other, is given up. */
  ghost predicate Released(s: seq<Snap>, t: seq<Snap>, p: nat, size: nat) {
    forall q: (nat, nat) :: Holds(t, q) <==> Holds(s, q) && q != (p, size)
  }

  lemma StillTrans(s: seq<Snap>, t: seq<Snap>, u: seq<Snap>, i: nat)
    requires |s| <= |t| <= |u| && StillAt(s, t, i) && KeptAt(t, u, i)
    ensures KeptAt(s, u, i) && (StillAt(t, u, i) ==> StillAt(s, u, i))
  {
    if i < |s| {
      forall q, x | q in Live(s[i].blocks) && q.0 <= x < q.0 + q.1 && x < |s[i].heap|
        ensures u[i].heap[x] == s[i].heap[x]
      {
        assert t[i].heap[x] == s[i].heap[x];
      }
    }
  }

  lemma AllStillTrans(s: seq<Snap>, t: seq<Snap>, u: seq<Snap>)
    requires AllStill(s, t) && AllStill(t, u)
    ensures AllStill(s, u)
  {
    forall i: nat
      ensures StillAt(s, u, i)
    {
      assert StillAt(s, t, i) && StillAt(t, u, i);
      StillTrans(s, t, u, i);
    }
  }

  /** Requests are rounded up so that block and header are a multiple of 8; the last three
      sizes of 32 bits wrap around to 4. */
  ghost predicate Adjusted(size0: nat, size: nat) {
    size < B32 && size % 8 == 4 && if size0 <= B32 - 4 then size0 <= size < size0 + 8 else size == 4
  }

  method AdjustToMemBlock(size0: nat) returns (size: nat)
    requires 0 < size0 < B32
    ensures Adjusted(size0, size)
  {
    var remainder := (size0 + MARKER) % B32 % 8;
    RoundedUp(size0, remainder);
    size := size0;
    if remainder > 0 {
      size := (size + (8 - remainder)) % B32;
    }
  }

  lemma RoundedUp(size0: nat, r: nat)
    requires 0 < size0 < B32 && r == (size0 + MARKER) % B32 % 8
    ensures Adjusted(size0, if r > 0 then (size0 + (8 - r)) % B32 else size0)
  {
    Remainder(size0 + MARKER);
    var q := (size0 + MARKER) / 8;
    assert size0 + MARKER == 8 * q + r;
    if r > 0 { NextEight(q); }
  }

  lemma NextEight(q: nat)
    requires 8 * q < B32 + MARKER
    ensures (8 * q + MARKER) % B32 == if 8 * q + MARKER < B32 then 8 * q + MARKER else MARKER
    ensures (8 * q + MARKER) % 8 == 4
  {
  }

  lemma Remainder(x: nat)
    requires x < 2 * B32
    ensures x % B32 % 8 == x % 8
  {
    if x >= B32 { assert x % B32 == x - B32; }
  }

  /** How much to ask the host for. */
  function HeapAdj(current: nat): nat {
    if current % PAGE <= PAGE - 1024 then current + PAGE - current % PAGE - current
    else current + 2 * PAGE - current % (2 * PAGE) - current
  }

  /** Which heaps there are, and which is active.  `actual` is 0 at the start, then the
      number of slots, and the number of heaps once the host has refused. */
  datatype Place = Place(brk: nat, limit: nat, initialHeap: nat, actual: nat, active: nat, activeFree: nat,
                         widening: Widening)

  /** The heaps have their own memory, and all before the active one are full.  There are
      never more than two. */
  ghost predicate Layout(s: seq<Snap>, at: Place) {
    && |s| <= 2 && at.limit * PAGE < ALLOC && at.brk % PAGE == 0 && at.brk <= at.limit * PAGE
    && (forall i {:trigger Held(s, i, at.brk)} :: 0 <= i < |s| ==> Held(s, i, at.brk))
    && (|s| == 0 ==>
      at.initialHeap + INITIAL <= at.brk && at.active == 0 && at.activeFree == 0 && at.actual in {0, HEAPS})
    && (|s| == 2 ==> s[0].base + |s[0].heap| <= s[1].base && s[1].base + |s[1].heap| == at.brk)
    && (forall i {:trigger Full(s, i)} :: 0 <= i < |s| && i < at.active ==> Full(s, i))
    && (|s| > 0 ==> Turn(|s|, at))
  }

  ghost predicate Held(s: seq<Snap>, i: nat, brk: nat)
    requires i < |s|
  {
    Inv(s[i].heap, s[i].offset, s[i].blocks) && s[i].base + |s[i].heap| <= brk
  }
  ghost predicate Full(s: seq<Snap>, i: nat)
    requires i < |s|
  {
    s[i].offset == |s[i].heap|
  }

  /** The last heap is active, or a refusal was noticed. */
  ghost predicate Turn(n: nat, at: Place) {
    || (at.actual == HEAPS && at.active == n - 1 && at.activeFree == 0)
    || (at.actual == at.active == n && at.activeFree < n && AtLimit(at) && at.widening == BySign)
  }

  ghost predicate AtLimit(at: Place) { at.brk + PAGE > at.limit * PAGE }

  /** A refusal went unnoticed: the active heap is not in memory. */
  ghost predicate Misplaced(s: seq<Snap>, at: Place) {
    && |s| > 0 && at.actual == HEAPS && at.active == |s| - 1 && at.widening == ByZeros
    && at.brk % PAGE == 0 && at.brk <= at.limit * PAGE < ALLOC && AtLimit(at)
    && var last := s[at.active];
      last.base == REFUSED && last.offset == 0 && |last.heap| == PAGE && Inv(last.heap, last.offset, last.blocks)
  }

  /** The active heap starts its next block no later than before. */
  ghost predicate NoFuller(s: seq<Snap>, at: Place, s': seq<Snap>, at': Place) {
    at.active < |s| && at'.active < |s'| && s'[at'.active].offset <= s[at.active].offset
  }

  /** The bytes left in the active heap. */
  ghost function Left(s: seq<Snap>, at: Place): int
    requires at.active < |s|
  {
    |s[at.active].heap| - s[at.active].offset
  }

  /** The bytes side by side that the host can still add, with those of the active heap
      that they continue. */
  ghost function Reach(s: seq<Snap>, at: Place): int
    requires at.active < |s|
  {
    at.limit * PAGE - at.brk + if s[at.active].base + |s[at.active].heap| == at.brk then Left(s, at) else 0
  }

  /** A block of this size can be cut, now or with all memory the host has. */
  ghost predicate Enough(s: seq<Snap>, at: Place, size: nat)
    requires at.active < |s|
  {
    size + MARKER <= Left(s, at) || size + MARKER <= Reach(s, at)
  }

  /** The same before any call of malloc, when there may be no heap yet, or none active. */
  ghost predicate Suffices(s: seq<Snap>, at: Place, size: nat) {
    if |s| == 0 then Enough([Snap(Zeros(INITIAL), [], 0, at.initialHeap)], at.(active := 0), size)
    else at.active < |s| && Enough(s, at, size)
  }

  /** Where blocks are cut from: the active heap, how much of it is used, and the host's
      memory behind it. */
  datatype Frontier = Frontier(base: nat, offset: nat, len: nat, brk: nat, heaps: nat)

  function RoomOf(f: Frontier): int { f.len - f.offset }
  predicate Touches(f: Frontier) { f.base + f.len == f.brk }

  ghost function FrontierOf(s: seq<Snap>, at: Place): Frontier
    requires at.active < |s|
  {
    Frontier(s[at.active].base, s[at.active].offset, |s[at.active].heap|, at.brk, |s|)
  }

  /** The same before any call of malloc. */
  ghost function FirstFrontier(s: seq<Snap>, at: Place): Frontier {
    if |s| == 0 then Frontier(at.initialHeap, 0, INITIAL, at.brk, 1)
    else if at.active < |s| then FrontierOf(s, at)
    else Frontier(0, 0, 0, at.brk, |s|)
  }

  /** With another page, which the active heap takes over if it touches it, and which is a
      new heap otherwise. */
  function MorePage(f: Frontier): Frontier {
    if Touches(f) then f.(len := f.len + PAGE, brk := f.brk + PAGE)
    else Frontier(f.brk, 0, PAGE, f.brk + PAGE, f.heaps + 1)
  }
  function MorePages(f: Frontier, k: nat): Frontier { if k == 0 then f else MorePage(MorePages(f, k - 1)) }

  /** How many pages a block needs: none if there is room. */
  function PagesNeeded(f: Frontier, size: nat): nat {
    var missing := size + MARKER - if Touches(f) then RoomOf(f) else 0;
    if size + MARKER <= RoomOf(f) || missing <= 0 then 0 else (missing + PAGE - 1) / PAGE
  }

  /** The frontier with the fewest pages for which the block fits, where it is cut. */
  function Enlarged(f: Frontier, size: nat): Frontier { MorePages(f, PagesNeeded(f, size)) }
  function BlockAt(f: Frontier, size: nat): nat { Enlarged(f, size).base + Enlarged(f, size).offset + MARKER }
  function Served(f: Frontier, size: nat): Frontier {
    var g := Enlarged(f, size);
    g.(offset := g.offset + size + MARKER)
  }

  /** The address of a block, and the frontier after it, are told by the one before. */
  predicate CutFrom(f: Frontier, f': Frontier, size: nat, p: nat) { p == BlockAt(f, size) > 0 && f' == Served(f, size) }

  ghost predicate MoreFrontier(s: seq<Snap>, at: Place, s': seq<Snap>, at': Place) {
    at.active < |s| && at'.active < |s'| && FrontierOf(s', at') == MorePage(FrontierOf(s, at))
  }

  lemma {:induction false} RoomAfter(f: Frontier, k: nat)
    requires k > 0
    ensures var g := MorePages(f, k);
      Touches(g) && RoomOf(g) == (if Touches(f) then RoomOf(f) else 0) + k * PAGE && g.brk == f.brk + k * PAGE
  {
    if k > 1 { RoomAfter(f, k - 1); }
  }

  /** The count of pages is the least for which there is room. */
  lemma FewestPages(f: Frontier, k: nat, size: nat)
    requires RoomOf(f) >= 0 && (k == 0 || RoomOf(f) < size + MARKER)
    ensures size + MARKER <= RoomOf(MorePages(f, k)) <==> PagesNeeded(f, size) <= k
  {
    if k > 0 {
      RoomAfter(f, k);
      var c := if Touches(f) then RoomOf(f) else 0;
      PagesCover(size + MARKER - c, k);
    }
  }

  /** Memory suffices exactly if the host has that many pages left. */
  lemma SufficesPages(s: seq<Snap>, at: Place, size: nat)
    requires at.active < |s| && at.brk % PAGE == 0 && 0 <= Left(s, at)
    ensures Enough(s, at, size) <==>
      var k := PagesNeeded(FrontierOf(s, at), size); k == 0 || at.brk + k * PAGE <= at.limit * PAGE
  {
    var f := FrontierOf(s, at);
    var k := PagesNeeded(f, size);
    if k > 0 {
      var c := if Touches(f) then RoomOf(f) else 0;
      PagesCover(size + MARKER - c, k);
      WholeLimit(at.brk, at.limit, k, size + MARKER - c);
    }
  }

  lemma WholeLimit(brk: nat, limit: nat, k: nat, missing: int)
    requires brk % PAGE == 0 && missing > 0 && k == (missing + PAGE - 1) / PAGE
    ensures brk + k * PAGE <= limit * PAGE <==> brk + missing <= limit * PAGE
  {
    var b := brk / PAGE;
    assert brk == b * PAGE;
    if b <= limit { PagesCover(missing, limit - b); }
  }

  lemma PagesCover(missing: int, k: nat)
    ensures missing > 0 ==> ((missing + PAGE - 1) / PAGE <= k <==> missing <= k * PAGE)
  {
    if missing > 0 {
      var q := (missing + PAGE - 1) / PAGE;
      assert q * PAGE <= missing + PAGE - 1 < q * PAGE + PAGE;
      if q <= k { assert q * PAGE <= k * PAGE; } else { assert (k + 1) * PAGE <= q * PAGE; }
    }
  }

  /** The size of a block behind the blocks of the active heap does not wrap around. */
  ghost predicate NoWrap(s: seq<Snap>, at: Place, size: nat)
    requires at.active < |s|
  {
    s[at.active].offset + size + MARKER < B32
  }

  /** The same before any call of malloc: it wraps around. */
  ghost predicate Wraps(s: seq<Snap>, at: Place, size: nat) {
    if |s| == 0 then size + MARKER >= B32 else at.active < |s| && !NoWrap(s, at, size)
  }

  /** Where the search among the freed blocks starts. */
  ghost function TurnOf(s: seq<Snap>, at: Place): nat { if |s| == 0 || at.active < |s| then 0 else at.activeFree }

  /** The active heap's next header lies behind the end of memory. */
  ghost predicate Behind(s: seq<Snap>, at: Place) {
    at.active < |s| && (s[at.active].base + s[at.active].offset) % B32 + MARKER > at.brk
  }

  ghost predicate Distinct(heaps: seq<HeaderHeap>) {
    forall i, j :: 0 <= i < j < |heaps| ==> heaps[i] != heaps[j]
  }

  class Manager {
    const initialHeap: nat
    /** Pages the host gives at most. */
    const limit: nat
    const widening: Widening
    var heaps: seq<HeaderHeap>
    var actualSize: nat
    var activeHeap: nat
    var activeFreeHeap: nat
    var brk: nat
    ghost var repr: set<HeaderHeap>
    ghost var snaps: seq<Snap>

    ghost function At(): Place
      reads this
    {
      Place(brk, limit, initialHeap, actualSize, activeHeap, activeFreeHeap, widening)
    }

    /** What the heaps hold. */
    ghost predicate Shows()
      reads this, heaps
    {
      |snaps| == |heaps| && forall i :: 0 <= i < |heaps| ==> snaps[i] == SnapOf(heaps[i])
    }

    ghost predicate Valid()
      reads this, heaps
    {
      Distinct(heaps) && Owned() && Shows() && Layout(snaps, At())
    }

    ghost predicate Owned()
      reads this
    {
      forall i :: 0 <= i < |heaps| ==> heaps[i] in repr
    }

    /** A refusal went unnoticed. */
    ghost predicate Lost()
      reads this, heaps
    {
      Distinct(heaps) && Owned() && Shows() && Misplaced(snaps, At())
    }

    ghost predicate Usable()
      reads this, heaps
    {
      Valid() && |heaps| > 0
    }

    constructor (address: nat, pages: nat, most: nat, how: Widening)
      requires address + INITIAL <= pages * PAGE <= most * PAGE < ALLOC
      ensures Valid() && heaps == [] && repr == {}
      ensures At() == Place(pages * PAGE, most, address, 0, 0, 0, how)
    {
      initialHeap, limit, widening := address, most, how;
      heaps, repr, snaps := [], {}, [];
      actualSize, activeHeap, activeFreeHeap, brk := 0, 0, 0, pages * PAGE;
    }

    /** The host's memory grows in whole pages, up to its limit. */
    method Sbrk(num0: nat) returns (address: nat)
      requires num0 < B32 && brk % PAGE == 0 && brk <= limit * PAGE < ALLOC
      modifies this`brk
      ensures address == REFUSED ==> brk == old(brk)
      ensures address != REFUSED ==> address == old(brk) && num0 <= brk - old(brk) < num0 + 8
      ensures num0 >= B31 ==> address == REFUSED
      ensures num0 < B31 && num0 % PAGE == 0 ==>
        (address == REFUSED <==> old(brk) + num0 > limit * PAGE) && (address != REFUSED ==> brk == old(brk) + num0)
    {
      if num0 >= B31 {
        return REFUSED;
      }
      var num := (num0 + 7) / 8 * 8;
      var current, desired := brk / PAGE, (brk + num + PAGE - 1) / PAGE;
      Pages(brk, num0, num, current, desired, limit);
      if desired > current && desired > limit {
        return REFUSED;
      }
      address := brk;
      brk := brk + num;
    }

    /** The host is asked for a page. */
    method NewMemory() returns (start: nat)
      requires brk % PAGE == 0 && brk <= limit * PAGE < ALLOC
      modifies this`brk
      ensures if old(AtLimit(At())) then start == REFUSED && brk == old(brk)
        else start == old(brk) && brk == old(brk) + PAGE <= limit * PAGE
    {
      AdjIsPage(brk);
      var current := Sbrk(0);
      start := Sbrk(HeapAdj(current));
    }

    /** No word of memory starts here; the address wraps around at 32 bits. */
    predicate OutOfMemory(address: nat)
      reads this
    {
      address % B32 + MARKER > brk
    }

    /** What is left of the active heap joins the freed blocks, and the next one is due. */
    method Retire()
      requires Valid() && |heaps| > 0 && actualSize == HEAPS
      modifies this`activeHeap, this`snaps, repr
      ensures Distinct(heaps) && Owned() && Shows() && AllStill(old(snaps), snaps)
      ensures Retired(old(snaps), snaps, old(activeHeap)) && activeHeap == old(activeHeap) + 1 == |heaps|
    {
      ghost var s := snaps;
      var current := heaps[activeHeap];
      assert Held(s, activeHeap, brk);
      current.CleanupRemaining();
      snaps := s[activeHeap := SnapOf(current)];
      OneStill(s, snaps, activeHeap);
      activeHeap := activeHeap + 1;
    }

    /** The host gives no more. */
    method Refused()
      requires Usable() && actualSize == HEAPS && AtLimit(At()) && widening == BySign
      modifies this`activeHeap, this`actualSize, this`snaps, repr
      ensures Valid() && AllStill(old(snaps), snaps) && actualSize == |heaps| && activeFreeHeap == 0
    {
      ghost var s, at := snaps, At();
      Retire();
      actualSize := activeHeap;
      RetiredLayout(s, snaps, at, At());
    }

    /** The active heap takes memory that continues it. */
    method Expand(address: nat) returns (ok: bool)
      requires |heaps| > 0 && activeHeap == |heaps| - 1 && Distinct(heaps) && Owned() && Shows()
      requires var a := heaps[activeHeap];
        a.Valid() && ((a.base + |a.heap|) % B32 == address ==> |a.heap| + PAGE < ALLOC)
      modifies this`snaps, repr
      ensures Shows() && ok == (old(heaps[activeHeap].base + |heaps[activeHeap].heap|) % B32 == address)
      ensures !ok ==> snaps == old(snaps)
      ensures ok ==> Grown(old(snaps), snaps, activeHeap)
    {
      ghost var s := snaps;
      var current := heaps[activeHeap];
      ok := current.ExpandMemory(address, Zeros(PAGE));
      snaps := s[activeHeap := SnapOf(current)];
    }

    /** More memory for the active heap, or a new active heap.  When the host refuses and
        this is noticed, what is left of the last heap joins the freed blocks; when it is
        not, the new heap is put where there is no memory, and the next call traps. */
    method NextActiveHeap() returns (trapped: bool, found: bool)
      requires (Usable() || Lost()) && actualSize == HEAPS
      modifies this, repr
      ensures fresh(repr - old(repr)) && old(repr) <= repr && (trapped <==> old(Lost()))
      ensures !trapped ==>
        && AllStill(old(snaps), snaps) && (found <==> !old(AtLimit(At())) || widening == ByZeros)
        && (Usable() <==> !old(AtLimit(At())) || widening == BySign) && (Lost() <==> !Usable())
      ensures !trapped && Usable() && found ==>
        && actualSize == HEAPS && brk == old(brk) + PAGE <= limit * PAGE && activeHeap < |heaps|
        && Reach(snaps, At()) == old(Reach(snaps, At())) && Left(snaps, At()) <= Reach(snaps, At())
        && MoreFrontier(old(snaps), old(At()), snaps, At())
      ensures !found && !trapped ==> actualSize == |heaps| && activeFreeHeap == 0
      ensures old(activeHeap < |snaps|) && (found && !trapped ==> NoFuller(old(snaps), old(At()), snaps, At()))
    {
      ghost var s, at := snaps, At();
      ActiveHeap(s, at);
      var start := NewMemory();
      NoticedWhen(start, widening);
      if Widened(start, widening) == -1 {
        Refused();
        return false, false;
      }
      found := true;
      trapped := UseMemory(start, s, at);
      if !trapped { ActiveHeap(snaps, At()); }
    }

    /** The active heap grows, or is given up for a new one. */
    method UseMemory(start: nat, ghost s: seq<Snap>, ghost at: Place) returns (trapped: bool)
      requires Distinct(heaps) && Owned() && Shows() && snaps == s && |s| > 0 && at.active < |s|
      requires Usual(s, at) || Misplaced(s, at)
      requires At() == at.(brk := brk) && Answered(at, start, brk)
      modifies this, repr
      ensures fresh(repr - old(repr)) && old(repr) <= repr && brk == old(brk) && (trapped <==> Misplaced(s, at))
      ensures !trapped ==> AllStill(s, snaps) && NoFuller(s, at, snaps, At())
      ensures !trapped && start == REFUSED ==> Lost()
      ensures !trapped && start != REFUSED ==>
        && Usable() && actualSize == HEAPS && activeHeap < |heaps|
        && Left(snaps, At()) <= Reach(snaps, At()) == Reach(s, at) && MoreFrontier(s, at, snaps, At())
    {
      ActiveHeap(s, at);
      Continues(s, at, start, brk);
      var expanded := Expand(start);
      if expanded {
        GrownLayout(s, snaps, at, At());
        return false;
      }
      trapped := NewHeap(start, s, at);
    }

    /** The active heap is given up for a new one where the host's memory begins; cleaning
        up traps if the active heap is not in memory. */
    method NewHeap(start: nat, ghost s: seq<Snap>, ghost at: Place) returns (trapped: bool)
      requires Distinct(heaps) && Owned() && Shows() && snaps == s && |s| > 0 && at.active < |s|
      requires Usual(s, at) || Misplaced(s, at)
      requires At() == at.(brk := brk) && Answered(at, start, brk)
      requires s[at.active].base + |s[at.active].heap| != at.brk || start == REFUSED
      modifies this, repr
      ensures fresh(repr - old(repr)) && old(repr) <= repr && brk == old(brk) && (trapped <==> Misplaced(s, at))
      ensures !trapped ==> AllStill(s, snaps) && NoFuller(s, at, snaps, At())
      ensures !trapped && start == REFUSED ==> Lost()
      ensures !trapped && start != REFUSED ==>
        && Usable() && actualSize == HEAPS && activeHeap < |heaps|
        && Left(snaps, At()) <= Reach(snaps, At()) == Reach(s, at) && MoreFrontier(s, at, snaps, At())
    {
      var current := heaps[activeHeap];
      ActiveHeap(s, at);
      InMemory(s, at);
      if current.offset < |current.heap| && OutOfMemory(current.base + current.offset) {
        return true;
      }
      current.CleanupRemaining();
      snaps := s[activeHeap := SnapOf(current)];
      AddHeap(start, s, at);
      trapped := false;
    }

    method AddHeap(start: nat, ghost s: seq<Snap>, ghost at: Place)
      requires Distinct(heaps) && Owned() && Shows() && Usual(s, at) && at.active < |s|
      requires Retired(s, snaps, at.active) && StillAt(s, snaps, at.active)
      requires At() == at.(brk := brk) && Answered(at, start, brk)
      requires s[at.active].base + |s[at.active].heap| != at.brk || start == REFUSED
      modifies this
      ensures fresh(repr - old(repr)) && old(repr) <= repr && brk == old(brk) && AllStill(s, snaps)
      ensures NoFuller(s, at, snaps, At()) && (start == REFUSED ==> Lost())
      ensures start != REFUSED ==>
        && Usable() && actualSize == HEAPS && activeHeap < |heaps|
        && Left(snaps, At()) <= Reach(snaps, At()) == Reach(s, at) && MoreFrontier(s, at, snaps, At())
    {
      ghost var t := snaps;
      activeHeap := activeHeap + 1;
      var next := new HeaderHeap.Init(start, Zeros(PAGE));
      heaps, repr := heaps + [next], repr + {next};
      snaps := t + [SnapOf(next)];
      if start == REFUSED {
        MisplacedNow(s, t, at, SnapOf(next), At());
      } else {
        NewLayout(s, t, at, SnapOf(next), At());
      }
    }

    /** Cut a block from the active heap, with more memory from the host if need be.  It
        is found exactly if there is enough; if not, and a refusal is not noticed, what
        comes next traps. */
    method TryActive(size: nat, ghost s: seq<Snap>) returns (trapped: bool, found: bool, p: nat)
      requires Usable() && actualSize == HEAPS && AllStill(s, snaps) && size % 8 == 4 && size < B32
      requires activeHeap < |snaps| && NoWrap(snaps, At(), size)
      modifies this, repr
      ensures fresh(repr - old(repr)) && old(repr) <= repr
      ensures old(activeHeap < |snaps|) && (found <==> old(Enough(snaps, At(), size)))
      ensures trapped <==> !found && widening == ByZeros
      ensures !trapped ==> Usable() && if found then Cut(s, size, p) else Exhausted(s)
      ensures found ==> ServedAt(old(FrontierOf(snaps, At())), size, p)
    {
      ActiveHeap(snaps, At());
      ghost var fits, f := Enough(snaps, At(), size), FrontierOf(snaps, At());
      trapped, found, p := CutFirst(size, s);
      trapped, found, p := Repeat(size, s, fits, f, trapped, found, p);
    }

    /** The loop, after the first attempt. */
    method Repeat(size: nat, ghost s: seq<Snap>, ghost fits: bool, ghost f: Frontier, trapped0: bool, found0: bool,
        p0: nat)
        returns (trapped: bool, found: bool, p: nat)
      requires Trying(size, s, fits, f, 0, trapped0, true, found0, p0) && size % 8 == 4 && size < B32
      modifies this, repr
      ensures fresh(repr - old(repr)) && old(repr) <= repr
      ensures (found <==> fits) && (trapped <==> !found && widening == ByZeros)
      ensures !trapped ==> Usable() && if found then Cut(s, size, p) else Exhausted(s)
      ensures found ==> ServedAt(f, size, p)
    {
      ghost var k: nat := 0;
      var more := true;
      trapped, found, p := trapped0, found0, p0;
      while more && !found && !trapped
        invariant fresh(repr - old(repr)) && old(repr) <= repr
        invariant Trying(size, s, fits, f, k, trapped, more, found, p)
        decreases more && !found && !trapped, Usable(), limit * PAGE - brk
      {
        trapped, more, found, p := Retry(size, s, fits, f, k);
        k := k + 1;
      }
    }

    /** The active heap as it is. */
    method CutFirst(size: nat, ghost s: seq<Snap>) returns (trapped: bool, found: bool, p: nat)
      requires Usable() && actualSize == HEAPS && AllStill(s, snaps) && size % 8 == 4 && size < B32
      requires activeHeap < |snaps| && NoWrap(snaps, At(), size)
      modifies this`snaps, repr
      ensures old(activeHeap < |snaps|)
      ensures Trying(size, s, old(Enough(snaps, At(), size)), old(FrontierOf(snaps, At())), 0, trapped, true, found, p)
    {
      ActiveHeap(snaps, At());
      FewestPages(FrontierOf(snaps, At()), 0, size);
      trapped, found, p := CutActive(size, s);
    }

    /** The block was cut with the fewest pages, and the frontier is behind it. */
    ghost predicate ServedAt(f: Frontier, size: nat, p: nat)
      reads this
    {
      activeHeap < |snaps| && FrontierOf(snaps, At()) == Served(f, size) &&
      snaps[activeHeap].base + p == BlockAt(f, size)
    }

    /** What the search for memory has come to; it fits or not from the start. */
    ghost predicate Trying(size: nat, s: seq<Snap>, fits: bool, f: Frontier, k: nat, trapped: bool, more: bool,
        found: bool, p: nat)
      reads this, heaps
    {
      if trapped then !found && !fits && widening == ByZeros
      else if found then Usable() && Cut(s, size, p) && fits && ServedAt(f, size, p)
      else if !more then Usable() && Exhausted(s) && !fits && widening == BySign
      else
        && AllStill(s, snaps) && actualSize == HEAPS && brk <= limit * PAGE
        && activeHeap < |snaps| && NoWrap(snaps, At(), size)
        && if Usable() then activeHeap < |heaps| && Wanting(snaps, At(), size, fits) && Pending(f, k, size)
           else Lost() && !fits
    }

    /** So many pages have been added, and more are needed. */
    ghost predicate Pending(f: Frontier, k: nat, size: nat)
      reads this
    {
      && activeHeap < |snaps| && FrontierOf(snaps, At()) == MorePages(f, k)
      && 0 <= RoomOf(f) < size + MARKER && k < PagesNeeded(f, size)
    }

    /** A block of the active heap has been handed out. */
    ghost predicate Cut(s: seq<Snap>, size: nat, p: nat)
      reads this, heaps
    {
      activeHeap < |heaps| && Handed(s, snaps, activeHeap, p, size)
    }

    /** There is no more memory from the host, and all heaps are full. */
    ghost predicate Exhausted(s: seq<Snap>)
      reads this, heaps
    {
      AllStill(s, snaps) && actualSize == |heaps| && activeFreeHeap == 0
    }

    /** Once more, with more memory. */
    method Retry(size: nat, ghost s: seq<Snap>, ghost fits: bool, ghost f: Frontier, ghost k: nat)
        returns (trapped: bool, more: bool, found: bool, p: nat)
      requires Trying(size, s, fits, f, k, false, true, false, 0) && size % 8 == 4 && size < B32
      modifies this, repr
      ensures fresh(repr - old(repr)) && old(repr) <= repr
      ensures Trying(size, s, fits, f, k + 1, trapped, more, found, p)
      ensures more && !found && !trapped ==> (old(Usable()) && !Usable()) || (old(Usable()) && old(brk) < brk)
    {
      ghost var t, at := snaps, At();
      trapped, more := NextActiveHeap();
      if trapped {
        return true, false, false, 0;
      }
      AllStillTrans(s, t, snaps);
      if !more {
        return false, false, false, 0;
      }
      trapped, found, p := CutOnce(size, s, fits, f, k + 1);
    }

    /** A page has been added, or the host's refusal was not noticed. */
    ghost predicate Added(size: nat, s: seq<Snap>, fits: bool, f: Frontier, k: nat)
      reads this, heaps
    {
      && AllStill(s, snaps) && actualSize == HEAPS && brk <= limit * PAGE
      && activeHeap < |snaps| && NoWrap(snaps, At(), size)
      && if Usable() then
           && activeHeap < |heaps| && 0 <= RoomOf(f) < size + MARKER && k <= PagesNeeded(f, size)
           && FrontierOf(snaps, At()) == MorePages(f, k) && Left(snaps, At()) <= Reach(snaps, At())
           && (fits <==> size + MARKER <= Reach(snaps, At()))
         else Lost() && !fits
    }

    method CutOnce(size: nat, ghost s: seq<Snap>, ghost fits: bool, ghost f: Frontier, ghost k: nat)
        returns (trapped: bool, found: bool, p: nat)
      requires Added(size, s, fits, f, k) && k > 0 && size % 8 == 4 && size < B32
      modifies this`snaps, repr
      ensures Trying(size, s, fits, f, k, trapped, true, found, p)
      ensures !found && !trapped ==> Usable() == old(Usable())
    {
      if Usable() { FewestPages(f, k, size); }
      trapped, found, p := CutActive(size, s);
    }

    method CutActive(size: nat, ghost s: seq<Snap>) returns (trapped: bool, found: bool, p: nat)
      requires (Usable() || Lost()) && actualSize == HEAPS && AllStill(s, snaps) && size % 8 == 4 && size < B32
      requires activeHeap < |snaps| && NoWrap(snaps, At(), size)
      modifies this`snaps, repr
      ensures activeHeap < |heaps| == |snaps|
      ensures old(Lost()) ==> !found && (!trapped ==> Lost() && !Usable() && snaps == old(snaps))
      ensures old(Usable()) ==> !trapped && Usable() && (found <==> size + MARKER <= old(Left(snaps, At())))
      ensures old(Usable()) ==> if found then Cut(s, size, p) else snaps == old(snaps)
      ensures old(Usable()) && found ==>
        p == old(snaps[activeHeap]).offset + MARKER &&
        FrontierOf(snaps, At()) == old(FrontierOf(snaps, At())).(offset := p + size)
    {
      ghost var t := snaps;
      ActiveHeap(t, At());
      InMemory(t, At());
      var current := heaps[activeHeap];
      if current.offset + size + MARKER <= |current.heap| && OutOfMemory(current.base + current.offset) {
        return true, false, 0;
      }
      p := current.Malloc(size);
      found, trapped := p != 0, false;
      if found {
        snaps := t[activeHeap := SnapOf(current)];
        ActiveChanged(t, snaps, At());
        HandedNow(s, t, snaps, activeHeap, p, size);
      }
    }

    /** Look through the freed blocks of all heaps, from where the last search ended.  This
        is about the loop from a given state; Search comes here only when a refusal was
        noticed. */
    method TryFreed(size: nat, ghost s: seq<Snap>) returns (checkFailed: bool, found: bool, p: nat)
      requires Usable() && actualSize == |heaps| && snaps == s && size % 8 == 4
      modifies this`activeFreeHeap, this`snaps, repr
      ensures Usable() && !checkFailed
      ensures if found then Taken(s, size, p) else AllStill(s, snaps) && NoRun(s, size)
      ensures found ==> FirstInTurn(s, old(activeFreeHeap), activeFreeHeap, size, p)
    {
      var end := activeFreeHeap;
      ghost var seen: set<nat> := {};
      var first := true;
      checkFailed, found, p := false, false, 0;
      while !found && (first || activeFreeHeap != end)
        invariant Usable() && |heaps| == |s| && actualSize == |heaps| && !checkFailed
        invariant found ==> Taken(s, size, p) && FirstInTurn(s, end, activeFreeHeap, size, p)
        invariant !found ==> Seen(|s|, end, activeFreeHeap, first, seen) && Searched(s, snaps, seen, size)
        decreases !found, |s| - |seen|
      {
        checkFailed, found, p, seen := Look(size, end, first, s, seen);
        first := false;
      }
      if !found { AllSearched(s, snaps, end, activeFreeHeap, seen, size); }
    }

    /** A freed block has been handed out. */
    ghost predicate Taken(s: seq<Snap>, size: nat, p: nat)
      reads this, heaps
    {
      activeFreeHeap < |heaps| && Handed(s, snaps, activeFreeHeap, p, size)
    }

    /** One heap of the search. */
    method Look(size: nat, ghost end: nat, ghost first: bool, ghost s: seq<Snap>, ghost seen: set<nat>)
        returns (checkFailed: bool, found: bool, p: nat, ghost seen': set<nat>)
      requires Usable() && actualSize == |heaps| == |s| && size % 8 == 4
      requires Seen(|s|, end, activeFreeHeap, first, seen) && Searched(s, snaps, seen, size) &&
        (first || activeFreeHeap != end)
      modifies this`activeFreeHeap, this`snaps, repr
      ensures Usable() && !checkFailed && |heaps| == |s|
      ensures found ==> FirstInTurn(s, end, activeFreeHeap, size, p)
      ensures if found then Taken(s, size, p) else
        Seen(|s|, end, activeFreeHeap, false, seen') && Searched(s, snaps, seen', size) &&
        |seen'| == |seen| + 1 <= |s|
    {
      seen' := seen + {activeFreeHeap};
      SeenMore(|s|, end, activeFreeHeap, first, seen);
      PassedInTurn(s, snaps, end, activeFreeHeap, first, seen, size);
      checkFailed, found, p := TakeFreed(size, s, seen);
      if !found {
        activeFreeHeap := activeFreeHeap + 1;
        if activeFreeHeap == actualSize {
          activeFreeHeap := 0;
        }
      }
    }

    method TakeFreed(size: nat, ghost s: seq<Snap>, ghost seen: set<nat>)
        returns (checkFailed: bool, found: bool, p: nat)
      requires Usable() && actualSize == |heaps| && size % 8 == 4
      requires Searched(s, snaps, seen, size) && activeFreeHeap !in seen
      modifies this`snaps, repr
      ensures Usable() && !checkFailed && (found ==> FirstRun(s[activeFreeHeap].blocks, size, p))
      ensures if found then Taken(s, size, p) else Searched(s, snaps, seen + {activeFreeHeap}, size)
    {
      ghost var t := snaps;
      var heap := heaps[activeFreeHeap];
      assert Held(t, activeFreeHeap, brk) && Full(t, activeFreeHeap);
      checkFailed, p := heap.MallocFromFreed(size);
      found := p != 0;
      snaps := t[activeFreeHeap := SnapOf(heap)];
      assert Held(snaps, activeFreeHeap, brk) && Full(snaps, activeFreeHeap);
      HeapChanged(t, snaps, activeFreeHeap, At());
      assert SearchedAt(s, t, activeFreeHeap, activeFreeHeap in seen, size);
      if found {
        TakenNow(s, t, snaps, seen, activeFreeHeap, p, size);
      } else {
        assert StillAt(t, snaps, activeFreeHeap);
        SearchedMore(s, t, snaps, seen, size, activeFreeHeap);
      }
    }

    /** The first request makes the first heap. */
    method Start(ghost size: nat)
      requires Valid()
      modifies this
      ensures Usable() && AllStill(old(snaps), snaps) && brk == old(brk)
      ensures Suffices(snaps, At(), size) <==> old(Suffices(snaps, At(), size))
      ensures Wraps(snaps, At(), size) <==> old(Wraps(snaps, At(), size))
      ensures Behind(snaps, At()) <==> old(Behind(snaps, At()))
      ensures FirstFrontier(snaps, At()) == old(FirstFrontier(snaps, At()))
      ensures TurnOf(snaps, At()) == old(TurnOf(snaps, At()))
      ensures fresh(repr - old(repr)) && old(repr) <= repr
    {
      ghost var s, at := snaps, At();
      if actualSize == 0 {
        actualSize := HEAPS;
      }
      if activeHeap < actualSize && activeHeap == 0 && |heaps| == 0 {
        var first := new HeaderHeap.Init(initialHeap, Zeros(INITIAL));
        heaps, repr, snaps := [first], repr + {first}, [SnapOf(first)];
        FirstLayout(at, snaps[0], At());
      } else {
        SelfStill(s);
      }
    }

    /** It traps exactly when the memory the host can still give does not suffice and its
        refusal is not noticed.  Null only when the refusal is noticed, and no run of free
        blocks has room.  A size that wraps around is answered wrongly: with a block that
        overlaps others or the end of memory, or with one of 4 bytes. */
    method Malloc(size0: nat) returns (trapped: bool, checkFailed: bool, p: nat, ghost size: nat, ghost mid: seq<Snap>)
      requires Valid() && size0 < B32
      modifies this, repr
      ensures fresh(repr - old(repr)) && old(repr) <= repr
      ensures if size0 == 0 then !trapped && p == 0 else Adjusted(size0, size)
      ensures size0 > 0 && old(Wraps(snaps, At(), size)) ==>
        (trapped <==> old(Behind(snaps, At()))) && (!trapped ==> p != 0 && !(Valid() && Holds(snaps, (p, size))))
      ensures size0 > 0 && !old(Wraps(snaps, At(), size)) ==>
        (trapped <==> widening == ByZeros && !old(Suffices(snaps, At(), size)))
      ensures !trapped && size0 > 0 ==>
        (Valid() && (p != 0 ==> Joined(old(snaps), snaps, p, size) && size0 <= size) <==>
         !old(Wraps(snaps, At(), size)) && (size0 <= B32 - 4 || p == 0))
      ensures !trapped && (size0 > 0 ==> !old(Wraps(snaps, At(), size))) ==>
        && Valid() && !checkFailed && AllKept(old(snaps), snaps)
        && (p == 0 ==> SameHeld(old(snaps), snaps))
        && (p != 0 ==> Joined(old(snaps), snaps, p, size))
        && (size0 == 0 ==> FirstFrontier(snaps, At()) == old(FirstFrontier(snaps, At())))
        && (size0 > 0 && old(Suffices(snaps, At(), size)) ==>
             CutFrom(old(FirstFrontier(snaps, At())), FirstFrontier(snaps, At()), size, p))
        && (p == 0 && size0 > 0 ==> NothingFits(old(snaps), mid, size))
        && (p != 0 && !old(Suffices(snaps, At(), size)) ==> FreedAt(old(snaps), mid, old(TurnOf(snaps, At())), size, p))
    {
      ghost var s := snaps;
      trapped, checkFailed, p, size, mid := false, false, 0, 0, s;
      if size0 == 0 {
        SelfStill(s);
        StillPayloads(s, s);
        return;
      }
      var size' := AdjustToMemBlock(size0);
      size := size';
      Start(size);
      if activeHeap < actualSize && heaps[activeHeap].offset + size' + MARKER >= B32 {
        trapped, p := CutWrapped(size');
        return;
      }
      ghost var fits, f, turn := Suffices(snaps, At(), size), FirstFrontier(snaps, At()), TurnOf(snaps, At());
      trapped, checkFailed, p, mid := Find(size', s, fits, f, turn);
    }

    /** No block for a request, neither at the end of a heap nor among the freed ones. */
    ghost predicate NothingFits(s: seq<Snap>, mid: seq<Snap>, size: nat)
      reads this
    {
      AllStill(s, mid) && NoRun(mid, size) && AllFull(mid) && brk + PAGE > limit * PAGE && widening == BySign
    }

    /** What the state before the call tells: whether memory suffices, where the block goes,
        and where the search among the freed ones starts. */
    ghost predicate Told(size: nat, fits: bool, f: Frontier, turn: nat)
      reads this
    {
      fits == Suffices(snaps, At(), size) && f == FirstFrontier(snaps, At()) && turn == TurnOf(snaps, At())
    }

    /** A request that does not wrap around; p is an address. */
    method Find(size: nat, ghost s: seq<Snap>, ghost fits: bool, ghost f: Frontier, ghost turn: nat)
        returns (trapped: bool, checkFailed: bool, p: nat, ghost mid: seq<Snap>)
      requires Usable() && AllStill(s, snaps) && size % 8 == 4 && size < B32 && !Wraps(snaps, At(), size)
      requires Told(size, fits, f, turn)
      modifies this, repr
      ensures fresh(repr - old(repr)) && old(repr) <= repr
      ensures trapped <==> widening == ByZeros && !fits
      ensures !trapped ==>
        && Valid() && !checkFailed && AllKept(s, snaps)
        && (fits ==> CutFrom(f, FirstFrontier(snaps, At()), size, p))
        && (!fits && p != 0 ==> FreedAt(s, mid, turn, size, p))
        && if p != 0 then Joined(s, snaps, p, size) else SameHeld(s, snaps) && NothingFits(s, mid, size)
    {
      var found, h, at;
      p := 0;
      trapped, checkFailed, found, h, at, mid := Search(size, s, fits, f, turn);
      if trapped {
        return;
      }
      if found {
        HandedPayloads(s, snaps, h, at, size, At());
        p := heaps[h].base + at;
      } else {
        StillPayloads(s, snaps);
      }
    }

    /** The first round of the search when the size wraps around: the active heap hands a
        block out, whatever it has left. */
    method CutWrapped(size: nat) returns (trapped: bool, p: nat)
      requires Usable() && activeHeap < |snaps| && actualSize == HEAPS && !NoWrap(snaps, At(), size)
      requires size % 8 == 4 && size < B32
      modifies this`snaps, repr
      ensures trapped <==> old(Behind(snaps, At()))
      ensures !trapped ==> p > 0 && !(Valid() && Holds(snaps, (p, size)))
    {
      ghost var s, at := snaps, At();
      assert Held(s, activeHeap, brk);
      var current := heaps[activeHeap];
      if OutOfMemory(current.base + current.offset) {
        return true, 0;
      }
      p := current.Malloc(size);
      p := current.base + p;
      snaps := s[activeHeap := SnapOf(current)];
      trapped := false;
      TooLong(snaps, At(), p, size);
    }

    /** All heaps are full, and the block is the first freed one in turn. */
    ghost predicate FromFreed(s: seq<Snap>, mid: seq<Snap>, end: nat, size: nat, p: nat)
      reads this
    {
      AllStill(s, mid) && AllFull(mid) && FirstInTurn(mid, end, activeFreeHeap, size, p)
    }

    /** The same, for an address. */
    ghost predicate FreedAt(s: seq<Snap>, mid: seq<Snap>, end: nat, size: nat, p: nat)
      reads this
    {
      && activeFreeHeap < |mid| && mid[activeFreeHeap].base <= p
      && FromFreed(s, mid, end, size, p - mid[activeFreeHeap].base)
    }

    /** The active heap first, then the freed blocks; p is an offset in heap h. */
    method Search(size: nat, ghost s: seq<Snap>, ghost fits: bool, ghost f: Frontier, ghost turn: nat)
        returns (trapped: bool, checkFailed: bool, found: bool, h: nat, p: nat, ghost mid: seq<Snap>)
      requires Usable() && AllStill(s, snaps) && size % 8 == 4 && size < B32 && !Wraps(snaps, At(), size)
      requires Told(size, fits, f, turn)
      modifies this, repr
      ensures fresh(repr - old(repr)) && old(repr) <= repr
      ensures trapped <==> widening == ByZeros && !fits
      ensures !trapped ==> Usable() && !checkFailed && (fits ==> found)
      ensures !trapped && found ==> h < |heaps| && Handed(s, snaps, h, p, size)
      ensures !trapped && fits ==> h == activeHeap && ServedAt(f, size, p)
      ensures !trapped && !found ==> AllStill(s, snaps) && NothingFits(s, mid, size)
      ensures !trapped && found && !fits ==>
        h == activeFreeHeap < |mid| && mid[h].base == heaps[h].base && FromFreed(s, mid, turn, size, p)
    {
      trapped, checkFailed, found, h, p, mid := false, false, false, 0, 0, snaps;
      if activeHeap < actualSize {
        trapped, found, p := TryActive(size, s);
        if trapped || found {
          h := activeHeap;
          return;
        }
      }
      mid := snaps;
      FullNow(mid, At());
      checkFailed, found, p := TryFreed(size, mid);
      h := activeFreeHeap;
      if found { HandedLater(s, mid, snaps, h, p, size); } else { AllStillTrans(s, mid, snaps); }
    }

    /** The heap a pointer lies in gives its block up; every other block stays. */
    method Free(p: nat, ghost size: nat)
      requires Valid() && (p == 0 || Holds(snaps, (p, size)))
      modifies this`snaps, repr
      ensures Valid() && AllKept(old(snaps), snaps)
      ensures if p == 0 then snaps == old(snaps) else Released(old(snaps), snaps, p, size)
      ensures FirstFrontier(snaps, At()) == old(FirstFrontier(snaps, At()))
    {
      ghost var s := snaps;
      if p == 0 {
        SelfStill(s);
        return;
      }
      ghost var h := OwnHeap(s, At(), p, size);
      var j := 0;
      while j < actualSize && j < |heaps|
        invariant j <= h && Valid() && snaps == s
      {
        NotOther(s, At(), h, j, p, size);
        if IsInHeap(heaps[j], p) {
          FreeIn(j, p, size);
          return;
        }
        j := j + 1;
      }
    }

    method FreeIn(h: nat, p: nat, ghost size: nat)
      requires Valid() && h < |heaps| && HoldsAt(snaps, h, (p, size))
      modifies this`snaps, repr
      ensures Valid() && AllKept(old(snaps), snaps)
      ensures Released(old(snaps), snaps, p, size) && FirstFrontier(snaps, At()) == old(FirstFrontier(snaps, At()))
    {
      ghost var s, at := snaps, At();
      FreeBlock(h, p - heaps[h].base, size);
      FreedPayloads(s, snaps, h, p, size, at);
    }

    method FreeBlock(h: nat, p: nat, ghost size: nat)
      requires Valid() && h < |heaps| && (p, size) in HandedIn(snaps, h)
      modifies this`snaps, repr
      ensures Valid() && OthersStill(old(snaps), snaps, h) && KeptAt(old(snaps), snaps, h)
      ensures HandedIn(snaps, h) == old(HandedIn(snaps, h)) - {(p, size)}
      ensures FirstFrontier(snaps, At()) == old(FirstFrontier(snaps, At()))
    {
      ghost var s := snaps;
      var heap := heaps[h];
      ghost var i := BlockOf(heap.blocks, p, size);
      assert Held(s, h, brk) && (h < activeHeap ==> Full(s, h));
      heap.Free(p, i);
      snaps := s[h := SnapOf(heap)];
      assert Held(snaps, h, brk);
      HeapChanged(s, snaps, h, At());
    }
  }

  /** One page, and no more: a request for more than the initial heap has is refused. */
  lemma OnePage(size: nat)
    ensures Suffices([], Place(PAGE, 1, 1024, 0, 0, 0, ByZeros), size) <==> size <= INITIAL - MARKER
  {
    assert |Zeros(INITIAL)| == INITIAL;
  }

  /** At the limit the next heap is put at address 2^32 - 1. */
  method RefusedAtLimit() returns (m: Manager)
    ensures fresh(m) && !m.Valid() && |m.heaps| > 0 && m.heaps[|m.heaps| - 1].base == 0xFFFF_FFFF
  {
    m := new Manager(1024, 1, 1, ByZeros);
    m.Start(0);
    ActiveHeap(m.snaps, m.At());
    var trapped, found := m.NextActiveHeap();
    ActiveHeap(m.snaps, m.At());
  }

  /** So malloc traps, where it was meant to return null. */
  method TrapsAtLimit() returns (trapped: bool)
    ensures trapped
  {
    var m := new Manager(1024, 1, 1, ByZeros);
    var checkFailed, p;
    ghost var size, mid;
    trapped, checkFailed, p, size, mid := m.Malloc(8192);
    OnePage(size);
  }

  /** The first request is for 2^32 - 8 bytes: it gets a block of none. */
  method HandsOutNothing() returns (m: Manager, p: nat)
    ensures fresh(m) && p != 0 && !(m.Valid() && Holds(m.snaps, (p, 0xFFFF_FFFC)))
  {
    m := new Manager(1024, 1, 1, ByZeros);
    var trapped, checkFailed;
    ghost var size, mid;
    trapped, checkFailed, p, size, mid := m.Malloc(0xFFFF_FFF8);
    assert size == 0xFFFF_FFFC;
  }

  /** The last three sizes get 4 bytes, if they get a block. */
  lemma LastSizes(size0: nat, size: nat)
    requires size0 < B32 && Adjusted(size0, size)
    ensures size < size0 <==> size0 > B32 - 4
  {
  }

  predicate IsInHeap(heap: HeaderHeap, p: nat)
    reads heap
  {
    heap.base + MARKER <= p < heap.base + |heap.heap|
  }

  ghost function SnapOf(h: HeaderHeap): Snap
    reads h
  {
    Snap(h.heap, h.blocks, h.offset, h.base)
  }

  /** Heap k is full now. */
  ghost predicate Retired(s: seq<Snap>, t: seq<Snap>, k: nat) {
    && k < |s| == |t| && (forall i :: 0 <= i < |s| && i != k ==> t[i] == s[i])
    && Inv(t[k].heap, t[k].offset, t[k].blocks) && t[k].offset == |t[k].heap| == |s[k].heap| && t[k].base == s[k].base
  }

  lemma AdjIsPage(current: nat)
    requires current % PAGE == 0
    ensures HeapAdj(current) == PAGE
  {
  }

  lemma Pages(brk: nat, num0: nat, num: nat, current: nat, desired: nat, limit: nat)
    requires brk % PAGE == 0 && num == (num0 + 7) / 8 * 8 && current == brk / PAGE &&
      desired == (brk + num + PAGE - 1) / PAGE
    requires brk <= limit * PAGE
    ensures num0 <= num < num0 + 8
    ensures num0 % PAGE == 0 ==> num == num0 && (desired > current && desired > limit <==> brk + num0 > limit * PAGE)
  {
    if num0 % PAGE == 0 {
      WholePages(brk / PAGE, num0 / PAGE);
      assert num0 == num0 / PAGE * PAGE && brk == brk / PAGE * PAGE;
    }
  }

  lemma WholePages(b: nat, k: nat)
    ensures (k * PAGE + 7) / 8 * 8 == k * PAGE && (b * PAGE + k * PAGE + PAGE - 1) / PAGE == b + k
  {
    DivMul(b + k, PAGE, PAGE - 1);
    DivMul(k * 0x2000, 8, 7);
  }

  /** Heap k has a page more. */
  ghost predicate Grown(s: seq<Snap>, t: seq<Snap>, k: nat) {
    && k < |s| == |t| && (forall i :: 0 <= i < |s| && i != k ==> t[i] == s[i])
    && Inv(t[k].heap, t[k].offset, t[k].blocks) && t[k] == s[k].(heap := s[k].heap + Zeros(PAGE))
  }

  lemma OneStill(s: seq<Snap>, t: seq<Snap>, k: nat)
    requires OthersStill(s, t, k) && StillAt(s, t, k)
    ensures AllStill(s, t)
  {
    forall i: nat
      ensures StillAt(s, t, i)
    {
    }
  }

  /** One heap changes, and stays in order. */
  lemma HeapChanged(s: seq<Snap>, t: seq<Snap>, k: nat, at: Place)
    requires Layout(s, at) && OthersStill(s, t, k) && k < |s| && Held(t, k, at.brk)
    requires t[k].base == s[k].base && |t[k].heap| == |s[k].heap| && (k < at.active ==> Full(t, k))
    ensures Layout(t, at)
  {
    forall i | 0 <= i < |t|
      ensures Held(t, i, at.brk) && (i < at.active ==> Full(t, i))
    {
      assert Held(s, i, at.brk) && (i < at.active ==> Full(s, i));
    }
  }

  /** The last heap is active. */
  ghost predicate Usual(s: seq<Snap>, at: Place) { Layout(s, at) && |s| > 0 && at.actual == HEAPS }

  lemma ActiveHeap(s: seq<Snap>, at: Place)
    requires Usual(s, at) || Misplaced(s, at)
    ensures at.active == |s| - 1 && var last := s[at.active]; Inv(last.heap, last.offset, last.blocks)
    ensures !(Usual(s, at) && Misplaced(s, at))
  {
    if Usual(s, at) { assert Held(s, |s| - 1, at.brk); }
  }

  /** Whether the next header of the active heap would be in memory. */
  lemma InMemory(s: seq<Snap>, at: Place)
    requires (Usual(s, at) || Misplaced(s, at)) && at.active < |s|
    ensures var a := s[at.active];
      && (Usual(s, at) && a.offset < |a.heap| ==> (a.base + a.offset) % B32 + MARKER <= at.brk)
      && (Misplaced(s, at) ==> a.offset < |a.heap| && (a.base + a.offset) % B32 + MARKER > at.brk)
  {
    if Usual(s, at) {
      assert Held(s, at.active, at.brk);
      OffAligned(s[at.active].blocks, |s[at.active].blocks|);
    }
  }

  /** What sbrk answered: the page at the end of memory, or a refusal that will not be
      noticed. */
  ghost predicate Answered(at: Place, start: nat, brk: nat) {
    if start == REFUSED then brk == at.brk && AtLimit(at) && at.widening == ByZeros
    else start == at.brk && brk == at.brk + PAGE <= at.limit * PAGE
  }

  /** Only memory that the host has given continues a heap. */
  lemma Continues(s: seq<Snap>, at: Place, start: nat, brk: nat)
    requires (Usual(s, at) || Misplaced(s, at)) && at.active < |s| && Answered(at, start, brk)
    ensures var a := s[at.active];
      (a.base + |a.heap|) % B32 == start <==> a.base + |a.heap| == at.brk && start != REFUSED
    ensures var a := s[at.active];
      a.base + |a.heap| == at.brk && start != REFUSED ==> Usual(s, at) && |a.heap| + PAGE < ALLOC
  {
    if Usual(s, at) { assert Held(s, at.active, at.brk); }
  }

  /** There is not enough in the active heap; whether there is with the host's help. */
  ghost predicate Wanting(s: seq<Snap>, at: Place, size: nat, fits: bool)
    requires at.active < |s|
  {
    Left(s, at) < size + MARKER && (fits <==> size + MARKER <= Reach(s, at))
  }

  lemma ActiveChanged(s: seq<Snap>, t: seq<Snap>, at: Place)
    requires Usual(s, at) && at.active < |s| && OthersStill(s, t, at.active)
    requires var a := t[at.active];
      Inv(a.heap, a.offset, a.blocks) && a.base == s[at.active].base && |a.heap| == |s[at.active].heap|
    ensures Usual(t, at)
  {
    assert Held(s, at.active, at.brk);
    assert Held(t, at.active, at.brk);
    HeapChanged(s, t, at.active, at);
  }

  lemma MisplacedNow(s: seq<Snap>, t: seq<Snap>, at: Place, next: Snap, at': Place)
    requires Usual(s, at) && Retired(s, t, at.active) && StillAt(s, t, at.active)
    requires AtLimit(at) && at.widening == ByZeros && at' == at.(active := at.active + 1)
    requires next == Snap(Zeros(PAGE), [], 0, REFUSED) && Inv(next.heap, 0, [])
    ensures Misplaced(t + [next], at') && AllStill(s, t + [next])
  {
    var u := t + [next];
    assert Held(s, 0, at.brk);
    forall i: nat
      ensures StillAt(s, u, i)
    {
      if i < |s| && i != at.active { assert u[i] == s[i]; }
      if i == at.active { assert u[i] == t[i]; }
      if i == |s| { assert u[i] == next; }
    }
  }

  lemma RetiredLayout(s: seq<Snap>, t: seq<Snap>, at: Place, at': Place)
    requires Layout(s, at) && |s| > 0 && at.actual == HEAPS && Retired(s, t, at.active)
    requires at' == at.(active := at.active + 1, actual := at.active + 1) && AtLimit(at) && at.widening == BySign
    ensures Layout(t, at')
  {
    forall i | 0 <= i < |t|
      ensures Held(t, i, at'.brk) && Full(t, i)
    {
      assert Held(s, i, at.brk) && (i < at.active ==> Full(s, i));
    }
  }

  lemma GrownLayout(s: seq<Snap>, t: seq<Snap>, at: Place, at': Place)
    requires Layout(s, at) && |s| > 0 && at.actual == HEAPS && Grown(s, t, at.active)
    requires s[at.active].base + |s[at.active].heap| == at.brk
    requires at' == at.(brk := at.brk + PAGE) && at'.brk <= at.limit * PAGE
    ensures Layout(t, at') && AllStill(s, t) && Reach(t, at') == Reach(s, at) && Left(t, at') <= Reach(t, at')
    ensures FrontierOf(t, at') == MorePage(FrontierOf(s, at))
  {
    forall i | 0 <= i < |t|
      ensures Held(t, i, at'.brk) && (i < at'.active ==> Full(t, i))
    {
      assert Held(s, i, at.brk) && (i < at.active ==> Full(s, i));
    }
  }

  /** Only the first heap is ever left for another one. */
  lemma NewLayout(s: seq<Snap>, t: seq<Snap>, at: Place, next: Snap, at': Place)
    requires Layout(s, at) && |s| > 0 && at.actual == HEAPS && Retired(s, t, at.active)
    requires StillAt(s, t, at.active) && s[at.active].base + |s[at.active].heap| != at.brk
    requires next == Snap(Zeros(PAGE), [], 0, at.brk) && Inv(next.heap, 0, [])
    requires at' == at.(active := at.active + 1, brk := at.brk + PAGE) && at'.brk <= at.limit * PAGE
    ensures |s| == 1 && Layout(t + [next], at') && AllStill(s, t + [next])
    ensures Left(t + [next], at') <= Reach(t + [next], at') == Reach(s, at)
    ensures FrontierOf(t + [next], at') == MorePage(FrontierOf(s, at))
  {
    assert |s| == 1 && Held(s, 0, at.brk);
    var u := t + [next];
    assert u[0] == t[0] && u[1] == next;
    assert Held(u, 0, at'.brk) && Held(u, 1, at'.brk) && Full(u, 0);
    assert StillAt(s, u, 0);
  }

  lemma HandedNow(s0: seq<Snap>, s: seq<Snap>, t: seq<Snap>, h: nat, p: nat, size: nat)
    requires AllStill(s0, s) && OthersStill(s, t, h) && h < |s|
    requires HandedOut(Live(s[h].blocks), Live(t[h].blocks), p, size) && KeptAt(s, t, h)
    ensures Handed(s0, t, h, p, size)
  {
    forall i: nat | i != h
      ensures StillAt(s0, t, i)
    {
      assert StillAt(s0, s, i);
      if i < |s| { assert StillAt(s, t, i); }
    }
    assert StillAt(s0, s, h);
    StillTrans(s0, s, t, h);
  }

  lemma HandedLater(s0: seq<Snap>, s: seq<Snap>, t: seq<Snap>, h: nat, p: nat, size: nat)
    requires AllStill(s0, s) && Handed(s, t, h, p, size)
    ensures Handed(s0, t, h, p, size)
  {
    forall i: nat | i != h
      ensures StillAt(s0, t, i)
    {
      assert StillAt(s0, s, i) && StillAt(s, t, i);
      StillTrans(s0, s, t, i);
    }
    assert StillAt(s0, s, h);
    StillTrans(s0, s, t, h);
  }

  /** No heap has a run of adjacent free blocks with room. */
  ghost predicate NoRun(s: seq<Snap>, size: nat) {
    forall i :: 0 <= i < |s| ==> !HasRun(s[i].blocks, size)
  }

  /** The heaps seen have no room, and the others are as they were. */
  ghost predicate Searched(s: seq<Snap>, t: seq<Snap>, seen: set<nat>, size: nat) {
    |s| == |t| && forall i {:trigger SearchedAt(s, t, i, i in seen, size)} :: 0 <= i < |s| ==>
      SearchedAt(s, t, i, i in seen, size)
  }
  ghost predicate SearchedAt(s: seq<Snap>, t: seq<Snap>, i: nat, seen: bool, size: nat)
    requires i < |s| == |t|
  {
    if seen then StillAt(s, t, i) && !HasRun(s[i].blocks, size) else t[i] == s[i]
  }

  lemma SearchedStill(s: seq<Snap>, t: seq<Snap>, seen: set<nat>, size: nat)
    requires Searched(s, t, seen, size)
    ensures AllStill(s, t)
  {
    forall i: nat
      ensures StillAt(s, t, i)
    {
      if i < |s| { assert SearchedAt(s, t, i, i in seen, size); }
    }
  }

  /** Which heaps have been seen, going round from `end` to `next`. */
  ghost predicate Seen(n: nat, end: nat, next: nat, first: bool, seen: set<nat>) {
    && next < n && end < n && (forall i :: i in seen ==> i < n) && (first ==> next == end && seen == {})
    && (!first ==> forall i :: 0 <= i < n ==>
      (i in seen <==> if end < next then end <= i < next else i >= end || i < next))
  }

  /** Going round from `end`, heap i comes before `next`. */
  predicate Earlier(end: nat, next: nat, i: nat) { if end <= next then end <= i < next else i >= end || i < next }

  ghost predicate NoneEarlier(s: seq<Snap>, end: nat, next: nat, size: nat) {
    forall i :: 0 <= i < |s| && Earlier(end, next, i) ==> !HasRun(s[i].blocks, size)
  }

  /** Heap k is the first in turn that has a run with room, and p is its first one. */
  ghost predicate FirstInTurn(s: seq<Snap>, end: nat, k: nat, size: nat, p: nat) {
    k < |s| && FirstRun(s[k].blocks, size, p) && NoneEarlier(s, end, k, size)
  }

  lemma PassedInTurn(s: seq<Snap>, t: seq<Snap>, end: nat, k: nat, first: bool, seen: set<nat>, size: nat)
    requires Seen(|s|, end, k, first, seen) && Searched(s, t, seen, size) && (first || k != end)
    ensures NoneEarlier(s, end, k, size)
  {
    forall i | 0 <= i < |s| && Earlier(end, k, i)
      ensures !HasRun(s[i].blocks, size)
    {
      assert i in seen && SearchedAt(s, t, i, i in seen, size);
    }
  }

  lemma TakenNow(s: seq<Snap>, t: seq<Snap>, u: seq<Snap>, seen: set<nat>, k: nat, p: nat, size: nat)
    requires Searched(s, t, seen, size) && OthersStill(t, u, k) && k < |t| && KeptAt(t, u, k)
    requires HandedOut(Live(t[k].blocks), Live(u[k].blocks), p, size)
    ensures Handed(s, u, k, p, size)
  {
    SearchedStill(s, t, seen, size);
    HandedNow(s, t, u, k, p, size);
  }

  lemma SearchedMore(s: seq<Snap>, t: seq<Snap>, u: seq<Snap>, seen: set<nat>, size: nat, k: nat)
    requires Searched(s, t, seen, size) && k < |s| && k !in seen
    requires OthersStill(t, u, k) && StillAt(t, u, k) && !HasRun(t[k].blocks, size)
    ensures Searched(s, u, seen + {k}, size)
  {
    forall i | 0 <= i < |s|
      ensures SearchedAt(s, u, i, i in seen + {k}, size)
    {
      assert SearchedAt(s, t, i, i in seen, size);
    }
  }

  /** The next heap of the search. */
  lemma SeenMore(n: nat, end: nat, k: nat, first: bool, seen: set<nat>)
    requires Seen(n, end, k, first, seen) && (first || k != end)
    ensures k !in seen && |seen + {k}| == |seen| + 1 <= n
    ensures Seen(n, end, if k + 1 == n then 0 else k + 1, false, seen + {k})
  {
    Few(seen + {k}, n);
  }

  lemma {:induction false} Few(s: set<nat>, n: nat)
    requires forall i :: i in s ==> i < n
    ensures |s| <= n
  {
    if n > 0 {
      Few(s - {n - 1}, n - 1);
      assert |s| <= |s - {n - 1}| + 1;
    } else {
      assert s == {};
    }
  }

  /** The search has come round. */
  lemma AllSearched(s: seq<Snap>, t: seq<Snap>, end: nat, next: nat, seen: set<nat>, size: nat)
    requires Seen(|s|, end, next, false, seen) && next == end && Searched(s, t, seen, size)
    ensures AllStill(s, t) && NoRun(s, size)
  {
    SearchedStill(s, t, seen, size);
    forall i | 0 <= i < |s|
      ensures !HasRun(s[i].blocks, size)
    {
      assert i in seen && SearchedAt(s, t, i, i in seen, size);
    }
  }

  lemma SelfStill(s: seq<Snap>)
    ensures AllStill(s, s) && AllKept(s, s)
  {
  }

  lemma FirstLayout(at: Place, first: Snap, at': Place)
    requires Layout([], at) && first == Snap(Zeros(INITIAL), [], 0, at.initialHeap) && Inv(first.heap, 0, [])
    requires at' == at.(actual := HEAPS)
    ensures Layout([first], at') && AllStill([], [first])
  {
    assert Held([first], 0, at'.brk);
  }

  /** Every heap is full. */
  ghost predicate AllFull(s: seq<Snap>) {
    forall i {:trigger Full(s, i)} :: 0 <= i < |s| ==> Full(s, i)
  }

  lemma FullNow(s: seq<Snap>, at: Place)
    requires Layout(s, at) && |s| > 0 && at.actual == |s|
    ensures AllFull(s) && AtLimit(at) && at.widening == BySign
  {
  }

  // ----- all payloads

  lemma StillPayloads(s: seq<Snap>, t: seq<Snap>)
    requires AllStill(s, t)
    ensures SameHeld(s, t) && AllKept(s, t)
  {
    forall i: nat
      ensures KeptAt(s, t, i)
    {
      assert StillAt(s, t, i);
    }
    forall q: (nat, nat)
      ensures Holds(t, q) <==> Holds(s, q)
    {
      if i: nat :| HoldsAt(t, i, q) { assert StillAt(s, t, i) && HoldsAt(s, i, q); }
      if i: nat :| HoldsAt(s, i, q) { assert StillAt(s, t, i) && HoldsAt(t, i, q); }
    }
  }

  /** Payloads lie inside their heaps. */
  lemma LiveInside(s: seq<Snap>, at: Place, h: nat, q: (nat, nat))
    requires Layout(s, at) && h < |s| && q in HandedIn(s, h)
    ensures MARKER <= q.0 && q.0 + q.1 <= |s[h].heap| && q.1 > 0
  {
    assert Held(s, h, at.brk);
    var blocks := s[h].blocks;
    var i :| 0 <= i < |blocks| && blocks[i].live && q == (Off(blocks, i) + MARKER, blocks[i].size);
    BlockFits(s[h].heap, s[h].offset, blocks, i);
  }

  /** Heaps do not overlap. */
  lemma HeapsApart(s: seq<Snap>, at: Place, h: nat, k: nat)
    requires Layout(s, at) && h < |s| && k < |s| && h != k
    ensures s[h].base + |s[h].heap| <= s[k].base || s[k].base + |s[k].heap| <= s[h].base
  {
  }

  /** All payloads handed out are apart, and inside the memory the host has given. */
  lemma PayloadsApart(s: seq<Snap>, at: Place, p: (nat, nat), q: (nat, nat))
    requires Layout(s, at) && Holds(s, p) && Holds(s, q)
    ensures p.0 + p.1 <= at.brk && (p != q ==> p.0 + p.1 <= q.0 || q.0 + q.1 <= p.0)
  {
    var h: nat :| HoldsAt(s, h, p);
    var k: nat :| HoldsAt(s, k, q);
    HeldApart(s, at, h, p, k, q);
  }

  lemma HeldApart(s: seq<Snap>, at: Place, h: nat, p: (nat, nat), k: nat, q: (nat, nat))
    requires Layout(s, at) && HoldsAt(s, h, p) && HoldsAt(s, k, q)
    ensures p.0 + p.1 <= at.brk && (p != q ==> p.0 + p.1 <= q.0 || q.0 + q.1 <= p.0) && (h != k ==> p.0 != q.0)
  {
    var p0, q0 := (p.0 - s[h].base, p.1), (q.0 - s[k].base, q.1);
    LiveInside(s, at, h, p0);
    LiveInside(s, at, k, q0);
    assert Held(s, h, at.brk);
    if h != k {
      HeapsApart(s, at, h, k);
    } else if p0 != q0 {
      LiveApart(s[h].blocks, p0, q0);
    }
  }

  /** A payload does not reach behind the end of memory. */
  lemma TooLong(s: seq<Snap>, at: Place, p: nat, size: nat)
    requires p + size > at.brk
    ensures !(Layout(s, at) && Holds(s, (p, size)))
  {
    if Layout(s, at) && Holds(s, (p, size)) { PayloadsApart(s, at, (p, size), (p, size)); }
  }

  lemma HandedPayloads(s: seq<Snap>, t: seq<Snap>, h: nat, p: nat, size: nat, at: Place)
    requires Handed(s, t, h, p, size) && Layout(t, at)
    ensures Joined(s, t, t[h].base + p, size) && AllKept(s, t) && t[h].base + p > 0
  {
    var r := (t[h].base + p, size);
    HandedAll(s, t, h, p, size);
    assert (p, size) in HandedIn(t, h) && HoldsAt(t, h, r);
    forall q: (nat, nat)
      ensures Holds(t, q) <==> Holds(s, q) || q == r
      ensures Holds(s, q) ==> q.0 + q.1 <= r.0 || r.0 + r.1 <= q.0
    {
      if i: nat :| HoldsAt(t, i, q) { HandedInto(s, t, h, p, size, i, q); }
      if i: nat :| HoldsAt(s, i, q) { HandedBack(s, t, h, p, size, at, i, q); }
    }
    LiveInside(t, at, h, (p, size));
  }

  lemma HandedInto(s: seq<Snap>, t: seq<Snap>, h: nat, p: nat, size: nat, i: nat, q: (nat, nat))
    requires Handed(s, t, h, p, size) && HoldsAt(t, i, q)
    ensures HoldsAt(s, i, q) || q == (t[h].base + p, size)
  {
    HandedAll(s, t, h, p, size);
    assert KeptAt(s, t, i) && (q.0 - t[i].base, q.1) in HandedIn(t, i);
  }

  lemma HandedBack(s: seq<Snap>, t: seq<Snap>, h: nat, p: nat, size: nat, at: Place, i: nat, q: (nat, nat))
    requires Handed(s, t, h, p, size) && Layout(t, at) && HoldsAt(s, i, q)
    ensures HoldsAt(t, i, q) && (q.0 + q.1 <= t[h].base + p || t[h].base + p + size <= q.0)
  {
    HandedAll(s, t, h, p, size);
    assert KeptAt(s, t, i) && (q.0 - s[i].base, q.1) in HandedIn(t, i);
    assert (p, size) in HandedIn(t, h) && HoldsAt(t, h, (t[h].base + p, size));
    if i != h { HeldApart(t, at, i, q, h, (t[h].base + p, size)); }
  }

  lemma HandedAll(s: seq<Snap>, t: seq<Snap>, h: nat, p: nat, size: nat)
    requires Handed(s, t, h, p, size)
    ensures AllKept(s, t)
    ensures forall i: nat {:trigger HandedIn(t, i)} :: HandedIn(t, i) == HandedIn(s, i) + if i == h then {(p, size)}
      else {}
  {
    forall i: nat
      ensures KeptAt(s, t, i) && HandedIn(t, i) == HandedIn(s, i) + if i == h then {(p, size)} else {}
    {
      if i != h { assert StillAt(s, t, i); }
    }
  }

  ghost predicate FreedIn(s: seq<Snap>, t: seq<Snap>, h: nat, p: nat, size: nat) {
    && OthersStill(s, t, h) && KeptAt(s, t, h) && HoldsAt(s, h, (p, size))
    && HandedIn(t, h) == HandedIn(s, h) - {(p - s[h].base, size)}
  }

  lemma FreedPayloads(s: seq<Snap>, t: seq<Snap>, h: nat, p: nat, size: nat, at: Place)
    requires Layout(s, at) && FreedIn(s, t, h, p, size)
    ensures Released(s, t, p, size) && AllKept(s, t)
  {
    forall i: nat
      ensures KeptAt(s, t, i)
    {
    }
    forall q: (nat, nat)
      ensures Holds(t, q) <==> Holds(s, q) && q != (p, size)
    {
      if i: nat :| HoldsAt(t, i, q) { FreedInto(s, t, h, p, size, at, i, q); }
      if i: nat :| HoldsAt(s, i, q) && q != (p, size) { FreedBack(s, t, h, p, size, i, q); }
    }
  }

  lemma FreedInto(s: seq<Snap>, t: seq<Snap>, h: nat, p: nat, size: nat, at: Place, i: nat, q: (nat, nat))
    requires Layout(s, at) && FreedIn(s, t, h, p, size) && HoldsAt(t, i, q)
    ensures HoldsAt(s, i, q) && q != (p, size)
  {
    assert KeptAt(s, t, i) && (q.0 - s[i].base, q.1) in HandedIn(s, i);
    if i != h { HeldApart(s, at, i, q, h, (p, size)); }
  }

  lemma FreedBack(s: seq<Snap>, t: seq<Snap>, h: nat, p: nat, size: nat, i: nat, q: (nat, nat))
    requires FreedIn(s, t, h, p, size) && HoldsAt(s, i, q) && q != (p, size)
    ensures HoldsAt(t, i, q)
  {
    assert KeptAt(s, t, i) && (q.0 - s[i].base, q.1) in HandedIn(t, i);
  }

  lemma OwnHeap(s: seq<Snap>, at: Place, p: nat, size: nat) returns (h: nat)
    requires Layout(s, at) && Holds(s, (p, size))
    ensures h < |s| && h < at.actual && HoldsAt(s, h, (p, size))
  {
    var k: nat :| HoldsAt(s, k, (p, size));
    h := k;
  }

  /** A payload lies in its own heap and in no other. */
  lemma NotOther(s: seq<Snap>, at: Place, h: nat, j: nat, p: nat, size: nat)
    requires Layout(s, at) && HoldsAt(s, h, (p, size)) && j < |s|
    ensures s[j].base + MARKER <= p < s[j].base + |s[j].heap| <==> j == h
  {
    LiveInside(s, at, h, (p - s[h].base, size));
    if j != h { HeapsApart(s, at, h, j); }
  }

  lemma BlockOf(blocks: seq<Block>, p: nat, size: nat) returns (i: nat)
    requires (p, size) in Live(blocks)
    ensures i < |blocks| && blocks[i].live && p == Off(blocks, i) + MARKER && size == blocks[i].size
  {
    var j :| 0 <= j < |blocks| && blocks[j].live && (p, size) == (Off(blocks, j) + MARKER, blocks[j].size);
    i := j;
  }

  // ----- the program

  /** What the program writes into a payload it holds changes no other payload, and keeps
      the heaps in order. */
  lemma ProgramWrites(s: seq<Snap>, at: Place, h: nat, q: (nat, nat), m: seq<byte>)
    requires Layout(s, at) && HoldsAt(s, h, q)
    requires OnlyIn(s[h].heap, m, q.0 - s[h].base, q.0 - s[h].base + q.1)
    ensures var t := s[h := s[h].(heap := m)];
      Layout(t, at) && SameHeld(s, t) && forall i: nat, r: (nat, nat) :: HoldsAt(s, i, r) && r != q ==>
        Unwritten(s, t, i, r)
  {
    var t := s[h := s[h].(heap := m)];
    assert Held(s, h, at.brk) && (h < at.active ==> Full(s, h));
    var i := BlockOf(s[h].blocks, q.0 - s[h].base, q.1);
    PayloadWritten(s[h].heap, m, s[h].offset, s[h].blocks, i);
    assert Held(t, h, at.brk);
    HeapChanged(s, t, h, at);
    SameBlocks(s, t, h);
    forall i: nat, r: (nat, nat) | HoldsAt(s, i, r) && r != q
      ensures Unwritten(s, t, i, r)
    {
      Beside(s, h, q, m, i, r);
    }
  }

  lemma Beside(s: seq<Snap>, h: nat, q: (nat, nat), m: seq<byte>, i: nat, r: (nat, nat))
    requires HoldsAt(s, h, q) && HoldsAt(s, i, r) && r != q
    requires OnlyIn(s[h].heap, m, q.0 - s[h].base, q.0 - s[h].base + q.1)
    ensures Unwritten(s, s[h := s[h].(heap := m)], i, r)
  {
    if i == h { LiveApart(s[h].blocks, (q.0 - s[h].base, q.1), (r.0 - s[h].base, r.1)); }
  }

  /** The payload r of heap i holds what it held. */
  ghost predicate Unwritten(s: seq<Snap>, t: seq<Snap>, i: nat, r: (nat, nat))
    requires HoldsAt(s, i, r)
  {
    && i < |t| && |t[i].heap| == |s[i].heap|
    && forall x :: r.0 - s[i].base <= x < r.0 - s[i].base + r.1 && x < |s[i].heap| ==> t[i].heap[x] == s[i].heap[x]
  }

  lemma SameBlocks(s: seq<Snap>, t: seq<Snap>, h: nat)
    requires OthersStill(s, t, h) && h < |s| && t[h].base == s[h].base && t[h].blocks == s[h].blocks
    ensures SameHeld(s, t)
  {
    forall q: (nat, nat)
      ensures Holds(t, q) <==> Holds(s, q)
    {
      if i: nat :| HoldsAt(t, i, q) { assert HoldsAt(s, i, q); }
      if i: nat :| HoldsAt(s, i, q) { assert HoldsAt(t, i, q); }
    }
  }
}
