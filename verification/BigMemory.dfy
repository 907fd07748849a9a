/** The table of freed big chunks (libraries/eosiolib/malloc/eosio/big_memory_alloc.hpp). */
module BigMemory {
  const MAX_ITEMS := 32

  /** A null pointer is 0; an unused slot is (0, 0). */
  datatype Chunk = Chunk(ptr: nat, capacity: nat)

  /** Two address ranges, given by start and length, have no byte in common. */
  predicate Apart(lo1: nat, len1: nat, lo2: nat, len2: nat) { lo1 + len1 <= lo2 || lo2 + len2 <= lo1 }

  ghost predicate WellFormed(s: seq<Chunk>) {
    && |s| == MAX_ITEMS
    && (forall i :: 0 <= i < |s| && s[i].ptr == 0 ==> s[i].capacity == 0)
    && (forall i, j :: 0 <= i < j < |s| && s[i].capacity > 0 && s[j].capacity > 0 ==>
          Apart(s[i].ptr, s[i].capacity, s[j].ptr, s[j].capacity))
  }

  /** No tracked chunk meets the given range. */
  ghost predicate Clear(s: seq<Chunk>, lo: nat, len: nat) {
    forall i :: 0 <= i < |s| && s[i].capacity > 0 ==> Apart(lo, len, s[i].ptr, s[i].capacity)
  }

  /** Bytes tracked. */
  function Total(s: seq<Chunk>): nat {
    if |s| == 0 then 0 else Total(s[..|s| - 1]) + s[|s| - 1].capacity
  }

  lemma {:induction false} TotalUpdate(s: seq<Chunk>, i: nat, c: Chunk)
    requires i < |s|
    ensures Total(s[i := c]) == Total(s) - s[i].capacity + c.capacity
  {
    var n := |s| - 1;
    if i == n {
      assert s[i := c][..n] == s[..n];
    } else {
      TotalUpdate(s[..n], i, c);
      assert s[i := c][..n] == s[..n][i := c];
    }
  }

  /** First fit: the slot `std::find_if` stops at. */
  ghost predicate FirstFit(s: seq<Chunk>, sz: nat, i: nat) {
    && i <= |s|
    && (forall j :: 0 <= j < i ==> !(s[j].ptr != 0 && s[j].capacity >= sz))
    && (i < |s| ==> s[i].ptr != 0 && s[i].capacity >= sz)
  }

  /** A tracked chunk ends where the range starts, or the other way round. */
  predicate Beside(c: Chunk, lo: nat, len: nat) { c.capacity > 0 && (c.ptr + c.capacity == lo || lo + len == c.ptr) }

  /** What filing a freed range does to the table: the range joins the tracked bytes,
      merged with the chunks beside it, one range (perhaps empty) is dropped to make room,
      and that one is no larger than any range kept. */
  ghost predicate Filed(s: seq<Chunk>, s': seq<Chunk>, freed: nat, capacity: nat, dropped: nat) {
    && WellFormed(s')
    && Total(s') + dropped == Total(s) + capacity
    && (forall i :: 0 <= i < |s'| && s'[i].capacity > 0 ==> dropped <= s'[i].capacity)
    && (forall i :: 0 <= i < |s'| ==> !Beside(s'[i], freed, capacity))
    && (forall lo: nat, len: nat :: len > 0 && Apart(lo, len, freed, capacity) && Clear(s, lo, len) ==>
      Clear(s', lo, len))
  }

  class BigMemAlloc {
    const chunks: array<Chunk>

    ghost predicate Valid()
      reads this, chunks
    {
      WellFormed(chunks[..])
    }

    constructor ()
      ensures Valid() && fresh(chunks) && Total(chunks[..]) == 0
      ensures forall i :: 0 <= i < MAX_ITEMS ==> chunks[i] == Chunk(0, 0)
    {
      chunks := new Chunk[MAX_ITEMS](i => Chunk(0, 0));
      new;
      AllEmpty(chunks[..]);
    }

    method AllocFromBigChunk(sz: nat) returns (ret: nat, i: nat)
      requires Valid() && sz > 0
      modifies chunks
      ensures Valid()
      ensures FirstFit(old(chunks[..]), sz, i)
      ensures i < MAX_ITEMS ==>
        && ret == old(chunks[i].ptr) != 0
        && chunks[..] == old(chunks[..])[i := Chunk(ret + sz, old(chunks[i].capacity) - sz)]
        && Total(chunks[..]) + sz == old(Total(chunks[..]))
      ensures i == MAX_ITEMS ==> ret == 0 && chunks[..] == old(chunks[..])
    {
      i := 0;
      while i < chunks.Length && !(chunks[i].ptr != 0 && chunks[i].capacity >= sz)
        invariant i <= chunks.Length
        invariant forall j :: 0 <= j < i ==> !(chunks[j].ptr != 0 && chunks[j].capacity >= sz)
      {
        i := i + 1;
      }
      assert FirstFit(old(chunks[..]), sz, i);
      if i < chunks.Length {
        ret := chunks[i].ptr;
        TotalUpdate(chunks[..], i, Chunk(ret + sz, chunks[i].capacity - sz));
        chunks[i] := Chunk(chunks[i].ptr + sz, chunks[i].capacity - sz);
        assert chunks[..] == old(chunks[..])[i := Chunk(ret + sz, old(chunks[i].capacity) - sz)];
      } else {
        ret := 0;
      }
    }

    /** The body of the loop: merge with slot i if it is a neighbour on either side. */
    method MergeWith(i: nat, f: nat, c: nat, ghost s0: seq<Chunk>, ghost freed0: nat, ghost capacity0: nat)
      returns (freed: nat, capacity: nat)
      requires i < MAX_ITEMS && Merging(s0, chunks[..], freed0, capacity0, f, c)
      modifies chunks
      ensures Merging(s0, chunks[..], freed0, capacity0, freed, capacity)
      ensures forall j :: 0 <= j < MAX_ITEMS && j != i ==> chunks[j] == old(chunks[j])
      ensures chunks[i].capacity <= old(chunks[i].capacity) && !Beside(chunks[i], freed0, capacity0)
    {
      freed, capacity := f, c;
      if chunks[i].ptr != 0 {
        if chunks[i].ptr + chunks[i].capacity == freed {
          freed := chunks[i].ptr;
          capacity := capacity + chunks[i].capacity;
          chunks[i] := Chunk(0, 0);
        } else if freed + capacity == chunks[i].ptr {
          capacity := capacity + chunks[i].capacity;
          chunks[i] := Chunk(0, 0);
        }
      }
      assert chunks[..] == old(chunks[..]) || chunks[..] == old(chunks[..])[i := Chunk(0, 0)];
      Merged(s0, old(chunks[..]), chunks[..], freed0, capacity0, i, f, c, freed, capacity);
    }

    method AddToBigChunk(freed0: nat, capacity0: nat) returns (ghost dropped: nat)
      requires Valid() && freed0 > 0 && capacity0 > 0
      requires Clear(chunks[..], freed0, capacity0)
      modifies chunks
      ensures Filed(old(chunks[..]), chunks[..], freed0, capacity0, dropped)
    {
      var freed: nat, capacity: nat := freed0, capacity0;
      var smallestIdx, smallestCap := 0, chunks[0].capacity;
      ghost var s0 := chunks[..];
      for i := 0 to MAX_ITEMS
        invariant Merging(s0, chunks[..], freed0, capacity0, freed, capacity)
        invariant 0 <= smallestIdx < MAX_ITEMS && smallestCap == chunks[smallestIdx].capacity
        invariant forall j :: 0 <= j < i ==> chunks[j].capacity >= smallestCap && !Beside(chunks[j], freed0, capacity0)
        invariant i <= smallestIdx ==> smallestIdx == 0
      {
        freed, capacity := MergeWith(i, freed, capacity, s0, freed0, capacity0);
        if chunks[i].capacity < smallestCap {
          smallestCap := chunks[i].capacity;
          smallestIdx := i;
        }
      }
      Store(s0, chunks[..], freed0, capacity0, freed, capacity, smallestIdx);
      if capacity > smallestCap {
        ghost var s := chunks[..];
        chunks[smallestIdx] := Chunk(freed, capacity);
        assert chunks[..] == s[smallestIdx := Chunk(freed, capacity)];
        dropped := smallestCap;
      } else {
        dropped := capacity;
      }
    }
  }

  lemma {:induction false} AllEmpty(s: seq<Chunk>)
    requires forall i :: 0 <= i < |s| ==> s[i] == Chunk(0, 0)
    ensures Total(s) == 0
  {
    if |s| > 0 { AllEmpty(s[..|s| - 1]); }
  }

  /** Whatever was clear of the old table and the freed range is clear of the table
      and range reached so far. */
  ghost predicate Absorbed(s0: seq<Chunk>, s: seq<Chunk>, freed0: nat, capacity0: nat, freed: nat, capacity: nat) {
    forall lo: nat, len: nat :: len > 0 && Apart(lo, len, freed0, capacity0) && Clear(s0, lo, len) ==>
      Apart(lo, len, freed, capacity) && Clear(s, lo, len)
  }

  /** The state of the merging loop. */
  ghost predicate Merging(s0: seq<Chunk>, s: seq<Chunk>, freed0: nat, capacity0: nat, freed: nat, capacity: nat) {
    && WellFormed(s) && freed > 0 && capacity > 0 && Clear(s, freed, capacity)
    && Total(s) + capacity == Total(s0) + capacity0
    && Absorbed(s0, s, freed0, capacity0, freed, capacity)
    && freed <= freed0 && freed0 + capacity0 <= freed + capacity && capacity0 > 0
  }

  /** One visit of the loop: a neighbouring chunk is taken over, or nothing changes. */
  lemma Merged(s0: seq<Chunk>, s: seq<Chunk>, s': seq<Chunk>, freed0: nat, capacity0: nat,
               i: nat, f: nat, c: nat, f': nat, c': nat)
    requires Merging(s0, s, freed0, capacity0, f, c) && i < |s|
    requires
      || (s' == s && f' == f && c' == c)
      || (s' == s[i := Chunk(0, 0)] && s[i].ptr != 0 && c' == c + s[i].capacity &&
          ((s[i].ptr + s[i].capacity == f && f' == s[i].ptr) || (f + c == s[i].ptr && f' == f)))
    ensures Merging(s0, s', freed0, capacity0, f', c')
  {
    TotalUpdate(s, i, Chunk(0, 0));
  }

  /** Filing the merged range in the smallest slot, or dropping it. */
  lemma Store(s0: seq<Chunk>, s: seq<Chunk>, freed0: nat, capacity0: nat, freed: nat, capacity: nat, k: nat)
    requires Merging(s0, s, freed0, capacity0, freed, capacity) && k < |s|
    requires forall j :: 0 <= j < |s| ==> s[j].capacity >= s[k].capacity && !Beside(s[j], freed0, capacity0)
    ensures capacity > s[k].capacity ==> Filed(s0, s[k := Chunk(freed, capacity)], freed0, capacity0, s[k].capacity)
    ensures capacity <= s[k].capacity ==> Filed(s0, s, freed0, capacity0, capacity)
  {
    TotalUpdate(s, k, Chunk(freed, capacity));
    if capacity > s[k].capacity {
      SlotFilled(s, freed, capacity, k);
      forall lo: nat, len: nat | len > 0 && Apart(lo, len, freed0, capacity0) && Clear(s0, lo, len)
        ensures Clear(s[k := Chunk(freed, capacity)], lo, len)
      {
        SlotClear(s, freed, capacity, k, lo, len);
      }
    }
  }

  lemma SlotFilled(s: seq<Chunk>, freed: nat, capacity: nat, k: nat)
    requires WellFormed(s) && freed > 0 && Clear(s, freed, capacity) && k < |s|
    ensures WellFormed(s[k := Chunk(freed, capacity)])
  {
  }

  lemma SlotClear(s: seq<Chunk>, freed: nat, capacity: nat, k: nat, lo: nat, len: nat)
    requires k < |s| && Apart(lo, len, freed, capacity) && Clear(s, lo, len)
    ensures Clear(s[k := Chunk(freed, capacity)], lo, len)
  {
  }
}
