/** The iterators of a key-value index (libraries/eosiolib/contracts/eosio/kv.hpp), in both
    directions, over the partial keys of the index.  The host's iterators go round: from the
    end the next key is the first one, and the previous one the last. */
module KvIterators {
  import opened Words
  import opened Lexicographic
  import opened KvTable
  import opened Sets

  ghost predicate NextIs(keys: set<Key>, pos: Position, next: Position) {
    if pos.At? then FirstAbove(keys, pos.key, next) else FirstFrom(keys, [], next)
  }

  /** The greatest key before a position, the end when there is none. */
  ghost predicate PreviousIs(keys: set<Key>, pos: Position, previous: Position) {
    match previous
    case End => forall k :: k in keys ==> !Before(k, pos)
    case At(p) => p in keys && Before(p, pos) && forall k :: k in keys && Before(k, pos) ==> AtMost(k, p)
  }

  predicate OnKey(keys: set<Key>, pos: Position) { pos.At? ==> pos.key in keys }

  /** One step forward and one back are each other's inverse, round the end as well. */
  lemma StepsInvert(keys: set<Key>, a: Position, b: Position)
    requires OnKey(keys, a) && OnKey(keys, b)
    ensures NextIs(keys, a, b) <==> PreviousIs(keys, b, a)
  {
    if NextIs(keys, a, b) { NextBack(keys, a, b); }
    if PreviousIs(keys, b, a) { BackNext(keys, a, b); }
  }

  lemma NextBack(keys: set<Key>, a: Position, b: Position)
    requires OnKey(keys, a) && NextIs(keys, a, b)
    ensures PreviousIs(keys, b, a)
  {
    forall k | k in keys
      ensures a.At? ==> Before(k, b) ==> AtMost(k, a.key)
      ensures a.End? ==> !Before(k, b)
    {
      NothingLess(k);
      if a.At? { LessTotal(k, a.key); }
      if b.At? { LessTotal(k, b.key); }
    }
  }

  lemma BackNext(keys: set<Key>, a: Position, b: Position)
    requires OnKey(keys, b) && PreviousIs(keys, b, a)
    ensures NextIs(keys, a, b)
  {
    forall k | k in keys
      ensures a.At? && b.At? && Less(a.key, k) ==> AtMost(b.key, k)
      ensures a.At? && b.End? ==> AtMost(k, a.key)
      ensures a.End? && b.At? ==> AtMost(b.key, k)
      ensures a.End? ==> b.At?
    {
      if a.At? { LessTotal(k, a.key); }
      if b.At? { LessTotal(k, b.key); }
    }
    if b.At? { NothingLess(b.key); }
    forall k | k in keys
      ensures AtMost([], k)
    {
      NothingLess(k);
    }
  }

  lemma NothingLess(k: Key)
    ensures AtMost([], k) && !Less(k, [])
  {
  }

  /** A step leads to one position only. */
  lemma OneNext(keys: set<Key>, a: Position, b: Position, c: Position)
    requires NextIs(keys, a, b) && NextIs(keys, a, c)
    ensures b == c
  {
    if b.At? { NothingLess(b.key); }
    if c.At? { NothingLess(c.key); }
    if b.At? && c.At? { LessTotal(b.key, c.key); }
    if a.At? && b.At? { LessTotal(a.key, b.key); }
    if a.At? && c.At? { LessTotal(a.key, c.key); }
  }

  // ----- the host

  method HostNext(keys: set<Key>, pos: Position) returns (next: Position)
    ensures NextIs(keys, pos, next) && OnKey(keys, next)
  {
    next := HostSeek(keys, if pos.At? then pos.key else [], pos.At?);
  }

  method HostPrevious(keys: set<Key>, pos: Position) returns (previous: Position)
    ensures PreviousIs(keys, pos, previous) && OnKey(keys, previous)
  {
    previous := End;
    var rest := keys;
    while rest != {}
      invariant rest <= keys && PreviousIs(keys - rest, pos, previous)
      decreases |rest|
    {
      var k :| k in rest;
      LastOne(keys - rest, pos, previous, k);
      if (pos.At? ==> Less(k, pos.key)) && (previous.At? ==> Less(previous.key, k)) {
        previous := At(k);
      }
      assert keys - (rest - {k}) == (keys - rest) + {k};
      rest := rest - {k};
    }
    assert keys - rest == keys;
  }

  lemma LastOne(seen: set<Key>, pos: Position, last: Position, k: Key)
    requires PreviousIs(seen, pos, last)
    ensures PreviousIs(seen + {k}, pos, if Before(k, pos) && (last.At? ==> Less(last.key, k)) then At(k) else last)
  {
    if last.At? { LessTotal(last.key, k); }
    forall j | j in seen && last.At? && Less(last.key, k) && AtMost(j, last.key)
      ensures AtMost(j, k)
    {
      if j != last.key { LessTrans(j, last.key, k); }
    }
  }

  // ----- forward

  /** `iterator`.  `open` says that it holds an iterator of the host; an end made by end()
      holds none. */
  class Iterator {
    const keys: set<Key>
    var open: bool
    var pos: Position

    predicate Valid()
      reads this
    {
      OnKey(keys, pos) && (!open ==> pos.End?)
    }

    constructor AtEnd(index: set<Key>)
      ensures Valid() && keys == index && pos == End && !open
    {
      keys, open, pos := index, false, End;
    }

    constructor Begin(index: set<Key>)
      ensures Valid() && keys == index && FirstFrom(keys, [], pos) && open
    {
      var first := HostSeek(index, [], false);
      keys, open, pos := index, true, first;
    }

    method Increment() returns (ok: bool)
      requires Valid()
      modifies this`pos
      ensures Valid() && ok == old(pos).At?
      ensures if ok then NextIs(keys, old(pos), pos) else pos == old(pos)
    {
      if pos.End? {
        return false;
      }
      pos := HostNext(keys, pos);
      ok := true;
    }

    /** Also from an end that holds no iterator of the host: a new one is at the end. */
    method Decrement() returns (ok: bool)
      requires Valid()
      modifies this`pos, this`open
      ensures Valid() && open && PreviousIs(keys, old(pos), pos) && ok == pos.At?
    {
      open := true;
      pos := HostPrevious(keys, pos);
      ok := pos.At?;
    }
  }

  // ----- backward

  /** `reverse_iterator`: it starts at the last key and goes down. */
  class ReverseIterator {
    const keys: set<Key>
    var open: bool
    var pos: Position

    predicate Valid()
      reads this
    {
      OnKey(keys, pos) && (!open ==> pos.End?)
    }

    constructor AtEnd(index: set<Key>)
      ensures Valid() && keys == index && pos == End && !open
    {
      keys, open, pos := index, false, End;
    }

    constructor Begin(index: set<Key>)
      ensures Valid() && keys == index && PreviousIs(keys, End, pos) && open
    {
      var last := HostPrevious(index, End);
      keys, open, pos := index, true, last;
    }

    method Increment() returns (ok: bool)
      requires Valid()
      modifies this`pos
      ensures Valid() && ok == old(pos).At?
      ensures if ok then PreviousIs(keys, old(pos), pos) else pos == old(pos)
    {
      if pos.End? {
        return false;
      }
      pos := HostPrevious(keys, pos);
      ok := true;
    }

    /** Back to where ++ came from, if the iterator holds one of the host.  From rend(), which
        holds none, a new one is put on the first key and then moved on: that is right only
        for an empty index. */
    method Decrement() returns (ok: bool)
      requires Valid()
      modifies this`pos, this`open
      ensures Valid() && open && ok == pos.At?
      ensures NextIs(keys, old(pos), pos) <==> old(open) || old(pos).At? || keys == {}
      ensures !old(open) ==> SecondIs(keys, pos) && (ok <==> |keys| > 1)
    {
      if !open {
        open := true;
        pos := HostSeek(keys, [], false);
        Skipped(keys, pos);
      }
      pos := HostNext(keys, pos);
      ok := pos.At?;
    }
  }

  /** The second key of an index, the end when there is none. */
  ghost predicate SecondIs(keys: set<Key>, pos: Position) {
    if keys == {} then pos.End?
    else exists first :: first in keys && FirstFrom(keys, [], At(first)) && FirstAbove(keys, first, pos)
  }

  lemma Skipped(keys: set<Key>, first: Position)
    requires FirstFrom(keys, [], first)
    ensures forall pos :: NextIs(keys, first, pos) ==>
      SecondIs(keys, pos) && (pos.At? <==> |keys| > 1) && (NextIs(keys, End, pos) <==> keys == {})
  {
    forall pos | NextIs(keys, first, pos)
      ensures SecondIs(keys, pos) && (pos.At? <==> |keys| > 1) && (NextIs(keys, End, pos) <==> keys == {})
    {
      if first.At? { SkippedTo(keys, first.key, pos); } else { Empty(keys); }
    }
  }

  lemma Empty(keys: set<Key>)
    requires FirstFrom(keys, [], End)
    ensures keys == {}
  {
    forall k | k in keys
      ensures false
    {
      NothingLess(k);
    }
  }

  lemma SkippedTo(keys: set<Key>, first: Key, pos: Position)
    requires FirstFrom(keys, [], At(first)) && FirstAbove(keys, first, pos)
    ensures keys != {} && SecondIs(keys, pos) && (pos.At? <==> |keys| > 1) && !NextIs(keys, End, pos)
  {
    LessTotal(first, first);
    NothingLess(first);
    if pos.At? {
      LessTotal(first, pos.key);
      assert {first, pos.key} <= keys;
      NoLarger({first, pos.key}, keys);
    } else {
      forall k | k in keys
        ensures k == first
      {
        NothingLess(k);
        LessTotal(k, first);
      }
      assert keys == {first};
    }
  }

  /** With two keys, -- from rend() gives the second, and not the first. */
  method SkipsFirst() returns (r: ReverseIterator)
    ensures fresh(r) && r.keys == {[1], [2]} && r.pos == At([2])
  {
    r := new ReverseIterator.AtEnd({[1], [2]});
    var ok := r.Decrement();
    TwoKeys(r.pos);
  }

  lemma TwoKeys(pos: Position)
    requires SecondIs({[1], [2]}, pos)
    ensures pos == At([2])
  {
    assert Less([1], [2]) && !Less([2], [1]) && !Less([2], [2]);
    var first :| first in {[1], [2]} && FirstFrom({[1], [2]}, [], At(first)) && FirstAbove({[1], [2]}, first, pos);
    NothingLess([1]);
    assert first == [1];
    assert [2] in {[1], [2]};
  }

  // ----- the whole way back

  ghost predicate Descending(keys: seq<Key>) { forall i, j :: 0 <= i < j < |keys| ==> Less(keys[j], keys[i]) }

  /** The keys from a position on have been passed, in descending order. */
  ghost predicate PassedDown(keys: set<Key>, pos: Position, done: seq<Key>) {
    && Descending(done) && OnKey(keys, pos)
    && (forall i :: 0 <= i < |done| ==> done[i] in keys && (pos.At? ==> Less(pos.key, done[i])))
    && (forall k :: k in keys && (pos.At? ==> Less(pos.key, k)) ==> k in done)
  }

  /** From rbegin() to rend() every key is met once, from the last to the first. */
  method VisitBackward(index: set<Key>) returns (done: seq<Key>)
    ensures Descending(done) && forall k :: k in done <==> k in index
  {
    var r := new ReverseIterator.Begin(index);
    done := [];
    PassedNone(index, r.pos);
    while r.pos.At?
      invariant fresh(r) && r.Valid() && r.keys == index && PassedDown(index, r.pos, done)
      decreases |index| - |done|, r.pos.At?
    {
      ghost var pos := r.pos;
      var k := r.pos.key;
      NotMore(index, done + [k]);
      var ok := r.Increment();
      PassedOne(index, pos, r.pos, done);
      done := done + [k];
    }
  }

  lemma PassedNone(keys: set<Key>, pos: Position)
    requires PreviousIs(keys, End, pos) && OnKey(keys, pos)
    ensures PassedDown(keys, pos, [])
  {
    forall k | k in keys
      ensures pos.At? && !Less(pos.key, k)
    {
      if pos.At? { LessTotal(k, pos.key); }
    }
  }

  lemma PassedOne(keys: set<Key>, pos: Position, next: Position, done: seq<Key>)
    requires PassedDown(keys, pos, done) && pos.At? && PreviousIs(keys, pos, next)
    ensures PassedDown(keys, next, done + [pos.key])
  {
    var more := done + [pos.key];
    forall i | 0 <= i < |more|
      ensures more[i] in keys && (next.At? ==> Less(next.key, more[i]))
    {
      if i < |done| && next.At? { LessTrans(next.key, pos.key, done[i]); }
    }
    forall k | k in keys && (next.At? ==> Less(next.key, k))
      ensures k in more
    {
      LessTotal(k, pos.key);
      if next.At? { LessTotal(k, next.key); }
    }
  }

  /** A descending sequence of keys is no longer than there are keys. */
  lemma {:induction false} NotMore(keys: set<Key>, done: seq<Key>)
    requires Descending(done) && forall i :: 0 <= i < |done| ==> done[i] in keys
    ensures |done| <= |keys|
  {
    if done != [] {
      var last, others := done[|done| - 1], done[..|done| - 1];
      forall i | 0 <= i < |others|
        ensures others[i] in keys - {last}
      {
        LessTotal(last, done[i]);
      }
      NotMore(keys - {last}, others);
    }
  }
}
