/** Multi-index tables (libraries/eosiolib/contracts/eosio/multi_index.hpp): a cache of
    objects and of host iterators in front of a primary table and up to sixteen secondary
    ones.  The host (libraries/eosiolib/capi/eosio/db.h) keeps its tables in order, gives
    every row one iterator and uses none twice.  Secondary keys are taken as integers in
    the order of their type. */
module MultiIndex {
  import opened Wrappers
  import opened Sets
  import opened Words

  const NO_AVAILABLE := 0xFFFF_FFFF_FFFF_FFFE
  const UNSET := 0xFFFF_FFFF_FFFF_FFFF

  // ----- the host's tables

  /** What is stored for a primary key, and the iterator that names the row. */
  datatype HostTable<V> = HostTable(entry: map<u64, V>, handle: map<u64, int>)

  ghost predicate TableOk<V>(t: HostTable<V>, issued: nat) {
    && t.entry.Keys == t.handle.Keys
    && (forall pk :: pk in t.handle ==> 0 <= t.handle[pk] < issued)
    && (forall pk, pk' :: pk in t.handle && pk' in t.handle && t.handle[pk] == t.handle[pk'] ==> pk == pk')
  }

  function Stored<V>(t: HostTable<V>, pk: u64, v: V, h: int): HostTable<V> {
    HostTable(t.entry[pk := v], t.handle[pk := h])
  }
  function Removed<V>(t: HostTable<V>, pk: u64): HostTable<V> {
    HostTable(t.entry - {pk}, t.handle - {pk})
  }
  function Updated<V>(t: HostTable<V>, pk: u64, v: V): HostTable<V>
    requires pk in t.entry
  {
    t.(entry := t.entry[pk := v])
  }

  /** The row an iterator names. */
  method RowOf<V>(t: HostTable<V>, h: int) returns (pk: u64)
    requires exists p :: p in t.handle && t.handle[p] == h
    ensures pk in t.handle && t.handle[pk] == h
  {
    pk :| pk in t.handle && t.handle[pk] == h;
  }

  // ----- the order of a secondary table: by key, then by primary key

  type Entry = (int, u64)

  predicate Below(a: Entry, b: Entry) { a.0 < b.0 || (a.0 == b.0 && a.1 < b.1) }

  function EntriesOf(t: HostTable<int>): set<Entry> { set pk | pk in t.entry :: (t.entry[pk], pk) }

  /** The entry after e. */
  ghost predicate Follows(s: set<Entry>, e: Entry, r: Option<Entry>) {
    match r
    case None => forall x :: x in s ==> !Below(e, x)
    case Some(f) => f in s && Below(e, f) && forall x :: x in s && Below(e, x) ==> !Below(x, f)
  }

  /** The entry before e. */
  ghost predicate Precedes(s: set<Entry>, e: Entry, r: Option<Entry>) {
    match r
    case None => forall x :: x in s ==> !Below(x, e)
    case Some(f) => f in s && Below(f, e) && forall x :: x in s && Below(x, e) ==> !Below(f, x)
  }

  /** The last entry. */
  ghost predicate Last(s: set<Entry>, r: Option<Entry>) {
    match r
    case None => s == {}
    case Some(f) => f in s && forall x :: x in s ==> !Below(f, x)
  }

  /** The first entry with at least the given key. */
  ghost predicate LowerBoundIs(s: set<Entry>, key: int, r: Option<Entry>) {
    match r
    case None => forall x :: x in s ==> x.0 < key
    case Some(f) => f in s && f.0 >= key && forall x :: x in s && x.0 >= key ==> !Below(x, f)
  }

  /** Going on and back again ends where it began. */
  lemma BackAgain(s: set<Entry>, e: Entry, f: Entry, g: Option<Entry>)
    requires e in s && Follows(s, e, Some(f)) && Precedes(s, f, g)
    ensures g == Some(e)
  {
    assert g.Some? by { assert Below(e, f); }
    assert !Below(g.value, e);
  }

  /** And so does going back from the end. */
  lemma BackFromEnd(s: set<Entry>, e: Entry, g: Option<Entry>)
    requires e in s && Follows(s, e, None) && Last(s, g)
    ensures g == Some(e)
  {
    assert g.Some? && !Below(g.value, e) && !Below(e, g.value);
  }

  /** A walk: it starts at the first entry, each step goes to the entry after, and it ends
      where none is after. */
  ghost predicate IsWalk(s: set<Entry>, w: seq<Entry>) {
    && (w == [] ==> s == {})
    && (w != [] ==> w[0] in s && (forall x :: x in s ==> !Below(x, w[0])) && Follows(s, w[|w| - 1], None))
    && (forall k :: 0 < k < |w| ==> Follows(s, w[k - 1], Some(w[k])))
  }

  lemma {:induction false} WalkAscends(s: set<Entry>, w: seq<Entry>, j: nat, k: nat)
    requires IsWalk(s, w) && j < k < |w|
    ensures Below(w[j], w[k])
  {
    assert Follows(s, w[k - 1], Some(w[k]));
    if j < k - 1 { WalkAscends(s, w, j, k - 1); }
  }

  lemma {:induction false} WalkReaches(s: set<Entry>, w: seq<Entry>, x: Entry, k: nat)
    requires IsWalk(s, w) && x in s && k < |w| && !Below(x, w[k])
    ensures x in w
    decreases |w| - k
  {
    if x != w[k] {
      if k + 1 < |w| {
        assert Follows(s, w[k], Some(w[k + 1]));
        WalkReaches(s, w, x, k + 1);
      }
    }
  }

  /** A walk visits every row exactly once, in ascending order. */
  lemma WalkVisitsAll(s: set<Entry>, w: seq<Entry>)
    requires IsWalk(s, w)
    ensures forall x :: x in s <==> x in w
    ensures forall j, k :: 0 <= j < k < |w| ==> Below(w[j], w[k])
  {
    forall x | x in s
      ensures x in w
    {
      WalkReaches(s, w, x, 0);
    }
    forall k | 0 <= k < |w|
      ensures w[k] in s
    {
      if k > 0 { assert Follows(s, w[k - 1], Some(w[k])); }
    }
    forall j, k | 0 <= j < k < |w|
      ensures Below(w[j], w[k])
    {
      WalkAscends(s, w, j, k);
    }
  }

  // ----- the cache

  /** A cached object, the host's iterator of its row, and those of its entries in the
      secondary tables, -1 while unknown. */
  datatype Item<T> = Item(value: T, primaryItr: int, iters: seq<int>)

  /** How rows are keyed. */
  datatype Keys<!T> = Keys(primary: T -> u64, secondary: seq<T -> int>)

  /** Primary and secondary tables agree: a secondary table holds exactly the pairs of
      extracted key and primary key. */
  ghost predicate TablesOk<T(!new)>(keys: Keys<T>, primary: HostTable<T>, secondary: seq<HostTable<int>>, issued: nat) {
    && TableOk(primary, issued) && |secondary| == |keys.secondary|
    && Keyed(keys, primary.entry)
    && (forall i :: 0 <= i < |secondary| ==> SecondaryOk(keys, primary, secondary[i], i, issued))
  }

  ghost predicate Keyed<T(!new)>(keys: Keys<T>, rows: map<u64, T>) {
    forall pk :: pk in rows ==> keys.primary(rows[pk]) == pk
  }

  ghost predicate SecondaryOk<T(!new)>(keys: Keys<T>, primary: HostTable<T>, t: HostTable<int>, i: nat, issued: nat)
    requires i < |keys.secondary|
  {
    TableOk(t, issued) && Agree(keys, primary.entry, t, i)
  }

  ghost predicate Agree<T(!new)>(keys: Keys<T>, rows: map<u64, T>, t: HostTable<int>, i: nat)
    requires i < |keys.secondary|
  {
    t.entry.Keys == rows.Keys && forall pk :: pk in rows ==> t.entry[pk] == keys.secondary[i](rows[pk])
  }

  /** A cached object is the stored row, and its iterators are right. */
  ghost predicate ItemOk<T(!new)>(keys: Keys<T>, primary: HostTable<T>, secondary: seq<HostTable<int>>, item: Item<T>) {
    var pk := keys.primary(item.value);
    && pk in primary.entry && pk in primary.handle && primary.entry[pk] == item.value &&
      item.primaryItr == primary.handle[pk]
    && ItrsOk(secondary, pk, item.iters)
  }

  /** An iterator into a secondary table is unknown or the row's. */
  ghost predicate ItrOk(t: HostTable<int>, pk: u64, h: int) {
    h == -1 || (pk in t.handle && h == t.handle[pk])
  }

  ghost predicate ItrsOk(tables: seq<HostTable<int>>, pk: u64, iters: seq<int>) {
    |iters| == |tables| && forall i :: 0 <= i < |tables| ==> ItrOk(tables[i], pk, iters[i])
  }

  ghost predicate ItrsSoFar(tables: seq<HostTable<int>>, pk: u64, iters: seq<int>) {
    |iters| <= |tables| && forall i :: 0 <= i < |iters| ==> ItrOk(tables[i], pk, iters[i])
  }

  lemma ItrsMore(tables: seq<HostTable<int>>, pk: u64, iters: seq<int>, v: int, h: nat)
    requires ItrsSoFar(tables, pk, iters) && |iters| < |tables|
    ensures ItrsSoFar(tables[|iters| := Stored(tables[|iters|], pk, v, h)], pk, iters + [h])
  {
  }

  lemma ItrsStep(tables: seq<HostTable<int>>, pk: u64, iters: seq<int>, i: nat, t: HostTable<int>, h: int)
    requires ItrsOk(tables, pk, iters) && i < |tables| && ItrOk(t, pk, h)
    ensures ItrsOk(tables[i := t], pk, iters[i := h])
  {
  }

  ghost predicate CacheOk<T(!new)>(keys: Keys<T>, primary: HostTable<T>, secondary: seq<HostTable<int>>,
      items: seq<Item<T>>) {
    && (forall k :: 0 <= k < |items| ==> ItemOk(keys, primary, secondary, items[k]))
    && OneEach(keys, items)
  }

  /** At most one cached object for a key. */
  ghost predicate OneEach<T>(keys: Keys<T>, items: seq<Item<T>>) {
    forall k, l :: 0 <= k < l < |items| ==> keys.primary(items[k].value) != keys.primary(items[l].value)
  }

  /** The next free key is unset, used up, or above all keys. */
  ghost predicate NextOk<T>(rows: map<u64, T>, next: u64) {
    next == UNSET || next == NO_AVAILABLE || forall pk :: pk in rows ==> pk < next
  }

  class MultiIndex<T(!new)> {
    const keys: Keys<T>
    /** The table belongs to the contract that runs. */
    const own: bool
    var primary: HostTable<T>
    var secondary: seq<HostTable<int>>
    /** The host's iterators so far are below this. */
    var issued: nat
    var items: seq<Item<T>>
    var nextKey: u64

    ghost predicate Valid()
      reads this
    {
      && TablesOk(keys, primary, secondary, issued) && CacheOk(keys, primary, secondary, items)
      && NextOk(primary.entry, nextKey)
    }

    ghost predicate Cached(pk: u64)
      reads this
    {
      exists k :: 0 <= k < |items| && keys.primary(items[k].value) == pk
    }

    constructor (k: Keys<T>, mine: bool, p: HostTable<T>, s: seq<HostTable<int>>, n: nat)
      requires TablesOk(k, p, s, n)
      ensures Valid() && keys == k && own == mine && primary == p && secondary == s && items == [] && nextKey == UNSET
    {
      keys, own, primary, secondary, issued, items, nextKey := k, mine, p, s, n, [], UNSET;
    }

    /** Where the cache has an object with this key, the newest first; -1 if it has none. */
    method CacheIndex(pk: u64) returns (k: int)
      ensures -1 <= k < |items| && (k == -1 <==> !Cached(pk))
      ensures k >= 0 ==> keys.primary(items[k].value) == pk
    {
      k := |items| - 1;
      while k >= 0 && keys.primary(items[k].value) != pk
        invariant -1 <= k < |items|
        invariant forall j :: k < j < |items| ==> keys.primary(items[j].value) != pk
      {
        k := k - 1;
      }
    }

    /** The object at a host iterator, from the cache or read from the host. */
    method LoadObjectByPrimaryIterator(itr: int, ghost pk: u64) returns (k: nat)
      requires Valid() && pk in primary.handle && primary.handle[pk] == itr
      modifies this`items
      ensures Valid() && k < |items| && keys.primary(items[k].value) == pk && items[k].value == primary.entry[pk]
      ensures old(Cached(pk)) ==> items == old(items)
      ensures !old(Cached(pk)) ==> items == old(items) + [Item(primary.entry[pk], itr, seq(|secondary|, i => -1))]
    {
      var j := |items| - 1;
      while j >= 0 && items[j].primaryItr != itr
        invariant -1 <= j < |items|
        invariant forall l :: j < l < |items| ==> items[l].primaryItr != itr
      {
        j := j - 1;
      }
      if j >= 0 {
        assert ItemOk(keys, primary, secondary, items[j]);
        return j;
      }
      assert !Cached(pk) by {
        forall l | 0 <= l < |items|
          ensures keys.primary(items[l].value) != pk
        {
          assert ItemOk(keys, primary, secondary, items[l]);
        }
      }
      var row := RowOf(primary, itr);
      items := items + [Item(primary.entry[row], itr, seq(|secondary|, i => -1))];
      k := |items| - 1;
    }

    /** An iterator to the row with a primary key: its key, if there is one. */
    method Find(pk: u64) returns (r: Option<nat>)
      requires Valid()
      modifies this`items
      ensures Valid() && (r.Some? <==> pk in primary.entry)
      ensures r.Some? ==>
        r.value < |items| && items[r.value].value == primary.entry[pk] && keys.primary(items[r.value].value) == pk
      ensures Grown(old(items), items)
    {
      var k := CacheIndex(pk);
      if k >= 0 {
        assert ItemOk(keys, primary, secondary, items[k]);
        return Some(k);
      }
      if pk !in primary.handle {
        return None;
      }
      var j := LoadObjectByPrimaryIterator(primary.handle[pk], pk);
      r := Some(j);
    }

    /** A new row, unless its key is taken or the table is another contract's. */
    method Emplace(row: T) returns (ok: bool)
      requires Valid()
      modifies this
      ensures Valid() && ok == (own && keys.primary(row) !in old(primary.entry))
      ensures !ok ==>
        primary == old(primary) && secondary == old(secondary) && items == old(items) && nextKey == old(nextKey)
      ensures ok ==> primary == Stored(old(primary), keys.primary(row), row, old(issued)) && |items| == |old(items)| + 1
      ensures ok ==> items[..|old(items)|] == old(items) && items[|old(items)|].value == row
      ensures ok ==> NextKeyIs(old(nextKey), keys.primary(row), nextKey)
    {
      var pk := keys.primary(row);
      ok := own && pk !in primary.entry;
      if !ok {
        return;
      }
      ghost var p0, n0 := primary, issued;
      CachedRows(keys, primary, secondary, items, pk);
      var itr := issued;
      StoredOk(primary, issued, pk, row);
      StoredCache(keys, primary, secondary, items, pk, row, itr);
      PartlyNone(keys, primary, Stored(primary, pk, row, itr).entry, secondary, issued, issued + 1);
      primary, issued := Stored(primary, pk, row, itr), issued + 1;
      NextStored(p0.entry, nextKey, pk, row);
      nextKey := NextAfter(nextKey, pk);
      var iters;
      secondary, issued, iters := StoreSecondary(keys, secondary, issued, pk, row, p0.entry, primary, items);
      PartlyAll(keys, p0.entry, primary, secondary, issued);
      ItemAdded(keys, primary, secondary, items, Item(row, itr, iters));
      items := items + [Item(row, itr, iters)];
    }

    /** A cached object is changed to `row`, and the tables follow; changing its primary
        key aborts. */
    method Modify(k: nat, row: T) returns (ok: bool)
      requires Valid() && k < |items|
      modifies this
      ensures Valid() && ok == (own && keys.primary(row) == keys.primary(old(items)[k].value))
      ensures !ok ==>
        primary == old(primary) && secondary == old(secondary) && items == old(items) && nextKey == old(nextKey)
      ensures ok ==> keys.primary(row) in old(primary.entry) && primary == Updated(old(primary), keys.primary(row), row)
      ensures ok ==> NextKeyIs(old(nextKey), keys.primary(row), nextKey)
      ensures ok ==> exists item :: items == old(items)[k := item] && item.value == row
    {
      ok := own;
      if !ok {
        return;
      }
      var before := items[k];
      var pk := keys.primary(before.value);
      ok := pk == keys.primary(row);
      if !ok {
        return;
      }
      ghost var p0, s0, all := primary, secondary, items;
      assert ItemOk(keys, primary, secondary, items[k]);
      var stored := RowOf(primary, before.primaryItr);
      assert stored == pk && ItrsOk(secondary, pk, before.iters);
      UpdatedOk(keys, primary, issued, stored, row, nextKey);
      primary := Updated(primary, stored, row);
      NextMoved(nextKey, pk);
      nextKey := NextAfter(nextKey, pk);
      PartlyNone(keys, p0, primary.entry, secondary, issued, issued);
      var iters;
      secondary, iters := UpdateSecondary(keys, secondary, issued, pk, before.value, row, before.iters, p0.entry);
      PartlyAll(keys, p0.entry, primary, secondary, issued);
      ItemChanged(keys, p0, s0, secondary, all, k, row, iters);
      var after := Item(row, before.primaryItr, iters);
      items := items[k := after];
      assert items == all[k := after];
    }

    /** A cached object's row is removed everywhere. */
    method Erase(k: nat) returns (ok: bool)
      requires Valid() && k < |items|
      modifies this
      ensures Valid() && ok == own
      ensures !ok ==> primary == old(primary) && secondary == old(secondary) && items == old(items)
      ensures ok ==> primary == Removed(old(primary), keys.primary(old(items)[k].value))
      ensures ok ==> items == Without(old(items), k)
      ensures nextKey == old(nextKey)
    {
      ok := own;
      if !ok {
        return;
      }
      var pk := keys.primary(items[k].value);
      ghost var p0, s0, all := primary, secondary, items;
      assert ItemOk(keys, primary, secondary, items[k]);
      var j := CacheIndex(pk);
      assert j == k;
      var stored := RowOf(primary, items[k].primaryItr);
      RemovedOk(keys, primary, issued, stored, nextKey);
      primary := Removed(primary, stored);
      PartlyNone(keys, p0, primary.entry, secondary, issued, issued);
      secondary := RemoveSecondary(keys, secondary, issued, pk, items[k].iters, p0.entry);
      PartlyAll(keys, p0.entry, primary, secondary, issued);
      ItemDropped(keys, p0, s0, secondary, all, k);
      items := Without(items, j);
    }

    /** Where an object stands in secondary index i. */
    ghost function At(i: nat, k: nat): Entry
      requires i < |keys.secondary| && k < |items|
      reads this
    {
      Spotted(keys, i, items[k].value)
    }

    ghost function Spot(i: nat, r: Option<nat>): Option<Entry>
      requires i < |keys.secondary| && (r.Some? ==> r.value < |items|)
      reads this
    {
      match r case None => None case Some(k) => Some(At(i, k))
    }

    /** The host's iterator for an object in index i is remembered. */
    method Remember(i: nat, k: nat, h: int)
      requires Valid() && i < |secondary| && k < |items|
      requires keys.primary(items[k].value) in secondary[i].handle &&
        h == secondary[i].handle[keys.primary(items[k].value)]
      modifies this`items
      ensures Valid() && Grown(old(items), items) && |items| == |old(items)|
    {
      assert ItemOk(keys, primary, secondary, items[k]);
      Remembered(keys, primary, secondary, items, i, k, h);
      items := items[k := items[k].(iters := items[k].iters[i := h])];
    }

    /** The host's iterator for an object in index i, looked up if it is not known. */
    method KnownItr(i: nat, k: nat) returns (h: int)
      requires Valid() && i < |secondary| && k < |items|
      modifies this`items
      ensures Valid() && Grown(old(items), items) && |items| == |old(items)|
      ensures TableOk(secondary[i], issued) && var pk := keys.primary(items[k].value);
        pk in secondary[i].handle && h == secondary[i].handle[pk]
      ensures secondary[i].entry[keys.primary(items[k].value)] == keys.secondary[i](items[k].value)
    {
      assert ItemOk(keys, primary, secondary, items[k]) && SecondaryOk(keys, primary, secondary[i], i, issued);
      h := items[k].iters[i];
      if h == -1 {
        h := secondary[i].handle[keys.primary(items[k].value)];
        Remember(i, k, h);
      }
    }

    /** The object of a row the host names by its iterator in index i. */
    method Arrive(i: nat, pk: u64, h: int) returns (k: nat)
      requires Valid() && i < |secondary| && pk in secondary[i].handle && h == secondary[i].handle[pk]
      modifies this`items
      ensures Valid() && Grown(old(items), items) && k < |items| && At(i, k) == (secondary[i].entry[pk], pk)
    {
      assert SecondaryOk(keys, primary, secondary[i], i, issued);
      var r := Find(pk);
      k := r.value;
      Remember(i, k, h);
    }

    /** The next object of index i; none after the last. */
    method Next(i: nat, k: nat) returns (r: Option<nat>)
      requires Valid() && i < |secondary| && k < |items|
      modifies this`items
      ensures Valid() && Grown(old(items), items) && (r.Some? ==> r.value < |items|)
      ensures Follows(EntriesOf(secondary[i]), old(At(i, k)), Spot(i, r))
    {
      var h := KnownItr(i, k);
      var itr, pk := HostNext(secondary[i], h, At(i, k), issued);
      if itr < 0 {
        return None;
      }
      var j := Arrive(i, pk, itr);
      r := Some(j);
    }

    /** The object before; from the end, the last.  Fails where there is none. */
    method Previous(i: nat, from: Option<nat>) returns (ok: bool, k: nat)
      requires Valid() && i < |secondary| && (from.Some? ==> from.value < |items|)
      modifies this`items
      ensures Valid() && Grown(old(items), items) && (ok ==> k < |items|)
      ensures from.Some? ==> Precedes(EntriesOf(secondary[i]), old(At(i, from.value)), if ok then Some(At(i, k))
        else None)
      ensures from.None? ==> Last(EntriesOf(secondary[i]), if ok then Some(At(i, k)) else None)
    {
      var itr, pk;
      if from.None? {
        assert SecondaryOk(keys, primary, secondary[i], i, issued);
        itr, pk := HostLast(secondary[i], issued);
      } else {
        var h := KnownItr(i, from.value);
        itr, pk := HostPrevious(secondary[i], h, At(i, from.value), issued);
      }
      ok, k := itr >= 0, 0;
      if ok {
        k := Arrive(i, pk, itr);
      }
    }

    /** The first object of index i with at least the given key. */
    method LowerBound(i: nat, key: int) returns (r: Option<nat>)
      requires Valid() && i < |secondary|
      modifies this`items
      ensures Valid() && Grown(old(items), items) && (r.Some? ==> r.value < |items|)
      ensures LowerBoundIs(EntriesOf(secondary[i]), key, Spot(i, r))
    {
      assert SecondaryOk(keys, primary, secondary[i], i, issued);
      var itr, pk := HostLowerBound(secondary[i], key, issued);
      if itr < 0 {
        return None;
      }
      var j := Arrive(i, pk, itr);
      r := Some(j);
    }

    /** The object with a secondary key, if a row has it. */
    method FindSecondary(i: nat, key: int) returns (r: Option<nat>)
      requires Valid() && i < |secondary|
      modifies this`items
      ensures Valid() && Grown(old(items), items)
      ensures r.Some? ==> r.value < |items| && keys.secondary[i](items[r.value].value) == key
      ensures r.Some? <==> exists pk :: pk in primary.entry && keys.secondary[i](primary.entry[pk]) == key
    {
      r := LowerBound(i, key);
      FoundKey(keys, primary, secondary[i], i, issued, key, Spot(i, r));
      if r.Some? && keys.secondary[i](items[r.value].value) != key {
        r := None;
      }
      if r.Some? { assert ItemOk(keys, primary, secondary, items[r.value]); }
    }

    /** Erase an object; `j` is another one, which is found again at `j'`. */
    method EraseBeside(k: nat, j: Option<nat>) returns (ok: bool, j': Option<nat>)
      requires Valid() && k < |items| && (j.Some? ==> j.value < |items| && j.value != k)
      modifies this
      ensures Valid() && ok == own && (j.Some? <==> j'.Some?)
      ensures ok ==> primary == Removed(old(primary), keys.primary(old(items)[k].value))
      ensures j.Some? ==> j'.value < |items| && items[j'.value] == old(items)[j.value]
    {
      if j.Some? { Shifted(items, k, j.value); }
      j' := if j.Some? && j.value > k then Some(j.value - 1) else j;
      ok := Erase(k);
      if !ok {
        j' := j;
      }
    }

    /** Erase the object an iterator of index i points to; the iterator moves on first. */
    method EraseSecondary(i: nat, k: nat) returns (ok: bool, r: Option<nat>)
      requires Valid() && i < |secondary| && k < |items|
      modifies this
      ensures Valid() && ok == own && |secondary| == |old(secondary)| && (r.Some? ==> r.value < |items|)
      ensures ok ==> primary == Removed(old(primary), keys.primary(old(items)[k].value))
      ensures Follows(EntriesOf(old(secondary)[i]), old(At(i, k)), Spot(i, r))
    {
      ghost var here := At(i, k);
      var next := Next(i, k);
      ghost var there := Spot(i, next);
      assert next.Some? ==> next.value != k by { if next.Some? { assert Below(here, there.value); } }
      ok, r := EraseBeside(k, next);
      assert Spot(i, r) == there;
    }

    /** A walk over index i by ++ from the first object: every row once, in the order of
        its key and then its primary key. */
    method VisitAll(i: nat, lowest: int) returns (rows: seq<T>)
      requires Valid() && i < |secondary|
      requires forall pk :: pk in primary.entry ==> keys.secondary[i](primary.entry[pk]) >= lowest
      modifies this`items
      ensures Valid() && forall row :: row in rows <==> InRows(primary.entry, row)
      ensures forall j, k :: 0 <= j < k < |rows| ==> Below(Spotted(keys, i, rows[j]), Spotted(keys, i, rows[k]))
    {
      assert SecondaryOk(keys, primary, secondary[i], i, issued);
      ghost var s, w: seq<Entry> := EntriesOf(secondary[i]), [];
      var r := LowerBound(i, lowest);
      assert forall x :: x in s ==> x.0 >= lowest;
      rows := [];
      ghost var left := Above(s, Spot(i, r));
      while r.Some?
        invariant Valid() && (r.Some? ==> r.value < |items|)
        invariant OnWay(s, w, Spot(i, r)) && Collected(keys, i, primary.entry, rows, w) && left == Above(s, Spot(i, r))
        decreases |left|
      {
        var row;
        row, r, w := VisitOne(i, r.value, rows, s, w);
        rows := rows + [row];
        left := Above(s, Spot(i, r));
      }
      VisitedAll(keys, primary, secondary[i], i, issued, rows, w);
    }

    method VisitOne(i: nat, k: nat, ghost rows: seq<T>, ghost s: set<Entry>, ghost w: seq<Entry>)
        returns (row: T, r: Option<nat>, ghost w': seq<Entry>)
      requires Valid() && i < |secondary| && k < |items| && s == EntriesOf(secondary[i])
      requires OnWay(s, w, Some(At(i, k))) && Collected(keys, i, primary.entry, rows, w)
      modifies this`items
      ensures Valid() && (r.Some? ==> r.value < |items|)
      ensures OnWay(s, w', Spot(i, r)) && Collected(keys, i, primary.entry, rows + [row], w')
      ensures |Above(s, Spot(i, r))| < |Above(s, Some(old(At(i, k))))|
    {
      ghost var here := At(i, k);
      assert ItemOk(keys, primary, secondary, items[k]);
      row := items[k].value;
      CollectedStep(keys, i, primary.entry, rows, w, row);
      r := Next(i, k);
      OnWayStep(s, w, here, Spot(i, r));
      w' := w + [here];
    }

    /** A key above all in the table, unless it has come to the two highest. */
    method AvailablePrimaryKey() returns (ok: bool, key: u64)
      requires Valid()
      modifies this`items, this`nextKey
      ensures Valid() && Grown(old(items), items)
      ensures ok ==> key < NO_AVAILABLE && forall pk :: pk in primary.entry ==> pk < key
      ensures old(nextKey) == UNSET ==> (ok <==> forall pk :: pk in primary.entry ==> pk + 1 < NO_AVAILABLE)
      ensures old(nextKey) != UNSET ==> (ok <==> old(nextKey) != NO_AVAILABLE) && nextKey == old(nextKey)
      ensures nextKey != UNSET && (if ok then key == nextKey else nextKey == NO_AVAILABLE)
      ensures old(nextKey) == UNSET && ok ==>
        if primary.entry == map[] then key == 0 else key > 0 && key - 1 in primary.entry
    {
      if nextKey == UNSET {
        var next := FirstNext();
        FirstNextIs(primary.entry, next);
        nextKey := next;
      }
      ok, key := nextKey < NO_AVAILABLE, nextKey;
    }

    /** The next key when none has been counted. */
    method FirstNext() returns (next: u64)
      requires Valid()
      modifies this`items
      ensures Valid() && Grown(old(items), items) && AfterLast(primary.entry, next)
    {
      var first := EdgePrimary(false);
      if first.None? {
        return 0;
      }
      var last := EdgePrimary(true);
      var pk := keys.primary(items[last.value].value);
      next := if pk >= NO_AVAILABLE then NO_AVAILABLE else pk + 1;
    }

    /** The first or the last object of the table by primary key. */
    method EdgePrimary(last: bool) returns (r: Option<nat>)
      requires Valid()
      modifies this`items
      ensures Valid() && Grown(old(items), items) && (r.None? <==> primary.entry == map[])
      ensures r.Some? ==> r.value < |items| && IsEdge(primary.entry, keys.primary(items[r.value].value), last)
    {
      var pk := HostEdge(primary, last);
      if pk.None? {
        return None;
      }
      var k := LoadObjectByPrimaryIterator(primary.handle[pk.value], pk.value);
      r := Some(k);
    }
  }

  /** The new row's entry in every secondary table. */
  method StoreSecondary<T(!new)>(keys: Keys<T>, tables0: seq<HostTable<int>>, issued: nat, pk: u64, row: T,
                                 ghost rows: map<u64, T>, ghost primary: HostTable<T>, ghost items: seq<Item<T>>)
    returns (tables: seq<HostTable<int>>, n: nat, iters: seq<int>)
    requires TableOk(primary, issued) && CacheOk(keys, primary, tables0, items) && NotCached(keys, items, pk)
    requires pk !in rows && primary.entry == rows[pk := row] && Partly(keys, rows, primary.entry, tables0, issued, 0)
    ensures |tables| == |tables0| && TableOk(primary, n) && CacheOk(keys, primary, tables, items)
    ensures Partly(keys, rows, primary.entry, tables, n, |tables|)
    ensures |iters| == |tables| && forall j :: 0 <= j < |iters| ==> ItrOk(tables[j], pk, iters[j])
  {
    tables, n, iters := tables0, issued, [];
    for i := 0 to |tables|
      invariant |tables| == |tables0| && Storing(keys, rows, primary, items, pk, tables, n, iters) && |iters| == i
    {
      var key := keys.secondary[i](row);
      StoredOne(keys, rows, primary, items, pk, tables, n, iters, row);
      tables := tables[i := Stored(tables[i], pk, key, n)];
      iters, n := iters + [n], n + 1;
    }
  }

  /** The entries of the first tables are written, and their iterators known. */
  ghost predicate Storing<T(!new)>(keys: Keys<T>, rows: map<u64, T>, primary: HostTable<T>, items: seq<Item<T>>,
      pk: u64, tables: seq<HostTable<int>>, n: nat, iters: seq<int>) {
    && TableOk(primary, n) && CacheOk(keys, primary, tables, items) && ItrsSoFar(tables, pk, iters)
    && Partly(keys, rows, primary.entry, tables, n, |iters|)
  }

  lemma StoredOne<T(!new)>(keys: Keys<T>, rows: map<u64, T>, primary: HostTable<T>, items: seq<Item<T>>,
      pk: u64, tables: seq<HostTable<int>>, n: nat, iters: seq<int>, row: T)
    requires Storing(keys, rows, primary, items, pk, tables, n, iters) && |iters| < |tables|
    requires NotCached(keys, items, pk) && pk !in rows && primary.entry == rows[pk := row]
    ensures |tables| == |keys.secondary|
    ensures var i := |iters|;
      Storing(keys, rows, primary, items, pk, tables[i := Stored(tables[i], pk, keys.secondary[i](row), n)], n + 1,
        iters + [n])
  {
    var i := |iters|;
    var key := keys.secondary[i](row);
    StoredSecondary(keys, primary, tables, items, i, pk, key, n);
    StoredPartly(keys, rows, primary.entry, tables, n, i, pk);
    ItrsMore(tables, pk, iters, key, n);
  }

  /** The row's entry in one table follows its new key, if it changed; an unknown iterator
      is looked up. */
  method UpdateOne<T(!new)>(keys: Keys<T>, t0: HostTable<int>, issued: nat, i: nat, pk: u64, before: T, row: T,
      h0: int, ghost rows: map<u64, T>)
    returns (t: HostTable<int>, h: int)
    requires i < |keys.secondary| && pk in rows && rows[pk] == before && TableOk(t0, issued) &&
      Agree(keys, rows, t0, i) && ItrOk(t0, pk, h0)
    ensures TableOk(t, issued) && Agree(keys, rows[pk := row], t, i) && t.handle == t0.handle && ItrOk(t, pk, h)
  {
    t, h := t0, h0;
    var key := keys.secondary[i](row);
    if keys.secondary[i](before) != key {
      if h < 0 {
        h := t.handle[pk];
      }
      var stored := RowOf(t, h);
      t := Updated(t, stored, key);
    }
  }

  method RemoveOne<T(!new)>(keys: Keys<T>, t0: HostTable<int>, issued: nat, i: nat, pk: u64, h0: int,
      ghost rows: map<u64, T>)
    returns (t: HostTable<int>)
    requires i < |keys.secondary| && pk in rows && TableOk(t0, issued) && Agree(keys, rows, t0, i) && ItrOk(t0, pk, h0)
    ensures TableOk(t, issued) && Agree(keys, rows - {pk}, t, i) && t.handle == t0.handle - {pk}
  {
    t := t0;
    var h := h0;
    if h < 0 {
      h := t.handle[pk];
    }
    if h >= 0 {
      var stored := RowOf(t, h);
      t := Removed(t, stored);
    }
  }

  /** The row's entries follow its new keys. */
  method UpdateSecondary<T(!new)>(keys: Keys<T>, tables0: seq<HostTable<int>>, issued: nat, pk: u64, before: T,
      row: T, iters0: seq<int>,
                                  ghost rows: map<u64, T>)
    returns (tables: seq<HostTable<int>>, iters: seq<int>)
    requires pk in rows && rows[pk] == before && Partly(keys, rows, rows[pk := row], tables0, issued, 0)
    requires ItrsOk(tables0, pk, iters0)
    ensures SameHandles(tables0, tables) && Partly(keys, rows, rows[pk := row], tables, issued, |tables|) &&
      ItrsOk(tables, pk, iters)
  {
    tables, iters := tables0, iters0;
    ghost var rows' := rows[pk := row];
    for i := 0 to |tables|
      invariant SameHandles(tables0, tables) && Partly(keys, rows, rows', tables, issued, i) &&
        ItrsOk(tables, pk, iters)
    {
      assert SeenOk(keys, rows, rows', tables[i], issued, i, i);
      var t, h := UpdateOne(keys, tables[i], issued, i, pk, before, row, iters[i], rows);
      PartlyStep(keys, rows, rows', tables, t, issued, issued, i);
      ItrsStep(tables, pk, iters, i, t, h);
      tables, iters := tables[i := t], iters[i := h];
    }
  }

  /** The row's entries go. */
  method RemoveSecondary<T(!new)>(keys: Keys<T>, tables0: seq<HostTable<int>>, issued: nat, pk: u64, iters: seq<int>,
      ghost rows: map<u64, T>)
    returns (tables: seq<HostTable<int>>)
    requires pk in rows && Partly(keys, rows, rows - {pk}, tables0, issued, 0)
    requires ItrsOk(tables0, pk, iters)
    ensures HandlesWithout(tables0, tables, pk) && Partly(keys, rows, rows - {pk}, tables, issued, |tables|)
  {
    tables := tables0;
    ghost var rows' := rows - {pk};
    for i := 0 to |tables|
      invariant |tables| == |tables0| && Partly(keys, rows, rows', tables, issued, i)
      invariant forall j :: i <= j < |tables| ==> tables[j] == tables0[j]
      invariant forall j :: 0 <= j < i ==> tables[j].handle == tables0[j].handle - {pk}
    {
      assert SeenOk(keys, rows, rows', tables[i], issued, i, i);
      var t := RemoveOne(keys, tables[i], issued, i, pk, iters[i], rows);
      PartlyStep(keys, rows, rows', tables, t, issued, issued, i);
      tables := tables[i := t];
    }
  }

  ghost predicate SameHandles(a: seq<HostTable<int>>, b: seq<HostTable<int>>) {
    |a| == |b| && forall i :: 0 <= i < |a| ==> b[i].handle == a[i].handle
  }
  ghost predicate HandlesWithout(a: seq<HostTable<int>>, b: seq<HostTable<int>>, pk: u64) {
    |a| == |b| && forall i :: 0 <= i < |a| ==> b[i].handle == a[i].handle - {pk}
  }

  lemma ItemChanged<T(!new)>(keys: Keys<T>, primary: HostTable<T>, secondary: seq<HostTable<int>>,
      secondary': seq<HostTable<int>>,
                             items: seq<Item<T>>, k: nat, row: T, iters: seq<int>)
    requires CacheOk(keys, primary, secondary, items) && k < |items| &&
      keys.primary(row) == keys.primary(items[k].value)
    requires SameHandles(secondary, secondary') && ItrsOk(secondary', keys.primary(row), iters)
    ensures ItemOk(keys, primary, secondary, items[k])
    ensures CacheOk(keys, Updated(primary, keys.primary(row), row), secondary',
      items[k := Item(row, items[k].primaryItr, iters)])
  {
    assert ItemOk(keys, primary, secondary, items[k]);
    var pk := keys.primary(row);
    var primary', items' := Updated(primary, pk, row), items[k := Item(row, items[k].primaryItr, iters)];
    forall l | 0 <= l < |items'|
      ensures ItemOk(keys, primary', secondary', items'[l])
    {
      assert ItemOk(keys, primary, secondary, items[l]);
    }
    assert forall l :: 0 <= l < |items'| ==> keys.primary(items'[l].value) == keys.primary(items[l].value);
  }

  lemma ItemDropped<T(!new)>(keys: Keys<T>, primary: HostTable<T>, secondary: seq<HostTable<int>>,
      secondary': seq<HostTable<int>>,
                             items: seq<Item<T>>, k: nat)
    requires CacheOk(keys, primary, secondary, items) && k < |items|
    requires HandlesWithout(secondary, secondary', keys.primary(items[k].value))
    ensures CacheOk(keys, Removed(primary, keys.primary(items[k].value)), secondary', Without(items, k))
  {
    var pk := keys.primary(items[k].value);
    var primary', items' := Removed(primary, pk), Without(items, k);
    forall l | 0 <= l < |items'|
      ensures ItemOk(keys, primary', secondary', items'[l])
    {
      var l0 := if l < k then l else l + 1;
      assert items'[l] == items[l0] && ItemOk(keys, primary, secondary, items[l0]);
    }
  }

  ghost predicate IsEdge<T>(rows: map<u64, T>, pk: u64, last: bool) {
    pk in rows && forall p :: p in rows ==> if last then p <= pk else pk <= p
  }

  ghost predicate InRows<T(!new)>(rows: map<u64, T>, row: T) { exists pk :: pk in rows && rows[pk] == row }

  /** Where a row stands in index i. */
  ghost function Spotted<T>(keys: Keys<T>, i: nat, row: T): Entry
    requires i < |keys.secondary|
  {
    (keys.secondary[i](row), keys.primary(row))
  }

  /** A walk under way: `w` is visited, and `r` is next. */
  ghost predicate OnWay(s: set<Entry>, w: seq<Entry>, r: Option<Entry>) {
    && (w == [] ==> if r.None? then s == {} else r.value in s && forall x :: x in s ==> !Below(x, r.value))
    && (w != [] ==> w[0] in s && (forall x :: x in s ==> !Below(x, w[0])) && Follows(s, w[|w| - 1], r))
    && (forall k :: 0 < k < |w| ==> Follows(s, w[k - 1], Some(w[k])))
  }

  /** The entries not yet visited. */
  ghost function Above(s: set<Entry>, r: Option<Entry>): set<Entry> { set x | x in s && r.Some? && !Below(x, r.value) }

  /** The rows collected stand where the walk went. */
  ghost predicate Collected<T(!new)>(keys: Keys<T>, i: nat, stored: map<u64, T>, rows: seq<T>, w: seq<Entry>)
    requires i < |keys.secondary|
  {
    |rows| == |w| && forall j :: 0 <= j < |rows| ==> Spotted(keys, i, rows[j]) == w[j] && InRows(stored, rows[j])
  }

  lemma CollectedStep<T(!new)>(keys: Keys<T>, i: nat, stored: map<u64, T>, rows: seq<T>, w: seq<Entry>, row: T)
    requires i < |keys.secondary| && Collected(keys, i, stored, rows, w) && keys.primary(row) in stored &&
      stored[keys.primary(row)] == row
    ensures Collected(keys, i, stored, rows + [row], w + [Spotted(keys, i, row)])
  {
  }

  lemma VisitedAll<T(!new)>(keys: Keys<T>, primary: HostTable<T>, t: HostTable<int>, i: nat, issued: nat,
      rows: seq<T>, w: seq<Entry>)
    requires i < |keys.secondary| && SecondaryOk(keys, primary, t, i, issued) && Keyed(keys, primary.entry)
    requires OnWay(EntriesOf(t), w, None) && Collected(keys, i, primary.entry, rows, w)
    ensures forall row :: row in rows <==> InRows(primary.entry, row)
    ensures forall j, k :: 0 <= j < k < |rows| ==> Below(Spotted(keys, i, rows[j]), Spotted(keys, i, rows[k]))
  {
    WalkVisitsAll(EntriesOf(t), w);
    forall pk | pk in primary.entry
      ensures primary.entry[pk] in rows
    {
      var e := (t.entry[pk], pk);
      assert e in EntriesOf(t);
      var j :| 0 <= j < |w| && w[j] == e;
      assert InRows(primary.entry, rows[j]) && Spotted(keys, i, rows[j]) == e;
    }
  }

  lemma OnWayStep(s: set<Entry>, w: seq<Entry>, here: Entry, r: Option<Entry>)
    requires OnWay(s, w, Some(here)) && Follows(s, here, r)
    ensures OnWay(s, w + [here], r) && |Above(s, r)| < |Above(s, Some(here))|
  {
    var a, b := Above(s, r), Above(s, Some(here));
    assert here in b && here !in a && a <= b;
    Smaller(a, b, here);
  }

  function Without<T>(items: seq<Item<T>>, k: nat): seq<Item<T>>
    requires k < |items|
  {
    items[..k] + items[k + 1..]
  }

  lemma Shifted<T(!new)>(items: seq<Item<T>>, k: nat, j: nat)
    requires k < |items| && j < |items| && j != k
    ensures var j' := if j > k then j - 1 else j; j' < |Without(items, k)| && Without(items, k)[j'] == items[j]
  {
  }

  /** Cached objects stay where they are. */
  ghost predicate Grown<T>(items: seq<Item<T>>, items': seq<Item<T>>) {
    |items| <= |items'| && forall k :: 0 <= k < |items| ==> items'[k].value == items[k].value
  }

  lemma Remembered<T(!new)>(keys: Keys<T>, primary: HostTable<T>, secondary: seq<HostTable<int>>, items: seq<Item<T>>,
      i: nat, k: nat, h: int)
    requires CacheOk(keys, primary, secondary, items) && i < |secondary| && k < |items|
    requires keys.primary(items[k].value) in secondary[i].handle &&
      h == secondary[i].handle[keys.primary(items[k].value)]
    ensures |items[k].iters| == |secondary| &&
      CacheOk(keys, primary, secondary, items[k := items[k].(iters := items[k].iters[i := h])])
  {
    assert ItemOk(keys, primary, secondary, items[k]);
    var item := items[k].(iters := items[k].iters[i := h]);
    ItrsStep(secondary, keys.primary(item.value), items[k].iters, i, secondary[i], h);
    assert secondary[i := secondary[i]] == secondary;
    assert ItemOk(keys, primary, secondary, item);
  }

  lemma FoundKey<T(!new)>(keys: Keys<T>, primary: HostTable<T>, t: HostTable<int>, i: nat, issued: nat, key: int,
      r: Option<Entry>)
    requires i < |keys.secondary| && SecondaryOk(keys, primary, t, i, issued) && LowerBoundIs(EntriesOf(t), key, r)
    ensures (r.Some? && r.value.0 == key) <==>
      exists pk :: pk in primary.entry && keys.secondary[i](primary.entry[pk]) == key
  {
    forall pk | pk in primary.entry && keys.secondary[i](primary.entry[pk]) == key
      ensures r.Some? && r.value.0 == key
    {
      assert (t.entry[pk], pk) in EntriesOf(t);
    }
  }

  // ----- what the host does

  method LeastOf(s: set<Entry>) returns (r: Option<Entry>)
    ensures r.None? <==> s == {}
    ensures r.Some? ==> r.value in s && forall x :: x in s ==> !Below(x, r.value)
  {
    r := None;
    var rest := s;
    while rest != {}
      invariant rest <= s && (r.None? ==> s == rest)
      invariant r.Some? ==> r.value in s && forall y :: y in s && y !in rest ==> !Below(y, r.value)
      decreases |rest|
    {
      var x :| x in rest;
      if r.None? || Below(x, r.value) {
        r := Some(x);
      }
      rest := rest - {x};
    }
  }

  method GreatestOf(s: set<Entry>) returns (r: Option<Entry>)
    ensures r.None? <==> s == {}
    ensures r.Some? ==> r.value in s && forall x :: x in s ==> !Below(r.value, x)
  {
    r := None;
    var rest := s;
    while rest != {}
      invariant rest <= s && (r.None? ==> s == rest)
      invariant r.Some? ==> r.value in s && forall y :: y in s && y !in rest ==> !Below(r.value, y)
      decreases |rest|
    {
      var x :| x in rest;
      if r.None? || Below(r.value, x) {
        r := Some(x);
      }
      rest := rest - {x};
    }
  }

  /** The host's answer: the iterator and primary key of a row, or a negative number. */
  ghost predicate Names(t: HostTable<int>, itr: int, pk: u64, r: Option<Entry>) {
    match r
    case None => itr < 0
    case Some(e) =>
      itr >= 0 && pk == e.1 && pk in t.handle && t.handle[pk] == itr && pk in t.entry && t.entry[pk] == e.0
  }

  method Name(t: HostTable<int>, r: Option<Entry>, ghost issued: nat) returns (itr: int, pk: u64)
    requires TableOk(t, issued) && (r.Some? ==> r.value in EntriesOf(t))
    ensures Names(t, itr, pk, r)
  {
    itr, pk := -1, 0;
    if r.Some? {
      pk := r.value.1;
      itr := t.handle[pk];
    }
  }

  method HostEdge<T(!new)>(t: HostTable<T>, last: bool) returns (r: Option<u64>)
    ensures r.None? <==> t.entry == map[]
    ensures r.Some? ==> IsEdge(t.entry, r.value, last)
  {
    var all := set pk | pk in t.entry :: (0, pk);
    assert forall pk :: pk in t.entry ==> (0, pk) in all;
    var e;
    if last {
      e := GreatestOf(all);
    } else {
      e := LeastOf(all);
    }
    r := if e.None? then None else Some(e.value.1);
  }

  method HostNext(t: HostTable<int>, h: int, ghost e: Entry, ghost issued: nat) returns (itr: int, pk: u64)
    requires TableOk(t, issued) && e.1 in t.entry && t.entry[e.1] == e.0 && t.handle[e.1] == h
    ensures exists r :: Names(t, itr, pk, r) && Follows(EntriesOf(t), e, r)
  {
    var p := RowOf(t, h);
    var here := (t.entry[p], p);
    assert here == e;
    var side := set x | x in EntriesOf(t) && Below(here, x);
    var r := LeastOf(side);
    itr, pk := Name(t, r, issued);
    assert forall x :: x in EntriesOf(t) && Below(here, x) ==> x in side;
    assert Follows(EntriesOf(t), e, r);
  }

  method HostPrevious(t: HostTable<int>, h: int, ghost e: Entry, ghost issued: nat) returns (itr: int, pk: u64)
    requires TableOk(t, issued) && e.1 in t.entry && t.entry[e.1] == e.0 && t.handle[e.1] == h
    ensures exists r :: Names(t, itr, pk, r) && Precedes(EntriesOf(t), e, r)
  {
    var p := RowOf(t, h);
    var here := (t.entry[p], p);
    assert here == e;
    var side := set x | x in EntriesOf(t) && Below(x, here);
    var r := GreatestOf(side);
    itr, pk := Name(t, r, issued);
    assert forall x :: x in EntriesOf(t) && Below(x, here) ==> x in side;
    assert Precedes(EntriesOf(t), e, r);
  }

  method HostLast(t: HostTable<int>, ghost issued: nat) returns (itr: int, pk: u64)
    requires TableOk(t, issued)
    ensures exists r :: Names(t, itr, pk, r) && Last(EntriesOf(t), r)
  {
    var r := GreatestOf(EntriesOf(t));
    itr, pk := Name(t, r, issued);
    assert Last(EntriesOf(t), r);
  }

  method HostLowerBound(t: HostTable<int>, key: int, ghost issued: nat) returns (itr: int, pk: u64)
    requires TableOk(t, issued)
    ensures exists r :: Names(t, itr, pk, r) && LowerBoundIs(EntriesOf(t), key, r)
  {
    var side := set x | x in EntriesOf(t) && x.0 >= key;
    var r := LeastOf(side);
    itr, pk := Name(t, r, issued);
    assert forall x :: x in EntriesOf(t) && x.0 >= key ==> x in side;
    assert LowerBoundIs(EntriesOf(t), key, r);
  }

  function NextAfter(next: u64, pk: u64): u64 {
    if pk >= next then (if pk >= NO_AVAILABLE then NO_AVAILABLE else pk + 1) else next
  }

  /** A next key that is neither below the last one nor taken by the key stored, unless there
      are no more. */
  ghost predicate Free(next: u64, pk: u64, n: u64) {
    next <= n <= NO_AVAILABLE && (pk < n || n == NO_AVAILABLE)
  }

  /** The least such key once keys are counted; before that only the highest key there is
      starts the count, and ends it. */
  ghost predicate NextKeyIs(next: u64, pk: u64, next': u64) {
    if next == UNSET then next' == if pk == UNSET then NO_AVAILABLE else UNSET
    else Free(next, pk, next') && forall n: u64 :: Free(next, pk, n) ==> next' <= n
  }

  lemma NextMoved(next: u64, pk: u64)
    ensures NextKeyIs(next, pk, NextAfter(next, pk))
  {
  }

  lemma NextStored<T>(rows: map<u64, T>, next: u64, pk: u64, row: T)
    requires NextOk(rows, next)
    ensures NextOk(rows[pk := row], NextAfter(next, pk)) && NextKeyIs(next, pk, NextAfter(next, pk))
  {
    NextMoved(next, pk);
  }

  function Successor(pk: u64): u64 { if pk >= NO_AVAILABLE then NO_AVAILABLE else pk + 1 }

  /** The number after the highest key, 0 for no rows, and not above NO_AVAILABLE. */
  ghost predicate AfterLast<T>(rows: map<u64, T>, next: u64) {
    if rows == map[] then next == 0
    else exists pk :: pk in rows && IsEdge(rows, pk, true) && next == Successor(pk)
  }

  lemma FirstNextIs<T>(rows: map<u64, T>, next: u64)
    requires AfterLast(rows, next)
    ensures next <= NO_AVAILABLE && (next < NO_AVAILABLE <==> forall pk :: pk in rows ==> pk + 1 < NO_AVAILABLE)
    ensures next < NO_AVAILABLE ==> forall pk :: pk in rows ==> pk < next
    ensures next < NO_AVAILABLE ==> if rows == map[] then next == 0 else next > 0 && next - 1 in rows
  {
  }

  /** A key that was the next one and is stored is followed by its successor. */
  lemma NextInTurn(k: u64, next: u64)
    requires k < NO_AVAILABLE && NextKeyIs(k, k, next)
    ensures next == k + 1
  {
    assert Free(k, k, k + 1);
  }

  /** Rows stored under the keys asked for are numbered in turn. */
  method TwoInTurn<T(!new)>(m: MultiIndex<T>, make: u64 -> T) returns (ok: bool, first: u64, more: bool, second: u64)
    requires m.Valid() && m.own && forall k :: m.keys.primary(make(k)) == k
    modifies m
    ensures m.Valid() && (old(m.primary.entry) == map[] && old(m.nextKey) == UNSET ==> ok && first == 0)
    ensures ok ==> (more <==> first + 1 < NO_AVAILABLE) && (more ==> second == first + 1)
  {
    ok, first := m.AvailablePrimaryKey();
    more, second := false, 0;
    if ok {
      var stored := m.Emplace(make(first));
      NextInTurn(first, m.nextKey);
      more, second := m.AvailablePrimaryKey();
    }
  }

  ghost predicate NotCached<T>(keys: Keys<T>, items: seq<Item<T>>, pk: u64) {
    forall k :: 0 <= k < |items| ==> keys.primary(items[k].value) != pk
  }

  /** What is cached is stored. */
  lemma CachedRows<T(!new)>(keys: Keys<T>, primary: HostTable<T>, secondary: seq<HostTable<int>>, items: seq<Item<T>>,
      pk: u64)
    requires CacheOk(keys, primary, secondary, items) && pk !in primary.entry
    ensures NotCached(keys, items, pk)
  {
    forall k | 0 <= k < |items|
      ensures keys.primary(items[k].value) != pk
    {
      assert ItemOk(keys, primary, secondary, items[k]);
    }
  }

  lemma ItemAdded<T(!new)>(keys: Keys<T>, primary: HostTable<T>, secondary: seq<HostTable<int>>, items: seq<Item<T>>,
      item: Item<T>)
    requires CacheOk(keys, primary, secondary, items) && ItemOk(keys, primary, secondary, item)
    requires NotCached(keys, items, keys.primary(item.value))
    ensures CacheOk(keys, primary, secondary, items + [item])
  {
  }

  // ----- one table after the other

  /** Secondary table i after the first `done` tables have followed the rows. */
  ghost predicate SeenOk<T(!new)>(keys: Keys<T>, rows: map<u64, T>, rows': map<u64, T>, t: HostTable<int>,
      issued: nat, i: nat, done: nat)
    requires i < |keys.secondary|
  {
    TableOk(t, issued) && Agree(keys, if i < done then rows' else rows, t, i)
  }

  ghost predicate Partly<T(!new)>(keys: Keys<T>, rows: map<u64, T>, rows': map<u64, T>,
      secondary: seq<HostTable<int>>, issued: nat, done: nat) {
    |secondary| == |keys.secondary| && forall i :: 0 <= i < |secondary| ==>
      SeenOk(keys, rows, rows', secondary[i], issued, i, done)
  }

  lemma PartlyNone<T(!new)>(keys: Keys<T>, primary: HostTable<T>, rows': map<u64, T>, secondary: seq<HostTable<int>>,
      issued: nat, issued': nat)
    requires TablesOk(keys, primary, secondary, issued) && issued <= issued'
    ensures Partly(keys, primary.entry, rows', secondary, issued', 0)
  {
    forall i | 0 <= i < |secondary|
      ensures SeenOk(keys, primary.entry, rows', secondary[i], issued', i, 0)
    {
      assert SecondaryOk(keys, primary, secondary[i], i, issued);
    }
  }

  /** When all secondary tables have followed the rows the tables agree again. */
  lemma PartlyAll<T(!new)>(keys: Keys<T>, rows: map<u64, T>, primary: HostTable<T>, secondary: seq<HostTable<int>>,
      issued: nat)
    requires Partly(keys, rows, primary.entry, secondary, issued, |secondary|) && TableOk(primary, issued) &&
      Keyed(keys, primary.entry)
    ensures TablesOk(keys, primary, secondary, issued)
  {
    forall i | 0 <= i < |secondary|
      ensures SecondaryOk(keys, primary, secondary[i], i, issued)
    {
      assert SeenOk(keys, rows, primary.entry, secondary[i], issued, i, |secondary|);
    }
  }

  lemma UpdatedOk<T(!new)>(keys: Keys<T>, t: HostTable<T>, issued: nat, pk: u64, row: T, next: u64)
    requires TableOk(t, issued) && Keyed(keys, t.entry) && NextOk(t.entry, next) && pk in t.entry &&
      keys.primary(row) == pk
    ensures var t' := Updated(t, pk, row);
      TableOk(t', issued) && Keyed(keys, t'.entry) && NextOk(t'.entry, NextAfter(next, pk))
  {
  }

  lemma RemovedOk<T(!new)>(keys: Keys<T>, t: HostTable<T>, issued: nat, pk: u64, next: u64)
    requires TableOk(t, issued) && Keyed(keys, t.entry) && NextOk(t.entry, next)
    ensures var t' := Removed(t, pk); TableOk(t', issued) && Keyed(keys, t'.entry) && NextOk(t'.entry, next)
  {
  }

  /** A table followed the rows; the others are as they were. */
  lemma PartlyStep<T(!new)>(keys: Keys<T>, rows: map<u64, T>, rows': map<u64, T>, secondary: seq<HostTable<int>>,
      t: HostTable<int>,
                            issued: nat, issued': nat, i: nat)
    requires Partly(keys, rows, rows', secondary, issued, i) && i < |secondary| && issued <= issued'
    requires TableOk(t, issued') && Agree(keys, rows', t, i)
    ensures Partly(keys, rows, rows', secondary[i := t], issued', i + 1)
  {
    var next, all := i + 1, secondary[i := t];
    forall j | 0 <= j < |all|
      ensures SeenOk(keys, rows, rows', all[j], issued', j, next)
    {
      assert SeenOk(keys, rows, rows', secondary[j], issued, j, i);
    }
  }

  // ----- storing

  lemma StoredOk<V>(t: HostTable<V>, issued: nat, pk: u64, v: V)
    requires TableOk(t, issued) && pk !in t.entry
    ensures TableOk(Stored(t, pk, v, issued), issued + 1)
  {
  }

  lemma StoredCache<T(!new)>(keys: Keys<T>, primary: HostTable<T>, secondary: seq<HostTable<int>>,
      items: seq<Item<T>>, pk: u64, row: T, h: int)
    requires CacheOk(keys, primary, secondary, items) && NotCached(keys, items, pk)
    ensures CacheOk(keys, Stored(primary, pk, row, h), secondary, items)
  {
    var primary' := Stored(primary, pk, row, h);
    forall k | 0 <= k < |items|
      ensures ItemOk(keys, primary', secondary, items[k])
    {
      assert ItemOk(keys, primary, secondary, items[k]);
    }
  }

  lemma StoredSecondary<T(!new)>(keys: Keys<T>, primary: HostTable<T>, secondary: seq<HostTable<int>>,
      items: seq<Item<T>>, i: nat, pk: u64, v: int, h: int)
    requires CacheOk(keys, primary, secondary, items) && NotCached(keys, items, pk) && i < |secondary|
    ensures CacheOk(keys, primary, secondary[i := Stored(secondary[i], pk, v, h)], items)
  {
    var secondary' := secondary[i := Stored(secondary[i], pk, v, h)];
    forall k | 0 <= k < |items|
      ensures ItemOk(keys, primary, secondary', items[k])
    {
      assert ItemOk(keys, primary, secondary, items[k]);
    }
  }

  lemma StoredPartly<T(!new)>(keys: Keys<T>, rows: map<u64, T>, rows': map<u64, T>, secondary: seq<HostTable<int>>,
      issued: nat, i: nat, pk: u64)
    requires Partly(keys, rows, rows', secondary, issued, i) && i < |secondary|
    requires pk in rows' && pk !in rows && rows' == rows[pk := rows'[pk]]
    ensures Partly(keys, rows, rows', secondary[i := Stored(secondary[i], pk, keys.secondary[i](rows'[pk]), issued)],
      issued + 1, i + 1)
  {
    assert SeenOk(keys, rows, rows', secondary[i], issued, i, i);
    StoredOk(secondary[i], issued, pk, keys.secondary[i](rows'[pk]));
    PartlyStep(keys, rows, rows', secondary, Stored(secondary[i], pk, keys.secondary[i](rows'[pk]), issued), issued,
      issued + 1, i);
  }
}
