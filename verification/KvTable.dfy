/** Key-value tables (libraries/eosiolib/contracts/eosio/kv.hpp and kv_base.hpp): rows
    stored under their primary key, and for every secondary index an entry that leads from
    the secondary key to the primary one.  The host keeps an ordered map from byte strings
    to values; key functions are given. */
module KvTable {
  import opened Words
  import opened Wrappers
  import opened Sets
  import opened Lexicographic
  import opened BigEndianBytes

  type name = u64
  type Key = Text

  // ----- full keys: prefix and partial key

  function MakePrefix(table: name, index: name): (p: Key)
    ensures |p| == 17
  {
    [1] + BigEndian(table, 8) + BigEndian(index, 8)
  }

  /** A full key: the prefix of an index, and a partial key.  The host only sees the bytes;
      the lemmas below say that the parts can be told from them. */
  datatype FullKey = FullKey(table: name, index: name, key: Key) {
    function Bytes(): Key { MakePrefix(table, index) + key }
  }

  ghost predicate HasPrefix(k: Key, p: Key) { |p| <= |k| && k[..|p|] == p }

  /** The bytes of a full key begin with the prefix of its own index only. */
  lemma PrefixTells(k: FullKey, table: name, index: name)
    ensures HasPrefix(k.Bytes(), MakePrefix(table, index)) <==> k.table == table && k.index == index
  {
    var a, p := k.Bytes(), MakePrefix(table, index);
    assert a[..17] == MakePrefix(k.table, k.index);
    if a[..17] == p {
      assert BigEndian(k.table, 8) == a[..17][1..9] == p[1..9] == BigEndian(table, 8);
      assert BigEndian(k.index, 8) == a[..17][9..17] == p[9..17] == BigEndian(index, 8);
      FitsEight(k.table); FitsEight(table); FitsEight(k.index); FitsEight(index);
      BigEndianInjective(k.table, table, 8);
      BigEndianInjective(k.index, index, 8);
    }
  }

  /** All keys of a table, and no others, begin with the status byte and the table. */
  lemma TablePrefixTells(k: FullKey, table: name)
    ensures HasPrefix(k.Bytes(), [1] + BigEndian(table, 8)) <==> k.table == table
  {
    var a, p := k.Bytes(), [1] + BigEndian(table, 8);
    assert a[..9] == [1] + BigEndian(k.table, 8);
    if a[..9] == p {
      assert BigEndian(k.table, 8) == a[..9][1..] == p[1..] == BigEndian(table, 8);
      FitsEight(k.table); FitsEight(table);
      BigEndianInjective(k.table, table, 8);
    }
  }

  /** Different full keys are different bytes. */
  lemma BytesInjective(a: FullKey, b: FullKey)
    requires a.Bytes() == b.Bytes()
    ensures a == b
  {
    assert HasPrefix(a.Bytes(), MakePrefix(a.table, a.index));
    PrefixTells(b, a.table, a.index);
    assert a.key == a.Bytes()[17..] == b.Bytes()[17..] == b.key;
  }

  /** Within an index the host's order is that of the partial keys. */
  lemma BytesOrder(table: name, index: name, a: Key, b: Key)
    ensures Less(FullKey(table, index, a).Bytes(), FullKey(table, index, b).Bytes()) <==> Less(a, b)
  {
    LessPrefix(MakePrefix(table, index), a, b);
  }

  // ----- the store and the rows it stands for

  /** What the host keeps under a key: a serialised row, or the full primary key of one. */
  datatype Stored<T> = Row(row: T) | Ref(key: FullKey)

  type Store<T> = map<FullKey, Stored<T>>

  datatype Index<!T> = Index(id: name, keyOf: T -> Key)

  datatype Which = Primary | Secondary(i: nat)

  /** The schema: table name, primary index and secondary ones, all with different names. */
  datatype Schema<!T> = Schema(table: name, primary: Index<T>, indices: seq<Index<T>>) {
    function PrimaryKey(row: T): FullKey { FullKey(table, primary.id, primary.keyOf(row)) }
    function Entry(i: nat, row: T): FullKey
      requires i < |indices|
    {
      FullKey(table, indices[i].id, indices[i].keyOf(row))
    }
    predicate Has(w: Which) { w.Secondary? ==> w.i < |indices| }
    function IndexAt(w: Which): Index<T>
      requires Has(w)
    {
      if w.Primary? then primary else indices[w.i]
    }
    ghost predicate Distinct() {
      && (forall i :: 0 <= i < |indices| ==> indices[i].id != primary.id)
      && (forall i, j :: 0 <= i < j < |indices| ==> indices[i].id != indices[j].id)
    }
  }

  /** Rows are found under their primary key. */
  ghost predicate PrimaryOk<T(!new)>(schema: Schema<T>, store: Store<T>, rows: map<Key, T>) {
    && (forall pk :: pk in rows ==> schema.primary.keyOf(rows[pk]) == pk)
    && (forall pk :: pk in rows <==> FullKey(schema.table, schema.primary.id, pk) in store)
    && (forall pk :: pk in rows ==> store[FullKey(schema.table, schema.primary.id, pk)] == Row(rows[pk]))
  }

  /** Index i has, for every row, the entry leading from its secondary key to it. */
  ghost predicate Covers<T(!new)>(schema: Schema<T>, store: Store<T>, rows: map<Key, T>, i: nat)
    requires i < |schema.indices|
  {
    forall pk :: pk in rows ==>
      schema.Entry(i, rows[pk]) in store && store[schema.Entry(i, rows[pk])] == Ref(schema.PrimaryKey(rows[pk]))
  }

  /** Index i has no other entries. */
  ghost predicate Exact<T(!new)>(schema: Schema<T>, store: Store<T>, rows: map<Key, T>, i: nat)
    requires i < |schema.indices|
  {
    forall key :: FullKey(schema.table, schema.indices[i].id, key) in store ==> HasKey(rows, schema.indices[i], key)
  }

  ghost predicate HasKey<T(!new)>(rows: map<Key, T>, index: Index<T>, key: Key) {
    exists pk :: pk in rows && index.keyOf(rows[pk]) == key
  }

  ghost predicate IndexOk<T(!new)>(schema: Schema<T>, store: Store<T>, rows: map<Key, T>, i: nat)
    requires i < |schema.indices|
  {
    Covers(schema, store, rows, i) && Exact(schema, store, rows, i)
  }

  /** Store and rows agree: between the rows and the entries of every secondary index there
      is a bijection. */
  ghost predicate Inv<T(!new)>(schema: Schema<T>, store: Store<T>, rows: map<Key, T>) {
    && schema.Distinct() && PrimaryOk(schema, store, rows)
    && forall i :: 0 <= i < |schema.indices| ==> IndexOk(schema, store, rows, i)
  }

  /** No two rows have the same secondary key. */
  lemma Unique<T(!new)>(schema: Schema<T>, store: Store<T>, rows: map<Key, T>, i: nat, pk: Key, pk': Key)
    requires Inv(schema, store, rows) && i < |schema.indices| && pk in rows && pk' in rows && pk != pk'
    ensures schema.indices[i].keyOf(rows[pk]) != schema.indices[i].keyOf(rows[pk'])
  {
    assert IndexOk(schema, store, rows, i);
    assert store[schema.Entry(i, rows[pk])].key.key == pk && store[schema.Entry(i, rows[pk'])].key.key == pk';
  }

  /** Another row has one of the row's secondary keys. */
  ghost predicate Taken<T(!new)>(schema: Schema<T>, rows: map<Key, T>, row: T, i: nat)
    requires i < |schema.indices|
  {
    exists pk :: pk in rows && pk != schema.primary.keyOf(row) &&
      schema.indices[i].keyOf(rows[pk]) == schema.indices[i].keyOf(row)
  }
  ghost predicate Conflict<T(!new)>(schema: Schema<T>, rows: map<Key, T>, row: T) {
    exists i :: 0 <= i < |schema.indices| && Taken(schema, rows, row, i)
  }

  /** Keys of other tables hold what they held. */
  ghost predicate OthersKept<T(!new)>(schema: Schema<T>, store: Store<T>, store': Store<T>) {
    forall k: FullKey :: k.table != schema.table ==>
      (k in store' <==> k in store) && (k in store ==> store'[k] == store[k])
  }

  // ----- put: one index after the other

  /** Index i after `done` indices have been updated for `row`: the first ones already
      hold the row, the others not yet. */
  ghost predicate SeenOk<T(!new)>(schema: Schema<T>, store: Store<T>, rows: map<Key, T>, row: T, i: nat, done: nat)
    requires i < |schema.indices|
  {
    IndexOk(schema, store, if i < done then rows[schema.primary.keyOf(row) := row] else rows, i)
  }

  ghost predicate Putting<T(!new)>(schema: Schema<T>, store: Store<T>, rows: map<Key, T>, row: T, done: nat) {
    && schema.Distinct() && PrimaryOk(schema, store, rows) && done <= |schema.indices|
    && (forall i :: 0 <= i < |schema.indices| ==> SeenOk(schema, store, rows, row, i, done))
    && (forall i :: 0 <= i < done ==> !Taken(schema, rows, row, i))
  }

  /** The entry of one index is moved to the row's new key. */
  function Moved<T(!new)>(schema: Schema<T>, store: Store<T>, rows: map<Key, T>, row: T, i: nat): Store<T>
    requires i < |schema.indices|
  {
    var pk := schema.primary.keyOf(row);
    var store' := if pk in rows then store - {schema.Entry(i, rows[pk])} else store;
    store'[schema.Entry(i, row) := Ref(schema.PrimaryKey(row))]
  }

  /** The entry found under the row's key in index i belongs to a row with that key. */
  lemma FoundEntry<T(!new)>(schema: Schema<T>, store: Store<T>, rows: map<Key, T>, row: T, i: nat) returns (owner: Key)
    requires Putting(schema, store, rows, row, i) && i < |schema.indices| && schema.Entry(i, row) in store
    ensures owner in rows && schema.indices[i].keyOf(rows[owner]) == schema.indices[i].keyOf(row)
    ensures store[schema.Entry(i, row)] == Ref(schema.PrimaryKey(rows[owner]))
    ensures store[schema.Entry(i, row)] == Ref(schema.PrimaryKey(row)) <==> owner == schema.primary.keyOf(row)
    ensures owner != schema.primary.keyOf(row) <==> Taken(schema, rows, row, i)
  {
    var index := schema.indices[i];
    assert SeenOk(schema, store, rows, row, i, i);
    assert HasKey(rows, index, index.keyOf(row));
    owner :| owner in rows && index.keyOf(rows[owner]) == index.keyOf(row);
    if Taken(schema, rows, row, i) {
      var pk :| pk in rows && pk != schema.primary.keyOf(row) && index.keyOf(rows[pk]) == index.keyOf(row);
      assert schema.Entry(i, rows[pk]) == schema.Entry(i, row);
    }
  }

  lemma SameHere<T(!new)>(schema: Schema<T>, store: Store<T>, rows: map<Key, T>, row: T, i: nat)
    requires i < |schema.indices| && IndexOk(schema, store, rows, i) && schema.primary.keyOf(row) in rows
    requires schema.primary.keyOf(rows[schema.primary.keyOf(row)]) == schema.primary.keyOf(row)
    requires schema.indices[i].keyOf(rows[schema.primary.keyOf(row)]) == schema.indices[i].keyOf(row)
    ensures IndexOk(schema, store, rows[schema.primary.keyOf(row) := row], i)
  {
    var index, rows' := schema.indices[i], rows[schema.primary.keyOf(row) := row];
    forall key | FullKey(schema.table, index.id, key) in store
      ensures HasKey(rows', index, key)
    {
      var pk' :| pk' in rows && index.keyOf(rows[pk']) == key;
      assert pk' in rows' && index.keyOf(rows'[pk']) == key;
    }
  }

  /** The entry already leads to the row: nothing to do. */
  lemma StepSame<T(!new)>(schema: Schema<T>, store: Store<T>, rows: map<Key, T>, row: T, i: nat)
    requires Putting(schema, store, rows, row, i) && i < |schema.indices| && !Taken(schema, rows, row, i)
    requires schema.Entry(i, row) in store
    ensures schema.primary.keyOf(row) in rows && Putting(schema, store, rows, row, i + 1)
  {
    var owner := FoundEntry(schema, store, rows, row, i);
    assert SeenOk(schema, store, rows, row, i, i);
    SameHere(schema, store, rows, row, i);
    var next := i + 1;
    forall j | 0 <= j < |schema.indices|
      ensures SeenOk(schema, store, rows, row, j, next)
    {
      assert SeenOk(schema, store, rows, row, j, i);
    }
  }

  /** Other indices do not notice. */
  lemma MovedElsewhere<T(!new)>(schema: Schema<T>, store: Store<T>, rows: map<Key, T>, row: T, i: nat, j: nat,
      seen: map<Key, T>)
    requires schema.Distinct() && i < |schema.indices| && j < |schema.indices| && i != j &&
      IndexOk(schema, store, seen, j)
    ensures IndexOk(schema, Moved(schema, store, rows, row, i), seen, j)
  {
    var store' := Moved(schema, store, rows, row, i);
    assert schema.indices[i].id != schema.indices[j].id;
    forall pk | pk in seen
      ensures schema.Entry(j, seen[pk]) in store' && store'[schema.Entry(j, seen[pk])] ==
        Ref(schema.PrimaryKey(seen[pk]))
    {
      assert schema.Entry(j, seen[pk]) in store;
    }
  }

  /** No entry yet: the row's old one goes and the new one comes. */
  lemma StepMoved<T(!new)>(schema: Schema<T>, store: Store<T>, rows: map<Key, T>, row: T, i: nat)
    requires Putting(schema, store, rows, row, i) && i < |schema.indices|
    requires schema.Entry(i, row) !in store
    ensures !Taken(schema, rows, row, i) && Putting(schema, Moved(schema, store, rows, row, i), rows, row, i + 1)
    ensures OthersKept(schema, store, Moved(schema, store, rows, row, i))
  {
    var store', rows' := Moved(schema, store, rows, row, i), rows[schema.primary.keyOf(row) := row];
    assert SeenOk(schema, store, rows, row, i, i);
    forall pk | pk in rows
      ensures schema.indices[i].keyOf(rows[pk]) != schema.indices[i].keyOf(row)
    {
      assert schema.Entry(i, rows[pk]) in store;
    }
    MovedHere(schema, store, rows, row, i);
    var next := i + 1;
    forall j | 0 <= j < |schema.indices|
      ensures SeenOk(schema, store', rows, row, j, next)
    {
      assert SeenOk(schema, store, rows, row, j, i);
      if j != i { MovedElsewhere(schema, store, rows, row, i, j, if j < i then rows' else rows); }
    }
    assert PrimaryOk(schema, store', rows) by { assert schema.indices[i].id != schema.primary.id; }
  }

  lemma MovedHere<T(!new)>(schema: Schema<T>, store: Store<T>, rows: map<Key, T>, row: T, i: nat)
    requires i < |schema.indices| && IndexOk(schema, store, rows, i)
    requires forall pk :: pk in rows ==> schema.primary.keyOf(rows[pk]) == pk
    requires schema.Entry(i, row) !in store
    ensures var store', rows' := Moved(schema, store, rows, row, i), rows[schema.primary.keyOf(row) := row];
      IndexOk(schema, store', rows', i)
  {
    var pk, index := schema.primary.keyOf(row), schema.indices[i];
    var store', rows' := Moved(schema, store, rows, row, i), rows[pk := row];
    forall pk' | pk' in rows'
      ensures schema.Entry(i, rows'[pk']) in store' && store'[schema.Entry(i, rows'[pk'])] ==
        Ref(schema.PrimaryKey(rows'[pk']))
    {
      if pk' != pk {
        assert store[schema.Entry(i, rows[pk'])] == Ref(FullKey(schema.table, schema.primary.id, pk'));
        if pk in rows { assert store[schema.Entry(i, rows[pk])] == Ref(FullKey(schema.table, schema.primary.id, pk)); }
      }
    }
    forall key | FullKey(schema.table, index.id, key) in store'
      ensures HasKey(rows', index, key)
    {
      if FullKey(schema.table, index.id, key) == schema.Entry(i, row) {
        assert pk in rows' && index.keyOf(rows'[pk]) == key;
      } else {
        var pk' :| pk' in rows && index.keyOf(rows[pk']) == key;
        assert pk' != pk;
        assert pk' in rows' && index.keyOf(rows'[pk']) == key;
      }
    }
  }

  /** All indices are done: the row is stored. */
  lemma StepStored<T(!new)>(schema: Schema<T>, store: Store<T>, rows: map<Key, T>, row: T)
    requires Putting(schema, store, rows, row, |schema.indices|)
    ensures var pk := schema.primary.keyOf(row); var store' := store[schema.PrimaryKey(row) := Row(row)];
      Inv(schema, store', rows[pk := row]) && OthersKept(schema, store, store') && !Conflict(schema, rows, row)
  {
    var pk := schema.primary.keyOf(row);
    var store', rows' := store[schema.PrimaryKey(row) := Row(row)], rows[pk := row];
    forall i | 0 <= i < |schema.indices|
      ensures IndexOk(schema, store', rows', i)
    {
      assert SeenOk(schema, store, rows, row, i, |schema.indices|);
    }
  }

  class Table<T(!new)> {
    const schema: Schema<T>
    var store: Store<T>
    ghost var rows: map<Key, T>

    ghost predicate Valid()
      reads this
    {
      Inv(schema, store, rows)
    }

    constructor (s: Schema<T>)
      requires s.Distinct()
      ensures Valid() && schema == s && rows == map[] && store == map[]
    {
      schema, store, rows := s, map[], map[];
    }

    /** Store a row, in place of the one with the same primary key if there is one.  False:
        the transaction is aborted, and the host takes back what it wrote. */
    method Put(row: T) returns (ok: bool)
      requires Valid()
      modifies this
      ensures Valid() && OthersKept(schema, old(store), store)
      ensures ok <==> !Conflict(schema, old(rows), row)
      ensures rows == if ok then old(rows)[schema.primary.keyOf(row) := row] else old(rows)
      ensures !ok ==> store == old(store)
    {
      ghost var store0 := store;
      var before := store;
      var tblKey := schema.PrimaryKey(row);
      var found := tblKey in store;
      assert found == (schema.primary.keyOf(row) in rows);
      for i := 0 to |schema.indices|
        invariant Putting(schema, store, rows, row, i) && OthersKept(schema, store0, store)
        invariant rows == old(rows) && before == old(store) == store0
      {
        var secKey := schema.Entry(i, row);
        var secFound := secKey in store;
        if secFound {
          ghost var owner := FoundEntry(schema, store, rows, row, i);
          if !found || !(store[secKey].Ref? && store[secKey].key == tblKey) {
            assert Taken(schema, rows, row, i);
            store := before;
            return false;
          }
          StepSame(schema, store, rows, row, i);
        } else {
          StepMoved(schema, store, rows, row, i);
          if found {
            assert store[tblKey] == Row(rows[schema.primary.keyOf(row)]);
            var oldSecKey := schema.Entry(i, store[tblKey].row);
            store := store - {oldSecKey};
          }
          store := store[secKey := Ref(tblKey)];
        }
      }
      StepStored(schema, store, rows, row);
      store := store[tblKey := Row(row)];
      rows := rows[schema.primary.keyOf(row) := row];
      ok := true;
    }

    /** Remove the row with the argument's primary key.  The entries to erase are computed
        from the argument, so rows and entries still agree exactly when the argument has
        the secondary keys of the row stored. */
    method Erase(row: T)
      requires Valid()
      modifies this
      ensures schema.primary.keyOf(row) !in old(rows) ==> store == old(store) && rows == old(rows)
      ensures schema.primary.keyOf(row) in old(rows) ==>
        && store == old(store) - Entries(schema, row, |schema.indices|) - {schema.PrimaryKey(row)}
        && rows == old(rows) - {schema.primary.keyOf(row)}
        && (Valid() <==> SameKeys(schema, old(rows)[schema.primary.keyOf(row)], row))
      ensures OthersKept(schema, old(store), store)
    {
      var tblKey := schema.PrimaryKey(row);
      assert (tblKey in store) == (schema.primary.keyOf(row) in rows);
      if tblKey !in store {
        return;
      }
      EraseKeeps(schema, store, rows, row);
      for i := 0 to |schema.indices|
        invariant rows == old(rows) && store == old(store) - Entries(schema, row, i)
      {
        store := store - {schema.Entry(i, row)};
      }
      store := store - {tblKey};
      rows := rows - {schema.primary.keyOf(row)};
    }

    /** Look a key up in an index; `ok` is false when a check failed. */
    method Get(w: Which, key: Key) returns (ok: bool, r: Option<T>)
      requires Valid() && schema.Has(w)
      ensures ok && (r.Some? <==> HasKey(rows, schema.IndexAt(w), key))
      ensures forall pk :: pk in rows && schema.IndexAt(w).keyOf(rows[pk]) == key ==> r == Some(rows[pk])
    {
      var k := FullKey(schema.table, schema.IndexAt(w).id, key);
      Lookup(schema, store, rows, w, key);
      if k !in store {
        return true, None;
      }
      match store[k]
      case Row(row) =>
        return true, Some(row);
      case Ref(tblKey) =>
        if tblKey !in store || !store[tblKey].Row? {
          return false, None;
        }
        return true, Some(store[tblKey].row);
    }

    /** The host's iterators: the first entry of an index not below a key. */
    method LowerBound(w: Which, key: Key) returns (pos: Position)
      requires Valid() && schema.Has(w)
      ensures FirstFrom(KeysOf(schema, store, w), key, pos)
    {
      pos := HostSeek(KeysOf(schema, store, w), key, false);
    }

    method UpperBound(w: Which, key: Key) returns (pos: Position)
      requires Valid() && schema.Has(w)
      ensures FirstAbove(KeysOf(schema, store, w), key, pos)
    {
      pos := LowerBound(w, key);
      if pos.At? && pos.key == key {
        pos := HostSeek(KeysOf(schema, store, w), pos.key, true);
      } else {
        NotEqualAbove(KeysOf(schema, store, w), key, pos);
      }
    }

    /** The row an iterator points to. */
    method Value(w: Which, key: Key) returns (row: T)
      requires Valid() && schema.Has(w) && key in KeysOf(schema, store, w)
      ensures InRows(rows, row) && schema.IndexAt(w).keyOf(row) == key
    {
      Lookup(schema, store, rows, w, key);
      match store[FullKey(schema.table, schema.IndexAt(w).id, key)]
      case Row(r) => row := r;
      case Ref(tblKey) => row := store[tblKey].row;
    }

    /** The rows with keys from b up to, not including, e, in the order of their keys. */
    method Range(w: Which, b: Key, e: Key) returns (result: seq<T>)
      requires Valid() && schema.Has(w)
      ensures Ascending(schema.IndexAt(w), result)
      ensures forall row :: row in result <==> InRows(rows, row) && InRange(b, schema.IndexAt(w).keyOf(row), e)
    {
      result := [];
      var keys := KeysOf(schema, store, w);
      var pos := LowerBound(w, b);
      var end := LowerBound(w, e);
      ghost var done: seq<Key> := [];
      PassNone(keys, b, e, pos);
      while Compare(pos, end) < 0
        invariant Passed(keys, b, e, pos, done)
        invariant |result| == |done| && forall i :: 0 <= i < |result| ==>
          InRows(rows, result[i]) && schema.IndexAt(w).keyOf(result[i]) == done[i]
        decreases |Ahead(keys, pos)|
      {
        var row := Value(w, pos.key);
        result := result + [row];
        var next := HostSeek(keys, pos.key, true);
        Pass(keys, b, e, pos, end, done, next);
        done := done + [pos.key];
        pos := next;
      }
      RangeDone(schema, store, rows, w, b, e, pos, end, done, result);
    }
  }

  function Entries<T>(schema: Schema<T>, row: T, n: nat): set<FullKey>
    requires n <= |schema.indices|
  {
    set i | 0 <= i < n :: schema.Entry(i, row)
  }

  ghost predicate SameKeys<T>(schema: Schema<T>, a: T, b: T) {
    forall i :: 0 <= i < |schema.indices| ==> schema.indices[i].keyOf(a) == schema.indices[i].keyOf(b)
  }

  lemma EraseKeeps<T(!new)>(schema: Schema<T>, store: Store<T>, rows: map<Key, T>, row: T)
    requires Inv(schema, store, rows) && schema.primary.keyOf(row) in rows
    ensures var pk := schema.primary.keyOf(row);
      var store' := store - Entries(schema, row, |schema.indices|) - {schema.PrimaryKey(row)};
      Inv(schema, store', rows - {pk}) <==> SameKeys(schema, rows[pk], row)
  {
    var pk := schema.primary.keyOf(row);
    var store' := store - Entries(schema, row, |schema.indices|) - {schema.PrimaryKey(row)};
    if SameKeys(schema, rows[pk], row) {
      EraseRight(schema, store, rows, row);
    } else {
      var i :| 0 <= i < |schema.indices| && schema.indices[i].keyOf(rows[pk]) != schema.indices[i].keyOf(row);
      EraseWrong(schema, store, rows, row, i);
    }
  }

  /** With other secondary keys an entry is left that leads nowhere. */
  lemma EraseWrong<T(!new)>(schema: Schema<T>, store: Store<T>, rows: map<Key, T>, row: T, i: nat)
    requires Inv(schema, store, rows) && schema.primary.keyOf(row) in rows && i < |schema.indices|
    requires schema.indices[i].keyOf(rows[schema.primary.keyOf(row)]) != schema.indices[i].keyOf(row)
    ensures !Inv(schema, store - Entries(schema, row, |schema.indices|) - {schema.PrimaryKey(row)},
      rows - {schema.primary.keyOf(row)})
  {
    var pk := schema.primary.keyOf(row);
    var store' := store - Entries(schema, row, |schema.indices|) - {schema.PrimaryKey(row)};
    var left, index := schema.Entry(i, rows[pk]), schema.indices[i];
    assert IndexOk(schema, store, rows, i);
    assert left in store' by {
      forall j | 0 <= j < |schema.indices|
        ensures schema.Entry(j, row) != left
      {
        assert j != i ==> schema.indices[j].id != index.id;
      }
    }
    var rows', key := rows - {pk}, index.keyOf(rows[pk]);
    forall pk' | pk' in rows'
      ensures index.keyOf(rows'[pk']) != key
    {
      Unique(schema, store, rows, i, pk, pk');
    }
    assert FullKey(schema.table, index.id, key) in store' && !HasKey(rows', index, key);
    assert !IndexOk(schema, store', rows', i);
  }

  lemma EraseRight<T(!new)>(schema: Schema<T>, store: Store<T>, rows: map<Key, T>, row: T)
    requires Inv(schema, store, rows) && schema.primary.keyOf(row) in rows
    requires SameKeys(schema, rows[schema.primary.keyOf(row)], row)
    ensures Inv(schema, store - Entries(schema, row, |schema.indices|) - {schema.PrimaryKey(row)},
      rows - {schema.primary.keyOf(row)})
  {
    var pk := schema.primary.keyOf(row);
    var store', rows' := store - Entries(schema, row, |schema.indices|) - {schema.PrimaryKey(row)}, rows - {pk};
    forall i | 0 <= i < |schema.indices|
      ensures IndexOk(schema, store', rows', i)
    {
      assert IndexOk(schema, store, rows, i);
      var index := schema.indices[i];
      forall pk' | pk' in rows'
        ensures schema.Entry(i, rows'[pk']) in store'
      {
        Unique(schema, store, rows, i, pk, pk');
        forall j | 0 <= j < |schema.indices|
          ensures schema.Entry(i, rows[pk']) != schema.Entry(j, row)
        {
          assert i != j ==> schema.indices[i].id != schema.indices[j].id;
        }
      }
      forall key | FullKey(schema.table, index.id, key) in store'
        ensures HasKey(rows', index, key)
      {
        var pk' :| pk' in rows && index.keyOf(rows[pk']) == key;
        assert schema.Entry(i, row) in Entries(schema, row, |schema.indices|);
        assert pk' in rows' && index.keyOf(rows'[pk']) == key;
      }
    }
    assert PrimaryOk(schema, store', rows') by {
      forall pk' | pk' in rows'
        ensures FullKey(schema.table, schema.primary.id, pk') in store'
      {
        assert forall j :: 0 <= j < |schema.indices| ==> schema.indices[j].id != schema.primary.id;
      }
    }
  }

  // ----- iterators

  /** The partial keys of an index. */
  function KeysOf<T>(schema: Schema<T>, store: Store<T>, w: Which): set<Key>
    requires schema.Has(w)
  {
    set k | k in store && k.table == schema.table && k.index == schema.IndexAt(w).id :: k.key
  }

  ghost predicate InRows<T(!new)>(rows: map<Key, T>, row: T) { exists pk :: pk in rows && rows[pk] == row }

  /** What a key leads to, in any index. */
  lemma Lookup<T(!new)>(schema: Schema<T>, store: Store<T>, rows: map<Key, T>, w: Which, key: Key)
    requires Inv(schema, store, rows) && schema.Has(w)
    ensures var k, index := FullKey(schema.table, schema.IndexAt(w).id, key), schema.IndexAt(w);
      && (k in store <==> HasKey(rows, index, key)) && (k in store <==> key in KeysOf(schema, store, w))
      && (k in store ==> store[k].Row? || (store[k].key in store && store[k].key != k && store[store[k].key].Row?))
      && (k in store ==> var row := if store[k].Row? then store[k].row else store[store[k].key].row;
           InRows(rows, row) && index.keyOf(row) == key)
      && (forall pk :: pk in rows && index.keyOf(rows[pk]) == key ==>
           k in store && rows[pk] == if store[k].Row? then store[k].row else store[store[k].key].row)
  {
    var k, index := FullKey(schema.table, schema.IndexAt(w).id, key), schema.IndexAt(w);
    assert k in store ==> k.key in KeysOf(schema, store, w);
    if w.Primary? {
      if key in rows { assert index.keyOf(rows[key]) == key; }
    } else {
      assert IndexOk(schema, store, rows, w.i) && index.id != schema.primary.id;
      forall pk | pk in rows && index.keyOf(rows[pk]) == key
        ensures k in store && store[k] == Ref(schema.PrimaryKey(rows[pk])) &&
          store[schema.PrimaryKey(rows[pk])] == Row(rows[pk])
      {
        assert schema.Entry(w.i, rows[pk]) == k;
      }
    }
  }

  datatype Position = At(key: Key) | End

  /** Iterators compare by their keys, the end last. */
  function Compare(a: Position, b: Position): int {
    if a.End? && b.End? then 0 else if a.End? then 1 else if b.End? then -1
    else if a.key == b.key then 0 else if Less(a.key, b.key) then -1 else 1
  }

  ghost predicate FirstFrom(keys: set<Key>, key: Key, pos: Position) {
    match pos
    case End => forall k :: k in keys ==> Less(k, key)
    case At(p) => p in keys && AtMost(key, p) && forall k :: k in keys && AtMost(key, k) ==> AtMost(p, k)
  }

  ghost predicate FirstAbove(keys: set<Key>, key: Key, pos: Position) {
    match pos
    case End => forall k :: k in keys ==> AtMost(k, key)
    case At(p) => p in keys && Less(key, p) && forall k :: k in keys && Less(key, k) ==> AtMost(p, k)
  }

  /** What the host does: look for the least key from, or above, a given one. */
  method HostSeek(keys: set<Key>, key: Key, above: bool) returns (pos: Position)
    ensures if above then FirstAbove(keys, key, pos) else FirstFrom(keys, key, pos)
  {
    pos := End;
    var rest := keys;
    while rest != {}
      invariant rest <= keys
      invariant if above then FirstAbove(keys - rest, key, pos) else FirstFrom(keys - rest, key, pos)
      decreases |rest|
    {
      var k :| k in rest;
      SeekOne(keys - rest, key, pos, k);
      if (if above then Less(key, k) else AtMost(key, k)) && (pos.End? || Less(k, pos.key)) {
        pos := At(k);
      }
      assert keys - (rest - {k}) == (keys - rest) + {k};
      rest := rest - {k};
    }
    assert keys - rest == keys;
  }

  lemma SeekOne(seen: set<Key>, key: Key, pos: Position, k: Key)
    ensures FirstFrom(seen, key, pos) ==>
      FirstFrom(seen + {k}, key, if AtMost(key, k) && (pos.End? || Less(k, pos.key)) then At(k) else pos)
    ensures FirstAbove(seen, key, pos) ==>
      FirstAbove(seen + {k}, key, if Less(key, k) && (pos.End? || Less(k, pos.key)) then At(k) else pos)
  {
    LessTotal(key, k);
    if pos.At? { LessTotal(k, pos.key); }
    forall j | j in seen && pos.At? && Less(k, pos.key) && AtMost(pos.key, j)
      ensures AtMost(k, j)
    {
      if j != pos.key { LessTrans(k, pos.key, j); }
    }
    forall j | j in seen
      ensures !Less(j, key) || !AtMost(key, j)
    {
      LessTotal(j, key);
    }
  }

  lemma NotEqualAbove(keys: set<Key>, key: Key, pos: Position)
    requires FirstFrom(keys, key, pos) && !(pos.At? && pos.key == key)
    ensures FirstAbove(keys, key, pos)
  {
  }

  // ----- ranges

  predicate InRange(b: Key, k: Key, e: Key) { AtMost(b, k) && Less(k, e) }

  ghost predicate Ascending<T(!new)>(index: Index<T>, rows: seq<T>) {
    forall i, j :: 0 <= i < j < |rows| ==> Less(index.keyOf(rows[i]), index.keyOf(rows[j]))
  }

  ghost function Ahead(keys: set<Key>, pos: Position): set<Key> {
    set k | k in keys && pos.At? && AtMost(pos.key, k)
  }

  ghost predicate Before(k: Key, pos: Position) { pos.At? ==> Less(k, pos.key) }

  /** The keys passed on the way from b to pos, in order, all below e. */
  ghost predicate Passed(keys: set<Key>, b: Key, e: Key, pos: Position, done: seq<Key>) {
    && (forall i, j :: 0 <= i < j < |done| ==> Less(done[i], done[j]))
    && (forall i :: 0 <= i < |done| ==> done[i] in keys && InRange(b, done[i], e) && Before(done[i], pos))
    && (forall k :: k in keys && AtMost(b, k) && Before(k, pos) ==> k in done)
    && (pos.At? ==> pos.key in keys && AtMost(b, pos.key))
  }

  lemma PassNone(keys: set<Key>, b: Key, e: Key, pos: Position)
    requires FirstFrom(keys, b, pos)
    ensures Passed(keys, b, e, pos, [])
  {
    forall k | k in keys && AtMost(b, k) && Before(k, pos)
      ensures false
    {
      LessTotal(b, k);
      if pos.At? { LessTotal(k, pos.key); }
    }
  }

  lemma Pass(keys: set<Key>, b: Key, e: Key, pos: Position, end: Position, done: seq<Key>, next: Position)
    requires Passed(keys, b, e, pos, done) && FirstFrom(keys, e, end) && Compare(pos, end) < 0
    requires pos.At? && FirstAbove(keys, pos.key, next)
    ensures Passed(keys, b, e, next, done + [pos.key]) && |Ahead(keys, next)| < |Ahead(keys, pos)|
  {
    var more := done + [pos.key];
    LessTotal(e, pos.key);
    if end.At? { LessTotal(pos.key, end.key); }
    forall i | 0 <= i < |more|
      ensures more[i] in keys && InRange(b, more[i], e) && Before(more[i], next)
    {
      if i < |done| && next.At? { LessTrans(done[i], pos.key, next.key); }
    }
    forall k | k in keys && AtMost(b, k) && Before(k, next)
      ensures k in more
    {
      LessTotal(pos.key, k);
      if Less(pos.key, k) && next.At? { LessTotal(k, next.key); }
    }
    if next.At? && AtMost(b, pos.key) && b != pos.key { LessTrans(b, pos.key, next.key); }
    AheadShrinks(keys, pos, next);
  }

  lemma AheadShrinks(keys: set<Key>, pos: Position, next: Position)
    requires pos.At? && pos.key in keys && FirstAbove(keys, pos.key, next)
    ensures |Ahead(keys, next)| < |Ahead(keys, pos)|
  {
    forall k | k in Ahead(keys, next)
      ensures k in Ahead(keys, pos) - {pos.key}
    {
      if k != next.key { LessTrans(pos.key, next.key, k); }
      LessTotal(pos.key, k);
    }
    Smaller(Ahead(keys, next), Ahead(keys, pos), pos.key);
  }

  /** All is passed once the end of the range is reached. */
  lemma AllPassed(keys: set<Key>, b: Key, e: Key, pos: Position, end: Position, done: seq<Key>, k: Key)
    requires Passed(keys, b, e, pos, done) && FirstFrom(keys, e, end) && Compare(pos, end) >= 0
    requires k in keys && InRange(b, k, e)
    ensures k in done
  {
    if pos.At? {
      if e != end.key { LessTrans(k, e, end.key); }
      if end.key != pos.key {
        LessTotal(end.key, pos.key);
        LessTrans(k, end.key, pos.key);
      }
    }
  }

  lemma RangeDone<T(!new)>(schema: Schema<T>, store: Store<T>, rows: map<Key, T>, w: Which, b: Key, e: Key,
                           pos: Position, end: Position, done: seq<Key>, result: seq<T>)
    requires Inv(schema, store, rows) && schema.Has(w)
    requires Passed(KeysOf(schema, store, w), b, e, pos, done) && FirstFrom(KeysOf(schema, store, w), e, end) &&
      Compare(pos, end) >= 0
    requires |result| == |done| && forall i :: 0 <= i < |result| ==>
      InRows(rows, result[i]) && schema.IndexAt(w).keyOf(result[i]) == done[i]
    ensures Ascending(schema.IndexAt(w), result)
    ensures forall row :: row in result <==> InRows(rows, row) && InRange(b, schema.IndexAt(w).keyOf(row), e)
  {
    forall row | InRows(rows, row) && InRange(b, schema.IndexAt(w).keyOf(row), e)
      ensures row in result
    {
      var k := schema.IndexAt(w).keyOf(row);
      Lookup(schema, store, rows, w, k);
      AllPassed(KeysOf(schema, store, w), b, e, pos, end, done, k);
      var i :| 0 <= i < |done| && done[i] == k;
      assert InRows(rows, result[i]) && schema.IndexAt(w).keyOf(result[i]) == k;
    }
  }

  // ----- an erase that breaks the table

  function PairSchema(): Schema<(Key, Key)> {
    Schema(1, Index(1, (r: (Key, Key)) => r.0), [Index(2, (r: (Key, Key)) => r.1)])
  }

  /** The row ([1], [2]) erased as ([1], [3]): its secondary entry stays. */
  lemma EraseLeavesEntry()
    ensures exists store, rows, row: (Key, Key) ::
      && Inv(PairSchema(), store, rows) && row.0 in rows
      && !Inv(PairSchema(), store - Entries(PairSchema(), row, 1) - {PairSchema().PrimaryKey(row)}, rows - {row.0})
  {
    var schema := PairSchema();
    var stored: (Key, Key), row: (Key, Key) := ([1], [2]), ([1], [3]);
    var rows := map[stored.0 := stored];
    var store: Store<(Key, Key)> := map[FullKey(1, 1, [1]) := Row(stored),
      FullKey(1, 2, [2]) := Ref(FullKey(1, 1, [1]))];
    assert schema.PrimaryKey(stored) == FullKey(1, 1, [1]) && schema.Entry(0, stored) == FullKey(1, 2, [2]);
    assert HasKey(rows, schema.indices[0], [2]) by { assert schema.indices[0].keyOf(rows[stored.0]) == [2]; }
    assert IndexOk(schema, store, rows, 0);
    assert Inv(schema, store, rows);
    EraseWrong(schema, store, rows, row, 0);
    assert |schema.indices| == 1;
  }
}
