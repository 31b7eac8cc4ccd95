/** An IndexedDB object store: records kept in ascending key order, a key path, an optional key
    generator, and secondary indexes. `Add` and `Put` follow the "store a record into an object
    store" operation of W3C Indexed Database API 2.0 (section 5.1) with the no-overwrite flag set
    and clear; a request that fails aborts its transaction, so on failure the store is unchanged. */
module ObjectStore {
  import opened Wrappers
  import opened Values
  import opened Keys

  type Entry = (Key, Record)

  predicate Ascending(t: seq<Entry>) {
    forall i, j | 0 <= i < j < |t| :: Less(t[i].0, t[j].0)
  }

  /** The records of a store, strictly ascending by key (so keys are unique). */
  type Table = t: seq<Entry> | Ascending(t) witness []

  /** The abstract content of a table: key to record. */
  function AsMap(t: seq<Entry>): map<Key, Record> {
    if |t| == 0 then map[] else AsMap(t[1..])[t[0].0 := t[0].1]
  }

  /** The map's keys are exactly the keys of the table's entries. */
  lemma {:induction false} AsMapKeys(t: seq<Entry>)
    ensures forall i | 0 <= i < |t| :: t[i].0 in AsMap(t)
    ensures forall k | k in AsMap(t) :: exists i | 0 <= i < |t| :: t[i].0 == k
  {
    if |t| > 0 {
      AsMapKeys(t[1..]);
      forall i | 1 <= i < |t| ensures t[i].0 in AsMap(t) {
        assert t[i] == t[1..][i - 1];
      }
      forall k | k in AsMap(t) ensures exists i | 0 <= i < |t| :: t[i].0 == k {
        if k != t[0].0 {
          var j :| 0 <= j < |t[1..]| && t[1..][j].0 == k;
          assert t[j + 1].0 == k;
        }
      }
    }
  }

  /** In an ascending table the record at each position is the one the map holds for its key. */
  lemma {:induction false} AsMapAt(t: Table, i: int)
    requires 0 <= i < |t|
    ensures t[i].0 in AsMap(t) && AsMap(t)[t[i].0] == t[i].1
  {
    if i > 0 {
      AsMapAt(t[1..], i - 1);
      assert t[1..][i - 1] == t[i];
      assert Less(t[0].0, t[i].0);
      LessIrreflexive(t[0].0);
    }
  }

  /** Key lookup (`IDBObjectStore.get`). */
  function Lookup(t: Table, k: Key): (r: Option<Record>)
    ensures r == if k in AsMap(t) then Some(AsMap(t)[k]) else None
  {
    if |t| == 0 then None
    else if t[0].0 == k then Some(t[0].1)
    else Lookup(t[1..], k)
  }

  /** Inserts `(k, v)` at its place in key order, replacing the record already at `k`. */
  function Insert(t: Table, k: Key, v: Record): (r: Table)
    ensures AsMap(r) == AsMap(t)[k := v]
    ensures |r| == if k in AsMap(t) then |t| else |t| + 1
  {
    InsertAscending(t, k, v);
    InsertAsMap(t, k, v);
    InsertLength(t, k, v);
    Place(t, k, v)
  }

  /** The insertion itself, on any sequence of entries. */
  function Place(t: seq<Entry>, k: Key, v: Record): (r: seq<Entry>)
    ensures forall i | 0 <= i < |r| :: r[i] in t || r[i] == (k, v)
  {
    if |t| == 0 then [(k, v)]
    else if t[0].0 == k then [(k, v)] + t[1..]
    else if Less(k, t[0].0) then [(k, v)] + t
    else [t[0]] + Place(t[1..], k, v)
  }

  lemma {:induction false} InsertAscending(t: Table, k: Key, v: Record)
    ensures Ascending(Place(t, k, v))
  {
    if |t| == 0 {
    } else if t[0].0 == k {
      ConsAscending((k, v), t[1..]);
    } else if Less(k, t[0].0) {
      forall i | 0 <= i < |t| ensures Less(k, t[i].0) {
        if i > 0 { LessTransitive(k, t[0].0, t[i].0); }
      }
      ConsAscending((k, v), t);
    } else {
      LessTotal(k, t[0].0);
      var rest: Table := t[1..];
      InsertAscending(rest, k, v);
      var tail := Place(rest, k, v);
      forall i | 0 <= i < |tail| ensures Less(t[0].0, tail[i].0) {
        if tail[i] != (k, v) {
          var j :| 0 <= j < |rest| && rest[j] == tail[i];
          assert rest[j] == t[j + 1];
        }
      }
      ConsAscending(t[0], tail);
    }
  }

  /** An entry whose key is below every key of an ascending sequence can go in front of it. */
  lemma ConsAscending(e: Entry, t: seq<Entry>)
    requires Ascending(t) && forall i | 0 <= i < |t| :: Less(e.0, t[i].0)
    ensures Ascending([e] + t)
  {
    var r := [e] + t;
    forall i, j | 0 <= i < j < |r| ensures Less(r[i].0, r[j].0) {
      assert r[j] == t[j - 1];
      if i > 0 { assert r[i] == t[i - 1]; }
    }
  }

  lemma {:induction false} InsertAsMap(t: Table, k: Key, v: Record)
    ensures AsMap(Place(t, k, v)) == AsMap(t)[k := v]
  {
    if |t| == 0 {
    } else if t[0].0 == k {
      var rest: Table := t[1..];
      assert Place(t, k, v)[1..] == rest;
      UpdateTwice(AsMap(rest), k, t[0].1, v);
    } else if Less(k, t[0].0) {
      assert Place(t, k, v)[1..] == t;
    } else {
      var rest: Table := t[1..];
      InsertAsMap(rest, k, v);
      assert Place(t, k, v)[1..] == Place(rest, k, v);
      UpdatesCommute(AsMap(rest), k, v, t[0].0, t[0].1);
    }
  }

  /** A second write to the same key overrides the first. */
  lemma UpdateTwice<K, V>(m: map<K, V>, k: K, v: V, w: V)
    ensures m[k := v][k := w] == m[k := w]
  {
  }

  /** Writes to two different keys commute. */
  lemma UpdatesCommute<K, V>(m: map<K, V>, k: K, v: V, a: K, w: V)
    requires a != k
    ensures m[k := v][a := w] == m[a := w][k := v]
  {
  }

  lemma {:induction false} InsertLength(t: Table, k: Key, v: Record)
    ensures |Place(t, k, v)| == if k in AsMap(t) then |t| else |t| + 1
  {
    if |t| == 0 {
    } else if t[0].0 == k {
    } else if Less(k, t[0].0) {
      BelowAllAbsent(t, k);
    } else {
      var rest: Table := t[1..];
      InsertLength(rest, k, v);
      assert k in AsMap(t) <==> k in AsMap(rest);
    }
  }

  /** The first key of an ascending table does not occur again in its tail. */
  lemma HeadAbsentFromTail(t: Table)
    requires |t| > 0
    ensures t[0].0 !in AsMap(t[1..])
  {
    var rest := t[1..];
    assert forall i | 0 <= i < |rest| :: Less(t[0].0, rest[i].0);
    LessIrreflexiveAll(rest, t[0].0);
  }

  /** A key below the first key of an ascending table is not in it. */
  lemma BelowAllAbsent(t: Table, k: Key)
    requires |t| > 0 && Less(k, t[0].0)
    ensures k !in AsMap(t)
  {
    forall i | 0 <= i < |t| ensures Less(k, t[i].0) {
      if i > 0 { LessTransitive(k, t[0].0, t[i].0); }
    }
    LessIrreflexiveAll(t, k);
  }

  /** No key of the table equals a key that sorts below all of them. */
  lemma LessIrreflexiveAll(t: seq<Entry>, k: Key)
    requires forall i | 0 <= i < |t| :: Less(k, t[i].0)
    ensures k !in AsMap(t)
  {
    if k in AsMap(t) {
      AsMapKeys(t);
      var i :| 0 <= i < |t| && t[i].0 == k;
      LessIrreflexive(k);
    }
  }

  /** Deletes the record at `k`, if any. */
  function Remove(t: Table, k: Key): (r: Table)
    ensures AsMap(r) == AsMap(t) - {k}
    ensures |r| == if k in AsMap(t) then |t| - 1 else |t|
  {
    RemoveAscending(t, k);
    RemoveAsMap(t, k);
    RemoveLength(t, k);
    Drop(t, k)
  }

  function Drop(t: seq<Entry>, k: Key): (r: seq<Entry>)
    ensures forall i | 0 <= i < |r| :: r[i] in t
  {
    if |t| == 0 then []
    else if t[0].0 == k then t[1..]
    else [t[0]] + Drop(t[1..], k)
  }

  lemma {:induction false} RemoveAscending(t: Table, k: Key)
    ensures Ascending(Drop(t, k))
  {
    if |t| > 0 && t[0].0 != k {
      var rest: Table := t[1..];
      RemoveAscending(rest, k);
      var tail := Drop(rest, k);
      forall i | 0 <= i < |tail| ensures Less(t[0].0, tail[i].0) {
        var j :| 0 <= j < |rest| && rest[j] == tail[i];
        assert rest[j] == t[j + 1];
      }
      assert Drop(t, k) == [t[0]] + tail;
    }
  }

  lemma {:induction false} RemoveAsMap(t: Table, k: Key)
    ensures AsMap(Drop(t, k)) == AsMap(t) - {k}
  {
    if |t| > 0 {
      var rest: Table := t[1..];
      HeadAbsentFromTail(t);
      if t[0].0 == k {
        UpdateThenRemove(AsMap(rest), k, t[0].1);
      } else {
        RemoveAsMap(rest, k);
        assert Drop(t, k)[1..] == Drop(rest, k);
        RemoveThenUpdate(AsMap(rest), k, t[0].0, t[0].1);
      }
    }
  }

  lemma {:induction false} RemoveLength(t: Table, k: Key)
    ensures |Drop(t, k)| == if k in AsMap(t) then |t| - 1 else |t|
  {
    if |t| > 0 {
      var rest: Table := t[1..];
      HeadAbsentFromTail(t);
      if t[0].0 != k {
        RemoveLength(rest, k);
        assert k in AsMap(t) <==> k in AsMap(rest);
      }
    }
  }

  /** Adding a key and removing it again gives back a map that did not hold it. */
  lemma UpdateThenRemove<K, V>(m: map<K, V>, k: K, v: V)
    requires k !in m
    ensures m[k := v] - {k} == m
  {
  }

  /** Removing one key and setting another commute. */
  lemma RemoveThenUpdate<K, V>(m: map<K, V>, k: K, a: K, v: V)
    requires a != k
    ensures (m - {k})[a := v] == m[a := v] - {k}
  {
  }

  /** Records of the table in key order (`IDBObjectStore.getAll`). */
  function Records(t: seq<Entry>): (r: seq<Record>)
    ensures |r| == |t|
    ensures forall i | 0 <= i < |t| :: r[i] == t[i].1
  {
    seq(|t|, i requires 0 <= i < |t| => t[i].1)
  }

  /** Number of records satisfying `p`. */
  function Count(t: seq<Entry>, p: Record -> bool): nat
    ensures Count(t, p) <= |t|
  {
    if |t| == 0 then 0 else (if p(t[0].1) then 1 else 0) + Count(t[1..], p)
  }

  /** Inserting a record under a fresh key adds one to the count of every predicate it meets. */
  lemma {:induction false} CountInsertFresh(t: Table, k: Key, v: Record, p: Record -> bool)
    requires k !in AsMap(t)
    ensures Count(Insert(t, k, v), p) == Count(t, p) + (if p(v) then 1 else 0)
  {
    if |t| > 0 && t[0].0 != k && !Less(k, t[0].0) {
      var rest: Table := t[1..];
      CountInsertFresh(rest, k, v, p);
      assert Place(t, k, v)[1..] == Place(rest, k, v);
    } else if |t| > 0 {
      assert Place(t, k, v)[1..] == t;
    }
  }

  /** Removing the record at `k` subtracts one from the count of every predicate it met. */
  lemma {:induction false} CountRemove(t: Table, k: Key, p: Record -> bool)
    ensures Count(Remove(t, k), p) ==
            Count(t, p) - (if k in AsMap(t) && p(AsMap(t)[k]) then 1 else 0)
  {
    if |t| > 0 {
      var rest: Table := t[1..];
      AsMapAt(t, 0);
      HeadAbsentFromTail(t);
      if t[0].0 != k {
        CountRemove(rest, k, p);
        assert Drop(t, k)[1..] == Drop(rest, k);
        assert k in AsMap(t) <==> k in AsMap(rest);
        if k in AsMap(rest) {
          assert AsMap(t)[k] == AsMap(rest)[k];
        }
      }
    }
  }

  /** Position of the first record, in key order, satisfying `p` (`Array.prototype.find` over
      `getAll`). */
  function FirstIndex(t: seq<Entry>, p: Record -> bool): (r: Option<nat>)
    ensures r.None? <==> Count(t, p) == 0
    ensures r.Some? ==> r.value < |t| && p(t[r.value].1)
    ensures r.Some? ==> forall j | 0 <= j < r.value :: !p(t[j].1)
  {
    if |t| == 0 then None
    else if p(t[0].1) then Some(0)
    else
      match FirstIndex(t[1..], p)
      case None => None
      case Some(i) =>
        assert forall j | 1 <= j < i + 1 :: t[j] == t[1..][j - 1];
        Some(i + 1)
  }

  datatype IndexSpec = IndexSpec(name: string, keyPath: seq<string>, unique: bool)

  datatype Store = Store(
    keyPath: string,
    autoIncrement: bool,
    indexes: seq<IndexSpec>,
    records: Table,
    current: int)   // the key generator's current number

  datatype StoreError = ConstraintError | DataError | NotFoundError

  /** 2^53: the largest key a key generator produces. */
  const MaxGeneratedKey: int := 0x20_0000_0000_0000

  function EmptyStore(keyPath: string, autoIncrement: bool, indexes: seq<IndexSpec>): Store {
    Store(keyPath, autoIncrement, indexes, [], 1)
  }

  /** Every record carries its own key at the store's key path. */
  predicate WellKeyed(st: Store) {
    forall i | 0 <= i < |st.records| ::
      st.keyPath in st.records[i].1 && KeyOf(st.records[i].1[st.keyPath]) == Some(st.records[i].0)
  }

  /** In a store with a key generator, the next generated key is above every numeric key
      present (or the generator is spent). */
  predicate GeneratorAhead(st: Store) {
    !st.autoIncrement || st.current > MaxGeneratedKey ||
    forall i | 0 <= i < |st.records| :: st.records[i].0.Num? ==> st.records[i].0.n < st.current
  }

  predicate Valid(st: Store) {
    WellKeyed(st) && GeneratorAhead(st)
  }

  /** The key a record would be stored under: its own key path value, or the next generated key
      when the field is missing and the store has a generator that is not spent. */
  function IntendedKey(st: Store, value: Record): Option<Key> {
    if st.keyPath in value then KeyOf(value[st.keyPath])
    else if st.autoIncrement && st.current <= MaxGeneratedKey then Some(Num(st.current))
    else None
  }

  /** "Possibly update the key generator": an explicit numeric key at or above the current
      number moves the generator past it (capped at 2^53). */
  function Bump(current: int, k: Key): (r: int)
    ensures r >= current
    ensures k.Num? && k.n <= MaxGeneratedKey ==> k.n < r
  {
    if k.Num? then
      var value := if k.n < MaxGeneratedKey then k.n else MaxGeneratedKey;
      if value >= current then value + 1 else current
    else current
  }

  datatype Placed = Placed(store: Store, key: Key, record: Record)

  /** `add` (noOverwrite) and `put` (overwrite). */
  function StoreRecord(st: Store, value: Record, noOverwrite: bool): (r: Result<Placed, StoreError>)
    ensures r.Success? <==> IntendedKey(st, value).Some?
                            && !(noOverwrite && IntendedKey(st, value).value in AsMap(st.records))
    ensures (IntendedKey(st, value).None? && (st.keyPath in value || !st.autoIncrement))
              ==> r == Failure(DataError)
    ensures (IntendedKey(st, value).Some? && noOverwrite && IntendedKey(st, value).value in AsMap(st.records))
              ==> r == Failure(ConstraintError)
    ensures r.Success? ==>
              && r.value.key == IntendedKey(st, value).value
              && AsMap(r.value.store.records) == AsMap(st.records)[r.value.key := r.value.record]
              && r.value.store.keyPath == st.keyPath
              && r.value.store.autoIncrement == st.autoIncrement
              && r.value.store.indexes == st.indexes
              && st.keyPath in r.value.record
              && KeyOf(r.value.record[st.keyPath]) == Some(r.value.key)
              && (forall f | f in value :: f in r.value.record && r.value.record[f] == value[f])
              && (forall f | f in r.value.record && f != st.keyPath :: f in value)
  {
    if st.keyPath in value then
      match KeyOf(value[st.keyPath])
      case None => Failure(DataError)
      case Some(k) =>
        if noOverwrite && Lookup(st.records, k).Some? then Failure(ConstraintError)
        else
          var current := if st.autoIncrement then Bump(st.current, k) else st.current;
          Success(Placed(st.(records := Insert(st.records, k, value), current := current), k, value))
    else if !st.autoIncrement then Failure(DataError)
    else if st.current > MaxGeneratedKey then Failure(ConstraintError)
    else
      var k := Num(st.current);
      var stored := value[st.keyPath := ValueOf(k)];
      if noOverwrite && Lookup(st.records, k).Some? then Failure(ConstraintError)
      else
        Success(Placed(st.(records := Insert(st.records, k, stored), current := st.current + 1), k, stored))
  }

  /** `IDBObjectStore.add`: succeeds exactly when the record has a key that no record holds,
      and then adds exactly that key; an existing key is a ConstraintError. */
  function Add(st: Store, value: Record): (r: Result<Placed, StoreError>)
    ensures r.Success? <==> IntendedKey(st, value).Some? && IntendedKey(st, value).value !in AsMap(st.records)
    ensures IntendedKey(st, value).Some? && IntendedKey(st, value).value in AsMap(st.records) ==> r == Failure(ConstraintError)
    ensures r.Success? ==>
              && r.value.key == IntendedKey(st, value).value
              && AsMap(r.value.store.records).Keys == AsMap(st.records).Keys + {r.value.key}
              && forall k | k in AsMap(st.records) :: AsMap(r.value.store.records)[k] == AsMap(st.records)[k]
  {
    StoreRecord(st, value, true)
  }

  /** `IDBObjectStore.put`: succeeds exactly when the record has a key, and then stores the
      record under it, replacing any record already there. */
  function Put(st: Store, value: Record): (r: Result<Placed, StoreError>)
    ensures r.Success? <==> IntendedKey(st, value).Some?
    ensures r.Success? ==>
              && r.value.key == IntendedKey(st, value).value
              && AsMap(r.value.store.records) == AsMap(st.records)[r.value.key := r.value.record]
  {
    StoreRecord(st, value, false)
  }

  /** A successful store keeps the store valid. */
  lemma StoreRecordPreservesValid(st: Store, value: Record, noOverwrite: bool)
    requires Valid(st)
    requires StoreRecord(st, value, noOverwrite).Success?
    ensures Valid(StoreRecord(st, value, noOverwrite).value.store)
  {
    var p := StoreRecord(st, value, noOverwrite).value;
    StoreRecordKeepsWellKeyed(st, p);
    StoreRecordKeepsGeneratorAhead(st, p);
  }

  lemma StoreRecordKeepsWellKeyed(st: Store, p: Placed)
    requires WellKeyed(st)
    requires AsMap(p.store.records) == AsMap(st.records)[p.key := p.record]
    requires p.store.keyPath == st.keyPath
    requires st.keyPath in p.record && KeyOf(p.record[st.keyPath]) == Some(p.key)
    ensures WellKeyed(p.store)
  {
    var t := p.store.records;
    AsMapKeys(st.records);
    forall i | 0 <= i < |t|
      ensures st.keyPath in t[i].1 && KeyOf(t[i].1[st.keyPath]) == Some(t[i].0)
    {
      AsMapAt(t, i);
      if t[i].0 != p.key {
        var j :| 0 <= j < |st.records| && st.records[j].0 == t[i].0;
        AsMapAt(st.records, j);
      }
    }
  }

  lemma StoreRecordKeepsGeneratorAhead(st: Store, p: Placed)
    requires GeneratorAhead(st)
    requires AsMap(p.store.records) == AsMap(st.records)[p.key := p.record]
    requires p.store.autoIncrement == st.autoIncrement && p.store.current >= st.current
    requires st.autoIncrement && p.key.Num? && p.store.current <= MaxGeneratedKey ==> p.key.n < p.store.current
    ensures GeneratorAhead(p.store)
  {
    var t := p.store.records;
    AsMapKeys(st.records);
    AsMapKeys(t);
    if st.autoIncrement && p.store.current <= MaxGeneratedKey {
      forall i | 0 <= i < |t| && t[i].0.Num?
        ensures t[i].0.n < p.store.current
      {
        if t[i].0 != p.key {
          assert t[i].0 in AsMap(st.records);
          var j :| 0 <= j < |st.records| && st.records[j].0 == t[i].0;
        }
      }
    }
  }

  /** A record stored under a freshly generated key never collides: `add` of a record without a
      key succeeds in a valid auto-increment store whose generator is not spent. */
  lemma GeneratedKeyIsFresh(st: Store, value: Record)
    requires Valid(st)
    requires st.autoIncrement && st.keyPath !in value && st.current <= MaxGeneratedKey
    ensures Num(st.current) !in AsMap(st.records)
    ensures Add(st, value).Success?
  {
    AsMapKeys(st.records);
  }

  /** `delete`: removes the record at `k`; an absent key is not an error. */
  function Delete(st: Store, k: Key): (r: Store)
    ensures AsMap(r.records) == AsMap(st.records) - {k}
    ensures r.keyPath == st.keyPath && r.autoIncrement == st.autoIncrement
    ensures r.indexes == st.indexes && r.current == st.current
    ensures k !in AsMap(st.records) ==> r.records == st.records
  {
    if k in AsMap(st.records) then st.(records := Remove(st.records, k))
    else
      assert Remove(st.records, k) == st.records by { RemoveAbsent(st.records, k); }
      st
  }

  lemma {:induction false} RemoveAbsent(t: Table, k: Key)
    requires k !in AsMap(t)
    ensures Remove(t, k) == t
  {
    if |t| > 0 {
      var rest: Table := t[1..];
      RemoveAbsent(rest, k);
    }
  }

  lemma DeletePreservesValid(st: Store, k: Key)
    requires Valid(st)
    ensures Valid(Delete(st, k))
  {
    if k in AsMap(st.records) {
      FewerEntriesKeepValid(st, Remove(st.records, k));
    }
  }

  /** Keeping only some of a valid store's entries leaves it valid. */
  lemma FewerEntriesKeepValid(st: Store, t: Table)
    requires Valid(st)
    requires forall i | 0 <= i < |t| :: t[i] in st.records
    ensures Valid(st.(records := t))
  {
    forall i | 0 <= i < |t|
      ensures st.keyPath in t[i].1 && KeyOf(t[i].1[st.keyPath]) == Some(t[i].0)
      ensures st.autoIncrement && st.current <= MaxGeneratedKey && t[i].0.Num? ==> t[i].0.n < st.current
    {
      var j :| 0 <= j < |st.records| && st.records[j] == t[i];
    }
  }

  /** A successful `add` adds one to the count of every predicate the stored record meets. */
  lemma CountAfterAdd(st: Store, value: Record, p: Record -> bool)
    requires Add(st, value).Success?
    ensures Count(Add(st, value).value.store.records, p) ==
            Count(st.records, p) + (if p(Add(st, value).value.record) then 1 else 0)
  {
    var placed := Add(st, value).value;
    CountInsertFresh(st.records, placed.key, placed.record, p);
  }

  /** `delete` subtracts one from the count of every predicate the removed record met. */
  lemma CountAfterDelete(st: Store, k: Key, p: Record -> bool)
    ensures Count(Delete(st, k).records, p) ==
            Count(st.records, p) - (if k in AsMap(st.records) && p(AsMap(st.records)[k]) then 1 else 0)
  {
    CountRemove(st.records, k, p);
    if k !in AsMap(st.records) {
      RemoveAbsent(st.records, k);
    }
  }

  /** The value an index's key path yields for a record. Compound key paths yield array keys,
      which no key of this model equals, so they match nothing. */
  function IndexKey(r: Record, keyPath: seq<string>): Option<Key> {
    if |keyPath| == 1 && keyPath[0] in r then KeyOf(r[keyPath[0]]) else None
  }

  function FindIndex(indexes: seq<IndexSpec>, name: string): (r: Option<IndexSpec>)
    ensures r.Some? <==> exists i | 0 <= i < |indexes| :: indexes[i].name == name
    ensures r.Some? ==> r.value in indexes && r.value.name == name
  {
    if |indexes| == 0 then None
    else if indexes[0].name == name then Some(indexes[0])
    else FindIndex(indexes[1..], name)
  }

  /** The key range an index query selects: a single key, or every key (the unbounded range
      `null` converts to). */
  datatype Query = Only(key: Key) | Unbounded

  /** The record has a valid index key and it lies in the query's range. */
  predicate Selected(x: Record, keyPath: seq<string>, q: Query) {
    IndexKey(x, keyPath).Some? && (q.Unbounded? || IndexKey(x, keyPath).value == q.key)
  }

  /** Records whose index key lies in the query's range, in primary-key order (see
      `MatchingAppend`); for a single-key query this is the index order (`OnlyScanIsMatching`). */
  function Matching(t: seq<Entry>, keyPath: seq<string>, q: Query): (r: seq<Record>)
    ensures forall x | x in r :: Selected(x, keyPath, q)
    ensures forall i | 0 <= i < |t| && Selected(t[i].1, keyPath, q) :: t[i].1 in r
    ensures forall x | x in r :: exists i | 0 <= i < |t| :: t[i].1 == x
    ensures |r| == Count(t, x => Selected(x, keyPath, q))
  {
    if |t| == 0 then []
    else
      var rest := Matching(t[1..], keyPath, q);
      assert forall i | 1 <= i < |t| :: t[i] == t[1..][i - 1];
      if Selected(t[0].1, keyPath, q) then [t[0].1] + rest else rest
  }

  /** Entries are selected one by one: the result for a concatenation is the concatenation of
      the results, so the records of lower keys come first. */
  lemma {:induction false} MatchingAppend(a: seq<Entry>, b: seq<Entry>, keyPath: seq<string>, q: Query)
    ensures Matching(a + b, keyPath, q) == Matching(a, keyPath, q) + Matching(b, keyPath, q)
    decreases |a|
  {
    if |a| > 0 {
      assert (a + b)[0] == a[0];
      assert (a + b)[1..] == a[1..] + b;
      MatchingAppend(a[1..], b, keyPath, q);
    } else {
      assert a + b == b;
    }
  }

  /** A single entry yields its record exactly when the record is selected. */
  lemma MatchingSingle(e: Entry, keyPath: seq<string>, q: Query)
    ensures Matching([e], keyPath, q) == if Selected(e.1, keyPath, q) then [e.1] else []
  {
    assert [e][1..] == [];
  }

  /** The selected entries, in primary-key order. */
  function SelectedEntries(t: seq<Entry>, keyPath: seq<string>, q: Query): (r: seq<Entry>)
    ensures |r| == Count(t, x => Selected(x, keyPath, q))
  {
    if |t| == 0 then []
    else if Selected(t[0].1, keyPath, q) then [t[0]] + SelectedEntries(t[1..], keyPath, q)
    else SelectedEntries(t[1..], keyPath, q)
  }

  /** The selected entries are exactly the entries of the table whose record is selected. */
  lemma {:induction false} SelectedEntriesMembers(t: seq<Entry>, keyPath: seq<string>, q: Query)
    ensures forall e :: e in SelectedEntries(t, keyPath, q) <==> e in t && Selected(e.1, keyPath, q)
  {
    if |t| > 0 {
      SelectedEntriesMembers(t[1..], keyPath, q);
      assert t == [t[0]] + t[1..];
    }
  }

  /** Selecting keeps the table's key order. */
  lemma {:induction false} SelectedEntriesAscending(t: seq<Entry>, keyPath: seq<string>, q: Query)
    requires Ascending(t)
    ensures Ascending(SelectedEntries(t, keyPath, q))
  {
    if |t| > 0 {
      var rest := SelectedEntries(t[1..], keyPath, q);
      assert Ascending(t[1..]) by {
        forall i, j | 0 <= i < j < |t[1..]| ensures Less(t[1..][i].0, t[1..][j].0) {
          assert t[1..][i] == t[i + 1] && t[1..][j] == t[j + 1];
        }
      }
      SelectedEntriesAscending(t[1..], keyPath, q);
      if Selected(t[0].1, keyPath, q) {
        SelectedEntriesMembers(t[1..], keyPath, q);
        forall i | 0 <= i < |rest| ensures Less(t[0].0, rest[i].0) {
          var j :| 0 <= j < |t[1..]| && t[1..][j] == rest[i];
          assert t[j + 1] == rest[i];
        }
        ConsAscending(t[0], rest);
      }
    }
  }

  /** `Matching` lists the records of the selected entries. */
  lemma {:induction false} MatchingIsSelectedRecords(t: seq<Entry>, keyPath: seq<string>, q: Query)
    ensures Matching(t, keyPath, q) == Records(SelectedEntries(t, keyPath, q))
  {
    if |t| > 0 {
      MatchingIsSelectedRecords(t[1..], keyPath, q);
      var rest := SelectedEntries(t[1..], keyPath, q);
      if Selected(t[0].1, keyPath, q) {
        assert Records([t[0]] + rest) == [t[0].1] + Records(rest);
      }
    }
  }

  /** The order of an index's records (section 2.6 of W3C Indexed Database API 2.0): by index
      key, and records with the same index key by primary key. An entry without an index key
      is not in the index and precedes nothing. */
  predicate IndexBefore(a: Entry, b: Entry, keyPath: seq<string>) {
    match (IndexKey(a.1, keyPath), IndexKey(b.1, keyPath))
    case (Some(ka), Some(kb)) => Less(ka, kb) || (ka == kb && Less(a.0, b.0))
    case _ => false
  }

  predicate IndexOrdered(s: seq<Entry>, keyPath: seq<string>) {
    forall i, j | 0 <= i < j < |s| :: IndexBefore(s[i], s[j], keyPath)
  }

  lemma IndexBeforeIrreflexive(a: Entry, keyPath: seq<string>)
    ensures !IndexBefore(a, a, keyPath)
  {
    if IndexKey(a.1, keyPath).Some? {
      LessIrreflexive(IndexKey(a.1, keyPath).value);
      LessIrreflexive(a.0);
    }
  }

  lemma IndexBeforeTransitive(a: Entry, b: Entry, c: Entry, keyPath: seq<string>)
    requires IndexBefore(a, b, keyPath) && IndexBefore(b, c, keyPath)
    ensures IndexBefore(a, c, keyPath)
  {
    var ka, kb, kc := IndexKey(a.1, keyPath).value, IndexKey(b.1, keyPath).value, IndexKey(c.1, keyPath).value;
    if Less(ka, kb) && Less(kb, kc) {
      LessTransitive(ka, kb, kc);
    } else if ka == kb && kb == kc {
      LessTransitive(a.0, b.0, c.0);
    }
  }

  /** Two entries of the index with different primary keys are ordered one way or the other. */
  lemma IndexBeforeTotal(a: Entry, b: Entry, keyPath: seq<string>)
    requires IndexKey(a.1, keyPath).Some? && IndexKey(b.1, keyPath).Some? && a.0 != b.0
    ensures IndexBefore(a, b, keyPath) || IndexBefore(b, a, keyPath)
  {
    var ka, kb := IndexKey(a.1, keyPath).value, IndexKey(b.1, keyPath).value;
    if ka != kb {
      LessTotal(ka, kb);
    } else {
      LessTotal(a.0, b.0);
    }
  }

  /** Puts an entry at its place in index order. */
  function InsertByIndex(e: Entry, s: seq<Entry>, keyPath: seq<string>): (r: seq<Entry>)
    ensures |r| == |s| + 1
  {
    if |s| == 0 then [e]
    else if IndexBefore(e, s[0], keyPath) then [e] + s
    else [s[0]] + InsertByIndex(e, s[1..], keyPath)
  }

  /** Insertion sort into index order. */
  function SortByIndex(s: seq<Entry>, keyPath: seq<string>): (r: seq<Entry>)
    ensures |r| == |s|
  {
    if |s| == 0 then [] else InsertByIndex(s[0], SortByIndex(s[1..], keyPath), keyPath)
  }

  /** Inserting an entry of the index whose primary key is new keeps the sequence in index
      order and adds exactly that entry. */
  lemma {:induction false} InsertByIndexOrdered(e: Entry, s: seq<Entry>, keyPath: seq<string>)
    requires IndexOrdered(s, keyPath) && IndexKey(e.1, keyPath).Some?
    requires forall i | 0 <= i < |s| :: IndexKey(s[i].1, keyPath).Some? && s[i].0 != e.0
    ensures IndexOrdered(InsertByIndex(e, s, keyPath), keyPath)
    ensures forall x :: x in InsertByIndex(e, s, keyPath) <==> x in s || x == e
  {
    var r := InsertByIndex(e, s, keyPath);
    if |s| == 0 {
    } else if IndexBefore(e, s[0], keyPath) {
      forall i, j | 0 <= i < j < |r| ensures IndexBefore(r[i], r[j], keyPath) {
        if i == 0 && j > 1 {
          IndexBeforeTransitive(e, s[0], s[j - 1], keyPath);
        }
      }
    } else {
      IndexBeforeTotal(e, s[0], keyPath);
      var tail := s[1..];
      assert IndexOrdered(tail, keyPath) by {
        forall i, j | 0 <= i < j < |tail| ensures IndexBefore(tail[i], tail[j], keyPath) {
          assert tail[i] == s[i + 1] && tail[j] == s[j + 1];
        }
      }
      InsertByIndexOrdered(e, tail, keyPath);
      var rest := InsertByIndex(e, tail, keyPath);
      assert s == [s[0]] + tail;
      forall i, j | 0 <= i < j < |r| ensures IndexBefore(r[i], r[j], keyPath) {
        if i == 0 {
          assert r[j] == rest[j - 1] && r[j] in rest;
          if r[j] != e {
            var k :| 0 <= k < |tail| && tail[k] == r[j];
            assert s[k + 1] == r[j];
          }
        } else {
          assert r[i] == rest[i - 1] && r[j] == rest[j - 1];
        }
      }
    }
  }

  /** Sorting entries with distinct primary keys that all have an index key puts them in index
      order and keeps exactly the same entries. */
  lemma {:induction false} SortByIndexOrdered(s: seq<Entry>, keyPath: seq<string>)
    requires Ascending(s)
    requires forall i | 0 <= i < |s| :: IndexKey(s[i].1, keyPath).Some?
    ensures IndexOrdered(SortByIndex(s, keyPath), keyPath)
    ensures forall x :: x in SortByIndex(s, keyPath) <==> x in s
  {
    if |s| > 0 {
      var tail := s[1..];
      assert Ascending(tail) by {
        forall i, j | 0 <= i < j < |tail| ensures Less(tail[i].0, tail[j].0) {
          assert tail[i] == s[i + 1] && tail[j] == s[j + 1];
        }
      }
      assert forall i | 0 <= i < |tail| :: tail[i] == s[i + 1];
      SortByIndexOrdered(tail, keyPath);
      var sorted := SortByIndex(tail, keyPath);
      forall i | 0 <= i < |sorted| ensures IndexKey(sorted[i].1, keyPath).Some? && sorted[i].0 != s[0].0 {
        assert sorted[i] in tail;
        var j :| 0 <= j < |tail| && tail[j] == sorted[i];
        assert Less(s[0].0, s[j + 1].0);
        LessIrreflexive(s[0].0);
      }
      InsertByIndexOrdered(s[0], sorted, keyPath);
      assert s == [s[0]] + tail;
    }
  }

  /** At most one sequence lists a given set of entries in index order. */
  lemma {:induction false} IndexOrderedUnique(a: seq<Entry>, b: seq<Entry>, keyPath: seq<string>)
    requires IndexOrdered(a, keyPath) && IndexOrdered(b, keyPath)
    requires forall x :: x in a <==> x in b
    ensures a == b
    decreases |a|
  {
    assert |a| > 0 ==> a[0] in b;
    assert |b| > 0 ==> b[0] in a;
    if |a| == 0 || |b| == 0 {
    } else {
      HeadsAgree(a, b, keyPath);
      var ta, tb := a[1..], b[1..];
      forall x ensures x in ta <==> x in tb {
        IndexBeforeIrreflexive(a[0], keyPath);
        if x in ta {
          var i :| 0 <= i < |ta| && ta[i] == x;
          assert a[i + 1] == x;
          assert x in b;
        }
        if x in tb {
          var j :| 0 <= j < |tb| && tb[j] == x;
          assert b[j + 1] == x;
          assert x in a;
        }
      }
      assert IndexOrdered(ta, keyPath) by {
        forall i, j | 0 <= i < j < |ta| ensures IndexBefore(ta[i], ta[j], keyPath) {
          assert ta[i] == a[i + 1] && ta[j] == a[j + 1];
        }
      }
      assert IndexOrdered(tb, keyPath) by {
        forall i, j | 0 <= i < j < |tb| ensures IndexBefore(tb[i], tb[j], keyPath) {
          assert tb[i] == b[i + 1] && tb[j] == b[j + 1];
        }
      }
      IndexOrderedUnique(ta, tb, keyPath);
      assert a == [a[0]] + ta && b == [b[0]] + tb;
    }
  }

  lemma HeadsAgree(a: seq<Entry>, b: seq<Entry>, keyPath: seq<string>)
    requires IndexOrdered(a, keyPath) && IndexOrdered(b, keyPath)
    requires forall x :: x in a <==> x in b
    requires |a| > 0 && |b| > 0
    ensures a[0] == b[0]
  {
    assert a[0] in b && b[0] in a;
    var j :| 0 <= j < |b| && b[j] == a[0];
    var i :| 0 <= i < |a| && a[i] == b[0];
    if i != 0 && j != 0 {
      IndexBeforeTransitive(a[0], a[i], b[j], keyPath);
      IndexBeforeIrreflexive(a[0], keyPath);
    }
  }

  /** The records an index query returns: the selected entries in index order (see
      `IndexScanIsIndexOrder`). */
  function IndexScan(t: seq<Entry>, keyPath: seq<string>, q: Query): (r: seq<Record>)
    ensures |r| == Count(t, x => Selected(x, keyPath, q))
  {
    Records(SortByIndex(SelectedEntries(t, keyPath, q), keyPath))
  }

  /** Any listing of the selected entries in index order gives the records the query returns. */
  lemma IndexScanIsIndexOrder(t: Table, keyPath: seq<string>, q: Query, e: seq<Entry>)
    requires IndexOrdered(e, keyPath)
    requires forall x :: x in e <==> x in t && Selected(x.1, keyPath, q)
    ensures IndexScan(t, keyPath, q) == Records(e)
  {
    var s := SelectedEntries(t, keyPath, q);
    SelectedEntriesMembers(t, keyPath, q);
    SelectedEntriesAscending(t, keyPath, q);
    assert forall i | 0 <= i < |s| :: s[i] in s;
    SortByIndexOrdered(s, keyPath);
    IndexOrderedUnique(SortByIndex(s, keyPath), e, keyPath);
  }

  /** The query returns exactly the selected records of the store. */
  lemma IndexScanMembers(t: Table, keyPath: seq<string>, q: Query)
    ensures forall x :: x in IndexScan(t, keyPath, q) <==> x in Records(t) && Selected(x, keyPath, q)
  {
    var s := SelectedEntries(t, keyPath, q);
    SelectedEntriesMembers(t, keyPath, q);
    SelectedEntriesAscending(t, keyPath, q);
    assert forall i | 0 <= i < |s| :: s[i] in s;
    SortByIndexOrdered(s, keyPath);
    var e := SortByIndex(s, keyPath);
    forall x ensures x in Records(e) <==> x in Records(t) && Selected(x, keyPath, q) {
      RecordsMembers(e, x);
      RecordsMembers(t, x);
    }
  }

  /** A record is listed exactly when some entry holds it. */
  lemma RecordsMembers(t: seq<Entry>, x: Record)
    ensures x in Records(t) <==> exists i | 0 <= i < |t| :: t[i].1 == x
  {
    if x in Records(t) {
      var i :| 0 <= i < |t| && Records(t)[i] == x;
    }
  }

  /** The query's records ascend by index key. */
  lemma IndexScanSorted(t: Table, keyPath: seq<string>, q: Query)
    ensures var r := IndexScan(t, keyPath, q);
            forall i, j | 0 <= i < j < |r| ::
              IndexKey(r[i], keyPath).Some? && IndexKey(r[j], keyPath).Some?
              && (Less(IndexKey(r[i], keyPath).value, IndexKey(r[j], keyPath).value)
                  || IndexKey(r[i], keyPath) == IndexKey(r[j], keyPath))
  {
    var s := SelectedEntries(t, keyPath, q);
    SelectedEntriesMembers(t, keyPath, q);
    SelectedEntriesAscending(t, keyPath, q);
    assert forall i | 0 <= i < |s| :: s[i] in s;
    SortByIndexOrdered(s, keyPath);
    var e := SortByIndex(s, keyPath);
    var r := IndexScan(t, keyPath, q);
    forall i, j | 0 <= i < j < |r|
      ensures IndexKey(r[i], keyPath).Some? && IndexKey(r[j], keyPath).Some?
              && (Less(IndexKey(r[i], keyPath).value, IndexKey(r[j], keyPath).value)
                  || IndexKey(r[i], keyPath) == IndexKey(r[j], keyPath))
    {
      assert IndexBefore(e[i], e[j], keyPath);
    }
  }

  /** A single-key query returns its records in primary-key order: the same list `Matching`
      gives. */
  lemma OnlyScanIsMatching(t: Table, keyPath: seq<string>, k: Key)
    ensures IndexScan(t, keyPath, Only(k)) == Matching(t, keyPath, Only(k))
  {
    var s := SelectedEntries(t, keyPath, Only(k));
    SelectedEntriesMembers(t, keyPath, Only(k));
    SelectedEntriesAscending(t, keyPath, Only(k));
    assert forall i | 0 <= i < |s| :: s[i] in s;
    assert IndexOrdered(s, keyPath);
    SortByIndexOrdered(s, keyPath);
    IndexOrderedUnique(SortByIndex(s, keyPath), s, keyPath);
    MatchingIsSelectedRecords(t, keyPath, Only(k));
  }

  /** With a `null` query the order is by index key first: two comments stored under ids 1 and
      2 with `postId` 2 and 1 come back as the second, then the first. */
  lemma UnboundedScanOrdersByIndexKey()
    ensures var c1 := map["id" := VInt(1), "postId" := VInt(2)];
            var c2 := map["id" := VInt(2), "postId" := VInt(1)];
            var t := [(Num(1), c1), (Num(2), c2)];
            && IndexScan(t, ["postId"], Unbounded) == [c2, c1]
            && Matching(t, ["postId"], Unbounded) == [c1, c2]
  {
  }


  /** `index(name).getAll(query)`: fails with NotFoundError when the store has no such index,
      and otherwise lists the selected records in index order. */
  function GetAllByIndex(st: Store, name: string, q: Query): (r: Result<seq<Record>, StoreError>)
    ensures r.Failure? <==> forall i | 0 <= i < |st.indexes| :: st.indexes[i].name != name
    ensures r.Failure? ==> r.error == NotFoundError
    ensures r.Success? ==> r.value == IndexScan(st.records, FindIndex(st.indexes, name).value.keyPath, q)
  {
    match FindIndex(st.indexes, name)
    case None => Failure(NotFoundError)
    case Some(spec) => Success(IndexScan(st.records, spec.keyPath, q))
  }
}
