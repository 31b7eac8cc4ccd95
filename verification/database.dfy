/** The client's record database (`client/js/database.js`): six IndexedDB object stores, the
    generic store operations the class wraps around single-request transactions, and the user,
    post, media, comment, like and follow operations built on them.

    SHA-256 is a parameter `h` (any function from the UTF-8 text of a password to 32 bytes);
    `Date.now()` is a parameter `now`. */
module Database {
  import opened Wrappers
  import opened Hex
  import opened Values
  import opened Keys
  import opened ObjectStore

  type Db = map<string, Store>

  datatype DbError =
    | StoreFailed(cause: StoreError)   // the request's error (a missing store is NotFoundError)
    | UserNotFound
    | InvalidPassword
    | PostNotFound

  /** The outcome of a read-write transaction: the database afterwards and the request's result.
      A failed request aborts its transaction, so on failure the database is the one before. */
  datatype Step<T> = Step(db: Db, out: Result<T, DbError>)

  // ---------------------------------------------------------------------------------------
  // Schema

  const StoreNames: set<string> := {"users", "posts", "media", "comments", "likes", "followers"}

  function Index(name: string, field: string): IndexSpec {
    IndexSpec(name, [field], false)
  }

  /** The store `upgradeneeded` creates under each name. */
  function Schema(name: string): (st: Store)
    requires name in StoreNames
    ensures st.records == [] && st.current == 1
    ensures name == "users" <==> !st.autoIncrement
  {
    match name
    case "users" =>
      EmptyStore("email", false,
                 [IndexSpec("name", ["firstName", "lastName"], false), IndexSpec("email", ["email"], true)])
    case "posts" => EmptyStore("id", true, [Index("author", "authorEmail"), Index("timestamp", "timestamp")])
    case "media" => EmptyStore("id", true, [Index("owner", "ownerEmail"), Index("type", "type")])
    case "comments" => EmptyStore("id", true, [Index("post", "postId"), Index("author", "authorEmail")])
    case "likes" => EmptyStore("id", true, [Index("post", "postId"), Index("user", "userEmail")])
    case "followers" =>
      EmptyStore("id", true, [Index("follower", "followerEmail"), Index("following", "followingEmail")])
  }

  /** The `upgradeneeded` handler: each of the six stores is created only if it is missing. */
  function Upgrade(db: Db): (r: Db)
    ensures r.Keys == db.Keys + StoreNames
    ensures forall n | n in db :: r[n] == db[n]
    ensures forall n | n in StoreNames && n !in db :: r[n] == Schema(n)
  {
    map n | n in db.Keys + StoreNames :: if n in db then db[n] else Schema(n)
  }

  /** Running the upgrade on an already (or partially) upgraded database changes nothing more. */
  lemma UpgradeIdempotent(db: Db)
    ensures Upgrade(Upgrade(db)) == Upgrade(db)
  {
  }

  /** Every store carries the schema it was created with and keeps the object-store invariant. */
  predicate Conforms(db: Db) {
    StoreNames <= db.Keys &&
    forall n | n in StoreNames ::
      && db[n].keyPath == Schema(n).keyPath
      && db[n].autoIncrement == Schema(n).autoIncrement
      && db[n].indexes == Schema(n).indexes
      && Valid(db[n])
  }

  /** Opening a fresh database yields a conforming one. */
  lemma UpgradeConforms(db: Db)
    requires forall n | n in StoreNames && n in db :: db[n] == Schema(n)
    ensures Conforms(Upgrade(db))
  {
  }

  /** `big` has every field of `small`, with the same value. */
  predicate Extends(big: Record, small: Record) {
    forall f | f in small :: f in big && big[f] == small[f]
  }

  /** `db'` differs from `db` at most in the store called `name`. */
  predicate OnlyStoreChanged(db: Db, db': Db, name: string) {
    db'.Keys == db.Keys && forall n | n in db && n != name :: db'[n] == db[n]
  }

  // ---------------------------------------------------------------------------------------
  // Generic store operations

  /** `addToStore`: `store.add(data)`, resolving with the new record's key. */
  function AddToStore(db: Db, name: string, data: Record): (r: Step<Key>)
    ensures r.out.Failure? ==> r.db == db
    ensures name !in db ==> r.out == Failure(StoreFailed(NotFoundError))
    ensures (name in db && IntendedKey(db[name], data).Some? &&
             IntendedKey(db[name], data).value in AsMap(db[name].records))
              ==> r.out == Failure(StoreFailed(ConstraintError))
    ensures (name in db && IntendedKey(db[name], data).None? && (db[name].keyPath in data || !db[name].autoIncrement))
              ==> r.out == Failure(StoreFailed(DataError))
    ensures r.out.Success? <==>
              name in db && IntendedKey(db[name], data).Some?
              && IntendedKey(db[name], data).value !in AsMap(db[name].records)
    ensures r.out.Success? ==>
              && name in db
              && r.out.value == IntendedKey(db[name], data).value
              && OnlyStoreChanged(db, r.db, name)
              && r.out.value !in AsMap(db[name].records)
              && r.out.value in AsMap(r.db[name].records)
              && AsMap(r.db[name].records) - {r.out.value} == AsMap(db[name].records)
              && Extends(AsMap(r.db[name].records)[r.out.value], data)
  {
    if name !in db then Step(db, Failure(StoreFailed(NotFoundError)))
    else
      match Add(db[name], data)
      case Failure(e) => Step(db, Failure(StoreFailed(e)))
      case Success(p) =>
        assert AsMap(p.store.records) - {p.key} == AsMap(db[name].records);
        Step(db[name := p.store], Success(p.key))
  }

  /** `getFromStore`: `store.get(key)`; a value that is not a valid key is a DataError. */
  function GetFromStore(db: Db, name: string, key: Value): (r: Result<Option<Record>, DbError>)
    ensures name !in db ==> r == Failure(StoreFailed(NotFoundError))
    ensures name in db && KeyOf(key).None? ==> r == Failure(StoreFailed(DataError))
    ensures name in db && KeyOf(key).Some? ==>
              r.Success? && (r.value.Some? <==> KeyOf(key).value in AsMap(db[name].records))
              && (r.value.Some? ==> r.value.value == AsMap(db[name].records)[KeyOf(key).value])
  {
    if name !in db then Failure(StoreFailed(NotFoundError))
    else
      match KeyOf(key)
      case None => Failure(StoreFailed(DataError))
      case Some(k) => Success(Lookup(db[name].records, k))
  }

  /** `getAllFromStore`: every record, in key order. */
  function GetAllFromStore(db: Db, name: string): (r: Result<seq<Record>, DbError>)
    ensures name !in db <==> r == Failure(StoreFailed(NotFoundError))
    ensures r.Success? ==> |r.value| == |db[name].records|
    ensures r.Success? ==> forall i | 0 <= i < |r.value| ::
              db[name].records[i].0 in AsMap(db[name].records)
              && r.value[i] == AsMap(db[name].records)[db[name].records[i].0]
  {
    if name !in db then Failure(StoreFailed(NotFoundError))
    else
      var t := db[name].records;
      assert forall i | 0 <= i < |t| :: t[i].0 in AsMap(t) && AsMap(t)[t[i].0] == t[i].1 by {
        forall i | 0 <= i < |t| ensures t[i].0 in AsMap(t) && AsMap(t)[t[i].0] == t[i].1 {
          AsMapAt(t, i);
        }
      }
      Success(Records(t))
  }

  /** The range `index.getAll(key)` converts its argument to: `null` is the unbounded range, a
      valid key selects that key alone, and any other value is a DataError. */
  function QueryOf(v: Value): (q: Option<Query>)
    ensures q.None? <==> !v.VNull? && KeyOf(v).None?
    ensures v.VNull? ==> q == Some(Unbounded)
    ensures KeyOf(v).Some? ==> q == Some(Only(KeyOf(v).value))
  {
    if v.VNull? then Some(Unbounded)
    else
      match KeyOf(v)
      case None => None
      case Some(k) => Some(Only(k))
  }

  /** `getAllFromIndex`: the records whose index key lies in the query's range, in index order
      (by index key, then primary key). A missing index fails before the query is looked at. */
  function GetAllFromIndex(db: Db, name: string, indexName: string, key: Value): (r: Result<seq<Record>, DbError>)
    ensures name !in db ==> r == Failure(StoreFailed(NotFoundError))
    ensures (name in db && FindIndex(db[name].indexes, indexName).None?)
              ==> r == Failure(StoreFailed(NotFoundError))
    ensures (name in db && FindIndex(db[name].indexes, indexName).Some? && QueryOf(key).None?)
              ==> r == Failure(StoreFailed(DataError))
    ensures r.Success? <==> name in db && FindIndex(db[name].indexes, indexName).Some? && QueryOf(key).Some?
    ensures r.Success? ==>
              && r.value == IndexScan(db[name].records, FindIndex(db[name].indexes, indexName).value.keyPath,
                                      QueryOf(key).value)
              && forall x :: x in r.value <==>
                   (x in Records(db[name].records)
                    && Selected(x, FindIndex(db[name].indexes, indexName).value.keyPath, QueryOf(key).value))
  {
    if name !in db then Failure(StoreFailed(NotFoundError))
    else if FindIndex(db[name].indexes, indexName).None? then Failure(StoreFailed(NotFoundError))
    else
      match QueryOf(key)
      case None => Failure(StoreFailed(DataError))
      case Some(q) =>
        IndexScanMembers(db[name].records, FindIndex(db[name].indexes, indexName).value.keyPath, q);
        match GetAllByIndex(db[name], indexName, q)
        case Failure(e) => Failure(StoreFailed(e))
        case Success(rs) => Success(rs)
  }

  /** `updateInStore`: `store.put(data)`. The `key` argument is never used: the record is written
      at the key its own key path holds. */
  function UpdateInStore(db: Db, name: string, key: Value, data: Record): (r: Step<Key>)
    ensures r.out.Failure? ==> r.db == db
    ensures name !in db ==> r.out == Failure(StoreFailed(NotFoundError))
    ensures (name in db && IntendedKey(db[name], data).None? && db[name].keyPath in data)
              ==> r.out == Failure(StoreFailed(DataError))
    ensures r.out.Success? <==> name in db && IntendedKey(db[name], data).Some?
    ensures r.out.Success? ==>
              && name in db
              && OnlyStoreChanged(db, r.db, name)
              && Some(r.out.value) == IntendedKey(db[name], data)
              && r.out.value in AsMap(r.db[name].records)
              && (forall k | k in AsMap(db[name].records) && k != r.out.value ::
                    k in AsMap(r.db[name].records) && AsMap(r.db[name].records)[k] == AsMap(db[name].records)[k])
              && AsMap(r.db[name].records).Keys == AsMap(db[name].records).Keys + {r.out.value}
    ensures r.out.Success? ==>
              var written := AsMap(r.db[name].records)[r.out.value];
              && Extends(written, data)
              && (forall f | f in written && f != db[name].keyPath :: f in data)
              && db[name].keyPath in written && KeyOf(written[db[name].keyPath]) == Some(r.out.value)
  {
    if name !in db then Step(db, Failure(StoreFailed(NotFoundError)))
    else
      match Put(db[name], data)
      case Failure(e) => Step(db, Failure(StoreFailed(e)))
      case Success(p) => Step(db[name := p.store], Success(p.key))
  }

  /** `deleteFromStore` with the key already converted; `None` is a value that is not a key. */
  function DeleteKey(db: Db, name: string, key: Option<Key>): (r: Step<()>)
    ensures r.out.Failure? ==> r.db == db
    ensures r.out.Failure? <==> name !in db || key.None?
    ensures r.out.Success? ==>
              OnlyStoreChanged(db, r.db, name)
              && AsMap(r.db[name].records) == AsMap(db[name].records) - {key.value}
  {
    if name !in db then Step(db, Failure(StoreFailed(NotFoundError)))
    else if key.None? then Step(db, Failure(StoreFailed(DataError)))
    else Step(db[name := Delete(db[name], key.value)], Success(()))
  }

  /** `deleteFromStore`: `store.delete(key)`. Deleting a key that is not there succeeds. */
  function DeleteFromStore(db: Db, name: string, key: Value): (r: Step<()>)
    ensures r.out.Failure? ==> r.db == db
    ensures name !in db ==> r.out == Failure(StoreFailed(NotFoundError))
    ensures name in db && KeyOf(key).None? ==> r.out == Failure(StoreFailed(DataError))
    ensures name in db && KeyOf(key).Some? ==>
              && r.out.Success?
              && OnlyStoreChanged(db, r.db, name)
              && AsMap(r.db[name].records) == AsMap(db[name].records) - {KeyOf(key).value}
    ensures name in db && KeyOf(key).Some? && KeyOf(key).value !in AsMap(db[name].records) ==> r.db == db
  {
    DeleteKey(db, name, KeyOf(key))
  }

  // ---------------------------------------------------------------------------------------
  // Passwords

  /** 32-byte SHA-256 digests. */
  type Digest = d: seq<Byte> | |d| == 32 witness seq(32, i => 0)

  /** The text `TextEncoder.encode` receives for a field: `String(v)`, or the empty string when
      the field is missing (`encode(undefined)` takes its default argument). */
  function FieldText(r: Record, f: string): string {
    if f in r then ToJsString(r[f]) else ""
  }

  /** `hashPassword`: the digest's bytes, each as two lowercase hex digits. */
  function HashPassword(h: string -> Digest, password: string): (r: string)
    ensures |r| == 64
    ensures forall i | 0 <= i < |r| :: IsLowerHexDigit(r[i])
    ensures HexDecode(r) == Some(h(password))
  {
    HexRoundTrip(h(password));
    HexEncode(h(password))
  }

  /** `verifyPassword`: re-hash and compare with `===`. A stored value that is not a string never
      matches. */
  predicate VerifyPassword(h: string -> Digest, password: string, stored: Value): (b: bool)
    ensures b <==> stored.VStr? && HexDecode(stored.s) == Some(h(password))
  {
    HashMatchesDigest(h, password, stored);
    StrictEquals(VStr(HashPassword(h, password)), stored)
  }

  /** A stored value is the hash of a password exactly when it is a string spelling the
      password's digest. */
  lemma HashMatchesDigest(h: string -> Digest, password: string, stored: Value)
    ensures StrictEquals(VStr(HashPassword(h, password)), stored)
            <==> stored.VStr? && HexDecode(stored.s) == Some(h(password))
  {
    if stored.VStr? && HexDecode(stored.s) == Some(h(password)) {
      HexDecodeInverse(stored.s, h(password));
    }
  }

  /** A password verifies against the stored hash exactly when its digest is the stored one. */
  lemma VerifyPasswordMeansSameDigest(h: string -> Digest, password: string, original: string)
    ensures VerifyPassword(h, password, VStr(HashPassword(h, original))) <==> h(password) == h(original)
  {
    if VerifyPassword(h, password, VStr(HashPassword(h, original))) {
      HexEncodeInjective(h(password), h(original));
    }
  }

  // ---------------------------------------------------------------------------------------
  // Users

  /** The record `createUser` stores: caller fields, then the hashed password and both
      timestamps (a single `now` stands for the two clock reads). */
  function NewUser(h: string -> Digest, now: int, userData: Record): (u: Record)
    ensures u.Keys == userData.Keys + {"password", "createdAt", "updatedAt"}
    ensures u["password"] == VStr(HashPassword(h, FieldText(userData, "password")))
    ensures u["createdAt"] == VInt(now) && u["updatedAt"] == VInt(now)
    ensures forall f | f in userData && f !in {"password", "createdAt", "updatedAt"} :: u[f] == userData[f]
  {
    userData + map["password" := VStr(HashPassword(h, FieldText(userData, "password"))),
                   "createdAt" := VInt(now), "updatedAt" := VInt(now)]
  }

  function CreateUser(db: Db, h: string -> Digest, now: int, userData: Record): (r: Step<Key>)
    ensures r.out.Failure? ==> r.db == db
    ensures Conforms(db) && "email" in userData && KeyOf(userData["email"]).Some? ==>
              (r.out.Success? <==> KeyOf(userData["email"]).value !in AsMap(db["users"].records))
    ensures r.out.Success? ==>
              "users" in db && "users" in r.db && r.out.value in AsMap(r.db["users"].records)
              && Extends(AsMap(r.db["users"].records)[r.out.value], NewUser(h, now, userData))
  {
    AddToStore(db, "users", NewUser(h, now, userData))
  }

  /** `authenticateUser`: unknown email, wrong password, or the user record without `password`. */
  function AuthenticateUser(db: Db, h: string -> Digest, email: Value, password: Value): (r: Result<Record, DbError>)
    ensures "users" !in db ==> r == Failure(StoreFailed(NotFoundError))
    ensures "users" in db && KeyOf(email).None? ==> r == Failure(StoreFailed(DataError))
    ensures "users" in db && KeyOf(email).Some? && KeyOf(email).value in AsMap(db["users"].records) ==>
              var user := AsMap(db["users"].records)[KeyOf(email).value];
              var verified := "password" in user && VerifyPassword(h, ToJsString(password), user["password"]);
              && (verified ==> r == Success(user - {"password"}))
              && (!verified ==> r == Failure(InvalidPassword))
    ensures ("users" in db && KeyOf(email).Some? && KeyOf(email).value !in AsMap(db["users"].records))
              ==> r == Failure(UserNotFound)
    ensures r.Success? ==>
              && "users" in db && KeyOf(email).Some?
              && KeyOf(email).value in AsMap(db["users"].records)
              && "password" in AsMap(db["users"].records)[KeyOf(email).value]
              && VerifyPassword(h, ToJsString(password), AsMap(db["users"].records)[KeyOf(email).value]["password"])
              && r.value == AsMap(db["users"].records)[KeyOf(email).value] - {"password"}
    ensures r == Failure(InvalidPassword) ==>
              "users" in db && KeyOf(email).Some? && KeyOf(email).value in AsMap(db["users"].records)
              && !(("password" in AsMap(db["users"].records)[KeyOf(email).value])
                   && VerifyPassword(h, ToJsString(password), AsMap(db["users"].records)[KeyOf(email).value]["password"]))
  {
    var found :- GetFromStore(db, "users", email);
    match found
    case None => Failure(UserNotFound)
    case Some(user) =>
      if "password" in user && VerifyPassword(h, ToJsString(password), user["password"]) then
        Success(user - {"password"})
      else Failure(InvalidPassword)
  }

  /** A user created with a password authenticates with that password and gets back the stored
      record without its hash; with a password of a different digest the answer is
      InvalidPassword. */
  lemma CreateThenAuthenticate(db: Db, h: string -> Digest, now: int, userData: Record, attempt: string)
    requires Conforms(db) && CreateUser(db, h, now, userData).out.Success?
    requires "email" in userData && userData["email"].VStr?
    ensures var s := CreateUser(db, h, now, userData);
            var r := AuthenticateUser(s.db, h, userData["email"], VStr(attempt));
            (h(attempt) == h(FieldText(userData, "password")) ==> r == Success(NewUser(h, now, userData) - {"password"}))
            && (h(attempt) != h(FieldText(userData, "password")) ==> r == Failure(InvalidPassword))
  {
    var s := CreateUser(db, h, now, userData);
    var u := NewUser(h, now, userData);
    var k := Str(userData["email"].s);
    assert "email" in u && u["email"] == userData["email"];
    VerifyPasswordMeansSameDigest(h, attempt, FieldText(userData, "password"));
  }

  /** `{...prior, ...updates, updatedAt: now}`. */
  function Merge(prior: Record, updates: Record, now: int): (r: Record)
    ensures r.Keys == prior.Keys + updates.Keys + {"updatedAt"}
    ensures r["updatedAt"] == VInt(now)
    ensures forall f | f in updates && f != "updatedAt" :: r[f] == updates[f]
    ensures forall f | f in prior && f !in updates && f != "updatedAt" :: r[f] == prior[f]
  {
    prior + updates + map["updatedAt" := VInt(now)]
  }

  /** The shared shape of `updateUser` and `updatePost`: read the record at `key`, fail with
      `notFound` if it is missing, else `put` the merged record. */
  function UpdateRecord(db: Db, name: string, key: Value, updates: Record, now: int, notFound: DbError): (r: Step<Key>)
    ensures r.out.Failure? ==> r.db == db
    ensures (name in db && KeyOf(key).Some? && KeyOf(key).value !in AsMap(db[name].records))
              ==> r.out == Failure(notFound)
    ensures (name in db && KeyOf(key).Some? && KeyOf(key).value in AsMap(db[name].records))
              ==> (r.out.Success? <==>
                     IntendedKey(db[name], Merge(AsMap(db[name].records)[KeyOf(key).value], updates, now)).Some?)
    ensures r.out.Success? ==>
              && name in db && KeyOf(key).Some? && KeyOf(key).value in AsMap(db[name].records)
              && OnlyStoreChanged(db, r.db, name)
              && var before := AsMap(db[name].records);
                 var after := AsMap(r.db[name].records);
                 var merged := Merge(before[KeyOf(key).value], updates, now);
                 && r.out.value in after
                 && Some(r.out.value) == IntendedKey(db[name], merged)
                 && Extends(after[r.out.value], merged)
                 && (forall k | k in before && k != r.out.value :: k in after && after[k] == before[k])
  {
    match GetFromStore(db, name, key)
    case Failure(e) => Step(db, Failure(e))
    case Success(None) => Step(db, Failure(notFound))
    case Success(Some(prior)) => UpdateInStore(db, name, key, Merge(prior, updates, now))
  }

  /** `updateUser`: a missing user is an error and leaves the database as it was. */
  function UpdateUser(db: Db, now: int, email: Value, updates: Record): (r: Step<Key>)
    ensures r.out.Failure? ==> r.db == db
    ensures ("users" in db && KeyOf(email).Some? && KeyOf(email).value !in AsMap(db["users"].records))
              ==> r.out == Failure(UserNotFound)
  {
    UpdateRecord(db, "users", email, updates, now, UserNotFound)
  }

  /** An update that does not touch the key field writes the merged record back in place. */
  lemma UpdateInPlace(db: Db, name: string, key: Value, updates: Record, now: int, notFound: DbError)
    requires Conforms(db) && name in StoreNames
    requires KeyOf(key).Some? && KeyOf(key).value in AsMap(db[name].records)
    requires db[name].keyPath !in updates && db[name].keyPath != "updatedAt"
    ensures var r := UpdateRecord(db, name, key, updates, now, notFound);
            var prior := AsMap(db[name].records)[KeyOf(key).value];
            r.out == Success(KeyOf(key).value)
            && AsMap(r.db[name].records) == AsMap(db[name].records)[KeyOf(key).value := Merge(prior, updates, now)]
  {
    var st := db[name];
    var t := st.records;
    var k := KeyOf(key).value;
    AsMapKeys(t);
    var i :| 0 <= i < |t| && t[i].0 == k;
    AsMapAt(t, i);
    var prior := AsMap(t)[k];
    assert GetFromStore(db, name, key) == Success(Some(prior));
    assert st.keyPath in prior && KeyOf(prior[st.keyPath]) == Some(k);
    var merged := Merge(prior, updates, now);
    assert merged[st.keyPath] == prior[st.keyPath];
    assert IntendedKey(st, merged) == Some(k);
  }

  /** `updateUser` with a new `email` does not move the user: the prior record stays and a second
      one is written under the new email (the key argument of `updateInStore` is ignored). */
  lemma UpdateUserEmailKeepsOldRecord(db: Db, now: int, email: string, updates: Record, newEmail: string)
    requires Conforms(db)
    requires Str(email) in AsMap(db["users"].records)
    requires "email" in updates && updates["email"] == VStr(newEmail) && newEmail != email
    ensures var r := UpdateUser(db, now, VStr(email), updates);
            r.out == Success(Str(newEmail))
            && AsMap(r.db["users"].records)[Str(email)] == AsMap(db["users"].records)[Str(email)]
            && Str(newEmail) in AsMap(r.db["users"].records)
  {
  }

  // ---------------------------------------------------------------------------------------
  // Posts, media, comments

  function NewPost(now: int, postData: Record): (p: Record)
    ensures p.Keys == postData.Keys + {"timestamp", "likes", "comments"}
    ensures p["timestamp"] == VInt(now) && p["likes"] == VInt(0) && p["comments"] == VList([])
    ensures forall f | f in postData && f !in {"timestamp", "likes", "comments"} :: p[f] == postData[f]
  {
    postData + map["timestamp" := VInt(now), "likes" := VInt(0), "comments" := VList([])]
  }

  /** `createPost`: whatever the caller passes, the stored post starts with no likes, no comments
      and the current time. */
  function CreatePost(db: Db, now: int, postData: Record): (r: Step<Key>)
    ensures r.out.Failure? ==> r.db == db
    ensures r.out.Success? ==>
              "posts" in db && "posts" in r.db && r.out.value in AsMap(r.db["posts"].records)
              && Extends(AsMap(r.db["posts"].records)[r.out.value], NewPost(now, postData))
  {
    AddToStore(db, "posts", NewPost(now, postData))
  }

  /** In a conforming database a post without an `id` is stored under a fresh generated key. */
  lemma CreatePostSucceeds(db: Db, now: int, postData: Record)
    requires Conforms(db) && "id" !in postData && db["posts"].current <= MaxGeneratedKey
    ensures CreatePost(db, now, postData).out == Success(Num(db["posts"].current))
  {
    GeneratedKeyIsFresh(db["posts"], NewPost(now, postData));
  }

  predicate AuthoredBy(e: Value, post: Record) {
    FieldIs(post, "authorEmail", e)
  }

  /** The records of `s` meeting `p`, in order. */
  function Filter(s: seq<Record>, p: Record -> bool): (r: seq<Record>)
    ensures forall x :: x in r <==> x in s && p(x)
    ensures |r| <= |s|
  {
    if |s| == 0 then [] else (if p(s[0]) then [s[0]] else []) + Filter(s[1..], p)
  }

  /** Filtering distributes over concatenation, so the kept records keep their order. */
  lemma {:induction false} FilterAppend(a: seq<Record>, b: seq<Record>, p: Record -> bool)
    ensures Filter(a + b, p) == Filter(a, p) + Filter(b, p)
    decreases |a|
  {
    if |a| > 0 {
      assert (a + b)[0] == a[0];
      assert (a + b)[1..] == a[1..] + b;
      FilterAppend(a[1..], b, p);
    } else {
      assert a + b == b;
    }
  }

  /** A single record is kept exactly when it meets the predicate. */
  lemma FilterSingle(x: Record, p: Record -> bool)
    ensures Filter([x], p) == if p(x) then [x] else []
  {
    assert [x][1..] == [];
  }

  /** The entries of `t` whose record meets `p`, in the table's order. */
  function Kept(t: seq<Entry>, p: Record -> bool): (r: seq<Entry>)
    ensures forall e :: e in r <==> e in t && p(e.1)
  {
    if |t| == 0 then []
    else
      assert t == [t[0]] + t[1..];
      (if p(t[0].1) then [t[0]] else []) + Kept(t[1..], p)
  }

  /** Keeping entries keeps the key order. */
  lemma {:induction false} KeptAscending(t: seq<Entry>, p: Record -> bool)
    requires Ascending(t)
    ensures Ascending(Kept(t, p))
  {
    if |t| > 0 {
      var rest := Kept(t[1..], p);
      assert Ascending(t[1..]) by {
        forall i, j | 0 <= i < j < |t[1..]| ensures Less(t[1..][i].0, t[1..][j].0) {
          assert t[1..][i] == t[i + 1] && t[1..][j] == t[j + 1];
        }
      }
      KeptAscending(t[1..], p);
      if p(t[0].1) {
        forall i | 0 <= i < |rest| ensures Less(t[0].0, rest[i].0) {
          var j :| 0 <= j < |t[1..]| && t[1..][j] == rest[i];
          assert t[j + 1] == rest[i];
        }
        ConsAscending(t[0], rest);
      }
    }
  }

  /** The kept entries hold the records `Filter` keeps. */
  lemma {:induction false} KeptRecords(t: seq<Entry>, p: Record -> bool)
    ensures Records(Kept(t, p)) == Filter(Records(t), p)
  {
    if |t| > 0 {
      var rest := Kept(t[1..], p);
      KeptRecords(t[1..], p);
      assert Records(t)[1..] == Records(t[1..]);
      if p(t[0].1) {
        assert Records([t[0]] + rest) == [t[0].1] + Records(rest);
      }
    }
  }

  /** `getPosts(authorEmail)`: with a truthy email, exactly that author's posts, in key order as
      `filter` keeps them; otherwise all. */
  function GetPosts(db: Db, authorEmail: Value): (r: Result<seq<Record>, DbError>)
    ensures "posts" !in db <==> r.Failure?
    ensures r.Success? && Truthy(authorEmail) ==>
              forall x :: x in r.value <==> x in Records(db["posts"].records) && AuthoredBy(authorEmail, x)
    ensures r.Success? && Truthy(authorEmail) ==>
              exists e: seq<Entry> | Ascending(e)
                && (forall x :: x in e <==> x in db["posts"].records && AuthoredBy(authorEmail, x.1)) ::
                r.value == Records(e)
    ensures r.Success? && !Truthy(authorEmail) ==> r.value == Records(db["posts"].records)
  {
    var posts :- GetAllFromStore(db, "posts");
    if Truthy(authorEmail) then
      var p := x => AuthoredBy(authorEmail, x);
      KeptAscending(db["posts"].records, p);
      KeptRecords(db["posts"].records, p);
      Success(Filter(posts, p))
    else Success(posts)
  }

  /** `updatePost`: a missing post is an error and leaves the database as it was. */
  function UpdatePost(db: Db, now: int, postId: Value, updates: Record): (r: Step<Key>)
    ensures r.out.Failure? ==> r.db == db
    ensures ("posts" in db && KeyOf(postId).Some? && KeyOf(postId).value !in AsMap(db["posts"].records))
              ==> r.out == Failure(PostNotFound)
  {
    UpdateRecord(db, "posts", postId, updates, now, PostNotFound)
  }

  /** `deletePost`: the post at the key is gone and no other store changes. */
  function DeletePost(db: Db, postId: Value): (r: Step<()>)
    ensures r.out.Failure? ==> r.db == db
    ensures "posts" in db && KeyOf(postId).Some? ==>
              r.out.Success? && OnlyStoreChanged(db, r.db, "posts")
              && AsMap(r.db["posts"].records) == AsMap(db["posts"].records) - {KeyOf(postId).value}
  {
    DeleteFromStore(db, "posts", postId)
  }

  function NewMedia(now: int, mime: string, bytes: seq<Byte>, ownerEmail: Value): (m: Record)
    ensures m.Keys == {"blob", "ownerEmail", "type", "size", "timestamp"}
    ensures m["blob"] == VBlob(mime, bytes) && m["type"] == VStr(mime) && m["size"] == VInt(|bytes|)
    ensures m["ownerEmail"] == ownerEmail && m["timestamp"] == VInt(now)
  {
    map["blob" := VBlob(mime, bytes), "ownerEmail" := ownerEmail, "type" := VStr(mime),
        "size" := VInt(|bytes|), "timestamp" := VInt(now)]
  }

  /** `storeMedia(blob, ownerEmail)`: the blob together with its type and byte size. */
  function StoreMedia(db: Db, now: int, mime: string, bytes: seq<Byte>, ownerEmail: Value): (r: Step<Key>)
    ensures r.out.Failure? ==> r.db == db
    ensures r.out.Success? ==>
              "media" in db && "media" in r.db && r.out.value in AsMap(r.db["media"].records)
              && Extends(AsMap(r.db["media"].records)[r.out.value], NewMedia(now, mime, bytes, ownerEmail))
  {
    AddToStore(db, "media", NewMedia(now, mime, bytes, ownerEmail))
  }

  /** `getMedia`: the media record stored at the key, if any. */
  function GetMedia(db: Db, mediaId: Value): (r: Result<Option<Record>, DbError>)
    ensures "media" in db && KeyOf(mediaId).Some? ==> r == Success(Lookup(db["media"].records, KeyOf(mediaId).value))
  {
    GetFromStore(db, "media", mediaId)
  }

  /** `deleteMedia`: the media record at the key is gone and no other store changes. */
  function DeleteMedia(db: Db, mediaId: Value): (r: Step<()>)
    ensures r.out.Failure? ==> r.db == db
    ensures "media" in db && KeyOf(mediaId).Some? ==>
              r.out.Success? && OnlyStoreChanged(db, r.db, "media")
              && AsMap(r.db["media"].records) == AsMap(db["media"].records) - {KeyOf(mediaId).value}
  {
    DeleteFromStore(db, "media", mediaId)
  }

  /** `addComment`: the comment stamped with the current time. */
  function AddComment(db: Db, now: int, comment: Record): (r: Step<Key>)
    ensures r.out.Failure? ==> r.db == db
    ensures r.out.Success? ==>
              "comments" in db && "comments" in r.db && r.out.value in AsMap(r.db["comments"].records)
              && Extends(AsMap(r.db["comments"].records)[r.out.value], comment["timestamp" := VInt(now)])
  {
    AddToStore(db, "comments", comment["timestamp" := VInt(now)])
  }

  /** `getComments(postId)`: the comments whose `postId` is the given key, or with `null` every
      comment whose `postId` is a key at all. */
  function GetComments(db: Db, postId: Value): (r: Result<seq<Record>, DbError>)
    ensures Conforms(db) ==> (r.Success? <==> postId.VNull? || KeyOf(postId).Some?)
    ensures Conforms(db) && r.Success? ==>
              forall x :: x in r.value <==>
                x in Records(db["comments"].records) && "postId" in x && KeyOf(x["postId"]).Some?
                && (postId.VNull? || KeyOf(x["postId"]) == KeyOf(postId))
  {
    GetAllFromIndex(db, "comments", "post", postId)
  }

  // ---------------------------------------------------------------------------------------
  // Likes and follows

  /** `f1 === v1 && f2 === v2` on a stored record. */
  function PairMatches(f1: string, v1: Value, f2: string, v2: Value): Record -> bool {
    x => FieldIs(x, f1, v1) && FieldIs(x, f2, v2)
  }

  /** `getAll` followed by `find`: the first matching record in key order. */
  function FindPair(db: Db, name: string, f1: string, v1: Value, f2: string, v2: Value): (r: Result<Option<Record>, DbError>)
    ensures name !in db <==> r.Failure?
    ensures r.Success? ==> (r.value.None? <==> Count(db[name].records, PairMatches(f1, v1, f2, v2)) == 0)
    ensures r.Success? && r.value.Some? ==>
              PairMatches(f1, v1, f2, v2)(r.value.value) && r.value.value in Records(db[name].records)
  {
    if name !in db then Failure(StoreFailed(NotFoundError))
    else
      var t := db[name].records;
      match FirstIndex(t, PairMatches(f1, v1, f2, v2))
      case None => Success(None)
      case Some(i) =>
        assert t[i].1 == Records(t)[i];
        Success(Some(t[i].1))
  }

  /** The shared shape of `toggleLike` and `toggleFollow`: delete the first record pairing the two
      values (answer false), or add one with the current time (answer true). */
  function Toggle(db: Db, now: int, name: string, f1: string, v1: Value, f2: string, v2: Value): (r: Step<bool>)
    ensures r.out.Failure? ==> r.db == db
    ensures r.out.Success? ==> (r.out.value <==> FindPair(db, name, f1, v1, f2, v2) == Success(None))
  {
    match FindPair(db, name, f1, v1, f2, v2)
    case Failure(e) => Step(db, Failure(e))
    case Success(Some(existing)) =>
      var s := DeleteKey(db, name, if "id" in existing then KeyOf(existing["id"]) else None);
      Step(s.db, if s.out.Success? then Success(false) else Failure(s.out.error))
    case Success(None) =>
      var s := AddToStore(db, name, map[f1 := v1, f2 := v2, "timestamp" := VInt(now)]);
      Step(s.db, if s.out.Success? then Success(true) else Failure(s.out.error))
  }

  /** The stores `Toggle` is used on: keyed by a generated `id` that the paired fields are not. */
  predicate PairStore(db: Db, name: string, f1: string, f2: string) {
    && name in db && Valid(db[name])
    && db[name].keyPath == "id" && db[name].autoIncrement
    && f1 != f2 && f1 !in {"id", "timestamp"} && f2 !in {"id", "timestamp"}
  }

  /** Toggling adds a pairing when there is none and removes one otherwise; the number of records
      pairing any other two values is unchanged, and no other store changes. */
  lemma ToggleCounts(db: Db, now: int, name: string, f1: string, v1: Value, f2: string, v2: Value,
                     w1: Value, w2: Value)
    requires PairStore(db, name, f1, f2)
    requires Toggle(db, now, name, f1, v1, f2, v2).out.Success?
    ensures var r := Toggle(db, now, name, f1, v1, f2, v2);
            var before := Count(db[name].records, PairMatches(f1, v1, f2, v2));
            && PairStore(r.db, name, f1, f2)
            && OnlyStoreChanged(db, r.db, name)
            && (r.out.value <==> before == 0)
            && Count(r.db[name].records, PairMatches(f1, v1, f2, v2)) ==
               (if before == 0 then (if IsPrimitive(v1) && IsPrimitive(v2) then 1 else 0) else before - 1)
            && ((w1, w2) != (v1, v2) ==>
                  Count(r.db[name].records, PairMatches(f1, w1, f2, w2)) ==
                  Count(db[name].records, PairMatches(f1, w1, f2, w2)))
  {
    if Count(db[name].records, PairMatches(f1, v1, f2, v2)) == 0 {
      ToggleAddsPair(db, now, name, f1, v1, f2, v2, w1, w2);
    } else {
      ToggleRemovesPair(db, now, name, f1, v1, f2, v2, w1, w2);
    }
  }

  lemma ToggleAddsPair(db: Db, now: int, name: string, f1: string, v1: Value, f2: string, v2: Value,
                       w1: Value, w2: Value)
    requires PairStore(db, name, f1, f2)
    requires Count(db[name].records, PairMatches(f1, v1, f2, v2)) == 0
    requires Toggle(db, now, name, f1, v1, f2, v2).out.Success?
    ensures var r := Toggle(db, now, name, f1, v1, f2, v2);
            && PairStore(r.db, name, f1, f2)
            && OnlyStoreChanged(db, r.db, name)
            && r.out.value
            && Count(r.db[name].records, PairMatches(f1, v1, f2, v2)) ==
               (if IsPrimitive(v1) && IsPrimitive(v2) then 1 else 0)
            && ((w1, w2) != (v1, v2) ==>
                  Count(r.db[name].records, PairMatches(f1, w1, f2, w2)) ==
                  Count(db[name].records, PairMatches(f1, w1, f2, w2)))
  {
    var st := db[name];
    var rec := map[f1 := v1, f2 := v2, "timestamp" := VInt(now)];
    assert FindPair(db, name, f1, v1, f2, v2) == Success(None);
    assert Add(st, rec).Success?;
    var placed := Add(st, rec).value;
    assert placed.record == rec["id" := ValueOf(placed.key)];
    StoreRecordPreservesValid(st, rec, true);
    CountAfterAdd(st, rec, PairMatches(f1, v1, f2, v2));
    CountAfterAdd(st, rec, PairMatches(f1, w1, f2, w2));
  }

  lemma ToggleRemovesPair(db: Db, now: int, name: string, f1: string, v1: Value, f2: string, v2: Value,
                          w1: Value, w2: Value)
    requires PairStore(db, name, f1, f2)
    requires Count(db[name].records, PairMatches(f1, v1, f2, v2)) > 0
    ensures var r := Toggle(db, now, name, f1, v1, f2, v2);
            && r.out == Success(false)
            && PairStore(r.db, name, f1, f2)
            && OnlyStoreChanged(db, r.db, name)
            && Count(r.db[name].records, PairMatches(f1, v1, f2, v2)) ==
               Count(db[name].records, PairMatches(f1, v1, f2, v2)) - 1
            && ((w1, w2) != (v1, v2) ==>
                  Count(r.db[name].records, PairMatches(f1, w1, f2, w2)) ==
                  Count(db[name].records, PairMatches(f1, w1, f2, w2)))
  {
    var st := db[name];
    var t := st.records;
    var i := FirstIndex(t, PairMatches(f1, v1, f2, v2)).value;
    var existing := t[i].1;
    assert FindPair(db, name, f1, v1, f2, v2) == Success(Some(existing));
    assert "id" in existing && KeyOf(existing["id"]) == Some(t[i].0);
    AsMapAt(t, i);
    CountAfterDelete(st, t[i].0, PairMatches(f1, v1, f2, v2));
    CountAfterDelete(st, t[i].0, PairMatches(f1, w1, f2, w2));
    DeletePreservesValid(st, t[i].0);
  }

  /** Two toggles in a row leave the count of every pairing as it was, as long as there was at
      most one record for the toggled pair. */
  lemma ToggleTwiceRestoresCounts(db: Db, now1: int, now2: int, name: string, f1: string, v1: Value,
                                  f2: string, v2: Value, w1: Value, w2: Value)
    requires PairStore(db, name, f1, f2) && IsPrimitive(v1) && IsPrimitive(v2)
    requires Count(db[name].records, PairMatches(f1, v1, f2, v2)) <= 1
    requires Toggle(db, now1, name, f1, v1, f2, v2).out.Success?
    requires Toggle(Toggle(db, now1, name, f1, v1, f2, v2).db, now2, name, f1, v1, f2, v2).out.Success?
    ensures var once := Toggle(db, now1, name, f1, v1, f2, v2);
            var twice := Toggle(once.db, now2, name, f1, v1, f2, v2);
            Count(twice.db[name].records, PairMatches(f1, w1, f2, w2)) ==
            Count(db[name].records, PairMatches(f1, w1, f2, w2))
            && twice.out.value == !once.out.value
  {
    var once := Toggle(db, now1, name, f1, v1, f2, v2);
    ToggleCounts(db, now1, name, f1, v1, f2, v2, w1, w2);
    ToggleCounts(once.db, now2, name, f1, v1, f2, v2, w1, w2);
  }

  /** `getLike`: a stored like of this post by this user, if there is one. */
  function GetLike(db: Db, postId: Value, userEmail: Value): (r: Result<Option<Record>, DbError>)
    ensures "likes" in db <==> r.Success?
    ensures "likes" in db && r.Success? ==> (r.value.None? <==> Count(db["likes"].records, PairMatches("postId", postId, "userEmail", userEmail)) == 0)
    ensures r.Success? && r.value.Some? ==>
              FieldIs(r.value.value, "postId", postId) && FieldIs(r.value.value, "userEmail", userEmail)
  {
    FindPair(db, "likes", "postId", postId, "userEmail", userEmail)
  }

  /** `toggleLike`: unlike when a like of the post by the user is stored, like otherwise. */
  function ToggleLike(db: Db, now: int, postId: Value, userEmail: Value): (r: Step<bool>)
    ensures r.out.Failure? ==> r.db == db
    ensures r.out.Success? ==> (r.out.value <==> GetLike(db, postId, userEmail) == Success(None))
    ensures Conforms(db) && r.out.Success? ==>
              var before := Count(db["likes"].records, PairMatches("postId", postId, "userEmail", userEmail));
              && OnlyStoreChanged(db, r.db, "likes")
              && Count(r.db["likes"].records, PairMatches("postId", postId, "userEmail", userEmail)) ==
                 (if before == 0 then (if IsPrimitive(postId) && IsPrimitive(userEmail) then 1 else 0) else before - 1)
  {
    var r := Toggle(db, now, "likes", "postId", postId, "userEmail", userEmail);
    if Conforms(db) && r.out.Success? then
      ConformsHasPairStores(db);
      ToggleCounts(db, now, "likes", "postId", postId, "userEmail", userEmail, postId, userEmail);
      r
    else r
  }

  /** `getFollow`: a stored follow of `followingEmail` by `followerEmail`, if there is one. */
  function GetFollow(db: Db, followerEmail: Value, followingEmail: Value): (r: Result<Option<Record>, DbError>)
    ensures "followers" in db <==> r.Success?
    ensures "followers" in db && r.Success? ==> (r.value.None? <==> Count(db["followers"].records, PairMatches("followerEmail", followerEmail, "followingEmail", followingEmail)) == 0)
    ensures r.Success? && r.value.Some? ==>
              FieldIs(r.value.value, "followerEmail", followerEmail) && FieldIs(r.value.value, "followingEmail", followingEmail)
  {
    FindPair(db, "followers", "followerEmail", followerEmail, "followingEmail", followingEmail)
  }

  /** `toggleFollow`: unfollow when a follow of the pair is stored, follow otherwise. */
  function ToggleFollow(db: Db, now: int, followerEmail: Value, followingEmail: Value): (r: Step<bool>)
    ensures r.out.Failure? ==> r.db == db
    ensures r.out.Success? ==> (r.out.value <==> GetFollow(db, followerEmail, followingEmail) == Success(None))
    ensures Conforms(db) && r.out.Success? ==>
              var pair := PairMatches("followerEmail", followerEmail, "followingEmail", followingEmail);
              var before := Count(db["followers"].records, pair);
              && OnlyStoreChanged(db, r.db, "followers")
              && Count(r.db["followers"].records, pair) ==
                 (if before == 0 then (if IsPrimitive(followerEmail) && IsPrimitive(followingEmail) then 1 else 0)
                  else before - 1)
  {
    var r := Toggle(db, now, "followers", "followerEmail", followerEmail, "followingEmail", followingEmail);
    if Conforms(db) && r.out.Success? then
      ConformsHasPairStores(db);
      ToggleCounts(db, now, "followers", "followerEmail", followerEmail, "followingEmail", followingEmail,
                   followerEmail, followingEmail);
      r
    else r
  }

  /** In a conforming database, liking twice restores every (post, user) count. */
  lemma ToggleLikeTwice(db: Db, now1: int, now2: int, postId: Value, userEmail: Value, p: Value, u: Value)
    requires Conforms(db) && IsPrimitive(postId) && IsPrimitive(userEmail)
    requires Count(db["likes"].records, PairMatches("postId", postId, "userEmail", userEmail)) <= 1
    requires ToggleLike(db, now1, postId, userEmail).out.Success?
    requires ToggleLike(ToggleLike(db, now1, postId, userEmail).db, now2, postId, userEmail).out.Success?
    ensures var twice := ToggleLike(ToggleLike(db, now1, postId, userEmail).db, now2, postId, userEmail);
            Count(twice.db["likes"].records, PairMatches("postId", p, "userEmail", u)) ==
            Count(db["likes"].records, PairMatches("postId", p, "userEmail", u))
  {
    ConformsHasPairStores(db);
    ToggleTwiceRestoresCounts(db, now1, now2, "likes", "postId", postId, "userEmail", userEmail, p, u);
  }

  /** Following keeps at most one record per (follower, following) pair. */
  lemma ToggleFollowKeepsPairsUnique(db: Db, now: int, follower: Value, following: Value, a: Value, b: Value)
    requires Conforms(db)
    requires Count(db["followers"].records, PairMatches("followerEmail", a, "followingEmail", b)) <= 1
    requires ToggleFollow(db, now, follower, following).out.Success?
    ensures Count(ToggleFollow(db, now, follower, following).db["followers"].records,
                  PairMatches("followerEmail", a, "followingEmail", b)) <= 1
  {
    ConformsHasPairStores(db);
    ToggleCounts(db, now, "followers", "followerEmail", follower, "followingEmail", following, a, b);
  }

  /** The likes and followers stores of a conforming database are pair stores. */
  lemma ConformsHasPairStores(db: Db)
    requires Conforms(db)
    ensures PairStore(db, "likes", "postId", "userEmail")
    ensures PairStore(db, "followers", "followerEmail", "followingEmail")
  {
    assert "likes" in StoreNames && "followers" in StoreNames;
  }

  /** `getFollowers(e)`: the follow records whose `followingEmail` is `e`, or with `null` every
      follow record whose `followingEmail` is a key. */
  function GetFollowers(db: Db, userEmail: Value): (r: Result<seq<Record>, DbError>)
    ensures Conforms(db) ==> (r.Success? <==> userEmail.VNull? || KeyOf(userEmail).Some?)
    ensures Conforms(db) && r.Success? ==>
              forall x :: x in r.value <==>
                x in Records(db["followers"].records) && "followingEmail" in x && KeyOf(x["followingEmail"]).Some?
                && (userEmail.VNull? || KeyOf(x["followingEmail"]) == KeyOf(userEmail))
  {
    GetAllFromIndex(db, "followers", "following", userEmail)
  }

  /** `getFollowing(e)`: the follow records whose `followerEmail` is `e`, or with `null` every
      follow record whose `followerEmail` is a key. */
  function GetFollowing(db: Db, userEmail: Value): (r: Result<seq<Record>, DbError>)
    ensures Conforms(db) ==> (r.Success? <==> userEmail.VNull? || KeyOf(userEmail).Some?)
    ensures Conforms(db) && r.Success? ==>
              forall x :: x in r.value <==>
                x in Records(db["followers"].records) && "followerEmail" in x && KeyOf(x["followerEmail"]).Some?
                && (userEmail.VNull? || KeyOf(x["followerEmail"]) == KeyOf(userEmail))
  {
    GetAllFromIndex(db, "followers", "follower", userEmail)
  }
}
