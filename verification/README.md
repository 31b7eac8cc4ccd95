# moji-code client core in Dafny

A model of the client-side core of moji-code, a small social posting web application:

- the IndexedDB record database (`client/js/database.js`): six object stores, the generic
  add / get / getAll / index-getAll / put / delete wrappers, and the user, post, media, comment,
  like and follow operations built on them, including password hashing and verification;
- the offline service worker (`service-worker.js`): install, activate, the fetch router with its
  cache-first static path and its API path with background sync, and the `sync-posts` replay;
- the rich editor's history and media state (`client/js/media-editor.js`);
- the post creator's draft (`client/js/post-creator.js`);
- form validation and toast icons (`client/js/components.js`);
- the login session (`client/js/session.js`);
- the text heuristics and request memo of the AI module (`client/js/ai.js`);
- the theme controller and scroll animation (`client/js/controllers.js`);
- the performance observer registry (`client/js/performance.js`);
- response parsing, input sanitizing and request batching of the AI assistant
  (`client/js/ai-assistant.js`).

Every operation is a pure function (or a short method) over immutable state: an operation that
mutates `this` or the browser returns the new state. Time (`Date.now()`), randomness, SHA-256,
the network, uploads and regular-expression tests the model does not spell out are parameters.

Modules:

| module | file | models |
|---|---|---|
| `Wrappers` | wrappers.dfy | `Option` and `Result` |
| `Hex` | hex.dfy | `b.toString(16).padStart(2, '0')` joined over bytes, with its decoder |
| `Values` | values.dfy | the JavaScript values stored in records, truthiness, `===`, `String(v)` |
| `Keys` | keys.dfy | IndexedDB keys and their total order |
| `Text` | text.dfy | `trim`, `includes`, `toLowerCase`, `split` on a character and on `/\s+/`, `/\W+/`, `toString` on integers |
| `ObjectStore` | object_store.dfy | one IndexedDB object store (W3C Indexed Database API 2.0) |
| `Database` | database.dfy | `database.js` |
| `ServiceWorker` | service_worker.dfy | `service-worker.js` |
| `MediaEditor` | media_editor.dfy | `media-editor.js` |
| `PostCreator` | post_creator.dfy | `post-creator.js` |
| `Components` | components.dfy | `components.js` |
| `Session` | session.dfy | `session.js` |
| `Ai` | ai.dfy | `ai.js` |
| `Controllers` | controllers.dfy | `controllers.js` |
| `Performance` | performance.dfy | `performance.js` |
| `AiAssistant` | ai_assistant.dfy | `ai-assistant.js` |

## Model

| member | source | states |
|---|---|---|
| Hex.HexEncode | client/js/database.js:316-318 | each byte becomes exactly two lowercase hex digits |
| Hex.HexRoundTrip | client/js/database.js:316-318 | the hex rendering of a digest reads back as the same bytes |
| Hex.HexEncodeInjective | client/js/database.js:316-318 | different digests never render as the same hex string |
| Hex.DigitValue | client/js/database.js:317 | a character has a hex value exactly when it is a lowercase hex digit, and the value is below 16 |
| Keys.StrLessIrreflexive | client/js/database.js:270 | the string key order that `getAll` returns records in is irreflexive |
| Keys.StrLessTransitive | client/js/database.js:270 | the string key order is transitive |
| Keys.StrLessTotal | client/js/database.js:270 | any two different string keys are ordered one way or the other |
| Keys.LessTransitive | client/js/database.js:270 | the key order (numbers before strings) is transitive |
| Keys.LessTotal | client/js/database.js:270 | any two different keys are ordered |
| Keys.KeyOf | client/js/database.js:259 | `store.get(key)` accepts exactly strings and numbers as keys |
| Keys.ValueOf | client/js/database.js:35 | a generated key written back into a record converts to the same key |
| Text.Trim | client/js/post-creator.js:235 | trim is empty exactly on all-whitespace input, and otherwise starts and ends with non-whitespace |
| Text.TrimIsInfix | client/js/post-creator.js:235 | the trimmed string is a slice of the input with only whitespace on either side |
| Text.TrimIdempotent | client/js/post-creator.js:235 | trimming a trimmed string changes nothing |
| Text.ContainsSurvivesTrim | client/js/ai.js:202-203 | a whitespace-free word found in a line is still found in the trimmed line |
| Text.SplitOnJoin | client/js/ai.js:200 | splitting on a character and joining with it gives the string back |
| Text.JoinThenSplit | client/js/ai.js:213 | joining pieces free of the separator and splitting on it gives the pieces back |
| Text.SplitOnRunsPieces | client/js/ai.js:160 | the pieces of a split on separator runs hold no separator, only the first and last may be empty, and those are non-empty when the text starts or ends with a non-separator |
| Text.SplitOnRunsKeepsContent | client/js/ai.js:160 | the pieces of a run split, concatenated, are exactly the non-separator characters of the input in order |
| Text.SplitOnRunsCountsWords | client/js/media-editor.js:397 | on text ending in a non-separator the run split has one piece per word, plus an empty first piece after a leading separator run |
| Text.ToLower | client/js/ai.js:160 | lower-casing keeps the length and folds each character |
| Text.NatToDecimalRoundTrip | client/js/session.js:74 | the decimal rendering of a number reads back as that number |
| Text.NatToDecimalInjective | client/js/media-editor.js:325 | two different millisecond readings render as different ids |
| Text.IntToDecimal | client/js/session.js:74 | `toString` of an integer starts with a minus sign exactly when it is negative |
| ObjectStore.Lookup | client/js/database.js:259 | `get` returns the record the store holds at the key, or nothing |
| ObjectStore.Insert | client/js/database.js:293 | writing a record is a map update at its key, and adds an entry only for a new key |
| ObjectStore.InsertAscending | client/js/database.js:293 | the store stays sorted by key after a write |
| ObjectStore.Remove | client/js/database.js:304 | deleting removes exactly the key from the map, and an entry only if the key was there |
| ObjectStore.RemoveAscending | client/js/database.js:304 | the store stays sorted by key after a delete |
| ObjectStore.Records | client/js/database.js:270 | `getAll` lists every record, in key order |
| ObjectStore.CountInsertFresh | client/js/database.js:248 | adding under a new key adds one to the count of every predicate the record meets |
| ObjectStore.CountRemove | client/js/database.js:304 | deleting a key subtracts one from the count of every predicate its record met |
| ObjectStore.FirstIndex | client/js/database.js:207 | `find` over `getAll` yields the first record in key order meeting the predicate, and nothing exactly when none does |
| ObjectStore.StoreRecord | client/js/database.js:248 | `add` fails with ConstraintError on an existing key and DataError without a key; on success the record, carrying its key at the key path, is stored under the intended key and nothing else changes |
| ObjectStore.Add | client/js/database.js:248 | `add` succeeds exactly when the record has a key that no record holds, fails with ConstraintError on a held key, and on success adds exactly that key and keeps every other record |
| ObjectStore.Put | client/js/database.js:293 | `put` succeeds exactly when the record has a key, and then stores it under that key, replacing any record there |
| ObjectStore.StoreRecordPreservesValid | client/js/database.js:293 | a successful add or put keeps every record keyed by its key path and the key generator ahead of every numeric key |
| ObjectStore.GeneratedKeyIsFresh | client/js/database.js:248 | a record without a key added to an auto-increment store gets a key no record holds, so the add succeeds |
| ObjectStore.Delete | client/js/database.js:304 | `delete` removes the key, and deleting an absent key changes nothing |
| ObjectStore.DeletePreservesValid | client/js/database.js:304 | a delete keeps the store valid |
| ObjectStore.CountAfterAdd | client/js/database.js:248 | a successful `add` adds one to the count of every predicate the new record meets |
| ObjectStore.CountAfterDelete | client/js/database.js:304 | `delete` subtracts one from the count of every predicate the removed record met |
| ObjectStore.Matching | client/js/database.js:282 | the records a query selects, listed in primary-key order: exactly those with a valid index key in the query's range, as many as there are, and nothing from outside the store |
| ObjectStore.MatchingAppend | client/js/database.js:282 | records are selected one at a time, so `Matching` keeps primary-key order: matching a concatenation concatenates the matches |
| ObjectStore.MatchingSingle | client/js/database.js:282 | one record is returned exactly when the query selects it |
| ObjectStore.GetAllByIndex | client/js/database.js:281 | naming an index the store lacks fails with NotFoundError, and only then; otherwise the result is the selected records in index order |
| ObjectStore.IndexScan | client/js/database.js:282 | an index query returns one record per selected entry of the store |
| ObjectStore.IndexScanMembers | client/js/database.js:282 | an index query returns exactly the selected records of the store |
| ObjectStore.IndexScanSorted | client/js/database.js:282 | the records an index query returns ascend by index key |
| ObjectStore.IndexScanIsIndexOrder | client/js/database.js:282 | any listing of the selected entries by index key, then primary key, is the listing the query returns |
| ObjectStore.IndexOrderedUnique | client/js/database.js:282 | two listings of the same entries that are both in index order are the same listing |
| ObjectStore.SortByIndexOrdered | client/js/database.js:282 | sorting entries that all have an index key puts them in index order and keeps exactly the same entries |
| ObjectStore.OnlyScanIsMatching | client/js/database.js:282 | a single-key query returns its records in primary-key order |
| ObjectStore.UnboundedScanOrdersByIndexKey | client/js/database.js:282 | a `null` query returns comments with `postId` 2 and 1, stored under ids 1 and 2, as the second and then the first |
| Database.Schema | client/js/database.js:28-65 | every store starts empty; only `users` has no key generator |
| Database.Upgrade | client/js/database.js:23-67 | the upgrade adds the six stores, creating only the missing ones and keeping those present |
| Database.UpgradeIdempotent | client/js/database.js:27-62 | running the upgrade again changes nothing |
| Database.UpgradeConforms | client/js/database.js:23-67 | a freshly upgraded database holds every store with its schema and a valid store invariant |
| Database.AddToStore | client/js/database.js:244-253 | `add` succeeds exactly when the store exists and the record yields a key no record holds; it then resolves with that key, whose record extends the data, and changes only that store; a record without a usable key is a DataError and a taken key a ConstraintError, changing nothing |
| Database.GetFromStore | client/js/database.js:255-264 | `get` fails on a missing store or a non-key, and otherwise returns the stored record exactly when the key is present |
| Database.GetAllFromStore | client/js/database.js:266-275 | `getAll` returns every record of the store in key order, and fails only on a missing store |
| Database.QueryOf | client/js/database.js:282 | `null` is the unbounded range, a string or number selects that key, and every other value is rejected |
| Database.GetAllFromIndex | client/js/database.js:277-287 | a missing store or index fails with NotFoundError before the query is looked at, an invalid query with DataError, and otherwise the result is exactly the selected records in index order (by index key, then primary key), `null` selecting every record with a valid index key |
| Database.UpdateInStore | client/js/database.js:289-298 | `put` succeeds exactly when the store exists and the record yields a key; the record written there is the data with the key at its key path and no other field, and every other record is kept |
| Database.DeleteFromStore | client/js/database.js:300-309 | `delete` fails on a missing store or a non-key; a valid key is removed from the store and nothing else changes, so an absent key changes nothing |
| Database.DeleteKey | client/js/database.js:300-309 | with the key converted, a delete fails exactly on a missing store or a non-key, and otherwise removes exactly that key from that store |
| Database.HashPassword | client/js/database.js:312-319 | the hash is 64 lowercase hex digits that decode to the SHA-256 digest of the password |
| Hex.HexDecodeInverse | client/js/database.js:316-318 | a string that decodes is the encoding of its bytes: each digest has exactly one lowercase spelling |
| Database.VerifyPassword | client/js/database.js:321-324 | a password verifies exactly when the stored value is a string spelling the password's digest in lowercase hex |
| Database.VerifyPasswordMeansSameDigest | client/js/database.js:321-324 | a password verifies against a stored hash exactly when its digest equals the original password's digest |
| Database.NewUser | client/js/database.js:76-81 | the stored user has the caller's fields, the hashed password and both timestamps set to now |
| Database.CreateUser | client/js/database.js:72-84 | creating a user succeeds exactly when the email is not taken, and stores the hashed user record under it |
| Database.AuthenticateUser | client/js/database.js:86-100 | a missing store or a non-key email fails as the store request does, an unknown email with UserNotFound; a present user whose hash the password verifies gets the record without its password, and any other password gives InvalidPassword |
| Database.CreateThenAuthenticate | client/js/database.js:72-100 | a created user authenticates with a password of the same digest, getting the record without the hash, and any other digest is InvalidPassword |
| Database.Merge | client/js/database.js:108-112 | the merged record has the update's fields over the prior fields and `updatedAt` set to now |
| Database.UpdateRecord | client/js/database.js:102-115 | a missing record fails with the not-found error; otherwise the update succeeds exactly when the merged record has a key, that key then holds a record extending the merged one, and every other record of the store is kept |
| Database.UpdateInPlace | client/js/database.js:137-150 | an update that does not touch the key field replaces the record at its key with the merged record |
| Database.UpdateUser | client/js/database.js:102-115 | updating an unknown user fails with UserNotFound and changes nothing |
| Database.UpdateUserEmailKeepsOldRecord | client/js/database.js:102-115 | changing a user's email writes a second record under the new email and leaves the old record in place |
| Database.NewPost | client/js/database.js:119-124 | a new post has the caller's fields with the timestamp, zero likes and no comments overriding them |
| Database.CreatePost | client/js/database.js:118-127 | a stored post extends the new post record |
| Database.CreatePostSucceeds | client/js/database.js:118-127 | a post without an id is stored under the next generated key |
| Database.Filter | client/js/database.js:132 | the filter keeps exactly the records meeting the predicate, never more than it is given; their order is stated by FilterAppend and FilterSingle |
| Database.FilterAppend | client/js/database.js:132 | filtering a concatenation filters each part, so kept records keep their relative order |
| Database.FilterSingle | client/js/database.js:132 | one record is kept exactly when it meets the predicate |
| Database.Kept | client/js/database.js:132 | the entries kept are exactly the store's entries whose record meets the predicate |
| Database.KeptAscending | client/js/database.js:132 | keeping entries keeps them in ascending key order |
| Database.KeptRecords | client/js/database.js:132 | the kept entries' records are what filtering the store's records gives |
| Database.GetPosts | client/js/database.js:129-135 | with a truthy email, exactly that author's posts, listed in ascending key order as `filter` keeps the order of `getAll`; otherwise all posts in key order |
| Database.UpdatePost | client/js/database.js:137-150 | updating a missing post fails with PostNotFound and changes nothing |
| Database.DeletePost | client/js/database.js:152-154 | deleting a post removes exactly its key from the posts store and touches no other store |
| Database.NewMedia | client/js/database.js:158-164 | the media record holds the blob, owner, type, byte size and time |
| Database.StoreMedia | client/js/database.js:157-167 | stored media extends the media record |
| Database.GetMedia | client/js/database.js:169-171 | `getMedia` returns the media record at the key, if any |
| Database.DeleteMedia | client/js/database.js:173-175 | deleting media removes exactly its key from the media store and touches no other store |
| Database.AddComment | client/js/database.js:178-185 | a stored comment is the caller's comment stamped with the current time |
| Database.GetComments | client/js/database.js:187-190 | the query succeeds exactly on a key or `null`; the result is the stored records whose `postId` is a valid key equal to the argument, or any valid key for `null` |
| Database.FindPair | client/js/database.js:205-208 | `find` yields a record pairing both values, and nothing exactly when no record does |
| Database.Toggle | client/js/database.js:193-203 | a toggle answers true exactly when no pairing was found, and a failure changes nothing |
| Database.ToggleCounts | client/js/database.js:193-203 | a toggle adds a pairing when there is none and removes one otherwise, leaving every other pairing's count and every other store as they were |
| Database.ToggleAddsPair | client/js/database.js:199-201 | toggling an absent pairing adds exactly one record for it and answers true |
| Database.ToggleRemovesPair | client/js/database.js:196-198 | toggling a present pairing deletes one record for it and answers false |
| Database.ToggleTwiceRestoresCounts | client/js/database.js:193-203 | two toggles in a row restore the count of every pairing and give opposite answers |
| Database.GetLike | client/js/database.js:205-208 | `getLike` finds a like of that post by that user, and nothing exactly when there is none |
| Database.ToggleLike | client/js/database.js:193-203 | liking answers true exactly when no like of that post by that user was found, touches only the likes store, and turns a count of zero pairings into one and any other count into one fewer; a failure changes nothing |
| Database.ToggleLikeTwice | client/js/database.js:193-203 | liking twice restores the count of every (post, user) pairing |
| Database.GetFollow | client/js/database.js:227-233 | `getFollow` finds a follow record for that pair, and nothing exactly when there is none |
| Database.ToggleFollow | client/js/database.js:211-225 | following answers true exactly when no follow record for the pair was found, touches only the follows store, and turns a count of zero pairings into one and any other count into one fewer; a failure changes nothing |
| Database.ToggleFollowKeepsPairsUnique | client/js/database.js:211-225 | following keeps at most one record per (follower, following) pair |
| Database.GetFollowers | client/js/database.js:235-237 | the query succeeds exactly on a key or `null`; the result is the stored records whose `followingEmail` is a valid key equal to the argument, or any valid key for `null` |
| Database.GetFollowing | client/js/database.js:239-241 | the query succeeds exactly on a key or `null`; the result is the stored records whose `followerEmail` is a valid key equal to the argument, or any valid key for `null` |
| ServiceWorker.Open | service-worker.js:27 | opening a cache keeps an existing one and otherwise adds an empty one last |
| ServiceWorker.DeleteCache | service-worker.js:45 | deleting a cache removes exactly that name |
| ServiceWorker.Match | service-worker.js:70 | a GET matches exactly when some cache holds its URL, and yields a stored response |
| ServiceWorker.Put | service-worker.js:88 | a put stores a GET's response under its URL in the named cache and leaves every other cache alone |
| ServiceWorker.AddAll | service-worker.js:29 | `addAll` stores only when every fetch succeeds with an accepted status, and then holds every URL |
| ServiceWorker.AddAllStores | service-worker.js:29 | a successful `addAll` keeps old entries for URLs not fetched and stores each URL's network response |
| ServiceWorker.Install | service-worker.js:25-35 | install creates the cache and, on success, holds every manifest entry; on failure the cache exists but nothing is added |
| ServiceWorker.Activate | service-worker.js:38-54 | activation deletes every cache but the current one, which keeps its contents |
| ServiceWorker.InstallThenActivate | service-worker.js:25-54 | after install and activate only the current cache remains and it holds the whole manifest |
| ServiceWorker.ActivateIdempotent | service-worker.js:38-54 | activating twice is activating once |
| ServiceWorker.PrefixTestAdmitsOtherHost | service-worker.js:59 | the prefix test intercepts a URL on another host whose name begins with the origin's host |
| ServiceWorker.RouteAsWritten | service-worker.js:57-66 | as written, a request is intercepted exactly when its URL starts with the origin string, and goes to the API path exactly when it also contains `/api/` |
| ServiceWorker.Route | service-worker.js:57-66 | (corrected) a request is intercepted exactly when it is same-origin, and goes to the API path exactly when its URL contains `/api/` |
| ServiceWorker.SameOriginMeansPathFollows | service-worker.js:59 | the corrected test accepts the origin followed by nothing or a path, and nothing else |
| ServiceWorker.RouteNarrowsAsWritten | service-worker.js:59 | every URL the corrected test accepts passes the prefix test, but not the other way round |
| ServiceWorker.StaticFetch | service-worker.js:69-94 | a cache hit answers without the network; a miss fetches, and stores a copy only of a 200 basic response |
| ServiceWorker.StaticMissThenHit | service-worker.js:69-94 | a GET that missed and was cached is answered the next time without a network request |
| ServiceWorker.MissThenPutHits | service-worker.js:86-89 | once stored, a GET no cache held is answered with exactly the stored response |
| ServiceWorker.ApiFetch | service-worker.js:98-110 | with Background Sync the request goes to the network, and on failure is queued and answered from the cache; without it the event is not handled |
| ServiceWorker.HandleFetch | service-worker.js:57-95 | (corrected) cross-origin requests are left alone, API requests never change the caches, and static requests never queue |
| ServiceWorker.HandleFetchAsWritten | service-worker.js:57-110 | as written, a URL not starting with the origin string is left alone; an API request is intercepted exactly with Background Sync, never changes the caches, and is queued when the network fails; a static request is intercepted, never queues, and goes to the network on a cache miss |
| ServiceWorker.HandlersAgreeOffLookalikes | service-worker.js:57-110 | the handler as written and the corrected one agree on every same-origin URL and every URL not starting with the origin string |
| ServiceWorker.AsWrittenInterceptsOtherHost | service-worker.js:59-110 | as written, a request to a host whose name extends the origin's host is intercepted and re-fetched, queued for sync on a failed `/api/` fetch, never cached while only same-origin responses are basic, and the corrected handler leaves it alone |
| ServiceWorker.Sync | service-worker.js:113-127 | the `sync-posts` tag re-sends exactly the pending requests; any other tag sends nothing |
| MediaEditor.SaveToHistory | client/js/media-editor.js:369-375 | saving pushes the current HTML, drops the oldest snapshot past 100, and empties the redo stack |
| MediaEditor.Undo | client/js/media-editor.js:377-384 | undo shows the top snapshot and pushes the current HTML on the redo stack; with nothing to undo it does nothing |
| MediaEditor.Redo | client/js/media-editor.js:386-393 | redo shows the top redo snapshot and pushes the current HTML on the undo stack; with nothing to redo it does nothing |
| MediaEditor.UndoRedoRoundTrip | client/js/media-editor.js:377-393 | a direct undo then redo, or redo then undo, restores the editor |
| MediaEditor.HistoryStaysBounded | client/js/media-editor.js:369-393 | saving, undoing and redoing keep both stacks together within 100 snapshots |
| MediaEditor.HistoryCommandsAreNoOps | client/js/media-editor.js:254-263 | as written, the undo and redo commands leave the HTML on screen unchanged |
| MediaEditor.UndoCommandDoesNotUndo | client/js/media-editor.js:254-260 | after editing "a" into "b", the undo command still shows "b" |
| MediaEditor.ExecuteCommandAsWritten | client/js/media-editor.js:254-263 | as written, the undo command saves the HTML and pops it straight back to the redo stack, and the redo command saves the HTML and so finds an empty redo stack; every other command behaves as in the corrected routing |
| MediaEditor.ExecuteCommand | client/js/media-editor.js:254-293 | (corrected) history commands undo or redo, and any other command saves the HTML, applies the command and empties the redo stack |
| MediaEditor.CommandUndoRedo | client/js/media-editor.js:254-293 | with history commands routed directly, a formatting command can be undone and the undo redone |
| MediaEditor.Shown | client/js/media-editor.js:313-331 | the previews that go in are at most one per file |
| MediaEditor.HandleFilesWith | client/js/media-editor.js:313-331 | the stored ids are those of the admitted files, only the first of them when the selection has no range; the HTML changes only with the caret in the editor, by the previews in order; history and recorded content stay |
| MediaEditor.HandledIds | client/js/media-editor.js:313-331 | the stored ids are the first file's, if admitted, then the rest's unless the first ended the handling |
| MediaEditor.HandledShift | client/js/media-editor.js:313-331 | past the first file, a file is stored exactly as from the rest of the batch, and nothing after a first admitted file without a range |
| MediaEditor.ShownCons | client/js/media-editor.js:362-367 | an admitted first file's preview goes in first and the caret stays after it |
| MediaEditor.HandleFilesWithFrame | client/js/media-editor.js:313-331 | an id that no stored file gets keeps its entry or its absence |
| MediaEditor.HandleFilesWithStores | client/js/media-editor.js:313-331 | with distinct ids, every stored file is kept under its own id |
| MediaEditor.HandleFilesAsWritten | client/js/media-editor.js:313-331 | as written, the media ids are the millisecond readings of the stored files; with no selection range `getRangeAt(0)` throws after the first admitted file is stored; the HTML gains the previews only with the caret in the editor; rejected files change nothing |
| MediaEditor.ClockIds | client/js/media-editor.js:325 | the as-written id of each file is its millisecond reading in decimal |
| MediaEditor.SameMillisecondLosesFile | client/js/media-editor.js:325-326 | two files admitted in the same millisecond leave only the second when the page has a selection range, and only the first when it has none |
| MediaEditor.MediaIdInjective | client/js/media-editor.js:325 | time and batch index together give distinct ids |
| MediaEditor.BatchIds | client/js/media-editor.js:325 | (corrected) the ids of a batch are pairwise distinct |
| MediaEditor.HandleFiles | client/js/media-editor.js:313-331 | (corrected) every stored file is kept under its own id, entries no new id replaces stay, an all-rejected batch changes nothing; the selection's range and the previews behave as written |
| MediaEditor.NoRangeStoresFirstOnly | client/js/media-editor.js:326-329 | with no selection range, two admitted files leave only the first stored, since the preview step throws |
| MediaEditor.CaretInEditorInsertsPreviews | client/js/media-editor.js:362-367 | with the caret in the editor, each admitted file's preview is inserted into the HTML, in order |
| MediaEditor.WordCount | client/js/media-editor.js:395-402 | the character count is the text's length, and the word count is at least one |
| MediaEditor.WordCountCountsWords | client/js/media-editor.js:397 | the word count is the number of whitespace-separated words, with blank text counting as one |
| MediaEditor.Clear | client/js/media-editor.js:423-431 | clear empties the content, the media and both stacks |
| MediaEditor.ClearForgetsHistory | client/js/media-editor.js:423-431 | after clear, undo and redo do nothing and the status shows one word and no characters |
| PostCreator.AddTag | client/js/post-creator.js:330-335 | a new tag is appended and a present tag changes nothing |
| PostCreator.RemoveTag | client/js/post-creator.js:337-343 | removing splices the first occurrence of the tag out of its place, the other tags keeping their order, and an absent tag changes nothing |
| PostCreator.AddTagKeepsDistinct | client/js/post-creator.js:330-335 | adding keeps tags duplicate-free and adds exactly the tag to the set of tags |
| PostCreator.RemoveTagKeepsDistinct | client/js/post-creator.js:337-343 | removing from duplicate-free tags removes exactly that tag from the set of tags |
| PostCreator.AddThenRemoveTag | client/js/post-creator.js:330-343 | adding a new tag and removing it gives the post back |
| PostCreator.TagInputEnter | client/js/post-creator.js:234-238 | Enter adds the trimmed input and empties the field; blank input changes nothing |
| PostCreator.EnteredTagIsTrimmed | client/js/post-creator.js:234-238 | tags entered through the input are non-empty, trimmed and distinct |
| PostCreator.ValidatePost | client/js/post-creator.js:408-420 | a blank title gives the title message first, then a blank content gives the content message |
| PostCreator.ValidatePostMeansNonBlank | client/js/post-creator.js:408-420 | a post passes exactly when both title and content have a non-whitespace character |
| PostCreator.ProcessMediaFiles | client/js/post-creator.js:422-441 | processing succeeds exactly when every upload does, giving one `{id, url, type}` per item in order; otherwise it fails with the first upload's error |
| PostCreator.Clear | client/js/post-creator.js:454-462 | clear restores the empty post |
| PostCreator.ClearedPostIsBlank | client/js/post-creator.js:454-462 | a cleared post fails validation on the title, has no tag to remove, and takes any first tag |
| Components.IsValidEmail | client/js/components.js:169-171 | a valid address has at least five characters and neither starts nor ends with `@`; the regular expression is matched exactly (IsValidEmailMatchesPattern) |
| Components.IsValidEmailMatchesPattern | client/js/components.js:169-171 | the email characterisation agrees with the regular expression in both directions |
| Components.ValidateField | client/js/components.js:149-167 | an empty required value gives the required message, and no error exactly when every set rule passes |
| Components.ValidateFieldIsFirstFailure | client/js/components.js:149-167 | the message is that of the first failing rule in the order required, email, minimum length, pattern |
| Components.EmptyOptionalEmailFails | client/js/components.js:154-156 | an empty value under a non-required email rule still fails with the email message |
| Components.MinLengthRule | client/js/components.js:158-160 | an unset minimum never fails, and a set minimum fails exactly on shorter values |
| Components.ErrorsAreFailingFields | client/js/components.js:131-144 | the errors map holds exactly the fields whose rule fails, each with its message |
| Components.ValidateForm | client/js/components.js:128-147 | the form is valid exactly when no field with an input fails, and the errors are exactly the failing fields' messages |
| Components.ToastIcon | client/js/components.js:35-43 | each toast type gets its icon; a name inherited from `Object.prototype` gives that inherited member, and any other type the info icon |
| Components.ToastIconsDistinct | client/js/components.js:35-43 | distinct toast types get distinct icon names |
| Components.ToastIconIsNameOffPrototype | client/js/components.js:35-43 | the result is an icon name exactly when the type is not a name inherited from `Object.prototype` |
| Session.GenerateToken | client/js/session.js:78-82 | the token is 32 lowercase hex digits that decode to the random bytes |
| Session.SetSessionTimeout | client/js/session.js:65-75 | the expiry time is stored as a non-empty string and the session is untouched |
| Session.CreateSession | client/js/session.js:9-19 | a new session holds the JSON copy of the user, the first clock reading as its creation time, a 32-digit token, and expiry 24 hours after the second reading, mirrored as a decimal string |
| Session.ClearSession | client/js/session.js:48-52 | both storage keys are removed |
| Session.GetSession | client/js/session.js:22-33 | the stored session, as its JSON text parses, is returned until its expiry has passed, after which it is cleared and nothing is returned |
| Session.IsLoggedIn | client/js/session.js:36-39 | logged in exactly when a live session is read |
| Session.GetCurrentUser | client/js/session.js:42-45 | the live session's user, and nothing exactly when not logged in |
| Session.ExtendSession | client/js/session.js:55-62 | a session live at the check reading gets 24 hours from the second reading with user, token and creation time kept; otherwise only an expired session is cleared |
| Session.CreatedSessionLifetime | client/js/session.js:9-33 | a new session is live through its last millisecond, with the JSON copy of the user as current user, and afterwards expires, clearing both keys |
| Session.ExtendRenewsLifetime | client/js/session.js:55-62 | after extending, the same user and token stay live for 24 hours from the second reading, even when the session ran out between the two readings |
| Session.GetSessionStable | client/js/session.js:22-52 | a second read at the same time sees the same outcome, and nothing survives clearing |
| Ai.Words | client/js/ai.js:160 | the lower-cased split yields at least one piece and no piece holds a non-word character |
| Ai.AnalyzeSentiment | client/js/ai.js:155-171 | the sentiment is positive, negative or neutral exactly as positive words outnumber, are outnumbered by, or equal negative words |
| Ai.ScoreIgnoresCase | client/js/ai.js:160 | the sentiment does not depend on letter case |
| Ai.CountOf | client/js/ai.js:180-184 | a word's count is positive exactly when it occurs |
| Ai.Candidates | client/js/ai.js:179-184 | the counted words are exactly the distinct words longer than three characters |
| Ai.MaxIndexIsFirstMax | client/js/ai.js:187-188 | the candidate picked is counted at least as often as every other and more often than every one before it |
| Ai.TopFromCandidates | client/js/ai.js:187-190 | every selected topic is a counted word |
| Ai.TopDistinct | client/js/ai.js:187-192 | the selected topics are distinct |
| Ai.TopKeepsMostFrequent | client/js/ai.js:187-190 | no word left out of the selection is counted more often than one kept |
| Ai.TopDescending | client/js/ai.js:187-189 | the selection lists its words by descending count, as the sort orders them |
| Ai.TopsDescend | client/js/ai.js:187-190 | the three picked candidates are words longer than three characters, most frequent first |
| Ai.Topics | client/js/ai.js:179-190 | at most three words longer than three characters, most frequent first |
| Ai.ExtractTopics | client/js/ai.js:174-193 | at most three topics, each a word of the text longer than three characters, most frequent first |
| Ai.ExtractTopicsAreMostFrequent | client/js/ai.js:174-193 | the topics are distinct, as many as there are qualifying words up to three, and no qualifying word left out occurs more often than a topic |
| Ai.SuggestionLines | client/js/ai.js:200-205 | each picked line is non-empty, trimmed and mentions a suggestion or recommendation |
| Ai.SuggestionLinesAppend | client/js/ai.js:201-205 | lines are picked one at a time: picking from a concatenation concatenates the picks |
| Ai.SuggestionLinesSingle | client/js/ai.js:201-205 | one line is kept, trimmed, exactly when it is not blank and mentions a suggestion |
| Ai.GenerateSuggestions | client/js/ai.js:196-208 | each suggestion is a non-empty trimmed line of the analysis that mentions a suggestion |
| Ai.StripNumbering | client/js/ai.js:215 | stripping leaves the line or a suffix of it that follows a dot |
| Ai.StripNumberingInverse | client/js/ai.js:215 | numbering written as `n. ` comes off, and a line not starting with a digit is kept |
| Ai.ParseSuggestions | client/js/ai.js:211-216 | one entry per kept line, in order, each stripped of its numbering |
| Ai.NonBlankAppend | client/js/ai.js:214 | lines are filtered one at a time: the kept lines of a concatenation are those of each part, in order |
| Ai.NonBlankSingle | client/js/ai.js:214 | a single line is kept exactly when it is not blank |
| Ai.NonBlankSound | client/js/ai.js:214 | every kept line is a non-blank line of the input |
| Ai.NumberedLine | client/js/ai.js:213-215 | a line `n. item` holds no line break, is not blank, and loses exactly its numbering |
| Ai.ParseNumberedList | client/js/ai.js:211-216 | a numbered list joined by line breaks parses back into exactly its items, for items without a line break or leading whitespace |
| Ai.ParseTwoLines | client/js/ai.js:211-216 | two non-blank lines give two stripped entries |
| Ai.Memo | client/js/ai.js:17-43 | a cached key is answered without a request; a miss requests, caches a success and turns a failure into the operation's message |
| Ai.MemoSecondCallHits | client/js/ai.js:17-39 | after a successful call the same key is answered from the cache, whatever the request would say |
| Ai.AnalyzeContent | client/js/ai.js:16-44 | a cached analysis is returned without a request; otherwise the cached and returned analysis carries the text's sentiment, the reply's extracted topics and the reply's suggestions, or the call fails with its message |
| Ai.GenerateImage | client/js/ai.js:47-70 | a cached URL is returned without a request; otherwise the first image URL is cached and returned, or the call fails with its message |
| Ai.GetSuggestions | client/js/ai.js:73-96 | cached suggestions are returned without a request; otherwise the parsed suggestions of the reply are cached and returned, or the call fails with its message |
| Ai.PrefixesSeparateOperations | client/js/ai.js:17 | the three key prefixes keep the operations' cache entries apart |
| Ai.AnalysisServedFromCache | client/js/ai.js:16-70 | a cached analysis is served without a request even after an image request in between |
| Controllers.PaletteOf | client/js/controllers.js:4-28 | light, dark and custom are the known themes with their palettes; a name inherited from `Object.prototype` is known and sets no property |
| Controllers.SetProperties | client/js/controllers.js:44-46 | `setProperty` writes each non-empty value, removes each property given the empty string, and keeps every other property |
| Controllers.ApplyTheme | client/js/controllers.js:36-49 | applying a known theme sets every non-empty property of its palette, removes those given as empty, keeps the others, makes it current and persists it; an unknown theme throws before any change |
| Controllers.BuiltInPalettesShareProperties | client/js/controllers.js:5-26 | light and dark set the same nine properties with different background colours |
| Controllers.ToggleTheme | client/js/controllers.js:52-55 | light toggles to dark and anything else to light, with that palette set and persisted |
| Controllers.ToggleTwice | client/js/controllers.js:52-55 | toggling twice returns to a built-in theme, and from custom lands on dark |
| Controllers.ApplyThemeIdempotent | client/js/controllers.js:36-49 | applying the same theme again changes nothing |
| Controllers.LoadTheme | client/js/controllers.js:58-68 | a saved theme is applied, else dark when the system prefers it, else nothing changes |
| Controllers.NewThemeController | client/js/controllers.js:29-33 | the constructor fails exactly when the saved theme is unknown, and starts with an empty custom palette |
| Controllers.LoadedTheme | client/js/controllers.js:29-68 | the starting theme is the saved one, else dark by system preference, else light with nothing set |
| Controllers.ReloadedCustomThemeSetsNothing | client/js/controllers.js:58-61 | reloading with `custom` saved makes it current but sets no property |
| Controllers.SystemSchemeChanged | client/js/controllers.js:71-78 | a change of system scheme sets every one of the nine properties to its dark or light value, keeps the other properties and the custom palette, and makes that theme current and persisted |
| Controllers.SchemeChangeAgreesWithToggle | client/js/controllers.js:52-78 | a dark scheme from light, or a light scheme from dark, is the same as toggling, and the same scheme twice is the same as once |
| Controllers.CreateCustomTheme | client/js/controllers.js:81-87 | the custom palette is light overridden by the given colours and is applied: a non-empty colour is set, an empty one removes its property, and every other property is kept |
| Controllers.CustomThemeExtremes | client/js/controllers.js:81-87 | no overrides give light, and overriding every light property gives exactly the overrides |
| Controllers.AddScrollAnimation | client/js/controllers.js:231-247 | the element gets the class, three data attributes from the options over the defaults, and is observed |
| Controllers.ScrollAnimationDefaultsAndRepeat | client/js/controllers.js:231-247 | without options the defaults are written, and adding twice is adding once |
| Performance.AddObserver | client/js/performance.js:211-216 | adding creates the metric's set if needed and appends a callback not yet present; a present one changes nothing |
| Performance.Without | client/js/performance.js:220 | `Set.delete` keeps exactly the other members; an absent member changes nothing |
| Performance.WithoutAppend | client/js/performance.js:220 | deleting distributes over concatenation, so the other callbacks keep their order |
| Performance.WithoutSingle | client/js/performance.js:220 | a single callback is deleted exactly when it is the one named |
| Performance.WithoutSplices | client/js/performance.js:220 | in a set, deleting a member splices it out of its place |
| Performance.RemoveObserver | client/js/performance.js:218-222 | removing takes the callback out of a known metric's set, splicing it out of its place so the others keep insertion order, and leaves unknown metrics and other sets alone |
| Performance.NotifyObservers | client/js/performance.js:224-230 | the callbacks of the metric are called in insertion order with the metric's value until one throws, which ends the notification; without a throw every one is called |
| Performance.CallUntilThrow | client/js/performance.js:226-228 | `forEach` calls a prefix of the callbacks, all of them exactly when none throws, and otherwise stops at the first that throws |
| Performance.OperationsKeepValid | client/js/performance.js:211-222 | adding and removing keep every metric's callbacks duplicate-free |
| Performance.NotifyCallsEachOnce | client/js/performance.js:224-230 | a notification calls no callback twice and none unregistered, and each registered one exactly when no callback throws |
| Performance.RegisteredAfter | client/js/performance.js:211-222 | adding registers exactly one more pair and removing exactly one fewer |
| Performance.AddIdempotentRemoveUndoes | client/js/performance.js:211-222 | adding twice is adding once, and removing a just-added callback restores the registry |
| AiAssistant.ParseResponse | client/js/ai-assistant.js:161-171 | null or undefined fails with the first message; otherwise parsing succeeds exactly when `choices`, its first element and that element's `message` are all truthy, giving the message's `content`, and fails with the second message otherwise |
| AiAssistant.ParseReply | client/js/ai-assistant.js:163-164 | a reply parses to its first message's content |
| AiAssistant.ValidateResponse | client/js/ai-assistant.js:193-201 | validation passes exactly when the response is an object with a non-empty choices array, checking the object first |
| AiAssistant.ParseAndValidate | client/js/ai-assistant.js:161-201 | a parsed response with a choices array validates, and the two checks disagree in both directions otherwise |
| AiAssistant.RemoveMatchesFixpoint | client/js/ai-assistant.js:177-179 | a global replace by nothing changes the string exactly when the pattern matches in it |
| AiAssistant.SanitizeString | client/js/ai-assistant.js:177-180 | a sanitized string is trimmed and no longer than the script pass left it |
| AiAssistant.SanitizeScheme | client/js/ai-assistant.js:178 | sanitizing `javascript:` leaves nothing |
| AiAssistant.SanitizeNotIdempotent | client/js/ai-assistant.js:177-180 | one sanitizing pass can splice a new `javascript:` together, which only a second pass removes |
| AiAssistant.Sanitize | client/js/ai-assistant.js:174-190 | strings are sanitized, null throws, and other primitives are returned as they are |
| AiAssistant.SanitizeShape | client/js/ai-assistant.js:181-187 | sanitizing throws exactly when a null is reachable; objects keep their keys in order, arrays become index-keyed objects, and every value is sanitized |
| AiAssistant.Chunks | client/js/ai-assistant.js:211-212 | the batches concatenate to the requests, each non-empty and at most the batch size, all but the last full |
| AiAssistant.ChunksCount | client/js/ai-assistant.js:211 | the loop makes the ceiling of requests over batch size batches |
| AiAssistant.FirstError | client/js/ai-assistant.js:214 | a batch has no error exactly when every call in it succeeds |
| AiAssistant.RunBatchesResults | client/js/ai-assistant.js:210-220 | the loop succeeds exactly when every call does, and then returns every response in request order |
| AiAssistant.BatchProcess | client/js/ai-assistant.js:209-221 | `batchProcess` succeeds exactly when every call does, with one response per request in order |
| AiAssistant.BatchProcessSteps | client/js/ai-assistant.js:209-221 | batches of the given size are sent in order, with a rate-limit pause between consecutive batches and none before the first or after the last |

## Left out

- Lower-casing folds ASCII letters only; JavaScript's full Unicode case mapping is not modelled.
- Strings are sequences of characters; UTF-16 code units and surrogate pairs are not modelled.
- `TextEncoder` and SHA-256 are one function parameter from a password's text to 32 bytes.
- IndexedDB array keys, compound index key paths (the `name` index of `users`) and unique-index
  checks on `add` are not modelled: a compound index matches nothing.
- The database's asynchrony, `initDatabase`'s open request and transaction scheduling are not
  modelled: each store operation is one atomic step, and a failed request leaves the database as it was.
- `createUser` reads `Date.now()` twice; the model uses one reading for both timestamps.
- CreateSession: the JSON copy of the user data is the parameter `json`; a user that
  `JSON.stringify` rejects (a cycle, a BigInt) is not modelled as throwing.
- GetSession: storage holds the session as `JSON.parse` returns it; writing back a parsed session
  (`extendSession`) is taken to store the same value, as it does for JSON data.
- `getAll` returns records in key order; insertion order of equal keys does not arise.
- The service worker's promises are taken to settle in program order. The un-awaited `cache.put`
  on the static path is treated as completed before the next event.
- `self.skipWaiting()` and `clients.claim()` change no state the model has.
- The push and notification-click handlers (`service-worker.js:130-169`) are not modelled: they
  only display notifications.
- `saveRequestForSync` and `getPendingRequests` are not defined anywhere in the service worker;
  they are the parameters `save` and `pending`.
- Cache eviction by timer in the AI module, the session expiry timer and its `sessionExpired`
  event, and `clearTimeout` are not modelled: expiry is observed through `GetSession`.
- The rate-limit wait of `handleRateLimiting` is a `Pause` step; the one-second delay is not modelled.
- AiAssistant.BatchProcess: requires a positive batch size, because with 0 the source loop never ends.
- `Promise.all` inside a batch is modelled as calls in order; a batch's failure is its first failing call.
- The `<script>` pattern of `sanitizeInput` is the parameter `stripScripts`, not spelled out as
  a regular expression.
- `sanitizeInput` on objects: keys are taken as distinct, own properties only, and no
  `__proto__` key; `Object.entries` ordering of integer-like keys first is not modelled.
- JSON numbers are integers.
- The `\s` class and `\W` class are modelled as character predicates; `\s` covers the
  ECMAScript WhiteSpace and LineTerminator characters listed in `Text`.
- Performance metrics, FPS, memory and network measurements, and `needsOptimization` use
  floating point and browser timers, and are not modelled; only the observer registry is.
- The theme `themeChanged` event and the toast DOM are not modelled.
- ApplyTheme: property names are taken as custom properties; `setProperty` with a name that is
  not a CSS property is not modelled as ignored.
- ExtractTopics: a word named like an `Object.prototype` member (`constructor`, `toString`, …)
  starts from the inherited function in the source's plain-object `wordCount`, becomes a string,
  and makes the sort comparator return NaN, so the order is implementation-defined; `__proto__`
  never becomes an own key. The model counts such words like any other.
- NotifyObservers: a callback that changes the registry while the notification runs is not
  modelled; whether a callback throws is a parameter.
- Scroll-animation option values are their string forms; the `threshold` default configures the
  observer only and is not written to the element.
- Input wiring (event listeners, DOM queries, alerts) is not modelled beyond the state it
  changes. A media preview's markup and where the caret puts it are the parameter `insert`; a
  preview inserted outside the editor, and its remove button, are not modelled. `db.create` and `db.delete`, which the post creator calls, are not defined by the
  database module and are not part of this model; neither are drafts and publishing.
- The stable sort of `extractTopics` is modelled by repeatedly taking the first most frequent
  candidate; `Object.entries` ordering of integer-like word keys is not modelled.
- `getRealtimeSuggestion`, image text extraction and the API request itself are not modelled;
  request outcomes are parameters.
- Animations, three.js and interactive effects are outside the modelled core.

## Findings

| source | as written | input that shows it | evidently intended | confidence | as-written member | corrected member |
|---|---|---|---|---|---|---|
| service-worker.js:59 | "same origin" is `url.startsWith(origin)` | origin `https://moji.example`, URL `https://moji.example.evil.test/app.js`: the worker intercepts it and re-fetches it itself, and an `/api/` look-alike whose fetch fails is queued for sync (the foreign response is not basic, so it is not cached) | only URLs of the worker's own origin are handled | not executed | ServiceWorker.AsWrittenInterceptsOtherHost | ServiceWorker.HandleFetch |
| client/js/media-editor.js:254-263 | `executeCommand` saves to history before every command, `undo` and `redo` included | after editing "a" into "b", the undo command pushes "b" and pops it again, so "b" stays | the undo and redo buttons undo and redo | not executed | MediaEditor.UndoCommandDoesNotUndo | MediaEditor.CommandUndoRedo |
| client/js/media-editor.js:325-326 | the media id is `Date.now().toString()` inside a synchronous loop | two admitted files handled in the same millisecond while the page has a selection range: the second overwrites the first | every admitted file is kept | not executed | MediaEditor.SameMillisecondLosesFile | MediaEditor.HandleFiles |
