# Add/Delete Parameter: a verified model

This project models the parameter manager. A web client adds and deletes named
parameters. The server stores them in a database collection and mirrors the
collection to the flat file `Parameters.json`. The modelled core has two parts.

- **The server controller.** It lists, creates and bulk-deletes parameters. It
  rewrites the mirror file after a delete. It also runs a reconciliation cycle
  (`syncParametersFromFile`) that imports file records whose id the store lacks,
  then prunes stored records whose id the file lacks.
- **The client component.** It holds the fetched list, the set of ticked ids,
  the input text and an error banner. It changes them on add, checkbox toggle
  and delete.

Modules, one per component:

- `Text` (text.dfy): JavaScript's `trim` and the ASCII part of `toLowerCase`.
- `Store` (store.dfy): the records `{id, name, createdAt}`, the collection as a
  map from id to record, and the schema's required and case-sensitively unique
  name. It also holds class `Collection` with `find`, `save`, `deleteOne` and
  `deleteMany`.
- `Sync` (sync.dfy): the mirror file as `Missing`, `Malformed` or a record
  sequence, and one reconciliation cycle as the function `SyncStep`. All the
  cycle's properties are proved here as lemmas.
- `Controller` (controller.dfy): class `Server`, which holds the collection and
  the mirror file. Its methods are the request handlers and the cycle. The
  cycle is written with the source's two loops and proved equal to `SyncStep`.
- `Client` (client.dfy): class `ParameterManager`, whose methods are the
  component's transitions. Its pure helpers are the duplicate test and the
  post-delete filter. Two lemmas relate the client's checks to the server's.

The environment is handled as follows:

- Each server reply the client waits for is a parameter of the transition
  (`Reply`, or `succeeded`). This covers both success and failure.
- The id and the timestamp the database assigns on create are parameters of
  `CreateParameter`. The fresh id is required not to be stored already.
- The request bodies are modelled as JavaScript sees them. `name` is absent, a
  string, or a falsy or truthy non-string. `ids` is an array or not an array.
- In place of log lines, the cycle returns a `SyncReport`: skipped, parse
  error, aborted on a rejected save, or completed with the inserted ids (in
  file order) and the deleted ids.

Where the system's design description and the code disagree, the model follows
the code:

- The description asks the cycle to tolerate per-record failures. The code has
  one outer `try`/`catch`, so the first rejected save ends the cycle. Earlier
  inserts are not rolled back, and the prune pass does not run
  (`Sync.SyncAbortKeepsPartialImport`).
- The description asks for a guard so that two cycles never overlap. The code
  has no such guard. The model runs each cycle as one atomic call.
- A save a file record can fail is one whose name is empty or already stored
  with the same case. Such a record aborts the cycle. A name differing only in
  case is imported, so creation's case-insensitive uniqueness can be broken by a
  sync (`Sync.ImportAdmitsNamesDifferingInCase`).

## Model

| member | source | states |
|---|---|---|
| Text.TrimStart | Add-Delete-Parameter_new/Add-Delete-Parameter_new/backend/controler/parameter.controler.js:23 | the result is the suffix of the name left after dropping every leading whitespace character, and it starts with a non-whitespace character |
| Text.TrimEnd | Add-Delete-Parameter_new/Add-Delete-Parameter_new/backend/controler/parameter.controler.js:23 | the result is the prefix left after dropping every trailing whitespace character, and it ends with a non-whitespace character |
| Text.Trim | Add-Delete-Parameter_new/Add-Delete-Parameter_new/backend/controler/parameter.controler.js:23 | the result sits in the name at some offset with only whitespace before and after it, and neither starts nor ends with whitespace |
| Text.TrimEmptyIff | Add-Delete-Parameter_new/Add-Delete-Parameter_new/backend/controler/parameter.controler.js:23 | `name.trim() === ""` holds exactly when every character of the name is whitespace |
| Text.IsBlank | Add-Delete-Parameter_new/Add-Delete-Parameter_new/backend/controler/parameter.controler.js:23 | the blank-name test is true exactly when every character of the name is whitespace |
| Text.LowerCharAlike | Add-Delete-Parameter_new/Add-Delete-Parameter_new/frontend/src/App.jsx:33 | two characters fold to the same character exactly when they are equal or are one ASCII letter in its two cases |
| Text.SameIgnoringCaseIff | Add-Delete-Parameter_new/Add-Delete-Parameter_new/frontend/src/App.jsx:33 | two names agree under `toLowerCase` exactly when they have the same length and each position holds equal characters or one letter in its two cases |
| Text.LowerIdempotent | Add-Delete-Parameter_new/Add-Delete-Parameter_new/frontend/src/App.jsx:33 | folding a folded name changes nothing, and a folded name holds no ASCII capital |
| Text.FoldingIsNotInjective | Add-Delete-Parameter_new/Add-Delete-Parameter_new/backend/models/Parameter.js:7 | two names can differ case-sensitively and agree ignoring case, so the unique index is weaker than the creation check |
| Store.NameTakenImpliesTakenIgnoringCase | Add-Delete-Parameter_new/Add-Delete-Parameter_new/backend/controler/parameter.controler.js:27-37 | a name already stored exactly is found by the case-insensitive lookup, so a save after a lookup that found nothing never hits the unique index |
| Store.AdmissibleInsertWellFormed | Add-Delete-Parameter_new/Add-Delete-Parameter_new/backend/models/Parameter.js:4-8 | a save the schema admits keeps ids consistent, names non-empty and names unique |
| Store.Collection.Find | Add-Delete-Parameter_new/Add-Delete-Parameter_new/backend/controler/parameter.controler.js:10 | `find()` returns every stored record exactly once, each equal to the stored one |
| Store.Collection.Save | Add-Delete-Parameter_new/Add-Delete-Parameter_new/backend/models/Parameter.js:3-13 | a save succeeds exactly when the id is free, the name is non-empty and no stored record has that name; it then adds just that record, and otherwise changes nothing |
| Store.Collection.DeleteOne | Add-Delete-Parameter_new/Add-Delete-Parameter_new/backend/controler/parameter.controler.js:121 | removes the record with that id and nothing else |
| Store.Collection.DeleteMany | Add-Delete-Parameter_new/Add-Delete-Parameter_new/backend/controler/parameter.controler.js:60 | removes exactly the records whose id is listed; unknown ids are ignored |
| Sync.FileMap | Add-Delete-Parameter_new/Add-Delete-Parameter_new/backend/controler/parameter.controler.js:101-103 | each file id maps to the record at its last occurrence in the file |
| Sync.FileMapKeys | Add-Delete-Parameter_new/Add-Delete-Parameter_new/backend/controler/parameter.controler.js:101-103 | the keys of the file's id map are exactly the ids occurring in the file |
| Sync.FileMapOfListing | Add-Delete-Parameter_new/Add-Delete-Parameter_new/backend/controler/parameter.controler.js:73-80 | the mirror written from `find()` maps every id to exactly the stored record: file contents equal store contents |
| Sync.Import | Add-Delete-Parameter_new/Add-Delete-Parameter_new/backend/controler/parameter.controler.js:108-116 | the import pass can fail only at the index of a record in the file |
| Sync.ImportPreserves | Add-Delete-Parameter_new/Add-Delete-Parameter_new/backend/controler/parameter.controler.js:109-113 | the import pass never changes or removes a record the store already held |
| Sync.ImportKeys | Add-Delete-Parameter_new/Add-Delete-Parameter_new/backend/controler/parameter.controler.js:108-116 | after the import pass the store holds the old ids plus the ids of the records the pass got through; a failure is a record with a new id whose save the store rejects |
| Sync.ImportKeepsFields | Add-Delete-Parameter_new/Add-Delete-Parameter_new/backend/controler/parameter.controler.js:109-113 | a file record with a new id, at its first occurrence, is stored verbatim with its original id, name and timestamp |
| Sync.ImportInserted | Add-Delete-Parameter_new/Add-Delete-Parameter_new/backend/controler/parameter.controler.js:108-116 | the inserted ids are distinct (a repeated id is inserted once) and are exactly the ids the store gained |
| Sync.NoImportWhenAllPresent | Add-Delete-Parameter_new/Add-Delete-Parameter_new/backend/controler/parameter.controler.js:108-116 | when every file id is already stored the import pass inserts nothing |
| Sync.SyncStep | Add-Delete-Parameter_new/Add-Delete-Parameter_new/backend/controler/parameter.controler.js:87-130 | a missing or unparsable file leaves the store as it was; a completed cycle leaves exactly the file ids and deletes exactly the stored ids the file lacks; an aborted cycle names a file record the store does not hold |
| Sync.UnreadableFileLeavesStore | Add-Delete-Parameter_new/Add-Delete-Parameter_new/backend/controler/parameter.controler.js:89-95 | a missing or unparsable mirror file leaves the store unchanged and is reported as skipped or as a parse error |
| Sync.SyncConverges | Add-Delete-Parameter_new/Add-Delete-Parameter_new/backend/controler/parameter.controler.js:108-124 | after a completed cycle the store ids equal the file ids, records in both keep their stored fields, and new records are the first file occurrence |
| Sync.SyncReportsChanges | Add-Delete-Parameter_new/Add-Delete-Parameter_new/backend/controler/parameter.controler.js:118-124 | a completed cycle deletes exactly the snapshot ids absent from the file, never a record imported in the same cycle, and reports each inserted id once |
| Sync.SyncAbortKeepsPartialImport | Add-Delete-Parameter_new/Add-Delete-Parameter_new/backend/controler/parameter.controler.js:108-129 | a rejected save ends the cycle with no rollback and no prune: every earlier record stays, inserts made so far stay, and the failing file record is neither stored nor admissible |
| Sync.SyncNoopWhenIdsAgree | Add-Delete-Parameter_new/Add-Delete-Parameter_new/backend/controler/parameter.controler.js:108-124 | when store ids equal file ids a cycle inserts nothing, deletes nothing and leaves the store as it is |
| Sync.SyncIdempotent | Add-Delete-Parameter_new/Add-Delete-Parameter_new/backend/controler/parameter.controler.js:108-124 | a second cycle after a completed one, with the file unchanged, performs no inserts and no deletes |
| Sync.SyncAfterMirrorWriteIsNoop | Add-Delete-Parameter_new/Add-Delete-Parameter_new/backend/controler/parameter.controler.js:133-136 | the cycle triggered when a delete rewrites the mirror file changes nothing |
| Sync.SyncAbortedThenRepeatIsNoop | Add-Delete-Parameter_new/Add-Delete-Parameter_new/backend/controler/parameter.controler.js:108-129 | after an aborted cycle, a second cycle over the same file inserts nothing, deletes nothing and is rejected at the same record |
| Sync.SkipToFail | Add-Delete-Parameter_new/Add-Delete-Parameter_new/backend/controler/parameter.controler.js:108-116 | a pass that meets only stored ids before a new record the store rejects fails at that record with nothing inserted |
| Sync.SyncIsIdempotent | Add-Delete-Parameter_new/Add-Delete-Parameter_new/backend/controler/parameter.controler.js:87-130 | for every mirror file, a second cycle over the unchanged file leaves the store exactly as the first cycle left it |
| Sync.ImportIntoEmptyStore | Add-Delete-Parameter_new/Add-Delete-Parameter_new/backend/controler/parameter.controler.js:108-116 | an empty store and a file holding one record `{_id: "1", name: "alpha"}` end with exactly that record; "1" stands for a valid ObjectId, which the source would need |
| Sync.PruneRemovesRecordMissingFromFile | Add-Delete-Parameter_new/Add-Delete-Parameter_new/backend/controler/parameter.controler.js:118-124 | a store holding records "1" and "2" and a file holding only "1" end with only "1"; "1" and "2" stand for valid ObjectIds, since the source aborts on any other `_id` |
| Sync.ImportAdmitsNamesDifferingInCase | Add-Delete-Parameter_new/Add-Delete-Parameter_new/backend/controler/parameter.controler.js:108-116 | an import can store "foo" beside "Foo", breaking case-insensitive uniqueness |
| Controller.AcceptedCreateKeepsNamesDistinctIgnoringCase | Add-Delete-Parameter_new/Add-Delete-Parameter_new/backend/controler/parameter.controler.js:27-37 | an accepted create keeps stored names distinct ignoring case |
| Controller.Server.GetParameters | Add-Delete-Parameter_new/Add-Delete-Parameter_new/backend/controler/parameter.controler.js:8-15 | answers 200 with a listing of the whole store |
| Controller.Server.CreateParameter | Add-Delete-Parameter_new/Add-Delete-Parameter_new/backend/controler/parameter.controler.js:19-46 | missing, falsy or blank name gives 400 "Parameter name is required"; a non-string truthy name gives 500; a name equal ignoring case to a stored one gives 400 "Parameter already exists"; otherwise 201 with exactly one new record holding the untrimmed name; the store changes only then; the mirror file is never written |
| Controller.Server.DeleteParameter | Add-Delete-Parameter_new/Add-Delete-Parameter_new/backend/controler/parameter.controler.js:50-69 | a non-array or empty `ids` gives 400 and changes nothing; otherwise exactly the listed records are removed, unknown ids ignored, and the mirror file then equals the store |
| Controller.Server.UpdateParametersFile | Add-Delete-Parameter_new/Add-Delete-Parameter_new/backend/controler/parameter.controler.js:73-85 | the mirror becomes a listing of the store, whose id map is the store itself |
| Controller.Server.SyncParametersFromFile | Add-Delete-Parameter_new/Add-Delete-Parameter_new/backend/controler/parameter.controler.js:87-130 | the new store and the report are exactly those of `SyncStep` on the old store and the mirror file |
| Controller.Server.ImportRecords | Add-Delete-Parameter_new/Add-Delete-Parameter_new/backend/controler/parameter.controler.js:108-116 | the loop over file records reaches the same store, inserted ids and failure index as `Import` |
| Controller.Server.PruneMissing | Add-Delete-Parameter_new/Add-Delete-Parameter_new/backend/controler/parameter.controler.js:118-124 | the loop over the snapshot deletes exactly the snapshot ids absent from the file |
| Client.IsDuplicate | Add-Delete-Parameter_new/Add-Delete-Parameter_new/frontend/src/App.jsx:31-34 | the scan of `some`, with no contract of its own; `Client.IsDuplicateIff` states what it computes |
| Client.IsDuplicateIff | Add-Delete-Parameter_new/Add-Delete-Parameter_new/frontend/src/App.jsx:31-34 | true exactly when some listed name equals the untrimmed input ignoring case |
| Client.WithoutSelected | Add-Delete-Parameter_new/Add-Delete-Parameter_new/frontend/src/App.jsx:78-82 | keeps exactly the entries whose id is not selected |
| Client.WithoutSelectedAppend | Add-Delete-Parameter_new/Add-Delete-Parameter_new/frontend/src/App.jsx:78-82 | the filter distributes over concatenation, so it keeps the original order |
| Client.Toggled | Add-Delete-Parameter_new/Add-Delete-Parameter_new/frontend/src/App.jsx:58-67 | flips the membership of the toggled id and of no other id |
| Client.ToggleTwiceRestores | Add-Delete-Parameter_new/Add-Delete-Parameter_new/frontend/src/App.jsx:58-67 | toggling the same id twice restores the selection |
| Client.ParameterManager.constructor | Add-Delete-Parameter_new/Add-Delete-Parameter_new/frontend/src/App.jsx:7-10 | the component starts with an empty input, list, selection and error |
| Client.ParameterManager.FetchParameters | Add-Delete-Parameter_new/Add-Delete-Parameter_new/frontend/src/App.jsx:13-21 | a successful fetch replaces the list; a failed one changes nothing |
| Client.ParameterManager.HandleInputChange | Add-Delete-Parameter_new/Add-Delete-Parameter_new/frontend/src/App.jsx:125 | typing sets the input and nothing else |
| Client.ParameterManager.HandleAddParameter | Add-Delete-Parameter_new/Add-Delete-Parameter_new/frontend/src/App.jsx:29-55 | blank input sets "Parameter name cannot be empty." and sends nothing; a case-insensitive duplicate sets "Parameter already exists!" and sends nothing; otherwise the untrimmed input is sent; success appends the returned record and clears input and error; failure sets an error and keeps the list; the selection never changes |
| Client.ParameterManager.HandleCheckboxChange | Add-Delete-Parameter_new/Add-Delete-Parameter_new/frontend/src/App.jsx:58-67 | the selection becomes the old one with that id toggled; nothing else changes |
| Client.ParameterManager.HandleDeleteSelectedParameters | Add-Delete-Parameter_new/Add-Delete-Parameter_new/frontend/src/App.jsx:70-92 | an empty selection sets an error and sends nothing; otherwise the selection is sent; success keeps exactly the unselected entries in order and empties the selection; failure sets an error and keeps list and selection |
| Client.ClientDuplicateCheckMatchesServer | Add-Delete-Parameter_new/Add-Delete-Parameter_new/frontend/src/App.jsx:31-38 | while the list is a listing of the store, the client rejects a duplicate exactly when the server would |
| Client.ClientDeleteMatchesServer | Add-Delete-Parameter_new/Add-Delete-Parameter_new/frontend/src/App.jsx:77-83 | after a delete succeeds, a list that was a listing of the store is a listing of the new store |

## Left out

- The `fs.watchFile` trigger and any overlap of cycles have no guard in the source and are asynchronous. One cycle is modelled as one atomic call; `Sync.SyncAfterMirrorWriteIsNoop` covers the cycle that a delete's rewrite triggers.
- Server startup order (connect, sync, listen), the route table and the database connection are wiring with no logic.
- The database being unavailable is not modelled. This covers the 500 answers of list, create and delete when a query throws, the `catch` inside `updateParametersFile`, and a store failure during a cycle. Every store operation either succeeds or, for `save`, fails on the schema rules.
- JSON parsing and serialisation, and file reading and writing, are abstract. The file is `Missing`, `Malformed` or a sequence of complete records, and writing then reading back gives the same records. So a file record with no `name`, no `_id` or no `createdAt` is not modelled. In the source these hit `required`, query on `_id: undefined`, or take the Date.now default.
- ObjectId casting is not modelled: ids are opaque strings. In the source a file `_id` that is not a valid ObjectId throws a cast error and aborts the cycle, and a delete whose `ids` include one answers 500. Create takes no id from the client.
- The unused `parametersDBMap` has no effect.
- Controller.Server.CreateParameter: the duplicate lookup is modelled as equality ignoring case. The source builds a `RegExp` from the unescaped name, which differs for names holding metacharacters. Such a name can match other names (a false 400), or fail to match an equal stored name, in which case the save then hits the unique index and answers 500. It can also throw on an invalid pattern (500).
- Text.Lower: folds ASCII letters only. `toLowerCase` and the regex `i` flag fold all of Unicode.
- The HTTP transport and all rendering are not modelled. Nor is the Delete button being disabled while nothing is selected, which makes the empty-selection branch unreachable from the UI; the model keeps that branch.
- Client.ParameterManager.HandleAddParameter: a transition runs at once to its reply. In the source the reply handler uses the list captured at click time, so a reply arriving after other changes can overwrite them. This is not modelled.
- Client.ParameterManager.HandleDeleteSelectedParameters: a transition runs at once to its reply. In the source the success handler filters the list captured at click time and then clears the selection, so a reply arriving after a later fetch, add or toggle can overwrite those changes. This is not modelled.
