# Document directory and presence aggregation, modelled in Dafny

This project models the logic of a small collaborative-notes web app. The app keeps a
fixed catalogue of three public documents and a private, newest-first list of the
user's own documents. It records one of them as the active document and persists the
session identity, the private list and the active id to the browser's key/value store.
For the active document, it shows a facepile of the identities present in that
document's collaboration room, the user's own included.

The model has seven modules:

* `Catalog` (`catalog.dfy`) holds the value-level part of `src/App.jsx`:
  * the document and identity records and the public catalogue;
  * the name pools and the colour palette, and id generation;
  * the `find`-with-fallback resolver of the active document;
  * the list transforms behind create (`[newDoc, ...prev]`), rename (`map`) and delete (`filter`);
  * the three store initialisers and the two persistence effects.
* `App` (`session.dfy`) is the stateful part of `src/App.jsx`. Class `Session` has the
  identity, the private list, the active id and the store as fields. Its constructor is
  the mount, and its methods are the handlers. Each handler is one atomic transition
  that includes the persistence effects React runs after it. Every handler keeps the
  invariant `Valid()`: the store mirrors the state. `ActiveDoc()` always resolves to a
  catalogue document. The constructor establishes unique ids for a freshly created
  list (or a saved one with unique ids), and every handler that changes the private list
  keeps them unique (for a create, given a fresh id).
* `Presence` (`presence.dfy`) is the `updatePeers` logic of `src/components/PresenceFacepile.jsx`:
  * it drops states without a user and deduplicates by id through a JavaScript `Map`;
  * the `Map` is modelled exactly: an insertion-ordered key list plus the entries, where
    a re-set key keeps its first position and takes the last value;
  * `UpdatePeers` is the loop over the states, proved equal to a prefix-recursive fold
    `Aggregate`, whose properties are lemmas;
  * also here: the five-face cap, the overflow count and the room key.
* `Sidebar` (`sidebar.dfy`) is the part of `src/components/Sidebar.jsx` that covers the search filter applied to the
  public and to the private list, and the active-row highlight.
* `Text` (`text.dfy`) holds the string operations the app uses:
  * `trim`, `toLowerCase` and `includes`;
  * `split(' ')` and `join`;
  * the initials expression, which appears at Sidebar.jsx:24 and again at
    PresenceFacepile.jsx:52;
  * `slice`;
  * `Number.prototype.toString(36)`.
* `Seqs` (`seqs.dfy`) holds an order-preserving `filter` and the subsequence relation.
* `Wrappers` (`wrappers.dfy`) holds `Option`.

Decisions that shape the model:

* Randomness and the clock are parameters. `NamePicks` carries the pool positions chosen
  by `Math.random()`. `IdEntropy` carries the characters of the random fraction's base-36
  form after its leading "0." (an unconstrained string) and the millisecond clock.
* The store holds decoded values rather than JSON text:
  * `UserRecord`, `DocList` or `Raw` string;
  * `Raw("")` stands for a stored empty string, which `if (saved)` treats like a missing key;
  * the predicate `Decodable` states what the app assumes of existing content.
* Where the intended behaviour and the code differ, the model follows the code:
  * The intended behaviour is that malformed stored content is treated as absent and the
    defaults regenerated. The code instead calls `JSON.parse` unguarded, so such content
    would throw at mount. The model requires `Decodable` instead of inventing a recovery
    path.
  * The intended behaviour is that a failed store write is reported as a recoverable
    error. The code does not handle write failures, and the model has none.
  * The intended behaviour is that public documents cannot be created. The code's
    `handleCreateDoc` accepts any visibility. The model keeps the non-private case:
    the list stays unchanged, the active id is set to an id in no list, and resolution
    falls back to the first public document.

## Model

| member | source | states |
|---|---|---|
| Catalog.RandomColor | src/App.jsx:7-12 | the colour drawn is one of the ten palette entries |
| Catalog.PoolsAreWords | src/App.jsx:15-16 | every first and last name in the pools is one non-empty word without a space |
| Catalog.RandomName | src/App.jsx:14-18 | the generated name splits on its space into exactly the picked first name and the picked last name |
| Catalog.GeneratedInitials | src/App.jsx:14-18 | the initials of a generated name are the first letters of its first and last name |
| Catalog.GenerateId | src/App.jsx:20-22 | an id starts with the prefix and "_", and its length is between prefix+2 and prefix+11 |
| Catalog.GeneratedDocIdNotPublic | src/App.jsx:20-28 | a generated "doc_" id never equals the id of a public document |
| Catalog.UniqueIdsConcat | src/App.jsx:75 | the ids of `public ++ private` are unique iff each part's ids are unique and no id is in both |
| Catalog.FindIndex | src/App.jsx:76 | the position of the first document with the id, or -1 exactly when no document has it |
| Catalog.Resolve | src/App.jsx:74-77 | the active document is always in `public ++ private`; it is the first document there with the active id, or the first public document when none has it |
| Catalog.ResolveUnknown | src/App.jsx:76 | every id found in neither list, including the empty id, resolves to the same document, `public-welcome` |
| Catalog.ResolveWelcome | src/App.jsx:93 | the fallback id resolves to the first public document whatever the private list holds |
| Catalog.NewDoc | src/App.jsx:80 | a created document is titled "Untitled", has the requested visibility and an id no public document has |
| Catalog.CreateKeepsIdsUnique | src/App.jsx:82 | prepending a document with a fresh id keeps all ids unique and grows the private list by exactly one |
| Catalog.CreatedDocResolves | src/App.jsx:79-85 | after a private create, the new active id resolves to the new document |
| Catalog.CreateNonPrivateFallsBack | src/App.jsx:80-84 | after a non-private create the active id matches no document, so resolution falls back to the first public document |
| Catalog.Renamed | src/App.jsx:88 | rename keeps the length; it keeps every id and visibility; it sets the title exactly where the id matches and keeps it elsewhere |
| Catalog.RenameKeepsShape | src/App.jsx:88 | rename keeps the id sequence, so unique ids stay unique, and leaves every non-matching entry identical |
| Catalog.RenameKeepsCatalogUnique | src/App.jsx:88 | renaming inside the private list keeps the ids of `public ++ private` unique |
| Catalog.RenameUnknown | src/App.jsx:87-89 | renaming an id no private document has, such as a public one, returns the list unchanged |
| Catalog.RenameTwice | src/App.jsx:87-89 | two renames of one id in a row equal the last rename alone |
| Catalog.CreateThenRename | src/App.jsx:79-89 | renaming a freshly created private document puts the new title on the head of the list |
| Catalog.RemovedSpec | src/App.jsx:92 | after delete no entry has the id; every other entry is kept with all its copies, in order; deleting an absent id changes nothing |
| Catalog.RemovedUnique | src/App.jsx:92 | with unique ids, deleting a present id shortens the list by exactly one and keeps ids unique |
| Catalog.RemovedKeepsCatalogUnique | src/App.jsx:92 | deleting from the private list keeps the ids of `public ++ private` unique |
| Catalog.NewUser | src/App.jsx:38 | a new identity has an id beginning "user_", a name made of two pool words, and a palette colour |
| Catalog.LoadOrCreateUser | src/App.jsx:35-41 | a saved identity is returned and the store is untouched; otherwise a new identity is returned and written under `notionish.user.v1`; either way the store then holds the identity |
| Catalog.UserBootstrapStable | src/App.jsx:35-41 | bootstrapping again from the store the first bootstrap left behind returns the same identity and the same store, whatever the new random picks |
| Catalog.LoadOrCreateDocs | src/App.jsx:43-51 | a saved private list is returned; otherwise the single private document "My First Note" is created and written; either way the store then holds the list |
| Catalog.LoadedDocsUnique | src/App.jsx:43-51 | the created first list gives a catalogue with unique ids; a saved list whose ids are unique with the public ones keeps them unique |
| Catalog.FirstNoteUnique | src/App.jsx:46-48 | the public documents together with "My First Note" have unique ids |
| Catalog.LoadActive | src/App.jsx:53-57 | the initial active id is the saved non-empty id, else `public-welcome`; it is never empty |
| Catalog.Persisted | src/App.jsx:59-65 | the effects write the private list, and the active id when it is non-empty; every other key is unchanged |
| Catalog.PersistedMirrors | src/App.jsx:59-65 | once the identity is saved, running the effects leaves the store holding the identity, the private list and the non-empty active id |
| Catalog.SaveDocsMirrors | src/App.jsx:60 | writing a new private list keeps the store mirroring the state with that list |
| Catalog.SaveActiveMirrors | src/App.jsx:64 | writing a non-empty active id keeps the store mirroring the state with that id |
| App.Session.ActiveDoc | src/App.jsx:74-77 | the active document is always one of the catalogue's documents |
| App.Session.constructor | src/App.jsx:35-65 | mounting runs the three initialisers in order and then the effects, leaving the store mirroring the state; a created first list, or a saved list with unique ids, gives a catalogue with unique ids |
| App.Session.Select | src/App.jsx:109 | selecting sets the active id and stores it when non-empty; the private list and identity are unchanged |
| App.Session.CreateDoc | src/App.jsx:79-85 | the new "Untitled" document is prepended when private; the active id becomes its id and resolves to it when private; otherwise it falls back to `public-welcome`; a fresh id keeps ids unique; the store mirrors the new state |
| App.Session.RenameDoc | src/App.jsx:87-89 | the private list becomes its rename; active id and identity are unchanged; ids remain unique; the list is saved again |
| App.Session.DeleteDoc | src/App.jsx:91-94 | the private list loses exactly the entries with the id; a deleted active id becomes `public-welcome` and resolves to the first public document; otherwise the active id is unchanged; ids remain unique |
| App.Session.EditTitle | src/App.jsx:120-126 | a title edit renames the resolved active document only when it is private, and otherwise changes nothing; unique ids stay unique |
| Presence.RoomKey | src/components/PresenceFacepile.jsx:15 | the room key is "room-" followed by the document id |
| Presence.RoomKeyInjective | src/components/PresenceFacepile.jsx:15 | two documents share a room key iff they have the same id |
| Presence.Room | src/components/PresenceFacepile.jsx:13-15 | a room is opened exactly when the active id is non-empty, and its key carries that id |
| Presence.PresentUsers | src/components/PresenceFacepile.jsx:23-26 | the extracted users are exactly the users of states that carry one, and there are no more of them than states |
| Presence.PresentUsersConcat | src/components/PresenceFacepile.jsx:25-26 | extraction distributes over concatenation of state sequences |
| Presence.DropAbsent | src/components/PresenceFacepile.jsx:25-26 | a state with no user, wherever it stands, has no effect on the users extracted |
| Presence.FirstIndexOf | src/components/PresenceFacepile.jsx:27-30 | the position of the first user with the id, or -1 exactly when no user has it |
| Presence.LastIndexOf | src/components/PresenceFacepile.jsx:27-30 | the position of the last user with the id, or -1 exactly when no user has it |
| Presence.MapSetWellFormed | src/components/PresenceFacepile.jsx:28 | `Map.set` of a user under its own id keeps the key list and the entries in one-to-one correspondence |
| Presence.FoldWellFormed | src/components/PresenceFacepile.jsx:27-30 | the reduced `Map` has one key per entry, each key once, each entry filed under its own id |
| Presence.FoldKeys | src/components/PresenceFacepile.jsx:27-30 | the `Map`'s keys are exactly the ids that occur |
| Presence.FoldEntries | src/components/PresenceFacepile.jsx:28 | the entry under each id is the last user carrying that id |
| Presence.FoldOrder | src/components/PresenceFacepile.jsx:27-31 | the `Map`'s keys are in the order of each id's first occurrence |
| Presence.AggregateDistinct | src/components/PresenceFacepile.jsx:27-31 | the peer list has at most one entry per id |
| Presence.AggregateIds | src/components/PresenceFacepile.jsx:27-31 | the set of the peers' ids is exactly the set of ids that occur |
| Presence.AggregateCount | src/components/PresenceFacepile.jsx:31 | the peer count is the number of distinct ids among the published users |
| Presence.AggregateLastWins | src/components/PresenceFacepile.jsx:28 | each peer is the user of the last state carrying its id |
| Presence.AggregateFirstOrder | src/components/PresenceFacepile.jsx:27-31 | peers are ordered by the first occurrence of their ids |
| Presence.AggregateOfDistinct | src/components/PresenceFacepile.jsx:23-31 | a user list with no repeated id aggregates to itself |
| Presence.AggregateIdempotent | src/components/PresenceFacepile.jsx:23-31 | aggregating an aggregated peer list returns it unchanged |
| Presence.LocalUserCounted | src/components/PresenceFacepile.jsx:16-31 | once the local identity is published in some state, a peer with its id is in the peer list |
| Presence.FoldStateStep | src/components/PresenceFacepile.jsx:25-29 | one more state adds one `Map.set` of its user to the fold, or nothing when it has no user |
| Presence.UpdatePeers | src/components/PresenceFacepile.jsx:22-32 | the loop over the states computes the aggregate; its peers are distinct by id, exactly the occurring ids, last value per id, in first-occurrence order |
| Presence.Facepile | src/components/PresenceFacepile.jsx:44 | the faces shown are the first min(5, n) peers |
| Presence.Extra | src/components/PresenceFacepile.jsx:45 | the overflow count is never negative, adds up with the faces to the peer count, and is positive iff there are more than five peers |
| Presence.FacepileExamples | src/components/PresenceFacepile.jsx:44-45 | eight peers show five faces and an overflow of three; three peers show all three and no overflow |
| Sidebar.Normalize | src/components/Sidebar.jsx:8 | the needle has the length of the trimmed query and is empty iff the query is all white space |
| Sidebar.FilterDocs | src/components/Sidebar.jsx:7-17 | a blank query returns the list itself; the result is an order-preserving subsequence; otherwise a document is kept iff its lower-cased title contains the trimmed, lower-cased query, and then with every copy it has in the list |
| Sidebar.EmptyNeedleMatchesAll | src/components/Sidebar.jsx:10 | every title contains the empty needle, so the empty-query shortcut agrees with filtering |
| Sidebar.WhitespaceQuery | src/components/Sidebar.jsx:8-9 | a query of white space alone returns the list unchanged |
| Sidebar.QueryCaseInsensitive | src/components/Sidebar.jsx:8-10 | lower-casing the query first gives the same filtered list |
| Sidebar.TitleCaseIgnored | src/components/Sidebar.jsx:10 | two titles that differ only in the case of letters match the same queries |
| Sidebar.FilterDocsIdempotent | src/components/Sidebar.jsx:10 | filtering a filtered list again by the same query returns it unchanged |
| Sidebar.FilterDocsConcat | src/components/Sidebar.jsx:7-17 | filtering the public and private lists separately equals filtering the whole catalogue and splitting it |
| Sidebar.FilterKeepsUnique | src/components/Sidebar.jsx:10 | filtering a list with unique ids keeps them unique |
| Sidebar.AtMostOneHighlighted | src/components/Sidebar.jsx:52-74 | with unique ids, no two rows of the filtered sidebar are both highlighted as active |
| Text.Lower | src/components/Sidebar.jsx:8 | the result differs from the input only in the case of letters and holds no capital letter |
| Text.LowerIgnoresCase | src/components/Sidebar.jsx:8-10 | two strings that differ only in the case of letters lower-case to the same string |
| Text.LowerIdempotent | src/components/Sidebar.jsx:8 | lower-casing twice equals lower-casing once |
| Text.TrimStart | src/components/Sidebar.jsx:8 | a suffix of the input, with only white space removed, not starting with white space |
| Text.TrimEnd | src/components/Sidebar.jsx:8 | a prefix of the input, with only white space removed, not ending with white space |
| Text.Trim | src/components/Sidebar.jsx:8 | a slice of the input with white space only outside it, no white space at either end, empty iff the input is all white space |
| Text.TrimLowerIgnoresCase | src/components/Sidebar.jsx:8 | trimming commutes with lower-casing once the result is lower-cased |
| Text.Includes | src/components/Sidebar.jsx:10 | true iff the needle occurs at some position of the text |
| Text.Take | src/components/PresenceFacepile.jsx:44 | `slice(0, n)` is a prefix of length min(n, length) |
| Text.TakeLast | src/App.jsx:21 | `slice(-n)` is a suffix of length min(n, length) |
| Text.Split | src/components/Sidebar.jsx:24 | `split(' ')` always yields at least one piece |
| Text.SplitJoin | src/components/Sidebar.jsx:24 | joining the pieces with spaces gives back the string |
| Text.SplitNoSpaces | src/components/Sidebar.jsx:24 | no piece contains a space |
| Text.JoinSplit | src/App.jsx:17 | joining space-free pieces with spaces and splitting again gives back the pieces |
| Text.WordStarts | src/components/Sidebar.jsx:24 | the word-initial characters are never spaces |
| Text.HeadsOfSplit | src/components/Sidebar.jsx:24 | the first characters of the pieces, empty pieces contributing nothing, are the word-initial characters of the string |
| Text.Initials | src/components/Sidebar.jsx:24 | at most two characters, namely the first two word-initial characters in word order, or all of them when there are fewer |
| Text.RepeatedSpaceIgnored | src/components/Sidebar.jsx:24 | a doubled space gives the same initials as a single one |
| Text.Base36 | src/App.jsx:21 | `toString(36)` of a number is a non-empty string of base-36 digits with no leading zero unless the number is zero |
| Text.Base36RoundTrip | src/App.jsx:21 | parsing the base-36 digits gives back the number |
| Seqs.Filter | src/App.jsx:92 | a filter is never longer than its input |
| Seqs.FilterIsSubsequence | src/components/Sidebar.jsx:10 | a filter is an order-preserving subsequence of its input |
| Seqs.FilterMembership | src/components/Sidebar.jsx:10 | an element is kept iff it is in the input and satisfies the predicate |
| Seqs.FilterIdempotent | src/components/Sidebar.jsx:10 | filtering twice by one predicate equals filtering once |
| Seqs.FilterCounts | src/App.jsx:92 | a filter keeps every copy of an element that satisfies the predicate and no copy of one that does not |
| Seqs.FilterConcat | src/components/Sidebar.jsx:7-17 | filtering distributes over concatenation |

## Left out

- Catalog.GenerateId: the contract fixes only the `prefix_` start and the length bounds. It
  does not state that the tail is the first (up to) six characters of the random fraction
  followed by the last (up to) four base-36 clock digits. `IdEntropy.fraction` is any
  string, not constrained to base-36 digits.
- The WebsocketProvider connection, the awareness subscription and the teardown
  (PresenceFacepile.jsx:14-20, 34-41) are network I/O and event callbacks. Only
  `updatePeers` is modelled, as a function of the states it reads.
- src/components/EditorArea.jsx (the tiptap/Yjs editor) and src/components/HeroCover.jsx
  (a presentational scene) are not part of this model: both are foreign libraries or
  rendering.
- `Math.random()` and `Date.now()` are parameters. `NamePicks` holds the pool positions and
  `IdEntropy` the fraction's characters and the clock, so the freshness of a generated id is a
  precondition where uniqueness is claimed, not a fact.
- `JSON.parse` and `JSON.stringify` are not modelled: the store holds decoded values.
  Malformed stored content, which would make the source throw at mount, is excluded by the
  `Decodable` precondition.
- A store write that throws (quota exceeded, storage disabled) is not modelled; the source
  does not handle it either.
- React scheduling is folded into each handler as one atomic transition. This covers
  `useState` updaters, the effect runs after a render and `useMemo` caching. The model
  does not capture the interleaving of two updates within one render.
- Rendering is not modelled: JSX, CSS, the "No matches" row, the `+N` badge text and the
  "N active" label. The values they display are modelled by `FilterDocs`, `Facepile`,
  `Extra` and `UpdatePeers`.
- Text.Lower: converts ASCII letters only, while `toLowerCase` folds all of Unicode.
- Text.Trim: uses JavaScript's white space and line terminator set, but counts in code
  points rather than UTF-16 units.
- Text.Initials: takes first code points, where `n[0]` takes the first UTF-16 unit (half a
  surrogate pair for characters outside the Basic Multilingual Plane).
- `Array.prototype.find` is modelled by the index search `FindIndex`; the `|| all[0]`
  fallback would also trigger on a falsy document, which the catalogue cannot hold.
- The Sidebar's `onRename` prop is passed (App.jsx:111) but never called inside
  Sidebar.jsx. Title edits go through `App.Session.EditTitle` instead.
