/** The values of the document directory (App.jsx): documents, identities, the fixed
    public catalogue, the name and colour pools, id generation, the active-document
    resolver, the list transforms behind create / rename / delete, and the decoded
    contents of the browser's key/value store. */
module Catalog {
  import opened Wrappers
  import Seqs
  import Text

  datatype Visibility = Public | Private

  datatype Doc = Doc(id: string, title: string, visibility: Visibility)

  /** The session identity, also what a peer publishes into a presence room. */
  datatype User = User(id: string, name: string, color: string)

  const WelcomeId: string := "public-welcome"

  /** The fixed, read-only public catalogue; its first entry is the fallback document. */
  const PublicDocs: seq<Doc> := [
    Doc("public-welcome", "Welcome to Notion-like Docs", Public),
    Doc("public-team-handbook", "Team Handbook (Public)", Public),
    Doc("public-roadmap", "Product Roadmap (Public)", Public)
  ]

  const Colors: seq<string> := [
    "#ef4444", "#f97316", "#f59e0b", "#10b981", "#06b6d4",
    "#3b82f6", "#8b5cf6", "#ec4899", "#14b8a6", "#84cc16"
  ]

  const FirstNames: seq<string> := [
    "Ava", "Noah", "Liam", "Emma", "Mia", "Leo", "Zoe", "Ivy",
    "Max", "Eli", "Ada", "Kai", "Nia", "Sam", "Liv"
  ]

  const LastNames: seq<string> := [
    "Gray", "Wren", "Vale", "Reed", "Quinn", "Knox", "Jett", "Skye", "Lane", "Bryn"
  ]

  // ---------------------------------------------------------------------------
  // Identity and id generation

  /** `colors[Math.floor(Math.random() * colors.length)]`, with the index passed in. */
  function RandomColor(pick: nat): (r: string)
    requires pick < |Colors|
    ensures r in Colors
  {
    Colors[pick]
  }

  /** Every pool entry is one non-empty word. */
  lemma PoolsAreWords()
    ensures forall i :: 0 <= i < |FirstNames| ==> FirstNames[i] != [] && ' ' !in FirstNames[i]
    ensures forall j :: 0 <= j < |LastNames| ==> LastNames[j] != [] && ' ' !in LastNames[j]
  {
  }

  /** `${first[i]} ${last[j]}`: a two-word name whose words are the picked pool entries. */
  function RandomName(first: nat, last: nat): (r: string)
    requires first < |FirstNames| && last < |LastNames|
    ensures Text.Split(r) == [FirstNames[first], LastNames[last]]
  {
    var parts := [FirstNames[first], LastNames[last]];
    PoolsAreWords();
    assert parts[1..] == [LastNames[last]];
    Text.JoinSplit(parts);
    FirstNames[first] + " " + LastNames[last]
  }

  /** The initials shown for a generated name are the first letters of its two words. */
  lemma GeneratedInitials(first: nat, last: nat)
    requires first < |FirstNames| && last < |LastNames|
    ensures Text.Initials(RandomName(first, last)) == [FirstNames[first][0], LastNames[last][0]]
  {
    var parts := Text.Split(RandomName(first, last));
    PoolsAreWords();
    Text.HeadsOfSplit(RandomName(first, last));
    assert parts[1..] == [LastNames[last]];
    assert Text.Heads(parts) == [FirstNames[first][0]] + ([LastNames[last][0]] + []);
  }

  /** What `Math.random()` and `Date.now()` contribute to an id: the base-36 digits of
      the random fraction after its leading "0.", and the clock in milliseconds. */
  datatype IdEntropy = IdEntropy(fraction: string, now: nat)

  /** `${prefix}_${Math.random().toString(36).slice(2, 8)}${Date.now().toString(36).slice(-4)}`:
      the prefix and an underscore, up to six random digits, then one to four clock digits. */
  function GenerateId(prefix: string, e: IdEntropy): (r: string)
    ensures |prefix| + 2 <= |r| <= |prefix| + 11
    ensures r[..|prefix| + 1] == prefix + "_"
  {
    var r := prefix + "_" + Text.Take(e.fraction, 6) + Text.TakeLast(Text.Base36(e.now), 4);
    assert r[..|prefix| + 1] == prefix + "_";
    r
  }

  /** A generated document id never collides with a public document's id. */
  lemma GeneratedDocIdNotPublic(e: IdEntropy)
    ensures !HasId(PublicDocs, GenerateId("doc", e))
  {
    var id := GenerateId("doc", e);
    assert id[..4] == "doc_";
    assert id[0] == 'd';
    forall i | 0 <= i < |PublicDocs|
      ensures PublicDocs[i].id != id
    {
      assert PublicDocs[i].id[0] == 'p';
    }
  }

  // ---------------------------------------------------------------------------
  // The catalogue

  ghost predicate HasId(docs: seq<Doc>, id: string) {
    exists i :: 0 <= i < |docs| && docs[i].id == id
  }

  ghost predicate UniqueIds(docs: seq<Doc>) {
    forall i, j :: 0 <= i < j < |docs| ==> docs[i].id != docs[j].id
  }

  function Ids(docs: seq<Doc>): seq<string> {
    seq(|docs|, i requires 0 <= i < |docs| => docs[i].id)
  }

  /** A concatenation has unique ids exactly when both parts do and no id is shared. */
  lemma UniqueIdsConcat(a: seq<Doc>, b: seq<Doc>)
    ensures UniqueIds(a + b) <==>
              UniqueIds(a) && UniqueIds(b) &&
              forall i, j :: 0 <= i < |a| && 0 <= j < |b| ==> a[i].id != b[j].id
  {
    var ab := a + b;
    if UniqueIds(a) && UniqueIds(b) && forall i, j :: 0 <= i < |a| && 0 <= j < |b| ==> a[i].id != b[j].id {
      forall i, j | 0 <= i < j < |ab|
        ensures ab[i].id != ab[j].id
      {
        if j < |a| {
          assert ab[i] == a[i] && ab[j] == a[j];
        } else if i < |a| {
          assert ab[i] == a[i] && ab[j] == b[j - |a|];
        } else {
          assert ab[i] == b[i - |a|] && ab[j] == b[j - |a|];
        }
      }
    }
    if UniqueIds(ab) {
      forall i, j | 0 <= i < j < |a|
        ensures a[i].id != a[j].id
      {
        assert ab[i] == a[i] && ab[j] == a[j];
      }
      forall i, j | 0 <= i < j < |b|
        ensures b[i].id != b[j].id
      {
        assert ab[i + |a|] == b[i] && ab[j + |a|] == b[j];
      }
      forall i, j | 0 <= i < |a| && 0 <= j < |b|
        ensures a[i].id != b[j].id
      {
        assert ab[i] == a[i] && ab[j + |a|] == b[j];
      }
    }
  }

  /** `k` is the position of the first document with id `id`. */
  ghost predicate FirstWithId(docs: seq<Doc>, id: string, k: int) {
    0 <= k < |docs| && docs[k].id == id && forall j :: 0 <= j < k ==> docs[j].id != id
  }

  /** `docs.findIndex(d => d.id === id)`: -1 when no document has the id. */
  function FindIndex(docs: seq<Doc>, id: string): (r: int)
    ensures -1 <= r < |docs|
    ensures r >= 0 ==> FirstWithId(docs, id, r)
    ensures r < 0 ==> !HasId(docs, id)
  {
    if docs == [] then -1
    else if docs[0].id == id then 0
    else
      var k := FindIndex(docs[1..], id);
      if k < 0 then -1 else k + 1
  }

  /** `[...public, ...private].find(d => d.id === activeId) || all[0]`: the first
      document, public ones first, whose id is the active id; else the first public one. */
  function Resolve(privateDocs: seq<Doc>, activeId: string): (r: Doc)
    ensures r in PublicDocs + privateDocs
    ensures HasId(PublicDocs + privateDocs, activeId) ==>
              exists k :: FirstWithId(PublicDocs + privateDocs, activeId, k) && r == (PublicDocs + privateDocs)[k]
    ensures !HasId(PublicDocs + privateDocs, activeId) ==> r == PublicDocs[0]
  {
    var all := PublicDocs + privateDocs;
    var k := FindIndex(all, activeId);
    if k >= 0 then all[k] else all[0]
  }

  lemma FirstWithIdUnique(docs: seq<Doc>, id: string, k: int, k': int)
    requires FirstWithId(docs, id, k) && FirstWithId(docs, id, k')
    ensures k == k'
  {
  }

  /** Resolving an id that is in neither list gives the same document as resolving any
      other such id, the empty one included: the first public document. */
  lemma ResolveUnknown(privateDocs: seq<Doc>, id: string, other: string)
    requires !HasId(PublicDocs + privateDocs, id) && !HasId(PublicDocs + privateDocs, other)
    ensures Resolve(privateDocs, id) == Resolve(privateDocs, other) == PublicDocs[0]
    ensures PublicDocs[0].id == WelcomeId
  {
  }

  /** The fallback id always resolves to the first public document, whatever the private list. */
  lemma ResolveWelcome(privateDocs: seq<Doc>)
    ensures Resolve(privateDocs, WelcomeId) == PublicDocs[0]
  {
    var all := PublicDocs + privateDocs;
    assert all[0].id == WelcomeId;
    assert FirstWithId(all, WelcomeId, 0);
    forall k | FirstWithId(all, WelcomeId, k)
      ensures k == 0
    {
      FirstWithIdUnique(all, WelcomeId, k, 0);
    }
  }

  // ---------------------------------------------------------------------------
  // Create: `[newDoc, ...prev]`

  function NewDoc(e: IdEntropy, visibility: Visibility): (d: Doc)
    ensures d.title == "Untitled" && d.visibility == visibility
    ensures !HasId(PublicDocs, d.id)
  {
    GeneratedDocIdNotPublic(e);
    Doc(GenerateId("doc", e), "Untitled", visibility)
  }

  /** Prepending a document with a fresh id keeps the ids of the whole catalogue unique
      and grows the private list by exactly one. */
  lemma {:induction false} CreateKeepsIdsUnique(privateDocs: seq<Doc>, d: Doc)
    requires UniqueIds(PublicDocs + privateDocs)
    requires !HasId(PublicDocs + privateDocs, d.id)
    ensures UniqueIds(PublicDocs + ([d] + privateDocs))
    ensures |[d] + privateDocs| == |privateDocs| + 1
  {
    var before := PublicDocs + privateDocs;
    var after := PublicDocs + ([d] + privateDocs);
    var n := |PublicDocs|;
    forall i, j | 0 <= i < j < |after|
      ensures after[i].id != after[j].id
    {
      var bi := if i < n then i else i - 1;
      var bj := if j < n then j else j - 1;
      if i == n {
        assert after[i] == d && after[j] == before[bj];
      } else if j == n {
        assert after[j] == d && after[i] == before[bi];
      } else {
        assert after[i] == before[bi] && after[j] == before[bj] && bi < bj;
      }
    }
  }

  /** The document just created becomes the active one: a generated id is never public,
      so the resolver finds the new document right after the public ones. */
  lemma CreatedDocResolves(privateDocs: seq<Doc>, e: IdEntropy)
    ensures Resolve([NewDoc(e, Private)] + privateDocs, NewDoc(e, Private).id) == NewDoc(e, Private)
  {
    var d := NewDoc(e, Private);
    var all := PublicDocs + ([d] + privateDocs);
    var n := |PublicDocs|;
    assert all[n] == d;
    forall j | 0 <= j < n
      ensures all[j].id != d.id
    {
      assert all[j] == PublicDocs[j];
    }
    assert FirstWithId(all, d.id, n);
    forall k | FirstWithId(all, d.id, k)
      ensures k == n
    {
      FirstWithIdUnique(all, d.id, k, n);
    }
  }

  /** Creating a document that is not private leaves the active id pointing at no
      document, so the resolver falls back to the first public document. */
  lemma CreateNonPrivateFallsBack(privateDocs: seq<Doc>, e: IdEntropy)
    requires !HasId(privateDocs, NewDoc(e, Public).id)
    ensures Resolve(privateDocs, NewDoc(e, Public).id) == PublicDocs[0]
  {
    var id := NewDoc(e, Public).id;
    var all := PublicDocs + privateDocs;
    forall i | 0 <= i < |all|
      ensures all[i].id != id
    {
      if i >= |PublicDocs| {
        assert all[i] == privateDocs[i - |PublicDocs|];
      } else {
        assert all[i] == PublicDocs[i];
      }
    }
  }

  // ---------------------------------------------------------------------------
  // Rename: `prev.map(d => (d.id === id ? { ...d, title } : d))`

  function Renamed(docs: seq<Doc>, id: string, title: string): (r: seq<Doc>)
    ensures |r| == |docs|
    ensures forall i :: 0 <= i < |docs| ==> r[i].id == docs[i].id && r[i].visibility == docs[i].visibility
    ensures forall i :: 0 <= i < |docs| ==> r[i].title == if docs[i].id == id then title else docs[i].title
  {
    seq(|docs|, i requires 0 <= i < |docs| => if docs[i].id == id then docs[i].(title := title) else docs[i])
  }

  /** Renaming keeps the list's length, order, ids and visibilities, so unique ids stay unique. */
  lemma RenameKeepsShape(docs: seq<Doc>, id: string, title: string)
    ensures Ids(Renamed(docs, id, title)) == Ids(docs)
    ensures UniqueIds(docs) ==> UniqueIds(Renamed(docs, id, title))
    ensures forall i :: 0 <= i < |docs| && docs[i].id != id ==> Renamed(docs, id, title)[i] == docs[i]
  {
  }

  /** Renaming inside the private list keeps the ids of the whole catalogue unique. */
  lemma RenameKeepsCatalogUnique(privateDocs: seq<Doc>, id: string, title: string)
    requires UniqueIds(PublicDocs + privateDocs)
    ensures UniqueIds(PublicDocs + Renamed(privateDocs, id, title))
  {
    var before := PublicDocs + privateDocs;
    var after := PublicDocs + Renamed(privateDocs, id, title);
    assert |after| == |before|;
    forall i | 0 <= i < |after|
      ensures after[i].id == before[i].id
    {
    }
  }

  /** Renaming an id no document has, for example a public one, leaves the list as it is. */
  lemma RenameUnknown(docs: seq<Doc>, id: string, title: string)
    requires !HasId(docs, id)
    ensures Renamed(docs, id, title) == docs
  {
    var r := Renamed(docs, id, title);
    forall i | 0 <= i < |docs|
      ensures r[i] == docs[i]
    {
    }
  }

  /** Two renames of the same document in a row leave the last title: last write wins. */
  lemma RenameTwice(docs: seq<Doc>, id: string, t1: string, t2: string)
    ensures Renamed(Renamed(docs, id, t1), id, t2) == Renamed(docs, id, t2)
  {
    var a := Renamed(Renamed(docs, id, t1), id, t2);
    var b := Renamed(docs, id, t2);
    forall i | 0 <= i < |docs|
      ensures a[i] == b[i]
    {
    }
  }

  /** Creating a private document and renaming it right away puts the new title on the
      head of the list. */
  lemma CreateThenRename(privateDocs: seq<Doc>, e: IdEntropy, title: string)
    ensures Renamed([NewDoc(e, Private)] + privateDocs, NewDoc(e, Private).id, title)[0]
            == Doc(NewDoc(e, Private).id, title, Private)
  {
  }

  // ---------------------------------------------------------------------------
  // Delete: `prev.filter(d => d.id !== id)`

  function Removed(docs: seq<Doc>, id: string): seq<Doc> {
    Seqs.Filter((d: Doc) => d.id != id, docs)
  }

  /** Deleting removes every document with the id and keeps every other one, every copy
      of it, in order. */
  lemma RemovedSpec(docs: seq<Doc>, id: string)
    ensures !HasId(Removed(docs, id), id)
    ensures Seqs.IsSubsequence(Removed(docs, id), docs)
    ensures forall d :: d in docs && d.id != id ==> d in Removed(docs, id)
    ensures forall d :: multiset(Removed(docs, id))[d] == if d.id != id then multiset(docs)[d] else 0
    ensures !HasId(docs, id) ==> Removed(docs, id) == docs
  {
    var p := (d: Doc) => d.id != id;
    Seqs.FilterCounts(p, docs);
    Seqs.FilterSatisfies(p, docs);
    Seqs.FilterIsSubsequence(p, docs);
    Seqs.FilterMembership(p, docs);
    if !HasId(docs, id) {
      Seqs.FilterKeepsAll(p, docs);
    }
  }

  /** With unique ids, deleting a present id shortens the list by exactly one and keeps
      the ids unique. */
  lemma {:induction false} RemovedUnique(docs: seq<Doc>, id: string)
    requires UniqueIds(docs)
    ensures UniqueIds(Removed(docs, id))
    ensures |Removed(docs, id)| == if HasId(docs, id) then |docs| - 1 else |docs|
  {
    var p := (d: Doc) => d.id != id;
    if docs != [] {
      var rest := docs[1..];
      assert UniqueIds(rest);
      RemovedUnique(rest, id);
      Seqs.FilterMembership(p, rest);
      assert Removed(docs, id) == (if p(docs[0]) then [docs[0]] else []) + Removed(rest, id);
      if docs[0].id == id {
        assert !HasId(rest, id);
        assert HasId(docs, id);
      } else {
        assert HasId(docs, id) == HasId(rest, id);
        var r := Removed(rest, id);
        forall j | 0 <= j < |r|
          ensures r[j].id != docs[0].id
        {
          assert r[j] in rest;
        }
        assert Removed(docs, id) == [docs[0]] + r;
      }
    }
  }

  /** Deleting from the private list keeps the ids of the whole catalogue unique. */
  lemma RemovedKeepsCatalogUnique(privateDocs: seq<Doc>, id: string)
    requires UniqueIds(PublicDocs + privateDocs)
    ensures UniqueIds(PublicDocs + Removed(privateDocs, id))
  {
    var r := Removed(privateDocs, id);
    UniqueIdsConcat(PublicDocs, privateDocs);
    RemovedUnique(privateDocs, id);
    Seqs.FilterMembership((d: Doc) => d.id != id, privateDocs);
    forall i, j | 0 <= i < |PublicDocs| && 0 <= j < |r|
      ensures PublicDocs[i].id != r[j].id
    {
      assert r[j] in privateDocs;
    }
    UniqueIdsConcat(PublicDocs, r);
  }

  // ---------------------------------------------------------------------------
  // The key/value store, holding decoded values

  const UserKey: string := "notionish.user.v1"
  const DocsKey: string := "notionish.privateDocs.v1"
  const ActiveKey: string := "notionish.activeDoc.v1"

  /** A stored value: the parsed JSON of an identity or of the private list, or a raw string. */
  datatype Stored = UserRecord(user: User) | DocList(docs: seq<Doc>) | Raw(text: string)

  type Store = map<string, Stored>

  /** `localStorage.getItem(key)` when truthy: a missing key (null) and "" both read as nothing. */
  function Saved(store: Store, key: string): Option<Stored> {
    if key in store && store[key] != Raw("") then Some(store[key]) else None
  }

  /** What the app needs of existing store contents: a saved identity or private list
      parses to the expected shape, and the active id is a plain string. */
  predicate Decodable(store: Store) {
    (Saved(store, UserKey).Some? ==> Saved(store, UserKey).value.UserRecord?) &&
    (Saved(store, DocsKey).Some? ==> Saved(store, DocsKey).value.DocList?) &&
    (ActiveKey in store ==> store[ActiveKey].Raw?)
  }

  /** A value read (or created) at start-up, with the store as it is afterwards. */
  datatype Loaded<T> = Loaded(value: T, store: Store)

  /** The pool positions behind `randomName()` and `randomColor()`. */
  datatype NamePicks = NamePicks(first: nat, last: nat, color: nat)

  predicate PicksInRange(p: NamePicks) {
    p.first < |FirstNames| && p.last < |LastNames| && p.color < |Colors|
  }

  /** `{ id: generateId('user'), name: randomName(), color: randomColor() }` */
  function NewUser(p: NamePicks, e: IdEntropy): (u: User)
    requires PicksInRange(p)
    ensures |u.id| > 5 && u.id[..5] == "user_"
    ensures Text.Split(u.name) == [FirstNames[p.first], LastNames[p.last]]
    ensures u.color in Colors
  {
    User(GenerateId("user", e), RandomName(p.first, p.last), RandomColor(p.color))
  }

  /** The `user` initialiser: a saved identity is returned as it is; otherwise a new one
      is made and written under the identity key. */
  function LoadOrCreateUser(store: Store, p: NamePicks, e: IdEntropy): (r: Loaded<User>)
    requires Decodable(store) && PicksInRange(p)
    ensures Saved(store, UserKey).Some? ==> r == Loaded(store[UserKey].user, store)
    ensures Saved(store, UserKey).None? ==> r == Loaded(NewUser(p, e), store[UserKey := UserRecord(NewUser(p, e))])
    ensures UserKey in r.store && r.store[UserKey] == UserRecord(r.value)
    ensures Decodable(r.store)
  {
    match Saved(store, UserKey)
    case Some(saved) => Loaded(saved.user, store)
    case None =>
      var u := NewUser(p, e);
      Loaded(u, store[UserKey := UserRecord(u)])
  }

  /** The identity is created at most once: bootstrapping again from the store the first
      bootstrap left behind returns the same identity and writes nothing. */
  lemma UserBootstrapStable(store: Store, p: NamePicks, e: IdEntropy, p': NamePicks, e': IdEntropy)
    requires Decodable(store) && PicksInRange(p) && PicksInRange(p')
    ensures LoadOrCreateUser(LoadOrCreateUser(store, p, e).store, p', e') == LoadOrCreateUser(store, p, e)
  {
  }

  /** The `privateDocs` initialiser: a saved list is returned as it is; otherwise the list
      holding the single private document "My First Note" is created and written. */
  function LoadOrCreateDocs(store: Store, e: IdEntropy): (r: Loaded<seq<Doc>>)
    requires Decodable(store)
    ensures Saved(store, DocsKey).Some? ==> r == Loaded(store[DocsKey].docs, store)
    ensures Saved(store, DocsKey).None? ==>
              r.value == [Doc(GenerateId("doc", e), "My First Note", Private)] &&
              r.store == store[DocsKey := DocList(r.value)]
    ensures DocsKey in r.store && r.store[DocsKey] == DocList(r.value)
    ensures Decodable(r.store)
  {
    match Saved(store, DocsKey)
    case Some(saved) => Loaded(saved.docs, store)
    case None =>
      var initial := [Doc(GenerateId("doc", e), "My First Note", Private)];
      Loaded(initial, store[DocsKey := DocList(initial)])
  }

  /** The list the initialiser creates has an id no public document has, so the catalogue
      starts with unique ids; a saved list keeps whatever uniqueness it had. */
  lemma LoadedDocsUnique(store: Store, e: IdEntropy)
    requires Decodable(store)
    ensures Saved(store, DocsKey).None? ==> UniqueIds(PublicDocs + LoadOrCreateDocs(store, e).value)
    ensures Saved(store, DocsKey).Some? && UniqueIds(PublicDocs + store[DocsKey].docs) ==>
              UniqueIds(PublicDocs + LoadOrCreateDocs(store, e).value)
  {
    if Saved(store, DocsKey).None? {
      FirstNoteUnique(e);
    }
  }

  /** The catalogue at first mount, the public documents and "My First Note", has unique ids. */
  lemma FirstNoteUnique(e: IdEntropy)
    ensures UniqueIds(PublicDocs + [Doc(GenerateId("doc", e), "My First Note", Private)])
  {
    var d := Doc(GenerateId("doc", e), "My First Note", Private);
    GeneratedDocIdNotPublic(e);
    assert PublicDocs + [] == PublicDocs;
    CreateKeepsIdsUnique([], d);
    assert [d] + [] == [d];
  }

  /** The `activeDocId` initialiser: a saved non-empty id, else the first public document's. */
  function LoadActive(store: Store): (r: string)
    requires Decodable(store)
    ensures r != []
    ensures Saved(store, ActiveKey).Some? ==> r == store[ActiveKey].text
    ensures Saved(store, ActiveKey).None? ==> r == WelcomeId
  {
    match Saved(store, ActiveKey)
    case Some(saved) => saved.text
    case None => PublicDocs[0].id
  }

  /** The two persistence effects: the private list is always written, the active id
      only when it is non-empty; every other key keeps its value. */
  function Persisted(store: Store, docs: seq<Doc>, activeId: string): (r: Store)
    requires Decodable(store)
    ensures DocsKey in r && r[DocsKey] == DocList(docs)
    ensures activeId != [] ==> ActiveKey in r && r[ActiveKey] == Raw(activeId)
    ensures forall k :: k != DocsKey && (k != ActiveKey || activeId == []) ==>
              (k in r <==> k in store) && (k in store ==> r[k] == store[k])
    ensures Decodable(r)
  {
    var withDocs := store[DocsKey := DocList(docs)];
    if activeId != [] then withDocs[ActiveKey := Raw(activeId)] else withDocs
  }

  /** The store mirrors a session state: the identity and the private list are saved, and
      so is the active id whenever it is non-empty. */
  predicate Mirrors(store: Store, user: User, docs: seq<Doc>, activeId: string) {
    Decodable(store) &&
    UserKey in store && store[UserKey] == UserRecord(user) &&
    DocsKey in store && store[DocsKey] == DocList(docs) &&
    (activeId != [] ==> ActiveKey in store && store[ActiveKey] == Raw(activeId))
  }

  /** Once the identity is saved, running the effects makes the store mirror the state. */
  lemma PersistedMirrors(store: Store, user: User, docs: seq<Doc>, activeId: string)
    requires Decodable(store) && UserKey in store && store[UserKey] == UserRecord(user)
    ensures Mirrors(Persisted(store, docs, activeId), user, docs, activeId)
  {
    assert UserKey != DocsKey && UserKey != ActiveKey;
  }

  /** When the private list is already saved, the effects only write the active id. */
  lemma PersistedSameDocs(store: Store, docs: seq<Doc>, activeId: string)
    requires Decodable(store) && DocsKey in store && store[DocsKey] == DocList(docs) && activeId != []
    ensures Persisted(store, docs, activeId) == store[ActiveKey := Raw(activeId)]
  {
    assert store[DocsKey := DocList(docs)] == store;
  }

  /** Saving a new private list keeps the store mirroring the state with that list. */
  lemma SaveDocsMirrors(store: Store, user: User, docs: seq<Doc>, docs': seq<Doc>, activeId: string)
    requires Mirrors(store, user, docs, activeId)
    ensures Mirrors(store[DocsKey := DocList(docs')], user, docs', activeId)
  {
    assert UserKey != DocsKey && ActiveKey != DocsKey;
  }

  /** Saving a new non-empty active id keeps the store mirroring the state with that id. */
  lemma SaveActiveMirrors(store: Store, user: User, docs: seq<Doc>, activeId: string, id: string)
    requires Mirrors(store, user, docs, activeId) && id != []
    ensures Mirrors(store[ActiveKey := Raw(id)], user, docs, id)
  {
    assert UserKey != ActiveKey && DocsKey != ActiveKey;
  }
}
