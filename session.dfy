/** The session state of App.jsx: the identity, the private document list, the active
    document id and the browser store they are persisted to, with the handlers that
    change them. Each handler is modelled together with the persistence effects that
    React runs after it, as one atomic transition. */
module App {
  import opened Catalog

  class Session {
    var user: User
    var privateDocs: seq<Doc>
    var activeDocId: string
    var store: Store

    /** The store mirrors the state: the identity and the private list are always saved,
        the active id whenever it is non-empty. */
    ghost predicate Valid()
      reads this
    {
      Mirrors(store, user, privateDocs, activeDocId)
    }

    /** The `activeDoc` memo: always a document of the catalogue. */
    function ActiveDoc(): (d: Doc)
      reads this
      ensures d in PublicDocs + privateDocs
    {
      Resolve(privateDocs, activeDocId)
    }

    /** Mounting the app: the three `useState` initialisers, in order, then the two
        persistence effects. A freshly created list, or a saved one whose ids are unique
        together with the public ones, gives a catalogue with unique ids. */
    constructor (saved: Store, picks: NamePicks, userEntropy: IdEntropy, docEntropy: IdEntropy)
      requires Decodable(saved) && PicksInRange(picks)
      ensures Valid()
      ensures var u := LoadOrCreateUser(saved, picks, userEntropy);
              var d := LoadOrCreateDocs(u.store, docEntropy);
              user == u.value && privateDocs == d.value && activeDocId == LoadActive(d.store) &&
              store == Persisted(d.store, privateDocs, activeDocId)
      ensures Saved(saved, DocsKey).None? ==> UniqueIds(PublicDocs + privateDocs)
      ensures Saved(saved, DocsKey).Some? && UniqueIds(PublicDocs + saved[DocsKey].docs) ==>
                UniqueIds(PublicDocs + privateDocs)
    {
      var u := LoadOrCreateUser(saved, picks, userEntropy);
      assert Saved(u.store, DocsKey) == Saved(saved, DocsKey);
      LoadedDocsUnique(u.store, docEntropy);
      var d := LoadOrCreateDocs(u.store, docEntropy);
      var active := LoadActive(d.store);
      user := u.value;
      privateDocs := d.value;
      activeDocId := active;
      store := Persisted(d.store, d.value, active);
    }

    /** `onSelect={setActiveDocId}` from the sidebar, then the active-id effect. */
    method Select(id: string)
      requires Valid()
      modifies this
      ensures Valid()
      ensures activeDocId == id
      ensures privateDocs == old(privateDocs) && user == old(user)
      ensures store == if id != [] then old(store)[ActiveKey := Raw(id)] else old(store)
    {
      if id != [] {
        SaveActiveMirrors(store, user, privateDocs, activeDocId, id);
        store := store[ActiveKey := Raw(id)];
      }
      activeDocId := id;
    }

    /** `handleCreateDoc(visibility)`: a new "Untitled" document, prepended to the private
        list when private, becomes the active id in every case. */
    method CreateDoc(visibility: Visibility, e: IdEntropy) returns (newDoc: Doc)
      requires Valid()
      modifies this
      ensures Valid()
      ensures newDoc == NewDoc(e, visibility)
      ensures privateDocs == if visibility == Private then [newDoc] + old(privateDocs) else old(privateDocs)
      ensures activeDocId == newDoc.id && user == old(user)
      ensures store == if visibility == Private then Persisted(old(store), privateDocs, activeDocId)
                       else old(store)[ActiveKey := Raw(activeDocId)]
      ensures visibility == Private ==> ActiveDoc() == newDoc
      ensures visibility == Public && !HasId(old(privateDocs), newDoc.id) ==> ActiveDoc() == PublicDocs[0]
      ensures UniqueIds(PublicDocs + old(privateDocs)) && !HasId(PublicDocs + old(privateDocs), newDoc.id) ==>
                UniqueIds(PublicDocs + privateDocs)
    {
      newDoc := NewDoc(e, visibility);
      if visibility == Private {
        privateDocs := [newDoc] + privateDocs;
        CreatedDocResolves(old(privateDocs), e);
        if UniqueIds(PublicDocs + old(privateDocs)) && !HasId(PublicDocs + old(privateDocs), newDoc.id) {
          CreateKeepsIdsUnique(old(privateDocs), newDoc);
        }
      } else {
        if !HasId(privateDocs, newDoc.id) {
          CreateNonPrivateFallsBack(privateDocs, e);
        }
      }
      activeDocId := newDoc.id;
      PersistedMirrors(store, user, privateDocs, activeDocId);
      if visibility == Public {
        PersistedSameDocs(store, privateDocs, activeDocId);
      }
      store := Persisted(store, privateDocs, activeDocId);
    }

    /** `handleRenameDoc(id, title)`: the title of every private document with that id is
        replaced; the list is saved again. */
    method RenameDoc(id: string, title: string)
      requires Valid()
      modifies this
      ensures Valid()
      ensures privateDocs == Renamed(old(privateDocs), id, title)
      ensures activeDocId == old(activeDocId) && user == old(user)
      ensures store == old(store)[DocsKey := DocList(privateDocs)]
      ensures UniqueIds(PublicDocs + old(privateDocs)) ==> UniqueIds(PublicDocs + privateDocs)
    {
      if UniqueIds(PublicDocs + privateDocs) {
        RenameKeepsCatalogUnique(privateDocs, id, title);
      }
      SaveDocsMirrors(store, user, privateDocs, Renamed(privateDocs, id, title), activeDocId);
      privateDocs := Renamed(privateDocs, id, title);
      store := store[DocsKey := DocList(privateDocs)];
    }

    /** `handleDeleteDoc(id)`: the documents with that id leave the private list; if the
        id was the active one, the first public document becomes active. */
    method DeleteDoc(id: string)
      requires Valid()
      modifies this
      ensures Valid()
      ensures privateDocs == Removed(old(privateDocs), id)
      ensures activeDocId == if old(activeDocId) == id then WelcomeId else old(activeDocId)
      ensures user == old(user)
      ensures store == if old(activeDocId) == id
                       then old(store)[DocsKey := DocList(privateDocs)][ActiveKey := Raw(WelcomeId)]
                       else old(store)[DocsKey := DocList(privateDocs)]
      ensures old(activeDocId) == id ==> ActiveDoc() == PublicDocs[0]
      ensures UniqueIds(PublicDocs + old(privateDocs)) ==> UniqueIds(PublicDocs + privateDocs)
    {
      if UniqueIds(PublicDocs + privateDocs) {
        RemovedKeepsCatalogUnique(privateDocs, id);
      }
      SaveDocsMirrors(store, user, privateDocs, Removed(privateDocs, id), activeDocId);
      privateDocs := Removed(privateDocs, id);
      store := store[DocsKey := DocList(privateDocs)];
      if activeDocId == id {
        SaveActiveMirrors(store, user, privateDocs, activeDocId, WelcomeId);
        activeDocId := WelcomeId;
        store := store[ActiveKey := Raw(WelcomeId)];
        ResolveWelcome(privateDocs);
      }
    }

    /** The title field's `onChange`: it renames the active document only when that
        document is private, so a public document's title never changes. */
    method EditTitle(title: string)
      requires Valid()
      modifies this
      ensures Valid()
      ensures old(ActiveDoc()).visibility == Private ==>
                privateDocs == Renamed(old(privateDocs), old(ActiveDoc()).id, title) &&
                store == old(store)[DocsKey := DocList(privateDocs)]
      ensures old(ActiveDoc()).visibility != Private ==> privateDocs == old(privateDocs) && store == old(store)
      ensures activeDocId == old(activeDocId) && user == old(user)
      ensures UniqueIds(PublicDocs + old(privateDocs)) ==> UniqueIds(PublicDocs + privateDocs)
    {
      var active := ActiveDoc();
      if active.visibility == Private {
        RenameDoc(active.id, title);
      }
    }
  }
}
