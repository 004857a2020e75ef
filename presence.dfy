/** The presence facepile (PresenceFacepile.jsx): from the awareness states of the
    document's room to the deduplicated, insertion-ordered peer list, its first five
    entries and the overflow count. */
module Presence {
  import opened Wrappers
  import opened Catalog
  import Text

  /** One value of `awareness.getStates()`: `user` is absent until that connection has
      published its identity. */
  datatype AwarenessState = AwarenessState(user: Option<User>)

  /** `room-${activeDocId}`: the room of a document's presence channel. */
  function RoomKey(docId: string): (key: string)
    ensures |key| == |docId| + 5 && key[..5] == "room-" && key[5..] == docId
  {
    "room-" + docId
  }

  /** Different documents never share a room. */
  lemma RoomKeyInjective(a: string, b: string)
    ensures RoomKey(a) == RoomKey(b) <==> a == b
  {
    if RoomKey(a) == RoomKey(b) {
      assert a == RoomKey(a)[5..] == RoomKey(b)[5..] == b;
    }
  }

  /** The channel is only opened for a non-empty active id (`if (!activeDocId) return;`). */
  function Room(activeDocId: string): (room: Option<string>)
    ensures room.Some? <==> activeDocId != []
    ensures room.Some? ==> |room.value| >= 5 && room.value[5..] == activeDocId
  {
    if activeDocId == [] then None else Some(RoomKey(activeDocId))
  }

  // ---------------------------------------------------------------------------
  // Extracting the published users

  /** `states.map(s => s.user).filter(Boolean)`: the published users, in state order. */
  function PresentUsers(states: seq<AwarenessState>): (us: seq<User>)
    ensures |us| <= |states|
    ensures forall u :: u in us <==> exists i :: 0 <= i < |states| && states[i].user == Some(u)
  {
    if states == [] then []
    else
      var init := states[..|states| - 1];
      var last := states[|states| - 1];
      assert forall i :: 0 <= i < |init| ==> init[i] == states[i];
      PresentUsers(init) + (if last.user.Some? then [last.user.value] else [])
  }

  lemma {:induction false} PresentUsersConcat(a: seq<AwarenessState>, b: seq<AwarenessState>)
    ensures PresentUsers(a + b) == PresentUsers(a) + PresentUsers(b)
  {
    if b == [] {
      assert a + b == a;
    } else {
      var b' := b[..|b| - 1];
      assert (a + b)[..|a + b| - 1] == a + b';
      PresentUsersConcat(a, b');
    }
  }

  /** A state with no user, wherever it stands, has no effect on the users extracted. */
  lemma DropAbsent(a: seq<AwarenessState>, b: seq<AwarenessState>)
    ensures PresentUsers(a + [AwarenessState(None)] + b) == PresentUsers(a + b)
  {
    PresentUsersConcat(a + [AwarenessState(None)], b);
    PresentUsersConcat(a, [AwarenessState(None)]);
    PresentUsersConcat(a, b);
    assert PresentUsers([AwarenessState(None)]) == [];
  }

  // ---------------------------------------------------------------------------
  // Ids and their first and last positions

  /** The ids occurring among the users. */
  function IdSet(us: seq<User>): set<string> {
    if us == [] then {} else IdSet(us[..|us| - 1]) + {us[|us| - 1].id}
  }

  /** The position of the first user with the given id, or -1. This is the counterpart for
      users of `Catalog.FindIndex` for documents: it recurses on the prefix, like the
      `reduce` fold it describes, where `FindIndex` recurses from the head, like `find`. */
  function FirstIndexOf(us: seq<User>, id: string): (r: int)
    ensures -1 <= r < |us|
    ensures r >= 0 ==> us[r].id == id && forall j :: 0 <= j < r ==> us[j].id != id
    ensures r < 0 ==> forall j :: 0 <= j < |us| ==> us[j].id != id
  {
    if us == [] then -1
    else
      var init := us[..|us| - 1];
      var r := FirstIndexOf(init, id);
      assert forall i :: 0 <= i < |init| ==> init[i] == us[i];
      if r >= 0 then r else if us[|us| - 1].id == id then |us| - 1 else -1
  }

  /** The position of the last user with the given id, or -1. */
  function LastIndexOf(us: seq<User>, id: string): (r: int)
    ensures -1 <= r < |us|
    ensures r >= 0 ==> us[r].id == id && forall j :: r < j < |us| ==> us[j].id != id
    ensures r < 0 ==> forall j :: 0 <= j < |us| ==> us[j].id != id
  {
    if us == [] then -1
    else if us[|us| - 1].id == id then |us| - 1
    else
      var init := us[..|us| - 1];
      assert forall i :: 0 <= i < |init| ==> init[i] == us[i];
      LastIndexOf(init, id)
  }

  /** An id is in IdSet exactly when some user carries it. */
  lemma {:induction false} IdSetMembers(us: seq<User>)
    ensures forall k :: k in IdSet(us) <==> FirstIndexOf(us, k) >= 0
  {
    if us != [] {
      IdSetMembers(us[..|us| - 1]);
    }
  }

  /** No two users share an id: `Catalog.UniqueIds` stated for users rather than documents. */
  ghost predicate DistinctIds(us: seq<User>) {
    forall i, j :: 0 <= i < j < |us| ==> us[i].id != us[j].id
  }

  // ---------------------------------------------------------------------------
  // The JavaScript Map that deduplicates

  /** A `Map` from user id to user: its keys in insertion order and its entries. */
  datatype PeerMap = PeerMap(keys: seq<string>, entries: map<string, User>)

  /** `m.set(k, v)`: a new key goes to the end of the insertion order; a key already
      present keeps its position and takes the new value. */
  function MapSet(m: PeerMap, k: string, v: User): PeerMap {
    PeerMap(if k in m.entries then m.keys else m.keys + [k], m.entries[k := v])
  }

  /** The keys list holds each key of the entries exactly once, and each entry is filed
      under its own id. */
  ghost predicate WellFormed(m: PeerMap) {
    (forall k :: k in m.entries <==> k in m.keys) &&
    (forall i, j :: 0 <= i < j < |m.keys| ==> m.keys[i] != m.keys[j]) &&
    (forall k :: k in m.entries ==> m.entries[k].id == k) &&
    |m.keys| == |m.entries|
  }

  /** Setting a user under its own id keeps a map well formed. */
  lemma MapSetWellFormed(m: PeerMap, u: User)
    requires WellFormed(m)
    ensures WellFormed(MapSet(m, u.id, u))
  {
    var m' := MapSet(m, u.id, u);
    if u.id !in m.entries {
      assert u.id !in m.keys;
      forall i, j | 0 <= i < j < |m'.keys|
        ensures m'.keys[i] != m'.keys[j]
      {
        assert m'.keys[i] == m.keys[i] && m.keys[i] in m.keys;
        if j < |m.keys| {
          assert m'.keys[j] == m.keys[j];
        }
      }
    } else {
      assert m'.entries.Keys == m.entries.Keys;
    }
  }

  /** `users.reduce((acc, u) => { acc.set(u.id, u); return acc; }, new Map())` */
  function Fold(us: seq<User>): PeerMap {
    if us == [] then PeerMap([], map[])
    else
      var u := us[|us| - 1];
      MapSet(Fold(us[..|us| - 1]), u.id, u)
  }

  lemma {:induction false} FoldWellFormed(us: seq<User>)
    ensures WellFormed(Fold(us))
  {
    if us != [] {
      FoldWellFormed(us[..|us| - 1]);
      MapSetWellFormed(Fold(us[..|us| - 1]), us[|us| - 1]);
    }
  }

  /** `Array.from(m.values())`: the entries in key insertion order. */
  function Values(m: PeerMap): seq<User>
    requires forall i :: 0 <= i < |m.keys| ==> m.keys[i] in m.entries
  {
    seq(|m.keys|, i requires 0 <= i < |m.keys| => m.entries[m.keys[i]])
  }

  /** The peer list `updatePeers` computes from the published users. */
  function Aggregate(us: seq<User>): seq<User> {
    FoldWellFormed(us);
    Values(Fold(us))
  }

  /** The fold keeps one key per id that occurs. */
  lemma {:induction false} FoldKeys(us: seq<User>)
    ensures Fold(us).entries.Keys == IdSet(us)
  {
    if us != [] {
      var p := us[..|us| - 1];
      var u := us[|us| - 1];
      FoldKeys(p);
      assert Fold(us).entries == Fold(p).entries[u.id := u];
    }
  }

  /** The entry of each id is the last user carrying it. */
  lemma {:induction false} FoldEntries(us: seq<User>)
    ensures forall k :: k in Fold(us).entries ==>
              0 <= LastIndexOf(us, k) && Fold(us).entries[k] == us[LastIndexOf(us, k)]
  {
    if us != [] {
      var p := us[..|us| - 1];
      var u := us[|us| - 1];
      FoldEntries(p);
      var m := Fold(p).entries;
      assert Fold(us).entries == m[u.id := u];
      forall k | k in m && k != u.id
        ensures 0 <= LastIndexOf(us, k) && m[k] == us[LastIndexOf(us, k)]
      {
        assert LastIndexOf(us, k) == LastIndexOf(p, k);
        assert p[LastIndexOf(p, k)] == us[LastIndexOf(p, k)];
      }
    }
  }

  /** The keys are listed in the order in which their ids first occur among the users. */
  ghost predicate InFirstOccurrenceOrder(us: seq<User>, keys: seq<string>) {
    forall i, j :: 0 <= i < j < |keys| ==> FirstIndexOf(us, keys[i]) < FirstIndexOf(us, keys[j])
  }

  /** Every key of the fold is the id of some user. */
  lemma KeysOccur(us: seq<User>)
    ensures forall i :: 0 <= i < |Fold(us).keys| ==> 0 <= FirstIndexOf(us, Fold(us).keys[i])
  {
    FoldWellFormed(us);
    FoldKeys(us);
    IdSetMembers(us);
    var m := Fold(us);
    forall i | 0 <= i < |m.keys|
      ensures 0 <= FirstIndexOf(us, m.keys[i])
    {
      assert m.keys[i] in m.keys;
    }
  }

  /** Appending a user moves no id's first position; it gives a first position only to
      an id not seen before. */
  lemma FirstIndexOfSnoc(p: seq<User>, u: User, k: string)
    ensures FirstIndexOf(p + [u], k) ==
              if FirstIndexOf(p, k) >= 0 then FirstIndexOf(p, k)
              else if u.id == k then |p| else -1
  {
    assert (p + [u])[..|p|] == p;
  }

  /** The order survives appending a user whose keys are all already known. */
  lemma OrderSnoc(p: seq<User>, u: User, keys: seq<string>)
    requires InFirstOccurrenceOrder(p, keys)
    requires forall i :: 0 <= i < |keys| ==> 0 <= FirstIndexOf(p, keys[i])
    ensures InFirstOccurrenceOrder(p + [u], keys)
  {
    forall i | 0 <= i < |keys|
      ensures FirstIndexOf(p + [u], keys[i]) == FirstIndexOf(p, keys[i])
    {
      FirstIndexOfSnoc(p, u, keys[i]);
    }
  }

  /** The order survives appending a new id at the end of the keys. */
  lemma OrderSnocNew(p: seq<User>, u: User, keys: seq<string>)
    requires InFirstOccurrenceOrder(p, keys)
    requires forall i :: 0 <= i < |keys| ==> 0 <= FirstIndexOf(p, keys[i])
    requires FirstIndexOf(p, u.id) < 0
    ensures InFirstOccurrenceOrder(p + [u], keys + [u.id])
  {
    OrderSnoc(p, u, keys);
    FirstIndexOfSnoc(p, u, u.id);
    var ks := keys + [u.id];
    forall i, j | 0 <= i < j < |ks|
      ensures FirstIndexOf(p + [u], ks[i]) < FirstIndexOf(p + [u], ks[j])
    {
      assert ks[i] == keys[i];
      if j < |keys| {
        assert ks[j] == keys[j];
      }
    }
  }

  lemma FoldOrderSnoc(p: seq<User>, u: User)
    requires InFirstOccurrenceOrder(p, Fold(p).keys)
    ensures InFirstOccurrenceOrder(p + [u], Fold(p + [u]).keys)
  {
    assert (p + [u])[..|p|] == p;
    var m := Fold(p);
    assert Fold(p + [u]) == MapSet(m, u.id, u);
    KeysOccur(p);
    if u.id in m.entries {
      OrderSnoc(p, u, m.keys);
    } else {
      FoldKeys(p);
      IdSetMembers(p);
      OrderSnocNew(p, u, m.keys);
    }
  }

  /** The keys are ordered by where each id first occurs. */
  lemma {:induction false} FoldOrder(us: seq<User>)
    ensures InFirstOccurrenceOrder(us, Fold(us).keys)
  {
    if us != [] {
      var p := us[..|us| - 1];
      FoldOrder(p);
      FoldOrderSnoc(p, us[|us| - 1]);
      assert us == p + [us[|us| - 1]];
    }
  }

  /** The peer list reads the fold's entries in key order. */
  lemma AggregateAt(us: seq<User>)
    ensures |Aggregate(us)| == |Fold(us).keys|
    ensures forall i :: 0 <= i < |Aggregate(us)| ==>
              Fold(us).keys[i] in Fold(us).entries &&
              Aggregate(us)[i] == Fold(us).entries[Fold(us).keys[i]] &&
              Aggregate(us)[i].id == Fold(us).keys[i]
  {
    FoldWellFormed(us);
  }

  /** At most one peer per id. */
  lemma AggregateDistinct(us: seq<User>)
    ensures DistinctIds(Aggregate(us))
  {
    AggregateAt(us);
    FoldWellFormed(us);
  }

  /** The peers carry exactly the ids that were published. */
  lemma AggregateIds(us: seq<User>)
    ensures (set i | 0 <= i < |Aggregate(us)| :: Aggregate(us)[i].id) == IdSet(us)
  {
    var m := Fold(us);
    var r := Aggregate(us);
    AggregateAt(us);
    KeysAreIds(us);
    var ids := set i | 0 <= i < |r| :: r[i].id;
    forall k | k in IdSet(us)
      ensures k in ids
    {
      var i :| 0 <= i < |m.keys| && m.keys[i] == k;
      assert r[i].id == k;
    }
  }

  /** The keys of the fold are the ids that occur. */
  lemma KeysAreIds(us: seq<User>)
    ensures forall k :: k in Fold(us).keys <==> k in IdSet(us)
  {
    FoldWellFormed(us);
    FoldKeys(us);
  }

  /** There are as many peers as distinct ids. */
  lemma AggregateCount(us: seq<User>)
    ensures |Aggregate(us)| == |IdSet(us)|
  {
    var m := Fold(us);
    AggregateAt(us);
    FoldWellFormed(us);
    FoldKeys(us);
    assert |m.entries.Keys| == |m.entries|;
  }

  /** Each peer is the user from the last state that carries its id: `Map.set` overwrites. */
  lemma AggregateLastWins(us: seq<User>)
    ensures forall i :: 0 <= i < |Aggregate(us)| ==>
              0 <= LastIndexOf(us, Aggregate(us)[i].id) &&
              Aggregate(us)[i] == us[LastIndexOf(us, Aggregate(us)[i].id)]
  {
    AggregateAt(us);
    FoldEntries(us);
  }

  /** Peers are ordered by the first appearance of their ids: `Map` insertion order. */
  lemma AggregateFirstOrder(us: seq<User>)
    ensures forall i, j :: 0 <= i < j < |Aggregate(us)| ==>
              FirstIndexOf(us, Aggregate(us)[i].id) < FirstIndexOf(us, Aggregate(us)[j].id)
  {
    AggregateAt(us);
    FoldOrder(us);
  }

  function UserIds(us: seq<User>): seq<string> {
    seq(|us|, i requires 0 <= i < |us| => us[i].id)
  }

  /** An id that no user carries has no entry in the fold. */
  lemma AbsentIdNotFolded(us: seq<User>, id: string)
    requires forall i :: 0 <= i < |us| ==> us[i].id != id
    ensures id !in Fold(us).entries
  {
    FoldKeys(us);
    IdSetMembers(us);
  }

  /** Folding one more user whose id is new appends its id to the keys. */
  lemma FoldOfNewIdKeys(p: seq<User>, u: User, us: seq<User>)
    requires us == p + [u]
    requires forall i :: 0 <= i < |p| ==> p[i].id != u.id
    requires Fold(p).keys == UserIds(p)
    ensures Fold(us).keys == UserIds(us)
  {
    assert us[..|p|] == p;
    AbsentIdNotFolded(p, u.id);
    assert UserIds(us) == UserIds(p) + [u.id];
  }

  /** Folding one more user whose id is new files it under that id and keeps every
      earlier user filed under its own. */
  lemma FoldOfNewIdEntries(p: seq<User>, u: User, us: seq<User>)
    requires us == p + [u]
    requires forall i :: 0 <= i < |p| ==> p[i].id != u.id
    requires forall i :: 0 <= i < |p| ==> p[i].id in Fold(p).entries && Fold(p).entries[p[i].id] == p[i]
    ensures forall i :: 0 <= i < |us| ==> us[i].id in Fold(us).entries && Fold(us).entries[us[i].id] == us[i]
  {
    assert us[..|p|] == p;
    assert Fold(us).entries == Fold(p).entries[u.id := u];
    forall i | 0 <= i < |us|
      ensures us[i].id in Fold(us).entries && Fold(us).entries[us[i].id] == us[i]
    {
      if i < |p| {
        assert us[i] == p[i];
      }
    }
  }

  lemma {:induction false} FoldOfDistinct(us: seq<User>)
    requires DistinctIds(us)
    ensures Fold(us).keys == UserIds(us)
    ensures forall i :: 0 <= i < |us| ==> us[i].id in Fold(us).entries && Fold(us).entries[us[i].id] == us[i]
  {
    if us != [] {
      var p := us[..|us| - 1];
      var u := us[|us| - 1];
      assert us == p + [u];
      assert forall i :: 0 <= i < |p| ==> p[i] == us[i];
      assert DistinctIds(p);
      FoldOfDistinct(p);
      FoldOfNewIdKeys(p, u, us);
      FoldOfNewIdEntries(p, u, us);
    }
  }

  /** When no id repeats, aggregation returns the users unchanged, in order. */
  lemma AggregateOfDistinct(us: seq<User>)
    requires DistinctIds(us)
    ensures Aggregate(us) == us
  {
    FoldOfDistinct(us);
    AggregateAt(us);
  }

  /** Aggregation is idempotent: re-aggregating a peer list returns it unchanged. */
  lemma AggregateIdempotent(us: seq<User>)
    ensures Aggregate(Aggregate(us)) == Aggregate(us)
  {
    AggregateDistinct(us);
    AggregateOfDistinct(Aggregate(us));
  }

  /** The local identity, once published, is counted among the peers. */
  lemma LocalUserCounted(states: seq<AwarenessState>, local: User)
    requires exists i :: 0 <= i < |states| && states[i].user == Some(local)
    ensures exists i :: 0 <= i < |Aggregate(PresentUsers(states))| && Aggregate(PresentUsers(states))[i].id == local.id
  {
    var us := PresentUsers(states);
    assert local in us;
    var j :| 0 <= j < |us| && us[j] == local;
    IdSetMembers(us);
    assert FirstIndexOf(us, local.id) >= 0;
    assert local.id in IdSet(us);
    AggregateIds(us);
    var r := Aggregate(us);
    assert local.id in (set i | 0 <= i < |r| :: r[i].id);
  }

  /** One more state changes the fold by one `Map.set`, or not at all when it has no user. */
  lemma FoldStateStep(states: seq<AwarenessState>, i: nat)
    requires i < |states|
    ensures Fold(PresentUsers(states[..i + 1])) ==
              match states[i].user
              case Some(u) => MapSet(Fold(PresentUsers(states[..i])), u.id, u)
              case None => Fold(PresentUsers(states[..i]))
  {
    assert states[..i + 1][..i] == states[..i];
    var before := PresentUsers(states[..i]);
    match states[i].user {
      case Some(u) =>
        assert PresentUsers(states[..i + 1]) == before + [u];
        assert (before + [u])[..|before|] == before;
      case None =>
        assert PresentUsers(states[..i + 1]) == before;
    }
  }

  /** `updatePeers`: the fold over the awareness states into a `Map`, written as the loop
      it performs, followed by `Array.from(mapped.values())`. */
  method UpdatePeers(states: seq<AwarenessState>) returns (peers: seq<User>)
    ensures peers == Aggregate(PresentUsers(states))
    ensures DistinctIds(peers)
    ensures |peers| == |IdSet(PresentUsers(states))|
    ensures (set i | 0 <= i < |peers| :: peers[i].id) == IdSet(PresentUsers(states))
    ensures forall i :: 0 <= i < |peers| ==>
              0 <= LastIndexOf(PresentUsers(states), peers[i].id) &&
              peers[i] == PresentUsers(states)[LastIndexOf(PresentUsers(states), peers[i].id)]
    ensures forall i, j :: 0 <= i < j < |peers| ==>
              FirstIndexOf(PresentUsers(states), peers[i].id) < FirstIndexOf(PresentUsers(states), peers[j].id)
  {
    var keys: seq<string> := [];
    var entries: map<string, User> := map[];
    var i := 0;
    while i < |states|
      invariant 0 <= i <= |states|
      invariant PeerMap(keys, entries) == Fold(PresentUsers(states[..i]))
    {
      FoldStateStep(states, i);
      match states[i].user {
        case Some(u) =>
          if u.id !in entries {
            keys := keys + [u.id];
          }
          entries := entries[u.id := u];
        case None =>
      }
      i := i + 1;
    }
    assert states[..|states|] == states;
    ghost var us := PresentUsers(states);
    FoldWellFormed(us);
    assert forall k :: 0 <= k < |keys| ==> keys[k] in keys;
    peers := seq(|keys|, k requires 0 <= k < |keys| => entries[keys[k]]);
    assert peers == Aggregate(us);
    AggregateDistinct(us);
    AggregateIds(us);
    AggregateCount(us);
    AggregateLastWins(us);
    AggregateFirstOrder(us);
  }

  // ---------------------------------------------------------------------------
  // Display

  const FacepileSize: nat := 5

  /** `peers.slice(0, 5)`: the first five peers, or all of them when there are fewer. */
  function Facepile(peers: seq<User>): (shown: seq<User>)
    ensures shown <= peers
    ensures |shown| == if |peers| < FacepileSize then |peers| else FacepileSize
  {
    Text.Take(peers, FacepileSize)
  }

  /** `peers.length - facepile.length`: never negative; together with the facepile it
      accounts for every peer. */
  function Extra(peers: seq<User>): (n: int)
    ensures n >= 0 && |Facepile(peers)| + n == |peers|
    ensures n > 0 <==> |peers| > FacepileSize
  {
    |peers| - |Facepile(peers)|
  }

  /** Eight distinct identities show five faces and "+3"; three show three and no overflow. */
  lemma FacepileExamples(peers: seq<User>)
    ensures |peers| == 8 ==> |Facepile(peers)| == 5 && Extra(peers) == 3
    ensures |peers| == 3 ==> Facepile(peers) == peers && Extra(peers) == 0
  {
  }
}
