/** DistributorService: the state-changing operations of the distributor,
    over one database value. Each operation reads rows, checks its
    precondition and saves one or a few rows; on a failure it reports the
    exception instead. */
module DistributorService {

  import opened Wrappers
  import opened Jvm
  import opened Store
  import opened Events
  import opened DistributorRules

  /** The listing gamePublished creates: default price, no sale. */
  function NewListing(distributorId: nat, gameId: nat, gameName: string, version: string): DistributedGame
  {
    DistributedGame(distributorId, gameId, gameName, version, DEFAULT_PRICE, None)
  }

  /** The catalog after listing a game for each of `ds`, in order: the
      i-th new row gets id `t.nextId + i`. */
  function ListAll(t: Table<DistributedGame>, ds: seq<nat>, gameId: nat, gameName: string, version: string)
    : (u: Table<DistributedGame>)
    requires Valid(t)
    ensures Valid(u) && u.nextId == t.nextId + |ds|
    ensures forall id :: id in u.rows <==> id in t.rows || t.nextId <= id < t.nextId + |ds|
    ensures forall id :: id in t.rows ==> u.rows[id] == t.rows[id]
    ensures forall i :: 0 <= i < |ds| ==> u.rows[t.nextId + i] == NewListing(ds[i], gameId, gameName, version)
    decreases |ds|
  {
    if ds == [] then t
    else
      Insert(ListAll(t, ds[..|ds| - 1], gameId, gameName, version),
             NewListing(ds[|ds| - 1], gameId, gameName, version))
  }

  /** One more distributor lists the game once more. */
  lemma ListAllStep(t: Table<DistributedGame>, ds: seq<nat>, i: nat, gameId: nat, gameName: string, version: string)
    requires Valid(t) && i < |ds|
    ensures ListAll(t, ds[..i + 1], gameId, gameName, version)
         == Insert(ListAll(t, ds[..i], gameId, gameName, version), NewListing(ds[i], gameId, gameName, version))
  {
    assert ds[..i + 1][..i] == ds[..i];
  }

  /** For distinct distributors, only the first new row is the first
      distributor's listing. */
  lemma {:induction false} ListAllFirst(t: Table<DistributedGame>, ds: seq<nat>, gameId: nat, gameName: string, version: string)
    requires Valid(t) && ds != []
    requires forall i, j :: 0 <= i < j < |ds| ==> ds[i] < ds[j]
    ensures Select(ListAll(t, ds, gameId, gameName, version), ListingOf(ds[0], gameId))
         == Select(t, ListingOf(ds[0], gameId)) + [t.nextId]
    decreases |ds|
  {
    var n := |ds|;
    var prefix := ds[..n - 1];
    var before := ListAll(t, prefix, gameId, gameName, version);
    var last := NewListing(ds[n - 1], gameId, gameName, version);
    var p := ListingOf(ds[0], gameId);
    assert ListAll(t, ds, gameId, gameName, version) == Insert(before, last);
    SelectInsert(before, last, p);
    if n > 1 {
      ListAllFirst(t, prefix, gameId, gameName, version);
      assert prefix[0] == ds[0];
      assert ds[0] < ds[n - 1];
      assert !p(last);
    } else {
      assert prefix == [];
      assert p(last);
    }
  }

  /** After gamePublished, getGameName finds the new listing of the first
      distributor, unless that distributor already listed the game: then
      there are two listings and the lookup fails. */
  lemma GameNameAfterPublish(db: DistributorDb, gameId: nat, gameName: string, version: string)
    requires db.Valid() && DistributorIds(db) != []
    ensures var after := db.(games := ListAll(db.games, DistributorIds(db), gameId, gameName, version));
      after.Valid()
      && GetGameName(after, gameId)
         == if FindListing(db, DistributorIds(db)[0], gameId).NoRow? then Ok(gameName) else Err(NonUniqueResult)
  {
    var ds := DistributorIds(db);
    var after := db.(games := ListAll(db.games, ds, gameId, gameName, version));
    ListAllFirst(db.games, ds, gameId, gameName, version);
    assert DistributorIds(after) == ds;
    assert after.games.rows[db.games.nextId + 0] == NewListing(ds[0], gameId, gameName, version);
  }

  /** One listing after a patch for the distributors `ds`. */
  function PatchRow(g: DistributedGame, ds: seq<nat>, gameId: nat, version: string): DistributedGame
  {
    if g.gameId == gameId && g.distributorId in ds then g.(version := version) else g
  }

  /** The catalog after patchPublished: the listings of the game by the
      distributors `ds` get the new version; nothing else changes. */
  function Patched(t: Table<DistributedGame>, ds: seq<nat>, gameId: nat, version: string): (u: Table<DistributedGame>)
    requires Valid(t)
    ensures Valid(u) && u.nextId == t.nextId && u.rows.Keys == t.rows.Keys
  {
    Table(map id | id in t.rows :: PatchRow(t.rows[id], ds, gameId, version), t.nextId)
  }

  /** A patch changes no listing's distributor or game, so no lookup by
      distributor and game changes. */
  lemma PatchedSelect(t: Table<DistributedGame>, ds: seq<nat>, gameId: nat, version: string, d: nat, g: nat)
    requires Valid(t)
    ensures Select(Patched(t, ds, gameId, version), ListingOf(d, g)) == Select(t, ListingOf(d, g))
  {
    var u := Patched(t, ds, gameId, version);
    SelectBelowAgree(u.rows, ListingOf(d, g), t.rows, ListingOf(d, g), t.nextId);
  }

  lemma PatchExtendNone(t: Table<DistributedGame>, ds: seq<nat>, d: nat, gameId: nat, version: string)
    requires Valid(t) && Select(t, ListingOf(d, gameId)) == []
    ensures Patched(t, ds + [d], gameId, version) == Patched(t, ds, gameId, version)
  {
    var u, v := Patched(t, ds + [d], gameId, version), Patched(t, ds, gameId, version);
    forall id | id in t.rows ensures u.rows[id] == v.rows[id] {
      assert !ListingOf(d, gameId)(t.rows[id]);
    }
  }

  lemma PatchExtendOne(t: Table<DistributedGame>, ds: seq<nat>, d: nat, gameId: nat, version: string, id: nat)
    requires Valid(t) && Select(t, ListingOf(d, gameId)) == [id] && d !in ds
    ensures id in Patched(t, ds, gameId, version).rows
    ensures Patched(t, ds + [d], gameId, version)
         == Save(Patched(t, ds, gameId, version), id, Patched(t, ds, gameId, version).rows[id].(version := version))
  {
    var u, v := Patched(t, ds + [d], gameId, version), Patched(t, ds, gameId, version);
    var w := Save(v, id, v.rows[id].(version := version));
    forall k | k in t.rows ensures u.rows[k] == w.rows[k] {
      if k != id {
        assert k !in Select(t, ListingOf(d, gameId));
      }
    }
  }

  /** The listings patchPublished updates, in distributor order: for each
      distributor of `ds` its unique listing of the game, if it has one. */
  function PatchTargets(db: DistributorDb, ds: seq<nat>, gameId: nat): (ids: seq<nat>)
    requires db.Valid()
    ensures forall i :: 0 <= i < |ids| ==>
              ids[i] in db.games.rows && db.games.rows[ids[i]].gameId == gameId
              && db.games.rows[ids[i]].distributorId in ds
    decreases |ds|
  {
    if ds == [] then []
    else
      var before := PatchTargets(db, ds[..|ds| - 1], gameId);
      match FindListing(db, ds[|ds| - 1], gameId)
      case One(id) => before + [id]
      case _ => before
  }

  lemma PatchTargetsStep(db: DistributorDb, ds: seq<nat>, i: nat, gameId: nat)
    requires db.Valid() && i < |ds|
    ensures PatchTargets(db, ds[..i + 1], gameId)
         == PatchTargets(db, ds[..i], gameId) + (if FindListing(db, ds[i], gameId).One? then [FindListing(db, ds[i], gameId).id] else [])
  {
    assert ds[..i + 1][..i] == ds[..i];
  }

  /** One round of patchPublished's loop: the lookup for the next
      distributor sees what it saw before the patch, and the patch and its
      targets grow by that distributor's listing, if it has one. */
  lemma PatchStep(db: DistributorDb, ds: seq<nat>, i: nat, gameId: nat, version: string)
    requires db.Valid() && i < |ds|
    requires forall a, b :: 0 <= a < b < |ds| ==> ds[a] < ds[b]
    ensures var cur := db.(games := Patched(db.games, ds[..i], gameId, version));
      cur.Valid() && FindListing(cur, ds[i], gameId) == FindListing(db, ds[i], gameId)
    ensures FindListing(db, ds[i], gameId).NoRow? ==>
      Patched(db.games, ds[..i + 1], gameId, version) == Patched(db.games, ds[..i], gameId, version)
      && PatchTargets(db, ds[..i + 1], gameId) == PatchTargets(db, ds[..i], gameId)
    ensures FindListing(db, ds[i], gameId).One? ==>
      var id := FindListing(db, ds[i], gameId).id;
      var cur := Patched(db.games, ds[..i], gameId, version);
      id in cur.rows
      && Patched(db.games, ds[..i + 1], gameId, version) == Save(cur, id, cur.rows[id].(version := version))
      && PatchTargets(db, ds[..i + 1], gameId) == PatchTargets(db, ds[..i], gameId) + [id]
  {
    assert ds[..i + 1] == ds[..i] + [ds[i]];
    assert ds[i] !in ds[..i];
    PatchedSelect(db.games, ds[..i], gameId, version, ds[i], gameId);
    PatchTargetsStep(db, ds, i, gameId);
    match FindListing(db, ds[i], gameId)
    case NoRow =>
      PatchExtendNone(db.games, ds[..i], ds[i], gameId, version);
    case One(id) =>
      PatchExtendOne(db.games, ds[..i], ds[i], gameId, version, id);
    case Many =>
  }

  /** When no distributor lists the game twice, the targets are exactly the
      listings of the game by the distributors `ds`, i.e. the rows that
      Patched changes. */
  lemma {:induction false} PatchTargetsComplete(db: DistributorDb, ds: seq<nat>, gameId: nat)
    requires db.Valid()
    requires forall d :: d in ds ==> !FindListing(db, d, gameId).Many?
    ensures forall id :: id in PatchTargets(db, ds, gameId) <==>
              id in db.games.rows && db.games.rows[id].gameId == gameId && db.games.rows[id].distributorId in ds
    decreases |ds|
  {
    if ds != [] {
      var n := |ds|;
      var prefix := ds[..n - 1];
      PatchTargetsComplete(db, prefix, gameId);
      forall id | id in db.games.rows && db.games.rows[id].gameId == gameId
        ensures id in PatchTargets(db, ds, gameId) <==> db.games.rows[id].distributorId in ds
      {
        var d := db.games.rows[id].distributorId;
        if d !in prefix && d == ds[n - 1] {
          assert !FindListing(db, d, gameId).NoRow?;
        }
        assert d in ds <==> d in prefix || d == ds[n - 1] by {
          assert ds == prefix + [ds[n - 1]];
        }
      }
    }
  }

  /** getGameName reads the name, which a patch does not change, through
      lookups a patch does not change. */
  lemma GameNameAfterPatch(db: DistributorDb, ds: seq<nat>, gameId: nat, version: string, g: nat)
    requires db.Valid()
    ensures var after := db.(games := Patched(db.games, ds, gameId, version));
      after.Valid() && GetGameName(after, g) == GetGameName(db, g)
  {
    var after := db.(games := Patched(db.games, ds, gameId, version));
    assert DistributorIds(after) == DistributorIds(db);
    if DistributorIds(db) != [] {
      var d := DistributorIds(db)[0];
      PatchedSelect(db.games, ds, gameId, version, d, g);
      assert FindListing(after, d, g) == FindListing(db, d, g);
      if FindListing(db, d, g).One? {
        var id := FindListing(db, d, g).id;
        assert after.games.rows[id].gameName == db.games.rows[id].gameName;
      }
    }
  }

  /** Row `id` of the owned games records that the player owns the game. */
  predicate OwnedRowOf(db: DistributorDb, id: nat, playerId: nat, gameId: nat)
  {
    id in db.owned.rows && db.owned.rows[id].playerId == playerId && db.owned.rows[id].gameId == gameId
  }

  /** The ownership lookup is ambiguous exactly when two different rows
      record the same ownership. */
  lemma OwnershipAmbiguous(db: DistributorDb, playerId: nat, gameId: nat)
    requires db.Valid()
    ensures !FindOwnedGame(db, playerId, gameId).Many? <==>
              forall a, c :: OwnedRowOf(db, a, playerId, gameId) && OwnedRowOf(db, c, playerId, gameId) ==> a == c
  {
    if FindOwnedGame(db, playerId, gameId).Many? {
      var ids := Select(db.owned, OwnershipOf(playerId, gameId));
      assert |ids| >= 2;
      assert ids[0] in ids && ids[1] in ids && ids[0] != ids[1];
      assert OwnedRowOf(db, ids[0], playerId, gameId) && OwnedRowOf(db, ids[1], playerId, gameId);
    }
  }

  /** reviewGame accepts: the player exists and owns the game, once, with
      enough play time. */
  predicate MayReview(db: DistributorDb, playerId: nat, gameId: nat): (b: bool)
    requires db.Valid()
    ensures b <==> playerId in db.players.rows
                   && (forall a, c :: OwnedRowOf(db, a, playerId, gameId) && OwnedRowOf(db, c, playerId, gameId) ==> a == c)
                   && exists id :: OwnedRowOf(db, id, playerId, gameId) && db.owned.rows[id].playTime >= 1
  {
    OwnershipAmbiguous(db, playerId, gameId);
    var l := FindOwnedGame(db, playerId, gameId);
    assert l.One? ==> OwnedRowOf(db, l.id, playerId, gameId);
    playerId in db.players.rows && l.One? && PassesPlaytimeGate(db.owned.rows[l.id].playTime)
  }

  /** reviewGame refuses with its IllegalStateException: the player exists
      but does not own the game, or has not played it long enough. */
  predicate ReviewRefusedFor(db: DistributorDb, playerId: nat, gameId: nat): (b: bool)
    requires db.Valid()
    ensures b ==> !MayReview(db, playerId, gameId)
    ensures b <==> playerId in db.players.rows
                   && (forall a, c :: OwnedRowOf(db, a, playerId, gameId) && OwnedRowOf(db, c, playerId, gameId) ==> a == c)
                   && forall id :: OwnedRowOf(db, id, playerId, gameId) ==> db.owned.rows[id].playTime < 1
  {
    OwnershipAmbiguous(db, playerId, gameId);
    var l := FindOwnedGame(db, playerId, gameId);
    assert l.One? ==> OwnedRowOf(db, l.id, playerId, gameId);
    playerId in db.players.rows
    && (l.NoRow? || (l.One? && !PassesPlaytimeGate(db.owned.rows[l.id].playTime)))
  }

  /** gamePublished's loop over the distributors `ds`: one new listing per
      distributor, in order, saved under consecutive fresh ids. */
  method ListEach(t: Table<DistributedGame>, ds: seq<nat>, gameId: nat, gameName: string, version: string)
    returns (u: Table<DistributedGame>, saved: seq<nat>)
    requires Valid(t)
    ensures u == ListAll(t, ds, gameId, gameName, version)
    ensures |saved| == |ds| && forall i :: 0 <= i < |saved| ==> saved[i] == t.nextId + i
  {
    u := t;
    saved := [];
    for i := 0 to |ds|
      invariant u == ListAll(t, ds[..i], gameId, gameName, version)
      invariant |saved| == i && forall k :: 0 <= k < i ==> saved[k] == t.nextId + k
    {
      ListAllStep(t, ds, i, gameId, gameName, version);
      saved := saved + [u.nextId];
      u := Insert(u, NewListing(ds[i], gameId, gameName, version));
    }
    assert ds[..|ds|] == ds;
  }

  /** patchPublished's loop over the distributors `ds`, on the catalog of
      `db`: each distributor's unique listing of the game gets the new
      version. The loop stops at the first distributor whose lookup is
      ambiguous, keeping the listings already updated. */
  method PatchEach(db: DistributorDb, ds: seq<nat>, gameId: nat, version: string)
    returns (games: Table<DistributedGame>, updated: seq<nat>, clash: Option<nat>)
    requires db.Valid()
    requires forall a, b :: 0 <= a < b < |ds| ==> ds[a] < ds[b]
    ensures clash.None? <==> forall d :: d in ds ==> !FindListing(db, d, gameId).Many?
    ensures clash.None? ==>
      games == Patched(db.games, ds, gameId, version) && updated == PatchTargets(db, ds, gameId)
    ensures clash.Some? ==>
      clash.value < |ds| && FindListing(db, ds[clash.value], gameId).Many?
      && games == Patched(db.games, ds[..clash.value], gameId, version)
  {
    games := db.games;
    updated := [];
    for i := 0 to |ds|
      invariant games == Patched(db.games, ds[..i], gameId, version)
      invariant forall k :: 0 <= k < i ==> !FindListing(db, ds[k], gameId).Many?
      invariant updated == PatchTargets(db, ds[..i], gameId)
    {
      PatchStep(db, ds, i, gameId, version);
      match FindListing(db.(games := games), ds[i], gameId)
      case Many =>
        return games, updated, Some(i);
      case NoRow =>
      case One(id) =>
        games := Save(games, id, games.rows[id].(version := version));
        updated := updated + [id];
    }
    assert ds[..|ds|] == ds;
    assert forall d :: d in ds ==> exists k :: 0 <= k < |ds| && ds[k] == d;
    return games, updated, None;
  }

  /** The player page of a distributor: the fixed message when it has no
      players, otherwise one entry per player of the distributor, in id
      order. */
  function PlayerPageOf(db: DistributorDb, distributorId: nat): (page: PlayerPage)
    requires db.Valid()
    ensures Select(db.players, ClientOf(distributorId)) == [] <==> page == NoPlayers
    ensures page.Directory? ==>
      var ids := Select(db.players, ClientOf(distributorId));
      |page.entries| == |ids| && forall i :: 0 <= i < |ids| ==> page.entries[i] == EntryFor(db, ids[i])
  {
    var ids := Select(db.players, ClientOf(distributorId));
    if ids == [] then NoPlayers
    else Directory(seq(|ids|, i requires 0 <= i < |ids| => EntryFor(db, ids[i])))
  }

  /** generatePlayerPage's loop: the page entry of each of `ids`, in order. */
  method EntriesFor(db: DistributorDb, ids: seq<nat>) returns (entries: seq<PlayerEntry>)
    requires db.Valid() && forall i :: 0 <= i < |ids| ==> ids[i] in db.players.rows
    ensures |entries| == |ids| && forall k :: 0 <= k < |ids| ==> entries[k] == EntryFor(db, ids[k])
  {
    entries := [];
    for i := 0 to |ids|
      invariant |entries| == i
      invariant forall k :: 0 <= k < i ==> entries[k] == EntryFor(db, ids[k])
    {
      var e := EntryFor(db, ids[i]);
      entries := entries + [e];
    }
  }

  /** The distributor service, holding its database. */
  class DistributorService {

    var db: DistributorDb

    constructor (initial: DistributorDb)
      requires initial.Valid()
      ensures db == initial
    {
      db := initial;
    }

    /** registerPlayer: the distributor must exist; the new player is
        registered now, with an empty wish list. */
    method RegisterPlayer(distributorId: nat, pseudo: string, firstName: string, lastName: string,
                          birthDate: int, now: int)
      returns (r: Result<nat, Failure>)
      requires db.Valid()
      modifies this
      ensures db.Valid()
      ensures distributorId !in old(db).distributors.rows ==> r == Err(NotFound) && db == old(db)
      ensures distributorId in old(db).distributors.rows ==>
        r == Ok(old(db).players.nextId)
        && db == old(db).(players := Insert(old(db).players,
                   Player(distributorId, pseudo, firstName, lastName, birthDate, now, [])))
    {
      match FindById(db.distributors, distributorId)
      case None =>
        return Err(NotFound);
      case Some(_) =>
        var id := db.players.nextId;
        db := db.(players := Insert(db.players, Player(distributorId, pseudo, firstName, lastName, birthDate, now, [])));
        return Ok(id);
    }

    /** reviewGame: the player must exist, and own the game with a play time
        that is not below 0.25 minutes; the review is stored with empty
        reaction lists. Every failure leaves the database unchanged. */
    method ReviewGame(playerId: nat, gameId: nat, rating: Int32, comment: Option<string>, now: int)
      returns (r: Result<nat, Failure>)
      requires db.Valid()
      modifies this
      ensures db.Valid()
      ensures r.Err? ==> db == old(db) && r.error in {NotFound, NonUniqueResult, ReviewNotAllowed}
      ensures r == Err(NotFound) <==> playerId !in old(db).players.rows
      ensures r == Err(NonUniqueResult) <==>
                playerId in old(db).players.rows && FindOwnedGame(old(db), playerId, gameId).Many?
      ensures r == Err(ReviewNotAllowed) <==> ReviewRefusedFor(old(db), playerId, gameId)
      ensures r.Ok? <==> MayReview(old(db), playerId, gameId)
      ensures r.Ok? ==>
        r.value == old(db).reviews.nextId
        && db == old(db).(reviews := Insert(old(db).reviews, Review(playerId, gameId, rating, comment, now, [], [])))
    {
      if FindById(db.players, playerId).None? {
        return Err(NotFound);
      }
      match FindOwnedGame(db, playerId, gameId)
      case Many =>
        return Err(NonUniqueResult);
      case NoRow =>
        return Err(ReviewNotAllowed);
      case One(o) =>
        if !PassesPlaytimeGate(db.owned.rows[o].playTime) {
          return Err(ReviewNotAllowed);
        }
        var id := db.reviews.nextId;
        var review := Review(playerId, gameId, rating, comment, now, [], []);
        assert Exclusive(review);
        db := db.(reviews := Insert(db.reviews, review));
        return Ok(id);
    }

    /** gamePublished: fails when there is no distributor; otherwise lists
        the game once per distributor, in distributor order, and returns
        the ids of the new listings. */
    method GamePublished(gameId: nat, gameName: string, version: string) returns (r: Result<seq<nat>, Failure>)
      requires db.Valid()
      modifies this
      ensures db.Valid()
      ensures DistributorIds(old(db)) == [] ==> r == Err(NoDistributor) && db == old(db)
      ensures DistributorIds(old(db)) != [] ==>
        r.Ok? && |r.value| == |DistributorIds(old(db))|
        && (forall i :: 0 <= i < |r.value| ==> r.value[i] == old(db).games.nextId + i)
        && db == old(db).(games := ListAll(old(db).games, DistributorIds(old(db)), gameId, gameName, version))
    {
      var ds := DistributorIds(db);
      if ds == [] {
        return Err(NoDistributor);
      }
      var games, saved := ListEach(db.games, ds, gameId, gameName, version);
      db := db.(games := games);
      return Ok(saved);
    }

    /** patchPublished: fails when there is no distributor, or when some
        distributor lists the game twice; otherwise sets the new version
        on every listing of the game by a distributor, and returns the ids
        of those listings. On the second failure the listings of the
        distributors before the failing one have already been saved. */
    method PatchPublished(gameId: nat, version: string) returns (r: Result<seq<nat>, Failure>)
      requires db.Valid()
      modifies this
      ensures db.Valid()
      ensures DistributorIds(old(db)) == [] <==> r == Err(NoDistributor)
      ensures r == Err(NoDistributor) ==> db == old(db)
      ensures r.Err? ==> r.error in {NoDistributor, NonUniqueResult}
      ensures r.Ok? <==> (DistributorIds(old(db)) != []
                && forall d :: d in DistributorIds(old(db)) ==> !FindListing(old(db), d, gameId).Many?)
      ensures r.Ok? ==>
        db == old(db).(games := Patched(old(db).games, DistributorIds(old(db)), gameId, version))
        && r.value == PatchTargets(old(db), DistributorIds(old(db)), gameId)
    {
      var ds := DistributorIds(db);
      if ds == [] {
        return Err(NoDistributor);
      }
      var games, updated, clash := PatchEach(db, ds, gameId, version);
      db := db.(games := games);
      if clash.Some? {
        return Err(NonUniqueResult);
      }
      return Ok(updated);
    }

    /** startSale: the listing must exist (and be unique); its sale is set. */
    method StartSale(distributorId: nat, gameId: nat, salePercentage: bv32) returns (r: Result<nat, Failure>)
      requires db.Valid()
      modifies this
      ensures db.Valid()
      ensures match FindListing(old(db), distributorId, gameId)
        case NoRow => r == Err(NotFound) && db == old(db)
        case Many => r == Err(NonUniqueResult) && db == old(db)
        case One(id) =>
          r == Ok(id)
          && db == old(db).(games := Save(old(db).games, id, old(db).games.rows[id].(sale := Some(salePercentage))))
    {
      match FindListing(db, distributorId, gameId)
      case NoRow =>
        return Err(NotFound);
      case Many =>
        return Err(NonUniqueResult);
      case One(id) =>
        db := db.(games := Save(db.games, id, db.games.rows[id].(sale := Some(salePercentage))));
        return Ok(id);
    }

    /** purchaseGame: the player must exist; a new purchase row with no play
        time is saved, even when the player already owns the game. */
    method PurchaseGame(playerId: nat, gameId: nat, now: int) returns (r: Result<nat, Failure>)
      requires db.Valid()
      modifies this
      ensures db.Valid()
      ensures playerId !in old(db).players.rows ==> r == Err(NotFound) && db == old(db)
      ensures playerId in old(db).players.rows ==>
        r == Ok(old(db).owned.nextId)
        && db == old(db).(owned := Insert(old(db).owned, OwnedGame(playerId, gameId, now, 0)))
    {
      match FindById(db.players, playerId)
      case None =>
        return Err(NotFound);
      case Some(_) =>
        var id := db.owned.nextId;
        db := db.(owned := Insert(db.owned, OwnedGame(playerId, gameId, now, 0)));
        return Ok(id);
    }

    /** addPlayTime: the purchase must exist (and be unique); its play time
        grows by the session's whole minutes; nothing else changes. */
    method AddPlayTime(playerId: nat, gameId: nat, time: int) returns (r: Result<nat, Failure>)
      requires db.Valid()
      modifies this
      ensures db.Valid()
      ensures match FindOwnedGame(old(db), playerId, gameId)
        case NoRow => r == Err(NotFound) && db == old(db)
        case Many => r == Err(NonUniqueResult) && db == old(db)
        case One(id) =>
          r == Ok(id)
          && db == old(db).(owned := Save(old(db).owned, id,
                     old(db).owned.rows[id].(playTime := AccruePlayTime(old(db).owned.rows[id].playTime, time))))
    {
      match FindOwnedGame(db, playerId, gameId)
      case NoRow =>
        return Err(NotFound);
      case Many =>
        return Err(NonUniqueResult);
      case One(id) =>
        var o := db.owned.rows[id];
        db := db.(owned := Save(db.owned, id, o.(playTime := AccruePlayTime(o.playTime, time))));
        return Ok(id);
    }

    /** reactReview: the review and the player must exist; the review's
        reaction lists are replaced by React's. */
    method ReactReview(reviewId: nat, playerId: nat, reactType: Int32) returns (r: Result<nat, Failure>)
      requires db.Valid()
      modifies this
      ensures db.Valid()
      ensures reviewId !in old(db).reviews.rows || playerId !in old(db).players.rows ==>
        r == Err(NotFound) && db == old(db)
      ensures reviewId in old(db).reviews.rows && playerId in old(db).players.rows ==>
        r == Ok(reviewId)
        && db == old(db).(reviews := Save(old(db).reviews, reviewId,
                   React(old(db).reviews.rows[reviewId], playerId, reactType)))
    {
      match FindById(db.reviews, reviewId)
      case None =>
        return Err(NotFound);
      case Some(review) =>
        if FindById(db.players, playerId).None? {
          return Err(NotFound);
        }
        ReactKeepsExclusive(review, playerId, reactType);
        db := db.(reviews := Save(db.reviews, reviewId, React(review, playerId, reactType)));
        return Ok(reviewId);
    }

    /** addWishedGame: the player must exist; the game is appended to the
        wish list when it is not already there. */
    method AddWishedGame(playerId: nat, gameId: nat) returns (r: Result<nat, Failure>)
      requires db.Valid()
      modifies this
      ensures db.Valid()
      ensures playerId !in old(db).players.rows ==> r == Err(NotFound) && db == old(db)
      ensures playerId in old(db).players.rows ==>
        r == Ok(playerId)
        && db == old(db).(players := Save(old(db).players, playerId,
                   old(db).players.rows[playerId].(wishedGames :=
                     AddWished(old(db).players.rows[playerId].wishedGames, gameId))))
    {
      match FindById(db.players, playerId)
      case None =>
        return Err(NotFound);
      case Some(p) =>
        db := db.(players := Save(db.players, playerId, p.(wishedGames := AddWished(p.wishedGames, gameId))));
        return Ok(playerId);
    }

    /** removeWishedGame: the player must exist; the first occurrence of the
        game leaves the wish list. */
    method RemoveWishedGame(playerId: nat, gameId: nat) returns (r: Result<nat, Failure>)
      requires db.Valid()
      modifies this
      ensures db.Valid()
      ensures playerId !in old(db).players.rows ==> r == Err(NotFound) && db == old(db)
      ensures playerId in old(db).players.rows ==>
        r == Ok(playerId)
        && db == old(db).(players := Save(old(db).players, playerId,
                   old(db).players.rows[playerId].(wishedGames :=
                     RemoveFirst(old(db).players.rows[playerId].wishedGames, gameId))))
    {
      match FindById(db.players, playerId)
      case None =>
        return Err(NotFound);
      case Some(p) =>
        db := db.(players := Save(db.players, playerId, p.(wishedGames := RemoveFirst(p.wishedGames, gameId))));
        return Ok(playerId);
    }

    /** generatePlayerPage, building the directory one player at a time. */
    method GeneratePlayerPage(distributorId: nat) returns (page: PlayerPage)
      requires db.Valid()
      ensures page == PlayerPageOf(db, distributorId)
    {
      var ids := Select(db.players, ClientOf(distributorId));
      if ids == [] {
        return NoPlayers;
      }
      var entries := EntriesFor(db, ids);
      return Directory(entries);
    }
  }

  /** purchaseGame has no duplicate check: a second purchase of the same
      game makes the ownership lookup ambiguous, and from then on
      installing the game fails with a non-unique result. */
  lemma SecondPurchaseBreaksInstall(db: DistributorDb, playerId: nat, gameId: nat, first: int, second: int)
    requires db.Valid()
    ensures var once := db.(owned := Insert(db.owned, OwnedGame(playerId, gameId, first, 0)));
      var twice := once.(owned := Insert(once.owned, OwnedGame(playerId, gameId, second, 0)));
      twice.Valid()
      && FindOwnedGame(twice, playerId, gameId).Many?
      && ProcessInstallGame(twice, playerId, gameId) == Err(NonUniqueResult)
  {
    var once := db.(owned := Insert(db.owned, OwnedGame(playerId, gameId, first, 0)));
    var twice := once.(owned := Insert(once.owned, OwnedGame(playerId, gameId, second, 0)));
    SelectInsert(db.owned, OwnedGame(playerId, gameId, first, 0), OwnershipOf(playerId, gameId));
    SelectInsert(once.owned, OwnedGame(playerId, gameId, second, 0), OwnershipOf(playerId, gameId));
  }
}
