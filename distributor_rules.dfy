/** The distributor's records and the pure rules of DistributorService:
    the repository queries, the gates, the list edits applied to wish lists
    and reactions, playtime accrual, and the read-only operations
    (processInstallGame, processUpdateGame, processCrashReport,
    getPlayerName, getGameName). The state-changing operations are the
    methods of the class in the DistributorService module. */
module DistributorRules {

  import opened Wrappers
  import opened Jvm
  import opened Store
  import opened Events

  datatype Distributor = Distributor(name: string)

  /** A game in one distributor's catalog. Price and sale are Java `float`s,
      kept as their IEEE-754 bit patterns. */
  datatype DistributedGame = DistributedGame(
    distributorId: nat, gameId: nat, gameName: string, version: string,
    price: bv32, sale: Option<bv32>)

  datatype Player = Player(
    distributorId: nat, pseudo: string, firstName: string, lastName: string,
    birthDate: int, registrationDate: int, wishedGames: seq<nat>)

  /** A purchase; the play time is an `int` number of minutes. */
  datatype OwnedGame = OwnedGame(playerId: nat, gameId: nat, purchaseDate: int, playTime: Int32)

  /** A review; the reaction lists hold the ids of the reacting players. */
  datatype Review = Review(
    playerId: nat, gameId: nat, rating: Int32, comment: Option<string>,
    publicationDate: int, positiveReactions: seq<nat>, negativeReactions: seq<nat>)

  /** 59.99f, the price every newly distributed game gets. */
  const DEFAULT_PRICE: bv32 := 0x426F_F5C3

  /** The exceptions the operations throw. */
  datatype Failure =
    | NotFound         // orElseThrow(RuntimeException) on a missing row
    | NoDistributor    // no distributor in the database (RuntimeException)
    | NonUniqueResult  // an Optional query matched several rows
    | NotOwned         // IllegalStateException: the player does not own the game
    | ReviewNotAllowed // IllegalStateException: no ownership or too little playtime
    | AlreadyUpToDate  // IllegalStateException: installed version is current
    | InvalidPlatform  // IllegalArgumentException from Platform.valueOf

  /** The failures the listeners catch (`catch (IllegalStateException e)`). */
  predicate IsIllegalState(f: Failure)
  {
    f.NotOwned? || f.ReviewNotAllowed? || f.AlreadyUpToDate?
  }

  /** Every player appears at most once across a review's two lists. */
  predicate Exclusive(r: Review)
  {
    forall p :: p in r.positiveReactions + r.negativeReactions ==>
      multiset(r.positiveReactions + r.negativeReactions)[p] == 1
  }

  /** The distributor database. */
  datatype DistributorDb = DistributorDb(
    distributors: Table<Distributor>,
    games: Table<DistributedGame>,
    players: Table<Player>,
    owned: Table<OwnedGame>,
    reviews: Table<Review>)
  {
    /** Every table is well formed and reactions are exclusive. */
    predicate Valid()
    {
      Store.Valid(distributors) && Store.Valid(games) && Store.Valid(players)
      && Store.Valid(owned) && Store.Valid(reviews)
      && forall id :: id in reviews.rows ==> Exclusive(reviews.rows[id])
    }
  }

  // ---------------------------------------------------------------------
  // Repository queries

  function AnyDistributor(): Distributor -> bool
  {
    (d: Distributor) => true
  }

  function ListingOf(distributorId: nat, gameId: nat): DistributedGame -> bool
  {
    (g: DistributedGame) => g.distributorId == distributorId && g.gameId == gameId
  }

  function OwnershipOf(playerId: nat, gameId: nat): OwnedGame -> bool
  {
    (o: OwnedGame) => o.playerId == playerId && o.gameId == gameId
  }

  function ClientOf(distributorId: nat): Player -> bool
  {
    (p: Player) => p.distributorId == distributorId
  }

  function OwnedBy(playerId: nat): OwnedGame -> bool
  {
    (o: OwnedGame) => o.playerId == playerId
  }

  /** `distributorRepository.findAll()`: every distributor id, ascending. */
  function DistributorIds(db: DistributorDb): (ds: seq<nat>)
    requires db.Valid()
    ensures forall d :: d in ds <==> d in db.distributors.rows
    ensures forall i, j :: 0 <= i < j < |ds| ==> ds[i] < ds[j]
  {
    Select(db.distributors, AnyDistributor())
  }

  /** `distributedGameRepository.findByDistributorIdAndGameId`. */
  function FindListing(db: DistributorDb, distributorId: nat, gameId: nat): (l: Lookup)
    requires db.Valid()
    ensures l.NoRow? <==> forall id :: id in db.games.rows ==>
              !(db.games.rows[id].distributorId == distributorId && db.games.rows[id].gameId == gameId)
    ensures l.One? ==>
              (l.id in db.games.rows
               && db.games.rows[l.id].distributorId == distributorId && db.games.rows[l.id].gameId == gameId
               && (forall id :: (id in db.games.rows && db.games.rows[id].distributorId == distributorId
                                 && db.games.rows[id].gameId == gameId) ==> id == l.id))
  {
    var ids := Select(db.games, ListingOf(distributorId, gameId));
    assert forall id :: id in db.games.rows ==>
      (ListingOf(distributorId, gameId)(db.games.rows[id])
       <==> db.games.rows[id].distributorId == distributorId && db.games.rows[id].gameId == gameId);
    assert ids != [] ==> ids[0] in ids;
    Unique(ids)
  }

  /** `ownedGameRepository.findByPlayerIdAndGameId`. */
  function FindOwnedGame(db: DistributorDb, playerId: nat, gameId: nat): (l: Lookup)
    requires db.Valid()
    ensures l.NoRow? <==> forall id :: id in db.owned.rows ==>
              !(db.owned.rows[id].playerId == playerId && db.owned.rows[id].gameId == gameId)
    ensures l.One? ==>
              (l.id in db.owned.rows
               && db.owned.rows[l.id].playerId == playerId && db.owned.rows[l.id].gameId == gameId
               && (forall id :: (id in db.owned.rows && db.owned.rows[id].playerId == playerId
                                 && db.owned.rows[id].gameId == gameId) ==> id == l.id))
  {
    var ids := Select(db.owned, OwnershipOf(playerId, gameId));
    assert forall id :: id in db.owned.rows ==>
      (OwnershipOf(playerId, gameId)(db.owned.rows[id])
       <==> db.owned.rows[id].playerId == playerId && db.owned.rows[id].gameId == gameId);
    assert ids != [] ==> ids[0] in ids;
    Unique(ids)
  }

  // ---------------------------------------------------------------------
  // Gates and record updates

  /** `ownedGame.getPlayTime() < 0.25` on an `int` play time is false
      exactly from one minute on. */
  function PassesPlaytimeGate(playTime: Int32): (ok: bool)
    ensures ok <==> playTime >= 1
  {
    !((playTime as real) < 0.25)
  }

  /** `ownedGame.getPlayTime() + (int) (time / 60000)`: the long division
      truncates toward zero, the cast and the `int` addition wrap. The
      result is the exact sum of minutes, wrapped once. */
  function AccruePlayTime(playTime: Int32, time: int): (r: Int32)
    ensures r == ToInt32(playTime + MillisToMinutes(time))
    ensures INT_MIN <= playTime + MillisToMinutes(time) <= INT_MAX ==> r == playTime + MillisToMinutes(time)
  {
    ToInt32Add(MillisToMinutes(time), playTime);
    ToInt32(playTime + ToInt32(MillisToMinutes(time)))
  }

  /** A session shorter than a minute (either sign) adds nothing. */
  lemma ShortSessionAddsNothing(playTime: Int32, time: int)
    requires -60000 < time < 60000
    ensures AccruePlayTime(playTime, time) == playTime
  {
    assert MillisToMinutes(time) == 0;
  }

  /** No repeated element. */
  predicate NoDup(s: seq<nat>)
  {
    forall i, j :: 0 <= i < j < |s| ==> s[i] != s[j]
  }

  /** `list.removeIf(p -> p.getId().equals(x))`: every occurrence of `x`
      goes, every other element stays, in order. */
  function Without(s: seq<nat>, x: nat): (r: seq<nat>)
    ensures x !in r
    ensures multiset(r) == multiset(s)[x := 0]
  {
    if s == [] then []
    else
      assert s == [s[0]] + s[1..];
      (if s[0] == x then [] else [s[0]]) + Without(s[1..], x)
  }

  lemma {:induction false} WithoutConcat(a: seq<nat>, b: seq<nat>, x: nat)
    ensures Without(a + b, x) == Without(a, x) + Without(b, x)
  {
    if a != [] {
      assert (a + b)[1..] == a[1..] + b;
      WithoutConcat(a[1..], b, x);
    } else {
      assert a + b == b;
    }
  }

  lemma {:induction false} WithoutAbsent(s: seq<nat>, x: nat)
    requires x !in s
    ensures Without(s, x) == s
  {
    if s != [] {
      WithoutAbsent(s[1..], x);
      assert s == [s[0]] + s[1..];
    }
  }

  /** The removal of the reacting player from both lists, then the append
      to the list the reaction type names: 1 positive, 2 negative, anything
      else neither. Nothing but the two lists changes. */
  function React(r: Review, player: nat, reactType: Int32): (u: Review)
    ensures u == r.(positiveReactions := u.positiveReactions, negativeReactions := u.negativeReactions)
    ensures player in u.positiveReactions <==> reactType == 1
    ensures player in u.negativeReactions <==> reactType == 2
  {
    var pos := Without(r.positiveReactions, player);
    var neg := Without(r.negativeReactions, player);
    if reactType == 1 then r.(positiveReactions := pos + [player], negativeReactions := neg)
    else if reactType == 2 then r.(positiveReactions := pos, negativeReactions := neg + [player])
    else r.(positiveReactions := pos, negativeReactions := neg)
  }

  lemma WithoutThenAppend(s: seq<nat>, x: nat)
    ensures Without(Without(s, x) + [x], x) == Without(s, x)
  {
    var w := Without(s, x);
    WithoutConcat(w, [x], x);
    WithoutAbsent(w, x);
    assert [x][1..] == [];
    assert Without([x], x) == [] + Without([], x);
  }

  /** The other players' reactions keep their order and multiplicity. */
  lemma ReactKeepsOthers(r: Review, player: nat, reactType: Int32)
    ensures Without(React(r, player, reactType).positiveReactions, player) == Without(r.positiveReactions, player)
    ensures Without(React(r, player, reactType).negativeReactions, player) == Without(r.negativeReactions, player)
  {
    WithoutAbsent(Without(r.positiveReactions, player), player);
    WithoutAbsent(Without(r.negativeReactions, player), player);
    if reactType == 1 {
      WithoutThenAppend(r.positiveReactions, player);
    } else if reactType == 2 {
      WithoutThenAppend(r.negativeReactions, player);
    }
  }

  lemma ClearBoth(a: multiset<nat>, b: multiset<nat>, x: nat)
    ensures a[x := 0] + b[x := 0] == (a + b)[x := 0]
  {
  }

  lemma ReactionCounts(r: Review, player: nat, reactType: Int32)
    ensures var u := React(r, player, reactType);
      multiset(u.positiveReactions + u.negativeReactions)
      == multiset(r.positiveReactions + r.negativeReactions)[player := 0]
         + (if reactType == 1 || reactType == 2 then multiset{player} else multiset{})
  {
    var u := React(r, player, reactType);
    var posm: multiset<nat> := multiset(Without(r.positiveReactions, player));
    var negm: multiset<nat> := multiset(Without(r.negativeReactions, player));
    var extra: multiset<nat> := if reactType == 1 || reactType == 2 then multiset{player} else multiset{};
    var pm: multiset<nat> := multiset(r.positiveReactions);
    var nm: multiset<nat> := multiset(r.negativeReactions);
    var um: multiset<nat> := multiset(u.positiveReactions + u.negativeReactions);
    assert um == multiset(u.positiveReactions) + multiset(u.negativeReactions);
    assert multiset(u.positiveReactions) + multiset(u.negativeReactions) == posm + negm + extra;
    ClearBoth(pm, nm, player);
    assert posm + negm == (pm + nm)[player := 0];
    assert multiset(r.positiveReactions + r.negativeReactions) == pm + nm;
  }

  /** After a reaction the reacting player is in at most one list, and a
      review whose lists were exclusive stays exclusive. */
  lemma ReactKeepsExclusive(r: Review, player: nat, reactType: Int32)
    requires Exclusive(r)
    ensures Exclusive(React(r, player, reactType))
  {
    var u := React(r, player, reactType);
    var before := multiset(r.positiveReactions + r.negativeReactions);
    var after := multiset(u.positiveReactions + u.negativeReactions);
    ReactionCounts(r, player, reactType);
    forall q | q in u.positiveReactions + u.negativeReactions
      ensures after[q] == 1
    {
      assert q in after;
      if q != player {
        assert after[q] == before[q];
        assert q in r.positiveReactions + r.negativeReactions;
      }
    }
  }

  /** Only the last reaction of a player counts: reacting again replaces
      the earlier reaction, so reacting twice the same way is reacting once. */
  lemma LastReactionWins(r: Review, player: nat, first: Int32, second: Int32)
    ensures React(React(r, player, first), player, second) == React(r, player, second)
  {
    ReactKeepsOthers(r, player, first);
  }

  /** The wish-list edit of addWishedGame: append only when absent. */
  function AddWished(w: seq<nat>, gameId: nat): (r: seq<nat>)
    ensures forall g :: g in r <==> g in w || g == gameId
    ensures gameId in w ==> r == w
    ensures gameId !in w ==> r == w + [gameId]
  {
    if gameId in w then w else w + [gameId]
  }

  /** addWishedGame never creates a repeat. */
  lemma AddWishedKeepsNoDup(w: seq<nat>, gameId: nat)
    requires NoDup(w)
    ensures NoDup(AddWished(w, gameId))
  {
  }

  /** Adding twice is adding once. */
  lemma AddWishedTwice(w: seq<nat>, gameId: nat)
    ensures AddWished(AddWished(w, gameId), gameId) == AddWished(w, gameId)
  {
  }

  /** The position of the first occurrence. */
  function FirstIndex(w: seq<nat>, gameId: nat): (i: nat)
    requires gameId in w
    ensures i < |w| && w[i] == gameId && gameId !in w[..i]
  {
    if w[0] == gameId then 0
    else
      var i := FirstIndex(w[1..], gameId);
      assert w[..i + 1] == [w[0]] + w[1..][..i];
      i + 1
  }

  /** `wishedGames.remove(gameId)` (List.remove(Object)): the first
      occurrence goes, nothing happens when the game is absent. */
  function RemoveFirst(w: seq<nat>, gameId: nat): (r: seq<nat>)
    ensures gameId !in w ==> r == w
    ensures gameId in w ==> multiset(r) + multiset{gameId} == multiset(w)
  {
    if w == [] then []
    else if w[0] == gameId then
      assert w == [w[0]] + w[1..];
      w[1..]
    else
      assert w == [w[0]] + w[1..];
      [w[0]] + RemoveFirst(w[1..], gameId)
  }

  /** Past a head that is not the game, both the search and the removal
      move on to the tail. */
  lemma RemoveFirstSkip(w: seq<nat>, gameId: nat)
    requires gameId in w && w[0] != gameId
    ensures gameId in w[1..]
    ensures FirstIndex(w, gameId) == FirstIndex(w[1..], gameId) + 1
    ensures RemoveFirst(w, gameId) == [w[0]] + RemoveFirst(w[1..], gameId)
  {
  }

  lemma SliceAroundTail(w: seq<nat>, i: nat)
    requires i + 1 < |w|
    ensures w[..i + 1] + w[i + 2..] == [w[0]] + (w[1..][..i] + w[1..][i + 1..])
  {
    assert w[..i + 1] == [w[0]] + w[1..][..i];
    assert w[i + 2..] == w[1..][i + 1..];
  }

  /** The element taken out is the first occurrence; the rest keeps its order. */
  lemma {:induction false} RemoveFirstAt(w: seq<nat>, gameId: nat)
    requires gameId in w
    ensures RemoveFirst(w, gameId) == w[..FirstIndex(w, gameId)] + w[FirstIndex(w, gameId) + 1..]
  {
    if w[0] == gameId {
      assert FirstIndex(w, gameId) == 0;
      assert RemoveFirst(w, gameId) == w[1..];
      assert w[..0] + w[1..] == w[1..];
    } else {
      var t := w[1..];
      RemoveFirstAt(t, gameId);
      var i := FirstIndex(t, gameId);
      RemoveFirstSkip(w, gameId);
      SliceAroundTail(w, i);
    }
  }

  /** On a wish list without repeats (as addWishedGame keeps it) removal
      leaves the game no longer wished. */
  lemma RemoveFirstOfNoDup(w: seq<nat>, gameId: nat)
    requires NoDup(w)
    ensures gameId !in RemoveFirst(w, gameId)
  {
    if gameId in w {
      var r: seq<nat> := RemoveFirst(w, gameId);
      var m: multiset<nat> := multiset(r);
      assert multiset(w)[gameId] == 1 by {
        var i := FirstIndex(w, gameId);
        assert w == w[..i] + [w[i]] + w[i + 1..];
        assert gameId !in w[i + 1..] by {
          forall k | i + 1 <= k < |w| ensures w[k] != gameId {
            assert w[i] != w[k];
          }
        }
        assert multiset(w) == multiset(w[..i]) + multiset{gameId} + multiset(w[i + 1..]);
      }
      assert m[gameId] == 0;
    }
  }

  /** Adding a game that was not wished and removing it again restores the
      wish list. */
  lemma {:induction false} RemoveAfterAdd(w: seq<nat>, gameId: nat)
    requires gameId !in w
    ensures RemoveFirst(AddWished(w, gameId), gameId) == w
  {
    assert AddWished(w, gameId) == w + [gameId];
    if w == [] {
      assert RemoveFirst([gameId], gameId) == [];
    } else {
      assert (w + [gameId])[0] == w[0];
      assert (w + [gameId])[1..] == w[1..] + [gameId];
      RemoveAfterAdd(w[1..], gameId);
      assert AddWished(w[1..], gameId) == w[1..] + [gameId];
      assert w == [w[0]] + w[1..];
    }
  }

  // ---------------------------------------------------------------------
  // Read-only operations

  /** processInstallGame: ownership first (NotOwned is the IllegalState the
      listener catches), then the player, then the player's distributor's
      listing of the game. */
  function ProcessInstallGame(db: DistributorDb, playerId: nat, gameId: nat): (r: Result<DistributedGame, Failure>)
    requires db.Valid()
    ensures r == Err(NotOwned) <==> FindOwnedGame(db, playerId, gameId).NoRow?
    ensures r.Ok? <==>
              (FindOwnedGame(db, playerId, gameId).One? && playerId in db.players.rows
               && FindListing(db, db.players.rows[playerId].distributorId, gameId).One?)
    ensures r.Ok? ==> r.value == db.games.rows[FindListing(db, db.players.rows[playerId].distributorId, gameId).id]
    ensures r.Err? ==> r.error in {NotOwned, NonUniqueResult, NotFound}
  {
    match FindOwnedGame(db, playerId, gameId)
    case NoRow => Err(NotOwned)
    case Many => Err(NonUniqueResult)
    case One(_) =>
      if playerId !in db.players.rows then Err(NotFound)
      else
        match FindListing(db, db.players.rows[playerId].distributorId, gameId)
        case NoRow => Err(NotFound)
        case Many => Err(NonUniqueResult)
        case One(id) => Ok(db.games.rows[id])
  }

  /** processUpdateGame: the install gate, then AlreadyUpToDate when the
      installed version is the listed one. */
  function ProcessUpdateGame(db: DistributorDb, playerId: nat, gameId: nat, installedVersion: string)
    : (r: Result<DistributedGame, Failure>)
    requires db.Valid()
    ensures r == Err(AlreadyUpToDate) <==>
              (ProcessInstallGame(db, playerId, gameId).Ok?
               && ProcessInstallGame(db, playerId, gameId).value.version == installedVersion)
    ensures r.Ok? <==>
              (ProcessInstallGame(db, playerId, gameId).Ok?
               && ProcessInstallGame(db, playerId, gameId).value.version != installedVersion)
    ensures r.Ok? || ProcessInstallGame(db, playerId, gameId).Err? ==> r == ProcessInstallGame(db, playerId, gameId)
  {
    match ProcessInstallGame(db, playerId, gameId)
    case Err(f) => Err(f)
    case Ok(game) => if installedVersion == game.version then Err(AlreadyUpToDate) else Ok(game)
  }

  /** processCrashReport: the id of the reporting player's distributor. */
  function ProcessCrashReport(db: DistributorDb, playerId: nat): (r: Result<nat, Failure>)
    requires db.Valid()
    ensures r.Ok? <==> playerId in db.players.rows
    ensures r.Ok? ==> r.value == db.players.rows[playerId].distributorId
    ensures r.Err? ==> r.error == NotFound
  {
    if playerId in db.players.rows then Ok(db.players.rows[playerId].distributorId) else Err(NotFound)
  }

  /** getPlayerName: the player's pseudo. */
  function GetPlayerName(db: DistributorDb, playerId: nat): (r: Result<string, Failure>)
    requires db.Valid()
    ensures r.Ok? <==> playerId in db.players.rows
    ensures r.Ok? ==> r.value == db.players.rows[playerId].pseudo
    ensures r.Err? ==> r.error == NotFound
  {
    if playerId in db.players.rows then Ok(db.players.rows[playerId].pseudo) else Err(NotFound)
  }

  /** getGameName: the name under which the FIRST distributor lists the game. */
  function GetGameName(db: DistributorDb, gameId: nat): (r: Result<string, Failure>)
    requires db.Valid()
    ensures DistributorIds(db) == [] <==> r == Err(NoDistributor)
    ensures r.Ok? <==> DistributorIds(db) != [] && FindListing(db, DistributorIds(db)[0], gameId).One?
    ensures r.Ok? ==> r.value == db.games.rows[FindListing(db, DistributorIds(db)[0], gameId).id].gameName
    ensures DistributorIds(db) != [] && FindListing(db, DistributorIds(db)[0], gameId).NoRow? ==> r == Err(NotFound)
    ensures DistributorIds(db) != [] && FindListing(db, DistributorIds(db)[0], gameId).Many? ==> r == Err(NonUniqueResult)
    ensures r.Err? ==> !IsIllegalState(r.error)
  {
    var ds := DistributorIds(db);
    if ds == [] then Err(NoDistributor)
    else
      match FindListing(db, ds[0], gameId)
      case NoRow => Err(NotFound)
      case Many => Err(NonUniqueResult)
      case One(id) => Ok(db.games.rows[id].gameName)
  }

  // ---------------------------------------------------------------------
  // The player page

  /** The `int` sum of the play times of the given purchases
      (`mapToInt(...).sum()`): the exact sum, wrapped to 32 bits. */
  function PlaytimeTotal(t: Table<OwnedGame>, ids: seq<nat>): (total: Int32)
    requires forall i :: 0 <= i < |ids| ==> ids[i] in t.rows
    ensures total == ToInt32(ExactPlaytime(t, ids))
  {
    if ids == [] then 0
    else
      var last := ids[|ids| - 1];
      ToInt32Add(ExactPlaytime(t, ids[..|ids| - 1]), t.rows[last].playTime);
      ToInt32(PlaytimeTotal(t, ids[..|ids| - 1]) + t.rows[last].playTime)
  }

  function ExactPlaytime(t: Table<OwnedGame>, ids: seq<nat>): int
    requires forall i :: 0 <= i < |ids| ==> ids[i] in t.rows
  {
    if ids == [] then 0 else ExactPlaytime(t, ids[..|ids| - 1]) + t.rows[ids[|ids| - 1]].playTime
  }

  /** With non-negative play times whose sum fits in an `int`, the page's
      total is the exact sum. */
  lemma {:induction false} PlaytimeTotalExact(t: Table<OwnedGame>, ids: seq<nat>)
    requires forall i :: 0 <= i < |ids| ==> ids[i] in t.rows && t.rows[ids[i]].playTime >= 0
    requires ExactPlaytime(t, ids) <= INT_MAX
    ensures PlaytimeTotal(t, ids) == ExactPlaytime(t, ids)
    ensures ExactPlaytime(t, ids) >= 0
  {
    if ids != [] {
      PlaytimeTotalExact(t, ids[..|ids| - 1]);
    }
  }

  /** The values generatePlayerPage writes for one player. */
  function EntryFor(db: DistributorDb, playerId: nat): (e: PlayerEntry)
    requires db.Valid() && playerId in db.players.rows
    ensures e.playerId == playerId && e.pseudo == db.players.rows[playerId].pseudo
    ensures e.firstName == db.players.rows[playerId].firstName && e.lastName == db.players.rows[playerId].lastName
    ensures e.registrationDate == db.players.rows[playerId].registrationDate
    ensures e.ownedGames == |Select(db.owned, OwnedBy(playerId))|
    ensures e.totalPlaytime == ToInt32(ExactPlaytime(db.owned, Select(db.owned, OwnedBy(playerId))))
    ensures e.wishlist == |db.players.rows[playerId].wishedGames|
  {
    var p := db.players.rows[playerId];
    var mine := Select(db.owned, OwnedBy(playerId));
    PlayerEntry(playerId, p.firstName, p.lastName, p.pseudo, p.registrationDate,
                |mine|, PlaytimeTotal(db.owned, mine), |p.wishedGames|)
  }
}
