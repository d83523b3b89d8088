/** The distributor's Kafka listeners. Every listener first records the
    message in its log, then runs the service in one database transaction
    and sends the resulting events. An exception that escapes a listener
    rolls the transaction back (the database is as it was, nothing is sent)
    but the log entry stays, since the log is not part of the database. */
module DistributorConsumer {

  import opened Wrappers
  import opened Jvm
  import opened Store
  import opened Events
  import opened DistributorRules
  import opened DistributorService

  /** One GameDistributed per distributor the game was listed for. */
  function GameNotices(ds: seq<nat>, gameId: nat, gameName: string): (es: seq<Event>)
    ensures |es| == |ds|
    ensures forall i :: 0 <= i < |ds| ==> es[i] == GameDistributed(ds[i], gameId, gameName)
  {
    seq(|ds|, i requires 0 <= i < |ds| => GameDistributed(ds[i], gameId, gameName))
  }

  /** One PatchDistributed per updated listing, naming its distributor. */
  function PatchNotices(t: Table<DistributedGame>, ids: seq<nat>, gameId: nat, version: string, gameName: string)
    : (es: seq<Event>)
    requires forall i :: 0 <= i < |ids| ==> ids[i] in t.rows
    ensures |es| == |ids|
    ensures forall i :: 0 <= i < |ids| ==>
              es[i] == PatchDistributed(t.rows[ids[i]].distributorId, gameId, version, gameName)
  {
    seq(|ids|, i requires 0 <= i < |ids| => PatchDistributed(t.rows[ids[i]].distributorId, gameId, version, gameName))
  }

  /** The GameReviewed event for a saved review. */
  function ReviewNotice(reviewId: nat, distributorId: nat, r: Review): Event
  {
    GameReviewed(reviewId, distributorId, r.gameId, r.rating, r.comment, r.publicationDate,
                 r.positiveReactions, r.negativeReactions)
  }

  /** The loop of consumeGamePublished that announces each new listing,
      reading its distributor from the catalog. */
  method GameNoticesFor(start: Table<DistributedGame>, ds: seq<nat>, games: Table<DistributedGame>, ids: seq<nat>,
                        gameId: nat, gameName: string, version: string, name: string)
    returns (notices: seq<Event>)
    requires Valid(start) && games == ListAll(start, ds, gameId, gameName, version)
    requires |ids| == |ds| && forall i :: 0 <= i < |ids| ==> ids[i] == start.nextId + i
    ensures notices == GameNotices(ds, gameId, name)
  {
    notices := [];
    for i := 0 to |ids|
      invariant notices == GameNotices(ds[..i], gameId, name)
    {
      var row := games.rows[ids[i]];
      assert row == NewListing(ds[i], gameId, gameName, version);
      assert GameNotices(ds[..i + 1], gameId, name) == GameNotices(ds[..i], gameId, name) + [GameDistributed(ds[i], gameId, name)];
      notices := notices + [GameDistributed(row.distributorId, gameId, name)];
    }
    assert ds[..|ids|] == ds;
  }

  /** The loop of consumePatchPublished that announces each updated
      listing, reading its distributor from the patched catalog. */
  method PatchNoticesFor(db: DistributorDb, patched: Table<DistributedGame>, ids: seq<nat>,
                         gameId: nat, version: string, gameName: string)
    returns (notices: seq<Event>)
    requires db.Valid()
    requires forall i :: 0 <= i < |ids| ==> ids[i] in db.games.rows
    requires exists ds :: patched == Patched(db.games, ds, gameId, version)
    ensures notices == PatchNotices(db.games, ids, gameId, version, gameName)
  {
    ghost var ds :| patched == Patched(db.games, ds, gameId, version);
    notices := [];
    for i := 0 to |ids|
      invariant notices == PatchNotices(db.games, ids[..i], gameId, version, gameName)
    {
      var row := patched.rows[ids[i]];
      assert row == PatchRow(db.games.rows[ids[i]], ds, gameId, version);
      assert PatchNotices(db.games, ids[..i + 1], gameId, version, gameName)
          == PatchNotices(db.games, ids[..i], gameId, version, gameName)
             + [PatchDistributed(row.distributorId, gameId, version, gameName)];
      notices := notices + [PatchDistributed(row.distributorId, gameId, version, gameName)];
    }
    assert ids[..|ids|] == ids;
  }

  class KafkaConsumerService {

    const service: DistributorService
    var logs: seq<ConsumeLog>
    /** The events handed to the producer, in order. */
    var outbox: seq<Event>

    predicate Valid()
      reads this, service
    {
      service.db.Valid()
    }

    constructor (service: DistributorService)
      requires service.db.Valid()
      ensures this.service == service && logs == [] && outbox == []
    {
      this.service := service;
      logs := [];
      outbox := [];
    }

    /** consumeGamePublished: the game is listed by every distributor and
        each listing is announced under the name getGameName then reads. */
    method ConsumeGamePublished(key: string, e: Event, now: int) returns (failure: Option<Failure>)
      requires e.GamePublished? && Valid()
      modifies this, service
      ensures Valid()
      ensures logs == old(logs) + [ConsumeLog("gamePublishedConsumer", now, key, e)]
      ensures failure.Some? ==> service.db == old(service.db) && outbox == old(outbox)
      ensures failure.None? <==>
        (DistributorIds(old(service.db)) != []
         && FindListing(old(service.db), DistributorIds(old(service.db))[0], e.gameId).NoRow?)
      ensures failure.None? ==>
        service.db == old(service.db).(games := ListAll(old(service.db).games, DistributorIds(old(service.db)),
                                                        e.gameId, e.gameName, e.version))
        && outbox == old(outbox) + GameNotices(DistributorIds(old(service.db)), e.gameId, e.gameName)
    {
      logs := logs + [ConsumeLog("gamePublishedConsumer", now, key, e)];
      var saved := service.db;
      var ds := DistributorIds(saved);
      var r := service.GamePublished(e.gameId, e.gameName, e.version);
      if r.Err? {
        service.db := saved;
        return Some(r.error);
      }
      GameNameAfterPublish(saved, e.gameId, e.gameName, e.version);
      var name := GetGameName(service.db, e.gameId);
      if name.Err? {
        service.db := saved;
        return Some(name.error);
      }
      var notices := GameNoticesFor(saved.games, ds, service.db.games, r.value, e.gameId, e.gameName, e.version, name.value);
      outbox := outbox + notices;
      return None;
    }

    /** consumePatchPublished: every distributor's listing of the game gets
        the new version and is announced under the game's name. */
    method ConsumePatchPublished(key: string, e: Event, now: int) returns (failure: Option<Failure>)
      requires e.PatchPublished? && Valid()
      modifies this, service
      ensures Valid()
      ensures logs == old(logs) + [ConsumeLog("patchPublishedConsumer", now, key, e)]
      ensures failure.Some? ==> service.db == old(service.db) && outbox == old(outbox)
      ensures failure.None? <==>
        (DistributorIds(old(service.db)) != []
         && (forall d :: d in DistributorIds(old(service.db)) ==> !FindListing(old(service.db), d, e.gameId).Many?)
         && GetGameName(old(service.db), e.gameId).Ok?)
      ensures failure.None? ==>
        service.db == old(service.db).(games := Patched(old(service.db).games, DistributorIds(old(service.db)),
                                                        e.gameId, e.version))
        && outbox == old(outbox) + PatchNotices(old(service.db).games,
                                                PatchTargets(old(service.db), DistributorIds(old(service.db)), e.gameId),
                                                e.gameId, e.version, GetGameName(old(service.db), e.gameId).value)
    {
      logs := logs + [ConsumeLog("patchPublishedConsumer", now, key, e)];
      var saved := service.db;
      var r := service.PatchPublished(e.gameId, e.version);
      if r.Err? {
        service.db := saved;
        return Some(r.error);
      }
      GameNameAfterPatch(saved, DistributorIds(saved), e.gameId, e.version, e.gameId);
      var name := GetGameName(service.db, e.gameId);
      if name.Err? {
        service.db := saved;
        return Some(name.error);
      }
      var notices := PatchNoticesFor(saved, service.db.games, r.value, e.gameId, e.version, name.value);
      outbox := outbox + notices;
      return None;
    }

    /** consumeRegisterPlayer. */
    method ConsumeRegisterPlayer(key: string, e: Event, now: int) returns (failure: Option<Failure>)
      requires e.RegisterPlayer? && Valid()
      modifies this, service
      ensures Valid()
      ensures logs == old(logs) + [ConsumeLog("registerPlayerConsumer", now, key, e)]
      ensures outbox == old(outbox)
      ensures failure.None? <==> e.distributorId in old(service.db).distributors.rows
      ensures failure.Some? ==> failure == Some(NotFound) && service.db == old(service.db)
      ensures failure.None? ==>
        service.db == old(service.db).(players := Insert(old(service.db).players,
          Player(e.distributorId, e.pseudo, e.firstName, e.lastName, e.birthDate, now, [])))
    {
      logs := logs + [ConsumeLog("registerPlayerConsumer", now, key, e)];
      var saved := service.db;
      var r := service.RegisterPlayer(e.distributorId, e.pseudo, e.firstName, e.lastName, e.birthDate, now);
      if r.Err? {
        service.db := saved;
        return Some(r.error);
      }
      return None;
    }

    /** consumePurchaseGame. */
    method ConsumePurchaseGame(key: string, e: Event, now: int) returns (failure: Option<Failure>)
      requires e.PurchaseGame? && Valid()
      modifies this, service
      ensures Valid()
      ensures logs == old(logs) + [ConsumeLog("purchaseGameConsumer", now, key, e)]
      ensures outbox == old(outbox)
      ensures failure.None? <==> e.playerId in old(service.db).players.rows
      ensures failure.Some? ==> failure == Some(NotFound) && service.db == old(service.db)
      ensures failure.None? ==>
        service.db == old(service.db).(owned := Insert(old(service.db).owned, OwnedGame(e.playerId, e.gameId, now, 0)))
    {
      logs := logs + [ConsumeLog("purchaseGameConsumer", now, key, e)];
      var saved := service.db;
      var r := service.PurchaseGame(e.playerId, e.gameId, now);
      if r.Err? {
        service.db := saved;
        return Some(r.error);
      }
      return None;
    }

    /** consumeReviewGame: an accepted review is saved and announced to the
        publisher; a refused one is reported back to the player with review
        id 0 and the player's and game's names. */
    method ConsumeReviewGame(key: string, e: Event, now: int) returns (failure: Option<Failure>)
      requires e.ReviewGame? && Valid()
      modifies this, service
      ensures Valid()
      ensures logs == old(logs) + [ConsumeLog("reviewGameConsumer", now, key, e)]
      ensures failure.Some? ==> outbox == old(outbox)
      ensures !MayReview(old(service.db), e.playerId, e.gameId) ==> service.db == old(service.db)
      ensures e.playerId !in old(service.db).players.rows ==> failure == Some(NotFound)
      ensures e.playerId in old(service.db).players.rows && FindOwnedGame(old(service.db), e.playerId, e.gameId).Many?
              ==> failure == Some(NonUniqueResult)
      ensures ReviewRefusedFor(old(service.db), e.playerId, e.gameId) ==>
        match GetGameName(old(service.db), e.gameId)
        case Err(f) => failure == Some(f)
        case Ok(gameName) =>
          failure.None?
          && outbox == old(outbox) + [ReviewRefused(0, old(service.db).players.rows[e.playerId].pseudo, gameName)]
      ensures MayReview(old(service.db), e.playerId, e.gameId) ==>
        var review := Review(e.playerId, e.gameId, e.rating, e.comment, now, [], []);
        failure.None?
        && service.db == old(service.db).(reviews := Insert(old(service.db).reviews, review))
        && outbox == old(outbox) + [ReviewNotice(old(service.db).reviews.nextId,
                                                 old(service.db).players.rows[e.playerId].distributorId, review)]
    {
      logs := logs + [ConsumeLog("reviewGameConsumer", now, key, e)];
      var saved := service.db;
      var r := service.ReviewGame(e.playerId, e.gameId, e.rating, e.comment, now);
      match r
      case Ok(id) =>
        var review := service.db.reviews.rows[id];
        var player := service.db.players.rows[review.playerId];
        outbox := outbox + [ReviewNotice(id, player.distributorId, review)];
        return None;
      case Err(f) =>
        if !IsIllegalState(f) {
          service.db := saved;
          return Some(f);
        }
        var playerName := GetPlayerName(service.db, e.playerId);
        if playerName.Err? {
          service.db := saved;
          return Some(playerName.error);
        }
        var gameName := GetGameName(service.db, e.gameId);
        if gameName.Err? {
          service.db := saved;
          return Some(gameName.error);
        }
        outbox := outbox + [ReviewRefused(0, playerName.value, gameName.value)];
        return None;
    }

    /** consumeReactReview. */
    method ConsumeReactReview(key: string, e: Event, now: int) returns (failure: Option<Failure>)
      requires e.ReactReview? && Valid()
      modifies this, service
      ensures Valid()
      ensures logs == old(logs) + [ConsumeLog("reactReviewConsumer", now, key, e)]
      ensures outbox == old(outbox)
      ensures failure.None? <==>
        e.reviewId in old(service.db).reviews.rows && e.playerId in old(service.db).players.rows
      ensures failure.Some? ==> failure == Some(NotFound) && service.db == old(service.db)
      ensures failure.None? ==>
        service.db == old(service.db).(reviews := Save(old(service.db).reviews, e.reviewId,
                        React(old(service.db).reviews.rows[e.reviewId], e.playerId, e.reactType)))
    {
      logs := logs + [ConsumeLog("reactReviewConsumer", now, key, e)];
      var saved := service.db;
      var r := service.ReactReview(e.reviewId, e.playerId, e.reactType);
      if r.Err? {
        service.db := saved;
        return Some(r.error);
      }
      return None;
    }

    /** The game file sent after a successful install or update check. */
    method SendGameFileFor(playerId: nat, gameId: nat, game: DistributedGame, platform: string)
      returns (failure: Option<Failure>)
      requires Valid()
      modifies this
      ensures logs == old(logs)
      ensures match GetGameName(service.db, gameId)
        case Err(f) => failure == Some(f) && outbox == old(outbox)
        case Ok(gameName) =>
          match GetPlayerName(service.db, playerId)
          case Err(f) => failure == Some(f) && outbox == old(outbox)
          case Ok(playerName) =>
            failure.None?
            && outbox == old(outbox) + [SendGameFile(playerId, gameId, game.version, gameName, platform, playerName)]
    {
      var gameName := GetGameName(service.db, gameId);
      if gameName.Err? {
        return Some(gameName.error);
      }
      var playerName := GetPlayerName(service.db, playerId);
      if playerName.Err? {
        return Some(playerName.error);
      }
      outbox := outbox + [SendGameFile(playerId, gameId, game.version, gameName.value, platform, playerName.value)];
      return None;
    }

    /** consumeInstallGame: an owner gets the listed version's file; a
        player who does not own the game is refused silently. */
    method ConsumeInstallGame(key: string, e: Event, now: int) returns (failure: Option<Failure>)
      requires e.InstallGame? && Valid()
      modifies this
      ensures Valid()
      ensures logs == old(logs) + [ConsumeLog("installGameConsumer", now, key, e)]
      ensures failure.Some? ==> outbox == old(outbox)
      ensures match ProcessInstallGame(service.db, e.playerId, e.gameId)
        case Err(f) => outbox == old(outbox) && (if IsIllegalState(f) then failure.None? else failure == Some(f))
        case Ok(game) =>
          var playerName := service.db.players.rows[e.playerId].pseudo;
          match GetGameName(service.db, e.gameId)
          case Err(f) => failure == Some(f)
          case Ok(gameName) =>
            failure.None?
            && outbox == old(outbox) + [SendGameFile(e.playerId, e.gameId, game.version, gameName, e.platform, playerName)]
    {
      logs := logs + [ConsumeLog("installGameConsumer", now, key, e)];
      match ProcessInstallGame(service.db, e.playerId, e.gameId)
      case Err(f) =>
        return if IsIllegalState(f) then None else Some(f);
      case Ok(game) =>
        failure := SendGameFileFor(e.playerId, e.gameId, game, e.platform);
    }

    /** consumeUpdateGame: an owner whose installed version differs from the
        listed one gets the listed version's file; otherwise the update is
        refused silently (not owned, or already up to date). */
    method ConsumeUpdateGame(key: string, e: Event, now: int) returns (failure: Option<Failure>)
      requires e.UpdateGame? && Valid()
      modifies this
      ensures Valid()
      ensures logs == old(logs) + [ConsumeLog("updateGameConsumer", now, key, e)]
      ensures failure.Some? ==> outbox == old(outbox)
      ensures match ProcessUpdateGame(service.db, e.playerId, e.gameId, e.installedVersion)
        case Err(f) => outbox == old(outbox) && (if IsIllegalState(f) then failure.None? else failure == Some(f))
        case Ok(game) =>
          var playerName := service.db.players.rows[e.playerId].pseudo;
          match GetGameName(service.db, e.gameId)
          case Err(f) => failure == Some(f)
          case Ok(gameName) =>
            failure.None?
            && outbox == old(outbox) + [SendGameFile(e.playerId, e.gameId, game.version, gameName, e.platform, playerName)]
    {
      logs := logs + [ConsumeLog("updateGameConsumer", now, key, e)];
      match ProcessUpdateGame(service.db, e.playerId, e.gameId, e.installedVersion)
      case Err(f) =>
        return if IsIllegalState(f) then None else Some(f);
      case Ok(game) =>
        failure := SendGameFileFor(e.playerId, e.gameId, game, e.platform);
    }

    /** consumeUninstallGame only records the message. */
    method ConsumeUninstallGame(key: string, e: Event, now: int)
      requires e.UninstallGame? && Valid()
      modifies this
      ensures Valid()
      ensures logs == old(logs) + [ConsumeLog("uninstallGameConsumer", now, key, e)]
      ensures outbox == old(outbox)
    {
      logs := logs + [ConsumeLog("uninstallGameConsumer", now, key, e)];
    }

    /** consumeAddPlayTime. */
    method ConsumeAddPlayTime(key: string, e: Event, now: int) returns (failure: Option<Failure>)
      requires e.AddPlayTime? && Valid()
      modifies this, service
      ensures Valid()
      ensures logs == old(logs) + [ConsumeLog("addPlayTimeConsumer", now, key, e)]
      ensures outbox == old(outbox)
      ensures match FindOwnedGame(old(service.db), e.playerId, e.gameId)
        case NoRow => failure == Some(NotFound) && service.db == old(service.db)
        case Many => failure == Some(NonUniqueResult) && service.db == old(service.db)
        case One(id) =>
          var o := old(service.db).owned.rows[id];
          failure.None?
          && service.db == old(service.db).(owned := Save(old(service.db).owned, id,
                             o.(playTime := AccruePlayTime(o.playTime, e.time))))
    {
      logs := logs + [ConsumeLog("addPlayTimeConsumer", now, key, e)];
      var saved := service.db;
      var r := service.AddPlayTime(e.playerId, e.gameId, e.time);
      if r.Err? {
        service.db := saved;
        return Some(r.error);
      }
      return None;
    }

    /** consumeReportCrash: the crash is forwarded to the publisher with the
        reporting player's distributor and the error code cast to `int`. */
    method ConsumeReportCrash(key: string, e: Event, now: int) returns (failure: Option<Failure>)
      requires e.ReportCrash? && Valid()
      modifies this
      ensures Valid()
      ensures logs == old(logs) + [ConsumeLog("reportCrashConsumer", now, key, e)]
      ensures e.playerId !in service.db.players.rows ==> failure == Some(NotFound) && outbox == old(outbox)
      ensures e.playerId in service.db.players.rows && e.platform !in PLATFORMS ==>
        failure == Some(InvalidPlatform) && outbox == old(outbox)
      ensures e.playerId in service.db.players.rows && e.platform in PLATFORMS ==>
        failure.None?
        && outbox == old(outbox) + [CrashReported(service.db.players.rows[e.playerId].distributorId, e.gameId,
                                                  e.platform, e.installedVersion, ToInt32(e.errorCode), e.message)]
    {
      logs := logs + [ConsumeLog("reportCrashConsumer", now, key, e)];
      var distributorId := ProcessCrashReport(service.db, e.playerId);
      if distributorId.Err? {
        return Some(distributorId.error);
      }
      if e.platform !in PLATFORMS {
        return Some(InvalidPlatform);
      }
      outbox := outbox + [CrashReported(distributorId.value, e.gameId, e.platform, e.installedVersion,
                                        ToInt32(e.errorCode), e.message)];
      return None;
    }

    /** consumeAddWishedGame. */
    method ConsumeAddWishedGame(key: string, e: Event, now: int) returns (failure: Option<Failure>)
      requires e.AddWishedGame? && Valid()
      modifies this, service
      ensures Valid()
      ensures logs == old(logs) + [ConsumeLog("addWishedGameConsumer", now, key, e)]
      ensures outbox == old(outbox)
      ensures failure.None? <==> e.playerId in old(service.db).players.rows
      ensures failure.Some? ==> failure == Some(NotFound) && service.db == old(service.db)
      ensures failure.None? ==>
        var p := old(service.db).players.rows[e.playerId];
        service.db == old(service.db).(players := Save(old(service.db).players, e.playerId,
                        p.(wishedGames := AddWished(p.wishedGames, e.gameId))))
    {
      logs := logs + [ConsumeLog("addWishedGameConsumer", now, key, e)];
      var saved := service.db;
      var r := service.AddWishedGame(e.playerId, e.gameId);
      if r.Err? {
        service.db := saved;
        return Some(r.error);
      }
      return None;
    }

    /** consumeRemoveWishedGame. */
    method ConsumeRemoveWishedGame(key: string, e: Event, now: int) returns (failure: Option<Failure>)
      requires e.RemoveWishedGame? && Valid()
      modifies this, service
      ensures Valid()
      ensures logs == old(logs) + [ConsumeLog("removeWishedGameConsumer", now, key, e)]
      ensures outbox == old(outbox)
      ensures failure.None? <==> e.playerId in old(service.db).players.rows
      ensures failure.Some? ==> failure == Some(NotFound) && service.db == old(service.db)
      ensures failure.None? ==>
        var p := old(service.db).players.rows[e.playerId];
        service.db == old(service.db).(players := Save(old(service.db).players, e.playerId,
                        p.(wishedGames := RemoveFirst(p.wishedGames, e.gameId))))
    {
      logs := logs + [ConsumeLog("removeWishedGameConsumer", now, key, e)];
      var saved := service.db;
      var r := service.RemoveWishedGame(e.playerId, e.gameId);
      if r.Err? {
        service.db := saved;
        return Some(r.error);
      }
      return None;
    }

    /** consumeAskPlayerPage: the distributor's player page is sent back. */
    method ConsumeAskPlayerPage(key: string, e: Event, now: int)
      requires e.AskPlayerPage? && Valid()
      modifies this
      ensures Valid()
      ensures logs == old(logs) + [ConsumeLog("askPlayerPageConsumer", now, key, e)]
      ensures outbox == old(outbox) + [SendPlayerPage(PlayerPageOf(service.db, e.distributorId))]
    {
      logs := logs + [ConsumeLog("askPlayerPageConsumer", now, key, e)];
      var page := service.GeneratePlayerPage(e.distributorId);
      outbox := outbox + [SendPlayerPage(page)];
    }
  }
}
