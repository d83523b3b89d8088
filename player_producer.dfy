/** The player service's Kafka producer: each command of the player's
    console becomes one event, after the validations the producer makes
    itself. Message keys (random UUIDs) and the send callbacks are not
    modelled; `outbox` is the sequence of events handed to Kafka. */
module PlayerProducer {

  import opened Wrappers
  import opened Jvm
  import opened Store
  import opened Events
  import opened PlayerStore

  /** A rating the producer accepts (`rating in 0..5`). */
  predicate ValidRating(rating: Int32)
  {
    0 <= rating <= 5
  }

  /** A reaction the producer accepts: 0 nothing, 1 positive, 2 negative. */
  predicate ValidReactType(reactType: Int32)
  {
    0 <= reactType <= 2
  }

  /** The UpdateGame event sendUpdateGame sends, if any: none for an unknown
      platform or a game that is not installed on it; otherwise it carries
      the version found in the table, not the one the player typed. */
  function UpdateRequest(t: Table<InstalledGame>, playerId: nat, gameId: nat, platform: string): (r: Option<Event>)
    requires ValidInstalls(t)
    ensures r.Some? <==> platform in PLATFORMS && Installations(t, playerId, gameId, platform) != []
    ensures r.Some? ==> r.value.UpdateGame? && r.value.playerId == playerId && r.value.gameId == gameId
                        && r.value.platform == platform
    ensures r.Some? ==> r.value.installedVersion == VersionToUpdate(t, playerId, gameId, platform).value
  {
    if platform !in PLATFORMS then None
    else
      match VersionToUpdate(t, playerId, gameId, platform)
      case None => None
      case Some(v) => Some(UpdateGame(playerId, gameId, platform, v))
  }

  /** After a game file, an update request reports the version received. */
  lemma UpdateAfterGameFile(t: Table<InstalledGame>, playerId: nat, gameId: nat, version: string, platform: string)
    requires ValidInstalls(t) && platform in PLATFORMS
    ensures ValidInstalls(AfterGameFile(t, playerId, gameId, version, platform))
    ensures UpdateRequest(AfterGameFile(t, playerId, gameId, version, platform), playerId, gameId, platform)
            == Some(UpdateGame(playerId, gameId, platform, version))
  {
    UpdateReadsReceivedVersion(t, playerId, gameId, version, platform);
  }

  /** After an uninstall, an update of that game on that platform sends
      nothing. */
  lemma NoUpdateAfterUninstall(t: Table<InstalledGame>, playerId: nat, gameId: nat, platform: string)
    requires ValidInstalls(t)
    ensures UpdateRequest(WithoutInstallations(t, playerId, gameId, platform), playerId, gameId, platform).None?
  {
    UninstallRemovesAll(t, playerId, gameId, platform);
  }

  class KafkaProducerService {

    const repository: InstalledGameRepository
    var outbox: seq<Event>

    constructor (repository: InstalledGameRepository)
      ensures this.repository == repository && outbox == []
    {
      this.repository := repository;
      outbox := [];
    }

    method SendRegisterPlayer(distributorId: nat, pseudo: string, firstName: string, lastName: string, birthDate: int)
      modifies this
      ensures outbox == old(outbox) + [RegisterPlayer(distributorId, pseudo, firstName, lastName, birthDate)]
    {
      outbox := outbox + [RegisterPlayer(distributorId, pseudo, firstName, lastName, birthDate)];
    }

    method SendPurchaseGame(playerId: nat, gameId: nat)
      modifies this
      ensures outbox == old(outbox) + [PurchaseGame(playerId, gameId)]
    {
      outbox := outbox + [PurchaseGame(playerId, gameId)];
    }

    /** A rating outside 0..5 is refused and nothing is sent. */
    method SendReviewGame(playerId: nat, gameId: nat, rating: Int32, comment: Option<string>)
      modifies this
      ensures ValidRating(rating) ==> outbox == old(outbox) + [ReviewGame(playerId, gameId, rating, comment)]
      ensures !ValidRating(rating) ==> outbox == old(outbox)
    {
      if !ValidRating(rating) {
        return;
      }
      outbox := outbox + [ReviewGame(playerId, gameId, rating, comment)];
    }

    /** An unknown platform is refused and nothing is sent. */
    method SendInstallGame(playerId: nat, gameId: nat, platform: string)
      modifies this
      ensures platform in PLATFORMS ==> outbox == old(outbox) + [InstallGame(playerId, gameId, platform)]
      ensures platform !in PLATFORMS ==> outbox == old(outbox)
    {
      if platform !in PLATFORMS {
        return;
      }
      outbox := outbox + [InstallGame(playerId, gameId, platform)];
    }

    /** Sends UpdateRequest's event, if any. The `installedVersion` argument
        is accepted and ignored: the version sent is the stored one. */
    method SendUpdateGame(playerId: nat, gameId: nat, platform: string, installedVersion: string)
      requires ValidInstalls(repository.table)
      modifies this
      ensures outbox == old(outbox) + match UpdateRequest(repository.table, playerId, gameId, platform)
                                      case Some(ev) => [ev]
                                      case None => []
    {
      if platform !in PLATFORMS {
        return;
      }
      var installed := Installations(repository.table, playerId, gameId, platform);
      if installed == [] {
        return;
      }
      var current := match repository.table.rows[installed[0]].installedVersion
                     case Some(v) => v
                     case None => DEFAULT_INSTALLED_VERSION;
      outbox := outbox + [UpdateGame(playerId, gameId, platform, current)];
    }

    /** For a known platform, removes every matching installation and sends
        UninstallGame, whether or not anything was installed. */
    method SendUninstallGame(playerId: nat, gameId: nat, platform: string, comment: Option<string>)
      requires ValidInstalls(repository.table)
      modifies this, repository
      ensures platform in PLATFORMS ==>
                repository.table == WithoutInstallations(old(repository.table), playerId, gameId, platform)
                && outbox == old(outbox) + [UninstallGame(playerId, gameId, platform, comment)]
      ensures platform !in PLATFORMS ==> repository.table == old(repository.table) && outbox == old(outbox)
      ensures ValidInstalls(repository.table)
    {
      if platform !in PLATFORMS {
        return;
      }
      repository.table := WithoutInstallations(repository.table, playerId, gameId, platform);
      outbox := outbox + [UninstallGame(playerId, gameId, platform, comment)];
    }

    method SendAddPlayTime(playerId: nat, gameId: nat, time: int)
      modifies this
      ensures outbox == old(outbox) + [AddPlayTime(playerId, gameId, time)]
    {
      outbox := outbox + [AddPlayTime(playerId, gameId, time)];
    }

    /** An unknown platform is refused and nothing is sent; the version is
        sent as given. */
    method SendReportCrash(playerId: nat, gameId: nat, platform: string, installedVersion: string,
                           errorCode: int, message: string)
      modifies this
      ensures platform in PLATFORMS ==>
                outbox == old(outbox) + [ReportCrash(playerId, gameId, platform, installedVersion, errorCode, message)]
      ensures platform !in PLATFORMS ==> outbox == old(outbox)
    {
      if platform !in PLATFORMS {
        return;
      }
      outbox := outbox + [ReportCrash(playerId, gameId, platform, installedVersion, errorCode, message)];
    }

    method SendAddWishedGame(playerId: nat, gameId: nat)
      modifies this
      ensures outbox == old(outbox) + [AddWishedGame(playerId, gameId)]
    {
      outbox := outbox + [AddWishedGame(playerId, gameId)];
    }

    method SendRemoveWishedGame(playerId: nat, gameId: nat)
      modifies this
      ensures outbox == old(outbox) + [RemoveWishedGame(playerId, gameId)]
    {
      outbox := outbox + [RemoveWishedGame(playerId, gameId)];
    }

    /** A reaction type outside 0..2 is refused and nothing is sent. */
    method SendReactReview(playerId: nat, reviewId: nat, reactType: Int32)
      modifies this
      ensures ValidReactType(reactType) ==> outbox == old(outbox) + [ReactReview(playerId, reviewId, reactType)]
      ensures !ValidReactType(reactType) ==> outbox == old(outbox)
    {
      if !ValidReactType(reactType) {
        return;
      }
      outbox := outbox + [ReactReview(playerId, reviewId, reactType)];
    }
  }
}
