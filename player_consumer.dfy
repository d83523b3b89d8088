/** The player service's Kafka listener: every message is logged; a game
    file is recorded in the installed-games table, every other message is
    only logged (its console output is not modelled). */
module PlayerConsumer {

  import opened Wrappers
  import opened Events
  import opened PlayerStore

  class KafkaConsumerService {

    const repository: InstalledGameRepository
    var logs: seq<ConsumeLog>

    predicate Valid()
      reads this, repository
    {
      ValidInstalls(repository.table)
    }

    constructor (repository: InstalledGameRepository)
      requires ValidInstalls(repository.table)
      ensures this.repository == repository && logs == [] && Valid()
    {
      this.repository := repository;
      logs := [];
    }

    method ConsumeGameDistributed(key: string, e: Event, now: int)
      requires e.GameDistributed?
      modifies this
      ensures logs == old(logs) + [ConsumeLog("playerServiceGameDistributedConsumer", now, key, e)]
    {
      logs := logs + [ConsumeLog("playerServiceGameDistributedConsumer", now, key, e)];
    }

    method ConsumePatchDistributed(key: string, e: Event, now: int)
      requires e.PatchDistributed?
      modifies this
      ensures logs == old(logs) + [ConsumeLog("playerServicePatchDistributedConsumer", now, key, e)]
    {
      logs := logs + [ConsumeLog("playerServicePatchDistributedConsumer", now, key, e)];
    }

    method ConsumeSaleStarted(key: string, e: Event, now: int)
      requires e.SaleStarted?
      modifies this
      ensures logs == old(logs) + [ConsumeLog("playerServiceSaleStartedConsumer", now, key, e)]
    {
      logs := logs + [ConsumeLog("playerServiceSaleStartedConsumer", now, key, e)];
    }

    /** A game file for a known platform updates the first matching
        installation's version or records a new installation; an unknown
        platform (the enum lookup throws and is caught) changes nothing. */
    method ConsumeSendGameFile(key: string, e: Event, now: int)
      requires e.SendGameFile? && Valid()
      modifies this, repository
      ensures logs == old(logs) + [ConsumeLog("playerServiceSendGameFileConsumer", now, key, e)]
      ensures repository.table
              == AfterGameFile(old(repository.table), e.targetId, e.gameId, e.version, e.platform)
      ensures Valid()
      ensures e.platform in PLATFORMS ==>
                VersionToUpdate(repository.table, e.targetId, e.gameId, e.platform) == Some(e.version)
    {
      logs := logs + [ConsumeLog("playerServiceSendGameFileConsumer", now, key, e)];
      if e.platform in PLATFORMS {
        var existing := Installations(repository.table, e.targetId, e.gameId, e.platform);
        if existing != [] {
          var id := existing[0];
          repository.table := Store.Save(repository.table, id,
                                         repository.table.rows[id].(installedVersion := Some(e.version)));
        } else {
          repository.table := Store.Insert(repository.table,
                                           InstalledGame(e.targetId, e.gameId, e.platform, Some(e.version)));
        }
        UpdateReadsReceivedVersion(old(repository.table), e.targetId, e.gameId, e.version, e.platform);
      }
    }

    method ConsumeReviewRefused(key: string, e: Event, now: int)
      requires e.ReviewRefused?
      modifies this
      ensures logs == old(logs) + [ConsumeLog("playerServiceReviewRefusedConsumer", now, key, e)]
    {
      logs := logs + [ConsumeLog("playerServiceReviewRefusedConsumer", now, key, e)];
    }

    method ConsumeSendPlayerPage(key: string, e: Event, now: int)
      requires e.SendPlayerPage?
      modifies this
      ensures logs == old(logs) + [ConsumeLog("playerServiceSendPlayerPageConsumer", now, key, e)]
    {
      logs := logs + [ConsumeLog("playerServiceSendPlayerPageConsumer", now, key, e)];
    }

    method ConsumeSendGamesPage(key: string, e: Event, now: int)
      requires e.SendGamesPage?
      modifies this
      ensures logs == old(logs) + [ConsumeLog("playerServiceSendGamesPageConsumer", now, key, e)]
    {
      logs := logs + [ConsumeLog("playerServiceSendGamesPageConsumer", now, key, e)];
    }

    method ConsumeSendGameReviews(key: string, e: Event, now: int)
      requires e.SendGameReviews?
      modifies this
      ensures logs == old(logs) + [ConsumeLog("playerServiceSendGameReviewsConsumer", now, key, e)]
    {
      logs := logs + [ConsumeLog("playerServiceSendGameReviewsConsumer", now, key, e)];
    }
  }
}
