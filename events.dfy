/** The Avro records the three services exchange over Kafka, and the
    ConsumeLog entry every listener records. Ids are the stores' generated
    ids; instants are epoch milliseconds; a Kotlin `String?` or an Avro
    nullable string is an `Option<string>`. */
module Events {

  import opened Wrappers
  import opened Jvm

  /** One row of the page a distributor sends back for AskPlayerPage: the
      values generatePlayerPage writes for one player (the text layout
      around them is not modelled). */
  datatype PlayerEntry = PlayerEntry(
    playerId: nat,
    firstName: string,
    lastName: string,
    pseudo: string,
    registrationDate: int,
    ownedGames: nat,
    totalPlaytime: Int32,
    wishlist: nat)

  /** The player page: the fixed "no players" message, or the directory. */
  datatype PlayerPage = NoPlayers | Directory(entries: seq<PlayerEntry>)

  datatype Event =
    // publisher -> distributor
    | GamePublished(gameId: nat, gameName: string, version: string)
    | PatchPublished(gameId: nat, version: string)
    // distributor -> publisher
    | GameReviewed(reviewId: nat, distributorId: nat, gameId: nat, rating: Int32,
                   comment: Option<string>, publicationDate: int,
                   positiveReactionPlayerIds: seq<nat>, negativeReactionPlayerIds: seq<nat>)
    | CrashReported(distributorId: nat, gameId: nat, platform: string, installedVersion: string,
                    errorCode: int, message: string)
    // distributor -> player
    | GameDistributed(distributorId: nat, gameId: nat, gameName: string)
    | PatchDistributed(distributorId: nat, gameId: nat, newVersion: string, gameName: string)
    | SaleStarted(distributorId: nat, gameId: nat, salePercentage: bv32, gameName: string)
    | SendGameFile(targetId: nat, gameId: nat, version: string, gameName: string,
                   platform: string, playerName: string)
    | ReviewRefused(reviewId: nat, playerName: string, gameName: string)
    | SendPlayerPage(page: PlayerPage)
    | SendGamesPage(text: string)
    | SendGameReviews(text: string)
    // player -> distributor
    | RegisterPlayer(distributorId: nat, pseudo: string, firstName: string, lastName: string,
                     birthDate: int)
    | PurchaseGame(playerId: nat, gameId: nat)
    | ReviewGame(playerId: nat, gameId: nat, rating: Int32, comment: Option<string>)
    | ReactReview(playerId: nat, reviewId: nat, reactType: Int32)
    | InstallGame(playerId: nat, gameId: nat, platform: string)
    | UpdateGame(playerId: nat, gameId: nat, platform: string, installedVersion: string)
    | UninstallGame(playerId: nat, gameId: nat, platform: string, comment: Option<string>)
    | AddPlayTime(playerId: nat, gameId: nat, time: int)
    | ReportCrash(playerId: nat, gameId: nat, platform: string, installedVersion: string,
                  errorCode: int, message: string)
    | AddWishedGame(playerId: nat, gameId: nat)
    | RemoveWishedGame(playerId: nat, gameId: nat)
    | AskPlayerPage(distributorId: nat)

  // CrashReported.errorCode is an Avro `int`, ReportCrash.errorCode a `long`.

  /** The names of the Avro `Platform` enum, which are also the platforms the
      player service accepts. */
  const PLATFORMS: set<string> :=
    {"WINDOWS", "MACOS", "LINUX", "PS5", "PS4", "XBOX_SERIES", "XBOX_ONE", "SWITCH2", "SWITCH"}

  /** The record a listener keeps of every message it receives. */
  datatype ConsumeLog = ConsumeLog(consumerId: string, consumeDate: int, key: string, event: Event)
}
