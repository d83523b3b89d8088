# Game store services: a Dafny model

Three Spring services exchange Avro events over Kafka.

- The **publisher** mirrors reviews and crash reports. It publishes automatic patches, which bump a game's version and announce PatchPublished.
- The **distributor** handles the rest:
  - It lists published games for every distributor and applies patches to those listings.
  - It registers players and records purchases, playtime, reviews, reactions and wish lists.
  - It answers install, update and crash requests and builds the player page.
- The **player** service turns console commands into events, after its own validations. It keeps a local table of installed games, updated from the game files it receives.

This project models those three cores.

## Modelling conventions

- **Tables.** Every JPA repository is a `Table<T>`: rows keyed by generated id, plus the next id to allocate.
  - `save` of a new entity allocates the next id.
  - `save` of an existing entity replaces its row.
  - `findAll` yields ascending ids.
- **Optional queries.** A Spring Data Optional query that matches several rows fails with a non-unique-result exception. The model calls this `NonUniqueResult`.
- **Listeners.** Every listener does three things:
  - It appends its ConsumeLog entry first.
  - It runs the service inside the listener's transaction.
  - It sends the resulting events.

  An escaping exception restores the database and sends nothing. The in-memory log keeps its entry.
- **Java arithmetic** is written out:
  - `int` addition and casts wrap to 32 bits.
  - `long` division truncates toward zero.
  - `Integer.parseInt`, `Integer.toString` and `String.split("\\.")` are modelled.
- **Parameters.** Clocks (`Instant.now()`) are parameters.

The model departs from the code in one place:

- The publisher takes its counts **before** saving the new review or crash report. Both consequences are under Findings. The `PublisherService` class implements the intended rule, which counts **after** the save. The rule as written is kept in `Publisher.PatchesCountedBefore`, `Publisher.CadenceCountedBefore`, `Publisher.TenthCrashReport`, `Publisher.CrashTriggerAsWritten`, `Publisher.ReviewTriggersAsWritten` and `Publisher.WellRatedReviewTriggersAsWritten`.

Consequences of the code as written, which the model keeps:

- `purchaseGame` is not idempotent: a second purchase adds a second row. After that, the ownership query fails with a non-unique result (`DistributorService.SecondPurchaseBreaksInstall`).
- The review gate `playTime < 0.25` compares an `int` number of minutes. It therefore lets a review through exactly from one minute of play, not from 15 seconds.
- `(int) (time / 60000)` truncates toward zero. A negative duration therefore subtracts whole minutes.
- `startSale` updates the listing and announces nothing.

Some listener lines do not type-check against the service signatures they call. They are modelled as evidently intended:

- one GameDistributed per new listing;
- one PatchDistributed per patched listing;
- GameReviewed is built from the saved review;
- PatchPublished carries the game id and the new version.

## Model

| member | source | states |
|---|---|---|
| Jvm.ToInt32 | distributor-service/src/main/java/org/pops/et4/jvm/project/distributor/DistributorService.java:311 | the `int` result of an `int` addition: equal to the exact value when it fits, otherwise congruent to it modulo 2^32 |
| Jvm.ToInt32Add | distributor-service/src/main/java/org/pops/et4/jvm/project/distributor/DistributorService.java:467-470 | wrapping an intermediate sum does not change the final wrapped sum |
| Jvm.MillisToMinutes | distributor-service/src/main/java/org/pops/et4/jvm/project/distributor/DistributorService.java:309 | `time / 60000` on a long: truncation toward zero, bounded on both sides for either sign |
| Jvm.NatToString | publisher-service/src/main/java/org/pops/et4/jvm/project/publisher/PublisherService.java:152 | the decimal text of a number: non-empty, digits only, no leading zero |
| Jvm.DigitsValueOfNatToString | publisher-service/src/main/java/org/pops/et4/jvm/project/publisher/PublisherService.java:152 | reading back the digits of a number gives the number |
| Jvm.ParseIntOfIntToString | publisher-service/src/main/java/org/pops/et4/jvm/project/publisher/PublisherService.java:141-143 | `Integer.parseInt(Integer.toString(x)) == x` for every `int` |
| Jvm.SplitAll | publisher-service/src/main/java/org/pops/et4/jvm/project/publisher/PublisherService.java:139 | the pieces between separators: none contains the separator, and joining them gives the input back |
| Jvm.DropTrailingEmpty | publisher-service/src/main/java/org/pops/et4/jvm/project/publisher/PublisherService.java:139 | `split` drops only trailing empty pieces, and keeps everything before the last non-empty one |
| Jvm.SplitAllPiece | publisher-service/src/main/java/org/pops/et4/jvm/project/publisher/PublisherService.java:139 | splitting "a.b" gives the piece a followed by the pieces of b |
| Jvm.Split | publisher-service/src/main/java/org/pops/et4/jvm/project/publisher/PublisherService.java:139 | `String.split`: a string without the separator is its own single piece; no piece contains the separator; otherwise the pieces are those between separators with the trailing empty ones (and only those) dropped |
| Jvm.ParseInt | publisher-service/src/main/java/org/pops/et4/jvm/project/publisher/PublisherService.java:141-143 | `Integer.parseInt`: accepts only an optional sign followed by at least one digit (a lone sign is refused); an unsigned or '+'-signed digit string reads as its value when it is at most INT_MAX and is refused above; a '-'-signed one reads as the negated value when it is at most 2^31 and is refused above |
| Jvm.IntToString | publisher-service/src/main/java/org/pops/et4/jvm/project/publisher/PublisherService.java:152 | `Integer.toString`: a leading '-' exactly for negative numbers, digits only after it |
| Jvm.DropTrailingEmptyKeepsPrefix | publisher-service/src/main/java/org/pops/et4/jvm/project/publisher/PublisherService.java:139 | a prefix ending in a non-empty piece survives the dropping |
| Version.Parse | publisher-service/src/main/java/org/pops/et4/jvm/project/publisher/PublisherService.java:139-143 | a version without '.' never parses; a version parses iff splitting it gives at least three parts whose first three are `int`s, and then it is those three values |
| Version.Bump | publisher-service/src/main/java/org/pops/et4/jvm/project/publisher/PublisherService.java:145-150 | the carry rule: a patch below 9 is incremented; from 9 on, the patch resets to 0 and the minor is incremented; the major is kept |
| Version.IncrementVersion | publisher-service/src/main/java/org/pops/et4/jvm/project/publisher/PublisherService.java:137-157 | the result always parses as three integers; unparsable input gives "1.1.0"; otherwise the result is the bump of the parsed version |
| Version.ParseFallback | publisher-service/src/main/java/org/pops/et4/jvm/project/publisher/PublisherService.java:155 | the fallback "1.1.0" is itself the version 1.1.0 |
| Version.ParseRender | publisher-service/src/main/java/org/pops/et4/jvm/project/publisher/PublisherService.java:139-143 | rendering a version and parsing it again is the identity |
| Version.PiecesOfRender | publisher-service/src/main/java/org/pops/et4/jvm/project/publisher/PublisherService.java:139 | splitting a rendered version gives its three numbers as pieces |
| Version.SplitOfSeparatorFree | publisher-service/src/main/java/org/pops/et4/jvm/project/publisher/PublisherService.java:139 | a string without '.' splits into itself |
| Version.ParseIgnoresExtraParts | publisher-service/src/main/java/org/pops/et4/jvm/project/publisher/PublisherService.java:139-143 | parts after the third are ignored ("1.2.3.x" parses as 1.2.3) |
| Version.IncrementParsed | publisher-service/src/main/java/org/pops/et4/jvm/project/publisher/PublisherService.java:137-152 | a version that parses is incremented to the rendering of its bump |
| Version.IncrementPatch | publisher-service/src/main/java/org/pops/et4/jvm/project/publisher/PublisherService.java:148-149 | "a.b.c" with c < 9 becomes "a.b.c+1" |
| Version.IncrementRollsOver | publisher-service/src/main/java/org/pops/et4/jvm/project/publisher/PublisherService.java:145-147 | "a.b.c" with c >= 9 becomes "a.b+1.0", with the minor wrapping as an `int` |
| Version.IncrementIgnoresExtraParts | publisher-service/src/main/java/org/pops/et4/jvm/project/publisher/PublisherService.java:137-152 | incrementing "a.b.c.x" is incrementing "a.b.c" |
| Version.IncrementTooFewParts | publisher-service/src/main/java/org/pops/et4/jvm/project/publisher/PublisherService.java:153-155 | fewer than three parts (as in "1.0") gives "1.1.0" |
| Version.IncrementUnparsed | publisher-service/src/main/java/org/pops/et4/jvm/project/publisher/PublisherService.java:153-155 | every version that does not parse is incremented to "1.1.0" |
| Version.IncrementNonIntegerPart | publisher-service/src/main/java/org/pops/et4/jvm/project/publisher/PublisherService.java:153-155 | a non-integer part among the first three gives "1.1.0" |
| Store.EmptyTable | schemas/src/main/java/org/pops/et4/jvm/project/schemas/repositories/distributor/DistributedGameRepository.java:12 | a fresh repository is well formed and empty |
| Store.FindById | distributor-service/src/main/java/org/pops/et4/jvm/project/distributor/DistributorService.java:85-86 | `findById` finds a row exactly when its id is stored, and returns that row |
| Store.Insert | distributor-service/src/main/java/org/pops/et4/jvm/project/distributor/DistributorService.java:74 | saving a new entity stores it under a fresh id and keeps every other row |
| Store.Save | distributor-service/src/main/java/org/pops/et4/jvm/project/distributor/DistributorService.java:195 | saving an existing entity replaces its row only |
| Store.Select | distributor-service/src/main/java/org/pops/et4/jvm/project/distributor/DistributorService.java:441-443 | `findAll` filtered by a predicate: exactly the matching ids, ascending |
| Store.SelectBelow | distributor-service/src/main/java/org/pops/et4/jvm/project/distributor/DistributorService.java:441-443 | the matching ids below a bound, ascending |
| Store.Unique | schemas/src/main/java/org/pops/et4/jvm/project/schemas/repositories/distributor/DistributedGameRepository.java:15-16 | an Optional query: no row, exactly one, or several (a non-unique-result failure) |
| Store.SelectBelowAgree | distributor-service/src/main/java/org/pops/et4/jvm/project/distributor/DistributorService.java:441-443 | two filters that agree on every row select the same ids |
| Store.SelectInsert | distributor-service/src/main/java/org/pops/et4/jvm/project/distributor/DistributorService.java:138 | after an insert, a filtered `findAll` is the old one plus the new id if it matches |
| Store.SelectSaveSame | distributor-service/src/main/java/org/pops/et4/jvm/project/distributor/DistributorService.java:169 | a save that keeps a row's match status keeps every filtered `findAll` |
| DistributorRules.DistributorIds | distributor-service/src/main/java/org/pops/et4/jvm/project/distributor/DistributorService.java:119 | `distributorRepository.findAll()`: every distributor, ascending |
| DistributorRules.FindListing | schemas/src/main/java/org/pops/et4/jvm/project/schemas/repositories/distributor/DistributedGameRepository.java:15-16 | no row exactly when no listing of that game by that distributor exists; a single row is that listing and the only one |
| DistributorRules.FindOwnedGame | schemas/src/main/java/org/pops/et4/jvm/project/schemas/repositories/distributor/OwnedGameRepository.java:15-16 | the same for the purchase of a game by a player |
| DistributorRules.PassesPlaytimeGate | distributor-service/src/main/java/org/pops/et4/jvm/project/distributor/DistributorService.java:92 | `playTime < 0.25` on an `int` fails exactly when playTime >= 1 |
| DistributorRules.AccruePlayTime | distributor-service/src/main/java/org/pops/et4/jvm/project/distributor/DistributorService.java:309-311 | the new play time is the old one plus the whole minutes of the duration, wrapped once to 32 bits and exact when it fits |
| DistributorRules.ShortSessionAddsNothing | distributor-service/src/main/java/org/pops/et4/jvm/project/distributor/DistributorService.java:309 | a session shorter than a minute, of either sign, leaves the play time unchanged |
| DistributorRules.Without | distributor-service/src/main/java/org/pops/et4/jvm/project/distributor/DistributorService.java:337-338 | `removeIf`: every occurrence of the player goes, and every other element keeps its multiplicity |
| DistributorRules.WithoutConcat | distributor-service/src/main/java/org/pops/et4/jvm/project/distributor/DistributorService.java:337-338 | removal distributes over concatenation |
| DistributorRules.WithoutAbsent | distributor-service/src/main/java/org/pops/et4/jvm/project/distributor/DistributorService.java:337-338 | removing an absent player changes nothing |
| DistributorRules.React | distributor-service/src/main/java/org/pops/et4/jvm/project/distributor/DistributorService.java:333-352 | after a reaction, the player is in the positive list iff the type is 1 and in the negative list iff it is 2; nothing else of the review changes |
| DistributorRules.WithoutThenAppend | distributor-service/src/main/java/org/pops/et4/jvm/project/distributor/DistributorService.java:337-342 | appending a just-removed player and removing it again gives the removal |
| DistributorRules.ReactKeepsOthers | distributor-service/src/main/java/org/pops/et4/jvm/project/distributor/DistributorService.java:337-345 | the other players' reactions keep their order and multiplicity |
| DistributorRules.ClearBoth | distributor-service/src/main/java/org/pops/et4/jvm/project/distributor/DistributorService.java:337-338 | clearing a player from two bags is clearing it from their union |
| DistributorRules.ReactionCounts | distributor-service/src/main/java/org/pops/et4/jvm/project/distributor/DistributorService.java:337-345 | the reaction bag loses every copy of the player and gains exactly one for types 1 and 2 |
| DistributorRules.ReactKeepsExclusive | distributor-service/src/main/java/org/pops/et4/jvm/project/distributor/DistributorService.java:336-346 | when each player appears at most once across both lists, that remains true after any reaction |
| DistributorRules.LastReactionWins | distributor-service/src/main/java/org/pops/et4/jvm/project/distributor/DistributorService.java:336-346 | reacting twice equals reacting with the second type only |
| DistributorRules.AddWished | distributor-service/src/main/java/org/pops/et4/jvm/project/distributor/DistributorService.java:371-373 | the game is added iff it was absent; the set of wished games grows by exactly that game |
| DistributorRules.AddWishedKeepsNoDup | distributor-service/src/main/java/org/pops/et4/jvm/project/distributor/DistributorService.java:371-373 | addWishedGame never creates a repeat |
| DistributorRules.AddWishedTwice | distributor-service/src/main/java/org/pops/et4/jvm/project/distributor/DistributorService.java:371-373 | adding twice is adding once |
| DistributorRules.FirstIndex | distributor-service/src/main/java/org/pops/et4/jvm/project/distributor/DistributorService.java:397 | the position of the first occurrence of a value |
| DistributorRules.RemoveFirst | distributor-service/src/main/java/org/pops/et4/jvm/project/distributor/DistributorService.java:397 | `List.remove(Object)`: an absent game changes nothing; otherwise exactly one copy goes |
| DistributorRules.RemoveFirstAt | distributor-service/src/main/java/org/pops/et4/jvm/project/distributor/DistributorService.java:397 | the copy removed is the first occurrence, and the rest keeps its order |
| DistributorRules.RemoveFirstOfNoDup | distributor-service/src/main/java/org/pops/et4/jvm/project/distributor/DistributorService.java:397 | on a list without repeats, the game is no longer wished after removal |
| DistributorRules.RemoveAfterAdd | distributor-service/src/main/java/org/pops/et4/jvm/project/distributor/DistributorService.java:362-405 | adding a game that was not wished and removing it again restores the wish list |
| DistributorRules.ProcessInstallGame | distributor-service/src/main/java/org/pops/et4/jvm/project/distributor/DistributorService.java:205-219 | NotOwned iff no purchase exists; success iff a single purchase, a known player and a single listing by the player's distributor exist; the result is that listing |
| DistributorRules.ProcessUpdateGame | distributor-service/src/main/java/org/pops/et4/jvm/project/distributor/DistributorService.java:229-248 | the install checks, then AlreadyUpToDate iff the installed version equals the listed one; otherwise the listing |
| DistributorRules.ProcessCrashReport | distributor-service/src/main/java/org/pops/et4/jvm/project/distributor/DistributorService.java:256-271 | the reporting player's distributor id, or NotFound for an unknown player |
| DistributorRules.GetPlayerName | distributor-service/src/main/java/org/pops/et4/jvm/project/distributor/DistributorService.java:412-416 | the player's pseudo, or NotFound |
| DistributorRules.GetGameName | distributor-service/src/main/java/org/pops/et4/jvm/project/distributor/DistributorService.java:423-432 | NoDistributor iff there is no distributor; otherwise the name of the single listing of the first distributor, NotFound when it has none, NonUniqueResult when it has several; never an IllegalStateException |
| DistributorRules.PlaytimeTotal | distributor-service/src/main/java/org/pops/et4/jvm/project/distributor/DistributorService.java:467-470 | `mapToInt(...).sum()`: the exact sum of the play times, wrapped to 32 bits |
| DistributorRules.PlaytimeTotalExact | distributor-service/src/main/java/org/pops/et4/jvm/project/distributor/DistributorService.java:467-470 | with non-negative play times whose sum fits in an `int`, the total is the exact sum |
| DistributorRules.EntryFor | distributor-service/src/main/java/org/pops/et4/jvm/project/distributor/DistributorService.java:455-475 | a player's page entry: their id, pseudo, first and last name and registration date, the number of their purchases, the `int` (wrapped) sum of the play times of those purchases, and the size of their wish list |
| DistributorService.ListAll | distributor-service/src/main/java/org/pops/et4/jvm/project/distributor/DistributorService.java:125-141 | one new listing per distributor, at consecutive fresh ids, with the default price and no sale; old rows are kept |
| DistributorService.ListAllFirst | distributor-service/src/main/java/org/pops/et4/jvm/project/distributor/DistributorService.java:127-139 | after publishing, the first distributor's listings of the game are the old ones plus the new row |
| DistributorService.GameNameAfterPublish | distributor-service/src/main/java/org/pops/et4/jvm/project/distributor/DistributorService.java:117-142 | after publishing a game that was not listed, getGameName returns its name; when an old listing existed, it fails as non-unique |
| DistributorService.Patched | distributor-service/src/main/java/org/pops/et4/jvm/project/distributor/DistributorService.java:160-171 | patching keeps the ids of every row |
| DistributorService.PatchedSelect | distributor-service/src/main/java/org/pops/et4/jvm/project/distributor/DistributorService.java:162-169 | patching a version does not change which rows any listing query finds |
| DistributorService.PatchExtendNone | distributor-service/src/main/java/org/pops/et4/jvm/project/distributor/DistributorService.java:162-163 | a distributor without a listing of the game adds nothing to the patch |
| DistributorService.PatchExtendOne | distributor-service/src/main/java/org/pops/et4/jvm/project/distributor/DistributorService.java:162-169 | a distributor with one listing adds exactly that row's new version |
| DistributorService.PatchTargets | distributor-service/src/main/java/org/pops/et4/jvm/project/distributor/DistributorService.java:158-173 | the listings patched, in distributor order: each is a row of the game |
| DistributorService.PatchTargetsStep | distributor-service/src/main/java/org/pops/et4/jvm/project/distributor/DistributorService.java:160-171 | one more distributor adds its listing exactly when its query finds one row |
| DistributorService.PatchStep | distributor-service/src/main/java/org/pops/et4/jvm/project/distributor/DistributorService.java:160-171 | one loop step: the query is unaffected by earlier patches, and the tables grow as the step says |
| DistributorService.PatchTargetsComplete | distributor-service/src/main/java/org/pops/et4/jvm/project/distributor/DistributorService.java:158-173 | when no query is non-unique, a row is patched iff it lists the game for one of the distributors |
| DistributorService.GameNameAfterPatch | distributor-service/src/main/java/org/pops/et4/jvm/project/distributor/DistributorService.java:150-174 | a patch never changes getGameName |
| DistributorService.ListEach | distributor-service/src/main/java/org/pops/et4/jvm/project/distributor/DistributorService.java:125-139 | the listing loop: the catalog becomes ListAll of the distributors, and the saved ids are the consecutive fresh ids, one per distributor |
| DistributorService.EntriesFor | distributor-service/src/main/java/org/pops/et4/jvm/project/distributor/DistributorService.java:454-475 | the loop over the players: one page entry per player, in order, each EntryFor of that player |
| DistributorService.PatchEach | distributor-service/src/main/java/org/pops/et4/jvm/project/distributor/DistributorService.java:158-173 | the patch loop: it stops at the first non-unique query, and has patched exactly the distributors before it; otherwise the result is the full patch and its targets |
| DistributorService.PlayerPageOf | distributor-service/src/main/java/org/pops/et4/jvm/project/distributor/DistributorService.java:439-481 | the fixed message iff the distributor has no players; otherwise one entry per player, in id order |
| DistributorService.SecondPurchaseBreaksInstall | distributor-service/src/main/java/org/pops/et4/jvm/project/distributor/DistributorService.java:279-294 | a second purchase of the same game makes processInstallGame fail with a non-unique result |
| DistributorService.DistributorService.RegisterPlayer | distributor-service/src/main/java/org/pops/et4/jvm/project/distributor/DistributorService.java:58-75 | NotFound for an unknown distributor, with nothing stored; otherwise a new player dated now with an empty wish list |
| DistributorService.MayReview | distributor-service/src/main/java/org/pops/et4/jvm/project/distributor/DistributorService.java:89-95 | reviewGame accepts iff the player exists, a single purchase of the game is recorded, and it has at least one minute of play |
| DistributorService.ReviewRefusedFor | distributor-service/src/main/java/org/pops/et4/jvm/project/distributor/DistributorService.java:89-95 | reviewGame refuses iff the player exists, the ownership lookup is not ambiguous, and no purchase of the game has a minute of play (including no purchase at all); a refusal is never an acceptance |
| DistributorService.OwnershipAmbiguous | distributor-service/src/main/java/org/pops/et4/jvm/project/distributor/DistributorService.java:89-90 | the ownership query fails as non-unique exactly when two different rows record the same purchase |
| DistributorService.DistributorService.ReviewGame | distributor-service/src/main/java/org/pops/et4/jvm/project/distributor/DistributorService.java:83-109 | NotFound for an unknown player; non-unique, or refused when there is no purchase or less than a minute of play; otherwise a new review with no reactions; on failure, nothing is stored |
| DistributorService.DistributorService.GamePublished | distributor-service/src/main/java/org/pops/et4/jvm/project/distributor/DistributorService.java:117-142 | NoDistributor when there is no distributor; otherwise the ids of the new listings, one per distributor |
| DistributorService.DistributorService.PatchPublished | distributor-service/src/main/java/org/pops/et4/jvm/project/distributor/DistributorService.java:150-174 | NoDistributor iff there is no distributor; success iff no query is non-unique; the catalog becomes the patch and the ids are its targets |
| DistributorService.DistributorService.StartSale | distributor-service/src/main/java/org/pops/et4/jvm/project/distributor/DistributorService.java:184-196 | the single listing gets the sale and nothing else changes; no listing gives NotFound and several give a non-unique failure |
| DistributorService.DistributorService.PurchaseGame | distributor-service/src/main/java/org/pops/et4/jvm/project/distributor/DistributorService.java:279-294 | NotFound for an unknown player; otherwise a new purchase dated now with zero play time |
| DistributorService.DistributorService.AddPlayTime | distributor-service/src/main/java/org/pops/et4/jvm/project/distributor/DistributorService.java:302-315 | the single purchase gets the accrued play time |
| DistributorService.DistributorService.ReactReview | distributor-service/src/main/java/org/pops/et4/jvm/project/distributor/DistributorService.java:323-355 | the review must exist and then the player; the review gets the reaction edit |
| DistributorService.DistributorService.AddWishedGame | distributor-service/src/main/java/org/pops/et4/jvm/project/distributor/DistributorService.java:362-381 | the player's wish list gets the add-if-absent edit |
| DistributorService.DistributorService.RemoveWishedGame | distributor-service/src/main/java/org/pops/et4/jvm/project/distributor/DistributorService.java:388-405 | the player's wish list loses the first copy of the game |
| DistributorService.DistributorService.GeneratePlayerPage | distributor-service/src/main/java/org/pops/et4/jvm/project/distributor/DistributorService.java:439-481 | the loop over the distributor's players builds exactly the player page |
| DistributorConsumer.GameNotices | distributor-service/src/main/java/org/pops/et4/jvm/project/distributor/kafka/KafkaConsumerService.java:118-128 | one GameDistributed per distributor, in order |
| DistributorConsumer.PatchNotices | distributor-service/src/main/java/org/pops/et4/jvm/project/distributor/kafka/KafkaConsumerService.java:137-147 | one PatchDistributed per patched listing, naming its distributor |
| DistributorConsumer.GameNoticesFor | distributor-service/src/main/java/org/pops/et4/jvm/project/distributor/kafka/KafkaConsumerService.java:118-128 | the announcement loop, reading the new rows, sends exactly the GameDistributed notices |
| DistributorConsumer.PatchNoticesFor | distributor-service/src/main/java/org/pops/et4/jvm/project/distributor/kafka/KafkaConsumerService.java:137-147 | the announcement loop, reading the patched rows, sends exactly the PatchDistributed notices |
| DistributorConsumer.KafkaConsumerService.ConsumeGamePublished | distributor-service/src/main/java/org/pops/et4/jvm/project/distributor/kafka/KafkaConsumerService.java:118-128 | log; on success, the listings plus their announcements under getGameName's name; on failure, rollback and no event |
| DistributorConsumer.KafkaConsumerService.ConsumePatchPublished | distributor-service/src/main/java/org/pops/et4/jvm/project/distributor/kafka/KafkaConsumerService.java:137-147 | log; on success, the patch plus one announcement per patched listing; on failure, rollback and no event |
| DistributorConsumer.KafkaConsumerService.ConsumeRegisterPlayer | distributor-service/src/main/java/org/pops/et4/jvm/project/distributor/kafka/KafkaConsumerService.java:156-164 | log; the player is registered, or NotFound with nothing stored |
| DistributorConsumer.KafkaConsumerService.ConsumePurchaseGame | distributor-service/src/main/java/org/pops/et4/jvm/project/distributor/kafka/KafkaConsumerService.java:173-181 | log; the purchase is stored, or NotFound |
| DistributorConsumer.KafkaConsumerService.ConsumeReviewGame | distributor-service/src/main/java/org/pops/et4/jvm/project/distributor/kafka/KafkaConsumerService.java:190-210 | log; a stored review is announced as GameReviewed; a refusal is caught and answered with ReviewRefused; other failures send nothing |
| DistributorConsumer.KafkaConsumerService.ConsumeReactReview | distributor-service/src/main/java/org/pops/et4/jvm/project/distributor/kafka/KafkaConsumerService.java:219-227 | log; the reaction edit, or NotFound |
| DistributorConsumer.KafkaConsumerService.SendGameFileFor | distributor-service/src/main/java/org/pops/et4/jvm/project/distributor/kafka/KafkaConsumerService.java:236-252 | the SendGameFile for a listing, with the player's pseudo and getGameName's name, or the failure of either lookup |
| DistributorConsumer.KafkaConsumerService.ConsumeInstallGame | distributor-service/src/main/java/org/pops/et4/jvm/project/distributor/kafka/KafkaConsumerService.java:236-252 | log; a game file for the listed version when processInstallGame succeeds; an illegal state is caught and sends nothing |
| DistributorConsumer.KafkaConsumerService.ConsumeUpdateGame | distributor-service/src/main/java/org/pops/et4/jvm/project/distributor/kafka/KafkaConsumerService.java:261-277 | the same, with processUpdateGame |
| DistributorConsumer.KafkaConsumerService.ConsumeUninstallGame | distributor-service/src/main/java/org/pops/et4/jvm/project/distributor/kafka/KafkaConsumerService.java:286-294 | log only; no state changes and no event |
| DistributorConsumer.KafkaConsumerService.ConsumeAddPlayTime | distributor-service/src/main/java/org/pops/et4/jvm/project/distributor/kafka/KafkaConsumerService.java:303-311 | log; the accrued play time, or the lookup failure |
| DistributorConsumer.KafkaConsumerService.ConsumeReportCrash | distributor-service/src/main/java/org/pops/et4/jvm/project/distributor/kafka/KafkaConsumerService.java:320-341 | log; CrashReported with the player's distributor and the error code cast to `int`, or NotFound, or InvalidPlatform |
| DistributorConsumer.KafkaConsumerService.ConsumeAddWishedGame | distributor-service/src/main/java/org/pops/et4/jvm/project/distributor/kafka/KafkaConsumerService.java:350-358 | log; the wish-list addition, or NotFound |
| DistributorConsumer.KafkaConsumerService.ConsumeRemoveWishedGame | distributor-service/src/main/java/org/pops/et4/jvm/project/distributor/kafka/KafkaConsumerService.java:367-375 | log; the wish-list removal, or NotFound |
| DistributorConsumer.KafkaConsumerService.ConsumeAskPlayerPage | distributor-service/src/main/java/org/pops/et4/jvm/project/distributor/kafka/KafkaConsumerService.java:384-393 | log; the player page is sent |
| Publisher.CrashCountInsert | publisher-service/src/main/java/org/pops/et4/jvm/project/publisher/PublisherService.java:90-100 | storing a crash report adds one to its game's count and nothing to other games' counts |
| Publisher.NegativeCountUpsert | publisher-service/src/main/java/org/pops/et4/jvm/project/publisher/PublisherService.java:55-64 | storing a review under its id raises its game's low-rated count by one for a new low rating, by nothing for a replay, and never for a rating above 2 |
| Publisher.CadenceCountedAfter | publisher-service/src/main/java/org/pops/et4/jvm/project/publisher/PublisherService.java:96-97 | counted after the save, n reports give n / period patches |
| Publisher.CadenceCountedBefore | publisher-service/src/main/java/org/pops/et4/jvm/project/publisher/PublisherService.java:90-100 | counted before the save, n reports give (n - 1) / period patches |
| Publisher.TenthCrashReport | publisher-service/src/main/java/org/pops/et4/jvm/project/publisher/PublisherService.java:90-100 | as written, ten reports give no patch and the eleventh gives the first; as intended, the tenth gives it |
| Publisher.DivStep | publisher-service/src/main/java/org/pops/et4/jvm/project/publisher/PublisherService.java:97 | one more report reaches a new multiple exactly when it is divisible by the period |
| Publisher.DivUnique | publisher-service/src/main/java/org/pops/et4/jvm/project/publisher/PublisherService.java:97 | quotient and remainder are unique |
| Publisher.MulAtLeast | publisher-service/src/main/java/org/pops/et4/jvm/project/publisher/PublisherService.java:97 | a positive multiple is at least the period |
| Publisher.WellRatedReviewTriggersAsWritten | publisher-service/src/main/java/org/pops/et4/jvm/project/publisher/PublisherService.java:55-62 | as written, a review rated above 2 arriving with 15 low-rated reviews stored triggers the negative-feedback patch; as intended, it does not |
| Publisher.ReplayNeverTriggers | publisher-service/src/main/java/org/pops/et4/jvm/project/publisher/PublisherService.java:47-64 | under the intended rule, the replay of a stored review never patches |
| Publisher.TriggersAutoPatch | publisher-service/src/main/java/org/pops/et4/jvm/project/publisher/PublisherService.java:97 | the test `count > 0 && count % period == 0`: the count is a positive multiple of the period |
| Publisher.PatchesCountedBefore | publisher-service/src/main/java/org/pops/et4/jvm/project/publisher/PublisherService.java:90-100 | the number of patches n reports give when each is counted before its save: the count-after number for n - 1 reports |
| Publisher.ReviewTriggersAsWritten | publisher-service/src/main/java/org/pops/et4/jvm/project/publisher/PublisherService.java:55-62 | the review test as written: the stored low-rated count alone is a positive multiple of 15 |
| Publisher.CrashTriggerAsWritten | publisher-service/src/main/java/org/pops/et4/jvm/project/publisher/PublisherService.java:90-100 | on one crash report the stored count grows by one; the test as written fires when the new count is 11, 21, 31 …; the intended test fires at 10, 20, 30 … |
| Publisher.AutoPatch | publisher-service/src/main/java/org/pops/et4/jvm/project/publisher/PublisherService.java:104-126 | the patch publishAutoPatch builds: the game, the incremented version and the given date; two tags, BUG_FIX always, SECURITY_FIX exactly for a crash, ADD_FEATURE exactly for negative feedback |
| Publisher.AutoPatchTags | publisher-service/src/main/java/org/pops/et4/jvm/project/publisher/PublisherService.java:108-118 | the two log tags of an automatic patch by reason |
| Publisher.Bumped | publisher-service/src/main/java/org/pops/et4/jvm/project/publisher/PublisherService.java:129-132 | the patched game gets a parsable new version and keeps its name; no other game changes |
| Publisher.PublisherService.PublishAutoPatch | publisher-service/src/main/java/org/pops/et4/jvm/project/publisher/PublisherService.java:103-135 | the tags and the description for the reason; the game's version is incremented; PatchPublished carries the new version |
| Publisher.PublisherService.ProcessGameReview | publisher-service/src/main/java/org/pops/et4/jvm/project/publisher/PublisherService.java:43-65 | the corrected rule of the Findings row: GameNotFound changes nothing; otherwise the review is stored by id and a patch follows iff the low-rated count has just reached a multiple of 15 |
| Publisher.PublisherService.ProcessCrashReport | publisher-service/src/main/java/org/pops/et4/jvm/project/publisher/PublisherService.java:70-101 | the corrected rule of the Findings row: GameNotFound, then InvalidPlatform, change nothing; otherwise the report is stored (count + 1) and a patch follows iff the new count is a multiple of 10 |
| PlayerStore.Installations | player-service/src/main/kotlin/org/pops/et4/jvm/project/player/kafka/KafkaConsumerService.kt:160-166 | the installations of a player, game and platform, ascending |
| PlayerStore.AfterGameFile | player-service/src/main/kotlin/org/pops/et4/jvm/project/player/kafka/KafkaConsumerService.kt:156-200 | an unknown platform changes nothing; otherwise, when the player, game and platform match some rows, the first of them gets the received version in place, no row is added and every other row is kept; when nothing matches, exactly one new installation with the received version is added under the next id and every other row is kept; the table stays valid with known platforms only |
| PlayerStore.VersionToUpdate | player-service/src/main/kotlin/org/pops/et4/jvm/project/player/kafka/KafkaProducerService.kt:128-137 | nothing iff the game is not installed on that platform; otherwise the first installation's version, or "1.0.0" |
| PlayerStore.WithoutInstallations | player-service/src/main/kotlin/org/pops/et4/jvm/project/player/kafka/KafkaProducerService.kt:166-170 | `deleteAll` of the matches: exactly the non-matching rows remain, unchanged |
| PlayerStore.UpdateReadsReceivedVersion | player-service/src/main/kotlin/org/pops/et4/jvm/project/player/kafka/KafkaConsumerService.kt:168-192 | after a game file for a known platform, an update reads exactly the received version |
| PlayerStore.AfterGameFileIdempotent | player-service/src/main/kotlin/org/pops/et4/jvm/project/player/kafka/KafkaConsumerService.kt:156-192 | receiving the same game file twice is receiving it once |
| PlayerStore.AfterGameFileKeepsOthers | player-service/src/main/kotlin/org/pops/et4/jvm/project/player/kafka/KafkaConsumerService.kt:156-192 | other installations are kept unchanged, and at most one row is added |
| PlayerStore.UninstallRemovesAll | player-service/src/main/kotlin/org/pops/et4/jvm/project/player/kafka/KafkaProducerService.kt:166-170 | after an uninstall there is nothing left to update |
| PlayerStore.InstalledGameRepository.constructor | schemas/src/main/java/org/pops/et4/jvm/project/schemas/repositories/player/InstalledGameRepository.java:8 | the repository starts empty |
| PlayerConsumer.KafkaConsumerService.ConsumeGameDistributed | player-service/src/main/kotlin/org/pops/et4/jvm/project/player/kafka/KafkaConsumerService.kt:56-70 | log only |
| PlayerConsumer.KafkaConsumerService.ConsumePatchDistributed | player-service/src/main/kotlin/org/pops/et4/jvm/project/player/kafka/KafkaConsumerService.kt:85-98 | log only |
| PlayerConsumer.KafkaConsumerService.ConsumeSaleStarted | player-service/src/main/kotlin/org/pops/et4/jvm/project/player/kafka/KafkaConsumerService.kt:112-127 | log only |
| PlayerConsumer.KafkaConsumerService.ConsumeSendGameFile | player-service/src/main/kotlin/org/pops/et4/jvm/project/player/kafka/KafkaConsumerService.kt:143-202 | log; for a known platform, the first installation gets the version, or a new installation is recorded; an update then reads that version |
| PlayerConsumer.KafkaConsumerService.ConsumeReviewRefused | player-service/src/main/kotlin/org/pops/et4/jvm/project/player/kafka/KafkaConsumerService.kt:216-230 | log only |
| PlayerConsumer.KafkaConsumerService.ConsumeSendPlayerPage | player-service/src/main/kotlin/org/pops/et4/jvm/project/player/kafka/KafkaConsumerService.kt:245-262 | log only |
| PlayerConsumer.KafkaConsumerService.ConsumeSendGamesPage | player-service/src/main/kotlin/org/pops/et4/jvm/project/player/kafka/KafkaConsumerService.kt:277-294 | log only |
| PlayerConsumer.KafkaConsumerService.ConsumeSendGameReviews | player-service/src/main/kotlin/org/pops/et4/jvm/project/player/kafka/KafkaConsumerService.kt:309-326 | log only |
| PlayerProducer.UpdateRequest | player-service/src/main/kotlin/org/pops/et4/jvm/project/player/kafka/KafkaProducerService.kt:120-155 | an event iff the platform is known and the game is installed on it; the event names the player, game and platform, and carries the version VersionToUpdate reads |
| PlayerProducer.UpdateAfterGameFile | player-service/src/main/kotlin/org/pops/et4/jvm/project/player/kafka/KafkaProducerService.kt:128-147 | after a game file, the update carries the received version |
| PlayerProducer.NoUpdateAfterUninstall | player-service/src/main/kotlin/org/pops/et4/jvm/project/player/kafka/KafkaProducerService.kt:157-170 | after an uninstall, an update sends nothing |
| PlayerProducer.KafkaProducerService.SendRegisterPlayer | player-service/src/main/kotlin/org/pops/et4/jvm/project/player/kafka/KafkaProducerService.kt:31-54 | sends RegisterPlayer |
| PlayerProducer.KafkaProducerService.SendPurchaseGame | player-service/src/main/kotlin/org/pops/et4/jvm/project/player/kafka/KafkaProducerService.kt:56-70 | sends PurchaseGame |
| PlayerProducer.KafkaProducerService.SendReviewGame | player-service/src/main/kotlin/org/pops/et4/jvm/project/player/kafka/KafkaProducerService.kt:72-94 | ReviewGame iff the rating is in 0..5, else nothing |
| PlayerProducer.KafkaProducerService.SendInstallGame | player-service/src/main/kotlin/org/pops/et4/jvm/project/player/kafka/KafkaProducerService.kt:96-118 | InstallGame iff the platform is known |
| PlayerProducer.KafkaProducerService.SendUpdateGame | player-service/src/main/kotlin/org/pops/et4/jvm/project/player/kafka/KafkaProducerService.kt:120-155 | sends UpdateRequest's event, if any; the typed version is ignored |
| PlayerProducer.KafkaProducerService.SendUninstallGame | player-service/src/main/kotlin/org/pops/et4/jvm/project/player/kafka/KafkaProducerService.kt:157-195 | for a known platform, removes every matching installation and always sends UninstallGame; an unknown platform does nothing |
| PlayerProducer.KafkaProducerService.SendAddPlayTime | player-service/src/main/kotlin/org/pops/et4/jvm/project/player/kafka/KafkaProducerService.kt:197-212 | sends AddPlayTime |
| PlayerProducer.KafkaProducerService.SendReportCrash | player-service/src/main/kotlin/org/pops/et4/jvm/project/player/kafka/KafkaProducerService.kt:214-245 | ReportCrash iff the platform is known |
| PlayerProducer.KafkaProducerService.SendAddWishedGame | player-service/src/main/kotlin/org/pops/et4/jvm/project/player/kafka/KafkaProducerService.kt:247-261 | sends AddWishedGame |
| PlayerProducer.KafkaProducerService.SendRemoveWishedGame | player-service/src/main/kotlin/org/pops/et4/jvm/project/player/kafka/KafkaProducerService.kt:263-277 | sends RemoveWishedGame |
| PlayerProducer.KafkaProducerService.SendReactReview | player-service/src/main/kotlin/org/pops/et4/jvm/project/player/kafka/KafkaProducerService.kt:279-300 | ReactReview iff the type is in 0..2 |

## Left out

- Console output (`println`), the application shells, their command parsing and the CSV loading are not modelled. They only print or drive the modelled operations.
- Spring wiring, Kafka configuration, listener start-up, offsets, retries and concurrency between listeners are not modelled. Each message is handled atomically, in delivery order.
- Message keys are random UUIDs and are not modelled; the completion callbacks are not modelled either, because they only print.
- `buildGamesPage` and `buildGameReviewsPage` are left out. No core listener calls them, and they only format JSON text.
- `generatePlayerPage`'s text layout is left out. The model keeps the values it writes per player: id, names, pseudo, registration date, purchases, total playtime and wish-list size.
- Java `float` price and sale are opaque 32-bit patterns. No arithmetic is done on them, except the player's display of the percentage, which is not modelled.
- `Integer.parseInt` accepts ASCII digits only. Other Unicode decimal digits, which Java also accepts, are not modelled.
- Ids are natural numbers: negative or null ids, and the `Long` overflow of generated ids, are not modelled.
- `findAll` is assumed to return rows in ascending id order. JPA does not promise any order.
- The publisher's `save` of a review with the distributor's id is modelled as an upsert by that id.
- The publisher's Patch record is built but never saved.
- The publisher's game keeps only its name and version.
- DistributorRules.ProcessCrashReport: the `player.getDistributor() == null` branch (line 261) cannot arise, because every modelled player has a distributor.
- The platform enums of the events, of the publisher and of the player are assumed to have the same constants, those of the player's `VALID_PLATFORMS`.
- The `ExampleEvent` listener of the distributor is not modelled; it is a demonstration and part of no flow.
- DistributorService.DistributorService.PatchPublished: on a non-unique query the catalog holds the partial patch. The listener's rollback is what restores it.

## Findings

| source | as written | input that shows it | evidently intended | confidence | as-written member | corrected member |
|---|---|---|---|---|---|---|
| publisher-service/src/main/java/org/pops/et4/jvm/project/publisher/PublisherService.java:90-100 | the crash count is taken before the new report is saved | ten CrashReported events for a game with no reports: no patch is published, and the first comes with the eleventh | a patch with the 10th, 20th, 30th … report (the comment at line 96) | high; not executed | Publisher.CadenceCountedBefore | Publisher.PublisherService.ProcessCrashReport |
| publisher-service/src/main/java/org/pops/et4/jvm/project/publisher/PublisherService.java:55-64 | the low-rated count is taken from the stored reviews only, before the incoming review is saved | 15 stored reviews rated at most 2, then one rated 9 (or a replay of a stored review): the negative-feedback patch is published | a patch when the incoming review brings the low-rated count to a multiple of 15 | high; not executed | Publisher.WellRatedReviewTriggersAsWritten | Publisher.PublisherService.ProcessGameReview |
