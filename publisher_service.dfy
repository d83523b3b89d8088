/** The publisher's reaction to feedback: it mirrors the reviews and crash
    reports the distributors forward, and publishes an automatic patch (a
    version bump announced as PatchPublished) every 15th low-rated review
    and every 10th crash report of a game. */
module Publisher {

  import opened Wrappers
  import opened Jvm
  import opened Store
  import opened Events
  import opened Version

  /** The publisher's game row, reduced to the fields these rules read. */
  datatype Game = Game(name: string, version: string)

  /** The publisher's mirror of a distributor review, keyed by the
      distributor's review id. */
  datatype Review = Review(gameId: nat, rating: Int32, comment: Option<string>, publicationDate: int)

  datatype CrashReport = CrashReport(
    gameId: nat, distributorId: nat, platform: string, version: string,
    errorCode: int, message: string, reportDate: int)

  datatype LogTag = AddFeature | BugFix | SecurityFix

  /** The `reasonType` string publishAutoPatch receives: "CRASH" or
      "NEGATIVE_FEEDBACK". */
  datatype Reason = Crash | NegativeFeedback

  /** The patch record publishAutoPatch builds (and never saves). */
  datatype Patch = Patch(gameId: nat, version: string, tags: seq<LogTag>, description: string, publicationDate: int)

  datatype Failure =
    | GameNotFound    // orElseThrow(RuntimeException) on an unknown game
    | InvalidPlatform // IllegalArgumentException from Platform.valueOf

  const REVIEW_PERIOD: nat := 15
  const CRASH_PERIOD: nat := 10

  // ---------------------------------------------------------------------
  // Counting

  /** The ids of the low-rated (rating <= 2) reviews of a game. */
  function NegativeReviews(reviews: map<nat, Review>, gameId: nat): set<nat>
  {
    set id | id in reviews && reviews[id].gameId == gameId && reviews[id].rating <= 2
  }

  function NegativeReviewCount(reviews: map<nat, Review>, gameId: nat): nat
  {
    |NegativeReviews(reviews, gameId)|
  }

  function CrashOf(gameId: nat): CrashReport -> bool
  {
    (c: CrashReport) => c.gameId == gameId
  }

  function CrashCount(t: Table<CrashReport>, gameId: nat): nat
    requires Valid(t)
  {
    |Select(t, CrashOf(gameId))|
  }

  /** Storing a crash report adds one to its game's count and to no other. */
  lemma CrashCountInsert(t: Table<CrashReport>, c: CrashReport, gameId: nat)
    requires Valid(t)
    ensures CrashCount(Insert(t, c), gameId) == CrashCount(t, gameId) + (if c.gameId == gameId then 1 else 0)
  {
    SelectInsert(t, c, CrashOf(gameId));
  }

  /** Storing a review under `id` changes its game's low-rated count by at
      most one: up by one for a new low-rated review, unchanged for a replay
      or a review of another game, never up for a review that is not
      low-rated. */
  lemma NegativeCountUpsert(reviews: map<nat, Review>, id: nat, r: Review, gameId: nat)
    ensures var before := NegativeReviewCount(reviews, gameId);
      var after := NegativeReviewCount(reviews[id := r], gameId);
      (r.gameId == gameId && r.rating <= 2 && id !in NegativeReviews(reviews, gameId) ==> after == before + 1)
      && (r.gameId == gameId && r.rating <= 2 && id in NegativeReviews(reviews, gameId) ==> after == before)
      && (!(r.gameId == gameId && r.rating <= 2) ==> after <= before)
  {
    var s, u := NegativeReviews(reviews, gameId), NegativeReviews(reviews[id := r], gameId);
    if r.gameId == gameId && r.rating <= 2 {
      assert u == s + {id};
      if id in s {
        assert u == s;
      } else {
        assert |u| == |s| + 1;
      }
    } else {
      assert u == s - {id};
    }
  }

  // ---------------------------------------------------------------------
  // The threshold rule

  /** The source's test, `count > 0 && count % period == 0`. */
  predicate TriggersAutoPatch(count: nat, period: nat): (b: bool)
    requires period > 0
    ensures b <==> count >= period && count == (count / period) * period
  {
    if count > 0 && count % period == 0 then
      MulAtLeast(count / period, period);
      true
    else
      false
  }

  /** The rule as intended: the count of the game's reports has just grown
      to a multiple of the period. */
  predicate ReachesMultiple(before: nat, after: nat, period: nat)
    requires period > 0
  {
    after > before && TriggersAutoPatch(after, period)
  }

  /** Patches triggered by `n` successive reports for a game that had none,
      when, as in the source, each report's count is taken before the
      report is saved. */
  function PatchesCountedBefore(n: nat, period: nat): (c: nat)
    requires period > 0
    ensures n > 0 ==> c == PatchesCountedAfter(n - 1, period)
  {
    if n == 0 then 0
    else PatchesCountedBefore(n - 1, period) + (if TriggersAutoPatch(n - 1, period) then 1 else 0)
  }

  /** The same with the count taken after each save. */
  function PatchesCountedAfter(n: nat, period: nat): nat
    requires period > 0
  {
    if n == 0 then 0
    else PatchesCountedAfter(n - 1, period) + (if ReachesMultiple(n - 1, n, period) then 1 else 0)
  }

  lemma DivStep(n: nat, period: nat)
    requires period > 0 && n > 0
    ensures n / period == (n - 1) / period + (if n % period == 0 then 1 else 0)
  {
    var q, r := (n - 1) / period, (n - 1) % period;
    assert n - 1 == q * period + r;
    if r == period - 1 {
      assert n == (q + 1) * period;
      DivUnique(n, period, q + 1, 0);
    } else {
      assert n == q * period + (r + 1);
      DivUnique(n, period, q, r + 1);
    }
  }

  lemma DivUnique(n: nat, period: nat, q: nat, r: nat)
    requires period > 0 && r < period && n == q * period + r
    ensures n / period == q && n % period == r
  {
    var q2, r2 := n / period, n % period;
    assert (q2 - q) * period == r - r2;
    if q2 > q {
      MulAtLeast(q2 - q, period);
    } else if q2 < q {
      MulAtLeast(q - q2, period);
    }
  }

  lemma MulAtLeast(k: int, period: nat)
    requires k >= 1
    ensures k * period >= period
  {
    assert k * period == (k - 1) * period + period;
    assert (k - 1) * period >= 0;
  }

  /** Counted after the save, `n` reports give one patch per full period:
      the 10th crash report of a game triggers the first patch. */
  lemma {:induction false} CadenceCountedAfter(n: nat, period: nat)
    requires period > 0
    ensures PatchesCountedAfter(n, period) == n / period
    decreases n
  {
    if n > 0 {
      CadenceCountedAfter(n - 1, period);
      DivStep(n, period);
    }
  }

  /** Counted before the save, as the source does, the patches lag one
      report behind: `n` reports give one patch per full period among the
      first `n - 1`. */
  lemma {:induction false} CadenceCountedBefore(n: nat, period: nat)
    requires period > 0 && n > 0
    ensures PatchesCountedBefore(n, period) == (n - 1) / period
    decreases n
  {
    if n > 1 {
      CadenceCountedBefore(n - 1, period);
      DivStep(n - 1, period);
    }
  }

  /** Ten crash reports for a new game: the source publishes no patch (the
      first comes with the 11th report), the intended rule publishes one. */
  lemma TenthCrashReport()
    ensures PatchesCountedBefore(10, CRASH_PERIOD) == 0 && PatchesCountedBefore(11, CRASH_PERIOD) == 1
    ensures PatchesCountedAfter(9, CRASH_PERIOD) == 0 && PatchesCountedAfter(10, CRASH_PERIOD) == 1
  {
    CadenceCountedBefore(10, CRASH_PERIOD);
    CadenceCountedBefore(11, CRASH_PERIOD);
    CadenceCountedAfter(9, CRASH_PERIOD);
    CadenceCountedAfter(10, CRASH_PERIOD);
  }

  /** On one crash report: processCrashReport as written tests the count of
      the stored reports before the new one, so it fires when the count
      after the save is one past a multiple of ten (11, 21, ...); the
      intended test on the count after the save fires at 10, 20, ... */
  lemma CrashTriggerAsWritten(t: Table<CrashReport>, c: CrashReport)
    requires Valid(t)
    ensures var after := CrashCount(Insert(t, c), c.gameId);
      after == CrashCount(t, c.gameId) + 1
      && (TriggersAutoPatch(CrashCount(t, c.gameId), CRASH_PERIOD) <==> after > 1 && after % 10 == 1)
      && (TriggersAutoPatch(after, CRASH_PERIOD) <==> after % 10 == 0)
  {
    CrashCountInsert(t, c, c.gameId);
  }

  /** As written, processGameReview's test reads only the stored reviews,
      not the incoming one. */
  predicate ReviewTriggersAsWritten(reviews: map<nat, Review>, gameId: nat): (b: bool)
    ensures b <==> NegativeReviewCount(reviews, gameId) >= REVIEW_PERIOD
                   && NegativeReviewCount(reviews, gameId) % REVIEW_PERIOD == 0
  {
    TriggersAutoPatch(NegativeReviewCount(reviews, gameId), REVIEW_PERIOD)
  }

  /** With 15 low-rated reviews stored, the source patches for "negative
      feedback" on the arrival of a review rated above 2; the intended rule
      does not. */
  lemma WellRatedReviewTriggersAsWritten(reviews: map<nat, Review>, id: nat, r: Review)
    requires NegativeReviewCount(reviews, r.gameId) == REVIEW_PERIOD && r.rating > 2
    ensures ReviewTriggersAsWritten(reviews, r.gameId)
    ensures !ReachesMultiple(NegativeReviewCount(reviews, r.gameId),
                             NegativeReviewCount(reviews[id := r], r.gameId), REVIEW_PERIOD)
  {
    NegativeCountUpsert(reviews, id, r, r.gameId);
  }

  /** Under the intended rule, replaying a stored review never patches. */
  lemma ReplayNeverTriggers(reviews: map<nat, Review>, id: nat)
    requires id in reviews
    ensures !ReachesMultiple(NegativeReviewCount(reviews, reviews[id].gameId),
                             NegativeReviewCount(reviews[id := reviews[id]], reviews[id].gameId), REVIEW_PERIOD)
  {
    assert reviews[id := reviews[id]] == reviews;
  }

  // ---------------------------------------------------------------------
  // The service

  /** The patch publishAutoPatch builds for a reason. */
  function AutoPatch(gameId: nat, current: string, reason: Reason, now: int): (p: Patch)
    ensures p.gameId == gameId && p.version == IncrementVersion(current) && p.publicationDate == now
    ensures |p.tags| == 2 && BugFix in p.tags
    ensures SecurityFix in p.tags <==> reason == Crash
    ensures AddFeature in p.tags <==> reason == NegativeFeedback
  {
    var tags := AutoPatchTags(reason);
    match reason
    case Crash =>
      Patch(gameId, IncrementVersion(current), tags,
            "Automatic stability fix after multiple crash reports.", now)
    case NegativeFeedback =>
      Patch(gameId, IncrementVersion(current), tags,
            "Balance update based on community feedback.", now)
  }

  /** The log tags of an automatic patch, by reason. */
  function AutoPatchTags(reason: Reason): (tags: seq<LogTag>)
    ensures |tags| == 2 && BugFix in tags
    ensures SecurityFix in tags <==> reason == Crash
    ensures AddFeature in tags <==> reason == NegativeFeedback
  {
    match reason
    case Crash => [BugFix, SecurityFix]
    case NegativeFeedback => [AddFeature, BugFix]
  }

  /** The games after an automatic patch of `gameId`. */
  function Bumped(t: Table<Game>, gameId: nat): (u: Table<Game>)
    requires Valid(t) && gameId in t.rows
    ensures Valid(u) && u.rows.Keys == t.rows.Keys
    ensures Parse(u.rows[gameId].version).Some? && u.rows[gameId].name == t.rows[gameId].name
    ensures forall id :: id in t.rows && id != gameId ==> u.rows[id] == t.rows[id]
  {
    Save(t, gameId, t.rows[gameId].(version := IncrementVersion(t.rows[gameId].version)))
  }

  class PublisherService {

    var games: Table<Game>
    var reviews: map<nat, Review>
    var crashReports: Table<CrashReport>
    /** The events handed to the producer, in order. */
    var outbox: seq<Event>

    predicate Valid()
      reads this
    {
      Store.Valid(games) && Store.Valid(crashReports)
    }

    constructor (games: Table<Game>)
      requires Store.Valid(games)
      ensures Valid() && this.games == games && reviews == map[] && crashReports == EmptyTable() && outbox == []
    {
      this.games := games;
      reviews := map[];
      crashReports := EmptyTable();
      outbox := [];
    }

    /** publishAutoPatch: the game's version is bumped and PatchPublished
        announces the new version; the patch record is built but not
        stored. */
    method PublishAutoPatch(gameId: nat, reason: Reason, now: int) returns (patch: Patch)
      requires Valid() && gameId in games.rows
      modifies this
      ensures Valid()
      ensures patch == AutoPatch(gameId, old(games).rows[gameId].version, reason, now)
      ensures games == Bumped(old(games), gameId)
      ensures outbox == old(outbox) + [PatchPublished(gameId, IncrementVersion(old(games).rows[gameId].version))]
      ensures reviews == old(reviews) && crashReports == old(crashReports)
    {
      var game := games.rows[gameId];
      var next := IncrementVersion(game.version);
      patch := AutoPatch(gameId, game.version, reason, now);
      games := Save(games, gameId, game.(version := next));
      outbox := outbox + [PatchPublished(gameId, next)];
    }

    /** processGameReview, with the threshold test on the count after the
        review is stored: the game must exist; the review is stored under
        the distributor's review id (a replay overwrites it); a patch for
        negative feedback follows when the game's low-rated count has just
        reached a multiple of 15. */
    method ProcessGameReview(e: Event, now: int) returns (failure: Option<Failure>)
      requires e.GameReviewed? && Valid()
      modifies this
      ensures Valid() && crashReports == old(crashReports)
      ensures e.gameId !in old(games).rows ==>
        failure == Some(GameNotFound) && games == old(games) && reviews == old(reviews) && outbox == old(outbox)
      ensures e.gameId in old(games).rows ==>
        var review := Review(e.gameId, e.rating, e.comment, e.publicationDate);
        failure.None? && reviews == old(reviews)[e.reviewId := review]
        && if ReachesMultiple(NegativeReviewCount(old(reviews), e.gameId),
                              NegativeReviewCount(reviews, e.gameId), REVIEW_PERIOD)
           then games == Bumped(old(games), e.gameId)
                && outbox == old(outbox) + [PatchPublished(e.gameId, IncrementVersion(old(games).rows[e.gameId].version))]
           else games == old(games) && outbox == old(outbox)
    {
      if e.gameId !in games.rows {
        return Some(GameNotFound);
      }
      var before := NegativeReviewCount(reviews, e.gameId);
      reviews := reviews[e.reviewId := Review(e.gameId, e.rating, e.comment, e.publicationDate)];
      var after := NegativeReviewCount(reviews, e.gameId);
      if ReachesMultiple(before, after, REVIEW_PERIOD) {
        var _ := PublishAutoPatch(e.gameId, NegativeFeedback, now);
      }
      return None;
    }

    /** processCrashReport, with the threshold test on the count after the
        report is stored: the game must exist and the platform must be a
        known one; the report is stored, and every 10th report of the game
        is followed by a patch for stability. */
    method ProcessCrashReport(e: Event, now: int) returns (failure: Option<Failure>)
      requires e.CrashReported? && Valid()
      modifies this
      ensures Valid() && reviews == old(reviews)
      ensures e.gameId !in old(games).rows ==>
        failure == Some(GameNotFound) && games == old(games) && crashReports == old(crashReports) && outbox == old(outbox)
      ensures e.gameId in old(games).rows && e.platform !in PLATFORMS ==>
        failure == Some(InvalidPlatform) && games == old(games) && crashReports == old(crashReports) && outbox == old(outbox)
      ensures e.gameId in old(games).rows && e.platform in PLATFORMS ==>
        failure.None?
        && crashReports == Insert(old(crashReports), CrashReport(e.gameId, e.distributorId, e.platform,
                                                                 e.installedVersion, e.errorCode, e.message, now))
        && CrashCount(crashReports, e.gameId) == CrashCount(old(crashReports), e.gameId) + 1
        && if TriggersAutoPatch(CrashCount(crashReports, e.gameId), CRASH_PERIOD)
           then games == Bumped(old(games), e.gameId)
                && outbox == old(outbox) + [PatchPublished(e.gameId, IncrementVersion(old(games).rows[e.gameId].version))]
           else games == old(games) && outbox == old(outbox)
    {
      if e.gameId !in games.rows {
        return Some(GameNotFound);
      }
      if e.platform !in PLATFORMS {
        return Some(InvalidPlatform);
      }
      var crash := CrashReport(e.gameId, e.distributorId, e.platform, e.installedVersion, e.errorCode, e.message, now);
      CrashCountInsert(crashReports, crash, e.gameId);
      crashReports := Insert(crashReports, crash);
      if TriggersAutoPatch(CrashCount(crashReports, e.gameId), CRASH_PERIOD) {
        var _ := PublishAutoPatch(e.gameId, Crash, now);
      }
      return None;
    }
  }
}
