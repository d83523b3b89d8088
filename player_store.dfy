/** The player service's local table of installed games, shared by its
    listener (which records the game files it receives) and its producer
    (which reads versions for updates and deletes rows on uninstall). */
module PlayerStore {

  import opened Wrappers
  import opened Store
  import opened Events

  /** One installation. `installedVersion` is nullable in the schema. */
  datatype InstalledGame = InstalledGame(playerId: nat, gameId: nat, platform: string, installedVersion: Option<string>)

  /** The version sendUpdateGame reports for an installation whose version
      is null. */
  const DEFAULT_INSTALLED_VERSION: string := "1.0.0"

  /** Every stored platform is a `Platform` enum name (the column is an
      enum). */
  predicate ValidInstalls(t: Table<InstalledGame>)
  {
    Store.Valid(t) && forall id :: id in t.rows ==> t.rows[id].platform in PLATFORMS
  }

  function MatchOf(playerId: nat, gameId: nat, platform: string): InstalledGame -> bool
  {
    (g: InstalledGame) => g.playerId == playerId && g.gameId == gameId && g.platform == platform
  }

  /** `findAll().filter { player, game and platform match }`. */
  function Installations(t: Table<InstalledGame>, playerId: nat, gameId: nat, platform: string): (ids: seq<nat>)
    requires Store.Valid(t)
    ensures forall id :: id in ids <==>
              id in t.rows && t.rows[id].playerId == playerId && t.rows[id].gameId == gameId
              && t.rows[id].platform == platform
  {
    var ids := Select(t, MatchOf(playerId, gameId, platform));
    assert forall id :: id in t.rows ==>
      (MatchOf(playerId, gameId, platform)(t.rows[id])
       <==> t.rows[id].playerId == playerId && t.rows[id].gameId == gameId && t.rows[id].platform == platform);
    ids
  }

  /** The table after consumeSendGameFile: an unknown platform changes
      nothing; otherwise the first matching installation gets the received
      version, or a new installation is recorded when there is none. */
  function AfterGameFile(t: Table<InstalledGame>, targetId: nat, gameId: nat, version: string, platform: string)
    : (u: Table<InstalledGame>)
    requires ValidInstalls(t)
    ensures ValidInstalls(u)
    ensures platform !in PLATFORMS ==> u == t
    ensures var ids := Installations(t, targetId, gameId, platform);
      platform in PLATFORMS && ids != [] ==>
        (ids[0] in t.rows && u.rows.Keys == t.rows.Keys
         && u.rows[ids[0]] == t.rows[ids[0]].(installedVersion := Some(version))
         && forall id :: id in t.rows && id != ids[0] ==> u.rows[id] == t.rows[id])
    ensures platform in PLATFORMS && Installations(t, targetId, gameId, platform) == [] ==>
      (u.rows.Keys == t.rows.Keys + {t.nextId}
       && u.rows[t.nextId] == InstalledGame(targetId, gameId, platform, Some(version))
       && forall id :: id in t.rows ==> u.rows[id] == t.rows[id])
  {
    if platform !in PLATFORMS then t
    else
      var ids := Installations(t, targetId, gameId, platform);
      if ids != [] then Save(t, ids[0], t.rows[ids[0]].(installedVersion := Some(version)))
      else Insert(t, InstalledGame(targetId, gameId, platform, Some(version)))
  }

  /** What sendUpdateGame reads: nothing when the game is not installed on
      that platform, otherwise the first installation's version, or
      "1.0.0" when that version is null. */
  function VersionToUpdate(t: Table<InstalledGame>, playerId: nat, gameId: nat, platform: string): (v: Option<string>)
    requires ValidInstalls(t)
    ensures v.None? <==> Installations(t, playerId, gameId, platform) == []
    ensures var ids := Installations(t, playerId, gameId, platform);
      ids != [] ==>
        (ids[0] in t.rows
         && v == Some(if t.rows[ids[0]].installedVersion.Some? then t.rows[ids[0]].installedVersion.value
                      else DEFAULT_INSTALLED_VERSION))
  {
    var ids := Installations(t, playerId, gameId, platform);
    if ids == [] then None
    else
      match t.rows[ids[0]].installedVersion
      case Some(installed) => Some(installed)
      case None => Some(DEFAULT_INSTALLED_VERSION)
  }

  /** The table after sendUninstallGame's `deleteAll`: every matching
      installation is removed, every other row is kept. */
  function WithoutInstallations(t: Table<InstalledGame>, playerId: nat, gameId: nat, platform: string): (u: Table<InstalledGame>)
    requires ValidInstalls(t)
    ensures ValidInstalls(u) && u.nextId == t.nextId
    ensures forall id :: id in u.rows <==> id in t.rows && !MatchOf(playerId, gameId, platform)(t.rows[id])
    ensures forall id :: id in u.rows ==> u.rows[id] == t.rows[id]
  {
    Table(map id | id in t.rows && !MatchOf(playerId, gameId, platform)(t.rows[id]) :: t.rows[id], t.nextId)
  }

  /** After a game file for a known platform, an update of that game on that
      platform reports exactly the received version. */
  lemma UpdateReadsReceivedVersion(t: Table<InstalledGame>, targetId: nat, gameId: nat, version: string, platform: string)
    requires ValidInstalls(t) && platform in PLATFORMS
    ensures ValidInstalls(AfterGameFile(t, targetId, gameId, version, platform))
    ensures VersionToUpdate(AfterGameFile(t, targetId, gameId, version, platform), targetId, gameId, platform) == Some(version)
  {
    var p := MatchOf(targetId, gameId, platform);
    var ids := Installations(t, targetId, gameId, platform);
    var u := AfterGameFile(t, targetId, gameId, version, platform);
    if ids != [] {
      SelectSaveSame(t, ids[0], t.rows[ids[0]].(installedVersion := Some(version)), p);
    } else {
      SelectInsert(t, InstalledGame(targetId, gameId, platform, Some(version)), p);
    }
  }

  /** Receiving the same game file twice leaves the table as receiving it
      once: no second installation is recorded. */
  lemma AfterGameFileIdempotent(t: Table<InstalledGame>, targetId: nat, gameId: nat, version: string, platform: string)
    requires ValidInstalls(t)
    ensures ValidInstalls(AfterGameFile(t, targetId, gameId, version, platform))
    ensures var once := AfterGameFile(t, targetId, gameId, version, platform);
      AfterGameFile(once, targetId, gameId, version, platform) == once
  {
    if platform in PLATFORMS {
      var p := MatchOf(targetId, gameId, platform);
      var ids := Installations(t, targetId, gameId, platform);
      var once := AfterGameFile(t, targetId, gameId, version, platform);
      if ids != [] {
        SelectSaveSame(t, ids[0], t.rows[ids[0]].(installedVersion := Some(version)), p);
        assert once.rows[ids[0] := once.rows[ids[0]]] == once.rows;
      } else {
        SelectInsert(t, InstalledGame(targetId, gameId, platform, Some(version)), p);
        assert once.rows[t.nextId := once.rows[t.nextId]] == once.rows;
      }
    }
  }

  /** A game file touches only the installation it is for: every
      installation of another player, game or platform is kept, and at most
      one row is added. */
  lemma AfterGameFileKeepsOthers(t: Table<InstalledGame>, targetId: nat, gameId: nat, version: string, platform: string)
    requires ValidInstalls(t)
    ensures var u := AfterGameFile(t, targetId, gameId, version, platform);
      (forall id :: id in t.rows && !MatchOf(targetId, gameId, platform)(t.rows[id]) ==>
         id in u.rows && u.rows[id] == t.rows[id])
      && t.rows.Keys <= u.rows.Keys && |u.rows.Keys - t.rows.Keys| <= 1
  {
    var u := AfterGameFile(t, targetId, gameId, version, platform);
    if platform in PLATFORMS && Installations(t, targetId, gameId, platform) == [] {
      assert u.rows.Keys - t.rows.Keys == {t.nextId};
    } else {
      assert u.rows.Keys - t.rows.Keys == {};
    }
  }

  /** After an uninstall there is nothing left to update. */
  lemma UninstallRemovesAll(t: Table<InstalledGame>, playerId: nat, gameId: nat, platform: string)
    requires ValidInstalls(t)
    ensures VersionToUpdate(WithoutInstallations(t, playerId, gameId, platform), playerId, gameId, platform).None?
  {
    var u := WithoutInstallations(t, playerId, gameId, platform);
    var ids := Installations(u, playerId, gameId, platform);
    assert forall id :: id !in ids;
  }

  /** The installed games, shared by the player service's listener and
      producer. */
  class InstalledGameRepository {

    var table: Table<InstalledGame>

    constructor ()
      ensures ValidInstalls(table) && table.rows == map[]
    {
      table := EmptyTable();
    }
  }
}
