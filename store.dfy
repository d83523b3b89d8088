/** The relational stores behind every service, as maps from generated id to
    row. Saving a row whose id is null allocates the next id of the table's
    sequence; saving a row that has an id replaces that row. Queries return
    ids in ascending order, the order in which `findAll` lists rows here. */
module Store {

  import opened Wrappers

  /** One table: its rows and the next value of its id sequence. */
  datatype Table<T> = Table(rows: map<nat, T>, nextId: nat)

  /** Every stored id was handed out by the sequence. */
  predicate Valid<T>(t: Table<T>)
  {
    forall id :: id in t.rows ==> id < t.nextId
  }

  function EmptyTable<T>(): (t: Table<T>)
    ensures Valid(t) && t.rows == map[]
  {
    Table(map[], 1)
  }

  /** `repository.findById(id)`. */
  function FindById<T>(t: Table<T>, id: nat): (r: Option<T>)
    ensures r.Some? <==> id in t.rows
    ensures r.Some? ==> r.value == t.rows[id]
  {
    if id in t.rows then Some(t.rows[id]) else None
  }

  /** `repository.save(row)` for a row built with `setId(null)`: the row is
      stored under a fresh id and every other row is kept. */
  function Insert<T>(t: Table<T>, row: T): (u: Table<T>)
    requires Valid(t)
    ensures Valid(u)
    ensures t.nextId !in t.rows && u.nextId > t.nextId
    ensures u.rows.Keys == t.rows.Keys + {t.nextId} && u.rows[t.nextId] == row
    ensures forall id :: id in t.rows ==> u.rows[id] == t.rows[id]
  {
    Table(t.rows[t.nextId := row], t.nextId + 1)
  }

  /** `repository.save(row)` for a row read from the table (its id is set):
      that row is replaced, the others are kept and no id is allocated. */
  function Save<T>(t: Table<T>, id: nat, row: T): (u: Table<T>)
    requires Valid(t) && id in t.rows
    ensures Valid(u) && u.nextId == t.nextId
    ensures u.rows.Keys == t.rows.Keys && u.rows[id] == row
    ensures forall k :: k in t.rows && k != id ==> u.rows[k] == t.rows[k]
  {
    Table(t.rows[id := row], t.nextId)
  }

  /** The ids below `n` of the rows that satisfy `p`, ascending. */
  function SelectBelow<T>(rows: map<nat, T>, p: T -> bool, n: nat): (ids: seq<nat>)
    ensures forall i :: 0 <= i < |ids| ==> ids[i] < n && ids[i] in rows && p(rows[ids[i]])
    ensures forall id :: id < n && id in rows && p(rows[id]) ==> id in ids
    ensures forall i, j :: 0 <= i < j < |ids| ==> ids[i] < ids[j]
    decreases n
  {
    if n == 0 then []
    else
      var before := SelectBelow(rows, p, n - 1);
      if n - 1 in rows && p(rows[n - 1]) then before + [n - 1] else before
  }

  /** `findAll().stream().filter(p)`: exactly the ids of the rows that
      satisfy `p`, ascending, each once. */
  function Select<T>(t: Table<T>, p: T -> bool): (ids: seq<nat>)
    requires Valid(t)
    ensures forall id :: id in ids <==> id in t.rows && p(t.rows[id])
    ensures forall i, j :: 0 <= i < j < |ids| ==> ids[i] < ids[j]
  {
    SelectBelow(t.rows, p, t.nextId)
  }

  /** The outcome of a Spring Data query declared to return an `Optional`:
      no row, exactly one row, or more than one row (which makes the
      repository throw IncorrectResultSizeDataAccessException). */
  datatype Lookup = NoRow | One(id: nat) | Many

  function Unique(ids: seq<nat>): (l: Lookup)
    ensures l.NoRow? <==> ids == []
    ensures l.One? <==> |ids| == 1
    ensures l.One? ==> ids == [l.id]
    ensures l.Many? <==> |ids| >= 2
  {
    if |ids| == 0 then NoRow else if |ids| == 1 then One(ids[0]) else Many
  }

  /** Two tables that agree, below `n`, on which ids hold a row satisfying
      their predicate give the same query result. */
  lemma {:induction false} SelectBelowAgree<T>(r1: map<nat, T>, p1: T -> bool, r2: map<nat, T>, p2: T -> bool, n: nat)
    requires forall id :: id < n ==> ((id in r1 && p1(r1[id])) <==> (id in r2 && p2(r2[id])))
    ensures SelectBelow(r1, p1, n) == SelectBelow(r2, p2, n)
    decreases n
  {
    if n > 0 {
      SelectBelowAgree(r1, p1, r2, p2, n - 1);
    }
  }

  /** A query after an insert returns what it returned before, followed by
      the new id when the new row matches. */
  lemma SelectInsert<T>(t: Table<T>, row: T, p: T -> bool)
    requires Valid(t)
    ensures Select(Insert(t, row), p) == Select(t, p) + (if p(row) then [t.nextId] else [])
  {
    var u := Insert(t, row);
    SelectBelowAgree(u.rows, p, t.rows, p, t.nextId);
  }

  /** Replacing a row by one that the predicate judges the same way leaves
      the query result unchanged. */
  lemma SelectSaveSame<T>(t: Table<T>, id: nat, row: T, p: T -> bool)
    requires Valid(t) && id in t.rows
    requires p(row) == p(t.rows[id])
    ensures Select(Save(t, id, row), p) == Select(t, p)
  {
    var u := Save(t, id, row);
    SelectBelowAgree(u.rows, p, t.rows, p, t.nextId);
  }
}
