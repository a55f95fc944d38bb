/** The reservation store: rows keyed by id plus the identity counter that
    hands out fresh ids, the two range queries of the repository, and the
    inherited lookup, existence, delete and save operations.

    Queries return the matching rows keyed by id; the order in which the
    database lists them is not part of this model. */
module Repository {
  import opened Records

  /** The table: rows by primary key, and the next value of the identity
      column. */
  datatype Db = Db(rows: map<int, Reservation>, nextId: int)

  /** Every row sits under its own id, and every id is below the counter. */
  predicate WellFormed(db: Db)
  {
    forall k :: k in db.rows ==> db.rows[k].id == Some(k) && k < db.nextId
  }

  /** The empty table. */
  const Empty: Db := Db(map[], 1)

  /** The shared `WHERE` part of both queries: containment of the row's dates
      in `[from, to]`, not overlap with it. */
  predicate Contained(r: Reservation, from: int, to: int)
  {
    r.fromDate >= from && r.toDate <= to
  }

  /** Whether the closed date ranges of `r` and `[from, to]` intersect. */
  predicate Overlaps(r: Reservation, from: int, to: int)
  {
    r.fromDate <= to && from <= r.toDate
  }

  /** `findAllInTimeRange`: the stored rows lying inside `[from, to]`. */
  function FindAllInTimeRange(db: Db, from: int, to: int): (found: map<int, Reservation>)
    ensures forall k :: k in found <==> k in db.rows && Contained(db.rows[k], from, to)
    ensures forall k :: k in found ==> found[k] == db.rows[k]
  {
    map k | k in db.rows && Contained(db.rows[k], from, to) :: db.rows[k]
  }

  /** `findAllInTimeRangeExcludeUser`: the stored rows inside `[from, to]`
      booked under an email other than `email`. */
  function FindAllInTimeRangeExcludeUser(db: Db, from: int, to: int, email: string): (found: map<int, Reservation>)
    ensures forall k :: k in found <==>
              k in db.rows && Contained(db.rows[k], from, to) && db.rows[k].email != email
    ensures forall k :: k in found ==> found[k] == db.rows[k]
  {
    map k | k in db.rows && Contained(db.rows[k], from, to) && db.rows[k].email != email :: db.rows[k]
  }

  /** The excluding query is the plain range query with the caller's own
      email filtered out: same keys minus same-email rows, same values. */
  lemma ExcludeUserIsFilteredRange(db: Db, from: int, to: int, email: string)
    ensures var all := FindAllInTimeRange(db, from, to);
            FindAllInTimeRangeExcludeUser(db, from, to, email)
              == map k | k in all && all[k].email != email :: all[k]
  {
  }

  /** Containment, not overlap: a row that starts before `from` or ends after
      `to` is never returned, however much of it lies inside the window. */
  lemma RangeQueryMissesPartialOverlap(db: Db, from: int, to: int, email: string, k: int)
    requires k in db.rows
    requires db.rows[k].fromDate < from || db.rows[k].toDate > to
    ensures k !in FindAllInTimeRange(db, from, to)
    ensures k !in FindAllInTimeRangeExcludeUser(db, from, to, email)
  {
  }

  /** A stored row whose dates equal the requested window is reported as a
      conflict exactly when its email differs from the requester's. */
  lemma IdenticalWindowConflicts(db: Db, k: int, email: string)
    requires k in db.rows
    ensures var r := db.rows[k];
            k in FindAllInTimeRangeExcludeUser(db, r.fromDate, r.toDate, email) <==> r.email != email
  {
  }

  /** `findById`: the row stored under `id`, or null. */
  function FindById(db: Db, id: int): (r: Option<Reservation>)
    ensures r.Some? <==> id in db.rows
    ensures r.Some? ==> r.value == db.rows[id]
  {
    if id in db.rows then Some(db.rows[id]) else None
  }

  /** `existsById`. */
  function ExistsById(db: Db, id: int): (b: bool)
    ensures b <==> FindById(db, id).Some?
  {
    id in db.rows
  }

  /** `deleteById`: removes the row under `id`; an absent id leaves the table
      as it was. */
  function DeleteById(db: Db, id: int): (db': Db)
    ensures id !in db'.rows
    ensures forall k :: k != id ==> FindById(db', k) == FindById(db, k)
    ensures id !in db.rows ==> db' == db
    ensures WellFormed(db) ==> WellFormed(db')
  {
    if id in db.rows then Db(db.rows - {id}, db.nextId) else db
  }

  /** What `save` hands back: the new table and the persisted row. */
  datatype Saved = Saved(db: Db, row: Reservation)

  /** `save`: a row whose id is already stored replaces that row; any other
      row (no id, or an id not in the table) is inserted under a fresh id from
      the identity counter. */
  function Save(db: Db, r: Reservation): (s: Saved)
    requires WellFormed(db)
    ensures WellFormed(s.db)
    ensures s.row.id.Some? && s.row == r.(id := s.row.id)
    ensures s.row.id.value in s.db.rows && s.db.rows[s.row.id.value] == s.row
    ensures r.id.Some? && r.id.value in db.rows ==> s.row.id == r.id
    ensures !(r.id.Some? && r.id.value in db.rows) ==> s.row.id.value !in db.rows
    ensures forall k :: k != s.row.id.value ==> FindById(s.db, k) == FindById(db, k)
  {
    if r.id.Some? && r.id.value in db.rows then
      Saved(Db(db.rows[r.id.value := r], db.nextId), r)
    else
      var row := r.(id := Some(db.nextId));
      Saved(Db(db.rows[db.nextId := row], db.nextId + 1), row)
  }
}
