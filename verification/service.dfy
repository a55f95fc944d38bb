/** The reservation service over the store: saving under the conflict rule,
    lookup, delete, existence, and the availability query.

    Calls are sequential; the transaction and lock annotations only matter
    for concurrent callers and are not part of this model. */
module Service {
  import opened Records
  import opened Repository
  import Gaps

  /** The message of the exception thrown on a conflict. */
  const ConflictMessage: string := "Campsite already reserved for provided dates. Please try another dates"

  /** The outcome of `saveReservation`: the store afterwards, and either the
      persisted row or the conflict message. */
  datatype SaveResult = Stored(db: Db, reservation: Reservation) | Rejected(db: Db, message: string)

  /** `saveReservation`: refuses when some stored row of another email lies
      inside the requested dates, and otherwise saves the DTO under
      `reservationId`. */
  function SaveReservation(db: Db, dto: ReservationDto, reservationId: Option<int>): (r: SaveResult)
    requires WellFormed(db)
    ensures r.Rejected? <==> FindAllInTimeRangeExcludeUser(db, dto.fromDate, dto.toDate, dto.email) != map[]
    ensures r.Rejected? ==> r.db == db && r.message == ConflictMessage
    ensures r.Stored? ==> WellFormed(r.db)
    ensures r.Stored? ==> r.reservation.id.Some? && r.reservation == ToEntity(dto, r.reservation.id)
    ensures r.Stored? ==> GetReservation(r.db, r.reservation.id.value) == Some(r.reservation)
    ensures r.Stored? && reservationId.Some? && reservationId.value in db.rows ==>
              r.reservation.id == reservationId
    ensures r.Stored? && !(reservationId.Some? && reservationId.value in db.rows) ==>
              r.reservation.id.value !in db.rows
    ensures r.Stored? ==>
              forall k :: k != r.reservation.id.value ==> GetReservation(r.db, k) == GetReservation(db, k)
    ensures r.Stored? ==>
              FindAllInTimeRangeExcludeUser(r.db, dto.fromDate, dto.toDate, dto.email) == map[]
  {
    var conflicts := FindAllInTimeRangeExcludeUser(db, dto.fromDate, dto.toDate, dto.email);
    if conflicts != map[] then
      Rejected(db, ConflictMessage)
    else
      var saved := Save(db, ToEntity(dto, reservationId));
      var k := saved.row.id.value;
      assert forall j :: j in saved.db.rows && j != k ==> j in db.rows && saved.db.rows[j] == db.rows[j] by {
        forall j | j in saved.db.rows && j != k
          ensures j in db.rows && saved.db.rows[j] == db.rows[j]
        {
          assert FindById(saved.db, j) == FindById(db, j);
        }
      }
      assert forall j :: j !in FindAllInTimeRangeExcludeUser(saved.db, dto.fromDate, dto.toDate, dto.email) by {
        forall j
          ensures j !in FindAllInTimeRangeExcludeUser(saved.db, dto.fromDate, dto.toDate, dto.email)
        {
          if j != k && j in saved.db.rows {
            assert j !in conflicts;
          }
        }
      }
      Stored(saved.db, saved.row)
  }

  /** `getReservation`: the row under `id`, or null. */
  function GetReservation(db: Db, id: int): (r: Option<Reservation>)
    ensures r.Some? <==> IsExists(db, id)
    ensures r.Some? ==> r.value == db.rows[id]
  {
    FindById(db, id)
  }

  /** `deleteReservation`. */
  function DeleteReservation(db: Db, id: int): (db': Db)
    ensures WellFormed(db) ==> WellFormed(db')
  {
    DeleteById(db, id)
  }

  /** `isExists`: whether a booking is stored under the id. */
  function IsExists(db: Db, id: int): (b: bool)
    ensures b <==> id in db.rows
  {
    ExistsById(db, id)
  }

  /** After a delete the id is gone, whether or not it was there: it neither
      exists nor can be fetched, deleting again changes nothing, deleting an
      absent id is a no-op, and every other row is untouched. */
  lemma DeleteRemoves(db: Db, id: int)
    ensures !IsExists(DeleteReservation(db, id), id)
    ensures GetReservation(DeleteReservation(db, id), id) == None
    ensures DeleteReservation(DeleteReservation(db, id), id) == DeleteReservation(db, id)
    ensures !IsExists(db, id) ==> DeleteReservation(db, id) == db
    ensures forall k :: k != id ==> GetReservation(DeleteReservation(db, id), k) == GetReservation(db, k)
  {
  }

  // ---------------------------------------------------------------------
  // The conflict rule at work

  /** Booking the same dates again under another email is refused and leaves
      the first booking where it was. */
  lemma SecondBookingOfSameDatesRejected(db: Db, first: ReservationDto, second: ReservationDto)
    requires WellFormed(db)
    requires SaveReservation(db, first, None).Stored?
    requires second.fromDate == first.fromDate && second.toDate == first.toDate
    requires second.email != first.email
    ensures var after := SaveReservation(db, first, None);
            var again := SaveReservation(after.db, second, None);
            && again == Rejected(after.db, ConflictMessage)
            && GetReservation(again.db, after.reservation.id.value) == Some(after.reservation)
  {
    var after := SaveReservation(db, first, None);
    var k := after.reservation.id.value;
    assert k in FindAllInTimeRangeExcludeUser(after.db, second.fromDate, second.toDate, second.email);
  }

  /** Rows of the requester's own email never stand in the way: if every row
      inside the dates has that email, the save goes through. */
  lemma SameEmailNeverConflicts(db: Db, dto: ReservationDto, reservationId: Option<int>)
    requires WellFormed(db)
    requires forall k :: k in db.rows && Contained(db.rows[k], dto.fromDate, dto.toDate) ==>
               db.rows[k].email == dto.email
    ensures SaveReservation(db, dto, reservationId).Stored?
  {
    var conflicts := FindAllInTimeRangeExcludeUser(db, dto.fromDate, dto.toDate, dto.email);
    assert forall j :: j !in conflicts;
    assert conflicts.Keys == {};
  }

  /** The conflict query excludes by email, not by id: updating a row to a
      new email without moving its dates finds the row itself and is
      refused. */
  lemma EmailChangeConflictsWithItself(db: Db, k: int, dto: ReservationDto)
    requires WellFormed(db) && k in db.rows
    requires dto.fromDate == db.rows[k].fromDate && dto.toDate == db.rows[k].toDate
    requires dto.email != db.rows[k].email
    ensures SaveReservation(db, dto, Some(k)) == Rejected(db, ConflictMessage)
  {
    assert k in FindAllInTimeRangeExcludeUser(db, dto.fromDate, dto.toDate, dto.email);
  }

  /** Containment lets overlapping bookings in: with `[10, 12]` (in days)
      stored for one email, `[11, 13]` for another email is accepted, and the
      store then holds two bookings of different emails sharing day 11 and
      day 12. */
  lemma PartialOverlapAccepted(a: string, b: string)
    requires a != b
    ensures var stored := Reservation(Some(1), "A", "A", a, 10 * DAY, 12 * DAY);
            var db := Db(map[1 := stored], 2);
            var dto := ReservationDto(None, "B", "B", b, 11 * DAY, 13 * DAY);
            var r := SaveReservation(db, dto, None);
            && r.Stored?
            && GetReservation(r.db, 1) == Some(stored)
            && Overlaps(stored, r.reservation.fromDate, r.reservation.toDate)
            && stored.email != r.reservation.email
  {
    var stored := Reservation(Some(1), "A", "A", a, 10 * DAY, 12 * DAY);
    var db := Db(map[1 := stored], 2);
    var dto := ReservationDto(None, "B", "B", b, 11 * DAY, 13 * DAY);
    assert FindAllInTimeRangeExcludeUser(db, dto.fromDate, dto.toDate, dto.email) == map[];
  }

  // ---------------------------------------------------------------------
  // Availability

  /** `listing` is the query result `found` as the database lists it: every
      row of `found` exactly once, in some order. */
  predicate Lists(listing: seq<Reservation>, found: map<int, Reservation>)
  {
    && |listing| == |found|
    && (forall i :: 0 <= i < |listing| ==>
          listing[i].id.Some? && listing[i].id.value in found && found[listing[i].id.value] == listing[i])
    && (forall i, j :: 0 <= i < j < |listing| ==> listing[i].id != listing[j].id)
  }

  /** The `map { Availabilty(it.fromDate, it.toDate) }` step. */
  function DatesOf(listing: seq<Reservation>): (d: seq<Availability>)
    ensures |d| == |listing|
    ensures forall i :: 0 <= i < |d| ==>
              d[i].fromDate == listing[i].fromDate && d[i].toDate == listing[i].toDate
  {
    seq(|listing|, i requires 0 <= i < |listing| => Availability(listing[i].fromDate, listing[i].toDate))
  }

  /** `getAvailability(rangeFrom, rangeTo)`, given the order `listing` in
      which the range query returned its rows. With nothing inside the window
      the whole window is free; otherwise the result still starts at the
      window start, with a first block that ends the day before the earliest
      booking found. */
  function GetAvailability(db: Db, rangeFrom: int, rangeTo: int, listing: seq<Reservation>): (r: seq<Availability>)
    requires Lists(listing, FindAllInTimeRange(db, rangeFrom, rangeTo))
    ensures FindAllInTimeRange(db, rangeFrom, rangeTo) == map[] ==> r == [Availability(rangeFrom, rangeTo)]
    ensures r != [] && r[0].fromDate == rangeFrom
    ensures listing != [] ==>
              && (forall i :: 0 <= i < |listing| ==> r[0].toDate + DAY <= listing[i].fromDate)
              && (exists i :: 0 <= i < |listing| && r[0].toDate + DAY == listing[i].fromDate)
  {
    var dates := DatesOf(listing);
    var r := Gaps.ComputeAvailability(dates, rangeFrom, rangeTo);
    assert listing != [] ==> exists i :: 0 <= i < |listing| && r[0].toDate + DAY == listing[i].fromDate by {
      if listing != [] {
        var i :| 0 <= i < |dates| && r[0].toDate + DAY == dates[i].fromDate;
      }
    }
    r
  }

  /** Every row in the store has its start no later than its end, as the
      validator demands of every request. */
  predicate DatesOrdered(db: Db)
  {
    forall k :: k in db.rows ==> db.rows[k].fromDate <= db.rows[k].toDate
  }

  /** The rows the query lists become proper input for the fold. */
  lemma ListedDatesProper(db: Db, rangeFrom: int, rangeTo: int, listing: seq<Reservation>)
    requires Lists(listing, FindAllInTimeRange(db, rangeFrom, rangeTo))
    requires DatesOrdered(db)
    ensures Gaps.Proper(DatesOf(listing), rangeFrom)
  {
    var found := FindAllInTimeRange(db, rangeFrom, rangeTo);
    forall i | 0 <= i < |listing|
      ensures rangeFrom <= listing[i].fromDate <= listing[i].toDate
    {
      var k := listing[i].id.value;
      assert k in found && found[k] == db.rows[k];
    }
  }

  /** On a store whose rows have ordered dates, the availability is the
      tiled run of blocks from the window start, each later block starting
      the day after the previous one ends, followed by the trailing block
      from the day after the last booking in sorted order, when that day is
      strictly before the window end; the second `if` of the loop never
      adds a block. */
  lemma AvailabilityOnOrderedStore(db: Db, rangeFrom: int, rangeTo: int, listing: seq<Reservation>)
    requires Lists(listing, FindAllInTimeRange(db, rangeFrom, rangeTo))
    requires DatesOrdered(db) && listing != []
    ensures var dates := DatesOf(listing);
            var body := Gaps.Body(dates, rangeFrom);
            var lastRes := Gaps.LastSorted(dates);
            && !Gaps.BehindBranchFires([], Gaps.SortByFrom(dates), rangeFrom)
            && body != [] && body[0].fromDate == rangeFrom
            && (forall i :: 0 < i < |body| ==>
                  body[i].fromDate == body[i - 1].toDate + DAY && body[i - 1].toDate < body[i].toDate)
            && GetAvailability(db, rangeFrom, rangeTo, listing)
                 == body + (if lastRes.toDate + DAY < rangeTo
                            then [Availability(lastRes.toDate + DAY, rangeTo)] else [])
  {
    var dates := DatesOf(listing);
    ListedDatesProper(db, rangeFrom, rangeTo, listing);
    Gaps.BehindBranchIsDead(dates, rangeFrom);
    Gaps.BodyShape(dates, rangeFrom);
    Gaps.TrailingAfterLastBooking(dates, rangeFrom, rangeTo);
  }

  /** With an empty store the whole window is one block. */
  lemma EmptyStoreWholeWindow(rangeFrom: int, rangeTo: int)
    ensures GetAvailability(Empty, rangeFrom, rangeTo, []) == [Availability(rangeFrom, rangeTo)]
  {
  }

  /** One stored booking `[a, b]` inside the window, ending more than a day
      before the window end: the query lists just that row, and the result is
      two blocks, up to the day before `a` and from the day after `b`. */
  lemma OneBookingTwoBlocks(db: Db, k: int, rangeFrom: int, rangeTo: int, listing: seq<Reservation>)
    requires WellFormed(db) && db.rows.Keys == {k}
    requires rangeFrom <= db.rows[k].fromDate <= db.rows[k].toDate <= rangeTo
    requires Lists(listing, FindAllInTimeRange(db, rangeFrom, rangeTo))
    ensures listing == [db.rows[k]]
    ensures db.rows[k].toDate + DAY < rangeTo ==>
              GetAvailability(db, rangeFrom, rangeTo, listing)
                == [Availability(rangeFrom, db.rows[k].fromDate - DAY), Availability(db.rows[k].toDate + DAY, rangeTo)]
  {
    var r := db.rows[k];
    var found := FindAllInTimeRange(db, rangeFrom, rangeTo);
    assert found == map[k := r];
    assert |listing| == 1;
    assert listing[0].id.value == k;
    assert listing == [r];
    assert DatesOf([r]) == [Availability(r.fromDate, r.toDate)];
    Gaps.SingleBooking(r.fromDate, r.toDate, rangeFrom, rangeTo);
  }
}
