/** The records the campsite core works on: the persisted reservation, the
    request/response DTO, an availability block, and the field copies between
    the entity and the DTO.

    Instants are whole numbers of nanoseconds since the epoch; `DAY` is the
    length of one `ChronoUnit.DAYS` step. */
module Records {

  /** One day in nanoseconds, the unit every `plus(1, DAYS)` adds. */
  const DAY: int := 86_400 * 1_000_000_000

  /** Kotlin's nullable `T?`. */
  datatype Option<+T> = None | Some(value: T)

  /** The persisted booking. `id` is null until the store assigns one. */
  datatype Reservation = Reservation(
    id: Option<int>,
    firstName: string,
    lastName: string,
    email: string,
    fromDate: int,
    toDate: int)

  /** The wire-facing shape of a booking; validation applies to this one. */
  datatype ReservationDto = ReservationDto(
    id: Option<int>,
    firstName: string,
    lastName: string,
    email: string,
    fromDate: int,
    toDate: int)

  /** One free interval reported by the availability query (spelt
      `Availabilty` in the source). */
  datatype Availability = Availability(fromDate: int, toDate: int)

  /** Entity to DTO: every field is carried over, the id included. */
  function ToDto(r: Reservation): (d: ReservationDto)
    ensures d.id == r.id
    ensures d.firstName == r.firstName && d.lastName == r.lastName && d.email == r.email
    ensures d.fromDate == r.fromDate && d.toDate == r.toDate
  {
    ReservationDto(r.id, r.firstName, r.lastName, r.email, r.fromDate, r.toDate)
  }

  /** DTO to entity under the given id; the DTO's own id is ignored. The
      source's default argument is `None`. */
  function ToEntity(d: ReservationDto, id: Option<int>): (r: Reservation)
    ensures r.id == id
    ensures r.firstName == d.firstName && r.lastName == d.lastName && r.email == d.email
    ensures r.fromDate == d.fromDate && r.toDate == d.toDate
  {
    Reservation(id, d.firstName, d.lastName, d.email, d.fromDate, d.toDate)
  }

  /** Converting an entity to a DTO and back under its own id gives it back. */
  lemma EntityRoundTrip(r: Reservation)
    ensures ToEntity(ToDto(r), r.id) == r
  {
  }

  /** Converting a DTO to an entity and back gives the DTO with its id
      replaced by the one passed in. */
  lemma DtoRoundTrip(d: ReservationDto, id: Option<int>)
    ensures ToDto(ToEntity(d, id)) == d.(id := id)
  {
  }

  /** With the default argument the entity carries no id, whatever the DTO's was. */
  lemma DefaultEntityHasNoId(d: ReservationDto)
    ensures ToEntity(d, None).id == None
    ensures d.id.Some? ==> ToEntity(d, None).id != d.id
  {
  }
}
