# Campsite reservations in Dafny

A model of the core of a campsite booking service: one campsite, bookings
over date ranges, and three pieces of sequential logic under the web layer.

- **Conflict rule and store** (`repository.dfy`, `service.dfy`). The store is
  a table of reservations keyed by id, plus the identity counter that hands
  out fresh ids. The two range queries select rows by *containment* in
  `[from, to]`. The conflicting-rows query also drops rows whose email equals
  the requester's. `saveReservation` refuses with the fixed message
  "Campsite already reserved for provided dates. Please try another dates"
  when that query finds anything. Otherwise it saves the DTO under the given
  id. Lookup, delete and existence are map operations.
- **Availability** (`gaps.dfy`, `Service.GetAvailability`). The rows found
  in the window are turned into date pairs, stably sorted by start, and
  folded into free blocks. A trailing block may follow. The fold is modelled
  as written, quirks included.
- **Validation** (`validator.dfy`). Six rules are checked in a fixed order
  and only the first one broken is reported, against a named field. The email
  pattern `^[A-Za-z0-9+_.-]+@(.+)$` is written out as a predicate and proved
  equal to its reading as a language.
- **Records** (`records.dfy`). The entity, the DTO, the availability block,
  and the field copies between entity and DTO.

Instants are integers: nanoseconds since the epoch, with `Records.DAY` one
day. The clock (`Instant.now()`) is the parameter `now`. The order in which
the database lists query rows is the parameter `listing` of
`Service.GetAvailability`, which is required to enumerate the query result.

The availability fold has these properties, each proved:

- The first block is always emitted. It is inverted when the first booking
  starts less than a day after the window start (`Gaps.InvertedFirstBlock`).
- A gap block starts the day after the previous *block* ends, which is an
  earlier booking's start, not the day after that booking ends. So with two
  bookings a block can cover an earlier booking
  (`Gaps.GapBlockCoversEarlierBooking`).
- For contained bookings with ordered dates, the trailing block needs the
  day after the last booking in sorted order to be strictly before the
  window end (`Gaps.TrailingAfterLastBooking`). When no booking reaches the
  window end and that booking ends the day before it, the free last day is
  reported by no block (`Gaps.LastDayUncovered`).
- The result is never empty, and it starts at the window start
  (`Gaps.ComputeAvailability`).
- The containment rule of the conflict query does not keep bookings of
  different emails from overlapping (`Service.PartialOverlapAccepted`).

## Model

| member | source | states |
|---|---|---|
| `Records.ToDto` | src/main/kotlin/com/example/campsite/Reservation.kt:34-41 | the DTO carries the entity's id, names, email and both dates unchanged |
| `Records.ToEntity` | src/main/kotlin/com/example/campsite/dto/ReservationsDto.kt:29-38 | the entity's id is the argument, whatever the DTO's id; names, email and dates are copied unchanged |
| `Records.EntityRoundTrip` | src/main/kotlin/com/example/campsite/Reservation.kt:34-41 | `r.toDto().toEntity(r.id) == r` |
| `Records.DtoRoundTrip` | src/main/kotlin/com/example/campsite/dto/ReservationsDto.kt:29-38 | `dto.toEntity(i).toDto()` is `dto` with its id replaced by `i` |
| `Records.DefaultEntityHasNoId` | src/main/kotlin/com/example/campsite/dto/ReservationsDto.kt:29 | with the default argument the entity's id is null, even when the DTO has one |
| `Validator.ValidateEmail` | src/main/kotlin/com/example/campsite/dto/ReservationValidator.kt:70-72 | accepts exactly the strings the email pattern matches as a whole: a non-empty local part over `[A-Za-z0-9+_.-]`, `@`, then one or more characters that are not line terminators |
| `Validator.SampleEmailAccepted` | src/test/kotlin/com/example/campsite/ReservationControllerTest.kt:34-41 | "john.doe@gmail.com" is accepted |
| `Validator.SampleEmailRejected` | src/test/kotlin/com/example/campsite/ReservationControllerTest.kt:145-172 | "23#&*@gmail.com" is rejected |
| `Validator.MongolianVowelSeparatorIsBlank` | src/main/kotlin/com/example/campsite/dto/ReservationValidator.kt:28-29 | with the Java 8 whitespace tables the build targets, a first name of U+180E alone is blank and reported as "First name shouldn't be blank" on `firstName` |
| `Validator.Validate` | src/main/kotlin/com/example/campsite/dto/ReservationValidator.kt:24-67 | a null DTO is invalid; a DTO is valid iff it breaks none of the six rules; an invalid DTO is reported with the message and field of a rule it breaks, and breaks no earlier rule |
| `Validator.FirstViolation` | src/main/kotlin/com/example/campsite/dto/ReservationValidator.kt:27-63 | reference search: finds a rule from the list that the DTO breaks, and finds none iff it breaks none of them |
| `Validator.ValidateIsFirstViolation` | src/main/kotlin/com/example/campsite/dto/ReservationValidator.kt:27-65 | the verdict is exactly the first broken rule of the fixed order, with its message and field, or valid when none is broken |
| `Validator.FirstViolationIsFirst` | src/main/kotlin/com/example/campsite/dto/ReservationValidator.kt:27-63 | a rule that is broken, with no earlier rule broken, is the one reported |
| `Validator.FirstNameReportedBeforeEmail` | src/main/kotlin/com/example/campsite/dto/ReservationValidator.kt:28-45 | a blank first name is reported on `firstName` even when the email is bad too |
| `Validator.DateBoundaries` | src/main/kotlin/com/example/campsite/dto/ReservationValidator.kt:46-63 | arriving exactly one day from now passes; `fromDate == toDate` passes; a 3-day stay passes; a 5-day stay is refused on `toDate`; start after end is refused on `fromDate` |
| `Validator.TooSoonReported` | src/main/kotlin/com/example/campsite/dto/ReservationValidator.kt:46-51 | arriving less than one day from now is refused on `fromDate` once names and email pass |
| `Repository.FindAllInTimeRange` | src/main/kotlin/com/example/campsite/ReservationRepository.kt:14-15 | returns exactly the stored rows with `fromDate >= from` and `toDate <= to`, unchanged, keyed by id |
| `Repository.FindAllInTimeRangeExcludeUser` | src/main/kotlin/com/example/campsite/ReservationRepository.kt:17-23 | returns exactly the stored rows inside `[from, to]` whose email differs from the given one |
| `Repository.ExcludeUserIsFilteredRange` | src/main/kotlin/com/example/campsite/ReservationRepository.kt:14-23 | the excluding query equals the plain range query filtered to other emails |
| `Repository.RangeQueryMissesPartialOverlap` | src/main/kotlin/com/example/campsite/ReservationRepository.kt:14-18 | a row that starts before `from` or ends after `to` is returned by neither query |
| `Repository.IdenticalWindowConflicts` | src/main/kotlin/com/example/campsite/ReservationRepository.kt:18 | a row whose dates equal the requested window is a conflict iff its email differs |
| `Repository.FindById` | src/main/kotlin/com/example/campsite/ReservationRepository.kt:25 | yields the row stored under the id, or null iff there is none |
| `Repository.ExistsById` | src/main/kotlin/com/example/campsite/ReservationRepository.kt:12 | true iff a lookup of the id finds a row |
| `Repository.DeleteById` | src/main/kotlin/com/example/campsite/ReservationService.kt:75-77 | the id is gone afterwards, all other rows are unchanged, an absent id leaves the table as it was, and the table invariant is kept |
| `Repository.Save` | src/main/kotlin/com/example/campsite/ReservationService.kt:28 | stores the row under its id when that id is present, otherwise under an id not yet in the table; returns the stored row; no other row changes; the table invariant is kept |
| `Gaps.InsertPermutes` | src/main/kotlin/com/example/campsite/ReservationService.kt:38 | inserting keeps every element, as a multiset, and adds the new one |
| `Gaps.InsertSorts` | src/main/kotlin/com/example/campsite/ReservationService.kt:38 | inserting puts the new element or the old head first, and keeps a sorted list sorted |
| `Gaps.Insert` | src/main/kotlin/com/example/campsite/ReservationService.kt:38 | the insertion step of the `sortedBy`: one element longer; its contents and order are stated by `Gaps.InsertPermutes` and `Gaps.InsertSorts` |
| `Gaps.SortByFrom` | src/main/kotlin/com/example/campsite/ReservationService.kt:38 | the `sortedBy { it.fromDate }`: same length as the input; `Gaps.SortSorts` and `Gaps.SortIsStable` state that it is the stable sorted permutation |
| `Gaps.SortSorts` | src/main/kotlin/com/example/campsite/ReservationService.kt:38 | the result is a permutation of the input, sorted by `fromDate` |
| `Gaps.SortOfSorted` | src/main/kotlin/com/example/campsite/ReservationService.kt:38 | a list already ordered by `fromDate` comes back unchanged |
| `Gaps.SortIsStable` | src/main/kotlin/com/example/campsite/ReservationService.kt:38 | bookings with the same start keep their original relative order |
| `Gaps.SortedEnds` | src/main/kotlin/com/example/campsite/ReservationService.kt:38 | the first sorted booking has the earliest start of the input, the last one the latest |
| `Gaps.Fold` | src/main/kotlin/com/example/campsite/ReservationService.kt:47-60 | the loop only appends blocks, and emits at least one block when there is a booking |
| `Gaps.ComputeAvailability` | src/main/kotlin/com/example/campsite/ReservationService.kt:36-73 | nothing found gives exactly the whole window; the result is never empty and starts at the window start; otherwise the first block ends the day before the earliest booking found |
| `Gaps.StepAdds` | src/main/kotlin/com/example/campsite/ReservationService.kt:48-59 | one pass of the `forEach` body (`Gaps.Step`, both `if`s and the `?:` branch): it only appends, at most two blocks; the first pass adds the block from the window start to the day before the booking; a later pass adds nothing iff the booking starts no later than the day after the last block ends and ends no earlier than the day before that block starts |
| `Gaps.StepTiles` | src/main/kotlin/com/example/campsite/ReservationService.kt:47-58 | one loop pass over a booking that starts no earlier than the last start keeps the blocks contiguous and adds nothing through the second `if` |
| `Gaps.FoldTiles` | src/main/kotlin/com/example/campsite/ReservationService.kt:47-60 | over sorted bookings that start in the window and end no earlier than they start, the loop keeps the blocks contiguous with increasing ends, and the second `if` never fires |
| `Gaps.BehindBranchIsDead` | src/main/kotlin/com/example/campsite/ReservationService.kt:54-57 | for contained bookings with ordered dates, the second `if` never adds a block |
| `Gaps.BehindBranchFiresOnInvertedBooking` | src/main/kotlin/com/example/campsite/ReservationService.kt:54-57 | with a booking that ends before it starts, the second `if` does add a block |
| `Gaps.BodyShape` | src/main/kotlin/com/example/campsite/ReservationService.kt:47-60 | the loop's blocks start at the window start; each later block starts the day after the previous ends; ends strictly increase; each block ends the day before some booking starts; the last ends the day before the latest start |
| `Gaps.LastDayUncovered` | src/main/kotlin/com/example/campsite/ReservationService.kt:68-70 | for contained bookings with ordered dates, none reaching the window end, whose last booking in sorted order ends the day before the window end, no trailing block is added and every block ends before the window end, so the free last day is reported by no block |
| `Gaps.TrailingAfterLastBooking` | src/main/kotlin/com/example/campsite/ReservationService.kt:62-70 | for contained bookings with ordered dates, the trailing block starts the day after the last sorted booking ends, and exists iff that day is strictly before the window end |
| `Gaps.SingleBooking` | src/main/kotlin/com/example/campsite/ReservationService.kt:59-70 | one booking `[a, b]` gives `[(W, a-DAY)]`, followed by a block to the window end when the day after the later of `b` and `a-DAY` is before it |
| `Gaps.SingleBookingExample` | src/test/kotlin/com/example/campsite/ReservationServiceTest.kt:105-131 | window `[w, w+5d]` with booking `[w+2d, w+3d]` gives `[w, w+1d]` and `[w+4d, w+5d]` |
| `Gaps.GapBlockCoversEarlierBooking` | src/main/kotlin/com/example/campsite/ReservationService.kt:50-52 | with two bookings the gap block starts at the first booking's start and covers that booking |
| `Gaps.InvertedFirstBlock` | src/main/kotlin/com/example/campsite/ReservationService.kt:59 | a booking starting less than a day after the window start makes the first block end before it starts |
| `Service.SaveReservation` | src/main/kotlin/com/example/campsite/ReservationService.kt:18-29 | refused with the fixed message, store unchanged, iff the conflict query is non-empty; otherwise the store holds `dto.toEntity(id)` under its id, where the id is the given one if stored and a fresh one otherwise; nothing else changes; the saved booking has no conflict afterwards |
| `Service.GetReservation` | src/main/kotlin/com/example/campsite/ReservationService.kt:31-33 | the row under the id, or null iff it does not exist |
| `Service.DeleteReservation` | src/main/kotlin/com/example/campsite/ReservationService.kt:75-77 | deleting keeps the table invariant |
| `Service.IsExists` | src/main/kotlin/com/example/campsite/ReservationService.kt:79-81 | true iff a booking is stored under the id |
| `Service.DeleteRemoves` | src/main/kotlin/com/example/campsite/ReservationService.kt:75-81 | after a delete the id neither exists nor can be fetched; deleting twice equals deleting once; deleting an absent id changes nothing; other rows are untouched |
| `Service.SecondBookingOfSameDatesRejected` | src/test/kotlin/com/example/campsite/ReservationControllerTest.kt:65-83 | booking the same dates under another email is refused, and the first booking stays |
| `Service.SameEmailNeverConflicts` | src/main/kotlin/com/example/campsite/ReservationService.kt:19-28 | when every row inside the dates has the requester's email, the save succeeds |
| `Service.EmailChangeConflictsWithItself` | src/main/kotlin/com/example/campsite/ReservationService.kt:19-26 | updating a row to a new email with the same dates finds the row itself and is refused |
| `Service.PartialOverlapAccepted` | src/main/kotlin/com/example/campsite/ReservationRepository.kt:17-23 | a booking that overlaps a stored one of another email without containing it is accepted |
| `Service.DatesOf` | src/main/kotlin/com/example/campsite/ReservationService.kt:38 | the `map` to date pairs: one pair per listed row, in the same order, carrying that row's start and end |
| `Service.GetAvailability` | src/main/kotlin/com/example/campsite/ReservationService.kt:36-73 | nothing in the window gives the whole window; otherwise the result starts at the window start, with a first block ending the day before the earliest booking found |
| `Service.ListedDatesProper` | src/main/kotlin/com/example/campsite/ReservationRepository.kt:14-15 | every listed row starts inside the window, and ends no earlier than it starts when the store's rows are ordered |
| `Service.AvailabilityOnOrderedStore` | src/main/kotlin/com/example/campsite/ReservationService.kt:47-70 | on a store of ordered rows: the second `if` never fires; blocks are contiguous from the window start; the trailing block follows the last sorted booking |
| `Service.EmptyStoreWholeWindow` | src/main/kotlin/com/example/campsite/ReservationService.kt:42-45 | an empty store gives one block, the whole window |
| `Service.OneBookingTwoBlocks` | src/test/kotlin/com/example/campsite/ReservationControllerTest.kt:296-329 | one stored booking inside the window, ending over a day before its end, gives two blocks around it |

## Left out

- Concurrency. `@Transactional(REQUIRES_NEW)` and `@Lock(PESSIMISTIC_WRITE)`
  exist for concurrent writers. Calls here are sequential, so the property
  "N concurrent creates for one window give one success" is not modelled.
- The HTTP controller: routing, status codes, and the error map built from
  field errors. Also its default window `[now+1d, now+31d]` and its
  exists-then-save guard on update, which are one-line wiring.
- The echo of the rejected value next to each validation message. Only the
  reported message and field are modelled.
- The class-level default violation that Bean Validation also records. A null
  DTO is reported as `Invalid(DefaultMessage, Bean)`.
- The clock. `Instant.now()` is the parameter `now`.
- The finite range of `Instant`. Integers here are unbounded, so the
  `DateTimeException` on overflow is not modelled.
- The Java regex engine. The one pattern used is hand-coded and proved equal
  to its reading as a language.
- Repository.DeleteById: deleting an absent id is a no-op, as the controller
  test at src/test/kotlin/com/example/campsite/ReservationControllerTest.kt:333
  expects. Spring Data JPA 2.x, which the Spring Boot 2.7.0 build pins, throws
  `EmptyResultDataAccessException` in that case; the exception is not
  modelled.
- JPA and Hibernate internals. The identity column is a counter. Saving a row
  whose id is not stored inserts it under a fresh id. The order of query rows
  is a parameter.
- Storage failures. No storage error is modelled.
- Application bootstrap, the JSON mapper, the build file, and the wrapper
  DTOs `CreateReservationDto` and `AvalabilityRange`. None of them holds logic.
