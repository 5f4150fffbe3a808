# Appointment conflict detector — a Dafny model

This project models the conflict detector of a small booking tool. A business
defines services, each with a duration and a buffer. The buffer is idle time
needed after the service ends. Customers book appointments. Before a booking
is stored, the tool asks whether its time span overlaps an existing
appointment. The repository holds two versions of that check side by side,
and both are modelled as separate members:

- the **buffered checker** (`src/lib/conflictChecker.ts`, module
  `BufferedChecker`). It extends the new appointment's end by its service's
  buffer and each existing appointment's end by its own service's buffer. It
  skips an appointment with the new one's id, and it skips an appointment
  whose service is not in the catalog. It is a `for` loop with `continue`s and
  an early `return true`, so it is modelled as a method with a loop. The method
  is proved equal to the existential specification `HasConflict`.
- the **unbuffered checker** (`src/lib/utils/conflictChecker.ts`, module
  `UnbufferedChecker`). It returns `false` for an empty or inverted new
  interval. Otherwise it asks `some` over the stored appointments whether the
  raw times overlap, skipping the one whose id equals a non-empty `excludeId`.
  It is pure, so it is modelled as functions.

`Types` holds the `Service` and `Appointment` records of `src/lib/types.ts`.
Instants are integer milliseconds since the epoch, as `Date.getTime()` gives
them. Adding minutes adds `minutes * 60000`. `Bridge` proves when the two
checkers agree and shows one input on which they do not.

Choices the code makes that a different design of the same check could
make otherwise:
- An existing appointment whose service is missing from the catalog is
  skipped by the buffered checker. A checker that treated it as buffer 0
  would report conflicts that this one does not;
  `BufferedChecker.MissingServiceIsNotBufferZero` shows the difference.
- Only the unbuffered checker rejects an empty or inverted new interval. The
  buffered checker has no such guard, and `Bridge.DisagreeOnEmptyInterval`
  shows it reporting a conflict for a zero-length booking.
- The buffered checker does not look up the new appointment's service in the
  catalog. It takes that service as a separate parameter,
  `newServiceDetails`.
- Appointments carry no business id; `src/lib/types.ts` has none.

## Model

| member | source | states |
|---|---|---|
| BufferedChecker.FindService | src/lib/conflictChecker.ts:37 | `find` yields None exactly when no service carries the id; otherwise it yields a service with that id, and no service before it in the catalog has that id |
| BufferedChecker.IntervalsOverlapping | src/lib/conflictChecker.ts:59 | the strict overlap test: for two non-empty spans it holds exactly when some instant lies in both half-open spans, so touching spans do not overlap |
| BufferedChecker.Blocks | src/lib/conflictChecker.ts:33-63 | the loop body: an appointment blocks the new one only if its id differs and some catalog service carries its serviceId |
| BufferedChecker.CheckConflict | src/lib/conflictChecker.ts:15-67 | the scan with self-skip, missing-service skip and early return yields true exactly when some existing appointment blocks the new one (the full existential), and false on an empty list; its inputs are values and it changes nothing |
| BufferedChecker.BlocksCharacterized | src/lib/conflictChecker.ts:32-63 | one appointment blocks the new one iff its id differs, some service is the first with its serviceId, and each start lies before the other's end plus that side's buffer |
| BufferedChecker.FirstServiceWins | src/lib/conflictChecker.ts:37 | when several services share an id, the first one in the catalog supplies the buffer |
| BufferedChecker.InsertNonBlocking | src/lib/conflictChecker.ts:32-63 | inserting an appointment that does not block, at any position, leaves the verdict unchanged |
| BufferedChecker.SameIdNeverConflicts | src/lib/conflictChecker.ts:33-34 | an existing appointment with the new one's id never conflicts, whatever its times, and inserting it anywhere changes nothing |
| BufferedChecker.MissingServiceSkipped | src/lib/conflictChecker.ts:37-43 | an existing appointment whose serviceId matches no service never conflicts, and inserting it anywhere changes nothing |
| BufferedChecker.MissingServiceIsNotBufferZero | src/lib/conflictChecker.ts:37-43 | for every orphan with a different id whose raw start and end overlap the new blocked interval: it is no conflict, but it is one once a buffer-0 service with its serviceId is appended to the catalog |
| BufferedChecker.BackToBackAllowed | src/lib/conflictChecker.ts:57-59 | starting exactly at an existing blocked end, or ending one's blocked interval exactly at an existing start, is not a conflict |
| BufferedChecker.BufferedEndsDecide | src/lib/conflictChecker.ts:23-55 | for distinct ids and a found service, a one-appointment list conflicts iff new start < existing end + its buffer and existing start < new end + the new buffer |
| BufferedChecker.BufferExample | src/lib/conflictChecker.ts:46-63 | an existing 10:00-11:00 booking with a 15-minute buffer conflicts with a new 11:10-11:30 booking |
| BufferedChecker.CatalogScenario | src/lib/conflictChecker.ts:22-63 | catalog S1 with buffer 10, existing 09:00-10:00, new 10:05-10:30 of S1: a conflict |
| BufferedChecker.OrderIrrelevant | src/lib/conflictChecker.ts:32-66 | any rearrangement of the existing appointments (same multiset) gives the same verdict |
| BufferedChecker.BlocksSymmetric | src/lib/conflictChecker.ts:59 | for two appointments whose services are found, A conflicts with [B] iff B conflicts with [A] |
| UnbufferedChecker.Excluded | src/lib/utils/conflictChecker.ts:33 | an absent or empty excludeId excludes nothing, and only the appointment whose id equals excludeId is ever excluded |
| UnbufferedChecker.Conflicting | src/lib/utils/conflictChecker.ts:32-44 | the `some` callback: never true for an excluded appointment, and for non-empty intervals true exactly when the new and stored spans share an instant |
| UnbufferedChecker.AnyConflicting | src/lib/utils/conflictChecker.ts:31-45 | `some` over the store is true iff some element satisfies the callback |
| UnbufferedChecker.CheckConflict | src/lib/utils/conflictChecker.ts:15-46 | false when newStart >= newEnd or the store is empty; otherwise true iff some stored appointment, not excluded, has newStart < its end and newEnd > its start |
| UnbufferedChecker.ExcludedNeverConflicts | src/lib/utils/conflictChecker.ts:32-35 | the appointment whose id equals a non-empty excludeId never conflicts, and inserting it anywhere changes nothing |
| UnbufferedChecker.EmptyExcludeIdExcludesNothing | src/lib/utils/conflictChecker.ts:33 | an empty excludeId acts as an absent one, and with none every stored appointment takes part in the check |
| UnbufferedChecker.AdjacentDoesNotConflict | src/lib/utils/conflictChecker.ts:40-42 | a new interval ending at a stored start, or starting at a stored end, does not conflict with it |
| UnbufferedChecker.OverlapSymmetric | src/lib/utils/conflictChecker.ts:42 | for two valid intervals A and B, A checked against [B] agrees with B checked against [A] |
| UnbufferedChecker.OnlyRawTimesMatter | src/lib/utils/conflictChecker.ts:37-42 | no buffer is applied: snapshots that agree on ids and raw start and end times give the same verdict, whatever their services |
| Bridge.CheckersAgree | src/lib/utils/conflictChecker.ts:24-45 | with every buffer 0, every existing service found, a non-empty new interval and excludeId equal to the new appointment's non-empty id, the buffered specification and the unbuffered checker give the same verdict |
| Bridge.DisagreeOnEmptyInterval | src/lib/conflictChecker.ts:22-29 | the buffered checker has no empty-interval guard: a zero-length booking with a buffer can conflict there while the unbuffered checker says false |

## Left out

- `src/lib/store.ts` (local-storage persistence and the reactive appointment
  and service stores) is not part of this model. The store read at
  `src/lib/utils/conflictChecker.ts:20` is the `existingAppointments`
  parameter of `UnbufferedChecker.CheckConflict`. Passing a value models
  that the snapshot is only read.
- `src/lib/utils.ts` only declares type aliases and a constant drop-down
  list. It has no behaviour and is not part of this model.
- Timestamp parsing (`parseISO`, `new Date(...).getTime()`) is a library call.
  Instants are integers, and an unparseable timestamp is not modelled. In the
  unbuffered checker it becomes `NaN`, for which every comparison is false; in
  the buffered checker it makes `areIntervalsOverlapping` throw in some
  library versions (see the OrderIrrelevant line below).
- `areIntervalsOverlapping` is modelled as the strict test
  `a.start < b.end && b.start < a.end`. Depending on the library version, the
  real function throws or reorders the ends when an interval is inverted. That
  case (a negative buffer, or an end before a start) is not modelled.
- `addMinutes` is modelled for whole minutes. Fractional buffer minutes are
  not modelled, so `bufferMinutes` is an integer.
- `price` and `durationMinutes` are JavaScript numbers. They are integers here;
  neither checker reads them.
- The `console.warn` diagnostic for a missing service
  (`src/lib/conflictChecker.ts:41`) is output only. The model skips the
  appointment and emits nothing.
- `parseISO` (buffered checker) and `new Date(...).getTime()` (unbuffered
  checker) are different parsers. They disagree on date-only strings, which
  one reads as local midnight and the other as UTC midnight, and on non-ISO
  strings that `Date` accepts and `parseISO` rejects. The model gives every
  timestamp one integer value.
- Bridge.CheckersAgree: assumes both checkers read the same stored timestamp
  as the same instant, which holds for full ISO 8601 timestamps with a zone
  but not for the strings on which the two parsers differ.
- A JavaScript `Date` holds only instants within 8.64e15 ms of the epoch. A
  buffer that pushes an end past that gives an Invalid Date. Instants here
  are unbounded integers, so that case is not modelled.
- BufferedChecker.OrderIrrelevant: holds because the `RangeError` that some versions of
  `areIntervalsOverlapping` throw for a NaN or inverted interval is not
  modelled. In the source, such an appointment throws only if the scan
  reaches it before an earlier overlap returns true, so with a throw the
  outcome depends on the order of the list.
