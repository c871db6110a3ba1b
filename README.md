# Reservation decision logic of a sports-venue booking backend

This project models the logic that sits between the HTTP endpoints of the
backend and its database. That logic books courts, searches a court's schedule
for an available date, and manages a reservation's lifecycle: join by
invitation code, edit, cancel, delete, leave, reject an invitation, and list
members. The database is held in memory as a `Database` object (module `Store`):

- the court table (`seq<Court>`, rows in table order);
- the venue table and the set of venues that have business hours;
- the reservation table, a map from reservation id to its row;
- the member table, a map from (reservation id, account id) to its row;
- the reservation id sequence.

`Database.Valid()` holds the table constraints the handlers rely on. Every
row is stored under its own key, and reservation ids lie below the sequence.
Invitation codes are unique. Every member row belongs to an existing
reservation (the member table's foreign key). Every handler preserves it.

Each endpoint that changes the database is a method that runs its checks in
the source's order; the read endpoints (`ReadReservation`, `ReadByCode`,
`BrowseReservationMembers`) are functions of the database. Each contract names the exact condition for each error (`NotFound`,
`NoPermission`, `IllegalInput`, `CourtReserved`, `ReservationFull`) and the
exact new state of the tables it may modify. A failed check changes nothing.

The following are explicit parameters:

- the caller's account id;
- the request time (`now`) and today's date;
- the generated invitation code.

Times are integer seconds, and a date is `t / 86400`. The reservation query
`db.reservation.browse` is not part of this model. It is an arbitrary function
`ReservationQuery` from a filter to a sequence of reservations, and
`Store.Conflicts` applies it to one court and one time range. The source reads
that query's result in two ways: reservation.py unpacks it as a
(list, count) pair, while court.py uses it as a sequence. The model uses the
sequence reading throughout.

Modules: `Base` (records, enums, errors), `CourtTable` (the persistence court
table), `Store` (the database object), `ReservationHandlers` (the reservation
endpoints) and `CourtHandlers` (the court endpoints).

Three behaviours of the code are worth stating up front:

- A booking (court.py:106-141) inserts only the reservation row; no manager
  member row is created for the booker.
- Joining a reservation one is already a member of inserts the member row
  again (reservation.py:100-110, with no prior membership check), which
  violates the member table's primary key (`IntegrityError`). It is not an
  idempotent success.
- The availability search and the edit's conflict check behave as listed
  under Findings.

## Model

| member | source | states |
|---|---|---|
| `CourtTable.Read` | app/persistence/database/court.py:11-23 | returns a court with the requested id that passes the published filter; NotFound exactly when no row with that id passes it (an unpublished court is hidden unless `include_unpublished`) |
| `CourtTable.Browse` | app/persistence/database/court.py:26-43 | every row of the venue that passes the published filter is listed exactly as often as it occurs in the table, and no other row is listed |
| `Store.Database.EditCourt` | app/persistence/database/court.py:46-65 | with no field given the table is unchanged (early return); otherwise only the `is_published` of rows with that id changes, same length, every other field and every other court unchanged |
| `CourtTable.ReadAfterPublish` | app/persistence/database/court.py:60-65 | after setting the flag, the unfiltered read returns the same court with the new flag, and the default filtered read succeeds iff the new flag is true and the court exists |
| `CourtTable.PublishLeavesOtherCourts` | app/persistence/database/court.py:60-65 | editing one court's flag changes no read of any other court id |
| `Store.FindVenue` | app/processor/http/court.py:127 | returns a venue with the requested id; NotFound exactly when there is none |
| `ReservationHandlers.ReadByCode` | app/processor/http/reservation.py:86-89 | returns the reservation holding the invitation code; NotFound exactly when no reservation holds it |
| `ReservationHandlers.ReadReservation` | app/processor/http/reservation.py:74-83 | NotFound iff the id is absent; otherwise the stored row together with exactly the member rows of that reservation |
| `ReservationHandlers.BrowseReservationMembers` | app/processor/http/reservation.py:256-264 | NotFound for an absent reservation; an error iff vacancy is -1 and no member row of the reservation has the caller's account id, and that error is NoPermission; so a public reservation's member list is shown to anyone and a private one's to its members, and the list is exactly the reservation's member rows |
| `ReservationHandlers.JoinReservation` | app/processor/http/reservation.py:92-117 | NotFound for an unknown code; ReservationFull iff vacancy <= 0 (so a private reservation cannot be joined); IntegrityError, adding nothing, when the caller already has a row for that reservation; otherwise adds exactly one row (caller, not manager, joined, invitation code); the reservation table, vacancy included, is never changed |
| `ReservationHandlers.DeleteReservation` | app/processor/http/reservation.py:120-131 | NoPermission when the caller has no member row or is not a manager; otherwise the reservation and all its member rows are removed and a later read is NotFound |
| `ReservationHandlers.EffectiveCourtId` | app/processor/http/reservation.py:155 | a given non-zero court id is the edit's target; an absent or 0 court id keeps the stored court |
| `ReservationHandlers.EditReservation` | app/processor/http/reservation.py:143-186 | NoPermission first; NotFound for a missing reservation, an unknown or unpublished court, or a missing venue; IllegalInput iff the effective start is before the request time or not before the effective end; CourtReserved iff the conflict answer is non-empty and lacks the stored row; otherwise the row gets the effective court, venue, stadium and times, and only the given optional fields |
| `ReservationHandlers.CancelReservation` | app/processor/http/reservation.py:202-216 | NotFound for a non-member, NoPermission for a non-manager member; otherwise the reservation row exists (the member table's foreign key) and only its cancelled flag changes |
| `ReservationHandlers.LeaveReservation` | app/processor/http/reservation.py:219-237 | NotFound for a non-member; with more than one member row only the caller's row is removed; otherwise the reservation and its member rows are deleted, whatever the caller's role or status |
| `ReservationHandlers.LeaveKeepsOtherMembers` | app/processor/http/reservation.py:228-233 | with more than one row, leaving removes exactly the caller's row from the reservation's members, at least one member remains, and every other row is unchanged |
| `ReservationHandlers.LastLeaveRemovesOnlyCaller` | app/processor/http/reservation.py:228-235 | when the caller's row is the reservation's only row, it is the only member and the cascading delete removes exactly that row |
| `ReservationHandlers.RejectInvitation` | app/processor/http/reservation.py:240-253 | NotFound without a member row; NoPermission if the caller is a manager, not invited, or did not come by invitation code; otherwise only that row's status becomes rejected |
| `ReservationHandlers.RejectTwice` | app/processor/http/reservation.py:244-251 | after a successful reject the row is rejected and a second reject fails with NoPermission |
| `ReservationHandlers.ConflictsWithOtherIsExact` | app/processor/http/reservation.py:163-174 | against an overlap query, the corrected check `ConflictsWithOther` passes iff no other live reservation of the court overlaps the new range, so under the corrected check the reservation's own slot never conflicts with itself (a definitional statement) |
| `ReservationHandlers.EditBlockedOnlyForOther` | app/processor/http/reservation.py:173-174 | against an overlap query over a well-keyed table, whenever the check as written refuses an edit, the answer holds a reservation other than the edited one: the check as written refuses only when the corrected one does |
| `ReservationHandlers.EditAcceptsOverlapWithOther` | app/processor/http/reservation.py:173-174 | an edit whose conflict answer holds the edited reservation and another overlapping one is let through as written, although the corrected check refuses it |
| `CourtHandlers.AddReservation` | app/processor/http/court.py:106-141 | NoPermission when the caller is not among the member ids, before anything else; then CourtReserved when the conflict query reports anything; then IllegalInput iff start < now or start >= end; then NotFound for an unknown or unpublished court or a missing venue; then IntegrityError, inserting nothing, when the invitation code is already used; otherwise exactly one row is inserted under the next id, with the given fields, the venue and the venue's stadium, and a vacancy of -1 (private) when the request leaves it out, and that id is returned; the member table is unchanged |
| `CourtHandlers.DirectDate` | app/processor/http/court.py:47-48 | a given start date is used as is; without one, a date is shown iff there are no time ranges, and that date is today |
| `CourtHandlers.BrowseReservationByCourt` | app/processor/http/court.py:31-88 | NotFound for an unknown or unpublished court, then for a venue without business hours, before any reservation query; with a direct date it returns that date's reservations; otherwise the search loop (flag never reset) yields the first range's date iff no reservation with vacancy 0 covers that range, and NotFound in every other case |
| `CourtHandlers.FirstFreeIndex` | app/processor/http/court.py:66-74 | every range before the index is blocked, and the range at the index (if any) is not |
| `CourtHandlers.FirstFreeDate` | app/processor/http/court.py:63-77 | nothing iff every range is blocked; otherwise the date of a free range all of whose predecessors are blocked |
| `CourtHandlers.FindFirstAvailableDate` | app/processor/http/court.py:63-77 | the search loop with its flag reset for each range returns exactly the first free range's date |
| `CourtHandlers.AsWrittenDateIsFirstFree` | app/processor/http/court.py:63-74 | whenever the search as written finds a date, it is the first free range's date (a definitional statement) |
| `CourtHandlers.SearchSkipsFreeSecondRange` | app/processor/http/court.py:64-74 | with the first range blocked and the second free, the search as written finds nothing while the intended search yields the second range's date |

## Findings

| source | as written | input that shows it | evidently intended | confidence | as-written member | corrected member |
|---|---|---|---|---|---|---|
| app/processor/http/court.py:64-74 | `is_available` is set to true once, before the loop, and never reset, so once one range is blocked no later range can be chosen | two ranges on days 10 and 11, one reservation with vacancy 0 covering the whole first range: the endpoint answers NotFound | the date of the first range that no full reservation covers (day 11) | high; not executed | `CourtHandlers.SearchSkipsFreeSecondRange` | `CourtHandlers.FindFirstAvailableDate` |
| app/processor/http/reservation.py:173-174 | the edit is refused only if the conflict answer does not contain the edited reservation, so any other conflict is ignored whenever the reservation itself is in the answer | reservation 1 on 10:00-11:00 and reservation 2 on 11:00-12:00 of the same court; moving 1 to 10:00-12:00 returns both from an overlap query and the edit succeeds | refuse when any reservation other than the edited one conflicts | medium (depends on the unseen query returning the edited row); not executed | `ReservationHandlers.EditAcceptsOverlapWithOther` | `ReservationHandlers.ConflictsWithOtherIsExact` |

The endpoints keep the behaviour of the code. `BrowseReservationByCourt` runs
the search as written, and `EditReservation` runs the check as written. For
the search, the corrected loop `FindFirstAvailableDate` is proved equal to
`FirstFreeDate` through its loop invariants. For the edit, `ConflictsWithOther`
is the corrected check; `ConflictsWithOtherIsExact` only unfolds its
definition against an overlap query, and `EditBlockedOnlyForOther` shows that
every refusal of the check as written is also a refusal of the corrected one,
so the two differ only on edits the code lets through.

## Left out

- The reservation query `db.reservation.browse` is an arbitrary function. Its overlap and cancelled filtering, pagination, sorting and total count are not modelled.
- Because that query is arbitrary, properties that depend on it are not stated, such as "two overlapping bookings cannot both succeed". `IsConflictSet` gives one overlap reading, used only by the findings.
- `browse_reservation` (reservation.py:43-67) only forwards its filters to that query, so it is not modelled.
- Google Calendar side effects are external calls and are not modelled. These are the member addition after a join and the event update after an edit of a Google-login manager, including the location string.
- The Google OAuth login, GCS URL signing, JWT and password hashing are external libraries and I/O, and are not modelled.
- Startup and shutdown of connection pools are not modelled.
- Concurrency is not modelled. The race between two bookers checking and then inserting has no locking in the code.
- `datetime.now()`, the request time, the authenticated account and the random invitation code generator are parameters.
- `ReadReservation`: returns the member rows as a set. The `ORDER BY is_manager, account_id` of the member listing is not modelled.
- `ReadReservation`: the nickname taken from the account table is not modelled. Every member row is assumed to have its account.
- `BrowseReservationMembers`: returns the member rows as a set, for the same reasons as `ReadReservation` (no ordering, no nicknames).
- `DeleteReservation`: deleting a reservation also deletes its member rows. The delete query is not part of this model, so this cascade is assumed.
- `LeaveReservation`: the last-member delete assumes the same cascade.
- `LeaveReservation`: the member leave query `db.reservation_member.leave` is not part of this model. It is assumed to delete exactly the caller's row of that reservation.
- `EditReservation`: an absent vacancy, technical level list or remark keeps the stored value. This assumes the partial-update helper skips `None` fields.
- `CancelReservation`: the cancel update is assumed to set only the cancelled flag.
- `JoinReservation`: the member batch-add query is not part of this model. It is assumed to insert plainly, so an existing (reservation, account) key is reported as `IntegrityError`.
- `AddReservation`: the invitation code is assumed to be unique in the reservation table, and a duplicate is reported as `IntegrityError`.
- The SQL text itself is not modelled, only the row-filter semantics of each query.
