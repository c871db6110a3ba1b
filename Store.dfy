/**
 * The database the handlers talk to, held in memory: the court, venue and
 * business-hour tables, the reservation table keyed by reservation id, and the
 * member table keyed by (reservation id, account id). The reservation query
 * whose internals are not part of this model is passed to the handlers as an
 * arbitrary function from its filter to the rows it returns.
 */
module Store {
  import opened Base
  import CourtTable

  type MemberKey = (int, int)

  /** The filter of the unseen reservation query `db.reservation.browse`. */
  datatype ReservationFilter = ReservationFilter(
    courtId: int,
    timeRanges: Option<seq<TimeRange>>,
    startDate: Option<int>)

  type ReservationQuery = ReservationFilter -> seq<Reservation>

  /** The reservations the query reports for one court and one time range. */
  function Conflicts(browse: ReservationQuery, courtId: int, startTime: int, endTime: int): seq<Reservation> {
    browse(ReservationFilter(courtId, Some([TimeRange(startTime, endTime)]), None))
  }

  /** `db.venue.read`: the venue with the given id, else NotFound. */
  function FindVenue(rows: seq<Venue>, venueId: int): (r: Result<Venue>)
    ensures r.Ok? ==> r.value in rows && r.value.id == venueId
    ensures r.Err? ==> r.error == NotFound
    ensures r.Err? <==> forall v :: v in rows ==> v.id != venueId
  {
    if |rows| == 0 then Err(NotFound)
    else if rows[0].id == venueId then Ok(rows[0])
    else FindVenue(rows[1..], venueId)
  }

  /** The member rows of one reservation. */
  function MembersOf(members: map<MemberKey, Member>, rid: int): set<Member> {
    set m | m in members.Values && m.reservationId == rid
  }

  predicate IsMember(members: map<MemberKey, Member>, rid: int, accountId: int) {
    (rid, accountId) in members
  }

  predicate IsManager(members: map<MemberKey, Member>, rid: int, accountId: int) {
    (rid, accountId) in members && members[(rid, accountId)].isManager
  }

  /** The member table after its reservation is deleted (cascading delete). */
  function WithoutReservationMembers(members: map<MemberKey, Member>, rid: int): map<MemberKey, Member> {
    map k | k in members && k.0 != rid :: members[k]
  }

  /** Each member row is stored under its own primary key. */
  ghost predicate MembersWellKeyed(members: map<MemberKey, Member>) {
    forall k :: k in members ==> members[k].Key() == k
  }

  /** Each reservation row is stored under its own id, issued before `nextId`. */
  ghost predicate ReservationsWellKeyed(reservations: map<int, Reservation>, nextId: int) {
    forall id :: id in reservations ==> reservations[id].id == id && id < nextId
  }

  /** The foreign key of the member table: every member row's reservation exists. */
  ghost predicate MembersBelongToReservations(members: map<MemberKey, Member>, reservations: map<int, Reservation>) {
    forall k :: k in members ==> k.0 in reservations
  }

  /** The unique constraint on invitation codes. */
  ghost predicate CodesUnique(reservations: map<int, Reservation>) {
    forall a, b ::
      a in reservations && b in reservations && reservations[a].invitationCode == reservations[b].invitationCode
      ==> a == b
  }

  class Database {
    var courts: seq<Court>
    var venues: seq<Venue>
    /** ids of the venues that have at least one business-hour row */
    var venuesWithHours: set<int>
    var reservations: map<int, Reservation>
    var members: map<MemberKey, Member>
    /** the next value of the reservation id sequence */
    var nextId: int

    ghost predicate Valid()
      reads this
    {
      && ReservationsWellKeyed(reservations, nextId)
      && CodesUnique(reservations)
      && MembersWellKeyed(members)
      && MembersBelongToReservations(members, reservations)
    }

    constructor (courts: seq<Court>, venues: seq<Venue>, venuesWithHours: set<int>)
      ensures Valid()
      ensures this.courts == courts && this.venues == venues && this.venuesWithHours == venuesWithHours
      ensures reservations == map[] && members == map[] && nextId == 1
    {
      this.courts := courts;
      this.venues := venues;
      this.venuesWithHours := venuesWithHours;
      reservations := map[];
      members := map[];
      nextId := 1;
    }

    /**
     * `db.court.edit`: with no field given nothing is written; otherwise the
     * published flag of the rows with that id is set and nothing else changes.
     */
    method EditCourt(courtId: int, isPublished: Option<bool>)
      requires Valid()
      modifies this`courts
      ensures Valid()
      ensures isPublished.None? ==> courts == old(courts)
      ensures isPublished.Some? ==> courts == CourtTable.WithPublished(old(courts), courtId, isPublished.value)
      ensures |courts| == |old(courts)|
      ensures forall i :: 0 <= i < |courts| ==> courts[i].(isPublished := old(courts)[i].isPublished) == old(courts)[i]
      ensures forall i :: 0 <= i < |courts| && old(courts)[i].id != courtId ==> courts[i] == old(courts)[i]
    {
      if isPublished.None? {
        return;
      }
      courts := CourtTable.WithPublished(courts, courtId, isPublished.value);
    }
  }
}
