/**
 * The reservation endpoints (app/processor/http/reservation.py) as transitions
 * of the in-memory database. The authenticated caller's account id and the
 * request time are parameters. Each handler runs its checks in the order the
 * endpoint does and changes nothing when one of them fails.
 */
module ReservationHandlers {
  import opened Base
  import opened Store
  import CourtTable

  /** `read_reservation_by_invitation_code`: the reservation holding the code, else NotFound. */
  function ReadByCode(reservations: map<int, Reservation>, code: string): (r: Result<Reservation>)
    requires CodesUnique(reservations)
    ensures r.Ok? ==> r.value in reservations.Values && r.value.invitationCode == code
    ensures r.Err? ==> r.error == NotFound
    ensures r.Err? <==> forall id :: id in reservations ==> reservations[id].invitationCode != code
  {
    if exists id :: id in reservations && reservations[id].invitationCode == code then
      var id :| id in reservations && reservations[id].invitationCode == code;
      Ok(reservations[id])
    else
      Err(NotFound)
  }

  /** `read_reservation`: the reservation and all its members, else NotFound. */
  function ReadReservation(db: Database, rid: int): (r: Result<(Reservation, set<Member>)>)
    reads db
    ensures r.Err? <==> rid !in db.reservations
    ensures r.Err? ==> r.error == NotFound
    ensures r.Ok? ==> r.value.0 == db.reservations[rid]
    ensures r.Ok? ==> forall m :: m in r.value.1 <==> m in db.members.Values && m.reservationId == rid
  {
    if rid !in db.reservations then Err(NotFound)
    else Ok((db.reservations[rid], MembersOf(db.members, rid)))
  }

  /**
   * `browse_reservation_members`: the member list, refused to a caller who is
   * not a member of a private reservation.
   */
  function BrowseReservationMembers(db: Database, rid: int, caller: int): (r: Result<set<Member>>)
    reads db
    ensures rid !in db.reservations ==> r == Err(NotFound)
    ensures rid in db.reservations ==>
      (r.Err?
       <==> db.reservations[rid].vacancy == PrivateVacancy
            && forall m :: m in db.members.Values && m.reservationId == rid ==> m.accountId != caller)
    ensures rid in db.reservations && r.Err? ==> r.error == NoPermission
    ensures r.Ok? ==> forall m :: m in r.value <==> m in db.members.Values && m.reservationId == rid
  {
    if rid !in db.reservations then Err(NotFound)
    else
      var members := MembersOf(db.members, rid);
      if db.reservations[rid].vacancy == PrivateVacancy && caller !in (set m | m in members :: m.accountId)
      then Err(NoPermission)
      else Ok(members)
  }

  /** The row a join by invitation code inserts. */
  function JoinedMember(rid: int, caller: int): Member {
    Member(rid, caller, false, Joined, InvitationCode)
  }

  /**
   * `join_reservation`: the caller joins the reservation holding the code. A
   * reservation whose vacancy is not positive (in particular a private one)
   * cannot be joined; the vacancy itself is not changed. Inserting a row the
   * member table already holds violates its primary key.
   */
  method JoinReservation(db: Database, caller: int, code: string) returns (r: Outcome)
    requires db.Valid()
    modifies db`members
    ensures db.Valid()
    ensures ReadByCode(db.reservations, code).Err? ==> r == Failed(NotFound)
    ensures ReadByCode(db.reservations, code).Ok? ==>
      var res := ReadByCode(db.reservations, code).value;
      && (res.vacancy <= 0 ==> r == Failed(ReservationFull))
      && (res.vacancy > 0 && IsMember(old(db.members), res.id, caller) ==> r == Failed(IntegrityError))
      && (res.vacancy > 0 && !IsMember(old(db.members), res.id, caller) ==>
            r == Done && db.members == old(db.members)[(res.id, caller) := JoinedMember(res.id, caller)])
    ensures r.Failed? ==> db.members == old(db.members)
  {
    var found := ReadByCode(db.reservations, code);
    if found.Err? {
      return Failed(found.error);
    }
    var reservation := found.value;
    if reservation.vacancy <= 0 {
      return Failed(ReservationFull);
    }
    if (reservation.id, caller) in db.members {
      return Failed(IntegrityError);
    }
    db.members := db.members[(reservation.id, caller) := JoinedMember(reservation.id, caller)];
    r := Done;
  }

  /**
   * `delete_reservation`: only a manager of the reservation may delete it; the
   * reservation and all its member rows are removed.
   */
  method DeleteReservation(db: Database, caller: int, rid: int) returns (r: Outcome)
    requires db.Valid()
    modifies db`reservations, db`members
    ensures db.Valid()
    ensures !IsManager(old(db.members), rid, caller) ==>
      r == Failed(NoPermission) && db.reservations == old(db.reservations) && db.members == old(db.members)
    ensures IsManager(old(db.members), rid, caller) ==>
      && r == Done
      && db.reservations == old(db.reservations) - {rid}
      && db.members == WithoutReservationMembers(old(db.members), rid)
    ensures r.Done? ==> ReadReservation(db, rid) == Err(NotFound)
  {
    if !IsManager(db.members, rid, caller) {
      return Failed(NoPermission);
    }
    db.reservations := db.reservations - {rid};
    db.members := WithoutReservationMembers(db.members, rid);
    r := Done;
  }

  /** The fields of a reservation edit; an absent field keeps the stored value. */
  datatype EditInput = EditInput(
    courtId: Option<int>,
    startTime: Option<int>,
    endTime: Option<int>,
    vacancy: Option<int>,
    technicalLevels: Option<seq<TechnicalLevel>>,
    remark: Option<string>)

  /** `data.court_id or reservation.court_id`: an absent or zero id keeps the stored court. */
  function EffectiveCourtId(data: EditInput, stored: int): (c: int)
    ensures c == stored || (data.courtId == Some(c) && c != 0)
    ensures data.courtId.None? || data.courtId == Some(0) ==> c == stored
    ensures data.courtId.Some? && data.courtId.value != 0 ==> c == data.courtId.value
  {
    if data.courtId.Some? && data.courtId.value != 0 then data.courtId.value else stored
  }

  /**
   * The check the edit runs on the conflict query's answer: it refuses only
   * when the answer is non-empty and does not contain the edited reservation
   * as it was read.
   */
  predicate EditBlocked(conflicts: seq<Reservation>, current: Reservation) {
    |conflicts| >= 1 && current !in conflicts
  }

  /** The row after a successful edit (a partial update of the stored row). */
  function Edited(res: Reservation, court: Court, venue: Venue, startTime: int, endTime: int, data: EditInput): Reservation {
    res.(courtId := court.id, venueId := venue.id, stadiumId := venue.stadiumId,
         startTime := startTime, endTime := endTime,
         vacancy := data.vacancy.GetOr(res.vacancy),
         technicalLevels := data.technicalLevels.GetOr(res.technicalLevels),
         remark := if data.remark.Some? then data.remark else res.remark)
  }

  /**
   * `edit_reservation`: a manager moves or amends the reservation. Checks, in
   * order: manager permission, the reservation, the (published) court and its
   * venue, the effective time range against the request time, and the
   * conflict query for the effective court and range.
   */
  method EditReservation(db: Database, browse: ReservationQuery, caller: int, now: int, rid: int, data: EditInput)
    returns (r: Outcome)
    requires db.Valid()
    modifies db`reservations
    ensures db.Valid()
    ensures r.Failed? ==> db.reservations == old(db.reservations)
    ensures !IsManager(db.members, rid, caller) ==> r == Failed(NoPermission)
    ensures IsManager(db.members, rid, caller) && rid !in old(db.reservations) ==> r == Failed(NotFound)
    ensures IsManager(db.members, rid, caller) && rid in old(db.reservations) ==>
      var res := old(db.reservations)[rid];
      var court := CourtTable.Read(db.courts, EffectiveCourtId(data, res.courtId), false);
      && (court.Err? ==> r == Failed(NotFound))
      && (court.Ok? && FindVenue(db.venues, court.value.venueId).Err? ==> r == Failed(NotFound))
      && (court.Ok? && FindVenue(db.venues, court.value.venueId).Ok? ==>
            var venue := FindVenue(db.venues, court.value.venueId).value;
            var s := data.startTime.GetOr(res.startTime);
            var e := data.endTime.GetOr(res.endTime);
            && (s < now || s >= e ==> r == Failed(IllegalInput))
            && (!(s < now || s >= e) && EditBlocked(Conflicts(browse, court.value.id, s, e), res) ==>
                  r == Failed(CourtReserved))
            && (!(s < now || s >= e) && !EditBlocked(Conflicts(browse, court.value.id, s, e), res) ==>
                  r == Done && db.reservations == old(db.reservations)[rid := Edited(res, court.value, venue, s, e, data)]))
  {
    if !IsManager(db.members, rid, caller) {
      return Failed(NoPermission);
    }
    if rid !in db.reservations {
      return Failed(NotFound);
    }
    var reservation := db.reservations[rid];
    var court := CourtTable.Read(db.courts, EffectiveCourtId(data, reservation.courtId), false);
    if court.Err? {
      return Failed(court.error);
    }
    var venue := FindVenue(db.venues, court.value.venueId);
    if venue.Err? {
      return Failed(venue.error);
    }
    var startTime := data.startTime.GetOr(reservation.startTime);
    var endTime := data.endTime.GetOr(reservation.endTime);
    if startTime < now || startTime >= endTime {
      return Failed(IllegalInput);
    }
    var reservations := Conflicts(browse, court.value.id, startTime, endTime);
    if EditBlocked(reservations, reservation) {
      return Failed(CourtReserved);
    }
    db.reservations := db.reservations[rid := Edited(reservation, court.value, venue.value, startTime, endTime, data)];
    r := Done;
  }

  /**
   * `cancel_reservation`: NotFound for a non-member, NoPermission for a member
   * who is not a manager; otherwise only the cancelled flag is set.
   */
  method CancelReservation(db: Database, caller: int, rid: int) returns (r: Outcome)
    requires db.Valid()
    modifies db`reservations
    ensures db.Valid()
    ensures !IsMember(db.members, rid, caller) ==> r == Failed(NotFound)
    ensures IsMember(db.members, rid, caller) && !IsManager(db.members, rid, caller) ==> r == Failed(NoPermission)
    ensures r.Failed? ==> db.reservations == old(db.reservations)
    ensures IsManager(db.members, rid, caller) ==>
      && r == Done
      && rid in old(db.reservations)
      && db.reservations == old(db.reservations)[rid := old(db.reservations)[rid].(isCancelled := true)]
    ensures rid !in old(db.reservations) ==> db.reservations == old(db.reservations)
  {
    if !IsMember(db.members, rid, caller) {
      return Failed(NotFound);
    }
    if !db.members[(rid, caller)].isManager {
      return Failed(NoPermission);
    }
    db.reservations := db.reservations[rid := db.reservations[rid].(isCancelled := true)];
    r := Done;
  }

  /**
   * `leave_reservation`: NotFound for a non-member. While the reservation has
   * more than one member row only the caller's row goes; the last member
   * leaving deletes the whole reservation, whatever that member's role or
   * status.
   */
  method LeaveReservation(db: Database, caller: int, rid: int) returns (r: Outcome)
    requires db.Valid()
    modifies db`reservations, db`members
    ensures db.Valid()
    ensures !IsMember(old(db.members), rid, caller) ==>
      r == Failed(NotFound) && db.reservations == old(db.reservations) && db.members == old(db.members)
    ensures IsMember(old(db.members), rid, caller) && |MembersOf(old(db.members), rid)| > 1 ==>
      && r == Done
      && db.reservations == old(db.reservations)
      && db.members == old(db.members) - {(rid, caller)}
    ensures IsMember(old(db.members), rid, caller) && |MembersOf(old(db.members), rid)| <= 1 ==>
      && r == Done
      && db.reservations == old(db.reservations) - {rid}
      && db.members == WithoutReservationMembers(old(db.members), rid)
  {
    if !IsMember(db.members, rid, caller) {
      return Failed(NotFound);
    }
    if |MembersOf(db.members, rid)| > 1 {
      db.members := db.members - {(rid, caller)};
    } else {
      db.reservations := db.reservations - {rid};
      db.members := WithoutReservationMembers(db.members, rid);
    }
    r := Done;
  }

  /** Only an invited, non-manager member who came by invitation code may reject. */
  predicate MayReject(m: Member) {
    !m.isManager && m.status == Invited && m.source == InvitationCode
  }

  /**
   * `reject_invitation`: NotFound when the caller has no member row,
   * NoPermission unless the row may reject; otherwise only that row's status
   * becomes rejected (the row stays).
   */
  method RejectInvitation(db: Database, caller: int, rid: int) returns (r: Outcome)
    requires db.Valid()
    modifies db`members
    ensures db.Valid()
    ensures !IsMember(old(db.members), rid, caller) ==> r == Failed(NotFound)
    ensures IsMember(old(db.members), rid, caller) && !MayReject(old(db.members)[(rid, caller)]) ==>
      r == Failed(NoPermission)
    ensures r.Failed? ==> db.members == old(db.members)
    ensures IsMember(old(db.members), rid, caller) && MayReject(old(db.members)[(rid, caller)]) ==>
      && r == Done
      && db.members == old(db.members)[(rid, caller) := old(db.members)[(rid, caller)].(status := Rejected)]
  {
    if !IsMember(db.members, rid, caller) {
      return Failed(NotFound);
    }
    var member := db.members[(rid, caller)];
    if !MayReject(member) {
      return Failed(NoPermission);
    }
    db.members := db.members[(rid, caller) := member.(status := Rejected)];
    r := Done;
  }

  /** A rejection is terminal: rejecting the same invitation again is refused. */
  method RejectTwice(db: Database, caller: int, rid: int) returns (first: Outcome, second: Outcome)
    requires db.Valid()
    modifies db`members
    ensures db.Valid()
    ensures first.Done? ==> second == Failed(NoPermission)
    ensures first.Done? ==> IsMember(db.members, rid, caller) && db.members[(rid, caller)].status == Rejected
  {
    first := RejectInvitation(db, caller, rid);
    second := RejectInvitation(db, caller, rid);
  }

  /**
   * When the reservation has more than one member row, removing the caller's
   * row removes exactly that member from the reservation, which keeps at
   * least one member, and every other row of the table is kept as it was.
   */
  lemma LeaveKeepsOtherMembers(members: map<MemberKey, Member>, rid: int, caller: int)
    requires MembersWellKeyed(members)
    requires IsMember(members, rid, caller)
    requires |MembersOf(members, rid)| > 1
    ensures MembersOf(members - {(rid, caller)}, rid) == MembersOf(members, rid) - {members[(rid, caller)]}
    ensures |MembersOf(members - {(rid, caller)}, rid)| == |MembersOf(members, rid)| - 1 >= 1
    ensures forall k :: k in members && k != (rid, caller) ==> k in members - {(rid, caller)} && (members - {(rid, caller)})[k] == members[k]
  {
    var key := (rid, caller);
    var row := members[key];
    var after := members - {key};
    forall m | m in MembersOf(after, rid)
      ensures m in MembersOf(members, rid) - {row}
    {
      var k :| k in after && after[k] == m;
      assert m.Key() == k;
    }
    forall m | m in MembersOf(members, rid) - {row}
      ensures m in MembersOf(after, rid)
    {
      var k :| k in members && members[k] == m;
      assert k != key;
      assert after[k] == m;
    }
    assert row in MembersOf(members, rid);
  }

  /**
   * When the caller's row is the reservation's only row, deleting the
   * reservation with its members removes exactly the caller's row.
   */
  lemma LastLeaveRemovesOnlyCaller(members: map<MemberKey, Member>, rid: int, caller: int)
    requires MembersWellKeyed(members)
    requires IsMember(members, rid, caller)
    requires |MembersOf(members, rid)| <= 1
    ensures MembersOf(members, rid) == {members[(rid, caller)]}
    ensures WithoutReservationMembers(members, rid) == members - {(rid, caller)}
  {
    var key := (rid, caller);
    var row := members[key];
    assert row in MembersOf(members, rid);
    forall m | m in MembersOf(members, rid)
      ensures m == row
    {
      if m != row {
        assert {row, m} <= MembersOf(members, rid);
        assert |{row, m}| == 2;
        SubsetCardinality({row, m}, MembersOf(members, rid));
        assert false;
      }
    }
    forall k | k in members && k.0 == rid
      ensures k == key
    {
      assert members[k] in MembersOf(members, rid);
      assert members[k].Key() == k;
    }
  }

  lemma {:induction false} SubsetCardinality<T>(a: set<T>, b: set<T>)
    requires a <= b
    ensures |a| <= |b|
  {
    if a != {} {
      var x :| x in a;
      SubsetCardinality(a - {x}, b - {x});
    }
  }

  /** Two half-open ranges [s1, e1) and [s2, e2) share a point. */
  predicate Overlaps(s1: int, e1: int, s2: int, e2: int) {
    s1 < e2 && s2 < e1
  }

  /**
   * `conflicts` is what a conflict query that keeps the live reservations of
   * the court overlapping [s, e) answers, in some order.
   */
  ghost predicate IsConflictSet(conflicts: seq<Reservation>, reservations: map<int, Reservation>,
                                courtId: int, s: int, e: int)
  {
    forall c :: c in conflicts <==>
      c in reservations.Values && c.courtId == courtId && !c.isCancelled && Overlaps(c.startTime, c.endTime, s, e)
  }

  /** The evidently intended edit check: some conflict other than the edited reservation itself. */
  predicate ConflictsWithOther(conflicts: seq<Reservation>, id: int) {
    exists c :: c in conflicts && c.id != id
  }

  /**
   * Against an overlap query, the intended check passes exactly when no other
   * live reservation of the court overlaps the new range; in particular the
   * reservation's own slot never conflicts with itself.
   */
  lemma ConflictsWithOtherIsExact(conflicts: seq<Reservation>, reservations: map<int, Reservation>,
                                  courtId: int, s: int, e: int, id: int)
    requires IsConflictSet(conflicts, reservations, courtId, s, e)
    ensures !ConflictsWithOther(conflicts, id) <==>
      forall other :: other in reservations.Values && other.id != id && other.courtId == courtId && !other.isCancelled
        ==> !Overlaps(other.startTime, other.endTime, s, e)
  {
  }

  /**
   * The check as written refuses an edit only because of another reservation:
   * against an overlap query, when it refuses, the answer holds a reservation
   * other than the edited one, so its refusals are among the intended check's.
   */
  lemma EditBlockedOnlyForOther(conflicts: seq<Reservation>, reservations: map<int, Reservation>, nextId: int,
                                courtId: int, s: int, e: int, id: int)
    requires ReservationsWellKeyed(reservations, nextId)
    requires id in reservations
    requires IsConflictSet(conflicts, reservations, courtId, s, e)
    requires EditBlocked(conflicts, reservations[id])
    ensures ConflictsWithOther(conflicts, id)
  {
    var c := conflicts[0];
    assert c in conflicts;
    assert c in reservations.Values;
    var k := KeyOfValue(reservations, c);
    assert c.id == k;
  }

  /** A value of a map is stored under some key. */
  lemma KeyOfValue<K, V>(m: map<K, V>, v: V) returns (k: K)
    requires v in m.Values
    ensures k in m && m[k] == v
  {
    k :| k in m && m[k] == v;
  }

  /**
   * A reservation on 10:00-11:00 moved to 10:00-12:00 while another live
   * reservation of the court holds 11:00-12:00: the overlap query reports
   * both, the edited reservation among them, so the check as written lets the
   * edit through and the court is booked twice; the intended check refuses.
   */
  lemma EditAcceptsOverlapWithOther()
    ensures var own := Reservation(1, 5, 2, 3, 36000, 39600, [], "a", None, 4, 2, false);
            var other := Reservation(2, 5, 2, 3, 39600, 43200, [], "b", None, 4, 2, false);
            var rows := map[1 := own, 2 := other];
            && IsConflictSet([own, other], rows, 5, 36000, 43200)
            && !EditBlocked([own, other], own)
            && Overlaps(other.startTime, other.endTime, 36000, 43200)
            && ConflictsWithOther([own, other], own.id)
  {
    var own := Reservation(1, 5, 2, 3, 36000, 39600, [], "a", None, 4, 2, false);
    var other := Reservation(2, 5, 2, 3, 39600, 43200, [], "b", None, 4, 2, false);
    var rows := map[1 := own, 2 := other];
    assert rows.Values == {own, other} by {
      assert rows[1] == own && rows[2] == other;
      forall c | c in rows.Values ensures c == own || c == other {
        var k :| k in rows && rows[k] == c;
      }
    }
  }
}
