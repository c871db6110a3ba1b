/**
 * The court endpoints (app/processor/http/court.py): booking a court and the
 * court schedule with its search for an available date. The caller's account
 * id, the current time, today's date and the freshly generated invitation code
 * are parameters; the reservation query is an arbitrary function.
 */
module CourtHandlers {
  import opened Base
  import opened Store
  import CourtTable

  /**
   * The body of a booking request. An absent technical level or member list
   * is the empty list; an absent vacancy is `None` and is stored as -1
   * (private).
   */
  datatype AddInput = AddInput(
    courtId: int,
    startTime: int,
    endTime: int,
    technicalLevel: seq<TechnicalLevel>,
    remark: Option<string>,
    memberCount: int,
    vacancy: Option<int>,
    memberIds: seq<int>)

  /** The row a successful booking inserts. */
  function NewReservation(id: int, data: AddInput, venue: Venue, code: string): Reservation {
    Reservation(id, data.courtId, venue.id, venue.stadiumId, data.startTime, data.endTime,
                data.technicalLevel, code, data.remark, data.memberCount,
                data.vacancy.GetOr(PrivateVacancy), false)
  }

  predicate CodeInUse(reservations: map<int, Reservation>, code: string) {
    exists id :: id in reservations && reservations[id].invitationCode == code
  }

  /**
   * `add_reservation`: checks, in order, that the caller is among the listed
   * members, that the conflict query reports nothing, and that the range
   * starts now or later and is not empty; then reads the (published) court
   * and its venue and inserts one reservation row under the next id. No
   * member row is inserted.
   */
  method AddReservation(db: Database, browse: ReservationQuery, caller: int, now: int, code: string, data: AddInput)
    returns (r: Result<int>)
    requires db.Valid()
    modifies db`reservations, db`nextId
    ensures db.Valid()
    ensures db.members == old(db.members)
    ensures r.Err? ==> db.reservations == old(db.reservations) && db.nextId == old(db.nextId)
    ensures caller !in data.memberIds ==> r == Err(NoPermission)
    ensures caller in data.memberIds && |Conflicts(browse, data.courtId, data.startTime, data.endTime)| > 0 ==>
      r == Err(CourtReserved)
    ensures caller in data.memberIds && |Conflicts(browse, data.courtId, data.startTime, data.endTime)| == 0 ==>
      (r == Err(IllegalInput) <==> data.startTime < now || data.startTime >= data.endTime)
    ensures r.Ok? ==>
      && caller in data.memberIds
      && |Conflicts(browse, data.courtId, data.startTime, data.endTime)| == 0
      && now <= data.startTime < data.endTime
      && CourtTable.Read(db.courts, data.courtId, false).Ok?
      && FindVenue(db.venues, CourtTable.Read(db.courts, data.courtId, false).value.venueId).Ok?
      && !CodeInUse(old(db.reservations), code)
    ensures caller in data.memberIds && |Conflicts(browse, data.courtId, data.startTime, data.endTime)| == 0
            && now <= data.startTime < data.endTime ==>
      var court := CourtTable.Read(db.courts, data.courtId, false);
      && (court.Err? ==> r == Err(NotFound))
      && (court.Ok? && FindVenue(db.venues, court.value.venueId).Err? ==> r == Err(NotFound))
      && (court.Ok? && FindVenue(db.venues, court.value.venueId).Ok? ==>
            var venue := FindVenue(db.venues, court.value.venueId).value;
            && (CodeInUse(old(db.reservations), code) ==> r == Err(IntegrityError))
            && (!CodeInUse(old(db.reservations), code) ==>
                  && r == Ok(old(db.nextId))
                  && old(db.nextId) !in old(db.reservations)
                  && db.reservations == old(db.reservations)[r.value := NewReservation(r.value, data, venue, code)]
                  && db.nextId == old(db.nextId) + 1))
    ensures r.Ok? ==> r.value in db.reservations && db.reservations[r.value].vacancy == data.vacancy.GetOr(PrivateVacancy)
    ensures r.Ok? && data.vacancy.None? ==> db.reservations[r.value].vacancy == PrivateVacancy
  {
    if caller !in data.memberIds {
      return Err(NoPermission);
    }
    var reservations := Conflicts(browse, data.courtId, data.startTime, data.endTime);
    if |reservations| > 0 {
      return Err(CourtReserved);
    }
    if data.startTime < now || data.startTime >= data.endTime {
      return Err(IllegalInput);
    }
    var court := CourtTable.Read(db.courts, data.courtId, false);
    if court.Err? {
      return Err(court.error);
    }
    var venue := FindVenue(db.venues, court.value.venueId);
    if venue.Err? {
      return Err(venue.error);
    }
    if CodeInUse(db.reservations, code) {
      return Err(IntegrityError);
    }
    var id := db.nextId;
    db.reservations := db.reservations[id := NewReservation(id, data, venue.value, code)];
    db.nextId := db.nextId + 1;
    r := Ok(id);
  }

  /**
   * The blocking test of the availability search: the reservation covers the
   * whole range and its vacancy is exactly 0 (`not reservation.vacancy`), so
   * a private reservation (vacancy -1) never blocks.
   */
  predicate Blocks(res: Reservation, range: TimeRange) {
    res.startTime <= range.startTime && res.endTime >= range.endTime && res.vacancy == 0
  }

  predicate Blocked(range: TimeRange, reservations: seq<Reservation>) {
    exists res :: res in reservations && Blocks(res, range)
  }

  /** The date the endpoint shows without searching, if any. */
  function DirectDate(startDate: Option<int>, timeRanges: Option<seq<TimeRange>>, today: int): (d: Option<int>)
    ensures startDate.Some? ==> d == startDate
    ensures startDate.None? ==> (d.Some? <==> timeRanges.None? || |timeRanges.value| == 0)
    ensures startDate.None? && d.Some? ==> d.value == today
  {
    if startDate.Some? then startDate
    else if timeRanges.None? || |timeRanges.value| == 0 then Some(today)
    else None
  }

  datatype CourtSchedule = CourtSchedule(startDate: int, reservations: seq<Reservation>)

  /**
   * What the endpoint's search loop yields: the first range's date when that
   * range is not blocked, and nothing otherwise, because the availability
   * flag, once cleared by a blocked range, is never set again.
   */
  function AsWrittenDate(ranges: seq<TimeRange>, reservations: seq<Reservation>): Option<int>
    requires |ranges| > 0
  {
    if Blocked(ranges[0], reservations) then None else Some(DateOf(ranges[0].startTime))
  }

  /**
   * `browse_reservation_by_court_id`. NotFound for an unknown or unpublished
   * court and for a venue without business hours. With a start date, or
   * without time ranges (then today), the reservations of that date are
   * returned. Otherwise the search over the ranges runs as written: its
   * availability flag is never reset, so it yields the first range's date
   * when that range is not blocked and NotFound in every other case.
   */
  method BrowseReservationByCourt(db: Database, browse: ReservationQuery, courtId: int,
                                  timeRanges: Option<seq<TimeRange>>, startDate: Option<int>, today: int)
    returns (r: Result<CourtSchedule>)
    ensures CourtTable.Read(db.courts, courtId, false).Err? ==> r == Err(NotFound)
    ensures CourtTable.Read(db.courts, courtId, false).Ok? ==>
      var court := CourtTable.Read(db.courts, courtId, false).value;
      var date := DirectDate(startDate, timeRanges, today);
      && (court.venueId !in db.venuesWithHours ==> r == Err(NotFound))
      && (court.venueId in db.venuesWithHours && date.Some? ==>
            r == Ok(CourtSchedule(date.value, browse(ReservationFilter(courtId, timeRanges, date)))))
      && (court.venueId in db.venuesWithHours && date.None? ==>
            var found := AsWrittenDate(timeRanges.value, browse(ReservationFilter(courtId, timeRanges, None)));
            && (found.None? ==> r == Err(NotFound))
            && (found.Some? ==>
                  r == Ok(CourtSchedule(found.value, browse(ReservationFilter(courtId, None, Some(found.value)))))))
  {
    var court := CourtTable.Read(db.courts, courtId, false);
    if court.Err? {
      return Err(court.error);
    }
    if court.value.venueId !in db.venuesWithHours {
      return Err(NotFound);
    }
    var date := startDate;
    if date.None? && (timeRanges.None? || |timeRanges.value| == 0) {
      date := Some(today);
    }
    var reservations := browse(ReservationFilter(courtId, timeRanges, date));
    if date.Some? {
      return Ok(CourtSchedule(date.value, reservations));
    }
    var ranges := timeRanges.value;
    var availableDate: Option<int> := None;
    var isAvailable := true;
    var i := 0;
    while i < |ranges|
      invariant 0 <= i <= |ranges|
      invariant availableDate.None?
      invariant i == 0 ==> isAvailable
      invariant i > 0 ==> !isAvailable && Blocked(ranges[0], reservations)
    {
      var range := ranges[i];
      var j := 0;
      while j < |reservations|
        invariant 0 <= j <= |reservations|
        invariant isAvailable ==> i == 0 && forall k :: 0 <= k < j ==> !Blocks(reservations[k], range)
        invariant !isAvailable ==> Blocked(ranges[0], reservations) || (i == 0 && exists k :: 0 <= k < j && Blocks(reservations[k], range))
      {
        var res := reservations[j];
        if res.startTime <= range.startTime && res.endTime >= range.endTime && res.vacancy == 0 {
          isAvailable := false;
        }
        j := j + 1;
      }
      if isAvailable {
        availableDate := Some(DateOf(range.startTime));
        break;
      }
      i := i + 1;
    }
    if availableDate.None? {
      return Err(NotFound);
    }
    var day := availableDate.value;
    reservations := browse(ReservationFilter(courtId, None, Some(day)));
    r := Ok(CourtSchedule(day, reservations));
  }

  /**
   * The index of the first range no reservation blocks, or |ranges| when
   * every range is blocked: the search the endpoint evidently intends.
   */
  function FirstFreeIndex(ranges: seq<TimeRange>, reservations: seq<Reservation>): (k: nat)
    ensures k <= |ranges|
    ensures forall j :: 0 <= j < k ==> Blocked(ranges[j], reservations)
    ensures k < |ranges| ==> !Blocked(ranges[k], reservations)
  {
    if |ranges| == 0 then 0
    else if !Blocked(ranges[0], reservations) then 0
    else 1 + FirstFreeIndex(ranges[1..], reservations)
  }

  /** The date of the first range that is not blocked, if there is one. */
  function FirstFreeDate(ranges: seq<TimeRange>, reservations: seq<Reservation>): (d: Option<int>)
    ensures d.None? <==> forall j :: 0 <= j < |ranges| ==> Blocked(ranges[j], reservations)
    ensures d.Some? ==> exists k :: 0 <= k < |ranges| && !Blocked(ranges[k], reservations)
                          && d.value == DateOf(ranges[k].startTime)
                          && forall j :: 0 <= j < k ==> Blocked(ranges[j], reservations)
  {
    var k := FirstFreeIndex(ranges, reservations);
    if k < |ranges| then Some(DateOf(ranges[k].startTime)) else None
  }

  /**
   * The intended search, written as the endpoint's loop with the flag reset
   * for every range: it yields the date of the first range that no
   * reservation blocks.
   */
  method FindFirstAvailableDate(ranges: seq<TimeRange>, reservations: seq<Reservation>)
    returns (availableDate: Option<int>)
    ensures availableDate == FirstFreeDate(ranges, reservations)
  {
    var i := 0;
    while i < |ranges|
      invariant 0 <= i <= |ranges|
      invariant forall j :: 0 <= j < i ==> Blocked(ranges[j], reservations)
    {
      var range := ranges[i];
      var isAvailable := true;
      var j := 0;
      while j < |reservations|
        invariant 0 <= j <= |reservations|
        invariant isAvailable <==> forall k :: 0 <= k < j ==> !Blocks(reservations[k], range)
      {
        var res := reservations[j];
        if res.startTime <= range.startTime && res.endTime >= range.endTime && res.vacancy == 0 {
          isAvailable := false;
        }
        j := j + 1;
      }
      if isAvailable {
        return Some(DateOf(range.startTime));
      }
      i := i + 1;
    }
    return None;
  }

  /**
   * Whenever the search as written finds a date, it is the date the intended
   * search finds.
   */
  lemma AsWrittenDateIsFirstFree(ranges: seq<TimeRange>, reservations: seq<Reservation>)
    requires |ranges| > 0
    requires AsWrittenDate(ranges, reservations).Some?
    ensures AsWrittenDate(ranges, reservations) == FirstFreeDate(ranges, reservations)
  {
    assert FirstFreeIndex(ranges, reservations) == 0;
  }

  /**
   * Ranges on two days, the first fully covered by a booked-out reservation
   * (vacancy 0), the second free: the intended search yields the second day,
   * while the search as written finds nothing, so the endpoint answers
   * NotFound.
   */
  lemma SearchSkipsFreeSecondRange()
    ensures var d1 := TimeRange(10 * SecondsPerDay + 36000, 10 * SecondsPerDay + 39600);
            var d2 := TimeRange(11 * SecondsPerDay + 36000, 11 * SecondsPerDay + 39600);
            var full := Reservation(1, 5, 2, 3, 10 * SecondsPerDay + 32400, 10 * SecondsPerDay + 43200,
                                    [], "code", None, 4, 0, false);
            && AsWrittenDate([d1, d2], [full]) == None
            && FirstFreeDate([d1, d2], [full]) == Some(11)
  {
    var d1 := TimeRange(10 * SecondsPerDay + 36000, 10 * SecondsPerDay + 39600);
    var d2 := TimeRange(11 * SecondsPerDay + 36000, 11 * SecondsPerDay + 39600);
    var full := Reservation(1, 5, 2, 3, 10 * SecondsPerDay + 32400, 10 * SecondsPerDay + 43200,
                            [], "code", None, 4, 0, false);
    assert Blocks(full, d1);
    assert [d1, d2][1..] == [d2];
    assert FirstFreeIndex([d1, d2], [full]) == 1;
  }
}
