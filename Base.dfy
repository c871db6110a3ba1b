/**
 * Values shared by the whole backend: the domain records of the reservation
 * system (courts, venues, reservations, reservation members), the member
 * enums, the error kinds a handler raises, and the wrappers used to return
 * either a value or one of those errors.
 */
module Base {

  datatype Option<+T> = None | Some(value: T) {
    /** The wrapped value, or `default` when there is none. */
    function GetOr(default: T): T {
      match this
      case Some(v) => v
      case None => default
    }
  }

  /** The exceptions the handlers raise and the transport maps to a status. */
  datatype Error =
    | NotFound
    | NoPermission
    | IllegalInput
    | CourtReserved
    | ReservationFull
      /** a unique or primary-key constraint of the database refused an insert */
    | IntegrityError

  datatype Result<+T> = Ok(value: T) | Err(error: Error)

  /** The result of a handler whose response carries no data. */
  datatype Outcome = Done | Failed(error: Error)

  datatype MemberStatus = Invited | Joined | Rejected

  datatype MemberSource = InvitationCode | OtherSource

  type TechnicalLevel = string

  /** Points in time are seconds on a naive (time-zone free) clock. */
  const SecondsPerDay: int := 86400

  /** The calendar day of a point in time (what `datetime.date()` keeps). */
  function DateOf(t: int): int {
    t / SecondsPerDay
  }

  /** Vacancy of a private reservation: it can only be entered by invitation. */
  const PrivateVacancy: int := -1

  datatype TimeRange = TimeRange(startTime: int, endTime: int)

  datatype Court = Court(id: int, venueId: int, number: int, isPublished: bool)

  datatype Venue = Venue(id: int, stadiumId: int)

  datatype Reservation = Reservation(
    id: int,
    courtId: int,
    venueId: int,
    stadiumId: int,
    startTime: int,
    endTime: int,
    technicalLevels: seq<TechnicalLevel>,
    invitationCode: string,
    remark: Option<string>,
    memberCount: int,
    vacancy: int,
    isCancelled: bool)

  datatype Member = Member(
    reservationId: int,
    accountId: int,
    isManager: bool,
    status: MemberStatus,
    source: MemberSource)
  {
    /** The composite primary key of the member table. */
    function Key(): (int, int) {
      (reservationId, accountId)
    }
  }
}
