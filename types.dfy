// Records of the seat-reservation store: the library roster, the booking
// ledger and the student profile copied into every booking.
// Timestamps are integer milliseconds; a null timestamp is None.

module Types {

  datatype Option<+T> = None | Some(value: T)

  /** The five booking states; `Pending` and `Confirmed` hold a seat. */
  datatype Status = Pending | Confirmed | Completed | Expired | Released

  datatype Library = Library(
    id: string,
    name: string,
    building: string,
    totalSpots: int,
    availableSpots: int,
    adminPin: string)

  datatype Student = Student(
    name: string,
    erpId: string,
    department: string,
    year: string,
    section: string)

  datatype Booking = Booking(
    id: string,
    libraryId: string,
    libraryName: string,
    building: string,
    studentName: string,
    studentErp: string,
    department: string,
    year: string,
    section: string,
    status: Status,
    bookedAt: int,
    expiresAt: int,
    checkedInAt: Option<int>,
    checkedOutAt: Option<int>,
    sessionEndsAt: Option<int>)

  /** Grace window between booking and the entrance scan, in minutes. */
  const RESERVE_MINUTES: int := 6
  /** Length of a checked-in session, in hours. */
  const SESSION_HOURS: int := 4

  const RESERVE_MS: int := RESERVE_MINUTES * 60 * 1000
  const SESSION_MS: int := SESSION_HOURS * 60 * 60 * 1000

  /** The roster written on first run (coordinates are display-only and left out). */
  const LIBRARIES: seq<Library> := [
    Library("gehu-central", "Central Library", "Graphic Era Hill University", 16, 16, "1111"),
    Library("gehu-law", "Law Library", "GEHU Law Block", 10, 10, "2222"),
    Library("santoshanad", "Santoshanad Library", "Santoshanad Block", 12, 12, "3333"),
    Library("csit-block", "CSIT Block Library", "CSIT Department", 8, 8, "4444"),
    Library("chanakya", "Chanakya Block Library", "Chanakya Block", 10, 10, "5555")
  ]

  function Min(a: int, b: int): int { if a <= b then a else b }

  function Max(a: int, b: int): int { if a >= b then a else b }

  /** A booking that holds a seat. */
  predicate IsActive(b: Booking) { b.status == Pending || b.status == Confirmed }
}
