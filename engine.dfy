// The booking engine as functions of the persisted state: the expiry sweep
// run by every roster read, booking creation, the entrance scan and the
// admin release, and the proofs that each keeps the roster and the ledger
// consistent (src/data/storage.js).

module Engine {
  import opened Types
  import opened Ledger

  /** The two persisted documents: the roster and the ledger (newest first). */
  datatype State = State(libraries: seq<Library>, bookings: seq<Booking>)

  predicate Valid(st: State)
  {
    Consistent(st.libraries, st.bookings)
  }

  // ---------------------------------------------------------------- lookups

  /** `libs.find(l => l.id === id)`, as the index of the first match. */
  function FindLibrary(libs: seq<Library>, id: string): (r: Option<nat>)
    ensures r.Some? ==> r.value < |libs| && libs[r.value].id == id
    ensures r.Some? ==> forall k :: 0 <= k < r.value ==> libs[k].id != id
    ensures r.None? ==> forall k :: 0 <= k < |libs| ==> libs[k].id != id
  {
    if libs == [] then None
    else if libs[0].id == id then Some(0)
    else match FindLibrary(libs[1..], id)
      case None => None
      case Some(k) => Some(k + 1)
  }

  /** A seat-holding booking of student `erp` at library `libId`. */
  predicate ActiveFor(b: Booking, libId: string, erp: string)
  {
    b.libraryId == libId && b.studentErp == erp && IsActive(b)
  }

  /** The ledger search shared by the duplicate guard and the scan: the first match. */
  function FindActive(s: seq<Booking>, libId: string, erp: string): (r: Option<nat>)
    ensures r.Some? ==> r.value < |s| && ActiveFor(s[r.value], libId, erp)
    ensures r.Some? ==> forall k :: 0 <= k < r.value ==> !ActiveFor(s[k], libId, erp)
    ensures r.None? ==> forall k :: 0 <= k < |s| ==> !ActiveFor(s[k], libId, erp)
  {
    if s == [] then None
    else if ActiveFor(s[0], libId, erp) then Some(0)
    else match FindActive(s[1..], libId, erp)
      case None => None
      case Some(k) => Some(k + 1)
  }

  /** The roster after `libId` gains `k` seats, each count capped at `totalSpots`. */
  function ReleaseSpots(libs: seq<Library>, libId: string, k: int): (r: seq<Library>)
    ensures |r| == |libs|
    ensures forall i :: 0 <= i < |libs| ==> r[i].id == libs[i].id && r[i].totalSpots == libs[i].totalSpots
    ensures forall i :: 0 <= i < |libs| && libs[i].id == libId ==>
      && r[i].availableSpots <= libs[i].totalSpots
      && r[i].availableSpots <= libs[i].availableSpots + k
      && (r[i].availableSpots == libs[i].availableSpots + k || r[i].availableSpots == libs[i].totalSpots)
    ensures forall i :: 0 <= i < |libs| && libs[i].id != libId ==> r[i] == libs[i]
    ensures forall i :: 0 <= i < |libs| ==> r[i].(availableSpots := libs[i].availableSpots) == libs[i]
  {
    seq(|libs|, i requires 0 <= i < |libs| =>
      if libs[i].id == libId
      then libs[i].(availableSpots := Min(libs[i].totalSpots, libs[i].availableSpots + k))
      else libs[i])
  }

  // ------------------------------------------------------------ expiry sweep

  /** A booking whose deadline has passed: an unscanned reservation or an overrun session. */
  predicate IsDue(b: Booking, now: int)
  {
    || (b.status == Pending && b.expiresAt < now)
    || (b.status == Confirmed && b.sessionEndsAt.Some? && b.sessionEndsAt.value < now)
  }

  /** What the sweep makes of one booking. */
  function Expire(b: Booking, now: int): (r: Booking)
    ensures IsDue(b, now) ==> !IsActive(r)
    ensures !IsDue(b, now) ==> r == b
    ensures b.status == Pending && b.expiresAt < now ==> r.status == Expired && r.checkedOutAt == b.checkedOutAt
    ensures b.status == Confirmed && b.sessionEndsAt.Some? && b.sessionEndsAt.value < now ==>
      r.status == Completed && r.checkedOutAt == Some(now)
    ensures r.(status := b.status, checkedOutAt := b.checkedOutAt) == b
  {
    if b.status == Pending && b.expiresAt < now then b.(status := Expired)
    else if b.status == Confirmed && b.sessionEndsAt.Some? && b.sessionEndsAt.value < now then
      b.(status := Completed, checkedOutAt := Some(now))
    else b
  }

  function ExpireAll(s: seq<Booking>, now: int): (r: seq<Booking>)
    ensures |r| == |s|
    ensures forall k :: 0 <= k < |s| ==> !IsDue(r[k], now)
    ensures forall k :: 0 <= k < |s| ==> r[k].libraryId == s[k].libraryId && r[k].studentErp == s[k].studentErp
  {
    seq(|s|, k requires 0 <= k < |s| => Expire(s[k], now))
  }

  /** Number of due bookings at `libId`: the seats the sweep gives back to it. */
  function DueCount(s: seq<Booking>, libId: string, now: int): nat
  {
    if s == [] then 0
    else DueCount(s[..|s| - 1], libId, now) + (if s[|s| - 1].libraryId == libId && IsDue(s[|s| - 1], now) then 1 else 0)
  }

  predicate AnyDue(s: seq<Booking>, now: int)
  {
    exists k :: 0 <= k < |s| && IsDue(s[k], now)
  }

  /** The roster with each library's returned seats added once, capped at `totalSpots`. */
  function Restore(libs: seq<Library>, bookings: seq<Booking>, now: int): (r: seq<Library>)
    ensures |r| == |libs|
    ensures forall i :: 0 <= i < |libs| ==> r[i].id == libs[i].id && r[i].totalSpots == libs[i].totalSpots
    ensures forall i :: 0 <= i < |libs| && libs[i].availableSpots <= libs[i].totalSpots ==>
      libs[i].availableSpots <= r[i].availableSpots <= libs[i].totalSpots
    ensures forall i :: 0 <= i < |libs| ==>
      var gained := libs[i].availableSpots + DueCount(bookings, libs[i].id, now);
      && r[i].availableSpots <= libs[i].totalSpots
      && r[i].availableSpots <= gained
      && (r[i].availableSpots == gained || r[i].availableSpots == libs[i].totalSpots)
    ensures forall i :: 0 <= i < |libs| ==> r[i].(availableSpots := libs[i].availableSpots) == libs[i]
  {
    seq(|libs|, i requires 0 <= i < |libs| =>
      libs[i].(availableSpots := Min(libs[i].totalSpots, libs[i].availableSpots + DueCount(bookings, libs[i].id, now))))
  }

  /** `runExpiryCheck`: nothing is rewritten unless some booking is due. */
  function Sweep(st: State, now: int): (r: State)
    ensures |r.libraries| == |st.libraries| && |r.bookings| == |st.bookings|
    ensures forall i :: 0 <= i < |st.libraries| ==>
      r.libraries[i].id == st.libraries[i].id && r.libraries[i].totalSpots == st.libraries[i].totalSpots
  {
    if AnyDue(st.bookings, now)
    then State(Restore(st.libraries, st.bookings, now), ExpireAll(st.bookings, now))
    else st
  }

  /** Extending the scanned prefix by one booking. */
  lemma DueCountStep(s: seq<Booking>, i: nat, libId: string, now: int)
    requires i < |s|
    ensures DueCount(s[..i + 1], libId, now)
         == DueCount(s[..i], libId, now) + (if s[i].libraryId == libId && IsDue(s[i], now) then 1 else 0)
  {
    assert s[..i + 1][..i] == s[..i];
  }

  lemma AnyDueStep(s: seq<Booking>, i: nat, now: int)
    requires i < |s|
    ensures AnyDue(s[..i + 1], now) <==> AnyDue(s[..i], now) || IsDue(s[i], now)
  {
    var t := s[..i + 1];
    if AnyDue(t, now) && !IsDue(s[i], now) {
      var k :| 0 <= k < |t| && IsDue(t[k], now);
      assert s[..i][k] == t[k];
    }
    if AnyDue(s[..i], now) {
      var k :| 0 <= k < i && IsDue(s[..i][k], now);
      assert t[k] == s[..i][k];
    }
    if IsDue(s[i], now) {
      assert t[i] == s[i];
    }
  }

  /** Expiring the due bookings releases exactly the seats counted by DueCount. */
  lemma {:induction false} SweepCounts(s: seq<Booking>, libId: string, now: int)
    ensures ActiveCount(ExpireAll(s, now), libId) + DueCount(s, libId, now) == ActiveCount(s, libId)
  {
    if s != [] {
      var n := |s|;
      assert ExpireAll(s, now)[..n - 1] == ExpireAll(s[..n - 1], now);
      SweepCounts(s[..n - 1], libId, now);
    }
  }

  /** The sweep keeps the roster and ledger consistent, and its cap never cuts a release short. */
  lemma SweepPreservesValid(st: State, now: int)
    requires Valid(st)
    ensures Valid(Sweep(st, now))
    ensures |Sweep(st, now).libraries| == |st.libraries|
    ensures forall i :: 0 <= i < |st.libraries| ==>
      Sweep(st, now).libraries[i] == st.libraries[i].(availableSpots := st.libraries[i].availableSpots + DueCount(st.bookings, st.libraries[i].id, now))
  {
    var libs, s := st.libraries, st.bookings;
    forall i | 0 <= i < |libs|
      ensures libs[i].availableSpots + DueCount(s, libs[i].id, now) <= libs[i].totalSpots
      ensures libs[i].availableSpots + DueCount(s, libs[i].id, now) + ActiveCount(ExpireAll(s, now), libs[i].id) == libs[i].totalSpots
    {
      SweepCounts(s, libs[i].id, now);
    }
    if !AnyDue(s, now) {
      forall i | 0 <= i < |libs| ensures DueCount(s, libs[i].id, now) == 0 {
        NoDueNoCount(s, libs[i].id, now);
      }
    }
  }

  lemma {:induction false} NoDueNoCount(s: seq<Booking>, libId: string, now: int)
    requires !AnyDue(s, now)
    ensures DueCount(s, libId, now) == 0
  {
    if s != [] {
      var t := s[..|s| - 1];
      assert !AnyDue(t, now) by {
        forall k | 0 <= k < |t| ensures !IsDue(t[k], now) {
          assert t[k] == s[k];
        }
      }
      NoDueNoCount(s[..|s| - 1], libId, now);
    }
  }

  /** The sweep's transitions, entry by entry: an overdue reservation becomes `expired`
      with no check-out stamp added, an overrun session becomes `completed` checked out
      at `now`, and every other booking is kept; no other field ever changes. */
  lemma SweepTransitions(st: State, now: int)
    ensures |Sweep(st, now).bookings| == |st.bookings|
    ensures forall k :: 0 <= k < |st.bookings| ==>
      var b, r := st.bookings[k], Sweep(st, now).bookings[k];
      && (b.status == Pending && b.expiresAt < now ==> r.status == Expired && r.checkedOutAt == b.checkedOutAt)
      && (b.status == Confirmed && b.sessionEndsAt.Some? && b.sessionEndsAt.value < now ==>
            r.status == Completed && r.checkedOutAt == Some(now))
      && (!IsDue(b, now) ==> r == b)
      && r.(status := b.status, checkedOutAt := b.checkedOutAt) == b
  {
    if AnyDue(st.bookings, now) {
      assert Sweep(st, now).bookings == ExpireAll(st.bookings, now);
    }
  }

  /** After a sweep no deadline has passed unnoticed, so a second sweep at the same time changes nothing. */
  lemma SweepIdempotent(st: State, now: int)
    ensures !AnyDue(Sweep(st, now).bookings, now)
    ensures Sweep(Sweep(st, now), now) == Sweep(st, now)
  {
  }

  // -------------------------------------------------------------- bookSeat

  /** Outcome of `bookSeat`; the two failures carry the messages
      'No seats available' and 'You already have an active booking here'. */
  datatype BookResult = Booked(booking: Booking) | NoSeats | AlreadyActive

  /** The booking `bookSeat` creates for `student` at `library` at time `now`. */
  function NewBooking(id: string, library: Library, student: Student, now: int): (b: Booking)
    ensures b.status == Pending && b.libraryId == library.id && b.studentErp == student.erpId
    ensures b.bookedAt == now && b.expiresAt == now + 6 * 60 * 1000
    ensures b.checkedInAt.None? && b.checkedOutAt.None? && b.sessionEndsAt.None?
  {
    Booking(id, library.id, library.name, library.building,
            student.name, student.erpId, student.department, student.year, student.section,
            Pending, now, now + RESERVE_MS, None, None, None)
  }

  /** The roster after `libId` hands out one seat. */
  function TakeSpot(libs: seq<Library>, libId: string): (r: seq<Library>)
    ensures |r| == |libs|
    ensures forall i :: 0 <= i < |libs| ==> r[i].id == libs[i].id && r[i].totalSpots == libs[i].totalSpots
    ensures forall i :: 0 <= i < |libs| && libs[i].id == libId ==> r[i].availableSpots == libs[i].availableSpots - 1
    ensures forall i :: 0 <= i < |libs| && libs[i].id != libId ==> r[i] == libs[i]
  {
    seq(|libs|, i requires 0 <= i < |libs| =>
      if libs[i].id == libId then libs[i].(availableSpots := libs[i].availableSpots - 1) else libs[i])
  }

  /** `bookSeat`: sweep (at `sweepAt`), then check seats and duplicates, then book (at `now`). */
  function Book(st: State, library: Library, student: Student, id: string, sweepAt: int, now: int): (out: (BookResult, State))
    ensures var s1 := Sweep(st, sweepAt);
      var k := FindLibrary(s1.libraries, library.id);
      && (out.0 == NoSeats <==> (k.None? || s1.libraries[k.value].availableSpots <= 0))
      && (out.0 == AlreadyActive <==>
            k.Some? && s1.libraries[k.value].availableSpots > 0 &&
            exists j :: 0 <= j < |s1.bookings| && ActiveFor(s1.bookings[j], library.id, student.erpId))
      && (!out.0.Booked? ==> out.1 == s1)
      && (out.0.Booked? ==>
            && out.0.booking == NewBooking(id, library, student, now)
            && out.1.bookings == [out.0.booking] + s1.bookings)
  {
    var s1 := Sweep(st, sweepAt);
    var k := FindLibrary(s1.libraries, library.id);
    if k.None? || s1.libraries[k.value].availableSpots <= 0 then (NoSeats, s1)
    else if FindActive(s1.bookings, library.id, student.erpId).Some? then (AlreadyActive, s1)
    else
      var b := NewBooking(id, library, student, now);
      (Booked(b), State(TakeSpot(s1.libraries, library.id), [b] + s1.bookings))
  }

  /** Handing out a seat changes one roster entry: the one with that id, by exactly one seat. */
  lemma TakeSpotAt(libs: seq<Library>, k: nat)
    requires UniqueIds(libs) && k < |libs|
    ensures TakeSpot(libs, libs[k].id) == libs[k := libs[k].(availableSpots := libs[k].availableSpots - 1)]
  {
    var expected := libs[k := libs[k].(availableSpots := libs[k].availableSpots - 1)];
    forall i | 0 <= i < |libs| ensures TakeSpot(libs, libs[k].id)[i] == expected[i] {
      if i < k {
        assert libs[i].id != libs[k].id;
      } else if i > k {
        assert libs[k].id != libs[i].id;
      }
    }
  }

  /** A successful booking takes exactly one seat from the booked library and nothing from the others. */
  lemma BookTakesOneSeat(st: State, library: Library, student: Student, id: string, sweepAt: int, now: int)
    requires UniqueIds(st.libraries)
    ensures var s1 := Sweep(st, sweepAt);
      var out := Book(st, library, student, id, sweepAt, now);
      out.0.Booked? ==>
        exists k :: 0 <= k < |s1.libraries| && s1.libraries[k].id == library.id &&
          s1.libraries[k].availableSpots > 0 &&
          out.1.libraries == s1.libraries[k := s1.libraries[k].(availableSpots := s1.libraries[k].availableSpots - 1)]
  {
    var s1 := Sweep(st, sweepAt);
    var out := Book(st, library, student, id, sweepAt, now);
    if out.0.Booked? {
      var libs := s1.libraries;
      var k := FindLibrary(libs, library.id).value;
      assert UniqueIds(libs) by {
        forall i, j | 0 <= i < j < |libs| ensures libs[i].id != libs[j].id {
          assert libs[i].id == st.libraries[i].id && libs[j].id == st.libraries[j].id;
        }
      }
      TakeSpotAt(libs, k);
    }
  }

  /** Prepending a fresh pending booking after taking its seat keeps conservation and bounds. */
  lemma PrependKeepsConserved(libs: seq<Library>, ledger: seq<Booking>, b: Booking)
    requires Consistent(libs, ledger)
    requires IsActive(b)
    requires exists k :: 0 <= k < |libs| && libs[k].id == b.libraryId && libs[k].availableSpots > 0
    ensures Conserved(TakeSpot(libs, b.libraryId), [b] + ledger)
    ensures Bounded(TakeSpot(libs, b.libraryId))
  {
    var libs' := TakeSpot(libs, b.libraryId);
    forall i | 0 <= i < |libs'|
      ensures libs'[i].availableSpots + ActiveCount([b] + ledger, libs'[i].id) == libs'[i].totalSpots
      ensures 0 <= libs'[i].availableSpots <= libs'[i].totalSpots
    {
      ActiveCountPrepend(b, ledger, libs'[i].id);
      if libs[i].id == b.libraryId {
        var k :| 0 <= k < |libs| && libs[k].id == b.libraryId && libs[k].availableSpots > 0;
        assert k == i;
      }
    }
  }

  /** Prepending a seat-holding booking for a student with none at that library keeps
      one active booking per student and library. */
  lemma PrependKeepsSingleActive(ledger: seq<Booking>, b: Booking)
    requires SingleActive(ledger)
    requires FindActive(ledger, b.libraryId, b.studentErp).None?
    ensures SingleActive([b] + ledger)
  {
    var t := [b] + ledger;
    forall i, j | 0 <= i < j < |t| && IsActive(t[i]) && IsActive(t[j])
      ensures t[i].libraryId != t[j].libraryId || t[i].studentErp != t[j].studentErp
    {
      if i == 0 {
        assert t[j] == ledger[j - 1];
      } else {
        assert t[i] == ledger[i - 1] && t[j] == ledger[j - 1];
      }
    }
  }

  /** bookSeat keeps the invariant; in particular it never books a seat below zero. */
  lemma BookPreservesValid(st: State, library: Library, student: Student, id: string, sweepAt: int, now: int)
    requires Valid(st)
    ensures Valid(Book(st, library, student, id, sweepAt, now).1)
  {
    SweepPreservesValid(st, sweepAt);
    var s1 := Sweep(st, sweepAt);
    var out := Book(st, library, student, id, sweepAt, now);
    if out.0.Booked? {
      var b := out.0.booking;
      var k := FindLibrary(s1.libraries, library.id).value;
      assert s1.libraries[k].id == b.libraryId && s1.libraries[k].availableSpots > 0;
      PrependKeepsConserved(s1.libraries, s1.bookings, b);
      PrependKeepsSingleActive(s1.bookings, b);
      assert out.1 == State(TakeSpot(s1.libraries, b.libraryId), [b] + s1.bookings);
    }
  }

  // ----------------------------------------------------------- handleQRScan

  /** Outcome of `handleQRScan`: actions 'checkout', 'expired', 'checkin' and 'none'. */
  datatype ScanResult = CheckedOut(booking: Booking) | ReservationExpired(booking: Booking)
                      | CheckedIn(booking: Booking) | NoneFound

  /** The scan proper, acting on ledger copy `ledger` while `cur` is what the store holds.
      Seats are returned to `cur.libraries`; the written ledger is `ledger` with one entry changed. */
  function ScanStep(cur: State, ledger: seq<Booking>, libraryId: string, erp: string, now: int): (out: (ScanResult, State))
    ensures FindActive(ledger, libraryId, erp).None? <==> out.0 == NoneFound
    ensures out.0 == NoneFound ==> out.1 == cur
    ensures out.0.CheckedIn? ==> out.1.libraries == cur.libraries
    ensures !out.0.NoneFound? ==>
      var k := FindActive(ledger, libraryId, erp).value;
      && out.1.bookings == ledger[k := out.0.booking]
      && (out.0.CheckedOut? <==> ledger[k].status == Confirmed)
      && (out.0.ReservationExpired? <==> ledger[k].status == Pending && ledger[k].expiresAt < now)
      && (!out.0.CheckedIn? ==> out.1.libraries == ReleaseSpots(cur.libraries, libraryId, 1))
      && (out.0.CheckedOut? ==> out.0.booking == ledger[k].(status := Completed, checkedOutAt := Some(now)))
      && (out.0.ReservationExpired? ==> out.0.booking == ledger[k].(status := Expired))
      && (out.0.CheckedIn? ==>
            out.0.booking == ledger[k].(status := Confirmed, checkedInAt := Some(now), sessionEndsAt := Some(now + SESSION_MS)))
  {
    match FindActive(ledger, libraryId, erp)
    case None => (NoneFound, cur)
    case Some(k) =>
      var b := ledger[k];
      if b.status == Confirmed then
        var b' := b.(status := Completed, checkedOutAt := Some(now));
        (CheckedOut(b'), State(ReleaseSpots(cur.libraries, libraryId, 1), ledger[k := b']))
      else if b.expiresAt < now then
        var b' := b.(status := Expired);
        (ReservationExpired(b'), State(ReleaseSpots(cur.libraries, libraryId, 1), ledger[k := b']))
      else
        var b' := b.(status := Confirmed, checkedInAt := Some(now), sessionEndsAt := Some(now + SESSION_MS));
        (CheckedIn(b'), State(cur.libraries, ledger[k := b']))
  }

  /** `handleQRScan` as written: the ledger is read BEFORE the roster read runs the sweep. */
  function ScanAsWritten(st: State, libraryId: string, student: Student, sweepAt: int, now: int): (out: (ScanResult, State))
    ensures out.0 == NoneFound <==> FindActive(st.bookings, libraryId, student.erpId).None?
    ensures out.0 == NoneFound ==> out.1 == Sweep(st, sweepAt)
    ensures !out.0.NoneFound? ==>
      out.1.bookings == st.bookings[FindActive(st.bookings, libraryId, student.erpId).value := out.0.booking]
  {
    ScanStep(Sweep(st, sweepAt), st.bookings, libraryId, student.erpId, now)
  }

  /** `handleQRScan` reading the roster (and so sweeping) first, then the ledger. */
  function Scan(st: State, libraryId: string, student: Student, sweepAt: int, now: int): (out: (ScanResult, State))
    ensures var s1 := Sweep(st, sweepAt);
      && (out.0 == NoneFound <==> FindActive(s1.bookings, libraryId, student.erpId).None?)
      && (out.0 == NoneFound ==> out.1 == s1)
      && (!out.0.NoneFound? ==>
            out.1.bookings == s1.bookings[FindActive(s1.bookings, libraryId, student.erpId).value := out.0.booking])
      && |out.1.bookings| == |st.bookings|
  {
    var s1 := Sweep(st, sweepAt);
    ScanStep(s1, s1.bookings, libraryId, student.erpId, now)
  }

  /** The scan's outcomes, booking by booking, as the entrance desk sees them: the
      matched booking `b` of the swept ledger gets its new status and stamps, and no
      other field of it changes. */
  lemma ScanOutcomes(st: State, libraryId: string, student: Student, sweepAt: int, now: int)
    ensures var s1 := Sweep(st, sweepAt);
      var out := Scan(st, libraryId, student, sweepAt, now);
      !out.0.NoneFound? ==>
      var b := s1.bookings[FindActive(s1.bookings, libraryId, student.erpId).value];
      var r := out.0.booking;
      && (out.0.CheckedOut? ==>
            && b.status == Confirmed
            && r.status == Completed && r.checkedOutAt == Some(now)
            && r.(status := b.status, checkedOutAt := b.checkedOutAt) == b)
      && (out.0.ReservationExpired? ==>
            && b.status == Pending && b.expiresAt < now
            && r.status == Expired && r.checkedOutAt == b.checkedOutAt
            && r.(status := b.status) == b)
      && (out.0.CheckedIn? ==>
            && b.status == Pending && now <= b.expiresAt
            && r.status == Confirmed
            && r.checkedInAt == Some(now)
            && r.sessionEndsAt == Some(now + 4 * 3600 * 1000)
            && r.checkedOutAt == b.checkedOutAt
            && r.(status := b.status, checkedInAt := b.checkedInAt, sessionEndsAt := b.sessionEndsAt) == b
            && out.1.libraries == s1.libraries)
  {
  }

  /** The read-order hazard of the scan as written, on a concrete store: a session that ran
      past its end is completed by the sweep (its seat returned), and the scan, still seeing
      it as checked in on the ledger copy it read earlier, completes it again and returns the
      same seat a second time. Free seats plus held seats then exceed the capacity. */
  lemma ScanAsWrittenReleasesTwice()
    ensures var lib := Library("lib", "Library", "Block", 2, 0, "9999");
      var alice := Student("Alice", "e1", "CSE", "2", "A");
      var a := Booking("1", "lib", "Library", "Block", "Alice", "e1", "CSE", "2", "A",
                       Confirmed, 0, 360000, Some(1000), None, Some(5000));
      var b := Booking("2", "lib", "Library", "Block", "Bob", "e2", "CSE", "2", "A",
                       Confirmed, 0, 360000, Some(1000), None, Some(99999));
      var st := State([lib], [a, b]);
      var out := ScanAsWritten(st, "lib", alice, 6000, 6000);
      && Valid(st)
      && out.0.CheckedOut?
      && out.1.libraries[0].availableSpots == 2
      && ActiveCount(out.1.bookings, "lib") == 1
      && !Conserved(out.1.libraries, out.1.bookings)
  {
    var lib := Library("lib", "Library", "Block", 2, 0, "9999");
    var alice := Student("Alice", "e1", "CSE", "2", "A");
    var a := Booking("1", "lib", "Library", "Block", "Alice", "e1", "CSE", "2", "A",
                     Confirmed, 0, 360000, Some(1000), None, Some(5000));
    var b := Booking("2", "lib", "Library", "Block", "Bob", "e2", "CSE", "2", "A",
                     Confirmed, 0, 360000, Some(1000), None, Some(99999));
    var st := State([lib], [a, b]);
    assert [a, b][..1] == [a];
    assert ActiveCount([a, b], "lib") == 2;
    assert IsDue(st.bookings[0], 6000);
    var s1 := Sweep(st, 6000);
    assert [a][..0] == [];
    assert DueCount([a], "lib", 6000) == 1;
    assert !IsDue(b, 6000);
    assert DueCount([a, b], "lib", 6000) == 1;
    assert s1.libraries[0].availableSpots == 1;
    assert FindActive(st.bookings, "lib", "e1") == Some(0);
    var out := ScanAsWritten(st, "lib", alice, 6000, 6000);
    var a' := a.(status := Completed, checkedOutAt := Some(6000));
    assert out.1.bookings == [a', b];
    assert [a', b][..1] == [a'];
    assert ActiveCount(out.1.bookings, "lib") == 1;
  }

  /** The same hazard in the check-in branch: the sweep expires an overdue reservation and
      returns its seat, and the check-in then writes back the ledger copy read before the
      sweep, in which that reservation is still pending and holding the seat. */
  lemma ScanAsWrittenRevivesExpired()
    ensures var lib := Library("lib", "Library", "Block", 2, 0, "9999");
      var alice := Student("Alice", "e1", "CSE", "2", "A");
      var a := Booking("1", "lib", "Library", "Block", "Alice", "e1", "CSE", "2", "A",
                       Pending, 0, 400000, None, None, None);
      var b := Booking("2", "lib", "Library", "Block", "Bob", "e2", "CSE", "2", "A",
                       Pending, 0, 1000, None, None, None);
      var st := State([lib], [a, b]);
      var out := ScanAsWritten(st, "lib", alice, 362000, 362000);
      && Valid(st)
      && out.0.CheckedIn?
      && out.1.libraries[0].availableSpots == 1
      && out.1.bookings[1] == b
      && ActiveCount(out.1.bookings, "lib") == 2
      && !Conserved(out.1.libraries, out.1.bookings)
  {
    var lib := Library("lib", "Library", "Block", 2, 0, "9999");
    var alice := Student("Alice", "e1", "CSE", "2", "A");
    var a := Booking("1", "lib", "Library", "Block", "Alice", "e1", "CSE", "2", "A",
                     Pending, 0, 400000, None, None, None);
    var b := Booking("2", "lib", "Library", "Block", "Bob", "e2", "CSE", "2", "A",
                     Pending, 0, 1000, None, None, None);
    var st := State([lib], [a, b]);
    assert [a, b][..1] == [a];
    assert [a][..0] == [];
    assert ActiveCount([a, b], "lib") == 2;
    assert IsDue(st.bookings[1], 362000);
    assert !IsDue(a, 362000);
    assert DueCount([a], "lib", 362000) == 0;
    assert DueCount([a, b], "lib", 362000) == 1;
    var s1 := Sweep(st, 362000);
    assert s1.libraries[0].availableSpots == 1;
    assert FindActive(st.bookings, "lib", "e1") == Some(0);
    var out := ScanAsWritten(st, "lib", alice, 362000, 362000);
    var a' := a.(status := Confirmed, checkedInAt := Some(362000), sessionEndsAt := Some(362000 + SESSION_MS));
    assert out.1.bookings == [a', b];
    assert [a', b][..1] == [a'];
    assert ActiveCount(out.1.bookings, "lib") == 2;
  }

  /** The corrected scan keeps the invariant, and its seat return is never capped. */
  lemma ScanPreservesValid(st: State, libraryId: string, student: Student, sweepAt: int, now: int)
    requires Valid(st)
    ensures Valid(Scan(st, libraryId, student, sweepAt, now).1)
  {
    SweepPreservesValid(st, sweepAt);
    var s1 := Sweep(st, sweepAt);
    ScanStepPreservesValid(s1, libraryId, student.erpId, now);
  }

  lemma ScanStepPreservesValid(cur: State, libraryId: string, erp: string, now: int)
    requires Valid(cur)
    ensures Valid(ScanStep(cur, cur.bookings, libraryId, erp, now).1)
  {
    var out := ScanStep(cur, cur.bookings, libraryId, erp, now);
    if !out.0.NoneFound? {
      var k := FindActive(cur.bookings, libraryId, erp).value;
      var b := out.0.booking;
      if out.0.CheckedIn? {
        SwapKeepsConserved(cur.libraries, cur.bookings, k, b);
      } else {
        ReturnSeatKeepsConsistent(cur.libraries, cur.bookings, k, b);
      }
      UpdateKeepsSingleActive(cur.bookings, k, b);
    }
  }

  /** Replacing a seat-holding entry by another one at the same library keeps conservation. */
  lemma SwapKeepsConserved(libs: seq<Library>, s: seq<Booking>, k: nat, b: Booking)
    requires Conserved(libs, s) && k < |s|
    requires IsActive(s[k]) && IsActive(b) && b.libraryId == s[k].libraryId
    ensures Conserved(libs, s[k := b])
  {
    forall i | 0 <= i < |libs|
      ensures libs[i].availableSpots + ActiveCount(s[k := b], libs[i].id) == libs[i].totalSpots
    {
      ActiveCountUpdate(s, k, b, libs[i].id);
    }
  }

  /** Closing a seat-holding entry and returning its one seat to its library keeps
      conservation and the bounds; the cap at `totalSpots` never bites. */
  lemma ReturnSeatKeepsConsistent(libs: seq<Library>, s: seq<Booking>, k: nat, b: Booking)
    requires Consistent(libs, s) && k < |s|
    requires IsActive(s[k]) && !IsActive(b) && b.libraryId == s[k].libraryId
    ensures Conserved(ReleaseSpots(libs, b.libraryId, 1), s[k := b])
    ensures Bounded(ReleaseSpots(libs, b.libraryId, 1))
  {
    var libs' := ReleaseSpots(libs, b.libraryId, 1);
    forall i | 0 <= i < |libs'|
      ensures libs'[i].availableSpots + ActiveCount(s[k := b], libs'[i].id) == libs'[i].totalSpots
      ensures 0 <= libs'[i].availableSpots <= libs'[i].totalSpots
    {
      ActiveCountUpdate(s, k, b, libs[i].id);
      if libs[i].id == b.libraryId {
        assert HoldsSeatAt(s[k], libs[i].id);
      }
    }
  }

  /** Rewriting one ledger entry for the same library and student keeps one active
      booking per student and library. */
  lemma UpdateKeepsSingleActive(s: seq<Booking>, k: nat, b: Booking)
    requires SingleActive(s) && k < |s|
    requires b.libraryId == s[k].libraryId && b.studentErp == s[k].studentErp
    requires IsActive(b) ==> IsActive(s[k])
    ensures SingleActive(s[k := b])
  {
    var t := s[k := b];
    forall i, j | 0 <= i < j < |t| && IsActive(t[i]) && IsActive(t[j])
      ensures t[i].libraryId != t[j].libraryId || t[i].studentErp != t[j].studentErp
    {
      assert IsActive(s[i]) && IsActive(s[j]);
    }
  }

  /** The scan acts on the first matching booking of the ledger; under the invariant that
      is the only one, so preferring a confirmed over a pending booking never arises. */
  lemma ScanMatchIsUnique(st: State, libraryId: string, erp: string)
    requires SingleActive(st.bookings)
    ensures FindActive(st.bookings, libraryId, erp).Some? ==>
      forall j :: 0 <= j < |st.bookings| && ActiveFor(st.bookings[j], libraryId, erp) ==>
        j == FindActive(st.bookings, libraryId, erp).value
  {
  }

  // ------------------------------------------------------ adminReleaseSeats

  function ReleaseBooking(b: Booking, now: int): Booking
  {
    b.(status := Released, checkedOutAt := Some(now))
  }

  /** Whether the admin release frees ledger entry `j`: it is one of the first `count`
      checked-in bookings at `libId`, counting in ledger order. */
  predicate ReleasedHere(s: seq<Booking>, j: nat, libId: string, count: int)
    requires j < |s|
  {
    CheckedInAt(s[j], libId) && ConfirmedCount(s[..j], libId) < count
  }

  function ReleaseConfirmed(s: seq<Booking>, libId: string, count: int, now: int): (r: seq<Booking>)
    ensures |r| == |s|
    ensures forall j :: 0 <= j < |s| && !CheckedInAt(s[j], libId) ==> r[j] == s[j]
    ensures forall j :: 0 <= j < |s| && r[j] != s[j] ==>
      && s[j].status == Confirmed && s[j].libraryId == libId
      && r[j] == s[j].(status := Released, checkedOutAt := Some(now))
  {
    seq(|s|, j requires 0 <= j < |s| =>
      if ReleasedHere(s, j, libId, count) then ReleaseBooking(s[j], now) else s[j])
  }

  /** How many seats the admin release frees. */
  function ReleasedCount(s: seq<Booking>, libId: string, count: int): (n: nat)
    ensures n <= ConfirmedCount(s, libId)
    ensures count >= 0 ==> n <= count
    ensures count <= 0 ==> n == 0
    ensures count > 0 ==> n == ConfirmedCount(s, libId) || n == count
  {
    Min(Max(count, 0), ConfirmedCount(s, libId))
  }

  /** `adminReleaseSeats`: sweep (at `sweepAt`), then release at `now`. */
  function AdminRelease(st: State, libId: string, count: int, sweepAt: int, now: int): (out: (int, State))
    ensures 0 <= out.0 <= ConfirmedCount(Sweep(st, sweepAt).bookings, libId)
    ensures count >= 0 ==> out.0 <= count
    ensures |out.1.libraries| == |st.libraries| && |out.1.bookings| == |st.bookings|
    ensures forall i :: 0 <= i < |st.libraries| ==>
      out.1.libraries[i].id == st.libraries[i].id && out.1.libraries[i].totalSpots == st.libraries[i].totalSpots
    ensures var s1 := Sweep(st, sweepAt);
      forall i :: 0 <= i < |s1.libraries| ==>
        && out.1.libraries[i].(availableSpots := s1.libraries[i].availableSpots) == s1.libraries[i]
        && (s1.libraries[i].id != libId ==> out.1.libraries[i] == s1.libraries[i])
  {
    var s1 := Sweep(st, sweepAt);
    var n := ReleasedCount(s1.bookings, libId, count);
    (n, State(ReleaseSpots(s1.libraries, libId, n), ReleaseConfirmed(s1.bookings, libId, count, now)))
  }

  lemma ConfirmedCountStep(s: seq<Booking>, i: nat, libId: string)
    requires i < |s|
    ensures ConfirmedCount(s[..i + 1], libId)
         == ConfirmedCount(s[..i], libId) + (if CheckedInAt(s[i], libId) then 1 else 0)
  {
    assert s[..i + 1][..i] == s[..i];
  }

  /** Releasing frees exactly ReleasedCount seats of `libId`, and none of any other library. */
  lemma {:induction false} ReleaseCounts(s: seq<Booking>, libId: string, count: int, now: int, x: string)
    ensures ActiveCount(ReleaseConfirmed(s, libId, count, now), x)
         == ActiveCount(s, x) - (if x == libId then ReleasedCount(s, libId, count) else 0)
  {
    if s != [] {
      var n := |s|;
      var r := ReleaseConfirmed(s, libId, count, now);
      assert s[..n][..n - 1] == s[..n - 1];
      assert r[..n - 1] == ReleaseConfirmed(s[..n - 1], libId, count, now) by {
        forall j | 0 <= j < n - 1 ensures r[j] == ReleaseConfirmed(s[..n - 1], libId, count, now)[j] {
          assert s[..j] == s[..n - 1][..j];
        }
      }
      ReleaseCounts(s[..n - 1], libId, count, now, x);
    }
  }

  /** What admin release does to the ledger: entries it releases become `released`
      with `checkedOutAt`, all others are untouched, and it reports how many it released. */
  lemma AdminReleaseEffect(st: State, libId: string, count: int, sweepAt: int, now: int)
    ensures var s1 := Sweep(st, sweepAt);
      var out := AdminRelease(st, libId, count, sweepAt, now);
      && out.0 == Min(Max(count, 0), ConfirmedCount(s1.bookings, libId))
      && out.1.libraries == ReleaseSpots(s1.libraries, libId, out.0)
      && |out.1.bookings| == |s1.bookings|
      && (forall j :: 0 <= j < |s1.bookings| ==>
            if ReleasedHere(s1.bookings, j, libId, count)
            then out.1.bookings[j] == s1.bookings[j].(status := Released, checkedOutAt := Some(now))
            else out.1.bookings[j] == s1.bookings[j])
      && ConfirmedCount(out.1.bookings, libId) == ConfirmedCount(s1.bookings, libId) - out.0
  {
    var s1 := Sweep(st, sweepAt);
    ReleaseConfirmedCount(s1.bookings, libId, count, now);
  }

  lemma {:induction false} ReleaseConfirmedCount(s: seq<Booking>, libId: string, count: int, now: int)
    ensures ConfirmedCount(ReleaseConfirmed(s, libId, count, now), libId)
         == ConfirmedCount(s, libId) - ReleasedCount(s, libId, count)
  {
    if s != [] {
      var n := |s|;
      var r := ReleaseConfirmed(s, libId, count, now);
      assert r[..n - 1] == ReleaseConfirmed(s[..n - 1], libId, count, now) by {
        forall j | 0 <= j < n - 1 ensures r[j] == ReleaseConfirmed(s[..n - 1], libId, count, now)[j] {
          assert s[..j] == s[..n - 1][..j];
        }
      }
      ReleaseConfirmedCount(s[..n - 1], libId, count, now);
    }
  }

  /** Admin release keeps the invariant; its cap at `totalSpots` never bites. */
  lemma AdminReleasePreservesValid(st: State, libId: string, count: int, sweepAt: int, now: int)
    requires Valid(st)
    ensures Valid(AdminRelease(st, libId, count, sweepAt, now).1)
    ensures var s1 := Sweep(st, sweepAt);
      var out := AdminRelease(st, libId, count, sweepAt, now);
      forall i :: 0 <= i < |s1.libraries| ==>
        out.1.libraries[i] == s1.libraries[i].(availableSpots :=
          s1.libraries[i].availableSpots + (if s1.libraries[i].id == libId then out.0 else 0))
  {
    SweepPreservesValid(st, sweepAt);
    var s1 := Sweep(st, sweepAt);
    var out := AdminRelease(st, libId, count, sweepAt, now);
    var libs := out.1.libraries;
    forall i | 0 <= i < |libs|
      ensures libs[i].availableSpots + ActiveCount(out.1.bookings, libs[i].id) == libs[i].totalSpots
      ensures 0 <= libs[i].availableSpots <= libs[i].totalSpots
      ensures libs[i] == s1.libraries[i].(availableSpots :=
        s1.libraries[i].availableSpots + (if s1.libraries[i].id == libId then out.0 else 0))
    {
      ReleaseCounts(s1.bookings, libId, count, now, libs[i].id);
      ConfirmedWithinActive(s1.bookings, libId);
    }
    assert SingleActive(out.1.bookings) by {
      var r := out.1.bookings;
      forall i, j | 0 <= i < j < |r| && IsActive(r[i]) && IsActive(r[j])
        ensures r[i].libraryId != r[j].libraryId || r[i].studentErp != r[j].studentErp
      {
        assert IsActive(s1.bookings[i]) && IsActive(s1.bookings[j]);
      }
    }
  }
}
