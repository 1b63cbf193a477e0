// The persisted store and the engine's operations as read-modify-write
// steps over it (src/data/storage.js). Each storage read or write is a
// plain field access; each operation is proved to leave the store exactly
// as the matching function of module Engine says.

module Storage {
  import opened Types
  import opened Ledger
  import opened Engine

  /** `deltas[id] || 0`. */
  function Lookup(m: map<string, int>, id: string): int
  {
    if id in m then m[id] else 0
  }

  /** One step of the tally: counting a due booking in `deltas` keeps it equal, library
      by library, to the due count of the scanned prefix. */
  lemma TallyStep(before: map<string, int>, after: map<string, int>, s: seq<Booking>, i: nat, now: int)
    requires i < |s|
    requires forall id :: Lookup(before, id) == DueCount(s[..i], id, now)
    requires IsDue(s[i], now) ==> after == before[s[i].libraryId := Lookup(before, s[i].libraryId) + 1]
    requires !IsDue(s[i], now) ==> after == before
    ensures forall id :: Lookup(after, id) == DueCount(s[..i + 1], id, now)
  {
    forall id ensures Lookup(after, id) == DueCount(s[..i + 1], id, now) {
      DueCountStep(s, i, id, now);
    }
  }

  /** The roster update of `runExpiryCheck`, each library's count raised by its tally and
      capped at the capacity. */
  function ApplyTally(roster: seq<Library>, deltas: map<string, int>): (r: seq<Library>)
    ensures |r| == |roster|
    ensures forall j :: 0 <= j < |roster| ==>
      && r[j].(availableSpots := roster[j].availableSpots) == roster[j]
      && r[j].availableSpots <= roster[j].totalSpots
      && r[j].availableSpots <= roster[j].availableSpots + Lookup(deltas, roster[j].id)
      && (r[j].availableSpots == roster[j].availableSpots + Lookup(deltas, roster[j].id)
          || r[j].availableSpots == roster[j].totalSpots)
    ensures forall j :: 0 <= j < |roster| && Lookup(deltas, roster[j].id) >= 0 && roster[j].availableSpots <= roster[j].totalSpots ==>
      roster[j].availableSpots <= r[j].availableSpots
  {
    seq(|roster|, j requires 0 <= j < |roster| =>
      roster[j].(availableSpots := Min(roster[j].totalSpots, roster[j].availableSpots + Lookup(deltas, roster[j].id))))
  }

  /** A completed tally gives the sweep's state: the rewritten roster and ledger when some
      booking was due, the stored ones otherwise. */
  lemma TallyIsSweep(st: State, updated: seq<Booking>, deltas: map<string, int>, changed: bool, now: int)
    requires |updated| == |st.bookings|
    requires forall k :: 0 <= k < |updated| ==> updated[k] == Expire(st.bookings[k], now)
    requires forall id :: Lookup(deltas, id) == DueCount(st.bookings, id, now)
    requires changed <==> AnyDue(st.bookings, now)
    ensures changed ==> Sweep(st, now) == State(ApplyTally(st.libraries, deltas), updated)
    ensures !changed ==> Sweep(st, now) == st
  {
    if changed {
      assert updated == ExpireAll(st.bookings, now);
      assert ApplyTally(st.libraries, deltas) == Restore(st.libraries, st.bookings, now);
    }
  }

  /** The pass of `runExpiryCheck` over the ledger: each booking mapped through the expiry
      rule, a per-library count of due bookings, and a `changed` flag. */
  method Tally(ledger: seq<Booking>, now: int) returns (updated: seq<Booking>, deltas: map<string, int>, changed: bool)
    ensures |updated| == |ledger|
    ensures forall k :: 0 <= k < |ledger| ==> updated[k] == Expire(ledger[k], now)
    ensures forall id :: Lookup(deltas, id) == DueCount(ledger, id, now)
    ensures changed <==> AnyDue(ledger, now)
  {
    updated, deltas, changed := [], map[], false;
    var i := 0;
    while i < |ledger|
      invariant 0 <= i <= |ledger|
      invariant |updated| == i
      invariant forall k :: 0 <= k < i ==> updated[k] == Expire(ledger[k], now)
      invariant forall id :: Lookup(deltas, id) == DueCount(ledger[..i], id, now)
      invariant changed <==> AnyDue(ledger[..i], now)
    {
      var b := ledger[i];
      ghost var before := deltas;
      AnyDueStep(ledger, i, now);
      if b.status == Pending && b.expiresAt < now {
        changed := true;
        deltas := deltas[b.libraryId := Lookup(deltas, b.libraryId) + 1];
        updated := updated + [b.(status := Expired)];
      } else if b.status == Confirmed && b.sessionEndsAt.Some? && b.sessionEndsAt.value < now {
        changed := true;
        deltas := deltas[b.libraryId := Lookup(deltas, b.libraryId) + 1];
        updated := updated + [b.(status := Completed, checkedOutAt := Some(now))];
      } else {
        updated := updated + [b];
      }
      TallyStep(before, deltas, ledger, i, now);
      i := i + 1;
    }
    assert ledger[..i] == ledger;
  }

  /** One step of the release pass: the `released < count` test picks exactly the entries
      the admin release frees, and the counter keeps pace with the checked-in prefix. */
  lemma ReleaseStep(s: seq<Booking>, i: nat, libId: string, count: int, released: int)
    requires i < |s|
    requires released == Min(Max(count, 0), ConfirmedCount(s[..i], libId))
    ensures (released < count && s[i].libraryId == libId && s[i].status == Confirmed) <==> ReleasedHere(s, i, libId, count)
    ensures Min(Max(count, 0), ConfirmedCount(s[..i + 1], libId))
         == released + (if ReleasedHere(s, i, libId, count) then 1 else 0)
  {
    ConfirmedCountStep(s, i, libId);
  }

  /** The pass of `adminReleaseSeats` over the ledger: checked-in bookings of the library
      are released, in ledger order, while the `released` counter is below `count`. */
  method ReleasePass(ledger: seq<Booking>, libraryId: string, count: int, now: int)
    returns (updated: seq<Booking>, released: int)
    ensures updated == ReleaseConfirmed(ledger, libraryId, count, now)
    ensures released == ReleasedCount(ledger, libraryId, count)
  {
    ghost var want := ReleaseConfirmed(ledger, libraryId, count, now);
    released := 0;
    updated := [];
    var i := 0;
    while i < |ledger|
      invariant 0 <= i <= |ledger|
      invariant updated == want[..i]
      invariant released == Min(Max(count, 0), ConfirmedCount(ledger[..i], libraryId))
    {
      var b := ledger[i];
      ReleaseStep(ledger, i, libraryId, count, released);
      if released < count && b.libraryId == libraryId && b.status == Confirmed {
        released := released + 1;
        updated := updated + [b.(status := Released, checkedOutAt := Some(now))];
      } else {
        updated := updated + [b];
      }
      assert want[..i + 1] == want[..i] + [want[i]];
      i := i + 1;
    }
    assert ledger[..i] == ledger;
    assert want[..i] == want;
  }

  class Store {
    var libraries: seq<Library>
    var bookings: seq<Booking>

    function Snapshot(): State
      reads this
    {
      State(libraries, bookings)
    }

    /** First run: the roster is the seed list and the ledger is empty. */
    constructor ()
      ensures libraries == LIBRARIES && bookings == []
      ensures Valid(Snapshot())
    {
      libraries := LIBRARIES;
      bookings := [];
    }

    method SaveLibraries(libs: seq<Library>)
      modifies this
      ensures libraries == libs && bookings == old(bookings)
    {
      libraries := libs;
    }

    /** `runExpiryCheck`: the roster and the ledger are written only if some booking was due. */
    method RunExpiryCheck(now: int) returns (libs: seq<Library>)
      modifies this
      ensures Snapshot() == Sweep(old(Snapshot()), now)
      ensures libs == libraries
    {
      ghost var st := Snapshot();
      var updated, deltas, changed := Tally(bookings, now);
      TallyIsSweep(st, updated, deltas, changed, now);
      libs := libraries;
      if changed {
        libs := ApplyTally(libs, deltas);
        bookings := updated;
        libraries := libs;
      }
    }

    /** `getLibraries`: every roster read first runs the expiry sweep. */
    method GetLibraries(now: int) returns (libs: seq<Library>)
      modifies this
      ensures Snapshot() == Sweep(old(Snapshot()), now)
      ensures libs == libraries
      ensures Valid(old(Snapshot())) ==> Valid(Snapshot())
    {
      ghost var st := Snapshot();
      libs := RunExpiryCheck(now);
      if Valid(st) {
        SweepPreservesValid(st, now);
      }
    }

    /** `bookSeat`: roster read (with its sweep), then ledger read, then both written. */
    method BookSeat(library: Library, student: Student, id: string, sweepAt: int, now: int) returns (r: BookResult)
      modifies this
      ensures (r, Snapshot()) == Book(old(Snapshot()), library, student, id, sweepAt, now)
      ensures Valid(old(Snapshot())) ==> Valid(Snapshot())
    {
      ghost var st := Snapshot();
      if Valid(st) {
        BookPreservesValid(st, library, student, id, sweepAt, now);
      }
      var libs := GetLibraries(sweepAt);
      var ledger := bookings;
      var k := FindLibrary(libs, library.id);
      if k.None? || libs[k.value].availableSpots <= 0 {
        return NoSeats;
      }
      if FindActive(ledger, library.id, student.erpId).Some? {
        return AlreadyActive;
      }
      var booking := NewBooking(id, library, student, now);
      libraries := TakeSpot(libs, library.id);
      bookings := [booking] + ledger;
      r := Booked(booking);
    }

    /** The part of `handleQRScan` after its two reads: act on the first seat-holding
        booking of `ledger`, returning any seat to `libs`, the roster the store holds. */
    method ScanLedger(libs: seq<Library>, ledger: seq<Booking>, libraryId: string, erp: string, now: int)
      returns (r: ScanResult)
      requires libs == libraries
      modifies this
      ensures (r, Snapshot()) == ScanStep(old(Snapshot()), ledger, libraryId, erp, now)
    {
      var found := FindActive(ledger, libraryId, erp);
      if found.Some? && ledger[found.value].status == Confirmed {
        var idx := found.value;
        var b := ledger[idx].(status := Completed, checkedOutAt := Some(now));
        bookings := ledger[idx := b];
        libraries := ReleaseSpots(libs, libraryId, 1);
        return CheckedOut(b);
      }
      if found.Some? && ledger[found.value].status == Pending {
        var idx := found.value;
        if ledger[idx].expiresAt < now {
          var b := ledger[idx].(status := Expired);
          bookings := ledger[idx := b];
          libraries := ReleaseSpots(libs, libraryId, 1);
          return ReservationExpired(b);
        }
        var b := ledger[idx].(status := Confirmed, checkedInAt := Some(now), sessionEndsAt := Some(now + SESSION_MS));
        bookings := ledger[idx := b];
        return CheckedIn(b);
      }
      r := NoneFound;
    }

    /** `handleQRScan` in the source's order: the ledger is read before the roster read
        that runs the sweep, so the scan may act on entries the sweep has just closed and
        then overwrite the sweep's ledger. */
    method HandleQRScanAsWritten(libraryId: string, student: Student, sweepAt: int, now: int) returns (r: ScanResult)
      modifies this
      ensures (r, Snapshot()) == ScanAsWritten(old(Snapshot()), libraryId, student, sweepAt, now)
    {
      var ledger := bookings;
      var libs := GetLibraries(sweepAt);
      r := ScanLedger(libs, ledger, libraryId, student.erpId, now);
    }

    /** `handleQRScan` with the reads in the safe order: roster (and sweep), then ledger. */
    method HandleQRScan(libraryId: string, student: Student, sweepAt: int, now: int) returns (r: ScanResult)
      modifies this
      ensures (r, Snapshot()) == Scan(old(Snapshot()), libraryId, student, sweepAt, now)
      ensures Valid(old(Snapshot())) ==> Valid(Snapshot())
    {
      ghost var st := Snapshot();
      if Valid(st) {
        ScanPreservesValid(st, libraryId, student, sweepAt, now);
      }
      var libs := GetLibraries(sweepAt);
      var ledger := bookings;
      r := ScanLedger(libs, ledger, libraryId, student.erpId, now);
    }

    /** `adminReleaseSeats`: a pass over the ledger releases checked-in bookings of the
        library while the `released` counter is below `count`. */
    method AdminReleaseSeats(libraryId: string, count: int, sweepAt: int, now: int) returns (released: int)
      modifies this
      ensures (released, Snapshot()) == AdminRelease(old(Snapshot()), libraryId, count, sweepAt, now)
      ensures Valid(old(Snapshot())) ==> Valid(Snapshot())
    {
      ghost var st := Snapshot();
      if Valid(st) {
        AdminReleasePreservesValid(st, libraryId, count, sweepAt, now);
      }
      var libs := GetLibraries(sweepAt);
      var updated, n := ReleasePass(bookings, libraryId, count, now);
      bookings := updated;
      released := n;
      libraries := ReleaseSpots(libs, libraryId, n);
    }
  }
}
