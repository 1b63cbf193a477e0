// Counting over the booking ledger, and the consistency the engine keeps
// between the roster's seat counts and the ledger.

module Ledger {
  import opened Types

  /** A booking at `libId` that holds one of its seats. */
  predicate HoldsSeatAt(b: Booking, libId: string)
  {
    b.libraryId == libId && IsActive(b)
  }

  /** A booking at `libId` whose student is checked in. */
  predicate CheckedInAt(b: Booking, libId: string)
  {
    b.libraryId == libId && b.status == Confirmed
  }

  /** Number of seats of `libId` held by the ledger. */
  function ActiveCount(s: seq<Booking>, libId: string): (n: nat)
    ensures n <= |s|
  {
    if s == [] then 0
    else ActiveCount(s[..|s| - 1], libId) + (if HoldsSeatAt(s[|s| - 1], libId) then 1 else 0)
  }

  /** Number of students checked in at `libId`. */
  function ConfirmedCount(s: seq<Booking>, libId: string): (n: nat)
    ensures n <= |s|
  {
    if s == [] then 0
    else ConfirmedCount(s[..|s| - 1], libId) + (if CheckedInAt(s[|s| - 1], libId) then 1 else 0)
  }

  /** Every checked-in student holds a seat. */
  lemma {:induction false} ConfirmedWithinActive(s: seq<Booking>, libId: string)
    ensures ConfirmedCount(s, libId) <= ActiveCount(s, libId)
  {
    if s != [] {
      ConfirmedWithinActive(s[..|s| - 1], libId);
    }
  }

  /** Putting a booking at the head of the ledger (`unshift`) adds its seat, if it holds one. */
  lemma {:induction false} ActiveCountPrepend(b: Booking, s: seq<Booking>, libId: string)
    ensures ActiveCount([b] + s, libId) == ActiveCount(s, libId) + (if HoldsSeatAt(b, libId) then 1 else 0)
  {
    if s == [] {
      assert ([b] + s)[..0] == [];
    } else {
      assert ([b] + s)[..|s|] == [b] + s[..|s| - 1];
      ActiveCountPrepend(b, s[..|s| - 1], libId);
    }
  }

  /** Overwriting one ledger entry changes the count by that entry's contribution only. */
  lemma {:induction false} ActiveCountUpdate(s: seq<Booking>, i: nat, b: Booking, libId: string)
    requires i < |s|
    ensures ActiveCount(s[i := b], libId)
         == ActiveCount(s, libId)
            - (if HoldsSeatAt(s[i], libId) then 1 else 0)
            + (if HoldsSeatAt(b, libId) then 1 else 0)
  {
    var n := |s|;
    if i == n - 1 {
      assert s[i := b][..n - 1] == s[..n - 1];
    } else {
      assert s[i := b][..n - 1] == s[..n - 1][i := b];
      ActiveCountUpdate(s[..n - 1], i, b, libId);
    }
  }

  /** Library ids identify one roster entry each. */
  predicate UniqueIds(libs: seq<Library>)
  {
    forall i, j :: 0 <= i < j < |libs| ==> libs[i].id != libs[j].id
  }

  /** Every seat count lies in `[0, totalSpots]`. */
  predicate Bounded(libs: seq<Library>)
  {
    forall i :: 0 <= i < |libs| ==> 0 <= libs[i].availableSpots <= libs[i].totalSpots
  }

  /** Conservation: free seats plus seats held by the ledger make up the capacity. */
  predicate Conserved(libs: seq<Library>, bookings: seq<Booking>)
  {
    forall i :: 0 <= i < |libs| ==>
      libs[i].availableSpots + ActiveCount(bookings, libs[i].id) == libs[i].totalSpots
  }

  /** A student holds at most one seat-holding booking per library. */
  predicate SingleActive(bookings: seq<Booking>)
  {
    forall i, j :: 0 <= i < j < |bookings| && IsActive(bookings[i]) && IsActive(bookings[j]) ==>
      bookings[i].libraryId != bookings[j].libraryId || bookings[i].studentErp != bookings[j].studentErp
  }

  predicate Consistent(libs: seq<Library>, bookings: seq<Booking>)
  {
    UniqueIds(libs) && Bounded(libs) && Conserved(libs, bookings) && SingleActive(bookings)
  }
}
