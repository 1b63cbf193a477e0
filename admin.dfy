// The admin screen's logic (src/screens/AdminScreen.js): PIN entry and
// login scope, the manual seat adjustment, reset to full capacity, and the
// release buttons that call the engine's admin release.

module Admin {
  import opened Types
  import opened Ledger
  import opened Engine
  import opened Storage

  /** The master credential, which sees every library. */
  const MASTER_PIN: string := "1234"

  const PIN_ERROR: string := "Incorrect PIN. Try again."

  // ------------------------------------------------------------- PIN entry

  /** A key of the on-screen keypad: a digit, the blank cell, or backspace. */
  datatype Key = Digit(d: char) | Blank | Backspace

  /** The PIN buffer and error message after one key press. */
  function Keypad(pin: string, error: string, key: Key): (r: (string, string))
    ensures |pin| <= 4 ==> |r.0| <= 4
    ensures key.Blank? ==> r == (pin, error)
    ensures key.Backspace? ==> r.1 == "" && (if pin == [] then r.0 == [] else r.0 + [pin[|pin| - 1]] == pin)
    ensures key.Digit? ==> r.1 == error && r.0 == (if |pin| < 4 then pin + [key.d] else pin)
  {
    match key
    case Blank => (pin, error)
    case Backspace => (if pin == [] then [] else pin[..|pin| - 1], "")
    case Digit(d) => (if |pin| < 4 then pin + [d] else pin, error)
  }

  // ---------------------------------------------------------------- login

  /** Who a PIN logs in: the master admin, one library's admin, or nobody. */
  datatype Login = MasterAdmin | LibraryAdmin(libId: string) | Rejected

  /** `libs.find(l => l.adminPin === pin)`, as the index of the first match. */
  function FindPin(libs: seq<Library>, pin: string): (r: Option<nat>)
    ensures r.Some? ==> r.value < |libs| && libs[r.value].adminPin == pin
    ensures r.Some? ==> forall k :: 0 <= k < r.value ==> libs[k].adminPin != pin
    ensures r.None? ==> forall k :: 0 <= k < |libs| ==> libs[k].adminPin != pin
  {
    if libs == [] then None
    else if libs[0].adminPin == pin then Some(0)
    else match FindPin(libs[1..], pin)
      case None => None
      case Some(k) => Some(k + 1)
  }

  /** `handleLogin`'s decision: the master PIN first, then the first library whose PIN matches. */
  function ResolvePin(libs: seq<Library>, pin: string): (r: Login)
    ensures r == MasterAdmin <==> pin == MASTER_PIN
    ensures r.LibraryAdmin? ==>
      exists k :: 0 <= k < |libs| && libs[k].adminPin == pin && libs[k].id == r.libId &&
        forall j :: 0 <= j < k ==> libs[j].adminPin != pin
    ensures r == Rejected <==> pin != MASTER_PIN && forall k :: 0 <= k < |libs| ==> libs[k].adminPin != pin
  {
    if pin == MASTER_PIN then MasterAdmin
    else match FindPin(libs, pin)
      case None => Rejected
      case Some(k) => LibraryAdmin(libs[k].id)
  }

  /** With the seed roster a library PIN logs in that library's admin. */
  lemma SeedPins()
    ensures ResolvePin(LIBRARIES, "2222") == LibraryAdmin("gehu-law")
  {
    assert LIBRARIES[0].adminPin != "2222";
    assert LIBRARIES[1..][0].adminPin == "2222";
  }

  // --------------------------------------------------------- visible roster

  /** `libs.filter(l => l.id === id)`. */
  function FilterById(libs: seq<Library>, id: string): (r: seq<Library>)
    ensures forall l :: l in r <==> l in libs && l.id == id
    ensures |r| <= |libs|
    ensures (forall k :: 0 <= k < |libs| ==> libs[k].id != id) ==> r == []
  {
    if libs == [] then []
    else (if libs[0].id == id then [libs[0]] else []) + FilterById(libs[1..], id)
  }

  /** `visibleLibs`: the scoped library when a scope is set (a non-empty id), else the whole roster. */
  function VisibleLibs(libraries: seq<Library>, adminLib: Option<string>): (r: seq<Library>)
    ensures adminLib.None? || adminLib == Some("") ==> r == libraries
    ensures adminLib.Some? && adminLib.value != "" ==>
      forall l :: l in r <==> l in libraries && l.id == adminLib.value
  {
    if adminLib.Some? && adminLib.value != "" then FilterById(libraries, adminLib.value) else libraries
  }

  /** With ids unique, a library admin sees exactly their own library. */
  lemma {:induction false} ScopedViewIsOneLibrary(libs: seq<Library>, k: nat)
    requires UniqueIds(libs) && k < |libs|
    ensures FilterById(libs, libs[k].id) == [libs[k]]
  {
    if k == 0 {
      var rest := libs[1..];
      forall j | 0 <= j < |rest| ensures rest[j].id != libs[0].id {
        assert rest[j] == libs[j + 1];
      }
    } else {
      assert libs[0].id != libs[k].id;
      assert UniqueIds(libs[1..]) by {
        forall i, j | 0 <= i < j < |libs[1..]| ensures libs[1..][i].id != libs[1..][j].id {
          assert libs[1..][i] == libs[i + 1] && libs[1..][j] == libs[j + 1];
        }
      }
      assert libs[1..][k - 1] == libs[k];
      ScopedViewIsOneLibrary(libs[1..], k - 1);
    }
  }

  // ------------------------------------------------- manual seat adjustment

  /** `updateSpots`' clamp: the adjusted count, kept within `[0, totalSpots]`. */
  function ClampSpots(l: Library, delta: int): (n: int)
    ensures n >= 0
    ensures l.totalSpots >= 0 ==> n <= l.totalSpots
    ensures 0 <= l.availableSpots + delta <= l.totalSpots ==> n == l.availableSpots + delta
    ensures l.availableSpots + delta > l.totalSpots ==> n == Max(0, l.totalSpots)
    ensures l.availableSpots + delta < 0 ==> n == 0
  {
    Max(0, Min(l.totalSpots, l.availableSpots + delta))
  }

  function AdjustSpots(libs: seq<Library>, libId: string, delta: int): (r: seq<Library>)
    ensures |r| == |libs|
    ensures forall i :: 0 <= i < |libs| && libs[i].id == libId ==>
      r[i] == libs[i].(availableSpots := ClampSpots(libs[i], delta))
    ensures forall i :: 0 <= i < |libs| && libs[i].id != libId ==> r[i] == libs[i]
  {
    seq(|libs|, i requires 0 <= i < |libs| =>
      if libs[i].id == libId then libs[i].(availableSpots := ClampSpots(libs[i], delta)) else libs[i])
  }

  /** Reset to full: the library's count becomes its capacity. */
  function ResetSpots(libs: seq<Library>, libId: string): (r: seq<Library>)
    ensures |r| == |libs|
    ensures forall i :: 0 <= i < |libs| && libs[i].id == libId ==>
      r[i].availableSpots == r[i].totalSpots == libs[i].totalSpots && r[i].id == libs[i].id
    ensures forall i :: 0 <= i < |libs| && libs[i].id != libId ==> r[i] == libs[i]
    ensures forall i :: 0 <= i < |libs| ==> r[i].(availableSpots := libs[i].availableSpots) == libs[i]
    ensures Bounded(libs) ==> Bounded(r)
  {
    seq(|libs|, i requires 0 <= i < |libs| =>
      if libs[i].id == libId then libs[i].(availableSpots := libs[i].totalSpots) else libs[i])
  }

  /** The clamp keeps every count in range and touches no other library. */
  lemma AdjustKeepsBounds(libs: seq<Library>, libId: string, delta: int)
    requires forall i :: 0 <= i < |libs| ==> libs[i].totalSpots >= 0
    ensures forall i :: 0 <= i < |libs| && libs[i].id == libId ==>
      var r := AdjustSpots(libs, libId, delta)[i];
      var n := r.availableSpots;
      && 0 <= n <= libs[i].totalSpots
      && (0 <= libs[i].availableSpots + delta <= libs[i].totalSpots ==> n == libs[i].availableSpots + delta)
      && (libs[i].availableSpots + delta > libs[i].totalSpots ==> n == libs[i].totalSpots)
      && (libs[i].availableSpots + delta < 0 ==> n == 0)
      && r.id == libs[i].id && r.totalSpots == libs[i].totalSpots
    ensures forall i :: 0 <= i < |libs| && libs[i].id != libId ==> AdjustSpots(libs, libId, delta)[i] == libs[i]
    ensures Bounded(libs) ==> Bounded(AdjustSpots(libs, libId, delta))
  {
  }

  /** The manual adjustment writes the roster without the ledger: it keeps conservation
      exactly when the clamped count equals the old one, i.e. when it does nothing. */
  lemma AdjustBreaksConservation(libs: seq<Library>, bookings: seq<Booking>, k: nat, delta: int)
    requires UniqueIds(libs) && k < |libs| && Conserved(libs, bookings)
    ensures Conserved(AdjustSpots(libs, libs[k].id, delta), bookings)
        <==> ClampSpots(libs[k], delta) == libs[k].availableSpots
  {
    var r := AdjustSpots(libs, libs[k].id, delta);
    if Conserved(r, bookings) {
      assert r[k].availableSpots + ActiveCount(bookings, libs[k].id) == libs[k].totalSpots;
    }
    if ClampSpots(libs[k], delta) == libs[k].availableSpots {
      forall i | 0 <= i < |libs| ensures r[i] == libs[i] {
        if i < k {
          assert libs[i].id != libs[k].id;
        } else if i > k {
          assert libs[k].id != libs[i].id;
        }
      }
      assert r == libs;
    }
  }

  /** Reset to full keeps conservation exactly when no booking holds a seat of that library. */
  lemma ResetBreaksConservation(libs: seq<Library>, bookings: seq<Booking>, k: nat)
    requires k < |libs| && Conserved(libs, bookings)
    ensures Conserved(ResetSpots(libs, libs[k].id), bookings) <==> ActiveCount(bookings, libs[k].id) == 0
  {
    var r := ResetSpots(libs, libs[k].id);
    if Conserved(r, bookings) {
      assert r[k].availableSpots + ActiveCount(bookings, libs[k].id) == libs[k].totalSpots;
    }
  }

  // -------------------------------------------------------------- the screen

  /** The choices of the release dialog. */
  datatype ReleaseChoice = Cancel | ReleaseOne | ReleaseAll

  class AdminScreen {
    const store: Store
    var pin: string
    var loggedIn: bool
    var adminLib: Option<string>
    var libraries: seq<Library>
    var bookings: seq<Booking>
    var error: string

    constructor (store: Store)
      ensures this.store == store
      ensures pin == "" && !loggedIn && adminLib == None && libraries == [] && bookings == [] && error == ""
    {
      this.store := store;
      pin := "";
      loggedIn := false;
      adminLib := None;
      libraries := [];
      bookings := [];
      error := "";
    }

    /** A key press on the PIN pad. */
    method Press(key: Key)
      modifies this`pin, this`error
      ensures (pin, error) == Keypad(old(pin), old(error), key)
    {
      match key {
        case Blank =>
        case Backspace =>
          pin := if pin == [] then [] else pin[..|pin| - 1];
          error := "";
        case Digit(d) =>
          if |pin| < 4 {
            pin := pin + [d];
          }
      }
    }

    /** `handleLogin`: read the roster (running the sweep), then resolve the PIN. */
    method HandleLogin(sweepAt: int)
      modifies this`libraries, this`adminLib, this`loggedIn, this`error, this`pin, store
      ensures store.Snapshot() == Sweep(old(store.Snapshot()), sweepAt)
      ensures match ResolvePin(store.libraries, old(pin))
        case MasterAdmin =>
          loggedIn && adminLib == None && libraries == store.libraries && error == "" && pin == old(pin)
        case LibraryAdmin(id) =>
          loggedIn && adminLib == Some(id) && libraries == store.libraries && error == "" && pin == old(pin)
        case Rejected =>
          error == PIN_ERROR && pin == "" && loggedIn == old(loggedIn)
          && adminLib == old(adminLib) && libraries == old(libraries)
    {
      var libs := store.GetLibraries(sweepAt);
      if pin == MASTER_PIN {
        libraries := libs;
        adminLib := None;
        loggedIn := true;
        error := "";
        return;
      }
      var matched := FindPin(libs, pin);
      if matched.Some? {
        libraries := libs;
        adminLib := Some(libs[matched.value].id);
        loggedIn := true;
        error := "";
      } else {
        error := PIN_ERROR;
        pin := "";
      }
    }

    /** On focus a logged-in screen reloads the roster (sweeping at `now`) and the ledger. */
    method Focus(now: int)
      modifies this`libraries, this`bookings, store
      ensures !old(loggedIn) ==> store.Snapshot() == old(store.Snapshot()) && libraries == old(libraries) && bookings == old(bookings)
      ensures old(loggedIn) ==>
        store.Snapshot() == Sweep(old(store.Snapshot()), now) && libraries == store.libraries && bookings == store.bookings
    {
      if loggedIn {
        libraries := store.GetLibraries(now);
        bookings := store.bookings;
      }
    }

    method Logout()
      modifies this`loggedIn, this`pin, this`adminLib
      ensures !loggedIn && pin == "" && adminLib == None
    {
      loggedIn := false;
      pin := "";
      adminLib := None;
    }

    /** The "−" and "+" buttons: clamp the count, write the roster only. */
    method UpdateSpots(libId: string, delta: int, sweepAt: int)
      modifies this`libraries, store
      ensures var swept := Sweep(old(store.Snapshot()), sweepAt);
        && store.libraries == AdjustSpots(swept.libraries, libId, delta)
        && store.bookings == swept.bookings
        && libraries == store.libraries
    {
      var libs := store.GetLibraries(sweepAt);
      var updated := AdjustSpots(libs, libId, delta);
      store.SaveLibraries(updated);
      libraries := updated;
    }

    /** "Reset to Full Capacity": the count becomes the capacity; the ledger is untouched. */
    method ResetToFull(libId: string, sweepAt: int)
      modifies this`libraries, store
      ensures var swept := Sweep(old(store.Snapshot()), sweepAt);
        && store.libraries == ResetSpots(swept.libraries, libId)
        && store.bookings == swept.bookings
        && libraries == store.libraries
    {
      var libs := store.GetLibraries(sweepAt);
      var updated := ResetSpots(libs, libId);
      store.SaveLibraries(updated);
      libraries := updated;
    }

    /** "Release Seats": with nobody checked in (by the screen's copy of the ledger) only an
        alert shows; otherwise "Release 1" asks for one seat and "Release All" for as many as
        the screen counts, and the screen then reloads the roster (sweeping at `reloadAt`, the
        clock read after the release) and the ledger. */
    method ReleaseSeats(libId: string, choice: ReleaseChoice, sweepAt: int, now: int, reloadAt: int)
      modifies this`libraries, this`bookings, store
      ensures var shown := ConfirmedCount(old(bookings), libId);
        if shown == 0 || choice == Cancel then
          store.Snapshot() == old(store.Snapshot()) && libraries == old(libraries) && bookings == old(bookings)
        else
          var count := if choice == ReleaseOne then 1 else shown;
          && store.Snapshot() == Sweep(AdminRelease(old(store.Snapshot()), libId, count, sweepAt, now).1, reloadAt)
          && libraries == store.libraries && bookings == store.bookings
    {
      var shown := ConfirmedCount(bookings, libId);
      if shown == 0 || choice == Cancel {
        return;
      }
      var count := if choice == ReleaseOne then 1 else shown;
      var _ := store.AdminReleaseSeats(libId, count, sweepAt, now);
      libraries := store.GetLibraries(reloadAt);
      bookings := store.bookings;
    }
  }
}
