# Library seat reservation: seat inventory and booking lifecycle

A Dafny model of the seat-inventory and booking engine of a campus library
seat-reservation app. The app keeps two persisted documents. The **roster**
lists libraries, each with `totalSpots` and `availableSpots`. The **ledger**
lists bookings, newest first. A student books a seat, and the booking is
`pending`. Scanning the library's entrance code within 6 minutes checks the
student in, and the booking becomes `confirmed` with a 4-hour session.
Scanning again checks the student out (`completed`). An overdue reservation
becomes `expired`. An overrun session is completed. An admin may force
checked-in bookings to `released`. The expiry sweep runs inside every roster
read. The admin screen adds PIN login with a library scope, a clamped manual
seat adjustment, reset to full capacity, and release buttons.

The central property is **conservation**. For every library,
`availableSpots` plus the number of its `pending`/`confirmed` bookings equals
`totalSpots`. `Ledger.Consistent` states it together with unique library ids,
bounds `0 <= availableSpots <= totalSpots`, and at most one seat-holding
booking per student and library. Every engine operation is proved to keep it.
The proofs also show that the `Math.min` caps on returned seats never fire.
The scan as the source writes it breaks conservation (see Findings). So do
the admin screen's manual adjustment and reset, which write the roster
without the ledger.

Layout:
- `types.dfy` (`Types`): the records, the constants `RESERVE_MINUTES`,
  `SESSION_HOURS` and the seed roster `LIBRARIES`.
- `ledger.dfy` (`Ledger`): seat counts over the ledger and the consistency
  predicate.
- `engine.dfy` (`Engine`): every operation as a function of the persisted
  `State`, with the invariant proofs.
- `storage.dfy` (`Storage`): the store as a class with the two documents as
  fields. It has the source's read-modify-write methods and loops, each
  proved equal to its `Engine` function.
- `countdown.dfy` (`Countdown`): `getSecondsLeft` and `formatCountdown`.
- `admin.dfy` (`Admin`): the admin screen's logic and its state as a class.

Modelling choices:
- Timestamps are integer milliseconds, and `null` is `None`. The clock is a
  parameter. An operation reads the clock twice: once in the sweep that its
  roster read runs (`sweepAt`), and once for its own stamps (`now`). This is
  why a scan can still find a reservation that is past its deadline.
- Each `await` read or write of a document is a plain read or assignment of a
  `Store` field. A roster read that finds nothing stored returns the seed
  roster. The model seeds the store in its constructor instead. Both give the
  same result for every read.
- A booking id (`Date.now()` in the source) is a parameter.
- When a student has several seat-holding bookings at one library, one might
  expect a scan to give the `confirmed` one priority. The source's
  `findIndex` takes the first one in ledger order, which is the newest. The
  model follows the source. `Engine.ScanMatchIsUnique` shows the choice never matters while the
  invariant holds, because the duplicate guard allows only one such booking.

## Model

| member | source | states |
|---|---|---|
| Ledger.ActiveCount | src/data/storage.js:74-78 | the number of bookings at a library that hold a seat, at most the ledger's length |
| Ledger.ConfirmedCount | src/screens/AdminScreen.js:210 | the number of checked-in (confirmed) bookings at a library, at most the ledger's length; the screen's "Release All" count and the bound on what a release frees |
| Ledger.ConfirmedWithinActive | src/data/storage.js:11-16 | checked-in bookings are among the seat-holding ones, so at most that many |
| Ledger.ActiveCountPrepend | src/data/storage.js:104 | putting a booking at the head of the ledger adds its seat to the count of its library only |
| Ledger.ActiveCountUpdate | src/data/storage.js:127 | overwriting one ledger entry changes a library's count only by that entry's old and new contribution |
| Engine.FindLibrary | src/data/storage.js:68 | the index of the first roster entry with the id; no entry before it has the id; None exactly when none has it |
| Engine.FindActive | src/data/storage.js:119-123 | the first ledger index with that library, student and status pending/confirmed; None exactly when there is none |
| Engine.Expire | src/data/storage.js:195-205 | an overdue pending booking becomes expired with its check-out stamp untouched; a confirmed booking past a non-null session end becomes completed with checkedOutAt = now; either way it stops holding a seat; any other booking is unchanged; no field besides status and checkedOutAt ever changes |
| Engine.ExpireAll | src/data/storage.js:194-206 | after the pass no booking is due at that time, and every entry keeps its library and student |
| Engine.Restore | src/data/storage.js:209-212 | only availableSpots of each entry changes; each count ends at most at capacity and at most old count + due count, and equals old count + due count unless it is capped at capacity; a count within capacity never drops |
| Engine.Sweep | src/data/storage.js:208-217 | the sweep never changes which libraries the roster lists, their capacities, or the ledger's length |
| Engine.SweepTransitions | src/data/storage.js:194-206 | entry by entry in the stored ledger: overdue pending becomes expired with checkedOutAt untouched, overrun confirmed becomes completed with checkedOutAt = now, a booking that is not due is kept, and no other field changes |
| Engine.SweepCounts | src/data/storage.js:194-206 | after expiry each library's held seats drop by exactly its count of due bookings |
| Engine.SweepPreservesValid | src/data/storage.js:188-218 | the sweep keeps conservation, bounds, unique ids and one active booking per student, and each library gains exactly its due count (the cap at totalSpots never bites) |
| Engine.SweepIdempotent | src/data/storage.js:188-218 | after a sweep no booking is due at that time, and a second sweep at the same time changes nothing |
| Engine.NewBooking | src/data/storage.js:81-98 | the new booking is pending for that library and student, expires 6*60*1000 ms after now, and has no check-in, check-out or session end |
| Engine.TakeSpot | src/data/storage.js:100-102 | ids and capacities are kept; every entry with the id loses exactly one free seat; every other entry is unchanged |
| Engine.Book | src/data/storage.js:65-107 | NoSeats exactly when the library is missing or has no free seat; AlreadyActive exactly when the student already holds a pending/confirmed booking there; a failure writes nothing beyond the sweep; success puts the new booking at index 0 above the swept ledger |
| Engine.TakeSpotAt | src/data/storage.js:100-102 | with unique ids, taking a seat changes only that library's entry, by exactly one |
| Engine.BookTakesOneSeat | src/data/storage.js:68-71 | a successful booking takes one seat from a library that had a free seat and leaves every other library unchanged |
| Engine.BookPreservesValid | src/data/storage.js:65-107 | bookSeat keeps the invariant, so it never books below zero seats |
| Engine.PrependKeepsConserved | src/data/storage.js:100-104 | taking a free seat of the booked library and putting the booking on the ledger keeps conservation and bounds |
| Engine.PrependKeepsSingleActive | src/data/storage.js:73-79 | after the duplicate guard, adding the booking keeps one active booking per student and library |
| Engine.ScanStep | src/data/storage.js:119-159 | no match: result none and nothing written; otherwise only the first matching entry changes; confirmed gives checkout (status completed, checkedOutAt = now), pending past expiresAt (strict) gives expired (status only), and both return one capped seat to that library; otherwise check-in (status confirmed, checkedInAt = now, sessionEndsAt = now + SESSION_MS) leaves the roster unwritten; no other field of the entry changes |
| Engine.ScanAsWritten | src/data/storage.js:114-160 | the match is looked up in the ledger as read before the sweep; no match leaves the swept store; a match writes the pre-sweep ledger with that one entry changed, discarding what the sweep wrote to the ledger |
| Engine.Scan | src/data/storage.js:114-160 | the match is looked up in the swept ledger; no match leaves the swept store; a match changes only that entry of the swept ledger; the ledger keeps its length |
| Engine.ScanOutcomes | src/data/storage.js:126-157 | relative to the matched booking of the swept ledger: checkout turns a confirmed booking completed with checkedOutAt = now; a late scan turns an overdue pending booking expired with checkedOutAt untouched; check-in turns a pending booking within its deadline confirmed with checkedInAt = now and sessionEndsAt = now + 4*3600*1000, checkedOutAt untouched and the roster as the sweep left it; in each case no other field changes |
| Engine.ScanAsWrittenReleasesTwice | src/data/storage.js:115-134 | on a concrete consistent store, the scan as written returns an overrun session's seat a second time and conservation fails (free seats 2, held 1, capacity 2) |
| Engine.ScanAsWrittenRevivesExpired | src/data/storage.js:115-156 | on a consistent store, a check-in read before the sweep writes back an overdue reservation the sweep had expired, which then holds a seat the sweep returned, and conservation fails |
| Engine.ScanPreservesValid | src/data/storage.js:114-160 | the scan with the roster read (and sweep) before the ledger read keeps the invariant |
| Engine.ScanStepPreservesValid | src/data/storage.js:119-159 | acting on the store's own ledger, the scan keeps conservation, bounds and one active booking per student |
| Engine.ReturnSeatKeepsConsistent | src/data/storage.js:127-129 | closing a seat-holding booking and returning one seat to its library keeps conservation and bounds; the cap never bites |
| Engine.SwapKeepsConserved | src/data/storage.js:149-154 | check-in swaps a pending booking for a confirmed one at the same library, so no seat count changes |
| Engine.UpdateKeepsSingleActive | src/data/storage.js:126-157 | rewriting the matched entry for the same student and library keeps one active booking per student and library |
| Engine.ScanMatchIsUnique | src/data/storage.js:119-123 | with one active booking per student and library, the booking the scan finds is the only match |
| Engine.ReleasedCount | src/data/storage.js:166-170 | the number released is never above the checked-in count, never above a non-negative count, 0 for count <= 0, and otherwise one of the two |
| Engine.ReleaseSpots | src/data/storage.js:176-180 | only availableSpots changes, and only for the entry with the id; it gains the seats but never goes above its capacity (it gains exactly k unless the cap bites); every other entry is unchanged |
| Engine.ReleaseConfirmed | src/data/storage.js:168-174 | only checked-in bookings of the library can change, and a changed entry is that booking marked released with checkedOutAt = now |
| Engine.AdminRelease | src/data/storage.js:163-185 | the returned count is between 0 and the number checked in after the sweep, and at most count; the ledger length is kept; relative to the swept roster only availableSpots changes, and only for the released library |
| Engine.ReleaseCounts | src/data/storage.js:168-180 | admin release frees exactly ReleasedCount seats of that library and none of any other |
| Engine.ReleaseConfirmedCount | src/data/storage.js:168-174 | after the release the library has exactly that many fewer checked-in bookings |
| Engine.AdminReleaseEffect | src/data/storage.js:163-185 | returns min(count, checked-in at the library) (0 for count <= 0); the roster gains that many seats at the library, capped; releases the first checked-in ones in ledger order, each becoming the same booking with status released and checkedOutAt = now; leaves every other entry as it was |
| Engine.AdminReleasePreservesValid | src/data/storage.js:163-185 | adminReleaseSeats keeps the invariant, and under it the library gains exactly the released count and every other library nothing (the cap at totalSpots never bites) |
| Storage.Store.constructor | src/data/storage.js:3-9 | a first-run store holds the seed roster and an empty ledger, and is consistent |
| Storage.Store.SaveLibraries | src/data/storage.js:36-38 | writes the roster and leaves the ledger |
| Storage.TallyStep | src/data/storage.js:195-203 | counting one more due booking in `deltas` keeps every library's tally equal to the due count of the prefix scanned |
| Storage.Tally | src/data/storage.js:194-206 | the loop maps each booking through the expiry rule, tallies each library's due bookings exactly, and sets `changed` exactly when some booking is due |
| Storage.TallyIsSweep | src/data/storage.js:208-217 | a finished tally written back (or nothing written when unchanged) is exactly the sweep's state |
| Storage.ApplyTally | src/data/storage.js:208-212 | only availableSpots changes; each count ends at most at capacity and at most old count + tally, and equals old count + tally unless it is capped at capacity; a non-negative tally never lowers a count within capacity |
| Storage.Store.RunExpiryCheck | src/data/storage.js:188-218 | leaves the store exactly as Engine.Sweep says, and writes nothing when nothing is due |
| Storage.Store.GetLibraries | src/data/storage.js:28-34 | a roster read runs the sweep, returns the roster as stored afterwards, and keeps the invariant |
| Storage.Store.BookSeat | src/data/storage.js:65-107 | the result and the new store are those of Engine.Book; the invariant is kept |
| Storage.Store.ScanLedger | src/data/storage.js:119-159 | acting on a given ledger copy, the result and the new store are those of Engine.ScanStep |
| Storage.Store.HandleQRScanAsWritten | src/data/storage.js:114-160 | ledger read first, then the roster read with its sweep: the store ends as Engine.ScanAsWritten says |
| Storage.Store.HandleQRScan | src/data/storage.js:114-160 | roster read (sweep) first, then the ledger: the store ends as Engine.Scan says, and the invariant is kept |
| Storage.ReleasePass | src/data/storage.js:166-174 | the loop with its `released` counter gives the released ledger and the count min(count, checked-in), 0 for count <= 0 |
| Storage.ReleaseStep | src/data/storage.js:169-170 | the `released < count` test picks exactly the entries the admin release frees, and the counter stays min(count, checked-in so far) |
| Storage.Store.AdminReleaseSeats | src/data/storage.js:163-185 | returns the count and leaves the store as Engine.AdminRelease says; the invariant is kept |
| Countdown.SecondsLeft | src/data/storage.js:221-223 | never negative; whole seconds until the deadline, floored; 0 under one second or past the deadline |
| Countdown.NatToString | src/data/storage.js:228 | a non-empty string of decimal digits with no leading zero (unless it is just "0"); one digit below 10, two below 100 |
| Countdown.IntToString | src/data/storage.js:226-228 | a non-negative number renders as digits without a leading zero that read back as it; a negative one as a minus sign before the digits of its magnitude, again without a leading zero |
| Countdown.PadStart2 | src/data/storage.js:228 | the result has length max(2, length); a string of two or more characters is kept; a single character gets one leading zero, an empty string becomes "00" |
| Countdown.JsRem | src/data/storage.js:227 | the remainder is below the divisor in magnitude, takes the sign of the dividend, and equals the Euclidean remainder for a non-negative dividend |
| Countdown.FormatCountdown | src/data/storage.js:225-229 | the display always holds a colon; a non-negative count shows no minus sign, and a negative one starts with a minus sign |
| Countdown.NatToStringValue | src/data/storage.js:228 | the rendered digits read back as the number |
| Countdown.PaddedSeconds | src/data/storage.js:227-228 | seconds below 60 render as exactly two digits that read back as the value |
| Countdown.CutAtColon | src/data/storage.js:228 | digits, a colon and two digits cut at the colon read back as the two values they were rendered from |
| Countdown.FormatCountdownParts | src/data/storage.js:226-228 | for s >= 0 the display is the minutes, a colon, and the remainder padded to two digits |
| Countdown.FormatCountdownReadsBack | src/data/storage.js:225-229 | for s >= 0 the display is digits, a colon, two digits; reading it back gives s div 60, s mod 60 < 60, and minutes*60 + seconds = s |
| Admin.Keypad | src/screens/AdminScreen.js:98-102 | the PIN never grows past 4 characters; a digit is appended only below 4; backspace removes the last character (none on an empty PIN) and clears the error; the blank key does nothing |
| Admin.FindPin | src/screens/AdminScreen.js:42 | the first roster index whose adminPin equals the PIN; None exactly when none does |
| Admin.ResolvePin | src/screens/AdminScreen.js:35-51 | master exactly for '1234'; otherwise the first library whose PIN matches; rejected exactly when neither matches |
| Admin.SeedPins | src/screens/AdminScreen.js:42-46 | with the seed roster, PIN 2222 scopes the admin to the law library |
| Admin.FilterById | src/screens/AdminScreen.js:66 | keeps exactly the roster entries with the id; empty when none has it |
| Admin.VisibleLibs | src/screens/AdminScreen.js:65-67 | without a scope (or with an empty-string scope, which is falsy) the whole roster; with a scope, exactly the entries with that id |
| Admin.ScopedViewIsOneLibrary | src/screens/AdminScreen.js:65-67 | with unique ids a library admin sees exactly their own library |
| Admin.ClampSpots | src/screens/AdminScreen.js:58 | never negative and never above a non-negative capacity; available + delta when within [0, totalSpots], the capacity above, 0 below |
| Admin.AdjustSpots | src/screens/AdminScreen.js:56-60 | only the entries with the id change, each to its clamped count; every other entry is unchanged |
| Admin.ResetSpots | src/screens/AdminScreen.js:234 | the entry with the id gets as many free seats as its capacity and no other field changes; every other entry is unchanged; bounds are kept |
| Admin.AdjustKeepsBounds | src/screens/AdminScreen.js:54-63 | the adjusted count is available + delta when that is within [0, totalSpots], totalSpots above the range and 0 below it; the entry keeps its id and capacity; other libraries are unchanged; bounds are kept |
| Admin.AdjustBreaksConservation | src/screens/AdminScreen.js:54-63 | on a consistent store the adjustment keeps conservation exactly when it does not change the count |
| Admin.ResetBreaksConservation | src/screens/AdminScreen.js:233-236 | on a consistent store reset-to-full keeps conservation exactly when no booking holds a seat of that library |
| Admin.AdminScreen.constructor | src/screens/AdminScreen.js:18-24 | empty PIN, logged out, no scope, empty lists, no error |
| Admin.AdminScreen.Press | src/screens/AdminScreen.js:98-102 | a key press updates the PIN and error as Keypad says and nothing else |
| Admin.AdminScreen.HandleLogin | src/screens/AdminScreen.js:33-52 | the roster read sweeps the store; master PIN: logged in, no scope; library PIN: logged in, scoped to the first match; otherwise the error is set, the PIN cleared and nothing else changes |
| Admin.AdminScreen.Focus | src/screens/AdminScreen.js:26-31 | a logged-in screen reloads the swept roster and the ledger; a logged-out one does nothing |
| Admin.AdminScreen.Logout | src/screens/AdminScreen.js:140 | logs out, clears the PIN and the scope |
| Admin.AdminScreen.UpdateSpots | src/screens/AdminScreen.js:54-63 | the store's roster becomes the clamped adjustment of the swept roster; the ledger stays as swept |
| Admin.AdminScreen.ResetToFull | src/screens/AdminScreen.js:230-237 | only the chosen library's count becomes its totalSpots; the ledger stays as swept |
| Admin.AdminScreen.ReleaseSeats | src/screens/AdminScreen.js:209-219 | with no checked-in booking on the screen's ledger, or on cancel, nothing changes; "Release 1" asks for 1, "Release All" for the screen's checked-in count; the store then is the admin release followed by the reload's sweep at the clock read after the release |

## Findings

| source | as written | input that shows it | evidently intended | confidence | as-written member | corrected member |
|---|---|---|---|---|---|---|
| src/data/storage.js:115-116 | `handleQRScan` reads the ledger before `getLibraries()`, whose sweep may close bookings and write both documents; the scan then acts on the stale copy, returns the same seat again (128-129, 141-142) and overwrites the sweep's ledger (131, 144, 155) | library total 2, free 0; Alice confirmed with session end 5000, Bob confirmed with session end 99999; Alice scans at 6000: the sweep completes her booking (free 1), the scan completes it again (free 2) while Bob still holds a seat | read the roster (running the sweep) first and the ledger after it, as `bookSeat` and `adminReleaseSeats` do | high (not executed) | Engine.ScanAsWrittenReleasesTwice | Engine.ScanPreservesValid |

`Engine.ScanAsWrittenRevivesExpired` shows the same read order in the check-in branch: the write at src/data/storage.js:155 puts a reservation the sweep had expired back to pending, so it holds a seat the sweep returned.
`Storage.Store.HandleQRScanAsWritten` models the source's order.
`Storage.Store.HandleQRScan` uses the corrected order.

## Left out

- AsyncStorage, JSON (de)serialisation and `async`/`await`. The store is two in-memory sequences. A failed read falls back to the seed roster or an empty ledger. This is not modelled: reads are total.
- The student profile document (`getStudent`/`saveStudent`): it is only passed into the engine as a parameter.
- ISO date strings and `new Date` parsing: timestamps are integer milliseconds.
- Storage.Store.AdminReleaseSeats: the source reads the clock once per released booking; the model stamps all of them with one `now`.
- Admin.AdminScreen.ReleaseSeats: the source starts the roster reload and the ledger reload together without awaiting them. The model runs them in order: roster (with its sweep), then ledger.
- Admin.AdminScreen.Focus: the same two reloads, started together in the source, run in order in the model: roster (with its sweep), then ledger.
- Countdown.JsRem: for a negative dividend the contract gives only the sign and the bound, not the exact value; the countdown only formats non-negative seconds.
- The confirmation dialogs and alerts of the admin screen are modelled only as a `ReleaseChoice` parameter. The `spotColor` and Full/Limited/Open badge classification is display only.
- The login button is disabled below four PIN characters. This is a rendering rule; `HandleLogin` accepts any PIN.
- Map coordinates, QR rendering, the camera scanner, timers, vibration and sharing are foreign calls or display.
- The other screens (home, scanner, map, onboarding, settings, my-spots) and `App.js` are not part of this model. `FullMapScreen`'s booking handler bypasses the engine and imports a function the storage module does not export.
- Concurrency: the source has one cooperative writer, and the model runs each operation as one uninterrupted step.
