// The countdown shown while a reservation or a session runs
// (getSecondsLeft and formatCountdown in src/data/storage.js).

module Countdown {
  import opened Types

  /** `getSecondsLeft`: whole seconds from `now` until `deadline`, never negative.
      JavaScript's Math.floor by a positive divisor is Dafny's `/`. */
  function SecondsLeft(deadline: int, now: int): (r: int)
    ensures r >= 0
    ensures deadline - now >= 0 ==> r * 1000 <= deadline - now < (r + 1) * 1000
    ensures deadline - now < 1000 ==> r == 0
  {
    var floor := (deadline - now) / 1000;
    if 0 >= floor then 0 else floor
  }

  function DigitChar(d: int): (c: char)
    requires 0 <= d < 10
    ensures '0' <= c <= '9' && c as int - '0' as int == d
  {
    ('0' as int + d) as char
  }

  predicate AllDigits(s: string)
  {
    forall i :: 0 <= i < |s| ==> '0' <= s[i] <= '9'
  }

  /** Decimal rendering of a natural number, as Number.prototype.toString gives it. */
  function NatToString(n: nat): (s: string)
    ensures 1 <= |s| && AllDigits(s)
    ensures |s| == 1 || s[0] != '0'
    ensures n < 10 ==> |s| == 1
    ensures 10 <= n < 100 ==> |s| == 2
  {
    if n < 10 then [DigitChar(n)] else NatToString(n / 10) + [DigitChar(n % 10)]
  }

  /** `String(n)` for an integer: a minus sign before the digits of a negative number. */
  function IntToString(n: int): (s: string)
    ensures n >= 0 ==> 1 <= |s| && AllDigits(s) && DigitsValue(s) == n && (|s| == 1 || s[0] != '0')
    ensures n < 0 ==>
      2 <= |s| && s[0] == '-' && AllDigits(s[1..]) && DigitsValue(s[1..]) == -n && (|s| == 2 || s[1] != '0')
  {
    if n < 0 then
      NatToStringValue(-n);
      assert ("-" + NatToString(-n))[1..] == NatToString(-n);
      "-" + NatToString(-n)
    else
      NatToStringValue(n);
      NatToString(n)
  }

  /** `padStart(2, '0')`. */
  function PadStart2(s: string): (r: string)
    ensures |r| == Max(2, |s|)
    ensures |s| >= 2 ==> r == s
    ensures |s| == 1 ==> r == ['0', s[0]]
    ensures |s| == 0 ==> r == "00"
  {
    if |s| >= 2 then s else seq(2 - |s|, _ => '0') + s
  }

  /** JavaScript's `%`: the remainder takes the sign of the dividend. */
  function JsRem(a: int, b: int): (r: int)
    requires b > 0
    ensures -b < r < b
    ensures a >= 0 ==> r == a % b
    ensures a < 0 ==> r <= 0
  {
    if a >= 0 then a % b else -((-a) % b)
  }

  /** `formatCountdown`: minutes, a colon, and the seconds padded to two digits. */
  function FormatCountdown(seconds: int): (r: string)
    ensures ':' in r
    ensures seconds >= 0 ==> '-' !in r
    ensures seconds < 0 ==> r[0] == '-'
  {
    IntToString(seconds / 60) + ":" + PadStart2(IntToString(JsRem(seconds, 60)))
  }

  /** The value a string of decimal digits denotes (each character read as its offset from '0'). */
  function DigitsValue(s: string): int
  {
    if s == [] then 0
    else DigitsValue(s[..|s| - 1]) * 10 + (s[|s| - 1] as int - '0' as int)
  }

  lemma {:induction false} NatToStringValue(n: nat)
    ensures DigitsValue(NatToString(n)) == n
  {
    if n >= 10 {
      var s := NatToString(n);
      assert s[..|s| - 1] == NatToString(n / 10);
      NatToStringValue(n / 10);
    }
  }

  /** The seconds field: always two digits, reading back as the value it renders. */
  lemma PaddedSeconds(s: nat)
    requires s < 60
    ensures |PadStart2(NatToString(s))| == 2
    ensures AllDigits(PadStart2(NatToString(s)))
    ensures DigitsValue(PadStart2(NatToString(s))) == s
  {
    var ss := NatToString(s);
    NatToStringValue(s);
    if |ss| == 1 {
      var padded := PadStart2(ss);
      assert padded == ['0', ss[0]];
      assert padded[..1] == ['0'];
      assert ss[..0] == [];
    }
  }

  /** A display cut at its colon: the digits before it and the two digits after it read
      back as the values they were rendered from. */
  lemma CutAtColon(ms: string, padded: string, m: int, s: int)
    requires 1 <= |ms| && AllDigits(ms) && DigitsValue(ms) == m
    requires |padded| == 2 && AllDigits(padded) && DigitsValue(padded) == s
    ensures var r := ms + ":" + padded;
      && |r| >= 4 && r[|r| - 3] == ':'
      && AllDigits(r[..|r| - 3]) && AllDigits(r[|r| - 2..])
      && DigitsValue(r[..|r| - 3]) == m && DigitsValue(r[|r| - 2..]) == s
  {
    var r := ms + ":" + padded;
    assert r[..|r| - 3] == ms;
    assert r[|r| - 2..] == padded;
  }

  /** Read back, a countdown display gives the seconds it was made from: minutes
      before the colon, exactly two digits of seconds below 60 after it. */
  lemma FormatCountdownReadsBack(seconds: int)
    requires seconds >= 0
    ensures var r := FormatCountdown(seconds);
      && |r| >= 4
      && r[|r| - 3] == ':'
      && AllDigits(r[..|r| - 3]) && AllDigits(r[|r| - 2..])
      && DigitsValue(r[|r| - 2..]) < 60
      && DigitsValue(r[..|r| - 3]) * 60 + DigitsValue(r[|r| - 2..]) == seconds
  {
    var m, s := seconds / 60, seconds % 60;
    FormatCountdownParts(seconds);
    PaddedSeconds(s);
    CutAtColon(IntToString(m), PadStart2(NatToString(s)), m, s);
  }

  /** For non-negative seconds the display is the minutes, a colon and the padded remainder. */
  lemma FormatCountdownParts(seconds: int)
    requires seconds >= 0
    ensures FormatCountdown(seconds) == IntToString(seconds / 60) + ":" + PadStart2(NatToString(seconds % 60))
  {
    assert JsRem(seconds, 60) == seconds % 60;
  }
}
