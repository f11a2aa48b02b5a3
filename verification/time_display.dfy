/**
 * The `mm:ss` countdown display that both client views define identically
 * (components/TeacherDashboard.js and components/StudentView.js).
 */
module TimeDisplay {
  import opened JsText
  import opened Wrappers

  /** JavaScript's `%`: the remainder takes the sign of the dividend (truncating division). */
  function JsRemainder(a: int, b: int): (r: int)
    requires b > 0
    ensures a >= 0 ==> 0 <= r < b && r == a % b
    ensures a < 0 ==> -b < r <= 0
    ensures (a - r) % b == 0
  {
    if a >= 0 then
      var q := a / b;
      assert a - a % b == q * b;
      MultipleModZero(q, b);
      a % b
    else
      var q := (-a) / b;
      assert a + (-a) % b == (-q) * b;
      MultipleModZero(-q, b);
      -((-a) % b)
  }

  /** A multiple of `b` leaves no remainder. */
  lemma MultipleModZero(k: int, b: int)
    requires b > 0
    ensures (k * b) % b == 0
  {
    var d := (k * b) / b;
    assert (k * b) % b == (k - d) * b;
    assert !(k - d >= 1);
    assert !(k - d <= -1);
  }

  /** `Math.floor(a / b)` for a positive divisor; Dafny's `/` is Euclidean, which is the floor here. */
  function FloorDiv(a: int, b: int): (q: int)
    requires b > 0
    ensures q * b <= a < q * b + b
  {
    a / b
  }

  /** `formatTime(seconds)`: minutes and seconds, each padded to two characters with '0'. */
  function FormatTime(seconds: int): string {
    var mins := FloorDiv(seconds, 60);
    var secs := JsRemainder(seconds, 60);
    PadStart(IntToString(mins), 2, '0') + ":" + PadStart(IntToString(secs), 2, '0')
  }

  /** Each half is at least two characters wide, so the display has five or more, with
      the ':' right after the minutes. */
  lemma FormatTimeShape(seconds: int)
    ensures var t := FormatTime(seconds);
            |t| >= 5 && t[|PadStart(IntToString(FloorDiv(seconds, 60)), 2, '0')|] == ':'
  {
  }

  /** Reads a display `m:ss` back: the part before the last three characters is the
      minutes, the last two the seconds. */
  function ParseTime(t: string): Option<int> {
    if |t| >= 3 && t[|t| - 3] == ':' && AllDigits(t[..|t| - 3]) && AllDigits(t[|t| - 2..]) then
      Some(DecimalValue(t[..|t| - 3]) * 60 + DecimalValue(t[|t| - 2..]))
    else
      None
  }

  /** For a non-negative count the display is `mins:secs` with `secs < 60` and
      `mins * 60 + secs == seconds`, so it reads back to the same count. */
  lemma FormatTimeRoundTrip(seconds: int)
    requires seconds >= 0
    ensures ParseTime(FormatTime(seconds)) == Some(seconds)
    ensures seconds < 6000 ==> |FormatTime(seconds)| == 5
  {
    var mins := FloorDiv(seconds, 60);
    var secs := JsRemainder(seconds, 60);
    MinutesAndSeconds(seconds);
    JoinedRoundTrip(mins, secs, seconds);
  }

  /** Padded minutes and padded seconds below 60, joined by ':', read back as
      `mins * 60 + secs`; two-digit minutes give five characters. */
  lemma JoinedRoundTrip(mins: nat, secs: nat, total: int)
    requires secs < 60 && mins * 60 + secs == total
    ensures var t := PadStart(IntToString(mins), 2, '0') + ":" + PadStart(IntToString(secs), 2, '0');
      ParseTime(t) == Some(total) && (total < 6000 ==> |t| == 5)
  {
    var m := PadStart(IntToString(mins), 2, '0');
    var s := PadStart(IntToString(secs), 2, '0');
    PaddedDigits(mins);
    PaddedDigits(secs);
    ShortDigits(secs);
    ParseJoined(m, s, mins, secs);
    if total < 6000 {
      ShortDigits(mins);
      assert |m| == 2;
    }
  }

  /** A non-negative count is its whole minutes plus the remaining seconds. */
  lemma MinutesAndSeconds(seconds: int)
    requires seconds >= 0
    ensures FloorDiv(seconds, 60) * 60 + JsRemainder(seconds, 60) == seconds
  {
    assert seconds == (seconds / 60) * 60 + seconds % 60;
  }

  /** A number below 100 is written with at most two characters. */
  lemma ShortDigits(n: nat)
    requires n < 100
    ensures |IntToString(n)| <= 2
  {
    if |IntToString(n)| > 2 {
      NatToDigitsWide(n);
    }
  }

  /** Parsing a joined `m + ":" + s` with two-character seconds splits it back. */
  lemma ParseJoined(m: string, s: string, mins: nat, secs: nat)
    requires AllDigits(m) && AllDigits(s) && |s| == 2
    requires DecimalValue(m) == mins && DecimalValue(s) == secs
    ensures ParseTime(m + ":" + s) == Some(mins * 60 + secs)
  {
    var t := m + ":" + s;
    assert t[..|t| - 3] == m;
    assert t[|t| - 2..] == s;
  }

  /** Padding a non-negative number's digits keeps them digits of the same value. */
  lemma PaddedDigits(n: int)
    requires n >= 0
    ensures var p := PadStart(IntToString(n), 2, '0'); AllDigits(p) && DecimalValue(p) == n
  {
    var d := IntToString(n);
    var p := PadStart(d, 2, '0');
    var z := p[..|p| - |d|];
    assert p == z + d;
    LeadingZeros(z, d);
  }

  /** More than two digits means at least 100. */
  lemma {:induction false} NatToDigitsWide(n: nat)
    requires |NatToDigits(n)| > 2
    ensures n >= 100
  {
    assert n >= 10;
    assert |NatToDigits(n / 10)| > 1;
  }

  /** For a negative count the decomposition no longer adds up: `-5` is shown as `-1:-5`. */
  lemma NegativeSecondsMisread()
    ensures FormatTime(-5) == "-1:-5"
    ensures FloorDiv(-5, 60) * 60 + JsRemainder(-5, 60) != -5
  {
    assert FloorDiv(-5, 60) == -1;
    assert JsRemainder(-5, 60) == -5;
    assert NatToDigits(1) == "1" && NatToDigits(5) == "5";
    assert IntToString(-1) == "-1";
    assert IntToString(-5) == "-5";
  }
}
