/** The countdown display text: seconds rendered as `MM:SS`, the way the
    timer's display writes it (getFormattedTime and zeroPad in index.js). */
module ClockFormat {

  predicate IsDigit(c: char) { '0' <= c <= '9' }

  predicate AllDigits(s: string) { forall i :: 0 <= i < |s| ==> IsDigit(s[i]) }

  /** The character of the decimal digit `d`. */
  function DigitChar(d: nat): (c: char)
    requires d < 10
    ensures IsDigit(c) && c as int - '0' as int == d
  {
    ('0' as int + d) as char
  }

  /** The decimal text of `n` as JavaScript turns a non-negative integer into
      a string: no leading zero, and "0" for zero. */
  function NatText(n: nat): (s: string)
    ensures |s| >= 1 && AllDigits(s)
    ensures |s| == 1 <==> n < 10
    ensures n < 100 ==> |s| <= 2
    ensures s[0] == '0' ==> n == 0
    decreases n
  {
    if n < 10 then [DigitChar(n)] else NatText(n / 10) + [DigitChar(n % 10)]
  }

  /** The decimal text of any integer: a minus sign before the digits of a
      negative one. */
  function IntText(n: int): (s: string)
    ensures |s| >= 1
    ensures n >= 0 ==> AllDigits(s)
    ensures n < 0 ==> |s| >= 2 && s[0] == '-' && AllDigits(s[1..])
  {
    if n < 0 then "-" + NatText(-n) else NatText(n)
  }

  /** zeroPad: a '0' in front of every number below ten, negative ones included. */
  function ZeroPad(n: int): (s: string)
    ensures |s| >= 2
    ensures n >= 0 ==> AllDigits(s)
    ensures 0 <= n < 100 ==> |s| == 2
    ensures n < 10 ==> s[0] == '0'
  {
    if n < 10 then "0" + IntText(n) else IntText(n)
  }

  /** getFormattedTime: whole minutes (rounded down) and the seconds left over,
      each zero-padded, joined by a colon. Dividing by the positive 60, Dafny's
      `/` rounds down exactly as Math.floor does. */
  function FormatTime(seconds: int): (r: string)
    ensures |r| >= 5 && r[|r| - 3] == ':' && AllDigits(r[|r| - 2..])
    ensures seconds >= 0 ==> IsClockText(r)
  {
    var minsLeft := seconds / 60;
    var secondsLeft := seconds - minsLeft * 60;
    var m, sec := ZeroPad(minsLeft), ZeroPad(secondsLeft);
    assert 0 <= secondsLeft < 60;
    var r := m + ":" + sec;
    assert r[..|r| - 3] == m && r[|r| - 2..] == sec;
    r
  }

  // Reading the text back.

  function DigitValue(c: char): nat
    requires IsDigit(c)
  {
    c as int - '0' as int
  }

  /** The number a string of decimal digits denotes. */
  function DecimalValue(s: string): nat
    requires AllDigits(s)
  {
    if s == [] then 0 else DecimalValue(s[..|s| - 1]) * 10 + DigitValue(s[|s| - 1])
  }

  /** Text of the shape `digits:dd`, with at least two minute digits. */
  predicate IsClockText(t: string)
  {
    |t| >= 5 && t[|t| - 3] == ':' && AllDigits(t[..|t| - 3]) && AllDigits(t[|t| - 2..])
  }

  /** The number of seconds a clock text shows: minutes times sixty plus seconds. */
  function ClockValue(t: string): nat
    requires IsClockText(t)
  {
    DecimalValue(t[..|t| - 3]) * 60 + DecimalValue(t[|t| - 2..])
  }

  lemma {:induction false} NatTextValue(n: nat)
    ensures DecimalValue(NatText(n)) == n
    decreases n
  {
    var s := NatText(n);
    if n >= 10 {
      NatTextValue(n / 10);
      assert s[..|s| - 1] == NatText(n / 10);
    }
  }

  /** A leading zero does not change the value of a digit string. */
  lemma {:induction false} LeadingZeroValue(s: string)
    requires AllDigits(s)
    ensures AllDigits("0" + s) && DecimalValue("0" + s) == DecimalValue(s)
    decreases |s|
  {
    var z := "0" + s;
    assert AllDigits(z) by {
      forall i | 0 <= i < |z| ensures IsDigit(z[i]) {
        if i > 0 { assert z[i] == s[i - 1]; }
      }
    }
    if s != [] {
      LeadingZeroValue(s[..|s| - 1]);
      assert z[..|z| - 1] == "0" + s[..|s| - 1];
    } else {
      assert z[..|z| - 1] == [];
    }
  }

  /** zeroPad keeps the value of a non-negative number. */
  lemma ZeroPadValue(n: nat)
    ensures DecimalValue(ZeroPad(n)) == n
  {
    NatTextValue(n);
    if n < 10 { LeadingZeroValue(NatText(n)); }
  }

  /** The formatted text has the clock shape: the seconds field is exactly two
      digits, the minutes field at least two, and reading the fields back as
      numbers gives the seconds formatted, with seconds below sixty. */
  lemma FormatTimeRoundTrip(seconds: nat)
    ensures IsClockText(FormatTime(seconds))
    ensures ClockValue(FormatTime(seconds)) == seconds
    ensures var t := FormatTime(seconds); DecimalValue(t[|t| - 2..]) < 60
  {
    var m, s := seconds / 60, seconds % 60;
    var t := FormatTime(seconds);
    assert t == ZeroPad(m) + ":" + ZeroPad(s);
    assert t[..|t| - 3] == ZeroPad(m);
    assert t[|t| - 2..] == ZeroPad(s);
    ZeroPadValue(m);
    ZeroPadValue(s);
  }

  /** Distinct non-negative times never show the same text. */
  lemma FormatTimeInjective(a: nat, b: nat)
    requires FormatTime(a) == FormatTime(b)
    ensures a == b
  {
    FormatTimeRoundTrip(a);
    FormatTimeRoundTrip(b);
  }

  // Sample renderings.

  lemma FormatZero()
    ensures FormatTime(0) == "00:00"
  {
  }

  lemma FormatOneMinuteFive()
    ensures FormatTime(65) == "01:05"
  {
  }

  lemma FormatDefaultCycle()
    ensures FormatTime(1500) == "25:00"
  {
  }

  lemma FormatOverAnHour()
    ensures FormatTime(3661) == "61:01"
  {
  }

  /** A negative count (only reachable with a zero-minute phase) is still
      rendered, with the sign inside the padded minutes field. */
  lemma FormatNegativeTime()
    ensures FormatTime(-1) == "0-1:59"
  {
  }
}
