/**
 * The uptime text the monitor logs when connectivity is lost: elapsed
 * seconds are truncated to a whole number, normalised the way a
 * `timedelta` is (whole days plus a remainder below one day), and the
 * remainder is split into hours, minutes and seconds.
 */
module Uptime {

  const SECONDS_PER_MINUTE := 60
  const SECONDS_PER_HOUR := 3600
  const SECONDS_PER_DAY := 86400

  /** Conversion of a number of seconds to a whole number, truncating toward zero. */
  function Truncate(x: real): (n: int)
    ensures x >= 0.0 ==> 0 <= n && n as real <= x < n as real + 1.0
    ensures x < 0.0 ==> n <= 0 && n as real - 1.0 < x <= n as real
  {
    if x >= 0.0 then x.Floor else -((-x).Floor)
  }

  /** Days, hours, minutes and seconds of an elapsed time. */
  datatype Parts = Parts(days: int, hours: int, minutes: int, seconds: int)

  /** The number of whole seconds that a `Parts` value denotes. */
  function TotalSeconds(p: Parts): int {
    p.days * SECONDS_PER_DAY + p.hours * SECONDS_PER_HOUR + p.minutes * SECONDS_PER_MINUTE + p.seconds
  }

  /** A decomposition in which every unit below days is within its range. */
  predicate Normalised(p: Parts) {
    0 <= p.hours < 24 && 0 <= p.minutes < 60 && 0 <= p.seconds < 60
  }

  /**
   * Splits elapsed seconds into days and a remainder below one day (floor
   * division, as `timedelta` normalises), then the remainder into hours,
   * minutes and seconds.
   */
  function Components(elapsed: real): (p: Parts)
    ensures TotalSeconds(p) == Truncate(elapsed)
    ensures Normalised(p)
    ensures elapsed >= 0.0 ==> p.days >= 0
  {
    var total := Truncate(elapsed);
    var days, rem := total / SECONDS_PER_DAY, total % SECONDS_PER_DAY;
    var hrs, rem' := rem / SECONDS_PER_HOUR, rem % SECONDS_PER_HOUR;
    var mins, secs := rem' / SECONDS_PER_MINUTE, rem' % SECONDS_PER_MINUTE;
    Parts(days, hrs, mins, secs)
  }

  /** A positive multiple of a positive number is at least that number. */
  lemma {:induction false} MultipleAtLeast(k: int, d: int)
    requires k >= 1 && d > 0
    ensures k * d >= d
  {
    if k > 1 {
      MultipleAtLeast(k - 1, d);
      assert k * d == (k - 1) * d + d;
    }
  }

  /** Quotient and remainder by a positive divisor are determined by their defining equation. */
  lemma DivModUnique(n: int, d: int, q: int, r: int)
    requires d > 0 && 0 <= r < d && q * d + r == n
    ensures q == n / d && r == n % d
  {
    var q', r' := n / d, n % d;
    assert q' * d + r' == n;
    if q < q' {
      assert (q' - q) * d == r - r';
      MultipleAtLeast(q' - q, d);
    } else if q > q' {
      assert (q - q') * d == r' - r;
      MultipleAtLeast(q - q', d);
    }
  }

  /** Only one normalised decomposition adds up to a given number of seconds. */
  lemma ComponentsUnique(elapsed: real, p: Parts)
    requires Normalised(p) && TotalSeconds(p) == Truncate(elapsed)
    ensures p == Components(elapsed)
  {
    var total := Truncate(elapsed);
    var rem := p.hours * SECONDS_PER_HOUR + p.minutes * SECONDS_PER_MINUTE + p.seconds;
    assert 0 <= rem < SECONDS_PER_DAY;
    DivModUnique(total, SECONDS_PER_DAY, p.days, rem);
    var rem' := p.minutes * SECONDS_PER_MINUTE + p.seconds;
    assert 0 <= rem' < SECONDS_PER_HOUR;
    DivModUnique(rem, SECONDS_PER_HOUR, p.hours, rem');
    DivModUnique(rem', SECONDS_PER_MINUTE, p.minutes, p.seconds);
  }

  predicate IsDigit(c: char) {
    '0' <= c <= '9'
  }

  function DigitChar(d: nat): (c: char)
    requires d < 10
    ensures IsDigit(c) && c as int - '0' as int == d
  {
    (d + '0' as int) as char
  }

  /** The decimal numeral of a natural number, most significant digit first. */
  function NatToString(n: nat): (s: string)
    ensures |s| >= 1
    ensures forall i | 0 <= i < |s| :: IsDigit(s[i])
    ensures s[0] == '0' ==> n == 0
  {
    if n < 10 then [DigitChar(n)] else NatToString(n / 10) + [DigitChar(n % 10)]
  }

  function DigitValue(c: char): nat
    requires IsDigit(c)
  {
    c as int - '0' as int
  }

  /** The number a string of decimal digits denotes. */
  function DecimalValue(s: string): nat
    requires forall i | 0 <= i < |s| :: IsDigit(s[i])
  {
    if s == [] then 0 else DecimalValue(s[..|s| - 1]) * 10 + DigitValue(s[|s| - 1])
  }

  /** Reading back the numeral of `n` gives `n`. */
  lemma {:induction false} DecimalRoundTrip(n: nat)
    ensures DecimalValue(NatToString(n)) == n
  {
    if n >= 10 {
      DecimalRoundTrip(n / 10);
      var s := NatToString(n);
      assert s[..|s| - 1] == NatToString(n / 10);
    }
  }

  /** The decimal text of an integer, with a leading minus sign when it is negative. */
  function IntToString(n: int): (s: string)
    ensures |s| >= 1 && (n < 0 <==> s[0] == '-')
    ensures n >= 0 ==> s == NatToString(n)
    ensures n < 0 ==> s[1..] == NatToString(-n)
  {
    if n < 0 then "-" + NatToString(-n) else NatToString(n)
  }

  /** The logged text "<days>d <hours>h <minutes>m <seconds>s". */
  function FormatUptime(elapsed: real): (text: string)
  {
    var p := Components(elapsed);
    IntToString(p.days) + "d " + IntToString(p.hours) + "h " +
    IntToString(p.minutes) + "m " + IntToString(p.seconds) + "s"
  }

  /** 90061 seconds are one day, one hour, one minute and one second. */
  lemma FormatNinetyThousandSixtyOne()
    ensures Components(90061.0) == Parts(1, 1, 1, 1)
    ensures FormatUptime(90061.0) == "1d 1h 1m 1s"
  {
    assert Truncate(90061.0) == 90061;
    ComponentsUnique(90061.0, Parts(1, 1, 1, 1));
    assert NatToString(1) == "1";
  }

  /**
   * The logged text shows each component as its decimal numeral, in the
   * order days, hours, minutes, seconds; the three lower units are never
   * negative and read back as their values.
   */
  lemma FormatUptimeReadsBack(elapsed: real)
    ensures var p := Components(elapsed);
      var h, m, s := NatToString(p.hours), NatToString(p.minutes), NatToString(p.seconds);
      && FormatUptime(elapsed) == IntToString(p.days) + "d " + h + "h " + m + "m " + s + "s"
      && DecimalValue(h) == p.hours && DecimalValue(m) == p.minutes && DecimalValue(s) == p.seconds
      && p.days * SECONDS_PER_DAY + DecimalValue(h) * SECONDS_PER_HOUR
         + DecimalValue(m) * SECONDS_PER_MINUTE + DecimalValue(s) == Truncate(elapsed)
  {
    var p := Components(elapsed);
    DecimalRoundTrip(p.hours);
    DecimalRoundTrip(p.minutes);
    DecimalRoundTrip(p.seconds);
  }
}
