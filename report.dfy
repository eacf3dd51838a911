/**
 * The integer arithmetic of the final report: durations split into hours,
 * minutes and seconds with Rust's truncating `/` and `%`, idle time as
 * total minus active, absent counts read as zero, and the explicit `+` on
 * non-negative differences.  The layout and colours are not modelled.
 */
module Report {
  import opened Results
  import opened FileTree
  import opened Sessions

  /** Rust's `/` on integers with a positive divisor: the quotient rounded toward zero. */
  function Quot(a: int, b: int): (q: int)
    requires b > 0
    ensures a >= 0 ==> 0 <= a - q * b < b
    ensures a < 0 ==> -b < a - q * b <= 0
  {
    if a >= 0 then a / b else -((-a) / b)
  }

  /** Rust's `%` with a positive divisor: takes the sign of the dividend. */
  function Rem(a: int, b: int): (r: int)
    requires b > 0
    ensures a == Quot(a, b) * b + r
    ensures a >= 0 ==> 0 <= r < b
    ensures a < 0 ==> -b < r <= 0
  {
    a - Quot(a, b) * b
  }

  datatype Hms = Hms(hours: int, minutes: int, seconds: int)

  /**
   * The clock face of a duration: whole hours, the minutes left within the
   * hour, and the seconds left within the minute, each by truncating
   * division.
   */
  function Split(t: int): Hms {
    Hms(Quot(t, 3600), Quot(Rem(t, 3600), 60), Rem(t, 60))
  }

  function Seconds(h: Hms): int {
    h.hours * 3600 + h.minutes * 60 + h.seconds
  }

  /**
   * `h` is how a clock face shows `t` seconds: the parts add back up to `t`
   * and every part has the sign of `t`, minutes and seconds staying below
   * sixty in size.
   */
  predicate Shows(h: Hms, t: int) {
    && Seconds(h) == t
    && (t >= 0 ==> h.hours >= 0 && 0 <= h.minutes < 60 && 0 <= h.seconds < 60)
    && (t < 0 ==> h.hours <= 0 && -60 < h.minutes <= 0 && -60 < h.seconds <= 0)
  }

  /**
   * The split shows its duration: a negative idle time shows as
   * all-negative parts, not as Euclidean remainders.
   */
  lemma SplitRecombines(t: int)
    ensures Shows(Split(t), t)
  {
    var h, r := Quot(t, 3600), Rem(t, 3600);
    var m, s := Quot(r, 60), Rem(r, 60);
    assert r == m * 60 + s;
    assert t == h * 3600 + r;
    assert t == (h * 60 + m) * 60 + s;
    QuotRemUnique(t, 60, h * 60 + m, s);
  }

  /** No other hours, minutes and seconds show the same duration. */
  lemma ShowsOnlySplit(h: Hms, t: int)
    requires Shows(h, t)
    ensures h == Split(t)
  {
    var ms := h.minutes * 60 + h.seconds;
    assert t >= 0 ==> 0 <= ms < 3600;
    assert t < 0 ==> -3600 < ms <= 0;
    QuotRemUnique(t, 3600, h.hours, ms);
    assert ms >= 0 ==> 0 <= h.seconds < 60;
    assert ms < 0 ==> -60 < h.seconds <= 0;
    QuotRemUnique(ms, 60, h.minutes, h.seconds);
    assert t == (h.hours * 60 + h.minutes) * 60 + h.seconds;
    QuotRemUnique(t, 60, h.hours * 60 + h.minutes, h.seconds);
  }

  /** Quotient and remainder are the only pair with the dividend's sign and a remainder below the divisor. */
  lemma QuotRemUnique(a: int, b: int, q: int, r: int)
    requires b > 0 && a == q * b + r
    requires a >= 0 ==> 0 <= r < b
    requires a < 0 ==> -b < r <= 0
    ensures q == Quot(a, b) && r == Rem(a, b)
  {
    var q', r' := Quot(a, b), Rem(a, b);
    var d := q - q';
    assert d * b == r' - r;
    assert -b < r' - r < b;
    if d >= 1 {
      MulAtLeast(d, b);
    } else if d <= -1 {
      MulAtLeast(-d, b);
    }
  }

  lemma MulAtLeast(d: int, b: int)
    requires d >= 1 && b > 0
    ensures d * b >= b
  {
    assert d * b == b + (d - 1) * b;
  }

  /** One minute and one second of idle time below zero, as the report computes it. */
  lemma NegativeIdleTruncates()
    ensures Split(-61) == Hms(0, -1, -1)
  {
  }

  /** The sign written before a difference: a plus for zero and above, nothing below zero. */
  function SignPrefix(v: int): string {
    if v >= 0 then "+" else ""
  }

  /** The value a string of decimal digits denotes, most significant digit first. */
  function DigitValue(s: string): int {
    if s == [] then 0 else 10 * DigitValue(s[..|s| - 1]) + (s[|s| - 1] as int - '0' as int)
  }

  /** A number as it is printed: one or more decimal digits, with no leading zero unless it is the only digit. */
  predicate Canonical(s: string) {
    && |s| > 0
    && (forall i :: 0 <= i < |s| ==> '0' <= s[i] <= '9')
    && (s[0] == '0' ==> |s| == 1)
  }

  /** The decimal digits of `n`, without leading zeros. */
  function Digits(n: nat): (s: string)
    ensures Canonical(s)
    ensures DigitValue(s) == n
    ensures n == 0 ==> s == "0"
    ensures n > 0 ==> s[0] != '0'
  {
    if n < 10 then [('0' as int + n) as char]
    else
      var s := Digits(n / 10) + [('0' as int + n % 10) as char];
      assert s[..|s| - 1] == Digits(n / 10);
      s
  }

  /** A string of digits is worth at least zero, and more than zero when it does not start with `0`. */
  lemma {:induction false} DigitValueSign(s: string)
    requires forall i :: 0 <= i < |s| ==> '0' <= s[i] <= '9'
    ensures DigitValue(s) >= 0
    ensures |s| > 0 && s[0] != '0' ==> DigitValue(s) > 0
    decreases |s|
  {
    if s != [] {
      DigitValueSign(s[..|s| - 1]);
    }
  }

  /** The canonical digits of a number are unique: they are the ones `Digits` prints. */
  lemma {:induction false} DigitsOnly(t: string, n: nat)
    requires Canonical(t) && DigitValue(t) == n
    ensures t == Digits(n)
    decreases |t|
  {
    if |t| > 1 {
      var p := t[..|t| - 1];
      var d := t[|t| - 1] as int - '0' as int;
      assert p[0] == t[0];
      DigitValueSign(p);
      assert n == 10 * DigitValue(p) + d && 0 <= d <= 9;
      assert n / 10 == DigitValue(p) && n % 10 == d;
      DigitsOnly(p, n / 10);
      assert t == p + [t[|t| - 1]];
    }
  }

  /** How an integer is printed in decimal: a minus sign before the digits of a negative value. */
  function Decimal(v: int): string {
    if v < 0 then "-" + Digits(-v) else Digits(v)
  }

  /** Reads back a printed integer: an optional leading minus, then digits. */
  function ReadDecimal(s: string): int {
    if |s| > 0 && s[0] == '-' then -DigitValue(s[1..]) else DigitValue(s)
  }

  /** Printing an integer loses nothing: reading the text back gives the value. */
  lemma DecimalRoundTrip(v: int)
    ensures ReadDecimal(Decimal(v)) == v
  {
    if v < 0 {
      assert Decimal(v)[1..] == Digits(-v);
    } else {
      assert Digits(v)[0] != '-';
    }
  }

  /** The text after "Lines Written: " and "Characters Written: ". */
  function Signed(v: int): string {
    SignPrefix(v) + Decimal(v)
  }

  /**
   * `t` is how a difference `v` is shown: a `+` for zero and above or a `-`
   * below zero, then the canonical digits of its size.
   */
  predicate ShowsSigned(t: string, v: int) {
    && |t| >= 2
    && t[0] == (if v >= 0 then '+' else '-')
    && Canonical(t[1..])
    && DigitValue(t[1..]) == (if v >= 0 then v else -v)
  }

  /** Every shown difference carries exactly one sign: `+` when not negative, the value's own `-` otherwise. */
  lemma SignedShowsOneSign(v: int)
    ensures ShowsSigned(Signed(v), v)
    ensures v >= 0 ==> ReadDecimal(Signed(v)[1..]) == v
    ensures v < 0 ==> ReadDecimal(Signed(v)) == v
  {
    DecimalRoundTrip(v);
    if v >= 0 {
      assert Signed(v)[1..] == Decimal(v);
    } else {
      assert Signed(v) == Decimal(v);
      assert Signed(v)[1..] == Digits(-v);
    }
  }

  /** No other text shows the same difference. */
  lemma ShowsSignedOnly(t: string, v: int)
    requires ShowsSigned(t, v)
    ensures t == Signed(v)
  {
    DigitsOnly(t[1..], if v >= 0 then v else -v);
    assert t == [t[0]] + t[1..];
  }

  /** How many paths a recorded file list holds, zero when none was recorded. */
  function CountOr0(files: Option<set<Path>>): nat {
    match files
    case Some(s) => |s|
    case None => 0
  }

  datatype Stats = Stats(
    total: Hms, active: Hms, idle: Hms,
    linesWritten: int, charsWritten: int,
    linesShown: string, charsShown: string,
    filesModified: nat, filesCreated: nat, filesDeleted: nat)

  /** The numbers `draw_stats` shows for a session record ended at `endTime`. */
  function Summarize(rec: Record, endTime: int): (s: Stats)
    ensures Shows(s.total, endTime - rec.startTime)
    ensures Shows(s.active, rec.activeTimeSeconds)
    ensures Shows(s.idle, (endTime - rec.startTime) - rec.activeTimeSeconds)
    ensures s.linesWritten == rec.linesWritten.GetOr(0) && s.charsWritten == rec.charsWritten.GetOr(0)
    ensures ShowsSigned(s.linesShown, s.linesWritten) && ShowsSigned(s.charsShown, s.charsWritten)
    ensures rec.filesCreated.None? ==> s.filesCreated == 0
    ensures rec.filesCreated.Some? ==> s.filesCreated == |rec.filesCreated.value|
    ensures rec.filesModified.None? ==> s.filesModified == 0
    ensures rec.filesModified.Some? ==> s.filesModified == |rec.filesModified.value|
    ensures rec.filesDeleted.None? ==> s.filesDeleted == 0
    ensures rec.filesDeleted.Some? ==> s.filesDeleted == |rec.filesDeleted.value|
  {
    var total := endTime - rec.startTime;
    var idle := total - rec.activeTimeSeconds;
    var lines := rec.linesWritten.GetOr(0);
    var chars := rec.charsWritten.GetOr(0);
    SplitRecombines(total);
    SplitRecombines(rec.activeTimeSeconds);
    SplitRecombines(idle);
    SignedShowsOneSign(lines);
    SignedShowsOneSign(chars);
    Stats(Split(total), Split(rec.activeTimeSeconds), Split(idle),
          lines, chars, Signed(lines), Signed(chars),
          CountOr0(rec.filesModified), CountOr0(rec.filesCreated), CountOr0(rec.filesDeleted))
  }
}
