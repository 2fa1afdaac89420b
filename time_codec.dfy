/**
 * The time codec of the MP3 splitter: `parse_time_to_seconds` reads
 * `h:mm:ss`, `mm:ss` or bare seconds, and `format_time` renders seconds as
 * `HH:MM:SS` or `MM:SS`.
 */
module TimeCodec {
  import opened Wrappers
  import opened Strings
  import opened Arith

  /**
   * Python's `int(text)` on the inputs this model admits: surrounding
   * whitespace is ignored, and what remains must be a non-empty run of
   * ASCII digits.
   */
  function ParseInt(text: string): (r: Option<nat>)
    ensures r.Some? <==> IsDigitString(Strip(text))
  {
    var t := Strip(text);
    if IsDigitString(t) then Some(DigitsValue(t)) else None
  }

  /** `parse_time_to_seconds`: the number of colons after stripping picks the shape. */
  function ParseTimeToSeconds(text: string): Option<nat> {
    var t := Strip(text);
    var colons := Count(t, ':');
    if colons == 1 || colons == 2 then ParseFields(Split(t, ':')) else ParseInt(t)
  }

  /** `h * 3600 + m * 60 + s`: the seconds of an hours-minutes-seconds time. */
  function Seconds(h: nat, m: nat, s: nat): nat {
    h * 3600 + m * 60 + s
  }

  /** `h, m, s = map(int, ...)` or `m, s = map(int, ...)`: every field must be an integer. */
  function ParseFields(parts: seq<string>): Option<nat>
    requires |parts| == 2 || |parts| == 3
  {
    if |parts| == 3 then
      var h, m, s := ParseInt(parts[0]), ParseInt(parts[1]), ParseInt(parts[2]);
      if h.Some? && m.Some? && s.Some? then Some(Seconds(h.value, m.value, s.value)) else None
    else
      var m, s := ParseInt(parts[0]), ParseInt(parts[1]);
      if m.Some? && s.Some? then Some(Seconds(0, m.value, s.value)) else None
  }

  /** Text with three or more colons falls to the bare-integer branch, which rejects it. */
  lemma ParseRejectsManyColons(text: string)
    requires Count(Strip(text), ':') >= 3
    ensures ParseTimeToSeconds(text) == None
  {
    var t := Strip(text);
    CountAbsent(t, ':');
    StripUnchanged(t);
    var k :| 0 <= k < |t| && t[k] == ':';
    assert !IsDigit(t[k]);
  }

  /** Python's `f"{x:02d}"` for a non-negative integer: at least two digits, exactly two below 100. */
  function Pad2(x: nat): (r: string)
    ensures IsDigitString(r) && DigitsValue(r) == x
    ensures ':' !in r && '_' !in r && '.' !in r && '/' !in r
    ensures |r| >= 2 && (x < 100 ==> |r| == 2)
  {
    if x < 10 then
      assert DigitsValue([DigitChar(x)]) == x by {
        assert [DigitChar(x)][..0] == [];
      }
      LeadingZero([DigitChar(x)]);
      "0" + [DigitChar(x)]
    else
      NatToDigitsRoundTrip(x);
      assert NatToDigits(x) == NatToDigits(x / 10) + [DigitChar(x % 10)];
      NatToDigits(x)
  }

  /** The two branches of `format_time`: `HH:MM:SS` when there are hours, `MM:SS` otherwise. */
  function Render(h: int, m: nat, s: nat): string {
    if h > 0 then Pad2(h) + ":" + Pad2(m) + ":" + Pad2(s) else Pad2(m) + ":" + Pad2(s)
  }

  /** `format_time` on a whole number of seconds. */
  function FormatClock(n: nat): string {
    Render(n / 3600, n % 3600 / 60, n % 60)
  }

  /**
   * Python's `x % y` on floats with a positive divisor: never negative,
   * below `y`, and `x` minus it is a whole multiple of `y`.
   */
  function FloatMod(x: real, y: real): (r: real)
    requires y > 0.0
    ensures 0.0 <= r < y
    ensures ((x - r) / y).Floor as real == (x - r) / y
  {
    var q := (x / y).Floor as real;
    QuotientBounds(x, y, q, q + 1.0);
    assert (x - (x - y * q)) / y == q;
    x - y * q
  }

  /** `lo <= x / k < hi` exactly when `lo * k <= x < hi * k`, for positive `k`. */
  lemma QuotientBounds(x: real, k: real, lo: real, hi: real)
    requires k > 0.0
    ensures lo <= x / k < hi <==> lo * k <= x < hi * k
  {
    var z := x / k;
    assert z * k == x;
    assert (z - lo) * k == x - lo * k;
    assert (hi - z) * k == hi * k - x;
    SignOfProduct(z - lo, k);
    SignOfProduct(hi - z, k);
  }

  lemma SignOfProduct(a: real, k: real)
    requires k > 0.0
    ensures a >= 0.0 <==> a * k >= 0.0
    ensures a > 0.0 <==> a * k > 0.0
  {
  }

  /**
   * `format_time(seconds)` on a non-negative float: `int(seconds // 3600)`,
   * `int((seconds % 3600) // 60)` and `int(seconds % 60)`, padded to two digits.
   */
  function FormatTime(seconds: real): string
    requires seconds >= 0.0
  {
    var h := (seconds / 3600.0).Floor;
    var m := (FloatMod(seconds, 3600.0) / 60.0).Floor;
    var s := FloatMod(seconds, 60.0).Floor;
    Render(h, m, s)
  }

  /** What `format_time` can produce: digits and colons, ending in a digit. */
  predicate ClockText(r: string) {
    && r != []
    && IsDigit(r[|r| - 1])
    && forall k :: 0 <= k < |r| ==> r[k] == ':' || IsDigit(r[k])
  }

  /** Digit fields joined by colons are clock text. */
  lemma JoinedClockText(a: string, b: string, c: string)
    requires IsDigitString(a) && IsDigitString(b) && IsDigitString(c)
    ensures ClockText(a + ":" + b + ":" + c) && ClockText(b + ":" + c)
  {
  }

  /** Every `format_time` result is clock text. */
  lemma FormatTimeShape(seconds: real)
    requires seconds >= 0.0
    ensures ClockText(FormatTime(seconds))
  {
    var h := (seconds / 3600.0).Floor;
    var m := (FloatMod(seconds, 3600.0) / 60.0).Floor;
    var s := FloatMod(seconds, 60.0).Floor;
    JoinedClockText(Pad2(if h > 0 then h else 0), Pad2(m), Pad2(s));
  }

  /** Floor of a quotient by a positive integer is the integer quotient of the floor. */
  lemma FloorDiv(x: real, k: nat)
    requires x >= 0.0 && k > 0
    ensures (x / (k as real)).Floor == x.Floor / k
  {
    var f := x.Floor;
    var q := f / k;
    assert q * k <= f < (q + 1) * k;
    assert (q * k) as real == (q as real) * (k as real);
    assert ((q + 1) * k) as real == ((q + 1) as real) * (k as real);
    QuotientBounds(x, k as real, q as real, (q + 1) as real);
  }

  /** Floor of a float remainder is the integer remainder of the floor. */
  lemma FloorMod(x: real, k: nat)
    requires x >= 0.0 && k > 0
    ensures FloatMod(x, k as real).Floor == x.Floor % k
  {
    FloorDiv(x, k);
    var q := x.Floor / k;
    assert (k * q) as real == (k as real) * (q as real);
    assert FloatMod(x, k as real) == x - ((k * q) as real);
  }

  /** The minutes field of a float is the minutes field of its floor. */
  lemma MinutesField(x: real)
    requires x >= 0.0
    ensures (FloatMod(x, 3600.0) / 60.0).Floor == x.Floor % 3600 / 60
  {
    FloorMod(x, 3600);
    FloorDiv(FloatMod(x, 3600.0), 60);
  }

  /** Formatting a float formats its whole seconds: the fraction is dropped. */
  lemma FormatTimeFloor(x: real)
    requires x >= 0.0
    ensures FormatTime(x) == FormatClock(x.Floor)
  {
    FloorDiv(x, 3600);
    MinutesField(x);
    FloorMod(x, 60);
  }

  /** Once the stripped text, its colon count and its pieces are known, parsing reads the fields. */
  lemma ParseByFields(t: string, parts: seq<string>)
    requires Strip(t) == t && Split(t, ':') == parts
    requires |parts| == 2 || |parts| == 3
    ensures ParseTimeToSeconds(t) == ParseFields(parts)
  {
  }

  /** A field of digits reads as its decimal value. */
  lemma ParseDigitField(a: string)
    requires IsDigitString(a)
    ensures ParseInt(a) == Some(DigitsValue(a))
  {
    StripUnchanged(a);
  }

  /** `a:b` over colon-free, space-free fields strips to itself and splits into `[a, b]`. */
  lemma JoinTwo(a: string, b: string)
    requires IsDigitString(a) && IsDigitString(b)
    ensures Strip(a + ":" + b) == a + ":" + b
    ensures Split(a + ":" + b, ':') == [a, b]
  {
    var t := a + ":" + b;
    StripUnchanged(t);
    assert t == a + [':'] + b;
    SplitNoSeparator(b, ':');
    SplitAtFirst(a, b, ':');
  }

  /** Two digit fields read as minutes and seconds. */
  lemma ReadTwoFields(a: string, b: string)
    requires IsDigitString(a) && IsDigitString(b)
    ensures ParseFields([a, b]) == Some(Seconds(0, DigitsValue(a), DigitsValue(b)))
  {
    ParseDigitField(a);
    ParseDigitField(b);
  }

  /** `a:b` with digit fields `a` and `b` parses as minutes and seconds. */
  lemma ParseTwoFields(a: string, b: string)
    requires IsDigitString(a) && IsDigitString(b)
    ensures ParseTimeToSeconds(a + ":" + b) == Some(Seconds(0, DigitsValue(a), DigitsValue(b)))
  {
    JoinTwo(a, b);
    ParseByFields(a + ":" + b, [a, b]);
    ReadTwoFields(a, b);
  }

  /** `a:b:c` over digit fields neither starts nor ends with whitespace. */
  lemma StripThree(a: string, b: string, c: string)
    requires IsDigitString(a) && IsDigitString(b) && IsDigitString(c)
    ensures Strip(a + ":" + b + ":" + c) == a + ":" + b + ":" + c
  {
    var t := a + ":" + b + ":" + c;
    assert t[0] == a[0] && t[|t| - 1] == c[|c| - 1];
    StripUnchanged(t);
  }

  /** `a:b:c` over colon-free fields splits into `[a, b, c]`. */
  lemma SplitThree(a: string, b: string, c: string)
    requires ':' !in a && ':' !in b && ':' !in c
    ensures Split(a + ":" + b + ":" + c, ':') == [a, b, c]
  {
    var tail := b + [':'] + c;
    assert a + ":" + b + ":" + c == a + [':'] + tail;
    SplitNoSeparator(c, ':');
    SplitAtFirst(b, c, ':');
    SplitAtFirst(a, tail, ':');
  }

  /** Three digit fields read as hours, minutes and seconds. */
  lemma ReadThreeFields(a: string, b: string, c: string)
    requires IsDigitString(a) && IsDigitString(b) && IsDigitString(c)
    ensures ParseFields([a, b, c]) == Some(Seconds(DigitsValue(a), DigitsValue(b), DigitsValue(c)))
  {
    var parts := [a, b, c];
    assert parts[0] == a && parts[1] == b && parts[2] == c;
    ParseDigitField(a);
    ParseDigitField(b);
    ParseDigitField(c);
  }

  /** `a:b:c` with digit fields parses as hours, minutes and seconds. */
  lemma ParseThreeFields(a: string, b: string, c: string)
    requires IsDigitString(a) && IsDigitString(b) && IsDigitString(c)
    ensures ParseTimeToSeconds(a + ":" + b + ":" + c)
            == Some(Seconds(DigitsValue(a), DigitsValue(b), DigitsValue(c)))
  {
    assert ':' !in a && ':' !in b && ':' !in c by {
      assert !IsDigit(':');
    }
    StripThree(a, b, c);
    SplitThree(a, b, c);
    ParseByFields(a + ":" + b + ":" + c, [a, b, c]);
    ReadThreeFields(a, b, c);
  }

  /** The clock text of `n`, field by field. */
  lemma ClockFields(n: nat)
    ensures var h, m, s := n / 3600, n % 3600 / 60, n % 60;
            && h * 3600 + m * 60 + s == n
            && (h > 0 ==> FormatClock(n) == Pad2(h) + ":" + Pad2(m) + ":" + Pad2(s))
            && (h == 0 ==> FormatClock(n) == Pad2(m) + ":" + Pad2(s))
  {
    var h, r := n / 3600, n % 3600;
    var m, s := r / 60, r % 60;
    assert n == h * 3600 + r && r == m * 60 + s;
    assert (h * 60 + m) * 60 + s == n;
    ModUnique(n, 60, h * 60 + m, s);
  }

  /**
   * Below 100 hours the clock text has fixed width: three two-digit
   * fields (`HH:MM:SS`, 8 characters) from one hour on, two (`MM:SS`,
   * 5 characters) below it.
   */
  lemma ClockWidth(n: nat)
    requires n < 360000
    ensures n >= 3600 ==> |FormatClock(n)| == 8
    ensures n < 3600 ==> |FormatClock(n)| == 5
  {
    ClockFields(n);
  }

  /** Three padded fields joined by colons parse back to the seconds they spell. */
  lemma PaddedThree(h: nat, m: nat, s: nat)
    ensures var r := ParseTimeToSeconds(Pad2(h) + ":" + Pad2(m) + ":" + Pad2(s));
            r.Some? && r.value == Seconds(h, m, s)
  {
    var a, b, c := Pad2(h), Pad2(m), Pad2(s);
    ParseThreeFields(a, b, c);
  }

  /** Two padded fields joined by a colon parse back to minutes and seconds. */
  lemma PaddedTwo(m: nat, s: nat)
    ensures var r := ParseTimeToSeconds(Pad2(m) + ":" + Pad2(s));
            r.Some? && r.value == Seconds(0, m, s)
  {
    var b, c := Pad2(m), Pad2(s);
    ParseTwoFields(b, c);
  }

  /** A clock text with an hour field reads back as `n` once its fields add up to `n`. */
  lemma ReadsBackThree(t: string, n: nat, h: nat, m: nat, s: nat)
    requires h * 3600 + m * 60 + s == n
    requires t == Pad2(h) + ":" + Pad2(m) + ":" + Pad2(s)
    ensures ParseTimeToSeconds(t).Some? && ParseTimeToSeconds(t).value == n
  {
    PaddedThree(h, m, s);
  }

  /** A clock text without an hour field reads back as `n` once its fields add up to `n`. */
  lemma ReadsBackTwo(t: string, n: nat, m: nat, s: nat)
    requires m * 60 + s == n
    requires t == Pad2(m) + ":" + Pad2(s)
    ensures ParseTimeToSeconds(t).Some? && ParseTimeToSeconds(t).value == n
  {
    PaddedTwo(m, s);
  }

  /** Every clock rendering parses back to the number of seconds it shows. */
  lemma ClockRoundTrip(n: nat)
    ensures ParseTimeToSeconds(FormatClock(n)) == Some(n)
  {
    ClockFields(n);
    var h, m, s := n / 3600, n % 3600 / 60, n % 60;
    if h > 0 {
      ReadsBackThree(FormatClock(n), n, h, m, s);
    } else {
      ReadsBackTwo(FormatClock(n), n, m, s);
    }
  }

  /** `parse_time_to_seconds(format_time(n)) == n` for every whole number of seconds. */
  lemma FormatTimeRoundTrip(n: nat)
    ensures ParseTimeToSeconds(FormatTime(n as real)) == Some(n)
  {
    FormatTimeFloor(n as real);
    ClockRoundTrip(n);
  }
}
