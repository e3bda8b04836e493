/** The two printers of event times, the moments they print, and the order of their texts. */
module Timestamps {
  import opened Utf16
  import opened Decimal

  /** The UTC fields of a JavaScript Date. */
  datatype DateTime = DateTime(year: int, month: int, day: int, hour: int, minute: int, second: int, milli: int)

  // ----- The moment -----

  predicate IsLeap(y: int) {
    y % 4 == 0 && (y % 100 != 0 || y % 400 == 0)
  }

  function DaysInYear(y: int): int {
    if IsLeap(y) then 366 else 365
  }

  function DaysInMonth(y: int, m: int): int {
    if m == 2 then (if IsLeap(y) then 29 else 28)
    else if m == 4 || m == 6 || m == 9 || m == 11 then 30
    else 31
  }

  function DaysBeforeMonth(y: int, m: int): int
    requires 1 <= m <= 12
    decreases m
  {
    if m == 1 then 0 else DaysBeforeMonth(y, m - 1) + DaysInMonth(y, m - 1)
  }

  /** Days from 1970-01-01 to the first day of a year, by the floor divisions of ECMAScript. */
  function DayFromYear(y: int): int {
    365 * (y - 1970) + (y - 1969) / 4 - (y - 1901) / 100 + (y - 1601) / 400
  }

  /** A Date's fields, on its supported range of about 271821 years before and after 1970. */
  predicate Valid(d: DateTime) {
    && -271821 <= d.year <= 275760
    && 1 <= d.month <= 12
    && 1 <= d.day <= DaysInMonth(d.year, d.month)
    && 0 <= d.hour < 24
    && 0 <= d.minute < 60
    && 0 <= d.second < 60
    && 0 <= d.milli < 1000
  }

  type Moment = d: DateTime | Valid(d) witness DateTime(1970, 1, 1, 0, 0, 0, 0)

  function DayOf(d: DateTime): int
    requires Valid(d)
  {
    DayFromYear(d.year) + DaysBeforeMonth(d.year, d.month) + d.day - 1
  }

  /** Milliseconds since the epoch: what `Date.prototype.getTime` returns. */
  function EpochMillis(d: DateTime): int
    requires Valid(d)
  {
    (((DayOf(d) * 24 + d.hour) * 60 + d.minute) * 60 + d.second) * 1000 + d.milli
  }

  // ----- The printers -----

  function PadStart(s: JsString, width: nat): (r: JsString)
    ensures |r| == if |s| < width then width else |s|
    decreases width
  {
    if |s| >= width then s else [ZERO] + PadStart(s, width - 1)
  }

  function Padded(n: nat, width: nat): JsString {
    PadStart(Digits(n), width)
  }

  const DASH: CodeUnit := 0x2D
  const PLUS: CodeUnit := 0x2B
  const COLON: CodeUnit := 0x3A
  const LETTER_T: CodeUnit := 0x54
  const LETTER_Z: CodeUnit := 0x5A

  /** Everything after the year, down to the milliseconds. */
  function AfterYear(d: DateTime): JsString
    requires Valid(d)
  {
    [DASH] + Padded(d.month, 2) + [DASH] + Padded(d.day, 2) + [LETTER_T] + Padded(d.hour, 2) + [COLON]
    + Padded(d.minute, 2) + [COLON] + Padded(d.second, 2) + [DOT] + Padded(d.milli, 3)
  }

  /** `formatDateUtcMicroseconds`, which the hash chain prints. */
  function ChainTimestamp(d: DateTime): JsString
    requires Valid(d)
  {
    PadStart(Show(d.year), 4) + AfterYear(d) + [ZERO, ZERO, ZERO, LETTER_Z]
  }

  /** The year of `Date.prototype.toISOString`: four digits, or a sign and six. */
  function IsoYear(y: int): JsString {
    if 0 <= y <= 9999 then Padded(y, 4)
    else if y < 0 then [DASH] + Padded(-y, 6)
    else [PLUS] + Padded(y, 6)
  }

  function IsoString(d: DateTime): JsString
    requires Valid(d)
  {
    IsoYear(d.year) + AfterYear(d) + [LETTER_Z]
  }

  /** `formatTimestampMicros`, which the proof bundle prints: the final `Z` becomes `000Z`. */
  function BundleTimestamp(d: DateTime): JsString
    requires Valid(d)
  {
    var iso := IsoString(d);
    iso[..|iso| - 1] + [ZERO, ZERO, ZERO, LETTER_Z]
  }

  // ----- When the printers agree -----

  lemma DigitsLength(n: nat)
    requires n < 1_000_000
    ensures |Digits(n)| == if n < 10 then 1 else if n < 100 then 2 else if n < 1000 then 3
                           else if n < 10_000 then 4 else if n < 100_000 then 5 else 6
    decreases n
  {
    if n >= 10 {
      DigitsLength(n / 10);
    }
  }

  /**
   * The two printers give the same text exactly for the years 0 to 9999 and for the years from -100000
   * down, which both print as a minus sign and six digits.
   */
  lemma PrintersAgreeExactly(d: DateTime)
    requires Valid(d)
    ensures ChainTimestamp(d) == BundleTimestamp(d) <==> 0 <= d.year <= 9999 || d.year <= -100_000
  {
    var rest := AfterYear(d) + [ZERO, ZERO, ZERO, LETTER_Z];
    var a, b := PadStart(Show(d.year), 4), IsoYear(d.year);
    assert ChainTimestamp(d) == a + rest;
    assert BundleTimestamp(d) == b + rest;
    YearsAgreeExactly(d.year);
    if a + rest == b + rest {
      CancelSuffix(a, b, rest);
    }
  }

  lemma CancelSuffix(a: JsString, b: JsString, rest: JsString)
    requires a + rest == b + rest
    ensures a == b
  {
    assert |a + rest| == |a| + |rest| && |b + rest| == |b| + |rest|;
    assert a == (a + rest)[..|a|];
    assert b == (b + rest)[..|b|];
  }

  lemma YearsAgreeExactly(y: int)
    requires -1_000_000 < y < 1_000_000
    ensures PadStart(Show(y), 4) == IsoYear(y) <==> 0 <= y <= 9999 || y <= -100_000
  {
    DigitsLength(if y < 0 then -y else y);
  }

  // ----- Texts of a fixed width compare as their numbers -----

  function Power10(k: nat): (p: nat)
    ensures p >= 1
  {
    if k == 0 then 1 else 10 * Power10(k - 1)
  }

  /** The last k decimal digits of n. */
  function Fixed(n: nat, k: nat): (r: JsString)
    ensures |r| == k
  {
    if k == 0 then [] else Fixed(n / 10, k - 1) + [ZERO + n % 10]
  }

  lemma {:induction false} PaddedIsFixed(n: nat, k: nat)
    requires k >= 1 && n < Power10(k)
    ensures Padded(n, k) == Fixed(n, k)
    decreases k
  {
    if n < 10 {
      PadZeros(n, k);
    } else {
      assert k > 1 by {
        assert Power10(1) == 10 * Power10(0);
      }
      PaddedIsFixed(n / 10, k - 1);
      PadSnoc(Digits(n / 10), ZERO + n % 10, k);
    }
  }

  lemma {:induction false} PadZeros(n: nat, k: nat)
    requires n < 10 && k >= 1
    ensures Padded(n, k) == Fixed(n, k)
  {
    if k > 1 {
      PadZeros(0, k - 1);
      assert Padded(0, k - 1) == PadStart([ZERO], k - 1);
      PadSnoc([], ZERO + n, k);
      assert [] + [ZERO + n] == [ZERO + n] == Digits(n);
      PadZeroDigit(k - 1);
    } else {
      assert Fixed(n, 1) == Fixed(n / 10, 0) + [ZERO + n % 10];
    }
  }

  lemma {:induction false} PadZeroDigit(k: nat)
    requires k >= 1
    ensures PadStart([], k) == PadStart([ZERO], k)
  {
    if k == 1 {
      assert PadStart([], 1) == [ZERO] + PadStart([], 0);
    } else {
      PadZeroDigit(k - 1);
    }
  }

  lemma {:induction false} PadSnoc(s: JsString, c: CodeUnit, k: nat)
    requires k >= 1
    ensures PadStart(s + [c], k) == PadStart(s, k - 1) + [c]
  {
    if |s| + 1 < k {
      PadSnoc(s, c, k - 1);
      assert [ZERO] + (PadStart(s, k - 2) + [c]) == [ZERO] + PadStart(s, k - 2) + [c];
    }
  }

  lemma {:induction false} LessOfConcat(a: JsString, b: JsString, c: JsString, d: JsString)
    requires |a| == |b|
    ensures Less(a + c, b + d) <==> Less(a, b) || (a == b && Less(c, d))
  {
    if a == [] {
      assert a + c == c && b + d == d;
    } else {
      assert (a + c)[1..] == a[1..] + c && (b + d)[1..] == b[1..] + d;
      LessOfConcat(a[1..], b[1..], c, d);
      assert a == [a[0]] + a[1..] && b == [b[0]] + b[1..];
    }
  }

  lemma {:induction false} FixedOrder(m: nat, n: nat, k: nat)
    requires m < Power10(k) && n < Power10(k)
    ensures Less(Fixed(m, k), Fixed(n, k)) <==> m < n
    ensures Fixed(m, k) == Fixed(n, k) <==> m == n
  {
    if k > 0 {
      FixedOrder(m / 10, n / 10, k - 1);
      LessOfConcat(Fixed(m / 10, k - 1), Fixed(n / 10, k - 1), [ZERO + m % 10], [ZERO + n % 10]);
      assert Fixed(m, k)[..k - 1] == Fixed(m / 10, k - 1) && Fixed(n, k)[..k - 1] == Fixed(n / 10, k - 1);
      assert Fixed(m, k)[k - 1] == ZERO + m % 10 && Fixed(n, k)[k - 1] == ZERO + n % 10;
    }
  }

  // ----- The order of the texts is the order of the moments -----

  function MilliText(d: DateTime): JsString
    requires Valid(d)
  {
    Fixed(d.milli, 3) + [ZERO, ZERO, ZERO, LETTER_Z]
  }

  function SecondText(d: DateTime): JsString
    requires Valid(d)
  {
    Fixed(d.second, 2) + ([DOT] + MilliText(d))
  }

  function MinuteText(d: DateTime): JsString
    requires Valid(d)
  {
    Fixed(d.minute, 2) + ([COLON] + SecondText(d))
  }

  function HourText(d: DateTime): JsString
    requires Valid(d)
  {
    Fixed(d.hour, 2) + ([COLON] + MinuteText(d))
  }

  function DayText(d: DateTime): JsString
    requires Valid(d)
  {
    Fixed(d.day, 2) + ([LETTER_T] + HourText(d))
  }

  function MonthText(d: DateTime): JsString
    requires Valid(d)
  {
    Fixed(d.month, 2) + ([DASH] + DayText(d))
  }

  /** The text from the month on, at a fixed width; both printers put it after the year. */
  function RestText(d: DateTime): JsString
    requires Valid(d)
  {
    [DASH] + MonthText(d)
  }

  lemma PowersOf10()
    ensures Power10(2) == 100 && Power10(3) == 1000 && Power10(4) == 10_000 && Power10(6) == 1_000_000
  {
    assert Power10(1) == 10 * Power10(0);
    assert Power10(2) == 10 * Power10(1);
    assert Power10(3) == 10 * Power10(2);
    assert Power10(4) == 10 * Power10(3);
    assert Power10(5) == 10 * Power10(4);
    assert Power10(6) == 10 * Power10(5);
  }

  lemma TextLayout(d: DateTime)
    requires Valid(d)
    ensures ChainTimestamp(d) == PadStart(Show(d.year), 4) + RestText(d)
    ensures BundleTimestamp(d) == IsoYear(d.year) + RestText(d)
  {
    PowersOf10();
    PaddedIsFixed(d.month, 2);
    PaddedIsFixed(d.day, 2);
    PaddedIsFixed(d.hour, 2);
    PaddedIsFixed(d.minute, 2);
    PaddedIsFixed(d.second, 2);
    PaddedIsFixed(d.milli, 3);
    LayoutAfter(PadStart(Show(d.year), 4), d);
    LayoutAfter(IsoYear(d.year), d);
    var iso := IsoString(d);
    assert iso[..|iso| - 1] == IsoYear(d.year) + AfterYear(d);
  }

  lemma LayoutAfter(year: JsString, d: DateTime)
    requires Valid(d)
    requires AfterYear(d) == [DASH] + Fixed(d.month, 2) + [DASH] + Fixed(d.day, 2) + [LETTER_T] + Fixed(d.hour, 2)
      + [COLON] + Fixed(d.minute, 2) + [COLON] + Fixed(d.second, 2) + [DOT] + Fixed(d.milli, 3)
    ensures year + AfterYear(d) + [ZERO, ZERO, ZERO, LETTER_Z] == year + RestText(d)
  {
    RegroupFields(year, Fixed(d.month, 2), Fixed(d.day, 2), Fixed(d.hour, 2), Fixed(d.minute, 2),
                  Fixed(d.second, 2), Fixed(d.milli, 3), [ZERO, ZERO, ZERO, LETTER_Z]);
  }

  lemma RegroupFields(y: JsString, mo: JsString, day: JsString, h: JsString, mi: JsString, s: JsString,
          ms: JsString, tail: JsString)
    ensures y + ([DASH] + mo + [DASH] + day + [LETTER_T] + h + [COLON] + mi + [COLON] + s + [DOT] + ms) + tail
         == y + ([DASH] + (mo + ([DASH] + (day + ([LETTER_T]
            + (h + ([COLON] + (mi + ([COLON] + (s + ([DOT] + (ms + tail))))))))))))
  {
    var p1 := [DASH] + mo + [DASH];
    var p2 := p1 + day + [LETTER_T];
    var p3 := p2 + h + [COLON];
    var p4 := p3 + mi + [COLON];
    var p5 := p4 + s + [DOT];
    var t5 := ms + tail;
    var t4 := s + ([DOT] + t5);
    var t3 := mi + ([COLON] + t4);
    var t2 := h + ([COLON] + t3);
    var t1 := day + ([LETTER_T] + t2);
    Regroup(p4, s, [DOT], t5);
    Regroup(p3, mi, [COLON], t4);
    Regroup(p2, h, [COLON], t3);
    Regroup(p1, day, [LETTER_T], t2);
    Regroup([DASH], mo, [DASH], t1);
    assert p5 + ms + tail == p5 + t5;
    assert y + (p5 + ms) + tail == y + (p5 + ms + tail);
  }

  lemma Regroup(p: JsString, field: JsString, mark: JsString, rest: JsString)
    ensures p + field + mark + rest == p + (field + (mark + rest))
  {
  }

  lemma FieldOrder(m: nat, n: nat, k: nat, mark: CodeUnit, c: JsString, d: JsString)
    requires m < Power10(k) && n < Power10(k)
    ensures Less(Fixed(m, k) + ([mark] + c), Fixed(n, k) + ([mark] + d)) <==> m < n || (m == n && Less(c, d))
  {
    FixedOrder(m, n, k);
    LessOfConcat(Fixed(m, k), Fixed(n, k), [mark] + c, [mark] + d);
    assert ([mark] + c)[1..] == c && ([mark] + d)[1..] == d;
  }

  /** Fields compared from the year down. */
  predicate FieldsLess(a: DateTime, b: DateTime) {
    a.year < b.year || (a.year == b.year && WithinYearLess(a, b))
  }

  predicate WithinYearLess(a: DateTime, b: DateTime) {
    a.month < b.month || (a.month == b.month && (a.day < b.day || (a.day == b.day && ClockLess(a, b))))
  }

  predicate ClockLess(a: DateTime, b: DateTime) {
    a.hour < b.hour || (a.hour == b.hour && (a.minute < b.minute || (a.minute == b.minute
      && (a.second < b.second || (a.second == b.second && a.milli < b.milli)))))
  }

  lemma ClockTextOrder(a: DateTime, b: DateTime)
    requires Valid(a) && Valid(b)
    ensures Less(HourText(a), HourText(b)) <==> ClockLess(a, b)
  {
    PowersOf10();
    var micros := [ZERO, ZERO, ZERO, LETTER_Z];
    FixedOrder(a.milli, b.milli, 3);
    LessOfConcat(Fixed(a.milli, 3), Fixed(b.milli, 3), micros, micros);
    LessTrichotomy(micros, micros);
    FieldOrder(a.second, b.second, 2, DOT, MilliText(a), MilliText(b));
    FieldOrder(a.minute, b.minute, 2, COLON, SecondText(a), SecondText(b));
    FieldOrder(a.hour, b.hour, 2, COLON, MinuteText(a), MinuteText(b));
  }

  lemma RestOrder(a: DateTime, b: DateTime)
    requires Valid(a) && Valid(b)
    ensures Less(RestText(a), RestText(b)) <==> WithinYearLess(a, b)
  {
    PowersOf10();
    ClockTextOrder(a, b);
    FieldOrder(a.day, b.day, 2, LETTER_T, HourText(a), HourText(b));
    FieldOrder(a.month, b.month, 2, DASH, DayText(a), DayText(b));
    assert RestText(a)[1..] == MonthText(a) && RestText(b)[1..] == MonthText(b);
  }

  lemma {:induction false} YearsAscend(y: int, z: int)
    requires y <= z
    ensures DayFromYear(y) <= DayFromYear(z)
    ensures y < z ==> DayFromYear(y) + DaysInYear(y) <= DayFromYear(z)
    decreases z - y
  {
    if y < z {
      YearStep(y);
      YearsAscend(y + 1, z);
    }
  }

  lemma YearStep(y: int)
    ensures DayFromYear(y + 1) == DayFromYear(y) + DaysInYear(y)
  {
    FloorSteps(y - 1969, y - 1901, y - 1601);
    MultiplesShift(y);
  }

  lemma FloorSteps(a: int, b: int, c: int)
    ensures (a + 1) / 4 - a / 4 == if (a + 1) % 4 == 0 then 1 else 0
    ensures (b + 1) / 100 - b / 100 == if (b + 1) % 100 == 0 then 1 else 0
    ensures (c + 1) / 400 - c / 400 == if (c + 1) % 400 == 0 then 1 else 0
  {
  }

  lemma MultiplesShift(y: int)
    ensures (y - 1968) % 4 == 0 <==> y % 4 == 0
    ensures (y - 1900) % 100 == 0 <==> y % 100 == 0
    ensures (y - 1600) % 400 == 0 <==> y % 400 == 0
    ensures y % 400 == 0 ==> y % 100 == 0
    ensures y % 100 == 0 ==> y % 4 == 0
  {
    MultipleShift(y, 492, 4);
    MultipleShift(y, 19, 100);
    MultipleShift(y, 4, 400);
    MultipleOfMultiple(y, 4, 100);
    MultipleOfMultiple(y, 25, 4);
  }

  lemma MultipleShift(y: int, q: int, k: int)
    requires k == 4 || k == 100 || k == 400
    ensures (y - q * k) % k == 0 <==> y % k == 0
  {
    var d := y / k;
    assert y - q * k == (d - q) * k + y % k;
  }

  lemma MultipleOfMultiple(y: int, q: int, k: int)
    requires (q == 4 && k == 100) || (q == 25 && k == 4)
    ensures y % (q * k) == 0 ==> y % k == 0
  {
    var d := y / (q * k);
    assert y % (q * k) == 0 ==> y == q * d * k;
  }

  lemma {:induction false} MonthsAscend(y: int, m: int, n: int)
    requires 1 <= m <= n <= 12
    ensures m < n ==> DaysBeforeMonth(y, m) + DaysInMonth(y, m) <= DaysBeforeMonth(y, n)
    decreases n - m
  {
    if m < n {
      MonthsAscend(y, m, n - 1);
    }
  }

  lemma DayWithinYear(d: DateTime)
    requires Valid(d)
    ensures 0 <= DayOf(d) - DayFromYear(d.year) < DaysInYear(d.year)
  {
    MonthsAscend(d.year, 1, d.month);
    MonthsAscend(d.year, d.month, 12);
    YearLength(d.year);
  }

  lemma YearLength(y: int)
    ensures DaysBeforeMonth(y, 12) + DaysInMonth(y, 12) == DaysInYear(y)
  {
    assert DaysBeforeMonth(y, 3) == DaysBeforeMonth(y, 2) + DaysInMonth(y, 2) == 31 + DaysInMonth(y, 2);
    assert DaysBeforeMonth(y, 6) == DaysBeforeMonth(y, 4) + 61 == DaysBeforeMonth(y, 3) + 92;
    assert DaysBeforeMonth(y, 8) == DaysBeforeMonth(y, 7) + 31 == DaysBeforeMonth(y, 6) + 61;
    assert DaysBeforeMonth(y, 10) == DaysBeforeMonth(y, 9) + 30 == DaysBeforeMonth(y, 8) + 61;
    assert DaysBeforeMonth(y, 12) == DaysBeforeMonth(y, 11) + 30 == DaysBeforeMonth(y, 10) + 61;
  }

  lemma DayOrder(a: DateTime, b: DateTime)
    requires Valid(a) && Valid(b)
    ensures DayOf(a) < DayOf(b) <==>
      a.year < b.year || (a.year == b.year && (a.month < b.month || (a.month == b.month && a.day < b.day)))
    ensures DayOf(a) == DayOf(b) <==> a.year == b.year && a.month == b.month && a.day == b.day
  {
    DayWithinYear(a);
    DayWithinYear(b);
    if a.year < b.year {
      YearsAscend(a.year, b.year);
    } else if b.year < a.year {
      YearsAscend(b.year, a.year);
    } else if a.month <= b.month {
      MonthsAscend(a.year, a.month, b.month);
    } else {
      MonthsAscend(a.year, b.month, a.month);
    }
  }

  /** Comparing numbers digit by digit, in the bases of the clock. */
  lemma RadixOrder(a: int, b: int, c: int, d: int)
    ensures 0 <= b < 24 && 0 <= d < 24 ==> (a * 24 + b < c * 24 + d <==> a < c || (a == c && b < d))
    ensures 0 <= b < 60 && 0 <= d < 60 ==> (a * 60 + b < c * 60 + d <==> a < c || (a == c && b < d))
    ensures 0 <= b < 1000 && 0 <= d < 1000 ==> (a * 1000 + b < c * 1000 + d <==> a < c || (a == c && b < d))
  {
  }

  lemma MomentOrder(a: DateTime, b: DateTime)
    requires Valid(a) && Valid(b)
    ensures EpochMillis(a) < EpochMillis(b) <==> FieldsLess(a, b)
  {
    DayOrder(a, b);
    var hoursA, hoursB := DayOf(a) * 24 + a.hour, DayOf(b) * 24 + b.hour;
    RadixOrder(DayOf(a), a.hour, DayOf(b), b.hour);
    RadixOrder(hoursA, a.minute, hoursB, b.minute);
    RadixOrder(hoursA * 60 + a.minute, a.second, hoursB * 60 + b.minute, b.second);
    RadixOrder((hoursA * 60 + a.minute) * 60 + a.second, a.milli, (hoursB * 60 + b.minute) * 60 + b.second, b.milli);
  }

  // ----- When the order of the bundle's texts is the order of the moments -----

  /**
   * Years whose texts compare as the years do: both of four digits, both later, both the same negative one, or a
   * negative one and one of four digits.
   */
  predicate Comparable(y: int, z: int) {
    || (0 <= y <= 9999 && 0 <= z <= 9999)
    || (y > 9999 && z > 9999)
    || (y < 0 && z == y)
    || (y < 0 && 0 <= z <= 9999)
    || (z < 0 && 0 <= y <= 9999)
  }

  lemma IsoYearForm(y: int)
    requires -1_000_000 < y < 1_000_000
    ensures IsoYear(y) ==
      if 0 <= y <= 9999 then Fixed(y, 4) else if y < 0 then [DASH] + Fixed(-y, 6) else [PLUS] + Fixed(y, 6)
    ensures 0 <= y <= 9999 ==> IsDigit(IsoYear(y)[0])
  {
    PowersOf10();
    if 0 <= y <= 9999 {
      PaddedIsFixed(y, 4);
      FixedStart(y, 4);
    } else {
      PaddedIsFixed(if y < 0 then -y else y, 6);
    }
  }

  lemma {:induction false} FixedStart(n: nat, k: nat)
    requires k >= 1
    ensures IsDigit(Fixed(n, k)[0])
  {
    if k > 1 {
      FixedStart(n / 10, k - 1);
    }
  }

  /** Years of one form: four digits, a plus sign, or a minus sign, which turns the order round. */
  lemma SameFormOrder(y: int, z: int, c: JsString, d: JsString)
    requires -1_000_000 < y < 1_000_000 && -1_000_000 < z < 1_000_000
    requires (0 <= y <= 9999 && 0 <= z <= 9999) || (y > 9999 && z > 9999) || (y < 0 && z < 0)
    ensures Less(IsoYear(y) + c, IsoYear(z) + d) <==> (if y < 0 then z < y else y < z) || (y == z && Less(c, d))
  {
    IsoYearForm(y);
    IsoYearForm(z);
    PowersOf10();
    LessOfConcat(IsoYear(y), IsoYear(z), c, d);
    if 0 <= y <= 9999 {
      FixedOrder(y, z, 4);
    } else {
      var m, n := if y < 0 then -y else y, if z < 0 then -z else z;
      FixedOrder(m, n, 6);
      assert IsoYear(y)[1..] == Fixed(m, 6) && IsoYear(z)[1..] == Fixed(n, 6);
    }
  }

  /** Between two forms the first character decides: plus sign, minus sign, digit. */
  lemma OtherFormOrder(y: int, z: int, c: JsString, d: JsString)
    requires -1_000_000 < y < 1_000_000 && -1_000_000 < z < 1_000_000
    requires (y > 9999 && z <= 9999) || (y < 0 && 0 <= z <= 9999)
    ensures Less(IsoYear(y) + c, IsoYear(z) + d) && !Less(IsoYear(z) + d, IsoYear(y) + c)
  {
    IsoYearForm(y);
    IsoYearForm(z);
    assert (IsoYear(y) + c)[0] == IsoYear(y)[0] && (IsoYear(z) + d)[0] == IsoYear(z)[0];
  }

  /**
   * For every two moments: of comparable years the bundle's texts compare as the moments do, and of any other years
   * they compare the other way round.
   */
  lemma {:induction false} TextOrderExactly(a: Moment, b: Moment)
    ensures Comparable(a.year, b.year) ==>
      (Less(BundleTimestamp(a), BundleTimestamp(b)) <==> EpochMillis(a) < EpochMillis(b))
    ensures !Comparable(a.year, b.year) ==>
      && (Less(BundleTimestamp(a), BundleTimestamp(b)) <==> EpochMillis(b) < EpochMillis(a))
      && EpochMillis(a) != EpochMillis(b)
  {
    var y, z := a.year, b.year;
    TextLayout(a);
    TextLayout(b);
    RestOrder(a, b);
    MomentOrder(a, b);
    MomentOrder(b, a);
    if (y > 9999 && z <= 9999) || (y < 0 && 0 <= z <= 9999) {
      OtherFormOrder(y, z, RestText(a), RestText(b));
    } else if (z > 9999 && y <= 9999) || (z < 0 && 0 <= y <= 9999) {
      OtherFormOrder(z, y, RestText(b), RestText(a));
    } else {
      SameFormOrder(y, z, RestText(a), RestText(b));
    }
  }

  /** For moments in the years 0 to 9999 both printers give the same text, and comparing texts compares the moments. */
  lemma {:induction false} TextOrderIsTimeOrder(a: Moment, b: Moment)
    requires 0 <= a.year <= 9999 && 0 <= b.year <= 9999
    ensures Less(BundleTimestamp(a), BundleTimestamp(b)) <==> EpochMillis(a) < EpochMillis(b)
    ensures BundleTimestamp(a) == ChainTimestamp(a)
  {
    TextOrderExactly(a, b);
    PrintersAgreeExactly(a);
  }

  // ----- The chain's text determines the moment -----

  /** Reads a padded year back: digits, or zeros, a minus sign and digits. */
  function YearOf(text: JsString): int {
    var r := TakeDigits(text, 0);
    if r.rest == [] then r.value else -(TakeDigits(r.rest[1..], 0).value as int)
  }

  lemma {:induction false} PaddingReadsAsNothing(s: JsString, width: nat)
    ensures TakeDigits(PadStart(s, width), 0) == TakeDigits(s, 0)
    decreases width
  {
    if |s| < width {
      PaddingReadsAsNothing(s, width - 1);
      assert PadStart(s, width)[1..] == PadStart(s, width - 1);
    }
  }

  lemma {:induction false} YearOfPadded(y: int)
    ensures YearOf(PadStart(Show(y), 4)) == y
  {
    PaddingReadsAsNothing(Show(y), 4);
    var n: nat := if y < 0 then -y else y;
    TakeDigitsOfDigits(n, []);
    assert Digits(n) + [] == Digits(n);
    assert TakeDigits([], n) == Reading(n, []);
    if y < 0 {
      assert Show(y)[1..] == Digits(n);
    }
  }

  /** Two moments of any years that the hash chain prints alike are the same moment. */
  lemma {:induction false} ChainTextDeterminesMoment(a: Moment, b: Moment)
    requires ChainTimestamp(a) == ChainTimestamp(b)
    ensures a == b
  {
    var y, z := PadStart(Show(a.year), 4), PadStart(Show(b.year), 4);
    TextLayout(a);
    TextLayout(b);
    RestWidth(a);
    RestWidth(b);
    assert y == (y + RestText(a))[..|y|] && z == (z + RestText(b))[..|z|];
    assert RestText(a) == (y + RestText(a))[|y|..] && RestText(b) == (z + RestText(b))[|z|..];
    YearOfPadded(a.year);
    YearOfPadded(b.year);
    RestOrder(a, b);
    RestOrder(b, a);
    LessTrichotomy(RestText(a), RestText(b));
  }

  lemma RestWidth(d: DateTime)
    requires Valid(d)
    ensures |RestText(d)| == 23
  {
  }
}
