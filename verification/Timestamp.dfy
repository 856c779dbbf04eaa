/** The timestamp of a log line: ISO 8601 in UTC, to the microsecond. */
module Timestamp {
  import opened Calendar
  import opened Preserve

  const I64_MAX: int := 0x7FFF_FFFF_FFFF_FFFF

  // ----- the instant

  /** Seconds are clamped rather than wrapped. */
  function WholeSeconds(seconds: nat): int { if seconds > I64_MAX then I64_MAX else seconds }

  /** An instant, in nanoseconds from the epoch, as seconds and the nanoseconds behind them. */
  function SinceTheEpoch(at: int): (int, int) {
    if at >= 0 then (WholeSeconds(at / 1_000_000_000), at % 1_000_000_000)
    else
      var before := -at;
      var nanos := before % 1_000_000_000;
      if nanos == 0 then (-WholeSeconds(before / 1_000_000_000), 0)
      else (-WholeSeconds(before / 1_000_000_000) - 1, 1_000_000_000 - nanos)
  }

  /** The distance from the epoch is a number of seconds that fits in 64 bits with a sign. */
  predicate Countable(at: int) { (if at < 0 then -at else at) / 1_000_000_000 <= I64_MAX }

  /** Floor division on either side of the epoch, exactly where the seconds fit; and nothing ever overflows. */
  lemma SinceIsFloor(at: int)
    ensures var (seconds, nanos) := SinceTheEpoch(at);
      && -I64_MAX - 1 <= seconds <= I64_MAX && 0 <= nanos < 1_000_000_000
      && (seconds == at / 1_000_000_000 && nanos == at % 1_000_000_000 <==> Countable(at))
      && -I64_MAX - 1 <= seconds / 86_400 + 719_468 <= I64_MAX
  {
  }

  // ----- the text

  function Zeros(n: nat): (r: string)
    ensures |r| == n
  {
    if n == 0 then "" else Zeros(n - 1) + "0"
  }

  /** At least `width` digits. */
  function Pad(n: nat, width: nat): string {
    var digits := Decimal(n);
    if |digits| < width then Zeros(width - |digits|) + digits else digits
  }

  function YearText(year: int): string {
    if year > 9999 then "+" + Decimal(year)
    else if year < 0 then "-" + Pad(-year, 4)
    else Pad(year, 4)
  }

  /** A number of a format, and the text in front of it. */
  datatype Field = Field(before: string, value: nat, width: nat)

  function Printed(fields: seq<Field>): string {
    if fields == [] then ""
    else
      var k := |fields| - 1;
      Printed(fields[..k]) + (fields[k].before + Pad(fields[k].value, fields[k].width))
  }

  function Day(at: int): Date { CivilFromDays(SinceTheEpoch(at).0 / 86_400) }

  /** What stands behind the year. */
  function Rest(at: int): seq<Field>
    requires 0 <= Day(at).month && 0 <= Day(at).day && 0 <= SinceTheEpoch(at).1
  {
    var time := SinceTheEpoch(at).0 % 86_400;
    [Field("-", Day(at).month, 2), Field("-", Day(at).day, 2), Field("T", time / 3600, 2), Field(":", time / 60 % 60, 2),
     Field(":", time % 60, 2), Field(".", SinceTheEpoch(at).1 / 1000, 6)]
  }

  lemma Printable(at: int)
    ensures Day(at).Valid() && 0 <= Day(at).month && 0 <= Day(at).day && 0 <= SinceTheEpoch(at).1 < 1_000_000_000
  {
    hide CivilFromDays, DayNumber, DaysInMonth;
    CivilIsRight(SinceTheEpoch(at).0 / 86_400);
    SinceIsFloor(at);
  }

  function Stamp(at: int): string {
    Printable(at);
    YearText(Day(at).year) + Printed(Rest(at)) + "Z"
  }

  method WriteTimestamp(out: string, at: int) returns (written: string)
    ensures written == out + Stamp(at)
  {
    hide CivilFromDays, Pad, Printed, SinceTheEpoch, YearText;
    Printable(at);
    var year := YearText(Day(at).year);
    written := out + year;
    var fields := Rest(at);
    PrintedNone();
    for i := 0 to |fields|
      invariant written == out + (year + Printed(fields[..i]))
    {
      PrintedNext(fields, i);
      written := written + (fields[i].before + Pad(fields[i].value, fields[i].width));
    }
    assert fields[..|fields|] == fields;
    written := written + "Z";
  }

  lemma PrintedNone()
    ensures Printed([]) == ""
  {
  }

  lemma PrintedNext(fields: seq<Field>, i: nat)
    requires i < |fields|
    ensures Printed(fields[..i + 1]) == Printed(fields[..i]) + (fields[i].before + Pad(fields[i].value, fields[i].width))
  {
    assert fields[..i + 1][..i] == fields[..i];
  }

  // ----- digits of a fixed width

  function Power(n: nat): (r: nat)
    ensures r >= 1
  {
    if n == 0 then 1 else 10 * Power(n - 1)
  }

  lemma {:induction false} DecimalWidth(n: nat, width: nat)
    requires n < Power(width) && width >= 1
    ensures |Decimal(n)| <= width
    decreases width
  {
    if n >= 10 { DecimalWidth(n / 10, width - 1); }
  }

  function Digit(n: nat): char { ('0' as int + n % 10) as char }

  /** Padded digits are the padded digits in front of the last, and the last. */
  lemma PadStep(n: nat, width: nat)
    requires n < Power(width) && width >= 2
    ensures n / 10 < Power(width - 1) && Pad(n, width) == Pad(n / 10, width - 1) + [Digit(n)]
  {
    DecimalWidth(n, width);
    DecimalWidth(n / 10, width - 1);
    if n < 10 {
      ZerosStep(n, width);
    } else {
      hide Zeros;
      assert Decimal(n) == Decimal(n / 10) + [Digit(n)];
      assert Zeros(0) + Decimal(n / 10) == Decimal(n / 10) by { NoZeros(); }
    }
  }

  lemma NoZeros()
    ensures Zeros(0) == ""
  {
  }

  /** A number of one digit is padded like the zero in front of it. */
  lemma ZerosStep(n: nat, width: nat)
    requires n < 10 && width >= 2
    ensures Pad(n, width) == Pad(n / 10, width - 1) + [Digit(n)]
  {
    assert Decimal(n) == "" + [Digit(n)] == [Digit(n)];
    assert Decimal(0) == "" + [Digit(0)] == "0";
    assert n / 10 == 0;
    assert Zeros(width - 1) == Zeros(width - 2) + "0";
    if width == 2 { assert Zeros(1) == "0"; }
  }

  lemma {:induction false} PadIs(n: nat, m: nat, width: nat)
    requires n < Power(width) && m < Power(width) && width >= 1
    ensures |Pad(n, width)| == |Pad(m, width)| == width
    ensures n < m ==> Less(Pad(n, width), Pad(m, width))
    decreases width
  {
    if width == 1 {
      assert Power(1) == 10 by { assert Power(0) == 1; }
      assert Decimal(n) == "" + [Digit(n)] == [Digit(n)];
      assert Decimal(m) == "" + [Digit(m)] == [Digit(m)];
      if n < m { LessDigit(n, m); }
    } else {
      PadStep(n, width);
      PadStep(m, width);
      PadIs(n / 10, m / 10, width - 1);
      hide Pad, Power, Less;
      if n < m {
        LessAppend(Pad(n / 10, width - 1), Pad(m / 10, width - 1), [Digit(n)], [Digit(m)]);
        if n / 10 == m / 10 { LessDigit(n, m); }
      }
    }
  }

  lemma LessDigit(n: nat, m: nat)
    requires n < m && n / 10 == m / 10
    ensures Less([Digit(n)], [Digit(m)])
  {
    assert n % 10 < m % 10;
    assert LessAt([Digit(n)], [Digit(m)], 0);
  }

  // ----- text in order

  predicate LessAt(s: string, t: string, k: nat) {
    k < |s| && k < |t| && s[k] < t[k] && forall i :: 0 <= i < k ==> s[i] == t[i]
  }

  /** `s` comes before `t`: it is smaller where they first differ. */
  ghost predicate Less(s: string, t: string) { exists k: nat :: LessAt(s, t, k) }

  lemma LessAppend(a: string, b: string, x: string, y: string)
    requires |a| == |b|
    ensures Less(a, b) ==> Less(a + x, b + y)
    ensures a == b && Less(x, y) ==> Less(a + x, b + y)
  {
    if Less(a, b) {
      var k: nat :| LessAt(a, b, k);
      assert LessAt(a + x, b + y, k);
    }
    if a == b && Less(x, y) {
      var k: nat :| LessAt(x, y, k);
      assert LessAt(a + x, b + y, |a| + k);
    }
  }

  lemma LessIsStrict(s: string, t: string)
    requires Less(s, t)
    ensures s != t && !Less(t, s)
  {
    var k: nat :| LessAt(s, t, k);
    forall j: nat ensures !LessAt(t, s, j) {
    }
  }

  // ----- timestamps in order

  /** Each value fits its width. */
  ghost predicate Fit(fields: seq<Field>) {
    forall i :: 0 <= i < |fields| ==> fields[i].width >= 1 && fields[i].value < Power(fields[i].width)
  }

  ghost predicate SameFormat(a: seq<Field>, b: seq<Field>) {
    |a| == |b| && forall i :: 0 <= i < |a| ==> a[i].before == b[i].before && a[i].width == b[i].width
  }

  function Width(fields: seq<Field>): nat {
    if fields == [] then 0
    else
      var k := |fields| - 1;
      Width(fields[..k]) + |fields[k].before| + fields[k].width
  }

  /** The first values that differ are smaller in `a`. */
  ghost predicate EarlierAt(a: seq<Field>, b: seq<Field>, i: nat) {
    i < |a| && i < |b| && a[i].value < b[i].value && forall j :: 0 <= j < i ==> a[j].value == b[j].value
  }

  /** Printed to one format, fields have one width, and keep the order of their values. */
  lemma {:induction false} PrintedInOrder(a: seq<Field>, b: seq<Field>, i: nat)
    requires Fit(a) && Fit(b) && SameFormat(a, b)
    ensures |Printed(a)| == |Printed(b)| == Width(a)
    ensures EarlierAt(a, b, i) ==> Less(Printed(a), Printed(b))
    decreases |a|
  {
    hide Pad, Power, Less;
    if a != [] {
      var k := |a| - 1;
      PrintedInOrder(a[..k], b[..k], i);
      PadIs(a[k].value, b[k].value, a[k].width);
      if EarlierAt(a, b, i) {
        var x, y := Pad(a[k].value, a[k].width), Pad(b[k].value, b[k].width);
        var before := a[k].before;
        if i < k {
          LessAppend(Printed(a[..k]), Printed(b[..k]), before + x, before + y);
        } else {
          SameValues(a[..k], b[..k]);
          LessAppend(before, before, x, y);
          LessAppend(Printed(a[..k]), Printed(b[..k]), before + x, before + y);
        }
      }
    }
  }

  lemma {:induction false} SameValues(a: seq<Field>, b: seq<Field>)
    requires SameFormat(a, b) && forall i :: 0 <= i < |a| ==> a[i].value == b[i].value
    ensures a == b
  {
    assert forall i :: 0 <= i < |a| ==> a[i] == b[i];
  }

  lemma {:induction false} PrintedAppend(a: seq<Field>, b: seq<Field>)
    ensures Printed(a + b) == Printed(a) + Printed(b)
  {
    hide Pad, Printed;
    if b == [] {
      PrintedNone();
      assert a + b == a && Printed(a) + "" == Printed(a);
    } else {
      var k := |b| - 1;
      PrintedAppend(a, b[..k]);
      PrintedLast(a, b);
      PrintedLast([], b);
      assert [] + b == b && [] + b[..k] == b[..k];
    }
  }

  lemma PrintedLast(a: seq<Field>, b: seq<Field>)
    requires b != []
    ensures var k := |b| - 1;
      Printed(a + b) == Printed(a + b[..k]) + (b[k].before + Pad(b[k].value, b[k].width))
  {
    assert (a + b)[..|a + b| - 1] == a + b[..|b| - 1];
  }

  /** From the first second of the year 0 to the last of the year 9999. */
  predicate Plain(at: int) { -62_167_219_200 <= at / 1_000_000_000 < 253_402_300_800 }

  /** Those are the instants whose year takes four digits. */
  lemma PlainYears(at: int)
    ensures Plain(at) <==> Countable(at) && 0 <= Day(at).year <= 9999
  {
    hide CivilFromDays, SinceTheEpoch;
    SinceIsFloor(at);
    PlainIsCountable(at);
    var seconds := SinceTheEpoch(at).0;
    FourDigits(seconds / 86_400);
    assert -719_528 <= seconds / 86_400 < 2_932_897 <==> -62_167_219_200 <= seconds < 253_402_300_800;
  }

  lemma PlainIsCountable(at: int)
    ensures Plain(at) ==> Countable(at)
  {
  }

  /** All fields of a timestamp, the year in front. */
  function Fields(at: int): seq<Field>
    requires Plain(at)
  {
    Printable(at);
    PlainYears(at);
    [Field("", Day(at).year, 4)] + Rest(at)
  }

  lemma StampIsPrinted(at: int)
    requires Plain(at)
    ensures Stamp(at) == Printed(Fields(at)) + "Z"
  {
    hide CivilFromDays, Pad, SinceTheEpoch, Countable;
    Printable(at);
    PlainYears(at);
    var first := [Field("", Day(at).year, 4)];
    PrintedAppend(first, Rest(at));
    assert first[..0] == [];
    assert Printed(first) == "" + ("" + Pad(Day(at).year, 4));
  }

  lemma Powers()
    ensures Power(2) == 100 && Power(4) == 10_000 && Power(6) == 1_000_000
  {
  }

  lemma FieldsFit(at: int)
    requires Plain(at)
    ensures Fit(Fields(at)) && Width(Fields(at)) == 26
  {
    hide CivilFromDays, SinceTheEpoch, DayNumber, Countable, Power;
    Printable(at);
    PlainYears(at);
    Powers();
    MonthsAreShort(Day(at));
    hide DaysInMonth;
    WidthOf(Fields(at));
  }

  lemma MonthsAreShort(d: Date)
    requires d.Valid()
    ensures 1 <= d.month <= 12 && 1 <= d.day <= 31
  {
  }

  lemma WidthOf(f: seq<Field>)
    requires |f| == 7 && f[0].before == "" && f[0].width == 4 && f[6].width == 6
    requires forall i :: 1 <= i < 7 ==> |f[i].before| == 1
    requires forall i :: 1 <= i < 6 ==> f[i].width == 2
    ensures Width(f) == 26
  {
    WidthNext(f, 0);
    WidthNext(f, 1);
    WidthNext(f, 2);
    WidthNext(f, 3);
    WidthNext(f, 4);
    WidthNext(f, 5);
    WidthNext(f, 6);
    assert f[..0] == [] && f[..7] == f;
  }

  lemma WidthNext(f: seq<Field>, i: nat)
    requires i < |f|
    ensures Width(f[..i + 1]) == Width(f[..i]) + |f[i].before| + f[i].width
  {
    assert f[..i + 1][..i] == f[..i];
  }

  /** Microseconds from the epoch, rounded down. */
  function Micros(at: int): int { at / 1000 }

  /** The microsecond as the date, the second of the day and the fraction a timestamp is made of. */
  lemma MicrosAre(at: int)
    requires Countable(at)
    ensures var (seconds, nanos) := SinceTheEpoch(at);
      Micros(at) == 1_000_000 * (86_400 * (seconds / 86_400) + seconds % 86_400) + nanos / 1000
  {
    SinceIsFloor(at);
    hide SinceTheEpoch, Countable;
    var seconds, nanos := at / 1_000_000_000, at % 1_000_000_000;
    assert at == 1000 * (1_000_000 * seconds) + nanos;
    assert seconds == 86_400 * (seconds / 86_400) + seconds % 86_400;
  }

  /** An earlier microsecond has, where the fields first differ, the smaller value. */
  lemma EarlierFields(a: int, b: int) returns (i: nat)
    requires Plain(a) && Plain(b) && Micros(a) < Micros(b)
    ensures EarlierAt(Fields(a), Fields(b), i)
  {
    hide CivilFromDays, SinceTheEpoch, DayNumber, DaysInMonth, Countable;
    Printable(a);
    Printable(b);
    PlainYears(a);
    PlainYears(b);
    MicrosAre(a);
    MicrosAre(b);
    var (s, n) := SinceTheEpoch(a);
    var (t, m) := SinceTheEpoch(b);
    if s / 86_400 < t / 86_400 {
      DatesInOrder(s / 86_400, t / 86_400);
      i := if Day(a).year < Day(b).year then 0 else if Day(a).month < Day(b).month then 1 else 2;
    } else {
      i := EarlierTime(s % 86_400, n / 1000, t % 86_400, m / 1000);
    }
  }

  lemma EarlierTime(s: int, n: int, t: int, m: int) returns (i: nat)
    requires 0 <= s < 86_400 && 0 <= t < 86_400 && (s < t || (s == t && n < m))
    ensures 3 <= i <= 6
    ensures i >= 4 ==> s / 3600 == t / 3600
    ensures i >= 5 ==> s / 60 % 60 == t / 60 % 60
    ensures i >= 6 ==> s % 60 == t % 60
    ensures i == 3 ==> s / 3600 < t / 3600
    ensures i == 4 ==> s / 60 % 60 < t / 60 % 60
    ensures i == 5 ==> s % 60 < t % 60
    ensures i == 6 ==> n < m
  {
    Clock(s);
    Clock(t);
    i := EarlierClock(s / 3600, s / 60 % 60, s % 60, t / 3600, t / 60 % 60, t % 60, n < m);
  }

  lemma Clock(s: int)
    ensures s == 3600 * (s / 3600) + 60 * (s / 60 % 60) + s % 60
    ensures 0 <= s / 60 % 60 < 60 && 0 <= s % 60 < 60
  {
    assert s / 60 / 60 == s / 3600;
  }

  lemma EarlierClock(h: int, m: int, s: int, h': int, m': int, s': int, less: bool) returns (i: nat)
    requires 0 <= m < 60 && 0 <= s < 60 && 0 <= m' < 60 && 0 <= s' < 60
    requires 3600 * h + 60 * m + s < 3600 * h' + 60 * m' + s' || (3600 * h + 60 * m + s == 3600 * h' + 60 * m' + s' && less)
    ensures 3 <= i <= 6 && (i >= 4 ==> h == h') && (i >= 5 ==> m == m') && (i >= 6 ==> s == s' && less)
    ensures (i == 3 ==> h < h') && (i == 4 ==> m < m') && (i == 5 ==> s < s')
  {
    i := if h < h' then 3 else if m < m' then 4 else if s < s' then 5 else 6;
  }

  /** Equal microseconds print alike. */
  lemma SameMicros(a: int, b: int)
    requires Plain(a) && Plain(b) && Micros(a) == Micros(b)
    ensures Stamp(a) == Stamp(b)
  {
    hide CivilFromDays, SinceTheEpoch, Pad, Countable, Printed;
    Printable(a);
    Printable(b);
    PlainYears(a);
    PlainYears(b);
    MicrosAre(a);
    MicrosAre(b);
    var (s, n) := SinceTheEpoch(a);
    var (t, m) := SinceTheEpoch(b);
    assert s / 86_400 == t / 86_400 && s % 86_400 == t % 86_400 && n / 1000 == m / 1000;
    assert Rest(a) == Rest(b);
  }

  lemma EarlierStamp(a: int, b: int)
    requires Plain(a) && Plain(b) && Micros(a) < Micros(b)
    ensures Less(Stamp(a), Stamp(b))
  {
    hide Stamp, Printed, Fields, Less;
    var i := EarlierFields(a, b);
    FieldsFit(a);
    FieldsFit(b);
    SameFields(a, b);
    PrintedInOrder(Fields(a), Fields(b), i);
    StampIsPrinted(a);
    StampIsPrinted(b);
    LessAppend(Printed(Fields(a)), Printed(Fields(b)), "Z", "Z");
  }

  lemma SameFields(a: int, b: int)
    requires Plain(a) && Plain(b)
    ensures SameFormat(Fields(a), Fields(b))
  {
    hide CivilFromDays, SinceTheEpoch, Countable, Plain;
  }

  /** For the years 0 to 9999 a timestamp is 27 characters, tells the microsecond, and sorts as text the
    * way instants sort in time. */
  lemma StampsInOrder(a: int, b: int)
    requires Plain(a) && Plain(b)
    ensures |Stamp(a)| == 27
    ensures Stamp(a) == Stamp(b) <==> Micros(a) == Micros(b)
    ensures Less(Stamp(a), Stamp(b)) <==> Micros(a) < Micros(b)
  {
    hide Stamp, Plain, Fields, Printed, Less;
    StampIsPrinted(a);
    FieldsFit(a);
    SameFields(a, a);
    PrintedInOrder(Fields(a), Fields(a), 0);
    if Micros(a) < Micros(b) {
      EarlierStamp(a, b);
      LessIsStrict(Stamp(a), Stamp(b));
    } else if Micros(b) < Micros(a) {
      EarlierStamp(b, a);
      LessIsStrict(Stamp(b), Stamp(a));
    } else {
      SameMicros(a, b);
      NotLess(Stamp(a));
    }
  }

  lemma NotLess(s: string)
    ensures !Less(s, s)
  {
  }

  // ----- what a timestamp says

  /** The digits `text[from..to]`, as a number. */
  predicate Numeral(text: string, from: nat, to: nat, n: int) {
    from < to <= |text| && AllDigits(text[from..to]) && Value(text[from..to]) == n
  }

  lemma {:induction false} DecimalReads(n: nat)
    ensures AllDigits(Decimal(n)) && Value(Decimal(n)) == n
    ensures n > 0 ==> Decimal(n)[0] != '0'
  {
    var before := if n < 10 then "" else Decimal(n / 10);
    if n >= 10 { DecimalReads(n / 10); }
    assert Decimal(n) == before + [Digit(n)];
    assert Decimal(n)[..|before|] == before;
  }

  lemma {:induction false} ZerosRead(n: nat, digits: string)
    requires AllDigits(digits)
    ensures AllDigits(Zeros(n) + digits) && Value(Zeros(n) + digits) == Value(digits)
  {
    var all := Zeros(n) + digits;
    if digits == "" {
      assert all == Zeros(n);
      OnlyZeros(n);
    } else {
      var k := |digits| - 1;
      ZerosRead(n, digits[..k]);
      assert all == Zeros(n) + digits[..k] + [digits[k]];
      assert all[..|all| - 1] == Zeros(n) + digits[..k];
      hide Zeros;
    }
  }

  lemma {:induction false} OnlyZeros(n: nat)
    ensures AllDigits(Zeros(n)) && Value(Zeros(n)) == 0
  {
    if n > 0 {
      OnlyZeros(n - 1);
      assert Zeros(n)[..n - 1] == Zeros(n - 1);
    }
  }

  /** A padded number reads as the number. */
  lemma PadReads(n: nat, width: nat)
    requires 1 <= width
    ensures var p := Pad(n, width);
      && AllDigits(p) && Value(p) == n && width <= |p|
      && (|p| > width ==> p[0] != '0')
      && (n < Power(width) ==> |p| == width)
  {
    DecimalReads(n);
    if |Decimal(n)| < width { ZerosRead(width - |Decimal(n)|, Decimal(n)); }
    if n < Power(width) { DecimalWidth(n, width); }
    if n == 0 { assert Decimal(0) == "" + [Digit(0)] == "0"; }
  }

  lemma NumeralWithin(before: string, p: string, behind: string, from: nat, to: nat, n: int)
    requires Numeral(p, from, to, n)
    ensures Numeral(before + p + behind, |before| + from, |before| + to, n)
  {
    assert (before + p + behind)[|before| + from..|before| + to] == p[from..to];
  }

  /** From `at` on stand the text in front of a field and its value, in as many digits as it is wide. */
  ghost predicate FieldAt(text: string, at: nat, f: Field) {
    && at + |f.before| <= |text| && text[at..at + |f.before|] == f.before
    && Numeral(text, at + |f.before|, at + |f.before| + f.width, f.value)
  }

  lemma FieldWithin(text: string, behind: string, at: nat, f: Field)
    requires FieldAt(text, at, f)
    ensures FieldAt(text + behind, at, f)
  {
    NumeralWithin("", text, behind, at + |f.before|, at + |f.before| + f.width, f.value);
    hide Numeral;
    assert "" + text + behind == text + behind;
    assert (text + behind)[at..at + |f.before|] == text[at..at + |f.before|];
  }

  lemma FieldPrinted(text: string, f: Field)
    requires f.width >= 1 && f.value < Power(f.width)
    ensures FieldAt(text + (f.before + Pad(f.value, f.width)), |text|, f)
  {
    hide Power, Pad, Numeral;
    PadIsNumeral(f.value, f.width);
    AtEnd(text, f.before, Pad(f.value, f.width), f.value);
  }

  lemma PadIsNumeral(n: nat, width: nat)
    requires 1 <= width && n < Power(width)
    ensures |Pad(n, width)| == width && Numeral(Pad(n, width), 0, width, n)
  {
    PadReads(n, width);
    hide Power, Pad, AllDigits, Value;
    assert Pad(n, width)[0..width] == Pad(n, width);
  }

  lemma AtEnd(text: string, before: string, p: string, n: nat)
    requires Numeral(p, 0, |p|, n)
    ensures var all, at := text + (before + p), |text|;
      && all[at..at + |before|] == before && Numeral(all, at + |before|, at + |before| + |p|, n)
  {
    NumeralWithin(text + before, p, "", 0, |p|, n);
    hide Numeral;
    assert text + before + p + "" == text + (before + p);
  }

  /** So each field is printed. */
  lemma {:induction false} FieldReads(fields: seq<Field>, i: nat)
    requires Fit(fields) && i < |fields|
    ensures FieldAt(Printed(fields), Width(fields[..i]), fields[i])
    decreases |fields|
  {
    hide Pad, Power, FieldAt;
    var k := |fields| - 1;
    PrintedWidth(fields[..k]);
    if i < k {
      FieldReads(fields[..k], i);
      assert fields[..k][..i] == fields[..i];
      FieldWithin(Printed(fields[..k]), fields[k].before + Pad(fields[k].value, fields[k].width), Width(fields[..i]), fields[i]);
    } else {
      FieldPrinted(Printed(fields[..k]), fields[k]);
    }
  }

  lemma {:induction false} PrintedWidth(fields: seq<Field>)
    requires Fit(fields)
    ensures |Printed(fields)| == Width(fields)
  {
    hide Pad, Power;
    if fields != [] {
      var k := |fields| - 1;
      PrintedWidth(fields[..k]);
      PadReads(fields[k].value, fields[k].width);
    }
  }

  /** The year: four digits, or a sign and as many as it takes, four at least. */
  ghost predicate ReadsYear(text: string, year: int) {
    exists digits ::
      && text == (if year > 9999 then "+" else if year < 0 then "-" else "") + digits
      && AllDigits(digits) && Value(digits) == (if year < 0 then -year else year)
      && 4 <= |digits| && (|digits| > 4 ==> digits[0] != '0') && (0 <= year <= 9999 ==> |digits| == 4)
  }

  lemma YearReads(year: int)
    ensures ReadsYear(YearText(year), year)
  {
    var n := if year < 0 then -year else year;
    Powers();
    PadReads(n, 4);
    DecimalReads(n);
    hide Power, AllDigits, Value;
    if year > 9999 {
      LongNumber(year);
      assert YearText(year) == "+" + Decimal(year);
    } else if year < 0 {
      assert YearText(year) == "-" + Pad(n, 4);
    } else {
      assert YearText(year) == "" + Pad(n, 4);
    }
  }

  lemma LongNumber(n: nat)
    requires n > 9999
    ensures |Decimal(n)| > 4
  {
    assert |Decimal(n / 1000)| >= 2;
    assert |Decimal(n / 100)| >= 3;
    assert |Decimal(n / 10)| >= 4;
  }

  /** From `at` on: month, day, time of day and microseconds, each of its own width, with what stands between
    * them; and nothing behind. */
  ghost predicate ReadsRest(text: string, at: nat, date: Date, hour: nat, minute: nat, second: nat, micros: nat) {
    && |text| == at + 23
    && text[at] == '-' && Numeral(text, at + 1, at + 3, date.month)
    && text[at + 3] == '-' && Numeral(text, at + 4, at + 6, date.day)
    && text[at + 6] == 'T' && Numeral(text, at + 7, at + 9, hour)
    && text[at + 9] == ':' && Numeral(text, at + 10, at + 12, minute)
    && text[at + 12] == ':' && Numeral(text, at + 13, at + 15, second)
    && text[at + 15] == '.' && Numeral(text, at + 16, at + 22, micros)
    && text[at + 22] == 'Z'
  }

  lemma RestWidths(f: seq<Field>)
    requires |f| == 6 && f[5].width == 6
    requires forall i :: 0 <= i < 6 ==> |f[i].before| == 1
    requires forall i :: 0 <= i < 5 ==> f[i].width == 2
    ensures forall i :: 0 <= i <= 5 ==> Width(f[..i]) == 3 * i
    ensures Width(f) == 22
  {
    WidthNext(f, 0);
    WidthNext(f, 1);
    WidthNext(f, 2);
    WidthNext(f, 3);
    WidthNext(f, 4);
    WidthNext(f, 5);
    assert f[..0] == [] && f[..6] == f;
  }

  /** Field `i` of six that are all printed so, in the text they are part of. */
  lemma RestFieldReads(year: string, f: seq<Field>, i: nat)
    requires Fit(f) && |f| == 6 && f[5].width == 6 && i < 6
    requires forall i :: 0 <= i < 6 ==> |f[i].before| == 1
    requires forall i :: 0 <= i < 5 ==> f[i].width == 2
    ensures var text, at := year + Printed(f) + "Z", |year| + 3 * i;
      && |text| == |year| + 23 && text[|year| + 22] == 'Z'
      && text[at] == f[i].before[0] && Numeral(text, at + 1, at + 1 + f[i].width, f[i].value)
  {
    hide Printed, Numeral, Fit, Width;
    RestWidths(f);
    FieldReads(f, i);
    PrintedWidth(f);
    var p := Printed(f);
    NumeralWithin(year, p, "Z", 3 * i + 1, 3 * i + 1 + f[i].width, f[i].value);
    assert p[3 * i..3 * i + 1][0] == p[3 * i];
  }

  lemma RestFits(at: int)
    ensures Day(at).Valid() && 1 <= Day(at).month <= 12 && 1 <= Day(at).day <= 31 && 0 <= SinceTheEpoch(at).1 < 1_000_000_000
    ensures Fit(Rest(at))
  {
    Printable(at);
    Powers();
    MonthsAreShort(Day(at));
    hide CivilFromDays, SinceTheEpoch, DayNumber, DaysInMonth, Power;
  }

  lemma DayIs(at: int)
    requires Countable(at)
    ensures SinceTheEpoch(at).0 == at / 1_000_000_000 && SinceTheEpoch(at).1 == at % 1_000_000_000
    ensures Day(at).Valid() && DayNumber(Day(at)) == SinceTheEpoch(at).0 / 86_400
  {
    hide CivilFromDays, DayNumber, SinceTheEpoch;
    SinceIsFloor(at);
    CivilIsRight(SinceTheEpoch(at).0 / 86_400);
  }

  /** What is written reads, digit by digit, as the one valid date and the one time of day that are the instant,
    * to the microsecond, and stands in the format's own places. */
  lemma StampReads(at: int) returns (date: Date, hour: nat, minute: nat, second: nat, micros: nat, k: nat)
    requires Countable(at)
    ensures date.Valid() && hour < 24 && minute < 60 && second < 60
    ensures 86_400 * DayNumber(date) + 3600 * hour + 60 * minute + second == at / 1_000_000_000
    ensures micros == at / 1000 % 1_000_000
    ensures k <= |Stamp(at)| && ReadsYear(Stamp(at)[..k], date.year) && (Plain(at) ==> k == 4)
    ensures ReadsRest(Stamp(at), k, date, hour, minute, second, micros)
  {
    hide CivilFromDays, DayNumber, SinceTheEpoch, Printed, Numeral, Fit, YearText, ReadsYear, Countable, Plain, DaysInMonth;
    DayIs(at);
    RestFits(at);
    date := Day(at);
    var time, f := SinceTheEpoch(at).0 % 86_400, Rest(at);
    hour, minute, second, micros := time / 3600, time / 60 % 60, time % 60, SinceTheEpoch(at).1 / 1000;
    Clock(time);
    MicrosIn(at);
    YearReads(date.year);
    k := |YearText(date.year)|;
    assert Stamp(at) == YearText(date.year) + Printed(f) + "Z";
    assert Stamp(at)[..k] == YearText(date.year);
    YearIsPlain(at, date.year);
    RestFieldReads(YearText(date.year), f, 0);
    RestFieldReads(YearText(date.year), f, 1);
    RestFieldReads(YearText(date.year), f, 2);
    RestFieldReads(YearText(date.year), f, 3);
    RestFieldReads(YearText(date.year), f, 4);
    RestFieldReads(YearText(date.year), f, 5);
  }

  lemma MicrosIn(at: int)
    ensures at % 1_000_000_000 / 1000 == at / 1000 % 1_000_000
  {
  }

  lemma YearIsPlain(at: int, year: int)
    requires year == Day(at).year
    ensures Plain(at) ==> |YearText(year)| == 4
  {
    PlainYears(at);
    hide CivilFromDays, SinceTheEpoch, Countable, Plain;
    YearReads(year);
  }
}
