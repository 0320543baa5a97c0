/** Naive date-times as pandas holds them after parsing the schedule's
    `gameDateTimeEst` column: microsecond resolution, no time zone, and
    limited to the range a pandas `Timestamp` can represent. A value that
    does not parse becomes `NaT`, modelled as `None`. */
module Timestamps {
  import opened Wrappers

  datatype DateTime = DateTime(year: int, month: int, day: int,
                               hour: int, minute: int, second: int, microsecond: int)
  datatype Date = Date(year: int, month: int, day: int)
  datatype TimeOfDay = TimeOfDay(hour: int, minute: int, second: int, microsecond: int)

  predicate IsLeapYear(year: int) {
    year % 4 == 0 && (year % 100 != 0 || year % 400 == 0)
  }

  function DaysInMonth(year: int, month: int): int
    requires 1 <= month <= 12
  {
    if month == 2 then (if IsLeapYear(year) then 29 else 28)
    else if month == 4 || month == 6 || month == 9 || month == 11 then 30
    else 31
  }

  /** Every field lies in its calendar or clock range. */
  predicate WellFormed(dt: DateTime) {
    1 <= dt.year <= 9999 && 1 <= dt.month <= 12 && 1 <= dt.day <= DaysInMonth(dt.year, dt.month) &&
    0 <= dt.hour < 24 && 0 <= dt.minute < 60 && 0 <= dt.second < 60 &&
    0 <= dt.microsecond < 1000000
  }

  /** `a` is strictly earlier than `b`: fields compared most significant first. */
  predicate Earlier(a: DateTime, b: DateTime) {
    if a.year != b.year then a.year < b.year
    else if a.month != b.month then a.month < b.month
    else if a.day != b.day then a.day < b.day
    else if a.hour != b.hour then a.hour < b.hour
    else if a.minute != b.minute then a.minute < b.minute
    else if a.second != b.second then a.second < b.second
    else a.microsecond < b.microsecond
  }

  lemma EarlierTransitive(a: DateTime, b: DateTime, c: DateTime)
    requires Earlier(a, b) && Earlier(b, c)
    ensures Earlier(a, c)
  {
  }

  /** Neither earlier nor later means the same instant. */
  lemma EarlierTotal(a: DateTime, b: DateTime)
    requires !Earlier(a, b) && !Earlier(b, a)
    ensures a == b
  {
  }

  /** The earliest and latest instants a pandas `Timestamp` holds, rounded
      inwards to whole microseconds. */
  const TimestampMin := DateTime(1677, 9, 21, 0, 12, 43, 145225)
  const TimestampMax := DateTime(2262, 4, 11, 23, 47, 16, 854775)

  predicate Representable(dt: DateTime) {
    WellFormed(dt) && !Earlier(dt, TimestampMin) && !Earlier(TimestampMax, dt)
  }

  /** A parsed, non-missing value of the `gameDateTimeEst` column. */
  type Timestamp = dt: DateTime | Representable(dt) witness TimestampMin

  /** A cell of the parsed column: `None` is `NaT`. */
  type Cell = Option<Timestamp>

  /** `t < ref` as pandas evaluates it: false for `NaT`. */
  predicate CellBefore(t: Cell, ref: DateTime) {
    t.Some? && Earlier(t.value, ref)
  }

  /** `t > ref` as pandas evaluates it: false for `NaT`. */
  predicate CellAfter(t: Cell, ref: DateTime) {
    t.Some? && Earlier(ref, t.value)
  }

  /** `t >= ref` as pandas evaluates it: false for `NaT`. */
  predicate CellAtOrAfter(t: Cell, ref: DateTime) {
    t.Some? && !Earlier(t.value, ref)
  }

  // ----- digits -----

  predicate IsDigit(c: char) {
    '0' <= c <= '9'
  }

  predicate AllDigits(s: string) {
    forall i :: 0 <= i < |s| ==> IsDigit(s[i])
  }

  function DigitChar(d: nat): char
    requires d < 10
  {
    ('0' as int + d) as char
  }

  /** The decimal value of a string of digits. */
  function Number(s: string): nat
    requires AllDigits(s)
  {
    if |s| == 0 then 0 else Number(s[..|s| - 1]) * 10 + (s[|s| - 1] as int - '0' as int)
  }

  function Pow10(n: nat): nat {
    if n == 0 then 1 else 10 * Pow10(n - 1)
  }

  /** `n` written with exactly `width` digits, zero-padded on the left. */
  function Pad(n: nat, width: nat): (s: string)
    requires n < Pow10(width)
    ensures |s| == width && AllDigits(s) && Number(s) == n
  {
    if width == 0 then ""
    else
      var init := Pad(n / 10, width - 1);
      var s := init + [DigitChar(n % 10)];
      assert s[..|s| - 1] == init;
      s
  }

  // ----- parsing -----

  /** Microseconds denoted by what follows the seconds: nothing, or a point
      and one to six digits that are padded on the right (`%f`). */
  function Fraction(s: string): Option<int> {
    if |s| == 0 then Some(0)
    else if s[0] == '.' && 2 <= |s| <= 7 && AllDigits(s[1..]) then Some(Number(s[1..]) * Pow10(7 - |s|))
    else None
  }

  /** The separators of `YYYY-MM-DDTHH:MM:SS` are in place and the six
      fields between them are digits. */
  predicate Layout(s: string) {
    |s| >= 19 && s[4] == '-' && s[7] == '-' && s[10] == 'T' && s[13] == ':' && s[16] == ':' &&
    AllDigits(s[0..4]) && AllDigits(s[5..7]) && AllDigits(s[8..10]) &&
    AllDigits(s[11..13]) && AllDigits(s[14..16]) && AllDigits(s[17..19])
  }

  /** What follows the seconds, without a trailing `Z` zone designator. */
  function Zoneless(rest: string): string {
    if |rest| > 0 && rest[|rest| - 1] == 'Z' then rest[..|rest| - 1] else rest
  }

  /** The fields a string spells out, before any range check. */
  function Spelled(s: string): Option<DateTime> {
    if !Layout(s) then None
    else
      match Fraction(Zoneless(s[19..]))
      case None => None
      case Some(us) =>
        Some(DateTime(Number(s[0..4]), Number(s[5..7]), Number(s[8..10]),
                      Number(s[11..13]), Number(s[14..16]), Number(s[17..19]), us))
  }

  /** `pd.to_datetime(s, format="%Y-%m-%dT%H:%M:%S.%f", errors="coerce")`
      followed by dropping the zone: fixed-width fields, an optional fraction
      of a second and an optional `Z` designator; anything else, including a
      date that does not exist or lies outside the `Timestamp` range, is `NaT`. */
  function Parse(s: string): (r: Cell)
    ensures r.Some? ==> Layout(s) && WellFormed(r.value)
    ensures r.Some? ==> r.value.year == Number(s[0..4]) && r.value.month == Number(s[5..7]) &&
                        r.value.day == Number(s[8..10]) && r.value.hour == Number(s[11..13]) &&
                        r.value.minute == Number(s[14..16]) && r.value.second == Number(s[17..19])
  {
    var f := Spelled(s);
    if f.Some? && Representable(f.value) then Some(f.value) else None
  }

  // ----- splitting into date and time -----

  function DateOf(t: DateTime): Date {
    Date(t.year, t.month, t.day)
  }

  function TimeOf(t: DateTime): TimeOfDay {
    TimeOfDay(t.hour, t.minute, t.second, t.microsecond)
  }

  function Combine(d: Date, t: TimeOfDay): DateTime {
    DateTime(d.year, d.month, d.day, t.hour, t.minute, t.second, t.microsecond)
  }

  /** `str(date)`: `YYYY-MM-DD`. */
  function FormatDate(d: Date): (s: string)
    requires 0 <= d.year <= 9999 && 0 <= d.month <= 99 && 0 <= d.day <= 99
  {
    Pad(d.year, 4) + "-" + Pad(d.month, 2) + "-" + Pad(d.day, 2)
  }

  /** `str(time)`: `HH:MM:SS`, then `.ffffff` unless the microseconds are zero. */
  function FormatTime(t: TimeOfDay): (s: string)
    requires 0 <= t.hour <= 99 && 0 <= t.minute <= 99 && 0 <= t.second <= 99
    requires 0 <= t.microsecond < 1000000
  {
    Pad(t.hour, 2) + ":" + Pad(t.minute, 2) + ":" + Pad(t.second, 2) +
    (if t.microsecond == 0 then "" else "." + Pad(t.microsecond, 6))
  }

  /** Every field fits the width it is printed in. */
  predicate Printable(d: Date, tm: TimeOfDay) {
    0 <= d.year <= 9999 && 0 <= d.month <= 99 && 0 <= d.day <= 99 &&
    0 <= tm.hour <= 99 && 0 <= tm.minute <= 99 && 0 <= tm.second <= 99 &&
    0 <= tm.microsecond < 1000000
  }

  /** The date and the time printed and joined with `T`. */
  function Join(d: Date, tm: TimeOfDay): string
    requires Printable(d, tm)
  {
    FormatDate(d) + "T" + FormatTime(tm)
  }

  lemma SliceOf(pre: string, x: string, post: string)
    ensures (pre + x + post)[|pre|..|pre| + |x|] == x
  {
  }

  /** Reading back a string whose fixed-width fields hold the given digits. */
  lemma SpelledFields(s: string, year: nat, month: nat, day: nat, hour: nat, minute: nat, second: nat, us: nat)
    requires year < 10000 && month < 100 && day < 100 && hour < 100 && minute < 100 && second < 100
    requires us < 1000000
    requires |s| >= 19 && s[4] == '-' && s[7] == '-' && s[10] == 'T' && s[13] == ':' && s[16] == ':'
    requires s[0..4] == Pad(year, 4) && s[5..7] == Pad(month, 2) && s[8..10] == Pad(day, 2)
    requires s[11..13] == Pad(hour, 2) && s[14..16] == Pad(minute, 2) && s[17..19] == Pad(second, 2)
    requires s[19..] == if us == 0 then "" else "." + Pad(us, 6)
    ensures Spelled(s) == Some(DateTime(year, month, day, hour, minute, second, us))
  {
    assert Layout(s);
    FractionOfPrinted(s[19..], us);
  }

  /** The printed fraction of a second, if any, reads back as the
      microseconds, and carries no zone designator. */
  lemma FractionOfPrinted(rest: string, us: nat)
    requires us < 1000000
    requires rest == if us == 0 then "" else "." + Pad(us, 6)
    ensures Zoneless(rest) == rest && Fraction(rest) == Some(us)
  {
    if us != 0 {
      var f := Pad(us, 6);
      assert rest[1..] == f;
      assert rest[|rest| - 1] == f[5];
    }
  }

  lemma DateLayout(d: Date)
    requires 0 <= d.year <= 9999 && 0 <= d.month <= 99 && 0 <= d.day <= 99
    ensures var s := FormatDate(d);
      |s| == 10 && s[4] == '-' && s[7] == '-' &&
      s[0..4] == Pad(d.year, 4) && s[5..7] == Pad(d.month, 2) && s[8..10] == Pad(d.day, 2)
  {
    var y, mo, dd := Pad(d.year, 4), Pad(d.month, 2), Pad(d.day, 2);
    SliceOf(y + "-", mo, "-" + dd);
    assert FormatDate(d) == (y + "-") + mo + ("-" + dd);
  }

  lemma TimeLayout(tm: TimeOfDay)
    requires 0 <= tm.hour <= 99 && 0 <= tm.minute <= 99 && 0 <= tm.second <= 99
    requires 0 <= tm.microsecond < 1000000
    ensures var s := FormatTime(tm);
      |s| >= 8 && s[2] == ':' && s[5] == ':' &&
      s[0..2] == Pad(tm.hour, 2) && s[3..5] == Pad(tm.minute, 2) && s[6..8] == Pad(tm.second, 2) &&
      s[8..] == if tm.microsecond == 0 then "" else "." + Pad(tm.microsecond, 6)
  {
    var h, mi, se := Pad(tm.hour, 2), Pad(tm.minute, 2), Pad(tm.second, 2);
    var frac := if tm.microsecond == 0 then "" else "." + Pad(tm.microsecond, 6);
    SliceOf(h + ":", mi, ":" + se + frac);
    SliceOf(h + ":" + mi + ":", se, frac);
    assert FormatTime(tm) == (h + ":") + mi + (":" + se + frac);
  }

  /** Where each field sits in `str(date) + "T" + str(time)`. */
  lemma FormatLayout(d: Date, tm: TimeOfDay)
    requires 0 <= d.year <= 9999 && 0 <= d.month <= 99 && 0 <= d.day <= 99
    requires 0 <= tm.hour <= 99 && 0 <= tm.minute <= 99 && 0 <= tm.second <= 99
    requires 0 <= tm.microsecond < 1000000
    ensures var s := FormatDate(d) + "T" + FormatTime(tm);
      |s| >= 19 && s[4] == '-' && s[7] == '-' && s[10] == 'T' && s[13] == ':' && s[16] == ':' &&
      s[0..4] == Pad(d.year, 4) && s[5..7] == Pad(d.month, 2) && s[8..10] == Pad(d.day, 2) &&
      s[11..13] == Pad(tm.hour, 2) && s[14..16] == Pad(tm.minute, 2) && s[17..19] == Pad(tm.second, 2) &&
      s[19..] == if tm.microsecond == 0 then "" else "." + Pad(tm.microsecond, 6)
  {
    DateLayout(d);
    TimeLayout(tm);
    JoinLayout(FormatDate(d), FormatTime(tm));
  }

  /** Positions in a ten-character date joined by `T` to a time. */
  lemma JoinLayout(date: string, time: string)
    requires |date| == 10 && |time| >= 8
    ensures var s := date + "T" + time;
      |s| >= 19 && s[4] == date[4] && s[7] == date[7] && s[10] == 'T' && s[13] == time[2] && s[16] == time[5] &&
      s[0..4] == date[0..4] && s[5..7] == date[5..7] && s[8..10] == date[8..10] &&
      s[11..13] == time[0..2] && s[14..16] == time[3..5] && s[17..19] == time[6..8] && s[19..] == time[8..]
  {
  }

  /** The printed fields read back as the same fields. */
  lemma SpelledJoin(d: Date, tm: TimeOfDay)
    requires Printable(d, tm)
    ensures Spelled(Join(d, tm)) == Some(Combine(d, tm))
  {
    var s := Join(d, tm);
    assert s == FormatDate(d) + "T" + FormatTime(tm);
    FormatLayout(d, tm);
    assert s[0..4] == Pad(d.year, 4) && s[5..7] == Pad(d.month, 2) && s[8..10] == Pad(d.day, 2);
    assert s[11..13] == Pad(tm.hour, 2) && s[14..16] == Pad(tm.minute, 2) && s[17..19] == Pad(tm.second, 2);
    SpelledFields(s, d.year, d.month, d.day, tm.hour, tm.minute, tm.second, tm.microsecond);
  }

  /** A printed date and time parse back to that instant when it exists and
      lies in the `Timestamp` range, and to `NaT` otherwise. */
  lemma JoinParses(d: Date, tm: TimeOfDay)
    requires Printable(d, tm)
    ensures Representable(Combine(d, tm)) ==> Parse(Join(d, tm)) == Some(Combine(d, tm))
    ensures !Representable(Combine(d, tm)) ==> Parse(Join(d, tm)) == None
  {
    SpelledJoin(d, tm);
  }

  /** A trailing `Z` zone designator, as the feed writes it, changes nothing:
      the zone is dropped after parsing. */
  lemma ZoneDropped(s: string)
    requires |s| == 19 || (|s| > 19 && s[|s| - 1] != 'Z')
    ensures Parse(s + "Z") == Parse(s)
  {
    var z := s + "Z";
    assert z[0..4] == s[0..4] && z[5..7] == s[5..7] && z[8..10] == s[8..10];
    assert z[11..13] == s[11..13] && z[14..16] == s[14..16] && z[17..19] == s[17..19];
    assert z[19..] == s[19..] + "Z";
    assert Zoneless(z[19..]) == Zoneless(s[19..]);
  }

  /** A timestamp is recovered from its date and its time, both as values
      and as the text `str(date) + "T" + str(time)` read back by the parser. */
  lemma SplitRoundTrip(t: Timestamp)
    ensures Combine(DateOf(t), TimeOf(t)) == t
    ensures Printable(DateOf(t), TimeOf(t)) && Parse(Join(DateOf(t), TimeOf(t))) == Some(t)
  {
    JoinParses(DateOf(t), TimeOf(t));
  }

  /** The 29th of February of a common year does not exist: `NaT`. */
  lemma MissingDateIsNaT()
    ensures Parse(Join(Date(2023, 2, 29), TimeOfDay(19, 30, 0, 0))) == None
  {
    JoinParses(Date(2023, 2, 29), TimeOfDay(19, 30, 0, 0));
  }
}
