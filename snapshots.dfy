/**
 * Snapshot names and the choice of the latest snapshot (Source/Program.cs).
 * `CollectConfig` names each snapshot folder after the local time in the
 * custom format `yyyy-MM-dd-HHmmss`; `SyncConfig` takes the entry of the
 * `Configs` listing that is greatest under `StringComparer.Ordinal`. The
 * lemmas here show that the two fit: ordinal order of the names is the
 * order of the local clock readings they were taken at, so sync selects the
 * collect with the latest local time.
 */
module Snapshots {
  import opened Wrappers
  import opened Ordinal

  // ---------------------------------------------------------------------
  // The proleptic Gregorian calendar, as `DateTime` counts it
  // ---------------------------------------------------------------------

  /** A local date and time to the second, as `DateTime.Now` reports it. */
  datatype Timestamp = Timestamp(year: int, month: int, day: int, hour: int, minute: int, second: int)

  predicate IsLeap(year: int) {
    year % 4 == 0 && (year % 100 != 0 || year % 400 == 0)
  }

  function DaysInMonth(leap: bool, month: int): (r: int)
    requires 1 <= month <= 12
    ensures 28 <= r <= 31
  {
    if month == 2 then (if leap then 29 else 28)
    else if month == 4 || month == 6 || month == 9 || month == 11 then 30
    else 31
  }

  /** The days in the first `months` months of a year. */
  function DaysToMonth(leap: bool, months: int): (r: int)
    requires 0 <= months <= 12
    ensures r >= 0
  {
    if months == 0 then 0 else DaysToMonth(leap, months - 1) + DaysInMonth(leap, months)
  }

  /** A date and time `DateTime` can hold: years 1 to 9999, real days of real months. */
  predicate Valid(t: Timestamp) {
    && 1 <= t.year <= 9999
    && 1 <= t.month <= 12
    && 1 <= t.day <= DaysInMonth(IsLeap(t.year), t.month)
    && 0 <= t.hour < 24
    && 0 <= t.minute < 60
    && 0 <= t.second < 60
  }

  /** The days from 0001-01-01 to the first day of `year`. */
  function DaysBeforeYear(year: int): int
    requires year >= 1
  {
    var p := year - 1;
    365 * p + p / 4 - p / 100 + p / 400
  }

  /** The days since 0001-01-01. */
  function DayNumber(t: Timestamp): int
    requires Valid(t)
  {
    DaysBeforeYear(t.year) + DaysToMonth(IsLeap(t.year), t.month - 1) + t.day - 1
  }

  /** The seconds since 0001-01-01 00:00:00: the time line the timestamps lie on. */
  function Instant(t: Timestamp): int
    requires Valid(t)
  {
    ((DayNumber(t) * 24 + t.hour) * 60 + t.minute) * 60 + t.second
  }

  /** The twelve months add up to a year: 366 days in a leap year, 365 otherwise. */
  lemma MonthsMakeAYear()
    ensures DaysToMonth(true, 12) == 366 && DaysToMonth(false, 12) == 365
  {
    assert DaysToMonth(true, 6) == 182 && DaysToMonth(false, 6) == 181;
  }

  /** Euclidean division has one answer: a quotient and remainder in range are the ones `/` and `%` give. */
  lemma QuotientOf(y: int, k: int, q: int, r: int)
    requires k >= 1 && y == k * q + r && 0 <= r < k
    ensures y / k == q && y % k == r
  {
    var q', r' := y / k, y % k;
    var d := q - q';
    assert k * q - k * q' == k * d;
    assert k * d == r' - r;
  }

  /** Counting on by one passes a multiple of `k` exactly when the new number is one. */
  lemma NextQuotient(p: int, k: int)
    requires k >= 1
    ensures (p + 1) / k - p / k == if (p + 1) % k == 0 then 1 else 0
  {
    var q, r := p / k, p % k;
    if r + 1 < k {
      QuotientOf(p + 1, k, q, r + 1);
    } else {
      assert p + 1 == k * (q + 1);
      QuotientOf(p + 1, k, q + 1, 0);
    }
  }

  lemma CenturiesAreLeapCandidates(y: int)
    ensures y % 400 == 0 ==> y % 100 == 0
    ensures y % 100 == 0 ==> y % 4 == 0
  {
    if y % 400 == 0 {
      QuotientOf(y, 100, 4 * (y / 400), 0);
    }
    if y % 100 == 0 {
      QuotientOf(y, 4, 25 * (y / 100), 0);
    }
  }

  /** A year lasts 366 days when it is a leap year and 365 otherwise. */
  lemma YearLength(year: int)
    requires year >= 1
    ensures DaysBeforeYear(year + 1) == DaysBeforeYear(year) + DaysToMonth(IsLeap(year), 12)
  {
    MonthsMakeAYear();
    NextQuotient(year - 1, 4);
    NextQuotient(year - 1, 100);
    NextQuotient(year - 1, 400);
    CenturiesAreLeapCandidates(year);
  }

  lemma {:induction false} DaysBeforeYearMonotone(a: int, b: int)
    requires 1 <= a <= b
    ensures DaysBeforeYear(a) <= DaysBeforeYear(b)
    decreases b - a
  {
    if a < b {
      YearLength(a);
      DaysBeforeYearMonotone(a + 1, b);
    }
  }

  lemma {:induction false} DaysToMonthMonotone(leap: bool, a: int, b: int)
    requires 0 <= a <= b <= 12
    ensures DaysToMonth(leap, a) <= DaysToMonth(leap, b)
    decreases b - a
  {
    if a < b {
      DaysToMonthMonotone(leap, a, b - 1);
    }
  }

  /** The earlier of two dates, year first, then month, then day. */
  predicate DateBefore(a: Timestamp, b: Timestamp) {
    a.year < b.year || (a.year == b.year && (a.month < b.month || (a.month == b.month && a.day < b.day)))
  }

  /** Every day of a year comes before the first day of any later year. */
  lemma DayBeforeLaterYear(a: Timestamp, year: int)
    requires Valid(a) && a.year < year
    ensures DayNumber(a) < DaysBeforeYear(year)
  {
    var leap := IsLeap(a.year);
    DaysToMonthMonotone(leap, a.month, 12);
    YearLength(a.year);
    DaysBeforeYearMonotone(a.year + 1, year);
    assert DayNumber(a) < DaysBeforeYear(a.year) + DaysToMonth(leap, a.month);
  }

  /** Day numbers count the calendar: a date before another has a smaller day number. */
  lemma DayNumberOrder(a: Timestamp, b: Timestamp)
    requires Valid(a) && Valid(b) && DateBefore(a, b)
    ensures DayNumber(a) < DayNumber(b)
  {
    if a.year < b.year {
      DayBeforeLaterYear(a, b.year);
    } else if a.month < b.month {
      DaysToMonthMonotone(IsLeap(a.year), a.month, b.month - 1);
    }
  }

  /** The chronological order of two times is the order of their fields, most significant first. */
  lemma InstantOrder(a: Timestamp, b: Timestamp)
    requires Valid(a) && Valid(b)
    ensures Instant(a) < Instant(b) <==> FieldsBefore(a, b)
    ensures Instant(a) == Instant(b) <==> a == b
  {
    var da, db := DayNumber(a), DayNumber(b);
    var sa := (a.hour * 60 + a.minute) * 60 + a.second;
    var sb := (b.hour * 60 + b.minute) * 60 + b.second;
    assert Instant(a) == da * 86400 + sa && 0 <= sa < 86400;
    assert Instant(b) == db * 86400 + sb && 0 <= sb < 86400;
    if DateBefore(a, b) {
      DayNumberOrder(a, b);
    } else if DateBefore(b, a) {
      DayNumberOrder(b, a);
    } else {
      assert a.year == b.year && a.month == b.month && a.day == b.day;
      assert da == db;
    }
  }

  /** The fields compared one after the other, year first and second last. */
  predicate FieldsBefore(a: Timestamp, b: Timestamp) {
    DateBefore(a, b)
    || (a.year == b.year && a.month == b.month && a.day == b.day &&
        (a.hour < b.hour || (a.hour == b.hour && (a.minute < b.minute || (a.minute == b.minute && a.second < b.second)))))
  }

  // ---------------------------------------------------------------------
  // The format `yyyy-MM-dd-HHmmss`
  // ---------------------------------------------------------------------

  function Pow10(w: nat): (r: nat)
    ensures r >= 1
  {
    if w == 0 then 1 else 10 * Pow10(w - 1)
  }

  function Digit(d: int): char
    requires 0 <= d < 10
  {
    ('0' as int + d) as char
  }

  /** `n` in `w` decimal digits, padded with zeros on the left, as the custom format specifiers `yyyy`, `MM`, `dd`, `HH`, `mm`, `ss` write it. */
  function Digits(n: nat, w: nat): (r: string)
    ensures |r| == w
    ensures forall i :: 0 <= i < w ==> '0' <= r[i] <= '9'
  {
    if w == 0 then "" else Digits(n / 10, w - 1) + [Digit(n % 10)]
  }

  /** Padded numbers of one width compare as strings exactly as they compare as numbers. */
  lemma {:induction false} DigitsOrder(a: nat, b: nat, w: nat)
    requires a < Pow10(w) && b < Pow10(w)
    ensures Less(Digits(a, w), Digits(b, w)) <==> a < b
    ensures Digits(a, w) == Digits(b, w) <==> a == b
  {
    if w > 0 {
      var a', b' := Digits(a / 10, w - 1), Digits(b / 10, w - 1);
      var ca, cb := [Digit(a % 10)], [Digit(b % 10)];
      DigitsOrder(a / 10, b / 10, w - 1);
      ConcatSameLength(a', ca, b', cb);
      assert Less(ca, cb) <==> a % 10 < b % 10;
      if a' + ca == b' + cb {
        assert (a' + ca)[..w - 1] == a' && (b' + cb)[..w - 1] == b';
        assert (a' + ca)[w - 1] == Digit(a % 10) && (b' + cb)[w - 1] == Digit(b % 10);
      }
    }
  }

  /** The date half of the name, `yyyy-MM-dd-`. */
  function DatePart(t: Timestamp): (r: string)
    requires Valid(t)
    ensures |r| == 11
  {
    Digits(t.year, 4) + "-" + Digits(t.month, 2) + "-" + Digits(t.day, 2) + "-"
  }

  /** The time half of the name, `HHmmss`. */
  function TimePart(t: Timestamp): (r: string)
    requires Valid(t)
    ensures |r| == 6
  {
    Digits(t.hour, 2) + Digits(t.minute, 2) + Digits(t.second, 2)
  }

  /** `t.ToString("yyyy-MM-dd-HHmmss")`: the snapshot folder's name. */
  function Format(t: Timestamp): (r: string)
    requires Valid(t)
    ensures |r| == 17
    ensures r[4] == '-' && r[7] == '-' && r[10] == '-'
    ensures forall i :: 0 <= i < 17 && i != 4 && i != 7 && i != 10 ==> '0' <= r[i] <= '9'
  {
    DatePart(t) + TimePart(t)
  }

  /**
   * Appending pieces of one length to prefixes of one length: the prefixes
   * decide unless they are equal, and the results are equal only when both
   * parts are.
   */
  lemma Extend(a1: string, b1: string, a2: string, b2: string)
    requires |a1| == |a2| && |b1| == |b2|
    ensures Less(a1 + b1, a2 + b2) <==> Less(a1, a2) || (a1 == a2 && Less(b1, b2))
    ensures a1 + b1 == a2 + b2 <==> a1 == a2 && b1 == b2
  {
    ConcatSameLength(a1, b1, a2, b2);
    if a1 + b1 == a2 + b2 {
      assert (a1 + b1)[..|a1|] == a1 && (a2 + b2)[..|a2|] == a2;
      assert (a1 + b1)[|a1|..] == b1 && (a2 + b2)[|a2|..] == b2;
    }
  }

  /** The date halves compare as the dates do. */
  lemma DatePartOrder(a: Timestamp, b: Timestamp)
    requires Valid(a) && Valid(b)
    ensures Less(DatePart(a), DatePart(b)) <==> DateBefore(a, b)
    ensures DatePart(a) == DatePart(b) <==> a.year == b.year && a.month == b.month && a.day == b.day
  {
    assert Pow10(2) == 100 && Pow10(4) == 10000;
    DigitsOrder(a.year, b.year, 4);
    DigitsOrder(a.month, b.month, 2);
    DigitsOrder(a.day, b.day, 2);
    Irreflexive("-");
    var a1, b1 := Digits(a.year, 4) + "-", Digits(b.year, 4) + "-";
    Extend(Digits(a.year, 4), "-", Digits(b.year, 4), "-");
    var a2, b2 := a1 + Digits(a.month, 2), b1 + Digits(b.month, 2);
    Extend(a1, Digits(a.month, 2), b1, Digits(b.month, 2));
    var a3, b3 := a2 + "-", b2 + "-";
    Extend(a2, "-", b2, "-");
    var a4, b4 := a3 + Digits(a.day, 2), b3 + Digits(b.day, 2);
    Extend(a3, Digits(a.day, 2), b3, Digits(b.day, 2));
    Extend(a4, "-", b4, "-");
  }

  /** The time halves compare as the times of day do. */
  lemma TimePartOrder(a: Timestamp, b: Timestamp)
    requires Valid(a) && Valid(b)
    ensures Less(TimePart(a), TimePart(b)) <==>
      a.hour < b.hour || (a.hour == b.hour && (a.minute < b.minute || (a.minute == b.minute && a.second < b.second)))
    ensures TimePart(a) == TimePart(b) <==> a.hour == b.hour && a.minute == b.minute && a.second == b.second
  {
    assert Pow10(2) == 100;
    DigitsOrder(a.hour, b.hour, 2);
    DigitsOrder(a.minute, b.minute, 2);
    DigitsOrder(a.second, b.second, 2);
    var a1, b1 := Digits(a.hour, 2) + Digits(a.minute, 2), Digits(b.hour, 2) + Digits(b.minute, 2);
    Extend(Digits(a.hour, 2), Digits(a.minute, 2), Digits(b.hour, 2), Digits(b.minute, 2));
    Extend(a1, Digits(a.second, 2), b1, Digits(b.second, 2));
  }

  /**
   * The property the naming relies on: the name of the earlier time is the
   * ordinally smaller one, and two times share a name only when they are
   * the same second.
   */
  lemma FormatOrder(a: Timestamp, b: Timestamp)
    requires Valid(a) && Valid(b)
    ensures Less(Format(a), Format(b)) <==> Instant(a) < Instant(b)
    ensures Format(a) == Format(b) <==> a == b
  {
    DatePartOrder(a, b);
    TimePartOrder(a, b);
    Extend(DatePart(a), TimePart(a), DatePart(b), TimePart(b));
    InstantOrder(a, b);
  }

  // ---------------------------------------------------------------------
  // Choosing the latest snapshot
  // ---------------------------------------------------------------------

  /**
   * `listing.OrderByDescending(d => d, StringComparer.Ordinal).FirstOrDefault()`:
   * nothing for an empty listing, otherwise its greatest entry.
   */
  function Latest(listing: seq<string>): (r: Option<string>)
    ensures r.None? <==> listing == []
    ensures r.Some? ==> r.value in listing && forall x :: x in listing ==> LessEq(x, r.value)
  {
    if listing == [] then None
    else
      var first := listing[0];
      match Latest(listing[1..])
      case None => Some(first)
      case Some(m) =>
        Total(m, first);
        forall x | x in listing[1..] && Less(m, first)
          ensures LessEq(x, first)
        {
          if x != m {
            Transitive(x, m, first);
          }
        }
        if Less(m, first) then Some(first) else Some(m)
  }

  /** There is one greatest entry: the choice does not depend on the order of the listing. */
  lemma LatestOfSameEntries(xs: seq<string>, ys: seq<string>)
    requires forall x :: x in xs <==> x in ys
    ensures Latest(xs) == Latest(ys)
  {
    if xs != [] {
      assert xs[0] in ys;
      var a, b := Latest(xs).value, Latest(ys).value;
      LessEqAntisymmetric(a, b);
    }
  }

  /**
   * The listing holds full paths, which all begin with the path of the
   * `Configs` folder; comparing them compares the folder names.
   */
  lemma LatestUnderCommonPrefix(prefix: string, names: seq<string>)
    requires names != []
    ensures var full := seq(|names|, i requires 0 <= i < |names| => prefix + names[i]);
      Latest(full) == Some(prefix + Latest(names).value)
  {
    var full := seq(|names|, i requires 0 <= i < |names| => prefix + names[i]);
    var m := Latest(names).value;
    var k :| 0 <= k < |names| && names[k] == m;
    assert full[k] == prefix + m;
    var r := Latest(full).value;
    var j :| 0 <= j < |full| && full[j] == r;
    CommonPrefix(prefix, names[j], m);
    CommonPrefix(prefix, m, names[j]);
    assert LessEq(names[j], m);
    assert LessEq(r, prefix + m);
    assert LessEq(prefix + m, r);
    LessEqAntisymmetric(r, prefix + m);
  }

  /**
   * When every entry is the name of a snapshot, sync selects the one taken
   * last: its time is at least the time of every other snapshot.
   */
  lemma LatestIsNewest(listing: seq<string>, taken: seq<Timestamp>)
    requires |listing| == |taken| > 0
    requires forall i :: 0 <= i < |taken| ==> Valid(taken[i]) && listing[i] == Format(taken[i])
    ensures exists k :: (0 <= k < |taken| && Latest(listing) == Some(Format(taken[k])) &&
                         forall i :: 0 <= i < |taken| ==> Instant(taken[i]) <= Instant(taken[k]))
  {
    var m := Latest(listing).value;
    var k :| 0 <= k < |listing| && listing[k] == m;
    forall i | 0 <= i < |taken|
      ensures Instant(taken[i]) <= Instant(taken[k])
    {
      assert listing[i] in listing;
      FormatOrder(taken[i], taken[k]);
    }
  }

  /** A collect whose local time is later than that of every earlier one is what the next sync selects. */
  lemma CollectThenSync(earlier: seq<Timestamp>, now: Timestamp)
    requires Valid(now)
    requires forall i :: 0 <= i < |earlier| ==> Valid(earlier[i]) && Instant(earlier[i]) < Instant(now)
    ensures Latest(seq(|earlier|, i requires 0 <= i < |earlier| => Format(earlier[i])) + [Format(now)]) == Some(Format(now))
  {
    var listing := seq(|earlier|, i requires 0 <= i < |earlier| => Format(earlier[i])) + [Format(now)];
    var m := Latest(listing).value;
    var k :| 0 <= k < |listing| && listing[k] == m;
    if k < |earlier| {
      FormatOrder(earlier[k], now);
      assert Format(now) in listing;
      assert LessEq(Format(now), m);
      Asymmetric(m, Format(now));
      assert false;
    }
  }
}
