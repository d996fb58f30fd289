/**
 * Naive `datetime.datetime` values, their calendar validity, their position
 * on an absolute seconds axis (what subtraction of two datetimes measures),
 * and `datetime.strptime` for the formats the core uses:
 * `%Y<sep>%m<sep>%d %H:%M:%S` and `%Y<sep>%m<sep>%d %H:%M`.
 */
module DateTimes {
  import opened Wrappers
  import opened Strings

  datatype DateTime = DateTime(year: int, month: int, day: int, hour: int, minute: int, second: int)

  /** `datetime(2000, 1, 1)`, the timestamp substituted when nothing else is known. */
  const Sentinel := DateTime(2000, 1, 1, 0, 0, 0)

  predicate IsLeap(y: int) { y % 4 == 0 && (y % 100 != 0 || y % 400 == 0) }

  function DaysInMonth(y: int, m: int): int
  {
    if m == 2 then (if IsLeap(y) then 29 else 28)
    else if m == 4 || m == 6 || m == 9 || m == 11 then 30
    else 31
  }

  function DaysInYear(y: int): int { if IsLeap(y) then 366 else 365 }

  /** The arguments `datetime(y, m, d, H, M, S)` accepts without `ValueError`. */
  predicate Valid(dt: DateTime)
  {
    && 1 <= dt.year <= 9999
    && 1 <= dt.month <= 12
    && 1 <= dt.day <= DaysInMonth(dt.year, dt.month)
    && 0 <= dt.hour < 24 && 0 <= dt.minute < 60 && 0 <= dt.second < 60
  }

  lemma SentinelValid()
    ensures Valid(Sentinel)
  {
  }

  /** Python's comparison of two naive datetimes: lexicographic on the fields. */
  predicate Before(a: DateTime, b: DateTime)
  {
    || a.year < b.year
    || (a.year == b.year && a.month < b.month)
    || (a.year == b.year && a.month == b.month && a.day < b.day)
    || (a.year == b.year && a.month == b.month && a.day == b.day && a.hour < b.hour)
    || (a.year == b.year && a.month == b.month && a.day == b.day && a.hour == b.hour && a.minute < b.minute)
    || (a.year == b.year && a.month == b.month && a.day == b.day && a.hour == b.hour && a.minute == b.minute
        && a.second < b.second)
  }

  // ---------------------------------------------------------------------
  // The seconds axis (proleptic Gregorian ordinal, as `toordinal()`)

  function DaysBeforeYear(y: int): int
  {
    var p := y - 1;
    365 * p + p / 4 - p / 100 + p / 400
  }

  function DaysBeforeMonth(y: int, m: int): int
    decreases m
  {
    if m <= 1 then 0 else DaysBeforeMonth(y, m - 1) + DaysInMonth(y, m - 1)
  }

  function Ordinal(dt: DateTime): int
  {
    DaysBeforeYear(dt.year) + DaysBeforeMonth(dt.year, dt.month) + dt.day
  }

  /** Seconds since an arbitrary origin; `b - a` of two datetimes is `ToSeconds(b) - ToSeconds(a)` seconds. */
  function ToSeconds(dt: DateTime): int
  {
    Ordinal(dt) * 86400 + dt.hour * 3600 + dt.minute * 60 + dt.second
  }

  lemma LeapDivisions(p: int)
    ensures (p + 1) / 4 == p / 4 + (if (p + 1) % 4 == 0 then 1 else 0)
    ensures (p + 1) / 100 == p / 100 + (if (p + 1) % 100 == 0 then 1 else 0)
    ensures (p + 1) / 400 == p / 400 + (if (p + 1) % 400 == 0 then 1 else 0)
  {
  }

  lemma DaysBeforeYearStep(y: int)
    ensures DaysBeforeYear(y + 1) == DaysBeforeYear(y) + DaysInYear(y)
  {
    var p := y - 1;
    LeapDivisions(p);
    LeapMultiples(y);
    assert DaysBeforeYear(y + 1) - DaysBeforeYear(y)
      == 365 + (if y % 4 == 0 then 1 else 0) - (if y % 100 == 0 then 1 else 0) + (if y % 400 == 0 then 1 else 0);
  }

  lemma LeapMultiples(y: int)
    ensures y % 400 == 0 ==> y % 100 == 0
    ensures y % 100 == 0 ==> y % 4 == 0
  {
    if y % 400 == 0 {
      var k := y / 400;
      assert y == 100 * (4 * k) + 0;
      assert y / 100 == 4 * k;
    }
    if y % 100 == 0 {
      var k := y / 100;
      assert y == 4 * (25 * k) + 0;
      assert y / 4 == 25 * k;
    }
  }

  lemma {:induction false} DaysBeforeYearGrows(y1: int, y2: int)
    requires y1 < y2
    ensures DaysBeforeYear(y1) + DaysInYear(y1) <= DaysBeforeYear(y2)
    decreases y2 - y1
  {
    DaysBeforeYearStep(y1);
    if y1 + 1 < y2 {
      DaysBeforeYearGrows(y1 + 1, y2);
    }
  }

  lemma DaysBeforeMonthOfYearEnd(y: int)
    ensures DaysBeforeMonth(y, 13) == DaysInYear(y)
  {
    assert DaysBeforeMonth(y, 2) == 31;
    assert DaysBeforeMonth(y, 3) == 31 + DaysInMonth(y, 2);
    assert DaysBeforeMonth(y, 4) == 62 + DaysInMonth(y, 2);
    assert DaysBeforeMonth(y, 5) == 92 + DaysInMonth(y, 2);
    assert DaysBeforeMonth(y, 6) == 123 + DaysInMonth(y, 2);
    assert DaysBeforeMonth(y, 7) == 153 + DaysInMonth(y, 2);
    assert DaysBeforeMonth(y, 8) == 184 + DaysInMonth(y, 2);
    assert DaysBeforeMonth(y, 9) == 215 + DaysInMonth(y, 2);
    assert DaysBeforeMonth(y, 10) == 245 + DaysInMonth(y, 2);
    assert DaysBeforeMonth(y, 11) == 276 + DaysInMonth(y, 2);
    assert DaysBeforeMonth(y, 12) == 306 + DaysInMonth(y, 2);
  }

  lemma {:induction false} DaysBeforeMonthGrows(y: int, m1: int, m2: int)
    requires m1 < m2 && 1 <= m1
    ensures DaysBeforeMonth(y, m1) + DaysInMonth(y, m1) <= DaysBeforeMonth(y, m2)
    decreases m2 - m1
  {
    if m1 + 1 < m2 {
      DaysBeforeMonthGrows(y, m1 + 1, m2);
    }
  }

  lemma DaysWithinYear(dt: DateTime)
    requires Valid(dt)
    ensures 1 <= DaysBeforeMonth(dt.year, dt.month) + dt.day <= DaysInYear(dt.year)
  {
    DaysBeforeMonthOfYearEnd(dt.year);
    DaysBeforeMonthGrows(dt.year, dt.month, 13);
  }

  /** Python's datetime order and the order of the seconds axis agree on valid datetimes. */
  lemma BeforeIsEarlier(a: DateTime, b: DateTime)
    requires Valid(a) && Valid(b) && Before(a, b)
    ensures ToSeconds(a) < ToSeconds(b)
  {
    if a.year < b.year {
      DaysWithinYear(a);
      DaysWithinYear(b);
      DaysBeforeYearGrows(a.year, b.year);
      assert Ordinal(a) < Ordinal(b);
    } else if a.month < b.month {
      DaysBeforeMonthGrows(a.year, a.month, b.month);
      assert Ordinal(a) < Ordinal(b);
    } else if a.day < b.day {
      assert Ordinal(a) < Ordinal(b);
    }
  }

  /**
   * On valid datetimes the seconds axis decides Python's comparisons exactly:
   * `a < b` iff fewer seconds, and `a == b` iff the same number of seconds.
   */
  lemma SecondsDecideOrder(a: DateTime, b: DateTime)
    requires Valid(a) && Valid(b)
    ensures Before(a, b) <==> ToSeconds(a) < ToSeconds(b)
    ensures a == b <==> ToSeconds(a) == ToSeconds(b)
  {
    if Before(a, b) {
      BeforeIsEarlier(a, b);
    } else if Before(b, a) {
      BeforeIsEarlier(b, a);
    }
  }

  // ---------------------------------------------------------------------
  // strptime

  /** End of the run of digits that starts at `i`. */
  function DigitRunEnd(s: string, i: nat): (j: nat)
    requires i <= |s|
    ensures i <= j <= |s|
    ensures forall k :: i <= k < j ==> IsDigit(s[k])
    ensures j == |s| || !IsDigit(s[j])
    decreases |s| - i
  {
    if i < |s| && IsDigit(s[i]) then DigitRunEnd(s, i + 1) else i
  }

  /** End of the run of whitespace that starts at `i`. */
  function SpaceRunEnd(s: string, i: nat): (j: nat)
    requires i <= |s|
    ensures i <= j <= |s|
    ensures forall k :: i <= k < j ==> IsSpace(s[k])
    ensures j == |s| || !IsSpace(s[j])
    decreases |s| - i
  {
    if i < |s| && IsSpace(s[i]) then SpaceRunEnd(s, i + 1) else i
  }

  /**
   * One `%m`, `%d`, `%H`, `%M` or `%S` field: the directive's pattern
   * (`1[0-2]|0[1-9]|[1-9]` for `%m`, and so on) accepts exactly the strings of
   * one or two digits whose value lies in `[lo, hi]`. Every field is followed
   * by a non-digit or the end of the input, so it spans a whole digit run.
   */
  function Field(s: string, i: nat, lo: int, hi: int): (r: Option<(int, nat)>)
    requires i <= |s|
    ensures r.Some? ==> lo <= r.value.0 <= hi && i < r.value.1 <= |s|
  {
    var j := DigitRunEnd(s, i);
    var tok := s[i..j];
    if 1 <= |tok| <= 2 && lo <= DigitsValue(tok) <= hi then Some((DigitsValue(tok), j)) else None
  }

  /** `%d` additionally accepts a space followed by one non-zero digit. */
  function DayField(s: string, i: nat): (r: Option<(int, nat)>)
    requires i <= |s|
    ensures r.Some? ==> 1 <= r.value.0 <= 31 && i < r.value.1 <= |s|
  {
    if i < |s| && s[i] == ' ' then
      if i + 1 < |s| && '1' <= s[i + 1] <= '9' && (i + 2 == |s| || !IsDigit(s[i + 2]))
      then Some((DigitValue(s[i + 1]), i + 2))
      else None
    else Field(s, i, 1, 31)
  }

  /** The seconds field, or its default 0 when the format has no `%S`; the input must end there. */
  function SecondsField(s: string, i: nat, withSeconds: bool): (r: Option<int>)
    requires i <= |s|
    ensures r.Some? ==> 0 <= r.value <= 61
  {
    if !withSeconds then (if i == |s| then Some(0) else None)
    else if i < |s| && s[i] == ':' then
      match Field(s, i + 1, 0, 61)
      case Some((v, e)) => if e == |s| then Some(v) else None
      case None => None
    else None
  }

  /**
   * `datetime.strptime(s, "%Y<sep>%m<sep>%d %H:%M:%S")` (or without `:%S`
   * when `withSeconds` is false), `None` where it raises `ValueError`:
   * `%Y` is exactly four digits, the space of the format matches any
   * non-empty run of whitespace, the whole input must be consumed, and the
   * fields must then form a valid datetime.
   */
  function Strptime(s: string, sep: char, withSeconds: bool): (r: Option<DateTime>)
    ensures r.Some? ==> Valid(r.value)
  {
    if |s| < 5 || !AllDigits(s[..4]) || s[4] != sep then None
    else
      var year := DigitsValue(s[..4]);
      match Field(s, 5, 1, 12)
      case None => None
      case Some((month, mEnd)) =>
        if mEnd == |s| || s[mEnd] != sep then None
        else
          match DayField(s, mEnd + 1)
          case None => None
          case Some((day, dEnd)) => StrptimeTime(s, dEnd, withSeconds, year, month, day)
  }

  /** The time half of `strptime`, after the date: spaces, `%H:%M`, then `:%S` when asked for. */
  function StrptimeTime(s: string, dEnd: nat, withSeconds: bool, year: int, month: int, day: int): (r: Option<DateTime>)
    requires dEnd <= |s|
    ensures r.Some? ==> Valid(r.value) && r.value.year == year && r.value.month == month && r.value.day == day
  {
    var hStart := SpaceRunEnd(s, dEnd);
    if hStart == dEnd then None
    else
      match Field(s, hStart, 0, 23)
      case None => None
      case Some((hour, hEnd)) =>
        if hEnd == |s| || s[hEnd] != ':' then None
        else
          match Field(s, hEnd + 1, 0, 59)
          case None => None
          case Some((minute, miEnd)) =>
            match SecondsField(s, miEnd, withSeconds)
            case None => None
            case Some(second) =>
              var dt := DateTime(year, month, day, hour, minute, second);
              if Valid(dt) then Some(dt) else None
  }

  // ---------------------------------------------------------------------
  // Formatting, and the round trip through strptime

  function Pad2(n: nat): string
    requires n < 100
  {
    [DigitChar(n / 10), DigitChar(n % 10)]
  }

  function Pad4(n: nat): string
    requires n < 10000
  {
    [DigitChar(n / 1000), DigitChar(n / 100 % 10), DigitChar(n / 10 % 10), DigitChar(n % 10)]
  }

  lemma Pad2Value(n: nat)
    requires n < 100
    ensures AllDigits(Pad2(n)) && DigitsValue(Pad2(n)) == n
  {
    var s := Pad2(n);
    assert s[..1] == [DigitChar(n / 10)];
    assert s[..1][..0] == [];
    assert DigitsValue(s[..1]) == n / 10;
    assert DigitsValue(s) == n / 10 * 10 + n % 10;
  }

  lemma Pad4Value(n: nat)
    requires n < 10000
    ensures AllDigits(Pad4(n)) && DigitsValue(Pad4(n)) == n
  {
    FourDigitsValue(n / 1000, n / 100 % 10, n / 10 % 10, n % 10);
    var q := n / 10;
    assert n == q * 10 + n % 10;
    assert q == q / 10 * 10 + q % 10 && q / 10 == n / 100 && q % 10 == n / 10 % 10;
    assert n / 100 == n / 1000 * 10 + n / 100 % 10;
  }

  /** Four digits read back as the number they spell, most significant first. */
  lemma FourDigitsValue(a: nat, b: nat, c: nat, d: nat)
    requires a < 10 && b < 10 && c < 10 && d < 10
    ensures var s := [DigitChar(a), DigitChar(b), DigitChar(c), DigitChar(d)];
      AllDigits(s) && DigitsValue(s) == ((a * 10 + b) * 10 + c) * 10 + d
  {
    var s := [DigitChar(a), DigitChar(b), DigitChar(c), DigitChar(d)];
    assert s[..3][..2][..1][..0] == [];
    assert s[..3][..2][..1] == [s[0]];
    assert s[..3][..2] == [s[0], s[1]];
    assert s[..3] == [s[0], s[1], s[2]];
    assert DigitValue(s[0]) == a && DigitValue(s[1]) == b && DigitValue(s[2]) == c && DigitValue(s[3]) == d;
    assert DigitsValue(s[..3][..2][..1]) == a;
    assert DigitsValue(s[..3][..2]) == a * 10 + b;
    assert DigitsValue(s[..3]) == (a * 10 + b) * 10 + c;
  }

  /** `dt.strftime("%Y<sep>%m<sep>%d %H:%M:%S")`, or without the seconds. */
  function Format(dt: DateTime, sep: char, withSeconds: bool): (s: string)
    requires Valid(dt)
    ensures |s| == if withSeconds then 19 else 16
  {
    Pad4(dt.year) + [sep] + Pad2(dt.month) + [sep] + Pad2(dt.day) + " "
      + Pad2(dt.hour) + ":" + Pad2(dt.minute)
      + (if withSeconds then ":" + Pad2(dt.second) else "")
  }

  /** Where each field of a formatted datetime sits. */
  lemma FormatLayout(dt: DateTime, sep: char, withSeconds: bool)
    requires Valid(dt)
    ensures var s := Format(dt, sep, withSeconds);
      s[..4] == Pad4(dt.year) && s[4] == sep && s[5..7] == Pad2(dt.month) && s[7] == sep
      && s[8..10] == Pad2(dt.day) && s[10] == ' ' && s[11..13] == Pad2(dt.hour) && s[13] == ':'
      && s[14..16] == Pad2(dt.minute)
      && (withSeconds ==> s[16] == ':' && s[17..19] == Pad2(dt.second))
  {
    var s := Format(dt, sep, withSeconds);
    var date := Pad4(dt.year) + [sep] + Pad2(dt.month) + [sep] + Pad2(dt.day);
    var time := Pad2(dt.hour) + ":" + Pad2(dt.minute);
    var rest := if withSeconds then ":" + Pad2(dt.second) else "";
    assert s == date + " " + time + rest;
    assert s[..4] == date[..4];
    PairSlice(s, 5, Pad2(dt.month));
    PairSlice(s, 8, Pad2(dt.day));
    PairSlice(s, 11, Pad2(dt.hour));
    PairSlice(s, 14, Pad2(dt.minute));
    if withSeconds {
      PairSlice(s, 17, Pad2(dt.second));
    }
  }

  lemma PairSlice(s: string, i: nat, p: string)
    requires |p| == 2 && i + 2 <= |s| && s[i] == p[0] && s[i + 1] == p[1]
    ensures s[i..i + 2] == p
  {
  }

  lemma DigitRunEndIs(s: string, i: nat, j: nat)
    requires i <= j <= |s|
    requires forall k :: i <= k < j ==> IsDigit(s[k])
    requires j == |s| || !IsDigit(s[j])
    ensures DigitRunEnd(s, i) == j
    decreases j - i
  {
    if i < j {
      DigitRunEndIs(s, i + 1, j);
    }
  }

  lemma FieldAt(s: string, i: nat, n: nat, lo: int, hi: int)
    requires n < 100 && lo <= n <= hi
    requires i + 2 <= |s| && s[i..i + 2] == Pad2(n)
    requires i + 2 == |s| || !IsDigit(s[i + 2])
    ensures Field(s, i, lo, hi) == Some((n, i + 2))
  {
    Pad2Value(n);
    assert IsDigit(s[i]) && IsDigit(s[i + 1]);
    DigitRunEndIs(s, i, i + 2);
  }

  /**
   * Formatting a valid datetime and parsing it back with the same format
   * gives the datetime again (for any separator that is neither a digit nor
   * a space); without `%S` this holds for datetimes on a whole minute.
   */
  lemma {:induction false} StrptimeFormat(dt: DateTime, sep: char, withSeconds: bool)
    requires Valid(dt) && !IsDigit(sep) && sep != ' '
    requires !withSeconds ==> dt.second == 0
    ensures Strptime(Format(dt, sep, withSeconds), sep, withSeconds) == Some(dt)
  {
    var s := Format(dt, sep, withSeconds);
    FormatLayout(dt, sep, withSeconds);
    Pad4Value(dt.year);
    FieldAt(s, 5, dt.month, 1, 12);
    assert s[8] != ' ';
    FieldAt(s, 8, dt.day, 1, 31);
    assert DayField(s, 8) == Some((dt.day, 10));
    assert IsSpace(s[10]) && !IsSpace(s[11]);
    assert SpaceRunEnd(s, 11) == 11;
    assert SpaceRunEnd(s, 10) == 11;
    FieldAt(s, 11, dt.hour, 0, 23);
    assert s[13] == ':';
    FieldAt(s, 14, dt.minute, 0, 59);
    if withSeconds {
      assert s[16] == ':';
      FieldAt(s, 17, dt.second, 0, 61);
      assert SecondsField(s, 16, true) == Some(dt.second);
    } else {
      assert SecondsField(s, 16, false) == Some(0);
    }
  }

  /**
   * A formatted datetime is not read by the format of the other width: the
   * seconds are either missing or left over.
   */
  lemma {:induction false} StrptimeOtherWidth(dt: DateTime, sep: char, withSeconds: bool)
    requires Valid(dt) && !IsDigit(sep) && sep != ' '
    ensures Strptime(Format(dt, sep, !withSeconds), sep, withSeconds).None?
  {
    var s := Format(dt, sep, !withSeconds);
    FormatLayout(dt, sep, !withSeconds);
    Pad4Value(dt.year);
    FieldAt(s, 5, dt.month, 1, 12);
    assert s[8] != ' ';
    FieldAt(s, 8, dt.day, 1, 31);
    assert DayField(s, 8) == Some((dt.day, 10));
    assert IsSpace(s[10]) && !IsSpace(s[11]);
    assert SpaceRunEnd(s, 11) == 11;
    assert SpaceRunEnd(s, 10) == 11;
    FieldAt(s, 11, dt.hour, 0, 23);
    assert s[13] == ':';
    FieldAt(s, 14, dt.minute, 0, 59);
    assert SecondsField(s, 16, withSeconds).None?;
  }

  /**
   * At most one of the formats reads a given string: the date separator must
   * stand at position 4, and after the minutes the input either ends or goes
   * on with the seconds.
   */
  lemma StrptimeFormatsExclusive(s: string, sep1: char, withSeconds1: bool, sep2: char, withSeconds2: bool)
    requires Strptime(s, sep1, withSeconds1).Some? && Strptime(s, sep2, withSeconds2).Some?
    ensures sep1 == sep2 && withSeconds1 == withSeconds2
  {
  }

  /** A field that spans the digit run `s[i..j]` of one or two digits reads its value. */
  lemma FieldOfRun(s: string, i: nat, j: nat, lo: int, hi: int)
    requires i < j <= |s| && j - i <= 2
    requires forall k :: i <= k < j ==> IsDigit(s[k])
    requires j == |s| || !IsDigit(s[j])
    requires lo <= DigitsValue(s[i..j]) <= hi
    ensures Field(s, i, lo, hi) == Some((DigitsValue(s[i..j]), j))
  {
    DigitRunEndIs(s, i, j);
  }

  lemma OneDigitValue(s: string)
    requires |s| == 1 && IsDigit(s[0])
    ensures DigitsValue(s) == DigitValue(s[0])
  {
    assert s[..0] == [];
  }

  /**
   * `strptime` does not need zero padding: "2020/6/22 09:40:5", the
   * processor's own example, reads as 2020-06-22 09:40:05.
   */
  lemma StrptimeUnpaddedExample()
    ensures Strptime("2020/6/22 09:40:5", '/', true) == Some(DateTime(2020, 6, 22, 9, 40, 5))
  {
    var s := "2020/6/22 09:40:5";
    UnpaddedDate(s);
    UnpaddedTime(s);
    UnpaddedSeparators(s);
    assert Valid(DateTime(2020, 6, 22, 9, 40, 5));
    StrptimeOfFields(s, '/', true, 2020, 6, 6, 22, 9, 10, 9, 12, 40, 15, 5);
  }

  /**
   * The EXIF-style "2020:6:22 09:40:12", once its date colons are rewritten,
   * reads as 2020-06-22 09:40:12 although the month has one digit.
   */
  lemma StrptimeRewrittenColonExample()
    ensures Strptime("2020/6/22 09:40:12", '/', true) == Some(DateTime(2020, 6, 22, 9, 40, 12))
  {
    var s := "2020/6/22 09:40:12";
    RewrittenDate(s);
    RewrittenTime(s);
    assert |s| == 18 && s[4] == '/' && s[6] == '/' && s[12] == ':';
    assert Valid(DateTime(2020, 6, 22, 9, 40, 12));
    StrptimeOfFields(s, '/', true, 2020, 6, 6, 22, 9, 10, 9, 12, 40, 15, 12);
  }

  lemma RewrittenDate(s: string)
    requires s == "2020/6/22 09:40:12"
    ensures AllDigits(s[..4]) && DigitsValue(s[..4]) == 2020
    ensures Field(s, 5, 1, 12) == Some((6, 6)) && DayField(s, 7) == Some((22, 9))
  {
    assert s[..4] == [DigitChar(2), DigitChar(0), DigitChar(2), DigitChar(0)];
    FourDigitsValue(2, 0, 2, 0);
    OneDigitValue(s[5..6]);
    FieldOfRun(s, 5, 6, 1, 12);
    assert s[7..9] == Pad2(22);
    Pad2Value(22);
    FieldOfRun(s, 7, 9, 1, 31);
  }

  lemma RewrittenTime(s: string)
    requires s == "2020/6/22 09:40:12"
    ensures SpaceRunEnd(s, 9) == 10
    ensures Field(s, 10, 0, 23) == Some((9, 12)) && Field(s, 13, 0, 59) == Some((40, 15))
    ensures SecondsField(s, 15, true) == Some(12)
  {
    assert IsSpace(s[9]) && !IsSpace(s[10]);
    assert SpaceRunEnd(s, 10) == 10;
    assert s[10..12] == Pad2(9);
    Pad2Value(9);
    FieldOfRun(s, 10, 12, 0, 23);
    assert s[13..15] == Pad2(40);
    Pad2Value(40);
    FieldOfRun(s, 13, 15, 0, 59);
    RewrittenSeconds(s);
  }

  lemma RewrittenSeconds(s: string)
    requires s == "2020/6/22 09:40:12"
    ensures SecondsField(s, 15, true) == Some(12)
  {
    assert s[16..18] == Pad2(12);
    Pad2Value(12);
    FieldOfRun(s, 16, 18, 0, 61);
  }

  /** `strptime` succeeds when each field reads in turn and the datetime they make is valid. */
  lemma {:induction false} StrptimeOfFields(s: string, sep: char, withSeconds: bool, year: int, month: int, mEnd: nat,
                         day: int, dEnd: nat, hStart: nat, hour: int, hEnd: nat, minute: int, miEnd: nat, second: int)
    requires |s| >= 5 && AllDigits(s[..4]) && s[4] == sep && DigitsValue(s[..4]) == year
    requires Field(s, 5, 1, 12) == Some((month, mEnd)) && mEnd < |s| && s[mEnd] == sep
    requires DayField(s, mEnd + 1) == Some((day, dEnd))
    requires SpaceRunEnd(s, dEnd) == hStart && hStart != dEnd
    requires Field(s, hStart, 0, 23) == Some((hour, hEnd)) && hEnd < |s| && s[hEnd] == ':'
    requires Field(s, hEnd + 1, 0, 59) == Some((minute, miEnd))
    requires SecondsField(s, miEnd, withSeconds) == Some(second)
    requires Valid(DateTime(year, month, day, hour, minute, second))
    ensures Strptime(s, sep, withSeconds) == Some(DateTime(year, month, day, hour, minute, second))
  {
    StrptimeTimeOfFields(s, dEnd, withSeconds, year, month, day, hStart, hour, hEnd, minute, miEnd, second);
  }

  lemma {:induction false} StrptimeTimeOfFields(s: string, dEnd: nat, withSeconds: bool, year: int, month: int, day: int,
                                                hStart: nat, hour: int, hEnd: nat, minute: int, miEnd: nat, second: int)
    requires dEnd <= |s| && SpaceRunEnd(s, dEnd) == hStart && hStart != dEnd
    requires Field(s, hStart, 0, 23) == Some((hour, hEnd)) && hEnd < |s| && s[hEnd] == ':'
    requires Field(s, hEnd + 1, 0, 59) == Some((minute, miEnd))
    requires SecondsField(s, miEnd, withSeconds) == Some(second)
    requires Valid(DateTime(year, month, day, hour, minute, second))
    ensures StrptimeTime(s, dEnd, withSeconds, year, month, day) == Some(DateTime(year, month, day, hour, minute, second))
  {
  }

  lemma UnpaddedSeparators(s: string)
    requires s == "2020/6/22 09:40:5"
    ensures |s| == 17 && s[4] == '/' && s[6] == '/' && s[12] == ':'
  {
  }

  lemma UnpaddedDate(s: string)
    requires s == "2020/6/22 09:40:5"
    ensures AllDigits(s[..4]) && DigitsValue(s[..4]) == 2020
    ensures Field(s, 5, 1, 12) == Some((6, 6)) && DayField(s, 7) == Some((22, 9))
  {
    assert s[..4] == [DigitChar(2), DigitChar(0), DigitChar(2), DigitChar(0)];
    FourDigitsValue(2, 0, 2, 0);
    OneDigitValue(s[5..6]);
    FieldOfRun(s, 5, 6, 1, 12);
    assert s[7..9] == Pad2(22);
    Pad2Value(22);
    FieldOfRun(s, 7, 9, 1, 31);
  }

  lemma UnpaddedTime(s: string)
    requires s == "2020/6/22 09:40:5"
    ensures SpaceRunEnd(s, 9) == 10
    ensures Field(s, 10, 0, 23) == Some((9, 12)) && Field(s, 13, 0, 59) == Some((40, 15))
    ensures SecondsField(s, 15, true) == Some(5)
  {
    assert IsSpace(s[9]) && !IsSpace(s[10]);
    assert SpaceRunEnd(s, 10) == 10;
    assert s[10..12] == Pad2(9);
    Pad2Value(9);
    FieldOfRun(s, 10, 12, 0, 23);
    assert s[13..15] == Pad2(40);
    Pad2Value(40);
    FieldOfRun(s, 13, 15, 0, 59);
    OneDigitValue(s[16..17]);
    FieldOfRun(s, 16, 17, 0, 61);
  }
}
