/**
 * The date/time reader of the OCR detector: the text the OCR engine
 * recognised is searched with three regular expressions, from the most to
 * the least specific,
 *
 *   (\d{4})[-/\.](\d{1,2})[-/\.](\d{1,2})\s+(\d{1,2}):(\d{1,2}):(\d{1,2})
 *   (\d{4})[-/\.](\d{1,2})[-/\.](\d{1,2})\s+(\d{1,2}):(\d{1,2})
 *   (\d{4})[-/\.](\d{1,2})[-/\.](\d{1,2})
 *
 * and the leftmost match of the first pattern that yields a valid datetime
 * with a year in 1990..2100 is the answer. The engines themselves are not
 * modelled: what they recognise is an input.
 */
module OcrDetector {
  import opened Wrappers
  import opened Strings
  import opened DateTimes

  datatype Pattern = Full | NoSeconds | DateOnly

  /** What a `\d{1,2}` group must be followed by for the rest of its pattern to match. */
  datatype Follow = DateSep | Space | Colon | AnyChar

  predicate IsDateSep(c: char) { c == '-' || c == '/' || c == '.' }

  predicate FollowedBy(s: string, j: nat, f: Follow)
  {
    match f
    case AnyChar => true
    case DateSep => j < |s| && IsDateSep(s[j])
    case Space => j < |s| && IsSpace(s[j])
    case Colon => j < |s| && s[j] == ':'
  }

  /**
   * The end of a `(\d{1,2})` group at `i`: greedy, so two digits when the
   * rest can follow them, otherwise one digit when the rest can follow that.
   */
  function OneOrTwoDigits(s: string, i: nat, f: Follow): (r: Option<nat>)
    ensures r.Some? ==> i < r.value <= i + 2 && r.value <= |s| && AllDigits(s[i..r.value])
    ensures r.Some? ==> FollowedBy(s, r.value, f)
    ensures r == Some(i + 1) ==> !(i + 2 <= |s| && AllDigits(s[i..i + 2]) && FollowedBy(s, i + 2, f))
    ensures r.None? ==> forall k :: i < k <= i + 2 && k <= |s| && AllDigits(s[i..k]) ==> !FollowedBy(s, k, f)
  {
    if i + 2 <= |s| && IsDigit(s[i]) && IsDigit(s[i + 1]) && FollowedBy(s, i + 2, f) then Some(i + 2)
    else if i + 1 <= |s| && IsDigit(s[i]) && FollowedBy(s, i + 1, f) then Some(i + 1)
    else None
  }

  /**
   * `(\d{4})[-/\.](\d{1,2})[-/\.](\d{1,2})` at `p`: the date groups and
   * where they end; `dayFollow` is what the pattern demands after the day.
   */
  function DateAt(s: string, p: nat, dayFollow: Follow): (r: Option<(int, int, int, nat)>)
    ensures r.Some? ==> p + 7 <= r.value.3 <= |s| && FollowedBy(s, r.value.3, dayFollow)
  {
    if p + 5 > |s| || !AllDigits(s[p..p + 4]) || !IsDateSep(s[p + 4]) then None
    else
      match OneOrTwoDigits(s, p + 5, DateSep)
      case None => None
      case Some(mEnd) =>
        match OneOrTwoDigits(s, mEnd + 1, dayFollow)
        case None => None
        case Some(dEnd) =>
          Some((DigitsValue(s[p..p + 4]), DigitsValue(s[p + 5..mEnd]), DigitsValue(s[mEnd + 1..dEnd]), dEnd))
  }

  /**
   * `\s+(\d{1,2}):(\d{1,2})` and, when `withSeconds`, `:(\d{1,2})` at `i`:
   * hour, minute and second (0 when absent).
   */
  function TimeAt(s: string, i: nat, withSeconds: bool): (r: Option<(int, int, int)>)
    requires i <= |s|
  {
    var hStart := SpaceRunEnd(s, i);
    if hStart == i then None
    else
      match OneOrTwoDigits(s, hStart, Colon)
      case None => None
      case Some(hEnd) =>
        match OneOrTwoDigits(s, hEnd + 1, if withSeconds then Colon else AnyChar)
        case None => None
        case Some(miEnd) =>
          var hour := DigitsValue(s[hStart..hEnd]);
          var minute := DigitsValue(s[hEnd + 1..miEnd]);
          if !withSeconds then Some((hour, minute, 0))
          else
            match OneOrTwoDigits(s, miEnd + 1, AnyChar)
            case None => None
            case Some(sEnd) => Some((hour, minute, DigitsValue(s[miEnd + 1..sEnd])))
  }

  /**
   * The groups of a match of `pat` that starts exactly at `p`, as a
   * not-yet-validated datetime (absent time groups are 0).
   */
  function MatchAt(s: string, p: nat, pat: Pattern): Option<DateTime>
  {
    match DateAt(s, p, if pat == DateOnly then AnyChar else Space)
    case None => None
    case Some((year, month, day, dEnd)) =>
      if pat == DateOnly then Some(DateTime(year, month, day, 0, 0, 0))
      else
        match TimeAt(s, dEnd, pat == Full)
        case None => None
        case Some((hour, minute, second)) => Some(DateTime(year, month, day, hour, minute, second))
  }

  /** The first `Some` in `ms` at or after `p`, with its position. */
  function Leftmost<T>(ms: seq<Option<T>>, p: nat): (r: Option<(nat, T)>)
    requires p <= |ms|
    ensures r.Some? ==> p <= r.value.0 < |ms| && ms[r.value.0] == Some(r.value.1)
    ensures r.Some? ==> forall q :: p <= q < r.value.0 ==> ms[q].None?
    ensures r.None? <==> forall q :: p <= q < |ms| ==> ms[q].None?
    decreases |ms| - p
  {
    if p == |ms| then None
    else if ms[p].Some? then Some((p, ms[p].value))
    else Leftmost(ms, p + 1)
  }

  /** The match of `pat` starting at each position of `s`, the end included. */
  function Matches(s: string, pat: Pattern): (ms: seq<Option<DateTime>>)
    ensures |ms| == |s| + 1 && forall q :: 0 <= q <= |s| ==> ms[q] == MatchAt(s, q, pat)
  {
    seq(|s| + 1, q requires 0 <= q <= |s| => MatchAt(s, q, pat))
  }

  /**
   * `re.search(pat, s)` from position `p` on: the leftmost position where
   * the pattern matches, with its groups.
   */
  function SearchFrom(s: string, pat: Pattern, p: nat): (r: Option<(nat, DateTime)>)
    requires p <= |s|
    ensures r.Some? ==> p <= r.value.0 <= |s| && MatchAt(s, r.value.0, pat) == Some(r.value.1)
    ensures r.Some? ==> forall q :: p <= q < r.value.0 ==> MatchAt(s, q, pat).None?
    ensures r.None? <==> forall q :: p <= q <= |s| ==> MatchAt(s, q, pat).None?
  {
    Leftmost(Matches(s, pat), p)
  }

  /** The leftmost match, accepted when `datetime(...)` takes it and its year is in 1990..2100. */
  function Accept(m: Option<(nat, DateTime)>): (r: Option<DateTime>)
  {
    if m.Some? && Valid(m.value.1) && 1990 <= m.value.1.year <= 2100 then Some(m.value.1) else None
  }

  /**
   * `_parse_datetime_from_text(text)`: the patterns in order; a pattern
   * whose leftmost match is not a valid datetime, or lies outside the year
   * window, hands over to the next pattern; `None` when all fail.
   */
  function ParseDatetimeFromText(text: string): (r: Option<DateTime>)
    ensures r.Some? ==> Valid(r.value) && 1990 <= r.value.year <= 2100
    ensures r.Some? ==> r == Accept(SearchFrom(text, Full, 0)) || r == Accept(SearchFrom(text, NoSeconds, 0))
                          || r == Accept(SearchFrom(text, DateOnly, 0))
    ensures Accept(SearchFrom(text, Full, 0)).Some? ==> r == Accept(SearchFrom(text, Full, 0))
    ensures Accept(SearchFrom(text, Full, 0)).None? && Accept(SearchFrom(text, NoSeconds, 0)).Some?
            ==> r == Accept(SearchFrom(text, NoSeconds, 0))
    ensures r.None? <==> Accept(SearchFrom(text, Full, 0)).None? && Accept(SearchFrom(text, NoSeconds, 0)).None?
                          && Accept(SearchFrom(text, DateOnly, 0)).None?
  {
    var full := Accept(SearchFrom(text, Full, 0));
    if full.Some? then full
    else
      var noSeconds := Accept(SearchFrom(text, NoSeconds, 0));
      if noSeconds.Some? then noSeconds
      else Accept(SearchFrom(text, DateOnly, 0))
  }

  /** What the OCR engine produced for an image. */
  datatype OcrReading =
    | EngineMissing          // `self.ocr is None`: the engine failed to initialise
    | EngineRaised           // the engine raised, or returned no result
    | Recognised(text: string)

  /**
   * `detect_datetime_from_image`: never raises; `None` without an engine or
   * after an engine error, otherwise the date read from the recognised text.
   */
  function DetectDatetimeFromImage(reading: OcrReading): (r: Option<DateTime>)
    ensures r.Some? ==> reading.Recognised? && Valid(r.value) && 1990 <= r.value.year <= 2100
    ensures !reading.Recognised? ==> r.None?
  {
    match reading
    case Recognised(text) => ParseDatetimeFromText(text)
    case _ => None
  }

  // ---------------------------------------------------------------------
  // What the reader finds in a stamped photograph

  /** Fields a camera can print in a stamp, whether or not they make a valid datetime. */
  predicate Printable(dt: DateTime)
  {
    0 <= dt.year < 10000 && 0 <= dt.month < 100 && 0 <= dt.day < 100
    && 0 <= dt.hour < 100 && 0 <= dt.minute < 100 && 0 <= dt.second < 100
  }

  /** A time stamp as cameras print it: each date separator may be '-', '/' or '.'. */
  function Stamp(dt: DateTime, sep1: char, sep2: char): (s: string)
    requires Printable(dt)
    ensures |s| == 19
  {
    Pad4(dt.year) + [sep1] + Pad2(dt.month) + [sep2] + Pad2(dt.day) + " "
      + Pad2(dt.hour) + ":" + Pad2(dt.minute) + ":" + Pad2(dt.second)
  }

  predicate InWindow(dt: DateTime) { Valid(dt) && 1990 <= dt.year <= 2100 }

  /**
   * The most precise acceptable reading of a stamp: the whole stamp, else
   * the stamp without its seconds, else its date alone.
   */
  function StampReading(dt: DateTime): (r: Option<DateTime>)
    ensures r.Some? ==> InWindow(r.value) && r.value.year == dt.year && r.value.month == dt.month && r.value.day == dt.day
    ensures InWindow(dt) ==> r == Some(dt)
    ensures r.None? <==> !InWindow(dt.(hour := 0, minute := 0, second := 0))
  {
    if InWindow(dt) then Some(dt)
    else if InWindow(dt.(second := 0)) then Some(dt.(second := 0))
    else if InWindow(dt.(hour := 0, minute := 0, second := 0)) then Some(dt.(hour := 0, minute := 0, second := 0))
    else None
  }

  /** No four consecutive digits: no match of any pattern can start inside such text. */
  predicate NoFourDigits(s: string)
  {
    forall i :: 0 <= i < |s| ==> !FourDigitsAt(s, i)
  }

  predicate FourDigitsAt(s: string, i: nat)
  {
    i + 4 <= |s| && AllDigits(s[i..i + 4])
  }

  lemma SearchSkips(s: string, pat: Pattern, p: nat, at: nat)
    requires p <= at <= |s|
    requires forall q :: p <= q < at ==> MatchAt(s, q, pat).None?
    requires MatchAt(s, at, pat).Some?
    ensures SearchFrom(s, pat, p) == Some((at, MatchAt(s, at, pat).value))
  {
    var ms := Matches(s, pat);
    assert forall q :: p <= q < at ==> ms[q].None?;
    LeftmostAt(ms, p, at);
  }

  /** The first `Some` at or after `p` is the one after a run of `None`s. */
  lemma LeftmostAt<T>(ms: seq<Option<T>>, p: nat, at: nat)
    requires p <= at < |ms| && ms[at].Some?
    requires forall q :: p <= q < at ==> ms[q].None?
    ensures Leftmost(ms, p) == Some((at, ms[at].value))
  {
    var r := Leftmost(ms, p);
    assert r.Some?;
    assert !(r.value.0 < at) && !(at < r.value.0);
  }

  lemma PairAt(s: string, i: nat, n: nat, f: Follow)
    requires n < 100 && i + 2 <= |s| && s[i..i + 2] == Pad2(n) && FollowedBy(s, i + 2, f)
    ensures OneOrTwoDigits(s, i, f) == Some(i + 2) && DigitsValue(s[i..i + 2]) == n
  {
    Pad2Value(n);
    assert IsDigit(s[i]) && IsDigit(s[i + 1]);
  }

  lemma SubSlice(s: string, p: nat, n: nat, a: nat, b: nat)
    requires p + n <= |s| && a <= b <= n
    ensures s[p..p + n][a..b] == s[p + a..p + b]
  {
    var t := s[p..p + n];
    assert forall i :: a <= i < b ==> t[i] == s[p + i];
  }

  /** Where each field of a stamp sits. */
  lemma StampLayout(dt: DateTime, sep1: char, sep2: char)
    requires Printable(dt)
    ensures var st := Stamp(dt, sep1, sep2);
      st[0..4] == Pad4(dt.year) && st[4] == sep1 && st[5..7] == Pad2(dt.month) && st[7] == sep2
      && st[8..10] == Pad2(dt.day) && st[10] == ' ' && st[11..13] == Pad2(dt.hour) && st[13] == ':'
      && st[14..16] == Pad2(dt.minute) && st[16] == ':' && st[17..19] == Pad2(dt.second)
  {
  }

  lemma StampDate(s: string, p: nat, dt: DateTime, sep1: char, sep2: char, f: Follow)
    requires Printable(dt) && IsDateSep(sep1) && IsDateSep(sep2) && (f == Space || f == AnyChar)
    requires p + 19 <= |s| && s[p..p + 19] == Stamp(dt, sep1, sep2)
    ensures DateAt(s, p, f) == Some((dt.year, dt.month, dt.day, p + 10))
  {
    var st := Stamp(dt, sep1, sep2);
    StampLayout(dt, sep1, sep2);
    Pad4Value(dt.year);
    SubSlice(s, p, 19, 0, 4);
    assert s[p..p + 4] == st[0..4];
    assert s[p + 4] == st[4];
    SubSlice(s, p, 19, 5, 7);
    assert s[p + 5..p + 7] == st[5..7];
    assert s[p + 7] == st[7];
    SubSlice(s, p, 19, 8, 10);
    assert s[p + 8..p + 10] == st[8..10];
    assert s[p + 10] == st[10];
    PairAt(s, p + 5, dt.month, DateSep);
    PairAt(s, p + 8, dt.day, f);
  }

  lemma StampTime(s: string, p: nat, dt: DateTime, sep1: char, sep2: char, withSeconds: bool)
    requires Printable(dt)
    requires p + 19 <= |s| && s[p..p + 19] == Stamp(dt, sep1, sep2)
    requires withSeconds ==> p + 19 == |s| || !IsDigit(s[p + 19])
    ensures TimeAt(s, p + 10, withSeconds) == Some((dt.hour, dt.minute, if withSeconds then dt.second else 0))
  {
    var st := Stamp(dt, sep1, sep2);
    StampLayout(dt, sep1, sep2);
    assert s[p + 10] == st[10];
    SubSlice(s, p, 19, 11, 13);
    assert s[p + 11..p + 13] == st[11..13];
    assert s[p + 13] == st[13];
    SubSlice(s, p, 19, 14, 16);
    assert s[p + 14..p + 16] == st[14..16];
    assert s[p + 16] == st[16];
    SubSlice(s, p, 19, 17, 19);
    assert s[p + 17..p + 19] == st[17..19];
    Pad2Value(dt.hour);
    assert !IsSpace(s[p + 11]);
    assert SpaceRunEnd(s, p + 11) == p + 11;
    assert SpaceRunEnd(s, p + 10) == p + 11;
    PairAt(s, p + 11, dt.hour, Colon);
    if withSeconds {
      PairAt(s, p + 14, dt.minute, Colon);
      PairAt(s, p + 17, dt.second, AnyChar);
      assert OneOrTwoDigits(s, p + 17, AnyChar) == Some(p + 19);
    } else {
      PairAt(s, p + 14, dt.minute, AnyChar);
    }
  }

  /** What each pattern reads from a stamp at `p`. */
  lemma MatchesStamp(s: string, p: nat, dt: DateTime, sep1: char, sep2: char)
    requires Printable(dt) && IsDateSep(sep1) && IsDateSep(sep2)
    requires p + 19 <= |s| && s[p..p + 19] == Stamp(dt, sep1, sep2)
    requires p + 19 == |s| || !IsDigit(s[p + 19])
    ensures MatchAt(s, p, Full) == Some(dt)
    ensures MatchAt(s, p, NoSeconds) == Some(dt.(second := 0))
    ensures MatchAt(s, p, DateOnly) == Some(dt.(hour := 0, minute := 0, second := 0))
  {
    StampDate(s, p, dt, sep1, sep2, Space);
    StampDate(s, p, dt, sep1, sep2, AnyChar);
    StampTime(s, p, dt, sep1, sep2, true);
    StampTime(s, p, dt, sep1, sep2, false);
  }

  /** No match starts in text without four consecutive digits that does not end in a digit. */
  lemma NoMatchInPrefix(prefix: string, rest: string, q: nat, pat: Pattern)
    requires NoFourDigits(prefix) && (|prefix| == 0 || !IsDigit(prefix[|prefix| - 1]))
    requires q < |prefix|
    ensures MatchAt(prefix + rest, q, pat).None?
  {
    var s := prefix + rest;
    var p := |prefix|;
    if q + 4 <= |s| {
      if q + 4 <= p {
        assert s[q..q + 4] == prefix[q..q + 4];
        assert !FourDigitsAt(prefix, q);
      } else {
        assert s[p - 1] == prefix[p - 1];
        assert !IsDigit(s[q..q + 4][p - 1 - q]);
      }
    }
  }

  lemma {:induction false} FindsStamp(prefix: string, s: string, dt: DateTime, sep1: char, sep2: char, pat: Pattern)
    requires Printable(dt) && IsDateSep(sep1) && IsDateSep(sep2)
    requires NoFourDigits(prefix) && (|prefix| == 0 || !IsDigit(prefix[|prefix| - 1]))
    requires |prefix| + 19 <= |s| && s[..|prefix|] == prefix && s[|prefix|..|prefix| + 19] == Stamp(dt, sep1, sep2)
    requires |prefix| + 19 == |s| || !IsDigit(s[|prefix| + 19])
    ensures MatchAt(s, |prefix|, pat).Some?
    ensures SearchFrom(s, pat, 0) == Some((|prefix|, MatchAt(s, |prefix|, pat).value))
  {
    var p := |prefix|;
    MatchesStamp(s, p, dt, sep1, sep2);
    assert s == prefix + s[p..];
    forall q | 0 <= q < p
      ensures MatchAt(s, q, pat).None?
    {
      NoMatchInPrefix(prefix, s[p..], q, pat);
    }
    SearchSkips(s, pat, 0, p);
  }

  /**
   * A stamp in free text is read as its most precise acceptable reading,
   * whatever surrounds it, as long as the text before it holds no four
   * consecutive digits and does not end in a digit, and the text after it
   * does not start with a digit: an impossible time or a year outside the
   * window hands over to the less specific patterns.
   */
  lemma {:induction false} ReadsStampInText(prefix: string, dt: DateTime, sep1: char, sep2: char, suffix: string)
    requires Printable(dt)
    requires IsDateSep(sep1) && IsDateSep(sep2)
    requires NoFourDigits(prefix) && (|prefix| == 0 || !IsDigit(prefix[|prefix| - 1]))
    requires |suffix| == 0 || !IsDigit(suffix[0])
    ensures ParseDatetimeFromText(prefix + Stamp(dt, sep1, sep2) + suffix) == StampReading(dt)
  {
    var s := prefix + Stamp(dt, sep1, sep2) + suffix;
    var p := |prefix|;
    assert s[..p] == prefix;
    assert s[p..p + 19] == Stamp(dt, sep1, sep2);
    if p + 19 < |s| {
      assert s[p + 19] == suffix[0];
    }
    MatchesStamp(s, p, dt, sep1, sep2);
    FindsStamp(prefix, s, dt, sep1, sep2, Full);
    FindsStamp(prefix, s, dt, sep1, sep2, NoSeconds);
    FindsStamp(prefix, s, dt, sep1, sep2, DateOnly);
    ReadingOfLeftmostStamp(s, p, dt);
  }

  /** When all three leftmost matches are the stamp's, the text reads as the stamp does. */
  lemma ReadingOfLeftmostStamp(s: string, p: nat, dt: DateTime)
    requires SearchFrom(s, Full, 0) == Some((p, dt))
    requires SearchFrom(s, NoSeconds, 0) == Some((p, dt.(second := 0)))
    requires SearchFrom(s, DateOnly, 0) == Some((p, dt.(hour := 0, minute := 0, second := 0)))
    ensures ParseDatetimeFromText(s) == StampReading(dt)
  {
  }

  /** The round trip: a valid stamp in the window is read back exactly. */
  lemma ReadsValidStamp(prefix: string, dt: DateTime, sep1: char, sep2: char, suffix: string)
    requires InWindow(dt)
    requires IsDateSep(sep1) && IsDateSep(sep2)
    requires NoFourDigits(prefix) && (|prefix| == 0 || !IsDigit(prefix[|prefix| - 1]))
    requires |suffix| == 0 || !IsDigit(suffix[0])
    ensures ParseDatetimeFromText(prefix + Stamp(dt, sep1, sep2) + suffix) == Some(dt)
  {
    ReadsStampInText(prefix, dt, sep1, sep2, suffix);
  }

  /** A stamp read inside other recognised text. */
  lemma ReadsCameraOverlay()
    ensures ParseDatetimeFromText("Cam 12 2021-07-04 18:22:01 ok") == Some(DateTime(2021, 7, 4, 18, 22, 1))
  {
    var dt := DateTime(2021, 7, 4, 18, 22, 1);
    OverlayText();
    OverlayPrefix();
    ReadsValidStamp("Cam 12 ", dt, '-', '-', " ok");
  }

  lemma OverlayText()
    ensures "Cam 12 " + Stamp(DateTime(2021, 7, 4, 18, 22, 1), '-', '-') + " ok" == "Cam 12 2021-07-04 18:22:01 ok"
  {
    OverlayStamp();
  }

  lemma OverlayStamp()
    ensures Stamp(DateTime(2021, 7, 4, 18, 22, 1), '-', '-') == "2021-07-04 18:22:01"
  {
    assert Pad4(2021) == "2021" && Pad2(7) == "07" && Pad2(4) == "04";
    assert Pad2(18) == "18" && Pad2(22) == "22" && Pad2(1) == "01";
  }

  lemma OverlayPrefix()
    ensures NoFourDigits("Cam 12 ")
  {
    var prefix := "Cam 12 ";
    forall i | 0 <= i < |prefix|
      ensures !FourDigitsAt(prefix, i)
    {
      if i + 4 <= |prefix| {
        assert prefix[i..i + 4][3 - i] == prefix[3] == ' ';
      }
    }
  }

  /**
   * Groups of one digit match too: "2020/3/15 15:38:10", the detector's own
   * example, reads as 2020-03-15 15:38:10.
   */
  lemma ReadsUnpaddedExample()
    ensures ParseDatetimeFromText("2020/3/15 15:38:10") == Some(DateTime(2020, 3, 15, 15, 38, 10))
  {
    var s := "2020/3/15 15:38:10";
    UnpaddedExampleDate(s);
    UnpaddedExampleTime(s);
    UnpaddedExampleInWindow();
    ReadsFullMatchAtStart(s, 2020, 3, 15, 9, 15, 38, 10);
  }

  lemma UnpaddedExampleInWindow()
    ensures InWindow(DateTime(2020, 3, 15, 15, 38, 10))
  {
  }

  /** A text where the full pattern matches at the very start, in the window, reads as that match. */
  lemma ReadsFullMatchAtStart(s: string, year: int, month: int, day: int, dEnd: nat,
                              hour: int, minute: int, second: int)
    requires DateAt(s, 0, Space) == Some((year, month, day, dEnd))
    requires TimeAt(s, dEnd, true) == Some((hour, minute, second))
    requires InWindow(DateTime(year, month, day, hour, minute, second))
    ensures ParseDatetimeFromText(s) == Some(DateTime(year, month, day, hour, minute, second))
  {
    assert MatchAt(s, 0, Full) == Some(DateTime(year, month, day, hour, minute, second));
    assert Matches(s, Full)[0].Some?;
  }

  lemma UnpaddedExampleDate(s: string)
    requires s == "2020/3/15 15:38:10"
    ensures DateAt(s, 0, Space) == Some((2020, 3, 15, 9))
  {
    assert s[0..4] == [DigitChar(2), DigitChar(0), DigitChar(2), DigitChar(0)];
    FourDigitsValue(2, 0, 2, 0);
    assert IsDateSep(s[4]) && !IsDigit(s[6]) && IsDateSep(s[6]) && IsSpace(s[9]);
    assert OneOrTwoDigits(s, 5, DateSep) == Some(6);
    OneDigitValue(s[5..6]);
    assert OneOrTwoDigits(s, 7, Space) == Some(9);
    assert s[7..9] == Pad2(15);
    Pad2Value(15);
  }

  lemma UnpaddedExampleTime(s: string)
    requires s == "2020/3/15 15:38:10"
    ensures TimeAt(s, 9, true) == Some((15, 38, 10))
  {
    assert IsSpace(s[9]) && !IsSpace(s[10]);
    assert SpaceRunEnd(s, 10) == 10;
    assert OneOrTwoDigits(s, 10, Colon) == Some(12);
    assert OneOrTwoDigits(s, 13, Colon) == Some(15);
    assert OneOrTwoDigits(s, 16, AnyChar) == Some(18);
    assert s[10..12] == Pad2(15) && s[13..15] == Pad2(38) && s[16..18] == Pad2(10);
    Pad2Value(15);
    Pad2Value(38);
    Pad2Value(10);
  }

  /** An impossible hour falls back to the date alone, at midnight. */
  lemma ReadsDateOfImpossibleTime()
    ensures ParseDatetimeFromText("2021-07-04 25:00:00") == Some(DateTime(2021, 7, 4, 0, 0, 0))
  {
    var dt := DateTime(2021, 7, 4, 25, 0, 0);
    assert Pad4(2021) == "2021" && Pad2(7) == "07" && Pad2(4) == "04";
    assert Pad2(25) == "25" && Pad2(0) == "00";
    assert "" + Stamp(dt, '-', '-') + "" == "2021-07-04 25:00:00";
    ReadsStampInText("", dt, '-', '-', "");
    assert !InWindow(dt) && !InWindow(dt.(second := 0));
    assert InWindow(DateTime(2021, 7, 4, 0, 0, 0));
  }

  /** A year outside 1990..2100 is not a reading at all. */
  lemma RejectsYearOutsideWindow()
    ensures ParseDatetimeFromText("1899-05-01 10:00:00").None?
  {
    var dt := DateTime(1899, 5, 1, 10, 0, 0);
    assert Pad4(1899) == "1899" && Pad2(5) == "05" && Pad2(1) == "01";
    assert Pad2(10) == "10" && Pad2(0) == "00";
    assert "" + Stamp(dt, '-', '-') + "" == "1899-05-01 10:00:00";
    ReadsStampInText("", dt, '-', '-', "");
  }
}
