/**
 * The photo processor: for every media file of a directory it settles a
 * capture time (reference CSV, then EXIF, then OCR, then the previous
 * record), expands the file's tags into event records, keeps those with a
 * known species, and collects warnings; then, over all records, it sets
 * each camera's observation period and flags the independent photos of
 * each (camera, species) group.
 *
 * The EXIF reader, the OCR engine and the reference CSV reach the
 * processor as inputs: a tag dictionary, an OCR reading and a
 * filename -> datetime map per directory.
 */
module Processor {
  import opened Wrappers
  import opened Strings
  import opened DateTimes
  import opened ExifReader
  import opened OcrDetector
  import opened Grouping
  import opened Independence

  /**
   * One event record. The "Date" and "Time" keys of the source's record
   * always hold the same value as `dateTimeOriginal` and are not repeated.
   */
  datatype Record = Record(
    sourceFile: string, dateTimeOriginal: DateTime,
    site: Option<string>, plotId: Option<string>, cameraId: Option<string>,
    group: Option<string>, species: Option<string>, number: int, note: string,
    independentPhoto: int, periodStart: Option<DateTime>, periodEnd: Option<DateTime>)

  // ---------------------------------------------------------------------
  // _parse_datetime_string

  /**
   * `^(\d{4}):(\d{1,2}):(\d{1,2})` can match with its second colon at `j`:
   * four digits and a colon, one or two digits, a colon at `j`, a digit.
   */
  predicate ColonDateAt(s: string, j: int)
  {
    5 < j <= 7 && j + 1 < |s| && AllDigits(s[..4]) && s[4] == ':'
    && AllDigits(s[5..j]) && s[j] == ':' && IsDigit(s[j + 1])
  }

  /**
   * Where `^(\d{4}):(\d{1,2}):(\d{1,2})` matches, the position of its second
   * colon (the first is at 4); one-digit months and days match too.
   */
  function ColonDate(s: string): (r: Option<nat>)
    ensures r.Some? ==> 5 < r.value < |s| && s[4] == ':' && s[r.value] == ':'
    ensures r.Some? ==> ColonDateAt(s, r.value)
    ensures r.None? <==> forall j :: !ColonDateAt(s, j)
  {
    if |s| < 5 || !AllDigits(s[..4]) || s[4] != ':' then None
    else
      match OneOrTwoDigits(s, 5, Colon)
      case None => None
      case Some(mEnd) =>
        if OneOrTwoDigits(s, mEnd + 1, AnyChar).Some? then
          var dEnd := OneOrTwoDigits(s, mEnd + 1, AnyChar).value;
          assert s[mEnd + 1..dEnd][0] == s[mEnd + 1];
          assert 5 < mEnd <= 7 && mEnd + 1 < |s|;
          assert AllDigits(s[5..mEnd]) && s[mEnd] == ':';
          assert ColonDateAt(s, mEnd);
          Some(mEnd)
        else
          assert mEnd + 1 < |s| ==> !AllDigits(s[mEnd + 1..mEnd + 2]);
          assert mEnd == 7 ==> IsDigit(s[6]) by { assert s[5..7][1] == s[6]; }
          assert !ColonDateAt(s, 7) || mEnd == 7 by {
            if ColonDateAt(s, 7) { assert s[5..7][1] == s[6]; }
          }
          None
  }

  /** The substitution of `\1/\2/\3` for that match: both colons become slashes. */
  function RewriteColonDate(s: string): (r: string)
    ensures |r| == |s|
    ensures forall k :: 0 <= k < |s| ==> r[k] == s[k] || (s[k] == ':' && r[k] == '/')
    ensures ColonDate(s).None? ==> r == s
    ensures ColonDate(s).Some? ==> r[4] == '/' && r[ColonDate(s).value] == '/'
  {
    match ColonDate(s)
    case None => s
    case Some(j) => s[..4] + "/" + s[5..j] + "/" + s[j + 1..]
  }

  /**
   * `_parse_datetime_string`: strip, turn a leading `YYYY:M:D` into
   * `YYYY/M/D`, then the first of the four formats that reads the whole
   * string; `None` when none does.
   */
  function ParseDatetimeString(text: string): (r: Option<DateTime>)
    ensures r.Some? ==> Valid(r.value)
    ensures r.Some? ==> (exists sep, withSeconds :: (sep == '/' || sep == '-')
                           && Strptime(RewriteColonDate(Strip(text)), sep, withSeconds) == r)
    ensures forall sep, withSeconds :: (sep == '/' || sep == '-')
              && Strptime(RewriteColonDate(Strip(text)), sep, withSeconds).Some?
              ==> r == Strptime(RewriteColonDate(Strip(text)), sep, withSeconds)
    ensures r.None? <==> (forall sep, withSeconds :: (sep == '/' || sep == '-')
                            ==> Strptime(RewriteColonDate(Strip(text)), sep, withSeconds).None?)
  {
    FirstFormat(RewriteColonDate(Strip(text)))
  }

  /**
   * The four formats in order; the first that reads all of `s` wins. At most
   * one of them can read a given string, so the order does not decide
   * anything: the result is `None` exactly when none of them reads `s`, and
   * otherwise what the one that reads it returns.
   */
  function FirstFormat(s: string): (r: Option<DateTime>)
    ensures r.Some? ==> Valid(r.value)
    ensures r.Some? ==> (exists sep, withSeconds :: (sep == '/' || sep == '-') && Strptime(s, sep, withSeconds) == r)
    ensures forall sep, withSeconds :: (sep == '/' || sep == '-') && Strptime(s, sep, withSeconds).Some?
              ==> r == Strptime(s, sep, withSeconds)
    ensures r.None? <==> forall sep, withSeconds :: (sep == '/' || sep == '-') ==> Strptime(s, sep, withSeconds).None?
  {
    assert forall sep, withSeconds, sep2, withSeconds2 ::
      Strptime(s, sep, withSeconds).Some? && Strptime(s, sep2, withSeconds2).Some? ==> sep == sep2 && withSeconds == withSeconds2
    by {
      forall sep, withSeconds, sep2, withSeconds2 | Strptime(s, sep, withSeconds).Some? && Strptime(s, sep2, withSeconds2).Some?
        ensures sep == sep2 && withSeconds == withSeconds2
      {
        StrptimeFormatsExclusive(s, sep, withSeconds, sep2, withSeconds2);
      }
    }
    var slashFull := Strptime(s, '/', true);
    if slashFull.Some? then slashFull
    else
      var slashShort := Strptime(s, '/', false);
      if slashShort.Some? then slashShort
      else
        var dashFull := Strptime(s, '-', true);
        if dashFull.Some? then dashFull
        else Strptime(s, '-', false)
  }

  lemma FormatHasNoOuterSpace(dt: DateTime, sep: char, withSeconds: bool)
    requires Valid(dt)
    ensures var s := Format(dt, sep, withSeconds); !IsSpace(s[0]) && !IsSpace(s[|s| - 1])
  {
    Pad4Value(dt.year);
    Pad2Value(dt.minute);
    Pad2Value(dt.second);
    var s := Format(dt, sep, withSeconds);
    assert s[0] == Pad4(dt.year)[0];
    if withSeconds {
      assert s[18] == Pad2(dt.second)[1];
    } else {
      assert s[15] == Pad2(dt.minute)[1];
    }
  }

  lemma NoColonDate(s: string)
    requires |s| >= 5 && s[4] != ':'
    ensures RewriteColonDate(s) == s
  {
  }

  /**
   * Every one of the four formats reads back what it writes (on a whole
   * minute for the formats without seconds).
   */
  lemma {:induction false} ParsesFormatted(dt: DateTime, sep: char, withSeconds: bool)
    requires Valid(dt) && (sep == '/' || sep == '-')
    requires !withSeconds ==> dt.second == 0
    ensures ParseDatetimeString(Format(dt, sep, withSeconds)) == Some(dt)
  {
    var s := Format(dt, sep, withSeconds);
    FormatHasNoOuterSpace(dt, sep, withSeconds);
    StripUnchanged(s);
    NoColonDate(s);
    StrptimeFormat(dt, sep, withSeconds);
    StrptimeOtherWidth(dt, sep, !withSeconds);
  }

  /** The EXIF-style `YYYY:MM:DD HH:MM:SS` is read through the colon rewrite. */
  lemma {:induction false} ParsesColonDate(dt: DateTime)
    requires Valid(dt)
    ensures ParseDatetimeString(Format(dt, ':', true)) == Some(dt)
  {
    var s := Format(dt, ':', true);
    FormatHasNoOuterSpace(dt, ':', true);
    StripUnchanged(s);
    ColonFormRewritten(dt);
    ParsesFormatted(dt, '/', true);
    FormatHasNoOuterSpace(dt, '/', true);
    StripUnchanged(Format(dt, '/', true));
  }

  /** The colon rewrite turns the colon form into the slash form. */
  lemma ColonFormRewritten(dt: DateTime)
    requires Valid(dt)
    ensures RewriteColonDate(Format(dt, ':', true)) == Format(dt, '/', true)
  {
    var s := Format(dt, ':', true);
    var t := Format(dt, '/', true);
    FormatLayout(dt, ':', true);
    FormatLayout(dt, '/', true);
    Pad4Value(dt.year);
    Pad2Value(dt.month);
    Pad2Value(dt.day);
    assert IsDigit(s[5]) && IsDigit(s[6]) && IsDigit(s[8]) && IsDigit(s[9]);
    assert OneOrTwoDigits(s, 5, Colon) == Some(7);
    assert ColonDate(s) == Some(7);
    FormatSeparatorsOnly(dt, ':', '/', true);
    var r := RewriteColonDate(s);
    assert r == s[..4] + "/" + s[5..7] + "/" + s[8..];
    forall k | 0 <= k < |t|
      ensures r[k] == t[k]
    {
    }
  }

  /** Formats that differ in the date separator differ only at the two separators. */
  lemma FormatSeparatorsOnly(dt: DateTime, a: char, b: char, withSeconds: bool)
    requires Valid(dt)
    ensures forall k :: 0 <= k < |Format(dt, a, withSeconds)| && k != 4 && k != 7
                        ==> Format(dt, a, withSeconds)[k] == Format(dt, b, withSeconds)[k]
  {
  }

  /** The source's own example of the colon form. */
  lemma ParsesExifStyleExample()
    ensures ParseDatetimeString("2020:06:22 09:40:12") == Some(DateTime(2020, 6, 22, 9, 40, 12))
  {
    var dt := DateTime(2020, 6, 22, 9, 40, 12);
    assert Format(dt, ':', true) == "2020:06:22 09:40:12";
    ParsesColonDate(dt);
  }

  /** The source's own example of a datetime written without zero padding. */
  lemma ParsesUnpaddedExample()
    ensures ParseDatetimeString("2020/6/22 09:40:5") == Some(DateTime(2020, 6, 22, 9, 40, 5))
  {
    var s := "2020/6/22 09:40:5";
    UnpaddedExampleUnchanged(s);
    StrptimeUnpaddedExample();
    ParsesWhatStrptimeReads(s, '/', true);
  }

  lemma UnpaddedExampleUnchanged(s: string)
    requires s == "2020/6/22 09:40:5"
    ensures RewriteColonDate(Strip(s)) == s
  {
    assert !IsSpace(s[0]) && !IsSpace(s[|s| - 1]);
    StripUnchanged(s);
    NoColonDate(s);
  }

  /**
   * A one-digit month in the EXIF colon form: "2020:6:22 09:40:12" is
   * rewritten to "2020/6/22 09:40:12" and read as 2020-06-22 09:40:12.
   */
  lemma ParsesUnpaddedColonExample()
    ensures ParseDatetimeString("2020:6:22 09:40:12") == Some(DateTime(2020, 6, 22, 9, 40, 12))
  {
    var s := "2020:6:22 09:40:12";
    UnpaddedColonRewritten(s);
    StrptimeRewrittenColonExample();
    ParsesWhatStrptimeReads(s, '/', true);
  }

  lemma UnpaddedColonRewritten(s: string)
    requires s == "2020:6:22 09:40:12"
    ensures RewriteColonDate(Strip(s)) == "2020/6/22 09:40:12"
  {
    UnpaddedColonStripped(s);
    UnpaddedColonDate(s);
    assert s[..4] + "/" + s[5..6] + "/" + s[7..] == "2020/6/22 09:40:12";
  }

  lemma UnpaddedColonStripped(s: string)
    requires s == "2020:6:22 09:40:12"
    ensures Strip(s) == s
  {
    assert !IsSpace(s[0]) && !IsSpace(s[|s| - 1]);
    StripUnchanged(s);
  }

  lemma UnpaddedColonDate(s: string)
    requires s == "2020:6:22 09:40:12"
    ensures ColonDate(s) == Some(6)
  {
    assert AllDigits(s[..4]) && AllDigits(s[5..6]);
    assert ColonDateAt(s, 6) && !ColonDateAt(s, 7);
  }

  /** Whatever one of the four formats reads is what the parser returns. */
  lemma ParsesWhatStrptimeReads(text: string, sep: char, withSeconds: bool)
    requires sep == '/' || sep == '-'
    requires Strptime(RewriteColonDate(Strip(text)), sep, withSeconds).Some?
    ensures ParseDatetimeString(text) == Strptime(RewriteColonDate(Strip(text)), sep, withSeconds)
  {
  }

  /** Whitespace around the string does not matter. */
  lemma ParseIgnoresSurroundingSpace(text: string)
    ensures ParseDatetimeString(text) == ParseDatetimeString(Strip(text))
  {
    StripUnchanged(Strip(text));
  }

  // ---------------------------------------------------------------------
  // _determine_datetime

  /** The reference-CSV stage: the file's entry, when it parses. */
  function CsvTime(filename: string, csv: map<string, string>): (r: Option<DateTime>)
    ensures r.Some? ==> filename in csv && Valid(r.value)
    ensures filename in csv ==> r == ParseDatetimeString(csv[filename])
  {
    if filename in csv then ParseDatetimeString(csv[filename]) else None
  }

  /**
   * `_determine_datetime`: the first stage that yields a time among the
   * reference CSV, the EXIF DateTimeOriginal, the OCR reading and the last
   * record emitted so far.
   */
  function DetermineDatetime(filename: string, exif: ExifData, csv: map<string, string>,
                             ocr: OcrReading, previous: seq<Record>): (r: Option<DateTime>)
    ensures r.None? <==> CsvTime(filename, csv).None? && exif.dateTimeOriginal.None?
                          && DetectDatetimeFromImage(ocr).None? && previous == []
    ensures CsvTime(filename, csv).Some? ==> r == CsvTime(filename, csv)
    ensures CsvTime(filename, csv).None? && exif.dateTimeOriginal.Some? ==> r == exif.dateTimeOriginal
    ensures (CsvTime(filename, csv).None? && exif.dateTimeOriginal.None? && DetectDatetimeFromImage(ocr).Some?)
            ==> r == DetectDatetimeFromImage(ocr)
    ensures (CsvTime(filename, csv).None? && exif.dateTimeOriginal.None? && DetectDatetimeFromImage(ocr).None?
             && previous != []) ==> r == Some(previous[|previous| - 1].dateTimeOriginal)
  {
    var fromCsv := CsvTime(filename, csv);
    if fromCsv.Some? then fromCsv
    else if exif.dateTimeOriginal.Some? then exif.dateTimeOriginal
    else
      var fromOcr := DetectDatetimeFromImage(ocr);
      if fromOcr.Some? then fromOcr
      else if |previous| > 0 then Some(previous[|previous| - 1].dateTimeOriginal)
      else None
  }

  /** The OCR reading is consulted only when neither the CSV nor the EXIF data gave a time. */
  lemma OcrOnlyAfterCsvAndExif(filename: string, exif: ExifData, csv: map<string, string>,
                               ocr1: OcrReading, ocr2: OcrReading, previous: seq<Record>)
    requires CsvTime(filename, csv).Some? || exif.dateTimeOriginal.Some?
    ensures DetermineDatetime(filename, exif, csv, ocr1, previous) == DetermineDatetime(filename, exif, csv, ocr2, previous)
  {
  }

  /** The previous record is consulted only when all three sources failed. */
  lemma PreviousOnlyAsLastResort(filename: string, exif: ExifData, csv: map<string, string>,
                                 ocr: OcrReading, previous1: seq<Record>, previous2: seq<Record>)
    requires DetermineDatetime(filename, exif, csv, ocr, []).Some?
    ensures DetermineDatetime(filename, exif, csv, ocr, previous1) == DetermineDatetime(filename, exif, csv, ocr, previous2)
  {
  }

  /** A CSV entry that does not parse is as good as no entry: the cascade moves on. */
  lemma UnparsableCsvFallsThrough(filename: string, exif: ExifData, csv: map<string, string>,
                                  ocr: OcrReading, previous: seq<Record>)
    requires filename in csv && ParseDatetimeString(csv[filename]).None?
    ensures DetermineDatetime(filename, exif, csv, ocr, previous) == DetermineDatetime(filename, exif, map[], ocr, previous)
  {
  }

  /** The time a file's records carry: the cascade's answer, or 2000-01-01 00:00:00. */
  function FileTime(filename: string, exif: ExifData, csv: map<string, string>,
                    ocr: OcrReading, previous: seq<Record>): (dt: DateTime)
    ensures DetermineDatetime(filename, exif, csv, ocr, previous).None? ==> dt == Sentinel
  {
    DetermineDatetime(filename, exif, csv, ocr, previous).GetOr(Sentinel)
  }

  predicate ValidTimes(records: seq<Record>)
  {
    forall k :: 0 <= k < |records| ==> Valid(records[k].dateTimeOriginal)
  }

  /** Every stage yields a valid time when the EXIF time and the earlier records are valid. */
  lemma FileTimeValid(filename: string, exif: ExifData, csv: map<string, string>,
                      ocr: OcrReading, previous: seq<Record>)
    requires exif.dateTimeOriginal.Some? ==> Valid(exif.dateTimeOriginal.value)
    requires ValidTimes(previous)
    ensures Valid(FileTime(filename, exif, csv, ocr, previous))
  {
    SentinelValid();
  }

  // ---------------------------------------------------------------------
  // Records of one file

  /** Python truth of an optional string: `None` and "" are false. */
  predicate IsSet(v: Option<string>)
  {
    v.Some? && v.value != ""
  }

  /** The species filter: present, non-empty, and not "unknown" in any letter case. */
  predicate KeepsSpecies(species: Option<string>)
  {
    IsSet(species) && Lower(species.value) != "unknown"
  }

  /** The record of one entry of `multiple_animals`. */
  function AnimalRecord(filename: string, dt: DateTime, exif: ExifData, animal: Animal): (r: Record)
  {
    Record(filename, dt, exif.site, exif.plotId, exif.cameraId,
           Some(animal.group.GetOr("")), Some(animal.species.GetOr("")), animal.number.GetOr(1),
           "", 0, None, None)
  }

  /** The record of a file with a single animal tag. */
  function SingleRecord(filename: string, dt: DateTime, exif: ExifData): (r: Record)
  {
    Record(filename, dt, exif.site, exif.plotId, exif.cameraId,
           exif.group, exif.species, exif.number, "", 0, None, None)
  }

  /** What a record of a file shares with every other record of it. */
  predicate FromFile(r: Record, filename: string, dt: DateTime, exif: ExifData)
  {
    r.sourceFile == filename && r.dateTimeOriginal == dt
    && r.site == exif.site && r.plotId == exif.plotId && r.cameraId == exif.cameraId
    && r.note == "" && r.independentPhoto == 0 && r.periodStart.None? && r.periodEnd.None?
  }

  /** The records of the animals whose species passes the filter, in list order. */
  function KeptAnimalRecords(filename: string, dt: DateTime, exif: ExifData, animals: seq<Animal>): (rs: seq<Record>)
    ensures |rs| <= |animals|
    ensures forall k :: 0 <= k < |rs| ==> FromFile(rs[k], filename, dt, exif) && KeepsSpecies(rs[k].species)
  {
    if |animals| == 0 then []
    else
      var rs := KeptAnimalRecords(filename, dt, exif, animals[..|animals| - 1]);
      var r := AnimalRecord(filename, dt, exif, animals[|animals| - 1]);
      if KeepsSpecies(r.species) then rs + [r] else rs
  }

  /**
   * Exactly the animals with a kept species give a record, with the
   * defaults Group "" and Number 1 for missing entries.
   */
  lemma {:induction false} KeptAnimalRecordsExact(filename: string, dt: DateTime, exif: ExifData, animals: seq<Animal>, r: Record)
    ensures r in KeptAnimalRecords(filename, dt, exif, animals) <==>
      exists k :: 0 <= k < |animals| && r == AnimalRecord(filename, dt, exif, animals[k]) && KeepsSpecies(r.species)
  {
    if |animals| > 0 {
      var init := animals[..|animals| - 1];
      KeptAnimalRecordsExact(filename, dt, exif, init, r);
      assert forall k :: 0 <= k < |init| ==> init[k] == animals[k];
    }
  }

  /**
   * `idx` lists, in increasing order, the positions of the entries whose
   * records make up `rs`, one record per position, and it lists every
   * entry with a kept species.
   */
  predicate RecordsOfKeptEntries(filename: string, dt: DateTime, exif: ExifData, animals: seq<Animal>,
                                 rs: seq<Record>, idx: seq<nat>)
  {
    && |idx| == |rs|
    && (forall t :: 0 <= t < |idx| ==> idx[t] < |animals| && rs[t] == AnimalRecord(filename, dt, exif, animals[idx[t]]))
    && (forall t, u :: 0 <= t < u < |idx| ==> idx[t] < idx[u])
    && (forall k :: 0 <= k < |animals| && KeepsSpecies(AnimalRecord(filename, dt, exif, animals[k]).species) ==> k in idx)
  }

  /**
   * One record per kept entry, in the order of the entries: two identical
   * entries give two records.
   */
  lemma {:induction false} KeptAnimalRecordsInOrder(filename: string, dt: DateTime, exif: ExifData, animals: seq<Animal>)
    ensures exists idx :: RecordsOfKeptEntries(filename, dt, exif, animals, KeptAnimalRecords(filename, dt, exif, animals), idx)
  {
    if |animals| == 0 {
      var none: seq<nat> := [];
      assert RecordsOfKeptEntries(filename, dt, exif, animals, KeptAnimalRecords(filename, dt, exif, animals), none);
    } else {
      var init := animals[..|animals| - 1];
      KeptAnimalRecordsInOrder(filename, dt, exif, init);
      var idx0: seq<nat> :| RecordsOfKeptEntries(filename, dt, exif, init, KeptAnimalRecords(filename, dt, exif, init), idx0);
      KeptEntriesStep(filename, dt, exif, animals, idx0);
    }
  }

  /** The index list of the entries before the last extends to all entries. */
  lemma KeptEntriesStep(filename: string, dt: DateTime, exif: ExifData, animals: seq<Animal>, idx0: seq<nat>)
    requires |animals| > 0
    requires var init := animals[..|animals| - 1];
      RecordsOfKeptEntries(filename, dt, exif, init, KeptAnimalRecords(filename, dt, exif, init), idx0)
    ensures exists idx :: RecordsOfKeptEntries(filename, dt, exif, animals, KeptAnimalRecords(filename, dt, exif, animals), idx)
  {
    var n: nat := |animals| - 1;
    var init := animals[..n];
    var rs0 := KeptAnimalRecords(filename, dt, exif, init);
    var r := AnimalRecord(filename, dt, exif, animals[n]);
    if KeepsSpecies(r.species) {
      assert KeptAnimalRecords(filename, dt, exif, animals) == rs0 + [r];
      KeptEntryAppended(filename, dt, exif, animals, rs0, idx0);
    } else {
      assert KeptAnimalRecords(filename, dt, exif, animals) == rs0;
      DroppedEntrySkipped(filename, dt, exif, animals, rs0, idx0);
    }
  }

  lemma KeptEntryAppended(filename: string, dt: DateTime, exif: ExifData, animals: seq<Animal>, rs0: seq<Record>, idx0: seq<nat>)
    requires |animals| > 0
    requires RecordsOfKeptEntries(filename, dt, exif, animals[..|animals| - 1], rs0, idx0)
    ensures RecordsOfKeptEntries(filename, dt, exif, animals,
              rs0 + [AnimalRecord(filename, dt, exif, animals[|animals| - 1])], idx0 + [|animals| - 1])
  {
    var n := |animals| - 1;
    var init := animals[..n];
    var rs := rs0 + [AnimalRecord(filename, dt, exif, animals[n])];
    var idx: seq<nat> := idx0 + [n];
    forall t | 0 <= t < |idx|
      ensures idx[t] < |animals| && rs[t] == AnimalRecord(filename, dt, exif, animals[idx[t]])
    {
      if t < |idx0| {
        assert init[idx0[t]] == animals[idx0[t]];
      }
    }
    forall k | 0 <= k < |animals| && KeepsSpecies(AnimalRecord(filename, dt, exif, animals[k]).species)
      ensures k in idx
    {
      if k < n {
        assert init[k] == animals[k];
        assert k in idx0;
      } else {
        assert idx[|idx0|] == k;
      }
    }
  }

  lemma DroppedEntrySkipped(filename: string, dt: DateTime, exif: ExifData, animals: seq<Animal>, rs0: seq<Record>, idx0: seq<nat>)
    requires |animals| > 0 && !KeepsSpecies(AnimalRecord(filename, dt, exif, animals[|animals| - 1]).species)
    requires RecordsOfKeptEntries(filename, dt, exif, animals[..|animals| - 1], rs0, idx0)
    ensures RecordsOfKeptEntries(filename, dt, exif, animals, rs0, idx0)
  {
    var init := animals[..|animals| - 1];
    assert forall t :: 0 <= t < |idx0| ==> init[idx0[t]] == animals[idx0[t]];
    assert forall k :: 0 <= k < |init| ==> init[k] == animals[k];
  }

  /** The records `_process_single_file` returns for a file (`None` when this is empty). */
  function FileRecords(filename: string, dt: DateTime, exif: ExifData): (rs: seq<Record>)
    ensures forall k :: 0 <= k < |rs| ==> FromFile(rs[k], filename, dt, exif) && KeepsSpecies(rs[k].species)
    ensures !exif.hasMultipleAnimals ==> |rs| <= 1 && (|rs| == 1 <==> KeepsSpecies(exif.species))
  {
    if exif.hasMultipleAnimals then KeptAnimalRecords(filename, dt, exif, exif.multipleAnimals)
    else if KeepsSpecies(exif.species) then [SingleRecord(filename, dt, exif)]
    else []
  }

  // ---------------------------------------------------------------------
  // Warnings of one file

  function CountWarning(filename: string, n: nat): string
  {
    "WARN: " + filename + " has " + NatToString(n) + " animal tags"
  }

  function NoCameraWarning(filename: string): string
  {
    "WARN: " + filename + " has no Camera_ID tag"
  }

  /** `[w for w in warnings if "no Camera_ID" in w]` */
  function NoCameraWarnings(warnings: seq<string>): (r: seq<string>)
    ensures forall w :: w in r <==> w in warnings && Contains(w, "no Camera_ID")
  {
    if |warnings| == 0 then []
    else
      var init := warnings[..|warnings| - 1];
      var w := warnings[|warnings| - 1];
      assert warnings == init + [w];
      NoCameraWarnings(init) + (if Contains(w, "no Camera_ID") then [w] else [])
  }

  function Repeat(w: string, n: nat): (r: seq<string>)
    ensures |r| == n && forall k :: 0 <= k < n ==> r[k] == w
  {
    seq(n, _ => w)
  }

  /**
   * The warnings `_process_single_file` appends: with several animal tags,
   * one count warning and then, per animal, a missing-camera warning unless
   * the bare filename is itself one of the earlier missing-camera warnings;
   * otherwise one missing-camera warning when the camera is not set.
   */
  function NewWarnings(filename: string, exif: ExifData, before: seq<string>): (ws: seq<string>)
  {
    if exif.hasMultipleAnimals then AnimalWarnings(filename, exif, before, |exif.multipleAnimals|)
    else if !IsSet(exif.cameraId) then [NoCameraWarning(filename)]
    else []
  }

  /** The warnings of the multi-animal branch after `k` animal entries. */
  function AnimalWarnings(filename: string, exif: ExifData, before: seq<string>, k: nat): (ws: seq<string>)
    ensures forall j :: 0 <= j < |ws| ==> |ws[j]| > |filename|
  {
    [CountWarning(filename, |exif.multipleAnimals|)]
    + (if !IsSet(exif.cameraId) && filename !in NoCameraWarnings(before)
       then Repeat(NoCameraWarning(filename), k) else [])
  }

  /** Warnings end in " tag" or " tags". */
  predicate TagTail(w: string)
  {
    (|w| >= 4 && w[|w| - 4..] == " tag") || (|w| >= 5 && w[|w| - 5..] == " tags")
  }

  lemma WarningsHaveTagTail(filename: string, n: nat)
    ensures TagTail(CountWarning(filename, n)) && TagTail(NoCameraWarning(filename))
  {
    var c := CountWarning(filename, n);
    assert c[|c| - 5..] == " tags";
    var m := NoCameraWarning(filename);
    assert m[|m| - 4..] == " tag";
  }

  lemma ExtensionsHaveNoSpace(e: string)
    requires e in ImageExtensions || e in VideoExtensions
    ensures ' ' !in e
  {
  }

  /** The extension of a name with a space after its last '.' holds that space. */
  lemma ExtensionHoldsSpace(w: string, space: nat)
    requires space < |w| && w[space] == ' '
    requires forall j :: space < j < |w| ==> w[j] != '.'
    ensures Extension(w) == "" || ' ' in Lower(Extension(w))
  {
    var ext := Extension(w);
    if ext != "" {
      var dot := RFind(w, '.');
      assert dot < space;
      assert ext[space - dot] == ' ';
      assert Lower(ext)[space - dot] == ' ';
    }
  }

  /** No text ending in " tag" or " tags" is a supported media file name. */
  lemma TagTailNotSupported(w: string)
    requires TagTail(w)
    ensures !IsSupportedFile(w)
  {
    var space := if |w| >= 4 && w[|w| - 4..] == " tag" then |w| - 4 else |w| - 5;
    assert w[space..][0] == ' ';
    assert forall j :: space < j < |w| ==> w[j] == w[space..][j - space];
    ExtensionHoldsSpace(w, space);
    if Lower(Extension(w)) in ImageExtensions || Lower(Extension(w)) in VideoExtensions {
      ExtensionsHaveNoSpace(Lower(Extension(w)));
    }
  }

  /**
   * The missing-camera check never suppresses a warning: the filename of a
   * supported file is never one of the warnings, all of which end in " tag"
   * or " tags".
   */
  lemma NoCameraCheckNeverSuppresses(filename: string, before: seq<string>)
    requires IsSupportedFile(filename)
    requires forall k :: 0 <= k < |before| ==> TagTail(before[k])
    ensures filename !in NoCameraWarnings(before)
  {
    if filename in before {
      TagTailNotSupported(filename);
    }
  }

  // ---------------------------------------------------------------------
  // The aggregation passes, stated on the record list

  function CameraKeys(rs: seq<Record>): (keys: seq<Option<string>>)
    ensures |keys| == |rs| && forall i :: 0 <= i < |rs| ==> keys[i] == rs[i].cameraId
  {
    seq(|rs|, i requires 0 <= i < |rs| => rs[i].cameraId)
  }

  /** The key of an independence group. */
  function PhotoKey(r: Record): (Option<string>, Option<string>)
  {
    (r.cameraId, r.species)
  }

  function PhotoKeys(rs: seq<Record>): (keys: seq<(Option<string>, Option<string>)>)
    ensures |keys| == |rs| && forall i :: 0 <= i < |rs| ==> keys[i] == PhotoKey(rs[i])
  {
    seq(|rs|, i requires 0 <= i < |rs| => PhotoKey(rs[i]))
  }

  /** The sort key of the passes: a datetime as seconds, which orders valid datetimes as Python does. */
  function Times(rs: seq<Record>): (times: seq<int>)
    ensures |times| == |rs| && forall i :: 0 <= i < |rs| ==> times[i] == ToSeconds(rs[i].dateTimeOriginal)
  {
    seq(|rs|, i requires 0 <= i < |rs| => ToSeconds(rs[i].dateTimeOriginal))
  }

  /** A camera's records, sorted by time as `group_records.sort(...)` leaves them. */
  function CameraGroup(rs: seq<Record>, camera: Option<string>): (g: seq<nat>)
    ensures Bounded(g, |rs|)
  {
    SortByTime(Members(CameraKeys(rs), camera), Times(rs))
  }

  /** A (camera, species) group, sorted by time. */
  function PhotoGroup(rs: seq<Record>, key: (Option<string>, Option<string>)): (g: seq<nat>)
    ensures Bounded(g, |rs|)
  {
    SortByTime(Members(PhotoKeys(rs), key), Times(rs))
  }

  /** A group holds exactly the records with its key. */
  lemma InGroup<K>(keys: seq<K>, key: K, time: seq<int>, i: nat)
    requires |keys| == |time|
    ensures i in SortByTime(Members(keys, key), time) <==> i < |keys| && keys[i] == key
  {
    SortSameElements(Members(keys, key), time, i);
    var m := Members(keys, key);
    if i in m {
      var t :| 0 <= t < |m| && m[t] == i;
    }
  }

  /** The times of a group's records, in the group's order. */
  function GroupTimes(rs: seq<Record>, g: seq<nat>): (times: seq<int>)
    requires Bounded(g, |rs|)
    ensures |times| == |g| && forall t :: 0 <= t < |g| ==> times[t] == ToSeconds(rs[g[t]].dateTimeOriginal)
  {
    seq(|g|, t requires 0 <= t < |g| => ToSeconds(rs[g[t]].dateTimeOriginal))
  }

  /**
   * A record with its camera's period: the time of the first and of the
   * last record of its camera's sorted group.
   */
  function PeriodOf(rs: seq<Record>, i: nat): (r: Record)
    requires i < |rs|
    ensures r == rs[i].(periodStart := r.periodStart, periodEnd := r.periodEnd)
    ensures r.periodStart.Some? && r.periodEnd.Some?
  {
    var g := CameraGroup(rs, rs[i].cameraId);
    InGroup(CameraKeys(rs), rs[i].cameraId, Times(rs), i);
    rs[i].(periodStart := Some(rs[g[0]].dateTimeOriginal), periodEnd := Some(rs[g[|g| - 1]].dateTimeOriginal))
  }

  /**
   * `_calculate_period_ranges` as a function: every record gets the period
   * of its camera, and nothing else changes.
   */
  function PeriodRanges(rs: seq<Record>): (out: seq<Record>)
    ensures |out| == |rs|
    ensures forall i :: 0 <= i < |rs| ==> out[i] == PeriodOf(rs, i)
  {
    seq(|rs|, i requires 0 <= i < |rs| => PeriodOf(rs, i))
  }

  /**
   * Each record's period runs from the earliest to the latest time of its
   * camera's records (all records without a camera form one group), so it
   * holds the record's own time.
   */
  lemma {:induction false} PeriodBounds(rs: seq<Record>, i: nat, j: nat)
    requires i < |rs| && j < |rs| && rs[i].cameraId == rs[j].cameraId
    ensures ToSeconds(PeriodRanges(rs)[i].periodStart.value) <= ToSeconds(rs[j].dateTimeOriginal)
    ensures ToSeconds(rs[j].dateTimeOriginal) <= ToSeconds(PeriodRanges(rs)[i].periodEnd.value)
  {
    var g := CameraGroup(rs, rs[i].cameraId);
    InGroup(CameraKeys(rs), rs[i].cameraId, Times(rs), j);
    SortIsStable(Members(CameraKeys(rs), rs[i].cameraId), Times(rs));
    GroupEnds(rs, g, j);
    assert PeriodRanges(rs)[i] == PeriodOf(rs, i);
  }

  /** In a group sorted by time, every member's time lies between those of the first and the last. */
  lemma GroupEnds(rs: seq<Record>, g: seq<nat>, j: nat)
    requires Bounded(g, |rs|) && SortedByTime(g, Times(rs)) && j in g
    ensures ToSeconds(rs[g[0]].dateTimeOriginal) <= ToSeconds(rs[j].dateTimeOriginal)
    ensures ToSeconds(rs[j].dateTimeOriginal) <= ToSeconds(rs[g[|g| - 1]].dateTimeOriginal)
  {
    var q :| 0 <= q < |g| && g[q] == j;
    SortedEnds(g, Times(rs), q);
  }

  /** The period's ends are times of records of the same camera. */
  lemma PeriodEndsAttained(rs: seq<Record>, i: nat)
    requires i < |rs|
    ensures exists j :: 0 <= j < |rs| && rs[j].cameraId == rs[i].cameraId
                        && rs[j].dateTimeOriginal == PeriodRanges(rs)[i].periodStart.value
    ensures exists j :: 0 <= j < |rs| && rs[j].cameraId == rs[i].cameraId
                        && rs[j].dateTimeOriginal == PeriodRanges(rs)[i].periodEnd.value
  {
    var g := CameraGroup(rs, rs[i].cameraId);
    InGroup(CameraKeys(rs), rs[i].cameraId, Times(rs), i);
    InGroup(CameraKeys(rs), rs[i].cameraId, Times(rs), g[0]);
    InGroup(CameraKeys(rs), rs[i].cameraId, Times(rs), g[|g| - 1]);
    assert PeriodRanges(rs)[i] == PeriodOf(rs, i);
  }

  /**
   * The flags of one (camera, species) group after the independence pass:
   * photo `t` of the sorted group is 1 exactly when the rule counts it.
   */
  ghost predicate GroupFlagged(before: seq<Record>, after: seq<Record>, key: (Option<string>, Option<string>), window: int)
  {
    var g := PhotoGroup(before, key);
    |after| == |before|
    && forall t :: 0 <= t < |g| ==>
      after[g[t]].independentPhoto == (if Flags(GroupTimes(before, g), window)[t] then 1 else 0)
  }

  /**
   * `_calculate_independent_photos` as a relation between the record list
   * before and after: only the IndependentPhoto fields change, and every
   * group is flagged by the rule with a window of `interval` minutes.
   */
  ghost predicate IndependentPhotos(before: seq<Record>, after: seq<Record>, interval: int)
  {
    |after| == |before|
    && (forall i :: 0 <= i < |before| ==> after[i] == before[i].(independentPhoto := after[i].independentPhoto))
    && forall key :: GroupFlagged(before, after, key, interval * 60)
  }

  /** Photo positions of a group, located in the list. */
  lemma GroupPosition(rs: seq<Record>, i: nat) returns (t: nat)
    requires i < |rs|
    ensures t < |PhotoGroup(rs, PhotoKey(rs[i]))| && PhotoGroup(rs, PhotoKey(rs[i]))[t] == i
  {
    InGroup(PhotoKeys(rs), PhotoKey(rs[i]), Times(rs), i);
    var g := PhotoGroup(rs, PhotoKey(rs[i]));
    t :| 0 <= t < |g| && g[t] == i;
  }

  lemma GroupTimesSorted(rs: seq<Record>, key: (Option<string>, Option<string>))
    ensures NonDecreasing(GroupTimes(rs, PhotoGroup(rs, key)))
  {
    var g := PhotoGroup(rs, key);
    SortIsStable(Members(PhotoKeys(rs), key), Times(rs));
    forall p, q | 0 <= p < q < |g|
      ensures GroupTimes(rs, g)[p] <= GroupTimes(rs, g)[q]
    {
      assert Precedes(Times(rs), g[p], g[q]);
    }
  }

  /**
   * After the pass, any two distinct photos of one camera and species that
   * both count as independent are at least `interval` minutes apart, and
   * the flags are 0 or 1.
   */
  lemma {:induction false} IndependentPhotosSpaced(before: seq<Record>, after: seq<Record>, interval: int, i: nat, j: nat)
    requires IndependentPhotos(before, after, interval)
    requires i < |before| && j < |before| && i != j && PhotoKey(before[i]) == PhotoKey(before[j])
    requires after[i].independentPhoto == 1 && after[j].independentPhoto == 1
    ensures ToSeconds(before[i].dateTimeOriginal) - ToSeconds(before[j].dateTimeOriginal) >= interval * 60
         || ToSeconds(before[j].dateTimeOriginal) - ToSeconds(before[i].dateTimeOriginal) >= interval * 60
  {
    var key := PhotoKey(before[i]);
    var ti := GroupPosition(before, i);
    var tj := GroupPosition(before, j);
    FlagOfGroupPhoto(before, after, interval, key, ti);
    FlagOfGroupPhoto(before, after, interval, key, tj);
    FlaggedGroupPhotosSpaced(before, key, interval * 60, ti, tj);
  }

  /** Two counted photos of one sorted group are a window apart. */
  lemma FlaggedGroupPhotosSpaced(rs: seq<Record>, key: (Option<string>, Option<string>), window: int, ti: nat, tj: nat)
    requires ti < |PhotoGroup(rs, key)| && tj < |PhotoGroup(rs, key)| && ti != tj
    requires Flags(GroupTimes(rs, PhotoGroup(rs, key)), window)[ti] && Flags(GroupTimes(rs, PhotoGroup(rs, key)), window)[tj]
    ensures var g := PhotoGroup(rs, key);
      ToSeconds(rs[g[ti]].dateTimeOriginal) - ToSeconds(rs[g[tj]].dateTimeOriginal) >= window
      || ToSeconds(rs[g[tj]].dateTimeOriginal) - ToSeconds(rs[g[ti]].dateTimeOriginal) >= window
  {
    var times := GroupTimes(rs, PhotoGroup(rs, key));
    GroupTimesSorted(rs, key);
    if ti < tj {
      CountedPhotosSpaced(times, window, ti, tj);
    } else {
      CountedPhotosSpaced(times, window, tj, ti);
    }
  }

  /** The pass's flag of the photo at position `t` of a sorted group. */
  lemma FlagOfGroupPhoto(before: seq<Record>, after: seq<Record>, interval: int, key: (Option<string>, Option<string>), t: nat)
    requires IndependentPhotos(before, after, interval)
    requires t < |PhotoGroup(before, key)|
    ensures var g := PhotoGroup(before, key);
      after[g[t]].independentPhoto == (if Flags(GroupTimes(before, g), interval * 60)[t] then 1 else 0)
  {
    assert GroupFlagged(before, after, key, interval * 60);
  }

  /** An earlier counted photo of the same group within the window, found on the sorted group. */
  lemma CoveringPhoto(rs: seq<Record>, window: int, key: (Option<string>, Option<string>), t: nat) returns (k: nat)
    requires t < |PhotoGroup(rs, key)|
    requires !Flags(GroupTimes(rs, PhotoGroup(rs, key)), window)[t]
    ensures var g := PhotoGroup(rs, key);
      k < t && Flags(GroupTimes(rs, g), window)[k] && g[k] != g[t]
      && PhotoKey(rs[g[k]]) == key
      && 0 <= ToSeconds(rs[g[t]].dateTimeOriginal) - ToSeconds(rs[g[k]].dateTimeOriginal) < window
  {
    var g := PhotoGroup(rs, key);
    var times := GroupTimes(rs, g);
    UncountedPhotoCovered(times, window, t);
    k :| 0 <= k < t && Flags(times, window)[k] && times[t] - times[k] < window;
    GroupTimesSorted(rs, key);
    assert times[k] <= times[t];
    SortIsStable(Members(PhotoKeys(rs), key), Times(rs));
    SortedDistinct(g, Times(rs));
    InGroup(PhotoKeys(rs), key, Times(rs), g[k]);
  }

  /**
   * After the pass, a photo that does not count lies less than `interval`
   * minutes after an earlier photo of its group that does.
   */
  lemma {:induction false} UncountedPhotoNearCounted(before: seq<Record>, after: seq<Record>, interval: int, i: nat)
    requires IndependentPhotos(before, after, interval)
    requires i < |before| && after[i].independentPhoto != 1
    ensures exists j :: (0 <= j < |before| && j != i && PhotoKey(before[j]) == PhotoKey(before[i])
      && after[j].independentPhoto == 1
      && 0 <= ToSeconds(before[i].dateTimeOriginal) - ToSeconds(before[j].dateTimeOriginal) < interval * 60)
  {
    var key := PhotoKey(before[i]);
    var g := PhotoGroup(before, key);
    var t := GroupPosition(before, i);
    FlagOfGroupPhoto(before, after, interval, key, t);
    var k := CoveringPhoto(before, interval * 60, key, t);
    FlagOfGroupPhoto(before, after, interval, key, k);
    var j := g[k];
    assert 0 <= j < |before| && j != i && PhotoKey(before[j]) == PhotoKey(before[i]);
  }

  // ---------------------------------------------------------------------
  // The directory run, stated on values

  /** One file of the directory: its path, its EXIF tag dictionary and what OCR reads on it. */
  datatype FileInput = FileInput(path: string, exif: ExifData, ocr: OcrReading)

  /**
   * The records `process_directory` collects before the two passes: the
   * records of each file in turn, its time resolved against the records
   * collected before it.
   */
  function Emitted(files: seq<FileInput>, csv: map<string, string>): (rs: seq<Record>)
    ensures forall k :: 0 <= k < |rs| ==>
      KeepsSpecies(rs[k].species) && rs[k].note == "" && rs[k].independentPhoto == 0
      && rs[k].periodStart.None? && rs[k].periodEnd.None?
  {
    if |files| == 0 then []
    else
      var before := Emitted(files[..|files| - 1], csv);
      var f := files[|files| - 1];
      var name := Basename(f.path);
      before + FileRecords(name, FileTime(name, f.exif, csv, f.ocr, before), f.exif)
  }

  /** The warnings `process_directory` leaves behind, file by file. */
  function DirectoryWarnings(files: seq<FileInput>): (ws: seq<string>)
    ensures forall k :: 0 <= k < |ws| ==> TagTail(ws[k])
  {
    if |files| == 0 then []
    else
      var before := DirectoryWarnings(files[..|files| - 1]);
      var f := files[|files| - 1];
      var added := NewWarnings(Basename(f.path), f.exif, before);
      WarningsHaveTagTail(Basename(f.path), |f.exif.multipleAnimals|);
      before + added
  }

  /** The records file `j` of the directory adds to `Emitted`. */
  function FileOutput(files: seq<FileInput>, csv: map<string, string>, j: nat): seq<Record>
    requires j < |files|
  {
    FileRecords(Basename(files[j].path), TimeOfFile(files, csv, j), files[j].exif)
  }

  /** A file that yields no records leaves the collected records, and so the fallback time, as they were. */
  lemma FileWithoutRecords(files: seq<FileInput>, csv: map<string, string>)
    requires |files| > 0 && FileOutput(files, csv, |files| - 1) == []
    ensures Emitted(files, csv) == Emitted(files[..|files| - 1], csv)
  {
  }

  /**
   * A file that yields records hands its own time on as the fallback: the
   * last record collected (what `previous_records[-1]` gives the next file)
   * carries it.
   */
  lemma FileWithRecords(files: seq<FileInput>, csv: map<string, string>)
    requires |files| > 0 && FileOutput(files, csv, |files| - 1) != []
    ensures Emitted(files, csv) != []
    ensures Emitted(files, csv)[|Emitted(files, csv)| - 1].dateTimeOriginal == TimeOfFile(files, csv, |files| - 1)
  {
    EmittedStep(files, csv);
    var out := FileOutput(files, csv, |files| - 1);
    assert FromFile(out[|out| - 1], Basename(files[|files| - 1].path), TimeOfFile(files, csv, |files| - 1), files[|files| - 1].exif);
  }

  lemma EmittedStep(files: seq<FileInput>, csv: map<string, string>)
    requires |files| > 0
    ensures Emitted(files, csv) == Emitted(files[..|files| - 1], csv) + FileOutput(files, csv, |files| - 1)
  {
  }

  /** The time resolved for file `j` of the directory. */
  function TimeOfFile(files: seq<FileInput>, csv: map<string, string>, j: nat): DateTime
    requires j < |files|
  {
    var name := Basename(files[j].path);
    FileTime(name, files[j].exif, csv, files[j].ocr, Emitted(files[..j], csv))
  }

  /**
   * Every emitted record carries a valid time when every file's EXIF time is
   * valid: the fallback to the previous record and the sentinel keep it so.
   */
  lemma {:induction false} EmittedTimesValid(files: seq<FileInput>, csv: map<string, string>)
    requires forall k :: 0 <= k < |files| && files[k].exif.dateTimeOriginal.Some? ==> Valid(files[k].exif.dateTimeOriginal.value)
    ensures ValidTimes(Emitted(files, csv))
  {
    if |files| > 0 {
      var init := files[..|files| - 1];
      EmittedTimesValid(init, csv);
      var f := files[|files| - 1];
      var name := Basename(f.path);
      FileTimeValid(name, f.exif, csv, f.ocr, Emitted(init, csv));
    }
  }

  /**
   * Across a whole directory of supported files, a multi-animal file without
   * a camera gets one missing-camera warning per animal entry: the
   * membership test never finds the bare filename among the warnings.
   */
  lemma {:induction false} MissingCameraWarnedPerAnimal(files: seq<FileInput>)
    requires |files| > 0
    requires IsSupportedFile(Basename(files[|files| - 1].path))
    requires files[|files| - 1].exif.hasMultipleAnimals && !IsSet(files[|files| - 1].exif.cameraId)
    ensures var f := files[|files| - 1];
      DirectoryWarnings(files) == DirectoryWarnings(files[..|files| - 1])
        + [CountWarning(Basename(f.path), |f.exif.multipleAnimals|)]
        + Repeat(NoCameraWarning(Basename(f.path)), |f.exif.multipleAnimals|)
  {
    var before := DirectoryWarnings(files[..|files| - 1]);
    NoCameraCheckNeverSuppresses(Basename(files[|files| - 1].path), before);
  }

  /** Warnings longer than the filename cannot make the filename a member. */
  lemma NoCameraMembershipKept(filename: string, before: seq<string>, extra: seq<string>)
    requires forall k :: 0 <= k < |extra| ==> |extra[k]| > |filename|
    ensures filename in NoCameraWarnings(before + extra) <==> filename in NoCameraWarnings(before)
  {
    assert forall w :: w in extra ==> |w| > |filename|;
    assert filename in before + extra <==> filename in before || filename in extra;
  }

  // ---------------------------------------------------------------------
  // The in-place steps of the two passes

  /** Sets both period fields of the records at the positions of `g`. */
  method SetPeriods(a: array<Record>, g: seq<nat>, start: DateTime, end: DateTime)
    requires Bounded(g, a.Length)
    modifies a
    ensures forall i :: 0 <= i < a.Length ==>
      a[i] == if i in g then old(a[i]).(periodStart := Some(start), periodEnd := Some(end)) else old(a[i])
  {
    for t := 0 to |g|
      invariant forall i :: 0 <= i < a.Length ==>
        a[i] == if i in g[..t] then old(a[i]).(periodStart := Some(start), periodEnd := Some(end)) else old(a[i])
    {
      assert g[..t + 1] == g[..t] + [g[t]];
      a[g[t]] := a[g[t]].(periodStart := Some(start), periodEnd := Some(end));
    }
    assert g[..|g|] == g;
  }

  /**
   * The state of the cursor loop after `t` photos of the group: those carry
   * their flag, the rest of the group and every other record are as before.
   */
  ghost predicate FlaggedUpTo(after: seq<Record>, before: seq<Record>, g: seq<nat>, f: seq<bool>, t: nat)
    requires |after| == |before| && Bounded(g, |before|) && |f| == |g| && t <= |g|
  {
    (forall s :: 0 <= s < t ==> after[g[s]] == before[g[s]].(independentPhoto := if f[s] then 1 else 0))
    && (forall s :: t <= s < |g| ==> after[g[s]] == before[g[s]])
    && SameOutside(before, after, g)
    && OnlyFlagsDiffer(before, after)
  }

  /** Writes the flag of the photo at position `t` of the group. */
  method SetFlag(a: array<Record>, ghost before: seq<Record>, g: seq<nat>, ghost f: seq<bool>, t: nat, flag: int)
    requires a.Length == |before| && Bounded(g, |before|) && |f| == |g| && t < |g| && Distinct(g)
    requires FlaggedUpTo(a[..], before, g, f, t) && flag == (if f[t] then 1 else 0)
    modifies a
    ensures FlaggedUpTo(a[..], before, g, f, t + 1)
  {
    a[g[t]] := a[g[t]].(independentPhoto := flag);
  }

  /**
   * The cursor loop over one sorted group: the first photo counts, and each
   * later one counts when its time minus that of the last counted photo is
   * at least `window` seconds, which then moves the cursor.
   */
  method FlagGroup(a: array<Record>, g: seq<nat>, window: int)
    requires Bounded(g, a.Length) && Distinct(g) && |g| > 0
    modifies a
    ensures FlaggedUpTo(a[..], old(a[..]), g, Flags(GroupTimes(old(a[..]), g), window), |g|)
  {
    ghost var before := a[..];
    ghost var f := Flags(GroupTimes(before, g), window);
    SetFlag(a, before, g, f, 0, 1);
    var last := ToSeconds(a[g[0]].dateTimeOriginal);
    CursorLoop(a, before, g, window, last);
  }

  /** The photos after the first: the cursor moves to each photo that counts. */
  method CursorLoop(a: array<Record>, ghost before: seq<Record>, g: seq<nat>, window: int, last: int)
    requires a.Length == |before| && Bounded(g, |before|) && Distinct(g) && |g| > 0
    requires FlaggedUpTo(a[..], before, g, Flags(GroupTimes(before, g), window), 1)
    requires last == ToSeconds(before[g[0]].dateTimeOriginal)
    modifies a
    ensures FlaggedUpTo(a[..], before, g, Flags(GroupTimes(before, g), window), |g|)
  {
    ghost var times := GroupTimes(before, g);
    ghost var f := Flags(times, window);
    var cursor := last;
    LastTrueStep(f, 0);
    for t := 1 to |g|
      invariant FlaggedUpTo(a[..], before, g, f, t)
      invariant 0 <= LastTrue(f[..t]) < t && cursor == times[LastTrue(f[..t])]
    {
      CursorStep(times, window, t, cursor);
      var current := ToSeconds(a[g[t]].dateTimeOriginal);
      if current - cursor >= window {
        SetFlag(a, before, g, f, t, 1);
        cursor := current;
      } else {
        SetFlag(a, before, g, f, t, 0);
      }
    }
  }

  /** A key no record carries has an empty group. */
  lemma AbsentKeyEmptyGroup(rs: seq<Record>, key: (Option<string>, Option<string>))
    requires forall i :: 0 <= i < |rs| ==> PhotoKey(rs[i]) != key
    ensures PhotoGroup(rs, key) == []
  {
  }

  /** The state of the period pass once the cameras `cams` are done. */
  ghost predicate PeriodsSetFor(a: array<Record>, rs: seq<Record>, cams: seq<Option<string>>)
    reads a
    requires a.Length == |rs|
  {
    forall i :: 0 <= i < a.Length ==> a[i] == if rs[i].cameraId in cams then PeriodRanges(rs)[i] else rs[i]
  }

  /** The loop of the period pass over the cameras in the order they were first seen. */
  method PeriodPass(a: array<Record>, ghost rs: seq<Record>, groups: map<Option<string>, seq<nat>>,
                    order: seq<Option<string>>, times: seq<int>)
    requires a[..] == rs && times == Times(rs)
    requires forall k :: k in order ==> k in groups && groups[k] == Members(CameraKeys(rs), k) && |groups[k]| > 0
    modifies a
    ensures PeriodsSetFor(a, rs, order)
  {
    for n := 0 to |order|
      invariant PeriodsSetFor(a, rs, order[..n])
    {
      var g := SortByTime(groups[order[n]], times);
      assert order[..n + 1] == order[..n] + [order[n]];
      PeriodStep(a, rs, order[..n], order[n], g);
    }
    assert order[..|order|] == order;
  }

  /** The loop of the independence pass over the (camera, species) keys in the order they were first seen. */
  method IndependencePass(a: array<Record>, ghost rs: seq<Record>, groups: map<(Option<string>, Option<string>), seq<nat>>,
                          order: seq<(Option<string>, Option<string>)>, times: seq<int>, window: int)
    requires a[..] == rs && times == Times(rs) && Distinct(order)
    requires forall k :: k in order ==> k in groups && groups[k] == Members(PhotoKeys(rs), k) && |groups[k]| > 0
    modifies a
    ensures OnlyFlagsDiffer(rs, a[..]) && FlaggedBefore(rs, a[..], order, |order|, window)
  {
    for n := 0 to |order|
      invariant OnlyFlagsDiffer(rs, a[..]) && FlaggedBefore(rs, a[..], order, n, window)
    {
      var g := SortByTime(groups[order[n]], times);
      IndependentStep(a, rs, order, n, g, window);
    }
  }

  /** Only the IndependentPhoto fields of `s` differ from those of `rs`. */
  ghost predicate OnlyFlagsDiffer(rs: seq<Record>, s: seq<Record>)
  {
    |s| == |rs| && forall i :: 0 <= i < |rs| ==> s[i] == rs[i].(independentPhoto := s[i].independentPhoto)
  }

  /** `after` differs from `before` at most at the positions in `g`. */
  ghost predicate SameOutside(before: seq<Record>, after: seq<Record>, g: seq<nat>)
  {
    |after| == |before| && forall i :: 0 <= i < |before| && i !in g ==> after[i] == before[i]
  }

  /** The groups of the first `n` keys of `order` are flagged in `s`. */
  ghost predicate FlaggedBefore(rs: seq<Record>, s: seq<Record>, order: seq<(Option<string>, Option<string>)>, n: nat, window: int)
    requires n <= |order|
  {
    forall m :: 0 <= m < n ==> GroupFlagged(rs, s, order[m], window)
  }

  /** Flagging the groups of every key that occurs flags all groups: the others are empty. */
  lemma EveryGroupFlagged(rs: seq<Record>, after: seq<Record>, order: seq<(Option<string>, Option<string>)>, interval: int)
    requires OnlyFlagsDiffer(rs, after)
    requires forall i :: 0 <= i < |rs| ==> PhotoKey(rs[i]) in order
    requires FlaggedBefore(rs, after, order, |order|, interval * 60)
    ensures IndependentPhotos(rs, after, interval)
  {
    var window := interval * 60;
    forall key
      ensures GroupFlagged(rs, after, key, window)
    {
      if key !in order {
        AbsentKeyEmptyGroup(rs, key);
      } else {
        var m :| 0 <= m < |order| && order[m] == key;
      }
    }
  }

  /** Once every camera is done, the array holds `PeriodRanges` of the records. */
  lemma PeriodsAllSet(a: array<Record>, rs: seq<Record>, cams: seq<Option<string>>)
    requires a.Length == |rs| && PeriodsSetFor(a, rs, cams)
    requires forall i :: 0 <= i < |rs| ==> CameraKeys(rs)[i] in cams
    ensures a[..] == PeriodRanges(rs)
  {
  }

  /** One camera group of the period pass. */
  method PeriodStep(a: array<Record>, ghost rs: seq<Record>, ghost cams: seq<Option<string>>, camera: Option<string>, g: seq<nat>)
    requires a.Length == |rs|
    requires g == CameraGroup(rs, camera) && |g| > 0
    requires PeriodsSetFor(a, rs, cams)
    modifies a
    ensures PeriodsSetFor(a, rs, cams + [camera])
  {
    SetPeriods(a, g, a[g[0]].dateTimeOriginal, a[g[|g| - 1]].dateTimeOriginal);
    forall i | 0 <= i < a.Length
      ensures a[i] == if rs[i].cameraId in cams + [camera] then PeriodRanges(rs)[i] else rs[i]
    {
      InGroup(CameraKeys(rs), camera, Times(rs), i);
    }
  }

  /** Flags written outside a group leave the group as it was flagged. */
  lemma FlaggedElsewhereKept(rs: seq<Record>, before: seq<Record>, after: seq<Record>,
                             other: (Option<string>, Option<string>), key: (Option<string>, Option<string>), window: int)
    requires |before| == |rs| && |after| == |rs| && other != key
    requires GroupFlagged(rs, before, other, window)
    requires forall i :: 0 <= i < |rs| && i !in PhotoGroup(rs, key) ==> after[i] == before[i]
    ensures GroupFlagged(rs, after, other, window)
  {
    var go := PhotoGroup(rs, other);
    forall t | 0 <= t < |go|
      ensures after[go[t]] == before[go[t]]
    {
      InGroup(PhotoKeys(rs), other, Times(rs), go[t]);
      InGroup(PhotoKeys(rs), key, Times(rs), go[t]);
    }
  }

  /** The group's own flags, once the cursor loop has run over it. */
  method FlagOwnGroup(a: array<Record>, ghost rs: seq<Record>, key: (Option<string>, Option<string>), g: seq<nat>, window: int)
    requires g == PhotoGroup(rs, key) && |g| > 0
    requires OnlyFlagsDiffer(rs, a[..])
    modifies a
    ensures OnlyFlagsDiffer(rs, a[..])
    ensures SameOutside(old(a[..]), a[..], g)
    ensures GroupFlagged(rs, a[..], key, window)
  {
    ghost var before := a[..];
    SortIsStable(Members(PhotoKeys(rs), key), Times(rs));
    SortedDistinct(g, Times(rs));
    assert GroupTimes(before, g) == GroupTimes(rs, g);
    FlagGroup(a, g, window);
    OwnGroupFlagged(rs, before, a[..], key, g, window);
  }

  /** The cursor loop over a group leaves that group flagged and the rest alone. */
  lemma OwnGroupFlagged(rs: seq<Record>, before: seq<Record>, after: seq<Record>,
                        key: (Option<string>, Option<string>), g: seq<nat>, window: int)
    requires OnlyFlagsDiffer(rs, before) && |after| == |rs| && g == PhotoGroup(rs, key)
    requires GroupTimes(before, g) == GroupTimes(rs, g)
    requires FlaggedUpTo(after, before, g, Flags(GroupTimes(before, g), window), |g|)
    ensures OnlyFlagsDiffer(rs, after) && SameOutside(before, after, g) && GroupFlagged(rs, after, key, window)
  {
  }

  /** One (camera, species) group of the independence pass, with the pass's loop invariant before and after. */
  method IndependentStep(a: array<Record>, ghost rs: seq<Record>, order: seq<(Option<string>, Option<string>)>,
                         n: nat, g: seq<nat>, window: int)
    requires n < |order| && Distinct(order)
    requires g == PhotoGroup(rs, order[n]) && |g| > 0
    requires OnlyFlagsDiffer(rs, a[..]) && FlaggedBefore(rs, a[..], order, n, window)
    modifies a
    ensures OnlyFlagsDiffer(rs, a[..]) && FlaggedBefore(rs, a[..], order, n + 1, window)
  {
    ghost var before := a[..];
    FlagOwnGroup(a, rs, order[n], g, window);
    OtherGroupsKept(rs, before, a[..], order, n, window);
  }

  /** Flagging the group of `order[n]` leaves the groups flagged before it as they were. */
  lemma OtherGroupsKept(rs: seq<Record>, before: seq<Record>, after: seq<Record>,
                        order: seq<(Option<string>, Option<string>)>, n: nat, window: int)
    requires |before| == |rs| && |after| == |rs| && n < |order| && Distinct(order)
    requires FlaggedBefore(rs, before, order, n, window)
    requires SameOutside(before, after, PhotoGroup(rs, order[n]))
    requires GroupFlagged(rs, after, order[n], window)
    ensures FlaggedBefore(rs, after, order, n + 1, window)
  {
    forall m | 0 <= m < n
      ensures GroupFlagged(rs, after, order[m], window)
    {
      FlaggedElsewhereKept(rs, before, after, order[m], order[n], window);
    }
  }

  // ---------------------------------------------------------------------
  // The processor

  class PhotoProcessor {
    /** Minutes that must pass before a photo of the same group counts again. */
    var timeInterval: int
    var records: seq<Record>
    var warnings: seq<string>

    constructor (timeInterval: int := 30)
      ensures this.timeInterval == timeInterval && records == [] && warnings == []
    {
      this.timeInterval := timeInterval;
      records := [];
      warnings := [];
    }

    /**
     * `_process_single_file`: resolves the file's time, builds its records,
     * appends its warnings, and answers None when no record survives the
     * species filter.
     */
    method ProcessSingleFile(filePath: string, exif: ExifData, csv: map<string, string>,
                             ocr: OcrReading, previous: seq<Record>) returns (result: Option<seq<Record>>)
      modifies this`warnings
      ensures var filename := Basename(filePath);
        var recs := FileRecords(filename, FileTime(filename, exif, csv, ocr, previous), exif);
        result == (if recs == [] then None else Some(recs))
      ensures warnings == old(warnings) + NewWarnings(Basename(filePath), exif, old(warnings))
    {
      var filename := Basename(filePath);
      var found := DetermineDatetime(filename, exif, csv, ocr, previous);
      var dt := if found.Some? then found.value else Sentinel;
      if exif.hasMultipleAnimals {
        var recs := ProcessAnimals(filename, dt, exif);
        result := if recs == [] then None else Some(recs);
      } else {
        var record := SingleRecord(filename, dt, exif);
        if !IsSet(record.cameraId) {
          warnings := warnings + [NoCameraWarning(filename)];
        }
        if !KeepsSpecies(record.species) {
          return None;
        }
        result := Some([record]);
      }
    }

    /**
     * The multi-animal branch: one count warning, then per animal entry a
     * missing-camera warning when the camera is not set and the filename is
     * not among the missing-camera warnings, and the entry's record when its
     * species passes the filter.
     */
    method ProcessAnimals(filename: string, dt: DateTime, exif: ExifData) returns (recs: seq<Record>)
      requires exif.hasMultipleAnimals
      modifies this`warnings
      ensures recs == KeptAnimalRecords(filename, dt, exif, exif.multipleAnimals)
      ensures warnings == old(warnings) + NewWarnings(filename, exif, old(warnings))
    {
      var animals := exif.multipleAnimals;
      recs := [];
      warnings := warnings + [CountWarning(filename, |animals|)];
      for k := 0 to |animals|
        invariant recs == KeptAnimalRecords(filename, dt, exif, animals[..k])
        invariant warnings == old(warnings) + AnimalWarnings(filename, exif, old(warnings), k)
      {
        var record := AnimalRecord(filename, dt, exif, animals[k]);
        if !IsSet(record.cameraId) {
          WarnMissingCamera(filename, exif, old(warnings), k);
        }
        if KeepsSpecies(record.species) {
          recs := recs + [record];
        }
        assert animals[..k + 1][..k] == animals[..k] && animals[..k + 1][k] == animals[k];
      }
      assert animals[..|animals|] == animals;
    }

    /** The missing-camera check of one animal entry, with the filename compared against whole warnings. */
    method WarnMissingCamera(filename: string, exif: ExifData, ghost before: seq<string>, ghost k: nat)
      requires !IsSet(exif.cameraId)
      requires warnings == before + AnimalWarnings(filename, exif, before, k)
      modifies this`warnings
      ensures warnings == before + AnimalWarnings(filename, exif, before, k + 1)
    {
      NoCameraMembershipKept(filename, before, warnings[|before|..]);
      assert before + warnings[|before|..] == warnings;
      if filename !in NoCameraWarnings(warnings) {
        warnings := warnings + [NoCameraWarning(filename)];
      }
      assert Repeat(NoCameraWarning(filename), k + 1) == Repeat(NoCameraWarning(filename), k) + [NoCameraWarning(filename)];
    }

    /**
     * `_calculate_period_ranges`: groups the records by camera, sorts each
     * group by time and writes the group's first and last time into every
     * record of the group.
     */
    method CalculatePeriodRanges(a: array<Record>)
      modifies a
      ensures a[..] == PeriodRanges(old(a[..]))
    {
      if a.Length == 0 {
        return;
      }
      ghost var rs := a[..];
      var keys := CameraKeys(a[..]);
      var times := Times(a[..]);
      var groups, order := GroupIndices(keys);
      PeriodPass(a, rs, groups, order, times);
      PeriodsAllSet(a, rs, order);
    }

    /**
     * `_calculate_independent_photos`: groups the records by camera and
     * species, sorts each group by time and runs the cursor loop over it.
     */
    method CalculateIndependentPhotos(a: array<Record>)
      modifies a
      ensures IndependentPhotos(old(a[..]), a[..], timeInterval)
    {
      ghost var rs := a[..];
      if a.Length == 0 {
        return;
      }
      var keys := PhotoKeys(a[..]);
      var times := Times(a[..]);
      var groups, order := GroupIndices(keys);
      IndependencePass(a, rs, groups, order, times, timeInterval * 60);
      EveryGroupFlagged(rs, a[..], order, timeInterval);
    }

    /** The file loop of `process_directory`: each file's records are added to those collected so far. */
    method CollectRecords(files: seq<FileInput>, csv: map<string, string>) returns (collected: seq<Record>)
      requires warnings == []
      modifies this`warnings
      ensures collected == Emitted(files, csv)
      ensures warnings == DirectoryWarnings(files)
    {
      collected := [];
      for n := 0 to |files|
        invariant collected == Emitted(files[..n], csv)
        invariant warnings == DirectoryWarnings(files[..n])
      {
        assert files[..n + 1][..n] == files[..n];
        var f := files[n];
        var recs := ProcessSingleFile(f.path, f.exif, csv, f.ocr, collected);
        if recs.Some? {
          collected := collected + recs.value;
        }
      }
      assert files[..|files|] == files;
    }

    /**
     * `process_directory` with the scan, the EXIF reads, the OCR readings
     * and the reference CSV as inputs: resets the state, processes the files
     * in order, then runs the two passes and keeps the records.
     */
    method ProcessDirectory(files: seq<FileInput>, csv: map<string, string>) returns (result: seq<Record>)
      modifies this
      ensures timeInterval == old(timeInterval)
      ensures warnings == DirectoryWarnings(files)
      ensures records == result
      ensures files == [] ==> result == []
      ensures |result| == |Emitted(files, csv)|
      ensures IndependentPhotos(PeriodRanges(Emitted(files, csv)), result, timeInterval)
    {
      records := [];
      warnings := [];
      if |files| == 0 {
        return [];
      }
      var collected := CollectRecords(files, csv);
      result := RunPasses(collected);
      records := result;
    }

    /** The two passes over the collected records, on an array of their own. */
    method RunPasses(collected: seq<Record>) returns (out: seq<Record>)
      ensures |out| == |collected|
      ensures IndependentPhotos(PeriodRanges(collected), out, timeInterval)
    {
      ghost var periods := PeriodRanges(collected);
      var a := new Record[|collected|](i requires 0 <= i < |collected| => collected[i]);
      assert a[..] == collected;
      CalculatePeriodRanges(a);
      assert a[..] == periods && |periods| == |collected|;
      CalculateIndependentPhotos(a);
      out := a[..];
    }
  }
}
