# exif_agent core, modelled in Dafny

exif_agent turns camera-trap photographs and videos into a table of wildlife
events. For each media file of a directory, the photo processor does the following:

- It settles a capture time from the reference CSV, the EXIF date tags, an OCR
  reading of the stamp burnt into the image, or the previous record, in that
  order. If none of them gives a time it uses 2000-01-01 00:00:00.
- It reads the file's XMP hierarchical-subject tag
  (`1_Site ID|JC38, 2_Animal|Mammal|Muntjac, 3_Number|2`) into the camera,
  site, plot, group, species and count fields. The last item of each kind
  wins, so a file yields one event record. A per-animal branch
  (src/processor.py:146-190) makes one record per entry of a
  `multiple_animals` list, but it runs only when `has_multiple_animals` is
  set, and `read_exif` never sets it.
- It drops records whose species is empty or "unknown".
- It collects warnings.

Over all the records, two passes follow:

- the period pass gives every record its camera's first and last capture
  time;
- the independence pass sorts each (camera, species) group by time and walks
  it with a cursor. A photo counts as an independent photo when at least
  `time_interval` minutes separate it from the last photo that counted.

The project has one module per source file of the core, plus shared modules.

| file | module | models |
|---|---|---|
| `wrappers.dfy` | `Wrappers` | `Option` |
| `strings.dfy` | `Strings` | the `str` builtins the core uses: `lower`, `strip`, `split`, `in`, `rfind`, `int()`, `str()`, `os.path.basename` |
| `datetimes.dfy` | `DateTimes` | naive datetimes, their validity, the seconds axis that datetime subtraction measures, and `datetime.strptime` for the formats the core uses |
| `exif_reader.dfy` | `ExifReader` | `src/exif/exif_reader.py` |
| `ocr_detector.dfy` | `OcrDetector` | `src/ocr/ocr_detector.py` |
| `csv_reference.dfy` | `CsvReference` | `read_csv_datetime` of `src/database/csv_excel_writer.py` |
| `grouping.dfy` | `Grouping` | the dictionary-of-lists grouping loop and the stable `list.sort(key=...)` of both passes |
| `independence.dfy` | `Independence` | the flag sequence the cursor loop produces for one sorted group |
| `processor.dfy` | `Processor` | `src/processor.py` |

## How the model is shaped

The pure code becomes functions with lemmas:

- the datetime parsers;
- the OCR pattern cascade;
- the timestamp cascade of `_determine_datetime`;
- `is_supported_file`;
- `_extract_datetime`.

The code that updates state step by step becomes methods with loops:

- `PhotoProcessor` is a class with fields `timeInterval`, `records` and
  `warnings`.
- The two passes work in place on an `array<Record>`. Groups are sequences of
  array positions, so "the group's records" are the same record objects
  that the outer list holds.
- `_parse_hierarchical_subject`, `_extract_xmp_tags` and `read_csv_datetime`
  are methods whose loops overwrite fields or map entries.

Each method is proved against a specification function:

| method | specification function |
|---|---|
| `CalculatePeriodRanges` | `PeriodRanges` |
| `CalculateIndependentPhotos` | `IndependentPhotos` |
| `ParseHierarchicalSubject` | `AfterItems` |
| `ExtractXmpTags` | `AfterXmpTags` |
| `ReadCsvDatetime` | `CsvDatetimes` |
| `ProcessSingleFile`, `ProcessAnimals` and `CollectRecords` | `FileRecords`, `NewWarnings`, `Emitted` and `DirectoryWarnings` |

The lemmas then state what the source promises about those functions.

Some behaviour is modelled as the code has it, which is not what its
comments suggest:

- **Missing-camera warning.** The multi-animal branch looks for the bare
  filename among the missing-camera warnings. No warning is ever equal to a
  filename, so the check never suppresses anything, and a camera-less file
  gets one warning per animal entry (`NoCameraCheckNeverSuppresses`,
  `MissingCameraWarnedPerAnimal`).
- **Records without a camera.** They share the group key `None` rather than
  "Unknown", because the `Camera_ID` key is always present.
- **Labels.** Hierarchical-subject labels are matched case-sensitively.
- **Timestamp warning.** The fallback to 2000-01-01 is logged but not added to
  the warnings list.

## Model

| member | source | states |
|---|---|---|
| Processor.ColonDate | src/processor.py:292-294 | the answer is a position where `^(\d{4}):(\d{1,2}):(\d{1,2})` matches with its second colon there (one- and two-digit months alike); None exactly when the pattern does not match at the start |
| Processor.RewriteColonDate | src/processor.py:292-294 | the substitution changes only characters that were colons, turning them into '/'; a string without a leading `YYYY:M:D` is unchanged, and a matching string has both date colons replaced |
| Processor.ParseDatetimeString | src/processor.py:277-310 | a result is a valid datetime read from the stripped, colon-rewritten string by one of the '/' or '-' formats; whenever one of the four formats reads that string, the result is what it reads; the result is None exactly when none of them reads it |
| Processor.FirstFormat | src/processor.py:297-310 | the four formats are mutually exclusive (they differ in separator or in width), so trying them in order returns what any of them reads; None exactly when none reads the whole string |
| DateTimes.StrptimeFormatsExclusive | src/processor.py:297-310 | no string is read by two of the four formats: the separator and the presence of seconds agree |
| Processor.ParsesWhatStrptimeReads | src/processor.py:297-308 | whatever one of the four formats reads from the cleaned string is the parser's result |
| Processor.ParsesUnpaddedExample | src/processor.py:282 | "2020/6/22 09:40:5" reads as 2020-06-22 09:40:05 |
| DateTimes.StrptimeUnpaddedExample | src/processor.py:282 | `%Y/%m/%d %H:%M:%S` accepts one-digit month and second fields: "2020/6/22 09:40:5" reads as 2020-06-22 09:40:05 |
| Processor.ParsesUnpaddedColonExample | src/processor.py:291-294 | the EXIF colon form with a one-digit month, "2020:6:22 09:40:12", reads as 2020-06-22 09:40:12 |
| DateTimes.StrptimeRewrittenColonExample | src/processor.py:291-294 | `%Y/%m/%d %H:%M:%S` reads the rewritten "2020/6/22 09:40:12" as 2020-06-22 09:40:12 |
| Processor.ParsesFormatted | src/processor.py:297-310 | each of the four formats reads back the datetime it prints (on a whole minute for the formats without seconds) |
| Processor.ParsesColonDate | src/processor.py:284-306 | the EXIF-style `YYYY:MM:DD HH:MM:SS` string of any valid datetime is read back as that datetime |
| Processor.ColonFormRewritten | src/processor.py:292-294 | the colon rewrite turns the colon form of a datetime into its slash form |
| Processor.ParsesExifStyleExample | src/processor.py:284 | "2020:06:22 09:40:12" reads as 2020-06-22 09:40:12 |
| Processor.ParseIgnoresSurroundingSpace | src/processor.py:289 | surrounding whitespace does not change the result |
| Processor.FormatHasNoOuterSpace | src/processor.py:289 | a printed datetime has no whitespace at either end, so stripping leaves it alone |
| Processor.CsvTime | src/processor.py:241-251 | the CSV stage gives a time only for a file that has an entry, and only a valid one; for a file with an entry it is exactly what `_parse_datetime_string` makes of it |
| Processor.DetermineDatetime | src/processor.py:224-275 | the result is None exactly when the CSV entry is missing or does not parse, there is no EXIF time, OCR reads nothing and no record was emitted before; otherwise it is the first stage's value in the order CSV, EXIF `DateTimeOriginal`, OCR reading, time of the last record emitted |
| Processor.OcrOnlyAfterCsvAndExif | src/processor.py:241-263 | when the CSV or EXIF stage succeeds, the OCR reading does not affect the result |
| Processor.PreviousOnlyAsLastResort | src/processor.py:269-275 | when any earlier stage succeeds, the previous records do not affect the result |
| Processor.UnparsableCsvFallsThrough | src/processor.py:242-251 | a CSV entry that does not parse behaves as no entry at all |
| Processor.FileTime | src/processor.py:139-143 | when the cascade yields nothing, the time is 2000-01-01 00:00:00 |
| Processor.FileTimeValid | src/processor.py:135-143 | the resolved time is valid whenever the EXIF time and the earlier records' times are |
| Processor.KeptAnimalRecords | src/processor.py:155-190 | there are at most as many records as animal entries; each shares the file's SourceFile, time, Site, Plot_ID and Camera_ID, has Note "", IndependentPhoto 0 and no period, and passes the species filter |
| Processor.KeptAnimalRecordsExact | src/processor.py:155-184 | a record is produced exactly for each animal entry whose species passes the filter, built with the defaults Group "", Species "" and Number 1 |
| Processor.KeptAnimalRecordsInOrder | src/processor.py:155-190 | the records are one per kept animal entry, in entry order: the i-th record is built from the i-th entry whose species passes, and every such entry has its record |
| Processor.FileRecords | src/processor.py:145-222 | the records of a file all share its fields and pass the species filter; a single-tag file yields at most one record, and yields one exactly when its species passes |
| Processor.NoCameraWarnings | src/processor.py:175-177 | the list holds exactly the warnings containing "no Camera_ID" |
| Processor.AnimalWarnings | src/processor.py:150-180 | every warning of the multi-animal branch is longer than the filename |
| Processor.WarningsHaveTagTail | src/processor.py:151-213 | both warning texts end in " tags" or " tag" |
| Processor.TagTailNotSupported | src/exif/exif_reader.py:29-32 | no text ending in " tag" or " tags" is a supported media file name |
| Processor.NoCameraCheckNeverSuppresses | src/processor.py:173-180 | the filename of a supported file is never among warnings that end in " tag" or " tags" |
| Processor.MissingCameraWarnedPerAnimal | src/processor.py:146-180 | a camera-less multi-animal file adds one count warning and then one missing-camera warning per animal entry |
| Processor.NoCameraMembershipKept | src/processor.py:175-177 | appending warnings longer than the filename never makes the filename a member |
| Processor.PhotoProcessor.constructor | src/processor.py:20-36 | the interval defaults to 30 minutes; records and warnings start empty |
| Processor.PhotoProcessor.ProcessSingleFile | src/processor.py:112-222 | the result is the file's kept records (None when none survive), all with the resolved time; the warnings grow by exactly that file's warnings |
| Processor.PhotoProcessor.ProcessAnimals | src/processor.py:146-190 | the multi-animal branch returns the kept animal records in order; it appends one count warning and then the per-animal missing-camera warnings |
| Processor.PhotoProcessor.WarnMissingCamera | src/processor.py:173-180 | one animal entry's missing-camera check appends the warning unless the filename is among the missing-camera warnings |
| Processor.InGroup | src/processor.py:353-358 | a sorted group holds exactly the positions of the records with its key |
| Processor.PeriodOf | src/processor.py:331-341 | a record with its period set differs from the original only in the two period fields, and both are set |
| Processor.PeriodRanges | src/processor.py:312-341 | every record gets the period of its camera group, and nothing else changes |
| Processor.PeriodBounds | src/processor.py:326-341 | a record's period starts no later than, and ends no earlier than, the time of every record of the same camera (all records without a camera form one group) |
| Processor.GroupEnds | src/processor.py:328-332 | in a group sorted by time, every member lies between the first and the last |
| Processor.PeriodEndsAttained | src/processor.py:331-332 | both ends of the period are times of records of the same camera |
| Processor.GroupTimesSorted | src/processor.py:363 | the times of a sorted group do not decrease |
| Processor.FlaggedGroupPhotosSpaced | src/processor.py:363-381 | two counted photos of one sorted group are at least the window apart |
| Processor.IndependentPhotosSpaced | src/processor.py:361-381 | any two distinct photos of one camera and species that both count lie at least `time_interval` minutes apart |
| Processor.UncountedPhotoNearCounted | src/processor.py:372-381 | a photo that does not count lies less than `time_interval` minutes after an earlier counted photo of its group |
| Processor.FlagOfGroupPhoto | src/processor.py:361-381 | after the pass, photo t of a sorted group carries the flag the rule gives it |
| Processor.CoveringPhoto | src/processor.py:372-381 | for an uncounted photo, an earlier counted photo of the same group lies within the window |
| Processor.Emitted | src/processor.py:64-77 | every collected record passes the species filter and carries Note "", IndependentPhoto 0 and no period |
| Processor.DirectoryWarnings | src/processor.py:51-77 | every warning of a directory run ends in " tag" or " tags" |
| Processor.EmittedTimesValid | src/processor.py:64-77 | every collected record has a valid time when every EXIF time is valid |
| Processor.SetPeriods | src/processor.py:339-341 | the records of a group get both period fields and all other records stay as they were |
| Processor.PeriodStep | src/processor.py:326-341 | one camera group gets its period, taken from its sorted ends |
| Processor.PeriodPass | src/processor.py:326-341 | after the loop over the cameras, every camera seen so far has its period set |
| Processor.PeriodsAllSet | src/processor.py:326-341 | once every camera is done, the array equals `PeriodRanges` of the records |
| Processor.PhotoProcessor.CalculatePeriodRanges | src/processor.py:312-341 | the array ends up as `PeriodRanges` of its old contents, the empty list included |
| Processor.SetFlag | src/processor.py:367-381 | writes one photo's flag and changes nothing else |
| Processor.FlagGroup | src/processor.py:365-381 | the group's photos get the flags of the rule, in sorted order; nothing else changes |
| Processor.CursorLoop | src/processor.py:370-381 | the photos after the first are flagged by the cursor rule; `last_independent_time` moves only on a 1 |
| Processor.FlagOwnGroup | src/processor.py:361-381 | flagging one group changes only that group's IndependentPhoto fields |
| Processor.OwnGroupFlagged | src/processor.py:361-381 | the group's flags, written over a copy whose only differences are flags, satisfy the rule |
| Processor.IndependentStep | src/processor.py:361-381 | after one more group, the groups of all keys handled so far are flagged by the rule |
| Processor.OtherGroupsKept | src/processor.py:361-381 | flagging one group leaves the groups flagged before it as they were |
| Processor.FlaggedElsewhereKept | src/processor.py:361-381 | flags written outside a group do not change that group's flags |
| Processor.IndependencePass | src/processor.py:361-381 | after the loop over the keys, only flags differ and every key's group is flagged |
| Processor.EveryGroupFlagged | src/processor.py:352-381 | flagging the groups of every key that occurs flags every group, since the others are empty |
| Processor.AbsentKeyEmptyGroup | src/processor.py:353-358 | a key no record carries has an empty group |
| Processor.PhotoProcessor.CalculateIndependentPhotos | src/processor.py:343-381 | only the IndependentPhoto fields change, and every (camera, species) group is flagged by the rule with a window of `time_interval` minutes |
| Processor.FileWithoutRecords | src/processor.py:64-77 | a file that yields no records leaves the collected records, and so the next file's fallback time, unchanged |
| Processor.FileWithRecords | src/processor.py:64-77 | after a file that yields records, the last collected record (`previous_records[-1]` for the next file) carries that file's resolved time |
| Processor.PhotoProcessor.CollectRecords | src/processor.py:64-77 | the collected records are those of each file in turn, each time resolved against the records collected before it; the warnings are those of the run |
| Processor.PhotoProcessor.ProcessDirectory | src/processor.py:38-88 | resets the state; an empty directory gives no records; the records are the collected ones, first given their periods and then flagged; `records` holds the result and the warnings are those of the files |
| Independence.LastTrue | src/processor.py:370-379 | the position of the last counted photo, which is the cursor, or -1 |
| Independence.Flags | src/processor.py:365-381 | one flag per photo, and the first photo always counts |
| Independence.FlagsPrefix | src/processor.py:372-381 | the flags of a prefix of the group are a prefix of the flags |
| Independence.FlagsStep | src/processor.py:372-381 | a later photo counts exactly when it is at least the window after the last counted photo before it |
| Independence.FlagRule | src/processor.py:365-381 | the rule stated photo by photo: the first counts, and photo i counts exactly when the window has passed since the last earlier photo that counted |
| Independence.LastTrueStep | src/processor.py:377-381 | the cursor moves to a photo exactly when that photo counts |
| Independence.CursorStep | src/processor.py:372-381 | one step of the cursor loop decides the photo's flag and the new cursor as the rule does |
| Independence.CountedPhotosSpaced | src/processor.py:372-381 | in a sorted group, any two counted photos are at least the window apart |
| Independence.UncountedPhotoCovered | src/processor.py:372-381 | an uncounted photo lies within the window of an earlier counted one |
| Independence.ZeroWindowCountsAll | src/processor.py:377 | the comparison is inclusive, so with a zero interval every photo counts |
| Grouping.Members | src/processor.py:354-358 | a group's positions are increasing, carry its key, and include every position with that key |
| Grouping.MembersStep | src/processor.py:319-323 | one more record appends its position to its own key's group only |
| Grouping.MembersAbsent | src/processor.py:321-322 | a key not seen yet has no positions |
| Grouping.AddToGroup | src/processor.py:356-358 | one step of the grouping loop keeps the dictionary equal to the groups of the records seen |
| Grouping.GroupedStep | src/processor.py:321-323 | the dictionary after a step differs only at the step's key |
| Grouping.GroupsStepMembers | src/processor.py:321-323 | the lists after a step are the groups of one more record |
| Grouping.NewKeyLast | src/processor.py:321-322 | a key seen for the first time comes after every key seen before, by first position |
| Grouping.GroupIndices | src/processor.py:353-358 | the dictionary's keys are those of the records, listed in order of first appearance; each list holds exactly its key's positions in list order and is non-empty |
| Grouping.Insert | src/processor.py:363 | insertion adds exactly one position |
| Grouping.SortByTime | src/processor.py:363 | sorting keeps the length |
| Grouping.SortPermutes | src/processor.py:363 | sorting is a permutation of the group |
| Grouping.InsertSorted | src/processor.py:363 | inserting a later position into a sorted list keeps it sorted, with list order among equal times |
| Grouping.SortIsStable | src/processor.py:363 | the sort orders by time and, since `list.sort` is stable, by list position among equal times |
| Grouping.SortedDistinct | src/processor.py:363 | a sorted group holds no position twice |
| Grouping.SortSameElements | src/processor.py:363 | the sorted group holds exactly the positions of the unsorted one |
| Grouping.SortedEnds | src/processor.py:331-332 | the first entry has the least time and the last the greatest |
| Grouping.DistinctSnoc | src/processor.py:321-322 | adding an unseen key keeps the keys distinct |
| DateTimes.SentinelValid | src/processor.py:143 | `datetime(2000, 1, 1)` is a valid datetime |
| DateTimes.BeforeIsEarlier | src/processor.py:363 | an earlier datetime lies earlier on the seconds axis |
| DateTimes.SecondsDecideOrder | src/processor.py:374-377 | on valid datetimes, the seconds axis decides `<` and `==` exactly as Python does |
| DateTimes.DaysBeforeYearStep | src/processor.py:374 | the days before year y+1 exceed those before y by the length of year y |
| DateTimes.DaysBeforeYearGrows | src/processor.py:374 | later years start later |
| DateTimes.DaysBeforeMonthOfYearEnd | src/processor.py:374 | the twelve months make up the year |
| DateTimes.DaysBeforeMonthGrows | src/processor.py:374 | later months start later |
| DateTimes.DaysWithinYear | src/processor.py:374 | a valid date's day of the year lies between 1 and the year's length |
| DateTimes.Field | src/processor.py:306 | an accepted `%m`/`%d`/`%H`/`%M`/`%S` field lies in its range and consumes at least one digit |
| DateTimes.DayField | src/processor.py:306 | `%d` reads a day in 1..31, including the space-padded form |
| DateTimes.SecondsField | src/processor.py:306 | the seconds read lie in 0..61 |
| DateTimes.Strptime | src/processor.py:306 | a datetime that `strptime` returns is valid |
| DateTimes.Format | src/processor.py:298-301 | the printed form has 19 characters, or 16 without seconds |
| DateTimes.FormatLayout | src/processor.py:298-301 | where each field of a printed datetime sits |
| DateTimes.StrptimeFormat | src/processor.py:306 | `strptime` reads back every datetime printed in the same format (whole minutes for the short formats) |
| DateTimes.StrptimeOtherWidth | src/processor.py:297-308 | a datetime printed with seconds is not read by the format without them, and one printed without seconds is not read by the format with them |
| DateTimes.Pad2Value | src/processor.py:298-301 | a two-digit field reads back as its number |
| DateTimes.Pad4Value | src/processor.py:298-301 | a four-digit year reads back as its number |
| ExifReader.SupportedByExtension | src/exif/exif_reader.py:22-32 | a file `dir/stem.ext` is supported exactly when its lowercased extension is one of the six image or five video extensions; the stem may itself hold dots (`IMG.0001.JPG`), and only needs one character that is not a dot |
| ExifReader.ExtensionOfName | src/exif/exif_reader.py:31 | the extension of `dir/stem.ext` is `.ext`, which starts at the last dot, even when the stem holds dots of its own |
| ExifReader.HiddenFileHasNoExtension | src/exif/exif_reader.py:31 | a name that is only a dot and an extension has no extension and is not supported |
| ExifReader.Lookup | src/exif/exif_reader.py:93-95 | a tag is found exactly when some entry has that key, and the value found is that entry's |
| ExifReader.FirstTagTime | src/exif/exif_reader.py:92-103 | a time found is valid |
| ExifReader.FirstTagTimeIsFirst | src/exif/exif_reader.py:92-101 | the first tag name whose value reads as `%Y:%m:%d %H:%M:%S` wins; absent or unreadable tags before it are skipped |
| ExifReader.FirstTagTimeNone | src/exif/exif_reader.py:92-103 | the result is None exactly when no tag reads |
| ExifReader.OriginalTagWins | src/exif/exif_reader.py:85-99 | a readable `EXIF DateTimeOriginal` in the first entry wins, whatever follows |
| ExifReader.UnreadableTagSkipped | src/exif/exif_reader.py:92-101 | an unreadable `EXIF DateTimeOriginal` hands over to `EXIF DateTimeDigitized` |
| ExifReader.Items | src/exif/exif_reader.py:141 | one item per comma-separated part |
| ExifReader.LabelledItemParts | src/exif/exif_reader.py:144-169 | an item of any of the three kinds splits into at least two '\|'-parts |
| ExifReader.SitePlot | src/exif/exif_reader.py:152-155 | a match gives a non-empty run of ASCII letters followed by a non-empty run of digits that is a prefix of the camera ID, and the digit run is maximal (`\d+` is greedy); there is no match exactly when no run of letters at the start is followed by a digit |
| ExifReader.SitePlotExamples | src/exif/exif_reader.py:151-155 | "JC38" and "JC38x" give JC/38; "38JC" gives no match |
| ExifReader.LastWhere | src/exif/exif_reader.py:143 | the position found holds an item that passes the test |
| ExifReader.LastWhereIsLast | src/exif/exif_reader.py:143 | no later item passes, and nothing is found exactly when no item passes |
| ExifReader.LastWhereSnoc | src/exif/exif_reader.py:143 | one more item that passes becomes the last; one that does not leaves it unchanged |
| ExifReader.AfterItemsSnoc | src/exif/exif_reader.py:143-177 | the state after one more item is the old state changed by that item alone |
| ExifReader.ParseItem | src/exif/exif_reader.py:144-177 | one item leaves the fields as the last-writer reading `AfterItems` of a one-item list gives them; an item with none of the three labels changes nothing |
| ExifReader.SingleItem | src/exif/exif_reader.py:143-177 | for a single item, the last-writer reading is that item's own effect |
| ExifReader.SiteItemOf | src/exif/exif_reader.py:144-155 | `1_Site ID\|id` sets Camera_ID to the id and, when it matches, Site and Plot_ID to its letters and digits |
| ExifReader.AnimalItemOf | src/exif/exif_reader.py:157-162 | `2_Animal\|group\|species` is an animal item and sets Group and Species, for any group and species without '\|'; the group must only not end in "1_Site ID" or "1_SiteID", which would make the item pass the site test first |
| ExifReader.NumberOfCount | src/exif/exif_reader.py:166-175 | `3_Number\|>n` is a number item and reads as n: the leading '>' is dropped before `int()` |
| ExifReader.NumberOfMoreThan | src/exif/exif_reader.py:166-175 | `3_Number\|>digits` reads as what `int()` makes of the digits |
| ExifReader.NumberOfUnreadable | src/exif/exif_reader.py:166-177 | `3_Number\|w` with any value w without '\|' that `int()` cannot read is a number item and gives Number 1 |
| ExifReader.ItemsOfThree | src/exif/exif_reader.py:141 | three trimmed comma-free items joined by ", " split back into those three items |
| ExifReader.SubjectOfThree | src/exif/exif_reader.py:133-177 | a site item, an animal item and a number item, joined by ", ", set Camera_ID, Site, Plot_ID, Group, Species and Number from their values; the only condition on the group besides having no ',' or '\|' is that it does not end in a site label's text |
| ExifReader.HierarchicalSubjectExample | src/exif/exif_reader.py:133-177 | "1_Site ID\|JC38, 2_Animal\|Mammal\|Muntjac, 3_Number\|>2" gives Camera_ID JC38, Site JC, Plot_ID 38, Group Mammal, Species Muntjac and Number 2 |
| ExifReader.ParseHierarchicalSubject | src/exif/exif_reader.py:133-177 | each field ends with what the last item that writes it wrote, and keeps its old value when no item writes it |
| ExifReader.ExtractXmpTags | src/exif/exif_reader.py:118-131 | the last subject-like key of each kind wins; the hierarchical subject is parsed only when it is non-empty |
| ExifReader.ReadExif | src/exif/exif_reader.py:44-80 | a missing file gives `{}`; otherwise the default dictionary (Number 1), with both date fields from `_extract_datetime` and the XMP fields when the tags were read; the reader never sets `has_multiple_animals` |
| OcrDetector.OneOrTwoDigits | src/ocr/ocr_detector.py:161-165 | a `\d{1,2}` group is one or two digits followed by what the pattern demands; it takes one digit only when two digits cannot be followed as demanded (greedy, with backtracking), and None exactly when neither one nor two digits can |
| OcrDetector.DateAt | src/ocr/ocr_detector.py:161-165 | a date match spans at least seven characters and is followed by what the pattern demands |
| OcrDetector.Leftmost | src/ocr/ocr_detector.py:169 | the first success at or after a position: earlier positions fail, and nothing is found exactly when all fail |
| OcrDetector.SearchFrom | src/ocr/ocr_detector.py:169 | `re.search` finds the leftmost position where the pattern matches, and nothing exactly when it matches nowhere |
| OcrDetector.ParseDatetimeFromText | src/ocr/ocr_detector.py:148-191 | a result is valid and in 1990..2100 and is the accepted leftmost match of one of the patterns; an accepted full match always wins, and otherwise an accepted match without seconds wins over the date alone; the result is None exactly when no pattern's leftmost match is accepted |
| OcrDetector.DetectDatetimeFromImage | src/ocr/ocr_detector.py:63-86 | without an engine, or after an engine error, the answer is None; any answer is valid and in the year window |
| OcrDetector.StampReading | src/ocr/ocr_detector.py:168-189 | the most precise acceptable reading of a stamp keeps its date, equals the stamp when the stamp is acceptable, and is None exactly when even its date is not acceptable |
| OcrDetector.SearchSkips | src/ocr/ocr_detector.py:169 | the search skips positions where nothing matches |
| OcrDetector.LeftmostAt | src/ocr/ocr_detector.py:169 | `re.search` answers with the first matching position at or after the start: every position before it fails |
| OcrDetector.StampLayout | src/ocr/ocr_detector.py:161 | where each field of a printed stamp sits |
| OcrDetector.StampDate | src/ocr/ocr_detector.py:161-165 | the date groups read from a stamp are its year, month and day |
| OcrDetector.StampTime | src/ocr/ocr_detector.py:161-163 | the time groups read from a stamp are its hour, minute and (for the full pattern) second |
| OcrDetector.MatchesStamp | src/ocr/ocr_detector.py:159-181 | at a stamp, the full pattern reads it all, the second pattern reads it with seconds 0, and the date pattern reads its date at midnight |
| OcrDetector.NoMatchInPrefix | src/ocr/ocr_detector.py:161-165 | no match starts in text without four consecutive digits that does not end in a digit |
| OcrDetector.FindsStamp | src/ocr/ocr_detector.py:169 | the leftmost match is the stamp when the text before it cannot match |
| OcrDetector.ReadsStampInText | src/ocr/ocr_detector.py:148-191 | a stamp in free text reads as its most precise acceptable reading, so an impossible time or a year outside the window hands over to the less specific patterns |
| OcrDetector.ReadingOfLeftmostStamp | src/ocr/ocr_detector.py:168-191 | when all three leftmost matches are the stamp's, the text reads as the stamp does |
| OcrDetector.ReadsValidStamp | src/ocr/ocr_detector.py:148-191 | a valid stamp in the window, with either separator in either place, is read back exactly |
| OcrDetector.ReadsUnpaddedExample | src/ocr/ocr_detector.py:155-185 | "2020/3/15 15:38:10", with a one-digit month, reads as 2020-03-15 15:38:10 |
| OcrDetector.ReadsFullMatchAtStart | src/ocr/ocr_detector.py:159-185 | a text where the full pattern matches at its start, with a datetime in the year window, reads as that datetime |
| OcrDetector.ReadsCameraOverlay | src/ocr/ocr_detector.py:153-185 | "Cam 12 2021-07-04 18:22:01 ok" reads as 2021-07-04 18:22:01 |
| OcrDetector.ReadsDateOfImpossibleTime | src/ocr/ocr_detector.py:181-189 | "2021-07-04 25:00:00" reads as 2021-07-04 00:00:00 through the date-only pattern |
| OcrDetector.RejectsYearOutsideWindow | src/ocr/ocr_detector.py:183-185 | "1899-05-01 10:00:00" reads as nothing |
| CsvReference.LastColumn | src/database/csv_excel_writer.py:125-130 | a column found passes its name test |
| CsvReference.LastColumnIsLast | src/database/csv_excel_writer.py:125-130 | no later column passes, and none is found exactly when no column passes |
| CsvReference.Entries | src/database/csv_excel_writer.py:137-142 | no key is the empty filename |
| CsvReference.EntriesKeys | src/database/csv_excel_writer.py:137-142 | the keys are exactly the filenames of kept rows |
| CsvReference.EntriesLastWins | src/database/csv_excel_writer.py:137-142 | each filename maps to the datetime of the last kept row that names it |
| CsvReference.LastKeptExists | src/database/csv_excel_writer.py:137-142 | every key that a kept row names has a last such row |
| CsvReference.EntriesMeaning | src/database/csv_excel_writer.py:137-142 | both facts above, for every key |
| CsvReference.CsvDatetimes | src/database/csv_excel_writer.py:105-149 | `{}` when the file is missing or unreadable or a column is missing; otherwise no key is empty and no value is empty or "nan" |
| CsvReference.ReadCsvDatetime | src/database/csv_excel_writer.py:105-149 | the keys are exactly the filenames of kept rows under the chosen columns, each mapped to its last kept row's datetime |
| CsvReference.OneColumnForBoth | src/database/csv_excel_writer.py:125-130 | a column named "Filename_DateTime" is both the filename and the datetime column |
| Strings.LowerCaseless | src/exif/exif_reader.py:119 | `lower()` keeps the length, leaves no A-Z, and changes a character only by mapping A-Z to a-z or the Kelvin sign to 'k' |
| Strings.LowerIdempotent | src/exif/exif_reader.py:31 | lowering twice is lowering once |
| Strings.ContainsIffOccurs | src/exif/exif_reader.py:144 | `sub in s` holds exactly when `sub` occurs at some position |
| Strings.Strip | src/processor.py:289 | the result has no whitespace at either end and occurs in the input at a place with only whitespace before and after it |
| Strings.StripSpacePrefix | src/processor.py:289 | a leading space does not change the result |
| Strings.StripUnchanged | src/processor.py:289 | a string with no whitespace at either end is its own strip |
| Strings.Split | src/exif/exif_reader.py:141 | at least one part, none holding the separator |
| Strings.SplitCons | src/exif/exif_reader.py:141 | a first part without the separator is split off whole, and the rest splits on its own |
| Strings.SplitJoin | src/exif/exif_reader.py:141 | joining the parts with the separator gives back the string |
| Strings.SplitHasTwoParts | src/exif/exif_reader.py:146-147 | a string holding the separator has two parts or more |
| Strings.NatToStringValue | src/processor.py:151 | `str(n)` spells n |
| Strings.ParseIntOfNatToString | src/exif/exif_reader.py:175 | `int(str(n)) == n` |
| Strings.RFind | src/exif/exif_reader.py:31 | the last index of the character, or -1 |
| Strings.Basename | src/processor.py:129 | the base name is a suffix without '/' |
| Strings.BasenameOfJoin | src/processor.py:129 | the base name of `dir/name` is `name` |

## Left out

- The OCR engines (PaddleOCR, pytesseract), their construction and switching, and the text they recognise. What they recognise is an input (`OcrReading`), and `OcrReading.EngineRaised` covers every engine error.
- `ocr_engine`, the second constructor parameter of `PhotoProcessor`. It only selects the OCR engine, which is an input here.
- The reading of EXIF bytes by `exifread`. The tags are an input: keys in dictionary order, each with the `str()` of its value. A tag dictionary has distinct keys, and `Lookup` takes the first entry for a key.
- File existence and `os.walk`/`scan_directory`. `ReadExif` takes a `fileExists` flag. `ProcessDirectory` takes each scanned file with its already-read EXIF dictionary (`FileInput.exif`) and its OCR reading; `ReadExif` is not composed into it, so the tags-to-dictionary step is proved on its own.
- `_find_csv_datetime_reference`, which depends on `os.path.exists` and on `os.listdir` order. The map it returns is an input of `ProcessDirectory`.
- The pandas CSV parser and its type inference. `CsvFile` gives the `str()` of each cell as pandas loaded it, and a missing cell renders as "nan".
- Logging. Log calls have no effect in the model; only the `warnings` list is observable.
- `get_warnings`: it returns the `warnings` field, which the model exposes directly as `PhotoProcessor.warnings`.
- The "Date" and "Time" keys of a record. They always hold the same value as "DateTimeOriginal", so `Record` does not repeat them.
- An animal entry whose key holds `None`. It is not told apart from a missing key, so `get` with a default gives the default for both.
- Unicode beyond ASCII. `lower()` maps A-Z and the Kelvin sign only. `\s` and `strip()` cover the ASCII whitespace, the separators \x1c-\x1f, \x85 and \xa0, but not the other Unicode spaces (U+1680, U+2000-U+200A, U+2028, U+2029, U+202F, U+205F, U+3000). `\d` and `int()` accept ASCII digits only, so non-ASCII digits in the inputs are outside the model.
- Strings.ParseInt: accepts a digit string of any length. Since Python 3.11, `int()` raises `ValueError` on a decimal string of more than 4300 digits, so such a count gives Number 1 there; the model reads it as its value.
- Windows path separators. `os.path.basename` and `splitext` are modelled for '/'.
- The UI, the CLI, the Access/SQLite/Excel writers, the logger and the configuration, which are not part of this model.
