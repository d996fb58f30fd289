/**
 * The EXIF reader: which files are media files, the capture time among the
 * EXIF date tags, and the XMP hierarchical-subject tag parsed into camera,
 * site, plot, group, species and count.
 *
 * The tags that `exifread` returns are an input: their keys in dictionary
 * order, each with the `str()` of its value.
 */
module ExifReader {
  import opened Wrappers
  import opened Strings
  import opened DateTimes

  /** The tag dictionary, in its iteration order. Keys are distinct in a dictionary. */
  type Tags = seq<(string, string)>

  /** An entry of a caller-supplied `multiple_animals` list; `None` is a missing key. */
  datatype Animal = Animal(group: Option<string>, species: Option<string>, number: Option<int>)

  /**
   * The dictionary `read_exif` returns, through the keys the rest of the
   * program reads. `number` is what `get("Number", 1)` yields,
   * `hasMultipleAnimals` the truth of `get("has_multiple_animals")` and
   * `multipleAnimals` what `get("multiple_animals", [])` yields.
   */
  datatype ExifData = ExifData(
    sourceFile: Option<string>, filePath: Option<string>,
    dateTimeOriginal: Option<DateTime>, createDate: Option<DateTime>,
    subject: Option<string>, hierarchicalSubject: Option<string>,
    cameraId: Option<string>, site: Option<string>, plotId: Option<string>,
    group: Option<string>, species: Option<string>, number: int,
    hasMultipleAnimals: bool, multipleAnimals: seq<Animal>)

  /** The empty dictionary `{}`: every `get` falls back to its default. */
  const NoExif := ExifData(None, None, None, None, None, None, None, None, None, None, None, 1, false, [])

  /** The dictionary `read_exif` starts from for a file that exists. */
  function DefaultExif(path: string): ExifData
  {
    ExifData(Some(Basename(path)), Some(path), None, None, None, None, None, None, None, None, None, 1, false, [])
  }

  // ---------------------------------------------------------------------
  // is_supported_file

  const ImageExtensions: set<string> := {".jpg", ".jpeg", ".png", ".tif", ".tiff", ".bmp"}
  const VideoExtensions: set<string> := {".avi", ".mov", ".mp4", ".mpg", ".mpeg"}

  /**
   * `os.path.splitext(path)[1]`: from the last '.' of the last path
   * component, unless only dots precede it in that component.
   */
  function Extension(path: string): string
  {
    var sepIndex := RFind(path, '/');
    var dotIndex := RFind(path, '.');
    if dotIndex > sepIndex && exists k :: sepIndex < k < dotIndex && path[k] != '.'
    then path[dotIndex..]
    else ""
  }

  /** `is_supported_file`: the lowercased extension is an image or a video extension. */
  predicate IsSupportedFile(path: string)
  {
    var ext := Lower(Extension(path));
    ext in ImageExtensions || ext in VideoExtensions
  }

  /**
   * A file `stem + ext` in any directory is supported exactly when its
   * extension, lowercased, is in one of the lists. The stem may hold dots
   * (`IMG.0001.JPG`): the extension starts at the last one. It must hold
   * something other than dots, or the name counts as hidden.
   */
  lemma SupportedByExtension(dir: string, stem: string, ext: string)
    requires '/' !in stem && exists k :: 0 <= k < |stem| && stem[k] != '.'
    requires |ext| > 0 && ext[0] == '.' && '/' !in ext && '.' !in ext[1..]
    ensures IsSupportedFile(dir + "/" + stem + ext) <==> Lower(ext) in ImageExtensions + VideoExtensions
  {
    ExtensionOfName(dir, stem, ext);
  }

  /** `splitext` cuts at the last dot of the name, whatever dots the stem holds. */
  lemma ExtensionOfName(dir: string, stem: string, ext: string)
    requires '/' !in stem && exists k :: 0 <= k < |stem| && stem[k] != '.'
    requires |ext| > 0 && ext[0] == '.' && '/' !in ext && '.' !in ext[1..]
    ensures Extension(dir + "/" + stem + ext) == ext
  {
    var p := dir + "/" + stem + ext;
    var d := |dir| + 1 + |stem|;
    var k :| 0 <= k < |stem| && stem[k] != '.';
    NameLayout(dir, stem, ext);
    assert RFind(p, '.') == d;
    assert RFind(p, '/') == |dir|;
    assert p[|dir| + 1 + k] == stem[k];
  }

  lemma NameLayout(dir: string, stem: string, ext: string)
    requires '/' !in stem
    requires |ext| > 0 && ext[0] == '.' && '/' !in ext && '.' !in ext[1..]
    ensures var p := dir + "/" + stem + ext; var d := |dir| + 1 + |stem|;
      p[|dir|] == '/' && p[d] == '.' && p[d..] == ext
      && (forall j :: 0 <= j < |stem| ==> p[|dir| + 1 + j] == stem[j])
      && (forall j :: |dir| < j < |p| ==> p[j] != '/')
      && (forall j :: d < j < |p| ==> p[j] != '.')
  {
    var p := dir + "/" + stem + ext;
    var d := |dir| + 1 + |stem|;
    assert forall j :: d < j < |p| ==> p[j] == ext[1..][j - d - 1];
    assert forall j :: |dir| < j < |p| ==> p[j] == (stem + ext)[j - |dir| - 1];
    assert p[d..] == ext;
  }

  /** A name made only of a dot and an extension (a hidden file) has no extension. */
  lemma HiddenFileHasNoExtension(dir: string, ext: string)
    requires |ext| > 0 && ext[0] == '.' && '/' !in ext && '.' !in ext[1..]
    ensures Extension(dir + "/" + ext) == ""
    ensures !IsSupportedFile(dir + "/" + ext)
  {
    var p := dir + "/" + ext;
    assert p[|dir| + 1] == '.';
    assert forall j :: |dir| + 1 < j < |p| ==> p[j] == ext[1..][j - |dir| - 2];
    assert RFind(p, '.') == |dir| + 1;
    assert p[|dir|] == '/';
    assert forall j :: |dir| < j < |p| ==> p[j] == ext[j - |dir| - 1];
    assert RFind(p, '/') == |dir|;
    assert Lower("") == "";
  }

  // ---------------------------------------------------------------------
  // _extract_datetime

  /** `tags[key]`, for the first entry with that key. */
  function Lookup(tags: Tags, key: string): (r: Option<string>)
    ensures r.Some? <==> exists i :: 0 <= i < |tags| && tags[i].0 == key
    ensures r.Some? ==> exists i :: 0 <= i < |tags| && tags[i] == (key, r.value)
  {
    if |tags| == 0 then None
    else if tags[0].0 == key then Some(tags[0].1)
    else
      var r := Lookup(tags[1..], key);
      assert forall i :: 1 <= i < |tags| ==> tags[i] == tags[1..][i - 1];
      r
  }

  const DatetimeTagNames: seq<string> := ["EXIF DateTimeOriginal", "EXIF DateTimeDigitized", "Image DateTime", "EXIF DateTime"]

  /** The value of tag `name`, read as `%Y:%m:%d %H:%M:%S`, or `None` if absent or unreadable. */
  function TagTime(tags: Tags, name: string): Option<DateTime>
  {
    match Lookup(tags, name)
    case None => None
    case Some(v) => Strptime(v, ':', true)
  }

  /**
   * The first of `names` whose tag is present and parses; a tag that is
   * absent or does not parse is skipped.
   */
  function FirstTagTime(tags: Tags, names: seq<string>): (r: Option<DateTime>)
    ensures r.Some? ==> Valid(r.value)
  {
    if |names| == 0 then None
    else if TagTime(tags, names[0]).Some? then TagTime(tags, names[0])
    else FirstTagTime(tags, names[1..])
  }

  /** `FirstTagTime` is the time of the first name whose tag reads. */
  lemma {:induction false} FirstTagTimeIsFirst(tags: Tags, names: seq<string>, k: nat)
    requires k < |names| && TagTime(tags, names[k]).Some?
    requires forall j :: 0 <= j < k ==> TagTime(tags, names[j]).None?
    ensures FirstTagTime(tags, names) == TagTime(tags, names[k])
  {
    if 0 < k {
      var rest := names[1..];
      assert rest[k - 1] == names[k];
      assert forall j :: 0 <= j < k - 1 ==> rest[j] == names[j + 1];
      FirstTagTimeIsFirst(tags, rest, k - 1);
    }
  }

  /** `FirstTagTime` is `None` exactly when no tag of `names` reads. */
  lemma {:induction false} FirstTagTimeNone(tags: Tags, names: seq<string>)
    ensures FirstTagTime(tags, names).None? <==> forall k :: 0 <= k < |names| ==> TagTime(tags, names[k]).None?
  {
    if |names| > 0 && TagTime(tags, names[0]).None? {
      var rest := names[1..];
      FirstTagTimeNone(tags, rest);
      assert forall k :: 1 <= k < |names| ==> rest[k - 1] == names[k];
    }
  }

  /** `_extract_datetime`: the four date tags, tried in order. */
  function ExtractDatetime(tags: Tags): Option<DateTime>
  {
    FirstTagTime(tags, DatetimeTagNames)
  }

  /**
   * A readable `EXIF DateTimeOriginal` wins over every other date tag:
   * an EXIF-formatted timestamp in the first entry comes back unchanged.
   */
  lemma OriginalTagWins(dt: DateTime, rest: Tags)
    requires Valid(dt)
    ensures ExtractDatetime([("EXIF DateTimeOriginal", Format(dt, ':', true))] + rest) == Some(dt)
  {
    StrptimeFormat(dt, ':', true);
  }

  /** An unreadable `EXIF DateTimeOriginal` is skipped in favour of the next date tag. */
  lemma UnreadableTagSkipped(v: string, dt: DateTime)
    requires Valid(dt) && Strptime(v, ':', true).None?
    ensures ExtractDatetime([("EXIF DateTimeOriginal", v), ("EXIF DateTimeDigitized", Format(dt, ':', true))]) == Some(dt)
  {
    StrptimeFormat(dt, ':', true);
    var tags := [("EXIF DateTimeOriginal", v), ("EXIF DateTimeDigitized", Format(dt, ':', true))];
    assert Lookup(tags, "EXIF DateTimeOriginal") == Some(v);
    assert TagTime(tags, "EXIF DateTimeOriginal").None?;
    assert tags[1..][0].0 == "EXIF DateTimeDigitized";
    assert Lookup(tags, "EXIF DateTimeDigitized") == Some(Format(dt, ':', true));
    assert TagTime(tags, "EXIF DateTimeDigitized") == Some(dt);
    var names := DatetimeTagNames;
    assert FirstTagTime(tags, names[1..]) == Some(dt);
    assert FirstTagTime(tags, names) == FirstTagTime(tags, names[1..]);
  }

  // ---------------------------------------------------------------------
  // _parse_hierarchical_subject

  /** The items of a hierarchical subject: split on ',' and stripped. */
  function Items(hs: string): (items: seq<string>)
    ensures |items| == |Split(hs, ',')|
  {
    var parts := Split(hs, ',');
    seq(|parts|, i requires 0 <= i < |parts| => Strip(parts[i]))
  }

  /** The branch an item takes; the tests are case-sensitive substring tests, tried in this order. */
  predicate IsSiteItem(item: string) { Contains(item, "1_Site ID|") || Contains(item, "1_SiteID|") }
  predicate IsAnimalItem(item: string) { !IsSiteItem(item) && Contains(item, "2_Animal|") }
  predicate IsNumberItem(item: string)
  {
    !IsSiteItem(item) && !Contains(item, "2_Animal|") && Contains(item, "3_Number|")
  }

  /** An item of any of the three kinds holds a '|' and so splits into two parts or more. */
  lemma LabelledItemParts(item: string)
    requires IsSiteItem(item) || IsAnimalItem(item) || IsNumberItem(item)
    ensures |Split(item, '|')| >= 2
  {
    if Contains(item, "1_Site ID|") {
      ContainsChar(item, "1_Site ID|", 9);
    } else if Contains(item, "1_SiteID|") {
      ContainsChar(item, "1_SiteID|", 8);
    } else if Contains(item, "2_Animal|") {
      ContainsChar(item, "2_Animal|", 8);
    } else {
      ContainsChar(item, "3_Number|", 8);
    }
    SplitHasTwoParts(item, '|');
  }

  /** The end of the run of ASCII letters that starts at `i`. */
  function LetterRunEnd(s: string, i: nat): (j: nat)
    requires i <= |s|
    ensures i <= j <= |s|
    ensures forall k :: i <= k < j ==> IsAsciiLetter(s[k])
    ensures j == |s| || !IsAsciiLetter(s[j])
    decreases |s| - i
  {
    if i < |s| && IsAsciiLetter(s[i]) then LetterRunEnd(s, i + 1) else i
  }

  /**
   * `re.match(r'([A-Za-z]+)(\d+)', cameraId)`: anchored at the start only;
   * the two groups are the leading letters and the digits right after them.
   */
  function SitePlot(cameraId: string): (r: Option<(string, string)>)
    ensures r.Some? ==> |r.value.0| > 0 && |r.value.1| > 0 && AllLetters(r.value.0) && AllDigits(r.value.1)
                        && IsPrefix(r.value.0 + r.value.1, cameraId)
    ensures r.Some? ==> var e := |r.value.0| + |r.value.1|; e == |cameraId| || !IsDigit(cameraId[e])
    ensures r.None? ==> forall i :: 0 < i < |cameraId| && AllLetters(cameraId[..i]) ==> !IsDigit(cameraId[i])
  {
    var l := LetterRunEnd(cameraId, 0);
    if 0 < l < |cameraId| && IsDigit(cameraId[l]) then
      var e := DigitRunEnd(cameraId, l);
      assert cameraId[..l] + cameraId[l..e] == cameraId[..e];
      assert AllLetters(cameraId[..l]);
      Some((cameraId[..l], cameraId[l..e]))
    else
      None
  }

  /** Every character is an ASCII letter. */
  predicate AllLetters(s: string) { forall k :: 0 <= k < |s| ==> IsAsciiLetter(s[k]) }

  lemma SitePlotExamples()
    ensures SitePlot("JC38") == Some(("JC", "38"))
    ensures SitePlot("JC38x") == Some(("JC", "38"))
    ensures SitePlot("38JC") == None
  {
    var s := "JC38";
    assert LetterRunEnd(s, 2) == 2;
    assert LetterRunEnd(s, 1) == 2;
    assert LetterRunEnd(s, 0) == 2;
    assert DigitRunEnd(s, 4) == 4;
    assert DigitRunEnd(s, 3) == 4;
    assert DigitRunEnd(s, 2) == 4;
    assert s[..2] == "JC" && s[2..4] == "38";
    var t := "JC38x";
    assert LetterRunEnd(t, 2) == 2;
    assert LetterRunEnd(t, 1) == 2;
    assert LetterRunEnd(t, 0) == 2;
    assert DigitRunEnd(t, 4) == 4;
    assert DigitRunEnd(t, 3) == 4;
    assert DigitRunEnd(t, 2) == 4;
    assert t[..2] == "JC" && t[2..4] == "38";
    assert LetterRunEnd("38JC", 0) == 0;
  }

  /** The camera id of a site item: its second '|'-part, stripped. */
  function CameraIdOf(item: string): string
    requires IsSiteItem(item)
  {
    LabelledItemParts(item);
    Strip(Split(item, '|')[1])
  }

  predicate SetsSitePlot(item: string) { IsSiteItem(item) && SitePlot(CameraIdOf(item)).Some? }

  predicate SetsGroup(item: string) { IsAnimalItem(item) && |Split(item, '|')| >= 3 }

  /** The species of an animal item: the third part when there are three or more, else the second. */
  function SpeciesOf(item: string): string
    requires IsAnimalItem(item)
  {
    LabelledItemParts(item);
    var parts := Split(item, '|');
    if |parts| >= 3 then Strip(parts[2]) else Strip(parts[1])
  }

  function GroupOf(item: string): string
    requires SetsGroup(item)
  {
    Strip(Split(item, '|')[1])
  }

  /** The count of a number item: its second part, one leading '>' dropped, read by `int()`, else 1. */
  function NumberOf(item: string): int
    requires IsNumberItem(item)
  {
    LabelledItemParts(item);
    var n := Strip(Split(item, '|')[1]);
    var digits := if |n| > 0 && n[0] == '>' then n[1..] else n;
    ParseInt(digits).GetOr(1)
  }

  /** A label holding a character the text lacks does not occur in it. */
  lemma LacksLabel(s: string, tag: string, k: nat)
    requires k < |tag| && tag[k] !in s
    ensures !Contains(s, tag)
  {
    if Contains(s, tag) {
      ContainsChar(s, tag, k);
    }
  }

  /** "3_Number|" followed by a value without '|' is a number item with that value as its second part. */
  lemma NumberItemOf(w: string)
    requires '|' !in w
    ensures IsNumberItem("3_Number|" + w)
    ensures Split("3_Number|" + w, '|') == ["3_Number", w]
  {
    var item := "3_Number|" + w;
    NumberItemLabels(item, w);
    NumberItemSplit(item, w);
  }

  lemma NumberItemSplit(item: string, w: string)
    requires item == "3_Number|" + w && '|' !in w
    ensures Split(item, '|') == ["3_Number", w]
  {
    assert item == "3_Number" + "|" + w;
    LabelSplit("3_Number", w);
  }

  /** A label without '|', then '|', then a value without '|' splits into the label and the value. */
  lemma LabelSplit(tag: string, w: string)
    requires '|' !in tag && '|' !in w
    ensures Split(tag + "|" + w, '|') == [tag, w]
  {
    SplitPair(tag, '|', w);
    assert tag + ['|'] + w == tag + "|" + w;
  }

  /**
   * The only '|' of a number item is the one after its label, so no other
   * label (each ends in '|') fits anywhere but at the start, where the
   * item's first character rules it out.
   */
  lemma NumberItemLabels(item: string, w: string)
    requires item == "3_Number|" + w && '|' !in w
    ensures IsNumberItem(item)
  {
    assert forall k :: 9 <= k < |item| ==> item[k] == w[k - 9];
    assert item[0] == '3';
    EndsOff(item, "1_Site ID|");
    EndsOff(item, "1_SiteID|");
    EndsOff(item, "2_Animal|");
    assert item[0..9] == "3_Number|";
    ContainsAt(item, "3_Number|", 0);
  }

  /** A label whose first or last character is off at every position does not occur. */
  lemma EndsOff(s: string, tag: string)
    requires |tag| > 0
    requires forall i :: 0 <= i && i + |tag| <= |s| ==> s[i] != tag[0] || s[i + |tag| - 1] != tag[|tag| - 1]
    ensures !Contains(s, tag)
  {
    ContainsIffOccurs(s, tag);
    forall i | 0 <= i && i + |tag| <= |s|
      ensures !OccursAt(s, tag, i)
    {
      assert s[i..i + |tag|][0] == s[i];
      assert s[i..i + |tag|][|tag| - 1] == s[i + |tag| - 1];
    }
  }

  /** A count written as `>n` (the form "more than n" takes) reads as n. */
  lemma NumberOfCount(n: nat)
    ensures IsNumberItem("3_Number|>" + NatToString(n))
    ensures NumberOf("3_Number|>" + NatToString(n)) == n
  {
    var digits := NatToString(n);
    assert forall k :: 0 <= k < |digits| ==> IsDigit(digits[k]);
    assert "3_Number|>" + digits == "3_Number|" + (">" + digits);
    NumberOfMoreThan(">" + digits, digits);
    ParseIntOfNatToString(n);
  }

  /** "3_Number|>" followed by digits reads as what `int()` makes of the digits. */
  lemma NumberOfMoreThan(w: string, digits: string)
    requires w == ">" + digits && AllDigits(digits)
    ensures IsNumberItem("3_Number|" + w) && NumberOf("3_Number|" + w) == ParseInt(digits).GetOr(1)
  {
    assert forall k :: 0 <= k < |w| ==> w[k] == '>' || IsDigit(w[k]);
    NumberItemOf(w);
    StripUnchanged(w);
    assert w[1..] == digits;
  }

  /** A count that `int()` cannot read falls back to 1. */
  lemma NumberOfUnreadable(w: string)
    requires '|' !in w
    requires |w| > 0 && w[0] != '>' && !IsSpace(w[0]) && !IsSpace(w[|w| - 1])
    requires ParseInt(w).None?
    ensures IsNumberItem("3_Number|" + w) && NumberOf("3_Number|" + w) == 1
  {
    NumberItemOf(w);
    StripUnchanged(w);
  }

  /** The position of the last item with property `p`. */
  function LastWhere(items: seq<string>, p: string -> bool): (r: Option<nat>)
    ensures r.Some? ==> r.value < |items| && p(items[r.value])
  {
    if |items| == 0 then None
    else if p(items[|items| - 1]) then Some(|items| - 1)
    else LastWhere(items[..|items| - 1], p)
  }

  /** `LastWhere` finds the last item that passes, and nothing when none does. */
  lemma {:induction false} LastWhereIsLast(items: seq<string>, p: string -> bool)
    ensures var r := LastWhere(items, p);
      (r.Some? ==> forall j :: r.value < j < |items| ==> !p(items[j]))
      && (r.None? <==> forall j :: 0 <= j < |items| ==> !p(items[j]))
  {
    if |items| > 0 && !p(items[|items| - 1]) {
      LastWhereIsLast(items[..|items| - 1], p);
    }
  }

  lemma LastWhereSnoc(items: seq<string>, x: string, p: string -> bool)
    ensures LastWhere(items + [x], p) == if p(x) then Some(|items|) else LastWhere(items, p)
    ensures LastWhere(items + [x], p).Some? ==>
              (items + [x])[LastWhere(items + [x], p).value] == if p(x) then x else items[LastWhere(items, p).value]
  {
    assert (items + [x])[..|items|] == items;
  }

  /**
   * What the items of a hierarchical subject leave in the dictionary: each
   * field holds what the LAST item that writes it wrote, and keeps its old
   * value when no item writes it. Site and plot are written only by site
   * items whose camera id matches the letters-then-digits pattern.
   */
  function AfterItems(items: seq<string>, d: ExifData): ExifData
  {
    var cam := LastWhere(items, IsSiteItem);
    var sp := LastWhere(items, SetsSitePlot);
    var grp := LastWhere(items, SetsGroup);
    var spc := LastWhere(items, IsAnimalItem);
    var num := LastWhere(items, IsNumberItem);
    d.(cameraId := if cam.Some? then Some(CameraIdOf(items[cam.value])) else d.cameraId,
       site := if sp.Some? then Some(SitePlot(CameraIdOf(items[sp.value])).value.0) else d.site,
       plotId := if sp.Some? then Some(SitePlot(CameraIdOf(items[sp.value])).value.1) else d.plotId,
       group := if grp.Some? then Some(GroupOf(items[grp.value])) else d.group,
       species := if spc.Some? then Some(SpeciesOf(items[spc.value])) else d.species,
       number := if num.Some? then NumberOf(items[num.value]) else d.number)
  }

  /** The change one item makes. */
  ghost function ApplyItem(d: ExifData, item: string): ExifData
  {
    if IsSiteItem(item) then
      var cameraId := CameraIdOf(item);
      var m := SitePlot(cameraId);
      if m.Some? then d.(cameraId := Some(cameraId), site := Some(m.value.0), plotId := Some(m.value.1))
      else d.(cameraId := Some(cameraId))
    else if IsAnimalItem(item) then
      if SetsGroup(item) then d.(group := Some(GroupOf(item)), species := Some(SpeciesOf(item)))
      else d.(species := Some(SpeciesOf(item)))
    else if IsNumberItem(item) then d.(number := NumberOf(item))
    else d
  }

  lemma AfterItemsSnoc(items: seq<string>, item: string, d: ExifData)
    ensures AfterItems(items + [item], d) == ApplyItem(AfterItems(items, d), item)
  {
    LastWhereSnoc(items, item, IsSiteItem);
    LastWhereSnoc(items, item, SetsSitePlot);
    LastWhereSnoc(items, item, SetsGroup);
    LastWhereSnoc(items, item, IsAnimalItem);
    LastWhereSnoc(items, item, IsNumberItem);
  }

  /** One more item, applied to what the items before it left, gives what the longer prefix leaves. */
  lemma AfterOneMore(items: seq<string>, k: nat, d: ExifData, r: ExifData, next: ExifData)
    requires k < |items| && r == AfterItems(items[..k], d) && next == AfterItems([items[k]], r)
    ensures next == AfterItems(items[..k + 1], d)
  {
    assert items[..k + 1] == items[..k] + [items[k]];
    AfterItemsSnoc(items[..k], items[k], d);
    SingleItem(items[k], r);
  }

  /** A single item changes the dictionary as `ApplyItem` says. */
  lemma SingleItem(item: string, d: ExifData)
    ensures AfterItems([item], d) == ApplyItem(d, item)
  {
    AfterItemsSnoc([], item, d);
    assert [] + [item] == [item];
  }

  /** Trimmed text of at least one character, with no whitespace at either end. */
  predicate Trimmed(s: string) { |s| > 0 && !IsSpace(s[0]) && !IsSpace(s[|s| - 1]) }

  /**
   * A full hierarchical subject: the site item sets camera, site and plot,
   * the animal item group and species, and the number item the count.
   */
  lemma HierarchicalSubjectExample(hs: string, d: ExifData)
    requires hs == "1_Site ID|JC38, 2_Animal|Mammal|Muntjac, 3_Number|>2"
    ensures AfterItems(Items(hs), d)
         == d.(cameraId := Some("JC38"), site := Some("JC"), plotId := Some("38"),
               group := Some("Mammal"), species := Some("Muntjac"), number := 2)
  {
    ExampleJoined(hs);
    var a, b, c := "1_Site ID|JC38", "2_Animal|Mammal|Muntjac", "3_Number|>2";
    ExampleSite(a, "JC38");
    ExampleAnimal(b, "Mammal", "Muntjac");
    ExampleNumber(c);
    SubjectOfThree(hs, a, b, c, "JC38", "Mammal", "Muntjac", 2, d);
  }

  lemma ExampleJoined(hs: string)
    requires hs == "1_Site ID|JC38, 2_Animal|Mammal|Muntjac, 3_Number|>2"
    ensures hs == "1_Site ID|JC38" + ", " + "2_Animal|Mammal|Muntjac" + ", " + "3_Number|>2"
  {
    var x := "1_Site ID|JC38" + ", " + "2_Animal|Mammal|Muntjac" + ", " + "3_Number|>2";
    assert |x| == |hs|;
    forall k | 0 <= k < |hs|
      ensures hs[k] == x[k]
    {
    }
  }

  lemma ExampleSite(a: string, id: string)
    requires a == "1_Site ID|JC38" && id == "JC38"
    ensures a == "1_Site ID|" + id && '|' !in id && ',' !in id && Trimmed(id) && SitePlot(id) == Some(("JC", "38"))
  {
    SitePlotExamples();
  }

  lemma ExampleAnimal(b: string, group: string, species: string)
    requires b == "2_Animal|Mammal|Muntjac" && group == "Mammal" && species == "Muntjac"
    ensures b == "2_Animal|" + group + "|" + species
    ensures '|' !in group && '|' !in species && ',' !in group && ',' !in species
    ensures !IsSuffix("1_Site ID", group) && !IsSuffix("1_SiteID", group) && Trimmed(group) && Trimmed(species)
  {
  }

  lemma ExampleNumber(c: string)
    requires c == "3_Number|>2"
    ensures c == "3_Number|>" + NatToString(2)
  {
    assert NatToString(2) == "2";
  }

  /**
   * A subject made of a site item, an animal item with a group and a number
   * item sets all six fields.
   */
  lemma SubjectOfThree(hs: string, a: string, b: string, c: string,
                       id: string, group: string, species: string, n: nat, d: ExifData)
    requires hs == a + ", " + b + ", " + c
    requires a == "1_Site ID|" + id && b == "2_Animal|" + group + "|" + species && c == "3_Number|>" + NatToString(n)
    requires '|' !in id && ',' !in id && Trimmed(id) && SitePlot(id).Some?
    requires '|' !in group && '|' !in species && ',' !in group && ',' !in species
    requires !IsSuffix("1_Site ID", group) && !IsSuffix("1_SiteID", group) && Trimmed(group) && Trimmed(species)
    ensures AfterItems(Items(hs), d)
         == d.(cameraId := Some(id), site := Some(SitePlot(id).value.0), plotId := Some(SitePlot(id).value.1),
               group := Some(group), species := Some(species), number := n)
  {
    ThreeItemsTrimmed(id, group, species, n);
    ItemsOfThree(a, b, c);
    ThreeItems(a, b, c, d);
    SiteItemOf(id);
    AnimalItemOf(group, species);
    NumberOfCount(n);
  }

  lemma ThreeItemsTrimmed(id: string, group: string, species: string, n: nat)
    requires ',' !in id && ',' !in group && ',' !in species && Trimmed(id) && Trimmed(species)
    ensures var a, b, c := "1_Site ID|" + id, "2_Animal|" + group + "|" + species, "3_Number|>" + NatToString(n);
      ',' !in a && ',' !in b && ',' !in c && Trimmed(a) && Trimmed(b) && Trimmed(c)
  {
    var c := "3_Number|>" + NatToString(n);
    assert forall k :: 10 <= k < |c| ==> IsDigit(c[k]);
  }

  /** Three items act one after the other. */
  lemma ThreeItems(a: string, b: string, c: string, d: ExifData)
    ensures AfterItems([a, b, c], d) == ApplyItem(ApplyItem(ApplyItem(d, a), b), c)
  {
    assert [a, b] + [c] == [a, b, c] && [a] + [b] == [a, b];
    AfterItemsSnoc([a, b], c, d);
    AfterItemsSnoc([a], b, d);
    SingleItem(a, d);
  }

  /** Three trimmed items joined by ", " are read back as those items. */
  lemma ItemsOfThree(a: string, b: string, c: string)
    requires ',' !in a && ',' !in b && ',' !in c
    requires Trimmed(a) && Trimmed(b) && Trimmed(c)
    ensures Items(a + ", " + b + ", " + c) == [a, b, c]
  {
    var hs := a + ", " + b + ", " + c;
    var parts := SplitThree(a, b, c);
    ItemsAre(hs, parts);
    assert Items(hs)[0] == Strip(a) && Items(hs)[1] == Strip(" " + b) && Items(hs)[2] == Strip(" " + c);
    StrippedThree(Items(hs), a, b, c);
  }

  lemma StrippedThree(items: seq<string>, a: string, b: string, c: string)
    requires Trimmed(a) && Trimmed(b) && Trimmed(c)
    requires |items| == 3 && items[0] == Strip(a) && items[1] == Strip(" " + b) && items[2] == Strip(" " + c)
    ensures items == [a, b, c]
  {
    TrimmedItem(a);
    TrimmedItem(b);
    TrimmedItem(c);
    SeqOfThree(items, a, b, c);
  }

  lemma SeqOfThree(items: seq<string>, a: string, b: string, c: string)
    requires |items| == 3 && items[0] == a && items[1] == b && items[2] == c
    ensures items == [a, b, c]
  {
  }

  /** The items are the stripped parts. */
  lemma ItemsAre(hs: string, parts: seq<string>)
    requires parts == Split(hs, ',')
    ensures |Items(hs)| == |parts| && forall i :: 0 <= i < |parts| ==> Items(hs)[i] == Strip(parts[i])
  {
  }

  lemma TrimmedItem(x: string)
    requires Trimmed(x)
    ensures Strip(x) == x && Strip(" " + x) == x
  {
    StripUnchanged(x);
    StripSpacePrefix(x);
  }

  lemma JoinedAsCons(a: string, b: string, c: string)
    ensures a + ", " + b + ", " + c == a + [','] + ((" " + b) + [','] + (" " + c))
  {
  }

  lemma SplitThree(a: string, b: string, c: string) returns (parts: seq<string>)
    requires ',' !in a && ',' !in b && ',' !in c
    ensures parts == Split(a + ", " + b + ", " + c, ',') == [a, " " + b, " " + c]
  {
    var b1, c1 := " " + b, " " + c;
    assert ',' !in b1 && ',' !in c1;
    JoinedAsCons(a, b, c);
    SplitTriple(a, ',', b1, c1);
    parts := [a, b1, c1];
  }

  /** A site item: its camera id is the trimmed text after the label. */
  lemma SiteItemOf(id: string)
    requires '|' !in id && Trimmed(id)
    ensures IsSiteItem("1_Site ID|" + id) && CameraIdOf("1_Site ID|" + id) == id
  {
    var item := "1_Site ID|" + id;
    assert item[0..10] == "1_Site ID|";
    ContainsAt(item, "1_Site ID|", 0);
    assert item == "1_Site ID" + ['|'] + id;
    SplitCons("1_Site ID", '|', id);
    SplitNone(id, '|');
    StripUnchanged(id);
  }

  /**
   * An animal item with a group and a species sets both, unless the group
   * ends with a site label's text, which would make the item a site item.
   */
  lemma AnimalItemOf(group: string, species: string)
    requires '|' !in group && '|' !in species
    requires !IsSuffix("1_Site ID", group) && !IsSuffix("1_SiteID", group)
    requires Trimmed(group) && Trimmed(species)
    ensures var item := "2_Animal|" + group + "|" + species;
      IsAnimalItem(item) && SetsGroup(item) && GroupOf(item) == group && SpeciesOf(item) == species
  {
    var item := "2_Animal|" + group + "|" + species;
    AnimalItemLabels(item, group, species);
    AnimalItemSplit(item, group, species);
    StripUnchanged(group);
    StripUnchanged(species);
  }

  lemma AnimalItemSplit(item: string, group: string, species: string)
    requires item == "2_Animal|" + group + "|" + species && '|' !in group && '|' !in species
    ensures Split(item, '|') == ["2_Animal", group, species]
  {
    AnimalItemAsCons(item, group, species);
    SplitTriple("2_Animal", '|', group, species);
  }

  lemma AnimalItemAsCons(item: string, group: string, species: string)
    requires item == "2_Animal|" + group + "|" + species
    ensures item == "2_Animal" + ['|'] + (group + ['|'] + species)
  {
  }

  lemma AnimalItemLabels(item: string, group: string, species: string)
    requires item == "2_Animal|" + group + "|" + species && '|' !in group && '|' !in species
    requires !IsSuffix("1_Site ID", group) && !IsSuffix("1_SiteID", group)
    ensures IsAnimalItem(item)
  {
    NoSiteLabel(item, group, species, "1_Site ID|");
    NoSiteLabel(item, group, species, "1_SiteID|");
    assert item[0..9] == "2_Animal|";
    ContainsAt(item, "2_Animal|", 0);
  }

  /**
   * An animal item has '|' only at 8 and right after the group. A site
   * label ends at one of them: not at 8, where it would start at the
   * item's '2' or before it, and at the second only by covering no earlier
   * '|', that is with the group ending in the label's text.
   */
  lemma NoSiteLabel(item: string, group: string, species: string, tag: string)
    requires item == "2_Animal|" + group + "|" + species && '|' !in group && '|' !in species
    requires tag == "1_Site ID|" || tag == "1_SiteID|"
    requires !IsSuffix(tag[..|tag| - 1], group)
    ensures !Contains(item, tag)
  {
    ContainsIffOccurs(item, tag);
    forall i | 0 <= i && i + |tag| <= |item|
      ensures !OccursAt(item, tag, i)
    {
      SiteLabelNotAt(item, group, species, tag, i);
    }
  }

  lemma SiteLabelNotAt(item: string, group: string, species: string, tag: string, i: nat)
    requires item == "2_Animal|" + group + "|" + species && '|' !in group && '|' !in species
    requires tag == "1_Site ID|" || tag == "1_SiteID|"
    requires !IsSuffix(tag[..|tag| - 1], group)
    requires i + |tag| <= |item|
    ensures !OccursAt(item, tag, i)
  {
    var b, n := 9 + |group|, |tag|;
    var win := item[i..i + n];
    assert win[n - 1] == item[i + n - 1];
    if i + n - 1 == 8 {
      assert win[0] == item[0] == '2';
    } else if i + n - 1 == b && i <= 8 {
      assert item[8] == '|' && tag[8 - i] != '|';
      assert win[8 - i] == item[8];
    } else if i + n - 1 == b {
      assert item[i..i + n - 1] == group[i - 9..];
      assert win[..n - 1] == group[i - 9..];
    } else if i + n - 1 < b {
      assert item[i + n - 1] == group[i + n - 1 - 9];
    } else {
      assert item[i + n - 1] == species[i + n - 1 - b - 1];
    }
  }

  /**
   * One pass of the loop in `_parse_hierarchical_subject`: the first of the
   * three label tests that the item passes decides which fields it writes,
   * which is what the last-writer reading of a one-item list gives; an item
   * without any of the labels changes nothing.
   */
  method ParseItem(d: ExifData, item: string) returns (r: ExifData)
    ensures r == AfterItems([item], d)
    ensures !(IsSiteItem(item) || IsAnimalItem(item) || IsNumberItem(item)) ==> r == d
  {
    SingleItem(item, d);
    r := d;
    if IsSiteItem(item) || IsAnimalItem(item) || IsNumberItem(item) {
      LabelledItemParts(item);
    }
    if Contains(item, "1_Site ID|") || Contains(item, "1_SiteID|") {
      var parts := Split(item, '|');
      if |parts| >= 2 {
        var cameraId := Strip(parts[1]);
        r := r.(cameraId := Some(cameraId));
        var m := SitePlot(cameraId);
        if m.Some? {
          r := r.(site := Some(m.value.0), plotId := Some(m.value.1));
        }
      }
    } else if Contains(item, "2_Animal|") {
      var parts := Split(item, '|');
      if |parts| >= 3 {
        r := r.(group := Some(Strip(parts[1])), species := Some(Strip(parts[2])));
      } else if |parts| == 2 {
        r := r.(species := Some(Strip(parts[1])));
      }
    } else if Contains(item, "3_Number|") {
      var parts := Split(item, '|');
      if |parts| >= 2 {
        var numberStr := Strip(parts[1]);
        if |numberStr| > 0 && numberStr[0] == '>' {
          numberStr := numberStr[1..];
        }
        var n := ParseInt(numberStr);
        if n.Some? {
          r := r.(number := n.value);
        } else {
          r := r.(number := 1);
        }
      }
    }
  }

  /**
   * `_parse_hierarchical_subject(hs, exif_data)`: walks the items in order
   * and overwrites fields of the dictionary; the result is `AfterItems`.
   */
  method ParseHierarchicalSubject(hs: string, d: ExifData) returns (r: ExifData)
    ensures r == AfterItems(Items(hs), d)
  {
    var items := Items(hs);
    r := d;
    for k := 0 to |items|
      invariant r == AfterItems(items[..k], d)
    {
      var next := ParseItem(r, items[k]);
      AfterOneMore(items, k, d, r, next);
      r := next;
    }
    assert items[..|items|] == items;
  }

  // ---------------------------------------------------------------------
  // _extract_xmp_tags and read_exif

  /** A tag key naming a subject: lowercased, it contains "subject". */
  predicate IsSubjectKey(key: string) { Contains(Lower(key), "subject") }
  predicate IsHierarchicalKey(key: string) { IsSubjectKey(key) && Contains(Lower(key), "hierarchical") }
  predicate IsPlainSubjectKey(key: string) { IsSubjectKey(key) && !Contains(Lower(key), "hierarchical") }

  function Keys(tags: Tags): (keys: seq<string>)
    ensures |keys| == |tags| && forall i :: 0 <= i < |tags| ==> keys[i] == tags[i].0
  {
    seq(|tags|, i requires 0 <= i < |tags| => tags[i].0)
  }

  /** The value of the last tag whose key has property `p`. */
  function LastValue(tags: Tags, p: string -> bool): Option<string>
  {
    var i := LastWhere(Keys(tags), p);
    if i.Some? then Some(tags[i.value].1) else None
  }

  /** What `_extract_xmp_tags` leaves in the dictionary. */
  function AfterXmpTags(tags: Tags, d: ExifData): ExifData
  {
    var hs := LastValue(tags, IsHierarchicalKey);
    var d1 := d.(subject := LastValue(tags, IsPlainSubjectKey), hierarchicalSubject := hs);
    if hs.Some? && hs.value != "" then AfterItems(Items(hs.value), d1) else d1
  }

  /**
   * `_extract_xmp_tags(tags, exif_data)`: the last subject-like key of each
   * kind wins, and the hierarchical subject is parsed only when non-empty.
   */
  method ExtractXmpTags(tags: Tags, d: ExifData) returns (r: ExifData)
    ensures r == AfterXmpTags(tags, d)
  {
    var subject: Option<string> := None;
    var hierarchical: Option<string> := None;
    var k := 0;
    while k < |tags|
      invariant 0 <= k <= |tags|
      invariant subject == LastValue(tags[..k], IsPlainSubjectKey)
      invariant hierarchical == LastValue(tags[..k], IsHierarchicalKey)
    {
      var (key, value) := tags[k];
      var lowered := Lower(key);
      if Contains(lowered, "subject") {
        if Contains(lowered, "hierarchical") {
          hierarchical := Some(value);
        } else {
          subject := Some(value);
        }
      }
      assert tags[..k + 1] == tags[..k] + [tags[k]];
      assert Keys(tags[..k + 1]) == Keys(tags[..k]) + [key];
      LastWhereSnoc(Keys(tags[..k]), key, IsPlainSubjectKey);
      LastWhereSnoc(Keys(tags[..k]), key, IsHierarchicalKey);
      k := k + 1;
    }
    assert tags[..k] == tags;
    r := d.(subject := subject, hierarchicalSubject := hierarchical);
    if hierarchical.Some? && hierarchical.value != "" {
      r := ParseHierarchicalSubject(hierarchical.value, r);
    }
  }

  /**
   * `read_exif(path)`: `{}` for a path that does not exist; otherwise the
   * default dictionary, filled from the tags when `exifread` could read the
   * file (`tags` is `None` when it raised). The reader never sets
   * `has_multiple_animals`.
   */
  method ReadExif(path: string, fileExists: bool, tags: Option<Tags>) returns (r: ExifData)
    ensures !fileExists ==> r == NoExif
    ensures fileExists && tags.None? ==> r == DefaultExif(path)
    ensures fileExists && tags.Some? ==>
      var dt := ExtractDatetime(tags.value);
      r == AfterXmpTags(tags.value, DefaultExif(path).(dateTimeOriginal := dt, createDate := dt))
    ensures !r.hasMultipleAnimals && r.multipleAnimals == []
  {
    if !fileExists {
      return NoExif;
    }
    r := DefaultExif(path);
    if tags.Some? {
      var dt := ExtractDatetime(tags.value);
      if dt.Some? {
        r := r.(dateTimeOriginal := dt, createDate := dt);
      }
      r := ExtractXmpTags(tags.value, r);
    }
  }
}
