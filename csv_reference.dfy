/**
 * The reference CSV reader of the CSV/Excel writer: from a table of
 * already-rendered cells it picks a filename column and a datetime column
 * by their names and builds the map filename -> datetime string that the
 * processor consults first when it dates a photo.
 */
module CsvReference {
  import opened Wrappers
  import opened Strings

  /**
   * What reading the CSV path gave: no such file, a read that raised, or a
   * table whose cells are the `str()` renderings of what pandas loaded
   * (an empty cell renders as "nan").
   */
  datatype CsvFile =
    | NoSuchFile
    | Unreadable
    | Table(header: seq<string>, rows: seq<seq<string>>)

  /** A row shorter than the header is padded with empty cells, which render as "nan". */
  function Cell(row: seq<string>, col: nat): string
  {
    if col < |row| then row[col] else "nan"
  }

  predicate IsFilenameColumn(name: string)
  {
    var lower := Lower(name);
    Contains(lower, "filename") || Contains(lower, "檔名")
  }

  predicate IsDatetimeColumn(name: string)
  {
    var lower := Lower(name);
    Contains(lower, "createdate") || Contains(lower, "datetime") || Contains(lower, "時間")
  }

  /** The last column whose name passes the test: later columns overwrite earlier choices. */
  function LastColumn(header: seq<string>, datetime: bool): (r: Option<nat>)
    ensures r.Some? ==> r.value < |header| && ColumnFits(header[r.value], datetime)
  {
    if |header| == 0 then None
    else if ColumnFits(header[|header| - 1], datetime) then Some(|header| - 1)
    else LastColumn(header[..|header| - 1], datetime)
  }

  /** No later column fits than the one chosen, and none is chosen only when no column fits. */
  lemma {:induction false} LastColumnIsLast(header: seq<string>, datetime: bool)
    ensures var r := LastColumn(header, datetime);
      (r.Some? ==> forall j :: r.value < j < |header| ==> !ColumnFits(header[j], datetime))
      && (r.None? <==> forall j :: 0 <= j < |header| ==> !ColumnFits(header[j], datetime))
  {
    if |header| > 0 && !ColumnFits(header[|header| - 1], datetime) {
      var init := header[..|header| - 1];
      LastColumnIsLast(init, datetime);
      assert forall j :: 0 <= j < |init| ==> init[j] == header[j];
    }
  }

  predicate ColumnFits(name: string, datetime: bool)
  {
    if datetime then IsDatetimeColumn(name) else IsFilenameColumn(name)
  }

  /** A row is kept when its filename is non-empty and its datetime is neither empty nor "nan". */
  predicate Kept(row: seq<string>, fileCol: nat, timeCol: nat)
  {
    Cell(row, fileCol) != "" && Cell(row, timeCol) != "" && Cell(row, timeCol) != "nan"
  }

  /** The map the row loop builds, row after row. */
  function Entries(rows: seq<seq<string>>, fileCol: nat, timeCol: nat): (m: map<string, string>)
    ensures forall key :: key in m ==> key != ""
  {
    if |rows| == 0 then map[]
    else
      var m := Entries(rows[..|rows| - 1], fileCol, timeCol);
      var row := rows[|rows| - 1];
      if Kept(row, fileCol, timeCol) then m[Cell(row, fileCol) := Cell(row, timeCol)] else m
  }

  predicate KeptWithKey(row: seq<string>, fileCol: nat, timeCol: nat, key: string)
  {
    Kept(row, fileCol, timeCol) && Cell(row, fileCol) == key
  }

  /** Row `i` is the last kept row naming `key`. */
  predicate LastKeptWithKey(rows: seq<seq<string>>, i: int, fileCol: nat, timeCol: nat, key: string)
  {
    0 <= i < |rows| && KeptWithKey(rows[i], fileCol, timeCol, key)
    && forall j :: i < j < |rows| ==> !KeptWithKey(rows[j], fileCol, timeCol, key)
  }

  /** The keys of `Entries` are exactly the filenames of kept rows. */
  lemma {:induction false} EntriesKeys(rows: seq<seq<string>>, fileCol: nat, timeCol: nat, key: string)
    ensures key in Entries(rows, fileCol, timeCol) <==> exists i :: 0 <= i < |rows| && KeptWithKey(rows[i], fileCol, timeCol, key)
  {
    if |rows| > 0 {
      var init := rows[..|rows| - 1];
      EntriesKeys(init, fileCol, timeCol, key);
      assert forall i :: 0 <= i < |init| ==> init[i] == rows[i];
    }
  }

  /** Each filename maps to the datetime of the last kept row that names it. */
  lemma {:induction false} EntriesLastWins(rows: seq<seq<string>>, fileCol: nat, timeCol: nat, key: string, i: int)
    requires LastKeptWithKey(rows, i, fileCol, timeCol, key)
    ensures key in Entries(rows, fileCol, timeCol)
    ensures Entries(rows, fileCol, timeCol)[key] == Cell(rows[i], timeCol)
  {
    var init := rows[..|rows| - 1];
    var last := |rows| - 1;
    if i < last {
      assert forall k :: 0 <= k < |init| ==> init[k] == rows[k];
      assert LastKeptWithKey(init, i, fileCol, timeCol, key);
      EntriesLastWins(init, fileCol, timeCol, key, i);
      assert !KeptWithKey(rows[last], fileCol, timeCol, key);
    }
  }

  /** Some kept row is the last to name a key that any kept row names. */
  lemma {:induction false} LastKeptExists(rows: seq<seq<string>>, fileCol: nat, timeCol: nat, key: string, i: int)
    requires 0 <= i < |rows| && KeptWithKey(rows[i], fileCol, timeCol, key)
    ensures exists k :: LastKeptWithKey(rows, k, fileCol, timeCol, key)
    decreases |rows| - i
  {
    if !LastKeptWithKey(rows, i, fileCol, timeCol, key) {
      var j :| i < j < |rows| && KeptWithKey(rows[j], fileCol, timeCol, key);
      LastKeptExists(rows, fileCol, timeCol, key, j);
    }
  }

  /** The mapping `read_csv_datetime` returns for a CSV file. */
  function CsvDatetimes(file: CsvFile): (m: map<string, string>)
    ensures !file.Table? ==> m == map[]
    ensures file.Table? && (LastColumn(file.header, false).None? || LastColumn(file.header, true).None?) ==> m == map[]
    ensures forall key :: key in m ==> key != "" && m[key] != "" && m[key] != "nan"
  {
    match file
    case Table(header, rows) =>
      var fileCol := LastColumn(header, false);
      var timeCol := LastColumn(header, true);
      if fileCol.None? || timeCol.None? then map[]
      else
        var m := Entries(rows, fileCol.value, timeCol.value);
        assert forall key :: key in m ==> m[key] != "" && m[key] != "nan" by {
          forall key | key in m
            ensures m[key] != "" && m[key] != "nan"
          {
            EntriesKeys(rows, fileCol.value, timeCol.value, key);
            var i :| 0 <= i < |rows| && KeptWithKey(rows[i], fileCol.value, timeCol.value, key);
            LastKeptExists(rows, fileCol.value, timeCol.value, key, i);
            var k :| LastKeptWithKey(rows, k, fileCol.value, timeCol.value, key);
            EntriesLastWins(rows, fileCol.value, timeCol.value, key, k);
          }
        }
        m
    case _ => map[]
  }

  /**
   * `read_csv_datetime`: choose the columns, then insert every kept row,
   * a later row overwriting an earlier one with the same filename.
   */
  method ReadCsvDatetime(file: CsvFile) returns (result: map<string, string>)
    ensures result == CsvDatetimes(file)
    ensures forall key :: key in result <==>
      file.Table? && LastColumn(file.header, false).Some? && LastColumn(file.header, true).Some?
      && (exists i :: 0 <= i < |file.rows|
            && KeptWithKey(file.rows[i], LastColumn(file.header, false).value, LastColumn(file.header, true).value, key))
    ensures file.Table? && LastColumn(file.header, false).Some? && LastColumn(file.header, true).Some? ==>
      forall key, i :: LastKeptWithKey(file.rows, i, LastColumn(file.header, false).value, LastColumn(file.header, true).value, key)
        ==> key in result && result[key] == Cell(file.rows[i], LastColumn(file.header, true).value)
  {
    result := map[];
    if !file.Table? {
      return;
    }
    var header, rows := file.header, file.rows;
    var fileCol: Option<nat> := None;
    var timeCol: Option<nat> := None;
    for c := 0 to |header|
      invariant fileCol == LastColumn(header[..c], false)
      invariant timeCol == LastColumn(header[..c], true)
    {
      assert header[..c + 1][..c] == header[..c] && header[..c + 1][c] == header[c];
      if IsFilenameColumn(header[c]) {
        fileCol := Some(c);
      }
      if IsDatetimeColumn(header[c]) {
        timeCol := Some(c);
      }
    }
    assert header[..|header|] == header;
    if fileCol.None? || timeCol.None? {
      return;
    }
    for i := 0 to |rows|
      invariant result == Entries(rows[..i], fileCol.value, timeCol.value)
    {
      assert rows[..i + 1][..i] == rows[..i] && rows[..i + 1][i] == rows[i];
      var filename := Cell(rows[i], fileCol.value);
      var datetime := Cell(rows[i], timeCol.value);
      if filename != "" && datetime != "" && datetime != "nan" {
        result := result[filename := datetime];
      }
    }
    assert rows[..|rows|] == rows;
    EntriesMeaning(rows, fileCol.value, timeCol.value);
  }

  /** The keys of `Entries` are the filenames of kept rows, each mapped to its last kept row's datetime. */
  lemma EntriesMeaning(rows: seq<seq<string>>, fileCol: nat, timeCol: nat)
    ensures forall key :: key in Entries(rows, fileCol, timeCol) <==>
      exists i :: 0 <= i < |rows| && KeptWithKey(rows[i], fileCol, timeCol, key)
    ensures forall key, i :: LastKeptWithKey(rows, i, fileCol, timeCol, key) ==>
      key in Entries(rows, fileCol, timeCol) && Entries(rows, fileCol, timeCol)[key] == Cell(rows[i], timeCol)
  {
    forall key
      ensures key in Entries(rows, fileCol, timeCol) <==> exists i :: 0 <= i < |rows| && KeptWithKey(rows[i], fileCol, timeCol, key)
    {
      EntriesKeys(rows, fileCol, timeCol, key);
    }
    forall key, i | LastKeptWithKey(rows, i, fileCol, timeCol, key)
      ensures key in Entries(rows, fileCol, timeCol) && Entries(rows, fileCol, timeCol)[key] == Cell(rows[i], timeCol)
    {
      EntriesLastWins(rows, fileCol, timeCol, key, i);
    }
  }

  /** One column may serve as both the filename and the datetime column. */
  lemma OneColumnForBoth()
    ensures LastColumn(["Filename_DateTime"], false) == Some(0)
    ensures LastColumn(["Filename_DateTime"], true) == Some(0)
  {
    var lower := "filename_datetime";
    LowerOfBothName();
    assert lower[0..8] == "filename";
    ContainsAt(lower, "filename", 0);
    assert lower[9..17] == "datetime";
    ContainsAt(lower, "datetime", 9);
    assert IsFilenameColumn("Filename_DateTime") && IsDatetimeColumn("Filename_DateTime");
  }

  lemma LowerOfBothName()
    ensures Lower("Filename_DateTime") == "filename_datetime"
  {
    var s, r := "Filename_DateTime", "filename_datetime";
    forall i | 0 <= i < |s| ensures LowerChar(s[i]) == r[i] {}
  }
}
