/// The table behind the delimited text editor: loading a file into rows of
/// equal length, adding a row, adding and deleting the last column, and
/// the text written back on save. The widget is replaced by the rows it
/// displays.
module DelimitedFile {
  import opened Strings

  // ---------------------------------------------------------------------
  // Loading
  // ---------------------------------------------------------------------

  /** `line.rstrip("\n")`: the line without its trailing newlines. */
  function TrimNewlines(line: string): string
    decreases |line|
  {
    if line != [] && line[|line| - 1] == '\n' then TrimNewlines(line[..|line| - 1]) else line
  }

  /** The trimmed line is a prefix of the line that does not end in a newline,
      and only newlines were removed. */
  lemma {:induction false} TrimNewlinesSpec(line: string)
    ensures var t := TrimNewlines(line);
      t <= line && (t == [] || t[|t| - 1] != '\n')
      && forall k :: |t| <= k < |line| ==> line[k] == '\n'
    decreases |line|
  {
    if line != [] && line[|line| - 1] == '\n' {
      TrimNewlinesSpec(line[..|line| - 1]);
    }
  }

  /** A line without newlines written with its `"\n"` is read back as it was. */
  lemma TrimWrittenLine(s: string)
    requires !HasChar(s, '\n')
    ensures TrimNewlines(s + "\n") == s
  {
    assert (s + "\n")[..|s|] == s;
    if s != [] {
      assert s[|s| - 1] != '\n';
    }
  }

  /** The cells of one line: split on the delimiter, or the whole line when
      there is none (an empty delimiter counts as none). */
  function Cols(line: string, delimiter: string): (r: seq<string>)
    ensures |r| >= 1
  {
    var l := TrimNewlines(line);
    if delimiter != "" then Split(l, delimiter) else [l]
  }

  /** `max_cols`: 1, raised to the widest line. */
  function MaxCols(lines: seq<string>, delimiter: string): nat {
    MaxWidth(Widths(lines, delimiter))
  }

  /** The cell count of every line. */
  function Widths(lines: seq<string>, delimiter: string): seq<nat>
  {
    seq(|lines|, k requires 0 <= k < |lines| => |Cols(lines[k], delimiter)|)
  }

  /** The largest of the counts, starting from 1. */
  function MaxWidth(ws: seq<nat>): nat {
    if ws == [] then 1
    else
      var m := MaxWidth(ws[..|ws| - 1]);
      if m < ws[|ws| - 1] then ws[|ws| - 1] else m
  }

  /** One more line raises `max_cols` to its cell count if that is larger. */
  lemma MaxColsSnoc(lines: seq<string>, delimiter: string, k: nat)
    requires k < |lines|
    ensures var m, n := MaxCols(lines[..k], delimiter), |Cols(lines[k], delimiter)|;
      MaxCols(lines[..k + 1], delimiter) == if m < n then n else m
  {
    var ws, w := Widths(lines[..k], delimiter), |Cols(lines[k], delimiter)|;
    assert Widths(lines[..k + 1], delimiter) == ws + [w];
    assert (ws + [w])[..k] == ws;
  }

  /** `max_cols` is at least 1 and no line has more cells. */
  lemma MaxColsBound(lines: seq<string>, delimiter: string)
    ensures MaxCols(lines, delimiter) >= 1
    ensures forall k :: 0 <= k < |lines| ==> |Cols(lines[k], delimiter)| <= MaxCols(lines, delimiter)
  {
    MaxWidthBound(Widths(lines, delimiter));
    assert forall k :: 0 <= k < |lines| ==> Widths(lines, delimiter)[k] == |Cols(lines[k], delimiter)|;
  }

  lemma {:induction false} MaxWidthBound(ws: seq<nat>)
    ensures MaxWidth(ws) >= 1 && forall k :: 0 <= k < |ws| ==> ws[k] <= MaxWidth(ws)
  {
    if ws != [] {
      var init := ws[..|ws| - 1];
      MaxWidthBound(init);
      assert forall k :: 0 <= k < |init| ==> init[k] == ws[k];
    }
  }

  /** When there is a line, `max_cols` is the cell count of one of them. */
  lemma MaxColsReached(lines: seq<string>, delimiter: string)
    requires lines != []
    ensures exists k :: 0 <= k < |lines| && |Cols(lines[k], delimiter)| == MaxCols(lines, delimiter)
  {
    var ws := Widths(lines, delimiter);
    MaxWidthReached(ws);
    var k :| 0 <= k < |ws| && ws[k] == MaxWidth(ws);
    assert |Cols(lines[k], delimiter)| == MaxCols(lines, delimiter);
  }

  lemma {:induction false} MaxWidthReached(ws: seq<nat>)
    requires ws != [] && forall k :: 0 <= k < |ws| ==> ws[k] >= 1
    ensures exists k :: 0 <= k < |ws| && ws[k] == MaxWidth(ws)
  {
    var init := ws[..|ws| - 1];
    if init == [] || MaxWidth(init) < ws[|ws| - 1] {
      assert ws[|ws| - 1] == MaxWidth(ws);
    } else {
      MaxWidthReached(init);
      var k :| 0 <= k < |init| && init[k] == MaxWidth(init);
      assert ws[k] == MaxWidth(ws);
    }
  }

  /** When every line has `c` cells, `max_cols` is `c`. */
  lemma MaxColsUniform(lines: seq<string>, delimiter: string, c: nat)
    requires c >= 1 && forall k :: 0 <= k < |lines| ==> |Cols(lines[k], delimiter)| == c
    ensures lines != [] ==> MaxCols(lines, delimiter) == c
  {
    MaxWidthUniform(Widths(lines, delimiter), c);
  }

  lemma {:induction false} MaxWidthUniform(ws: seq<nat>, c: nat)
    requires c >= 1 && forall k :: 0 <= k < |ws| ==> ws[k] == c
    ensures ws != [] ==> MaxWidth(ws) == c
  {
    if ws != [] {
      var init := ws[..|ws| - 1];
      assert forall k :: 0 <= k < |init| ==> init[k] == ws[k];
      MaxWidthUniform(init, c);
    }
  }

  /** The padding loop: `""` appended until the row has `n` cells. */
  function Pad(r: seq<string>, n: nat): seq<string>
    decreases n - |r|
  {
    if |r| >= n then r else Pad(r + [""], n)
  }

  /** Padding keeps the row as a prefix, fills with `""` only, and reaches
      `n` cells unless the row was longer already. */
  lemma {:induction false} PadSpec(r: seq<string>, n: nat)
    ensures var p := Pad(r, n);
      |p| == (if |r| < n then n else |r|) && r <= p
      && forall k :: |r| <= k < |p| ==> p[k] == ""
    decreases n - |r|
  {
    if |r| < n {
      PadSpec(r + [""], n);
      var p := Pad(r, n);
      assert (r + [""])[|r|] == "";
      assert forall k :: 0 <= k < |r| ==> (r + [""])[k] == r[k];
    }
  }

  /** The table `load_file` returns: the cells of every line, padded to
      `max_cols`. */
  function Loaded(lines: seq<string>, delimiter: string): seq<seq<string>> {
    seq(|lines|, k requires 0 <= k < |lines| => Pad(Cols(lines[k], delimiter), MaxCols(lines, delimiter)))
  }

  /** After loading, every row has `max_cols` cells and begins with the
      cells of its line, the rest empty. */
  lemma LoadedShape(lines: seq<string>, delimiter: string)
    ensures var t := Loaded(lines, delimiter);
      |t| == |lines|
      && forall k :: 0 <= k < |t| ==>
        |t[k]| == MaxCols(lines, delimiter) && Cols(lines[k], delimiter) <= t[k]
        && forall j :: |Cols(lines[k], delimiter)| <= j < |t[k]| ==> t[k][j] == ""
  {
    MaxColsBound(lines, delimiter);
    forall k | 0 <= k < |lines| {
      PadSpec(Cols(lines[k], delimiter), MaxCols(lines, delimiter));
    }
  }

  /** Without a delimiter, every row is its whole line minus the trailing
      newlines, and the table has one column. */
  lemma NoDelimiterLoad(lines: seq<string>)
    ensures MaxCols(lines, "") == 1
    ensures forall k :: 0 <= k < |lines| ==> Loaded(lines, "")[k] == [TrimNewlines(lines[k])]
  {
    MaxColsUniform(lines, "", 1);
  }

  /** The `while` loop that pads one row in place. */
  method PadRow(r0: seq<string>, n: nat) returns (r: seq<string>)
    ensures r == Pad(r0, n)
  {
    r := r0;
    while |r| < n
      invariant Pad(r, n) == Pad(r0, n)
      decreases n - |r|
    {
      r := r + [""];
    }
  }

  /** The line loop of `load_file`: the cells of every line, and the widest
      count seen. */
  method ReadLines(lines: seq<string>, delimiter: string) returns (rows: seq<seq<string>>, maxCols: nat)
    ensures |rows| == |lines| && forall j :: 0 <= j < |lines| ==> rows[j] == Cols(lines[j], delimiter)
    ensures maxCols == MaxCols(lines, delimiter)
  {
    rows := [];
    maxCols := 1;
    for k := 0 to |lines|
      invariant |rows| == k && forall j :: 0 <= j < k ==> rows[j] == Cols(lines[j], delimiter)
      invariant maxCols == MaxCols(lines[..k], delimiter)
    {
      var line := TrimNewlines(lines[k]);
      var cols := if delimiter != "" then Split(line, delimiter) else [line];
      assert cols == Cols(lines[k], delimiter);
      rows := rows + [cols];
      MaxColsSnoc(lines, delimiter, k);
      if maxCols < |cols| {
        maxCols := |cols|;
      }
    }
    assert lines[..|lines|] == lines;
  }

  /** `load_file`: the lines read, then every row padded in place to the
      widest. */
  method LoadFile(lines: seq<string>, delimiter: string) returns (rows: seq<seq<string>>, maxCols: nat)
    ensures rows == Loaded(lines, delimiter) && maxCols == MaxCols(lines, delimiter)
  {
    rows, maxCols := ReadLines(lines, delimiter);
    for k := 0 to |rows|
      invariant |rows| == |lines|
      invariant forall j :: 0 <= j < k ==> rows[j] == Pad(Cols(lines[j], delimiter), maxCols)
      invariant forall j :: k <= j < |rows| ==> rows[j] == Cols(lines[j], delimiter)
    {
      var r := PadRow(rows[k], maxCols);
      rows := rows[k := r];
    }
  }

  // ---------------------------------------------------------------------
  // Column edits and saving, as pure functions of the table
  // ---------------------------------------------------------------------

  /** A new row of `n` empty cells. */
  function EmptyRow(n: nat): seq<string>
  {
    seq(n, _ => "")
  }

  /** Every row with one more empty cell at the end. */
  function WithColumn(rows: seq<seq<string>>): seq<seq<string>> {
    seq(|rows|, k requires 0 <= k < |rows| => rows[k] + [""])
  }

  /** Every row without its last cell (`values[:-1]`, empty on an empty row). */
  function WithoutColumn(rows: seq<seq<string>>): seq<seq<string>> {
    seq(|rows|, k requires 0 <= k < |rows| => if rows[k] == [] then [] else rows[k][..|rows[k]| - 1])
  }

  /** Deleting the column just added gives back the table. */
  lemma DeleteAfterAdd(rows: seq<seq<string>>)
    ensures WithoutColumn(WithColumn(rows)) == rows
  {
    forall k | 0 <= k < |rows| ensures WithoutColumn(WithColumn(rows))[k] == rows[k] {
      assert (rows[k] + [""])[..|rows[k]|] == rows[k];
    }
  }

  /** The line `save` writes for a row (newline included). */
  function SavedLine(row: seq<string>, delimiter: string): string
    requires delimiter == "" ==> row != []
  {
    (if delimiter != "" then Join(row, delimiter) else row[0]) + "\n"
  }

  /** The lines `save` writes. */
  function Saved(rows: seq<seq<string>>, delimiter: string): (r: seq<string>)
    requires delimiter == "" ==> forall k :: 0 <= k < |rows| ==> rows[k] != []
    ensures |r| == |rows|
  {
    seq(|rows|, k requires 0 <= k < |rows| => SavedLine(rows[k], delimiter))
  }

  /** No cell holds the character. */
  predicate NoCellHas(rows: seq<seq<string>>, c: char) {
    forall k, j :: 0 <= k < |rows| && 0 <= j < |rows[k]| ==> !HasChar(rows[k][j], c)
  }

  /** Reading back a saved line gives the row, when no cell holds a newline
      and either the one-character delimiter occurs in no cell or there is no
      delimiter and the row is a single cell. */
  lemma ColsOfSavedLine(row: seq<string>, delimiter: string)
    requires forall j :: 0 <= j < |row| ==> !HasChar(row[j], '\n')
    requires (|delimiter| == 1 && delimiter[0] != '\n' && row != []
              && forall j :: 0 <= j < |row| ==> !HasChar(row[j], delimiter[0]))
      || (delimiter == "" && |row| == 1)
    ensures Cols(SavedLine(row, delimiter), delimiter) == row
  {
    if delimiter != "" {
      JoinNoChar(row, delimiter, '\n');
      TrimWrittenLine(Join(row, delimiter));
      SplitJoin(row, delimiter);
    } else {
      TrimWrittenLine(row[0]);
    }
  }

  /** Saving a table of equal rows and loading the file again gives the
      same table, under the conditions of `ColsOfSavedLine`. */
  lemma LoadAfterSave(rows: seq<seq<string>>, colCount: nat, delimiter: string)
    requires colCount >= 1 && forall k :: 0 <= k < |rows| ==> |rows[k]| == colCount
    requires NoCellHas(rows, '\n')
    requires (|delimiter| == 1 && delimiter[0] != '\n' && NoCellHas(rows, delimiter[0]))
      || (delimiter == "" && colCount == 1)
    ensures Loaded(Saved(rows, delimiter), delimiter) == rows
    ensures rows != [] ==> MaxCols(Saved(rows, delimiter), delimiter) == colCount
  {
    var lines := Saved(rows, delimiter);
    forall k | 0 <= k < |rows| ensures Cols(lines[k], delimiter) == rows[k] {
      SavedLineCols(rows, colCount, delimiter, k);
    }
    LoadedOfCols(lines, delimiter, rows, colCount);
  }

  /** Lines whose cells are the rows of an equal-width table load as that table. */
  lemma LoadedOfCols(lines: seq<string>, delimiter: string, rows: seq<seq<string>>, colCount: nat)
    requires colCount >= 1 && forall k :: 0 <= k < |rows| ==> |rows[k]| == colCount
    requires |lines| == |rows| && forall k :: 0 <= k < |rows| ==> Cols(lines[k], delimiter) == rows[k]
    ensures Loaded(lines, delimiter) == rows
    ensures rows != [] ==> MaxCols(lines, delimiter) == colCount
  {
    MaxColsUniform(lines, delimiter, colCount);
    var n := MaxCols(lines, delimiter);
    forall k | 0 <= k < |rows| ensures Loaded(lines, delimiter)[k] == rows[k] {
      assert Loaded(lines, delimiter)[k] == Pad(rows[k], n);
    }
  }

  /** One line of a saved table reads back as its row. */
  lemma SavedLineCols(rows: seq<seq<string>>, colCount: nat, delimiter: string, k: nat)
    requires colCount >= 1 && forall k :: 0 <= k < |rows| ==> |rows[k]| == colCount
    requires NoCellHas(rows, '\n')
    requires (|delimiter| == 1 && delimiter[0] != '\n' && NoCellHas(rows, delimiter[0]))
      || (delimiter == "" && colCount == 1)
    requires k < |rows|
    ensures Cols(Saved(rows, delimiter)[k], delimiter) == rows[k]
  {
    var row := rows[k];
    assert Saved(rows, delimiter)[k] == SavedLine(row, delimiter);
    ColsOfSavedLine(row, delimiter);
  }

  // ---------------------------------------------------------------------
  // The file between save and load
  // ---------------------------------------------------------------------

  /** The text of a file written line by line. */
  function FileText(lines: seq<string>): string {
    if lines == [] then "" else lines[0] + FileText(lines[1..])
  }

  /** A line ending in text mode: `\n` or `\r`. */
  predicate IsBreak(c: char) {
    c == '\n' || c == '\r'
  }

  /** The index of the first line ending, or the length when there is none. */
  function FirstBreak(text: string): (j: nat)
    ensures j <= |text| && (j < |text| ==> IsBreak(text[j]))
    ensures forall k :: 0 <= k < j ==> !IsBreak(text[k])
  {
    if text == [] || IsBreak(text[0]) then 0 else 1 + FirstBreak(text[1..])
  }

  /** `for line in f` over a file opened with `open(path, "r")`: universal
      newlines, so `\n`, `\r` and `\r\n` each end a line and are read as
      `\n`; a last line without an ending is read as it is. */
  function ReadText(text: string): (r: seq<string>)
    decreases |text|
  {
    if text == [] then []
    else
      var j := FirstBreak(text);
      if j == |text| then [text]
      else
        var skip := if text[j] == '\r' && j + 1 < |text| && text[j + 1] == '\n' then 2 else 1;
        [text[..j] + "\n"] + ReadText(text[j + skip..])
  }

  /** A line as `save` writes it: text without line endings, then `\n`. */
  predicate PlainLine(line: string) {
    line != [] && line[|line| - 1] == '\n' && forall k :: 0 <= k < |line| - 1 ==> !IsBreak(line[k])
  }

  /** Lines written one after the other are read back as the same lines,
      when none holds a line ending before its final newline. */
  lemma {:induction false} ReadFileText(lines: seq<string>)
    requires forall k :: 0 <= k < |lines| ==> PlainLine(lines[k])
    ensures ReadText(FileText(lines)) == lines
    decreases |lines|
  {
    if lines != [] {
      var line := lines[0];
      var rest := FileText(lines[1..]);
      var text := line + rest;
      var j := |line| - 1;
      assert text[j] == '\n';
      forall k | 0 <= k < j ensures !IsBreak(text[k]) {
        assert text[k] == line[k];
      }
      assert FirstBreak(text) == j;
      assert text[..j] + "\n" == line;
      assert text[j + 1..] == rest;
      ReadFileText(lines[1..]);
    }
  }

  /** A cell holding `\r` does not survive: the file `save` writes for
      the one-cell table `a\rb` is read back as two lines. */
  lemma CarriageReturnSplitsRow()
    ensures ReadText(FileText(Saved([["a\rb"]], ","))) == ["a\n", "b\n"]
    ensures Loaded(ReadText(FileText(Saved([["a\rb"]], ","))), ",") == [["a"], ["b"]]
  {
    SavedCarriageReturn();
    ReadCarriageReturn();
    LoadTwoLines();
  }

  /** The two lines read back load as two one-cell rows. */
  lemma LoadTwoLines()
    ensures Loaded(["a\n", "b\n"], ",") == [["a"], ["b"]]
  {
    ColsOfSavedLine(["a"], ",");
    ColsOfSavedLine(["b"], ",");
    assert SavedLine(["a"], ",") == "a\n";
    assert SavedLine(["b"], ",") == "b\n";
    LoadedOfCols(["a\n", "b\n"], ",", [["a"], ["b"]], 1);
  }

  /** The text `save` writes for the one-cell table `a\rb`. */
  lemma SavedCarriageReturn()
    ensures FileText(Saved([["a\rb"]], ",")) == "a\rb\n"
  {
    var lines := Saved([["a\rb"]], ",");
    assert lines[0] == SavedLine(["a\rb"], ",") == "a\rb\n";
    assert lines == ["a\rb\n"];
    assert lines[1..] == [];
  }

  /** Universal newlines end a line at the `\r` of `a\rb\n`. */
  lemma ReadCarriageReturn()
    ensures ReadText("a\rb\n") == ["a\n", "b\n"]
  {
    var text := "a\rb\n";
    assert FirstBreak(text) == 1;
    assert text[2..] == "b\n";
    assert FirstBreak("b\n") == 1;
    assert "b\n"[2..] == "";
    assert "b\n"[..1] + "\n" == "b\n" && text[..1] + "\n" == "a\n";
    assert ReadText("b\n") == ["b\n"] + ReadText("");
  }

  /** The saved lines are plain when no cell and no delimiter holds a line
      ending. */
  lemma SavedPlain(rows: seq<seq<string>>, delimiter: string, k: nat)
    requires NoCellHas(rows, '\n') && NoCellHas(rows, '\r')
    requires (delimiter != "" && !HasChar(delimiter, '\n') && !HasChar(delimiter, '\r'))
      || (delimiter == "" && forall i :: 0 <= i < |rows| ==> rows[i] != [])
    requires k < |rows|
    ensures PlainLine(Saved(rows, delimiter)[k])
  {
    var row := rows[k];
    var body := if delimiter != "" then Join(row, delimiter) else row[0];
    if delimiter != "" {
      JoinNoChar(row, delimiter, '\n');
      JoinNoChar(row, delimiter, '\r');
    }
    assert Saved(rows, delimiter)[k] == body + "\n";
  }

  /** Saving a table of equal rows, then loading the file the saved lines
      make, gives the same table and column count, when no cell holds a
      line ending (`\n` or `\r`) and the one-character delimiter occurs in
      no cell, or there is no delimiter and one column. */
  lemma LoadFileAfterSave(rows: seq<seq<string>>, colCount: nat, delimiter: string)
    requires colCount >= 1 && forall k :: 0 <= k < |rows| ==> |rows[k]| == colCount
    requires NoCellHas(rows, '\n') && NoCellHas(rows, '\r')
    requires (|delimiter| == 1 && !IsBreak(delimiter[0]) && NoCellHas(rows, delimiter[0]))
      || (delimiter == "" && colCount == 1)
    ensures Loaded(ReadText(FileText(Saved(rows, delimiter))), delimiter) == rows
    ensures rows != [] ==> MaxCols(ReadText(FileText(Saved(rows, delimiter))), delimiter) == colCount
  {
    var lines := Saved(rows, delimiter);
    forall k | 0 <= k < |lines| ensures PlainLine(lines[k]) {
      SavedPlain(rows, delimiter, k);
    }
    ReadFileText(lines);
    LoadAfterSave(rows, colCount, delimiter);
  }

  // ---------------------------------------------------------------------
  // The editor
  // ---------------------------------------------------------------------

  /** The editor's state: the displayed rows, the column count and the
      delimiter given on the command line ("" when none). */
  class CsvEditor {
    var rows: seq<seq<string>>
    var colCount: nat
    const delimiter: string

    /** Every row has `colCount` cells, and there is at least one column. */
    ghost predicate Valid()
      reads this
    {
      colCount >= 1 && forall k :: 0 <= k < |rows| ==> |rows[k]| == colCount
    }

    /** Opening a file: the rows and the column count `load_file` returns. */
    constructor (lines: seq<string>, delimiter: string)
      ensures this.delimiter == delimiter
      ensures rows == Loaded(lines, delimiter) && colCount == MaxCols(lines, delimiter)
      ensures Valid()
    {
      this.delimiter := delimiter;
      var t, n := LoadFile(lines, delimiter);
      rows := t;
      colCount := n;
      LoadedShape(lines, delimiter);
      MaxColsBound(lines, delimiter);
    }

    /** `add_row`: a row of `colCount` empty cells at the end. */
    method AddRow()
      requires Valid()
      modifies this
      ensures rows == old(rows) + [EmptyRow(colCount)] && colCount == old(colCount)
      ensures Valid()
    {
      rows := rows + [EmptyRow(colCount)];
    }

    /** `add_column`: one more column, and `""` appended to every row. */
    method AddColumn()
      requires Valid()
      modifies this
      ensures colCount == old(colCount) + 1 && rows == WithColumn(old(rows))
      ensures Valid()
    {
      colCount := colCount + 1;
      var newRows: seq<seq<string>> := [];
      for k := 0 to |rows|
        invariant |newRows| == k && forall j :: 0 <= j < k ==> newRows[j] == rows[j] + [""]
      {
        newRows := newRows + [rows[k] + [""]];
      }
      rows := newRows;
    }

    /** `delete_column`: refused, changing nothing, when one column is left;
        otherwise one column fewer and the last cell of every row dropped. */
    method DeleteColumn() returns (deleted: bool)
      requires Valid()
      modifies this
      ensures deleted <==> old(colCount) > 1
      ensures deleted ==> colCount == old(colCount) - 1 && rows == WithoutColumn(old(rows))
      ensures !deleted ==> colCount == old(colCount) && rows == old(rows)
      ensures Valid()
    {
      if colCount <= 1 {
        return false;
      }
      colCount := colCount - 1;
      var newRows: seq<seq<string>> := [];
      for k := 0 to |rows|
        invariant |newRows| == k
        invariant forall j :: 0 <= j < k ==> newRows[j] == WithoutColumn(rows)[j]
      {
        var values := if rows[k] == [] then [] else rows[k][..|rows[k]| - 1];
        newRows := newRows + [values];
      }
      rows := newRows;
      return true;
    }

    /** `save`: the lines written, one per row. */
    method Save() returns (lines: seq<string>)
      requires Valid()
      ensures lines == Saved(rows, delimiter)
    {
      lines := [];
      for k := 0 to |rows|
        invariant |lines| == k && forall j :: 0 <= j < k ==> lines[j] == SavedLine(rows[j], delimiter)
      {
        var line := if delimiter != "" then Join(rows[k], delimiter) else rows[k][0];
        lines := lines + [line + "\n"];
      }
    }
  }
}
