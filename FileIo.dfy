/// The table reading and writing helpers of the sheet pipeline: the filter
/// that drops blank cells and the derivation of the file names.
module FileIo {
  import opened Strings

  // ---------------------------------------------------------------------
  // The blank-cell filter
  // ---------------------------------------------------------------------

  /** A cell that is empty once stripped. */
  predicate Blank(cell: string) {
    Strip(cell) == ""
  }

  /** The row with its blank cells removed, the others in order. */
  function MergeEmpty(row: seq<string>): seq<string> {
    if row == [] then []
    else
      var c := row[|row| - 1];
      MergeEmpty(row[..|row| - 1]) + (if !Blank(c) then [c] else [])
  }

  /** The cells kept are exactly the non-blank cells of the row. */
  lemma {:induction false} MergeEmptySpec(row: seq<string>)
    ensures forall c :: c in MergeEmpty(row) <==> c in row && !Blank(c)
    ensures |MergeEmpty(row)| <= |row|
    ensures (forall k :: 0 <= k < |row| ==> !Blank(row[k])) ==> MergeEmpty(row) == row
  {
    if row != [] {
      var init := row[..|row| - 1];
      MergeEmptySpec(init);
      assert row == init + [row[|row| - 1]];
      forall k | 0 <= k < |init| ensures init[k] == row[k] { }
    }
  }

  /** The filter keeps the relative order of the cells: putting more cells
      after a row only adds the kept ones among them at the end. */
  lemma {:induction false} MergeEmptyConcat(a: seq<string>, b: seq<string>)
    ensures MergeEmpty(a + b) == MergeEmpty(a) + MergeEmpty(b)
  {
    if b != [] {
      var init := b[..|b| - 1];
      assert (a + b)[..|a + b| - 1] == a + init;
      assert (a + b)[|a + b| - 1] == b[|b| - 1];
      MergeEmptyConcat(a, init);
    } else {
      assert a + b == a;
    }
  }

  /** Filtering twice is filtering once. */
  lemma MergeEmptyIdempotent(row: seq<string>)
    ensures MergeEmpty(MergeEmpty(row)) == MergeEmpty(row)
  {
    var m := MergeEmpty(row);
    MergeEmptySpec(row);
    MergeEmptySpec(m);
    forall k | 0 <= k < |m| ensures !Blank(m[k]) {
      assert m[k] in m;
    }
  }

  /** The table as `read_tab_csv` returns it: one filtered row per row. */
  function ReadRows(rows: seq<seq<string>>): seq<seq<string>>
  {
    seq(|rows|, k requires 0 <= k < |rows| => MergeEmpty(rows[k]))
  }

  /** The row loop of `read_tab_csv`, over the rows the CSV reader yields. */
  method ReadTabCsv(reader: seq<seq<string>>) returns (normalizedData: seq<seq<string>>)
    ensures normalizedData == ReadRows(reader)
  {
    normalizedData := [];
    for k := 0 to |reader|
      invariant normalizedData == ReadRows(reader[..k])
    {
      var row := MergeEmpty(reader[k]);
      normalizedData := normalizedData + [row];
    }
    assert reader[..|reader|] == reader;
  }

  /** The row loop of `write_tab_csv`: the rows handed to the CSV writer. */
  method WriteTabCsv(data: seq<seq<string>>) returns (written: seq<seq<string>>)
    ensures written == ReadRows(data)
  {
    written := [];
    for k := 0 to |data|
      invariant written == ReadRows(data[..k])
    {
      var row := MergeEmpty(data[k]);
      written := written + [row];
    }
    assert data[..|data|] == data;
  }

  /** Writing a table that was read filters nothing more, so a read and
      write cycle is stable. */
  lemma WriteAfterRead(rows: seq<seq<string>>)
    ensures ReadRows(ReadRows(rows)) == ReadRows(rows)
  {
    forall k | 0 <= k < |rows| ensures MergeEmpty(MergeEmpty(rows[k])) == MergeEmpty(rows[k]) {
      MergeEmptyIdempotent(rows[k]);
    }
  }

  // ---------------------------------------------------------------------
  // File names
  // ---------------------------------------------------------------------

  const BaseDir := "/home/dkvlko/Dheeraj-AI-programs-github/liv_code/Data-Processing-ForMoodle-TABText"
  const DataDir := "Data_EngGrmr"
  const OutputSuffix := "_out"
  const OutputSuffixGift := "_gift"

  /** `INPUT_PATTERN.format(num=n)`. */
  function InputName(n: int): string {
    "english_" + IntToString(n) + ".csv"
  }

  /** `INPUT_PATTERN_GIFT.format(num=n)`. */
  function InputNameGift(n: int): string {
    "english_" + IntToString(n) + "_out.csv"
  }

  /** A file of the data directory. */
  function DataPath(name: string): string {
    BaseDir + "/" + DataDir + "/" + name
  }

  /** `get_input_output_paths`: the sheet and its processed output, then the
      processed sheet and its GIFT output. */
  function InputOutputPaths(n: int): (string, string, string, string) {
    var outputName := Replace(InputName(n), ".csv", OutputSuffix + ".csv");
    var outputNameGift := Replace(InputNameGift(n), ".csv", OutputSuffixGift);
    (DataPath(InputName(n)), DataPath(outputName), DataPath(InputNameGift(n)), DataPath(outputNameGift))
  }

  lemma NoCharConcat(a: string, b: string, c: char)
    requires !HasChar(a, c) && !HasChar(b, c)
    ensures !HasChar(a + b, c)
  {
    forall i | 0 <= i < |a + b| ensures (a + b)[i] != c {
      if i < |a| {
        assert (a + b)[i] == a[i];
      } else {
        assert (a + b)[i] == b[i - |a|];
      }
    }
  }

  /** Replacing a pattern that occurs only as the suffix. */
  lemma ReplaceSuffix(a: string, pat: string, rep: string)
    requires |pat| > 0 && !HasChar(a, pat[0])
    ensures Replace(a + pat, pat, rep) == a + rep
  {
    var s := a + pat;
    assert StartsAt(s, |a|, pat) by {
      assert s[|a|..|a| + |pat|] == pat;
    }
    forall i | 0 <= i < |a| ensures !StartsAt(s, i, pat) {
      assert s[i] == a[i] != pat[0];
      assert i + |pat| <= |s| ==> s[i..i + |pat|][0] == s[i];
    }
    FindIs(s, pat, |a|);
    assert s[|a| + |pat|..] == [];
  }

  /** The output name is the input name with `_out` before the extension. */
  lemma OutputName(n: int)
    ensures InputOutputPaths(n).1 == DataPath("english_" + IntToString(n) + "_out.csv")
  {
    var a := "english_" + IntToString(n);
    IntToStringNoDot(n);
    assert !HasChar("english_", '.');
    NoCharConcat("english_", IntToString(n), '.');
    assert InputName(n) == a + ".csv";
    ReplaceSuffix(a, ".csv", "_out.csv");
    assert OutputSuffix + ".csv" == "_out.csv";
    assert a + "_out.csv" == "english_" + IntToString(n) + "_out.csv";
  }

  /** The GIFT output name is the processed name with `_gift` in place of the
      extension, so it has none. */
  lemma GiftOutputName(n: int)
    ensures InputOutputPaths(n).3 == DataPath("english_" + IntToString(n) + "_out_gift")
  {
    var a := "english_" + IntToString(n);
    IntToStringNoDot(n);
    assert !HasChar("english_", '.');
    assert !HasChar("_out", '.');
    NoCharConcat("english_", IntToString(n), '.');
    NoCharConcat(a, "_out", '.');
    assert InputNameGift(n) == (a + "_out") + ".csv";
    ReplaceSuffix(a + "_out", ".csv", "_gift");
  }
}
