/// The processor of exercise sheet 2: cloze extraction (`process_cloze`),
/// choice splitting (`process_mcq`) and GIFT assembly (`process_4gift`),
/// with the legacy variants kept in the same file.
module English2 {
  import opened Wrappers
  import opened Strings
  import opened Cloze

  /** Tag put in front of an extracted cloze answer. */
  const FibTag: string := "$FIB$"
  /** Tag put after a choice fragment. */
  const McqTag: string := "$MCQ$"
  /** Separator of choices inside one cell. */
  const ChoiceSep: string := " / "

  // ---------------------------------------------------------------------
  // process_cloze
  // ---------------------------------------------------------------------

  /** Answers of one cell, each tagged as a fill-in-blank answer. */
  function Tagged(answers: seq<string>): seq<string>
  {
    seq(|answers|, k requires 0 <= k < |answers| => FibTag + answers[k])
  }

  /** The answers of a row's cells, left to right within a cell and then
      column by column. */
  function RowAnswers(row: seq<string>): seq<string>
  {
    if row == [] then [] else RowAnswers(row[..|row| - 1]) + Scan(row[|row| - 1]).1
  }

  /** The row's cells, each with its spans replaced by the placeholder. */
  function Rewritten(row: seq<string>): (r: seq<string>)
    ensures |r| == |row|
  {
    seq(|row|, k requires 0 <= k < |row| => Scan(row[k]).0)
  }

  /** A row after `process_cloze`: every cell read, then the tagged answers
      appended. */
  function ClozeRow(row: seq<string>): seq<string>
  {
    Rewritten(row) + Tagged(RowAnswers(row))
  }

  lemma TaggedConcat(a: seq<string>, b: seq<string>)
    ensures Tagged(a + b) == Tagged(a) + Tagged(b)
  {
  }

  lemma BlankHasNoBrace()
    ensures CharCount(Blank, '{') == 0
  {
    forall k | 0 <= k < |Blank| ensures Blank[k] != '{' {
      assert Blank[k] in "$Blankspace$";
    }
    CharCountNone(Blank, '{');
  }

  /** The rewrite of one span strictly lowers the number of opening braces:
      the rescanning loop removes at least one per pass and the placeholder
      adds none. */
  lemma RewriteLowersBraces(c: string, s: nat, e: nat)
    requires s < e + |End| <= |c| && c[s] == '{'
    ensures CharCount(c[..s] + Blank + c[e + |End|..], '{') < CharCount(c, '{')
  {
    var head, m, tail := c[..s], c[s..e + |End|], c[e + |End|..];
    SplitThree(c, s, e + |End|);
    CharCount3(head, m, tail, '{');
    CharCount3(head, Blank, tail, '{');
    BlankHasNoBrace();
    FirstCharCounted(m, '{');
  }

  /** The inner `while` loop of `process_cloze` on one cell: it rescans the
      rewritten cell from its start after each replacement. */
  method ScanCell(cell: string) returns (rewritten: string, answers: seq<string>)
    ensures (rewritten, answers) == Scan(cell)
  {
    var c := cell;
    answers := [];
    while Contains(c, Start)
      invariant Scan(cell).0 == Scan(c).0 && Scan(cell).1 == answers + Scan(c).1
      decreases CharCount(c, '{')
    {
      FindContains(c, Start);
      var s := Find(c, Start, 0);
      var e := Find(c, End, s);
      if e == -1 {
        break;
      }
      ScanAfterRewrite(c, s, e);
      RewriteLowersBraces(c, s, e);
      var answer := c[s + |Start|..e];
      var next := c[..s] + Blank + c[e + |End|..];
      assert answers + Scan(c).1 == (answers + [answer]) + Scan(next).1;
      answers := answers + [answer];
      c := next;
    }
    ScanUnchanged(c);
    assert answers + Scan(c).1 == answers;
    rewritten := c;
  }

  /** The column loop of `process_cloze` on one row: cells are rewritten in
      place and the tagged answers are appended when there are any. */
  method ScanRow(row: seq<string>) returns (out: seq<string>)
    ensures out == ClozeRow(row)
  {
    var cells := row;
    var fibList: seq<string> := [];
    for col := 0 to |row|
      invariant |cells| == |row|
      invariant forall k :: 0 <= k < col ==> cells[k] == Scan(row[k]).0
      invariant forall k :: col <= k < |row| ==> cells[k] == row[k]
      invariant fibList == Tagged(RowAnswers(row[..col]))
    {
      var cell, answers := ScanCell(cells[col]);
      assert fibList + Tagged(answers) == Tagged(RowAnswers(row[..col + 1])) by {
        assert row[..col + 1][..col] == row[..col];
        TaggedConcat(RowAnswers(row[..col]), answers);
      }
      fibList := fibList + Tagged(answers);
      cells := cells[col := cell];
    }
    assert cells == Rewritten(row) && fibList == Tagged(RowAnswers(row)) by {
      assert row[..|row|] == row;
    }
    if fibList != [] {
      cells := cells + fibList;
    }
    out := cells;
  }

  /** `process_cloze`: every row of the table is rewritten in place. */
  method ProcessCloze(data: array<seq<string>>)
    modifies data
    ensures forall r :: 0 <= r < data.Length ==> data[r] == ClozeRow(old(data[r]))
  {
    for r := 0 to data.Length
      invariant forall k :: 0 <= k < r ==> data[k] == ClozeRow(old(data[k]))
      invariant forall k :: r <= k < data.Length ==> data[k] == old(data[k])
    {
      data[r] := ScanRow(data[r]);
    }
  }

  /** A rewritten row keeps its column count and only appends tagged answers,
      one per complete span. */
  lemma ClozeRowShape(row: seq<string>)
    ensures |ClozeRow(row)| == |row| + |RowAnswers(row)|
    ensures forall k :: 0 <= k < |row| ==> ClozeRow(row)[k] == Scan(row[k]).0
    ensures forall k :: 0 <= k < |RowAnswers(row)| ==>
      ClozeRow(row)[|row| + k] == FibTag + RowAnswers(row)[k]
  {
  }

  /** A cell that yields no answer is returned unchanged. */
  lemma NoAnswerUnchanged(cell: string)
    ensures Scan(cell).1 == [] ==> Scan(cell).0 == cell
  {
    var s := Find(cell, Start, 0);
    if s >= 0 && Find(cell, End, s) >= 0 {
      ScanUnfold(cell, s, Find(cell, End, s));
    } else {
      ScanUnchanged(cell);
    }
  }

  /** A row gains no cell exactly when none of its cells holds a complete
      cloze. */
  lemma {:induction false} RowAnswersEmptyIff(row: seq<string>)
    ensures RowAnswers(row) == [] <==> forall k :: 0 <= k < |row| ==> Scan(row[k]).1 == []
  {
    if row != [] {
      var init := row[..|row| - 1];
      RowAnswersEmptyIff(init);
      assert forall k :: 0 <= k < |init| ==> init[k] == row[k];
      assert RowAnswers(row) == RowAnswers(init) + Scan(row[|row| - 1]).1;
    }
  }

  /** A row none of whose cells holds a complete cloze is returned unchanged. */
  lemma ClozeRowUnchanged(row: seq<string>)
    requires forall k :: 0 <= k < |row| ==> Scan(row[k]).1 == []
    ensures ClozeRow(row) == row
  {
    RowAnswersEmptyIff(row);
    forall k | 0 <= k < |row| ensures Scan(row[k]).0 == row[k] {
      NoAnswerUnchanged(row[k]);
    }
  }

  // ---------------------------------------------------------------------
  // process_mcq
  // ---------------------------------------------------------------------

  /** The stripped pieces that are not blank, in order. */
  function NonBlankStripped(parts: seq<string>): (r: seq<string>)
    ensures |r| <= |parts|
  {
    if parts == [] then []
    else
      var last := Strip(parts[|parts| - 1]);
      NonBlankStripped(parts[..|parts| - 1]) + (if last != "" then [last] else [])
  }

  /** Each choice fragment followed by the choice tag. */
  function TagChoices(parts: seq<string>): seq<string>
  {
    seq(|parts|, k requires 0 <= k < |parts| => parts[k] + McqTag)
  }

  /** The cells one cell becomes under `process_mcq`. */
  function McqCell(cell: string): seq<string>
  {
    if Contains(cell, ChoiceSep) then TagChoices(NonBlankStripped(Split(cell, ChoiceSep)))
    else [cell]
  }

  /** A row under `process_mcq`: the cells each cell becomes, in column order. */
  function McqRow(row: seq<string>): seq<string>
  {
    if row == [] then [] else McqRow(row[..|row| - 1]) + McqCell(row[|row| - 1])
  }

  /** `process_mcq`: a new table is built row by row; the input is a value and
      is left as it is. */
  method ProcessMcq(data: seq<seq<string>>) returns (out: seq<seq<string>>)
    ensures |out| == |data|
    ensures forall r :: 0 <= r < |data| ==> out[r] == McqRow(data[r])
  {
    out := [];
    for r := 0 to |data|
      invariant |out| == r
      invariant forall k :: 0 <= k < r ==> out[k] == McqRow(data[k])
    {
      var newRow := McqRowOf(data[r]);
      out := out + [newRow];
    }
  }

  /** The body of the row loop of `process_mcq`. */
  method McqRowOf(row: seq<string>) returns (newRow: seq<string>)
    ensures newRow == McqRow(row)
  {
    newRow := [];
    for c := 0 to |row|
      invariant newRow == McqRow(row[..c])
    {
      var cells := McqCellOf(row[c]);
      assert row[..c + 1][..c] == row[..c];
      assert McqRow(row[..c + 1]) == McqRow(row[..c]) + McqCell(row[c]);
      newRow := newRow + cells;
    }
    assert row[..|row|] == row;
  }

  /** The body of the column loop of `process_mcq`. */
  method McqCellOf(cell: string) returns (cells: seq<string>)
    ensures cells == McqCell(cell)
  {
    if Contains(cell, ChoiceSep) {
      var parts := NonBlankStripped(Split(cell, ChoiceSep));
      cells := [];
      for p := 0 to |parts|
        invariant cells == TagChoices(parts[..p])
      {
        assert TagChoices(parts[..p + 1]) == TagChoices(parts[..p]) + [parts[p] + McqTag];
        cells := cells + [parts[p] + McqTag];
      }
      assert parts[..|parts|] == parts;
    } else {
      cells := [cell];
    }
  }

  /** Every kept piece is stripped and not blank. */
  lemma {:induction false} NonBlankStrippedParts(parts: seq<string>)
    ensures forall k :: 0 <= k < |NonBlankStripped(parts)| ==>
      NonBlankStripped(parts)[k] != "" && Strip(NonBlankStripped(parts)[k]) == NonBlankStripped(parts)[k]
  {
    if parts != [] {
      NonBlankStrippedParts(parts[..|parts| - 1]);
      StripIdempotent(parts[|parts| - 1]);
    }
  }

  /** Pieces that are already stripped and not blank are all kept as they are. */
  lemma {:induction false} NonBlankStrippedKeeps(parts: seq<string>)
    requires forall k :: 0 <= k < |parts| ==> parts[k] != "" && Strip(parts[k]) == parts[k]
    ensures NonBlankStripped(parts) == parts
  {
    if parts != [] {
      var init := parts[..|parts| - 1];
      forall k | 0 <= k < |init|
        ensures init[k] != "" && Strip(init[k]) == init[k]
      {
        assert init[k] == parts[k];
      }
      NonBlankStrippedKeeps(init);
      assert parts == init + [parts[|parts| - 1]];
    }
  }

  /** A cell without the separator is copied; with it, each produced cell is a
      stripped, non-blank piece followed by the choice tag. */
  lemma McqCellShape(cell: string)
    ensures !Contains(cell, ChoiceSep) ==> McqCell(cell) == [cell]
    ensures Contains(cell, ChoiceSep) ==>
      forall k :: 0 <= k < |McqCell(cell)| ==>
        var q := McqCell(cell)[k][..|McqCell(cell)[k]| - |McqTag|];
        McqCell(cell)[k] == q + McqTag && q != "" && Strip(q) == q
  {
    if Contains(cell, ChoiceSep) {
      var parts := NonBlankStripped(Split(cell, ChoiceSep));
      NonBlankStrippedParts(Split(cell, ChoiceSep));
      forall k | 0 <= k < |parts|
        ensures (parts[k] + McqTag)[..|parts[k] + McqTag| - |McqTag|] == parts[k]
      {
      }
    }
  }

  /** Dropping the tags and joining the pieces with the separator gives back
      a cell whose pieces were already stripped and not blank. */
  lemma McqCellRoundTrip(cell: string)
    requires Contains(cell, ChoiceSep)
    requires forall k :: 0 <= k < |Split(cell, ChoiceSep)| ==>
      Split(cell, ChoiceSep)[k] != "" && Strip(Split(cell, ChoiceSep)[k]) == Split(cell, ChoiceSep)[k]
    ensures Join(Untagged(McqCell(cell)), ChoiceSep) == cell
  {
    var parts := Split(cell, ChoiceSep);
    NonBlankStrippedKeeps(parts);
    assert Untagged(TagChoices(parts)) == parts;
    JoinSplit(cell, ChoiceSep);
  }

  /** The cells with the choice tag dropped from their end. */
  function Untagged(cells: seq<string>): (r: seq<string>)
    ensures |r| == |cells|
  {
    seq(|cells|, k requires 0 <= k < |cells| =>
      if |cells[k]| >= |McqTag| then cells[k][..|cells[k]| - |McqTag|] else cells[k])
  }

  // ---------------------------------------------------------------------
  // process_mcq_backup
  // ---------------------------------------------------------------------

  /** The `while " / " in cell` loop: the piece before each separator is split
      off in turn and the last piece stays in the cell. */
  method SplitOffChoices(cell: string) returns (last: string, extracted: seq<string>)
    ensures extracted + [last] == Split(cell, ChoiceSep)
  {
    var c := cell;
    extracted := [];
    while Contains(c, ChoiceSep)
      invariant extracted + Split(c, ChoiceSep) == Split(cell, ChoiceSep)
      decreases |c|
    {
      FindContains(c, ChoiceSep);
      var i := Find(c, ChoiceSep, 0);
      assert Split(c, ChoiceSep) == [c[..i]] + Split(c[i + |ChoiceSep|..], ChoiceSep);
      extracted := extracted + [c[..i]];
      c := c[i + |ChoiceSep|..];
    }
    FindContains(c, ChoiceSep);
    last := c;
  }

  /** The pieces split off a row's cells, column by column. */
  function SplitOffs(row: seq<string>): seq<string>
  {
    if row == [] then []
    else
      var parts := Split(row[|row| - 1], ChoiceSep);
      SplitOffs(row[..|row| - 1]) + parts[..|parts| - 1]
  }

  /** A data row under `process_mcq_backup`: each cell keeps its last piece and
      the other pieces are appended. */
  function McqBackupRow(row: seq<string>): seq<string>
  {
    seq(|row|, k requires 0 <= k < |row| => LastPiece(row[k])) + SplitOffs(row)
  }

  /** The piece a cell keeps: what follows its last separator. */
  function LastPiece(cell: string): string
  {
    var parts := Split(cell, ChoiceSep);
    parts[|parts| - 1]
  }

  /** A sequence split into all but its last element and its last element. */
  lemma SplitLast<T>(init: seq<T>, last: T, all: seq<T>)
    requires init + [last] == all
    ensures init == all[..|all| - 1] && last == all[|all| - 1]
  {
    assert all[..|all| - 1] == init;
  }

  /** `process_mcq_backup`: rows after the header are rewritten in place. */
  method ProcessMcqBackup(data: array<seq<string>>)
    modifies data
    ensures data.Length > 0 ==> data[0] == old(data[0])
    ensures forall r :: 1 <= r < data.Length ==> data[r] == McqBackupRow(old(data[r]))
  {
    if data.Length == 0 {
      return;
    }
    for r := 1 to data.Length
      invariant data[0] == old(data[0])
      invariant forall k :: 1 <= k < r ==> data[k] == McqBackupRow(old(data[k]))
      invariant forall k :: r <= k < data.Length ==> data[k] == old(data[k])
    {
      data[r] := McqBackupRowOf(data[r]);
    }
  }

  /** The body of the row loop of `process_mcq_backup`. */
  method McqBackupRowOf(row: seq<string>) returns (out: seq<string>)
    ensures out == McqBackupRow(row)
  {
    var cells := row;
    var extractedValues: seq<string> := [];
    for c := 0 to |row|
      invariant |cells| == |row|
      invariant forall k :: 0 <= k < c ==> cells[k] == LastPiece(row[k])
      invariant forall k :: c <= k < |row| ==> cells[k] == row[k]
      invariant extractedValues == SplitOffs(row[..c])
    {
      var last, extracted := SplitOffChoices(cells[c]);
      SplitLast(extracted, last, Split(row[c], ChoiceSep));
      assert row[..c + 1][..c] == row[..c];
      extractedValues := extractedValues + extracted;
      cells := cells[c := last];
    }
    assert row[..|row|] == row;
    out := cells + extractedValues;
  }

  /** A cell's pieces are all kept: the split-off pieces and the remaining
      piece joined with the separator give back the cell. */
  lemma SplitOffRoundTrip(cell: string)
    ensures var parts := Split(cell, ChoiceSep);
      Join(parts[..|parts| - 1] + [parts[|parts| - 1]], ChoiceSep) == cell
  {
    var parts := Split(cell, ChoiceSep);
    assert parts[..|parts| - 1] + [parts[|parts| - 1]] == parts;
    JoinSplit(cell, ChoiceSep);
  }

  // ---------------------------------------------------------------------
  // process_cloze_backup
  // ---------------------------------------------------------------------

  /** Header name of an answer column. */
  function AnsName(k: nat): string
  {
    NatToString(k) + "Ans"
  }

  /** One pass of the header loop: the name is added unless already present. */
  function AddName(header: seq<string>, name: string): (r: seq<string>)
    ensures name in r
  {
    if name in header then header else header + [name]
  }

  /** The header loop as written: the i-th name is numbered from the length
      the header has reached by then, which grows as names are added. */
  function AddNamesAsWritten(header: seq<string>, m: nat): seq<string>
  {
    if m == 0 then header
    else
      var h := AddNamesAsWritten(header, m - 1);
      AddName(h, AnsName(|h| + m - 1))
  }

  /** The header loop as evidently intended: the i-th name is numbered from the
      header's length before the loop. */
  function AddNames(header: seq<string>, m: nat): seq<string>
  {
    AddNamesFrom(header, |header|, m)
  }

  function AddNamesFrom(header: seq<string>, n: nat, m: nat): seq<string>
  {
    if m == 0 then header else AddName(AddNamesFrom(header, n, m - 1), AnsName(n + m - 1))
  }

  /** The intended loop keeps the header as a prefix and leaves every one of the
      `m` consecutive answer names in it. */
  lemma {:induction false} AddNamesFromNames(header: seq<string>, n: nat, m: nat)
    ensures header <= AddNamesFrom(header, n, m)
    ensures forall k :: n <= k < n + m ==> AnsName(k) in AddNamesFrom(header, n, m)
  {
    if m > 0 {
      var h := AddNamesFrom(header, n, m - 1);
      AddNamesFromNames(header, n, m - 1);
      assert h <= AddName(h, AnsName(n + m - 1));
      forall k | n <= k < n + m ensures AnsName(k) in AddNamesFrom(header, n, m) {
        if k < n + m - 1 {
          assert AnsName(k) in h;
        }
      }
    }
  }

  lemma AddNamesNames(header: seq<string>, m: nat)
    ensures header <= AddNames(header, m)
    ensures forall k :: |header| <= k < |header| + m ==> AnsName(k) in AddNames(header, m)
  {
    AddNamesFromNames(header, |header|, m);
  }

  /** As written, a three-column header and two answers give the names `3Ans`
      and `5Ans`: `4Ans` is skipped. */
  lemma AddNamesAsWrittenSkips(h: seq<string>)
    requires h == ["a", "b", "c"]
    ensures AddNamesAsWritten(h, 2) == h + ["3Ans", "5Ans"]
    ensures "4Ans" !in AddNamesAsWritten(h, 2)
  {
    assert AnsName(3) == "3Ans" by {
      assert NatToString(3) == "3";
    }
    assert AnsName(5) == "5Ans" by {
      assert NatToString(5) == "5";
    }
    var h1 := AddNamesAsWritten(h, 1);
    assert AddNamesAsWritten(h, 0) == h;
    assert "3Ans" !in h;
    assert h1 == h + ["3Ans"];
    assert |h1| + 2 - 1 == 5;
    assert "5Ans" !in h1;
    assert AddNamesAsWritten(h, 2) == h1 + ["5Ans"];
    assert "4Ans"[0] != "3Ans"[0] && "4Ans"[0] != "5Ans"[0];
  }

  /** The header after the given data rows, each adding names for its
      answers when it yields any. */
  function HeaderAfter(header: seq<string>, rows: seq<seq<string>>): seq<string>
    decreases rows
  {
    if rows == [] then header else HeaderAfter(HeaderStep(header, rows[0]), rows[1..])
  }

  /** The header after one data row: names for its answers when it yields any. */
  function HeaderStep(header: seq<string>, row: seq<string>): seq<string>
  {
    AddNamesAsWritten(header, |RowAnswers(row)|)
  }

  /** A data row under `process_cloze_backup`: every cell read, then the
      answers appended without a tag. */
  function ClozeBackupRow(row: seq<string>): seq<string>
  {
    Rewritten(row) + RowAnswers(row)
  }

  /** The column loop of `process_cloze_backup`: cells holding an opening token
      are rescanned; the answers are returned for the row to be extended. */
  method ClozeBackupCells(row: seq<string>) returns (cells: seq<string>, answers: seq<string>)
    ensures cells == Rewritten(row) && answers == RowAnswers(row)
  {
    cells := row;
    answers := [];
    for col := 0 to |row|
      invariant |cells| == |row|
      invariant forall k :: 0 <= k < col ==> cells[k] == Scan(row[k]).0
      invariant forall k :: col <= k < |row| ==> cells[k] == row[k]
      invariant answers == RowAnswers(row[..col])
    {
      assert row[..col + 1][..col] == row[..col];
      if Contains(cells[col], Start) {
        var cell, found := ScanCell(cells[col]);
        answers := answers + found;
        cells := cells[col := cell];
      } else {
        ScanUnchanged(row[col]);
        assert answers + Scan(row[col]).1 == answers;
      }
    }
    assert row[..|row|] == row;
  }

  /** The header loop of `process_cloze_backup`, with the set of names seen. */
  method AddAnswerHeaders(header0: seq<string>, existing0: set<string>, m: nat)
    returns (header: seq<string>, existing: set<string>)
    requires existing0 == set x | x in header0
    ensures header == AddNamesAsWritten(header0, m)
    ensures existing == set x | x in header
  {
    header, existing := header0, existing0;
    for i := 0 to m
      invariant header == AddNamesAsWritten(header0, i)
      invariant existing == set x | x in header
    {
      var name := AnsName(|header| + i);
      if name !in existing {
        header := header + [name];
        existing := existing + {name};
      }
    }
  }

  /** The body of the row loop of `process_cloze_backup`. */
  method ClozeBackupStep(row: seq<string>, header0: seq<string>, existing0: set<string>)
    returns (newRow: seq<string>, header: seq<string>, existing: set<string>)
    requires existing0 == set x | x in header0
    ensures newRow == ClozeBackupRow(row)
    ensures header == HeaderStep(header0, row)
    ensures existing == set x | x in header
  {
    var cells, answers := ClozeBackupCells(row);
    newRow, header, existing := cells, header0, existing0;
    if answers != [] {
      newRow := cells + answers;
      header, existing := AddAnswerHeaders(header, existing, |answers|);
    }
  }

  lemma HeaderAfterFront(header: seq<string>, rows: seq<seq<string>>, i: nat)
    requires i < |rows|
    ensures HeaderAfter(header, rows[i..]) == HeaderAfter(HeaderStep(header, rows[i]), rows[i + 1..])
  {
    assert rows[i..][0] == rows[i] && rows[i..][1..] == rows[i + 1..];
  }

  /** `process_cloze_backup`: the data rows are rewritten in place and the
      header row gains answer names. */
  method ProcessClozeBackup(data: array<seq<string>>)
    modifies data
    ensures data.Length > 0 ==> data[0] == HeaderAfter(old(data[0]), old(data[1..]))
    ensures forall r :: 1 <= r < data.Length ==> data[r] == ClozeBackupRow(old(data[r]))
  {
    if data.Length == 0 {
      return;
    }
    ghost var rows := data[1..];
    ghost var header0 := data[0];
    var header := data[0];
    var existing := set x | x in header;
    for r := 1 to data.Length
      invariant HeaderAfter(header0, rows) == HeaderAfter(header, rows[r - 1..])
      invariant existing == set x | x in header
      invariant data[0] == header0
      invariant forall k :: 1 <= k < r ==> data[k] == ClozeBackupRow(rows[k - 1])
      invariant forall k :: r <= k < data.Length ==> data[k] == rows[k - 1]
    {
      var row := data[r];
      HeaderAfterFront(header, rows, r - 1);
      var newRow;
      newRow, header, existing := ClozeBackupStep(row, header, existing);
      data[r] := newRow;
    }
    assert HeaderAfter(header0, rows) == header by {
      assert rows[data.Length - 1..] == [];
    }
    data[0] := header;
  }

  // ---------------------------------------------------------------------
  // process_4gift
  // ---------------------------------------------------------------------

  /** The question run from column `col`: stripped cells up to and including
      the first one holding a `$`, and that column; no column if none does. */
  function QuestionRun(row: seq<string>, col: nat): (seq<string>, Option<nat>)
    decreases |row| - col
  {
    if col >= |row| then ([], None)
    else
      var cell := Strip(row[col]);
      if HasChar(cell, '$') then ([cell], Some(col))
      else
        var rest := QuestionRun(row, col + 1);
        ([cell] + rest.0, rest.1)
  }

  /** The choice run from column `col`: it stops at the first empty cell or
      `$FIB$` cell; tagged cells give their untagged, stripped text. The column
      is the last tagged one. */
  function McqRun(row: seq<string>, col: nat): (seq<string>, Option<nat>)
    decreases |row| - col
  {
    if col >= |row| then ([], None)
    else
      var cell := Strip(row[col]);
      if cell == "" || Contains(cell, FibTag) then ([], None)
      else
        var rest := McqRun(row, col + 1);
        (McqChoice(cell) + rest.0, if rest.1.None? && Contains(cell, McqTag) then Some(col) else rest.1)
  }

  /** What one choice-run cell that does not end the run contributes. */
  function McqChoice(cell: string): seq<string>
  {
    if Contains(cell, McqTag) then [Strip(Replace(cell, McqTag, ""))] else []
  }

  /** The answer run from column `col`: it stops at the first empty cell;
      `$FIB$` cells give their untagged, stripped text. */
  function FibRun(row: seq<string>, col: nat): seq<string>
    decreases |row| - col
  {
    if col >= |row| then []
    else
      var cell := Strip(row[col]);
      if cell == "" then []
      else FibAnswer(cell) + FibRun(row, col + 1)
  }

  /** What one non-empty answer-run cell contributes. */
  function FibAnswer(cell: string): seq<string>
  {
    if Contains(cell, FibTag) then [Strip(Replace(cell, FibTag, ""))] else []
  }

  /** The distractor text: ` ~` and the option for each option other than the
      answer, compared exactly. */
  function Distractors(options: seq<string>, answer: string): string
  {
    if options == [] then ""
    else
      var o := options[|options| - 1];
      Distractors(options[..|options| - 1], answer) + (if o != answer then " ~" + o else "")
  }

  /** The cloze written in place of the placeholder. */
  function ClozeText(answer: string, options: seq<string>): string
  {
    "{=" + answer + Distractors(options, answer) + "}"
  }

  /** The entry emitted for the row at `index`, or none when the row is skipped. */
  function GiftEntry(index: nat, row: seq<string>): Option<string>
  {
    if |row| < 2 then None
    else
      var q := QuestionRun(row, 1);
      if q.1.None? then None
      else EntryAfterQuestion(index, row, q.0, q.1.value)
  }

  /** The rest of the entry once the question ends at column `col`: the choices
      follow it, the answers follow the last choice, and the first answer is
      the correct one. */
  function EntryAfterQuestion(index: nat, row: seq<string>, parts: seq<string>, col: nat): Option<string>
  {
    var m := McqRun(row, col + 1);
    var fib := if m.1.Some? then FibRun(row, m.1.value + 1) else [];
    if fib == [] then None
    else Some(GiftQuestion(index, parts, fib[0], m.0))
  }

  /** The GIFT text for row `index`: its question lines with the placeholder
      replaced by the cloze built from `answer` and `options`. */
  function GiftQuestion(index: nat, parts: seq<string>, answer: string, options: seq<string>): string
  {
    "::" + NatToString(index) + ":: " + Replace(Join(parts, "\n"), Blank, ClozeText(answer, options)) + "\n"
  }

  /** The entries for a table, in row order; each is numbered by its row. */
  function GiftEntries(data: seq<seq<string>>): seq<string>
  {
    if data == [] then []
    else
      var e := GiftEntry(|data| - 1, data[|data| - 1]);
      GiftEntries(data[..|data| - 1]) + (if e.Some? then [e.value] else [])
  }

  /** Step 1 of `process_4gift`. */
  method CollectQuestion(row: seq<string>) returns (parts: seq<string>, blank: Option<nat>)
    ensures (parts, blank) == QuestionRun(row, 1)
  {
    parts := [];
    blank := None;
    var col: nat := 1;
    while col < |row|
      invariant 1 <= col
      invariant parts + QuestionRun(row, col).0 == QuestionRun(row, 1).0
      invariant QuestionRun(row, col).1 == QuestionRun(row, 1).1
      decreases |row| - col
    {
      var cell := Strip(row[col]);
      if !HasChar(cell, '$') {
        assert QuestionRun(row, col).0 == [cell] + QuestionRun(row, col + 1).0;
        AppendAssoc(parts, [cell], QuestionRun(row, col + 1).0);
        parts := parts + [cell];
      } else {
        assert QuestionRun(row, col) == ([cell], Some(col));
        parts := parts + [cell];
        blank := Some(col);
        return;
      }
      col := col + 1;
    }
    assert QuestionRun(row, col) == ([], None);
    assert parts + [] == parts;
  }

  /** Step 2 of `process_4gift`. */
  method CollectChoices(row: seq<string>, from: nat) returns (options: seq<string>, last: Option<nat>)
    ensures (options, last) == McqRun(row, from)
  {
    options := [];
    last := None;
    var col: nat := from;
    while col < |row|
      invariant from <= col
      invariant options + McqRun(row, col).0 == McqRun(row, from).0
      invariant McqRun(row, from).1 == (if McqRun(row, col).1.Some? then McqRun(row, col).1 else last)
      decreases |row| - col
    {
      var cell := Strip(row[col]);
      if cell == "" {
        assert McqRun(row, col) == ([], None);
        break;
      }
      if Contains(cell, FibTag) {
        assert McqRun(row, col) == ([], None);
        break;
      }
      ghost var rest := McqRun(row, col + 1);
      assert McqRun(row, col) ==
        (McqChoice(cell) + rest.0, if rest.1.None? && Contains(cell, McqTag) then Some(col) else rest.1);
      AppendAssoc(options, McqChoice(cell), rest.0);
      if Contains(cell, McqTag) {
        var choice := Strip(Replace(cell, McqTag, ""));
        assert McqChoice(cell) == [choice];
        options := options + [choice];
        last := Some(col);
        assert options + rest.0 == McqRun(row, from).0;
      } else {
        assert options + McqChoice(cell) == options;
        assert options + rest.0 == McqRun(row, from).0;
      }
      col := col + 1;
      assert rest == McqRun(row, col);
      assert options + McqRun(row, col).0 == McqRun(row, from).0;
    }
    assert McqRun(row, col).0 == [] && McqRun(row, col).1 == None;
    assert options + [] == options;
  }

  /** Step 3 of `process_4gift`, after the last choice column. */
  method CollectAnswers(row: seq<string>, from: nat) returns (fib: seq<string>)
    ensures fib == FibRun(row, from)
  {
    fib := [];
    var col: nat := from;
    while col < |row|
      invariant from <= col
      invariant fib + FibRun(row, col) == FibRun(row, from)
      decreases |row| - col
    {
      var cell := Strip(row[col]);
      if cell == "" {
        assert FibRun(row, col) == [];
        break;
      }
      assert FibRun(row, col) == FibAnswer(cell) + FibRun(row, col + 1);
      AppendAssoc(fib, FibAnswer(cell), FibRun(row, col + 1));
      if Contains(cell, FibTag) {
        cell := Strip(Replace(cell, FibTag, ""));
        fib := fib + [cell];
      } else {
        assert fib + FibAnswer(cell) == fib;
      }
      col := col + 1;
    }
    assert fib + [] == fib;
  }

  /** Step 5 of `process_4gift`. */
  method BuildCloze(answer: string, options: seq<string>) returns (cloze: string)
    ensures cloze == ClozeText(answer, options)
  {
    cloze := "{=";
    cloze := cloze + answer;
    for i := 0 to |options|
      invariant cloze == "{=" + answer + Distractors(options[..i], answer)
    {
      assert options[..i + 1][..i] == options[..i];
      if options[i] != answer {
        cloze := cloze + " ~" + options[i];
      }
    }
    assert options[..|options|] == options;
    cloze := cloze + "}";
  }

  /** Steps 5 and 6 of `process_4gift`: the cloze replaces the placeholder in
      the joined question. */
  method RenderEntry(index: nat, parts: seq<string>, answer: string, options: seq<string>) returns (text: string)
    ensures text == GiftQuestion(index, parts, answer, options)
  {
    var question := Join(parts, "\n");
    var cloze := BuildCloze(answer, options);
    question := Replace(question, Blank, cloze);
    text := "::" + NatToString(index) + ":: " + question + "\n";
  }

  /** The body of the row loop of `process_4gift`. */
  method GiftRow(index: nat, row: seq<string>) returns (entry: Option<string>)
    ensures entry == GiftEntry(index, row)
  {
    if |row| < 2 {
      return None;
    }
    var parts, blank := CollectQuestion(row);
    if blank == None {
      return None;
    }
    entry := FinishEntry(index, row, parts, blank.value);
  }

  /** Steps 2 to 6 of `process_4gift`, once the question ends at column `col`. */
  method FinishEntry(index: nat, row: seq<string>, parts: seq<string>, col: nat) returns (entry: Option<string>)
    ensures entry == EntryAfterQuestion(index, row, parts, col)
  {
    var options, last := CollectChoices(row, col + 1);
    var fib: seq<string> := [];
    if last != None {
      fib := CollectAnswers(row, last.value + 1);
    }
    if fib == [] {
      return None;
    }
    var text := RenderEntry(index, parts, fib[0], options);
    entry := Some(text);
    ghost var m := McqRun(row, col + 1);
    assert m.0 == options && m.1 == last;
    assert m.1.Some? && FibRun(row, m.1.value + 1) == fib;
  }

  /** `process_4gift`: one entry per row that is not skipped, in row order. */
  method Process4Gift(data: seq<seq<string>>) returns (out: seq<string>)
    ensures out == GiftEntries(data)
  {
    out := [];
    for r := 0 to |data|
      invariant out == GiftEntries(data[..r])
    {
      assert data[..r + 1][..r] == data[..r];
      var entry := GiftRow(r, data[r]);
      if entry != None {
        out := out + [entry.value];
      }
    }
    assert data[..|data|] == data;
  }

  /** The question run is the stripped cells from `col` up to and including
      the first one holding a `$`; it has no column exactly when none does. */
  lemma {:induction false} QuestionRunSpec(row: seq<string>, col: nat)
    requires col <= |row|
    ensures QuestionRun(row, col).1.None? <==> forall k :: col <= k < |row| ==> !HasChar(Strip(row[k]), '$')
    ensures QuestionRun(row, col).1.Some? ==>
      col <= QuestionRun(row, col).1.value < |row| &&
      HasChar(Strip(row[QuestionRun(row, col).1.value]), '$') &&
      |QuestionRun(row, col).0| == QuestionRun(row, col).1.value - col + 1 &&
      forall k :: col <= k < QuestionRun(row, col).1.value ==> !HasChar(Strip(row[k]), '$')
    ensures QuestionRun(row, col).1.None? ==> |QuestionRun(row, col).0| == |row| - col
    decreases |row| - col
  {
    if col < |row| && !HasChar(Strip(row[col]), '$') {
      QuestionRunSpec(row, col + 1);
      var rest := QuestionRun(row, col + 1);
      var q := QuestionRun(row, col);
      assert q == ([Strip(row[col])] + rest.0, rest.1);
      if q.1.Some? {
        forall k | col <= k < q.1.value
          ensures !HasChar(Strip(row[k]), '$')
        {
          if k > col {
            assert col + 1 <= k < rest.1.value;
          }
        }
      }
    }
  }

  /** Each question part is the stripped cell of its own column. */
  lemma {:induction false} QuestionRunCells(row: seq<string>, col: nat)
    requires col <= |row|
    ensures col + |QuestionRun(row, col).0| <= |row|
    ensures forall k :: col <= k < col + |QuestionRun(row, col).0| ==> QuestionRun(row, col).0[k - col] == Strip(row[k])
    decreases |row| - col
  {
    if col < |row| && !HasChar(Strip(row[col]), '$') {
      QuestionRunCells(row, col + 1);
      var rest := QuestionRun(row, col + 1).0;
      var parts := QuestionRun(row, col).0;
      assert parts == [Strip(row[col])] + rest;
      forall k | col <= k < col + |parts|
        ensures parts[k - col] == Strip(row[k])
      {
        if k > col {
          assert parts[k - col] == rest[k - (col + 1)];
        }
      }
    } else if col < |row| {
      assert QuestionRun(row, col).0 == [Strip(row[col])];
    }
  }

  /** A choice column is recorded exactly when some choice was collected, and
      it holds a `$MCQ$` cell inside the run. */
  lemma {:induction false} McqRunLast(row: seq<string>, col: nat)
    ensures McqRun(row, col).1.Some? <==> McqRun(row, col).0 != []
    ensures McqRun(row, col).1.Some? ==>
      col <= McqRun(row, col).1.value < |row| && Contains(Strip(row[McqRun(row, col).1.value]), McqTag)
    ensures col <= |row| ==> |McqRun(row, col).0| <= |row| - col
    decreases |row| - col
  {
    if col < |row| {
      var cell := Strip(row[col]);
      if cell != "" && !Contains(cell, FibTag) {
        McqRunLast(row, col + 1);
        var rest := McqRun(row, col + 1);
        assert |McqChoice(cell)| <= 1;
        assert McqRun(row, col) ==
          (McqChoice(cell) + rest.0, if rest.1.None? && Contains(cell, McqTag) then Some(col) else rest.1);
      }
    }
  }

  /** Every choice has lost its tag and its surrounding blanks. */
  lemma {:induction false} McqRunStripped(row: seq<string>, col: nat)
    ensures forall o :: o in McqRun(row, col).0 ==> Strip(o) == o
    decreases |row| - col
  {
    if col < |row| {
      var cell := Strip(row[col]);
      if cell != "" && !Contains(cell, FibTag) {
        McqRunStripped(row, col + 1);
        if Contains(cell, McqTag) {
          StripIdempotent(Replace(cell, McqTag, ""));
        }
      }
    }
  }

  /** Answers are collected only from `$FIB$` cells: a run over cells none of
      which is tagged collects nothing. */
  lemma {:induction false} FibRunNeedsTag(row: seq<string>, col: nat)
    requires forall k :: col <= k < |row| ==> !Contains(Strip(row[k]), FibTag)
    ensures FibRun(row, col) == []
    decreases |row| - col
  {
    if col < |row| && Strip(row[col]) != "" {
      FibRunNeedsTag(row, col + 1);
    }
  }

  /** A tagged cell before the first empty one yields an answer. */
  lemma {:induction false} FibRunFinds(row: seq<string>, col: nat, k: nat)
    requires col <= k < |row| && Contains(Strip(row[k]), FibTag)
    requires forall j :: col <= j <= k ==> Strip(row[j]) != ""
    ensures FibRun(row, col) != []
    decreases k - col
  {
    var cell := Strip(row[col]);
    assert FibRun(row, col) == FibAnswer(cell) + FibRun(row, col + 1);
    if col < k {
      FibRunFinds(row, col + 1, k);
    } else {
      assert FibAnswer(cell) != [];
    }
  }

  /** The distractor text of a concatenation is the concatenation of the
      distractor texts. */
  lemma {:induction false} DistractorsConcat(a: seq<string>, b: seq<string>, answer: string)
    ensures Distractors(a + b, answer) == Distractors(a, answer) + Distractors(b, answer)
    decreases |b|
  {
    if b == [] {
      assert a + b == a;
    } else {
      var b' := b[..|b| - 1];
      var o := b[|b| - 1];
      assert (a + b)[..|a + b| - 1] == a + b';
      DistractorsConcat(a, b', answer);
      AppendAssoc(Distractors(a, answer), Distractors(b', answer), if o != answer then " ~" + o else "");
    }
  }

  /** The answer itself is never a distractor: an option equal to it, wherever
      it stands, adds nothing, while any other option adds ` ~` and itself. */
  lemma DistractorsSkipAnswer(a: seq<string>, o: string, b: seq<string>, answer: string)
    ensures Distractors(a + [o] + b, answer) ==
      Distractors(a, answer) + (if o != answer then " ~" + o else "") + Distractors(b, answer)
  {
    DistractorsConcat(a + [o], b, answer);
    DistractorsConcat(a, [o], answer);
    assert [o][..0] == [];
  }

  /** An emitted entry comes from a row with at least two cells and a `$`
      cell from column 1 on, and is numbered by its row. */
  lemma GiftEntryShape(index: nat, row: seq<string>)
    requires GiftEntry(index, row).Some?
    ensures |row| >= 2
    ensures exists k :: 1 <= k < |row| && HasChar(Strip(row[k]), '$')
    ensures exists fib, opts :: GiftEntry(index, row).value == GiftQuestion(index, QuestionRun(row, 1).0, fib, opts)
  {
    QuestionRunSpec(row, 1);
    var b := QuestionRun(row, 1).1.value;
    assert 1 <= b < |row| && HasChar(Strip(row[b]), '$');
  }

  /** When the question holds no placeholder, the cloze is built but never
      written: the entry is the joined question as it stands. */
  lemma GiftQuestionNoBlank(index: nat, parts: seq<string>, answer: string, options: seq<string>)
    requires !Contains(Join(parts, "\n"), Blank)
    ensures GiftQuestion(index, parts, answer, options) == "::" + NatToString(index) + ":: " + Join(parts, "\n") + "\n"
  {
    ReplaceAbsent(Join(parts, "\n"), Blank, ClozeText(answer, options));
  }

  /** When the question holds the placeholder, the entry carries the cloze. */
  lemma GiftQuestionHasCloze(index: nat, parts: seq<string>, answer: string, options: seq<string>)
    requires Contains(Join(parts, "\n"), Blank)
    ensures Contains(GiftQuestion(index, parts, answer, options), ClozeText(answer, options))
  {
    var q := Join(parts, "\n");
    var r := Replace(q, Blank, ClozeText(answer, options));
    ReplaceInserts(q, Blank, ClozeText(answer, options));
    var pre := "::" + NatToString(index) + ":: ";
    ContainsInfix(pre, r, "\n", ClozeText(answer, options));
    assert GiftQuestion(index, parts, answer, options) == pre + r + "\n";
  }

  /** The entries are exactly those of the rows that are not skipped, each
      numbered by its own row index, which counts skipped rows too. */
  lemma GiftEntriesRows(data: seq<seq<string>>)
    ensures forall k :: 0 <= k < |data| && GiftEntry(k, data[k]).Some? ==> GiftEntry(k, data[k]).value in GiftEntries(data)
    ensures forall e :: e in GiftEntries(data) ==> exists k :: 0 <= k < |data| && GiftEntry(k, data[k]) == Some(e)
    ensures |GiftEntries(data)| <= |data|
  {
    var opts := EntryOptions(data);
    GiftEntriesPresent(data);
    PresentSpec(opts);
    forall k | 0 <= k < |data| ensures opts[k] == GiftEntry(k, data[k]) { }
  }

  /** What each row yields, in row order. */
  function EntryOptions(data: seq<seq<string>>): (r: seq<Option<string>>)
    ensures |r| == |data|
  {
    seq(|data|, k requires 0 <= k < |data| => GiftEntry(k, data[k]))
  }

  /** The values present in a sequence of options, in order. */
  function Present<T>(opts: seq<Option<T>>): seq<T>
  {
    if opts == [] then []
    else
      var e := opts[|opts| - 1];
      Present(opts[..|opts| - 1]) + (if e.Some? then [e.value] else [])
  }

  /** Every present value is kept, nothing else is, and none is added. */
  lemma {:induction false} PresentSpec<T>(opts: seq<Option<T>>)
    ensures forall k :: 0 <= k < |opts| && opts[k].Some? ==> opts[k].value in Present(opts)
    ensures forall e :: e in Present(opts) ==> exists k :: 0 <= k < |opts| && opts[k] == Some(e)
    ensures |Present(opts)| <= |opts|
  {
    if opts != [] {
      var init := opts[..|opts| - 1];
      PresentSpec(init);
      forall e | e in Present(opts) ensures exists k :: 0 <= k < |opts| && opts[k] == Some(e) {
        if e in Present(init) {
          var k :| 0 <= k < |init| && init[k] == Some(e);
          assert opts[k] == init[k];
        } else {
          assert opts[|init|] == Some(e);
        }
      }
    }
  }

  /** `GiftEntries` keeps the entries the rows yield. */
  lemma {:induction false} GiftEntriesPresent(data: seq<seq<string>>)
    ensures GiftEntries(data) == Present(EntryOptions(data))
  {
    if data != [] {
      var init := data[..|data| - 1];
      GiftEntriesPresent(init);
      assert EntryOptions(data)[..|init|] == EntryOptions(init);
    }
  }

  // ---------------------------------------------------------------------
  // process_4gift_backup
  // ---------------------------------------------------------------------

  /** The question block built from a row of at least four cells: the stripped
      third cell has every placeholder replaced by `{=` answer `}`, where the
      answer is the stripped fourth cell. */
  function FillBlock(row: seq<string>): string
    requires |row| >= 4
  {
    var q1 := Strip(row[1]);
    var q2 := Strip(row[2]);
    var ans := Strip(row[3]);
    "::Question::\n" + q1 + "\n" + Replace(q2, Blank, "{=" + ans + "}") + "\n"
  }

  /** Python's message for the failing row access. */
  const IndexOutOfRange := "list index out of range"

  /** `process_4gift_backup` reads cells 1 to 3 of every row without a length
      check, so one short row makes the whole call fail. */
  function BackupBlocks(data: seq<seq<string>>): Result<seq<string>>
  {
    if data == [] then Success([])
    else
      var init := BackupBlocks(data[..|data| - 1]);
      var row := data[|data| - 1];
      if init.Failure? then init
      else if |row| < 4 then Failure(IndexOutOfRange)
      else Success(init.value + [FillBlock(row)])
  }

  /** The block of one row, as `process_4gift_backup` builds it step by step. */
  method FillBlockOf(row: seq<string>) returns (block: string)
    requires |row| >= 4
    ensures block == FillBlock(row)
  {
    var q1 := Strip(row[1]);
    var q2 := Strip(row[2]);
    var ans := Strip(row[3]);
    if Contains(q2, Blank) {
      q2 := Replace(q2, Blank, "{=" + ans + "}");
    } else {
      ReplaceAbsent(q2, Blank, "{=" + ans + "}");
    }
    var full := q1 + "\n" + q2;
    block := "::Question::\n" + full + "\n";
  }

  /** `process_4gift_backup`. */
  method Process4GiftBackup(data: seq<seq<string>>) returns (r: Result<seq<string>>)
    ensures r == BackupBlocks(data)
  {
    var blocks: seq<string> := [];
    for i := 0 to |data|
      invariant BackupBlocks(data[..i]) == Success(blocks)
    {
      assert data[..i + 1][..i] == data[..i];
      if |data[i]| < 4 {
        assert BackupBlocks(data[..i + 1]) == Failure(IndexOutOfRange);
        FailureStays(data, i + 1);
        return Failure(IndexOutOfRange);
      }
      var block := FillBlockOf(data[i]);
      blocks := blocks + [block];
    }
    assert data[..|data|] == data;
    r := Success(blocks);
  }

  /** Once a prefix fails, the whole table fails. */
  lemma {:induction false} FailureStays(data: seq<seq<string>>, i: nat)
    requires i <= |data| && BackupBlocks(data[..i]).Failure?
    ensures BackupBlocks(data) == BackupBlocks(data[..i])
    decreases |data| - i
  {
    if i < |data| {
      assert data[..i + 1][..i] == data[..i];
      FailureStays(data, i + 1);
    } else {
      assert data[..i] == data;
    }
  }

  /** The call fails exactly when some row has fewer than four cells; otherwise
      there is one block per row, in row order. */
  lemma {:induction false} BackupBlocksSpec(data: seq<seq<string>>)
    ensures BackupBlocks(data).Failure? <==> exists k :: 0 <= k < |data| && |data[k]| < 4
    ensures BackupBlocks(data).Success? ==>
      |BackupBlocks(data).value| == |data| &&
      forall k :: 0 <= k < |data| ==> |data[k]| >= 4 && BackupBlocks(data).value[k] == FillBlock(data[k])
  {
    if data != [] {
      var init := data[..|data| - 1];
      BackupBlocksSpec(init);
      if exists k :: 0 <= k < |init| && |init[k]| < 4 {
        var k :| 0 <= k < |init| && |init[k]| < 4;
        assert data[k] == init[k];
      }
      if exists k :: 0 <= k < |data| && |data[k]| < 4 {
        var k :| 0 <= k < |data| && |data[k]| < 4;
        if k < |init| {
          assert init[k] == data[k];
        }
      }
      if BackupBlocks(data).Success? {
        forall k | 0 <= k < |data|
          ensures |data[k]| >= 4 && BackupBlocks(data).value[k] == FillBlock(data[k])
        {
          if k < |init| {
            assert init[k] == data[k];
          }
        }
      }
    }
  }

  /** A question holding the placeholder gets the answer cloze; one without it
      is kept as it stands. */
  lemma FillBlockCloze(row: seq<string>)
    requires |row| >= 4
    ensures Contains(Strip(row[2]), Blank) ==> Contains(FillBlock(row), "{=" + Strip(row[3]) + "}")
    ensures !Contains(Strip(row[2]), Blank) ==>
      FillBlock(row) == "::Question::\n" + Strip(row[1]) + "\n" + Strip(row[2]) + "\n"
  {
    var q2 := Strip(row[2]);
    var c := "{=" + Strip(row[3]) + "}";
    if Contains(q2, Blank) {
      ReplaceInserts(q2, Blank, c);
      ContainsInfix("::Question::\n" + Strip(row[1]) + "\n", Replace(q2, Blank, c), "\n", c);
    } else {
      ReplaceAbsent(q2, Blank, c);
    }
  }

  // ---------------------------------------------------------------------
  // process_4gift_notgood
  // ---------------------------------------------------------------------

  /** What the token scan of one row has gathered so far. */
  datatype Tokens = Tokens(blanks: nat, options: seq<string>, answers: seq<string>)

  /** The text written in place of each placeholder. */
  const Underline := "_____"

  /** The placeholder holds two `$` and its replacement none. */
  lemma BlankDollars()
    ensures CharCount(Blank, '$') == 2 && CharCount(Underline, '$') == 0
  {
    assert Blank == "$" + "Blankspace" + "$";
    CharCountConcat("$" + "Blankspace", "$", '$');
    CharCountConcat("$", "Blankspace", '$');
    CharCountNone("Blankspace", '$');
    CharCountNone(Underline, '$');
    assert "$"[..0] == "";
  }

  /** The rescanning of one token cell: while a `$` is left, placeholders
      become underlines and are counted; otherwise a `$MCQ$` cell gives an
      option and a `$FIB$` cell an answer (when their untagged text is not
      blank) and is emptied, and any other cell loses its `$` signs. */
  function Rescan(cell: string, t: Tokens): (r: (string, Tokens))
    ensures !HasChar(r.0, '$')
    decreases CharCount(cell, '$')
  {
    HasCharCount(cell, '$');
    if !HasChar(cell, '$') then (cell, t)
    else if Contains(cell, Blank) then
      BlankDollars();
      ReplaceCharCount(cell, Blank, Underline, '$');
      Rescan(Replace(cell, Blank, Underline), t.(blanks := t.blanks + 1))
    else if Contains(cell, McqTag) then
      var text := Strip(Replace(cell, McqTag, ""));
      Rescan("", if text != "" then t.(options := t.options + [text]) else t)
    else if Contains(cell, FibTag) then
      var text := Strip(Replace(cell, FibTag, ""));
      Rescan("", if text != "" then t.(answers := t.answers + [text]) else t)
    else
      ContainsChar(cell, '$');
      assert CharCount("$", '$') == 1 by { assert "$"[..0] == ""; }
      ReplaceCharCount(cell, "$", "", '$');
      Rescan(Replace(cell, "$", ""), t)
  }

  /** Phase one: stripped cells without `$` are question text, empty ones are
      skipped, and the first token cell is rescanned, its stripped remainder
      (when not blank) ends the question. Gives the question parts, the
      tokens and the column after that cell. */
  function QuestionPhase(row: seq<string>, col: nat, parts: seq<string>, t: Tokens): (r: (seq<string>, Tokens, nat))
    decreases |row| - col
  {
    if col >= |row| then (parts, t, col)
    else
      var cell := Strip(row[col]);
      if cell == "" then QuestionPhase(row, col + 1, parts, t)
      else if !HasChar(cell, '$') then QuestionPhase(row, col + 1, parts + [cell], t)
      else
        var r := Rescan(cell, t);
        (if Strip(r.0) != "" then parts + [Strip(r.0)] else parts, r.1, col + 1)
  }

  /** Phase two: every later non-empty cell is rescanned for its tokens only. */
  function TokenPhase(row: seq<string>, col: nat, t: Tokens): Tokens
    decreases |row| - col
  {
    if col >= |row| then t
    else
      var cell := Strip(row[col]);
      TokenPhase(row, col + 1, if cell == "" then t else Rescan(cell, t).1)
  }

  /** One line per option: `=` when it is also an answer, `~` otherwise. */
  function OptionLines(options: seq<string>, answers: seq<string>): string
  {
    if options == [] then ""
    else
      var o := options[|options| - 1];
      OptionLines(options[..|options| - 1], answers) + (if o in answers then "=" else "~") + o + "\n"
  }

  /** The GIFT text: a blank question lists the answers, a question with
      options lists them marked, anything else is a description. */
  function RenderTokens(text: string, t: Tokens): string
  {
    if t.blanks > 0 then
      text + " { " + (if t.answers != [] then " = " + Join(t.answers, " = ") else "") + " }"
    else if t.options != [] then
      text + " {\n" + OptionLines(t.options, t.answers) + "}"
    else
      text + " {}"
  }

  /** The entry for one row, or none when it has at most one cell or its
      question text is blank. */
  function NotgoodEntry(row: seq<string>): Option<string>
  {
    if |row| <= 1 then None
    else
      var q := QuestionPhase(row, 1, [], Tokens(0, [], []));
      var t := TokenPhase(row, q.2, q.1);
      var text := Strip(Join(q.0, "\n"));
      if text == "" then None else Some(RenderTokens(text, t))
  }

  /** The entries of a table, in row order. */
  function NotgoodEntries(data: seq<seq<string>>): seq<string>
  {
    if data == [] then []
    else
      var e := NotgoodEntry(data[|data| - 1]);
      NotgoodEntries(data[..|data| - 1]) + (if e.Some? then [e.value] else [])
  }

  /** The inner `while` loop that rescans one token cell. */
  method RescanCell(cell0: string, t0: Tokens) returns (cell: string, t: Tokens)
    ensures (cell, t) == Rescan(cell0, t0)
  {
    cell := cell0;
    t := t0;
    HasCharCount(cell, '$');
    while HasChar(cell, '$')
      invariant Rescan(cell, t) == Rescan(cell0, t0)
      decreases CharCount(cell, '$')
    {
      if Contains(cell, Blank) {
        BlankDollars();
        ReplaceCharCount(cell, Blank, Underline, '$');
        t := t.(blanks := t.blanks + 1);
        cell := Replace(cell, Blank, Underline);
      } else if Contains(cell, McqTag) {
        var text := Strip(Replace(cell, McqTag, ""));
        if text != "" {
          t := t.(options := t.options + [text]);
        }
        HasCharCount(cell, '$');
        cell := "";
      } else if Contains(cell, FibTag) {
        var text := Strip(Replace(cell, FibTag, ""));
        if text != "" {
          t := t.(answers := t.answers + [text]);
        }
        HasCharCount(cell, '$');
        cell := "";
      } else {
        HasCharCount(cell, '$');
        ContainsChar(cell, '$');
        assert CharCount("$", '$') == 1 by { assert "$"[..0] == ""; }
        ReplaceCharCount(cell, "$", "", '$');
        cell := Replace(cell, "$", "");
      }
      HasCharCount(cell, '$');
    }
  }

  /** The body of the row loop of `process_4gift_notgood`. */
  method NotgoodRow(row: seq<string>) returns (entry: Option<string>)
    ensures entry == NotgoodEntry(row)
  {
    if |row| <= 1 {
      return None;
    }
    var parts, t, col := QuestionCells(row);
    t := TokenCells(row, col, t);
    var text := Strip(Join(parts, "\n"));
    if text == "" {
      return None;
    }
    var gift := RenderGift(text, t);
    entry := Some(gift);
  }

  /** Phase one of a row. */
  method QuestionCells(row: seq<string>) returns (parts: seq<string>, t: Tokens, col: nat)
    ensures (parts, t, col) == QuestionPhase(row, 1, [], Tokens(0, [], []))
  {
    parts := [];
    t := Tokens(0, [], []);
    col := 1;
    while col < |row|
      invariant QuestionPhase(row, col, parts, t) == QuestionPhase(row, 1, [], Tokens(0, [], []))
      decreases |row| - col
    {
      var cell := Strip(row[col]);
      if cell == "" {
        col := col + 1;
        continue;
      }
      if !HasChar(cell, '$') {
        parts := parts + [cell];
        col := col + 1;
        continue;
      }
      cell, t := RescanCell(cell, t);
      if Strip(cell) != "" {
        parts := parts + [Strip(cell)];
      }
      col := col + 1;
      return;
    }
  }

  /** Phase two of a row. */
  method TokenCells(row: seq<string>, from: nat, t0: Tokens) returns (t: Tokens)
    ensures t == TokenPhase(row, from, t0)
  {
    t := t0;
    var col := from;
    while col < |row|
      invariant TokenPhase(row, col, t) == TokenPhase(row, from, t0)
      decreases |row| - col
    {
      var cell := Strip(row[col]);
      if cell == "" {
        col := col + 1;
        continue;
      }
      cell, t := RescanCell(cell, t);
      col := col + 1;
    }
  }

  /** Step 3 of `process_4gift_notgood`. */
  method RenderGift(text: string, t: Tokens) returns (gift: string)
    ensures gift == RenderTokens(text, t)
  {
    if t.blanks > 0 {
      var answerBlock := "";
      if t.answers != [] {
        answerBlock := " = " + Join(t.answers, " = ");
      }
      gift := text + " { " + answerBlock + " }";
    } else if t.options != [] {
      var optBlock := "";
      for i := 0 to |t.options|
        invariant optBlock == OptionLines(t.options[..i], t.answers)
      {
        assert t.options[..i + 1][..i] == t.options[..i];
        if t.options[i] in t.answers {
          optBlock := optBlock + "=" + t.options[i] + "\n";
        } else {
          optBlock := optBlock + "~" + t.options[i] + "\n";
        }
      }
      assert t.options[..|t.options|] == t.options;
      gift := text + " {\n" + optBlock + "}";
    } else {
      gift := text + " {}";
    }
  }

  /** `process_4gift_notgood`: one entry per row that is not skipped. */
  method Process4GiftNotgood(data: seq<seq<string>>) returns (out: seq<string>)
    ensures out == NotgoodEntries(data)
  {
    out := [];
    for r := 0 to |data|
      invariant out == NotgoodEntries(data[..r])
    {
      assert data[..r + 1][..r] == data[..r];
      var entry := NotgoodRow(data[r]);
      if entry != None {
        out := out + [entry.value];
      }
    }
    assert data[..|data|] == data;
  }

  /** `u` holds everything `t` held, and possibly more. */
  predicate Extends(t: Tokens, u: Tokens)
  {
    t.blanks <= u.blanks && t.options <= u.options && t.answers <= u.answers
  }

  /** Rescanning a cell only adds to the tokens, and at most one option or
      one answer. */
  lemma {:induction false} RescanExtends(cell: string, t: Tokens)
    ensures Extends(t, Rescan(cell, t).1)
    ensures |Rescan(cell, t).1.options| + |Rescan(cell, t).1.answers| <= |t.options| + |t.answers| + 1
    decreases CharCount(cell, '$')
  {
    HasCharCount(cell, '$');
    if HasChar(cell, '$') {
      if Contains(cell, Blank) {
        var next := Replace(cell, Blank, Underline);
        var u := t.(blanks := t.blanks + 1);
        RescanBlankStep(cell, t, next, u);
        RescanExtends(next, u);
      } else if Contains(cell, McqTag) || Contains(cell, FibTag) {
        HasCharCount("", '$');
      } else {
        var next := Replace(cell, "$", "");
        RescanDropStep(cell, t, next);
        RescanExtends(next, t);
      }
    }
  }

  /** A cell with the placeholder is rescanned as its rewritten self with one
      more blank, and holds fewer `$` signs after the rewrite. */
  lemma RescanBlankStep(cell: string, t: Tokens, next: string, u: Tokens)
    requires HasChar(cell, '$') && Contains(cell, Blank)
    requires next == Replace(cell, Blank, Underline) && u == t.(blanks := t.blanks + 1)
    ensures CharCount(next, '$') < CharCount(cell, '$')
    ensures Rescan(cell, t) == Rescan(next, u)
  {
    BlankDollars();
    ReplaceCharCount(cell, Blank, Underline, '$');
  }

  /** A cell with a `$` but no placeholder and no tag is rescanned as itself
      without its `$` signs, which are then fewer. */
  lemma RescanDropStep(cell: string, t: Tokens, next: string)
    requires HasChar(cell, '$') && !Contains(cell, Blank)
    requires !Contains(cell, McqTag) && !Contains(cell, FibTag)
    requires next == Replace(cell, "$", "")
    ensures CharCount(next, '$') < CharCount(cell, '$')
    ensures Rescan(cell, t) == Rescan(next, t)
  {
    ContainsChar(cell, '$');
    assert CharCount("$", '$') == 1 by { assert "$"[..0] == ""; }
    ReplaceCharCount(cell, "$", "", '$');
  }

  /** A cell holding the placeholder counts at least one blank. */
  lemma RescanCountsBlank(cell: string, t: Tokens)
    requires Contains(cell, Blank)
    ensures Rescan(cell, t).1.blanks > t.blanks
  {
    BlankHasDollar(cell);
    HasCharCount(cell, '$');
    BlankDollars();
    ReplaceCharCount(cell, Blank, Underline, '$');
    var next := Replace(cell, Blank, Underline);
    var u := t.(blanks := t.blanks + 1);
    assert Rescan(cell, t) == Rescan(next, u);
    RescanExtends(next, u);
  }

  /** A text holding the placeholder holds a `$`. */
  lemma BlankHasDollar(cell: string)
    ensures Contains(cell, Blank) ==> HasChar(cell, '$')
  {
    if Contains(cell, Blank) {
      var i :| 0 <= i <= |cell| - |Blank| && StartsAt(cell, i, Blank);
      assert cell[i] == cell[i..i + |Blank|][0] == '$';
    }
  }

  /** Phase two only adds to the tokens. */
  lemma {:induction false} TokenPhaseExtends(row: seq<string>, col: nat, t: Tokens)
    ensures Extends(t, TokenPhase(row, col, t))
    decreases |row| - col
  {
    if col < |row| {
      var cell := Strip(row[col]);
      var u := if cell == "" then t else Rescan(cell, t).1;
      if cell != "" {
        RescanExtends(cell, t);
      }
      TokenPhaseExtends(row, col + 1, u);
    }
  }

  /** Every question part is non-blank text without `$`. */
  lemma {:induction false} QuestionPhaseClean(row: seq<string>, col: nat, parts: seq<string>, t: Tokens)
    requires forall k :: 0 <= k < |parts| ==> !HasChar(parts[k], '$')
    ensures forall k :: 0 <= k < |QuestionPhase(row, col, parts, t).0| ==> !HasChar(QuestionPhase(row, col, parts, t).0[k], '$')
    decreases |row| - col
  {
    if col < |row| {
      var cell := Strip(row[col]);
      if cell == "" {
        QuestionPhaseClean(row, col + 1, parts, t);
      } else if !HasChar(cell, '$') {
        QuestionPhaseClean(row, col + 1, parts + [cell], t);
      } else {
        var r := Rescan(cell, t);
        StripNoChar(r.0, '$');
      }
    }
  }

  /** No token survives into the question text of an entry. */
  lemma NotgoodTextClean(row: seq<string>)
    requires |row| > 1
    ensures !HasChar(Strip(Join(QuestionPhase(row, 1, [], Tokens(0, [], [])).0, "\n")), '$')
  {
    var parts := QuestionPhase(row, 1, [], Tokens(0, [], [])).0;
    QuestionPhaseClean(row, 1, [], Tokens(0, [], []));
    JoinNoChar(parts, "\n", '$');
    StripNoChar(Join(parts, "\n"), '$');
  }

  /** The option lines of a concatenation are the concatenated lines. */
  lemma {:induction false} OptionLinesConcat(a: seq<string>, b: seq<string>, answers: seq<string>)
    ensures OptionLines(a + b, answers) == OptionLines(a, answers) + OptionLines(b, answers)
    decreases |b|
  {
    if b == [] {
      assert a + b == a;
    } else {
      var b' := b[..|b| - 1];
      var o := b[|b| - 1];
      assert (a + b)[..|a + b| - 1] == a + b';
      OptionLinesConcat(a, b', answers);
    }
  }

  /** With a placeholder the options are ignored; without one and without
      options the answers are ignored too. */
  lemma RenderTokensIgnores(text: string, t: Tokens)
    ensures t.blanks > 0 ==> RenderTokens(text, t) == RenderTokens(text, t.(options := []))
    ensures t.blanks == 0 && t.options == [] ==> RenderTokens(text, t) == RenderTokens(text, t.(answers := []))
  {
  }

  /** At most one entry per row. */
  lemma {:induction false} NotgoodEntriesCount(data: seq<seq<string>>)
    ensures |NotgoodEntries(data)| <= |data|
  {
    if data != [] {
      NotgoodEntriesCount(data[..|data| - 1]);
    }
  }
}
