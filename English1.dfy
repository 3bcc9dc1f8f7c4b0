/// The processor of exercise sheet 1: a single cloze per cell (`process`) and
/// the three-column blank fill (`process_4gift`).
module English1 {
  import opened Wrappers
  import opened Strings
  import opened Cloze
  import English2

  // ---------------------------------------------------------------------
  // process
  // ---------------------------------------------------------------------

  /** One cell after `process`: the first span from the opening token to the
      next closing token after it becomes the placeholder and its text is the
      answer; a cell without the opening token, or whose opening token is never
      closed, is kept and gives no answer. */
  function FirstCloze(cell: string): (r: (string, Option<string>))
  {
    FindContains(cell, Start);
    if !Contains(cell, Start) then (cell, None)
    else
      var s := Find(cell, Start, 0);
      var e := Find(cell, End, s + |Start|);
      if e == -1 then (cell, None)
      else (cell[..s] + Blank + cell[e + |End|..], Some(cell[s + |Start|..e]))
  }

  /** The answers of a row, one at most per cell, in column order. */
  function FirstAnswers(row: seq<string>): (r: seq<string>)
    ensures |r| <= |row|
  {
    if row == [] then []
    else
      var a := FirstCloze(row[|row| - 1]).1;
      FirstAnswers(row[..|row| - 1]) + (if a.Some? then [a.value] else [])
  }

  /** A row after `process`: every cell rewritten, then its answers appended
      untagged. */
  function SingleClozeRow(row: seq<string>): seq<string>
  {
    seq(|row|, k requires 0 <= k < |row| => FirstCloze(row[k]).0) + FirstAnswers(row)
  }

  /** The body of the column loop of `process`. */
  method RewriteFirst(cell: string) returns (value: string, answer: Option<string>)
    ensures (value, answer) == FirstCloze(cell)
  {
    value := cell;
    answer := None;
    FindContains(cell, Start);
    if Contains(cell, Start) {
      var startPos := Find(cell, Start, 0);
      if startPos != -1 {
        startPos := startPos + |Start|;
        var endPos := Find(cell, End, startPos);
        if endPos != -1 {
          answer := Some(cell[startPos..endPos]);
          value := cell[..startPos - |Start|] + Blank + cell[endPos + |End|..];
        }
      }
    }
  }

  /** The row loop body of `process`: the cells are rewritten in place, the
      answers gathered, then appended one by one. */
  method ProcessRow(row: seq<string>) returns (out: seq<string>)
    ensures out == SingleClozeRow(row)
  {
    var cells := row;
    var answersInRow: seq<string> := [];
    for col := 0 to |row|
      invariant |cells| == |row|
      invariant forall k :: 0 <= k < col ==> cells[k] == FirstCloze(row[k]).0
      invariant forall k :: col <= k < |row| ==> cells[k] == row[k]
      invariant answersInRow == FirstAnswers(row[..col])
    {
      var value, answer := RewriteFirst(cells[col]);
      assert row[..col + 1][..col] == row[..col];
      if answer != None {
        answersInRow := answersInRow + [answer.value];
      }
      cells := cells[col := value];
    }
    assert row[..|row|] == row;
    ghost var rewritten := cells;
    for i := 0 to |answersInRow|
      invariant cells == rewritten + answersInRow[..i]
    {
      assert answersInRow[..i + 1] == answersInRow[..i] + [answersInRow[i]];
      cells := cells + [answersInRow[i]];
    }
    assert answersInRow[..|answersInRow|] == answersInRow;
    out := cells;
  }

  /** `process`: every row of the table is rewritten in place. */
  method Process(data: array<seq<string>>)
    modifies data
    ensures forall r :: 0 <= r < data.Length ==> data[r] == SingleClozeRow(old(data[r]))
  {
    for r := 0 to data.Length
      invariant forall k :: 0 <= k < r ==> data[k] == SingleClozeRow(old(data[k]))
      invariant forall k :: r <= k < data.Length ==> data[k] == old(data[k])
    {
      data[r] := ProcessRow(data[r]);
    }
  }

  /** The answer is the first one the all-clozes scanner of sheet 2 would take
      from the same cell: the two scanners agree on the first span. */
  lemma FirstIsScanHead(cell: string)
    ensures FirstCloze(cell).1 == (if Scan(cell).1 == [] then None else Some(Scan(cell).1[0]))
    ensures FirstCloze(cell).1.None? ==> Scan(cell).0 == cell
  {
    FindContains(cell, Start);
    var s := Find(cell, Start, 0);
    if s >= 0 {
      EndAfterStart(cell, s);
      var e := Find(cell, End, s);
      if e >= 0 {
        ScanUnfold(cell, s, e);
      } else {
        ScanUnchanged(cell);
      }
    } else {
      ScanUnchanged(cell);
    }
  }

  /** Putting the answer back between the tokens in place of the placeholder
      restores the cell. */
  lemma FirstClozeRestores(cell: string)
    requires FirstCloze(cell).1.Some?
    ensures Find(cell, Start, 0) >= 0
    ensures cell == FirstCloze(cell).0[..Find(cell, Start, 0)] + Start + FirstCloze(cell).1.value + End
      + FirstCloze(cell).0[Find(cell, Start, 0) + |Blank|..]
  {
    FindContains(cell, Start);
    var s := Find(cell, Start, 0);
    var e := Find(cell, End, s + |Start|);
    var pre, post := cell[..s], cell[e + |End|..];
    var v := pre + Blank + post;
    assert FirstCloze(cell) == (v, Some(cell[s + |Start|..e]));
    assert v[..s] == pre && v[s + |Blank|..] == post by {
      assert |pre| == s;
    }
    SpanParts(cell, s, e);
  }

  /** Only the first span is rewritten: a second span after it stays literal
      text in the cell. */
  lemma SecondClozeStays(cell: string)
    requires FirstCloze(cell).1.Some?
    requires Contains(cell[Find(cell, End, Find(cell, Start, 0) + |Start|) + |End|..], Start)
    ensures Contains(FirstCloze(cell).0, Start)
  {
    FindContains(cell, Start);
    var s := Find(cell, Start, 0);
    var e := Find(cell, End, s + |Start|);
    var rest := cell[e + |End|..];
    ContainsInfix(cell[..s] + Blank, rest, "", Start);
    assert cell[..s] + Blank + rest + "" == FirstCloze(cell).0;
  }

  /** Each cell gives at most one answer, so a row with an answer in every
      cell gains exactly as many cells as it had. */
  lemma {:induction false} FirstAnswersCount(row: seq<string>)
    ensures (forall k :: 0 <= k < |row| ==> FirstCloze(row[k]).1.Some?) ==> |FirstAnswers(row)| == |row|
    ensures (forall k :: 0 <= k < |row| ==> FirstCloze(row[k]).1.None?) ==> FirstAnswers(row) == []
  {
    if row != [] {
      var init := row[..|row| - 1];
      FirstAnswersCount(init);
      assert forall k :: 0 <= k < |init| ==> init[k] == row[k];
    }
  }

  // ---------------------------------------------------------------------
  // process_4gift
  // ---------------------------------------------------------------------

  /** `process_4gift`: a block per row of at least four cells, in row order;
      shorter rows are skipped. */
  function Blocks(data: seq<seq<string>>): seq<string>
  {
    if data == [] then []
    else
      var row := data[|data| - 1];
      Blocks(data[..|data| - 1]) + (if |row| >= 4 then [English2.FillBlock(row)] else [])
  }

  /** The row loop of `process_4gift`. */
  method Process4Gift(data: seq<seq<string>>) returns (giftQuestions: seq<string>)
    ensures giftQuestions == Blocks(data)
  {
    giftQuestions := [];
    for i := 0 to |data|
      invariant giftQuestions == Blocks(data[..i])
    {
      assert data[..i + 1][..i] == data[..i];
      if |data[i]| < 4 {
        continue;
      }
      var block := English2.FillBlockOf(data[i]);
      giftQuestions := giftQuestions + [block];
    }
    assert data[..|data|] == data;
  }

  /** The number of rows of at least four cells. */
  function LongRows(data: seq<seq<string>>): nat
  {
    if data == [] then 0 else LongRows(data[..|data| - 1]) + (if |data[|data| - 1]| >= 4 then 1 else 0)
  }

  /** There is one block per row of at least four cells; on a table where
      every row has them, the blocks are those of the unguarded variant of
      sheet 2, which then does not fail. */
  lemma {:induction false} BlocksSpec(data: seq<seq<string>>)
    ensures |Blocks(data)| == LongRows(data)
    ensures (forall k :: 0 <= k < |data| ==> |data[k]| >= 4) ==> English2.BackupBlocks(data) == Success(Blocks(data))
  {
    if data != [] {
      var init := data[..|data| - 1];
      BlocksSpec(init);
      assert forall k :: 0 <= k < |init| ==> init[k] == data[k];
    }
  }
}
