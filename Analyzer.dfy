/// The table checks run before processing: every row has as many cells as
/// the first, and the dimensions recorded for later stages.
module Analyzer {
  import opened Wrappers
  import opened Strings

  /** The index of the first row from `from` on whose length is not
      `expected`. */
  function FirstMismatch(data: seq<seq<string>>, expected: nat, from: nat): (r: Option<nat>)
    ensures r.Some? ==> from <= r.value < |data|
    decreases |data| - from
  {
    if from >= |data| then None
    else if |data[from]| != expected then Some(from)
    else FirstMismatch(data, expected, from + 1)
  }

  /** The first mismatch found is a row of another length with none before
      it; none found means every row has the length. */
  lemma {:induction false} FirstMismatchSpec(data: seq<seq<string>>, expected: nat, from: nat)
    ensures var r := FirstMismatch(data, expected, from);
      (r.Some? ==>
        |data[r.value]| != expected && forall k :: from <= k < r.value ==> |data[k]| == expected)
      && (r.None? <==> forall k :: from <= k < |data| ==> |data[k]| == expected)
    decreases |data| - from
  {
    if from < |data| && |data[from]| == expected {
      FirstMismatchSpec(data, expected, from + 1);
    }
  }

  /** The message of the error raised for row number `rowNum`. */
  function MismatchMessage(rowNum: nat, actual: nat, expected: nat): string {
    "Row " + NatToString(rowNum) + " has " + NatToString(actual) + " columns, expected " + NatToString(expected)
  }

  /** `validate_uniformity`: true for an empty table and for a table whose
      rows all have the first row's length; otherwise the error naming the
      first other row by its 1-based number. */
  function Uniformity(data: seq<seq<string>>): Result<bool> {
    if data == [] then Success(true)
    else
      var m := FirstMismatch(data, |data[0]|, 0);
      if m.None? then Success(true)
      else Failure(MismatchMessage(m.value + 1, |data[m.value]|, |data[0]|))
  }

  /** The check passes exactly when all rows have the same length, and an
      error always names a row after the first. */
  lemma UniformitySpec(data: seq<seq<string>>)
    ensures Uniformity(data).Success? <==> forall k :: 0 <= k < |data| ==> |data[k]| == |data[0]|
    ensures Uniformity(data).Success? ==> Uniformity(data).value
    ensures Uniformity(data).Failure? ==> exists k ::
      1 <= k < |data| && |data[k]| != |data[0]| && (forall j :: 0 <= j < k ==> |data[j]| == |data[0]|)
      && Uniformity(data).error == MismatchMessage(k + 1, |data[k]|, |data[0]|)
  {
    if data != [] {
      FirstMismatchSpec(data, |data[0]|, 0);
    }
  }

  /** The loop of `validate_uniformity`, stopping at the first row of another
      length. */
  method ValidateUniformity(data: seq<seq<string>>) returns (r: Result<bool>)
    ensures r == Uniformity(data)
  {
    if |data| == 0 {
      return Success(true);
    }
    var expectedCols := |data[0]|;
    for i := 0 to |data|
      invariant FirstMismatch(data, expectedCols, i) == FirstMismatch(data, expectedCols, 0)
    {
      var row := data[i];
      if |row| != expectedCols {
        return Failure(MismatchMessage(i + 1, |row|, expectedCols));
      }
    }
    return Success(true);
  }

  /** The row and column counts: the number of rows and the first row's
      length, or zero and zero for an empty table. */
  function Dimensions(data: seq<seq<string>>): (nat, nat) {
    (|data|, if |data| == 0 then 0 else |data[0]|)
  }

  /** The number of cells of a table. */
  function CellCount(data: seq<seq<string>>): nat {
    if data == [] then 0 else CellCount(data[..|data| - 1]) + |data[|data| - 1]|
  }

  /** On a table that passes the check, the two counts multiply to the number
      of cells. */
  lemma {:induction false} UniformCells(data: seq<seq<string>>)
    requires Uniformity(data).Success?
    ensures CellCount(data) == Dimensions(data).0 * Dimensions(data).1
  {
    UniformitySpec(data);
    if data != [] {
      CellsOfLength(data, |data[0]|);
    }
  }

  lemma {:induction false} CellsOfLength(data: seq<seq<string>>, n: nat)
    requires forall k :: 0 <= k < |data| ==> |data[k]| == n
    ensures CellCount(data) == |data| * n
  {
    if data != [] {
      CellsOfLength(data[..|data| - 1], n);
    }
  }

  /** The two globals of the metadata module that the analysis sets. */
  class Metadata {
    var totalRows: nat
    var totalColumns: nat

    /** `analyze_uniform_tabular_data`: the dimensions, also stored in the
        two fields. */
    method AnalyzeUniformTabularData(data: seq<seq<string>>) returns (rowCount: nat, columnCount: nat)
      modifies this
      ensures (rowCount, columnCount) == Dimensions(data)
      ensures totalRows == rowCount && totalColumns == columnCount
    {
      rowCount := |data|;
      if rowCount == 0 {
        columnCount := 0;
      } else {
        columnCount := |data[0]|;
      }
      totalRows := rowCount;
      totalColumns := columnCount;
    }
  }
}
