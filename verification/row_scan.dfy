/** `row_area`: a single left-to-right scan over one row of run heights that
    scores runs of bars and keeps the first strictly largest score. */
module RowScan {
  import opened Wrappers

  /** A scored run: its area, leftmost column, height ("length") and width. */
  datatype Span = Span(area: int, xloc: int, length: int, width: int)

  /** The scan's locals: the current run height `rows`, the current width
      `cols`, and the best run so far (None while `max_area` is still 0). */
  datatype Scan = Scan(rows: int, cols: int, best: Option<Span>)

  /** The running `max_area`. */
  function MaxArea(s: Scan): (a: int) {
    match s.best
    case Some(b) => b.area
    case None => 0
  }

  /** Every bar of `row` is 0 or 1. */
  predicate BinaryRow(row: seq<int>) {
    forall k :: 0 <= k < |row| ==> row[k] == 0 || row[k] == 1
  }

  /** The branch guard: `{0,1} or {1}` evaluates to `{0,1}`, so the first
      branch runs exactly when the row's set of values is `{0,1}`. */
  predicate IsSplitRow(row: seq<int>) {
    (set v | v in row) == {0, 1}
  }

  /** Whether bar `v` closes the current run: a zero bar in the first branch,
      a bar lower than the run in the second. */
  predicate Closes(split: bool, v: int, rows: int) {
    if split then v == 0 else v < rows
  }

  /** Whether the closing bar is counted in the run's width. */
  predicate Counts(split: bool, v: int) {
    if split then v == 1 else v > 0
  }

  /** One iteration of the scan's loop body at index `i`. */
  function Step(row: seq<int>, split: bool, i: nat, s: Scan): (s': Scan)
    requires i < |row|
  {
    var v := row[i];
    if s.rows == 0 then
      s.(rows := v)
    else if Closes(split, v, s.rows) || i == |row| - 1 then
      var cols := if Counts(split, v) then s.cols + 1 else s.cols;
      var area := s.rows * cols;
      if area > MaxArea(s) then
        var xloc := if v > 0 then i - cols + 1 else i - cols;
        Scan(0, 1, Some(Span(area, xloc, s.rows, cols)))
      else
        Scan(0, cols, s.best)
    else
      s.(cols := s.cols + 1)
  }

  /** The scan's state after the loop has processed indices `0 .. k-1`. */
  function ScanPrefix(row: seq<int>, split: bool, k: nat): (s: Scan)
    requires k <= |row|
    decreases k
  {
    if k == 0 then Scan(0, 1, None)
    else Step(row, split, k - 1, ScanPrefix(row, split, k - 1))
  }

  /** What a scored run found within the first `k` bars looks like. */
  ghost predicate SpanShape(row: seq<int>, split: bool, k: int, b: Span) {
    && b.area == b.length * b.width
    && b.area > 0
    && b.length > 0
    && b.width >= 1
    && 0 <= b.xloc
    && b.xloc + b.width <= k
    && b.length in row
    && (split ==> b.length == 1)
  }

  /** What holds of the scan's locals after `k` iterations. */
  ghost predicate ScanInv(row: seq<int>, split: bool, k: int, s: Scan)
    requires 0 <= k <= |row|
  {
    && 1 <= s.cols
    && (k == 0 ==> s.rows == 0 && s.cols == 1)
    && (k > 0 ==> s.cols <= k)
    && (s.rows == 0 || s.rows in row)
    && (s.best.Some? ==> k >= 2 && SpanShape(row, split, k, s.best.value))
    && ((forall t :: 0 <= t < k ==> row[t] == 0) ==> s.rows == 0)
    && ((forall t :: 0 <= t < k - 1 ==> row[t] == 0) ==> s.best.None?)
  }

  lemma StepKeepsInv(row: seq<int>, split: bool, i: nat, s: Scan)
    requires i < |row|
    requires split ==> BinaryRow(row)
    requires ScanInv(row, split, i, s)
    ensures ScanInv(row, split, i + 1, Step(row, split, i, s))
  {
  }

  lemma {:induction false} ScanPrefixInv(row: seq<int>, split: bool, k: nat)
    requires k <= |row|
    requires split ==> BinaryRow(row)
    ensures ScanInv(row, split, k, ScanPrefix(row, split, k))
    decreases k
  {
    if k > 0 {
      ScanPrefixInv(row, split, k - 1);
      StepKeepsInv(row, split, k - 1, ScanPrefix(row, split, k - 1));
    }
  }

  /** The first branch is taken exactly for rows made of 0s and 1s that
      contain both; a non-empty row of all 1s takes the second branch. */
  lemma SplitRowIffBothValues(row: seq<int>)
    ensures IsSplitRow(row) <==> BinaryRow(row) && 0 in row && 1 in row
    ensures |row| > 0 && (forall k :: 0 <= k < |row| ==> row[k] == 1) ==> !IsSplitRow(row)
  {
    var values := set v | v in row;
    if IsSplitRow(row) {
      forall k | 0 <= k < |row|
        ensures row[k] == 0 || row[k] == 1
      {
        assert row[k] in values;
      }
      assert 0 in values && 1 in values;
    }
    if BinaryRow(row) && 0 in row && 1 in row {
      assert values == {0, 1};
    }
    if |row| > 0 && (forall k :: 0 <= k < |row| ==> row[k] == 1) {
      assert row[0] == 1;
      assert 0 !in row;
    }
  }

  /** Every bar of `row` is non-negative, as run heights are. */
  predicate NonNegRow(row: seq<int>) {
    forall k :: 0 <= k < |row| ==> row[k] >= 0
  }

  /** Once a positive bar has been read, the scan either has a scored run or
      is inside a run of positive height. */
  lemma {:induction false} ScanPrefixLive(row: seq<int>, split: bool, k: nat)
    requires k <= |row|
    requires split ==> BinaryRow(row)
    requires NonNegRow(row)
    ensures (exists t :: 0 <= t < k && row[t] > 0) ==>
      ScanPrefix(row, split, k).best.Some? || ScanPrefix(row, split, k).rows > 0
    decreases k
  {
    if k > 0 {
      ScanPrefixLive(row, split, k - 1);
      ScanPrefixInv(row, split, k - 1);
      var s := ScanPrefix(row, split, k - 1);
      if exists t :: 0 <= t < k && row[t] > 0 {
        var t :| 0 <= t < k && row[t] > 0;
        assert t < k - 1 || row[k - 1] > 0;
        StepKeepsLive(row, split, k - 1, s);
      }
    }
  }

  /** One step keeps the scan live: a scored run stays scored, a positive
      bar starts a run, and closing a positive run scores a positive area. */
  lemma StepKeepsLive(row: seq<int>, split: bool, i: nat, s: Scan)
    requires i < |row|
    requires split ==> BinaryRow(row)
    requires NonNegRow(row)
    requires ScanInv(row, split, i, s)
    requires s.best.Some? || s.rows > 0 || row[i] > 0
    ensures Step(row, split, i, s).best.Some? || Step(row, split, i, s).rows > 0
  {
  }

  /** On a row of non-negative bars, a positive bar anywhere before the last
      index guarantees a scored run: the run it belongs to is closed at the
      latest by the last index. */
  lemma RowAreaScoresPositiveBar(row: seq<int>, split: bool)
    requires split ==> BinaryRow(row)
    ensures NonNegRow(row) && (exists t :: 0 <= t < |row| - 1 && row[t] != 0) ==>
      ScanPrefix(row, split, |row|).best.Some?
  {
    if !(NonNegRow(row) && exists t :: 0 <= t < |row| - 1 && row[t] != 0) {
      return;
    }
    var n := |row|;
    var t :| 0 <= t < n - 1 && row[t] != 0;
    assert row[t] > 0;
    ScanPrefixLive(row, split, n - 1);
    ScanPrefixInv(row, split, n - 1);
    var s := ScanPrefix(row, split, n - 1);
    if s.best.None? {
      assert s.rows > 0;
      assert s.rows * s.cols > 0;
      assert s.rows * (s.cols + 1) > 0;
    }
  }

  /** `row_area`: the best run of the branch the guard picks, or None when
      `max_area` stays 0 (`row_area` then returns stale globals). */
  function RowArea(row: seq<int>): (r: Option<Span>)
    ensures r.Some? ==> var b := r.value;
      && b.area == b.length * b.width
      && b.area > 0
      && b.width >= 1
      && 0 <= b.xloc && b.xloc + b.width <= |row|
      && b.length > 0 && b.length in row
      && (IsSplitRow(row) ==> b.length == 1)
    ensures |row| <= 1 ==> r.None?
    ensures (forall k :: 0 <= k < |row| - 1 ==> row[k] == 0) ==> r.None?
    ensures NonNegRow(row) ==> (r.None? <==> forall k :: 0 <= k < |row| - 1 ==> row[k] == 0)
  {
    var split := IsSplitRow(row);
    SplitRowIffBothValues(row);
    ScanPrefixInv(row, split, |row|);
    RowAreaScoresPositiveBar(row, split);
    ScanPrefix(row, split, |row|).best
  }

  /** On a row of 0s and 1s both branches perform the same scan. */
  lemma {:induction false} BranchesAgreeOnBinaryRows(row: seq<int>, k: nat)
    requires k <= |row|
    requires BinaryRow(row)
    ensures ScanPrefix(row, true, k) == ScanPrefix(row, false, k)
    decreases k
  {
    if k > 0 {
      BranchesAgreeOnBinaryRows(row, k - 1);
      ScanPrefixInv(row, true, k - 1);
      var s := ScanPrefix(row, true, k - 1);
      assert s.rows == 0 || s.rows == 1;
      var v := row[k - 1];
      assert Closes(true, v, s.rows) == Closes(false, v, s.rows) || s.rows == 0;
      assert Counts(true, v) == Counts(false, v);
    }
  }

  /** Hence the guard never changes the result: every row scores as the
      second branch would score it. */
  lemma GuardIsImmaterial(row: seq<int>)
    ensures RowArea(row) == ScanPrefix(row, false, |row|).best
  {
    if IsSplitRow(row) {
      SplitRowIffBothValues(row);
      BranchesAgreeOnBinaryRows(row, |row|);
    }
  }

  /** The two worked examples of the docstring. */
  lemma DocumentedExamples()
    ensures RowArea([1, 2, 2, 1, 0]) == Some(Span(4, 0, 1, 4))
    ensures RowArea([0, 2, 3, 3, 4]) == Some(Span(8, 1, 2, 4))
  {
    var a := [1, 2, 2, 1, 0];
    assert !IsSplitRow(a) by {
      var values := set v | v in a;
      assert a[1] in values;
      assert values != {0, 1};
    }
    assert ScanPrefix(a, false, 1) == Scan(1, 1, None);
    assert ScanPrefix(a, false, 2) == Scan(1, 2, None);
    assert ScanPrefix(a, false, 3) == Scan(1, 3, None);
    assert ScanPrefix(a, false, 4) == Scan(1, 4, None);
    assert ScanPrefix(a, false, 5) == Scan(0, 1, Some(Span(4, 0, 1, 4)));
    var b := [0, 2, 3, 3, 4];
    assert !IsSplitRow(b) by {
      assert b[1] in (set v | v in b);
    }
    assert ScanPrefix(b, false, 1) == Scan(0, 1, None);
    assert ScanPrefix(b, false, 2) == Scan(2, 1, None);
    assert ScanPrefix(b, false, 3) == Scan(2, 2, None);
    assert ScanPrefix(b, false, 4) == Scan(2, 3, None);
    assert ScanPrefix(b, false, 5) == Scan(0, 1, Some(Span(8, 1, 2, 4)));
  }
}
