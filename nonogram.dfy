/** Cells, lines, clues and the derivation of clues from a filled-in grid. */
module Nonogram {
  import opened Support

  /** A cell of the grid; its numeric code is that of the C enumeration. */
  datatype Cell = White | Black | Unknown {
    function Code(): int
    {
      match this
      case White => 0
      case Black => 1
      case Unknown => 255
    }

    /** How the scans test a cell: every non-zero code counts as filled, so Unknown does too. */
    predicate IsSet()
    {
      Code() != 0
    }
  }

  type Line = seq<Cell>
  type Table = seq<Line>
  /** The lengths of the black blocks of one line, left to right. */
  type Clue = seq<int>

  datatype Constraints = Constraints(rows: seq<Clue>, cols: seq<Clue>)

  /** A line made only of definite cells. */
  predicate BlackAndWhite(s: Line)
  {
    forall i | 0 <= i < |s| :: s[i] == White || s[i] == Black
  }

  /** The number of cells the scans treat as filled. */
  function CountSet(s: Line): nat
  {
    if s == [] then 0 else (if s[0].IsSet() then 1 else 0) + CountSet(s[1..])
  }

  /**
   * The run lengths read while scanning `s` left to right, when a run of `consec`
   * filled cells has just been read and not yet recorded.
   */
  function RunsAfter(s: Line, consec: nat): Clue
  {
    if s == [] then (if consec > 0 then [consec] else [])
    else if s[0].IsSet() then RunsAfter(s[1..], consec + 1)
    else (if consec > 0 then [consec] else []) + RunsAfter(s[1..], 0)
  }

  /** The lengths of the maximal runs of filled cells of `s`, left to right. */
  function Runs(s: Line): Clue
  {
    RunsAfter(s, 0)
  }

  /** Every recorded run has at least one cell. */
  lemma {:induction false} RunsAfterPositive(s: Line, consec: nat)
    ensures forall i | 0 <= i < |RunsAfter(s, consec)| :: RunsAfter(s, consec)[i] >= 1
  {
    if s != [] {
      RunsAfterPositive(s[1..], if s[0].IsSet() then consec + 1 else 0);
    }
  }

  lemma RunsPositive(s: Line)
    ensures forall i | 0 <= i < |Runs(s)| :: Runs(s)[i] >= 1
  {
    RunsAfterPositive(s, 0);
  }

  /** The runs account for every filled cell exactly once. */
  lemma {:induction false} RunsAfterSum(s: Line, consec: nat)
    ensures Sum(RunsAfter(s, consec)) == consec + CountSet(s)
  {
    if s == [] {
      assert RunsAfter(s, consec) == (if consec > 0 then [consec] else []);
      SumCons(consec, []);
    } else {
      RunsAfterSum(s[1..], if s[0].IsSet() then consec + 1 else 0);
      if !s[0].IsSet() {
        SumCons(consec, RunsAfter(s[1..], 0));
        assert [] + RunsAfter(s[1..], 0) == RunsAfter(s[1..], 0);
      }
    }
  }

  lemma RunsSum(s: Line)
    ensures Sum(Runs(s)) == CountSet(s)
  {
    RunsAfterSum(s, 0);
  }

  /** No run is recorded exactly when no cell is filled. */
  lemma {:induction false} RunsAfterEmpty(s: Line, consec: nat)
    ensures RunsAfter(s, consec) == [] <==> consec == 0 && forall i | 0 <= i < |s| :: !s[i].IsSet()
  {
    if s != [] {
      RunsAfterEmpty(s[1..], if s[0].IsSet() then consec + 1 else 0);
      if s[0].IsSet() {
        assert RunsAfter(s, consec) != [] by {
          RunsAfterEmpty(s[1..], consec + 1);
        }
      } else {
        forall i | 1 <= i < |s| ensures s[i] == s[1..][i - 1] { }
      }
    }
  }

  lemma RunsEmpty(s: Line)
    ensures Runs(s) == [] <==> forall i | 0 <= i < |s| :: !s[i].IsSet()
  {
    RunsAfterEmpty(s, 0);
  }

  /** Runs are separated by at least one cell: their total plus the gaps fits in the line. */
  lemma {:induction false} RunsAfterBound(s: Line, consec: nat)
    ensures Sum(RunsAfter(s, consec)) + |RunsAfter(s, consec)| <= |s| + consec + 1
  {
    if s == [] {
      SumCons(consec, []);
    } else {
      RunsAfterBound(s[1..], if s[0].IsSet() then consec + 1 else 0);
      if !s[0].IsSet() {
        SumCons(consec, RunsAfter(s[1..], 0));
        assert [] + RunsAfter(s[1..], 0) == RunsAfter(s[1..], 0);
      }
    }
  }

  lemma RunsBound(s: Line)
    ensures Sum(Runs(s)) + |Runs(s)| - 1 <= |s|
  {
    RunsAfterBound(s, 0);
  }

  /** A white cell separates the runs on its two sides. */
  lemma {:induction false} RunsAfterSplit(a: Line, b: Line, consec: nat)
    ensures RunsAfter(a + [White] + b, consec) == RunsAfter(a, consec) + Runs(b)
  {
    if a == [] {
      assert a + [White] + b == [White] + b;
      assert ([White] + b)[1..] == b;
    } else {
      assert (a + [White] + b)[0] == a[0];
      assert (a + [White] + b)[1..] == a[1..] + [White] + b;
      RunsAfterSplit(a[1..], b, if a[0].IsSet() then consec + 1 else 0);
    }
  }

  lemma RunsSplit(a: Line, b: Line)
    ensures Runs(a + [White] + b) == Runs(a) + Runs(b)
  {
    RunsAfterSplit(a, b, 0);
  }

  /** A leading white cell contributes no run. */
  lemma RunsOfWhite(s: Line)
    requires s != [] && !s[0].IsSet()
    ensures Runs(s) == Runs(s[1..])
  {
    assert [] + RunsAfter(s[1..], 0) == RunsAfter(s[1..], 0);
  }

  /** The number of filled cells at the start of `s`. */
  function LeadingSet(s: Line): (k: nat)
    ensures k <= |s|
    ensures forall i | 0 <= i < k :: s[i].IsSet()
    ensures k < |s| ==> !s[k].IsSet()
  {
    if s != [] && s[0].IsSet() then 1 + LeadingSet(s[1..]) else 0
  }

  /** A line that starts with a filled cell starts with a run of exactly `LeadingSet` cells. */
  lemma {:induction false} RunsAfterBlock(s: Line, consec: nat)
    ensures RunsAfter(s, consec) == RunsAfter(s[LeadingSet(s)..], consec + LeadingSet(s))
  {
    if s != [] && s[0].IsSet() {
      RunsAfterBlock(s[1..], consec + 1);
      assert s[1..][LeadingSet(s[1..])..] == s[LeadingSet(s)..];
    }
  }

  lemma RunsOfBlock(s: Line)
    requires s != [] && s[0].IsSet()
    ensures Runs(s) == [LeadingSet(s)] + Runs(s[LeadingSet(s)..])
  {
    var k := LeadingSet(s);
    RunsAfterBlock(s, 0);
    if k < |s| {
      assert s[k..][1..] == s[k + 1..];
    }
  }

  /** The runs read by a scan that is at index `i` with an open run of `consec` cells. */
  function ScanFrom(s: Line, i: nat, consec: nat): Clue
    requires i <= |s|
    decreases |s| - i
  {
    if i == |s| then (if consec > 0 then [consec] else [])
    else if s[i].IsSet() then ScanFrom(s, i + 1, consec + 1)
    else (if consec > 0 then [consec] else []) + ScanFrom(s, i + 1, 0)
  }

  /** The scan at an index reads the runs of the rest of the line. */
  lemma {:induction false} ScanFromRuns(s: Line, i: nat, consec: nat)
    requires i <= |s|
    ensures ScanFrom(s, i, consec) == RunsAfter(s[i..], consec)
    decreases |s| - i
  {
    if i < |s| {
      assert s[i..][1..] == s[i + 1..];
      ScanFromRuns(s, i + 1, if s[i].IsSet() then consec + 1 else 0);
    }
  }

  /** `constraintGen`: scan the line, recording the length of every run of filled cells. */
  method ConstraintGen(s: Line) returns (blockSizes: Clue)
    ensures blockSizes == Runs(s)
  {
    blockSizes := [];
    var i := 0;
    ghost var goal := ScanFrom(s, 0, 0);
    while i < |s|
      invariant 0 <= i <= |s|
      invariant 0 < i < |s| ==> s[i].IsSet()
      invariant blockSizes + ScanFrom(s, i, 0) == goal
    {
      ghost var start := i;
      var consec := 0;
      while i < |s| && s[i].IsSet()
        invariant start <= i <= |s|
        invariant consec == i - start
        invariant blockSizes + ScanFrom(s, i, consec) == goal
      {
        i := i + 1;
        consec := consec + 1;
      }
      if i > 0 {
        assert ScanFrom(s, i, consec) == [consec] + ScanFrom(s, i, 0);
        blockSizes := blockSizes + [consec];
      }
      while i < |s| && !s[i].IsSet()
        invariant start <= i <= |s|
        invariant blockSizes + ScanFrom(s, i, 0) == goal
      {
        i := i + 1;
      }
    }
    ScanFromRuns(s, 0, 0);
    assert s[0..] == s;
  }

  /** The `i`-th cell of every row, top to bottom. */
  function Column(t: Table, i: nat): Line
    requires forall r | 0 <= r < |t| :: i < |t[r]|
  {
    seq(|t|, r requires 0 <= r < |t| => t[r][i])
  }

  /** The number of column clues: the width of the first row, or none for an empty grid. */
  function Width(t: Table): nat
  {
    if |t| > 0 then |t[0]| else 0
  }

  /** `constraintsFromTable`: the row clues and the column clues of a grid. */
  method ConstraintsFromTable(t: Table) returns (c: Constraints)
    requires forall r | 0 <= r < |t| :: |t[r]| >= Width(t)
    ensures |c.rows| == |t|
    ensures forall r | 0 <= r < |t| :: c.rows[r] == Runs(t[r])
    ensures |c.cols| == Width(t)
    ensures forall i | 0 <= i < Width(t) :: c.cols[i] == Runs(Column(t, i))
  {
    var rowConstraints: seq<Clue> := [];
    var r := 0;
    while r < |t|
      invariant 0 <= r <= |t|
      invariant |rowConstraints| == r
      invariant forall k | 0 <= k < r :: rowConstraints[k] == Runs(t[k])
    {
      var clue := ConstraintGen(t[r]);
      rowConstraints := rowConstraints + [clue];
      r := r + 1;
    }
    var colConstraints: seq<Clue> := [];
    var i := 0;
    while i < Width(t)
      invariant 0 <= i <= Width(t)
      invariant |colConstraints| == i
      invariant forall k | 0 <= k < i :: colConstraints[k] == Runs(Column(t, k))
    {
      var clue := ConstraintGen(Column(t, i));
      colConstraints := colConstraints + [clue];
      i := i + 1;
    }
    c := Constraints(rowConstraints, colConstraints);
  }
}
