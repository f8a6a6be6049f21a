/** The whole analysis of fit-motion-displacements.py `main`: read the table,
    build the system, hand each axis to a least-squares solver, shift both
    solutions so frame 0 is exactly zero, and list one row per frame. */
module Fit {
  import opened Wrappers
  import opened Measurements
  import opened LinearSystem

  /** The least-squares collaborator (`numpy.linalg.lstsq`): given the
      coefficient matrix and one right-hand side, a real solution vector that
      should have one entry per column. It is a parameter, not modelled. */
  type Solver = (Matrix, seq<int>) -> seq<real>

  /** One line of the report: a frame and its displacement components. */
  datatype ReportRow = ReportRow(frame: nat, x: real, y: real)

  /** Subtracts the frame-0 component from every component (lines 47-48). */
  function Reanchor(x: seq<real>): (r: seq<real>)
    requires |x| > 0
    ensures |r| == |x| && r[0] == 0.0
    ensures forall i, j :: 0 <= i < |x| && 0 <= j < |x| ==> r[i] - r[j] == x[i] - x[j]
  {
    seq(|x|, i requires 0 <= i < |x| => x[i] - x[0])
  }

  /** The shifted vector is the only one that keeps every pairwise difference
      and has a zero at frame 0. */
  lemma ReanchorUnique(x: seq<real>, y: seq<real>)
    requires |x| > 0 && |y| == |x| && y[0] == 0.0
    requires forall i :: 0 <= i < |x| ==> y[i] - y[0] == x[i] - x[0]
    ensures y == Reanchor(x)
  {
  }

  /** Re-anchoring twice is re-anchoring once, and a vector already zero at
      frame 0 is left as it is. */
  lemma ReanchorIdempotent(x: seq<real>)
    requires |x| > 0
    ensures Reanchor(Reanchor(x)) == Reanchor(x)
    ensures x[0] == 0.0 ==> Reanchor(x) == x
  {
  }

  /** The report rows in ascending frame order (lines 52-55). */
  function Report(x: seq<real>, y: seq<real>): seq<ReportRow>
    requires |x| == |y|
  {
    seq(|x|, t requires 0 <= t < |x| => ReportRow(t, x[t], y[t]))
  }

  /** Reads the lines of the table, each already split into fields (see
      `Measurements.SplitLines`), and builds its system (lines 20-44). */
  function Load(rows: seq<seq<string>>): (r: Result<System, Error>)
    ensures r.Success? <==>
      && ReadTable(rows).Success?
      && |ReadTable(rows).value| > 0
      && NonNegativeTimes(ReadTable(rows).value)
    ensures ReadTable(rows).Failure? ==> r == Failure(ReadTable(rows).error)
    ensures ReadTable(rows).Success? && r.Failure? ==>
      r.error == (if |rows| <= 1 then NoMeasurements else NegativeTime)
    ensures r.Success? ==>
      var ms := ReadTable(rows).value;
      && |ms| == |rows| - 1
      && Encodes(r.value, ms)
      && r.value.frames == MaxTime(ms) + 1
  {
    var ms :- ReadTable(rows);
    Build(ms)
  }

  /** Solves both axes of a built system, re-anchors the solutions and lists
      one row per frame (lines 45-55). A solution of the wrong length is the
      solver's failure. */
  function SolveAndReport(sys: System, solve: Solver): (r: Result<seq<ReportRow>, Error>)
    ensures var sx := solve(sys.matrix, sys.rhsX);
      var sy := solve(sys.matrix, sys.rhsY);
      && (r.Success? <==> |sx| == sys.frames && |sy| == sys.frames && sys.frames > 0)
      && (r.Failure? ==> r.error == SolverFailed)
      && (r.Success? ==>
            && |r.value| == sys.frames
            && r.value[0] == ReportRow(0, 0.0, 0.0)
            && forall t :: 0 <= t < |r.value| ==>
                 r.value[t].frame == t && r.value[t].x == sx[t] - sx[0] && r.value[t].y == sy[t] - sy[0])
  {
    var sx := solve(sys.matrix, sys.rhsX);
    var sy := solve(sys.matrix, sys.rhsY);
    if |sx| != sys.frames || |sy| != sys.frames || sys.frames == 0 then Failure(SolverFailed)
    else
      var ax := Reanchor(sx);
      var ay := Reanchor(sy);
      assert forall t :: 0 <= t < |sx| ==> ax[t] - ax[0] == sx[t] - sx[0];
      Success(Report(ax, ay))
  }

  /** The full run. On success there is one report row per frame index
      `0 .. maxtime`, frame 0 reads exactly (0, 0), and every other row keeps
      the solver's difference to frame 0 on each axis. */
  function Run(rows: seq<seq<string>>, solve: Solver): (r: Result<seq<ReportRow>, Error>)
    ensures Load(rows).Failure? ==> r == Failure(Load(rows).error)
    ensures r.Success? ==>
      && Load(rows).Success?
      && |r.value| == Load(rows).value.frames
      && r.value[0] == ReportRow(0, 0.0, 0.0)
      && forall t :: 0 <= t < |r.value| ==> r.value[t].frame == t
    ensures Load(rows).Success? ==>
      var sys := Load(rows).value;
      var sx := solve(sys.matrix, sys.rhsX);
      var sy := solve(sys.matrix, sys.rhsY);
      && (r.Success? <==> |sx| == sys.frames && |sy| == sys.frames)
      && (r.Failure? ==> r.error == SolverFailed)
      && (r.Success? ==> forall t :: 0 <= t < |r.value| ==>
            r.value[t].x == sx[t] - sx[0] && r.value[t].y == sy[t] - sy[0])
  {
    match Load(rows)
    case Failure(e) => Failure(e)
    case Success(sys) => SolveAndReport(sys, solve)
  }
}
