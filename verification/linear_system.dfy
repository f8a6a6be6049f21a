/** The overdetermined linear system built from the measurement table
    (fit-motion-displacements.py, lines 36-44): one equation per measurement
    plus an anchor equation pinning frame 0, and one right-hand side per axis. */
module LinearSystem {
  import opened Wrappers
  import opened Measurements

  /** A dense integer matrix, as a sequence of rows. */
  type Matrix = seq<seq<int>>

  /** The two displacement components, solved independently. */
  datatype Axis = X | Y

  /** The coefficient matrix, both right-hand sides and the column count
      (one column per frame index `0 .. maxtime`). */
  datatype System = System(matrix: Matrix, rhsX: seq<int>, rhsY: seq<int>, frames: nat)

  function Displacement(m: Measurement, a: Axis): int {
    match a
    case X => m.dx
    case Y => m.dy
  }

  function Zeros(n: nat): (z: seq<int>)
    ensures |z| == n && forall c :: 0 <= c < n ==> z[c] == 0
  {
    seq(n, _ => 0)
  }

  /** Every measurement refers only to columns of a `cols`-column matrix. */
  predicate AllInRange(ms: seq<Measurement>, cols: nat) {
    forall k :: 0 <= k < |ms| ==> InRange(ms[k], cols)
  }

  /** The equation `row` states about measurement `m`: +1 at `tj`, -1 at `ti`
      unless the second assignment overwrote it, 0 everywhere else. */
  predicate RowEncodes(row: seq<int>, m: Measurement) {
    && InRange(m, |row|)
    && row[m.tj] == 1
    && (m.ti != m.tj ==> row[m.ti] == -1)
    && forall c :: 0 <= c < |row| && c != m.ti && c != m.tj ==> row[c] == 0
  }

  /** The anchor equation: 1 at column 0, 0 everywhere else. */
  predicate IsAnchorRow(row: seq<int>) {
    && |row| > 0
    && row[0] == 1
    && forall c :: 1 <= c < |row| ==> row[c] == 0
  }

  /** What a correctly built system looks like for `ms`: row `k` is the
      equation of measurement `k`, the last row is the anchor, and the
      right-hand sides are the dx and dy columns followed by a 0. */
  predicate Encodes(sys: System, ms: seq<Measurement>) {
    && sys.frames > 0
    && |sys.matrix| == |ms| + 1
    && (forall k :: 0 <= k < |sys.matrix| ==> |sys.matrix[k]| == sys.frames)
    && IsAnchorRow(sys.matrix[|ms|])
    && (forall k :: 0 <= k < |ms| ==> RowEncodes(sys.matrix[k], ms[k]))
    && |sys.rhsX| == |ms| + 1 && sys.rhsX[|ms|] == 0
    && |sys.rhsY| == |ms| + 1 && sys.rhsY[|ms|] == 0
    && (forall k :: 0 <= k < |ms| ==> sys.rhsX[k] == ms[k].dx && sys.rhsY[k] == ms[k].dy)
  }

  /** Every coefficient is -1, 0 or +1. */
  predicate Ternary(M: Matrix) {
    forall k, c :: 0 <= k < |M| && 0 <= c < |M[k]| ==> -1 <= M[k][c] <= 1
  }

  /** Row of one measurement, built as the code builds it: a zero row, then
      -1 assigned at `ti`, then +1 assigned at `tj`. */
  function MeasurementRow(m: Measurement, cols: nat): (row: seq<int>)
    requires InRange(m, cols)
    ensures |row| == cols && RowEncodes(row, m)
  {
    Zeros(cols)[m.ti := -1][m.tj := 1]
  }

  function AnchorRow(cols: nat): (row: seq<int>)
    requires cols > 0
    ensures |row| == cols && IsAnchorRow(row)
  {
    Zeros(cols)[0 := 1]
  }

  /** The coefficient matrix: the measurement rows in table order, then the
      anchor row. */
  function Coefficients(ms: seq<Measurement>, cols: nat): (M: Matrix)
    requires cols > 0 && AllInRange(ms, cols)
    ensures |M| == |ms| + 1
    ensures forall k :: 0 <= k < |M| ==> |M[k]| == cols
    ensures IsAnchorRow(M[|ms|])
    ensures forall k :: 0 <= k < |ms| ==> RowEncodes(M[k], ms[k])
    ensures Ternary(M)
  {
    seq(|ms|, k requires 0 <= k < |ms| => MeasurementRow(ms[k], cols)) + [AnchorRow(cols)]
  }

  /** One displacement column of the table, in row order. */
  function Column(ms: seq<Measurement>, a: Axis): (col: seq<int>)
    ensures |col| == |ms|
    ensures forall k :: 0 <= k < |ms| ==> col[k] == Displacement(ms[k], a)
  {
    if ms == [] then [] else [Displacement(ms[0], a)] + Column(ms[1..], a)
  }

  /** The right-hand side of one axis: the displacement column followed by
      the anchor's 0. */
  function RightHandSide(ms: seq<Measurement>, a: Axis): (b: seq<int>)
    ensures |b| == |ms| + 1 && b[|ms|] == 0
    ensures forall k :: 0 <= k < |ms| ==> b[k] == Displacement(ms[k], a)
  {
    Column(ms, a) + [0]
  }

  /** Builds the system of a parsed table after the time check; the column
      count is one more than the largest time index. */
  function Build(ms: seq<Measurement>): (r: Result<System, Error>)
    ensures r.Success? <==> |ms| > 0 && NonNegativeTimes(ms)
    ensures r.Failure? ==> r.error == (if |ms| == 0 then NoMeasurements else NegativeTime)
    ensures r.Success? ==> Encodes(r.value, ms) && r.value.frames == MaxTime(ms) + 1
    ensures r.Success? ==> Ternary(r.value.matrix)
  {
    match CheckTimes(ms)
    case Failure(e) => Failure(e)
    case Success(maxTime) =>
      var cols := maxTime + 1;
      Success(System(Coefficients(ms, cols), RightHandSide(ms, X), RightHandSide(ms, Y), cols))
  }

  /** The construction of lines 36-40 step by step: a zero matrix, the
      anchor entry in the last row, then for each measurement in order the
      assignment of -1 and then of +1. */
  method BuildMatrix(ms: seq<Measurement>, cols: nat) returns (M: Matrix)
    requires cols > 0 && AllInRange(ms, cols)
    ensures |M| == |ms| + 1
    ensures forall k :: 0 <= k < |M| ==> |M[k]| == cols
    ensures IsAnchorRow(M[|ms|])
    ensures forall k :: 0 <= k < |ms| ==> RowEncodes(M[k], ms[k])
    ensures M == Coefficients(ms, cols)
  {
    var n := |ms|;
    M := seq(n + 1, _ => Zeros(cols));
    M := M[n := M[n][0 := 1]];
    var i := 0;
    while i < n
      invariant 0 <= i <= n
      invariant |M| == n + 1
      invariant forall k :: 0 <= k <= n ==> |M[k]| == cols
      invariant IsAnchorRow(M[n])
      invariant forall k :: 0 <= k < i ==> RowEncodes(M[k], ms[k])
      invariant forall k, c :: i <= k < n && 0 <= c < cols ==> M[k][c] == 0
    {
      M := M[i := M[i][ms[i].ti := -1]];
      M := M[i := M[i][ms[i].tj := 1]];
      i := i + 1;
    }
    var C := Coefficients(ms, cols);
    forall k | 0 <= k < n
      ensures M[k] == C[k]
    {
      RowEncodesUnique(M[k], ms[k]);
    }
    AnchorRowUnique(M[n]);
  }

  /** A row meeting `RowEncodes` is exactly the row the code builds. */
  lemma RowEncodesUnique(row: seq<int>, m: Measurement)
    requires RowEncodes(row, m)
    ensures row == MeasurementRow(m, |row|)
  {
  }

  lemma AnchorRowUnique(row: seq<int>)
    requires IsAnchorRow(row)
    ensures row == AnchorRow(|row|)
  {
  }

  /** The system is fully determined by the measurements and the column
      count: any two systems encoding the same table are equal. */
  lemma EncodesUnique(s1: System, s2: System, ms: seq<Measurement>)
    requires Encodes(s1, ms) && Encodes(s2, ms) && s1.frames == s2.frames
    ensures s1 == s2
  {
    var n := |ms|;
    forall k | 0 <= k <= n
      ensures s1.matrix[k] == s2.matrix[k]
    {
      if k < n {
        RowEncodesUnique(s1.matrix[k], ms[k]);
        RowEncodesUnique(s2.matrix[k], ms[k]);
      } else {
        AnchorRowUnique(s1.matrix[k]);
        AnchorRowUnique(s2.matrix[k]);
      }
    }
    assert s1.rhsX == s2.rhsX;
    assert s1.rhsY == s2.rhsY;
  }

  /** Inner product of a row with a vector of unknowns. */
  function Dot(row: seq<int>, v: seq<int>): int
    requires |row| == |v|
  {
    if row == [] then 0 else row[0] * v[0] + Dot(row[1..], v[1..])
  }

  /** The product `M·v`. */
  function MatVec(M: Matrix, v: seq<int>): (p: seq<int>)
    requires forall k :: 0 <= k < |M| ==> |M[k]| == |v|
    ensures |p| == |M|
  {
    seq(|M|, k requires 0 <= k < |M| => Dot(M[k], v))
  }

  /** The left-hand side of a measurement's equation evaluated at `v`. With
      `ti == tj` the row holds a single +1, so the value is `v[tj]`. */
  function Predicted(m: Measurement, v: seq<int>): int
    requires InRange(m, |v|)
  {
    if m.ti == m.tj then v[m.tj] else v[m.tj] - v[m.ti]
  }

  lemma {:induction false} DotZeros(v: seq<int>)
    ensures Dot(Zeros(|v|), v) == 0
  {
    if v != [] {
      assert Zeros(|v|)[1..] == Zeros(|v| - 1);
      DotZeros(v[1..]);
    }
  }

  /** Assigning `a` at position `i` changes the inner product by the
      change of that one coefficient times `v[i]`. */
  lemma {:induction false} DotUpdate(row: seq<int>, v: seq<int>, i: nat, a: int)
    requires |row| == |v| && i < |row|
    ensures Dot(row[i := a], v) == Dot(row, v) + (a - row[i]) * v[i]
  {
    if i > 0 {
      assert row[i := a][1..] == row[1..][i - 1 := a];
      DotUpdate(row[1..], v[1..], i - 1, a);
    }
  }

  lemma DotMeasurementRow(m: Measurement, v: seq<int>)
    requires InRange(m, |v|)
    ensures Dot(MeasurementRow(m, |v|), v) == Predicted(m, v)
  {
    var z := Zeros(|v|);
    DotZeros(v);
    DotUpdate(z, v, m.ti, -1);
    DotUpdate(z[m.ti := -1], v, m.tj, 1);
  }

  lemma DotAnchorRow(v: seq<int>)
    requires |v| > 0
    ensures Dot(AnchorRow(|v|), v) == v[0]
  {
    DotZeros(v);
    DotUpdate(Zeros(|v|), v, 0, 1);
  }

  /** Each measurement row of `M·v` is the measured difference the row
      encodes, and the anchor row reads off `v[0]`. */
  lemma ProductEntries(sys: System, ms: seq<Measurement>, v: seq<int>)
    requires Encodes(sys, ms) && |v| == sys.frames
    ensures |MatVec(sys.matrix, v)| == |ms| + 1
    ensures forall k :: 0 <= k < |ms| ==> MatVec(sys.matrix, v)[k] == Predicted(ms[k], v)
    ensures MatVec(sys.matrix, v)[|ms|] == v[0]
  {
    var p := MatVec(sys.matrix, v);
    forall k | 0 <= k < |ms|
      ensures p[k] == Predicted(ms[k], v)
    {
      RowEncodesUnique(sys.matrix[k], ms[k]);
      DotMeasurementRow(ms[k], v);
    }
    AnchorRowUnique(sys.matrix[|ms|]);
    DotAnchorRow(v);
  }

  /** A vector `v` solves one axis of the system exactly if and only if it
      is anchored at frame 0 and reproduces every measured displacement. */
  lemma ExactFit(sys: System, ms: seq<Measurement>, v: seq<int>, a: Axis)
    requires Encodes(sys, ms) && |v| == sys.frames
    ensures MatVec(sys.matrix, v) == (match a case X => sys.rhsX case Y => sys.rhsY)
            <==> v[0] == 0 && forall k :: 0 <= k < |ms| ==> Predicted(ms[k], v) == Displacement(ms[k], a)
  {
    ProductEntries(sys, ms, v);
    var b := match a case X => sys.rhsX case Y => sys.rhsY;
    var p := MatVec(sys.matrix, v);
    if p == b {
      assert p[|ms|] == b[|ms|];
      forall k | 0 <= k < |ms|
        ensures Predicted(ms[k], v) == Displacement(ms[k], a)
      {
        assert p[k] == b[k];
      }
    }
  }

  /** Noiseless ground truth: if every measurement is a true difference
      `g[tj] - g[ti]` and `g[0] == 0`, then `g` satisfies every equation of
      that axis exactly, provided every measurement of a frame against
      itself is at a frame where `g` is 0 (`SameFrameCounterexample` shows
      why that proviso is needed). */
  lemma GroundTruthSolves(sys: System, ms: seq<Measurement>, g: seq<int>, a: Axis)
    requires Encodes(sys, ms) && |g| == sys.frames && g[0] == 0
    requires forall k :: 0 <= k < |ms| ==>
      && (ms[k].ti != ms[k].tj || g[ms[k].tj] == 0)
      && Displacement(ms[k], a) == g[ms[k].tj] - g[ms[k].ti]
    ensures MatVec(sys.matrix, g) == (match a case X => sys.rhsX case Y => sys.rhsY)
  {
    ExactFit(sys, ms, g, a);
  }

  /** A measurement of frame 1 against itself with zero displacement is true
      of the ground truth g = (0, 5), yet the code's row for it holds a
      single +1 and states `g[1] = 0`, so g does not solve the system. */
  lemma SameFrameCounterexample()
    ensures var ms := [Measurement(1, 1, 0, 0)];
      var g := [0, 5];
      && Build(ms).Success? && Build(ms).value.frames == |g|
      && g[0] == 0 && Displacement(ms[0], X) == g[ms[0].tj] - g[ms[0].ti]
      && MatVec(Build(ms).value.matrix, g)[0] == 5
      && Build(ms).value.rhsX[0] == 0
  {
    var ms := [Measurement(1, 1, 0, 0)];
    assert MinTime(ms) == 1 && MaxTime(ms) == 1;
    var sys := Build(ms).value;
    ProductEntries(sys, ms, [0, 5]);
  }

  /** Adding a constant `d` to every frame leaves every equation between two
      distinct frames unchanged, and moves the anchor equation and every
      same-frame equation (whose row holds a single +1) by `d`. So when no
      measurement has `ti == tj`, the measurement rows alone cannot fix the
      level of the solution; the anchor row does. */
  lemma TranslationInvariant(sys: System, ms: seq<Measurement>, v: seq<int>, d: int)
    requires Encodes(sys, ms) && |v| == sys.frames
    ensures var w := seq(|v|, i requires 0 <= i < |v| => v[i] + d);
      && (forall k :: 0 <= k < |ms| && ms[k].ti != ms[k].tj ==>
            MatVec(sys.matrix, w)[k] == MatVec(sys.matrix, v)[k])
      && (forall k :: 0 <= k < |ms| && ms[k].ti == ms[k].tj ==>
            MatVec(sys.matrix, w)[k] == MatVec(sys.matrix, v)[k] + d)
      && MatVec(sys.matrix, w)[|ms|] == MatVec(sys.matrix, v)[|ms|] + d
  {
    var w := seq(|v|, i requires 0 <= i < |v| => v[i] + d);
    ProductEntries(sys, ms, v);
    ProductEntries(sys, ms, w);
  }

  /** The worked example: frame 1 moves (5, 0) from frame 0, frame 2 moves
      (3, 4) from frame 1. */
  function ExampleTable(): seq<Measurement> {
    [Measurement(0, 1, 5, 0), Measurement(1, 2, 3, 4)]
  }

  function ExampleSystem(): System {
    System([[-1, 1, 0], [0, -1, 1], [1, 0, 0]], [5, 3, 0], [0, 4, 0], 3)
  }

  lemma ExampleTimes()
    ensures CheckTimes(ExampleTable()) == Success(2)
  {
  }

  lemma ExampleEncodes()
    ensures Encodes(ExampleSystem(), ExampleTable())
  {
  }

  /** The example table builds the expected 3 x 3 system. */
  lemma ExampleBuild()
    ensures Build(ExampleTable()) == Success(ExampleSystem())
  {
    var ms := ExampleTable();
    ExampleTimes();
    ExampleEncodes();
    var built := Build(ms).value;
    assert built.frames == 3;
    EncodesUnique(built, ExampleSystem(), ms);
  }

  /** The positions x = (0, 5, 8) and y = (0, 0, 4) solve both axes of the
      example exactly. */
  lemma ExampleSolves()
    ensures MatVec(ExampleSystem().matrix, [0, 5, 8]) == ExampleSystem().rhsX
    ensures MatVec(ExampleSystem().matrix, [0, 0, 4]) == ExampleSystem().rhsY
  {
  }
}
