# Fit motion displacements: the linear system, in Dafny

This project models the integer core of `fit-motion-displacements.py`. That script reads a
tab-separated table of relative motion measurements between video frames. Each data line holds
`time_i`, `time_j`, `dx` and `dy`. The script turns the table into an overdetermined linear system
with one unknown per frame `0 .. maxtime` and solves it by least squares, so that frame 0 sits at
zero.

The model is split into modules that follow the steps of `main`:

- `Wrappers` (wrappers.dfy): `Option`, `Result`, and `Collect`, which gathers results and stops at the first failure.
- `Tsv` (tsv.dfy): `rstrip("\n")` and `split("\t")` on one line, with their round trips.
- `Decimal` (decimal.dfy): signed decimal literals, the part of Python's `int()` the table uses.
- `Measurements` (measurements.dfy): the `Measurement` record and the `Error` kinds. It also holds the
  4-field check (header included), the header drop, the conversion of data lines, and the
  smallest/largest time check.
- `LinearSystem` (linear_system.dfy): the coefficient matrix (one row per measurement, then the
  anchor row), the two right-hand sides, and the product `M·v`. It also holds the lemmas that
  relate `M·v` to the measurements, including the noiseless ground-truth lemma.
- `Fit` (fit.dfy): the post-solve re-anchoring, the report rows, and the whole run. The
  least-squares solver is a function parameter.

In three places the code behaves in a way a reader might not expect; the model follows the code:

- When `time_i == time_j`, the code assigns -1 and then +1 to the same cell, so the cell ends up
  at +1. It does not end up at 0. That row therefore states `v[t] = dx`, not `0 = dx`.
  `LinearSystem.Predicted` and `RowEncodes` follow the code. `LinearSystem.SameFrameCounterexample`
  shows the effect: the true measurement (1, 1, 0, 0) with ground truth (0, 5) is not solved
  exactly, so `GroundTruthSolves` needs such a measurement to sit at a frame where the ground
  truth is 0.
- The 4-field check also applies to the header line, because it runs before the header is
  skipped.
- A table with no data line fails. With no data line, the array built at line 29 is
  one-dimensional with shape (0,), so selecting its time columns at line 32 raises an indexing
  error before any minimum is taken. The model reports this as the error `NoMeasurements`.

## Model

| member | source | states |
|---|---|---|
| `Tsv.StripNewlines` | go-train-acceleration-analyzed-by-video/fit-motion-displacements.py:23 | the result is a prefix of the line, only newlines were removed, and it no longer ends in a newline |
| `Tsv.Split` | go-train-acceleration-analyzed-by-video/fit-motion-displacements.py:24 | splitting always gives at least one field, and no field contains a tab |
| `Tsv.JoinSplit` | go-train-acceleration-analyzed-by-video/fit-motion-displacements.py:24 | joining the fields of a line with tabs gives the line back |
| `Tsv.SplitJoin` | go-train-acceleration-analyzed-by-video/fit-motion-displacements.py:24 | splitting tab-joined tab-free fields gives the fields back |
| `Tsv.SplitCount` | go-train-acceleration-analyzed-by-video/fit-motion-displacements.py:24-26 | the field count is the tab count plus one, so the 4-column check accepts exactly the lines with three tabs |
| `Decimal.ParseInt` | go-train-acceleration-analyzed-by-video/fit-motion-displacements.py:28 | a field converts exactly when it is an optionally signed, non-empty run of decimal digits |
| `Decimal.ParseShow` | go-train-acceleration-analyzed-by-video/fit-motion-displacements.py:28 | converting the canonical literal of any integer gives that integer back |
| `Decimal.ParsePlus` | go-train-acceleration-analyzed-by-video/fit-motion-displacements.py:28 | a `+` in front of a digit string leaves its conversion unchanged |
| `Decimal.ParseLeadingZero` | go-train-acceleration-analyzed-by-video/fit-motion-displacements.py:28 | a leading zero in front of a non-empty digit string leaves its conversion unchanged |
| `Decimal.ParseMinus` | go-train-acceleration-analyzed-by-video/fit-motion-displacements.py:28 | a `-` in front of a non-empty digit string negates its value |
| `Decimal.ShowDigits` | go-train-acceleration-analyzed-by-video/fit-motion-displacements.py:28 | every digit string without a leading zero is the canonical form of its own value; with the four rows above this fixes the value of every literal |
| `Measurements.SplitLines` | go-train-acceleration-analyzed-by-video/fit-motion-displacements.py:22-24 | one field list per line of the file, in file order; each list is non-empty, its fields hold no tab, and joined with tabs they give back the line without its trailing newlines |
| `Measurements.ParseAll` | go-train-acceleration-analyzed-by-video/fit-motion-displacements.py:28 | the fields convert exactly when every one is a literal, and then value k is field k's value |
| `Measurements.ParseRow` | go-train-acceleration-analyzed-by-video/fit-motion-displacements.py:25-28 | a data line fails with the wrong-column error exactly when it does not have 4 fields, and succeeds exactly when it has 4 integer fields; on success ti, tj, dx, dy are fields 0-3 |
| `Wrappers.Collect` | go-train-acceleration-analyzed-by-video/fit-motion-displacements.py:22-28 | succeeds exactly when every item succeeds, keeps the values in order, and otherwise reports the failure of the first bad item |
| `Measurements.ReadTable` | go-train-acceleration-analyzed-by-video/fit-motion-displacements.py:22-28 | succeeds exactly when the header has 4 fields and every data line parses; then there is one measurement per line after the header, in file order; otherwise the error is that of the first bad line, header included |
| `Measurements.ParseFormatLine` | go-train-acceleration-analyzed-by-video/fit-motion-displacements.py:23-28 | a measurement written as four tab-separated literals reads back as the same measurement |
| `Measurements.ReadFormatTable` | go-train-acceleration-analyzed-by-video/fit-motion-displacements.py:20-28 | a 4-field header followed by formatted measurements reads back as exactly those measurements, in order |
| `Measurements.MinTime` | go-train-acceleration-analyzed-by-video/fit-motion-displacements.py:32 | the result is at most every time index in the first two columns and equals one of them |
| `Measurements.MaxTime` | go-train-acceleration-analyzed-by-video/fit-motion-displacements.py:33 | the result is at least every time index in the first two columns and equals one of them |
| `Measurements.CheckTimes` | go-train-acceleration-analyzed-by-video/fit-motion-displacements.py:32-35 | the check fails on an empty table and fails when some time index is negative; otherwise it gives maxtime, and every index lies in `[0, maxtime]` |
| `LinearSystem.MeasurementRow` | go-train-acceleration-analyzed-by-video/fit-motion-displacements.py:38-40 | the zero row after the two assignments has +1 at tj, -1 at ti when ti differs from tj, and 0 elsewhere |
| `LinearSystem.AnchorRow` | go-train-acceleration-analyzed-by-video/fit-motion-displacements.py:36-37 | the anchor row has 1 at column 0 and 0 in every other column |
| `LinearSystem.Coefficients` | go-train-acceleration-analyzed-by-video/fit-motion-displacements.py:36-40 | the matrix has N+1 rows of maxtime+1 columns; row k encodes measurement k, the last row is the anchor, and every entry is -1, 0 or 1 |
| `LinearSystem.Column` | go-train-acceleration-analyzed-by-video/fit-motion-displacements.py:43-44 | the extracted column has one entry per measurement, in row order |
| `LinearSystem.RightHandSide` | go-train-acceleration-analyzed-by-video/fit-motion-displacements.py:43-44 | each right-hand side is the dx (or dy) column in row order followed by a trailing 0, so it has length N+1 |
| `LinearSystem.Build` | go-train-acceleration-analyzed-by-video/fit-motion-displacements.py:32-44 | succeeds exactly when there is a measurement and no time is negative, failing with the matching error otherwise; on success the system encodes the table with maxtime+1 columns and entries in {-1, 0, 1} |
| `LinearSystem.BuildMatrix` | go-train-acceleration-analyzed-by-video/fit-motion-displacements.py:36-40 | the code's zero matrix, anchor assignment and per-row assignments give N+1 rows; row k encodes measurement k, and the loop never changes the anchor row; the result equals `Coefficients`, the matrix `Build` uses |
| `LinearSystem.RowEncodesUnique` | go-train-acceleration-analyzed-by-video/fit-motion-displacements.py:38-40 | any row with the stated entries is exactly the row the code builds |
| `LinearSystem.EncodesUnique` | go-train-acceleration-analyzed-by-video/fit-motion-displacements.py:36-44 | the matrix and both right-hand sides are fully determined by the measurements and the column count |
| `LinearSystem.DotUpdate` | go-train-acceleration-analyzed-by-video/fit-motion-displacements.py:39-40 | assigning a coefficient (not adding to it) changes a row's product by the coefficient's change times that unknown |
| `LinearSystem.DotMeasurementRow` | go-train-acceleration-analyzed-by-video/fit-motion-displacements.py:38-40 | a measurement row times v is `v[tj] - v[ti]`, or `v[tj]` when ti equals tj |
| `LinearSystem.DotAnchorRow` | go-train-acceleration-analyzed-by-video/fit-motion-displacements.py:37 | the anchor row times v is `v[0]` |
| `LinearSystem.ProductEntries` | go-train-acceleration-analyzed-by-video/fit-motion-displacements.py:36-44 | for any v of length maxtime+1, `(M·v)[k]` is measurement k's difference and `(M·v)[N]` is `v[0]` |
| `LinearSystem.ExactFit` | go-train-acceleration-analyzed-by-video/fit-motion-displacements.py:36-44 | `M·v` equals one axis's right-hand side if and only if `v[0] = 0` and v reproduces every measured displacement on that axis |
| `LinearSystem.GroundTruthSolves` | go-train-acceleration-analyzed-by-video/fit-motion-displacements.py:36-44 | noiseless data from a ground truth g with `g[0] = 0` gives `M·g = b` exactly, when every same-frame measurement is at a frame where g is 0 |
| `LinearSystem.SameFrameCounterexample` | go-train-acceleration-analyzed-by-video/fit-motion-displacements.py:38-40 | the table with the one true measurement (1, 1, 0, 0) builds, yet the ground truth (0, 5) gives 5 where the right-hand side has 0 |
| `LinearSystem.TranslationInvariant` | go-train-acceleration-analyzed-by-video/fit-motion-displacements.py:37-40 | shifting every unknown by d leaves each equation between distinct frames unchanged, and moves the anchor equation and every same-frame equation by d; so without same-frame measurements only the anchor row fixes the level |
| `LinearSystem.ExampleBuild` | go-train-acceleration-analyzed-by-video/fit-motion-displacements.py:36-44 | measurements (0,1,5,0) and (1,2,3,4) build the 3 x 3 system `[[-1,1,0],[0,-1,1],[1,0,0]]` with right-hand sides (5,3,0) and (0,4,0) |
| `LinearSystem.ExampleSolves` | go-train-acceleration-analyzed-by-video/fit-motion-displacements.py:36-44 | x = (0,5,8) and y = (0,0,4) solve that example exactly |
| `Fit.Reanchor` | go-train-acceleration-analyzed-by-video/fit-motion-displacements.py:47-48 | the shifted solution keeps its length, is 0 at frame 0, and keeps every pairwise difference |
| `Fit.ReanchorUnique` | go-train-acceleration-analyzed-by-video/fit-motion-displacements.py:47-48 | the shifted vector is the only vector that is 0 at frame 0 and has the original differences to frame 0 |
| `Fit.ReanchorIdempotent` | go-train-acceleration-analyzed-by-video/fit-motion-displacements.py:47-48 | shifting twice is the same as shifting once, and a solution already 0 at frame 0 is unchanged |
| `Fit.Load` | go-train-acceleration-analyzed-by-video/fit-motion-displacements.py:20-44 | loading succeeds exactly when the table reads, has a data line and has no negative time; errors are passed on in the code's order; on success the system encodes the table with maxtime+1 columns |
| `Fit.SolveAndReport` | go-train-acceleration-analyzed-by-video/fit-motion-displacements.py:45-55 | given solver answers of the right length, there is one row per frame in ascending order, frame 0 is (0, 0), and every row keeps the solver's difference to frame 0 |
| `Fit.Run` | go-train-acceleration-analyzed-by-video/fit-motion-displacements.py:20-55 | a run fails with the loading error when loading fails; otherwise the report has maxtime+1 rows, frame 0 reads exactly (0, 0), and row t holds `x[t] - x[0]` and `y[t] - y[0]` |

## Left out

- The argument-count check and usage exit (lines 16-17) are process plumbing.
- File opening, UTF-8 decoding and universal-newline translation (line 21) are I/O. A line is the string the file iterator yields.
- `Fit.Load` and `Fit.Run` take the lines already split into fields. `Measurements.SplitLines` and `ReadFormatTable` tie the splitting to the table.
- `Decimal.ParseInt` is weaker than Python's `int()`. It rejects surrounding whitespace, digit-group underscores and non-ASCII digits, all of which `int()` accepts.
- `Measurements.ParseRow` does not model the 32-bit narrowing at line 29. Values are unbounded integers, so out-of-range values are not rejected.
- `numpy.linalg.lstsq` (lines 45-46) is an external floating-point SVD solver. It is the `Solver` parameter.
- `Fit.SolveAndReport` treats a solution of the wrong length as a solver failure. The real solver always returns one value per column.
- `Fit.Reanchor` uses exact real arithmetic, so float64 rounding of the subtraction at lines 47-48 is not modelled.
- The matrix is `float64` at line 36. Its entries are the exact integers -1, 0 and 1, so the model keeps them as integers.
- `math.hypot` and the printed report (lines 51-55) are floating point and output formatting. A report row carries the frame index and both components. The magnitude column is not modelled.
