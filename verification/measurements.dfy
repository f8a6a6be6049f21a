/** The measurement table: reading the tab-separated lines into measurements
    and checking the time indices (fit-motion-displacements.py, lines 20-35). */
module Measurements {
  import opened Wrappers
  import Tsv
  import Decimal

  /** An observed displacement (dx, dy) of frame `tj` relative to frame `ti`. */
  datatype Measurement = Measurement(ti: int, tj: int, dx: int, dy: int)

  /** Why a run stops before any output is produced. The one error type of
      the whole run is declared here, with the first stage that can fail;
      `SolverFailed` is raised only after solving, in `Fit`. */
  datatype Error =
    | WrongColumnCount(line: nat)  // a line (header included) without exactly four fields
    | NotAnInteger(line: nat)      // a data field that is not an integer literal
    | NoMeasurements               // the table has no data line, so it has no time columns
    | NegativeTime                 // the smallest time index is below zero
    | SolverFailed                 // the least-squares collaborator gave an unusable answer

  /** Every line, the header included, must have this many fields. */
  const Columns: nat := 4

  /** The fields of one line as read from the file: trailing newlines
      removed, then split at every tab. */
  function Fields(line: string): seq<string>
  {
    Tsv.Split(Tsv.StripNewlines(line))
  }

  /** Every line of the file, split into fields: one field list per line,
      each non-empty and free of tabs, which joined with tabs gives back
      the line without its trailing newlines. */
  function SplitLines(lines: seq<string>): (rows: seq<seq<string>>)
    ensures |rows| == |lines|
    ensures forall j :: 0 <= j < |lines| ==>
      && |rows[j]| >= 1
      && Tsv.Join(rows[j]) == Tsv.StripNewlines(lines[j])
      && forall i :: 0 <= i < |rows[j]| ==> Tsv.Tab !in rows[j][i]
  {
    var rows := seq(|lines|, j requires 0 <= j < |lines| => Fields(lines[j]));
    forall j | 0 <= j < |lines|
      ensures Tsv.Join(rows[j]) == Tsv.StripNewlines(lines[j])
    {
      Tsv.JoinSplit(Tsv.StripNewlines(lines[j]));
    }
    rows
  }

  /** Converts every field with `int()`, in order; `None` if some field is
      not an integer literal. */
  function ParseAll(fields: seq<string>): (r: Option<seq<int>>)
    ensures r.Some? <==> forall k :: 0 <= k < |fields| ==> Decimal.ParseInt(fields[k]).Some?
    ensures r.Some? ==>
      |r.value| == |fields| && forall k :: 0 <= k < |fields| ==> Decimal.ParseInt(fields[k]) == Some(r.value[k])
  {
    if fields == [] then Some([])
    else
      match (Decimal.ParseInt(fields[0]), ParseAll(fields[1..]))
      case (Some(v), Some(rest)) => Some([v] + rest)
      case _ => None
  }

  /** Parses the fields of data line number `n` into a measurement. */
  function ParseRow(fields: seq<string>, n: nat): (r: Result<Measurement, Error>)
    ensures r == Failure(WrongColumnCount(n)) <==> |fields| != Columns
    ensures r.Success? <==>
      |fields| == Columns && forall k :: 0 <= k < Columns ==> Decimal.ParseInt(fields[k]).Some?
    ensures r.Failure? ==> r.error == WrongColumnCount(n) || r.error == NotAnInteger(n)
    ensures r.Success? ==>
      && Decimal.ParseInt(fields[0]) == Some(r.value.ti)
      && Decimal.ParseInt(fields[1]) == Some(r.value.tj)
      && Decimal.ParseInt(fields[2]) == Some(r.value.dx)
      && Decimal.ParseInt(fields[3]) == Some(r.value.dy)
  {
    if |fields| != Columns then Failure(WrongColumnCount(n))
    else
      match ParseAll(fields)
      case Some(v) => Success(Measurement(v[0], v[1], v[2], v[3]))
      case None => Failure(NotAnInteger(n))
  }

  /** The error line `j` raises on its own, if any: the header's fields
      are only counted, a data line's fields are also converted. */
  function RowError(rows: seq<seq<string>>, j: nat): Option<Error>
    requires j < |rows|
  {
    if j == 0 then (if |rows[0]| == Columns then None else Some(WrongColumnCount(0)))
    else match ParseRow(rows[j], j)
      case Success(_) => None
      case Failure(e) => Some(e)
  }

  /** The parse results of the data lines (every line after the header),
      each tagged with its own line number. */
  function DataResults(rows: seq<seq<string>>): seq<Result<Measurement, Error>>
    requires |rows| > 0
  {
    seq(|rows| - 1, k requires 0 <= k < |rows| - 1 => ParseRow(rows[k + 1], k + 1))
  }

  /** Reads the split lines of the file: the header must have four fields
      and is then dropped; every later line becomes one measurement, in file
      order. The first offending line decides the error. */
  function ReadTable(rows: seq<seq<string>>): (r: Result<seq<Measurement>, Error>)
    ensures r.Success? <==> forall j :: 0 <= j < |rows| ==> RowError(rows, j).None?
    ensures r.Success? ==>
      && |r.value| == (if |rows| == 0 then 0 else |rows| - 1)
      && forall k :: 0 <= k < |r.value| ==> ParseRow(rows[k + 1], k + 1) == Success(r.value[k])
    ensures r.Failure? ==>
      && (r.error.WrongColumnCount? || r.error.NotAnInteger?)
      && r.error.line < |rows|
      && RowError(rows, r.error.line) == Some(r.error)
      && forall j :: 0 <= j < r.error.line ==> RowError(rows, j).None?
  {
    if |rows| == 0 then Success([])
    else if |rows[0]| != Columns then
      assert RowError(rows, 0).Some?;
      Failure(WrongColumnCount(0))
    else
      var r := Collect(DataResults(rows));
      DataResultsCollected(rows);
      r
  }

  /** What collecting the data lines' results says about each line. */
  lemma DataResultsCollected(rows: seq<seq<string>>)
    requires |rows| > 0 && |rows[0]| == Columns
    ensures var r := Collect(DataResults(rows));
      && (r.Success? <==> forall j :: 0 <= j < |rows| ==> RowError(rows, j).None?)
      && (r.Failure? ==>
            && (r.error.WrongColumnCount? || r.error.NotAnInteger?)
            && r.error.line < |rows|
            && RowError(rows, r.error.line) == Some(r.error)
            && forall j :: 0 <= j < r.error.line ==> RowError(rows, j).None?)
  {
    var rs := DataResults(rows);
    var r := Collect(rs);
    assert forall j :: 1 <= j < |rows| ==> RowError(rows, j).None? == rs[j - 1].Success?;
    if r.Failure? {
      var k :| 0 <= k < |rs| && rs[k] == Failure(r.error) && forall j :: 0 <= j < k ==> rs[j].Success?;
      assert RowError(rows, k + 1) == Some(r.error);
    }
  }

  /** The canonical literals of a measurement's four values. */
  function Literals(m: Measurement): seq<string>
  {
    [Decimal.ShowInt(m.ti), Decimal.ShowInt(m.tj), Decimal.ShowInt(m.dx), Decimal.ShowInt(m.dy)]
  }

  /** Writes a measurement as a data line: its four literals separated by
      tabs. */
  function FormatLine(m: Measurement): string
  {
    Tsv.Join(Literals(m))
  }

  /** A header line followed by one formatted line per measurement. */
  function FormatTable(header: string, ms: seq<Measurement>): seq<string>
  {
    [header] + seq(|ms|, k requires 0 <= k < |ms| => FormatLine(ms[k]))
  }

  lemma LiteralHasNoTab(s: string)
    requires Decimal.IsLiteral(s)
    ensures Tsv.Tab !in s && s[|s| - 1] != Tsv.Newline
  {
  }

  /** Splitting a formatted line recovers the four literals. */
  lemma FieldsOfFormatLine(m: Measurement)
    ensures Fields(FormatLine(m)) == Literals(m)
  {
    var parts := Literals(m);
    forall i | 0 <= i < |parts|
      ensures Tsv.Tab !in parts[i]
    {
      LiteralHasNoTab(parts[i]);
    }
    var line := FormatLine(m);
    LiteralHasNoTab(parts[3]);
    Tsv.JoinLast(parts);
    assert Tsv.StripNewlines(line) == line;
    Tsv.SplitJoin(parts);
  }

  /** Converting the four literals gives the measurement back. */
  lemma ParseLiterals(m: Measurement, n: nat)
    ensures ParseRow(Literals(m), n) == Success(m)
  {
    Decimal.ParseShow(m.ti);
    Decimal.ParseShow(m.tj);
    Decimal.ParseShow(m.dx);
    Decimal.ParseShow(m.dy);
  }

  /** Reading back a formatted line gives the measurement. */
  lemma ParseFormatLine(m: Measurement, n: nat)
    ensures ParseRow(Fields(FormatLine(m)), n) == Success(m)
  {
    FieldsOfFormatLine(m);
    ParseLiterals(m, n);
  }

  /** Rows whose data lines each parse to the matching measurement are read
      as exactly those measurements. */
  lemma ReadParsedRows(rows: seq<seq<string>>, ms: seq<Measurement>)
    requires |rows| == |ms| + 1 && |rows[0]| == Columns
    requires forall k :: 0 <= k < |ms| ==> ParseRow(rows[k + 1], k + 1) == Success(ms[k])
    ensures ReadTable(rows) == Success(ms)
  {
    var rs := DataResults(rows);
    assert forall k :: 0 <= k < |rs| ==> rs[k] == Success(ms[k]);
    var r := Collect(rs);
    assert r.value == ms;
  }

  /** Data line `k + 1` of a formatted table reads back as `ms[k]`. */
  lemma ReadFormatRow(header: string, ms: seq<Measurement>, k: nat)
    requires k < |ms|
    ensures var rows := SplitLines(FormatTable(header, ms));
      |rows| == |ms| + 1 && ParseRow(rows[k + 1], k + 1) == Success(ms[k])
  {
    var lines := FormatTable(header, ms);
    assert lines[k + 1] == FormatLine(ms[k]);
    ParseFormatLine(ms[k], k + 1);
  }

  /** Reading a formatted table under any four-field header gives back the
      measurements, in order. */
  lemma ReadFormatTable(header: string, ms: seq<Measurement>)
    requires |Fields(header)| == Columns
    ensures ReadTable(SplitLines(FormatTable(header, ms))) == Success(ms)
  {
    var rows := SplitLines(FormatTable(header, ms));
    forall k | 0 <= k < |ms|
      ensures ParseRow(rows[k + 1], k + 1) == Success(ms[k])
    {
      ReadFormatRow(header, ms, k);
    }
    ReadParsedRows(rows, ms);
  }

  /** Every time index of the table is non-negative. */
  predicate NonNegativeTimes(ms: seq<Measurement>) {
    forall k :: 0 <= k < |ms| ==> ms[k].ti >= 0 && ms[k].tj >= 0
  }

  /** Both time indices of `m` are columns of a `cols`-column matrix. */
  predicate InRange(m: Measurement, cols: int) {
    0 <= m.ti < cols && 0 <= m.tj < cols
  }

  function Min(a: int, b: int): int { if a <= b then a else b }
  function Max(a: int, b: int): int { if a >= b then a else b }

  /** Smallest value in the two time columns. */
  function MinTime(ms: seq<Measurement>): (t: int)
    requires |ms| > 0
    ensures forall k :: 0 <= k < |ms| ==> t <= ms[k].ti && t <= ms[k].tj
    ensures exists k :: 0 <= k < |ms| && (t == ms[k].ti || t == ms[k].tj)
  {
    var here := Min(ms[0].ti, ms[0].tj);
    if |ms| == 1 then here
    else
      var rest := MinTime(ms[1..]);
      assert forall k :: 1 <= k < |ms| ==> ms[k] == ms[1..][k - 1];
      Min(here, rest)
  }

  /** Largest value in the two time columns. */
  function MaxTime(ms: seq<Measurement>): (t: int)
    requires |ms| > 0
    ensures forall k :: 0 <= k < |ms| ==> ms[k].ti <= t && ms[k].tj <= t
    ensures exists k :: 0 <= k < |ms| && (t == ms[k].ti || t == ms[k].tj)
  {
    var here := Max(ms[0].ti, ms[0].tj);
    if |ms| == 1 then here
    else
      var rest := MaxTime(ms[1..]);
      assert forall k :: 1 <= k < |ms| ==> ms[k] == ms[1..][k - 1];
      Max(here, rest)
  }

  /** The time check of lines 32-35. An empty table fails: with no data
      line the array built at line 29 is one-dimensional, so selecting its
      time columns at line 32 raises. A negative minimum fails. Otherwise the
      result is the largest time index, so the matrix gets that many columns
      plus one. */
  function CheckTimes(ms: seq<Measurement>): (r: Result<nat, Error>)
    ensures r.Success? <==> |ms| > 0 && NonNegativeTimes(ms)
    ensures r == Failure(NoMeasurements) <==> |ms| == 0
    ensures r.Failure? ==> r.error == NoMeasurements || r.error == NegativeTime
    ensures r.Success? ==> forall k :: 0 <= k < |ms| ==> InRange(ms[k], r.value + 1)
    ensures r.Success? ==> exists k :: 0 <= k < |ms| && (ms[k].ti == r.value || ms[k].tj == r.value)
  {
    if |ms| == 0 then Failure(NoMeasurements)
    else if MinTime(ms) < 0 then Failure(NegativeTime)
    else Success(MaxTime(ms))
  }
}
