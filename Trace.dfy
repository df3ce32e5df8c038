/** `generate_output`: runs Venus in trace mode, decides whether the run
    failed, and turns the captured trace into the rows of a reference file
    (`.ref` for the single-cycle model, `.piperef` for the two-stage one). */
module Trace {
  import opened Wrappers
  import opened Text
  import opened Numerals
  import opened Paths
  import opened Host

  /** The per-cycle line format Venus is asked for. */
  const TracePattern := "%1%,%2%,%5%,%6%,%7%,%8%,%9%,%10%,%pc%,%inst%,%line%\n"

  /** The first row of every reference file. */
  const TraceHeader: seq<string> := ["ra", "sp", "t0", "t1", "t2", "s0", "s1", "a0",
                                     "RequestedAddress", "RequestedInstruction", "TimeStep"]

  /** The text Venus prints for a runtime error, which it reports with exit code 0. */
  const ErrorMarker := "[ERROR]"

  // ---------------------------------------------------------------------
  // The command line
  // ---------------------------------------------------------------------

  /** The arguments every trace run starts with. */
  function TraceBase(jar: string, asm: string): seq<string> {
    ["java", "-jar", jar, asm, "--immutableText", "--trace", "--traceInstFirst",
     "--tracepattern", TracePattern, "--unsetRegisters"]
  }

  /** The Venus command for a trace run: the fixed arguments, a bound of
      `numCycles + 1` lines when a cycle count is given, and the two-stage flag
      for the pipelined model. */
  function TraceCommand(jar: string, asm: string, numCycles: int, pipelined: bool): seq<string> {
    TraceBase(jar, asm)
    + (if numCycles > -1 then ["--traceTotalNumCommands", Decimal(numCycles + 1)] else [])
    + (if pipelined then ["--traceTwoStage"] else [])
  }

  /** The fixed arguments always come first; after them the bound is present
      exactly when a cycle count is given (and then it reads back as
      `numCycles + 1`), and the two-stage flag exactly for the pipelined model. */
  lemma TraceCommandShape(jar: string, asm: string, numCycles: int, pipelined: bool)
    ensures var cmd := TraceCommand(jar, asm, numCycles, pipelined);
      && |cmd| >= 10 && cmd[..10] == TraceBase(jar, asm)
      && ("--traceTotalNumCommands" in cmd[10..] <==> numCycles > -1)
      && ("--traceTwoStage" in cmd[10..] <==> pipelined)
      && (numCycles > -1 ==> |cmd| >= 12 && cmd[10] == "--traceTotalNumCommands"
                             && cmd[11] == Decimal(numCycles + 1))
      && |cmd| == 10 + (if numCycles > -1 then 2 else 0) + (if pipelined then 1 else 0)
  {
    var cmd := TraceCommand(jar, asm, numCycles, pipelined);
    if numCycles > -1 {
      DecimalRoundTrip(numCycles + 1);
      var d := Decimal(numCycles + 1);
      assert d != "--traceTwoStage" && d != "--traceTotalNumCommands" by {
        assert '0' <= d[0] <= '9';
      }
    }
    assert cmd[10..] == (if numCycles > -1 then ["--traceTotalNumCommands", Decimal(numCycles + 1)] else [])
                        + (if pipelined then ["--traceTwoStage"] else []);
  }

  /** What Venus printed for this trace run. */
  function TraceRun(env: Env, asmPath: Path, numCycles: int, pipelined: bool): Run {
    env.venus(TraceCommand(env.venusJar, PathString(asmPath), numCycles, pipelined))
  }

  // ---------------------------------------------------------------------
  // Error detection
  // ---------------------------------------------------------------------

  /** A run failed when it exited with a non-zero code, or when some printed
      line carries the error marker even though it exited with 0. */
  predicate Errored(run: Run) {
    run.exitCode != 0 || exists i :: 0 <= i < |run.lines| && Contains(run.lines[i], ErrorMarker)
  }

  /** The scan of the captured output, stopping at the first error line. */
  method ScanForError(run: Run) returns (didError: bool)
    ensures didError <==> Errored(run)
  {
    didError := run.exitCode != 0;
    if !didError {
      var i := 0;
      while i < |run.lines|
        invariant 0 <= i <= |run.lines|
        invariant forall k :: 0 <= k < i ==> !Contains(run.lines[k], ErrorMarker)
      {
        if Contains(run.lines[i], ErrorMarker) {
          didError := true;
          break;
        }
        i := i + 1;
      }
    }
  }

  // ---------------------------------------------------------------------
  // Reference rows
  // ---------------------------------------------------------------------

  /** One trace line as a row: whitespace stripped, every space dropped, split on commas. */
  function NormalizeRow(line: string): seq<string> {
    Split(ReplaceAll(Strip(line), " ", ""), ',')
  }

  /** A row has at least one field, no field holds a space or a comma, and
      joining the fields with commas gives back the stripped, space-free line. */
  lemma NormalizeRowShape(line: string)
    ensures |NormalizeRow(line)| >= 1
    ensures forall i :: 0 <= i < |NormalizeRow(line)| ==> ' ' !in NormalizeRow(line)[i] && ',' !in NormalizeRow(line)[i]
    ensures Join(NormalizeRow(line), ",") == ReplaceAll(Strip(line), " ", "")
  {
    var compact := ReplaceAll(Strip(line), [' '], []);
    assert compact == ReplaceAll(Strip(line), " ", "");
    ReplaceAllDeletes(Strip(line), ' ');
    SplitAvoids(compact, ',', ' ');
    JoinSplit(compact, ',');
  }

  /** The rows of a reference file: the header, then one row per trace line. */
  function ReferenceRows(lines: seq<string>): seq<seq<string>> {
    [TraceHeader] + seq(|lines|, i requires 0 <= i < |lines| => NormalizeRow(lines[i]))
  }

  /** The header comes first and is followed by exactly one space-free row per
      trace line, in order, each re-joining to its line. */
  lemma ReferenceRowsShape(lines: seq<string>)
    ensures |ReferenceRows(lines)| == |lines| + 1 && ReferenceRows(lines)[0] == TraceHeader
    ensures forall k :: 0 <= k < |lines| ==> SpaceFreeRowOf(ReferenceRows(lines)[k + 1], lines[k])
  {
    forall k | 0 <= k < |lines| ensures SpaceFreeRowOf(ReferenceRows(lines)[k + 1], lines[k]) {
      assert ReferenceRows(lines)[k + 1] == NormalizeRow(lines[k]);
      NormalizeRowShape(lines[k]);
    }
  }

  /** `row` has no field holding a space, and re-joins to `line` stripped of
      its whitespace and spaces. */
  predicate SpaceFreeRowOf(row: seq<string>, line: string) {
    && (forall f :: 0 <= f < |row| ==> ' ' !in row[f])
    && Join(row, ",") == ReplaceAll(Strip(line), " ", "")
  }

  /** The loop that writes the rows and counts the detected cycles. */
  method BuildReferenceRows(lines: seq<string>) returns (rows: seq<seq<string>>, detected: nat)
    ensures rows == ReferenceRows(lines)
    ensures detected == |lines|
  {
    rows := [TraceHeader];
    detected := 0;
    for i := 0 to |lines|
      invariant detected == i
      invariant rows == ReferenceRows(lines[..i])
    {
      assert lines[..i + 1][..i] == lines[..i];
      rows := rows + [NormalizeRow(lines[i])];
      detected := detected + 1;
    }
    assert lines[..|lines|] == lines;
  }

  // ---------------------------------------------------------------------
  // generate_output
  // ---------------------------------------------------------------------

  /** Runs Venus, and unless it failed writes the reference file and returns
      the number of trace lines. On failure nothing is written. */
  method GenerateOutput(fs: FileSystem, env: Env, asmPath: Path, refPath: Path, numCycles: int, pipelined: bool)
    returns (r: Result<nat, TestCreateError>)
    modifies fs
    ensures var run := TraceRun(env, asmPath, numCycles, pipelined);
      if Errored(run) then
        r == Failure(VenusErrored(PathString(asmPath))) && fs.files == old(fs.files)
      else
        r == Success(|run.lines|) && fs.files == old(fs.files)[refPath := env.csv(ReferenceRows(run.lines))]
  {
    var run := env.venus(TraceCommand(env.venusJar, PathString(asmPath), numCycles, pipelined));
    var didError := ScanForError(run);
    if didError {
      return Failure(VenusErrored(PathString(asmPath)));
    }
    var rows, detected := BuildReferenceRows(run.lines);
    fs.Write(refPath, env.csv(rows));
    return Success(detected);
  }
}
