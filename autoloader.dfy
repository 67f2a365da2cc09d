/**
 * The main cell of the notebook: every path of the landing-zone listing is
 * routed, in listing order, to a skip or to an append into the table named
 * after the file followed by a move into the archive zone.
 *
 * Spark and the object store are not modelled; their effects are recorded as
 * a trace of `Action`s. Whether loading a file and appending it succeeds is an
 * oracle `writeOk`. The notebook catches nothing, so the first failing write
 * ends the run.
 */
module Autoloader {
  import opened Wrappers
  import opened TableName
  import opened FileFormat
  import opened ReadOptions
  import opened Archive

  /** The notebook's configuration cell. */
  datatype Config = Config(
    landingZone: string,
    archiveZone: string,
    catalog: string,
    schema: string,
    checkpointPath: string)

  /** The values the notebook is configured with. */
  const NotebookConfig := Config(
    "s3://your-bucket/landing-zone/",
    "s3://your-bucket/archive-zone/",
    "entity_resolution_dev",
    "bronze",
    "/tmp/autoloader/checkpoints")

  /** `replace` needs a pattern: the landing zone is never empty. */
  predicate ValidConfig(cfg: Config) {
    |cfg.landingZone| > 0
  }

  /** Why a listed file is left in place. */
  datatype SkipReason =
    | NoTableName             // no table name could be extracted from the path
    | NotInSchema(name: string) // the name is not a table of `catalog.schema`

  /** One observable effect of the run. */
  datatype Action =
      /** The file is left where it is. */
    | Skip(path: string, reason: SkipReason)
      /**
       * The file was read with `readOptions`, tagged with a `source_file`
       * column equal to `path`, and appended to the table `target`.
       */
    | Append(path: string, target: string, readOptions: map<string, string>)
      /** The file was moved from `src` to `dst`. */
    | Move(src: string, dst: string)

  /** How the run ended: it went through the whole listing, or a write raised. */
  datatype Status = Completed | WriteFailed(path: string, target: string)

  datatype RunResult = RunResult(trace: seq<Action>, status: Status)

  /** `f'{catalog}.{schema}.{table_name}'`. */
  function TargetTable(cfg: Config, name: string): (t: string)
    ensures |t| == |cfg.catalog| + |cfg.schema| + |name| + 2
    ensures t[|t| - |name|..] == name
  {
    cfg.catalog + "." + cfg.schema + "." + name
  }

  /** Two different table names never share a target table. */
  lemma TargetTableInjective(cfg: Config, a: string, b: string)
    requires TargetTable(cfg, a) == TargetTable(cfg, b)
    ensures a == b
  {
    var t := TargetTable(cfg, a);
    assert |a| == |b|;
    assert a == t[|t| - |a|..] == b;
  }

  /** Where the file at `path` is moved after its append. */
  function ArchiveTarget(cfg: Config, path: string): string
    requires ValidConfig(cfg)
  {
    ArchivePath(cfg.archiveZone, cfg.landingZone, path)
  }

  /**
   * One iteration of the loop: the actions it records, and `WriteFailed`
   * when the load-and-append raises (then nothing is recorded for the file).
   */
  function FileStep(cfg: Config, tables: seq<string>, writeOk: string -> bool, path: string): (r: RunResult)
    requires ValidConfig(cfg)
    ensures r.status.WriteFailed? ==> r.trace == [] && r.status.path == path
  {
    match ExtractTableName(path)
    case None => RunResult([Skip(path, NoTableName)], Completed)
    case Some(name) =>
      if name !in tables then RunResult([Skip(path, NotInSchema(name))], Completed)
      else if !writeOk(path) then RunResult([], WriteFailed(path, TargetTable(cfg, name)))
      else RunResult(
        [ Append(path, TargetTable(cfg, name), Options(DetectFormat(path), cfg.checkpointPath, name)),
          Move(path, ArchiveTarget(cfg, path)) ],
        Completed)
  }

  /**
   * The loop from the `i`-th listed file on, each file handled by `step`: a
   * step that fails ends the run with its failure, every other step's
   * actions are followed by those of the files after it.
   */
  function RunFrom(step: string -> RunResult, files: seq<string>, i: nat): (r: RunResult)
    requires i <= |files|
    decreases |files| - i
  {
    if i == |files| then RunResult([], Completed)
    else
      var r := step(files[i]);
      if r.status.WriteFailed? then r
      else
        var rest := RunFrom(step, files, i + 1);
        RunResult(r.trace + rest.trace, rest.status)
  }

  /** The body of the notebook's loop, as a function of the listed path. */
  function StepOf(cfg: Config, tables: seq<string>, writeOk: string -> bool): string -> RunResult
    requires ValidConfig(cfg)
  {
    path => FileStep(cfg, tables, writeOk, path)
  }

  /** The whole run over the listing `files`. */
  function Run(cfg: Config, tables: seq<string>, writeOk: string -> bool, files: seq<string>): (r: RunResult)
    requires ValidConfig(cfg)
    ensures r.status.Completed?
        <==> forall k | 0 <= k < |files| :: FileStep(cfg, tables, writeOk, files[k]).status.Completed?
  {
    RunFromCompletesIff(StepOf(cfg, tables, writeOk), files, 0);
    RunFrom(StepOf(cfg, tables, writeOk), files, 0)
  }

  /** A completed step extends the trace recorded so far by its own actions. */
  lemma CompletedStep(step: string -> RunResult, files: seq<string>, i: nat, done: seq<Action>, whole: RunResult)
    requires i < |files|
    requires step(files[i]).status.Completed?
    requires whole == RunResult(done + RunFrom(step, files, i).trace, RunFrom(step, files, i).status)
    ensures whole == RunResult(done + step(files[i]).trace + RunFrom(step, files, i + 1).trace,
                               RunFrom(step, files, i + 1).status)
  {
    var rest := RunFrom(step, files, i + 1);
    assert done + (step(files[i]).trace + rest.trace) == done + step(files[i]).trace + rest.trace;
  }

  /**
   * The main cell: `tables` is the result of `listTables`, `files` the paths
   * `dbutils.fs.ls` returned for the landing zone.
   */
  method ProcessLandingZone(cfg: Config, tables: seq<string>, files: seq<string>, writeOk: string -> bool)
    returns (trace: seq<Action>, status: Status)
    requires ValidConfig(cfg)
    ensures RunResult(trace, status) == Run(cfg, tables, writeOk, files)
  {
    ghost var step := StepOf(cfg, tables, writeOk);
    trace := [];
    for i := 0 to |files|
      invariant Run(cfg, tables, writeOk, files)
             == RunResult(trace + RunFrom(step, files, i).trace, RunFrom(step, files, i).status)
    {
      var path := files[i];
      ghost var done := trace;
      var tableName := ExtractTableName(path);
      if tableName.None? {
        trace := trace + [Skip(path, NoTableName)];
        CompletedStep(step, files, i, done, Run(cfg, tables, writeOk, files));
        continue;
      }
      var name := tableName.value;
      if name !in tables {
        trace := trace + [Skip(path, NotInSchema(name))];
        CompletedStep(step, files, i, done, Run(cfg, tables, writeOk, files));
        continue;
      }
      var format := DetectFormat(path);
      var options := BuildOptions(format, cfg.checkpointPath, name);
      var target := TargetTable(cfg, name);
      if !writeOk(path) {
        status := WriteFailed(path, target);
        return;
      }
      trace := trace + [Append(path, target, options)];
      var archivePath := ArchiveTarget(cfg, path);
      trace := trace + [Move(path, archivePath)];
      TwoAppended(done, Append(path, target, options), Move(path, archivePath));
      CompletedStep(step, files, i, done, Run(cfg, tables, writeOk, files));
    }
    status := Completed;
  }

  /** Recording two actions one after the other records the pair. */
  lemma TwoAppended(done: seq<Action>, a: Action, b: Action)
    ensures done + [a] + [b] == done + [a, b]
  {
  }

  // ---------------------------------------------------------------------
  // Properties of a run

  /** The files an action reports an outcome for: skips and appends, not moves. */
  function Outcomes(trace: seq<Action>): seq<string>
  {
    if trace == [] then []
    else match trace[0]
      case Skip(path, _) => [path] + Outcomes(trace[1..])
      case Append(path, _, _) => [path] + Outcomes(trace[1..])
      case Move(_, _) => Outcomes(trace[1..])
  }

  /** The outcomes are the paths of the skips and appends of the trace, and nothing else. */
  lemma {:induction false} OutcomesAreSkipsAndAppends(trace: seq<Action>)
    ensures forall k | 0 <= k < |trace| && !trace[k].Move? :: trace[k].path in Outcomes(trace)
    ensures forall p | p in Outcomes(trace) ::
      exists k | 0 <= k < |trace| :: !trace[k].Move? && trace[k].path == p
    decreases |trace|
  {
    if trace != [] {
      var tail := trace[1..];
      OutcomesAreSkipsAndAppends(tail);
      forall k | 1 <= k < |trace| && !trace[k].Move? ensures trace[k].path in Outcomes(trace) {
        assert trace[k] == tail[k - 1];
      }
      forall p | p in Outcomes(trace)
        ensures exists k | 0 <= k < |trace| :: !trace[k].Move? && trace[k].path == p
      {
        if p in Outcomes(tail) {
          var k :| 0 <= k < |tail| && !tail[k].Move? && tail[k].path == p;
          assert trace[k + 1] == tail[k];
        } else {
          assert !trace[0].Move? && trace[0].path == p;
        }
      }
    }
  }

  lemma {:induction false} OutcomesOfConcat(a: seq<Action>, b: seq<Action>)
    ensures Outcomes(a + b) == Outcomes(a) + Outcomes(b)
    decreases |a|
  {
    if a != [] {
      assert (a + b)[0] == a[0];
      assert (a + b)[1..] == a[1..] + b;
      OutcomesOfConcat(a[1..], b);
      match a[0]
      case Skip(path, _) =>
        assert [path] + (Outcomes(a[1..]) + Outcomes(b)) == [path] + Outcomes(a[1..]) + Outcomes(b);
      case Append(path, _, _) =>
        assert [path] + (Outcomes(a[1..]) + Outcomes(b)) == [path] + Outcomes(a[1..]) + Outcomes(b);
      case Move(_, _) =>
    } else {
      assert a + b == b;
    }
  }

  /** A file the loop gets past reports exactly one outcome, for itself. */
  lemma StepOutcome(cfg: Config, tables: seq<string>, writeOk: string -> bool, path: string)
    requires ValidConfig(cfg)
    requires FileStep(cfg, tables, writeOk, path).status.Completed?
    ensures Outcomes(FileStep(cfg, tables, writeOk, path).trace) == [path]
  {
    FileStepShape(cfg, tables, writeOk, path);
    OutcomesOfOneFile(FileStep(cfg, tables, writeOk, path).trace, path);
  }

  /** A skip or an append of `path`, possibly followed by a move, reports just `path`. */
  lemma OutcomesOfOneFile(trace: seq<Action>, path: string)
    requires 1 <= |trace| <= 2 && !trace[0].Move? && trace[0].path == path
    requires |trace| == 2 ==> trace[1].Move?
    ensures Outcomes(trace) == [path]
  {
    var tail := trace[1..];
    assert Outcomes(trace) == [path] + Outcomes(tail);
    if |trace| == 2 {
      assert tail[0].Move? && tail[1..] == [];
      assert Outcomes(tail) == Outcomes(tail[1..]) == [];
    } else {
      assert tail == [];
    }
  }

  /**
   * The loop body raises exactly when a table name is found, the table
   * exists and the write fails. Otherwise the file's first action is a skip
   * or an append of that file, followed only by its move.
   */
  lemma FileStepShape(cfg: Config, tables: seq<string>, writeOk: string -> bool, path: string)
    requires ValidConfig(cfg)
    ensures var r := FileStep(cfg, tables, writeOk, path);
      && (r.status.WriteFailed?
          <==> ExtractTableName(path).Some? && ExtractTableName(path).value in tables && !writeOk(path))
      && (r.status.Completed? ==> 1 <= |r.trace| <= 2 && !r.trace[0].Move? && r.trace[0].path == path)
      && (|r.trace| == 2 ==> r.trace[1] == Move(path, ArchiveTarget(cfg, path)))
  {
  }

  /** Every step that completes reports exactly one outcome, for its own file. */
  ghost predicate ReportsItself(step: string -> RunResult) {
    forall path :: step(path).status.Completed? ==> Outcomes(step(path).trace) == [path]
  }

  /** A run that does not complete ends with the failure of one of the remaining listed files. */
  lemma {:induction false} RunFromFailureIsAStep(step: string -> RunResult, files: seq<string>, i: nat)
    requires i <= |files|
    requires !RunFrom(step, files, i).status.Completed?
    ensures exists k | i <= k < |files| :: RunFrom(step, files, i).status == step(files[k]).status
    decreases |files| - i
  {
    if step(files[i]).status.Completed? {
      RunFromFailureIsAStep(step, files, i + 1);
    }
  }

  /** The run goes through the rest of the listing exactly when no step there fails. */
  lemma {:induction false} RunFromCompletesIff(step: string -> RunResult, files: seq<string>, i: nat)
    requires i <= |files|
    ensures RunFrom(step, files, i).status.Completed?
        <==> forall j | i <= j < |files| :: step(files[j]).status.Completed?
    decreases |files| - i
  {
    if i < |files| {
      RunFromCompletesIff(step, files, i + 1);
    }
  }

  /**
   * Every listed file yields exactly one outcome, in listing order, as long
   * as the run does not stop.
   */
  lemma {:induction false} RunFromOutcomes(step: string -> RunResult, files: seq<string>, i: nat)
    requires ReportsItself(step)
    requires i <= |files|
    requires RunFrom(step, files, i).status.Completed?
    ensures Outcomes(RunFrom(step, files, i).trace) == files[i..]
    decreases |files| - i
  {
    if i < |files| {
      var r := step(files[i]);
      var rest := RunFrom(step, files, i + 1);
      RunFromOutcomes(step, files, i + 1);
      OutcomesOfConcat(r.trace, rest.trace);
      assert files[i..] == [files[i]] + files[i + 1..];
    }
  }

  /**
   * Up to the first failing step the run over a listing behaves as the run
   * over the files before it.
   */
  lemma {:induction false} RunFromPrefix(step: string -> RunResult, files: seq<string>, k: nat, i: nat)
    requires i <= k <= |files|
    requires forall j | i <= j < k :: step(files[j]).status.Completed?
    ensures RunFrom(step, files[..k], i).status.Completed?
    ensures RunFrom(step, files, i)
         == RunResult(RunFrom(step, files[..k], i).trace + RunFrom(step, files, k).trace,
                      RunFrom(step, files, k).status)
    decreases k - i
  {
    if i < k {
      RunFromPrefix(step, files, k, i + 1);
      assert files[..k][i] == files[i];
      var r := step(files[i]);
      var mid := RunFrom(step, files[..k], i + 1);
      var tail := RunFrom(step, files, k);
      assert r.trace + (mid.trace + tail.trace) == (r.trace + mid.trace) + tail.trace;
    }
  }

  /** The notebook's loop body reports one outcome for each file it gets past. */
  lemma FileStepReportsItself(cfg: Config, tables: seq<string>, writeOk: string -> bool)
    requires ValidConfig(cfg)
    ensures ReportsItself(StepOf(cfg, tables, writeOk))
  {
    forall path | StepOf(cfg, tables, writeOk)(path).status.Completed?
      ensures Outcomes(StepOf(cfg, tables, writeOk)(path).trace) == [path]
    {
      StepOutcome(cfg, tables, writeOk, path);
    }
  }

  /** A run without a failing write reports one outcome per listed file, in listing order. */
  lemma CompletedRunOutcomes(cfg: Config, tables: seq<string>, writeOk: string -> bool, files: seq<string>)
    requires ValidConfig(cfg)
    requires forall j | 0 <= j < |files| :: FileStep(cfg, tables, writeOk, files[j]).status.Completed?
    ensures Run(cfg, tables, writeOk, files).status == Completed
    ensures Outcomes(Run(cfg, tables, writeOk, files).trace) == files
  {
    var step := StepOf(cfg, tables, writeOk);
    assert forall j | 0 <= j < |files| :: step(files[j]) == FileStep(cfg, tables, writeOk, files[j]);
    RunFromCompletesIff(step, files, 0);
    FileStepReportsItself(cfg, tables, writeOk);
    RunFromOutcomes(step, files, 0);
  }

  /**
   * The first failing write ends the run: it reports the failure, the files
   * before it have been handled exactly as in a run over them alone (one
   * outcome each, appends followed by moves), and no later file is touched.
   */
  lemma FirstFailureStopsRun(
    cfg: Config, tables: seq<string>, writeOk: string -> bool, files: seq<string>, k: nat)
    requires ValidConfig(cfg)
    requires k < |files|
    requires forall j | 0 <= j < k :: FileStep(cfg, tables, writeOk, files[j]).status.Completed?
    requires FileStep(cfg, tables, writeOk, files[k]).status.WriteFailed?
    ensures Run(cfg, tables, writeOk, files).status == FileStep(cfg, tables, writeOk, files[k]).status
    ensures Run(cfg, tables, writeOk, files).trace == Run(cfg, tables, writeOk, files[..k]).trace
    ensures Outcomes(Run(cfg, tables, writeOk, files).trace) == files[..k]
  {
    var step := StepOf(cfg, tables, writeOk);
    assert forall j | 0 <= j <= k :: step(files[j]) == FileStep(cfg, tables, writeOk, files[j]);
    RunFromPrefix(step, files, k, 0);
    var tail := RunFrom(step, files, k);
    assert tail == FileStep(cfg, tables, writeOk, files[k]);
    assert RunFrom(step, files[..k], 0).trace + [] == RunFrom(step, files[..k], 0).trace;
    FileStepReportsItself(cfg, tables, writeOk);
    RunFromOutcomes(step, files[..k], 0);
  }

  // ---------------------------------------------------------------------
  // What each recorded action guarantees

  /** A skip is recorded only for the reason that applies to its path. */
  ghost predicate SkipJustified(tables: seq<string>, path: string, reason: SkipReason) {
    match reason
    case NoTableName => ExtractTableName(path).None?
    case NotInSchema(name) => ExtractTableName(path) == Some(name) && name !in tables
  }

  /**
   * An append goes to the table named after its file, that table is in the
   * listing of the schema, and the file was read with the options for its
   * detected format.
   */
  ghost predicate AppendJustified(cfg: Config, tables: seq<string>, path: string, target: string,
                                  readOptions: map<string, string>) {
    && ExtractTableName(path).Some?
    && ExtractTableName(path).value in tables
    && target == TargetTable(cfg, ExtractTableName(path).value)
    && readOptions == Options(DetectFormat(path), cfg.checkpointPath, ExtractTableName(path).value)
  }

  /**
   * The guarantee of the action at index `i`: a skip is justified; an append
   * is justified and is immediately followed by the move of its file to its
   * archive path; a move immediately follows the append of its file.
   */
  ghost predicate JustifiedAt(cfg: Config, tables: seq<string>, trace: seq<Action>, i: int)
    requires ValidConfig(cfg)
    requires 0 <= i < |trace|
  {
    match trace[i]
    case Skip(path, reason) => SkipJustified(tables, path, reason)
    case Append(path, target, readOptions) =>
      && AppendJustified(cfg, tables, path, target, readOptions)
      && i + 1 < |trace|
      && trace[i + 1] == Move(path, ArchiveTarget(cfg, path))
    case Move(src, _) => 0 < i && trace[i - 1].Append? && trace[i - 1].path == src
  }

  /** Every action of the trace carries its guarantee. */
  ghost predicate Consistent(cfg: Config, tables: seq<string>, trace: seq<Action>)
    requires ValidConfig(cfg)
  {
    forall i | 0 <= i < |trace| :: JustifiedAt(cfg, tables, trace, i)
  }

  /** The guarantees of two consistent traces survive their concatenation. */
  lemma ConsistentConcat(cfg: Config, tables: seq<string>, a: seq<Action>, b: seq<Action>)
    requires ValidConfig(cfg)
    requires Consistent(cfg, tables, a) && Consistent(cfg, tables, b)
    ensures Consistent(cfg, tables, a + b)
  {
    forall i | 0 <= i < |a + b| ensures JustifiedAt(cfg, tables, a + b, i) {
      if i < |a| {
        JustifiedInLeft(cfg, tables, a, b, i);
      } else {
        JustifiedInRight(cfg, tables, a, b, i - |a|);
      }
    }
  }

  /** An action justified within a trace stays justified when more actions follow. */
  lemma JustifiedInLeft(cfg: Config, tables: seq<string>, a: seq<Action>, b: seq<Action>, i: nat)
    requires ValidConfig(cfg)
    requires i < |a| && JustifiedAt(cfg, tables, a, i)
    ensures JustifiedAt(cfg, tables, a + b, i)
  {
    var t := a + b;
    assert t[i] == a[i];
    match a[i]
    case Skip(_, _) =>
    case Append(_, _, _) =>
      assert t[i + 1] == a[i + 1];
    case Move(_, _) =>
      assert t[i - 1] == a[i - 1];
  }

  /** An action justified within a trace stays justified when more actions precede it. */
  lemma JustifiedInRight(cfg: Config, tables: seq<string>, a: seq<Action>, b: seq<Action>, k: nat)
    requires ValidConfig(cfg)
    requires k < |b| && JustifiedAt(cfg, tables, b, k)
    ensures JustifiedAt(cfg, tables, a + b, |a| + k)
  {
    var t := a + b;
    assert t[|a| + k] == b[k];
    match b[k]
    case Skip(_, _) =>
    case Append(_, _, _) =>
      assert t[|a| + k + 1] == b[k + 1];
    case Move(_, _) =>
      assert t[|a| + k - 1] == b[k - 1];
  }

  /** A justified skip on its own is a consistent trace. */
  lemma SkipConsistent(cfg: Config, tables: seq<string>, path: string, reason: SkipReason)
    requires ValidConfig(cfg)
    requires SkipJustified(tables, path, reason)
    ensures Consistent(cfg, tables, [Skip(path, reason)])
  {
    assert JustifiedAt(cfg, tables, [Skip(path, reason)], 0);
  }

  /** A justified append followed by the move of its file is a consistent trace. */
  lemma AppendThenMoveConsistent(cfg: Config, tables: seq<string>, path: string, target: string,
                                 readOptions: map<string, string>)
    requires ValidConfig(cfg)
    requires AppendJustified(cfg, tables, path, target, readOptions)
    ensures Consistent(cfg, tables, [Append(path, target, readOptions), Move(path, ArchiveTarget(cfg, path))])
  {
    var t := [Append(path, target, readOptions), Move(path, ArchiveTarget(cfg, path))];
    assert JustifiedAt(cfg, tables, t, 0);
    assert JustifiedAt(cfg, tables, t, 1);
    forall i | 0 <= i < |t| ensures JustifiedAt(cfg, tables, t, i) {
      assert i == 0 || i == 1;
    }
  }

  /** Whatever the loop body records for one file is consistent. */
  lemma StepConsistent(cfg: Config, tables: seq<string>, writeOk: string -> bool, path: string)
    requires ValidConfig(cfg)
    ensures Consistent(cfg, tables, FileStep(cfg, tables, writeOk, path).trace)
  {
    match ExtractTableName(path)
    case None =>
      SkipConsistent(cfg, tables, path, NoTableName);
    case Some(name) =>
      if name !in tables {
        SkipConsistent(cfg, tables, path, NotInSchema(name));
      } else if writeOk(path) {
        var options := Options(DetectFormat(path), cfg.checkpointPath, name);
        AppendThenMoveConsistent(cfg, tables, path, TargetTable(cfg, name), options);
      }
  }

  /** Every action a run records carries the guarantees of `Consistent`, when every step's do. */
  lemma {:induction false} RunFromConsistent(
    cfg: Config, tables: seq<string>, step: string -> RunResult, files: seq<string>, i: nat)
    requires ValidConfig(cfg)
    requires forall path :: Consistent(cfg, tables, step(path).trace)
    requires i <= |files|
    ensures Consistent(cfg, tables, RunFrom(step, files, i).trace)
    decreases |files| - i
  {
    if i < |files| {
      var r := step(files[i]);
      if r.status.Completed? {
        RunFromConsistent(cfg, tables, step, files, i + 1);
        ConsistentConcat(cfg, tables, r.trace, RunFrom(step, files, i + 1).trace);
      }
    }
  }

  /**
   * A run writes only to tables of the schema's listing, always to the table
   * named after the file, and moves a file only right after its append.
   */
  lemma RunIsConsistent(cfg: Config, tables: seq<string>, writeOk: string -> bool, files: seq<string>)
    requires ValidConfig(cfg)
    ensures Consistent(cfg, tables, Run(cfg, tables, writeOk, files).trace)
  {
    var step := StepOf(cfg, tables, writeOk);
    forall path ensures Consistent(cfg, tables, step(path).trace) {
      StepConsistent(cfg, tables, writeOk, path);
    }
    RunFromConsistent(cfg, tables, step, files, 0);
  }

  /** A file that is skipped is neither appended anywhere nor moved during the run. */
  lemma SkippedFileUntouched(
    cfg: Config, tables: seq<string>, writeOk: string -> bool, files: seq<string>, i: nat, j: nat)
    requires ValidConfig(cfg)
    requires i < |Run(cfg, tables, writeOk, files).trace| && j < |Run(cfg, tables, writeOk, files).trace|
    requires Run(cfg, tables, writeOk, files).trace[i].Skip?
    ensures Run(cfg, tables, writeOk, files).trace[j].Append? ==>
              Run(cfg, tables, writeOk, files).trace[j].path != Run(cfg, tables, writeOk, files).trace[i].path
    ensures Run(cfg, tables, writeOk, files).trace[j].Move? ==>
              Run(cfg, tables, writeOk, files).trace[j].src != Run(cfg, tables, writeOk, files).trace[i].path
  {
    var trace := Run(cfg, tables, writeOk, files).trace;
    RunIsConsistent(cfg, tables, writeOk, files);
    assert JustifiedAt(cfg, tables, trace, i);
    assert JustifiedAt(cfg, tables, trace, j);
    if trace[j].Move? {
      assert JustifiedAt(cfg, tables, trace, j - 1);
    }
  }

  // ---------------------------------------------------------------------
  // A worked run

  /** A listing of one file is handled by that file's step alone. */
  lemma RunOfOneFile(cfg: Config, tables: seq<string>, writeOk: string -> bool, path: string)
    requires ValidConfig(cfg)
    ensures Run(cfg, tables, writeOk, [path]) == FileStep(cfg, tables, writeOk, path)
  {
    var step := StepOf(cfg, tables, writeOk);
    assert RunFrom(step, [path], 1) == RunResult([], Completed);
    assert step(path).trace + [] == step(path).trace;
  }

  /**
   * One CSV file whose table exists: it is appended to
   * `entity_resolution_dev.bronze.edm_entity1` with the CSV options and then
   * moved to the same name directly under the archive zone.
   */
  lemma ExampleRun(writeOk: string -> bool)
    requires writeOk("s3://your-bucket/landing-zone/edm_entity1.csv")
    ensures
      var path := "s3://your-bucket/landing-zone/edm_entity1.csv";
      Run(NotebookConfig, ["edm_entity1"], writeOk, [path])
      == RunResult(
           [ Append(path, "entity_resolution_dev.bronze.edm_entity1",
                    Options("csv", "/tmp/autoloader/checkpoints", "edm_entity1")),
             Move(path, "s3://your-bucket/archive-zone/edm_entity1.csv") ],
           Completed)
  {
    var path := "s3://your-bucket/landing-zone/edm_entity1.csv";
    ExampleFileStep(writeOk);
    RunOfOneFile(NotebookConfig, ["edm_entity1"], writeOk, path);
  }

  /** The notebook's handling of that one file, as `ExampleRun` states it for the whole run. */
  lemma ExampleFileStep(writeOk: string -> bool)
    requires writeOk("s3://your-bucket/landing-zone/edm_entity1.csv")
    ensures
      var path := "s3://your-bucket/landing-zone/edm_entity1.csv";
      FileStep(NotebookConfig, ["edm_entity1"], writeOk, path)
      == RunResult(
           [ Append(path, "entity_resolution_dev.bronze.edm_entity1",
                    Options("csv", "/tmp/autoloader/checkpoints", "edm_entity1")),
             Move(path, "s3://your-bucket/archive-zone/edm_entity1.csv") ],
           Completed)
  {
    ExampleFileFacts();
  }

  /** What the notebook derives from that one file's path: table, format and archive path. */
  lemma ExampleFileFacts()
    ensures
      var path := "s3://your-bucket/landing-zone/edm_entity1.csv";
      && ExtractTableName(path) == Some("edm_entity1")
      && TargetTable(NotebookConfig, "edm_entity1") == "entity_resolution_dev.bronze.edm_entity1"
      && DetectFormat(path) == "csv"
      && ArchiveTarget(NotebookConfig, path) == "s3://your-bucket/archive-zone/edm_entity1.csv"
  {
    var path := "s3://your-bucket/landing-zone/edm_entity1.csv";
    assert TargetTable(NotebookConfig, "edm_entity1") == "entity_resolution_dev.bronze.edm_entity1";
    assert path == "s3://your-bucket/landing-zone/edm_entity1" + "." + "csv";
    assert Lower("csv") == "csv";
    DetectFormatOfExtension("s3://your-bucket/landing-zone/edm_entity1", "csv");
    PlainFileName();
    ArchiveOfExampleFile();
  }
}
