/**
 * What an import run does, stated over the whole file: which rows are submitted and
 * in what order, what is written after each submission, and why a run stops.
 */
module ImportProperties {
  import opened Records
  import opened Importer

  /** The CSV row indices of the put_parameter calls in a trace, in call order. */
  function Submitted(trace: seq<Event>): seq<nat> {
    if trace == [] then []
    else (if trace[0].Put? then [trace[0].row] else []) + Submitted(trace[1..])
  }

  lemma {:induction false} SubmittedAppend(a: seq<Event>, b: seq<Event>)
    ensures Submitted(a + b) == Submitted(a) + Submitted(b)
  {
    if a == [] {
      assert a + b == b;
    } else {
      var head := if a[0].Put? then [a[0].row] else [];
      assert (a + b)[0] == a[0];
      assert (a + b)[1..] == a[1..] + b;
      assert Submitted(a + b) == head + Submitted(a[1..] + b);
      assert Submitted(a) == head + Submitted(a[1..]);
      SubmittedAppend(a[1..], b);
    }
  }

  /** Runs ss[i], ss[i + 1], ... one after another, each only if the one before completed. */
  function RunChain(ss: seq<Run>, i: nat): Run
    decreases |ss| - i
  {
    if i >= |ss| then Run([], Completed) else Then(ss[i], RunChain(ss, i + 1))
  }

  /** The step of each row, as the loop would take it on reaching that row. */
  function RowSteps(rows: seq<Record>, opts: Options, put: (nat, Record) -> PutOutcome): seq<Run> {
    seq(|rows|, j requires 0 <= j < |rows| => RowStep(rows, j, opts, put))
  }

  /** The run from row i on is the chain of the rows' steps. */
  lemma {:induction false} ImportChain(rows: seq<Record>, i: nat, opts: Options, put: (nat, Record) -> PutOutcome)
    requires i <= |rows|
    ensures ImportFrom(rows, i, opts, put) == RunChain(RowSteps(rows, opts, put), i)
    decreases |rows| - i
  {
    if i == |rows| {
      assert ImportFrom(rows, i, opts, put) == Run([], Completed);
    } else {
      assert RowSteps(rows, opts, put)[i] == RowStep(rows, i, opts, put);
      ImportChain(rows, i + 1, opts, put);
    }
  }

  /** How many rows a (non-dry) run submitted before ending with status s. */
  function Reached(s: Status, rowCount: nat): nat {
    match s
    case Completed => rowCount
    case Exited(i) => i + 1
    case NameMissing(i) => i
    case Uncaught(i) => i + 1
  }

  /** The row a stopped run stopped at lies in [lo, hi). */
  predicate StopsWithin(s: Status, lo: nat, hi: nat) {
    match s
    case Completed => true
    case Exited(i) => lo <= i < hi
    case NameMissing(i) => lo <= i < hi
    case Uncaught(i) => lo <= i < hi
  }

  /** Row i is handled without stopping the run. */
  predicate GoesOn(rows: seq<Record>, i: nat, opts: Options, put: (nat, Record) -> PutOutcome)
    requires i < |rows|
  {
    "Name" in rows[i] &&
    (opts.dryRun ||
      match put(i, ImportRecord(rows[i], opts.overwrite, opts.keyId, opts.clearKmsKey))
      case Success => true
      case AlreadyExists => opts.keepGoing
      case ApiError(_) => opts.keepGoing
      case Raised => false)
  }

  /** One row: what it submits, and whether and where it stops the run. */
  lemma RowStepFacts(rows: seq<Record>, i: nat, opts: Options, put: (nat, Record) -> PutOutcome)
    requires i < |rows|
    ensures Submitted(RowStep(rows, i, opts, put).trace) == if "Name" in rows[i] && !opts.dryRun then [i] else []
    ensures RowStep(rows, i, opts, put).status == Completed <==> GoesOn(rows, i, opts, put)
    ensures StopsWithin(RowStep(rows, i, opts, put).status, i, i + 1)
    ensures RowStep(rows, i, opts, put).status != Completed ==>
              Reached(RowStep(rows, i, opts, put).status, 0) == i + |Submitted(RowStep(rows, i, opts, put).trace)|
  {
    var step := RowStep(rows, i, opts, put);
    if "Name" in rows[i] {
      var name := Render(rows[i]["Name"]);
      if opts.dryRun {
        assert step.trace == [Out(DryRunLine(name))];
        assert Submitted(step.trace) == [] + Submitted([]);
      } else {
        var request := ImportRecord(rows[i], opts.overwrite, opts.keyId, opts.clearKmsKey);
        var report := Reported(name, i, put(i, request), opts.keepGoing);
        assert step.trace == [Put(i, request)] + report.trace;
        SubmittedAppend([Put(i, request)], report.trace);
        assert Submitted([Put(i, request)]) == [i] + Submitted([]);
        assert Submitted(report.trace) == [] by {
          if report.trace != [] {
            assert report.trace[1..] == [];
          }
        }
      }
    }
  }

  lemma {:induction false} SubmissionsFrom(rows: seq<Record>, i: nat, opts: Options, put: (nat, Record) -> PutOutcome)
    requires i <= |rows|
    ensures StopsWithin(ImportFrom(rows, i, opts, put).status, i, |rows|)
    ensures opts.dryRun ==> Submitted(ImportFrom(rows, i, opts, put).trace) == []
    ensures !opts.dryRun ==>
              Submitted(ImportFrom(rows, i, opts, put).trace) == Range(i, Reached(ImportFrom(rows, i, opts, put).status, |rows|))
    decreases |rows| - i
  {
    if i < |rows| {
      var step := RowStep(rows, i, opts, put);
      var rest := ImportFrom(rows, i + 1, opts, put);
      assert ImportFrom(rows, i, opts, put) == Then(step, rest);
      RowStepFacts(rows, i, opts, put);
      SubmissionsFrom(rows, i + 1, opts, put);
      SubmittedAppend(step.trace, rest.trace);
    } else {
      assert Submitted([]) == [];
    }
  }

  /**
   * Rows are submitted strictly in file order with no row skipped: a dry run submits
   * nothing, and otherwise the rows submitted are exactly 0, 1, ... up to the row the
   * run stopped at (included unless the row had no Name) or, if it did not stop, all of them.
   * The row it stopped at is the first one that does not go on.
   */
  lemma ImportSubmissions(rows: seq<Record>, opts: Options, put: (nat, Record) -> PutOutcome)
    ensures opts.dryRun ==> Submitted(Import(rows, opts, put).trace) == []
    ensures !opts.dryRun ==>
              Submitted(Import(rows, opts, put).trace) == Range(0, Reached(Import(rows, opts, put).status, |rows|))
    ensures StopsWithin(Import(rows, opts, put).status, 0, |rows|)
    ensures StopsAtFirst(rows, 0, opts, put, Import(rows, opts, put).status)
  {
    SubmissionsFrom(rows, 0, opts, put);
    StopsAtFirstFrom(rows, 0, opts, put);
  }

  lemma {:induction false} CompletesFrom(rows: seq<Record>, i: nat, opts: Options, put: (nat, Record) -> PutOutcome)
    requires i <= |rows|
    ensures ImportFrom(rows, i, opts, put).status == Completed <==>
              forall j :: i <= j < |rows| ==> GoesOn(rows, j, opts, put)
    decreases |rows| - i
  {
    if i < |rows| {
      assert ImportFrom(rows, i, opts, put) == Then(RowStep(rows, i, opts, put), ImportFrom(rows, i + 1, opts, put));
      CompletesFrom(rows, i + 1, opts, put);
      RowStepFacts(rows, i, opts, put);
    }
  }

  /**
   * A run ends normally (exit status 0) exactly when every row has a Name and, unless
   * it is a dry run, every submission succeeds or fails in a way keep_going forgives.
   */
  lemma ImportCompletes(rows: seq<Record>, opts: Options, put: (nat, Record) -> PutOutcome)
    ensures ExitCode(Import(rows, opts, put).status) == 0 <==>
              forall j :: 0 <= j < |rows| ==> GoesOn(rows, j, opts, put)
  {
    CompletesFrom(rows, 0, opts, put);
  }

  /**
   * Every put_parameter call in a trace is made for a row of the file that has a Name,
   * outside a dry run, with that row normalised as the request.
   */
  ghost predicate RequestsNormalised(rows: seq<Record>, opts: Options, trace: seq<Event>) {
    forall t :: 0 <= t < |trace| && trace[t].Put? ==>
      trace[t].row < |rows| && "Name" in rows[trace[t].row] && !opts.dryRun &&
      trace[t].request == ImportRecord(rows[trace[t].row], opts.overwrite, opts.keyId, opts.clearKmsKey)
  }

  lemma NormalisedAppend(rows: seq<Record>, opts: Options, a: seq<Event>, b: seq<Event>)
    requires RequestsNormalised(rows, opts, a) && RequestsNormalised(rows, opts, b)
    ensures RequestsNormalised(rows, opts, a + b)
  {
  }

  lemma StepNormalised(rows: seq<Record>, i: nat, opts: Options, put: (nat, Record) -> PutOutcome)
    requires i < |rows|
    ensures RequestsNormalised(rows, opts, RowStep(rows, i, opts, put).trace)
  {
  }

  /** A chain of runs, each normalised, is normalised. */
  lemma {:induction false} NormalisedChain(rows: seq<Record>, opts: Options, ss: seq<Run>, i: nat)
    requires forall j :: i <= j < |ss| ==> RequestsNormalised(rows, opts, ss[j].trace)
    ensures RequestsNormalised(rows, opts, RunChain(ss, i).trace)
    decreases |ss| - i
  {
    if i < |ss| {
      NormalisedChain(rows, opts, ss, i + 1);
      if ss[i].status == Completed {
        NormalisedAppend(rows, opts, ss[i].trace, RunChain(ss, i + 1).trace);
      }
    }
  }

  lemma NormalisedFrom(rows: seq<Record>, i: nat, opts: Options, put: (nat, Record) -> PutOutcome)
    requires i <= |rows|
    ensures RequestsNormalised(rows, opts, ImportFrom(rows, i, opts, put).trace)
  {
    var ss := RowSteps(rows, opts, put);
    ImportChain(rows, i, opts, put);
    forall j | i <= j < |ss|
      ensures RequestsNormalised(rows, opts, ss[j].trace)
    {
      StepNormalised(rows, j, opts, put);
    }
    NormalisedChain(rows, opts, ss, i);
  }

  /** Every request sent is the normalised form of its own row. */
  lemma ImportNormalised(rows: seq<Record>, opts: Options, put: (nat, Record) -> PutOutcome)
    ensures RequestsNormalised(rows, opts, Import(rows, opts, put).trace)
  {
    NormalisedFrom(rows, 0, opts, put);
  }

  /**
   * What follows the put_parameter call at position t of a trace: the INFO, WARN or
   * ERROR line its outcome calls for, or nothing at all when it raised an exception
   * nothing catches.
   */
  ghost predicate ReportedAfter(rows: seq<Record>, opts: Options, put: (nat, Record) -> PutOutcome,
                                run: Run, t: nat)
    requires t < |run.trace| && run.trace[t].Put?
  {
    var i := run.trace[t].row;
    i < |rows| && "Name" in rows[i] &&
    var name := Render(rows[i]["Name"]);
    match put(i, run.trace[t].request)
    case Success => t + 1 < |run.trace| && run.trace[t + 1] == Out(InfoLine(name))
    case AlreadyExists =>
      t + 1 < |run.trace| && run.trace[t + 1] == Err(if opts.keepGoing then WarnLine(name) else ExistsLine(name))
    case ApiError(msg) => t + 1 < |run.trace| && run.trace[t + 1] == Err(ErrorLine(name, msg))
    case Raised => t + 1 == |run.trace| && run.status == Uncaught(i)
  }

  ghost predicate AllReported(rows: seq<Record>, opts: Options, put: (nat, Record) -> PutOutcome, run: Run) {
    forall t :: 0 <= t < |run.trace| && run.trace[t].Put? ==> ReportedAfter(rows, opts, put, run, t)
  }

  /** The one row's part of AllReported: its only call is followed by its report. */
  lemma StepReported(rows: seq<Record>, i: nat, opts: Options, put: (nat, Record) -> PutOutcome, rest: Run)
    requires i < |rows|
    ensures var run := Then(RowStep(rows, i, opts, put), rest);
            forall t :: 0 <= t < |RowStep(rows, i, opts, put).trace| && run.trace[t].Put? ==>
              ReportedAfter(rows, opts, put, run, t)
  {
    var step := RowStep(rows, i, opts, put);
    var run := Then(step, rest);
    if "Name" in rows[i] && !opts.dryRun {
      var name := Render(rows[i]["Name"]);
      var request := ImportRecord(rows[i], opts.overwrite, opts.keyId, opts.clearKmsKey);
      var report := Reported(name, i, put(i, request), opts.keepGoing);
      assert step == Then(Run([Put(i, request)], Completed), report);
      assert run.trace[0] == Put(i, request);
      forall t | 0 <= t < |step.trace| && run.trace[t].Put?
        ensures ReportedAfter(rows, opts, put, run, t)
      {
        assert t == 0;
      }
    }
  }

  /** Reports later in the file stay reports when an earlier row's events come first. */
  lemma ShiftReported(rows: seq<Record>, opts: Options, put: (nat, Record) -> PutOutcome, step: Run, rest: Run)
    requires step.status == Completed
    requires AllReported(rows, opts, put, rest)
    ensures var run := Then(step, rest);
            forall t :: |step.trace| <= t < |run.trace| && run.trace[t].Put? ==> ReportedAfter(rows, opts, put, run, t)
  {
  }

  lemma {:induction false} ReportedFrom(rows: seq<Record>, i: nat, opts: Options, put: (nat, Record) -> PutOutcome)
    requires i <= |rows|
    ensures AllReported(rows, opts, put, ImportFrom(rows, i, opts, put))
    decreases |rows| - i
  {
    if i < |rows| {
      var step := RowStep(rows, i, opts, put);
      var rest := ImportFrom(rows, i + 1, opts, put);
      assert ImportFrom(rows, i, opts, put) == Then(step, rest);
      ReportedFrom(rows, i + 1, opts, put);
      StepReported(rows, i, opts, put, rest);
      if step.status == Completed {
        ShiftReported(rows, opts, put, step, rest);
      }
    }
  }

  /** Every event that is not a put_parameter call comes right after one: its report, and nothing else. */
  ghost predicate OnlyReports(trace: seq<Event>) {
    forall t :: 0 <= t < |trace| && !trace[t].Put? ==> t > 0 && trace[t - 1].Put?
  }

  lemma OnlyReportsAppend(a: seq<Event>, b: seq<Event>)
    requires OnlyReports(a) && OnlyReports(b)
    ensures OnlyReports(a + b)
  {
    forall t | |a| <= t < |a + b| && !(a + b)[t].Put?
      ensures t > 0 && (a + b)[t - 1].Put?
    {
      assert (a + b)[t] == b[t - |a|];
      assert t - |a| > 0;
      assert (a + b)[t - 1] == b[t - 1 - |a|];
    }
  }

  /** Outside a dry run a row writes nothing but its call and the call's report. */
  lemma StepOnlyReports(rows: seq<Record>, i: nat, opts: Options, put: (nat, Record) -> PutOutcome)
    requires i < |rows| && !opts.dryRun
    ensures OnlyReports(RowStep(rows, i, opts, put).trace)
  {
    if "Name" in rows[i] {
      var name := Render(rows[i]["Name"]);
      var request := ImportRecord(rows[i], opts.overwrite, opts.keyId, opts.clearKmsKey);
      var report := Reported(name, i, put(i, request), opts.keepGoing);
      assert RowStep(rows, i, opts, put).trace == [Put(i, request)] + report.trace;
    }
  }

  /** A chain of runs, each writing only calls and their reports, writes only those. */
  lemma {:induction false} OnlyReportsChain(ss: seq<Run>, i: nat)
    requires forall j :: i <= j < |ss| ==> OnlyReports(ss[j].trace)
    ensures OnlyReports(RunChain(ss, i).trace)
    decreases |ss| - i
  {
    if i < |ss| {
      OnlyReportsChain(ss, i + 1);
      if ss[i].status == Completed {
        OnlyReportsAppend(ss[i].trace, RunChain(ss, i + 1).trace);
      }
    }
  }

  lemma OnlyReportsFrom(rows: seq<Record>, i: nat, opts: Options, put: (nat, Record) -> PutOutcome)
    requires i <= |rows| && !opts.dryRun
    ensures OnlyReports(ImportFrom(rows, i, opts, put).trace)
  {
    var ss := RowSteps(rows, opts, put);
    ImportChain(rows, i, opts, put);
    forall j | i <= j < |ss|
      ensures OnlyReports(ss[j].trace)
    {
      StepOnlyReports(rows, j, opts, put);
    }
    OnlyReportsChain(ss, i);
  }

  /**
   * Every submission in a run is followed by the message its outcome calls for, and,
   * outside a dry run, the run writes nothing else.
   */
  lemma ImportReported(rows: seq<Record>, opts: Options, put: (nat, Record) -> PutOutcome)
    ensures AllReported(rows, opts, put, Import(rows, opts, put))
    ensures !opts.dryRun ==> OnlyReports(Import(rows, opts, put).trace)
  {
    ReportedFrom(rows, 0, opts, put);
    if !opts.dryRun {
      OnlyReportsFrom(rows, 0, opts, put);
    }
  }

  /** Why a run that stopped early stopped, and what it wrote last. */
  ghost predicate StopExplained(rows: seq<Record>, opts: Options, put: (nat, Record) -> PutOutcome, run: Run) {
    match run.status
    case Completed => true
    case NameMissing(i) => i < |rows| && "Name" !in rows[i]
    case Uncaught(i) =>
      |run.trace| >= 1 && run.trace[|run.trace| - 1].Put? && run.trace[|run.trace| - 1].row == i &&
      put(i, run.trace[|run.trace| - 1].request) == Raised
    case Exited(i) =>
      i < |rows| && "Name" in rows[i] && !opts.keepGoing && |run.trace| >= 2 &&
      run.trace[|run.trace| - 2].Put? && run.trace[|run.trace| - 2].row == i &&
      var name := Render(rows[i]["Name"]);
      match put(i, run.trace[|run.trace| - 2].request)
      case AlreadyExists => run.trace[|run.trace| - 1] == Err(ExistsLine(name))
      case ApiError(msg) => run.trace[|run.trace| - 1] == Err(ErrorLine(name, msg))
      case _ => false
  }

  /** A row that stops the run explains its own stop. */
  lemma StepStops(rows: seq<Record>, i: nat, opts: Options, put: (nat, Record) -> PutOutcome)
    requires i < |rows|
    ensures StopExplained(rows, opts, put, RowStep(rows, i, opts, put))
  {
  }

  /** A stop later in the file keeps its explanation when earlier rows' events come first. */
  lemma ShiftStops(rows: seq<Record>, opts: Options, put: (nat, Record) -> PutOutcome, step: Run, rest: Run)
    requires step.status == Completed
    requires StopExplained(rows, opts, put, rest)
    ensures StopExplained(rows, opts, put, Then(step, rest))
  {
  }

  lemma {:induction false} StopsFrom(rows: seq<Record>, i: nat, opts: Options, put: (nat, Record) -> PutOutcome)
    requires i <= |rows|
    ensures StopExplained(rows, opts, put, ImportFrom(rows, i, opts, put))
    decreases |rows| - i
  {
    if i < |rows| {
      var step := RowStep(rows, i, opts, put);
      var rest := ImportFrom(rows, i + 1, opts, put);
      assert ImportFrom(rows, i, opts, put) == Then(step, rest);
      if step.status == Completed {
        StopsFrom(rows, i + 1, opts, put);
        ShiftStops(rows, opts, put, step, rest);
      } else {
        StepStops(rows, i, opts, put);
      }
    }
  }

  /**
   * exit(1) happens only with keep_going off, right after the ERROR line for the row
   * whose submission failed; a KeyError happens only at a row without a Name column;
   * an uncaught exception only right after the submission that raised it. The row it
   * stops at is the first one that does not go on.
   */
  lemma ImportStops(rows: seq<Record>, opts: Options, put: (nat, Record) -> PutOutcome)
    ensures StopExplained(rows, opts, put, Import(rows, opts, put))
    ensures opts.keepGoing ==> !Import(rows, opts, put).status.Exited?
    ensures StopsAtFirst(rows, 0, opts, put, Import(rows, opts, put).status)
  {
    StopsFrom(rows, 0, opts, put);
    StopsAtFirstFrom(rows, 0, opts, put);
  }

  /** The row a stopped run stopped at. */
  function StopRow(s: Status): nat
    requires s != Completed
  {
    match s
    case Exited(i) => i
    case NameMissing(i) => i
    case Uncaught(i) => i
  }

  /** Status s stops at the first row from i on that does not go on. */
  predicate StopsAtFirst(rows: seq<Record>, i: nat, opts: Options, put: (nat, Record) -> PutOutcome, s: Status) {
    s != Completed ==>
      i <= StopRow(s) < |rows| && !GoesOn(rows, StopRow(s), opts, put) &&
      forall j :: i <= j < StopRow(s) ==> GoesOn(rows, j, opts, put)
  }

  /** A stop after row i, which went on, is still the first stop counted from row i. */
  lemma ShiftStopsAtFirst(rows: seq<Record>, i: nat, opts: Options, put: (nat, Record) -> PutOutcome, s: Status)
    requires i < |rows| && GoesOn(rows, i, opts, put)
    requires StopsAtFirst(rows, i + 1, opts, put, s)
    ensures StopsAtFirst(rows, i, opts, put, s)
  {
  }

  lemma {:induction false} StopsAtFirstFrom(rows: seq<Record>, i: nat, opts: Options, put: (nat, Record) -> PutOutcome)
    requires i <= |rows|
    ensures StopsAtFirst(rows, i, opts, put, ImportFrom(rows, i, opts, put).status)
    decreases |rows| - i
  {
    if i < |rows| {
      var step := RowStep(rows, i, opts, put);
      var rest := ImportFrom(rows, i + 1, opts, put);
      assert ImportFrom(rows, i, opts, put) == Then(step, rest);
      RowStepFacts(rows, i, opts, put);
      if step.status == Completed {
        StopsAtFirstFrom(rows, i + 1, opts, put);
        ShiftStopsAtFirst(rows, i, opts, put, rest.status);
      }
    }
  }

  /**
   * A run that stops does so at the first row that has no Name or whose submission
   * fails in a way keep_going does not forgive; every earlier row went on.
   */
  lemma ImportStopsAtFirst(rows: seq<Record>, opts: Options, put: (nat, Record) -> PutOutcome)
    ensures var s := Import(rows, opts, put).status;
            s != Completed ==>
              StopRow(s) < |rows| && !GoesOn(rows, StopRow(s), opts, put) &&
              forall j :: 0 <= j < StopRow(s) ==> GoesOn(rows, j, opts, put)
  {
    StopsAtFirstFrom(rows, 0, opts, put);
  }

  /** From row i on, a dry run writes the DRY-RUN line of each row in turn. */
  ghost predicate DryRunLines(rows: seq<Record>, i: nat, run: Run) {
    (run.status == Completed || run.status.NameMissing?) &&
    i + |run.trace| == Reached(run.status, |rows|) && i + |run.trace| <= |rows| &&
    forall j :: i <= j < i + |run.trace| ==>
      "Name" in rows[j] && run.trace[j - i] == Out(DryRunLine(Render(rows[j]["Name"])))
  }

  /** A row with a Name, written as its DRY-RUN line, extends the lines of the rows after it. */
  lemma DryRunCons(rows: seq<Record>, i: nat, step: Run, rest: Run)
    requires i < |rows| && "Name" in rows[i]
    requires step == Run([Out(DryRunLine(Render(rows[i]["Name"])))], Completed)
    requires DryRunLines(rows, i + 1, rest)
    ensures DryRunLines(rows, i, Then(step, rest))
  {
    var run := Then(step, rest);
    assert run.trace == step.trace + rest.trace;
    forall j | i < j < i + |run.trace|
      ensures "Name" in rows[j] && run.trace[j - i] == Out(DryRunLine(Render(rows[j]["Name"])))
    {
      assert run.trace[j - i] == rest.trace[j - (i + 1)];
    }
  }

  lemma {:induction false} DryRunFrom(rows: seq<Record>, i: nat, opts: Options, put: (nat, Record) -> PutOutcome)
    requires i <= |rows| && opts.dryRun
    ensures DryRunLines(rows, i, ImportFrom(rows, i, opts, put))
    decreases |rows| - i
  {
    if i < |rows| {
      var step := RowStep(rows, i, opts, put);
      var rest := ImportFrom(rows, i + 1, opts, put);
      assert ImportFrom(rows, i, opts, put) == Then(step, rest);
      DryRunFrom(rows, i + 1, opts, put);
      if step.status == Completed {
        DryRunCons(rows, i, step, rest);
      }
    }
  }

  /**
   * A dry run writes one DRY-RUN line per row, in file order, and nothing else; it can
   * only be cut short by a row without a Name column.
   */
  lemma ImportDryRun(rows: seq<Record>, opts: Options, put: (nat, Record) -> PutOutcome)
    requires opts.dryRun
    ensures DryRunLines(rows, 0, Import(rows, opts, put))
  {
    DryRunFrom(rows, 0, opts, put);
  }
}
