/**
 * The import pipeline (set_parameterstore_from_csv.py, ParameterImporter.import_params):
 * each CSV row is normalised in place and submitted to the parameter store one at a
 * time, and each outcome is classified into a message and a decision to go on or stop.
 */
module Importer {
  import opened Records

  /** The settings import_params reads: the instance's dry_run flag and its own arguments. */
  datatype Options = Options(
    dryRun: bool,
    overwrite: bool,
    keepGoing: bool,
    keyId: Option<string>,
    clearKmsKey: bool)

  /** What one put_parameter call does, as the caller sees it. */
  datatype PutOutcome =
    | Success
    | AlreadyExists            // ParameterAlreadyExists, a ClientError subclass
    | ApiError(message: string) // any other ClientError; message is response["Error"]["Message"]
    | Raised                   // an exception that is not a ClientError: nothing catches it

  /** One observable effect of the run, in the order it happens. */
  datatype Event =
    | Out(line: string)               // sys.stdout.write
    | Err(line: string)               // sys.stderr.write
    | Put(row: nat, request: Record)  // put_parameter(**request) for CSV row `row`

  /** How the run ends. */
  datatype Status =
    | Completed           // the loop ran off the end of the file
    | Exited(row: nat)    // exit(1) while handling row `row`
    | NameMissing(row: nat) // KeyError: row `row` has no "Name" column
    | Uncaught(row: nat)  // put_parameter for row `row` raised something that is not a ClientError

  datatype Run = Run(trace: seq<Event>, status: Status)

  /** The process exit status: an exit(1) and an uncaught exception both give 1. */
  function ExitCode(s: Status): (code: int)
    ensures code == 0 <==> s == Completed
    ensures code == 0 || code == 1
  {
    if s == Completed then 0 else 1
  }

  /** Runs `a` and, if it did not stop, `b` after it. */
  function Then(a: Run, b: Run): Run {
    if a.status == Completed then Run(a.trace + b.trace, b.status) else a
  }

  lemma ThenAssoc(a: Run, b: Run, c: Run)
    ensures Then(Then(a, b), c) == Then(a, Then(b, c))
  {
  }

  // The messages, character for character.
  function DryRunLine(name: string): string { "DRY-RUN: importing " + name + " \n" }
  function InfoLine(name: string): string { "INFO: import " + name + " \n" }
  function ExistsLine(name: string): string {
    "ERROR: failed to import " + name + " as it already exists: specify --overwrite or --keep-going\n"
  }
  function WarnLine(name: string): string { "WARN: skipping import " + name + " already exists\n" }
  function ErrorLine(name: string, msg: string): string {
    "ERROR: failed to import " + name + " , " + msg + "\n"
  }

  /** The fields the normalisation may touch; every other column passes through. */
  const MANAGED: set<string> := METADATA + {"KeyId", "Policies", "Overwrite"}

  /**
   * The request sent for one CSV row: the three independent KeyId steps (override,
   * clear, drop if empty), the metadata drop, the Policies drop if empty, and
   * Overwrite set, in the order the source applies them.
   */
  function ImportRecord(row: Record, overwrite: bool, keyId: Option<string>, clearKmsKey: bool): (r: Record)
    ensures r.Keys <= row.Keys + {"Overwrite"}
  {
    var keyed := WithoutIfFalsy(ClearKeyId(OverrideKeyId(row, keyId), clearKmsKey), "KeyId");
    var stripped := Without(Without(Without(keyed, "LastModifiedDate"), "LastModifiedUser"), "Version");
    WithoutIfFalsy(stripped, "Policies")["Overwrite" := Bool(overwrite)]
  }

  /** The request never carries the server-managed metadata, and always carries Overwrite. */
  lemma ImportRecordMetadata(row: Record, overwrite: bool, keyId: Option<string>, clearKmsKey: bool)
    ensures var p := ImportRecord(row, overwrite, keyId, clearKmsKey);
            "LastModifiedDate" !in p && "LastModifiedUser" !in p && "Version" !in p &&
            "Overwrite" in p && p["Overwrite"] == Bool(overwrite)
  {
  }

  /** Policies is dropped exactly when it is present and empty; otherwise it is kept as is. */
  lemma ImportRecordPolicies(row: Record, overwrite: bool, keyId: Option<string>, clearKmsKey: bool)
    ensures var p := ImportRecord(row, overwrite, keyId, clearKmsKey);
            ("Policies" in p <==> "Policies" in row && !Falsy(row["Policies"])) &&
            ("Policies" in p ==> p["Policies"] == row["Policies"])
  {
  }

  /**
   * The KeyId rule: clearing wins; else an override replaces a present KeyId (and an
   * empty override removes it); else an empty KeyId is removed and a non-empty one kept.
   */
  lemma ImportRecordKeyId(row: Record, overwrite: bool, keyId: Option<string>, clearKmsKey: bool)
    ensures var p := ImportRecord(row, overwrite, keyId, clearKmsKey);
            (clearKmsKey ==> "KeyId" !in p) &&
            (!clearKmsKey && keyId.Some? && "KeyId" in row ==>
               if keyId.value == "" then "KeyId" !in p else "KeyId" in p && p["KeyId"] == Str(keyId.value)) &&
            (!clearKmsKey && (keyId.None? || "KeyId" !in row) ==> SameField(p, WithoutIfFalsy(row, "KeyId"), "KeyId"))
  {
  }

  /** Every column the normalisation does not manage reaches the request unchanged. */
  lemma ImportRecordPassThrough(row: Record, overwrite: bool, keyId: Option<string>, clearKmsKey: bool)
    ensures var p := ImportRecord(row, overwrite, keyId, clearKmsKey);
            forall k :: k !in MANAGED ==> SameField(p, row, k)
  {
  }

  /** The KeyId override: applies only when the row has a KeyId column. */
  function OverrideKeyId(row: Record, keyId: Option<string>): Record {
    if "KeyId" in row && keyId.Some? then row["KeyId" := Str(keyId.value)] else row
  }

  /** The KeyId clear, independent of the override before it. */
  function ClearKeyId(row: Record, clearKmsKey: bool): Record {
    if "KeyId" in row && clearKmsKey then Without(row, "KeyId") else row
  }

  /** The events and verdict of one row, which has index i. Completed means "go on". */
  function RowStep(rows: seq<Record>, i: nat, opts: Options, put: (nat, Record) -> PutOutcome): (r: Run)
    requires i < |rows|
    ensures r.status.NameMissing? <==> "Name" !in rows[i]
    ensures r.status != Completed ==> r.status.row == i
    ensures opts.dryRun ==> r.status == Completed || r.status.NameMissing?
    ensures r.status.Exited? ==> !opts.keepGoing
  {
    var row := rows[i];
    if "Name" !in row then Run([], NameMissing(i))
    else
      var name := Render(row["Name"]);
      if opts.dryRun then Run([Out(DryRunLine(name))], Completed)
      else
        var request := ImportRecord(row, opts.overwrite, opts.keyId, opts.clearKmsKey);
        Then(Run([Put(i, request)], Completed), Reported(name, i, put(i, request), opts.keepGoing))
  }

  /** What follows a put_parameter call, given its outcome. */
  function Reported(name: string, i: nat, outcome: PutOutcome, keepGoing: bool): (r: Run)
    ensures |r.trace| == 1 <==> !outcome.Raised?
    ensures |r.trace| <= 1
    ensures r.status == Completed || r.status == Exited(i) || r.status == Uncaught(i)
    ensures r.status == Uncaught(i) <==> outcome.Raised?
    ensures r.status == Exited(i) ==> !keepGoing
  {
    match outcome
    case Success => Run([Out(InfoLine(name))], Completed)
    case AlreadyExists =>
      if keepGoing then Run([Err(WarnLine(name))], Completed)
      else Run([Err(ExistsLine(name))], Exited(i))
    case ApiError(msg) => Run([Err(ErrorLine(name, msg))], if keepGoing then Completed else Exited(i))
    case Raised => Run([], Uncaught(i))
  }

  /** The run from row i to the end of the file. */
  function ImportFrom(rows: seq<Record>, i: nat, opts: Options, put: (nat, Record) -> PutOutcome): (r: Run)
    decreases |rows| - i
  {
    if i >= |rows| then Run([], Completed)
    else Then(RowStep(rows, i, opts, put), ImportFrom(rows, i + 1, opts, put))
  }

  /** The whole import of a file whose rows, as csv.DictReader yields them, are `rows`. */
  function Import(rows: seq<Record>, opts: Options, put: (nat, Record) -> PutOutcome): (r: Run)
    ensures rows == [] ==> r == Run([], Completed)
    ensures rows != [] && "Name" !in rows[0] ==> r == Run([], NameMissing(0))
    ensures rows != [] && "Name" in rows[0] && !opts.dryRun ==>
              r.trace != [] && r.trace[0] == Put(0, ImportRecord(rows[0], opts.overwrite, opts.keyId, opts.clearKmsKey))
  {
    ImportFrom(rows, 0, opts, put)
  }

  /**
   * The body of the try block up to the call: deletes and overwrites fields of the
   * row dictionary one at a time, in the source's order.
   */
  method NormalizeRequest(row: Record, opts: Options) returns (parameter: Record)
    ensures parameter == ImportRecord(row, opts.overwrite, opts.keyId, opts.clearKmsKey)
  {
    parameter := row;
    if "KeyId" in parameter && opts.keyId.Some? {
      parameter := parameter["KeyId" := Str(opts.keyId.value)];
    }
    if "KeyId" in parameter && opts.clearKmsKey {
      parameter := parameter - {"KeyId"};
    }
    assert parameter == ClearKeyId(OverrideKeyId(row, opts.keyId), opts.clearKmsKey);
    parameter := DropFieldIfEmpty(parameter, "KeyId");
    parameter := DropField(parameter, "LastModifiedDate");
    parameter := DropField(parameter, "LastModifiedUser");
    parameter := DropField(parameter, "Version");
    parameter := DropFieldIfEmpty(parameter, "Policies");
    parameter := parameter["Overwrite" := Bool(opts.overwrite)];
  }

  /** One iteration of the row loop: the events it produces and whether the run goes on. */
  method ImportRow(rows: seq<Record>, i: nat, opts: Options, put: (nat, Record) -> PutOutcome)
    returns (events: seq<Event>, status: Status)
    requires i < |rows|
    ensures Run(events, status) == RowStep(rows, i, opts, put)
  {
    events, status := [], Completed;
    if "Name" !in rows[i] {
      status := NameMissing(i);
      return;
    }
    var name := Render(rows[i]["Name"]);
    if opts.dryRun {
      events := [Out(DryRunLine(name))];
      return;
    }
    var parameter := NormalizeRequest(rows[i], opts);
    var outcome := put(i, parameter);
    events := [Put(i, parameter)];
    match outcome {
      case Success =>
        events := events + [Out(InfoLine(name))];
      case AlreadyExists =>
        if !opts.keepGoing {
          events := events + [Err(ExistsLine(name))];
          status := Exited(i);
        } else {
          events := events + [Err(WarnLine(name))];
        }
      case ApiError(msg) =>
        events := events + [Err(ErrorLine(name, msg))];
        if !opts.keepGoing {
          status := Exited(i);
        }
      case Raised =>
        status := Uncaught(i);
    }
  }

  /**
   * import_params: reads the rows in file order and handles each in turn, stopping
   * at the first exit(1) or uncaught exception.
   */
  method ImportParams(rows: seq<Record>, opts: Options, put: (nat, Record) -> PutOutcome)
    returns (trace: seq<Event>, status: Status)
    ensures Run(trace, status) == Import(rows, opts, put)
  {
    trace, status := [], Completed;
    var i := 0;
    while i < |rows| && status == Completed
      invariant 0 <= i <= |rows|
      invariant Then(Run(trace, status), ImportFrom(rows, i, opts, put)) == Import(rows, opts, put)
    {
      var events, next := ImportRow(rows, i, opts, put);
      ThenAssoc(Run(trace, status), Run(events, next), ImportFrom(rows, i + 1, opts, put));
      trace, status := trace + events, next;
      i := i + 1;
    }
  }
}
