/**
 * The export pipeline (get_parameterstore_to_csv.py, ParameterExporter): for each
 * parameter spec, list the matching parameters page by page into a name-keyed
 * dictionary, fetch each one's value, strip the server-managed fields and write it
 * as one CSV row under a fixed 13-column header.
 */
module Exporter {
  import opened Records

  /** The CSV columns, in order. */
  const FIELDNAMES: seq<string> := ["Name", "Type", "KeyId", "LastModifiedDate", "LastModifiedUser",
                                    "Description", "Value", "AllowedPattern", "Tier", "Version",
                                    "Labels", "Policies", "DataType"]

  const FIELDSET: set<string> := set f | f in FIELDNAMES

  // ---------------------------------------------------------------- listing

  datatype FilterKey = NameKey | PathKey
  datatype FilterOption = Equals | OneLevel | Recursive

  /** The one ParameterFilters entry passed to describe_parameters. */
  datatype ParameterFilter = ParameterFilter(key: FilterKey, option: FilterOption, values: seq<string>)

  /**
   * A Path filter when either flag is set, Recursive taking precedence over OneLevel;
   * otherwise a Name filter that must equal the spec.
   */
  function FilterFor(arg: string, recursive: bool, oneLevel: bool): (f: ParameterFilter)
    ensures f.values == [arg]
    ensures f.key == PathKey <==> recursive || oneLevel
    ensures f.option == Recursive <==> recursive
    ensures f.option == OneLevel <==> oneLevel && !recursive
    ensures f.option == Equals <==> f.key == NameKey
  {
    if recursive || oneLevel then
      ParameterFilter(PathKey, if recursive then Recursive else OneLevel, [arg])
    else
      ParameterFilter(NameKey, Equals, [arg])
  }

  /** An exception a remote call raises: a ClientError with its message, or anything else. */
  datatype Thrown = ClientError(message: string) | OtherException

  /**
   * What the describe_parameters paginator yields for one filter: the pages it
   * delivers, then, if `failure` is set, the exception it raises for the next page.
   */
  datatype Listing = Listing(pages: seq<seq<Record>>, failure: Option<Thrown>)

  /** What get_parameter gives: the parameter's Value, a ClientError, or another exception. */
  datatype Fetched = Value(value: string) | Failed(message: string) | Raised

  /** The remote store, as the exporter uses it. */
  datatype Remote = Remote(describe: ParameterFilter -> Listing, get: (Cell, bool) -> Fetched)

  datatype ExportOptions = ExportOptions(recursive: bool, oneLevel: bool, withDecryption: bool)

  // ------------------------------------------------- the name-keyed dictionary

  /** One key of the result dictionary and the record stored under it. */
  datatype Entry = Entry(name: Cell, record: Record)

  /** The keys of a dictionary, in iteration (first insertion) order. */
  function DictKeys(d: seq<Entry>): seq<Cell> {
    if d == [] then [] else [d[0].name] + DictKeys(d[1..])
  }

  /**
   * `d[name] = r` on a Python dict: an existing key keeps its position and gets the
   * new value; a new key goes at the end.
   */
  function Upsert(d: seq<Entry>, name: Cell, r: Record): seq<Entry> {
    if d == [] then [Entry(name, r)]
    else if d[0].name == name then [Entry(d[0].name, r)] + d[1..]
    else [d[0]] + Upsert(d[1..], name, r)
  }

  predicate AllNamed(s: seq<Record>) {
    forall j :: 0 <= j < |s| ==> "Name" in s[j]
  }

  /** The parameters of all pages, in the order the paginator delivers them. */
  function Flatten(pages: seq<seq<Record>>): seq<Record> {
    if pages == [] then [] else Flatten(pages[..|pages| - 1]) + pages[|pages| - 1]
  }

  /** `result[parameter["Name"]] = parameter` for each parameter in turn. */
  function Merge(s: seq<Record>): seq<Entry>
    requires AllNamed(s)
  {
    if s == [] then [] else Upsert(Merge(s[..|s| - 1]), s[|s| - 1]["Name"], s[|s| - 1])
  }

  // ---------------------------------------------------------- loading a spec

  /** The outcome of load_source_parameters for one spec. */
  datatype LoadResult =
    | Loaded(entries: seq<Entry>)
    | NotFound                  // nothing matched: the ERROR line and sys.exit(1)
    | NameMissing               // KeyError: a listed parameter without a "Name"
    | ListFailed(error: Thrown)  // the paginator raised an exception

  function NotFoundLine(arg: string): string { "ERROR: " + arg + " not found.\n" }

  function Load(arg: string, recursive: bool, oneLevel: bool, describe: ParameterFilter -> Listing): (l: LoadResult)
    ensures l.Loaded? ==> l.entries != []
    ensures l.NotFound? ==> describe(FilterFor(arg, recursive, oneLevel)).failure.None?
  {
    var listing := describe(FilterFor(arg, recursive, oneLevel));
    var seen := Flatten(listing.pages);
    if !AllNamed(seen) then NameMissing
    else if listing.failure.Some? then ListFailed(listing.failure.value)
    else if Merge(seen) == [] then NotFound
    else Loaded(Merge(seen))
  }

  lemma MergeSnoc(s: seq<Record>, r: Record)
    requires AllNamed(s) && "Name" in r
    ensures AllNamed(s + [r])
    ensures Merge(s + [r]) == Upsert(Merge(s), r["Name"], r)
  {
  }

  /** Merging parameter j of a page after the ones before it. */
  lemma MergeNext(seen: seq<Record>, page: seq<Record>, j: nat)
    requires j < |page| && "Name" in page[j] && AllNamed(seen + page[..j])
    ensures AllNamed(seen + page[..j + 1])
    ensures Merge(seen + page[..j + 1]) == Upsert(Merge(seen + page[..j]), page[j]["Name"], page[j])
  {
    assert page[..j + 1] == page[..j] + [page[j]];
    AppendAssoc(seen, page[..j], [page[j]]);
    MergeSnoc(seen + page[..j], page[j]);
  }

  lemma FlattenStep(pages: seq<seq<Record>>, i: nat)
    requires i < |pages|
    ensures Flatten(pages[..i + 1]) == Flatten(pages[..i]) + pages[i]
  {
    assert pages[..i + 1][..i] == pages[..i];
  }

  /** A page of parameters merged into the dictionary one at a time, as long as each has a Name. */
  method MergePage(merged: seq<Entry>, ghost seen: seq<Record>, page: seq<Record>)
    returns (ok: bool, merged': seq<Entry>)
    requires AllNamed(seen) && merged == Merge(seen)
    ensures ok <==> AllNamed(page)
    ensures ok ==> AllNamed(seen + page) && merged' == Merge(seen + page)
  {
    merged' := merged;
    var j := 0;
    assert seen + page[..j] == seen;
    while j < |page|
      invariant 0 <= j <= |page|
      invariant AllNamed(seen + page[..j]) && merged' == Merge(seen + page[..j])
      invariant forall k :: 0 <= k < j ==> "Name" in page[k]
    {
      var parameter := page[j];
      if "Name" !in parameter {
        return false, merged';
      }
      MergeNext(seen, page, j);
      merged' := Upsert(merged', parameter["Name"], parameter);
      j := j + 1;
    }
    assert page[..j] == page;
    ok := true;
  }

  /**
   * load_source_parameters: builds the filter, walks every page and every parameter
   * on it into the result dictionary, and reports a spec that matched nothing.
   */
  method LoadSourceParameters(arg: string, recursive: bool, oneLevel: bool, describe: ParameterFilter -> Listing)
    returns (result: LoadResult, err: seq<string>)
    ensures result == Load(arg, recursive, oneLevel, describe)
    ensures err == if result.NotFound? then [NotFoundLine(arg)] else []
  {
    var listing := describe(FilterFor(arg, recursive, oneLevel));
    var merged: seq<Entry> := [];
    ghost var seen: seq<Record> := [];
    var i := 0;
    while i < |listing.pages|
      invariant 0 <= i <= |listing.pages|
      invariant seen == Flatten(listing.pages[..i])
      invariant AllNamed(seen) && merged == Merge(seen)
    {
      var ok;
      ok, merged := MergePage(merged, seen, listing.pages[i]);
      if !ok {
        FlattenNamed(listing.pages, i);
        return NameMissing, [];
      }
      FlattenStep(listing.pages, i);
      seen := seen + listing.pages[i];
      i := i + 1;
    }
    assert listing.pages[..i] == listing.pages;
    if listing.failure.Some? {
      return ListFailed(listing.failure.value), [];
    }
    if |merged| == 0 {
      return NotFound, [NotFoundLine(arg)];
    }
    return Loaded(merged), [];
  }

  /** A page holding a parameter without a Name leaves one in the flattened listing. */
  lemma {:induction false} FlattenNamed(pages: seq<seq<Record>>, i: nat)
    requires i < |pages| && !AllNamed(pages[i])
    ensures !AllNamed(Flatten(pages))
  {
    var n := |pages| - 1;
    assert Flatten(pages) == Flatten(pages[..n]) + pages[n];
    if i == n {
      var j :| 0 <= j < |pages[n]| && "Name" !in pages[n][j];
      assert Flatten(pages)[|Flatten(pages[..n])| + j] == pages[n][j];
    } else {
      assert pages[..n][i] == pages[i];
      FlattenNamed(pages[..n], i);
      var k :| 0 <= k < |Flatten(pages[..n])| && "Name" !in Flatten(pages[..n])[k];
      assert Flatten(pages)[k] == Flatten(pages[..n])[k];
    }
  }

  // ------------------------------------------------------------ writing rows

  /** The fields export normalisation may remove. */
  const STRIPPED: set<string> := METADATA + {"Policies"}

  /**
   * The export normalisation: drops the three metadata fields and an empty Policies,
   * and leaves everything else as it is.
   */
  function ExportRecord(p: Record): (r: Record)
    ensures r.Keys <= p.Keys
  {
    WithoutIfFalsy(Without(Without(Without(p, "LastModifiedDate"), "LastModifiedUser"), "Version"), "Policies")
  }

  /** The metadata is gone; Policies is dropped exactly when it is present and empty, and otherwise kept as is. */
  lemma ExportRecordFields(p: Record)
    ensures var r := ExportRecord(p);
            "LastModifiedDate" !in r && "LastModifiedUser" !in r && "Version" !in r &&
            ("Policies" in r <==> "Policies" in p && !Falsy(p["Policies"])) &&
            ("Policies" in r ==> r["Policies"] == p["Policies"])
  {
  }

  /** Every field the normalisation does not manage is left unchanged. */
  lemma ExportRecordPassThrough(p: Record)
    ensures forall k :: k !in STRIPPED ==> SameField(ExportRecord(p), p, k)
  {
  }

  /** Normalising an already normalised record changes nothing. */
  lemma ExportRecordIdempotent(p: Record)
    ensures ExportRecord(ExportRecord(p)) == ExportRecord(p)
  {
  }

  /** A CSV line: the header, or the cells csv.DictWriter writes for one record. */
  datatype CsvRow = HeaderRow(names: seq<string>) | DataRow(cells: seq<Cell>)

  /** writer.writerow(r): the record's value under each column, Missing (an empty cell) where it has none. */
  function Project(r: Record): (cells: seq<Cell>)
    ensures |cells| == |FIELDNAMES|
  {
    seq(|FIELDNAMES|, k requires 0 <= k < |FIELDNAMES| => if FIELDNAMES[k] in r then r[FIELDNAMES[k]] else Missing)
  }

  /** How an export run ends. */
  datatype ExportStatus =
    | Done
    | NotFoundExit(arg: nat)        // sys.exit(1) after spec args[arg] matched nothing
    | ClientFailure(message: string) // a ClientError escapes export (main reports it and exits 1)
    | Uncaught                      // KeyError, csv.DictWriter's ValueError or another exception: nothing catches it

  /** How an exception escaping export ends the run: main catches a ClientError only. */
  function Escaped(e: Thrown): ExportStatus {
    match e
    case ClientError(msg) => ClientFailure(msg)
    case OtherException => Uncaught
  }

  /** The data rows and error lines a stretch of the run produces, and how it ends. */
  datatype Part = Part(rows: seq<CsvRow>, err: seq<string>, status: ExportStatus)

  /** The whole run: the CSV file's lines, the lines written to stderr, and the end. */
  datatype ExportResult = ExportResult(file: seq<CsvRow>, err: seq<string>, status: ExportStatus)

  /** Runs `a` and, if it did not stop, `b` after it. */
  function ThenPart(a: Part, b: Part): Part {
    if a.status == Done then Part(a.rows + b.rows, a.err + b.err, b.status) else a
  }

  lemma ThenPartAssoc(a: Part, b: Part, c: Part)
    ensures ThenPart(ThenPart(a, b), c) == ThenPart(a, ThenPart(b, c))
  {
  }

  /** The record with its fetched value merged in and the export normalisation applied. */
  function Exported(e: Entry, value: string): Record {
    ExportRecord(e.record["Value" := Str(value)])
  }

  /** One parameter: fetch its value, normalise it, write it. */
  function EntryStep(e: Entry, opts: ExportOptions, remote: Remote): (p: Part)
    ensures p.err == [] && |p.rows| <= 1
    ensures p.status == Done || p.status.ClientFailure? || p.status == Uncaught
    ensures p.status.ClientFailure? <==> remote.get(e.name, opts.withDecryption).Failed?
  {
    match remote.get(e.name, opts.withDecryption)
    case Failed(msg) => Part([], [], ClientFailure(msg))
    case Raised => Part([], [], Uncaught)
    case Value(v) =>
      var record := Exported(e, v);
      if record.Keys <= FIELDSET then Part([DataRow(Project(record))], [], Done)
      else Part([], [], Uncaught)
  }

  /** The parameters of one spec from the j-th on, in dictionary order. */
  function EntriesFrom(es: seq<Entry>, j: nat, opts: ExportOptions, remote: Remote): (p: Part)
    ensures p.err == [] && !p.status.NotFoundExit?
    decreases |es| - j
  {
    if j >= |es| then Part([], [], Done)
    else ThenPart(EntryStep(es[j], opts, remote), EntriesFrom(es, j + 1, opts, remote))
  }

  /** One spec, args[i]: load it, then export each of its parameters. */
  function ArgStep(args: seq<string>, i: nat, opts: ExportOptions, remote: Remote): (p: Part)
    requires i < |args|
    ensures p.status.NotFoundExit? ==> p.status.arg == i && p.rows == []
    ensures p.err != [] <==> p.status.NotFoundExit?
  {
    match Load(args[i], opts.recursive, opts.oneLevel, remote.describe)
    case NotFound => Part([], [NotFoundLine(args[i])], NotFoundExit(i))
    case NameMissing => Part([], [], Uncaught)
    case ListFailed(e) => Part([], [], Escaped(e))
    case Loaded(es) => EntriesFrom(es, 0, opts, remote)
  }

  /** The specs from the i-th on. */
  function ArgsFrom(args: seq<string>, i: nat, opts: ExportOptions, remote: Remote): (p: Part)
    decreases |args| - i
  {
    if i >= |args| then Part([], [], Done)
    else ThenPart(ArgStep(args, i, opts, remote), ArgsFrom(args, i + 1, opts, remote))
  }

  /** export(args, ...): the header, then whatever the specs produce. */
  function ExportRun(args: seq<string>, opts: ExportOptions, remote: Remote): (r: ExportResult)
    ensures |r.file| >= 1 && r.file[0] == HeaderRow(FIELDNAMES)
    ensures args == [] ==> r == ExportResult([HeaderRow(FIELDNAMES)], [], Done)
  {
    var p := ArgsFrom(args, 0, opts, remote);
    ExportResult([HeaderRow(FIELDNAMES)] + p.rows, p.err, p.status)
  }

  /** The process exit status of an export run. */
  function ExportExitCode(s: ExportStatus): (code: int)
    ensures code == 0 <==> s == Done
    ensures code == 0 || code == 1
  {
    if s == Done then 0 else 1
  }

  /** The metadata drops on the parameter dictionary, one field at a time. */
  method NormalizeExported(row: Record) returns (parameter: Record)
    ensures parameter == ExportRecord(row)
  {
    parameter := DropField(row, "LastModifiedDate");
    parameter := DropField(parameter, "LastModifiedUser");
    parameter := DropField(parameter, "Version");
    parameter := DropFieldIfEmpty(parameter, "Policies");
  }

  /** The body of the inner loop of export, for one name of the dictionary. */
  method ExportEntry(e: Entry, opts: ExportOptions, remote: Remote) returns (rows: seq<CsvRow>, status: ExportStatus)
    ensures Part(rows, [], status) == EntryStep(e, opts, remote)
  {
    rows, status := [], Done;
    var value := remote.get(e.name, opts.withDecryption);
    if value.Failed? {
      status := ClientFailure(value.message);
      return;
    }
    if value.Raised? {
      status := Uncaught;
      return;
    }
    var parameter := e.record;
    parameter := parameter["Value" := Str(value.value)];
    parameter := NormalizeExported(parameter);
    if !(parameter.Keys <= FIELDSET) {
      status := Uncaught;
      return;
    }
    rows := [DataRow(Project(parameter))];
  }

  /** One iteration of the outer loop of export: load the spec args[i] and export what it matched. */
  method ExportArg(args: seq<string>, i: nat, opts: ExportOptions, remote: Remote)
    returns (rows: seq<CsvRow>, err: seq<string>, status: ExportStatus)
    requires i < |args|
    ensures Part(rows, err, status) == ArgStep(args, i, opts, remote)
  {
    var loaded;
    loaded, err := LoadSourceParameters(args[i], opts.recursive, opts.oneLevel, remote.describe);
    rows := [];
    match loaded {
      case NotFound => status := NotFoundExit(i);
      case NameMissing => status := Uncaught;
      case ListFailed(e) => status := Escaped(e);
      case Loaded(parameters) =>
        status := Done;
        var j := 0;
        while j < |parameters| && status == Done
          invariant 0 <= j <= |parameters|
          invariant ThenPart(Part(rows, [], status), EntriesFrom(parameters, j, opts, remote)) ==
                    EntriesFrom(parameters, 0, opts, remote)
        {
          var written, next := ExportEntry(parameters[j], opts, remote);
          ThenPartAssoc(Part(rows, [], status), Part(written, [], next), EntriesFrom(parameters, j + 1, opts, remote));
          rows, status := rows + written, next;
          j := j + 1;
        }
    }
  }

  /**
   * export: opens the file and writes the header, then each spec in turn, stopping
   * at the first spec that matches nothing or the first exception.
   */
  method Export(args: seq<string>, opts: ExportOptions, remote: Remote)
    returns (file: seq<CsvRow>, err: seq<string>, status: ExportStatus)
    ensures ExportResult(file, err, status) == ExportRun(args, opts, remote)
  {
    file := [HeaderRow(FIELDNAMES)];
    err, status := [], Done;
    ghost var data: seq<CsvRow> := [];
    var i := 0;
    while i < |args| && status == Done
      invariant 0 <= i <= |args|
      invariant file == [HeaderRow(FIELDNAMES)] + data
      invariant ThenPart(Part(data, err, status), ArgsFrom(args, i, opts, remote)) == ArgsFrom(args, 0, opts, remote)
    {
      var rows, lines, next := ExportArg(args, i, opts, remote);
      ThenPartAssoc(Part(data, err, status), Part(rows, lines, next), ArgsFrom(args, i + 1, opts, remote));
      AppendAssoc([HeaderRow(FIELDNAMES)], data, rows);
      file, data, err, status := file + rows, data + rows, err + lines, next;
      i := i + 1;
    }
    assert ArgsFrom(args, 0, opts, remote) == Part(data, err, status) by {
      if status == Done {
        assert data + [] == data && err + [] == err;
      }
    }
  }
}
