# Parameter store CSV export and import, modelled in Dafny

Two command-line tools copy AWS Systems Manager parameters through a CSV file:

- `get_parameterstore_to_csv.py` (`ParameterExporter`) lists the parameters matching each
  spec on the command line, fetches each value, strips the server-managed fields and
  writes one row per parameter under a fixed 13-column header.
- `set_parameterstore_from_csv.py` (`ParameterImporter`) reads such a file row by row,
  normalises each row into a `put_parameter` request and submits it. Each outcome is
  reported on stdout or stderr, and the run stops or goes on according to `keep_going`.

This project models the core of both tools:

- the record normalisations;
- the filter choice;
- the page merge into a Python dict;
- the row loops, with their messages, early exits and exit status.

It proves what these promise.

Layout:

- `records.dfy` (module `Records`): the values in a parameter record. A `Cell` is a Python
  value: `None`, a string, a bool, or any other value given by its `str()` and its truth
  value. Also here: Python's `not v`, and the in-place `del` steps as methods.
- `importer.dfy` (module `Importer`):
  - `ImportRecord` is the import normalisation.
  - `RowStep`, `ImportFrom` and `Import` are the reference definition of a run: the events
    in order (stdout lines, stderr lines, `put_parameter` calls) and how it ends.
  - `ImportParams` is the loop, proved equal to `Import`.
- `import_properties.dfy` (module `ImportProperties`): what a whole import run does. It
  covers which rows are submitted and in what order, what follows each submission, when
  the run exits 0, why it stops, and dry runs.
- `exporter.dfy` (module `Exporter`):
  - `FilterFor`, the dict as a key-unique sequence (`Upsert`, `Merge`), `Load`,
    `ExportRecord`, and the reference run `ArgsFrom`/`ExportRun`.
  - The methods `LoadSourceParameters` and `Export`, proved equal to `Load` and `ExportRun`.
- `export_properties.dfy` (module `ExportProperties`): the merged dict against an
  independent reading of the listing (last record per Name, first-seen order), and the
  CSV file against the listed parameters (header first, one normalised row each, in
  order). It also covers when the run stops and what it writes to stderr.

Remote calls are parameters of the operations:

- `put_parameter` is a function from (row index, request) to an outcome: success,
  `ParameterAlreadyExists`, another `ClientError` with its message, or an exception that
  is not a `ClientError`.
- The `describe_parameters` paginator is a function from the filter to the pages it
  delivers, plus an optional exception that ends the listing: a `ClientError` with its
  message, or another exception.
- `get_parameter` is a function from (name, with-decryption flag) to the value, a
  `ClientError` with its message, or another exception.

A `ClientError` is what the service returns for a request it refuses, its own parameter
validation included. botocore's client-side `ParamValidationError` and connection errors
are not `ClientError`s. Nothing in `export` or `main` catches those, so they end the run
uncaught (`Escaped` in `exporter.dfy`).

Writes to stdout and stderr, `exit(1)` and uncaught exceptions become a returned trace
and a status. The exit code is 0 exactly for a run that ran to the end.

Behaviours taken from the code:

- The importer reads `parameter["Name"]` before it checks for a dry run. A row without
  a `Name` column therefore ends the run with a `KeyError`, in dry runs too.
- `csv.DictWriter` uses its default `extrasaction='raise'`. A parameter holding a field
  outside the 13 columns therefore ends the export with a `ValueError` (status
  `Uncaught`).
- The export file is opened and its header written before the first spec is loaded. A
  spec k that matches nothing therefore leaves a file with the header and the rows of
  specs 0 to k - 1, and nothing of the specs after it.
- A listed parameter without a `Name` raises a `KeyError` as it is met. That takes
  precedence over a `ClientError` the paginator would raise for a later page.

## Model

| member | source | states |
|---|---|---|
| Records.DropField | set_parameterstore_from_csv.py:56-57 | `if k in parameter: del parameter[k]` leaves the record without k and otherwise unchanged |
| Records.DropFieldIfEmpty | set_parameterstore_from_csv.py:62-65 | the field is deleted exactly when it is present and Python-falsy |
| Importer.ExitCode | set_parameterstore_from_csv.py:69-85 | the exit status is 0 exactly when the run completed, and 1 after `exit(1)` or an uncaught exception |
| Importer.ImportRecord | set_parameterstore_from_csv.py:49-66 | the request for a row holds no column the row lacks except Overwrite: the normalisation overwrites and deletes columns and adds only Overwrite |
| Importer.RowStep | set_parameterstore_from_csv.py:43-85 | one row stops the run with a KeyError iff it has no Name column; any stop it causes names this row; in a dry run the only stop is a missing Name; exit(1) happens only with keep_going off |
| Importer.Reported | set_parameterstore_from_csv.py:67-85 | after a call exactly one line is written unless an exception that is not a ClientError escapes, and that ends the run uncaught at this row; otherwise the run goes on or exits at this row, and exits only with keep_going off |
| Importer.Import | set_parameterstore_from_csv.py:41-85 | an empty file completes with no effect; a first row without Name stops the run at once with a KeyError and no output; outside a dry run a named first row's normalised request is the first thing the run does |
| Importer.ImportRecordMetadata | set_parameterstore_from_csv.py:56-66 | the request never carries LastModifiedDate, LastModifiedUser or Version, and carries Overwrite equal to the `overwrite` argument |
| Importer.ImportRecordPolicies | set_parameterstore_from_csv.py:62-65 | Policies is in the request iff it is present and truthy in the row, and is then kept unchanged |
| Importer.ImportRecordKeyId | set_parameterstore_from_csv.py:49-55 | with clear_kms_key KeyId is absent. Otherwise a given key_id replaces a present KeyId, and an empty key_id removes it. Otherwise an empty KeyId is removed and a non-empty one kept |
| Importer.ImportRecordPassThrough | set_parameterstore_from_csv.py:44-67 | every column other than KeyId, the metadata, Policies and Overwrite reaches the request unchanged, present or absent |
| Importer.NormalizeRequest | set_parameterstore_from_csv.py:49-66 | the in-place deletions and assignments, in source order, yield exactly `ImportRecord` of the row |
| Importer.ImportRow | set_parameterstore_from_csv.py:43-85 | one loop iteration produces exactly the events and verdict of `RowStep` for that row |
| Importer.ImportParams | set_parameterstore_from_csv.py:32-85 | the row loop with its early exits produces exactly the trace and status of `Import` |
| ImportProperties.RowStepFacts | set_parameterstore_from_csv.py:43-85 | one row submits itself once (none in a dry run or without Name), and lets the run go on iff `GoesOn` |
| ImportProperties.SubmissionsFrom | set_parameterstore_from_csv.py:43-67 | from row i on, the rows submitted are i, i+1, … up to where the run stopped, in order |
| ImportProperties.ImportSubmissions | set_parameterstore_from_csv.py:43-67 | a dry run submits nothing. Otherwise rows 0, 1, … are submitted in file order with none skipped, up to the row the run stopped at or all of them. That row is the first row that does not go on: it has no Name, or its call raised a non-ClientError exception, or failed with keep_going off |
| ImportProperties.CompletesFrom | set_parameterstore_from_csv.py:43-85 | the run from row i completes iff every row from i on goes on |
| ImportProperties.ImportCompletes | set_parameterstore_from_csv.py:43-85 | exit status 0 iff every row has a Name and, unless dry, every put succeeds or fails in a way keep_going forgives |
| ImportProperties.StepNormalised | set_parameterstore_from_csv.py:48-67 | the one request a row sends is that row normalised, and only outside a dry run |
| ImportProperties.ImportChain | set_parameterstore_from_csv.py:43-85 | the row loop from row i on is the chain of the rows' steps, each taken only if every earlier one completed |
| ImportProperties.NormalisedChain | set_parameterstore_from_csv.py:43-67 | a chain of steps whose requests are each normalised sends only normalised requests |
| ImportProperties.NormalisedFrom | set_parameterstore_from_csv.py:43-67 | every request sent from row i on is its own row normalised |
| ImportProperties.ImportNormalised | set_parameterstore_from_csv.py:43-67 | every `put_parameter` call of a run is made for a named row outside a dry run, with `ImportRecord` of that row as its request |
| ImportProperties.StepReported | set_parameterstore_from_csv.py:67-85 | a row's call is followed by the INFO, WARN or ERROR line its outcome calls for |
| ImportProperties.ShiftReported | set_parameterstore_from_csv.py:43-85 | later rows' calls keep their reports when earlier rows' events precede them |
| ImportProperties.ReportedFrom | set_parameterstore_from_csv.py:43-85 | from row i on, every call is followed by its report |
| ImportProperties.ImportReported | set_parameterstore_from_csv.py:67-85 | every call is followed by its report: INFO on success, WARN (keep_going) or the already-exists ERROR on AlreadyExists, and the ERROR line with the message on another ClientError. After a non-ClientError exception nothing follows and the run ends uncaught. Outside a dry run nothing else is written: every event that is not a call directly follows a call |
| ImportProperties.OnlyReportsAppend | set_parameterstore_from_csv.py:43-85 | two traces in which every non-call event directly follows a call still have that property when joined |
| ImportProperties.StepOnlyReports | set_parameterstore_from_csv.py:43-85 | outside a dry run a row writes nothing but its call and the line right after it |
| ImportProperties.OnlyReportsChain | set_parameterstore_from_csv.py:43-85 | a chain of steps that each write only calls and their reports writes only those |
| ImportProperties.OnlyReportsFrom | set_parameterstore_from_csv.py:43-85 | outside a dry run, from row i on, every event that is not a call directly follows a call |
| ImportProperties.StepStops | set_parameterstore_from_csv.py:44-85 | a row that stops the run explains its stop |
| ImportProperties.ShiftStops | set_parameterstore_from_csv.py:43-85 | a later stop keeps its explanation behind earlier rows' events |
| ImportProperties.StopsFrom | set_parameterstore_from_csv.py:43-85 | from row i on, the run's stop is explained |
| ImportProperties.ImportStops | set_parameterstore_from_csv.py:43-85 | `exit(1)` happens only with keep_going off, right after that row's call and its ERROR line. A KeyError happens only at a row without Name. An uncaught exception comes right after the call that raised it. With keep_going there is no `exit(1)`. The row a run stops at is the first row that does not go on, and every earlier row went on |
| ImportProperties.ShiftStopsAtFirst | set_parameterstore_from_csv.py:43-85 | a row that goes on keeps a later stop the first stop when it is put in front |
| ImportProperties.StopsAtFirstFrom | set_parameterstore_from_csv.py:43-85 | from row i on, a run that stops stops at the first row that does not go on, a row of the file |
| ImportProperties.ImportStopsAtFirst | set_parameterstore_from_csv.py:43-85 | a run that stops, by `exit(1)`, a KeyError or an uncaught exception, stops at row r, where r is the first row of the file that does not go on; every row before r goes on |
| ImportProperties.DryRunCons | set_parameterstore_from_csv.py:45-46 | a row's DRY-RUN line followed by the later rows' lines gives the lines from that row on |
| ImportProperties.DryRunFrom | set_parameterstore_from_csv.py:45-46 | from row i on, a dry run writes each row's DRY-RUN line in turn |
| ImportProperties.ImportDryRun | set_parameterstore_from_csv.py:45-46 | a dry run writes exactly one `DRY-RUN: importing <name>` line per row in file order and nothing else. It stops only at a row without Name |
| Exporter.FilterFor | get_parameterstore_to_csv.py:36-44 | a Path filter iff recursive or one_level, with Recursive taking precedence; otherwise Name/Equals; the values are always `[arg]` |
| Exporter.Load | get_parameterstore_to_csv.py:32-53 | a loaded spec never has an empty dictionary, and not-found is reported only when the listing ended without an exception |
| Exporter.MergePage | get_parameterstore_to_csv.py:47-48 | merging one page one parameter at a time extends the dict as `Merge` of everything seen, and fails iff some parameter has no Name |
| Exporter.FlattenNamed | get_parameterstore_to_csv.py:46-48 | a page with an unnamed parameter leaves one in the whole listing |
| Exporter.LoadSourceParameters | get_parameterstore_to_csv.py:32-53 | the nested page loops give exactly `Load`, and the not-found ERROR line is written exactly when nothing matched |
| Exporter.ExportRecordFields | get_parameterstore_to_csv.py:75-84 | after export normalisation the metadata is absent; Policies is in the result iff it is present and truthy in the input, and is then kept unchanged |
| Exporter.ExportRecordPassThrough | get_parameterstore_to_csv.py:75-84 | every other field is unchanged |
| Exporter.ExportRecordIdempotent | get_parameterstore_to_csv.py:75-84 | normalising an already normalised record changes nothing |
| Exporter.ExportExitCode | get_parameterstore_to_csv.py:50-52 | the exit status is 0 exactly when the run is done |
| Exporter.ExportRecord | get_parameterstore_to_csv.py:75-84 | the export normalisation only removes fields |
| Exporter.EntryStep | get_parameterstore_to_csv.py:70-86 | one parameter writes at most one row and nothing to stderr; it goes on, escapes with a ClientError exactly when get_parameter raised one, or ends uncaught, and never stops as not found |
| Exporter.EntriesFrom | get_parameterstore_to_csv.py:70-86 | the parameters of one spec write nothing to stderr and never stop the run as not found |
| Exporter.ArgStep | get_parameterstore_to_csv.py:68-86 | a spec stops the run as not found only under its own index and with no rows, and writes to stderr exactly when it does |
| Exporter.ExportRun | get_parameterstore_to_csv.py:64-86 | the file's first line is the header; with no specs the file is the header alone, stderr is empty and the run is done |
| Exporter.NormalizeExported | get_parameterstore_to_csv.py:75-84 | the in-place deletions yield exactly `ExportRecord` |
| Exporter.ExportEntry | get_parameterstore_to_csv.py:70-86 | one inner iteration writes exactly the row of `EntryStep`, or stops as it does |
| Exporter.ExportArg | get_parameterstore_to_csv.py:68-86 | one outer iteration produces exactly `ArgStep` of that spec |
| Exporter.Export | get_parameterstore_to_csv.py:55-86 | the header and then the loops over specs and names produce exactly the file, stderr lines and status of `ExportRun` |
| ExportProperties.FirstSeenFacts | get_parameterstore_to_csv.py:46-48 | the first-seen order of the Names has no duplicates and holds exactly the Names listed |
| ExportProperties.UpsertKeys | get_parameterstore_to_csv.py:48 | a dict assignment keeps an existing key in place and appends a new one |
| ExportProperties.UpsertLookup | get_parameterstore_to_csv.py:48 | after `d[n] = r`, looking up n gives r and every other key is unchanged |
| ExportProperties.UpsertNamed | get_parameterstore_to_csv.py:48 | storing a record under its own Name keeps every record filed under its Name |
| ExportProperties.MergeKeys | get_parameterstore_to_csv.py:46-48 | the keys of the merged dict are the listed Names in first-seen order |
| ExportProperties.MergeLookup | get_parameterstore_to_csv.py:46-48 | each Name maps to the last record listed under it |
| ExportProperties.MergeNamed | get_parameterstore_to_csv.py:46-48 | each entry's record has that entry's key as its Name |
| ExportProperties.MergeEmpty | get_parameterstore_to_csv.py:46-50 | the merged dict is empty iff nothing was listed |
| ExportProperties.MergeDict | get_parameterstore_to_csv.py:46-48 | the merged dict has unique keys in first-seen order, last record wins, each filed under its Name, and is empty only for an empty listing |
| ExportProperties.FlattenEmpty | get_parameterstore_to_csv.py:46-47 | the listing holds nothing iff every page is empty |
| ExportProperties.FlattenAllNamed | get_parameterstore_to_csv.py:46-48 | every listed parameter has a Name iff every page's parameters do |
| ExportProperties.LoadNotFound | get_parameterstore_to_csv.py:46-52 | a spec is reported not found iff the listing ends without error and every page is empty |
| ExportProperties.LoadNameMissing | get_parameterstore_to_csv.py:46-48 | loading ends in a KeyError iff some page holds a parameter without Name |
| ExportProperties.LoadListFailed | get_parameterstore_to_csv.py:46-48 | the load ends with the paginator's exception, ClientError or other, iff the listing raises and every page delivered before it is fully named |
| ExportProperties.LoadLoaded | get_parameterstore_to_csv.py:46-53 | a loaded spec yields a non-empty dict of everything listed: unique keys in first-seen order, last record per Name |
| ExportProperties.RowsFollowThen | get_parameterstore_to_csv.py:68-86 | rows that follow their parameters still do when later parameters or rows are appended |
| ExportProperties.EntryStepFacts | get_parameterstore_to_csv.py:71-86 | one parameter writes at most its own row and nothing to stderr, never stops as not found, and goes on iff `EntryOk`, with exactly one row; when it stops it writes no row |
| ExportProperties.EntryFailure | get_parameterstore_to_csv.py:71-86 | one parameter stops with a ClientError iff `get_parameter` raised one, with its message; it ends uncaught iff `get_parameter` raised another exception or the record has a field outside the columns |
| ExportProperties.EntriesCons | get_parameterstore_to_csv.py:70-86 | one parameter's part followed by the rest's part keeps the rows in dictionary order, writes nothing to stderr, and goes on iff every parameter from that one on can be written |
| ExportProperties.EntriesFollow | get_parameterstore_to_csv.py:70-86 | from name j on, the rows follow the dict in order; the loop goes on iff each value is fetched and fits the columns, and then writes one row each |
| ExportProperties.FirstUnwritable | get_parameterstore_to_csv.py:70-86 | the index of the first parameter from j on that cannot be written, every one before it can, or the end of the dict |
| ExportProperties.EntriesStop | get_parameterstore_to_csv.py:70-86 | from parameter j on, the loop writes exactly one row per parameter before the first one that cannot be written, and stops as that parameter does |
| ExportProperties.ArgRows | get_parameterstore_to_csv.py:68-86 | one spec's rows follow its dict, all of it when it goes on |
| ExportProperties.ArgRowsStop | get_parameterstore_to_csv.py:68-86 | one spec writes exactly one row per parameter before its first unwritable one (none if it did not load); a loaded spec that does not go on stops as that parameter does |
| ExportProperties.ArgGoesOn | get_parameterstore_to_csv.py:46-86 | one spec goes on iff `ArgOk`: it loads and each of its parameters can be written |
| ExportProperties.ArgNotFound | get_parameterstore_to_csv.py:50-52 | one spec stops as not found iff nothing matched, and the stop names that spec |
| ExportProperties.ArgErr | get_parameterstore_to_csv.py:50-52 | one spec writes the not-found ERROR line to stderr iff nothing matched, and nothing else |
| ExportProperties.ArgFailure | get_parameterstore_to_csv.py:46-86 | a KeyError while loading is not caught; a paginator ClientError stops the run with its message, another paginator exception is not caught; a ClientError stop comes from the listing or from a loaded spec |
| ExportProperties.ArgStatus | get_parameterstore_to_csv.py:50-52 | one spec goes on iff `ArgOk`; it stops as not found iff nothing matched, and only then writes its ERROR line |
| ExportProperties.ChainStatus | get_parameterstore_to_csv.py:68-86 | a chain of parts ends as its first part that does not go on, every part before it going on, or is done |
| ExportProperties.ChainErr | get_parameterstore_to_csv.py:68-86 | when parts that go on write no stderr line, a chain's stderr is that of the part it stops at, or nothing |
| ExportProperties.ChainRows | get_parameterstore_to_csv.py:68-86 | a chain's rows follow the concatenated parameters of its parts; when it is done, or stops at a part without rows, it holds exactly the rows of the parts before the stop |
| ExportProperties.RowsFollowCons | get_parameterstore_to_csv.py:68-86 | a full set of rows for some parameters followed by rows that follow the next ones follows them all |
| ExportProperties.ChainRowsAtStop | get_parameterstore_to_csv.py:68-86 | a chain stopping at part m writes every earlier part's rows in full, then part m's rows |
| ExportProperties.ArgsChain | get_parameterstore_to_csv.py:68-86 | the loop over the specs from i on is the chain of their parts |
| ExportProperties.ArgStops | get_parameterstore_to_csv.py:46-52 | a spec's part goes on iff `ArgOk`, stops as not found iff nothing matched, and then names that spec and has no rows |
| ExportProperties.ArgsRows | get_parameterstore_to_csv.py:68-86 | from spec i on, the rows follow every matched parameter in spec then dict order, all of them when the run is done |
| ExportProperties.ArgsDone | get_parameterstore_to_csv.py:68-86 | from spec i on, the run is done iff every spec is `ArgOk` |
| ExportProperties.ArgsNotFound | get_parameterstore_to_csv.py:50-52 | from spec i on, the run stops as not found at spec k iff spec k matched nothing and every spec before it was exported in full |
| ExportProperties.ArgsNotFoundRows | get_parameterstore_to_csv.py:50-52 | from spec i on, a not-found stop at spec k comes at or after i, and the rows are exactly one per parameter of specs i to k - 1, in order |
| ExportProperties.ArgErrFits | get_parameterstore_to_csv.py:50-52 | one spec's stderr is the not-found line of the spec it stops at, or nothing |
| ExportProperties.ArgsErr | get_parameterstore_to_csv.py:50-52 | from spec i on, stderr receives only the ERROR line of the spec the run stops at as not found |
| ExportProperties.FirstFailing | get_parameterstore_to_csv.py:68-86 | the index of the first spec from i on that is not `ArgOk`, every one before it is, or the end of the arguments |
| ExportProperties.FirstStopIsFirstFailing | get_parameterstore_to_csv.py:68-86 | the spec the loop stops at is the first one that is not `ArgOk` |
| ExportProperties.ArgsStopStatus | get_parameterstore_to_csv.py:46-86 | from spec i on, done iff every spec is `ArgOk`; otherwise the run ends as the first failing spec, and as its first unwritable parameter when it loaded |
| ExportProperties.RowsFollowPrefix | get_parameterstore_to_csv.py:70-86 | rows following a list of parameters, cut after the first k of the last spec, follow exactly that prefix |
| ExportProperties.ArgsStopRows | get_parameterstore_to_csv.py:68-86 | from spec i on, a run that is not done wrote exactly the rows of the specs before the first failing spec m, then those of m's parameters before its first unwritable one |
| ExportProperties.ExportStopsAtFirst | get_parameterstore_to_csv.py:46-86 | an export that does not complete ends as the first spec m that is not `ArgOk` (and as its first unwritable parameter k if it loaded); the file is then the header, the rows of specs 0 to m - 1 and the rows of m's first k parameters, and nothing more |
| ExportProperties.ExportFile | get_parameterstore_to_csv.py:64-86 | the header is the first line, written once; every later line is the row of the next matched parameter, in spec order then dict order, and only of a parameter whose every field is a column |
| ExportProperties.ExportCompletes | get_parameterstore_to_csv.py:64-86 | exit status 0 iff every spec loads and every parameter can be written; then the file holds one row per matched parameter and stderr is empty |
| ExportProperties.ExportNotFound | get_parameterstore_to_csv.py:50-86 | the run stops as not found at spec k iff spec k matched nothing and every earlier spec was exported; then stderr is exactly `ERROR: <spec> not found.`, and the file is the header and one row per parameter of specs 0 to k - 1, in order, and nothing more |
| ExportProperties.ExportErrors | get_parameterstore_to_csv.py:50-52 | stderr holds the not-found line or nothing |
| ExportProperties.ExportedRowCells | get_parameterstore_to_csv.py:71-86 | a row has 13 cells: its Name first, the fetched value under Value, empty metadata cells, a Policies cell that is either empty (`Missing`) or holds a truthy value, every other column as listed |
| ExportProperties.AllEntriesNamed | get_parameterstore_to_csv.py:46-48 | every matched parameter is filed under its own Name |
| ExportProperties.ConcatNamed | get_parameterstore_to_csv.py:46-48 | parameters filed under their own Names stay so when the specs' dictionaries are put one after another |
| ExportProperties.ExportRowsNormalised | get_parameterstore_to_csv.py:64-86 | every line after the header is a data row whose metadata cells are empty and whose Policies cell is either empty (`Missing`) or holds a truthy value. Its Value cell holds what `get_parameter` returns for the Name in its first cell |

## Left out

- Session and client construction (`connect_to`, `connect_to_source`, `connect_to_target`) and the unused STS clients: SDK calls outside the core.
- The real behaviour of `put_parameter`, `describe_parameters` and `get_parameter`: they are arbitrary functions here. Any call outcome is allowed: a value, a `ClientError` (the service's own validation failures among them), or another exception such as botocore's client-side `ParamValidationError` or a connection error.
- Both `main` methods are not modelled. That leaves out:
  - argument parsing;
  - the mutual exclusion of `--overwrite` and `--keep-going`, which argparse enforces and `import_params` does not assume;
  - how `--with-decryption` is parsed;
  - the fact that `main` never passes `key_id` or `clear_kms_key` (the model covers them as `import_params` takes them);
  - the text `main` prints for a `ClientError` (the model keeps the error's message and the exit status 1).
- File and stream I/O: opening files, CSV quoting, and the text the CSV writer makes of a value. A row read is a record, and a row written is its 13 cells.
- Rows with more cells than the header: `csv.DictReader` files the extra cells under the key `None`, and a record's keys here are strings.
- A page without a `Parameters` key: a page is modelled as its list of parameters.
- The part of the dict built before a KeyError or a mid-listing ClientError: the exception discards it, so only the outcome is modelled.
- The aliasing in `parameter = parameters[name]`: updates the dict's own record in place, and the model updates a copy. This makes no difference to what is written, because each record is written once and never read again.
