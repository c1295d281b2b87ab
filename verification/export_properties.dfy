/**
 * What load_source_parameters and export promise, stated against independent
 * definitions: the dictionary the pages are merged into behaves as a Python dict
 * (unique keys, last write wins, first insertion fixes the order), and the CSV file
 * is the header followed by one normalised row per listed parameter, in order.
 */
module ExportProperties {
  import opened Records
  import opened Exporter

  // ------------------------------------------------------------ the dictionary

  predicate NoDuplicates(xs: seq<Cell>) {
    forall a, b :: 0 <= a < b < |xs| ==> xs[a] != xs[b]
  }

  /** Each stored record is filed under its own Name. */
  predicate EntriesNamed(d: seq<Entry>) {
    forall k :: 0 <= k < |d| ==> "Name" in d[k].record && d[k].record["Name"] == d[k].name
  }

  /** `d.get(n)`. */
  function Lookup(d: seq<Entry>, n: Cell): Option<Record> {
    if d == [] then None
    else if d[0].name == n then Some(d[0].record)
    else Lookup(d[1..], n)
  }

  /** The last listed parameter whose Name is n, if any. */
  function LastNamed(s: seq<Record>, n: Cell): Option<Record>
    requires AllNamed(s)
  {
    if s == [] then None
    else if s[|s| - 1]["Name"] == n then Some(s[|s| - 1])
    else LastNamed(s[..|s| - 1], n)
  }

  /** The Names of the listed parameters, in listing order. */
  function Names(s: seq<Record>): seq<Cell>
    requires AllNamed(s)
  {
    seq(|s|, k requires 0 <= k < |s| => s[k]["Name"])
  }

  /** The distinct elements of xs in the order of their first occurrence. */
  function FirstSeen(xs: seq<Cell>): seq<Cell> {
    if xs == [] then []
    else
      var earlier := FirstSeen(xs[..|xs| - 1]);
      if xs[|xs| - 1] in earlier then earlier else earlier + [xs[|xs| - 1]]
  }

  lemma {:induction false} FirstSeenFacts(xs: seq<Cell>)
    ensures NoDuplicates(FirstSeen(xs))
    ensures forall x :: x in FirstSeen(xs) <==> x in xs
  {
    if xs != [] {
      var init := xs[..|xs| - 1];
      FirstSeenFacts(init);
      assert xs == init + [xs[|xs| - 1]];
    }
  }

  lemma {:induction false} UpsertKeys(d: seq<Entry>, n: Cell, r: Record)
    ensures DictKeys(Upsert(d, n, r)) == if n in DictKeys(d) then DictKeys(d) else DictKeys(d) + [n]
  {
    if d != [] {
      assert DictKeys(d) == [d[0].name] + DictKeys(d[1..]);
      if d[0].name == n {
        assert DictKeys(Upsert(d, n, r)) == [n] + DictKeys(d[1..]);
      } else {
        UpsertKeys(d[1..], n, r);
        assert DictKeys(Upsert(d, n, r)) == [d[0].name] + DictKeys(Upsert(d[1..], n, r));
      }
    }
  }

  lemma {:induction false} UpsertLookup(d: seq<Entry>, n: Cell, r: Record, m: Cell)
    ensures Lookup(Upsert(d, n, r), m) == if m == n then Some(r) else Lookup(d, m)
  {
    if d != [] && d[0].name != n {
      var u := Upsert(d, n, r);
      assert u[0] == d[0] && u[1..] == Upsert(d[1..], n, r);
      UpsertLookup(d[1..], n, r, m);
    }
  }

  lemma {:induction false} UpsertNamed(d: seq<Entry>, n: Cell, r: Record)
    requires EntriesNamed(d) && "Name" in r && r["Name"] == n
    ensures EntriesNamed(Upsert(d, n, r))
  {
    if d != [] && d[0].name != n {
      UpsertNamed(d[1..], n, r);
      assert Upsert(d, n, r) == [d[0]] + Upsert(d[1..], n, r);
    }
  }

  lemma NamesInit(s: seq<Record>)
    requires AllNamed(s) && s != []
    ensures AllNamed(s[..|s| - 1])
    ensures Names(s) == Names(s[..|s| - 1]) + [s[|s| - 1]["Name"]]
  {
  }

  /** The keys of the merged dictionary are the Names listed, each once, in first-seen order. */
  lemma {:induction false} MergeKeys(s: seq<Record>)
    requires AllNamed(s)
    ensures DictKeys(Merge(s)) == FirstSeen(Names(s))
  {
    if s != [] {
      var last := s[|s| - 1];
      NamesInit(s);
      MergeKeys(s[..|s| - 1]);
      UpsertKeys(Merge(s[..|s| - 1]), last["Name"], last);
      assert Names(s)[..|s| - 1] == Names(s[..|s| - 1]);
    }
  }

  /** Looking a Name up in the merged dictionary gives the last parameter listed under it. */
  lemma {:induction false} MergeLookup(s: seq<Record>, n: Cell)
    requires AllNamed(s)
    ensures Lookup(Merge(s), n) == LastNamed(s, n)
  {
    if s != [] {
      var last := s[|s| - 1];
      MergeLookup(s[..|s| - 1], n);
      UpsertLookup(Merge(s[..|s| - 1]), last["Name"], last, n);
    }
  }

  lemma {:induction false} MergeNamed(s: seq<Record>)
    requires AllNamed(s)
    ensures EntriesNamed(Merge(s))
  {
    if s != [] {
      var last := s[|s| - 1];
      MergeNamed(s[..|s| - 1]);
      UpsertNamed(Merge(s[..|s| - 1]), last["Name"], last);
    }
  }

  lemma MergeEmpty(s: seq<Record>)
    requires AllNamed(s)
    ensures Merge(s) == [] <==> s == []
  {
  }

  /**
   * The dictionary built from a listing: one entry per distinct Name, in first-seen
   * order, holding the last parameter listed under that Name; empty only when
   * nothing was listed.
   */
  lemma MergeDict(s: seq<Record>)
    requires AllNamed(s)
    ensures var d := Merge(s);
            NoDuplicates(DictKeys(d)) && DictKeys(d) == FirstSeen(Names(s)) && EntriesNamed(d) &&
            (d == [] <==> s == []) &&
            forall n :: Lookup(d, n) == LastNamed(s, n)
  {
    MergeKeys(s);
    FirstSeenFacts(Names(s));
    MergeNamed(s);
    MergeEmpty(s);
    forall n
      ensures Lookup(Merge(s), n) == LastNamed(s, n)
    {
      MergeLookup(s, n);
    }
  }

  // ------------------------------------------------------------ loading a spec

  lemma {:induction false} FlattenEmpty(pages: seq<seq<Record>>)
    ensures Flatten(pages) == [] <==> forall i :: 0 <= i < |pages| ==> pages[i] == []
  {
    if pages != [] {
      var n := |pages| - 1;
      FlattenEmpty(pages[..n]);
      assert forall i :: 0 <= i < n ==> pages[..n][i] == pages[i];
    }
  }

  lemma {:induction false} FlattenAllNamed(pages: seq<seq<Record>>)
    ensures AllNamed(Flatten(pages)) <==> forall i :: 0 <= i < |pages| ==> AllNamed(pages[i])
  {
    if pages != [] {
      var n := |pages| - 1;
      var init := Flatten(pages[..n]);
      var all := Flatten(pages);
      assert all == init + pages[n];
      FlattenAllNamed(pages[..n]);
      assert forall i :: 0 <= i < n ==> pages[..n][i] == pages[i];
      if AllNamed(all) {
        assert AllNamed(init) by {
          assert forall k :: 0 <= k < |init| ==> all[k] == init[k];
        }
        assert AllNamed(pages[n]) by {
          assert forall k :: 0 <= k < |pages[n]| ==> all[|init| + k] == pages[n][k];
        }
      } else {
        var k :| 0 <= k < |all| && "Name" !in all[k];
        if k < |init| {
          assert all[k] == init[k];
        } else {
          assert all[k] == pages[n][k - |init|];
        }
      }
    }
  }

  /**
   * A spec is reported as not found exactly when the listing ends without an error
   * and no page holds any parameter.
   */
  lemma LoadNotFound(arg: string, recursive: bool, oneLevel: bool, describe: ParameterFilter -> Listing)
    ensures var listing := describe(FilterFor(arg, recursive, oneLevel));
            Load(arg, recursive, oneLevel, describe) == NotFound <==>
              listing.failure.None? && forall i :: 0 <= i < |listing.pages| ==> listing.pages[i] == []
  {
    var listing := describe(FilterFor(arg, recursive, oneLevel));
    FlattenEmpty(listing.pages);
    if AllNamed(Flatten(listing.pages)) {
      MergeEmpty(Flatten(listing.pages));
    }
  }

  /**
   * Loading fails with a KeyError exactly when some listed parameter has no Name,
   * whether or not the listing also broke off with a ClientError afterwards.
   */
  lemma LoadNameMissing(arg: string, recursive: bool, oneLevel: bool, describe: ParameterFilter -> Listing)
    ensures var listing := describe(FilterFor(arg, recursive, oneLevel));
            Load(arg, recursive, oneLevel, describe) == NameMissing <==>
              exists i :: 0 <= i < |listing.pages| && !AllNamed(listing.pages[i])
  {
    FlattenAllNamed(describe(FilterFor(arg, recursive, oneLevel)).pages);
  }

  /**
   * A listing that raises ends the load with its exception, ClientError or not, unless
   * one of the pages delivered before it holds a parameter without a Name.
   */
  lemma LoadListFailed(arg: string, recursive: bool, oneLevel: bool, describe: ParameterFilter -> Listing)
    ensures var listing := describe(FilterFor(arg, recursive, oneLevel));
            var l := Load(arg, recursive, oneLevel, describe);
            (l.ListFailed? <==>
               listing.failure.Some? && forall i :: 0 <= i < |listing.pages| ==> AllNamed(listing.pages[i])) &&
            (l.ListFailed? ==> l.error == listing.failure.value)
  {
    FlattenAllNamed(describe(FilterFor(arg, recursive, oneLevel)).pages);
  }

  /** A spec that loads yields the merged dictionary of everything listed, which is never empty. */
  lemma LoadLoaded(arg: string, recursive: bool, oneLevel: bool, describe: ParameterFilter -> Listing)
    requires Load(arg, recursive, oneLevel, describe).Loaded?
    ensures var listing := describe(FilterFor(arg, recursive, oneLevel));
            var d := Load(arg, recursive, oneLevel, describe).entries;
            var s := Flatten(listing.pages);
            listing.failure.None? && AllNamed(s) && d != [] &&
            NoDuplicates(DictKeys(d)) && DictKeys(d) == FirstSeen(Names(s)) && EntriesNamed(d) &&
            forall n :: Lookup(d, n) == LastNamed(s, n)
  {
    MergeDict(Flatten(describe(FilterFor(arg, recursive, oneLevel)).pages));
  }

  // ------------------------------------------------------------ the CSV file

  /** Parameter e can be written: its value is fetched, and every field it then has is a column. */
  predicate EntryOk(e: Entry, opts: ExportOptions, remote: Remote) {
    match remote.get(e.name, opts.withDecryption)
    case Failed(_) => false
    case Raised => false
    case Value(v) => Exported(e, v).Keys <= FIELDSET
  }

  /** Spec arg loads, and each parameter it matched can be written. */
  predicate ArgOk(arg: string, opts: ExportOptions, remote: Remote) {
    match Load(arg, opts.recursive, opts.oneLevel, remote.describe)
    case Loaded(es) => forall j :: 0 <= j < |es| ==> EntryOk(es[j], opts, remote)
    case _ => false
  }

  /** The parameters a spec matched: none unless it loaded. */
  function LoadedEntries(l: LoadResult): seq<Entry> {
    if l.Loaded? then l.entries else []
  }

  /** ents[i], ents[i + 1], ... up to, not including, ents[k], one after another. */
  function ConcatFrom(ents: seq<seq<Entry>>, i: nat, k: nat): seq<Entry>
    decreases |ents| - i
  {
    if i >= k || i >= |ents| then [] else ents[i] + ConcatFrom(ents, i + 1, k)
  }

  /** The parameters each spec matched, spec by spec. */
  function ArgEntries(args: seq<string>, opts: ExportOptions, remote: Remote): seq<seq<Entry>> {
    seq(|args|, j requires 0 <= j < |args| => LoadedEntries(Load(args[j], opts.recursive, opts.oneLevel, remote.describe)))
  }

  /** Every parameter the specs from args[i] on match, spec by spec, in dictionary order. */
  function AllEntriesFrom(args: seq<string>, i: nat, opts: ExportOptions, remote: Remote): seq<Entry> {
    ConcatFrom(ArgEntries(args, opts, remote), i, |args|)
  }

  /** Every parameter the specs args[i] up to, not including, args[k] match, spec by spec. */
  function EntriesBetween(args: seq<string>, i: nat, k: nat, opts: ExportOptions, remote: Remote): seq<Entry> {
    ConcatFrom(ArgEntries(args, opts, remote), i, k)
  }

  /** row is what writerow writes for parameter e once its value is fetched and every field it has is a column. */
  predicate RowOf(row: CsvRow, e: Entry, opts: ExportOptions, remote: Remote) {
    match remote.get(e.name, opts.withDecryption)
    case Failed(_) => false
    case Raised => false
    case Value(v) => Exported(e, v).Keys <= FIELDSET && row == DataRow(Project(Exported(e, v)))
  }

  /** The rows written so far are those of the first |rows| parameters of es, one each, in order. */
  predicate RowsFollow(rows: seq<CsvRow>, es: seq<Entry>, opts: ExportOptions, remote: Remote) {
    |rows| <= |es| && forall k :: 0 <= k < |rows| ==> RowOf(rows[k], es[k], opts, remote)
  }

  lemma RowsFollowThen(a: seq<CsvRow>, ea: seq<Entry>, b: seq<CsvRow>, eb: seq<Entry>, opts: ExportOptions, remote: Remote)
    requires RowsFollow(a, ea, opts, remote) && RowsFollow(b, eb, opts, remote)
    ensures RowsFollow(a, ea + eb, opts, remote)
    ensures |a| == |ea| ==> RowsFollow(a + b, ea + eb, opts, remote)
  {
  }

  /** One parameter: at most its own row, no stderr line, and the run goes on iff it is EntryOk. */
  lemma EntryStepFacts(e: Entry, opts: ExportOptions, remote: Remote)
    ensures var p := EntryStep(e, opts, remote);
            RowsFollow(p.rows, [e], opts, remote) && p.err == [] && !p.status.NotFoundExit? &&
            (p.status == Done <==> EntryOk(e, opts, remote)) &&
            (p.status == Done ==> |p.rows| == 1) && (p.status != Done ==> p.rows == [])
  {
  }

  /**
   * How one parameter can stop the run: a ClientError from get_parameter escapes with its
   * message; any other exception, or a field outside the columns, is not caught.
   */
  lemma EntryFailure(e: Entry, opts: ExportOptions, remote: Remote)
    ensures var s := EntryStep(e, opts, remote).status;
            var f := remote.get(e.name, opts.withDecryption);
            (s.ClientFailure? <==> f.Failed?) && (s.ClientFailure? ==> s.message == f.message) &&
            (s == Uncaught <==> f.Raised? || (f.Value? && !(Exported(e, f.value).Keys <= FIELDSET)))
  {
  }

  /** From parameter j on: the rows follow the dictionary, and the run goes on iff every one can be written. */
  lemma {:induction false} EntriesFollow(es: seq<Entry>, j: nat, opts: ExportOptions, remote: Remote)
    requires j <= |es|
    ensures var p := EntriesFrom(es, j, opts, remote);
            RowsFollow(p.rows, es[j..], opts, remote) && p.err == [] &&
            !p.status.NotFoundExit? &&
            (p.status == Done <==> forall k :: j <= k < |es| ==> EntryOk(es[k], opts, remote)) &&
            (p.status == Done ==> |p.rows| == |es| - j)
    decreases |es| - j
  {
    if j == |es| {
      assert EntriesFrom(es, j, opts, remote) == Part([], [], Done);
    } else {
      EntryStepFacts(es[j], opts, remote);
      EntriesFollow(es, j + 1, opts, remote);
      assert EntriesFrom(es, j, opts, remote) ==
             ThenPart(EntryStep(es[j], opts, remote), EntriesFrom(es, j + 1, opts, remote));
      EntriesCons(es, j, opts, remote, EntryStep(es[j], opts, remote), EntriesFrom(es, j + 1, opts, remote));
    }
  }

  /** The inductive step of EntriesFollow, for any part of es[j] followed by any part of the rest. */
  lemma EntriesCons(es: seq<Entry>, j: nat, opts: ExportOptions, remote: Remote, step: Part, rest: Part)
    requires j < |es|
    requires RowsFollow(step.rows, [es[j]], opts, remote) && step.err == [] && !step.status.NotFoundExit? &&
             (step.status == Done <==> EntryOk(es[j], opts, remote)) && (step.status == Done ==> |step.rows| == 1)
    requires RowsFollow(rest.rows, es[j + 1..], opts, remote) && rest.err == [] && !rest.status.NotFoundExit? &&
             (rest.status == Done <==> forall k :: j + 1 <= k < |es| ==> EntryOk(es[k], opts, remote)) &&
             (rest.status == Done ==> |rest.rows| == |es| - (j + 1))
    ensures var p := ThenPart(step, rest);
            RowsFollow(p.rows, es[j..], opts, remote) && p.err == [] &&
            !p.status.NotFoundExit? &&
            (p.status == Done <==> forall k :: j <= k < |es| ==> EntryOk(es[k], opts, remote)) &&
            (p.status == Done ==> |p.rows| == |es| - j)
  {
    assert es[j..] == [es[j]] + es[j + 1..];
    RowsFollowThen(step.rows, [es[j]], rest.rows, es[j + 1..], opts, remote);
  }

  /** The first parameter from es[j] on that cannot be written, or |es| when every one can. */
  function FirstUnwritable(es: seq<Entry>, j: nat, opts: ExportOptions, remote: Remote): (k: nat)
    requires j <= |es|
    ensures j <= k <= |es| && (k < |es| ==> !EntryOk(es[k], opts, remote))
    ensures forall t :: j <= t < k ==> EntryOk(es[t], opts, remote)
    decreases |es| - j
  {
    if j == |es| then |es|
    else if !EntryOk(es[j], opts, remote) then j
    else FirstUnwritable(es, j + 1, opts, remote)
  }

  /**
   * From parameter j on, the loop writes one row for each parameter before the first one
   * that cannot be written, and no row for it or after it; it stops as that parameter does.
   */
  lemma {:induction false} EntriesStop(es: seq<Entry>, j: nat, opts: ExportOptions, remote: Remote)
    requires j <= |es|
    ensures var p := EntriesFrom(es, j, opts, remote);
            var k := FirstUnwritable(es, j, opts, remote);
            |p.rows| == k - j && (k < |es| ==> p.status == EntryStep(es[k], opts, remote).status)
    decreases |es| - j
  {
    if j == |es| {
      assert EntriesFrom(es, j, opts, remote) == Part([], [], Done);
    } else {
      EntryStepFacts(es[j], opts, remote);
      EntriesStop(es, j + 1, opts, remote);
      assert EntriesFrom(es, j, opts, remote) ==
             ThenPart(EntryStep(es[j], opts, remote), EntriesFrom(es, j + 1, opts, remote));
    }
  }

  /** One spec: its rows follow its dictionary, all of it when it goes on. */
  lemma ArgRows(args: seq<string>, i: nat, opts: ExportOptions, remote: Remote)
    requires i < |args|
    ensures var p := ArgStep(args, i, opts, remote);
            var l := Load(args[i], opts.recursive, opts.oneLevel, remote.describe);
            RowsFollow(p.rows, LoadedEntries(l), opts, remote) &&
            (p.status == Done ==> |p.rows| == |LoadedEntries(l)|)
  {
    var l := Load(args[i], opts.recursive, opts.oneLevel, remote.describe);
    if l.Loaded? {
      EntriesFollow(l.entries, 0, opts, remote);
      assert l.entries[0..] == l.entries;
    }
  }

  /**
   * One spec writes a row for each of its parameters before the first one that cannot
   * be written (none if it did not load); a loaded spec that does not go on stops as
   * that parameter does.
   */
  lemma ArgRowsStop(args: seq<string>, i: nat, opts: ExportOptions, remote: Remote)
    requires i < |args|
    ensures var p := ArgStep(args, i, opts, remote);
            var l := Load(args[i], opts.recursive, opts.oneLevel, remote.describe);
            var k := FirstUnwritable(LoadedEntries(l), 0, opts, remote);
            |p.rows| == k &&
            (l.Loaded? && !ArgOk(args[i], opts, remote) ==>
               k < |l.entries| && p.status == EntryStep(l.entries[k], opts, remote).status)
  {
    var l := Load(args[i], opts.recursive, opts.oneLevel, remote.describe);
    if l.Loaded? {
      EntriesStop(l.entries, 0, opts, remote);
    }
  }

  /** One spec goes on iff it is ArgOk. */
  lemma ArgGoesOn(args: seq<string>, i: nat, opts: ExportOptions, remote: Remote)
    requires i < |args|
    ensures ArgStep(args, i, opts, remote).status == Done <==> ArgOk(args[i], opts, remote)
  {
    var l := Load(args[i], opts.recursive, opts.oneLevel, remote.describe);
    if l.Loaded? {
      EntriesFollow(l.entries, 0, opts, remote);
    }
  }

  /** One spec stops as not found iff it matched nothing, and the status names that spec. */
  lemma ArgNotFound(args: seq<string>, i: nat, opts: ExportOptions, remote: Remote)
    requires i < |args|
    ensures var s := ArgStep(args, i, opts, remote).status;
            (s.NotFoundExit? <==> Load(args[i], opts.recursive, opts.oneLevel, remote.describe).NotFound?) &&
            (s.NotFoundExit? ==> s.arg == i)
  {
    var l := Load(args[i], opts.recursive, opts.oneLevel, remote.describe);
    if l.Loaded? {
      EntriesFollow(l.entries, 0, opts, remote);
    }
  }

  /** One spec writes to stderr only when it matched nothing, and then just its ERROR line. */
  lemma ArgErr(args: seq<string>, i: nat, opts: ExportOptions, remote: Remote)
    requires i < |args|
    ensures ArgStep(args, i, opts, remote).err ==
              if Load(args[i], opts.recursive, opts.oneLevel, remote.describe).NotFound? then [NotFoundLine(args[i])] else []
  {
    var l := Load(args[i], opts.recursive, opts.oneLevel, remote.describe);
    if l.Loaded? {
      EntriesFollow(l.entries, 0, opts, remote);
    }
  }

  /** One spec goes on iff it is ArgOk; it stops as not found iff it matched nothing, and only then writes to stderr. */
  lemma ArgStatus(args: seq<string>, i: nat, opts: ExportOptions, remote: Remote)
    requires i < |args|
    ensures var p := ArgStep(args, i, opts, remote);
            var l := Load(args[i], opts.recursive, opts.oneLevel, remote.describe);
            (p.status == Done <==> ArgOk(args[i], opts, remote)) &&
            (p.status.NotFoundExit? <==> l.NotFound?) &&
            (p.status.NotFoundExit? ==> p.status.arg == i) &&
            p.err == if l.NotFound? then [NotFoundLine(args[i])] else []
  {
    ArgGoesOn(args, i, opts, remote);
    ArgNotFound(args, i, opts, remote);
    ArgErr(args, i, opts, remote);
  }

  /**
   * How loading one spec can stop the run: a KeyError is not caught, and an exception
   * from the paginator escapes as a ClientError with its message or is not caught.
   */
  lemma ArgFailure(args: seq<string>, i: nat, opts: ExportOptions, remote: Remote)
    requires i < |args|
    ensures var s := ArgStep(args, i, opts, remote).status;
            var l := Load(args[i], opts.recursive, opts.oneLevel, remote.describe);
            (l.NameMissing? ==> s == Uncaught) &&
            (l.ListFailed? && l.error.ClientError? ==> s == ClientFailure(l.error.message)) &&
            (l.ListFailed? && l.error.OtherException? ==> s == Uncaught) &&
            (s.ClientFailure? ==> l.ListFailed? || l.Loaded?)
  {
  }

  // ------------------------------------------------ a run as a chain of parts

  /** The parts ps[i..] run in order, each only once the ones before it complete. */
  function Chain(ps: seq<Part>, i: nat): Part
    decreases |ps| - i
  {
    if i >= |ps| then Part([], [], Done) else ThenPart(ps[i], Chain(ps, i + 1))
  }

  /** The first part from ps[i] on that does not complete, or |ps| when they all do. */
  function FirstStop(ps: seq<Part>, i: nat): (m: nat)
    requires i <= |ps|
    ensures i <= m <= |ps|
    decreases |ps| - i
  {
    if i >= |ps| then |ps| else if ps[i].status != Done then i else FirstStop(ps, i + 1)
  }

  /** A chain ends as its first part that does not complete, every part before it completing. */
  lemma {:induction false} ChainStatus(ps: seq<Part>, i: nat)
    requires i <= |ps|
    ensures var m := FirstStop(ps, i);
            i <= m <= |ps| && (m < |ps| ==> ps[m].status != Done) &&
            (forall j :: i <= j < m ==> ps[j].status == Done) &&
            Chain(ps, i).status == if m < |ps| then ps[m].status else Done
    decreases |ps| - i
  {
    if i < |ps| {
      ChainStatus(ps, i + 1);
    }
  }

  /** When the parts that complete write nothing to stderr, a chain writes what the part it stops at writes. */
  lemma {:induction false} ChainErr(ps: seq<Part>, i: nat)
    requires i <= |ps|
    requires forall j :: i <= j < |ps| && ps[j].status == Done ==> ps[j].err == []
    ensures Chain(ps, i).err == if FirstStop(ps, i) < |ps| then ps[FirstStop(ps, i)].err else []
    decreases |ps| - i
  {
    if i < |ps| {
      ChainErr(ps, i + 1);
    }
  }

  /**
   * When each part's rows follow its own entries, all of them if it completes, the rows
   * of a chain follow the entries in turn; and all of them up to where it stops when
   * it completes or the part it stops at writes no row.
   */
  lemma {:induction false} ChainRows(ps: seq<Part>, ents: seq<seq<Entry>>, i: nat, opts: ExportOptions, remote: Remote)
    requires i <= |ps| == |ents|
    requires forall j :: i <= j < |ps| ==>
               RowsFollow(ps[j].rows, ents[j], opts, remote) && (ps[j].status == Done ==> |ps[j].rows| == |ents[j]|)
    ensures var c := Chain(ps, i);
            var m := FirstStop(ps, i);
            RowsFollow(c.rows, ConcatFrom(ents, i, |ps|), opts, remote) &&
            (m == |ps| || ps[m].rows == [] ==>
               |c.rows| == |ConcatFrom(ents, i, m)| && RowsFollow(c.rows, ConcatFrom(ents, i, m), opts, remote))
    decreases |ps| - i
  {
    if i < |ps| {
      var rest := Chain(ps, i + 1);
      assert ConcatFrom(ents, i, |ps|) == ents[i] + ConcatFrom(ents, i + 1, |ps|);
      if ps[i].status == Done {
        var m := FirstStop(ps, i);
        ChainRows(ps, ents, i + 1, opts, remote);
        RowsFollowThen(ps[i].rows, ents[i], rest.rows, ConcatFrom(ents, i + 1, |ps|), opts, remote);
        if m == |ps| || ps[m].rows == [] {
          assert ConcatFrom(ents, i, m) == ents[i] + ConcatFrom(ents, i + 1, m);
          RowsFollowThen(ps[i].rows, ents[i], rest.rows, ConcatFrom(ents, i + 1, m), opts, remote);
        }
      } else {
        RowsFollowThen(ps[i].rows, ents[i], [], ConcatFrom(ents, i + 1, |ps|), opts, remote);
      }
    }
  }

  /** Rows in full for ea, then rows following eb + ec, follow ea + eb + ec. */
  lemma RowsFollowCons(a: seq<CsvRow>, ea: seq<Entry>, b: seq<CsvRow>, eb: seq<Entry>, ec: seq<Entry>,
                       opts: ExportOptions, remote: Remote)
    requires RowsFollow(a, ea, opts, remote) && |a| == |ea| && RowsFollow(b, eb + ec, opts, remote)
    ensures RowsFollow(a + b, ea + eb + ec, opts, remote)
  {
    RowsFollowThen(a, ea, b, eb + ec, opts, remote);
    assert ea + (eb + ec) == ea + eb + ec;
  }

  /** A chain that stops at part m writes the rows of every part before m in full, then those of part m. */
  lemma {:induction false} ChainRowsAtStop(ps: seq<Part>, ents: seq<seq<Entry>>, i: nat, opts: ExportOptions, remote: Remote)
    requires i <= |ps| == |ents|
    requires forall j :: i <= j < |ps| ==>
               RowsFollow(ps[j].rows, ents[j], opts, remote) && (ps[j].status == Done ==> |ps[j].rows| == |ents[j]|)
    ensures var c := Chain(ps, i);
            var m := FirstStop(ps, i);
            m < |ps| ==>
              |c.rows| == |ConcatFrom(ents, i, m)| + |ps[m].rows| &&
              RowsFollow(c.rows, ConcatFrom(ents, i, m) + ents[m], opts, remote)
    decreases |ps| - i
  {
    if i < |ps| {
      var m := FirstStop(ps, i);
      if ps[i].status == Done {
        ChainRowsAtStop(ps, ents, i + 1, opts, remote);
        assert m == FirstStop(ps, i + 1);
        if m < |ps| {
          var rest := Chain(ps, i + 1);
          assert Chain(ps, i).rows == ps[i].rows + rest.rows;
          assert ConcatFrom(ents, i, m) == ents[i] + ConcatFrom(ents, i + 1, m);
          RowsFollowCons(ps[i].rows, ents[i], rest.rows, ConcatFrom(ents, i + 1, m), ents[m], opts, remote);
        }
      } else {
        assert m == i && Chain(ps, i) == ps[i];
        assert ConcatFrom(ents, i, m) + ents[m] == ents[i];
      }
    }
  }

  /** The part each spec produces when it is reached. */
  function ArgParts(args: seq<string>, opts: ExportOptions, remote: Remote): seq<Part> {
    seq(|args|, j requires 0 <= j < |args| => ArgStep(args, j, opts, remote))
  }

  /** The run from spec i on is the chain of the specs' parts. */
  lemma {:induction false} ArgsChain(args: seq<string>, i: nat, opts: ExportOptions, remote: Remote)
    requires i <= |args|
    ensures ArgsFrom(args, i, opts, remote) == Chain(ArgParts(args, opts, remote), i)
    decreases |args| - i
  {
    if i == |args| {
      assert ArgsFrom(args, i, opts, remote) == Part([], [], Done);
    } else {
      assert ArgParts(args, opts, remote)[i] == ArgStep(args, i, opts, remote);
      ArgsChain(args, i + 1, opts, remote);
    }
  }

  // ------------------------------------------------------- runs from spec i on

  /** From spec i on, the rows written follow the parameters matched, all of them when the run completes. */
  lemma ArgsRows(args: seq<string>, i: nat, opts: ExportOptions, remote: Remote)
    requires i <= |args|
    ensures var p := ArgsFrom(args, i, opts, remote);
            RowsFollow(p.rows, AllEntriesFrom(args, i, opts, remote), opts, remote) &&
            (p.status == Done ==> |p.rows| == |AllEntriesFrom(args, i, opts, remote)|)
  {
    var ps := ArgParts(args, opts, remote);
    var ents := ArgEntries(args, opts, remote);
    ArgsChain(args, i, opts, remote);
    forall j | i <= j < |ps|
      ensures RowsFollow(ps[j].rows, ents[j], opts, remote) && (ps[j].status == Done ==> |ps[j].rows| == |ents[j]|)
    {
      ArgRows(args, j, opts, remote);
    }
    ChainStatus(ps, i);
    ChainRows(ps, ents, i, opts, remote);
  }

  /** From spec i on, the run goes on to the end iff every spec is ArgOk. */
  lemma ArgsDone(args: seq<string>, i: nat, opts: ExportOptions, remote: Remote)
    requires i <= |args|
    ensures ArgsFrom(args, i, opts, remote).status == Done <==> forall j :: i <= j < |args| ==> ArgOk(args[j], opts, remote)
  {
    var ps := ArgParts(args, opts, remote);
    ArgsChain(args, i, opts, remote);
    forall j | i <= j < |ps|
      ensures ps[j].status == Done <==> ArgOk(args[j], opts, remote)
    {
      ArgGoesOn(args, j, opts, remote);
    }
    ChainStatus(ps, i);
  }

  /** Spec k matches nothing, and every spec from args[i] up to it is ArgOk. */
  predicate NotFoundAt(args: seq<string>, i: nat, k: nat, opts: ExportOptions, remote: Remote) {
    i <= k < |args| && Load(args[k], opts.recursive, opts.oneLevel, remote.describe).NotFound? &&
    forall j :: i <= j < k ==> ArgOk(args[j], opts, remote)
  }

  /** What one spec's part says about how the run stops there. */
  lemma ArgStops(args: seq<string>, j: nat, opts: ExportOptions, remote: Remote)
    requires j < |args|
    ensures var p := ArgParts(args, opts, remote)[j];
            (p.status == Done <==> ArgOk(args[j], opts, remote)) &&
            (p.status.NotFoundExit? <==> Load(args[j], opts.recursive, opts.oneLevel, remote.describe).NotFound?) &&
            (p.status.NotFoundExit? ==> p.status.arg == j && p.rows == [])
  {
    ArgGoesOn(args, j, opts, remote);
    ArgNotFound(args, j, opts, remote);
    ArgRows(args, j, opts, remote);
  }

  /** From spec i on, the run stops as not found at spec k iff NotFoundAt. */
  lemma ArgsNotFound(args: seq<string>, i: nat, k: nat, opts: ExportOptions, remote: Remote)
    requires i <= |args|
    ensures ArgsFrom(args, i, opts, remote).status == NotFoundExit(k) <==> NotFoundAt(args, i, k, opts, remote)
  {
    var ps := ArgParts(args, opts, remote);
    ArgsChain(args, i, opts, remote);
    forall j | i <= j < |ps| {
      ArgStops(args, j, opts, remote);
    }
    ChainStatus(ps, i);
    if NotFoundAt(args, i, k, opts, remote) {
      assert ps[k].status == NotFoundExit(k);
    }
  }

  /** A run from spec i on that stops at spec k as not found writes exactly the rows of specs i to k - 1. */
  lemma ArgsNotFoundRows(args: seq<string>, i: nat, k: nat, opts: ExportOptions, remote: Remote)
    requires i <= |args|
    ensures var p := ArgsFrom(args, i, opts, remote);
            p.status == NotFoundExit(k) ==>
              i <= k && |p.rows| == |EntriesBetween(args, i, k, opts, remote)| &&
              RowsFollow(p.rows, EntriesBetween(args, i, k, opts, remote), opts, remote)
  {
    var ps := ArgParts(args, opts, remote);
    var ents := ArgEntries(args, opts, remote);
    ArgsChain(args, i, opts, remote);
    forall j | i <= j < |ps|
      ensures RowsFollow(ps[j].rows, ents[j], opts, remote) && (ps[j].status == Done ==> |ps[j].rows| == |ents[j]|)
    {
      ArgRows(args, j, opts, remote);
    }
    ChainStatus(ps, i);
    ChainRows(ps, ents, i, opts, remote);
    var m := FirstStop(ps, i);
    if m < |ps| {
      ArgStops(args, m, opts, remote);
    }
  }

  /** err is what a stretch of the run that ends with status s writes to stderr: the ERROR line of a spec not found, or nothing. */
  predicate ErrFits(args: seq<string>, s: ExportStatus, err: seq<string>) {
    err == if s.NotFoundExit? && s.arg < |args| then [NotFoundLine(args[s.arg])] else []
  }

  lemma ArgErrFits(args: seq<string>, i: nat, opts: ExportOptions, remote: Remote)
    requires i < |args|
    ensures ErrFits(args, ArgStep(args, i, opts, remote).status, ArgStep(args, i, opts, remote).err)
  {
    ArgNotFound(args, i, opts, remote);
    ArgErr(args, i, opts, remote);
  }

  /** From spec i on, the only line written to stderr is the ERROR line of the spec the run stops at as not found. */
  lemma ArgsErr(args: seq<string>, i: nat, opts: ExportOptions, remote: Remote)
    requires i <= |args|
    ensures var p := ArgsFrom(args, i, opts, remote); ErrFits(args, p.status, p.err)
  {
    var ps := ArgParts(args, opts, remote);
    ArgsChain(args, i, opts, remote);
    forall j | i <= j < |ps|
      ensures ErrFits(args, ps[j].status, ps[j].err)
    {
      ArgErrFits(args, j, opts, remote);
    }
    ChainStatus(ps, i);
    ChainErr(ps, i);
  }

  /** The first spec from args[i] on that is not ArgOk, or |args| when every one is. */
  function FirstFailing(args: seq<string>, i: nat, opts: ExportOptions, remote: Remote): (m: nat)
    requires i <= |args|
    ensures i <= m <= |args| && (m < |args| ==> !ArgOk(args[m], opts, remote))
    ensures forall j :: i <= j < m ==> ArgOk(args[j], opts, remote)
    decreases |args| - i
  {
    if i == |args| then |args|
    else if !ArgOk(args[i], opts, remote) then i
    else FirstFailing(args, i + 1, opts, remote)
  }

  /** The part the chain of specs stops at is the first spec that is not ArgOk. */
  lemma FirstStopIsFirstFailing(args: seq<string>, i: nat, opts: ExportOptions, remote: Remote)
    requires i <= |args|
    ensures FirstStop(ArgParts(args, opts, remote), i) == FirstFailing(args, i, opts, remote)
  {
    var ps := ArgParts(args, opts, remote);
    forall j | i <= j < |ps| {
      ArgStops(args, j, opts, remote);
    }
    ChainStatus(ps, i);
  }

  /**
   * From spec i on, the run is done iff every spec is ArgOk; otherwise it ends as the
   * first spec that is not, and, when that spec loaded, as its first parameter that
   * cannot be written.
   */
  lemma ArgsStopStatus(args: seq<string>, i: nat, opts: ExportOptions, remote: Remote)
    requires i <= |args|
    ensures var p := ArgsFrom(args, i, opts, remote);
            var m := FirstFailing(args, i, opts, remote);
            (p.status == Done <==> m == |args|) &&
            (m < |args| ==>
               var l := Load(args[m], opts.recursive, opts.oneLevel, remote.describe);
               p.status == ArgStep(args, m, opts, remote).status &&
               (l.Loaded? ==>
                  var k := FirstUnwritable(l.entries, 0, opts, remote);
                  k < |l.entries| && p.status == EntryStep(l.entries[k], opts, remote).status))
  {
    var ps := ArgParts(args, opts, remote);
    var m := FirstFailing(args, i, opts, remote);
    ArgsChain(args, i, opts, remote);
    ChainStatus(ps, i);
    FirstStopIsFirstFailing(args, i, opts, remote);
    if m < |args| {
      assert ps[m] == ArgStep(args, m, opts, remote);
      ArgRowsStop(args, m, opts, remote);
    }
  }

  /** Rows that follow before + last and number |before| + k follow before and the first k of last. */
  lemma RowsFollowPrefix(rows: seq<CsvRow>, before: seq<Entry>, last: seq<Entry>, k: nat, opts: ExportOptions, remote: Remote)
    requires RowsFollow(rows, before + last, opts, remote) && |rows| == |before| + k && k <= |last|
    ensures RowsFollow(rows, before + last[..k], opts, remote)
  {
    assert (before + last)[..|before| + k] == before + last[..k];
  }

  /**
   * From spec i on, a run that is not done wrote the rows of every spec before the first
   * spec m that is not ArgOk, then those of spec m's parameters before its first one that
   * cannot be written, and nothing more.
   */
  lemma ArgsStopRows(args: seq<string>, i: nat, opts: ExportOptions, remote: Remote)
    requires i <= |args|
    ensures var p := ArgsFrom(args, i, opts, remote);
            var m := FirstFailing(args, i, opts, remote);
            m < |args| ==>
              var es := LoadedEntries(Load(args[m], opts.recursive, opts.oneLevel, remote.describe));
              var k := FirstUnwritable(es, 0, opts, remote);
              |p.rows| == |EntriesBetween(args, i, m, opts, remote)| + k &&
              RowsFollow(p.rows, EntriesBetween(args, i, m, opts, remote) + es[..k], opts, remote)
  {
    var ps := ArgParts(args, opts, remote);
    var ents := ArgEntries(args, opts, remote);
    var m := FirstFailing(args, i, opts, remote);
    ArgsChain(args, i, opts, remote);
    forall j | i <= j < |ps|
      ensures RowsFollow(ps[j].rows, ents[j], opts, remote) && (ps[j].status == Done ==> |ps[j].rows| == |ents[j]|)
    {
      ArgRows(args, j, opts, remote);
    }
    ChainRowsAtStop(ps, ents, i, opts, remote);
    FirstStopIsFirstFailing(args, i, opts, remote);
    if m < |args| {
      var before := ConcatFrom(ents, i, m);
      var k := FirstUnwritable(ents[m], 0, opts, remote);
      assert ps[m] == ArgStep(args, m, opts, remote);
      ArgRowsStop(args, m, opts, remote);
      RowsFollowPrefix(Chain(ps, i).rows, before, ents[m], k, opts, remote);
    }
  }

  /**
   * An export that does not complete stops at the first spec m that is not ArgOk, as that
   * spec does: a not-found exit, a KeyError, a listing exception, or, when it loaded, the
   * exception of its first parameter that cannot be written (its k-th). The file then
   * holds the header, the rows of specs 0 to m - 1, and the rows of spec m's first k
   * parameters, and nothing more.
   */
  lemma ExportStopsAtFirst(args: seq<string>, opts: ExportOptions, remote: Remote)
    ensures var run := ExportRun(args, opts, remote);
            var m := FirstFailing(args, 0, opts, remote);
            (run.status == Done <==> m == |args|) &&
            (m < |args| ==>
               var l := Load(args[m], opts.recursive, opts.oneLevel, remote.describe);
               var es := LoadedEntries(l);
               var k := FirstUnwritable(es, 0, opts, remote);
               run.status == ArgStep(args, m, opts, remote).status &&
               (l.Loaded? ==> k < |es| && run.status == EntryStep(es[k], opts, remote).status) &&
               |run.file| == 1 + |EntriesBetween(args, 0, m, opts, remote)| + k &&
               RowsFollow(run.file[1..], EntriesBetween(args, 0, m, opts, remote) + es[..k], opts, remote))
  {
    ArgsStopStatus(args, 0, opts, remote);
    ArgsStopRows(args, 0, opts, remote);
    var run := ExportRun(args, opts, remote);
    assert run.file[1..] == ArgsFrom(args, 0, opts, remote).rows;
  }

  /** The header is the first line of the file, and every later line is the row of the next listed parameter. */
  lemma ExportFile(args: seq<string>, opts: ExportOptions, remote: Remote)
    ensures var run := ExportRun(args, opts, remote);
            |run.file| >= 1 && run.file[0] == HeaderRow(FIELDNAMES) &&
            RowsFollow(run.file[1..], AllEntriesFrom(args, 0, opts, remote), opts, remote)
  {
    ArgsRows(args, 0, opts, remote);
    var run := ExportRun(args, opts, remote);
    assert run.file[1..] == ArgsFrom(args, 0, opts, remote).rows;
  }

  /** A run exits 0 exactly when every spec loads and every parameter can be written; it then writes one row for each. */
  lemma ExportCompletes(args: seq<string>, opts: ExportOptions, remote: Remote)
    ensures var run := ExportRun(args, opts, remote);
            (ExportExitCode(run.status) == 0 <==> forall j :: 0 <= j < |args| ==> ArgOk(args[j], opts, remote)) &&
            (run.status == Done ==> |run.file| == 1 + |AllEntriesFrom(args, 0, opts, remote)| && run.err == [])
  {
    ArgsDone(args, 0, opts, remote);
    ArgsRows(args, 0, opts, remote);
    ArgsErr(args, 0, opts, remote);
  }

  /**
   * A run stops at spec k as not found exactly when spec k matches nothing and every
   * earlier spec was exported in full; the ERROR line for spec k is then all it writes
   * to stderr, and the file holds the header and the rows of specs 0 to k - 1 only.
   */
  lemma ExportNotFound(args: seq<string>, k: nat, opts: ExportOptions, remote: Remote)
    ensures var run := ExportRun(args, opts, remote);
            (run.status == NotFoundExit(k) <==> NotFoundAt(args, 0, k, opts, remote)) &&
            (run.status == NotFoundExit(k) ==> run.err == [NotFoundLine(args[k])]) &&
            (run.status == NotFoundExit(k) ==>
               |run.file| == 1 + |EntriesBetween(args, 0, k, opts, remote)| &&
               RowsFollow(run.file[1..], EntriesBetween(args, 0, k, opts, remote), opts, remote))
  {
    ArgsNotFound(args, 0, k, opts, remote);
    ArgsErr(args, 0, opts, remote);
    ArgsNotFoundRows(args, 0, k, opts, remote);
    var run := ExportRun(args, opts, remote);
    assert run.file[1..] == ArgsFrom(args, 0, opts, remote).rows;
  }

  /** The stderr output of a run is the not-found line or nothing. */
  lemma ExportErrors(args: seq<string>, opts: ExportOptions, remote: Remote)
    ensures var run := ExportRun(args, opts, remote);
            run.err == [] || (run.status.NotFoundExit? && run.status.arg < |args| && run.err == [NotFoundLine(args[run.status.arg])])
  {
    ArgsErr(args, 0, opts, remote);
  }

  // ------------------------------------------------------------ the rows

  /**
   * The cells written for parameter e with fetched value v: its Name first, the value
   * in the Value column, empty metadata columns, a Policies cell that is either empty
   * or holds a truthy value, and every other column as listed.
   */
  lemma ExportedRowCells(e: Entry, v: string)
    requires "Name" in e.record && e.record["Name"] == e.name
    ensures var cells := Project(Exported(e, v));
            |cells| == 13 && cells[0] == e.name && cells[6] == Str(v) &&
            cells[3] == Missing && cells[4] == Missing && cells[9] == Missing &&
            (cells[11] == Missing || !Falsy(cells[11])) &&
            forall k :: 0 <= k < 13 && k !in {3, 4, 6, 9, 11} ==>
              cells[k] == if FIELDNAMES[k] in e.record then e.record[FIELDNAMES[k]] else Missing
  {
  }

  /** A data row as the exporter writes it. */
  predicate RowNormalised(row: CsvRow, opts: ExportOptions, remote: Remote) {
    row.DataRow? && |row.cells| == |FIELDNAMES| &&
    row.cells[3] == Missing && row.cells[4] == Missing && row.cells[9] == Missing &&
    (row.cells[11] == Missing || !Falsy(row.cells[11])) &&
    remote.get(row.cells[0], opts.withDecryption).Value? &&
    row.cells[6] == Str(remote.get(row.cells[0], opts.withDecryption).value)
  }

  lemma AllEntriesNamed(args: seq<string>, i: nat, opts: ExportOptions, remote: Remote)
    ensures EntriesNamed(AllEntriesFrom(args, i, opts, remote))
  {
    var ents := ArgEntries(args, opts, remote);
    forall j | i <= j < |ents|
      ensures EntriesNamed(ents[j])
    {
      if Load(args[j], opts.recursive, opts.oneLevel, remote.describe).Loaded? {
        LoadLoaded(args[j], opts.recursive, opts.oneLevel, remote.describe);
      }
    }
    ConcatNamed(ents, i, |args|);
  }

  lemma {:induction false} ConcatNamed(ents: seq<seq<Entry>>, i: nat, k: nat)
    requires forall j :: i <= j < |ents| ==> EntriesNamed(ents[j])
    ensures EntriesNamed(ConcatFrom(ents, i, k))
    decreases |ents| - i
  {
    if i < k && i < |ents| {
      ConcatNamed(ents, i + 1, k);
      var rest := ConcatFrom(ents, i + 1, k);
      assert forall t :: |ents[i]| <= t < |ents[i] + rest| ==> (ents[i] + rest)[t] == rest[t - |ents[i]|];
    }
  }

  /**
   * Every line after the header is a data row with the metadata columns empty, a
   * Policies column that is either empty or holds a truthy value, and in the Value
   * column the value get_parameter returns for the Name in its first column.
   */
  lemma ExportRowsNormalised(args: seq<string>, opts: ExportOptions, remote: Remote)
    ensures var file := ExportRun(args, opts, remote).file;
            forall k :: 1 <= k < |file| ==> RowNormalised(file[k], opts, remote)
  {
    var file := ExportRun(args, opts, remote).file;
    var es := AllEntriesFrom(args, 0, opts, remote);
    ExportFile(args, opts, remote);
    AllEntriesNamed(args, 0, opts, remote);
    forall k | 1 <= k < |file|
      ensures RowNormalised(file[k], opts, remote)
    {
      assert file[k] == file[1..][k - 1];
      var e := es[k - 1];
      ExportedRowCells(e, remote.get(e.name, opts.withDecryption).value);
    }
  }
}
