/** Incremental ingestion of CSV files: write a batch file, then the metadata that makes it
    count.  A run may stop between the two. */
module Ingestion {
  import opened Options

  datatype Row = Row(id: string, ts: Option<int>, mem: Option<real>)

  /** A file as it was read. */
  datatype File = File(name: string, rows: seq<Row>)

  datatype Metadata = Metadata(processed: seq<string>, nextBatchIdx: nat, totalRows: nat)

  const EMPTY_METADATA := Metadata([], 0, 0)

  /** Rows without a timestamp or a utilization are dropped. */
  function Filtered(rows: seq<Row>): (r: seq<Row>) {
    if rows == [] then []
    else (if rows[0].ts.Some? && rows[0].mem.Some? then [rows[0]] else []) + Filtered(rows[1..])
  }

  lemma {:induction false} FilteredConcat(a: seq<Row>, b: seq<Row>)
    ensures Filtered(a + b) == Filtered(a) + Filtered(b)
  {
    if a == [] {
      assert a + b == b;
    } else {
      assert (a + b)[1..] == a[1..] + b;
      FilteredConcat(a[1..], b);
    }
  }

  /** Every row with a timestamp and a utilization survives as often as it occurs, no other does. */
  lemma {:induction false} FilteredRows(rows: seq<Row>, r: Row)
    ensures multiset(Filtered(rows))[r] == if r.ts.Some? && r.mem.Some? then multiset(rows)[r] else 0
  {
    if rows != [] {
      FilteredRows(rows[1..], r);
      assert rows == [rows[0]] + rows[1..];
    }
  }

  /** How often a row occurs in a list of files. */
  function Occurrences(files: seq<File>, r: Row): nat {
    if files == [] then 0 else Occurrences(files[..|files| - 1], r) + multiset(files[|files| - 1].rows)[r]
  }

  lemma {:induction false} ContributionRows(files: seq<File>, r: Row)
    ensures Contribution(files)[r] == if r.ts.Some? && r.mem.Some? then Occurrences(files, r) else 0
  {
    if files != [] {
      ContributionRows(files[..|files| - 1], r);
      FilteredRows(files[|files| - 1].rows, r);
    }
  }

  /** The rows that a list of files contributes to the dataset. */
  function Contribution(files: seq<File>): multiset<Row> {
    if files == [] then multiset{}
    else Contribution(files[..|files| - 1]) + multiset(Filtered(files[|files| - 1].rows))
  }

  function RowCount(files: seq<File>): nat {
    if files == [] then 0 else RowCount(files[..|files| - 1]) + |files[|files| - 1].rows|
  }

  function Names(files: seq<File>): (ns: seq<string>)
    ensures |ns| == |files| && forall i :: 0 <= i < |files| ==> ns[i] == files[i].name
  {
    seq(|files|, i requires 0 <= i < |files| => files[i].name)
  }

  /** All files of a history of batches, in the order of ingestion. */
  function AllFiles(history: seq<seq<File>>): seq<File> {
    if history == [] then [] else AllFiles(history[..|history| - 1]) + history[|history| - 1]
  }

  ghost predicate NoDuplicates(s: seq<string>) {
    forall i, j :: 0 <= i < j < |s| ==> s[i] != s[j]
  }

  /** The names of the listing that are not yet processed, in order. */
  function Unprocessed(listing: seq<string>, processed: set<string>): (s: seq<string>)
    ensures forall f :: f in s <==> f in listing && f !in processed
  {
    if listing == [] then []
    else
      var rest := Unprocessed(listing[1..], processed);
      if listing[0] in processed then rest else [listing[0]] + rest
  }

  /** The files a run takes on: all new ones, or the first few. */
  function Selected(listing: seq<string>, processed: set<string>, nFiles: Option<int>): (s: seq<string>)
    ensures s <= Unprocessed(listing, processed)
  {
    var unseen := Unprocessed(listing, processed);
    if nFiles.Some? && 0 < nFiles.value < |unseen| then unseen[..nFiles.value] else unseen
  }

  /** A limited run takes on the files that come first in the listing: whatever precedes a
      selected file is selected too, unless it was processed before. */
  lemma SelectedComeFirst(listing: seq<string>, processed: set<string>, nFiles: Option<int>,
                          i: nat, j: nat)
    requires NoDuplicates(listing) && i < j < |listing| && listing[i] !in processed
    requires listing[j] in Selected(listing, processed, nFiles)
    ensures listing[i] in Selected(listing, processed, nFiles)
    ensures |Selected(listing, processed, nFiles)| == |Unprocessed(listing, processed)|
            || Some(|Selected(listing, processed, nFiles)|) == nFiles
  {
    var unseen, chosen := Unprocessed(listing, processed), Selected(listing, processed, nFiles);
    assert chosen == unseen[..|chosen|];
    FirstUnprocessed(listing, processed, |chosen|, i, j);
  }

  /** A positive limit is the number of files taken, if there are as many; no other limit limits. */
  lemma SelectedCount(listing: seq<string>, processed: set<string>, nFiles: Option<int>)
    ensures var all, taken := |Unprocessed(listing, processed)|, |Selected(listing, processed, nFiles)|;
            taken == if nFiles.Some? && 0 < nFiles.value <= all then nFiles.value else all
  {
  }

  lemma {:induction false} FirstUnprocessed(listing: seq<string>, processed: set<string>, k: nat, i: nat, j: nat)
    requires NoDuplicates(listing) && i < j < |listing| && listing[i] !in processed
    requires k <= |Unprocessed(listing, processed)| && listing[j] in Unprocessed(listing, processed)[..k]
    ensures listing[i] in Unprocessed(listing, processed)[..k]
  {
    var rest := Unprocessed(listing[1..], processed);
    if listing[0] in processed {
      FirstUnprocessed(listing[1..], processed, k, i - 1, j - 1);
    } else {
      assert Unprocessed(listing, processed)[..k] == [listing[0]] + rest[..k - 1];
      if i > 0 {
        FirstUnprocessed(listing[1..], processed, k - 1, i - 1, j - 1);
      }
    }
  }

  /** The files read so far, in order of completion: every selected file that is no longer
      pending and could be read, once, with its rows. */
  ghost predicate ReadSoFar(files: seq<File>, selected: seq<string>, pending: set<string>,
                            contents: map<string, Option<seq<Row>>>)
  {
    && NoDuplicates(Names(files))
    && (forall i :: 0 <= i < |files| ==>
          var f := files[i];
          f.name in selected && f.name !in pending && f.name in contents && contents[f.name] == Some(f.rows))
    && forall n :: n in selected && n !in pending && n in contents && contents[n].Some? ==> n in Names(files)
  }

  /** What reading all selected files brought. */
  ghost predicate ReadsOf(files: seq<File>, selected: seq<string>, contents: map<string, Option<seq<Row>>>) {
    ReadSoFar(files, selected, {}, contents)
  }

  lemma ReadOne(files: seq<File>, selected: seq<string>, pending: set<string>,
                contents: map<string, Option<seq<Row>>>, n: string)
    requires ReadSoFar(files, selected, pending, contents) && n in pending && n in selected && n in contents
    ensures ReadSoFar(if contents[n].Some? then files + [File(n, contents[n].value)] else files,
                      selected, pending - {n}, contents)
  {
    forall known | known in Names(files)
      ensures known != n
    {
      var i :| 0 <= i < |files| && Names(files)[i] == known;
    }
    if contents[n].Some? {
      var f := File(n, contents[n].value);
      assert Names(files + [f]) == Names(files) + [n];
    }
  }

  /** The rows of a list of files, one file after the other. */
  function AllRows(files: seq<File>): seq<Row> {
    if files == [] then [] else AllRows(files[..|files| - 1]) + files[|files| - 1].rows
  }

  lemma AllRowsExtend(files: seq<File>, f: File)
    ensures AllRows(files + [f]) == AllRows(files) + f.rows && Names(files + [f]) == Names(files) + [f.name]
  {
    assert (files + [f])[..|files|] == files;
  }

  lemma {:induction false} AllRowsCounted(files: seq<File>)
    ensures multiset(Filtered(AllRows(files))) == Contribution(files) && |AllRows(files)| == RowCount(files)
  {
    if files != [] {
      var init := files[..|files| - 1];
      AllRowsCounted(init);
      FilteredConcat(AllRows(init), files[|files| - 1].rows);
    }
  }

  /** The files of these names, as they are in the directory. */
  function FilesNamed(names: seq<string>, contents: map<string, Option<seq<Row>>>): seq<File> {
    if names == [] then []
    else
      var n := names[|names| - 1];
      FilesNamed(names[..|names| - 1], contents) +
      [File(n, if n in contents && contents[n].Some? then contents[n].value else [])]
  }

  lemma FilesNamedExtend(names: seq<string>, n: string, contents: map<string, Option<seq<Row>>>)
    requires n in contents && contents[n].Some?
    ensures FilesNamed(names + [n], contents) == FilesNamed(names, contents) + [File(n, contents[n].value)]
  {
    assert (names + [n])[..|names|] == names;
  }

  /** Read the selected files concurrently; their results arrive in any order. */
  method LoadCsvFiles(listing: seq<string>, contents: map<string, Option<seq<Row>>>, nFiles: Option<int>,
                      processed: set<string>)
    returns (combined: Option<seq<Row>>, names: seq<string>)
    requires forall n :: n in listing ==> n in contents
    ensures var files := FilesNamed(names, contents);
            && Names(files) == names && ReadsOf(files, Selected(listing, processed, nFiles), contents)
            && combined == if names == [] then None else Some(AllRows(files))
  {
    hide ReadSoFar, AllRows, FilesNamed;
    var csvFiles := Selected(listing, processed, nFiles);
    var pending := set n | n in csvFiles;
    var rows: seq<Row> := [];
    names := [];
    NothingRead(csvFiles, pending, contents);
    while pending != {}
      invariant forall n :: n in pending ==> n in csvFiles
      invariant ReadSoFar(FilesNamed(names, contents), csvFiles, pending, contents)
      invariant names == Names(FilesNamed(names, contents)) && rows == AllRows(FilesNamed(names, contents))
      decreases |pending|
    {
      var n :| n in pending;
      var df := contents[n];
      ReadOne(FilesNamed(names, contents), csvFiles, pending, contents, n);
      pending := pending - {n};
      if df.Some? {
        AllRowsExtend(FilesNamed(names, contents), File(n, df.value));
        FilesNamedExtend(names, n, contents);
        rows := rows + df.value;
        names := names + [n];
      }
    }
    combined := if names == [] then None else Some(rows);
  }

  lemma NothingRead(selected: seq<string>, pending: set<string>, contents: map<string, Option<seq<Row>>>)
    requires forall n :: n in selected ==> n in pending
    ensures FilesNamed([], contents) == [] && Names([]) == [] && AllRows([]) == []
    ensures ReadSoFar([], selected, pending, contents)
  {
  }

  /** The names of some list of files that are already known. */
  function Known(names: seq<string>, known: set<string>): (r: seq<string>)
    ensures r == [] <==> forall n :: n in names ==> n !in known
  {
    if names == [] then []
    else
      var rest := Known(names[1..], known);
      assert forall n :: n in names <==> n == names[0] || n in names[1..];
      if names[0] in known then [names[0]] + rest else rest
  }

  /** The duplicate check never fires: what was read had been selected, hence was new. */
  lemma NoneKnown(files: seq<File>, known: set<string>, contents: map<string, Option<seq<Row>>>,
                  listing: seq<string>, nFiles: Option<int>)
    requires ReadsOf(files, Selected(listing, known, nFiles), contents)
    ensures Known(Names(files), known) == []
  {
    forall n | n in Names(files)
      ensures n !in known
    {
      var i :| 0 <= i < |files| && Names(files)[i] == n;
      assert n in Selected(listing, known, nFiles);
      assert n in Unprocessed(listing, known);
    }
  }

  // ----- Committed states -----

  ghost function ProcessedSet(history: seq<seq<File>>): set<string> {
    set f | f in Names(AllFiles(history))
  }

  /** The metadata describes a history of committed batches in which no file occurs twice. */
  ghost predicate Recorded(m: Metadata, history: seq<seq<File>>) {
    && m.nextBatchIdx == |history|
    && m.processed == Names(AllFiles(history)) && NoDuplicates(m.processed)
    && m.totalRows == RowCount(AllFiles(history))
  }

  /** Batch files 0 .. next_batch_idx-1 hold what was committed. */
  ghost predicate Intact(parts: map<nat, multiset<Row>>, history: seq<seq<File>>) {
    forall k :: 0 <= k < |history| ==> k in parts && parts[k] == Contribution(history[k])
  }

  /** No batch file lies beyond the one that the next run will write. */
  ghost predicate Tidy(parts: map<nat, multiset<Row>>, history: seq<seq<File>>) {
    forall k :: k in parts ==> k <= |history|
  }

  ghost predicate Consistent(m: Metadata, parts: map<nat, multiset<Row>>, history: seq<seq<File>>) {
    Recorded(m, history) && Intact(parts, history) && Tidy(parts, history)
  }

  /** Writing the next batch file, whatever it holds, disturbs nothing that is committed. */
  lemma BatchFileUncommitted(parts: map<nat, multiset<Row>>, history: seq<seq<File>>, rows: multiset<Row>)
    ensures var after := parts[|history| := rows];
            && (Intact(after, history) <==> Intact(parts, history))
            && (Tidy(after, history) <==> Tidy(parts, history))
  {
    var after := parts[|history| := rows];
    assert forall k :: k != |history| ==> (k in after <==> k in parts) && (k in parts ==> after[k] == parts[k]);
  }

  /** Writing the metadata makes the batch file count. */
  lemma CommitRecords(m: Metadata, history: seq<seq<File>>, files: seq<File>)
    requires Recorded(m, history)
    requires NoDuplicates(Names(files)) && Known(Names(files), ProcessedSet(history)) == []
    ensures Recorded(Metadata(m.processed + Names(files), m.nextBatchIdx + 1, m.totalRows + |AllRows(files)|),
                     history + [files])
  {
    hide RowCount, AllFiles, AllRows, Names, NoDuplicates, Known;
    HistoryGrows(history, files);
    AllRowsCounted(files);
    FreshNames(m.processed, Names(files));
  }

  /** The batch files are as intact as they were before, and no untidier. */
  lemma CommitKeepsIntact(parts: map<nat, multiset<Row>>, history: seq<seq<File>>, files: seq<File>)
    ensures var after := parts[|history| := Contribution(files)];
            && (Intact(after, history + [files]) <==> Intact(parts, history))
            && (Tidy(parts, history) ==> Tidy(after, history + [files]) && |history| + 1 !in after)
  {
    hide Contribution;
    var after, next := parts[|history| := Contribution(files)], history + [files];
    forall k | 0 <= k < |history|
      ensures next[k] == history[k] && (k in after <==> k in parts) && (k in parts ==> after[k] == parts[k])
    {
    }
    assert next[|history|] == files;
    if Intact(after, next) {
      forall k | 0 <= k < |history|
        ensures k in parts && parts[k] == Contribution(history[k])
      {
        assert k in after && after[k] == Contribution(next[k]);
      }
    }
  }

  lemma HistoryGrows(history: seq<seq<File>>, files: seq<File>)
    ensures AllFiles(history + [files]) == AllFiles(history) + files
    ensures Names(AllFiles(history) + files) == Names(AllFiles(history)) + Names(files)
    ensures RowCount(AllFiles(history) + files) == RowCount(AllFiles(history)) + RowCount(files)
  {
    assert (history + [files])[..|history|] == history;
    RowCountConcat(AllFiles(history), files);
  }

  lemma {:induction false} RowCountConcat(a: seq<File>, b: seq<File>)
    ensures RowCount(a + b) == RowCount(a) + RowCount(b)
    decreases |b|
  {
    if b == [] {
      assert a + b == a;
    } else {
      var k := |b| - 1;
      assert (a + b)[..|a + b| - 1] == a + b[..k];
      RowCountConcat(a, b[..k]);
    }
  }

  lemma FreshNames(a: seq<string>, b: seq<string>)
    requires NoDuplicates(a) && NoDuplicates(b) && Known(b, set n | n in a) == []
    ensures NoDuplicates(a + b)
  {
    forall i, j | 0 <= i < j < |a + b|
      ensures (a + b)[i] != (a + b)[j]
    {
      if i < |a| <= j {
        assert a[i] in a && b[j - |a|] in b;
      }
    }
  }

  /** Where a run dies, if it does: while --reset removes the directory, with these batch files
      and perhaps the metadata gone; after that; before it writes the batch file; while it does,
      leaving some rows of it; or before it writes the metadata. */
  datatype Crash =
    | NoCrash
    | DuringRemoval(gone: set<nat>, metaGone: bool) | AfterRemoval
    | BeforeBatch | DuringBatch(left: multiset<Row>) | AfterBatch

  datatype Outcome = NothingNew | NoData | Committed | Crashed

  /** One run over an input directory: its listing, what can be read, the options, and where the
      run dies. */
  datatype Run = Run(listing: seq<string>, contents: map<string, Option<seq<Row>>>, nFiles: Option<int>,
                     reset: bool, crash: Crash) {
    predicate Valid() {
      forall n :: n in listing ==> n in contents
    }

    /** It dies while it removes the directory. */
    predicate Torn() {
      reset && crash.DuringRemoval?
    }
  }

  /** The metadata file, the batch files, and the files of every committed batch, as they were
      read. */
  datatype State = State(meta: Option<Metadata>, parts: map<nat, multiset<Row>>, history: seq<seq<File>>) {
    /** The metadata on disk, or the default. */
    function Loaded(): Metadata {
      if meta.Some? then meta.value else EMPTY_METADATA
    }

    /** What every state satisfies, whatever was interrupted before. */
    ghost predicate Valid() {
      Recorded(Loaded(), history)
    }

    ghost predicate Whole() {
      Consistent(Loaded(), parts, history)
    }

    /** A batch file that no metadata vouches for. */
    predicate HasUncommitted() {
      |history| in parts
    }
  }

  const EMPTY_STATE := State(None, map[], [])

  /** What an appending run makes of a state. */
  ghost predicate Appended(s: State, r: Run, s': State, outcome: Outcome, files: seq<File>) {
    && ReadsOf(files, Selected(r.listing, ProcessedSet(s.history), r.nFiles), r.contents)
    && outcome == (if files == [] then (if s.parts == map[] then NoData else NothingNew)
                   else if r.crash.BeforeBatch? || r.crash.DuringBatch? || r.crash.AfterBatch? then Crashed
                   else Committed)
    && s'.history == s.history + (if outcome == Committed then [files] else [])
    && s'.parts == (if outcome == Committed || (outcome == Crashed && r.crash.AfterBatch?)
                    then s.parts[|s.history| := Contribution(files)]
                    else if outcome == Crashed && r.crash.DuringBatch? then s.parts[|s.history| := r.crash.left]
                    else s.parts)
    && (outcome != Committed ==> s'.meta == s.meta)
    && s'.Valid()
  }

  /** What any run makes of a state. */
  ghost predicate Ingested(s: State, r: Run, s': State, outcome: Outcome, files: seq<File>) {
    if r.Torn() then
      outcome == Crashed && s' == (if r.crash.metaGone then State(None, s.parts - r.crash.gone, [])
                                   else s.(parts := s.parts - r.crash.gone))
    else if r.reset && r.crash == AfterRemoval then
      outcome == Crashed && s' == EMPTY_STATE
    else
      Appended(if r.reset then State(Some(EMPTY_METADATA), map[], []) else s, r, s', outcome, files)
  }

  class Dataset {
    var meta: Option<Metadata>
    var parts: map<nat, multiset<Row>>
    ghost var history: seq<seq<File>>

    ghost function Now(): State
      reads this
    {
      State(meta, parts, history)
    }

    constructor ()
      ensures Now() == EMPTY_STATE && Now().Valid()
    {
      meta, parts, history := None, map[], [];
      new;
      NothingRecorded();
    }

    method SaveMetadata(m: Metadata)
      modifies this`meta
      ensures meta == Some(m)
    {
      meta := Some(m);
    }

    method SaveBatch(rows: seq<Row>, idx: nat)
      modifies this`parts
      ensures parts == old(parts)[idx := multiset(Filtered(rows))]
    {
      parts := parts[idx := multiset(Filtered(rows))];
    }

    /** One incremental run. */
    method Ingest(run: Run) returns (outcome: Outcome, ghost files: seq<File>)
      requires Now().Valid() && run.Valid()
      modifies this
      ensures Now().Valid() && Ingested(old(Now()), run, Now(), outcome, files)
    {
      hide Recorded, Appended;
      files := [];
      if run.reset {
        NothingRecorded();
        if run.crash.DuringRemoval? {
          meta := if run.crash.metaGone then None else meta;
          parts := parts - run.crash.gone;
          history := if run.crash.metaGone then [] else history;
          return Crashed, files;
        }
        meta, parts, history := None, map[], [];
        if run.crash == AfterRemoval {
          return Crashed, files;
        }
        SaveMetadata(EMPTY_METADATA);
      }
      outcome, files := Append(run);
    }

    /** The part of a run after the reset, if any. */
    method Append(run: Run) returns (outcome: Outcome, ghost files: seq<File>)
      requires Now().Valid() && run.Valid()
      modifies this
      ensures Now().Valid() && Appended(old(Now()), run, Now(), outcome, files)
    {
      hide Recorded, ReadSoFar, Contribution, AllFiles, AllRows, Selected, Known, RowCount, Filtered;
      hide Names, NoDuplicates, FilesNamed, Unprocessed, ProcessedSet, ReadsOf;
      ghost var start := Now();
      var metadata := if meta.Some? then meta.value else EMPTY_METADATA;
      var processedSet := set f | f in metadata.processed;
      MetadataSays(metadata, history);
      var newDf, newlyProcessed;
      newDf, newlyProcessed := LoadCsvFiles(run.listing, run.contents, run.nFiles, processedSet);
      files := FilesNamed(newlyProcessed, run.contents);
      assert newlyProcessed == [] <==> files == [];
      if newDf.None? {
        outcome := if parts == map[] then NoData else NothingNew;
        return;
      }
      // the duplicate check, which never finds any
      var existingSet := set f | f in metadata.processed;
      var dupes := Known(newlyProcessed, existingSet);
      NoneKnown(files, existingSet, run.contents, run.listing, run.nFiles);
      if dupes != [] {
        newlyProcessed := Unprocessed(newlyProcessed, existingSet);
      }
      if run.crash.BeforeBatch? {
        return Crashed, files;
      }
      var batchIdx := metadata.nextBatchIdx;
      if run.crash.DuringBatch? {
        parts := parts[batchIdx := run.crash.left];
        return Crashed, files;
      }
      AllRowsCounted(files);
      CommitRecords(metadata, history, files) by {
        ReadsDistinct(files, Selected(run.listing, processedSet, run.nFiles), run.contents);
      }
      SaveBatch(newDf.value, batchIdx);
      if run.crash.AfterBatch? {
        return Crashed, files;
      }
      metadata := metadata.(processed := metadata.processed + newlyProcessed);
      metadata := metadata.(nextBatchIdx := batchIdx + 1);
      metadata := metadata.(totalRows := metadata.totalRows + |newDf.value|);
      SaveMetadata(metadata);
      history := history + [files];
      outcome := Committed;
    }
  }

  /** Whatever became of an appending run, the committed batch files are as intact as they were
      before; a committing run overwrites an uncommitted batch file. */
  lemma AppendedKeeps(s: State, r: Run, s': State, outcome: Outcome, files: seq<File>)
    requires Appended(s, r, s', outcome, files)
    ensures Intact(s'.parts, s'.history) <==> Intact(s.parts, s.history)
    ensures Tidy(s.parts, s.history) ==>
              Tidy(s'.parts, s'.history) && (outcome == Committed ==> !s'.HasUncommitted())
  {
    hide Intact, Tidy, ReadsOf, Selected, ProcessedSet, Contribution;
    assert s.history + [] == s.history;
    CommitKeepsIntact(s.parts, s.history, files);
    BatchFileUncommitted(s.parts, s.history, Contribution(files));
    if r.crash.DuringBatch? {
      BatchFileUncommitted(s.parts, s.history, r.crash.left);
    }
  }

  lemma NothingRecorded()
    ensures Recorded(EMPTY_METADATA, []) && Intact(map[], []) && Tidy(map[], [])
    ensures forall parts: map<nat, multiset<Row>> :: Intact(parts, [])
  {
  }

  lemma MetadataSays(m: Metadata, history: seq<seq<File>>)
    requires Recorded(m, history)
    ensures m.nextBatchIdx == |history| && (set f | f in m.processed) == ProcessedSet(history)
  {
  }

  /** A reset that dies half-way leaves a consistent dataset if and only if the metadata outlived
      no committed batch file, and if it is gone, no batch file beyond the first outlived it. */
  lemma TornRemovalIff(m: Metadata, parts: map<nat, multiset<Row>>, history: seq<seq<File>>,
                       gone: set<nat>, metaGone: bool)
    requires Consistent(m, parts, history)
    ensures var (m', history') := if metaGone then (EMPTY_METADATA, []) else (m, history);
            && Recorded(m', history')
            && (Intact(parts - gone, history') <==> metaGone || forall k :: 0 <= k < |history| ==> k !in gone)
            && (Tidy(parts - gone, history') <==> !metaGone || forall k :: k in parts && k !in gone ==> k == 0)
            && (Consistent(m', parts - gone, history') <==>
                  if metaGone then forall k :: k in parts && k !in gone ==> k == 0
                  else forall k :: 0 <= k < |history| ==> k !in gone)
  {
    NothingRecorded();
    if !metaGone && Intact(parts - gone, history) {
      forall k | 0 <= k < |history|
        ensures k !in gone
      {
        assert k in parts - gone;
      }
    }
    if metaGone && Tidy(parts - gone, []) {
      forall k | k in parts && k !in gone
        ensures k == 0
      {
        assert k in parts - gone;
      }
    }
  }

  lemma ReadsDistinct(files: seq<File>, selected: seq<string>, contents: map<string, Option<seq<Row>>>)
    requires ReadsOf(files, selected, contents)
    ensures NoDuplicates(Names(files))
  {
  }

  // ----- What the dataset holds -----

  lemma {:induction false} ContributionConcat(a: seq<File>, b: seq<File>)
    ensures Contribution(a + b) == Contribution(a) + Contribution(b)
    decreases |b|
  {
    if b == [] {
      assert a + b == a;
    } else {
      var k := |b| - 1;
      assert (a + b)[..|a + b| - 1] == a + b[..k];
      ContributionConcat(a, b[..k]);
    }
  }

  /** All rows of the batch files below index n. */
  ghost function RowsBelow(parts: map<nat, multiset<Row>>, n: nat): multiset<Row> {
    if n == 0 then multiset{} else RowsBelow(parts, n - 1) + if n - 1 in parts then parts[n - 1] else multiset{}
  }

  /** The committed batch files hold every complete row as often as the processed files do, and
      no incomplete one. */
  lemma {:induction false} ExactlyOnce(parts: map<nat, multiset<Row>>, history: seq<seq<File>>)
    requires Intact(parts, history)
    ensures RowsBelow(parts, |history|) == Contribution(AllFiles(history))
    ensures forall r :: RowsBelow(parts, |history|)[r] ==
                        if r.ts.Some? && r.mem.Some? then Occurrences(AllFiles(history), r) else 0
    decreases |history|
  {
    forall r
      ensures Contribution(AllFiles(history))[r] ==
              if r.ts.Some? && r.mem.Some? then Occurrences(AllFiles(history), r) else 0
    {
      ContributionRows(AllFiles(history), r);
    }
    if history != [] {
      var init := history[..|history| - 1];
      ExactlyOnce(parts, init);
      ContributionConcat(AllFiles(init), history[|history| - 1]);
    }
  }

  /** Batch files at or above index k are without rows. */
  ghost predicate EmptyFrom(parts: map<nat, multiset<Row>>, k: nat) {
    forall i :: i in parts && i >= k ==> parts[i] == multiset{}
  }

  lemma {:induction false} NothingAbove(parts: map<nat, multiset<Row>>, k: nat, n: nat)
    requires k <= n && forall i :: i in parts ==> i < n
    ensures RowsBelow(parts, n) == RowsBelow(parts, k) <==> EmptyFrom(parts, k)
    ensures |RowsBelow(parts, n)| >= |RowsBelow(parts, k)|
    decreases n - k
  {
    if k < n {
      var rows := if k in parts then parts[k] else multiset{};
      NothingAbove(parts, k + 1, n);
      assert |RowsBelow(parts, k + 1)| == |RowsBelow(parts, k)| + |rows|;
      if rows == multiset{} {
        assert EmptyFrom(parts, k) <==> EmptyFrom(parts, k + 1);
      } else {
        assert !EmptyFrom(parts, k);
      }
    }
  }

  /** An analysis reads every batch file of the directory, and n is above all of them.  It sees
      every processed row exactly once if and only if no rows lie at or beyond the index of the
      next batch, left behind by a run that died. */
  lemma AnalysisExactIff(parts: map<nat, multiset<Row>>, history: seq<seq<File>>, n: nat)
    requires Intact(parts, history) && |history| <= n && forall k :: k in parts ==> k < n
    ensures RowsBelow(parts, n) == Contribution(AllFiles(history)) <==> EmptyFrom(parts, |history|)
  {
    ExactlyOnce(parts, history);
    NothingAbove(parts, |history|, n);
  }

  /** A run without a limit takes in every file it can read that was not processed before,
      and no other. */
  lemma CatchesUp(listing: seq<string>, before: set<string>, contents: map<string, Option<seq<Row>>>,
                  files: seq<File>)
    requires (forall n :: n in listing ==> n in contents)
             && ReadsOf(files, Selected(listing, before, None), contents)
    ensures forall n :: n in Names(files) <==> n in listing && n !in before && contents[n].Some?
  {
    forall n | n in Names(files)
      ensures n in listing && n !in before && contents[n].Some?
    {
      var i :| 0 <= i < |files| && Names(files)[i] == n;
      assert files[i].name in Selected(listing, before, None);
    }
    forall n | n in listing && n !in before && contents[n].Some?
      ensures n in Names(files)
    {
      assert n in Selected(listing, before, None);
    }
  }

  /** How many new files a run takes on. */
  function Taken(unseen: nat, nFiles: Option<int>): (n: nat)
    ensures n <= unseen
  {
    if nFiles.Some? && 0 < nFiles.value < unseen then nFiles.value else unseen
  }

  /** A run has something to commit if and only if one of the first new files, as many as the
      limit allows, can be read.  A run that commits nothing changes nothing; so unreadable files
      at the head of the list, as many as the limit, stop ingestion for good. */
  lemma HasDataIff(listing: seq<string>, before: set<string>, contents: map<string, Option<seq<Row>>>,
                   nFiles: Option<int>, files: seq<File>)
    requires ReadsOf(files, Selected(listing, before, nFiles), contents)
    ensures var unseen := Unprocessed(listing, before);
            files != [] <==> exists i :: 0 <= i < Taken(|unseen|, nFiles) && Readable(contents, unseen[i])
  {
    hide Unprocessed, Selected, Taken, ReadsOf, Readable;
    var unseen := Unprocessed(listing, before);
    if files == [] {
      forall i | 0 <= i < Taken(|unseen|, nFiles)
        ensures !Readable(contents, unseen[i])
      {
        TakenIsRead(listing, before, contents, nFiles, files, i);
      }
    } else {
      var i := SomeTaken(listing, before, contents, nFiles, files);
    }
  }

  lemma TakenIsRead(listing: seq<string>, before: set<string>, contents: map<string, Option<seq<Row>>>,
                    nFiles: Option<int>, files: seq<File>, i: nat)
    requires ReadsOf(files, Selected(listing, before, nFiles), contents)
    requires i < Taken(|Unprocessed(listing, before)|, nFiles)
    ensures Readable(contents, Unprocessed(listing, before)[i]) ==> files != []
  {
    var unseen, selected := Unprocessed(listing, before), Selected(listing, before, nFiles);
    assert selected[i] == unseen[i] && selected[i] in selected;
    assert files == [] ==> Names(files) == [];
  }

  lemma SomeTaken(listing: seq<string>, before: set<string>, contents: map<string, Option<seq<Row>>>,
                  nFiles: Option<int>, files: seq<File>) returns (i: nat)
    requires ReadsOf(files, Selected(listing, before, nFiles), contents) && files != []
    ensures i < Taken(|Unprocessed(listing, before)|, nFiles)
    ensures Readable(contents, Unprocessed(listing, before)[i])
  {
    var selected := Selected(listing, before, nFiles);
    var n := files[0].name;
    assert n in selected && Readable(contents, n);
    i :| 0 <= i < |selected| && selected[i] == n;
  }

  predicate Readable(contents: map<string, Option<seq<Row>>>, n: string) {
    n in contents && contents[n].Some?
  }

  /** The batch of a dead run does get analysed: an unlimited run dies before it writes the
      metadata, and the next one, limited to one file, meets the unreadable file first. */
  method DeadBatchAnalysed(bad: string, good: string, rows: seq<Row>) returns (d: Dataset, outcome: Outcome)
    requires bad != good && Filtered(rows) != []
    ensures outcome == NothingNew && d.Now().HasUncommitted() && d.Now().Whole()
    ensures RowsBelow(d.parts, |d.history| + 1) != Contribution(AllFiles(d.history))
  {
    hide Filtered, Recorded, Intact, Tidy, ReadsOf, Selected, Contribution, AllFiles;
    var listing, contents := [bad, good], map[bad := None, good := Some(rows)];
    var first, second := Run(listing, contents, None, false, AfterBatch), Run(listing, contents, Some(1), false, NoCrash);
    d := new Dataset();
    NothingRecorded();
    ghost var files;
    outcome, files := d.Ingest(first);
    GoodOnly(bad, good, rows, files);
    AppendedKeeps(EMPTY_STATE, first, d.Now(), outcome, files);
    ghost var between := d.Now();
    outcome, files := d.Ingest(second);
    NothingGood(bad, good, rows, files);
    AppendedKeeps(between, second, d.Now(), outcome, files);
    AnalysisExactIff(d.parts, d.history, 1);
  }

  lemma BothUnseen(bad: string, good: string, before: set<string>)
    requires before == {}
    ensures Unprocessed([bad, good], before) == [bad, good]
  {
    assert Unprocessed([], before) == [];
    assert [good][1..] == [] && Unprocessed([good], before) == [good];
    assert [bad, good][1..] == [good];
  }

  lemma GoodOnly(bad: string, good: string, rows: seq<Row>, files: seq<File>)
    requires bad != good
    requires ReadsOf(files, Selected([bad, good], ProcessedSet([]), None), map[bad := None, good := Some(rows)])
    ensures files != [] && Contribution(files) == multiset(Filtered(rows))
  {
    var listing, contents := [bad, good], map[bad := None, good := Some(rows)];
    BothUnseen(bad, good, ProcessedSet([]));
    assert good in listing;
    assert good in Names(files);
    assert forall i :: 0 <= i < |files| ==> files[i] == File(good, rows) && Names(files)[i] == good;
    if |files| > 1 {
      FirstTwoDiffer(Names(files));
    }
    assert files == [File(good, rows)];
    assert Contribution([]) == multiset{} && files[..0] == [];
  }

  lemma FirstTwoDiffer(names: seq<string>)
    requires NoDuplicates(names) && |names| > 1
    ensures names[0] != names[1]
  {
  }

  lemma NothingGood(bad: string, good: string, rows: seq<Row>, files: seq<File>)
    requires bad != good
    requires ReadsOf(files, Selected([bad, good], ProcessedSet([]), Some(1)), map[bad := None, good := Some(rows)])
    ensures files == []
  {
    BothUnseen(bad, good, ProcessedSet([]));
    HasDataIff([bad, good], ProcessedSet([]), map[bad := None, good := Some(rows)], Some(1), files);
  }
}
