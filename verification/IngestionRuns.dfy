/** Sequences of ingestion runs: what a dataset holds after any number of runs, dead or not, and
    which files limited runs take in in the end. */
module IngestionRuns {
  import opened Options
  import opened Ingestion

  ghost predicate RunStep(s: State, r: Run, s': State) {
    exists outcome, files :: Ingested(s, r, s', outcome, files)
  }

  /** The states that a sequence of runs goes through, from nothing. */
  ghost predicate Reaches(runs: seq<Run>, states: seq<State>) {
    && |states| == |runs| + 1 && states[0] == EMPTY_STATE
    && forall k :: 0 <= k < |runs| ==> RunStep(states[k], runs[k], states[k + 1])
  }

  // ----- What can go wrong -----

  /** The metadata file is removed. */
  predicate EndsMetadata(r: Run) {
    r.reset && !(r.Torn() && !r.crash.metaGone)
  }

  /** A reset dies when a committed batch file is gone and the metadata file is not. */
  ghost predicate LosesBatch(s: State, r: Run) {
    r.Torn() && !r.crash.metaGone && exists i :: 0 <= i < |s.history| && i in r.crash.gone
  }

  /** A reset dies when the metadata file is gone and a batch file beyond the first is not. */
  ghost predicate LeavesStray(s: State, r: Run) {
    r.Torn() && r.crash.metaGone && exists i :: i in s.parts && i !in r.crash.gone && i > 0
  }

  /** A committed batch file was lost, and the metadata were not removed since. */
  ghost predicate Damaged(runs: seq<Run>, states: seq<State>)
    requires |states| == |runs| + 1
  {
    exists k :: 0 <= k < |runs| && LosesBatch(states[k], runs[k])
                && forall j :: k < j < |runs| ==> !EndsMetadata(runs[j])
  }

  /** A stray batch file was left, and the metadata were not removed since. */
  ghost predicate Littered(runs: seq<Run>, states: seq<State>)
    requires |states| == |runs| + 1
  {
    exists k :: 0 <= k < |runs| && LeavesStray(states[k], runs[k])
                && forall j :: k < j < |runs| ==> !EndsMetadata(runs[j])
  }

  lemma DamagedUnfolds(runs: seq<Run>, states: seq<State>)
    requires |states| == |runs| + 1 && runs != []
    ensures var n := |runs| - 1;
            Damaged(runs, states) <==>
            LosesBatch(states[n], runs[n]) || (Damaged(runs[..n], states[..n + 1]) && !EndsMetadata(runs[n]))
  {
    hide LosesBatch, EndsMetadata;
    var n := |runs| - 1;
    var before, reached := runs[..n], states[..n + 1];
    if Damaged(before, reached) && !EndsMetadata(runs[n]) {
      var k :| 0 <= k < n && LosesBatch(reached[k], before[k]) && forall j :: k < j < n ==> !EndsMetadata(before[j]);
      assert LosesBatch(states[k], runs[k]);
      assert forall j :: k < j < n ==> runs[j] == before[j];
    }
    if Damaged(runs, states) && !LosesBatch(states[n], runs[n]) {
      var k :| 0 <= k < |runs| && LosesBatch(states[k], runs[k]) && forall j :: k < j < |runs| ==> !EndsMetadata(runs[j]);
      assert LosesBatch(reached[k], before[k]);
    }
  }

  lemma LitteredUnfolds(runs: seq<Run>, states: seq<State>)
    requires |states| == |runs| + 1 && runs != []
    ensures var n := |runs| - 1;
            Littered(runs, states) <==>
            LeavesStray(states[n], runs[n]) || (Littered(runs[..n], states[..n + 1]) && !EndsMetadata(runs[n]))
  {
    hide LeavesStray, EndsMetadata;
    var n := |runs| - 1;
    var before, reached := runs[..n], states[..n + 1];
    if Littered(before, reached) && !EndsMetadata(runs[n]) {
      var k :| 0 <= k < n && LeavesStray(reached[k], before[k]) && forall j :: k < j < n ==> !EndsMetadata(before[j]);
      assert LeavesStray(states[k], runs[k]);
      assert forall j :: k < j < n ==> runs[j] == before[j];
    }
    if Littered(runs, states) && !LeavesStray(states[n], runs[n]) {
      var k :| 0 <= k < |runs| && LeavesStray(states[k], runs[k]) && forall j :: k < j < |runs| ==> !EndsMetadata(runs[j]);
      assert LeavesStray(reached[k], before[k]);
    }
  }

  /** One run: the bookkeeping is kept, and the batch files become or stay intact exactly when
      the metadata are removed, or they were intact and none is lost. */
  lemma StepKeeps(s: State, r: Run, s': State)
    requires s.Valid() && RunStep(s, r, s')
    ensures s'.Valid()
    ensures Intact(s'.parts, s'.history) <==> EndsMetadata(r) || (Intact(s.parts, s.history) && !LosesBatch(s, r))
    ensures (if EndsMetadata(r) then !LeavesStray(s, r) else Tidy(s.parts, s.history)) ==> Tidy(s'.parts, s'.history)
  {
    hide Recorded, Intact, Tidy, Appended;
    NothingRecorded();
    var outcome, files :| Ingested(s, r, s', outcome, files);
    if r.Torn() {
      PartsRemoved(s, r.crash.gone);
    } else if !(r.reset && r.crash == AfterRemoval) {
      var start := if r.reset then State(Some(EMPTY_METADATA), map[], []) else s;
      AppendedKeeps(start, r, s', outcome, files);
      AppendedIsValid(start, r, s', outcome, files);
    }
  }

  lemma AppendedIsValid(s: State, r: Run, s': State, outcome: Outcome, files: seq<File>)
    requires Appended(s, r, s', outcome, files)
    ensures s'.Valid()
  {
  }

  lemma PartsRemoved(s: State, gone: set<nat>)
    ensures Intact(s.parts - gone, s.history) <==>
            Intact(s.parts, s.history) && !exists i :: 0 <= i < |s.history| && i in gone
    ensures Tidy(s.parts, s.history) ==> Tidy(s.parts - gone, s.history)
    ensures Tidy(s.parts - gone, []) <==> !exists i :: i in s.parts && i !in gone && i > 0
  {
    hide Contribution;
    var left := s.parts - gone;
    assert forall i :: i in left <==> i in s.parts && i !in gone;
    assert forall i :: i in left ==> left[i] == s.parts[i];
    if Intact(left, s.history) {
      forall i | 0 <= i < |s.history|
        ensures i !in gone && i in s.parts && s.parts[i] == Contribution(s.history[i])
      {
        assert i in left;
      }
    }
  }

  lemma {:induction false} RunsKeep(runs: seq<Run>, states: seq<State>)
    requires Reaches(runs, states)
    ensures var s := states[|runs|];
            && s.Valid()
            && (Intact(s.parts, s.history) <==> !Damaged(runs, states))
            && (!Littered(runs, states) ==> Tidy(s.parts, s.history))
    decreases |runs|
  {
    hide Recorded, Intact, Tidy, RunStep, Damaged, Littered, LosesBatch, LeavesStray, EndsMetadata;
    if runs == [] {
      NothingRecorded();
      NothingYet(runs, states);
    } else {
      var n := |runs| - 1;
      RunsKeep(runs[..n], states[..n + 1]);
      StepKeeps(states[n], runs[n], states[n + 1]);
      DamagedUnfolds(runs, states);
      LitteredUnfolds(runs, states);
      StrayEndsMetadata(states[n], runs[n]);
    }
  }

  lemma NothingYet(runs: seq<Run>, states: seq<State>)
    requires runs == [] && |states| == 1
    ensures !Damaged(runs, states) && !Littered(runs, states)
  {
  }

  lemma StrayEndsMetadata(s: State, r: Run)
    ensures LeavesStray(s, r) ==> EndsMetadata(r)
    ensures LosesBatch(s, r) ==> !EndsMetadata(r)
  {
  }

  predicate NoneTorn(runs: seq<Run>) {
    forall k :: 0 <= k < |runs| ==> !runs[k].Torn()
  }

  /** After any sequence of runs, wherever they died, the metadata record a history in which no
      file occurs twice.  The batch files hold the rows of every processed file exactly once,
      and the dataset is consistent, unless a reset died while it removed the directory; then
      the batch files are what was committed if and only if no such reset lost one of them while
      the metadata survived, or the metadata were removed later. */
  lemma ExactlyOnceAfterRuns(runs: seq<Run>, states: seq<State>)
    requires Reaches(runs, states)
    ensures var s := states[|runs|];
            && Recorded(s.Loaded(), s.history)
            && (Intact(s.parts, s.history) <==> !Damaged(runs, states))
            && (!Damaged(runs, states) ==> RowsBelow(s.parts, |s.history|) == Contribution(AllFiles(s.history)))
            && (!Damaged(runs, states) ==>
                  forall r :: RowsBelow(s.parts, |s.history|)[r] ==
                              if r.ts.Some? && r.mem.Some? then Occurrences(AllFiles(s.history), r) else 0)
            && (!Damaged(runs, states) && !Littered(runs, states) ==> s.Whole())
            && (NoneTorn(runs) ==> s.Whole())
  {
    hide Recorded, Intact, Tidy, RunStep;
    var s := states[|runs|];
    RunsKeep(runs, states);
    if !Damaged(runs, states) {
      ExactlyOnce(s.parts, s.history);
    }
    if NoneTorn(runs) {
      assert !Damaged(runs, states) && !Littered(runs, states);
    }
  }

  /** The runs themselves, one after the other on one dataset. */
  method IngestAll(runs: seq<Run>) returns (d: Dataset, ghost states: seq<State>)
    requires forall k :: 0 <= k < |runs| ==> runs[k].Valid()
    ensures Reaches(runs, states) && d.Now() == states[|runs|]
    ensures Recorded(d.Now().Loaded(), d.history)
    ensures !Damaged(runs, states) ==> RowsBelow(d.parts, |d.history|) == Contribution(AllFiles(d.history))
    ensures !Damaged(runs, states) ==>
              forall r :: RowsBelow(d.parts, |d.history|)[r] ==
                          if r.ts.Some? && r.mem.Some? then Occurrences(AllFiles(d.history), r) else 0
    ensures NoneTorn(runs) ==> d.Now().Whole()
  {
    hide Ingested, Recorded, Intact, Tidy, Damaged, NoneTorn;
    d := new Dataset();
    states := [d.Now()];
    for k := 0 to |runs|
      invariant fresh(d)
      invariant |states| == k + 1 && states[0] == EMPTY_STATE && states[k] == d.Now() && d.Now().Valid()
      invariant forall j :: 0 <= j < k ==> RunStep(states[j], runs[j], states[j + 1])
    {
      ghost var before := d.Now();
      var outcome;
      ghost var files;
      outcome, files := d.Ingest(runs[k]);
      assert RunStep(before, runs[k], d.Now());
      states := states + [d.Now()];
    }
    ExactlyOnceAfterRuns(runs, states);
  }

  // ----- Limited runs over the same directory -----

  /** What a run with limit k that does not die makes of the set of processed files. */
  ghost function Advance(listing: seq<string>, contents: map<string, Option<seq<Row>>>, k: nat,
                         processed: set<string>): set<string>
  {
    processed + set n | n in Selected(listing, processed, Some(k)) && Readable(contents, n)
  }

  ghost function AfterRuns(listing: seq<string>, contents: map<string, Option<seq<Row>>>, k: nat,
                           processed: set<string>, m: nat): set<string>
    decreases m
  {
    if m == 0 then processed else AfterRuns(listing, contents, k, Advance(listing, contents, k, processed), m - 1)
  }

  lemma SetOfNames(a: seq<File>, b: seq<File>)
    ensures (set f | f in Names(a + b)) == (set f | f in Names(a)) + set f | f in Names(b)
  {
    assert Names(a + b) == Names(a) + Names(b);
  }

  /** That is what such a run does. */
  lemma RunAdvances(s: State, r: Run, s': State, k: nat)
    requires RunStep(s, r, s') && !r.reset && r.crash == NoCrash && r.nFiles == Some(k)
    ensures ProcessedSet(s'.history) == Advance(r.listing, r.contents, k, ProcessedSet(s.history))
  {
    hide AllFiles, RowCount, Recorded, Selected, Contribution;
    var outcome, files :| Ingested(s, r, s', outcome, files);
    var selected := Selected(r.listing, ProcessedSet(s.history), Some(k));
    NamesRead(files, selected, r.contents);
    if files == [] {
      assert s'.history == s.history;
    } else {
      HistoryGrows(s.history, files);
      SetOfNames(AllFiles(s.history), files);
    }
  }

  lemma NamesRead(files: seq<File>, selected: seq<string>, contents: map<string, Option<seq<Row>>>)
    requires ReadsOf(files, selected, contents)
    ensures (set f | f in Names(files)) == set n | n in selected && Readable(contents, n)
  {
    forall n | n in Names(files)
      ensures n in selected && Readable(contents, n)
    {
      var i :| 0 <= i < |files| && Names(files)[i] == n;
    }
  }

  lemma {:induction false} RunsAdvance(states: seq<State>, r: Run, k: nat)
    requires |states| > 0 && !r.reset && r.crash == NoCrash && r.nFiles == Some(k)
    requires forall j :: 0 <= j < |states| - 1 ==> RunStep(states[j], r, states[j + 1])
    ensures ProcessedSet(states[|states| - 1].history) ==
            AfterRuns(r.listing, r.contents, k, ProcessedSet(states[0].history), |states| - 1)
    decreases |states|
  {
    hide RunStep, ProcessedSet, Advance;
    if |states| > 1 {
      RunAdvances(states[0], r, states[1], k);
      RunsAdvance(states[1..], r, k);
    }
  }

  /** How many of these files are new and can be read, or cannot. */
  ghost function NewFiles(listing: seq<string>, contents: map<string, Option<seq<Row>>>, processed: set<string>,
                          readable: bool): nat
  {
    if listing == [] then 0
    else NewFiles(listing[1..], contents, processed, readable) +
         if listing[0] !in processed && Readable(contents, listing[0]) == readable then 1 else 0
  }

  lemma {:induction false} CountUnprocessed(listing: seq<string>, contents: map<string, Option<seq<Row>>>,
                                            processed: set<string>)
    ensures |Unprocessed(listing, processed)| ==
            NewFiles(listing, contents, processed, true) + NewFiles(listing, contents, processed, false)
  {
    if listing != [] {
      CountUnprocessed(listing[1..], contents, processed);
    }
  }

  lemma {:induction false} UnprocessedConcat(a: seq<string>, b: seq<string>, processed: set<string>)
    ensures Unprocessed(a + b, processed) == Unprocessed(a, processed) + Unprocessed(b, processed)
  {
    if a == [] {
      assert a + b == b;
    } else {
      assert (a + b)[1..] == a[1..] + b;
      UnprocessedConcat(a[1..], b, processed);
    }
  }

  /** A new file is selected if and only if fewer than k new files precede it. */
  lemma SelectedIff(listing: seq<string>, processed: set<string>, k: nat, i: nat)
    requires NoDuplicates(listing) && i < |listing| && listing[i] !in processed && k > 0
    ensures listing[i] in Selected(listing, processed, Some(k)) <==> |Unprocessed(listing[..i], processed)| < k
  {
    var before, after := Unprocessed(listing[..i], processed), Unprocessed(listing[i + 1..], processed);
    var t := |Selected(listing, processed, Some(k))|;
    assert Unprocessed(listing, processed) == before + [listing[i]] + after by {
      UnprocessedAround(listing, processed, i);
    }
    assert listing[i] !in before by {
      FirstPlace(listing, i);
    }
    hide Unprocessed, NoDuplicates;
    PrefixHas(before, listing[i], after, t);
  }

  lemma UnprocessedAround(listing: seq<string>, processed: set<string>, i: nat)
    requires i < |listing| && listing[i] !in processed
    ensures Unprocessed(listing, processed) ==
            Unprocessed(listing[..i], processed) + [listing[i]] + Unprocessed(listing[i + 1..], processed)
  {
    assert listing == listing[..i] + listing[i..] && listing[i..][1..] == listing[i + 1..];
    UnprocessedConcat(listing[..i], listing[i..], processed);
  }

  lemma FirstPlace(listing: seq<string>, i: nat)
    requires NoDuplicates(listing) && i < |listing|
    ensures listing[i] !in listing[..i]
  {
  }

  lemma PrefixHas(a: seq<string>, x: string, b: seq<string>, t: nat)
    requires x !in a && t <= |a + [x] + b|
    ensures x in (a + [x] + b)[..t] <==> |a| < t
  {
    var all := a + [x] + b;
    if |a| < t {
      assert all[..t][|a|] == x;
    } else {
      assert all[..t] == a[..t];
    }
  }

  /** The new unreadable files stay the same from run to run. */
  lemma {:induction false} UnreadableStay(l: seq<string>, contents: map<string, Option<seq<Row>>>,
                                          processed: set<string>, more: set<string>)
    requires processed <= more && forall n :: n in more && n !in processed ==> Readable(contents, n)
    ensures NewFiles(l, contents, more, false) == NewFiles(l, contents, processed, false)
    ensures NewFiles(l, contents, more, true) <= NewFiles(l, contents, processed, true)
    ensures (exists n :: n in l && n in more && n !in processed) ==>
              NewFiles(l, contents, more, true) < NewFiles(l, contents, processed, true)
  {
    if l != [] {
      UnreadableStay(l[1..], contents, processed, more);
    }
  }

  lemma {:induction false} NewFilesPrefix(l: seq<string>, contents: map<string, Option<seq<Row>>>,
                                          processed: set<string>, readable: bool, i: nat)
    requires i <= |l|
    ensures NewFiles(l[..i], contents, processed, readable) <= NewFiles(l, contents, processed, readable)
  {
    if i > 0 {
      assert l[..i][1..] == l[1..][..i - 1];
      NewFilesPrefix(l[1..], contents, processed, readable, i - 1);
    }
  }

  /** The first new file that can be read. */
  lemma {:induction false} FirstReadable(l: seq<string>, contents: map<string, Option<seq<Row>>>,
                                         processed: set<string>, i: nat) returns (j: nat)
    requires i < |l| && l[i] !in processed && Readable(contents, l[i])
    ensures j <= i && l[j] !in processed && Readable(contents, l[j])
    ensures NewFiles(l[..j], contents, processed, true) == 0
  {
    if l[0] !in processed && Readable(contents, l[0]) {
      j := 0;
      assert l[..0] == [];
    } else {
      var j' := FirstReadable(l[1..], contents, processed, i - 1);
      j := j' + 1;
      assert l[..j][1..] == l[1..][..j'];
    }
  }

  /** A file with fewer than k new unreadable ones before it is in, or some file comes in. */
  lemma RunMakesProgress(listing: seq<string>, contents: map<string, Option<seq<Row>>>, k: nat,
                         processed: set<string>, i: nat)
    requires NoDuplicates(listing) && k > 0 && i < |listing|
    requires listing[i] !in processed && Readable(contents, listing[i])
    requires NewFiles(listing[..i], contents, processed, false) < k
    ensures exists n :: n in listing && n in Advance(listing, contents, k, processed) && n !in processed
  {
    var j := FirstReadable(listing, contents, processed, i);
    assert listing[..i][..j] == listing[..j];
    NewFilesPrefix(listing[..i], contents, processed, false, j);
    CountUnprocessed(listing[..j], contents, processed);
    SelectedIff(listing, processed, k, j);
    assert listing[j] in listing && listing[j] in Advance(listing, contents, k, processed);
  }

  lemma AdvanceAddsReadable(listing: seq<string>, contents: map<string, Option<seq<Row>>>, k: nat,
                            processed: set<string>)
    ensures var more := Advance(listing, contents, k, processed);
            processed <= more && forall n :: n in more && n !in processed ==> Readable(contents, n)
  {
  }

  lemma {:induction false} AfterRunsGrows(listing: seq<string>, contents: map<string, Option<seq<Row>>>, k: nat,
                                          processed: set<string>, m: nat)
    ensures var more := AfterRuns(listing, contents, k, processed, m);
            processed <= more && forall n :: n in more && n !in processed ==> Readable(contents, n)
    decreases m
  {
    hide Advance;
    if m > 0 {
      AdvanceAddsReadable(listing, contents, k, processed);
      AfterRunsGrows(listing, contents, k, Advance(listing, contents, k, processed), m - 1);
    }
  }

  lemma {:induction false} ComesIn(listing: seq<string>, contents: map<string, Option<seq<Row>>>, k: nat,
                                   processed: set<string>, m: nat, i: nat)
    requires NoDuplicates(listing) && k > 0 && i < |listing| && Readable(contents, listing[i])
    requires NewFiles(listing[..i], contents, processed, false) < k
    requires NewFiles(listing, contents, processed, true) <= m
    ensures listing[i] in AfterRuns(listing, contents, k, processed, m)
    decreases m
  {
    hide Advance;
    var more := Advance(listing, contents, k, processed);
    if listing[i] in processed {
      AfterRunsGrows(listing, contents, k, processed, m);
    } else {
      RunMakesProgress(listing, contents, k, processed, i);
      AdvanceAddsReadable(listing, contents, k, processed);
      UnreadableStay(listing, contents, processed, more);
      UnreadableStay(listing[..i], contents, processed, more);
      ComesIn(listing, contents, k, more, m - 1, i);
    }
  }

  lemma {:induction false} StaysOut(listing: seq<string>, contents: map<string, Option<seq<Row>>>, k: nat,
                                    processed: set<string>, m: nat, i: nat)
    requires NoDuplicates(listing) && k > 0 && i < |listing| && listing[i] !in processed
    requires NewFiles(listing[..i], contents, processed, false) >= k
    ensures listing[i] !in AfterRuns(listing, contents, k, processed, m)
    decreases m
  {
    hide Selected, NoDuplicates, NewFiles, Readable;
    if m > 0 {
      var more := Advance(listing, contents, k, processed);
      CountUnprocessed(listing[..i], contents, processed);
      SelectedIff(listing, processed, k, i);
      AdvanceAddsReadable(listing, contents, k, processed);
      UnreadableStay(listing[..i], contents, processed, more);
      StaysOut(listing, contents, k, more, m - 1, i);
    }
  }

  /** When runs limited to k files are repeated often enough over a directory that does not
      change, a new file is taken in if and only if it can be read and fewer than k new files
      that cannot be read precede it in the listing.  One run for each readable new file is
      enough. */
  lemma TakenInIff(states: seq<State>, r: Run, k: nat, i: nat)
    requires |states| > 0 && !r.reset && r.crash == NoCrash && r.nFiles == Some(k) && k > 0
    requires forall j :: 0 <= j < |states| - 1 ==> RunStep(states[j], r, states[j + 1])
    requires NoDuplicates(r.listing) && i < |r.listing|
    requires r.listing[i] !in ProcessedSet(states[0].history)
    requires NewFiles(r.listing, r.contents, ProcessedSet(states[0].history), true) < |states|
    ensures r.listing[i] in ProcessedSet(states[|states| - 1].history) <==>
            Readable(r.contents, r.listing[i])
            && NewFiles(r.listing[..i], r.contents, ProcessedSet(states[0].history), false) < k
  {
    hide RunStep, Readable, ProcessedSet, NoDuplicates;
    var processed, m := ProcessedSet(states[0].history), |states| - 1;
    RunsAdvance(states, r, k);
    AfterRunsGrows(r.listing, r.contents, k, processed, m);
    if Readable(r.contents, r.listing[i]) {
      if NewFiles(r.listing[..i], r.contents, processed, false) < k {
        ComesIn(r.listing, r.contents, k, processed, m, i);
      } else {
        StaysOut(r.listing, r.contents, k, processed, m, i);
      }
    }
  }
}
