/** scripts/ci_source_shards.py, the pytest hooks that build one shard's report. */
module ShardRun {
  import opened Outcome
  import opened Sorting
  import opened ShardPlan
  import opened ShardJoin

  /** What a session is given: options, repository identity, environment, earlier probe. */
  datatype Config = Config(
    count: int, index: int, unfiltered: bool, rootIsInvocation: bool, collectOnly: bool,
    commit: string, tree: string, runId: string, attempt: int, environment: string,
    prior: Option<Report>)

  datatype Phase = Setup | Call | Teardown

  datatype HookError = Filtered | WrongRoot | Unplannable(reason: PlanError) | CollectionChanged

  /** The module's `_RUN` record. */
  datatype Record = Record(
    config: Config, collected: seq<string>, selected: seq<string>, executed: set<string>)

  function ToReport(r: Record, executed: seq<string>, exitCode: int): Report {
    Report(Some(1), Some(r.config.commit), Some(r.config.tree), Some(r.config.runId),
           Some(r.config.count), Some(r.config.index), Some(r.config.attempt),
           Some(r.config.environment), Some(exitCode),
           Some(r.collected), Some(r.selected), Some(executed), Some(r.config.collectOnly))
  }

  /** The earlier collection probe agrees with this collection, and only collected. */
  predicate ProbeAgrees(prior: Report, r: Record) {
    && prior.schema == Some(1) && prior.count == Some(r.config.count) && prior.index == Some(r.config.index)
    && prior.commit == Some(r.config.commit) && prior.tree == Some(r.config.tree)
    && prior.runId == Some(r.config.runId) && prior.environment == Some(r.config.environment)
    && prior.collected == Some(r.collected)
    && prior.collectOnly == Some(true) && prior.exitCode == Some(0) && prior.executed == Some([])
  }

  /** The items of one shard, in the order of `items`. */
  function Share(items: seq<string>, count: int, index: int): seq<string>
    requires Assigned(Sort(StringLe, items), count).Ok?
  {
    Selected(items, Assigned(Sort(StringLe, items), count).value, index)
  }

  /** The record that a collection leaves behind. */
  function Collected(config: Config, items: seq<string>): Record
    requires Assigned(Sort(StringLe, items), config.count).Ok?
  {
    Record(config, Sort(StringLe, items), Sort(StringLe, Share(items, config.count, config.index)), {})
  }

  predicate Admissible(config: Config) {
    0 <= config.index < config.count && config.unfiltered && config.rootIsInvocation
  }

  /** The elements of a set, sorted. */
  method SortedElements(elements: set<string>) returns (r: seq<string>)
    ensures Sorted(StringLe, r) && multiset(r) == multiset(elements)
  {
    StringLeIsTotalOrder();
    r := [];
    var rest := elements;
    while rest != {}
      invariant rest <= elements && Sorted(StringLe, r) && multiset(r) == multiset(elements - rest)
      decreases rest
    {
      var x :| x in rest;
      InsertKeepsSorted(StringLe, x, r);
      r := Insert(StringLe, x, r);
      assert elements - (rest - {x}) == (elements - rest) + {x};
      rest := rest - {x};
    }
    assert elements - rest == elements;
  }

  class Plugin {
    var run: Option<Record>

    constructor ()
      ensures run == None
    {
      run := None;
    }

    method SessionStart()
      modifies this
      ensures run == None
    {
      run := None;
    }

    /** Plan the collected items, record the share, keep only this shard's items. */
    method CollectionModifyItems(config: Config, items: seq<string>) returns (r: Result<seq<string>, HookError>)
      modifies this
      ensures !Admissible(config) || Assigned(Sort(StringLe, items), config.count).Err? ==>
                r.Err? && run == old(run)
      // Which error comes first.
      ensures !(0 <= config.index < config.count) || !config.unfiltered <==> r == Err(Filtered)
      ensures 0 <= config.index < config.count && config.unfiltered ==>
                (!config.rootIsInvocation <==> r == Err(WrongRoot))
      ensures Admissible(config) && Assigned(Sort(StringLe, items), config.count).Err? ==>
                r == Err(HookError.Unplannable(Assigned(Sort(StringLe, items), config.count).error))
      ensures Admissible(config) && Assigned(Sort(StringLe, items), config.count).Ok? ==>
                var record := Collected(config, items);
                && run == Some(record)
                && r == if config.prior.Some? && !ProbeAgrees(config.prior.value, record) then Err(CollectionChanged)
                        else Ok(Share(items, config.count, config.index))
    {
      if !(0 <= config.index < config.count) || !config.unfiltered {
        return Err(Filtered);
      }
      if !config.rootIsInvocation {
        return Err(WrongRoot);
      }
      var allIds := Sort(StringLe, items);
      var planned := Assignment(allIds, config.count);
      if planned.Err? {
        return Err(HookError.Unplannable(planned.error));
      }
      var selected := Selected(items, planned.value, config.index);
      var metadata := Record(config, allIds, Sort(StringLe, selected), {});
      run := Some(metadata);
      if config.prior.Some? && !ProbeAgrees(config.prior.value, metadata) {
        return Err(CollectionChanged);
      }
      return Ok(selected);
    }

    /** A test counts as executed once it reaches teardown. */
    method RunTestLogReport(node: string, phase: Phase)
      modifies this
      ensures run == if old(run).Some? && phase == Teardown
                     then Some(old(run).value.(executed := old(run).value.executed + {node})) else old(run)
    {
      if run.Some? && phase == Teardown {
        run := Some(run.value.(executed := run.value.executed + {node}));
      }
    }

    method SessionFinish(exitCode: int) returns (report: Option<Report>)
      ensures report.Some? <==> run.Some?
      ensures run.Some? ==> exists executed: seq<string> ::
                && Sorted(StringLe, executed) && multiset(executed) == multiset(run.value.executed)
                && report == Some(ToReport(run.value, executed, exitCode))
    {
      if run.None? {
        return None;
      }
      var executed := SortedElements(run.value.executed);
      return Some(ToReport(run.value, executed, exitCode));
    }

    /** A whole session: collection, the events of its tests in any order, finish. Where the
        collection raises, no test runs. */
    method Session(config: Config, items: seq<string>, events: seq<(string, Phase)>, exitCode: int)
      returns (report: Option<Report>)
      modifies this
      // Without a plan there is no report. Otherwise it says what reached teardown: nothing where
      // the earlier probe disagrees ...
      ensures report.Some? <==> Admissible(config) && Assigned(Sort(StringLe, items), config.count).Ok?
      ensures report.Some? ==> var ran := if ProbePasses(config, items) then events else [];
                               Reports(report.value, config, items, ran, exitCode)
      // ... and it is complete when that is exactly the share.
      ensures report.Some? && ProbePasses(config, items)
              && ReachedTeardown(events) == (set x | x in Share(items, config.count, config.index)) ==>
                report.value == Honest(config, items, exitCode)
    {
      hide Sort, Selected;
      SessionStart();
      var collection := CollectionModifyItems(config, items);
      if run.None? {
        report := SessionFinish(exitCode);
        return;
      }
      ghost var record := Collected(config, items);
      var ran := if collection.Ok? then events else [];
      assert ReachedTeardown(ran[..0]) == {};
      for i := 0 to |ran|
        invariant run == Some(record.(executed := ReachedTeardown(ran[..i])))
      {
        TakeNext(ran, i);
        TeardownNext(ran[..i], ran[i]);
        RunTestLogReport(ran[i].0, ran[i].1);
      }
      TakeAll(ran);
      report := SessionFinish(exitCode);
      ghost var executed: seq<string> :| Sorted(StringLe, executed)
        && multiset(executed) == multiset(run.value.executed)
        && report == Some(ToReport(run.value, executed, exitCode));
      assert Reports(report.value, config, items, ran, exitCode);
      if ReachedTeardown(ran) == set x | x in Share(items, config.count, config.index) {
        ExecutedIsShare(items, config.count, config.index, executed);
      }
    }
  }

  /** No earlier probe is given, or it agrees with this collection. */
  predicate ProbePasses(config: Config, items: seq<string>)
    requires Assigned(Sort(StringLe, items), config.count).Ok?
  {
    config.prior.Some? ==> ProbeAgrees(config.prior.value, Collected(config, items))
  }

  /** The report of a session of these events: the record of its collection, with the tests
      that reached teardown, sorted. */
  ghost predicate Reports(r: Report, config: Config, items: seq<string>, events: seq<(string, Phase)>, exitCode: int) {
    Assigned(Sort(StringLe, items), config.count).Ok? && exists executed: seq<string> ::
      && Sorted(StringLe, executed) && multiset(executed) == multiset(ReachedTeardown(events))
      && r == ToReport(Collected(config, items), executed, exitCode)
  }

  /** The report of some session of these events. */
  ghost predicate OfSession(r: Report, events: seq<(string, Phase)>) {
    exists config: Config, items: seq<string>, exitCode: int :: Reports(r, config, items, events, exitCode)
  }

  function ReachedTeardown(events: seq<(string, Phase)>): set<string> {
    set e | e in events && e.1 == Teardown :: e.0
  }

  lemma TeardownNext(events: seq<(string, Phase)>, e: (string, Phase))
    ensures ReachedTeardown(events + [e])
            == if e.1 == Teardown then ReachedTeardown(events) + {e.0} else ReachedTeardown(events)
  {
    var all := events + [e];
    assert forall x :: x in all <==> x in events || x == e;
  }

  /** What a session's report says: where it comes from, the sorted collection, the sorted share
      of its shard, and the sorted tests that reached teardown. */
  lemma ReportSays(r: Report, config: Config, items: seq<string>, events: seq<(string, Phase)>, exitCode: int)
    requires Reports(r, config, items, events, exitCode)
    ensures && r.schema == Some(1) && r.commit == Some(config.commit) && r.tree == Some(config.tree)
            && r.runId == Some(config.runId) && r.count == Some(config.count) && r.index == Some(config.index)
            && r.attempt == Some(config.attempt) && r.environment == Some(config.environment)
            && r.exitCode == Some(exitCode) && r.collectOnly == Some(config.collectOnly)
    ensures && r.collected.Some? && Sorted(StringLe, r.collected.value)
            && multiset(r.collected.value) == multiset(items)
    ensures && r.selected.Some? && Sorted(StringLe, r.selected.value) && Distinct(r.selected.value)
            && forall x :: x in r.selected.value <==>
                 var plan := Assigned(r.collected.value, config.count).value;
                 x in items && FileOf(x) in plan && plan[FileOf(x)] == config.index
    ensures && r.executed.Some? && Sorted(StringLe, r.executed.value) && Distinct(r.executed.value)
            && forall x :: x in r.executed.value <==> (x, Teardown) in events
  {
    hide Sort, Selected, FileOf;
    var executed: seq<string> :|
      && Sorted(StringLe, executed) && multiset(executed) == multiset(ReachedTeardown(events))
      && r == ToReport(Collected(config, items), executed, exitCode);
    StringLeIsTotalOrder();
    SortSorts(StringLe, items);
    var plan := Assigned(Sort(StringLe, items), config.count).value;
    forall x ensures x in executed <==> (x, Teardown) in events {
      assert x in executed <==> x in multiset(executed);
      assert x in ReachedTeardown(events) <==> (x, Teardown) in events;
    }
    OnceEach(executed);
    DistinctFromMultiset(Sort(StringLe, items), items);
    ShareSays(items, plan, config.index);
  }

  lemma ShareSays(items: seq<string>, plan: map<string, nat>, index: int)
    requires Distinct(items)
    ensures var share := Sort(StringLe, Selected(items, plan, index));
            && Sorted(StringLe, share) && Distinct(share)
            && forall x :: x in share <==> x in items && FileOf(x) in plan && plan[FileOf(x)] == index
  {
    ExpectedMembers(items, plan, index);
  }

  /** So a session's report is one of its run, where shard and attempt are within bounds. */
  lemma SessionIsOfRun(r: Report, config: Config, items: seq<string>, events: seq<(string, Phase)>, exitCode: int)
    requires Reports(r, config, items, events, exitCode)
    requires 0 <= config.index < config.count && 1 <= config.attempt <= 10000
    ensures AllOfRun([r], Run(config.commit, config.tree, config.runId, config.count))
  {
    hide Sort, Selected, Assigned;
    ReportSays(r, config, items, events, exitCode);
    assert r.index == Some(config.index) && r.attempt == Some(config.attempt);
  }

  /** The probe that a session accepts is the report of an empty, zero-exit collection with the
      same configuration and the same tests, whatever its attempt and its list of selected tests. */
  lemma ProbeIsReport(prior: Report, config: Config, items: seq<string>)
    requires Assigned(Sort(StringLe, items), config.count).Ok?
    ensures ProbeAgrees(prior, Collected(config, items)) <==>
            prior == ToReport(Collected(config.(collectOnly := true), items), [], 0)
                     .(attempt := prior.attempt, selected := prior.selected)
  {
    hide Sort, Selected, Assigned;
  }

  /** A set of executed tests that is the share sorts to the sorted share. */
  lemma ExecutedIsShare(items: seq<string>, count: int, index: int, executed: seq<string>)
    requires Assigned(Sort(StringLe, items), count).Ok?
    requires Sorted(StringLe, executed) && multiset(executed) == multiset(set x | x in Share(items, count, index))
    ensures executed == Sort(StringLe, Share(items, count, index))
  {
    hide Sort;
    var share := Share(items, count, index);
    var plan := Assigned(Sort(StringLe, items), count).value;
    DistinctFromMultiset(Sort(StringLe, items), items);
    DistinctMultiset(items);
    var elements := set x | x in share;
    forall x ensures multiset(share)[x] == multiset(elements)[x] {
      SelectedHolds(items, plan, index, x);
      assert x in elements <==> x in share;
    }
    assert multiset(share) == multiset(executed);
    StringLeIsTotalOrder();
    SortSorts(StringLe, share);
    SortedUnique(StringLe, executed, Sort(StringLe, share));
  }

  /** The report of a session in which exactly the share reached teardown. */
  function Honest(config: Config, items: seq<string>, exitCode: int): Report
    requires Assigned(Sort(StringLe, items), config.count).Ok?
  {
    var record := Collected(config, items);
    ToReport(record, record.selected, exitCode)
  }

  /** The report is that of an honest, zero-exit session of shard `k` of the run, over some
      order of the collection `all`. */
  ghost predicate HonestOf(r: Report, run: Run, environment: string, all: seq<string>, k: int) {
    exists config: Config, items: seq<string> ::
      && multiset(items) == multiset(all) && Assigned(Sort(StringLe, items), config.count).Ok?
      && config.commit == run.commit && config.tree == run.tree && config.runId == run.runId
      && config.count == run.count && config.environment == environment && config.index == k
      && r == Honest(config, items, 0)
  }

  /** Sorting and selecting commute up to order. */
  lemma ShareOfSorted(items: seq<string>, all: seq<string>, plan: map<string, nat>, index: int)
    requires multiset(items) == multiset(all)
    ensures Sort(StringLe, Selected(items, plan, index)) == Expected(all, plan, index)
  {
    hide Sort;
    forall x ensures multiset(Selected(items, plan, index))[x] == multiset(Selected(all, plan, index))[x] {
      SelectedHolds(items, plan, index, x);
      SelectedHolds(all, plan, index, x);
    }
    StringLeIsTotalOrder();
    SortCanonical(StringLe, Selected(items, plan, index), Selected(all, plan, index));
  }

  lemma HonestIsAdmitted(r: Report, baseline: Report, run: Run, environment: string, all: seq<string>, k: int)
    requires HonestOf(r, run, environment, all, k) && Assigned(Sort(StringLe, all), run.count).Ok?
    requires baseline.collected == Some(Sort(StringLe, all)) && baseline.environment == Some(environment)
    ensures Admitted(r, baseline, Assigned(Sort(StringLe, all), run.count).value, k)
  {
    hide Sort, Selected;
    var config: Config, items: seq<string> :|
      && multiset(items) == multiset(all) && Assigned(Sort(StringLe, items), config.count).Ok?
      && config.commit == run.commit && config.tree == run.tree && config.runId == run.runId
      && config.count == run.count && config.environment == environment && config.index == k
      && r == Honest(config, items, 0);
    StringLeIsTotalOrder();
    SortCanonical(StringLe, items, all);
    ShareOfSorted(items, Sort(StringLe, all), Assigned(Sort(StringLe, all), run.count).value, k);
  }

  lemma HonestCollects(r: Report, run: Run, environment: string, all: seq<string>, k: int)
    requires HonestOf(r, run, environment, all, k)
    ensures r.collected == Some(Sort(StringLe, all)) && r.environment == Some(environment)
  {
    hide Sort, Selected;
    var config: Config, items: seq<string> :|
      && multiset(items) == multiset(all) && Assigned(Sort(StringLe, items), config.count).Ok?
      && config.commit == run.commit && config.tree == run.tree && config.runId == run.runId
      && config.count == run.count && config.environment == environment && config.index == k
      && r == Honest(config, items, 0);
    StringLeIsTotalOrder();
    SortCanonical(StringLe, items, all);
  }

  /** Where each shard's highest report is that of an honest, zero-exit session over some order
      of the same tests, the join accepts exactly when all reports belong to the run, none
      repeats the highest attempt so far of its shard, and every shard has reported. */
  lemma HonestReportsAreAccepted(records: seq<Report>, run: Run, environment: string, all: seq<string>)
    requires Assigned(Sort(StringLe, all), run.count).Ok?
    requires forall r :: IsHighest(records, r) ==> HonestOf(r, run, environment, all, Index(r))
    ensures Accepts(records, run) <==>
            && (forall i :: 0 <= i < |records| ==> Identified(records[i], run))
            && (forall i, j :: 0 <= i < j < |records| ==> !Repeats(records, i, j))
            && (forall k :: 0 <= k < run.count ==> Reported(records, k))
  {
    hide Sort, Selected, Latest, HonestOf, Identified, Repeats, Reported, IsHighest, Admitted;
    LatestRejects(records, run);
    if Latest(records, run).Ok? {
      LatestOfReported(records, run);
      if forall k :: 0 <= k < run.count ==> Reported(records, k) {
        LatestAreAdmitted(records, run, environment, all);
      }
    }
  }

  lemma LatestAreAdmitted(records: seq<Report>, run: Run, environment: string, all: seq<string>)
    requires Latest(records, run).Ok? && Complete(Latest(records, run).value, run.count)
    requires Assigned(Sort(StringLe, all), run.count).Ok?
    requires forall k :: 0 <= k < run.count ==> HonestOf(Latest(records, run).value[k], run, environment, all, k)
    ensures Accepts(records, run)
  {
    hide Sort, Selected, Latest;
    var latest := Latest(records, run).value;
    StringLeIsTotalOrder();
    SortSorts(StringLe, all);
    HonestCollects(latest[0], run, environment, all, 0);
    forall k | 0 <= k < run.count
      ensures Admitted(latest[k], latest[0], Assigned(Sort(StringLe, all), run.count).value, k)
    {
      HonestIsAdmitted(latest[k], latest[0], run, environment, all, k);
    }
  }

  /** A session whose report is admitted for a shard brought exactly its share to teardown. */
  lemma AdmittedMeansRan(r: Report, baseline: Report, plan: map<string, nat>, k: int,
                         events: seq<(string, Phase)>, x: string)
    requires OfSession(r, events) && baseline.collected.Some? && Admitted(r, baseline, plan, k)
    ensures (x, Teardown) in events <==> x in Expected(baseline.collected.value, plan, k)
  {
    hide Sort, Selected;
    var config: Config, items: seq<string>, exitCode: int :| Reports(r, config, items, events, exitCode);
    var executed: seq<string> :|
      && Sorted(StringLe, executed) && multiset(executed) == multiset(ReachedTeardown(events))
      && r == ToReport(Collected(config, items), executed, exitCode);
    assert x in executed <==> x in multiset(executed);
    assert x in ReachedTeardown(events) <==> (x, Teardown) in events;
  }

  /** Of an accepted run whose kept reports come from sessions, each collected test, and no
      other, reached teardown in the session of exactly one shard. */
  lemma AcceptedMeansRan(records: seq<Report>, run: Run, sessions: int -> seq<(string, Phase)>, x: string)
    requires Accepts(records, run)
    requires forall k :: 0 <= k < run.count ==> OfSession(Latest(records, run).value[k], sessions(k))
    ensures x in Latest(records, run).value[0].collected.value <==> exists k :: RanOnlyIn(sessions, run.count, x, k)
  {
    hide Assigned, Admitted, FileOf, Latest, OfSession, Expected, Sorted;
    var latest := Latest(records, run).value;
    var nodes := latest[0].collected.value;
    var plan := Assigned(nodes, run.count).value;
    forall j | 0 <= j < run.count
      ensures (x, Teardown) in sessions(j) <==> x in nodes && FileOf(x) in plan && plan[FileOf(x)] == j
    {
      SessionRanItsShare(latest, run.count, j, sessions(j), x);
    }
    if x in nodes {
      PlanFillsEveryShard(nodes, run.count);
      assert RanOnlyIn(sessions, run.count, x, plan[FileOf(x)]);
    } else {
      forall k ensures !RanOnlyIn(sessions, run.count, x, k) {
        assert 0 <= k < run.count ==> (x, Teardown) !in sessions(k);
      }
    }
  }

  lemma SessionRanItsShare(latest: map<int, Report>, count: int, k: int, events: seq<(string, Phase)>, x: string)
    requires AllAdmitted(latest, count) && 0 <= k < count && OfSession(latest[k], events)
    ensures var nodes := latest[0].collected.value; var plan := Assigned(nodes, count).value;
            (x, Teardown) in events <==> x in nodes && FileOf(x) in plan && plan[FileOf(x)] == k
  {
    hide Assigned, FileOf, OfSession, Expected;
    AdmittedRanItsShare(latest, count, k, x);
    AdmittedMeansRan(latest[k], latest[0], Assigned(latest[0].collected.value, count).value, k, events, x);
  }

  ghost predicate RanOnlyIn(sessions: int -> seq<(string, Phase)>, count: int, x: string, k: int) {
    0 <= k < count && forall j :: 0 <= j < count ==> ((x, Teardown) in sessions(j) <==> j == k)
  }
}
