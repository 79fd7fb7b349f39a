/** scripts/ci_source_shards.py, `verify`: the fail-closed join of a run's shard reports. */
module ShardJoin {
  import opened Outcome
  import opened Sorting
  import opened ShardPlan

  /** A decoded report; a field the report lacks is None. */
  datatype Report = Report(
    schema: Option<int>, commit: Option<string>, tree: Option<string>, runId: Option<string>,
    count: Option<int>, index: Option<int>, attempt: Option<int>,
    environment: Option<string>, exitCode: Option<int>,
    collected: Option<seq<string>>, selected: Option<seq<string>>, executed: Option<seq<string>>,
    collectOnly: Option<bool>)

  /** The run whose reports are joined. */
  datatype Run = Run(commit: string, tree: string, runId: string, count: int)

  datatype JoinError =
    | IdentityMismatch | AmbiguousReport | MissingShard | MissingField
    | Unplannable(reason: PlanError) | FailedAdmission(index: int) | IncompleteCoverage

  datatype Summary = Summary(shards: int, collected: nat, executed: nat, environment: string)

  predicate Identified(r: Report, run: Run) {
    && r.schema == Some(1) && r.commit == Some(run.commit) && r.tree == Some(run.tree)
    && r.runId == Some(run.runId) && r.count == Some(run.count)
    && r.index.Some? && 0 <= r.index.value < run.count
    && r.attempt.Some? && 1 <= r.attempt.value <= 10000
  }

  // ----- which attempt of a shard counts -----

  /** The selection loop: keep the highest attempt so far, refuse a second report of it. */
  function Latest(records: seq<Report>, run: Run): Result<map<int, Report>, JoinError> {
    if records == [] then Ok(map[])
    else
      var before := Latest(records[..|records| - 1], run);
      if before.Err? then before else Next(before.value, records[|records| - 1], run)
  }

  function Next(latest: map<int, Report>, record: Report, run: Run): Result<map<int, Report>, JoinError> {
    if !Identified(record, run) then Err(IdentityMismatch)
    else
      var k := Index(record);
      if k in latest && latest[k].attempt == record.attempt then Err(AmbiguousReport)
      else if k !in latest || Attempt(record) > Attempt(latest[k]) then Ok(latest[k := record])
      else Ok(latest)
  }

  function Index(r: Report): int { r.index.GetOr(-1) }

  function Attempt(r: Report): int { r.attempt.GetOr(0) }

  /** The selection knows the report, or a higher attempt of its shard. */
  predicate Known(r: Report, latest: map<int, Report>, run: Run) {
    Identified(r, run) && Index(r) in latest && Attempt(r) <= Attempt(latest[Index(r)])
  }

  /** Report `j` repeats report `i` while that attempt is still the highest of its shard. */
  ghost predicate Repeats(records: seq<Report>, i: nat, j: nat)
    requires i < j < |records|
  {
    && Index(records[i]) == Index(records[j]) && Attempt(records[i]) == Attempt(records[j])
    && forall l :: 0 <= l < j && Index(records[l]) == Index(records[j]) ==> Attempt(records[l]) <= Attempt(records[j])
  }

  /** The kept report of a shard is one of its reports, with its highest attempt. */
  lemma {:induction false} LatestIsHighest(records: seq<Report>, run: Run)
    requires Latest(records, run).Ok?
    ensures forall i :: 0 <= i < |records| ==> Known(records[i], Latest(records, run).value, run)
    ensures forall k :: k in Latest(records, run).value ==> Comes(records, Latest(records, run).value[k], k, run)
  {
    if records != [] {
      var n := |records| - 1;
      var before, after := Latest(records[..n], run).value, Latest(records, run).value;
      LatestIsHighest(records[..n], run);
      forall i | 0 <= i < |records| ensures Known(records[i], after, run) {
        if i < n {
          assert Known(records[..n][i], before, run);
        }
      }
      forall k | k in after ensures Comes(records, after[k], k, run) {
        if k in before && after[k] == before[k] {
          assert Comes(records[..n], before[k], k, run);
        }
      }
    }
  }

  ghost predicate Comes(records: seq<Report>, r: Report, k: int, run: Run) {
    r in records && Identified(r, run) && Index(r) == k
  }

  /** The selection fails exactly on a foreign report or on a repeat of the running highest
      attempt, so a lower attempt may be repeated once a higher one has arrived. */
  lemma {:induction false} LatestRejects(records: seq<Report>, run: Run)
    ensures Latest(records, run).Ok? <==>
            && (forall i :: 0 <= i < |records| ==> Identified(records[i], run))
            && (forall i, j :: 0 <= i < j < |records| ==> !Repeats(records, i, j))
  {
    if records != [] {
      var n := |records| - 1;
      var before := records[..n];
      LatestRejects(before, run);
      assert forall i :: 0 <= i < n ==> before[i] == records[i];
      forall i, j | 0 <= i < j < n ensures Repeats(before, i, j) <==> Repeats(records, i, j) {
        PrefixRepeats(records, i, j);
      }
      if Latest(before, run).Ok? {
        LastRepeats(records, run);
      } else if (forall i :: 0 <= i < n ==> Identified(before[i], run)) {
        var i, j :| 0 <= i < j < n && Repeats(before, i, j);
        PrefixRepeats(records, i, j);
      } else {
        var i :| 0 <= i < n && !Identified(before[i], run);
        assert !Identified(records[i], run);
      }
    }
  }

  lemma PrefixRepeats(records: seq<Report>, i: nat, j: nat)
    requires i < j < |records| - 1
    ensures Repeats(records[..|records| - 1], i, j) <==> Repeats(records, i, j)
  {
    assert forall l :: 0 <= l < |records| - 1 ==> records[..|records| - 1][l] == records[l];
  }

  /** The last report is refused exactly when it is foreign or repeats the highest attempt. */
  lemma LastRepeats(records: seq<Report>, run: Run)
    requires records != [] && Latest(records[..|records| - 1], run).Ok?
    ensures var n := |records| - 1;
            Latest(records, run).Ok? <==>
            Identified(records[n], run) && forall i :: 0 <= i < n ==> !Repeats(records, i, n)
  {
    var n := |records| - 1;
    var before, last := records[..n], records[n];
    var latest := Latest(before, run).value;
    LatestIsHighest(before, run);
    if Identified(last, run) {
      var k := Index(last);
      if k in latest && latest[k].attempt == last.attempt {
        assert Comes(before, latest[k], k, run);
        var i :| 0 <= i < n && before[i] == latest[k];
        forall l | 0 <= l < n && Index(records[l]) == k ensures Attempt(records[l]) <= Attempt(last) {
          assert Known(before[l], latest, run);
        }
        assert Repeats(records, i, n);
      } else {
        forall i | 0 <= i < n ensures !Repeats(records, i, n) {
          NotRepeated(before, last, run, i);
        }
      }
    }
  }

  lemma NotRepeated(before: seq<Report>, last: Report, run: Run, i: nat)
    requires i < |before| && Latest(before, run).Ok? && Identified(last, run)
    requires var latest := Latest(before, run).value;
             !(Index(last) in latest && latest[Index(last)].attempt == last.attempt)
    ensures !Repeats(before + [last], i, |before|)
  {
    var latest := Latest(before, run).value;
    LatestIsHighest(before, run);
    assert Known(before[i], latest, run);
    if Index(before[i]) == Index(last) && Attempt(before[i]) == Attempt(last) {
      var kept := latest[Index(last)];
      assert Comes(before, kept, Index(last), run);
      var j :| 0 <= j < |before| && before[j] == kept;
      assert (before + [last])[j] == kept && Attempt(kept) > Attempt(last);
    }
  }

  /** A second report of a shard's highest attempt is refused in whatever order they arrive. */
  lemma HighestRepeatedIsRefused(records: seq<Report>, run: Run, i: nat, j: nat)
    requires i < j < |records| && Index(records[i]) == Index(records[j]) && Attempt(records[i]) == Attempt(records[j])
    requires forall l :: 0 <= l < |records| && Index(records[l]) == Index(records[i]) ==>
               Attempt(records[l]) <= Attempt(records[i])
    ensures Latest(records, run).Err?
  {
    LatestRejects(records, run);
    assert Repeats(records, i, j);
  }

  /** Arrival order does not matter: two accepted orders of the same reports keep the same ones. */
  lemma LatestIgnoresOrder(a: seq<Report>, b: seq<Report>, run: Run)
    requires multiset(a) == multiset(b) && Latest(a, run).Ok? && Latest(b, run).Ok?
    ensures Latest(a, run) == Latest(b, run)
  {
    var la, lb := Latest(a, run).value, Latest(b, run).value;
    forall k | k in la ensures k in lb && la[k] == lb[k] { KeptInOtherOrder(a, b, run, k); }
    forall k | k in lb ensures k in la && la[k] == lb[k] { KeptInOtherOrder(b, a, run, k); }
    assert la == lb;
  }

  lemma KeptInOtherOrder(a: seq<Report>, b: seq<Report>, run: Run, k: int)
    requires multiset(a) == multiset(b) && Latest(a, run).Ok? && Latest(b, run).Ok?
    requires k in Latest(a, run).value
    ensures k in Latest(b, run).value && Latest(b, run).value[k] == Latest(a, run).value[k]
  {
    hide Latest, Identified;
    SameMembers(a, b);
    var kept := Latest(a, run).value[k];
    var i := KeptAmong(a, b, run, k);
    var j := KeptAmong(b, b, run, k);
    var l := KeptAmong(b, a, run, k);
    LatestIsHighest(a, run);
    assert Known(a[l], Latest(a, run).value, run);
    if i != j {
      HighestRepeatedIsRefused(b, run, if i < j then i else j, if i < j then j else i);
    }
  }

  /** The report that one order keeps, found in another; none of the shard is higher than it,
      and the other order keeps one of the shard too. */
  lemma KeptAmong(a: seq<Report>, b: seq<Report>, run: Run, k: int) returns (i: nat)
    requires multiset(a) == multiset(b) && Latest(a, run).Ok? && Latest(b, run).Ok?
    requires k in Latest(a, run).value
    ensures i < |b| && b[i] == Latest(a, run).value[k] && Index(b[i]) == k && k in Latest(b, run).value
    ensures forall l :: 0 <= l < |b| && Index(b[l]) == k ==> Attempt(b[l]) <= Attempt(b[i])
  {
    hide Latest, Identified;
    var la := Latest(a, run).value;
    LatestIsHighest(a, run);
    LatestIsHighest(b, run);
    SameMembers(a, b);
    assert Comes(a, la[k], k, run);
    i :| 0 <= i < |b| && b[i] == la[k];
    assert Known(b[i], Latest(b, run).value, run);
    forall l | 0 <= l < |b| && Index(b[l]) == k ensures Attempt(b[l]) <= Attempt(b[i]) {
      assert b[l] in a;
      var m :| 0 <= m < |a| && a[m] == b[l];
      assert Known(a[m], la, run);
    }
  }

  // ----- admission of the latest reports -----

  function Expected(nodes: seq<string>, plan: map<string, nat>, index: int): seq<string> {
    Sort(StringLe, Selected(nodes, plan, index))
  }

  /** A shard's report is complete: it collected the shared collection and ran its share. */
  predicate Admitted(r: Report, baseline: Report, plan: map<string, nat>, index: int)
    requires baseline.collected.Some?
  {
    var expected := Some(Expected(baseline.collected.value, plan, index));
    && r.exitCode == Some(0)
    && r.collected == baseline.collected
    && r.environment.Some? && r.environment == baseline.environment
    && r.selected == expected
    && r.executed == expected
  }

  predicate HasFields(r: Report) {
    r.collected.Some? && r.environment.Some? && r.selected.Some? && r.executed.Some?
  }

  ghost predicate Complete(latest: map<int, Report>, count: int) {
    count > 0 && forall k :: k in latest <==> 0 <= k < count
  }

  /** Everything but the last check: all shards present and admitted against the shared plan. */
  ghost predicate AllAdmitted(latest: map<int, Report>, count: int) {
    && Complete(latest, count)
    && latest[0].collected.Some?
    && Assigned(latest[0].collected.value, count).Ok?
    && forall k :: 0 <= k < count ==>
         Admitted(latest[k], latest[0], Assigned(latest[0].collected.value, count).value, k)
  }

  // ----- the shares make up the collection -----

  /** The executed tests of shards 0 to n - 1, in shard order. */
  function Concatenated(nodes: seq<string>, plan: map<string, nat>, n: nat): seq<string> {
    if n == 0 then [] else Concatenated(nodes, plan, n - 1) + Expected(nodes, plan, n - 1)
  }

  lemma ExpectedCount(nodes: seq<string>, plan: map<string, nat>, k: nat, x: string)
    ensures multiset(Expected(nodes, plan, k))[x]
            == if FileOf(x) in plan && plan[FileOf(x)] == k then multiset(nodes)[x] else 0
  {
    SelectedHolds(nodes, plan, k, x);
  }

  lemma ConcatCount<T>(a: seq<T>, b: seq<T>, x: T)
    ensures multiset(a + b)[x] == multiset(a)[x] + multiset(b)[x]
  {
  }

  lemma {:induction false} SharesCount(nodes: seq<string>, plan: map<string, nat>, n: nat, x: string)
    requires FileOf(x) in plan
    ensures multiset(Concatenated(nodes, plan, n))[x] == if plan[FileOf(x)] < n then multiset(nodes)[x] else 0
  {
    hide Sort, Selected, FileOf;
    if n > 0 {
      SharesCount(nodes, plan, n - 1, x);
      ExpectedCount(nodes, plan, n - 1, x);
      ConcatCount(Concatenated(nodes, plan, n - 1), Expected(nodes, plan, n - 1), x);
    }
  }

  lemma SharesHoldOnlyTests(nodes: seq<string>, plan: map<string, nat>, n: nat, x: string)
    requires x in Concatenated(nodes, plan, n)
    ensures x in nodes
  {
    if x !in Concatenated(nodes, plan, n - 1) {
      SameMembers(Expected(nodes, plan, n - 1), Selected(nodes, plan, n - 1));
      SelectedHolds(nodes, plan, n - 1, x);
    }
  }

  /** Together the shares are the collection: every test once for each time it was collected. */
  lemma SharesPartition(nodes: seq<string>, plan: map<string, nat>, count: nat)
    requires Covers(plan, nodes, count)
    ensures multiset(Concatenated(nodes, plan, count)) == multiset(nodes)
  {
    var all := Concatenated(nodes, plan, count);
    forall x ensures multiset(all)[x] == multiset(nodes)[x] {
      assert x in nodes <==> multiset(nodes)[x] > 0;
      assert x in all <==> multiset(all)[x] > 0;
      if x in nodes {
        SharesCount(nodes, plan, count, x);
      } else if x in all {
        SharesHoldOnlyTests(nodes, plan, count, x);
      }
    }
  }

  /** An admitted shard executed exactly the tests of the files planned for it. */
  lemma AdmittedRanItsShare(latest: map<int, Report>, count: int, k: int, x: string)
    requires AllAdmitted(latest, count) && 0 <= k < count
    ensures var nodes := latest[0].collected.value; var plan := Assigned(nodes, count).value;
            && latest[k].executed.Some?
            && (x in latest[k].executed.value <==> x in nodes && FileOf(x) in plan && plan[FileOf(x)] == k)
            && (x in latest[k].executed.value ==> multiset(latest[k].executed.value)[x] == 1)
  {
    var nodes := latest[0].collected.value;
    var plan := Assigned(nodes, count).value;
    assert Admitted(latest[k], latest[0], plan, k);
    SameMembers(Expected(nodes, plan, k), Selected(nodes, plan, k));
    SelectedHolds(nodes, plan, k, x);
    DistinctMultiset(nodes);
  }

  /** Where the join admits every shard, each collected test was executed in exactly one
      shard's latest report, once. */
  lemma AcceptedMeansCovered(latest: map<int, Report>, count: int, x: string)
    requires AllAdmitted(latest, count) && x in latest[0].collected.value
    ensures exists k :: 0 <= k < count && ExecutedOnlyIn(latest, count, x, k)
  {
    hide Assigned, Admitted, FileOf;
    var nodes := latest[0].collected.value;
    PlanFillsEveryShard(nodes, count);
    var k := Assigned(nodes, count).value[FileOf(x)];
    forall j | 0 <= j < count ensures latest[j].executed.Some? && (x in latest[j].executed.value <==> j == k) {
      AdmittedRanItsShare(latest, count, j, x);
    }
    AdmittedRanItsShare(latest, count, k, x);
    assert ExecutedOnlyIn(latest, count, x, k);
  }

  ghost predicate ExecutedOnlyIn(latest: map<int, Report>, count: int, x: string, k: int) {
    && Complete(latest, count) && 0 <= k < count
    && latest[k].executed.Some? && multiset(latest[k].executed.value)[x] == 1
    && forall j :: 0 <= j < count && j != k ==> latest[j].executed.Some? && x !in latest[j].executed.value
  }

  /** And the tests of one file were executed together. */
  lemma AcceptedKeepsFilesWhole(latest: map<int, Report>, count: int, file: string, x: string, y: string, j: int,
                                k: int)
    requires AllAdmitted(latest, count) && 0 <= j < count && 0 <= k < count
    requires InFile(x, file) && InFile(y, file)
    requires latest[j].executed.Some? && x in latest[j].executed.value
    requires latest[k].executed.Some? && y in latest[k].executed.value
    ensures j == k
  {
    FileOfIs(x, file);
    FileOfIs(y, file);
    AdmittedRanItsShare(latest, count, j, x);
    AdmittedRanItsShare(latest, count, k, y);
  }

  /** Shard `k` is the first that is not admitted. */
  ghost predicate FirstFailure(latest: map<int, Report>, baseline: Report, plan: map<string, nat>, k: int)
    requires baseline.collected.Some? && forall j :: 0 <= j <= k ==> j in latest
  {
    k in latest && !Admitted(latest[k], baseline, plan, k)
    && forall j :: 0 <= j < k ==> Admitted(latest[j], baseline, plan, j)
  }

  /** A report that cannot be compared, for want of a field. */
  predicate LacksField(r: Report, baseline: Report) {
    || r.collected.None? || r.environment.None? || r.selected.None? || r.executed.None?
    || baseline.environment.None?
  }

  lemma LackIsFailure(r: Report, baseline: Report, plan: map<string, nat>, k: int)
    requires baseline.collected.Some? && LacksField(r, baseline)
    ensures !Admitted(r, baseline, plan, k)
  {
  }

  lemma AdmittedRan(r: Report, baseline: Report, plan: map<string, nat>, k: int)
    requires baseline.collected.Some? && Admitted(r, baseline, plan, k)
    ensures r.executed == Some(Expected(baseline.collected.value, plan, k))
  {
  }

  /** The admission loop over the shards in order. */
  method AdmitAll(latest: map<int, Report>, baseline: Report, plan: map<string, nat>, count: nat)
    returns (r: Result<seq<string>, JoinError>)
    requires baseline.collected.Some? && forall k :: 0 <= k < count ==> k in latest
    ensures r.Ok? <==> forall k :: 0 <= k < count ==> Admitted(latest[k], baseline, plan, k)
    ensures r.Ok? ==> r.value == Concatenated(baseline.collected.value, plan, count)
    ensures r.Err? ==> r.error == MissingField
                       || (r.error.FailedAdmission? && 0 <= r.error.index < count
                           && FirstFailure(latest, baseline, plan, r.error.index))
    ensures r.Err? ==> exists k :: 0 <= k < count && FirstFailure(latest, baseline, plan, k)
                                   && (r.error == MissingField <==> LacksField(latest[k], baseline))
  {
    hide Sort, Selected, Admitted;
    var seen: seq<string> := [];
    for index := 0 to count
      invariant forall k :: 0 <= k < index ==> Admitted(latest[k], baseline, plan, k)
      invariant seen == Concatenated(baseline.collected.value, plan, index)
    {
      var record := latest[index];
      if !HasFields(record) || baseline.environment.None? {
        assert !Admitted(record, baseline, plan, index) by { LackIsFailure(record, baseline, plan, index); }
        assert FirstFailure(latest, baseline, plan, index);
        return Err(MissingField);
      }
      if !Admitted(record, baseline, plan, index) {
        assert FirstFailure(latest, baseline, plan, index);
        return Err(FailedAdmission(index));
      }
      AdmittedRan(record, baseline, plan, index);
      seen := seen + record.executed.value;
    }
    return Ok(seen);
  }

  /** The selection loop over the reports. */
  method SelectLatest(records: seq<Report>, run: Run) returns (r: Result<map<int, Report>, JoinError>)
    ensures r == Latest(records, run)
  {
    var latest: map<int, Report> := map[];
    for i := 0 to |records|
      invariant Latest(records[..i], run) == Ok(latest)
    {
      TakeNext(records, i);
      assert records[..i + 1][..i] == records[..i];
      var step := Next(latest, records[i], run);
      if step.Err? {
        LatestErrors(records, run, i + 1);
        return step;
      }
      latest := step.value;
    }
    TakeAll(records);
    return Ok(latest);
  }

  /** The first shard that is not admitted lacks a field. */
  ghost predicate MissesField(latest: map<int, Report>, count: int) {
    && Complete(latest, count) && latest[0].collected.Some? && Assigned(latest[0].collected.value, count).Ok?
    && exists k :: 0 <= k < count
         && FirstFailure(latest, latest[0], Assigned(latest[0].collected.value, count).value, k)
         && LacksField(latest[k], latest[0])
  }

  /** The second half of `verify`: admit every shard, then compare coverage. */
  method JoinLatest(latest: map<int, Report>, count: int) returns (r: Result<Summary, JoinError>)
    ensures r.Ok? <==> AllAdmitted(latest, count) && Sorted(StringLe, latest[0].collected.value)
    ensures r == Err(IncompleteCoverage) <==>
            AllAdmitted(latest, count) && !Sorted(StringLe, latest[0].collected.value)
    ensures !(forall k :: k in latest <==> 0 <= k < count) <==> r == Err(MissingShard)
    ensures Complete(latest, count) && latest[0].collected.Some? && Assigned(latest[0].collected.value, count).Err? ==>
              r == Err(Unplannable(Assigned(latest[0].collected.value, count).error))
    ensures r.Err? && r.error.FailedAdmission? ==>
              && Complete(latest, count) && 0 <= r.error.index < count && latest[0].collected.Some?
              && Assigned(latest[0].collected.value, count).Ok?
              && FirstFailure(latest, latest[0], Assigned(latest[0].collected.value, count).value, r.error.index)
    ensures r == Err(MissingField) ==> 0 !in latest || latest[0].collected.None? || MissesField(latest, count)
    ensures r.Err? && r.error.FailedAdmission? ==> !LacksField(latest[r.error.index], latest[0])
    ensures r.Ok? ==> && r.value.collected == r.value.executed == |latest[0].collected.value|
                      && r.value.shards == count && latest[0].environment == Some(r.value.environment)
  {
    hide Sort, Selected, Concatenated;
    if !(forall k | k in latest :: 0 <= k < count) || !(forall k | 0 <= k < count :: k in latest) {
      return Err(MissingShard);
    }
    if 0 !in latest || latest[0].collected.None? {
      return Err(MissingField);
    }
    var baseline := latest[0];
    var nodes := baseline.collected.value;
    var planned := Assignment(nodes, count);
    if planned.Err? {
      return Err(Unplannable(planned.error));
    }
    var admission := AdmitAll(latest, baseline, planned.value, count);
    if admission.Err? {
      return Err(admission.error);
    }
    var seen := admission.value;
    CoverageIsOrder(nodes, planned.value, count);
    if Sort(StringLe, seen) != nodes {
      return Err(IncompleteCoverage);
    }
    assert Admitted(latest[0], baseline, planned.value, 0);
    return Ok(Summary(count, |nodes|, |seen|, baseline.environment.GetOr("")));
  }

  /** `verify`: select the latest attempts and join them. */
  method Verify(records: seq<Report>, run: Run) returns (r: Result<Summary, JoinError>)
    ensures Latest(records, run).Err? ==> r == Err(Latest(records, run).error)
    ensures r.Ok? <==> Accepts(records, run)
    // The last check fires exactly on a complete join of an unsorted collection.
    ensures r == Err(IncompleteCoverage) <==>
            && Latest(records, run).Ok? && AllAdmitted(Latest(records, run).value, run.count)
            && !Sorted(StringLe, Latest(records, run).value[0].collected.value)
    ensures r.Ok? ==> AllOfRun(records, run) && exists all ::
              && RanTogether(records, run, all, r.value.environment)
              && r.value.collected == r.value.executed == |all| && r.value.shards == run.count
  {
    var selection := SelectLatest(records, run);
    if selection.Err? {
      LatestErrorKinds(records, run);
      return Err(selection.error);
    }
    r := JoinLatest(selection.value, run.count);
    if r.Ok? {
      hide Latest, Assigned, Admitted, RanTogether, Sorted, AllOfRun, Identified;
      LatestRejects(records, run);
      AllOfRunIs(records, run);
      ghost var all, environment := AcceptedRanTogether(records, run);
    }
  }

  ghost predicate Accepts(records: seq<Report>, run: Run) {
    && Latest(records, run).Ok? && AllAdmitted(Latest(records, run).value, run.count)
    && Sorted(StringLe, Latest(records, run).value[0].collected.value)
  }

  // ----- acceptance by the reports' fields -----

  /** A report of the highest attempt of its shard. */
  ghost predicate IsHighest(records: seq<Report>, r: Report) {
    r in records
    && forall other :: other in records && other.index == r.index ==> other.attempt.GetOr(0) <= r.attempt.GetOr(0)
  }

  ghost predicate Reported(records: seq<Report>, k: int) {
    exists i :: 0 <= i < |records| && records[i].index == Some(k)
  }

  lemma LatestOfReported(records: seq<Report>, run: Run)
    requires Latest(records, run).Ok?
    ensures var latest := Latest(records, run).value;
            && (forall k :: k in latest ==>
                  0 <= k < run.count && latest[k].index == Some(k) && IsHighest(records, latest[k]))
            && (forall k :: 0 <= k < run.count ==> (k in latest <==> Reported(records, k)))
  {
    hide Latest;
    var latest := Latest(records, run).value;
    LatestIsHighest(records, run);
    forall k | k in latest ensures 0 <= k < run.count && latest[k].index == Some(k) && IsHighest(records, latest[k]) {
      assert Comes(records, latest[k], k, run);
      forall other | other in records && other.index == latest[k].index
        ensures other.attempt.GetOr(0) <= latest[k].attempt.GetOr(0)
      {
        var i :| 0 <= i < |records| && records[i] == other;
        assert Known(records[i], latest, run);
      }
    }
    forall k | 0 <= k < run.count ensures k in latest <==> Reported(records, k) {
      if k in latest { assert Comes(records, latest[k], k, run); }
      if Reported(records, k) {
        var i :| 0 <= i < |records| && records[i].index == Some(k);
        assert Known(records[i], latest, run);
      }
    }
  }

  /** The report tells of a zero exit over the collection `all`, in this environment, in which
      exactly its shard's tests were selected and executed. */
  ghost predicate RanItsShare(r: Report, all: seq<string>, environment: string, plan: map<string, nat>) {
    && r.exitCode == Some(0) && r.collected == Some(all) && r.environment == Some(environment)
    && r.executed.Some? && r.selected == r.executed
    && Sorted(StringLe, r.executed.value) && Distinct(r.executed.value)
    && forall x :: x in r.executed.value <==>
         x in all && FileOf(x) in plan && r.index == Some(plan[FileOf(x)])
  }

  lemma ExpectedIs(all: seq<string>, plan: map<string, nat>, k: int, xs: seq<string>)
    requires Distinct(all)
    ensures xs == Expected(all, plan, k) <==>
            && Sorted(StringLe, xs) && Distinct(xs)
            && forall x :: x in xs <==> x in all && FileOf(x) in plan && plan[FileOf(x)] == k
  {
    hide Expected, FileOf, Sorted, Distinct;
    ExpectedMembers(all, plan, k);
    if Sorted(StringLe, xs) && Distinct(xs) {
      SortedSame(xs, Expected(all, plan, k));
    }
  }

  lemma ExpectedMembers(all: seq<string>, plan: map<string, nat>, k: int)
    requires Distinct(all)
    ensures var xs := Expected(all, plan, k);
            && Sorted(StringLe, xs) && Distinct(xs)
            && forall x :: x in xs <==> x in all && FileOf(x) in plan && plan[FileOf(x)] == k
  {
    hide Sort, FileOf;
    var share, expected := Selected(all, plan, k), Expected(all, plan, k);
    StringLeIsTotalOrder();
    SortSorts(StringLe, share);
    DistinctMultiset(all);
    SameMembers(expected, share);
    forall x
      ensures multiset(expected)[x] <= 1
      ensures x in expected <==> x in all && FileOf(x) in plan && plan[FileOf(x)] == k
    {
      SelectedHolds(all, plan, k, x);
    }
    OnceEach(expected);
  }

  /** Sorted sequences with the same members, each once, are the same. */
  lemma SortedSame(xs: seq<string>, ys: seq<string>)
    requires Sorted(StringLe, xs) && Distinct(xs) && Sorted(StringLe, ys) && Distinct(ys)
    ensures xs == ys <==> forall x :: x in xs <==> x in ys
  {
    if forall x :: x in xs <==> x in ys {
      DistinctMultiset(xs);
      DistinctMultiset(ys);
      assert multiset(xs) == multiset(ys);
      StringLeIsTotalOrder();
      SortedUnique(StringLe, xs, ys);
    }
  }

  lemma OnceEach(xs: seq<string>)
    requires forall x :: multiset(xs)[x] <= 1
    ensures Distinct(xs)
  {
    forall i, j | 0 <= i < j < |xs| ensures xs[i] != xs[j] {
      if xs[i] == xs[j] { OccursTwice(xs, i, j); }
    }
  }

  lemma AdmittedByFields(r: Report, baseline: Report, plan: map<string, nat>, k: int)
    requires baseline.collected.Some? && baseline.environment.Some? && Distinct(baseline.collected.value)
    requires r.index == Some(k)
    ensures Admitted(r, baseline, plan, k) <==>
            RanItsShare(r, baseline.collected.value, baseline.environment.value, plan)
  {
    hide Expected, Sorted, Distinct, FileOf;
    if r.executed.Some? {
      ExpectedIs(baseline.collected.value, plan, k, r.executed.value);
    }
  }

  /** What makes every report one of the run. */
  ghost predicate AllOfRun(records: seq<Report>, run: Run) {
    forall r :: r in records ==>
      && r.schema == Some(1) && r.commit == Some(run.commit) && r.tree == Some(run.tree)
      && r.runId == Some(run.runId) && r.count == Some(run.count)
      && (exists k :: r.index == Some(k) && 0 <= k < run.count)
      && (exists n :: r.attempt == Some(n) && 1 <= n <= 10000)
  }

  lemma AllOfRunIs(records: seq<Report>, run: Run)
    ensures AllOfRun(records, run) <==> forall i :: 0 <= i < |records| ==> Identified(records[i], run)
  {
    if forall i :: 0 <= i < |records| ==> Identified(records[i], run) {
      forall r | r in records ensures AllOfRun([r], run) {
        var i :| 0 <= i < |records| && records[i] == r;
        assert r.index == Some(r.index.value) && r.attempt == Some(r.attempt.value);
      }
      forall r | r in records ensures AllOfRun([r], run) && r in [r] { }
    }
    if AllOfRun(records, run) {
      forall i | 0 <= i < |records| ensures Identified(records[i], run) { assert records[i] in records; }
    }
  }

  /** All highest reports ran their shares of one sorted collection, which can be planned, in one
      environment. */
  ghost predicate RanTogether(records: seq<Report>, run: Run, all: seq<string>, environment: string) {
    && Sorted(StringLe, all) && Assigned(all, run.count).Ok?
    && forall r :: IsHighest(records, r) ==> RanItsShare(r, all, environment, Assigned(all, run.count).value)
  }

  /** The join accepts exactly when all reports are of the run, none repeats the highest attempt
      so far of its shard, every shard has reported, and the highest reports ran their shares of
      one collection in one environment with a zero exit. */
  lemma AcceptsByFields(records: seq<Report>, run: Run)
    ensures Accepts(records, run) <==>
            && AllOfRun(records, run)
            && (forall i, j :: 0 <= i < j < |records| ==> !Repeats(records, i, j))
            && (forall k :: 0 <= k < run.count ==> Reported(records, k))
            && exists all, environment :: RanTogether(records, run, all, environment)
  {
    hide Latest, AllOfRun, Identified, Repeats, Reported, IsHighest, Admitted, RanItsShare, Assigned, Sorted;
    AllOfRunIs(records, run);
    LatestRejects(records, run);
    if Latest(records, run).Ok? {
      LatestOfReported(records, run);
      if all, environment :| RanTogether(records, run, all, environment) {
        if forall k :: 0 <= k < run.count ==> Reported(records, k) {
          TogetherIsAccepted(records, run, all, environment);
        }
      }
      if Accepts(records, run) {
        var all, environment := AcceptedRanTogether(records, run);
      }
    }
  }

  lemma AcceptedRanTogether(records: seq<Report>, run: Run) returns (all: seq<string>, environment: string)
    requires Accepts(records, run)
    ensures RanTogether(records, run, all, environment)
    ensures var first := Latest(records, run).value[0];
            first.collected == Some(all) && first.environment == Some(environment)
  {
    hide Latest, Identified, IsHighest, Admitted, RanItsShare, Sorted, FileOf;
    var latest := Latest(records, run).value;
    all := latest[0].collected.value;
    AdmittedHasEnvironment(latest[0], latest[0], Assigned(all, run.count).value, 0);
    environment := latest[0].environment.value;
    forall r | IsHighest(records, r)
      ensures RanItsShare(r, all, environment, Assigned(all, run.count).value)
    {
      HighestIsLatest(records, run, r);
      AdmittedByFields(r, latest[0], Assigned(all, run.count).value, r.index.value);
    }
  }

  lemma AdmittedHasEnvironment(r: Report, baseline: Report, plan: map<string, nat>, k: int)
    requires baseline.collected.Some? && Admitted(r, baseline, plan, k)
    ensures r.environment.Some?
  {
  }

  lemma TogetherIsAccepted(records: seq<Report>, run: Run, all: seq<string>, environment: string)
    requires Latest(records, run).Ok? && RanTogether(records, run, all, environment)
    requires forall k :: 0 <= k < run.count ==> Reported(records, k)
    ensures Accepts(records, run)
  {
    hide Latest, Identified, IsHighest, Admitted, RanItsShare, Sorted, FileOf, Reported;
    var latest := Latest(records, run).value;
    LatestOfReported(records, run);
    assert 0 in latest;
    RanFields(latest[0], all, environment, Assigned(all, run.count).value);
    forall k | 0 <= k < run.count ensures Admitted(latest[k], latest[0], Assigned(all, run.count).value, k) {
      AdmittedByFields(latest[k], latest[0], Assigned(all, run.count).value, k);
    }
  }

  lemma RanFields(r: Report, all: seq<string>, environment: string, plan: map<string, nat>)
    requires RanItsShare(r, all, environment, plan)
    ensures r.collected == Some(all) && r.environment == Some(environment)
  {
  }

  /** Of a shard's highest reports the selection keeps the only one. */
  lemma HighestIsLatest(records: seq<Report>, run: Run, r: Report)
    requires Latest(records, run).Ok? && IsHighest(records, r)
    ensures var latest := Latest(records, run).value;
            r.index.Some? && 0 <= r.index.value < run.count && r.index.value in latest && latest[r.index.value] == r
  {
    hide Latest;
    var latest := Latest(records, run).value;
    LatestIsHighest(records, run);
    var i :| 0 <= i < |records| && records[i] == r;
    assert Known(records[i], latest, run);
    var kept := latest[Index(r)];
    assert Comes(records, kept, Index(r), run);
    var j :| 0 <= j < |records| && records[j] == kept;
    forall l | 0 <= l < |records| && Index(records[l]) == Index(r) ensures Attempt(records[l]) <= Attempt(r) {
      assert Known(records[l], latest, run);
    }
    if i != j {
      HighestRepeatedIsRefused(records, run, if i < j then i else j, if i < j then j else i);
    }
  }

  lemma {:induction false} LatestErrorKinds(records: seq<Report>, run: Run)
    requires Latest(records, run).Err?
    ensures Latest(records, run).error in {IdentityMismatch, AmbiguousReport}
  {
    if records != [] && Latest(records[..|records| - 1], run).Err? {
      LatestErrorKinds(records[..|records| - 1], run);
    }
  }

  /** The shares sorted together are the collection exactly when it was sorted. */
  lemma CoverageIsOrder(nodes: seq<string>, plan: map<string, nat>, count: nat)
    requires Assigned(nodes, count) == Ok(plan)
    ensures |Concatenated(nodes, plan, count)| == |nodes|
    ensures Sort(StringLe, Concatenated(nodes, plan, count)) == nodes <==> Sorted(StringLe, nodes)
  {
    var seen := Concatenated(nodes, plan, count);
    PlanFillsEveryShard(nodes, count);
    SharesPartition(nodes, plan, count);
    StringLeIsTotalOrder();
    SortCanonical(StringLe, seen, nodes);
    SortedIsFixpoint(StringLe, nodes);
    SameMembers(seen, nodes);
  }

  /** A selection that fails on a prefix fails the same way on the whole. */
  lemma {:induction false} LatestErrors(records: seq<Report>, run: Run, n: nat)
    requires n <= |records| && Latest(records[..n], run).Err?
    ensures Latest(records, run) == Latest(records[..n], run)
  {
    if n == |records| {
      TakeAll(records);
    } else {
      var shorter := records[..|records| - 1];
      assert shorter[..n] == records[..n];
      LatestErrors(shorter, run, n);
    }
  }
}
