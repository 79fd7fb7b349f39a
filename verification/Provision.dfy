/** scripts/provision_sandbox.py: journaled change of a tree's security, and its recovery. */
module Provision {

  /** One held object of the tree: its file identity and its security descriptor. */
  datatype Entry<D> = Entry(id: int, security: D)

  datatype Phase =
    | Prepared | Applying | Applied | RollingBack | RolledBack | RollbackFailed
    | Restoring | Restored | RestoreFailed

  datatype Journal<D> = Journal(phase: Phase, records: seq<Entry<D>>, planned: seq<Entry<D>>)

  /** The record file. Its creation is not atomic, so it can be left torn. */
  datatype Disk<D> = Absent | Torn | Saved(journal: Journal<D>)

  /** What befalls a step: nothing, an exception, the loss of the thread's identity, or the end
      of the process; each of the last three before or after the step has taken effect. */
  datatype Fault = Fine | Error(late: bool) | TokenLost(late: bool) | Crash(late: bool)

  datatype Signal = Done | Raised | Unidentified | Dead

  /** How an operation ends; Stopped is by an exception that no handler here sees to, or by the
      loss of the thread's identity or of the process. */
  datatype Result = Finished | Preview | Refused | RolledBackAfterError | Incomplete | Failed | Stopped

  function Ids<D>(entries: seq<Entry<D>>): seq<int> {
    seq(|entries|, i requires 0 <= i < |entries| => entries[i].id)
  }

  predicate Recoverable(phase: Phase) {
    phase !in {RolledBack, Restored}
  }

  /** The states in which recovery may find object `i`. */
  predicate Permitted<D(==)>(now: Entry<D>, before: Entry<D>, after: Entry<D>, allowOriginal: bool) {
    now == after || (allowOriginal && now == before)
  }

  predicate AllPermitted<D(==)>(tree: seq<Entry<D>>, records: seq<Entry<D>>, expected: seq<Entry<D>>,
                                allowOriginal: bool)
    requires |tree| == |records| == |expected|
  {
    forall i | 0 <= i < |tree| :: Permitted(tree[i], records[i], expected[i], allowOriginal)
  }

  /** All that is validated before the first write. */
  predicate Valid<D(==)>(tree: seq<Entry<D>>, records: seq<Entry<D>>, expected: seq<Entry<D>>, allowOriginal: bool) {
    && Ids(tree) == Ids(records) == Ids(expected)
    && |tree| == |records| == |expected| && AllPermitted(tree, records, expected, allowOriginal)
  }

  /** Object by object: the identities are the recorded ones, and every object is as expected or,
      where that is allowed, as recorded. */
  ghost predicate AsExpected<D>(tree: seq<Entry<D>>, records: seq<Entry<D>>, expected: seq<Entry<D>>,
                                allowOriginal: bool)
  {
    && |tree| == |records| == |expected|
    && forall i :: 0 <= i < |tree| ==>
         && tree[i].id == records[i].id == expected[i].id
         && (tree[i] == expected[i] || (allowOriginal && tree[i] == records[i]))
  }

  lemma ValidIs<D>(tree: seq<Entry<D>>, records: seq<Entry<D>>, expected: seq<Entry<D>>, allowOriginal: bool)
    ensures Valid(tree, records, expected, allowOriginal) <==> AsExpected(tree, records, expected, allowOriginal)
  {
    if Valid(tree, records, expected, allowOriginal) {
      forall i | 0 <= i < |tree| ensures tree[i].id == records[i].id == expected[i].id {
        assert Ids(tree)[i] == tree[i].id && Ids(records)[i] == records[i].id && Ids(expected)[i] == expected[i].id;
      }
      assert forall i :: 0 <= i < |tree| ==> Permitted(tree[i], records[i], expected[i], allowOriginal);
    }
  }

  /** A record from which a restoration goes on, over a tree in a state that it knows. */
  ghost predicate AsRecorded<D>(disk: Disk<D>, tree: seq<Entry<D>>) {
    && disk.Saved?
    && disk.journal.phase in {Prepared, Applying, Applied, RollingBack, RollbackFailed, Restoring, RestoreFailed}
    && AsExpected(tree, disk.journal.records, disk.journal.planned, disk.journal.phase != Applied)
  }

  lemma AcceptableMeans<D>(disk: Disk<D>, tree: seq<Entry<D>>)
    requires Acceptable(disk, tree)
    ensures disk.Saved? && Valid(tree, disk.journal.records, disk.journal.planned, disk.journal.phase != Applied)
    ensures AsExpected(tree, disk.journal.records, disk.journal.planned, disk.journal.phase != Applied)
  {
    ValidIs(tree, disk.journal.records, disk.journal.planned, disk.journal.phase != Applied);
  }

  lemma AcceptableIs<D>(disk: Disk<D>, tree: seq<Entry<D>>)
    ensures Acceptable(disk, tree) <==> AsRecorded(disk, tree)
  {
    if disk.Saved? {
      ValidIs(tree, disk.journal.records, disk.journal.planned, disk.journal.phase != Applied);
    }
  }

  ghost predicate Between<D>(tree: seq<Entry<D>>, a: seq<Entry<D>>, b: seq<Entry<D>>) {
    && |tree| == |a| == |b|
    && forall i :: 0 <= i < |tree| ==> tree[i] == a[i] || tree[i] == b[i]
  }

  /** What the record file says about the tree, whatever has happened so far. */
  ghost predicate PhaseBound<D>(disk: Disk<D>, tree: seq<Entry<D>>, original: seq<Entry<D>>, planned: seq<Entry<D>>) {
    && Ids(tree) == Ids(original) == Ids(planned)
    && match disk
       case Absent => tree == original
       case Torn => tree == original
       case Saved(j) =>
         && j.records == original && j.planned == planned
         && match j.phase
            case Prepared => tree == original
            case Applied => tree == planned
            case RolledBack => tree == original
            case Restored => tree == original
            case _ => Between(tree, original, planned)
  }

  // ----- outside edits -----

  /** What others make of object `i`'s security, met by the program at time `n`. */
  type Edits<!D> = (nat, nat, D) -> D

  /** Nobody else changes anything. */
  ghost predicate Still<D(!new)>(outside: Edits<D>) {
    forall n, i, d :: outside(n, i, d) == d
  }

  function Nobody<D>(): Edits<D> { (n, i, d) => d }

  lemma NobodyEdits<D(!new)>()
    ensures Still(Nobody<D>())
  {
  }

  function Edited<D>(tree: seq<Entry<D>>, outside: Edits<D>, n: nat): (r: seq<Entry<D>>)
    ensures |r| == |tree|
  {
    seq(|tree|, i requires 0 <= i < |tree| => Entry(tree[i].id, outside(n, i, tree[i].security)))
  }

  /** An edit within the span left object `i` as it is. */
  ghost predicate LeftBy<D(!new)>(outside: Edits<D>, i: nat, now: D, from: nat, to: nat) {
    exists n, d :: from <= n <= to && d != now && outside(n, i, d) == now
  }

  /** Every object is as before, as recorded, or as an outside edit left it. */
  ghost predicate Explained<D(!new)>(tree: seq<Entry<D>>, before: seq<Entry<D>>, records: seq<Entry<D>>,
                                     outside: Edits<D>, from: nat, to: nat)
  {
    && |tree| == |before|
    && forall i :: 0 <= i < |tree| ==>
         || tree[i] == before[i] || (i < |records| && tree[i] == records[i])
         || LeftBy(outside, i, tree[i].security, from, to)
  }

  lemma ExplainedEdited<D(!new)>(tree: seq<Entry<D>>, before: seq<Entry<D>>, records: seq<Entry<D>>,
                                 outside: Edits<D>, from: nat, to: nat, n: nat)
    requires Explained(tree, before, records, outside, from, to) && from <= n && to <= n
    ensures Explained(Edited(tree, outside, n), before, records, outside, from, n)
  {
    var after := Edited(tree, outside, n);
    forall i | 0 <= i < |after|
      ensures after[i] == before[i] || (i < |records| && after[i] == records[i])
              || LeftBy(outside, i, after[i].security, from, n)
    {
      if after[i] != tree[i] {
        assert outside(n, i, tree[i].security) == after[i].security;
      } else if LeftBy(outside, i, tree[i].security, from, to) {
        var m, d :| from <= m <= to && d != tree[i].security && outside(m, i, d) == tree[i].security;
      }
    }
  }

  lemma ExplainedWrite<D(!new)>(tree: seq<Entry<D>>, before: seq<Entry<D>>, records: seq<Entry<D>>,
                                outside: Edits<D>, from: nat, to: nat, i: nat)
    requires Explained(tree, before, records, outside, from, to) && i < |tree| && i < |records|
    ensures Explained(tree[i := records[i]], before, records, outside, from, to)
  {
    hide LeftBy;
  }

  /** A span after a span is explained from the start of the first. */
  lemma ExplainedAfter<D(!new)>(tree: seq<Entry<D>>, now: seq<Entry<D>>, before: seq<Entry<D>>, records: seq<Entry<D>>,
                                outside: Edits<D>, from: nat, via: nat, to: nat)
    requires Explained(now, before, records, outside, from, via) && Explained(tree, now, records, outside, via, to)
    requires from <= via <= to
    ensures Explained(tree, before, records, outside, from, to)
  {
    forall i | 0 <= i < |tree|
      ensures tree[i] == before[i] || (i < |records| && tree[i] == records[i])
              || LeftBy(outside, i, tree[i].security, from, to)
    {
      if tree[i] == now[i] && LeftBy(outside, i, now[i].security, from, via) {
        var n, d :| from <= n <= via && d != now[i].security && outside(n, i, d) == now[i].security;
      } else if LeftBy(outside, i, tree[i].security, via, to) {
        var n, d :| via <= n <= to && d != tree[i].security && outside(n, i, d) == tree[i].security;
      }
    }
  }

  lemma ExplainedSame<D(!new)>(tree: seq<Entry<D>>, records: seq<Entry<D>>, outside: Edits<D>, from: nat, to: nat)
    ensures Explained(tree, tree, records, outside, from, to)
  {
  }

  lemma StillEdited<D(!new)>(tree: seq<Entry<D>>, outside: Edits<D>, n: nat)
    ensures Ids(Edited(tree, outside, n)) == Ids(tree)
    ensures Still(outside) ==> Edited(tree, outside, n) == tree
  {
  }

  /** The first `i` objects are as recorded, the others as before. */
  ghost predicate Advanced<D>(tree: seq<Entry<D>>, before: seq<Entry<D>>, records: seq<Entry<D>>, i: nat) {
    && |tree| == |before| == |records|
    && forall k :: 0 <= k < |tree| ==> tree[k] == if k < i then records[k] else before[k]
  }

  lemma AdvancedBy<D>(tree: seq<Entry<D>>, now: seq<Entry<D>>, before: seq<Entry<D>>, records: seq<Entry<D>>, i: nat)
    requires Advanced(now, before, records, i) && i < |now|
    requires tree == now || tree == now[i := records[i]]
    ensures Between(tree, before, records)
    ensures tree[i] == records[i] ==> Advanced(tree, before, records, i + 1)
  {
  }

  /** The object whose turn it is is still permitted. */
  lemma AdvancedPermits<D>(tree: seq<Entry<D>>, before: seq<Entry<D>>, records: seq<Entry<D>>, expected: seq<Entry<D>>,
                           i: nat, allowOriginal: bool)
    requires Advanced(tree, before, records, i) && i < |tree| && |expected| == |records|
    requires AllPermitted(before, records, expected, allowOriginal)
    ensures Permitted(tree[i], records[i], expected[i], allowOriginal)
  {
  }

  /** Every changed object has its write, over what it was before. */
  ghost predicate Logged<D>(tree: seq<Entry<D>>, before: seq<Entry<D>>, writes: seq<(nat, Entry<D>)>) {
    |tree| == |before| && forall k :: 0 <= k < |tree| && tree[k] != before[k] ==> (k, before[k]) in writes
  }

  lemma LoggedNext<D>(tree: seq<Entry<D>>, now: seq<Entry<D>>, before: seq<Entry<D>>, records: seq<Entry<D>>, i: nat,
                      writes: seq<(nat, Entry<D>)>, more: seq<(nat, Entry<D>)>)
    requires Advanced(now, before, records, i) && i < |now| && Logged(now, before, writes)
    requires tree == now || tree == now[i := records[i]]
    requires tree != now ==> more == [(i, now[i])]
    ensures Logged(tree, before, writes + more)
  {
  }

  lemma AdvancedFully<D>(tree: seq<Entry<D>>, before: seq<Entry<D>>, records: seq<Entry<D>>)
    requires |before| == |records|
    ensures Advanced(before, before, records, 0)
    ensures Advanced(tree, before, records, |tree|) ==> tree == records && Between(tree, before, records)
  {
  }

  class Host<D(==,!new)> {
    var tree: seq<Entry<D>>
    var disk: Disk<D>
    var clock: nat
    const faults: nat -> Fault
    ghost var asked: seq<Phase>  // the phases that the record was asked to hold, in order

    constructor (tree: seq<Entry<D>>, faults: nat -> Fault)
      ensures this.tree == tree && this.disk == Absent && this.faults == faults && clock == 0 && asked == []
    {
      this.asked := [];
      this.tree, this.disk, this.clock, this.faults := tree, Absent, 0, faults;
    }

    /** No step of the span fails. */
    ghost predicate Untroubled(from: nat, to: nat) {
      forall n :: from <= n < to ==> faults(n) == Fine
    }

    /** Nothing in a span of steps lost the thread's identity or the process, unless the last
        did and `s` reports it. */
    ghost predicate StopsAtLoss(from: nat, to: nat, s: Signal) {
      && from <= to
      && forall n :: from <= n < (if s in {Done, Raised} then to else to - 1) ==>
           faults(n).Fine? || faults(n).Error?
    }

    /** Step `n` cost the thread's identity or the process. */
    ghost predicate Lost(n: int) {
      n >= 0 && (faults(n).TokenLost? || faults(n).Crash?)
    }

    /** Spans follow on one another while nothing is lost. */
    lemma Continues(from: nat, via: nat, to: nat, s: Signal, t: Signal)
      requires StopsAtLoss(from, via, s) && s in {Done, Raised} && StopsAtLoss(via, to, t)
      ensures from <= via <= to && StopsAtLoss(from, to, t)
    {
    }

    lemma Stops(from: nat, to: nat, s: Signal)
      requires StopsAtLoss(from, to, s)
      ensures from <= to && StopsAtLoss(from, to, Unidentified)
    {
    }

    lemma NoSteps(n: nat)
      ensures StopsAtLoss(n, n, Unidentified) && Untroubled(n, n)
    {
    }

    lemma Failure(from: nat, to: nat) returns (n: nat)
      requires !Untroubled(from, to)
      ensures from <= n < to && faults(n) != Fine
    {
      n :| from <= n < to && faults(n) != Fine;
    }

    lemma Parts(from: nat, via: nat, to: nat)
      requires from <= via <= to
      ensures Untroubled(from, to) <==> Untroubled(from, via) && Untroubled(via, to)
    {
    }

    lemma Onward(from: nat, to: nat, s: Signal)
      requires StopsAtLoss(from, to, s)
      ensures from <= to
      ensures s == Done ==> StopsAtLoss(from, to, Raised)
    {
    }

    /** The next step's fate. */
    method Step() returns (effect: bool, s: Signal)
      modifies this`clock
      ensures clock == old(clock) + 1 && StopsAtLoss(old(clock), clock, s)
      ensures faults(old(clock)) == Fine ==> effect && s == Done
      ensures s == Done ==> effect
      ensures s in {Unidentified, Dead} <==> Lost(clock - 1)
    {
      var f := faults(clock);
      clock := clock + 1;
      match f
      case Fine => effect, s := true, Done;
      case Error(late) => effect, s := late, Raised;
      case TokenLost(late) => effect, s := late, Unidentified;
      case Crash(late) => effect, s := late, Dead;
    }

    /** `save_record(create=True)`: exclusive creation, then writing. */
    method Create(j: Journal<D>) returns (s: Signal)
      modifies this`clock, this`disk, this`asked
      ensures StopsAtLoss(old(clock), clock, s)
      ensures asked == old(asked) + [j.phase] && (s in {Unidentified, Dead} ==> Lost(clock - 1))
      ensures old(disk) != Absent ==> disk == old(disk) && s == Raised
      ensures old(disk) == Absent ==> disk == Absent || disk == Torn || disk == Saved(j)
      ensures s == Done ==> disk == Saved(j)
      ensures Untroubled(old(clock), clock) && old(disk) == Absent ==> s == Done
    {
      asked := asked + [j.phase];
      if disk != Absent {
        return Raised;
      }
      var created;
      created, s := Step();
      if created { disk := Torn; }
      if s != Done { return; }
      var written;
      written, s := Step();
      if written { disk := Saved(j); }
    }

    /** `save_record`: an atomic replacement. */
    method Save(j: Journal<D>) returns (s: Signal)
      modifies this`clock, this`disk, this`asked
      ensures StopsAtLoss(old(clock), clock, s)
      ensures asked == old(asked) + [j.phase] && (s in {Unidentified, Dead} ==> Lost(clock - 1))
      ensures clock == old(clock) + 1
      ensures disk == old(disk) || disk == Saved(j)
      ensures s == Done ==> disk == Saved(j)
      ensures Untroubled(old(clock), clock) ==> s == Done
    {
      asked := asked + [j.phase];
      var replaced;
      replaced, s := Step();
      if replaced { disk := Saved(j); }
    }

    /** What others have done to the tree by now. */
    method MeetEdits(outside: Edits<D>)
      modifies this`tree
      ensures tree == Edited(old(tree), outside, clock)
    {
      tree := Edited(tree, outside, clock);
    }

    /** One object's turn: observe it, and write where it differs from its record. These are two
        steps, so an edit between them is lost. */
    method RestoreObject(i: nat, records: seq<Entry<D>>, expected: seq<Entry<D>>, allowOriginal: bool,
                         outside: Edits<D>) returns (s: Signal, ghost writes: seq<(nat, Entry<D>)>)
      requires i < |tree| == |records| == |expected|
      modifies this`clock, this`tree
      ensures StopsAtLoss(old(clock), clock, s)
      ensures |tree| == |old(tree)| && (s in {Unidentified, Dead} ==> Lost(clock - 1))
      ensures forall w :: w in writes ==> w.0 == i && w.1 == expected[i] && w.1 != records[i]
      ensures Explained(tree, old(tree), records, outside, old(clock), clock)
      ensures Still(outside) ==> tree == old(tree) || tree == old(tree)[i := records[i]]
      ensures Still(outside) && tree != old(tree) ==> writes == [(i, old(tree)[i])]
      ensures Still(outside) && s == Done ==> tree[i] == records[i]
      ensures Still(outside) && Untroubled(old(clock), clock)
              && Permitted(old(tree)[i], records[i], expected[i], allowOriginal)
              ==> s == Done
    {
      hide Explained, Still, Edited;
      ghost var before, start := tree, clock;
      writes := [];
      ExplainedSame(before, records, outside, start, start);
      ExplainedEdited(before, before, records, outside, start, start, clock);
      StillEdited(tree, outside, clock);
      MeetEdits(outside);
      var ok;
      ok, s := Step(); // boundaries, and what the object is now
      ExplainedSame(tree, records, outside, start, clock);
      ExplainedAfter(tree, tree, before, records, outside, start, start, clock);
      if s != Done { return; }
      var observed := tree[i];
      if !Permitted(observed, records[i], expected[i], allowOriginal) {
        return Raised, writes;
      }
      if observed == records[i] { return; }
      ghost var seen := clock;
      ExplainedEdited(tree, before, records, outside, start, seen, seen);
      StillEdited(tree, outside, clock);
      MeetEdits(outside);
      ok, s := Step();
      ExplainedSame(tree, records, outside, seen, clock);
      ExplainedAfter(tree, tree, before, records, outside, start, seen, clock);
      if ok {
        ExplainedWrite(tree, before, records, outside, start, clock, i);
        tree := tree[i := records[i]];
        writes := [(i, observed)];
      }
      if s != Done { return; }
      ExplainedEdited(tree, before, records, outside, start, clock, clock);
      StillEdited(tree, outside, clock);
      MeetEdits(outside);
      if tree[i] != records[i] {
        return Raised, writes;
      }
    }

    /** `SecurityTree.restore`: validate every object, then write those that differ, one by one.
        `writes` says over which objects, and what was observed of each before. */
    method RestoreTree(records: seq<Entry<D>>, expected: seq<Entry<D>>, allowOriginal: bool, outside: Edits<D>)
      returns (s: Signal, ghost writes: seq<(nat, Entry<D>)>)
      modifies this`clock, this`tree
      ensures StopsAtLoss(old(clock), clock, s)
      ensures |tree| == |old(tree)| && (s in {Unidentified, Dead} ==> Lost(clock - 1))
      // Whatever others do meanwhile: nothing is written unless every object was permitted at first,
      ensures writes != [] ==>
                AsExpected(Edited(old(tree), outside, old(clock)), records, expected, allowOriginal)
      // and each only if observed as expected again, and not as recorded;
      ensures forall w :: w in writes ==>
                w.0 < |records| == |expected| && w.1 == expected[w.0] && w.1 != records[w.0]
      ensures Still(outside) ==> forall k :: 0 <= k < |tree| && tree[k] != old(tree)[k] ==> (k, old(tree)[k]) in writes
      // every object is as before, as recorded or as an edit left it, and success means as recorded.
      ensures Explained(tree, old(tree), records, outside, old(clock), clock)
      ensures s == Done ==> tree == records
      // Without edits a failed validation leaves the tree alone, and only it or a fault stops the rest.
      ensures Still(outside) ==>
                tree == old(tree)
                || (Between(tree, old(tree), records) && AsExpected(old(tree), records, expected, allowOriginal))
      ensures Still(outside) && Untroubled(old(clock), clock) && AsExpected(old(tree), records, expected, allowOriginal)
              ==> s == Done
    {
      ValidIs(tree, records, expected, allowOriginal);
      ValidIs(Edited(tree, outside, clock), records, expected, allowOriginal);
      hide AsExpected;
      hide Explained, Host.StopsAtLoss, Advanced, AllPermitted, Between, Still, Edited;
      ghost var before, start := tree, clock;
      writes := [];
      ExplainedSame(before, records, outside, start, start);
      ExplainedEdited(before, before, records, outside, start, start, clock);
      StillEdited(tree, outside, clock);
      MeetEdits(outside);
      ghost var found := tree;
      var ok;
      ok, s := Step(); // boundaries and snapshot
      ExplainedSame(tree, records, outside, start, clock);
      ExplainedAfter(tree, tree, before, records, outside, start, start, clock);
      if s != Done { return; }
      Onward(start, clock, s);
      if Ids(tree) != Ids(records) || Ids(tree) != Ids(expected) {
        return Raised, writes;
      }
      LengthsAgree(tree, records);
      LengthsAgree(tree, expected);
      // Here the object may be in its expected state, or already in the recorded one.
      if !AllPermitted(tree, records, expected, allowOriginal) {
        return Raised, writes;
      }
      AdvancedFully(tree, before, records);
      for i := 0 to |tree|
        invariant StopsAtLoss(start, clock, s) && s == Done && |tree| == |before|
        invariant start <= clock && Explained(tree, before, records, outside, start, clock)
        invariant forall w :: w in writes ==>
                    w.0 < |records| && w.1 == expected[w.0] && w.1 != records[w.0]
        invariant Still(outside) ==> Advanced(tree, before, records, i)
        invariant Still(outside) ==> Logged(tree, before, writes)
      {
        ghost var now, turn := tree, clock;
        if Still(outside) { AdvancedPermits(tree, before, records, expected, i, allowOriginal); }
        var t;
        ghost var more;
        t, more := RestoreObject(i, records, expected, allowOriginal, outside);
        Continues(start, turn, clock, s, t);
        s := t;
        Onward(turn, clock, t);
        ExplainedAfter(tree, now, before, records, outside, start, turn, clock);
        if Still(outside) {
          LoggedNext(tree, now, before, records, i, writes, more);
          AdvancedBy(tree, now, before, records, i);
        }
        writes := writes + more;
        if s != Done { return; }
      }
      AdvancedFully(tree, before, records);
      ghost var turn := clock;
      ExplainedEdited(tree, before, records, outside, start, turn, turn);
      StillEdited(tree, outside, clock);
      MeetEdits(outside);
      var t;
      ok, t := Step(); // final snapshot
      ExplainedSame(tree, records, outside, turn, clock);
      ExplainedAfter(tree, tree, before, records, outside, start, turn, clock);
      Continues(start, turn, clock, s, t);
      s := t;
      if s == Done && tree != records {
        Onward(start, clock, s);
        return Raised, writes;
      }
    }

    /** `_provision`: `planned` is what `tree.plan` makes of the current descriptors. */
    method Provision(planned: seq<Entry<D>>, apply: bool) returns (r: Result)
      requires Ids(planned) == Ids(tree)
      modifies this`clock, this`tree, this`disk, this`asked
      // Nothing follows the loss of the thread's identity, not even a rollback.
      ensures StopsAtLoss(old(clock), clock, Unidentified)
      ensures !apply || old(disk) != Absent ==> tree == old(tree) && disk == old(disk) && r != Finished
      ensures apply && old(disk) == Absent ==> PhaseBound(disk, tree, old(tree), planned)
      ensures r == Finished ==> disk == Saved(Journal(Applied, old(tree), planned)) && tree == planned
      ensures r == RolledBackAfterError ==> disk == Saved(Journal(RolledBack, old(tree), planned)) && tree == old(tree)
      // Every other exception is met by a rollback, and a failed rollback by asking for its record.
      ensures r == Incomplete ==> |asked| > 1 && asked[|asked| - 1] == RollbackFailed
                                  && asked[|asked| - 2] in {RollingBack, RolledBack}
      ensures r == Stopped ==> Lost(clock - 1) || asked == old(asked) + [Prepared]
      ensures r == Preview <==> !apply
      ensures r !in {Refused, Failed}
      // One failure is rolled back: it takes a second for an incomplete rollback.
      ensures r == Incomplete ==>
                exists n, m :: old(clock) <= n < m < clock && faults(n) != Fine && faults(m) != Fine
      ensures Untroubled(old(clock), clock) && apply && old(disk) == Absent ==> r == Finished
    {
      hide PhaseBound, Between, Ids, Host.StopsAtLoss, Host.Untroubled, Host.Lost;
      ghost var start := clock;
      NoSteps(start);
      if !apply {
        return Preview;
      }
      var original := tree;
      LengthsAgree(original, planned);
      BoundBefore(original, planned);
      var payload := Journal(Prepared, original, planned);
      var s := Create(payload);
      Stops(start, clock, s);
      if s != Done {
        return Stopped;
      }
      ghost var created := clock;
      var t := Activate(payload);
      Continues(start, created, clock, s, t);
      Stops(start, clock, t);
      Parts(start, created, clock);
      if t == Done {
        return Finished;
      }
      if t != Raised {
        return Stopped;
      }
      ghost var raised := clock;
      ghost var first := Failure(created, raised);
      s := RollBack(payload);
      Continues(start, raised, clock, t, s);
      Stops(start, clock, s);
      Parts(start, raised, clock);
      if s == Done {
        return RolledBackAfterError;
      }
      if s != Raised {
        return Stopped;
      }
      ghost var failed := clock;
      ghost var second := Failure(raised, failed);
      BoundAfterFailure(disk, tree, original, planned);
      t := Save(payload.(phase := RollbackFailed));
      Continues(start, failed, clock, s, t);
      Stops(start, clock, t);
      Parts(start, failed, clock);
      return Incomplete;
    }

    /** The guarded part of `_provision`. */
    method Activate(payload: Journal<D>) returns (s: Signal)
      requires disk == Saved(payload) && payload.phase == Prepared && tree == payload.records
      requires Ids(payload.planned) == Ids(tree)
      modifies this`clock, this`tree, this`disk, this`asked
      ensures StopsAtLoss(old(clock), clock, s)
      ensures PhaseBound(disk, tree, payload.records, payload.planned)
      ensures disk.Saved? && disk.journal.phase in {Prepared, Applying, Applied}
      ensures s in {Unidentified, Dead} ==> Lost(clock - 1)
      ensures s == Done ==> disk == Saved(payload.(phase := Applied)) && tree == payload.planned
      ensures Untroubled(old(clock), clock) ==> s == Done
    {
      LengthsAgree(payload.records, payload.planned);
      var created;
      created, s := Step(); // the profile
      if s != Done { return; }
      s := Save(payload.(phase := Applying));
      if s != Done { return; }
      ghost var writes;
      ValidIs(tree, payload.planned, payload.records, false);
      s, writes := RestoreTree(payload.planned, payload.records, false, Nobody());
      NobodyEdits<D>();
      SameIds(tree, payload.records, payload.planned);
      if s != Done { return; }
      s := Save(payload.(phase := Applied));
    }

    /** The exception handler of `_provision`. */
    method RollBack(payload: Journal<D>) returns (s: Signal)
      requires PhaseBound(disk, tree, payload.records, payload.planned) && disk.Saved?
      requires disk.journal.phase in {Prepared, Applying, Applied}
      modifies this`clock, this`tree, this`disk, this`asked
      ensures StopsAtLoss(old(clock), clock, s)
      ensures PhaseBound(disk, tree, payload.records, payload.planned) && disk.Saved?
      ensures disk.journal.phase == RolledBack || disk.journal.phase == RollingBack
              || (disk == old(disk) && tree == old(tree))
      ensures asked == old(asked) + [RollingBack] || asked == old(asked) + [RollingBack, RolledBack]
      ensures s in {Unidentified, Dead} ==> Lost(clock - 1)
      ensures s == Done ==> disk == Saved(payload.(phase := RolledBack)) && tree == payload.records
      ensures Untroubled(old(clock), clock) ==> s == Done
    {
      LengthsAgree(payload.records, payload.planned);
      LengthsAgree(tree, payload.planned);
      s := Save(payload.(phase := RollingBack));
      if s != Done { return; }
      ghost var writes;
      RollBackIsAllowed(disk, tree, payload.records, payload.planned);
      s, writes := RestoreTree(payload.records, payload.planned, true, Nobody());
      NobodyEdits<D>();
      SameIds(tree, payload.records, payload.planned);
      if s != Done { return; }
      s := Save(payload.(phase := RolledBack));
    }

    /** `_restore_record`: validate the record and every object, then restore. */
    method Restore(apply: bool) returns (r: Result)
      modifies this`clock, this`tree, this`disk, this`asked
      // Nothing follows the loss of the thread's identity, not even a rollback.
      ensures StopsAtLoss(old(clock), clock, Unidentified)
      ensures !apply || !AsRecorded(old(disk), old(tree)) ==> tree == old(tree) && disk == old(disk) && r != Finished
      // The recorded states stay a bound through every interruption.
      ensures forall original, planned :: PhaseBound(old(disk), old(tree), original, planned) ==>
                PhaseBound(disk, tree, original, planned)
      ensures r == Finished ==> disk.Saved? && disk.journal.phase == Restored && tree == disk.journal.records
      ensures Untroubled(old(clock), clock) && apply && AsRecorded(old(disk), old(tree)) ==> r == Finished
      ensures Untroubled(old(clock), clock) && !AsRecorded(old(disk), old(tree)) ==> r == Refused
      ensures Untroubled(old(clock), clock) && !apply && AsRecorded(old(disk), old(tree)) ==> r == Preview
      ensures r == Failed ==> |asked| > 0 && asked[|asked| - 1] == RestoreFailed
      // An exception while objects are restored is always answered by asking for that record.
      ensures r == Stopped ==> Lost(clock - 1) || clock == old(clock) + 1
                               || (clock == old(clock) + 2 && asked == old(asked) + [Restoring])
      ensures r !in {RolledBackAfterError, Incomplete}
    {
      AcceptableIs(disk, tree);
      hide AsRecorded;
      var seen, s := Step(); // reading the record, holding and inspecting the tree
      if s != Done {
        return Stopped;
      }
      if !disk.Saved? || !Recoverable(disk.journal.phase) {
        return Refused;
      }
      var payload := disk.journal;
      if Ids(tree) != Ids(payload.records) || Ids(tree) != Ids(payload.planned) {
        return Refused;
      }
      LengthsAgree(tree, payload.records);
      LengthsAgree(tree, payload.planned);
      var allowOriginal := payload.phase != Applied;
      if !AllPermitted(tree, payload.records, payload.planned, allowOriginal) {
        return Refused;
      }
      if !apply {
        return Preview;
      }
      assert Between(tree, payload.records, payload.planned);
      r := RestoreValidated(payload);
    }

    /** The journaled part of `_restore_record`, on a validated tree. */
    method RestoreValidated(payload: Journal<D>) returns (r: Result)
      requires disk == Saved(payload) && Acceptable(disk, tree)
      modifies this`clock, this`tree, this`disk, this`asked
      ensures StopsAtLoss(old(clock), clock, Unidentified)
      ensures (disk == old(disk) && tree == old(tree))
              || (&& disk.Saved? && disk.journal.phase in {Restoring, Restored, RestoreFailed}
                  && disk == Saved(payload.(phase := disk.journal.phase))
                  && Ids(tree) == Ids(payload.records) && Between(tree, payload.records, payload.planned)
                  && (disk.journal.phase == Restored ==> tree == payload.records))
      ensures r == Finished ==> disk == Saved(payload.(phase := Restored)) && tree == payload.records
      ensures Untroubled(old(clock), clock) ==> r == Finished
      ensures r == Failed ==> |asked| > 0 && asked[|asked| - 1] == RestoreFailed
      ensures r == Stopped ==> Lost(clock - 1) || (clock == old(clock) + 1 && asked == old(asked) + [Restoring])
      ensures r in {Finished, Failed, Stopped}
    {
      hide Acceptable, Valid, AsExpected, Between, Ids, Still, Host.StopsAtLoss, Host.Untroubled;
      ghost var before, start := tree, clock;
      var allowOriginal := payload.phase != Applied;
      AcceptableMeans(disk, tree);
      RestoredBetween(before, before, payload.records, payload.planned, allowOriginal);
      var s := Save(payload.(phase := Restoring));
      Stops(start, clock, s);
      if s != Done {
        return Stopped;
      }
      ghost var saved := clock;
      ghost var writes;
      var t;
      t, writes := RestoreTree(payload.records, payload.planned, allowOriginal, Nobody());
      NobodyEdits<D>();
      RestoredBetween(before, tree, payload.records, payload.planned, allowOriginal);
      Continues(start, saved, clock, s, t);
      Stops(start, clock, t);
      Parts(start, saved, clock);
      if t == Done {
        ghost var restored := clock;
        s := Save(payload.(phase := Restored));
        Continues(start, restored, clock, t, s);
        Stops(start, clock, s);
        Parts(start, restored, clock);
        if s == Done {
          return Finished;
        }
        t := s;
      }
      if t != Raised {
        return Stopped;
      }
      ghost var failed := clock;
      s := Save(payload.(phase := RestoreFailed));
      Continues(start, failed, clock, t, s);
      Stops(start, clock, s);
      Parts(start, failed, clock);
      return Failed;
    }

    /** An operator's whole history: one provisioning, then any number of restorations, each
        possibly cut short; `last` is when the last of them starts. */
    method Operate(planned: seq<Entry<D>>, attempts: nat) returns (ghost last: nat)
      requires Ids(planned) == Ids(tree) && disk == Absent
      modifies this`clock, this`tree, this`disk, this`asked
      ensures PhaseBound(disk, tree, old(tree), planned)
      ensures Untroubled(last, clock) ==> tree == old(tree)
      ensures Untroubled(old(clock), clock) ==> disk == Saved(Journal(Restored, old(tree), planned))
    {
      var r := Provision(planned, true);
      PlannedIsRecorded(disk, tree, old(tree), planned);
      for i := 0 to attempts
        invariant PhaseBound(disk, tree, old(tree), planned) && old(clock) <= clock
        invariant Untroubled(old(clock), clock) ==>
                    disk == Saved(Journal(if i == 0 then Applied else Restored, old(tree), planned))
      {
        PlannedIsRecorded(disk, tree, old(tree), planned);
        r := Restore(true);
      }
      PlannedIsRecorded(disk, tree, old(tree), planned);
      last := clock;
      BoundIsAcceptable(disk, tree, old(tree), planned);
      r := Restore(true);
    }
  }

  /** The record and the tree pass all validation of a restoration. */
  predicate Acceptable<D(==)>(disk: Disk<D>, tree: seq<Entry<D>>) {
    && disk.Saved? && Recoverable(disk.journal.phase)
    && Valid(tree, disk.journal.records, disk.journal.planned, disk.journal.phase != Applied)
  }

  lemma LengthsAgree<D>(a: seq<Entry<D>>, b: seq<Entry<D>>)
    requires Ids(a) == Ids(b)
    ensures |a| == |b|
  {
    assert |Ids(a)| == |a| && |Ids(b)| == |b|;
  }

  lemma SameIds<D>(tree: seq<Entry<D>>, a: seq<Entry<D>>, b: seq<Entry<D>>)
    requires Between(tree, a, b) && Ids(a) == Ids(b)
    ensures Ids(tree) == Ids(a)
  {
    forall i | 0 <= i < |tree| ensures tree[i].id == a[i].id {
      assert Ids(a)[i] == a[i].id && Ids(b)[i] == b[i].id;
    }
  }

  lemma BoundBefore<D>(original: seq<Entry<D>>, planned: seq<Entry<D>>)
    requires Ids(original) == Ids(planned)
    ensures PhaseBound(Absent, original, original, planned) && PhaseBound(Torn, original, original, planned)
    ensures PhaseBound(Saved(Journal(Prepared, original, planned)), original, original, planned)
  {
  }

  lemma BoundAfterFailure<D>(disk: Disk<D>, tree: seq<Entry<D>>, original: seq<Entry<D>>, planned: seq<Entry<D>>)
    requires PhaseBound(disk, tree, original, planned) && disk.Saved?
    ensures PhaseBound(Saved(Journal(RollbackFailed, original, planned)), tree, original, planned)
  {
    LengthsAgree(tree, original);
    LengthsAgree(tree, planned);
  }

  lemma PlannedIsRecorded<D>(disk: Disk<D>, tree: seq<Entry<D>>, original: seq<Entry<D>>, planned: seq<Entry<D>>)
    requires PhaseBound(disk, tree, original, planned)
    ensures disk.Saved? && disk.journal.phase == Applied ==> AsRecorded(disk, tree)
    ensures disk.Saved? && disk.journal.phase == Restored ==> !AsRecorded(disk, tree)
  {
    RollBackIsAllowed(disk, tree, original, planned);
  }

  /** In a rollback every object is as planned or still original. */
  lemma RollBackIsAllowed<D>(disk: Disk<D>, tree: seq<Entry<D>>, original: seq<Entry<D>>, planned: seq<Entry<D>>)
    requires PhaseBound(disk, tree, original, planned)
    ensures AsExpected(tree, original, planned, true)
  {
    LengthsAgree(tree, original);
    LengthsAgree(tree, planned);
    forall i | 0 <= i < |tree| ensures tree[i].id == original[i].id == planned[i].id {
      assert Ids(tree)[i] == tree[i].id && Ids(original)[i] == original[i].id && Ids(planned)[i] == planned[i].id;
    }
  }

  /** A validated tree that is written over with its records stays between the two states. */
  lemma RestoredBetween<D>(before: seq<Entry<D>>, after: seq<Entry<D>>, records: seq<Entry<D>>, expected: seq<Entry<D>>,
                           allowOriginal: bool)
    requires Valid(before, records, expected, allowOriginal)
    requires after == before || Between(after, before, records)
    ensures Between(after, records, expected) && Ids(after) == Ids(records)
  {
    SameIds(after, records, expected);
  }

  /** Without outside edits a restoration never refuses a tree that still needs one. */
  lemma BoundIsAcceptable<D>(disk: Disk<D>, tree: seq<Entry<D>>, original: seq<Entry<D>>, planned: seq<Entry<D>>)
    requires PhaseBound(disk, tree, original, planned)
    ensures tree == original || AsRecorded(disk, tree)
  {
    LengthsAgree(tree, original);
    LengthsAgree(tree, planned);
    AcceptableIs(disk, tree);
  }
}
