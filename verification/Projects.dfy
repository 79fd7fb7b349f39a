/** mcp_tools/project.py: the life of configured projects, with delayed deletion, over a
    configuration file that backend/core/config.py does not let become empty. */
module Projects {
  import opened Outcome

  /** `pending_hard_delete_at`: empty, a local time, a time with a time zone, or text that is
      no time. */
  datatype Stamp = NoStamp | At(deadline: int) | Zoned | Unreadable

  datatype Project = Project(name: string, workspace: string, archived: bool, pending: Stamp)

  datatype Error = DuplicateName | InvalidPath | NotFound | NoPendingDelete | NotComparable

  /** One call of a tool; `now` in seconds, `delay` in minutes. */
  datatype Op =
    | Create(name: string, workspace: string, pathExists: bool)
    | Archive(name: string)
    | Delete(name: string, hard: bool, delay: int, now: int)
    | Cancel(name: string)
    | Sweep(now: int)

  /** `str.lower`. */
  type Folding = string -> string

  /** The first project of that name, or the number of projects. */
  function Find(projects: seq<Project>, key: string, lower: Folding): (i: nat)
    ensures i <= |projects|
    ensures forall j :: 0 <= j < i ==> lower(projects[j].name) != key
    ensures i < |projects| ==> lower(projects[i].name) == key
  {
    if projects == [] || lower(projects[0].name) == key then 0
    else 1 + Find(projects[1..], key, lower)
  }

  /** The first project of that name is at `i`. */
  ghost predicate FirstNamed(projects: seq<Project>, key: string, lower: Folding, i: int) {
    0 <= i < |projects| && lower(projects[i].name) == key
    && forall j :: 0 <= j < i ==> lower(projects[j].name) != key
  }

  ghost predicate Absent(projects: seq<Project>, key: string, lower: Folding) {
    forall i :: 0 <= i < |projects| ==> lower(projects[i].name) != key
  }

  function RemoveAt(projects: seq<Project>, i: nat): seq<Project>
    requires i < |projects|
  {
    projects[..i] + projects[i + 1..]
  }

  predicate Expired(p: Project, now: int) {
    p.pending.At? && p.pending.deadline <= now
  }

  /** The projects that a sweep leaves, in order. */
  function Unexpired(projects: seq<Project>, now: int): seq<Project> {
    if projects == [] then []
    else
      var n := |projects| - 1;
      Unexpired(projects[..n], now) + (if Expired(projects[n], now) then [] else [projects[n]])
  }

  /** What a call makes of the projects it has loaded. */
  function Apply(projects: seq<Project>, op: Op, lower: Folding): seq<Project> {
    if op.Sweep? then Unexpired(projects, op.now)
    else
      var i := Find(projects, lower(op.name), lower);
      match op
      case Create(name, workspace, pathExists) =>
        if i < |projects| || !pathExists then projects
        else projects + [Project(name, workspace, false, NoStamp)]
      case Archive(name) =>
        if name == "" || i == |projects| then projects
        else projects[i := projects[i].(archived := !projects[i].archived)]
      case Delete(_, hard, delay, now) =>
        if i == |projects| then projects
        else if hard && delay != 0 then projects[i := projects[i].(pending := At(now + 60 * delay))]
        else RemoveAt(projects, i)
      case Cancel(_) =>
        if i == |projects| then projects
        else projects[i := projects[i].(pending := NoStamp)]
  }

  predicate AnyZoned(projects: seq<Project>) {
    exists i | 0 <= i < |projects| :: projects[i].pending.Zoned?
  }

  /** The call saves nothing: a sweep that raises, since a local time does not compare with one
      of a time zone, or one that leaves no project, which `save` takes for a mistake. */
  predicate Ineffective(projects: seq<Project>, op: Op, lower: Folding) {
    (op.Sweep? && AnyZoned(projects)) || Apply(projects, op, lower) == []
  }

  /** What a call makes of the configuration file. */
  function Step(projects: seq<Project>, op: Op, lower: Folding): seq<Project> {
    if Ineffective(projects, op, lower) then projects else Apply(projects, op, lower)
  }

  function Run(start: seq<Project>, ops: seq<Op>, lower: Folding): seq<Project> {
    if ops == [] then start
    else Step(Run(start, ops[..|ops| - 1], lower), ops[|ops| - 1], lower)
  }

  function Keys(projects: seq<Project>, lower: Folding): (r: seq<string>)
    ensures |r| == |projects| && forall i :: 0 <= i < |r| ==> r[i] == lower(projects[i].name)
  {
    seq(|projects|, i requires 0 <= i < |projects| => lower(projects[i].name))
  }

  ghost predicate UniqueNames(projects: seq<Project>, lower: Folding) {
    forall i, j :: 0 <= i < j < |projects| ==> lower(projects[i].name) != lower(projects[j].name)
  }

  /** `a` is `b` with some elements left out. */
  predicate Subsequence<T(==)>(a: seq<T>, b: seq<T>) {
    if a == [] then true
    else if b == [] then false
    else if a[|a| - 1] == b[|b| - 1] && Subsequence(a[..|a| - 1], b[..|b| - 1]) then true
    else Subsequence(a, b[..|b| - 1])
  }

  lemma {:induction false} SubsequenceSelf<T>(a: seq<T>)
    ensures Subsequence(a, a)
  {
    if a != [] { SubsequenceSelf(a[..|a| - 1]); }
  }

  lemma {:induction false} SubsequenceWithout<T>(a: seq<T>, i: nat)
    requires i < |a|
    ensures Subsequence(a[..i] + a[i + 1..], a)
  {
    var n := |a| - 1;
    var b := a[..i] + a[i + 1..];
    if i == n {
      assert b == a[..n];
      SubsequenceSelf(b);
      SubsequenceDrop(b, a);
    } else {
      SubsequenceWithout(a[..n], i);
      assert b[..|b| - 1] == a[..n][..i] + a[..n][i + 1..];
    }
  }

  lemma SubsequenceDrop<T>(a: seq<T>, b: seq<T>)
    requires b != [] && Subsequence(a, b[..|b| - 1])
    ensures Subsequence(a, b)
  {
  }

  lemma {:induction false} UnexpiredIsSubsequence(projects: seq<Project>, now: int, lower: Folding)
    ensures Subsequence(Keys(Unexpired(projects, now), lower), Keys(projects, lower))
  {
    if projects != [] {
      var n := |projects| - 1;
      UnexpiredIsSubsequence(projects[..n], now, lower);
      var keys, left := Keys(projects, lower), Keys(Unexpired(projects, now), lower);
      assert keys[..n] == Keys(projects[..n], lower);
      if !Expired(projects[n], now) {
        assert left[..|left| - 1] == Keys(Unexpired(projects[..n], now), lower);
        assert left[|left| - 1] == keys[n];
      } else {
        assert Unexpired(projects, now) == Unexpired(projects[..n], now);
        SubsequenceDrop(left, keys);
      }
    }
  }

  /** Survivors keep their order: no call but a creation, which appends, does more than leave
      projects out. */
  lemma SurvivorsKeepOrder(projects: seq<Project>, op: Op, lower: Folding)
    ensures var before, after := Keys(projects, lower), Keys(Step(projects, op, lower), lower);
            Subsequence(after, before)
            || (op.Create? && lower(op.name) !in before && after == before + [lower(op.name)])
  {
    hide Apply, Subsequence;
    SubsequenceSelf(Keys(projects, lower));
    AppliedInOrder(projects, op, lower);
  }

  lemma AppliedInOrder(projects: seq<Project>, op: Op, lower: Folding)
    ensures var before, after := Keys(projects, lower), Keys(Apply(projects, op, lower), lower);
            Subsequence(after, before)
            || (op.Create? && lower(op.name) !in before && after == before + [lower(op.name)])
  {
    hide Find, Unexpired, Subsequence;
    var before, after := Keys(projects, lower), Keys(Apply(projects, op, lower), lower);
    SubsequenceSelf(before);
    if op.Sweep? {
      UnexpiredIsSubsequence(projects, op.now, lower);
    } else {
      var i := Find(projects, lower(op.name), lower);
      if op.Delete? && i < |projects| && !(op.hard && op.delay != 0) {
        SubsequenceWithout(before, i);
        assert after == before[..i] + before[i + 1..];
      } else if op.Create? && Apply(projects, op, lower) != projects {
        assert after == before + [lower(op.name)];
      } else {
        assert after == before;
      }
    }
  }

  lemma {:induction false} SubsequenceOfUnique<T>(a: seq<T>, b: seq<T>)
    requires Subsequence(a, b) && forall i, j :: 0 <= i < j < |b| ==> b[i] != b[j]
    ensures forall i, j :: 0 <= i < j < |a| ==> a[i] != a[j]
    ensures forall x :: x in a ==> x in b
  {
    if a != [] {
      var n := |b| - 1;
      if a[|a| - 1] == b[n] && Subsequence(a[..|a| - 1], b[..n]) {
        SubsequenceOfUnique(a[..|a| - 1], b[..n]);
        forall x | x in a ensures x in b {
          if x in a[..|a| - 1] { assert x in b[..n]; } else { assert x == b[n]; }
        }
        forall i | 0 <= i < |a| - 1 ensures a[i] != a[|a| - 1] {
          assert a[i] in a[..|a| - 1];
        }
      } else {
        SubsequenceOfUnique(a, b[..n]);
      }
    }
  }

  /** Names stay unique, case aside. */
  lemma {:induction false} NamesStayUnique(start: seq<Project>, ops: seq<Op>, lower: Folding)
    requires UniqueNames(start, lower)
    ensures UniqueNames(Run(start, ops, lower), lower)
  {
    hide Step, Subsequence;
    if ops != [] {
      var n := |ops| - 1;
      NamesStayUnique(start, ops[..n], lower);
      var before := Run(start, ops[..n], lower);
      SurvivorsKeepOrder(before, ops[n], lower);
      var after := Step(before, ops[n], lower);
      if Subsequence(Keys(after, lower), Keys(before, lower)) {
        SubsequenceOfUnique(Keys(after, lower), Keys(before, lower));
      }
      forall i, j | 0 <= i < j < |after| ensures lower(after[i].name) != lower(after[j].name) {
        assert Keys(after, lower)[i] != Keys(after, lower)[j];
      }
    }
  }

  // ----- how a project leaves -----

  /** The stamp of the project of that name, if there is one. */
  function StampOf(projects: seq<Project>, key: string, lower: Folding): Option<Stamp> {
    var i := Find(projects, key, lower);
    if i < |projects| then Some(projects[i].pending) else None
  }

  predicate Removes(op: Op, key: string, stamp: Stamp, lower: Folding) {
    match op
    case Delete(name, hard, delay, _) => lower(name) == key && (!hard || delay == 0)
    case Sweep(now) => stamp.At? && stamp.deadline <= now
    case _ => false
  }

  lemma {:induction false} FindUnique(projects: seq<Project>, key: string, lower: Folding, i: nat)
    requires UniqueNames(projects, lower) && i < |projects| && lower(projects[i].name) == key
    ensures Find(projects, key, lower) == i
  {
  }

  lemma {:induction false} SweepKeeps(projects: seq<Project>, now: int, p: Project)
    ensures p in Unexpired(projects, now) <==> p in projects && !Expired(p, now)
  {
    if projects != [] {
      var n := |projects| - 1;
      SweepKeeps(projects[..n], now, p);
      assert projects == projects[..n] + [projects[n]];
    }
  }

  /** The stamp of a named project, through the project itself. */
  lemma StampIs(projects: seq<Project>, key: string, lower: Folding, p: Project)
    requires UniqueNames(projects, lower) && p in projects && lower(p.name) == key
    ensures StampOf(projects, key, lower) == Some(p.pending)
  {
    var i :| 0 <= i < |projects| && projects[i] == p;
    FindUnique(projects, key, lower, i);
  }

  lemma StampNone(projects: seq<Project>, key: string, lower: Folding)
    ensures StampOf(projects, key, lower) == None <==> forall p :: p in projects ==> lower(p.name) != key
  {
    var i := Find(projects, key, lower);
    if i < |projects| { assert projects[i] in projects; }
  }

  /** What one call does to the stamp of the project named `key`. */
  function StampAfter(stamp: Option<Stamp>, op: Op, key: string, lower: Folding): Option<Stamp> {
    match stamp
    case None => if op.Create? && lower(op.name) == key && op.pathExists then Some(NoStamp) else None
    case Some(s) =>
      if Removes(op, key, s, lower) then None
      else if op.Delete? && lower(op.name) == key then Some(At(op.now + 60 * op.delay))
      else if op.Cancel? && lower(op.name) == key then Some(NoStamp)
      else Some(s)
  }

  /** A project leaves only by its own soft delete or zero-delay hard delete, or by a sweep at
      or after its deadline; and exactly then, where the call is effective. */
  lemma LeavesOnly(projects: seq<Project>, op: Op, key: string, lower: Folding)
    requires UniqueNames(projects, lower)
    ensures StampOf(Step(projects, op, lower), key, lower)
            == if Ineffective(projects, op, lower) then StampOf(projects, key, lower)
               else StampAfter(StampOf(projects, key, lower), op, key, lower)
  {
    hide StampOf, UniqueNames;
    AppliedStamp(projects, op, key, lower);
  }

  /** A deletion or sweep that would leave no project: of the only one, or of all. */
  lemma EmptiesOnly(projects: seq<Project>, op: Op, lower: Folding)
    requires projects != []
    ensures Apply(projects, op, lower) == [] <==>
            || (&& op.Delete? && !(op.hard && op.delay != 0)
                && |projects| == 1 && lower(projects[0].name) == lower(op.name))
            || (op.Sweep? && forall i :: 0 <= i < |projects| ==> Expired(projects[i], op.now))
  {
    if op.Sweep? { AllExpired(projects, op.now); }
  }

  lemma {:induction false} AllExpired(projects: seq<Project>, now: int)
    ensures Unexpired(projects, now) == [] <==> forall i :: 0 <= i < |projects| ==> Expired(projects[i], now)
  {
    if projects != [] {
      var n := |projects| - 1;
      AllExpired(projects[..n], now);
      assert forall i :: 0 <= i < n ==> projects[..n][i] == projects[i];
    }
  }

  /** So the only project cannot be deleted, though the call reports success. */
  lemma OnlyProjectStays(p: Project, op: Op, lower: Folding)
    requires op.Delete? && !(op.hard && op.delay != 0) && lower(op.name) == lower(p.name)
    ensures Step([p], op, lower) == [p]
  {
    EmptiesOnly([p], op, lower);
  }

  lemma AppliedStamp(projects: seq<Project>, op: Op, key: string, lower: Folding)
    requires UniqueNames(projects, lower)
    ensures StampOf(Apply(projects, op, lower), key, lower) == StampAfter(StampOf(projects, key, lower), op, key, lower)
  {
    if op.Sweep? {
      SweepStamp(projects, op.now, key, lower);
    } else {
      NamedStamp(projects, op, key, lower);
    }
  }

  lemma SweepStamp(projects: seq<Project>, now: int, key: string, lower: Folding)
    requires UniqueNames(projects, lower)
    ensures StampOf(Unexpired(projects, now), key, lower)
            == StampAfter(StampOf(projects, key, lower), Sweep(now), key, lower)
  {
    hide Unexpired, Find, UniqueNames;
    var after := Unexpired(projects, now);
    assert UniqueNames(after, lower) by { SweptUnique(projects, now, lower); }
    StampNone(projects, key, lower);
    StampNone(after, key, lower);
    forall p | p in after ensures p in projects && !Expired(p, now) { SweepKeeps(projects, now, p); }
    if StampOf(projects, key, lower).Some? {
      var p :| p in projects && lower(p.name) == key;
      StampIs(projects, key, lower, p);
      SweepKeeps(projects, now, p);
      if !Expired(p, now) {
        StampIs(after, key, lower, p);
      } else {
        forall q | q in after ensures lower(q.name) != key {
          if lower(q.name) == key { SameName(projects, lower, p, q); }
        }
      }
    }
  }

  lemma SweptUnique(projects: seq<Project>, now: int, lower: Folding)
    requires UniqueNames(projects, lower)
    ensures UniqueNames(Unexpired(projects, now), lower)
  {
    hide Unexpired, Subsequence;
    UnexpiredIsSubsequence(projects, now, lower);
    var keys := Keys(Unexpired(projects, now), lower);
    SubsequenceOfUnique(keys, Keys(projects, lower));
    forall i, j | 0 <= i < j < |keys|
      ensures lower(Unexpired(projects, now)[i].name) != lower(Unexpired(projects, now)[j].name)
    {
      assert keys[i] != keys[j];
    }
  }

  lemma SameName(projects: seq<Project>, lower: Folding, p: Project, q: Project)
    requires UniqueNames(projects, lower) && p in projects && q in projects && lower(p.name) == lower(q.name)
    ensures p == q
  {
    var i :| 0 <= i < |projects| && projects[i] == p;
    var j :| 0 <= j < |projects| && projects[j] == q;
  }

  lemma RemovedStamp(projects: seq<Project>, i: nat, key: string, lower: Folding)
    requires UniqueNames(projects, lower) && i < |projects|
    ensures StampOf(RemoveAt(projects, i), key, lower)
            == if key == lower(projects[i].name) then None else StampOf(projects, key, lower)
  {
    hide UniqueNames;
    var after, k := RemoveAt(projects, i), Find(projects, key, lower);
    if key == lower(projects[i].name) {
      forall j | 0 <= j < |after| ensures lower(after[j].name) != key {
        OnlyOne(projects, lower, i, if j < i then j else j + 1);
      }
      FirstFound(after, key, lower, |after|);
    } else {
      FirstFound(after, key, lower, if k < i then k else k - 1);
    }
  }

  lemma UpdatedStamp(projects: seq<Project>, i: nat, p: Project, key: string, lower: Folding)
    requires i < |projects| && p.name == projects[i].name && Find(projects, lower(p.name), lower) == i
    ensures StampOf(projects[i := p], key, lower)
            == if key == lower(p.name) then Some(p.pending) else StampOf(projects, key, lower)
  {
    FirstFound(projects[i := p], key, lower, Find(projects, key, lower));
  }

  lemma AppendedStamp(projects: seq<Project>, p: Project, key: string, lower: Folding)
    requires Find(projects, lower(p.name), lower) == |projects|
    ensures StampOf(projects + [p], key, lower)
            == if key == lower(p.name) then Some(p.pending) else StampOf(projects, key, lower)
  {
    var k := Find(projects, key, lower);
    FirstFound(projects + [p], key, lower, if k == |projects| && key != lower(p.name) then k + 1 else k);
  }

  lemma NamedStamp(projects: seq<Project>, op: Op, key: string, lower: Folding)
    requires UniqueNames(projects, lower) && !op.Sweep?
    ensures StampOf(Apply(projects, op, lower), key, lower) == StampAfter(StampOf(projects, key, lower), op, key, lower)
  {
    hide UniqueNames, Unexpired, Find, StampOf;
    var i := Find(projects, lower(op.name), lower);
    AbsentOrFirst(projects, op.name, lower);
    match op
    case Create(name, workspace, pathExists) =>
      if i == |projects| && pathExists {
        AppendedStamp(projects, Project(name, workspace, false, NoStamp), key, lower);
      }
    case Archive(name) =>
      if name != "" && i < |projects| {
        UpdatedStamp(projects, i, projects[i].(archived := !projects[i].archived), key, lower);
      }
    case Delete(_, hard, delay, now) =>
      if i < |projects| {
        if hard && delay != 0 {
          UpdatedStamp(projects, i, projects[i].(pending := At(now + 60 * delay)), key, lower);
        } else {
          RemovedStamp(projects, i, key, lower);
        }
      }
    case Cancel(_) =>
      if i < |projects| {
        UpdatedStamp(projects, i, projects[i].(pending := NoStamp), key, lower);
      }
  }

  lemma AbsentOrFirst(projects: seq<Project>, name: string, lower: Folding)
    ensures var i := Find(projects, lower(name), lower);
            if i == |projects| then StampOf(projects, lower(name), lower) == None
            else StampOf(projects, lower(name), lower) == Some(projects[i].pending)
  {
  }

  lemma OnlyOne(projects: seq<Project>, lower: Folding, i: nat, j: nat)
    requires UniqueNames(projects, lower) && i < |projects| && j < |projects| && i != j
    ensures lower(projects[i].name) != lower(projects[j].name)
  {
  }

  lemma FirstFound(projects: seq<Project>, key: string, lower: Folding, i: nat)
    requires i <= |projects| && forall j :: 0 <= j < i ==> lower(projects[j].name) != key
    requires i < |projects| ==> lower(projects[i].name) == key
    ensures Find(projects, key, lower) == i
  {
  }

  /** Where a deadline comes from: a delayed delete of the project, or the start, and no call
      since that touches it. */
  ghost predicate Stamped(start: seq<Project>, ops: seq<Op>, key: string, deadline: int, lower: Folding) {
    || (exists j :: 0 <= j < |ops| && Stamps(start, ops, j, key, deadline, lower)
                    && Undisturbed(start, ops, j + 1, key, deadline, lower))
    || (StampOf(start, key, lower) == Some(At(deadline)) && Undisturbed(start, ops, 0, key, deadline, lower))
  }

  /** Call `j` is a delayed delete of a present project, to that deadline. */
  predicate Stamps(start: seq<Project>, ops: seq<Op>, j: nat, key: string, deadline: int, lower: Folding)
    requires j < |ops|
  {
    var op := ops[j];
    && op.Delete? && op.hard && op.delay != 0 && lower(op.name) == key && op.now + 60 * op.delay == deadline
    && StampOf(Run(start, ops[..j], lower), key, lower).Some?
  }

  /** Call `m` is an effective deletion or cancellation by name, or sweep once the deadline is
      reached. */
  predicate Disturbs(start: seq<Project>, ops: seq<Op>, m: nat, key: string, deadline: int, lower: Folding)
    requires m < |ops|
  {
    var op := ops[m];
    && !Ineffective(Run(start, ops[..m], lower), op, lower)
    && (((op.Delete? || op.Cancel?) && lower(op.name) == key) || (op.Sweep? && deadline <= op.now))
  }

  predicate Undisturbed(start: seq<Project>, ops: seq<Op>, from: nat, key: string, deadline: int, lower: Folding) {
    forall m | from <= m < |ops| :: !Disturbs(start, ops, m, key, deadline, lower)
  }

  lemma SameEarlier(start: seq<Project>, ops: seq<Op>, j: nat, key: string, deadline: int, lower: Folding)
    requires j < |ops| - 1
    ensures Stamps(start, ops[..|ops| - 1], j, key, deadline, lower) <==> Stamps(start, ops, j, key, deadline, lower)
    ensures Disturbs(start, ops[..|ops| - 1], j, key, deadline, lower) <==>
            Disturbs(start, ops, j, key, deadline, lower)
  {
    hide StampOf, Ineffective;
    assert ops[..|ops| - 1][..j] == ops[..j];
  }

  lemma UndisturbedLast(start: seq<Project>, ops: seq<Op>, from: nat, key: string, deadline: int, lower: Folding)
    requires from < |ops|
    ensures var n := |ops| - 1;
            Undisturbed(start, ops, from, key, deadline, lower) <==>
            && Undisturbed(start, ops[..n], from, key, deadline, lower)
            && !Disturbs(start, ops, n, key, deadline, lower)
  {
    hide Disturbs, Stamps;
    var n := |ops| - 1;
    var shorter := ops[..n];
    forall m | 0 <= m < n
      ensures Disturbs(start, shorter, m, key, deadline, lower) <==> Disturbs(start, ops, m, key, deadline, lower) {
      SameEarlier(start, ops, m, key, deadline, lower);
    }
    if Undisturbed(start, ops, from, key, deadline, lower) {
      forall m | from <= m < n ensures !Disturbs(start, shorter, m, key, deadline, lower) {
        assert !Disturbs(start, ops, m, key, deadline, lower);
      }
    }
  }

  /** Only the last call stamps, or the deadline was stamped before and the call leaves it. */
  lemma StampedLast(start: seq<Project>, ops: seq<Op>, key: string, deadline: int, lower: Folding)
    requires ops != []
    ensures var n := |ops| - 1;
            Stamped(start, ops, key, deadline, lower) <==>
            || Stamps(start, ops, n, key, deadline, lower)
            || (Stamped(start, ops[..n], key, deadline, lower) && !Disturbs(start, ops, n, key, deadline, lower))
  {
    hide StampOf, Stamps, Undisturbed, Disturbs;
    var n := |ops| - 1;
    forall j | 0 <= j < n
      ensures Stamps(start, ops[..n], j, key, deadline, lower) <==> Stamps(start, ops, j, key, deadline, lower)
      ensures Undisturbed(start, ops, j + 1, key, deadline, lower) <==>
              Undisturbed(start, ops[..n], j + 1, key, deadline, lower)
              && !Disturbs(start, ops, n, key, deadline, lower)
    {
      SameEarlier(start, ops, j, key, deadline, lower);
      UndisturbedLast(start, ops, j + 1, key, deadline, lower);
    }
    UndisturbedLast(start, ops, 0, key, deadline, lower);
    NoneLater(start, ops, key, deadline, lower);
    assert Undisturbed(start, ops, n + 1, key, deadline, lower);
  }

  lemma NoneLater(start: seq<Project>, ops: seq<Op>, key: string, deadline: int, lower: Folding)
    ensures Undisturbed(start, ops, |ops|, key, deadline, lower)
  {
  }

  /** After any run a project waits for a deadline exactly when a delayed delete, or the start,
      gave it that deadline and no effective call since has touched it. */
  lemma {:induction false} DeadlinesAreStamped(start: seq<Project>, ops: seq<Op>, key: string, deadline: int,
                                               lower: Folding)
    requires UniqueNames(start, lower)
    ensures StampOf(Run(start, ops, lower), key, lower) == Some(At(deadline)) <==>
            Stamped(start, ops, key, deadline, lower)
  {
    hide StampOf, Apply, UniqueNames, Stamped, Ineffective;
    if ops == [] {
      StampedAtStart(start, key, deadline, lower);
    } else {
      var n := |ops| - 1;
      var before := Run(start, ops[..n], lower);
      NamesStayUnique(start, ops[..n], lower);
      LeavesOnly(before, ops[n], key, lower);
      DeadlinesAreStamped(start, ops[..n], key, deadline, lower);
      StampedLast(start, ops, key, deadline, lower);
      StampingIsEffective(before, ops[n], key, lower);
    }
  }

  /** A delayed delete of a present project always takes effect. */
  lemma StampingIsEffective(projects: seq<Project>, op: Op, key: string, lower: Folding)
    ensures op.Delete? && op.hard && op.delay != 0 && StampOf(projects, key, lower).Some? ==>
              !Ineffective(projects, op, lower)
  {
    if projects != [] { EmptiesOnly(projects, op, lower); }
  }

  lemma StampedAtStart(start: seq<Project>, key: string, deadline: int, lower: Folding)
    ensures Stamped(start, [], key, deadline, lower) <==> StampOf(start, key, lower) == Some(At(deadline))
  {
  }

  /** After any run an effective sweep, and no other, takes a project, and exactly when it waits
      for a deadline reached by then: only one whose deletion was asked for and not undone. */
  lemma SweptWasStamped(start: seq<Project>, ops: seq<Op>, key: string, now: int, lower: Folding)
    requires UniqueNames(start, lower) && StampOf(Run(start, ops, lower), key, lower).Some?
    ensures var projects := Run(start, ops, lower);
            StampOf(Step(projects, Sweep(now), lower), key, lower).None? <==>
            && !Ineffective(projects, Sweep(now), lower)
            && exists deadline :: deadline <= now && Stamped(start, ops, key, deadline, lower)
  {
    hide StampOf, Apply, UniqueNames, Stamped, Ineffective;
    NamesStayUnique(start, ops, lower);
    var before := Run(start, ops, lower);
    LeavesOnly(before, Sweep(now), key, lower);
    forall deadline
      ensures StampOf(before, key, lower) == Some(At(deadline)) <==> Stamped(start, ops, key, deadline, lower) {
      DeadlinesAreStamped(start, ops, key, deadline, lower);
    }
    var stamp := StampOf(before, key, lower).value;
    if stamp.At? { assert Stamped(start, ops, key, stamp.deadline, lower); }
  }

  // ----- sweeps in a row -----

  /** On a loaded list a later sweep absorbs an earlier one. */
  lemma {:induction false} UnexpiredAbsorb(projects: seq<Project>, early: int, late: int)
    requires early <= late
    ensures Unexpired(Unexpired(projects, early), late) == Unexpired(projects, late)
  {
    if projects != [] {
      var n := |projects| - 1;
      UnexpiredAbsorb(projects[..n], early, late);
      var left := Unexpired(projects, early);
      if !Expired(projects[n], early) {
        assert left[..|left| - 1] == Unexpired(projects[..n], early);
      } else {
        assert left == Unexpired(projects[..n], early);
      }
    }
  }

  /** On the file it does exactly unless the later one finds all projects expired and the earlier
      one some but not all: then the projects of the earlier sweep stay where the later comes alone. */
  lemma SweepsAbsorb(projects: seq<Project>, early: int, late: int, lower: Folding)
    requires early <= late
    ensures Step(Step(projects, Sweep(early), lower), Sweep(late), lower) == Step(projects, Sweep(late), lower) <==>
            || AnyZoned(projects) || Unexpired(projects, late) != []
            || Unexpired(projects, early) == [] || Unexpired(projects, early) == projects
  {
    hide Unexpired, AnyZoned;
    UnexpiredAbsorb(projects, early, late);
    if !AnyZoned(projects) { StillNotZoned(projects, early); }
  }

  lemma StillNotZoned(projects: seq<Project>, now: int)
    requires !AnyZoned(projects)
    ensures !AnyZoned(Unexpired(projects, now))
  {
    var left := Unexpired(projects, now);
    forall i | 0 <= i < |left| ensures !left[i].pending.Zoned? {
      SweepKeeps(projects, now, left[i]);
    }
  }

  /** Of two projects with deadlines 1 and 5, a sweep at 2 and another at 6 leave the second; a
      sweep at 6 alone leaves both. */
  lemma EarlierSweepMatters(lower: Folding)
    ensures var a, b := Project("a", "", false, At(1)), Project("b", "", false, At(5));
            && Step(Step([a, b], Sweep(2), lower), Sweep(6), lower) == [b]
            && Step([a, b], Sweep(6), lower) == [a, b]
  {
    var a, b := Project("a", "", false, At(1)), Project("b", "", false, At(5));
    assert [a, b][..1] == [a] && [a][..0] == [] && [b][..0] == [];
    assert Unexpired([a], 2) == [] && Unexpired([a, b], 2) == [b] && Unexpired([b], 6) == [];
    assert Unexpired([a], 6) == [] && Unexpired([a, b], 6) == [];
  }

  // ----- the tools -----

  /** `list.remove`: the first equal element. */
  function Remove(projects: seq<Project>, p: Project): seq<Project> {
    if projects == [] then []
    else if projects[0] == p then projects[1..]
    else [projects[0]] + Remove(projects[1..], p)
  }

  lemma {:induction false} RemoveFirst(a: seq<Project>, p: Project, b: seq<Project>)
    requires p !in a
    ensures Remove(a + [p] + b, p) == a + b
  {
    if a == [] {
      assert a + [p] + b == [p] + b && a + b == b;
    } else {
      RemoveFirst(a[1..], p, b);
      assert (a + [p] + b)[1..] == a[1..] + [p] + b;
    }
  }

  lemma NothingUnexpired(now: int)
    ensures Unexpired([], now) == []
  {
  }

  lemma SplitAt(left: seq<Project>, projects: seq<Project>, i: nat)
    requires i < |projects|
    ensures left + projects[i..] == left + [projects[i]] + projects[i + 1..]
  {
  }

  lemma UnexpiredNext(projects: seq<Project>, i: nat, now: int)
    requires i < |projects|
    ensures Unexpired(projects[..i + 1], now)
            == if Expired(projects[i], now) then Unexpired(projects[..i], now)
               else Unexpired(projects[..i], now) + [projects[i]]
  {
    assert projects[..i + 1][..i] == projects[..i];
  }

  lemma SweepStep(projects: seq<Project>, now: int, lower: Folding)
    ensures Step(projects, Sweep(now), lower)
            == if AnyZoned(projects) || Unexpired(projects, now) == [] then projects else Unexpired(projects, now)
    ensures !AnyZoned(projects[..0])
    ensures AnyZoned(projects) <==> exists i :: 0 <= i < |projects| && projects[i].pending.Zoned?
  {
  }

  /** What a call but a sweep saves. */
  lemma StepOf(projects: seq<Project>, op: Op, lower: Folding)
    requires !op.Sweep?
    ensures Step(projects, op, lower)
            == if Apply(projects, op, lower) == [] then projects else Apply(projects, op, lower)
  {
    hide Apply, AnyZoned;
  }

  /** The projects that a sweep leaves are, in order, those without a deadline reached. */
  lemma {:induction false} UnexpiredExactly(projects: seq<Project>, now: int) returns (places: seq<nat>)
    ensures |places| == |Unexpired(projects, now)|
    ensures forall k :: 0 <= k < |places| ==>
              places[k] < |projects| && Unexpired(projects, now)[k] == projects[places[k]]
    ensures forall k, l :: 0 <= k < l < |places| ==> places[k] < places[l]
    ensures forall i :: 0 <= i < |projects| ==>
              (i in places <==> !(projects[i].pending.At? && projects[i].pending.deadline <= now))
  {
    hide Unexpired;
    if projects == [] {
      NothingUnexpired(now);
      places := [];
    } else {
      var n := |projects| - 1;
      places := UnexpiredExactly(projects[..n], now);
      UnexpiredNext(projects, n, now);
      assert projects[..n + 1] == projects && forall i :: 0 <= i < n ==> projects[..n][i] == projects[i];
      if !Expired(projects[n], now) { places := places + [n]; }
    }
  }

  lemma ZonedNext(projects: seq<Project>, i: nat)
    requires i < |projects|
    ensures AnyZoned(projects[..i + 1]) <==> AnyZoned(projects[..i]) || projects[i].pending.Zoned?
    ensures AnyZoned(projects[..i + 1]) ==> AnyZoned(projects)
  {
    var shorter, longer := projects[..i], projects[..i + 1];
    if j :| 0 <= j < |shorter| && shorter[j].pending.Zoned? {
      assert longer[j].pending.Zoned?;
    }
    if j :| 0 <= j < |longer| && longer[j].pending.Zoned? {
      assert projects[j].pending.Zoned?;
      if j < i { assert shorter[j].pending.Zoned?; }
    }
    assert longer[i] == projects[i];
  }

  class Config {
    const lower: Folding
    var stored: seq<Project>     // the configuration file
    var projects: seq<Project>   // what the current call has loaded

    constructor (lower: Folding, stored: seq<Project>)
      ensures this.lower == lower && this.stored == stored
    {
      this.lower, this.stored, this.projects := lower, stored, stored;
    }

    /** `ConfigManager.load`. */
    method Load()
      modifies this`projects
      ensures projects == stored
    {
      projects := stored;
    }

    /** `ConfigManager.save`: an empty list does not replace stored projects. */
    method Save()
      modifies this`stored
      ensures stored == if projects == [] then old(stored) else projects
    {
      if projects != [] || stored == [] {
        stored := projects;
      }
    }

    /** `_sweep_pending_deletes` on a loaded configuration: over a copy of the list, removing from
        the list itself. A stamp with a time zone raises. */
    method SweepPendingDeletes(now: int) returns (r: Result<bool, Error>)
      modifies this
      ensures stored == Step(old(stored), Sweep(now), lower)
      ensures r == if AnyZoned(old(stored)) then Err(NotComparable) else Ok(projects != old(stored))
      ensures r.Ok? ==> projects == Unexpired(old(stored), now)
      ensures r == Err(NotComparable) <==>
              exists i :: 0 <= i < |old(stored)| && old(stored)[i].pending.Zoned?
      ensures r.Ok? ==> stored == if projects == [] then old(stored) else projects
      ensures r.Err? ==> stored == old(stored)
    {
      hide Unexpired, Remove, Step, AnyZoned;
      SweepStep(stored, now, lower);
      Load();
      var copy, changed := projects, false;
      assert Unexpired(copy[..0], now) == [] by { NothingUnexpired(now); }
      for i := 0 to |copy|
        invariant projects == Unexpired(copy[..i], now) + copy[i..] && stored == copy
        invariant if changed then |projects| < |copy| else projects == copy
        invariant !AnyZoned(copy[..i])
      {
        var p := copy[i];
        ZonedNext(copy, i);
        ghost var left := Unexpired(copy[..i], now);
        UnexpiredNext(copy, i, now);
        SplitAt(left, copy, i);
        if p.pending.Zoned? {
          return Err(NotComparable);
        }
        if p.pending.At? && !(now < p.pending.deadline) {
          SweepKeeps(copy[..i], now, p);
          RemoveFirst(left, p, copy[i + 1..]);
          projects := Remove(projects, p);
          changed := true;
        }
      }
      assert copy[..|copy|] == copy;
      if changed {
        Save();
      }
      return Ok(changed);
    }

    /** The loop that finds a project by name. */
    method Lookup(name: string) returns (i: nat)
      ensures i == Find(projects, lower(name), lower)
    {
      i := 0;
      while i < |projects| && lower(projects[i].name) != lower(name)
        invariant i <= |projects| && forall j :: 0 <= j < i ==> lower(projects[j].name) != lower(name)
      {
        i := i + 1;
      }
      FirstFound(projects, lower(name), lower, i);
    }

    method CreateProject(name: string, workspace: string, pathExists: bool) returns (r: Result<string, Error>)
      modifies this
      ensures stored == Step(old(stored), Create(name, workspace, pathExists), lower)
      ensures r.Ok? <==> stored != old(stored)
      ensures !Absent(old(stored), lower(name), lower) ==> r == Err(DuplicateName) && stored == old(stored)
      ensures Absent(old(stored), lower(name), lower) ==>
                if pathExists then r == Ok(name) && stored == old(stored) + [Project(name, workspace, false, NoStamp)]
                else r == Err(InvalidPath) && stored == old(stored)
    {
      Load();
      var i := Lookup(name);
      if i < |projects| {
        return Err(DuplicateName);
      }
      if !pathExists {
        return Err(InvalidPath);
      }
      projects := projects + [Project(name, workspace, false, NoStamp)];
      Save();
      return Ok(name);
    }

    method ArchiveProject(name: string) returns (r: Result<string, Error>)
      modifies this
      ensures stored == Step(old(stored), Archive(name), lower)
      ensures r == Err(NotFound) <==> name != "" && Find(old(stored), lower(name), lower) == |old(stored)|
      // The first project of that name is toggled, and nothing else.
      ensures name == "" || Absent(old(stored), lower(name), lower) ==> stored == old(stored)
      ensures forall i :: name != "" && FirstNamed(old(stored), lower(name), lower, i) ==>
                var p := old(stored)[i];
                r == Ok(p.name) && stored == old(stored)[i := p.(archived := !p.archived)]
    {
      Load();
      if name == "" {
        return Ok("");
      }
      var i := Lookup(name);
      if i == |projects| {
        return Err(NotFound);
      }
      projects := projects[i := projects[i].(archived := !projects[i].archived)];
      Save();
      return Ok(projects[i].name);
    }

    /** Success means that the project was found, not that it is gone. */
    method DeleteProject(name: string, hard: bool, delay: int, now: int) returns (r: Result<string, Error>)
      modifies this
      ensures stored == Step(old(stored), Delete(name, hard, delay, now), lower)
      ensures r.Err? <==> Find(old(stored), lower(name), lower) == |old(stored)|
      // The first project of that name is stamped or removed, unless it is the only one.
      ensures Absent(old(stored), lower(name), lower) ==> r == Err(NotFound) && stored == old(stored)
      ensures forall i :: FirstNamed(old(stored), lower(name), lower, i) ==>
                && r == Ok(name)
                && stored == if hard && delay != 0
                             then old(stored)[i := old(stored)[i].(pending := At(now + 60 * delay))]
                             else if |old(stored)| == 1 then old(stored)
                             else old(stored)[..i] + old(stored)[i + 1..]
    {
      hide Step, Remove, Find;
      StepOf(stored, Delete(name, hard, delay, now), lower);
      Load();
      var i := Lookup(name);
      if i == |projects| {
        return Err(NotFound);
      }
      if hard && delay != 0 {
        projects := projects[i := projects[i].(pending := At(now + 60 * delay))];
        Save();
        return Ok(name);
      }
      var p := projects[i];
      assert projects == projects[..i] + [p] + projects[i + 1..];
      RemoveFirst(projects[..i], p, projects[i + 1..]);
      projects := Remove(projects, p);
      Save();
      return Ok(name);
    }

    method CancelPendingDelete(name: string) returns (r: Result<string, Error>)
      modifies this
      ensures stored == Step(old(stored), Cancel(name), lower)
      ensures r == Err(NotFound) <==> Find(old(stored), lower(name), lower) == |old(stored)|
      ensures Absent(old(stored), lower(name), lower) ==> stored == old(stored)
      ensures forall i :: FirstNamed(old(stored), lower(name), lower, i) ==>
                && stored == old(stored)[i := old(stored)[i].(pending := NoStamp)]
                && r == if old(stored)[i].pending == NoStamp then Err(NoPendingDelete) else Ok(name)
    {
      Load();
      var i := Lookup(name);
      if i == |projects| {
        return Err(NotFound);
      }
      if projects[i].pending == NoStamp {
        assert projects[i := projects[i].(pending := NoStamp)] == projects;
        return Err(NoPendingDelete);
      }
      projects := projects[i := projects[i].(pending := NoStamp)];
      Save();
      return Ok(name);
    }
  }
}
