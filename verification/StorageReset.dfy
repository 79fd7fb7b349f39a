/** scripts/reset_disposable_storage.py, `reset_disposable`: swapping a whole database family
    behind a marker file. */
module StorageReset {

  datatype Database = State | Observability

  datatype Suffix = Main | Wal | Shm | Rollback

  /** A file of the project directory: a member of a database's family, the health file, a
      maintenance lock, or any other path. */
  datatype Name = Member(database: Database, suffix: Suffix) | Health | Lock(folder: string) | Other(path: string) {
    predicate InFamily() { Member? || Health? }
  }

  type Directory = map<Name, string>

  /** The nine names to move, in order. */
  const FAMILY: seq<Name> := [
    Member(State, Main), Member(State, Wal), Member(State, Shm), Member(State, Rollback),
    Member(Observability, Main), Member(Observability, Wal), Member(Observability, Shm),
    Member(Observability, Rollback), Health]

  function FamilyNames(n: nat): (r: set<Name>)
    requires n <= |FAMILY|
  {
    set i | 0 <= i < n :: FAMILY[i]
  }

  lemma FamilyIsNamed()
    ensures forall name :: name in FamilyNames(|FAMILY|) <==> name.InFamily()
  {
    forall name: Name | name.InFamily() ensures name in FamilyNames(|FAMILY|) {
      if name == Health {
        assert FAMILY[8] == name;
      } else {
        var i := (if name.database == State then 0 else 4)
          + (match name.suffix case Main => 0 case Wal => 1 case Shm => 2 case Rollback => 3);
        assert FAMILY[i] == name;
      }
    }
  }

  /** The part of a directory with these names. */
  function Named(dir: Directory, names: set<Name>): Directory {
    map name | name in dir && name in names :: dir[name]
  }

  function Family(dir: Directory): Directory {
    map name | name in dir && name.InFamily() :: dir[name]
  }

  function Others(dir: Directory): Directory {
    map name | name in dir && !name.InFamily() :: dir[name]
  }

  /** What the copy takes: everything but the locks. */
  function Copied(dir: Directory): Directory {
    map name | name in dir && !name.Lock? :: dir[name]
  }

  /** The replacement family: both clean main files and nothing else. */
  predicate IsReplacement(dir: Directory) {
    dir.Keys == {Member(State, Main), Member(Observability, Main)}
  }

  ghost predicate Holds(dir: Directory, name: Name, file: string) {
    name in dir && dir[name] == file
  }

  /** Every file of the one is in the other. */
  ghost predicate PartOf(part: Directory, whole: Directory) {
    forall name :: name in part ==> Holds(whole, name, part[name])
  }

  /** Moving the name at `i` takes it from what is live and adds it to what is displaced. */
  lemma MoveNext(before: Directory, i: nat)
    requires i < |FAMILY|
    ensures FAMILY[i] in before - FamilyNames(i) <==> FAMILY[i] in before
    ensures FAMILY[i] in before ==>
              && before - FamilyNames(i + 1) == (before - FamilyNames(i)) - {FAMILY[i]}
              && Named(before, FamilyNames(i + 1)) == Named(before, FamilyNames(i))[FAMILY[i] := before[FAMILY[i]]]
    ensures FAMILY[i] !in before ==>
              && before - FamilyNames(i + 1) == before - FamilyNames(i)
              && Named(before, FamilyNames(i + 1)) == Named(before, FamilyNames(i))
    ensures forall name :: name in FamilyNames(i) ==> name.InFamily()
  {
    assert FamilyNames(i + 1) == FamilyNames(i) + {FAMILY[i]} && FAMILY[i] !in FamilyNames(i);
  }

  /** What a move through the first `i` names leaves of the family, and of the rest. */
  lemma PartlyMoved(before: Directory, i: nat)
    requires i <= |FAMILY|
    ensures Others(before - FamilyNames(i)) == Others(before)
    ensures PartOf(Family(before - FamilyNames(i)), Family(before))
    ensures forall name :: name in before ==>
              Holds(before - FamilyNames(i), name, before[name]) ||
              Holds(Named(before, FamilyNames(i)), name, before[name])
    ensures i == |FAMILY| ==>
              Family(before - FamilyNames(i)) == map[] && Named(before, FamilyNames(i)) == Family(before)
  {
    if i == |FAMILY| { FamilyIsNamed(); }
  }

  // ----- the family, file by file -----

  ghost predicate Same(a: Directory, b: Directory, name: Name) {
    if name in a then Holds(b, name, a[name]) else name !in b
  }

  /** Every database file, journal and the health file are as they were. */
  ghost predicate AllOld(live: Directory, before: Directory) {
    Same(live, before, Health) && forall d: Database, s: Suffix :: Same(live, before, Member(d, s))
  }

  /** Both new main files are live, and no journal or health file. */
  ghost predicate AllNew(live: Directory, replacement: Directory) {
    && Health !in live
    && forall d: Database, s: Suffix ::
         if s == Main then Member(d, s) in replacement && Same(live, replacement, Member(d, s))
         else Member(d, s) !in live
  }

  /** Each live file of the family is an old one. */
  ghost predicate PartOld(live: Directory, before: Directory) {
    && (Health in live ==> Holds(before, Health, live[Health]))
    && forall d: Database, s: Suffix ::
         Member(d, s) in live ==> Holds(before, Member(d, s), live[Member(d, s)])
  }

  /** Each live file of the family is a new main file. */
  ghost predicate PartNew(live: Directory, replacement: Directory) {
    && Health !in live
    && forall d: Database, s: Suffix ::
         Member(d, s) in live ==> s == Main && Holds(replacement, Member(d, s), live[Member(d, s)])
  }

  /** No other file, lock or not, is touched. */
  ghost predicate RestUntouched(live: Directory, before: Directory) {
    && (forall path: string :: Same(live, before, Other(path)))
    && (forall folder: string :: Same(live, before, Lock(folder)))
  }

  /** What leaves the family is kept in `displaced`. */
  ghost predicate AllDisplaced(displaced: Directory, before: Directory) {
    && (Health in before ==> Holds(displaced, Health, before[Health]))
    && forall d: Database, s: Suffix ::
         Member(d, s) in before ==> Holds(displaced, Member(d, s), before[Member(d, s)])
  }

  /** The backup holds all but the locks. */
  ghost predicate BackedUp(copied: Directory, before: Directory) {
    && Same(copied, before, Health) && (forall d: Database, s: Suffix :: Same(copied, before, Member(d, s)))
    && (forall path: string :: Same(copied, before, Other(path)))
    && forall folder: string :: Lock(folder) !in copied
  }

  /** A main file leaves before its journals, the state database before the other, the health
      file last. */
  ghost predicate InOrder(live: Directory, before: Directory) {
    && (forall d: Database, s: Suffix :: Left(live, before, Member(d, s)) ==> Member(d, Main) !in live)
    && (forall s: Suffix, t: Suffix :: Left(live, before, Member(Observability, s)) ==> Member(State, t) !in live)
    && (Left(live, before, Health) ==> forall d: Database, s: Suffix :: Member(d, s) !in live)
  }

  predicate Left(live: Directory, before: Directory, name: Name) { name in before && name !in live }

  function Position(name: Name): nat
    requires name.InFamily()
  {
    if name == Health then 8
    else (if name.database == State then 0 else 4)
         + (match name.suffix case Main => 0 case Wal => 1 case Shm => 2 case Rollback => 3)
  }

  lemma Positioned(name: Name, i: nat)
    requires name.InFamily() && i <= |FAMILY|
    ensures name in FamilyNames(i) <==> Position(name) < i
  {
    assert FAMILY[Position(name)] == name;
    assert forall j :: 0 <= j < |FAMILY| ==> Position(FAMILY[j]) == j;
  }

  lemma MovedInOrder(before: Directory, i: nat)
    requires i <= |FAMILY|
    ensures InOrder(before - FamilyNames(i), before)
  {
    hide FamilyNames;
    forall name: Name | name.InFamily() ensures name in FamilyNames(i) <==> Position(name) < i { Positioned(name, i); }
  }

  lemma FileByFile(live: Directory, before: Directory, replacement: Directory)
    requires IsReplacement(replacement)
    ensures Family(live) == Family(before) ==> AllOld(live, before)
    ensures Family(live) == replacement ==> AllNew(live, replacement)
    ensures PartOf(Family(live), Family(before)) || PartOf(Family(live), replacement) ==>
              PartOld(live, before) || PartNew(live, replacement)
    ensures Others(live) == Others(before) ==> RestUntouched(live, before)
  {
    OldFileByFile(live, before);
    NewFileByFile(live, replacement);
    RestFileByFile(live, before);
  }

  lemma RestFileByFile(live: Directory, before: Directory)
    ensures Others(live) == Others(before) ==> RestUntouched(live, before)
  {
    forall name: Name | !name.InFamily() && Others(live) == Others(before) ensures Same(live, before, name) {
      assert name in Others(live) <==> name in live;
      assert name in Others(before) <==> name in before;
    }
  }

  lemma OldFileByFile(live: Directory, before: Directory)
    ensures Family(live) == Family(before) ==> forall name: Name :: name.InFamily() ==> Same(live, before, name)
    ensures PartOf(Family(live), Family(before)) ==>
              forall name: Name :: name.InFamily() && name in live ==> Holds(before, name, live[name])
  {
    forall name: Name | name.InFamily()
      ensures Family(live) == Family(before) ==> Same(live, before, name)
      ensures PartOf(Family(live), Family(before)) && name in live ==> Holds(before, name, live[name])
    {
      assert name in Family(live) <==> name in live;
      assert name in Family(before) <==> name in before;
    }
  }

  lemma NewFileByFile(live: Directory, replacement: Directory)
    requires IsReplacement(replacement)
    ensures Family(live) == replacement ==> AllNew(live, replacement)
    ensures PartOf(Family(live), replacement) ==> PartNew(live, replacement)
  {
    forall name: Name | name.InFamily()
      ensures Family(live) == replacement ==> Same(live, replacement, name)
      ensures PartOf(Family(live), replacement) && name in live ==> Holds(replacement, name, live[name])
    {
      assert name in Family(live) <==> name in live;
    }
    forall d: Database ensures Member(d, Main) in replacement { if d == State { } }
  }

  lemma CopyFileByFile(before: Directory)
    ensures BackedUp(Copied(before), before)
  {
  }

  lemma DisplacedFileByFile(before: Directory)
    ensures AllDisplaced(Family(before), before)
  {
  }

  /** What the operator's checks find before anything is changed. */
  datatype Checks = Checks(authorized: bool, sameProject: bool, legacyFormat: bool, space: bool,
                           sound: bool, contained: bool)

  /** One external recovery directory; every run makes a new one. */
  class Recovery {
    var copied: Directory
    var staging: Directory
    var displaced: Directory

    constructor ()
      ensures copied == staging == displaced == map[]
    {
      copied, staging, displaced := map[], map[], map[];
    }
  }

  class Store {
    var live: Directory
    var marker: bool
    var budget: nat   // steps until the process is interrupted or a step fails

    constructor (live: Directory, marker: bool, budget: nat)
      ensures this.live == live && this.marker == marker && this.budget == budget
    {
      this.live, this.marker, this.budget := live, marker, budget;
    }

    method Step() returns (ok: bool)
      modifies this`budget
      ensures ok <==> old(budget) > 0
      ensures budget == if ok then old(budget) - 1 else 0
    {
      ok := budget > 0;
      if ok { budget := budget - 1; }
    }

    /** Every file of `before` is live, displaced or in the backup. */
    ghost predicate Preserved(backup: Recovery, before: Directory)
      reads this, backup
    {
      forall name :: name in before ==>
        || Holds(live, name, before[name])
        || Holds(backup.displaced, name, before[name])
        || Holds(backup.copied, name, before[name])
    }

    /** `reset_disposable`: `replacement` is what the migrations make of two empty databases. */
    method Reset(backup: Recovery, checks: Checks, replacement: Directory) returns (finished: bool)
      requires backup.copied == backup.staging == backup.displaced == map[] && IsReplacement(replacement)
      modifies this, backup
      // A run that finds the marker, or fails a check before it, changes no stored data ...
      ensures old(marker) || !checks.authorized || !checks.sameProject || !checks.legacyFormat || !checks.space ==>
                && !finished && live == old(live) && marker == old(marker)
                && backup.copied == backup.staging == backup.displaced == map[]
      // ... nor does one that fails a later check change live data.
      ensures !checks.sound || !checks.contained ==> live == old(live) && marker == old(marker)
      // Interrupted anywhere, the live family is entirely old or entirely new unless marked,
      ensures !marker ==> Family(live) == Family(old(live)) || Family(live) == replacement
      // and even then holds no old file beside a new one.
      ensures PartOf(Family(live), Family(old(live))) || PartOf(Family(live), replacement)
      // Nothing is lost, and nothing outside the family is touched.
      ensures Preserved(backup, old(live)) && Others(live) == Others(old(live))
      ensures marker && !old(marker) ==> backup.copied == Copied(old(live))
      ensures finished ==> !marker && Family(live) == replacement && backup.copied == Copied(old(live))
                           && backup.displaced == Family(old(live))
      // It finishes exactly when all checks hold and no step fails: a copy or a move for each file,
      // the staged databases, the manifest, the marker and its removal, and the two activations.
      ensures finished <==> !old(marker) && checks == Checks(true, true, true, true, true, true)
                            && old(budget) >= |Copied(old(live))| + |Family(old(live))| + 6
      // The same, file by file.
      ensures !marker ==> AllOld(live, old(live)) || AllNew(live, replacement)
      ensures PartOld(live, old(live)) || PartNew(live, replacement)
      ensures RestUntouched(live, old(live))
      ensures finished ==> AllNew(live, replacement) && AllDisplaced(backup.displaced, old(live))
      ensures finished || (marker && !old(marker)) ==> BackedUp(backup.copied, old(live))
    {
      hide AllOld, AllNew, PartOld, PartNew, RestUntouched, AllDisplaced, BackedUp;
      CopyFileByFile(live);
      DisplacedFileByFile(live);
      ghost var before := live;
      FileByFile(live, before, replacement);
      hide Named, Family, Others, Copied, PartOf, Holds, IsReplacement;
      WholeIsPart(Family(live));
      AllHeld(live);
      if !checks.authorized || !checks.sameProject || marker || !checks.legacyFormat || !checks.space {
        return false;
      }
      finished := Stage(backup, checks, replacement);
      if finished {
        finished := Swap(backup, replacement);
      }
      FileByFile(live, before, replacement);
    }

    /** The backup, the replacement databases and the displaced directory; live data is only read. */
    method Stage(backup: Recovery, checks: Checks, replacement: Directory) returns (finished: bool)
      requires backup.copied == map[]
      modifies this`budget, backup`copied, backup`staging
      ensures finished ==> backup.copied == Copied(live) && backup.staging == replacement
      ensures finished ==> checks.sound && checks.contained
      ensures finished <==> old(budget) >= |Copied(live)| + 2 && checks.sound && checks.contained
      ensures finished ==> budget == old(budget) - |Copied(live)| - 2
    {
      finished := CopyAll(backup);
      if !finished {
        return;
      }
      var ok := Step(); // the staged replacement databases
      if !ok || !checks.sound {
        return false;
      }
      backup.staging := replacement;
      ok := Step();     // the manifest and the displaced directory
      return ok && checks.contained;
    }

    /** The swap of the family, marked from its first step to its last. */
    method Swap(backup: Recovery, replacement: Directory) returns (finished: bool)
      requires !marker && backup.displaced == map[] && backup.staging == replacement && IsReplacement(replacement)
      modifies this, backup`staging, backup`displaced
      ensures !marker ==> live == old(live) || Family(live) == replacement
      ensures PartOf(Family(live), Family(old(live))) || PartOf(Family(live), replacement)
      ensures Others(live) == Others(old(live))
      ensures forall name :: name in old(live) ==>
                Holds(live, name, old(live)[name]) || Holds(backup.displaced, name, old(live)[name])
      ensures finished ==> !marker && Family(live) == replacement && backup.displaced == Family(old(live))
      ensures finished <==> old(budget) >= |Family(old(live))| + 4
    {
      hide FamilyNames, Named, Family, Others, PartOf, Holds, IsReplacement;
      ghost var before := live;
      WholeIsPart(Family(before));
      AllHeld(before);
      var ok := Step();
      if !ok {
        return false;
      }
      marker := true;
      finished := MoveAway(backup);
      ghost var moved :| 0 <= moved <= |FAMILY| && (finished ==> moved == |FAMILY|)
        && live == before - FamilyNames(moved) && backup.displaced == Named(before, FamilyNames(moved));
      PartlyMoved(before, moved);
      if !finished {
        return;
      }
      finished := Activate(backup, replacement);
      StillHeld(before, live);
      if !finished {
        return;
      }
      ok := Step();
      if !ok {
        return false;
      }
      marker := false;
    }

    /** The copy of the project directory, file by file, without the locks. */
    method CopyAll(backup: Recovery) returns (finished: bool)
      requires backup.copied == map[]
      modifies this`budget, backup`copied
      ensures finished ==> backup.copied == Copied(live)
      ensures finished <==> old(budget) >= |Copied(live)|
      ensures finished ==> budget == old(budget) - |Copied(live)|
    {
      hide Copied;
      var rest := live.Keys;
      NoneCopied(live);
      while rest != {}
        invariant rest <= live.Keys && backup.copied == Copied(live - rest)
        invariant budget + |backup.copied| == old(budget)
        decreases rest
      {
        var name :| name in rest;
        CopyNext(live, rest, name);
        if !name.Lock? {
          finished := Step();
          if !finished {
            return;
          }
          backup.copied := backup.copied[name := live[name]];
        }
        rest := rest - {name};
      }
      assert live - rest == live;
      return true;
    }

    /** Rename the existing family members out of the way, in the listed order. */
    method MoveAway(backup: Recovery) returns (finished: bool)
      requires backup.displaced == map[]
      modifies this`budget, this`live, backup`displaced
      ensures exists i :: 0 <= i <= |FAMILY| && (finished ==> i == |FAMILY|)
                          && live == old(live) - FamilyNames(i) && backup.displaced == Named(old(live), FamilyNames(i))
      ensures finished ==> Family(live) == map[] && backup.displaced == Family(old(live))
      ensures InOrder(live, old(live))
      ensures finished <==> old(budget) >= |Family(old(live))|
      ensures finished ==> budget == old(budget) - |Family(old(live))|
    {
      hide FamilyNames, Named, InOrder;
      ghost var before := live;
      NoneMoved(before);
      for i := 0 to |FAMILY|
        invariant live == before - FamilyNames(i)
        invariant backup.displaced == Named(before, FamilyNames(i))
        invariant budget + |backup.displaced| == old(budget)
      {
        var name := FAMILY[i];
        MoveNext(before, i);
        MovedInOrder(before, i);
        FewerMoved(before, i);
        if name in live {
          finished := Step();
          if !finished {
            return;
          }
          backup.displaced := backup.displaced[name := live[name]];
          live := live - {name};
        }
      }
      PartlyMoved(before, |FAMILY|);
      MovedInOrder(before, |FAMILY|);
      return true;
    }

    /** Rename both replacement databases into place. */
    method Activate(backup: Recovery, replacement: Directory) returns (finished: bool)
      requires backup.staging == replacement && IsReplacement(replacement)
      requires Family(live) == map[]
      modifies this`budget, this`live, backup`staging
      ensures Others(live) == Others(old(live)) && PartOf(Family(live), replacement)
      ensures finished ==> Family(live) == replacement
      ensures (finished <==> old(budget) >= 2) && (finished ==> budget == old(budget) - 2)
    {
      assert forall name :: name in live && name.InFamily() ==> name in Family(live);
      var state, observability := Member(State, Main), Member(Observability, Main);
      finished := Step();
      if !finished {
        return;
      }
      live, backup.staging := live[state := backup.staging[state]], backup.staging - {state};
      finished := Step();
      if !finished {
        return;
      }
      live, backup.staging := live[observability := backup.staging[observability]], backup.staging - {observability};
    }
  }

  lemma FewerMoved(before: Directory, i: nat)
    requires i < |FAMILY|
    ensures FAMILY[i] !in Named(before, FamilyNames(i))
    ensures FAMILY[i] in before ==> |Named(before, FamilyNames(i))| < |Family(before)|
  {
    MoveNext(before, i);
    if FAMILY[i] in before {
      FewerFiles(Named(before, FamilyNames(i)), Family(before), FAMILY[i]);
    }
  }

  lemma NoneCopied(dir: Directory)
    ensures Copied(dir - dir.Keys) == map[] && |dir.Keys| == |dir|
  {
  }

  lemma CopyNext(dir: Directory, rest: set<Name>, name: Name)
    requires name in rest && rest <= dir.Keys
    ensures Copied(dir - (rest - {name}))
            == if name.Lock? then Copied(dir - rest) else Copied(dir - rest)[name := dir[name]]
    ensures name !in Copied(dir - rest)
    ensures !name.Lock? ==> |Copied(dir - rest)| < |Copied(dir)|
  {
    if !name.Lock? { FewerFiles(Copied(dir - rest), Copied(dir), name); }
  }

  lemma FewerFiles(part: Directory, whole: Directory, name: Name)
    requires part.Keys <= whole.Keys && name in whole && name !in part
    ensures |part| < |whole|
  {
    assert part.Keys + {name} <= whole.Keys;
    FewerNames(part.Keys + {name}, whole.Keys);
    assert |part.Keys| == |part| && |whole.Keys| == |whole|;
  }

  lemma FewerNames(part: set<Name>, whole: set<Name>)
    requires part <= whole
    ensures |part| <= |whole|
  {
    assert whole == part + (whole - part);
  }

  lemma NoneMoved(before: Directory)
    ensures before - FamilyNames(0) == before && Named(before, FamilyNames(0)) == map[]
  {
  }

  /** One run of the operator: its checks, what the migrations made, and how far it got. */
  datatype Attempt = Attempt(checks: Checks, replacement: Directory, budget: nat)

  ghost predicate IsOneOf(family: Directory, original: Directory, attempts: seq<Attempt>) {
    family == original || exists i :: 0 <= i < |attempts| && family == attempts[i].replacement
  }

  ghost predicate IsPartOfOne(family: Directory, original: Directory, attempts: seq<Attempt>) {
    PartOf(family, original) || exists i :: 0 <= i < |attempts| && PartOf(family, attempts[i].replacement)
  }

  /** The file is live, or some recovery directory holds it. */
  ghost predicate KeptSomewhere(live: Directory, recoveries: seq<Recovery>, name: Name, file: string)
    reads recoveries
  {
    || Holds(live, name, file)
    || exists r :: r in recoveries && (Holds(r.displaced, name, file) || Holds(r.copied, name, file))
  }

  /** Any number of runs, each cut short anywhere: without a marker the live family is the
      original one or the whole replacement of some run, and with one it is a part of these.
      Every original file is kept, and a marker that was there before stays, with everything
      else. They can start from any store, so the same holds of any later state. */
  method Campaign(store: Store, attempts: seq<Attempt>) returns (recoveries: seq<Recovery>)
    requires forall i :: 0 <= i < |attempts| ==> IsReplacement(attempts[i].replacement)
    modifies store
    ensures old(store.marker) ==> store.marker && store.live == old(store.live)
    ensures Others(store.live) == Others(old(store.live))
    ensures forall r :: r in recoveries ==> fresh(r)
    ensures forall name :: name in old(store.live) ==>
              KeptSomewhere(store.live, recoveries, name, old(store.live)[name])
    ensures IsPartOfOne(Family(store.live), Family(old(store.live)), attempts)
    ensures !store.marker ==> IsOneOf(Family(store.live), Family(old(store.live)), attempts)
    // The same, file by file.
    ensures RestUntouched(store.live, old(store.live))
    ensures PartOld(store.live, old(store.live))
            || exists i :: 0 <= i < |attempts| && PartNew(store.live, attempts[i].replacement)
    ensures !store.marker ==>
              (AllOld(store.live, old(store.live))
               || exists i :: 0 <= i < |attempts| && AllNew(store.live, attempts[i].replacement))
  {
    hide PartOf, Others, Family, Holds, IsReplacement, PartOld, PartNew, AllOld, AllNew, RestUntouched;
    ghost var first := store.live;
    ghost var original := Family(store.live);
    WholeIsPart(original);
    AllHeld(store.live);
    recoveries := [];
    for i := 0 to |attempts|
      invariant old(store.marker) ==> store.marker && store.live == old(store.live)
      invariant Others(store.live) == Others(old(store.live))
      invariant forall r :: r in recoveries ==> fresh(r)
      invariant forall name :: name in old(store.live) ==>
                  KeptSomewhere(store.live, recoveries, name, old(store.live)[name])
      invariant IsPartOfOne(Family(store.live), original, attempts)
      invariant !store.marker ==> IsOneOf(Family(store.live), original, attempts)
    {
      var a := attempts[i];
      var backup := new Recovery();
      store.budget := a.budget;
      ghost var before := store.live;
      label started:
      var finished := store.Reset(backup, a.checks, a.replacement);
      forall name | name in old(store.live)
        ensures KeptSomewhere(store.live, recoveries + [backup], name, old(store.live)[name]) {
        var file := old(store.live)[name];
        assert old@started(KeptSomewhere(store.live, recoveries, name, file));
        StillKept(store, before, recoveries, backup, name, file);
      }
      recoveries := recoveries + [backup];
    }
    CampaignFileByFile(store.live, first, attempts);
  }

  lemma CampaignFileByFile(live: Directory, before: Directory, attempts: seq<Attempt>)
    requires forall i :: 0 <= i < |attempts| ==> IsReplacement(attempts[i].replacement)
    ensures Others(live) == Others(before) ==> RestUntouched(live, before)
    ensures IsPartOfOne(Family(live), Family(before), attempts) ==>
              PartOld(live, before) || exists i :: 0 <= i < |attempts| && PartNew(live, attempts[i].replacement)
    ensures IsOneOf(Family(live), Family(before), attempts) ==>
              AllOld(live, before) || exists i :: 0 <= i < |attempts| && AllNew(live, attempts[i].replacement)
  {
    OldFileByFile(live, before);
    RestFileByFile(live, before);
    hide PartOf, Family, AllNew, PartNew;
    forall i | 0 <= i < |attempts|
      ensures Family(live) == attempts[i].replacement ==> AllNew(live, attempts[i].replacement)
      ensures PartOf(Family(live), attempts[i].replacement) ==> PartNew(live, attempts[i].replacement)
    {
      NewFileByFile(live, attempts[i].replacement);
    }
  }

  lemma StillKept(store: Store, before: Directory, recoveries: seq<Recovery>, backup: Recovery, name: Name,
                  file: string)
    requires KeptSomewhere(before, recoveries, name, file) && store.Preserved(backup, before)
    ensures KeptSomewhere(store.live, recoveries + [backup], name, file)
  {
    if r :| r in recoveries && (Holds(r.displaced, name, file) || Holds(r.copied, name, file)) {
      assert r in recoveries + [backup];
    } else {
      assert backup in recoveries + [backup];
    }
  }

  lemma AllHeld(dir: Directory)
    ensures forall name :: name in dir ==> Holds(dir, name, dir[name])
  {
  }

  /** With the family displaced and the rest untouched, every file is held. */
  lemma StillHeld(before: Directory, after: Directory)
    requires Others(after) == Others(before)
    ensures forall name :: name in before ==>
              Holds(after, name, before[name]) || Holds(Family(before), name, before[name])
  {
    forall name | name in before && !name.InFamily() ensures Holds(after, name, before[name]) {
      assert name in Others(before) && name in Others(after);
    }
  }

  lemma WholeIsPart(dir: Directory)
    ensures PartOf(dir, dir)
  {
  }
}
