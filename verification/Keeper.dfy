/** scripts/terminal_test_launcher.py, `keep`: the keeper that deletes a temporary profile once
    every process using it has gone, as a state machine over the keeper's and the processes'
    interleaved steps. */
module Keeper {

  /** A process instance; an opened handle keeps it from being reused. */
  type Process = nat

  datatype Pc =
    | Start                            // opening the coordinator
    | Listing                          // about to list the participant records
    | Scanning(left: set<Process>)     // listed records still to be opened
    | Checking(left: set<Process>)     // handles still to be asked
    | Deleting
    | Deleted
    | Refused

  datatype State = State(
    owner: Process,
    alive: set<Process>,
    registered: set<Process>,          // processes with a participant record
    seen: set<Process>, handles: set<Process>,
    quiet: bool,                       // quiet_since is set
    pc: Pc,
    late: set<Process>)                // registered since a check last saw a live process

  datatype Event =
    | OpenCoordinator
    | List
    | OpenRecord(p: Process)
    | EndScan
    | AskAlive(p: Process)
    | EndCheck(elapsed: bool)          // whether a second of quiet has passed
    | Delete
    | Refuse
    | Register(p: Process, predecessor: Process)
    | Exit(p: Process)

  predicate Init(s: State) {
    && s.alive <= s.registered + {s.owner} && s.owner !in s.registered
    && s.seen == {} && s.handles == {} && !s.quiet && s.pc == Start && s.late == {}
  }

  /** A process registers while its predecessor lives; `handoffs` bounds how many may do so
      after a check last saw a live process. */
  predicate MayRegister(s: State, p: Process, predecessor: Process, handoffs: nat) {
    && p !in s.registered && p != s.owner
    && predecessor in s.alive && predecessor in s.registered + {s.owner}
    && |s.late| < handoffs
  }

  predicate Enabled(s: State, e: Event, handoffs: nat) {
    match e
    case OpenCoordinator => s.pc == Start
    case List => s.pc == Listing
    case OpenRecord(p) => s.pc.Scanning? && p in s.registered && p !in s.seen
    case EndScan => s.pc == Scanning({})
    case AskAlive(p) => s.pc.Checking? && p in s.pc.left
    case EndCheck(elapsed) => s.pc == Checking({})
    case Delete => s.pc == Deleting
    case Refuse => s.pc != Deleting && s.pc != Deleted
    case Register(p, predecessor) => MayRegister(s, p, predecessor, handoffs)
    case Exit(p) => p in s.alive
  }

  function Step(s: State, e: Event): State {
    match e
    case OpenCoordinator => s.(handles := {s.owner} * s.alive, pc := Listing)
    case List => s.(pc := Scanning(s.registered - s.seen))
    case OpenRecord(p) =>
      var left := if s.pc.Scanning? then s.pc.left - {p} else {};
      s.(seen := s.seen + {p}, handles := s.handles + ({p} * s.alive), pc := Scanning(left))
    case EndScan => s.(pc := Checking(s.handles))
    case AskAlive(p) =>
      if p in s.alive then s.(quiet := false, late := {}, pc := Listing)
      else s.(pc := Checking(if s.pc.Checking? then s.pc.left - {p} else {}))
    case EndCheck(elapsed) =>
      if !s.quiet then s.(quiet := true, pc := Listing)
      else s.(pc := if elapsed then Deleting else Listing)
    case Delete => s.(pc := Deleted)
    case Refuse => s.(pc := Refused)
    case Register(p, _) => s.(alive := s.alive + {p}, registered := s.registered + {p}, late := s.late + {p})
    case Exit(p) => s.(alive := s.alive - {p})
  }

  ghost predicate IsRun(states: seq<State>, events: seq<Event>, handoffs: nat) {
    && |states| == |events| + 1 && Init(states[0])
    && forall i :: 0 <= i < |events| ==>
         Enabled(states[i], events[i], handoffs) && states[i + 1] == Step(states[i], events[i])
  }

  /** The profile is deleted only when nothing uses it. */
  predicate Safe(s: State) {
    s.pc == Deleting || s.pc == Deleted ==> s.alive == {}
  }

  // ----- why one hand-off is safe -----

  ghost predicate Bookkeeping(s: State) {
    && s.alive <= s.registered + {s.owner}
    && s.owner !in s.registered
    && s.late <= s.registered && s.seen <= s.registered
    && s.handles <= s.seen + {s.owner}
    && (s.pc == Start ==> s.seen == {})
    && |s.late| <= 1
    && (forall p :: p in s.seen && p in s.alive ==> p in s.handles)
    && (s.pc != Start && s.pc != Refused && s.owner in s.alive ==> s.owner in s.handles)
  }

  /** Which records the current scan has covered. */
  ghost predicate Covered(s: State) {
    match s.pc
    case Scanning(left) => s.registered <= s.seen + left + s.late
                           && (s.quiet ==> s.registered <= s.seen + left)
    case Checking(left) => s.registered <= s.seen + s.late && (s.quiet ==> s.registered <= s.seen)
                           && left <= s.handles && (forall p :: p in s.handles - left ==> p !in s.alive)
    case Refused => true
    case _ => s.quiet ==> s.registered <= s.seen + s.late
  }

  /** After a quiet check, only a process registered since may be alive. */
  ghost predicate Quiet(s: State) {
    s.quiet && s.pc != Refused ==> s.alive <= s.late && s.pc != Start
  }

  ghost predicate Inv(s: State) {
    Bookkeeping(s) && Covered(s) && Quiet(s) && Safe(s)
  }

  lemma AtMostOne(late: set<Process>, p: Process)
    requires |late| < 1
    ensures late == {} && |late + {p}| <= 1
  {
  }

  lemma ProcessStepKeepsInv(s: State, e: Event)
    requires Inv(s) && Enabled(s, e, 1) && (e.Register? || e.Exit?)
    ensures Inv(Step(s, e))
  {
    if e.Register? {
      AtMostOne(s.late, e.p);
      assert e.p !in s.seen;
    }
  }

  lemma KeeperStepKeepsInv(s: State, e: Event)
    requires Inv(s) && Enabled(s, e, 1) && !e.Register? && !e.Exit?
    ensures Inv(Step(s, e))
  {
  }

  lemma {:induction false} RunKeepsInv(states: seq<State>, events: seq<Event>, i: nat)
    requires IsRun(states, events, 1) && i < |states|
    ensures Inv(states[i])
  {
    if i > 0 {
      RunKeepsInv(states, events, i - 1);
      if events[i - 1].Register? || events[i - 1].Exit? {
        ProcessStepKeepsInv(states[i - 1], events[i - 1]);
      } else {
        KeeperStepKeepsInv(states[i - 1], events[i - 1]);
      }
    }
  }

  /** In every interleaving, with at most one hand-off after a check last saw a live process,
      the keeper deletes only when no participant is alive. */
  lemma KeeperIsSafe(states: seq<State>, events: seq<Event>)
    requires IsRun(states, events, 1)
    ensures forall i :: 0 <= i < |states| ==> Safe(states[i])
  {
    forall i | 0 <= i < |states| ensures Safe(states[i]) {
      RunKeepsInv(states, events, i);
    }
  }

  // ----- that it deletes, and when -----

  /** A step that the keeper takes of its own accord. */
  predicate ByKeeper(e: Event) { !e.Register? && !e.Exit? && !e.Refuse? }

  /** A path of the keeper's own steps. */
  ghost predicate Goes(states: seq<State>, events: seq<Event>, handoffs: nat) {
    && |states| == |events| + 1
    && forall i :: 0 <= i < |events| ==>
         ByKeeper(events[i]) && Enabled(states[i], events[i], handoffs) && states[i + 1] == Step(states[i], events[i])
  }

  lemma GoesBy(s: State, e: Event, states: seq<State>, events: seq<Event>, handoffs: nat)
    requires ByKeeper(e) && Enabled(s, e, handoffs) && Goes(states, events, handoffs) && states[0] == Step(s, e)
    ensures Goes([s] + states, [e] + events, handoffs)
  {
    hide Step, Enabled, ByKeeper;
    var longer, all := [s] + states, [e] + events;
    forall i | 0 <= i < |all|
      ensures ByKeeper(all[i]) && Enabled(longer[i], all[i], handoffs) && longer[i + 1] == Step(longer[i], all[i])
    {
      if i > 0 { assert all[i] == events[i - 1] && longer[i] == states[i - 1] && longer[i + 1] == states[i]; }
    }
  }

  /** The records still to be opened in a scan are open to it. */
  ghost predicate Scannable(s: State) {
    s.pc.Scanning? ==> s.pc.left <= s.registered - s.seen
  }

  lemma {:induction false} RunIsScannable(states: seq<State>, events: seq<Event>, handoffs: nat, i: nat)
    requires IsRun(states, events, handoffs) && i < |states|
    ensures Scannable(states[i])
  {
    if i > 0 { RunIsScannable(states, events, handoffs, i - 1); }
  }

  function Phase(pc: Pc): nat {
    match pc
    case Start => 5
    case Listing => 4
    case Scanning(_) => 3
    case Checking(_) => 2
    case Deleting => 1
    case _ => 0
  }

  /** The keeper's next step where nothing is alive. */
  ghost function NextStep(s: State): (e: Event)
    requires s.pc != Deleted && s.pc != Refused
  {
    match s.pc
    case Start => OpenCoordinator
    case Listing => List
    case Scanning(left) => if left == {} then EndScan else var p :| p in left; OpenRecord(p)
    case Checking(left) => if left == {} then EndCheck(true) else var p :| p in left; AskAlive(p)
    case _ => Event.Delete
  }

  lemma {:induction false} Finishes(s: State, handoffs: nat) returns (states: seq<State>, events: seq<Event>)
    requires s.alive == {} && s.pc != Refused && Scannable(s)
    ensures Goes(states, events, handoffs) && states[0] == s && states[|states| - 1].pc == Deleted
    decreases !s.quiet, Phase(s.pc), (if s.pc.Scanning? || s.pc.Checking? then |s.pc.left| else 0)
  {
    if s.pc == Deleted {
      return [s], [];
    }
    var e := NextStep(s);
    var later, more := Finishes(Step(s, e), handoffs);
    GoesBy(s, e, later, more, handoffs);
    states, events := [s] + later, [e] + more;
  }

  /** From every reachable state that is not refused and has nothing alive the keeper can go on,
      by itself, to delete the profile. */
  lemma KeeperDeletes(states: seq<State>, events: seq<Event>, handoffs: nat)
    returns (more: seq<State>, steps: seq<Event>)
    requires IsRun(states, events, handoffs)
    requires states[|states| - 1].pc != Refused && states[|states| - 1].alive == {}
    ensures IsRun(states + more, events + steps, handoffs)
    ensures forall e :: e in steps ==> !e.Register? && !e.Exit? && !e.Refuse?
    ensures (states + more)[|states + more| - 1].pc == Deleted
  {
    RunIsScannable(states, events, handoffs, |states| - 1);
    var path;
    path, steps := Finishes(states[|states| - 1], handoffs);
    hide Step, Enabled;
    more := path[1..];
    var all, taken := states + more, events + steps;
    forall i | 0 <= i < |taken|
      ensures Enabled(all[i], taken[i], handoffs) && all[i + 1] == Step(all[i], taken[i])
    {
      if i >= |events| {
        var k := i - |events|;
        assert taken[i] == steps[k] && all[i] == path[k] && all[i + 1] == path[k + 1];
      }
    }
    assert all[|all| - 1] == path[|path| - 1];
  }

  /** No handle that was asked between the two places was alive. */
  ghost predicate NoneAlive(states: seq<State>, events: seq<Event>, from: nat, to: nat)
    requires to <= |events| <= |states|
  {
    forall m :: from < m < to && events[m].AskAlive? ==> events[m].p !in states[m].alive
  }

  /** A scan or check belongs to a listing since which no handle asked was alive. */
  lemma {:induction false} RoundSince(states: seq<State>, events: seq<Event>, handoffs: nat, i: nat)
    returns (l: nat)
    requires IsRun(states, events, handoffs) && i < |states| && (states[i].pc.Scanning? || states[i].pc.Checking?)
    ensures l < i && events[l] == List && NoneAlive(states, events, l, i)
  {
    assert Enabled(states[i - 1], events[i - 1], handoffs);
    if events[i - 1] == List {
      l := i - 1;
    } else {
      l := RoundSince(states, events, handoffs, i - 1);
    }
  }

  /** Quiet began with the end of such a round, and nothing alive was asked since. */
  lemma {:induction false} QuietSince(states: seq<State>, events: seq<Event>, handoffs: nat, i: nat)
    returns (first: nat, j: nat)
    requires IsRun(states, events, handoffs) && i < |states| && states[i].quiet && states[i].pc != Refused
    ensures first < j < i && events[first] == List && events[j].EndCheck? && NoneAlive(states, events, first, i)
    ensures states[i].pc.Scanning? || states[i].pc.Checking? ==> exists l :: j < l < i && events[l] == List
  {
    assert Enabled(states[i - 1], events[i - 1], handoffs);
    if states[i - 1].quiet {
      first, j := QuietSince(states, events, handoffs, i - 1);
      if states[i].pc.Scanning? || states[i].pc.Checking? {
        if events[i - 1] != List {
          var l :| j < l < i - 1 && events[l] == List;
        }
      }
    } else {
      first := RoundSince(states, events, handoffs, i - 1);
      j := i - 1;
    }
  }

  /** A deletion follows two whole rounds, each a listing and a check, the second ending a second
      or more after the first, in which no handle asked was alive. */
  lemma {:induction false} DeletionFollowsQuiet(states: seq<State>, events: seq<Event>, handoffs: nat, i: nat)
    returns (first: nat, j: nat, second: nat, k: nat)
    requires IsRun(states, events, handoffs) && i < |states| && (states[i].pc == Deleting || states[i].pc == Deleted)
    ensures first < j < second < k < i && events[first] == List && events[second] == List
    ensures events[j].EndCheck? && events[k] == EndCheck(true) && NoneAlive(states, events, first, k)
  {
    assert Enabled(states[i - 1], events[i - 1], handoffs);
    if states[i - 1].pc == Deleting || states[i - 1].pc == Deleted {
      first, j, second, k := DeletionFollowsQuiet(states, events, handoffs, i - 1);
    } else {
      k := i - 1;
      first, j := QuietSince(states, events, handoffs, k);
      second :| j < second < k && events[second] == List;
    }
  }

  /** The keeper can refuse at any time before it deletes, and then never deletes. */
  lemma {:induction false} RefusalIsFinal(states: seq<State>, events: seq<Event>, handoffs: nat, i: nat, j: nat)
    requires IsRun(states, events, handoffs) && i <= j < |states| && states[i].pc == Refused
    ensures states[j].pc == Refused
  {
    if i < j { RefusalIsFinal(states, events, handoffs, i, j - 1); }
  }

  /** And it gives up for no other reason: neither a live process nor too short a quiet ends it. */
  lemma {:induction false} OnlyRefusalRefuses(states: seq<State>, events: seq<Event>, handoffs: nat, i: nat)
    returns (j: nat)
    requires IsRun(states, events, handoffs) && i < |states| && states[i].pc == Refused
    ensures j < i && events[j] == Refuse
  {
    if states[i - 1].pc == Refused {
      j := OnlyRefusalRefuses(states, events, handoffs, i - 1);
    } else {
      j := i - 1;
    }
  }

  /** Every handle is of a process that was alive when it was opened. */
  lemma {:induction false} HandlesWereAlive(states: seq<State>, events: seq<Event>, handoffs: nat, i: nat, p: Process)
    returns (j: nat)
    requires IsRun(states, events, handoffs) && i < |states| && p in states[i].handles
    ensures j < i && p in states[j].alive && (events[j] == OpenCoordinator || events[j] == OpenRecord(p))
  {
    assert Enabled(states[i - 1], events[i - 1], handoffs);
    if p in states[i - 1].handles && events[i - 1] != OpenCoordinator {
      j := HandlesWereAlive(states, events, handoffs, i - 1, p);
    } else {
      j := i - 1;
    }
  }

  /** After a check has seen a live process, a further hand-off is possible whatever came before. */
  lemma HandoffAfterLiveCheck(s: State, p: Process, q: Process, predecessor: Process, handoffs: nat)
    returns (t: State)
    requires Reachable(s, handoffs) && handoffs > 0 && s.pc.Checking? && p in s.pc.left && p in s.alive
    requires q !in s.registered && q != s.owner
    requires predecessor in s.alive && predecessor in s.registered + {s.owner}
    ensures Reachable(t, handoffs) && q in t.alive && q in t.registered && t.pc == Listing && !t.quiet
  {
    var asked := Step(s, AskAlive(p));
    ReachableNext(s, AskAlive(p), asked, handoffs);
    t := Step(asked, Register(q, predecessor));
    ReachableNext(asked, Register(q, predecessor), t, handoffs);
  }

  lemma RefusalIsPossible(s: State, handoffs: nat)
    requires Reachable(s, handoffs) && s.pc != Deleting && s.pc != Deleted
    ensures Reachable(s.(pc := Refused), handoffs)
  {
    ReachableNext(s, Refuse, s.(pc := Refused), handoffs);
  }

  lemma {:induction false} DeletionIsFinal(states: seq<State>, events: seq<Event>, handoffs: nat, i: nat, j: nat)
    requires IsRun(states, events, handoffs) && i <= j < |states| && states[i].pc == Deleted
    ensures states[j].pc == Deleted
  {
    if i < j { DeletionIsFinal(states, events, handoffs, i, j - 1); }
  }

  lemma {:induction false} SeenGrows(states: seq<State>, events: seq<Event>, handoffs: nat, i: nat, j: nat)
    requires IsRun(states, events, handoffs) && i <= j < |states|
    ensures states[i].seen <= states[j].seen
  {
    if i < j { SeenGrows(states, events, handoffs, i, j - 1); }
  }

  /** Every record is opened once at most, and only opened handles are asked. */
  lemma RecordsAreOpenedOnce(states: seq<State>, events: seq<Event>, handoffs: nat, i: nat, j: nat)
    requires IsRun(states, events, handoffs) && i < j < |events| && events[i].OpenRecord?
    ensures events[j] != events[i]
  {
    SeenGrows(states, events, handoffs, i + 1, j);
    assert Enabled(states[j], events[j], handoffs) && states[i + 1] == Step(states[i], events[i]);
  }

  lemma {:induction false} HandlesAreAsked(states: seq<State>, events: seq<Event>, handoffs: nat, i: nat)
    requires IsRun(states, events, handoffs) && i < |states|
    ensures states[i].pc.Checking? ==> states[i].pc.left <= states[i].handles
    ensures i < |events| && events[i].AskAlive? ==> events[i].p in states[i].handles
  {
    if i > 0 { HandlesAreAsked(states, events, handoffs, i - 1); }
    assert i < |events| ==> Enabled(states[i], events[i], handoffs);
  }

  /** A run can start with any processes alive that are registered, and with any dead ones. */
  lemma StartsAnywhere(owner: Process, alive: set<Process>, registered: set<Process>, handoffs: nat)
    requires owner !in registered && alive <= registered + {owner}
    ensures Reachable(State(owner, alive, registered, {}, {}, false, Start, {}), handoffs)
  {
    var s := State(owner, alive, registered, {}, {}, false, Start, {});
    assert IsRun([s], [], handoffs);
  }

  // ----- why the assumption is needed -----

  /** A run that has arrived at `s` can take any enabled step. */
  ghost predicate Reachable(s: State, handoffs: nat) {
    exists states, events :: IsRun(states, events, handoffs) && states[|states| - 1] == s
  }

  lemma ReachableNext(s: State, e: Event, t: State, handoffs: nat)
    requires Reachable(s, handoffs) && Enabled(s, e, handoffs) && t == Step(s, e)
    ensures Reachable(t, handoffs)
  {
    var states, events :| IsRun(states, events, handoffs) && states[|states| - 1] == s;
    assert IsRun(states + [t], events + [e], handoffs);
  }

  /** With two hand-offs between checks a live process can lose its profile: the coordinator
      hands over to 1 after a listing, and 1 to 2 after the next. */
  lemma TwoHandoffsAreUnsafe()
    ensures exists s :: Reachable(s, 2) && s.pc == Deleted && s.alive != {}
  {
    var s0 := State(0, {0}, {}, {}, {}, false, Start, {});
    var s1 := s0.(handles := {0}, pc := Listing);
    var s2 := s1.(pc := Scanning({}));
    assert IsRun([s0], [], 2);
    assert Reachable(s0, 2);
    assert Step(s0, OpenCoordinator) == s1;
    ReachableNext(s0, OpenCoordinator, s1, 2);
    assert s1.registered - s1.seen == {};
    ReachableNext(s1, List, s2, 2);
    FirstHandoff(s2);
  }

  lemma FirstHandoff(s2: State)
    requires s2 == State(0, {0}, {}, {}, {0}, false, Scanning({}), {}) && Reachable(s2, 2)
    ensures exists s :: Reachable(s, 2) && s.pc == Deleted && s.alive != {}
  {
    var s3 := s2.(alive := {0, 1}, registered := {1}, late := {1});
    var s4 := s3.(alive := {1});
    assert Step(s2, Register(1, 0)) == s3;
    ReachableNext(s2, Register(1, 0), s3, 2);
    assert {0, 1} - {0} == {1};
    ReachableNext(s3, Exit(0), s4, 2);
    FirstQuiet(s4);
  }

  lemma FirstQuiet(s4: State)
    requires s4 == State(0, {1}, {1}, {}, {0}, false, Scanning({}), {1}) && Reachable(s4, 2)
    ensures exists s :: Reachable(s, 2) && s.pc == Deleted && s.alive != {}
  {
    var s5 := s4.(pc := Checking({0}));
    var s6 := s5.(pc := Checking({}));
    var s7 := s6.(quiet := true, pc := Listing);
    var s8 := s7.(pc := Scanning({1}));
    ReachableNext(s4, EndScan, s5, 2);
    assert Step(s5, AskAlive(0)) == s6 by { assert {0} - {0} == {}; }
    ReachableNext(s5, AskAlive(0), s6, 2);
    ReachableNext(s6, EndCheck(false), s7, 2);
    assert s7.registered - s7.seen == {1};
    ReachableNext(s7, List, s8, 2);
    SecondHandoff(s8);
  }

  lemma SecondHandoff(s8: State)
    requires s8 == State(0, {1}, {1}, {}, {0}, true, Scanning({1}), {1}) && Reachable(s8, 2)
    ensures exists s :: Reachable(s, 2) && s.pc == Deleted && s.alive != {}
  {
    var s9 := s8.(alive := {1, 2}, registered := {1, 2}, late := {1, 2});
    var s10 := s9.(alive := {2});
    assert Step(s8, Register(2, 1)) == s9;
    ReachableNext(s8, Register(2, 1), s9, 2);
    assert {1, 2} - {1} == {2};
    ReachableNext(s9, Exit(1), s10, 2);
    SecondQuiet(s10);
  }

  lemma SecondQuiet(s10: State)
    requires s10 == State(0, {2}, {1, 2}, {}, {0}, true, Scanning({1}), {1, 2}) && Reachable(s10, 2)
    ensures exists s :: Reachable(s, 2) && s.pc == Deleted && s.alive != {}
  {
    var s11 := s10.(seen := {1}, pc := Scanning({}));
    var s12 := s11.(pc := Checking({0}));
    var s13 := s12.(pc := Checking({}));
    var s14 := s13.(pc := Deleting);
    assert Step(s10, OpenRecord(1)) == s11;
    ReachableNext(s10, OpenRecord(1), s11, 2);
    ReachableNext(s11, EndScan, s12, 2);
    assert Step(s12, AskAlive(0)) == s13 by { assert {0} - {0} == {}; }
    ReachableNext(s12, AskAlive(0), s13, 2);
    ReachableNext(s13, EndCheck(true), s14, 2);
    ReachableNext(s14, Event.Delete, s14.(pc := Deleted), 2);
    assert 2 in s14.alive;
  }
}
