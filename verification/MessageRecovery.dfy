/** scripts/recover_state_sqlite.py, `_rebuild_public_messages`: user messages reconstructed
    from task objects. */
module MessageRecovery {
  import opened Outcome
  import opened Sorting

  /** A task that belongs to a session; `content` is its stripped description, or empty when
      the contract object is missing or has none. */
  datatype Task = Task(id: string, session: string, content: string, createdAt: string)

  datatype Message = Message(id: string, session: string, task: Option<string>, sequence: int, role: string,
                             content: string, createdAt: string)

  const PREFIX := "recovered-user:"

  function RecoveredId(task: string): string { PREFIX + task }

  /** The table's constraints: unique message ids, unique sequences within a session. */
  ghost predicate Constrained(messages: seq<Message>) {
    forall i, j :: 0 <= i < j < |messages| ==>
      && messages[i].id != messages[j].id
      && !(messages[i].session == messages[j].session && messages[i].sequence == messages[j].sequence)
  }

  /** `INSERT OR IGNORE` would ignore this row. */
  predicate Conflicts(messages: seq<Message>, m: Message) {
    exists i :: 0 <= i < |messages| &&
      (messages[i].id == m.id || (messages[i].session == m.session && messages[i].sequence == m.sequence))
  }

  predicate HasUser(messages: seq<Message>, task: string) {
    exists i :: 0 <= i < |messages| && messages[i].task == Some(task) && messages[i].role == "user"
  }

  predicate IdTaken(messages: seq<Message>, id: string) {
    exists i :: 0 <= i < |messages| && messages[i].id == id
  }

  /** `MAX(sequence) + 1` of a session, zero without messages. */
  function NextSequence(messages: seq<Message>, session: string): int {
    if messages == [] then 0
    else
      var n := |messages| - 1;
      var rest := NextSequence(messages[..n], session);
      if messages[n].session != session then rest
      else if !HasSession(messages[..n], session) || messages[n].sequence + 1 > rest then messages[n].sequence + 1
      else rest
  }

  predicate HasSession(messages: seq<Message>, session: string) {
    exists i :: 0 <= i < |messages| && messages[i].session == session
  }

  /** A task to recover: it has a description and no user message. */
  predicate Due(messages: seq<Message>, t: Task) {
    t.content != "" && !HasUser(messages, t.id)
  }

  /** A due task whose message is inserted, and one whose message is ignored because its id
      already belongs to a message. */
  predicate Kept(messages: seq<Message>, t: Task) {
    Due(messages, t) && !IdTaken(messages, RecoveredId(t.id))
  }

  predicate Lost(messages: seq<Message>, t: Task) {
    Due(messages, t) && IdTaken(messages, RecoveredId(t.id))
  }

  /** The tasks to recover in a session. */
  function DueIn(messages: seq<Message>, rows: seq<Task>, session: string): nat {
    if rows == [] then 0
    else
      var n := |rows| - 1;
      DueIn(messages, rows[..n], session) + (if Due(messages, rows[n]) && rows[n].session == session then 1 else 0)
  }

  function DueCount(messages: seq<Message>, rows: seq<Task>): nat {
    if rows == [] then 0
    else DueCount(messages, rows[..|rows| - 1]) + (if Due(messages, rows[|rows| - 1]) then 1 else 0)
  }

  function Reconstructed(t: Task, sequence: int): Message {
    Message(RecoveredId(t.id), t.session, Some(t.id), sequence, "user", t.content, t.createdAt)
  }

  /** The number given to a due task: on from its session's old maximum, past the due tasks
      of the session before it. */
  function SequenceOf(messages: seq<Message>, rows: seq<Task>, i: nat): int
    requires i < |rows|
  {
    NextSequence(messages, rows[i].session) + DueIn(messages, rows[..i], rows[i].session)
  }

  /** The rows added: each due task's message, unless its id is taken. */
  function Added(messages: seq<Message>, rows: seq<Task>): seq<Message> {
    if rows == [] then []
    else
      var n := |rows| - 1;
      var t := rows[n];
      var before := Added(messages, rows[..n]);
      if Kept(messages, t) then before + [Reconstructed(t, SequenceOf(messages, rows, n))] else before
  }

  predicate DistinctTasks(rows: seq<Task>) {
    forall i, j | 0 <= i < j < |rows| :: rows[i].id != rows[j].id
  }

  lemma {:induction false} NextSequenceIsAbove(messages: seq<Message>, session: string, i: nat)
    requires i < |messages| && messages[i].session == session
    ensures messages[i].sequence < NextSequence(messages, session)
  {
    var n := |messages| - 1;
    if i < n {
      assert messages[..n][i] == messages[i];
      NextSequenceIsAbove(messages[..n], session, i);
    }
  }

  lemma {:induction false} DueInGrows(messages: seq<Message>, rows: seq<Task>, n: nat, session: string)
    requires n <= |rows|
    ensures DueIn(messages, rows[..n], session) <= DueIn(messages, rows, session)
  {
    if n == |rows| {
      TakeAll(rows);
    } else {
      var shorter := rows[..|rows| - 1];
      assert shorter[..n] == rows[..n];
      DueInGrows(messages, shorter, n, session);
    }
  }

  /** The next number is past the session's greatest, or zero. */
  lemma {:induction false} NextSequenceIs(messages: seq<Message>, session: string)
    ensures if exists i :: 0 <= i < |messages| && messages[i].session == session
            then exists i :: 0 <= i < |messages| && messages[i].session == session
                             && messages[i].sequence + 1 == NextSequence(messages, session)
            else NextSequence(messages, session) == 0
    ensures forall i :: 0 <= i < |messages| && messages[i].session == session ==>
              messages[i].sequence < NextSequence(messages, session)
  {
    if messages != [] {
      var n := |messages| - 1;
      var shorter := messages[..n];
      NextSequenceIs(shorter, session);
      assert forall i :: 0 <= i < n ==> shorter[i] == messages[i];
      if HasSession(shorter, session) {
        var i :| 0 <= i < |shorter| && shorter[i].session == session
                 && shorter[i].sequence + 1 == NextSequence(shorter, session);
        assert messages[i].sequence + 1 == NextSequence(shorter, session);
      }
    }
  }

  ghost predicate IsAddedFor(messages: seq<Message>, rows: seq<Task>, i: nat, m: Message) {
    && i < |rows| && Kept(messages, rows[i])
    && m == Reconstructed(rows[i], SequenceOf(messages, rows, i))
  }

  lemma PrefixSequence(messages: seq<Message>, rows: seq<Task>, n: nat, i: nat, m: Message)
    requires i < n <= |rows|
    ensures IsAddedFor(messages, rows[..n], i, m) <==> IsAddedFor(messages, rows, i, m)
  {
    assert rows[..n][..i] == rows[..i];
  }

  /** Every added row is the message of one of the due tasks. */
  lemma {:induction false} AddedAreRecovered(messages: seq<Message>, rows: seq<Task>, k: nat) returns (i: nat)
    requires k < |Added(messages, rows)|
    ensures IsAddedFor(messages, rows, i, Added(messages, rows)[k])
  {
    hide IsAddedFor, SequenceOf, Due, IdTaken;
    var n := |rows| - 1;
    var before := Added(messages, rows[..n]);
    if k < |before| {
      i := AddedAreRecovered(messages, rows[..n], k);
      assert i < n by { InRows(messages, rows[..n], i, before[k]); }
      PrefixSequence(messages, rows, n, i, before[k]);
    } else {
      i := n;
      LastIsAdded(messages, rows);
    }
  }

  lemma InRows(messages: seq<Message>, rows: seq<Task>, i: nat, m: Message)
    requires IsAddedFor(messages, rows, i, m)
    ensures i < |rows|
  {
  }

  lemma LastIsAdded(messages: seq<Message>, rows: seq<Task>)
    requires rows != [] && |Added(messages, rows)| > |Added(messages, rows[..|rows| - 1])|
    ensures IsAddedFor(messages, rows, |rows| - 1, Added(messages, rows)[|Added(messages, rows)| - 1])
  {
  }

  lemma PrefixInjective(a: string, b: string)
    requires RecoveredId(a) == RecoveredId(b)
    ensures a == b
  {
    assert RecoveredId(a)[|PREFIX|..] == a && RecoveredId(b)[|PREFIX|..] == b;
  }

  /** Whatever was added for an earlier task has another task, another id and, in the same
      session, a lower number. */
  lemma AddedIsEarlier(messages: seq<Message>, rows: seq<Task>, n: nat, k: nat)
    requires n < |rows| && DistinctTasks(rows) && k < |Added(messages, rows[..n])|
    ensures var m := Added(messages, rows[..n])[k]; var t := rows[n];
            && m.task != Some(t.id) && m.id != RecoveredId(t.id)
            && (m.session == t.session ==> m.sequence < SequenceOf(messages, rows, n))
  {
    hide NextSequence, IdTaken, HasUser;
    var m, t := Added(messages, rows[..n])[k], rows[n];
    var i := AddedAreRecovered(messages, rows[..n], k);
    PrefixSequence(messages, rows, n, i, m);
    if m.id == RecoveredId(t.id) { PrefixInjective(rows[i].id, t.id); }
    assert rows[..n][..i + 1] == rows[..i + 1] && rows[..i + 1][..i] == rows[..i];
    DueInGrows(messages, rows[..n], i + 1, m.session);
  }

  /** Nothing added so far concerns a later task, or reaches the next number of its session. */
  lemma NextRowIsFree(messages: seq<Message>, rows: seq<Task>, n: nat)
    requires n < |rows| && DistinctTasks(rows)
    ensures var now := messages + Added(messages, rows[..n]); var t := rows[n];
            && (HasUser(now, t.id) <==> HasUser(messages, t.id))
            && (Conflicts(now, Reconstructed(t, SequenceOf(messages, rows, n)))
                <==> IdTaken(messages, RecoveredId(t.id)))
  {
    hide Added, SequenceOf;
    var added := Added(messages, rows[..n]);
    var now, t := messages + added, rows[n];
    var m := Reconstructed(t, SequenceOf(messages, rows, n));
    forall k | 0 <= k < |added|
      ensures added[k].task != Some(t.id) && added[k].id != m.id
      ensures added[k].session == t.session ==> added[k].sequence < m.sequence
    {
      AddedIsEarlier(messages, rows, n, k);
    }
    forall i | 0 <= i < |messages| && messages[i].session == t.session ensures messages[i].sequence < m.sequence {
      OldIsBelow(messages, rows, n, i);
    }
    if HasUser(messages, t.id) {
      var i :| 0 <= i < |messages| && messages[i].task == Some(t.id) && messages[i].role == "user";
      assert now[i] == messages[i];
    }
    if IdTaken(messages, m.id) {
      var i :| 0 <= i < |messages| && messages[i].id == m.id;
      assert now[i] == messages[i];
    }
  }

  lemma OldIsBelow(messages: seq<Message>, rows: seq<Task>, n: nat, i: nat)
    requires n < |rows| && i < |messages| && messages[i].session == rows[n].session
    ensures messages[i].sequence < SequenceOf(messages, rows, n)
  {
    NextSequenceIsAbove(messages, rows[n].session, i);
  }

  /** The task is to be recovered and its message can be inserted. */
  ghost predicate Insertable(messages: seq<Message>, t: Task) {
    && t.content != ""
    && !(exists i :: 0 <= i < |messages| && messages[i].task == Some(t.id) && messages[i].role == "user")
    && !(exists i :: 0 <= i < |messages| && messages[i].id == "recovered-user:" + t.id)
  }

  lemma InsertableIs(messages: seq<Message>, t: Task)
    ensures Insertable(messages, t) <==> Kept(messages, t)
  {
  }

  /** The added rows, in task order: one user message for each task that is described, has none
      and whose message id is free. `places` says of which tasks. */
  lemma {:induction false} AddedExactly(messages: seq<Message>, rows: seq<Task>) returns (places: seq<nat>)
    ensures |places| == |Added(messages, rows)|
    ensures forall k :: 0 <= k < |places| ==> places[k] < |rows|
    ensures forall k, l :: 0 <= k < l < |places| ==> places[k] < places[l]
    ensures forall i :: 0 <= i < |rows| ==> (i in places <==> Insertable(messages, rows[i]))
    ensures forall k :: 0 <= k < |places| ==>
              var m, t := Added(messages, rows)[k], rows[places[k]];
              && m.id == "recovered-user:" + t.id && m.task == Some(t.id) && m.role == "user"
              && m.session == t.session && m.content == t.content && m.createdAt == t.createdAt
  {
    hide NextSequence, DueIn, Kept, Insertable, SequenceOf;
    if rows == [] {
      places := [];
    } else {
      var n := |rows| - 1;
      places := AddedExactly(messages, rows[..n]);
      assert forall i :: 0 <= i < n ==> rows[..n][i] == rows[i];
      InsertableIs(messages, rows[n]);
      if Kept(messages, rows[n]) { places := places + [n]; }
    }
  }

  /** What the count counts: the described tasks without a user message. */
  lemma {:induction false} DueCountIs(messages: seq<Message>, rows: seq<Task>)
    ensures DueCount(messages, rows)
            == |set i | 0 <= i < |rows| && rows[i].content != ""
                        && !(exists j :: 0 <= j < |messages| && messages[j].task == Some(rows[i].id)
                                         && messages[j].role == "user")|
  {
    assert DueCount(messages, rows) == |DuePlaces(messages, rows)| by { DueCountIsPlaces(messages, rows); }
    assert DuePlaces(messages, rows)
        == set i | 0 <= i < |rows| && rows[i].content != ""
                   && !(exists j :: 0 <= j < |messages| && messages[j].task == Some(rows[i].id)
                                    && messages[j].role == "user");
  }

  function DuePlaces(messages: seq<Message>, rows: seq<Task>): set<nat> {
    set i | 0 <= i < |rows| && Due(messages, rows[i])
  }

  lemma {:induction false} DueCountIsPlaces(messages: seq<Message>, rows: seq<Task>)
    ensures DueCount(messages, rows) == |DuePlaces(messages, rows)|
  {
    hide Due;
    if rows == [] {
      assert DuePlaces(messages, rows) == {};
    } else {
      var n := |rows| - 1;
      DueCountIsPlaces(messages, rows[..n]);
      assert forall i :: 0 <= i < n ==> rows[..n][i] == rows[i];
      if Due(messages, rows[n]) {
        assert DuePlaces(messages, rows) == DuePlaces(messages, rows[..n]) + {n};
      } else {
        assert DuePlaces(messages, rows) == DuePlaces(messages, rows[..n]);
      }
    }
  }

  /** The table's constraints survive. */
  lemma {:induction false} RecoveryKeepsConstraints(messages: seq<Message>, rows: seq<Task>)
    requires Constrained(messages) && DistinctTasks(rows)
    ensures Constrained(messages + Added(messages, rows))
  {
    if rows == [] {
      assert messages + [] == messages;
    } else {
      var n := |rows| - 1;
      RecoveryKeepsConstraints(messages, rows[..n]);
      NextRowIsFree(messages, rows, n);
      var now := messages + Added(messages, rows[..n]);
      var m := Reconstructed(rows[n], SequenceOf(messages, rows, n));
      if Added(messages, rows) != Added(messages, rows[..n]) {
        InsertKeepsConstraints(now, m);
        assert messages + Added(messages, rows) == now + [m];
      }
    }
  }

  lemma InsertKeepsConstraints(messages: seq<Message>, m: Message)
    requires Constrained(messages) && !Conflicts(messages, m)
    ensures Constrained(messages + [m])
  {
  }

  /** A task has a user message afterwards exactly when it had one, or had a description and
      its message id was free. */
  lemma HasUserAfter(messages: seq<Message>, rows: seq<Task>, i: nat)
    requires i < |rows| && DistinctTasks(rows)
    ensures var t := rows[i];
            HasUser(messages + Added(messages, rows), t.id) <==>
            HasUser(messages, t.id) || (t.content != "" && !IdTaken(messages, RecoveredId(t.id)))
  {
    hide NextSequence, DueIn, SequenceOf, Added;
    var t, added := rows[i], Added(messages, rows);
    if HasUser(messages, t.id) {
      var k :| 0 <= k < |messages| && messages[k].task == Some(t.id) && messages[k].role == "user";
      assert (messages + added)[k] == messages[k];
    } else if t.content != "" && !IdTaken(messages, RecoveredId(t.id)) {
      var k := AddedFor(messages, rows, i);
      assert (messages + added)[|messages| + k] == added[k];
    } else {
      forall k | 0 <= k < |added| ensures added[k].task != Some(t.id) {
        var j := AddedAreRecovered(messages, rows, k);
      }
    }
  }

  /** The same in plain terms. */
  lemma RecoveredExactly(messages: seq<Message>, rows: seq<Task>, i: nat)
    requires i < |rows| && DistinctTasks(rows)
    ensures var t, now := rows[i], messages + Added(messages, rows);
            (exists k :: 0 <= k < |now| && now[k].task == Some(t.id) && now[k].role == "user") <==>
            || (exists k :: 0 <= k < |messages| && messages[k].task == Some(t.id) && messages[k].role == "user")
            || (t.content != "" &&
                !(exists k :: 0 <= k < |messages| && messages[k].id == "recovered-user:" + t.id))
  {
    hide Added;
    HasUserAfter(messages, rows, i);
    var now := messages + Added(messages, rows);
    assert HasUser(now, rows[i].id) <==>
      exists k :: 0 <= k < |now| && now[k].task == Some(rows[i].id) && now[k].role == "user";
  }

  /** So a described task can stay without a user message: here its message id already belongs
      to an assistant message, and the count of insertions still says one. */
  lemma TakenIdLosesMessage()
    ensures var messages := [Message(RecoveredId("t"), "s", None, 0, "assistant", "", "")];
            var rows := [Task("t", "s", "text", "")];
            && Constrained(messages) && !HasUser(messages + Added(messages, rows), "t")
            && DueCount(messages, rows) == 1
  {
    var messages := [Message(RecoveredId("t"), "s", None, 0, "assistant", "", "")];
    var rows := [Task("t", "s", "text", "")];
    assert messages[0].id == RecoveredId("t");
    assert rows[..0] == [];
    assert Added(messages, rows) == [];
    assert messages + [] == messages;
  }

  lemma {:induction false} AddedFor(messages: seq<Message>, rows: seq<Task>, i: nat) returns (k: nat)
    requires i < |rows| && Kept(messages, rows[i])
    ensures k < |Added(messages, rows)|
    ensures Added(messages, rows)[k] == Reconstructed(rows[i], SequenceOf(messages, rows, i))
  {
    var n := |rows| - 1;
    if i < n {
      assert rows[..n][i] == rows[i] && rows[..n][..i] == rows[..i];
      k := AddedFor(messages, rows[..n], i);
    } else {
      k := |Added(messages, rows[..n])|;
    }
  }

  /** Running again adds nothing. */
  lemma {:induction false} SecondRunAddsNothing(messages: seq<Message>, rows: seq<Task>, n: nat)
    requires DistinctTasks(rows) && n <= |rows|
    ensures Added(messages + Added(messages, rows), rows[..n]) == []
  {
    var now := messages + Added(messages, rows);
    if n > 0 {
      SecondRunAddsNothing(messages, rows, n - 1);
      assert rows[..n][..n - 1] == rows[..n - 1];
      var t := rows[n - 1];
      HasUserAfter(messages, rows, n - 1);
      if IdTaken(messages, RecoveredId(t.id)) {
        var k :| 0 <= k < |messages| && messages[k].id == RecoveredId(t.id);
        assert now[k] == messages[k];
      }
    }
  }

  /** The added messages of one session, in order. */
  function InSession(messages: seq<Message>, session: string): seq<Message> {
    if messages == [] then []
    else
      var n := |messages| - 1;
      InSession(messages[..n], session) + (if messages[n].session == session then [messages[n]] else [])
  }

  function LostIn(messages: seq<Message>, rows: seq<Task>, session: string): nat {
    if rows == [] then 0
    else
      var n := |rows| - 1;
      LostIn(messages, rows[..n], session) + (if Lost(messages, rows[n]) && rows[n].session == session then 1 else 0)
  }

  ghost predicate LostAmong(messages: seq<Message>, rows: seq<Task>, session: string) {
    exists i :: 0 <= i < |rows| && Lost(messages, rows[i]) && rows[i].session == session
  }

  /** In the session, a message is inserted after one that was ignored. */
  ghost predicate Skips(messages: seq<Message>, rows: seq<Task>, session: string) {
    exists i, j :: 0 <= i < j < |rows| && rows[i].session == session && rows[j].session == session
                   && Lost(messages, rows[i]) && Kept(messages, rows[j])
  }

  /** Numbered from `start` on without a gap. */
  predicate RunsOn(added: seq<Message>, start: int) {
    forall k | 0 <= k < |added| :: added[k].sequence == start + k
  }

  lemma LostAmongLast(messages: seq<Message>, rows: seq<Task>, session: string)
    requires rows != []
    ensures var n := |rows| - 1;
            LostAmong(messages, rows, session) <==>
            LostAmong(messages, rows[..n], session) || (Lost(messages, rows[n]) && rows[n].session == session)
  {
    hide Lost;
    var n := |rows| - 1;
    if LostAmong(messages, rows[..n], session) {
      var i :| 0 <= i < n && Lost(messages, rows[..n][i]) && rows[..n][i].session == session;
      assert rows[i] == rows[..n][i];
    }
    if LostAmong(messages, rows, session) {
      var i :| 0 <= i < |rows| && Lost(messages, rows[i]) && rows[i].session == session;
      if i < n { assert rows[..n][i] == rows[i]; }
    }
  }

  lemma SkipsShorter(messages: seq<Message>, rows: seq<Task>, n: nat, session: string)
    requires n < |rows|
    requires Skips(messages, rows[..n], session) ||
             (Kept(messages, rows[n]) && rows[n].session == session && LostAmong(messages, rows[..n], session))
    ensures Skips(messages, rows, session)
  {
    hide Lost, Kept;
    if Skips(messages, rows[..n], session) {
      var i, j :| 0 <= i < j < n && rows[..n][i].session == session && rows[..n][j].session == session
                  && Lost(messages, rows[..n][i]) && Kept(messages, rows[..n][j]);
      assert rows[i] == rows[..n][i] && rows[j] == rows[..n][j];
    } else {
      var i :| 0 <= i < n && Lost(messages, rows[..n][i]) && rows[..n][i].session == session;
      assert rows[i] == rows[..n][i];
    }
  }

  lemma SkipsLast(messages: seq<Message>, rows: seq<Task>, session: string)
    requires rows != []
    ensures var n := |rows| - 1;
            Skips(messages, rows, session) <==>
            Skips(messages, rows[..n], session) ||
            (Kept(messages, rows[n]) && rows[n].session == session && LostAmong(messages, rows[..n], session))
  {
    hide Lost, Kept;
    var n := |rows| - 1;
    if Skips(messages, rows, session) {
      var i, j :| 0 <= i < j < |rows| && rows[i].session == session && rows[j].session == session
                  && Lost(messages, rows[i]) && Kept(messages, rows[j]);
      assert rows[i] == rows[..n][i];
      if j < n { assert rows[j] == rows[..n][j]; }
    } else if Skips(messages, rows[..n], session) ||
              (Kept(messages, rows[n]) && rows[n].session == session && LostAmong(messages, rows[..n], session)) {
      SkipsShorter(messages, rows, n, session);
    }
  }

  lemma InSessionLast(messages: seq<Message>, m: Message, session: string)
    ensures InSession(messages + [m], session)
            == InSession(messages, session) + (if m.session == session then [m] else [])
  {
    assert (messages + [m])[..|messages|] == messages;
  }

  /** The last row's effect on the additions of a session. */
  lemma AddedInSession(messages: seq<Message>, rows: seq<Task>, session: string)
    requires rows != []
    ensures var n := |rows| - 1; var before := InSession(Added(messages, rows[..n]), session);
            var sequence := NextSequence(messages, session) + DueIn(messages, rows[..n], session);
            InSession(Added(messages, rows), session)
            == if Kept(messages, rows[n]) && rows[n].session == session then before + [Reconstructed(rows[n], sequence)]
               else before
  {
    hide NextSequence, DueIn, InSession, Due, IdTaken;
    var n := |rows| - 1;
    InSessionLast(Added(messages, rows[..n]), Reconstructed(rows[n], SequenceOf(messages, rows, n)), session);
  }

  /** Each session's due tasks are those inserted and those ignored. */
  lemma {:induction false} DueInSplits(messages: seq<Message>, rows: seq<Task>, session: string)
    ensures DueIn(messages, rows, session)
            == |InSession(Added(messages, rows), session)| + LostIn(messages, rows, session)
    ensures LostIn(messages, rows, session) > 0 <==> LostAmong(messages, rows, session)
  {
    hide Added, Due, InSession, IdTaken, NextSequence, LostAmong;
    if rows == [] {
      NothingAdded(messages);
      assert |InSession([], session)| == 0 by { NoneInSession(session); }
      assert !LostAmong(messages, [], session) by { NoneLost(messages, session); }
    } else {
      DueInSplits(messages, rows[..|rows| - 1], session);
      AddedInSession(messages, rows, session);
      LostAmongLast(messages, rows, session);
    }
  }

  lemma NoneInSession(session: string)
    ensures InSession([], session) == []
  {
  }

  lemma NoneLost(messages: seq<Message>, session: string)
    ensures !LostAmong(messages, [], session) && !Skips(messages, [], session)
  {
  }

  /** A session's additions are numbered on from its old maximum without a gap exactly when
      none of its messages is inserted after an ignored one. */
  lemma {:induction false} NumberedWithoutGap(messages: seq<Message>, rows: seq<Task>, session: string)
    ensures RunsOn(InSession(Added(messages, rows), session), NextSequence(messages, session))
            <==> !Skips(messages, rows, session)
  {
    hide Added, Due, InSession, IdTaken, NextSequence, LostAmong, Skips, Kept, DueIn;
    if rows == [] {
      NothingAdded(messages);
      NoneInSession(session);
      NoneLost(messages, session);
    } else {
      var n := |rows| - 1;
      NumberedWithoutGap(messages, rows[..n], session);
      DueInSplits(messages, rows[..n], session);
      AddedInSession(messages, rows, session);
      SkipsLast(messages, rows, session);
      var before := InSession(Added(messages, rows[..n]), session);
      var start := NextSequence(messages, session);
      RunsOnNext(before, Reconstructed(rows[n], start + DueIn(messages, rows[..n], session)), start);
    }
  }

  lemma RunsOnNext(added: seq<Message>, m: Message, start: int)
    ensures RunsOn(added + [m], start) <==> RunsOn(added, start) && m.sequence == start + |added|
  {
    var all := added + [m];
    if RunsOn(all, start) {
      assert all[|added|] == m;
      forall k | 0 <= k < |added| ensures added[k].sequence == start + k { assert all[k] == added[k]; }
    }
  }

  /** The count of insertions is never too small, and exact just when no message is ignored. */
  lemma {:induction false} CountIsExact(messages: seq<Message>, rows: seq<Task>)
    ensures |Added(messages, rows)| <= DueCount(messages, rows)
    ensures |Added(messages, rows)| == DueCount(messages, rows) <==>
            forall i :: 0 <= i < |rows| ==> !Lost(messages, rows[i])
  {
    hide Due, IdTaken, SequenceOf, Reconstructed;
    if rows != [] {
      var n := |rows| - 1;
      CountIsExact(messages, rows[..n]);
      assert forall i :: 0 <= i < n ==> rows[..n][i] == rows[i];
    }
  }

  /** So it can skip a number and overcount: of two tasks, the first one's message id belongs
      to an assistant message, and the second one's message is number 2 after number 0. */
  lemma TakenIdSkipsNumber()
    ensures var messages := [Message(RecoveredId("t"), "s", None, 0, "assistant", "", "")];
            var rows := [Task("t", "s", "text", ""), Task("u", "s", "more", "")];
            && Constrained(messages) && DistinctTasks(rows) && DueCount(messages, rows) == 2
            && NextSequence(messages, "s") == 1
            && Added(messages, rows) == [Message(RecoveredId("u"), "s", Some("u"), 2, "user", "more", "")]
  {
    var messages := [Message(RecoveredId("t"), "s", None, 0, "assistant", "", "")];
    var rows := [Task("t", "s", "text", ""), Task("u", "s", "more", "")];
    assert messages[0].id == RecoveredId("t");
    if RecoveredId("u") == RecoveredId("t") { PrefixInjective("u", "t"); }
    assert !IdTaken(messages, RecoveredId("u"));
    assert rows[..1] == [rows[0]] && rows[..1][..0] == [];
    assert messages[..0] == [];
    assert Due(messages, rows[0]) && Due(messages, rows[1]);
    assert DueIn(messages, rows[..1], "s") == 1;
    assert Added(messages, rows[..1]) == [];
  }

  class Destination {
    var messages: seq<Message>

    constructor (messages: seq<Message>)
      ensures this.messages == messages
    {
      this.messages := messages;
    }

    method InsertOrIgnore(m: Message)
      modifies this
      ensures messages == if Conflicts(old(messages), m) then old(messages) else old(messages) + [m]
    {
      if !Conflicts(messages, m) {
        messages := messages + [m];
      }
    }

    /** The next sequence number of each session that has messages. */
    method GroupSequences() returns (next: map<string, int>)
      ensures forall session :: (if session in next then next[session] else 0) == NextSequence(messages, session)
    {
      hide NextSequence;
      next := map[];
      for i := 0 to |messages|
        invariant forall session :: session in next <==> HasSession(messages[..i], session)
        invariant forall session :: session in next ==> next[session] == NextSequence(messages, session)
      {
        SessionNext(messages, i);
        next := next[messages[i].session := NextSequence(messages, messages[i].session)];
      }
      TakeAll(messages);
      forall session | session !in next ensures NextSequence(messages, session) == 0 {
        NoMessagesNoSequence(messages, session);
      }
    }

    /** `_rebuild_public_messages`; `rows` are the session tasks ordered by creation and id,
        and `inserted` counts attempts, ignored ones included. */
    method RebuildPublicMessages(rows: seq<Task>) returns (inserted: nat)
      requires DistinctTasks(rows)
      modifies this
      ensures messages == old(messages) + Added(old(messages), rows)
      ensures inserted == DueCount(old(messages), rows)
    {
      hide NextSequence, HasUser, Conflicts, IdTaken, Added, DueIn, DueCount, Reconstructed;
      ghost var before := messages;
      NothingAdded(before);
      assert rows[..0] == [] && before + [] == before;
      var next := GroupSequences();
      inserted := 0;
      for i := 0 to |rows|
        invariant messages == before + Added(before, rows[..i])
        invariant inserted == DueCount(before, rows[..i])
        invariant forall session :: (if session in next then next[session] else 0)
                    == NextSequence(before, session) + DueIn(before, rows[..i], session)
      {
        var t := rows[i];
        NextRowIsFree(before, rows, i);
        AddedNext(before, rows, i);
        if !HasUser(messages, t.id) && t.content != "" {
          var sequence := if t.session in next then next[t.session] else 0;
          next := next[t.session := sequence + 1];
          InsertOrIgnore(Reconstructed(t, sequence));
          inserted := inserted + 1;
        }
      }
      TakeAll(rows);
    }
  }

  lemma NothingAdded(messages: seq<Message>)
    ensures Added(messages, []) == [] && DueCount(messages, []) == 0
    ensures forall session :: DueIn(messages, [], session) == 0
  {
  }

  lemma AddedNext(messages: seq<Message>, rows: seq<Task>, i: nat)
    requires i < |rows|
    ensures Added(messages, rows[..i + 1])
            == if Kept(messages, rows[i])
               then Added(messages, rows[..i]) + [Reconstructed(rows[i], SequenceOf(messages, rows, i))]
               else Added(messages, rows[..i])
    ensures DueCount(messages, rows[..i + 1])
            == DueCount(messages, rows[..i]) + (if Due(messages, rows[i]) then 1 else 0)
    ensures forall session :: DueIn(messages, rows[..i + 1], session)
              == DueIn(messages, rows[..i], session)
                 + (if Due(messages, rows[i]) && rows[i].session == session then 1 else 0)
  {
    hide Due, IdTaken;
    assert rows[..i + 1][..i] == rows[..i];
  }

  lemma SessionNext(messages: seq<Message>, i: nat)
    requires i < |messages|
    ensures forall session :: HasSession(messages[..i + 1], session) <==>
              HasSession(messages[..i], session) || session == messages[i].session
  {
    TakeNext(messages, i);
    forall session | HasSession(messages[..i], session) ensures HasSession(messages[..i + 1], session) {
      var k :| 0 <= k < i && messages[..i][k].session == session;
      assert messages[..i + 1][k].session == session;
    }
    assert messages[..i + 1][i].session == messages[i].session;
  }

  lemma {:induction false} NoMessagesNoSequence(messages: seq<Message>, session: string)
    requires !HasSession(messages, session)
    ensures NextSequence(messages, session) == 0
  {
    if messages != [] {
      var n := |messages| - 1;
      forall k | 0 <= k < n ensures messages[..n][k].session != session {
        assert messages[..n][k] == messages[k];
      }
      NoMessagesNoSequence(messages[..n], session);
    }
  }
}
