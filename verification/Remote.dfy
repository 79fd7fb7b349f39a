/** scripts/publish_acceptance_remote.py, `push`, `call` and `persist`: intent before a write,
    observation on restart. */
module Remote {
  import opened Outcome

  datatype Effect = Committed | NotCommitted | Unknown

  datatype Response = Response(effect: Effect, item: Option<string>, error: Option<string>, reason: Option<string>)

  /** A service request: operation and arguments, request id and expected revision included. */
  datatype Request = Request(
    operation: string, requestId: string, item: string, revision: int, args: map<string, string>)

  /** One entry of the checkpoint's "steps". */
  datatype Record =
    | Intent(ref: string, oid: string)
    | Pushed(ref: string, oid: string)
    | Called(request: Request, result: Option<Response>, recovery: Option<Response>)

  type Steps = map<string, Record>

  datatype Fate = Fine | Ends(late: bool)

  datatype Error = NeedsInspection | NotConfirmed | Interrupted | WrongRecord

  /** A ref update issued to the remote, by the step it belongs to. */
  datatype Update = Update(step: string, ref: string, oid: string)

  /** What a push meets: the ref before and after, and what becomes of each write. None in an
      observation is an absent ref; a missing observation is a failed one. */
  datatype PushWorld = PushWorld(
    observed: Option<Option<string>>, intentSaved: Fate, updated: Fate,
    confirmed: Option<Option<string>>, resultSaved: Fate)

  datatype CallWorld = CallWorld(
    current: Option<(string, int)>, requestSaved: Fate, reply: Option<Response>, resultSaved: Fate,
    diagnostic: Option<(Response, string)>, recoverySaved: Fate)

  predicate Delivered(r: Response) {
    r.effect == Committed && r.item.Some? && r.error.None?
  }

  const REJECTED_COMMENT := "PUBLISH_PLATFORM_HTTP_400"

  /** A checkpoint that differs at most in the record of `step`, and loses none. */
  ghost predicate KeepsOthers(before: Steps, after: Steps, step: string) {
    && before.Keys <= after.Keys
    && forall other :: other in after && other != step ==> other in before && after[other] == before[other]
  }

  /** A recovery stands beside the receipt it recovers. */
  predicate Grounded(record: Record) {
    record.Called? && record.recovery.Some? ==> record.result.Some?
  }

  /** The answer a record stands for. */
  function Answer(record: Record): Option<Response> {
    if record.Called? then (if record.recovery.Some? then record.recovery else record.result) else None
  }

  /** The one receipt that a separately confirmed draft may recover. */
  predicate Rejected(step: string, record: Record) {
    && step == "comment-send" && Answer(record).Some? && Answer(record).value.effect == NotCommitted
    && Answer(record).value.reason == Some(REJECTED_COMMENT)
  }

  predicate RecoveryApplies(step: string, record: Record, world: CallWorld, acceptedItem: string) {
    && Rejected(step, record) && world.diagnostic.Some?
    && world.diagnostic.value.0.effect == Committed && world.diagnostic.value.1 == acceptedItem
  }

  /** A step that will never send a request again: answered, or recorded as a push. */
  predicate Closed(steps: Steps, step: string) {
    step in steps && (steps[step].Called? ==> steps[step].result.Some?)
  }

  ghost predicate StayClosed(before: Steps, after: Steps) {
    forall step :: Closed(before, step) ==> Closed(after, step)
  }

  predicate AnsweredWith(steps: Steps, step: string, item: string) {
    step in steps && Answer(steps[step]).Some? && Delivered(Answer(steps[step]).value)
    && Answer(steps[step]).value.item.value == item
  }

  /** All requests of a step are the same. */
  ghost predicate OneRequestEach(requests: seq<(string, Request)>) {
    forall i, j :: 0 <= i < j < |requests| && requests[i].0 == requests[j].0 ==> requests[i].1 == requests[j].1
  }

  lemma OneRequestMore(requests: seq<(string, Request)>, step: string, request: Request)
    requires OneRequestEach(requests) && forall q :: q in requests && q.0 == step ==> q.1 == request
    ensures OneRequestEach(requests + [(step, request)])
  {
  }

  ghost predicate DistinctSteps(updates: seq<Update>) {
    forall i, j :: 0 <= i < j < |updates| ==> updates[i].step != updates[j].step
  }

  class Driver {
    const acceptedItem: string
    var durable: Steps
    var saved: Steps
    var running: bool
    var updates: seq<Update>                // ref updates issued
    var requests: seq<(string, Request)>    // service requests issued, by step

    constructor (acceptedItem: string)
      ensures Valid() && durable == map[] && updates == [] && requests == [] && !running
      ensures this.acceptedItem == acceptedItem
    {
      this.acceptedItem := acceptedItem;
      durable, saved, running, updates, requests := map[], map[], false, [], [];
    }

    /** Every issued write is covered by a durable record of its step; a record of a push can
        have taken the place of a request's, but never the reverse. */
    ghost predicate Valid()
      reads this
    {
      && (running ==> saved == durable)
      && DistinctSteps(updates) && OneRequestEach(requests)
      && (forall step :: step in durable ==> Grounded(durable[step]))
      && (forall u :: u in updates ==> u.step in durable && !durable[u.step].Called?)
      && (forall q :: q in requests ==> q.0 in durable && (durable[q.0].Called? ==> durable[q.0].request == q.1))
    }

    method Start()
      requires Valid()
      modifies this`saved, this`running
      ensures Valid() && running && saved == durable
    {
      saved, running := durable, true;
    }

    method Persist(fate: Fate) returns (ok: bool)
      modifies this`durable, this`running
      ensures ok <==> fate == Fine
      ensures durable == if fate == Ends(false) then old(durable) else saved
      ensures running == (ok && old(running))
    {
      if fate != Ends(false) {
        durable := saved;
      }
      ok := fate == Fine;
      running := ok && running;
    }

    /** Write one step's record. */
    method Put(step: string, record: Record, fate: Fate) returns (ok: bool)
      requires Valid() && running
      requires Grounded(record)
      requires step in durable && record.Called? ==> durable[step].Called? && record.request == durable[step].request
      modifies this`saved, this`durable, this`running
      ensures Valid() && (ok <==> running)
      ensures ok <==> fate == Fine
      ensures (durable == old(durable) || durable == old(durable)[step := record])
              && (ok ==> durable == old(durable)[step := record])
    {
      saved := saved[step := record];
      ok := Persist(fate);
    }

    /** `push`: one ref, pushed at most once. */
    method Push(step: string, ref: string, oid: string, world: PushWorld) returns (r: Result<(), Error>)
      requires Valid() && running
      modifies this`saved, this`durable, this`running, this`updates
      ensures Valid() && (running <==> r.Ok?)
      ensures KeepsOthers(old(durable), durable, step)
      // At most one update, only of an absent ref, only of a step never intended before, and
      // never without its durable intent.
      ensures if step !in old(durable) && world.observed == Some(None) && world.intentSaved == Fine
                 && world.updated != Ends(false)
              then updates == old(updates) + [Update(step, ref, oid)] && step in durable && durable[step].oid == oid
              else updates == old(updates)
      // A ref already where it should be is only recorded; any other surprise stops the run.
      ensures world.observed == Some(Some(oid)) && world.resultSaved == Fine ==> r.Ok?
      ensures world.observed.Some? && world.observed != Some(Some(oid))
              && (step in old(durable) || world.observed != Some(None)) ==>
                r == Err(NeedsInspection) && durable == old(durable)
      // An update counts only when it succeeded and the ref is then where it should be; otherwise
      // its intent stays.
      ensures step !in old(durable) && world.observed == Some(None) && world.intentSaved == Fine ==>
                && (r.Ok? <==> world.updated == Fine && world.confirmed == Some(Some(oid)) && world.resultSaved == Fine)
                && (world.updated != Fine || world.confirmed != Some(Some(oid)) ==>
                      r == Err(NotConfirmed) && durable == old(durable)[step := Intent(ref, oid)])
      ensures durable == old(durable) || (step in durable && !durable[step].Called?)
      ensures r.Ok? <==> step in durable && durable[step] == Pushed(ref, oid) && running
      ensures r.Ok? ==> world.observed == Some(Some(oid)) || world.confirmed == Some(Some(oid))
    {
      if world.observed.None? {
        running := false;
        return Err(Interrupted);
      }
      var ok;
      if world.observed.value == Some(oid) {
        ok := Put(step, Pushed(ref, oid), world.resultSaved);
        return if ok then Ok(()) else Err(Interrupted);
      }
      if step in saved || world.observed.value.Some? {
        running := false;
        return Err(NeedsInspection);
      }
      ok := Put(step, Intent(ref, oid), world.intentSaved);
      if !ok {
        return Err(Interrupted);
      }
      if world.updated != Ends(false) {
        updates := updates + [Update(step, ref, oid)];
      }
      if world.updated != Fine || world.confirmed != Some(Some(oid)) {
        running := false;
        return Err(NotConfirmed);
      }
      ok := Put(step, Pushed(ref, oid), world.resultSaved);
      return if ok then Ok(()) else Err(Interrupted);
    }

    /** The answer to a step whose result is saved, with the separately confirmed comment draft. */
    method Saved(step: string, record: Record, world: CallWorld) returns (r: Result<string, Error>)
      requires Valid() && running && step in durable && durable[step] == record
      requires record.Called? && record.result.Some?
      modifies this`saved, this`durable, this`running
      ensures Valid() && (running <==> r.Ok?) && (r.Ok? ==> AnsweredWith(durable, step, r.value))
      ensures step in durable && durable[step].Called? && durable[step].request == record.request
              && durable[step].result == record.result
      ensures if RecoveryApplies(step, record, world, acceptedItem)
              then durable == old(durable) || durable[step].recovery == Some(world.diagnostic.value.0)
              else durable == old(durable)
      ensures RecoveryApplies(step, record, world, acceptedItem) && world.recoverySaved == Fine ==>
                && durable[step].recovery == Some(world.diagnostic.value.0)
                && (r.Ok? <==> Delivered(world.diagnostic.value.0))
      ensures !Rejected(step, record) ==> (r.Ok? <==> Delivered(Answer(record).value))
      // The receipt that can be recovered, and by what.
      ensures durable != old(durable) ==>
                && step == "comment-send" && record.result.Some? && world.diagnostic.Some?
                && (var answer := if record.recovery.Some? then record.recovery.value else record.result.value;
                    answer.effect == NotCommitted && answer.reason == Some("PUBLISH_PLATFORM_HTTP_400"))
                && world.diagnostic.value.0.effect == Committed && world.diagnostic.value.1 == acceptedItem
      ensures step == "comment-send" && world.diagnostic.Some? && world.recoverySaved == Fine
              && (var answer := if record.recovery.Some? then record.recovery.value else record.result.value;
                  answer.effect == NotCommitted && answer.reason == Some("PUBLISH_PLATFORM_HTTP_400"))
              && world.diagnostic.value.0.effect == Committed && world.diagnostic.value.1 == acceptedItem ==>
                durable == old(durable)[step := record.(recovery := Some(world.diagnostic.value.0))]
      // An answer is one that is committed, with an item and without an error.
      ensures r.Ok? ==>
                var answer := if durable[step].recovery.Some? then durable[step].recovery.value
                              else durable[step].result.value;
                answer.effect == Committed && answer.error.None? && answer.item == Some(r.value)
      ensures record.recovery.None? && record.result.value.effect == Committed && record.result.value.error.None?
              && record.result.value.item.Some?
              ==> r == Ok(record.result.value.item.value)
      ensures KeepsOthers(old(durable), durable, step)
    {
      var result := if record.recovery.Some? then record.recovery.value else record.result.value;
      if Rejected(step, record) {
        if world.diagnostic.None? {
          running := false;
          return Err(Interrupted);
        }
        var (confirmed, item) := world.diagnostic.value;
        if confirmed.effect == Committed && item == acceptedItem {
          result := confirmed;
          var ok := Put(step, record.(recovery := Some(confirmed)), world.recoverySaved);
          if !ok {
            return Err(Interrupted);
          }
        }
      }
      if !Delivered(result) {
        running := false;
        return Err(NeedsInspection);
      }
      return Ok(result.item.value);
    }

    /** `call`: a request that is repeated word for word until an answer to it is saved. */
    method Call(step: string, operation: string, args: map<string, string>, world: CallWorld)
      returns (r: Result<string, Error>)
      requires Valid() && running
      modifies this`saved, this`durable, this`running, this`requests
      ensures Valid() && (running <==> r.Ok?)
      // A saved answer ends the requests of its step.
      ensures step in old(durable) && old(durable)[step].Called? && old(durable)[step].result.Some? ==>
                && requests == old(requests)
                && step in durable && durable[step].Called? && durable[step].result == old(durable)[step].result
      // Without one, a request goes out as soon as its record is durable.
      ensures (if step in old(durable) then old(durable)[step].Called? && old(durable)[step].result.None?
               else world.current.Some? && world.requestSaved == Fine) ==> |requests| == |old(requests)| + 1
      // A request repeats the durable one, or is the one just made durable.
      ensures requests == old(requests) ||
              (&& step in durable && durable[step].Called?
               && requests == old(requests) + [(step, durable[step].request)]
               && (step in old(durable) ==>
                     old(durable)[step].Called? && durable[step].request == old(durable)[step].request))
      ensures step in durable && step in old(durable) && old(durable)[step].Called? ==>
                durable[step].Called? && durable[step].request == old(durable)[step].request
      // An answer is one that is committed, with an item and without an error.
      ensures r.Ok? ==>
                && step in durable && durable[step].Called? && durable[step].result.Some?
                && (var answer := if durable[step].recovery.Some? then durable[step].recovery.value
                                  else durable[step].result.value;
                    answer.effect == Committed && answer.error.None? && answer.item == Some(r.value))
      ensures |requests| > |old(requests)| && world.reply.Some? && world.resultSaved == Fine ==>
                (r.Ok? <==> && world.reply.value.effect == Committed && world.reply.value.error.None?
                            && world.reply.value.item.Some?)
      // A push's record is left as it is.
      ensures step in old(durable) && !old(durable)[step].Called? ==>
                durable == old(durable) && requests == old(requests) && r == Err(WrongRecord)
      ensures KeepsOthers(old(durable), durable, step)
      ensures step !in old(durable) && step in durable ==>
                && world.current.Some? && durable[step].Called?
                && durable[step].request
                   == Request(operation, "acceptance-" + step, world.current.value.0, world.current.value.1, args)
      ensures r.Ok? ==> AnsweredWith(durable, step, r.value)
      ensures |requests| > |old(requests)| && world.reply.Some? && world.resultSaved == Fine ==>
                durable[step].result == world.reply
                && r == (if Delivered(world.reply.value) then Ok(world.reply.value.item.value)
                         else Err(NeedsInspection))
    {
      if step in saved && saved[step].Called? && saved[step].result.Some? {
        r := Saved(step, saved[step], world);
        return;
      }
      if step !in saved {
        if world.current.None? {
          running := false;
          return Err(Interrupted);
        }
        var (item, revision) := world.current.value;
        var request := Request(operation, "acceptance-" + step, item, revision, args);
        var ok := Put(step, Called(request, None, None), world.requestSaved);
        if !ok {
          return Err(Interrupted);
        }
      } else if !saved[step].Called? {
        running := false;
        return Err(WrongRecord);
      }
      var record := saved[step];
      OneRequestMore(requests, step, record.request);
      requests := requests + [(step, record.request)];
      if world.reply.None? {
        running := false;
        return Err(Interrupted);
      }
      var result := world.reply.value;
      var ok := Put(step, record.(result := Some(result)), world.resultSaved);
      if !ok {
        return Err(Interrupted);
      }
      if !Delivered(result) {
        running := false;
        return Err(NeedsInspection);
      }
      return Ok(result.item.value);
    }

    /** Any number of runs over pushes and calls, each ending at its first exception or cut short.
        They can start from any checkpoint, so what holds of them holds from any point on. */
    method Campaign(runs: seq<seq<Act>>)
      requires Valid()
      modifies this`saved, this`durable, this`running, this`updates, this`requests
      ensures Valid() && DistinctSteps(updates) && OneRequestEach(requests)
      ensures old(updates) <= updates && old(requests) <= requests
      // A step whose result is saved sends nothing for ever after.
      ensures StayClosed(old(durable), durable)
      ensures forall n :: |old(requests)| <= n < |requests| ==> !Closed(old(durable), requests[n].0)
    {
      for i := 0 to |runs|
        invariant Valid() && old(updates) <= updates && old(requests) <= requests
        invariant StayClosed(old(durable), durable)
        invariant forall n :: |old(requests)| <= n < |requests| ==> !Closed(old(durable), requests[n].0)
      {
        Start();
        var j := 0;
        while j < |runs[i]| && running
          invariant Valid() && 0 <= j <= |runs[i]|
          invariant old(updates) <= updates && old(requests) <= requests
          invariant StayClosed(old(durable), durable)
          invariant forall n :: |old(requests)| <= n < |requests| ==> !Closed(old(durable), requests[n].0)
        {
          match runs[i][j] {
            case Push(step, ref, oid, world) => var r := Push(step, ref, oid, world);
            case Call(step, operation, args, world) => var r := Call(step, operation, args, world);
          }
          j := j + 1;
        }
        running := false;
      }
    }
  }

  datatype Act =
    | Push(step: string, ref: string, oid: string, pushWorld: PushWorld)
    | Call(step: string, operation: string, args: map<string, string>, callWorld: CallWorld)
}
