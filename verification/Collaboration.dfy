/** scripts/publish_acceptance_collaboration.py, `call` and `persist`: attempts with a durable
    intent, retried only after a known non-commit. */
module Collaboration {
  import opened Outcome

  datatype Effect = Committed | NotCommitted | Unknown

  datatype Response = Response(effect: Effect, item: Option<string>, error: Option<string>)

  /** One attempt of a step; its number is part of the request id. */
  datatype Attempt = Attempt(number: nat, revision: int, result: Option<Response>)

  type Steps = map<string, seq<Attempt>>

  /** What becomes of a write of the checkpoint file, or of a request: it succeeds, or the run
      ends with or without it having taken effect. */
  datatype Fate = Fine | Ends(late: bool)

  datatype Reply = Responded(response: Response, tookEffect: bool) | Lost(tookEffect: bool)

  /** What a call meets outside this program. */
  datatype World = World(revision: Option<int>, intentSaved: Fate, reply: Reply, resultSaved: Fate)

  /** A reported non-commit is true. */
  predicate Truthful(reply: Reply) {
    reply.Responded? && reply.response.effect == NotCommitted ==> !reply.tookEffect
  }

  const RETRYABLE: set<string> :=
    {"PUBLISH_REVISION_CONFLICT", "PUBLISH_DISTRIBUTION_PENDING", "PUBLISH_OPERATION_PENDING"}

  datatype CallError = RequiresObservation | RequiresInspection | Interrupted

  predicate Delivered(r: Response) { r.effect == Committed && r.item.Some? }

  predicate MayRetry(r: Response) {
    r.effect == NotCommitted && r.error.Some? && r.error.value in RETRYABLE
  }

  function Attempts(steps: Steps, step: string): seq<Attempt> {
    if step in steps then steps[step] else []
  }

  /** A new attempt is due: none was made, or the last is known not to have committed. */
  predicate Due(attempts: seq<Attempt>) {
    |attempts| == 0 || (attempts[|attempts| - 1].result.Some? && MayRetry(attempts[|attempts| - 1].result.value))
  }

  /** Attempts are numbered from one, and each but the last is known not to have committed. */
  predicate Orderly(attempts: seq<Attempt>) {
    forall i | 0 <= i < |attempts| ::
      && attempts[i].number == i + 1
      && (i < |attempts| - 1 ==> attempts[i].result.Some? && attempts[i].result.value.effect == NotCommitted)
  }

  /** The checkpoint accounts for a request the service has received. */
  predicate Accounted(durable: Steps, request: (string, nat)) {
    0 < request.1 <= |Attempts(durable, request.0)|
  }

  /** The checkpoint does not deny a request that took effect. */
  predicate NotDenied(durable: Steps, request: (string, nat)) {
    && Accounted(durable, request)
    && var attempt := Attempts(durable, request.0)[request.1 - 1];
       attempt.result.Some? ==> attempt.result.value.effect != NotCommitted
  }

  ghost predicate NoRepeats<T>(xs: seq<T>) {
    forall i, j :: 0 <= i < j < |xs| ==> xs[i] != xs[j]
  }

  class Driver {
    var durable: Steps                  // the checkpoint file
    var saved: Steps                    // its image in the running process
    var running: bool
    var issued: seq<(string, nat)>      // requests the service has received, by step and attempt
    var effects: seq<(string, nat)>     // those that took effect

    constructor ()
      ensures Valid() && durable == map[] && issued == effects == [] && !running
    {
      durable, saved, running, issued, effects := map[], map[], false, [], [];
    }

    ghost predicate Valid()
      reads this
    {
      && (running ==> saved == durable)
      && (forall step :: step in durable ==> Orderly(durable[step]))
      && NoRepeats(issued) && NoRepeats(effects)
      && (forall request :: request in issued ==> Accounted(durable, request))
      && (forall request :: request in effects ==> request in issued && NotDenied(durable, request))
    }

    /** No step has taken effect twice. */
    ghost predicate AtMostOnce()
      reads this
    {
      forall i, j :: 0 <= i < j < |effects| ==> effects[i].0 != effects[j].0
    }

    /** Only the last attempt of a step can have taken effect, so no step has twice. */
    lemma ValidIsAtMostOnce()
      requires Valid()
      ensures AtMostOnce()
    {
      forall i, j | 0 <= i < j < |effects| ensures effects[i].0 != effects[j].0 {
        assert effects[i] in effects && effects[j] in effects;
        var attempts := Attempts(durable, effects[i].0);
        assert effects[i].0 in durable ==> Orderly(attempts);
      }
    }

    /** A new process reads the checkpoint. */
    method Start()
      requires Valid()
      modifies this`saved, this`running
      ensures Valid() && running && saved == durable
    {
      saved, running := durable, true;
    }

    /** An exception ends the run. */
    method Raise()
      requires Valid()
      modifies this`running
      ensures Valid() && !running
    {
      running := false;
    }

    /** `persist`: replace the checkpoint by the image. */
    method Persist(fate: Fate) returns (ok: bool)
      modifies this`durable, this`running
      ensures ok <==> fate == Fine
      ensures durable == if fate == Ends(false) then old(durable) else saved
      ensures running == (ok && old(running))
    {
      if fate != Ends(false) {
        durable := saved;
      }
      ok := fate == Fine;
      running := ok && running;
    }

    /** Append an attempt and make it durable before anything is sent. */
    method Intend(step: string, revision: int, fate: Fate) returns (ok: bool)
      requires Valid() && running && Due(Attempts(durable, step))
      modifies this`saved, this`durable, this`running
      ensures Valid() && (ok <==> running)
      ensures var before := Attempts(old(durable), step);
              var intended := old(durable)[step := before + [Attempt(|before| + 1, revision, None)]];
              && (durable == old(durable) || durable == intended) && (ok ==> durable == intended)
              && (step, |before| + 1) !in issued
      ensures ok <==> fate == Fine
    {
      var attempts := Attempts(saved, step);
      ghost var before := durable;
      assert !Accounted(durable, (step, |attempts| + 1));
      saved := saved[step := attempts + [Attempt(|attempts| + 1, revision, None)]];
      ok := Persist(fate);
      forall request | request in issued ensures Accounted(durable, request) {
        assert Accounted(before, request);
      }
      forall request | request in effects ensures NotDenied(durable, request) {
        assert NotDenied(before, request);
      }
    }

    /** The service receives the request of a step's last attempt. */
    method Invoke(step: string, reply: Reply)
      requires Valid() && running
      requires var attempts := Attempts(durable, step);
               |attempts| > 0 && attempts[|attempts| - 1].result.None? && (step, |attempts|) !in issued
      modifies this`issued, this`effects
      ensures Valid()
      ensures var request := (step, |Attempts(durable, step)|);
              && issued == old(issued) + [request]
              && effects == (if reply.tookEffect then old(effects) + [request] else old(effects))
              && (request in effects <==> reply.tookEffect)
    {
      ghost var attempts := Attempts(durable, step);
      var number := |Attempts(saved, step)|;
      issued := issued + [(step, number)];
      if reply.tookEffect {
        effects := effects + [(step, number)];
      }
    }

    /** Record what the service answered to a step's last attempt. */
    method Observe(step: string, response: Response, fate: Fate) returns (ok: bool)
      requires Valid() && running
      requires var attempts := Attempts(durable, step);
               && |attempts| > 0 && attempts[|attempts| - 1].result.None?
               && (response.effect == NotCommitted ==> (step, |attempts|) !in effects)
      modifies this`saved, this`durable, this`running
      ensures Valid() && (ok <==> running)
      ensures var attempts := Attempts(old(durable), step);
              var n := |attempts| - 1;
              var observed := old(durable)[step := attempts[n := attempts[n].(result := Some(response))]];
              (durable == old(durable) || durable == observed) && (ok ==> durable == observed)
      ensures ok <==> fate == Fine
    {
      var attempts := Attempts(saved, step);
      var n := |attempts| - 1;
      ghost var before := durable;
      saved := saved[step := attempts[n := attempts[n].(result := Some(response))]];
      ok := Persist(fate);
      forall request | request in issued ensures Accounted(durable, request) {
        assert Accounted(before, request);
      }
      forall request | request in effects ensures NotDenied(durable, request) {
        assert NotDenied(before, request);
      }
    }

    /** The checkpoint changed at most by one more attempt of `step`. */
    static ghost predicate Extends(before: Steps, after: Steps, step: string) {
      && (forall other :: other != step ==> Attempts(after, other) == Attempts(before, other))
      && (Attempts(after, step) == Attempts(before, step)
          || (&& |Attempts(after, step)| == |Attempts(before, step)| + 1
              && Attempts(after, step)[..|Attempts(before, step)|] == Attempts(before, step)))
    }

    /** The steps that were not due keep their attempts. */
    static ghost predicate Settled(before: Steps, after: Steps) {
      forall step :: !Due(Attempts(before, step)) ==> Attempts(after, step) == Attempts(before, step)
    }

    /** The last attempt of `step` is recorded as delivered, with this item. */
    static predicate DeliveredAs(steps: Steps, step: string, item: string) {
      var attempts := Attempts(steps, step);
      && |attempts| > 0 && attempts[|attempts| - 1].result.Some?
      && Delivered(attempts[|attempts| - 1].result.value)
      && attempts[|attempts| - 1].result.value.item.value == item
    }

    /** Intent, request, answer: the three steps of a new attempt. */
    method Request(step: string, revision: int, world: World) returns (r: Result<Response, CallError>)
      requires Valid() && running && Truthful(world.reply) && Due(Attempts(durable, step))
      modifies this
      ensures Valid() && (running <==> r.Ok?) && Extends(old(durable), durable, step)
      ensures var request := (step, |Attempts(old(durable), step)| + 1);
              if world.intentSaved == Fine then
                && issued == old(issued) + [request]
                && effects == (if world.reply.tookEffect then old(effects) + [request] else old(effects))
                && |Attempts(durable, step)| == request.1
              else issued == old(issued) && effects == old(effects)
      ensures r.Ok? <==> world.intentSaved == Fine && world.reply.Responded? && world.resultSaved == Fine
      ensures r.Ok? ==> r.value == world.reply.response
      ensures r.Ok? && Delivered(r.value) ==> DeliveredAs(durable, step, r.value.item.value)
    {
      hide Driver.Valid, MayRetry;
      var ok := Intend(step, revision, world.intentSaved);
      if !ok {
        return Err(Interrupted);
      }
      Invoke(step, world.reply);
      if world.reply.Lost? {
        Raise();
        return Err(Interrupted);
      }
      ok := Observe(step, world.reply.response, world.resultSaved);
      return if ok then Ok(world.reply.response) else Err(Interrupted);
    }

    /** `call` of one step in a running process. */
    method Call(step: string, world: World) returns (r: Result<string, CallError>)
      requires Valid() && running && Truthful(world.reply)
      modifies this
      ensures Valid() && AtMostOnce() && (running <==> r.Ok?) && Extends(old(durable), durable, step)
      // Nothing is sent unless no attempt was made, or the last is recorded as not committed with
      // an error that may be retried.
      ensures issued != old(issued) ==>
                step !in old(durable) || old(durable)[step] == [] ||
                var last := old(durable)[step][|old(durable)[step]| - 1].result;
                && last.Some? && last.value.effect == NotCommitted && last.value.error.Some?
                && (last.value.error.value == "PUBLISH_REVISION_CONFLICT"
                    || last.value.error.value == "PUBLISH_DISTRIBUTION_PENDING"
                    || last.value.error.value == "PUBLISH_OPERATION_PENDING")
      // And such a step is retried, as a new one is tried, once its intent is durable.
      ensures step in old(durable) && |old(durable)[step]| > 0 && world.revision.Some? && world.intentSaved == Fine ==>
                var last := old(durable)[step][|old(durable)[step]| - 1].result;
                last.Some? && last.value.effect == NotCommitted && last.value.error.Some?
                && last.value.error.value in {"PUBLISH_REVISION_CONFLICT", "PUBLISH_DISTRIBUTION_PENDING",
                                              "PUBLISH_OPERATION_PENDING"} ==>
                  |issued| == |old(issued)| + 1
      ensures step !in old(durable) && world.revision.Some? && world.intentSaved == Fine ==>
                |issued| == |old(issued)| + 1
      // A step whose last attempt is recorded as committed with an item is answered with that item.
      ensures step in old(durable) && |old(durable)[step]| > 0 ==>
                var last := old(durable)[step][|old(durable)[step]| - 1].result;
                last.Some? && last.value.effect == Committed && last.value.item.Some? ==>
                  r == Ok(last.value.item.value) && issued == old(issued)
      // A fresh answer is taken only if it is committed, with an item and without an error.
      ensures r.Ok? && issued != old(issued) ==>
                && world.reply.Responded? && world.reply.response.effect == Committed
                && world.reply.response.error.None? && world.reply.response.item == Some(r.value)
      // A delivered step is answered from the checkpoint, without a request.
      ensures forall item :: DeliveredAs(old(durable), step, item) ==>
                r == Ok(item) && durable == old(durable) && issued == old(issued)
      ensures !Due(Attempts(old(durable), step)) ==> durable == old(durable)
      // A request is made exactly when one is due, once, and after its intent is durable.
      ensures var request := (step, |Attempts(old(durable), step)| + 1);
              if Due(Attempts(old(durable), step)) && world.revision.Some? && world.intentSaved == Fine then
                && issued == old(issued) + [request]
                && effects == (if world.reply.tookEffect then old(effects) + [request] else old(effects))
                && |Attempts(durable, step)| == request.1
              else issued == old(issued) && effects == old(effects)
      ensures r.Ok? ==> DeliveredAs(durable, step, r.value)
      ensures Due(Attempts(old(durable), step)) && world.revision.Some? && world.intentSaved == Fine
              && world.reply.Responded? && world.resultSaved == Fine
              && Delivered(world.reply.response) && world.reply.response.error.None?
              ==> r == Ok(world.reply.response.item.value)
    {
      var attempts := Attempts(saved, step);
      ValidIsAtMostOnce();
      if |attempts| > 0 {
        var previous := attempts[|attempts| - 1].result;
        if previous.Some? && Delivered(previous.value) {
          return Ok(previous.value.item.value);
        }
        if previous.None? || !MayRetry(previous.value) {
          running := false;
          return Err(RequiresObservation);
        }
      }
      if world.revision.None? { // the current item could not be read
        running := false;
        return Err(Interrupted);
      }
      var answer := Request(step, world.revision.value, world);
      ValidIsAtMostOnce();
      if answer.Err? {
        return Err(answer.error);
      }
      if answer.value.error.Some? || !Delivered(answer.value) {
        running := false;
        return Err(RequiresInspection);
      }
      return Ok(answer.value.item.value);
    }

    /** Any number of runs over the steps, each ending at its first exception or cut short. They
        can start from any checkpoint, so what holds of them holds from any point on. */
    method Campaign(runs: seq<seq<(string, World)>>)
      requires Valid()
      requires forall i, j :: 0 <= i < |runs| && 0 <= j < |runs[i]| ==> Truthful(runs[i][j].1.reply)
      modifies this
      ensures Valid() && AtMostOnce()
      // A step that is delivered, or whose last attempt needs inspection, is left alone for ever after.
      ensures old(issued) <= issued && Settled(old(durable), durable)
      ensures forall n :: |old(issued)| <= n < |issued| ==> Due(Attempts(old(durable), issued[n].0))
    {
      for i := 0 to |runs|
        invariant Valid() && old(issued) <= issued && Settled(old(durable), durable)
        invariant forall n :: |old(issued)| <= n < |issued| ==> Due(Attempts(old(durable), issued[n].0))
      {
        Start();
        var j := 0;
        while j < |runs[i]| && running
          invariant Valid() && 0 <= j <= |runs[i]| && old(issued) <= issued && Settled(old(durable), durable)
          invariant forall n :: |old(issued)| <= n < |issued| ==> Due(Attempts(old(durable), issued[n].0))
        {
          var r := Call(runs[i][j].0, runs[i][j].1);
          j := j + 1;
        }
        running := false;
      }
      ValidIsAtMostOnce();
    }
  }
}
