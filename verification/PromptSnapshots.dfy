/** scripts/audit_prompt_surface.py, `snapshot`: decoding chains of prefix deltas, against the
    encoder of backend/core/loop/trace.py. */
module PromptSnapshots {
  import opened Outcome

  type Ref = string

  datatype Prompt = Prompt(messages: seq<string>, tools: seq<string>)

  /** A stored detail: a whole prompt, or what changed since the detail `base`. */
  datatype Detail =
    | Full(prompt: Prompt)
    | Delta(base: Ref, common: int, appended: seq<string>, toolsReused: bool, tools: seq<string>)

  datatype DecodeError = CyclicOrTooDeep | Missing

  const MAX_DEPTH := 128

  /** Python's `xs[:k]`. */
  function Slice(xs: seq<string>, k: int): seq<string> {
    if k >= |xs| then xs
    else if k >= 0 then xs[..k]
    else if |xs| + k >= 0 then xs[..|xs| + k]
    else []
  }

  /** A delta applied to its decoded base. */
  function Apply(base: Prompt, d: Detail): Prompt
    requires d.Delta?
  {
    Prompt(Slice(base.messages, d.common) + d.appended, if d.toolsReused then base.tools else d.tools)
  }

  /** `snapshot`. */
  function Snapshot(store: map<Ref, Detail>, ref: Ref, visited: set<Ref>): Result<Prompt, DecodeError>
    decreases MAX_DEPTH - |visited|
  {
    if ref in visited || |visited| >= MAX_DEPTH then Err(CyclicOrTooDeep)
    else if ref !in store then Err(Missing)
    else
      match store[ref]
      case Full(prompt) => Ok(prompt)
      case Delta(base, _, _, _, _) =>
        var decoded := Snapshot(store, base, visited + {ref});
        if decoded.Err? then decoded else Ok(Apply(decoded.value, store[ref]))
  }

  function Decode(store: map<Ref, Detail>, ref: Ref): Result<Prompt, DecodeError> {
    Snapshot(store, ref, {})
  }

  // ----- which chains decode -----

  datatype End = AtFull | AtNothing

  /** The base links from `ref` end after exactly `n` deltas, at a full detail or at nothing. */
  ghost predicate Ends(store: map<Ref, Detail>, ref: Ref, n: nat, end: End)
    decreases n
  {
    if n == 0 then (if end == AtFull then ref in store && store[ref].Full? else ref !in store)
    else ref in store && store[ref].Delta? && Ends(store, store[ref].base, n - 1, end)
  }

  /** `from` leads to `ref` by `k` base links. */
  ghost predicate Leads(store: map<Ref, Detail>, from: Ref, ref: Ref, k: nat)
    decreases k
  {
    if k == 0 then from == ref
    else from in store && store[from].Delta? && Leads(store, store[from].base, ref, k - 1)
  }

  lemma {:induction false} EndIsUnique(store: map<Ref, Detail>, ref: Ref, n: nat, e: End, m: nat, f: End)
    requires Ends(store, ref, n, e) && Ends(store, ref, m, f)
    ensures n == m && e == f
    decreases n
  {
    if n > 0 && m > 0 {
      EndIsUnique(store, store[ref].base, n - 1, e, m - 1, f);
    }
  }

  lemma {:induction false} LeadsExtendsEnd(store: map<Ref, Detail>, from: Ref, ref: Ref, k: nat, n: nat, e: End)
    requires Leads(store, from, ref, k) && Ends(store, ref, n, e)
    ensures Ends(store, from, n + k, e)
    decreases k
  {
    if k > 0 {
      LeadsExtendsEnd(store, store[from].base, ref, k - 1, n, e);
    }
  }

  lemma {:induction false} LeadsNext(store: map<Ref, Detail>, from: Ref, ref: Ref, k: nat)
    requires Leads(store, from, ref, k) && ref in store && store[ref].Delta?
    ensures Leads(store, from, store[ref].base, k + 1)
    decreases k
  {
    if k > 0 {
      LeadsNext(store, store[from].base, ref, k - 1);
    }
  }

  ghost predicate LedHere(store: map<Ref, Detail>, v: Ref, ref: Ref) {
    exists k: nat :: k > 0 && Leads(store, v, ref, k)
  }

  /** The end of a chain that still fits below the depth bound. */
  ghost predicate EndsWithin(store: map<Ref, Detail>, ref: Ref, depth: nat, e: End) {
    exists n: nat :: n + depth < 128 && Ends(store, ref, n, e)
  }

  /** A visited reference on the way means a cycle, and a cycle never ends. */
  lemma VisitedMeansEndless(store: map<Ref, Detail>, ref: Ref, n: nat, e: End)
    requires LedHere(store, ref, ref)
    ensures !Ends(store, ref, n, e)
  {
    if Ends(store, ref, n, e) {
      var k: nat :| k > 0 && Leads(store, ref, ref, k);
      LeadsExtendsEnd(store, ref, ref, k, n, e);
      EndIsUnique(store, ref, n, e, n + k, e);
    }
  }

  lemma {:induction false} SnapshotByChain(store: map<Ref, Detail>, ref: Ref, visited: set<Ref>)
    requires forall v :: v in visited ==> LedHere(store, v, ref)
    ensures Snapshot(store, ref, visited).Ok? <==> EndsWithin(store, ref, |visited|, AtFull)
    ensures Snapshot(store, ref, visited) == Err(Missing) <==> EndsWithin(store, ref, |visited|, AtNothing)
    decreases MAX_DEPTH - |visited|
  {
    if ref in visited {
      forall n: nat, e ensures !Ends(store, ref, n, e) { VisitedMeansEndless(store, ref, n, e); }
    } else if |visited| >= MAX_DEPTH {
    } else if ref in store && store[ref].Delta? {
      var base := store[ref].base;
      forall v | v in visited + {ref} ensures LedHere(store, v, base) {
        if v == ref {
          assert Leads(store, ref, ref, 0);
          LeadsNext(store, ref, ref, 0);
        } else {
          var k: nat :| k > 0 && Leads(store, v, ref, k);
          LeadsNext(store, v, ref, k);
        }
      }
      SnapshotByChain(store, base, visited + {ref});
      OneLonger(store, ref, |visited|, AtFull);
      OneLonger(store, ref, |visited|, AtNothing);
    } else {
      OnlyHere(store, ref, |visited|, AtFull);
      OnlyHere(store, ref, |visited|, AtNothing);
    }
  }

  lemma OneLonger(store: map<Ref, Detail>, ref: Ref, depth: nat, e: End)
    requires ref in store && store[ref].Delta?
    ensures EndsWithin(store, ref, depth, e) <==> EndsWithin(store, store[ref].base, depth + 1, e)
  {
    if EndsWithin(store, ref, depth, e) {
      var n: nat :| n + depth < MAX_DEPTH && Ends(store, ref, n, e);
      assert n > 0 && Ends(store, store[ref].base, n - 1, e);
    }
    if EndsWithin(store, store[ref].base, depth + 1, e) {
      var n: nat :| n + depth + 1 < MAX_DEPTH && Ends(store, store[ref].base, n, e);
      assert Ends(store, ref, n + 1, e);
    }
  }

  lemma OnlyHere(store: map<Ref, Detail>, ref: Ref, depth: nat, e: End)
    requires depth < MAX_DEPTH && !(ref in store && store[ref].Delta?)
    ensures EndsWithin(store, ref, depth, e) <==> Ends(store, ref, 0, e)
  {
    if EndsWithin(store, ref, depth, e) {
      var n: nat :| n + depth < MAX_DEPTH && Ends(store, ref, n, e);
      assert n == 0;
    }
    if Ends(store, ref, 0, e) {
      assert 0 + depth < MAX_DEPTH;
    }
  }

  /** A reference decodes exactly when its chain of at most 128 details ends at a full one; a
      dangling chain of that length is missing, and every other, cyclic or longer, is refused. */
  lemma DecodesExactly(store: map<Ref, Detail>, ref: Ref)
    ensures Decode(store, ref).Ok? <==> EndsWithin(store, ref, 0, AtFull)
    ensures Decode(store, ref) == Err(Missing) <==> EndsWithin(store, ref, 0, AtNothing)
  {
    SnapshotByChain(store, ref, {});
  }

  // ----- what they decode to -----

  /** Every detail is right about the prompt it stands for, given the prompt of its base. */
  ghost predicate Encodes(store: map<Ref, Detail>, originals: map<Ref, Prompt>) {
    forall ref :: ref in store ==>
      && ref in originals
      && match store[ref]
         case Full(prompt) => prompt == originals[ref]
         case Delta(base, _, _, _, _) => base in originals ==> Apply(originals[base], store[ref]) == originals[ref]
  }

  /** Decoding gives back the prompt that was encoded. */
  lemma {:induction false} DecodesToOriginal(store: map<Ref, Detail>, originals: map<Ref, Prompt>, ref: Ref,
                                             visited: set<Ref>)
    requires Encodes(store, originals) && Snapshot(store, ref, visited).Ok?
    ensures ref in originals && Snapshot(store, ref, visited) == Ok(originals[ref])
    decreases MAX_DEPTH - |visited|
  {
    if store[ref].Delta? {
      DecodesToOriginal(store, originals, store[ref].base, visited + {ref});
    }
  }

  /** What a delta decodes to: the first messages of its base, its own after them, and the tools
      of the one or the other. A negative number of common messages leaves out the last ones, as
      in a Python slice. */
  lemma DeltaDecodesTo(store: map<Ref, Detail>, ref: Ref, visited: set<Ref>)
    requires Snapshot(store, ref, visited).Ok? && store[ref].Delta?
    ensures var d := store[ref];
            var base := Snapshot(store, d.base, visited + {ref});
            var n := |Snapshot(store, ref, visited).value.messages| - |d.appended|;
            && base.Ok? && 0 <= n <= |base.value.messages|
            && (0 <= d.common <= |base.value.messages| ==> n == d.common)
            && (d.common > |base.value.messages| ==> n == |base.value.messages|)
            && (d.common < 0 ==>
                  n == if |base.value.messages| + d.common < 0 then 0 else |base.value.messages| + d.common)
            && Snapshot(store, ref, visited).value.messages == base.value.messages[..n] + d.appended
            && Snapshot(store, ref, visited).value.tools == if d.toolsReused then base.value.tools else d.tools
  {
  }

  // ----- the encoder -----

  /** The number of leading messages that two requests share. */
  function CommonPrefix(a: seq<string>, b: seq<string>): (n: nat)
    ensures n <= |a| && n <= |b| && a[..n] == b[..n]
    ensures n < |a| && n < |b| ==> a[n] != b[n]
  {
    if a == [] || b == [] || a[0] != b[0] then 0
    else
      assert forall n :: 0 <= n <= |a| - 1 && n <= |b| - 1 && a[1..][..n] == b[1..][..n] ==>
               a[..n + 1] == b[..n + 1] by {
        forall n | 0 <= n <= |a| - 1 && n <= |b| - 1 && a[1..][..n] == b[1..][..n] ensures a[..n + 1] == b[..n + 1] {
          assert a[..n + 1] == [a[0]] + a[1..][..n] && b[..n + 1] == [b[0]] + b[1..][..n];
        }
      }
      1 + CommonPrefix(a[1..], b[1..])
  }

  /** `_provider_request_delta`, against a persisted predecessor. */
  function EncodeDelta(previous: Prompt, previousRef: Ref, prompt: Prompt): Detail {
    var common := CommonPrefix(previous.messages, prompt.messages);
    Delta(previousRef, common, prompt.messages[common..], previous.tools == prompt.tools,
          if previous.tools == prompt.tools then [] else prompt.tools)
  }

  /** The details of one process's persisted requests; a reference is the digest of its detail. */
  function Details(prompts: seq<Prompt>, digest: Detail -> Ref): (r: seq<Detail>)
    ensures |r| == |prompts|
  {
    if prompts == [] then []
    else
      var n := |prompts| - 1;
      var earlier := Details(prompts[..n], digest);
      earlier + [if n == 0 then Full(prompts[0]) else EncodeDelta(prompts[n - 1], digest(earlier[n - 1]), prompts[n])]
  }

  function StoreOf(details: seq<Detail>, digest: Detail -> Ref): map<Ref, Detail> {
    if details == [] then map[]
    else
      var n := |details| - 1;
      StoreOf(details[..n], digest)[digest(details[n]) := details[n]]
  }

  ghost predicate CollisionFree(digest: Detail -> Ref) {
    forall a, b :: digest(a) == digest(b) ==> a == b
  }

  lemma EncodeApply(previous: Prompt, ref: Ref, prompt: Prompt)
    ensures Apply(previous, EncodeDelta(previous, ref, prompt)) == prompt
  {
    var common := CommonPrefix(previous.messages, prompt.messages);
    assert prompt.messages == prompt.messages[..common] + prompt.messages[common..];
  }

  /** The encoder's delta repeats as little as can be: any other that decodes to the request has at
      least as many messages, and tools are stored just when they changed. */
  lemma DeltaIsShortest(previous: Prompt, ref: Ref, prompt: Prompt, other: Detail)
    requires other.Delta? && Apply(previous, other) == prompt
    ensures var d := EncodeDelta(previous, ref, prompt);
            && d.base == ref && 0 <= d.common <= |previous.messages|
            && |d.appended| <= |other.appended|
            && (d.toolsReused <==> previous.tools == prompt.tools)
            && d.tools == if d.toolsReused then [] else prompt.tools
  {
    var common := CommonPrefix(previous.messages, prompt.messages);
    var kept := Slice(previous.messages, other.common);
    assert prompt.messages[..|kept|] == kept && kept == previous.messages[..|kept|];
    LongestCommon(previous.messages, prompt.messages, |kept|);
  }

  lemma {:induction false} LongestCommon(a: seq<string>, b: seq<string>, n: nat)
    requires n <= |a| && n <= |b| && a[..n] == b[..n]
    ensures n <= CommonPrefix(a, b)
  {
    if n > 0 {
      assert a[0] == a[..n][0] && b[0] == b[..n][0];
      assert a[1..][..n - 1] == a[..n][1..] && b[1..][..n - 1] == b[..n][1..];
      LongestCommon(a[1..], b[1..], n - 1);
    }
  }

  lemma {:induction false} StoreHolds(details: seq<Detail>, digest: Detail -> Ref, i: nat)
    requires CollisionFree(digest) && i < |details|
    ensures digest(details[i]) in StoreOf(details, digest)
    ensures StoreOf(details, digest)[digest(details[i])] == details[i]
  {
    var n := |details| - 1;
    if i < n {
      StoreHolds(details[..n], digest, i);
    }
  }

  lemma {:induction false} DetailAt(prompts: seq<Prompt>, digest: Detail -> Ref, i: nat)
    requires i < |prompts|
    ensures Details(prompts, digest)[i]
            == if i == 0 then Full(prompts[0])
               else EncodeDelta(prompts[i - 1], digest(Details(prompts, digest)[i - 1]), prompts[i])
  {
    hide EncodeDelta;
    var n := |prompts| - 1;
    if i < n {
      DetailAt(prompts[..n], digest, i);
    }
  }

  lemma {:induction false} LogChain(prompts: seq<Prompt>, digest: Detail -> Ref, i: nat)
    requires CollisionFree(digest) && i < |prompts|
    ensures Ends(StoreOf(Details(prompts, digest), digest), digest(Details(prompts, digest)[i]), i, AtFull)
  {
    var details := Details(prompts, digest);
    StoreHolds(details, digest, i);
    DetailAt(prompts, digest, i);
    if i > 0 {
      LogChain(prompts, digest, i - 1);
    }
  }

  lemma {:induction false} LogDecodesTo(prompts: seq<Prompt>, digest: Detail -> Ref, i: nat, visited: set<Ref>)
    requires CollisionFree(digest) && i < |prompts|
    requires Snapshot(StoreOf(Details(prompts, digest), digest), digest(Details(prompts, digest)[i]), visited).Ok?
    ensures Snapshot(StoreOf(Details(prompts, digest), digest), digest(Details(prompts, digest)[i]), visited)
            == Ok(prompts[i])
  {
    var details := Details(prompts, digest);
    StoreHolds(details, digest, i);
    DetailAt(prompts, digest, i);
    if i > 0 {
      LogDecodesTo(prompts, digest, i - 1, visited + {digest(details[i])});
      EncodeApply(prompts[i - 1], digest(details[i - 1]), prompts[i]);
    }
  }

  /** Decoding undoes encoding for the first 128 requests of a process, and refuses every later
      one: the encoder extends its chain without regard to the decoder's bound. */
  lemma LogRoundTrip(prompts: seq<Prompt>, digest: Detail -> Ref, i: nat)
    requires CollisionFree(digest) && i < |prompts|
    ensures var details := Details(prompts, digest);
            Decode(StoreOf(details, digest), digest(details[i]))
            == if i < 128 then Ok(prompts[i]) else Err(CyclicOrTooDeep)
  {
    var details := Details(prompts, digest);
    hide Details, StoreOf, EndsWithin, Ends;
    var store, ref := StoreOf(details, digest), digest(details[i]);
    LogChain(prompts, digest, i);
    DecodesExactly(store, ref);
    ChainFits(store, ref, i);
    if i < MAX_DEPTH {
      LogDecodesTo(prompts, digest, i, {});
    } else {
      assert Decode(store, ref).error != Missing;
    }
  }

  lemma ChainFits(store: map<Ref, Detail>, ref: Ref, i: nat)
    requires Ends(store, ref, i, AtFull)
    ensures EndsWithin(store, ref, 0, AtFull) <==> i < MAX_DEPTH
    ensures !EndsWithin(store, ref, 0, AtNothing)
  {
    if i < MAX_DEPTH { assert i + 0 < MAX_DEPTH; }
    forall n: nat, e | Ends(store, ref, n, e) ensures n == i && e == AtFull {
      EndIsUnique(store, ref, n, e, i, AtFull);
    }
  }
}
