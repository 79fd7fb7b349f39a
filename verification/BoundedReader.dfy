/** backend/adapters/bounded_local_reader.py, `read_bytes`: a cache under a byte budget. */
module BoundedReader {
  import opened Outcome

  type Bytes = seq<bv8>

  /** What opening and reading a path would give just now: its bytes, or a failure such as a
      missing file or one over the single-file bound. */
  type Observation = Option<Bytes>

  datatype ReadError = BadName | Metadata | Unreadable | OverBudget

  datatype State = State(cache: map<string, Bytes>, used: nat, failures: seq<string>)

  /** A read of `path`; `parts` are its components without regard to case, or None where
      `relative_parts` refuses it. */
  datatype Request = Request(path: string, parts: Option<seq<string>>, seen: Observation)

  predicate IsMetadata(parts: seq<string>) { ".git" in parts || ".gitgo" in parts }

  /** The name is one that the reader may open. */
  predicate MayRead(q: Request) { q.parts.Some? && !IsMetadata(q.parts.value) }

  /** One read: the state it leaves and what it returns. */
  function Read(s: State, bound: nat, q: Request): (State, Result<Bytes, ReadError>) {
    if q.parts.None? then (s, Err(BadName))
    else if IsMetadata(q.parts.value) then (s, Err(Metadata))
    else if q.path in s.cache then (s, Ok(s.cache[q.path]))
    else if q.seen.None? then (s.(failures := s.failures + [q.path]), Err(Unreadable))
    else
      var used := s.used + |q.seen.value|;
      if used > bound then (s.(used := used, failures := s.failures + [q.path]), Err(OverBudget))
      else (s.(cache := s.cache[q.path := q.seen.value], used := used), Ok(q.seen.value))
  }

  const EMPTY := State(map[], 0, [])

  /** The state after a run of reads. */
  function Run(bound: nat, requests: seq<Request>): State {
    if requests == [] then EMPTY
    else Read(Run(bound, requests[..|requests| - 1]), bound, requests[|requests| - 1]).0
  }

  /** The bytes held in a cache. */
  ghost function Total(cache: map<string, Bytes>): nat {
    if cache == map[] then 0
    else
      var path :| path in cache;
      |cache[path]| + Total(cache - {path})
  }

  lemma {:induction false} TotalWithout(cache: map<string, Bytes>, path: string)
    requires path in cache
    ensures Total(cache) == |cache[path]| + Total(cache - {path})
    decreases |cache|
  {
    var first :| first in cache && Total(cache) == |cache[first]| + Total(cache - {first});
    if first != path {
      assert |cache - {first}| < |cache| && |cache - {path}| < |cache| by {
        assert (cache - {first}).Keys == cache.Keys - {first};
        assert (cache - {path}).Keys == cache.Keys - {path};
      }
      TotalWithout(cache - {first}, path);
      TotalWithout(cache - {path}, first);
      assert cache - {first} - {path} == cache - {path} - {first};
    }
  }

  lemma TotalOfAdded(cache: map<string, Bytes>, path: string, bytes: Bytes)
    requires path !in cache
    ensures Total(cache[path := bytes]) == Total(cache) + |bytes|
  {
    TotalWithout(cache[path := bytes], path);
    assert cache[path := bytes] - {path} == cache;
  }

  /** The cached bytes never exceed the bound, and are what `used` counts until it overflows. */
  lemma {:induction false} CacheWithinBound(bound: nat, requests: seq<Request>)
    ensures var s := Run(bound, requests);
            Total(s.cache) <= bound && Total(s.cache) <= s.used && (s.used <= bound ==> s.used == Total(s.cache))
  {
    if requests != [] {
      var before := Run(bound, requests[..|requests| - 1]);
      var q := requests[|requests| - 1];
      CacheWithinBound(bound, requests[..|requests| - 1]);
      if MayRead(q) && q.path !in before.cache && q.seen.Some? {
        TotalOfAdded(before.cache, q.path, q.seen.value);
      }
    }
  }

  /** What a longer run keeps: cached paths their first value, an overflow, and its cache. */
  lemma {:induction false} LaterRunKeeps(bound: nat, requests: seq<Request>, n: nat)
    requires n <= |requests|
    ensures var early, late := Run(bound, requests[..n]), Run(bound, requests);
            && (forall path :: path in early.cache ==> path in late.cache && late.cache[path] == early.cache[path])
            && early.used <= late.used
            && (early.used > bound ==> late.cache == early.cache)
  {
    if n == |requests| {
      assert requests[..n] == requests;
    } else {
      var shorter := requests[..|requests| - 1];
      assert shorter[..n] == requests[..n];
      LaterRunKeeps(bound, shorter, n);
    }
  }

  /** Once the budget has overflowed, every later read either repeats the first value of a
      cached path or fails. */
  lemma AfterOverflow(bound: nat, requests: seq<Request>, n: nat, q: Request)
    requires n <= |requests| && Run(bound, requests[..n]).used > bound && MayRead(q)
    ensures var early := Run(bound, requests[..n]);
            var answer := Read(Run(bound, requests), bound, q).1;
            if q.path in early.cache then answer == Ok(early.cache[q.path]) else answer.Err?
  {
    LaterRunKeeps(bound, requests, n);
  }

  /** Reading a path again gives its first value, whatever the file holds by then. */
  lemma ReadsAreStable(bound: nat, requests: seq<Request>, n: nat, q: Request)
    requires n < |requests| && Read(Run(bound, requests[..n]), bound, requests[n]).1.Ok?
    requires q.path == requests[n].path && MayRead(q)
    ensures Read(Run(bound, requests), bound, q).1 == Read(Run(bound, requests[..n]), bound, requests[n]).1
  {
    assert requests[..n + 1][..n] == requests[..n];
    LaterRunKeeps(bound, requests, n + 1);
  }

  // ----- the answers of a run -----

  /** What the run answers to its request `n`. */
  function Answer(bound: nat, requests: seq<Request>, n: nat): Result<Bytes, ReadError>
    requires n < |requests|
  {
    Read(Run(bound, requests[..n]), bound, requests[n]).1
  }

  lemma RunNext(bound: nat, requests: seq<Request>, n: nat)
    requires n < |requests|
    ensures Run(bound, requests[..n + 1]) == Read(Run(bound, requests[..n]), bound, requests[n]).0
  {
    assert requests[..n + 1][..n] == requests[..n];
  }

  /** A read that fits into the budget is answered with the bytes observed, and so is every later
      read of its path, whatever the file holds by then. */
  lemma FittingReadIsAnswered(bound: nat, requests: seq<Request>, n: nat, m: nat)
    requires n <= m < |requests| && requests[n].path == requests[m].path
    requires forall i :: i == n || i == m ==>
               requests[i].parts.Some? && ".git" !in requests[i].parts.value && ".gitgo" !in requests[i].parts.value
    requires var s := Run(bound, requests[..n]);
             requests[n].path !in s.cache && requests[n].seen.Some? && s.used + |requests[n].seen.value| <= bound
    ensures Answer(bound, requests, m) == Ok(requests[n].seen.value)
  {
    RunNext(bound, requests, n);
    if n < m {
      assert requests[..m][..n + 1] == requests[..n + 1];
      LaterRunKeeps(bound, requests[..m], n + 1);
    }
  }

  /** Nothing else is ever answered: bytes come from the first read of the path that fitted. */
  lemma {:induction false} AnswersWereObserved(bound: nat, requests: seq<Request>, m: nat) returns (n: nat)
    requires m < |requests| && Answer(bound, requests, m).Ok?
    ensures n <= m && requests[n].path == requests[m].path
    ensures requests[n].seen == Some(Answer(bound, requests, m).value)
    ensures var s := Run(bound, requests[..n]);
            requests[n].path !in s.cache && s.used + |requests[n].seen.value| <= bound
    ensures requests[m].parts.Some? && ".git" !in requests[m].parts.value && ".gitgo" !in requests[m].parts.value
  {
    if requests[m].path in Run(bound, requests[..m]).cache {
      n := CachedWasObserved(bound, requests[..m], requests[m].path);
      assert requests[..m][..n] == requests[..n];
    } else {
      n := m;
    }
  }

  lemma {:induction false} CachedWasObserved(bound: nat, requests: seq<Request>, path: string) returns (n: nat)
    requires path in Run(bound, requests).cache
    ensures n < |requests| && requests[n].path == path && requests[n].seen == Some(Run(bound, requests).cache[path])
    ensures var s := Run(bound, requests[..n]); path !in s.cache && s.used + |requests[n].seen.value| <= bound
  {
    var k := |requests| - 1;
    if path in Run(bound, requests[..k]).cache {
      n := CachedWasObserved(bound, requests[..k], path);
      assert requests[..k][..n] == requests[..n];
    } else {
      n := k;
    }
  }

  /** The failures are the paths of the permitted reads that found no bytes or overran the budget,
      in order. */
  lemma FailuresAreRecorded(bound: nat, requests: seq<Request>, n: nat)
    requires n < |requests|
    ensures var r := Answer(bound, requests, n);
            var before, after := Run(bound, requests[..n]).failures, Run(bound, requests[..n + 1]).failures;
            after == if r == Err(Unreadable) || r == Err(OverBudget) then before + [requests[n].path] else before
  {
    RunNext(bound, requests, n);
  }

  class BoundedLocalReader {
    const maxTotalBytes: nat
    var cache: map<string, Bytes>
    var used: nat
    var failures: seq<string>

    constructor (maxTotalBytes: nat)
      ensures this.maxTotalBytes == maxTotalBytes && Image() == EMPTY
    {
      this.maxTotalBytes, cache, used, failures := maxTotalBytes, map[], 0, [];
    }

    function Image(): State
      reads this
    {
      State(cache, used, failures)
    }

    /** `read_bytes`. */
    method ReadBytes(q: Request) returns (r: Result<Bytes, ReadError>)
      modifies this
      ensures (Image(), r) == Read(old(Image()), maxTotalBytes, q)
      // A name that is refused, or selects metadata, or is cached, changes nothing,
      ensures q.parts.None? ==> r == Err(BadName)
      ensures q.parts.Some? && (".git" in q.parts.value || ".gitgo" in q.parts.value) ==> r == Err(Metadata)
      ensures !MayRead(q) || q.path in old(cache) ==> Image() == old(Image())
      ensures MayRead(q) && q.path in old(cache) ==> r == Ok(old(cache)[q.path])
      // a failed observation or an overrun is recorded, the latter with its bytes counted,
      ensures MayRead(q) && q.path !in old(cache) && q.seen.None? ==>
                && r == Err(Unreadable) && failures == old(failures) + [q.path]
                && cache == old(cache) && used == old(used)
      ensures MayRead(q) && q.path !in old(cache) && q.seen.Some? ==> used == old(used) + |q.seen.value|
      ensures MayRead(q) && q.path !in old(cache) && q.seen.Some? && used > maxTotalBytes ==>
                r == Err(OverBudget) && failures == old(failures) + [q.path] && cache == old(cache)
      // and what fits is cached and returned.
      ensures MayRead(q) && q.path !in old(cache) && q.seen.Some? && used <= maxTotalBytes ==>
                && r == Ok(q.seen.value) && failures == old(failures)
                && cache == old(cache)[q.path := q.seen.value]
    {
      if q.parts.None? {
        return Err(BadName);
      }
      if IsMetadata(q.parts.value) {
        return Err(Metadata);
      }
      if q.path !in cache {
        if q.seen.None? {
          failures := failures + [q.path];
          return Err(Unreadable);
        }
        var raw := q.seen.value;
        used := used + |raw|;
        if used > maxTotalBytes {
          failures := failures + [q.path];
          return Err(OverBudget);
        }
        cache := cache[q.path := raw];
      }
      return Ok(cache[q.path]);
    }
  }
}
