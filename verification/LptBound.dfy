/** Longest-processing-time scheduling, on a sequence of weights in descending order. */
module LptBound {

  /** What machine `k` carries when job `j` goes to machine `plan[j]`. */
  function Load(ws: seq<nat>, plan: seq<nat>, k: nat): nat
    requires |ws| == |plan|
  {
    if ws == [] then 0
    else
      var n := |ws| - 1;
      Load(ws[..n], plan[..n], k) + (if plan[n] == k then ws[n] else 0)
  }

  /** The loads of all machines, as the loop keeps them. */
  function Loads(ws: seq<nat>, plan: seq<nat>, m: nat): (r: seq<nat>)
    requires |ws| == |plan|
    ensures |r| == m
  {
    if ws == [] then seq(m, _ => 0)
    else
      var n := |ws| - 1;
      var before := Loads(ws[..n], plan[..n], m);
      if plan[n] < m then before[plan[n] := before[plan[n]] + ws[n]] else before
  }

  lemma {:induction false} LoadsAreLoad(ws: seq<nat>, plan: seq<nat>, m: nat)
    requires |ws| == |plan|
    ensures forall k :: 0 <= k < m ==> Loads(ws, plan, m)[k] == Load(ws, plan, k)
  {
    if ws != [] {
      LoadsAreLoad(ws[..|ws| - 1], plan[..|ws| - 1], m);
    }
  }

  /** The first machine with the least load. */
  predicate IsLeast(loads: seq<nat>, k: nat) {
    && k < |loads|
    && (forall i | 0 <= i < |loads| :: loads[k] <= loads[i])
    && (forall i | 0 <= i < k :: loads[k] < loads[i])
  }

  function Least(loads: seq<nat>): (k: nat)
    requires loads != []
    ensures IsLeast(loads, k)
  {
    var n := |loads| - 1;
    if n == 0 then 0
    else
      var k := Least(loads[..n]);
      if loads[n] < loads[k] then n else k
  }

  predicate IsPlan(plan: seq<nat>, m: nat) {
    forall i | 0 <= i < |plan| :: plan[i] < m
  }

  /** Each job in turn goes to the first least loaded machine. */
  function Greedy(ws: seq<nat>, m: nat): (plan: seq<nat>)
    requires m > 0
    ensures |plan| == |ws| && IsPlan(plan, m)
  {
    if ws == [] then []
    else
      var n := |ws| - 1;
      var plan := Greedy(ws[..n], m);
      plan + [Least(Loads(ws[..n], plan, m))]
  }

  ghost predicate Descending(ws: seq<nat>) {
    forall i, j | 0 <= i < j < |ws| :: ws[i] >= ws[j]
  }

  ghost predicate Within(ws: seq<nat>, plan: seq<nat>, m: nat, t: nat)
    requires |ws| == |plan|
  {
    forall k | 0 <= k < m :: Load(ws, plan, k) <= t
  }

  function Sum(xs: seq<nat>): nat {
    if xs == [] then 0 else Sum(xs[..|xs| - 1]) + xs[|xs| - 1]
  }

  // ----- arithmetic of loads -----

  lemma MulMonotone(a: nat, b: nat, c: nat)
    requires a <= b
    ensures a * c <= b * c && c * a <= c * b
  {
  }

  lemma {:induction false} SumOfBound(xs: seq<nat>, t: nat)
    requires forall i | 0 <= i < |xs| :: xs[i] <= t
    ensures Sum(xs) <= |xs| * t
  {
    if xs != [] {
      SumOfBound(xs[..|xs| - 1], t);
      assert |xs| * t == (|xs| - 1) * t + t;
    }
  }

  lemma {:induction false} SumOfAtLeast(xs: seq<nat>, t: nat)
    requires forall i | 0 <= i < |xs| :: xs[i] >= t
    ensures Sum(xs) >= |xs| * t
  {
    if xs != [] {
      SumOfAtLeast(xs[..|xs| - 1], t);
      assert |xs| * t == (|xs| - 1) * t + t;
    }
  }

  lemma {:induction false} SumOfUpdate(xs: seq<nat>, i: nat, d: nat)
    requires i < |xs|
    ensures Sum(xs[i := xs[i] + d]) == Sum(xs) + d
  {
    var n := |xs| - 1;
    var ys := xs[i := xs[i] + d];
    if i < n {
      SumOfUpdate(xs[..n], i, d);
      assert ys[..n] == xs[..n][i := xs[i] + d];
    } else {
      assert ys[..n] == xs[..n];
    }
  }

  /** Nothing is lost: the machines together carry every job. */
  lemma {:induction false} LoadsSumUp(ws: seq<nat>, plan: seq<nat>, m: nat)
    requires |ws| == |plan| && IsPlan(plan, m)
    ensures Sum(Loads(ws, plan, m)) == Sum(ws)
  {
    if ws == [] {
      SumOfBound(Loads(ws, plan, m), 0);
    } else {
      var n := |ws| - 1;
      LoadsSumUp(ws[..n], plan[..n], m);
      var before := Loads(ws[..n], plan[..n], m);
      SumOfUpdate(before, plan[n], ws[n]);
    }
  }

  /** A machine carries at least `w` for each of its jobs. */
  lemma {:induction false} LoadByCount(ws: seq<nat>, ones: seq<nat>, plan: seq<nat>, k: nat, w: nat)
    requires |ws| == |plan| == |ones|
    requires forall i | 0 <= i < |ws| :: ws[i] >= w && ones[i] == 1
    ensures Load(ws, plan, k) >= w * Load(ones, plan, k)
  {
    if ws != [] {
      var n := |ws| - 1;
      LoadByCount(ws[..n], ones[..n], plan[..n], k, w);
      OneMore(w, Load(ones[..n], plan[..n], k));
    }
  }

  lemma OneMore(w: nat, c: int)
    ensures w * (c + 1) == w * c + w
  {
  }

  /** And at least each of its jobs, plus `w` for every further one. */
  lemma {:induction false} LoadWithJob(ws: seq<nat>, ones: seq<nat>, plan: seq<nat>, j: nat, w: nat)
    requires |ws| == |plan| == |ones| && j < |ws|
    requires forall i | 0 <= i < |ws| :: ws[i] >= w && ones[i] == 1
    ensures var count := Load(ones, plan, plan[j]);
            count >= 1 && Load(ws, plan, plan[j]) >= ws[j] + w * (count - 1)
  {
    var n, k := |ws| - 1, plan[j];
    var c := Load(ones[..n], plan[..n], k);
    if j < n {
      LoadWithJob(ws[..n], ones[..n], plan[..n], j, w);
      OneMore(w, c - 1);
    } else {
      LoadByCount(ws[..n], ones[..n], plan[..n], k, w);
    }
  }

  /** Jobs of a machine that all weigh `c` make up `c` times their number. */
  lemma {:induction false} LoadOfUniform(ws: seq<nat>, ones: seq<nat>, plan: seq<nat>, k: nat, c: nat)
    requires |ws| == |plan| == |ones|
    requires forall i | 0 <= i < |ws| :: ones[i] == 1
    requires forall i | 0 <= i < |ws| && plan[i] == k :: ws[i] == c
    ensures Load(ws, plan, k) == c * Load(ones, plan, k)
  {
    if ws != [] {
      var n := |ws| - 1;
      forall i | 0 <= i < n && plan[..n][i] == k ensures ws[..n][i] == c { assert plan[i] == k; }
      LoadOfUniform(ws[..n], ones[..n], plan[..n], k, c);
      OneMore(c, Load(ones[..n], plan[..n], k));
    }
  }

  lemma {:induction false} LoadBoundedByCount(ws: seq<nat>, ones: seq<nat>, plan: seq<nat>, k: nat, c: nat)
    requires |ws| == |plan| == |ones|
    requires forall i | 0 <= i < |ws| :: ones[i] == 1 && ws[i] <= c
    ensures Load(ws, plan, k) <= c * Load(ones, plan, k)
  {
    if ws != [] {
      var n := |ws| - 1;
      LoadBoundedByCount(ws[..n], ones[..n], plan[..n], k, c);
      OneMore(c, Load(ones[..n], plan[..n], k));
    }
  }

  lemma WithinPrefix(ws: seq<nat>, plan: seq<nat>, m: nat, t: nat)
    requires |ws| == |plan| && ws != []
    requires Within(ws, plan, m, t)
    ensures Within(ws[..|ws| - 1], plan[..|ws| - 1], m, t)
  {
    var n := |ws| - 1;
    forall k | 0 <= k < m ensures Load(ws[..n], plan[..n], k) <= t {
      assert Load(ws, plan, k) <= t;
    }
  }

  // ----- the heart of the bound -----

  /** The charge of a job: two when `plan` leaves it alone on its machine, else one. */
  function Charges(ones: seq<nat>, plan: seq<nat>): (r: seq<nat>)
    requires |ones| == |plan|
    ensures |r| == |plan|
    ensures forall i | 0 <= i < |r| :: r[i] == if Load(ones, plan, plan[i]) == 1 then 2 else 1
  {
    seq(|plan|, i requires 0 <= i < |plan| => if Load(ones, plan, plan[i]) == 1 then 2 else 1)
  }

  /** If jobs heavier than t/3 filled every machine past t - w, their charges make up two a machine. */
  lemma FullMachinesCarryTwo(ws: seq<nat>, plan: seq<nat>, m: nat, t: nat, w: nat)
    requires |ws| == |plan| && IsPlan(plan, m)
    requires w <= t < 3 * w && forall i | 0 <= i < |ws| :: ws[i] >= w
    requires forall k | 0 <= k < m :: t < Load(ws, plan, k) + w && Load(ws, plan, k) <= t
    ensures var ones := seq(|ws|, _ => 1); Sum(Charges(ones, plan)) == 2 * m
  {
    var ones: seq<nat> := seq(|ws|, _ => 1);
    var charges := Charges(ones, plan);
    forall k | 0 <= k < m ensures Load(charges, plan, k) == 2 {
      var count := Load(ones, plan, k);
      LoadByCount(ws, ones, plan, k, w);
      if count >= 3 { MulMonotone(3, count, w); }
      assert count > 0 by {
        if count == 0 {
          ZeroCount(ws, ones, plan, k);
        }
      }
      LoadOfUniform(charges, ones, plan, k, if count == 1 then 2 else 1);
    }
    LoadsSumUp(charges, plan, m);
    LoadsAreLoad(charges, plan, m);
    SumOfBound(Loads(charges, plan, m), 2);
    SumOfAtLeast(Loads(charges, plan, m), 2);
  }

  lemma {:induction false} ZeroCount(ws: seq<nat>, ones: seq<nat>, plan: seq<nat>, k: nat)
    requires |ws| == |plan| == |ones|
    requires forall i | 0 <= i < |ws| :: ones[i] == 1
    requires Load(ones, plan, k) == 0
    ensures Load(ws, plan, k) == 0
  {
    if ws != [] {
      var n := |ws| - 1;
      ZeroCount(ws[..n], ones[..n], plan[..n], k);
    }
  }

  /** Under any plan within t, a machine gets a charge of two at most. */
  lemma OtherMachineHoldsTwo(ws: seq<nat>, charges: seq<nat>, other: seq<nat>, k: nat, t: nat, w: nat)
    requires |ws| == |other| == |charges|
    requires t < 3 * w && forall i | 0 <= i < |ws| :: ws[i] >= w
    requires Load(ws, other, k) <= t
    requires forall i | 0 <= i < |ws| :: charges[i] == 1 || (charges[i] == 2 && ws[i] + w > t)
    ensures Load(charges, other, k) <= 2
  {
    hide Load;
    var ones: seq<nat> := seq(|ws|, _ => 1);
    var count := Load(ones, other, k);
    LoadByCount(ws, ones, other, k, w);
    if count >= 3 { MulMonotone(3, count, w); }
    if count == 2 {
      forall i | 0 <= i < |ws| && other[i] == k ensures charges[i] == 1 {
        LoadWithJob(ws, ones, other, i, w);
      }
      LoadOfUniform(charges, ones, other, k, 1);
    } else {
      LoadBoundedByCount(charges, ones, other, k, 2);
    }
  }

  /** A job alone on its machine is that machine's load. */
  lemma {:induction false} AloneIsLoad(ws: seq<nat>, ones: seq<nat>, plan: seq<nat>, j: nat)
    requires |ws| == |plan| == |ones| && j < |ws|
    requires forall i | 0 <= i < |ws| :: ones[i] == 1
    requires Load(ones, plan, plan[j]) == 1
    ensures Load(ws, plan, plan[j]) == ws[j]
  {
    var n := |ws| - 1;
    var k := plan[j];
    if j == n {
      ZeroCount(ws[..n], ones[..n], plan[..n], k);
    } else {
      LoadWithJob(ones[..n], ones[..n], plan[..n], j, 0);
      AloneIsLoad(ws[..n], ones[..n], plan[..n], j);
    }
  }

  lemma {:induction false} SumPrefix(xs: seq<nat>, ys: seq<nat>, x: nat)
    requires ys == xs + [x]
    ensures Sum(ys) == Sum(xs) + x
  {
    assert ys[..|ys| - 1] == xs;
  }

  /** When greedy placement first exceeds what another plan achieves, the job it places
      is at most a third of that. */
  lemma FirstOverflowIsLight(before: seq<nat>, w: nat, plan: seq<nat>, other: seq<nat>, m: nat, t: nat)
    requires |plan| == |before| && |other| == |before| + 1
    requires m > 0 && Descending(before + [w]) && IsPlan(plan, m) && IsPlan(other, m)
    requires Within(before + [w], other, m, t)
    requires Within(before, plan, m, t)
    requires forall k | 0 <= k < m :: t < Load(before, plan, k) + w
    ensures 3 * w <= t
  {
    var ws := before + [w];
    var n := |before|;
    assert ws[..n] == before && ws[n] == w;
    forall i | 0 <= i < |ws| ensures ws[i] >= w {
      if i < n { assert ws[i] >= ws[n]; }
    }
    forall i | 0 <= i < n ensures before[i] >= w { assert before[i] == ws[i]; }
    assert w <= t by {
      assert Load(ws, other, other[n]) <= t;
    }
    if 3 * w > t {
      var ones: seq<nat> := seq(n, _ => 1);
      var c := Charges(ones, plan);
      FullMachinesCarryTwo(before, plan, m, t, w);
      var charges := c + [1];
      forall i | 0 <= i < |ws| ensures charges[i] == 1 || (charges[i] == 2 && ws[i] + w > t) {
        if i < n && c[i] == 2 {
          AloneIsLoad(before, ones, plan, i);
          assert t < Load(before, plan, plan[i]) + w;
        }
      }
      forall k | 0 <= k < m ensures Load(charges, other, k) <= 2 {
        OtherMachineHoldsTwo(ws, charges, other, k, t, w);
      }
      SumPrefix(c, charges, 1);
      LoadsSumUp(charges, other, m);
      LoadsAreLoad(charges, other, m);
      SumOfBound(Loads(charges, other, m), 2);
    }
  }

  /** The step lemma of the classical bounds: m * load <= total + (m - 1) * w. */
  lemma LastPlacement(ws: seq<nat>, m: nat)
    requires ws != [] && m > 0
    ensures var n := |ws| - 1; var k := Greedy(ws, m)[n];
            m * Load(ws, Greedy(ws, m), k) <= Sum(ws) + (m - 1) * ws[n]
  {
    var n := |ws| - 1;
    var plan := Greedy(ws[..n], m);
    var k := Greedy(ws, m)[n];
    assert Greedy(ws, m)[..n] == plan;
    var loads := Loads(ws[..n], plan, m);
    LoadsSumUp(ws[..n], plan, m);
    LoadsAreLoad(ws[..n], plan, m);
    SumOfAtLeast(loads, loads[k]);
    var load, w := loads[k], ws[n];
    assert Load(ws, Greedy(ws, m), k) == load + w;
    Distribute(m, load, w);
  }

  lemma Distribute(m: nat, load: nat, w: nat)
    requires m > 0
    ensures m * (load + w) == m * load + (m - 1) * w + w
  {
  }

  lemma TotalWithin(ws: seq<nat>, plan: seq<nat>, m: nat, t: nat)
    requires |ws| == |plan| && IsPlan(plan, m) && Within(ws, plan, m, t)
    ensures Sum(ws) <= m * t
  {
    LoadsSumUp(ws, plan, m);
    LoadsAreLoad(ws, plan, m);
    SumOfBound(Loads(ws, plan, m), t);
  }

  ghost predicate NearOptimal(ws: seq<nat>, m: nat, t: nat)
    requires m > 0
  {
    forall k | 0 <= k < m :: 3 * m * Load(ws, Greedy(ws, m), k) <= (4 * m - 1) * t
  }

  lemma Arithmetic(m: nat, load: nat, total: nat, w: nat, t: nat)
    requires m > 0 && m * load <= total + (m - 1) * w && total <= m * t && 3 * w <= t
    ensures 3 * m * load <= (4 * m - 1) * t
  {
    MulMonotone(3 * w, t, m - 1);
    var ml, mt, rest := m * load, m * t, (m - 1) * w;
    assert (m - 1) * (3 * w) == 3 * rest;
    assert 3 * m * load == 3 * ml;
    assert (4 * m - 1) * t == 3 * mt + (m - 1) * t;
  }

  lemma WithinIsNear(m: nat, load: nat, t: nat)
    requires m > 0 && load <= t
    ensures 3 * m * load <= (4 * m - 1) * t
  {
    assert (4 * m - 1) * t == 3 * m * t + (m - 1) * t;
    assert 3 * m * load <= 3 * m * t;
  }

  lemma GreedyNext(ws: seq<nat>, w: nat, m: nat)
    requires m > 0
    ensures Greedy(ws + [w], m) == Greedy(ws, m) + [Least(Loads(ws, Greedy(ws, m), m))]
  {
    assert (ws + [w])[..|ws|] == ws;
  }

  lemma LoadsNext(ws: seq<nat>, w: nat, plan: seq<nat>, k: nat, m: nat)
    requires |ws| == |plan| && k < m
    ensures Loads(ws + [w], plan + [k], m) == Loads(ws, plan, m)[k := Loads(ws, plan, m)[k] + w]
  {
    assert (ws + [w])[..|ws|] == ws && (plan + [k])[..|ws|] == plan;
  }

  /** The last job went to a machine that was least loaded before it. */
  lemma GreedyStep(before: seq<nat>, w: nat, m: nat) returns (here: nat)
    requires m > 0
    ensures here < m && Greedy(before + [w], m) == Greedy(before, m) + [here]
    ensures forall k :: 0 <= k < m ==>
              Load(before + [w], Greedy(before + [w], m), k)
              == Load(before, Greedy(before, m), k) + (if k == here then w else 0)
    ensures forall k :: 0 <= k < m ==> Load(before, Greedy(before, m), here) <= Load(before, Greedy(before, m), k)
    ensures forall k :: 0 <= k < here ==> Load(before, Greedy(before, m), here) < Load(before, Greedy(before, m), k)
  {
    var ws := before + [w];
    assert ws[..|ws| - 1] == before;
    var loads := Loads(before, Greedy(before, m), m);
    LoadsAreLoad(before, Greedy(before, m), m);
    here := Least(loads);
    assert Greedy(ws, m)[..|before|] == Greedy(before, m);
    forall k | 0 <= k < m ensures Load(before, Greedy(before, m), here) <= Load(before, Greedy(before, m), k) {
      assert loads[here] <= loads[k];
    }
    forall k | 0 <= k < here ensures Load(before, Greedy(before, m), here) < Load(before, Greedy(before, m), k) {
      assert loads[here] < loads[k];
    }
  }

  /** A placement past t after placements within t is of a light job. */
  lemma OverflowIsLight(before: seq<nat>, w: nat, other: seq<nat>, m: nat, t: nat)
    requires m > 0 && |other| == |before| + 1 && Descending(before + [w]) && IsPlan(other, m)
    requires Within(before + [w], other, m, t)
    requires Within(before, Greedy(before, m), m, t)
    requires !Within(before + [w], Greedy(before + [w], m), m, t)
    ensures 3 * w <= t
  {
    var here := GreedyStep(before, w, m);
    var over :| 0 <= over < m && Load(before + [w], Greedy(before + [w], m), over) > t;
    assert Load(before, Greedy(before, m), over) <= t;
    FirstOverflowIsLight(before, w, Greedy(before, m), other, m, t);
  }

  /** Placing a light job keeps the ratio. */
  lemma LightJobKeepsRatio(before: seq<nat>, w: nat, other: seq<nat>, m: nat, t: nat)
    requires m > 0 && |other| == |before| + 1 && IsPlan(other, m) && Within(before + [w], other, m, t)
    requires 3 * w <= t
    requires Within(before, Greedy(before, m), m, t) || NearOptimal(before, m, t)
    ensures NearOptimal(before + [w], m, t)
  {
    var ws := before + [w];
    var here := GreedyStep(before, w, m);
    forall k | 0 <= k < m ensures 3 * m * Load(ws, Greedy(ws, m), k) <= (4 * m - 1) * t {
      if k == here {
        LastPlacement(ws, m);
        TotalWithin(ws, other, m, t);
        Arithmetic(m, Load(ws, Greedy(ws, m), k), Sum(ws), w, t);
      } else if Within(before, Greedy(before, m), m, t) {
        WithinIsNear(m, Load(before, Greedy(before, m), k), t);
      }
    }
  }

  /** Either every load is within t, or the last job was light and the ratio holds. */
  lemma {:induction false} GreedyInvariant(ws: seq<nat>, other: seq<nat>, m: nat, t: nat)
    requires m > 0 && |other| == |ws| && Descending(ws) && IsPlan(other, m) && Within(ws, other, m, t)
    ensures Within(ws, Greedy(ws, m), m, t) || (ws != [] && 3 * ws[|ws| - 1] <= t && NearOptimal(ws, m, t))
  {
    if ws != [] {
      var n := |ws| - 1;
      var before, w := ws[..n], ws[n];
      assert before + [w] == ws;
      WithinPrefix(ws, other, m, t);
      GreedyInvariant(before, other[..n], m, t);
      if !Within(ws, Greedy(ws, m), m, t) {
        if Within(before, Greedy(before, m), m, t) {
          OverflowIsLight(before, w, other, m, t);
        }
        LightJobKeepsRatio(before, w, other, m, t);
      }
    }
  }

  /** Graham's bound: whatever largest load t another plan reaches, the greedy plan
      stays within (4 m - 1) / (3 m) of it. */
  lemma GreedyIsNearOptimal(ws: seq<nat>, other: seq<nat>, m: nat, t: nat)
    requires m > 0 && |other| == |ws| && Descending(ws) && IsPlan(other, m) && Within(ws, other, m, t)
    ensures NearOptimal(ws, m, t)
  {
    GreedyInvariant(ws, other, m, t);
    if Within(ws, Greedy(ws, m), m, t) {
      forall k | 0 <= k < m ensures 3 * m * Load(ws, Greedy(ws, m), k) <= (4 * m - 1) * t {
        WithinIsNear(m, Load(ws, Greedy(ws, m), k), t);
      }
    }
  }

  // ----- the ratio cannot be lowered -----

  /** Two jobs each of 2m - 1 down to m, and a third of m. */
  function Weight(m: nat, j: nat): nat {
    if j < 2 * m then 2 * m - 1 - j / 2 else m
  }

  function Jobs(m: nat, n: nat): (r: seq<nat>)
    ensures |r| == n
  {
    seq(n, j requires j >= 0 => Weight(m, j))
  }

  lemma JobsNext(m: nat, n: nat)
    ensures Jobs(m, n + 1) == Jobs(m, n) + [Weight(m, n)]
  {
  }

  /** The first m jobs fill the empty machines in order. */
  lemma {:induction false} FirstRound(m: nat, n: nat)
    requires 0 < m && n <= m
    ensures var ws := Jobs(m, n);
            forall k :: 0 <= k < m ==> Load(ws, Greedy(ws, m), k) == if k < n then Weight(m, k) else 0
  {
    hide Load, Greedy;
    if n == 0 {
      NoLoad(m);
      assert Jobs(m, 0) == [];
    } else {
      FirstRound(m, n - 1);
      JobsNext(m, n - 1);
      var here := GreedyStep(Jobs(m, n - 1), Weight(m, n - 1), m);
      assert here == n - 1;
    }
  }

  lemma NoLoad(m: nat)
    requires m > 0
    ensures forall k :: Load([], Greedy([], m), k) == 0
  {
  }

  /** The machines that have their second job after n jobs, filled from the last pair down. */
  predicate Doubled(m: nat, n: nat, k: nat) {
    var q := m - 1 - n / 2;
    k / 2 > q || (n % 2 == 1 && n > m && k == 2 * q)
  }

  /** The machine that job n doubles: the lightest not yet doubled, and the first of these. */
  lemma NextDoubled(m: nat, n: nat) returns (next: nat)
    requires 0 < m <= n < 2 * m
    ensures next < m && !Doubled(m, n, next) && Weight(m, next) + Weight(m, n) == 3 * m - 1
    ensures forall k :: 0 <= k < m ==> (Doubled(m, n + 1, k) <==> Doubled(m, n, k) || k == next)
    ensures forall k :: 0 <= k < m && k != next && !Doubled(m, n, k) ==>
              Weight(m, next) <= Weight(m, k) && (k < next ==> Weight(m, next) < Weight(m, k))
    ensures Weight(m, next) < 3 * m - 1
  {
    var q := m - 1 - n / 2;
    next := if n % 2 == 1 && n > m then 2 * q + 1 else 2 * q;
  }

  lemma NoneDoubled(m: nat)
    ensures forall k :: 0 <= k < m ==> !Doubled(m, m, k)
  {
  }

  /** The next m jobs bring one machine after the other to 3m - 1. */
  lemma {:induction false} SecondRound(m: nat, n: nat)
    requires 0 < m <= n <= 2 * m
    ensures var ws := Jobs(m, n);
            forall k :: 0 <= k < m ==>
              Load(ws, Greedy(ws, m), k) == if Doubled(m, n, k) then 3 * m - 1 else Weight(m, k)
  {
    hide Load, Greedy, Doubled, Weight;
    if n == m {
      FirstRound(m, m);
      NoneDoubled(m);
    } else {
      SecondRound(m, n - 1);
      JobsNext(m, n - 1);
      var here := GreedyStep(Jobs(m, n - 1), Weight(m, n - 1), m);
      var next := NextDoubled(m, n - 1);
      assert here == next;
    }
  }

  /** A plan of equal loads: job j with job 2m - 3 - j, and the three of m together. */
  function Partner(m: nat, j: nat): nat
    requires m > 0
  {
    if j < m - 1 then j else if j < 2 * m - 2 then 2 * m - 3 - j else m - 1
  }

  function Pairing(m: nat, n: nat): (r: seq<nat>)
    requires m > 0
    ensures |r| == n
  {
    seq(n, j requires j >= 0 => Partner(m, j))
  }

  lemma PairingNext(m: nat, n: nat, k: nat)
    requires m > 0
    ensures Load(Jobs(m, n + 1), Pairing(m, n + 1), k)
            == Load(Jobs(m, n), Pairing(m, n), k) + (if Partner(m, n) == k then Weight(m, n) else 0)
  {
    hide Weight, Partner;
    assert Jobs(m, n + 1)[..n] == Jobs(m, n) && Pairing(m, n + 1)[..n] == Pairing(m, n);
  }

  /** What the first n jobs put on machine k. */
  function PairLoad(m: nat, n: nat, k: nat): nat
    requires k < m
  {
    if k == m - 1
    then if n <= 2 * m - 2 then 0 else if n == 2 * m - 1 then m else if n == 2 * m then 2 * m else 3 * m
    else (if k < n then Weight(m, k) else 0) + (if 2 * m - 3 - k < n then Weight(m, 2 * m - 3 - k) else 0)
  }

  lemma PairLoadNext(m: nat, n: nat, k: nat)
    requires k < m && n <= 2 * m
    ensures PairLoad(m, n + 1, k) == PairLoad(m, n, k) + (if Partner(m, n) == k then Weight(m, n) else 0)
  {
    if k == m - 1 {
      if n >= 2 * m - 2 {
        assert Weight(m, n) == m;
      }
    } else {
      hide Weight;
    }
  }

  lemma {:induction false} PairingLoads(m: nat, n: nat, k: nat)
    requires k < m && n <= 2 * m + 1
    ensures Load(Jobs(m, n), Pairing(m, n), k) == PairLoad(m, n, k)
  {
    if n > 0 {
      hide *;
      PairingLoads(m, n - 1, k);
      PairingNext(m, n - 1, k);
      PairLoadNext(m, n - 1, k);
    }
  }

  /** The ratio cannot be lowered: for any number of machines these jobs attain it. */
  lemma BoundIsAttained(m: nat)
    requires m > 0
    ensures var ws, other := Jobs(m, 2 * m + 1), Pairing(m, 2 * m + 1);
            && Descending(ws) && IsPlan(other, m) && Within(ws, other, m, 3 * m)
            && 3 * m * Load(ws, Greedy(ws, m), 0) == (4 * m - 1) * (3 * m)
  {
    hide Load, Greedy;
    var ws, other := Jobs(m, 2 * m + 1), Pairing(m, 2 * m + 1);
    forall k | 0 <= k < m ensures Load(ws, other, k) <= 3 * m {
      PairingLoads(m, 2 * m + 1, k);
    }
    SecondRound(m, 2 * m);
    JobsNext(m, 2 * m);
    var here := GreedyStep(Jobs(m, 2 * m), m, m);
    assert Doubled(m, 2 * m, 0) && Doubled(m, 2 * m, here);
    assert here == 0;
    assert Load(ws, Greedy(ws, m), 0) == 4 * m - 1;
  }

  /** Empty machines are filled first, in order. */
  lemma {:induction false} GreedyFillsEmptyFirst(ws: seq<nat>, m: nat)
    requires m > 0 && forall i | 0 <= i < |ws| :: ws[i] > 0
    ensures forall k :: 0 <= k < m ==> (Load(ws, Greedy(ws, m), k) > 0 <==> k < |ws|)
  {
    hide Load, Greedy;
    if ws == [] {
      NoLoad(m);
    } else {
      var n := |ws| - 1;
      var before, w := ws[..n], ws[n];
      assert before + [w] == ws;
      GreedyFillsEmptyFirst(before, m);
      var here := GreedyStep(before, w, m);
      if n < m {
        assert Load(before, Greedy(before, m), n) == 0;
        assert here == n;
      }
    }
  }
}
