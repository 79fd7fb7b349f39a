/** scripts/ci_source_shards.py, `assignment`: which shard runs which test file. */
module ShardPlan {
  import opened Outcome
  import opened Sorting
  import opened LptBound

  datatype PlanError = InvalidCollection | EmptyShard

  /** The part of a test id before the first "::", or all of it. */
  function FileOf(node: string): string {
    if |node| < 2 then node
    else if node[..2] == "::" then ""
    else [node[0]] + FileOf(node[1..])
  }

  predicate SeparatorAt(node: string, k: nat) {
    k + 2 <= |node| && node[k] == ':' && node[k + 1] == ':'
  }

  /** The test lies in this file: the id is the file, or the file before its first "::". */
  ghost predicate InFile(node: string, file: string) {
    || (&& SeparatorAt(node, |file|) && node[..|file|] == file
        && forall k :: 0 <= k < |file| ==> !SeparatorAt(node, k))
    || (node == file && forall k :: 0 <= k < |node| ==> !SeparatorAt(node, k))
  }

  lemma {:induction false} FileIsPrefix(node: string)
    ensures InFile(node, FileOf(node))
  {
    if |node| >= 2 && node[..2] != "::" {
      var rest := node[1..];
      var file := FileOf(node);
      FileIsPrefix(rest);
      assert file[1..] == FileOf(rest) && file == [node[0]] + FileOf(rest);
      forall k | 0 <= k < |file| ensures !SeparatorAt(node, k) {
        if k > 0 { assert !SeparatorAt(rest, k - 1); } else { assert node[..2] == [node[0], node[1]]; }
      }
      if SeparatorAt(rest, |FileOf(rest)|) {
        assert node[..|file|] == [node[0]] + rest[..|file| - 1];
      }
    } else if |node| >= 2 {
      assert node[0] == node[..2][0] && node[1] == node[..2][1];
    }
  }

  /** Every test lies in exactly one file. */
  lemma FileOfIs(node: string, file: string)
    ensures FileOf(node) == file <==> InFile(node, file)
  {
    FileIsPrefix(node);
    var own := FileOf(node);
    assert InFile(node, file) ==> (SeparatorAt(node, |file|) || node == file);
    assert SeparatorAt(node, |own|) || node == own;
  }

  /** How many of the tests lie in the files `names`. */
  function CountIn(nodes: seq<string>, names: set<string>): nat {
    if nodes == [] then 0
    else CountIn(nodes[..|nodes| - 1], names) + (if FileOf(nodes[|nodes| - 1]) in names then 1 else 0)
  }

  function Tests(nodes: seq<string>, name: string): nat {
    CountIn(nodes, {name})
  }

  /** The files of the tests, in order of first appearance. */
  function Files(nodes: seq<string>): (r: seq<string>)
    ensures Distinct(r)
    ensures forall name :: name in r <==> exists i :: 0 <= i < |nodes| && FileOf(nodes[i]) == name
  {
    if nodes == [] then []
    else
      var n := |nodes| - 1;
      var earlier := Files(nodes[..n]);
      assert forall i :: 0 <= i < n ==> nodes[..n][i] == nodes[i];
      if FileOf(nodes[n]) in earlier then earlier else earlier + [FileOf(nodes[n])]
  }

  /** Most tests first, then by name. */
  predicate HeavierFirst(nodes: seq<string>, a: string, b: string) {
    Tests(nodes, a) > Tests(nodes, b) || (Tests(nodes, a) == Tests(nodes, b) && StringLe(a, b))
  }

  function FileOrder(nodes: seq<string>): (r: seq<string>)
    ensures multiset(r) == multiset(Files(nodes)) && |r| == |Files(nodes)|
  {
    Sort((a, b) => HeavierFirst(nodes, a, b), Files(nodes))
  }

  function Weights(nodes: seq<string>, order: seq<string>): (r: seq<nat>)
    ensures |r| == |order| && forall i :: 0 <= i < |r| ==> r[i] == Tests(nodes, order[i])
  {
    seq(|order|, i requires 0 <= i < |order| => Tests(nodes, order[i]))
  }

  /** The map that sends each listed file to its place in `plan`. */
  function PlanMap(order: seq<string>, plan: seq<nat>): (r: map<string, nat>)
    requires |order| == |plan|
  {
    if order == [] then map[]
    else
      var n := |order| - 1;
      PlanMap(order[..n], plan[..n])[order[n] := plan[n]]
  }

  predicate ValidCollection(nodes: seq<string>, count: int) {
    1 <= count <= 32 && nodes != [] && Distinct(nodes)
  }

  /** The plan: an error exactly when there are fewer files than shards, else the greedy
      schedule of the files by size. */
  function Assigned(nodes: seq<string>, count: int): Result<map<string, nat>, PlanError> {
    if !ValidCollection(nodes, count) then Err(InvalidCollection)
    else if |Files(nodes)| < count then Err(EmptyShard)
    else
      var order := FileOrder(nodes);
      Ok(PlanMap(order, Greedy(Weights(nodes, order), count)))
  }

  // ----- counting tests by file -----

  lemma {:induction false} CountInAdds(nodes: seq<string>, names: set<string>, name: string)
    requires name !in names
    ensures CountIn(nodes, names + {name}) == CountIn(nodes, names) + Tests(nodes, name)
  {
    if nodes != [] {
      CountInAdds(nodes[..|nodes| - 1], names, name);
    }
  }

  lemma {:induction false} CountInNone(nodes: seq<string>)
    ensures CountIn(nodes, {}) == 0
  {
    if nodes != [] {
      CountInNone(nodes[..|nodes| - 1]);
    }
  }

  lemma {:induction false} EveryFileHasTests(nodes: seq<string>, name: string)
    ensures Tests(nodes, name) > 0 <==> name in Files(nodes)
  {
    if nodes != [] {
      EveryFileHasTests(nodes[..|nodes| - 1], name);
    }
  }

  lemma {:induction false} CountInSplit(a: seq<string>, b: seq<string>, names: set<string>)
    ensures CountIn(a + b, names) == CountIn(a, names) + CountIn(b, names)
  {
    if b == [] {
      assert a + b == a;
    } else {
      var n := |b| - 1;
      CountInSplit(a, b[..n], names);
      assert (a + b)[..|a + b| - 1] == a + b[..n];
    }
  }

  /** The number of tests of a file does not depend on their order. */
  lemma {:induction false} CountInPermuted(a: seq<string>, b: seq<string>, names: set<string>)
    requires multiset(a) == multiset(b)
    ensures CountIn(a, names) == CountIn(b, names)
  {
    hide FileOf;
    SameMembers(a, b);
    if a != [] {
      var n := |a| - 1;
      assert a == a[..n] + [a[n]];
      assert a[n] in b;
      var i :| 0 <= i < |b| && b[i] == a[n];
      var rest := b[..i] + b[i + 1..];
      WithoutOne(b, i);
      assert multiset(a[..n]) == multiset(a) - multiset{a[n]};
      CountInPermuted(a[..n], rest, names);
      CountInWithout(b, i, names);
    }
  }

  lemma WithoutOne(b: seq<string>, i: nat)
    requires i < |b|
    ensures multiset(b[..i] + b[i + 1..]) == multiset(b) - multiset{b[i]}
  {
    assert b == b[..i] + [b[i]] + b[i + 1..];
  }

  lemma CountInWithout(b: seq<string>, i: nat, names: set<string>)
    requires i < |b|
    ensures CountIn(b, names) == CountIn(b[..i] + b[i + 1..], names) + (if FileOf(b[i]) in names then 1 else 0)
  {
    hide FileOf;
    assert b == b[..i] + [b[i]] + b[i + 1..];
    CountInSplit(b[..i], b[i + 1..], names);
    CountInSplit(b[..i], [b[i]], names);
    CountInSplit(b[..i] + [b[i]], b[i + 1..], names);
    assert [b[i]][..0] == [];
  }

  lemma HeavierFirstIsTotalOrder(nodes: seq<string>)
    ensures TotalOrder((a, b) => HeavierFirst(nodes, a, b))
  {
    StringLeIsTotalOrder();
  }

  lemma FileOrderFacts(nodes: seq<string>)
    ensures var order := FileOrder(nodes); var ws := Weights(nodes, order);
            && Distinct(order) && Descending(ws)
            && (forall name :: name in order <==> name in Files(nodes))
            && (forall i :: 0 <= i < |ws| ==> ws[i] > 0)
  {
    var order := FileOrder(nodes);
    var le := (a, b) => HeavierFirst(nodes, a, b);
    HeavierFirstIsTotalOrder(nodes);
    SortSorts(le, Files(nodes));
    SameMembers(order, Files(nodes));
    DistinctFromMultiset(Files(nodes), order);
    forall i, j | 0 <= i < j < |order| ensures Tests(nodes, order[i]) >= Tests(nodes, order[j]) {
      assert le(order[i], order[j]);
    }
    forall i | 0 <= i < |order| ensures Tests(nodes, order[i]) > 0 {
      assert order[i] in order;
      EveryFileHasTests(nodes, order[i]);
    }
  }

  lemma SameHeaviness(a: seq<string>, b: seq<string>)
    requires multiset(a) == multiset(b)
    ensures forall x, y :: HeavierFirst(a, x, y) == HeavierFirst(b, x, y)
  {
    hide StringLe;
    forall name ensures Tests(a, name) == Tests(b, name) { CountInPermuted(a, b, {name}); }
  }

  lemma FileOrderPermuted(a: seq<string>, b: seq<string>)
    requires multiset(a) == multiset(b)
    ensures FileOrder(a) == FileOrder(b) && |Files(a)| == |Files(b)|
  {
    hide Sort, StringLe, CountIn, HeavierFirst, Files, TotalOrder;
    var la, lb := (x, y) => HeavierFirst(a, x, y), (x, y) => HeavierFirst(b, x, y);
    FilesPermuted(a, b);
    DistinctMultiset(Files(a));
    DistinctMultiset(Files(b));
    assert multiset(Files(a)) == multiset(Files(b));
    SameMembers(Files(a), Files(b));
    SameHeaviness(a, b);
    HeavierFirstIsTotalOrder(a);
    HeavierFirstIsTotalOrder(b);
    SortSorts(la, Files(a));
    SortSorts(lb, Files(b));
    var oa := FileOrder(a);
    forall i, j | 0 <= i < j < |oa| ensures lb(oa[i], oa[j]) { assert la(oa[i], oa[j]); }
    SortedUnique(lb, oa, FileOrder(b));
  }

  /** The plan does not depend on the order in which the tests were collected. */
  lemma PlanIgnoresOrder(a: seq<string>, b: seq<string>, count: int)
    requires multiset(a) == multiset(b)
    ensures Assigned(a, count) == Assigned(b, count)
  {
    SameMembers(a, b);
    if Distinct(a) { DistinctFromMultiset(a, b); }
    if Distinct(b) { DistinctFromMultiset(b, a); }
    FileOrderPermuted(a, b);
    var order := FileOrder(a);
    forall name ensures Tests(a, name) == Tests(b, name) { CountInPermuted(a, b, {name}); }
    assert Weights(a, order) == Weights(b, order);
  }

  lemma FilesPermuted(a: seq<string>, b: seq<string>)
    requires multiset(a) == multiset(b)
    ensures forall name :: name in Files(a) <==> name in Files(b)
  {
    SameMembers(a, b);
    forall name | name in Files(a) ensures name in Files(b) {
      var i :| 0 <= i < |a| && FileOf(a[i]) == name;
      assert a[i] in b;
    }
    forall name | name in Files(b) ensures name in Files(a) {
      var i :| 0 <= i < |b| && FileOf(b[i]) == name;
      assert b[i] in a;
    }
  }

  // ----- what a plan makes a shard run -----

  ghost predicate Covers(plan: map<string, nat>, nodes: seq<string>, count: int) {
    forall node :: node in nodes ==> FileOf(node) in plan && plan[FileOf(node)] < count
  }

  /** The tests that shard `index` runs under a plan. */
  function Selected(nodes: seq<string>, plan: map<string, nat>, index: int): seq<string> {
    if nodes == [] then []
    else
      var n := |nodes| - 1;
      var earlier := Selected(nodes[..n], plan, index);
      if FileOf(nodes[n]) in plan && plan[FileOf(nodes[n])] == index then earlier + [nodes[n]] else earlier
  }

  lemma {:induction false} SelectedHolds(nodes: seq<string>, plan: map<string, nat>, index: int, x: string)
    ensures multiset(Selected(nodes, plan, index))[x]
            == if FileOf(x) in plan && plan[FileOf(x)] == index then multiset(nodes)[x] else 0
    ensures x in Selected(nodes, plan, index) <==> x in nodes && FileOf(x) in plan && plan[FileOf(x)] == index
  {
    hide FileOf;
    if nodes != [] {
      var n := |nodes| - 1;
      SelectedHolds(nodes[..n], plan, index, x);
      assert nodes == nodes[..n] + [nodes[n]];
    }
    assert x in nodes <==> multiset(nodes)[x] > 0;
    assert x in Selected(nodes, plan, index) <==> multiset(Selected(nodes, plan, index))[x] > 0;
  }

  /** The selection goes through the tests in their order, one by one. */
  lemma {:induction false} SelectedSplit(a: seq<string>, b: seq<string>, plan: map<string, nat>, index: int)
    ensures Selected(a + b, plan, index) == Selected(a, plan, index) + Selected(b, plan, index)
    ensures |b| == 1 ==>
              Selected(b, plan, index) == if FileOf(b[0]) in plan && plan[FileOf(b[0])] == index then b else []
  {
    hide FileOf;
    if b == [] {
      assert a + b == a;
    } else {
      var n := |b| - 1;
      SelectedSplit(a, b[..n], plan, index);
      assert (a + b)[..|a + b| - 1] == a + b[..n];
    }
  }

  lemma {:induction false} SelectedCount(nodes: seq<string>, plan: map<string, nat>, index: int, names: set<string>)
    requires forall i :: 0 <= i < |nodes| ==>
               (FileOf(nodes[i]) in names <==> FileOf(nodes[i]) in plan && plan[FileOf(nodes[i])] == index)
    ensures |Selected(nodes, plan, index)| == CountIn(nodes, names)
  {
    if nodes != [] {
      var n := |nodes| - 1;
      forall i | 0 <= i < n
        ensures FileOf(nodes[..n][i]) in names
                <==> FileOf(nodes[..n][i]) in plan && plan[FileOf(nodes[..n][i])] == index
      {
        assert nodes[..n][i] == nodes[i];
      }
      SelectedCount(nodes[..n], plan, index, names);
    }
  }

  /** The load of a machine, counted in tests of the files assigned to it. */
  lemma {:induction false} LoadCountsTests(nodes: seq<string>, order: seq<string>, places: seq<nat>, k: nat)
    requires |order| == |places| && Distinct(order)
    ensures Load(Weights(nodes, order), places, k)
            == CountIn(nodes, set i | 0 <= i < |order| && places[i] == k :: order[i])
  {
    var names := set i | 0 <= i < |order| && places[i] == k :: order[i];
    if order == [] {
      assert names == {};
      CountInNone(nodes);
    } else {
      var n := |order| - 1;
      var earlier := set i | 0 <= i < n && places[..n][i] == k :: order[..n][i];
      LoadCountsTests(nodes, order[..n], places[..n], k);
      assert Weights(nodes, order)[..n] == Weights(nodes, order[..n]);
      if places[n] == k {
        assert names == earlier + {order[n]} by {
          forall x | x in names ensures x in earlier + {order[n]} {
            var i :| 0 <= i < |order| && places[i] == k && order[i] == x;
            if i < n { assert places[..n][i] == k && order[..n][i] == x; }
          }
        }
        CountInAdds(nodes, earlier, order[n]);
      } else {
        assert names == earlier by {
          forall x | x in names ensures x in earlier {
            var i :| 0 <= i < |order| && places[i] == k && order[i] == x;
            assert places[..n][i] == k && order[..n][i] == x;
          }
        }
      }
    }
  }

  /** A shard's share of the tests is its machine's load. */
  lemma ShareIsLoad(nodes: seq<string>, plan: map<string, nat>, places: seq<nat>, k: nat)
    requires |places| == |FileOrder(nodes)|
    requires forall i :: 0 <= i < |places| ==>
               FileOrder(nodes)[i] in plan && plan[FileOrder(nodes)[i]] == places[i]
    ensures |Selected(nodes, plan, k)| == Load(Weights(nodes, FileOrder(nodes)), places, k)
  {
    var order := FileOrder(nodes);
    FileOrderFacts(nodes);
    var names := set i | 0 <= i < |order| && places[i] == k :: order[i];
    forall i | 0 <= i < |nodes|
      ensures FileOf(nodes[i]) in names <==> FileOf(nodes[i]) in plan && plan[FileOf(nodes[i])] == k
    {
      var name := FileOf(nodes[i]);
      assert name in Files(nodes);
      assert name in order;
      var j :| 0 <= j < |order| && order[j] == name;
    }
    SelectedCount(nodes, plan, k, names);
    LoadCountsTests(nodes, order, places, k);
  }

  /** The plan is near optimal among all plans that keep files whole: if another plan
      gives every shard at most `t` tests, this one gives none more than
      (4 count - 1) / (3 count) times `t`. */
  lemma PlanIsNearOptimal(nodes: seq<string>, count: int, other: map<string, nat>, t: nat, k: nat)
    requires Assigned(nodes, count).Ok? && Covers(other, nodes, count)
    requires forall i :: 0 <= i < count ==> |Selected(nodes, other, i)| <= t
    requires k < count
    ensures 3 * count * |Selected(nodes, Assigned(nodes, count).value, k)| <= (4 * count - 1) * t
  {
    var order := FileOrder(nodes);
    var ws := Weights(nodes, order);
    FileOrderFacts(nodes);
    forall i | 0 <= i < |order| ensures order[i] in other && other[order[i]] < count {
      assert order[i] in Files(nodes);
      var j :| 0 <= j < |nodes| && FileOf(nodes[j]) == order[i];
      assert nodes[j] in nodes;
    }
    var places := seq(|order|, i requires 0 <= i < |order| => other[order[i]]);
    forall i | 0 <= i < count ensures Load(ws, places, i) <= t {
      ShareIsLoad(nodes, other, places, i);
      assert |Selected(nodes, other, i)| <= t;
    }
    GreedyIsNearOptimal(ws, places, count, t);
    PlanMapPlaces(order, Greedy(ws, count));
    ShareIsLoad(nodes, Assigned(nodes, count).value, Greedy(ws, count), k);
  }

  /** The plan covers the collection and leaves no shard without a test. */
  lemma PlanFillsEveryShard(nodes: seq<string>, count: int)
    requires Assigned(nodes, count).Ok?
    ensures Covers(Assigned(nodes, count).value, nodes, count)
    ensures forall k :: 0 <= k < count ==> Selected(nodes, Assigned(nodes, count).value, k) != []
  {
    var order := FileOrder(nodes);
    var ws := Weights(nodes, order);
    var plan := Assigned(nodes, count).value;
    FileOrderFacts(nodes);
    PlanMapPlaces(order, Greedy(ws, count));
    GreedyFillsEmptyFirst(ws, count);
    forall k | 0 <= k < count ensures Selected(nodes, plan, k) != [] {
      ShareIsLoad(nodes, plan, Greedy(ws, count), k);
      assert Load(ws, Greedy(ws, count), k) > 0;
    }
    forall node | node in nodes ensures FileOf(node) in plan && plan[FileOf(node)] < count {
      var i :| 0 <= i < |nodes| && nodes[i] == node;
      assert FileOf(node) in Files(nodes);
      assert FileOf(node) in order;
      var j :| 0 <= j < |order| && order[j] == FileOf(node);
    }
  }

  lemma {:induction false} PlanMapPlaces(order: seq<string>, plan: seq<nat>)
    requires |order| == |plan|
    ensures forall name :: name in PlanMap(order, plan) <==> name in order
    ensures Distinct(order) ==>
              forall i :: 0 <= i < |order| ==>
                order[i] in PlanMap(order, plan) && PlanMap(order, plan)[order[i]] == plan[i]
  {
    if order != [] {
      var n := |order| - 1;
      assert order == order[..n] + [order[n]];
      PlanMapPlaces(order[..n], plan[..n]);
    }
  }

  // ----- what a plan is, in terms of the ids -----

  /** A plan's keys are the files of the tests. */
  lemma PlanKeys(nodes: seq<string>, count: int)
    requires Assigned(nodes, count).Ok?
    ensures var plan := Assigned(nodes, count).value;
            && (forall node, file :: node in nodes && InFile(node, file) ==> file in plan && plan[file] < count)
            && (forall file :: file in plan ==> exists node :: node in nodes && InFile(node, file))
  {
    hide InFile, FileOf, Greedy;
    var order := FileOrder(nodes);
    var places := Greedy(Weights(nodes, order), count);
    var plan := Assigned(nodes, count).value;
    FileOrderFacts(nodes);
    PlanMapPlaces(order, places);
    forall node, file | node in nodes && InFile(node, file) ensures file in plan && plan[file] < count {
      FileOfIs(node, file);
      PlanFillsEveryShard(nodes, count);
    }
    forall file | file in plan ensures exists node :: node in nodes && InFile(node, file) {
      assert file in Files(nodes);
      var i :| 0 <= i < |nodes| && FileOf(nodes[i]) == file;
      FileOfIs(nodes[i], file);
      assert nodes[i] in nodes;
    }
  }

  lemma {:induction false} ImageIsSmall(names: seq<string>, other: map<string, nat>)
    ensures |set name | name in names && name in other :: other[name]| <= |names|
  {
    var image := set name | name in names && name in other :: other[name];
    if names == [] {
      assert image == {};
    } else {
      var n := |names| - 1;
      ImageIsSmall(names[..n], other);
      var earlier := set name | name in names[..n] && name in other :: other[name];
      assert names == names[..n] + [names[n]];
      if names[n] in other {
        assert image == earlier + {other[names[n]]};
      } else {
        assert image == earlier;
      }
    }
  }

  lemma {:induction false} SomeMissing(image: set<nat>, count: nat) returns (k: nat)
    requires |image| < count
    ensures k < count && k !in image
  {
    k := count - 1;
    if k in image {
      k := SomeMissing(image - {k}, k);
    }
  }

  /** Where the plan is refused for an empty shard, every plan by files leaves one. */
  lemma EmptyShardIsForced(nodes: seq<string>, count: int, other: map<string, nat>) returns (k: nat)
    requires Assigned(nodes, count) == Err(EmptyShard)
    ensures k < count
    ensures forall node, file :: node in nodes && InFile(node, file) && file in other ==> other[file] != k
  {
    hide InFile, FileOf;
    var names := Files(nodes);
    ImageIsSmall(names, other);
    k := SomeMissing(set name | name in names && name in other :: other[name], count);
    forall node, file | node in nodes && InFile(node, file) && file in other ensures other[file] != k {
      FileOfIs(node, file);
      var i :| 0 <= i < |nodes| && nodes[i] == node;
      assert FileOf(nodes[i]) == file;
      assert file in names;
    }
  }

  /** The file `a` is placed before the file `b`: it has more tests, or as many and comes first
      by name. */
  predicate PlacedBefore(nodes: seq<string>, a: string, b: string) {
    Tests(nodes, a) > Tests(nodes, b) || (Tests(nodes, a) == Tests(nodes, b) && a != b && StringLe(a, b))
  }

  /** The tests of shard `k` in files placed before `file`. */
  function LoadBefore(nodes: seq<string>, plan: map<string, nat>, file: string, k: nat): nat {
    CountIn(nodes, set a | a in plan && plan[a] == k && PlacedBefore(nodes, a, file))
  }

  /** The plan sends every file to the first of the shards that the files before it have loaded
      least. */
  lemma PlanIsGreedy(nodes: seq<string>, count: int, file: string, k: nat)
    requires Assigned(nodes, count).Ok? && file in Assigned(nodes, count).value && k < count
    ensures var plan := Assigned(nodes, count).value;
            && LoadBefore(nodes, plan, file, plan[file]) <= LoadBefore(nodes, plan, file, k)
            && (k < plan[file] ==> LoadBefore(nodes, plan, file, plan[file]) < LoadBefore(nodes, plan, file, k))
  {
    hide Tests, Greedy, Loads, Least, Load, StringLe;
    var order := FileOrder(nodes);
    var ws := Weights(nodes, order);
    var places := Greedy(ws, count);
    var plan := Assigned(nodes, count).value;
    FileOrderFacts(nodes);
    PlanMapPlaces(order, places);
    var i :| 0 <= i < |order| && order[i] == file;
    GreedyAt(ws, count, i, k);
    LoadsBefore(nodes, order, plan, places, i, k);
    LoadsBefore(nodes, order, plan, places, i, places[i]);
  }

  /** The greedy plan's place for job `i` is the first least loaded by those before. */
  lemma {:induction false} GreedyAt(ws: seq<nat>, m: nat, i: nat, k: nat)
    requires i < |ws| && k < m
    ensures var plan := Greedy(ws, m); var before := ws[..i];
            && Load(before, plan[..i], plan[i]) <= Load(before, plan[..i], k)
            && (k < plan[i] ==> Load(before, plan[..i], plan[i]) < Load(before, plan[..i], k))
  {
    var n := |ws| - 1;
    if i < n {
      GreedyAt(ws[..n], m, i, k);
      assert ws[..n][..i] == ws[..i] && Greedy(ws, m)[..i] == Greedy(ws[..n], m)[..i];
    } else {
      var loads := Loads(ws[..n], Greedy(ws[..n], m), m);
      LoadsAreLoad(ws[..n], Greedy(ws[..n], m), m);
      assert Greedy(ws, m)[..n] == Greedy(ws[..n], m);
      assert IsLeast(loads, Least(loads));
    }
  }

  /** What the greedy loop has put on a shard before the file at `i`. */
  lemma LoadsBefore(nodes: seq<string>, order: seq<string>, plan: map<string, nat>, places: seq<nat>, i: nat, k: nat)
    requires order == FileOrder(nodes) && |places| == |order| && i < |order|
    requires forall name :: name in plan <==> name in order
    requires forall j :: 0 <= j < |order| ==> order[j] in plan && plan[order[j]] == places[j]
    ensures Load(Weights(nodes, order)[..i], places[..i], k) == LoadBefore(nodes, plan, order[i], k)
  {
    hide *;
    var early := order[..i];
    EarlyWeights(nodes, order, i);
    LoadCountsTests(nodes, early, places[..i], k);
    EarlyNames(nodes, order, plan, places, i, k);
    LoadBeforeIs(nodes, plan, order[i], k);
  }

  lemma LoadBeforeIs(nodes: seq<string>, plan: map<string, nat>, file: string, k: nat)
    ensures LoadBefore(nodes, plan, file, k)
            == CountIn(nodes, set a | a in plan && plan[a] == k && PlacedBefore(nodes, a, file))
  {
  }

  lemma EarlyWeights(nodes: seq<string>, order: seq<string>, i: nat)
    requires order == FileOrder(nodes) && i < |order|
    ensures Weights(nodes, order)[..i] == Weights(nodes, order[..i]) && Distinct(order[..i])
  {
    hide Tests, FileOrder;
    FileOrderFacts(nodes);
  }

  lemma EarlyNames(nodes: seq<string>, order: seq<string>, plan: map<string, nat>, places: seq<nat>, i: nat, k: nat)
    requires order == FileOrder(nodes) && |places| == |order| && i < |order|
    requires forall name :: name in plan <==> name in order
    requires forall j :: 0 <= j < |order| ==> order[j] in plan && plan[order[j]] == places[j]
    ensures (set j | 0 <= j < |order[..i]| && places[..i][j] == k :: order[..i][j])
            == (set a | a in plan && plan[a] == k && PlacedBefore(nodes, a, order[i]))
  {
    hide PlacedBefore, FileOrder;
    var names := set j | 0 <= j < |order[..i]| && places[..i][j] == k :: order[..i][j];
    var before := set a | a in plan && plan[a] == k && PlacedBefore(nodes, a, order[i]);
    forall a | a in names ensures a in before {
      var j :| 0 <= j < i && places[..i][j] == k && order[..i][j] == a;
      OrderIsBefore(nodes, j, i);
      assert order[j] == a;
    }
    forall a | a in before ensures a in names {
      var j :| 0 <= j < |order| && order[j] == a;
      if j >= i { OrderIsBefore(nodes, i, j); }
      assert places[..i][j] == k && order[..i][j] == a;
    }
  }

  lemma OrderIsBefore(nodes: seq<string>, i: nat, j: nat)
    requires i <= j < |FileOrder(nodes)|
    ensures var order := FileOrder(nodes);
            && (i < j ==> PlacedBefore(nodes, order[i], order[j]))
            && !PlacedBefore(nodes, order[j], order[i])
  {
    hide Tests;
    var order := FileOrder(nodes);
    var le := (a, b) => HeavierFirst(nodes, a, b);
    HeavierFirstIsTotalOrder(nodes);
    SortSorts(le, Files(nodes));
    FileOrderFacts(nodes);
    StringLeTotal(order[i], order[j]);
    if i < j { assert le(order[i], order[j]); }
  }

  /** A file's number of tests is what it says, and so is that of several. */
  lemma {:induction false} CountIsSize(nodes: seq<string>, names: set<string>)
    requires Distinct(nodes)
    ensures CountIn(nodes, names) == |TestsIn(nodes, names)|
  {
    hide FileOf, TestsIn;
    TestsInNext(nodes, names);
    if nodes != [] {
      CountIsSize(nodes[..|nodes| - 1], names);
    }
  }

  lemma TestsInNext(nodes: seq<string>, names: set<string>)
    requires Distinct(nodes)
    ensures if nodes == [] then TestsIn(nodes, names) == {}
            else
              var n := |nodes| - 1;
              && nodes[n] !in TestsIn(nodes[..n], names)
              && TestsIn(nodes, names)
                 == TestsIn(nodes[..n], names) + (if FileOf(nodes[n]) in names then {nodes[n]} else {})
  {
    hide FileOf;
    if nodes != [] {
      var n := |nodes| - 1;
      assert nodes == nodes[..n] + [nodes[n]] && nodes[n] !in nodes[..n];
    }
  }

  function TestsIn(nodes: seq<string>, names: set<string>): set<string> {
    set node | node in nodes && FileOf(node) in names
  }

  /** The tests of one file cannot fill two shards. */
  lemma OneFileIsNotSplit(nodes: seq<string>, file: string, count: int)
    requires ValidCollection(nodes, count) && count > 1
    requires forall node :: node in nodes ==> InFile(node, file)
    ensures Assigned(nodes, count) == Err(EmptyShard)
  {
    hide InFile, FileOf;
    var names := Files(nodes);
    forall name | name in names ensures name == file {
      var i :| 0 <= i < |nodes| && FileOf(nodes[i]) == name;
      assert nodes[i] in nodes;
      FileOfIs(nodes[i], file);
    }
    FirstTwoDiffer(names);
  }

  lemma FirstTwoDiffer(names: seq<string>)
    requires Distinct(names)
    ensures |names| >= 2 ==> names[0] in names && names[1] in names && names[0] != names[1]
  {
  }

  /** What the result of `assignment` says of the ids. */
  lemma AssignedMeans(nodes: seq<string>, count: int)
    ensures var r := Assigned(nodes, count);
            && (r == Err(InvalidCollection) <==>
                 !(1 <= count <= 32) || nodes == [] || exists i, j :: 0 <= i < j < |nodes| && nodes[i] == nodes[j])
            && (r.Ok? ==> forall node, file :: node in nodes && InFile(node, file) ==>
                            file in r.value && r.value[file] < count)
            && (r.Ok? ==> forall file :: file in r.value ==> exists node :: node in nodes && InFile(node, file))
  {
    hide InFile;
    if Assigned(nodes, count).Ok? { PlanKeys(nodes, count); }
  }

  /** The counter over the tests' files. */
  method CountFiles(nodes: seq<string>) returns (files: map<string, nat>, names: seq<string>)
    ensures names == Files(nodes)
    ensures forall name :: name in files <==> name in names
    ensures forall name :: name in files ==> files[name] == Tests(nodes, name)
  {
    files, names := map[], [];
    for i := 0 to |nodes|
      invariant names == Files(nodes[..i])
      invariant forall name :: name in files <==> name in names
      invariant forall name :: name in files ==> files[name] == Tests(nodes[..i], name)
    {
      assert nodes[..i + 1][..i] == nodes[..i];
      var name := FileOf(nodes[i]);
      EveryFileHasTests(nodes[..i], name);
      if name in files {
        files := files[name := files[name] + 1];
      } else {
        files, names := files[name := 1], names + [name];
      }
    }
    assert nodes[..|nodes|] == nodes;
  }

  /** Before the greedy loop. */
  lemma PlaceNone(m: nat)
    requires m > 0
    ensures Greedy([], m) == [] && Loads([], [], m) == seq(m, _ => 0) && PlanMap([], []) == map[]
  {
  }

  /** One turn of the greedy loop. */
  lemma PlaceNext(order: seq<string>, name: string, ws: seq<nat>, w: nat, m: nat, index: nat)
    requires m > 0 && |ws| == |order| && index == Least(Loads(ws, Greedy(ws, m), m))
    ensures Loads(ws + [w], Greedy(ws + [w], m), m)
            == Loads(ws, Greedy(ws, m), m)[index := Loads(ws, Greedy(ws, m), m)[index] + w]
    ensures PlanMap(order + [name], Greedy(ws + [w], m)) == PlanMap(order, Greedy(ws, m))[name := index]
  {
    hide Least, Loads, PlanMap;
    GreedyNext(ws, w, m);
    LoadsNext(ws, w, Greedy(ws, m), index, m);
    PlanMapNext(order, name, Greedy(ws, m), index);
  }

  lemma PlanMapNext(order: seq<string>, name: string, plan: seq<nat>, index: nat)
    requires |plan| == |order|
    ensures PlanMap(order + [name], plan + [index]) == PlanMap(order, plan)[name := index]
  {
    assert (order + [name])[..|order|] == order && (plan + [index])[..|order|] == plan;
  }

  function Sizes(order: seq<string>, files: map<string, nat>): (r: seq<nat>)
    requires forall i :: 0 <= i < |order| ==> order[i] in files
    ensures |r| == |order| && forall i :: 0 <= i < |r| ==> r[i] == files[order[i]]
  {
    seq(|order|, i requires 0 <= i < |order| => files[order[i]])
  }

  /** The greedy loop over the shards' loads. */
  method PlaceFiles(order: seq<string>, files: map<string, nat>, count: nat)
    returns (result: map<string, nat>, loads: seq<nat>)
    requires count > 0 && forall i :: 0 <= i < |order| ==> order[i] in files
    ensures var ws := Sizes(order, files); var plan := Greedy(ws, count);
            result == PlanMap(order, plan) && loads == Loads(ws, plan, count)
  {
    hide Least, Loads, Greedy, PlanMap;
    ghost var ws := Sizes(order, files);
    PlaceNone(count);
    assert order[..0] == [] && ws[..0] == [];
    result, loads := map[], seq(count, _ => 0);
    for i := 0 to |order|
      invariant loads == Loads(ws[..i], Greedy(ws[..i], count), count)
      invariant result == PlanMap(order[..i], Greedy(ws[..i], count))
    {
      var index := Least(loads);
      PlaceNext(order[..i], order[i], ws[..i], ws[i], count, index);
      result := result[order[i] := index];
      loads := loads[index := loads[index] + files[order[i]]];
      TakeNext(ws, i);
      TakeNext(order, i);
    }
    TakeAll(ws);
    TakeAll(order);
  }

  /** `assignment`: reject, count, sort, place. */
  method Assignment(nodes: seq<string>, count: int) returns (r: Result<map<string, nat>, PlanError>)
    ensures r == Assigned(nodes, count)
  {
    if !(1 <= count <= 32) || nodes == [] || !Distinct(nodes) {
      return Err(InvalidCollection);
    }
    var files, names := CountFiles(nodes);
    var order := Sort((a, b) => HeavierFirst(nodes, a, b), names);
    FileOrderFacts(nodes);
    forall i | 0 <= i < |order| ensures order[i] in files && files[order[i]] > 0 {
      assert order[i] in order;
      EveryFileHasTests(nodes, order[i]);
    }
    var result, loads := PlaceFiles(order, files, count);
    ghost var ws := Weights(nodes, order);
    assert ws == Sizes(order, files);
    GreedyFillsEmptyFirst(ws, count);
    LoadsAreLoad(ws, Greedy(ws, count), count);
    assert |order| < count <==> 0 in loads by {
      if |order| < count { assert loads[|order|] == 0; }
    }
    return if 0 in loads then Err(EmptyShard) else Ok(result);
  }
}
