/** backend/adapters/bounded_local_reader.py, `walk`: a bounded walk that finds each directory
    again by its rewritten name. */
module BoundedWalk {
  import opened Outcome
  import opened Sorting
  import opened VersionText
  import opened WalkTree

  /** A walk consumed to its end, or to its first exception. */
  datatype Walked = Failed | Done(count: nat, rows: seq<Row>)

  /** The visit of the directory found at `path`, after `count` entries. */
  ghost function Visited(root: Node, path: Path, count: nat, max: nat, rules: Rules): (r: Walked)
    requires count <= max
    ensures r.Done? ==> count <= r.count <= max
    decreases max - count, 1, 0
  {
    var target := Resolve(root, Normal(path));
    if target.None? || !target.value.Dir? then Failed
    else
      var node := target.value;
      if count + |node.children| > max || !CleanHere(node, path, rules) then Failed
      else
        SortedSeqIsSorted(Dirs(node, rules));
        var dirs := SortedSeq(Dirs(node, rules));
        assert dirs != [] ==> dirs[0] in dirs;
        var below := VisitedAll(root, dirs, path, count + |node.children|, max, rules);
        if below.Failed? then Failed
        else Done(below.count, [Row(path, dirs, SortedSeq(Files(node, rules)))] + below.rows)
  }

  /** The visits of the named entries of the directory at `path`, in order. */
  ghost function VisitedAll(root: Node, dirs: seq<string>, path: Path, count: nat, max: nat, rules: Rules): (r: Walked)
    requires count <= max
    ensures r.Done? ==> count <= r.count <= max
    decreases max - count + (if dirs == [] then 0 else 1), 0, |dirs|
  {
    if dirs == [] then Done(count, [])
    else
      var n := |dirs| - 1;
      var before := VisitedAll(root, dirs[..n], path, count, max, rules);
      if before.Failed? then Failed
      else
        var last := Visited(root, Child(path, dirs[n]), before.count, max, rules);
        if last.Failed? then Failed else Done(last.count, before.rows + last.rows)
  }

  /** What a walk of the tree itself would give. */
  ghost function Structural(node: Node, path: Path, count: nat, max: nat, rules: Rules): Walked
    requires node.Dir?
  {
    if count + Entries(node, rules) <= max && Clean(node, path, rules)
    then Done(count + Entries(node, rules), Rows(node, path, rules)) else Failed
  }

  ghost function StructuralBelow(node: Node, dirs: seq<string>, path: Path, count: nat, max: nat, rules: Rules): Walked
    requires node.Dir? && forall name :: name in dirs ==> name in node.children && node.children[name].Dir?
  {
    if count + EntriesBelow(node, dirs, rules) <= max
       && forall name :: name in dirs ==> Clean(node.children[name], path + [name], rules)
    then Done(count + EntriesBelow(node, dirs, rules), RowsBelow(node, dirs, path, rules)) else Failed
  }

  // ----- names that the rewriting leaves alone -----

  predicate PlainName(name: string) { '\\' !in name }

  predicate PlainPath(p: Path) { forall i | 0 <= i < |p| :: PlainName(p[i]) }

  /** A name that a directory entry can have. */
  predicate RealName(name: string) { name != "" && name != "." }

  predicate RealPath(p: Path) { forall i | 0 <= i < |p| :: RealName(p[i]) }

  /** The visited directories have real names. */
  ghost predicate Named(node: Node, rules: Rules)
    requires node.Dir?
    decreases node
  {
    forall name :: name in Dirs(node, rules) ==> RealName(name) && Named(node.children[name], rules)
  }

  /** No visited directory has a backslash in its name. */
  ghost predicate Plain(node: Node, rules: Rules)
    requires node.Dir?
    decreases node
  {
    forall name :: name in Dirs(node, rules) ==> PlainName(name) && Plain(node.children[name], rules)
  }

  lemma {:induction false} NormalOfReal(p: Path)
    requires RealPath(p)
    ensures Normal(p) == p
  {
    if p != [] { NormalOfReal(p[1..]); }
  }

  lemma {:induction false} RewrittenPlain(p: Path)
    requires PlainPath(p)
    ensures Rewritten(p) == p
  {
    if p != [] {
      SplitPart(p[0], [], '\\');
      RewrittenPlain(p[1..]);
    }
  }

  lemma {:induction false} RewrittenIsPlain(p: Path)
    ensures PlainPath(Rewritten(p))
  {
    if p != [] {
      JoinSplit(p[0], '\\');
      RewrittenIsPlain(p[1..]);
    }
  }

  lemma ChildOfPlain(path: Path, name: string)
    requires PlainPath(path) && RealPath(path) && PlainName(name)
    ensures Child(path, name) == path + [name]
  {
    NormalOfReal(path);
    RewrittenPlain(path + [name]);
  }

  lemma {:induction false} ResolveChild(root: Node, path: Path, name: string)
    requires Resolve(root, path).Some? && Resolve(root, path).value.Dir? && name in Resolve(root, path).value.children
    ensures Resolve(root, path + [name]) == Some(Resolve(root, path).value.children[name])
  {
    if path != [] {
      ResolveChild(root.children[path[0]], path[1..], name);
      assert (path + [name])[1..] == path[1..] + [name];
    } else {
      assert [name][1..] == [];
    }
  }

  // ----- the walk is the listing -----

  /** Among plain names a directory is found again where it was, so the walk is the listing. */
  lemma {:induction false} PlainWalk(root: Node, node: Node, path: Path, count: nat, max: nat, rules: Rules)
    requires count <= max && node.Dir? && Resolve(root, path) == Some(node)
    requires PlainPath(path) && RealPath(path) && Plain(node, rules) && Named(node, rules)
    ensures Visited(root, path, count, max, rules) == Structural(node, path, count, max, rules)
    decreases node, 1, 0
  {
    hide SortedSeq, Rows, RowsBelow, Entries, EntriesBelow, VisitedAll, Resolve, Child, CleanHere;
    NormalOfReal(path);
    Unfold(node, path, rules);
    var dirs := SortedSeq(Dirs(node, rules));
    var here := count + |node.children|;
    if here <= max && CleanHere(node, path, rules) {
      PlainWalkBelow(root, node, dirs, path, here, max, rules);
    }
  }

  lemma LongerPath(path: Path, name: string)
    requires PlainPath(path) && RealPath(path) && PlainName(name) && RealName(name)
    ensures PlainPath(path + [name]) && RealPath(path + [name])
  {
  }

  lemma {:induction false} PlainWalkBelow(root: Node, node: Node, dirs: seq<string>, path: Path, count: nat, max: nat,
                                          rules: Rules)
    requires count <= max && node.Dir? && Resolve(root, path) == Some(node)
    requires PlainPath(path) && RealPath(path) && Plain(node, rules) && Named(node, rules)
    requires forall name :: name in dirs ==> name in Dirs(node, rules)
    ensures VisitedAll(root, dirs, path, count, max, rules) == StructuralBelow(node, dirs, path, count, max, rules)
    decreases node, 0, |dirs|
  {
    hide SortedSeq, Rows, Entries, Visited, Resolve, Child, Clean, PlainPath, RealPath;
    if dirs != [] {
      var n := |dirs| - 1;
      var name := dirs[n];
      assert name in dirs;
      var child := node.children[name];
      PlainWalkBelow(root, node, dirs[..n], path, count, max, rules);
      assert dirs == dirs[..n] + [name];
      var before := VisitedAll(root, dirs[..n], path, count, max, rules);
      if before.Done? {
        ChildOfPlain(path, name);
        LongerPath(path, name);
        ResolveChild(root, path, name);
        PlainWalk(root, child, path + [name], before.count, max, rules);
      }
    }
  }

  // ----- and only then -----

  /** Below its first row a walk gives only names without backslashes. */
  lemma {:induction false} VisitedRowsArePlain(root: Node, path: Path, count: nat, max: nat, rules: Rules)
    requires count <= max && Visited(root, path, count, max, rules).Done?
    ensures var rows := Visited(root, path, count, max, rules).rows;
            rows != [] && rows[0].path == path && forall i :: 0 < i < |rows| ==> PlainPath(rows[i].path)
    decreases max - count, 1, 0
  {
    hide SortedSeq, Resolve, Child, CleanHere, VisitedAll, PlainPath;
    var node := Resolve(root, Normal(path)).value;
    SortedSeqIsSorted(Dirs(node, rules));
    var dirs := SortedSeq(Dirs(node, rules));
    assert dirs != [] ==> dirs[0] in dirs;
    VisitedAllRowsArePlain(root, dirs, path, count + |node.children|, max, rules);
    var below := VisitedAll(root, dirs, path, count + |node.children|, max, rules).rows;
    var rows := Visited(root, path, count, max, rules).rows;
    forall i | 0 < i < |rows| ensures PlainPath(rows[i].path) {
      assert rows[i] == below[i - 1] && below[i - 1] in below;
    }
  }

  lemma {:induction false} VisitedAllRowsArePlain(root: Node, dirs: seq<string>, path: Path, count: nat, max: nat,
                                                  rules: Rules)
    requires count <= max && VisitedAll(root, dirs, path, count, max, rules).Done?
    ensures forall row :: row in VisitedAll(root, dirs, path, count, max, rules).rows ==> PlainPath(row.path)
    decreases max - count + (if dirs == [] then 0 else 1), 0, |dirs|
  {
    hide Visited, PlainPath;
    if dirs != [] {
      var n := |dirs| - 1;
      VisitedAllRowsArePlain(root, dirs[..n], path, count, max, rules);
      var before := VisitedAll(root, dirs[..n], path, count, max, rules);
      var child := Child(path, dirs[n]);
      RewrittenIsPlain(Normal(path) + [dirs[n]]);
      VisitedRowsArePlain(root, child, before.count, max, rules);
      var last := Visited(root, child, before.count, max, rules).rows;
      forall row | row in last ensures PlainPath(row.path) {
        var i :| 0 <= i < |last| && last[i] == row;
      }
    }
  }

  /** A row below shows in the listing above. */
  lemma ShowsAbove(node: Node, base: Path, name: string, row: Row, rules: Rules)
    requires node.Dir? && name in Dirs(node, rules) && !PlainPath(row.path)
    requires row in Rows(node.children[name], base + [name], rules)
    ensures ShowsBackslash(Rows(node, base, rules))
  {
    hide SortedSeq, Rows, RowsBelow, PlainPath;
    var dirs := SortedSeq(Dirs(node, rules));
    SortedSeqIsSorted(Dirs(node, rules));
    Unfold(node, base, rules);
    var i :| 0 <= i < |dirs| && dirs[i] == name;
    RowIsBelow(node, dirs, i, base, row, rules);
    var rest := RowsBelow(node, dirs, base, rules);
    var j :| 0 <= j < |rest| && rest[j] == row;
    assert Rows(node, base, rules)[j + 1] == row;
  }

  /** A backslash in the name of a visited directory, or in the path of a top that has any below
      it, shows in the listing of the tree. */
  lemma {:induction false} BackslashShows(node: Node, base: Path, rules: Rules)
    requires node.Dir? && Dirs(node, rules) != {} && !(PlainPath(base) && Plain(node, rules))
    ensures ShowsBackslash(Rows(node, base, rules))
    decreases node
  {
    hide SortedSeq, Rows, RowsBelow, PlainPath, PlainName;
    var name :| name in Dirs(node, rules)
      && (PlainPath(base) ==> !(PlainName(name) && Plain(node.children[name], rules)));
    var child, path := node.children[name], base + [name];
    var below := Rows(child, path, rules);
    if PlainPath(path) {
      PlainPrefix(base, name);
      BackslashShows(child, path, rules);
      var k :| 0 < k < |below| && !PlainPath(below[k].path);
      ShowsAbove(node, base, name, below[k], rules);
    } else {
      Unfold(child, path, rules);
      assert below[0].path == path;
      ShowsAbove(node, base, name, below[0], rules);
    }
  }

  ghost predicate ShowsBackslash(rows: seq<Row>) {
    exists i :: 0 < i < |rows| && !PlainPath(rows[i].path)
  }

  lemma PlainPrefix(base: Path, name: string)
    requires PlainPath(base + [name])
    ensures PlainPath(base) && PlainName(name)
  {
    forall i | 0 <= i < |base| ensures PlainName(base[i]) { assert base[i] == (base + [name])[i]; }
    assert (base + [name])[|base|] == name;
  }

  lemma {:induction false} RowIsBelow(node: Node, dirs: seq<string>, i: nat, base: Path, row: Row, rules: Rules)
    requires node.Dir? && (forall name :: name in dirs ==> name in node.children && node.children[name].Dir?)
    requires i < |dirs| && dirs[i] in dirs && row in Rows(node.children[dirs[i]], base + [dirs[i]], rules)
    ensures row in RowsBelow(node, dirs, base, rules)
  {
    hide Rows;
    var n := |dirs| - 1;
    if i < n {
      assert dirs[..n][i] in dirs[..n];
      RowIsBelow(node, dirs[..n], i, base, row, rules);
    }
  }

  /** The walk yields the listing of the tree exactly when the entries are acceptable and within
      the bound, no visited directory below the top has a backslash in its name and, if there
      is any, neither does the top. Of other trees it may yield something else. */
  lemma WalkIsListing(root: Node, node: Node, top: Path, max: nat, rules: Rules)
    requires node.Dir? && Resolve(root, top) == Some(node) && RealPath(top) && Named(node, rules)
    ensures Yields(Visited(root, top, 0, max, rules), Rows(node, top, rules)) <==>
            && Entries(node, rules) <= max && Clean(node, top, rules)
            && (Dirs(node, rules) == {} || (PlainPath(top) && Plain(node, rules)))
  {
    hide SortedSeq, Rows, RowsBelow, Entries, EntriesBelow, CleanHere, Resolve, VisitedAll, Plain;
    var walked := Visited(root, top, 0, max, rules);
    Unfold(node, top, rules);
    NormalOfReal(top);
    if Dirs(node, rules) == {} {
      if |node.children| <= max { NothingVisited(root, top, |node.children|, max, rules); }
      NoEntriesBelow(node, top, rules);
    } else if PlainPath(top) && Plain(node, rules) {
      PlainWalk(root, node, top, 0, max, rules);
    } else if walked.Done? {
      VisitedRowsArePlain(root, top, 0, max, rules);
      BackslashShows(node, top, rules);
    }
  }

  predicate Yields(walked: Walked, rows: seq<Row>) { walked.Done? && walked.rows == rows }

  lemma NoEntriesBelow(node: Node, path: Path, rules: Rules)
    requires node.Dir? && Dirs(node, rules) == {}
    ensures SortedSeq(Dirs(node, rules)) == []
    ensures EntriesBelow(node, [], rules) == 0 && RowsBelow(node, [], path, rules) == []
  {
  }

  lemma NothingVisited(root: Node, path: Path, count: nat, max: nat, rules: Rules)
    requires count <= max
    ensures VisitedAll(root, [], path, count, max, rules) == Done(count, [])
  {
  }

  // ----- a tree that is listed wrongly -----

  const ALL: Rules := Rules(_ => false, _ => true)

  const F: Node := Dir(map["f" := File])

  const X: Node := Dir(map["y" := F])

  /** Two directories, `x` with a directory `y` below it and `x\y`. */
  function Aliased(hidden: Node): Node { Dir(map["x" := X, "x\\y" := hidden]) }

  lemma NamesOf(node: Node, names: set<string>)
    requires node.Dir? && node.children.Keys == names
    requires forall name :: name in names ==> node.children[name].File? || node.children[name].Dir?
    ensures forall name :: name in Dirs(node, ALL) <==> name in names && node.children[name].Dir?
    ensures forall name :: name in Files(node, ALL) <==> name in names && node.children[name].File?
  {
  }

  lemma SingleSorted(name: string)
    ensures SortedSeq({name}) == [name] && SortedSeq({}) == []
  {
    SortedSeqOf([name], {name});
    assert Sort(StringLe, [name]) == [name];
  }

  /** One directory's visit, by its lists. */
  lemma VisitBy(root: Node, path: Path, count: nat, node: Node, dirs: seq<string>, files: seq<string>)
    requires Resolve(root, Normal(path)) == Some(node) && node.Dir? && CleanHere(node, path, ALL)
    requires count + |node.children| <= 8
    requires SortedSeq(Dirs(node, ALL)) == dirs && SortedSeq(Files(node, ALL)) == files
    ensures var below := VisitedAll(root, dirs, path, count + |node.children|, 8, ALL);
            Visited(root, path, count, 8, ALL)
            == if below.Failed? then Failed else Done(below.count, [Row(path, dirs, files)] + below.rows)
  {
    hide SortedSeq, Resolve, Normal, Child, Accepts, CleanHere, VisitedAll, Dirs, Files;
  }

  /** A leaf directory of one file is visited as one row. */
  lemma LeafVisit(root: Node, path: Path, count: nat, name: string)
    requires count < 8 && Resolve(root, Normal(path)) == Some(Dir(map[name := File]))
    requires Accepts(Child(path, name), ALL)
    ensures Visited(root, path, count, 8, ALL) == Done(count + 1, [Row(path, [], [name])])
  {
    var leaf := Dir(map[name := File]);
    NamesOf(leaf, {name});
    assert Dirs(leaf, ALL) == {} && Files(leaf, ALL) == {name};
    SingleSorted(name);
    assert CleanHere(leaf, path, ALL) by { assert CleanEntry(leaf, path, name, ALL); }
  }

  lemma SplitsBackslash()
    ensures Split("x\\y", '\\') == ["x", "y"]
  {
    SplitPart("x", "y", '\\');
    SplitPart("y", [], '\\');
    assert "x" + ['\\'] + "y" == "x\\y";
    assert ["x"] + ["y"] == ["x", "y"];
  }

  lemma AliasedChildren()
    ensures Child([], "x") == ["x"] && Child(["x"], "y") == ["x", "y"] && Child(["x", "y"], "f") == ["x", "y", "f"]
    ensures Child([], "x\\y") == ["x", "y"]
  {
    hide Split, Normal;
    ChildOfPlain([], "x");
    ChildOfPlain(["x"], "y");
    ChildOfPlain(["x", "y"], "f");
    SplitsBackslash();
    NormalOfReal([]);
    assert [] + ["x\\y"] == ["x\\y"] && ["x\\y"][1..] == [];
    assert Rewritten([]) == [];
    assert ["x", "y"] + [] == ["x", "y"];
  }

  lemma AcceptsReal(p: Path)
    requires p != [] && |p| <= MAX_PARTS && RealPath(p) && ".." !in p
    ensures Accepts(p, ALL)
  {
    NormalOfReal(p);
  }

  lemma AliasedTargets(hidden: Node)
    requires hidden.Dir?
    ensures Resolve(Aliased(hidden), Normal([])) == Some(Aliased(hidden))
    ensures Resolve(Aliased(hidden), Normal(["x"])) == Some(X)
    ensures Resolve(Aliased(hidden), Normal(["x", "y"])) == Some(F)
  {
    hide Normal;
    NormalOfReal([]);
    NormalOfReal(["x"]);
    NormalOfReal(["x", "y"]);
    assert ["x"][1..] == [] && ["x", "y"][1..] == ["y"] && ["y"][1..] == [];
  }

  lemma AliasedNames()
    ensures Child([], "x") == ["x"] && Child([], "x\\y") == ["x", "y"]
    ensures Child(["x"], "y") == ["x", "y"] && Child(["x", "y"], "f") == ["x", "y", "f"]
    ensures Accepts(["x"], ALL) && Accepts(["x", "y"], ALL) && Accepts(["x", "y", "f"], ALL)
  {
    hide Accepts, Child;
    AliasedChildren();
    AcceptsReal(["x"]);
    AcceptsReal(["x", "y"]);
    AcceptsReal(["x", "y", "f"]);
  }

  lemma XIsClean()
    ensures CleanHere(X, ["x"], ALL)
    ensures SortedSeq(Dirs(X, ALL)) == ["y"] && SortedSeq(Files(X, ALL)) == [] && |X.children| == 1
  {
    hide SortedSeq, Child, Accepts;
    AliasedNames();
    NamesOf(X, {"y"});
    assert Dirs(X, ALL) == {"y"} && Files(X, ALL) == {};
    SingleSorted("y");
    assert CleanHere(X, ["x"], ALL) by { assert CleanEntry(X, ["x"], "y", ALL); }
  }

  /** A directory of one subdirectory is visited with the rows below it. */
  lemma VisitOfX(hidden: Node)
    requires hidden.Dir?
    ensures Visited(Aliased(hidden), ["x"], 2, 8, ALL) == Done(4, [Row(["x"], ["y"], []), Row(["x", "y"], [], ["f"])])
  {
    hide SortedSeq, Resolve, Normal, Child, Accepts, CleanHere, Visited, VisitedAll, Dirs, Files;
    AliasedNames();
    AliasedTargets(hidden);
    XIsClean();
    LeafVisit(Aliased(hidden), ["x", "y"], 3, "f");
    VisitedOne(Aliased(hidden), "y", ["x"], 3);
    VisitBy(Aliased(hidden), ["x"], 2, X, ["y"], []);
  }

  lemma VisitedOne(root: Node, name: string, path: Path, count: nat)
    requires count <= 8
    ensures VisitedAll(root, [name], path, count, 8, ALL) == Visited(root, Child(path, name), count, 8, ALL)
  {
    hide Visited;
    assert [name][..0] == [];
    var last := Visited(root, Child(path, name), count, 8, ALL);
    if last.Done? { assert [] + last.rows == last.rows; }
  }

  lemma AliasedSorted()
    ensures SortedSeq({"x", "x\\y"}) == ["x", "x\\y"]
  {
    hide SortedSeq;
    var names := ["x", "x\\y"];
    SortedSeqOf(names, {"x", "x\\y"});
    StringLeIsTotalOrder();
    assert "x"[1..] == "";
    assert StringLe("x", "x\\y");
    SortedIsFixpoint(StringLe, names);
  }

  lemma AliasedBelow(hidden: Node)
    requires hidden.Dir?
    ensures VisitedAll(Aliased(hidden), ["x", "x\\y"], [], 2, 8, ALL)
            == Done(5, [Row(["x"], ["y"], []), Row(["x", "y"], [], ["f"]), Row(["x", "y"], [], ["f"])])
  {
    hide SortedSeq, Resolve, Normal, Child, Accepts, Visited;
    var names := ["x", "x\\y"];
    AliasedNames();
    AliasedTargets(hidden);
    VisitOfX(hidden);
    VisitedOne(Aliased(hidden), "x", [], 2);
    LeafVisit(Aliased(hidden), ["x", "y"], 4, "f");
    assert names[..1] == ["x"];
  }

  lemma FirstOfFour(a: Row, b: Row, c: Row)
    ensures [a] + [b, c, c] == [a, b, c, c]
  {
  }

  lemma AliasedIsClean(hidden: Node)
    requires hidden.Dir?
    ensures CleanHere(Aliased(hidden), [], ALL) && SortedSeq(Dirs(Aliased(hidden), ALL)) == ["x", "x\\y"]
    ensures SortedSeq(Files(Aliased(hidden), ALL)) == [] && |Aliased(hidden).children| == 2
  {
    hide SortedSeq, Child, Accepts;
    AliasedNames();
    AliasedSorted();
    NamesOf(Aliased(hidden), {"x", "x\\y"});
    assert Dirs(Aliased(hidden), ALL) == {"x", "x\\y"} && Files(Aliased(hidden), ALL) == {};
    SingleSorted("x");
    assert CleanHere(Aliased(hidden), [], ALL) by {
      assert CleanEntry(Aliased(hidden), [], "x", ALL) && CleanEntry(Aliased(hidden), [], "x\\y", ALL);
    }
  }

  /** Beside a directory `x` with a directory `y`, one named `x\y` is never read, whatever it
      holds: `x/y` is listed in its place, and so twice. */
  lemma BackslashListsTwice(hidden: Node)
    requires hidden.Dir?
    ensures Visited(Aliased(hidden), [], 0, 8, ALL)
            == Done(5, [Row([], ["x", "x\\y"], []), Row(["x"], ["y"], []),
                        Row(["x", "y"], [], ["f"]), Row(["x", "y"], [], ["f"])])
  {
    AliasedTargets(hidden);
    AliasedIsClean(hidden);
    AliasedBelow(hidden);
    assert Aliased(hidden).Dir? && 0 + |Aliased(hidden).children| == 2;
    hide *;
    VisitBy(Aliased(hidden), [], 0, Aliased(hidden), ["x", "x\\y"], []);
    FirstOfFour(Row([], ["x", "x\\y"], []), Row(["x"], ["y"], []), Row(["x", "y"], [], ["f"]));
  }

  /** So the walk can succeed over a tree with a link that it ought to refuse. */
  lemma LinkIsPassedOver()
    ensures var tree := Aliased(Dir(map["g" := Link]));
            Visited(tree, [], 0, 8, ALL).Done? && !Clean(tree, [], ALL)
  {
    var hidden := Dir(map["g" := Link]);
    assert hidden.children["g"] == Link && Aliased(hidden).children["x\\y"] == hidden;
    BackslashListsTwice(hidden);
    hide Visited, Accepts, Clean;
    LinkIsUnclean(hidden, [] + ["x\\y"], "g");
    UncleanAbove(Aliased(hidden), [], "x\\y");
  }

  lemma LinkIsUnclean(node: Node, path: Path, name: string)
    requires node.Dir? && name in node.children && node.children[name].Link?
    ensures !Clean(node, path, ALL)
  {
    assert !CleanEntry(node, path, name, ALL);
  }

  lemma UncleanAbove(node: Node, path: Path, name: string)
    requires node.Dir? && name in node.children && node.children[name].Dir?
    requires !Clean(node.children[name], path + [name], ALL)
    ensures !Clean(node, path, ALL)
  {
    assert name in Dirs(node, ALL);
  }

  /** And it can fail over one ordinary file, whose name begins with a backslash. */
  lemma BackslashIsRefused()
    ensures Visited(Dir(map["\\f" := File]), [], 0, 8, ALL) == Failed
  {
    hide Split;
    var tree := Dir(map["\\f" := File]);
    SplitPart("", "f", '\\');
    assert "" + ['\\'] + "f" == "\\f";
    assert [] + ["\\f"] == ["\\f"];
    assert Child([], "\\f")[0] == "";
    assert !CleanEntry(tree, [], "\\f", ALL);
  }

  // ----- the walker -----

  /** Every entry that is not ignored is an ordinary file or directory of an acceptable name. */
  ghost predicate AllOrdinary(node: Node, path: Path, rules: Rules)
    requires node.Dir?
  {
    forall name :: name in node.children && !rules.ignored(name) ==>
      (node.children[name].File? || node.children[name].Dir?) && Accepts(Child(path, name), rules)
  }

  /** The directories that are not ignored, sorted by name. */
  ghost predicate ListsDirs(dirs: seq<string>, node: Node, rules: Rules)
    requires node.Dir?
  {
    && Sorted(StringLe, dirs) && Distinct(dirs)
    && forall x :: x in dirs <==> x in node.children && !rules.ignored(x) && node.children[x].Dir?
  }

  /** The regular files that are not ignored, sorted by name. */
  ghost predicate ListsFiles(files: seq<string>, node: Node, rules: Rules)
    requires node.Dir?
  {
    && Sorted(StringLe, files) && Distinct(files)
    && forall x :: x in files <==> x in node.children && !rules.ignored(x) && node.children[x].File?
  }

  lemma ScanMeans(node: Node, path: Path, rules: Rules)
    requires node.Dir?
    ensures CleanHere(node, path, rules) <==> AllOrdinary(node, path, rules)
    ensures ListsDirs(SortedSeq(Dirs(node, rules)), node, rules)
    ensures ListsFiles(SortedSeq(Files(node, rules)), node, rules)
  {
    hide Accepts, Child, SortedSeq;
    if CleanHere(node, path, rules) {
      forall name | name in node.children && !rules.ignored(name) ensures CleanEntry(node, path, name, rules) { }
    }
    SortedOnce(Dirs(node, rules));
    SortedOnce(Files(node, rules));
  }

  lemma SortedOnce(names: set<string>)
    ensures Sorted(StringLe, SortedSeq(names)) && Distinct(SortedSeq(names))
    ensures forall x :: x in SortedSeq(names) <==> x in names
  {
    SortedSeqIsSorted(names);
    var all := SortedSeq(names);
    forall i, j | 0 <= i < j < |all| ensures all[i] != all[j] {
      if all[i] == all[j] { OccursTwice(all, i, j); }
    }
  }

  class Walker {
    const root: Node
    const maxNodes: nat
    const rules: Rules
    const order: Path -> seq<string>   // the order in which the system enumerates a directory
    var count: nat
    var yielded: seq<Row>

    constructor (root: Node, maxNodes: nat, rules: Rules, order: Path -> seq<string>)
      ensures this.root == root && this.maxNodes == maxNodes && this.rules == rules && this.order == order
      ensures count == 0 && yielded == []
    {
      this.root, this.maxNodes, this.rules, this.order, count, yielded := root, maxNodes, rules, order, 0, [];
    }

    /** Every directory is enumerated completely, without repetition. */
    ghost predicate Enumerates() {
      forall path :: Resolve(root, Normal(path)).Some? && Resolve(root, Normal(path)).value.Dir? ==>
        EnumeratesAt(path, Resolve(root, Normal(path)).value)
    }

    ghost predicate EnumeratesAt(path: Path, node: Node)
      requires node.Dir?
    {
      Distinct(order(path)) && forall name :: name in order(path) <==> name in node.children
    }

    /** `walk`, consumed to its end. What it yields and when it fails does not depend on the
        enumeration order. Among plain names it fails exactly on too many entries or an
        unacceptable one, and lists every reachable file once, in sorted preorder. */
    method Walk(top: Path) returns (ok: bool)
      requires Enumerates()
      modifies this`count, this`yielded
      ensures var walked := if top != [] && !Accepts(top, rules) then Failed
                            else Visited(root, top, 0, maxNodes, rules);
              (ok <==> walked.Done?) && (ok ==> count == walked.count && yielded == walked.rows)
      ensures PlainTree(top) && (top != [] ==> Accepts(top, rules)) ==>
                var node := Resolve(root, top).value;
                && (ok <==> Entries(node, rules) <= maxNodes && Clean(node, top, rules))
                && (ok ==> && yielded == Rows(node, top, rules) && Preorder(yielded)
                           && (forall p :: Lists(yielded, top + p) <==> FileAt(node, p, rules))
                           && (forall p :: ListedOnce(yielded, p)))
    {
      hide Visited, Rows, Entries, Clean, Preorder, Lists, FileAt, ListedOnce;
      if top != [] && !Accepts(top, rules) {
        return false;
      }
      count, yielded := 0, [];
      ok := Visit(top);
      if PlainTree(top) {
        PlainWalk(root, Resolve(root, top).value, top, 0, maxNodes, rules);
        RowsAreWellListed(Resolve(root, top).value, top, rules);
      }
    }

    /** The walk starts at a directory, and no directory it visits has a backslash in its name. */
    ghost predicate PlainTree(top: Path) {
      && Resolve(root, top).Some? && Resolve(root, top).value.Dir?
      && PlainPath(top) && RealPath(top)
      && Plain(Resolve(root, top).value, rules) && Named(Resolve(root, top).value, rules)
    }

    /** Enumerate one directory: its subdirectories and files, or failure. */
    method Scan(node: Node, path: Path, listing: seq<string>)
      returns (ok: bool, dirs: seq<string>, files: seq<string>)
      requires node.Dir? && Distinct(listing) && (forall name :: name in listing <==> name in node.children)
      requires count <= maxNodes
      modifies this`count
      ensures ok <==> old(count) + |node.children| <= maxNodes && CleanHere(node, path, rules)
      // Every entry counts, ignored or not, and of the others none may be a link or special file.
      ensures ok <==> old(count) + |node.children| <= maxNodes && AllOrdinary(node, path, rules)
      ensures ok ==> ListsDirs(dirs, node, rules) && ListsFiles(files, node, rules)
      ensures ok ==> count == old(count) + |node.children|
      ensures ok ==> dirs == SortedSeq(Dirs(node, rules)) && files == SortedSeq(Files(node, rules))
    {
      hide Sort, SortedSeq, Accepts, Child, AllOrdinary, ListsDirs, ListsFiles;
      ScanMeans(node, path, rules);
      dirs, files := [], [];
      DistinctCount(listing, node.children.Keys);
      for i := 0 to |listing|
        invariant count == old(count) + i && count <= maxNodes
        invariant forall k :: 0 <= k < i && !rules.ignored(listing[k]) ==> CleanEntry(node, path, listing[k], rules)
        invariant Distinct(dirs) && forall x :: x in dirs <==> x in listing[..i] && x in Dirs(node, rules)
        invariant Distinct(files) && forall x :: x in files <==> x in listing[..i] && x in Files(node, rules)
      {
        var name := listing[i];
        TakeNext(listing, i);
        assert name in listing && name !in listing[..i];
        count := count + 1;
        if count > maxNodes {
          ok := false;
          return;
        }
        if !rules.ignored(name) {
          if !Accepts(Child(path, name), rules) {
            assert !CleanEntry(node, path, name, rules);
            ok := false;
            return;
          }
          match node.children[name] {
            case Link => assert !CleanEntry(node, path, name, rules); ok := false; return;
            case Special => assert !CleanEntry(node, path, name, rules); ok := false; return;
            case Dir(_) => dirs := dirs + [name];
            case File => files := files + [name];
          }
        }
      }
      TakeAll(listing);
      SortedSeqOf(dirs, Dirs(node, rules));
      SortedSeqOf(files, Files(node, rules));
      ok, dirs, files := true, Sort(StringLe, dirs), Sort(StringLe, files);
    }

    /** The recursive generator: open the directory at a name, enumerate it, recurse. */
    method Visit(path: Path) returns (ok: bool)
      requires Enumerates() && count <= maxNodes
      modifies this`count, this`yielded
      ensures var walked := Visited(root, path, old(count), maxNodes, rules);
              (ok <==> walked.Done?) && (ok ==> count == walked.count && yielded == old(yielded) + walked.rows)
      decreases maxNodes - count, 1, 0
    {
      hide Sort, SortedSeq, VisitedAll, Resolve, CleanHere, Normal;
      var target := Resolve(root, Normal(path));
      if target.None? || !target.value.Dir? {
        return false;
      }
      var node := target.value;
      assert EnumeratesAt(path, node);
      SortedSeqIsSorted(Dirs(node, rules));
      var dirs, files;
      ok, dirs, files := Scan(node, path, order(path));
      if !ok {
        return;
      }
      assert dirs != [] ==> dirs[0] in dirs;
      yielded := yielded + [Row(path, dirs, files)];
      ok := VisitAll(dirs, path);
    }

    /** The recursion into the sorted subdirectories. */
    method VisitAll(dirs: seq<string>, path: Path) returns (ok: bool)
      requires Enumerates() && count <= maxNodes
      modifies this`count, this`yielded
      ensures var walked := VisitedAll(root, dirs, path, old(count), maxNodes, rules);
              (ok <==> walked.Done?) && (ok ==> count == walked.count && yielded == old(yielded) + walked.rows)
      decreases maxNodes - count + (if dirs == [] then 0 else 1), 0, 0
    {
      hide Visited, VisitedAll, Child, Enumerates;
      VisitedNone(root, dirs, path, count, maxNodes, rules);
      for i := 0 to |dirs|
        invariant old(count) <= count <= maxNodes
        invariant var walked := VisitedAll(root, dirs[..i], path, old(count), maxNodes, rules);
                  walked.Done? && count == walked.count && yielded == old(yielded) + walked.rows
      {
        VisitedNext(root, dirs, i, path, old(count), maxNodes, rules);
        ok := Visit(Child(path, dirs[i]));
        if !ok {
          VisitedFails(root, dirs, i + 1, path, old(count), maxNodes, rules);
          return;
        }
      }
      TakeAll(dirs);
      ok := true;
    }
  }

  lemma VisitedNone(root: Node, dirs: seq<string>, path: Path, count: nat, max: nat, rules: Rules)
    requires count <= max
    ensures VisitedAll(root, dirs[..0], path, count, max, rules) == Done(count, [])
  {
  }

  lemma VisitedNext(root: Node, dirs: seq<string>, i: nat, path: Path, count: nat, max: nat, rules: Rules)
    requires count <= max && i < |dirs| && VisitedAll(root, dirs[..i], path, count, max, rules).Done?
    ensures var before := VisitedAll(root, dirs[..i], path, count, max, rules);
            var last := Visited(root, Child(path, dirs[i]), before.count, max, rules);
            VisitedAll(root, dirs[..i + 1], path, count, max, rules)
            == if last.Failed? then Failed else Done(last.count, before.rows + last.rows)
  {
    hide Visited;
    assert dirs[..i + 1][..i] == dirs[..i];
  }

  lemma {:induction false} VisitedFails(root: Node, dirs: seq<string>, i: nat, path: Path, count: nat, max: nat,
                                        rules: Rules)
    requires count <= max && i <= |dirs| && VisitedAll(root, dirs[..i], path, count, max, rules).Failed?
    ensures VisitedAll(root, dirs, path, count, max, rules).Failed?
  {
    hide Visited;
    if i == |dirs| {
      TakeAll(dirs);
    } else {
      var shorter := dirs[..|dirs| - 1];
      assert shorter[..i] == dirs[..i];
      VisitedFails(root, shorter, i, path, count, max, rules);
    }
  }

  lemma RowsAreWellListed(node: Node, top: Path, rules: Rules)
    requires node.Dir?
    ensures Preorder(Rows(node, top, rules))
    ensures forall p :: Lists(Rows(node, top, rules), top + p) <==> FileAt(node, p, rules)
    ensures forall p :: ListedOnce(Rows(node, top, rules), p)
  {
    RowsArePreorder(node, top, rules);
    RowsHaveDistinctFiles(node, top, rules);
    forall p ensures Lists(Rows(node, top, rules), top + p) <==> FileAt(node, p, rules) {
      RowsListFiles(node, top, p, rules);
    }
    forall p ensures ListedOnce(Rows(node, top, rules), p) {
      PreorderListsOnce(Rows(node, top, rules), p);
    }
  }
}
