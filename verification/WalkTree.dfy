/** A file tree and its sorted listing: what a walk of it should yield. */
module WalkTree {
  import opened Outcome
  import opened Sorting
  import opened VersionText

  datatype Node = File | Link | Special | Dir(children: map<string, Node>)

  type Path = seq<string>

  /** One yielded tuple. */
  datatype Row = Row(path: Path, dirs: seq<string>, files: seq<string>)

  /** Which names are ignored, and which relative names the system's own rules accept. */
  datatype Rules = Rules(ignored: string -> bool, acceptable: Path -> bool)

  // ----- relative names -----

  const MAX_PARTS := 256

  /** `Path(p).parts`: empty components and single dots are dropped. */
  function Normal(p: Path): Path {
    if p == [] then []
    else if p[0] == "" || p[0] == "." then Normal(p[1..])
    else [p[0]] + Normal(p[1..])
  }

  /** The name with every backslash made a separator. */
  function Rewritten(p: Path): Path {
    if p == [] then [] else Split(p[0], '\\') + Rewritten(p[1..])
  }

  /** The relative name that the walk gives an entry. */
  function Child(path: Path, name: string): Path {
    Rewritten(Normal(path) + [name])
  }

  /** `relative_parts`: below the root, bounded, and allowed by the system's rules. */
  predicate Accepts(p: Path, rules: Rules) {
    && p != [] && p[0] != "" && ".." !in p
    && 0 < |Normal(p)| <= MAX_PARTS && rules.acceptable(Normal(p))
  }

  /** What is accepted of names as a directory has them: not too many, and no way up. */
  lemma {:induction false} AcceptsIs(p: Path, rules: Rules)
    requires forall i :: 0 <= i < |p| ==> p[i] != "" && p[i] != "."
    ensures Normal(p) == p
    ensures Accepts(p, rules) <==> 0 < |p| <= 256 && ".." !in p && rules.acceptable(p)
  {
    if p != [] { AcceptsIs(p[1..], rules); }
  }

  /** Empty parts and single dots are passed over, and nothing else. */
  lemma {:induction false} NormalIs(a: Path, b: Path)
    ensures Normal(a + b) == Normal(a) + Normal(b)
    ensures Normal([""]) == [] && Normal(["."]) == []
  {
    if a == [] {
      assert a + b == b;
    } else {
      NormalIs(a[1..], b);
      assert (a + b)[1..] == a[1..] + b;
    }
  }

  /** An absolute name is refused, and one of which nothing is left. */
  lemma NoneOrRootIsRefused(p: Path, rules: Rules)
    ensures !Accepts([""] + p, rules)
    ensures Normal(p) == [] ==> !Accepts(p, rules)
  {
  }

  /** What lies at a name, without following links. */
  function Resolve(node: Node, p: Path): Option<Node>
    decreases |p|
  {
    if p == [] then Some(node)
    else if node.Dir? && p[0] in node.children then Resolve(node.children[p[0]], p[1..])
    else None
  }

  // ----- the listing -----

  ghost function SortedSeq(names: set<string>): (r: seq<string>)
    ensures multiset(r) == multiset(names)
  {
    if names == {} then []
    else
      var x :| x in names;
      assert multiset(names) == multiset(names - {x}) + multiset{x};
      Insert(StringLe, x, SortedSeq(names - {x}))
  }

  lemma {:induction false} SortedSeqIsSorted(names: set<string>)
    ensures Sorted(StringLe, SortedSeq(names))
    ensures forall x :: x in SortedSeq(names) <==> x in names
  {
    StringLeIsTotalOrder();
    if names != {} {
      var x :| x in names && SortedSeq(names) == Insert(StringLe, x, SortedSeq(names - {x}));
      SortedSeqIsSorted(names - {x});
      InsertKeepsSorted(StringLe, x, SortedSeq(names - {x}));
    }
    forall x ensures x in SortedSeq(names) <==> x in names {
      assert x in SortedSeq(names) <==> x in multiset(SortedSeq(names));
    }
  }

  ghost function Dirs(node: Node, rules: Rules): set<string>
    requires node.Dir?
  {
    set name | name in node.children && !rules.ignored(name) && node.children[name].Dir?
  }

  ghost function Files(node: Node, rules: Rules): set<string>
    requires node.Dir?
  {
    set name | name in node.children && !rules.ignored(name) && node.children[name].File?
  }

  /** The listing of a directory and everything below it. */
  ghost function Rows(node: Node, path: Path, rules: Rules): seq<Row>
    requires node.Dir?
    decreases node, 1, 0
  {
    SortedSeqIsSorted(Dirs(node, rules));
    var dirs := SortedSeq(Dirs(node, rules));
    [Row(path, dirs, SortedSeq(Files(node, rules)))] + RowsBelow(node, dirs, path, rules)
  }

  ghost function RowsBelow(node: Node, dirs: seq<string>, path: Path, rules: Rules): seq<Row>
    requires node.Dir? && forall name :: name in dirs ==> name in node.children && node.children[name].Dir?
    decreases node, 0, |dirs|
  {
    if dirs == [] then []
    else RowsBelow(node, dirs[..|dirs| - 1], path, rules)
         + Rows(node.children[dirs[|dirs| - 1]], path + [dirs[|dirs| - 1]], rules)
  }

  /** The number of entries in the visited directories. */
  ghost function Entries(node: Node, rules: Rules): nat
    requires node.Dir?
    decreases node, 1, 0
  {
    SortedSeqIsSorted(Dirs(node, rules));
    |node.children| + EntriesBelow(node, SortedSeq(Dirs(node, rules)), rules)
  }

  ghost function EntriesBelow(node: Node, dirs: seq<string>, rules: Rules): nat
    requires node.Dir? && forall name :: name in dirs ==> name in node.children && node.children[name].Dir?
    decreases node, 0, |dirs|
  {
    if dirs == [] then 0
    else EntriesBelow(node, dirs[..|dirs| - 1], rules) + Entries(node.children[dirs[|dirs| - 1]], rules)
  }

  /** An entry that the walk accepts: an ordinary file or directory with an acceptable name. */
  ghost predicate CleanEntry(node: Node, path: Path, name: string, rules: Rules)
    requires node.Dir? && name in node.children
  {
    Accepts(Child(path, name), rules) && (node.children[name].File? || node.children[name].Dir?)
  }

  ghost predicate CleanHere(node: Node, path: Path, rules: Rules)
    requires node.Dir?
  {
    forall name :: name in node.children && !rules.ignored(name) ==> CleanEntry(node, path, name, rules)
  }

  /** Every entry of every visited directory is acceptable. */
  ghost predicate Clean(node: Node, path: Path, rules: Rules)
    requires node.Dir?
    decreases node
  {
    && CleanHere(node, path, rules)
    && forall name :: name in Dirs(node, rules) ==> Clean(node.children[name], path + [name], rules)
  }

  lemma SortedSeqOf(names: seq<string>, elements: set<string>)
    requires Distinct(names) && forall x :: x in names <==> x in elements
    ensures Sort(StringLe, names) == SortedSeq(elements)
  {
    hide Sort, SortedSeq;
    SortedSeqIsSorted(elements);
    DistinctMultiset(names);
    assert multiset(names) == multiset(elements);
    StringLeIsTotalOrder();
    SortSorts(StringLe, names);
    SortedUnique(StringLe, Sort(StringLe, names), SortedSeq(elements));
  }

  lemma DistinctCount(names: seq<string>, elements: set<string>)
    requires Distinct(names) && forall x :: x in names <==> x in elements
    ensures |names| == |elements|
  {
    DistinctMultiset(names);
    assert multiset(names) == multiset(elements);
    assert |names| == |multiset(names)|;
  }

  lemma Unfold(node: Node, path: Path, rules: Rules)
    requires node.Dir?
    ensures forall name :: name in SortedSeq(Dirs(node, rules)) <==> name in Dirs(node, rules)
    ensures Entries(node, rules) == |node.children| + EntriesBelow(node, SortedSeq(Dirs(node, rules)), rules)
    ensures Rows(node, path, rules)
            == [Row(path, SortedSeq(Dirs(node, rules)), SortedSeq(Files(node, rules)))]
               + RowsBelow(node, SortedSeq(Dirs(node, rules)), path, rules)
  {
    hide SortedSeq;
    SortedSeqIsSorted(Dirs(node, rules));
  }

  // ----- what the listing contains -----

  /** A regular file lies at `p`, reached through directories, no name on the way ignored. */
  ghost predicate FileAt(node: Node, p: Path, rules: Rules)
    requires node.Dir?
    decreases |p|
  {
    && p != [] && p[0] in node.children && !rules.ignored(p[0])
    && var child := node.children[p[0]];
       if |p| == 1 then child.File? else child.Dir? && FileAt(child, p[1..], rules)
  }

  ghost predicate Lists(rows: seq<Row>, p: Path) {
    exists row :: row in rows && ListedIn(row, p)
  }

  ghost predicate ListedIn(row: Row, p: Path) {
    p != [] && row.path == p[..|p| - 1] && p[|p| - 1] in row.files
  }

  lemma {:induction false} RowsStart(node: Node, base: Path, rules: Rules)
    requires node.Dir?
    ensures forall row :: row in Rows(node, base, rules) ==> base <= row.path
    decreases node, 1, 0
  {
    hide SortedSeq;
    var dirs := SortedSeq(Dirs(node, rules));
    Unfold(node, base, rules);
    RowsBelowStart(node, dirs, base, rules);
  }

  lemma {:induction false} RowsBelowStart(node: Node, dirs: seq<string>, base: Path, rules: Rules)
    requires node.Dir? && forall name :: name in dirs ==> name in node.children && node.children[name].Dir?
    ensures forall row :: row in RowsBelow(node, dirs, base, rules) ==>
              |row.path| > |base| && base <= row.path && row.path[|base|] in dirs
    decreases node, 0, |dirs|
  {
    hide SortedSeq, Rows;
    if dirs != [] {
      var n := |dirs| - 1;
      RowsBelowStart(node, dirs[..n], base, rules);
      RowsStart(node.children[dirs[n]], base + [dirs[n]], rules);
    }
  }

  lemma ListsConcat(a: seq<Row>, b: seq<Row>, p: Path)
    ensures Lists(a + b, p) <==> Lists(a, p) || Lists(b, p)
  {
    if Lists(a, p) {
      var row :| row in a && ListedIn(row, p);
      assert row in a + b;
    }
    if Lists(b, p) {
      var row :| row in b && ListedIn(row, p);
      assert row in a + b;
    }
  }

  /** The listing names exactly the reachable regular files. */
  lemma {:induction false} RowsListFiles(node: Node, base: Path, p: Path, rules: Rules)
    requires node.Dir?
    ensures Lists(Rows(node, base, rules), base + p) <==> FileAt(node, p, rules)
    decreases node, 1, 0
  {
    hide SortedSeq, Rows, RowsBelow, Entries;
    var dirs, files := SortedSeq(Dirs(node, rules)), SortedSeq(Files(node, rules));
    Unfold(node, base, rules);
    SortedSeqIsSorted(Files(node, rules));
    var top := [Row(base, dirs, files)];
    ListsConcat(top, RowsBelow(node, dirs, base, rules), base + p);
    RowsBelowList(node, dirs, base, p, rules);
    TopLists(base, dirs, files, p);
    if |p| == 1 {
      assert FileAt(node, p, rules) <==> p[0] in Files(node, rules);
    }
  }

  lemma TopLists(base: Path, dirs: seq<string>, files: seq<string>, p: Path)
    ensures Lists([Row(base, dirs, files)], base + p) <==> |p| == 1 && p[0] in files
  {
    var row := Row(base, dirs, files);
    if |p| == 1 {
      assert (base + p)[..|base|] == base;
      assert row in [row];
    }
    if |p| == 0 && base != [] {
      assert (base + p)[..|base + p| - 1] != base;
    }
  }

  lemma {:induction false} RowsBelowList(node: Node, dirs: seq<string>, base: Path, p: Path, rules: Rules)
    requires node.Dir? && forall name :: name in dirs ==> name in node.children && node.children[name].Dir?
    ensures Lists(RowsBelow(node, dirs, base, rules), base + p) <==>
            |p| > 1 && p[0] in dirs && FileAt(node.children[p[0]], p[1..], rules)
    decreases node, 0, |dirs|
  {
    hide SortedSeq, Rows, FileAt;
    if dirs != [] {
      var n := |dirs| - 1;
      var name := dirs[n];
      var rest, last := RowsBelow(node, dirs[..n], base, rules), Rows(node.children[name], base + [name], rules);
      RowsBelowList(node, dirs[..n], base, p, rules);
      ListsConcat(rest, last, base + p);
      if p != [] && p[0] == name {
        assert base + [name] + p[1..] == base + p;
        RowsListFiles(node.children[name], base + [name], p[1..], rules);
        NoFileAtRoot(node.children[name], rules);
      } else {
        RowsStart(node.children[name], base + [name], rules);
        NotListedElsewhere(last, base, name, p);
      }
    }
  }

  lemma NoFileAtRoot(node: Node, rules: Rules)
    requires node.Dir?
    ensures !FileAt(node, [], rules)
  {
  }

  lemma NotListedElsewhere(rows: seq<Row>, base: Path, name: string, p: Path)
    requires forall row :: row in rows ==> base + [name] <= row.path
    requires p == [] || p[0] != name
    ensures !Lists(rows, base + p)
  {
    forall row | row in rows ensures !ListedIn(row, base + p) {
      assert row.path[|base|] == name;
      if |p| > 1 {
        assert (base + p)[..|base + p| - 1][|base|] == p[0];
      }
    }
  }

  // ----- its order -----

  /** Preorder: a directory before what lies below it, siblings by name. */
  predicate PathLess(a: Path, b: Path) {
    && b != []
    && (a == [] || (a[0] != b[0] && StringLe(a[0], b[0])) || (a[0] == b[0] && PathLess(a[1..], b[1..])))
  }

  ghost predicate Preorder(rows: seq<Row>) {
    forall i, j :: 0 <= i < j < |rows| ==> PathLess(rows[i].path, rows[j].path)
  }

  lemma {:induction false} PathLessBelow(base: Path, a: Path, b: Path)
    ensures PathLess(base + a, base + b) <==> PathLess(a, b)
  {
    if base == [] {
      assert base + a == a && base + b == b;
    } else {
      PathLessBelow(base[1..], a, b);
      assert (base + a)[1..] == base[1..] + a && (base + b)[1..] == base[1..] + b;
    }
  }

  lemma PathLessSplit(base: Path, a: Path, b: Path)
    requires base <= a && base <= b && |b| > |base|
    requires |a| == |base| || (a[|base|] != b[|base|] && StringLe(a[|base|], b[|base|]))
    ensures PathLess(a, b)
  {
    assert a == base + a[|base|..] && b == base + b[|base|..];
    PathLessBelow(base, a[|base|..], b[|base|..]);
  }

  lemma PreorderConcat(a: seq<Row>, b: seq<Row>)
    requires Preorder(a) && Preorder(b)
    requires forall x, y :: x in a && y in b ==> PathLess(x.path, y.path)
    ensures Preorder(a + b)
  {
    var rows := a + b;
    forall i, j | 0 <= i < j < |rows| ensures PathLess(rows[i].path, rows[j].path) {
      if i < |a| <= j {
        assert rows[i] in a && rows[j] in b;
      } else if j < |a| {
        assert PathLess(a[i].path, a[j].path);
      } else {
        assert PathLess(b[i - |a|].path, b[j - |a|].path);
      }
    }
  }

  /** The listing is in preorder, so no directory comes twice. */
  lemma {:induction false} RowsArePreorder(node: Node, base: Path, rules: Rules)
    requires node.Dir?
    ensures Preorder(Rows(node, base, rules))
    decreases node, 1, 0
  {
    hide SortedSeq, Rows, RowsBelow, Entries, PathLess;
    var dirs := SortedSeq(Dirs(node, rules));
    Unfold(node, base, rules);
    SortedSeqIsSorted(Dirs(node, rules));
    DistinctFromSet(Dirs(node, rules), dirs);
    RowsBelowArePreorder(node, dirs, base, rules);
    RowsBelowStart(node, dirs, base, rules);
    var top, below := [Row(base, dirs, SortedSeq(Files(node, rules)))], RowsBelow(node, dirs, base, rules);
    forall x, y | x in top && y in below ensures PathLess(x.path, y.path) {
      PathLessSplit(base, x.path, y.path);
    }
    PreorderConcat(top, below);
  }

  lemma {:induction false} RowsBelowArePreorder(node: Node, dirs: seq<string>, base: Path, rules: Rules)
    requires node.Dir? && forall name :: name in dirs ==> name in node.children && node.children[name].Dir?
    requires Sorted(StringLe, dirs) && Distinct(dirs)
    ensures Preorder(RowsBelow(node, dirs, base, rules))
    decreases node, 0, |dirs|
  {
    hide SortedSeq, Rows, PathLess;
    if dirs != [] {
      var n := |dirs| - 1;
      var name := dirs[n];
      RowsBelowArePreorder(node, dirs[..n], base, rules);
      RowsArePreorder(node.children[name], base + [name], rules);
      RowsBelowStart(node, dirs[..n], base, rules);
      RowsStart(node.children[name], base + [name], rules);
      var rest, last := RowsBelow(node, dirs[..n], base, rules), Rows(node.children[name], base + [name], rules);
      forall x, y | x in rest && y in last ensures PathLess(x.path, y.path) {
        var k :| 0 <= k < n && dirs[k] == x.path[|base|];
        assert y.path[|base|] == name;
        PathLessSplit(base, x.path, y.path);
      }
      PreorderConcat(rest, last);
    }
  }

  lemma DistinctFromSet(elements: set<string>, names: seq<string>)
    requires multiset(names) == multiset(elements)
    ensures Distinct(names)
  {
    forall i, j | 0 <= i < j < |names| ensures names[i] != names[j] {
      if names[i] == names[j] { OccursTwice(names, i, j); }
    }
  }

  // ----- no repetition -----

  lemma {:induction false} PathLessIrreflexive(a: Path)
    ensures !PathLess(a, a)
  {
    if a != [] { PathLessIrreflexive(a[1..]); }
  }

  ghost predicate DistinctFiles(rows: seq<Row>) {
    forall row :: row in rows ==> Distinct(row.files)
  }

  /** At most one row lists `p`, and that row once. */
  ghost predicate ListedOnce(rows: seq<Row>, p: Path) {
    && (forall i, j :: 0 <= i < |rows| && 0 <= j < |rows| && ListedIn(rows[i], p) && ListedIn(rows[j], p) ==> i == j)
    && (forall i :: 0 <= i < |rows| && ListedIn(rows[i], p) ==> multiset(rows[i].files)[p[|p| - 1]] == 1)
  }

  lemma PreorderListsOnce(rows: seq<Row>, p: Path)
    requires Preorder(rows) && DistinctFiles(rows)
    ensures ListedOnce(rows, p)
  {
    hide PathLess;
    forall i, j | 0 <= i < j < |rows| ensures !(ListedIn(rows[i], p) && ListedIn(rows[j], p)) {
      PathLessIrreflexive(rows[i].path);
    }
    forall i | 0 <= i < |rows| && ListedIn(rows[i], p) ensures multiset(rows[i].files)[p[|p| - 1]] == 1 {
      assert rows[i] in rows;
      DistinctMultiset(rows[i].files);
    }
  }

  lemma {:induction false} RowsHaveDistinctFiles(node: Node, base: Path, rules: Rules)
    requires node.Dir?
    ensures DistinctFiles(Rows(node, base, rules))
    decreases node, 1, 0
  {
    hide SortedSeq, Rows, RowsBelow, Entries;
    Unfold(node, base, rules);
    DistinctFromSet(Files(node, rules), SortedSeq(Files(node, rules)));
    RowsBelowHaveDistinctFiles(node, SortedSeq(Dirs(node, rules)), base, rules);
  }

  lemma {:induction false} RowsBelowHaveDistinctFiles(node: Node, dirs: seq<string>, base: Path, rules: Rules)
    requires node.Dir? && forall name :: name in dirs ==> name in node.children && node.children[name].Dir?
    ensures DistinctFiles(RowsBelow(node, dirs, base, rules))
    decreases node, 0, |dirs|
  {
    hide SortedSeq, Rows;
    if dirs != [] {
      RowsBelowHaveDistinctFiles(node, dirs[..|dirs| - 1], base, rules);
      RowsHaveDistinctFiles(node.children[dirs[|dirs| - 1]], base + [dirs[|dirs| - 1]], rules);
    }
  }
}
