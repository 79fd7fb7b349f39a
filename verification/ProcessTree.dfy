/** scripts/publish_packaged_terminal_review.py, `descendants`: the processes below a parent. */
module ProcessTree {

  datatype Row = Row(pid: int, parent: int)

  /** The ids that one pass of the loop adds. */
  function Children(rows: seq<Row>, owned: set<int>): set<int> {
    set i | 0 <= i < |rows| && rows[i].parent in owned :: rows[i].pid
  }

  /** A path of parent links, from `path[0]` down; ids may repeat. */
  ghost predicate IsPath(rows: seq<Row>, path: seq<int>) {
    && path != []
    && forall i :: 0 <= i < |path| - 1 ==> Row(path[i + 1], path[i]) in rows
  }

  ghost predicate Reachable(rows: seq<Row>, from: int, to: int) {
    exists path :: IsPath(rows, path) && path[0] == from && path[|path| - 1] == to
  }

  lemma ReachableNext(rows: seq<Row>, from: int, mid: int, to: int)
    requires Reachable(rows, from, mid) && Row(to, mid) in rows
    ensures Reachable(rows, from, to)
  {
    var path :| IsPath(rows, path) && path[0] == from && path[|path| - 1] == mid;
    var longer := path + [to];
    assert IsPath(rows, longer) && longer[|longer| - 1] == to;
  }

  /** A set closed under the parent links holds every path that starts in it. */
  lemma {:induction false} ClosedHoldsPath(rows: seq<Row>, owned: set<int>, path: seq<int>, i: nat)
    requires Children(rows, owned) <= owned && IsPath(rows, path) && path[0] in owned && i < |path|
    ensures path[i] in owned
  {
    if i > 0 {
      ClosedHoldsPath(rows, owned, path, i - 1);
      var k :| 0 <= k < |rows| && rows[k] == Row(path[i], path[i - 1]);
      assert rows[k].pid in Children(rows, owned);
    }
  }

  /** The fixpoint loop terminates on any table, cyclic ones included, with exactly the ids that
      parent links reach; the rows of those ids are returned in table order. */
  method Descendants(rows: seq<Row>, parent: int)
    returns (owned: set<int>, result: seq<Row>, ghost places: seq<nat>)
    ensures forall pid :: pid in owned <==> Reachable(rows, parent, pid)
    // The rows at `places`, which ascend through all rows of reachable ids.
    ensures forall k :: 0 <= k < |places| ==> places[k] < |rows|
    ensures forall k, l :: 0 <= k < l < |places| ==> places[k] < places[l]
    ensures forall i :: 0 <= i < |rows| ==> (i in places <==> Reachable(rows, parent, rows[i].pid))
    ensures |result| == |places| && forall k :: 0 <= k < |result| ==> result[k] == rows[places[k]]
  {
    owned := {parent};
    assert IsPath(rows, [parent]);
    ghost var all := {parent} + set i | 0 <= i < |rows| :: rows[i].pid;
    while true
      invariant parent in owned && owned <= all
      invariant forall pid :: pid in owned ==> Reachable(rows, parent, pid)
      decreases all - owned
    {
      var expanded := owned + Children(rows, owned);
      if expanded == owned {
        break;
      }
      forall pid | pid in expanded ensures Reachable(rows, parent, pid) {
        if pid !in owned {
          var i :| 0 <= i < |rows| && rows[i].parent in owned && rows[i].pid == pid;
          assert rows[i] == Row(pid, rows[i].parent);
          ReachableNext(rows, parent, rows[i].parent, pid);
        }
      }
      assert all - expanded < all - owned;
      owned := expanded;
    }
    forall pid | Reachable(rows, parent, pid) ensures pid in owned {
      var path :| IsPath(rows, path) && path[0] == parent && path[|path| - 1] == pid;
      ClosedHoldsPath(rows, owned, path, |path| - 1);
    }
    result, places := RowsOf(rows, owned);
  }

  /** The rows of the owned ids, in table order. */
  method RowsOf(rows: seq<Row>, owned: set<int>) returns (result: seq<Row>, ghost places: seq<nat>)
    ensures forall k :: 0 <= k < |places| ==> places[k] < |rows|
    ensures forall k, l :: 0 <= k < l < |places| ==> places[k] < places[l]
    ensures forall i :: 0 <= i < |rows| ==> (i in places <==> rows[i].pid in owned)
    ensures |result| == |places| && forall k :: 0 <= k < |result| ==> result[k] == rows[places[k]]
  {
    result, places := [], [];
    for i := 0 to |rows|
      invariant forall k :: 0 <= k < |places| ==> places[k] < i
      invariant forall k, l :: 0 <= k < l < |places| ==> places[k] < places[l]
      invariant forall j :: 0 <= j < i ==> (j in places <==> rows[j].pid in owned)
      invariant |result| == |places| && forall k :: 0 <= k < |result| ==> result[k] == rows[places[k]]
    {
      if rows[i].pid in owned {
        result, places := result + [rows[i]], places + [i];
      }
    }
  }
}
