/** The topology the Mininet front end builds from the link and coordinate tables
    (`ButterflyTopo.__init__` in butterfly.py): the nested `edges_db` dictionary, the nodes
    added in increasing id order with their switch flag, each undirected edge added once from
    its smaller end, and the coordinate dictionary. The two CSV files arrive as sequences of
    already-parsed rows. */
module Topology {
  import opened Wrappers
  import opened Butterfly

  /** One row of the link table: node, neighbour, port (unused here) and hardware address. */
  datatype LinkRow = LinkRow(nodeId: int, neighborId: int, portNo: int, addr: string)

  /** One row of the coordinate table. */
  datatype CoordRow = CoordRow(nodeId: int, x: int, y: int)

  type Edge = (int, int)

  /** The `try`/`except KeyError` step that records one link row. */
  function WithLink(db: EdgesDb, r: LinkRow): EdgesDb
  {
    if r.nodeId in db then db[r.nodeId := db[r.nodeId][r.neighborId := r.addr]]
    else db[r.nodeId := map[r.neighborId := r.addr]]
  }

  /** `edges_db` after reading every row in order. */
  function EdgesDbOf(rows: seq<LinkRow>): EdgesDb
  {
    if rows == [] then map[] else WithLink(EdgesDbOf(rows[..|rows| - 1]), rows[|rows| - 1])
  }

  /** `self.coords` after reading every row in order. */
  function CoordsOf(rows: seq<CoordRow>): CoordsDb
  {
    if rows == [] then map[]
    else CoordsOf(rows[..|rows| - 1])[rows[|rows| - 1].nodeId := (rows[|rows| - 1].x, rows[|rows| - 1].y)]
  }

  /** A node is in `edges_db` exactly when some row starts at it, and a neighbour is under it
      exactly when some row links the two. */
  lemma {:induction false} EdgesDbOfKeys(rows: seq<LinkRow>, n: int, m: int)
    ensures n in EdgesDbOf(rows) <==> exists i | 0 <= i < |rows| :: rows[i].nodeId == n
    ensures (n in EdgesDbOf(rows) && m in EdgesDbOf(rows)[n])
        <==> exists i | 0 <= i < |rows| :: rows[i].nodeId == n && rows[i].neighborId == m
  {
    if rows != [] {
      var front := rows[..|rows| - 1];
      EdgesDbOfKeys(front, n, m);
      if exists i | 0 <= i < |front| :: front[i].nodeId == n {
        var i :| 0 <= i < |front| && front[i].nodeId == n;
        assert rows[i] == front[i];
      }
      if exists i | 0 <= i < |front| :: front[i].nodeId == n && front[i].neighborId == m {
        var i :| 0 <= i < |front| && front[i].nodeId == n && front[i].neighborId == m;
        assert rows[i] == front[i];
      }
      if exists i | 0 <= i < |rows| :: rows[i].nodeId == n {
        var i :| 0 <= i < |rows| && rows[i].nodeId == n;
        if i < |front| {
          assert front[i] == rows[i];
        }
      }
      if exists i | 0 <= i < |rows| :: rows[i].nodeId == n && rows[i].neighborId == m {
        var i :| 0 <= i < |rows| && rows[i].nodeId == n && rows[i].neighborId == m;
        if i < |front| {
          assert front[i] == rows[i];
        }
      }
    }
  }

  /** Later rows overwrite earlier ones: the address stored for a link is that of the last row
      naming it. */
  lemma {:induction false} EdgesDbOfLast(rows: seq<LinkRow>, i: nat)
    requires i < |rows|
    requires forall j | i < j < |rows| :: !(rows[j].nodeId == rows[i].nodeId && rows[j].neighborId == rows[i].neighborId)
    ensures rows[i].nodeId in EdgesDbOf(rows)
    ensures rows[i].neighborId in EdgesDbOf(rows)[rows[i].nodeId]
    ensures EdgesDbOf(rows)[rows[i].nodeId][rows[i].neighborId] == rows[i].addr
  {
    var front := rows[..|rows| - 1];
    if i < |front| {
      assert front[i] == rows[i];
      forall j | i < j < |front|
        ensures !(front[j].nodeId == front[i].nodeId && front[j].neighborId == front[i].neighborId)
      {
        assert front[j] == rows[j];
      }
      EdgesDbOfLast(front, i);
    }
  }

  /** A node has coordinates exactly when some row names it. */
  lemma {:induction false} CoordsOfKeys(rows: seq<CoordRow>, n: int)
    ensures n in CoordsOf(rows) <==> exists i | 0 <= i < |rows| :: rows[i].nodeId == n
  {
    if rows != [] {
      var front := rows[..|rows| - 1];
      CoordsOfKeys(front, n);
      if exists i | 0 <= i < |front| :: front[i].nodeId == n {
        var i :| 0 <= i < |front| && front[i].nodeId == n;
        assert rows[i] == front[i];
      }
      if exists i | 0 <= i < |rows| :: rows[i].nodeId == n {
        var i :| 0 <= i < |rows| && rows[i].nodeId == n;
        if i < |front| {
          assert front[i] == rows[i];
        }
      }
    }
  }

  /** The last row naming a node gives its coordinates. */
  lemma {:induction false} CoordsOfLast(rows: seq<CoordRow>, i: nat)
    requires i < |rows|
    requires forall j | i < j < |rows| :: rows[j].nodeId != rows[i].nodeId
    ensures rows[i].nodeId in CoordsOf(rows)
    ensures CoordsOf(rows)[rows[i].nodeId] == (rows[i].x, rows[i].y)
  {
    var front := rows[..|rows| - 1];
    if i < |front| {
      assert front[i] == rows[i];
      forall j | i < j < |front|
        ensures front[j].nodeId != front[i].nodeId
      {
        assert front[j] == rows[j];
      }
      CoordsOfLast(front, i);
    }
  }

  predicate Increasing(s: seq<int>)
  {
    forall i, j | 0 <= i < j < |s| :: s[i] < s[j]
  }

  /** Every non-empty set of integers has a least element. */
  lemma {:induction false} SetMin(s: set<int>)
    requires exists y :: y in s
    ensures exists m :: m in s && forall k | k in s :: m <= k
    decreases s
  {
    var x :| x in s;
    var rest := s - {x};
    if exists y :: y in rest {
      SetMin(rest);
      var m :| m in rest && forall k | k in rest :: m <= k;
      var least := if x < m then x else m;
      forall k | k in s
        ensures least <= k
      {
        if k != x {
          assert k in rest;
        }
      }
    } else {
      assert forall k | k in s :: k == x || k in rest;
    }
  }

  /** Python's `sorted(keys)`: the keys in increasing order, each once. */
  function SortedKeys(s: set<int>): (r: seq<int>)
    ensures Increasing(r)
    ensures forall x :: x in r <==> x in s
    decreases |s|
  {
    if exists y :: y in s then
      SetMin(s);
      var m :| m in s && forall k | k in s :: m <= k;
      [m] + SortedKeys(s - {m})
    else []
  }

  lemma HeadIn(s: seq<int>)
    ensures s != [] ==> s[0] in s
  {
  }

  /** Dropping the same least element from two listings of one set leaves listings of one set. */
  lemma SameTails(a: seq<int>, b: seq<int>)
    requires Increasing(a) && Increasing(b)
    requires forall x :: x in a <==> x in b
    requires a != [] && b != [] && a[0] == b[0]
    ensures forall x :: x in a[1..] <==> x in b[1..]
  {
    forall x
      ensures x in a[1..] <==> x in b[1..]
    {
      if x in a[1..] {
        var i :| 1 <= i < |a| && a[i] == x;
        assert a[0] < x && x in b;
        var k :| 0 <= k < |b| && b[k] == x;
        assert b[1..][k - 1] == x;
      }
      if x in b[1..] {
        var i :| 1 <= i < |b| && b[i] == x;
        assert b[0] < x && x in a;
        var k :| 0 <= k < |a| && a[k] == x;
        assert a[1..][k - 1] == x;
      }
    }
  }

  /** An increasing sequence is determined by its elements, so `SortedKeys` is the only
      increasing listing of a set. */
  lemma {:induction false} IncreasingUnique(a: seq<int>, b: seq<int>)
    requires Increasing(a) && Increasing(b)
    requires forall x :: x in a <==> x in b
    ensures a == b
  {
    if a == [] && b == [] {
    } else if a == [] {
      HeadIn(b);
      assert false;
    } else if b == [] {
      HeadIn(a);
      assert false;
    } else {
      assert a[0] == b[0] by {
        assert a[0] in a && b[0] in b;
        var i :| 0 <= i < |b| && b[i] == a[0];
        var j :| 0 <= j < |a| && a[j] == b[0];
        assert b[0] <= b[i] && a[0] <= a[j];
      }
      SameTails(a, b);
      IncreasingUnique(a[1..], b[1..]);
      assert a == [a[0]] + a[1..] && b == [b[0]] + b[1..];
    }
  }

  /** The nodes `add_node` receives, in order: each id with its switch flag. */
  function NodesOf(db: EdgesDb, ids: seq<int>): seq<(int, bool)>
    requires forall k | 0 <= k < |ids| :: ids[k] in db
  {
    if ids == [] then []
    else NodesOf(db, ids[..|ids| - 1]) + [(ids[|ids| - 1], |db[ids[|ids| - 1]]| > 1)]
  }

  /** The edges added from one node, scanning its neighbours in order: only towards a
      larger id. */
  function UpEdges(node: int, nbs: seq<int>): seq<Edge>
  {
    if nbs == [] then []
    else UpEdges(node, nbs[..|nbs| - 1]) + (if node < nbs[|nbs| - 1] then [(node, nbs[|nbs| - 1])] else [])
  }

  /** The edges `add_edge` receives, in order, when the nodes are visited in the order `ids`. */
  function EdgesOf(db: EdgesDb, ids: seq<int>): seq<Edge>
    requires forall k | 0 <= k < |ids| :: ids[k] in db
  {
    if ids == [] then []
    else EdgesOf(db, ids[..|ids| - 1]) + UpEdges(ids[|ids| - 1], SortedKeys(db[ids[|ids| - 1]].Keys))
  }

  lemma AppendAssoc<T>(a: seq<T>, b: seq<T>, c: seq<T>)
    ensures (a + b) + c == a + (b + c)
  {
  }

  lemma NodesOfStep(db: EdgesDb, ids: seq<int>, i: nat)
    requires i < |ids|
    requires forall k | 0 <= k < |ids| :: ids[k] in db
    ensures NodesOf(db, ids[..i + 1]) == NodesOf(db, ids[..i]) + [(ids[i], |db[ids[i]]| > 1)]
  {
    assert ids[..i + 1][..i] == ids[..i];
  }

  lemma EdgesOfStep(db: EdgesDb, ids: seq<int>, i: nat)
    requires i < |ids|
    requires forall k | 0 <= k < |ids| :: ids[k] in db
    ensures EdgesOf(db, ids[..i + 1]) == EdgesOf(db, ids[..i]) + UpEdges(ids[i], SortedKeys(db[ids[i]].Keys))
  {
    assert ids[..i + 1][..i] == ids[..i];
  }

  lemma {:induction false} NodesOfMember(db: EdgesDb, ids: seq<int>, k: nat)
    requires forall i | 0 <= i < |ids| :: ids[i] in db
    ensures |NodesOf(db, ids)| == |ids|
    ensures k < |ids| ==> NodesOf(db, ids)[k] == (ids[k], |db[ids[k]]| > 1)
  {
    if ids != [] {
      var front := ids[..|ids| - 1];
      NodesOfMember(db, front, k);
    }
  }

  lemma {:induction false} UpEdgesMember(node: int, nbs: seq<int>, e: Edge)
    ensures e in UpEdges(node, nbs) <==> e.0 == node && e.1 in nbs && node < e.1
  {
    if nbs != [] {
      var front := nbs[..|nbs| - 1];
      UpEdgesMember(node, front, e);
      assert nbs == front + [nbs[|nbs| - 1]];
    }
  }

  /** Lexicographic order on edges. */
  predicate Before(a: Edge, b: Edge)
  {
    a.0 < b.0 || (a.0 == b.0 && a.1 < b.1)
  }

  predicate EdgesIncreasing(es: seq<Edge>)
  {
    forall i, j | 0 <= i < j < |es| :: Before(es[i], es[j])
  }

  lemma ConcatIncreasing(a: seq<Edge>, b: seq<Edge>)
    requires EdgesIncreasing(a) && EdgesIncreasing(b)
    requires forall i, j | 0 <= i < |a| && 0 <= j < |b| :: Before(a[i], b[j])
    ensures EdgesIncreasing(a + b)
  {
    forall i, j | 0 <= i < j < |a + b|
      ensures Before((a + b)[i], (a + b)[j])
    {
      if j < |a| {
        assert (a + b)[i] == a[i] && (a + b)[j] == a[j];
      } else if i < |a| {
        assert (a + b)[i] == a[i] && (a + b)[j] == b[j - |a|];
      } else {
        assert (a + b)[i] == b[i - |a|] && (a + b)[j] == b[j - |a|];
      }
    }
  }

  /** From one node, the edges come out in increasing neighbour order. */
  lemma {:induction false} UpEdgesIncreasing(node: int, nbs: seq<int>)
    requires Increasing(nbs)
    ensures EdgesIncreasing(UpEdges(node, nbs))
  {
    if nbs != [] {
      var front := nbs[..|nbs| - 1];
      var last := nbs[|nbs| - 1];
      UpEdgesIncreasing(node, front);
      var tail := if node < last then [(node, last)] else [];
      forall i, j | 0 <= i < |UpEdges(node, front)| && 0 <= j < |tail|
        ensures Before(UpEdges(node, front)[i], tail[j])
      {
        var e := UpEdges(node, front)[i];
        UpEdgesMember(node, front, e);
        var k :| 0 <= k < |front| && front[k] == e.1;
        assert nbs[k] == e.1;
      }
      ConcatIncreasing(UpEdges(node, front), tail);
    }
  }

  /** An edge is added exactly when it joins a visited node to a larger neighbour recorded
      under it: a link listed only under its larger end is never added. */
  lemma {:induction false} EdgesOfMember(db: EdgesDb, ids: seq<int>, e: Edge)
    requires forall k | 0 <= k < |ids| :: ids[k] in db
    ensures e in EdgesOf(db, ids) <==> e.0 in ids && e.1 in db[e.0] && e.0 < e.1
  {
    if ids != [] {
      var front := ids[..|ids| - 1];
      var last := ids[|ids| - 1];
      EdgesOfMember(db, front, e);
      UpEdgesMember(last, SortedKeys(db[last].Keys), e);
      assert ids == front + [last];
    }
  }

  /** Visiting the nodes in increasing order yields the edges in increasing order. */
  lemma {:induction false} EdgesOfIncreasing(db: EdgesDb, ids: seq<int>)
    requires forall k | 0 <= k < |ids| :: ids[k] in db
    requires Increasing(ids)
    ensures EdgesIncreasing(EdgesOf(db, ids))
  {
    if ids != [] {
      var front := ids[..|ids| - 1];
      var last := ids[|ids| - 1];
      EdgesOfIncreasing(db, front);
      var up := UpEdges(last, SortedKeys(db[last].Keys));
      UpEdgesIncreasing(last, SortedKeys(db[last].Keys));
      forall i, j | 0 <= i < |EdgesOf(db, front)| && 0 <= j < |up|
        ensures Before(EdgesOf(db, front)[i], up[j])
      {
        var e := EdgesOf(db, front)[i];
        EdgesOfMember(db, front, e);
        UpEdgesMember(last, SortedKeys(db[last].Keys), up[j]);
        var k :| 0 <= k < |front| && front[k] == e.0;
        assert ids[k] == e.0;
      }
      ConcatIncreasing(EdgesOf(db, front), up);
    }
  }

  /** The nodes of a topology: every node of `edges_db` once, in increasing id order, flagged
      as a switch exactly as `is_switch` would answer for it. */
  lemma TopoNodes(db: EdgesDb, k: nat)
    ensures |NodesOf(db, SortedKeys(db.Keys))| == |db|
    ensures k < |db| ==> var n := NodesOf(db, SortedKeys(db.Keys))[k];
      n.0 in db && IsSwitch(db, n.0) == Some(n.1)
    ensures forall i, j | 0 <= i < j < |NodesOf(db, SortedKeys(db.Keys))| ::
      NodesOf(db, SortedKeys(db.Keys))[i].0 < NodesOf(db, SortedKeys(db.Keys))[j].0
  {
    var ids := SortedKeys(db.Keys);
    forall i | 0 <= i < |ids| ensures ids[i] in db { }
    SortedSize(db.Keys);
    NodesOfMember(db, ids, k);
    forall i, j | 0 <= i < j < |NodesOf(db, ids)|
      ensures NodesOf(db, ids)[i].0 < NodesOf(db, ids)[j].0
    {
      NodesOfMember(db, ids, i);
      NodesOfMember(db, ids, j);
    }
  }

  lemma {:induction false} SortedSize(s: set<int>)
    ensures |SortedKeys(s)| == |s|
    decreases |s|
  {
    if exists y :: y in s {
      var r := SortedKeys(s);
      var m := r[0];
      assert r == [m] + r[1..];
      assert m in s;
      IncreasingUnique(r[1..], SortedKeys(s - {m})) by {
        forall x
          ensures x in r[1..] <==> x in s - {m}
        {
          if x in r[1..] {
            var i :| 1 <= i < |r| && r[i] == x;
          }
          if x in s - {m} {
            var i :| 0 <= i < |r| && r[i] == x;
          }
        }
      }
      SortedSize(s - {m});
    }
  }

  /** The edges of a topology: exactly the links recorded under their smaller end, in
      lexicographic order, so no undirected edge is added twice, in either direction. */
  lemma TopoEdges(db: EdgesDb, e: Edge)
    ensures e in EdgesOf(db, SortedKeys(db.Keys)) <==> e.0 in db && e.1 in db[e.0] && e.0 < e.1
    ensures forall i, j | 0 <= i < j < |EdgesOf(db, SortedKeys(db.Keys))| ::
      var a, b := EdgesOf(db, SortedKeys(db.Keys))[i], EdgesOf(db, SortedKeys(db.Keys))[j];
      a != b && a != (b.1, b.0)
  {
    var ids := SortedKeys(db.Keys);
    forall i | 0 <= i < |ids| ensures ids[i] in db { }
    EdgesOfMember(db, ids, e);
    EdgesOfIncreasing(db, ids);
    forall i, j | 0 <= i < j < |EdgesOf(db, ids)|
      ensures EdgesOf(db, ids)[i] != (EdgesOf(db, ids)[j].1, EdgesOf(db, ids)[j].0)
    {
      var a, b := EdgesOf(db, ids)[i], EdgesOf(db, ids)[j];
      EdgesOfMember(db, ids, a);
      EdgesOfMember(db, ids, b);
    }
  }

  /** `ButterflyTopo`: the state Mininet's `Topo` accumulates, as the sequences of nodes and
      edges handed to `add_node` and `add_edge`. */
  class ButterflyTopo {
    var edgesDb: EdgesDb
    var nodes: seq<(int, bool)>
    var edges: seq<Edge>
    var coords: CoordsDb

    constructor (links: seq<LinkRow>, coordRows: seq<CoordRow>)
      ensures edgesDb == EdgesDbOf(links)
      ensures nodes == NodesOf(edgesDb, SortedKeys(edgesDb.Keys))
      ensures edges == EdgesOf(edgesDb, SortedKeys(edgesDb.Keys))
      ensures coords == CoordsOf(coordRows)
    {
      edgesDb := map[];
      nodes := [];
      edges := [];
      coords := map[];
      new;
      LoadLinks(links);
      var ids := SortedKeys(edgesDb.Keys);
      AddNodes(ids);
      AddEdges(ids);
      LoadCoords(coordRows);
    }

    method LoadLinks(rows: seq<LinkRow>)
      modifies this
      ensures edgesDb == EdgesDbOf(rows)
      ensures nodes == old(nodes) && edges == old(edges) && coords == old(coords)
    {
      edgesDb := map[];
      for i := 0 to |rows|
        invariant edgesDb == EdgesDbOf(rows[..i])
        invariant nodes == old(nodes) && edges == old(edges) && coords == old(coords)
      {
        var r := rows[i];
        if r.nodeId in edgesDb {
          edgesDb := edgesDb[r.nodeId := edgesDb[r.nodeId][r.neighborId := r.addr]];
        } else {
          edgesDb := edgesDb[r.nodeId := map[r.neighborId := r.addr]];
        }
        assert rows[..i + 1][..i] == rows[..i];
      }
      assert rows[..|rows|] == rows;
    }

    method AddNodes(ids: seq<int>)
      requires forall k | 0 <= k < |ids| :: ids[k] in edgesDb
      modifies this
      ensures edgesDb == old(edgesDb) && edges == old(edges) && coords == old(coords)
      ensures nodes == old(nodes) + NodesOf(edgesDb, ids)
    {
      for i := 0 to |ids|
        invariant edgesDb == old(edgesDb) && edges == old(edges) && coords == old(coords)
        invariant nodes == old(nodes) + NodesOf(edgesDb, ids[..i])
      {
        var node := ids[i];
        var isSwitch := |edgesDb[node]| > 1;
        nodes := nodes + [(node, isSwitch)];
        NodesOfStep(edgesDb, ids, i);
      }
      assert ids[..|ids|] == ids;
    }

    method AddEdges(ids: seq<int>)
      requires forall k | 0 <= k < |ids| :: ids[k] in edgesDb
      modifies this
      ensures edgesDb == old(edgesDb) && nodes == old(nodes) && coords == old(coords)
      ensures edges == old(edges) + EdgesOf(edgesDb, ids)
    {
      for i := 0 to |ids|
        invariant edgesDb == old(edgesDb) && nodes == old(nodes) && coords == old(coords)
        invariant edges == old(edges) + EdgesOf(edgesDb, ids[..i])
      {
        var node := ids[i];
        var neighbors := SortedKeys(edgesDb[node].Keys);
        ghost var before := EdgesOf(edgesDb, ids[..i]);
        AddEdgesFrom(node, neighbors);
        EdgesOfStep(edgesDb, ids, i);
        AppendAssoc(old(edges), before, UpEdges(node, neighbors));
      }
      assert ids[..|ids|] == ids;
    }

    method AddEdgesFrom(node: int, neighbors: seq<int>)
      modifies this
      ensures edges == old(edges) + UpEdges(node, neighbors)
      ensures edgesDb == old(edgesDb) && nodes == old(nodes) && coords == old(coords)
    {
      for j := 0 to |neighbors|
        invariant edges == old(edges) + UpEdges(node, neighbors[..j])
        invariant edgesDb == old(edgesDb) && nodes == old(nodes) && coords == old(coords)
      {
        var neighbor := neighbors[j];
        if node < neighbor {
          edges := edges + [(node, neighbor)];
        }
        assert neighbors[..j + 1][..j] == neighbors[..j];
      }
      assert neighbors[..|neighbors|] == neighbors;
    }

    method LoadCoords(rows: seq<CoordRow>)
      modifies this
      ensures coords == CoordsOf(rows)
      ensures edgesDb == old(edgesDb) && nodes == old(nodes) && edges == old(edges)
    {
      coords := map[];
      for i := 0 to |rows|
        invariant coords == CoordsOf(rows[..i])
        invariant edgesDb == old(edgesDb) && nodes == old(nodes) && edges == old(edges)
      {
        var r := rows[i];
        coords := coords[r.nodeId := (r.x, r.y)];
        assert rows[..i + 1][..i] == rows[..i];
      }
      assert rows[..|rows|] == rows;
    }
  }
}
