// The incremental hash of the store (store/sqlite.go, data/node.go).
//
// Every edge stores a hash of the node below it: the exclusive or of the checksums of the
// node's points, of the edge's points, and of the hashes of the edges to the node's children.
// A write at a node adds its change to every edge on every upward path.  Where the graph has
// diamonds an edge lies on several such paths; what counts is whether their number is odd.
module HashIndex {
  import opened Points
  import opened Hashes
  import opened Wrappers

  // A row of the edges table, with its rows of the edge_points table.
  datatype Edge = Edge(id: string, up: string, down: string, hash: Hash, typ: string, points: seq<Point>)

  type Edges = seq<Edge>

  // What Point.CRC reads of a point (data/point.go:62-81): neither its origin nor its tombstone.
  datatype Content = Content(typ: string, key: string, time: nat, value: real, text: string)

  type Checksum = Content -> Hash

  function ContentOf(p: Point): Content { Content(p.typ, p.key, p.time, p.value, p.text) }

  const NONE := "none"
  const ROOT := "root"

  // ----- well-formed tables -----

  // A rank that falls along every edge towards the root: there are no cycles.
  type Rank = string -> nat

  ghost predicate Acyclic(es: Edges, rank: Rank) {
    forall k :: 0 <= k < |es| ==> rank(es[k].up) < rank(es[k].down)
  }

  ghost predicate DistinctIds(es: Edges) {
    forall i, j :: 0 <= i < j < |es| ==> es[i].id != es[j].id
  }

  ghost predicate WellFormed(es: Edges, rank: Rank) {
    && Acyclic(es, rank)
    && DistinctIds(es)
    && forall k :: 0 <= k < |es| ==> es[k].down != NONE && es[k].down != ROOT
  }

  // Same rows but for the hashes.
  ghost predicate SameShape(es: Edges, fs: Edges) {
    && |es| == |fs|
    && forall k :: 0 <= k < |es| ==> es[k].(hash := 0) == fs[k].(hash := 0)
  }

  // ----- the slow form -----

  // Point.CRC: node type points do not count.
  function Crc(crc: Checksum, p: Point): Hash {
    if p.typ == NODE_TYPE then 0 else crc(ContentOf(p))
  }

  function PointsHash(crc: Checksum, ps: seq<Point>): Hash {
    if ps == [] then 0 else Xor(PointsHash(crc, ps[..|ps| - 1]), Crc(crc, ps[|ps| - 1]))
  }

  // The hashes of the edges below a node, over the first k edges.
  function ChildHash(es: Edges, node: string, k: nat): Hash
    requires k <= |es|
  {
    if k == 0 then 0
    else if es[k - 1].up == node then Xor(ChildHash(es, node, k - 1), es[k - 1].hash)
    else ChildHash(es, node, k - 1)
  }

  function RowsOf(table: map<string, seq<Point>>, node: string): seq<Point> {
    if node in table then table[node] else []
  }

  // What NodeEdge.CalcHash computes for an edge from the tables.
  function CalcHash(crc: Checksum, es: Edges, rows: map<string, seq<Point>>, e: nat): Hash
    requires e < |es|
  {
    Xor(Xor(PointsHash(crc, RowsOf(rows, es[e].down)), PointsHash(crc, es[e].points)),
        ChildHash(es, es[e].down, |es|))
  }

  ghost predicate Correct(crc: Checksum, es: Edges, rows: map<string, seq<Point>>, e: nat)
    requires e < |es|
  {
    es[e].hash == CalcHash(crc, es, rows, e)
  }

  // Every edge hash is the exclusive or of its node points, edge points and child hashes.
  ghost predicate Consistent(crc: Checksum, es: Edges, rows: map<string, seq<Point>>) {
    forall e :: 0 <= e < |es| ==> Correct(crc, es, rows, e)
  }

  // The loops of NodeEdge.CalcHash.
  method CalcHashOf(crc: Checksum, points: seq<Point>, edgePoints: seq<Point>, children: seq<Hash>) returns (ret: Hash)
    ensures ret == Xor(Xor(PointsHash(crc, points), PointsHash(crc, edgePoints)), XorAll(children))
  {
    hide Xor, Crc;
    ret := 0;
    for i := 0 to |points|
      invariant ret == PointsHash(crc, points[..i])
    {
      ret := Xor(ret, Crc(crc, points[i]));
      assert points[..i + 1][..i] == points[..i];
    }
    assert points[..|points|] == points;
    ghost var a := ret;
    Zero(a);
    for i := 0 to |edgePoints|
      invariant ret == Xor(a, PointsHash(crc, edgePoints[..i]))
    {
      Associates(a, PointsHash(crc, edgePoints[..i]), Crc(crc, edgePoints[i]));
      ret := Xor(ret, Crc(crc, edgePoints[i]));
      assert edgePoints[..i + 1][..i] == edgePoints[..i];
    }
    assert edgePoints[..|edgePoints|] == edgePoints;
    ghost var b := ret;
    Zero(b);
    for i := 0 to |children|
      invariant ret == Xor(b, XorAll(children[..i]))
    {
      Associates(b, XorAll(children[..i]), children[i]);
      ret := Xor(ret, children[i]);
      assert children[..i + 1][..i] == children[..i];
    }
    assert children[..|children|] == children;
  }

  function XorAll(hs: seq<Hash>): Hash {
    if hs == [] then 0 else Xor(XorAll(hs[..|hs| - 1]), hs[|hs| - 1])
  }

  // ----- upward paths -----

  // Is the number of upward paths from a node that end with edge e odd?  The paths are counted
  // by their first edge, which is among the first k; this is the recursion of the program.
  ghost function Paths(es: Edges, rank: Rank, node: string, e: nat, k: nat): bool
    requires k <= |es| && Acyclic(es, rank)
    decreases rank(node), k
  {
    if k == 0 then false
    else
      var f := es[k - 1];
      Paths(es, rank, node, e, k - 1) !=
        (f.down == node && ((k - 1 == e) != (f.up != NONE && Paths(es, rank, f.up, e, |es|))))
  }

  // Is the number of upward paths from node that end with one of the first k edges, one that
  // leads up to `to`, odd?
  ghost function PathsTo(es: Edges, rank: Rank, node: string, to: string, k: nat): bool
    requires k <= |es| && Acyclic(es, rank)
    decreases k
  {
    if k == 0 then false
    else PathsTo(es, rank, node, to, k - 1) != (es[k - 1].up == to && Paths(es, rank, node, k - 1, |es|))
  }

  // The edges among the first k that lead up from node to `to`, by parity.
  ghost function Direct(es: Edges, node: string, to: string, k: nat): bool
    requires k <= |es|
  {
    if k == 0 then false
    else Direct(es, node, to, k - 1) != (es[k - 1].up == to && es[k - 1].down == node)
  }

  // The sum, over the first k edges f that leave node, of the paths from f.up that reach `to`.
  ghost function Beyond(es: Edges, rank: Rank, node: string, to: string, k: nat): bool
    requires k <= |es| && Acyclic(es, rank)
    decreases k
  {
    if k == 0 then false
    else
      var f := es[k - 1];
      Beyond(es, rank, node, to, k - 1) !=
        (f.down == node && f.up != NONE && PathsTo(es, rank, f.up, to, |es|))
  }

  // The paths to `to`, with the first edge among the first n and the last among the first k.
  ghost function Grid(es: Edges, rank: Rank, node: string, to: string, n: nat, k: nat): bool
    requires n <= |es| && k <= |es| && Acyclic(es, rank)
    decreases k
  {
    if k == 0 then false
    else Grid(es, rank, node, to, n, k - 1) != (es[k - 1].up == to && Paths(es, rank, node, k - 1, n))
  }

  lemma {:induction false} GridIsPathsTo(es: Edges, rank: Rank, node: string, to: string, k: nat)
    requires k <= |es| && Acyclic(es, rank)
    ensures Grid(es, rank, node, to, |es|, k) == PathsTo(es, rank, node, to, k)
  {
    if k > 0 {
      GridIsPathsTo(es, rank, node, to, k - 1);
    }
  }

  // One more first edge f adds the path that is f alone, if it is among the last edges, and
  // the paths that go on from f.up.
  lemma {:induction false} GridGrows(es: Edges, rank: Rank, node: string, to: string, n: nat, k: nat)
    requires 0 < n <= |es| && k <= |es| && Acyclic(es, rank)
    ensures
      var f := es[n - 1];
      Grid(es, rank, node, to, n, k) ==
        (Grid(es, rank, node, to, n - 1, k) !=
          (f.down == node && ((f.up == to && n <= k) != (f.up != NONE && PathsTo(es, rank, f.up, to, k)))))
    decreases k
  {
    if k > 0 {
      GridGrows(es, rank, node, to, n, k - 1);
    }
  }

  lemma {:induction false} GridSums(es: Edges, rank: Rank, node: string, to: string, n: nat)
    requires n <= |es| && Acyclic(es, rank)
    ensures Grid(es, rank, node, to, n, |es|) == (Direct(es, node, to, n) != Beyond(es, rank, node, to, n))
  {
    if n > 0 {
      GridSums(es, rank, node, to, n - 1);
      GridGrows(es, rank, node, to, n, |es|);
    } else {
      GridEmpty(es, rank, node, to, |es|);
    }
  }

  lemma {:induction false} GridEmpty(es: Edges, rank: Rank, node: string, to: string, k: nat)
    requires k <= |es| && Acyclic(es, rank)
    ensures !Grid(es, rank, node, to, 0, k)
  {
    if k > 0 {
      GridEmpty(es, rank, node, to, k - 1);
    }
  }

  // Counting paths by the last edge but one gives what counting by the first edge gives: a
  // path that ends with edge e is e itself, or a path to the node below e that goes on by e.
  lemma {:induction false} PathsByLastEdge(es: Edges, rank: Rank, node: string, e: nat, k: nat)
    requires e < |es| && k <= |es| && Acyclic(es, rank)
    requires es[e].down != NONE
    ensures Paths(es, rank, node, e, k) ==
      ((es[e].down == node && e < k) != (Direct(es, node, es[e].down, k) != Beyond(es, rank, node, es[e].down, k)))
    ensures k == |es| ==>
      Paths(es, rank, node, e, k) == ((es[e].down == node) != PathsTo(es, rank, node, es[e].down, |es|))
    decreases rank(node), k
  {
    var to := es[e].down;
    if k > 0 {
      var f := es[k - 1];
      PathsByLastEdge(es, rank, node, e, k - 1);
      if f.down == node {
        PathsByLastEdge(es, rank, f.up, e, |es|);
      }
    }
    if k == |es| {
      GridSums(es, rank, node, to, k);
      GridIsPathsTo(es, rank, node, to, k);
    }
  }

  // No path climbs to a rank at or above the one it starts from.
  lemma {:induction false} PathsClimb(es: Edges, rank: Rank, node: string, e: nat, k: nat)
    requires e < |es| && k <= |es| && Acyclic(es, rank)
    requires rank(es[e].down) > rank(node) || (rank(es[e].down) == rank(node) && es[e].down != node)
    ensures !Paths(es, rank, node, e, k)
    decreases rank(node), k
  {
    if k > 0 {
      PathsClimb(es, rank, node, e, k - 1);
      var f := es[k - 1];
      if f.down == node {
        PathsClimb(es, rank, f.up, e, |es|);
      }
    }
  }

  // The edges out of a node lie on exactly one path from it: the path that is the edge.
  lemma {:induction false} OwnEdgesOnce(es: Edges, rank: Rank, node: string, e: nat)
    requires e < |es| && es[e].down == node && node != NONE && Acyclic(es, rank)
    ensures Paths(es, rank, node, e, |es|)
  {
    PathsByLastEdge(es, rank, node, e, |es|);
    NothingBelow(es, rank, node, |es|);
  }

  lemma {:induction false} NothingBelow(es: Edges, rank: Rank, node: string, k: nat)
    requires k <= |es| && Acyclic(es, rank)
    ensures !PathsTo(es, rank, node, node, k)
  {
    if k > 0 {
      NothingBelow(es, rank, node, k - 1);
      if es[k - 1].up == node {
        PathsClimb(es, rank, node, k - 1, |es|);
      }
    }
  }

  // ----- the walk of the program -----

  type Cache = map<string, Hash>

  function Cached(es: Edges, cache: Cache, e: nat): Hash
    requires e < |es|
  {
    if es[e].id in cache then cache[es[e].id] else es[e].hash
  }

  // updateHashHelper: every edge ends with the update once for every upward path through it.
  method UpdateHashHelper(es: Edges, id: string, u: Hash, cache0: Cache, ghost rank: Rank) returns (cache: Cache)
    requires Acyclic(es, rank) && DistinctIds(es)
    ensures forall e :: 0 <= e < |es| ==>
      Cached(es, cache, e) == Xor(Cached(es, cache0, e), If(Paths(es, rank, id, e, |es|), u))
    decreases rank(id)
  {
    hide Xor, If, Paths, Cached;
    cache := cache0;
    forall e | 0 <= e < |es| ensures Cached(es, cache, e) == Xor(Cached(es, cache0, e), If(Paths(es, rank, id, e, 0), u)) {
      NoPaths(es, rank, id, e, Cached(es, cache0, e), u);
    }
    for k := 0 to |es|
      invariant forall e :: 0 <= e < |es| ==>
        Cached(es, cache, e) == Xor(Cached(es, cache0, e), If(Paths(es, rank, id, e, k), u))
    {
      var edge := es[k];
      ghost var c1 := cache;
      if edge.down == id {
        if edge.id !in cache {
          cache := cache[edge.id := edge.hash];
        }
        cache := cache[edge.id := Xor(cache[edge.id], u)];
        ghost var c2 := cache;
        Mark(es, c1, k, u);
        if edge.up != NONE {
          cache := UpdateHashHelper(es, edge.up, u, cache, rank);
        }
        forall e | 0 <= e < |es|
          ensures Cached(es, cache, e) == Xor(Cached(es, cache0, e), If(Paths(es, rank, id, e, k + 1), u))
        {
          OneMoreEdge(es, rank, id, u, k, e, Cached(es, cache0, e), Cached(es, c2, e), Cached(es, cache, e));
        }
      } else {
        forall e | 0 <= e < |es| ensures Paths(es, rank, id, e, k + 1) == Paths(es, rank, id, e, k) {
          SkipEdge(es, rank, id, k, e);
        }
      }
    }
  }

  lemma {:induction false} NoPaths(es: Edges, rank: Rank, id: string, e: nat, a: Hash, u: Hash)
    requires Acyclic(es, rank)
    ensures Xor(a, If(Paths(es, rank, id, e, 0), u)) == a
  {
    hide Xor;
    Zero(a);
  }

  lemma {:induction false} SkipEdge(es: Edges, rank: Rank, id: string, k: nat, e: nat)
    requires k < |es| && Acyclic(es, rank) && es[k].down != id
    ensures Paths(es, rank, id, e, k + 1) == Paths(es, rank, id, e, k)
  {
  }

  // cache[e.ID] ^= hashUpdate, for an edge that may not be in the cache yet.
  lemma {:induction false} Mark(es: Edges, cache: Cache, k: nat, u: Hash)
    requires k < |es| && DistinctIds(es)
    ensures
      var id := es[k].id;
      var c1 := if id in cache then cache else cache[id := es[k].hash];
      var c2 := c1[id := Xor(c1[id], u)];
      forall e :: 0 <= e < |es| ==> Cached(es, c2, e) == Xor(Cached(es, cache, e), If(e == k, u))
  {
    hide Xor, If;
    forall e | 0 <= e < |es|
      ensures Xor(Cached(es, cache, e), If(e == k, u)) ==
        if e == k then Xor(Cached(es, cache, e), u) else Cached(es, cache, e)
    {
      NoChange(Cached(es, cache, e), u);
    }
  }

  lemma {:induction false} OneMoreEdge(es: Edges, rank: Rank, id: string, u: Hash, k: nat, e: nat, c0: Hash, c2: Hash,
          c3: Hash)
    requires k < |es| && e < |es| && Acyclic(es, rank) && es[k].down == id
    requires c2 == Xor(Xor(c0, If(Paths(es, rank, id, e, k), u)), If(e == k, u))
    requires c3 == if es[k].up != NONE then Xor(c2, If(Paths(es, rank, es[k].up, e, |es|), u)) else c2
    ensures c3 == Xor(c0, If(Paths(es, rank, id, e, k + 1), u))
  {
    hide Xor, If;
    NoChange(c2, u);
    ThreeChanges(c0, u, Paths(es, rank, id, e, k), e == k, es[k].up != NONE && Paths(es, rank, es[k].up, e, |es|));
  }

  lemma {:induction false} NoChange(a: Hash, u: Hash)
    ensures Xor(a, If(false, u)) == a
    ensures Xor(a, If(true, u)) == Xor(a, u)
  {
    hide Xor;
    Zero(a);
  }

  lemma {:induction false} ThreeChanges(a: Hash, u: Hash, p: bool, q: bool, r: bool)
    ensures Xor(Xor(Xor(a, If(p, u)), If(q, u)), If(r, u)) == Xor(a, If(p != (q != r), u))
  {
    hide Xor, If;
    IfXor(p, q, a, u);
    IfXor(p != q, r, a, u);
  }

  // updateHash: the cached hashes are written back.
  method UpdateHash(es: Edges, id: string, u: Hash, ghost rank: Rank) returns (r: Edges)
    requires Acyclic(es, rank) && DistinctIds(es)
    ensures r == Updated(es, rank, id, u)
  {
    hide Xor, If, Paths;
    var cache := UpdateHashHelper(es, id, u, map[], rank);
    r := es;
    for k := 0 to |es|
      invariant |r| == |es|
      invariant forall e :: 0 <= e < |es| ==> r[e] == if e < k then es[e].(hash := Cached(es, cache, e)) else es[e]
    {
      if es[k].id in cache {
        r := r[k := r[k].(hash := cache[es[k].id])];
      }
    }
  }

  // The edges after a change u at a node.
  ghost function Updated(es: Edges, rank: Rank, node: string, u: Hash): (r: Edges)
    requires Acyclic(es, rank)
    ensures |r| == |es|
  {
    seq(|es|, e requires 0 <= e < |es| =>
      es[e].(hash := Xor(es[e].hash, If(Paths(es, rank, node, e, |es|), u))))
  }

  lemma {:induction false} ChildHashUpdated(es: Edges, rank: Rank, node: string, u: Hash, n: string, k: nat)
    requires k <= |es| && Acyclic(es, rank)
    ensures ChildHash(Updated(es, rank, node, u), n, k) ==
      Xor(ChildHash(es, n, k), If(PathsTo(es, rank, node, n, k), u))
  {
    hide Xor, If, Paths, Updated;
    NoChange(0, u);
    if k > 0 {
      var p, q := PathsTo(es, rank, node, n, k - 1), Paths(es, rank, node, k - 1, |es|);
      ChildHashUpdated(es, rank, node, u, n, k - 1);
      UpdatedEdge(es, rank, node, u, k - 1);
      if es[k - 1].up == n {
        TwoSums(ChildHash(es, n, k - 1), es[k - 1].hash, p, q, u);
      }
    }
  }

  lemma {:induction false} UpdatedEdge(es: Edges, rank: Rank, node: string, u: Hash, e: nat)
    requires Acyclic(es, rank) && e < |es|
    ensures Updated(es, rank, node, u)[e].up == es[e].up
    ensures Updated(es, rank, node, u)[e].hash == Xor(es[e].hash, If(Paths(es, rank, node, e, |es|), u))
  {
    hide Paths;
  }

  lemma {:induction false} TwoSums(a: Hash, h: Hash, p: bool, q: bool, u: Hash)
    ensures Xor(Xor(a, If(p, u)), Xor(h, If(q, u))) == Xor(Xor(a, h), If(p != q, u))
  {
    hide Xor, If;
    XorSwap(a, If(p, u), h, If(q, u));
    IfXor(p, q, 0, u);
  }

  // How the change moves the hash that CalcHash gives for an edge: by its child paths.
  lemma {:induction false} CalcHashUpdated(crc: Checksum, es: Edges, rows: map<string, seq<Point>>, rank: Rank,
          node: string, u: Hash, e: nat)
    requires e < |es| && Acyclic(es, rank)
    ensures CalcHash(crc, Updated(es, rank, node, u), rows, e) ==
      Xor(CalcHash(crc, es, rows, e), If(PathsTo(es, rank, node, es[e].down, |es|), u))
  {
    hide Xor, If;
    ChildHashUpdated(es, rank, node, u, es[e].down, |es|);
    Associates(Xor(PointsHash(crc, RowsOf(rows, es[e].down)), PointsHash(crc, es[e].points)),
            ChildHash(es, es[e].down, |es|), If(PathsTo(es, rank, node, es[e].down, |es|), u));
  }

  // A change u at a node keeps an edge that is not its own correct, whatever the paths.
  lemma {:induction false} UpdateElsewhere(crc: Checksum, es: Edges, rows: map<string, seq<Point>>, rank: Rank,
          node: string, u: Hash, e: nat)
    requires e < |es| && WellFormed(es, rank) && es[e].down != node
    ensures Correct(crc, Updated(es, rank, node, u), rows, e) <==> Correct(crc, es, rows, e)
  {
    hide Xor, If, CalcHash;
    PathsByLastEdge(es, rank, node, e, |es|);
    CalcHashUpdated(crc, es, rows, rank, node, u, e);
    SameLeft(If(PathsTo(es, rank, node, es[e].down, |es|), u), es[e].hash, CalcHash(crc, es, rows, e));
  }

  // At the node's own edges the stored hash takes the change, and the children do not move.
  lemma {:induction false} UpdateAtNode(crc: Checksum, es: Edges, rows: map<string, seq<Point>>, rank: Rank,
          node: string, u: Hash, e: nat)
    requires e < |es| && WellFormed(es, rank) && es[e].down == node
    ensures Updated(es, rank, node, u)[e].hash == Xor(es[e].hash, u)
    ensures CalcHash(crc, Updated(es, rank, node, u), rows, e) == CalcHash(crc, es, rows, e)
  {
    hide Xor, If, CalcHash;
    OwnEdgesOnce(es, rank, node, e);
    NothingBelow(es, rank, node, |es|);
    CalcHashUpdated(crc, es, rows, rank, node, u, e);
    NoChange(es[e].hash, u);
    NoChange(CalcHash(crc, es, rows, e), u);
  }
}
