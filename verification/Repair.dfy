// Checking and repairing all hashes (store/sqlite.go, verifyNodeHashes).
//
// A pass walks down from the root edge and writes the hash it calculates for every edge it
// meets.  It reads outside its own transaction, so the child hashes it uses are those from
// before the pass: one pass carries a repair up by one level only.
module Repair {
  import opened Points
  import opened Hashes
  import opened HashIndex
  import opened Store

  type Rows = map<string, seq<Point>>

  // An upper bound of the ranks, against which the walk down is measured.
  ghost predicate Bounded(es: Edges, rank: Rank, top: nat) {
    Acyclic(es, rank) && forall k :: 0 <= k < |es| ==> rank(es[k].down) <= top
  }

  predicate ChildOf(es: Edges, e: nat, c: nat)
    requires e < |es| && c < |es|
  {
    es[c].up == es[e].down
  }

  // Does the walk from edge e meet edge f?
  ghost predicate Meets(es: Edges, rank: Rank, top: nat, e: nat, f: nat)
    requires e < |es| && Bounded(es, rank, top)
    decreases top - rank(es[e].down)
  {
    e == f || exists c :: 0 <= c < |es| && ChildOf(es, e, c) && Meets(es, rank, top, c, f)
  }

  ghost predicate MeetsBelow(es: Edges, rank: Rank, top: nat, e: nat, f: nat, k: nat)
    requires e < |es| && k <= |es| && Bounded(es, rank, top)
  {
    exists c :: 0 <= c < k && ChildOf(es, e, c) && Meets(es, rank, top, c, f)
  }

  // At most one edge joins two nodes.
  ghost predicate DistinctEnds(es: Edges) {
    forall i, j :: 0 <= i < j < |es| ==> es[i].up != es[j].up || es[i].down != es[j].down
  }

  // The recursive walk: es is what the reads see, tx what the transaction has written so far.
  method Verify(crc: Checksum, es: Edges, rows: Rows, tx0: Edges, e: nat, fix: bool, ghost rank: Rank, ghost top: nat)
    returns (tx: Edges)
    requires e < |es| && Bounded(es, rank, top) && DistinctEnds(es) && SameShape(es, tx0)
    requires forall k :: 0 <= k < |es| ==> tx0[k].hash == es[k].hash || tx0[k].hash == CalcHash(crc, es, rows, k)
    ensures SameShape(es, tx)
    ensures forall f :: 0 <= f < |es| ==>
      tx[f].hash == if fix && Meets(es, rank, top, e, f) then CalcHash(crc, es, rows, f) else tx0[f].hash
    decreases top - rank(es[e].down)
  {
    hide CalcHash, Meets, DistinctEnds;
    tx := tx0;
    for c := 0 to |es|
      invariant SameShape(es, tx)
      invariant forall f :: 0 <= f < |es| ==>
        tx[f].hash == if fix && MeetsBelow(es, rank, top, e, f, c) then CalcHash(crc, es, rows, f) else tx0[f].hash
    {
      NextChild(es, rank, top, e, c);
      if es[c].up == es[e].down {
        tx := Verify(crc, es, rows, tx, c, fix, rank, top);
      }
    }
    var children := ChildHashes(es, es[e].down, |es|);
    ChildHashesSum(es, es[e].down, |es|);
    var hash := CalcHashOf(crc, RowsOf(rows, es[e].down), es[e].points, children);
    ghost var before := tx;
    if hash != es[e].hash {
      if fix {
        tx := SetHash(tx, es[e].up, es[e].down, hash);
      }
    }
    CalcHashIs(crc, es, rows, e);
    MeetsItself(es, rank, top, e);
    OneEdgeSet(es, before, e);
  }

  lemma {:induction false} NextChild(es: Edges, rank: Rank, top: nat, e: nat, c: nat)
    requires e < |es| && c < |es| && Bounded(es, rank, top)
    ensures forall f :: 0 <= f < |es| ==>
      (MeetsBelow(es, rank, top, e, f, c + 1) <==>
        MeetsBelow(es, rank, top, e, f, c) || (ChildOf(es, e, c) && Meets(es, rank, top, c, f)))
    ensures ChildOf(es, e, c) ==> rank(es[c].down) > rank(es[e].down)
  {
    hide Meets;
  }

  lemma {:induction false} MeetsItself(es: Edges, rank: Rank, top: nat, e: nat)
    requires e < |es| && Bounded(es, rank, top)
    ensures forall f :: 0 <= f < |es| ==> (Meets(es, rank, top, e, f) <==> f == e || MeetsBelow(es, rank, top, e, f, |es|))
  {
  }

  // With distinct ends, the edge is the only one that the update changes.
  lemma {:induction false} OneEdgeSet(es: Edges, tx: Edges, e: nat)
    requires e < |es| && DistinctEnds(es) && SameShape(es, tx)
    ensures forall k :: 0 <= k < |es| ==> (tx[k].up == es[e].up && tx[k].down == es[e].down <==> k == e)
  {
    forall k | 0 <= k < |es|
      ensures tx[k].up == es[e].up && tx[k].down == es[e].down <==> k == e
    {
      assert tx[k].(hash := 0) == es[k].(hash := 0);
    }
  }

  lemma {:induction false} CalcHashIs(crc: Checksum, es: Edges, rows: Rows, e: nat)
    requires e < |es|
    ensures CalcHash(crc, es, rows, e) ==
      Xor(Xor(PointsHash(crc, RowsOf(rows, es[e].down)), PointsHash(crc, es[e].points)), ChildHash(es, es[e].down, |es|))
  {
  }

  // The stored hashes of a node's children, as read.
  function ChildHashes(es: Edges, node: string, k: nat): seq<Hash>
    requires k <= |es|
  {
    if k == 0 then []
    else ChildHashes(es, node, k - 1) + (if es[k - 1].up == node then [es[k - 1].hash] else [])
  }

  lemma {:induction false} ChildHashesSum(es: Edges, node: string, k: nat)
    requires k <= |es|
    ensures XorAll(ChildHashes(es, node, k)) == ChildHash(es, node, k)
  {
    hide Xor;
    if k > 0 {
      ChildHashesSum(es, node, k - 1);
      var hs := ChildHashes(es, node, k);
      if es[k - 1].up == node {
        assert hs[..|hs| - 1] == ChildHashes(es, node, k - 1);
      } else {
        assert hs == ChildHashes(es, node, k - 1);
      }
    }
  }

  // UPDATE edges SET hash = ? WHERE up = ? AND down = ?
  method SetHash(tx: Edges, up: string, down: string, hash: Hash) returns (r: Edges)
    ensures |r| == |tx|
    ensures forall k :: 0 <= k < |tx| ==> r[k] == if tx[k].up == up && tx[k].down == down then tx[k].(hash := hash) else tx[k]
  {
    r := tx;
    for k := 0 to |tx|
      invariant |r| == |tx|
      invariant forall j :: 0 <= j < |tx| ==>
        r[j] == if j < k && tx[j].up == up && tx[j].down == down then tx[j].(hash := hash) else tx[j]
    {
      if r[k].up == up && r[k].down == down {
        r := r[k := r[k].(hash := hash)];
      }
    }
  }

  // The edges that the walk from the root edge meets.
  ghost function Met(es: Edges, rank: Rank, top: nat, root: nat): set<nat>
    requires root < |es| && Bounded(es, rank, top)
  {
    set f: nat | f < |es| && Meets(es, rank, top, root, f)
  }

  // One pass over some edges: their hashes are calculated anew from the hashes before the pass.
  function PassOver(crc: Checksum, es: Edges, rows: Rows, met: set<nat>): (r: Edges)
    ensures SameShape(es, r)
    ensures forall e: nat :: e < |es| ==> r[e].hash == if e in met then CalcHash(crc, es, rows, e) else es[e].hash
  {
    seq(|es|, e requires 0 <= e < |es| => if e in met then es[e].(hash := CalcHash(crc, es, rows, e)) else es[e])
  }

  // A pass over all edges.
  function Pass(crc: Checksum, es: Edges, rows: Rows): (r: Edges)
    ensures SameShape(es, r)
    ensures forall e :: 0 <= e < |es| ==> r[e].hash == CalcHash(crc, es, rows, e)
  {
    seq(|es|, e requires 0 <= e < |es| => es[e].(hash := CalcHash(crc, es, rows, e)))
  }

  // Without fix nothing changes; with it, one pass over the edges met from the root.
  method VerifyNodeHashes(crc: Checksum, es: Edges, rows: Rows, root: nat, fix: bool, ghost rank: Rank, ghost top: nat)
    returns (r: Edges)
    requires root < |es| && Bounded(es, rank, top) && DistinctEnds(es)
    ensures r == if fix then PassOver(crc, es, rows, Met(es, rank, top, root)) else es
  {
    hide CalcHash, Meets, Bounded;
    r := Verify(crc, es, rows, es, root, fix, rank, top);
    ghost var goal := if fix then PassOver(crc, es, rows, Met(es, rank, top, root)) else es;
    SameTable(r, goal);
  }

  lemma {:induction false} SameTable(a: Edges, b: Edges)
    requires SameShape(a, b) && forall f :: 0 <= f < |a| ==> a[f].hash == b[f].hash
    ensures a == b
  {
    forall f | 0 <= f < |a| ensures a[f] == b[f] {
      var x, y := a[f], b[f];
      assert x == x.(hash := 0).(hash := x.hash) && y == y.(hash := 0).(hash := y.hash);
    }
  }

  // The edges met include those below every edge met.
  ghost predicate Closed(es: Edges, met: set<nat>) {
    forall e: nat, c: nat :: e in met && e < |es| && c < |es| && ChildOf(es, e, c) ==> c in met
  }

  lemma {:induction false} MetIsClosed(es: Edges, rank: Rank, top: nat, root: nat)
    requires root < |es| && Bounded(es, rank, top)
    ensures Closed(es, Met(es, rank, top, root))
  {
    forall e: nat, c: nat | e in Met(es, rank, top, root) && c < |es| && ChildOf(es, e, c)
      ensures c in Met(es, rank, top, root)
    {
      MeetsOn(es, rank, top, root, e, c);
    }
  }

  lemma {:induction false} MeetsOn(es: Edges, rank: Rank, top: nat, a: nat, e: nat, c: nat)
    requires a < |es| && e < |es| && c < |es| && Bounded(es, rank, top)
    requires Meets(es, rank, top, a, e) && ChildOf(es, e, c)
    ensures Meets(es, rank, top, a, c)
    decreases top - rank(es[a].down)
  {
    if a == e {
      assert Meets(es, rank, top, c, c);
    } else {
      var b :| 0 <= b < |es| && ChildOf(es, a, b) && Meets(es, rank, top, b, e);
      MeetsOn(es, rank, top, b, e, c);
    }
  }

  function PassesOver(crc: Checksum, es: Edges, rows: Rows, met: set<nat>, n: nat): (r: Edges)
    ensures SameShape(es, r)
  {
    if n == 0 then es else PassOver(crc, PassesOver(crc, es, rows, met, n - 1), rows, met)
  }

  // Edges that are not met keep their hashes, and do not matter to the others: these get the
  // hashes that passes over all edges would give them.
  lemma {:induction false} OrphansDoNotMatter(crc: Checksum, es: Edges, rows: Rows, met: set<nat>, n: nat)
    requires Closed(es, met)
    ensures forall e: nat :: e < |es| ==>
      PassesOver(crc, es, rows, met, n)[e].hash == (if e in met then Passes(crc, es, rows, n)[e] else es[e]).hash
  {
    hide CalcHash, SameShape;
    if n > 0 {
      OrphansDoNotMatter(crc, es, rows, met, n - 1);
      var a, b := PassesOver(crc, es, rows, met, n - 1), Passes(crc, es, rows, n - 1);
      assert |a| == |b| == |es| && SameShape(a, b) by { ShapesAgree(es, a, b); }
      forall e: nat | e < |es| && e in met
        ensures CalcHash(crc, a, rows, e) == CalcHash(crc, b, rows, e)
      {
        forall c | 0 <= c < |b| && ChildOf(b, e, c)
          ensures a[c].hash == b[c].hash
        {
          EndsAgree(es, b, e);
          EndsAgree(es, b, c);
          assert ChildOf(es, e, c);
        }
        ShapesAgree(es, b, a);
        SameCalcHash(crc, b, a, rows, e);
      }
    }
  }

  lemma {:induction false} ShapesAgree(es: Edges, a: Edges, b: Edges)
    requires SameShape(es, a) && SameShape(es, b)
    ensures SameShape(a, b) && |a| == |b| == |es|
  {
  }

  // ----- what passes achieve -----

  function Passes(crc: Checksum, es: Edges, rows: Rows, n: nat): (r: Edges)
    ensures SameShape(es, r)
  {
    if n == 0 then es else Pass(crc, Passes(crc, es, rows, n - 1), rows)
  }

  // The subtree below edge e is less than k levels high.
  ghost predicate Low(es: Edges, e: nat, k: nat)
    requires e < |es|
    decreases k
  {
    k > 0 && forall c :: 0 <= c < |es| && ChildOf(es, e, c) ==> Low(es, c, k - 1)
  }

  lemma {:induction false} SameChildHashes(es: Edges, fs: Edges, node: string, k: nat)
    requires SameShape(es, fs) && k <= |es|
    requires forall c :: 0 <= c < |es| && es[c].up == node ==> fs[c].hash == es[c].hash
    ensures ChildHash(fs, node, k) == ChildHash(es, node, k)
  {
    if k > 0 {
      SameChildHashes(es, fs, node, k - 1);
      assert fs[k - 1].(hash := 0).up == es[k - 1].(hash := 0).up;
    }
  }

  lemma {:induction false} EndsAgree(es: Edges, fs: Edges, e: nat)
    requires SameShape(es, fs) && e < |es|
    ensures fs[e].up == es[e].up && fs[e].down == es[e].down && fs[e].points == es[e].points
  {
    assert fs[e].(hash := 0) == es[e].(hash := 0);
  }

  lemma {:induction false} SameCalcHash(crc: Checksum, es: Edges, fs: Edges, rows: Rows, e: nat)
    requires SameShape(es, fs) && e < |es|
    requires forall c :: 0 <= c < |es| && ChildOf(es, e, c) ==> fs[c].hash == es[c].hash
    ensures CalcHash(crc, fs, rows, e) == CalcHash(crc, es, rows, e)
  {
    EndsAgree(es, fs, e);
    SameChildHashes(es, fs, es[e].down, |es|);
  }

  // From the k-th pass on, the hash of an edge with a subtree of less than k levels stays put.
  lemma {:induction false} LowSettles(crc: Checksum, es: Edges, rows: Rows, e: nat, k: nat, n: nat)
    requires e < |es| && Low(es, e, k) && k <= n
    ensures Passes(crc, es, rows, n + 1)[e].hash == Passes(crc, es, rows, n)[e].hash
    decreases k
  {
    hide CalcHash;
    var a, b := Passes(crc, es, rows, n - 1), Passes(crc, es, rows, n);
    EndsAgree(es, a, e);
    forall c | 0 <= c < |a| && ChildOf(a, e, c) ensures b[c].hash == a[c].hash {
      EndsAgree(es, a, c);
      assert ChildOf(es, e, c);
      LowSettles(crc, es, rows, c, k - 1, n - 1);
    }
    assert SameShape(a, b);
    SameCalcHash(crc, a, b, rows, e);
  }

  // After k passes every edge with a subtree of less than k levels is correct, however wrong
  // the hashes were; so passes one more than the height of the tree repair it all.
  lemma {:induction false} RepairConverges(crc: Checksum, es: Edges, rows: Rows, k: nat)
    ensures forall e :: 0 <= e < |es| && Low(es, e, k) ==> Correct(crc, Passes(crc, es, rows, k), rows, e)
    ensures (forall e :: 0 <= e < |es| ==> Low(es, e, k)) ==> Consistent(crc, Passes(crc, es, rows, k), rows)
  {
    hide CalcHash;
    var b := Passes(crc, es, rows, k);
    forall e | 0 <= e < |es| && Low(es, e, k) ensures Correct(crc, b, rows, e) {
      LowSettles(crc, es, rows, e, k, k);
    }
  }

  // A pass leaves the table as it is exactly when every hash is correct.
  lemma {:induction false} FixedIffConsistent(crc: Checksum, es: Edges, rows: Rows)
    ensures Pass(crc, es, rows) == es <==> Consistent(crc, es, rows)
  {
    hide CalcHash;
    var r := Pass(crc, es, rows);
    if Consistent(crc, es, rows) {
      forall e | 0 <= e < |es| ensures r[e] == es[e] {
        assert Correct(crc, es, rows, e);
        var a, b := r[e], es[e];
        assert a == a.(hash := 0).(hash := a.hash) && b == b.(hash := 0).(hash := b.hash);
      }
    }
  }

  // By how much the stored hashes of a node's children differ from the calculated ones, in sum.
  function ChildError(crc: Checksum, es: Edges, rows: Rows, node: string, k: nat): Hash
    requires k <= |es|
  {
    if k == 0 then 0
    else if es[k - 1].up == node then
      Xor(ChildError(crc, es, rows, node, k - 1), Xor(es[k - 1].hash, CalcHash(crc, es, rows, k - 1)))
    else ChildError(crc, es, rows, node, k - 1)
  }

  lemma {:induction false} PassMovesChildren(crc: Checksum, es: Edges, rows: Rows, node: string, k: nat)
    requires k <= |es|
    ensures ChildHash(Pass(crc, es, rows), node, k) == Xor(ChildHash(es, node, k), ChildError(crc, es, rows, node, k))
  {
    hide Xor, CalcHash;
    if k == 0 {
      Zero(0);
    } else {
      PassMovesChildren(crc, es, rows, node, k - 1);
      var r, h, c := Pass(crc, es, rows), es[k - 1].hash, CalcHash(crc, es, rows, k - 1);
      EndsAgree(es, r, k - 1);
      if es[k - 1].up == node {
        XorSwap(ChildHash(es, node, k - 1), ChildError(crc, es, rows, node, k - 1), h, Xor(h, c));
        Undo(c, h);
      }
    }
  }

  // One pass makes an edge correct exactly when the errors of its children's hashes cancel
  // before it: where just one child was wrong, one pass over child and parent is not enough.
  lemma {:induction false} OnePassIff(crc: Checksum, es: Edges, rows: Rows, e: nat)
    requires e < |es|
    ensures Correct(crc, Pass(crc, es, rows), rows, e) <==> ChildError(crc, es, rows, es[e].down, |es|) == 0
  {
    hide Xor, ChildHash, PointsHash, ChildError;
    var r := Pass(crc, es, rows);
    EndsAgree(es, r, e);
    SameLeft(Xor(PointsHash(crc, RowsOf(rows, es[e].down)), PointsHash(crc, es[e].points)),
             ChildHash(r, es[e].down, |es|), ChildHash(es, es[e].down, |es|));
    PassMovesChildren(crc, es, rows, es[e].down, |es|);
    NeutralIsZero(ChildHash(es, es[e].down, |es|), ChildError(crc, es, rows, es[e].down, |es|));
  }
}
