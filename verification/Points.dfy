// Points and the last-write-wins rule (data/point.go).  A point is identified by its type and
// key; of two points with the same identity the one with the later time is kept, and of two
// with equal times the one that arrives later.
module Points {
  import opened Wrappers

  datatype Point = Point(typ: string, key: string, time: nat, value: real, text: string, tombstone: int, origin: string)

  datatype Id = Id(typ: string, key: string)

  // The zero value of Go's time.Time.
  const ZERO_TIME: nat := 0

  const NODE_TYPE := "nodeType"
  const TOMBSTONE := "tombstone"

  function IdOf(p: Point): Id { Id(p.typ, p.key) }

  type Table = t: map<Id, Point> | forall k :: k in t ==> IdOf(t[k]) == k

  // ----- the rule, one point at a time -----

  function Put(t: Table, p: Point): Table {
    if IdOf(p) in t && t[IdOf(p)].time > p.time then t else t[IdOf(p) := p]
  }

  function PutAll(t: Table, ps: seq<Point>): Table {
    if ps == [] then t else Put(PutAll(t, ps[..|ps| - 1]), ps[|ps| - 1])
  }

  // ----- the rule for one identity -----

  function Newer(cur: Option<Point>, next: Option<Point>): Option<Point> {
    if next.None? || (cur.Some? && cur.value.time > next.value.time) then cur else next
  }

  function Latest(cur: Option<Point>, ps: seq<Point>, k: Id): Option<Point> {
    if ps == [] then cur
    else
      var n := |ps| - 1;
      Newer(Latest(cur, ps[..n], k), if IdOf(ps[n]) == k then Some(ps[n]) else None)
  }

  function At(t: Table, k: Id): Option<Point> {
    if k in t then Some(t[k]) else None
  }

  lemma {:induction false} PutAllAt(t: Table, ps: seq<Point>, k: Id)
    ensures At(PutAll(t, ps), k) == Latest(At(t, k), ps, k)
  {
    if ps != [] {
      PutAllAt(t, ps[..|ps| - 1], k);
    }
  }

  // ----- what the rule amounts to -----

  ghost predicate Offered(t: Table, ps: seq<Point>, k: Id, p: Point) {
    (k in t && t[k] == p) || (p in ps && IdOf(p) == k)
  }

  // The i-th point is the last of the newest points with its type and key.
  predicate LastNewest(ps: seq<Point>, i: nat)
    requires i < |ps|
  {
    forall m :: 0 <= m < |ps| && m != i && ps[m].typ == ps[i].typ && ps[m].key == ps[i].key ==>
      ps[m].time < ps[i].time || (ps[m].time == ps[i].time && m < i)
  }

  // Of points that are as new the last one is held: what was there gives way.
  lemma {:induction false} PutAllKeepsLast(t: Table, ps: seq<Point>, i: nat)
    requires i < |ps| && LastNewest(ps, i)
    requires IdOf(ps[i]) in t ==> t[IdOf(ps[i])].time <= ps[i].time
    ensures IdOf(ps[i]) in PutAll(t, ps) && PutAll(t, ps)[IdOf(ps[i])] == ps[i]
  {
    hide LastNewest;
    var n := |ps| - 1;
    var before, k := ps[..n], IdOf(ps[i]);
    LastNewestIs(ps, i);
    if i < n {
      assert before[i] == ps[i];
      PutAllKeepsLast(t, before, i);
    } else if k in PutAll(t, before) {
      PutAllKeepsNewest(t, before, k);
      var q := PutAll(t, before)[k];
      if q in before {
        var m :| 0 <= m < n && before[m] == q;
        assert ps[m] == q;
      }
    }
  }

  lemma {:induction false} LastNewestIs(ps: seq<Point>, i: nat)
    requires i < |ps| && LastNewest(ps, i)
    ensures forall m :: 0 <= m < |ps| && m != i && IdOf(ps[m]) == IdOf(ps[i]) ==>
      ps[m].time < ps[i].time || (ps[m].time == ps[i].time && m < i)
    ensures i < |ps| - 1 ==> LastNewest(ps[..|ps| - 1], i)
  {
  }

  // The merged table has exactly the identities offered, and for each a point that was
  // offered and that none of the points offered is newer than.
  lemma {:induction false} PutAllKeepsNewest(t: Table, ps: seq<Point>, k: Id)
    ensures k in PutAll(t, ps) <==> exists p :: Offered(t, ps, k, p)
    ensures k in PutAll(t, ps) ==> Offered(t, ps, k, PutAll(t, ps)[k])
    ensures forall p :: Offered(t, ps, k, p) ==> p.time <= PutAll(t, ps)[k].time
  {
    PutAllAt(t, ps, k);
    LatestIsNewest(At(t, k), ps, k);
    assert k in PutAll(t, ps) ==> Offered(t, ps, k, PutAll(t, ps)[k]);
  }

  lemma {:induction false} LatestIsNewest(cur: Option<Point>, ps: seq<Point>, k: Id)
    ensures Latest(cur, ps, k) == None ==> cur == None && forall p :: p in ps ==> IdOf(p) != k
    ensures forall p :: Latest(cur, ps, k) == Some(p) ==> cur == Some(p) || (p in ps && IdOf(p) == k)
    ensures forall p :: cur == Some(p) || (p in ps && IdOf(p) == k) ==>
      Latest(cur, ps, k).Some? && p.time <= Latest(cur, ps, k).value.time
  {
    if ps != [] {
      assert ps == ps[..|ps| - 1] + [ps[|ps| - 1]];
      LatestIsNewest(cur, ps[..|ps| - 1], k);
    }
  }

  // Times tell the points with one identity apart.
  ghost predicate TimesTell(t: Table, ps: seq<Point>) {
    forall k, p, q :: Offered(t, ps, k, p) && Offered(t, ps, k, q) && p.time == q.time ==> p == q
  }

  // With telling times the result depends on nothing but the set of points offered: any order
  // of the writes, and any repetition, leads to the same table.
  lemma {:induction false} MergeIgnoresOrder(t: Table, a: seq<Point>, b: seq<Point>)
    requires forall p :: p in a <==> p in b
    requires TimesTell(t, a)
    ensures PutAll(t, a) == PutAll(t, b)
  {
    var x, y := PutAll(t, a), PutAll(t, b);
    forall k ensures At(x, k) == At(y, k) {
      PutAllKeepsNewest(t, a, k);
      PutAllKeepsNewest(t, b, k);
      assert forall p :: Offered(t, a, k, p) <==> Offered(t, b, k, p);
    }
    SameTable(x, y);
  }

  // ----- Collapse -----

  // The map key under which Collapse looks for points of the same identity.
  function JoinedId(p: Point): string { p.typ + p.key }

  function Collapsed(ps: seq<Point>): (m: map<string, Point>)
    ensures forall s :: s in m ==> m[s] in ps && JoinedId(m[s]) == s
    ensures forall p :: p in ps ==> JoinedId(p) in m
  {
    if ps == [] then map[]
    else
      var n := |ps| - 1;
      var m := Collapsed(ps[..n]);
      var p := ps[n];
      var s := JoinedId(p);
      assert ps == ps[..n] + [p];
      if s in m && m[s].time > p.time then m else m[s := p]
  }

  // r holds every value of m exactly once, in any order.
  ghost predicate Lists(r: seq<Point>, m: map<string, Point>) {
    && (forall p :: p in r ==> JoinedId(p) in m && m[JoinedId(p)] == p)
    && (forall s :: s in m ==> m[s] in r)
    && forall i, j :: 0 <= i < j < |r| ==> JoinedId(r[i]) != JoinedId(r[j])
  }

  method Collapse(ps: seq<Point>) returns (r: seq<Point>)
    ensures Lists(r, Collapsed(ps))
  {
    if |ps| <= 1 {
      r := ps;
      if |ps| == 1 {
        assert ps[..0] == [];
      }
      return;
    }
    hide JoinedId, Collapsed, Lists;
    var pts: map<string, Point> := map[];
    NoneCollapsed();
    for i := 0 to |ps|
      invariant pts == Collapsed(ps[..i])
    {
      var p := ps[i];
      assert ps[..i + 1][..i] == ps[..i];
      CollapsedNext(ps[..i + 1]);
      if JoinedId(p) in pts {
        var pA := pts[JoinedId(p)];
        if pA.time <= p.time {
          pts := pts[JoinedId(p) := p];
        }
      } else {
        pts := pts[JoinedId(p) := p];
      }
    }
    assert ps[..|ps|] == ps;
    r := Values(pts);
  }

  lemma {:induction false} NoneCollapsed()
    ensures Collapsed([]) == map[]
  {
  }

  // The loop over the map; its order is left open.
  method Values(m: map<string, Point>) returns (r: seq<Point>)
    requires forall s :: s in m ==> JoinedId(m[s]) == s
    ensures Lists(r, m)
  {
    hide JoinedId;
    r := [];
    var rest := m.Keys;
    while rest != {}
      invariant rest <= m.Keys
      invariant forall p :: p in r ==> JoinedId(p) in m && JoinedId(p) !in rest && m[JoinedId(p)] == p
      invariant forall s :: s in m && s !in rest ==> m[s] in r
      invariant forall i, j :: 0 <= i < j < |r| ==> JoinedId(r[i]) != JoinedId(r[j])
      decreases rest
    {
      var s :| s in rest;
      r := r + [m[s]];
      rest := rest - {s};
    }
  }

  // No two points of the batch differ in type and key but not in the two run together.
  ghost predicate Unambiguous(ps: seq<Point>) {
    forall p, q :: p in ps && q in ps && JoinedId(p) == JoinedId(q) ==> IdOf(p) == IdOf(q)
  }

  lemma {:induction false} UnambiguousIs(ps: seq<Point>)
    ensures Unambiguous(ps) <==>
      forall p, q :: p in ps && q in ps && p.typ + p.key == q.typ + q.key ==> p.typ == q.typ && p.key == q.key
  {
  }

  // Collapse keeps a point for every identity of the batch exactly when no identities of the
  // batch run together.
  lemma {:induction false} CollapseKeepsIdsIff(ps: seq<Point>, r: seq<Point>)
    requires Lists(r, Collapsed(ps))
    ensures (forall p :: p in ps ==> exists q :: q in r && IdOf(q) == IdOf(p)) <==>
      forall p, q :: p in ps && q in ps && p.typ + p.key == q.typ + q.key ==> p.typ == q.typ && p.key == q.key
  {
    hide *;
    UnambiguousIs(ps);
    CollapseKeepsIds(ps, r);
  }

  lemma {:induction false} CollapseKeepsIds(ps: seq<Point>, r: seq<Point>)
    requires Lists(r, Collapsed(ps))
    ensures (forall p :: p in ps ==> exists q :: q in r && IdOf(q) == IdOf(p)) <==> Unambiguous(ps)
  {
    var m := Collapsed(ps);
    if Unambiguous(ps) {
      forall p | p in ps ensures exists q :: q in r && IdOf(q) == IdOf(p) {
        var q := m[JoinedId(p)];
        assert q in r && q in ps;
      }
    }
    if forall p :: p in ps ==> exists q :: q in r && IdOf(q) == IdOf(p) {
      forall p, q | p in ps && q in ps && JoinedId(p) == JoinedId(q) ensures IdOf(p) == IdOf(q) {
        var p' :| p' in r && IdOf(p') == IdOf(p);
        var q' :| q' in r && IdOf(q') == IdOf(q);
        assert JoinedId(p') == JoinedId(p) == JoinedId(q');
      }
    }
  }

  // ----- Collapse and the merge -----

  // The latest overall is the newer of what was there and the latest of the new points.
  lemma {:induction false} LatestSplits(cur: Option<Point>, ps: seq<Point>, k: Id)
    ensures Latest(cur, ps, k) == Newer(cur, Latest(None, ps, k))
  {
    if ps != [] {
      LatestSplits(cur, ps[..|ps| - 1], k);
    }
  }

  lemma {:induction false} LatestOnlyOne(ps: seq<Point>, k: Id, p: Point)
    requires forall q :: q in ps && IdOf(q) == k ==> q == p
    ensures Latest(None, ps, k) == if p in ps && IdOf(p) == k then Some(p) else None
  {
    if ps != [] {
      assert ps == ps[..|ps| - 1] + [ps[|ps| - 1]];
      LatestOnlyOne(ps[..|ps| - 1], k, p);
    }
  }

  lemma {:induction false} CollapsedIsLatest(ps: seq<Point>, p: Point)
    requires Unambiguous(ps) && p in ps
    ensures Latest(None, ps, IdOf(p)) == Some(Collapsed(ps)[JoinedId(p)])
  {
    hide IdOf, JoinedId, Latest, Collapsed;
    var n := |ps| - 1;
    var init, last := ps[..n], ps[n];
    assert ps == init + [last];
    SameId(p, last);
    var k := IdOf(p);
    LatestNext(ps, k);
    CollapsedNext(ps);
    if q :| q in init && IdOf(q) == k {
      SameId(p, q);
      CollapsedIsLatest(init, q);
    } else {
      LatestOnlyOne(init, k, p);
      assert JoinedId(p) !in Collapsed(init);
    }
  }

  lemma {:induction false} LatestNext(ps: seq<Point>, k: Id)
    requires ps != []
    ensures Latest(None, ps, k) ==
      Newer(Latest(None, ps[..|ps| - 1], k), if IdOf(ps[|ps| - 1]) == k then Some(ps[|ps| - 1]) else None)
  {
  }

  lemma {:induction false} CollapsedNext(ps: seq<Point>)
    requires ps != []
    ensures
      var m, p := Collapsed(ps[..|ps| - 1]), ps[|ps| - 1];
      Collapsed(ps) == if JoinedId(p) in m && m[JoinedId(p)].time > p.time then m else m[JoinedId(p) := p]
  {
  }

  lemma {:induction false} SameId(p: Point, q: Point)
    ensures IdOf(p) == IdOf(q) ==> JoinedId(p) == JoinedId(q)
  {
  }

  // Merging what Collapse leaves of a batch, in whatever order, gives the table that merging
  // the batch point by point in its own order gives.
  lemma {:induction false} CollapseThenMerge(t: Table, ps: seq<Point>, r: seq<Point>)
    requires Unambiguous(ps) && Lists(r, Collapsed(ps))
    ensures PutAll(t, r) == PutAll(t, ps)
  {
    forall k ensures At(PutAll(t, r), k) == At(PutAll(t, ps), k) {
      PutAllAt(t, r, k);
      PutAllAt(t, ps, k);
      LatestSplits(At(t, k), r, k);
      LatestSplits(At(t, k), ps, k);
      CollapseKeepsLatest(ps, r, k);
    }
    SameTable(PutAll(t, r), PutAll(t, ps));
  }

  lemma {:induction false} SameTable(t: Table, u: Table)
    requires forall k :: At(t, k) == At(u, k)
    ensures t == u
  {
    forall k ensures k in t <==> k in u {
      assert At(t, k) == At(u, k);
    }
    forall k | k in t ensures t[k] == u[k] {
      assert At(t, k) == At(u, k);
    }
  }

  lemma {:induction false} CollapseKeepsLatest(ps: seq<Point>, r: seq<Point>, k: Id)
    requires Unambiguous(ps) && Lists(r, Collapsed(ps))
    ensures Latest(None, r, k) == Latest(None, ps, k)
  {
    var m := Collapsed(ps);
    if exists p :: p in ps && IdOf(p) == k {
      var p :| p in ps && IdOf(p) == k;
      CollapsedIsLatest(ps, p);
      var q := m[JoinedId(p)];
      forall x | x in r && IdOf(x) == k ensures x == q {
        SameId(x, p);
      }
      LatestOnlyOne(r, k, q);
    } else {
      assert forall x :: x in r ==> x in ps;
      LatestOfOthers(ps, k);
      LatestOfOthers(r, k);
    }
  }

  lemma {:induction false} LatestOfOthers(ps: seq<Point>, k: Id)
    requires forall q :: q in ps ==> IdOf(q) != k
    ensures Latest(None, ps, k) == None
  {
    if ps != [] {
      LatestOfOthers(ps[..|ps| - 1], k);
    }
  }
}
