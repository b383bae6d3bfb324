// Synchronising the points of one node (client/sync.go, the comparison in syncNode).
//
// A point here is what the comparison and the wire keep of it: no data bytes and no origin.
module SyncPoints {
  import opened Wrappers
  import opened Points

  // ----- points: the newer copy -----

  function Take(t: Table, u: Table): (r: Table)
    ensures r.Keys == t.Keys + u.Keys
  {
    map k | k in t.Keys + u.Keys :: if k in t && (k !in u || t[k].time >= u[k].time) then t[k] else u[k]
  }

  // Points with the same type, key and time are the same point.
  ghost predicate TimesTellApart(t: Table, u: Table) {
    forall k :: k in t && k in u && t[k].time == u[k].time ==> t[k] == u[k]
  }

  lemma {:induction false} TakeBothWays(t: Table, u: Table)
    requires TimesTellApart(t, u)
    ensures Take(t, u) == Take(u, t)
  {
  }

  lemma {:induction false} TakeSame(t: Table)
    ensures Take(t, t) == t
  {
  }

  // ----- sending points -----

  ghost predicate IsListing(ps: seq<Point>, t: Table) {
    && (forall p :: p in ps <==> IdOf(p) in t && t[IdOf(p)] == p)
    && forall i, j :: 0 <= i < j < |ps| ==> IdOf(ps[i]) != IdOf(ps[j])
  }

  // The points of a node as a reply lists them, in no particular order.
  method List(t: Table) returns (ps: seq<Point>)
    ensures IsListing(ps, t)
  {
    hide IdOf;
    ps := [];
    var rest := t.Keys;
    while rest != {}
      invariant rest <= t.Keys
      invariant forall p :: p in ps <==> IdOf(p) in t && IdOf(p) !in rest && t[IdOf(p)] == p
      invariant forall i, j :: 0 <= i < j < |ps| ==> IdOf(ps[i]) != IdOf(ps[j])
      decreases rest
    {
      var k :| k in rest;
      ps := ps + [t[k]];
      rest := rest - {k};
    }
  }

  lemma {:induction false} PutListing(t: Table, ps: seq<Point>, u: Table)
    requires IsListing(ps, t)
    ensures forall k :: At(PutAll(u, ps), k) == Newer(At(u, k), At(t, k))
    ensures PutAll(map[], ps) == t && PutAll(t, ps) == t
  {
    forall k ensures Latest(None, ps, k) == At(t, k) {
      if k in t {
        LatestOnlyOne(ps, k, t[k]);
      } else {
        LatestOfOthers(ps, k);
      }
    }
    forall k, v: Table ensures At(PutAll(v, ps), k) == Newer(At(v, k), At(t, k)) {
      PutAllAt(v, ps, k);
      LatestSplits(At(v, k), ps, k);
    }
    SameTable(PutAll(map[], ps), t);
    SameTable(PutAll(t, ps), t);
  }

  // Point.IsMatch: a blank type matches any.
  predicate IsMatch(p: Point, typ: string, key: string) {
    !(typ != "" && typ != p.typ) && key == p.key
  }

  lemma {:induction false} TakeAt(t: Table, u: Table, k: Id)
    ensures At(Take(t, u), k) == Newer(At(u, k), At(t, k))
  {
  }

  // Has the side with table t to get the point p of the other side?
  predicate Wanted(p: Point, t: Table) {
    IdOf(p) in t ==> p.time > t[IdOf(p)].time
  }

  // The comparison of the points of one node: the newer of two copies goes to the other side,
  // a point that one side lacks goes there.  The result is what is sent to either side.
  method Exchange(local: Table, remote: Table) returns (toLocal: seq<Point>, toRemote: seq<Point>)
    requires forall k :: k in remote ==> k.typ != ""
    ensures forall p :: p in toLocal <==> IdOf(p) in remote && remote[IdOf(p)] == p && Wanted(p, local)
    ensures forall p :: p in toRemote <==> IdOf(p) in local && local[IdOf(p)] == p && Wanted(p, remote)
  {
    hide IdOf, Wanted;
    var ps := List(local);
    var ups := List(remote);
    toLocal, toRemote := [], [];
    var processed: set<nat> := {};
    for a := 0 to |ps|
      invariant forall i :: i in processed <==> 0 <= i < |ups| && Listed(ps, a, IdOf(ups[i]))
      invariant forall q :: q in toLocal <==> q in ups && Listed(ps, a, IdOf(q)) && Wanted(q, local)
      invariant forall q :: q in toRemote <==> q in ps && Listed(ps, a, IdOf(q)) && Wanted(q, remote)
    {
      NextListed(ps, a, local);
      processed, toLocal, toRemote := ExchangeOne(ps[a], local, remote, ups, processed, toLocal, toRemote);
    }
    Everything(ps, local);
    ghost var toLocal1 := toLocal;
    Everything(ups, remote);
    for i := 0 to |ups|
      invariant forall q :: q in toLocal <==> q in toLocal1 || (q in ups && Listed(ups, i, IdOf(q)) && IdOf(q) !in local)
    {
      NextListed(ups, i, remote);
      if i !in processed {
        toLocal := toLocal + [ups[i]];
      }
    }
    forall q | IdOf(q) !in local ensures Wanted(q, local) {
      WantedIs(q, local);
    }
  }

  // One round of the outer loop: a local point against every remote one.
  method ExchangeOne(p: Point, local: Table, remote: Table, ups: seq<Point>,
                     processed0: set<nat>, toLocal0: seq<Point>, toRemote0: seq<Point>)
    returns (processed: set<nat>, toLocal: seq<Point>, toRemote: seq<Point>)
    requires forall k :: k in remote ==> k.typ != ""
    requires IsListing(ups, remote) && IdOf(p) in local && local[IdOf(p)] == p
    ensures forall i :: i in processed <==> i in processed0 || (0 <= i < |ups| && IdOf(ups[i]) == IdOf(p))
    ensures forall q :: q in toLocal <==> q in toLocal0 || (q in ups && IdOf(q) == IdOf(p) && Wanted(q, local))
    ensures forall q :: q in toRemote <==> q in toRemote0 || (q == p && Wanted(p, remote))
  {
    hide IdOf, Wanted;
    processed, toLocal, toRemote := processed0, toLocal0, toRemote0;
    var found := false;
    for i := 0 to |ups|
      invariant found <==> Listed(ups, i, IdOf(p))
      invariant forall j :: j in processed <==> j in processed0 || (0 <= j < i && IdOf(ups[j]) == IdOf(p))
      invariant forall q :: q in toLocal <==>
        (q in toLocal0 || (q in ups && Listed(ups, i, IdOf(q)) && IdOf(q) == IdOf(p) && Wanted(q, local)))
      invariant forall q :: q in toRemote <==> q in toRemote0 || (found && q == p && Wanted(p, remote))
    {
      var pUp := ups[i];
      NextListed(ups, i, remote);
      MatchIsSameId(p, pUp);
      if IsMatch(p, pUp.typ, pUp.key) {
        WantedIs(p, remote);
        WantedIs(pUp, local);
        found := true;
        processed := processed + {i};
        if p.time > pUp.time {
          toRemote := toRemote + [p];
        } else if p.time < pUp.time {
          toLocal := toLocal + [pUp];
        }
      }
    }
    Everything(ups, remote);
    if !found {
      WantedIs(p, remote);
      toRemote := toRemote + [p];
    }
  }

  lemma {:induction false} NextListed(ps: seq<Point>, a: nat, t: Table)
    requires a < |ps| && IsListing(ps, t)
    ensures IdOf(ps[a]) in t && t[IdOf(ps[a])] == ps[a] && ps[a] in ps
    ensures !Listed(ps, a, IdOf(ps[a]))
    ensures forall k :: Listed(ps, a + 1, k) <==> Listed(ps, a, k) || k == IdOf(ps[a])
    ensures forall q :: q in ps && IdOf(q) == IdOf(ps[a]) ==> q == ps[a]
  {
    assert ps[a] in ps;
  }

  lemma {:induction false} MatchIsSameId(p: Point, q: Point)
    ensures q.typ != "" ==> (IsMatch(p, q.typ, q.key) <==> IdOf(p) == IdOf(q))
    ensures IdOf(q).typ == q.typ
  {
  }

  lemma {:induction false} WantedIs(p: Point, t: Table)
    ensures Wanted(p, t) <==> (IdOf(p) in t ==> p.time > t[IdOf(p)].time)
  {
  }

  ghost predicate Listed(ps: seq<Point>, n: nat, k: Id)
    requires n <= |ps|
  {
    exists i :: 0 <= i < n && IdOf(ps[i]) == k
  }

  lemma {:induction false} Everything(ps: seq<Point>, t: Table)
    requires IsListing(ps, t)
    ensures forall k :: Listed(ps, |ps|, k) <==> k in t
  {
    forall k ensures Listed(ps, |ps|, k) <==> k in t {
      if Listed(ps, |ps|, k) {
        var i :| 0 <= i < |ps| && IdOf(ps[i]) == k;
        assert ps[i] in ps;
      }
      if k in t {
        assert IdOf(t[k]) == k && t[k] in ps;
      }
    }
  }

  // What a side has after the points sent to it: the newer copy of everything.
  lemma {:induction false} SentIsTaken(t: Table, u: Table, sent: seq<Point>)
    requires forall p :: p in sent <==> IdOf(p) in u && u[IdOf(p)] == p && Wanted(p, t)
    ensures PutAll(t, sent) == Take(t, u)
  {
    forall k ensures At(PutAll(t, sent), k) == At(Take(t, u), k) {
      PutAllAt(t, sent, k);
      LatestSplits(At(t, k), sent, k);
      TakeAt(t, u, k);
      if k in u {
        LatestOnlyOne(sent, k, u[k]);
      } else {
        LatestOfOthers(sent, k);
      }
    }
    SameTable(PutAll(t, sent), Take(t, u));
  }
}
