// What rounds of synchronisation come to: how many it takes until both trees are the same.
//
// A subtree that is missing locally comes over one level a round, because sendNodesLocal looks
// for the children of the node it has just stored on the local side (client/sync.go:536).
module SyncConvergence {
  import opened Wrappers
  import opened Points
  import opened SyncPoints
  import opened SyncTree
  import opened SyncRound

  function RoundLocal(sh: Shape, l: Replica, u: Replica): Replica {
    map m | m in l.Keys + u.Keys && LocalAfter(sh, l, u, m).Some? :: LocalAfter(sh, l, u, m).value
  }

  function RoundRemote(sh: Shape, l: Replica, u: Replica): Replica {
    map m | m in l.Keys + u.Keys && RemoteAfter(sh, l, u, m).Some? :: RemoteAfter(sh, l, u, m).value
  }

  datatype Pair = Pair(local: Replica, remote: Replica)

  function Rounds(sh: Shape, l: Replica, u: Replica, k: nat): Pair {
    if k == 0 then Pair(l, u)
    else
      var s := Rounds(sh, l, u, k - 1);
      Pair(RoundLocal(sh, s.local, s.remote), RoundRemote(sh, s.local, s.remote))
  }

  lemma {:induction false} AllUnderRoot(sh: Shape, r: Replica, m: string)
    requires Closed(sh, r) && m in r
    ensures Under(sh, sh.root, m) && sh.root in r
    decreases sh.depth(m)
  {
    if m != sh.root {
      AllUnderRoot(sh, r, sh.parent(m));
    }
  }

  lemma {:induction false} SameReplica(r: Replica, s: Replica)
    requires forall m :: Find(r, m) == Find(s, m)
    ensures r == s
  {
    forall m ensures m in r <==> m in s {
      assert Find(r, m) == Find(s, m);
    }
    forall m | m in r ensures r[m] == s[m] {
      assert Find(r, m) == Find(s, m);
    }
  }

  lemma {:induction false} RootRoundIsAll(sh: Shape, l: Replica, u: Replica, l2: Replica, u2: Replica)
    requires Closed(sh, l) && Closed(sh, u) && RoundIn(sh, l, u, l2, u2, SubtreeOf(sh.root))
    ensures l2 == RoundLocal(sh, l, u) && u2 == RoundRemote(sh, l, u)
  {
    hide TakeRec, RoundIn;
    forall m
      ensures Find(l2, m) == Find(RoundLocal(sh, l, u), m) && Find(u2, m) == Find(RoundRemote(sh, l, u), m)
    {
      Placed(sh, l, u, l2, u2, SubtreeOf(sh.root), m);
      if m in l {
        AllUnderRoot(sh, l, m);
      }
      if m in u {
        AllUnderRoot(sh, u, m);
      }
    }
    SameReplica(l2, RoundLocal(sh, l, u));
    SameReplica(u2, RoundRemote(sh, l, u));
  }

  // Ticks of the sync timer: the program's rounds are the rounds of the theorems below, if in the
  // states that the rounds begin with equal hashes mean equal subtrees.
  method RunRounds(c: SyncClient, k: nat, ghost top: nat)
    requires Ready(c.sh, top, c.local, c.remote) && Sums(c.sh, c.hash) && c.sh.root in c.local
    requires forall i :: 0 <= i < k ==> NoCollisionsAfter(c.sh, c.hash, c.local, c.remote, i)
    modifies c`local, c`remote
    ensures Pair(c.local, c.remote) == Rounds(c.sh, old(c.local), old(c.remote), k)
  {
    hide NoCollisions, Sums, RoundIn, TakeRec, Ready, RoundLocal, RoundRemote;
    ghost var a, b := c.local, c.remote;
    for i := 0 to k
      invariant Ready(c.sh, top, c.local, c.remote) && c.sh.root in c.local
      invariant Pair(c.local, c.remote) == Rounds(c.sh, a, b, i)
    {
      ghost var l, u := c.local, c.remote;
      ReadyIs(c.sh, top, l, u);
      assert NoCollisionsAfter(c.sh, c.hash, a, b, i);
      var found := c.SyncNode(c.sh.root, l, u, top);
      RootRoundIsAll(c.sh, l, u, c.local, c.remote);
      RootStays(c.sh, l, u);
    }
  }

  // Of the states after i rounds.
  ghost predicate NoCollisionsAfter(sh: Shape, hash: Digest, l: Replica, u: Replica, i: nat) {
    var s := Rounds(sh, l, u, i);
    NoCollisions(sh, hash, s.local, s.remote)
  }

  lemma {:induction false} RootStays(sh: Shape, l: Replica, u: Replica)
    requires sh.root in l
    ensures sh.root in RoundLocal(sh, l, u)
  {
  }

  // ----- the state after k rounds -----

  // How many nodes on the way from m up to the root are missing, m itself included?
  function Gap(sh: Shape, l: Replica, m: string): nat
    decreases sh.depth(m)
  {
    if m in l || m == sh.root || sh.depth(sh.parent(m)) >= sh.depth(m) then 0 else 1 + Gap(sh, l, sh.parent(m))
  }

  function FinalLocal(sh: Shape, l: Replica, u: Replica, m: string): Rec
    requires m in l || m in u
  {
    if m in l && m in u then TakeRec(sh, m, l[m], u[m]) else if m in l then l[m] else u[m]
  }

  function FinalRemote(sh: Shape, l: Replica, u: Replica, m: string): Rec
    requires m in l || m in u
  {
    if m in l && m in u then TakeRec(sh, m, u[m], l[m]) else if m in l then l[m] else u[m]
  }

  lemma {:induction false} TakeTwice(t: Table, u: Table)
    ensures Take(Take(t, u), Take(u, t)) == Take(t, u)
    ensures Take(t, t) == t
  {
  }

  lemma {:induction false} FinalStays(sh: Shape, l: Replica, u: Replica, m: string)
    requires m in l || m in u
    ensures TakeRec(sh, m, FinalLocal(sh, l, u, m), FinalRemote(sh, l, u, m)) == FinalLocal(sh, l, u, m)
    ensures TakeRec(sh, m, FinalRemote(sh, l, u, m), FinalLocal(sh, l, u, m)) == FinalRemote(sh, l, u, m)
  {
    hide Take;
    var x, y := if m in l then l[m] else u[m], if m in u then u[m] else l[m];
    TakeTwice(x.points, y.points);
    TakeTwice(y.points, x.points);
    TakeTwice(x.edge, y.edge);
    TakeTwice(y.edge, x.edge);
  }

  // After k rounds the other side has everything, and this side has all but the nodes with
  // more than k missing on their way up; what there is, is final.
  lemma {:induction false} AfterRounds(sh: Shape, l: Replica, u: Replica, k: nat, m: string)
    requires Closed(sh, l) && Closed(sh, u) && sh.root in l && k >= 1
    ensures Find(Rounds(sh, l, u, k).local, m) ==
      if (m in l || m in u) && Gap(sh, l, m) <= k then Some(FinalLocal(sh, l, u, m)) else None
    ensures Find(Rounds(sh, l, u, k).remote, m) ==
      if m in l || m in u then Some(FinalRemote(sh, l, u, m)) else None
    decreases k
  {
    hide TakeRec, FinalLocal, FinalRemote, LocalAfter, RemoteAfter, Gap, Find, RoundLocal, RoundRemote;
    var s := Rounds(sh, l, u, k - 1);
    RoundAt(sh, s.local, s.remote, m);
    if k == 1 {
      FirstRound(sh, l, u, m);
    } else {
      AfterRounds(sh, l, u, k - 1, m);
      AfterRounds(sh, l, u, k - 1, sh.parent(m));
      LaterRound(sh, l, u, s, k - 1, m);
    }
  }

  // What a node is after k rounds, on either side.
  ghost predicate KnownAfter(sh: Shape, l: Replica, u: Replica, s: Pair, k: nat, m: string) {
    && Find(s.local, m) == (if (m in l || m in u) && Gap(sh, l, m) <= k then Some(FinalLocal(sh, l, u, m)) else None)
    && Find(s.remote, m) == (if m in l || m in u then Some(FinalRemote(sh, l, u, m)) else None)
  }

  lemma {:induction false} LaterRound(sh: Shape, l: Replica, u: Replica, s: Pair, k: nat, m: string)
    requires Closed(sh, l) && Closed(sh, u) && sh.root in l
    requires KnownAfter(sh, l, u, s, k, m) && KnownAfter(sh, l, u, s, k, sh.parent(m))
    ensures LocalAfter(sh, s.local, s.remote, m) ==
      if (m in l || m in u) && Gap(sh, l, m) <= k + 1 then Some(FinalLocal(sh, l, u, m)) else None
    ensures RemoteAfter(sh, s.local, s.remote, m) ==
      if m in l || m in u then Some(FinalRemote(sh, l, u, m)) else None
  {
    hide TakeRec, FinalLocal, FinalRemote, Gap;
    if m in l || m in u {
      FinalStays(sh, l, u, m);
      GapHere(sh, l, u, m);
      if m !in l {
        assert sh.parent(m) in u;
        FinalHere(sh, l, u, m);
      }
    }
  }

  lemma {:induction false} GapHere(sh: Shape, l: Replica, u: Replica, m: string)
    requires Closed(sh, u) && sh.root in l && (m in l || m in u)
    ensures Gap(sh, l, m) == if m in l then 0 else 1 + Gap(sh, l, sh.parent(m))
  {
  }

  lemma {:induction false} RoundAt(sh: Shape, l: Replica, u: Replica, m: string)
    ensures Find(RoundLocal(sh, l, u), m) == LocalAfter(sh, l, u, m)
    ensures Find(RoundRemote(sh, l, u), m) == RemoteAfter(sh, l, u, m)
  {
    hide TakeRec;
  }

  lemma {:induction false} FinalHere(sh: Shape, l: Replica, u: Replica, m: string)
    requires m !in l && m in u
    ensures FinalLocal(sh, l, u, m) == FinalRemote(sh, l, u, m) == u[m]
  {
  }

  lemma {:induction false} FirstRound(sh: Shape, l: Replica, u: Replica, m: string)
    requires Closed(sh, l) && Closed(sh, u) && sh.root in l
    ensures LocalAfter(sh, l, u, m) ==
      if (m in l || m in u) && Gap(sh, l, m) <= 1 then Some(FinalLocal(sh, l, u, m)) else None
    ensures RemoteAfter(sh, l, u, m) ==
      if m in l || m in u then Some(FinalRemote(sh, l, u, m)) else None
  {
    hide TakeRec;
    if m in u && m !in l && sh.parent(m) !in l {
      assert Gap(sh, l, sh.parent(m)) >= 1;
    }
  }

  // ----- each side's own -----

  // The edge points of the root are what they were, on either side; where there was no root they
  // came with it.
  ghost predicate RootEdgesKept(sh: Shape, l: Replica, u: Replica, s: Pair, k: nat) {
    && sh.root in l && sh.root in s.local && s.local[sh.root].edge == l[sh.root].edge
    && (sh.root in s.remote <==> sh.root in u || k > 0)
    && (sh.root in s.remote ==> s.remote[sh.root].edge == if sh.root in u then u[sh.root].edge else l[sh.root].edge)
  }

  // No number of rounds touches them.
  lemma {:induction false} RootEdgeStays(sh: Shape, l: Replica, u: Replica, k: nat)
    requires sh.root in l
    ensures RootEdgesKept(sh, l, u, Rounds(sh, l, u, k), k)
  {
    hide RootEdgesKept, Rounds, RoundLocal, RoundRemote;
    RoundsAre(sh, l, u, k);
    if k == 0 {
      RootEdgesFirst(sh, l, u);
    } else {
      RootEdgeStays(sh, l, u, k - 1);
      RootEdgeNext(sh, l, u, Rounds(sh, l, u, k - 1), k - 1);
    }
  }

  lemma {:induction false} RootEdgesFirst(sh: Shape, l: Replica, u: Replica)
    requires sh.root in l
    ensures RootEdgesKept(sh, l, u, Pair(l, u), 0)
  {
  }

  lemma {:induction false} RootEdgeNext(sh: Shape, l: Replica, u: Replica, s: Pair, k: nat)
    requires RootEdgesKept(sh, l, u, s, k)
    ensures RootEdgesKept(sh, l, u, Pair(RoundLocal(sh, s.local, s.remote), RoundRemote(sh, s.local, s.remote)), k + 1)
  {
    hide Take, RoundLocal, RoundRemote;
    RoundAt(sh, s.local, s.remote, sh.root);
  }

  lemma {:induction false} RoundsAre(sh: Shape, l: Replica, u: Replica, k: nat)
    ensures k == 0 ==> Rounds(sh, l, u, k) == Pair(l, u)
    ensures k > 0 ==>
      var s := Rounds(sh, l, u, k - 1);
      Rounds(sh, l, u, k) == Pair(RoundLocal(sh, s.local, s.remote), RoundRemote(sh, s.local, s.remote))
  {
    hide RoundLocal, RoundRemote;
  }

  // Rounds leave both copies of a node with the newest points of either; of two points with the
  // same type, key and time that differ, each side keeps its own.
  lemma {:induction false} TiesStay(sh: Shape, l: Replica, u: Replica, k: nat, m: string)
    requires Closed(sh, l) && Closed(sh, u) && sh.root in l && k >= 1 && m in l && m in u
    ensures
      var s := Rounds(sh, l, u, k);
      && m in s.local && m in s.remote
      && KeepsOwn(l[m].points, u[m].points, s.local[m].points)
      && KeepsOwn(u[m].points, l[m].points, s.remote[m].points)
      && (m != sh.root ==>
            KeepsOwn(l[m].edge, u[m].edge, s.local[m].edge) && KeepsOwn(u[m].edge, l[m].edge, s.remote[m].edge))
  {
    hide Take, Rounds, KeepsOwn;
    AfterRounds(sh, l, u, k, m);
    TakeKeepsOwn(l[m].points, u[m].points);
    TakeKeepsOwn(u[m].points, l[m].points);
    TakeKeepsOwn(l[m].edge, u[m].edge);
    TakeKeepsOwn(u[m].edge, l[m].edge);
  }

  // r has the newest of the points of t and u, and those of t where both are as new.
  ghost predicate KeepsOwn(t: Table, u: Table, r: Table) {
    && HoldsNewest(t, u, r)
    && forall k :: k in t && k in u && t[k].time == u[k].time ==> r[k] == t[k]
  }

  lemma {:induction false} TakeKeepsOwn(t: Table, u: Table)
    ensures KeepsOwn(t, u, Take(t, u))
  {
  }

  // ----- convergence -----

  ghost predicate HoldsNewest(t: Table, u: Table, r: Table) {
    && r.Keys == t.Keys + u.Keys
    && forall k :: k in r ==>
      && ((k in t && r[k] == t[k]) || (k in u && r[k] == u[k]))
      && (k in t ==> t[k].time <= r[k].time)
      && (k in u ==> u[k].time <= r[k].time)
  }

  // The records of a node on both sides are the same, with the newest copy of every point;
  // only the edge points of the root are each side's own.
  ghost predicate NodeConverged(sh: Shape, l: Replica, u: Replica, m: string, x: Rec, y: Rec) {
    && SameRec(sh, m, x, y)
    && HoldsNewest(TableOf(l, m), TableOf(u, m), x.points)
    && (m != sh.root ==> HoldsNewest(EdgeOf(l, m), EdgeOf(u, m), x.edge))
  }

  // Both trees have the nodes of both.
  ghost predicate Converged(sh: Shape, l: Replica, u: Replica, s: Pair) {
    && s.local.Keys == s.remote.Keys == l.Keys + u.Keys
    && forall m :: m in s.local ==> NodeConverged(sh, l, u, m, s.local[m], s.remote[m])
  }

  lemma {:induction false} TakeHoldsNewest(t: Table, u: Table)
    ensures HoldsNewest(t, u, Take(t, u))
  {
  }

  lemma {:induction false} EmptySide(t: Table)
    ensures Take(t, map[]) == t && Take(map[], t) == t
  {
  }

  lemma {:induction false} FinalIsNewest(sh: Shape, l: Replica, u: Replica, m: string)
    requires (m in l || m in u) && TellApart(sh, l, u)
    ensures NodeConverged(sh, l, u, m, FinalLocal(sh, l, u, m), FinalRemote(sh, l, u, m))
  {
    hide Take, HoldsNewest;
    TakeHoldsNewest(TableOf(l, m), TableOf(u, m));
    TakeHoldsNewest(EdgeOf(l, m), EdgeOf(u, m));
    if m in l && m in u {
      TakeBothWays(l[m].points, u[m].points);
      if m != sh.root {
        TakeBothWays(l[m].edge, u[m].edge);
      }
    } else {
      var r := if m in l then l[m] else u[m];
      EmptySide(r.points);
      EmptySide(r.edge);
    }
  }

  // After one round or more the trees are the same exactly when no node of the upstream tree
  // has more nodes missing on its way to the root than there were rounds.
  lemma {:induction false} ConvergedIff(sh: Shape, l: Replica, u: Replica, k: nat)
    requires Closed(sh, l) && Closed(sh, u) && sh.root in l && k >= 1 && TellApart(sh, l, u)
    ensures Converged(sh, l, u, Rounds(sh, l, u, k)) <==> forall m :: m in u ==> Gap(sh, l, m) <= k
  {
    hide FinalLocal, FinalRemote, NodeConverged, Rounds, Closed, TellApart;
    var s := Rounds(sh, l, u, k);
    forall m
      ensures m in s.local <==> (m in l || m in u) && Gap(sh, l, m) <= k
      ensures m in s.remote <==> m in l || m in u
      ensures m in s.local ==> NodeConverged(sh, l, u, m, s.local[m], s.remote[m])
    {
      AfterRounds(sh, l, u, k, m);
      if m in l || m in u {
        FinalIsNewest(sh, l, u, m);
      }
    }
    if forall m :: m in u ==> Gap(sh, l, m) <= k {
      assert s.local.Keys == l.Keys + u.Keys;
    }
    if Converged(sh, l, u, s) {
      forall m | m in u ensures Gap(sh, l, m) <= k {
        assert m in s.local.Keys;
      }
    }
  }

  lemma {:induction false} GapWithinDepth(sh: Shape, l: Replica, u: Replica, m: string)
    requires Closed(sh, u) && sh.root in l && m in u
    ensures sh.depth(sh.root) + Gap(sh, l, m) <= sh.depth(m)
    decreases sh.depth(m)
  {
    if m != sh.root {
      GapWithinDepth(sh, l, u, sh.parent(m));
    }
  }

  // For an upstream tree of depth d, d rounds are enough, or one if it has no depth; from then
  // on rounds change nothing.
  lemma {:induction false} DepthRoundsConverge(sh: Shape, l: Replica, u: Replica, d: nat, k: nat)
    requires Closed(sh, l) && Closed(sh, u) && sh.root in l && TellApart(sh, l, u)
    requires forall m :: m in u ==> sh.depth(m) <= sh.depth(sh.root) + d
    requires k >= 1 && k >= d
    ensures Converged(sh, l, u, Rounds(sh, l, u, k))
    ensures Rounds(sh, l, u, k + 1) == Rounds(sh, l, u, k)
  {
    forall m | m in u ensures Gap(sh, l, m) <= k {
      GapWithinDepth(sh, l, u, m);
    }
    ConvergedIff(sh, l, u, k);
    StableIff(sh, l, u, k);
  }

  // A round changes nothing exactly when the trees had already converged.
  lemma {:induction false} StableIff(sh: Shape, l: Replica, u: Replica, k: nat)
    requires Closed(sh, l) && Closed(sh, u) && sh.root in l && k >= 1
    ensures Rounds(sh, l, u, k + 1) == Rounds(sh, l, u, k) <==> forall m :: m in u ==> Gap(sh, l, m) <= k
  {
    hide FinalLocal, FinalRemote, Rounds;
    var s, t := Rounds(sh, l, u, k), Rounds(sh, l, u, k + 1);
    forall m ensures Find(s.remote, m) == Find(t.remote, m)
      ensures Find(s.local, m) == Find(t.local, m) <==> (m in u ==> Gap(sh, l, m) != k + 1)
    {
      AfterRounds(sh, l, u, k, m);
      AfterRounds(sh, l, u, k + 1, m);
    }
    if forall m :: m in u ==> Gap(sh, l, m) <= k {
      SameReplica(s.local, t.local);
      SameReplica(s.remote, t.remote);
    }
    if s == t {
      forall m | m in u ensures Gap(sh, l, m) <= k {
        if Gap(sh, l, m) > k {
          var a := AncestorWithGap(sh, l, u, m, k + 1);
        }
      }
    }
  }

  lemma {:induction false} AncestorWithGap(sh: Shape, l: Replica, u: Replica, m: string, g: nat) returns (a: string)
    requires Closed(sh, u) && sh.root in l && m in u && 1 <= g <= Gap(sh, l, m)
    ensures a in u && Gap(sh, l, a) == g
    decreases sh.depth(m)
  {
    if Gap(sh, l, m) == g {
      a := m;
    } else {
      a := AncestorWithGap(sh, l, u, sh.parent(m), g);
    }
  }
}
