// One round of synchronisation: syncNode at the root, with the sends of missing subtrees
// (client/sync.go).
module SyncRound {
  import opened Wrappers
  import opened Points
  import opened SyncPoints
  import opened SyncTree

  ghost predicate Shallow(sh: Shape, r: Replica, top: nat) {
    forall m :: m in r ==> sh.depth(m) <= top
  }

  // SendNode to a replica: the points of the node and of its edge are merged there.
  function Received(r: Replica, m: string, points: seq<Point>, edge: seq<Point>): Replica {
    r[m := Rec(PutAll(TableOf(r, m), points), PutAll(EdgeOf(r, m), edge))]
  }

  lemma {:induction false} NewlyReceived(r: Replica, m: string, rec: Rec, points: seq<Point>, edge: seq<Point>)
    requires IsListing(points, rec.points) && IsListing(edge, rec.edge)
    requires m !in r || r[m] == rec
    ensures Received(r, m, points, edge) == r[m := rec]
  {
    PutListing(rec.points, points, map[]);
    PutListing(rec.edge, edge, map[]);
  }

  // ----- the state of a round -----

  datatype Region = SubtreeOf(n: string) | BelowOf(n: string) | SubtreesOf(done: set<string>) | Only(n: string)

  ghost predicate In(sh: Shape, reg: Region, m: string) {
    match reg
    case SubtreeOf(n) => Under(sh, n, m)
    case BelowOf(n) => Under(sh, n, m) && m != n
    case SubtreesOf(done) => InSome(sh, done, m)
    case Only(n) => m == n
  }

  // From l and u, the nodes of a region have had their round and the others are as they were.
  ghost predicate RoundIn(sh: Shape, l: Replica, u: Replica, l2: Replica, u2: Replica, reg: Region) {
    forall m ::
      && Find(l2, m) == (if In(sh, reg, m) then LocalAfter(sh, l, u, m) else Find(l, m))
      && Find(u2, m) == (if In(sh, reg, m) then RemoteAfter(sh, l, u, m) else Find(u, m))
  }

  // The points of a record, and of its edge, all have a type.
  ghost predicate AllTyped(r: Replica) {
    forall m :: m in r ==> Typed(r[m].points) && Typed(r[m].edge)
  }

  ghost predicate Ready(sh: Shape, top: nat, l: Replica, u: Replica) {
    && Closed(sh, l) && Closed(sh, u)
    && Shallow(sh, l, top) && Shallow(sh, u, top)
    && AllTyped(l) && AllTyped(u)
  }

  // ----- what is asked of the hash -----

  // Where both sides have a node, equal hashes mean equal subtrees.
  ghost predicate NoCollisions(sh: Shape, hash: Digest, l: Replica, u: Replica) {
    forall n :: n in l && n in u && hash(l, n) == hash(u, n) ==> SameSub(sh, l, u, n)
  }

  // In a region two replicas are the same.
  ghost predicate SameIn(sh: Shape, reg: Region, r: Replica, s: Replica) {
    forall m :: In(sh, reg, m) ==> Find(r, m) == Find(s, m)
  }

  // The hash of a node depends on its subtree only.
  ghost predicate Sums(sh: Shape, hash: Digest) {
    forall r, s, n :: SameIn(sh, SubtreeOf(n), r, s) ==> hash(r, n) == hash(s, n)
  }

  lemma {:induction false} ReadyIs(sh: Shape, top: nat, l: Replica, u: Replica)
    requires Ready(sh, top, l, u)
    ensures Closed(sh, l) && Closed(sh, u) && Shallow(sh, l, top) && Shallow(sh, u, top)
    ensures AllTyped(l) && AllTyped(u)
  {
  }

  lemma {:induction false} TypedTake(t: Table, u: Table)
    requires Typed(t) && Typed(u)
    ensures Typed(Take(t, u))
  {
  }

  lemma {:induction false} StaysTyped(sh: Shape, l: Replica, u: Replica, l2: Replica, u2: Replica, reg: Region)
    requires AllTyped(l) && AllTyped(u) && RoundIn(sh, l, u, l2, u2, reg)
    ensures AllTyped(l2) && AllTyped(u2)
  {
    hide In, Typed, TakeRec, LocalAfter, RemoteAfter;
    forall m
      ensures m in l2 ==> Typed(l2[m].points) && Typed(l2[m].edge)
      ensures m in u2 ==> Typed(u2[m].points) && Typed(u2[m].edge)
    {
      Placed(sh, l, u, l2, u2, reg, m);
      TypedAfter(sh, l, u, m);
    }
  }

  lemma {:induction false} TypedAfter(sh: Shape, l: Replica, u: Replica, m: string)
    requires AllTyped(l) && AllTyped(u)
    ensures LocalAfter(sh, l, u, m).Some? ==>
      Typed(LocalAfter(sh, l, u, m).value.points) && Typed(LocalAfter(sh, l, u, m).value.edge)
    ensures RemoteAfter(sh, l, u, m).Some? ==>
      Typed(RemoteAfter(sh, l, u, m).value.points) && Typed(RemoteAfter(sh, l, u, m).value.edge)
  {
    hide Take, Typed;
    if m in l && m in u {
      TypedTake(l[m].points, u[m].points);
      TypedTake(u[m].points, l[m].points);
      TypedTake(l[m].edge, u[m].edge);
      TypedTake(u[m].edge, l[m].edge);
    }
  }

  lemma {:induction false} StaysClosed(sh: Shape, top: nat, l: Replica, u: Replica, l2: Replica, u2: Replica,
          reg: Region)
    requires Closed(sh, l) && Closed(sh, u) && Shallow(sh, l, top) && Shallow(sh, u, top)
    requires RoundIn(sh, l, u, l2, u2, reg)
    requires forall m :: In(sh, reg, m) && m in l && m !in u && m != sh.root ==>
      In(sh, reg, sh.parent(m)) || sh.parent(m) in u
    ensures Closed(sh, l2) && Closed(sh, u2) && Shallow(sh, l2, top) && Shallow(sh, u2, top)
  {
    hide In, TakeRec;
    forall m
      ensures m in l2 ==> m == sh.root || (sh.parent(m) in l2 && sh.depth(m) == sh.depth(sh.parent(m)) + 1)
      ensures m in u2 ==> m == sh.root || (sh.parent(m) in u2 && sh.depth(m) == sh.depth(sh.parent(m)) + 1)
      ensures m in l2 || m in u2 ==> sh.depth(m) <= top
    {
      Placed(sh, l, u, l2, u2, reg, m);
      Placed(sh, l, u, l2, u2, reg, sh.parent(m));
    }
  }

  lemma {:induction false} Placed(sh: Shape, l: Replica, u: Replica, l2: Replica, u2: Replica, reg: Region, m: string)
    requires RoundIn(sh, l, u, l2, u2, reg)
    ensures Find(l2, m) == (if In(sh, reg, m) then LocalAfter(sh, l, u, m) else Find(l, m))
    ensures Find(u2, m) == (if In(sh, reg, m) then RemoteAfter(sh, l, u, m) else Find(u, m))
  {
  }

  lemma {:induction false} StaysReady(sh: Shape, top: nat, l: Replica, u: Replica,
          l2: Replica, u2: Replica, reg: Region)
    requires Ready(sh, top, l, u) && RoundIn(sh, l, u, l2, u2, reg)
    requires forall m :: In(sh, reg, m) && m in l && m !in u && m != sh.root ==>
      In(sh, reg, sh.parent(m)) || sh.parent(m) in u
    ensures Ready(sh, top, l2, u2)
  {
    hide In, AllTyped, Closed, Shallow, RoundIn;
    StaysTyped(sh, l, u, l2, u2, reg);
    StaysClosed(sh, top, l, u, l2, u2, reg);
  }

  // The edge points of the root are each side's own; where there is no root yet it comes whole.
  lemma {:induction false} RootEdge(sh: Shape, l: Replica, u: Replica, l2: Replica, u2: Replica, n: string)
    requires RoundIn(sh, l, u, l2, u2, SubtreeOf(n)) && n in l
    ensures n in l2 && n in u2
    ensures n == sh.root ==>
      l2[n].edge == l[n].edge && u2[n].edge == if n in u then u[n].edge else l[n].edge
  {
    hide RoundIn, Under, Take;
    SelfUnder(sh, n);
    Placed(sh, l, u, l2, u2, SubtreeOf(n), n);
  }

  // The exchange of two tables and what both stores make of the points sent to them.
  method Newest(local: Table, remote: Table) returns (local': Table, remote': Table)
    requires Typed(remote)
    ensures local' == Take(local, remote) && remote' == Take(remote, local)
  {
    hide Take, PutAll, Wanted;
    var toLocal, toRemote := Exchange(local, remote);
    SentIsTaken(local, remote, toLocal);
    SentIsTaken(remote, local, toRemote);
    local', remote' := PutAll(local, toLocal), PutAll(remote, toRemote);
  }

  class SyncClient {
    const sh: Shape
    const hash: Digest
    var local: Replica
    var remote: Replica

    constructor (sh: Shape, hash: Digest, local: Replica, remote: Replica)
      ensures this.sh == sh && this.hash == hash && this.local == local && this.remote == remote
    {
      this.sh, this.hash, this.local, this.remote := sh, hash, local, remote;
    }

    // A local subtree that the other side lacks is sent whole.
    method SendNodesRemote(n: string, ghost top: nat)
      requires n in local && Closed(sh, local) && Shallow(sh, local, top)
      requires forall m :: Under(sh, n, m) ==> m !in remote
      modifies this`remote
      ensures forall m :: Find(remote, m) == if Under(sh, n, m) then Find(local, m) else Find(old(remote), m)
      decreases top - sh.depth(n)
    {
      hide Under, Received;
      var rec := local[n];
      var points := List(rec.points);
      var edge := List(rec.edge);
      assert Under(sh, n, n) by { SelfUnder(sh, n); }
      NewlyReceived(remote, n, rec, points, edge);
      remote := Received(remote, n, points, edge);
      ghost var kids := Children(sh, local, n);
      ghost var done: set<string> := {};
      var todo := Children(sh, local, n);
      while todo != {}
        invariant done !! todo && done + todo == kids
        invariant forall m ::
          Find(remote, m) == (if m == n || InSome(sh, done, m) then Find(local, m) else Find(old(remote), m))
        decreases todo
      {
        var c :| c in todo;
        forall m | Under(sh, c, m) ensures m !in remote {
          ChildUnder(sh, local, n, c, m);
          NotInOthers(sh, local, n, done, c, m);
        }
        ChildDeeper(sh, local, n, c);
        ghost var before := remote;
        SendNodesRemote(c, top);
        forall m ensures InSome(sh, done + {c}, m) <==> InSome(sh, done, m) || Under(sh, c, m) {
          InSomeMore(sh, done, c, m);
        }
        done := done + {c};
        todo := todo - {c};
      }
      assert done == kids;
      forall m ensures Find(remote, m) == if Under(sh, n, m) then Find(local, m) else Find(old(remote), m) {
        Subtree(sh, local, n, m);
      }
    }

    // A subtree that only the other side has: its top is sent here, and then what children it
    // has here, which is none.
    method SendNodesLocal(n: string, rec: Rec, ghost top: nat)
      requires Closed(sh, local) && Shallow(sh, local, top) && sh.depth(n) <= top
      requires n in local ==> local[n] == rec
      requires n !in local ==> n != sh.root && sh.parent(n) in local && sh.depth(n) == sh.depth(sh.parent(n)) + 1
      modifies this`local
      ensures local == old(local)[n := rec]
      decreases top - sh.depth(n)
    {
      var points := List(rec.points);
      var edge := List(rec.edge);
      NewlyReceived(local, n, rec, points, edge);
      local := Received(local, n, points, edge);
      var todo := Children(sh, local, n);
      while todo != {}
        invariant todo <= Children(sh, local, n)
        invariant local == old(local)[n := rec]
        invariant Closed(sh, local)
        decreases todo
      {
        var c :| c in todo;
        ghost var before := local;
        SendNodesLocal(c, local[c], top);
        assert local == before;
        todo := todo - {c};
      }
    }

    // In a round that began with l0 and u0.
    ghost predicate ReadyFor(l0: Replica, u0: Replica, top: nat)
      reads this
    {
      NoCollisions(sh, hash, l0, u0) && Sums(sh, hash) && Ready(sh, top, local, remote)
    }

    // Nothing has happened in a region since.
    ghost predicate Untouched(l0: Replica, u0: Replica, reg: Region)
      reads this
    {
      SameIn(sh, reg, local, l0) && SameIn(sh, reg, remote, u0)
    }

    // syncNode: every node below n ends its round on both sides, whichever subtrees the
    // hashes let the walk skip.
    method SyncNode(n: string, ghost l0: Replica, ghost u0: Replica, ghost top: nat) returns (found: bool)
      requires ReadyFor(l0, u0, top) && Untouched(l0, u0, SubtreeOf(n))
      requires n in remote || n == sh.root
      modifies this`local, this`remote
      ensures found <==> n in old(local)
      ensures ReadyFor(l0, u0, top)
      ensures found ==> RoundIn(sh, old(local), old(remote), local, remote, SubtreeOf(n))
      ensures !found ==> local == old(local) && remote == old(remote)
      ensures found && n == sh.root ==>
        && n in local && n in remote && local[n].edge == old(local)[n].edge
        && remote[n].edge == (if n in old(remote) then old(remote)[n].edge else old(local)[n].edge)
      decreases top - sh.depth(n), 2
    {
      hide NoCollisions, Sums, SameIn, Ready, RoundIn, SameSub, Under, TakeRec;
      found := n in local;
      if !found {
        return;
      }
      ReadyIs(sh, top, local, remote);
      ghost var l, u := local, remote;
      if n !in remote {
        NoneUnder(sh, remote, n);
        SendNodesRemote(n, top);
        SentWhole(sh, l, u, n, remote);
        SubtreeReady(sh, top, l, u, local, remote, n);
        RootEdge(sh, l, u, local, remote, n);
        return;
      }
      if hash(remote, n) == hash(local, n) {
        EqualHashes(sh, hash, l0, u0, local, remote, n);
        NothingToDo(sh, l, u, n);
        RootEdge(sh, l, u, local, remote, n);
        return;
      }
      SyncOwn(n);
      OwnRound(sh, top, l, u, local, remote, n);
      OwnLeavesBelow(sh, l0, u0, l, u, local, remote, n);
      ghost var l1, u1 := local, remote;
      SyncChildren(n, l0, u0, top);
      TwoParts(sh, l, u, l1, u1, local, remote, n);
      RootEdge(sh, l, u, local, remote, n);
    }

    // The points of a node that both sides have, and the points of its edge.
    method SyncOwn(n: string)
      requires n in local && n in remote && Typed(remote[n].points) && Typed(remote[n].edge)
      modifies this`local, this`remote
      ensures local == old(local)[n := TakeRec(sh, n, old(local)[n], old(remote)[n])]
      ensures remote == old(remote)[n := TakeRec(sh, n, old(remote)[n], old(local)[n])]
    {
      hide Take;
      var nodeLocal, nodeUp := local[n], remote[n];
      var points, upPoints := Newest(nodeLocal.points, nodeUp.points);
      var edge, upEdge := nodeLocal.edge, nodeUp.edge;
      if n != sh.root {
        edge, upEdge := Newest(nodeLocal.edge, nodeUp.edge);
      }
      local := local[n := Rec(points, edge)];
      remote := remote[n := Rec(upPoints, upEdge)];
    }

    // The children of a node that both sides have.
    method SyncChildren(n: string, ghost l0: Replica, ghost u0: Replica, ghost top: nat)
      requires ReadyFor(l0, u0, top) && Untouched(l0, u0, BelowOf(n)) && n in local && n in remote
      modifies this`local, this`remote
      ensures ReadyFor(l0, u0, top)
      ensures RoundIn(sh, old(local), old(remote), local, remote, BelowOf(n))
      decreases top - sh.depth(n), 1
    {
      hide NoCollisions, Ready, RoundIn, Under, InSome, SameSub;
      ReadyIs(sh, top, local, remote);
      var l, u := local, remote;
      var children := Children(sh, l, n);
      ghost var done: set<string> := {};
      var todo := children;
      NothingYet(sh, l, u);
      while todo != {}
        invariant done !! todo && done + todo == children
        invariant ReadyFor(l0, u0, top)
        invariant RoundIn(sh, l, u, local, remote, SubtreesOf(done))
        decreases todo
      {
        var c :| c in todo;
        ghost var l1, u1 := local, remote;
        SyncChild(n, c, l, u, done, l0, u0, top);
        OneMoreChild(sh, l, u, l1, u1, local, remote, n, done, c);
        done := done + {c};
        todo := todo - {c};
      }
      assert done == children;
      FetchMissing(n, l, u, l0, u0, top);
    }

    // One local child: compared with its copy on the other side, or sent there whole.
    method SyncChild(n: string, c: string, l: Replica, u: Replica, ghost done: set<string>,
                     ghost l0: Replica, ghost u0: Replica, ghost top: nat)
      requires ReadyFor(l0, u0, top) && Ready(sh, top, l, u)
      requires SameIn(sh, BelowOf(n), l, l0) && SameIn(sh, BelowOf(n), u, u0)
      requires n in l && n in u && done <= Children(sh, l, n) && c in Children(sh, l, n) && c !in done
      requires RoundIn(sh, l, u, local, remote, SubtreesOf(done))
      modifies this`local, this`remote
      ensures ReadyFor(l0, u0, top)
      ensures RoundIn(sh, old(local), old(remote), local, remote, SubtreeOf(c))
      decreases top - sh.depth(n), 0
    {
      hide NoCollisions, Sums, SameIn, Ready, RoundIn, Under, InSome, SameSub, Children;
      ghost var l1, u1 := local, remote;
      ReadyIs(sh, top, l, u);
      ReadyIs(sh, top, l1, u1);
      ChildUntouched(sh, l, u, l1, u1, n, done, c);
      ChildSameIn(sh, l, l0, u, u0, l1, u1, n, c);
      ChildDeeper(sh, l, n, c);
      if c in Children(sh, u, n) {
        assert c in u by { ChildDeeper(sh, u, n, c); }
        if hash(l, c) != hash(u, c) {
          assert sh.depth(c) <= top by { ChildInRange(sh, l, top, c); }
          var found := SyncNode(c, l0, u0, top);
        } else {
          EqualHashes(sh, hash, l0, u0, l, u, c);
          SameSubUntouched(sh, l, u, l1, u1, c);
          NothingToDo(sh, l1, u1, c);
        }
      } else {
        assert c !in u by { NotChild(sh, l, u, n, c); }
        SendChild(n, c, l0, u0, top);
      }
    }

    // A child that the other side lacks is sent with all that is below it.
    method SendChild(n: string, c: string, ghost l0: Replica, ghost u0: Replica, ghost top: nat)
      requires ReadyFor(l0, u0, top) && n in remote && c in Children(sh, local, n) && c in local && c !in remote
      modifies this`local, this`remote
      ensures ReadyFor(l0, u0, top)
      ensures RoundIn(sh, old(local), old(remote), local, remote, SubtreeOf(c))
    {
      hide NoCollisions, Ready, RoundIn, Under, SameSub, Children;
      ghost var l1, u1 := local, remote;
      ReadyIs(sh, top, l1, u1);
      ChildDeeper(sh, l1, n, c);
      ParentIs(sh, l1, n, c);
      NoneUnder(sh, u1, c);
      SendNodesRemote(c, top);
      SentWhole(sh, l1, u1, c, remote);
      SubtreeReadyChild(sh, top, l1, u1, local, remote, n, c);
    }

    method FetchOne(n: string, c: string, u: Replica, ghost l1: Replica, ghost done: set<string>, ghost top: nat)
      requires Closed(sh, u) && Shallow(sh, u, top) && c in Children(sh, u, n) && c in u
      requires Closed(sh, local) && Shallow(sh, local, top) && n in local && c !in local
      requires forall m :: Find(local, m) == (if m in done then Find(u, m) else Find(l1, m))
      modifies this`local
      ensures forall m :: Find(local, m) == (if m in done + {c} then Find(u, m) else Find(l1, m))
      ensures Closed(sh, local) && Shallow(sh, local, top) && n in local
    {
      hide Children, Closed, Shallow;
      ghost var before := local;
      ChildDeeper(sh, u, n, c);
      ChildInRange(sh, u, top, c);
      ParentIs(sh, u, n, c);
      SendNodesLocal(c, u[c], top);
      OneMoreNode(sh, before, c, u[c], top);
      OneMoreFound(l1, before, u, done, c);
    }

    // The children that only the other side has.
    method FetchMissing(n: string, l: Replica, u: Replica, ghost l0: Replica, ghost u0: Replica, ghost top: nat)
      requires ReadyFor(l0, u0, top) && Ready(sh, top, l, u)
      requires n in l && n in u
      requires RoundIn(sh, l, u, local, remote, SubtreesOf(Children(sh, l, n)))
      modifies this`local
      ensures ReadyFor(l0, u0, top)
      ensures RoundIn(sh, l, u, local, remote, BelowOf(n))
    {
      hide NoCollisions, Ready, RoundIn, Under, InSome, SameSub, Children, Closed, Shallow;
      ReadyIs(sh, top, l, u);
      ReadyIs(sh, top, local, remote);
      ghost var l1 := local;
      var missing := Children(sh, u, n) - Children(sh, l, n);
      ghost var done: set<string> := {};
      var todo := missing;
      Missing(sh, l, u, l1, remote, n);
      ghost var missed := missing;
      while todo != {}
        invariant done !! todo && done + todo == missed
        invariant forall m :: Find(local, m) == (if m in done then Find(u, m) else Find(l1, m))
        invariant Closed(sh, local) && Shallow(sh, local, top) && n in local
        decreases todo
      {
        var c :| c in todo;
        assert c in missed && c !in l1 && Find(local, c) == Find(l1, c);
        FetchOne(n, c, u, l1, done, top);
        OneLess(missed, done, todo, c);
        done := done + {c};
        todo := todo - {c};
      }
      assert done == missed;
      Fetched(sh, l, u, l1, remote, local, n);
      BelowReady(sh, top, l, u, local, remote, n);
    }
  }

  // ----- regions -----

  // Equal hashes of a subtree in which nothing has happened since the round began.
  lemma {:induction false} EqualHashes(sh: Shape, hash: Digest, l0: Replica, u0: Replica, l: Replica, u: Replica, n: string)
    requires NoCollisions(sh, hash, l0, u0) && Sums(sh, hash) && n in l && n in u
    requires SameIn(sh, SubtreeOf(n), l, l0) && SameIn(sh, SubtreeOf(n), u, u0)
    requires hash(l, n) == hash(u, n)
    ensures SameSub(sh, l, u, n)
  {
    SelfUnder(sh, n);
    hide Under;
    assert Find(l, n) == Find(l0, n) && Find(u, n) == Find(u0, n);
    assert SameSub(sh, l0, u0, n);
    SameSubUntouched(sh, l0, u0, l, u, n);
  }

  lemma {:induction false} OwnLeavesBelow(sh: Shape, l0: Replica, u0: Replica, l: Replica, u: Replica, l1: Replica,
          u1: Replica, n: string)
    requires SameIn(sh, SubtreeOf(n), l, l0) && SameIn(sh, SubtreeOf(n), u, u0)
    requires RoundIn(sh, l, u, l1, u1, Only(n))
    ensures SameIn(sh, BelowOf(n), l1, l0) && SameIn(sh, BelowOf(n), u1, u0)
  {
    hide Under, TakeRec;
    forall m | In(sh, BelowOf(n), m)
      ensures Find(l1, m) == Find(l0, m) && Find(u1, m) == Find(u0, m)
    {
      Placed(sh, l, u, l1, u1, Only(n), m);
      assert In(sh, SubtreeOf(n), m);
    }
  }

  lemma {:induction false} ChildSameIn(sh: Shape, l: Replica, l0: Replica, u: Replica, u0: Replica, l1: Replica,
          u1: Replica, n: string, c: string)
    requires Closed(sh, l) && c in Children(sh, l, n)
    requires SameIn(sh, BelowOf(n), l, l0) && SameIn(sh, BelowOf(n), u, u0)
    requires forall m :: Under(sh, c, m) ==> Find(l1, m) == Find(l, m) && Find(u1, m) == Find(u, m)
    ensures SameIn(sh, SubtreeOf(c), l, l0) && SameIn(sh, SubtreeOf(c), u, u0)
    ensures SameIn(sh, SubtreeOf(c), l1, l0) && SameIn(sh, SubtreeOf(c), u1, u0)
  {
    hide Under, Closed;
    forall m | Under(sh, c, m)
      ensures In(sh, BelowOf(n), m)
    {
      ChildUnder(sh, l, n, c, m);
    }
  }

  // A subtree sent to a side that had nothing of it.
  lemma {:induction false} SentWhole(sh: Shape, l: Replica, u: Replica, n: string, u2: Replica)
    requires forall m :: Under(sh, n, m) ==> m !in u
    requires forall m :: Find(u2, m) == if Under(sh, n, m) then Find(l, m) else Find(u, m)
    ensures RoundIn(sh, l, u, l, u2, SubtreeOf(n))
  {
    hide Under, TakeRec;
  }

  // Where the subtrees are the same, the round changes nothing.
  lemma {:induction false} NothingToDo(sh: Shape, l: Replica, u: Replica, n: string)
    requires SameSub(sh, l, u, n)
    ensures RoundIn(sh, l, u, l, u, SubtreeOf(n))
  {
    hide Under, Take;
    forall m | Under(sh, n, m)
      ensures LocalAfter(sh, l, u, m) == Find(l, m) && RemoteAfter(sh, l, u, m) == Find(u, m)
    {
      if m in l && m in u {
        assert SameRec(sh, m, l[m], u[m]);
        TakeSame(l[m].points);
        TakeSame(l[m].edge);
      }
    }
  }

  lemma {:induction false} NothingYet(sh: Shape, l: Replica, u: Replica)
    ensures RoundIn(sh, l, u, l, u, SubtreesOf({}))
  {
  }

  lemma {:induction false} SubtreeReady(sh: Shape, top: nat, l: Replica, u: Replica,
          l2: Replica, u2: Replica, n: string)
    requires Ready(sh, top, l, u) && RoundIn(sh, l, u, l2, u2, SubtreeOf(n))
    requires n in u || n == sh.root || sh.parent(n) in u
    ensures Ready(sh, top, l2, u2)
  {
    hide AllTyped, RoundIn, Shallow;
    StaysReady(sh, top, l, u, l2, u2, SubtreeOf(n));
  }

  lemma {:induction false} SubtreeReadyChild(sh: Shape, top: nat, l: Replica, u: Replica,
          l2: Replica, u2: Replica, n: string, c: string)
    requires Ready(sh, top, l, u) && RoundIn(sh, l, u, l2, u2, SubtreeOf(c))
    requires c in Children(sh, l, n) && n in u
    ensures Ready(sh, top, l2, u2)
  {
    SubtreeReady(sh, top, l, u, l2, u2, c);
  }

  lemma {:induction false} BelowReady(sh: Shape, top: nat, l: Replica, u: Replica,
          l2: Replica, u2: Replica, n: string)
    requires Ready(sh, top, l, u) && RoundIn(sh, l, u, l2, u2, BelowOf(n)) && n in u
    ensures Ready(sh, top, l2, u2)
  {
    hide AllTyped, RoundIn, Shallow;
    StaysReady(sh, top, l, u, l2, u2, BelowOf(n));
  }

  // The exchange of the node's own points, as a part of its round.
  lemma {:induction false} OwnRound(sh: Shape, top: nat, l: Replica, u: Replica, l1: Replica,
          u1: Replica, n: string)
    requires Ready(sh, top, l, u) && n in l && n in u
    requires l1 == l[n := TakeRec(sh, n, l[n], u[n])] && u1 == u[n := TakeRec(sh, n, u[n], l[n])]
    ensures RoundIn(sh, l, u, l1, u1, Only(n)) && Ready(sh, top, l1, u1)
  {
    hide TakeRec, Ready;
    OwnRoundIn(sh, l, u, l1, u1, n);
    StaysReady(sh, top, l, u, l1, u1, Only(n));
  }

  lemma {:induction false} OwnRoundIn(sh: Shape, l: Replica, u: Replica, l1: Replica, u1: Replica, n: string)
    requires n in l && n in u
    requires l1 == l[n := TakeRec(sh, n, l[n], u[n])] && u1 == u[n := TakeRec(sh, n, u[n], l[n])]
    ensures RoundIn(sh, l, u, l1, u1, Only(n))
  {
    hide TakeRec;
  }

  // The node's own round and then the round below it make the round of its subtree.
  lemma {:induction false} TwoParts(sh: Shape, l: Replica, u: Replica, l1: Replica, u1: Replica, l2: Replica,
          u2: Replica, n: string)
    requires RoundIn(sh, l, u, l1, u1, Only(n)) && RoundIn(sh, l1, u1, l2, u2, BelowOf(n)) && n in l && n in u
    ensures RoundIn(sh, l, u, l2, u2, SubtreeOf(n))
  {
    hide TakeRec, Under, RoundIn;
    Placed(sh, l, u, l1, u1, Only(n), n);
    SelfUnder(sh, n);
    forall m
      ensures Find(l2, m) == (if Under(sh, n, m) then LocalAfter(sh, l, u, m) else Find(l, m))
      ensures Find(u2, m) == (if Under(sh, n, m) then RemoteAfter(sh, l, u, m) else Find(u, m))
    {
      Placed(sh, l, u, l1, u1, Only(n), m);
      Placed(sh, l, u, l1, u1, Only(n), sh.parent(m));
      Placed(sh, l1, u1, l2, u2, BelowOf(n), m);
    }
    PlacedAll(sh, l, u, l2, u2, SubtreeOf(n));
  }

  lemma {:induction false} PlacedAll(sh: Shape, l: Replica, u: Replica, l2: Replica, u2: Replica, reg: Region)
    requires forall m :: Find(l2, m) == (if In(sh, reg, m) then LocalAfter(sh, l, u, m) else Find(l, m))
    requires forall m :: Find(u2, m) == (if In(sh, reg, m) then RemoteAfter(sh, l, u, m) else Find(u, m))
    ensures RoundIn(sh, l, u, l2, u2, reg)
  {
  }

  // A child whose turn has not come, and its subtree, are as they were, and so is its parent.
  lemma {:induction false} ChildUntouched(sh: Shape, l: Replica, u: Replica, l1: Replica, u1: Replica, n: string,
          done: set<string>, c: string)
    requires Closed(sh, l) && n in l && n in u
    requires done <= Children(sh, l, n) && c in Children(sh, l, n) && c !in done
    requires RoundIn(sh, l, u, l1, u1, SubtreesOf(done))
    ensures forall m :: Under(sh, c, m) ==> Find(l1, m) == Find(l, m) && Find(u1, m) == Find(u, m)
    ensures c in l1 && (c in u1 <==> c in u) && n in l1 && n in u1 && c in Children(sh, l1, n)
  {
    hide Under;
    SelfUnder(sh, c);
    forall m | Under(sh, c, m) ensures Find(l1, m) == Find(l, m) && Find(u1, m) == Find(u, m) {
      NotInOthers(sh, l, n, done, c, m);
    }
    assert Find(l1, c) == Find(l, c) && Find(u1, c) == Find(u, c);
    Placed(sh, l, u, l1, u1, SubtreesOf(done), n);
  }

  lemma {:induction false} SameSubUntouched(sh: Shape, l: Replica, u: Replica, l1: Replica, u1: Replica, c: string)
    requires SameSub(sh, l, u, c)
    requires forall m :: Under(sh, c, m) ==> Find(l1, m) == Find(l, m) && Find(u1, m) == Find(u, m)
    ensures SameSub(sh, l1, u1, c)
  {
    hide Under;
    forall m | Under(sh, c, m)
      ensures (m in l1 <==> m in u1) && (m in l1 && m in u1 ==> SameRec(sh, m, l1[m], u1[m]))
    {
      assert Find(l1, m) == Find(l, m) && Find(u1, m) == Find(u, m);
    }
  }

  lemma {:induction false} ChildInRange(sh: Shape, r: Replica, top: nat, c: string)
    requires Shallow(sh, r, top) && c in r
    ensures sh.depth(c) <= top
  {
  }

  lemma {:induction false} ParentIs(sh: Shape, r: Replica, n: string, c: string)
    requires c in Children(sh, r, n)
    ensures sh.parent(c) == n && c != sh.root
  {
  }

  lemma {:induction false} NotChild(sh: Shape, l: Replica, u: Replica, n: string, c: string)
    requires c in Children(sh, l, n) && c !in Children(sh, u, n)
    ensures c !in u
  {
  }

  // The rounds of some children and then of one more.
  lemma {:induction false} OneMoreChild(sh: Shape, l: Replica, u: Replica, l1: Replica, u1: Replica, l2: Replica,
          u2: Replica,
                     n: string, done: set<string>, c: string)
    requires Closed(sh, l) && n in l && n in u
    requires done <= Children(sh, l, n) && c in Children(sh, l, n) && c !in done
    requires RoundIn(sh, l, u, l1, u1, SubtreesOf(done)) && RoundIn(sh, l1, u1, l2, u2, SubtreeOf(c))
    ensures RoundIn(sh, l, u, l2, u2, SubtreesOf(done + {c}))
  {
    hide TakeRec, RoundIn, InSome;
    ChildUntouched(sh, l, u, l1, u1, n, done, c);
    forall m
      ensures Find(l2, m) == (if InSome(sh, done + {c}, m) then LocalAfter(sh, l, u, m) else Find(l, m))
      ensures Find(u2, m) == (if InSome(sh, done + {c}, m) then RemoteAfter(sh, l, u, m) else Find(u, m))
    {
      InSomeMore(sh, done, c, m);
      Placed(sh, l, u, l1, u1, SubtreesOf(done), m);
      Placed(sh, l1, u1, l2, u2, SubtreeOf(c), m);
      if Under(sh, c, m) {
        NotInOthers(sh, l, n, done, c, m);
        var p := sh.parent(m);
        if m != c {
          assert Under(sh, c, p);
          assert Find(l1, p) == Find(l, p);
        }
      }
    }
    PlacedAll(sh, l, u, l2, u2, SubtreesOf(done + {c}));
  }

  // What is missing locally is there on the other side, as it was, below a node both have.
  lemma {:induction false} Missing(sh: Shape, l: Replica, u: Replica, l1: Replica, u1: Replica, n: string)
    requires Closed(sh, l) && Closed(sh, u) && n in l && n in u
    requires RoundIn(sh, l, u, l1, u1, SubtreesOf(Children(sh, l, n)))
    ensures n in l1
    ensures forall c :: c in Children(sh, u, n) - Children(sh, l, n) ==> c in u && c !in l1
  {
    hide Under, InSome, RoundIn;
    Placed(sh, l, u, l1, u1, SubtreesOf(Children(sh, l, n)), n);
    forall c | c in Children(sh, u, n) - Children(sh, l, n) ensures c in u && c !in l1 {
      Placed(sh, l, u, l1, u1, SubtreesOf(Children(sh, l, n)), c);
      NotUnderKnown(sh, l, u, n, c);
    }
  }

  lemma {:induction false} NotUnderKnown(sh: Shape, l: Replica, u: Replica, n: string, c: string)
    requires Closed(sh, l) && Closed(sh, u)
    requires c in Children(sh, u, n) && c !in Children(sh, l, n)
    ensures !InSome(sh, Children(sh, l, n), c)
  {
    if d :| d in Children(sh, l, n) && Under(sh, d, c) {
      SelfUnder(sh, c);
      OneBranch(sh, c, d, c);
    }
  }

  lemma {:induction false} OneLess(all: set<string>, done: set<string>, todo: set<string>, c: string)
    requires done !! todo && done + todo == all && c in todo
    ensures done + {c} !! todo - {c} && done + {c} + (todo - {c}) == all
  {
  }

  lemma {:induction false} OneMoreFound(l1: Replica, r: Replica, u: Replica, done: set<string>, c: string)
    requires c in u && forall m :: Find(r, m) == (if m in done then Find(u, m) else Find(l1, m))
    ensures forall m :: Find(r[c := u[c]], m) == (if m in done + {c} then Find(u, m) else Find(l1, m))
  {
    forall m
      ensures Find(r[c := u[c]], m) == (if m in done + {c} then Find(u, m) else Find(l1, m))
    {
      assert Find(r, m) == (if m in done then Find(u, m) else Find(l1, m));
    }
  }

  lemma {:induction false} OneMoreNode(sh: Shape, r: Replica, c: string, rec: Rec, top: nat)
    requires Closed(sh, r) && Shallow(sh, r, top) && sh.depth(c) <= top
    requires c != sh.root && sh.parent(c) in r && sh.depth(c) == sh.depth(sh.parent(c)) + 1
    ensures Closed(sh, r[c := rec]) && Shallow(sh, r[c := rec], top)
  {
  }

  // With the missing children in place, the round below the node is complete.
  lemma {:induction false} Fetched(sh: Shape, l: Replica, u: Replica, l1: Replica, u1: Replica, l2: Replica, n: string)
    requires Closed(sh, l) && Closed(sh, u) && n in l && n in u
    requires RoundIn(sh, l, u, l1, u1, SubtreesOf(Children(sh, l, n)))
    requires forall m ::
      Find(l2, m) == (if m in Children(sh, u, n) - Children(sh, l, n) then Find(u, m) else Find(l1, m))
    ensures RoundIn(sh, l, u, l2, u1, BelowOf(n))
  {
    hide TakeRec, RoundIn, InSome, Under;
    forall m
      ensures Find(l2, m) == (if Under(sh, n, m) && m != n then LocalAfter(sh, l, u, m) else Find(l, m))
      ensures Find(u1, m) == (if Under(sh, n, m) && m != n then RemoteAfter(sh, l, u, m) else Find(u, m))
    {
      Placed(sh, l, u, l1, u1, SubtreesOf(Children(sh, l, n)), m);
      FetchedAt(sh, l, u, n, m);
    }
    PlacedAll(sh, l, u, l2, u1, BelowOf(n));
  }

  lemma {:induction false} FetchedAt(sh: Shape, l: Replica, u: Replica, n: string, m: string)
    requires Closed(sh, l) && Closed(sh, u) && n in l && n in u
    ensures
      var fetched := m in Children(sh, u, n) - Children(sh, l, n);
      var known := InSome(sh, Children(sh, l, n), m);
      && (fetched ==> !known && Under(sh, n, m) && m != n && LocalAfter(sh, l, u, m) == Find(u, m))
      && (known ==> Under(sh, n, m) && m != n)
      && (Under(sh, n, m) && m != n && !known && !fetched ==> LocalAfter(sh, l, u, m) == None == Find(l, m))
      && (Under(sh, n, m) && m != n && !known ==> RemoteAfter(sh, l, u, m) == Find(u, m))
  {
    hide TakeRec;
    if m in Children(sh, u, n) - Children(sh, l, n) {
      NotUnderKnown(sh, l, u, n, m);
      SelfUnder(sh, m);
      ChildUnder(sh, u, n, m, m);
    }
    if InSome(sh, Children(sh, l, n), m) {
      var c :| c in Children(sh, l, n) && Under(sh, c, m);
      ChildUnder(sh, l, n, c, m);
    } else if Under(sh, n, m) && m != n {
      Subtree(sh, l, n, m);
      if m in u {
        var c := BranchOf(sh, u, n, m);
        assert c !in Children(sh, l, n);
        if m != c {
          NothingBelow(sh, l, c, sh.parent(m));
        }
      }
    }
  }

  lemma {:induction false} SelfUnder(sh: Shape, n: string)
    ensures Under(sh, n, n)
  {
  }

  lemma {:induction false} ChildDeeper(sh: Shape, r: Replica, n: string, c: string)
    requires Closed(sh, r) && c in Children(sh, r, n)
    ensures sh.depth(c) == sh.depth(n) + 1 && c in r
  {
  }

  // A node of the replica is below n exactly when it is n or below a child of n.
  lemma {:induction false} Subtree(sh: Shape, r: Replica, n: string, m: string)
    requires Closed(sh, r)
    ensures m == n || InSome(sh, Children(sh, r, n), m) ==> Under(sh, n, m)
    ensures m in r && Under(sh, n, m) ==> m == n || InSome(sh, Children(sh, r, n), m)
  {
    SelfUnder(sh, n);
    if InSome(sh, Children(sh, r, n), m) {
      var c :| c in Children(sh, r, n) && Under(sh, c, m);
      ChildUnder(sh, r, n, c, m);
    }
    if m in r && Under(sh, n, m) && m != n {
      var c := BranchOf(sh, r, n, m);
    }
  }
}
