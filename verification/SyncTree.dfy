// Synchronising two trees (client/sync.go, syncNode and the sends it makes).
//
// A replica maps each node of the synchronised tree to its points and the points of the edge
// to its parent.  The shape gives every node its one parent, the same on both sides.
module SyncTree {
  import opened Wrappers
  import opened Hashes
  import opened Points
  import opened SyncPoints

  datatype Rec = Rec(points: Table, edge: Table)

  type Replica = map<string, Rec>

  datatype Shape = Shape(root: string, parent: string -> string, depth: string -> nat)

  function Find(r: Replica, m: string): Option<Rec> {
    if m in r then Some(r[m]) else None
  }

  // Every node but the root has its parent in the replica, one level up.
  ghost predicate Closed(sh: Shape, r: Replica) {
    forall m :: m in r ==>
      m == sh.root || (sh.parent(m) in r && sh.depth(m) == sh.depth(sh.parent(m)) + 1)
  }

  // Is m in the subtree of n?
  ghost predicate Under(sh: Shape, n: string, m: string)
    decreases sh.depth(m)
  {
    m == n || (m != sh.root && sh.depth(sh.parent(m)) < sh.depth(m) && Under(sh, n, sh.parent(m)))
  }

  function Children(sh: Shape, r: Replica, n: string): set<string> {
    set m | m in r && m != sh.root && sh.parent(m) == n
  }

  // The edge points of the root are not synchronised.
  function TakeRec(sh: Shape, m: string, a: Rec, b: Rec): Rec {
    Rec(Take(a.points, b.points), if m == sh.root then a.edge else Take(a.edge, b.edge))
  }

  ghost predicate RecsTellApart(sh: Shape, m: string, a: Rec, b: Rec) {
    TimesTellApart(a.points, b.points) && (m != sh.root ==> TimesTellApart(a.edge, b.edge))
  }

  ghost predicate SameRec(sh: Shape, m: string, a: Rec, b: Rec) {
    a.points == b.points && (m != sh.root ==> a.edge == b.edge)
  }

  // Stored points have a type.
  ghost predicate Typed(t: Table) {
    forall k :: k in t ==> k.typ != ""
  }

  function TableOf(r: Replica, m: string): Table { if m in r then r[m].points else map[] }

  function EdgeOf(r: Replica, m: string): Table { if m in r then r[m].edge else map[] }

  ghost predicate TellApart(sh: Shape, a: Replica, b: Replica) {
    forall m :: m in a && m in b ==> RecsTellApart(sh, m, a[m], b[m])
  }

  // Both sides have the same nodes below n, with the same points.
  ghost predicate SameSub(sh: Shape, l: Replica, u: Replica, n: string) {
    forall m :: Under(sh, n, m) ==> (m in l <==> m in u) && (m in l && m in u ==> SameRec(sh, m, l[m], u[m]))
  }

  // The hash of a node in a replica.
  type Digest = (Replica, string) -> Hash

  // ----- one round, node by node -----

  function LocalAfter(sh: Shape, l: Replica, u: Replica, m: string): Option<Rec> {
    if m in l then Some(if m in u then TakeRec(sh, m, l[m], u[m]) else l[m])
    else if m in u && sh.parent(m) in l then Some(u[m])
    else None
  }

  function RemoteAfter(sh: Shape, l: Replica, u: Replica, m: string): Option<Rec> {
    if m in u then Some(if m in l then TakeRec(sh, m, u[m], l[m]) else u[m]) else Find(l, m)
  }

  // ----- subtrees -----

  lemma {:induction false} UnderDepth(sh: Shape, n: string, m: string)
    requires Under(sh, n, m)
    ensures sh.depth(n) < sh.depth(m) || n == m
    decreases sh.depth(m)
  {
    if m != n {
      UnderDepth(sh, n, sh.parent(m));
    }
  }

  lemma {:induction false} UnderTransitive(sh: Shape, n: string, c: string, m: string)
    requires Under(sh, n, c) && Under(sh, c, m)
    ensures Under(sh, n, m)
    decreases sh.depth(m)
  {
    if m != c {
      UnderTransitive(sh, n, c, sh.parent(m));
    }
  }

  lemma {:induction false} OneBranch(sh: Shape, c: string, d: string, m: string)
    requires sh.depth(c) == sh.depth(d) && Under(sh, c, m) && Under(sh, d, m)
    ensures c == d
    decreases sh.depth(m)
  {
    if m == c {
      UnderDepth(sh, d, m);
    } else if m == d {
      UnderDepth(sh, c, m);
    } else {
      OneBranch(sh, c, d, sh.parent(m));
    }
  }

  // The child of n on the way down to m.
  lemma {:induction false} BranchOf(sh: Shape, r: Replica, n: string, m: string) returns (c: string)
    requires Closed(sh, r) && m in r && Under(sh, n, m) && m != n
    ensures c in Children(sh, r, n) && Under(sh, c, m)
    decreases sh.depth(m)
  {
    if sh.parent(m) == n {
      c := m;
    } else {
      c := BranchOf(sh, r, n, sh.parent(m));
    }
  }

  lemma {:induction false} ChildUnder(sh: Shape, r: Replica, n: string, c: string, m: string)
    requires Closed(sh, r) && c in Children(sh, r, n) && Under(sh, c, m)
    ensures Under(sh, n, m) && m != n && sh.depth(c) == sh.depth(n) + 1
  {
    assert Under(sh, n, c);
    UnderTransitive(sh, n, c, m);
    UnderDepth(sh, c, m);
  }

  // Nothing below a node that is missing from a closed replica.
  lemma {:induction false} NothingBelow(sh: Shape, r: Replica, n: string, m: string)
    requires Closed(sh, r) && n !in r && n != sh.root && Under(sh, n, m)
    ensures m !in r
    decreases sh.depth(m)
  {
    if m != n {
      NothingBelow(sh, r, n, sh.parent(m));
    }
  }

  lemma {:induction false} NothingAtAll(sh: Shape, r: Replica, m: string)
    requires Closed(sh, r) && sh.root !in r
    ensures m !in r
    decreases sh.depth(m)
  {
    if m in r {
      NothingAtAll(sh, r, sh.parent(m));
    }
  }

  lemma {:induction false} NoneUnder(sh: Shape, r: Replica, n: string)
    requires Closed(sh, r) && n !in r
    ensures forall m :: Under(sh, n, m) ==> m !in r
  {
    forall m | Under(sh, n, m) ensures m !in r {
      if n == sh.root {
        NothingAtAll(sh, r, m);
      } else {
        NothingBelow(sh, r, n, m);
      }
    }
  }

  // Is m below one of the nodes in done?
  ghost predicate InSome(sh: Shape, done: set<string>, m: string) {
    exists c :: c in done && Under(sh, c, m)
  }

  lemma {:induction false} InSomeMore(sh: Shape, done: set<string>, c: string, m: string)
    ensures InSome(sh, done + {c}, m) <==> InSome(sh, done, m) || Under(sh, c, m)
  {
  }

  // The subtree of a child has no node of the subtrees of its siblings.
  lemma {:induction false} NotInOthers(sh: Shape, r: Replica, n: string, done: set<string>, c: string, m: string)
    requires Closed(sh, r) && done <= Children(sh, r, n) && c in Children(sh, r, n) && c !in done
    requires Under(sh, c, m)
    ensures !InSome(sh, done, m)
  {
    if d :| d in done && Under(sh, d, m) {
      ChildUnder(sh, r, n, c, m);
      ChildUnder(sh, r, n, d, m);
      OneBranch(sh, c, d, m);
    }
  }
}
