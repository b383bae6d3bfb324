// The hash that syncNode compares: the exclusive or of the checksums of the points in a subtree,
// without the edge points of the root, which are backed out (client/sync.go:648-657).  It is what
// a store with correct hashes holds for a node, and where it can be relied on is stated exactly.
module SyncDigest {
  import opened Points
  import opened Hashes
  import opened HashIndex
  import opened SyncPoints
  import opened SyncTree
  import opened SyncRound
  import opened SyncConvergence

  // ----- sums over a set -----

  ghost function Pick<T>(s: set<T>): (x: T)
    requires s != {}
    ensures x in s
  {
    var x :| x in s; x
  }

  ghost function XorOver<T>(f: T -> Hash, s: set<T>): Hash {
    if s == {} then 0 else Xor(XorOver(f, s - {Pick(s)}), f(Pick(s)))
  }

  lemma {:induction false} XorTaking<T>(f: T -> Hash, s: set<T>, x: T)
    requires x in s
    ensures XorOver(f, s) == Xor(XorOver(f, s - {x}), f(x))
  {
    hide Xor;
    var y := Pick(s);
    if x != y {
      var rest := s - {x} - {y};
      assert s - {y} - {x} == rest;
      XorTaking(f, s - {y}, x);
      XorTaking(f, s - {x}, y);
      Associates(XorOver(f, rest), f(x), f(y));
      Commutes(f(x), f(y));
      Associates(XorOver(f, rest), f(y), f(x));
    }
  }

  lemma {:induction false} XorWith<T>(f: T -> Hash, s: set<T>, x: T)
    requires x !in s
    ensures XorOver(f, s + {x}) == Xor(XorOver(f, s), f(x))
  {
    XorTaking(f, s + {x}, x);
    assert s + {x} - {x} == s;
  }

  lemma {:induction false} XorJoins<T>(f: T -> Hash, s: set<T>, t: set<T>)
    requires s !! t
    ensures XorOver(f, s + t) == Xor(XorOver(f, s), XorOver(f, t))
    decreases |t|
  {
    hide Xor;
    if t == {} {
      assert s + t == s;
      Zero(XorOver(f, s));
    } else {
      var x := Pick(t);
      assert s + (t - {x}) + {x} == s + t;
      XorJoins(f, s, t - {x});
      XorWith(f, s + (t - {x}), x);
      XorTaking(f, t, x);
      Associates(XorOver(f, s), XorOver(f, t - {x}), f(x));
    }
  }

  lemma {:induction false} XorSame<T>(f: T -> Hash, g: T -> Hash, s: set<T>)
    requires forall x :: x in s ==> f(x) == g(x)
    ensures XorOver(f, s) == XorOver(g, s)
  {
    hide Xor;
    if s != {} {
      XorSame(f, g, s - {Pick(s)});
    }
  }

  // ----- the points of a subtree -----

  // A point with its place: the node, and whether it is a point of the node's edge.
  datatype Item = Item(node: string, ofEdge: bool, p: Point)

  ghost function Items(sh: Shape, r: Replica, n: string): set<Item> {
    (set m, k | m in r && Under(sh, n, m) && k in r[m].points :: Item(m, false, r[m].points[k])) +
    (set m, k | m in r && m != sh.root && Under(sh, n, m) && k in r[m].edge :: Item(m, true, r[m].edge[k]))
  }

  function ItemsOf(m: string, ofEdge: bool, t: Table): set<Item> {
    set k | k in t :: Item(m, ofEdge, t[k])
  }

  ghost function XorOf(crc: Checksum, items: set<Item>): Hash {
    XorOver((x: Item) => Crc(crc, x.p), items)
  }

  ghost function XorDigest(crc: Checksum, sh: Shape, r: Replica, n: string): Hash {
    XorOf(crc, Items(sh, r, n))
  }

  ghost function XorHash(crc: Checksum, sh: Shape): Digest {
    (r, n) => XorDigest(crc, sh, r, n)
  }

  // ----- the hash of a node from those of its children -----

  lemma {:induction false} ItemIs(sh: Shape, r: Replica, n: string, x: Item)
    ensures x in Items(sh, r, n) <==>
      && x.node in r && Under(sh, n, x.node) && (x.ofEdge ==> x.node != sh.root)
      && x in ItemsOf(x.node, x.ofEdge, if x.ofEdge then r[x.node].edge else r[x.node].points)
  {
    hide Under;
  }

  ghost function ItemsBelow(sh: Shape, r: Replica, cs: set<string>): set<Item> {
    set c, x | c in cs && x in Items(sh, r, c) :: x
  }

  lemma {:induction false} ItemsSplit(sh: Shape, r: Replica, n: string)
    requires Closed(sh, r) && n in r
    ensures
      var own, edge := ItemsOf(n, false, r[n].points), if n == sh.root then {} else ItemsOf(n, true, r[n].edge);
      var below := ItemsBelow(sh, r, Children(sh, r, n));
      own !! edge && own + edge !! below && Items(sh, r, n) == own + edge + below
  {
    hide Under, Items, Children, Closed;
    var own, edge := ItemsOf(n, false, r[n].points), if n == sh.root then {} else ItemsOf(n, true, r[n].edge);
    var below := ItemsBelow(sh, r, Children(sh, r, n));
    SelfUnder(sh, n);
    forall x
      ensures x in Items(sh, r, n) <==> x in own + edge + below
      ensures x in own + edge ==> x !in below
    {
      ItemIs(sh, r, n, x);
      Subtree(sh, r, n, x.node);
      forall c | c in Children(sh, r, n)
        ensures x in Items(sh, r, c) ==> x in Items(sh, r, n) && x.node != n
        ensures x in Items(sh, r, n) && Under(sh, c, x.node) ==> x in Items(sh, r, c)
      {
        ItemIs(sh, r, c, x);
        if Under(sh, c, x.node) {
          ChildUnder(sh, r, n, c, x.node);
        }
      }
    }
  }

  // The children's subtrees have no points in common.
  lemma {:induction false} BelowSums(crc: Checksum, sh: Shape, r: Replica, n: string, cs: set<string>)
    requires Closed(sh, r) && cs <= Children(sh, r, n)
    ensures XorOf(crc, ItemsBelow(sh, r, cs)) == XorOver((c: string) => XorDigest(crc, sh, r, c), cs)
    decreases |cs|
  {
    hide Xor, Under, Items, Children, Closed;
    var f := (c: string) => XorDigest(crc, sh, r, c);
    if cs == {} {
      assert ItemsBelow(sh, r, cs) == {};
    } else {
      var c := Pick(cs);
      var rest := cs - {c};
      BelowSums(crc, sh, r, n, rest);
      OneBelow(sh, r, n, rest, c);
      assert rest + {c} == cs;
      XorJoins((x: Item) => Crc(crc, x.p), ItemsBelow(sh, r, rest), Items(sh, r, c));
    }
  }

  lemma {:induction false} OneBelow(sh: Shape, r: Replica, n: string, rest: set<string>, c: string)
    requires Closed(sh, r) && rest + {c} <= Children(sh, r, n) && c !in rest
    ensures ItemsBelow(sh, r, rest + {c}) == ItemsBelow(sh, r, rest) + Items(sh, r, c)
    ensures ItemsBelow(sh, r, rest) !! Items(sh, r, c)
  {
    hide Under, Items, Children, Closed, InSome;
    forall x | x in ItemsBelow(sh, r, rest)
      ensures x !in Items(sh, r, c)
    {
      var d :| d in rest && x in Items(sh, r, d);
      ItemIs(sh, r, c, x);
      ItemIs(sh, r, d, x);
      if Under(sh, c, x.node) {
        NotInOthers(sh, r, n, rest, c, x.node);
        NotBelow(sh, rest, d, x.node);
      }
    }
  }

  lemma {:induction false} NotBelow(sh: Shape, done: set<string>, d: string, m: string)
    requires d in done && !InSome(sh, done, m)
    ensures !Under(sh, d, m)
  {
  }

  // The hash of a node: its points, the points of its edge, and the hashes of its children.
  lemma {:induction false} DigestSplits(crc: Checksum, sh: Shape, r: Replica, n: string)
    requires Closed(sh, r) && n in r
    ensures XorDigest(crc, sh, r, n) ==
      Xor(Xor(XorOf(crc, ItemsOf(n, false, r[n].points)),
              XorOf(crc, if n == sh.root then {} else ItemsOf(n, true, r[n].edge))),
          XorOver((c: string) => XorDigest(crc, sh, r, c), Children(sh, r, n)))
  {
    hide Xor, Items, Children, Closed;
    var own, edge := ItemsOf(n, false, r[n].points), if n == sh.root then {} else ItemsOf(n, true, r[n].edge);
    var below := ItemsBelow(sh, r, Children(sh, r, n));
    var f := (x: Item) => Crc(crc, x.p);
    ItemsSplit(sh, r, n);
    XorJoins(f, own, edge);
    XorJoins(f, own + edge, below);
    BelowSums(crc, sh, r, n, Children(sh, r, n));
  }

  // It depends on the subtree only.
  lemma {:induction false} XorSums(crc: Checksum, sh: Shape)
    ensures Sums(sh, XorHash(crc, sh))
  {
    forall r, s, n | SameIn(sh, SubtreeOf(n), r, s)
      ensures XorDigest(crc, sh, r, n) == XorDigest(crc, sh, s, n)
    {
      SameInItems(sh, r, s, n);
    }
  }

  lemma {:induction false} SameInItems(sh: Shape, r: Replica, s: Replica, n: string)
    requires SameIn(sh, SubtreeOf(n), r, s)
    ensures Items(sh, r, n) == Items(sh, s, n)
  {
    hide Under, Items, ItemsOf;
    forall x
      ensures x in Items(sh, r, n) <==> x in Items(sh, s, n)
    {
      ItemIs(sh, r, n, x);
      ItemIs(sh, s, n, x);
      assert Under(sh, n, x.node) ==> In(sh, SubtreeOf(n), x.node) && Find(r, x.node) == Find(s, x.node);
    }
  }

  // ----- the hash that the store keeps -----

  // A store holds a replica: every node has its rows, and one edge, from its parent.
  ghost predicate Stores(sh: Shape, r: Replica, es: Edges, rows: map<string, seq<Point>>, at: string -> nat) {
    && (forall m :: m in r ==> StoredAt(sh, r, es, rows, m, at(m)))
    && (forall e :: 0 <= e < |es| ==> es[e].down in r && at(es[e].down) == e)
    && (sh.root in r ==> es[at(sh.root)].up !in r)
  }

  ghost predicate StoredAt(sh: Shape, r: Replica, es: Edges, rows: map<string, seq<Point>>, m: string, e: nat)
    requires m in r
  {
    && e < |es| && es[e].down == m && (m != sh.root ==> es[e].up == sh.parent(m))
    && IsListing(RowsOf(rows, m), r[m].points) && IsListing(es[e].points, r[m].edge)
  }

  lemma {:induction false} ListingSums(crc: Checksum, m: string, ofEdge: bool, ps: seq<Point>, t: Table)
    requires IsListing(ps, t)
    ensures PointsHash(crc, ps) == XorOf(crc, ItemsOf(m, ofEdge, t))
  {
    hide PointsHash;
    PrefixSums(crc, m, ofEdge, ps, |ps|);
    assert ps[..|ps|] == ps;
    forall x
      ensures x in ItemsIn(m, ofEdge, ps, |ps|) <==> x in ItemsOf(m, ofEdge, t)
    {
      if x in ItemsOf(m, ofEdge, t) {
        assert x.p in ps;
      }
      if x in ItemsIn(m, ofEdge, ps, |ps|) {
        assert x.p in ps;
      }
    }
    assert ItemsIn(m, ofEdge, ps, |ps|) == ItemsOf(m, ofEdge, t);
  }

  function ItemsIn(m: string, ofEdge: bool, ps: seq<Point>, n: nat): set<Item>
    requires n <= |ps|
  {
    set i | 0 <= i < n :: Item(m, ofEdge, ps[i])
  }

  lemma {:induction false} PrefixSums(crc: Checksum, m: string, ofEdge: bool, ps: seq<Point>, n: nat)
    requires n <= |ps| && forall i, j :: 0 <= i < j < |ps| ==> IdOf(ps[i]) != IdOf(ps[j])
    ensures PointsHash(crc, ps[..n]) == XorOf(crc, ItemsIn(m, ofEdge, ps, n))
  {
    hide Xor, Crc;
    if n > 0 {
      PrefixSums(crc, m, ofEdge, ps, n - 1);
      assert ps[..n][..n - 1] == ps[..n - 1];
      var x := Item(m, ofEdge, ps[n - 1]);
      assert ItemsIn(m, ofEdge, ps, n) == ItemsIn(m, ofEdge, ps, n - 1) + {x};
      assert x !in ItemsIn(m, ofEdge, ps, n - 1);
      XorWith((y: Item) => Crc(crc, y.p), ItemsIn(m, ofEdge, ps, n - 1), x);
    }
  }

  // The children of a node whose edges are among the first k.
  function Kids(sh: Shape, r: Replica, at: string -> nat, n: string, k: nat): set<string> {
    set c | c in Children(sh, r, n) && at(c) < k
  }

  function StoredHash(es: Edges, at: string -> nat, c: string): Hash {
    if at(c) < |es| then es[at(c)].hash else 0
  }

  // The stored hashes of a node's children.
  lemma {:induction false} ChildSums(sh: Shape, r: Replica, es: Edges, rows: map<string, seq<Point>>, at: string -> nat,
                                     n: string, k: nat)
    requires Stores(sh, r, es, rows, at) && n in r && k <= |es|
    ensures ChildHash(es, n, k) == XorOver((c: string) => StoredHash(es, at, c), Kids(sh, r, at, n, k))
  {
    hide Xor, Stores, Kids;
    if k == 0 {
      NoKids(sh, r, at, n);
    } else {
      ChildSums(sh, r, es, rows, at, n, k - 1);
      NextChild(sh, r, es, rows, at, n, k);
      if es[k - 1].up == n {
        XorWith((c: string) => StoredHash(es, at, c), Kids(sh, r, at, n, k - 1), es[k - 1].down);
      }
    }
  }

  lemma {:induction false} NoKids(sh: Shape, r: Replica, at: string -> nat, n: string)
    ensures Kids(sh, r, at, n, 0) == {}
  {
  }

  lemma {:induction false} NextChild(sh: Shape, r: Replica, es: Edges, rows: map<string, seq<Point>>, at: string -> nat,
                                     n: string, k: nat)
    requires Stores(sh, r, es, rows, at) && n in r && 0 < k <= |es|
    ensures
      var c, before := es[k - 1].down, Kids(sh, r, at, n, k - 1);
      && at(c) == k - 1 && c !in before
      && (es[k - 1].up == n ==> Kids(sh, r, at, n, k) == before + {c})
      && (es[k - 1].up != n ==> Kids(sh, r, at, n, k) == before)
  {
    hide *;
    var c := es[k - 1].down;
    RowNode(sh, r, es, rows, at, k - 1);
    ChildStored(sh, r, es, rows, at, n, c);
    forall d | d in Children(sh, r, n)
      ensures at(d) == k - 1 <==> d == c
    {
      ParentOf(sh, r, n, d);
      ChildStored(sh, r, es, rows, at, n, d);
    }
    KidsAre(sh, r, at, n, k, c);
  }

  lemma {:induction false} RowNode(sh: Shape, r: Replica, es: Edges, rows: map<string, seq<Point>>, at: string -> nat, e: nat)
    requires Stores(sh, r, es, rows, at) && e < |es|
    ensures es[e].down in r && at(es[e].down) == e
  {
    hide StoredAt;
  }

  lemma {:induction false} ParentOf(sh: Shape, r: Replica, n: string, c: string)
    requires c in Children(sh, r, n)
    ensures c in r
  {
  }

  // A node of the replica is a child of n exactly if its edge comes from n.
  lemma {:induction false} ChildStored(sh: Shape, r: Replica, es: Edges, rows: map<string, seq<Point>>,
          at: string -> nat, n: string, c: string)
    requires Stores(sh, r, es, rows, at) && n in r && c in r
    ensures at(c) < |es| && es[at(c)].down == c
    ensures c in Children(sh, r, n) <==> es[at(c)].up == n
  {
    hide IsListing;
    assert StoredAt(sh, r, es, rows, c, at(c));
  }

  lemma {:induction false} KidsAre(sh: Shape, r: Replica, at: string -> nat, n: string, k: nat, c: string)
    requires k > 0 && at(c) == k - 1 && forall d :: d in Children(sh, r, n) ==> (at(d) == k - 1 <==> d == c)
    ensures c !in Kids(sh, r, at, n, k - 1)
    ensures Kids(sh, r, at, n, k) == if c in Children(sh, r, n) then Kids(sh, r, at, n, k - 1) + {c} else Kids(sh, r, at, n, k - 1)
  {
    hide Children;
  }

  // What syncNode takes for the hash of a node.
  function Compared(crc: Checksum, sh: Shape, es: Edges, at: string -> nat, n: string): Hash
    requires at(n) < |es|
  {
    var e := es[at(n)];
    if n == sh.root then Xor(e.hash, PointsHash(crc, e.points)) else e.hash
  }

  // In a store with correct hashes it is the exclusive or of the points in the subtree.
  lemma {:induction false} StoredIsDigest(crc: Checksum, sh: Shape, r: Replica, es: Edges, rows: map<string, seq<Point>>,
                                          at: string -> nat, n: string, top: nat)
    requires Stores(sh, r, es, rows, at) && Closed(sh, r) && Shallow(sh, r, top) && Consistent(crc, es, rows) && n in r
    ensures at(n) < |es| && Compared(crc, sh, es, at, n) == XorDigest(crc, sh, r, n)
    decreases top - sh.depth(n)
  {
    hide *;
    NodeStored(crc, sh, r, es, rows, at, n);
    forall c | c in Children(sh, r, n)
      ensures StoredHash(es, at, c) == XorDigest(crc, sh, r, c)
    {
      ChildDeeper(sh, r, n, c);
      ParentIs(sh, r, n, c);
      ChildInRange(sh, r, top, c);
      StoredIsDigest(crc, sh, r, es, rows, at, c, top);
      ComparedBelow(crc, sh, es, at, c);
    }
    ChildrenSum(crc, sh, r, es, rows, at, n);
    DigestSplits(crc, sh, r, n);
    ListingSums(crc, n, false, RowsOf(rows, n), r[n].points);
    ListingSums(crc, n, true, es[at(n)].points, r[n].edge);
    NoItems(crc);
    HashOfNode(crc, sh, es, at, n, PointsHash(crc, RowsOf(rows, n)), PointsHash(crc, es[at(n)].points),
               ChildHash(es, n, |es|));
  }

  lemma {:induction false} ComparedBelow(crc: Checksum, sh: Shape, es: Edges, at: string -> nat, c: string)
    requires at(c) < |es| && c != sh.root
    ensures StoredHash(es, at, c) == Compared(crc, sh, es, at, c)
  {
  }

  lemma {:induction false} ChildrenSum(crc: Checksum, sh: Shape, r: Replica, es: Edges, rows: map<string, seq<Point>>,
                                       at: string -> nat, n: string)
    requires Stores(sh, r, es, rows, at) && n in r
    requires forall c :: c in Children(sh, r, n) ==> StoredHash(es, at, c) == XorDigest(crc, sh, r, c)
    ensures ChildHash(es, n, |es|) == XorOver((c: string) => XorDigest(crc, sh, r, c), Children(sh, r, n))
  {
    hide *;
    XorSame((c: string) => StoredHash(es, at, c), (c: string) => XorDigest(crc, sh, r, c), Children(sh, r, n));
    ChildSums(sh, r, es, rows, at, n, |es|);
    AllKids(sh, r, es, rows, at, n);
  }

  // The hash as it is stored, and with the edge points of the root backed out.
  lemma {:induction false} HashOfNode(crc: Checksum, sh: Shape, es: Edges, at: string -> nat, n: string, p: Hash, e: Hash,
                                      c: Hash)
    requires at(n) < |es| && es[at(n)].hash == Xor(Xor(p, e), c) && e == PointsHash(crc, es[at(n)].points)
    ensures Compared(crc, sh, es, at, n) == Xor(Xor(p, if n == sh.root then 0 else e), c)
  {
    hide Xor, PointsHash;
    BackedOut(p, e, c);
  }

  lemma {:induction false} NodeStored(crc: Checksum, sh: Shape, r: Replica, es: Edges, rows: map<string, seq<Point>>,
                                      at: string -> nat, n: string)
    requires Stores(sh, r, es, rows, at) && Consistent(crc, es, rows) && n in r
    ensures at(n) < |es|
    ensures IsListing(RowsOf(rows, n), r[n].points) && IsListing(es[at(n)].points, r[n].edge)
    ensures es[at(n)].hash ==
      Xor(Xor(PointsHash(crc, RowsOf(rows, n)), PointsHash(crc, es[at(n)].points)), ChildHash(es, n, |es|))
  {
    hide IsListing, PointsHash, ChildHash, Xor;
    assert StoredAt(sh, r, es, rows, n, at(n));
    assert Correct(crc, es, rows, at(n));
  }

  lemma {:induction false} AllKids(sh: Shape, r: Replica, es: Edges, rows: map<string, seq<Point>>, at: string -> nat,
                                   n: string)
    requires Stores(sh, r, es, rows, at) && n in r
    ensures Kids(sh, r, at, n, |es|) == Children(sh, r, n)
  {
    forall c | c in Children(sh, r, n)
      ensures at(c) < |es|
    {
      ChildStored(sh, r, es, rows, at, n, c);
    }
    hide Stores;
  }

  lemma {:induction false} NoItems(crc: Checksum)
    ensures XorOf(crc, {}) == 0
  {
  }

  lemma {:induction false} BackedOut(p: Hash, e: Hash, c: Hash)
    ensures Xor(Xor(Xor(p, e), c), e) == Xor(Xor(p, 0), c)
  {
    hide Xor;
    Associates(Xor(p, e), c, e);
    Commutes(c, e);
    Associates(Xor(p, e), e, c);
    Undo(p, e);
    Zero(p);
  }

  // ----- when it can be relied on -----

  // The points of a subtree in which the two sides differ.
  ghost function Differ(sh: Shape, l: Replica, u: Replica, n: string): set<Item> {
    (Items(sh, l, n) - Items(sh, u, n)) + (Items(sh, u, n) - Items(sh, l, n))
  }

  lemma {:induction false} EqualIff(crc: Checksum, a: set<Item>, b: set<Item>)
    ensures XorOf(crc, a) == XorOf(crc, b) <==> XorOf(crc, (a - b) + (b - a)) == 0
  {
    hide Xor, Crc;
    var f, both := (x: Item) => Crc(crc, x.p), a * b;
    assert both + (a - b) == a && both + (b - a) == b;
    XorJoins(f, both, a - b);
    XorJoins(f, both, b - a);
    XorJoins(f, a - b, b - a);
    var p, q := XorOf(crc, a - b), XorOf(crc, b - a);
    SameLeft(XorOf(crc, both), p, q);
    SameLeft(q, p, q);
    Self(q);
  }

  // Every node but the root has edge points.
  ghost predicate Joined(sh: Shape, r: Replica) {
    forall m :: m in r && m != sh.root ==> r[m].edge != map[]
  }

  // The same items: the same nodes, since every node but the root has edge points, and the
  // same tables.
  lemma {:induction false} SameTables(sh: Shape, l: Replica, u: Replica, n: string, m: string)
    requires Items(sh, l, n) == Items(sh, u, n) && Under(sh, n, m)
    ensures m in l && m in u ==> SameRec(sh, m, l[m], u[m])
    ensures m in l && m != sh.root && l[m].edge != map[] ==> m in u
  {
    if m in l {
      if m != sh.root && l[m].edge != map[] {
        var k :| k in l[m].edge;
        assert Item(m, true, l[m].edge[k]) in Items(sh, u, n);
      }
      if m in u {
        SameTable(sh, l, u, n, m, false);
        if m != sh.root {
          SameTable(sh, l, u, n, m, true);
        }
      }
    }
  }

  lemma {:induction false} SameTable(sh: Shape, l: Replica, u: Replica, n: string, m: string, ofEdge: bool)
    requires Items(sh, l, n) == Items(sh, u, n) && Under(sh, n, m) && m in l && m in u && (ofEdge ==> m != sh.root)
    ensures ofEdge ==> l[m].edge == u[m].edge
    ensures !ofEdge ==> l[m].points == u[m].points
  {
    var s, t := if ofEdge then l[m].edge else l[m].points, if ofEdge then u[m].edge else u[m].points;
    TableIn(sh, l, n, m, ofEdge);
    TableIn(sh, u, n, m, ofEdge);
    forall k
      ensures At(s, k) == At(t, k)
    {
      if k in s {
        assert Item(m, ofEdge, s[k]) in Items(sh, u, n);
      }
      if k in t {
        assert Item(m, ofEdge, t[k]) in Items(sh, l, n);
      }
    }
    Points.SameTable(s, t);
  }

  lemma {:induction false} TableIn(sh: Shape, r: Replica, n: string, m: string, ofEdge: bool)
    requires Under(sh, n, m) && m in r && (ofEdge ==> m != sh.root)
    ensures
      var t := if ofEdge then r[m].edge else r[m].points;
      && (forall k :: k in t ==> Item(m, ofEdge, t[k]) in Items(sh, r, n))
      && (forall p :: Item(m, ofEdge, p) in Items(sh, r, n) ==> IdOf(p) in t && t[IdOf(p)] == p)
  {
  }

  lemma {:induction false} SameSubIff(sh: Shape, l: Replica, u: Replica, n: string)
    requires Joined(sh, l) && Joined(sh, u) && n in l && n in u
    ensures SameSub(sh, l, u, n) <==> Items(sh, l, n) == Items(sh, u, n)
  {
    if Items(sh, l, n) == Items(sh, u, n) {
      forall m | Under(sh, n, m)
        ensures (m in l <==> m in u) && (m in l && m in u ==> SameRec(sh, m, l[m], u[m]))
      {
        SameTables(sh, l, u, n, m);
        SameTables(sh, u, l, n, m);
        if m == sh.root {
          OnlyRootAbove(sh, n);
        }
      }
    }
    if SameSub(sh, l, u, n) {
      hide Under, ItemsOf;
      forall x
        ensures x in Items(sh, l, n) <==> x in Items(sh, u, n)
      {
        ItemIs(sh, l, n, x);
        ItemIs(sh, u, n, x);
      }
    }
  }

  lemma {:induction false} OnlyRootAbove(sh: Shape, n: string)
    ensures Under(sh, n, sh.root) ==> n == sh.root
  {
  }

  // Equal hashes mean equal subtrees exactly if nowhere the points that differ cancel.
  lemma {:induction false} ReliableIff(crc: Checksum, sh: Shape, l: Replica, u: Replica)
    requires Joined(sh, l) && Joined(sh, u)
    ensures NoCollisions(sh, XorHash(crc, sh), l, u) <==>
      forall n :: n in l && n in u && Differ(sh, l, u, n) != {} ==> XorOf(crc, Differ(sh, l, u, n)) != 0
  {
    hide Items, XorOf, SameSub;
    forall n | n in l && n in u
      ensures XorDigest(crc, sh, l, n) == XorDigest(crc, sh, u, n) <==> XorOf(crc, Differ(sh, l, u, n)) == 0
      ensures SameSub(sh, l, u, n) <==> Differ(sh, l, u, n) == {}
    {
      EqualIff(crc, Items(sh, l, n), Items(sh, u, n));
      SameSubIff(sh, l, u, n);
    }
  }

  lemma {:induction false} JoinedStays(sh: Shape, l: Replica, u: Replica, i: nat)
    requires Joined(sh, l) && Joined(sh, u)
    ensures Joined(sh, Rounds(sh, l, u, i).local) && Joined(sh, Rounds(sh, l, u, i).remote)
  {
    hide Joined, Rounds;
    RoundsAre(sh, l, u, i);
    if i > 0 {
      JoinedStays(sh, l, u, i - 1);
      JoinedRound(sh, Rounds(sh, l, u, i - 1).local, Rounds(sh, l, u, i - 1).remote);
    }
  }

  lemma {:induction false} JoinedRound(sh: Shape, l: Replica, u: Replica)
    requires Joined(sh, l) && Joined(sh, u)
    ensures Joined(sh, RoundLocal(sh, l, u)) && Joined(sh, RoundRemote(sh, l, u))
  {
    hide RoundLocal, RoundRemote;
    forall m | m != sh.root
      ensures m in RoundLocal(sh, l, u) ==> RoundLocal(sh, l, u)[m].edge != map[]
      ensures m in RoundRemote(sh, l, u) ==> RoundRemote(sh, l, u)[m].edge != map[]
    {
      RoundAt(sh, l, u, m);
      EdgeKept(sh, l, u, m);
    }
  }

  lemma {:induction false} EdgeKept(sh: Shape, l: Replica, u: Replica, m: string)
    requires Joined(sh, l) && Joined(sh, u) && m != sh.root
    ensures LocalAfter(sh, l, u, m).Some? ==> LocalAfter(sh, l, u, m).value.edge != map[]
    ensures RemoteAfter(sh, l, u, m).Some? ==> RemoteAfter(sh, l, u, m).value.edge != map[]
  {
    hide Take;
    if m in l && m in u {
      TakeKeeps(l[m].edge, u[m].edge);
      TakeKeeps(u[m].edge, l[m].edge);
    }
  }

  lemma {:induction false} TakeKeeps(t: Table, u: Table)
    ensures t != map[] ==> Take(t, u) != map[]
  {
    if t != map[] {
      var k :| k in t;
      assert k in Take(t, u).Keys;
    }
  }

  // In the states that rounds begin with.
  lemma {:induction false} RoundsReliableIff(crc: Checksum, sh: Shape, l: Replica, u: Replica, i: nat)
    requires Joined(sh, l) && Joined(sh, u)
    ensures
      var s := Rounds(sh, l, u, i);
      NoCollisionsAfter(sh, XorHash(crc, sh), l, u, i) <==>
        forall n :: n in s.local && n in s.remote && Differ(sh, s.local, s.remote, n) != {} ==>
          XorOf(crc, Differ(sh, s.local, s.remote, n)) != 0
  {
    hide Rounds, XorOf, Differ, XorHash, NoCollisions, Joined;
    JoinedStays(sh, l, u, i);
    ReliableIff(crc, sh, Rounds(sh, l, u, i).local, Rounds(sh, l, u, i).remote);
  }

  // Two points that differ, such as an old and a new one, are noticed exactly if their checksums do.
  lemma {:induction false} TwoDiffer(crc: Checksum, x: Item, y: Item)
    requires x != y
    ensures XorOf(crc, {x, y}) != 0 <==> Crc(crc, x.p) != Crc(crc, y.p)
  {
    hide Xor, Crc;
    var f := (z: Item) => Crc(crc, z.p);
    assert {x, y} == {x} + {y} && {x} == {} + {x};
    NoItems(crc);
    XorWith(f, {}, x);
    XorWith(f, {x}, y);
    Zero(f(x));
    SameLeft(f(y), f(x), f(y));
    Self(f(y));
  }
}
