// New ids for a tree of nodes that is imported (client/node.go).
module Rename {
  import opened Points

  const NODE_ID := "nodeID"

  datatype Tree = Tree(id: string, parent: string, points: seq<Point>, children: seq<Tree>)

  // ----- what a tree says about ids -----

  // A place that holds an id: the id of a node, or the text of a nodeID point.
  datatype Ref = Ref(isId: bool, text: string)

  function PointRefs(ps: seq<Point>): seq<Ref> {
    if ps == [] then []
    else
      var p := ps[|ps| - 1];
      PointRefs(ps[..|ps| - 1]) + (if p.typ == "nodeID" then [Ref(false, p.text)] else [])
  }

  // The ids in a tree, a node before its points and its points before its children.
  function Refs(t: Tree): seq<Ref>
    decreases t, |t.children| + 1
  {
    [Ref(true, t.id)] + PointRefs(t.points) + ChildRefs(t, |t.children|)
  }

  function ChildRefs(t: Tree, n: nat): seq<Ref>
    requires n <= |t.children|
    decreases t, n
  {
    if n == 0 then [] else ChildRefs(t, n - 1) + Refs(t.children[n - 1])
  }

  // r is t with other ids: the parent of a node is the id of the node above it, and of the
  // points only the texts of nodeID points may differ.
  ghost predicate SameShape(t: Tree, r: Tree, parent: string)
    decreases t
  {
    && r.parent == parent && |r.points| == |t.points| && |r.children| == |t.children|
    && (forall i :: 0 <= i < |t.points| ==> SamePoint(t.points[i], r.points[i]))
    && (forall i :: 0 <= i < |t.children| ==> SameShape(t.children[i], r.children[i], r.id))
  }

  predicate SamePoint(p: Point, q: Point) {
    if p.typ == "nodeID" && p.text != "" then q == p.(text := q.text) else q == p
  }

  // checkIDs succeeds.
  predicate CheckIds(t: Tree, parent: string)
    decreases t
  {
    && parent != "" && t.parent == parent && t.id != ""
    && (forall i :: 0 <= i < |t.children| ==> CheckIds(t.children[i], t.id))
  }

  // ----- renaming -----

  ghost predicate Injective(m: map<string, string>) {
    forall k, l :: k in m && l in m && m[k] == m[l] ==> k == l
  }

  // One place before and after: ids are translated by the map; a blank id of a node becomes one
  // that the map does not use, and a blank nodeID text stays blank.
  ghost predicate Translated(a: Ref, b: Ref, m: map<string, string>) {
    && a.isId == b.isId && (a.isId ==> b.text != "")
    && if a.text != "" then a.text in m && b.text == m[a.text]
       else if a.isId then b.text !in m.Values else b.text == ""
  }

  predicate BlankId(a: Ref) { a.isId && a.text == "" }

  ghost predicate AllTranslated(a: seq<Ref>, b: seq<Ref>, m: map<string, string>) {
    && |a| == |b| && (forall i :: 0 <= i < |a| ==> Translated(a[i], b[i], m))
    && forall i, j :: 0 <= i < j < |a| && BlankId(a[i]) && BlankId(a[j]) ==> b[i].text != b[j].text
  }

  // Blank ids are given ids with numbers from lo up to hi.
  ghost predicate Numbered(a: seq<Ref>, b: seq<Ref>, gen: nat -> string, lo: nat, hi: nat) {
    |a| == |b| && forall i :: 0 <= i < |a| && BlankId(a[i]) ==> exists k :: lo <= k < hi && b[i].text == gen(k)
  }

  // The map of old ids to new ones only grows, by ids with numbers from lo up to hi.
  ghost predicate Grew(m: map<string, string>, m': map<string, string>, gen: nat -> string, lo: nat, hi: nat) {
    && lo <= hi && (forall s :: s in m ==> s in m' && m'[s] == m[s])
    && (forall s :: s in m' && s !in m ==> exists k :: lo <= k < hi && m'[s] == gen(k))
  }

  // The places in a have become those in b, using numbers from lo up to hi.
  ghost predicate Renamed(a: seq<Ref>, b: seq<Ref>, m: map<string, string>, gen: nat -> string, lo: nat, hi: nat) {
    lo <= hi && AllTranslated(a, b, m) && Numbered(a, b, gen, lo, hi)
  }

  ghost predicate Different(gen: nat -> string) {
    (forall k :: gen(k) != "") && (forall j, k :: j != k ==> gen(j) != gen(k))
  }

  lemma {:induction false} StillTranslated(a: seq<Ref>, b: seq<Ref>, m: map<string, string>, m': map<string, string>,
                                           gen: nat -> string, lo: nat, mid: nat, hi: nat)
    requires Different(gen) && Renamed(a, b, m, gen, lo, mid) && Grew(m, m', gen, mid, hi)
    ensures Renamed(a, b, m', gen, lo, mid)
  {
    forall i | 0 <= i < |a|
      ensures Translated(a[i], b[i], m')
    {
      if BlankId(a[i]) {
        var k :| lo <= k < mid && b[i].text == gen(k);
        forall s | s in m'
          ensures m'[s] != b[i].text
        {
          if s in m {
            assert m[s] in m.Values;
          } else {
            var l :| mid <= l < hi && m'[s] == gen(l);
          }
        }
      }
    }
  }

  lemma {:induction false} Joined(a: seq<Ref>, b: seq<Ref>, c: seq<Ref>, d: seq<Ref>, m: map<string, string>,
                                  gen: nat -> string, lo: nat, mid: nat, hi: nat)
    requires Different(gen) && Renamed(a, b, m, gen, lo, mid) && Renamed(c, d, m, gen, mid, hi)
    ensures Renamed(a + c, b + d, m, gen, lo, hi)
  {
    forall i, j | 0 <= i < j < |a + c| && BlankId((a + c)[i]) && BlankId((a + c)[j])
      ensures (b + d)[i].text != (b + d)[j].text
    {
      if i < |a| && j >= |a| {
        var k :| lo <= k < mid && b[i].text == gen(k);
        var l :| mid <= l < hi && d[j - |a|].text == gen(l);
      }
    }
  }

  // First a, then c.
  lemma {:induction false} OneAfterOther(a: seq<Ref>, b: seq<Ref>, m: map<string, string>,
                                         c: seq<Ref>, d: seq<Ref>, m': map<string, string>,
                                         gen: nat -> string, lo: nat, mid: nat, hi: nat)
    requires Different(gen) && Renamed(a, b, m, gen, lo, mid) && Grew(m, m', gen, mid, hi) && Renamed(c, d, m', gen, mid, hi)
    ensures Renamed(a + c, b + d, m', gen, lo, hi)
  {
    hide Renamed, Grew;
    StillTranslated(a, b, m, m', gen, lo, mid, hi);
    Joined(a, b, c, d, m', gen, lo, mid, hi);
  }

  lemma {:induction false} GrewTwice(m: map<string, string>, m': map<string, string>, m2: map<string, string>,
                                     gen: nat -> string, lo: nat, mid: nat, hi: nat)
    requires Grew(m, m', gen, lo, mid) && Grew(m', m2, gen, mid, hi)
    ensures Grew(m, m2, gen, lo, hi)
  {
    forall s | s in m2 && s !in m
      ensures exists k :: lo <= k < hi && m2[s] == gen(k)
    {
      if s in m' {
        var k :| lo <= k < mid && m'[s] == gen(k);
        assert m2[s] == gen(k);
      }
    }
  }

  class Renamer {
    const gen: nat -> string      // the ids that are handed out, one after the other
    var next: nat
    var idMap: map<string, string>

    constructor (gen: nat -> string)
      requires Different(gen)
      ensures this.gen == gen && Valid() && idMap == map[]
    {
      this.gen := gen;
      next := 0;
      idMap := map[];
    }

    ghost predicate Valid()
      reads this
    {
      && Different(gen) && Injective(idMap) && "" !in idMap
      && (forall s :: s in idMap ==> exists k :: 0 <= k < next && idMap[s] == gen(k))
    }

    method NewId() returns (id: string)
      requires Valid()
      modifies this`next
      ensures Valid() && next == old(next) + 1 && id == gen(old(next)) && id != "" && id !in idMap.Values
    {
      id := gen(next);
      next := next + 1;
    }

    method Translate(s: string) returns (id: string)
      requires Valid() && s != ""
      modifies this`next, this`idMap
      ensures Valid() && Grew(old(idMap), idMap, gen, old(next), next) && s in idMap && id == idMap[s] && id != ""
    {
      if s in idMap {
        return idMap[s];
      }
      id := NewId();
      idMap := idMap[s := id];
    }

    // The text of a nodeID point; a blank one is left alone.
    method ReplacePoint(p: Point) returns (q: Point)
      requires Valid()
      modifies this`next, this`idMap
      ensures Valid() && Grew(old(idMap), idMap, gen, old(next), next)
      ensures SamePoint(p, q) && Renamed(PointRefs([p]), PointRefs([q]), idMap, gen, old(next), next)
    {
      hide Grew, Renamed, PointRefs;
      q := p;
      GrewNothing(idMap, gen, next);
      if p.typ == NODE_ID && p.text != "" {
        var newID := Translate(p.text);
        q := p.(text := newID);
      }
      OnePoint(p, q, idMap, gen, old(next), next);
    }

    method ReplacePoints(points: seq<Point>) returns (r: seq<Point>)
      requires Valid()
      modifies this`next, this`idMap
      ensures Valid() && Grew(old(idMap), idMap, gen, old(next), next)
      ensures |r| == |points| && forall i :: 0 <= i < |r| ==> SamePoint(points[i], r[i])
      ensures Renamed(PointRefs(points), PointRefs(r), idMap, gen, old(next), next)
    {
      hide Grew, Renamed, PointRefs, SamePoint, Injective;
      r := points;
      NothingYet(idMap, gen, next);
      for i := 0 to |points|
        invariant Valid() && Grew(old(idMap), idMap, gen, old(next), next)
        invariant |r| == |points| && r[i..] == points[i..]
        invariant forall j :: 0 <= j < i ==> SamePoint(points[j], r[j])
        invariant Renamed(PointRefs(points[..i]), PointRefs(r[..i]), idMap, gen, old(next), next)
      {
        ghost var m, mid, before := idMap, next, r[..i];
        assert r[i] == r[i..][0] == points[i..][0] == points[i];
        var q := ReplacePoint(r[i]);
        r := r[i := q];
        assert r[..i] == before && r[i + 1..] == points[i..][1..] == points[i + 1..];
        GrewTwice(old(idMap), m, idMap, gen, old(next), mid, next);
        OneAfterOther(PointRefs(points[..i]), PointRefs(before), m, PointRefs([points[i]]), PointRefs([r[i]]), idMap,
                      gen, old(next), mid, next);
        PointRefsNext(points, i);
        PointRefsNext(r, i);
      }
      assert points[..|points|] == points && r[..|points|] == r;
    }

    // The id of a node: always a new one if it is blank.
    method ReplaceId(id: string) returns (newID: string)
      requires Valid()
      modifies this`next, this`idMap
      ensures Valid() && Grew(old(idMap), idMap, gen, old(next), next)
      ensures Renamed([Ref(true, id)], [Ref(true, newID)], idMap, gen, old(next), next)
    {
      hide Grew, Renamed;
      if id == "" {
        newID := NewId();
        GrewMore(idMap, gen, old(next), next);
      } else {
        newID := Translate(id);
      }
      OneId(id, newID, idMap, gen, old(next), next);
    }

    method Replace(n: Tree, parent: string) returns (r: Tree)
      requires Valid()
      modifies this`next, this`idMap
      ensures Valid() && Grew(old(idMap), idMap, gen, old(next), next)
      ensures SameShape(n, r, parent)
      ensures Renamed(Refs(n), Refs(r), idMap, gen, old(next), next)
      decreases n, 1
    {
      hide Grew, Renamed, SamePoint, PointRefs, ChildRefs, Injective;
      var newID := ReplaceId(n.id);
      ghost var m, mid := idMap, next;
      var points := ReplacePoints(n.points);
      ghost var head, headR := [Ref(true, n.id)] + PointRefs(n.points), [Ref(true, newID)] + PointRefs(points);
      OneAfterOther([Ref(true, n.id)], [Ref(true, newID)], m, PointRefs(n.points), PointRefs(points), idMap,
                    gen, old(next), mid, next);
      GrewTwice(old(idMap), m, idMap, gen, old(next), mid, next);
      m, mid := idMap, next;
      var children := ReplaceChildren(n, newID);
      GrewTwice(old(idMap), m, idMap, gen, old(next), mid, next);
      r := Tree(newID, parent, points, children);
      ChildRefsPrefix(Tree(newID, "", [], children), r, |children|);
      OneAfterOther(head, headR, m, ChildRefs(n, |n.children|), ChildRefs(r, |n.children|), idMap,
                    gen, old(next), mid, next);
    }

    // The loop over the children.
    method ReplaceChildren(n: Tree, newID: string) returns (children: seq<Tree>)
      requires Valid()
      modifies this`next, this`idMap
      ensures Valid() && Grew(old(idMap), idMap, gen, old(next), next)
      ensures |children| == |n.children|
      ensures forall i :: 0 <= i < |n.children| ==> SameShape(n.children[i], children[i], newID)
      ensures Renamed(ChildRefs(n, |n.children|), ChildRefs(Tree(newID, "", [], children), |n.children|), idMap,
                      gen, old(next), next)
      decreases n, 0
    {
      hide Grew, Renamed, SamePoint, PointRefs, Refs, SameShape, Injective;
      children := [];
      NoChildren(n, Tree(newID, "", [], []), idMap, gen, next);
      for i := 0 to |n.children|
        invariant Valid() && Grew(old(idMap), idMap, gen, old(next), next)
        invariant |children| == i && forall j :: 0 <= j < i ==> SameShape(n.children[j], children[j], newID)
        invariant Renamed(ChildRefs(n, i), ChildRefs(Tree(newID, "", [], children), i), idMap, gen, old(next), next)
      {
        ghost var m, mid := idMap, next;
        var c := Replace(n.children[i], newID);
        ghost var t, t' := Tree(newID, "", [], children), Tree(newID, "", [], children + [c]);
        ChildRefsPrefix(t, t', i);
        GrewTwice(old(idMap), m, idMap, gen, old(next), mid, next);
        OneAfterOther(ChildRefs(n, i), ChildRefs(t, i), m, Refs(n.children[i]), Refs(c), idMap, gen, old(next), mid, next);
        children := children + [c];
      }
    }
  }

  lemma {:induction false} NoChildren(t: Tree, r: Tree, m: map<string, string>, gen: nat -> string, next: nat)
    ensures Grew(m, m, gen, next, next) && Renamed(ChildRefs(t, 0), ChildRefs(r, 0), m, gen, next, next)
  {
  }

  lemma {:induction false} NothingYet(m: map<string, string>, gen: nat -> string, next: nat)
    ensures Grew(m, m, gen, next, next) && Renamed(PointRefs([]), PointRefs([]), m, gen, next, next)
  {
  }

  lemma {:induction false} GrewNothing(m: map<string, string>, gen: nat -> string, next: nat)
    ensures Grew(m, m, gen, next, next)
  {
  }

  lemma {:induction false} GrewMore(m: map<string, string>, gen: nat -> string, lo: nat, hi: nat)
    requires lo <= hi
    ensures Grew(m, m, gen, lo, hi)
  {
  }

  lemma {:induction false} OneId(old_: string, id: string, m: map<string, string>, gen: nat -> string, lo: nat, hi: nat)
    requires lo <= hi && id != ""
    requires if old_ == "" then id !in m.Values && lo < hi && id == gen(lo) else old_ in m && id == m[old_]
    ensures Renamed([Ref(true, old_)], [Ref(true, id)], m, gen, lo, hi)
  {
  }

  lemma {:induction false} OnePoint(p: Point, q: Point, m: map<string, string>, gen: nat -> string, lo: nat, hi: nat)
    requires lo <= hi && SamePoint(p, q)
    requires p.typ == "nodeID" && p.text != "" ==> p.text in m && q.text == m[p.text]
    ensures Renamed(PointRefs([p]), PointRefs([q]), m, gen, lo, hi)
  {
    assert [p][..0] == [] && [q][..0] == [];
    assert PointRefs([p]) == if p.typ == "nodeID" then [Ref(false, p.text)] else [];
    assert PointRefs([q]) == if p.typ == "nodeID" then [Ref(false, q.text)] else [];
  }

  lemma {:induction false} PointRefsNext(ps: seq<Point>, i: nat)
    requires i < |ps|
    ensures PointRefs(ps[..i + 1]) == PointRefs(ps[..i]) + PointRefs([ps[i]])
  {
    assert ps[..i + 1][..i] == ps[..i];
    assert [ps[i]][..0] == [];
  }

  lemma {:induction false} ChildRefsPrefix(t: Tree, u: Tree, n: nat)
    requires n <= |t.children| && n <= |u.children| && t.children[..n] == u.children[..n]
    ensures ChildRefs(t, n) == ChildRefs(u, n)
    decreases n
  {
    if n > 0 {
      assert t.children[n - 1] == t.children[..n][n - 1] == u.children[n - 1];
      assert t.children[..n - 1] == t.children[..n][..n - 1] == u.children[..n - 1];
      ChildRefsPrefix(t, u, n - 1);
    }
  }

  // ----- a consistent renaming -----

  ghost predicate Consistent(a: seq<Ref>, b: seq<Ref>) {
    && |a| == |b|
    // The same old id, and only the same, gives the same new one.
    && (forall i, j :: 0 <= i < |a| && 0 <= j < |a| && a[i].text != "" && a[j].text != "" ==>
          (a[i].text == a[j].text <==> b[i].text == b[j].text))
    // A node without an id gets one that is used nowhere else.
    && (forall i, j :: 0 <= i < |a| && 0 <= j < |a| && i != j && BlankId(a[i]) && (a[j].isId || a[j].text != "") ==>
          b[i].text != b[j].text)
    // Every node has an id; a blank reference stays blank.
    && (forall i :: 0 <= i < |a| ==> a[i].isId == b[i].isId && (a[i].isId ==> b[i].text != ""))
    && (forall i :: 0 <= i < |a| && !a[i].isId && a[i].text == "" ==> b[i].text == "")
  }

  lemma {:induction false} TranslatedIsConsistent(a: seq<Ref>, b: seq<Ref>, m: map<string, string>)
    requires AllTranslated(a, b, m) && Injective(m)
    ensures Consistent(a, b)
  {
    forall i, j | 0 <= i < |a| && 0 <= j < |a| && i != j && BlankId(a[i]) && (a[j].isId || a[j].text != "")
      ensures b[i].text != b[j].text
    {
      if a[j].text != "" {
        assert m[a[j].text] in m.Values;
      }
    }
  }

  method ReplaceIds(nodes: Tree, parent: string, gen: nat -> string) returns (r: Tree)
    requires Different(gen)
    ensures SameShape(nodes, r, parent) && Consistent(Refs(nodes), Refs(r))
    ensures CheckIds(r, parent) <==> parent != ""
  {
    hide SameShape, Refs, CheckIds, Consistent, AllTranslated;
    var renamer := new Renamer(gen);
    r := renamer.Replace(nodes, parent);
    TranslatedIsConsistent(Refs(nodes), Refs(r), renamer.idMap);
    ChecksIff(nodes, r, parent) by {
      assert Consistent(Refs(nodes), Refs(r));
      IdsNotBlank(Refs(nodes), Refs(r));
    }
  }

  lemma {:induction false} IdsNotBlank(a: seq<Ref>, b: seq<Ref>)
    requires Consistent(a, b)
    ensures forall i :: 0 <= i < |b| && b[i].isId ==> b[i].text != ""
  {
  }

  // checkIDs then succeeds, under any parent that is not blank.
  lemma {:induction false} ChecksIff(t: Tree, r: Tree, parent: string)
    requires SameShape(t, r, parent) && forall i :: 0 <= i < |Refs(r)| && Refs(r)[i].isId ==> Refs(r)[i].text != ""
    ensures CheckIds(r, parent) <==> parent != ""
    decreases r
  {
    assert Refs(r)[0] == Ref(true, r.id);
    forall i | 0 <= i < |r.children|
      ensures CheckIds(r.children[i], r.id)
    {
      RefsOfChild(r, i);
      forall j | 0 <= j < |Refs(r.children[i])| && Refs(r.children[i])[j].isId
        ensures Refs(r.children[i])[j].text != ""
      {
        assert Refs(r.children[i])[j] in Refs(r);
      }
      ChecksIff(t.children[i], r.children[i], r.id);
    }
  }

  lemma {:induction false} RefsOfChild(t: Tree, i: nat)
    requires i < |t.children|
    ensures forall x :: x in Refs(t.children[i]) ==> x in Refs(t)
  {
    ChildRefsGrow(t, i, |t.children|);
  }

  lemma {:induction false} ChildRefsGrow(t: Tree, i: nat, n: nat)
    requires i < n <= |t.children|
    ensures forall x :: x in Refs(t.children[i]) ==> x in ChildRefs(t, n)
    decreases n
  {
    if i < n - 1 {
      ChildRefsGrow(t, i, n - 1);
    }
  }
}
