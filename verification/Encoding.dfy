// Struct fields into points (data/encode.go): the whole of a struct, and what changed between
// two of them.
module Encoding {
  import opened Decimal
  import opened Fields
  import opened Wrappers
  import Points

  // ----- what is written: keys with cells, None being a tombstone -----

  datatype Entry = Entry(key: string, cell: Cell)

  // An order in which the keys of a map may be visited.
  ghost predicate IsOrder(ks: seq<string>, keys: set<string>) {
    && (forall i :: 0 <= i < |ks| ==> ks[i] in keys)
    && (forall k :: k in keys ==> k in ks)
    && (forall i, j :: 0 <= i < j < |ks| ==> ks[i] != ks[j])
  }

  lemma {:induction false} OrderSize(ks: seq<string>, keys: set<string>)
    requires IsOrder(ks, keys)
    ensures |ks| == |keys|
    decreases |ks|
  {
    if ks == [] {
      assert keys == {};
    } else {
      var n := |ks| - 1;
      assert ks[..n] == ks[..n] && ks[n] in keys;
      forall k | k in keys - {ks[n]}
        ensures k in ks[..n]
      {
        var i :| 0 <= i < |ks| && ks[i] == k;
      }
      OrderSize(ks[..n], keys - {ks[n]});
    }
  }

  function ListEntries(cs: seq<Cell>): (es: seq<Entry>)
    ensures |es| == |cs| && forall i :: 0 <= i < |cs| ==> es[i] == Entry(Itoa(i), cs[i])
  {
    seq(|cs|, i requires 0 <= i < |cs| => Entry(Itoa(i), cs[i]))
  }

  function DictEntries(m: map<string, Cell>, ks: seq<string>): (es: seq<Entry>)
    requires forall i :: 0 <= i < |ks| ==> ks[i] in m
    ensures |es| == |ks| && forall i :: 0 <= i < |ks| ==> es[i] == Entry(ks[i], m[ks[i]])
  {
    seq(|ks|, i requires 0 <= i < |ks| => Entry(ks[i], m[ks[i]]))
  }

  function FlatEntries(cs: seq<Cell>, keys: seq<string>): (es: seq<Entry>)
    requires |cs| == |keys|
    ensures |es| == |cs| && forall i :: 0 <= i < |cs| ==> es[i] == Entry(keys[i], cs[i])
  {
    seq(|cs|, i requires 0 <= i < |cs| => Entry(keys[i], cs[i]))
  }

  function Tombstones(keys: seq<string>): (es: seq<Entry>)
    ensures |es| == |keys| && forall i :: 0 <= i < |keys| ==> es[i] == Entry(keys[i], None)
  {
    seq(|keys|, i requires 0 <= i < |keys| => Entry(keys[i], None))
  }

  function Keys(fields: seq<Inner>): (ks: seq<string>)
    ensures |ks| == |fields| && forall i :: 0 <= i < |ks| ==> ks[i] == Key(fields[i])
  {
    seq(|fields|, i requires 0 <= i < |fields| => Key(fields[i]))
  }

  function DiffKeys(fields: seq<Inner>): (ks: seq<string>)
    ensures |ks| == |fields| && forall i :: 0 <= i < |ks| ==> ks[i] == DiffKey(fields[i])
  {
    seq(|fields|, i requires 0 <= i < |fields| => DiffKey(fields[i]))
  }

  function ToPoints(tag: string, es: seq<Entry>): (ps: seq<Point>)
    ensures |ps| == |es| && forall i :: 0 <= i < |es| ==> ps[i] == PointFor(tag, es[i].key, es[i].cell, 0)
  {
    seq(|es|, i requires 0 <= i < |es| => PointFor(tag, es[i].key, es[i].cell, 0))
  }

  predicate AllSafe(es: seq<Entry>) { forall i :: 0 <= i < |es| ==> Safe(es[i].cell) }

  // ----- Encode -----

  ghost predicate OrderFor(v: Value, ks: seq<string>) {
    v.VDict? ==> IsOrder(ks, v.m.Keys)
  }

  function Entries(v: Value, ft: FieldType, ks: seq<string>): seq<Entry>
    requires Shaped(v, ft) && (v.VDict? ==> forall i :: 0 <= i < |ks| ==> ks[i] in v.m)
  {
    match ft
    case Prim(_) => [Entry("", v.c)]
    case Slice(_) => ListEntries(v.cs)
    case Dict(_) => DictEntries(v.m, ks)
    case Flat(fields) => FlatEntries(v.cs, Keys(fields))
    case FlatPtr(fields) => if v.VNil? then Tombstones(Keys(fields)) else FlatEntries(v.cs, Keys(fields))
  }

  predicate TooBig(v: Value, ft: FieldType)
    requires Shaped(v, ft)
  {
    match ft
    case Prim(_) => false
    case Slice(_) => |v.cs| > MAX_STRUCTURE_SIZE
    case Dict(_) => |v.m| > MAX_STRUCTURE_SIZE
    case Flat(fields) => |fields| > MAX_STRUCTURE_SIZE
    case FlatPtr(fields) => |fields| > MAX_STRUCTURE_SIZE
  }

  // Orders for the first n fields.
  ghost predicate OrdersFor(vs: seq<Value>, orders: seq<seq<string>>, n: nat) {
    n <= |orders| && n <= |vs| && forall i :: 0 <= i < n ==> OrderFor(vs[i], orders[i])
  }

  // The points of the first n fields, or None where Encode returns an error.
  ghost function EncodedTo(vs: seq<Value>, st: seq<Field>, orders: seq<seq<string>>, n: nat): Option<seq<Point>>
    requires AllShaped(vs, st) && OrdersFor(vs, orders, n)
  {
    if n == 0 then Some([])
    else
      var before := EncodedTo(vs, st, orders, n - 1);
      var v, ft := vs[n - 1], st[n - 1].ft;
      assert OrderFor(v, orders[n - 1]);
      var es := Entries(v, ft, orders[n - 1]);
      if before.None? || TooBig(v, ft) || !AllSafe(es) then None
      else Some(before.value + ToPoints(st[n - 1].tag, es))
  }

  // ----- DiffPoints -----

  // How DiffPoints sees the two values of a field: a pointer counts as changed when it points
  // elsewhere, even to an equal value (moved are the keys where it does); and maps are visited
  // in some order.
  datatype View = View(moved: set<string>, order: seq<string>, removed: seq<string>)

  predicate Same(ct: CellType, key: string, b: Cell, a: Cell, moved: set<string>) {
    b == a && !(ct.pointer && b.Some? && key in moved)
  }

  // The entries that are picked.
  function Picked(es: seq<Entry>, pick: seq<bool>): seq<Entry>
    requires |es| == |pick|
  {
    if es == [] then []
    else
      var n := |es| - 1;
      Picked(es[..n], pick[..n]) + (if pick[n] then [es[n]] else [])
  }

  lemma {:induction false} InPicked(es: seq<Entry>, pick: seq<bool>, e: Entry)
    requires |es| == |pick|
    ensures e in Picked(es, pick) <==> exists i :: 0 <= i < |es| && pick[i] && es[i] == e
  {
    if es != [] {
      var n := |es| - 1;
      InPicked(es[..n], pick[..n], e);
      if i :| 0 <= i < |es| && pick[i] && es[i] == e {
        if i < n {
          assert pick[..n][i] && es[..n][i] == e;
        }
      }
    }
  }

  function ListChanges(b: seq<Cell>, a: seq<Cell>, ct: CellType, moved: set<string>): (r: seq<bool>)
    ensures |r| == |a|
    ensures forall i :: 0 <= i < |a| ==> r[i] == (i >= |b| || !Same(ct, Itoa(i), b[i], a[i], moved))
  {
    seq(|a|, i requires 0 <= i < |a| => i >= |b| || !Same(ct, Itoa(i), b[i], a[i], moved))
  }

  // The indices from b - 1 down to a.
  function Removed(b: nat, a: nat): (es: seq<Entry>)
    ensures |es| == if b > a then b - a else 0
    ensures forall i :: 0 <= i < |es| ==> es[i] == Entry(Itoa(b - 1 - i), None)
  {
    seq(if b > a then b - a else 0, i requires 0 <= i < b - a => Entry(Itoa(b - 1 - i), None))
  }

  function DictChanges(b: map<string, Cell>, a: map<string, Cell>, ct: CellType, v: View): (r: seq<bool>)
    requires forall i :: 0 <= i < |v.order| ==> v.order[i] in a
    ensures |r| == |v.order|
    ensures forall i :: 0 <= i < |r| ==>
      r[i] == (v.order[i] !in b || !Same(ct, v.order[i], b[v.order[i]], a[v.order[i]], v.moved))
  {
    seq(|v.order|, i requires 0 <= i < |v.order| =>
      v.order[i] !in b || !Same(ct, v.order[i], b[v.order[i]], a[v.order[i]], v.moved))
  }

  function FlatChanges(b: seq<Cell>, a: seq<Cell>, fields: seq<Inner>, moved: set<string>): (r: seq<bool>)
    requires |b| == |a| == |fields|
    ensures |r| == |a|
    ensures forall i :: 0 <= i < |a| ==> r[i] == !Same(fields[i].cell, DiffKey(fields[i]), b[i], a[i], moved)
  {
    seq(|a|, i requires 0 <= i < |a| => !Same(fields[i].cell, DiffKey(fields[i]), b[i], a[i], moved))
  }

  ghost predicate ViewOf(b: Value, a: Value, v: View) {
    b.VDict? && a.VDict? ==> IsOrder(v.order, a.m.Keys) && IsOrder(v.removed, b.m.Keys - a.m.Keys)
  }

  // The key of a single value is blank, which Points.Add turns into "0".
  ghost function DiffEntries(b: Value, a: Value, ft: FieldType, v: View): seq<Entry>
    requires Shaped(b, ft) && Shaped(a, ft) && ViewOf(b, a, v)
  {
    match ft
    case Prim(ct) => if Same(ct, "", b.c, a.c, v.moved) then [] else [Entry("0", a.c)]
    case Slice(ct) =>
      Picked(ListEntries(a.cs), ListChanges(b.cs, a.cs, ct, v.moved)) + Removed(|b.cs|, |a.cs|)
    case Dict(ct) =>
      Picked(DictEntries(a.m, v.order), DictChanges(b.m, a.m, ct, v)) + Tombstones(v.removed)
    case Flat(fields) =>
      Picked(FlatEntries(a.cs, DiffKeys(fields)), FlatChanges(b.cs, a.cs, fields, v.moved))
    case FlatPtr(fields) =>
      if b.VNil? && a.VNil? then []
      else if a.VNil? then Tombstones(DiffKeys(fields))
      else if b.VNil? then FlatEntries(a.cs, Keys(fields))
      else Picked(FlatEntries(a.cs, DiffKeys(fields)), FlatChanges(b.cs, a.cs, fields, v.moved))
  }

  // A pointer that is nil on both sides is skipped before its size is looked at.
  predicate DiffTooBig(b: Value, a: Value, ft: FieldType)
    requires Shaped(b, ft) && Shaped(a, ft)
  {
    TooBig(a, ft) && !(b.VNil? && a.VNil?)
  }

  // ----- Points.Add -----

  function FindPoint(ps: seq<Point>, typ: string, key: string): (i: nat)
    ensures i <= |ps| && (i < |ps| ==> ps[i].key == key && ps[i].typ == typ)
    ensures forall j :: 0 <= j < i ==> !(ps[j].key == key && ps[j].typ == typ)
  {
    if ps == [] || (ps[0].key == key && ps[0].typ == typ) then 0 else 1 + FindPoint(ps[1..], typ, key)
  }

  function AddPoint(ps: seq<Point>, pIn: Point, now: nat): seq<Point> {
    var p := pIn.(key := if pIn.key == "" then "0" else pIn.key,
                  time := if pIn.time == Points.ZERO_TIME then now else pIn.time);
    var i := FindPoint(ps, p.typ, p.key);
    if i == |ps| then ps + [p]
    else
      var kept := if p.time > ps[i].time then p else ps[i];
      ps[i := kept.(tombstone := if p.tombstone > ps[i].tombstone then p.tombstone else ps[i].tombstone)]
  }

  // Adding one point after the other; the clock is read once for each.
  function AddAll(ps: seq<Point>, more: seq<Point>, clock: nat -> nat): seq<Point> {
    if more == [] then ps
    else AddPoint(AddAll(ps, more[..|more| - 1], clock), more[|more| - 1], clock(|more|))
  }

  // ----- what adding does to a list of points -----

  predicate Is(p: Point, typ: string, key: string) { p.typ == typ && p.key == key }

  ghost predicate OneEach(ps: seq<Point>) {
    forall i, j :: 0 <= i < j < |ps| ==> !Is(ps[i], ps[j].typ, ps[j].key)
  }

  function Held(ps: seq<Point>, typ: string, key: string): Option<Point> {
    var i := FindPoint(ps, typ, key);
    if i == |ps| then None else Some(ps[i])
  }

  // A point as it is offered to a list, with its key and its time filled in.
  function Filled(p: Point, now: nat): (q: Point) {
    p.(key := if p.key == "" then "0" else p.key, time := if p.time == Points.ZERO_TIME then now else p.time)
  }

  // A point that is added gets the key "0" and the current time if it has none; the rest stays.
  lemma {:induction false} FilledIs(p: Point, now: nat)
    ensures
      var q := Filled(p, now);
      && q.typ == p.typ && q.value == p.value && q.text == p.text && q.tombstone == p.tombstone && q.origin == p.origin
      && q.key == (if p.key == "" then "0" else p.key) && q.time == (if p.time == 0 then now else p.time)
    ensures AddPoint([], p, now) == [Filled(p, now)]
  {
  }

  function Offered(ps: seq<Point>, more: seq<Point>, clock: nat -> nat): seq<Point> {
    if more == [] then ps
    else Offered(ps, more[..|more| - 1], clock) + [Filled(more[|more| - 1], clock(|more|))]
  }

  // q is for its identity the first of the newest points of o, but with the largest tombstone.
  ghost predicate NewestIn(o: seq<Point>, q: Point) {
    && (forall k :: 0 <= k < |o| && Is(o[k], q.typ, q.key) ==> o[k].time <= q.time && o[k].tombstone <= q.tombstone)
    && (exists k :: 0 <= k < |o| && Is(o[k], q.typ, q.key) && o[k].tombstone == q.tombstone)
    && (exists k :: FirstAt(o, k, q) && o[k].(tombstone := q.tombstone) == q)
  }

  ghost predicate FirstAt(o: seq<Point>, k: int, q: Point) {
    0 <= k < |o| && forall j :: 0 <= j < k && Is(o[j], q.typ, q.key) ==> o[j].time < q.time
  }

  ghost predicate HoldsNewest(r: seq<Point>, o: seq<Point>, typ: string, key: string) {
    match Held(r, typ, key)
    case None => forall k :: 0 <= k < |o| ==> !Is(o[k], typ, key)
    case Some(q) => Is(q, typ, key) && NewestIn(o, q)
  }

  lemma {:induction false} HeldIn(ps: seq<Point>, typ: string, key: string, i: nat)
    requires OneEach(ps) && i < |ps| && Is(ps[i], typ, key)
    ensures FindPoint(ps, typ, key) == i
  {
    assert FindPoint(ps, typ, key) <= i;
  }

  // The identity of the added point is changed, no other is.
  lemma {:induction false} AddedHeld(ps: seq<Point>, pIn: Point, now: nat, typ: string, key: string)
    requires OneEach(ps)
    ensures var r := AddPoint(ps, pIn, now); OneEach(r)
    ensures
      var p, was := Filled(pIn, now), Held(ps, typ, key);
      Held(AddPoint(ps, pIn, now), typ, key) ==
        if !Is(p, typ, key) then was
        else if was.None? then Some(p)
        else Some((if p.time > was.value.time then p else was.value)
          .(tombstone := if p.tombstone > was.value.tombstone then p.tombstone else was.value.tombstone))
  {
    var p, r := Filled(pIn, now), AddPoint(ps, pIn, now);
    var i := FindPoint(ps, p.typ, p.key);
    assert Is(r[i], p.typ, p.key);
    assert forall j :: 0 <= j < |ps| && j != i ==> r[j] == ps[j];
    assert OneEach(r);
    var at := FindPoint(ps, typ, key);
    if Is(p, typ, key) {
      HeldIn(r, typ, key, i);
    } else if at < |ps| {
      HeldIn(r, typ, key, at);
    } else {
      assert forall j :: 0 <= j < |r| ==> !Is(r[j], typ, key);
    }
  }

  lemma {:induction false} NewestWith(o: seq<Point>, was: Point, p: Point, q: Point)
    requires NewestIn(o, was) && Is(p, was.typ, was.key)
    requires q == (if p.time > was.time then p else was)
      .(tombstone := if p.tombstone > was.tombstone then p.tombstone else was.tombstone)
    ensures NewestIn(o + [p], q)
  {
    var o' := o + [p];
    var k :| FirstAt(o, k, was) && o[k].(tombstone := was.tombstone) == was;
    var t :| 0 <= t < |o| && Is(o[t], was.typ, was.key) && o[t].tombstone == was.tombstone;
    assert o'[|o|] == p && o'[k] == o[k] && o'[t] == o[t];
    assert FirstAt(o', if p.time > was.time then |o| else k, q);
    var at := if p.tombstone > was.tombstone then |o| else t;
    assert Is(o'[at], q.typ, q.key) && o'[at].tombstone == q.tombstone;
  }

  lemma {:induction false} NewestWithout(o: seq<Point>, was: Point, p: Point)
    requires NewestIn(o, was) && !Is(p, was.typ, was.key)
    ensures NewestIn(o + [p], was)
  {
    var o' := o + [p];
    var k :| FirstAt(o, k, was) && o[k].(tombstone := was.tombstone) == was;
    var t :| 0 <= t < |o| && Is(o[t], was.typ, was.key) && o[t].tombstone == was.tombstone;
    assert o'[k] == o[k] && FirstAt(o', k, was);
    assert o'[t] == o[t];
  }

  // Any number of points added: for every identity the newest, with the largest tombstone.
  lemma {:induction false} AddAllKeepsNewest(ps: seq<Point>, more: seq<Point>, clock: nat -> nat, typ: string,
                                             key: string)
    requires OneEach(ps)
    ensures OneEach(AddAll(ps, more, clock))
    ensures HoldsNewest(AddAll(ps, more, clock), Offered(ps, more, clock), typ, key)
  {
    hide AddPoint, OneEach;
    if more == [] {
      var i := FindPoint(ps, typ, key);
      if i < |ps| {
        assert FirstAt(ps, i, ps[i]) && Is(ps[i], typ, key);
        NewestAlone(ps, i);
      }
    } else {
      hide NewestIn;
      var n := |more| - 1;
      AddAllKeepsNewest(ps, more[..n], clock, typ, key);
      var before, o := AddAll(ps, more[..n], clock), Offered(ps, more[..n], clock);
      var p := Filled(more[n], clock(|more|));
      AddedHeld(before, more[n], clock(|more|), typ, key);
      var r := AddPoint(before, more[n], clock(|more|));
      match Held(before, typ, key) {
        case None =>
          if Is(p, typ, key) {
            NewestFresh(o, p);
          }
        case Some(was) =>
          if Is(p, typ, key) {
            NewestWith(o, was, p, Held(r, typ, key).value);
          } else {
            NewestWithout(o, was, p);
          }
      }
    }
  }

  lemma {:induction false} NewestAlone(ps: seq<Point>, i: nat)
    requires OneEach(ps) && i < |ps|
    ensures NewestIn(ps, ps[i])
  {
    assert FirstAt(ps, i, ps[i]);
    assert Is(ps[i], ps[i].typ, ps[i].key);
  }

  lemma {:induction false} NewestFresh(o: seq<Point>, p: Point)
    requires forall k :: 0 <= k < |o| ==> !Is(o[k], p.typ, p.key)
    ensures NewestIn(o + [p], p)
  {
    var o' := o + [p];
    assert o'[|o|] == p && FirstAt(o', |o|, p) && Is(p, p.typ, p.key);
  }

  ghost predicate ViewsOf(bs: seq<Value>, as_: seq<Value>, views: seq<View>, n: nat) {
    |bs| == |as_| && n <= |bs| && n <= |views| && forall i :: 0 <= i < n ==> ViewOf(bs[i], as_[i], views[i])
  }

  // The points for the first n fields, or None where DiffPoints returns an error.  A struct
  // whose pointer was nil is appended as Encode would; everything else goes through Add.
  ghost function DiffedTo(bs: seq<Value>, as_: seq<Value>, st: seq<Field>, views: seq<View>,
                          clock: nat -> nat, n: nat): Option<seq<Point>>
    requires AllShaped(bs, st) && AllShaped(as_, st) && ViewsOf(bs, as_, views, n)
  {
    if n == 0 then Some([])
    else
      var before := DiffedTo(bs, as_, st, views, clock, n - 1);
      var b, a, f := bs[n - 1], as_[n - 1], st[n - 1];
      assert ViewOf(b, a, views[n - 1]);
      var es := DiffEntries(b, a, f.ft, views[n - 1]);
      if before.None? || DiffTooBig(b, a, f.ft) || !AllSafe(es) then None
      else if b.VNil? && !a.VNil? then Some(before.value + ToPoints(f.tag, es))
      else Some(AddAll(before.value, ToPoints(f.tag, es), clock))
  }
}
