// Encode and DiffPoints as they run (data/encode.go): points are appended field by field, and
// maps are visited in whatever order comes up.
module Encoder {
  import opened Decimal
  import opened Encoding
  import opened Fields
  import opened WireForm
  import opened Wrappers
  import Points

  // pointFromPrimitive: it refuses the integers that a float64 does not hold, and nothing else.
  function FromPrimitive(typ: string, c: Cell): (p: Option<Point>)
    ensures p.None? <==>
      c.Some? && c.value.Int? && (c.value.i < -9007199254740991 || c.value.i > 9007199254740991)
    ensures p.Some? ==> IsPoint(p.value, typ, "", c) && p.value.time == 0
    ensures p.Some? <==> Safe(c)
    ensures p.Some? ==> forall key :: p.value.(key := key) == PointFor(typ, key, c, 0)
  {
    if Safe(c) then Some(PointFor(typ, "", c, 0)) else None
  }

  // ----- Encode -----

  ghost predicate SafeValue(v: Value) {
    match v
    case VPrim(c) => Safe(c)
    case VSlice(cs) => forall i :: 0 <= i < |cs| ==> Safe(cs[i])
    case VDict(m) => forall k :: k in m ==> Safe(m[k])
    case VFlat(cs) => forall i :: 0 <= i < |cs| ==> Safe(cs[i])
    case VNil => true
  }

  lemma {:induction false} ToPointsNext(tag: string, es: seq<Entry>, i: nat)
    requires i < |es|
    ensures ToPoints(tag, es[..i + 1]) == ToPoints(tag, es[..i]) + [PointFor(tag, es[i].key, es[i].cell, 0)]
  {
  }

  method AppendList(points: seq<Point>, tag: string, cs: seq<Cell>) returns (r: seq<Point>, err: bool)
    ensures err <==> |cs| > MAX_STRUCTURE_SIZE || exists i :: 0 <= i < |cs| && !Safe(cs[i])
    ensures !err ==> r == points + ToPoints(tag, ListEntries(cs))
  {
    hide Safe, PointFor;
    r := points;
    if |cs| > MAX_STRUCTURE_SIZE {
      return r, true;
    }
    ghost var es := ListEntries(cs);
    for i := 0 to |cs|
      invariant r == points + ToPoints(tag, es[..i])
      invariant forall j :: 0 <= j < i ==> Safe(cs[j])
    {
      var p := FromPrimitive(tag, cs[i]);
      if p.None? {
        return r, true;
      }
      ToPointsNext(tag, es, i);
      r := r + [p.value.(key := Itoa(i))];
    }
    assert es[..|cs|] == es;
    err := false;
  }

  // MapRange: the keys in an order that may be any.
  method MapRange(keys: set<string>) returns (ks: seq<string>)
    ensures IsOrder(ks, keys)
  {
    ks := [];
    var rest := keys;
    while rest != {}
      invariant rest <= keys && IsOrder(ks, keys - rest)
      decreases |rest|
    {
      var k :| k in rest;
      OneVisited(ks, keys - rest, k);
      assert keys - (rest - {k}) == keys - rest + {k};
      rest := rest - {k};
      ks := ks + [k];
    }
    assert keys - rest == keys;
  }

  lemma {:induction false} OneVisited(ks: seq<string>, seen: set<string>, k: string)
    requires IsOrder(ks, seen) && k !in seen
    ensures IsOrder(ks + [k], seen + {k})
  {
  }

  method AppendDict(points: seq<Point>, tag: string, m: map<string, Cell>)
    returns (r: seq<Point>, err: bool, ghost ks: seq<string>)
    ensures err <==> |m| > MAX_STRUCTURE_SIZE || exists k :: k in m && !Safe(m[k])
    ensures !err ==> IsOrder(ks, m.Keys) && r == points + ToPoints(tag, DictEntries(m, ks))
  {
    hide Safe, PointFor;
    r, ks := points, [];
    if |m| > MAX_STRUCTURE_SIZE {
      return r, true, ks;
    }
    var keys := MapRange(m.Keys);
    ks := keys;
    ghost var es := DictEntries(m, keys);
    for i := 0 to |keys|
      invariant r == points + ToPoints(tag, es[..i])
      invariant forall j :: 0 <= j < i ==> Safe(m[keys[j]])
    {
      var p := FromPrimitive(tag, m[keys[i]]);
      if p.None? {
        return r, true, ks;
      }
      ToPointsNext(tag, es, i);
      r := r + [p.value.(key := keys[i])];
    }
    assert es[..|keys|] == es;
    err := false;
  }

  method AppendFlat(points: seq<Point>, tag: string, cs: seq<Cell>, fields: seq<Inner>) returns (r: seq<Point>,
          err: bool)
    requires |cs| == |fields|
    ensures err <==> |fields| > MAX_STRUCTURE_SIZE || exists i :: 0 <= i < |cs| && !Safe(cs[i])
    ensures !err ==> r == points + ToPoints(tag, FlatEntries(cs, Keys(fields)))
  {
    hide Safe, PointFor, Key;
    r := points;
    if |fields| > MAX_STRUCTURE_SIZE {
      return r, true;
    }
    ghost var es := FlatEntries(cs, Keys(fields));
    for i := 0 to |fields|
      invariant r == points + ToPoints(tag, es[..i])
      invariant forall j :: 0 <= j < i ==> Safe(cs[j])
    {
      var p := FromPrimitive(tag, cs[i]);
      if p.None? {
        return r, true;
      }
      ToPointsNext(tag, es, i);
      r := r + [p.value.(key := Key(fields[i]))];
    }
    assert es[..|fields|] == es;
    err := false;
  }

  method AppendNil(points: seq<Point>, tag: string, fields: seq<Inner>) returns (r: seq<Point>, err: bool)
    ensures err <==> |fields| > MAX_STRUCTURE_SIZE
    ensures !err ==> r == points + ToPoints(tag, Tombstones(Keys(fields)))
  {
    hide Key;
    r := points;
    if |fields| > MAX_STRUCTURE_SIZE {
      return r, true;
    }
    ghost var es := Tombstones(Keys(fields));
    for i := 0 to |fields|
      invariant r == points + ToPoints(tag, es[..i])
    {
      ToPointsNext(tag, es, i);
      r := r + [Points.Point(tag, Key(fields[i]), 0, 0.0, "", 1, "")];
    }
    assert es[..|fields|] == es;
    err := false;
  }

  // appendPointsFromValue; ks is the order in which a map was visited.
  lemma {:induction false} CannotIff(v: Value, ft: FieldType)
    requires Shaped(v, ft)
    ensures CannotEncode(v, ft) <==> TooBig(v, ft) || !SafeValue(v)
  {
  }

  method AppendPoints(points: seq<Point>, tag: string, v: Value, ft: FieldType)
    returns (r: seq<Point>, err: bool, ghost ks: seq<string>)
    requires Shaped(v, ft)
    ensures err <==> CannotEncode(v, ft)
    ensures !err ==> |points| <= |r| && r[..|points|] == points && EncodedAs(v, ft, tag, r[|points|..])
    ensures err <==> TooBig(v, ft) || !SafeValue(v)
    ensures !err ==> OrderFor(v, ks) && AllSafe(Entries(v, ft, ks)) && r == points + ToPoints(tag, Entries(v, ft, ks))
  {
    hide Safe, PointFor, Key, EncodedAs, CannotEncode, IsPoint;
    ks := [];
    CannotIff(v, ft);
    match ft {
      case Prim(_) =>
        var p := FromPrimitive(tag, v.c);
        if p.None? {
          return points, true, ks;
        }
        assert p.value == p.value.(key := "");
        assert ToPoints(tag, [Entry("", v.c)]) == [p.value];
        r, err := points + [p.value], false;
      case Slice(_) => r, err := AppendList(points, tag, v.cs);
      case Dict(_) => r, err, ks := AppendDict(points, tag, v.m);
      case Flat(fields) => r, err := AppendFlat(points, tag, v.cs, fields);
      case FlatPtr(fields) =>
        if v.VNil? {
          r, err := AppendNil(points, tag, fields);
          NilSafe();
        } else {
          r, err := AppendFlat(points, tag, v.cs, fields);
        }
    }
    if !err {
      EntriesAre(v, ft, ks, tag);
    }
  }

  lemma {:induction false} NilSafe()
    ensures Safe(None)
  {
  }

  lemma {:induction false} EncodedSame(vs: seq<Value>, st: seq<Field>, o1: seq<seq<string>>, o2: seq<seq<string>>,
          n: nat)
    requires AllShaped(vs, st) && OrdersFor(vs, o1, n) && OrdersFor(vs, o2, n)
    requires forall i :: 0 <= i < n ==> o1[i] == o2[i]
    ensures EncodedTo(vs, st, o1, n) == EncodedTo(vs, st, o2, n)
  {
    hide Entries, TooBig, AllSafe, OrderFor;
    if n > 0 {
      EncodedSame(vs, st, o1, o2, n - 1);
    }
  }

  // Encode fails exactly where a value is too big or an integer cannot be held by a float64.
  method Encode(vs: seq<Value>, st: seq<Field>) returns (points: seq<Point>, err: bool, ghost orders: seq<seq<string>>)
    requires AllShaped(vs, st)
    ensures err <==> exists i :: 0 <= i < |st| && CannotEncode(vs[i], st[i].ft)
    ensures !err ==> FieldsEncoded(vs, st, |st|, points)
    ensures !err ==> OrdersFor(vs, orders, |st|) && EncodedTo(vs, st, orders, |st|) == Some(points)
  {
    hide Entries, TooBig, SafeValue, AllSafe, OrderFor, CannotEncode, EncodedAs, FieldsEncoded, ToPoints;
    points, err, orders := [], false, [];
    for i := 0 to |st|
      invariant !err && |orders| == i && OrdersFor(vs, orders, i)
      invariant forall j :: 0 <= j < i ==> !CannotEncode(vs[j], st[j].ft)
      invariant EncodedTo(vs, st, orders, i) == Some(points)
    {
      ghost var ks;
      points, err, ks := AppendPoints(points, st[i].tag, vs[i], st[i].ft);
      if err {
        return;
      }
      CannotIff(vs[i], st[i].ft);
      EncodedSame(vs, st, orders, orders + [ks], i);
      orders := orders + [ks];
    }
    EncodedFields(vs, st, orders, |st|);
  }

  // ----- Points.Add -----

  lemma {:induction false} FirstPoint(ps: seq<Point>, typ: string, key: string, i: nat)
    requires i <= |ps| && (i < |ps| ==> ps[i].key == key && ps[i].typ == typ)
    requires forall j :: 0 <= j < i ==> !(ps[j].key == key && ps[j].typ == typ)
    ensures FindPoint(ps, typ, key) == i
  {
  }

  method Add(ps: seq<Point>, pIn: Point, now: nat) returns (r: seq<Point>)
    ensures r == AddPoint(ps, pIn, now)
  {
    var p := pIn;
    if p.key == "" {
      p := p.(key := "0");
    }
    if p.time == Points.ZERO_TIME {
      p := p.(time := now);
    }
    var found := |ps|;
    for i := 0 to |ps|
      invariant found == |ps|
      invariant forall j :: 0 <= j < i ==> !(ps[j].key == p.key && ps[j].typ == p.typ)
    {
      if ps[i].key == p.key && ps[i].typ == p.typ {
        found := i;
        break;
      }
    }
    FirstPoint(ps, p.typ, p.key, found);
    if found == |ps| {
      return ps + [p];
    }
    r := ps;
    var tombstone := if p.tombstone > ps[found].tombstone then p.tombstone else ps[found].tombstone;
    if p.time > ps[found].time {
      r := r[found := p];
    }
    r := r[found := r[found].(tombstone := tombstone)];
  }

  // ----- DiffPoints -----

  // The changed elements hold an integer that a float64 cannot hold.
  ghost predicate DiffUnsafe(b: Value, a: Value, ft: FieldType, moved: set<string>)
    requires Shaped(b, ft) && Shaped(a, ft)
  {
    match ft
    case Prim(ct) => !Same(ct, "", b.c, a.c, moved) && !Safe(a.c)
    case Slice(ct) => exists i :: 0 <= i < |a.cs| && ListChanges(b.cs, a.cs, ct, moved)[i] && !Safe(a.cs[i])
    case Dict(ct) => exists k :: k in a.m && Changed(b.m, a.m, ct, moved, k) && !Safe(a.m[k])
    case Flat(fields) => exists i :: 0 <= i < |fields| && FlatChanges(b.cs, a.cs, fields, moved)[i] && !Safe(a.cs[i])
    case FlatPtr(fields) =>
      if a.VNil? then false
      else if b.VNil? then exists i :: 0 <= i < |fields| && !Safe(a.cs[i])
      else exists i :: 0 <= i < |fields| && FlatChanges(b.cs, a.cs, fields, moved)[i] && !Safe(a.cs[i])
  }

  predicate Changed(b: map<string, Cell>, a: map<string, Cell>, ct: CellType, moved: set<string>, k: string)
    requires k in a
  {
    k !in b || !Same(ct, k, b[k], a[k], moved)
  }

  // One more point through Add.
  method AddEntry(points: seq<Point>, ghost start: seq<Point>, ghost out: seq<Entry>, n: nat,
                  p: Point, ghost e: Entry, clock: nat -> nat) returns (r: seq<Point>)
    requires points == AddAll(start, ToPoints(p.typ, out), clock) && n == |out|
    requires p == PointFor(p.typ, e.key, e.cell, 0)
    ensures r == AddAll(start, ToPoints(p.typ, out + [e]), clock)
  {
    hide AddPoint, PointFor;
    ghost var more := ToPoints(p.typ, out + [e]);
    assert more[..n] == ToPoints(p.typ, out) && more[n] == p;
    r := Add(points, p, clock(n + 1));
  }

  lemma {:induction false} PickedNext(es: seq<Entry>, pick: seq<bool>, i: nat)
    requires |es| == |pick| && i < |es|
    ensures pick[i] ==> Picked(es[..i + 1], pick[..i + 1]) == Picked(es[..i], pick[..i]) + [es[i]]
    ensures !pick[i] ==> Picked(es[..i + 1], pick[..i + 1]) == Picked(es[..i], pick[..i])
  {
    assert es[..i + 1][..i] == es[..i] && pick[..i + 1][..i] == pick[..i];
  }

  lemma {:induction false} NonePicked(es: seq<Entry>, pick: seq<bool>)
    requires |es| == |pick|
    ensures Picked(es[..0], pick[..0]) == [] && AllSafe([])
  {
  }

  // The elements that are new or differ.
  method DiffElements(points: seq<Point>, tag: string, b: seq<Cell>, a: seq<Cell>, ct: CellType, moved: set<string>,
                      clock: nat -> nat) returns (r: seq<Point>, n: nat, err: bool)
    ensures err <==> exists i :: 0 <= i < |a| && ListChanges(b, a, ct, moved)[i] && !Safe(a[i])
    ensures
      var es := Picked(ListEntries(a), ListChanges(b, a, ct, moved));
      !err ==> n == |es| && AllSafe(es) && r == AddAll(points, ToPoints(tag, es), clock)
  {
    hide Safe, PointFor, AddAll, Same, Picked, AllSafe, ToPoints;
    r, n := points, 0;
    ghost var all, pick := ListEntries(a), ListChanges(b, a, ct, moved);
    ghost var out: seq<Entry> := [];
    AddNothing(points, tag, clock);
    NonePicked(all, pick);
    for i := 0 to |a|
      invariant out == Picked(all[..i], pick[..i]) && n == |out| && AllSafe(out)
      invariant r == AddAll(points, ToPoints(tag, out), clock)
      invariant forall j :: 0 <= j < i && pick[j] ==> Safe(a[j])
    {
      PickedNext(all, pick, i);
      if i >= |b| || !Same(ct, Itoa(i), b[i], a[i], moved) {
        var p := FromPrimitive(tag, a[i]);
        if p.None? {
          return r, n, true;
        }
        OneSafe(out, all[i]);
        r := AddEntry(r, points, out, n, p.value.(key := Itoa(i)), all[i], clock);
        n, out := n + 1, out + [all[i]];
      }
    }
    AllPicked(all, pick);
    err := false;
  }

  lemma {:induction false} OneSafe(es: seq<Entry>, e: Entry)
    requires AllSafe(es)
    ensures Safe(e.cell) ==> AllSafe(es + [e])
  {
    hide Safe;
  }

  lemma {:induction false} AllPicked(es: seq<Entry>, pick: seq<bool>)
    requires |es| == |pick|
    ensures Picked(es[..|es|], pick[..|es|]) == Picked(es, pick)
  {
    assert es[..|es|] == es && pick[..|es|] == pick;
  }

  // Tombstones for the elements from b - 1 down to a.
  method DiffRemoved(points: seq<Point>, tag: string, b: nat, a: nat, ghost start: seq<Point>, ghost out: seq<Entry>,
                     n: nat, clock: nat -> nat) returns (r: seq<Point>)
    requires points == AddAll(start, ToPoints(tag, out), clock) && n == |out|
    ensures r == AddAll(start, ToPoints(tag, out + Removed(b, a)), clock)
  {
    hide PointFor, AddAll;
    r := points;
    ghost var gone := Removed(b, a);
    NilPoint();
    assert out + gone[..0] == out;
    for i := b downto if b > a then a else b
      invariant r == AddAll(start, ToPoints(tag, out + gone[..b - i]), clock)
    {
      ghost var k := b - 1 - i;
      assert out + gone[..k] + [gone[k]] == out + gone[..k + 1];
      r := AddEntry(r, start, out + gone[..k], n + (b - 1 - i), Points.Point(tag, Itoa(i), 0, 0.0, "", 1, ""), gone[k], clock);
    }
    assert gone[..|gone|] == gone;
  }

  method DiffList(points: seq<Point>, tag: string, b: seq<Cell>, a: seq<Cell>, ct: CellType, moved: set<string>,
                  clock: nat -> nat) returns (r: seq<Point>, err: bool)
    ensures
      err <==> |a| > MAX_STRUCTURE_SIZE || exists i :: 0 <= i < |a| && ListChanges(b, a, ct, moved)[i] && !Safe(a[i])
    ensures
      var es := Picked(ListEntries(a), ListChanges(b, a, ct, moved)) + Removed(|b|, |a|);
      !err ==> AllSafe(es) && r == AddAll(points, ToPoints(tag, es), clock)
  {
    hide Safe, AddAll, Picked;
    if |a| > MAX_STRUCTURE_SIZE {
      return points, true;
    }
    var n;
    r, n, err := DiffElements(points, tag, b, a, ct, moved, clock);
    if !err {
      r := DiffRemoved(r, tag, |b|, |a|, points, Picked(ListEntries(a), ListChanges(b, a, ct, moved)), n, clock);
      NilSafe();
    }
  }

  // The keys that are new or differ.
  method DiffKeysOf(points: seq<Point>, tag: string, b: map<string, Cell>, a: map<string, Cell>, ct: CellType,
                    moved: set<string>, keys: seq<string>, clock: nat -> nat)
    returns (r: seq<Point>, n: nat, err: bool)
    requires IsOrder(keys, a.Keys) && forall i :: 0 <= i < |keys| ==> keys[i] in a
    ensures err <==> exists k :: k in a && Changed(b, a, ct, moved, k) && !Safe(a[k])
    ensures !err ==>
      var es := Picked(DictEntries(a, keys), DictChanges(b, a, ct, View(moved, keys, [])));
      n == |es| && AllSafe(es) && r == AddAll(points, ToPoints(tag, es), clock)
  {
    hide Safe, PointFor, AddAll, Same, Picked;
    r, n := points, 0;
    ghost var all, pick := DictEntries(a, keys), DictChanges(b, a, ct, View(moved, keys, []));
    ghost var out: seq<Entry> := [];
    AddNothing(points, tag, clock);
    NonePicked(all, pick);
    for i := 0 to |keys|
      invariant out == Picked(all[..i], pick[..i]) && n == |out| && AllSafe(out)
      invariant r == AddAll(points, ToPoints(tag, out), clock)
      invariant forall j :: 0 <= j < i && pick[j] ==> Safe(a[keys[j]])
    {
      PickedNext(all, pick, i);
      var k := keys[i];
      if k !in b || !Same(ct, k, b[k], a[k], moved) {
        var p := FromPrimitive(tag, a[k]);
        if p.None? {
          return r, n, true;
        }
        r := AddEntry(r, points, out, n, p.value.(key := k), all[i], clock);
        n, out := n + 1, out + [all[i]];
      }
    }
    assert all[..|keys|] == all && pick[..|keys|] == pick;
    err := false;
  }

  // Tombstones for the keys to delete.
  method DiffDeleted(points: seq<Point>, tag: string, removed: seq<string>, ghost start: seq<Point>,
                     ghost out: seq<Entry>, n: nat, clock: nat -> nat) returns (r: seq<Point>)
    requires points == AddAll(start, ToPoints(tag, out), clock) && n == |out|
    ensures r == AddAll(start, ToPoints(tag, out + Tombstones(removed)), clock)
  {
    hide PointFor, AddAll;
    r := points;
    ghost var gone := Tombstones(removed);
    NilPoint();
    assert out + gone[..0] == out;
    for i := 0 to |removed|
      invariant r == AddAll(start, ToPoints(tag, out + gone[..i]), clock)
    {
      assert out + gone[..i] + [gone[i]] == out + gone[..i + 1];
      r := AddEntry(r, start, out + gone[..i], n + i, Points.Point(tag, removed[i], 0, 0.0, "", 1, ""), gone[i], clock);
    }
    assert gone[..|removed|] == gone;
  }

  method DiffDict(points: seq<Point>, tag: string, b: map<string, Cell>, a: map<string, Cell>, ct: CellType,
                  moved: set<string>, clock: nat -> nat) returns (r: seq<Point>, err: bool, ghost v: View)
    ensures
      err <==> |a| > MAX_STRUCTURE_SIZE || exists k :: k in a && Changed(b, a, ct, moved, k) && !Safe(a[k])
    ensures v.moved == moved
    ensures !err ==> IsOrder(v.order, a.Keys) && IsOrder(v.removed, b.Keys - a.Keys)
    ensures !err ==>
      var es := Picked(DictEntries(a, v.order), DictChanges(b, a, ct, v)) + Tombstones(v.removed);
      AllSafe(es) && r == AddAll(points, ToPoints(tag, es), clock)
  {
    hide Safe, AddAll, Picked, IsOrder, Same;
    v := View(moved, [], []);
    if |a| > MAX_STRUCTURE_SIZE {
      return points, true, v;
    }
    var keys := MapRange(a.Keys);
    OrderIn(keys, a.Keys);
    var n;
    r, n, err := DiffKeysOf(points, tag, b, a, ct, moved, keys, clock);
    if !err {
      var keysToDelete := MapRange(b.Keys - a.Keys);
      ghost var changes := DictChanges(b, a, ct, View(moved, keys, []));
      r := DiffDeleted(r, tag, keysToDelete, points, Picked(DictEntries(a, keys), changes), n, clock);
      v := View(moved, keys, keysToDelete);
      assert DictChanges(b, a, ct, v) == changes;
      NilSafe();
    }
  }

  lemma {:induction false} OrderIn(ks: seq<string>, keys: set<string>)
    requires IsOrder(ks, keys)
    ensures forall i :: 0 <= i < |ks| ==> ks[i] in keys
  {
  }

  lemma {:induction false} AddNothing(points: seq<Point>, tag: string, clock: nat -> nat)
    ensures points == AddAll(points, ToPoints(tag, []), clock)
  {
  }

  lemma {:induction false} NilPoint()
    ensures forall tag, key :: Points.Point(tag, key, 0, 0.0, "", 1, "") == PointFor(tag, key, None, 0)
  {
  }

  method DiffFlat(points: seq<Point>, tag: string, b: seq<Cell>, a: seq<Cell>, fields: seq<Inner>, moved: set<string>,
                  clock: nat -> nat) returns (r: seq<Point>, err: bool)
    requires |b| == |a| == |fields|
    ensures
      err <==> |fields| > MAX_STRUCTURE_SIZE || exists i :: 0 <= i < |fields| && FlatChanges(b, a, fields, moved)[i] && !Safe(a[i])
    ensures
      var es := Picked(FlatEntries(a, DiffKeys(fields)), FlatChanges(b, a, fields, moved));
      !err ==> AllSafe(es) && r == AddAll(points, ToPoints(tag, es), clock)
  {
    hide Safe, PointFor, AddAll, Same, DiffKey, Picked;
    r := points;
    if |fields| > MAX_STRUCTURE_SIZE {
      return r, true;
    }
    ghost var all, pick := FlatEntries(a, DiffKeys(fields)), FlatChanges(b, a, fields, moved);
    ghost var out: seq<Entry> := [];
    var n := 0;
    AddNothing(points, tag, clock);
    NonePicked(all, pick);
    for i := 0 to |fields|
      invariant out == Picked(all[..i], pick[..i]) && n == |out| && AllSafe(out)
      invariant r == AddAll(points, ToPoints(tag, out), clock)
      invariant forall j :: 0 <= j < i && pick[j] ==> Safe(a[j])
    {
      PickedNext(all, pick, i);
      var key := DiffKey(fields[i]);
      if !Same(fields[i].cell, key, b[i], a[i], moved) {
        var p := FromPrimitive(tag, a[i]);
        if p.None? {
          return r, true;
        }
        r := AddEntry(r, points, out, n, p.value.(key := key), all[i], clock);
        n, out := n + 1, out + [all[i]];
      }
    }
    assert all[..|fields|] == all && pick[..|fields|] == pick;
    err := false;
  }

  method DiffNil(points: seq<Point>, tag: string, fields: seq<Inner>, clock: nat -> nat) returns (r: seq<Point>,
          err: bool)
    ensures err <==> |fields| > MAX_STRUCTURE_SIZE
    ensures !err ==> r == AddAll(points, ToPoints(tag, Tombstones(DiffKeys(fields))), clock)
  {
    hide PointFor, AddAll, DiffKey;
    r := points;
    if |fields| > MAX_STRUCTURE_SIZE {
      return r, true;
    }
    ghost var es := Tombstones(DiffKeys(fields));
    AddNothing(points, tag, clock);
    NilPoint();
    assert es[..0] == [];
    for i := 0 to |fields|
      invariant r == AddAll(points, ToPoints(tag, es[..i]), clock)
    {
      assert es[..i + 1] == es[..i] + [es[i]];
      r := AddEntry(r, points, es[..i], i, Points.Point(tag, DiffKey(fields[i]), 0, 0.0, "", 1, ""), es[i], clock);
    }
    assert es[..|fields|] == es;
    err := false;
  }

  // One field.  A struct whose pointer was nil is appended as a whole.
  lemma {:induction false} CannotDiffIff(b: Value, a: Value, ft: FieldType, moved: set<string>)
    requires Shaped(b, ft) && Shaped(a, ft)
    ensures CannotDiff(b, a, ft, moved) <==> DiffTooBig(b, a, ft) || DiffUnsafe(b, a, ft, moved)
  {
    hide Differs, Same, OutOfBounds, Safe;
    forall c
      ensures Safe(c) <==> !OutOfBounds(c)
    {
      SafeIff(c);
    }
    forall ct, key, x, y
      ensures Same(ct, key, x, y, moved) <==> !Differs(ct.pointer, x, y, key, moved)
    {
      SameIff(ct, key, x, y, moved);
    }
  }

  method DiffField(points: seq<Point>, b: Value, a: Value, f: Field, moved: set<string>, clock: nat -> nat)
    returns (r: seq<Point>, err: bool, ghost v: View)
    requires Shaped(b, f.ft) && Shaped(a, f.ft)
    ensures err <==> CannotDiff(b, a, f.ft, moved)
    ensures v.moved == moved
    ensures !err ==> ViewOf(b, a, v) && AllSafe(DiffEntries(b, a, f.ft, v))
    ensures !err ==>
      var ps := ToPoints(f.tag, DiffEntries(b, a, f.ft, v));
      r == if b.VNil? && !a.VNil? then points + ps else AddAll(points, ps, clock)
  {
    hide Safe, PointFor, AddAll, Same, IsOrder, Picked, CannotDiff;
    v := View(moved, [], []);
    CannotDiffIff(b, a, f.ft, moved);
    AddNothing(points, f.tag, clock);
    match f.ft
    case Prim(ct) => r, err := DiffPrim(points, f.tag, b.c, a.c, ct, moved, clock);
    case Slice(ct) => r, err := DiffList(points, f.tag, b.cs, a.cs, ct, moved, clock);
    case Dict(ct) => r, err, v := DiffDict(points, f.tag, b.m, a.m, ct, moved, clock);
    case Flat(fields) => r, err := DiffFlat(points, f.tag, b.cs, a.cs, fields, moved, clock);
    case FlatPtr(fields) =>
      if b.VNil? && a.VNil? {
        r, err := points, false;
      } else if a.VNil? {
        r, err := DiffNil(points, f.tag, fields, clock);
        NilSafe();
      } else if b.VNil? {
        r, err := AppendFlat(points, f.tag, a.cs, fields);
      } else {
        r, err := DiffFlat(points, f.tag, b.cs, a.cs, fields, moved, clock);
      }
  }

  method DiffPrim(points: seq<Point>, tag: string, b: Cell, a: Cell, ct: CellType, moved: set<string>,
          clock: nat -> nat)
    returns (r: seq<Point>, err: bool)
    ensures err <==> !Same(ct, "", b, a, moved) && !Safe(a)
    ensures
      var es := if Same(ct, "", b, a, moved) then [] else [Entry("0", a)];
      !err ==> AllSafe(es) && r == AddAll(points, ToPoints(tag, es), clock)
  {
    hide Safe, PointFor, Same;
    r, err := points, false;
    if !Same(ct, "", b, a, moved) {
      var p := FromPrimitive(tag, a);
      if p.None? {
        return r, true;
      }
      assert p.value.(key := "") == PointFor(tag, "", a, 0);
      assert p.value.(key := "0") == PointFor(tag, "0", a, 0);
      assert p.value == p.value.(key := "");
      r := Add(points, p.value, clock(1));
      ghost var more := ToPoints(tag, [Entry("0", a)]);
      assert more[..0] == [] && more[0] == p.value.(key := "0");
      assert AddPoint(points, p.value, clock(1)) == AddPoint(points, more[0], clock(1));
    }
  }

  lemma {:induction false} DiffedSame(bs: seq<Value>, as_: seq<Value>, st: seq<Field>, v1: seq<View>, v2: seq<View>,
                                      clock: nat -> nat, n: nat)
    requires AllShaped(bs, st) && AllShaped(as_, st) && ViewsOf(bs, as_, v1, n) && ViewsOf(bs, as_, v2, n)
    requires forall i :: 0 <= i < n ==> v1[i] == v2[i]
    ensures DiffedTo(bs, as_, st, v1, clock, n) == DiffedTo(bs, as_, st, v2, clock, n)
  {
    hide DiffEntries, DiffTooBig, AllSafe, ViewOf, AddAll;
    if n > 0 {
      DiffedSame(bs, as_, st, v1, v2, clock, n - 1);
    }
  }

  // DiffPoints fails exactly where a new value is too big or a changed integer cannot be held
  // by a float64.  moved says for each field which pointers are not the same ones as before.
  method DiffPoints(bs: seq<Value>, as_: seq<Value>, st: seq<Field>, moved: seq<set<string>>, clock: nat -> nat)
    returns (points: seq<Point>, err: bool, ghost views: seq<View>)
    requires AllShaped(bs, st) && AllShaped(as_, st) && |moved| == |st|
    ensures err <==> exists i :: 0 <= i < |st| && CannotDiff(bs[i], as_[i], st[i].ft, moved[i])
    ensures !err ==>
      (points == [] <==> forall i :: 0 <= i < |st| ==> Unchanged(bs[i], as_[i], st[i].ft, moved[i]))
    ensures !err ==> ViewsOf(bs, as_, views, |st|) && forall i :: 0 <= i < |st| ==> views[i].moved == moved[i]
    ensures !err ==> DiffedTo(bs, as_, st, views, clock, |st|) == Some(points)
  {
    hide DiffEntries, DiffTooBig, DiffUnsafe, AllSafe, ViewOf, AddAll, CannotDiff, Unchanged;
    points, err, views := [], false, [];
    for i := 0 to |st|
      invariant !err && |views| == i && ViewsOf(bs, as_, views, i)
      invariant forall j :: 0 <= j < i ==> views[j].moved == moved[j]
      invariant forall j :: 0 <= j < i ==> !CannotDiff(bs[j], as_[j], st[j].ft, moved[j])
      invariant DiffedTo(bs, as_, st, views, clock, i) == Some(points)
    {
      ghost var v;
      points, err, v := DiffField(points, bs[i], as_[i], st[i], moved[i], clock);
      if err {
        return;
      }
      CannotDiffIff(bs[i], as_[i], st[i].ft, moved[i]);
      DiffedSame(bs, as_, st, views, views + [v], clock, i);
      views := views + [v];
    }
    NothingSentIff(bs, as_, st, views, clock, |st|);
  }
}
