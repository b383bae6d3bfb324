// The points that Encode and DiffPoints make of values, told point by point: which integers and
// sizes are accepted, and the type, key, value, text and tombstone of every point.
module WireForm {
  import opened Decimal
  import opened Encoding
  import opened Fields
  import opened Wrappers

  // ----- one scalar -----

  // An integer beyond the 53 bits that a float64 holds.
  predicate OutOfBounds(c: Cell) {
    c.Some? && c.value.Int? && (c.value.i < -9007199254740991 || c.value.i > 9007199254740991)
  }

  predicate IsPoint(p: Point, typ: string, key: string, c: Cell) {
    && p.typ == typ && p.key == key && p.origin == "" && p.tombstone == (if c.None? then 1 else 0)
    && p.value == (
      if c.None? || c.value.Text? then 0.0
      else if c.value.Bool? then (if c.value.b then 1.0 else 0.0)
      else if c.value.Int? then c.value.i as real
      else c.value.r)
    && p.text == if c.Some? && c.value.Text? then c.value.s else ""
  }

  lemma {:induction false} SafeIff(c: Cell)
    ensures Safe(c) <==> !OutOfBounds(c)
  {
  }

  lemma {:induction false} PointForIs(typ: string, key: string, c: Cell, time: nat)
    ensures IsPoint(PointFor(typ, key, c, time), typ, key, c) && PointFor(typ, key, c, time).time == time
  {
  }

  // ----- names of inner fields -----

  // Encode and Decode look at the point tag, then the edgepoint tag, then the name.
  predicate NameOf(f: Inner, key: string) {
    key == if f.point != "" then f.point else if f.edgepoint != "" then f.edgepoint else f.camel
  }

  // DiffPoints does not look at the edgepoint tag.
  predicate DiffNameOf(f: Inner, key: string) {
    key == if f.point != "" then f.point else f.camel
  }

  lemma {:induction false} KeyIsName(f: Inner)
    ensures NameOf(f, Key(f)) && DiffNameOf(f, DiffKey(f))
  {
  }

  // ----- what Encode makes of a field -----

  ghost predicate CannotEncode(v: Value, ft: FieldType)
    requires Shaped(v, ft)
  {
    match v
    case VPrim(c) => OutOfBounds(c)
    case VSlice(cs) => |cs| > 1000 || exists i :: 0 <= i < |cs| && OutOfBounds(cs[i])
    case VDict(m) => |m| > 1000 || exists k :: k in m && OutOfBounds(m[k])
    case VFlat(cs) => |cs| > 1000 || exists i :: 0 <= i < |cs| && OutOfBounds(cs[i])
    case VNil => |ft.fields| > 1000
  }

  // One point for a scalar, without a key; one for each element of a list, under its index; one
  // for each entry of a map, in any order; one for each field of a struct.
  ghost predicate EncodedAs(v: Value, ft: FieldType, tag: string, ps: seq<Point>)
    requires Shaped(v, ft)
  {
    match v
    case VPrim(c) => |ps| == 1 && IsPoint(ps[0], tag, "", c)
    case VSlice(cs) => |ps| == |cs| && forall i :: 0 <= i < |cs| ==> IsPoint(ps[i], tag, Itoa(i), cs[i])
    case VDict(m) =>
      && |ps| == |m| && (forall i :: 0 <= i < |ps| ==> ps[i].key in m && IsPoint(ps[i], tag, ps[i].key, m[ps[i].key]))
      && forall i, j :: 0 <= i < j < |ps| ==> ps[i].key != ps[j].key
    case VFlat(cs) => |ps| == |cs| && forall i :: 0 <= i < |cs| ==> InnerPoint(ps[i], tag, ft.fields[i], cs[i])
    case VNil => |ps| == |ft.fields| && forall i :: 0 <= i < |ps| ==> InnerPoint(ps[i], tag, ft.fields[i], None)
  }

  predicate InnerPoint(p: Point, tag: string, f: Inner, c: Cell) { NameOf(f, p.key) && IsPoint(p, tag, p.key, c) }

  lemma {:induction false} EntriesAre(v: Value, ft: FieldType, ks: seq<string>, tag: string)
    requires Shaped(v, ft) && OrderFor(v, ks)
    ensures EncodedAs(v, ft, tag, ToPoints(tag, Entries(v, ft, ks)))
  {
    hide IsPoint, PointFor, NameOf, Key, ToPoints;
    var es := Entries(v, ft, ks);
    PointsAre(tag, es);
    match ft
    case Dict(_) => MapEntriesAre(v.m, ks, tag);
    case Flat(fields) => KeysAreNames(fields);
    case FlatPtr(fields) => KeysAreNames(fields);
    case _ =>
  }

  lemma {:induction false} PointsAre(tag: string, es: seq<Entry>)
    ensures |ToPoints(tag, es)| == |es|
    ensures forall i :: 0 <= i < |es| ==>
      ToPoints(tag, es)[i].key == es[i].key && IsPoint(ToPoints(tag, es)[i], tag, es[i].key, es[i].cell)
  {
    hide IsPoint, PointFor;
    forall i | 0 <= i < |es|
      ensures IsPoint(ToPoints(tag, es)[i], tag, es[i].key, es[i].cell)
    {
      PointForIs(tag, es[i].key, es[i].cell, 0);
    }
  }

  lemma {:induction false} MapEntriesAre(m: map<string, Cell>, ks: seq<string>, tag: string)
    requires IsOrder(ks, m.Keys)
    ensures |DictEntries(m, ks)| == |m|
    ensures forall i :: 0 <= i < |ks| ==> DictEntries(m, ks)[i].key in m
    ensures forall i, j :: 0 <= i < j < |ks| ==> DictEntries(m, ks)[i].key != DictEntries(m, ks)[j].key
  {
    OrderSize(ks, m.Keys);
  }

  lemma {:induction false} KeysAreNames(fields: seq<Inner>)
    ensures forall i :: 0 <= i < |fields| ==> NameOf(fields[i], Keys(fields)[i])
  {
    hide NameOf, Key;
    forall i | 0 <= i < |fields|
      ensures NameOf(fields[i], Keys(fields)[i])
    {
      KeyIsName(fields[i]);
    }
  }

  // The points of the first n fields, one field behind the other.
  ghost predicate FieldsEncoded(vs: seq<Value>, st: seq<Field>, n: nat, ps: seq<Point>)
    requires AllShaped(vs, st) && n <= |st|
  {
    if n == 0 then ps == []
    else exists c :: 0 <= c <= |ps| && FieldsEncoded(vs, st, n - 1, ps[..c]) && LastEncoded(vs[n - 1], st[n - 1], ps, c)
  }

  ghost predicate LastEncoded(v: Value, f: Field, ps: seq<Point>, c: nat)
    requires Shaped(v, f.ft) && c <= |ps|
  {
    EncodedAs(v, f.ft, f.tag, ps[c..])
  }

  lemma {:induction false} EncodedFields(vs: seq<Value>, st: seq<Field>, orders: seq<seq<string>>, n: nat)
    requires AllShaped(vs, st) && n <= |st| && OrdersFor(vs, orders, n) && EncodedTo(vs, st, orders, n).Some?
    ensures FieldsEncoded(vs, st, n, EncodedTo(vs, st, orders, n).value)
  {
    hide EncodedAs, ToPoints, Entries, TooBig, AllSafe, Shaped;
    if n > 0 {
      EncodedFields(vs, st, orders, n - 1);
      var before, all := EncodedTo(vs, st, orders, n - 1).value, EncodedTo(vs, st, orders, n).value;
      assert OrderFor(vs[n - 1], orders[n - 1]);
      EntriesAre(vs[n - 1], st[n - 1].ft, orders[n - 1], st[n - 1].tag);
      assert all[..|before|] == before;
      assert all[|before|..] == ToPoints(st[n - 1].tag, Entries(vs[n - 1], st[n - 1].ft, orders[n - 1]));
      assert LastEncoded(vs[n - 1], st[n - 1], all, |before|);
    }
  }

  // ----- what DiffPoints makes of a field -----

  // A cell is written if its value changed, or if it is a pointer that points elsewhere.
  predicate Differs(pointer: bool, b: Cell, a: Cell, key: string, moved: set<string>) {
    b != a || (pointer && b.Some? && key in moved)
  }

  predicate ItemDiffers(b: seq<Cell>, a: seq<Cell>, pointer: bool, moved: set<string>, i: nat)
    requires i < |a|
  {
    i >= |b| || Differs(pointer, b[i], a[i], Itoa(i), moved)
  }

  predicate EntryDiffers(b: map<string, Cell>, a: map<string, Cell>, pointer: bool, moved: set<string>, k: string)
    requires k in a
  {
    k !in b || Differs(pointer, b[k], a[k], k, moved)
  }

  predicate InnerDiffers(b: seq<Cell>, a: seq<Cell>, fields: seq<Inner>, moved: set<string>, i: nat)
    requires |b| == |a| == |fields| && i < |a|
  {
    Differs(fields[i].cell.pointer, b[i], a[i], DiffKey(fields[i]), moved)
  }

  ghost predicate CannotDiff(b: Value, a: Value, ft: FieldType, moved: set<string>)
    requires Shaped(b, ft) && Shaped(a, ft)
  {
    match ft
    case Prim(ct) => Differs(ct.pointer, b.c, a.c, "", moved) && OutOfBounds(a.c)
    case Slice(ct) => |a.cs| > 1000 ||
      exists i :: 0 <= i < |a.cs| && ItemDiffers(b.cs, a.cs, ct.pointer, moved, i) && OutOfBounds(a.cs[i])
    case Dict(ct) => |a.m| > 1000 || exists k :: k in a.m && EntryDiffers(b.m, a.m, ct.pointer, moved, k) && OutOfBounds(a.m[k])
    case Flat(fields) => CannotDiffInner(b.cs, a.cs, fields, moved)
    case FlatPtr(fields) =>
      if b.VNil? && a.VNil? then false
      else if a.VNil? then |fields| > 1000
      else if b.VNil? then CannotEncode(a, ft)
      else CannotDiffInner(b.cs, a.cs, fields, moved)
  }

  ghost predicate CannotDiffInner(b: seq<Cell>, a: seq<Cell>, fields: seq<Inner>, moved: set<string>)
    requires |b| == |a| == |fields|
  {
    |fields| > 1000 || exists i :: 0 <= i < |fields| && InnerDiffers(b, a, fields, moved, i) && OutOfBounds(a[i])
  }

  // The changes of a field: what is new or differs, with its new value, and what is gone.
  ghost predicate IsChange(b: Value, a: Value, ft: FieldType, moved: set<string>, e: Entry)
    requires Shaped(b, ft) && Shaped(a, ft)
  {
    match ft
    case Prim(ct) => Differs(ct.pointer, b.c, a.c, "", moved) && e == Entry("0", a.c)
    case Slice(ct) => ListChange(b.cs, a.cs, ct.pointer, moved, e)
    case Dict(ct) =>
      if e.key in a.m then EntryDiffers(b.m, a.m, ct.pointer, moved, e.key) && e.cell == a.m[e.key]
      else e.key in b.m && e.cell == None
    case Flat(fields) => InnerChange(b.cs, a.cs, fields, moved, e)
    case FlatPtr(fields) =>
      if b.VNil? && a.VNil? then false
      else if a.VNil? then exists i :: 0 <= i < |fields| && DiffNameOf(fields[i], e.key) && e.cell == None
      else if b.VNil? then exists i :: 0 <= i < |fields| && NameOf(fields[i], e.key) && e.cell == a.cs[i]
      else InnerChange(b.cs, a.cs, fields, moved, e)
  }

  ghost predicate ListChange(b: seq<Cell>, a: seq<Cell>, pointer: bool, moved: set<string>, e: Entry) {
    || (exists i :: 0 <= i < |a| && ItemDiffers(b, a, pointer, moved, i) && e == Entry(Itoa(i), a[i]))
    || IsRemoved(|b|, |a|, e)
  }

  ghost predicate Unchanged(b: Value, a: Value, ft: FieldType, moved: set<string>)
    requires Shaped(b, ft) && Shaped(a, ft)
  {
    forall e :: !IsChange(b, a, ft, moved, e)
  }

  ghost predicate InnerChange(b: seq<Cell>, a: seq<Cell>, fields: seq<Inner>, moved: set<string>, e: Entry)
    requires |b| == |a| == |fields|
  {
    exists i :: 0 <= i < |fields| && InnerDiffers(b, a, fields, moved, i) && DiffNameOf(fields[i], e.key) && e.cell == a[i]
  }

  lemma {:induction false} SameIff(ct: CellType, key: string, b: Cell, a: Cell, moved: set<string>)
    ensures Same(ct, key, b, a, moved) <==> !Differs(ct.pointer, b, a, key, moved)
  {
  }

  // The difference holds exactly the changes.
  lemma {:induction false} DiffEntriesAre(b: Value, a: Value, ft: FieldType, v: View, e: Entry)
    requires Shaped(b, ft) && Shaped(a, ft) && ViewOf(b, a, v)
    ensures e in DiffEntries(b, a, ft, v) <==> IsChange(b, a, ft, v.moved, e)
  {
    hide Picked, InnerChange, NameOf, DiffNameOf, Key, DiffKey, Same, Differs, IsOrder, ListChange, EntryDiffers;
    match ft
    case Prim(ct) => SameIff(ct, "", b.c, a.c, v.moved);
    case Slice(ct) => ListChangesAre(b.cs, a.cs, ct, v.moved, e);
    case Dict(ct) => MapChangesAre(b.m, a.m, ct, v, e);
    case Flat(fields) => InnerChangesAre(b.cs, a.cs, fields, v.moved, e);
    case FlatPtr(fields) =>
      if b.VNil? && a.VNil? {
      } else if a.VNil? {
        InNames(seq(|fields|, i => None), fields, e);
      } else if b.VNil? {
        InNames(a.cs, fields, e);
      } else {
        InnerChangesAre(b.cs, a.cs, fields, v.moved, e);
      }
  }

  lemma {:induction false} ListChangesAre(b: seq<Cell>, a: seq<Cell>, ct: CellType, moved: set<string>, e: Entry)
    ensures e in Picked(ListEntries(a), ListChanges(b, a, ct, moved)) + Removed(|b|, |a|) <==>
      ListChange(b, a, ct.pointer, moved, e)
  {
    hide Picked, Same, Differs;
    var es, pick := ListEntries(a), ListChanges(b, a, ct, moved);
    InPicked(es, pick, e);
    InRemoved(|b|, |a|, e);
    forall i | 0 <= i < |a|
      ensures pick[i] <==> ItemDiffers(b, a, ct.pointer, moved, i)
      ensures es[i] == e <==> e == Entry(Itoa(i), a[i])
    {
      if i < |b| {
        SameIff(ct, Itoa(i), b[i], a[i], moved);
      }
    }
    hide ItemDiffers;
    if i :| 0 <= i < |a| && ItemDiffers(b, a, ct.pointer, moved, i) && e == Entry(Itoa(i), a[i]) {
      assert pick[i] && es[i] == e;
    }
    if i :| 0 <= i < |es| && pick[i] && es[i] == e {
      assert ItemDiffers(b, a, ct.pointer, moved, i) && e == Entry(Itoa(i), a[i]);
    }
  }

  ghost predicate IsRemoved(b: nat, a: nat, e: Entry) {
    exists i :: a <= i < b && e == Entry(Itoa(i), None)
  }

  lemma {:induction false} InRemoved(b: nat, a: nat, e: Entry)
    ensures e in Removed(b, a) <==> IsRemoved(b, a, e)
  {
    if i :| a <= i < b && e == Entry(Itoa(i), None) {
      assert Removed(b, a)[b - 1 - i] == e;
    }
    if j :| 0 <= j < |Removed(b, a)| && Removed(b, a)[j] == e {
      var i := b - 1 - j;
      assert a <= i < b && e == Entry(Itoa(i), None);
    }
  }

  lemma {:induction false} MapChangesAre(b: map<string, Cell>, a: map<string, Cell>, ct: CellType, v: View, e: Entry)
    requires IsOrder(v.order, a.Keys) && IsOrder(v.removed, b.Keys - a.Keys)
    ensures e in Picked(DictEntries(a, v.order), DictChanges(b, a, ct, v)) + Tombstones(v.removed) <==>
      if e.key in a then EntryDiffers(b, a, ct.pointer, v.moved, e.key) && e.cell == a[e.key]
      else e.key in b && e.cell == None
  {
    hide Picked, Same, Differs;
    InPicked(DictEntries(a, v.order), DictChanges(b, a, ct, v), e);
    forall i | 0 <= i < |v.order|
      ensures v.order[i] in a && (DictChanges(b, a, ct, v)[i] <==> EntryDiffers(b, a, ct.pointer, v.moved, v.order[i]))
    {
      if v.order[i] in b {
        SameIff(ct, v.order[i], b[v.order[i]], a[v.order[i]], v.moved);
      }
    }
    if e.key in a {
      var i :| 0 <= i < |v.order| && v.order[i] == e.key;
      assert DictEntries(a, v.order)[i] == Entry(e.key, a[e.key]);
    } else if e.key in b {
      assert e.key in v.removed by { assert e.key in b.Keys - a.Keys; }
      var i :| 0 <= i < |v.removed| && v.removed[i] == e.key;
      assert Tombstones(v.removed)[i] == Entry(e.key, None);
    }
  }

  lemma {:induction false} InnerChangesAre(b: seq<Cell>, a: seq<Cell>, fields: seq<Inner>, moved: set<string>, e: Entry)
    requires |b| == |a| == |fields|
    ensures e in Picked(FlatEntries(a, DiffKeys(fields)), FlatChanges(b, a, fields, moved)) <==>
      InnerChange(b, a, fields, moved, e)
  {
    hide Picked, Same, Differs;
    InPicked(FlatEntries(a, DiffKeys(fields)), FlatChanges(b, a, fields, moved), e);
    forall i | 0 <= i < |fields|
      ensures FlatChanges(b, a, fields, moved)[i] <==> InnerDiffers(b, a, fields, moved, i)
      ensures DiffNameOf(fields[i], e.key) <==> DiffKeys(fields)[i] == e.key
    {
      SameIff(fields[i].cell, DiffKey(fields[i]), b[i], a[i], moved);
      KeyIsName(fields[i]);
    }
  }

  lemma {:induction false} InNames(cs: seq<Cell>, fields: seq<Inner>, e: Entry)
    requires |cs| == |fields|
    ensures e in FlatEntries(cs, Keys(fields)) <==>
      exists i :: 0 <= i < |fields| && NameOf(fields[i], e.key) && e.cell == cs[i]
    ensures e in Tombstones(DiffKeys(fields)) <==>
      exists i :: 0 <= i < |fields| && DiffNameOf(fields[i], e.key) && e.cell == None
  {
    forall i | 0 <= i < |fields|
      ensures NameOf(fields[i], e.key) <==> Keys(fields)[i] == e.key
      ensures DiffNameOf(fields[i], e.key) <==> DiffKeys(fields)[i] == e.key
    {
      KeyIsName(fields[i]);
    }
    hide NameOf, DiffNameOf, Key, DiffKey;
    if i :| 0 <= i < |fields| && NameOf(fields[i], e.key) && e.cell == cs[i] {
      assert FlatEntries(cs, Keys(fields))[i] == e;
    }
    if i :| 0 <= i < |fields| && DiffNameOf(fields[i], e.key) && e.cell == None {
      assert Tombstones(DiffKeys(fields))[i] == e;
    }
  }

  // DiffPoints sends nothing exactly if nothing has changed.
  lemma {:induction false} NothingSentIff(bs: seq<Value>, as_: seq<Value>, st: seq<Field>, views: seq<View>,
                                          clock: nat -> nat, n: nat)
    requires AllShaped(bs, st) && AllShaped(as_, st) && n <= |st| && ViewsOf(bs, as_, views, n)
    requires DiffedTo(bs, as_, st, views, clock, n).Some?
    ensures DiffedTo(bs, as_, st, views, clock, n) == Some([]) <==>
      forall i :: 0 <= i < n ==> Unchanged(bs[i], as_[i], st[i].ft, views[i].moved)
  {
    hide DiffEntries, IsChange, Unchanged, ViewOf, AllSafe, DiffTooBig, Shaped, AddAll;
    if n > 0 {
      NothingSentIff(bs, as_, st, views, clock, n - 1);
      var b, a, f, v := bs[n - 1], as_[n - 1], st[n - 1], views[n - 1];
      assert ViewOf(b, a, v);
      UnchangedIff(b, a, f.ft, v);
      var before, ps := DiffedTo(bs, as_, st, views, clock, n - 1).value, ToPoints(f.tag, DiffEntries(b, a, f.ft, v));
      AddedCount(before, ps, clock);
      assert DiffedTo(bs, as_, st, views, clock, n).value == [] <==> before == [] && ps == [];
    }
  }

  lemma {:induction false} UnchangedIff(b: Value, a: Value, ft: FieldType, v: View)
    requires Shaped(b, ft) && Shaped(a, ft) && ViewOf(b, a, v)
    ensures DiffEntries(b, a, ft, v) == [] <==> Unchanged(b, a, ft, v.moved)
  {
    hide DiffEntries, IsChange, ViewOf, Shaped;
    var es := DiffEntries(b, a, ft, v);
    forall e
      ensures e in es <==> IsChange(b, a, ft, v.moved, e)
    {
      DiffEntriesAre(b, a, ft, v, e);
    }
    assert es != [] ==> es[0] in es;
  }

  lemma {:induction false} AddedCount(ps: seq<Point>, more: seq<Point>, clock: nat -> nat)
    ensures |AddAll(ps, more, clock)| >= |ps| && (AddAll(ps, more, clock) == [] <==> ps == [] && more == [])
  {
    if more != [] {
      AddedCount(ps, more[..|more| - 1], clock);
    }
  }
}
