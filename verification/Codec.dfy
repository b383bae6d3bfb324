// A whole struct: what Encode writes, Decode reads back; and applying what DiffPoints found
// between two values to the first one gives the second.
module Codec {
  import opened Decoding
  import opened Encoding
  import opened FieldLaws
  import opened FieldPatches
  import opened Fields
  import opened MapChanges
  import opened Patches
  import opened Wrappers

  // Every field has a point type of its own.
  ghost predicate GoodStruct(st: seq<Field>) {
    && (forall i, j :: 0 <= i < j < |st| ==> st[i].tag != st[j].tag)
    && (forall i :: 0 <= i < |st| ==> GoodType(st[i].ft))
  }

  ghost predicate NoBlankKeys(vs: seq<Value>) {
    forall i :: 0 <= i < |vs| ==> NoBlankKey(vs[i])
  }

  function ZeroValues(st: seq<Field>): (vs: seq<Value>)
    ensures |vs| == |st| && forall i :: 0 <= i < |st| ==> vs[i] == ZeroValue(st[i].ft)
  {
    seq(|st|, i requires 0 <= i < |st| => ZeroValue(st[i].ft))
  }

  // ----- the points of one type -----

  lemma {:induction false} TypedJoin(a: seq<Point>, b: seq<Point>, tag: string)
    ensures Typed(a + b, tag) == Typed(a, tag) + Typed(b, tag)
  {
    if b == [] {
      assert a + b == a;
    } else {
      var n := |b| - 1;
      assert (a + b)[..|a + b| - 1] == a + b[..n];
      TypedJoin(a, b[..n], tag);
    }
  }

  lemma {:induction false} TypedAll(ps: seq<Point>, tag: string)
    requires forall i :: 0 <= i < |ps| ==> ps[i].typ == tag
    ensures Typed(ps, tag) == ps
  {
    if ps != [] {
      TypedAll(ps[..|ps| - 1], tag);
    }
  }

  lemma {:induction false} TypedNone(ps: seq<Point>, tag: string)
    requires forall i :: 0 <= i < |ps| ==> ps[i].typ != tag
    ensures Typed(ps, tag) == []
  {
    if ps != [] {
      TypedNone(ps[..|ps| - 1], tag);
    }
  }

  lemma {:induction false} NotTyped(ps: seq<Point>, tag: string)
    requires Typed(ps, tag) == []
    ensures forall i :: 0 <= i < |ps| ==> ps[i].typ != tag
  {
    if ps != [] {
      NotTyped(ps[..|ps| - 1], tag);
    }
  }

  // ----- field by field -----

  lemma {:induction false} FieldByField(vs: seq<Value>, as_: seq<Value>, st: seq<Field>, pts: seq<Point>)
    requires AllShaped(vs, st) && |as_| == |st|
    ensures FieldsAfter(vs, st, pts) == (as_, Done) <==>
      forall i :: 0 <= i < |st| ==> FieldAfter(vs[i], st[i], pts) == (as_[i], Done)
    ensures FieldsAfter(vs, st, pts).1 == Done <==>
      forall i :: 0 <= i < |st| ==> FieldAfter(vs[i], st[i], pts).1 == Done
    decreases |st|
  {
    hide FieldAfter;
    if st != [] {
      FieldByField(vs[1..], as_[1..], st[1..], pts);
      var (v, o) := FieldAfter(vs[0], st[0], pts);
      var (rest, ro) := FieldsAfter(vs[1..], st[1..], pts);
      assert as_ == [as_[0]] + as_[1..];
      assert !o.Panic? ==> FieldsAfter(vs, st, pts) == ([v] + rest, Worse(o, ro));
      assert [v] + rest == as_ <==> v == as_[0] && rest == as_[1..] by {
        assert ([v] + rest)[1..] == rest;
      }
      forall i | 1 <= i < |st|
        ensures FieldAfter(vs[i], st[i], pts) == FieldAfter(vs[1..][i - 1], st[1..][i - 1], pts)
      {
      }
      Shifted(vs, as_, st, pts);
    }
  }

  lemma {:induction false} Shifted(vs: seq<Value>, as_: seq<Value>, st: seq<Field>, pts: seq<Point>)
    requires AllShaped(vs, st) && |as_| == |st| && st != []
    ensures (forall i :: 0 <= i < |st| ==> FieldAfter(vs[i], st[i], pts) == (as_[i], Done)) <==>
      FieldAfter(vs[0], st[0], pts) == (as_[0], Done)
      && forall i :: 0 <= i < |st[1..]| ==> FieldAfter(vs[1..][i], st[1..][i], pts) == (as_[1..][i], Done)
    ensures (forall i :: 0 <= i < |st| ==> FieldAfter(vs[i], st[i], pts).1 == Done) <==>
      FieldAfter(vs[0], st[0], pts).1 == Done
      && forall i :: 0 <= i < |st[1..]| ==> FieldAfter(vs[1..][i], st[1..][i], pts).1 == Done
  {
    hide FieldAfter;
    if forall i :: 0 <= i < |st[1..]| ==> FieldAfter(vs[1..][i], st[1..][i], pts) == (as_[1..][i], Done) {
      forall i | 1 <= i < |st|
        ensures FieldAfter(vs[i], st[i], pts) == (as_[i], Done)
      {
        assert FieldAfter(vs[1..][i - 1], st[1..][i - 1], pts) == (as_[1..][i - 1], Done);
      }
    }
    if forall i :: 0 <= i < |st[1..]| ==> FieldAfter(vs[1..][i], st[1..][i], pts).1 == Done {
      forall i | 1 <= i < |st|
        ensures FieldAfter(vs[i], st[i], pts).1 == Done
      {
        assert FieldAfter(vs[1..][i - 1], st[1..][i - 1], pts).1 == Done;
      }
    }
  }

  // ----- Encode, then Decode -----

  // The points of a type among the first n fields are those of its field.
  lemma {:induction false} EncodedTyped(vs: seq<Value>, st: seq<Field>, orders: seq<seq<string>>, n: nat, tag: string)
    requires AllShaped(vs, st) && OrdersFor(vs, orders, n) && GoodStruct(st)
    requires EncodedTo(vs, st, orders, n).Some?
    ensures (forall i :: 0 <= i < n ==> st[i].tag != tag) ==> Typed(EncodedTo(vs, st, orders, n).value, tag) == []
    ensures forall i :: 0 <= i < n && st[i].tag == tag ==>
      && OrderFor(vs[i], orders[i]) && !TooBig(vs[i], st[i].ft) && AllSafe(Entries(vs[i], st[i].ft, orders[i]))
      && Typed(EncodedTo(vs, st, orders, n).value, tag) == ToPoints(tag, Entries(vs[i], st[i].ft, orders[i]))
  {
    hide Entries, TooBig, AllSafe, GoodType, Typed;
    if n == 0 {
      TypedNone([], tag);
    } else {
      EncodedTyped(vs, st, orders, n - 1, tag);
      var before := EncodedTo(vs, st, orders, n - 1).value;
      var es := Entries(vs[n - 1], st[n - 1].ft, orders[n - 1]);
      var ps := ToPoints(st[n - 1].tag, es);
      TypedJoin(before, ps, tag);
      if st[n - 1].tag == tag {
        TypedAll(ps, tag);
        assert Typed(before, tag) + ps == ps;
      } else {
        TypedNone(ps, tag);
        assert Typed(before, tag) + [] == Typed(before, tag);
      }
    }
  }

  lemma {:induction false} WrittenPoints(tag: string, es: seq<Entry>)
    ensures Written(ToPoints(tag, es), es)
  {
  }

  // Decoding the encoding of a struct into a zero struct succeeds, whatever the struct holds; it
  // gives the struct back exactly if no map has a blank key and no nil pointer stands where it
  // would be dropped.
  lemma {:induction false} DecodeOfEncode(vs: seq<Value>, st: seq<Field>, orders: seq<seq<string>>)
    requires GoodStruct(st) && AllHave(vs, st) && OrdersFor(vs, orders, |st|)
    requires EncodedTo(vs, st, orders, |st|).Some?
    ensures
      var pts := EncodedTo(vs, st, orders, |st|).value;
      && FieldsAfter(ZeroValues(st), st, pts).1 == Done
      && (FieldsAfter(ZeroValues(st), st, pts) == (vs, Done) <==>
            NoBlankKeys(vs) && forall i :: 0 <= i < |st| ==> RoundTrips(vs[i], st[i].ft))
  {
    hide EncodedTo, FieldsAfter, FieldAfter, RoundTrips, ZeroValue, NoBlankKey;
    var pts := EncodedTo(vs, st, orders, |st|).value;
    forall i | 0 <= i < |st|
      ensures FieldAfter(ZeroValue(st[i].ft), st[i], pts).1 == Done
      ensures FieldAfter(ZeroValue(st[i].ft), st[i], pts) == (vs[i], Done) <==> NoBlankKey(vs[i]) && RoundTrips(vs[i], st[i].ft)
    {
      EncodedTyped(vs, st, orders, |st|, st[i].tag);
      ZeroHasType(st[i].ft);
      DecodeOfEncodedField(vs[i], st[i], orders[i], pts);
    }
    FieldByField(ZeroValues(st), vs, st, pts);
  }

  lemma {:induction false} DecodeOfEncodedField(v: Value, f: Field, ks: seq<string>, pts: seq<Point>)
    requires HasType(v, f.ft) && HasType(ZeroValue(f.ft), f.ft) && GoodType(f.ft)
    requires OrderFor(v, ks) && !TooBig(v, f.ft) && AllSafe(Entries(v, f.ft, ks))
    requires Typed(pts, f.tag) == ToPoints(f.tag, Entries(v, f.ft, ks))
    ensures FieldAfter(ZeroValue(f.ft), f, pts).1 == Done
    ensures FieldAfter(ZeroValue(f.ft), f, pts) == (v, Done) <==> NoBlankKey(v) && RoundTrips(v, f.ft)
  {
    hide Entries, PatchOf, Kept, ValueAfter, RoundTrips, Written, DistinctKeys, ZeroValue;
    var es := Entries(v, f.ft, ks);
    WrittenPoints(f.tag, es);
    if NoBlankKey(v) {
      EncodesPatch(v, f.ft, ks);
      FieldMerges(ZeroValue(f.ft), v, f.ft, ToPoints(f.tag, es), es);
    } else {
      BlankKeyLost(v, f, ks, pts);
    }
  }

  // A map with a blank key decodes, but to another map.
  lemma {:induction false} BlankKeyLost(v: Value, f: Field, ks: seq<string>, pts: seq<Point>)
    requires HasType(v, f.ft) && OrderFor(v, ks) && !NoBlankKey(v) && !TooBig(v, f.ft) && AllSafe(Entries(v, f.ft, ks))
    requires Typed(pts, f.tag) == ToPoints(f.tag, Entries(v, f.ft, ks))
    ensures FieldAfter(ZeroValue(f.ft), f, pts).1 == Done
    ensures FieldAfter(ZeroValue(f.ft), f, pts).0 != v
  {
    hide GroupOf, DictAfter, ToPoints, Typed;
    var ps := ToPoints(f.tag, Entries(v, f.ft, ks));
    WrittenPoints(f.tag, Entries(v, f.ft, ks));
    MapFits(v.m, ks, f.ft.cell);
    EncodedMapArrives(v.m, ks, f.ft.cell, ps);
    GroupMeans(ps);
    assert Lookup(DictAfter(map[], f.ft.cell, ps).0, "") == None;
    NoPoints(f.ft.cell);
  }

  lemma {:induction false} NoPoints(ct: CellType)
    ensures forall m :: DictAfter(m, ct, []) == (m, Done)
  {
  }

  lemma {:induction false} MapFits(m: map<string, Cell>, ks: seq<string>, ct: CellType)
    requires HasType(VDict(m), Dict(ct)) && IsOrder(ks, m.Keys) && AllSafe(DictEntries(m, ks))
    ensures Fits(DictEntries(m, ks), ct)
  {
    hide ScalarHas, Safe;
    forall i | 0 <= i < |ks|
      ensures CellHas(m[ks[i]], ct)
    {
    }
  }

  // ----- DiffPoints, then MergePoints -----

  // more follows ps and carries the entries es.
  ghost predicate Appended(ps: seq<Point>, tag: string, es: seq<Entry>, all: seq<Point>) {
    && |all| == |ps| + |es| && all[..|ps|] == ps
    && forall i :: 0 <= i < |es| ==> all[|ps| + i] == PointFor(tag, es[i].key, es[i].cell, all[|ps| + i].time)
  }

  lemma {:induction false} AddAppends(ps: seq<Point>, tag: string, es: seq<Entry>, clock: nat -> nat)
    requires DistinctKeys(es) && forall i :: 0 <= i < |es| ==> es[i].key != ""
    requires forall i :: 0 <= i < |ps| ==> ps[i].typ != tag
    ensures Appended(ps, tag, es, AddAll(ps, ToPoints(tag, es), clock))
  {
    hide AddPoint, FindPoint, Appended, PointFor;
    if es == [] {
      assert Appended(ps, tag, es, ps) by {
        NothingAppended(ps, tag, es);
      }
    } else {
      var n := |es| - 1;
      var more := ToPoints(tag, es);
      assert more[..n] == ToPoints(tag, es[..n]);
      AddAppends(ps, tag, es[..n], clock);
      var before := AddAll(ps, more[..n], clock);
      KeyIsNew(ps, tag, es, before);
      OnePoint(before, tag, es[n], clock(n + 1));
      OneMore(ps, tag, es, before, clock(n + 1));
    }
  }

  lemma {:induction false} NothingAppended(ps: seq<Point>, tag: string, es: seq<Entry>)
    requires es == []
    ensures Appended(ps, tag, es, ps)
  {
  }

  lemma {:induction false} KeyIsNew(ps: seq<Point>, tag: string, es: seq<Entry>, before: seq<Point>)
    requires es != [] && DistinctKeys(es) && Appended(ps, tag, es[..|es| - 1], before)
    requires forall i :: 0 <= i < |ps| ==> ps[i].typ != tag
    ensures FindPoint(before, tag, es[|es| - 1].key) == |before|
  {
    var n := |es| - 1;
    forall i | 0 <= i < |before|
      ensures !(before[i].key == es[n].key && before[i].typ == tag)
    {
      if i < |ps| {
        assert before[i] == before[..|ps|][i];
      } else {
        assert before[|ps| + (i - |ps|)].key == es[..n][i - |ps|].key == es[i - |ps|].key;
      }
    }
  }

  lemma {:induction false} OneMore(ps: seq<Point>, tag: string, es: seq<Entry>, before: seq<Point>, now: nat)
    requires es != [] && Appended(ps, tag, es[..|es| - 1], before)
    ensures Appended(ps, tag, es, before + [PointFor(tag, es[|es| - 1].key, es[|es| - 1].cell, now)])
  {
    var n := |es| - 1;
    var all := before + [PointFor(tag, es[n].key, es[n].cell, now)];
    assert all[..|ps|] == before[..|ps|];
    forall i | 0 <= i < |es|
      ensures all[|ps| + i] == PointFor(tag, es[i].key, es[i].cell, all[|ps| + i].time)
    {
      if i < n {
        assert all[|ps| + i] == before[|ps| + i] && es[..n][i] == es[i];
      }
    }
  }

  lemma {:induction false} OnePoint(before: seq<Point>, tag: string, e: Entry, now: nat)
    requires e.key != "" && FindPoint(before, tag, e.key) == |before|
    ensures AddPoint(before, PointFor(tag, e.key, e.cell, 0), now) == before + [PointFor(tag, e.key, e.cell, now)]
  {
  }

  lemma {:induction false} AppendedWritten(ps: seq<Point>, tag: string, es: seq<Entry>, all: seq<Point>)
    requires Appended(ps, tag, es, all)
    ensures Written(all[|ps|..], es) && forall i :: 0 <= i < |all[|ps|..]| ==> all[|ps|..][i].typ == tag
  {
    var more := all[|ps|..];
    forall i | 0 <= i < |es|
      ensures more[i].typ == tag && more[i].key == es[i].key && Carries(more[i], es[i].cell)
    {
      assert more[i] == all[|ps| + i] == PointFor(tag, es[i].key, es[i].cell, all[|ps| + i].time);
    }
  }

  // No point of before has the type of those added: they form a list of their own.
  lemma {:induction false} AddsApart(before: seq<Point>, more: seq<Point>, clock: nat -> nat, tag: string)
    requires forall i :: 0 <= i < |more| ==> more[i].typ == tag
    requires forall i :: 0 <= i < |before| ==> before[i].typ != tag
    ensures AddAll(before, more, clock) == before + AddAll([], more, clock)
    ensures forall i :: 0 <= i < |AddAll([], more, clock)| ==> AddAll([], more, clock)[i].typ == tag
  {
    hide AddPoint;
    if more == [] {
      assert before + [] == before;
    } else {
      var n := |more| - 1;
      AddsApart(before, more[..n], clock, tag);
      AddedBehind(before, AddAll([], more[..n], clock), more[n], clock(|more|));
    }
  }

  lemma {:induction false} AddedBehind(before: seq<Point>, ps: seq<Point>, p: Point, now: nat)
    requires forall i :: 0 <= i < |before| ==> before[i].typ != p.typ
    requires forall i :: 0 <= i < |ps| ==> ps[i].typ == p.typ
    ensures AddPoint(before + ps, p, now) == before + AddPoint(ps, p, now)
    ensures forall i :: 0 <= i < |AddPoint(ps, p, now)| ==> AddPoint(ps, p, now)[i].typ == p.typ
  {
    hide FindPoint;
    var key := if p.key == "" then "0" else p.key;
    FindBehind(before, ps, p.typ, key);
    var i := FindPoint(ps, p.typ, key);
    if i < |ps| {
      assert (before + ps)[|before| + i] == ps[i];
      ReplacedBehind(before, ps, i, AddPoint(ps, p, now)[i]);
    } else {
      assert forall q :: before + ps + [q] == before + (ps + [q]);
    }
  }

  lemma {:induction false} ReplacedBehind(before: seq<Point>, ps: seq<Point>, i: nat, q: Point)
    requires i < |ps|
    ensures (before + ps)[|before| + i := q] == before + ps[i := q]
  {
  }

  lemma {:induction false} FindBehind(before: seq<Point>, ps: seq<Point>, typ: string, key: string)
    requires forall i :: 0 <= i < |before| ==> before[i].typ != typ
    ensures FindPoint(before + ps, typ, key) == |before| + FindPoint(ps, typ, key)
  {
    if before == [] {
      assert before + ps == ps;
    } else {
      assert (before + ps)[1..] == before[1..] + ps;
      FindBehind(before[1..], ps, typ, key);
    }
  }

  // Inner fields have names that DiffPoints does not confuse.
  ghost predicate GoodDiff(bs: seq<Value>, as_: seq<Value>, st: seq<Field>) {
    && GoodStruct(st) && AllHave(bs, st) && AllHave(as_, st)
    && forall i :: 0 <= i < |st| ==> NamesApart(st[i].ft)
  }

  // The points that DiffPoints writes for one field.
  ghost function SentFor(b: Value, a: Value, f: Field, v: View, clock: nat -> nat): seq<Point>
    requires Shaped(b, f.ft) && Shaped(a, f.ft) && ViewOf(b, a, v)
  {
    var es := DiffEntries(b, a, f.ft, v);
    if b.VNil? && !a.VNil? then ToPoints(f.tag, es) else Sent(f.tag, es, clock)
  }

  lemma {:induction false} DiffedTyped(bs: seq<Value>, as_: seq<Value>, st: seq<Field>, views: seq<View>,
                                       clock: nat -> nat, n: nat, i: nat)
    requires AllShaped(bs, st) && AllShaped(as_, st) && ViewsOf(bs, as_, views, n)
    requires DiffedTo(bs, as_, st, views, clock, n).Some? && i < n
    requires forall j, k :: 0 <= j < k < n ==> st[j].tag != st[k].tag
    ensures ViewOf(bs[i], as_[i], views[i]) && !DiffTooBig(bs[i], as_[i], st[i].ft)
    ensures AllSafe(DiffEntries(bs[i], as_[i], st[i].ft, views[i]))
    ensures Typed(DiffedTo(bs, as_, st, views, clock, n).value, st[i].tag) == SentFor(bs[i], as_[i], st[i], views[i], clock)
  {
    hide DiffEntries, DiffTooBig, AllSafe, GoodType, Typed, AddAll, SentFor, HasType, ViewOf, DiffedTo, Shaped;
    DiffedNext(bs, as_, st, views, clock, n);
    NotDiffed(bs, as_, st, views, clock, n - 1, st[n - 1].tag);
    var before := DiffedTo(bs, as_, st, views, clock, n - 1).value;
    DiffAppends(bs[n - 1], as_[n - 1], st[n - 1], views[n - 1], before, clock, st[i].tag);
    if i < n - 1 {
      DiffedTyped(bs, as_, st, views, clock, n - 1, i);
    }
  }

  lemma {:induction false} NotDiffed(bs: seq<Value>, as_: seq<Value>, st: seq<Field>, views: seq<View>,
                                     clock: nat -> nat, n: nat, tag: string)
    requires AllShaped(bs, st) && AllShaped(as_, st) && ViewsOf(bs, as_, views, n)
    requires DiffedTo(bs, as_, st, views, clock, n).Some?
    requires forall i :: 0 <= i < n ==> st[i].tag != tag
    requires forall i, j :: 0 <= i < j < n ==> st[i].tag != st[j].tag
    ensures Typed(DiffedTo(bs, as_, st, views, clock, n).value, tag) == []
  {
    hide DiffEntries, DiffTooBig, AllSafe, GoodType, Typed, AddAll, SentFor, HasType, ViewOf, DiffedTo, Shaped;
    if n == 0 {
      NoneDiffed(bs, as_, st, views, clock);
      TypedNone([], tag);
    } else {
      DiffedNext(bs, as_, st, views, clock, n);
      NotDiffed(bs, as_, st, views, clock, n - 1, tag);
      NotDiffed(bs, as_, st, views, clock, n - 1, st[n - 1].tag);
      var before := DiffedTo(bs, as_, st, views, clock, n - 1).value;
      DiffAppends(bs[n - 1], as_[n - 1], st[n - 1], views[n - 1], before, clock, tag);
    }
  }

  lemma {:induction false} NoneDiffed(bs: seq<Value>, as_: seq<Value>, st: seq<Field>, views: seq<View>,
                                      clock: nat -> nat)
    requires AllShaped(bs, st) && AllShaped(as_, st) && ViewsOf(bs, as_, views, 0)
    ensures DiffedTo(bs, as_, st, views, clock, 0) == Some([])
  {
  }

  lemma {:induction false} DiffedNext(bs: seq<Value>, as_: seq<Value>, st: seq<Field>, views: seq<View>,
                                      clock: nat -> nat, n: nat)
    requires AllShaped(bs, st) && AllShaped(as_, st) && ViewsOf(bs, as_, views, n) && n > 0
    requires DiffedTo(bs, as_, st, views, clock, n).Some?
    ensures
      var before := DiffedTo(bs, as_, st, views, clock, n - 1);
      var b, a, f := bs[n - 1], as_[n - 1], st[n - 1];
      && ViewOf(b, a, views[n - 1]) && !DiffTooBig(b, a, f.ft) && before.Some?
      && var es := DiffEntries(b, a, f.ft, views[n - 1]);
         && AllSafe(es)
         && DiffedTo(bs, as_, st, views, clock, n).value ==
              if b.VNil? && !a.VNil? then before.value + ToPoints(f.tag, es) else AddAll(before.value, ToPoints(f.tag, es), clock)
  {
    hide DiffEntries, DiffTooBig, AllSafe, AddAll, ViewOf;
  }

  lemma {:induction false} HaveShaped(vs: seq<Value>, st: seq<Field>)
    requires AllHave(vs, st)
    ensures AllShaped(vs, st)
  {
  }

  lemma {:induction false} DiffAppends(b: Value, a: Value, f: Field, v: View, before: seq<Point>, clock: nat -> nat,
                                       tag: string)
    requires Shaped(b, f.ft) && Shaped(a, f.ft) && ViewOf(b, a, v) && Typed(before, f.tag) == []
    ensures
      var es := DiffEntries(b, a, f.ft, v);
      var all := if b.VNil? && !a.VNil? then before + ToPoints(f.tag, es) else AddAll(before, ToPoints(f.tag, es), clock);
      Typed(all, tag) == if tag == f.tag then SentFor(b, a, f, v, clock) else Typed(before, tag)
  {
    hide DiffEntries, Typed, AddAll;
    var more := ToPoints(f.tag, DiffEntries(b, a, f.ft, v));
    NotTyped(before, f.tag);
    AddsApart(before, more, clock, f.tag);
    var own := SentFor(b, a, f, v, clock);
    TypedJoin(before, own, tag);
    if tag == f.tag {
      TypedAll(own, tag);
      assert [] + own == own;
    } else {
      TypedNone(own, tag);
      assert Typed(before, tag) + [] == Typed(before, tag);
    }
  }

  lemma {:induction false} KeysNotBlank(b: Value, a: Value, ft: FieldType, v: View)
    requires HasType(b, ft) && HasType(a, ft) && GoodType(ft) && ViewOf(b, a, v) && !ft.Dict? && !DiffTooBig(b, a, ft)
    ensures NoneBlank(DiffEntries(b, a, ft, v))
  {
    hide Picked, AsMap;
    var es := DiffEntries(b, a, ft, v);
    match ft
    case Prim(_) =>
    case Slice(ct) =>
      forall i | 0 <= i < |es|
        ensures es[i].key != ""
      {
        DiffsList(b.cs, a.cs, ct, v.moved);
        IndexOfItoa(IndexOf(es[i].key));
      }
    case Flat(fields) =>
      FlatNotBlank(a.cs, fields, FlatChanges(b.cs, a.cs, fields, v.moved));
    case FlatPtr(fields) =>
      if a.VFlat? && b.VFlat? {
        FlatNotBlank(a.cs, fields, FlatChanges(b.cs, a.cs, fields, v.moved));
      }
  }

  lemma {:induction false} FlatNotBlank(cs: seq<Cell>, fields: seq<Inner>, pick: seq<bool>)
    requires |cs| == |fields| == |pick| && Keyed(fields)
    ensures
      NoneBlank(Picked(FlatEntries(cs, DiffKeys(fields)), pick))
  {
    hide Picked;
    var es := Picked(FlatEntries(cs, DiffKeys(fields)), pick);
    forall i | 0 <= i < |es|
      ensures es[i].key != ""
    {
      InPicked(FlatEntries(cs, DiffKeys(fields)), pick, es[i]);
    }
  }

  predicate NoneBlank(es: seq<Entry>) { forall i :: 0 <= i < |es| ==> es[i].key != "" }

  // One field, whatever its type.
  lemma {:induction false} MergeOfField(b: Value, a: Value, f: Field, v: View, clock: nat -> nat)
    requires HasType(b, f.ft) && HasType(a, f.ft) && GoodType(f.ft) && NamesApart(f.ft) && ViewOf(b, a, v)
    requires !DiffTooBig(b, a, f.ft) && AllSafe(DiffEntries(b, a, f.ft, v))
    ensures AfterPoints(b, f.ft, SentFor(b, a, f, v, clock)) == (a, Done) <==>
      MergesBack(b, a, f.ft, v, clock) && NamesKept(b, a, f.ft)
  {
    if f.ft.Dict? {
      MergeOfMap(b, a, f, v, clock);
    } else {
      hide DiffEntries, PatchOf, Kept, AfterPoints, MergesBack, NamesKept, Written, DistinctKeys, AddAll, NamesApart;
      var es, ps := DiffEntries(b, a, f.ft, v), SentFor(b, a, f, v, clock);
      DiffsPatch(b, a, f.ft, v, clock);
      KeysNotBlank(b, a, f.ft, v);
      SentWritten(f.tag, es, clock);
      WrittenPoints(f.tag, es);
      if NamesKept(b, a, f.ft) {
        FieldMerges(b, a, f.ft, ps, es);
      } else {
        LostNames(b, a, f.ft, v, ps);
      }
    }
  }

  lemma {:induction false} SentWritten(tag: string, es: seq<Entry>, clock: nat -> nat)
    requires DistinctKeys(es) && forall i :: 0 <= i < |es| ==> es[i].key != ""
    ensures Written(Sent(tag, es, clock), es)
  {
    hide AddAll, ToPoints, Written, Appended, DistinctKeys;
    AddAppends([], tag, es, clock);
    var ps := AddAll([], ToPoints(tag, es), clock);
    AppendedWritten([], tag, es, ps);
    assert ps[0..] == ps;
  }

  lemma {:induction false} MergeOfMap(b: Value, a: Value, f: Field, v: View, clock: nat -> nat)
    requires HasType(b, f.ft) && HasType(a, f.ft) && f.ft.Dict? && ViewOf(b, a, v)
    requires AllSafe(DiffEntries(b, a, f.ft, v))
    ensures AfterPoints(b, f.ft, SentFor(b, a, f, v, clock)) == (a, Done) <==> MergesBack(b, a, f.ft, v, clock)
  {
    hide GroupOf, DictAfter, Sent, MergesBack, Fits;
    var ps := SentFor(b, a, f, v, clock);
    GroupMeans(ps);
    NoPoints(f.ft.cell);
    DiffFits(b.m, a.m, f.ft.cell, v);
    MapMergesIff(b.m, a.m, f.ft.cell, v, f.tag, clock);
  }

  lemma {:induction false} DiffFits(b: map<string, Cell>, a: map<string, Cell>, ct: CellType, v: View)
    requires HasType(VDict(a), Dict(ct)) && Viewed(b, a, v) && AllSafe(DictDiff(b, a, ct, v))
    ensures Fits(DictDiff(b, a, ct, v), ct)
  {
    hide DictDiff, ScalarHas, Safe, DictWrites;
    var es := DictDiff(b, a, ct, v);
    forall i | 0 <= i < |es|
      ensures es[i].cell.Some? ==> ScalarHas(es[i].cell.value, ct.kind)
    {
      InDictDiff(b, a, ct, v, es[i]);
    }
  }

  // Applying the difference between two values to the first gives the second, without an error,
  // exactly if every field merges back and no change was made under a name that is overlooked.
  lemma {:induction false} MergeOfDiff(bs: seq<Value>, as_: seq<Value>, st: seq<Field>, views: seq<View>,
          clock: nat -> nat)
    requires GoodDiff(bs, as_, st) && ViewsOf(bs, as_, views, |st|)
    requires DiffedTo(bs, as_, st, views, clock, |st|).Some?
    ensures
      var pts := DiffedTo(bs, as_, st, views, clock, |st|).value;
      FieldsAfter(bs, st, pts) == (as_, Done) <==>
        forall i :: 0 <= i < |st| ==>
          && ViewOf(bs[i], as_[i], views[i]) && MergesBack(bs[i], as_[i], st[i].ft, views[i], clock)
          && NamesKept(bs[i], as_[i], st[i].ft)
  {
    hide DiffedTo, FieldsAfter, MergesBack, NamesKept, SentFor, AfterPoints, DiffEntries;
    var pts := DiffedTo(bs, as_, st, views, clock, |st|).value;
    HaveShaped(bs, st);
    HaveShaped(as_, st);
    forall i | 0 <= i < |st|
      ensures ViewOf(bs[i], as_[i], views[i])
      ensures FieldAfter(bs[i], st[i], pts) == (as_[i], Done) <==>
        MergesBack(bs[i], as_[i], st[i].ft, views[i], clock) && NamesKept(bs[i], as_[i], st[i].ft)
    {
      DiffedTyped(bs, as_, st, views, clock, |st|, i);
      MergeOfField(bs[i], as_[i], st[i], views[i], clock);
      AfterTyped(bs[i], st[i], pts);
    }
    FieldByField(bs, as_, st, pts);
  }

  lemma {:induction false} AfterTyped(v: Value, f: Field, pts: seq<Point>)
    requires Shaped(v, f.ft)
    ensures FieldAfter(v, f, pts) == AfterPoints(v, f.ft, Typed(pts, f.tag))
  {
  }

  // ----- without pointers that can be nil where it hurts -----

  // Lists and maps of values, and structs behind a pointer with a field that is a value.
  ghost predicate Plain(ft: FieldType) {
    match ft
    case Slice(ct) => !ct.pointer
    case Dict(ct) => !ct.pointer
    case FlatPtr(fields) => exists i :: 0 <= i < |fields| && !fields[i].cell.pointer
    case _ => true
  }

  // Then nothing but a blank key is lost.
  lemma {:induction false} PlainDecodeOfEncode(vs: seq<Value>, st: seq<Field>, orders: seq<seq<string>>)
    requires GoodStruct(st) && AllHave(vs, st) && OrdersFor(vs, orders, |st|)
    requires EncodedTo(vs, st, orders, |st|).Some?
    requires forall i :: 0 <= i < |st| ==> Plain(st[i].ft)
    ensures FieldsAfter(ZeroValues(st), st, EncodedTo(vs, st, orders, |st|).value) == (vs, Done) <==> NoBlankKeys(vs)
  {
    hide EncodedTo, FieldsAfter;
    DecodeOfEncode(vs, st, orders);
    forall i | 0 <= i < |st|
      ensures RoundTrips(vs[i], st[i].ft)
    {
      PlainRoundTrips(vs[i], st[i].ft);
    }
  }

  lemma {:induction false} PlainRoundTrips(v: Value, ft: FieldType)
    requires HasType(v, ft) && Plain(ft)
    ensures RoundTrips(v, ft)
  {
    if ft.FlatPtr? && v.VFlat? {
      var i :| 0 <= i < |ft.fields| && !ft.fields[i].cell.pointer;
      assert v.cs[i].Some?;
    }
  }

  // The keys that are changed, added or removed.
  function ChangedKeys(b: map<string, Cell>, a: map<string, Cell>): set<string> {
    set k | k in b.Keys + a.Keys && Lookup(b, k) != Lookup(a, k)
  }

  // A map changes at most 1000 keys, and the entry with a blank key stays.
  predicate MapKept(b: Value, a: Value) {
    b.VDict? && a.VDict? ==> |ChangedKeys(b.m, a.m)| <= MAX_STRUCTURE_SIZE && Lookup(b.m, "") == Lookup(a.m, "")
  }

  // What is left that can go wrong: a map with more than 1000 keys changed or removed, or one
  // whose entry with the blank key changes, and a change of a field that is overlooked.
  lemma {:induction false} PlainMergeOfDiff(bs: seq<Value>, as_: seq<Value>, st: seq<Field>, views: seq<View>,
          clock: nat -> nat)
    requires GoodDiff(bs, as_, st) && ViewsOf(bs, as_, views, |st|)
    requires DiffedTo(bs, as_, st, views, clock, |st|).Some?
    requires forall i :: 0 <= i < |st| ==> Plain(st[i].ft)
    ensures FieldsAfter(bs, st, DiffedTo(bs, as_, st, views, clock, |st|).value) == (as_, Done) <==>
      forall i :: 0 <= i < |st| ==> MapKept(bs[i], as_[i]) && NamesKept(bs[i], as_[i], st[i].ft)
  {
    hide DiffedTo, FieldsAfter, DiffEntries, MergesBack, MapKept, NamesKept;
    MergeOfDiff(bs, as_, st, views, clock);
    forall i | 0 <= i < |st|
      ensures ViewOf(bs[i], as_[i], views[i])
      ensures MergesBack(bs[i], as_[i], st[i].ft, views[i], clock) <==> MapKept(bs[i], as_[i])
    {
      PlainMergesBack(bs[i], as_[i], st[i].ft, views[i], clock);
    }
  }

  lemma {:induction false} PlainMergesBack(b: Value, a: Value, ft: FieldType, v: View, clock: nat -> nat)
    requires HasType(b, ft) && HasType(a, ft) && Plain(ft) && ViewOf(b, a, v)
    ensures MergesBack(b, a, ft, v, clock) <==> MapKept(b, a)
  {
    match ft
    case Dict(ct) => PlainMap(b.m, a.m, ct, v, clock);
    case FlatPtr(fields) =>
      var i :| 0 <= i < |fields| && !fields[i].cell.pointer;
      assert a.VFlat? ==> a.cs[i].Some?;
    case _ =>
  }

  lemma {:induction false} PlainMap(b: map<string, Cell>, a: map<string, Cell>, ct: CellType, v: View, clock: nat -> nat)
    requires HasType(VDict(b), Dict(ct)) && HasType(VDict(a), Dict(ct)) && !ct.pointer && Viewed(b, a, v)
    ensures MergesBack(VDict(b), VDict(a), Dict(ct), v, clock) <==> MapKept(VDict(b), VDict(a))
  {
    hide ScalarHas;
    forall k | k in b.Keys + a.Keys
      ensures DictWrites(b, a, ct, v.moved, k) <==> Lookup(b, k) != Lookup(a, k)
    {
    }
    if Lookup(b, "") == Lookup(a, "") {
      assert !DictWrites(b, a, ct, v.moved, "");
      assert NamesWritten(b, a, ct, v.moved) == ChangedKeys(b, a) by {
        NamesAreKeys(b, a, ct, v.moved);
      }
    }
  }

  lemma {:induction false} NamesAreKeys(b: map<string, Cell>, a: map<string, Cell>, ct: CellType, moved: set<string>)
    requires !DictWrites(b, a, ct, moved, "")
    requires forall k :: k in b.Keys + a.Keys ==> (DictWrites(b, a, ct, moved, k) <==> Lookup(b, k) != Lookup(a, k))
    ensures NamesWritten(b, a, ct, moved) == ChangedKeys(b, a)
  {
    hide DictWrites, Lookup;
    forall k | k in b.Keys + a.Keys && DictWrites(b, a, ct, moved, k)
      ensures Named(k) == k
    {
    }
    forall k | k in ChangedKeys(b, a)
      ensures k in NamesWritten(b, a, ct, moved)
    {
      assert Named(k) == k;
    }
  }
}
