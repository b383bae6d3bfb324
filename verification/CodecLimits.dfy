// Where the coding of structs as points goes wrong.
module CodecLimits {
  import opened Codec
  import opened Decoding
  import opened Encoding
  import opened FieldLaws
  import opened FieldPatches
  import opened Fields
  import opened MapChanges
  import opened Patches
  import opened Words
  import opened Wrappers

  // ----- a map that is replaced -----

  // Replacing all the keys of a map: with more than 1000 points for the map the difference is
  // found, but it is refused when it is applied, and the map stays as it was.
  lemma {:induction false} ReplacedMapIsRefused(b: map<string, Cell>, a: map<string, Cell>, ct: CellType, v: View,
                                                tag: string, clock: nat -> nat)
    requires HasType(VDict(b), Dict(ct)) && HasType(VDict(a), Dict(ct)) && ViewOf(VDict(b), VDict(a), v)
    requires "" !in b && "" !in a && b.Keys !! a.Keys
    requires |a| <= 1000 < |a| + |b| && forall k :: k in a ==> Safe(a[k])
    ensures
      var st := [Field(tag, Dict(ct))];
      var pts := DiffedTo([VDict(b)], [VDict(a)], st, [v], clock, 1);
      pts.Some? && FieldsAfter([VDict(b)], st, pts.value) == ([VDict(b)], Failed)
  {
    hide DiffedTo, FieldsAfter, DictDiff, FieldAfter, Picked, Typed, Sent, DictAfter, AllSafe, NamesWritten;
    var f := Field(tag, Dict(ct));
    ReplacedMapEntries(b, a, ct, v);
    AllNamesWritten(b, a, ct, v.moved);
    DictDiffIs(b, a, ct, v);
    OneFieldDiff(VDict(b), VDict(a), f, v, clock);
    var pts := DiffedTo([VDict(b)], [VDict(a)], [f], [v], clock, 1).value;
    OneFieldTyped(VDict(b), VDict(a), f, v, clock);
    DiffFits(b, a, ct, v);
    MapArrives(b, a, ct, v, tag, clock);
    TooManyForMap(b, f, ct, pts);
    OneFieldAfter(VDict(b), f, pts);
  }

  lemma {:induction false} OneFieldTyped(b: Value, a: Value, f: Field, v: View, clock: nat -> nat)
    requires HasType(b, f.ft) && HasType(a, f.ft) && GoodType(f.ft) && ViewOf(b, a, v)
    requires DiffedTo([b], [a], [f], [v], clock, 1).Some?
    ensures Typed(DiffedTo([b], [a], [f], [v], clock, 1).value, f.tag) == SentFor(b, a, f, v, clock)
  {
    hide DiffedTo, Typed, SentFor, HasType, GoodType;
    HaveShaped([b], [f]);
    HaveShaped([a], [f]);
    DiffedTyped([b], [a], [f], [v], clock, 1, 0);
    assert [f][0].tag == f.tag;
  }

  lemma {:induction false} AllNamesWritten(b: map<string, Cell>, a: map<string, Cell>, ct: CellType, moved: set<string>)
    requires "" !in b && "" !in a && b.Keys !! a.Keys
    ensures |NamesWritten(b, a, ct, moved)| == |a| + |b|
  {
    forall k | k in b.Keys + a.Keys
      ensures Named(k) == k && DictWrites(b, a, ct, moved, k)
    {
    }
    NamesAre(b, a, ct, moved);
    assert |b.Keys + a.Keys| == |b.Keys| + |a.Keys|;
  }

  lemma {:induction false} NamesAre(b: map<string, Cell>, a: map<string, Cell>, ct: CellType, moved: set<string>)
    requires forall k :: k in b.Keys + a.Keys ==> Named(k) == k && DictWrites(b, a, ct, moved, k)
    ensures NamesWritten(b, a, ct, moved) == b.Keys + a.Keys
  {
    hide DictWrites, Named;
  }

  lemma {:induction false} DictDiffIs(b: map<string, Cell>, a: map<string, Cell>, ct: CellType, v: View)
    requires Viewed(b, a, v)
    ensures DiffEntries(VDict(b), VDict(a), Dict(ct), v) == DictDiff(b, a, ct, v)
  {
  }

  lemma {:induction false} ReplacedMapEntries(b: map<string, Cell>, a: map<string, Cell>, ct: CellType, v: View)
    requires Viewed(b, a, v) && b.Keys !! a.Keys && forall k :: k in a ==> Safe(a[k])
    ensures |DictDiff(b, a, ct, v)| == |a| + |b| && AllSafe(DictDiff(b, a, ct, v))
  {
    hide Picked, Safe, Same;
    OrderSizes(b, a, v);
    AllChanged(b, a, ct, v);
    PickedAll(DictEntries(a, v.order), DictChanges(b, a, ct, v));
    SafeEntries(DictEntries(a, v.order), Tombstones(v.removed));
  }

  lemma {:induction false} OrderSizes(b: map<string, Cell>, a: map<string, Cell>, v: View)
    requires Viewed(b, a, v) && b.Keys !! a.Keys
    ensures |v.order| == |a| && |v.removed| == |b|
  {
    hide IsOrder;
    OrderSize(v.order, a.Keys);
    OrderSize(v.removed, b.Keys - a.Keys);
    assert b.Keys - a.Keys == b.Keys;
  }

  lemma {:induction false} SafeEntries(es: seq<Entry>, gone: seq<Entry>)
    requires AllSafe(es) && forall i :: 0 <= i < |gone| ==> gone[i].cell.None?
    ensures AllSafe(es + gone)
  {
  }

  lemma {:induction false} AllChanged(b: map<string, Cell>, a: map<string, Cell>, ct: CellType, v: View)
    requires Viewed(b, a, v) && b.Keys !! a.Keys
    ensures forall i :: 0 <= i < |v.order| ==> DictChanges(b, a, ct, v)[i]
  {
    hide Same;
    forall i | 0 <= i < |v.order|
      ensures DictChanges(b, a, ct, v)[i]
    {
      assert v.order[i] in a.Keys;
    }
  }

  lemma {:induction false} PickedAll(es: seq<Entry>, pick: seq<bool>)
    requires |es| == |pick| && forall i :: 0 <= i < |pick| ==> pick[i]
    ensures Picked(es, pick) == es
  {
    if es != [] {
      PickedAll(es[..|es| - 1], pick[..|es| - 1]);
    }
  }

  lemma {:induction false} TooManyForMap(b: map<string, Cell>, f: Field, ct: CellType, pts: seq<Point>)
    requires f.ft == Dict(ct) && |Typed(pts, f.tag)| > MAX_STRUCTURE_SIZE
    ensures FieldAfter(VDict(b), f, pts) == (VDict(b), Failed)
  {
    hide GroupOf, Typed;
    GroupMeans(Typed(pts, f.tag));
  }

  lemma {:induction false} OneFieldDiff(b: Value, a: Value, f: Field, v: View, clock: nat -> nat)
    requires HasType(b, f.ft) && HasType(a, f.ft) && ViewOf(b, a, v)
    requires !DiffTooBig(b, a, f.ft) && AllSafe(DiffEntries(b, a, f.ft, v))
    ensures DiffedTo([b], [a], [f], [v], clock, 1).Some?
  {
    hide DiffEntries, DiffTooBig, AddAll;
    assert DiffedTo([b], [a], [f], [v], clock, 0) == Some([]);
  }

  lemma {:induction false} OneFieldAfter(b: Value, f: Field, pts: seq<Point>)
    requires Shaped(b, f.ft)
    ensures FieldsAfter([b], [f], pts) == ([FieldAfter(b, f, pts).0], FieldAfter(b, f, pts).1)
  {
    hide FieldAfter;
    var st, bs := [f], [b];
    assert st[1..] == [] && bs[1..] == [];
    var v := FieldAfter(b, f, pts).0;
    assert [v] + [] == [v];
    assert FieldsAfter(bs[1..], st[1..], pts) == ([], Done);
  }

  // ----- names that are lost -----

  // A map entry with a blank key comes back under the key "0".
  lemma {:induction false} BlankKeyIsRenamed(c: Cell, ct: CellType)
    requires c.Some? && ScalarHas(c.value, ct.kind) && Safe(c)
    ensures
      var m := map["" := c];
      var es := DictEntries(m, [""]);
      IsOrder([""], m.Keys) && DictAfter(map[], ct, ToPoints("t", es)) == (map["0" := c], Done)
  {
    var es := DictEntries(map["" := c], [""]);
    var ps := ToPoints("t", es);
    SetValReads(ps[0], c, ct, ZeroCell(ct));
    OnePut(map[], ct, ps, c);
  }

  lemma {:induction false} OnePut(m: map<string, Cell>, ct: CellType, ps: seq<Point>, c: Cell)
    requires |ps| == 1 && !Deleted(ps[0]) && SetVal(ps[0], ct, ZeroCell(ct)) == (c, true)
    ensures DictAfter(m, ct, ps) == (m[DictKey(ps[0]) := c], Done)
  {
    hide SetVal;
    var m' := m[DictKey(ps[0]) := c];
    assert ps[1..] == [] && PutEach(m', ct, ps[1..]) == (m', Done);
    assert PutEach(m, ct, ps) == PutEach(m', ct, ps[1..]);
  }

  // ----- types for which every change survives -----

  // The struct types that DiffPoints does not refuse for their size.
  ghost predicate Diffable(st: seq<Field>) {
    forall i :: 0 <= i < |st| ==> |FieldsOf(st[i].ft)| <= MAX_STRUCTURE_SIZE
  }

  function FieldsOf(ft: FieldType): seq<Inner> {
    match ft
    case Flat(fields) => fields
    case FlatPtr(fields) => fields
    case _ => []
  }

  // Two values and a difference between them of which every field merges back, names aside.
  ghost predicate Change(bs: seq<Value>, as_: seq<Value>, st: seq<Field>, views: seq<View>, clock: nat -> nat) {
    && AllHave(bs, st) && AllHave(as_, st) && ViewsOf(bs, as_, views, |st|)
    && DiffedTo(bs, as_, st, views, clock, |st|).Some?
    && forall i :: 0 <= i < |st| ==> ViewOf(bs[i], as_[i], views[i]) && MergesBack(bs[i], as_[i], st[i].ft, views[i], clock)
  }

  ghost predicate Survives(bs: seq<Value>, as_: seq<Value>, st: seq<Field>, views: seq<View>, clock: nat -> nat)
    requires Change(bs, as_, st, views, clock)
  {
    FieldsAfter(bs, st, DiffedTo(bs, as_, st, views, clock, |st|).value) == (as_, Done)
  }

  // No field takes its name from an edgepoint tag alone, or none that differs from the one it has.
  predicate NoneByEdgePoint(fields: seq<Inner>) {
    forall j :: 0 <= j < |fields| ==>
      fields[j].point != "" || fields[j].edgepoint == "" || fields[j].edgepoint == fields[j].camel
  }

  lemma {:induction false} SameKeysIff(ft: FieldType)
    ensures SameKeys(ft) <==> NoneByEdgePoint(FieldsOf(ft))
  {
  }

  // Every such change survives exactly if the type has no field named by an edgepoint tag.
  lemma {:induction false} AllSurviveIff(st: seq<Field>)
    requires GoodStruct(st) && Diffable(st)
    ensures (forall i :: 0 <= i < |st| ==> NoneByEdgePoint(FieldsOf(st[i].ft))) <==>
      forall bs, as_, views, clock :: Change(bs, as_, st, views, clock) ==> Survives(bs, as_, st, views, clock)
  {
    hide Change, Survives, GoodStruct, Diffable, SameKeys, NoneByEdgePoint;
    forall i | 0 <= i < |st|
      ensures NoneByEdgePoint(FieldsOf(st[i].ft)) <==> SameKeys(st[i].ft)
    {
      SameKeysIff(st[i].ft);
    }
    if forall i :: 0 <= i < |st| ==> SameKeys(st[i].ft) {
      forall bs, as_, views, clock | Change(bs, as_, st, views, clock)
        ensures Survives(bs, as_, st, views, clock)
      {
        SameKeysSurvive(bs, as_, st, views, clock);
      }
    } else {
      var bs, as_, views, clock := LosesOne(st);
    }
  }

  lemma {:induction false} LosesOne(st: seq<Field>) returns (bs: seq<Value>, as_: seq<Value>, views: seq<View>,
          clock: nat -> nat)
    requires GoodStruct(st) && Diffable(st) && !forall i :: 0 <= i < |st| ==> SameKeys(st[i].ft)
    ensures Change(bs, as_, st, views, clock) && !Survives(bs, as_, st, views, clock)
  {
    hide Change, Survives, GoodStruct, Diffable;
    var i :| 0 <= i < |st| && !SameKeys(st[i].ft);
    var fields := FieldsOf(st[i].ft);
    var j :| 0 <= j < |fields| && Overlooked(fields[j]);
    bs, as_, views, clock := Bases(st), Changed(st, i, j), Plainly(|st|), Now;
    OneChange(st, i, j);
    OneChangeLost(st, i, j);
  }

  lemma {:induction false} SameKeysSurvive(bs: seq<Value>, as_: seq<Value>, st: seq<Field>, views: seq<View>,
          clock: nat -> nat)
    requires GoodStruct(st) && Change(bs, as_, st, views, clock)
    requires forall i :: 0 <= i < |st| ==> SameKeys(st[i].ft)
    ensures Survives(bs, as_, st, views, clock)
  {
    hide DiffedTo, FieldsAfter, MergesBack, HasType;
    forall i | 0 <= i < |st|
      ensures NamesApart(st[i].ft)
    {
      SameKeysApart(st[i].ft);
    }
    HaveShaped(bs, st);
    HaveShaped(as_, st);
    forall i | 0 <= i < |st|
      ensures NamesKept(bs[i], as_[i], st[i].ft)
    {
    }
    MergeOfDiff(bs, as_, st, views, clock);
  }

  lemma {:induction false} SameKeysApart(ft: FieldType)
    requires GoodType(ft) && SameKeys(ft)
    ensures NamesApart(ft)
  {
    var fields := FieldsOf(ft);
    assert forall i :: 0 <= i < |fields| ==> DiffKey(fields[i]) == Keys(fields)[i];
  }

  // ----- a change that is lost -----

  // A value that is not zero.
  function NotZero(k: Kind): Scalar {
    match k
    case KBool => Bool(true)
    case KInt(_) => Int(1)
    case KUint(_) => Int(1)
    case KFloat => Float(1.0)
    case KString => Text("x")
  }

  lemma {:induction false} NotZeroFits(ct: CellType)
    ensures CellHas(Some(NotZero(ct.kind)), ct) && Safe(Some(NotZero(ct.kind))) && Some(NotZero(ct.kind)) != ZeroCell(ct)
    ensures CellHas(ZeroCell(ct), ct) && Safe(ZeroCell(ct))
  {
    ZeroCellHasType(ct);
    match ct.kind
    case KInt(bits) => assert Pow2(bits) == 2 * Pow2(bits - 1);
    case KUint(bits) => assert Pow2(bits) == 2 * Pow2(bits - 1);
    case _ =>
  }

  // Zero values, with structs behind pointers in place.
  function Base(ft: FieldType): (v: Value)
    ensures Shaped(v, ft)
  {
    if ft.FlatPtr? then VFlat(ZeroCells(ft.fields)) else ZeroValue(ft)
  }

  function Bases(st: seq<Field>): (vs: seq<Value>)
    ensures |vs| == |st| && forall k :: 0 <= k < |st| ==> vs[k] == Base(st[k].ft)
  {
    seq(|st|, k requires 0 <= k < |st| => Base(st[k].ft))
  }

  // The same but for inner field j of field i.
  function Changed(st: seq<Field>, i: nat, j: nat): (vs: seq<Value>)
    requires i < |st| && j < |FieldsOf(st[i].ft)|
    ensures |vs| == |st|
  {
    Bases(st)[i := VFlat(Base(st[i].ft).cs[j := Some(NotZero(FieldsOf(st[i].ft)[j].cell.kind))])]
  }

  function Plainly(n: nat): (views: seq<View>)
    ensures |views| == n && forall k :: 0 <= k < n ==> views[k] == View({}, [], [])
  {
    seq(n, k => View({}, [], []))
  }

  function Now(n: nat): nat { 1 }

  lemma {:induction false} BaseFits(ft: FieldType)
    ensures HasType(Base(ft), ft)
  {
    ZeroHasType(ft);
    if ft.FlatPtr? {
      ZeroHasType(Flat(ft.fields));
    }
  }

  lemma {:induction false} ChangedFits(st: seq<Field>, i: nat, j: nat, k: nat)
    requires i < |st| && j < |FieldsOf(st[i].ft)| && k < |st|
    ensures HasType(Changed(st, i, j)[k], st[k].ft)
  {
    BaseFits(st[k].ft);
    if k == i {
      NotZeroFits(FieldsOf(st[i].ft)[j].cell);
    }
  }

  // Field k of the change: nothing, or entries for one inner field only.
  lemma {:induction false} ChangeAt(st: seq<Field>, i: nat, j: nat, k: nat)
    requires i < |st| && j < |FieldsOf(st[i].ft)| && k < |st| && Diffable(st)
    ensures Shaped(Bases(st)[k], st[k].ft) && Shaped(Changed(st, i, j)[k], st[k].ft)
    ensures ViewOf(Bases(st)[k], Changed(st, i, j)[k], View({}, [], []))
    ensures !DiffTooBig(Bases(st)[k], Changed(st, i, j)[k], st[k].ft)
    ensures MergesBack(Bases(st)[k], Changed(st, i, j)[k], st[k].ft, View({}, [], []), Now)
    ensures AllSafe(DiffEntries(Bases(st)[k], Changed(st, i, j)[k], st[k].ft, View({}, [], [])))
    ensures k == i ==>
      forall e :: e in DiffEntries(Bases(st)[k], Changed(st, i, j)[k], st[k].ft, View({}, [], [])) ==>
        e.key == DiffKey(FieldsOf(st[i].ft)[j])
  {
    ChangedFits(st, i, j, k);
    BaseFits(st[k].ft);
    var b, a, ft := Bases(st)[k], Changed(st, i, j)[k], st[k].ft;
    match ft
    case Prim(_) =>
    case Slice(_) =>
    case Dict(ct) => assert NamesWritten(b.m, a.m, ct, {}) == {};
    case Flat(fields) => StructChange(b.cs, a.cs, fields, if k == i then j else |fields|);
    case FlatPtr(fields) => StructChange(b.cs, a.cs, fields, if k == i then j else |fields|);
  }

  lemma {:induction false} StructChange(b: seq<Cell>, a: seq<Cell>, fields: seq<Inner>, j: nat)
    requires |b| == |a| == |fields| && b == ZeroCells(fields) && j <= |fields|
    requires forall m :: 0 <= m < |fields| ==> a[m] == if m == j then Some(NotZero(fields[m].cell.kind)) else b[m]
    ensures
      var es := Picked(FlatEntries(a, DiffKeys(fields)), FlatChanges(b, a, fields, {}));
      && AllSafe(es) && (j < |fields| ==> forall e :: e in es ==> e.key == DiffKey(fields[j]))
      && (fields != [] ==> exists i :: 0 <= i < |fields| && (b[i].None? || a[i].Some?))
  {
    hide Picked, DiffKey, Safe;
    var all, pick := FlatEntries(a, DiffKeys(fields)), FlatChanges(b, a, fields, {});
    var es := Picked(all, pick);
    forall e | e in es
      ensures Safe(e.cell) && (j < |fields| ==> e.key == DiffKey(fields[j]))
    {
      InPicked(all, pick, e);
      var m :| 0 <= m < |all| && pick[m] && all[m] == e;
      NotZeroFits(fields[m].cell);
    }
    if fields != [] {
      assert b[0].None? || a[0].Some?;
    }
  }

  lemma {:induction false} OneChange(st: seq<Field>, i: nat, j: nat)
    requires i < |st| && j < |FieldsOf(st[i].ft)| && GoodStruct(st) && Diffable(st)
    ensures Change(Bases(st), Changed(st, i, j), st, Plainly(|st|), Now)
  {
    hide HasType, Changed, Bases, MergesBack, DiffedTo, DiffEntries, GoodStruct, Diffable;
    forall k | 0 <= k < |st|
      ensures HasType(Bases(st)[k], st[k].ft) && HasType(Changed(st, i, j)[k], st[k].ft)
    {
      BaseFits(st[k].ft);
      ChangedFits(st, i, j, k);
    }
    HaveShaped(Bases(st), st);
    HaveShaped(Changed(st, i, j), st);
    forall k | 0 <= k < |st|
      ensures Shaped(Bases(st)[k], st[k].ft) && Shaped(Changed(st, i, j)[k], st[k].ft)
      ensures ViewOf(Bases(st)[k], Changed(st, i, j)[k], Plainly(|st|)[k])
      ensures MergesBack(Bases(st)[k], Changed(st, i, j)[k], st[k].ft, Plainly(|st|)[k], Now)
    {
      ChangeAt(st, i, j, k);
    }
    ChangeIsDiffed(st, i, j, |st|);
  }

  lemma {:induction false} ChangeIsDiffed(st: seq<Field>, i: nat, j: nat, n: nat)
    requires i < |st| && j < |FieldsOf(st[i].ft)| && Diffable(st) && n <= |st|
    requires AllShaped(Bases(st), st) && AllShaped(Changed(st, i, j), st)
    requires ViewsOf(Bases(st), Changed(st, i, j), Plainly(|st|), n)
    ensures DiffedTo(Bases(st), Changed(st, i, j), st, Plainly(|st|), Now, n).Some?
  {
    hide Changed, Bases, MergesBack, DiffEntries, DiffTooBig, Diffable, AddAll, Shaped;
    if n > 0 {
      ChangeIsDiffed(st, i, j, n - 1);
      ChangeAt(st, i, j, n - 1);
    }
  }

  lemma {:induction false} SentKeys(more: seq<Point>, clock: nat -> nat, key: string)
    requires key != "" && forall i :: 0 <= i < |more| ==> more[i].key == key
    ensures forall i :: 0 <= i < |AddAll([], more, clock)| ==> AddAll([], more, clock)[i].key == key
  {
    if more != [] {
      SentKeys(more[..|more| - 1], clock, key);
    }
  }

  // Inner field j is overlooked: its change is lost.
  lemma {:induction false} OneChangeLost(st: seq<Field>, i: nat, j: nat)
    requires i < |st| && j < |FieldsOf(st[i].ft)| && GoodStruct(st) && Diffable(st)
    requires Change(Bases(st), Changed(st, i, j), st, Plainly(|st|), Now) && Overlooked(FieldsOf(st[i].ft)[j])
    ensures !Survives(Bases(st), Changed(st, i, j), st, Plainly(|st|), Now)
  {
    hide HasType, DiffedTo, DiffEntries, FieldsAfter, MergesBack, AfterPoints;
    var bs, as_, views := Bases(st), Changed(st, i, j), Plainly(|st|);
    var pts := DiffedTo(bs, as_, st, views, Now, |st|).value;
    HaveShaped(bs, st);
    HaveShaped(as_, st);
    DiffedTyped(bs, as_, st, views, Now, |st|, i);
    ChangeAt(st, i, j, i);
    var es := DiffEntries(bs[i], as_[i], st[i].ft, views[i]);
    var more := ToPoints(st[i].tag, es);
    var key := DiffKey(FieldsOf(st[i].ft)[j]);
    forall m | 0 <= m < |more|
      ensures more[m].key == key
    {
      assert es[m] in es;
    }
    SentKeys(more, Now, key);
    StaysAsItWas(bs[i], st[i].ft, SentFor(bs[i], as_[i], st[i], views[i], Now), j);
    AfterTyped(bs[i], st[i], pts);
    NotZeroFits(FieldsOf(st[i].ft)[j].cell);
    FieldByField(bs, as_, st, pts);
  }

  // Under points that all carry another key the inner field keeps its value.
  lemma {:induction false} StaysAsItWas(b: Value, ft: FieldType, ps: seq<Point>, j: nat)
    requires Shaped(b, ft) && b.VFlat? && j < |FieldsOf(ft)| && Keyed(FieldsOf(ft))
    requires forall m :: 0 <= m < |ps| ==> ps[m].key != Key(FieldsOf(ft)[j])
    ensures var v := AfterPoints(b, ft, ps).0; v.VFlat? ==> |v.cs| == |FieldsOf(ft)| && v.cs[j] == b.cs[j]
  {
    hide FlatAfter, ValidFields, GroupOf;
    GroupMeans(ps);
    NotNamedStays(b.cs, FieldsOf(ft), ps, j);
  }

  // A field of an inner struct that is named by an edgepoint tag: its change is found, but
  // under a name that Decode does not know, and the struct stays as it was.
  lemma {:induction false} EdgePointNameIsLost(b: Cell, a: Cell, ct: CellType, camel: string, moved: set<string>)
    requires a != b && camel != "e"
    ensures
      var fields := [Inner("", "e", camel, ct)];
      var es := Picked(FlatEntries([a], DiffKeys(fields)), FlatChanges([b], [a], fields, moved));
      es == [Entry(camel, a)] && FlatAfter([b], fields, ToPoints("t", es)) == ([b], Done)
  {
    hide Picked, PointFor;
    var fields := [Inner("", "e", camel, ct)];
    var all, pick := FlatEntries([a], DiffKeys(fields)), FlatChanges([b], [a], fields, moved);
    PickedAll(all, pick);
    assert all == [Entry(camel, a)];
    UnknownKey([b], fields, ToPoints("t", all));
  }

  lemma {:induction false} UnknownKey(cs: seq<Cell>, fields: seq<Inner>, ps: seq<Point>)
    requires |cs| == |fields| == |ps| == 1 && Key(fields[0]) != "" && ps[0].key != Key(fields[0])
    ensures FlatAfter(cs, fields, ps) == (cs, Done)
  {
    assert ps[..0] == [] && LastByKey(ps[..0]) == map[];
    assert SetFields(cs, fields, 1, LastByKey(ps)) == (cs, Done);
  }
}
