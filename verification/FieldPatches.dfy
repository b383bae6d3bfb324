// What Encode and DiffPoints write for one field is a patch, and when it keeps everything.
module FieldPatches {
  import opened Decimal
  import opened Decoding
  import opened Encoding
  import opened FieldLaws
  import opened Fields
  import opened Patches
  import opened Wrappers

  ghost predicate DistinctStrings(ks: seq<string>) {
    forall i, j :: 0 <= i < j < |ks| ==> ks[i] != ks[j]
  }

  // The inner fields of a struct have different names, none of them blank.
  ghost predicate GoodType(ft: FieldType) {
    match ft
    case Flat(fields) => Keyed(fields) && DistinctStrings(Keys(fields))
    case FlatPtr(fields) => Keyed(fields) && DistinctStrings(Keys(fields))
    case _ => true
  }

  // A map has no blank key: it would come back as "0".
  predicate NoBlankKey(v: Value) { v.VDict? ==> "" !in v.m }

  // ----- Encode -----

  // A value that its own encoding gives back: a list does not end in a nil pointer, a map
  // holds no nil pointer, and a struct behind a pointer has a field that is not nil.
  predicate RoundTrips(v: Value, ft: FieldType) {
    match ft
    case Prim(_) => true
    case Slice(_) => v.VSlice? && (v.cs != [] ==> v.cs[|v.cs| - 1].Some?)
    case Dict(_) => v.VDict? && forall k :: k in v.m ==> v.m[k].Some?
    case Flat(_) => true
    case FlatPtr(fields) => v.VFlat? ==> exists i :: 0 <= i < |v.cs| && v.cs[i].Some?
  }

  lemma {:induction false} EncodesPatch(v: Value, ft: FieldType, ks: seq<string>)
    requires HasType(v, ft) && GoodType(ft) && OrderFor(v, ks) && NoBlankKey(v) && !TooBig(v, ft)
    ensures DistinctKeys(Entries(v, ft, ks)) && PatchOf(ZeroValue(ft), v, ft, Entries(v, ft, ks))
    ensures Kept(ZeroValue(ft), v, ft, Entries(v, ft, ks)) <==> RoundTrips(v, ft)
    ensures ft.Dict? ==> |Entries(v, ft, ks)| <= MAX_STRUCTURE_SIZE
  {
    hide AsMap, InLists, ListPatch, ListKept, DictPatch, DictKept, FlatPatch, StructKept, IsOrder;
    match ft
    case Prim(_) =>
    case Slice(_) => EncodesList(v.cs);
    case Dict(_) => EncodesDict(v.m, ks);
    case Flat(fields) => EncodesFlat(ZeroCells(fields), v.cs, fields);
    case FlatPtr(fields) => EncodesPointer(v, fields);
  }

  lemma {:induction false} EncodesList(cs: seq<Cell>)
    requires |cs| <= MAX_STRUCTURE_SIZE
    ensures
      var es := ListEntries(cs);
      && DistinctKeys(es) && InLists([], cs, es) && ListPatch([], cs, AsMap(es))
      && (ListKept(cs, AsMap(es)) <==> (cs != [] ==> cs[|cs| - 1].Some?))
  {
    hide AsMap;
    var es := ListEntries(cs);
    ListDistinct(cs);
    forall i | 0 <= i < |es|
      ensures IndexOf(es[i].key) == i
      ensures Itoa(i) in AsMap(es) && AsMap(es)[Itoa(i)] == cs[i]
    {
      IndexOfItoa(i);
      AsMapIs(es, Itoa(i), cs[i]);
    }
  }

  lemma {:induction false} EncodesDict(m: map<string, Cell>, ks: seq<string>)
    requires IsOrder(ks, m.Keys) && "" !in m && |m| <= MAX_STRUCTURE_SIZE
    ensures
      var es := DictEntries(m, ks);
      && |es| <= MAX_STRUCTURE_SIZE && DistinctKeys(es) && DictPatch(map[], m, AsMap(es))
      && (forall i :: 0 <= i < |es| ==> es[i].key != "")
      && (DictKept(m, AsMap(es)) <==> forall k :: k in m ==> m[k].Some?)
  {
    hide AsMap;
    var es := DictEntries(m, ks);
    OrderSize(ks, m.Keys);
    forall k
      ensures k in AsMap(es) <==> k in m
      ensures k in m ==> AsMap(es)[k] == m[k]
    {
      DictEntryAt(m, ks, k);
    }
  }

  lemma {:induction false} DictEntryAt(m: map<string, Cell>, ks: seq<string>, k: string)
    requires IsOrder(ks, m.Keys)
    ensures
      var mp := AsMap(DictEntries(m, ks));
      (k in mp <==> k in m) && (k in m ==> mp[k] == m[k])
  {
    hide AsMap;
    var es := DictEntries(m, ks);
    AsMapKeys(es);
    if k in m {
      var i :| 0 <= i < |ks| && ks[i] == k;
      assert es[i].key == k;
    }
  }

  lemma {:induction false} FlatAsMap(cs: seq<Cell>, keys: seq<string>)
    requires |cs| == |keys| && DistinctStrings(keys)
    ensures DistinctKeys(FlatEntries(cs, keys))
    ensures forall i :: 0 <= i < |keys| ==> keys[i] in AsMap(FlatEntries(cs, keys)) && AsMap(FlatEntries(cs, keys))[keys[i]] == cs[i]
    ensures forall k :: k in AsMap(FlatEntries(cs, keys)) ==> k in keys
  {
    hide AsMap;
    var es := FlatEntries(cs, keys);
    AsMapKeys(es);
    forall i | 0 <= i < |keys|
      ensures keys[i] in AsMap(es) && AsMap(es)[keys[i]] == cs[i]
    {
      assert es[i].key == keys[i];
    }
  }

  lemma {:induction false} EncodesFlat(b: seq<Cell>, cs: seq<Cell>, fields: seq<Inner>)
    requires |b| == |cs| == |fields| && DistinctStrings(Keys(fields))
    ensures
      var es := FlatEntries(cs, Keys(fields));
      && DistinctKeys(es) && FlatPatch(b, cs, fields, AsMap(es))
      && OnlyKeys(fields, AsMap(es))
      && (StructKept(fields, AsMap(es)) <==> exists i :: 0 <= i < |cs| && cs[i].Some?)
      && ((forall i :: 0 <= i < |cs| ==> cs[i].None?) ==> AllDeleted(fields, AsMap(es)))
  {
    hide AsMap;
    var es, keys := FlatEntries(cs, Keys(fields)), Keys(fields);
    FlatAsMap(cs, keys);
    assert forall i :: 0 <= i < |fields| ==> Key(fields[i]) == keys[i];
    forall k | k in AsMap(es)
      ensures exists i :: 0 <= i < |fields| && Key(fields[i]) == k
    {
      var i :| 0 <= i < |keys| && keys[i] == k;
      assert Key(fields[i]) == k;
    }
  }

  lemma {:induction false} EncodesPointer(v: Value, fields: seq<Inner>)
    requires HasType(v, FlatPtr(fields)) && GoodType(FlatPtr(fields))
    ensures
      var es := Entries(v, FlatPtr(fields), []);
      && DistinctKeys(es) && PatchOf(VNil, v, FlatPtr(fields), es)
      && (Kept(VNil, v, FlatPtr(fields), es) <==> RoundTrips(v, FlatPtr(fields)))
  {
    hide AsMap, FlatPatch, AllDeleted, StructKept, OnlyKeys;
    if v.VNil? {
      var nils: seq<Cell> := seq(|fields|, i => None);
      assert Tombstones(Keys(fields)) == FlatEntries(nils, Keys(fields));
      EncodesFlat(nils, nils, fields);
    } else {
      EncodesFlat(ZeroCells(fields), v.cs, fields);
    }
  }

  // ----- DiffPoints -----

  // A field of a struct that takes its key from an edgepoint tag, which DiffPoints overlooks.
  predicate Overlooked(f: Inner) { DiffKey(f) != Key(f) }

  ghost predicate SameKeys(ft: FieldType) {
    match ft
    case Flat(fields) => forall i :: 0 <= i < |fields| ==> !Overlooked(fields[i])
    case FlatPtr(fields) => forall i :: 0 <= i < |fields| ==> !Overlooked(fields[i])
    case _ => true
  }

  // DiffPoints does not use a name for one field that is a name of another.
  ghost predicate NamesApart(ft: FieldType) {
    match ft
    case Flat(fields) => FieldsApart(fields)
    case FlatPtr(fields) => FieldsApart(fields)
    case _ => true
  }

  ghost predicate FieldsApart(fields: seq<Inner>) {
    forall i, j :: 0 <= i < |fields| && 0 <= j < |fields| && i != j ==>
      DiffKey(fields[i]) != DiffKey(fields[j]) && DiffKey(fields[i]) != Key(fields[j])
  }

  // The fields that DiffPoints overlooks are as they were; a struct that has one does not go nil.
  ghost predicate NamesKept(b: Value, a: Value, ft: FieldType)
    requires Shaped(b, ft) && Shaped(a, ft)
  {
    match ft
    case Flat(fields) => OverlookedStay(b.cs, a.cs, fields)
    case FlatPtr(fields) =>
      b.VFlat? ==> if a.VNil? then SameKeys(ft) else OverlookedStay(b.cs, a.cs, fields)
    case _ => true
  }

  ghost predicate OverlookedStay(b: seq<Cell>, a: seq<Cell>, fields: seq<Inner>)
    requires |b| == |a| == |fields|
  {
    forall i :: 0 <= i < |fields| && Overlooked(fields[i]) ==> b[i] == a[i]
  }

  // The names under which changes of a map are written: a blank key becomes "0".
  function NamesWritten(b: map<string, Cell>, a: map<string, Cell>, ct: CellType, moved: set<string>): set<string> {
    set k | k in b.Keys + a.Keys && DictWrites(b, a, ct, moved, k) :: Named(k)
  }

  function Named(k: string): string { if k == "" then "0" else k }

  // A change from b to a that survives as points: no element that has to be written is a nil
  // pointer at the end of a list or in a map; a map has at most 1000 changes and no change
  // under a blank key; and a struct behind a pointer does not have all of its fields go, or
  // start out, nil.
  ghost predicate MergesBack(b: Value, a: Value, ft: FieldType, v: View, clock: nat -> nat)
    requires Shaped(b, ft) && Shaped(a, ft) && ViewOf(b, a, v)
  {
    match ft
    case Prim(_) => true
    case Slice(_) =>
      var n := |a.cs|;
      n > 0 && a.cs[n - 1].None? ==> n <= |b.cs| && b.cs[n - 1].None?
    case Dict(ct) =>
      && |NamesWritten(b.m, a.m, ct, v.moved)| <= MAX_STRUCTURE_SIZE
      && (forall k :: k in a.m && a.m[k].None? ==> k in b.m && b.m[k].None?)
      && BlankStays(b.m, a.m, ct, v, clock)
    case Flat(_) => true
    case FlatPtr(fields) =>
      if b.VNil? then a.VFlat? ==> exists i :: 0 <= i < |fields| && a.cs[i].Some?
      else if a.VNil? then fields != []
      else fields != [] ==> exists i :: 0 <= i < |fields| && (b.cs[i].None? || a.cs[i].Some?)
  }

  // The entry with the blank key is as it was.  If its pointer points elsewhere it is written, as
  // "0", all the same: that must be what stands there anyway, or give way to what is written there.
  ghost predicate BlankStays(b: map<string, Cell>, a: map<string, Cell>, ct: CellType, v: View, clock: nat -> nat)
    requires Viewed(b, a, v)
  {
    && Lookup(b, "") == Lookup(a, "")
    && (DictWrites(b, a, ct, v.moved, "") ==>
          if "0" !in a then "0" in b
          else
            || Lookup(a, "0") == Lookup(a, "")
            || (DictWrites(b, a, ct, v.moved, "0") && a["0"].Some? && ZeroWins(b, a, ct, v, clock)))
  }

  // Of the points for "0" and for the blank key the one for "0" is newer, or as new and first.
  ghost predicate ZeroWins(b: map<string, Cell>, a: map<string, Cell>, ct: CellType, v: View, clock: nat -> nat)
    requires Viewed(b, a, v)
  {
    var es := DictDiff(b, a, ct, v);
    Wins(Place(es, "0"), Place(es, ""), clock)
  }

  predicate Wins(i: nat, j: nat, clock: nat -> nat) {
    clock(i + 1) > clock(j + 1) || (clock(i + 1) == clock(j + 1) && i < j)
  }

  function Place(es: seq<Entry>, key: string): (i: nat)
    ensures i <= |es| && (i < |es| ==> es[i].key == key)
    ensures forall j :: 0 <= j < i ==> es[j].key != key
  {
    if es == [] || es[0].key == key then 0 else 1 + Place(es[1..], key)
  }

  // What is written for a field that is no map is a patch, if the names are kept.
  lemma {:induction false} DiffsPatch(b: Value, a: Value, ft: FieldType, v: View, clock: nat -> nat)
    requires HasType(b, ft) && HasType(a, ft) && GoodType(ft) && NamesApart(ft) && ViewOf(b, a, v) && !ft.Dict?
    requires !DiffTooBig(b, a, ft)
    ensures DistinctKeys(DiffEntries(b, a, ft, v))
    ensures NamesKept(b, a, ft) ==>
      && PatchOf(b, a, ft, DiffEntries(b, a, ft, v))
      && (Kept(b, a, ft, DiffEntries(b, a, ft, v)) <==> MergesBack(b, a, ft, v, clock))
  {
    hide AsMap, ListPatch, ListKept, FlatPatch, AllDeleted, StructKept, Picked, OnlyKeys, OverlookedStay, FieldsApart;
    match ft
    case Prim(_) =>
    case Slice(ct) => DiffsList(b.cs, a.cs, ct, v.moved);
    case Flat(fields) => DiffsFlat(b.cs, a.cs, fields, v.moved);
    case FlatPtr(fields) => DiffsPointer(b, a, fields, v, clock);
  }

  function ListDiff(b: seq<Cell>, a: seq<Cell>, ct: CellType, moved: set<string>): seq<Entry> {
    Picked(ListEntries(a), ListChanges(b, a, ct, moved)) + Removed(|b|, |a|)
  }

  // Element j is written, with the cell c.
  ghost predicate Writes(b: seq<Cell>, a: seq<Cell>, ct: CellType, moved: set<string>, j: nat, c: Cell) {
    if j < |a| then ListChanges(b, a, ct, moved)[j] && c == a[j] else j < |b| && c == None
  }

  lemma {:induction false} InListDiff(b: seq<Cell>, a: seq<Cell>, ct: CellType, moved: set<string>,
          e: Entry) returns (j: nat)
    requires e in ListDiff(b, a, ct, moved)
    ensures e.key == Itoa(j) && Writes(b, a, ct, moved, j, e.cell)
  {
    InPicked(ListEntries(a), ListChanges(b, a, ct, moved), e);
    if e in Picked(ListEntries(a), ListChanges(b, a, ct, moved)) {
      var i :| 0 <= i < |a| && ListChanges(b, a, ct, moved)[i] && ListEntries(a)[i] == e;
      j := i;
    } else {
      var i :| 0 <= i < |Removed(|b|, |a|)| && Removed(|b|, |a|)[i] == e;
      j := |b| - 1 - i;
    }
  }

  lemma {:induction false} WrittenIsIn(b: seq<Cell>, a: seq<Cell>, ct: CellType, moved: set<string>, j: nat, c: Cell)
    requires Writes(b, a, ct, moved, j, c)
    ensures Entry(Itoa(j), c) in ListDiff(b, a, ct, moved)
  {
    var e := Entry(Itoa(j), c);
    InPicked(ListEntries(a), ListChanges(b, a, ct, moved), e);
    if j < |a| {
      assert ListEntries(a)[j] == e;
    } else {
      assert Removed(|b|, |a|)[|b| - 1 - j] == e;
    }
  }

  lemma {:induction false} ListDiffDistinct(b: seq<Cell>, a: seq<Cell>, ct: CellType, moved: set<string>)
    requires |a| <= MAX_INT64 && |b| <= MAX_INT64
    ensures DistinctKeys(ListDiff(b, a, ct, moved))
  {
    hide Picked, ListChanges, Removed;
    var picked, removed := Picked(ListEntries(a), ListChanges(b, a, ct, moved)), Removed(|b|, |a|);
    ListDistinct(a);
    PickedDistinct(ListEntries(a), ListChanges(b, a, ct, moved));
    RemovedDistinct(|b|, |a|);
    forall e, f | e in picked && f in removed
      ensures e.key != f.key
    {
      InPicked(ListEntries(a), ListChanges(b, a, ct, moved), e);
      KeptOrRemoved(a, |b|, e, f);
    }
    JoinDistinct(picked, removed);
  }

  lemma {:induction false} RemovedDistinct(b: nat, a: nat)
    requires b <= MAX_INT64
    ensures DistinctKeys(Removed(b, a))
  {
    var removed := Removed(b, a);
    forall i, j | 0 <= i < j < |removed|
      ensures removed[i].key != removed[j].key
    {
      ItoaDiffers(b - 1 - i, b - 1 - j);
    }
  }

  lemma {:induction false} KeptOrRemoved(a: seq<Cell>, b: nat, e: Entry, f: Entry)
    requires |a| <= MAX_INT64 && b <= MAX_INT64 && e in ListEntries(a) && f in Removed(b, |a|)
    ensures e.key != f.key
  {
    var i :| 0 <= i < |a| && ListEntries(a)[i] == e;
    var j :| 0 <= j < |Removed(b, |a|)| && Removed(b, |a|)[j] == f;
    ItoaDiffers(i, b - 1 - j);
  }

  lemma {:induction false} ListDiffAt(b: seq<Cell>, a: seq<Cell>, ct: CellType, moved: set<string>, j: nat)
    requires |a| <= MAX_INT64 && |b| <= MAX_INT64 && j <= MAX_INT64
    ensures
      var mp := AsMap(ListDiff(b, a, ct, moved));
      && (forall c :: Itoa(j) in mp && mp[Itoa(j)] == c <==> Writes(b, a, ct, moved, j, c))
      && (Itoa(j) in mp <==> if j < |a| then ListChanges(b, a, ct, moved)[j] else j < |b|)
  {
    hide AsMap, ListDiff, ListChanges;
    var es := ListDiff(b, a, ct, moved);
    var mp := AsMap(es);
    ListDiffDistinct(b, a, ct, moved);
    forall c
      ensures Itoa(j) in mp && mp[Itoa(j)] == c <==> Writes(b, a, ct, moved, j, c)
    {
      AsMapIs(es, Itoa(j), c);
      if Itoa(j) in mp && mp[Itoa(j)] == c {
        var i := InListDiff(b, a, ct, moved, Entry(Itoa(j), c));
        if i != j {
          WritesInRange(b, a, ct, moved, i, c);
          ItoaDiffers(i, j);
        }
      }
      if Writes(b, a, ct, moved, j, c) {
        WrittenIsIn(b, a, ct, moved, j, c);
      }
    }
    var c := if j < |a| then a[j] else None;
    assert Itoa(j) in mp && mp[Itoa(j)] == c <==> Writes(b, a, ct, moved, j, c);
    if Itoa(j) in mp {
      assert Writes(b, a, ct, moved, j, mp[Itoa(j)]);
    }
  }

  lemma {:induction false} WritesInRange(b: seq<Cell>, a: seq<Cell>, ct: CellType, moved: set<string>, j: nat, c: Cell)
    requires Writes(b, a, ct, moved, j, c)
    ensures j < |a| || j < |b|
  {
  }

  lemma {:induction false} DiffsList(b: seq<Cell>, a: seq<Cell>, ct: CellType, moved: set<string>)
    requires |a| <= MAX_STRUCTURE_SIZE && |b| <= MAX_INT64
    ensures
      var es := ListDiff(b, a, ct, moved);
      && DistinctKeys(es) && InLists(b, a, es) && ListPatch(b, a, AsMap(es))
      && (ListKept(a, AsMap(es)) <==> (|a| > 0 && a[|a| - 1].None? ==> |a| <= |b| && b[|a| - 1].None?))
  {
    hide AsMap, ListDiff;
    var es := ListDiff(b, a, ct, moved);
    ListDiffDistinct(b, a, ct, moved);
    forall i | 0 <= i < |es|
      ensures
        var j := IndexOf(es[i].key);
        && j <= MAX_INT64 && es[i].key == Itoa(j)
        && ((j < |a| && es[i].cell == a[j]) || (|a| <= j < |b| && es[i].cell == None))
    {
      var j := InListDiff(b, a, ct, moved, es[i]);
      IndexOfItoa(j);
    }
    forall j: nat | j < |a| || j < |b|
      ensures j < |a| ==> if Itoa(j) in AsMap(es) then AsMap(es)[Itoa(j)] == a[j] else j < |b| && b[j] == a[j]
      ensures j >= |a| ==> Itoa(j) in AsMap(es) && AsMap(es)[Itoa(j)] == None
    {
      ListDiffAt(b, a, ct, moved, j);
      var c := if j < |a| then a[j] else None;
      assert Itoa(j) in AsMap(es) ==> Writes(b, a, ct, moved, j, AsMap(es)[Itoa(j)]);
    }
    if |a| > 0 {
      ListDiffAt(b, a, ct, moved, |a| - 1);
    }
  }

  // ----- maps -----

  function DictDiff(b: map<string, Cell>, a: map<string, Cell>, ct: CellType, v: View): seq<Entry>
    requires forall i :: 0 <= i < |v.order| ==> v.order[i] in a
  {
    Picked(DictEntries(a, v.order), DictChanges(b, a, ct, v)) + Tombstones(v.removed)
  }

  ghost predicate Viewed(b: map<string, Cell>, a: map<string, Cell>, v: View) {
    IsOrder(v.order, a.Keys) && IsOrder(v.removed, b.Keys - a.Keys)
  }

  predicate DictWrites(b: map<string, Cell>, a: map<string, Cell>, ct: CellType, moved: set<string>, k: string) {
    if k in a then k !in b || !Same(ct, k, b[k], a[k], moved) else k in b
  }

  lemma {:induction false} InDictDiff(b: map<string, Cell>, a: map<string, Cell>, ct: CellType, v: View, e: Entry)
    requires Viewed(b, a, v)
    ensures e in DictDiff(b, a, ct, v) <==>
      DictWrites(b, a, ct, v.moved, e.key) && e.cell == if e.key in a then a[e.key] else None
  {
    InPicked(DictEntries(a, v.order), DictChanges(b, a, ct, v), e);
    if e in Tombstones(v.removed) {
      var i :| 0 <= i < |v.removed| && Tombstones(v.removed)[i] == e;
    }
    if DictWrites(b, a, ct, v.moved, e.key) && e.cell == if e.key in a then a[e.key] else None {
      if e.key in a {
        var i :| 0 <= i < |v.order| && v.order[i] == e.key;
        assert DictEntries(a, v.order)[i] == e;
      } else {
        assert e.key in b.Keys - a.Keys;
        var i :| 0 <= i < |v.removed| && v.removed[i] == e.key;
        assert Tombstones(v.removed)[i] == e;
      }
    }
  }

  lemma {:induction false} DictDiffDistinct(b: map<string, Cell>, a: map<string, Cell>, ct: CellType, v: View)
    requires Viewed(b, a, v)
    ensures DistinctKeys(DictDiff(b, a, ct, v))
  {
    var picked, removed := Picked(DictEntries(a, v.order), DictChanges(b, a, ct, v)), Tombstones(v.removed);
    PickedDistinct(DictEntries(a, v.order), DictChanges(b, a, ct, v));
    forall e, f | e in picked && f in removed
      ensures e.key != f.key
    {
      InPicked(DictEntries(a, v.order), DictChanges(b, a, ct, v), e);
      var j :| 0 <= j < |removed| && removed[j] == f;
    }
    JoinDistinct(picked, removed);
  }

  // ----- structs -----

  lemma {:induction false} DiffKeysDiffer(fields: seq<Inner>)
    requires FieldsApart(fields)
    ensures DistinctStrings(DiffKeys(fields))
    ensures forall i, j :: 0 <= i < |fields| && 0 <= j < |fields| && DiffKeys(fields)[i] == Keys(fields)[j] ==> i == j
  {
  }

  lemma {:induction false} FlatDiffAt(b: seq<Cell>, a: seq<Cell>, fields: seq<Inner>, moved: set<string>, i: nat)
    requires |b| == |a| == |fields| && FieldsApart(fields) && i < |a|
    ensures
      var es := Picked(FlatEntries(a, DiffKeys(fields)), FlatChanges(b, a, fields, moved));
      && DistinctKeys(es)
      && (Key(fields[i]) in AsMap(es) <==> !Overlooked(fields[i]) && FlatChanges(b, a, fields, moved)[i])
      && (Key(fields[i]) in AsMap(es) ==> AsMap(es)[Key(fields[i])] == a[i])
  {
    hide AsMap, Key, DiffKey;
    var all, pick := FlatEntries(a, DiffKeys(fields)), FlatChanges(b, a, fields, moved);
    var es := Picked(all, pick);
    DiffKeysDiffer(fields);
    PickedDistinct(all, pick);
    var k := Key(fields[i]);
    if !Overlooked(fields[i]) {
      assert all[i] == Entry(k, a[i]);
      InPicked(all, pick, all[i]);
      AsMapIs(es, k, a[i]);
    }
    if k in AsMap(es) {
      var e := Entry(k, AsMap(es)[k]);
      AsMapIs(es, k, AsMap(es)[k]);
      InPicked(all, pick, e);
      var j :| 0 <= j < |all| && pick[j] && all[j] == e;
      assert DiffKeys(fields)[j] == Keys(fields)[i];
    }
  }

  lemma {:induction false} DiffsFlat(b: seq<Cell>, a: seq<Cell>, fields: seq<Inner>, moved: set<string>)
    requires |b| == |a| == |fields| && FieldsApart(fields)
    ensures
      var es := Picked(FlatEntries(a, DiffKeys(fields)), FlatChanges(b, a, fields, moved));
      && DistinctKeys(es)
      && (OverlookedStay(b, a, fields) ==>
            FlatPatch(b, a, fields, AsMap(es)) && (OnlyKeys(fields, AsMap(es)) || StructKept(fields, AsMap(es))))
  {
    hide AsMap, Picked, FieldsApart;
    var all, pick := FlatEntries(a, DiffKeys(fields)), FlatChanges(b, a, fields, moved);
    var es := Picked(all, pick);
    FlatDistinct(b, a, fields, moved);
    if OverlookedStay(b, a, fields) {
      forall i | 0 <= i < |fields|
        ensures if Key(fields[i]) in AsMap(es) then AsMap(es)[Key(fields[i])] == a[i] else b[i] == a[i]
      {
        FlatDiffAt(b, a, fields, moved, i);
      }
      if i :| 0 <= i < |fields| && Overlooked(fields[i]) {
        FlatDiffAt(b, a, fields, moved, i);
        assert StructKept(fields, AsMap(es));
      } else {
        OnlyKeysWritten(b, a, fields, moved);
      }
    }
  }

  lemma {:induction false} FlatDistinct(b: seq<Cell>, a: seq<Cell>, fields: seq<Inner>, moved: set<string>)
    requires |b| == |a| == |fields| && FieldsApart(fields)
    ensures DistinctKeys(Picked(FlatEntries(a, DiffKeys(fields)), FlatChanges(b, a, fields, moved)))
  {
    hide Picked;
    DiffKeysDiffer(fields);
    PickedDistinct(FlatEntries(a, DiffKeys(fields)), FlatChanges(b, a, fields, moved));
  }

  lemma {:induction false} OnlyKeysWritten(b: seq<Cell>, a: seq<Cell>, fields: seq<Inner>, moved: set<string>)
    requires |b| == |a| == |fields| && FieldsApart(fields)
    requires forall i :: 0 <= i < |fields| ==> !Overlooked(fields[i])
    ensures OnlyKeys(fields, AsMap(Picked(FlatEntries(a, DiffKeys(fields)), FlatChanges(b, a, fields, moved))))
  {
    hide AsMap, Picked, FieldsApart;
    var all, pick := FlatEntries(a, DiffKeys(fields)), FlatChanges(b, a, fields, moved);
    var es := Picked(all, pick);
    FlatDistinct(b, a, fields, moved);
    forall k | k in AsMap(es)
      ensures exists i :: 0 <= i < |fields| && Key(fields[i]) == k
    {
      AsMapIs(es, k, AsMap(es)[k]);
      InPicked(all, pick, Entry(k, AsMap(es)[k]));
      var i :| 0 <= i < |all| && all[i].key == k;
      assert Key(fields[i]) == k;
    }
  }

  // Some field of the struct stays, or none is written.
  lemma {:induction false} FlatKept(b: seq<Cell>, a: seq<Cell>, fields: seq<Inner>, moved: set<string>)
    requires |b| == |a| == |fields| && FieldsApart(fields) && OverlookedStay(b, a, fields)
    ensures
      var es := Picked(FlatEntries(a, DiffKeys(fields)), FlatChanges(b, a, fields, moved));
      es == [] || StructKept(fields, AsMap(es)) <==>
        (fields != [] ==> exists i :: 0 <= i < |fields| && (b[i].None? || a[i].Some?))
  {
    hide AsMap, Picked, FieldsApart;
    var all, pick := FlatEntries(a, DiffKeys(fields)), FlatChanges(b, a, fields, moved);
    var es := Picked(all, pick);
    PickedNone(all, pick);
    forall i | 0 <= i < |fields|
      ensures Key(fields[i]) in AsMap(es) <==> pick[i] && !Overlooked(fields[i])
      ensures Key(fields[i]) in AsMap(es) ==> AsMap(es)[Key(fields[i])] == a[i]
    {
      FlatDiffAt(b, a, fields, moved, i);
    }
    if es == [] && fields != [] {
      assert !pick[0] && (b[0].None? || a[0].Some?);
    }
    if i :| 0 <= i < |fields| && Overlooked(fields[i]) {
      assert b[i].None? || a[i].Some?;
    }
  }

  lemma {:induction false} PickedNone(es: seq<Entry>, pick: seq<bool>)
    requires |es| == |pick|
    ensures Picked(es, pick) == [] <==> forall i :: 0 <= i < |pick| ==> !pick[i]
  {
    if es != [] {
      PickedNone(es[..|es| - 1], pick[..|es| - 1]);
    }
  }

  lemma {:induction false} DiffsPointer(b: Value, a: Value, fields: seq<Inner>, v: View, clock: nat -> nat)
    requires HasType(b, FlatPtr(fields)) && HasType(a, FlatPtr(fields)) && GoodType(FlatPtr(fields))
    requires FieldsApart(fields) && ViewOf(b, a, v)
    ensures
      var es := DiffEntries(b, a, FlatPtr(fields), v);
      && DistinctKeys(es)
      && (NamesKept(b, a, FlatPtr(fields)) ==>
            && PatchOf(b, a, FlatPtr(fields), es)
            && (Kept(b, a, FlatPtr(fields), es) <==> MergesBack(b, a, FlatPtr(fields), v, clock)))
  {
    hide AsMap, FlatPatch, AllDeleted, StructKept, DistinctKeys, DistinctStrings, Keyed, Picked, OnlyKeys, OverlookedStay;
    if b.VFlat? && a.VFlat? {
      DiffsFlat(b.cs, a.cs, fields, v.moved);
      if OverlookedStay(b.cs, a.cs, fields) {
        FlatKept(b.cs, a.cs, fields, v.moved);
      }
    } else if b.VFlat? || a.VFlat? {
      OneIsNil(b, a, fields, v, clock);
    } else {
      NothingChanged(fields);
    }
  }

  lemma {:induction false} NothingChanged(fields: seq<Inner>)
    ensures DistinctKeys([]) && OnlyKeys(fields, AsMap([]))
  {
  }

  lemma {:induction false} OneIsNil(b: Value, a: Value, fields: seq<Inner>, v: View, clock: nat -> nat)
    requires HasType(b, FlatPtr(fields)) && HasType(a, FlatPtr(fields)) && GoodType(FlatPtr(fields))
    requires FieldsApart(fields) && ViewOf(b, a, v) && b.VNil? != a.VNil?
    ensures
      var es := DiffEntries(b, a, FlatPtr(fields), v);
      && DistinctKeys(es)
      && (NamesKept(b, a, FlatPtr(fields)) ==>
            && PatchOf(b, a, FlatPtr(fields), es)
            && (Kept(b, a, FlatPtr(fields), es) <==> MergesBack(b, a, FlatPtr(fields), v, clock)))
  {
    hide AsMap, FlatPatch, AllDeleted, StructKept, Keyed, Picked, OnlyKeys;
    if a.VNil? {
      DiffKeysDiffer(fields);
      if SameKeys(FlatPtr(fields)) {
        var nils: seq<Cell> := seq(|fields|, i => None);
        assert DiffKeys(fields) == Keys(fields);
        assert Tombstones(DiffKeys(fields)) == FlatEntries(nils, Keys(fields));
        EncodesFlat(nils, nils, fields);
      }
    } else {
      EncodesFlat(ZeroCells(fields), a.cs, fields);
    }
  }

  // ----- names that are lost -----

  // A field keeps its value under points of which none carries its key.
  lemma {:induction false} NotNamedStays(cs: seq<Cell>, fields: seq<Inner>, ps: seq<Point>, j: nat)
    requires |cs| == |fields| && j < |cs| && Key(fields[j]) != ""
    requires forall i :: 0 <= i < |ps| ==> ps[i].key != Key(fields[j])
    ensures FlatAfter(cs, fields, ps).0[j] == cs[j]
  {
    hide Key, SetVal;
    FlatHolds(cs, fields, ps);
    LastByKeyIs(ps, Key(fields[j]));
    assert FieldTaken(fields[j], LastByKey(ps));
  }

  // Nor does the struct go nil.
  lemma {:induction false} NotNamedLives(fields: seq<Inner>, ps: seq<Point>, es: seq<Entry>, j: nat)
    requires Written(ps, es) && j < |fields| && forall i :: 0 <= i < |es| ==> es[i].key != Key(fields[j])
    ensures ValidFields(fields, ps) != {}
  {
    hide Key, Written;
    AsMapKeys(es);
    ValidFieldsOf(fields, ps, es, Key(fields[j]));
  }

  // The key of a field that is overlooked is not among the names that are written.
  lemma {:induction false} OverlookedKey(cs: seq<Cell>, fields: seq<Inner>, pick: seq<bool>, j: nat)
    requires |cs| == |fields| == |pick| && FieldsApart(fields) && j < |fields| && Overlooked(fields[j])
    ensures forall e :: e in FlatEntries(cs, DiffKeys(fields)) ==> e.key != Key(fields[j])
    ensures forall e :: e in Picked(FlatEntries(cs, DiffKeys(fields)), pick) ==> e.key != Key(fields[j])
  {
    hide Key, DiffKey, Picked;
    var all := FlatEntries(cs, DiffKeys(fields));
    DiffKeysDiffer(fields);
    forall e | e in all
      ensures e.key != Key(fields[j])
    {
      var i :| 0 <= i < |all| && all[i] == e;
      assert e.key == DiffKeys(fields)[i];
    }
    forall e | e in Picked(all, pick)
      ensures e.key != Key(fields[j])
    {
      InPicked(all, pick, e);
    }
  }

  lemma {:induction false} LostField(b: seq<Cell>, a: seq<Cell>, fields: seq<Inner>, moved: set<string>, ps: seq<Point>)
    requires |b| == |a| == |fields| && FieldsApart(fields) && Keyed(fields) && !OverlookedStay(b, a, fields)
    requires Written(ps, Picked(FlatEntries(a, DiffKeys(fields)), FlatChanges(b, a, fields, moved)))
    ensures FlatAfter(b, fields, ps).0 != a && b != a
  {
    hide Picked, FieldsApart, Carries;
    var j :| 0 <= j < |fields| && Overlooked(fields[j]) && b[j] != a[j];
    OverlookedKey(a, fields, FlatChanges(b, a, fields, moved), j);
    NotNamedStays(b, fields, ps, j);
  }

  // Where DiffPoints overlooks a change it is lost, whatever the times of the points.
  lemma {:induction false} LostNames(b: Value, a: Value, ft: FieldType, v: View, ps: seq<Point>)
    requires HasType(b, ft) && HasType(a, ft) && GoodType(ft) && NamesApart(ft) && ViewOf(b, a, v)
    requires Written(ps, DiffEntries(b, a, ft, v)) && !NamesKept(b, a, ft)
    ensures AfterPoints(b, ft, ps) != (a, Done)
  {
    hide Picked, GroupOf, FieldsApart, Written, FlatAfter, ValidFields, OverlookedStay;
    GroupMeans(ps);
    match ft
    case Flat(fields) => LostField(b.cs, a.cs, fields, v.moved, ps);
    case FlatPtr(fields) =>
      if a.VFlat? {
        LostField(b.cs, a.cs, fields, v.moved, ps);
      } else {
        var j :| 0 <= j < |fields| && Overlooked(fields[j]);
        var nils: seq<Cell> := seq(|fields|, i => None);
        assert Tombstones(DiffKeys(fields)) == FlatEntries(nils, DiffKeys(fields));
        OverlookedKey(nils, fields, seq(|fields|, i => true), j);
        NotNamedLives(fields, ps, Tombstones(DiffKeys(fields)), j);
      }
    case _ =>
  }
}
