// One field, encoded or compared and decoded again.
module FieldLaws {
  import opened Decimal
  import opened Decoding
  import opened Encoding
  import opened Fields
  import opened Patches
  import opened Wrappers

  // ----- any patch -----

  // The entries lead from b to a: what differs is among them, with the value it has in a.
  ghost predicate PatchOf(b: Value, a: Value, ft: FieldType, es: seq<Entry>)
    requires Shaped(b, ft) && Shaped(a, ft)
  {
    match ft
    case Prim(_) => if es == [] then b == a else |es| == 1 && es[0].cell == a.c
    case Slice(_) => |a.cs| <= MAX_STRUCTURE_SIZE && InLists(b.cs, a.cs, es) && ListPatch(b.cs, a.cs, AsMap(es))
    case Dict(_) => DictPatch(b.m, a.m, AsMap(es)) && forall i :: 0 <= i < |es| ==> es[i].key != ""
    case Flat(fields) => FlatPatch(b.cs, a.cs, fields, AsMap(es))
    case FlatPtr(fields) =>
      && (OnlyKeys(fields, AsMap(es)) || StructKept(fields, AsMap(es)))
      && if a.VNil? then es != [] ==> AllDeleted(fields, AsMap(es))
         else FlatPatch(if b.VNil? then ZeroCells(fields) else b.cs, a.cs, fields, AsMap(es))
  }

  ghost predicate OnlyKeys(fields: seq<Inner>, mp: map<string, Cell>) {
    forall k :: k in mp ==> exists i :: 0 <= i < |fields| && Key(fields[i]) == k
  }

  ghost predicate AllDeleted(fields: seq<Inner>, mp: map<string, Cell>) {
    forall i :: 0 <= i < |fields| ==> Key(fields[i]) in mp && mp[Key(fields[i])].None?
  }

  // Nothing that is to stay is deleted.
  ghost predicate Kept(b: Value, a: Value, ft: FieldType, es: seq<Entry>)
    requires Shaped(b, ft) && Shaped(a, ft)
  {
    match ft
    case Prim(_) => true
    case Slice(_) => ListKept(a.cs, AsMap(es))
    case Dict(_) => |es| <= MAX_STRUCTURE_SIZE && DictKept(a.m, AsMap(es))
    case Flat(_) => true
    case FlatPtr(fields) =>
      if es == [] then a.VNil? == b.VNil?
      else a.VFlat? ==> StructKept(fields, AsMap(es))
  }

  ghost predicate KeyedType(ft: FieldType) {
    match ft
    case Flat(fields) => Keyed(fields)
    case FlatPtr(fields) => Keyed(fields)
    case _ => true
  }

  function AfterPoints(b: Value, ft: FieldType, ps: seq<Point>): (Value, Outcome)
    requires Shaped(b, ft)
  {
    if ps == [] then (b, Done) else ValueAfter(b, ft, GroupOf(ps))
  }

  // The points ps carry a patch from b to a.
  ghost predicate Merges(b: Value, a: Value, ft: FieldType, ps: seq<Point>, es: seq<Entry>) {
    && HasType(b, ft) && HasType(a, ft) && KeyedType(ft)
    && Written(ps, es) && DistinctKeys(es) && AllSafe(es) && PatchOf(b, a, ft, es)
  }

  // Decoding the points of a patch gives the wanted value exactly if everything is kept.
  lemma {:induction false} FieldMerges(b: Value, a: Value, ft: FieldType, ps: seq<Point>, es: seq<Entry>)
    requires Merges(b, a, ft, ps, es)
    ensures AfterPoints(b, ft, ps).1 == (if ft.Dict? && |es| > MAX_STRUCTURE_SIZE then Failed else Done)
    ensures AfterPoints(b, ft, ps) == (a, Done) <==> Kept(b, a, ft, es)
  {
    hide HasType, PatchOf, KeyedType, AfterPoints, ListKept, DictKept, StructKept, AllSafe, Written, DistinctKeys, AsMap;
    if es == [] {
      EmptyIsDone(b, a, ft, ps, es);
    } else {
      match ft
      case Prim(ct) => PrimCase(b, a, ct, ps, es);
      case Slice(ct) => SliceCase(b, a, ct, ps, es);
      case Dict(ct) => DictCase(b, a, ct, ps, es);
      case Flat(fields) => FlatCase(b, a, fields, ps, es);
      case FlatPtr(fields) => PointerCase(b, a, fields, ps, es);
    }
  }

  lemma {:induction false} EmptyIsDone(b: Value, a: Value, ft: FieldType, ps: seq<Point>, es: seq<Entry>)
    requires Merges(b, a, ft, ps, es) && es == []
    ensures AfterPoints(b, ft, ps).1 == Done
    ensures AfterPoints(b, ft, ps) == (a, Done) <==> Kept(b, a, ft, es)
  {
    EmptyPatch(b, a, ft);
  }

  lemma {:induction false} PrimCase(b: Value, a: Value, ct: CellType, ps: seq<Point>, es: seq<Entry>)
    requires Merges(b, a, Prim(ct), ps, es) && es != []
    ensures AfterPoints(b, Prim(ct), ps) == (a, Done)
  {
    hide PrimAfter, GroupOf, Carries;
    GroupMeans(ps);
    PrimMerges(b.c, a.c, ct, ps, es);
  }

  lemma {:induction false} PrimMerges(b: Cell, a: Cell, ct: CellType, ps: seq<Point>, es: seq<Entry>)
    requires Written(ps, es) && |es| == 1 && es[0].cell == a && Safe(a) && CellHas(a, ct)
    ensures PrimAfter(b, ct, ps) == (a, Done)
  {
    SetValReads(ps[0], a, ct, b);
    assert ps[1..] == [];
  }

  lemma {:induction false} SliceCase(b: Value, a: Value, ct: CellType, ps: seq<Point>, es: seq<Entry>)
    requires Merges(b, a, Slice(ct), ps, es) && es != []
    ensures AfterPoints(b, Slice(ct), ps).1 == Done
    ensures AfterPoints(b, Slice(ct), ps) == (a, Done) <==> ListKept(a.cs, AsMap(es))
  {
    hide AsMap, SliceAfter, GroupOf, Carries, ListPatch, ListKept;
    ListMerges(b.cs, a.cs, ct, ps, es);
  }

  lemma {:induction false} DictCase(b: Value, a: Value, ct: CellType, ps: seq<Point>, es: seq<Entry>)
    requires Merges(b, a, Dict(ct), ps, es) && es != []
    ensures AfterPoints(b, Dict(ct), ps).1 == if |es| <= MAX_STRUCTURE_SIZE then Done else Failed
    ensures AfterPoints(b, Dict(ct), ps) == (a, Done) <==> |es| <= MAX_STRUCTURE_SIZE && DictKept(a.m, AsMap(es))
  {
    hide AsMap, DictAfter, GroupOf, Carries, DictKept;
    AsMapKeys(es);
    GroupMeans(ps);
    assert Fits(es, ct) by {
      forall i | 0 <= i < |es|
        ensures es[i].cell.Some? ==> ScalarHas(es[i].cell.value, ct.kind)
      {
        assert AsMap(es)[es[i].key] == es[i].cell;
      }
    }
    DictMerges(b.m, a.m, ct, ps, es);
  }

  lemma {:induction false} FieldsFit(a: seq<Cell>, fields: seq<Inner>, es: seq<Entry>)
    requires DistinctKeys(es) && AllSafe(es) && FlatHas(a, fields)
    requires forall i :: 0 <= i < |fields| && Key(fields[i]) in AsMap(es) ==> AsMap(es)[Key(fields[i])] == a[i]
    ensures FitsFields(AsMap(es), fields)
  {
    hide AsMap;
    AsMapKeys(es);
  }

  lemma {:induction false} FlatCase(b: Value, a: Value, fields: seq<Inner>, ps: seq<Point>, es: seq<Entry>)
    requires Merges(b, a, Flat(fields), ps, es) && es != []
    ensures AfterPoints(b, Flat(fields), ps) == (a, Done)
  {
    hide AsMap, FlatAfter, GroupOf, Carries, FlatHas;
    GroupMeans(ps);
    FieldsFit(a.cs, fields, es);
    FlatMerges(b.cs, a.cs, fields, ps, es);
  }

  lemma {:induction false} PointerCase(b: Value, a: Value, fields: seq<Inner>, ps: seq<Point>, es: seq<Entry>)
    requires Merges(b, a, FlatPtr(fields), ps, es) && es != []
    ensures AfterPoints(b, FlatPtr(fields), ps).1 == Done
    ensures AfterPoints(b, FlatPtr(fields), ps) == (a, Done) <==> (a.VFlat? ==> StructKept(fields, AsMap(es)))
  {
    hide AsMap, FlatAfter, GroupOf, Carries, FlatHas, ValidFields, ZeroCells;
    GroupMeans(ps);
    ValidFieldsEmpty(fields, ps, es);
    assert StructKept(fields, AsMap(es)) ==> ValidFields(fields, GroupOf(ps).points) != {};
    if a.VFlat? {
      FieldsFit(a.cs, fields, es);
      FlatMerges(if b.VNil? then ZeroCells(fields) else b.cs, a.cs, fields, ps, es);
    } else {
      NothingKept(fields, AsMap(es));
      assert ValidFields(fields, GroupOf(ps).points) == {};
    }
  }

  lemma {:induction false} NothingKept(fields: seq<Inner>, mp: map<string, Cell>)
    requires AllDeleted(fields, mp)
    ensures !StructKept(fields, mp)
  {
  }

  lemma {:induction false} EmptyPatch(b: Value, a: Value, ft: FieldType)
    requires HasType(b, ft) && HasType(a, ft) && PatchOf(b, a, ft, [])
    ensures b == a <==> Kept(b, a, ft, [])
  {
    match ft
    case Prim(_) =>
    case Slice(_) =>
      SameList(b.cs, a.cs);
    case Dict(_) =>
      assert forall k :: Lookup(a.m, k) == Lookup(b.m, k);
      SameMap(a.m, b.m);
    case Flat(fields) =>
      assert b.cs == a.cs;
    case FlatPtr(fields) =>
      if a.VFlat? && b.VFlat? {
        assert b.cs == a.cs;
      }
  }

  lemma {:induction false} SameList(b: seq<Cell>, a: seq<Cell>)
    requires ListPatch(b, a, map[])
    ensures b == a
  {
    var k, l := Itoa(|a|), Itoa(|b|);
    assert |a| == |b|;
    forall j | 0 <= j < |a|
      ensures b[j] == a[j]
    {
      var k := Itoa(j);
    }
  }

  // ----- membership -----

  lemma {:induction false} AsMapIs(es: seq<Entry>, k: string, c: Cell)
    requires DistinctKeys(es)
    ensures Entry(k, c) in es <==> k in AsMap(es) && AsMap(es)[k] == c
  {
    AsMapKeys(es);
  }

  lemma {:induction false} PickedDistinct(es: seq<Entry>, pick: seq<bool>)
    requires |es| == |pick| && DistinctKeys(es)
    ensures DistinctKeys(Picked(es, pick))
  {
    if es != [] {
      var n := |es| - 1;
      PickedDistinct(es[..n], pick[..n]);
      forall e | e in Picked(es[..n], pick[..n])
        ensures e.key != es[n].key
      {
        InPicked(es[..n], pick[..n], e);
      }
    }
  }

  lemma {:induction false} JoinDistinct(a: seq<Entry>, b: seq<Entry>)
    requires DistinctKeys(a) && DistinctKeys(b)
    requires forall e, f :: e in a && f in b ==> e.key != f.key
    ensures DistinctKeys(a + b)
  {
    forall i, j | 0 <= i < j < |a + b|
      ensures (a + b)[i].key != (a + b)[j].key
    {
      if i < |a| && j >= |a| {
        assert (a + b)[i] in a && (a + b)[j] in b;
      }
    }
  }

  lemma {:induction false} ItoaDiffers(i: nat, j: nat)
    requires i <= MAX_INT64 && j <= MAX_INT64 && i != j
    ensures Itoa(i) != Itoa(j)
  {
    AtoiOfItoa(i);
    AtoiOfItoa(j);
  }

  lemma {:induction false} ListDistinct(cs: seq<Cell>)
    requires |cs| <= MAX_INT64
    ensures DistinctKeys(ListEntries(cs))
  {
    forall i, j | 0 <= i < j < |cs|
      ensures ListEntries(cs)[i].key != ListEntries(cs)[j].key
    {
      ItoaDiffers(i, j);
    }
  }
}
