// What decoding does with points that have different keys, field by field: the result is the
// wanted value exactly when none of its elements had to be written as a tombstone where a
// tombstone means that the element goes away.
module Patches {
  import opened Decimal
  import opened Decoding
  import opened Encoding
  import opened Fields
  import opened Wrappers

  ghost predicate DistinctKeys(es: seq<Entry>) {
    forall i, j :: 0 <= i < j < |es| ==> es[i].key != es[j].key
  }

  function AsMap(es: seq<Entry>): map<string, Cell> {
    if es == [] then map[] else AsMap(es[..|es| - 1])[es[|es| - 1].key := es[|es| - 1].cell]
  }

  // ps are points for the entries es, whatever their times.
  ghost predicate Written(ps: seq<Point>, es: seq<Entry>) {
    |ps| == |es| && forall i :: 0 <= i < |es| ==> ps[i].key == es[i].key && Carries(ps[i], es[i].cell)
  }

  // The cells fit a field with cells of one type.
  ghost predicate Fits(es: seq<Entry>, ct: CellType) {
    forall i :: 0 <= i < |es| ==> Safe(es[i].cell) && (es[i].cell.Some? ==> ScalarHas(es[i].cell.value, ct.kind))
  }

  lemma {:induction false} AsMapKeys(es: seq<Entry>)
    ensures forall k :: k in AsMap(es) ==> exists i :: 0 <= i < |es| && es[i].key == k && es[i].cell == AsMap(es)[k]
    ensures forall i :: 0 <= i < |es| ==> es[i].key in AsMap(es)
    ensures DistinctKeys(es) ==> forall i :: 0 <= i < |es| ==> AsMap(es)[es[i].key] == es[i].cell
  {
    if es != [] {
      var n := |es| - 1;
      var before := es[..n];
      AsMapKeys(before);
      forall k | k in AsMap(es)
        ensures exists i :: 0 <= i < |es| && es[i].key == k && es[i].cell == AsMap(es)[k]
      {
        if k == es[n].key {
          assert es[n].key == k;
        } else {
          var i :| 0 <= i < |before| && before[i].key == k && before[i].cell == AsMap(before)[k];
          assert es[i].key == k;
        }
      }
      forall i | 0 <= i < |es|
        ensures es[i].key in AsMap(es)
        ensures DistinctKeys(es) ==> AsMap(es)[es[i].key] == es[i].cell
      {
        if i < n {
          assert before[i] == es[i];
        }
      }
    }
  }

  // The map without its first entry.
  lemma {:induction false} AsMapTail(es: seq<Entry>, k: string)
    requires es != [] && DistinctKeys(es)
    ensures DistinctKeys(es[1..])
    ensures k in AsMap(es) <==> k == es[0].key || k in AsMap(es[1..])
    ensures k in AsMap(es) ==> AsMap(es)[k] == (if k == es[0].key then es[0].cell else AsMap(es[1..])[k])
    ensures es[0].key !in AsMap(es[1..])
  {
    hide AsMap;
    AsMapKeys(es);
    AsMapKeys(es[1..]);
    if k in AsMap(es) && k != es[0].key {
      var i :| 0 <= i < |es| && es[i].key == k;
      assert es[1..][i - 1].key == k;
    }
    if k in AsMap(es[1..]) {
      var i :| 0 <= i < |es[1..]| && es[1..][i].key == k;
      assert es[i + 1].key == k;
    }
  }

  // ----- maps -----

  function DictPatched(m: map<string, Cell>, mp: map<string, Cell>, k: string): Option<Cell> {
    if k in mp then (if mp[k].None? then None else Some(mp[k]))
    else if k in m then Some(m[k]) else None
  }

  lemma {:induction false} PatchedFirst(m: map<string, Cell>, es: seq<Entry>, k: string)
    requires es != [] && DistinctKeys(es)
    ensures
      var m' := if es[0].cell.None? then m - {es[0].key} else m[es[0].key := es[0].cell];
      DictPatched(m', AsMap(es[1..]), k) == DictPatched(m, AsMap(es), k)
  {
    hide AsMap;
    AsMapTail(es, k);
  }

  lemma {:induction false} PutEachWrites(m: map<string, Cell>, ct: CellType, ps: seq<Point>, es: seq<Entry>)
    requires Written(ps, es) && Fits(es, ct) && DistinctKeys(es)
    requires forall i :: 0 <= i < |es| ==> es[i].key != ""
    ensures PutEach(m, ct, ps).1 == Done
    ensures forall k :: Lookup(PutEach(m, ct, ps).0, k) == DictPatched(m, AsMap(es), k)
    decreases |ps|
  {
    if ps != [] {
      hide AsMap, SetVal, Carries, ScalarHas, Safe;
      SetValReads(ps[0], es[0].cell, ct, ZeroCell(ct));
      var key := es[0].key;
      var m' := if es[0].cell.None? then m - {key} else m[key := es[0].cell];
      assert PutEach(m, ct, ps) == PutEach(m', ct, ps[1..]);
      AsMapTail(es, key);
      PutEachWrites(m', ct, ps[1..], es[1..]);
      hide PutEach, DictPatched;
      forall k
        ensures DictPatched(m', AsMap(es[1..]), k) == DictPatched(m, AsMap(es), k)
      {
        PatchedFirst(m, es, k);
      }
    }
  }

  // Every key whose value differs is written, and only with the wanted value.
  ghost predicate DictPatch(b: map<string, Cell>, a: map<string, Cell>, mp: map<string, Cell>) {
    && (forall k :: k in mp ==> mp[k] == if k in a then a[k] else None)
    && (forall k :: k !in mp ==> Lookup(a, k) == Lookup(b, k))
  }

  ghost predicate DictKept(a: map<string, Cell>, mp: map<string, Cell>) {
    forall k :: k in mp && k in a ==> mp[k].Some?
  }

  lemma {:induction false} DictMerges(b: map<string, Cell>, a: map<string, Cell>, ct: CellType, ps: seq<Point>,
          es: seq<Entry>)
    requires Written(ps, es) && Fits(es, ct) && DistinctKeys(es)
    requires forall i :: 0 <= i < |es| ==> es[i].key != ""
    requires DictPatch(b, a, AsMap(es))
    ensures DictAfter(b, ct, ps).1 == if |es| <= MAX_STRUCTURE_SIZE then Done else Failed
    ensures DictAfter(b, ct, ps) == (a, Done) <==> |es| <= MAX_STRUCTURE_SIZE && DictKept(a, AsMap(es))
  {
    if |es| <= MAX_STRUCTURE_SIZE {
      PutEachWrites(b, ct, ps, es);
      var r := PutEach(b, ct, ps).0;
      var mp := AsMap(es);
      if DictKept(a, mp) {
        assert forall k :: Lookup(r, k) == Lookup(a, k);
        SameMap(r, a);
      } else {
        var k :| k in mp && k in a && mp[k].None?;
        assert Lookup(r, k) == None;
      }
    }
  }

  lemma {:induction false} SameMap(m: map<string, Cell>, a: map<string, Cell>)
    requires forall k :: Lookup(m, k) == Lookup(a, k)
    ensures m == a
  {
    assert forall k :: k in m <==> k in a by {
      forall k
        ensures k in m <==> k in a
      {
        assert Lookup(m, k) == Lookup(a, k);
      }
    }
    forall k | k in m
      ensures m[k] == a[k]
    {
      assert Lookup(m, k) == Lookup(a, k);
    }
  }

  // ----- structs -----

  lemma {:induction false} LastByKeyOf(ps: seq<Point>, es: seq<Entry>)
    requires Written(ps, es)
    ensures LastByKey(ps).Keys == AsMap(es).Keys
    ensures forall k :: k in AsMap(es) ==> Carries(LastByKey(ps)[k], AsMap(es)[k])
  {
    hide Carries;
    if ps != [] {
      var n := |ps| - 1;
      var before, last := AsMap(es[..n]), es[n];
      LastByKeyOf(ps[..n], es[..n]);
      assert AsMap(es) == before[last.key := last.cell];
      assert LastByKey(ps) == LastByKey(ps[..n])[last.key := ps[n]];
    }
  }

  function FlatPatched(c: Cell, f: Inner, mp: map<string, Cell>): Cell {
    if Key(f) in mp then Meant(mp[Key(f)], f.cell) else c
  }

  // A struct may have fields of different types: the value for a field fits that field.
  ghost predicate FitsFields(mp: map<string, Cell>, fields: seq<Inner>) {
    forall i :: 0 <= i < |fields| && Key(fields[i]) in mp ==>
      var c := mp[Key(fields[i])];
      Safe(c) && (c.Some? ==> ScalarHas(c.value, fields[i].cell.kind))
  }

  // The name of a field is never blank, and so no key is.
  ghost predicate Keyed(fields: seq<Inner>) {
    forall i :: 0 <= i < |fields| ==> fields[i].camel != ""
  }

  lemma {:induction false} SetFieldsWrites(cs: seq<Cell>, fields: seq<Inner>, i: nat, values: map<string, Point>,
          mp: map<string, Cell>)
    requires |cs| == |fields| && i <= |cs| && Keyed(fields)
    requires values.Keys == mp.Keys && forall k :: k in mp ==> Carries(values[k], mp[k])
    requires FitsFields(mp, fields)
    ensures SetFields(cs, fields, i, values).1 == Done
    ensures forall j :: 0 <= j < |cs| ==>
      SetFields(cs, fields, i, values).0[j] == if j < i then cs[j] else FlatPatched(cs[j], fields[j], mp)
    decreases |fields| - i
  {
    if i < |fields| {
      var key := Key(fields[i]);
      if key in mp {
        SetValReads(values[key], mp[key], fields[i].cell, cs[i]);
        SetFieldsWrites(cs[i := Meant(mp[key], fields[i].cell)], fields, i + 1, values, mp);
      } else {
        SetFieldsWrites(cs, fields, i + 1, values, mp);
      }
    }
  }

  ghost predicate FlatPatch(b: seq<Cell>, a: seq<Cell>, fields: seq<Inner>, mp: map<string, Cell>) {
    && |b| == |a| == |fields|
    && forall i :: 0 <= i < |fields| ==> (if Key(fields[i]) in mp then mp[Key(fields[i])] == a[i] else b[i] == a[i])
  }

  lemma {:induction false} FlatMerges(b: seq<Cell>, a: seq<Cell>, fields: seq<Inner>, ps: seq<Point>, es: seq<Entry>)
    requires Written(ps, es) && Keyed(fields) && FitsFields(AsMap(es), fields)
    requires FlatPatch(b, a, fields, AsMap(es)) && FlatHas(a, fields)
    ensures FlatAfter(b, fields, ps) == (a, Done)
  {
    LastByKeyOf(ps, es);
    SetFieldsWrites(b, fields, 0, LastByKey(ps), AsMap(es));
    assert FlatAfter(b, fields, ps).0 == a;
  }

  lemma {:induction false} ValidFieldsOf(fields: seq<Inner>, ps: seq<Point>, es: seq<Entry>, k: string)
    requires Written(ps, es)
    ensures k in ValidFields(fields, ps) <==>
      if k in AsMap(es) then AsMap(es)[k].Some? else exists i :: 0 <= i < |fields| && Key(fields[i]) == k
  {
    if ps != [] {
      hide Carries;
      var n := |ps| - 1;
      assert ps[n].key == es[n].key && (Deleted(ps[n]) <==> es[n].cell.None?) by {
        assert Carries(ps[n], es[n].cell);
        CarriesDeleted(ps[n], es[n].cell);
      }
      hide Deleted;
      ValidFieldsOf(fields, ps[..n], es[..n], k);
    }
  }

  lemma {:induction false} CarriesDeleted(p: Point, c: Cell)
    requires Carries(p, c)
    ensures Deleted(p) <==> c.None?
  {
  }

  // Some field of the struct is not tombstoned.
  ghost predicate StructKept(fields: seq<Inner>, mp: map<string, Cell>) {
    exists i :: 0 <= i < |fields| && (Key(fields[i]) in mp ==> mp[Key(fields[i])].Some?)
  }

  lemma {:induction false} ValidFieldsEmpty(fields: seq<Inner>, ps: seq<Point>, es: seq<Entry>)
    requires Written(ps, es)
    ensures StructKept(fields, AsMap(es)) ==> ValidFields(fields, ps) != {}
    ensures
      && !StructKept(fields, AsMap(es))
      && (forall k :: k in AsMap(es) ==> exists i :: 0 <= i < |fields| && Key(fields[i]) == k) ==>
      ValidFields(fields, ps) == {}
  {
    if StructKept(fields, AsMap(es)) {
      var i :| 0 <= i < |fields| && (Key(fields[i]) in AsMap(es) ==> AsMap(es)[Key(fields[i])].Some?);
      ValidFieldsOf(fields, ps, es, Key(fields[i]));
    } else if forall k :: k in AsMap(es) ==> exists i :: 0 <= i < |fields| && Key(fields[i]) == k {
      forall k
        ensures k !in ValidFields(fields, ps)
      {
        ValidFieldsOf(fields, ps, es, k);
      }
    }
  }

  // ----- lists -----

  // Every key is the text of an index.
  ghost predicate Indexed(es: seq<Entry>) {
    forall i :: 0 <= i < |es| ==> IndexOf(es[i].key) <= MAX_INT64 && es[i].key == Itoa(IndexOf(es[i].key))
  }

  function ListPatched(cs: seq<Cell>, ct: CellType, mp: map<string, Cell>, j: nat): Cell
    requires j < |cs|
  {
    if Itoa(j) in mp then Meant(mp[Itoa(j)], ct) else cs[j]
  }

  lemma {:induction false} IndexOfItoa(j: nat)
    requires j <= MAX_INT64
    ensures IndexOf(Itoa(j)) == j && !NotIndex(Itoa(j)) && Itoa(j) != ""
  {
    AtoiOfItoa(j);
  }

  lemma {:induction false} SetAllWrites(cs: seq<Cell>, ct: CellType, ps: seq<Point>, es: seq<Entry>)
    requires Written(ps, es) && Fits(es, ct) && DistinctKeys(es) && Indexed(es) && |cs| <= MAX_INT64
    requires forall i :: 0 <= i < |es| && es[i].cell.Some? ==> IndexOf(es[i].key) < |cs|
    ensures SetAll(cs, ct, ps).1 == Done
    ensures forall j :: 0 <= j < |cs| ==> SetAll(cs, ct, ps).0[j] == ListPatched(cs, ct, AsMap(es), j)
    decreases |ps|
  {
    if ps != [] {
      hide ListPatched, AsMap, SetVal, Meant, Written, Fits, DistinctKeys, Indexed, IndexOf;
      var at := IndexOf(es[0].key);
      FirstWritten(ct, ps, es, if at < |cs| then cs[at] else ZeroCell(ct));
      var cs' := if at < |cs| then cs[at := Meant(es[0].cell, ct)] else cs;
      assert SetAll(cs, ct, ps) == SetAll(cs', ct, ps[1..]);
      SetAllWrites(cs', ct, ps[1..], es[1..]);
      forall j | 0 <= j < |cs|
        ensures SetAll(cs, ct, ps).0[j] == ListPatched(cs, ct, AsMap(es), j)
      {
        PatchedTail(cs, ct, es, j);
      }
    }
  }

  lemma {:induction false} FirstWritten(ct: CellType, ps: seq<Point>, es: seq<Entry>, before: Cell)
    requires ps != [] && Written(ps, es) && Fits(es, ct) && DistinctKeys(es) && Indexed(es)
    ensures |ps| == |es| && ps[0].key == es[0].key
    ensures SetVal(ps[0], ct, before) == (Meant(es[0].cell, ct), true)
    ensures Deleted(ps[0]) <==> es[0].cell.None?
    ensures Written(ps[1..], es[1..]) && Fits(es[1..], ct) && DistinctKeys(es[1..]) && Indexed(es[1..])
  {
    hide SetVal, Carries, ScalarHas, Safe, IndexOf;
    SetValReads(ps[0], es[0].cell, ct, before);
  }

  lemma {:induction false} PatchedTail(cs: seq<Cell>, ct: CellType, es: seq<Entry>, j: nat)
    requires es != [] && DistinctKeys(es) && Indexed(es) && j < |cs| <= MAX_INT64
    ensures
      var at := IndexOf(es[0].key);
      var cs' := if at < |cs| then cs[at := Meant(es[0].cell, ct)] else cs;
      ListPatched(cs, ct, AsMap(es), j) == ListPatched(cs', ct, AsMap(es[1..]), j)
  {
    hide AsMap, Meant;
    IndexOfItoa(j);
    AsMapTail(es, Itoa(j));
  }

  // Elements that differ are written with the wanted value, and every element behind the end
  // of the wanted list is deleted.
  ghost predicate ListPatch(b: seq<Cell>, a: seq<Cell>, mp: map<string, Cell>) {
    && (forall j :: 0 <= j < |a| ==> if Itoa(j) in mp then mp[Itoa(j)] == a[j] else j < |b| && b[j] == a[j])
    && (forall j :: |a| <= j < |b| ==> Itoa(j) in mp && mp[Itoa(j)] == None)
  }

  ghost predicate InLists(b: seq<Cell>, a: seq<Cell>, es: seq<Entry>) {
    && Indexed(es)
    && forall i :: 0 <= i < |es| ==>
      var j := IndexOf(es[i].key);
      (j < |a| && es[i].cell == a[j]) || (|a| <= j < |b| && es[i].cell == None)
  }

  ghost predicate ListKept(a: seq<Cell>, mp: map<string, Cell>) {
    a != [] && Itoa(|a| - 1) in mp ==> mp[Itoa(|a| - 1)].Some?
  }

  lemma {:induction false} GroupOfList(b: seq<Cell>, a: seq<Cell>, ps: seq<Point>, es: seq<Entry>)
    requires Written(ps, es) && InLists(b, a, es) && |a| <= MAX_STRUCTURE_SIZE
    ensures !Refused(GroupOf(ps)) && Room(GroupOf(ps)) <= |a| && GroupOf(ps).points == ps
    ensures forall i :: 0 <= i < |es| && es[i].cell.Some? ==> IndexOf(es[i].key) < Room(GroupOf(ps))
    ensures forall i :: 0 <= i < |es| ==> (Deleted(ps[i]) <==> es[i].cell.None?)
  {
    hide GroupOf, Carries;
    GroupMeans(ps);
    forall i | 0 <= i < |ps|
      ensures !NotIndex(ps[i].key) && ps[i].key != "" && (Deleted(ps[i]) <==> es[i].cell.None?)
      ensures Grows(ps[i]) <==> es[i].cell.Some?
    {
      IndexOfItoa(IndexOf(es[i].key));
      CarriedTombstone(ps[i], es[i].cell);
    }
  }

  lemma {:induction false} CarriedTombstone(p: Point, c: Cell)
    requires Carries(p, c)
    ensures Deleted(p) <==> c.None?
    ensures Even(p) <==> c.Some?
  {
  }

  // Which elements the points delete.
  lemma {:induction false} DeletedIn(ps: seq<Point>, es: seq<Entry>, j: nat)
    requires Written(ps, es) && Indexed(es) && DistinctKeys(es) && j <= MAX_INT64
    requires forall i :: 0 <= i < |es| ==> (Deleted(ps[i]) <==> es[i].cell.None?)
    ensures j in DeletedIndexes(ps) <==> Itoa(j) in AsMap(es) && AsMap(es)[Itoa(j)].None?
  {
    AsMapKeys(es);
    IndexOfItoa(j);
    if j in DeletedIndexes(ps) {
      var i :| 0 <= i < |ps| && Deleted(ps[i]) && IndexOf(ps[i].key) == j;
      assert es[i].key == Itoa(j);
    }
    if Itoa(j) in AsMap(es) && AsMap(es)[Itoa(j)].None? {
      var i :| 0 <= i < |es| && es[i].key == Itoa(j) && es[i].cell == AsMap(es)[Itoa(j)];
      assert Deleted(ps[i]) && IndexOf(ps[i].key) == j;
    }
  }

  // The list is cut to the wanted length exactly if its last element is not deleted.
  lemma {:induction false} TrimsTo(n: nat, a: nat, deleted: set<int>)
    requires forall j :: a <= j < n ==> j in deleted
    ensures TrimLength(n, deleted) == a <==> a <= n && (a > 0 ==> a - 1 !in deleted)
  {
  }

  lemma {:induction false} ListGrows(b: seq<Cell>, a: seq<Cell>, ps: seq<Point>, es: seq<Entry>)
    requires Written(ps, es) && InLists(b, a, es) && |a| <= MAX_STRUCTURE_SIZE && |b| <= MAX_INT64
    requires DistinctKeys(es) && ListPatch(b, a, AsMap(es)) && ListKept(a, AsMap(es))
    ensures |a| <= |b| || |a| == Room(GroupOf(ps))
  {
    GroupOfList(b, a, ps, es);
    if |a| > |b| {
      var last := |a| - 1;
      IndexOfItoa(last);
      AsMapKeys(es);
      var i :| 0 <= i < |es| && es[i].key == Itoa(last) && es[i].cell == AsMap(es)[Itoa(last)];
      assert es[i].cell.Some?;
    }
  }

  lemma {:induction false} ListMerges(b: seq<Cell>, a: seq<Cell>, ct: CellType, ps: seq<Point>, es: seq<Entry>)
    requires Written(ps, es) && Fits(es, ct) && DistinctKeys(es) && InLists(b, a, es)
    requires |a| <= MAX_STRUCTURE_SIZE && |b| <= MAX_INT64 && ListPatch(b, a, AsMap(es))
    requires forall j :: 0 <= j < |a| ==> CellHas(a[j], ct)
    ensures SliceAfter(b, ct, GroupOf(ps)).1 == Done
    ensures SliceAfter(b, ct, GroupOf(ps)) == (a, Done) <==> ListKept(a, AsMap(es))
  {
    hide GroupOf, AsMap, SetAll, TrimLength, DeletedIndexes, Room, Refused;
    var g, mp := GroupOf(ps), AsMap(es);
    GroupOfList(b, a, ps, es);
    var padded := Pad(b, Room(g), ct);
    SetAllWrites(padded, ct, ps, es);
    var all, deleted := SetAll(padded, ct, ps).0, DeletedIndexes(ps);
    forall j | |a| <= j < |all|
      ensures j in deleted
    {
      DeletedIn(ps, es, j);
    }
    TrimsTo(|all|, |a|, deleted);
    if a != [] {
      DeletedIn(ps, es, |a| - 1);
    }
    if ListKept(a, mp) {
      ListGrows(b, a, ps, es);
      ListIsWanted(b, a, ct, mp, padded, all);
    }
  }

  lemma {:induction false} ListIsWanted(b: seq<Cell>, a: seq<Cell>, ct: CellType, mp: map<string, Cell>,
          padded: seq<Cell>, all: seq<Cell>)
    requires ListPatch(b, a, mp) && |all| == |padded| >= |a| && |padded| >= |b| && padded[..|b|] == b
    requires forall j :: 0 <= j < |a| ==> CellHas(a[j], ct)
    requires forall j :: 0 <= j < |padded| ==> all[j] == ListPatched(padded, ct, mp, j)
    ensures all[..|a|] == a
  {
    forall j | 0 <= j < |a|
      ensures all[j] == a[j]
    {
      assert all[j] == ListPatched(padded, ct, mp, j);
      if Itoa(j) !in mp {
        assert padded[j] == padded[..|b|][j];
      }
    }
  }
}
