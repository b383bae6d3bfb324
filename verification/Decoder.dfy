// Decode as it runs (data/decode.go): points are grouped by type, and the fields of the output
// struct are set one after the other, in place.
module Decoder {
  import opened Capacity
  import opened Decoding
  import opened Fields
  import opened Wrappers

  // ----- grouping -----

  method GroupPoints(pts: seq<Point>) returns (groups: map<string, Group>)
    ensures forall tag :: tag in groups <==> Typed(pts, tag) != []
    ensures forall tag :: tag in groups ==> groups[tag] == GroupOf(Typed(pts, tag))
  {
    groups := map[];
    for i := 0 to |pts|
      invariant forall tag :: tag in groups <==> Typed(pts[..i], tag) != []
      invariant forall tag :: tag in groups ==> groups[tag] == GroupOf(Typed(pts[..i], tag))
    {
      hide Typed, GroupOf, Decoding.Add;
      var p := pts[i];
      NextTyped(pts, i);
      var g := if p.typ in groups then groups[p.typ] else Group("", -1, []);
      ghost var before := Typed(pts[..i], p.typ);
      NextGroup(before, p);
      assert g == GroupOf(before);
      g := AddToGroup(g, p);
      groups := groups[p.typ := g];
    }
    assert pts[..|pts|] == pts;
  }

  method AddToGroup(g: Group, p: Point) returns (r: Group)
    ensures r == Decoding.Add(g, p)
  {
    r := g;
    if p.key != "" {
      if NotIndex(p.key) {
        r := r.(keyNotIndex := p.key);
      } else if IndexOf(p.key) > r.keyMaxInt && Even(p) {
        r := r.(keyMaxInt := IndexOf(p.key));
      }
    }
    r := r.(points := r.points + [p]);
  }

  lemma {:induction false} NextTyped(pts: seq<Point>, i: nat)
    requires i < |pts|
    ensures forall tag :: pts[i].typ == tag ==> Typed(pts[..i + 1], tag) == Typed(pts[..i], tag) + [pts[i]]
    ensures forall tag :: pts[i].typ != tag ==> Typed(pts[..i + 1], tag) == Typed(pts[..i], tag)
  {
    assert pts[..i + 1][..i] == pts[..i] && pts[..i + 1][i] == pts[i];
  }

  lemma {:induction false} NextGroup(before: seq<Point>, p: Point)
    ensures GroupOf([]) == Group("", -1, [])
    ensures GroupOf(before + [p]) == Decoding.Add(GroupOf(before), p)
  {
    assert (before + [p])[..|before|] == before;
  }

  // ----- scalars, maps, structs -----

  method SetPrim(c: Cell, ct: CellType, ps: seq<Point>) returns (r: Cell, o: Outcome)
    ensures (r, o) == PrimAfter(c, ct, ps)
  {
    r := c;
    assert ps[0..] == ps;
    for i := 0 to |ps|
      invariant PrimAfter(r, ct, ps[i..]) == PrimAfter(c, ct, ps)
    {
      assert ps[i..][1..] == ps[i + 1..];
      var ok;
      r, ok := SetVal(ps[i], ct, r).0, SetVal(ps[i], ct, r).1;
      if !ok {
        return r, Failed;
      }
    }
    o := Done;
  }

  method SetDict(m: map<string, Cell>, ct: CellType, ps: seq<Point>) returns (r: map<string, Cell>, o: Outcome)
    ensures (r, o) == DictAfter(m, ct, ps)
  {
    r := m;
    if |ps| > MAX_STRUCTURE_SIZE {
      return r, Failed;
    }
    assert ps[0..] == ps;
    for i := 0 to |ps|
      invariant PutEach(r, ct, ps[i..]) == PutEach(m, ct, ps)
    {
      assert ps[i..][1..] == ps[i + 1..];
      var key := DictKey(ps[i]);
      if Deleted(ps[i]) {
        r := r - {key};
      } else {
        var (c, ok) := SetVal(ps[i], ct, ZeroCell(ct));
        if !ok {
          return r, Failed;
        }
        r := r[key := c];
      }
    }
    o := Done;
  }

  method SetFlat(cs: seq<Cell>, fields: seq<Inner>, ps: seq<Point>) returns (r: seq<Cell>, o: Outcome)
    requires |cs| == |fields|
    ensures (r, o) == FlatAfter(cs, fields, ps)
    ensures |r| == |cs|
  {
    var values: map<string, Point> := map[];
    for i := 0 to |ps|
      invariant values == LastByKey(ps[..i])
    {
      assert ps[..i + 1][..i] == ps[..i];
      values := values[ps[i].key := ps[i]];
    }
    assert ps[..|ps|] == ps;
    r := cs;
    for i := 0 to |fields|
      invariant |r| == |cs| && SetFields(r, fields, i, values) == SetFields(cs, fields, 0, values)
    {
      var key := Key(fields[i]);
      if key == "" {
        return r, Failed;
      }
      if key in values {
        var (c, ok) := SetVal(values[key], fields[i].cell, r[i]);
        r := r[i := c];
        if !ok {
          return r, Failed;
        }
      }
    }
    o := Done;
  }

  method FindValid(fields: seq<Inner>, ps: seq<Point>) returns (valid: set<string>)
    ensures valid == ValidFields(fields, ps)
  {
    valid := {};
    for i := 0 to |fields|
      invariant valid == set j | 0 <= j < i :: Key(fields[j])
    {
      valid := valid + {Key(fields[i])};
    }
    for i := 0 to |ps|
      invariant valid == ValidFields(fields, ps[..i])
    {
      assert ps[..i + 1][..i] == ps[..i];
      if Deleted(ps[i]) {
        valid := valid - {ps[i].key};
      } else {
        valid := valid + {ps[i].key};
      }
    }
    assert ps[..|ps|] == ps;
  }

  // ----- trimming -----

  predicate Sorted(s: seq<nat>) { forall i, j :: 0 <= i < j < |s| ==> s[i] <= s[j] }

  function Insert(x: nat, s: seq<nat>): (r: seq<nat>)
    requires Sorted(s)
    ensures Sorted(r) && forall y :: y in r <==> y == x || y in s
  {
    if s == [] then [x]
    else
      SortedFirst(s);
      if x <= s[0] then
        PutFirst(x, s);
        [x] + s
      else
        var t := Insert(x, s[1..]);
        PutFirst(s[0], t);
        [s[0]] + t
  }

  lemma {:induction false} SortedFirst(s: seq<nat>)
    requires s != [] && Sorted(s)
    ensures Sorted(s[1..]) && s == [s[0]] + s[1..] && forall y :: y in s ==> s[0] <= y
  {
  }

  lemma {:induction false} PutFirst(x: nat, s: seq<nat>)
    requires Sorted(s) && forall y :: y in s ==> x <= y
    ensures Sorted([x] + s) && forall y :: y in [x] + s <==> y == x || y in s
  {
    assert forall i :: 0 <= i < |s| ==> s[i] in s;
  }

  // slices.Sort
  function Sort(s: seq<nat>): (r: seq<nat>)
    ensures Sorted(r) && forall y :: y in r <==> y in s
  {
    if s == [] then []
    else
      assert s == [s[0]] + s[1..];
      Insert(s[0], Sort(s[1..]))
  }

  // Going down the sorted indices: an index is dropped if it is the last one.
  method Trim(n: nat, deletedIndexes: seq<nat>, ghost deleted: set<int>) returns (r: nat)
    requires forall d :: d in deletedIndexes <==> d in deleted
    ensures r == TrimLength(n, deleted)
  {
    hide TrimLength, Sorted;
    var sorted := Sort(deletedIndexes);
    var lastIndex: int := n - 1;
    for i := |sorted| downto 0
      invariant -1 <= lastIndex < n
      invariant TrimLength(n, deleted) == TrimLength(lastIndex + 1, deleted)
      invariant forall j :: i <= j < |sorted| ==> sorted[j] > lastIndex
    {
      assert sorted[i] in deleted;
      if sorted[i] < lastIndex {
        NotSorted(sorted, i, lastIndex);
        break;
      } else if sorted[i] == lastIndex {
        TrimStep(lastIndex + 1, deleted);
        lastIndex := lastIndex - 1;
      }
    }
    assert lastIndex !in sorted && lastIndex !in deleted;
    TrimStep(lastIndex + 1, deleted);
    return lastIndex + 1;
  }

  lemma {:induction false} TrimStep(n: nat, deleted: set<int>)
    ensures TrimLength(n, deleted) == if n > 0 && n - 1 in deleted then TrimLength(n - 1, deleted) else n
  {
  }

  lemma {:induction false} NotSorted(s: seq<nat>, i: nat, x: int)
    requires i < |s| && s[i] < x && forall j :: i < j < |s| ==> s[j] > x
    requires Sorted(s)
    ensures x !in s
  {
  }

  // ----- one field of the output struct -----

  class Var {
    const field: Field
    var val: Value           // unless the field is a list:
    var back: array<Cell>    // its backing store
    var len: nat             // and its length

    constructor (field: Field)
      ensures this.field == field && Valid() && Spare() && fresh(back)
      ensures Get() == ZeroValue(field.ft)
    {
      this.field := field;
      val := ZeroValue(field.ft);
      back := new Cell[0];
      len := 0;
    }

    ghost predicate Valid()
      reads this
    {
      len <= back.Length && Shaped(if field.ft.Slice? then VSlice([]) else val, field.ft)
    }

    ghost function Get(): Value
      reads this, back
      requires Valid()
    {
      if field.ft.Slice? then VSlice(back[..len]) else val
    }

    // What lies behind the end of a list is zero.
    ghost predicate Spare()
      reads this, back
      requires Valid()
    {
      field.ft.Slice? ==> Clean(back[..], len, field.ft.cell)
    }

    method GrowTo(n: nat, ct: CellType)
      requires Valid() && n >= len
      modifies this`back, this`len
      ensures Valid() && len == n && (back == old(back) || fresh(back))
      ensures back[..] == if n <= |old(back[..])| then old(back[..]) else Pad(old(back[..len]), n, ct)
    {
      if n <= back.Length {
        len := n;
      } else {
        var newV := new Cell[n](_ => ZeroCell(ct));
        for i := 0 to len
          invariant back == old(back) && len == old(len) && i <= len <= back.Length && newV != back
          invariant forall j :: 0 <= j < i ==> newV[j] == back[j]
          invariant forall j :: i <= j < n ==> newV[j] == ZeroCell(ct)
          invariant back[..] == old(back[..])
        {
          newV[i] := back[i];
        }
        ghost var padded := Pad(back[..len], n, ct);
        forall j | 0 <= j < n
          ensures newV[j] == padded[j]
        {
          if j < len {
            assert padded[..len][j] == back[..len][j];
          }
        }
        back, len := newV, n;
        assert back[..] == padded;
      }
    }

    method SetElements(ps: seq<Point>, ct: CellType) returns (deletedIndexes: seq<nat>, o: Outcome)
      requires Valid()
      modifies back
      ensures (back[..len], o) == SetAll(old(back[..len]), ct, ps)
      ensures back[len..] == old(back[len..])
      ensures o.Done? ==> forall d :: d in deletedIndexes <==> d in DeletedIndexes(ps)
    {
      hide SetVal, IndexOf, Deleted;
      deletedIndexes := [];
      assert ps[0..] == ps;
      for k := 0 to |ps|
        invariant SetAll(back[..len], ct, ps[k..]) == SetAll(old(back[..len]), ct, ps)
        invariant back[len..] == old(back[len..])
        invariant forall d :: d in deletedIndexes <==> d in DeletedIndexes(ps[..k])
      {
        var p := ps[k];
        assert ps[k..][1..] == ps[k + 1..] && ps[k..][0] == p;
        MoreDeleted(ps, k);
        var index := IndexOf(p.key);
        if Deleted(p) {
          deletedIndexes := deletedIndexes + [index];
          if index >= len {
            continue;
          }
        } else if index >= len {
          return deletedIndexes, Panic;
        }
        var (c, ok) := SetVal(p, ct, back[index]);
        ghost var before := back[..len];
        back[index] := c;
        assert back[..len] == before[index := c];
        if !ok {
          return deletedIndexes, Failed;
        }
      }
      assert ps[..|ps|] == ps;
      o := Done;
    }

    method SetSlice(g: Group, ct: CellType) returns (o: Outcome)
      requires Valid()
      modifies this`back, this`len, back
      ensures Valid() && (back == old(back) || fresh(back))
      ensures (back[..], len, o) == BufferAfter(old(back[..]), old(len), ct, g)
    {
      hide SetAll, TrimLength, DeletedIndexes;
      if g.keyNotIndex != "" || g.keyMaxInt > MAX_STRUCTURE_SIZE {
        return Failed;
      }
      ghost var n := Grown(len, g);
      ghost var grown := if n <= |back[..]| then back[..] else Pad(back[..len], n, ct);
      if g.keyMaxInt > len - 1 {
        GrowTo(g.keyMaxInt + 1, ct);
      }
      assert len == n && back[..] == grown && back[..len] == grown[..n] && back[len..] == grown[n..];
      var deletedIndexes;
      deletedIndexes, o := SetElements(g.points, ct);
      assert back[..] == back[..len] + back[len..];
      if o.Done? {
        len := Trim(len, deletedIndexes, DeletedIndexes(g.points));
      }
    }

    // SetValue of a group of points.
    method SetValue(g: Group) returns (o: Outcome)
      requires Valid() && Spare()
      modifies this`val, this`back, this`len, back
      ensures Valid() && (back == old(back) || fresh(back))
      ensures (Get(), o) == ValueAfter(old(Get()), field.ft, g)
      ensures Spare() <==> (field.ft.Slice? ==> KeepsClean(old(len), field.ft.cell, g))
    {
      hide PrimAfter, SliceAfter, DictAfter, FlatAfter, ValidFields, BufferAfter, KeepsClean, Clean;
      match field.ft
      case Prim(ct) =>
        var c;
        c, o := SetPrim(val.c, ct, g.points);
        val := VPrim(c);
      case Slice(ct) =>
        ReuseIsCopy(back[..], len, ct, g);
        StaysCleanIff(back[..], len, ct, g);
        assert back[..][..len] == back[..len];
        o := SetSlice(g, ct);
        assert back[..][..len] == back[..len];
      case Dict(ct) =>
        var m;
        m, o := SetDict(val.m, ct, g.points);
        val := VDict(m);
      case Flat(fields) =>
        var cs;
        cs, o := SetFlat(val.cs, fields, g.points);
        val := VFlat(cs);
      case FlatPtr(fields) =>
        var valid := FindValid(fields, g.points);
        if valid == {} {
          val := VNil;
          return Done;
        }
        if val.VNil? {
          val := VFlat(ZeroCells(fields));
        }
        var cs;
        cs, o := SetFlat(val.cs, fields, g.points);
        val := VFlat(cs);
    }
  }

  // ----- the output struct -----

  ghost function Footprint(vars: seq<Var>): set<object>
    reads vars
  {
    set i | 0 <= i < |vars| :: vars[i].back
  }

  // The fields do not share storage.
  ghost predicate Separate(vars: seq<Var>)
    reads vars
  {
    && (forall i :: 0 <= i < |vars| ==> vars[i].Valid())
    && (forall i, j :: 0 <= i < j < |vars| ==> vars[i] != vars[j] && vars[i].back != vars[j].back)
  }

  ghost predicate Spare(vars: seq<Var>)
    reads vars, Footprint(vars)
    requires Separate(vars)
  {
    forall i :: 0 <= i < |vars| ==> vars[i].Spare()
  }

  ghost function Gets(vars: seq<Var>): (vs: seq<Value>)
    reads vars, Footprint(vars)
    requires Separate(vars)
    ensures |vs| == |vars| && forall i :: 0 <= i < |vs| ==> vs[i] == vars[i].Get()
  {
    seq(|vars|, i requires 0 <= i < |vars| reads vars, Footprint(vars) requires vars[i].Valid() => vars[i].Get())
  }

  ghost function Types(vars: seq<Var>): (st: seq<Field>)
    ensures |st| == |vars| && forall i :: 0 <= i < |st| ==> st[i] == vars[i].field
  {
    seq(|vars|, i requires 0 <= i < |vars| => vars[i].field)
  }

  lemma {:induction false} GetsShaped(vars: seq<Var>)
    requires Separate(vars)
    ensures AllShaped(Gets(vars), Types(vars))
  {
  }

  // One field is set; the others, and what lies behind their ends, stay as they are.
  method SetField(vars: seq<Var>, i: nat, groups: map<string, Group>, ghost pts: seq<Point>) returns (o: Outcome)
    requires Separate(vars) && i < |vars| && vars[i].Spare()
    requires forall tag :: tag in groups <==> Typed(pts, tag) != []
    requires forall tag :: tag in groups ==> groups[tag] == GroupOf(Typed(pts, tag))
    modifies vars[i], vars[i].back
    ensures Separate(vars) && (vars[i].back == old(vars[i].back) || fresh(vars[i].back))
    ensures forall j :: 0 <= j < |vars| && j != i ==> vars[j].back == old(vars[j].back)
    ensures
      var (v, fo) := FieldAfter(old(vars[i].Get()), vars[i].field, pts);
      Gets(vars) == old(Gets(vars))[i := v] && o == fo
    ensures NoLateSet(Typed(pts, vars[i].field.tag)) ==> vars[i].Spare()
    ensures forall j :: 0 <= j < |vars| && j != i && old(vars[j].Spare()) ==> vars[j].Spare()
  {
    hide ValueAfter, NoLateSet, Typed, GroupOf, Clean, KeepsClean;
    var f := vars[i].field;
    GroupMeans(Typed(pts, f.tag));
    o := Done;
    if f.ft.Slice? && NoLateSet(Typed(pts, f.tag)) {
      NoLateSetKeeps(vars[i].len, f.ft.cell, GroupOf(Typed(pts, f.tag)));
    }
    if f.tag in groups {
      o := vars[i].SetValue(groups[f.tag]);
    }
  }

  // i fields are done, got is what the fields hold, and the rest of Decode gives the whole.
  ghost predicate Progress(vs: seq<Value>, st: seq<Field>, pts: seq<Point>, i: nat, got: seq<Value>, acc: Outcome) {
    && |vs| == |st| == |got| && i <= |st| && AllShaped(vs, st) && AllShaped(got[i..], st[i..]) && !acc.Panic?
    && var rest := FieldsAfter(got[i..], st[i..], pts);
       FieldsAfter(vs, st, pts) == (got[..i] + rest.0, Worse(acc, rest.1))
  }

  lemma {:induction false} NoProgress(vs: seq<Value>, st: seq<Field>, pts: seq<Point>)
    requires AllShaped(vs, st)
    ensures Progress(vs, st, pts, 0, vs, Done)
  {
    hide FieldsAfter;
    assert vs[0..] == vs && st[0..] == st && vs[..0] == [];
    var all := FieldsAfter(vs, st, pts);
    assert [] + all.0 == all.0;
  }

  lemma {:induction false} FirstField(got: seq<Value>, st: seq<Field>, pts: seq<Point>, i: nat)
    requires |got| == |st| && i < |st| && AllShaped(got[i..], st[i..])
    ensures Shaped(got[i], st[i].ft) && AllShaped(got[i + 1..], st[i + 1..])
    ensures
      var (v, o) := FieldAfter(got[i], st[i], pts);
      var rest := FieldsAfter(got[i + 1..], st[i + 1..], pts);
      FieldsAfter(got[i..], st[i..], pts) ==
        (if o.Panic? then ([v] + got[i + 1..], Panic) else ([v] + rest.0, Worse(o, rest.1)))
  {
    hide FieldAfter, Shaped;
    assert got[i..][1..] == got[i + 1..] && st[i..][1..] == st[i + 1..];
    assert got[i..][0] == got[i] && st[i..][0] == st[i];
  }

  lemma {:induction false} NextField(vs: seq<Value>, st: seq<Field>, pts: seq<Point>, i: nat, got: seq<Value>,
          acc: Outcome)
    requires Progress(vs, st, pts, i, got, acc) && i < |st|
    ensures Shaped(got[i], st[i].ft)
    ensures
      var (v, o) := FieldAfter(got[i], st[i], pts);
      if o.Panic? then FieldsAfter(vs, st, pts) == (got[i := v], Panic)
      else Progress(vs, st, pts, i + 1, got[i := v], Worse(acc, o))
  {
    hide FieldAfter, FieldsAfter, AllShaped, Shaped;
    FirstField(got, st, pts, i);
    var v := FieldAfter(got[i], st[i], pts).0;
    var rest := FieldsAfter(got[i + 1..], st[i + 1..], pts);
    Replaced(got, i, v, rest.0);
    Replaced(got, i, v, got[i + 1..]);
  }

  lemma {:induction false} Replaced(got: seq<Value>, i: nat, v: Value, rest: seq<Value>)
    requires i < |got|
    ensures got[i := v][i + 1..] == got[i + 1..]
    ensures got[..i] + ([v] + rest) == got[i := v][..i + 1] + rest
    ensures got[i := v] == got[i := v][..i + 1] + got[i + 1..]
  {
  }

  lemma {:induction false} AllDone(vs: seq<Value>, st: seq<Field>, pts: seq<Point>, got: seq<Value>, acc: Outcome)
    requires Progress(vs, st, pts, |st|, got, acc)
    ensures FieldsAfter(vs, st, pts) == (got, acc)
  {
    assert got[|st|..] == [] && st[|st|..] == [] && got[..|st|] == got;
    assert got + [] == got;
  }

  // Decode: an error in one field is remembered and the next field is set.  Afterwards the
  // lists have zeros behind their ends again, unless an element was deleted and then set.
  method Decode(vars: seq<Var>, pts: seq<Point>) returns (o: Outcome)
    requires Separate(vars) && Spare(vars)
    modifies vars, Footprint(vars)
    ensures Separate(vars)
    ensures AllShaped(old(Gets(vars)), Types(vars))
    ensures (Gets(vars), o) == FieldsAfter(old(Gets(vars)), Types(vars), pts)
    ensures (forall i :: 0 <= i < |vars| ==> NoLateSet(Typed(pts, vars[i].field.tag))) ==> Spare(vars)
  {
    hide FieldsAfter, FieldAfter, NoLateSet, Typed, GroupOf, Clean, AllShaped, Shaped, Progress, Var.Spare, Var.Get;
    ghost var vs, st := Gets(vars), Types(vars);
    GetsShaped(vars);
    NoProgress(vs, st, pts);
    var groups := GroupPoints(pts);
    o := Done;
    for i := 0 to |vars|
      invariant Separate(vars) && Progress(vs, st, pts, i, Gets(vars), o)
      invariant forall j :: 0 <= j < |vars| ==> vars[j].back == old(vars[j].back) || fresh(vars[j].back)
      invariant forall j :: i <= j < |vars| ==> vars[j].Spare()
      invariant forall j :: 0 <= j < i && NoLateSet(Typed(pts, vars[j].field.tag)) ==> vars[j].Spare()
    {
      NextField(vs, st, pts, i, Gets(vars), o);
      var fo := SetField(vars, i, groups, pts);
      if fo.Panic? {
        return Panic;
      }
      o := Worse(o, fo);
    }
    AllDone(vs, st, pts, Gets(vars), o);
  }

  lemma {:induction false} MoreDeleted(ps: seq<Point>, k: nat)
    requires k < |ps|
    ensures DeletedIndexes(ps[..k + 1]) == DeletedIndexes(ps[..k]) + (if Deleted(ps[k]) then {IndexOf(ps[k].key)} else {})
  {
    hide Deleted, IndexOf;
    var a, b := ps[..k], ps[..k + 1];
    forall d | d in DeletedIndexes(a)
      ensures d in DeletedIndexes(b)
    {
      var i :| 0 <= i < |a| && Deleted(a[i]) && IndexOf(a[i].key) == d;
      assert b[i] == a[i];
    }
    forall d | d in DeletedIndexes(b)
      ensures d in DeletedIndexes(a) || (Deleted(ps[k]) && d == IndexOf(ps[k].key))
    {
      var i :| 0 <= i < |b| && Deleted(b[i]) && IndexOf(b[i].key) == d;
      if i < k {
        assert a[i] == b[i];
      }
    }
    if Deleted(ps[k]) {
      assert Deleted(b[k]) && IndexOf(b[k].key) in DeletedIndexes(b);
    }
  }
}
