// Points into the fields of a struct (data/decode.go): what each kind of field becomes.
module Decoding {
  import opened Decimal
  import opened Fields
  import opened Wrappers

  datatype Outcome = Done | Failed | Panic

  // ----- groups of points -----

  datatype Group = Group(keyNotIndex: string, keyMaxInt: int, points: seq<Point>)

  predicate NotIndex(key: string) {
    key != "" && (Atoi(key).None? || Atoi(key).value < 0)
  }

  function IndexOf(key: string): nat {
    if Atoi(key).None? || Atoi(key).value < 0 then 0 else Atoi(key).value
  }

  // A point that a list has to be long enough for.
  predicate Grows(p: Point) { p.key != "" && !NotIndex(p.key) && Even(p) }

  function Add(g: Group, p: Point): Group {
    Group(
      if NotIndex(p.key) then p.key else g.keyNotIndex,
      if Grows(p) && IndexOf(p.key) > g.keyMaxInt then IndexOf(p.key) else g.keyMaxInt,
      g.points + [p])
  }

  function GroupOf(ps: seq<Point>): Group {
    if ps == [] then Group("", -1, []) else Add(GroupOf(ps[..|ps| - 1]), ps[|ps| - 1])
  }

  // The points of one type, in order.
  function Typed(pts: seq<Point>, tag: string): seq<Point> {
    if pts == [] then []
    else
      var rest := Typed(pts[..|pts| - 1], tag);
      if pts[|pts| - 1].typ == tag then rest + [pts[|pts| - 1]] else rest
  }

  // Which keys are indices, and of what: numbers that are not negative, with a sign or zeros in
  // front or without, and up to 64 bits.  A blank key counts as 0 but is not looked at.
  lemma {:induction false} KeysOfLists(sign: string, zeros: string, n: nat)
    requires sign in {"", "+", "-"} && forall i :: 0 <= i < |zeros| ==> zeros[i] == '0'
    ensures
      var key := sign + zeros + Itoa(n);
      && (NotIndex(key) <==> (sign == "-" && n > 0) || n > 9223372036854775807)
      && (!NotIndex(key) ==> IndexOf(key) == n)
    ensures !NotIndex("") && IndexOf("") == 0
  {
    ItoaStarts(n);
    AtoiOfSigned(sign, zeros, n);
    AtoiAccepts("");
    assert |sign + zeros + Itoa(n)| >= |Itoa(n)|;
  }

  // A key with anything else in it is none.
  lemma {:induction false} OtherKeys(key: string)
    requires !NotIndex(key) && key != ""
    ensures
      var t := if key[0] == '-' || key[0] == '+' then key[1..] else key;
      t != "" && forall i :: 0 <= i < |t| ==> '0' <= t[i] <= '9'
  {
    AtoiAccepts(key);
  }

  lemma {:induction false} GroupMeans(ps: seq<Point>)
    ensures GroupOf(ps).points == ps
    ensures GroupOf(ps).keyNotIndex != "" <==> exists i :: 0 <= i < |ps| && NotIndex(ps[i].key)
    ensures GroupOf(ps).keyMaxInt >= -1
    ensures forall i :: 0 <= i < |ps| && Grows(ps[i]) ==> IndexOf(ps[i].key) <= GroupOf(ps).keyMaxInt
    ensures GroupOf(ps).keyMaxInt >= 0 ==>
      exists i :: 0 <= i < |ps| && Grows(ps[i]) && IndexOf(ps[i].key) == GroupOf(ps).keyMaxInt
  {
    hide Grows, NotIndex, IndexOf, GroupOf;
    GroupKeeps(ps);
    GroupKeys(ps);
    GroupMax(ps);
  }

  lemma {:induction false} LastAdded(ps: seq<Point>)
    requires ps != []
    ensures GroupOf(ps) == Add(GroupOf(ps[..|ps| - 1]), ps[|ps| - 1])
  {
    hide Add;
  }

  lemma {:induction false} NoGroup()
    ensures GroupOf([]) == Group("", -1, [])
  {
  }

  lemma {:induction false} GroupKeeps(ps: seq<Point>)
    ensures GroupOf(ps).points == ps
  {
    hide Grows, NotIndex, IndexOf, GroupOf;
    if ps == [] {
      NoGroup();
    } else {
      var before, last := ps[..|ps| - 1], ps[|ps| - 1];
      GroupKeeps(before);
      LastAdded(ps);
      assert ps == before + [last];
    }
  }

  lemma {:induction false} GroupKeys(ps: seq<Point>)
    ensures GroupOf(ps).keyNotIndex != "" <==> exists i :: 0 <= i < |ps| && NotIndex(ps[i].key)
  {
    hide Grows, IndexOf;
    if ps != [] {
      var n := |ps| - 1;
      var before := ps[..n];
      GroupKeys(before);
      assert NotIndex("") == false;
      assert forall i :: 0 <= i < n ==> ps[i] == before[i];
      if i :| 0 <= i < n && NotIndex(before[i].key) {
        assert NotIndex(ps[i].key);
      }
    }
  }

  lemma {:induction false} GroupMax(ps: seq<Point>)
    ensures var max := GroupOf(ps).keyMaxInt;
      && max >= -1
      && (forall i :: 0 <= i < |ps| && Grows(ps[i]) ==> IndexOf(ps[i].key) <= max)
      && (max >= 0 ==> exists i :: 0 <= i < |ps| && Grows(ps[i]) && IndexOf(ps[i].key) == max)
  {
    hide Grows, IndexOf, NotIndex;
    if ps != [] {
      var n := |ps| - 1;
      var before := ps[..n];
      GroupMax(before);
      var max := GroupOf(ps).keyMaxInt;
      assert forall i :: 0 <= i < n ==> ps[i] == before[i];
      if max > GroupOf(before).keyMaxInt {
        assert Grows(ps[n]) && IndexOf(ps[n].key) == max;
      } else if max >= 0 {
        var i :| 0 <= i < |before| && Grows(before[i]) && IndexOf(before[i].key) == max;
        assert Grows(ps[i]);
      }
    }
  }

  // ----- scalars, lists -----

  function PrimAfter(c: Cell, ct: CellType, ps: seq<Point>): (Cell, Outcome)
    decreases |ps|
  {
    if ps == [] then (c, Done)
    else
      var (c', ok) := SetVal(ps[0], ct, c);
      if ok then PrimAfter(c', ct, ps[1..]) else (c', Failed)
  }

  // A deleted element that lies behind the end is skipped; an index that lies there otherwise
  // (a point without a key counts as index 0 and does not make the list grow) is a panic.
  function SetAll(cs: seq<Cell>, ct: CellType, ps: seq<Point>): (r: (seq<Cell>, Outcome))
    ensures |r.0| == |cs|
    decreases |ps|
  {
    if ps == [] then (cs, Done)
    else
      var at := IndexOf(ps[0].key);
      if at >= |cs| then
        if Deleted(ps[0]) then SetAll(cs, ct, ps[1..]) else (cs, Panic)
      else
        var (c, ok) := SetVal(ps[0], ct, cs[at]);
        if ok then SetAll(cs[at := c], ct, ps[1..]) else (cs[at := c], Failed)
  }

  function DeletedIndexes(ps: seq<Point>): set<int> {
    set i | 0 <= i < |ps| && Deleted(ps[i]) :: IndexOf(ps[i].key)
  }

  // The length that is left when elements at the end are dropped as long as they are deleted.
  function TrimLength(n: nat, deleted: set<int>): (r: nat)
    ensures r <= n
    ensures forall i :: r <= i < n ==> i in deleted
    ensures r > 0 ==> r - 1 !in deleted
  {
    if n > 0 && n - 1 in deleted then TrimLength(n - 1, deleted) else n
  }

  function Pad(cs: seq<Cell>, n: nat, ct: CellType): (r: seq<Cell>)
    ensures |r| == if n > |cs| then n else |cs|
    ensures r[..|cs|] == cs
    ensures forall i :: |cs| <= i < |r| ==> r[i] == ZeroCell(ct)
  {
    if n > |cs| then cs + seq(n - |cs|, i => ZeroCell(ct)) else cs
  }

  predicate Refused(g: Group) {
    g.keyNotIndex != "" || g.keyMaxInt > MAX_STRUCTURE_SIZE
  }

  function Room(g: Group): nat { if g.keyMaxInt < 0 then 0 else g.keyMaxInt + 1 }

  // A list, where growing means copying to a new list that is zero behind the old elements.
  function SliceAfter(cs: seq<Cell>, ct: CellType, g: Group): (seq<Cell>, Outcome) {
    if Refused(g) then (cs, Failed)
    else
      var (all, o) := SetAll(Pad(cs, Room(g), ct), ct, g.points);
      (if o.Done? then all[..TrimLength(|all|, DeletedIndexes(g.points))] else all, o)
  }

  // ----- maps, structs -----

  function DictKey(p: Point): string { if p.key == "" then "0" else p.key }

  function PutEach(m: map<string, Cell>, ct: CellType, ps: seq<Point>): (map<string, Cell>, Outcome)
    decreases |ps|
  {
    if ps == [] then (m, Done)
    else if Deleted(ps[0]) then PutEach(m - {DictKey(ps[0])}, ct, ps[1..])
    else
      var (c, ok) := SetVal(ps[0], ct, ZeroCell(ct));
      if ok then PutEach(m[DictKey(ps[0]) := c], ct, ps[1..]) else (m, Failed)
  }

  function DictAfter(m: map<string, Cell>, ct: CellType, ps: seq<Point>): (map<string, Cell>, Outcome) {
    if |ps| > MAX_STRUCTURE_SIZE then (m, Failed) else PutEach(m, ct, ps)
  }

  function LastByKey(ps: seq<Point>): map<string, Point> {
    if ps == [] then map[] else LastByKey(ps[..|ps| - 1])[ps[|ps| - 1].key := ps[|ps| - 1]]
  }

  function SetFields(cs: seq<Cell>, fields: seq<Inner>, i: nat, values: map<string, Point>): (r: (seq<Cell>, Outcome))
    requires |cs| == |fields| && i <= |cs|
    ensures |r.0| == |cs|
    decreases |fields| - i
  {
    if i == |fields| then (cs, Done)
    else
      var key := Key(fields[i]);
      if key == "" then (cs, Failed)
      else if key !in values then SetFields(cs, fields, i + 1, values)
      else
        var (c, ok) := SetVal(values[key], fields[i].cell, cs[i]);
        if ok then SetFields(cs[i := c], fields, i + 1, values) else (cs[i := c], Failed)
  }

  function FlatAfter(cs: seq<Cell>, fields: seq<Inner>, ps: seq<Point>): (r: (seq<Cell>, Outcome))
    requires |cs| == |fields|
    ensures |r.0| == |cs|
  {
    SetFields(cs, fields, 0, LastByKey(ps))
  }

  // The keys that are not tombstoned, starting from all the fields.
  function ValidFields(fields: seq<Inner>, ps: seq<Point>): set<string> {
    if ps == [] then set i | 0 <= i < |fields| :: Key(fields[i])
    else
      var p := ps[|ps| - 1];
      var before := ValidFields(fields, ps[..|ps| - 1]);
      if Deleted(p) then before - {p.key} else before + {p.key}
  }

  // ----- what setting maps and structs gives -----

  predicate Readable(p: Point, ct: CellType) { Deleted(p) || SetVal(p, ct, ZeroCell(ct)).1 }

  function Lookup(m: map<string, Cell>, k: string): Option<Cell> {
    if k in m then Some(m[k]) else None
  }

  // The last point for a key of a map.
  function LastPut(ps: seq<Point>, k: string): Option<Point> {
    if ps == [] then None
    else
      var p := ps[|ps| - 1];
      if DictKey(p) == k then Some(p) else LastPut(ps[..|ps| - 1], k)
  }

  lemma {:induction false} LastPutIs(ps: seq<Point>, k: string)
    ensures
      var r := LastPut(ps, k);
      && (r.None? <==> forall i :: 0 <= i < |ps| ==> DictKey(ps[i]) != k)
      && (r.Some? ==> exists i :: (0 <= i < |ps| && ps[i] == r.value && DictKey(ps[i]) == k
            && forall j :: i < j < |ps| ==> DictKey(ps[j]) != k))
  {
    hide DictKey;
    if ps != [] {
      var n := |ps| - 1;
      var before := ps[..n];
      LastPutIs(before, k);
      assert forall i :: 0 <= i < n ==> ps[i] == before[i];
      if DictKey(ps[n]) == k {
        assert LastPut(ps, k) == Some(ps[n]);
      } else if LastPut(before, k).Some? {
        var i :| 0 <= i < |before| && before[i] == LastPut(before, k).value && DictKey(before[i]) == k
          && forall j :: i < j < |before| ==> DictKey(before[j]) != k;
        assert ps[i] == before[i];
      }
    }
  }

  function Put(was: Option<Cell>, ct: CellType, p: Option<Point>): Option<Cell> {
    match p
    case None => was
    case Some(q) => if Deleted(q) then None else Some(SetVal(q, ct, ZeroCell(ct)).0)
  }

  lemma {:induction false} LastPutFirst(ps: seq<Point>, k: string)
    requires ps != []
    ensures LastPut(ps, k) ==
      if LastPut(ps[1..], k).Some? then LastPut(ps[1..], k) else if DictKey(ps[0]) == k then Some(ps[0]) else None
  {
    hide DictKey;
    if |ps| > 1 {
      var n := |ps| - 1;
      LastPutFirst(ps[..n], k);
      assert ps[..n][1..] == ps[1..][..n - 1] && ps[1..][n - 1] == ps[n];
    }
  }

  // A map takes its points up to the first that does not fit; of those taken the last for a key
  // decides what the map holds under it.
  lemma {:induction false} PutEachHolds(m: map<string, Cell>, ct: CellType, ps: seq<Point>, k: string)
    ensures
      var (r, o), n := PutEach(m, ct, ps), FirstUnreadable(ct, ps);
      && o == (if n == |ps| then Done else Failed)
      && Lookup(r, k) == Put(Lookup(m, k), ct, LastPut(ps[..n], k))
    decreases |ps|
  {
    hide SetVal, LastPut, DictKey;
    var n := FirstUnreadable(ct, ps);
    if n > 0 {
      var m' := PutOne(m, ct, ps[0]);
      PutEachHolds(m', ct, ps[1..], k);
      assert FirstUnreadable(ct, ps[1..]) == n - 1;
      assert PutEach(m, ct, ps) == PutEach(m', ct, ps[1..]);
      assert ps[..n][1..] == ps[1..][..n - 1] && ps[..n][0] == ps[0];
      LastPutFirst(ps[..n], k);
      assert Lookup(m', k) == if DictKey(ps[0]) == k then Put(Lookup(m, k), ct, Some(ps[0])) else Lookup(m, k);
    } else {
      assert LastPut([], k) == None by { LastPutNone(k); }
      assert ps[..0] == [];
    }
  }

  lemma {:induction false} LastPutNone(k: string)
    ensures LastPut([], k) == None
  {
  }

  function PutOne(m: map<string, Cell>, ct: CellType, p: Point): map<string, Cell> {
    if Deleted(p) then m - {DictKey(p)} else m[DictKey(p) := SetVal(p, ct, ZeroCell(ct)).0]
  }

  function FirstUnreadable(ct: CellType, ps: seq<Point>): (n: nat)
    ensures n <= |ps| && forall i :: 0 <= i < n ==> Readable(ps[i], ct)
    ensures n < |ps| ==> !Readable(ps[n], ct)
  {
    if ps == [] || !Readable(ps[0], ct) then 0 else 1 + FirstUnreadable(ct, ps[1..])
  }

  lemma {:induction false} DictHolds(m: map<string, Cell>, ct: CellType, ps: seq<Point>)
    ensures
      var (r, o), n := DictAfter(m, ct, ps), FirstUnreadable(ct, ps);
      && (o == Done <==> |ps| <= 1000 && forall i :: 0 <= i < |ps| ==> Readable(ps[i], ct))
      && (|ps| > 1000 ==> r == m)
      && (|ps| <= 1000 ==> forall k :: Lookup(r, k) == Put(Lookup(m, k), ct, LastPut(ps[..n], k)))
  {
    hide PutEach, Readable, Put;
    forall k
      ensures |ps| <= MAX_STRUCTURE_SIZE ==>
        Lookup(DictAfter(m, ct, ps).0, k) == Put(Lookup(m, k), ct, LastPut(ps[..FirstUnreadable(ct, ps)], k))
    {
      PutEachHolds(m, ct, ps, k);
    }
    PutEachHolds(m, ct, ps, "");
  }

  // LastByKey holds the last point for a key.
  lemma {:induction false} LastByKeyIs(ps: seq<Point>, k: string)
    ensures k !in LastByKey(ps) <==> forall i :: 0 <= i < |ps| ==> ps[i].key != k
    ensures k in LastByKey(ps) ==> exists i :: (0 <= i < |ps| && ps[i] == LastByKey(ps)[k] && ps[i].key == k
      && forall j :: i < j < |ps| ==> ps[j].key != k)
  {
    if ps != [] {
      var n := |ps| - 1;
      var last, before := ps[n], ps[..n];
      assert LastByKey(ps) == LastByKey(before)[last.key := last];
      LastByKeyIs(before, k);
      assert forall i :: 0 <= i < n ==> ps[i] == before[i];
      if last.key != k && k in LastByKey(before) {
        var i :| 0 <= i < n && before[i] == LastByKey(before)[k] && before[i].key == k
          && forall j :: i < j < n ==> before[j].key != k;
        assert ps[i] == LastByKey(ps)[k];
      }
    }
  }

  // A field that has a key and whose last point, if it has one, fits.
  predicate FieldTaken(f: Inner, last: map<string, Point>) {
    Key(f) != "" && (Key(f) in last ==> SetVal(last[Key(f)], f.cell, ZeroCell(f.cell)).1)
  }

  function FieldPut(c: Cell, f: Inner, last: map<string, Point>): Cell {
    if Key(f) in last then SetVal(last[Key(f)], f.cell, c).0 else c
  }

  function FirstUntaken(fields: seq<Inner>, i: nat, last: map<string, Point>): (n: nat)
    requires i <= |fields|
    ensures i <= n <= |fields| && forall j :: i <= j < n ==> FieldTaken(fields[j], last)
    ensures n < |fields| ==> !FieldTaken(fields[n], last)
    decreases |fields| - i
  {
    if i == |fields| || !FieldTaken(fields[i], last) then i else FirstUntaken(fields, i + 1, last)
  }

  lemma {:induction false} SetFieldsHolds(cs: seq<Cell>, fields: seq<Inner>, i: nat, last: map<string, Point>)
    requires |cs| == |fields| && i <= |cs|
    ensures
      var (r, o), n := SetFields(cs, fields, i, last), FirstUntaken(fields, i, last);
      && (o == if n == |fields| then Done else Failed)
      && (forall j :: i <= j < n ==> r[j] == FieldPut(cs[j], fields[j], last))
      && (forall j :: 0 <= j < |cs| && !(i <= j <= n) ==> r[j] == cs[j])
    decreases |fields| - i
  {
    if i < |fields| {
      hide SetVal, Key;
      SetValFits(if Key(fields[i]) in last then last[Key(fields[i])] else Points.Point("", "", 0, 0.0, "", 0, ""),
                 fields[i].cell, cs[i]);
      if FieldTaken(fields[i], last) {
        var cs' := cs[i := FieldPut(cs[i], fields[i], last)];
        assert cs'[i] == cs[i] ==> cs' == cs;
        assert SetFields(cs, fields, i, last) == SetFields(cs', fields, i + 1, last);
        SetFieldsHolds(cs', fields, i + 1, last);
      } else {
        assert SetFields(cs, fields, i, last).1 == Failed;
      }
    }
  }

  // Whether a point fits does not depend on what the field holds.
  lemma {:induction false} SetValFits(p: Point, ct: CellType, c: Cell)
    ensures SetVal(p, ct, c).1 == SetVal(p, ct, ZeroCell(ct)).1
    ensures SetVal(p, ct, c).1 ==> SetVal(p, ct, c).0 == SetVal(p, ct, ZeroCell(ct)).0
  {
  }

  // A struct takes for each field the last point with its key, up to the first field that has no
  // key or whose point does not fit; the fields behind that one stay as they are.
  // A scalar takes the last point, unless one of them does not fit.
  lemma {:induction false} PrimHolds(c: Cell, ct: CellType, ps: seq<Point>)
    ensures PrimAfter(c, ct, ps).1 == Done <==> forall i :: 0 <= i < |ps| ==> Readable(ps[i], ct)
    ensures PrimAfter(c, ct, ps).1 == Done ==>
      PrimAfter(c, ct, ps).0 == if ps == [] then c else SetVal(ps[|ps| - 1], ct, ZeroCell(ct)).0
    decreases |ps|
  {
    hide SetVal, ZeroCell, Readable;
    if ps != [] {
      SetValFits(ps[0], ct, c);
      ReadableIff(ps[0], ct);
      PrimHolds(SetVal(ps[0], ct, c).0, ct, ps[1..]);
      assert forall i :: 1 <= i < |ps| ==> ps[i] == ps[1..][i - 1];
    }
  }

  lemma {:induction false} ReadableIff(p: Point, ct: CellType)
    ensures Readable(p, ct) <==> SetVal(p, ct, ZeroCell(ct)).1
  {
  }

  // A name keeps a struct from going nil if its last point is not deleted, or, without points,
  // if it is the name of a field.
  lemma {:induction false} ValidFieldsAre(fields: seq<Inner>, ps: seq<Point>, k: string)
    ensures k in ValidFields(fields, ps) <==>
      if k in LastByKey(ps) then !Deleted(LastByKey(ps)[k])
      else exists i :: 0 <= i < |fields| && Key(fields[i]) == k
  {
    hide Deleted, Key;
    if ps != [] {
      ValidFieldsAre(fields, ps[..|ps| - 1], k);
    }
  }

  // Fields are decoded one after the other, each for itself; a panic ends it, an error does not.
  lemma {:induction false} FieldsHold(vs: seq<Value>, st: seq<Field>, pts: seq<Point>)
    requires AllShaped(vs, st)
    ensures
      var (r, o) := FieldsAfter(vs, st, pts);
      && (o == Panic <==> PanicsBefore(vs, st, pts, |st|))
      && (o == Done <==> forall i :: 0 <= i < |st| ==> FieldAfter(vs[i], st[i], pts).1 == Done)
      && forall i :: 0 <= i < |st| ==>
        r[i] == if PanicsBefore(vs, st, pts, i) then vs[i] else FieldAfter(vs[i], st[i], pts).0
    decreases |st|
  {
    hide FieldAfter, FieldsAfter, PanicsBefore;
    NoneBefore(vs, st, pts);
    if st == [] {
      NoFieldsAfter(vs, st, pts);
    } else {
      FieldsHold(vs[1..], st[1..], pts);
      FieldsFirst(vs, st, pts);
      forall i | 0 <= i < |st|
        ensures FieldsAfter(vs, st, pts).0[i] ==
          if PanicsBefore(vs, st, pts, i) then vs[i] else FieldAfter(vs[i], st[i], pts).0
      {
        if i > 0 {
          PanicsFirst(vs, st, pts, i - 1);
          assert vs[i] == vs[1..][i - 1] && st[i] == st[1..][i - 1];
        }
      }
      PanicsFirst(vs, st, pts, |st| - 1);
      AllFieldsDone(vs, st, pts);
    }
  }

  lemma {:induction false} NoFieldsAfter(vs: seq<Value>, st: seq<Field>, pts: seq<Point>)
    requires AllShaped(vs, st) && st == []
    ensures FieldsAfter(vs, st, pts) == ([], Done)
  {
  }

  lemma {:induction false} NoneBefore(vs: seq<Value>, st: seq<Field>, pts: seq<Point>)
    requires AllShaped(vs, st)
    ensures !PanicsBefore(vs, st, pts, 0)
  {
  }

  // The first field, and the others unless it panics.
  lemma {:induction false} FieldsFirst(vs: seq<Value>, st: seq<Field>, pts: seq<Point>)
    requires AllShaped(vs, st) && st != []
    ensures
      var (v, o), (rest, ro), (r, all) := FieldAfter(vs[0], st[0], pts), FieldsAfter(vs[1..], st[1..], pts), FieldsAfter(vs, st, pts);
      && |r| == |st| && r[0] == v
      && (forall i :: 1 <= i < |st| ==> r[i] == if o.Panic? then vs[i] else rest[i - 1])
      && (all == Panic <==> o == Panic || ro == Panic) && (all == Done <==> o == Done && ro == Done)
  {
    hide FieldAfter;
  }

  lemma {:induction false} AllFieldsDone(vs: seq<Value>, st: seq<Field>, pts: seq<Point>)
    requires AllShaped(vs, st) && st != []
    ensures (forall i :: 0 <= i < |st| ==> FieldAfter(vs[i], st[i], pts).1 == Done) <==>
      FieldAfter(vs[0], st[0], pts).1 == Done && forall i :: 0 <= i < |st[1..]| ==> FieldAfter(vs[1..][i], st[1..][i], pts).1 == Done
  {
    hide FieldAfter;
    assert forall i :: 1 <= i < |st| ==> vs[i] == vs[1..][i - 1] && st[i] == st[1..][i - 1];
    assert forall i :: 0 <= i < |st[1..]| ==> vs[i + 1] == vs[1..][i] && st[i + 1] == st[1..][i];
  }

  ghost predicate PanicsBefore(vs: seq<Value>, st: seq<Field>, pts: seq<Point>, n: nat)
    requires AllShaped(vs, st) && n <= |st|
  {
    exists i :: 0 <= i < n && FieldAfter(vs[i], st[i], pts).1 == Panic
  }

  lemma {:induction false} PanicsFirst(vs: seq<Value>, st: seq<Field>, pts: seq<Point>, n: nat)
    requires AllShaped(vs, st) && n < |st|
    ensures PanicsBefore(vs, st, pts, n + 1) <==>
      FieldAfter(vs[0], st[0], pts).1 == Panic || PanicsBefore(vs[1..], st[1..], pts, n)
  {
    hide FieldAfter;
    assert forall i :: 1 <= i < |st| ==> vs[i] == vs[1..][i - 1] && st[i] == st[1..][i - 1];
    if i :| 0 <= i < n + 1 && FieldAfter(vs[i], st[i], pts).1 == Panic {
      if i > 0 {
        assert FieldAfter(vs[1..][i - 1], st[1..][i - 1], pts).1 == Panic;
      }
    }
    if i :| 0 <= i < n && FieldAfter(vs[1..][i], st[1..][i], pts).1 == Panic {
      assert FieldAfter(vs[i + 1], st[i + 1], pts).1 == Panic;
    }
  }

  lemma {:induction false} FlatHolds(cs: seq<Cell>, fields: seq<Inner>, ps: seq<Point>)
    requires |cs| == |fields|
    ensures
      var (r, o), last := FlatAfter(cs, fields, ps), LastByKey(ps);
      var n := FirstUntaken(fields, 0, last);
      && (o == Done <==> forall j :: 0 <= j < |cs| ==> FieldTaken(fields[j], last))
      && (forall j :: 0 <= j < n ==> r[j] == FieldPut(cs[j], fields[j], last))
      && (forall j :: n < j < |cs| ==> r[j] == cs[j])
  {
    hide FieldTaken, FieldPut, LastByKey, SetFields;
    SetFieldsHolds(cs, fields, 0, LastByKey(ps));
  }

  // ----- any field, all fields -----

  function ValueAfter(v: Value, ft: FieldType, g: Group): (r: (Value, Outcome))
    requires Shaped(v, ft)
    ensures Shaped(r.0, ft)
  {
    match ft
    case Prim(ct) =>
      var (c, o) := PrimAfter(v.c, ct, g.points);
      (VPrim(c), o)
    case Slice(ct) =>
      var (cs, o) := SliceAfter(v.cs, ct, g);
      (VSlice(cs), o)
    case Dict(ct) =>
      var (m, o) := DictAfter(v.m, ct, g.points);
      (VDict(m), o)
    case Flat(fields) =>
      var (cs, o) := FlatAfter(v.cs, fields, g.points);
      (VFlat(cs), o)
    case FlatPtr(fields) =>
      if ValidFields(fields, g.points) == {} then (VNil, Done)
      else
        var (cs, o) := FlatAfter(if v.VNil? then ZeroCells(fields) else v.cs, fields, g.points);
        (VFlat(cs), o)
  }

  // One field: without points of its type it stays as it is.
  function FieldAfter(v: Value, f: Field, pts: seq<Point>): (r: (Value, Outcome))
    requires Shaped(v, f.ft)
    ensures Shaped(r.0, f.ft)
  {
    var ps := Typed(pts, f.tag);
    if ps == [] then (v, Done) else ValueAfter(v, f.ft, GroupOf(ps))
  }

  function Worse(a: Outcome, b: Outcome): Outcome {
    if a.Panic? || b.Panic? then Panic else if a.Failed? || b.Failed? then Failed else Done
  }

  // Decode: an error in one field does not keep the other fields from being set, a panic does.
  function FieldsAfter(vs: seq<Value>, st: seq<Field>, pts: seq<Point>): (r: (seq<Value>, Outcome))
    requires AllShaped(vs, st)
    ensures AllShaped(r.0, st)
    decreases |st|
  {
    if st == [] then ([], Done)
    else
      var (v, o) := FieldAfter(vs[0], st[0], pts);
      if o.Panic? then ([v] + vs[1..], Panic)
      else
        var (rest, ro) := FieldsAfter(vs[1..], st[1..], pts);
        ([v] + rest, Worse(o, ro))
  }
}
