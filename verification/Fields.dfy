// The fields of a Go struct that is stored as points, and how one scalar becomes a point and
// a point a scalar again (pointFromPrimitive of data/encode.go, setVal of data/decode.go).
module Fields {
  import opened Decimal
  import opened Wrappers
  import opened Words
  import Points

  type Point = Points.Point

  const MAX_SAFE_INTEGER: int := 0x1F_FFFF_FFFF_FFFF
  const MAX_STRUCTURE_SIZE: nat := 1000

  // ----- scalars -----

  type Width = n: int | 0 < n <= 64 witness 64

  // The width of a signed integer is counted without its sign bit.
  datatype Kind = KBool | KInt(bits: Width) | KUint(bits: Width) | KFloat | KString

  datatype Scalar = Bool(b: bool) | Int(i: int) | Float(r: real) | Text(s: string)

  // A scalar or a pointer to one; None is the nil pointer.
  datatype CellType = CellType(kind: Kind, pointer: bool)

  type Cell = Option<Scalar>

  predicate ScalarHas(v: Scalar, k: Kind) {
    match k
    case KBool => v.Bool?
    case KInt(bits) => v.Int? && 0 - Pow2(bits) as int <= v.i < Pow2(bits)
    case KUint(bits) => v.Int? && 0 <= v.i < Pow2(bits)
    case KFloat => v.Float?
    case KString => v.Text?
  }

  predicate CellHas(c: Cell, ct: CellType) {
    if c.None? then ct.pointer else ScalarHas(c.value, ct.kind)
  }

  function Zero(k: Kind): Scalar {
    match k
    case KBool => Bool(false)
    case KInt(_) => Int(0)
    case KUint(_) => Int(0)
    case KFloat => Float(0.0)
    case KString => Text("")
  }

  function ZeroCell(ct: CellType): Cell {
    if ct.pointer then None else Some(Zero(ct.kind))
  }

  // ----- a scalar as a point -----

  // An integer that a float64 holds exactly.
  predicate Safe(c: Cell) {
    c.Some? && c.value.Int? ==> -MAX_SAFE_INTEGER <= c.value.i <= MAX_SAFE_INTEGER
  }

  function PointFor(typ: string, key: string, c: Cell, time: nat): (p: Point)
    ensures p.typ == typ && p.key == key && p.time == time
  {
    match c
    case None => Points.Point(typ, key, time, 0.0, "", 1, "")
    case Some(Bool(b)) => Points.Point(typ, key, time, if b then 1.0 else 0.0, "", 0, "")
    case Some(Int(i)) => Points.Point(typ, key, time, i as real, "", 0, "")
    case Some(Float(r)) => Points.Point(typ, key, time, r, "", 0, "")
    case Some(Text(s)) => Points.Point(typ, key, time, 0.0, s, 0, "")
  }

  // ----- a point as a scalar -----

  // The remainder as Go computes it: of an odd negative number it is -1.
  predicate Deleted(p: Point) { p.tombstone > 0 && p.tombstone % 2 == 1 }

  predicate Even(p: Point) { p.tombstone % 2 == 0 }

  // Conversion of a float64 to a 64-bit integer: towards zero.  What Go does out of range
  // depends on the machine; the least integer is what x86-64 gives.
  function Truncate(v: real): int {
    var t := if v >= 0.0 then v.Floor else -((-v).Floor);
    if -MAX_INT64 - 1 <= t <= MAX_INT64 then t else -MAX_INT64 - 1
  }

  // Conversion of a float64 that is not negative to an unsigned 64-bit integer.  Out of range
  // x86-64 gives zero: the sign bit, taken off before the conversion, is put on the least integer.
  function Unsigned(v: real): int {
    if v.Floor > 2 * MAX_INT64 + 1 then 0 else v.Floor
  }

  function FromPoint(p: Point, k: Kind): Option<Scalar> {
    match k
    case KBool => Some(Bool(p.value == 1.0))
    case KInt(bits) => if ScalarHas(Int(Truncate(p.value)), k) then Some(Int(Truncate(p.value))) else None
    case KUint(bits) =>
      if p.value < 0.0 || !ScalarHas(Int(Unsigned(p.value)), k) then None else Some(Int(Unsigned(p.value)))
    case KFloat => Some(Float(p.value))
    case KString => Some(Text(p.text))
  }

  // setVal: the cell afterwards, and whether the value fitted.  A nil pointer is allocated
  // before its value is looked at.
  function SetVal(p: Point, ct: CellType, c: Cell): (Cell, bool) {
    if Deleted(p) then (ZeroCell(ct), true)
    else
      match FromPoint(p, ct.kind)
      case Some(v) => (Some(v), true)
      case None => (if ct.pointer && c.None? then Some(Zero(ct.kind)) else c, false)
  }

  // The cell that is meant by c in a field of type ct: a deletion means the zero value.
  function Meant(c: Cell, ct: CellType): Cell {
    if c.None? then ZeroCell(ct) else c
  }

  // A point carries a cell if it has its value and its tombstone.
  predicate Carries(p: Point, c: Cell) {
    p == PointFor(p.typ, p.key, c, p.time)
  }

  lemma {:induction false} WholeNumbers(i: int)
    ensures (i as real).Floor == i && (-(i as real)).Floor == -i
    ensures (i as real >= 0.0) <==> i >= 0
  {
  }

  // Writing a scalar to a point and reading it back gives the scalar.
  lemma {:induction false} SetValReads(p: Point, c: Cell, ct: CellType, before: Cell)
    requires Carries(p, c) && Safe(c) && (c.Some? ==> ScalarHas(c.value, ct.kind))
    ensures SetVal(p, ct, before) == (Meant(c, ct), true)
    ensures Deleted(p) <==> c.None?
    ensures Even(p) <==> c.Some?
  {
    if c.Some? && c.value.Int? {
      WholeNumbers(c.value.i);
    }
  }

  // A point is deleted if its tombstone is odd.
  lemma {:induction false} DeletedIff(p: Point)
    ensures Deleted(p) <==> exists n: nat :: p.tombstone == 2 * n + 1
    ensures Even(p) <==> exists n: int :: p.tombstone == 2 * n
  {
    assert p.tombstone == 2 * (p.tombstone / 2) + p.tombstone % 2;
    if Deleted(p) {
      var n: nat := p.tombstone / 2;
      assert p.tombstone == 2 * n + 1;
    }
  }

  // i is v without its fraction.
  predicate Whole(v: real, i: int) {
    if v >= 0.0 then i as real <= v < (i + 1) as real else (i - 1) as real < v <= i as real
  }

  // What is left of a cell that a value does not fit in.
  function NotSet(ct: CellType, c: Cell): Cell {
    if ct.pointer && c.None? then Some(Zero(ct.kind)) else c
  }

  // What any point that is not deleted, even with a fraction or out of range, sets a cell to.
  lemma {:induction false} SetValOfAny(p: Point, ct: CellType, c: Cell, i: int)
    requires !Deleted(p) && Whole(p.value, i)
    ensures SetVal(p, ct, c) ==
      match ct.kind
      case KBool => (Some(Bool(p.value == 1.0)), true)
      case KInt(bits) =>
        var n := if -9223372036854775808 <= i < 9223372036854775808 then i else -9223372036854775808;
        if 0 - Pow2(bits) as int <= n < Pow2(bits) then (Some(Int(n)), true) else (NotSet(ct, c), false)
      case KUint(bits) =>
        var n := if i < 18446744073709551616 then i else 0;
        if p.value >= 0.0 && n < Pow2(bits) then (Some(Int(n)), true) else (NotSet(ct, c), false)
      case KFloat => (Some(Float(p.value)), true)
      case KString => (Some(Text(p.text)), true)
  {
    OneWhole(p.value, i);
  }

  lemma {:induction false} OneWhole(v: real, i: int)
    requires Whole(v, i)
    ensures i == if v >= 0.0 then v.Floor else -((-v).Floor)
  {
    var x := if v >= 0.0 then v else -v;
    var j := if v >= 0.0 then i else -i;
    assert j as real <= x < j as real + 1.0;
    assert x.Floor as real <= x < x.Floor as real + 1.0;
  }

  // ----- fields -----

  // A field of a flat struct: its point tag, its edgepoint tag, and its name in camel case.
  datatype Inner = Inner(point: string, edgepoint: string, camel: string, cell: CellType)

  // The key that Encode and Decode use, and the one that DiffPoints uses.
  function Key(f: Inner): string {
    if f.point != "" then f.point else if f.edgepoint != "" then f.edgepoint else f.camel
  }

  function DiffKey(f: Inner): string {
    if f.point != "" then f.point else f.camel
  }

  datatype FieldType =
    | Prim(cell: CellType)
    | Slice(cell: CellType)
    | Dict(cell: CellType)
    | Flat(fields: seq<Inner>)
    | FlatPtr(fields: seq<Inner>)

  // A nil slice and an empty one are the same here, and so for maps.
  datatype Value =
    | VPrim(c: Cell)
    | VSlice(cs: seq<Cell>)
    | VDict(m: map<string, Cell>)
    | VFlat(cs: seq<Cell>)
    | VNil

  predicate FlatHas(cs: seq<Cell>, fields: seq<Inner>) {
    |cs| == |fields| && forall i :: 0 <= i < |cs| ==> CellHas(cs[i], fields[i].cell)
  }

  predicate HasType(v: Value, ft: FieldType) {
    match ft
    case Prim(ct) => v.VPrim? && CellHas(v.c, ct)
    case Slice(ct) => v.VSlice? && |v.cs| <= MAX_INT64 && forall i :: 0 <= i < |v.cs| ==> CellHas(v.cs[i], ct)
    case Dict(ct) => v.VDict? && forall k :: k in v.m ==> CellHas(v.m[k], ct)
    case Flat(fields) => v.VFlat? && FlatHas(v.cs, fields)
    case FlatPtr(fields) => v.VNil? || (v.VFlat? && FlatHas(v.cs, fields))
  }

  // What decoding needs to know of a value: which form it has.
  predicate Shaped(v: Value, ft: FieldType) {
    match ft
    case Prim(_) => v.VPrim?
    case Slice(_) => v.VSlice?
    case Dict(_) => v.VDict?
    case Flat(fields) => v.VFlat? && |v.cs| == |fields|
    case FlatPtr(fields) => v.VNil? || (v.VFlat? && |v.cs| == |fields|)
  }

  function ZeroCells(fields: seq<Inner>): (cs: seq<Cell>)
    ensures |cs| == |fields| && forall i :: 0 <= i < |cs| ==> cs[i] == ZeroCell(fields[i].cell)
  {
    seq(|fields|, i requires 0 <= i < |fields| => ZeroCell(fields[i].cell))
  }

  function ZeroValue(ft: FieldType): (v: Value)
    ensures Shaped(v, ft)
  {
    match ft
    case Prim(ct) => VPrim(ZeroCell(ct))
    case Slice(ct) => VSlice([])
    case Dict(ct) => VDict(map[])
    case Flat(fields) => VFlat(ZeroCells(fields))
    case FlatPtr(fields) => VNil
  }

  lemma {:induction false} ZeroHasType(ft: FieldType)
    ensures HasType(ZeroValue(ft), ft)
  {
    match ft
    case Prim(ct) => ZeroCellHasType(ct);
    case Flat(fields) =>
      forall i | 0 <= i < |fields|
        ensures CellHas(ZeroCells(fields)[i], fields[i].cell)
      {
        ZeroCellHasType(fields[i].cell);
      }
    case _ =>
  }

  lemma {:induction false} ZeroCellHasType(ct: CellType)
    ensures CellHas(ZeroCell(ct), ct)
  {
  }

  datatype Field = Field(tag: string, ft: FieldType)

  predicate AllShaped(vs: seq<Value>, st: seq<Field>) {
    |vs| == |st| && forall i :: 0 <= i < |st| ==> Shaped(vs[i], st[i].ft)
  }

  predicate AllHave(vs: seq<Value>, st: seq<Field>) {
    |vs| == |st| && forall i :: 0 <= i < |st| ==> HasType(vs[i], st[i].ft)
  }
}
