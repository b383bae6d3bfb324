// Lists that grow into spare capacity (data/decode.go): re-slicing gives the same list as
// copying to a new one, because what lies behind the end of the list is zero.
module Capacity {
  import opened Decimal
  import opened Decoding
  import opened Fields
  import opened Wrappers

  // The backing store of a list of length len, the list afterwards, and the outcome.
  function BufferAfter(buf: seq<Cell>, len: nat, ct: CellType, g: Group): (r: (seq<Cell>, nat, Outcome))
    requires len <= |buf|
    ensures r.1 <= |r.0|
  {
    if Refused(g) then (buf, len, Failed)
    else
      var n := Grown(len, g);
      var grown := if n <= |buf| then buf else Pad(buf[..len], n, ct);
      var (cells, o) := SetAll(grown[..n], ct, g.points);
      (cells + grown[n..], if o.Done? then TrimLength(n, DeletedIndexes(g.points)) else n, o)
  }

  ghost predicate Clean(buf: seq<Cell>, len: nat, ct: CellType) {
    len <= |buf| && forall i :: len <= i < |buf| ==> buf[i] == ZeroCell(ct)
  }

  // No element is set after it was deleted by the same points.
  ghost predicate NoLateSet(ps: seq<Point>) {
    forall i, j :: 0 <= i < j < |ps| && Deleted(ps[i]) && IndexOf(ps[i].key) == IndexOf(ps[j].key) ==> Deleted(ps[j])
  }

  lemma {:induction false} ReuseIsCopy(buf: seq<Cell>, len: nat, ct: CellType, g: Group)
    requires Clean(buf, len, ct)
    ensures
      var (buf', len', o) := BufferAfter(buf, len, ct, g);
      (buf'[..len'], o) == SliceAfter(buf[..len], ct, g)
  {
    hide SetAll, TrimLength, DeletedIndexes;
    if !Refused(g) {
      var n := Grown(len, g);
      var grown := if n <= |buf| then buf else Pad(buf[..len], n, ct);
      var padded := Pad(buf[..len], Room(g), ct);
      forall i | 0 <= i < n
        ensures grown[i] == padded[i]
      {
        if i < len {
          assert padded[..len][i] == buf[..len][i];
        }
      }
      assert grown[..n] == padded;
      var (cells, o) := SetAll(padded, ct, g.points);
      var l := if o.Done? then TrimLength(n, DeletedIndexes(g.points)) else n;
      assert (cells + grown[n..])[..l] == cells[..l];
      assert cells[..n] == cells;
    }
  }

  lemma {:induction false} Untouched(cs: seq<Cell>, ct: CellType, ps: seq<Point>, k: nat)
    requires k < |cs| && forall i :: 0 <= i < |ps| ==> IndexOf(ps[i].key) != k
    ensures SetAll(cs, ct, ps).0[k] == cs[k]
    decreases |ps|
  {
    hide SetVal;
    if ps != [] {
      var at := IndexOf(ps[0].key);
      assert forall i :: 0 <= i < |ps[1..]| ==> ps[1..][i] == ps[i + 1];
      if at < |cs| {
        Untouched(cs[at := SetVal(ps[0], ct, cs[at]).0], ct, ps[1..], k);
      } else {
        Untouched(cs, ct, ps[1..], k);
      }
    }
  }

  // Every point fits and lies inside the list, or is deleted behind its end.
  predicate AllFit(n: nat, ct: CellType, ps: seq<Point>) {
    forall i :: 0 <= i < |ps| ==> Deleted(ps[i]) || (IndexOf(ps[i].key) < n && SetVal(ps[i], ct, ZeroCell(ct)).1)
  }

  lemma {:induction false} DoneIff(cs: seq<Cell>, ct: CellType, ps: seq<Point>)
    ensures SetAll(cs, ct, ps).1 == Done <==> AllFit(|cs|, ct, ps)
    decreases |ps|
  {
    if ps != [] {
      var at, rest := IndexOf(ps[0].key), ps[1..];
      FitsFirst(|cs|, ct, ps);
      if at < |cs| {
        SetValFits(ps[0], ct, cs[at]);
        DoneIff(cs[at := SetVal(ps[0], ct, cs[at]).0], ct, rest);
      } else {
        DoneIff(cs, ct, rest);
      }
    }
  }

  lemma {:induction false} FitsFirst(n: nat, ct: CellType, ps: seq<Point>)
    requires ps != []
    ensures AllFit(n, ct, ps) <==>
      (Deleted(ps[0]) || (IndexOf(ps[0].key) < n && SetVal(ps[0], ct, ZeroCell(ct)).1)) && AllFit(n, ct, ps[1..])
  {
    hide SetVal, Deleted, IndexOf;
    assert forall i :: 0 <= i < |ps[1..]| ==> ps[1..][i] == ps[i + 1];
    assert forall i :: 1 <= i < |ps| ==> ps[i] == ps[1..][i - 1];
  }

  // The last point for the index k.
  predicate LastAt(ps: seq<Point>, i: int, k: nat) {
    0 <= i < |ps| && IndexOf(ps[i].key) == k && forall j :: i < j < |ps| ==> IndexOf(ps[j].key) != k
  }

  // The last point for an index decides what the element becomes.
  lemma {:induction false} LastDecides(cs: seq<Cell>, ct: CellType, ps: seq<Point>, k: nat, i: nat)
    requires k < |cs| && LastAt(ps, i, k) && SetAll(cs, ct, ps).1 == Done
    ensures SetAll(cs, ct, ps).0[k] == SetVal(ps[i], ct, ZeroCell(ct)).0
    decreases |ps|
  {
    hide IndexOf, SetVal;
    var at, rest := IndexOf(ps[0].key), ps[1..];
    assert forall j :: 0 <= j < |rest| ==> rest[j] == ps[j + 1];
    var cs' := if at < |cs| then cs[at := SetVal(ps[0], ct, cs[at]).0] else cs;
    assert SetAll(cs, ct, ps) == SetAll(cs', ct, rest);
    if i > 0 {
      LastDecides(cs', ct, rest, k, i - 1);
    } else {
      SetValFits(ps[0], ct, cs[at]);
      Untouched(cs', ct, rest, k);
    }
  }

  // ----- lists, whatever the points -----

  // Element k is what the last point for it makes of it, or what it was, or zero if it is new.
  ghost predicate ElementIs(cs: seq<Cell>, ct: CellType, ps: seq<Point>, k: nat, c: Cell) {
    && (forall i :: LastAt(ps, i, k) ==> c == SetVal(ps[i], ct, ZeroCell(ct)).0)
    && ((forall i :: 0 <= i < |ps| ==> IndexOf(ps[i].key) != k) ==> c == if k < |cs| then cs[k] else ZeroCell(ct))
  }

  ghost predicate DeletedAt(ps: seq<Point>, k: nat) {
    exists i :: 0 <= i < |ps| && Deleted(ps[i]) && IndexOf(ps[i].key) == k
  }

  // A list is refused for a key that is no index, and for an index over 1000 that is not deleted.
  ghost predicate ListRefused(ps: seq<Point>) {
    || (exists i :: 0 <= i < |ps| && NotIndex(ps[i].key))
    || (exists i :: 0 <= i < |ps| && ToGrow(ps[i]) && IndexOf(ps[i].key) > 1000)
  }

  // A list grows for points with an index that are not deleted.
  predicate ToGrow(p: Point) { p.key != "" && !NotIndex(p.key) && p.tombstone % 2 == 0 }

  // The length before the trailing deleted elements are cut off.
  ghost predicate GrownTo(len: nat, ps: seq<Point>, n: nat) {
    && len <= n && (forall i :: 0 <= i < |ps| && ToGrow(ps[i]) ==> IndexOf(ps[i].key) < n)
    && (n > len ==> exists i :: 0 <= i < |ps| && ToGrow(ps[i]) && IndexOf(ps[i].key) == n - 1)
  }

  lemma {:induction false} GrowsIff(p: Point)
    ensures Grows(p) <==> ToGrow(p)
  {
  }

  lemma {:induction false} GrownIs(len: nat, ps: seq<Point>)
    ensures GrownTo(len, ps, Grown(len, GroupOf(ps)))
  {
    GroupMeans(ps);
    forall i | 0 <= i < |ps|
      ensures Grows(ps[i]) <==> ToGrow(ps[i])
    {
      GrowsIff(ps[i]);
    }
    hide GroupOf, NotIndex, Grows, ToGrow, IndexOf;
  }

  lemma {:induction false} RefusedIff(ps: seq<Point>)
    ensures Refused(GroupOf(ps)) <==> ListRefused(ps)
  {
    hide GroupOf, NotIndex, Grows, ToGrow, IndexOf;
    GroupMeans(ps);
    forall i | 0 <= i < |ps|
      ensures Grows(ps[i]) <==> ToGrow(ps[i])
    {
      GrowsIff(ps[i]);
    }
  }

  // Decoding a list: when it is taken, and what is in it then.
  lemma {:induction false} ListHolds(cs: seq<Cell>, ct: CellType, ps: seq<Point>)
    ensures
      var (r, o) := SliceAfter(cs, ct, GroupOf(ps));
      var n := Grown(|cs|, GroupOf(ps));
      && GrownTo(|cs|, ps, n)
      && (ListRefused(ps) ==> (r, o) == (cs, Failed))
      && (o == Done <==> !ListRefused(ps) && AllFit(n, ct, ps))
      && (o == Done ==>
            && |r| <= n && (forall k :: 0 <= k < |r| ==> ElementIs(cs, ct, ps, k, r[k]))
            && (forall k :: |r| <= k < n ==> DeletedAt(ps, k)) && (r != [] ==> !DeletedAt(ps, |r| - 1)))
  {
    hide SetAll, GroupOf, SetVal, IndexOf, Deleted, ListRefused, AllFit, ElementIs, GrownTo;
    RefusedIff(ps);
    GrownIs(|cs|, ps);
    GroupMeans(ps);
    var g := GroupOf(ps);
    if !Refused(g) {
      var all := Pad(cs, Room(g), ct);
      DoneIff(all, ct, ps);
      var cells := SetAll(all, ct, ps).0;
      if SetAll(all, ct, ps).1 == Done {
        forall k | 0 <= k < |all|
          ensures ElementIs(cs, ct, ps, k, cells[k])
          ensures k in DeletedIndexes(ps) <==> DeletedAt(ps, k)
        {
          ElementAt(cs, all, ct, ps, k);
        }
      }
    }
  }

  lemma {:induction false} ElementAt(cs: seq<Cell>, all: seq<Cell>, ct: CellType, ps: seq<Point>, k: nat)
    requires k < |all| && SetAll(all, ct, ps).1 == Done && all[k] == if k < |cs| then cs[k] else ZeroCell(ct)
    ensures ElementIs(cs, ct, ps, k, SetAll(all, ct, ps).0[k])
  {
    hide SetAll, SetVal, IndexOf;
    forall i | LastAt(ps, i, k)
      ensures SetAll(all, ct, ps).0[k] == SetVal(ps[i], ct, ZeroCell(ct)).0
    {
      LastDecides(all, ct, ps, k, i);
    }
    if forall i :: 0 <= i < |ps| ==> IndexOf(ps[i].key) != k {
      Untouched(all, ct, ps, k);
    }
  }

  lemma {:induction false} HasLast(ps: seq<Point>, k: nat, d: nat) returns (i: nat)
    requires d < |ps| && IndexOf(ps[d].key) == k
    ensures LastAt(ps, i, k) && d <= i
    decreases |ps| - d
  {
    hide IndexOf;
    i := d;
    if j :| d < j < |ps| && IndexOf(ps[j].key) == k {
      i := HasLast(ps, k, j);
    }
  }

  function Grown(len: nat, g: Group): nat { if Room(g) > len then Room(g) else len }

  // The last point for the index k deletes the element, or sets it to the zero value.
  ghost predicate LastIsZero(ps: seq<Point>, ct: CellType, k: nat) {
    exists i :: LastAt(ps, i, k) && SetVal(ps[i], ct, ZeroCell(ct)).0 == ZeroCell(ct)
  }

  // Every element that is trimmed was last deleted, or set to zero.
  ghost predicate KeepsClean(len: nat, ct: CellType, g: Group) {
    var n := Grown(len, g);
    !Refused(g) && AllFit(n, ct, g.points) ==>
      forall k :: TrimLength(n, DeletedIndexes(g.points)) <= k < n ==> LastIsZero(g.points, ct, k)
  }

  lemma {:induction false} TrimmedCell(cs: seq<Cell>, ct: CellType, ps: seq<Point>, k: nat)
    requires k < |cs| && SetAll(cs, ct, ps).1 == Done && k in DeletedIndexes(ps)
    ensures SetAll(cs, ct, ps).0[k] == ZeroCell(ct) <==> LastIsZero(ps, ct, k)
  {
    hide SetAll, SetVal, IndexOf, Deleted;
    var d :| 0 <= d < |ps| && Deleted(ps[d]) && IndexOf(ps[d].key) == k;
    var i := HasLast(ps, k, d);
    LastDecides(cs, ct, ps, k, i);
    if j :| LastAt(ps, j, k) && SetVal(ps[j], ct, ZeroCell(ct)).0 == ZeroCell(ct) {
      LastDecides(cs, ct, ps, k, j);
    }
  }

  // Behind the end there are zeros again exactly if every trimmed element was last deleted, or
  // set to zero.
  lemma {:induction false} StaysCleanIff(buf: seq<Cell>, len: nat, ct: CellType, g: Group)
    requires Clean(buf, len, ct)
    ensures
      var (buf', len', o) := BufferAfter(buf, len, ct, g);
      Clean(buf', len', ct) <==> KeepsClean(len, ct, g)
  {
    hide SetAll, SetVal, TrimLength, AllFit, DeletedIndexes, LastIsZero;
    if !Refused(g) {
      var (buf', len', o) := BufferAfter(buf, len, ct, g);
      var n := Grown(len, g);
      var grown := if n <= |buf| then buf else Pad(buf[..len], n, ct);
      DoneIff(grown[..n], ct, g.points);
      assert forall k :: n <= k < |buf'| ==> buf'[k] == grown[k];
      if o == Done {
        forall k | len' <= k < n
          ensures buf'[k] == ZeroCell(ct) <==> LastIsZero(g.points, ct, k)
        {
          TrimmedCell(grown[..n], ct, g.points, k);
        }
      }
    }
  }

  // It is enough that no element is set after it was deleted.
  lemma {:induction false} NoLateSetKeeps(len: nat, ct: CellType, g: Group)
    requires NoLateSet(g.points)
    ensures KeepsClean(len, ct, g)
  {
    hide IndexOf, AllFit, TrimLength;
    var n, ps := Grown(len, g), g.points;
    forall k | TrimLength(n, DeletedIndexes(ps)) <= k < n
      ensures LastIsZero(ps, ct, k)
    {
      assert k in DeletedIndexes(ps);
      var d :| 0 <= d < |ps| && Deleted(ps[d]) && IndexOf(ps[d].key) == k;
      var i := HasLast(ps, k, d);
      assert Deleted(ps[i]);
    }
  }

  // ----- runs -----

  function SliceRun(cs: seq<Cell>, ct: CellType, gs: seq<Group>): seq<Cell> {
    if gs == [] then cs else SliceAfter(SliceRun(cs, ct, gs[..|gs| - 1]), ct, gs[|gs| - 1]).0
  }

  function BufferRun(buf: seq<Cell>, len: nat, ct: CellType, gs: seq<Group>): (r: (seq<Cell>, nat))
    requires len <= |buf|
    ensures r.1 <= |r.0|
  {
    if gs == [] then (buf, len)
    else
      var (b, l) := BufferRun(buf, len, ct, gs[..|gs| - 1]);
      var (b', l', _) := BufferAfter(b, l, ct, gs[|gs| - 1]);
      (b', l')
  }

  // Over any run of decodes that keep zeros behind the end, reusing capacity and copying give
  // the same list.
  lemma {:induction false} RunsAgree(buf: seq<Cell>, len: nat, ct: CellType, gs: seq<Group>)
    requires Clean(buf, len, ct)
    requires forall i :: 0 <= i < |gs| ==> KeepsClean(|SliceRun(buf[..len], ct, gs[..i])|, ct, gs[i])
    ensures
      var (b, l) := BufferRun(buf, len, ct, gs);
      Clean(b, l, ct) && b[..l] == SliceRun(buf[..len], ct, gs)
  {
    hide BufferAfter, SliceAfter, KeepsClean;
    if gs != [] {
      var n := |gs| - 1;
      assert forall i :: 0 <= i < n ==> gs[..n][..i] == gs[..i];
      RunsAgree(buf, len, ct, gs[..n]);
      var (b, l) := BufferRun(buf, len, ct, gs[..n]);
      StaysCleanIff(b, l, ct, gs[n]);
      ReuseIsCopy(b, l, ct, gs[n]);
    }
  }

  lemma {:induction false} SetOne(cs: seq<Cell>, ct: CellType, p: Point, rest: seq<Point>, c: Cell)
    requires IndexOf(p.key) < |cs| && SetVal(p, ct, cs[IndexOf(p.key)]) == (c, true)
    ensures SetAll(cs, ct, [p] + rest) == SetAll(cs[IndexOf(p.key) := c], ct, rest)
  {
    assert ([p] + rest)[1..] == rest;
  }

  const NUMBERS := CellType(KFloat, false)

  function Number(r: real): Cell { Some(Float(r)) }

  // Points 0 := deleted, 0 := 9, to a list of one element with room for a second.
  lemma {:induction false} LateSet(gone: Point, late: Point)
    requires gone == PointFor("t", Itoa(0), None, 0) && late == PointFor("t", Itoa(0), Number(9.0), 0)
    ensures BufferAfter([Number(0.0), Number(0.0)], 1, NUMBERS, Group("", 0, [gone, late])) == ([Number(9.0), Number(0.0)], 0, Done)
    ensures SliceAfter([Number(0.0)], NUMBERS, Group("", 0, [gone, late])) == ([], Done)
  {
    hide SetAll, SetVal, PointFor, IndexOf;
    AtoiOfItoa(0);
    var cs := [Number(0.0)];
    assert IndexOf(Itoa(0)) == 0 by { IndexZero(); }
    SetValReads(gone, None, NUMBERS, cs[0]);
    SetValReads(late, Number(9.0), NUMBERS, cs[0]);
    var ps := [gone, late];
    assert ps == [gone] + [late] && [late] == [late] + [];
    SetOne(cs, NUMBERS, gone, [late], cs[0]);
    assert cs[0 := cs[0]] == cs;
    SetOne(cs, NUMBERS, late, [], Number(9.0));
    assert cs[0 := Number(9.0)] == [Number(9.0)];
    assert SetAll(cs, NUMBERS, ps) == SetAll([Number(9.0)], NUMBERS, []);
    SetNone([Number(9.0)]);
    assert Deleted(ps[0]) && IndexOf(ps[0].key) == 0;
    assert TrimLength(1, DeletedIndexes(ps)) == 0;
    var buf := [Number(0.0), Number(0.0)];
    assert buf[..1] == cs && buf[1..] == [Number(0.0)];
    assert [Number(9.0)] + buf[1..] == [Number(9.0), Number(0.0)];
  }

  lemma {:induction false} IndexZero()
    ensures IndexOf(Itoa(0)) == 0 && IndexOf(Itoa(1)) == 1
  {
    AtoiOfItoa(0);
    AtoiOfItoa(1);
  }

  lemma {:induction false} SetNone(cs: seq<Cell>)
    ensures SetAll(cs, NUMBERS, []) == (cs, Done)
  {
  }

  // A point 1 := 7 makes the list grow.
  lemma {:induction false} Grow(next: Point)
    requires next == PointFor("t", Itoa(1), Number(7.0), 0)
    ensures BufferAfter([Number(9.0), Number(0.0)], 0, NUMBERS, Group("", 1, [next])) == ([Number(9.0), Number(7.0)], 2, Done)
    ensures SliceAfter([], NUMBERS, Group("", 1, [next])) == ([Number(0.0), Number(7.0)], Done)
  {
    hide SetAll, SetVal, PointFor, IndexOf;
    IndexZero();
    SetValReads(next, Number(7.0), NUMBERS, Number(0.0));
    var buf, padded := [Number(9.0), Number(0.0)], [Number(0.0), Number(0.0)];
    assert Pad([], 2, NUMBERS) == padded && buf[..2] == buf;
    assert [next] == [next] + [];
    SetOne(buf, NUMBERS, next, [], Number(7.0));
    SetOne(padded, NUMBERS, next, [], Number(7.0));
    assert buf[1 := Number(7.0)] == [Number(9.0), Number(7.0)] && padded[1 := Number(7.0)] == [Number(0.0), Number(7.0)];
    SetNone([Number(9.0), Number(7.0)]);
    SetNone([Number(0.0), Number(7.0)]);
    assert DeletedIndexes([next]) == {};
    var all := [Number(0.0), Number(7.0)];
    assert TrimLength(2, {}) == 2 && all[..2] == all;
    assert [Number(9.0), Number(7.0)] + buf[2..] == [Number(9.0), Number(7.0)];
  }

  // An element that is deleted and then set by the same points is trimmed, but it stays in the
  // backing store and comes back when the list grows: [9, 7] instead of [0, 7].
  lemma {:induction false} LateSetComesBack(gone: Point, late: Point, next: Point)
    requires gone == PointFor("t", Itoa(0), None, 0) && late == PointFor("t", Itoa(0), Number(9.0), 0)
    requires next == PointFor("t", Itoa(1), Number(7.0), 0)
    ensures
      var gs := [Group("", 0, [gone, late]), Group("", 1, [next])];
      && BufferRun([Number(0.0), Number(0.0)], 1, NUMBERS, gs) == ([Number(9.0), Number(7.0)], 2)
      && SliceRun([Number(0.0)], NUMBERS, gs) == [Number(0.0), Number(7.0)]
  {
    hide BufferAfter, SliceAfter, PointFor;
    LateSet(gone, late);
    Grow(next);
    var g, h := Group("", 0, [gone, late]), Group("", 1, [next]);
    var gs := [g, h];
    assert gs[..1] == [g] && [g][..0] == [];
    assert BufferRun([Number(0.0), Number(0.0)], 1, NUMBERS, [g]) == ([Number(9.0), Number(0.0)], 0);
    assert SliceRun([Number(0.0)], NUMBERS, [g]) == [];
  }
}
