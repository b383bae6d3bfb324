// The changes of a map, whatever its keys: what DiffPoints writes through Points.Add, and what
// comes out when that is applied.  A change under a blank key is written, and read, as "0".
module MapChanges {
  import opened Decoding
  import opened Encoding
  import opened FieldLaws
  import opened FieldPatches
  import opened Fields
  import opened Patches
  import opened Wrappers

  // ----- the points that are written -----

  // The points for the entries, added one after the other.
  function Sent(tag: string, es: seq<Entry>, clock: nat -> nat): seq<Point> {
    AddAll([], ToPoints(tag, es), clock)
  }

  lemma {:induction false} OfferedAt(more: seq<Point>, clock: nat -> nat)
    ensures |Offered([], more, clock)| == |more|
    ensures forall i :: 0 <= i < |more| ==> Offered([], more, clock)[i] == Filled(more[i], clock(i + 1))
  {
    if more != [] {
      OfferedAt(more[..|more| - 1], clock);
    }
  }

  // The i-th point, as it is offered.
  function PointAt(tag: string, es: seq<Entry>, clock: nat -> nat, i: nat): Point
    requires i < |es|
  {
    PointFor(tag, Named(es[i].key), es[i].cell, clock(i + 1))
  }

  lemma {:induction false} OfferedPoints(tag: string, es: seq<Entry>, clock: nat -> nat)
    ensures
      var o := Offered([], ToPoints(tag, es), clock);
      |o| == |es| && forall i :: 0 <= i < |es| ==> o[i] == PointAt(tag, es, clock, i)
  {
    OfferedAt(ToPoints(tag, es), clock);
    forall i | 0 <= i < |es|
      ensures Filled(ToPoints(tag, es)[i], clock(i + 1)) == PointAt(tag, es, clock, i)
    {
      FilledPoint(tag, es[i], clock(i + 1));
    }
  }

  lemma {:induction false} FilledPoint(tag: string, e: Entry, now: nat)
    ensures Filled(PointFor(tag, e.key, e.cell, 0), now) == PointFor(tag, Named(e.key), e.cell, now)
  {
  }

  // What is held under a key, in terms of the points offered.
  lemma {:induction false} HeldOf(tag: string, es: seq<Entry>, clock: nat -> nat, key: string)
    ensures OneEach(Sent(tag, es, clock))
    ensures
      var q := Held(Sent(tag, es, clock), tag, key);
      && (q.None? <==> forall i :: 0 <= i < |es| ==> Named(es[i].key) != key)
      && (q.Some? ==> Chosen(tag, es, clock, key, q.value))
  {
    hide PointFor, AddAll, Offered, ToPoints;
    var o := Offered([], ToPoints(tag, es), clock);
    OfferedPoints(tag, es, clock);
    AddAllKeepsNewest([], ToPoints(tag, es), clock, tag, key);
    var q := Held(Sent(tag, es, clock), tag, key);
    if q.Some? {
      var w :| FirstAt(o, w, q.value) && o[w].(tombstone := q.value.tombstone) == q.value;
      var t :| 0 <= t < |o| && Is(o[t], tag, key) && o[t].tombstone == q.value.tombstone;
      ChosenIs(tag, es, clock, key, q.value, o, w, t);
    } else if i :| 0 <= i < |es| && Named(es[i].key) == key {
      assert Is(o[i], tag, key);
    }
  }

  // Of the points under a key the w-th is the newest, and of several the first.
  ghost predicate Best(es: seq<Entry>, clock: nat -> nat, key: string, w: int) {
    && 0 <= w < |es| && Named(es[w].key) == key
    && forall j :: 0 <= j < |es| && j != w && Named(es[j].key) == key ==> Wins(w, j, clock)
  }

  ghost predicate SomeGone(es: seq<Entry>, key: string) {
    exists i :: 0 <= i < |es| && Named(es[i].key) == key && es[i].cell.None?
  }

  // q has a tombstone if one of the points under its key has; else it is the best of them.
  ghost predicate Chosen(tag: string, es: seq<Entry>, clock: nat -> nat, key: string, q: Point) {
    exists w :: Best(es, clock, key, w) && if SomeGone(es, key) then Deleted(q) else q == PointAt(tag, es, clock, w)
  }

  // The points offered, with what is known of them.
  ghost predicate OfferedAs(o: seq<Point>, tag: string, es: seq<Entry>, clock: nat -> nat) {
    |o| == |es| && forall i :: 0 <= i < |es| ==>
      && o[i].tombstone == (if es[i].cell.None? then 1 else 0) && o[i].time == clock(i + 1)
      && o[i].typ == tag && o[i].key == Named(es[i].key)
  }

  lemma {:induction false} OfferedKnown(o: seq<Point>, tag: string, es: seq<Entry>, clock: nat -> nat)
    requires |o| == |es| && forall i :: 0 <= i < |es| ==> o[i] == PointAt(tag, es, clock, i)
    ensures OfferedAs(o, tag, es, clock)
  {
    hide PointFor, Named;
    forall i | 0 <= i < |es|
      ensures o[i].tombstone == if es[i].cell.None? then 1 else 0
    {
      TombstoneOf(tag, Named(es[i].key), es[i].cell, clock(i + 1));
    }
  }

  lemma {:induction false} ChosenIs(tag: string, es: seq<Entry>, clock: nat -> nat, key: string, q: Point,
          o: seq<Point>, w: nat, t: nat)
    requires |o| == |es| && forall i :: 0 <= i < |es| ==> o[i] == PointAt(tag, es, clock, i)
    requires Is(q, tag, key) && NewestIn(o, q)
    requires FirstAt(o, w, q) && o[w].(tombstone := q.tombstone) == q
    requires t < |o| && Is(o[t], tag, key) && o[t].tombstone == q.tombstone
    ensures Chosen(tag, es, clock, key, q)
  {
    hide PointFor, Named, PointAt;
    OfferedKnown(o, tag, es, clock);
    BestIs(tag, es, clock, key, q, o, w);
    GoneIs(tag, es, clock, key, q, o, t);
    assert q == if q.tombstone == o[w].tombstone then o[w] else q;
    assert o[w].tombstone == 0 || SomeGone(es, key);
  }

  lemma {:induction false} BestIs(tag: string, es: seq<Entry>, clock: nat -> nat, key: string, q: Point, o: seq<Point>,
                                  w: nat)
    requires OfferedAs(o, tag, es, clock) && Is(q, tag, key) && NewestIn(o, q)
    requires FirstAt(o, w, q) && o[w].(tombstone := q.tombstone) == q
    ensures Best(es, clock, key, w)
  {
    hide Named;
    forall j | 0 <= j < |es| && j != w && Named(es[j].key) == key
      ensures Wins(w, j, clock)
    {
      assert Is(o[j], q.typ, q.key);
    }
  }

  lemma {:induction false} GoneIs(tag: string, es: seq<Entry>, clock: nat -> nat, key: string, q: Point, o: seq<Point>,
                                  t: nat)
    requires OfferedAs(o, tag, es, clock) && Is(q, tag, key) && NewestIn(o, q)
    requires t < |o| && Is(o[t], tag, key) && o[t].tombstone == q.tombstone
    ensures q.tombstone == if SomeGone(es, key) then 1 else 0
  {
    hide Named;
    if i :| 0 <= i < |es| && Named(es[i].key) == key && es[i].cell.None? {
      assert Is(o[i], q.typ, q.key);
    }
  }

  lemma {:induction false} TombstoneOf(tag: string, key: string, c: Cell, now: nat)
    ensures PointFor(tag, key, c, now).tombstone == if c.None? then 1 else 0
  {
  }

  // ----- names and numbers -----

  lemma {:induction false} SentNamed(tag: string, more: seq<Point>, clock: nat -> nat)
    requires forall i :: 0 <= i < |more| ==> more[i].typ == tag
    ensures forall i :: 0 <= i < |AddAll([], more, clock)| ==>
      AddAll([], more, clock)[i].typ == tag && AddAll([], more, clock)[i].key != ""
  {
    if more != [] {
      SentNamed(tag, more[..|more| - 1], clock);
    }
  }

  // The keys of the points.
  function KeysOf(ps: seq<Point>): set<string> { set i | 0 <= i < |ps| :: ps[i].key }

  lemma {:induction false} AsManyKeys(ps: seq<Point>, tag: string)
    requires OneEach(ps) && forall i :: 0 <= i < |ps| ==> ps[i].typ == tag
    ensures |KeysOf(ps)| == |ps|
  {
    if ps != [] {
      var n := |ps| - 1;
      AsManyKeys(ps[..n], tag);
      KeysNext(ps);
      assert ps[n].key !in KeysOf(ps[..n]) by {
        assert forall i :: 0 <= i < n ==> !Is(ps[i], ps[n].typ, ps[n].key);
      }
    }
  }

  lemma {:induction false} KeysNext(ps: seq<Point>)
    requires ps != []
    ensures KeysOf(ps) == KeysOf(ps[..|ps| - 1]) + {ps[|ps| - 1].key}
  {
    var n := |ps| - 1;
    forall k | k in KeysOf(ps)
      ensures k in KeysOf(ps[..n]) + {ps[n].key}
    {
      var i :| 0 <= i < |ps| && ps[i].key == k;
      assert i < n ==> ps[..n][i].key == k;
    }
    forall k | k in KeysOf(ps[..n])
      ensures k in KeysOf(ps)
    {
      var i :| 0 <= i < n && ps[..n][i].key == k;
      assert ps[i].key == k;
    }
  }

  // The last point for a key of a map is the one that is held under it.
  lemma {:induction false} LastIsHeld(ps: seq<Point>, tag: string, k: string)
    requires OneEach(ps) && forall i :: 0 <= i < |ps| ==> ps[i].typ == tag && ps[i].key != ""
    ensures LastPut(ps, k) == if k == "" then None else Held(ps, tag, k)
    ensures k in KeysOf(ps) <==> k != "" && Held(ps, tag, k).Some?
  {
    LastPutIs(ps, k);
    if i :| 0 <= i < |ps| && ps[i].key == k {
      HeldIn(ps, tag, k, i);
      var p := LastPut(ps, k);
      assert DictKey(ps[i]) == k;
      var j :| 0 <= j < |ps| && ps[j] == p.value && DictKey(ps[j]) == k && forall m :: j < m < |ps| ==> DictKey(ps[m]) != k;
      HeldIn(ps, tag, k, j);
    }
  }

  // ----- what arrives -----

  // The cell that is written for a key: no cell if it is removed.
  function CellOf(a: map<string, Cell>, k: string): Cell { if k in a then a[k] else None }

  function Landed(c: Cell): Option<Cell> { if c.None? then None else Some(c) }

  // What stands under a key of b after the changes from b to a were written and applied.
  ghost function Arrives(b: map<string, Cell>, a: map<string, Cell>, ct: CellType, v: View, clock: nat -> nat,
                         k: string): Option<Cell>
    requires Viewed(b, a, v)
  {
    if k == "" then Lookup(b, "")
    else if k == "0" && DictWrites(b, a, ct, v.moved, "") then
      if !DictWrites(b, a, ct, v.moved, "0") then Landed(CellOf(a, ""))
      else if CellOf(a, "").None? || CellOf(a, "0").None? then None
      else Landed(if ZeroWins(b, a, ct, v, clock) then CellOf(a, "0") else CellOf(a, ""))
    else if DictWrites(b, a, ct, v.moved, k) then Landed(CellOf(a, k))
    else Lookup(b, k)
  }

  lemma {:induction false} PlaceIs(es: seq<Entry>, i: nat)
    requires DistinctKeys(es) && i < |es|
    ensures Place(es, es[i].key) == i
  {
    assert Place(es, es[i].key) <= i;
  }

  // What the point held under a key makes of an entry of a map.
  lemma {:induction false} ChosenPut(tag: string, es: seq<Entry>, ct: CellType, clock: nat -> nat, key: string, q: Point,
                                     was: Option<Cell>)
    requires Chosen(tag, es, clock, key, q) && Fits(es, ct)
    ensures Readable(q, ct)
    ensures AsWritten(es, clock, key, Put(was, ct, Some(q)))
  {
    hide PointFor, SetVal, Deleted, Carries, SomeGone;
    var w :| Best(es, clock, key, w) && if SomeGone(es, key) then Deleted(q) else q == PointAt(tag, es, clock, w);
    if !SomeGone(es, key) {
      BestInRange(es, clock, key, w);
      PointCarries(tag, Named(es[w].key), es[w].cell, clock(w + 1));
      SetValReads(q, es[w].cell, ct, ZeroCell(ct));
    }
  }

  lemma {:induction false} BestInRange(es: seq<Entry>, clock: nat -> nat, key: string, w: int)
    requires Best(es, clock, key, w) && !SomeGone(es, key)
    ensures 0 <= w < |es| && es[w].cell.Some?
  {
  }

  // What the entries under a key come to.
  ghost predicate AsWritten(es: seq<Entry>, clock: nat -> nat, key: string, r: Option<Cell>) {
    if SomeGone(es, key) then r == None else exists w :: Best(es, clock, key, w) && r == Some(es[w].cell)
  }

  lemma {:induction false} PointCarries(tag: string, key: string, c: Cell, now: nat)
    ensures Carries(PointFor(tag, key, c, now), c)
  {
  }

  // One key.
  lemma {:induction false} ArrivesAt(b: map<string, Cell>, a: map<string, Cell>, ct: CellType, v: View, tag: string,
                                     clock: nat -> nat, k: string)
    requires Viewed(b, a, v) && Fits(DictDiff(b, a, ct, v), ct)
    ensures
      var ps := Sent(tag, DictDiff(b, a, ct, v), clock);
      && Put(Lookup(b, k), ct, LastPut(ps, k)) == Arrives(b, a, ct, v, clock, k)
      && (k in KeysOf(ps) <==> k in NamesWritten(b, a, ct, v.moved))
  {
    hide Sent, DictDiff, Chosen, LastPut, Put, KeysOf, Fits;
    var es := DictDiff(b, a, ct, v);
    var ps := Sent(tag, es, clock);
    SentIs(tag, es, clock);
    HeldOf(tag, es, clock, k);
    LastIsHeld(ps, tag, k);
    PutNothing(Lookup(b, k), ct);
    if k != "" {
      EntriesNamed(b, a, ct, v, k);
      if Held(ps, tag, k).Some? {
        ChosenPut(tag, es, ct, clock, k, Held(ps, tag, k).value, Lookup(b, k));
        WhatArrives(b, a, ct, v, clock, k, Put(Lookup(b, k), ct, LastPut(ps, k)));
      }
    }
  }

  lemma {:induction false} SentIs(tag: string, es: seq<Entry>, clock: nat -> nat)
    ensures OneEach(Sent(tag, es, clock))
    ensures forall i :: 0 <= i < |Sent(tag, es, clock)| ==>
      Sent(tag, es, clock)[i].typ == tag && Sent(tag, es, clock)[i].key != ""
  {
    HeldOf(tag, es, clock, "");
    SentNamed(tag, ToPoints(tag, es), clock);
  }

  lemma {:induction false} PutNothing(was: Option<Cell>, ct: CellType)
    ensures Put(was, ct, None) == was
  {
  }

  // The entries that are written under a name.
  lemma {:induction false} EntriesNamed(b: map<string, Cell>, a: map<string, Cell>, ct: CellType, v: View, k: string)
    requires Viewed(b, a, v) && k != ""
    ensures
      var es := DictDiff(b, a, ct, v);
      && (forall i :: 0 <= i < |es| && Named(es[i].key) == k ==>
            DictWrites(b, a, ct, v.moved, es[i].key) && es[i].cell == CellOf(a, es[i].key))
      && ((forall i :: 0 <= i < |es| ==> Named(es[i].key) != k) <==>
            !DictWrites(b, a, ct, v.moved, k) && (k == "0" ==> !DictWrites(b, a, ct, v.moved, "")))
      && (k in NamesWritten(b, a, ct, v.moved) <==>
            DictWrites(b, a, ct, v.moved, k) || (k == "0" && DictWrites(b, a, ct, v.moved, "")))
  {
    hide DictDiff, DictWrites;
    var es := DictDiff(b, a, ct, v);
    forall i | 0 <= i < |es|
      ensures DictWrites(b, a, ct, v.moved, es[i].key) && es[i].cell == CellOf(a, es[i].key)
    {
      InDictDiff(b, a, ct, v, es[i]);
    }
    forall n | DictWrites(b, a, ct, v.moved, n) && Named(n) == k
      ensures exists i :: 0 <= i < |es| && es[i].key == n
      ensures k in NamesWritten(b, a, ct, v.moved)
    {
      InDictDiff(b, a, ct, v, Entry(n, CellOf(a, n)));
      WritesKnown(b, a, ct, v.moved, n);
      var i :| 0 <= i < |es| && es[i] == Entry(n, CellOf(a, n));
    }
    assert Named(k) == k && Named("") == "0";
  }

  lemma {:induction false} WritesKnown(b: map<string, Cell>, a: map<string, Cell>, ct: CellType, moved: set<string>,
                                       k: string)
    requires DictWrites(b, a, ct, moved, k)
    ensures k in b.Keys + a.Keys
  {
  }

  lemma {:induction false} WhatArrives(b: map<string, Cell>, a: map<string, Cell>, ct: CellType, v: View,
                                       clock: nat -> nat, k: string, r: Option<Cell>)
    requires Viewed(b, a, v) && k != ""
    requires AsWritten(DictDiff(b, a, ct, v), clock, k, r)
    requires DictWrites(b, a, ct, v.moved, k) || (k == "0" && DictWrites(b, a, ct, v.moved, ""))
    ensures r == Arrives(b, a, ct, v, clock, k)
  {
    hide DictDiff, DictWrites, AsWritten, Wins, Place;
    var es := DictDiff(b, a, ct, v);
    DictDiffDistinct(b, a, ct, v);
    var n := if k == "0" && DictWrites(b, a, ct, v.moved, "") then "" else k;
    var i := EntryOf(b, a, ct, v, n);
    assert Named(n) == k;
    if n == "" && DictWrites(b, a, ct, v.moved, "0") {
      var j := EntryOf(b, a, ct, v, "0");
      PlaceIs(es, i);
      PlaceIs(es, j);
      TwoNamed(es, i, j);
      TwoWritten(es, clock, i, j, r);
    } else {
      EntriesNamed(b, a, ct, v, k);
      forall m | 0 <= m < |es| && Named(es[m].key) == k
        ensures m == i
      {
        assert DictWrites(b, a, ct, v.moved, es[m].key);
      }
      OneWritten(es, clock, k, i, r);
    }
  }

  lemma {:induction false} OneWritten(es: seq<Entry>, clock: nat -> nat, k: string, i: nat, r: Option<Cell>)
    requires i < |es| && Named(es[i].key) == k && forall m :: 0 <= m < |es| && Named(es[m].key) == k ==> m == i
    requires AsWritten(es, clock, k, r)
    ensures r == Landed(es[i].cell)
  {
    hide Named;
  }

  lemma {:induction false} TwoWritten(es: seq<Entry>, clock: nat -> nat, i: nat, j: nat, r: Option<Cell>)
    requires i < |es| && j < |es| && i != j && Named(es[i].key) == "0" && Named(es[j].key) == "0"
    requires forall m :: 0 <= m < |es| && Named(es[m].key) == "0" ==> m == i || m == j
    requires AsWritten(es, clock, "0", r)
    ensures r ==
      if es[i].cell.None? || es[j].cell.None? then None else Landed(if Wins(j, i, clock) then es[j].cell else es[i].cell)
  {
    hide Named;
    if es[i].cell.Some? && es[j].cell.Some? {
      assert !SomeGone(es, "0");
      var w :| Best(es, clock, "0", w) && r == Some(es[w].cell);
      assert w == i || w == j;
    }
  }

  lemma {:induction false} TwoNamed(es: seq<Entry>, i: nat, j: nat)
    requires DistinctKeys(es) && i < |es| && j < |es| && es[i].key == "" && es[j].key == "0"
    ensures forall m :: 0 <= m < |es| && Named(es[m].key) == "0" ==> m == i || m == j
  {
  }

  lemma {:induction false} EntryOf(b: map<string, Cell>, a: map<string, Cell>, ct: CellType, v: View, n: string)
    returns (i: nat)
    requires Viewed(b, a, v) && DictWrites(b, a, ct, v.moved, n)
    ensures i < |DictDiff(b, a, ct, v)| && DictDiff(b, a, ct, v)[i] == Entry(n, CellOf(a, n))
  {
    hide DictDiff, DictWrites;
    InDictDiff(b, a, ct, v, Entry(n, CellOf(a, n)));
    i :| 0 <= i < |DictDiff(b, a, ct, v)| && DictDiff(b, a, ct, v)[i] == Entry(n, CellOf(a, n));
  }

  // Everything that the changes of a map lead to: refused beyond 1000 names, or under every key
  // what arrives there.
  lemma {:induction false} MapArrives(b: map<string, Cell>, a: map<string, Cell>, ct: CellType, v: View, tag: string,
                                      clock: nat -> nat)
    requires Viewed(b, a, v) && Fits(DictDiff(b, a, ct, v), ct)
    ensures
      var ps := Sent(tag, DictDiff(b, a, ct, v), clock);
      var (r, o) := DictAfter(b, ct, ps);
      && |ps| == |NamesWritten(b, a, ct, v.moved)|
      && (|ps| > MAX_STRUCTURE_SIZE ==> o == Failed)
      && (|ps| <= MAX_STRUCTURE_SIZE ==> o == Done && forall k :: Lookup(r, k) == Arrives(b, a, ct, v, clock, k))
  {
    hide Sent, DictDiff, Put, LastPut, KeysOf, Fits, Readable, Arrives, NamesWritten;
    var es := DictDiff(b, a, ct, v);
    var ps := Sent(tag, es, clock);
    SentIs(tag, es, clock);
    AsManyKeys(ps, tag);
    forall k
      ensures Put(Lookup(b, k), ct, LastPut(ps, k)) == Arrives(b, a, ct, v, clock, k)
      ensures k in KeysOf(ps) <==> k in NamesWritten(b, a, ct, v.moved)
    {
      ArrivesAt(b, a, ct, v, tag, clock, k);
    }
    assert KeysOf(ps) == NamesWritten(b, a, ct, v.moved);
    forall i | 0 <= i < |ps|
      ensures Readable(ps[i], ct)
    {
      HeldOf(tag, es, clock, ps[i].key);
      HeldIn(ps, tag, ps[i].key, i);
      ChosenPut(tag, es, ct, clock, ps[i].key, ps[i], None);
    }
    DictHolds(b, ct, ps);
    AllReadable(ct, ps);
  }

  lemma {:induction false} AllReadable(ct: CellType, ps: seq<Point>)
    requires forall i :: 0 <= i < |ps| ==> Readable(ps[i], ct)
    ensures FirstUnreadable(ct, ps) == |ps| && ps[..FirstUnreadable(ct, ps)] == ps
  {
    hide Readable;
  }

  // What becomes of the entry with a blank key if nothing else is written as "0": it stays itself;
  // changed or new, its value comes to stand under "0"; removed, "0" is removed.
  lemma {:induction false} BlankKeyArrives(b: map<string, Cell>, a: map<string, Cell>, ct: CellType, v: View, tag: string,
                                           clock: nat -> nat)
    requires Viewed(b, a, v) && Fits(DictDiff(b, a, ct, v), ct)
    requires |NamesWritten(b, a, ct, v.moved)| <= MAX_STRUCTURE_SIZE && !DictWrites(b, a, ct, v.moved, "0")
    ensures
      var r := DictAfter(b, ct, Sent(tag, DictDiff(b, a, ct, v), clock)).0;
      && Lookup(r, "") == Lookup(b, "")
      && Lookup(r, "0") ==
        if !DictWrites(b, a, ct, v.moved, "") then Lookup(b, "0") else if "" in a then Landed(a[""]) else None
  {
    hide Sent, DictDiff, DictAfter, NamesWritten, Fits;
    MapArrives(b, a, ct, v, tag, clock);
  }

  // The second map is what arrives exactly if the change survives.
  lemma {:induction false} MapMergesIff(b: map<string, Cell>, a: map<string, Cell>, ct: CellType, v: View, tag: string,
                                        clock: nat -> nat)
    requires Viewed(b, a, v) && Fits(DictDiff(b, a, ct, v), ct)
    requires HasType(VDict(b), Dict(ct)) && HasType(VDict(a), Dict(ct))
    ensures DictAfter(b, ct, Sent(tag, DictDiff(b, a, ct, v), clock)) == (a, Done) <==>
      MergesBack(VDict(b), VDict(a), Dict(ct), v, clock)
  {
    hide Sent, DictDiff, Arrives, Fits, BlankStays, NamesWritten, HasType, DictAfter;
    MapArrives(b, a, ct, v, tag, clock);
    ArrivesIff(b, a, ct, v, clock);
    var (r, o) := DictAfter(b, ct, Sent(tag, DictDiff(b, a, ct, v), clock));
    if o == Done && forall k :: Arrives(b, a, ct, v, clock, k) == Lookup(a, k) {
      assert forall k :: Lookup(r, k) == Lookup(a, k);
      SameMap(r, a);
    }
  }

  lemma {:induction false} ArrivesIff(b: map<string, Cell>, a: map<string, Cell>, ct: CellType, v: View, clock: nat -> nat)
    requires Viewed(b, a, v)
    ensures (forall k :: Arrives(b, a, ct, v, clock, k) == Lookup(a, k)) <==>
      && (forall k :: k in a && a[k].None? ==> k in b && b[k].None?)
      && BlankStays(b, a, ct, v, clock)
  {
    hide Arrives, Viewed, ZeroWins;
    forall k
      ensures Arrives(b, a, ct, v, clock, k) == Lookup(a, k) <==> RightAt(b, a, ct, v, clock, k)
    {
      ArrivesRight(b, a, ct, v, clock, k);
    }
    if forall k :: RightAt(b, a, ct, v, clock, k) {
      assert RightAt(b, a, ct, v, clock, "") && RightAt(b, a, ct, v, clock, "0");
      forall k | k in a && a[k].None?
        ensures k in b && b[k].None?
      {
        assert RightAt(b, a, ct, v, clock, k);
      }
    }
  }

  ghost predicate RightAt(b: map<string, Cell>, a: map<string, Cell>, ct: CellType, v: View, clock: nat -> nat, k: string)
    requires Viewed(b, a, v)
  {
    if k == "" then Lookup(b, "") == Lookup(a, "")
    else if k == "0" && DictWrites(b, a, ct, v.moved, "") && Lookup(b, "") == Lookup(a, "") then
      BlankStays(b, a, ct, v, clock)
    else if k == "0" && DictWrites(b, a, ct, v.moved, "") then Arrives(b, a, ct, v, clock, "0") == Lookup(a, "0")
    else k in a && a[k].None? ==> k in b && b[k].None?
  }

  lemma {:induction false} ArrivesRight(b: map<string, Cell>, a: map<string, Cell>, ct: CellType, v: View,
                                        clock: nat -> nat, k: string)
    requires Viewed(b, a, v)
    ensures Arrives(b, a, ct, v, clock, k) == Lookup(a, k) <==> RightAt(b, a, ct, v, clock, k)
  {
    hide Viewed, ZeroWins;
  }

  // ----- a map that is encoded -----

  // What decoding the points of a map gives under a key: of a blank key and "0" the later.
  function EncodedArrives(m: map<string, Cell>, es: seq<Entry>, k: string): Option<Cell> {
    if k == "" then None
    else if k == "0" && "" in m && !("0" in m && Place(es, "0") > Place(es, "")) then Landed(m[""])
    else Landed(CellOf(m, k))
  }

  lemma {:induction false} EncodedAt(m: map<string, Cell>, ks: seq<string>, ct: CellType, ps: seq<Point>, k: string)
    requires IsOrder(ks, m.Keys) && Written(ps, DictEntries(m, ks)) && Fits(DictEntries(m, ks), ct)
    ensures Put(None, ct, LastPut(ps, k)) == EncodedArrives(m, DictEntries(m, ks), k)
  {
    var es := DictEntries(m, ks);
    assert |ps| == |es| && DistinctKeys(es);
    forall i | 0 <= i < |es|
      ensures DictKey(ps[i]) == Named(es[i].key)
      ensures Put(None, ct, Some(ps[i])) == Landed(es[i].cell)
    {
      EntryPut(ps, es, ct, i);
    }
    hide *;
    PutNothing(None, ct);
    var i := LastPutAt(ps, k);
    if i < |ps| {
      LaterPlace(es, i, k);
      LaterArrives(m, ks, i, k);
    } else {
      NoneArrives(m, ks, k);
    }
  }

  lemma {:induction false} LastPutAt(ps: seq<Point>, k: string) returns (i: nat)
    ensures i <= |ps| && LastPut(ps, k) == if i == |ps| then None else Some(ps[i])
    ensures i < |ps| ==> DictKey(ps[i]) == k && forall j :: i < j < |ps| ==> DictKey(ps[j]) != k
    ensures i == |ps| ==> forall j :: 0 <= j < |ps| ==> DictKey(ps[j]) != k
  {
    LastPutIs(ps, k);
    i := |ps|;
    if LastPut(ps, k).Some? {
      i :| 0 <= i < |ps| && ps[i] == LastPut(ps, k).value && DictKey(ps[i]) == k
        && forall j :: i < j < |ps| ==> DictKey(ps[j]) != k;
    }
  }

  lemma {:induction false} EntryPut(ps: seq<Point>, es: seq<Entry>, ct: CellType, i: nat)
    requires Written(ps, es) && Fits(es, ct) && i < |es|
    ensures DictKey(ps[i]) == Named(es[i].key)
    ensures Put(None, ct, Some(ps[i])) == Landed(es[i].cell)
  {
    hide SetVal, Carries, Safe, ScalarHas, Deleted;
    SetValReads(ps[i], es[i].cell, ct, ZeroCell(ct));
  }

  lemma {:induction false} LaterArrives(m: map<string, Cell>, ks: seq<string>, i: nat, k: string)
    requires IsOrder(ks, m.Keys) && i < |ks| && Named(ks[i]) == k
    requires
      var es := DictEntries(m, ks);
      Place(es, ks[i]) == i && forall j :: 0 <= j < |es| && Named(es[j].key) == k ==> Place(es, es[j].key) == j <= i
    ensures EncodedArrives(m, DictEntries(m, ks), k) == Landed(m[ks[i]])
  {
    hide Landed, Place;
    var es := DictEntries(m, ks);
    if k == "0" {
      forall n | n in m && Named(n) == "0"
        ensures exists j :: 0 <= j <= i && es[j].key == n && Place(es, n) == j
      {
        var j :| 0 <= j < |ks| && ks[j] == n;
        assert es[j].key == n;
      }
    }
  }

  lemma {:induction false} NoneArrives(m: map<string, Cell>, ks: seq<string>, k: string)
    requires IsOrder(ks, m.Keys) && forall i :: 0 <= i < |ks| ==> Named(ks[i]) != k
    ensures EncodedArrives(m, DictEntries(m, ks), k) == None
  {
    hide Place;
    assert forall n :: n in m ==> exists i :: 0 <= i < |ks| && ks[i] == n;
    assert Named(k) == if k == "" then "0" else k;
  }

  // The last entry for a name comes from one key or the other.
  lemma {:induction false} LaterPlace(es: seq<Entry>, i: nat, k: string)
    requires i < |es| && Named(es[i].key) == k && DistinctKeys(es)
    requires forall j :: i < j < |es| ==> Named(es[j].key) != k
    ensures Place(es, es[i].key) == i
    ensures forall j :: 0 <= j < |es| && Named(es[j].key) == k ==> Place(es, es[j].key) == j <= i
  {
    PlaceIs(es, i);
    forall j | 0 <= j < |es| && Named(es[j].key) == k
      ensures Place(es, es[j].key) == j <= i
    {
      PlaceIs(es, j);
    }
  }

  // A map always decodes, and never to one with a blank key.
  lemma {:induction false} EncodedMapArrives(m: map<string, Cell>, ks: seq<string>, ct: CellType, ps: seq<Point>)
    requires IsOrder(ks, m.Keys) && Written(ps, DictEntries(m, ks)) && Fits(DictEntries(m, ks), ct)
    requires |m| <= MAX_STRUCTURE_SIZE
    ensures
      var (r, o) := DictAfter(map[], ct, ps);
      o == Done && forall k :: Lookup(r, k) == EncodedArrives(m, DictEntries(m, ks), k)
  {
    hide EncodedArrives, Put, LastPut, Readable, Written, Fits;
    OrderSize(ks, m.Keys);
    EntriesReadable(DictEntries(m, ks), ct, ps);
    AllReadable(ct, ps);
    DictHolds(map[], ct, ps);
    forall k
      ensures Put(None, ct, LastPut(ps, k)) == EncodedArrives(m, DictEntries(m, ks), k)
    {
      EncodedAt(m, ks, ct, ps, k);
    }
  }

  lemma {:induction false} EntriesReadable(es: seq<Entry>, ct: CellType, ps: seq<Point>)
    requires Written(ps, es) && Fits(es, ct)
    ensures |ps| == |es| && forall i :: 0 <= i < |ps| ==> Readable(ps[i], ct)
  {
    hide SetVal, Carries, Safe, ScalarHas;
    forall i | 0 <= i < |ps|
      ensures Readable(ps[i], ct)
    {
      SetValReads(ps[i], es[i].cell, ct, ZeroCell(ct));
    }
  }
}
