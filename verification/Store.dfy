// Writes of points to nodes and edges (store/sqlite.go, nodePoints and edgePoints).
module Store {
  import opened Wrappers
  import opened Points
  import opened Hashes
  import opened HashIndex

  // ----- one batch against the rows of a node or an edge -----

  // Points without a time get the current one, points without a key the key "0".
  function Stamp(p: Point, now: nat): Point {
    var q := if p.time == ZERO_TIME then p.(time := now) else p;
    if q.key == "" then q.(key := "0") else q
  }

  // The row a point updates: the first with its type and key.
  function RowFor(rows: seq<Point>, p: Point): (j: nat)
    ensures j <= |rows|
    ensures j < |rows| ==> IdOf(rows[j]) == IdOf(p)
    ensures forall i :: 0 <= i < j ==> IdOf(rows[i]) != IdOf(p)
  {
    if rows == [] || IdOf(rows[0]) == IdOf(p) then 0 else 1 + RowFor(rows[1..], p)
  }

  // The rows after a batch.  Every point is matched against the rows read before the batch.
  function BatchRows(db: seq<Point>, batch: seq<Point>, now: nat): (r: seq<Point>)
    ensures |db| <= |r|
  {
    if batch == [] then db
    else
      var out := BatchRows(db, batch[..|batch| - 1], now);
      var p := Stamp(batch[|batch| - 1], now);
      var j := RowFor(db, p);
      if j == |db| then out + [p]
      else if db[j].time <= p.time then out[j := p]
      else out
  }

  // The change that the program works out for the hash.
  function BatchHash(crc: Checksum, db: seq<Point>, batch: seq<Point>, now: nat): Hash {
    if batch == [] then 0
    else
      var u := BatchHash(crc, db, batch[..|batch| - 1], now);
      var p := Stamp(batch[|batch| - 1], now);
      var j := RowFor(db, p);
      if j == |db| then Xor(u, Crc(crc, p))
      else if db[j].time <= p.time then Xor(Xor(u, Crc(crc, db[j])), Crc(crc, p))
      else u
  }

  method MergeBatch(crc: Checksum, db: seq<Point>, batch: seq<Point>, now: nat) returns (rows: seq<Point>,
          hashUpdate: Hash)
    ensures rows == BatchRows(db, batch, now) && hashUpdate == BatchHash(crc, db, batch, now)
  {
    hide Xor, Crc, Stamp, RowFor, IdOf;
    rows, hashUpdate := db, 0;
    for i := 0 to |batch|
      invariant rows == BatchRows(db, batch[..i], now)
      invariant hashUpdate == BatchHash(crc, db, batch[..i], now)
    {
      var pIn := Stamp(batch[i], now);
      assert batch[..i + 1][..i] == batch[..i];
      var j := FindRow(db, pIn);
      if j < |db| {
        if db[j].time <= pIn.time {
          rows := rows[j := pIn];
          hashUpdate := Xor(hashUpdate, Crc(crc, db[j]));
          hashUpdate := Xor(hashUpdate, Crc(crc, pIn));
        }
      } else {
        rows := rows + [pIn];
        hashUpdate := Xor(hashUpdate, Crc(crc, pIn));
      }
    }
    assert batch[..|batch|] == batch;
  }

  method FindRow(db: seq<Point>, p: Point) returns (j: nat)
    ensures j == RowFor(db, p)
  {
    j := 0;
    while j < |db|
      invariant j <= |db|
      invariant forall i :: 0 <= i < j ==> IdOf(db[i]) != IdOf(p)
    {
      if p.typ == db[j].typ && p.key == db[j].key {
        return;
      }
      j := j + 1;
    }
  }

  // ----- what stands in the rows -----

  // Does the point p of a batch go to the row q?
  predicate GoesTo(p: Point, q: Point) {
    q.typ == p.typ && q.key == if p.key == "" then "0" else p.key
  }

  // The time that a point is written with: its own, or the current one if it has none.
  function TimeOf(p: Point, now: nat): nat { if p.time == 0 then now else p.time }

  // q is the row that is written for p.
  predicate WrittenAs(p: Point, q: Point, now: nat) {
    && GoesTo(p, q) && q.time == TimeOf(p, now)
    && q.value == p.value && q.text == p.text && q.tombstone == p.tombstone && q.origin == p.origin
  }

  // On edges the points that tell the node type are left out.
  predicate Counts(p: Point, onEdge: bool) { onEdge ==> p.typ != "nodeType" }

  // Does p replace the row r that was there before the batch?
  predicate Replaces(p: Point, r: Point, onEdge: bool, now: nat) {
    Counts(p, onEdge) && GoesTo(p, r) && r.time <= TimeOf(p, now)
  }

  // Is row j the one that a point for it is matched with?
  predicate FirstRow(db: seq<Point>, j: nat) {
    j < |db| && forall i :: 0 <= i < j ==> IdOf(db[i]) != IdOf(db[j])
  }

  // A row that was there is replaced by the last point of the batch that is not older than it,
  // or stays.
  ghost predicate RowKept(db: seq<Point>, batch: seq<Point>, now: nat, onEdge: bool, j: nat, q: Point)
    requires j < |db|
  {
    if FirstRow(db, j) && exists i :: 0 <= i < |batch| && Replaces(batch[i], db[j], onEdge, now)
    then exists i :: 0 <= i < |batch| && LastFor(db[j], batch, now, onEdge, i) && WrittenAs(batch[i], q, now)
    else q == db[j]
  }

  predicate LastFor(r: Point, batch: seq<Point>, now: nat, onEdge: bool, i: nat)
    requires i < |batch|
  {
    Replaces(batch[i], r, onEdge, now) && forall m :: i < m < |batch| ==> !Replaces(batch[m], r, onEdge, now)
  }

  // No row was there for p.
  predicate IsNew(db: seq<Point>, p: Point, onEdge: bool) {
    Counts(p, onEdge) && forall j :: 0 <= j < |db| ==> !GoesTo(p, db[j])
  }

  // The rows after a batch: those that were there, and behind them one for each new point.
  ghost predicate RowsWritten(db: seq<Point>, batch: seq<Point>, now: nat, onEdge: bool, rows: seq<Point>) {
    && |db| <= |rows|
    && (forall j :: 0 <= j < |db| ==> RowKept(db, batch, now, onEdge, j, rows[j]))
    && (forall j :: |db| <= j < |rows| ==> FromBatch(db, batch, now, onEdge, rows[j]))
    && (forall i :: 0 <= i < |batch| && IsNew(db, batch[i], onEdge) ==> Appended(db, batch[i], now, rows))
  }

  ghost predicate FromBatch(db: seq<Point>, batch: seq<Point>, now: nat, onEdge: bool, q: Point) {
    exists i :: 0 <= i < |batch| && IsNew(db, batch[i], onEdge) && WrittenAs(batch[i], q, now)
  }

  ghost predicate Appended(db: seq<Point>, p: Point, now: nat, rows: seq<Point>) {
    exists j :: |db| <= j < |rows| && WrittenAs(p, rows[j], now)
  }

  lemma {:induction false} StampWrites(p: Point, now: nat)
    ensures WrittenAs(p, Stamp(p, now), now) && (now != 0 ==> Stamp(p, now).time != 0)
    ensures forall q :: IdOf(q) == IdOf(Stamp(p, now)) <==> GoesTo(p, q)
    ensures forall q :: WrittenAs(p, q, now) ==> q == Stamp(p, now)
  {
  }

  lemma {:induction false} RowForIs(db: seq<Point>, p: Point, now: nat, j: nat)
    requires j < |db|
    ensures RowFor(db, Stamp(p, now)) == j <==> FirstRow(db, j) && GoesTo(p, db[j])
  {
    hide Stamp;
    StampWrites(p, now);
    var r := RowFor(db, Stamp(p, now));
    assert r < j ==> IdOf(db[r]) == IdOf(Stamp(p, now));
  }

  // What one more point of a batch makes of the rows.
  function NextRows(db: seq<Point>, out: seq<Point>, p: Point, now: nat, onEdge: bool): seq<Point>
    requires |db| <= |out|
  {
    var q := Stamp(p, now);
    var r := RowFor(db, q);
    if !Counts(p, onEdge) then out else if r == |db| then out + [q] else if db[r].time <= q.time then out[r := q] else out
  }

  lemma {:induction false} NextWritten(db: seq<Point>, batch: seq<Point>, now: nat, onEdge: bool, out: seq<Point>)
    requires batch != [] && RowsWritten(db, batch[..|batch| - 1], now, onEdge, out)
    ensures RowsWritten(db, batch, now, onEdge, NextRows(db, out, batch[|batch| - 1], now, onEdge))
  {
    hide RowKept, FromBatch, Appended, IsNew, NextRows;
    var n := |batch| - 1;
    var before, next := batch[..n], NextRows(db, out, batch[n], now, onEdge);
    NextRowsAre(db, out, batch[n], now, onEdge);
    forall j | 0 <= j < |db|
      ensures RowKept(db, batch, now, onEdge, j, next[j])
    {
      KeptNext(db, batch, now, onEdge, j, out[j], next[j]);
    }
    forall j | |db| <= j < |next|
      ensures FromBatch(db, batch, now, onEdge, next[j])
    {
      if j < |out| {
        StillFrom(db, batch, now, onEdge, next[j]);
      } else {
        NowFrom(db, batch, now, onEdge, next[j]);
      }
    }
    forall i | 0 <= i < |batch| && IsNew(db, batch[i], onEdge)
      ensures Appended(db, batch[i], now, next)
    {
      if i < n {
        assert before[i] == batch[i];
        StillAppended(db, batch[i], now, out, next);
      } else {
        NowAppended(db, batch[n], now, next);
      }
    }
  }

  lemma {:induction false} NextRowsAre(db: seq<Point>, out: seq<Point>, p: Point, now: nat, onEdge: bool)
    requires |db| <= |out|
    ensures
      var next := NextRows(db, out, p, now, onEdge);
      && |out| <= |next| <= |out| + 1 && (|next| > |out| <==> IsNew(db, p, onEdge))
      && (|next| > |out| ==> WrittenAs(p, next[|out|], now))
      && (forall j :: |db| <= j < |out| ==> next[j] == out[j])
      && (forall j :: 0 <= j < |db| ==>
            if FirstRow(db, j) && Replaces(p, db[j], onEdge, now) then WrittenAs(p, next[j], now) else next[j] == out[j])
  {
    hide Stamp, IdOf, GoesTo, FirstRow, RowFor, IsNew;
    StampWrites(p, now);
    NewIff(db, p, now, onEdge);
    forall j | 0 <= j < |db|
      ensures RowFor(db, Stamp(p, now)) == j <==> FirstRow(db, j) && GoesTo(p, db[j])
    {
      RowForIs(db, p, now, j);
    }
  }

  lemma {:induction false} StillFrom(db: seq<Point>, batch: seq<Point>, now: nat, onEdge: bool, q: Point)
    requires batch != [] && FromBatch(db, batch[..|batch| - 1], now, onEdge, q)
    ensures FromBatch(db, batch, now, onEdge, q)
  {
    hide IsNew, WrittenAs;
    var before := batch[..|batch| - 1];
    var i :| 0 <= i < |before| && IsNew(db, before[i], onEdge) && WrittenAs(before[i], q, now);
    assert batch[i] == before[i];
  }

  lemma {:induction false} NowFrom(db: seq<Point>, batch: seq<Point>, now: nat, onEdge: bool, q: Point)
    requires batch != [] && IsNew(db, batch[|batch| - 1], onEdge) && WrittenAs(batch[|batch| - 1], q, now)
    ensures FromBatch(db, batch, now, onEdge, q)
  {
    hide IsNew, WrittenAs;
  }

  lemma {:induction false} StillAppended(db: seq<Point>, p: Point, now: nat, rows: seq<Point>, next: seq<Point>)
    requires Appended(db, p, now, rows) && |rows| <= |next| && forall j :: |db| <= j < |rows| ==> next[j] == rows[j]
    ensures Appended(db, p, now, next)
  {
    hide WrittenAs;
    var j :| |db| <= j < |rows| && WrittenAs(p, rows[j], now);
    assert next[j] == rows[j];
  }

  lemma {:induction false} NowAppended(db: seq<Point>, p: Point, now: nat, rows: seq<Point>)
    requires |db| < |rows| && WrittenAs(p, rows[|rows| - 1], now)
    ensures Appended(db, p, now, rows)
  {
    hide WrittenAs;
  }

  lemma {:induction false} NewIff(db: seq<Point>, p: Point, now: nat, onEdge: bool)
    ensures IsNew(db, p, onEdge) <==> Counts(p, onEdge) && RowFor(db, Stamp(p, now)) == |db|
  {
    hide Stamp, IdOf;
    StampWrites(p, now);
  }

  lemma {:induction false} KeptNext(db: seq<Point>, batch: seq<Point>, now: nat, onEdge: bool, j: nat, was: Point, q: Point)
    requires batch != [] && j < |db| && RowKept(db, batch[..|batch| - 1], now, onEdge, j, was)
    requires
      var p := batch[|batch| - 1];
      if FirstRow(db, j) && Replaces(p, db[j], onEdge, now) then WrittenAs(p, q, now) else q == was
    ensures RowKept(db, batch, now, onEdge, j, q)
  {
    hide FirstRow, Replaces, WrittenAs, LastFor;
    var n := |batch| - 1;
    var before := batch[..n];
    if !FirstRow(db, j) {
    } else if Replaces(batch[n], db[j], onEdge, now) {
      LastOfAll(db[j], batch, now, onEdge);
    } else if i :| 0 <= i < n && Replaces(before[i], db[j], onEdge, now) {
      var l :| 0 <= l < n && LastFor(db[j], before, now, onEdge, l) && WrittenAs(before[l], was, now);
      StillLast(db[j], batch, now, onEdge, l);
      assert before[l] == batch[l];
    } else {
      assert forall i :: 0 <= i < n ==> before[i] == batch[i];
    }
  }

  lemma {:induction false} LastOfAll(r: Point, batch: seq<Point>, now: nat, onEdge: bool)
    requires batch != [] && Replaces(batch[|batch| - 1], r, onEdge, now)
    ensures LastFor(r, batch, now, onEdge, |batch| - 1)
  {
  }

  lemma {:induction false} StillLast(r: Point, batch: seq<Point>, now: nat, onEdge: bool, l: nat)
    requires batch != [] && l < |batch| - 1 && LastFor(r, batch[..|batch| - 1], now, onEdge, l)
    requires !Replaces(batch[|batch| - 1], r, onEdge, now)
    ensures LastFor(r, batch, now, onEdge, l) && Replaces(batch[l], r, onEdge, now)
  {
    hide Replaces;
    var before := batch[..|batch| - 1];
    assert forall m :: 0 <= m < |before| ==> before[m] == batch[m];
  }

  // The rows of a node after a batch.
  lemma {:induction false} NodeRowsWritten(db: seq<Point>, batch: seq<Point>, now: nat)
    ensures RowsWritten(db, batch, now, false, BatchRows(db, batch, now))
  {
    hide RowsWritten, Stamp, RowFor;
    if batch == [] {
      NoneWritten(db, now, false);
    } else {
      var n := |batch| - 1;
      NodeRowsWritten(db, batch[..n], now);
      NextWritten(db, batch, now, false, BatchRows(db, batch[..n], now));
    }
  }

  lemma {:induction false} NoneWritten(db: seq<Point>, now: nat, onEdge: bool)
    ensures RowsWritten(db, [], now, onEdge, db)
  {
  }

  // The rows of an edge: all points are written but those that tell the node type.
  lemma {:induction false} EdgeRowsWritten(db: seq<Point>, batch: seq<Point>, now: nat)
    ensures RowsWritten(db, batch, now, true, BatchRows(db, StoredPoints(batch), now))
  {
    hide RowsWritten, Stamp, RowFor;
    if batch == [] {
      NoneWritten(db, now, true);
    } else {
      var n := |batch| - 1;
      var before := StoredPoints(batch[..n]);
      EdgeRowsWritten(db, batch[..n], now);
      NextWritten(db, batch, now, true, BatchRows(db, before, now));
      if batch[n].typ != NODE_TYPE {
        assert StoredPoints(batch)[..|before|] == before;
      }
    }
  }

  // Every point of a batch has a row; if no other point of the batch goes there, it is at least
  // as new as the point.
  lemma {:induction false} WrittenIsNewest(db: seq<Point>, batch: seq<Point>, now: nat, onEdge: bool, rows: seq<Point>,
                                           i: nat)
    requires RowsWritten(db, batch, now, onEdge, rows) && i < |batch| && Counts(batch[i], onEdge)
    ensures HasRow(batch, now, rows, i)
  {
    hide RowKept, FromBatch, Appended, IsNew, Replaces, WrittenAs, SameRow, GoesTo;
    if j :| 0 <= j < |db| && GoesTo(batch[i], db[j]) {
      var f := FirstOf(db, j);
      SameGoes(batch[i], db[j], db[f]);
      KeptHasRow(db, batch, now, onEdge, f, rows[f], i);
    } else {
      assert IsNew(db, batch[i], onEdge) by { NewIfNone(db, batch[i], onEdge); }
      var j := AppendedRow(db, batch[i], now, rows);
    }
  }

  ghost predicate HasRow(batch: seq<Point>, now: nat, rows: seq<Point>, i: nat)
    requires i < |batch|
  {
    exists j :: 0 <= j < |rows| && RowOfPoint(batch, now, i, rows[j])
  }

  ghost predicate RowOfPoint(batch: seq<Point>, now: nat, i: nat, q: Point)
    requires i < |batch|
  {
    && GoesTo(batch[i], q)
    && (Alone(batch, i) ==> TimeOf(batch[i], now) <= q.time)
  }

  predicate Alone(batch: seq<Point>, i: nat)
    requires i < |batch|
  {
    forall m :: 0 <= m < |batch| && m != i ==> !SameRow(batch[i], batch[m])
  }

  lemma {:induction false} SameGoes(p: Point, q: Point, r: Point)
    requires GoesTo(p, q) && IdOf(q) == IdOf(r)
    ensures GoesTo(p, r)
  {
  }

  lemma {:induction false} NewIfNone(db: seq<Point>, p: Point, onEdge: bool)
    requires Counts(p, onEdge) && forall j :: 0 <= j < |db| ==> !GoesTo(p, db[j])
    ensures IsNew(db, p, onEdge)
  {
  }

  lemma {:induction false} AppendedRow(db: seq<Point>, p: Point, now: nat, rows: seq<Point>) returns (j: nat)
    requires Appended(db, p, now, rows)
    ensures |db| <= j < |rows| && GoesTo(p, rows[j]) && rows[j].time == TimeOf(p, now)
  {
    hide GoesTo;
    j :| |db| <= j < |rows| && WrittenAs(p, rows[j], now);
  }

  lemma {:induction false} KeptHasRow(db: seq<Point>, batch: seq<Point>, now: nat, onEdge: bool, f: nat, q: Point, i: nat)
    requires f < |db| && FirstRow(db, f) && RowKept(db, batch, now, onEdge, f, q)
    requires i < |batch| && Counts(batch[i], onEdge) && GoesTo(batch[i], db[f])
    ensures RowOfPoint(batch, now, i, q)
  {
    hide FirstRow, Replaces, LastFor, WrittenAs, GoesTo, SameRow, Alone;
    if m :| 0 <= m < |batch| && Replaces(batch[m], db[f], onEdge, now) {
      var l :| 0 <= l < |batch| && LastFor(db[f], batch, now, onEdge, l) && WrittenAs(batch[l], q, now);
      assert Replaces(batch[l], db[f], onEdge, now) by { LastReplaces(db[f], batch, now, onEdge, l); }
      BothGo(batch[i], batch[l], db[f], q, now, onEdge);
      NotAlone(batch, i, l);
    } else {
      assert !Replaces(batch[i], db[f], onEdge, now);
      OlderThan(batch[i], db[f], onEdge, now);
    }
  }

  lemma {:induction false} LastReplaces(r: Point, batch: seq<Point>, now: nat, onEdge: bool, l: nat)
    requires l < |batch| && LastFor(r, batch, now, onEdge, l)
    ensures Replaces(batch[l], r, onEdge, now)
  {
  }

  lemma {:induction false} BothGo(p: Point, p': Point, r: Point, q: Point, now: nat, onEdge: bool)
    requires GoesTo(p, r) && Replaces(p', r, onEdge, now) && WrittenAs(p', q, now)
    ensures GoesTo(p, q) && SameRow(p, p') && q.time == TimeOf(p', now)
  {
  }

  lemma {:induction false} NotAlone(batch: seq<Point>, i: nat, l: nat)
    requires i < |batch| && l < |batch| && SameRow(batch[i], batch[l])
    ensures Alone(batch, i) ==> l == i
  {
  }

  lemma {:induction false} OlderThan(p: Point, r: Point, onEdge: bool, now: nat)
    requires Counts(p, onEdge) && GoesTo(p, r) && !Replaces(p, r, onEdge, now)
    ensures TimeOf(p, now) <= r.time
  {
  }

  // The points of a node after a batch: every point is stored, and nothing else.
  ghost predicate NodeStores(db: seq<Point>, batch: seq<Point>, now: nat, rows: seq<Point>) {
    && RowsWritten(db, batch, now, false, rows)
    && forall i :: 0 <= i < |batch| ==> HasRow(batch, now, rows, i)
  }

  lemma {:induction false} NodeStoresRows(db: seq<Point>, batch: seq<Point>, now: nat)
    ensures NodeStores(db, batch, now, BatchRows(db, batch, now))
  {
    hide BatchRows, HasRow, RowsWritten;
    NodeRowsWritten(db, batch, now);
    forall i | 0 <= i < |batch|
      ensures HasRow(batch, now, BatchRows(db, batch, now), i)
    {
      WrittenIsNewest(db, batch, now, false, BatchRows(db, batch, now), i);
    }
  }

  predicate SameRow(p: Point, q: Point) {
    p.typ == q.typ && (p.key == q.key || (p.key in {"", "0"} && q.key in {"", "0"}))
  }

  lemma {:induction false} FirstOf(db: seq<Point>, j: nat) returns (f: nat)
    requires j < |db|
    ensures f <= j && FirstRow(db, f) && IdOf(db[f]) == IdOf(db[j])
  {
    f := RowFor(db, db[j]);
  }

  // No two points of the batch stand for the same row.
  ghost predicate OneRowEach(batch: seq<Point>, now: nat) {
    forall i, j :: 0 <= i < j < |batch| ==> IdOf(Stamp(batch[i], now)) != IdOf(Stamp(batch[j], now))
  }

  lemma {:induction false} HashOfReplaced(crc: Checksum, rows: seq<Point>, j: nat, p: Point)
    requires j < |rows|
    ensures PointsHash(crc, rows[j := p]) == Xor(Xor(PointsHash(crc, rows), Crc(crc, rows[j])), Crc(crc, p))
  {
    hide Xor, Crc;
    var n := |rows| - 1;
    var a, last := PointsHash(crc, rows[..n]), Crc(crc, rows[n]);
    if j == n {
      assert rows[j := p][..n] == rows[..n];
      Undo(a, last);
    } else {
      assert rows[j := p][..n] == rows[..n][j := p];
      HashOfReplaced(crc, rows[..n], j, p);
      var x, y := Crc(crc, rows[j]), Crc(crc, p);
      Associates(Xor(a, x), y, last);
      Commutes(y, last);
      Associates(Xor(a, x), last, y);
      Associates(a, x, last);
      Commutes(x, last);
      Associates(a, last, x);
    }
  }

  // The rows that a batch has not touched are those read before it.
  lemma {:induction false} BatchLeaves(db: seq<Point>, batch: seq<Point>, now: nat, p: Point)
    requires forall i :: 0 <= i < |batch| ==> IdOf(Stamp(batch[i], now)) != IdOf(p)
    ensures var j := RowFor(db, p);
      j < |db| ==> BatchRows(db, batch, now)[j] == db[j]
  {
    hide Stamp, IdOf;
    if batch != [] {
      BatchLeaves(db, batch[..|batch| - 1], now, p);
    }
  }

  // The change worked out row by row is the change of the hash of all the rows.
  lemma {:induction false} BatchHashIsChange(crc: Checksum, db: seq<Point>, batch: seq<Point>, now: nat)
    requires OneRowEach(batch, now)
    ensures PointsHash(crc, BatchRows(db, batch, now)) == Xor(PointsHash(crc, db), BatchHash(crc, db, batch, now))
  {
    hide HashRight, NoneLost, OneRowEach, BatchError;
    OwnRowsLoseNone(db, batch, now);
    NoErrorIfNoneLost(crc, db, batch, now);
    BatchHashIsOff(crc, db, batch, now);
    RightMeans(crc, db, batch, now);
  }

  lemma {:induction false} RightMeans(crc: Checksum, db: seq<Point>, batch: seq<Point>, now: nat)
    requires HashRight(crc, db, batch, now)
    ensures PointsHash(crc, BatchRows(db, batch, now)) == Xor(PointsHash(crc, db), BatchHash(crc, db, batch, now))
  {
  }

  // ----- batches as tables -----

  ghost predicate OneEach(rows: seq<Point>) {
    forall i, j :: 0 <= i < j < |rows| ==> IdOf(rows[i]) != IdOf(rows[j])
  }

  function Stamped(batch: seq<Point>, now: nat): (r: seq<Point>)
    ensures |r| == |batch|
    ensures forall i :: 0 <= i < |r| ==> r[i] == Stamp(batch[i], now)
  {
    seq(|batch|, i requires 0 <= i < |batch| => Stamp(batch[i], now))
  }

  // Rows keep their identities; the rows added have those of points of the batch without a row.
  ghost predicate Extends(db: seq<Point>, batch: seq<Point>, now: nat, out: seq<Point>) {
    && |db| <= |out|
    && (forall j :: 0 <= j < |db| ==> IdOf(out[j]) == IdOf(db[j]))
    && forall j :: |db| <= j < |out| ==>
      && (forall i :: 0 <= i < |db| ==> IdOf(db[i]) != IdOf(out[j]))
      && exists i :: 0 <= i < |batch| && IdOf(out[j]) == IdOf(Stamp(batch[i], now))
  }

  lemma {:induction false} BatchExtends(db: seq<Point>, batch: seq<Point>, now: nat)
    requires OneEach(db) && OneRowEach(batch, now)
    ensures Extends(db, batch, now, BatchRows(db, batch, now))
    ensures OneEach(BatchRows(db, batch, now))
  {
    hide Stamp, IdOf, OneRowEach;
    if batch != [] {
      var n := |batch| - 1;
      FewerRows(batch, now);
      BatchExtends(db, batch[..n], now);
      ExtendedOnce(db, batch, now, BatchRows(db, batch[..n], now));
    }
  }

  lemma {:induction false} FewerRows(batch: seq<Point>, now: nat)
    requires batch != [] && OneRowEach(batch, now)
    ensures OneRowEach(batch[..|batch| - 1], now)
    ensures forall i :: 0 <= i < |batch| - 1 ==> IdOf(Stamp(batch[i], now)) != IdOf(Stamp(batch[|batch| - 1], now))
  {
  }

  lemma {:induction false} ExtendedOnce(db: seq<Point>, batch: seq<Point>, now: nat, out: seq<Point>)
    requires batch != [] && OneEach(out) && Extends(db, batch[..|batch| - 1], now, out)
    requires forall i :: 0 <= i < |batch| - 1 ==> IdOf(Stamp(batch[i], now)) != IdOf(Stamp(batch[|batch| - 1], now))
    ensures
      var p := Stamp(batch[|batch| - 1], now);
      var r := RowFor(db, p);
      var next := if r == |db| then out + [p] else if db[r].time <= p.time then out[r := p] else out;
      Extends(db, batch, now, next) && OneEach(next)
  {
    hide Stamp, IdOf, RowFor;
    var n := |batch| - 1;
    var before := batch[..n];
    assert |before| == n && forall i :: 0 <= i < n ==> before[i] == batch[i];
    forall j | |db| <= j < |out|
      ensures exists i :: 0 <= i < |batch| && IdOf(out[j]) == IdOf(Stamp(batch[i], now))
      ensures IdOf(out[j]) != IdOf(Stamp(batch[n], now))
    {
      var i :| 0 <= i < |before| && IdOf(out[j]) == IdOf(Stamp(before[i], now));
      assert batch[i] == before[i];
    }
  }

  lemma {:induction false} LatestReplaced(rows: seq<Point>, j: nat, p: Point, k: Id)
    requires OneEach(rows) && j < |rows| && IdOf(rows[j]) == IdOf(p)
    ensures Latest(None, rows[j := p], k) == if IdOf(p) == k then Some(p) else Latest(None, rows, k)
    ensures IdOf(p) == k ==> Latest(None, rows, k) == Some(rows[j])
  {
    hide IdOf, Latest;
    var out := rows[j := p];
    if IdOf(p) == k {
      LatestOnlyOne(out, k, p);
      LatestOnlyOne(rows, k, rows[j]);
      assert out[j] in out && rows[j] in rows;
    } else if exists i :: 0 <= i < |rows| && IdOf(rows[i]) == k {
      var i :| 0 <= i < |rows| && IdOf(rows[i]) == k;
      assert out[i] == rows[i];
      LatestOnlyOne(out, k, rows[i]);
      LatestOnlyOne(rows, k, rows[i]);
    } else {
      LatestOfOthers(out, k);
      LatestOfOthers(rows, k);
    }
  }

  // With one row per identity, a batch leaves for each identity what the rule of the points
  // gives: the latest of its row and of the points of the batch, in their order.
  lemma {:induction false} BatchIsMerge(db: seq<Point>, batch: seq<Point>, now: nat, k: Id)
    requires OneEach(db) && OneRowEach(batch, now)
    ensures Latest(None, BatchRows(db, batch, now), k) == Latest(Latest(None, db, k), Stamped(batch, now), k)
  {
    hide Stamp, IdOf;
    if batch != [] {
      var n := |batch| - 1;
      var p := Stamp(batch[n], now);
      BatchIsMerge(db, batch[..n], now, k);
      BatchExtends(db, batch[..n], now);
      BatchLeaves(db, batch[..n], now, p);
      assert Stamped(batch, now)[..n] == Stamped(batch[..n], now);
      var out := BatchRows(db, batch[..n], now);
      var j := RowFor(db, p);
      if j < |db| {
        LatestReplaced(out, j, p, k);
      } else {
        assert (out + [p])[..|out|] == out;
        if IdOf(p) == k {
          LatestOfOthers(db, k);
          LatestOfOthers(Stamped(batch[..n], now), k);
        }
      }
    }
  }

  // ----- a batch at once and point by point -----

  // Every point of the batch has its time and key: Stamp would not change it.
  ghost predicate Complete(ps: seq<Point>) {
    forall p :: p in ps ==> p.time != ZERO_TIME && p.key != ""
  }

  // The rows, and the change of the hash, when every point is a batch of its own.
  function OneByOne(db: seq<Point>, ps: seq<Point>, now: nat): seq<Point> {
    if ps == [] then db else BatchRows(OneByOne(db, ps[..|ps| - 1], now), ps[|ps| - 1..], now)
  }

  function OneByOneHash(crc: Checksum, db: seq<Point>, ps: seq<Point>, now: nat): Hash {
    if ps == [] then 0
    else
      var n := |ps| - 1;
      Xor(OneByOneHash(crc, db, ps[..n], now), BatchHash(crc, OneByOne(db, ps[..n], now), ps[n..], now))
  }

  lemma {:induction false} OneByOneMerges(crc: Checksum, db: seq<Point>, ps: seq<Point>, now: nat, k: Id)
    requires OneEach(db) && Complete(ps)
    ensures OneEach(OneByOne(db, ps, now))
    ensures Latest(None, OneByOne(db, ps, now), k) == Latest(Latest(None, db, k), ps, k)
    ensures PointsHash(crc, OneByOne(db, ps, now)) == Xor(PointsHash(crc, db), OneByOneHash(crc, db, ps, now))
  {
    hide Xor, Crc, IdOf, BatchRows, BatchHash, PointsHash, OneEach, Latest;
    if ps == [] {
      Zero(PointsHash(crc, db));
      NoneMerged(db, k);
    } else {
      var n := |ps| - 1;
      var rows, last := OneByOne(db, ps[..n], now), ps[n..];
      OneByOneMerges(crc, db, ps[..n], now, k);
      OneInBatch(ps, now);
      BatchExtends(rows, last, now);
      BatchIsMerge(rows, last, now, k);
      BatchHashIsChange(crc, rows, last, now);
      Associates(PointsHash(crc, db), OneByOneHash(crc, db, ps[..n], now), BatchHash(crc, rows, last, now));
      LatestLast(Latest(None, db, k), ps, k);
    }
  }

  lemma {:induction false} NoneMerged(db: seq<Point>, k: Id)
    ensures Latest(Latest(None, db, k), [], k) == Latest(None, db, k)
  {
  }

  lemma {:induction false} OneInBatch(ps: seq<Point>, now: nat)
    requires ps != [] && Complete(ps)
    ensures Complete(ps[..|ps| - 1])
    ensures OneRowEach(ps[|ps| - 1..], now) && Stamped(ps[|ps| - 1..], now) == ps[|ps| - 1..]
  {
  }

  lemma {:induction false} LatestLast(cur: Option<Point>, ps: seq<Point>, k: Id)
    requires ps != []
    ensures Latest(cur, ps, k) == Latest(Latest(cur, ps[..|ps| - 1], k), ps[|ps| - 1..], k)
  {
    var n := |ps| - 1;
    var last := ps[n..];
    assert last[..0] == [];
    assert Latest(Latest(cur, ps[..n], k), last[..0], k) == Latest(cur, ps[..n], k);
  }

  lemma {:induction false} HashWithout(crc: Checksum, rows: seq<Point>, j: nat)
    requires j < |rows|
    ensures PointsHash(crc, rows) == Xor(PointsHash(crc, rows[..j] + rows[j + 1..]), Crc(crc, rows[j]))
  {
    hide Xor, Crc;
    var n := |rows| - 1;
    if j == n {
      assert rows[..j] + rows[j + 1..] == rows[..n];
    } else {
      HashWithout(crc, rows[..n], j);
      var less := rows[..j] + rows[j + 1..];
      assert less[..|less| - 1] == rows[..n][..j] + rows[..n][j + 1..];
      var a, x, y := PointsHash(crc, less[..|less| - 1]), Crc(crc, rows[j]), Crc(crc, rows[n]);
      Associates(a, x, y);
      Commutes(x, y);
      Associates(a, y, x);
    }
  }

  // Tables with the same point for every identity have the same hash, whatever their order.
  lemma {:induction false} SameRowsSameHash(crc: Checksum, a: seq<Point>, b: seq<Point>)
    requires OneEach(a) && OneEach(b)
    requires forall k :: Latest(None, a, k) == Latest(None, b, k)
    ensures PointsHash(crc, a) == PointsHash(crc, b)
    decreases |a|
  {
    hide Xor, Crc, IdOf, Latest, PointsHash;
    if a == [] {
      if b != [] {
        LatestOnlyOne(b, IdOf(b[0]), b[0]);
        LatestOfOthers(a, IdOf(b[0]));
      }
    } else {
      var n := |a| - 1;
      var k := IdOf(a[n]);
      LatestOnlyOne(a, k, a[n]);
      assert a[n] in a;
      LatestIsNewest(None, b, k);
      assert Latest(None, b, k) == Some(a[n]);
      var j :| 0 <= j < |b| && b[j] == a[n];
      var b' := b[..j] + b[j + 1..];
      forall m ensures Latest(None, a[..n], m) == Latest(None, b', m) {
        LatestWithout(a, n, m);
        LatestWithout(b, j, m);
        assert a[..n] + a[n + 1..] == a[..n];
      }
      SameRowsSameHash(crc, a[..n], b');
      HashWithout(crc, a, n);
      assert a[..n] + a[n + 1..] == a[..n];
      HashWithout(crc, b, j);
    }
  }

  lemma {:induction false} LatestWithout(rows: seq<Point>, j: nat, k: Id)
    requires OneEach(rows) && j < |rows|
    ensures Latest(None, rows[..j] + rows[j + 1..], k) == if IdOf(rows[j]) == k then None else Latest(None, rows, k)
  {
    hide IdOf, Latest;
    var less := rows[..j] + rows[j + 1..];
    assert forall p :: p in less ==> exists i :: 0 <= i < |rows| && i != j && rows[i] == p;
    assert forall i :: 0 <= i < |rows| && i != j ==> rows[i] in less;
    if IdOf(rows[j]) == k || forall i :: 0 <= i < |rows| ==> IdOf(rows[i]) != k {
      LatestOfOthers(less, k);
      if IdOf(rows[j]) != k {
        LatestOfOthers(rows, k);
      }
    } else {
      var i :| 0 <= i < |rows| && IdOf(rows[i]) == k;
      LatestOnlyOne(less, k, rows[i]);
      LatestOnlyOne(rows, k, rows[i]);
    }
  }

  // Collapsing a batch and writing it at once leaves the points, and makes the change of the
  // hash, that writing it point by point in its own order would.
  lemma {:induction false} CollapsedBatchIsOneByOne(crc: Checksum, db: seq<Point>, ps: seq<Point>, r: seq<Point>,
          now: nat)
    requires OneEach(db) && Complete(ps) && Unambiguous(ps) && Lists(r, Collapsed(ps))
    ensures forall k :: Latest(None, BatchRows(db, r, now), k) == Latest(None, OneByOne(db, ps, now), k)
    ensures BatchHash(crc, db, r, now) == OneByOneHash(crc, db, ps, now)
  {
    assert Complete(r) by {
      assert forall p :: p in r ==> p in ps;
    }
    CollapsedRowsDiffer(ps, r, now);
    BatchExtends(db, r, now);
    var a, b := BatchRows(db, r, now), OneByOne(db, ps, now);
    OneByOneMerges(crc, db, ps, now, Id("", ""));
    forall k ensures Latest(None, a, k) == Latest(None, b, k) {
      BatchIsMerge(db, r, now, k);
      assert Stamped(r, now) == r;
      OneByOneMerges(crc, db, ps, now, k);
      CollapseKeepsLatest(ps, r, k);
      LatestSplits(Latest(None, db, k), r, k);
      LatestSplits(Latest(None, db, k), ps, k);
    }
    SameRowsSameHash(crc, a, b);
    BatchHashIsChange(crc, db, r, now);
    hide Xor, PointsHash, BatchHash, OneByOneHash;
    SameLeft(PointsHash(crc, db), BatchHash(crc, db, r, now), OneByOneHash(crc, db, ps, now));
  }

  // Points that Collapse keeps apart get rows of their own.
  ghost predicate KeysClear(ps: seq<Point>, now: nat) {
    forall p, q :: p in ps && q in ps && IdOf(Stamp(p, now)) == IdOf(Stamp(q, now)) ==> JoinedId(p) == JoinedId(q)
  }

  lemma {:induction false} CollapsedRowsDiffer(ps: seq<Point>, r: seq<Point>, now: nat)
    requires Lists(r, Collapsed(ps)) && (Complete(ps) || KeysClear(ps, now))
    ensures OneRowEach(r, now)
  {
    forall i, j | 0 <= i < j < |r| ensures IdOf(Stamp(r[i], now)) != IdOf(Stamp(r[j], now)) {
      assert r[i] in ps && r[j] in ps;
      SameId(r[i], r[j]);
    }
  }

  // ----- batches with several points for one row -----

  // The point p takes the place of row r.
  predicate Updates(db: seq<Point>, p: Point, r: nat) {
    r < |db| && RowFor(db, p) == r && db[r].time <= p.time
  }

  // What the change worked out by the program is wrong by: the program backs out the row that
  // it read, not the one that an earlier point of the batch has put in its place.
  function BatchError(crc: Checksum, db: seq<Point>, batch: seq<Point>, now: nat): Hash {
    if batch == [] then 0
    else
      var before, p := batch[..|batch| - 1], Stamp(batch[|batch| - 1], now);
      var r := RowFor(db, p);
      var wrong := BatchError(crc, db, before, now);
      if Updates(db, p, r) then Xor(wrong, Xor(Crc(crc, BatchRows(db, before, now)[r]), Crc(crc, db[r]))) else wrong
  }

  // The change that the program works out is that of the hash of all rows.
  ghost predicate HashRight(crc: Checksum, db: seq<Point>, batch: seq<Point>, now: nat) {
    PointsHash(crc, BatchRows(db, batch, now)) == Xor(PointsHash(crc, db), BatchHash(crc, db, batch, now))
  }

  lemma {:induction false} BatchHashIsOff(crc: Checksum, db: seq<Point>, batch: seq<Point>, now: nat)
    ensures PointsHash(crc, BatchRows(db, batch, now)) ==
      Xor(Xor(PointsHash(crc, db), BatchHash(crc, db, batch, now)), BatchError(crc, db, batch, now))
    ensures HashRight(crc, db, batch, now) <==> BatchError(crc, db, batch, now) == 0
  {
    hide Xor, Crc, Stamp, IdOf, RowFor;
    var h := PointsHash(crc, db);
    if batch == [] {
      Zero(h);
    } else {
      var n := |batch| - 1;
      var p := Stamp(batch[n], now);
      BatchHashIsOff(crc, db, batch[..n], now);
      var out, u, w := BatchRows(db, batch[..n], now), BatchHash(crc, db, batch[..n], now), BatchError(crc, db, batch[..n], now);
      var r := RowFor(db, p);
      if r == |db| {
        assert (out + [p])[..|out|] == out;
        ErrorLater(h, u, Crc(crc, p), w, 0);
        Zero(w);
      } else if db[r].time <= p.time {
        HashOfReplaced(crc, out, r, p);
        ErrorMoved(h, u, w, Crc(crc, out[r]), Crc(crc, db[r]), Crc(crc, p));
      }
    }
    NeutralIsZero(Xor(h, BatchHash(crc, db, batch, now)), BatchError(crc, db, batch, now));
  }

  lemma {:induction false} ErrorLater(h: Hash, u: Hash, x: Hash, w: Hash, y: Hash)
    ensures Xor(Xor(Xor(h, u), w), Xor(x, y)) == Xor(Xor(h, Xor(u, x)), Xor(w, y))
    ensures Xor(Xor(Xor(h, u), w), x) == Xor(Xor(h, Xor(u, x)), w)
  {
    hide Xor;
    XorSwap(Xor(h, u), w, x, y);
    XorSwap(Xor(h, u), w, x, 0);
    Associates(h, u, x);
    Zero(x);
    Zero(w);
  }

  // The hash loses q where the program takes away d; both add p.
  lemma {:induction false} ErrorMoved(h: Hash, u: Hash, w: Hash, q: Hash, d: Hash, p: Hash)
    ensures Xor(Xor(Xor(Xor(h, u), w), q), p) == Xor(Xor(h, Xor(Xor(u, d), p)), Xor(w, Xor(q, d)))
  {
    hide Xor;
    ErrorLater(h, u, Xor(d, p), w, Xor(q, d));
    Associates(u, d, p);
    Associates(Xor(Xor(h, u), w), q, p);
    Commutes(d, p);
    Commutes(q, d);
    Associates(p, d, Xor(d, q));
    Undo(q, d);
    Commutes(p, q);
  }

  // No point that an earlier point of the batch has put in the place of a row is itself replaced,
  // unless it has the content of the row or does not count in the hash.
  ghost predicate NoneLost(db: seq<Point>, batch: seq<Point>, now: nat) {
    forall i, j :: 0 <= i < j < |batch| ==> !Loses(db, Stamp(batch[i], now), Stamp(batch[j], now))
  }

  // Both points update one row, and the first makes a difference to the hash.
  predicate Loses(db: seq<Point>, p: Point, q: Point) {
    var r := RowFor(db, p);
    Updates(db, p, r) && Updates(db, q, r) && ContentOf(p) != ContentOf(db[r]) && p.typ != NODE_TYPE
  }

  ghost predicate AtMostTwo(batch: seq<Point>, now: nat) {
    forall i, j, k :: 0 <= i < j < k < |batch| ==>
      !(IdOf(Stamp(batch[i], now)) == IdOf(Stamp(batch[j], now)) == IdOf(Stamp(batch[k], now)))
  }

  // Collapse leaves at most two points for a row: one with the key "0" and one with a blank key.
  lemma {:induction false} CollapsedAtMostTwo(ps: seq<Point>, r: seq<Point>, now: nat)
    requires Lists(r, Collapsed(ps))
    ensures AtMostTwo(r, now)
  {
    hide Collapsed;
    forall i, j, k | 0 <= i < j < k < |r|
      ensures !(IdOf(Stamp(r[i], now)) == IdOf(Stamp(r[j], now)) == IdOf(Stamp(r[k], now)))
    {
      hide IdOf, Stamp, JoinedId;
      StampedId(r[i], r[j], now);
      StampedId(r[j], r[k], now);
      StampedId(r[i], r[k], now);
    }
  }

  lemma {:induction false} StampedId(p: Point, q: Point, now: nat)
    ensures IdOf(Stamp(p, now)) == IdOf(Stamp(q, now)) && JoinedId(p) != JoinedId(q) ==>
      p.typ == q.typ && ((p.key == "" && q.key == "0") || (p.key == "0" && q.key == ""))
  {
  }

  // A row is as it was read, or holds a point of the batch that updated it.
  lemma {:induction false} RowNow(db: seq<Point>, batch: seq<Point>, now: nat, r: nat) returns (i: nat)
    requires r < |db|
    ensures i <= |batch|
    ensures i < |batch| ==> Updates(db, Stamp(batch[i], now), r) && BatchRows(db, batch, now)[r] == Stamp(batch[i], now)
    ensures i == |batch| ==> BatchRows(db, batch, now)[r] == db[r]
    ensures i == |batch| ==> forall m :: 0 <= m < |batch| ==> !Updates(db, Stamp(batch[m], now), r)
  {
    hide Stamp, RowFor;
    i := |batch|;
    if batch != [] {
      var n := |batch| - 1;
      if Updates(db, Stamp(batch[n], now), r) {
        i := n;
      } else {
        i := RowNow(db, batch[..n], now, r);
        assert forall m :: 0 <= m < n ==> batch[..n][m] == batch[m];
        i := if i == n then |batch| else i;
      }
    }
  }

  lemma {:induction false} NoneLostPrefix(db: seq<Point>, batch: seq<Point>, now: nat, n: nat)
    requires n <= |batch|
    ensures NoneLost(db, batch, now) ==> NoneLost(db, batch[..n], now)
    ensures AtMostTwo(batch, now) ==> AtMostTwo(batch[..n], now)
  {
    hide Stamp, IdOf, Updates;
  }

  lemma {:induction false} NoErrorIfNoneLost(crc: Checksum, db: seq<Point>, batch: seq<Point>, now: nat)
    requires NoneLost(db, batch, now)
    ensures BatchError(crc, db, batch, now) == 0
  {
    hide Stamp, RowFor, Xor, NoneLost;
    if batch != [] {
      var n := |batch| - 1;
      NoneLostPrefix(db, batch, now, n);
      NoErrorIfNoneLost(crc, db, batch[..n], now);
      var p := Stamp(batch[n], now);
      var r := RowFor(db, p);
      if Updates(db, p, r) {
        var i := RowNow(db, batch[..n], now, r);
        if i < n {
          LostAt(crc, db, batch, now, i, n, r);
        }
        Self(Crc(crc, db[r]));
        Zero(0);
      }
    }
  }

  lemma {:induction false} LostAt(crc: Checksum, db: seq<Point>, batch: seq<Point>, now: nat, i: nat, j: nat, r: nat)
    requires NoneLost(db, batch, now) && i < j < |batch|
    requires Updates(db, Stamp(batch[i], now), r) && Updates(db, Stamp(batch[j], now), r)
    ensures Crc(crc, Stamp(batch[i], now)) == Crc(crc, db[r])
  {
  }

  // The checksum that is 1 for the content of one point only.
  function Mark(x: Point): Checksum { c => if c == ContentOf(x) then 1 else 0 }

  // With this checksum a lost point leaves its mark: the error is 1 from then on.
  lemma {:induction false} LostIsSeen(db: seq<Point>, batch: seq<Point>, now: nat, i: nat, j: nat, r: nat, n: nat)
    requires i < j < |batch| && n <= |batch| && AtMostTwo(batch, now)
    requires Updates(db, Stamp(batch[i], now), r) && Updates(db, Stamp(batch[j], now), r)
    requires ContentOf(Stamp(batch[i], now)) != ContentOf(db[r]) && batch[i].typ != NODE_TYPE
    ensures BatchError(Mark(Stamp(batch[i], now)), db, batch[..n], now) == if n > j then 1 else 0
  {
    hide Stamp, Xor, AtMostTwo, Mark, RowFor, Crc;
    if n > 0 {
      var m := n - 1;
      LostIsSeen(db, batch, now, i, j, r, m);
      assert batch[..n][..m] == batch[..m];
      var p := Stamp(batch[m], now);
      var s := RowFor(db, p);
      if Updates(db, p, s) {
        MarkedStep(db, batch, now, i, j, r, m, s);
        Zero(1);
        Zero(0);
      }
    }
  }

  lemma {:induction false} MarkedStep(db: seq<Point>, batch: seq<Point>, now: nat, i: nat, j: nat, r: nat, m: nat,
                                      s: nat)
    requires i < j < |batch| && m < |batch| && AtMostTwo(batch, now)
    requires Updates(db, Stamp(batch[i], now), r) && Updates(db, Stamp(batch[j], now), r)
    requires ContentOf(Stamp(batch[i], now)) != ContentOf(db[r]) && batch[i].typ != NODE_TYPE && Updates(db, Stamp(batch[m], now), s)
    ensures
      var crc := Mark(Stamp(batch[i], now));
      Xor(Crc(crc, BatchRows(db, batch[..m], now)[s]), Crc(crc, db[s])) == if m == j then 1 else 0
    ensures m == j ==> s == r
  {
    hide RowFor, AtMostTwo, BatchRows, Stamp;
    StampKeepsType(batch[i], now);
    var x := Stamp(batch[i], now);
    var k := RowNow(db, batch[..m], now, s);
    RowOf(db, x);
    RowOf(db, Stamp(batch[j], now));
    RowOf(db, Stamp(batch[m], now));
    if k < m {
      assert batch[..m][k] == batch[k];
      RowOf(db, Stamp(batch[k], now));
    }
    if s == r {
      OnlyThese(batch, now, i, j, m);
      if k < m {
        OnlyThese(batch, now, i, j, k);
      }
    } else {
      assert ContentOf(db[s]) != ContentOf(x);
    }
  }

  lemma {:induction false} RowOf(db: seq<Point>, p: Point)
    ensures var r := RowFor(db, p); r < |db| ==> IdOf(db[r]) == IdOf(p) && RowFor(db, db[r]) == r
  {
    var r := RowFor(db, p);
    if r < |db| {
      assert RowFor(db, db[r]) <= r;
    }
  }

  lemma {:induction false} OnlyThese(batch: seq<Point>, now: nat, i: nat, j: nat, m: nat)
    requires i < j < |batch| && m < |batch| && AtMostTwo(batch, now)
    requires IdOf(Stamp(batch[i], now)) == IdOf(Stamp(batch[j], now)) == IdOf(Stamp(batch[m], now))
    ensures m == i || m == j
  {
  }

  // The change of the hash comes out right, whatever the checksum, exactly if no point of the
  // batch that has replaced a row is replaced by a later one.
  lemma {:induction false} HashRightIff(db: seq<Point>, batch: seq<Point>, now: nat)
    requires AtMostTwo(batch, now)
    ensures (forall crc :: HashRight(crc, db, batch, now)) <==> NoneLost(db, batch, now)
  {
    hide HashRight, BatchError, Stamp, Updates, AtMostTwo, Mark;
    if NoneLost(db, batch, now) {
      forall crc
        ensures HashRight(crc, db, batch, now)
      {
        NoErrorIfNoneLost(crc, db, batch, now);
        BatchHashIsOff(crc, db, batch, now);
      }
    } else {
      var i, j :| 0 <= i < j < |batch| && Loses(db, Stamp(batch[i], now), Stamp(batch[j], now));
      StampKeepsType(batch[i], now);
      var r := RowFor(db, Stamp(batch[i], now));
      LostIsSeen(db, batch, now, i, j, r, |batch|);
      assert batch[..|batch|] == batch;
      BatchHashIsOff(Mark(Stamp(batch[i], now)), db, batch, now);
    }
  }

  lemma {:induction false} StampKeepsType(p: Point, now: nat)
    ensures Stamp(p, now).typ == p.typ
  {
  }

  // Points with rows of their own lose nothing.
  lemma {:induction false} OwnRowsLoseNone(db: seq<Point>, batch: seq<Point>, now: nat)
    requires OneRowEach(batch, now)
    ensures NoneLost(db, batch, now)
  {
    hide Stamp, RowFor;
    forall i, j | 0 <= i < j < |batch|
      ensures !Loses(db, Stamp(batch[i], now), Stamp(batch[j], now))
    {
      RowOf(db, Stamp(batch[i], now));
      RowOf(db, Stamp(batch[j], now));
    }
  }

  // ----- nodePoints -----

  // Writing a batch to a node keeps every hash correct, on any graph without cycles, exactly if
  // the change is worked out right or no edge has the node below it.
  lemma {:induction false} NodeWriteIff(crc: Checksum, es: Edges, rows: map<string, seq<Point>>, rank: Rank,
                             id: string, batch: seq<Point>, now: nat)
    requires WellFormed(es, rank) && Consistent(crc, es, rows)
    ensures
      var db := RowsOf(rows, id);
      Consistent(crc, Updated(es, rank, id, BatchHash(crc, db, batch, now)), rows[id := BatchRows(db, batch, now)])
      <==> HashRight(crc, db, batch, now) || forall e :: 0 <= e < |es| ==> es[e].down != id
  {
    hide Xor, BatchHash, BatchRows, PointsHash, Updated, CalcHash, BatchError, HashRight;
    var db := RowsOf(rows, id);
    var u, next := BatchHash(crc, db, batch, now), rows[id := BatchRows(db, batch, now)];
    var w := BatchError(crc, db, batch, now);
    var fs := Updated(es, rank, id, u);
    BatchHashIsOff(crc, db, batch, now);
    forall e | 0 <= e < |fs| ensures Correct(crc, fs, next, e) <==> w == 0 || es[e].down != id {
      SameEnds(es, rank, id, u, e);
      Associates(PointsHash(crc, db), u, w);
      CalcHashWithRows(crc, fs, rows, next, e, if es[e].down == id then Xor(u, w) else 0);
      assert Correct(crc, es, rows, e);
      if es[e].down == id {
        UpdateAtNode(crc, es, rows, rank, id, u, e);
        Associates(es[e].hash, u, w);
        NeutralIsZero(fs[e].hash, w);
      } else {
        UpdateElsewhere(crc, es, rows, rank, id, u, e);
        Zero(CalcHash(crc, fs, rows, e));
        Zero(PointsHash(crc, RowsOf(rows, es[e].down)));
      }
    }
  }

  // When the change comes out right for the checksum of the store.
  lemma {:induction false} NodeHashRight(crc: Checksum, db: seq<Point>, ps: seq<Point>, batch: seq<Point>, now: nat)
    requires Lists(batch, Collapsed(ps))
    ensures KeysClear(ps, now) || NoneLost(db, batch, now) ==> HashRight(crc, db, batch, now)
  {
    hide HashRight, NoneLost, OneRowEach, Lists, Collapsed;
    if KeysClear(ps, now) {
      CollapsedRowsDiffer(ps, batch, now);
      OwnRowsLoseNone(db, batch, now);
    }
    if NoneLost(db, batch, now) {
      NoErrorIfNoneLost(crc, db, batch, now);
      BatchHashIsOff(crc, db, batch, now);
    }
  }

  // Points that have rows of their own, or lose nothing, keep every hash correct.
  lemma {:induction false} NodeWriteKeepsHashes(crc: Checksum, es: Edges, rows: map<string, seq<Point>>, rank: Rank,
                             id: string, batch: seq<Point>, now: nat)
    requires WellFormed(es, rank) && Consistent(crc, es, rows)
    requires OneRowEach(batch, now) || NoneLost(RowsOf(rows, id), batch, now)
    ensures
      var db := RowsOf(rows, id);
      Consistent(crc, Updated(es, rank, id, BatchHash(crc, db, batch, now)), rows[id := BatchRows(db, batch, now)])
  {
    hide BatchHash, BatchRows, Updated, Consistent, HashRight, NoneLost;
    var db := RowsOf(rows, id);
    if OneRowEach(batch, now) {
      OwnRowsLoseNone(db, batch, now);
    }
    NoErrorIfNoneLost(crc, db, batch, now);
    BatchHashIsOff(crc, db, batch, now);
    NodeWriteIff(crc, es, rows, rank, id, batch, now);
  }

  lemma {:induction false} SameEnds(es: Edges, rank: Rank, node: string, u: Hash, e: nat)
    requires Acyclic(es, rank) && e < |es|
    ensures Updated(es, rank, node, u)[e].(hash := 0) == es[e].(hash := 0)
  {
  }

  lemma {:induction false} CalcHashWithRows(crc: Checksum, es: Edges, rows: map<string, seq<Point>>, next: map<string,
          seq<Point>>, e: nat, u: Hash)
    requires e < |es|
    requires
      PointsHash(crc, RowsOf(next, es[e].down)) == Xor(PointsHash(crc, RowsOf(rows, es[e].down)), u) ||
      (u == 0 && RowsOf(next, es[e].down) == RowsOf(rows, es[e].down))
    ensures CalcHash(crc, es, next, e) == Xor(CalcHash(crc, es, rows, e), u)
  {
    hide Xor, PointsHash, ChildHash;
    var a, b, c := PointsHash(crc, RowsOf(rows, es[e].down)), PointsHash(crc, es[e].points), ChildHash(es, es[e].down, |es|);
    Zero(a);
    Associates(a, u, b);
    Commutes(u, b);
    Associates(a, b, u);
    Associates(Xor(a, b), u, c);
    Commutes(u, c);
    Associates(Xor(a, b), c, u);
  }

  // Two points of a batch, one with the key blank and one with the key "0", pass Collapse as two.
  // If both update a row, and the first has not its content, the change of the hash comes out wrong
  // for some checksum; if the row does not exist yet, it comes out right.
  lemma {:induction false} BlankKeyBreaksHash(db: seq<Point>, a: Point, b: Point, now: nat)
    requires a.typ == b.typ != NODE_TYPE && a.key == "" && b.key == "0"
    ensures Lists([a, b], Collapsed([a, b]))
    ensures
      var r := RowFor(db, b);
      (forall crc :: HashRight(crc, db, [a, b], now)) <==>
        r == |db| || !Updates(db, Stamp(a, now), r) || !Updates(db, Stamp(b, now), r)
          || ContentOf(Stamp(a, now)) == ContentOf(db[r])
  {
    TwoCollapsed(a, b);
    hide HashRight, Collapsed, Lists, RowFor, AtMostTwo, Updates;
    CollapsedAtMostTwo([a, b], [a, b], now);
    HashRightIff(db, [a, b], now);
    SameRowFor(db, b, Stamp(a, now));
    SameRowFor(db, b, Stamp(b, now));
    if NoneLost(db, [a, b], now) {
      assert [a, b][0] == a && [a, b][1] == b;
    }
  }

  lemma {:induction false} TwoCollapsed(a: Point, b: Point)
    requires a.typ == b.typ && a.key == "" && b.key == "0"
    ensures Lists([a, b], Collapsed([a, b]))
  {
    assert |JoinedId(a)| != |JoinedId(b)|;
    assert [a, b][..1] == [a] && [a][..0] == [];
  }

  lemma {:induction false} SameRowFor(db: seq<Point>, p: Point, q: Point)
    requires IdOf(p) == IdOf(q)
    ensures RowFor(db, p) == RowFor(db, q)
  {
    var i, j := RowFor(db, p), RowFor(db, q);
    assert !(i < j) && !(j < i);
  }

  // ----- what the hash reads -----

  // Two points count alike in every hash exactly if both tell a node type, or neither does and
  // they have the same type, key, time, value and text; what else they hold is not read.
  lemma {:induction false} HashReads(p: Point, q: Point)
    ensures (forall crc :: Crc(crc, p) == Crc(crc, q)) <==>
      if p.typ == "nodeType" then q.typ == "nodeType"
      else q.typ == p.typ && q.key == p.key && q.time == p.time && q.value == p.value && q.text == p.text
    ensures p.typ == "nodeType" ==> forall crc :: Crc(crc, p) == 0
  {
    if p.typ != "nodeType" {
      assert Crc(Mark(p), p) != Crc(Mark(p), q) || ContentOf(p) == ContentOf(q);
    } else if q.typ != "nodeType" {
      assert Crc(Mark(q), q) == 1;
    }
  }

  // ----- edgePoints -----

  // The points of a batch that are stored: all but the node type.
  function StoredPoints(batch: seq<Point>): seq<Point> {
    if batch == [] then []
    else
      var n := |batch| - 1;
      if batch[n].typ == NODE_TYPE then StoredPoints(batch[..n]) else StoredPoints(batch[..n]) + [batch[n]]
  }

  predicate HasTombstone(batch: seq<Point>) {
    exists i :: 0 <= i < |batch| && batch[i].typ == TOMBSTONE && batch[i].value > 0.0
  }

  function NodeTypeIn(batch: seq<Point>): string {
    if batch == [] then ""
    else
      var n := |batch| - 1;
      if batch[n].typ == NODE_TYPE then batch[n].text else NodeTypeIn(batch[..n])
  }

  // The type that a batch tells: the text of its last node type point, or none.
  ghost predicate TellsType(batch: seq<Point>, typ: string) {
    if exists i :: 0 <= i < |batch| && batch[i].typ == "nodeType"
    then exists i :: 0 <= i < |batch| && LastType(batch, i) && batch[i].text == typ
    else typ == ""
  }

  predicate LastType(batch: seq<Point>, i: nat)
    requires i < |batch|
  {
    batch[i].typ == "nodeType" && forall m :: i < m < |batch| ==> batch[m].typ != "nodeType"
  }

  lemma {:induction false} NodeTypeIs(batch: seq<Point>)
    ensures TellsType(batch, NodeTypeIn(batch))
  {
    if batch != [] {
      var n := |batch| - 1;
      var before := batch[..n];
      NodeTypeIs(before);
      assert forall i :: 0 <= i < n ==> before[i] == batch[i];
      if batch[n].typ == "nodeType" {
        assert LastType(batch, n);
      } else if i :| 0 <= i < n && before[i].typ == "nodeType" {
        var l :| 0 <= l < n && LastType(before, l) && before[l].text == NodeTypeIn(before);
        assert LastType(batch, l);
      }
    }
  }

  // The points of an edge after a batch: every point but a node type is stored, and nothing else.
  ghost predicate EdgeStores(db: seq<Point>, batch: seq<Point>, now: nat, rows: seq<Point>) {
    && RowsWritten(db, batch, now, true, rows)
    && (forall i :: 0 <= i < |batch| && batch[i].typ != "nodeType" ==> HasRow(batch, now, rows, i))
    && (forall j :: |db| <= j < |rows| ==> rows[j].typ != "nodeType")
  }

  lemma {:induction false} EdgeStoresRows(db: seq<Point>, batch: seq<Point>, now: nat)
    ensures EdgeStores(db, batch, now, BatchRows(db, StoredPoints(batch), now))
  {
    hide StoredPoints, BatchRows, HasRow;
    var rows := BatchRows(db, StoredPoints(batch), now);
    EdgeRowsWritten(db, batch, now);
    forall i | 0 <= i < |batch| && batch[i].typ != "nodeType"
      ensures HasRow(batch, now, rows, i)
    {
      WrittenIsNewest(db, batch, now, true, rows, i);
    }
    forall j | |db| <= j < |rows|
      ensures rows[j].typ != "nodeType"
    {
      assert FromBatch(db, batch, now, true, rows[j]);
    }
  }

  // Apart from its hash the edge is as it was.
  predicate SameButHash(e: Edge, f: Edge) { f == e.(hash := f.hash) }

  // All edges are as they were but for the hashes and the points of edge e.
  ghost predicate EdgeKept(es: Edges, after: Edges, e: nat, batch: seq<Point>, now: nat) {
    && |after| == |es| && e < |es|
    && (forall k :: 0 <= k < |es| && k != e ==> SameButHash(es[k], after[k]))
    && SameButHash(es[e].(points := after[e].points), after[e])
    && EdgeStores(es[e].points, batch, now, after[e].points)
  }

  // There is one edge more: from up to down, of the type that the batch tells.
  ghost predicate EdgeMade(es: Edges, after: Edges, id: string, up: string, down: string, batch: seq<Point>, now: nat) {
    var n := |es|;
    && |after| == n + 1
    && (forall k :: 0 <= k < n ==> SameButHash(es[k], after[k]))
    && after[n].id == id && after[n].up == up && after[n].down == down
    && after[n].typ != "" && TellsType(batch, after[n].typ)
    && EdgeStores([], batch, now, after[n].points)
  }

  lemma {:induction false} EdgeWrittenKeeps(crc: Checksum, es: Edges, after: Edges, rank: Rank, e: nat, batch: seq<Point>,
                                            now: nat)
    requires e < |es| && EdgeWritten(crc, es, after, rank, e, StoredPoints(batch), now)
    ensures EdgeKept(es, after, e, batch, now)
  {
    hide StoredPoints, BatchRows, BatchHash, Xor, EdgeStores, If, Paths;
    EdgeStoresRows(es[e].points, batch, now);
  }

  lemma {:induction false} EdgeAddedMakes(crc: Checksum, es: Edges, after: Edges, rows: map<string, seq<Point>>, rank: Rank,
          id: string, up: string, down: string, batch: seq<Point>, now: nat)
    requires
      EdgeAdded(crc, es, after, rows, rank, NewEdge(id, up, down, NodeTypeIn(batch), StoredPoints(batch), now),
                StoredPoints(batch), now)
    requires NodeTypeIn(batch) != ""
    ensures EdgeMade(es, after, id, up, down, batch, now)
  {
    hide StoredPoints, BatchRows, NewEdgeHash, Xor, EdgeStores, If, Paths, NodeTypeIn;
    EdgeStoresRows([], batch, now);
    NodeTypeIs(batch);
  }

  // The row of the edge from up to down, or the number of rows.
  function EdgeFor(es: Edges, up: string, down: string): (e: nat)
    ensures e <= |es|
    ensures e < |es| ==> es[e].up == up && es[e].down == down
    ensures forall i :: 0 <= i < e ==> es[i].up != up || es[i].down != down
  {
    if es == [] || (es[0].up == up && es[0].down == down) then 0 else 1 + EdgeFor(es[1..], up, down)
  }

  ghost predicate SoleParent(es: Edges, node: string, e: nat) {
    forall f :: 0 <= f < |es| && es[f].down == node ==> f == e
  }

  // An edge whose own part of the hash has changed by u, in a table that is right otherwise.
  ghost predicate OffAt(crc: Checksum, es: Edges, rows: map<string, seq<Point>>, e: nat, u: Hash) {
    && e < |es|
    && es[e].hash == Xor(CalcHash(crc, es, rows, e), u)
    && forall f :: 0 <= f < |es| && f != e ==> Correct(crc, es, rows, f)
  }

  // Passing a change u up from the node makes the table right exactly when u is what the edge is
  // off by and there is no change or the node has no other parent: every parent edge takes the
  // change, and only one should.
  lemma {:induction false} PassedUpIff(crc: Checksum, es: Edges, rows: map<string, seq<Point>>, rank: Rank, e: nat,
          off: Hash, u: Hash)
    requires e < |es| && WellFormed(es, rank) && OffAt(crc, es, rows, e, off)
    ensures Consistent(crc, Updated(es, rank, es[e].down, u), rows) <==>
      off == u && (u == 0 || SoleParent(es, es[e].down, e))
  {
    hide Xor, CalcHash, Updated;
    var node := es[e].down;
    var fs := Updated(es, rank, node, u);
    forall f | 0 <= f < |es|
      ensures Correct(crc, fs, rows, f) <==> if f == e then off == u else u == 0 || es[f].down != node
    {
      if es[f].down != node {
        UpdateElsewhere(crc, es, rows, rank, node, u, f);
      } else {
        UpdateAtNode(crc, es, rows, rank, node, u, f);
        if f == e {
          TakenBack(CalcHash(crc, es, rows, e), off, u);
        } else {
          assert Correct(crc, es, rows, f);
          NeutralIsZero(es[f].hash, u);
        }
      }
    }
  }

  lemma {:induction false} TakenBack(h: Hash, off: Hash, u: Hash)
    ensures Xor(Xor(h, off), u) == h <==> off == u
  {
    hide Xor;
    Associates(h, off, u);
    NeutralIsZero(h, Xor(off, u));
    SameLeft(u, off, u);
    Self(u);
  }

  // Writing points to an edge that exists.
  lemma {:induction false} EdgeWriteOff(crc: Checksum, es: Edges, rows: map<string, seq<Point>>, e: nat,
          batch: seq<Point>, now: nat)
    requires e < |es| && Consistent(crc, es, rows)
    ensures
      var fs := es[e := es[e].(points := BatchRows(es[e].points, batch, now))];
      OffAt(crc, fs, rows, e, Xor(BatchHash(crc, es[e].points, batch, now), BatchError(crc, es[e].points, batch, now)))
  {
    hide Xor, PointsHash, BatchRows, BatchHash, ChildHash, BatchError;
    var fs := es[e := es[e].(points := BatchRows(es[e].points, batch, now))];
    var u, w := BatchHash(crc, es[e].points, batch, now), BatchError(crc, es[e].points, batch, now);
    BatchHashIsOff(crc, es[e].points, batch, now);
    forall f | 0 <= f < |es|
      ensures f != e ==> Correct(crc, fs, rows, f)
      ensures ChildHash(fs, fs[f].down, |fs|) == ChildHash(es, es[f].down, |es|)
    {
      SameChildHash(es, fs, es[f].down, |es|);
      assert Correct(crc, es, rows, f);
    }
    var a, b, c := PointsHash(crc, RowsOf(rows, es[e].down)), PointsHash(crc, es[e].points), ChildHash(es, es[e].down, |es|);
    assert Correct(crc, es, rows, e);
    Associates(b, u, w);
    OffBy(a, b, c, Xor(u, w));
  }

  lemma {:induction false} OffBy(a: Hash, b: Hash, c: Hash, u: Hash)
    ensures Xor(Xor(Xor(a, Xor(b, u)), c), u) == Xor(Xor(a, b), c)
  {
    hide Xor;
    Associates(a, b, u);
    Associates(Xor(a, b), u, c);
    Commutes(u, c);
    Associates(Xor(a, b), c, u);
    Undo(Xor(Xor(a, b), c), u);
  }

  lemma {:induction false} SameChildHash(es: Edges, fs: Edges, node: string, k: nat)
    requires |es| <= |fs| && k <= |es|
    requires forall i :: 0 <= i < |es| ==> fs[i].up == es[i].up && fs[i].hash == es[i].hash
    ensures ChildHash(fs, node, k) == ChildHash(es, node, k)
  {
    if k > 0 {
      SameChildHash(es, fs, node, k - 1);
    }
  }

  // edgePoints on an edge that exists keeps every hash correct exactly when the change is worked out
  // right and is none, or the edge is the only one to its node.
  lemma {:induction false} EdgeWriteIff(crc: Checksum, es: Edges, rows: map<string, seq<Point>>, rank: Rank, e: nat,
          batch: seq<Point>, now: nat)
    requires e < |es| && WellFormed(es, rank) && Consistent(crc, es, rows)
    ensures
      var u := BatchHash(crc, es[e].points, batch, now);
      var fs := es[e := es[e].(points := BatchRows(es[e].points, batch, now))];
      && WellFormed(fs, rank)
      && (Consistent(crc, Updated(fs, rank, es[e].down, u), rows) <==> EdgeWriteKeeps(crc, es, e, batch, now))
  {
    hide BatchHash, BatchRows, Xor, CalcHash, Updated, BatchError, HashRight;
    EdgeWriteOff(crc, es, rows, e, batch, now);
    var fs := es[e := es[e].(points := BatchRows(es[e].points, batch, now))];
    var u, w := BatchHash(crc, es[e].points, batch, now), BatchError(crc, es[e].points, batch, now);
    BatchHashIsOff(crc, es[e].points, batch, now);
    NeutralIsZero(u, w);
    PassedUpIff(crc, fs, rows, rank, e, Xor(u, w), u);
    assert SoleParent(fs, es[e].down, e) <==> SoleParent(es, es[e].down, e) by {
      assert forall f :: 0 <= f < |es| ==> fs[f].down == es[f].down;
    }
  }

  // The row of a new edge, before its hash is filled in.
  function NewEdge(id: string, up: string, down: string, typ: string, batch: seq<Point>, now: nat): Edge {
    Edge(id, up, down, 0, typ, BatchRows([], batch, now))
  }

  // A new edge leaves every hash correct exactly when the hashes of the node's existing
  // children cancel (as they do for a node without children) and, if the hash of the new edge
  // is not zero, the node has no other parent.
  lemma {:induction false} NewEdgeIff(crc: Checksum, es: Edges, rows: map<string, seq<Point>>, rank: Rank, edge: Edge,
          batch: seq<Point>, now: nat)
    requires WellFormed(es + [edge], rank) && Consistent(crc, es, rows)
    requires edge.hash == 0 && edge.points == BatchRows([], batch, now)
    ensures
      var u := NewEdgeHash(crc, rows, edge.down, batch, now);
      Consistent(crc, Updated(es + [edge], rank, edge.down, u), rows) <==> NewEdgeKeeps(crc, es, rows, edge.down, batch, now)
  {
    hide Xor, PointsHash, BatchRows, BatchHash, ChildHash, Updated;
    var fs, n := es + [edge], |es|;
    var c, h := ChildHash(es, edge.down, n), PointsHash(crc, RowsOf(rows, edge.down));
    var b := BatchHash(crc, [], batch, now);
    var u := Xor(b, h);
    forall f | 0 <= f <= n
      ensures ChildHash(fs, fs[f].down, |fs|) == ChildHash(es, fs[f].down, n)
      ensures f < n ==> Correct(crc, fs, rows, f)
    {
      NewChild(es, edge, fs[f].down);
      if f < n {
        assert Correct(crc, es, rows, f);
      }
    }
    NewRowsRight(crc, batch, now);
    assert PointsHash(crc, []) == 0 by { NoPointsHash(crc); }
    Zero(b);
    Commutes(b, h);
    assert CalcHash(crc, fs, rows, n) == Xor(u, c);
    UpdateAtNode(crc, fs, rows, rank, edge.down, u, n);
    Zero(u);
    NeutralIsZero(u, c);
    if c == 0 {
      Self(u);
      PassedUpIff(crc, fs, rows, rank, n, u, u);
      assert SoleParent(fs, edge.down, n) <==> forall f :: 0 <= f < n ==> es[f].down != edge.down by {
        assert forall f :: 0 <= f < n ==> fs[f] == es[f];
      }
    } else {
      assert !Correct(crc, Updated(fs, rank, edge.down, u), rows, n);
    }
  }

  // Where there are no rows yet, none is lost.
  lemma {:induction false} NewRowsRight(crc: Checksum, batch: seq<Point>, now: nat)
    ensures PointsHash(crc, BatchRows([], batch, now)) == Xor(PointsHash(crc, []), BatchHash(crc, [], batch, now))
  {
    hide HashRight, BatchError;
    NoErrorIfNoneLost(crc, [], batch, now);
    BatchHashIsOff(crc, [], batch, now);
    RightMeans(crc, [], batch, now);
  }

  lemma {:induction false} NoPointsHash(crc: Checksum)
    ensures PointsHash(crc, []) == 0
  {
  }

  lemma {:induction false} NewChild(es: Edges, edge: Edge, node: string)
    requires edge.hash == 0
    ensures ChildHash(es + [edge], node, |es| + 1) == ChildHash(es, node, |es|)
  {
    SameChildHash(es, es + [edge], node, |es|);
    Zero(ChildHash(es, node, |es|));
  }

  // ----- the store -----

  datatype WriteError = SelfEdge | DeletesRoot | NoNodeType

  class DbSqlite {
    const crc: Checksum
    var edges: Edges
    var nodePoints: map<string, seq<Point>>
    var rootID: string

    constructor (crc: Checksum)
      ensures this.crc == crc && edges == [] && nodePoints == map[] && rootID == ""
    {
      this.crc := crc;
      edges, nodePoints, rootID := [], map[], "";
    }

    ghost predicate HashesCorrect()
      reads this
    {
      Consistent(crc, edges, nodePoints)
    }

    // A batch of points for a node, in one transaction.
    method NodePoints(id: string, points: seq<Point>, now: nat, ghost rank: Rank) returns (ghost batch: seq<Point>)
      requires WellFormed(edges, rank)
      modifies this
      ensures Lists(batch, Collapsed(points))
      ensures nodePoints == old(nodePoints)[id := BatchRows(RowsOf(old(nodePoints), id), batch, now)]
      ensures NodeStores(RowsOf(old(nodePoints), id), batch, now, nodePoints[id])
      ensures WellFormed(old(edges), rank)
      ensures edges == Updated(old(edges), rank, id, BatchHash(crc, RowsOf(old(nodePoints), id), batch, now))
      ensures rootID == old(rootID)
      ensures KeysClear(points, now) ==> HashRight(crc, RowsOf(old(nodePoints), id), batch, now)
      ensures NoneLost(RowsOf(old(nodePoints), id), batch, now) ==> HashRight(crc, RowsOf(old(nodePoints), id), batch, now)
      ensures old(HashesCorrect()) ==>
        (HashesCorrect() <==>
          || HashRight(crc, RowsOf(old(nodePoints), id), batch, now)
          || forall e :: 0 <= e < |old(edges)| ==> old(edges)[e].down != id)
    {
      hide BatchRows, BatchHash, Updated, Consistent, Lists, Collapsed, HashRight, NoneLost, KeysClear, NodeStores;
      var collapsed := Collapse(points);
      batch := collapsed;
      var db := if id in nodePoints then nodePoints[id] else [];
      var rows, hashUpdate := MergeBatch(crc, db, collapsed, now);
      NodeHashRight(crc, db, points, batch, now);
      if old(HashesCorrect()) {
        NodeWriteIff(crc, edges, nodePoints, rank, id, batch, now);
      }
      NodeStoresRows(db, batch, now);
      nodePoints := nodePoints[id := rows];
      edges := UpdateHash(edges, id, hashUpdate, rank);
    }

    // A batch of points for the edge from a node to its parent, which is made if it is new.
    method EdgePoints(nodeID: string, parentID: string, points: seq<Point>, newId: string, now: nat, ghost rank: Rank)
      returns (err: Option<WriteError>, ghost batch: seq<Point>)
      requires WellFormed(edges, rank)
      requires nodeID != NONE && nodeID != ROOT
      requires forall k :: 0 <= k < |edges| ==> edges[k].id != newId
      requires rank(if parentID == "" then ROOT else parentID) < rank(nodeID)
      modifies this
      ensures Lists(batch, Collapsed(points))
      ensures nodePoints == old(nodePoints)
      ensures err.Some? ==> edges == old(edges) && rootID == old(rootID)
      ensures
        var parent := if parentID == "" then ROOT else parentID;
        var stored := StoredPoints(batch);
        var e := EdgeFor(old(edges), parent, nodeID);
        && (err == Some(SelfEdge) <==> nodeID == parentID)
        && (err == Some(DeletesRoot) <==> nodeID != parentID && nodeID == old(rootID) && HasTombstone(batch))
        && (err == Some(NoNodeType) <==>
              && nodeID != parentID && !(nodeID == old(rootID) && HasTombstone(batch))
              && e == |old(edges)| && NodeTypeIn(batch) == "")
        && (err == None && e < |old(edges)| ==>
              && EdgeWritten(crc, old(edges), edges, rank, e, stored, now) && rootID == old(rootID)
              && (old(HashesCorrect()) ==>
                    (HashesCorrect() <==> EdgeWriteKeeps(crc, old(edges), e, stored, now))))
        && (err == None && e == |old(edges)| ==>
              var edge := NewEdge(newId, parent, nodeID, NodeTypeIn(batch), stored, now);
              && EdgeAdded(crc, old(edges), edges, nodePoints, rank, edge, stored, now)
              && rootID == (if parent == ROOT then nodeID else old(rootID))
              && (old(HashesCorrect()) ==>
                    (HashesCorrect() <==> NewEdgeKeeps(crc, old(edges), nodePoints, nodeID, stored, now))))
      // What this comes to, point by point.
      ensures nodeID == old(rootID) != parentID ==>
        (err == Some(DeletesRoot) <==>
          (exists i :: 0 <= i < |batch| && batch[i].typ == "tombstone" && batch[i].value > 0.0))
      ensures err == Some(NoNodeType) ==> TellsType(batch, "")
      ensures
        var up := if parentID == "" then "root" else parentID;
        var e := EdgeFor(old(edges), up, nodeID);
        err == None ==>
          if e < |old(edges)| then EdgeKept(old(edges), edges, e, batch, now)
          else EdgeMade(old(edges), edges, newId, up, nodeID, batch, now)
    {
      hide EdgeKept, EdgeMade, TellsType;
      hide EdgeWritten, EdgeAdded, EdgeWriteKeeps, NewEdgeKeeps, NewEdge, Lists, Collapsed, StoredPoints, NodeTypeIn;
      hide Consistent, OneRowEach, KeysClear, EdgeFor, WellFormed, Stamp, JoinedId;
      var collapsed := Collapse(points);
      batch := collapsed;
      if nodeID == parentID {
        return Some(SelfEdge), batch;
      }
      if nodeID == rootID {
        var deletes := FindTombstone(collapsed);
        if deletes {
          return Some(DeletesRoot), batch;
        }
      }
      var parent := if parentID == "" then ROOT else parentID;
      var e := FindEdge(edges, parent, nodeID);
      var stored, nodeType := SplitBatch(collapsed);
      NodeTypeIs(collapsed);
      if e < |edges| {
        UpdateEdge(e, stored, now, rank);
        EdgeWrittenKeeps(crc, old(edges), edges, rank, e, collapsed, now);
      } else {
        if nodeType == "" {
          return Some(NoNodeType), batch;
        }
        InsertEdge(nodeID, parent, nodeType, stored, newId, now, rank);
        EdgeAddedMakes(crc, old(edges), edges, nodePoints, rank, newId, parent, nodeID, collapsed, now);
        if parent == ROOT {
          rootID := nodeID;
        }
      }
      err := None;
    }

    static method FindTombstone(batch: seq<Point>) returns (found: bool)
      ensures found <==> HasTombstone(batch)
    {
      for i := 0 to |batch|
        invariant forall j :: 0 <= j < i ==> !(batch[j].typ == TOMBSTONE && batch[j].value > 0.0)
      {
        if batch[i].typ == TOMBSTONE && batch[i].value > 0.0 {
          return true;
        }
      }
      found := false;
    }

    method UpdateEdge(e: nat, stored: seq<Point>, now: nat, ghost rank: Rank)
      requires e < |edges| && WellFormed(edges, rank)
      modifies this`edges
      ensures EdgeWritten(crc, old(edges), edges, rank, e, stored, now)
      ensures old(HashesCorrect()) ==>
        (HashesCorrect() <==> EdgeWriteKeeps(crc, old(edges), e, stored, now))
    {
      hide BatchRows, BatchHash, Updated, Consistent, OneRowEach, SoleParent;
      if old(HashesCorrect()) {
        EdgeWriteIff(crc, edges, nodePoints, rank, e, stored, now);
      }
      var rows, hashUpdate := MergeBatch(crc, edges[e].points, stored, now);
      var fs := edges[e := edges[e].(points := rows)];
      edges := UpdateHash(fs, edges[e].down, hashUpdate, rank);
    }

    method InsertEdge(nodeID: string, parent: string, nodeType: string, stored: seq<Point>, newId: string, now: nat,
            ghost rank: Rank)
      requires WellFormed(edges, rank)
      requires nodeID != NONE && nodeID != ROOT && rank(parent) < rank(nodeID)
      requires forall k :: 0 <= k < |edges| ==> edges[k].id != newId
      modifies this`edges
      ensures EdgeAdded(crc, old(edges), edges, nodePoints, rank, NewEdge(newId, parent, nodeID, nodeType, stored, now), stored, now)
      ensures old(HashesCorrect()) ==>
        (HashesCorrect() <==> NewEdgeKeeps(crc, old(edges), nodePoints, nodeID, stored, now))
    {
      hide BatchRows, BatchHash, Updated, Consistent, OneRowEach, Xor, PointsHash, ChildHash;
      var rows, hashUpdate := MergeBatch(crc, [], stored, now);
      var known := if nodeID in nodePoints then nodePoints[nodeID] else [];
      hashUpdate := AddHash(crc, known, hashUpdate);
      var edge := Edge(newId, parent, nodeID, 0, nodeType, rows);
      if old(HashesCorrect()) {
        NewEdgeIff(crc, edges, nodePoints, rank, edge, stored, now);
      }
      edges := UpdateHash(edges + [edge], nodeID, hashUpdate, rank);
    }
  }

  // The edges after a batch for edge e.
  ghost predicate EdgeWritten(crc: Checksum, es: Edges, after: Edges, rank: Rank, e: nat, stored: seq<Point>, now: nat)
    requires e < |es|
  {
    var fs := es[e := es[e].(points := BatchRows(es[e].points, stored, now))];
    Acyclic(fs, rank) && after == Updated(fs, rank, es[e].down, BatchHash(crc, es[e].points, stored, now))
  }

  ghost predicate EdgeWriteKeeps(crc: Checksum, es: Edges, e: nat, stored: seq<Point>, now: nat)
    requires e < |es|
  {
    && HashRight(crc, es[e].points, stored, now)
    && (BatchHash(crc, es[e].points, stored, now) == 0 || SoleParent(es, es[e].down, e))
  }

  // The hash of a new edge: its points, and the points that its node already has.
  function NewEdgeHash(crc: Checksum, rows: map<string, seq<Point>>, node: string, stored: seq<Point>, now: nat): Hash {
    Xor(BatchHash(crc, [], stored, now), PointsHash(crc, RowsOf(rows, node)))
  }

  ghost predicate EdgeAdded(crc: Checksum, es: Edges, after: Edges, rows: map<string, seq<Point>>, rank: Rank,
                            edge: Edge, stored: seq<Point>, now: nat) {
    Acyclic(es + [edge], rank) &&
    after == Updated(es + [edge], rank, edge.down, NewEdgeHash(crc, rows, edge.down, stored, now))
  }

  // The children's hashes cancel, and no other parent would take the hash of the new edge.
  ghost predicate NewEdgeKeeps(crc: Checksum, es: Edges, rows: map<string, seq<Point>>, node: string,
          stored: seq<Point>, now: nat) {
    && ChildHash(es, node, |es|) == 0
    && (NewEdgeHash(crc, rows, node, stored, now) == 0 || forall f :: 0 <= f < |es| ==> es[f].down != node)
  }

  method FindEdge(es: Edges, up: string, down: string) returns (e: nat)
    ensures e == EdgeFor(es, up, down)
  {
    e := 0;
    while e < |es|
      invariant e <= |es|
      invariant forall i :: 0 <= i < e ==> es[i].up != up || es[i].down != down
    {
      if es[e].up == up && es[e].down == down {
        return;
      }
      e := e + 1;
    }
  }

  method SplitBatch(batch: seq<Point>) returns (stored: seq<Point>, nodeType: string)
    ensures stored == StoredPoints(batch) && nodeType == NodeTypeIn(batch)
  {
    stored, nodeType := [], "";
    for i := 0 to |batch|
      invariant stored == StoredPoints(batch[..i]) && nodeType == NodeTypeIn(batch[..i])
    {
      assert batch[..i + 1][..i] == batch[..i];
      if batch[i].typ == NODE_TYPE {
        nodeType := batch[i].text;
      } else {
        stored := stored + [batch[i]];
      }
    }
    assert batch[..|batch|] == batch;
  }

  // The loop that adds the points the node already has to the hash of its new edge.
  method AddHash(crc: Checksum, known: seq<Point>, h: Hash) returns (r: Hash)
    ensures r == Xor(h, PointsHash(crc, known))
  {
    hide Xor, Crc;
    r := h;
    Zero(h);
    for i := 0 to |known|
      invariant r == Xor(h, PointsHash(crc, known[..i]))
    {
      assert known[..i + 1][..i] == known[..i];
      Associates(h, PointsHash(crc, known[..i]), Crc(crc, known[i]));
      r := Xor(r, Crc(crc, known[i]));
    }
    assert known[..|known|] == known;
  }
}
