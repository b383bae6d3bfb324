// Frames out of a stream of device reads (client/cobs-wrapper.go, CobsWrapper).
module CobsStream {
  import opened Words
  import opened Wrappers
  import opened Cobs

  // ----- where frames lie in a stream -----

  // How far it is to the zero that ends the frame; zeros before the frame are skipped.  The
  // length of s if no frame ends in it.
  function End(s: seq<byte>, started: bool): (e: nat)
    ensures e <= |s|
    ensures e < |s| ==> s[e] == 0
  {
    if s == [] || (started && s[0] == 0) then 0 else 1 + End(s[1..], started || s[0] != 0)
  }

  // At i a zero stands behind a byte that is none.
  predicate EndsAt(s: seq<byte>, i: nat) {
    i < |s| && s[i] == 0 && exists j :: 0 <= j < i && s[j] != 0
  }

  // A frame ends at the first such place.
  lemma {:induction false} EndIs(s: seq<byte>)
    ensures
      var e := End(s, false);
      (e < |s| ==> EndsAt(s, e)) && forall i :: 0 <= i < e ==> !EndsAt(s, i)
  {
    EndFrom(s, false);
    var e := End(s, false);
    if e < |s| && forall j :: 0 <= j < e ==> s[j] == 0 {
      assert false;
    }
  }

  lemma {:induction false} EndFrom(s: seq<byte>, started: bool)
    ensures
      var e := End(s, started);
      && (e < |s| ==> s[e] == 0 && (started || exists j :: 0 <= j < e && s[j] != 0))
      && forall i :: 0 <= i < e && s[i] == 0 ==> !started && forall j :: 0 <= j < i ==> s[j] == 0
  {
    if s != [] && !(started && s[0] == 0) {
      var rest, next := s[1..], started || s[0] != 0;
      EndFrom(rest, next);
      var e := End(rest, next);
      assert forall i :: 0 <= i < |rest| ==> rest[i] == s[i + 1];
      assert forall i :: 1 <= i < |s| ==> s[i] == rest[i - 1];
    }
  }

  predicate HasFrame(s: seq<byte>) { End(s, false) < |s| }

  function Leading(s: seq<byte>): (n: nat)
    ensures n <= |s| && forall i :: 0 <= i < n ==> s[i] == 0
    ensures n < |s| ==> s[n] != 0
  {
    if s == [] || s[0] != 0 then 0 else 1 + Leading(s[1..])
  }

  // The complete frames of a stream, in order, without the zeros around them.
  function Frames(s: seq<byte>): seq<seq<byte>> {
    if !HasFrame(s) then []
    else
      var e := End(s, false);
      var z := Leading(s);
      [if z <= e then s[z..e] else []] + Frames(s[e + 1..])
  }

  function Stream(chunks: seq<seq<byte>>): seq<byte> {
    if chunks == [] then [] else chunks[0] + Stream(chunks[1..])
  }

  function MaxChunk(chunks: seq<seq<byte>>): (n: nat)
    ensures forall i :: 0 <= i < |chunks| ==> |chunks[i]| <= n
  {
    if chunks == [] then 0
    else
      var rest := MaxChunk(chunks[1..]);
      if |chunks[0]| > rest then |chunks[0]| else rest
  }

  // What is read past the end of the first frame, in the device read in which it ends, and the
  // device reads after that.
  function AfterFrame(chunks: seq<seq<byte>>, started: bool): (seq<byte>, seq<seq<byte>>) {
    if chunks == [] then ([], [])
    else
      var e := End(chunks[0], started);
      if e < |chunks[0]| then (chunks[0][e + 1..], chunks[1..])
      else AfterFrame(chunks[1..], started || !AllZero(chunks[0]))
  }

  predicate AllZero(s: seq<byte>) { forall i :: 0 <= i < |s| ==> s[i] == 0 }

  datatype Outcome = Data(d: Decoding) | DeviceError | TooMuchData | Panic

  class CobsWrapper {
    var dev: seq<seq<byte>>   // what the device will deliver, read by read; then it fails
    var readLeftover: seq<byte>
    const maxMessageLength: nat

    // The bytes that are left over and those still to come.
    ghost function Bytes(): seq<byte>
      reads this
    {
      readLeftover + Stream(dev)
    }

    constructor (dev: seq<seq<byte>>, maxMessageLength: nat)
      ensures this.dev == dev && readLeftover == [] && this.maxMessageLength == maxMessageLength
    {
      this.dev := dev;
      readLeftover := [];
      this.maxMessageLength := maxMessageLength;
    }

    // dev.Read(b[cur:]): some of what is due, at most what there is room for.
    method DevRead(b: array<byte>, cur: nat) returns (c: nat, err: bool, ghost got: seq<byte>)
      requires cur <= b.Length
      modifies this`dev, b
      ensures err <==> old(dev) == []
      ensures err ==> dev == [] && c == 0 && b[..] == old(b[..])
      ensures cur + c <= b.Length && b[..cur + c] == old(b[..cur]) + got && b[cur..cur + c] == got
      ensures got + Stream(dev) == old(Stream(dev))
      ensures !err ==> |dev| + |Stream(dev)| < old(|dev| + |Stream(dev)|) || cur == b.Length
      ensures !err ==> old(dev) != [] && c <= |old(dev)[0]|
      ensures !err && cur + c < b.Length ==> dev == old(dev)[1..] && c == |old(dev)[0]|
      ensures !err && cur + |old(dev)[0]| <= b.Length ==> dev == old(dev)[1..] && got == old(dev)[0]
    {
      if dev == [] {
        return 0, true, [];
      }
      err := false;
      var chunk := dev[0];
      c := if |chunk| <= b.Length - cur then |chunk| else b.Length - cur;
      for i := 0 to c
        invariant b[..cur] == old(b[..cur]) && b[cur..cur + i] == chunk[..i]
        invariant dev == old(dev)
      {
        b[cur + i] := chunk[i];
        assert b[cur..cur + i + 1] == chunk[..i] + [chunk[i]];
      }
      if c == |chunk| {
        dev := dev[1..];
      } else {
        dev := [chunk[c..]] + dev[1..];
        assert dev[1..] == old(dev)[1..];
        assert chunk == chunk[..c] + chunk[c..];
      }
      got := chunk[..c];
      assert old(Stream(dev)) == chunk + Stream(old(dev)[1..]);
    }

    // Read with a buffer of zeros.  If a frame ends in what was left over, that frame is
    // decoded, without the zero that ends it, and the rest stays, with that zero.  If not,
    // as many bytes of the buffer as are left over are skipped (they are not filled in), and
    // the first frame that ends in what the device delivers is decoded behind them; what has
    // been read past it is added to what was left over.
    method Read(b: array<byte>) returns (n: nat, r: Outcome)
      requires forall i :: 0 <= i < b.Length ==> b[i] == 0
      modifies this`dev, this`readLeftover, b
      ensures HasFrame(old(readLeftover)) ==>
        var e := End(old(readLeftover), false);
        && dev == old(dev)
        && r == (if e <= b.Length then Data(Decode(old(readLeftover)[..e])) else Panic)
        && readLeftover == (if e <= b.Length then old(readLeftover)[e..] else old(readLeftover))
      ensures !HasFrame(old(readLeftover)) ==>
        var z, s := |old(readLeftover)|, Stream(old(dev));
        var e := End(s, false);
        && (r == Panic <==> z > b.Length)
        && (r == Panic ==> dev == old(dev) && readLeftover == old(readLeftover))
        && (z <= b.Length ==>
              Outcomes(old(dev), z, b.Length, maxMessageLength, old(readLeftover), r, readLeftover)
              && FirstFrame(old(dev), z, b.Length, old(readLeftover), r, readLeftover, dev))
        && (e < |s| && z + e < b.Length && z + e <= maxMessageLength ==>
              && r == Data(Decode(Zeros(z) + s[..e] + [0]))
              && readLeftover + Stream(dev) == old(readLeftover) + s[e + 1..]
              && (z + e + MaxChunk(old(dev)) <= b.Length ==>
                    (readLeftover, dev) == (old(readLeftover) + AfterFrame(old(dev), false).0, AfterFrame(old(dev), false).1)))
      ensures r.Data? && r.d.Decoded? ==> n == |r.d.data| <= b.Length && b[..n] == r.d.data
    {
      hide Decode, Stream, Frames, AfterFrame, MaxChunk;
      n := 0;
      var cur := 0;
      if |readLeftover| > 0 {
        var i, found := FindEnd(readLeftover);
        if found {
          if i > b.Length {
            return 0, Panic;
          }
          Fill(b, readLeftover[..i]);
          readLeftover := readLeftover[i..];
          var d;
          n, d := DecodeInPlace(b, i);
          return n, Data(d);
        }
        cur := |readLeftover|;
      }
      if cur > b.Length {
        return 0, Panic;
      }
      n, r := ReadFrame(b, cur);
      if cur + End(Stream(old(dev)), false) <= maxMessageLength {
        ShortReaches(old(dev), cur, maxMessageLength, End(Stream(old(dev)), false));
      }
    }

    // The loop over device reads.
    method ReadFrame(b: array<byte>, z: nat) returns (n: nat, r: Outcome)
      requires z <= b.Length && forall i :: 0 <= i < z ==> b[i] == 0
      modifies this`dev, this`readLeftover, b
      ensures Outcomes(old(dev), z, b.Length, maxMessageLength, old(readLeftover), r, readLeftover)
      ensures FirstFrame(old(dev), z, b.Length, old(readLeftover), r, readLeftover, dev)
      ensures r.Data? && r.d.Decoded? ==> n == |r.d.data| <= b.Length && b[..n] == r.d.data
    {
      hide *;
      ghost var s, due := Stream(dev), dev;
      ghost var fits := z + End(s, false) + MaxChunk(due) <= b.Length;
      ghost var m: nat, j: nat := 0, 0;
      var cur: nat := z;
      var foundStart := false;
      NothingYet(b[..z], s);
      NoReads(due, z, b.Length, maxMessageLength);
      while true
        invariant readLeftover == old(readLeftover)
        invariant cur == z + m <= b.Length && m <= |s|
        invariant Taken(b[..cur], s, z, m, Stream(dev))
        invariant End(s, false) == m + End(s[m..], foundStart)
        invariant TakenReads(due, dev, z, b.Length, maxMessageLength, m, j)
        invariant fits ==> MaxChunk(dev) <= MaxChunk(due) && AfterFrame(dev, foundStart) == AfterFrame(due, false)
        decreases |dev| + |Stream(dev)|
      {
        var c, i, found, err;
        ghost var buf;
        ghost var now, was := dev, foundStart;
        c, i, foundStart, found, err, buf := ReadChunk(b, cur, foundStart, s, z, m);
        if err {
          AllRead(due, z, b.Length, maxMessageLength, m, j, readLeftover);
          NoFirstFrame(due, z, b.Length, readLeftover, DeviceError, readLeftover, dev);
          return 0, DeviceError;
        }
        AfterMeans(now, was, dev, foundStart, if found then Some(buf[cur + i + 1..]) else None);
        EndOf(buf, s, z, m, i, Stream(dev), found);
        if found {
          ghost var left := readLeftover;
          n, r := TakeFrame(b, cur + i + 1, cur + c, buf, due, z, m, i);
          FoundInRead(due, now, z, b.Length, maxMessageLength, m, j, i, left, r.d, readLeftover);
          return;
        }
        cur := cur + c;
        if cur >= b.Length || cur > maxMessageLength {
          TooMuchRead(due, now, z, b.Length, maxMessageLength, m, j, c, readLeftover);
          NoFirstFrame(due, z, b.Length, readLeftover, TooMuchData, readLeftover, dev);
          return 0, TooMuchData;
        }
        OneMoreRead(due, now, z, b.Length, maxMessageLength, m, j, c);
        m, j := m + c, j + 1;
      }
    }

    // The bytes behind the frame are saved, and the frame is decoded.
    method TakeFrame(b: array<byte>, end: nat, cur: nat, ghost buf: seq<byte>, ghost due: seq<seq<byte>>, ghost z: nat,
                     ghost m: nat, ghost i: nat)
      returns (n: nat, r: Outcome)
      requires end <= cur <= b.Length && buf == b[..cur]
      requires end == z + m + i + 1 && FrameAt(buf, Stream(due), z, m, i, Stream(dev))
      requires z + m + i + MaxChunk(due) <= b.Length ==> AfterFrame(due, false) == (buf[end..], dev)
      modifies this`readLeftover, b
      ensures r.Data? && FirstFrame(due, z, b.Length, old(readLeftover), r, readLeftover, dev)
      ensures r.d.Decoded? ==> n == |r.d.data| <= b.Length && b[..n] == r.d.data
    {
      hide *;
      ghost var left := readLeftover;
      assert b[end..cur] == buf[end..] && b[..end] == buf[..end];
      readLeftover := readLeftover + b[end..cur];
      FrameAtMeans(buf, Stream(due), z, m, i, Stream(dev), left);
      GotFirstFrame(due, z, b.Length, left, buf, m + i, readLeftover, dev);
      var d;
      n, d := DecodeInPlace(b, end);
      r := Data(d);
    }

    // One read from the device behind what the buffer holds, and the scan for a zero.
    method ReadChunk(b: array<byte>, cur: nat, started: bool, ghost s: seq<byte>, ghost z: nat, ghost m: nat)
      returns (c: nat, i: nat, started': bool, found: bool, err: bool, ghost buf: seq<byte>)
      requires cur == z + m <= b.Length && m <= |s|
      requires Taken(b[..cur], s, z, m, Stream(dev))
      requires End(s, false) == m + End(s[m..], started)
      modifies this`dev, b
      ensures !err && cur < b.Length ==> |dev| + |Stream(dev)| < old(|dev| + |Stream(dev)|)
      ensures err ==> old(dev) == dev == [] && End(s, false) == |s|
      ensures !err ==> old(dev) != [] && c <= |old(dev)[0]|
      ensures !err && cur + c < b.Length ==> dev == old(dev)[1..] && c == |old(dev)[0]|
      ensures cur + c <= b.Length && m + c <= |s| && buf == b[..cur + c]
      ensures !err && found ==> i < c && FrameAt(buf, s, z, m, i, Stream(dev))
      ensures !err && !found ==>
        && Taken(buf, s, z, m + c, Stream(dev))
        && End(s, false) == m + c + End(s[m + c..], started')
      ensures !err && cur + MaxChunk(old(dev)) <= b.Length ==>
        After(old(dev), started, dev, started', if found then Some(buf[cur + i + 1..]) else None)
    {
      hide *;
      i, started', found := 0, started, false;
      ghost var before, due := b[..cur], dev;
      ghost var chunk;
      c, err, chunk := DevRead(b, cur);
      buf := b[..cur + c];
      if err {
        NoChunks(dev);
        AllTaken(before, s, z, m, started);
        return;
      }
      i, started', found := ScanChunk(b[cur..cur + c], started, Stream(dev));
      Scanned(before, chunk, s, z, m, Stream(dev), started, i, started', found);
      if found {
        TailOf(before, chunk, i);
      }
      if cur + MaxChunk(due) <= b.Length {
        MaxChunkAt(due);
        AfterChunk(due, dev, chunk, started, started', found, i);
      }
    }
  }

  // A frame that fits is decoded, and what is read past it is added to what was left over.
  ghost predicate FirstFrame(due: seq<seq<byte>>, z: nat, size: nat, left: seq<byte>, r: Outcome,
                             left': seq<byte>, due': seq<seq<byte>>) {
    var s := Stream(due);
    var e := End(s, false);
    r.Data? ==>
      && e < |s| && r == Data(Decode(Zeros(z) + s[..e] + [0]))
      && left' + Stream(due') == left + s[e + 1..]
      && (z + e + MaxChunk(due) <= size ==> (left', due') == (left + AfterFrame(due, false).0, AfterFrame(due, false).1))
  }

  lemma {:induction false} NoFirstFrame(due: seq<seq<byte>>, z: nat, size: nat, left: seq<byte>, r: Outcome,
          left': seq<byte>, due': seq<seq<byte>>)
    requires !r.Data?
    ensures FirstFrame(due, z, size, left, r, left', due')
  {
  }

  // Every device read that stops before the frame ends, at e, leaves no more than the limit.
  ghost predicate Reaches(due: seq<seq<byte>>, z: nat, max: nat, e: nat) {
    forall j :: 1 <= j <= |due| && |Stream(due[..j])| <= e ==> z + |Stream(due[..j])| <= max
  }

  // How a read ends: with the error of the device if no frame does and everything fits; with a
  // frame if that and the reads before it fit; else with too much data.  What is left over stays,
  // unless a frame was found.
  ghost predicate Outcomes(due: seq<seq<byte>>, z: nat, size: nat, max: nat, left: seq<byte>, r: Outcome,
                           left': seq<byte>) {
    var s := Stream(due);
    var e := End(s, false);
    && r != Panic
    && (r == DeviceError <==> e == |s| && (due == [] || (z + |s| < size && z + |s| <= max)))
    && (r.Data? <==> e < |s| && z + e < size && Reaches(due, z, max, e))
    && (!r.Data? ==> left' == left)
  }

  lemma {:induction false} ShortReaches(due: seq<seq<byte>>, z: nat, max: nat, e: nat)
    requires z + e <= max
    ensures Reaches(due, z, max, e)
  {
  }

  // The first j device reads were taken whole, and fitted.
  ghost predicate TakenReads(due: seq<seq<byte>>, due': seq<seq<byte>>, z: nat, size: nat, max: nat, m: nat, j: nat) {
    j <= |due| && due' == due[j..] && m == |Stream(due[..j])| && (j > 0 ==> z + m < size && z + m <= max)
  }

  lemma {:induction false} NoReads(due: seq<seq<byte>>, z: nat, size: nat, max: nat)
    ensures TakenReads(due, due, z, size, max, 0, 0)
  {
    assert due[..0] == [] && due[0..] == due;
  }

  lemma {:induction false} ReadsGrow(due: seq<seq<byte>>, i: nat, j: nat)
    requires i <= j <= |due|
    ensures |Stream(due[..i])| <= |Stream(due[..j])| <= |Stream(due)|
    ensures i < |due| ==> |Stream(due[..i + 1])| == |Stream(due[..i])| + |due[i]|
    decreases |due|
  {
    if due != [] {
      if i > 0 {
        ReadsGrow(due[1..], i - 1, j - 1);
        assert due[..i][1..] == due[1..][..i - 1];
        assert due[..j][1..] == due[1..][..j - 1];
        if i < |due| {
          assert due[..i + 1][1..] == due[1..][..i];
        }
      } else {
        assert due[..1][1..] == [] && due[..0] == [];
        if j > 0 {
          ReadsGrow(due[1..], 0, j - 1);
          assert due[..j][1..] == due[1..][..j - 1];
        }
      }
    }
  }

  lemma {:induction false} OneMoreRead(due: seq<seq<byte>>, due': seq<seq<byte>>, z: nat, size: nat, max: nat, m: nat, j: nat,
                                       c: nat)
    requires TakenReads(due, due', z, size, max, m, j) && due' != [] && c == |due'[0]|
    requires z + m + c < size && z + m + c <= max
    ensures TakenReads(due, due'[1..], z, size, max, m + c, j + 1)
  {
    hide Stream;
    ReadsGrow(due, j, j);
    assert due'[0] == due[j];
  }

  lemma {:induction false} AllRead(due: seq<seq<byte>>, z: nat, size: nat, max: nat, m: nat, j: nat, left: seq<byte>)
    requires TakenReads(due, [], z, size, max, m, j) && End(Stream(due), false) == |Stream(due)|
    ensures Outcomes(due, z, size, max, left, DeviceError, left)
  {
    hide Stream, End;
    assert due[..j] == due;
  }

  lemma {:induction false} FoundInRead(due: seq<seq<byte>>, due': seq<seq<byte>>, z: nat, size: nat, max: nat, m: nat, j: nat,
                                       i: nat, left: seq<byte>, d: Decoding, left': seq<byte>)
    requires TakenReads(due, due', z, size, max, m, j) && due' != [] && i < |due'[0]| && z + m + i < size
    requires End(Stream(due), false) == m + i < |Stream(due)|
    ensures Outcomes(due, z, size, max, left, Data(d), left')
  {
    hide Stream, End;
    assert due'[0] == due[j];
    forall n | 1 <= n <= |due| && |Stream(due[..n])| <= m + i
      ensures z + |Stream(due[..n])| <= max
    {
      if n <= j {
        ReadsGrow(due, n, j);
      } else {
        ReadsGrow(due, j, n);
        ReadsGrow(due, j + 1, n);
      }
    }
  }

  lemma {:induction false} TooMuchRead(due: seq<seq<byte>>, due': seq<seq<byte>>, z: nat, size: nat, max: nat, m: nat, j: nat,
                                       c: nat, left: seq<byte>)
    requires TakenReads(due, due', z, size, max, m, j) && due' != [] && c <= |due'[0]|
    requires z + m + c >= size || (z + m + c > max && c == |due'[0]|)
    requires m + c <= End(Stream(due), false)
    ensures Outcomes(due, z, size, max, left, TooMuchData, left)
  {
    hide Stream, End;
    ReadsGrow(due, j, |due|);
    assert due'[0] == due[j];
    assert End(Stream(due), false) <= |Stream(due)|;
    if z + m + c < size {
      assert z + |Stream(due[..j + 1])| > max;
    }
  }

  lemma {:induction false} GotFirstFrame(due: seq<seq<byte>>, z: nat, size: nat, left: seq<byte>,
          buf: seq<byte>, e: nat, left': seq<byte>, due': seq<seq<byte>>)
    requires z + e < |buf| && End(Stream(due), false) == e < |Stream(due)|
    requires buf[..z + e + 1] == Zeros(z) + Stream(due)[..e] + [0]
    requires left' == left + buf[z + e + 1..] && left' + Stream(due') == left + Stream(due)[e + 1..]
    requires z + e + MaxChunk(due) <= size ==> AfterFrame(due, false) == (buf[z + e + 1..], due')
    ensures FirstFrame(due, z, size, left, Data(Decode(buf[..z + e + 1])), left', due')
  {
    hide End, Zeros, Stream, Decode, AfterFrame, MaxChunk;
  }

  // One device read has been taken whole: what is read past the end of the frame, if it has ended.
  ghost predicate After(due: seq<seq<byte>>, started: bool, due': seq<seq<byte>>, started': bool, past: Option<seq<byte>>) {
    && MaxChunk(due') <= MaxChunk(due)
    && AfterFrame(due, started) == if past.Some? then (past.value, due') else AfterFrame(due', started')
  }

  lemma {:induction false} AfterMeans(due: seq<seq<byte>>, started: bool, due': seq<seq<byte>>, started': bool,
          past: Option<seq<byte>>)
    ensures After(due, started, due', started', past) ==>
      && MaxChunk(due') <= MaxChunk(due)
      && AfterFrame(due, started) == if past.Some? then (past.value, due') else AfterFrame(due', started')
  {
  }

  lemma {:induction false} MaxChunkAt(due: seq<seq<byte>>)
    requires due != []
    ensures |due[0]| <= MaxChunk(due)
  {
  }

  // A frame ends in the bytes read, i bytes behind the m that were read before.
  ghost predicate FrameAt(buf: seq<byte>, s: seq<byte>, z: nat, m: nat, i: nat, rest: seq<byte>) {
    && z + m + i < |buf| && End(s, false) == m + i < |s|
    && buf[..z + m + i + 1] == Zeros(z) + s[..m + i] + [0]
    && buf[z + m + i + 1..] + rest == s[m + i + 1..]
  }

  lemma {:induction false} EndOf(buf: seq<byte>, s: seq<byte>, z: nat, m: nat, i: nat, rest: seq<byte>, found: bool)
    requires found ==> FrameAt(buf, s, z, m, i, rest)
    ensures found ==> End(s, false) == m + i
  {
  }

  lemma {:induction false} FrameAtMeans(buf: seq<byte>, s: seq<byte>, z: nat, m: nat, i: nat, rest: seq<byte>,
          left: seq<byte>)
    requires FrameAt(buf, s, z, m, i, rest)
    ensures z + m + i < |buf| && End(s, false) == m + i < |s|
    ensures buf[..z + m + i + 1] == Zeros(z) + s[..m + i] + [0]
    ensures left + buf[z + m + i + 1..] + rest == left + s[m + i + 1..]
  {
    hide End, Zeros;
    Joined(left, buf[z + m + i + 1..], rest);
  }

  // What the scan of a device read says of the whole stream.
  lemma {:induction false} Scanned(before: seq<byte>, chunk: seq<byte>, s: seq<byte>, z: nat, m: nat, rest: seq<byte>,
          started: bool, i: nat, started': bool, found: bool)
    requires |before| == z + m && Taken(before, s, z, m, chunk + rest) && End(s, false) == m + End(s[m..], started)
    requires found ==> i < |chunk| && End(chunk + rest, started) == i && chunk[i] == 0
    requires !found ==> End(chunk + rest, started) == |chunk| + End(rest, started')
    ensures m + |chunk| <= |s|
    ensures found ==> FrameAt(before + chunk, s, z, m, i, rest)
    ensures !found ==>
      && Taken(before + chunk, s, z, m + |chunk|, rest)
      && End(s, false) == m + |chunk| + End(s[m + |chunk|..], started')
  {
    hide End, Zeros, Taken;
    MoreTaken(before, chunk, s, z, m, rest);
    if found {
      TailOf(before, chunk, i);
      Cut(before + chunk, s, z, m, |chunk|, i, rest);
    }
  }

  lemma {:induction false} TailOf(before: seq<byte>, chunk: seq<byte>, i: nat)
    requires i < |chunk|
    ensures (before + chunk)[|before| + i + 1..] == chunk[i + 1..]
    ensures (before + chunk)[|before| + i] == chunk[i]
  {
  }

  lemma {:induction false} AfterChunk(due: seq<seq<byte>>, due': seq<seq<byte>>, chunk: seq<byte>, started: bool,
          started': bool, found: bool, i: nat)
    requires due != [] && due' == due[1..] && chunk == due[0]
    requires End(chunk, started) == if found then i else |chunk|
    requires found ==> i < |chunk|
    requires !found ==> (started' <==> started || !AllZero(chunk))
    ensures After(due, started, due', started', if found then Some(chunk[i + 1..]) else None)
  {
  }

  // What the buffer holds when m bytes of s have been read behind z skipped ones.
  ghost predicate Taken(buf: seq<byte>, s: seq<byte>, z: nat, m: nat, rest: seq<byte>) {
    m <= |s| && buf == Zeros(z) + s[..m] && rest == s[m..]
  }

  lemma {:induction false} NothingYet(buf: seq<byte>, s: seq<byte>)
    requires forall i :: 0 <= i < |buf| ==> buf[i] == 0
    ensures Taken(buf, s, |buf|, 0, s) && s[0..] == s
  {
    assert buf == Zeros(|buf|) + s[..0];
  }

  lemma {:induction false} MoreTaken(buf: seq<byte>, chunk: seq<byte>, s: seq<byte>, z: nat, m: nat, rest: seq<byte>)
    requires Taken(buf, s, z, m, chunk + rest)
    ensures m + |chunk| <= |s| && s[m..] == chunk + rest
    ensures Taken(buf + chunk, s, z, m + |chunk|, rest)
    ensures s[m..] == chunk + rest && s[m + |chunk|..] == rest
  {
    assert s == s[..m] + (chunk + rest);
    assert s[..m + |chunk|] == s[..m] + chunk;
  }

  lemma {:induction false} AllTaken(buf: seq<byte>, s: seq<byte>, z: nat, m: nat, started: bool)
    requires Taken(buf, s, z, m, [])
    ensures m == |s| && End(s[m..], started) == 0
  {
  }

  lemma {:induction false} Cut(buf: seq<byte>, s: seq<byte>, z: nat, m: nat, c: nat, i: nat, rest: seq<byte>)
    requires i < c && Taken(buf, s, z, m + c, rest)
    requires buf[z + m + i] == 0
    ensures |buf| == z + m + c && m + i < |s|
    ensures buf[..z + m + i + 1] == Zeros(z) + s[..m + i] + [0]
    ensures buf[z + m + i + 1..] + rest == s[m + i + 1..]
  {
  }

  // The scan of what one device read delivered, before the rest.
  method ScanChunk(t: seq<byte>, started: bool, ghost rest: seq<byte>) returns (i: nat, started': bool, found: bool)
    ensures found ==> i < |t| && End(t + rest, started) == i && t[i] == 0
    ensures !found ==> End(t + rest, started) == |t| + End(rest, started')
    ensures End(t, started) == if found then i else |t|
    ensures !found ==> (started' <==> started || !AllZero(t))
  {
    ghost var s := t + rest;
    started' := started;
    assert s[0..] == s && t[0..] == t;
    for k := 0 to |t|
      invariant End(s, started) == k + End(s[k..], started')
      invariant End(t, started) == k + End(t[k..], started')
      invariant started' <==> started || !AllZero(t[..k])
    {
      assert s[k..][1..] == s[k + 1..] && s[k] == t[k] == t[..k + 1][k];
      assert t[k..][1..] == t[k + 1..] && t[..k + 1] == t[..k] + [t[k]];
      if !started' {
        if t[k] == 0 {
          continue;
        }
        started' := true;
      }
      if t[k] == 0 {
        return k, started', true;
      }
    }
    assert s[|t|..] == rest && t[..|t|] == t;
    return |t|, started', false;
  }

  lemma {:induction false} Joined(a: seq<byte>, b: seq<byte>, c: seq<byte>)
    ensures a + b + c == a + (b + c)
  {
  }

  lemma {:induction false} NoChunks(dev: seq<seq<byte>>)
    requires dev == []
    ensures Stream(dev) == []
  {
  }

  // The scan of the leftover bytes.
  method FindEnd(s: seq<byte>) returns (e: nat, found: bool)
    ensures found <==> HasFrame(s)
    ensures e == End(s, false)
  {
    var foundStart := false;
    assert s[0..] == s;
    for i := 0 to |s|
      invariant End(s, false) == i + End(s[i..], foundStart)
    {
      assert s[i..][1..] == s[i + 1..];
      if !foundStart {
        if s[i] == 0 {
          continue;
        }
        foundStart := true;
      }
      if s[i] == 0 {
        return i, true;
      }
    }
    return |s|, false;
  }

  method Fill(b: array<byte>, src: seq<byte>)
    requires |src| <= b.Length
    modifies b
    ensures b[..|src|] == src && b[|src|..] == old(b[|src|..])
  {
    for i := 0 to |src|
      invariant b[..i] == src[..i] && b[|src|..] == old(b[|src|..])
    {
      b[i] := src[i];
      assert b[..i + 1] == src[..i] + [src[i]];
    }
  }

  // ----- frames are neither lost nor repeated -----

  lemma {:induction false} EndSplits(a: seq<byte>, s: seq<byte>, started: bool)
    requires End(a, started) == |a|
    ensures End(a + s, started) == |a| + End(s, started || exists i :: 0 <= i < |a| && a[i] != 0)
  {
    if a == [] {
      assert a + s == s;
    } else {
      assert (a + s)[1..] == a[1..] + s;
      EndSplits(a[1..], s, started || a[0] != 0);
      assert (exists i :: 0 <= i < |a| && a[i] != 0) <==> a[0] != 0 || exists i :: 0 <= i < |a[1..]| && a[1..][i] != 0 by {
        if i :| 0 <= i < |a| && a[i] != 0 {
          assert i > 0 ==> a[1..][i - 1] != 0;
        }
      }
    }
  }

  // Bytes that follow the end of the first frame do not move it.
  lemma {:induction false} EndStays(a: seq<byte>, s: seq<byte>, started: bool)
    requires End(a, started) < |a|
    ensures End(a + s, started) == End(a, started)
  {
    assert (a + s)[1..] == a[1..] + s;
    if !(started && a[0] == 0) {
      EndStays(a[1..], s, started || a[0] != 0);
    }
  }

  lemma {:induction false} LeadingStays(a: seq<byte>, s: seq<byte>)
    requires Leading(a) < |a|
    ensures Leading(a + s) == Leading(a)
  {
    assert (a + s)[1..] == a[1..] + s;
    if a[0] == 0 {
      LeadingStays(a[1..], s);
    }
  }

  lemma {:induction false} FrameStarts(s: seq<byte>, started: bool)
    ensures !started && End(s, started) < |s| ==> Leading(s) < End(s, started)
  {
    if s != [] && !started && s[0] == 0 {
      FrameStarts(s[1..], started);
    }
  }

  // Zeros in front do not count.
  lemma {:induction false} FramesAfterZeros(z: nat, s: seq<byte>)
    ensures Frames(Zeros(z) + s) == Frames(s)
  {
    if z == 0 {
      assert Zeros(z) + s == s;
    } else {
      var t := Zeros(z - 1) + s;
      assert (Zeros(z) + s)[1..] == t;
      OneZero(Zeros(z) + s);
      FramesAfterZeros(z - 1, s);
    }
  }

  lemma {:induction false} OneZero(s: seq<byte>)
    requires s != [] && s[0] == 0
    ensures Frames(s) == Frames(s[1..])
  {
    var t := s[1..];
    assert End(s, false) == 1 + End(t, false) && Leading(s) == 1 + Leading(t);
    if HasFrame(t) {
      var e := End(t, false);
      FrameStarts(t, false);
      assert s[Leading(s)..e + 1] == t[Leading(t)..e];
      assert s[e + 2..] == t[e + 1..];
    }
  }

  // What is left over is complete frames and zeros: it is empty or ends with a zero.
  predicate Clean(s: seq<byte>) { s == [] || s[|s| - 1] == 0 }

  lemma {:induction false} NoFrameMeansZeros(s: seq<byte>)
    requires Clean(s) && !HasFrame(s)
    ensures forall i :: 0 <= i < |s| ==> s[i] == 0
  {
    if s != [] {
      if s[0] == 0 {
        assert Clean(s[1..]);
        NoFrameMeansZeros(s[1..]);
      } else {
        LastZeroEnds(s[1..], s[|s| - 1]);
      }
    }
  }

  lemma {:induction false} LastZeroEnds(s: seq<byte>, last: byte)
    requires last == 0 && End(s, true) == |s|
    ensures s == [] || s[|s| - 1] != 0
  {
    if s != [] {
      LastZeroEnds(s[1..], last);
    }
  }

  // One Read, with clean leftovers and a frame that fits, takes exactly the first frame out of
  // the stream of bytes that are left over or still to be delivered: all the frames after it
  // stay, in order.
  lemma {:induction false} ReadTakesFirst(left: seq<byte>, due: seq<byte>, left2: seq<byte>, due2: seq<byte>)
    requires Clean(left) && HasFrame(left + due)
    requires HasFrame(left) ==> left2 == left[End(left, false)..] && due2 == due
    requires !HasFrame(left) ==> HasFrame(due) && left2 + due2 == left + due[End(due, false) + 1..]
    ensures [Frames(left + due)[0]] + Frames(left2 + due2) == Frames(left + due)
  {
    hide Leading, End, Frames, Clean;
    TailFrames(left + due);
    FirstEnd(left, due);
    if HasFrame(left) {
      RestOfLeftovers(left, due, End(left, false));
    } else {
      NoFrameMeansZeros(left);
      RestOfStream(left, due, End(due, false));
    }
  }

  lemma {:induction false} RestOfLeftovers(left: seq<byte>, due: seq<byte>, e: nat)
    requires e < |left| && left[e] == 0
    ensures Frames(left[e..] + due) == Frames((left + due)[e + 1..])
  {
    hide *;
    assert left[e..] + due == (left + due)[e..];
    OneZero((left + due)[e..]);
    assert (left + due)[e..][1..] == (left + due)[e + 1..];
  }

  lemma {:induction false} RestOfStream(left: seq<byte>, due: seq<byte>, e: nat)
    requires e < |due| && forall i :: 0 <= i < |left| ==> left[i] == 0
    ensures Frames(left + due[e + 1..]) == Frames((left + due)[|left| + e + 1..])
  {
    hide *;
    assert left == Zeros(|left|);
    FramesAfterZeros(|left|, due[e + 1..]);
    assert (left + due)[|left| + e + 1..] == due[e + 1..];
  }

  lemma {:induction false} TailFrames(s: seq<byte>)
    requires HasFrame(s)
    ensures Leading(s) <= End(s, false)
    ensures Frames(s) == [s[Leading(s)..End(s, false)]] + Frames(s[End(s, false) + 1..])
  {
    hide Leading, End;
    FrameStarts(s, false);
  }

  // What that Read decodes is the first frame of the stream: zeros, its bytes, and then its
  // final zero, or nothing where it was already left over.
  lemma {:induction false} ReadDecodesFirst(left: seq<byte>, due: seq<byte>)
    requires Clean(left) && HasFrame(left + due)
    ensures HasFrame(left) ==>
      left[..End(left, false)] == Zeros(Leading(left)) + Frames(left + due)[0]
    ensures !HasFrame(left) ==>
      Zeros(|left|) + due[..End(due, false)] + [0] == Zeros(|left| + Leading(due)) + Frames(left + due)[0] + [0]
  {
    hide Leading, End, Frames;
    var s := left + due;
    var e := End(s, false);
    FirstEnd(left, due);
    TailFrames(s);
    FrameStarts(s, false);
    var z := Leading(s);
    assert s[..e] == Zeros(z) + s[z..e];
    if HasFrame(left) {
      FrameStarts(left, false);
      LeadingStays(left, due);
      assert left[..e] == s[..e];
    } else {
      NoFrameMeansZeros(left);
      assert left == Zeros(|left|);
      LeadingZeros(|left|, due);
      assert s[..e] == Zeros(|left|) + due[..End(due, false)];
    }
  }

  lemma {:induction false} LeadingZeros(z: nat, s: seq<byte>)
    ensures Leading(Zeros(z) + s) == z + Leading(s)
  {
    if z == 0 {
      assert Zeros(z) + s == s;
    } else {
      assert (Zeros(z) + s)[1..] == Zeros(z - 1) + s;
      LeadingZeros(z - 1, s);
    }
  }

  lemma {:induction false} FirstEnd(left: seq<byte>, due: seq<byte>)
    requires HasFrame(left + due) && Clean(left)
    ensures HasFrame(left) ==> End(left, false) == End(left + due, false)
    ensures !HasFrame(left) ==> HasFrame(due) && End(due, false) < |due| && |left| + End(due, false) == End(left + due, false)
  {
    if HasFrame(left) {
      EndStays(left, due, false);
    } else {
      NoFrameMeansZeros(left);
      EndSplits(left, due, false);
    }
  }

  // ----- leftovers without a whole frame -----

  // What a read decodes when no frame ends in what is left over, and what the frame is that
  // ends in the bytes left over and due together.
  function ReadWith(left: seq<byte>, due: seq<byte>): Decoding {
    Decode(Zeros(|left|) + due[..End(due, false)] + [0])
  }

  function FrameOf(s: seq<byte>): Decoding {
    Decode(s[..End(s, false)] + [0])
  }

  // Leftovers in which no frame ends are lost: later reads decode what has been sent, whatever
  // it is, exactly if the leftovers are nothing but zeros.
  lemma {:induction false} SplitFramesSurviveIff(left: seq<byte>)
    requires !HasFrame(left)
    ensures (forall due :: HasFrame(due) ==> ReadWith(left, due) == FrameOf(left + due)) <==> AllZero(left)
  {
    hide Decode, End;
    if AllZero(left) {
      forall due | HasFrame(due)
        ensures ReadWith(left, due) == FrameOf(left + due)
      {
        EndSplits(left, due, false);
        assert left == Zeros(|left|);
        assert (left + due)[..|left| + End(due, false)] == Zeros(|left|) + due[..End(due, false)];
      }
    } else {
      var five, six := NextFrame(5), NextFrame(6);
      NextRead(left, 5);
      NextRead(left, 6);
      assert FrameOf(left + five) == FrameOf(left + six);
    }
  }

  function NextFrame(b: byte): seq<byte> { [0, 2, b, 0] }

  // A zero ends the frame whose first part is left over, but the read goes on to the next.
  lemma {:induction false} NextRead(left: seq<byte>, b: byte)
    requires !HasFrame(left) && !AllZero(left) && b != 0
    ensures HasFrame(NextFrame(b)) && ReadWith(left, NextFrame(b)) == Decoded([b])
    ensures FrameOf(left + NextFrame(b)) == Decode(left + [0])
  {
    hide Decode;
    var due := NextFrame(b);
    EndOfNext(b);
    var z := Zeros(|left|);
    DecodeEncoded(|left| + 1, [b], false, [0]);
    OneByteFrame(b);
    assert z + due[..3] + [0] == Zeros(|left| + 1) + [2, b] + [0];
    EndSplits(left, due, false);
    assert (left + due)[..|left|] == left;
  }

  lemma {:induction false} EndOfNext(b: byte)
    requires b != 0
    ensures End([2, b, 0], false) == 2 && End(NextFrame(b), false) == 3 && End(NextFrame(b), true) == 0
  {
    var s: seq<byte> := [2, b, 0];
    assert NextFrame(b)[1..] == s && s[1..] == [b, 0] && [b, 0][1..] == [0];
    assert End([0], true) == 0;
    assert End([b, 0], true) == 1;
  }

  lemma {:induction false} OneByteFrame(b: byte)
    requires b != 0
    ensures Encode([b], false) == [2, b]
  {
    assert [b][1..] == [] && [b][..1] == [b];
    assert RunLength([], 253) == 0;
  }

  // So a frame that is split between two reads is decoded without its first part: 1, 2, 3 comes
  // out as 3.
  lemma {:induction false} SplitFrameIsGarbled()
    ensures
      var left: seq<byte>, due: seq<byte> := [4, 1], [2, 3, 0];
      && left + due == Encode([1, 2, 3], false) + [0]
      && !HasFrame(left) && HasFrame(due)
      && ReadWith(left, due) == Decoded([3])
  {
    hide Run, RunLength;
    var p: seq<byte> := [1, 2, 3];
    assert RunLength(p, 254) == 3 by { ThreeBytes(); }
    assert p[..3] == p;
    var due: seq<byte> := [2, 3, 0];
    EndOfNext(3);
    var left: seq<byte> := [4, 1];
    assert left[1..] == [1] && left[1..][1..] == [];
    OneByteFrame(3);
    DecodeEncoded(2, [3], false, [0]);
    assert Zeros(2) + due[..2] + [0] == Zeros(2) + [2, 3] + [0];
  }

  lemma {:induction false} ThreeBytes()
    ensures RunLength([1, 2, 3], 254) == 3
  {
    var p: seq<byte> := [1, 2, 3];
    assert p[1..] == [2, 3] && p[1..][1..] == [3] && p[1..][1..][1..] == [];
  }
}
