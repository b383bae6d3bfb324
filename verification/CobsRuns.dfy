// Payload after payload out of a stream of device reads (client/cobs-wrapper.go).
//
// What a device read brings beyond the frame that ends in it is left over for later reads.  That
// is whole frames and zeros, such as the zero that CobsWrapper.Write puts before the next frame.
// Zeros that no frame follows stay in the leftovers and take room from later reads.
module CobsRuns {
  import opened Words
  import opened Cobs
  import opened CobsStream

  // Every device read in which a frame ends stops at the end of a frame, or at a zero behind it.
  predicate Aligned(chunks: seq<seq<byte>>, started: bool) {
    chunks == [] ||
      var e := End(chunks[0], started);
      if e < |chunks[0]| then Clean(chunks[0][e + 1..]) && Aligned(chunks[1..], false)
      else Aligned(chunks[1..], started || !AllZero(chunks[0]))
  }

  // The zeros that no frame follows.
  function Surplus(s: seq<byte>): nat
    decreases |s|
  {
    if HasFrame(s) then Surplus(s[End(s, false) + 1..]) else |s|
  }

  // The same for all device reads in which a frame ends.
  function SurplusIn(chunks: seq<seq<byte>>, started: bool): nat {
    if chunks == [] then 0
    else
      var e := End(chunks[0], started);
      if e < |chunks[0]| then Surplus(chunks[0][e + 1..]) + SurplusIn(chunks[1..], false)
      else SurplusIn(chunks[1..], started || !AllZero(chunks[0]))
  }

  // The zeros left over, one that may be added by reading leftovers, and those still to come.
  ghost predicate Within(left: seq<byte>, dev: seq<seq<byte>>, zeros: nat) {
    && Clean(left) && Aligned(dev, false) && SurplusIn(dev, false) <= zeros
    && Surplus(left) + (if HasFrame(left) then 1 else 0) + SurplusIn(dev, false) <= zeros + 1
  }

  // Every frame, with the zeros before it, has at most lim bytes.
  predicate FramesFit(s: seq<byte>, lim: nat)
    decreases |s|
  {
    HasFrame(s) ==> End(s, false) <= lim && FramesFit(s[End(s, false) + 1..], lim)
  }

  lemma {:induction false} AlignedAfter(chunks: seq<seq<byte>>, started: bool)
    requires Aligned(chunks, started)
    ensures
      var (past, rest) := AfterFrame(chunks, started);
      && Clean(past) && Aligned(rest, false) && MaxChunk(rest) <= MaxChunk(chunks)
      && Surplus(past) + SurplusIn(rest, false) <= SurplusIn(chunks, started)
  {
    hide Surplus, Clean;
    NoSurplus();
    if chunks != [] && End(chunks[0], started) == |chunks[0]| {
      AlignedAfter(chunks[1..], started || !AllZero(chunks[0]));
    }
  }

  lemma {:induction false} NoSurplus()
    ensures Surplus([]) == 0 && Clean([])
  {
  }

  // ----- zeros in front -----

  lemma {:induction false} ZerosBefore(z: nat, s: seq<byte>)
    ensures Frames(Zeros(z) + s) == Frames(s) && (HasFrame(Zeros(z) + s) <==> HasFrame(s))
    ensures End(Zeros(z) + s, false) == z + End(s, false)
    ensures HasFrame(s) ==> (Zeros(z) + s)[z + End(s, false) + 1..] == s[End(s, false) + 1..]
    ensures Surplus(Zeros(z) + s) == if HasFrame(s) then Surplus(s) else z + Surplus(s)
  {
    hide End, Frames;
    FramesAfterZeros(z, s);
    NoEndInZeros(z);
    EndSplits(Zeros(z), s, false);
  }

  lemma {:induction false} NoEndInZeros(z: nat)
    ensures End(Zeros(z), false) == z
  {
    if z > 0 {
      assert Zeros(z)[1..] == Zeros(z - 1);
      NoEndInZeros(z - 1);
    }
  }

  // ----- what a read leaves -----

  // From leftovers: the zero that ends the frame stays.
  lemma {:induction false} LeftoversStay(left: seq<byte>, dev: seq<seq<byte>>, zeros: nat)
    requires Within(left, dev, zeros) && HasFrame(left)
    ensures Within(left[End(left, false)..], dev, zeros)
  {
    hide Aligned, SurplusIn, Clean, Surplus;
    var e := End(left, false);
    var rest := left[e + 1..];
    AtFrameEnd(left, e);
    ZerosBefore(1, rest);
    SurplusStep(left);
    NoFrameIsSurplus(rest);
  }

  lemma {:induction false} SurplusStep(s: seq<byte>)
    requires HasFrame(s)
    ensures Surplus(s) == Surplus(s[End(s, false) + 1..])
  {
  }

  lemma {:induction false} AtFrameEnd(left: seq<byte>, e: nat)
    requires e < |left| && left[e] == 0 && Clean(left)
    ensures left[e..] == Zeros(1) + left[e + 1..] && Clean(left[e..])
  {
  }

  lemma {:induction false} NoFrameIsSurplus(s: seq<byte>)
    ensures !HasFrame(s) ==> Surplus(s) == |s|
  {
  }

  // From the device: what is read beyond the frame comes behind the zeros left over.
  lemma {:induction false} DeviceStays(left: seq<byte>, dev: seq<seq<byte>>, zeros: nat)
    requires Within(left, dev, zeros) && !HasFrame(left)
    ensures Within(left + AfterFrame(dev, false).0, AfterFrame(dev, false).1, zeros)
  {
    hide End, Aligned, SurplusIn, AfterFrame;
    AlignedAfter(dev, false);
    NoFrameMeansZeros(left);
    assert left == Zeros(|left|);
    var past := AfterFrame(dev, false).0;
    ZerosBefore(|left|, past);
    assert left + past != [] ==> (left + past)[|left + past| - 1] == if past != [] then past[|past| - 1] else left[|left| - 1];
  }

  lemma {:induction false} RoomNeeded(left: seq<byte>, dev: seq<seq<byte>>, zeros: nat)
    requires Within(left, dev, zeros) && !HasFrame(left)
    ensures |left| <= zeros + 1 && left == Zeros(|left|)
  {
    NoFrameMeansZeros(left);
  }

  // What is left of the stream s after a read with these leftovers.
  function WithoutFirst(left: seq<byte>, s: seq<byte>): seq<byte>
    requires HasFrame(s)
  {
    (if HasFrame(left) then Zeros(1) else left) + s[End(s, false) + 1..]
  }

  lemma {:induction false} RestLeft(left: seq<byte>, due: seq<byte>, left2: seq<byte>, due2: seq<byte>)
    requires Clean(left) && HasFrame(left + due)
    requires HasFrame(left) ==> left2 == left[End(left, false)..] && due2 == due
    requires !HasFrame(left) ==> HasFrame(due) && left2 + due2 == left + due[End(due, false) + 1..]
    ensures left2 + due2 == WithoutFirst(left, left + due)
  {
    hide End, Clean;
    FirstEnd(left, due);
    var e := End(left + due, false);
    if HasFrame(left) {
      assert left[e] == 0;
      assert left[e..] + due == Zeros(1) + (left + due)[e + 1..];
    } else {
      assert due[End(due, false) + 1..] == (left + due)[e + 1..];
    }
  }

  // ----- one payload -----

  // Reading an encoded payload out of a stream, with a buffer of its own: as long as what is
  // left over is clean, it comes out whole.  The one exception is a payload of a single byte
  // whose frame was left over with no zero before it.
  method ReadPayload(cw: CobsWrapper, size: nat, ghost p: seq<byte>, ghost trailing: bool, ghost zeros: nat)
    returns (data: Outcome)
    requires Clean(cw.readLeftover) && p != []
    requires
      var s := cw.Bytes();
      HasFrame(s) && End(s, false) < size && End(s, false) <= cw.maxMessageLength
      && Frames(s)[0] == Encode(p, trailing)
    modifies cw`dev, cw`readLeftover
    ensures data == Data(
      if HasFrame(old(cw.readLeftover)) && End(old(cw.readLeftover), false) <= 2 then NotEnoughData else Decoded(p))
    ensures data == Data(Decoded(p)) || (|p| == 1 && data == Data(NotEnoughData))
    ensures [Encode(p, trailing)] + Frames(cw.Bytes()) == old(Frames(cw.Bytes()))
    ensures cw.Bytes() == old(WithoutFirst(cw.readLeftover, cw.Bytes()))
    ensures
      old(Within(cw.readLeftover, cw.dev, zeros) && End(cw.Bytes(), false) + MaxChunk(cw.dev) <= size) ==>
        Within(cw.readLeftover, cw.dev, zeros) && MaxChunk(cw.dev) <= old(MaxChunk(cw.dev))
  {
    hide Decode, Encode, Frames, Stream, Within, MaxChunk, End, AfterFrame, Clean, Leading, WithoutFirst;
    ghost var left, dev, due := cw.readLeftover, cw.dev, Stream(cw.dev);
    var buf := new byte[size](_ => 0);
    var n;
    ReadDecodesFirst(left, due);
    FirstEnd(left, due);
    n, data := cw.Read(buf);
    ReadTakesFirst(left, due, cw.readLeftover, Stream(cw.dev));
    RestLeft(left, due, cw.readLeftover, Stream(cw.dev));
    EncodeHasNoZero(p, trailing);
    LongFrame(left, due, p, trailing);
    if HasFrame(left) {
      DecodeEncoded(Leading(left), p, trailing, []);
      assert Zeros(Leading(left)) + Encode(p, trailing) + [] == left[..End(left, false)];
    } else {
      DecodeEncoded(|left| + Leading(due), p, trailing, [0]);
    }
    if Within(left, dev, zeros) && End(left + due, false) + MaxChunk(dev) <= size {
      StaysWithin(left, dev, zeros);
    }
  }

  lemma {:induction false} StaysWithin(left: seq<byte>, dev: seq<seq<byte>>, zeros: nat)
    requires Within(left, dev, zeros)
    ensures HasFrame(left) ==> Within(left[End(left, false)..], dev, zeros)
    ensures !HasFrame(left) ==>
      && Within(left + AfterFrame(dev, false).0, AfterFrame(dev, false).1, zeros)
      && MaxChunk(AfterFrame(dev, false).1) <= MaxChunk(dev)
  {
    if HasFrame(left) {
      LeftoversStay(left, dev, zeros);
    } else {
      DeviceStays(left, dev, zeros);
      AlignedAfter(dev, false);
    }
  }

  // A frame of three bytes or more is never too short.
  lemma {:induction false} LongFrame(left: seq<byte>, due: seq<byte>, p: seq<byte>, trailing: bool)
    requires Clean(left) && HasFrame(left + due) && Frames(left + due)[0] == Encode(p, trailing) && |p| >= 1
    ensures HasFrame(left) && End(left, false) <= 2 ==> |p| == 1
  {
    hide End, Frames, Leading, Encode, Clean;
    ReadDecodesFirst(left, due);
    LongEncoding(p, trailing);
  }

  lemma {:induction false} LongEncoding(p: seq<byte>, trailing: bool)
    ensures |Encode(p, trailing)| > |p|
    decreases |p|
  {
    hide RunLength;
    EncodeBlocks(p, trailing);
    if !Last(p, trailing) {
      LongEncoding(Rest(p), trailing);
    }
  }

  // ----- payloads in order -----

  function Encodings(ps: seq<seq<byte>>, trailing: bool): (r: seq<seq<byte>>)
    ensures |r| == |ps| && forall i :: 0 <= i < |r| ==> r[i] == Encode(ps[i], trailing)
  {
    seq(|ps|, i requires 0 <= i < |ps| => Encode(ps[i], trailing))
  }

  // Payloads come out of successive reads, whole and in order, none lost or repeated: if the
  // device reads in which a frame ends stop behind a zero, and the buffer has room for a frame, a
  // device read, and one zero more than those that no frame follows in its device read.
  method ReadPayloads(cw: CobsWrapper, size: nat, lim: nat, ghost ps: seq<seq<byte>>, ghost trailing: bool, n: nat,
                      ghost zeros: nat)
    returns (outs: seq<Outcome>)
    requires n == |ps| && forall i :: 0 <= i < n ==> ps[i] != []
    requires Within(cw.readLeftover, cw.dev, zeros)
    requires Encodings(ps, trailing) <= Frames(cw.Bytes())
    requires FramesFit(cw.Bytes(), lim)
    requires Room(size, cw.maxMessageLength, lim + zeros + 1, MaxChunk(cw.dev))
    modifies cw`dev, cw`readLeftover
    ensures |outs| == n
    ensures forall i :: 0 <= i < n ==>
      outs[i] == Data(Decoded(ps[i])) || (|ps[i]| == 1 && outs[i] == Data(NotEnoughData))
    ensures Encodings(ps, trailing) + Frames(cw.Bytes()) == old(Frames(cw.Bytes()))
    ensures Within(cw.readLeftover, cw.dev, zeros)
  {
    hide *;
    outs := [];
    ghost var all, es := Frames(cw.Bytes()), Encodings(ps, trailing);
    ghost var t := cw.Bytes();
    NoneCame(t, lim, zeros, all, es);
    for k := 0 to n
      invariant |outs| == k && Within(cw.readLeftover, cw.dev, zeros)
      invariant Room(size, cw.maxMessageLength, lim + zeros + 1, MaxChunk(cw.dev))
      invariant Coming(cw.Bytes(), t, lim, zeros, all, es, k)
      invariant forall i :: 0 <= i < k ==>
        outs[i] == Data(Decoded(ps[i])) || (|ps[i]| == 1 && outs[i] == Data(NotEnoughData))
    {
      var out;
      ghost var chunk := MaxChunk(cw.dev);
      out, t := ReadNext(cw, size, lim, t, all, es, k, ps[k], trailing, zeros);
      RoomStays(size, cw.maxMessageLength, lim + zeros + 1, chunk, MaxChunk(cw.dev));
      outs := outs + [out];
    }
    AllCame(cw.Bytes(), t, lim, zeros, all, es);
  }

  // The buffer and the limit on messages are large enough.
  predicate Room(size: nat, maxMessageLength: nat, frame: nat, chunk: nat) {
    frame + chunk <= size && frame < size && frame <= maxMessageLength
  }

  lemma {:induction false} RoomStays(size: nat, maxMessageLength: nat, frame: nat, chunk: nat, less: nat)
    requires Room(size, maxMessageLength, frame, chunk) && less <= chunk
    ensures Room(size, maxMessageLength, frame, less)
  {
  }

  // k frames of all have come out; what is left begins with some more zeros than t.
  ghost predicate Coming(bytes: seq<byte>, t: seq<byte>, lim: nat, zeros: nat, all: seq<seq<byte>>, es: seq<seq<byte>>,
                         k: nat) {
    && es <= all && k <= |es| && all == es[..k] + Frames(t)
    && FramesFit(t, lim) && exists y :: 0 <= y <= zeros + 1 && bytes == Zeros(y) + t
  }

  lemma {:induction false} NoneCame(t: seq<byte>, lim: nat, zeros: nat, all: seq<seq<byte>>, es: seq<seq<byte>>)
    requires es <= all && all == Frames(t) && FramesFit(t, lim)
    ensures Coming(t, t, lim, zeros, all, es, 0)
  {
    hide Frames, FramesFit;
    assert es[..0] + Frames(t) == Frames(t);
    assert t == Zeros(0) + t;
  }

  lemma {:induction false} AllCame(bytes: seq<byte>, t: seq<byte>, lim: nat, zeros: nat, all: seq<seq<byte>>,
                                   es: seq<seq<byte>>)
    requires Coming(bytes, t, lim, zeros, all, es, |es|)
    ensures all == es + Frames(bytes)
  {
    hide Frames, FramesFit, End, Zeros;
    var y :| 0 <= y <= zeros + 1 && bytes == Zeros(y) + t;
    ZerosBefore(y, t);
    assert es[..|es|] == es;
  }

  method ReadNext(cw: CobsWrapper, size: nat, ghost lim: nat, ghost t: seq<byte>, ghost all: seq<seq<byte>>,
                  ghost es: seq<seq<byte>>, ghost k: nat, ghost p: seq<byte>, ghost trailing: bool, ghost zeros: nat)
    returns (out: Outcome, ghost t': seq<byte>)
    requires Within(cw.readLeftover, cw.dev, zeros) && Coming(cw.Bytes(), t, lim, zeros, all, es, k)
    requires k < |es| && es[k] == Encode(p, trailing) && p != []
    requires Room(size, cw.maxMessageLength, lim + zeros + 1, MaxChunk(cw.dev))
    modifies cw`dev, cw`readLeftover
    ensures Within(cw.readLeftover, cw.dev, zeros) && Coming(cw.Bytes(), t', lim, zeros, all, es, k + 1)
    ensures MaxChunk(cw.dev) <= old(MaxChunk(cw.dev))
    ensures out == Data(Decoded(p)) || (|p| == 1 && out == Data(NotEnoughData))
  {
    hide Decode, Encode, Frames, Stream, Within, MaxChunk, End, FramesFit, WithoutFirst, CobsWrapper.Bytes, Coming;
    ghost var s, left, dev := cw.Bytes(), cw.readLeftover, cw.dev;
    NextFrameOf(t, s, lim, zeros, all, es, k);
    WithinIsClean(left, dev, zeros);
    out := ReadPayload(cw, size, p, trailing, zeros);
    FrameTaken(t, s, left, dev, lim, zeros, all, es, k);
    t' := t[End(t, false) + 1..];
  }

  lemma {:induction false} WithinIsClean(left: seq<byte>, dev: seq<seq<byte>>, zeros: nat)
    requires Within(left, dev, zeros)
    ensures Clean(left)
  {
  }

  // The next frame of the stream is the next one to come.
  lemma {:induction false} NextFrameOf(t: seq<byte>, s: seq<byte>, lim: nat, zeros: nat, all: seq<seq<byte>>,
                                       es: seq<seq<byte>>, k: nat)
    requires Coming(s, t, lim, zeros, all, es, k) && k < |es|
    ensures HasFrame(s) && HasFrame(t) && End(s, false) <= lim + zeros + 1 && Frames(s)[0] == es[k]
    ensures s[End(s, false) + 1..] == t[End(t, false) + 1..]
    ensures
      var t' := t[End(t, false) + 1..];
      FramesFit(t', lim) && all == es[..k + 1] + Frames(t')
  {
    hide Frames, End, FramesFit, Zeros;
    var y :| 0 <= y <= zeros + 1 && s == Zeros(y) + t;
    ZerosBefore(y, t);
    FrameOfFrames(t);
    assert Frames(t)[0] == all[k] == es[k];
    NextFits(t, lim);
  }

  lemma {:induction false} FrameOfFrames(s: seq<byte>)
    ensures HasFrame(s) <==> Frames(s) != []
    ensures HasFrame(s) ==> Frames(s)[1..] == Frames(s[End(s, false) + 1..])
  {
    hide End, Leading;
  }

  lemma {:induction false} NextFits(s: seq<byte>, lim: nat)
    requires FramesFit(s, lim) && HasFrame(s)
    ensures End(s, false) <= lim && FramesFit(s[End(s, false) + 1..], lim)
  {
  }

  lemma {:induction false} FrameTaken(t: seq<byte>, s: seq<byte>, left: seq<byte>, dev: seq<seq<byte>>, lim: nat,
                                      zeros: nat, all: seq<seq<byte>>, es: seq<seq<byte>>, k: nat)
    requires Coming(s, t, lim, zeros, all, es, k) && k < |es| && HasFrame(s) && HasFrame(t) && Within(left, dev, zeros)
    ensures Coming(WithoutFirst(left, s), t[End(t, false) + 1..], lim, zeros, all, es, k + 1)
  {
    hide Frames, End, FramesFit, Within, Zeros;
    NextFrameOf(t, s, lim, zeros, all, es, k);
    var y: nat := 1;
    if !HasFrame(left) {
      RoomNeeded(left, dev, zeros);
      y := |left|;
    }
    assert WithoutFirst(left, s) == Zeros(y) + t[End(t, false) + 1..];
  }
}
