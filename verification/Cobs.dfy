// Consistent Overhead Byte Stuffing: the in-place decoder (client/cobs-wrapper.go) against the
// encoding of Cheshire and Baker.
module Cobs {
  import opened Words
  import opened Wrappers

  datatype Decoding = Decoded(data: seq<byte>) | NotEnoughData | DecodeError

  // ----- the decoder as a machine that reads byte after byte -----

  // A byte tells how far the next zero of the data is: off counts up from the code byte.  What
  // has been read since is counted by at; out is what has been decoded.
  datatype Machine = Skipping | Reading(off: byte, at: nat, out: seq<byte>)

  function Run(s: seq<byte>, m: Machine): Decoding {
    if s == [] then Decoded(if m.Skipping? then [] else m.out)
    else
      var b := s[0];
      match m
      case Skipping => Run(s[1..], if b == 0 then Skipping else Reading(b, 0, []))
      case Reading(off, at, out) =>
        if at + 1 == off then
          if b == 0 then Decoded(out)
          else Run(s[1..], Reading(b, 0, if off != 0xFF then out + [0] else out))
        else if b == 0 then DecodeError
        else Run(s[1..], Reading(off, at + 1, out + [b]))
  }

  function Decode(s: seq<byte>): Decoding {
    if |s| <= 2 then NotEnoughData else Run(s, Skipping)
  }

  lemma {:induction false} RunStep(s: seq<byte>, i: nat, m: Machine)
    requires i < |s|
    ensures m.Skipping? ==> Run(s[i..], m) == Run(s[i + 1..], if s[i] == 0 then Skipping else Reading(s[i], 0, []))
    ensures m.Reading? && s[i] == 0 ==> Run(s[i..], m) == (if m.at + 1 == m.off then Decoded(m.out) else DecodeError)
    ensures m.Reading? && s[i] != 0 && m.at + 1 == m.off ==>
      Run(s[i..], m) == Run(s[i + 1..], Reading(s[i], 0, if m.off != 0xFF then m.out + [0] else m.out))
    ensures m.Reading? && s[i] != 0 && m.at + 1 != m.off ==>
      Run(s[i..], m) == Run(s[i + 1..], Reading(m.off, m.at + 1, m.out + [s[i]]))
  {
    assert s[i..][1..] == s[i + 1..];
  }

  lemma {:induction false} RunOver(m: Machine)
    ensures Run([], m) == Decoded(if m.Skipping? then [] else m.out)
  {
  }

  // cobsDecodeInplace on the first len bytes of a buffer.  The write index stays below the
  // read index, so no byte is overwritten before it is read, and the 8-bit count of bytes
  // since the code byte never wraps.
  method DecodeInPlace(b: array<byte>, len: nat) returns (iOut: nat, r: Decoding)
    requires len <= b.Length
    modifies b
    ensures r == Decode(old(b[..len]))
    ensures r.Decoded? ==> iOut == |r.data| <= len && b[..iOut] == r.data
    ensures iOut <= len && b[iOut..] == old(b[iOut..])
  {
    iOut := 0;
    if len <= 2 {
      return 0, NotEnoughData;
    }
    hide Run;
    ghost var s, whole := b[..len], b[..];
    var foundStart := false;
    var off: byte, iOff: byte := 0, 0;
    assert s[0..] == s;
    for iIn := 0 to len
      invariant iOut <= iIn && (foundStart ==> iOut < iIn) && (!foundStart ==> iOut == 0)
      invariant foundStart ==> iOff < off
      invariant b[iOut..] == whole[iOut..]
      invariant Run(s[iIn..], if foundStart then Reading(off, iOff, b[..iOut]) else Skipping) == Run(s, Skipping)
    {
      var bCur := b[iIn];
      assert bCur == b[iOut..][iIn - iOut] == s[iIn];
      if !foundStart {
        RunStep(s, iIn, Skipping);
        if bCur == 0 {
          continue;
        }
        assert b[..iOut] == [];
        foundStart := true;
        off := bCur;
        iOff := 0;
        continue;
      }
      var end;
      ghost var was, left := iOut, b[iOut..];
      iOut, off, iOff, end := DecodeByte(b, iOut, off, iOff, bCur, s, iIn);
      assert b[iOut..] == left[iOut - was..] == whole[was..][iOut - was..] == whole[iOut..];
      if end.Some? {
        return iOut, end.value;
      }
    }
    assert s[len..] == [];
    RunOver(if foundStart then Reading(off, iOff, b[..iOut]) else Skipping);
    return iOut, Decoded(b[..iOut]);
  }

  // A byte behind the first code byte: the end, an error, a code byte, or data.
  method DecodeByte(b: array<byte>, iOut: nat, off: byte, iOff: byte, bCur: byte, ghost s: seq<byte>, ghost iIn: nat)
    returns (iOut': nat, off': byte, iOff': byte, end: Option<Decoding>)
    requires iOut < b.Length && iOff < off && iIn < |s| && bCur == s[iIn]
    modifies b
    ensures iOut <= iOut' <= iOut + 1 && iOff' < off' && b[iOut'..] == old(b[iOut'..])
    ensures end.None? ==>
      Run(s[iIn + 1..], Reading(off', iOff', b[..iOut'])) == old(Run(s[iIn..], Reading(off, iOff, b[..iOut])))
    ensures end.Some? ==> iOut' == iOut && end.value == old(Run(s[iIn..], Reading(off, iOff, b[..iOut])))
    ensures end.Some? && end.value.Decoded? ==> end.value.data == b[..iOut']
  {
    hide Run;
    RunStep(s, iIn, Reading(off, iOff, b[..iOut]));
    iOut', off', iOff', end := iOut, off, (iOff + 1) % 0x100, None;
    if iOff' == off {
      if bCur == 0 {
        return iOut, off, iOff, Some(Decoded(b[..iOut]));
      }
      if off != 0xFF {
        iOut' := PutByte(b, iOut, 0);
      }
      off' := bCur;
      iOff' := 0;
    } else {
      if bCur == 0 {
        return iOut, off, iOff, Some(DecodeError);
      }
      iOut' := PutByte(b, iOut, bCur);
    }
  }

  // b[iOut] = v; iOut++
  method PutByte(b: array<byte>, at: nat, v: byte) returns (next: nat)
    requires at < b.Length
    modifies b
    ensures next == at + 1
    ensures b[..next] == old(b[..at]) + [v]
    ensures b[next..] == old(b[next..])
  {
    b[at] := v;
    next := at + 1;
  }

  // ----- the encoding -----

  // The length of the longest start without zeros, up to 254 bytes.
  function RunLength(p: seq<byte>, max: nat): (n: nat)
    ensures n <= |p| && n <= max
    ensures forall i :: 0 <= i < n ==> p[i] != 0
    ensures n < |p| && n < max ==> p[n] == 0
  {
    if p == [] || p[0] == 0 || max == 0 then 0 else 1 + RunLength(p[1..], max - 1)
  }

  // The bytes of an encoded frame, without the final zero.  After a full block of 254 bytes at
  // the very end, an encoder may or may not add an empty block; trailing tells which.
  function Encode(p: seq<byte>, trailing: bool): seq<byte> {
    var n := RunLength(p, 254);
    if n == 254 then
      [0xFF] + p[..n] + (if n == |p| && !trailing then [] else Encode(p[n..], trailing))
    else if n == |p| then
      [n + 1] + p
    else
      [n + 1] + p[..n] + Encode(p[n + 1..], trailing)
  }

  lemma {:induction false} EncodeHasNoZero(p: seq<byte>, trailing: bool)
    ensures |Encode(p, trailing)| >= 1 && (p != [] ==> |Encode(p, trailing)| >= 2)
    ensures forall i :: 0 <= i < |Encode(p, trailing)| ==> Encode(p, trailing)[i] != 0
    decreases |p|
  {
    var n := RunLength(p, 254);
    if n == 254 && !(n == |p| && !trailing) {
      EncodeHasNoZero(p[n..], trailing);
    } else if n < 254 && n < |p| {
      EncodeHasNoZero(p[n + 1..], trailing);
    }
  }

  // The frame is over where the bytes are, or where a zero follows.
  predicate Ends(tail: seq<byte>) { tail == [] || tail[0] == 0 }

  // Inside a block, bytes that are not zero are data.
  lemma {:induction false} RunData(off: byte, at: nat, out: seq<byte>, data: seq<byte>, rest: seq<byte>)
    requires at + |data| < off && forall i :: 0 <= i < |data| ==> data[i] != 0
    ensures Run(data + rest, Reading(off, at, out)) == Run(rest, Reading(off, at + |data|, out + data))
    decreases data
  {
    if data == [] {
      assert data + rest == rest && out + data == out;
    } else {
      assert (data + rest)[1..] == data[1..] + rest;
      assert out + data == (out + [data[0]]) + data[1..];
      RunData(off, at + 1, out + [data[0]], data[1..], rest);
    }
  }

  lemma {:induction false} RunEnds(off: byte, out: seq<byte>, tail: seq<byte>)
    requires off >= 1 && Ends(tail)
    ensures Run(tail, Reading(off, off - 1, out)) == Decoded(out)
  {
  }

  // At the end of a block the next code byte stands for a zero, unless the block was full.
  lemma {:induction false} NextBlock(off: byte, out: seq<byte>, rest: seq<byte>)
    requires off >= 1 && rest != [] && rest[0] != 0
    ensures Run(rest, Reading(off, off - 1, out)) ==
      Run(rest[1..], Reading(rest[0], 0, if off != 0xFF then out + [0] else out))
  {
  }

  // Read past its first code byte, an encoding gives back its payload.
  lemma {:induction false} RunEncoded(p: seq<byte>, trailing: bool, out: seq<byte>, tail: seq<byte>)
    requires Ends(tail)
    ensures Encode(p, trailing) != [] && Encode(p, trailing)[0] != 0
    ensures Run(Encode(p, trailing)[1..] + tail, Reading(Encode(p, trailing)[0], 0, out)) == Decoded(out + p)
    decreases |p|
  {
    hide Run, Encode, RunLength;
    var n := RunLength(p, 254);
    EncodeHasNoZero(p, trailing);
    EncodeShape(p, trailing);
    if n == |p| && !(n == 254 && trailing) {
      LastBlock(p, out, tail);
    } else {
      var q := if n == 254 then p[n..] else p[n + 1..];
      EncodeHasNoZero(q, trailing);
      FullBlock(p[..n], out, Encode(q, trailing), tail);
      Continues(p, n, out);
      RunEncoded(q, trailing, if n == 254 then out + p[..n] else out + p[..n] + [0], tail);
    }
  }

  lemma {:induction false} LastBlock(p: seq<byte>, out: seq<byte>, tail: seq<byte>)
    requires |p| <= 254 && Ends(tail) && forall i :: 0 <= i < |p| ==> p[i] != 0
    ensures
      var e: seq<byte> := [|p| + 1] + p;
      Run(e[1..] + tail, Reading(e[0], 0, out)) == Decoded(out + p)
  {
    hide Run;
    var off: byte := |p| + 1;
    var e: seq<byte> := [off] + p;
    assert e[1..] == p;
    RunData(off, 0, out, p, tail);
    RunEnds(off, out + p, tail);
  }

  lemma {:induction false} FullBlock(data: seq<byte>, out: seq<byte>, f: seq<byte>, tail: seq<byte>)
    requires |data| <= 254 && f != [] && f[0] != 0 && forall i :: 0 <= i < |data| ==> data[i] != 0
    ensures
      var e: seq<byte> := [|data| + 1] + data + f;
      Run(e[1..] + tail, Reading(e[0], 0, out)) ==
        Run(f[1..] + tail, Reading(f[0], 0, if |data| == 254 then out + data else out + data + [0]))
  {
    hide Run;
    var off: byte := |data| + 1;
    var e: seq<byte> := [off] + data + f;
    assert e[1..] + tail == data + (f + tail);
    RunData(off, 0, out, data, f + tail);
    NextBlock(off, out + data, f + tail);
    assert (f + tail)[1..] == f[1..] + tail;
  }

  lemma {:induction false} Continues(p: seq<byte>, n: nat, out: seq<byte>)
    requires n <= |p| && n <= 254 && (n < 254 ==> n < |p| && p[n] == 0)
    ensures out + p == if n == 254 then out + p[..n] + p[n..] else out + p[..n] + [0] + p[n + 1..]
  {
  }

  lemma {:induction false} EncodeShape(p: seq<byte>, trailing: bool)
    ensures
      var n := RunLength(p, 254);
      Encode(p, trailing) ==
        if n == |p| && !(n == 254 && trailing) then [n + 1] + p
        else if n == 254 then [n + 1] + p[..n] + Encode(p[n..], trailing)
        else [n + 1] + p[..n] + Encode(p[n + 1..], trailing)
    ensures RunLength(p, 254) < |p| && RunLength(p, 254) < 254 ==> p[RunLength(p, 254)] == 0
  {
    var n := RunLength(p, 254);
    assert p[..|p|] == p;
    assert [n + 1] + p[..n] + [] == [n + 1] + p[..n];
  }

  function Zeros(k: nat): (r: seq<byte>)
    ensures |r| == k && forall i :: 0 <= i < k ==> r[i] == 0
  {
    seq(k, i => 0)
  }

  lemma {:induction false} SkipZeros(k: nat, s: seq<byte>)
    ensures Run(Zeros(k) + s, Skipping) == Run(s, Skipping)
  {
    if k == 0 {
      assert Zeros(k) + s == s;
    } else {
      assert (Zeros(k) + s)[1..] == Zeros(k - 1) + s;
      SkipZeros(k - 1, s);
    }
  }

  // Zeros, the encoding of a payload in either form, and then the end of the data or a zero
  // and whatever follows it: the decoder returns the payload, unless all of it is at most two
  // bytes long, which it refuses.  (That is a one-byte payload with no zero on either side.)
  lemma {:induction false} DecodeEncoded(k: nat, p: seq<byte>, trailing: bool, tail: seq<byte>)
    requires Ends(tail)
    ensures
      var s := Zeros(k) + Encode(p, trailing) + tail;
      Decode(s) == if |s| <= 2 then NotEnoughData else Decoded(p)
  {
    hide Run, Encode, RunLength;
    var e := Encode(p, trailing);
    SkipZeros(k, e + tail);
    assert Zeros(k) + e + tail == Zeros(k) + (e + tail);
    RunEncoded(p, trailing, [], tail);
    Start(e + tail);
    assert (e + tail)[1..] == e[1..] + tail;
    assert [] + p == p;
  }

  lemma {:induction false} Start(s: seq<byte>)
    requires s != [] && s[0] != 0
    ensures Run(s, Skipping) == Run(s[1..], Reading(s[0], 0, []))
  {
  }

  // ----- frames that were cut short -----

  // The first block of a frame; what is encoded behind it, if it is not the last one; and how
  // much of the payload comes before that, a zero included.
  function First(p: seq<byte>): seq<byte> { [RunLength(p, 254) + 1] + p[..RunLength(p, 254)] }

  predicate Last(p: seq<byte>, trailing: bool) {
    RunLength(p, 254) == |p| && !(|p| == 254 && trailing)
  }

  function Done(p: seq<byte>): nat {
    if RunLength(p, 254) == 254 then 254 else RunLength(p, 254) + 1
  }

  function Rest(p: seq<byte>): seq<byte> {
    if Done(p) <= |p| then p[Done(p)..] else []
  }

  lemma {:induction false} EncodeBlocks(p: seq<byte>, trailing: bool)
    ensures Encode(p, trailing) == First(p) + (if Last(p, trailing) then [] else Encode(Rest(p), trailing))
    ensures !Last(p, trailing) ==> Done(p) <= |p| && |Rest(p)| < |p|
    ensures Done(p) <= |p| && Done(p) < 254 ==> p[Done(p) - 1] == 0
    ensures |First(p)| == RunLength(p, 254) + 1
  {
    var n := RunLength(p, 254);
    assert p[..|p|] == p;
    assert First(p) + [] == First(p);
  }

  // How many bytes of the payload the first k bytes of a frame hold.
  function SoFar(p: seq<byte>, trailing: bool, k: nat): (m: nat)
    requires 1 <= k <= |Encode(p, trailing)|
    ensures m <= |p|
    decreases |p|
  {
    hide Encode, RunLength;
    EncodeBlocks(p, trailing);
    if k <= |First(p)| then k - 1 else Done(p) + SoFar(Rest(p), trailing, k - |First(p)|)
  }

  // The first k bytes of a frame are whole blocks.
  predicate Boundary(p: seq<byte>, trailing: bool, k: nat)
    requires 1 <= k <= |Encode(p, trailing)|
    decreases |p|
  {
    hide Encode, RunLength;
    EncodeBlocks(p, trailing);
    if k <= |First(p)| then k == |First(p)| else Boundary(Rest(p), trailing, k - |First(p)|)
  }

  // Read past the code byte of a block of which len bytes are left.
  lemma {:induction false} RunBlock(data: seq<byte>, len: nat, out: seq<byte>, tail: seq<byte>)
    requires len <= |data| <= 254 && Ends(tail) && forall i :: 0 <= i < len ==> data[i] != 0
    ensures Run(data[..len] + tail, Reading(|data| + 1, 0, out)) ==
      if tail == [] || len == |data| then Decoded(out + data[..len]) else DecodeError
  {
    RunData(|data| + 1, 0, out, data[..len], tail);
  }

  // The first k bytes of a frame: a part of its first block, or all of it and a part of the rest.
  lemma {:induction false} CutInFirst(p: seq<byte>, trailing: bool, k: nat)
    requires 1 <= k <= |Encode(p, trailing)| && k <= |First(p)|
    ensures Encode(p, trailing)[..k] == [RunLength(p, 254) + 1] + p[..k - 1]
    ensures p[..k - 1] == p[..RunLength(p, 254)][..k - 1]
    ensures SoFar(p, trailing, k) == k - 1
    ensures Boundary(p, trailing, k) <==> k == |First(p)|
  {
    hide Encode, RunLength;
    EncodeBlocks(p, trailing);
  }

  lemma {:induction false} CutBehind(p: seq<byte>, trailing: bool, k: nat)
    requires |First(p)| < k <= |Encode(p, trailing)|
    ensures !Last(p, trailing) && k - |First(p)| <= |Encode(Rest(p), trailing)|
    ensures Encode(p, trailing)[..k] == First(p) + Encode(Rest(p), trailing)[..k - |First(p)|]
    ensures SoFar(p, trailing, k) == Done(p) + SoFar(Rest(p), trailing, k - |First(p)|)
    ensures Boundary(p, trailing, k) <==> Boundary(Rest(p), trailing, k - |First(p)|)
  {
    hide Encode, RunLength, Rest, Last;
    EncodeBlocks(p, trailing);
  }

  lemma {:induction false} InBlocks(p: seq<byte>, trailing: bool)
    requires !Last(p, trailing)
    ensures p == p[..RunLength(p, 254)] + (if RunLength(p, 254) == 254 then [] else [0]) + Rest(p)
  {
    hide Encode, RunLength;
    EncodeBlocks(p, trailing);
  }

  lemma {:induction false} RunCut(p: seq<byte>, trailing: bool, k: nat, out: seq<byte>, tail: seq<byte>)
    requires 1 <= k <= |Encode(p, trailing)| && Ends(tail)
    ensures Encode(p, trailing)[..k][0] != 0
    ensures Run(Encode(p, trailing)[..k][1..] + tail, Reading(Encode(p, trailing)[..k][0], 0, out)) ==
      if tail == [] || Boundary(p, trailing, k) then Decoded(out + p[..SoFar(p, trailing, k)]) else DecodeError
    decreases |p|
  {
    hide Run, Encode, RunLength, Rest, SoFar, Boundary, Last;
    var n := RunLength(p, 254);
    EncodeBlocks(p, trailing);
    if k <= n + 1 {
      CutInFirst(p, trailing, k);
      RunBlock(p[..n], k - 1, out, tail);
      assert ([n + 1] + p[..k - 1])[1..] == p[..k - 1];
    } else {
      var q, j := Rest(p), k - (n + 1);
      CutBehind(p, trailing, k);
      InBlocks(p, trailing);
      EncodeHasNoZero(q, trailing);
      FullBlock(p[..n], out, Encode(q, trailing)[..j], tail);
      RunCut(q, trailing, j, if n == 254 then out + p[..n] else out + p[..n] + [0], tail);
      CutData(p, n, out, q, SoFar(q, trailing, j));
    }
  }

  lemma {:induction false} CutData(p: seq<byte>, n: nat, out: seq<byte>, q: seq<byte>, m: nat)
    requires n <= |p| && n <= 254 && p == p[..n] + (if n == 254 then [] else [0]) + q && m <= |q|
    ensures
      var done := if n == 254 then n else n + 1;
      done + m <= |p| && out + p[..done + m] == (if n == 254 then out + p[..n] else out + p[..n] + [0]) + q[..m]
  {
  }

  // Where no zero follows, a frame that was cut short anywhere passes for a whole one.  With a
  // zero in place the cut is refused, except between blocks.
  lemma {:induction false} CutFrame(z: nat, p: seq<byte>, trailing: bool, k: nat, tail: seq<byte>)
    requires 1 <= k <= |Encode(p, trailing)| && Ends(tail)
    ensures
      var s := Zeros(z) + Encode(p, trailing)[..k] + tail;
      Decode(s) ==
        if |s| <= 2 then NotEnoughData
        else if tail == [] || Boundary(p, trailing, k) then Decoded(p[..SoFar(p, trailing, k)])
        else DecodeError
  {
    hide Run, Encode, SoFar, Boundary;
    var e := Encode(p, trailing)[..k];
    EncodeHasNoZero(p, trailing);
    SkipZeros(z, e + tail);
    assert Zeros(z) + e + tail == Zeros(z) + (e + tail);
    RunCut(p, trailing, k, [], tail);
    Start(e + tail);
    assert (e + tail)[1..] == e[1..] + tail;
    assert [] + p[..SoFar(p, trailing, k)] == p[..SoFar(p, trailing, k)];
  }

  // A cut is between blocks exactly if what is left is itself the frame of a start of the payload.
  lemma {:induction false} BoundaryIff(p: seq<byte>, trailing: bool, k: nat)
    requires 1 <= k <= |Encode(p, trailing)|
    ensures Boundary(p, trailing, k) <==>
      exists m, t :: 0 <= m <= |p| && Encode(p, trailing)[..k] == Encode(p[..m], t)
  {
    hide Encode, SoFar, Boundary;
    if Boundary(p, trailing, k) {
      var t := BoundaryIsFrame(p, trailing, k);
    }
    if m, t :| 0 <= m <= |p| && Encode(p, trailing)[..k] == Encode(p[..m], t) {
      DecodeEncoded(2, p[..m], t, [0]);
      CutFrame(2, p, trailing, k, [0]);
    }
  }

  lemma {:induction false} BoundaryIsFrame(p: seq<byte>, trailing: bool, k: nat) returns (t: bool)
    requires 1 <= k <= |Encode(p, trailing)| && Boundary(p, trailing, k)
    ensures Encode(p, trailing)[..k] == Encode(p[..SoFar(p, trailing, k)], t)
    decreases |p|
  {
    hide Encode, RunLength, Rest, SoFar, Boundary, Last;
    var n, m := RunLength(p, 254), SoFar(p, trailing, k);
    EncodeBlocks(p, trailing);
    if k <= n + 1 {
      t := false;
      CutInFirst(p, trailing, k);
      OneBlockFrame(p, n);
    } else {
      var q, j := Rest(p), k - (n + 1);
      CutBehind(p, trailing, k);
      t := BoundaryIsFrame(q, trailing, j);
      var r := SoFar(q, trailing, j);
      if n == 254 && r == 0 {
        EmptyFrame(t);
        t := true;
        EmptyFrame(t);
        assert q[..r] == [];
      }
      ShorterRest(p, q, r, t);
    }
  }

  lemma {:induction false} OneBlockFrame(p: seq<byte>, n: nat)
    requires n == RunLength(p, 254)
    ensures Encode(p[..n], false) == [n + 1] + p[..n]
  {
    hide RunLength;
    RunOfStart(p, 254, n);
    assert p[..n][..n] == p[..n];
  }

  // The frame of a start of the payload that ends behind the first block.
  lemma {:induction false} ShorterRest(p: seq<byte>, q: seq<byte>, r: nat, t: bool)
    requires Done(p) <= |p| && q == Rest(p) && r <= |q|
    requires RunLength(p, 254) == 254 && r == 0 ==> t
    ensures Encode(p[..Done(p) + r], t) == First(p) + Encode(q[..r], t)
  {
    hide Encode, RunLength;
    var s := p[..Done(p) + r];
    RunOfStart(p, 254, Done(p) + r);
    EncodeBlocks(s, t);
    var n := RunLength(p, 254);
    assert RunLength(s, 254) == n;
    assert Done(s) == Done(p);
    StartOf(p, Done(p) + r, n);
    StartOf(p, Done(p) + r, Done(p));
  }

  lemma {:induction false} StartOf(p: seq<byte>, m: nat, n: nat)
    requires n <= m <= |p|
    ensures p[..m][..n] == p[..n] && p[..m][n..] == p[n..][..m - n]
  {
  }

  lemma {:induction false} EmptyFrame(t: bool)
    ensures Encode([], t) == [1]
  {
  }

  lemma {:induction false} RunOfStart(p: seq<byte>, max: nat, m: nat)
    requires m <= |p|
    ensures RunLength(p[..m], max) == if m < RunLength(p, max) then m else RunLength(p, max)
  {
    if p != [] && max > 0 && m > 0 && p[0] != 0 {
      assert p[..m][1..] == p[1..][..m - 1];
      RunOfStart(p[1..], max - 1, m - 1);
    }
  }

  // The end of the frame is a boundary, and holds the whole payload.
  lemma {:induction false} WholeFrame(p: seq<byte>, trailing: bool)
    ensures |Encode(p, trailing)| >= 1
    ensures Boundary(p, trailing, |Encode(p, trailing)|) && SoFar(p, trailing, |Encode(p, trailing)|) == |p|
    decreases |p|
  {
    hide RunLength, Encode;
    EncodeBlocks(p, trailing);
    if !Last(p, trailing) {
      WholeFrame(Rest(p), trailing);
    }
  }

  // Some encodings: a zero inside, nothing at all, and a block that is full.
  lemma {:induction false} KnownEncodings(p: seq<byte>, trailing: bool)
    requires |p| == 254 && forall i :: 0 <= i < |p| ==> p[i] != 0
    ensures Encode([0x11, 0x22, 0, 0x33], trailing) == [3, 0x11, 0x22, 2, 0x33]
    ensures Encode([], trailing) == [1] && Encode([0], trailing) == [1, 1]
    ensures Encode(p, trailing) == [0xFF] + p + if trailing then [1] else []
  {
    RunOf([0x11, 0x22, 0, 0x33], 254, 2);
    RunOf([0x33], 254, 1);
    RunOf(p, 254, 254);
    RunOf([0], 254, 0);
    assert [0x11, 0x22, 0, 0x33][3..] == [0x33] && [0x11, 0x22, 0, 0x33][..2] == [0x11, 0x22];
    assert [0][1..] == [] && p[..254] == p && p[254..] == [];
  }

  lemma {:induction false} RunOf(p: seq<byte>, max: nat, n: nat)
    requires n <= |p| && n <= max && forall i :: 0 <= i < n ==> p[i] != 0
    requires n < |p| && n < max ==> p[n] == 0
    ensures RunLength(p, max) == n
  {
  }
}
