// The CRC of Modbus RTU (modbus/crc.go), section 6.2.2 of MODBUS over Serial Line V1.02.
//
// The 16-bit shift register is the sequence of its bits, least significant first, so that
// `crc >> 1` drops element 0.  `FeedBits` runs the register over bits in the order in which
// they travel on the line; the program's byte loop is proved to compute the same.
module Crc {
  import opened Words

  type Register = r: Bits | |r| == 16 witness ToBits(0, 16)

  // 0xA001, the generator polynomial with its bits reversed.
  const POLY: Register :=
    [true, false, false, false, false, false, false, false,
     false, false, false, false, false, true, false, true]

  const ZERO: Register := Repeat(false, 16)
  const ONES: Register := Repeat(true, 16)

  function Xor(a: Bits, b: Bits): (r: Bits)
    requires |a| == |b|
    ensures |r| == |a|
    ensures forall i :: 0 <= i < |r| ==> r[i] == (a[i] != b[i])
  {
    seq(|a|, i requires 0 <= i < |a| => a[i] != b[i])
  }

  function Shift(r: Register): Register { r[1..] + [false] }

  function Step(r: Register): Register {
    if r[0] then Xor(Shift(r), POLY) else Shift(r)
  }

  function Steps(r: Register, n: nat): Register
    decreases n
  {
    if n == 0 then r else Steps(Step(r), n - 1)
  }

  // crc ^= bits, for bits that fill the low end of the register.
  function XorLow(r: Register, bits: Bits): (s: Register)
    requires |bits| <= 16
  {
    Xor(r, bits + Repeat(false, 16 - |bits|))
  }

  function Absorb(r: Register, b: byte): Register {
    var bits := ByteBits(b);
    Steps(XorLow(r, bits), |bits|)
  }

  function FeedBits(r: Register, bits: Bits): Register
    decreases bits
  {
    if bits == [] then r else FeedBits(Step(XorLow(r, bits[..1])), bits[1..])
  }

  function After(buf: seq<byte>): Register { FeedBits(ONES, FrameBits(buf)) }

  // `return (crc >> 8) | (crc << 8)`.
  function Swapped(r: Register): uint16 { BitsWord(r[8..] + r[..8]) }

  function Crc16(buf: seq<byte>): uint16 { Swapped(After(buf)) }

  method RtuCrc(buf: seq<byte>) returns (r: uint16)
    ensures r == Crc16(buf)
  {
    var crc: Register := ONES;
    for k := 0 to |buf|
      invariant FeedBits(crc, FrameBits(buf[k..])) == After(buf)
    {
      FeedByte(crc, buf[k..]);
      assert buf[k..][1..] == buf[k + 1..];
      crc := ShiftByte(crc, buf[k]);
    }
    r := BitsWord(crc[8..] + crc[..8]);
  }

  // The inner loop of RtuCrc: the byte is added to the register, which then shifts eight times.
  method ShiftByte(start: Register, b: byte) returns (crc: Register)
    ensures crc == Absorb(start, b)
  {
    hide XorLow, ByteBits, Xor, Shift;
    crc := XorLow(start, ByteBits(b));
    ghost var all := crc;
    var i := 8;
    assert Steps(all, 8) == Absorb(start, b);
    while i != 0
      invariant 0 <= i <= 8
      invariant Steps(crc, i) == Steps(all, 8)
    {
      StepsOn(crc, i);
      if crc[0] {
        crc := Shift(crc);
        crc := Xor(crc, POLY);
      } else {
        crc := Shift(crc);
      }
      i := i - 1;
    }
    NoSteps(crc);
  }

  lemma {:induction false} StepsOn(r: Register, i: nat)
    requires i > 0
    ensures Steps(r, i) == Steps(if r[0] then Xor(Shift(r), POLY) else Shift(r), i - 1)
  {
    hide Xor, Shift;
  }

  lemma {:induction false} NoSteps(r: Register)
    ensures Steps(r, 0) == r
  {
  }

  datatype CrcResult = CrcOk | ErrCRC | ErrNotEnoughData

  function Check(packet: seq<byte>): CrcResult {
    var n := |packet|;
    if n < 4 then ErrNotEnoughData
    else if Crc16(packet[..n - 2]) != Get16(packet[n - 2], packet[n - 1]) then ErrCRC
    else CrcOk
  }

  method CheckRtuCrc(packet: seq<byte>) returns (r: CrcResult)
    ensures r == Check(packet)
  {
    if |packet| < 4 {
      return ErrNotEnoughData;
    }
    var crcCalc := RtuCrc(packet[..|packet| - 2]);
    var crcPacket := Get16(packet[|packet| - 2], packet[|packet| - 1]);
    if crcCalc != crcPacket {
      return ErrCRC;
    }
    return CrcOk;
  }

  // ----- the register over a run of bits -----

  lemma {:induction false} FeedAppend(r: Register, a: Bits, b: Bits)
    ensures FeedBits(r, a + b) == FeedBits(FeedBits(r, a), b)
    decreases a
  {
    if a == [] {
      assert a + b == b;
    } else {
      assert (a + b)[1..] == a[1..] + b && (a + b)[..1] == a[..1];
      FeedAppend(Step(XorLow(r, a[..1])), a[1..], b);
    }
  }

  // Adding up to 16 bits at once and shifting is feeding them one at a time.
  lemma {:induction false} FeedIsXorThenSteps(r: Register, bits: Bits)
    requires |bits| <= 16
    ensures FeedBits(r, bits) == Steps(XorLow(r, bits), |bits|)
    decreases bits
  {
    if bits == [] {
      assert XorLow(r, bits) == r;
    } else {
      var s := Step(XorLow(r, bits[..1]));
      StepXorLow(r, bits);
      FeedIsXorThenSteps(s, bits[1..]);
    }
  }

  lemma {:induction false} StepXorLow(r: Register, bits: Bits)
    requires 0 < |bits| <= 16
    ensures Step(XorLow(r, bits)) == XorLow(Step(XorLow(r, bits[..1])), bits[1..])
  {
    var a, b := XorLow(r, bits), XorLow(r, bits[..1]);
    assert a[0] == b[0];
    forall i | 0 <= i < 16 ensures Step(a)[i] == XorLow(Step(b), bits[1..])[i] {
      assert i < 15 ==> Shift(a)[i] == a[i + 1] && Shift(b)[i] == b[i + 1];
    }
  }

  lemma {:induction false} FeedByte(r: Register, buf: seq<byte>)
    requires buf != []
    ensures FeedBits(r, FrameBits(buf)) == FeedBits(Absorb(r, buf[0]), FrameBits(buf[1..]))
  {
    FeedAppend(r, ByteBits(buf[0]), FrameBits(buf[1..]));
    FeedIsXorThenSteps(r, ByteBits(buf[0]));
  }

  lemma {:induction false} StepIsLinear(a: Register, b: Register)
    ensures Step(Xor(a, b)) == Xor(Step(a), Step(b))
  {
  }

  lemma {:induction false} FeedIsLinear(r: Register, s: Register, a: Bits, b: Bits)
    requires |a| == |b|
    ensures FeedBits(Xor(r, s), Xor(a, b)) == Xor(FeedBits(r, a), FeedBits(s, b))
    decreases a
  {
    if a != [] {
      var x, y := XorLow(r, a[..1]), XorLow(s, b[..1]);
      assert XorLow(Xor(r, s), Xor(a, b)[..1]) == Xor(x, y);
      assert Xor(a, b)[1..] == Xor(a[1..], b[1..]);
      StepIsLinear(x, y);
      FeedIsLinear(Step(x), Step(y), a[1..], b[1..]);
    }
  }

  // The bit step loses nothing: only the zero register steps to zero.
  lemma {:induction false} StepToZero(r: Register)
    ensures Step(r) == ZERO <==> r == ZERO
  {
    if Step(r) == ZERO {
      assert Shift(r)[15] == false;
      assert !r[0];
      forall i | 1 <= i < 16 ensures !r[i] {
        assert Step(r)[i - 1] == r[i];
      }
    }
  }

  lemma {:induction false} StepsToZero(r: Register, n: nat)
    ensures Steps(r, n) == ZERO <==> r == ZERO
    decreases n
  {
    if n > 0 {
      StepToZero(r);
      StepsToZero(Step(r), n - 1);
    }
  }

  // Sixteen bits bring a register to zero exactly when they are the register itself.
  lemma {:induction false} FeedToZero(r: Register, bits: Bits)
    requires |bits| <= 16
    ensures FeedBits(r, bits) == ZERO <==> XorLow(r, bits) == ZERO
  {
    FeedIsXorThenSteps(r, bits);
    StepsToZero(XorLow(r, bits), |bits|);
  }

  lemma {:induction false} SwappedIs(r: Register, hi: byte, lo: byte)
    ensures Swapped(r) == Get16(hi, lo) <==> r == ByteBits(hi) + ByteBits(lo)
  {
    WordOfBits(Swapped(r));
    WordSplits(hi, lo);
    WordOfBits(Get16(hi, lo));
    var s := r[8..] + r[..8];
    assert WordBits(Swapped(r)) == s;
    assert s[..8] == r[8..] && s[8..] == r[..8];
    if Swapped(r) == Get16(hi, lo) {
      assert s == ByteBits(lo) + ByteBits(hi);
      assert r == r[..8] + r[8..];
    }
    if r == ByteBits(hi) + ByteBits(lo) {
      assert r[..8] == ByteBits(hi) && r[8..] == ByteBits(lo);
      assert s == ByteBits(lo) + ByteBits(hi);
    }
  }

  lemma {:induction false} WordSplits(hi: byte, lo: byte)
    ensures WordBits(Get16(hi, lo)) == ByteBits(lo) + ByteBits(hi)
  {
    hide ToBits, Pow2;
    Powers();
    BitsSplit(lo, hi, 8, 8);
    assert Get16(hi, lo) == lo + Pow2(8) * hi;
  }

  lemma {:induction false} BitsSplit(lo: nat, hi: nat, m: nat, n: nat)
    requires lo < Pow2(m)
    ensures ToBits(lo + Pow2(m) * hi, m + n) == ToBits(lo, m) + ToBits(hi, n)
  {
    hide ToBits;
    if m == 0 {
      NoBits(lo);
      assert [] + ToBits(hi, n) == ToBits(hi, n);
    } else {
      var p, w := Pow2(m - 1), lo + Pow2(m) * hi;
      HalfOf(lo, p, hi, w);
      BitsSplit(lo / 2, hi, m - 1, n);
      FirstBit(w, m + n);
      FirstBit(lo, m);
      Prepend(lo % 2 == 1, ToBits(lo / 2, m - 1), ToBits(hi, n));
    }
  }

  lemma {:induction false} NoBits(w: nat)
    ensures ToBits(w, 0) == []
  {
  }

  lemma {:induction false} FirstBit(w: nat, width: nat)
    requires width > 0
    ensures ToBits(w, width) == [w % 2 == 1] + ToBits(w / 2, width - 1)
  {
  }

  lemma {:induction false} Prepend(b: bool, x: Bits, y: Bits)
    ensures [b] + (x + y) == [b] + x + y
  {
  }

  lemma {:induction false} HalfOf(lo: nat, p: nat, hi: nat, w: nat)
    requires lo < 2 * p && w == lo + 2 * p * hi
    ensures lo / 2 < p && w % 2 == lo % 2 && w / 2 == lo / 2 + p * hi
  {
    assert 2 * p * hi == 2 * (p * hi);
  }

  // CheckRtuCrc accepts exactly the frames that leave the register at zero.
  lemma {:induction false} CheckIsZeroRegister(packet: seq<byte>)
    ensures Check(packet) == CrcOk <==> |packet| >= 4 && After(packet) == ZERO
  {
    var n := |packet|;
    if n >= 4 {
      var body, hi, lo := packet[..n - 2], packet[n - 2], packet[n - 1];
      assert packet == body + [hi, lo];
      FrameAppend(body, [hi, lo]);
      var tail := ByteBits(hi) + ByteBits(lo);
      assert FrameBits([hi, lo]) == tail by {
        assert [hi, lo][1..] == [lo];
        assert FrameBits([lo]) == ByteBits(lo) + FrameBits([lo][1..]);
      }
      FeedAppend(ONES, FrameBits(body), tail);
      FeedToZero(After(body), tail);
      XorIsZero(After(body), tail);
      SwappedIs(After(body), hi, lo);
    }
  }

  lemma {:induction false} XorIsZero(r: Register, bits: Bits)
    requires |bits| == 16
    ensures XorLow(r, bits) == ZERO <==> r == bits
  {
    assert bits + Repeat(false, 0) == bits;
    if XorLow(r, bits) == ZERO {
      forall i | 0 <= i < 16 ensures r[i] == bits[i] {
        assert XorLow(r, bits)[i] == (r[i] != bits[i]);
      }
    }
  }

  // ----- errors on the line -----

  // The frame with the bits set in e flipped.
  function Corrupt(packet: seq<byte>, e: Bits): (r: seq<byte>)
    requires |e| == 8 * |packet|
    ensures |r| == |packet| && FrameBits(r) == Xor(FrameBits(packet), e)
  {
    BitsFrame(Xor(FrameBits(packet), e))
  }

  // An error on a good frame goes unseen exactly when it leads the empty register to zero.
  lemma {:induction false} ErrorUnseenIff(packet: seq<byte>, e: Bits)
    requires Check(packet) == CrcOk && |e| == 8 * |packet|
    ensures Check(Corrupt(packet, e)) == CrcOk <==> FeedBits(ZERO, e) == ZERO
  {
    CheckIsZeroRegister(packet);
    CheckIsZeroRegister(Corrupt(packet, e));
    FeedIsLinear(ONES, ZERO, FrameBits(packet), e);
    XorWithZero(ONES);
    XorWithZero(FeedBits(ZERO, e));
  }

  lemma {:induction false} XorWithZero(r: Register)
    ensures Xor(r, ZERO) == r && Xor(ZERO, r) == r
  {
  }

  lemma {:induction false} FeedZeros(r: Register, bits: Bits)
    requires forall i :: 0 <= i < |bits| ==> !bits[i]
    ensures FeedBits(r, bits) == Steps(r, |bits|)
    decreases bits
  {
    if bits != [] {
      assert XorLow(r, bits[..1]) == r;
      FeedZeros(Step(r), bits[1..]);
    }
  }

  // Some bit is flipped, and all the flipped bits lie in the 16 bits that start at bit k.
  ghost predicate Burst(e: Bits, k: nat) {
    && (exists i :: 0 <= i < |e| && e[i])
    && forall i :: 0 <= i < |e| && e[i] ==> k <= i < k + 16
  }

  lemma {:induction false} BurstIsSeen(e: Bits, k: nat)
    requires Burst(e, k)
    ensures FeedBits(ZERO, e) != ZERO
  {
    hide FeedBits, ZERO, Burst;
    var a, b, c, i := BurstParts(e, k);
    SilentAround(a, b, c);
    ShortIsSeen(b, i);
  }

  lemma {:induction false} BurstParts(e: Bits, k: nat) returns (a: Bits, b: Bits, c: Bits, i: nat)
    requires Burst(e, k)
    ensures e == a + (b + c) && |b| <= 16 && i < |b| && b[i]
    ensures forall j :: 0 <= j < |a| ==> !a[j]
    ensures forall j :: 0 <= j < |c| ==> !c[j]
  {
    var m :| 0 <= m < |e| && e[m];
    var hi := if k + 16 <= |e| then k + 16 else |e|;
    BurstIn(e, k, m);
    ThreeParts(e, k, hi);
    Outside(e, k, hi);
    a, b, c, i := e[..k], e[k..hi], e[hi..], m - k;
    assert b[i] == e[m];
  }

  lemma {:induction false} BurstIn(e: Bits, k: nat, m: nat)
    requires Burst(e, k) && m < |e| && e[m]
    ensures k <= m < k + 16
  {
  }

  lemma {:induction false} Outside(e: Bits, k: nat, hi: nat)
    requires Burst(e, k) && k <= hi <= |e| && (hi < |e| ==> hi == k + 16)
    ensures forall j :: 0 <= j < k ==> !e[..k][j]
    ensures forall j :: 0 <= j < |e[hi..]| ==> !e[hi..][j]
  {
    forall j | 0 <= j < |e[hi..]|
      ensures !e[hi..][j]
    {
      assert e[hi..][j] == e[hi + j];
    }
  }

  lemma {:induction false} ThreeParts(e: Bits, k: nat, hi: nat)
    requires k <= hi <= |e|
    ensures e == e[..k] + (e[k..hi] + e[hi..])
  {
    assert e[k..hi] + e[hi..] == e[k..];
  }

  // Clear bits before and after some bits neither cause nor hide a trace of them.
  lemma {:induction false} SilentAround(a: Bits, b: Bits, c: Bits)
    requires forall i :: 0 <= i < |a| ==> !a[i]
    requires forall i :: 0 <= i < |c| ==> !c[i]
    ensures FeedBits(ZERO, a + (b + c)) == ZERO <==> FeedBits(ZERO, b) == ZERO
  {
    FeedAppend(ZERO, a, b + c);
    FeedZeros(ZERO, a);
    StepsToZero(ZERO, |a|);
    FeedAppend(ZERO, b, c);
    FeedZeros(FeedBits(ZERO, b), c);
    StepsToZero(FeedBits(ZERO, b), |c|);
  }

  lemma {:induction false} ShortIsSeen(b: Bits, i: nat)
    requires |b| <= 16 && i < |b| && b[i]
    ensures FeedBits(ZERO, b) != ZERO
  {
    FeedToZero(ZERO, b);
    assert XorLow(ZERO, b)[i];
  }

  function Count(bits: Bits): nat {
    if bits == [] then 0 else (if bits[0] then 1 else 0) + Count(bits[1..])
  }

  predicate Odd(r: Bits) { Count(r) % 2 == 1 }

  lemma {:induction false} CountAppend(a: Bits, b: Bits)
    ensures Count(a + b) == Count(a) + Count(b)
  {
    if a == [] {
      assert a + b == b;
    } else {
      assert (a + b)[1..] == a[1..] + b;
      CountAppend(a[1..], b);
    }
  }

  lemma {:induction false} OddXor(a: Bits, b: Bits)
    requires |a| == |b|
    ensures Odd(Xor(a, b)) == (Odd(a) != Odd(b))
  {
    if a != [] {
      assert Xor(a, b)[1..] == Xor(a[1..], b[1..]);
      OddXor(a[1..], b[1..]);
    }
  }

  lemma {:induction false} ZerosAreEven(n: nat)
    ensures !Odd(Repeat(false, n))
  {
    if n > 0 {
      assert Repeat(false, n)[1..] == Repeat(false, n - 1);
      ZerosAreEven(n - 1);
    }
  }

  lemma {:induction false} CountFrom(bits: Bits, i: nat)
    requires i < |bits|
    ensures Count(bits[i..]) == (if bits[i] then 1 else 0) + Count(bits[i + 1..])
  {
    assert bits[i..][1..] == bits[i + 1..];
  }

  lemma {:induction false} CountSkips(bits: Bits, i: nat, j: nat)
    requires i <= j <= |bits| && forall k :: i <= k < j ==> !bits[k]
    ensures Count(bits[i..]) == Count(bits[j..])
    decreases j - i
  {
    if i < j {
      CountFrom(bits, i);
      CountSkips(bits, i + 1, j);
    }
  }

  lemma {:induction false} OddIfThree(bits: Bits)
    requires |bits| == 16 && bits[0] && bits[13] && !bits[14] && bits[15]
    requires forall k :: 1 <= k < 13 ==> !bits[k]
    ensures Odd(bits)
  {
    assert bits[0..] == bits && bits[16..] == [];
    CountFrom(bits, 0);
    CountSkips(bits, 1, 13);
    CountFrom(bits, 13);
    CountFrom(bits, 14);
    CountFrom(bits, 15);
  }

  lemma {:induction false} PolyIsOdd()
    ensures Odd(POLY)
  {
    OddIfThree(POLY);
  }

  lemma {:induction false} ShiftParity(r: Register)
    ensures Odd(Shift(r)) == (Odd(r) != r[0])
  {
    var none := [false];
    CountAppend(r[1..], none);
    assert Count(none) == Count(none[1..]);
  }

  // The polynomial has a factor x + 1: a step never changes the parity of the register.
  lemma {:induction false} StepKeepsParity(r: Register)
    ensures Odd(Step(r)) == Odd(r)
  {
    ShiftParity(r);
    OddXor(Shift(r), POLY);
    PolyIsOdd();
  }

  lemma {:induction false} OddXorLow(r: Register, b: bool)
    ensures Odd(XorLow(r, [b])) == (Odd(r) != b)
  {
    OneBit(b);
    hide Odd, Xor, Count;
    OddXor(r, [b] + Repeat(false, 15));
  }

  lemma {:induction false} OneBit(b: bool)
    ensures Odd([b] + Repeat(false, 15)) == b
  {
    hide Count;
    var bits := [b] + Repeat(false, 15);
    assert bits[1..] == Repeat(false, 15);
    NextCount(bits);
    ZerosAreEven(15);
  }

  lemma {:induction false} NextCount(bits: Bits)
    requires bits != []
    ensures Count(bits) == (if bits[0] then 1 else 0) + Count(bits[1..])
  {
  }

  lemma {:induction false} FeedParity(r: Register, bits: Bits)
    ensures Odd(FeedBits(r, bits)) == (Odd(r) != Odd(bits))
    decreases bits
  {
    if bits != [] {
      OddXorLow(r, bits[0]);
      assert bits[..1] == [bits[0]];
      StepKeepsParity(XorLow(r, bits[..1]));
      FeedParity(Step(XorLow(r, bits[..1])), bits[1..]);
    }
  }

  // Any error within 16 consecutive bits of the line, and any error that flips an odd number
  // of bits, turns a good frame of whatever length into one the check refuses.
  lemma {:induction false} ErrorsAreDetected(packet: seq<byte>, e: Bits)
    requires Check(packet) == CrcOk && |e| == 8 * |packet|
    requires (exists k :: Burst(e, k)) || Odd(e)
    ensures Check(Corrupt(packet, e)) == ErrCRC
  {
    ErrorUnseenIff(packet, e);
    if k :| Burst(e, k) {
      BurstIsSeen(e, k);
    } else {
      FeedParity(ZERO, e);
      ZerosAreEven(16);
    }
  }

  // ----- the same in arithmetic -----

  // One bit fed to the register as a number: it is added to the lowest bit, and if that is one
  // then, 0xA001 is added to half of the rest: bits 0, 13 and 15 turn over.
  function Fed(n: int, bit: int): int {
    if (n + bit) % 2 == 0 then n / 2
    else
      var h := if n / 2 % 2 == 1 then n / 2 - 1 else n / 2 + 1;
      (if h / 0x2000 % 2 == 1 then h - 0x2000 else h + 0x2000) + 0x8000
  }

  // A byte, lowest bit first.
  function FedByte(n: int, b: int, k: nat): int
    decreases k
  {
    if k == 0 then n else FedByte(Fed(n, b % 2), b / 2, k - 1)
  }

  function FedBytes(n: int, buf: seq<byte>): int
    decreases |buf|
  {
    if buf == [] then n else FedBytes(FedByte(n, buf[0], 8), buf[1..])
  }

  lemma {:induction false} ShiftNumber(r: Register)
    ensures FromBits(Shift(r)) == FromBits(r) / 2
  {
    AppendFalse(r[1..]);
  }

  lemma {:induction false} AppendFalse(bits: Bits)
    ensures FromBits(bits + [false]) == FromBits(bits)
  {
    if bits == [] {
      assert FromBits([false][1..]) == 0;
    } else {
      assert (bits + [false])[1..] == bits[1..] + [false];
      AppendFalse(bits[1..]);
    }
  }

  lemma {:induction false} AddPoly(r: Register)
    requires !r[15]
    ensures FromBits(Xor(r, POLY)) == Flip(Flip(FromBits(r), 0), 13) + 0x8000
  {
    hide FromBits, Pow2, Flip;
    var s := r[0 := !r[0]];
    var t := s[13 := !s[13]];
    FlipBit(r, 0);
    FlipBit(s, 13);
    SetBit(t, 15);
    Powers();
    assert Xor(r, POLY) == t[15 := !t[15]];
  }

  lemma {:induction false} FedByFlips(n: nat, bit: int)
    requires (n + bit) % 2 != 0
    ensures Fed(n, bit) == Flip(Flip(n / 2, 0), 13) + 0x8000
  {
    hide Pow2;
    Powers();
  }

  lemma {:induction false} SameHalf(r: Bits, s: Bits)
    requires |r| == |s| > 0 && forall i :: 1 <= i < |r| ==> r[i] == s[i]
    ensures FromBits(r) / 2 == FromBits(s) / 2
    ensures (FromBits(r) % 2 == 1 <==> r[0]) && (FromBits(s) % 2 == 1 <==> s[0])
  {
    assert r[1..] == s[1..];
  }

  lemma {:induction false} AddedBit(r: Register, bit: bool)
    ensures
      var s := XorLow(r, [bit]);
      && FromBits(s) / 2 == FromBits(r) / 2
      && (s[0] <==> (FromBits(r) + if bit then 1 else 0) % 2 != 0)
  {
    hide FromBits;
    var s := XorLow(r, [bit]);
    assert s[0] == (r[0] != bit);
    SameHalf(s, r);
  }

  lemma {:induction false} StepNumber(r: Register, bit: bool)
    ensures FromBits(Step(XorLow(r, [bit]))) == Fed(FromBits(r), if bit then 1 else 0)
  {
    hide FromBits, Flip, XorLow;
    var s := XorLow(r, [bit]);
    AddedBit(r, bit);
    ShiftNumber(s);
    if s[0] {
      AddPoly(Shift(s));
      FedByFlips(FromBits(r), if bit then 1 else 0);
    }
  }

  lemma {:induction false} ByteNumber(r: Register, b: nat, k: nat)
    ensures FromBits(FeedBits(r, ToBits(b, k))) == FedByte(FromBits(r), b, k)
    decreases k
  {
    hide Step, XorLow, Fed;
    if k > 0 {
      var bits := ToBits(b, k);
      assert bits[1..] == ToBits(b / 2, k - 1) && bits[..1] == [b % 2 == 1];
      StepNumber(r, b % 2 == 1);
      ByteNumber(Step(XorLow(r, bits[..1])), b / 2, k - 1);
    }
  }

  lemma {:induction false} BytesNumber(r: Register, buf: seq<byte>)
    ensures FromBits(FeedBits(r, FrameBits(buf))) == FedBytes(FromBits(r), buf)
    decreases |buf|
  {
    hide FedByte, ToBits;
    if buf != [] {
      FeedAppend(r, ByteBits(buf[0]), FrameBits(buf[1..]));
      ByteNumber(r, buf[0], 8);
      BytesNumber(FeedBits(r, ByteBits(buf[0])), buf[1..]);
    }
  }

  // The CRC in arithmetic, from 0xFFFF on, with the low byte of the register first.
  lemma {:induction false} CrcNumber(buf: seq<byte>)
    ensures
      var n := FedBytes(0xFFFF, buf);
      0 <= n < 0x1_0000 && Crc16(buf) == n % 256 * 256 + n / 256
  {
    hide FedBytes, FeedBits, FrameBits, Swapped;
    AllOnes(16);
    Powers();
    BytesNumber(ONES, buf);
    FromBitsBound(After(buf));
    SwappedNumber(After(buf));
  }

  lemma {:induction false} SwappedNumber(r: Register)
    ensures
      var n := FromBits(r);
      Swapped(r) == n % 256 * 256 + n / 256
  {
    hide FromBits;
    Powers();
    HighLow(r[..8], r[8..]);
    HighLow(r[8..], r[..8]);
    assert r == r[..8] + r[8..];
    FromBitsBound(r[..8]);
    FromBitsBound(r[8..]);
    ShiftedEight(FromBits(r[..8]));
    ShiftedEight(FromBits(r[8..]));
    TwoBytes(FromBits(r[..8]), FromBits(r[8..]));
    WordOfBits(Swapped(r));
    assert WordBits(Swapped(r)) == r[8..] + r[..8];
    FromToBits(Swapped(r), 16);
  }

  lemma {:induction false} TwoBytes(low: nat, high: nat)
    requires low < 256
    ensures (low + 256 * high) % 256 == low && (low + 256 * high) / 256 == high
  {
  }

  lemma {:induction false} AllOnes(n: nat)
    ensures FromBits(Repeat(true, n)) == Pow2(n) - 1
  {
    if n > 0 {
      assert Repeat(true, n)[1..] == Repeat(true, n - 1);
      AllOnes(n - 1);
    }
  }

  // h doubled k times.
  function Shifted(h: nat, k: nat): nat {
    if k == 0 then h else 2 * Shifted(h, k - 1)
  }

  lemma {:induction false} HighLow(low: Bits, high: Bits)
    ensures FromBits(low + high) == FromBits(low) + Shifted(FromBits(high), |low|)
  {
    if low == [] {
      assert low + high == high;
    } else {
      assert (low + high)[1..] == low[1..] + high;
      HighLow(low[1..], high);
    }
  }

  lemma {:induction false} ShiftedEight(h: nat)
    ensures Shifted(h, 8) == 256 * h
  {
    assert Shifted(h, 1) == 2 * h;
    assert Shifted(h, 2) == 4 * h;
    assert Shifted(h, 4) == 16 * h;
    assert Shifted(h, 6) == 64 * h;
  }

  // The example of section 6.2.2: the frame 02 07 ends in 41 12.
  lemma {:induction false} KnownCrc()
    ensures Crc16([2, 7]) == 0x4112 && Crc16([]) == 0xFFFF
  {
    hide FedByte, Crc16;
    CrcNumber([2, 7]);
    CrcNumber([]);
    KnownByte2();
    KnownByte7();
    FedNext(0xFFFF, 2, [7]);
    FedNext(0x813E, 7, []);
  }

  lemma {:induction false} FedNext(n: int, b: byte, rest: seq<byte>)
    ensures FedBytes(n, [b] + rest) == FedBytes(FedByte(n, b, 8), rest)
  {
    assert ([b] + rest)[1..] == rest;
  }

  // Eight bits, the register after each of them given.
  lemma {:induction false} FedEight(ns: seq<int>, b: byte)
    requires |ns| == 9
    requires ns[1] == Fed(ns[0], b % 2) && ns[2] == Fed(ns[1], b / 2 % 2)
    requires ns[3] == Fed(ns[2], b / 4 % 2) && ns[4] == Fed(ns[3], b / 8 % 2)
    requires ns[5] == Fed(ns[4], b / 16 % 2) && ns[6] == Fed(ns[5], b / 32 % 2)
    requires ns[7] == Fed(ns[6], b / 64 % 2) && ns[8] == Fed(ns[7], b / 128 % 2)
    ensures FedByte(ns[0], b, 8) == ns[8]
  {
    hide Fed;
    assert b / 2 / 2 == b / 4 && b / 4 / 2 == b / 8 && b / 8 / 2 == b / 16;
    assert b / 16 / 2 == b / 32 && b / 32 / 2 == b / 64 && b / 64 / 2 == b / 128;
    assert FedByte(ns[0], b, 8) == FedByte(ns[2], b / 4, 6) == FedByte(ns[4], b / 16, 4) == FedByte(ns[6], b / 64, 2);
  }

  lemma {:induction false} KnownByte2()
    ensures FedByte(0xFFFF, 2, 8) == 0x813E
  {
    hide FedByte;
    FedEight([0xFFFF, 0xDFFE, 0xCFFE, 0x67FF, 0x93FE, 0x49FF, 0x84FE, 0x427F, 0x813E], 2);
  }

  lemma {:induction false} KnownByte7()
    ensures FedByte(0x813E, 7, 8) == 0x1241
  {
    hide FedByte;
    FedEight([0x813E, 0xE09E, 0xD04E, 0xC826, 0x6413, 0x9208, 0x4904, 0x2482, 0x1241], 7);
  }

  // ----- the start -----

  // A frame that is accepted is not accepted with a zero byte more in front: the register does not
  // start from zero.
  lemma {:induction false} LeadingZeroIsSeen(packet: seq<byte>)
    requires Check(packet) == CrcOk
    ensures Check([0] + packet) == ErrCRC
  {
    hide FeedBits, Absorb, Swapped, Crc16;
    var padded := [0] + packet;
    CheckIsZeroRegister(packet);
    CheckIsZeroRegister(padded);
    assert padded[1..] == packet;
    FeedByte(ONES, padded);
    if After(padded) == ZERO {
      SameFeed(Absorb(ONES, 0), ONES, FrameBits(packet));
      ZeroByteMoves();
    }
  }

  // Over the same bits different registers stay different.
  lemma {:induction false} SameFeed(r: Register, s: Register, bits: Bits)
    requires FeedBits(r, bits) == FeedBits(s, bits)
    ensures r == s
  {
    hide FeedBits, Steps;
    var d, zeros := Xor(r, s), Xor(bits, bits);
    FeedIsLinear(r, s, bits, bits);
    XorSelf(FeedBits(r, bits));
    FeedZeros(d, zeros);
    StepsToZero(d, |zeros|);
    forall i | 0 <= i < 16
      ensures r[i] == s[i]
    {
      assert d[i] == ZERO[i];
    }
  }

  lemma {:induction false} XorSelf(r: Register)
    ensures Xor(r, r) == ZERO
  {
  }

  lemma {:induction false} ZeroByteMoves()
    ensures Absorb(ONES, 0) != ONES
  {
    hide FromBits, FedByte, FeedBits, Steps, ByteBits, XorLow;
    FeedIsXorThenSteps(ONES, ByteBits(0));
    ByteFeeds(ONES, 0);
    AllOnes(16);
    Powers();
    ZeroFed();
  }

  lemma {:induction false} ByteFeeds(r: Register, b: byte)
    ensures FromBits(FeedBits(r, ByteBits(b))) == FedByte(FromBits(r), b, 8)
  {
    ByteNumber(r, b, 8);
  }

  lemma {:induction false} ZeroFed()
    ensures FedByte(0xFFFF, 0, 8) == 0x40BF
  {
    hide FedByte;
    FedEight([0xFFFF, 0xDFFE, 0x6FFF, 0x97FE, 0x4BFF, 0x85FE, 0x42FF, 0x817E, 0x40BF], 0);
  }
}
