// Machine words.  Numbers are integers in range; where the program works on single bits,
// a word is the sequence of its bits, least significant bit first.
module Words {
  type byte = x: int | 0 <= x < 0x100
  type uint16 = x: int | 0 <= x < 0x1_0000
  type Bits = seq<bool>

  function ToBits(n: nat, width: nat): (r: Bits)
    ensures |r| == width
  {
    if width == 0 then [] else [n % 2 == 1] + ToBits(n / 2, width - 1)
  }

  function FromBits(bits: Bits): nat {
    if bits == [] then 0 else (if bits[0] then 1 else 0) + 2 * FromBits(bits[1..])
  }

  function Pow2(n: nat): (p: nat)
    ensures p >= 1
  {
    if n == 0 then 1 else 2 * Pow2(n - 1)
  }

  lemma {:induction false} FromBitsBound(bits: Bits)
    ensures FromBits(bits) < Pow2(|bits|)
  {
    if bits != [] {
      FromBitsBound(bits[1..]);
    }
  }

  lemma {:induction false} FromToBits(n: nat, width: nat)
    requires n < Pow2(width)
    ensures FromBits(ToBits(n, width)) == n
  {
    if width > 0 {
      FromToBits(n / 2, width - 1);
    }
  }

  lemma {:induction false} ToFromBits(bits: Bits)
    ensures ToBits(FromBits(bits), |bits|) == bits
  {
    if bits != [] {
      ToFromBits(bits[1..]);
    }
  }

  // ----- bits as arithmetic -----

  lemma {:induction false} HalfDiv(x: nat, p: nat)
    requires p > 0
    ensures x / (2 * p) == x / 2 / p
  {
    var q := x / 2 / p;
    var r := x / 2 - q * p;
    assert x / 2 == q * p + r && 0 <= r < p;
    assert x == 2 * (q * p) + 2 * r + x % 2;
    QuotientIs(x, 2 * p, q, 2 * r + x % 2);
  }

  lemma {:induction false} QuotientIs(x: nat, d: nat, q: nat, r: nat)
    requires r < d && x == q * d + r
    ensures x / d == q
  {
    var e := x / d - q;
    assert e * d == (x / d) * d - q * d == r - x % d;
    Apart(e, d);
  }

  lemma {:induction false} Apart(e: int, d: nat)
    ensures e >= 1 ==> e * d >= d
    ensures e <= -1 ==> e * d <= -(d as int)
  {
  }

  // Bit k of a number.
  lemma {:induction false} BitOfNumber(bits: Bits, k: nat)
    requires k < |bits|
    ensures bits[k] <==> FromBits(bits) / Pow2(k) % 2 == 1
  {
    if k > 0 {
      BitOfNumber(bits[1..], k - 1);
      HalfDiv(FromBits(bits), Pow2(k - 1));
      assert FromBits(bits) / 2 == FromBits(bits[1..]);
    }
  }

  // The number with bit k turned over.
  function Flip(n: int, k: nat): int {
    if n / Pow2(k) % 2 == 1 then n - Pow2(k) else n + Pow2(k)
  }

  lemma {:induction false} FlipBit(bits: Bits, k: nat)
    requires k < |bits|
    ensures FromBits(bits[k := !bits[k]]) == Flip(FromBits(bits), k)
  {
    BitOfNumber(bits, k);
    SetBit(bits, k);
  }

  lemma {:induction false} SetBit(bits: Bits, k: nat)
    requires k < |bits|
    ensures FromBits(bits[k := !bits[k]]) as int == FromBits(bits) + if bits[k] then -(Pow2(k) as int) else Pow2(k)
  {
    var next := bits[k := !bits[k]];
    if k == 0 {
      assert next[1..] == bits[1..];
    } else {
      assert next[1..] == bits[1..][k - 1 := !bits[1..][k - 1]];
      SetBit(bits[1..], k - 1);
    }
  }

  lemma {:induction false} Powers()
    ensures Pow2(8) == 0x100 && Pow2(16) == 0x1_0000
    ensures Pow2(0) == 1 && Pow2(13) == 0x2000 && Pow2(15) == 0x8000
  {
    assert Pow2(4) == 16;
    assert Pow2(8) == 0x100;
    assert Pow2(12) == 0x1000;
    assert Pow2(13) == 0x2000;
  }

  function ByteBits(b: byte): (r: Bits)
    ensures |r| == 8
  { ToBits(b, 8) }

  function BitsByte(bits: Bits): (b: byte)
    requires |bits| == 8
    ensures ByteBits(b) == bits
  {
    FromBitsBound(bits);
    Powers();
    ToFromBits(bits);
    FromBits(bits)
  }

  lemma {:induction false} ByteOfBits(b: byte)
    ensures BitsByte(ByteBits(b)) == b
  {
    Powers();
    FromToBits(b, 8);
  }

  function WordBits(w: uint16): (r: Bits) { ToBits(w, 16) }

  function BitsWord(bits: Bits): (w: uint16)
    requires |bits| == 16
    ensures WordBits(w) == bits
  {
    FromBitsBound(bits);
    Powers();
    ToFromBits(bits);
    FromBits(bits)
  }

  lemma {:induction false} WordOfBits(w: uint16)
    ensures BitsWord(WordBits(w)) == w
  {
    Powers();
    FromToBits(w, 16);
  }

  // Bit k of a byte or a word.
  lemma {:induction false} ByteBitIs(b: byte, k: nat)
    requires k < 8
    ensures ByteBits(b)[k] <==> b / Pow2(k) % 2 == 1
  {
    Powers();
    FromToBits(b, 8);
    BitOfNumber(ByteBits(b), k);
  }

  lemma {:induction false} WordBitIs(w: uint16, k: nat)
    requires k < 16
    ensures WordBits(w)[k] <==> w / Pow2(k) % 2 == 1
  {
    Powers();
    FromToBits(w, 16);
    BitOfNumber(WordBits(w), k);
  }

  function Repeat(b: bool, n: nat): (r: Bits)
    ensures |r| == n && forall i :: 0 <= i < n ==> r[i] == b
  {
    seq(n, i => b)
  }

  // The bits of a frame in the order of transmission: low bit of every byte first.
  function FrameBits(buf: seq<byte>): (r: Bits)
    ensures |r| == 8 * |buf|
  {
    if buf == [] then [] else ByteBits(buf[0]) + FrameBits(buf[1..])
  }

  // The frame with the given bits.
  function BitsFrame(bits: Bits): (buf: seq<byte>)
    requires |bits| % 8 == 0
    ensures 8 * |buf| == |bits|
    ensures FrameBits(buf) == bits
  {
    if bits == [] then []
    else
      assert |bits| >= 8;
      var rest := BitsFrame(bits[8..]);
      assert bits == bits[..8] + bits[8..];
      [BitsByte(bits[..8])] + rest
  }

  lemma {:induction false} FrameAppend(a: seq<byte>, b: seq<byte>)
    ensures FrameBits(a + b) == FrameBits(a) + FrameBits(b)
  {
    if a == [] {
      assert a + b == b;
    } else {
      assert (a + b)[1..] == a[1..] + b;
      FrameAppend(a[1..], b);
    }
  }

  lemma {:induction false} FrameOfBits(buf: seq<byte>)
    ensures BitsFrame(FrameBits(buf)) == buf
  {
    if buf != [] {
      var bits := FrameBits(buf);
      assert bits[..8] == ByteBits(buf[0]) && bits[8..] == FrameBits(buf[1..]);
      ByteOfBits(buf[0]);
      FrameOfBits(buf[1..]);
    }
  }

  lemma {:induction false} FrameBitAt(buf: seq<byte>, j: nat, m: nat)
    requires j < |buf| && m < 8
    ensures FrameBits(buf)[8 * j + m] == ByteBits(buf[j])[m]
  {
    if j > 0 {
      FrameBitAt(buf[1..], j - 1, m);
    }
  }

  function WithByteBit(b: byte, m: nat, v: bool): byte
    requires m < 8
  {
    BitsByte(ByteBits(b)[m := v])
  }

  lemma {:induction false} FrameBitSet(buf: seq<byte>, j: nat, m: nat, v: bool)
    requires j < |buf| && m < 8
    ensures FrameBits(buf[j := WithByteBit(buf[j], m, v)]) == FrameBits(buf)[8 * j + m := v]
  {
    var after := buf[j := WithByteBit(buf[j], m, v)];
    if j == 0 {
      assert after[1..] == buf[1..];
    } else {
      assert after[1..] == buf[1..][j - 1 := WithByteBit(buf[j], m, v)];
      FrameBitSet(buf[1..], j - 1, m, v);
    }
  }

  // binary.BigEndian.PutUint16 and Uint16.
  function Put16(w: uint16): (r: seq<byte>)
    ensures |r| == 2
  {
    [w / 256, w % 256]
  }

  function Get16(hi: byte, lo: byte): (w: uint16)
    ensures Put16(w) == [hi, lo]
  {
    hi * 256 + lo
  }
}
