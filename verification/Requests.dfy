// What the server makes of a request, and the client of a response, told from the bytes: big-endian
// words, bits from the lowest up, and the exception codes of section 7 of MODBUS Application
// Protocol V1.1b3.
module Requests {
  import opened Wrappers
  import opened Words
  import opened Registers
  import opened Pdu

  function Word(d: seq<byte>, i: nat): (w: uint16)
    requires i + 1 < |d|
  {
    d[i] as int * 256 + d[i + 1]
  }

  lemma {:induction false} WordIs(d: seq<byte>, i: nat)
    requires i + 1 < |d|
    ensures Word(d, i) == Get16(d[i], d[i + 1])
  {
  }

  // Bit i of a payload.
  predicate Bit(d: seq<byte>, i: nat)
    requires i / 8 < |d|
  {
    d[i / 8] / Pow2(i % 8) % 2 == 1
  }

  lemma {:induction false} BitOfFrame(d: seq<byte>, i: nat)
    requires i < 8 * |d|
    ensures FrameBits(d)[i] <==> Bit(d, i)
  {
    FrameBitAt(d, i / 8, i % 8);
    ByteBitIs(d[i / 8], i % 8);
  }

  // ----- requests that are refused -----

  // The bytes that a request needs besides its function code.
  lemma {:induction false} TooShortIff(regs: File, p: PDU)
    ensures Process(regs, p).0 == NotEnoughData <==>
      || (p.functionCode in {1, 2, 3, 4, 5, 6} && |p.data| < 4)
      || (p.functionCode in {15, 22} && |p.data| < 6)
      || (p.functionCode == 16 && |p.data| < 7)
      || (p.functionCode == 23 && |p.data| < 11)
      || (p.functionCode == 24 && |p.data| < 2)
    ensures Process(regs, p).0 == NotEnoughData ==> Process(regs, p).1 == regs
  {
    hide ReadingCoils, ReadingRegs, WriteBits, WriteWords, SetCoil, Write, GetAll, Unpacked;
    NeverShort(regs, p);
  }

  lemma {:induction false} NeverShort(regs: File, p: PDU)
    ensures forall a, c :: ReadingCoils(regs, p, a, c) != NotEnoughData && ReadingRegs(regs, p, a, c) != NotEnoughData
  {
  }

  // Any other function code is answered with exception 1, illegal function.
  lemma {:induction false} UnknownFunction(regs: File, p: PDU)
    requires p.functionCode !in {1, 2, 3, 4, 5, 6, 15, 16, 22, 23, 24} || (p.functionCode in {22, 23, 24} && |p.data| >= 11)
    ensures Process(regs, p) ==
      (Reply(false, PDU(if p.functionCode < 0x80 then p.functionCode + 0x80 else p.functionCode, [1])), regs)
  {
  }

  // ----- single writes -----

  // Write Single Coil: FF 00 switches the coil on, 00 00 off; nothing else moves.  Any other value
  // is answered with exception 3, a register that is missing with exception 2.
  lemma {:induction false} WriteSingleCoil(regs: File, p: PDU)
    requires p.functionCode == 5 && |p.data| >= 4
    ensures
      var n, v := Word(p.data, 0), Word(p.data, 2);
      var (o, after) := Process(regs, p);
      if v != 0xFF00 && v != 0 then (o, after) == (Reply(false, PDU(0x85, [3])), regs)
      else if !Has(regs, n / 16) then (o, after) == (Reply(false, PDU(0x85, [2])), regs)
      else if o == Reply(true, p) then OneCoilSet(regs, after, n, v == 0xFF00)
      else (o, after) == (Reply(false, PDU(0x85, [3])), regs) && HasValidator(regs, n / 16)
  {
    hide Process, Has, OneCoilSet, HasValidator;
    var n, v: uint16 := Word(p.data, 0), Word(p.data, 2);
    CoilProcessed(regs, p, n, v);
    SetCoilFails(regs, n, v == 0xFF00);
    if SetCoil(regs, n, v == 0xFF00).0 == None {
      SetCoilSets(regs, n, v == 0xFF00);
    }
  }

  ghost predicate OneCoilSet(regs: File, after: File, n: nat, value: bool) {
    forall m :: 0 <= m < 0x10_0000 ==> Coil(after, m) == if m == n then Ok(value) else Coil(regs, m)
  }

  lemma {:induction false} SetCoilSets(regs: File, n: nat, value: bool)
    requires n < 0x10_0000 && SetCoil(regs, n, value).0 == None
    ensures OneCoilSet(regs, SetCoil(regs, n, value).1, n, value)
  {
    hide Coil, SetCoil;
    forall m | 0 <= m < 0x10_0000
      ensures Coil(SetCoil(regs, n, value).1, m) == if m == n then Ok(value) else Coil(regs, m)
    {
      CoilAfterSet(regs, n, value, m);
    }
  }

  lemma {:induction false} CoilProcessed(regs: File, p: PDU, n: uint16, v: uint16)
    requires p.functionCode == 5 && |p.data| >= 4 && n == Word(p.data, 0) && v == Word(p.data, 2)
    ensures
      var (err, after) := SetCoil(regs, n, v == 0xFF00);
      Process(regs, p) ==
        if v != 0xFF00 && v != 0 then (Reply(false, PDU(0x85, [3])), regs)
        else if err == None then (Reply(true, p), after)
        else (Reply(false, PDU(0x85, [Code(err.value)])), after)
  {
    WordIs(p.data, 0);
    WordIs(p.data, 2);
    hide SetCoil, ReadingCoils, ReadingRegs, WriteBits, WriteWords, Write, GetAll, Unpacked, Get16, Word, FrameBits;
  }

  // Write Single Register.
  lemma {:induction false} WriteSingleRegister(regs: File, p: PDU, x: nat)
    requires p.functionCode == 6 && |p.data| >= 4
    ensures
      var a, v := Word(p.data, 0), Word(p.data, 2);
      var (o, after) := Process(regs, p);
      if !Has(regs, a) then (o, after) == (Reply(false, PDU(0x86, [2])), regs)
      else if !Takes(regs, a, v) then (o, after) == (Reply(false, PDU(0x86, [3])), regs)
      else o == Reply(true, p) && Read(after, x) == if x % 0x1_0000 == a then Ok(v) else Read(regs, x)
  {
    hide Process, Write, Read, Takes, Has;
    var a: uint16, v: uint16 := Word(p.data, 0), Word(p.data, 2);
    RegisterProcessed(regs, p, a, v);
    WriteFails(regs, a, v);
    ReadAfterWrite(regs, a, v, x);
  }

  lemma {:induction false} RegisterProcessed(regs: File, p: PDU, a: uint16, v: uint16)
    requires p.functionCode == 6 && |p.data| >= 4 && a == Word(p.data, 0) && v == Word(p.data, 2)
    ensures
      var (err, after) := Write(regs, a, v);
      Process(regs, p) == (if err == None then Reply(true, p) else Reply(false, PDU(0x86, [Code(err.value)])), after)
  {
    WordIs(p.data, 0);
    WordIs(p.data, 2);
    hide SetCoil, ReadingCoils, ReadingRegs, WriteBits, WriteWords, Write, GetAll, Unpacked, Get16, Word, FrameBits;
  }

  // ----- multiple writes -----

  // The registers that a write of words reaches hold them, in order, and all others what they held;
  // it stops at the first register that is missing or refuses its word.
  ghost predicate WordsWritten(regs: File, after: File, address: nat, words: seq<uint16>, k: nat)
    requires k <= |words|
  {
    && (forall i :: 0 <= i < k ==> Read(after, address + i) == Ok(words[i]))
    && forall x: nat :: !Reached(address, k, x) ==> Read(after, x) == Read(regs, x)
  }

  predicate Reached(address: nat, k: nat, x: nat) { (x - address) % 0x1_0000 < k }

  lemma {:induction false} WriteWordsEffect(regs: File, address: nat, words: seq<uint16>) returns (k: nat)
    requires |words| <= 0x1_0000
    ensures k <= |words|
    ensures
      var (err, after) := WriteWords(regs, address, words);
      && (err == None <==> k == |words|)
      && WordsWritten(regs, after, address, words, k)
      && (k < |words| ==> err == Some(WhyNot(regs, address + k)))
    decreases words
  {
    hide Write, Read, WordsWritten, WhyNot, WriteWords;
    WriteWordsIs(regs, address, words);
    k := 0;
    if words == [] {
      NoneWritten(regs, address, words);
    } else {
      var (err, next) := Write(regs, address, words[0]);
      FirstWord(regs, address, words[0]);
      if err.Some? {
        NoneWritten(regs, address, words);
      } else {
        k := WriteWordsEffect(next, address + 1, words[1..]);
        OneWordMore(regs, next, WriteWords(next, address + 1, words[1..]).1, address, words, k);
        k := k + 1;
        if k < |words| {
          OtherAddress(address, k);
          SameHas(regs, next, address + k);
        }
      }
    }
  }

  // The exception for a write that fails at an address.
  function WhyNot(regs: File, address: nat): Exception {
    if Has(regs, address % 0x1_0000) then ExcIllegalValue else ExcIllegalAddress
  }

  lemma {:induction false} WriteWordsIs(regs: File, address: nat, words: seq<uint16>)
    ensures WriteWords(regs, address, words) ==
      if words == [] then (None, regs)
      else
        var (err, after) := Write(regs, address, words[0]);
        if err.Some? then (err, after) else WriteWords(after, address + 1, words[1..])
  {
    hide Write;
  }

  lemma {:induction false} NoneWritten(regs: File, address: nat, words: seq<uint16>)
    ensures WordsWritten(regs, regs, address, words, 0)
  {
    hide Read;
  }

  lemma {:induction false} FirstWord(regs: File, address: nat, word: uint16)
    ensures
      var (err, next) := Write(regs, address, word);
      && (err != None ==> next == regs && err == Some(WhyNot(regs, address)))
      && (err == None ==> forall x: nat :: Read(next, x) == AfterWord(regs, address, word, x))
  {
    hide Write, Read, Has;
    WriteFails(regs, address, word);
    forall x: nat
      ensures Write(regs, address, word).0 == None ==> Read(Write(regs, address, word).1, x) == AfterWord(regs, address, word, x)
    {
      ReadAfterWrite(regs, address, word, x);
    }
  }

  function AfterWord(regs: File, address: nat, word: uint16, x: nat): Result<uint16, Exception> {
    if x % 0x1_0000 == address % 0x1_0000 then Ok(word) else Read(regs, x)
  }

  lemma {:induction false} OtherAddress(address: nat, k: nat)
    requires 1 <= k < 0x1_0000
    ensures (address + k) % 0x1_0000 != address % 0x1_0000
  {
  }

  lemma {:induction false} SameHas(regs: File, next: File, x: nat)
    requires Read(next, x).Ok? == Read(regs, x).Ok?
    ensures WhyNot(next, x) == WhyNot(regs, x)
  {
    WriteFails(regs, x, 0);
    WriteFails(next, x, 0);
  }

  lemma {:induction false} OneWordMore(regs: File, next: File, after: File, address: nat, words: seq<uint16>, k: nat)
    requires 0 < |words| <= 0x1_0000 && k <= |words[1..]| && WordsWritten(next, after, address + 1, words[1..], k)
    requires forall x: nat :: Read(next, x) == AfterWord(regs, address, words[0], x)
    ensures WordsWritten(regs, after, address, words, k + 1)
  {
    hide Read;
    assert !Reached(address + 1, k, address);
    forall i | 0 <= i < k + 1
      ensures Read(after, address + i) == Ok(words[i])
    {
      if i > 0 {
        assert Read(after, address + 1 + (i - 1)) == Ok(words[1..][i - 1]);
      }
    }
    forall x: nat | !Reached(address, k + 1, x)
      ensures Read(after, x) == Read(regs, x)
    {
      NotReached(address, k, x);
    }
  }

  lemma {:induction false} NotReached(address: nat, k: nat, x: nat)
    requires !Reached(address, k + 1, x) && k < 0x1_0000
    ensures !Reached(address + 1, k, x) && x % 0x1_0000 != address % 0x1_0000
  {
    var d, e := (x - address) % 0x1_0000, (x - (address + 1)) % 0x1_0000;
    assert d >= 1 && e == d - 1;
  }

  // Write Multiple Registers: a byte count that does not fit is answered with exception 3; else
  // the words are written one after the other.
  lemma {:induction false} WriteMultipleRegisters(regs: File, p: PDU) returns (k: nat)
    requires p.functionCode == 16 && |p.data| >= 7
    ensures
      var a, q := Word(p.data, 0), Word(p.data, 2) as nat;
      var (o, after) := Process(regs, p);
      if |p.data| != 5 + 2 * q then (o, after) == (Reply(false, PDU(0x90, [3])), regs)
      else
        && k <= q && WordsWritten(regs, after, a, WordsAt(p.data, 5, q), k)
        && o == if k == q then Reply(true, PDU(16, p.data[..4]))
                else Reply(false, PDU(0x90, [if Has(regs, (a + k) % 0x1_0000) then 3 else 2]))
  {
    hide Process, WordsWritten, Has;
    var a: uint16, q: uint16 := Word(p.data, 0), Word(p.data, 2);
    k := 0;
    if |p.data| == 5 + 2 * q {
      var words := WordsAt(p.data, 5, q);
      RegistersProcessed(regs, p, a, q);
      k := WriteWordsEffect(regs, a, words);
    } else {
      RegistersProcessed(regs, p, a, q);
    }
  }

  // q words from index i on.
  function WordsAt(d: seq<byte>, i: nat, q: nat): (ws: seq<uint16>)
    requires i + 2 * q <= |d|
    ensures |ws| == q && forall j :: 0 <= j < q ==> ws[j] == Word(d, i + 2 * j)
  {
    seq(q, j requires 0 <= j < q => Word(d, i + 2 * j))
  }

  lemma {:induction false} RegistersProcessed(regs: File, p: PDU, a: uint16, q: uint16)
    requires p.functionCode == 16 && |p.data| >= 7 && a == Word(p.data, 0) && q == Word(p.data, 2)
    ensures
      if |p.data| != 5 + 2 * q then Process(regs, p) == (Reply(false, PDU(0x90, [3])), regs)
      else
        var (err, after) := WriteWords(regs, a, WordsAt(p.data, 5, q));
        Process(regs, p) ==
          (if err == None then Reply(true, PDU(16, p.data[..4])) else Reply(false, PDU(0x90, [Code(err.value)])), after)
  {
    WordIs(p.data, 0);
    WordIs(p.data, 2);
    hide SetCoil, ReadingCoils, ReadingRegs, WriteBits, WriteWords, Write, Unpacked;
    if |p.data| == 5 + 2 * q {
      assert GetAll(p.data[5..], q) == WordsAt(p.data, 5, q);
    }
  }

  // The coils that a write of bits reaches hold them, and all others what they held.
  ghost predicate BitsWritten(regs: File, after: File, address: nat, bits: Bits, k: nat)
    requires k <= |bits|
  {
    forall c :: 0 <= c < 0x10_0000 ==>
      Coil(after, c) == if address <= c < address + k then Ok(bits[c - address]) else Coil(regs, c)
  }

  // Write Multiple Coils: a byte count that does not fit is answered with exception 3; else the
  // bits are written one after the other, up to the first register that is missing or refuses.
  lemma {:induction false} WriteMultipleCoils(regs: File, p: PDU) returns (k: nat)
    requires p.functionCode == 15 && |p.data| >= 6
    ensures
      var a, q := Word(p.data, 0), Word(p.data, 2) as nat;
      var (o, after) := Process(regs, p);
      if |p.data| != 5 + (q + 7) / 8 then (o, after) == (Reply(false, PDU(0x8F, [3])), regs)
      else
        && k <= q && BitsWritten(regs, after, a, BitsAt(p.data[5..], q), k)
        && o == if k == q then Reply(true, PDU(15, p.data[..4]))
                else Reply(false, PDU(0x8F, [if Has(regs, (a + k) / 16) then 3 else 2]))
  {
    hide Process, Has, BitsWritten, WriteBits, FrameBits, Word;
    var a: uint16, q: uint16 := Word(p.data, 0), Word(p.data, 2);
    k := 0;
    CoilsProcessed(regs, p, a, q);
    if |p.data| == 5 + (q as nat + 7) / 8 {
      UnpackedAre(p.data[5..], q);
      k := BitsReached(regs, a, Unpacked(p.data[5..], q));
    }
  }

  lemma {:induction false} UnpackedAre(d: seq<byte>, n: nat)
    requires n <= 8 * |d|
    ensures Unpacked(d, n) == BitsAt(d, n)
  {
    hide Bit;
    forall i | 0 <= i < n
      ensures FrameBits(d)[i] <==> Bit(d, i)
    {
      BitOfFrame(d, i);
    }
  }

  lemma {:induction false} BitsReached(regs: File, address: nat, bits: Bits) returns (k: nat)
    requires address + |bits| <= 0x10_0000
    ensures k <= |bits|
    ensures var (err, after) := WriteBits(regs, address, bits);
      && (err.None? <==> k == |bits|) && BitsWritten(regs, after, address, bits, k)
      && (k < |bits| ==> err == Some(if Has(regs, (address + k) / 16) then ExcIllegalValue else ExcIllegalAddress))
  {
    hide Coil, WriteBits, Has;
    k := WriteBitsEffect(regs, address, bits);
  }

  lemma {:induction false} CoilsProcessed(regs: File, p: PDU, a: uint16, q: uint16)
    requires p.functionCode == 15 && |p.data| >= 6 && a == Word(p.data, 0) && q == Word(p.data, 2)
    ensures
      if |p.data| != 5 + (q as nat + 7) / 8 then Process(regs, p) == (Reply(false, PDU(0x8F, [3])), regs)
      else
        var (err, after) := WriteBits(regs, a, Unpacked(p.data[5..], q));
        Process(regs, p) ==
          (if err == None then Reply(true, PDU(15, p.data[..4])) else Reply(false, PDU(0x8F, [Code(err.value)])), after)
  {
    WordIs(p.data, 0);
    WordIs(p.data, 2);
    hide SetCoil, ReadingCoils, ReadingRegs, WriteBits, WriteWords, Write, GetAll, Unpacked, Get16, Word, FrameBits;
  }

  // ----- reads -----

  // Reading up to 0x7FFF registers: twice the count modulo 256, then the values, high byte first;
  // or exception 2 if one is missing.
  lemma {:induction false} ReadRegisters(regs: File, p: PDU)
    requires p.functionCode in {3, 4} && |p.data| >= 4 && Word(p.data, 2) < 0x8000
    ensures
      var a, c := Word(p.data, 0) as nat, Word(p.data, 2) as nat;
      var (o, after) := Process(regs, p);
      && after == regs && o.Reply? && !o.changed
      && if !RegsPresent(regs, a, c) then o.resp == PDU(p.functionCode + 0x80, [2])
         else
           && o.resp.functionCode == p.functionCode
           && |o.resp.data| == 1 + 2 * c && o.resp.data[0] == 2 * c % 256
           && RegsHold(regs, a, WordsAt(o.resp.data, 1, c))
  {
    hide Process, RegsPresent, RegsHold, Word, WordsAt;
    var a: uint16, c: uint16 := Word(p.data, 0), Word(p.data, 2);
    RegsProcessed(regs, p, a, c);
    assert RegsHold(regs, a, []) by { NoneHeld(regs, a); }
    RegsScanned(regs, a, c, (1 + 2 * c) % 0x1_0000, []);
    var scan := ScanRegs(regs, a, c, (1 + 2 * c) % 0x1_0000, []);
    hide ScanRegs;
    if scan.Done? {
      WordsPut(scan.values, 2 * c % 256);
    }
  }

  lemma {:induction false} RegsProcessed(regs: File, p: PDU, a: uint16, c: uint16)
    requires p.functionCode in {3, 4} && |p.data| >= 4 && a == Word(p.data, 0) && c == Word(p.data, 2)
    ensures Process(regs, p) == (ReadingRegs(regs, p, a, c), regs)
  {
    WordIs(p.data, 0);
    WordIs(p.data, 2);
    hide SetCoil, ReadingCoils, ReadingRegs, WriteBits, WriteWords, Write, GetAll, Unpacked, Get16, Word, FrameBits;
  }

  lemma {:induction false} NoneHeld(regs: File, a: nat)
    ensures RegsHold(regs, a, []) && CoilsHold(regs, a, [])
  {
  }

  predicate RegsHold(regs: File, a: nat, words: seq<uint16>) {
    forall i :: 0 <= i < |words| ==> Read(regs, a + i) == Ok(words[i])
  }

  lemma {:induction false} RegsScanned(regs: File, a: nat, c: nat, size: nat, words: seq<uint16>)
    requires |words| <= c && 1 + 2 * c <= size && RegsHold(regs, a, words)
    ensures
      match ScanRegs(regs, a, c, size, words)
      case Done(ws) => |ws| == c && RegsHold(regs, a, ws) && RegsPresent(regs, a, c)
      case Raised(e) => e == ExcIllegalAddress && !RegsPresent(regs, a, c)
      case OutOfRange => false
    decreases c - |words|
  {
    hide RegsPresent, RegsHold;
    var r := Read(regs, a + |words|);
    assert r.Err? ==> r == Err(ExcIllegalAddress);
    hide Read;
    if |words| == c {
      AllHeld(regs, a, words);
    } else if r.Ok? {
      OneMoreHeld(regs, a, words);
      RegsScanned(regs, a, c, size, words + [r.value]);
    } else {
      OneMissing(regs, a, c, |words|);
    }
  }

  lemma {:induction false} AllHeld(regs: File, a: nat, words: seq<uint16>)
    requires RegsHold(regs, a, words)
    ensures RegsPresent(regs, a, |words|)
  {
    hide Read;
    forall i | a <= i < a + |words|
      ensures Read(regs, i).Ok?
    {
      assert Read(regs, a + (i - a)) == Ok(words[i - a]);
    }
  }

  lemma {:induction false} OneMoreHeld(regs: File, a: nat, words: seq<uint16>)
    requires RegsHold(regs, a, words) && Read(regs, a + |words|).Ok?
    ensures RegsHold(regs, a, words + [Read(regs, a + |words|).value])
  {
    hide Read;
  }

  lemma {:induction false} OneMissing(regs: File, a: nat, c: nat, i: nat)
    requires i < c
    ensures Read(regs, a + i).Err? ==> !RegsPresent(regs, a, c)
    ensures Coil(regs, a + i).Err? ==> !CoilsPresent(regs, a, c)
  {
    hide Read, Coil;
  }

  lemma {:induction false} WordsPut(words: seq<uint16>, first: byte)
    ensures
      var d := [first] + PutAll(words);
      |d| == 1 + 2 * |words| && WordsAt(d, 1, |words|) == words
  {
    hide PutAll, Get16, Word;
    var ps := PutAll(words);
    var d := [first] + ps;
    GetPutAll(words, |words|);
    forall i | 0 <= i < |words|
      ensures Word(d, 1 + 2 * i) == words[i]
    {
      WordIs(d, 1 + 2 * i);
      assert GetAll(ps, |words|)[i] == words[i];
    }
  }

  // Reading up to 2032 coils: the number of bytes, then the coils, lowest bit first, filled up
  // with zeros; or exception 2 if a register is missing.
  lemma {:induction false} ReadCoils(regs: File, p: PDU)
    requires p.functionCode in {1, 2} && |p.data| >= 4 && Word(p.data, 2) <= 2032
    ensures
      var a, c := Word(p.data, 0) as nat, Word(p.data, 2) as nat;
      var (o, after) := Process(regs, p);
      && after == regs && o.Reply? && !o.changed
      && if !CoilsPresent(regs, a, c) then o.resp == PDU(p.functionCode + 0x80, [2])
         else o.resp.functionCode == p.functionCode && HoldsCoils(regs, a, c, o.resp.data)
  {
    hide Process, CoilsPresent, CoilsHold, HoldsCoils, Word, ScanCoils, Packed, CoilBytes;
    var a: uint16, c: uint16 := Word(p.data, 0), Word(p.data, 2);
    BytesOf(c);
    NoneHeld(regs, a);
    CoilsRead(regs, p, a, c);
    CoilsScanned(regs, a, c, CoilBytes(c), []);
    var scan := ScanCoils(regs, a, c, CoilBytes(c), []);
    if scan.Done? {
      BitsPut(regs, a, scan.values, CoilBytes(c));
    }
  }

  lemma {:induction false} BytesOf(c: uint16)
    requires c <= 2032
    ensures CoilBytes(c) as nat == (c as nat + 7) / 8 < 255 && c as nat <= 8 * CoilBytes(c)
  {
  }

  // The first n bits of a payload.
  function BitsAt(d: seq<byte>, n: nat): (bits: Bits)
    requires n <= 8 * |d|
    ensures |bits| == n && forall i :: 0 <= i < n ==> bits[i] == Bit(d, i)
  {
    seq(n, i requires 0 <= i < n => Bit(d, i))
  }

  ghost predicate HoldsCoils(regs: File, a: nat, c: nat, data: seq<byte>) {
    var n := (c + 7) / 8;
    && |data| == 1 + n && data[0] == n
    && CoilsHold(regs, a, BitsAt(data[1..], c)) && forall i :: c <= i < 8 * n ==> !Bit(data[1..], i)
  }

  lemma {:induction false} CoilsRead(regs: File, p: PDU, a: uint16, c: uint16)
    requires p.functionCode in {1, 2} && |p.data| >= 4 && a == Word(p.data, 0) && c == Word(p.data, 2)
    ensures Process(regs, p) == (ReadingCoils(regs, p, a, c), regs)
  {
    WordIs(p.data, 0);
    WordIs(p.data, 2);
    hide SetCoil, ReadingCoils, ReadingRegs, WriteBits, WriteWords, Write, GetAll, Unpacked, Get16, Word, FrameBits;
  }

  predicate CoilsHold(regs: File, a: nat, bits: Bits) {
    forall i :: 0 <= i < |bits| ==> Coil(regs, a + i) == Ok(bits[i])
  }

  lemma {:induction false} CoilsScanned(regs: File, a: nat, c: nat, n: nat, bits: Bits)
    requires |bits| <= c <= 8 * n && CoilsHold(regs, a, bits)
    ensures
      match ScanCoils(regs, a, c, n, bits)
      case Done(bs) => |bs| == c && CoilsHold(regs, a, bs) && CoilsPresent(regs, a, c)
      case Raised(e) => e == ExcIllegalAddress && !CoilsPresent(regs, a, c)
      case OutOfRange => false
    decreases c - |bits|
  {
    hide CoilsPresent, CoilsHold;
    var r := Coil(regs, a + |bits|);
    assert r.Err? ==> r == Err(ExcIllegalAddress);
    hide Coil;
    if |bits| == c {
      AllCoilsHeld(regs, a, bits);
    } else if r.Ok? {
      OneMoreCoil(regs, a, bits);
      CoilsScanned(regs, a, c, n, bits + [r.value]);
    } else {
      OneMissing(regs, a, c, |bits|);
    }
  }

  lemma {:induction false} AllCoilsHeld(regs: File, a: nat, bits: Bits)
    requires CoilsHold(regs, a, bits)
    ensures CoilsPresent(regs, a, |bits|)
  {
    hide Coil;
    forall i | a <= i < a + |bits|
      ensures Coil(regs, i).Ok?
    {
      assert Coil(regs, a + (i - a)) == Ok(bits[i - a]);
    }
  }

  lemma {:induction false} OneMoreCoil(regs: File, a: nat, bits: Bits)
    requires CoilsHold(regs, a, bits) && Coil(regs, a + |bits|).Ok?
    ensures CoilsHold(regs, a, bits + [Coil(regs, a + |bits|).value])
  {
    hide Coil;
  }

  lemma {:induction false} BitsPut(regs: File, a: nat, bits: Bits, n: byte)
    requires n as nat == (|bits| + 7) / 8 && CoilsHold(regs, a, bits)
    ensures HoldsCoils(regs, a, |bits|, [n] + Packed(bits, n))
  {
    hide CoilsHold, Bit, Packed;
    var payload := Packed(bits, n);
    var data := [n] + payload;
    assert data[1..] == payload;
    forall i | 0 <= i < 8 * n
      ensures Bit(payload, i) <==> i < |bits| && bits[i]
    {
      BitOfFrame(payload, i);
    }
    assert BitsAt(payload, |bits|) == bits;
  }

  // ----- responses at the client -----

  // The registers behind the byte count.
  lemma {:induction false} RegistersRead(p: PDU)
    ensures
      match RegsOf(p)
      case Ok(ws) =>
        && p.functionCode in {3, 4} && |p.data| >= 2 && |ws| == p.data[0] as nat / 2 && 1 + 2 * |ws| <= |p.data|
        && ws == WordsAt(p.data, 1, |ws|)
      case Err(_) => |p.data| < 2 || p.functionCode !in {3, 4} || |p.data| < 1 + 2 * (p.data[0] / 2)
  {
    hide Get16, Word;
    if RegsOf(p).Ok? {
      forall i | 0 <= i < p.data[0] as nat / 2
        ensures Word(p.data, 1 + 2 * i) == Get16(p.data[1..][2 * i], p.data[1..][2 * i + 1])
      {
        WordIs(p.data, 1 + 2 * i);
      }
    }
  }

  // As many bits as the byte count says, lowest bit of the first byte first.
  lemma {:induction false} CoilsSeen(p: PDU)
    ensures
      match BitsOf(p)
      case GotBits(bs) =>
        && p.functionCode in {1, 2} && |p.data| >= 2 && |bs| == p.data[0] && |bs| <= 8 * |p.data[1..]|
        && bs == BitsAt(p.data[1..], |bs|)
      case NoBits(_) => |p.data| < 2 || p.functionCode !in {1, 2}
      case BitsPanic => p.functionCode in {1, 2} && |p.data| >= 2 && p.data[0] as nat > 8 * (|p.data| - 1)
  {
    if BitsOf(p).GotBits? {
      UnpackedAre(p.data[1..], p.data[0] as nat);
    }
  }
}
