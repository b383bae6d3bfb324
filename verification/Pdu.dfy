// Modbus protocol data units: the server's request processing and the client's reading of
// responses (modbus/pdu.go).  Function codes follow sections 6.1 to 6.12 of MODBUS
// Application Protocol V1.1b3.
module Pdu {
  import opened Wrappers
  import opened Words
  import opened Registers

  datatype PDU = PDU(functionCode: byte, data: seq<byte>)

  const READ_COILS: byte := 1
  const READ_DISCRETE_INPUTS: byte := 2
  const READ_HOLDING_REGISTERS: byte := 3
  const READ_INPUT_REGISTERS: byte := 4
  const WRITE_SINGLE_COIL: byte := 5
  const WRITE_SINGLE_REGISTER: byte := 6
  const WRITE_MULTIPLE_COILS: byte := 15
  const WRITE_MULTIPLE_REGISTERS: byte := 16

  const COIL_ON: uint16 := 0xFF00
  const COIL_OFF: uint16 := 0

  // What a request leads to: a response (and whether registers changed), an error for a
  // request that is too short, or an index out of range in the program.
  datatype Outcome =
    | Reply(changed: bool, resp: PDU)
    | NotEnoughData
    | Panic

  function MinRequestLen(code: byte): nat {
    if code == 15 || code == 22 then 7
    else if code == 16 then 8
    else if code == 23 then 12
    else if code == 24 then 3
    else if 1 <= code <= 6 then 5
    else 0
  }

  // handleError: the function code with its high bit set, and the exception code.
  function Raise(p: PDU, e: Exception): Outcome {
    Reply(false, PDU(if p.functionCode < 0x80 then p.functionCode + 0x80 else p.functionCode, [Code(e)]))
  }

  // ----- bits and words in a payload -----

  // The bits cut off or filled up with zeros to a length of n.
  function Fit(bits: Bits, n: nat): (r: Bits)
    ensures |r| == n
    ensures forall i :: 0 <= i < n ==> r[i] == (i < |bits| && bits[i])
  {
    if n <= |bits| then bits[..n] else bits + Repeat(false, n - |bits|)
  }

  // n bytes that hold the bits, low bit of the first byte first.
  function Packed(bits: Bits, n: nat): (r: seq<byte>)
    ensures |r| == n && FrameBits(r) == Fit(bits, 8 * n)
  {
    BitsFrame(Fit(bits, 8 * n))
  }

  // The first n bits of a payload.
  function Unpacked(data: seq<byte>, n: nat): (r: Bits)
    requires n <= 8 * |data|
    ensures |r| == n
  {
    FrameBits(data)[..n]
  }

  function PutAll(words: seq<uint16>): (r: seq<byte>)
    ensures |r| == 2 * |words|
  {
    if words == [] then [] else PutAll(words[..|words| - 1]) + Put16(words[|words| - 1])
  }

  function GetAll(data: seq<byte>, n: nat): (r: seq<uint16>)
    requires 2 * n <= |data|
    ensures |r| == n
  {
    seq(n, i requires 0 <= i < n => Get16(data[2 * i], data[2 * i + 1]))
  }

  lemma {:induction false} GetPutAll(words: seq<uint16>, n: nat)
    requires n <= |words|
    ensures GetAll(PutAll(words), n) == words[..n]
  {
    if words != [] {
      var k := |words| - 1;
      GetPutAll(words[..k], if n <= k then n else k);
      forall i | 0 <= i < n ensures GetAll(PutAll(words), n)[i] == words[i] {
        if i < k {
          assert GetAll(PutAll(words[..k]), if n <= k then n else k)[i] == words[..k][i];
        }
      }
    }
  }

  // ----- what each request does -----

  datatype Scan<T> = Done(values: seq<T>) | Raised(e: Exception) | OutOfRange

  // Reading coils one by one into n bytes: setting a bit past the last byte is out of range.
  function ScanCoils(regs: File, address: nat, count: nat, n: nat, bits: Bits): Scan<bool>
    requires |bits| <= count
    decreases count - |bits|
  {
    if |bits| == count then Done(bits)
    else
      match Coil(regs, address + |bits|)
      case Err(e) => Raised(e)
      case Ok(v) => if v && |bits| / 8 >= n then OutOfRange else ScanCoils(regs, address, count, n, bits + [v])
  }

  function ScanRegs(regs: File, address: nat, count: nat, size: nat, words: seq<uint16>): Scan<uint16>
    requires |words| <= count
    decreases count - |words|
  {
    if |words| == count then Done(words)
    else
      match Read(regs, address + |words|)
      case Err(e) => Raised(e)
      case Ok(v) => if 3 + 2 * |words| > size then OutOfRange else ScanRegs(regs, address, count, size, words + [v])
  }

  // byte((count + 7) / 8) in 16-bit arithmetic.
  function CoilBytes(count: uint16): byte {
    ((count + 7) % 0x1_0000 / 8) % 256
  }

  // The buffer has 1 + n bytes, in byte arithmetic: none at all for n == 255, and storing n in
  // the first of them is then out of range.
  function ReadingCoils(regs: File, p: PDU, address: uint16, count: uint16): Outcome {
    var n := CoilBytes(count);
    if n == 255 then Panic else
    match ScanCoils(regs, address, count, n, [])
    case Done(bits) => Reply(false, PDU(p.functionCode, [n] + Packed(bits, n)))
    case Raised(e) => Raise(p, e)
    case OutOfRange => Panic
  }

  function ReadingRegs(regs: File, p: PDU, address: uint16, count: uint16): Outcome {
    match ScanRegs(regs, address, count, (1 + 2 * count) % 0x1_0000, [])
    case Done(words) => Reply(false, PDU(p.functionCode, [(2 * count) % 256] + PutAll(words)))
    case Raised(e) => Raise(p, e)
    case OutOfRange => Panic
  }

  // Writes go one by one and stop at the first that fails; those before it stay.
  function WriteBits(regs: File, address: nat, bits: Bits): (Option<Exception>, File)
    decreases bits
  {
    if bits == [] then (None, regs)
    else
      var (err, after) := SetCoil(regs, address, bits[0]);
      if err.Some? then (err, after) else WriteBits(after, address + 1, bits[1..])
  }

  function WriteWords(regs: File, address: nat, words: seq<uint16>): (Option<Exception>, File)
    decreases words
  {
    if words == [] then (None, regs)
    else
      var (err, after) := Write(regs, address, words[0]);
      if err.Some? then (err, after) else WriteWords(after, address + 1, words[1..])
  }

  function Answer(p: PDU, err: Option<Exception>, data: seq<byte>): Outcome {
    if err.Some? then Raise(p, err.value) else Reply(true, PDU(p.functionCode, data))
  }

  function Process(regs: File, p: PDU): (Outcome, File) {
    var d := p.data;
    if |d| < MinRequestLen(p.functionCode) - 1 then (NotEnoughData, regs)
    else if p.functionCode == READ_COILS || p.functionCode == READ_DISCRETE_INPUTS then
      (ReadingCoils(regs, p, Get16(d[0], d[1]), Get16(d[2], d[3])), regs)
    else if p.functionCode == READ_HOLDING_REGISTERS || p.functionCode == READ_INPUT_REGISTERS then
      (ReadingRegs(regs, p, Get16(d[0], d[1]), Get16(d[2], d[3])), regs)
    else if p.functionCode == WRITE_SINGLE_COIL then
      var v := Get16(d[2], d[3]);
      if v != COIL_ON && v != COIL_OFF then (Raise(p, ExcIllegalValue), regs)
      else
        var (err, after) := SetCoil(regs, Get16(d[0], d[1]), v == COIL_ON);
        (Answer(p, err, d), after)
    else if p.functionCode == WRITE_MULTIPLE_COILS then
      var q: int := Get16(d[2], d[3]);
      if |d| != 5 + (q + 7) / 8 then (Raise(p, ExcIllegalValue), regs)
      else
        var (err, after) := WriteBits(regs, Get16(d[0], d[1]), Unpacked(d[5..], q));
        (Answer(p, err, d[..4]), after)
    else if p.functionCode == WRITE_SINGLE_REGISTER then
      var (err, after) := Write(regs, Get16(d[0], d[1]), Get16(d[2], d[3]));
      (Answer(p, err, d), after)
    else if p.functionCode == WRITE_MULTIPLE_REGISTERS then
      var q: int := Get16(d[2], d[3]);
      if |d| != 5 + 2 * q then (Raise(p, ExcIllegalValue), regs)
      else
        var (err, after) := WriteWords(regs, Get16(d[0], d[1]), GetAll(d[5..], q));
        (Answer(p, err, d[..4]), after)
    else
      (Raise(p, ExcIllegalFunction), regs)
  }

  // ----- the server -----

  method ProcessReadCoils(regs: Regs, p: PDU, address: uint16, count: uint16) returns (o: Outcome)
    ensures o == ReadingCoils(regs.regs, p, address, count)
  {
    hide Coil, FrameBits, Fit, CoilBytes;
    var n := CoilBytes(count);
    ghost var width: nat := 8 * (n as int);
    var data := new byte[(1 + n as int) % 256](_ => 0);
    if data.Length == 0 {
      return Panic;
    }
    data[0] := n;
    ghost var bits: Bits := [];
    ZeroFrame(data[1..]);
    for i := 0 to count
      invariant |bits| == i && data[0] == n
      invariant FrameBits(data[1..]) == Fit(bits, width)
      invariant ScanCoils(regs.regs, address, count, n, bits) == ScanCoils(regs.regs, address, count, n, [])
    {
      var v := regs.ReadCoil(address + i);
      if v.Err? {
        return Raise(p, v.error);
      }
      if v.value {
        if 1 + i / 8 >= data.Length {
          return Panic;
        }
        MarkBit(data, i);
      }
      OneMoreBit(bits, v.value, width);
      bits := bits + [v.value];
    }
    FrameOfBits(data[1..]);
    assert data[..] == [n] + data[1..];
    o := Reply(false, PDU(p.functionCode, data[..]));
  }

  // resp.Data[1+i/8] |= 1 << (i%8)
  method MarkBit(data: array<byte>, i: nat)
    requires 1 + i / 8 < data.Length
    modifies data
    ensures data[0] == old(data[0])
    ensures i < 8 * (data.Length - 1)
    ensures FrameBits(data[1..]) == old(FrameBits(data[1..]))[i := true]
  {
    ghost var before := data[1..];
    FrameBitSet(before, i / 8, i % 8, true);
    data[1 + i / 8] := WithByteBit(data[1 + i / 8], i % 8, true);
    assert data[1..] == before[i / 8 := WithByteBit(before[i / 8], i % 8, true)];
  }

  lemma {:induction false} OneMoreBit(bits: Bits, v: bool, width: nat)
    requires v ==> |bits| < width
    ensures Fit(bits + [v], width) == if v then Fit(bits, width)[|bits| := true] else Fit(bits, width)
  {
  }

  lemma {:induction false} ZeroFrame(data: seq<byte>)
    requires forall i :: 0 <= i < |data| ==> data[i] == 0
    ensures FrameBits(data) == Fit([], 8 * |data|)
  {
    if data != [] {
      ZeroBits(8);
      ZeroFrame(data[1..]);
    }
  }

  lemma {:induction false} ZeroBits(n: nat)
    ensures forall m :: 0 <= m < n ==> !ToBits(0, n)[m]
  {
    if n > 0 {
      ZeroBits(n - 1);
    }
  }

  method ProcessReadRegs(regs: Regs, p: PDU, address: uint16, count: uint16) returns (o: Outcome)
    ensures o == ReadingRegs(regs.regs, p, address, count)
  {
    hide Read, PutAll, ScanRegs;
    assert PutAll([]) == [] by { PutNone(); }
    var size := (1 + 2 * count) % 0x1_0000;
    var data := new byte[size](_ => 0);
    data[0] := (2 * count) % 256;
    ghost var words: seq<uint16> := [];
    for i := 0 to count
      invariant |words| == i && data[0] == (2 * count) % 256
      invariant 1 + 2 * i <= size
      invariant data[1..1 + 2 * i] == PutAll(words)
      invariant ScanRegs(regs.regs, address, count, size, words) == ScanRegs(regs.regs, address, count, size, [])
    {
      ScanNext(regs.regs, address, count, size, words);
      var v := regs.ReadReg(address + i);
      if v.Err? {
        return Raise(p, v.error);
      }
      if 3 + 2 * i > data.Length {
        return Panic;
      }
      PutNext(data, 1 + 2 * i, v.value, words);
      words := words + [v.value];
    }
    ScanDone(regs.regs, address, count, size, words);
    NotWrapped(1 + 2 * count, size);
    assert data.Length == 1 + 2 * count;
    HeadAndTail(data[..]);
    assert data[..][1..] == data[1..1 + 2 * count];
    o := Reply(false, PDU(p.functionCode, data[..]));
  }

  lemma {:induction false} PutNone()
    ensures PutAll([]) == []
  {
  }

  lemma {:induction false} ScanNext(regs: File, address: nat, count: nat, size: nat, words: seq<uint16>)
    requires |words| < count
    ensures ScanRegs(regs, address, count, size, words) ==
      match Read(regs, address + |words|)
      case Err(e) => Raised(e)
      case Ok(v) => if 3 + 2 * |words| > size then OutOfRange else ScanRegs(regs, address, count, size, words + [v])
  {
  }

  lemma {:induction false} ScanDone(regs: File, address: nat, count: nat, size: nat, words: seq<uint16>)
    requires |words| == count
    ensures ScanRegs(regs, address, count, size, words) == Done(words)
  {
  }

  lemma {:induction false} HeadAndTail(s: seq<byte>)
    requires s != []
    ensures s == [s[0]] + s[1..]
  {
  }

  lemma {:induction false} NotWrapped(n: nat, size: nat)
    requires size == n % 0x1_0000 && n <= size
    ensures size == n
  {
  }

  // binary.BigEndian.PutUint16 into a buffer that holds words from its second byte on.
  method PutNext(data: array<byte>, at: nat, w: uint16, ghost words: seq<uint16>)
    requires 1 <= at && at + 2 <= data.Length && data[1..at] == PutAll(words)
    modifies data
    ensures data[0] == old(data[0])
    ensures data[1..at + 2] == PutAll(words + [w])
  {
    hide PutAll;
    ghost var before := data[1..at];
    data[at], data[at + 1] := Put16(w)[0], Put16(w)[1];
    assert data[1..at] == before;
    assert data[1..at + 2] == before + Put16(w);
    PutOneMore(words, w);
  }

  lemma {:induction false} PutOneMore(words: seq<uint16>, w: uint16)
    ensures PutAll(words + [w]) == PutAll(words) + Put16(w)
  {
    assert (words + [w])[..|words|] == words;
  }

  // (p.Data[5+i/8] >> (i%8)) & 1 == 1
  function BitAt(payload: seq<byte>, i: nat): (v: bool)
    requires i < 8 * |payload|
    ensures v == FrameBits(payload)[i]
  {
    FrameBitAt(payload, i / 8, i % 8);
    ByteBits(payload[i / 8])[i % 8]
  }

  lemma {:induction false} WriteBitsStep(regs: File, address: nat, bits: Bits, i: nat)
    requires i < |bits|
    ensures
      var (err, after) := SetCoil(regs, address, bits[i]);
      WriteBits(regs, address, bits[i..]) ==
        if err.Some? then (err, after) else WriteBits(after, address + 1, bits[i + 1..])
  {
    assert bits[i..][0] == bits[i] && bits[i..][1..] == bits[i + 1..];
  }

  method ProcessWriteCoils(regs: Regs, address: uint16, quantity: uint16, payload: seq<byte>)
    returns (err: Option<Exception>)
    requires quantity <= 8 * |payload|
    modifies regs
    ensures (err, regs.regs) == WriteBits(old(regs.regs), address, Unpacked(payload, quantity))
  {
    hide SetCoil;
    ghost var bits := Unpacked(payload, quantity);
    assert bits[0..] == bits;
    for i := 0 to quantity
      invariant WriteBits(regs.regs, address + i, bits[i..]) == WriteBits(old(regs.regs), address, bits)
    {
      WriteBitsStep(regs.regs, address + i, bits, i);
      var value := BitAt(payload, i);
      err := regs.WriteCoil(address + i, value);
      if err.Some? {
        return;
      }
    }
    assert bits[quantity..] == [];
    err := None;
  }

  lemma {:induction false} WriteWordsStep(regs: File, address: nat, words: seq<uint16>, i: nat)
    requires i < |words|
    ensures
      var (err, after) := Write(regs, address, words[i]);
      WriteWords(regs, address, words[i..]) ==
        if err.Some? then (err, after) else WriteWords(after, address + 1, words[i + 1..])
  {
    assert words[i..][0] == words[i] && words[i..][1..] == words[i + 1..];
  }

  method ProcessWriteRegs(regs: Regs, address: uint16, quantity: uint16, payload: seq<byte>)
    returns (err: Option<Exception>)
    requires 2 * quantity <= |payload|
    modifies regs
    ensures (err, regs.regs) == WriteWords(old(regs.regs), address, GetAll(payload, quantity))
  {
    hide Write;
    ghost var words := GetAll(payload, quantity);
    assert words[0..] == words;
    for i := 0 to quantity
      invariant WriteWords(regs.regs, address + i, words[i..]) == WriteWords(old(regs.regs), address, words)
    {
      WriteWordsStep(regs.regs, address + i, words, i);
      var value := Get16(payload[2 * i], payload[2 * i + 1]);
      assert value == words[i];
      err := regs.WriteReg(address + i, value);
      if err.Some? {
        return;
      }
    }
    assert words[quantity..] == [];
    err := None;
  }

  method ProcessRequest(p: PDU, regs: Regs) returns (o: Outcome)
    modifies regs
    ensures (o, regs.regs) == Process(old(regs.regs), p)
  {
    var d := p.data;
    if |d| < MinRequestLen(p.functionCode) - 1 {
      return NotEnoughData;
    }
    match p.functionCode
    case 1 | 2 =>
      o := ProcessReadCoils(regs, p, Get16(d[0], d[1]), Get16(d[2], d[3]));
    case 3 | 4 =>
      o := ProcessReadRegs(regs, p, Get16(d[0], d[1]), Get16(d[2], d[3]));
    case 5 =>
      var v := Get16(d[2], d[3]);
      if v != COIL_OFF && v != COIL_ON {
        return Raise(p, ExcIllegalValue);
      }
      var err := regs.WriteCoil(Get16(d[0], d[1]), v == COIL_ON);
      o := Answer(p, err, d);
    case 15 =>
      var quantity: int := Get16(d[2], d[3]);
      if |d| != 5 + (quantity + 7) / 8 {
        return Raise(p, ExcIllegalValue);
      }
      var err := ProcessWriteCoils(regs, Get16(d[0], d[1]), quantity, d[5..]);
      o := Answer(p, err, d[..4]);
    case 6 =>
      var err := regs.WriteReg(Get16(d[0], d[1]), Get16(d[2], d[3]));
      o := Answer(p, err, d);
    case 16 =>
      var quantity: int := Get16(d[2], d[3]);
      if |d| != 5 + 2 * quantity {
        return Raise(p, ExcIllegalValue);
      }
      var err := ProcessWriteRegs(regs, Get16(d[0], d[1]), quantity, d[5..]);
      o := Answer(p, err, d[..4]);
    case _ =>
      o := Raise(p, ExcIllegalFunction);
  }

  // ----- the client -----

  datatype ReadError = TooShort | WrongFunction | Overrun

  // The bits of a response, an error, or an index out of range in the program.
  datatype BitsRead = GotBits(bits: Bits) | NoBits(error: ReadError) | BitsPanic

  // RespReadBits takes the byte count of the response for its number of bits.
  method RespReadBits(p: PDU) returns (r: BitsRead)
    ensures r == BitsOf(p)
  {
    if |p.data| < 2 {
      return NoBits(TooShort);
    }
    if p.functionCode != READ_COILS && p.functionCode != READ_DISCRETE_INPUTS {
      return NoBits(WrongFunction);
    }
    var count := p.data[0];
    var ret: Bits := [];
    var byteIndex, bitIndex := 0, 0;
    for i := 0 to count
      invariant byteIndex == i / 8 && bitIndex == i % 8
      invariant i <= 8 * (|p.data| - 1) && ret == Unpacked(p.data[1..], i)
    {
      if byteIndex + 1 >= |p.data| {
        return BitsPanic;
      }
      FrameBitAt(p.data[1..], byteIndex, bitIndex);
      ret := ret + [ByteBits(p.data[byteIndex + 1])[bitIndex]];
      bitIndex := bitIndex + 1;
      if bitIndex >= 8 {
        byteIndex := byteIndex + 1;
        bitIndex := 0;
      }
    }
    return GotBits(ret);
  }

  function BitsOf(p: PDU): BitsRead {
    if |p.data| < 2 then NoBits(TooShort)
    else if p.functionCode != READ_COILS && p.functionCode != READ_DISCRETE_INPUTS then NoBits(WrongFunction)
    else if p.data[0] > 8 * (|p.data| - 1) then BitsPanic
    else GotBits(Unpacked(p.data[1..], p.data[0]))
  }

  method RespReadRegs(p: PDU) returns (r: Result<seq<uint16>, ReadError>)
    ensures r == RegsOf(p)
  {
    if |p.data| < 2 {
      return Err(TooShort);
    }
    if p.functionCode != READ_HOLDING_REGISTERS && p.functionCode != READ_INPUT_REGISTERS {
      return Err(WrongFunction);
    }
    var count := p.data[0] / 2;
    if |p.data| < 1 + count * 2 {
      return Err(Overrun);
    }
    var ret: seq<uint16> := [];
    for i := 0 to count
      invariant ret == GetAll(p.data[1..], i)
    {
      ret := ret + [Get16(p.data[1 + i * 2], p.data[1 + i * 2 + 1])];
    }
    return Ok(ret);
  }

  function RegsOf(p: PDU): Result<seq<uint16>, ReadError> {
    if |p.data| < 2 then Err(TooShort)
    else if p.functionCode != READ_HOLDING_REGISTERS && p.functionCode != READ_INPUT_REGISTERS then Err(WrongFunction)
    else
      var count := p.data[0] / 2;
      if |p.data| < 1 + count * 2 then Err(Overrun) else Ok(GetAll(p.data[1..], count))
  }

  function AddressAndCount(code: byte, address: uint16, count: uint16): PDU {
    PDU(code, Put16(address) + Put16(count))
  }

  // A Write Multiple Coils request, section 6.11.
  function WriteCoilsRequest(address: uint16, bits: Bits): PDU
    requires |bits| <= 2040
  {
    var n: byte := (|bits| + 7) / 8;
    PDU(WRITE_MULTIPLE_COILS, Put16(address) + Put16(|bits|) + [n] + Packed(bits, n))
  }

  // ----- coils: writes seen through reads -----

  predicate CoilsPresent(regs: File, address: nat, count: nat) {
    forall i :: address <= i < address + count ==> Coil(regs, i).Ok?
  }

  function CoilRange(regs: File, address: nat, count: nat): (r: Bits)
    requires CoilsPresent(regs, address, count)
    ensures |r| == count
  {
    seq(count, i requires 0 <= i < count => Coil(regs, address + i).value)
  }

  // However far a multiple-coil write gets, the coils it reached hold the new bits and every
  // other coil, in the same registers or elsewhere, holds what it held.
  lemma {:induction false} WriteBitsEffect(regs: File, address: nat, bits: Bits) returns (k: nat)
    requires address + |bits| <= 0x10_0000
    ensures k <= |bits|
    ensures var (err, after) := WriteBits(regs, address, bits);
      && (err.None? <==> k == |bits|)
      && (k < |bits| ==> err == Some(if Has(regs, (address + k) / 16) then ExcIllegalValue else ExcIllegalAddress))
      && forall c :: 0 <= c < 0x10_0000 ==>
        Coil(after, c) == if address <= c < address + k then Ok(bits[c - address]) else Coil(regs, c)
    decreases bits
  {
    hide Coil, SetCoil, WriteBits, Has;
    WriteBitsIs(regs, address, bits);
    if bits == [] {
      k := 0;
    } else {
      var (err, next) := SetCoil(regs, address, bits[0]);
      SetCoilFails(regs, address, bits[0]);
      forall c | 0 <= c < 0x10_0000
        ensures Coil(next, c) == if err == None && c == address then Ok(bits[0]) else Coil(regs, c)
      {
        CoilAfterSet(regs, address, bits[0], c);
      }
      if err.Some? {
        k := 0;
      } else {
        k := WriteBitsEffect(next, address + 1, bits[1..]);
        k := k + 1;
        if k < |bits| {
          SameCoilHas(regs, next, address + k);
        }
      }
    }
  }

  lemma {:induction false} SameCoilHas(regs: File, next: File, c: nat)
    requires c < 0x10_0000 && Coil(next, c).Ok? == Coil(regs, c).Ok?
    ensures Has(next, c / 16) == Has(regs, c / 16)
  {
    WriteFails(regs, c / 16, 0);
    WriteFails(next, c / 16, 0);
  }

  lemma {:induction false} WriteBitsIs(regs: File, address: nat, bits: Bits)
    ensures WriteBits(regs, address, bits) ==
      if bits == [] then (None, regs)
      else
        var (err, after) := SetCoil(regs, address, bits[0]);
        if err.Some? then (err, after) else WriteBits(after, address + 1, bits[1..])
  {
    hide SetCoil;
  }

  lemma {:induction false} ScanReadsCoils(regs: File, address: nat, count: nat, n: nat, bits: Bits)
    requires CoilsPresent(regs, address, count)
    requires |bits| <= count && bits == CoilRange(regs, address, count)[..|bits|]
    requires forall i :: 8 * n <= i < |bits| ==> !bits[i]
    ensures ScanCoils(regs, address, count, n, bits) ==
      if NoneFrom(CoilRange(regs, address, count), 8 * n) then Done(CoilRange(regs, address, count)) else OutOfRange
    decreases count - |bits|
  {
    hide Coil;
    var all := CoilRange(regs, address, count);
    if |bits| < count {
      var v := Coil(regs, address + |bits|).value;
      assert all[|bits|] == v;
      var next := bits + [v];
      assert next == all[..|next|];
      if !(v && |bits| / 8 >= n) {
        ScanReadsCoils(regs, address, count, n, next);
      }
    } else {
      assert bits == all;
    }
  }

  predicate NoneFrom(coils: Bits, at: nat) {
    forall i :: at <= i < |coils| ==> !coils[i]
  }

  // A reply exists exactly if the buffer has a first byte and room for every coil that is on.
  predicate Answered(coils: Bits)
    requires |coils| < 0x1_0000
  {
    CoilBytes(|coils|) != 255 && NoneFrom(coils, 8 * CoilBytes(|coils|))
  }

  // The answer to a read of these coils.
  function CoilsAnswer(code: byte, coils: Bits): Outcome
    requires |coils| < 0x1_0000
  {
    var n := CoilBytes(|coils|);
    if Answered(coils) then Reply(false, PDU(code, [n] + Packed(coils, n))) else Panic
  }

  // Up to 2032 coils every read of present coils is answered; the limit of the protocol, 2000,
  // lies below.  From 2033 to 2040 none is.
  lemma {:induction false} CoilLimits(coils: Bits)
    requires |coils| < 0x1_0000
    ensures |coils| <= 2032 ==> Answered(coils) && CoilBytes(|coils|) == (|coils| + 7) / 8
    ensures 2032 < |coils| <= 2040 ==> !Answered(coils)
    ensures 2040 < |coils| && Answered(coils) ==> exists i :: 0 <= i < |coils| && !coils[i]
  {
    if |coils| <= 2032 {
      assert |coils| <= 8 * ((|coils| + 7) / 8);
    } else if 2040 < |coils| && Answered(coils) {
      assert !coils[2040];
    }
  }

  // The two words of a request, as the server reads them.
  predicate Fields(p: PDU, address: uint16, count: uint16) {
    |p.data| == 4 && Get16(p.data[0], p.data[1]) == address && Get16(p.data[2], p.data[3]) == count
  }

  lemma {:induction false} FieldsRead(code: byte, address: uint16, count: uint16)
    ensures Fields(AddressAndCount(code, address, count), address, count)
  {
    var d := AddressAndCount(code, address, count).data;
    assert d == Put16(address) + Put16(count);
  }

  predicate ReadsCoils(code: byte) { code == READ_COILS || code == READ_DISCRETE_INPUTS }

  lemma {:induction false} ReadCoilsProcessed(regs: File, p: PDU, address: uint16, count: uint16)
    requires ReadsCoils(p.functionCode) && Fields(p, address, count)
    ensures Process(regs, p) == (ReadingCoils(regs, p, address, count), regs)
  {
    hide ReadingCoils;
  }

  // A read of present coils is answered with exactly their values, packed, exactly if a reply
  // can be built; else the program panics.
  lemma {:induction false} ReadCoilsAnswer(regs: File, code: byte, address: uint16, count: uint16)
    requires ReadsCoils(code) && CoilsPresent(regs, address, count)
    ensures ReadsAs(regs, code, address, CoilRange(regs, address, count))
  {
    hide Coil, CoilBytes, Process, AddressAndCount;
    var p := AddressAndCount(code, address, count);
    assert p.functionCode == code by { CodeOf(code, address, count); }
    FieldsRead(code, address, count);
    ReadCoilsProcessed(regs, p, address, count);
    ScanReadsCoils(regs, address, count, CoilBytes(count), []);
  }

  lemma {:induction false} CodeOf(code: byte, address: uint16, count: uint16)
    ensures AddressAndCount(code, address, count).functionCode == code
  {
  }

  // The coils of a range after the bits were written from address on.
  function CoilsWritten(regs: File, address: nat, bits: Bits, from: nat, count: nat): (r: Bits)
    requires CoilsPresent(regs, from, count)
    ensures |r| == count
  {
    seq(count, i requires 0 <= i < count =>
      if address <= from + i < address + |bits| then bits[from + i - address] else Coil(regs, from + i).value)
  }

  // Reading the coils from an address on gives these, packed, or panics.
  ghost predicate ReadsAs(regs: File, code: byte, from: uint16, coils: Bits)
    requires |coils| < 0x1_0000
  {
    Process(regs, AddressAndCount(code, from, |coils|)) == (CoilsAnswer(code, coils), regs)
  }

  // Write Multiple Coils answered without an exception, then a read of any range: the response
  // packs the written bits inside the written range and the old ones outside it.
  lemma {:induction false} CoilsReadBack(regs: File, address: uint16, bits: Bits, code: byte, from: uint16,
          count: uint16)
    requires 1 <= |bits| <= 2040 && ReadsCoils(code)
    requires CoilsPresent(regs, from, count)
    ensures
      var (o, after) := Process(regs, WriteCoilsRequest(address, bits));
      o.Reply? && o.changed ==> ReadsAs(after, code, from, CoilsWritten(regs, address, bits, from, count))
  {
    hide Process, WriteBits, Coil;
    WriteCoilsMeaning(regs, address, bits);
    var (err, after) := WriteBits(regs, address, bits);
    if err.None? {
      var k := WriteBitsEffect(regs, address, bits);
      assert CoilsPresent(after, from, count);
      ReadCoilsAnswer(after, code, from, count);
      assert CoilRange(after, from, count) == CoilsWritten(regs, address, bits, from, count);
    }
  }

  // The server takes out of a well-formed request the bits the client put in.
  lemma {:induction false} WriteCoilsMeaning(regs: File, address: uint16, bits: Bits)
    requires 1 <= |bits| <= 2040
    ensures
      var p := WriteCoilsRequest(address, bits);
      var (err, after) := WriteBits(regs, address, bits);
      Process(regs, p) == (Answer(p, err, Put16(address) + Put16(|bits|)), after)
  {
    hide WriteBits;
    var p := WriteCoilsRequest(address, bits);
    var n := (|bits| + 7) / 8;
    var d := p.data;
    assert d[..4] == Put16(address) + Put16(|bits|);
    assert Get16(d[0], d[1]) == address && Get16(d[2], d[3]) == |bits|;
    assert d[5..] == Packed(bits, n);
    assert Unpacked(d[5..], |bits|) == bits;
  }

  function SeenBits(o: Outcome): Option<Bits> {
    if o.Reply? && BitsOf(o.resp).GotBits? then Some(BitsOf(o.resp).bits) else None
  }

  // The client returns only one bit for every byte of the response, so it returns the coils
  // asked for exactly when one coil is asked for.
  lemma {:induction false} ReadCoilsIsCutShort(regs: File, code: byte, address: uint16, count: uint16)
    requires ReadsCoils(code) && CoilsPresent(regs, address, count)
    ensures
      var coils := CoilRange(regs, address, count);
      var seen := SeenBits(CoilsAnswer(code, coils));
      && (1 <= count <= 2032 ==> seen == Some(coils[..(count + 7) / 8]))
      && (seen == Some(coils) <==> count == 1)
  {
    var coils := CoilRange(regs, address, count);
    CoilLimits(coils);
    SeenOf(code, coils);
    if count == 1 {
      assert coils[..1] == coils;
    }
  }

  lemma {:induction false} SeenOf(code: byte, coils: Bits)
    requires ReadsCoils(code) && |coils| < 0x1_0000
    ensures
      var n := CoilBytes(|coils|);
      SeenBits(CoilsAnswer(code, coils)) == (if n == 0 || !Answered(coils) then None else Some(Fit(coils, n)))
    ensures CoilBytes(|coils|) <= |coils|
    ensures CoilBytes(|coils|) == |coils| ==> |coils| <= 1
    ensures CoilBytes(|coils|) <= |coils| ==> Fit(coils, CoilBytes(|coils|)) == coils[..CoilBytes(|coils|)]
  {
    var n := CoilBytes(|coils|);
    if Answered(coils) {
      hide Answered, Fit, Packed, Unpacked, FrameBits, CoilBytes;
      BitsSeen(code, n, Packed(coils, n));
      if n > 0 {
        UnpackedIs(coils, n);
      }
    }
  }

  lemma {:induction false} BitsSeen(code: byte, n: byte, payload: seq<byte>)
    requires ReadsCoils(code) && |payload| == n
    ensures BitsOf(PDU(code, [n] + payload)) == if n == 0 then NoBits(TooShort) else GotBits(Unpacked(payload, n))
  {
    var p := PDU(code, [n] + payload);
    assert p.data[1..] == payload;
  }

  lemma {:induction false} UnpackedIs(coils: Bits, n: nat)
    ensures Unpacked(Packed(coils, n), n) == Fit(coils, n)
  {
  }

  // ----- registers -----

  predicate RegsPresent(regs: File, address: nat, count: nat) {
    forall i :: address <= i < address + count ==> Read(regs, i).Ok?
  }

  function RegRange(regs: File, address: nat, count: nat): (r: seq<uint16>)
    requires RegsPresent(regs, address, count)
    ensures |r| == count
  {
    seq(count, i requires 0 <= i < count => Read(regs, address + i).value)
  }

  lemma {:induction false} ScanReadsRegs(regs: File, address: nat, count: nat, size: nat, words: seq<uint16>)
    requires RegsPresent(regs, address, count)
    requires |words| <= count && 1 + 2 * |words| <= size
    requires words == RegRange(regs, address, count)[..|words|]
    ensures ScanRegs(regs, address, count, size, words) ==
      if 1 + 2 * count <= size then Done(RegRange(regs, address, count)) else OutOfRange
    decreases count - |words|
  {
    if |words| < count {
      var next := words + [Read(regs, address + |words|).value];
      assert next == RegRange(regs, address, count)[..|next|];
      if 3 + 2 * |words| <= size {
        ScanReadsRegs(regs, address, count, size, next);
      }
    } else {
      assert words == RegRange(regs, address, count);
    }
  }

  lemma {:induction false} ReadRegsProcessed(regs: File, p: PDU, address: uint16, count: uint16)
    requires p.functionCode == READ_HOLDING_REGISTERS || p.functionCode == READ_INPUT_REGISTERS
    requires Fields(p, address, count)
    ensures Process(regs, p) == (ReadingRegs(regs, p, address, count), regs)
  {
    hide ReadingRegs;
  }

  // What the client makes of an outcome at the server.
  function Received(o: Outcome): Option<seq<uint16>> {
    if o.Reply? && RegsOf(o.resp).Ok? then Some(RegsOf(o.resp).value) else None
  }

  // Reading present registers: the server answers exactly when the count fits 15 bits; the
  // client then gets the first count % 128 values, which are all of them exactly up to 127.
  lemma {:induction false} ReadRegsAnswer(regs: File, code: byte, address: uint16, count: uint16)
    requires code == READ_HOLDING_REGISTERS || code == READ_INPUT_REGISTERS
    requires RegsPresent(regs, address, count)
    ensures
      var o := ReadingRegs(regs, AddressAndCount(code, address, count), address, count);
      var words := RegRange(regs, address, count);
      && (o == Panic <==> count >= 0x8000)
      && (1 <= count < 0x8000 ==> Received(o) == Some(words[..count % 128]))
      && (Received(o) == Some(words) <==> 1 <= count <= 127)
  {
    hide Read, PutAll, ScanRegs, RegsOf, GetAll;
    var size := (1 + 2 * count) % 0x1_0000;
    ScanReadsRegs(regs, address, count, size, []);
    if count < 0x8000 {
      var words := RegRange(regs, address, count);
      Halved(count);
      ReplyRead(code, words, (2 * count) % 256);
      if 1 <= count <= 127 {
        assert words[..count] == words;
      }
    }
  }

  lemma {:induction false} Halved(n: nat)
    ensures (2 * n) % 256 / 2 == n % 128
  {
    var k := n / 128;
    assert 2 * n == 256 * k + 2 * (n % 128);
  }

  lemma {:induction false} ReplyRead(code: byte, words: seq<uint16>, first: byte)
    requires code == READ_HOLDING_REGISTERS || code == READ_INPUT_REGISTERS
    requires first / 2 <= |words|
    ensures RegsOf(PDU(code, [first] + PutAll(words))) ==
      if words == [] then Err(TooShort) else Ok(words[..first / 2])
  {
    var p := PDU(code, [first] + PutAll(words));
    assert p.data[1..] == PutAll(words);
    GetPutAll(words, first / 2);
  }
}
