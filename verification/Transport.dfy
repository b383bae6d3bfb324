// The two Modbus transports (modbus/rtu.go, modbus/tcp.go) and whole transactions over them.
module Transport {
  import opened Wrappers
  import opened Words
  import opened Registers
  import opened Pdu
  import opened Crc

  datatype Decoded = Packet(id: byte, pdu: PDU) | Refused

  // copy(dst[at:], src)
  method Copy(dst: array<byte>, at: nat, src: seq<byte>)
    requires at + |src| <= dst.Length
    modifies dst
    ensures dst[..] == old(dst[..at]) + src + old(dst[at + |src|..])
  {
    for i := 0 to |src|
      invariant dst[..at] == old(dst[..at])
      invariant dst[at..at + i] == src[..i]
      invariant dst[at + i..] == old(dst[at + i..])
    {
      ghost var rest := dst[at + i + 1..];
      dst[at + i] := src[i];
      assert dst[at..at + i + 1] == src[..i] + [src[i]];
      assert dst[at + i + 1..] == rest == old(dst[at + i..])[1..];
    }
    assert dst[..] == dst[..at] + dst[at..at + |src|] + dst[at + |src|..];
  }

  // ----- RTU -----

  function RtuFrame(id: byte, pdu: PDU): seq<byte> {
    var body := [id, pdu.functionCode] + pdu.data;
    body + Put16(Crc16(body))
  }

  function RtuPacket(packet: seq<byte>): Decoded {
    if Check(packet) != CrcOk then Refused
    else Packet(packet[0], PDU(packet[1], packet[2..|packet| - 2]))
  }

  class RTU {
    constructor () { }

    method Encode(id: byte, pdu: PDU) returns (ret: array<byte>)
      ensures fresh(ret) && ret[..] == RtuFrame(id, pdu)
    {
      hide Crc16;
      var n := |pdu.data| + 2 + 2;
      ret := new byte[n](_ => 0);
      ret[0] := id;
      ret[1] := pdu.functionCode;
      assert ret[..2] == [id, pdu.functionCode];
      Copy(ret, 2, pdu.data);
      ghost var body := [id, pdu.functionCode] + pdu.data;
      assert ret[..n - 2] == body;
      var crc := RtuCrc(ret[..n - 2]);
      ret[n - 2], ret[n - 1] := Put16(crc)[0], Put16(crc)[1];
      assert ret[..n - 2] == body;
      assert ret[..] == ret[..n - 2] + Put16(crc);
    }

    method Decode(packet: seq<byte>) returns (r: Decoded)
      ensures r == RtuPacket(packet)
    {
      var err := CheckRtuCrc(packet);
      if err != CrcOk {
        return Refused;
      }
      return Packet(packet[0], PDU(packet[1], packet[2..|packet| - 2]));
    }
  }

  lemma {:induction false} RtuRoundTrip(id: byte, pdu: PDU)
    ensures Check(RtuFrame(id, pdu)) == CrcOk
    ensures RtuPacket(RtuFrame(id, pdu)) == Packet(id, pdu)
  {
    hide Crc16;
    var body := [id, pdu.functionCode] + pdu.data;
    var packet := RtuFrame(id, pdu);
    var n := |packet|;
    assert packet[..n - 2] == body;
    assert Put16(Crc16(body)) == [packet[n - 2], packet[n - 1]];
    assert packet[2..n - 2] == pdu.data;
  }

  // Line errors never reach the application: within 16 bits, or odd in number, they are
  // always noticed by the receiver.
  lemma {:induction false} RtuRefusesErrors(id: byte, pdu: PDU, e: Bits)
    requires |e| == 8 * |RtuFrame(id, pdu)|
    requires (exists k :: Burst(e, k)) || Odd(e)
    ensures RtuPacket(Corrupt(RtuFrame(id, pdu), e)) == Refused
  {
    RtuRoundTrip(id, pdu);
    ErrorsAreDetected(RtuFrame(id, pdu), e);
  }

  // ----- TCP -----

  // The number of bytes that follow, cut off to 16 bits.
  function LengthField(pdu: PDU): uint16 { (|pdu.data| + 2) % 0x1_0000 }

  function TcpFrame(txID: uint16, id: byte, pdu: PDU): seq<byte> {
    Put16(txID) + [0, 0] + Put16(LengthField(pdu)) + [id, pdu.functionCode] + pdu.data
  }

  function TcpTx(packet: seq<byte>): uint16
    requires |packet| >= 2
  {
    Get16(packet[0], packet[1])
  }

  // What a packet decodes to at a client that waits for txID, or at a server.
  function TcpPacket(client: bool, txID: uint16, packet: seq<byte>): Decoded {
    if |packet| < 9 || (client && TcpTx(packet) != txID) then Refused
    else Packet(packet[6], PDU(packet[7], packet[8..]))
  }

  // t.txID++ in 16 bits.
  function Next(txID: uint16): uint16 { (txID + 1) % 0x1_0000 }

  class TCP {
    const client: bool
    var txID: uint16

    constructor (client: bool)
      ensures this.client == client && txID == 0
    {
      this.client := client;
      txID := 0;
    }

    method Encode(id: byte, pdu: PDU) returns (ret: array<byte>)
      modifies this
      ensures txID == (if client then Next(old(txID)) else old(txID))
      ensures fresh(ret) && ret[..] == TcpFrame(txID, id, pdu)
    {
      hide Next, Put16;
      if client {
        txID := Next(txID);
      }
      ret := new byte[|pdu.data| + 8](_ => 0);
      var tx := Put16(txID);
      ret[0], ret[1] := tx[0], tx[1];
      var length := Put16(LengthField(pdu));
      ret[4], ret[5] := length[0], length[1];
      ret[6] := id;
      ret[7] := pdu.functionCode;
      assert ret[..8] == tx + [0, 0] + length + [id, pdu.functionCode];
      Copy(ret, 8, pdu.data);
    }

    method Decode(packet: seq<byte>) returns (r: Decoded)
      modifies this
      ensures r == TcpPacket(client, old(txID), packet)
      ensures txID == if !client && r.Packet? then TcpTx(packet) else old(txID)
    {
      if |packet| < 9 {
        return Refused;
      }
      var tx := Get16(packet[0], packet[1]);
      if client {
        if tx != txID {
          return Refused;
        }
      } else {
        txID := tx;
      }
      return Packet(packet[6], PDU(packet[7], packet[8..]));
    }
  }

  // A frame decodes to what was encoded, for a payload of at least one byte (a response or
  // request without any is refused as too short), when a client sees its own transaction id.
  // The MBAP header: the transaction id, two zeros, and the number of bytes behind, high byte first.
  lemma {:induction false} TcpFrameBytes(txID: uint16, id: byte, pdu: PDU)
    ensures
      var w := TcpFrame(txID, id, pdu);
      && |w| == 8 + |pdu.data|
      && w[0] as int * 256 + w[1] == txID && w[2] == w[3] == 0
      && w[4] as int * 256 + w[5] == (|w| - 6) % 0x1_0000
      && (|pdu.data| <= 65533 ==> w[4] as int * 256 + w[5] == |w| - 6)
      && w[6] == id && w[7] == pdu.functionCode && w[8..] == pdu.data
  {
    var w, n := TcpFrame(txID, id, pdu), LengthField(pdu);
    assert w[..8] == Put16(txID) + [0, 0] + Put16(n) + [id, pdu.functionCode];
    assert w[4] == n / 256 && w[5] == n % 256;
    assert w[0] == txID / 256 && w[1] == txID % 256;
  }

  // An RTU frame: the address, the function code, the data, and the CRC of all of these.
  lemma {:induction false} RtuFrameBytes(id: byte, pdu: PDU)
    ensures
      var w := RtuFrame(id, pdu);
      var n := |pdu.data|;
      && |w| == n + 4 && w[0] == id && w[1] == pdu.functionCode && w[2..n + 2] == pdu.data
      && w[n + 2] as int * 256 + w[n + 3] == Crc16(w[..n + 2])
  {
    hide Crc16;
    var body := [id, pdu.functionCode] + pdu.data;
    assert RtuFrame(id, pdu)[..|body|] == body;
  }

  lemma {:induction false} TcpRoundTrip(client: bool, waiting: uint16, txID: uint16, id: byte, pdu: PDU)
    ensures TcpTx(TcpFrame(txID, id, pdu)) == txID
    ensures TcpPacket(client, waiting, TcpFrame(txID, id, pdu)) ==
      if pdu.data == [] || (client && txID != waiting) then Refused else Packet(id, pdu)
  {
    var f := TcpFrame(txID, id, pdu);
    assert f[8..] == pdu.data;
    assert Put16(txID) == [f[0], f[1]];
    assert Get16(f[0], f[1]) == txID;
  }

  // The client's transaction id after n requests.
  function TxAfter(start: uint16, n: nat): uint16 {
    if n == 0 then start else Next(TxAfter(start, n - 1))
  }

  lemma {:induction false} TxAfterIs(start: uint16, n: nat)
    ensures TxAfter(start, n) == (start + n) % 0x1_0000
  {
    if n > 0 {
      TxAfterIs(start, n - 1);
      NextResidue(start + n - 1);
    }
  }

  lemma {:induction false} NextResidue(a: nat)
    ensures (a % 0x1_0000 + 1) % 0x1_0000 == (a + 1) % 0x1_0000
  {
    var k := a / 0x1_0000;
    assert a + 1 == 0x1_0000 * k + (a % 0x1_0000 + 1);
  }

  // Over any run, the client that waits for the answer to request n takes the server's answer
  // to request m exactly when the two are a multiple of 65536 apart: an answer to any of the
  // 65535 requests before is refused.
  lemma {:induction false} StaleAnswers(start: uint16, n: nat, m: nat, id: byte, resp: PDU)
    requires resp.data != []
    ensures
      var answer := TcpFrame(TxAfter(start, m), id, resp);
      (TcpPacket(true, TxAfter(start, n), answer) != Refused <==> (n - m) % 0x1_0000 == 0)
    ensures m < n <= m + 0xFFFF ==>
      TcpPacket(true, TxAfter(start, n), TcpFrame(TxAfter(start, m), id, resp)) == Refused
  {
    hide TcpFrame, TcpPacket, TcpTx;
    TxAfterIs(start, n);
    TxAfterIs(start, m);
    TcpRoundTrip(true, TxAfter(start, n), TxAfter(start, m), id, resp);
    SameResidue(start, n, m);
  }

  lemma {:induction false} SameResidue(a: nat, n: nat, m: nat)
    ensures (a + n) % 0x1_0000 == (a + m) % 0x1_0000 <==> (n - m) % 0x1_0000 == 0
  {
    var x, y := (a + n) / 0x1_0000, (a + m) / 0x1_0000;
    var d := (n - m) / 0x1_0000;
    if (a + n) % 0x1_0000 == (a + m) % 0x1_0000 {
      assert n - m == 0x1_0000 * (x - y);
    }
    if (n - m) % 0x1_0000 == 0 {
      assert a + n == (a + m) + 0x1_0000 * d;
    }
  }

  // ----- whole transactions -----

  // One request over RTU: what the client gets back, after both decodes.
  function RtuTransaction(regs: File, id: byte, request: PDU): (Decoded, File) {
    match RtuPacket(RtuFrame(id, request))
    case Refused => (Refused, regs)
    case Packet(sid, p) =>
      var (o, after) := Process(regs, p);
      (if o.Reply? then RtuPacket(RtuFrame(sid, o.resp)) else Refused, after)
  }

  // The same over TCP: the server answers with the transaction id it last decoded.
  function TcpTransaction(regs: File, txID: uint16, id: byte, request: PDU): (Decoded, File) {
    var tx := Next(txID);
    var wire := TcpFrame(tx, id, request);
    match TcpPacket(false, 0, wire)
    case Refused => (Refused, regs)
    case Packet(sid, p) =>
      var (o, after) := Process(regs, p);
      (if o.Reply? then TcpPacket(true, tx, TcpFrame(TcpTx(wire), sid, o.resp)) else Refused, after)
  }

  lemma {:induction false} ReplyHasData(regs: File, p: PDU)
    ensures
      var (o, after) := Process(regs, p);
      o.Reply? ==> o.resp.data != []
  {
    hide ScanCoils, ScanRegs, SetCoil, Write, WriteBits, WriteWords;
  }

  // Both transports hand the client exactly the server's answer to exactly its request.
  lemma {:induction false} TransactionsDeliver(regs: File, txID: uint16, id: byte, request: PDU)
    requires request.data != []
    ensures
      var (o, after) := Process(regs, request);
      && RtuTransaction(regs, id, request) == (if o.Reply? then Packet(id, o.resp) else Refused, after)
      && TcpTransaction(regs, txID, id, request) == (if o.Reply? then Packet(id, o.resp) else Refused, after)
  {
    hide Process, Crc16, Check;
    var (o, after) := Process(regs, request);
    ReplyHasData(regs, request);
    var tx := Next(txID);
    RtuRoundTrip(id, request);
    TcpRoundTrip(false, 0, tx, id, request);
    if o.Reply? {
      RtuRoundTrip(id, o.resp);
      TcpRoundTrip(true, tx, tx, id, o.resp);
    }
  }

  function ClientRegs(d: Decoded): Option<seq<uint16>> {
    if d.Packet? && RegsOf(d.pdu).Ok? then Some(RegsOf(d.pdu).value) else None
  }

  // Reading 1 to 127 present registers over either transport gives exactly their values and
  // changes nothing; asked for any other number, the client does not get that number.
  lemma {:induction false} RegistersArrive(regs: File, txID: uint16, id: byte, code: byte, address: uint16,
          count: uint16)
    requires code == READ_HOLDING_REGISTERS || code == READ_INPUT_REGISTERS
    requires RegsPresent(regs, address, count)
    ensures
      var request := AddressAndCount(code, address, count);
      var words := RegRange(regs, address, count);
      var (rtu, regs1) := RtuTransaction(regs, id, request);
      var (tcp, regs2) := TcpTransaction(regs, txID, id, request);
      && regs1 == regs2 == regs
      && (ClientRegs(rtu) == Some(words) <==> 1 <= count <= 127)
      && (ClientRegs(tcp) == Some(words) <==> 1 <= count <= 127)
  {
    hide Process, RtuTransaction, TcpTransaction, RegsOf, Read;
    var request := AddressAndCount(code, address, count);
    assert request.data == Put16(address) + Put16(count);
    TransactionsDeliver(regs, txID, id, request);
    FieldsRead(code, address, count);
    ReadRegsProcessed(regs, request, address, count);
    ReadRegsAnswer(regs, code, address, count);
  }
}
