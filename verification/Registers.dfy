// The register file of a Modbus device (modbus/reg.go).  Coils are aliased onto the bits of
// the 16-bit registers: coil n is bit n % 16 of register n / 16.
module Registers {
  import opened Wrappers
  import opened Words

  // The exceptions the register file raises.
  datatype Exception = ExcIllegalFunction | ExcIllegalAddress | ExcIllegalValue

  function Code(e: Exception): byte {
    match e
    case ExcIllegalFunction => 1
    case ExcIllegalAddress => 2
    case ExcIllegalValue => 3
  }

  datatype Reg = Reg(address: uint16, value: uint16, validate: Option<uint16 -> bool>)

  type File = seq<Reg>

  // ----- what the operations mean -----

  function Truncated(address: int): uint16 { address % 0x1_0000 }

  predicate Has(regs: File, address: uint16) {
    exists i :: 0 <= i < |regs| && regs[i].address == address
  }

  // Is a one of the count addresses from address on, which wrap after 0xFFFF?
  predicate Spans(address: int, count: int, a: uint16) {
    (a - address) % 0x1_0000 < count
  }

  // The register an access to the address hits: the first with that address.
  function Slot(regs: File, address: uint16): (i: nat)
    ensures i <= |regs|
    ensures i < |regs| ==> regs[i].address == address
    ensures forall j :: 0 <= j < i ==> regs[j].address != address
  {
    if regs == [] || regs[0].address == address then 0 else 1 + Slot(regs[1..], address)
  }

  function Read(regs: File, address: int): Result<uint16, Exception> {
    var i := Slot(regs, Truncated(address));
    if i < |regs| then Ok(regs[i].value) else Err(ExcIllegalAddress)
  }

  predicate Accepts(r: Reg, value: uint16) {
    r.validate.Some? ==> r.validate.value(value)
  }

  // The outcome of a write, and the file it leaves behind.
  function Write(regs: File, address: int, value: uint16): (Option<Exception>, File) {
    var i := Slot(regs, Truncated(address));
    if i == |regs| then (Some(ExcIllegalAddress), regs)
    else if !Accepts(regs[i], value) then (Some(ExcIllegalValue), regs)
    else (None, regs[i := regs[i].(value := value)])
  }

  function Coil(regs: File, num: nat): Result<bool, Exception> {
    match Read(regs, num / 16)
    case Ok(v) => Ok(WordBits(v)[num % 16])
    case Err(e) => Err(e)
  }

  function WithBit(v: uint16, pos: nat, value: bool): uint16
    requires pos < 16
  {
    BitsWord(WordBits(v)[pos := value])
  }

  function SetCoil(regs: File, num: nat, value: bool): (Option<Exception>, File) {
    match Read(regs, num / 16)
    case Err(e) => (Some(e), regs)
    case Ok(v) => Write(regs, num / 16, WithBit(v, num % 16, value))
  }

  // ----- the operations -----

  class Regs {
    var regs: seq<Reg>

    constructor ()
      ensures regs == []
    {
      regs := [];
    }

    // Registers that exist keep their value; the others are added as zero.
    method AddReg(address: int, count: int)
      modifies this
      ensures old(regs) <= regs
      ensures forall a :: Has(regs, a) <==>
        Has(old(regs), a) || Spans(address, count, a)
      ensures forall i :: |old(regs)| <= i < |regs| ==> regs[i].value == 0 && regs[i].validate == None
    {
      var n := if count < 0 then 0 else count;
      for i := 0 to n
        invariant old(regs) <= regs
        invariant forall a :: Has(regs, a) <==>
          Has(old(regs), a) || Spans(address, i, a)
        invariant forall k :: |old(regs)| <= k < |regs| ==> regs[k].value == 0 && regs[k].validate == None
      {
        var found := false;
        var adr := address + i;
        for j := 0 to |regs|
          invariant found <==> exists k :: 0 <= k < j && regs[k].address == Truncated(adr)
        {
          if regs[j].address == Truncated(adr) {
            found := true;
          }
        }
        ghost var before := regs;
        forall a ensures Spans(address, i + 1, a) <==> Spans(address, i, a) || a == Truncated(adr) {
          SpansNext(address, i, a);
        }
        if !found {
          regs := regs + [Reg(Truncated(adr), 0, None)];
          HasAppend(before, regs[|before|]);
        }
      }
    }

    method ReadReg(address: int) returns (r: Result<uint16, Exception>)
      ensures r == Read(regs, address)
    {
      for i := 0 to |regs|
        invariant forall j :: 0 <= j < i ==> regs[j].address != Truncated(address)
      {
        if regs[i].address == Truncated(address) {
          return Ok(regs[i].value);
        }
      }
      return Err(ExcIllegalAddress);
    }

    method WriteReg(address: int, value: uint16) returns (err: Option<Exception>)
      modifies this
      ensures (err, regs) == Write(old(regs), address, value)
    {
      for i := 0 to |regs|
        invariant regs == old(regs)
        invariant forall j :: 0 <= j < i ==> regs[j].address != Truncated(address)
      {
        var reg := regs[i];
        if reg.address == Truncated(address) {
          if reg.validate.Some? && !reg.validate.value(value) {
            return Some(ExcIllegalValue);
          }
          regs := regs[i := reg.(value := value)];
          return None;
        }
      }
      return Some(ExcIllegalAddress);
    }

    method ReadCoil(num: nat) returns (r: Result<bool, Exception>)
      ensures r == Coil(regs, num)
    {
      var regAddress := num / 16;
      var v := ReadReg(regAddress);
      if v.Err? {
        return Err(v.error);
      }
      var bitPos := num % 16;
      return Ok(WordBits(v.value)[bitPos]);
    }

    method WriteCoil(num: nat, value: bool) returns (err: Option<Exception>)
      modifies this
      ensures (err, regs) == SetCoil(old(regs), num, value)
    {
      var regAddress := num / 16;
      var v := ReadReg(regAddress);
      if v.Err? {
        return Some(v.error);
      }
      var bitPos := num % 16;
      err := WriteReg(regAddress, WithBit(v.value, bitPos, value));
    }
  }

  lemma {:induction false} SpansNext(address: int, i: nat, a: uint16)
    ensures Spans(address, i + 1, a) <==> Spans(address, i, a) || a == Truncated(address + i)
  {
    var d := (a - address) % 0x1_0000;
    var k := (a - address) / 0x1_0000;
    assert address + d == a - 0x1_0000 * k;
    assert Truncated(address + d) == a;
    if a == Truncated(address + i) {
      assert (a - address) % 0x1_0000 == i % 0x1_0000;
    }
  }

  lemma {:induction false} HasAppend(regs: File, r: Reg)
    ensures forall a :: Has(regs + [r], a) <==> Has(regs, a) || a == r.address
  {
    forall a ensures Has(regs + [r], a) <==> Has(regs, a) || a == r.address {
      if Has(regs, a) {
        var j :| 0 <= j < |regs| && regs[j].address == a;
        assert (regs + [r])[j].address == a;
      }
      if a == r.address {
        assert (regs + [r])[|regs|].address == a;
      }
    }
  }

  // ----- reads after writes -----

  lemma {:induction false} ReadAfterWrite(regs: File, address: int, value: uint16, other: int)
    ensures
      var (err, after) := Write(regs, address, value);
      Read(after, other) ==
        if err == None && Truncated(other) == Truncated(address) then Ok(value) else Read(regs, other)
  {
    var i := Slot(regs, Truncated(address));
    var (err, after) := Write(regs, address, value);
    if err == None {
      var j, k := Slot(regs, Truncated(other)), Slot(after, Truncated(other));
      assert j < |regs| ==> after[j].address == regs[j].address;
      assert k < |regs| ==> after[k].address == regs[k].address;
    }
  }

  // A coil write that succeeds sets that coil and leaves every other coil as it was, though
  // sixteen coils share a register.
  lemma {:induction false} CoilAfterSet(regs: File, num: nat, value: bool, other: nat)
    requires num / 16 < 0x1_0000 && other / 16 < 0x1_0000
    ensures
      var (err, after) := SetCoil(regs, num, value);
      Coil(after, other) == if err == None && other == num then Ok(value) else Coil(regs, other)
  {
    match Read(regs, num / 16)
    case Err(_) =>
    case Ok(v) =>
      var w := WithBit(v, num % 16, value);
      ReadAfterWrite(regs, num / 16, w, other / 16);
      assert WordBits(w) == WordBits(v)[num % 16 := value];
  }

  // Coil n is bit n % 16 of register n / 16, counted from the lowest.
  lemma {:induction false} CoilIsBit(regs: File, n: nat)
    ensures
      match Read(regs, n / 16)
      case Ok(v) => Coil(regs, n) == Ok(v / Pow2(n % 16) % 2 == 1)
      case Err(e) => Coil(regs, n) == Err(e)
  {
    hide Read;
    if Read(regs, n / 16).Ok? {
      WordBitIs(Read(regs, n / 16).value, n % 16);
    }
  }

  // The first register with an address, if there is one, takes a value that it has no objection to.
  ghost predicate Takes(regs: File, address: uint16, value: uint16) {
    exists i :: FirstAt(regs, i, address) && (regs[i].validate.Some? ==> regs[i].validate.value(value))
  }

  predicate FirstAt(regs: File, i: int, address: uint16) {
    0 <= i < |regs| && regs[i].address == address && forall j :: 0 <= j < i ==> regs[j].address != address
  }

  // A write fails for a register that is missing or refuses the value, and then changes nothing.
  lemma {:induction false} WriteFails(regs: File, address: int, value: uint16)
    ensures
      var (err, after) := Write(regs, address, value);
      var a := address % 0x1_0000;
      && (err == None <==> Takes(regs, a, value))
      && (err == Some(ExcIllegalAddress) <==> !Has(regs, a))
      && (err != None ==> after == regs && err.value in {ExcIllegalAddress, ExcIllegalValue})
      && (Read(regs, address) == Err(ExcIllegalAddress) <==> !Has(regs, a)) && (Read(regs, address).Err? <==> !Has(regs, a))
  {
    var a: uint16 := address % 0x1_0000;
    var i := Slot(regs, a);
    if i < |regs| {
      assert FirstAt(regs, i, a);
    }
  }

  ghost predicate HasValidator(regs: File, a: uint16) {
    exists i :: FirstAt(regs, i, a) && regs[i].validate.Some?
  }

  lemma {:induction false} SetCoilFails(regs: File, n: nat, value: bool)
    requires n < 0x10_0000
    ensures
      var (err, after) := SetCoil(regs, n, value);
      && (err == Some(ExcIllegalAddress) <==> !Has(regs, n / 16))
      && (err == Some(ExcIllegalValue) ==> HasValidator(regs, n / 16))
      && (err != None ==> after == regs && err.value in {ExcIllegalAddress, ExcIllegalValue})
  {
    hide Write, Read, HasValidator;
    WriteFails(regs, n / 16, 0);
    if Read(regs, n / 16).Ok? {
      var w := WithBit(Read(regs, n / 16).value, n % 16, value);
      WriteFails(regs, n / 16, w);
      if Write(regs, n / 16, w).0 == Some(ExcIllegalValue) {
        RefusedBy(regs, n / 16, w);
      }
    }
  }

  lemma {:induction false} RefusedBy(regs: File, a: uint16, w: uint16)
    requires Has(regs, a) && !Takes(regs, a, w)
    ensures HasValidator(regs, a)
  {
    var i := Slot(regs, a);
    assert FirstAt(regs, i, a);
  }
}
