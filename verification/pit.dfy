/** The PIT timer behind a Wishbone bridge. Every register access writes a
    command word to one 32-bit wire. The word holds the register address, the
    shifted data and the WE/CYCLE/STROBE/RESET control bits. A second, masked
    write then deasserts the handshake bits. A write to a field of the CTRL
    register first reads CTRL back so that the field's neighbours keep their
    values.

    Register layouts and endpoint bit positions are parameters. So are the
    values the bridge returns on its output wire. */
module Pit {
  import opened Results
  import opened Bits

  /** The largest count the 16-bit MOD register holds. */
  const CountDepth: nat := 0xffff

  /** The largest prescaler the driver accepts without complaint. */
  const MaxPrescaler: nat := 15

  /** The mask of a full write to the command wire. */
  const FullMask: nat := 0xffff_ffff

  /** A field of a Wishbone register: its address, lowest bit and width. */
  datatype Register = Register(address: nat, low: nat, width: nat)

  /** Bit positions on the command wire and the addresses of the two wires. */
  datatype Endpoints = Endpoints(addrLow: nat, we: nat, cycle: nat, strobe: nat, reset: nat,
                                 wireIn: nat, wireOut: nat)

  /** The four control bits are distinct bits of the 32-bit wire. */
  predicate ControlBitsDistinct(ep: Endpoints)
  {
    ep.we < 32 && ep.cycle < 32 && ep.strobe < 32 && ep.reset < 32 &&
    ep.we != ep.cycle && ep.we != ep.strobe && ep.we != ep.reset &&
    ep.cycle != ep.strobe && ep.cycle != ep.reset && ep.strobe != ep.reset
  }

  /** A wire write of the FPGA interface, or a read of an output wire. */
  datatype BusEvent = SetWire(address: nat, value: nat, mask: nat) | ReadWire(address: nat)

  /** The bus events of one access and the value it returns (0 for writes). */
  datatype Transaction = Transaction(events: seq<BusEvent>, data: nat)

  /** The value a 32-bit wire holds after a masked write: masked bits take the
      new value and the others keep the prior one. The FPGA interface is not
      part of this model, so this is the assumed meaning of its mask. */
  function WireAfter(prior: nat, value: nat, mask: nat): nat
  {
    Or(And(prior, Xor(mask, LowMask(32))), And(value, mask))
  }

  lemma WireAfterBit(prior: nat, value: nat, mask: nat, j: nat)
    requires j < 32
    ensures Bit(WireAfter(prior, value, mask), j) == if Bit(mask, j) then Bit(value, j) else Bit(prior, j)
  {
    BitOfOr(And(prior, Xor(mask, LowMask(32))), And(value, mask), j);
    BitOfAnd(prior, Xor(mask, LowMask(32)), j);
    BitOfAnd(value, mask, j);
    BitOfXor(mask, LowMask(32), j);
    BitOfLowMask(32, j);
  }

  /** The value of the wire at `address` after one bus event. */
  function WireStep(prior: nat, e: BusEvent, address: nat): nat
  {
    match e
    case SetWire(a, v, m) => if a == address then WireAfter(prior, v, m) else prior
    case ReadWire(_) => prior
  }

  /** The value of the wire at `address` after a sequence of bus events. */
  function Wire(prior: nat, events: seq<BusEvent>, address: nat): nat
    decreases |events|
  {
    if events == [] then prior
    else
      Wire(WireStep(prior, events[0], address), events[1..], address)
  }

  lemma {:induction false} WireAppend(prior: nat, a: seq<BusEvent>, b: seq<BusEvent>, address: nat)
    ensures Wire(prior, a + b, address) == Wire(Wire(prior, a, address), b, address)
    decreases |a|
  {
    if a == [] {
      assert a + b == b;
    } else {
      assert (a + b)[0] == a[0];
      assert (a + b)[1..] == a[1..] + b;
      WireAppend(WireStep(prior, a[0], address), a[1..], b, address);
    }
  }

  /** The control bits of a command: CYCLE, STROBE and RESET, plus WE for a write. */
  function Handshake(ep: Endpoints, write: bool): nat
  {
    var base := Or(Or(Pow2(ep.cycle), Pow2(ep.strobe)), Pow2(ep.reset));
    if write then Or(Pow2(ep.we), base) else base
  }

  lemma HandshakeBit(ep: Endpoints, write: bool, j: nat)
    ensures Bit(Handshake(ep, write), j) <==>
            j == ep.cycle || j == ep.strobe || j == ep.reset || (write && j == ep.we)
  {
    BitOfOr(Or(Pow2(ep.cycle), Pow2(ep.strobe)), Pow2(ep.reset), j);
    BitOfOr(Pow2(ep.cycle), Pow2(ep.strobe), j);
    BitOfPow2(ep.cycle, j);
    BitOfPow2(ep.strobe, j);
    BitOfPow2(ep.reset, j);
    if write {
      BitOfOr(Pow2(ep.we), Or(Or(Pow2(ep.cycle), Pow2(ep.strobe)), Pow2(ep.reset)), j);
      BitOfPow2(ep.we, j);
    }
  }

  /** The command word: address field, data bits and control bits. */
  function Command(reg: Register, ep: Endpoints, data: nat, write: bool): nat
  {
    Or(Or(Shl(reg.address, ep.addrLow), data), Handshake(ep, write))
  }

  lemma CommandBit(reg: Register, ep: Endpoints, data: nat, write: bool, j: nat)
    ensures Bit(Command(reg, ep, data, write), j) <==>
            Bit(Shl(reg.address, ep.addrLow), j) || Bit(data, j) ||
            j == ep.cycle || j == ep.strobe || j == ep.reset || (write && j == ep.we)
  {
    BitOfOr(Or(Shl(reg.address, ep.addrLow), data), Handshake(ep, write), j);
    BitOfOr(Shl(reg.address, ep.addrLow), data, j);
    HandshakeBit(ep, write, j);
  }

  /** The register address, shifted into its field, leaves the WE bit clear. */
  predicate AddressAvoidsWe(reg: Register, ep: Endpoints)
  {
    !Bit(Shl(reg.address, ep.addrLow), ep.we)
  }

  // ----- Reading -----

  /** A Wishbone read. `raw` is the value the output wire shows once the read
      command is on the bus. */
  function WbRead(reg: Register, ep: Endpoints, raw: nat): (t: Transaction)
    ensures t.data < Pow2(reg.width)
    ensures t.data == Shr(raw, reg.low) % Pow2(reg.width)
    ensures forall j: nat :: Bit(t.data, j) <==> j < reg.width && Bit(raw, reg.low + j)
    ensures |t.events| == 3 && t.events[1] == ReadWire(ep.wireOut)
  {
    var data := And(Shr(raw, reg.low), LowMask(reg.width));
    AndLowMask(Shr(raw, reg.low), reg.width);
    assert forall j: nat :: Bit(data, j) <==> j < reg.width && Bit(raw, reg.low + j) by {
      forall j: nat ensures Bit(data, j) <==> j < reg.width && Bit(raw, reg.low + j) {
        BitOfAnd(Shr(raw, reg.low), LowMask(reg.width), j);
        BitOfShr(raw, reg.low, j);
        BitOfLowMask(reg.width, j);
      }
    }
    Transaction([SetWire(ep.wireIn, Command(reg, ep, 0, false), FullMask),
                 ReadWire(ep.wireOut),
                 SetWire(ep.wireIn, 0, Or(Pow2(ep.cycle), Pow2(ep.strobe)))],
                data)
  }

  /** A full write of command `c` followed by a write of 0 under mask `m`:
      while the command is on the wire each bit is the command's, and after
      the clearing write exactly the bits of `m` are low. */
  lemma CommandThenClear(prior: nat, c: nat, m: nat, j: nat)
    requires j < 32
    ensures Bit(WireAfter(prior, c, FullMask), j) == Bit(c, j)
    ensures Bit(WireAfter(WireAfter(prior, c, FullMask), 0, m), j) == (!Bit(m, j) && Bit(c, j))
  {
    Pow2Values();
    assert LowMask(32) == FullMask;
    BitOfLowMask(32, j);
    WireAfterBit(prior, c, FullMask, j);
    WireAfterBit(WireAfter(prior, c, FullMask), 0, m, j);
    BitZero(j);
  }

  lemma WireSingle(prior: nat, e: BusEvent, address: nat)
    ensures Wire(prior, [e], address) == WireStep(prior, e, address)
  {
    assert [e][1..] == [];
  }

  /** The wire after some events, a full command write and a clearing write. */
  lemma WireOfAccess(prior: nat, head: seq<BusEvent>, wireIn: nat, c: nat, m: nat)
    ensures var events := head + [SetWire(wireIn, c, FullMask), SetWire(wireIn, 0, m)];
            var before := Wire(prior, head, wireIn);
            Wire(prior, events[..|events| - 1], wireIn) == WireAfter(before, c, FullMask) &&
            Wire(prior, events, wireIn) == WireAfter(WireAfter(before, c, FullMask), 0, m)
  {
    var a := SetWire(wireIn, c, FullMask);
    var b := SetWire(wireIn, 0, m);
    var events := head + [a, b];
    assert events[..|events| - 1] == head + [a];
    assert events == (head + [a]) + [b];
    WireAppend(prior, head, [a], wireIn);
    WireAppend(prior, head + [a], [b], wireIn);
    WireSingle(Wire(prior, head, wireIn), a, wireIn);
    WireSingle(Wire(prior, head + [a], wireIn), b, wireIn);
  }

  lemma MaskOfTwo(a: nat, b: nat, j: nat)
    ensures Bit(Or(Pow2(a), Pow2(b)), j) <==> j == a || j == b
  {
    BitOfOr(Pow2(a), Pow2(b), j);
    BitOfPow2(a, j);
    BitOfPow2(b, j);
  }

  lemma MaskOfThree(a: nat, b: nat, c: nat, j: nat)
    ensures Bit(Or(Or(Pow2(a), Pow2(b)), Pow2(c)), j) <==> j == a || j == b || j == c
  {
    BitOfOr(Or(Pow2(a), Pow2(b)), Pow2(c), j);
    MaskOfTwo(a, b, j);
    BitOfPow2(c, j);
  }

  /** A read puts CYCLE, STROBE and RESET on the wire with WE low, then clears
      only CYCLE and STROBE: RESET stays asserted and WE stays low. */
  lemma WbReadHandshake(reg: Register, ep: Endpoints, raw: nat, prior: nat)
    requires ControlBitsDistinct(ep) && AddressAvoidsWe(reg, ep)
    ensures var t := WbRead(reg, ep, raw);
            var during := Wire(prior, t.events[..2], ep.wireIn);
            var after := Wire(prior, t.events, ep.wireIn);
            Bit(during, ep.cycle) && Bit(during, ep.strobe) && Bit(during, ep.reset) && !Bit(during, ep.we) &&
            !Bit(after, ep.cycle) && !Bit(after, ep.strobe) && Bit(after, ep.reset) && !Bit(after, ep.we) &&
            forall j: nat :: j < 32 && j != ep.cycle && j != ep.strobe ==> Bit(after, j) == Bit(during, j)
  {
    var t := WbRead(reg, ep, raw);
    var c := Command(reg, ep, 0, false);
    var m := Or(Pow2(ep.cycle), Pow2(ep.strobe));
    var a := SetWire(ep.wireIn, c, FullMask);
    var events := [a, ReadWire(ep.wireOut), SetWire(ep.wireIn, 0, m)];
    assert t.events == events;
    assert events[..2] == [a] + [ReadWire(ep.wireOut)];
    WireAppend(prior, [a], [ReadWire(ep.wireOut)], ep.wireIn);
    WireSingle(prior, a, ep.wireIn);
    WireSingle(WireAfter(prior, c, FullMask), ReadWire(ep.wireOut), ep.wireIn);
    var during := WireAfter(prior, c, FullMask);
    assert Wire(prior, events[..2], ep.wireIn) == during;
    assert events == events[..2] + [SetWire(ep.wireIn, 0, m)];
    WireAppend(prior, events[..2], [SetWire(ep.wireIn, 0, m)], ep.wireIn);
    WireSingle(during, SetWire(ep.wireIn, 0, m), ep.wireIn);
    var after := WireAfter(during, 0, m);
    assert Wire(prior, events, ep.wireIn) == after;
    forall j: nat | j < 32 && j != ep.cycle && j != ep.strobe
      ensures Bit(after, j) == Bit(during, j)
    {
      CommandThenClear(prior, c, m, j);
      MaskOfTwo(ep.cycle, ep.strobe, j);
    }
    CommandThenClear(prior, c, m, ep.cycle);
    CommandThenClear(prior, c, m, ep.strobe);
    CommandThenClear(prior, c, m, ep.reset);
    CommandThenClear(prior, c, m, ep.we);
    MaskOfTwo(ep.cycle, ep.strobe, ep.cycle);
    MaskOfTwo(ep.cycle, ep.strobe, ep.strobe);
    MaskOfTwo(ep.cycle, ep.strobe, ep.reset);
    CommandBit(reg, ep, 0, false, ep.cycle);
    CommandBit(reg, ep, 0, false, ep.strobe);
    CommandBit(reg, ep, 0, false, ep.reset);
    CommandBit(reg, ep, 0, false, ep.we);
    BitZero(ep.we);
  }

  // ----- Writing -----

  /** The mask of the bits of a 16-bit register outside the field `reg`. */
  function OutsideField(reg: Register): nat
  {
    Xor(Shl(LowMask(reg.width), reg.low), LowMask(16))
  }

  /** The data bits of a write command. The data is cut to 16 bits, not to the
      field's width, and shifted to the field. For a field at the CTRL address
      the current CTRL value supplies every other bit of the 16-bit register.
      `raw` is the output wire's value during that read-back. */
  function WriteData(reg: Register, ctrl: Register, ep: Endpoints, data: nat, raw: nat): nat
  {
    var shifted := Shl(And(data, LowMask(16)), reg.low);
    if reg.address == ctrl.address then Or(shifted, And(WbRead(ctrl, ep, raw).data, OutsideField(reg)))
    else shifted
  }

  /** A Wishbone write. It reads CTRL back first when the field lives there. */
  function WbWrite(reg: Register, ctrl: Register, ep: Endpoints, data: nat, raw: nat): (t: Transaction)
    ensures t.data == 0
    ensures |t.events| == if reg.address == ctrl.address then 5 else 2
    ensures reg.address == ctrl.address ==> t.events[..3] == WbRead(ctrl, ep, raw).events
  {
    var readBack := if reg.address == ctrl.address then WbRead(ctrl, ep, raw).events else [];
    var command := Command(reg, ep, WriteData(reg, ctrl, ep, data, raw), true);
    Transaction(readBack + [SetWire(ep.wireIn, command, FullMask),
                            SetWire(ep.wireIn, 0, Or(Or(Pow2(ep.we), Pow2(ep.cycle)), Pow2(ep.strobe)))],
                0)
  }

  /** A write puts WE, CYCLE, STROBE and RESET on the wire with its command,
      then clears exactly WE, CYCLE and STROBE: RESET stays asserted and every
      other bit keeps its value. */
  lemma WbWriteHandshake(reg: Register, ctrl: Register, ep: Endpoints, data: nat, raw: nat, prior: nat)
    requires ControlBitsDistinct(ep)
    ensures var t := WbWrite(reg, ctrl, ep, data, raw);
            var during := Wire(prior, t.events[..|t.events| - 1], ep.wireIn);
            var after := Wire(prior, t.events, ep.wireIn);
            Bit(during, ep.we) && Bit(during, ep.cycle) && Bit(during, ep.strobe) && Bit(during, ep.reset) &&
            !Bit(after, ep.we) && !Bit(after, ep.cycle) && !Bit(after, ep.strobe) && Bit(after, ep.reset) &&
            forall j: nat :: j < 32 && j != ep.we && j != ep.cycle && j != ep.strobe ==>
              Bit(after, j) == Bit(during, j)
  {
    var t := WbWrite(reg, ctrl, ep, data, raw);
    var head := if reg.address == ctrl.address then WbRead(ctrl, ep, raw).events else [];
    var d := WriteData(reg, ctrl, ep, data, raw);
    var c := Command(reg, ep, d, true);
    var m := Or(Or(Pow2(ep.we), Pow2(ep.cycle)), Pow2(ep.strobe));
    assert t.events == head + [SetWire(ep.wireIn, c, FullMask), SetWire(ep.wireIn, 0, m)];
    WireOfAccess(prior, head, ep.wireIn, c, m);
    var before := Wire(prior, head, ep.wireIn);
    forall j: nat | j < 32 && j != ep.we && j != ep.cycle && j != ep.strobe
      ensures Bit(WireAfter(WireAfter(before, c, FullMask), 0, m), j) == Bit(WireAfter(before, c, FullMask), j)
    {
      CommandThenClear(before, c, m, j);
      MaskOfThree(ep.we, ep.cycle, ep.strobe, j);
    }
    CommandThenClear(before, c, m, ep.we);
    CommandThenClear(before, c, m, ep.cycle);
    CommandThenClear(before, c, m, ep.strobe);
    CommandThenClear(before, c, m, ep.reset);
    MaskOfThree(ep.we, ep.cycle, ep.strobe, ep.we);
    MaskOfThree(ep.we, ep.cycle, ep.strobe, ep.cycle);
    MaskOfThree(ep.we, ep.cycle, ep.strobe, ep.strobe);
    MaskOfThree(ep.we, ep.cycle, ep.strobe, ep.reset);
    CommandBit(reg, ep, d, true, ep.we);
    CommandBit(reg, ep, d, true, ep.cycle);
    CommandBit(reg, ep, d, true, ep.strobe);
    CommandBit(reg, ep, d, true, ep.reset);
  }

  /** A field write that fits its field changes only that field of the 16-bit
      register. Inside the field the data bits land; every other bit of a CTRL
      write keeps the value just read back; nothing lands above bit 15. */
  lemma {:induction false} FieldWriteKeepsNeighbours(reg: Register, ctrl: Register, ep: Endpoints, data: nat, raw: nat, j: nat)
    requires reg.low + reg.width <= 16 && data < Pow2(reg.width)
    ensures var d := WriteData(reg, ctrl, ep, data, raw);
            var current := WbRead(ctrl, ep, raw).data;
            if reg.low <= j < reg.low + reg.width then Bit(d, j) == Bit(data, j - reg.low)
            else if j < 16 then Bit(d, j) == (reg.address == ctrl.address && Bit(current, j))
            else !Bit(d, j)
  {
    var current := WbRead(ctrl, ep, raw).data;
    var shifted := Shl(And(data, LowMask(16)), reg.low);
    ShiftedDataBit(data, reg.width, reg.low, j);
    OutsideFieldBit(reg, j);
    BitOfOr(shifted, And(current, OutsideField(reg)), j);
    BitOfAnd(current, OutsideField(reg), j);
  }

  /** Bit `j` of the data cut to 16 bits and shifted into a field that fits
      in 16 bits. */
  lemma ShiftedDataBit(data: nat, width: nat, low: nat, j: nat)
    requires low + width <= 16 && data < Pow2(width)
    ensures Bit(Shl(And(data, LowMask(16)), low), j) == (low <= j < low + width && Bit(data, j - low))
  {
    var cut := And(data, LowMask(16));
    BitOfShl(cut, low, j);
    if j >= low {
      var i := j - low;
      BitOfAnd(data, LowMask(16), i);
      if i < width {
        BitOfLowMask(16, i);
        assert Bit(cut, i) == Bit(data, i);
      } else {
        BitAbove(data, width, i);
        assert !Bit(cut, i);
      }
    }
  }

  /** The mask of the register bits outside a field: bit `j` is set when
      `j < 16` and `j` is not in the field. */
  lemma OutsideFieldBit(reg: Register, j: nat)
    requires reg.low + reg.width <= 16
    ensures Bit(OutsideField(reg), j) == (j < 16 && !(reg.low <= j < reg.low + reg.width))
  {
    BitOfXor(Shl(LowMask(reg.width), reg.low), LowMask(16), j);
    BitOfShl(LowMask(reg.width), reg.low, j);
    if j >= reg.low {
      BitOfLowMask(reg.width, j - reg.low);
    }
    BitOfLowMask(16, j);
  }

  /** The data is cut to 16 bits rather than to the field's width. A value
      with a bit at or above the field width, but still inside the 16-bit
      register, sets the neighbouring register bit whatever CTRL held. */
  lemma {:induction false} WideDataSpills(reg: Register, ctrl: Register, ep: Endpoints, data: nat, raw: nat, k: nat)
    requires reg.width <= k && reg.low + k < 16 && Bit(data, k)
    ensures Bit(WriteData(reg, ctrl, ep, data, raw), reg.low + k)
    ensures !(reg.low <= reg.low + k < reg.low + reg.width)
  {
    var cut := And(data, LowMask(16));
    var shifted := Shl(cut, reg.low);
    BitOfAnd(data, LowMask(16), k);
    BitOfLowMask(16, k);
    assert Bit(cut, k);
    BitOfShl(cut, reg.low, reg.low + k);
    assert (reg.low + k) - reg.low == k;
    assert Bit(shifted, reg.low + k);
    if reg.address == ctrl.address {
      BitOfOr(shifted, And(WbRead(ctrl, ep, raw).data, OutsideField(reg)), reg.low + k);
    }
  }

  /** When the address field and the control bits lie above bit 15, the low
      16 bits of the command word are exactly the write data. */
  lemma {:induction false} CommandCarriesData(reg: Register, ctrl: Register, ep: Endpoints, data: nat, raw: nat)
    requires ep.addrLow >= 16 && ep.we >= 16 && ep.cycle >= 16 && ep.strobe >= 16 && ep.reset >= 16
    ensures var d := WriteData(reg, ctrl, ep, data, raw);
            Command(reg, ep, d, true) % Pow2(16) == d % Pow2(16)
  {
    var d := WriteData(reg, ctrl, ep, data, raw);
    forall j: nat | j < 16
      ensures Bit(Command(reg, ep, d, true), j) == Bit(d, j)
    {
      CommandBit(reg, ep, d, true, j);
      BitOfShl(reg.address, ep.addrLow, j);
    }
    ModFromBits(Command(reg, ep, d, true), d, 16);
  }

  // ----- Reset -----

  /** The active-low PIT reset: RESET driven to 0 under a one-bit mask. */
  function Reset(ep: Endpoints): (events: seq<BusEvent>)
    ensures |events| == 1 && events[0].SetWire? && events[0].address == ep.wireIn
  {
    [SetWire(ep.wireIn, 0, Pow2(ep.reset))]
  }

  /** Releases the reset: RESET driven to 1 under a one-bit mask. */
  function ResetClear(ep: Endpoints): (events: seq<BusEvent>)
    ensures |events| == 1 && events[0].SetWire? && events[0].address == ep.wireIn
  {
    [SetWire(ep.wireIn, Pow2(ep.reset), Pow2(ep.reset))]
  }

  /** `Reset` drives RESET low and `ResetClear` drives it high; neither
      touches any other bit of the wire. */
  lemma ResetTouchesOnlyReset(ep: Endpoints, prior: nat, j: nat)
    requires ep.reset < 32 && j < 32
    ensures Bit(Wire(prior, Reset(ep), ep.wireIn), j) == if j == ep.reset then false else Bit(prior, j)
    ensures Bit(Wire(prior, ResetClear(ep), ep.wireIn), j) == if j == ep.reset then true else Bit(prior, j)
  {
    assert Wire(prior, Reset(ep), ep.wireIn) == WireAfter(prior, 0, Pow2(ep.reset));
    assert Wire(prior, ResetClear(ep), ep.wireIn) == WireAfter(prior, Pow2(ep.reset), Pow2(ep.reset));
    WireAfterBit(prior, 0, Pow2(ep.reset), j);
    WireAfterBit(prior, Pow2(ep.reset), Pow2(ep.reset), j);
    BitOfPow2(ep.reset, j);
    BitZero(j);
  }

  // ----- Period -----

  /** `p` is the smallest power-of-two prescaler that brings `ticks` within
      the MOD register: ticks <= 65535 * 2^p, and p - 1 would not do. */
  predicate IsPrescaler(ticks: nat, p: nat)
  {
    ticks <= CountDepth * Pow2(p) && (p == 0 || ticks > CountDepth * Pow2(p - 1))
  }

  /** There is exactly one prescaler for each tick count. */
  lemma PrescalerUnique(ticks: nat, p: nat, q: nat)
    requires IsPrescaler(ticks, p) && IsPrescaler(ticks, q)
    ensures p == q
  {
    if p < q {
      Pow2Monotone(p, q - 1);
      MulMonotone(CountDepth, Pow2(p), Pow2(q - 1));
    } else if q < p {
      Pow2Monotone(q, p - 1);
      MulMonotone(CountDepth, Pow2(q), Pow2(p - 1));
    }
  }

  /** The prescaler for a tick count: the ceiling of log2(ticks / 65535),
      and 0 for counts below 65535. */
  method ChoosePrescaler(ticks: nat) returns (p: nat)
    ensures IsPrescaler(ticks, p)
    ensures ticks < CountDepth ==> p == 0
  {
    p := 0;
    while ticks > CountDepth * Pow2(p)
      invariant p == 0 || ticks > CountDepth * Pow2(p - 1)
      invariant Pow2(p) <= ticks + 1
      decreases ticks + 1 - Pow2(p)
    {
      p := p + 1;
      assert Pow2(p) == 2 * Pow2(p - 1);
    }
  }

  /** The registers `set_period` writes. */
  datatype PeriodRegisters = PeriodRegisters(ctrl: Register, cntEn: Register, mod: Register, prescaler: Register)

  /** One register write of a sequence. */
  datatype Write = Write(reg: Register, data: nat)

  /** The bus events of a sequence of writes; `raws` supplies the output
      wire's value for each write's CTRL read-back. */
  function WriteEvents(ctrl: Register, ep: Endpoints, writes: seq<Write>, raws: seq<nat>): (events: seq<BusEvent>)
    requires |raws| == |writes|
    ensures writes == [] ==> events == []
    decreases |writes|
  {
    if writes == [] then []
    else WbWrite(writes[0].reg, ctrl, ep, writes[0].data, raws[0]).events
         + WriteEvents(ctrl, ep, writes[1..], raws[1..])
  }

  lemma FourWrites(ctrl: Register, ep: Endpoints, w: seq<Write>, raws: seq<nat>)
    requires |w| == 4 && |raws| == 4
    ensures WriteEvents(ctrl, ep, w, raws)
            == WbWrite(w[0].reg, ctrl, ep, w[0].data, raws[0]).events
               + WbWrite(w[1].reg, ctrl, ep, w[1].data, raws[1]).events
               + WbWrite(w[2].reg, ctrl, ep, w[2].data, raws[2]).events
               + WbWrite(w[3].reg, ctrl, ep, w[3].data, raws[3]).events
  {
    var e0 := WbWrite(w[0].reg, ctrl, ep, w[0].data, raws[0]).events;
    var e1 := WbWrite(w[1].reg, ctrl, ep, w[1].data, raws[1]).events;
    var e2 := WbWrite(w[2].reg, ctrl, ep, w[2].data, raws[2]).events;
    var e3 := WbWrite(w[3].reg, ctrl, ep, w[3].data, raws[3]).events;
    WriteEventsUnfold(ctrl, ep, w, raws);
    WriteEventsUnfold(ctrl, ep, w[1..], raws[1..]);
    WriteEventsUnfold(ctrl, ep, w[2..], raws[2..]);
    WriteEventsUnfold(ctrl, ep, w[3..], raws[3..]);
    assert w[1..][1..] == w[2..] && raws[1..][1..] == raws[2..];
    assert w[2..][1..] == w[3..] && raws[2..][1..] == raws[3..];
    assert w[3..][1..] == [] && raws[3..][1..] == [];
    assert e3 + [] == e3;
    Concat4(e0, e1, e2, e3);
  }

  lemma Concat4<T>(a: seq<T>, b: seq<T>, c: seq<T>, d: seq<T>)
    ensures a + (b + (c + d)) == a + b + c + d
  {
  }

  lemma WriteEventsUnfold(ctrl: Register, ep: Endpoints, w: seq<Write>, raws: seq<nat>)
    requires |w| == |raws| > 0
    ensures WriteEvents(ctrl, ep, w, raws)
            == WbWrite(w[0].reg, ctrl, ep, w[0].data, raws[0]).events + WriteEvents(ctrl, ep, w[1..], raws[1..])
  {
  }

  /** What `set_period` decides and does. */
  datatype Period = Period(prescaler: nat, count: nat, tooLarge: bool, writes: seq<Write>, events: seq<BusEvent>)

  /** Sets the timer period from a tick count (the period times the 200 MHz
      Wishbone clock). The timer is stopped, MOD and PRE_SCALR are written
      and the timer is started again. A prescaler above 15 is flagged and
      written all the same. */
  method SetPeriod(regs: PeriodRegisters, ep: Endpoints, ticks: nat, raws: seq<nat>) returns (r: Period)
    requires |raws| == 4
    ensures IsPrescaler(ticks, r.prescaler)
    ensures ticks < CountDepth ==> r.prescaler == 0 && r.count == ticks
    ensures r.count == ticks / Pow2(r.prescaler) && r.count <= CountDepth
    ensures r.tooLarge <==> r.prescaler > MaxPrescaler
    ensures r.writes == [Write(regs.cntEn, 0), Write(regs.mod, r.count),
                         Write(regs.prescaler, r.prescaler), Write(regs.cntEn, 1)]
    ensures r.events == WriteEvents(regs.ctrl, ep, r.writes, raws)
    ensures r.events == Stop(regs.ctrl, regs.cntEn, ep, raws[0]).events
                        + WbWrite(regs.mod, regs.ctrl, ep, r.count, raws[1]).events
                        + WbWrite(regs.prescaler, regs.ctrl, ep, r.prescaler, raws[2]).events
                        + Start(regs.ctrl, regs.cntEn, ep, raws[3]).events
  {
    var p := ChoosePrescaler(ticks);
    var count := ticks / Pow2(p);
    CountFits(ticks, p);
    if ticks < CountDepth {
      assert Pow2(0) == 1;
    }
    var writes := [Write(regs.cntEn, 0), Write(regs.mod, count), Write(regs.prescaler, p), Write(regs.cntEn, 1)];
    FourWrites(regs.ctrl, ep, writes, raws);
    r := Period(p, count, p > MaxPrescaler, writes, WriteEvents(regs.ctrl, ep, writes, raws));
  }

  /** With a valid prescaler the count fits the 16-bit MOD register. */
  lemma CountFits(ticks: nat, p: nat)
    requires IsPrescaler(ticks, p)
    ensures ticks / Pow2(p) <= CountDepth
  {
    var d := Pow2(p);
    FloorDivBound(CountDepth + 1, ticks, d);
    assert (CountDepth + 1) * d == CountDepth * d + d;
  }

  /** The programmed period `count * 2^p` is at most `ticks` and falls short
      by less than one prescaler step; with a prescaler the count uses at
      least the upper half of the 16-bit range. */
  lemma {:induction false} PeriodAccuracy(ticks: nat, p: nat)
    requires IsPrescaler(ticks, p)
    ensures var count := ticks / Pow2(p);
            count * Pow2(p) <= ticks < (count + 1) * Pow2(p) &&
            (p > 0 ==> count >= CountDepth / 2)
  {
    var count := ticks / Pow2(p);
    DivModUnique(ticks, Pow2(p), count, ticks % Pow2(p));
    if p > 0 {
      assert Pow2(p) == 2 * Pow2(p - 1);
      FloorDivBound(CountDepth / 2, ticks, Pow2(p));
    }
  }

  /** The prescaler stays within 15 exactly for tick counts up to
      65535 * 2^15, about 10.7 seconds of the 200 MHz clock. */
  lemma PrescalerLimit(ticks: nat, p: nat)
    requires IsPrescaler(ticks, p)
    ensures p <= MaxPrescaler <==> ticks <= CountDepth * Pow2(MaxPrescaler)
  {
    if p <= MaxPrescaler {
      Pow2Monotone(p, MaxPrescaler);
      MulMonotone(CountDepth, Pow2(p), Pow2(MaxPrescaler));
    } else {
      Pow2Monotone(MaxPrescaler, p - 1);
      MulMonotone(CountDepth, Pow2(MaxPrescaler), Pow2(p - 1));
    }
  }

  /** Stops the counter: CNT_EN written to 0. */
  function Stop(ctrl: Register, cntEn: Register, ep: Endpoints, raw: nat): Transaction
  {
    WbWrite(cntEn, ctrl, ep, 0, raw)
  }

  /** Starts the counter: CNT_EN written to 1. */
  function Start(ctrl: Register, cntEn: Register, ep: Endpoints, raw: nat): Transaction
  {
    WbWrite(cntEn, ctrl, ep, 1, raw)
  }

  /** Stop writes 0 and Start writes 1 into the CNT_EN field, and both keep
      every other bit of the 16-bit register they share with CTRL. */
  lemma StopStartEnable(ctrl: Register, cntEn: Register, ep: Endpoints, raw: nat, j: nat)
    requires cntEn.low + cntEn.width <= 16 && cntEn.width >= 1
    ensures Stop(ctrl, cntEn, ep, raw) == WbWrite(cntEn, ctrl, ep, 0, raw)
    ensures Start(ctrl, cntEn, ep, raw) == WbWrite(cntEn, ctrl, ep, 1, raw)
    ensures !Bit(WriteData(cntEn, ctrl, ep, 0, raw), cntEn.low)
    ensures Bit(WriteData(cntEn, ctrl, ep, 1, raw), cntEn.low)
    ensures j < 16 && !(cntEn.low <= j < cntEn.low + cntEn.width) ==>
      var current := WbRead(ctrl, ep, raw).data;
      Bit(WriteData(cntEn, ctrl, ep, 0, raw), j) == (cntEn.address == ctrl.address && Bit(current, j)) &&
      Bit(WriteData(cntEn, ctrl, ep, 1, raw), j) == (cntEn.address == ctrl.address && Bit(current, j))
  {
    Pow2Monotone(1, cntEn.width);
    assert Pow2(1) == 2;
    FieldWriteKeepsNeighbours(cntEn, ctrl, ep, 0, raw, cntEn.low);
    FieldWriteKeepsNeighbours(cntEn, ctrl, ep, 1, raw, cntEn.low);
    FieldWriteKeepsNeighbours(cntEn, ctrl, ep, 0, raw, j);
    FieldWriteKeepsNeighbours(cntEn, ctrl, ep, 1, raw, j);
    BitZero(0);
  }

  // ----- Instances -----

  /** The chip-count argument: an int, or some other Python value. */
  datatype ChipCount = IntCount(n: int) | OtherValue

  /** One PIT instance: its position, which fixes how far its endpoints are
      advanced from the first chip's, and its CTRL configuration (None for
      the register's default). */
  datatype Chip = Chip(index: nat, masterConfig: Option<nat>)

  /** Creates `n` chips, the i-th with endpoints advanced i times. A count
      that is not a positive int is refused. */
  function CreateChips(count: ChipCount, masterConfig: Option<nat>): (r: Option<seq<Chip>>)
    ensures r.None? <==> !count.IntCount? || count.n <= 0
    ensures r.Some? ==> |r.value| == count.n &&
                        forall i :: 0 <= i < |r.value| ==> r.value[i] == Chip(i, masterConfig)
  {
    match count
    case OtherValue => None
    case IntCount(n) =>
      if n <= 0 then None
      else Some(seq(n, i requires 0 <= i => Chip(i, masterConfig)))
  }
}
