/**
  The MCP23017 port expander and its driver. The chip answers to two address maps selected by IOCON.BANK
  (section 3.5.6 of Microchip DS20001952); the driver keeps shadows of the direction and latch registers so
  that it can change single pins without reading.
 */
module Mcp23017 {
  import opened Bits

  // ----- The chip

  // Register numbers within one port; the BANK = 0 address of register `r` of port `p` is `2 * r + p`.
  const IODIR := 0
  const IPOL := 1
  const IOCON := 5
  const GPPU := 6
  const INTF := 7
  const INTCAP := 8
  const GPIO := 9
  const OLAT := 10
  const REGISTERS := 11

  datatype Port = A | B

  function Slot(port: Port, reg: nat): nat {
    if port == A then reg else REGISTERS + reg
  }

  /** `regs` holds the registers of port A, then those of port B; `bank` is IOCON bit 7. */
  datatype Chip = Chip(bank: bool, regs: seq<bv8>) {
    predicate Valid() {
      |regs| == 2 * REGISTERS
    }

    function Reg(port: Port, reg: nat): bv8
      requires |regs| == 2 * REGISTERS && reg < REGISTERS
    {
      regs[Slot(port, reg)]
    }
  }

  datatype Target = NoRegister | Register(port: Port, reg: nat)

  /** Which register an address selects: alternating ports with BANK = 0, separate blocks with BANK = 1. */
  function Decode(bank: bool, addr: nat): (t: Target)
    ensures t.Register? ==> t.reg < REGISTERS
  {
    if !bank then
      if addr < 2 * REGISTERS then Register(if addr % 2 == 0 then A else B, addr / 2) else NoRegister
    else if addr < REGISTERS then Register(A, addr)
    else if 0x10 <= addr < 0x10 + REGISTERS then Register(B, addr - 0x10)
    else NoRegister
  }

  /**
    One byte written to the chip. IOCON is one register with two addresses and switches the map; a write to
    GPIO goes to the latch; the interrupt flag and capture registers are read-only.
   */
  function Written(c: Chip, addr: nat, data: bv8): (r: Chip)
    requires c.Valid()
    ensures r.Valid()
  {
    match Decode(c.bank, addr)
    case NoRegister => c
    case Register(port, reg) =>
      if reg == IOCON then
        Chip(data & 0x80 != 0, c.regs[Slot(A, IOCON) := data][Slot(B, IOCON) := data])
      else if reg == GPIO then c.(regs := c.regs[Slot(port, OLAT) := data])
      else if reg == INTF || reg == INTCAP then c
      else c.(regs := c.regs[Slot(port, reg) := data])
  }

  // ----- The driver

  datatype Status = Ok | InvalidArg | InvalidState | BusError(code: int)

  /**
    How a register write ends: acknowledged; refused with the chip untouched; or latched by the chip with the
    driver told that it failed.
   */
  datatype Outcome = Acked | Refused(code: int) | Lost(code: int)

  function WriteStatus(o: Outcome): Status {
    match o
    case Acked => Ok
    case Refused(code) => BusError(code)
    case Lost(code) => BusError(code)
  }

  function WriteEffect(c: Chip, addr: nat, data: bv8, o: Outcome): (r: Chip)
    requires c.Valid()
    ensures r.Valid()
  {
    if o.Refused? then c else Written(c, addr, data)
  }

  /** `mcp23017_t`: the ready flag and the four shadows. */
  datatype Shadow = Shadow(ready: bool, dirA: bv8, dirB: bv8, olatA: bv8, olatB: bv8) {
    function Of(port: Port, reg: nat): bv8 {
      if reg == OLAT then (if port == A then olatA else olatB) else (if port == A then dirA else dirB)
    }

    function With(port: Port, reg: nat, v: bv8): Shadow {
      if reg == OLAT then
        if port == A then this.(olatA := v) else this.(olatB := v)
      else
        if port == A then this.(dirA := v) else this.(dirB := v)
    }
  }

  /** `mcp23017_config_t` */
  datatype Config = Config(address: nat, dirA: bv8, dirB: bv8, pullupA: bv8, pullupB: bv8)

  datatype System = System(dev: Shadow, chip: Chip)

  /** The address the driver uses for a register: always that of the BANK = 0 map. */
  function Address(port: Port, reg: nat): nat {
    2 * reg + if port == A then 0 else 1
  }

  /** Port-level writes: the chip first, the shadow only when the write was confirmed. */
  function PortWritten(s: System, port: Port, reg: nat, v: bv8, o: Outcome): (r: (System, Status))
    requires s.chip.Valid()
    ensures r.0.chip.Valid()
  {
    if !s.dev.ready then (s, InvalidState)
    else
      var chip := WriteEffect(s.chip, Address(port, reg), v, o);
      var dev := if o.Acked? && (reg == IODIR || reg == OLAT) then s.dev.With(port, reg, v) else s.dev;
      (System(dev, chip), WriteStatus(o))
  }

  /** Pin-level writes: the shadow first, then the whole shadow byte to the chip. */
  function PinWritten(s: System, port: Port, reg: nat, pin: nat, v: bool, o: Outcome): (r: (System, Status))
    requires s.chip.Valid()
    ensures r.0.chip.Valid()
  {
    if !s.dev.ready then (s, InvalidState)
    else if pin > 7 then (s, InvalidArg)
    else
      var dev := s.dev.With(port, reg, PutBit(s.dev.Of(port, reg), pin, v));
      (System(dev, WriteEffect(s.chip, Address(port, reg), dev.Of(port, reg), o)), WriteStatus(o))
  }

  /** The eight writes of `mcp23017_init`: both places where IOCON may answer, then the configuration. */
  function InitWrites(cfg: Config): seq<(nat, bv8)> {
    [(0x05, 0x00), (Address(A, IOCON), 0x00),
     (Address(A, IODIR), cfg.dirA), (Address(B, IODIR), cfg.dirB),
     (Address(A, GPPU), cfg.pullupA), (Address(B, GPPU), cfg.pullupB),
     (Address(A, OLAT), 0x00), (Address(B, OLAT), 0x00)]
  }

  /** Writes in order until one is reported as failed. */
  function WrittenAll(c: Chip, w: seq<(nat, bv8)>, o: nat -> Outcome, i: nat): (r: (Chip, Status))
    requires c.Valid()
    ensures r.0.Valid()
    decreases |w| - i
  {
    if i >= |w| then (c, Ok)
    else
      var next := WriteEffect(c, w[i].0, w[i].1, o(i));
      if o(i).Acked? then WrittenAll(next, w, o, i + 1) else (next, WriteStatus(o(i)))
  }

  /** `mcp23017_init`, given how registering on the bus ended. */
  function Initialized(s: System, cfg: Config, registered: Status, o: nat -> Outcome): (r: (System, Status))
    requires s.chip.Valid()
    ensures r.0.chip.Valid()
  {
    if cfg.address < 0x20 || cfg.address > 0x27 then (s, InvalidArg)
    else if registered != Ok then (s.(dev := s.dev.(ready := false)), registered)
    else
      var (chip, st) := WrittenAll(s.chip, InitWrites(cfg), o, 0);
      if st == Ok then (System(Shadow(true, cfg.dirA, cfg.dirB, 0x00, 0x00), chip), Ok)
      else (System(s.dev.(ready := false), chip), st)
  }

  /** Setting or clearing one pin of a shadow byte. */
  method WithPin(byte: bv8, pin: nat, on: bool) returns (shadow: bv8)
    requires pin < 8
    ensures shadow == PutBit(byte, pin, on)
  {
    shadow := byte;
    if on {
      shadow := shadow | Mask(pin);
    } else {
      shadow := shadow & !Mask(pin);
    }
  }

  method PinOf(raw: bv8, pin: nat) returns (value: bool)
    requires pin < 8
    ensures value == Bit(raw, pin)
  {
    value := raw & Mask(pin) != 0;
  }

  lemma MaskIsSingle(k: nat, b: bv8)
    requires k < 8
    ensures b & Mask(k) == 0 || b & Mask(k) == Mask(k)
  {
  }

  lemma SingleBitToggle(b: bv8, m: bv8)
    ensures b & m == 0 ==> b ^ m == b | m
    ensures b & m == m ==> b ^ m == b & !m
  {
  }

  lemma ToggleIsPut(b: bv8, k: nat)
    requires k < 8
    ensures b ^ Mask(k) == PutBit(b, k, !Bit(b, k))
  {
    hide Mask;
    SingleBitToggle(b, Mask(k));
    MaskIsSingle(k, b);
  }

  class Driver {
    var isInitialized: bool
    var dirA: bv8
    var dirB: bv8
    var olatA: bv8
    var olatB: bv8
    /** The chip on the other end of the bus. */
    var chip: Chip

    ghost predicate Valid()
      reads this
    {
      chip.Valid()
    }

    ghost function State(): System
      reads this
    {
      System(Shadow(isInitialized, dirA, dirB, olatA, olatB), chip)
    }

    constructor (chip: Chip)
      requires chip.Valid()
      ensures Valid() && State() == System(Shadow(false, 0, 0, 0, 0), chip)
    {
      isInitialized := false;
      dirA, dirB, olatA, olatB := 0, 0, 0, 0;
      this.chip := chip;
    }

    /** `_mcp23017_write_reg` */
    method WriteReg(addr: nat, data: bv8, o: Outcome) returns (ret: Status)
      requires Valid()
      modifies this`chip
      ensures Valid() && chip == WriteEffect(old(chip), addr, data, o) && ret == WriteStatus(o)
    {
      chip := WriteEffect(chip, addr, data, o);
      ret := WriteStatus(o);
    }

    /** The hardware sequence of `mcp23017_init`; every write is checked before the next. */
    method WriteConfiguration(cfg: Config, o: nat -> Outcome) returns (ret: Status)
      requires Valid()
      modifies this`chip
      ensures Valid() && (chip, ret) == WrittenAll(old(chip), InitWrites(cfg), o, 0)
    {
      hide WriteEffect;
      var w := InitWrites(cfg);
      for i := 0 to |w|
        invariant Valid() && WrittenAll(chip, w, o, i) == WrittenAll(old(chip), w, o, 0)
      {
        ret := WriteReg(w[i].0, w[i].1, o(i));
        if ret != Ok {
          return;
        }
      }
      ret := Ok;
    }

    /** `mcp23017_init` */
    method Init(cfg: Config, registered: Status, o: nat -> Outcome) returns (ret: Status)
      requires Valid()
      modifies this
      ensures Valid() && (State(), ret) == Initialized(old(State()), cfg, registered, o)
    {
      hide WriteEffect;
      if cfg.address < 0x20 || cfg.address > 0x27 {
        return InvalidArg;
      }
      isInitialized := false;
      if registered != Ok {
        return registered;
      }
      ret := WriteConfiguration(cfg, o);
      if ret != Ok {
        return;
      }
      dirA := cfg.dirA;
      dirB := cfg.dirB;
      olatA := 0x00;
      olatB := 0x00;
      isInitialized := true;
    }

    /** `mcp23017_deinit`: forgets everything, tells the chip nothing. */
    method Deinit()
      modifies this
      ensures State() == System(Shadow(false, 0, 0, 0, 0), old(chip))
    {
      isInitialized := false;
      dirA, dirB, olatA, olatB := 0, 0, 0, 0;
    }

    /** `mcp23017_set_port_direction` */
    method SetPortDirection(port: Port, dirMask: bv8, o: Outcome) returns (ret: Status)
      requires Valid()
      modifies this
      ensures Valid() && (State(), ret) == PortWritten(old(State()), port, IODIR, dirMask, o)
    {
      hide WriteEffect;
      if !isInitialized {
        return InvalidState;
      }
      ret := WriteReg(if port == A then 0x00 else 0x01, dirMask, o);
      if ret != Ok {
        return;
      }
      if port == A {
        dirA := dirMask;
      } else {
        dirB := dirMask;
      }
    }

    /** `mcp23017_write_port` */
    method WritePort(port: Port, value: bv8, o: Outcome) returns (ret: Status)
      requires Valid()
      modifies this
      ensures Valid() && (State(), ret) == PortWritten(old(State()), port, OLAT, value, o)
    {
      hide WriteEffect;
      if !isInitialized {
        return InvalidState;
      }
      ret := WriteReg(if port == A then 0x14 else 0x15, value, o);
      if ret != Ok {
        return;
      }
      if port == A {
        olatA := value;
      } else {
        olatB := value;
      }
    }

    /** `mcp23017_set_port_pullup` */
    method SetPortPullup(port: Port, mask: bv8, o: Outcome) returns (ret: Status)
      requires Valid()
      modifies this
      ensures Valid() && (State(), ret) == PortWritten(old(State()), port, GPPU, mask, o)
    {
      hide WriteEffect;
      if !isInitialized {
        return InvalidState;
      }
      ret := WriteReg(if port == A then 0x0C else 0x0D, mask, o);
    }

    /** `mcp23017_set_port_polarity` */
    method SetPortPolarity(port: Port, mask: bv8, o: Outcome) returns (ret: Status)
      requires Valid()
      modifies this
      ensures Valid() && (State(), ret) == PortWritten(old(State()), port, IPOL, mask, o)
    {
      hide WriteEffect;
      if !isInitialized {
        return InvalidState;
      }
      ret := WriteReg(if port == A then 0x02 else 0x03, mask, o);
    }

    /** `mcp23017_set_pin_direction`, `input` standing for MCP23017_DIR_INPUT */
    method SetPinDirection(port: Port, pin: nat, input: bool, o: Outcome) returns (ret: Status)
      requires Valid()
      modifies this
      ensures Valid() && (State(), ret) == PinWritten(old(State()), port, IODIR, pin, input, o)
    {
      hide WriteEffect, PutBit;
      if !isInitialized {
        return InvalidState;
      }
      if pin > 7 {
        return InvalidArg;
      }
      var shadow := if port == A then dirA else dirB;
      shadow := WithPin(shadow, pin, input);
      if port == A {
        dirA := shadow;
      } else {
        dirB := shadow;
      }
      ret := WriteReg(if port == A then 0x00 else 0x01, shadow, o);
    }

    /** `mcp23017_write_pin` */
    method WritePin(port: Port, pin: nat, value: bool, o: Outcome) returns (ret: Status)
      requires Valid()
      modifies this
      ensures Valid() && (State(), ret) == PinWritten(old(State()), port, OLAT, pin, value, o)
    {
      hide WriteEffect, PutBit;
      if !isInitialized {
        return InvalidState;
      }
      if pin > 7 {
        return InvalidArg;
      }
      var shadow := if port == A then olatA else olatB;
      shadow := WithPin(shadow, pin, value);
      if port == A {
        olatA := shadow;
      } else {
        olatB := shadow;
      }
      ret := WriteReg(if port == A then 0x14 else 0x15, shadow, o);
    }

    /** `mcp23017_toggle_pin` */
    method TogglePin(port: Port, pin: nat, o: Outcome) returns (ret: Status)
      requires Valid()
      modifies this
      ensures Valid()
      ensures (State(), ret) == PinWritten(old(State()), port, OLAT, pin,
                                  pin <= 7 && !Bit(if port == A then old(olatA) else old(olatB), pin), o)
    {
      hide WriteEffect, Mask, Bit, PutBit;
      if !isInitialized {
        return InvalidState;
      }
      if pin > 7 {
        return InvalidArg;
      }
      var shadow := if port == A then olatA else olatB;
      ToggleIsPut(shadow, pin);
      shadow := shadow ^ Mask(pin);
      if port == A {
        olatA := shadow;
      } else {
        olatB := shadow;
      }
      ret := WriteReg(if port == A then 0x14 else 0x15, shadow, o);
    }

    /** `_mcp23017_read_reg`, as far as the chip answers it. */
    method ReadReg(addr: nat) returns (data: bv8)
      requires Valid()
      ensures Decode(chip.bank, addr).Register? ==>
                data == chip.Reg(Decode(chip.bank, addr).port, Decode(chip.bank, addr).reg)
    {
      match Decode(chip.bank, addr) {
        case NoRegister => data := 0;
        case Register(port, reg) => data := chip.Reg(port, reg);
      }
    }

    /** `mcp23017_read_port`: the live pins, from the GPIO register. */
    method ReadPort(port: Port, bus: Status) returns (ret: Status, value: bv8)
      requires Valid()
      ensures ret == if !isInitialized then InvalidState else bus
      ensures ret == Ok && !chip.bank ==> value == chip.Reg(port, GPIO)
    {
      value := 0;
      if !isInitialized {
        return InvalidState, value;
      }
      ret := bus;
      if ret == Ok {
        value := ReadReg(if port == A then 0x12 else 0x13);
      }
    }

    /** `mcp23017_read_pin` */
    method ReadPin(port: Port, pin: nat, bus: Status) returns (ret: Status, value: bool)
      requires Valid()
      ensures ret == if !isInitialized then InvalidState else if pin > 7 then InvalidArg else bus
      ensures ret == Ok && pin <= 7 && !chip.bank ==> value == Bit(chip.Reg(port, GPIO), pin)
    {
      hide Bit;
      value := false;
      if !isInitialized {
        return InvalidState, value;
      }
      if pin > 7 {
        return InvalidArg, value;
      }
      ret := bus;
      if ret == Ok {
        var raw := ReadReg(if port == A then 0x12 else 0x13);
        value := PinOf(raw, pin);
      }
    }
  }
}
