/** Agreement between the MCP23017 driver's shadows and the chip, over every run and every way a write can end. */
module McpRuns {
  import opened Bits
  import opened Mcp23017

  /** The registers the driver shadows. */
  predicate Shadowed(reg: nat) {
    reg == IODIR || reg == OLAT
  }

  ghost predicate Agrees(s: System, port: Port, reg: nat)
    requires s.chip.Valid() && Shadowed(reg)
  {
    s.chip.Reg(port, reg) == s.dev.Of(port, reg)
  }

  ghost predicate AllAgree(s: System)
    requires s.chip.Valid()
  {
    Agrees(s, A, IODIR) && Agrees(s, B, IODIR) && Agrees(s, A, OLAT) && Agrees(s, B, OLAT)
  }

  // ----- Initialisation

  /** With BANK = 0 in force, an address of the driver selects the register it is meant for. */
  lemma AddressDecodes(port: Port, reg: nat)
    requires reg < REGISTERS
    ensures Decode(false, Address(port, reg)) == Register(port, reg)
  {
  }

  /** A plain register written under BANK = 0 takes the value; the map and every other register stay. */
  lemma PlainWrite(c: Chip, port: Port, reg: nat, v: bv8)
    requires c.Valid() && !c.bank && reg in {IODIR, IPOL, GPPU, OLAT}
    ensures var r := Written(c, Address(port, reg), v);
            && !r.bank
            && forall p, q :: 0 <= q < REGISTERS ==> r.Reg(p, q) == if p == port && q == reg then v else c.Reg(p, q)
  {
    AddressDecodes(port, reg);
  }

  /** Whichever map the chip starts in, the first two writes leave it in BANK = 0. */
  lemma BankForced(c: Chip)
    requires c.Valid()
    ensures !Written(Written(c, 0x05, 0x00), Address(A, IOCON), 0x00).bank
    ensures !Written(c, 0x05, 0x00).bank
  {
    var once := Written(c, 0x05, 0x00);
    if !c.bank {
      assert Decode(c.bank, 0x05) == Register(B, 2);
      assert once.bank == c.bank;
    } else {
      assert Decode(c.bank, 0x05) == Register(A, IOCON);
    }
  }

  lemma {:induction false} AllAcked(c: Chip, w: seq<(nat, bv8)>, o: nat -> Outcome, i: nat)
    requires c.Valid() && WrittenAll(c, w, o, i).1 == Ok && i < |w|
    ensures o(i) == Acked
    ensures WrittenAll(c, w, o, i) == WrittenAll(Written(c, w[i].0, w[i].1), w, o, i + 1)
  {
  }

  lemma WrittenAllEnd(c: Chip, w: seq<(nat, bv8)>, o: nat -> Outcome)
    requires c.Valid()
    ensures WrittenAll(c, w, o, |w|) == (c, Ok)
  {
  }

  lemma {:induction false} WrittenAllOutcome(c: Chip, w: seq<(nat, bv8)>, o: nat -> Outcome, i: nat)
    requires c.Valid() && i <= |w|
    ensures var st := WrittenAll(c, w, o, i).1;
            && (st == Ok <==> forall j :: i <= j < |w| ==> o(j) == Acked)
            && forall j :: i <= j < |w| && o(j) != Acked && (forall k :: i <= k < j ==> o(k) == Acked) ==>
                 st == BusError(o(j).code)
    decreases |w| - i
  {
    hide WriteEffect;
    if i < |w| && o(i).Acked? {
      WrittenAllOutcome(WriteEffect(c, w[i].0, w[i].1, o(i)), w, o, i + 1);
    }
  }

  /** How an init ends: with the address, with the bus, or with the first write that is not acknowledged. */
  lemma InitOutcome(s: System, cfg: Config, registered: Status, o: nat -> Outcome)
    requires s.chip.Valid()
    ensures var (r, st) := Initialized(s, cfg, registered, o);
            var accepted := 0x20 <= cfg.address <= 0x27;
            && (!accepted ==> r == s && st == InvalidArg)
            && (accepted && registered != Ok ==> r == s.(dev := s.dev.(ready := false)) && st == registered)
            && (accepted && registered == Ok ==>
                  && (st == Ok <==> forall j :: 0 <= j < 8 ==> o(j) == Acked) && (r.dev.ready <==> st == Ok)
                  && forall j :: 0 <= j < 8 && o(j) != Acked && (forall k :: 0 <= k < j ==> o(k) == Acked) ==>
                       st == BusError(o(j).code))
  {
    hide Written, WriteEffect;
    WrittenAllOutcome(s.chip, InitWrites(cfg), o, 0);
  }

  /** After a successful init the chip is in BANK = 0, configured as asked, and every shadow is right. */
  lemma InitSynchronises(s: System, cfg: Config, registered: Status, o: nat -> Outcome)
    requires s.chip.Valid() && Initialized(s, cfg, registered, o).1 == Ok
    ensures var r := Initialized(s, cfg, registered, o).0;
            && r.chip.Valid() && r.dev.ready && !r.chip.bank && AllAgree(r)
            && r.chip.Reg(A, IODIR) == cfg.dirA && r.chip.Reg(B, IODIR) == cfg.dirB
            && r.chip.Reg(A, GPPU) == cfg.pullupA && r.chip.Reg(B, GPPU) == cfg.pullupB
            && r.chip.Reg(A, OLAT) == 0 && r.chip.Reg(B, OLAT) == 0
  {
    hide Written, WrittenAll;
    var w := InitWrites(cfg);
    var c0 := s.chip;
    AllAcked(c0, w, o, 0);
    var c1 := Written(c0, 0x05, 0x00);
    AllAcked(c1, w, o, 1);
    var c2 := Written(c1, Address(A, IOCON), 0x00);
    BankForced(c0);
    AllAcked(c2, w, o, 2);
    var c3 := Written(c2, Address(A, IODIR), cfg.dirA);
    PlainWrite(c2, A, IODIR, cfg.dirA);
    AllAcked(c3, w, o, 3);
    var c4 := Written(c3, Address(B, IODIR), cfg.dirB);
    PlainWrite(c3, B, IODIR, cfg.dirB);
    AllAcked(c4, w, o, 4);
    var c5 := Written(c4, Address(A, GPPU), cfg.pullupA);
    PlainWrite(c4, A, GPPU, cfg.pullupA);
    AllAcked(c5, w, o, 5);
    var c6 := Written(c5, Address(B, GPPU), cfg.pullupB);
    PlainWrite(c5, B, GPPU, cfg.pullupB);
    AllAcked(c6, w, o, 6);
    var c7 := Written(c6, Address(A, OLAT), 0x00);
    PlainWrite(c6, A, OLAT, 0x00);
    AllAcked(c7, w, o, 7);
    var c8 := Written(c7, Address(B, OLAT), 0x00);
    PlainWrite(c7, B, OLAT, 0x00);
    WrittenAllEnd(c8, w, o);
  }

  // ----- One operation

  /** The operations of the driver that change it or the chip. */
  datatype Op =
    | PortOp(port: Port, reg: nat, mask: bv8)
    | PinOp(port: Port, reg: nat, pin: nat, on: bool)
    | ToggleOp(port: Port, pin: nat)
    | InitOp(cfg: Config, registered: Status)
    | DeinitOp

  /** Whole ports of four registers, single pins of the two shadowed ones, toggling of the latch, the life cycle. */
  ghost predicate IsOp(op: Op) {
    match op
    case PortOp(_, reg, _) => reg in {IODIR, IPOL, GPPU, OLAT}
    case PinOp(_, reg, _, _) => Shadowed(reg)
    case _ => true
  }

  /** One operation; write `j` that it makes ends in `o(j)`. */
  function Step(s: System, op: Op, o: nat -> Outcome): (r: (System, Status))
    requires s.chip.Valid()
    ensures r.0.chip.Valid()
  {
    match op
    case PortOp(port, reg, mask) => PortWritten(s, port, reg, mask, o(0))
    case PinOp(port, reg, pin, on) => PinWritten(s, port, reg, pin, on, o(0))
    case ToggleOp(port, pin) => PinWritten(s, port, OLAT, pin, pin <= 7 && !Bit(s.dev.Of(port, OLAT), pin), o(0))
    case InitOp(cfg, registered) => Initialized(s, cfg, registered, o)
    case DeinitOp => (System(Shadow(false, 0, 0, 0, 0), s.chip), Ok)
  }

  /** A write of one register, as opposed to an operation of the life cycle. */
  predicate IsWrite(op: Op) {
    op.PortOp? || op.PinOp? || op.ToggleOp?
  }

  /** A write that updates the shadow whether or not it succeeds. */
  predicate ShadowFirst(op: Op) {
    op.PinOp? || op.ToggleOp?
  }

  function RegOf(op: Op): nat
    requires IsWrite(op)
  {
    if op.ToggleOp? then OLAT else op.reg
  }

  predicate Names(op: Op, p: Port, q: nat) {
    IsWrite(op) && op.port == p && RegOf(op) == q
  }

  /** Whether a write gets as far as the bus. */
  predicate Accepted(s: System, op: Op) {
    IsWrite(op) && s.dev.ready && (ShadowFirst(op) ==> op.pin <= 7)
  }

  /** The byte an accepted write wants to see in its register. */
  function Wanted(s: System, op: Op): bv8
    requires Accepted(s, op)
  {
    match op
    case PortOp(_, _, mask) => mask
    case PinOp(port, reg, pin, on) => PutBit(s.dev.Of(port, reg), pin, on)
    case ToggleOp(port, pin) => PutBit(s.dev.Of(port, OLAT), pin, !Bit(s.dev.Of(port, OLAT), pin))
  }

  lemma ShadowWith(d: Shadow, port: Port, reg: nat, v: bv8, p: Port, q: nat)
    requires Shadowed(reg) && Shadowed(q)
    ensures d.With(port, reg, v).Of(p, q) == if p == port && q == reg then v else d.Of(p, q)
    ensures d.With(port, reg, v).ready == d.ready
  {
  }

  /** A write that is not accepted changes neither the chip nor the shadows. */
  lemma RejectedStep(s: System, op: Op, o: nat -> Outcome)
    requires s.chip.Valid() && IsWrite(op) && !Accepted(s, op)
    ensures Step(s, op, o) == (s, if s.dev.ready then InvalidArg else InvalidState)
  {
  }

  /** All three kinds of accepted write, as one: the shadow as its kind has it, the wanted byte to the chip. */
  lemma WriteStep(s: System, op: Op, o: nat -> Outcome)
    requires s.chip.Valid() && IsOp(op) && Accepted(s, op)
    ensures var d := if Shadowed(RegOf(op)) && (o(0).Acked? || ShadowFirst(op))
                     then s.dev.With(op.port, RegOf(op), Wanted(s, op))
                     else s.dev;
            var chip := WriteEffect(s.chip, Address(op.port, RegOf(op)), Wanted(s, op), o(0));
            Step(s, op, o) == (System(d, chip), WriteStatus(o(0)))
  {
    hide WriteEffect, PutBit, Bit;
    if ShadowFirst(op) {
      ShadowWith(s.dev, op.port, RegOf(op), Wanted(s, op), op.port, RegOf(op));
    }
  }

  /** The effect of one accepted write on every register of the chip and on every shadow. */
  lemma StepEffect(s: System, op: Op, o: nat -> Outcome, p: Port, q: nat)
    requires s.chip.Valid() && !s.chip.bank && IsOp(op) && Accepted(s, op) && q < REGISTERS
    ensures var (r, st) := Step(s, op, o);
            && !r.chip.bank && r.dev.ready && st == WriteStatus(o(0))
            && r.chip.Reg(p, q) == (if !o(0).Refused? && Names(op, p, q) then Wanted(s, op) else s.chip.Reg(p, q))
            && (Shadowed(q) ==>
                  var updated := Names(op, p, q) && (o(0).Acked? || ShadowFirst(op));
                  r.dev.Of(p, q) == if updated then Wanted(s, op) else s.dev.Of(p, q))
  {
    hide Written, Step, Wanted;
    WriteStep(s, op, o);
    PlainWrite(s.chip, op.port, RegOf(op), Wanted(s, op));
    if Shadowed(RegOf(op)) && Shadowed(q) {
      ShadowWith(s.dev, op.port, RegOf(op), Wanted(s, op), p, q);
    }
  }

  /** What an accepted write asks of each pin; a toggle asks for the complement of the shadow. */
  lemma WantedPin(s: System, op: Op, pin: nat)
    requires Accepted(s, op) && pin <= 7
    ensures Bit(Wanted(s, op), pin) ==
            match op
            case PortOp(_, _, mask) => Bit(mask, pin)
            case PinOp(port, reg, k, on) => if k == pin then on else Bit(s.dev.Of(port, reg), pin)
            case ToggleOp(port, k) => Bit(s.dev.Of(port, OLAT), pin) != (k == pin)
  {
    hide Bit, PutBit;
  }

  // ----- When one write keeps a register in agreement

  /**
    Whether a shadowed register agrees with its shadow after a write to it, for each way the write can end.
    An acknowledged write always brings agreement, whatever was the case before.
   */
  lemma AgreementAfter(s: System, op: Op, o: nat -> Outcome)
    requires s.chip.Valid() && !s.chip.bank && IsOp(op) && Accepted(s, op) && Shadowed(RegOf(op))
    ensures Agrees(Step(s, op, o).0, op.port, RegOf(op)) <==>
            match o(0)
            case Acked => true
            case Refused(_) =>
              if op.PortOp? then Agrees(s, op.port, op.reg) else s.chip.Reg(op.port, RegOf(op)) == Wanted(s, op)
            case Lost(_) => ShadowFirst(op) || s.dev.Of(op.port, op.reg) == Wanted(s, op)
  {
    hide Step, Wanted;
    StepEffect(s, op, o, op.port, RegOf(op));
  }

  /** A write, to whatever register, never changes whether another register agrees. */
  lemma AgreementElsewhere(s: System, op: Op, o: nat -> Outcome, p: Port, q: nat)
    requires s.chip.Valid() && !s.chip.bank && IsOp(op) && IsWrite(op) && Shadowed(q) && !Names(op, p, q)
    ensures Agrees(Step(s, op, o).0, p, q) <==> Agrees(s, p, q)
  {
    hide Step, Wanted;
    if Accepted(s, op) {
      StepEffect(s, op, o, p, q);
    } else {
      RejectedStep(s, op, o);
    }
  }

  /** The ways a write can end that can leave chip and shadow apart. */
  predicate Risky(op: Op, w: Outcome) {
    (ShadowFirst(op) && w.Refused?) || (op.PortOp? && w.Lost?)
  }

  /**
    A write that breaks the agreement of register (p, q): it is accepted, it asks for another byte than the
    shadow holds, and the wrong one of chip and shadow takes it.
   */
  predicate Diverges(s: System, op: Op, w: Outcome, p: Port, q: nat) {
    Names(op, p, q) && Accepted(s, op) && Risky(op, w) && Wanted(s, op) != s.dev.Of(p, q)
  }

  function Failing(op: Op): (w: Outcome)
    ensures IsWrite(op) ==> Risky(op, w)
  {
    if op.PortOp? then Lost(0) else Refused(0)
  }

  /**
    From an agreeing register, a write is certain to keep the agreement, however it ends, exactly when it asks
    for the byte that the shadow already holds.
   */
  lemma AgreementCertain(s: System, op: Op)
    requires s.chip.Valid() && !s.chip.bank && IsOp(op) && Accepted(s, op) && Shadowed(RegOf(op))
    requires Agrees(s, op.port, RegOf(op))
    ensures (forall o: nat -> Outcome :: Agrees(Step(s, op, o).0, op.port, RegOf(op)))
       <==> Wanted(s, op) == s.dev.Of(op.port, RegOf(op))
  {
    hide Step, Wanted;
    if Wanted(s, op) == s.dev.Of(op.port, RegOf(op)) {
      forall o: nat -> Outcome
        ensures Agrees(Step(s, op, o).0, op.port, RegOf(op))
      {
        AgreementAfter(s, op, o);
      }
    } else {
      var o := (j: nat) => Failing(op);
      AgreementAfter(s, op, o);
      assert !Agrees(Step(s, op, o).0, op.port, RegOf(op));
    }
  }

  /** For a pin write that is: the shadow bit has the wanted value. A toggle is never certain. */
  lemma PinCertain(s: System, op: Op)
    requires s.chip.Valid() && !s.chip.bank && IsOp(op) && Accepted(s, op) && ShadowFirst(op)
    requires Agrees(s, op.port, RegOf(op))
    ensures (forall o: nat -> Outcome :: Agrees(Step(s, op, o).0, op.port, RegOf(op)))
       <==> op.PinOp? && Bit(s.dev.Of(op.port, op.reg), op.pin) == op.on
  {
    hide Bit, Step, PutBit;
    AgreementCertain(s, op);
    var shadow := s.dev.Of(op.port, RegOf(op));
    if op.PinOp? && Bit(shadow, op.pin) == op.on {
      BitsDetermineByte(Wanted(s, op), shadow);
    } else {
      assert Bit(Wanted(s, op), op.pin) != Bit(shadow, op.pin);
    }
  }

  // ----- Runs

  /** `o(i)(j)` is how write `j` of step `i` ends. */
  function Run(s: System, ops: seq<Op>, o: nat -> nat -> Outcome): (r: System)
    requires s.chip.Valid()
    ensures r.chip.Valid()
    decreases |ops|
  {
    if ops == [] then s else Step(Run(s, ops[..|ops| - 1], o), ops[|ops| - 1], o(|ops| - 1)).0
  }

  /** A write that leaves the chip in BANK = 0 if it is there. */
  predicate KeepsBank(addr: nat, data: bv8) {
    Decode(false, addr).Register? && Decode(false, addr).reg == IOCON ==> data == 0
  }

  lemma {:induction false} WritesKeepBank(c: Chip, w: seq<(nat, bv8)>, o: nat -> Outcome, i: nat)
    requires c.Valid() && !c.bank && forall j :: 0 <= j < |w| ==> KeepsBank(w[j].0, w[j].1)
    ensures !WrittenAll(c, w, o, i).0.bank
    decreases |w| - i
  {
    if i < |w| && o(i).Acked? {
      WritesKeepBank(WriteEffect(c, w[i].0, w[i].1, o(i)), w, o, i + 1);
    }
  }

  lemma StepKeepsBank(s: System, op: Op, o: nat -> Outcome)
    requires s.chip.Valid() && !s.chip.bank && IsOp(op)
    ensures !Step(s, op, o).0.chip.bank
  {
    hide Wanted, WrittenAll;
    if IsWrite(op) {
      if Accepted(s, op) {
        hide Step;
        StepEffect(s, op, o, A, IODIR);
      } else {
        RejectedStep(s, op, o);
      }
    } else if op.InitOp? {
      WritesKeepBank(s.chip, InitWrites(op.cfg), o, 0);
    }
  }

  /** The chip is in BANK = 0 whenever the driver takes itself for ready. */
  ghost predicate Mapped(s: System) {
    s.chip.Valid() && (s.dev.ready ==> !s.chip.bank)
  }

  lemma StepKeepsMapped(s: System, op: Op, o: nat -> Outcome)
    requires Mapped(s) && IsOp(op)
    ensures Mapped(Step(s, op, o).0)
  {
    hide Wanted, WrittenAll;
    if !s.chip.bank {
      hide Step;
      StepKeepsBank(s, op, o);
    } else if op.InitOp? {
      if Initialized(s, op.cfg, op.registered, o).1 == Ok {
        InitSynchronises(s, op.cfg, op.registered, o);
      }
    } else if IsWrite(op) {
      RejectedStep(s, op, o);
    }
  }

  /**
    Once in BANK = 0 the chip stays there over every run, however its writes end, an init that fails half way
    included; and from power-up, with the map unknown, a driver that is ready has it in BANK = 0.
   */
  lemma {:induction false} RunKeepsMap(s: System, ops: seq<Op>, o: nat -> nat -> Outcome)
    requires Mapped(s) && forall i :: 0 <= i < |ops| ==> IsOp(ops[i])
    ensures Mapped(Run(s, ops, o))
    ensures !s.chip.bank ==> !Run(s, ops, o).chip.bank
  {
    hide Step;
    if ops != [] {
      var before, op := Run(s, ops[..|ops| - 1], o), ops[|ops| - 1];
      RunKeepsMap(s, ops[..|ops| - 1], o);
      StepKeepsMapped(before, op, o(|ops| - 1));
      if !before.chip.bank {
        StepKeepsBank(before, op, o(|ops| - 1));
      }
    }
  }

  /** The promise about the shadow of register (p, q): a driver that is ready has it right. */
  ghost predicate Kept(s: System, p: Port, q: nat) {
    s.chip.Valid() && Shadowed(q) && (s.dev.ready ==> Agrees(s, p, q))
  }

  lemma InitKeeps(s: System, op: Op, o: nat -> Outcome, p: Port, q: nat)
    requires op.InitOp? && Kept(s, p, q)
    ensures Kept(Step(s, op, o).0, p, q)
  {
    hide Written, WrittenAll;
    if Initialized(s, op.cfg, op.registered, o).1 == Ok {
      InitSynchronises(s, op.cfg, op.registered, o);
    }
  }

  /** An operation keeps the promise about a register exactly when it is not a diverging write to it. */
  lemma AgreementStep(s: System, op: Op, o: nat -> Outcome, p: Port, q: nat)
    requires Mapped(s) && IsOp(op) && Kept(s, p, q)
    ensures Kept(Step(s, op, o).0, p, q) <==> !Diverges(s, op, o(0), p, q)
  {
    hide Wanted;
    if op.InitOp? {
      InitKeeps(s, op, o, p, q);
    } else if IsWrite(op) {
      if Accepted(s, op) {
        hide Step;
        StepEffect(s, op, o, p, q);
      } else {
        RejectedStep(s, op, o);
      }
    }
  }

  /** An acknowledged write to a register restores its agreement, whatever happened before. */
  lemma AcknowledgedWriteHeals(s: System, op: Op, o: nat -> Outcome, p: Port, q: nat)
    requires Mapped(s) && IsOp(op) && Shadowed(q) && Names(op, p, q) && Accepted(s, op) && o(0).Acked?
    ensures Kept(Step(s, op, o).0, p, q)
  {
    hide Step, Wanted;
    StepEffect(s, op, o, p, q);
  }

  /** The promise holds after the first `i` steps. */
  ghost predicate KeptAt(s: System, ops: seq<Op>, o: nat -> nat -> Outcome, p: Port, q: nat, i: nat)
    requires s.chip.Valid() && i <= |ops|
  {
    Kept(Run(s, ops[..i], o), p, q)
  }

  /** The promise holds after step `from` and after every later one. */
  ghost predicate AlwaysKept(s: System, ops: seq<Op>, o: nat -> nat -> Outcome, p: Port, q: nat, from: nat)
    requires s.chip.Valid()
  {
    forall i :: from <= i <= |ops| ==> KeptAt(s, ops, o, p, q, i)
  }

  predicate DivergesAt(s: System, ops: seq<Op>, o: nat -> nat -> Outcome, p: Port, q: nat, i: nat)
    requires s.chip.Valid() && i < |ops|
  {
    Diverges(Run(s, ops[..i], o), ops[i], o(i)(0), p, q)
  }

  ghost predicate NeverDiverges(s: System, ops: seq<Op>, o: nat -> nat -> Outcome, p: Port, q: nat, from: nat)
    requires s.chip.Valid()
  {
    forall i :: from <= i < |ops| ==> !DivergesAt(s, ops, o, p, q, i)
  }

  /** What holds after, or happens in, an early step does not depend on the steps that follow. */
  lemma SettledByPrefix(s: System, ops: seq<Op>, n: nat, o: nat -> nat -> Outcome, p: Port, q: nat, i: nat)
    requires s.chip.Valid() && i <= n <= |ops|
    ensures KeptAt(s, ops[..n], o, p, q, i) <==> KeptAt(s, ops, o, p, q, i)
    ensures i < n ==> (DivergesAt(s, ops[..n], o, p, q, i) <==> DivergesAt(s, ops, o, p, q, i))
  {
    hide Run, Diverges, Kept;
    assert ops[..n][..i] == ops[..i];
  }

  lemma OneStepLonger(s: System, ops: seq<Op>, o: nat -> nat -> Outcome, p: Port, q: nat, from: nat)
    requires s.chip.Valid() && from < |ops|
    ensures var init, n := ops[..|ops| - 1], |ops| - 1;
            && (AlwaysKept(s, ops, o, p, q, from) <==>
                  AlwaysKept(s, init, o, p, q, from) && KeptAt(s, ops, o, p, q, |ops|))
            && (NeverDiverges(s, ops, o, p, q, from) <==>
                  NeverDiverges(s, init, o, p, q, from) && !DivergesAt(s, ops, o, p, q, n))
  {
    hide KeptAt, DivergesAt;
    var n := |ops| - 1;
    forall i | from <= i <= n
      ensures KeptAt(s, ops[..n], o, p, q, i) <==> KeptAt(s, ops, o, p, q, i)
      ensures i < n ==> (DivergesAt(s, ops[..n], o, p, q, i) <==> DivergesAt(s, ops, o, p, q, i))
    {
      SettledByPrefix(s, ops, n, o, p, q, i);
    }
  }

  lemma AlwaysKeptNow(s: System, ops: seq<Op>, o: nat -> nat -> Outcome, p: Port, q: nat, from: nat)
    requires s.chip.Valid() && from <= |ops|
    ensures AlwaysKept(s, ops, o, p, q, from) ==> KeptAt(s, ops, o, p, q, |ops|)
  {
  }

  lemma NoStepLeft(s: System, ops: seq<Op>, o: nat -> nat -> Outcome, p: Port, q: nat)
    requires s.chip.Valid()
    ensures AlwaysKept(s, ops, o, p, q, |ops|) <==> KeptAt(s, ops, o, p, q, |ops|)
    ensures NeverDiverges(s, ops, o, p, q, |ops|)
  {
    hide KeptAt, DivergesAt;
  }

  lemma RunStep(s: System, ops: seq<Op>, o: nat -> nat -> Outcome)
    requires s.chip.Valid() && ops != []
    ensures Run(s, ops, o) == Step(Run(s, ops[..|ops| - 1], o), ops[|ops| - 1], o(|ops| - 1)).0
  {
  }

  /**
    Over every run, from any point of it: the shadow of a register is right at all times exactly when it is
    right at that point and no later write to the register diverges. Port writes that the chip refuses, writes
    to other registers, and the life cycle never matter.
   */
  lemma {:induction false} AgreementOverRuns(s: System, ops: seq<Op>, o: nat -> nat -> Outcome, p: Port, q: nat,
                                             from: nat)
    requires Mapped(s) && from <= |ops| && forall i :: 0 <= i < |ops| ==> IsOp(ops[i])
    ensures AlwaysKept(s, ops, o, p, q, from)
       <==> KeptAt(s, ops, o, p, q, from) && NeverDiverges(s, ops, o, p, q, from)
    decreases |ops|
  {
    hide Step, Diverges, Kept, AlwaysKept, NeverDiverges, Run;
    if from < |ops| {
      var n := |ops| - 1;
      var before := Run(s, ops[..n], o);
      SettledByPrefix(s, ops, n, o, p, q, from);
      AgreementOverRuns(s, ops[..n], o, p, q, from);
      RunKeepsMap(s, ops[..n], o);
      OneStepLonger(s, ops, o, p, q, from);
      RunStep(s, ops, o);
      assert ops[..|ops|] == ops && ops[..n][..n] == ops[..n];
      AlwaysKeptNow(s, ops[..n], o, p, q, from);
      if Kept(before, p, q) {
        AgreementStep(before, ops[n], o(n), p, q);
      }
    } else {
      NoStepLeft(s, ops, o, p, q);
    }
  }

  /** The promise that shadows are in sync at all times fails: one refused pin write is enough. */
  lemma RefusedPinWriteDiverges()
    ensures var s := System(Shadow(true, 0xFF, 0xFF, 0x00, 0x00), Chip(false, seq(2 * REGISTERS, _ => 0x00)));
            var r := PinWritten(s, A, OLAT, 0, true, Refused(0)).0;
            s.chip.Valid() && Agrees(s, A, OLAT) && !Agrees(r, A, OLAT)
  {
    var s := System(Shadow(true, 0xFF, 0xFF, 0x00, 0x00), Chip(false, seq(2 * REGISTERS, _ => 0x00)));
    var r := PinWritten(s, A, OLAT, 0, true, Refused(0)).0;
    assert Bit(r.dev.Of(A, OLAT), 0) && !Bit(0x00, 0);
  }

  // ----- Fault-free runs

  /** An init that finds nothing to complain about. */
  predicate Succeeds(op: Op) {
    op.InitOp? && 0x20 <= op.cfg.address <= 0x27 && op.registered == Ok
  }

  /** Whether the driver is ready after an operation without faults. */
  function ReadyStep(op: Op, ready: bool): bool {
    if Succeeds(op) then true
    else if op.DeinitOp? || (op.InitOp? && 0x20 <= op.cfg.address <= 0x27) then false
    else ready
  }

  /** What an operation without faults means for one pin: it sets it, negates it, or leaves it alone. */
  function PinStep(op: Op, p: Port, q: nat, pin: nat, ready: bool, was: bool): bool
    requires pin <= 7
  {
    if Succeeds(op) then q == IODIR && Bit(if p == A then op.cfg.dirA else op.cfg.dirB, pin)
    else if !Names(op, p, q) || !ready then was
    else
      match op
      case PortOp(_, _, mask) => Bit(mask, pin)
      case PinOp(_, _, k, on) => if k == pin then on else was
      case ToggleOp(_, k) => was != (k == pin)
  }

  function ReadyAfter(ops: seq<Op>, start: bool): bool {
    if ops == [] then start else ReadyStep(ops[|ops| - 1], ReadyAfter(ops[..|ops| - 1], start))
  }

  function PinAfter(ops: seq<Op>, p: Port, q: nat, pin: nat, ready: bool, start: bool): bool
    requires pin <= 7
    decreases |ops|
  {
    if ops == [] then start
    else
      var before := ops[..|ops| - 1];
      PinStep(ops[|ops| - 1], p, q, pin, ReadyAfter(before, ready), PinAfter(before, p, q, pin, ready, start))
  }

  lemma {:induction false} AllAckedSucceeds(c: Chip, w: seq<(nat, bv8)>, o: nat -> Outcome, i: nat)
    requires c.Valid() && forall j :: o(j) == Acked
    ensures WrittenAll(c, w, o, i).1 == Ok
    decreases |w| - i
  {
    if i < |w| {
      AllAckedSucceeds(Written(c, w[i].0, w[i].1), w, o, i + 1);
    }
  }

  /** One acknowledged step against the map of pins. */
  lemma FaultFreeInit(s: System, op: Op, o: nat -> Outcome, p: Port, q: nat)
    requires s.chip.Valid() && op.InitOp? && Shadowed(q) && forall j :: o(j) == Acked
    ensures var r := Step(s, op, o).0;
            if Succeeds(op) then
              r.dev.ready && r.chip.Reg(p, q) == if q == OLAT then 0 else if p == A then op.cfg.dirA else op.cfg.dirB
            else
              r.chip == s.chip && r.dev.ready == (s.dev.ready && !(0x20 <= op.cfg.address <= 0x27))
  {
    hide Written, WrittenAll;
    if Succeeds(op) {
      AllAckedSucceeds(s.chip, InitWrites(op.cfg), o, 0);
      InitSynchronises(s, op.cfg, op.registered, o);
    }
  }

  lemma NoPins(pin: nat)
    requires pin <= 7
    ensures !Bit(0, pin)
  {
  }

  /** One acknowledged step, as a step of one pin. */
  lemma FaultFreeStep(s: System, op: Op, o: nat -> Outcome, p: Port, q: nat, pin: nat)
    requires Mapped(s) && Kept(s, p, q) && IsOp(op) && pin <= 7 && forall j :: o(j) == Acked
    ensures var r, was := Step(s, op, o).0, Bit(s.chip.Reg(p, q), pin);
            && r.dev.ready == ReadyStep(op, s.dev.ready)
            && Bit(r.chip.Reg(p, q), pin) == PinStep(op, p, q, pin, s.dev.ready, was)
  {
    hide Bit, Wanted;
    if op.InitOp? {
      hide Step;
      NoPins(pin);
      FaultFreeInit(s, op, o, p, q);
    } else if IsWrite(op) {
      hide Step;
      if Accepted(s, op) {
        StepEffect(s, op, o, p, q);
        WantedPin(s, op, pin);
      } else {
        RejectedStep(s, op, o);
      }
    }
  }

  /**
    From power-up or later, when every write is acknowledged, each of the pins of direction and latch is
    exactly what the operations asked for: set by the last one that names it, negated by each toggle since,
    reset by a successful init, untouched by anything else.
   */
  lemma {:induction false} FaultFreeRun(s: System, ops: seq<Op>, o: nat -> nat -> Outcome, p: Port, q: nat, pin: nat)
    requires Mapped(s) && Kept(s, p, q) && pin <= 7
    requires forall i :: 0 <= i < |ops| ==> IsOp(ops[i])
    requires forall i, j :: 0 <= i < |ops| ==> o(i)(j) == Acked
    ensures var r := Run(s, ops, o);
            && Kept(r, p, q) && r.dev.ready == ReadyAfter(ops, s.dev.ready)
            && Bit(r.chip.Reg(p, q), pin) == PinAfter(ops, p, q, pin, s.dev.ready, Bit(s.chip.Reg(p, q), pin))
  {
    hide Bit, Step, Wanted, ReadyStep, PinStep;
    if ops != [] {
      var n := |ops| - 1;
      var before, op := Run(s, ops[..n], o), ops[n];
      FaultFreeRun(s, ops[..n], o, p, q, pin);
      RunKeepsMap(s, ops[..n], o);
      AgreementStep(before, op, o(n), p, q);
      FaultFreeStep(before, op, o(n), p, q, pin);
    }
  }
}
