/** What holds over every run of the I2C bus: recovery, refusal after a failure, lock discipline, error accounting. */
module BusRuns {
  import opened I2cBus

  // ----- Recovery

  /** The trace of a recovery up to the point where the lines are free or given up on. */
  function LineClearing(b: Bus, env: Env): seq<Event> {
    [RecoveryStarted] + (if b.handle.Some? then [BusDeleted] else []) + Pulses(ClocksSent(env.lowClocks))
  }

  /** When a recovery gets through: the slave lets go in time, the bus is rebuilt, every device is accepted. */
  ghost predicate Recoverable(b: Bus, env: Env) {
    && env.lowClocks <= RECOVERY_CLOCKS && env.rebuild == Ok
    && forall k :: 0 <= k < |b.devices| ==> env.added(k) == Ok
  }

  /**
    A recovery succeeds exactly when it can. Then the bus is live under its new handle and every registry
    entry has been re-added in order, under its old address and name; otherwise the bus is left without a
    handle and not initialized. The registry keeps its entries and the error count its value either way.
   */
  lemma RecoveryOutcome(b: Bus, env: Env)
    ensures var (r, st) := Recovered(b, env);
            && (st == Ok <==> Recoverable(b, env))
            && |r.devices| == |b.devices| && r.errors == b.errors && b.trace <= r.trace
            && (forall k :: 0 <= k < |b.devices| ==>
                  r.devices[k].addr == b.devices[k].addr && r.devices[k].name == b.devices[k].name)
            && (st == Ok ==>
                  && r.initialized && r.handle == Some(env.newBus)
                  && (forall k :: 0 <= k < |r.devices| ==> r.devices[k].handle == env.newDevice(k))
                  && r.trace == b.trace + LineClearing(b, env) + [Stop, BusCreated(env.newBus)]
                              + Announced(b.devices, env, 0))
            && (st != Ok ==> !r.initialized && r.handle == None)
  {
    hide ReAdded, Announced, Pulses;
    var down := b.(handle := None, initialized := false,
                   trace := b.trace + [RecoveryStarted] + (if b.handle.Some? then [BusDeleted] else [])
                          + Pulses(ClocksSent(env.lowClocks)));
    assert down.trace == b.trace + LineClearing(b, env);
    var freed := down.(trace := down.trace + [Stop]);
    var rebuilt := freed.(handle := Some(env.newBus), trace := freed.trace + [BusCreated(env.newBus)]);
    assert rebuilt.trace == b.trace + LineClearing(b, env) + [Stop, BusCreated(env.newBus)];
    ReAddedKeepsRegistry(rebuilt, env, 0);
  }

  lemma {:induction false} NoneOf(e: Event, s: seq<Event>)
    requires e !in s
    ensures CountOf(e, s) == 0
  {
    if s != [] {
      NoneOf(e, s[1..]);
    }
  }

  lemma {:induction false} ReAddedEvents(b: Bus, env: Env, i: nat)
    requires i <= |b.devices|
    ensures var r := ReAdded(b, env, i).0;
            b.trace <= r.trace && forall e :: e in r.trace[|b.trace|..] ==> e.DeviceAdded?
    decreases |b.devices| - i
  {
    if i < |b.devices| && env.added(i) == Ok {
      var d := b.devices[i];
      var next := b.(devices := b.devices[i := d.(handle := env.newDevice(i))],
                     trace := b.trace + [DeviceAdded(d.addr, env.newDevice(i))]);
      ReAddedEvents(next, env, i + 1);
      var r := ReAdded(b, env, i).0;
      assert r.trace[|b.trace|..] == [DeviceAdded(d.addr, env.newDevice(i))] + r.trace[|next.trace|..];
    }
  }

  lemma AddedEvents(b: Bus, env: Env) returns (added: seq<Event>)
    ensures ReAdded(b, env, 0).0.trace == b.trace + added && forall e :: e in added ==> e.DeviceAdded?
  {
    ReAddedEvents(b, env, 0);
    hide ReAdded;
    added := ReAdded(b, env, 0).0.trace[|b.trace|..];
  }

  /** What follows the line clearing: nothing, a STOP, or a STOP and the rebuilding. */
  lemma RecoveryTail(b: Bus, env: Env) returns (tail: seq<Event>)
    ensures Recovered(b, env).0.trace == b.trace + LineClearing(b, env) + tail
    ensures if env.lowClocks > RECOVERY_CLOCKS then tail == [] else |tail| >= 1 && tail[0] == Stop
    ensures forall k :: 0 < k < |tail| ==> tail[k].BusCreated? || tail[k].BusDeleted? || tail[k].DeviceAdded?
  {
    hide ReAdded, Pulses;
    var start := b.trace + LineClearing(b, env);
    var down := b.(handle := None, initialized := false,
                   trace := b.trace + [RecoveryStarted] + (if b.handle.Some? then [BusDeleted] else [])
                          + Pulses(ClocksSent(env.lowClocks)));
    assert down.trace == start;
    var freed := down.(trace := down.trace + [Stop]);
    var rebuilt := freed.(handle := Some(env.newBus), trace := freed.trace + [BusCreated(env.newBus)]);
    var added := AddedEvents(rebuilt, env);
    tail := if env.lowClocks > RECOVERY_CLOCKS then []
            else if env.rebuild != Ok then [Stop]
            else [Stop, BusCreated(env.newBus)] + added
                 + (if ReAdded(rebuilt, env, 0).1 == Ok then [] else [BusDeleted]);
    assert Recovered(b, env).0.trace == start + tail;
  }

  /** A slave that needs `n` clocks gets exactly `min(n, 9)` pulses, and a STOP exactly when that was enough. */
  lemma PulsesAndStop(b: Bus, env: Env)
    ensures b.trace <= Recovered(b, env).0.trace
    ensures var events := Recovered(b, env).0.trace[|b.trace|..];
            && CountOf(Pulse, events) == (if env.lowClocks < 9 then env.lowClocks else 9)
            && CountOf(Stop, events) == (if env.lowClocks <= 9 then 1 else 0)
  {
    hide Recovered, Pulses;
    var tail := RecoveryTail(b, env);
    var events := Recovered(b, env).0.trace[|b.trace|..];
    assert events == LineClearing(b, env) + tail;
    var head := [RecoveryStarted] + (if b.handle.Some? then [BusDeleted] else []);
    forall e | e == Pulse || e == Stop
      ensures CountOf(e, events) == CountOf(e, Pulses(ClocksSent(env.lowClocks))) + CountOf(e, tail)
    {
      CountOfConcat(e, LineClearing(b, env), tail);
      CountOfConcat(e, head, Pulses(ClocksSent(env.lowClocks)));
      NoneOf(e, head);
    }
    CountOfPulses(ClocksSent(env.lowClocks));
    NoneOf(Pulse, tail);
    if tail != [] {
      NoneOf(Stop, tail[1..]);
    }
  }

  /** The re-adding, event by event. */
  lemma {:induction false} AnnouncedInOrder(devices: seq<Device>, env: Env, i: nat)
    requires i <= |devices|
    ensures |Announced(devices, env, i)| == |devices| - i
    ensures forall k :: 0 <= k < |devices| - i ==>
              Announced(devices, env, i)[k] == DeviceAdded(devices[i + k].addr, env.newDevice(i + k))
    decreases |devices| - i
  {
    if i < |devices| {
      AnnouncedInOrder(devices, env, i + 1);
    }
  }

  // ----- What each operation returns

  /** The latest attempt among `events` ended with `st`. */
  ghost predicate LastAttempt(events: seq<Event>, kind: Kind, dev: nat, st: Status) {
    exists i ::
      && 0 <= i < |events| && events[i] == Attempt(kind, dev, st)
      && forall j :: i < j < |events| ==> !events[j].Attempt?
  }

  /** Whether a transfer gets its second attempt. */
  ghost predicate Retries(b: Bus, env: Env) {
    && env.first == Timeout && env.lowClocks <= 9 && env.rebuild == Ok
    && forall k :: 0 <= k < |b.devices| ==> env.added(k) == Ok
  }

  /** A recovery makes no attempt of its own. */
  lemma RecoveryIsQuiet(b: Bus, env: Env)
    ensures b.trace <= Recovered(b, env).0.trace
    ensures forall j :: |b.trace| <= j < |Recovered(b, env).0.trace| ==> !Recovered(b, env).0.trace[j].Attempt?
  {
    hide Recovered;
    var _ := RecoveryTail(b, env);
  }

  /** The attempts of one transfer: the first, then nothing but recovery, then the second if there is one. */
  lemma AttemptEvents(b: Bus, kind: Kind, dev: nat, env: Env) returns (during: seq<Event>)
    ensures var (r, st) := Attempted(b, kind, dev, env);
            && st == (if Retries(b, env) then env.retry else env.first)
            && r.errors == (if env.first == Timeout then Counted(b.errors) else b.errors)
            && r.trace == b.trace + ([Attempt(kind, dev, env.first)] + during
                                     + if Retries(b, env) then [Attempt(kind, dev, env.retry)] else [])
    ensures forall j :: 0 <= j < |during| ==> !during[j].Attempt?
  {
    hide Recovered;
    var e := Attempt(kind, dev, env.first);
    if env.first != Timeout {
      return [];
    }
    var counted := b.(trace := b.trace + [e], errors := Counted(b.errors));
    RecoveryOutcome(counted, env);
    RecoveryIsQuiet(counted, env);
    var rec := Recovered(counted, env).0;
    during := rec.trace[|counted.trace|..];
    assert rec.trace == b.trace + ([e] + during);
  }

  lemma CountedBy(errors: nat, first: bool, last: bool)
    requires errors < 0x1_0000_0000
    ensures var once := if first then Counted(errors) else errors;
            (if last then Counted(once) else once)
            == (errors + (if first then 1 else 0) + (if last then 1 else 0)) % 0x1_0000_0000
  {
  }

  /** The events of one hold of the lock, from the attempts in it. */
  lemma HoldEvents(kind: Kind, dev: nat, env: Env, during: seq<Event>, retried: bool, st: Status)
    requires forall j :: 0 <= j < |during| ==> !during[j].Attempt?
    requires st == if retried then env.retry else env.first
    ensures var attempts := [Attempt(kind, dev, env.first)] + during
                            + if retried then [Attempt(kind, dev, env.retry)] else [];
            var events := [LockTaken] + attempts + [LockGiven(st)];
            && |events| >= 3 && events[0] == LockTaken && events[1] == Attempt(kind, dev, env.first)
            && events[|events| - 1] == LockGiven(st) && LastAttempt(events, kind, dev, st)
  {
    var attempts := [Attempt(kind, dev, env.first)] + during
                    + if retried then [Attempt(kind, dev, env.retry)] else [];
    var events := [LockTaken] + attempts + [LockGiven(st)];
    var last := if retried then |during| + 2 else 1;
    assert events[last] == Attempt(kind, dev, st);
    assert forall j :: last < j < |events| ==> !events[j].Attempt?;
  }

  lemma SameRetries(b: Bus, c: Bus, env: Env)
    requires b.devices == c.devices
    ensures Retries(b, env) == Retries(c, env)
  {
  }

  /**
    A transfer that holds the lock: which status it returns, that this is how its last attempt ended and what it
    hands back with the lock, and how it counts.
   */
  lemma TransferStatus(b: Bus, kind: Kind, dev: nat, env: Env)
    requires b.initialized && env.lockTaken && b.errors < 0x1_0000_0000
    ensures var (r, st) := Transferred(b, kind, dev, env);
            && st == (if Retries(b, env) then env.retry else env.first)
            && r.errors
               == (b.errors + (if env.first == Timeout then 1 else 0) + (if st == Ok then 0 else 1)) % 0x1_0000_0000
            && b.trace <= r.trace
            && var events := r.trace[|b.trace|..];
               && |events| >= 3 && events[0] == LockTaken && events[1] == Attempt(kind, dev, env.first)
               && events[|events| - 1] == LockGiven(st) && LastAttempt(events, kind, dev, st)
  {
    hide Attempted, Retries, LastAttempt, Counted;
    CountedBy(b.errors, env.first == Timeout, Transferred(b, kind, dev, env).1 != Ok);
    var locked := b.(trace := b.trace + [LockTaken]);
    var during := AttemptEvents(locked, kind, dev, env);
    SameRetries(b, locked, env);
    var (r, st) := Transferred(b, kind, dev, env);
    HoldEvents(kind, dev, env, during, Retries(b, env), st);
    var events := [LockTaken] + ([Attempt(kind, dev, env.first)] + during
                                 + if Retries(b, env) then [Attempt(kind, dev, env.retry)] else []) + [LockGiven(st)];
    assert r.trace == b.trace + events;
    assert events == r.trace[|b.trace|..];
  }

  /** A transfer that does not get as far as the bus says why, and counts a lock it did not get. */
  lemma TransferRefused(b: Bus, kind: Kind, dev: nat, env: Env)
    requires !b.initialized || !env.lockTaken
    ensures !b.initialized ==> Transferred(b, kind, dev, env) == (b, InvalidState)
    ensures b.initialized ==>
              Transferred(b, kind, dev, env)
              == (b.(errors := (b.errors + 1) % 0x1_0000_0000, trace := b.trace + [LockTimedOut]), Timeout)
  {
  }

  /** A device is registered, at the end of the registry, exactly if the bus is up, has room, and accepts it. */
  lemma RegistrationOutcome(b: Bus, addr: nat, name: string, env: Env)
    ensures var (r, st) := DeviceRegistered(b, addr, name, env);
            var n := |b.devices|;
            && (st == Ok <==> b.initialized && n < 8 && env.added(n) == Ok)
            && (st == Ok ==>
                  && r.devices == b.devices + [Device(addr, env.newDevice(n), name)]
                  && r.trace == b.trace + [DeviceAdded(addr, env.newDevice(n))]
                  && r.handle == b.handle && r.errors == b.errors && r.initialized)
            && (st != Ok ==>
                  r == b && st == if !b.initialized then InvalidArg else if n >= 8 then NoMem else env.added(n))
  {
  }

  lemma {:induction false} ProbesInOrder(from: nat)
    requires from <= 0x78
    ensures |Probes(from)| == 0x78 - from
    ensures forall k :: 0 <= k < 0x78 - from ==> Probes(from)[k] == Probe(from + k)
    decreases 0x78 - from
  {
    if from < 0x78 {
      ProbesInOrder(from + 1);
    }
  }

  /** A scan probes the 117 addresses from 0x03 to 0x77 once each, in order, under one hold of the lock. */
  lemma ScanOutcome(b: Bus, env: Env)
    ensures var (r, st) := Scanned(b, env);
            if !b.initialized then r == b && st == InvalidState
            else if !env.lockTaken then
              r == b.(errors := (b.errors + 1) % 0x1_0000_0000, trace := b.trace + [LockTimedOut]) && st == Timeout
            else
              && st == Ok
              && r == b.(trace := b.trace + [LockTaken] + seq(117, k requires 0 <= k => Probe(0x03 + k))
                                  + [LockGiven(Ok)])
  {
    ProbesInOrder(0x03);
    hide Probes;
    assert Probes(0x03) == seq(117, k requires 0 <= k => Probe(0x03 + k));
  }

  /** An init starts from nothing, and the bus is up afterwards exactly if mutex and bus could be created. */
  lemma InitOutcome(b: Bus, env: Env)
    ensures var (r, st) := Initialized(b, env);
            && r.devices == [] && r.errors == 0
            && (st == Ok <==> env.mutexCreated && env.rebuild == Ok) && (r.initialized <==> st == Ok)
            && (st == Ok ==> r.handle == Some(env.newBus) && r.trace == b.trace + [BusCreated(env.newBus)])
            && (st != Ok ==> r.handle == None && r.trace == b.trace
                             && st == if env.mutexCreated then env.rebuild else NoMem)
  {
  }

  /** A deinit takes the bus down and keeps registry and count; a bus that is down refuses it. */
  lemma DeinitOutcome(b: Bus, env: Env)
    ensures var (r, st) := Deinitialized(b, env);
            if b.initialized then
              !r.initialized && r.devices == b.devices && r.errors == b.errors && r.trace == b.trace + [BusDeleted]
              && st == env.deleted
            else r == b && st == InvalidState
  {
  }

  // ----- Runs

  datatype Op =
    | DoTransfer(kind: Kind, dev: nat, env: Env)
    | DoAdd(addr: nat, name: string, env: Env)
    | DoScan(env: Env)
    | DoInit(env: Env)
    | DoDeinit(env: Env)

  function Step(b: Bus, op: Op): (Bus, Status) {
    match op
    case DoTransfer(kind, dev, env) => Transferred(b, kind, dev, env)
    case DoAdd(addr, name, env) => DeviceRegistered(b, addr, name, env)
    case DoScan(env) => Scanned(b, env)
    case DoInit(env) => Initialized(b, env)
    case DoDeinit(env) => Deinitialized(b, env)
  }

  function Run(b: Bus, ops: seq<Op>): Bus
    decreases |ops|
  {
    if ops == [] then b else Run(Step(b, ops[0]).0, ops[1..])
  }

  /** A bus that is down refuses everything but `init`, without touching the lines, the registry or the count. */
  lemma {:induction false} DownUntilInit(b: Bus, ops: seq<Op>)
    requires !b.initialized && forall i :: 0 <= i < |ops| ==> !ops[i].DoInit?
    ensures Run(b, ops) == b
    ensures forall i :: 0 <= i < |ops| ==> Step(b, ops[i]).1 in {InvalidState, InvalidArg}
    decreases |ops|
  {
    if ops != [] {
      assert Step(b, ops[0]).0 == b;
      DownUntilInit(b, ops[1..]);
    }
  }

  lemma StepKeepsLive(b: Bus, op: Op)
    requires b.initialized ==> b.handle.Some?
    ensures Step(b, op).0.initialized ==> Step(b, op).0.handle.Some?
  {
    hide Recovered, Probes;
    if op.DoTransfer? && b.initialized && op.env.lockTaken {
      var tried := b.(trace := b.trace + [LockTaken] + [Attempt(op.kind, op.dev, op.env.first)],
                      errors := Counted(b.errors));
      RecoveryOutcome(tried, op.env);
    }
  }

  /** Whenever the bus counts as initialized it has a handle, over every run. */
  lemma {:induction false} InitializedMeansLive(b: Bus, ops: seq<Op>)
    requires b.initialized ==> b.handle.Some?
    ensures Run(b, ops).initialized ==> Run(b, ops).handle.Some?
    decreases |ops|
  {
    if ops != [] {
      StepKeepsLive(b, ops[0]);
      InitializedMeansLive(Step(b, ops[0]).0, ops[1..]);
    }
  }

  // ----- The lock and the error count, read off the trace

  /** `last` is how the latest attempt ended. */
  datatype Lock = Free | Held(attempts: nat, recoveries: nat, last: Status) | Broken

  /** An observer of the trace: who holds the lock, and how many errors should have been counted. */
  datatype Audit = Audit(lock: Lock, charged: nat)

  function Observe(a: Audit, e: Event): Audit {
    match e
    case LockTaken => a.(lock := if a.lock == Free then Held(0, 0, Ok) else Broken)
    case LockTimedOut => if a.lock == Free then a.(charged := a.charged + 1) else a.(lock := Broken)
    case LockGiven(ret) =>
      // what is handed back with the lock is how the last attempt ended, and it is charged if that was an error
      if a.lock.Held? && ret == a.lock.last then Audit(Free, a.charged + if a.lock.last == Ok then 0 else 1)
      else a.(lock := Broken)
    case Attempt(_, _, status) =>
      // the first attempt of a hold is charged when it times out; a second one needs a recovery before it
      if a.lock == Held(0, 0, Ok) then Audit(Held(1, 0, status), a.charged + if status == Timeout then 1 else 0)
      else if a.lock.Held? && a.lock.attempts == 1 && a.lock.recoveries == 1 then a.(lock := Held(2, 1, status))
      else a.(lock := Broken)
    case RecoveryStarted => a.(lock := if a.lock == Held(1, 0, Timeout) then Held(1, 1, Timeout) else Broken)
    case Pulse => a.(lock := if a.lock == Held(1, 1, Timeout) then a.lock else Broken)
    case Stop => a.(lock := if a.lock == Held(1, 1, Timeout) then a.lock else Broken)
    case Probe(_) => a.(lock := if a.lock == Held(0, 0, Ok) then a.lock else Broken)
    case BusDeleted => a
    case BusCreated(_) => a
    case DeviceAdded(_, _) => a
  }

  function Audited(a: Audit, s: seq<Event>): Audit {
    if s == [] then a else Observe(Audited(a, s[..|s| - 1]), s[|s| - 1])
  }

  lemma {:induction false} AuditedConcat(a: Audit, s: seq<Event>, t: seq<Event>)
    ensures Audited(a, s + t) == Audited(Audited(a, s), t)
  {
    if t == [] {
      assert s + t == s;
    } else {
      assert (s + t)[..|s + t| - 1] == s + t[..|t| - 1];
      AuditedConcat(a, s, t[..|t| - 1]);
    }
  }

  lemma AuditedOne(a: Audit, e: Event)
    ensures Audited(a, [e]) == Observe(a, e)
  {
    assert [e][..0] == [];
    assert Audited(a, []) == a;
  }

  /** Events that an observer in state `a` takes no notice of. */
  lemma {:induction false} AuditedQuiet(a: Audit, s: seq<Event>)
    requires forall k :: 0 <= k < |s| ==> Observe(a, s[k]) == a
    ensures Audited(a, s) == a
  {
    if s != [] {
      AuditedQuiet(a, s[..|s| - 1]);
    }
  }

  lemma AuditedRecovery(b: Bus, env: Env, a: Audit)
    requires a.lock == Held(1, 0, Timeout)
    ensures b.trace <= Recovered(b, env).0.trace
    ensures Audited(a, Recovered(b, env).0.trace[|b.trace|..]) == a.(lock := Held(1, 1, Timeout))
  {
    hide Recovered, Audited, ClocksSent;
    var tail := RecoveryTail(b, env);
    var rest := (if b.handle.Some? then [BusDeleted] else []) + Pulses(ClocksSent(env.lowClocks)) + tail;
    assert Recovered(b, env).0.trace[|b.trace|..] == [RecoveryStarted] + rest;
    AuditedConcat(a, [RecoveryStarted], rest);
    AuditedOne(a, RecoveryStarted);
    AuditedQuiet(a.(lock := Held(1, 1, Timeout)), rest);
  }

  /** What one call adds to the trace, and that an observer finds the lock free again and the count right. */
  ghost predicate WellAudited(b: Bus, r: Bus) {
    && b.trace <= r.trace
    && var a := Audited(Audit(Free, 0), r.trace[|b.trace|..]);
       a.lock == Free && r.errors == (b.errors + a.charged) % COUNTER
  }

  lemma AttemptAudited(b: Bus, kind: Kind, dev: nat, env: Env)
    requires b.errors < COUNTER
    ensures var (r, st) := Attempted(b, kind, dev, env);
            && b.trace <= r.trace
            && var a := Audited(Audit(Held(0, 0, Ok), 0), r.trace[|b.trace|..]);
               && a.lock in {Held(1, 0, st), Held(1, 1, st), Held(2, 1, st)}
               && r.errors == (b.errors + a.charged) % COUNTER
  {
    hide Recovered, Audited;
    var start := Audit(Held(0, 0, Ok), 0);
    var e := Attempt(kind, dev, env.first);
    var tried := b.(trace := b.trace + [e]);
    var (r, st) := Attempted(b, kind, dev, env);
    AuditedOne(start, e);
    if env.first == Timeout {
      var a := Observe(start, e);
      var counted := tried.(errors := Counted(tried.errors));
      RecoveryOutcome(counted, env);
      AuditedRecovery(counted, env, a);
      var (rec, recSt) := Recovered(counted, env);
      var during := rec.trace[|counted.trace|..];
      AuditedConcat(start, [e], during);
      if recSt == Ok {
        var again := Attempt(kind, dev, env.retry);
        AuditedConcat(start, [e] + during, [again]);
        AuditedOne(a.(lock := Held(1, 1, Timeout)), again);
        assert r.trace[|b.trace|..] == [e] + during + [again];
      } else {
        assert r.trace[|b.trace|..] == [e] + during;
      }
    } else {
      assert r.trace[|b.trace|..] == [e];
    }
  }

  lemma NothingHappened(b: Bus)
    requires b.errors < COUNTER
    ensures WellAudited(b, b)
  {
    assert b.trace[|b.trace|..] == [];
  }

  lemma TransferAudited(b: Bus, kind: Kind, dev: nat, env: Env)
    requires b.errors < COUNTER
    ensures WellAudited(b, Transferred(b, kind, dev, env).0)
  {
    hide Attempted, Audited;
    var start := Audit(Free, 0);
    var r := Transferred(b, kind, dev, env).0;
    if !b.initialized {
      NothingHappened(b);
    } else if !env.lockTaken {
      assert r.trace[|b.trace|..] == [LockTimedOut];
      AuditedOne(start, LockTimedOut);
    } else {
      var locked := b.(trace := b.trace + [LockTaken]);
      AttemptAudited(locked, kind, dev, env);
      var (tried, st) := Attempted(locked, kind, dev, env);
      var during := tried.trace[|locked.trace|..];
      assert r.trace[|b.trace|..] == [LockTaken] + during + [LockGiven(st)];
      AuditedOne(start, LockTaken);
      AuditedConcat(start, [LockTaken], during);
      AuditedConcat(start, [LockTaken] + during, [LockGiven(st)]);
      AuditedOne(Audited(Audit(Held(0, 0, Ok), 0), during), LockGiven(st));
    }
  }

  lemma {:induction false} ProbesQuiet(from: nat, a: Audit)
    requires a.lock == Held(0, 0, Ok)
    ensures forall k :: 0 <= k < |Probes(from)| ==> Observe(a, Probes(from)[k]) == a
    decreases 0x78 - from
  {
    if from <= 0x77 {
      ProbesQuiet(from + 1, a);
    }
  }

  lemma ScanAudited(b: Bus, env: Env)
    requires b.errors < COUNTER
    ensures WellAudited(b, Scanned(b, env).0)
  {
    hide Audited, Probes;
    var start := Audit(Free, 0);
    var r := Scanned(b, env).0;
    if !b.initialized {
      NothingHappened(b);
    } else if !env.lockTaken {
      assert r.trace[|b.trace|..] == [LockTimedOut];
      AuditedOne(start, LockTimedOut);
    } else {
      var held := Audit(Held(0, 0, Ok), 0);
      assert r.trace[|b.trace|..] == [LockTaken] + Probes(0x03) + [LockGiven(Ok)];
      AuditedOne(start, LockTaken);
      ProbesQuiet(0x03, held);
      AuditedQuiet(held, Probes(0x03));
      AuditedConcat(start, [LockTaken], Probes(0x03));
      AuditedConcat(start, [LockTaken] + Probes(0x03), [LockGiven(Ok)]);
      AuditedOne(held, LockGiven(Ok));
    }
  }

  lemma StepAudited(b: Bus, op: Op)
    requires b.errors < COUNTER && !op.DoInit?
    ensures WellAudited(b, Step(b, op).0) && Step(b, op).0.errors < COUNTER
  {
    hide Transferred, Scanned, Audited;
    match op {
      case DoTransfer(kind, dev, env) => TransferAudited(b, kind, dev, env);
      case DoScan(env) => ScanAudited(b, env);
      case DoAdd(addr, name, env) =>
        var r := DeviceRegistered(b, addr, name, env).0;
        if r.trace == b.trace {
          NothingHappened(b);
        } else {
          var e := DeviceAdded(addr, env.newDevice(|b.devices|));
          assert r.trace[|b.trace|..] == [e];
          AuditedOne(Audit(Free, 0), e);
        }
      case DoDeinit(env) =>
        if b.initialized {
          assert Deinitialized(b, env).0.trace[|b.trace|..] == [BusDeleted];
          AuditedOne(Audit(Free, 0), BusDeleted);
        } else {
          NothingHappened(b);
        }
    }
  }

  lemma {:induction false} ChargesAdd(a: Audit, s: seq<Event>, n: nat)
    ensures Audited(a.(charged := a.charged + n), s)
         == Audited(a, s).(charged := Audited(a, s).charged + n)
  {
    if s != [] {
      ChargesAdd(a, s[..|s| - 1], n);
    }
  }

  lemma ModAdd(e: nat, a: nat, b: nat)
    ensures ((e + a) % COUNTER + b) % COUNTER == (e + (a + b)) % COUNTER
  {
  }

  /**
    Between two initialisations, over every run: every lock that is taken is given back once, attempts and
    recoveries happen only while it is held (at most two attempts, at most one recovery, in that order), and
    the error count has grown, modulo 2^32, by exactly the lock timeouts, the first attempts that timed out
    and the transfers that ended in an error.
   */
  lemma {:induction false} RunAudited(b: Bus, ops: seq<Op>)
    requires b.errors < COUNTER && forall i :: 0 <= i < |ops| ==> !ops[i].DoInit?
    ensures WellAudited(b, Run(b, ops))
    decreases |ops|
  {
    hide Audited, Step;
    if ops == [] {
      NothingHappened(b);
    } else {
      var c := Step(b, ops[0]).0;
      StepAudited(b, ops[0]);
      RunAudited(c, ops[1..]);
      var r := Run(b, ops);
      var s, t := c.trace[|b.trace|..], r.trace[|c.trace|..];
      assert r.trace[|b.trace|..] == s + t;
      var start := Audit(Free, 0);
      AuditedConcat(start, s, t);
      ChargesAdd(start, t, Audited(start, s).charged);
      ModAdd(b.errors, Audited(start, s).charged, Audited(start, t).charged);
    }
  }

  /** The attempt at the end of a trace, under a handle that no registered device has. */
  ghost predicate EndsOnStaleAttempt(r: Bus) {
    && r.trace != [] && r.trace[|r.trace| - 1].Attempt?
    && forall k :: 0 <= k < |r.devices| ==> r.devices[k].handle != r.trace[|r.trace| - 1].dev
  }

  /** The last thing a recovery does is never an attempt. */
  lemma RecoveryEnds(b: Bus, env: Env)
    ensures var t := Recovered(b, env).0.trace; t != [] && !t[|t| - 1].Attempt?
  {
    hide Recovered;
    var tail := RecoveryTail(b, env);
    var t := Recovered(b, env).0.trace;
    if tail != [] {
      assert t[|t| - 1] == tail[|tail| - 1];
    } else {
      assert t[|t| - 1] == LineClearing(b, env)[|LineClearing(b, env)| - 1];
    }
  }

  /**
    The retry goes out under the handle the caller passed in, while recovery has given every registry entry a
    new one. For a registered device, and a driver that does not hand out the caller's handle again, a transfer
    ends on an attempt under a handle of no registered device exactly when its first attempt times out and the
    bus can be recovered.
   */
  lemma RetryUsesCallersHandle(b: Bus, kind: Kind, dev: nat, env: Env)
    requires exists k :: 0 <= k < |b.devices| && b.devices[k].handle == dev
    requires forall k :: 0 <= k < |b.devices| ==> env.newDevice(k) != dev
    ensures EndsOnStaleAttempt(Attempted(b, kind, dev, env).0) <==> env.first == Timeout && Recoverable(b, env)
  {
    hide Recovered;
    var counted := b.(trace := b.trace + [Attempt(kind, dev, env.first)], errors := Counted(b.errors));
    RecoveryOutcome(counted, env);
    RecoveryEnds(counted, env);
  }
}
