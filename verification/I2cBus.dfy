/**
  The self-healing I2C master bus: device registry, lock, clock-out recovery, rebuild, retry, error count.
  What ESP-IDF and the wires answer comes in through `Env`; what the bus does is recorded in a trace.
 */
module I2cBus {

  const MAX_DEVICES := 8
  const RECOVERY_RETRY := 1
  const RECOVERY_CLOCKS := 9
  const COUNTER := 0x1_0000_0000

  datatype Option<T> = None | Some(value: T)

  /** `esp_err_t` */
  datatype Status = Ok | Timeout | InvalidState | InvalidArg | NoMem | Failed(code: int)

  datatype Kind = Write | Read | WriteRead

  /** `i2c_device_entry_t` */
  datatype Device = Device(addr: nat, handle: nat, name: string)

  /** Everything the bus does to the outside, in order. */
  datatype Event =
    | LockTaken
    | LockTimedOut
    | LockGiven(ret: Status)
    | Attempt(kind: Kind, dev: nat, status: Status)
    | RecoveryStarted
    | BusDeleted
    | BusCreated(handle: nat)
    | Pulse
    | Stop
    | DeviceAdded(addr: nat, handle: nat)
    | Probe(addr: nat)

  /** The answers of the outside to one call. */
  datatype Env = Env(
    mutexCreated: bool,
    lockTaken: bool,
    first: Status,
    /** how many clock pulses the slave needs before it lets go of SDA */
    lowClocks: nat,
    rebuild: Status,
    newBus: nat,
    added: nat -> Status,
    newDevice: nat -> nat,
    retry: Status,
    /** what deleting the bus returns when it is shut down */
    deleted: Status)

  datatype Bus = Bus(handle: Option<nat>, devices: seq<Device>, errors: nat, initialized: bool, trace: seq<Event>)

  function Counted(errors: nat): nat {
    (errors + 1) % COUNTER
  }

  // ----- Specification of the operations

  function Pulses(n: nat): (p: seq<Event>)
    ensures |p| == n
  {
    seq(n, _ => Pulse)
  }

  function ClocksSent(lowClocks: nat): nat {
    if lowClocks < RECOVERY_CLOCKS then lowClocks else RECOVERY_CLOCKS
  }

  /** Registry entries from `i` on re-added to bus `b`; stops at the first refusal. */
  function ReAdded(b: Bus, env: Env, i: nat): (Bus, Status)
    decreases |b.devices| - i
  {
    if i >= |b.devices| then (b, Ok)
    else if env.added(i) != Ok then (b, env.added(i))
    else
      var d := b.devices[i];
      ReAdded(b.(devices := b.devices[i := d.(handle := env.newDevice(i))],
                 trace := b.trace + [DeviceAdded(d.addr, env.newDevice(i))]), env, i + 1)
  }

  /** `_i2c_bus_recover_locked` */
  function Recovered(b: Bus, env: Env): (Bus, Status) {
    var down := b.(handle := None, initialized := false,
                   trace := b.trace + [RecoveryStarted] + (if b.handle.Some? then [BusDeleted] else [])
                          + Pulses(ClocksSent(env.lowClocks)));
    if env.lowClocks > RECOVERY_CLOCKS then (down, InvalidState)
    else
      var freed := down.(trace := down.trace + [Stop]);
      if env.rebuild != Ok then (freed, env.rebuild)
      else
        var rebuilt := freed.(handle := Some(env.newBus), trace := freed.trace + [BusCreated(env.newBus)]);
        var (r, st) := ReAdded(rebuilt, env, 0);
        if st == Ok then (r.(initialized := true), Ok)
        else (r.(handle := None, trace := r.trace + [BusDeleted]), st)
  }

  /** A transfer while the lock is held: at most one recovery and one retry. */
  function Attempted(b: Bus, kind: Kind, dev: nat, env: Env): (Bus, Status) {
    var tried := b.(trace := b.trace + [Attempt(kind, dev, env.first)]);
    if env.first != Timeout then (tried, env.first)
    else
      var (r, st) := Recovered(tried.(errors := Counted(tried.errors)), env);
      if st == Ok then (r.(trace := r.trace + [Attempt(kind, dev, env.retry)]), env.retry)
      else (r, Timeout)
  }

  /** `i2c_bus_write`, `i2c_bus_read` and `i2c_bus_write_read`, which differ only in the driver call. */
  function Transferred(b: Bus, kind: Kind, dev: nat, env: Env): (Bus, Status) {
    if !b.initialized then (b, InvalidState)
    else if !env.lockTaken then (b.(errors := Counted(b.errors), trace := b.trace + [LockTimedOut]), Timeout)
    else
      var (r, st) := Attempted(b.(trace := b.trace + [LockTaken]), kind, dev, env);
      var given := r.(trace := r.trace + [LockGiven(st)]);
      if st != Ok then (given.(errors := Counted(given.errors)), st) else (given, Ok)
  }

  /** `i2c_bus_add_device` */
  function DeviceRegistered(b: Bus, addr: nat, name: string, env: Env): (Bus, Status) {
    if !b.initialized then (b, InvalidArg)
    else if |b.devices| >= MAX_DEVICES then (b, NoMem)
    else if env.added(|b.devices|) != Ok then (b, env.added(|b.devices|))
    else
      var h := env.newDevice(|b.devices|);
      (b.(devices := b.devices + [Device(addr, h, name)], trace := b.trace + [DeviceAdded(addr, h)]), Ok)
  }

  function Probes(from: nat): seq<Event>
    decreases 0x78 - from
  {
    if from > 0x77 then [] else [Probe(from)] + Probes(from + 1)
  }

  /** `i2c_bus_scan` */
  function Scanned(b: Bus, env: Env): (Bus, Status) {
    if !b.initialized then (b, InvalidState)
    else if !env.lockTaken then (b.(errors := Counted(b.errors), trace := b.trace + [LockTimedOut]), Timeout)
    else (b.(trace := b.trace + [LockTaken] + Probes(0x03) + [LockGiven(Ok)]), Ok)
  }

  /** `i2c_bus_init`: forgets everything, the error count included. */
  function Initialized(b: Bus, env: Env): (Bus, Status) {
    var clear := Bus(None, [], 0, false, b.trace);
    if !env.mutexCreated then (clear, NoMem)
    else if env.rebuild != Ok then (clear, env.rebuild)
    else (clear.(handle := Some(env.newBus), initialized := true, trace := b.trace + [BusCreated(env.newBus)]), Ok)
  }

  /** `i2c_bus_deinit` */
  function Deinitialized(b: Bus, env: Env): (Bus, Status) {
    if !b.initialized then (b, InvalidState)
    else (b.(initialized := false, trace := b.trace + [BusDeleted]), env.deleted)
  }

  // ----- The driver

  class Driver {
    var busHandle: Option<nat>
    var devices: seq<Device>
    var errorCount: nat
    var initialized: bool
    var trace: seq<Event>

    ghost function State(): Bus
      reads this
    {
      Bus(busHandle, devices, errorCount, initialized, trace)
    }

    constructor ()
      ensures State() == Bus(None, [], 0, false, [])
    {
      busHandle := None;
      devices := [];
      errorCount := 0;
      initialized := false;
      trace := [];
    }

    /** The clock loop of the recovery; `lowClocks` says how long the slave holds SDA down. */
    method ClockOut(lowClocks: nat) returns (pulses: nat)
      modifies this`trace
      ensures pulses == ClocksSent(lowClocks)
      ensures trace == old(trace) + Pulses(pulses)
    {
      pulses := 0;
      while pulses < lowClocks && pulses < RECOVERY_CLOCKS
        invariant pulses <= ClocksSent(lowClocks)
        invariant trace == old(trace) + Pulses(pulses)
      {
        trace := trace + [Pulse];
        pulses := pulses + 1;
      }
    }

    /** The registry loop of the recovery. */
    method ReAddDevices(env: Env) returns (ret: Status)
      modifies this`devices, this`trace
      ensures (State(), ret) == ReAdded(old(State()), env, 0)
    {
      var i := 0;
      while i < |devices|
        invariant 0 <= i <= |devices|
        invariant ReAdded(State(), env, i) == ReAdded(old(State()), env, 0)
        decreases |devices| - i
      {
        ret := env.added(i);
        if ret != Ok {
          return;
        }
        var entry := devices[i];
        devices := devices[i := entry.(handle := env.newDevice(i))];
        trace := trace + [DeviceAdded(entry.addr, env.newDevice(i))];
        i := i + 1;
      }
      ret := Ok;
    }

    method RecoverLocked(env: Env) returns (ret: Status)
      modifies this
      ensures (State(), ret) == Recovered(old(State()), env)
    {
      trace := trace + [RecoveryStarted];
      if busHandle != None {
        trace := trace + [BusDeleted];
        busHandle := None;
      }
      initialized := false;
      assert trace == old(trace) + [RecoveryStarted] + (if old(busHandle).Some? then [BusDeleted] else []);
      var pulses := ClockOut(env.lowClocks);
      if pulses < env.lowClocks {
        return InvalidState;
      }
      trace := trace + [Stop];
      if env.rebuild != Ok {
        return env.rebuild;
      }
      busHandle := Some(env.newBus);
      trace := trace + [BusCreated(env.newBus)];
      ret := ReAddDevices(env);
      if ret != Ok {
        busHandle := None;
        trace := trace + [BusDeleted];
        return;
      }
      initialized := true;
    }

    /** The part of a transfer that runs while the lock is held. */
    method AttemptLocked(kind: Kind, dev: nat, env: Env) returns (ret: Status)
      modifies this
      ensures (State(), ret) == Attempted(old(State()), kind, dev, env)
    {
      hide Recovered;
      ret := env.first;
      trace := trace + [Attempt(kind, dev, ret)];
      if ret == Timeout {
        errorCount := (errorCount + 1) % COUNTER;
        var recovery := RecoverLocked(env);
        if recovery == Ok {
          ghost var b := State();
          var attempt := 0;
          while attempt < RECOVERY_RETRY && ret != Ok
            invariant 0 <= attempt <= RECOVERY_RETRY
            invariant attempt == 0 ==> ret == Timeout && State() == b
            invariant attempt == 1 ==>
                        ret == env.retry && State() == b.(trace := b.trace + [Attempt(kind, dev, env.retry)])
          {
            ret := env.retry;
            trace := trace + [Attempt(kind, dev, ret)];
            attempt := attempt + 1;
          }
        }
      }
    }

    method Transfer(kind: Kind, dev: nat, env: Env) returns (ret: Status)
      modifies this
      ensures (State(), ret) == Transferred(old(State()), kind, dev, env)
    {
      hide Attempted;
      if !initialized {
        return InvalidState;
      }
      if !env.lockTaken {
        errorCount := (errorCount + 1) % COUNTER;
        trace := trace + [LockTimedOut];
        return Timeout;
      }
      trace := trace + [LockTaken];
      ret := AttemptLocked(kind, dev, env);
      trace := trace + [LockGiven(ret)];
      if ret != Ok {
        errorCount := (errorCount + 1) % COUNTER;
      }
    }

    method AddDevice(addr: nat, name: string, env: Env) returns (ret: Status)
      modifies this
      ensures (State(), ret) == DeviceRegistered(old(State()), addr, name, env)
    {
      if !initialized {
        return InvalidArg;
      }
      if |devices| >= MAX_DEVICES {
        return NoMem;
      }
      ret := env.added(|devices|);
      if ret != Ok {
        return;
      }
      var out := env.newDevice(|devices|);
      devices := devices + [Device(addr, out, name)];
      trace := trace + [DeviceAdded(addr, out)];
    }

    method Scan(env: Env) returns (ret: Status)
      modifies this
      ensures (State(), ret) == Scanned(old(State()), env)
    {
      if !initialized {
        return InvalidState;
      }
      if !env.lockTaken {
        errorCount := (errorCount + 1) % COUNTER;
        trace := trace + [LockTimedOut];
        return Timeout;
      }
      trace := trace + [LockTaken];
      ghost var before := trace;
      for addr := 0x03 to 0x78
        invariant busHandle == old(busHandle) && devices == old(devices) && errorCount == old(errorCount) && initialized
        invariant trace + Probes(addr) == before + Probes(0x03)
      {
        assert trace + [Probe(addr)] + Probes(addr + 1) == trace + ([Probe(addr)] + Probes(addr + 1));
        trace := trace + [Probe(addr)];
      }
      assert trace + [] == trace;
      trace := trace + [LockGiven(Ok)];
      ret := Ok;
    }

    method Init(env: Env) returns (ret: Status)
      modifies this
      ensures (State(), ret) == Initialized(old(State()), env)
    {
      busHandle := None;
      devices := [];
      errorCount := 0;
      initialized := false;
      if !env.mutexCreated {
        return NoMem;
      }
      ret := env.rebuild;
      if ret != Ok {
        return;
      }
      busHandle := Some(env.newBus);
      trace := trace + [BusCreated(env.newBus)];
      initialized := true;
    }

    method Deinit(env: Env) returns (ret: Status)
      modifies this
      ensures (State(), ret) == Deinitialized(old(State()), env)
    {
      if !initialized {
        return InvalidState;
      }
      trace := trace + [BusDeleted];
      initialized := false;
      ret := env.deleted;
    }
  }

  // ----- Recovery

  function CountOf(e: Event, s: seq<Event>): nat {
    if s == [] then 0 else (if s[0] == e then 1 else 0) + CountOf(e, s[1..])
  }

  lemma {:induction false} CountOfConcat(e: Event, a: seq<Event>, b: seq<Event>)
    ensures CountOf(e, a + b) == CountOf(e, a) + CountOf(e, b)
  {
    if a == [] {
      assert a + b == b;
    } else {
      assert (a + b)[1..] == a[1..] + b;
      CountOfConcat(e, a[1..], b);
    }
  }

  lemma {:induction false} CountOfPulses(n: nat)
    ensures CountOf(Pulse, Pulses(n)) == n && CountOf(Stop, Pulses(n)) == 0
  {
    if n > 0 {
      assert Pulses(n)[1..] == Pulses(n - 1);
      CountOfPulses(n - 1);
    }
  }

  /** Addresses and names of a registry, without the handles. */
  function Identity(d: Device): (nat, string) {
    (d.addr, d.name)
  }

  /** The registry entries from `i` on, announced in order under the handles the driver gave them. */
  function Announced(devices: seq<Device>, env: Env, i: nat): seq<Event>
    decreases |devices| - i
  {
    if i >= |devices| then [] else [DeviceAdded(devices[i].addr, env.newDevice(i))] + Announced(devices, env, i + 1)
  }

  lemma {:induction false} AnnouncedSuffix(a: seq<Device>, b: seq<Device>, env: Env, i: nat)
    requires |a| == |b| && forall k :: i <= k < |a| ==> a[k] == b[k]
    ensures Announced(a, env, i) == Announced(b, env, i)
    decreases |a| - i
  {
    if i < |a| {
      AnnouncedSuffix(a, b, env, i + 1);
    }
  }

  /** What the registry loop keeps and does, whether or not it gets through. */
  lemma {:induction false} ReAddedKeepsRegistry(b: Bus, env: Env, i: nat)
    requires i <= |b.devices|
    ensures var (r, st) := ReAdded(b, env, i);
            && |r.devices| == |b.devices|
            && (forall k :: 0 <= k < |b.devices| ==> Identity(r.devices[k]) == Identity(b.devices[k]))
            && (forall k :: 0 <= k < i ==> r.devices[k] == b.devices[k])
            && r.handle == b.handle && r.errors == b.errors && r.initialized == b.initialized
            && b.trace <= r.trace
            && (st == Ok ==> (forall k :: i <= k < |b.devices| ==> r.devices[k].handle == env.newDevice(k))
                             && r.trace == b.trace + Announced(b.devices, env, i))
            && (st == Ok <==> forall k :: i <= k < |b.devices| ==> env.added(k) == Ok)
    decreases |b.devices| - i
  {
    if i < |b.devices| && env.added(i) == Ok {
      var d := b.devices[i];
      var next := b.(devices := b.devices[i := d.(handle := env.newDevice(i))],
                     trace := b.trace + [DeviceAdded(d.addr, env.newDevice(i))]);
      ReAddedKeepsRegistry(next, env, i + 1);
      AnnouncedSuffix(b.devices, next.devices, env, i + 1);
    }
  }
}
