/** The supervisor task: how its feed step follows from the configuration, and when it publishes over whole runs. */
module Supervisor {
  import opened Cyclic

  const WORD := 0x1_0000_0000

  /** `uint32_t` */
  predicate IsWord(n: int) {
    0 <= n < WORD
  }

  // ----- The feed step

  function Tick(wdt: nat, heartbeat: nat): nat {
    var half := wdt / 2;
    var t := if half == 0 || half > heartbeat then heartbeat else half;
    if t == 0 then 1000 else t
  }

  /** The five facts about the feed step leave no choice. */
  lemma StepIsTick(wdt: nat, heartbeat: nat, tick: nat)
    requires tick > 0
    requires heartbeat == 0 ==> tick == 1000
    requires heartbeat >= 1 ==> tick <= heartbeat
    requires heartbeat >= 1 && wdt >= 2 ==> 2 * tick <= wdt
    requires heartbeat >= 1 && tick < heartbeat ==> 2 * (tick + 1) > wdt >= 2
    ensures tick == Tick(wdt, heartbeat)
  {
  }

  /** With a usable configuration the step is the smaller of half the timeout and the heartbeat period. */
  lemma TickIsSmaller(wdt: nat, heartbeat: nat)
    requires wdt >= 2 && heartbeat >= 1
    ensures Tick(wdt, heartbeat) == if wdt / 2 < heartbeat then wdt / 2 else heartbeat
    ensures 0 < Tick(wdt, heartbeat) <= heartbeat
  {
  }

  /**
    The task feeds itself in time exactly when the timeout is at least 2 ms and a heartbeat is configured,
    or no heartbeat is and the timeout exceeds the one-second default.
   */
  lemma FeedsInTime(wdt: nat, heartbeat: nat)
    ensures 0 < Tick(wdt, heartbeat)
    ensures Tick(wdt, heartbeat) < wdt <==> (heartbeat >= 1 && wdt >= 2) || (heartbeat == 0 && wdt > 1000)
  {
  }

  // ----- The publish cadence

  /** `since_publish_ms` before turn `n`, as the 32-bit variable holds it. */
  function SinceAfter(wdt: nat, heartbeat: nat, n: nat): nat {
    if n == 0 then heartbeat
    else
      var since := (SinceAfter(wdt, heartbeat, n - 1) + Tick(wdt, heartbeat)) % WORD;
      if since >= heartbeat then 0 else since
  }

  predicate Publishes(wdt: nat, heartbeat: nat, n: nat) {
    (SinceAfter(wdt, heartbeat, n) + Tick(wdt, heartbeat)) % WORD >= heartbeat
  }

  lemma RoundUpAtLeastOne(a: nat, t: nat)
    requires a >= 1 && t >= 1
    ensures (a + t - 1) / t >= 1
  {
    QuotientRemainder(a + t - 1, t, 0);
  }

  /** Turns from one publish to the next: the heartbeat period in steps, rounded up, but at least one. */
  function Cadence(wdt: nat, heartbeat: nat): (c: nat)
    ensures c >= 1
  {
    var t := Tick(wdt, heartbeat);
    if heartbeat == 0 then 1 else
    assert heartbeat + t - 1 >= t;
    RoundUpAtLeastOne(heartbeat, t);
    (heartbeat + t - 1) / t
  }

  lemma SinceNext(wdt: nat, heartbeat: nat, n: nat)
    ensures SinceAfter(wdt, heartbeat, 0) == heartbeat
    ensures SinceAfter(wdt, heartbeat, n + 1) == if Publishes(wdt, heartbeat, n) then 0
                                                 else (SinceAfter(wdt, heartbeat, n) + Tick(wdt, heartbeat)) % WORD
    ensures Publishes(wdt, heartbeat, n) <==> (SinceAfter(wdt, heartbeat, n) + Tick(wdt, heartbeat)) % WORD >= heartbeat
  {
  }

  /** The cadence is the least number of steps that reach the heartbeat period: a publish is less than one step late. */
  lemma CadenceBounds(wdt: nat, heartbeat: nat)
    requires heartbeat >= 1
    ensures var t, c := Tick(wdt, heartbeat), Cadence(wdt, heartbeat);
            heartbeat <= c * t < heartbeat + t && (c - 1) * t < heartbeat
  {
    var t, c := Tick(wdt, heartbeat), Cadence(wdt, heartbeat);
    assert heartbeat + t - 1 == c * t + (heartbeat + t - 1) % t;
    assert (c - 1) * t == c * t - t;
  }

  lemma TickAtMostHeartbeat(wdt: nat, heartbeat: nat)
    requires heartbeat >= 1
    ensures 0 < Tick(wdt, heartbeat) <= heartbeat
  {
  }

  lemma StepsAdd(k: nat, c: nat, t: nat, heartbeat: nat)
    requires k < c && heartbeat <= c * t < heartbeat + t && (c - 1) * t < heartbeat
    ensures k * t + t == (k + 1) * t <= c * t
    ensures (k + 1) * t >= heartbeat <==> k + 1 == c
  {
    if k + 1 < c {
      var d := c - 1 - (k + 1);
      assert (c - 1) * t == (k + 1) * t + d * t;
    }
  }

  /** One step of the counter below the heartbeat period: no overflow, and zero again at the cadence. */
  lemma CounterStep(k: nat, c: nat, t: nat, heartbeat: nat)
    requires k < c && heartbeat <= c * t < heartbeat + t && (c - 1) * t < heartbeat && heartbeat + t < WORD
    ensures 0 <= k * t
    ensures var since := (k * t + t) % WORD;
            if k + 1 == c then since >= heartbeat else since < heartbeat && since == (k + 1) * t
  {
    StepsAdd(k, c, t, heartbeat);
  }

  lemma SinceStep(wdt: nat, heartbeat: nat, n: nat, k: nat)
    requires heartbeat >= 1 && heartbeat + Tick(wdt, heartbeat) < WORD && k < Cadence(wdt, heartbeat)
    requires SinceAfter(wdt, heartbeat, n) == k * Tick(wdt, heartbeat)
    ensures Publishes(wdt, heartbeat, n) <==> k + 1 == Cadence(wdt, heartbeat)
    ensures k + 1 == Cadence(wdt, heartbeat) ==> SinceAfter(wdt, heartbeat, n + 1) == 0
    ensures k + 1 != Cadence(wdt, heartbeat) ==> SinceAfter(wdt, heartbeat, n + 1) == (k + 1) * Tick(wdt, heartbeat)
  {
    hide Tick, Cadence, SinceAfter, Publishes;
    TickAtMostHeartbeat(wdt, heartbeat);
    CadenceBounds(wdt, heartbeat);
    CounterStep(k, Cadence(wdt, heartbeat), Tick(wdt, heartbeat), heartbeat);
    SinceNext(wdt, heartbeat, n);
  }

  lemma NextRemainder(n: nat, c: nat)
    requires c >= 1
    ensures (n + 1) % c == if n % c + 1 == c then 0 else n % c + 1
  {
    var q := n / c;
    assert n == q * c + n % c;
    if n % c + 1 == c {
      assert n + 1 == (q + 1) * c + 0;
      ModUnique(n + 1, q + 1, 0, c);
    } else {
      ModUnique(n + 1, q, n % c + 1, c);
    }
  }

  /** Before turn `n` the counter holds the steps since the last publish. */
  lemma {:induction false} SinceCounts(wdt: nat, heartbeat: nat, n: nat)
    requires heartbeat >= 1 && n >= 1 && heartbeat + Tick(wdt, heartbeat) < WORD
    ensures SinceAfter(wdt, heartbeat, n) == (n - 1) % Cadence(wdt, heartbeat) * Tick(wdt, heartbeat)
    decreases n
  {
    hide Tick, Cadence, SinceAfter, Publishes;
    var c := Cadence(wdt, heartbeat);
    if n == 1 {
      TickAtMostHeartbeat(wdt, heartbeat);
      SinceNext(wdt, heartbeat, 0);
      assert 0 % c == 0;
    } else {
      SinceCounts(wdt, heartbeat, n - 1);
      SinceStep(wdt, heartbeat, n - 1, (n - 2) % c);
      NextRemainder(n - 2, c);
    }
  }

  lemma EveryTurnPublishes(wdt: nat, n: nat)
    ensures Publishes(wdt, 0, n) && n % Cadence(wdt, 0) == 0
  {
    ModUnique(n, n, 0, 1);
    hide SinceAfter, Tick;
  }

  /**
    Over the whole run, turn `n` publishes exactly when `n` is a multiple of the cadence: the first turn
    does, and consecutive publishes are `Cadence * Tick` apart.
   */
  lemma PublishesEveryCadence(wdt: nat, heartbeat: nat, n: nat)
    requires heartbeat + Tick(wdt, heartbeat) < WORD
    ensures Publishes(wdt, heartbeat, n) <==> n % Cadence(wdt, heartbeat) == 0
  {
    if heartbeat == 0 {
      EveryTurnPublishes(wdt, n);
    } else {
      hide Tick, Cadence, SinceAfter, Publishes;
      var c := Cadence(wdt, heartbeat);
      if n == 0 {
        TickAtMostHeartbeat(wdt, heartbeat);
        SinceNext(wdt, heartbeat, 0);
        assert 0 % c == 0;
      } else {
        SinceCounts(wdt, heartbeat, n);
        SinceStep(wdt, heartbeat, n, (n - 1) % c);
        NextRemainder(n - 1, c);
      }
    }
  }

  /** The first turn publishes exactly when the start value and one step still fit in 32 bits. */
  lemma FirstTurnPublishes(wdt: nat, heartbeat: nat)
    requires IsWord(wdt) && IsWord(heartbeat)
    ensures Publishes(wdt, heartbeat, 0) <==> heartbeat + Tick(wdt, heartbeat) < WORD || heartbeat == 0
  {
    assert SinceAfter(wdt, heartbeat, 0) == heartbeat;
    if heartbeat >= 1 {
      TickAtMostHeartbeat(wdt, heartbeat);
    }
  }

  /** The cadence holds over the whole run exactly when the start value and one step fit in 32 bits. */
  lemma CadenceExact(wdt: nat, heartbeat: nat)
    requires IsWord(wdt) && IsWord(heartbeat)
    ensures (forall n: nat :: Publishes(wdt, heartbeat, n) <==> n % Cadence(wdt, heartbeat) == 0)
       <==> heartbeat + Tick(wdt, heartbeat) < WORD
  {
    if heartbeat + Tick(wdt, heartbeat) < WORD {
      forall n: nat
        ensures Publishes(wdt, heartbeat, n) <==> n % Cadence(wdt, heartbeat) == 0
      {
        PublishesEveryCadence(wdt, heartbeat, n);
      }
    } else {
      FirstTurnPublishes(wdt, heartbeat);
      assert 0 % Cadence(wdt, heartbeat) == 0;
    }
  }

  // ----- The task

  class Task {
    var wdtTimeoutMs: nat
    var heartbeatPeriodMs: nat
    var initialized: bool

    constructor ()
      ensures !initialized
    {
      wdtTimeoutMs := 0;
      heartbeatPeriodMs := 0;
      initialized := false;
    }

    /** `system_supervisor_init`; `wdtOk` is what setting up the task watchdog returned. */
    method Init(wdt: nat, heartbeat: nat, wdtOk: bool) returns (ok: bool)
      requires IsWord(wdt) && IsWord(heartbeat)
      modifies this
      ensures ok <==> wdt != 0 && wdtOk
      ensures ok ==> initialized && wdtTimeoutMs == wdt && heartbeatPeriodMs == heartbeat
      ensures !ok ==> unchanged(this)
    {
      if wdt == 0 {
        return false;
      }
      if !wdtOk {
        return false;
      }
      wdtTimeoutMs := wdt;
      heartbeatPeriodMs := heartbeat;
      initialized := true;
      return true;
    }

    /**
      The derivation of the feed step at the head of `task_supervisor`: the largest step that neither exceeds
      the heartbeat period nor half the timeout, where there is one.
     */
    method TickStep() returns (tickMs: nat)
      ensures tickMs > 0
      ensures heartbeatPeriodMs == 0 ==> tickMs == 1000
      ensures heartbeatPeriodMs >= 1 ==> tickMs <= heartbeatPeriodMs
      ensures heartbeatPeriodMs >= 1 && wdtTimeoutMs >= 2 ==> 2 * tickMs <= wdtTimeoutMs
      ensures heartbeatPeriodMs >= 1 && tickMs < heartbeatPeriodMs ==> 2 * (tickMs + 1) > wdtTimeoutMs >= 2
    {
      tickMs := wdtTimeoutMs / 2;
      if tickMs == 0 || tickMs > heartbeatPeriodMs {
        tickMs := heartbeatPeriodMs;
      }
      if tickMs == 0 {
        tickMs := 1000;
      }
    }

    /** `n` turns of the endless loop of `task_supervisor`: each feeds the watchdog once, and some publish. */
    method RunTurns(n: nat) returns (published: seq<bool>, feeds: nat)
      requires IsWord(wdtTimeoutMs) && IsWord(heartbeatPeriodMs)
      ensures |published| == n && feeds == n
      ensures heartbeatPeriodMs + Tick(wdtTimeoutMs, heartbeatPeriodMs) < WORD ==>
                forall i :: 0 <= i < n ==>
                  (published[i] <==> i % Cadence(wdtTimeoutMs, heartbeatPeriodMs) == 0)
    {
      hide Tick, Cadence, SinceAfter, Publishes;
      var tickMs := TickStep();
      StepIsTick(wdtTimeoutMs, heartbeatPeriodMs, tickMs);
      var sincePublishMs := heartbeatPeriodMs;
      published, feeds := [], 0;
      SinceNext(wdtTimeoutMs, heartbeatPeriodMs, 0);
      for i := 0 to n
        invariant |published| == i && feeds == i
        invariant sincePublishMs == SinceAfter(wdtTimeoutMs, heartbeatPeriodMs, i)
        invariant forall k :: 0 <= k < i ==> published[k] == Publishes(wdtTimeoutMs, heartbeatPeriodMs, k)
      {
        SinceNext(wdtTimeoutMs, heartbeatPeriodMs, i);
        feeds := feeds + 1;
        sincePublishMs := (sincePublishMs + tickMs) % WORD;
        if sincePublishMs >= heartbeatPeriodMs {
          sincePublishMs := 0;
          published := published + [true];
        } else {
          published := published + [false];
        }
      }
      forall i | 0 <= i < n && heartbeatPeriodMs + Tick(wdtTimeoutMs, heartbeatPeriodMs) < WORD
        ensures published[i] <==> i % Cadence(wdtTimeoutMs, heartbeatPeriodMs) == 0
      {
        PublishesEveryCadence(wdtTimeoutMs, heartbeatPeriodMs, i);
      }
    }
  }
}
