/**
  The logging facade as a protocol: logging tasks print to serial and queue a copy, one forwarder task drains
  the queue into a sink that may itself log. Every read or write of shared state is a step of its own, so a
  run is any interleaving of the steps of any number of tasks.
 */
module SystemLog {

  const LINE_MAX := 160
  const QUEUE_DEPTH := 16
  /** The task that runs `task_log_forwarder`. */
  const FORWARDER := 0

  /** A line written to serial, with the length its formatting reports (0 or less if there is nothing to queue). */
  datatype Printed = Printed(task: int, written: int)

  /** A queued copy: the place of its line in the serial output, and its length in the buffer. */
  datatype Entry = Entry(line: nat, len: nat)

  /** How far a task is in `log_vprintf`. */
  datatype Logging = Idle | Serial(line: nat) | SinkSeen(line: nat) | Admitted(line: nat)

  /** How far the forwarder is in its loop. */
  datatype Forwarder = Waiting | Received(e: Entry) | SinkLoaded(e: Entry) | Flagged(e: Entry) | Delivering(e: Entry)

  datatype State = State(
    serial: seq<Printed>,
    queue: seq<Entry>,
    delivered: seq<Entry>,
    sink: bool,
    forwarding: bool,
    tasks: map<int, Logging>,
    forwarder: Forwarder)

  datatype Action =
    /** A task prints a line; the forwarder task does so only from inside the sink. */
    | Print(task: int, written: int)
    | ReadSink(task: int)
    | ReadForwarding(task: int)
    | Enqueue(task: int)
    | SetSink(present: bool)
    | Receive
    | LoadSink
    | RaiseFlag
    | CallSink
    | LowerFlag

  function At(s: State, task: int): Logging {
    if task in s.tasks then s.tasks[task] else Idle
  }

  predicate Enabled(s: State, a: Action) {
    match a
    case Print(t, _) => At(s, t) == Idle && (t == FORWARDER ==> s.forwarder.Delivering?)
    case ReadSink(t) => At(s, t).Serial?
    case ReadForwarding(t) => At(s, t).SinkSeen?
    case Enqueue(t) => At(s, t).Admitted? && At(s, t).line < |s.serial|
    case SetSink(_) => true
    case Receive => s.forwarder == Waiting && s.queue != []
    case LoadSink => s.forwarder.Received?
    case RaiseFlag => s.forwarder.SinkLoaded?
    case CallSink => s.forwarder.Flagged?
    case LowerFlag => s.forwarder.Delivering? && At(s, FORWARDER) == Idle
  }

  function Capped(written: int): nat {
    if written < 0 then 0 else if written < LINE_MAX then written else LINE_MAX - 1
  }

  function Step(s: State, a: Action): State
    requires Enabled(s, a)
  {
    match a
    case Print(t, w) => s.(serial := s.serial + [Printed(t, w)], tasks := s.tasks[t := Serial(|s.serial|)])
    case ReadSink(t) => s.(tasks := s.tasks[t := if s.sink then SinkSeen(At(s, t).line) else Idle])
    case ReadForwarding(t) => s.(tasks := s.tasks[t := if s.forwarding then Idle else Admitted(At(s, t).line)])
    case Enqueue(t) =>
      var line := At(s, t).line;
      var w := s.serial[line].written;
      var queue := if w > 0 && |s.queue| < QUEUE_DEPTH then s.queue + [Entry(line, Capped(w))] else s.queue;
      s.(queue := queue, tasks := s.tasks[t := Idle])
    case SetSink(present) => s.(sink := present)
    case Receive => s.(queue := s.queue[1..], forwarder := Received(s.queue[0]))
    case LoadSink => s.(forwarder := if s.sink then SinkLoaded(s.forwarder.e) else Waiting)
    case RaiseFlag => s.(forwarding := true, forwarder := Flagged(s.forwarder.e))
    case CallSink => s.(delivered := s.delivered + [s.forwarder.e], forwarder := Delivering(s.forwarder.e))
    case LowerFlag => s.(forwarding := false, forwarder := Waiting)
  }

  /** An action that is not enabled leaves the state alone, so every sequence of actions is a run. */
  function Run(s: State, actions: seq<Action>): State {
    if actions == [] then s
    else
      var before := Run(s, actions[..|actions| - 1]);
      var a := actions[|actions| - 1];
      if Enabled(before, a) then Step(before, a) else before
  }

  /** The state `system_log_init` leaves: hook installed, no sink. */
  function Start(): State {
    State([], [], [], false, false, map[], Waiting)
  }

  // ----- The invariant

  /** The line the forwarder has taken from the queue and not yet handed to the sink. */
  function InHand(s: State): seq<Entry> {
    if s.forwarder.Received? || s.forwarder.SinkLoaded? || s.forwarder.Flagged? then [s.forwarder.e] else []
  }

  /** Everything that has passed through the queue and was not discarded, oldest first. */
  function Pipeline(s: State): seq<Entry> {
    s.delivered + InHand(s) + s.queue
  }

  /** A faithful copy of a line that another task than the forwarder printed. */
  ghost predicate Genuine(s: State, e: Entry) {
    && e.line < |s.serial|
    && s.serial[e.line].task != FORWARDER
    && s.serial[e.line].written > 0
    && e.len == Capped(s.serial[e.line].written)
  }

  ghost predicate AllGenuine(s: State, p: seq<Entry>) {
    forall i :: 0 <= i < |p| ==> Genuine(s, p[i])
  }

  /** The task that printed a line. */
  function Author(s: State, line: nat): int {
    if line < |s.serial| then s.serial[line].task else FORWARDER
  }

  /** Lines of one task appear in the order in which the task printed them. */
  ghost predicate InOrder(s: State, p: seq<Entry>) {
    forall i, j :: 0 <= i < j < |p| && Author(s, p[i].line) == Author(s, p[j].line) ==> p[i].line < p[j].line
  }

  /** All lines of task `t` in `p` come before `line`. */
  ghost predicate Before(s: State, p: seq<Entry>, t: int, line: nat) {
    forall i :: 0 <= i < |p| && Author(s, p[i].line) == t ==> p[i].line < line
  }

  /** What a task in the middle of `log_vprintf` is working on: its own latest line, not queued yet. */
  ghost predicate TaskSound(s: State, p: seq<Entry>, t: int) {
    At(s, t) != Idle ==>
      var line := At(s, t).line;
      line < |s.serial| && s.serial[line].task == t && Before(s, p, t, line)
  }

  ghost predicate TasksSound(s: State, p: seq<Entry>) {
    forall t :: TaskSound(s, p, t)
  }

  /** The flag is up exactly around a delivery, and the forwarder task never gets past it. */
  predicate Guarded(s: State) {
    && (s.forwarding <==> s.forwarder.Flagged? || s.forwarder.Delivering?)
    && !At(s, FORWARDER).Admitted?
    && (At(s, FORWARDER) != Idle ==> s.forwarder.Delivering?)
  }

  predicate Bounded(s: State) {
    |s.queue| <= QUEUE_DEPTH
  }

  ghost predicate Inv(s: State) {
    && Guarded(s)
    && Bounded(s)
    && AllGenuine(s, Pipeline(s))
    && InOrder(s, Pipeline(s))
    && TasksSound(s, Pipeline(s))
  }

  lemma StartInv()
    ensures Inv(Start())
  {
  }

  // ----- What a step does to the pipeline

  function Without(p: seq<Entry>, k: nat): (q: seq<Entry>)
    requires k < |p|
    ensures |q| == |p| - 1 && forall i :: 0 <= i < |q| ==> q[i] == p[if i < k then i else i + 1]
  {
    p[..k] + p[k + 1..]
  }

  predicate Queues(s: State, a: Action) {
    a.Enqueue? && Enabled(s, a) && s.serial[At(s, a.task).line].written > 0 && |s.queue| < QUEUE_DEPTH
  }

  predicate Discards(s: State, a: Action) {
    a.LoadSink? && Enabled(s, a) && !s.sink
  }

  /** The entry that a successful enqueue adds. */
  function Copy(s: State, t: int): Entry
    requires At(s, t).Admitted? && At(s, t).line < |s.serial|
  {
    Entry(At(s, t).line, Capped(s.serial[At(s, t).line].written))
  }

  lemma EnqueuePipeline(s: State, t: int)
    requires Enabled(s, Enqueue(t))
    ensures Pipeline(Step(s, Enqueue(t))) == Pipeline(s) + if Queues(s, Enqueue(t)) then [Copy(s, t)] else []
  {
  }

  lemma LoadSinkPipeline(s: State)
    requires Enabled(s, LoadSink)
    ensures |s.delivered| < |Pipeline(s)|
    ensures Pipeline(Step(s, LoadSink))
         == if Discards(s, LoadSink) then Without(Pipeline(s), |s.delivered|) else Pipeline(s)
  {
  }

  lemma OtherPipeline(s: State, a: Action)
    requires Enabled(s, a) && !a.Enqueue? && !a.LoadSink?
    ensures Pipeline(Step(s, a)) == Pipeline(s)
  {
  }

  // ----- Each part of the invariant is kept

  lemma GuardKept(s: State, a: Action)
    requires Guarded(s) && Enabled(s, a)
    ensures Guarded(Step(s, a))
  {
  }

  lemma BoundKept(s: State, a: Action)
    requires Bounded(s) && Enabled(s, a)
    ensures Bounded(Step(s, a))
  {
  }

  lemma SerialGrows(s: State, a: Action)
    requires Enabled(s, a)
    ensures s.serial <= Step(s, a).serial
  {
  }

  /** Nothing that is known of lines already printed changes when others are printed. */
  lemma PartsGrow(s: State, r: State, p: seq<Entry>)
    requires s.serial <= r.serial && AllGenuine(s, p)
    ensures AllGenuine(r, p)
    ensures InOrder(s, p) ==> InOrder(r, p)
    ensures forall t, line :: Before(s, p, t, line) ==> Before(r, p, t, line)
  {
  }

  lemma PartsWithout(s: State, p: seq<Entry>, k: nat)
    requires k < |p|
    ensures AllGenuine(s, p) ==> AllGenuine(s, Without(p, k))
    ensures InOrder(s, p) ==> InOrder(s, Without(p, k))
    ensures forall t, line :: Before(s, p, t, line) ==> Before(s, Without(p, k), t, line)
  {
    hide Without, Author, Genuine;
    var q := Without(p, k);
    forall t, line | Before(s, p, t, line)
      ensures Before(s, q, t, line)
    {
    }
  }

  lemma PartsWith(s: State, p: seq<Entry>, e: Entry)
    requires Genuine(s, e) && Before(s, p, Author(s, e.line), e.line)
    ensures AllGenuine(s, p) ==> AllGenuine(s, p + [e])
    ensures InOrder(s, p) ==> InOrder(s, p + [e])
    ensures forall t, line :: t != Author(s, e.line) && Before(s, p, t, line) ==> Before(s, p + [e], t, line)
  {
    hide Author, Genuine;
  }

  /** The entries of the pipeline all lie in the serial output so far. */
  lemma PrintedSoFar(s: State, p: seq<Entry>, t: int)
    requires AllGenuine(s, p)
    ensures Before(s, p, t, |s.serial|)
  {
  }

  /** The steps that leave the pipeline as it is. */
  lemma QuietInv(s: State, a: Action)
    requires Inv(s) && Enabled(s, a) && Pipeline(Step(s, a)) == Pipeline(s) && !a.Enqueue?
    ensures Inv(Step(s, a))
  {
    hide Pipeline, Genuine, AllGenuine, InOrder, Before, Author, Guarded, Bounded;
    var r, p := Step(s, a), Pipeline(s);
    GuardKept(s, a);
    BoundKept(s, a);
    SerialGrows(s, a);
    PartsGrow(s, r, p);
    forall u
      ensures TaskSound(r, p, u)
    {
      assert TaskSound(s, p, u);
      PrintedSoFar(s, p, u);
    }
  }

  /** The line that a task puts into the queue is genuine: the forwarder's own never get here. */
  lemma AdmittedGenuine(s: State, t: int)
    requires Inv(s) && Queues(s, Enqueue(t))
    ensures Genuine(s, Copy(s, t)) && Author(s, Copy(s, t).line) == t
    ensures Before(s, Pipeline(s), t, Copy(s, t).line)
  {
    hide Pipeline, AllGenuine, InOrder, Before;
    assert TaskSound(s, Pipeline(s), t);
  }

  lemma EnqueueInv(s: State, t: int)
    requires Inv(s) && Enabled(s, Enqueue(t))
    ensures Inv(Step(s, Enqueue(t)))
  {
    hide Pipeline, Genuine, AllGenuine, InOrder, Before, Author, Guarded, Bounded;
    var a := Enqueue(t);
    var r, p := Step(s, a), Pipeline(s);
    GuardKept(s, a);
    BoundKept(s, a);
    EnqueuePipeline(s, t);
    if Queues(s, a) {
      AdmittedGenuine(s, t);
      PartsWith(s, p, Copy(s, t));
    } else {
      assert Pipeline(r) == p;
    }
    PartsGrow(s, r, Pipeline(r));
    forall u
      ensures TaskSound(r, Pipeline(r), u)
    {
      assert TaskSound(s, p, u);
    }
  }

  /** Discarding the line in hand, when the sink has gone, keeps the rest in order. */
  lemma LoadSinkInv(s: State)
    requires Inv(s) && Enabled(s, LoadSink)
    ensures Inv(Step(s, LoadSink))
  {
    hide Pipeline, Genuine, AllGenuine, InOrder, Before, Author, Guarded, Bounded;
    var r, p := Step(s, LoadSink), Pipeline(s);
    LoadSinkPipeline(s);
    if Discards(s, LoadSink) {
      GuardKept(s, LoadSink);
      BoundKept(s, LoadSink);
      PartsWithout(s, p, |s.delivered|);
      PartsGrow(s, r, Pipeline(r));
      forall u
        ensures TaskSound(r, Pipeline(r), u)
      {
        assert TaskSound(s, p, u);
      }
    } else {
      QuietInv(s, LoadSink);
    }
  }

  lemma StepInv(s: State, a: Action)
    requires Inv(s) && Enabled(s, a)
    ensures Inv(Step(s, a))
  {
    hide Inv, Step, Enabled;
    match a {
      case Enqueue(t) => EnqueueInv(s, t);
      case LoadSink => LoadSinkInv(s);
      case _ =>
        OtherPipeline(s, a);
        QuietInv(s, a);
    }
  }

  lemma {:induction false} RunInv(s: State, actions: seq<Action>)
    requires Inv(s)
    ensures Inv(Run(s, actions))
  {
    hide Inv, Step;
    if actions != [] {
      RunInv(s, actions[..|actions| - 1]);
      var before := Run(s, actions[..|actions| - 1]);
      if Enabled(before, actions[|actions| - 1]) {
        StepInv(before, actions[|actions| - 1]);
      }
    }
  }

  lemma EntryGenuine(s: State, e: Entry)
    requires Inv(s) && (e in s.queue || e in s.delivered)
    ensures Genuine(s, e)
  {
    hide Genuine, InOrder, TasksSound, Guarded;
    if e in s.delivered {
      var i :| 0 <= i < |s.delivered| && s.delivered[i] == e;
      assert Pipeline(s)[i] == e;
    } else {
      var i :| 0 <= i < |s.queue| && s.queue[i] == e;
      assert Pipeline(s)[|s.delivered + InHand(s)| + i] == e;
    }
  }

  /** What is queued or delivered in a state that satisfies the invariant. */
  lemma NothingFedBack(s: State, e: Entry)
    requires Inv(s)
    ensures |s.queue| <= 16
    ensures e in s.queue || e in s.delivered ==>
              && e.line < |s.serial| && s.serial[e.line].task != FORWARDER && 1 <= e.len <= 159
              && e.len == if s.serial[e.line].written < 160 then s.serial[e.line].written else 159
  {
    hide Pipeline, AllGenuine, InOrder, TasksSound, Guarded;
    if e in s.queue || e in s.delivered {
      EntryGenuine(s, e);
    }
  }

  // ----- What it means for every run

  /**
    Over every interleaving: nothing the sink prints from inside the forwarder is ever queued or delivered,
    the queue stays within its depth, queued lengths within the buffer, and what is queued or delivered is a
    copy of a non-empty line that another task printed.
   */
  lemma NoFeedback(actions: seq<Action>, e: Entry)
    ensures var s := Run(Start(), actions);
            && |s.queue| <= 16
            && (e in s.queue || e in s.delivered ==>
                  e.line < |s.serial| && s.serial[e.line].task != FORWARDER && 1 <= e.len <= 159
                  && e.len == if s.serial[e.line].written < 160 then s.serial[e.line].written else 159)
  {
    hide Run, Inv;
    StartInv();
    RunInv(Start(), actions);
    NothingFedBack(Run(Start(), actions), e);
  }

  lemma DeliveredOrder(s: State, i: nat, j: nat)
    requires Inv(s) && i < j < |s.delivered|
    ensures s.delivered[i].line < |s.serial| && s.delivered[j].line < |s.serial|
    ensures s.delivered[i].line != s.delivered[j].line
    ensures s.serial[s.delivered[i].line].task == s.serial[s.delivered[j].line].task ==>
              s.delivered[i].line < s.delivered[j].line
  {
    hide TasksSound, Guarded;
    assert s.delivered[i] == Pipeline(s)[i] && s.delivered[j] == Pipeline(s)[j];
    assert Genuine(s, Pipeline(s)[i]) && Genuine(s, Pipeline(s)[j]);
  }

  /**
    Over every interleaving the delivered lines of each task are an in-order subsequence of what it printed,
    without repetition.
   */
  lemma DeliveredInOrder(actions: seq<Action>, i: nat, j: nat)
    requires i < j < |Run(Start(), actions).delivered|
    ensures var s := Run(Start(), actions);
            && s.delivered[i].line < |s.serial| && s.delivered[j].line < |s.serial|
            && s.delivered[i].line != s.delivered[j].line
            && (s.serial[s.delivered[i].line].task == s.serial[s.delivered[j].line].task ==>
                  s.delivered[i].line < s.delivered[j].line)
  {
    hide Run, Inv;
    StartInv();
    RunInv(Start(), actions);
    DeliveredOrder(Run(Start(), actions), i, j);
  }

  // ----- Draining

  /** Steps of the forwarder task and of the sink it runs, including what the sink prints. */
  predicate ByForwarder(a: Action) {
    match a
    case Print(t, _) => t == FORWARDER
    case ReadSink(t) => t == FORWARDER
    case ReadForwarding(t) => t == FORWARDER
    case Enqueue(t) => t == FORWARDER
    case SetSink(_) => false
    case _ => true
  }

  lemma ForwarderStepDrains(s: State, a: Action)
    requires Inv(s) && Enabled(s, a) && ByForwarder(a)
    ensures var r := Step(s, a);
            && r.sink == s.sink
            && |r.delivered| + |InHand(r)| + |r.queue| <= |s.delivered| + |InHand(s)| + |s.queue|
            && (s.sink ==> Pipeline(r) == Pipeline(s))
  {
  }

  /**
    Once no other task runs, the forwarder delivers at most what was queued or in hand, however much its sink
    logs; and while the sink stays registered it delivers exactly that, in order: when it comes to rest with
    an empty queue, the whole pipeline has been delivered.
   */
  lemma {:induction false} Drains(s: State, actions: seq<Action>)
    requires Inv(s) && forall i :: 0 <= i < |actions| ==> ByForwarder(actions[i])
    ensures var r := Run(s, actions);
            && r.sink == s.sink
            && |r.delivered| + |InHand(r)| + |r.queue| <= |s.delivered| + |InHand(s)| + |s.queue|
            && (s.sink ==> Pipeline(r) == Pipeline(s))
            && (s.sink && r.forwarder == Waiting && r.queue == [] ==> r.delivered == Pipeline(s))
            && (s.sink && s.forwarder == Waiting && r.forwarder == Waiting && r.queue == [] ==>
                  r.delivered == s.delivered + s.queue)
  {
    hide Inv, Step;
    if actions != [] {
      var init, a := actions[..|actions| - 1], actions[|actions| - 1];
      Drains(s, init);
      RunInv(s, init);
      if Enabled(Run(s, init), a) {
        ForwarderStepDrains(Run(s, init), a);
      }
    }
  }

  // ----- Lines do get through

  lemma {:induction false} RunConcat(s: State, a: seq<Action>, b: seq<Action>)
    ensures Run(s, a + b) == Run(Run(s, a), b)
  {
    hide Step, Enabled;
    if b == [] {
      assert a + b == a;
    } else {
      assert (a + b)[..|a + b| - 1] == a + b[..|b| - 1];
      RunConcat(s, a, b[..|b| - 1]);
    }
  }

  lemma RunOne(s: State, a: Action)
    ensures Run(s, [a]) == if Enabled(s, a) then Step(s, a) else s
  {
    hide Step, Enabled;
    assert [a][..0] == [];
    assert Run(s, []) == s;
  }

  /** Not a step of task `t` in `log_vprintf`. */
  predicate Foreign(a: Action, t: int) {
    a.Print? || a.ReadSink? || a.ReadForwarding? || a.Enqueue? ==> a.task != t
  }

  lemma ForeignStep(s: State, a: Action, t: int)
    requires Enabled(s, a) && Foreign(a, t)
    ensures At(Step(s, a), t) == At(s, t) && s.serial <= Step(s, a).serial
  {
  }

  /** Whatever other tasks, the forwarder and its sink do, a task stays where it is and its line stays printed. */
  lemma {:induction false} ForeignRun(s: State, x: seq<Action>, t: int)
    requires forall i :: 0 <= i < |x| ==> Foreign(x[i], t)
    ensures At(Run(s, x), t) == At(s, t) && s.serial <= Run(s, x).serial
  {
    hide Step, Enabled, Foreign, At;
    if x != [] {
      var n := |x| - 1;
      ForeignRun(s, x[..n], t);
      if Enabled(Run(s, x[..n]), x[n]) {
        ForeignStep(Run(s, x[..n]), x[n], t);
      }
    }
  }

  /** One step of a task, then any steps that are not its own. */
  lemma OwnStep(s: State, a: Action, x: seq<Action>, t: int)
    requires forall i :: 0 <= i < |x| ==> Foreign(x[i], t)
    ensures var now := if Enabled(s, a) then Step(s, a) else s;
            At(Run(s, [a] + x), t) == At(now, t) && now.serial <= Run(s, [a] + x).serial
  {
    hide Step, Enabled, Foreign, At;
    RunConcat(s, [a], x);
    RunOne(s, a);
    ForeignRun(Run(s, [a]), x, t);
  }

  /**
    Over every interleaving: a line that a task other than the forwarder prints is queued, as a copy cut at 159
    characters, exactly if it is not empty, the sink is there when the task looks for it, the flag is down when
    the task looks at it, and the queue has room in the end. `x`, `y` and `z` are what everybody else does in
    between.
   */
  lemma LineGetsThrough(s: State, t: int, w: int, x: seq<Action>, y: seq<Action>, z: seq<Action>)
    requires t != FORWARDER && At(s, t) == Idle
    requires forall i :: 0 <= i < |x| ==> Foreign(x[i], t)
    requires forall i :: 0 <= i < |y| ==> Foreign(y[i], t)
    requires forall i :: 0 <= i < |z| ==> Foreign(z[i], t)
    ensures var looks := Run(s, [Print(t, w)] + x);
            var asks := Run(looks, [ReadSink(t)] + y);
            var sends := Run(asks, [ReadForwarding(t)] + z);
            var r := Run(sends, [Enqueue(t)]);
            && At(r, t) == Idle
            && r.queue == (if looks.sink && !asks.forwarding && w > 0 && |sends.queue| < 16
                           then sends.queue + [Entry(|s.serial|, if w < 160 then w else 159)]
                           else sends.queue)
  {
    hide Run;
    var looks := Run(s, [Print(t, w)] + x);
    var asks := Run(looks, [ReadSink(t)] + y);
    var sends := Run(asks, [ReadForwarding(t)] + z);
    OwnStep(s, Print(t, w), x, t);
    OwnStep(looks, ReadSink(t), y, t);
    OwnStep(asks, ReadForwarding(t), z, t);
    RunOne(sends, Enqueue(t));
    assert sends.serial[|s.serial|] == Printed(t, w);
  }

  /** Not a step of the forwarder in its own loop; what its sink prints is not one either. */
  predicate NotForwarding(a: Action) {
    !a.Receive? && !a.LoadSink? && !a.RaiseFlag? && !a.CallSink? && !a.LowerFlag?
  }

  lemma {:induction false} OthersRun(s: State, x: seq<Action>)
    requires forall i :: 0 <= i < |x| ==> NotForwarding(x[i])
    ensures var r := Run(s, x);
            && r.forwarder == s.forwarder && r.forwarding == s.forwarding && r.delivered == s.delivered
            && s.queue <= r.queue
  {
    if x != [] {
      OthersRun(s, x[..|x| - 1]);
    }
  }

  lemma LoopStep(s: State, a: Action, x: seq<Action>)
    requires forall i :: 0 <= i < |x| ==> NotForwarding(x[i])
    ensures var now, r := if Enabled(s, a) then Step(s, a) else s, Run(s, [a] + x);
            && r.forwarder == now.forwarder && r.forwarding == now.forwarding && r.delivered == now.delivered
            && now.queue <= r.queue
  {
    hide Step, Enabled, NotForwarding;
    RunConcat(s, [a], x);
    RunOne(s, a);
    OthersRun(Run(s, [a]), x);
  }

  /**
    Over every interleaving: the forwarder takes the oldest queued line and delivers it exactly if the sink is
    there when it looks, with the flag up from before the delivery on.
   */
  lemma EntryGetsThrough(s: State, x: seq<Action>, y: seq<Action>, z: seq<Action>)
    requires s.forwarder == Waiting && s.queue != []
    requires forall i :: 0 <= i < |x| ==> NotForwarding(x[i])
    requires forall i :: 0 <= i < |y| ==> NotForwarding(y[i])
    requires forall i :: 0 <= i < |z| ==> NotForwarding(z[i])
    ensures var looks := Run(s, [Receive] + x);
            var raises := Run(looks, [LoadSink] + y);
            var calls := Run(raises, [RaiseFlag] + z);
            var r := Run(calls, [CallSink]);
            && r.delivered == (if looks.sink then s.delivered + [s.queue[0]] else s.delivered)
            && s.queue[1..] <= r.queue
            && (looks.sink ==> calls.forwarding && r.forwarding)
  {
    hide Run;
    var looks := Run(s, [Receive] + x);
    var raises := Run(looks, [LoadSink] + y);
    var calls := Run(raises, [RaiseFlag] + z);
    LoopStep(s, Receive, x);
    LoopStep(looks, LoadSink, y);
    LoopStep(raises, RaiseFlag, z);
    RunOne(calls, CallSink);
  }
}
