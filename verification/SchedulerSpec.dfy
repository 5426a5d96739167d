/**
 The scheduler and process table as an abstract machine: the run queue is a
 sequence of slot numbers and the pointers of the implementation are gone.
 `Scheduler.dfy` proves that the linked implementation refines this machine;
 the theorems about whole runs are proved here.
 */
module SchedulerSpec {
  import opened Basics
  import opened Counting

  const MAX_PROCESSES := 64
  const DEFAULT_TIME_SLICE := 10
  /** Slot 0 of the process table is the idle process. */
  const IDLE := 0

  datatype State = Unused | Ready | Running | Blocked | Terminated

  datatype Proc = Proc(state: State, slice: nat, wake: nat, cpu: nat)

  datatype Machine = Machine(
    procs: seq<Proc>,      // process table, one entry per slot
    queue: seq<nat>,       // run queue, head first
    current: nat,          // slot of current_process
    nextPid: nat,          // next PID, and next free slot
    now: nat,              // timer ticks delivered so far
    resched: bool)         // need_reschedule

  datatype Event =
    | Tick
    | Yield
    | Block
    | Unblock(pid: nat)
    | Exit
    | Create(stackOk: bool)
    | PrepareSleep(ms: nat)
    | FinishSleep

  /** What holds of the table whichever process is in the middle of changing state. */
  ghost predicate Shape(m: Machine) {
    && |m.procs| == MAX_PROCESSES
    && 0 < m.nextPid <= MAX_PROCESSES
    && m.current < m.nextPid
    && (forall i :: 0 <= i < MAX_PROCESSES ==> (m.procs[i].state.Unused? <==> m.nextPid <= i))
    && Distinct(m.queue)
    && (forall i :: i in m.queue <==> 0 < i < MAX_PROCESSES && m.procs[i].state.Ready?)
    && (m.procs[IDLE].state.Ready? || m.procs[IDLE].state.Running?)
    && (forall i :: 0 <= i < MAX_PROCESSES && i != m.current ==> !m.procs[i].state.Running?)
  }

  /** The invariant of every state reachable after the scheduler has started. */
  ghost predicate Inv(m: Machine) {
    && Shape(m)
    && m.procs[m.current].state.Running?
    && 1 <= m.procs[m.current].slice <= DEFAULT_TIME_SLICE
  }

  // ---------------------------------------------------------------- steps

  function SetProc(m: Machine, p: nat, x: Proc): Machine
    requires p < |m.procs|
  {
    m.(procs := m.procs[p := x])
  }

  function SetState(m: Machine, p: nat, st: State): Machine
    requires p < |m.procs|
  {
    SetProc(m, p, m.procs[p].(state := st))
  }

  function SetSlice(m: Machine, p: nat): Machine
    requires p < |m.procs|
  {
    SetProc(m, p, m.procs[p].(slice := DEFAULT_TIME_SLICE))
  }

  function Enqueue(m: Machine, p: nat): Machine
    requires p < |m.procs|
  {
    if p == IDLE || p in m.queue then m
    else SetState(m, p, Ready).(queue := m.queue + [p])
  }

  /** Give the CPU to `next` with `rest` still queued; a still-running process goes to the tail. */
  function SwitchTo(m: Machine, next: nat, rest: seq<nat>): (r: Machine)
    requires m.current < |m.procs| && next < |m.procs|
  {
    var prev := m.procs[m.current];
    var back := prev.state.Running?;
    var prev' := if back then prev.(state := Ready, slice := DEFAULT_TIME_SLICE) else prev;
    m.(procs := m.procs[m.current := prev'][next := m.procs[next].(state := Running, slice := DEFAULT_TIME_SLICE)],
       queue := if back && m.current != IDLE && m.current !in rest then rest + [m.current] else rest,
       current := next)
  }

  /** Dispatch the head of the queue, or idle when it is empty. */
  function Schedule(m: Machine): Machine
    requires 0 < |m.procs| && m.current < |m.procs|
    requires forall i :: i in m.queue ==> i < |m.procs|
  {
    assert m.queue != [] ==> m.queue[0] in m.queue;
    var next, rest := if m.queue == [] then IDLE else m.queue[0], if m.queue == [] then [] else m.queue[1..];
    if next == m.current then SetSlice(m.(queue := rest), next) else SwitchTo(m, next, rest)
  }

  /** schedule() as the source performs it: pick, requeue the previous process, dispatch. */
  lemma ScheduleInSteps(m: Machine)
    requires 0 < |m.procs| && m.current < |m.procs|
    requires forall i :: i in m.queue ==> i < |m.procs|
    ensures var next := if m.queue == [] then IDLE else m.queue[0];
            var m1 := m.(queue := if m.queue == [] then [] else m.queue[1..]);
            var prev := m1.procs[m.current];
            var m2 := if prev.state.Running?
                then Enqueue(SetProc(m1, m.current, prev.(state := Ready, slice := DEFAULT_TIME_SLICE)), m.current)
                else m1;
            && (m.queue == [] || m.queue[0] in m.queue)
            && Schedule(m) == if next == m.current then SetSlice(m1, next)
                              else SetProc(m2, next,
                                   m2.procs[next].(state := Running, slice := DEFAULT_TIME_SLICE)).(current := next)
  {
  }

  /** The current process gives up the CPU, its record having become `x`. */
  function Leave(m: Machine, x: Proc): Machine
    requires 0 < |m.procs| && m.current < |m.procs|
    requires forall i :: i in m.queue ==> i < |m.procs|
  {
    Schedule(SetProc(m, m.current, x))
  }

  predicate Due(x: Proc, now: nat) {
    x.state.Blocked? && 0 < x.wake <= now
  }

  function WakeOne(m: Machine, p: nat): Machine
    requires p < |m.procs|
  {
    if Due(m.procs[p], m.now) then
      Enqueue(SetProc(m, p, m.procs[p].(state := Ready, wake := 0, slice := DEFAULT_TIME_SLICE)), p)
    else m
  }

  /** Wake every due sleeper in slots below `n`, lowest slot first. */
  function WakeBelow(m: Machine, n: nat): (r: Machine)
    requires n <= |m.procs|
    ensures |r.procs| == |m.procs| && r.current == m.current
    ensures r == m.(procs := r.procs, queue := r.queue)
  {
    if n == 0 then m else WakeOne(WakeBelow(m, n - 1), n - 1)
  }

  /** Charge one tick to the current process. */
  function Charge(m: Machine): Machine
    requires m.current < |m.procs|
  {
    var x := m.procs[m.current];
    SetProc(m, m.current, x.(cpu := x.cpu + 1, slice := if x.slice > 0 then x.slice - 1 else 0))
  }

  function Expire(m: Machine): Machine
    requires m.current < |m.procs|
  {
    if m.procs[m.current].slice != 0 then m
    else if m.current != IDLE || m.queue != [] then m.(resched := true)
    else SetSlice(m, m.current)
  }

  ghost function TickStep(m: Machine): Machine
    requires Inv(m)
  {
    var m1 := WakeBelow(m.(now := m.now + 1), MAX_PROCESSES);
    WakeShape(m.(now := m.now + 1), MAX_PROCESSES);
    var m2 := Expire(Charge(m1));
    if m2.resched then Schedule(m2.(resched := false)) else m2
  }

  /** The 64-bit rounding of milliseconds to ticks in sys_sleep. */
  function SleepTicks(ms: nat): nat {
    (ms + 9) % TWO_64 / 10
  }

  /** A new process takes the slot and the PID `nextPid`; slots are never reused. */
  ghost function CreateStep(m: Machine, stackOk: bool): Machine
    requires Shape(m)
  {
    if m.nextPid == MAX_PROCESSES || !stackOk then m
    else
      Enqueue(SetProc(m, m.nextPid, m.procs[m.nextPid].(state := Ready, slice := DEFAULT_TIME_SLICE, cpu := 0))
              .(nextPid := m.nextPid + 1), m.nextPid)
  }

  /** The table before the scheduler starts: idle is current but not yet running. */
  ghost predicate Booting(m: Machine) {
    Shape(m) && m.current == IDLE && m.procs[IDLE].state.Ready? && !m.resched
  }

  /** sched_start dispatches the head of the queue, or idle. */
  ghost function StartStep(m: Machine): Machine
    requires Booting(m)
  {
    assert m.queue != [] ==> m.queue[0] in m.queue;
    var next := if m.queue == [] then IDLE else m.queue[0];
    SetProc(m, next, m.procs[next].(state := Running, slice := DEFAULT_TIME_SLICE))
      .(current := next, queue := if m.queue == [] then [] else m.queue[1..])
  }

  /** process_exit by the idle process panics, so it is not a step. */
  ghost predicate Legal(m: Machine, e: Event) {
    e.Exit? ==> m.current != IDLE
  }

  ghost function Step(m: Machine, e: Event): Machine
    requires Inv(m) && Legal(m, e)
  {
    match e
    case Tick => TickStep(m)
    case Yield => Leave(m.(resched := true), m.procs[m.current].(slice := DEFAULT_TIME_SLICE))
    case Block => if m.current == IDLE then m else Leave(m, m.procs[m.current].(state := Blocked))
    case Unblock(pid) =>
      if pid < m.nextPid && m.procs[pid].state.Blocked? then
        Enqueue(SetProc(m, pid, m.procs[pid].(state := Ready, slice := DEFAULT_TIME_SLICE)), pid)
      else m
    case Exit => Leave(m, m.procs[m.current].(state := Terminated))
    case Create(stackOk) => CreateStep(m, stackOk)
    case PrepareSleep(ms) =>
      SetProc(m, m.current, m.procs[m.current].(wake := (m.now + SleepTicks(ms)) % TWO_64))
    case FinishSleep =>
      SetProc(m, m.current, m.procs[m.current].(wake := 0))
  }

  /** The current process has a full slice again and asks to be rescheduled. */
  function Yielded(m: Machine): Machine
    requires m.current < |m.procs|
  {
    SetProc(m, m.current, m.procs[m.current].(slice := DEFAULT_TIME_SLICE)).(resched := true)
  }

  lemma YieldIsLeave(m: Machine)
    requires Inv(m)
    ensures (forall i :: i in m.queue ==> i < |m.procs|) && Step(m, Yield) == Schedule(Yielded(m))
  {
  }

  lemma ExitIsLeave(m: Machine)
    requires Inv(m) && m.current != IDLE
    ensures forall i :: i in m.queue ==> i < |m.procs|
    ensures Step(m, Exit) == Schedule(SetProc(m, m.current, m.procs[m.current].(state := Terminated)))
  {
  }

  // ---------------------------------------------------------------- invariant

  /** A process that is blocked and about to be queued: everything holds once it is. */
  lemma EnqueueShape(m: Machine, p: nat, x: Proc)
    requires Shape(m) && 0 < p < m.nextPid
    requires m.procs[p].state.Blocked? || m.procs[p].state.Terminated? || m.procs[p].state.Running?
    requires x.state.Ready?
    ensures p !in m.queue
    ensures Shape(Enqueue(SetProc(m, p, x), p))
    ensures Enqueue(SetProc(m, p, x), p) == SetProc(m, p, x).(queue := m.queue + [p])
  {
  }

  lemma {:induction false} WakeShape(m: Machine, n: nat)
    requires Shape(m) && n <= MAX_PROCESSES
    ensures Shape(WakeBelow(m, n))
    ensures m.queue <= WakeBelow(m, n).queue
    ensures forall i :: 0 <= i < MAX_PROCESSES ==>
              WakeBelow(m, n).procs[i] ==
                if i < n && Due(m.procs[i], m.now)
                    then m.procs[i].(state := Ready, wake := 0, slice := DEFAULT_TIME_SLICE)
                else m.procs[i]
  {
    if n > 0 {
      WakeShape(m, n - 1);
      var w := WakeBelow(m, n - 1);
      if Due(w.procs[n - 1], w.now) {
        EnqueueShape(w, n - 1, w.procs[n - 1].(state := Ready, wake := 0, slice := DEFAULT_TIME_SLICE));
      }
    }
  }

  /** The queue after its head `next` has left and `prev`, if requeued, has joined the tail. */
  lemma QueueAfterSwitch(queue: seq<nat>, next: nat, rest: seq<nat>, prev: nat)
    requires Distinct(queue) && prev !in queue
    requires if queue == [] then rest == [] else queue == [next] + rest
    ensures Distinct(rest) && Distinct(rest + [prev]) && prev !in rest
    ensures queue != [] ==> next !in rest
    ensures forall i :: i in queue <==> i in rest || (queue != [] && i == next)
  {
    assert forall i :: 0 <= i < |rest| ==> rest[i] == queue[i + 1] && rest[i] in queue;
    assert queue != [] ==> queue[0] == next;
  }

  lemma SwitchShape(m: Machine, next: nat, rest: seq<nat>)
    requires Shape(m) && !m.procs[m.current].state.Ready? && next != m.current && next < m.nextPid
    requires if m.queue == [] then next == IDLE && rest == [] else m.queue == [next] + rest
    ensures Inv(SwitchTo(m, next, rest))
    ensures rest <= SwitchTo(m, next, rest).queue
  {
    var m' := SwitchTo(m, next, rest);
    QueueAfterSwitch(m.queue, next, rest, m.current);
    var back := m.procs[m.current].state.Running? && m.current != IDLE;
    assert m'.queue == if back then rest + [m.current] else rest;
    forall i: nat ensures i in m'.queue <==> 0 < i < MAX_PROCESSES && m'.procs[i].state.Ready? {
      assert i in m'.queue <==> i in rest || (back && i == m.current);
      assert i in m.queue <==> 0 < i < MAX_PROCESSES && m.procs[i].state.Ready?;
    }
  }

  /** schedule() restores the full invariant whatever the previous process is doing. */
  lemma ScheduleInv(m: Machine)
    requires Shape(m)
    requires !m.procs[m.current].state.Ready?
    ensures var m' := Schedule(m);
            && Inv(m')
            && m'.current == (if m.queue == [] then IDLE else m.queue[0])
            && m'.procs[m'.current].slice == DEFAULT_TIME_SLICE
            && (m.queue != [] ==> m.queue[1..] <= m'.queue)
            && m'.now == m.now && m'.nextPid == m.nextPid
            && (forall i :: 0 <= i < MAX_PROCESSES ==>
                  m'.procs[i].wake == m.procs[i].wake && m'.procs[i].cpu == m.procs[i].cpu
                  && (m.procs[i].state.Blocked? ==> m'.procs[i].state.Blocked?))
  {
    if m.queue == [] {
      if m.current != IDLE { SwitchShape(m, IDLE, []); }
    } else {
      assert m.queue == [m.queue[0]] + m.queue[1..];
      assert m.queue[0] in m.queue;
      SwitchShape(m, m.queue[0], m.queue[1..]);
    }
  }

  /** The running process may change its own record, as long as it does not become ready. */
  lemma CurrentShape(m: Machine, x: Proc)
    requires Shape(m) && m.procs[m.current].state.Running?
    requires x.state.Running? || (m.current != IDLE && (x.state.Blocked? || x.state.Terminated?))
    ensures Shape(SetProc(m, m.current, x))
    ensures m.current !in m.queue
  {
  }

  lemma LeaveInv(m: Machine, x: Proc)
    requires Inv(m)
    requires x.state.Running? || (m.current != IDLE && (x.state.Blocked? || x.state.Terminated?))
    requires x.wake == m.procs[m.current].wake && x.cpu == m.procs[m.current].cpu
    ensures var m' := Leave(m, x);
            && Inv(m')
            && m'.current == (if m.queue == [] then IDLE else m.queue[0])
            && m'.procs[m'.current].slice == DEFAULT_TIME_SLICE
            && (m.queue != [] ==> m.queue[1..] <= m'.queue)
            && m'.now == m.now && m'.nextPid == m.nextPid
            && (forall i :: 0 <= i < MAX_PROCESSES ==>
                  m'.procs[i].wake == m.procs[i].wake && m'.procs[i].cpu == m.procs[i].cpu
                  && (i != m.current && m.procs[i].state.Blocked? ==> m'.procs[i].state.Blocked?))
            && (x.state.Blocked? ==> m'.procs[m.current].state.Blocked?)
  {
    CurrentShape(m, x);
    ScheduleInv(SetProc(m, m.current, x));
  }

  /** Charging a tick touches only the current record and need_reschedule. */
  lemma ChargeExpire(m: Machine)
    requires Shape(m) && m.procs[m.current].state.Running? && 1 <= m.procs[m.current].slice <= DEFAULT_TIME_SLICE
    ensures var m' := Expire(Charge(m));
            var x := m'.procs[m.current];
            && m' == m.(procs := m.procs[m.current := x], resched := m'.resched)
            && x.state.Running? && x.wake == m.procs[m.current].wake && x.cpu == m.procs[m.current].cpu + 1
            && (m'.resched || 1 <= x.slice <= DEFAULT_TIME_SLICE)
            && (m'.resched || m.queue == [] || x.slice == m.procs[m.current].slice - 1)
            && Shape(m')
  {
  }

  /** Waking the sleepers leaves the current process alone. */
  lemma WakePart(m: Machine) returns (m1: Machine)
    requires Inv(m)
    ensures m1 == WakeBelow(m.(now := m.now + 1), MAX_PROCESSES) && Shape(m1) && m.queue <= m1.queue
    ensures m1.current == m.current && m1.now == m.now + 1 && m1.nextPid == m.nextPid
            && m1.procs[m.current] == m.procs[m.current]
    ensures m1.procs[m.current].state.Running? && 1 <= m1.procs[m.current].slice <= DEFAULT_TIME_SLICE
  {
    m1 := WakeBelow(m.(now := m.now + 1), MAX_PROCESSES);
    WakeShape(m.(now := m.now + 1), MAX_PROCESSES);
  }

  /** The two halves of a tick: wake the sleepers, then charge the current process. */
  lemma TickParts(m: Machine) returns (m1: Machine, m2: Machine)
    requires Inv(m)
    ensures m1 == WakeBelow(m.(now := m.now + 1), MAX_PROCESSES) && m2 == Expire(Charge(m1))
    ensures Shape(m1) && Shape(m2) && m2.procs[m2.current].state.Running?
    ensures m.queue <= m1.queue
    ensures m1.procs[m.current] == m.procs[m.current]
    ensures m1.current == m.current && m1.now == m.now + 1 && m1.nextPid == m.nextPid
    ensures m2 == m1.(procs := m1.procs[m.current := m2.procs[m.current]], resched := m2.resched)
    ensures m2.procs[m.current].cpu == m.procs[m.current].cpu + 1
    ensures m2.resched || 1 <= m2.procs[m.current].slice <= DEFAULT_TIME_SLICE
    ensures m2.resched || m2.queue == [] || m2.procs[m.current].slice == m.procs[m.current].slice - 1
    ensures TickStep(m) == if m2.resched then Schedule(m2.(resched := false)) else m2
  {
    m1 := WakePart(m);
    m2 := Expire(Charge(m1));
    ChargeExpire(m1);
  }

  lemma TickInv(m: Machine)
    requires Inv(m)
    ensures Inv(TickStep(m))
  {
    var m1, m2 := TickParts(m);
    if m2.resched { ScheduleInv(m2.(resched := false)); }
  }

  /** No step leaves the invariant. */
  lemma StepInv(m: Machine, e: Event)
    requires Inv(m) && Legal(m, e)
    ensures Inv(Step(m, e))
  {
    match e
    case Tick => TickInv(m);
    case Yield => LeaveInv(m.(resched := true), m.procs[m.current].(slice := DEFAULT_TIME_SLICE));
    case Block => if m.current != IDLE { LeaveInv(m, m.procs[m.current].(state := Blocked)); }
    case Exit => LeaveInv(m, m.procs[m.current].(state := Terminated));
    case Unblock(pid) =>
      if pid < m.nextPid && m.procs[pid].state.Blocked? {
        EnqueueShape(m, pid, m.procs[pid].(state := Ready, slice := DEFAULT_TIME_SLICE));
      }
    case Create(stackOk) => if m.nextPid < MAX_PROCESSES && stackOk { CreateInv(m); }
    case PrepareSleep(ms) => CurrentShape(m, Step(m, e).procs[m.current]);
    case FinishSleep => CurrentShape(m, Step(m, e).procs[m.current]);
  }

  lemma CreateInv(m: Machine)
    requires Shape(m) && m.nextPid < MAX_PROCESSES
    ensures var m' := CreateStep(m, true);
            Shape(m') && m'.queue == m.queue + [m.nextPid]
            && m'.current == m.current && m'.procs[m.current] == m.procs[m.current]
  {
  }

  /** Starting the scheduler establishes the invariant; the first of the queue runs, or idle if it is empty. */
  lemma StartInv(m: Machine)
    requires Booting(m)
    ensures var m' := StartStep(m);
            && Inv(m') && m'.procs[m'.current].slice == 10
            && (if m.queue == [] then m'.current == IDLE && m'.queue == [] else [m'.current] + m'.queue == m.queue)
  {
    if m.queue != [] {
      var next := m.queue[0];
      assert next in m.queue;
      assert m.queue == [next] + m.queue[1..];
      QueueAfterSwitch(m.queue, next, m.queue[1..], IDLE);
    }
  }

  // ---------------------------------------------------------------- runs

  /** Every event is legal in the state it meets. */
  ghost predicate LegalRun(m: Machine, es: seq<Event>)
    requires Inv(m)
    decreases |es|
  {
    if es == [] then true
    else Legal(m, es[0]) && (StepInv(m, es[0]); LegalRun(Step(m, es[0]), es[1..]))
  }

  ghost function Run(m: Machine, es: seq<Event>): (r: Machine)
    requires Inv(m) && LegalRun(m, es)
    ensures Inv(r)
    decreases |es|
  {
    if es == [] then m
    else (StepInv(m, es[0]); Run(Step(m, es[0]), es[1..]))
  }

  function Ticks(es: seq<Event>): nat {
    if es == [] then 0 else (if es[0].Tick? then 1 else 0) + Ticks(es[1..])
  }

  /** `p` holds the CPU in some state of the run after the first one. */
  ghost predicate Dispatched(m: Machine, es: seq<Event>, p: nat)
    requires Inv(m) && LegalRun(m, es)
    decreases |es|
  {
    es != [] &&
    (StepInv(m, es[0]);
     var m' := Step(m, es[0]);
     m'.current == p || Dispatched(m', es[1..], p))
  }

  /** How often the run switches to `q`. */
  ghost function Switches(m: Machine, es: seq<Event>, q: nat): nat
    requires Inv(m) && LegalRun(m, es)
    decreases |es|
  {
    if es == [] then 0
    else
      StepInv(m, es[0]);
      var m' := Step(m, es[0]);
      (if m'.current == q && m.current != q then 1 else 0) + Switches(m', es[1..], q)
  }

  // ---------------------------------------------------------------- bounded waiting

  ghost function Position(s: seq<nat>, p: nat): (k: nat)
    requires p in s
    ensures k < |s| && s[k] == p
  {
    var k :| 0 <= k < |s| && s[k] == p;
    k
  }

  /** Ticks that can pass before a queued process runs. */
  ghost function Wait(m: Machine, p: nat): nat
    requires Inv(m) && p in m.queue
  {
    m.procs[m.current].slice + DEFAULT_TIME_SLICE * Position(m.queue, p)
  }

  lemma PositionIs(s: seq<nat>, p: nat, k: nat)
    requires Distinct(s) && k < |s| && s[k] == p
    ensures p in s && Position(s, p) == k
  {
  }

  /**
   What one step does to a non-empty queue: either the current process keeps
   the CPU and the queue only grows at its tail, or the head is dispatched with a
   full slice.
   */
  lemma StepQueue(m: Machine, e: Event)
    requires Inv(m) && Legal(m, e) && m.queue != []
    ensures Inv(Step(m, e))
    ensures var m' := Step(m, e);
            || (&& m'.current == m.current
                && m.queue <= m'.queue
                && m'.procs[m'.current].slice + (if e.Tick? then 1 else 0) == m.procs[m.current].slice)
            || (&& m'.current == m.queue[0]
                && m.queue[1..] <= m'.queue
                && m'.procs[m'.current].slice == DEFAULT_TIME_SLICE)
  {
    StepInv(m, e);
    match e
    case Tick =>
      var m1, m2 := TickParts(m);
      if m2.resched { ScheduleInv(m2.(resched := false)); }
    case Yield => LeaveInv(m.(resched := true), m.procs[m.current].(slice := DEFAULT_TIME_SLICE));
    case Block => if m.current != IDLE { LeaveInv(m, m.procs[m.current].(state := Blocked)); }
    case Exit => LeaveInv(m, m.procs[m.current].(state := Terminated));
    case Unblock(pid) =>
    case Create(stackOk) =>
    case PrepareSleep(ms) =>
    case FinishSleep =>
  }

  /** One step either runs the waiting process or brings it closer, by a tick if the step is a tick. */
  lemma WaitStep(m: Machine, e: Event, p: nat)
    requires Inv(m) && Legal(m, e) && p in m.queue
    ensures Inv(Step(m, e))
    ensures var m' := Step(m, e);
            m'.current == p ||
            (p in m'.queue && Wait(m', p) + (if e.Tick? then 1 else 0) <= Wait(m, p))
  {
    StepQueue(m, e);
    var m', k := Step(m, e), Position(m.queue, p);
    if m'.current == m.current && m.queue <= m'.queue {
      PositionIs(m'.queue, p, k);
    } else if k > 0 {
      assert m.queue[1..][k - 1] == p;
      PositionIs(m'.queue, p, k - 1);
    }
  }

  /** While a process waits, fewer ticks pass than its wait measure allows. */
  lemma {:induction false} WaitBound(m: Machine, es: seq<Event>, p: nat)
    requires Inv(m) && LegalRun(m, es) && p in m.queue
    requires !Dispatched(m, es, p)
    ensures p in Run(m, es).queue
    ensures Ticks(es) + Wait(Run(m, es), p) <= Wait(m, p)
    decreases |es|
  {
    if es != [] {
      WaitStep(m, es[0], p);
      WaitBound(Step(m, es[0]), es[1..], p);
    }
  }

  /**
   No starvation: whatever the interleaving of yields, blocks, exits, creations
   and wake-ups, a process at queue position `k` runs before `10 * (k + 1)`
   ticks have been delivered.
   */
  lemma NoStarvation(m: Machine, es: seq<Event>, k: nat)
    requires Inv(m) && LegalRun(m, es) && k < |m.queue|
    requires Ticks(es) >= DEFAULT_TIME_SLICE * (k + 1)
    ensures Dispatched(m, es, m.queue[k])
  {
    var p := m.queue[k];
    if !Dispatched(m, es, p) {
      WaitBound(m, es, p);
      PositionIs(m.queue, p, k);
    }
  }

  /** 1 when `q` is queued ahead of `p`. */
  ghost function Ahead(m: Machine, q: nat, p: nat): nat
    requires p in m.queue
  {
    if q in m.queue && Position(m.queue, q) < Position(m.queue, p) then 1 else 0
  }

  lemma AheadStep(m: Machine, e: Event, q: nat, p: nat)
    requires Inv(m) && Legal(m, e) && p in m.queue
    requires Step(m, e).current != p
    ensures Inv(Step(m, e)) && p in Step(m, e).queue
    ensures var m' := Step(m, e);
            (if m'.current == q && m.current != q then 1 else 0) + Ahead(m', q, p) <= Ahead(m, q, p)
  {
    StepQueue(m, e);
    var m', k := Step(m, e), Position(m.queue, p);
    if m'.current == m.current && m.queue <= m'.queue {
      PositionIs(m'.queue, p, k);
      if q in m'.queue && Position(m'.queue, q) < k {
        PositionIs(m.queue, q, Position(m'.queue, q));
      }
    } else {
      PositionIs(m.queue, m.queue[0], 0);
      assert m.queue[1..][k - 1] == p;
      PositionIs(m'.queue, p, k - 1);
      if q in m'.queue && Position(m'.queue, q) < k - 1 {
        assert m.queue[1..][Position(m'.queue, q)] == q;
        PositionIs(m.queue, q, Position(m'.queue, q) + 1);
      }
    }
  }

  /** While a process waits, no other process overtakes it more than once. */
  lemma {:induction false} OvertakenAtMostOnce(m: Machine, es: seq<Event>, q: nat, p: nat)
    requires Inv(m) && LegalRun(m, es) && p in m.queue
    requires !Dispatched(m, es, p)
    ensures Switches(m, es, q) <= Ahead(m, q, p) <= 1
    decreases |es|
  {
    if es != [] {
      AheadStep(m, es[0], q, p);
      OvertakenAtMostOnce(Step(m, es[0]), es[1..], q, p);
    }
  }

  // ---------------------------------------------------------------- sleeping

  ghost predicate Sleeping(m: Machine, p: nat, w: nat) {
    p < |m.procs| && m.procs[p].state.Blocked? && m.procs[p].wake == w && w > 0
  }

  /** Only the tick that reaches its wake tick, or an explicit unblock, ends a sleep. */
  lemma SleepStep(m: Machine, e: Event, p: nat, w: nat)
    requires Inv(m) && Legal(m, e) && Sleeping(m, p, w) && e != Unblock(p)
    ensures Inv(Step(m, e))
    ensures var m' := Step(m, e);
            && m'.now == m.now + (if e.Tick? then 1 else 0)
            && (if e.Tick? && w <= m'.now then p in m'.queue || m'.current == p
                else Sleeping(m', p, w) && m'.current != p)
  {
    StepInv(m, e);
    match e
    case Tick => SleepTick(m, p, w);
    case Yield => LeaveInv(m.(resched := true), m.procs[m.current].(slice := DEFAULT_TIME_SLICE));
    case Block => if m.current != IDLE { LeaveInv(m, m.procs[m.current].(state := Blocked)); }
    case Exit => LeaveInv(m, m.procs[m.current].(state := Terminated));
    case Unblock(pid) =>
    case Create(stackOk) =>
    case PrepareSleep(ms) =>
    case FinishSleep =>
  }

  lemma SleepTick(m: Machine, p: nat, w: nat)
    requires Inv(m) && Sleeping(m, p, w)
    ensures var m' := TickStep(m);
            && m'.now == m.now + 1
            && (if w <= m'.now then p in m'.queue || m'.current == p
                else Sleeping(m', p, w) && m'.current != p)
  {
    var m1, m2 := TickParts(m);
    WakeShape(m.(now := m.now + 1), MAX_PROCESSES);
    assert m2.procs[p] == m1.procs[p];
    if w <= m.now + 1 { assert p in m2.queue; }
    if m2.resched {
      ScheduleInv(m2.(resched := false));
      if w <= m.now + 1 {
        ScheduleMoves(m2.(resched := false), p, Position(m2.queue, p));
      } else {
        TickInv(m);
      }
    }
  }

  lemma ScheduleMoves(m: Machine, p: nat, k: nat)
    requires Shape(m) && !m.procs[m.current].state.Ready?
    requires k < |m.queue| && m.queue[k] == p
    ensures p == Schedule(m).current || p in Schedule(m).queue
  {
  }

  /** A sleeper that nobody unblocks is not dispatched before its wake tick. */
  lemma {:induction false} SleepNotEarly(m: Machine, es: seq<Event>, p: nat, w: nat)
    requires Inv(m) && LegalRun(m, es) && Sleeping(m, p, w) && Unblock(p) !in es
    requires m.now + Ticks(es) < w
    ensures !Dispatched(m, es, p)
    ensures Sleeping(Run(m, es), p, w)
    decreases |es|
  {
    if es != [] {
      SleepStep(m, es[0], p, w);
      SleepNotEarly(Step(m, es[0]), es[1..], p, w);
    }
  }

  lemma QueueBound(s: seq<nat>)
    requires Distinct(s)
    requires forall i :: 0 <= i < |s| ==> 0 < s[i] < MAX_PROCESSES
    ensures |s| < MAX_PROCESSES
  {
    Pigeonhole([IDLE] + s, MAX_PROCESSES);
  }

  /**
   A sleeper runs at the latest one full round of the queue after its wake
   tick, whatever else happens (an early unblock only helps).
   */
  lemma {:induction false} SleepEnds(m: Machine, es: seq<Event>, p: nat, w: nat)
    requires Inv(m) && LegalRun(m, es) && Sleeping(m, p, w)
    requires Ticks(es) >= (if w > m.now then w - m.now else 1) + DEFAULT_TIME_SLICE * (MAX_PROCESSES - 1)
    ensures Dispatched(m, es, p)
    decreases |es|
  {
    StepInv(m, es[0]);
    var m' := Step(m, es[0]);
    if es[0] == Unblock(p) {
      assert p < m.nextPid;
      assert p in m'.queue;
    } else {
      SleepStep(m, es[0], p, w);
    }
    if p in m'.queue {
      assert forall i :: 0 <= i < |m'.queue| ==> m'.queue[i] in m'.queue;
      QueueBound(m'.queue);
      NoStarvation(m', es[1..], Position(m'.queue, p));
    } else if m'.current != p {
      SleepEnds(m', es[1..], p, w);
    }
  }

  /** The tick count is the request rounded up exactly when `ms + 9` does not wrap. */
  lemma SleepRounding(ms: nat)
    requires 0 < ms < TWO_64
    ensures (10 * (SleepTicks(ms) - 1) < ms <= 10 * SleepTicks(ms)) <==> ms + 9 < TWO_64
  {
  }

  /** The longest sleep that can be asked for rounds to no tick at all. */
  lemma LongestSleepIsNone()
    ensures SleepTicks(TWO_64 - 1) == 0
  {
  }

  /**
   sys_sleep(ms): unless explicitly unblocked, the caller does not run again
   until ticks worth `ms` milliseconds have been delivered.
   */
  lemma SleepLasts(m: Machine, ms: nat, es: seq<Event>)
    requires Inv(m) && m.current != IDLE
    requires 0 < ms && ms + 9 < TWO_64 && m.now + SleepTicks(ms) < TWO_64
    ensures Inv(Step(m, PrepareSleep(ms)))
    ensures var m1 := Step(m, PrepareSleep(ms));
            && Inv(Step(m1, Block))
            && (LegalRun(Step(m1, Block), es) && Unblock(m.current) !in es && Dispatched(Step(m1, Block), es, m.current)
                ==> ms <= 10 * Ticks(es))
  {
    var p := m.current;
    StepInv(m, PrepareSleep(ms));
    var m1 := Step(m, PrepareSleep(ms));
    StepInv(m1, Block);
    var m2 := Step(m1, Block);
    LeaveInv(m1, m1.procs[p].(state := Blocked));
    SleepRounding(ms);
    if LegalRun(m2, es) && Unblock(p) !in es && Dispatched(m2, es, p) && 10 * Ticks(es) < ms {
      SleepNotEarly(m2, es, p, m.now + SleepTicks(ms));
    }
  }

  /** Blocking: the caller gives up the CPU, is blocked, and keeps its wake tick. */
  lemma BlockBlocks(m: Machine)
    requires Inv(m) && m.current != IDLE
    ensures var m' := Step(m, Block);
            && Inv(m') && m'.now == m.now && m'.current != m.current && m.current !in m'.queue
            && m'.procs[m.current].state.Blocked? && m'.procs[m.current].wake == m.procs[m.current].wake
  {
    LeaveInv(m, m.procs[m.current].(state := Blocked));
  }

  /** sys_sleep puts its caller to sleep exactly if the 64-bit wake tick is not zero. */
  lemma SleepIff(m: Machine, ms: nat)
    requires Inv(m) && m.current != IDLE
    ensures Inv(Step(m, PrepareSleep(ms)))
    ensures var m2 := Step(Step(m, PrepareSleep(ms)), Block);
            && Inv(m2) && m2.now == m.now && m2.current != m.current
            && (Sleeping(m2, m.current, (m.now + SleepTicks(ms)) % TWO_64) <==>
                (m.now + SleepTicks(ms)) % TWO_64 != 0)
  {
    StepInv(m, PrepareSleep(ms));
    BlockBlocks(Step(m, PrepareSleep(ms)));
  }

  /**
   sys_sleep(ms), from the call on: the caller sleeps until the tick that completes `ms` milliseconds; whatever
   happens then, it is dispatched again at the latest one round of the queue after that tick, and unless it is
   unblocked it is not dispatched before `ms` milliseconds have passed.
   */
  lemma SleepCall(m: Machine, ms: nat, es: seq<Event>)
    requires Inv(m) && m.current != IDLE
    requires 0 < ms && ms + 9 < TWO_64 && m.now + SleepTicks(ms) < TWO_64
    ensures Inv(Step(m, PrepareSleep(ms)))
    ensures var p, m2 := m.current, Step(Step(m, PrepareSleep(ms)), Block);
            && Inv(m2) && m2.current != p && Sleeping(m2, p, m.now + SleepTicks(ms))
            && (LegalRun(m2, es) && Ticks(es) >= SleepTicks(ms) + 10 * 63 ==> Dispatched(m2, es, p))
            && (LegalRun(m2, es) && Unblock(p) !in es && Dispatched(m2, es, p) ==> ms <= 10 * Ticks(es))
  {
    var p := m.current;
    SleepIff(m, ms);
    SleepRounding(ms);
    SleepLasts(m, ms, es);
    var m2 := Step(Step(m, PrepareSleep(ms)), Block);
    if LegalRun(m2, es) && Ticks(es) >= SleepTicks(ms) + 10 * 63 { SleepEnds(m2, es, p, m.now + SleepTicks(ms)); }
  }

  // ---------------------------------------------------------------- blocking and exit

  /** The tick reaches no process that is not due, unless it is the current one. */
  lemma TickSpares(m: Machine, p: nat)
    requires Inv(m) && p < m.nextPid && p != m.current && !Due(m.procs[p], m.now + 1) && p !in m.queue
    ensures Inv(TickStep(m)) && TickStep(m).procs[p].wake == m.procs[p].wake
    ensures p != IDLE ==> TickStep(m).procs[p].state == m.procs[p].state
  {
    TickInv(m);
    var m1, m2 := TickParts(m);
    WakeShape(m.(now := m.now + 1), MAX_PROCESSES);
    assert m2.procs[p] == m1.procs[p] == m.procs[p];
    if m2.resched {
      assert p !in m2.queue;
      ScheduleSpares(m2.(resched := false), p);
    }
  }

  lemma ScheduleSpares(m: Machine, p: nat)
    requires Shape(m) && !m.procs[m.current].state.Ready? && p < MAX_PROCESSES && p != m.current && p !in m.queue
    ensures p != IDLE ==> Schedule(m).procs[p].state == m.procs[p].state
    ensures Schedule(m).procs[p].wake == m.procs[p].wake
  {
    if m.queue != [] { assert m.queue[0] in m.queue; }
  }

  /** A blocked process without a wake tick stays so until it is unblocked. */
  lemma BlockedStep(m: Machine, e: Event, p: nat)
    requires Inv(m) && Legal(m, e) && p < m.nextPid && m.procs[p].state.Blocked? && m.procs[p].wake == 0
    requires e != Unblock(p)
    ensures var m' := Step(m, e);
            Inv(m') && p < m'.nextPid && m'.procs[p].state.Blocked? && m'.procs[p].wake == 0 && m'.current != p
  {
    StepInv(m, e);
    match e
    case Tick => TickSpares(m, p);
    case Yield => LeaveInv(m.(resched := true), m.procs[m.current].(slice := DEFAULT_TIME_SLICE));
    case Block => if m.current != IDLE { LeaveInv(m, m.procs[m.current].(state := Blocked)); }
    case Exit => LeaveInv(m, m.procs[m.current].(state := Terminated));
    case Unblock(pid) =>
    case Create(stackOk) =>
    case PrepareSleep(ms) =>
    case FinishSleep =>
  }

  lemma {:induction false} BlockedWaits(m: Machine, es: seq<Event>, p: nat)
    requires Inv(m) && LegalRun(m, es) && p < m.nextPid && m.procs[p].state.Blocked? && m.procs[p].wake == 0
    requires Unblock(p) !in es
    ensures !Dispatched(m, es, p) && Run(m, es).procs[p].state.Blocked?
    decreases |es|
  {
    if es != [] {
      BlockedStep(m, es[0], p);
      BlockedWaits(Step(m, es[0]), es[1..], p);
    }
  }

  /**
   process_block without a wake tick: the caller does not run until somebody unblocks it, and once that has
   happened it runs after at most one round of the queue.
   */
  lemma BlockCall(m: Machine, es: seq<Event>, rest: seq<Event>)
    requires Inv(m) && m.current != IDLE && m.procs[m.current].wake == 0 && Unblock(m.current) !in es
    ensures Inv(Step(m, Block))
    ensures var p, m1 := m.current, Step(m, Block);
            LegalRun(m1, es) ==>
              && !Dispatched(m1, es, p)
              && var m2 := Run(m1, es);
              && Inv(Step(m2, Unblock(p))) && p in Step(m2, Unblock(p)).queue
              && (LegalRun(Step(m2, Unblock(p)), rest) && Ticks(rest) >= 10 * 63 ==>
                  Dispatched(Step(m2, Unblock(p)), rest, p))
  {
    var p, m1 := m.current, Step(m, Block);
    BlockBlocks(m);
    if LegalRun(m1, es) {
      BlockedWaits(m1, es, p);
      var m2 := Run(m1, es);
      StepInv(m2, Unblock(p));
      var m3 := Step(m2, Unblock(p));
      assert p in m3.queue;
      if LegalRun(m3, rest) && Ticks(rest) >= 10 * 63 { QueuedRuns(m3, rest, p); }
    }
  }

  /** After sys_sleep has returned no old wake tick is left: blocking lasts until somebody unblocks the process. */
  lemma ReturnThenBlock(m: Machine, es: seq<Event>)
    requires Inv(m) && m.current != IDLE && Unblock(m.current) !in es
    ensures Inv(Step(m, FinishSleep)) && Inv(Step(Step(m, FinishSleep), Block))
    ensures LegalRun(Step(Step(m, FinishSleep), Block), es) ==>
            !Dispatched(Step(Step(m, FinishSleep), Block), es, m.current)
  {
    StepInv(m, FinishSleep);
    BlockCall(Step(m, FinishSleep), es, []);
  }

  /** Whoever is queued runs within one round. */
  lemma QueuedRuns(m: Machine, es: seq<Event>, p: nat)
    requires Inv(m) && LegalRun(m, es) && p in m.queue && Ticks(es) >= DEFAULT_TIME_SLICE * (MAX_PROCESSES - 1)
    ensures Dispatched(m, es, p)
  {
    assert forall i :: 0 <= i < |m.queue| ==> m.queue[i] in m.queue;
    QueueBound(m.queue);
    NoStarvation(m, es, Position(m.queue, p));
  }

  ghost predicate Dead(m: Machine, p: nat) { p < m.nextPid <= |m.procs| && m.procs[p].state.Terminated? }

  lemma LeaveDead(m: Machine, x: Proc, p: nat)
    requires Inv(m) && (Dead(m, p) || (p == m.current && x.state.Terminated?))
    requires x.state.Running? || (m.current != IDLE && (x.state.Blocked? || x.state.Terminated?))
    ensures Dead(Leave(m, x), p) && Leave(m, x).current != p
  {
    CurrentShape(m, x);
    ScheduleDead(SetProc(m, m.current, x), p);
  }

  lemma ScheduleDead(m: Machine, p: nat)
    requires Shape(m) && !m.procs[m.current].state.Ready? && Dead(m, p)
    ensures Dead(Schedule(m), p) && Schedule(m).current != p
  {
    if m.queue != [] { assert m.queue[0] in m.queue; }
  }

  lemma DeadStep(m: Machine, e: Event, p: nat)
    requires Inv(m) && Legal(m, e) && Dead(m, p)
    ensures Inv(Step(m, e)) && Dead(Step(m, e), p) && Step(m, e).current != p
  {
    StepInv(m, e);
    match e
    case Tick => TickSpares(m, p);
    case Yield => LeaveDead(m.(resched := true), m.procs[m.current].(slice := DEFAULT_TIME_SLICE), p);
    case Block => if m.current != IDLE { LeaveDead(m, m.procs[m.current].(state := Blocked), p); }
    case Exit => LeaveDead(m, m.procs[m.current].(state := Terminated), p);
    case Unblock(pid) =>
    case Create(stackOk) =>
    case PrepareSleep(ms) =>
    case FinishSleep =>
  }

  lemma {:induction false} DeadStays(m: Machine, es: seq<Event>, p: nat)
    requires Inv(m) && LegalRun(m, es) && Dead(m, p)
    ensures !Dispatched(m, es, p) && Dead(Run(m, es), p)
    decreases |es|
  {
    if es != [] {
      DeadStep(m, es[0], p);
      DeadStays(Step(m, es[0]), es[1..], p);
    }
  }

  /**
   A new process gets the next number and runs within one round of the queue;
   without a stack or a slot nothing changes.
   */
  lemma CreateCall(m: Machine, stackOk: bool, es: seq<Event>)
    requires Inv(m)
    ensures var m', p := Step(m, Create(stackOk)), m.nextPid;
            && Inv(m')
            && (if stackOk && p < 64
                then m'.nextPid == p + 1 && p in m'.queue
                     && (LegalRun(m', es) && Ticks(es) >= 10 * 63 ==> Dispatched(m', es, p))
                else m' == m)
  {
    StepInv(m, Create(stackOk));
    if stackOk && m.nextPid < 64 {
      CreateInv(m);
      var m' := Step(m, Create(stackOk));
      assert m'.queue[|m.queue|] == m.nextPid;
      if LegalRun(m', es) && Ticks(es) >= 10 * 63 { QueuedRuns(m', es, m.nextPid); }
    }
  }

  /** A process that exits is never dispatched again, whatever is done to wake it. */
  lemma ExitCall(m: Machine, es: seq<Event>)
    requires Inv(m) && m.current != IDLE
    ensures Inv(Step(m, Exit)) && Step(m, Exit).current != m.current
    ensures LegalRun(Step(m, Exit), es) ==>
            !Dispatched(Step(m, Exit), es, m.current) && Dead(Run(Step(m, Exit), es), m.current)
  {
    var p := m.current;
    StepInv(m, Exit);
    LeaveDead(m, m.procs[p].(state := Terminated), p);
    if LegalRun(Step(m, Exit), es) { DeadStays(Step(m, Exit), es, p); }
  }

  // ---------------------------------------------------------------- time slices

  /** Yielding hands the CPU to the first in the queue and puts the caller last; the request flag stays set. */
  lemma YieldRotates(m: Machine)
    requires Inv(m) && m.current != IDLE && m.queue != []
    ensures var m' := Step(m, Yield);
            m'.current == m.queue[0] && m'.queue == m.queue[1..] + [m.current] && m'.resched
  {
    assert m.queue[0] in m.queue;
    assert m.queue == [m.queue[0]] + m.queue[1..];
    QueueAfterSwitch(m.queue, m.queue[0], m.queue[1..], m.current);
  }

  /** An event by which the current process does not give up the CPU. */
  predicate Quiet(e: Event) { !e.Yield? && !e.Block? && !e.Exit? }

  ghost function SliceLeft(m: Machine): nat
    requires Inv(m)
  {
    m.procs[m.current].slice
  }

  lemma QuietStep(m: Machine, e: Event)
    requires Inv(m) && Quiet(e) && !m.resched && (e.Tick? ==> SliceLeft(m) > 1)
    ensures var m' := Step(m, e);
            && Inv(m') && m'.current == m.current && !m'.resched
            && SliceLeft(m') == SliceLeft(m) - if e.Tick? then 1 else 0
  {
    StepInv(m, e);
    if e.Tick? { var m1, m2 := TickParts(m); }
  }

  /** With the request flag clear, nothing takes the CPU from a process before its slice is used up. */
  lemma {:induction false} SliceLasts(m: Machine, es: seq<Event>)
    requires Inv(m) && LegalRun(m, es) && !m.resched && (forall e :: e in es ==> Quiet(e)) && Ticks(es) < SliceLeft(m)
    ensures Run(m, es).current == m.current && !Run(m, es).resched
    ensures SliceLeft(Run(m, es)) == SliceLeft(m) - Ticks(es)
    decreases |es|
  {
    if es != [] {
      assert es[0] in es && forall e :: e in es[1..] ==> e in es;
      QuietStep(m, es[0]);
      SliceLasts(Step(m, es[0]), es[1..]);
    }
  }

  /** A tick in mid-slice leaves the current process running exactly if the request flag is clear. */
  lemma MidSliceIff(m: Machine)
    requires Inv(m) && m.queue != [] && SliceLeft(m) > 1
    ensures Inv(Step(m, Tick)) && (Step(m, Tick).current == m.current <==> !m.resched)
  {
    TickInv(m);
    var m1, m2 := TickParts(m);
    assert m.queue[0] in m.queue;
    if m2.resched { ScheduleInv(m2.(resched := false)); }
  }

  /** At the end of the slice the first in the queue takes over. */
  lemma SliceEnds(m: Machine)
    requires Inv(m) && m.queue != [] && SliceLeft(m) == 1
    ensures Inv(Step(m, Tick)) && Step(m, Tick).current == m.queue[0] && SliceLeft(Step(m, Tick)) == 10
  {
    TickInv(m);
    var m1, m2 := TickParts(m);
    ScheduleInv(m2.(resched := false));
  }

  lemma FlaggedTick(m: Machine)
    requires Inv(m) && m.queue != [] && m.resched
    ensures Inv(Step(m, Tick)) && Step(m, Tick).current == m.queue[0]
  {
    TickInv(m);
    var m1, m2 := TickParts(m);
    ScheduleInv(m2.(resched := false));
  }

  /** After a yield the next process does not get its slice: the first tick takes the CPU away again. */
  lemma YieldCutsShort(m: Machine)
    requires Inv(m) && m.current != IDLE && |m.queue| >= 2
    ensures Inv(Step(m, Yield)) && Step(m, Yield).current == m.queue[0] && SliceLeft(Step(m, Yield)) == 10
    ensures Inv(Step(Step(m, Yield), Tick)) && Step(Step(m, Yield), Tick).current == m.queue[1]
  {
    StepInv(m, Yield);
    YieldRotates(m);
    LeaveInv(m.(resched := true), m.procs[m.current].(slice := DEFAULT_TIME_SLICE));
    FlaggedTick(Step(m, Yield));
  }

  // ---------------------------------------------------------------- CPU accounting

  /** Ticks charged to the processes of the first `n` slots. */
  function CpuBelow(procs: seq<Proc>, n: nat): nat
    requires n <= |procs|
  {
    if n == 0 then 0 else CpuBelow(procs, n - 1) + procs[n - 1].cpu
  }

  lemma {:induction false} CpuChange(a: seq<Proc>, b: seq<Proc>, n: nat, c: nat, d: nat)
    requires n <= |a| == |b|
    requires forall i :: 0 <= i < n && i != c ==> a[i].cpu == b[i].cpu
    requires c < n ==> b[c].cpu == a[c].cpu + d
    ensures CpuBelow(b, n) == CpuBelow(a, n) + if c < n then d else 0
  {
    if n > 0 { CpuChange(a, b, n - 1, c, d); }
  }

  lemma TickCpu(m: Machine)
    requires Inv(m)
    ensures Inv(TickStep(m)) && TickStep(m).nextPid == m.nextPid
    ensures CpuBelow(TickStep(m).procs, m.nextPid) == CpuBelow(m.procs, m.nextPid) + 1
  {
    TickInv(m);
    var m1, m2 := TickParts(m);
    WakeShape(m.(now := m.now + 1), MAX_PROCESSES);
    CpuChange(m.procs, m2.procs, m.nextPid, m.current, 1);
    if m2.resched {
      ScheduleInv(m2.(resched := false));
      CpuChange(m2.procs, TickStep(m).procs, m.nextPid, m.current, 0);
    }
  }

  /** A tick is charged to the process that was running when it came. */
  lemma TickCharges(m: Machine, p: nat)
    requires Inv(m) && p < m.nextPid
    ensures Inv(Step(m, Tick))
    ensures Step(m, Tick).procs[p].cpu == m.procs[p].cpu + if p == m.current then 1 else 0
  {
    TickInv(m);
    var m1, m2 := TickParts(m);
    WakeShape(m.(now := m.now + 1), MAX_PROCESSES);
    if m2.resched { ScheduleInv(m2.(resched := false)); }
  }

  lemma CpuKept(m: Machine, e: Event)
    requires Inv(m) && Legal(m, e) && !e.Tick?
    ensures var m' := Step(m, e);
            && |m'.procs| == MAX_PROCESSES
            && (forall i :: 0 <= i < m.nextPid ==> m'.procs[i].cpu == m.procs[i].cpu)
            && (m'.nextPid == m.nextPid
                || (m'.nextPid == m.nextPid + 1 <= MAX_PROCESSES && m'.procs[m.nextPid].cpu == 0))
  {
    match e
    case Yield => LeaveInv(m.(resched := true), m.procs[m.current].(slice := DEFAULT_TIME_SLICE));
    case Block => if m.current != IDLE { LeaveInv(m, m.procs[m.current].(state := Blocked)); }
    case Exit => LeaveInv(m, m.procs[m.current].(state := Terminated));
    case _ =>
  }

  lemma CpuStep(m: Machine, e: Event)
    requires Inv(m) && Legal(m, e)
    ensures Inv(Step(m, e))
    ensures var m' := Step(m, e);
            CpuBelow(m'.procs, m'.nextPid) == CpuBelow(m.procs, m.nextPid) + if e.Tick? then 1 else 0
  {
    StepInv(m, e);
    if e.Tick? {
      TickCpu(m);
    } else {
      CpuKept(m, e);
      CpuChange(m.procs, Step(m, e).procs, m.nextPid, m.current, 0);
    }
  }

  /** Conservation of CPU time: every delivered tick is charged to exactly one process. */
  lemma {:induction false} CpuConserved(m: Machine, es: seq<Event>)
    requires Inv(m) && LegalRun(m, es)
    ensures CpuBelow(Run(m, es).procs, Run(m, es).nextPid) == CpuBelow(m.procs, m.nextPid) + Ticks(es)
    decreases |es|
  {
    if es != [] {
      CpuStep(m, es[0]);
      CpuConserved(Step(m, es[0]), es[1..]);
    }
  }
}
