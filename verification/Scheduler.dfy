/**
 kernel/proc/sched.c and kernel/proc/process.c: the process table with its
 run queue threaded through `next` and `prev`. Pointers to processes are
 slot numbers and `NULL` is -1. Every operation is proved to take the step of
 the abstract machine in SchedulerSpec.
 */
module Scheduler {
  import opened Basics
  import opened SchedulerSpec
  import opened Counting

  const NULL := -1

  datatype Pcb = Pcb(
    pid: nat,
    state: State,
    idle: bool,          // PROCESS_FLAG_IDLE
    slice: nat,
    totalTicks: nat,
    next: int,
    prev: int,
    wakeTick: nat)

  function ProcOf(x: Pcb): Proc {
    Proc(x.state, x.slice, x.wakeTick, x.totalTicks)
  }

  function Procs(table: seq<Pcb>): (r: seq<Proc>)
    ensures |r| == |table|
    ensures forall i :: 0 <= i < |table| ==> r[i] == ProcOf(table[i])
  {
    seq(|table|, i requires 0 <= i < |table| => ProcOf(table[i]))
  }

  function NextIn(queue: seq<nat>, k: nat): int {
    if k + 1 < |queue| then queue[k + 1] else NULL
  }

  function PrevIn(queue: seq<nat>, k: nat): int {
    if 0 < k <= |queue| then queue[k - 1] else NULL
  }

  ghost predicate LinkAt(table: seq<Pcb>, queue: seq<nat>, k: nat) {
    k < |queue| && queue[k] < |table| &&
    table[queue[k]].next == NextIn(queue, k) && table[queue[k]].prev == PrevIn(queue, k)
  }

  /** The links of `table` spell out exactly `queue`, and nothing else is linked. */
  ghost predicate Links(table: seq<Pcb>, queue: seq<nat>, head: int, tail: int) {
    && Distinct(queue)
    && (forall k :: 0 <= k < |queue| ==> queue[k] < |table|)
    && head == (if queue == [] then NULL else queue[0])
    && tail == PrevIn(queue, |queue|)
    && (forall k :: 0 <= k < |queue| ==> LinkAt(table, queue, k))
    && (forall i :: 0 <= i < |table| && i !in queue ==> table[i].next == NULL && table[i].prev == NULL)
  }

  /** The membership test of sched_add is exact. */
  lemma AlreadyQueued(table: seq<Pcb>, queue: seq<nat>, head: int, tail: int, p: nat)
    requires Links(table, queue, head, tail) && p < |table|
    ensures p in queue <==> table[p].next != NULL || table[p].prev != NULL || p == head
  {
    if p in queue {
      var k :| 0 <= k < |queue| && queue[k] == p;
      assert LinkAt(table, queue, k);
    }
  }

  lemma LinksAppend(table: seq<Pcb>, queue: seq<nat>, head: int, tail: int, p: nat, table': seq<Pcb>, head': int)
    requires Links(table, queue, head, tail) && p < |table| == |table'| && p !in queue
    requires table'[p].next == NULL && table'[p].prev == tail
    requires tail != NULL ==> table'[tail].next == p && table'[tail].prev == table[tail].prev
    requires forall i ::
             0 <= i < |table| && i != p && i != tail ==>
             table'[i].next == table[i].next && table'[i].prev == table[i].prev
    requires head' == if tail == NULL then p else head
    ensures Links(table', queue + [p], head', p)
  {
    var queue', n := queue + [p], |queue|;
    forall k | 0 <= k < |queue'| ensures LinkAt(table', queue', k) {
      if k < n {
        assert LinkAt(table, queue, k) && queue'[k] == queue[k];
        if k == n - 1 { assert tail == queue[k]; }
      }
    }
    assert forall i :: 0 <= i < |table| && i !in queue' ==> i !in queue && i != p;
  }

  /** `table'` is `table` after the node at position `k` has been bypassed. */
  ghost predicate Bypassed(table: seq<Pcb>, queue: seq<nat>, k: nat, table': seq<Pcb>)
    requires k < |queue|
  {
    && |table| == |table'|
    && (forall i :: 0 <= i < |table| ==>
          && table'[i].next == (if i == queue[k] then NULL else if i == PrevIn(queue, k) then NextIn(queue, k)
              else table[i].next)
          && table'[i].prev == (if i == queue[k] then NULL else if i == NextIn(queue, k) then PrevIn(queue, k)
              else table[i].prev))
  }

  lemma BypassLink(table: seq<Pcb>, queue: seq<nat>, k: nat, table': seq<Pcb>, i: nat)
    requires Distinct(queue) && k < |queue| && i < |queue| && i != k
    requires LinkAt(table, queue, i) && Bypassed(table, queue, k, table')
    ensures LinkAt(table', queue[..k] + queue[k + 1..], if i < k then i else i - 1)
  {
  }

  lemma LinksRemove(table: seq<Pcb>, queue: seq<nat>, head: int, tail: int, k: nat,
                    table': seq<Pcb>, head': int, tail': int)
    requires Links(table, queue, head, tail) && k < |queue| && Bypassed(table, queue, k, table')
    requires head' == if k == 0 then NextIn(queue, k) else head
    requires tail' == if k == |queue| - 1 then PrevIn(queue, k) else tail
    ensures Links(table', queue[..k] + queue[k + 1..], head', tail')
    ensures queue[k] !in queue[..k] + queue[k + 1..]
  {
    var queue' := queue[..k] + queue[k + 1..];
    forall j | 0 <= j < |queue'| ensures LinkAt(table', queue', j) {
      BypassLink(table, queue, k, table', if j < k then j else j + 1);
    }
    forall i | 0 <= i < |table| && i !in queue' ensures table'[i].next == NULL && table'[i].prev == NULL {
      if i != queue[k] { RemovedStays(queue, k, i); }
    }
  }

  lemma RemovedStays(queue: seq<nat>, k: nat, i: nat)
    requires k < |queue| && i != queue[k]
    ensures i in queue <==> i in queue[..k] + queue[k + 1..]
  {
  }

  /** Two tables that differ in links only. */
  ghost predicate SameButLinks(a: seq<Pcb>, b: seq<Pcb>) {
    |a| == |b| && forall i :: 0 <= i < |a| ==> a[i] == b[i].(next := a[i].next, prev := a[i].prev)
  }

  /** The table after sched_add has linked `p` behind `tail`. */
  function Appended(table: seq<Pcb>, tail: int, p: nat): seq<Pcb>
    requires p < |table| && NULL <= tail < |table|
  {
    var t := table[p := table[p].(state := Ready, prev := tail, next := NULL)];
    if tail != NULL then t[tail := t[tail].(next := p)] else t
  }

  lemma AppendedLinks(table: seq<Pcb>, queue: seq<nat>, head: int, tail: int, p: nat)
    requires Links(table, queue, head, tail) && p < |table| && p !in queue && NULL <= tail < |table|
    ensures Links(Appended(table, tail, p), queue + [p], if tail == NULL then p else head, p)
    ensures SameButLinks(Appended(table, tail, p), table[p := table[p].(state := Ready)])
  {
    if tail != NULL { assert tail == queue[|queue| - 1]; }
    LinksAppend(table, queue, head, tail, p, Appended(table, tail, p), if tail == NULL then p else head);
  }

  /** The table after sched_remove has bypassed `p`. */
  function Unlinked(table: seq<Pcb>, p: nat): seq<Pcb>
    requires p < |table| && NULL <= table[p].prev < |table| && NULL <= table[p].next < |table|
  {
    var before, after := table[p].prev, table[p].next;
    var t1 := if before != NULL then table[before := table[before].(next := after)] else table;
    var t2 := if after != NULL then t1[after := t1[after].(prev := before)] else t1;
    t2[p := t2[p].(next := NULL, prev := NULL)]
  }

  lemma UnlinkedLinks(table: seq<Pcb>, queue: seq<nat>, head: int, tail: int, k: nat)
    requires Links(table, queue, head, tail) && k < |queue|
    ensures var p := queue[k];
            && NULL <= table[p].prev < |table| && NULL <= table[p].next < |table|
            && table[p].prev != p && table[p].next != p && (table[p].prev == NULL || table[p].prev != table[p].next)
            && Links(Unlinked(table, p), queue[..k] + queue[k + 1..],
                     if table[p].prev == NULL then table[p].next else head,
                     if table[p].next == NULL then table[p].prev else tail)
            && SameButLinks(Unlinked(table, p), table)
            && p !in queue[..k] + queue[k + 1..]
  {
    var p := queue[k];
    assert LinkAt(table, queue, k);
    assert Bypassed(table, queue, k, Unlinked(table, p));
    LinksRemove(table, queue, head, tail, k, Unlinked(table, p),
                if table[p].prev == NULL then table[p].next else head,
                if table[p].next == NULL then table[p].prev else tail);
  }

  lemma PoppedLinks(table: seq<Pcb>, queue: seq<nat>, head: int, tail: int)
    requires Links(table, queue, head, tail) && queue != []
    ensures head == queue[0] && table[head].prev == NULL && NULL <= table[head].next < |table|
    ensures table[head].next != head
    ensures Links(Unlinked(table, head), queue[1..], table[head].next, if table[head].next == NULL then NULL else tail)
    ensures SameButLinks(Unlinked(table, head), table)
  {
    assert LinkAt(table, queue, 0);
    UnlinkedLinks(table, queue, head, tail, 0);
    assert queue[..0] + queue[1..] == queue[1..];
  }

  /** Slot zero is the idle process, and a process number is its slot. */
  ghost predicate Records(table: seq<Pcb>, nextPid: nat) {
    && (forall i {:trigger table[i].idle} :: 0 <= i < |table| ==> (table[i].idle <==> i == IDLE))
    && (forall i {:trigger table[i].pid} :: 0 <= i < nextPid && i < |table| ==> table[i].pid == i)
  }

  lemma ProcsUnlinked(a: seq<Pcb>, b: seq<Pcb>, nextPid: nat)
    requires SameButLinks(a, b) && Records(b, nextPid)
    ensures Procs(a) == Procs(b) && Records(a, nextPid)
  {
    forall i | 0 <= i < |a|
      ensures a[i].idle == b[i].idle && a[i].pid == b[i].pid
    {
      assert a[i] == b[i].(next := a[i].next, prev := a[i].prev);
    }
  }

  /** `q` is `queue` without `p`. */
  ghost predicate TakenOut(queue: seq<nat>, q: seq<nat>, p: int) {
    p !in q && exists k :: 0 <= k < |queue| && queue[k] == p && q == queue[..k] + queue[k + 1..]
  }

  lemma RemoveOutcome(table: seq<Pcb>, queue: seq<nat>, head: int, tail: int, nextPid: nat,
      p: nat) returns (q: seq<nat>)
    requires Links(table, queue, head, tail) && Records(table, nextPid) && p < |table|
    ensures NULL <= table[p].prev < |table| && NULL <= table[p].next < |table|
    ensures table[p].prev != p && table[p].next != p && (table[p].prev == NULL || table[p].prev != table[p].next)
    ensures |Unlinked(table, p)| == |table| && Procs(Unlinked(table, p)) == Procs(table)
            && Records(Unlinked(table, p), nextPid)
    ensures p in queue ==>
              && Links(Unlinked(table, p), q, if table[p].prev == NULL then table[p].next else head,
                       if table[p].next == NULL then table[p].prev else tail)
              && TakenOut(queue, q, p)
    ensures p !in queue ==> q == queue && Unlinked(table, p) == table && table[p].prev == NULL && table[p].next == NULL
    ensures p !in queue && queue != [] ==> !Links(table, queue, NULL, NULL)
  {
    q := queue;
    if p in queue {
      var k :| 0 <= k < |queue| && queue[k] == p;
      q := queue[..k] + queue[k + 1..];
      UnlinkedLinks(table, queue, head, tail, k);
    }
    ProcsUnlinked(Unlinked(table, p), table, nextPid);
  }

  class Kernel {
    var table: seq<Pcb>
    var head: int
    var tail: int
    var current: int
    var nextPid: nat
    var running: bool          // scheduler_running
    var needReschedule: bool
    var ticks: nat             // tick_count of the timer
    ghost var queue: seq<nat>

    /** What the pointer operations rely on and keep. */
    ghost predicate Linked()
      reads this
    {
      && |table| == MAX_PROCESSES
      && 0 <= current < MAX_PROCESSES
      && Links(table, queue, head, tail)
      && Records(table, nextPid)
    }

    ghost function View(): Machine
      reads this
      requires 0 <= current
    {
      Machine(Procs(table), queue, current, nextPid, ticks, needReschedule)
    }

    ghost predicate Valid()
      reads this
    {
      Linked() && if running then Inv(View()) else Booting(View())
    }

    /** process_init followed by sched_init. */
    constructor ()
      ensures Valid() && !running
      ensures nextPid == 1 && queue == [] && ticks == 0
    {
      var free := Pcb(0, Unused, false, 0, 0, NULL, NULL, 0);
      var idle := Pcb(0, Ready, true, DEFAULT_TIME_SLICE, 0, NULL, NULL, 0);
      table := [idle] + seq(MAX_PROCESSES - 1, _ => free);
      head, tail, current, nextPid := NULL, NULL, 0, 1;
      running, needReschedule, ticks := false, false, 0;
      queue := [];
    }

    // ------------------------------------------------------------ run queue

    method SchedAdd(p: int)
      requires Linked() && NULL <= p < MAX_PROCESSES
      modifies this`table, this`head, this`tail, this`queue
      ensures Linked()
      ensures View() == if p == NULL then old(View()) else Enqueue(old(View()), p)
    {
      if p == NULL { return; }
      if table[p].idle { return; }
      AlreadyQueued(table, queue, head, tail, p);
      if table[p].next != NULL || table[p].prev != NULL || p == head {
        return;
      }
      table := table[p := table[p].(state := Ready, prev := tail, next := NULL)];
      if tail != NULL {
        table := table[tail := table[tail].(next := p)];
      } else {
        head := p;
      }
      tail := p;
      queue := queue + [p];
      AppendedLinks(old(table), old(queue), old(head), old(tail), p);
      assert table == Appended(old(table), old(tail), p);
      ProcsUnlinked(table, old(table)[p := old(table)[p].(state := Ready)], nextPid);
    }

    method SchedPickNext() returns (next: int)
      requires Linked()
      modifies this`table, this`head, this`tail, this`queue
      ensures Linked() && 0 <= next < MAX_PROCESSES
      ensures next == if old(queue) == [] then IDLE else old(queue)[0]
      ensures View() == old(View()).(queue := if old(queue) == [] then [] else old(queue)[1..])
    {
      if head != NULL {
        PoppedLinks(table, queue, head, tail);
        ProcsUnlinked(Unlinked(table, head), table, nextPid);
        next := PopHead();
        queue := queue[1..];
        return;
      }
      next := IDLE;
    }

    /** The stores of sched_pick_next. */
    method PopHead() returns (next: int)
      requires 0 <= head < |table| && table[head].prev == NULL && NULL <= table[head].next < |table|
               && table[head].next != head
      modifies this`table, this`head, this`tail
      ensures next == old(head) && table == Unlinked(old(table), next) && head == old(table)[next].next
      ensures tail == if old(table)[next].next == NULL then NULL else old(tail)
    {
      next := head;
      head := table[next].next;
      if head != NULL {
        table := table[head := table[head].(prev := NULL)];
      } else {
        tail := NULL;
      }
      table := table[next := table[next].(next := NULL, prev := NULL)];
    }

    /**
     sched_remove. A queued process is taken out wherever it stands; one that is not
     queued makes the list forget every process in it.
     */
    method SchedRemove(p: int)
      requires Linked() && NULL <= p < MAX_PROCESSES
      modifies this`table, this`head, this`tail, this`queue
      ensures Linked() <==> p == NULL || p in old(queue) || old(queue) == []
      ensures Procs(table) == Procs(old(table))
      ensures p == NULL ==> table == old(table) && head == old(head) && tail == old(tail) && queue == old(queue)
      ensures p != NULL && p in old(queue) ==> TakenOut(old(queue), queue, p)
      ensures p != NULL && p !in old(queue) ==>
              head == NULL && tail == NULL && table == old(table) && queue == old(queue)
    {
      if p == NULL { return; }
      ghost var q := RemoveOutcome(table, queue, head, tail, nextPid, p);
      UnlinkNode(p);
      queue := q;
    }

    /** The stores of sched_remove. */
    method UnlinkNode(p: nat)
      requires p < |table| && NULL <= table[p].prev < |table| && NULL <= table[p].next < |table|
      requires table[p].prev != p && table[p].next != p && (table[p].prev == NULL || table[p].prev != table[p].next)
      modifies this`table, this`head, this`tail
      ensures table == Unlinked(old(table), p)
      ensures head == if old(table)[p].prev == NULL then old(table)[p].next else old(head)
      ensures tail == if old(table)[p].next == NULL then old(table)[p].prev else old(tail)
    {
      if table[p].prev != NULL {
        table := table[table[p].prev := table[table[p].prev].(next := table[p].next)];
      } else {
        head := table[p].next;
      }
      if table[p].next != NULL {
        table := table[table[p].next := table[table[p].next].(prev := table[p].prev)];
      } else {
        tail := table[p].prev;
      }
      table := table[p := table[p].(next := NULL, prev := NULL)];
    }

    method SchedReadyCount() returns (count: nat)
      requires Linked()
      ensures count == |queue|
    {
      count := 0;
      var p := head;
      while p != NULL
        invariant 0 <= count <= |queue|
        invariant p == if count < |queue| then queue[count] else NULL
        decreases |queue| - count
      {
        assert LinkAt(table, queue, count);
        count := count + 1;
        p := table[p].next;
      }
    }

    // ------------------------------------------------------------ scheduling

    method Schedule()
      requires Linked()
      modifies this`table, this`head, this`tail, this`queue, this`current
      ensures Linked()
      ensures (forall i :: i in old(queue) ==> i < MAX_PROCESSES)
      ensures View() == if running then SchedulerSpec.Schedule(old(View())) else old(View())
    {
      assert forall i :: i in queue ==> i < MAX_PROCESSES;
      if !running { return; }
      ghost var m := View();
      ScheduleInSteps(m);
      var prev := current;
      var next := SchedPickNext();
      if next == prev {
        SetEntry(next, table[next].(slice := DEFAULT_TIME_SLICE));
        return;
      }
      Requeue(prev);
      Dispatch(next);
    }

    /** Put a preempted process back at the tail of the queue. */
    method Requeue(prev: int)
      requires Linked() && 0 <= prev < MAX_PROCESSES
      modifies this`table, this`head, this`tail, this`queue
      ensures Linked()
      ensures View() == var m := old(View());
                        var x := m.procs[prev];
                        if x.state.Running? then Enqueue(SetProc(m, prev,
                            x.(state := Ready, slice := DEFAULT_TIME_SLICE)), prev) else m
    {
      if table[prev].state == Running {
        SetEntry(prev, table[prev].(state := Ready, slice := DEFAULT_TIME_SLICE));
        SchedAdd(prev);
      }
    }

    method Dispatch(next: int)
      requires Linked() && 0 <= next < MAX_PROCESSES
      modifies this`table, this`current
      ensures Linked()
      ensures View() == var m := old(View());
                        SetProc(m, next, m.procs[next].(state := Running,
                            slice := DEFAULT_TIME_SLICE)).(current := next)
    {
      SetEntry(next, table[next].(state := Running, slice := DEFAULT_TIME_SLICE));
      current := next;
    }

    /** Write a process record back without touching its links, flags or PID. */
    method SetEntry(p: int, x: Pcb)
      requires Linked() && 0 <= p < MAX_PROCESSES
      requires x.next == table[p].next && x.prev == table[p].prev && x.idle == table[p].idle && x.pid == table[p].pid
      modifies this`table
      ensures Linked() && table == old(table)[p := x]
      ensures View() == SetProc(old(View()), p, ProcOf(x))
    {
      table := table[p := x];
      assert forall k :: 0 <= k < |queue| && LinkAt(old(table), queue, k) ==> LinkAt(table, queue, k);
      assert Procs(table) == Procs(old(table))[p := ProcOf(x)];
    }

    /** sched_start: from here on every step keeps Inv. */
    method SchedStart()
      requires Valid() && !running
      modifies this
      ensures Valid() && running
      ensures View() == StartStep(old(View()))
    {
      ghost var m := View();
      StartInv(m);
      var first := SchedPickNext();
      running := true;
      Dispatch(first);
    }

    method WakeSleeping()
      requires Linked()
      modifies this`table, this`head, this`tail, this`queue
      ensures Linked()
      ensures View() == WakeBelow(old(View()), MAX_PROCESSES)
    {
      for i := 0 to MAX_PROCESSES
        invariant Linked() && View() == WakeBelow(old(View()), i)
      {
        WakeSlot(i);
      }
    }

    method WakeSlot(i: int)
      requires Linked() && 0 <= i < MAX_PROCESSES
      modifies this`table, this`head, this`tail, this`queue
      ensures Linked()
      ensures View() == WakeOne(old(View()), i)
    {
      if table[i].state == Blocked && table[i].wakeTick > 0 {
        if ticks >= table[i].wakeTick {
          SetEntry(i, table[i].(state := Ready, wakeTick := 0, slice := DEFAULT_TIME_SLICE));
          SchedAdd(i);
        }
      }
    }

    /** Charge the tick and decide on preemption. */
    method ChargeCurrent()
      requires Linked()
      modifies this`table, this`needReschedule
      ensures Linked()
      ensures View() == Expire(Charge(old(View())))
    {
      SetEntry(current, table[current].(totalTicks := table[current].totalTicks + 1));
      if table[current].slice > 0 {
        SetEntry(current, table[current].(slice := table[current].slice - 1));
      }
      assert View() == Charge(old(View()));
      if table[current].slice == 0 {
        if !table[current].idle || head != NULL {
          needReschedule := true;
        } else {
          SetEntry(current, table[current].(slice := DEFAULT_TIME_SLICE));
        }
      }
    }

    /** sched_tick, `m` being the machine just before the tick was counted. */
    method SchedTick(ghost m: Machine)
      requires Linked() && running && Inv(m) && View() == m.(now := m.now + 1)
      modifies this`table, this`head, this`tail, this`queue, this`current, this`needReschedule
      ensures Linked()
      ensures View() == TickStep(m)
    {
      ghost var m1, m2 := TickParts(m);
      WakeSleeping();
      ChargeCurrent();
      Preempt();
    }

    method Preempt()
      requires Linked() && running
      modifies this`table, this`head, this`tail, this`queue, this`current, this`needReschedule
      ensures Linked()
      ensures forall i :: i in old(queue) ==> i < MAX_PROCESSES
      ensures View() == if old(needReschedule) then SchedulerSpec.Schedule(old(View()).(resched := false))
              else old(View())
    {
      assert forall i :: i in queue ==> i < MAX_PROCESSES;
      if needReschedule {
        needReschedule := false;
        Schedule();
      }
    }

    /** The timer interrupt: count the tick, then sched_tick. */
    method TimerTick()
      requires Valid()
      modifies this
      ensures Valid() && running == old(running)
      ensures View() == if running then Step(old(View()), Tick) else old(View()).(now := old(ticks) + 1)
    {
      ghost var m := View();
      ticks := ticks + 1;
      if running {
        TickInv(m);
        SchedTick(m);
      }
    }

    method Yield()
      requires Valid() && running
      modifies this
      ensures Valid() && running
      ensures View() == Step(old(View()), Event.Yield)
    {
      StepInv(View(), Event.Yield);
      ghost var m := View();
      ResetSlice();
      YieldIsLeave(m);
      Schedule();
    }

    /** The stores of sched_yield before it reschedules. */
    method ResetSlice()
      requires Linked() && 0 <= current < MAX_PROCESSES
      modifies this`table, this`needReschedule
      ensures Linked() && View() == Yielded(old(View()))
    {
      SetEntry(current, table[current].(slice := DEFAULT_TIME_SLICE));
      needReschedule := true;
    }

    method Block()
      requires Valid() && running
      modifies this
      ensures Valid() && running
      ensures View() == Step(old(View()), Event.Block)
    {
      StepInv(View(), Event.Block);
      if table[current].idle { return; }
      SetEntry(current, table[current].(state := Blocked));
      Schedule();
    }

    /** process_exit; exiting the idle process panics, so it is excluded. */
    method Exit()
      requires Valid() && running && current != IDLE
      modifies this
      ensures Valid() && running
      ensures View() == Step(old(View()), Event.Exit)
    {
      StepInv(View(), Event.Exit);
      ExitIsLeave(View());
      SetEntry(current, table[current].(state := Terminated));
      Schedule();
    }

    /** process_get: with slots never reused, PID and slot coincide. */
    method ProcessGet(pid: nat) returns (p: int)
      requires Valid()
      ensures p == if pid < nextPid then pid else NULL
    {
      for i := 0 to MAX_PROCESSES
        invariant i <= pid || nextPid <= pid
      {
        if table[i].state != Unused && table[i].pid == pid {
          assert !View().procs[i].state.Unused?;
          return i;
        }
        assert View().procs[i].state.Unused? <==> nextPid <= i;
      }
      p := NULL;
    }

    method Unblock(pid: nat)
      requires Valid() && running
      modifies this
      ensures Valid() && running
      ensures View() == Step(old(View()), Event.Unblock(pid))
    {
      StepInv(View(), Event.Unblock(pid));
      var p := ProcessGet(pid);
      if p != NULL && table[p].state == Blocked {
        SetEntry(p, table[p].(state := Ready, slice := DEFAULT_TIME_SLICE));
        SchedAdd(p);
      }
    }

    method FindFreeSlot() returns (p: int)
      requires Valid()
      ensures p == if nextPid < MAX_PROCESSES then nextPid else NULL
    {
      for i := 0 to MAX_PROCESSES
        invariant i <= nextPid
      {
        assert View().procs[i].state.Unused? <==> nextPid <= i;
        if table[i].state == Unused { return i; }
      }
      p := NULL;
    }

    /** process_create; `stackOk` is whether kmalloc found a kernel stack. */
    method ProcessCreate(stackOk: bool) returns (pid: int)
      requires Valid()
      modifies this
      ensures Valid() && running == old(running)
      ensures View() == CreateStep(old(View()), stackOk)
      ensures pid == if old(nextPid) < MAX_PROCESSES && stackOk then old(nextPid) else -1
    {
      ghost var m := View();
      var p := FindFreeSlot();
      if p == NULL { return -1; }
      if !stackOk { return -1; }
      CreateInv(m);
      FreshSlot(p);
      pid := nextPid;
      InitPcb(p);
      SchedAdd(p);
    }

    /** Fill in a fresh record and take the next PID. */
    method InitPcb(p: int)
      requires Linked() && p == nextPid < MAX_PROCESSES && p != IDLE && p !in queue
      modifies this`table, this`nextPid
      ensures Linked()
      ensures View() == SetProc(old(View()), p,
              old(View()).procs[p].(state := Ready, slice := DEFAULT_TIME_SLICE, cpu := 0)).(nextPid := p + 1)
    {
      table := table[p := Pcb(nextPid, Ready, false, DEFAULT_TIME_SLICE, 0, NULL, NULL, table[p].wakeTick)];
      nextPid := nextPid + 1;
      assert forall k :: 0 <= k < |queue| && LinkAt(old(table), queue, k) ==> LinkAt(table, queue, k);
      assert Procs(table) == Procs(old(table))[p := ProcOf(table[p])];
    }

    lemma FreshSlot(p: int)
      requires Valid() && p == nextPid < MAX_PROCESSES
      ensures p !in queue && p != IDLE && table[p].next == NULL && table[p].prev == NULL
      ensures table[p].state.Unused?
    {
    }

    /** The first half of sys_sleep for a non-zero request: compute the wake tick. */
    method PrepareSleep(ms: nat)
      requires Valid() && running
      modifies this
      ensures Valid() && running
      ensures View() == Step(old(View()), Event.PrepareSleep(ms))
    {
      StepInv(View(), Event.PrepareSleep(ms));
      var ticksToSleep := (ms + 9) % TWO_64 / 10;
      SetEntry(current, table[current].(wakeTick := (ticks + ticksToSleep) % TWO_64));
    }

    /** The tail of sys_sleep, executed when the process runs again. */
    method FinishSleep()
      requires Valid() && running
      modifies this
      ensures Valid() && running
      ensures View() == Step(old(View()), Event.FinishSleep)
    {
      StepInv(View(), Event.FinishSleep);
      SetEntry(current, table[current].(wakeTick := 0));
    }
  }
}
