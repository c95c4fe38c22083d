/** The round-robin scheduler (thread.c). Its routines run with interrupts off,
    so each of them is one step. */
module Threads {
  import opened Bitmap

  type Tid = nat

  datatype Status = Running | Ready | Blocked | Dying

  /** idle and initial are the idle thread and the one that runs main(). */
  datatype Sched = Sched(status: map<Tid, Status>, current: Tid, ready: seq<Tid>, ticks: nat, idle: Tid, initial: Tid)

  // TIME_SLICE
  const SLICE: nat := 4

  // ----- the invariant

  ghost predicate IsReady(s: Sched, t: Tid) {
    t in s.status && s.status[t] == Ready && t != s.idle
  }

  ghost predicate NoDuplicates(list: seq<Tid>) {
    forall j, k :: 0 <= j < k < |list| ==> list[j] != list[k]
  }

  /** The ready list has each ready thread but the idle one, once. */
  ghost predicate ReadyOk(s: Sched) {
    && (forall k :: 0 <= k < |s.ready| ==> IsReady(s, s.ready[k]))
    && (forall t :: IsReady(s, t) ==> t in s.ready)
    && NoDuplicates(s.ready)
  }

  /** Exactly one thread is running, the current one; the ready list is right. */
  ghost predicate Ok(s: Sched) {
    && s.idle in s.status && s.idle != s.initial
    && s.current in s.status && s.status[s.current] == Running
    && (forall t :: t in s.status && s.status[t] == Running ==> t == s.current)
    && s.status[s.idle] != Dying
    && ReadyOk(s)
  }

  // ----- what the routines do

  /** next_thread_to_run and schedule, once the running thread has given up the
      processor. */
  function Schedule(s: Sched): Sched {
    var next := if s.ready == [] then s.idle else s.ready[0];
    s.(status := s.status[next := Running], current := next, ready := if s.ready == [] then []
        else s.ready[1..], ticks := 0)
  }

  /** thread_block */
  function Block(s: Sched): Sched {
    Schedule(s.(status := s.status[s.current := Blocked]))
  }

  /** thread_unblock */
  function Unblock(s: Sched, t: Tid): Sched {
    s.(status := s.status[t := Ready], ready := s.ready + [t])
  }

  /** thread_yield */
  function Yield(s: Sched): Sched {
    Schedule(s.(status := s.status[s.current := Ready], ready := if s.current != s.idle then s.ready + [s.current]
        else s.ready))
  }

  /** thread_exit, and the destruction of the thread once another one runs */
  function Exit(s: Sched): Sched {
    var s1 := Schedule(s.(status := s.status[s.current := Dying]));
    if s.current != s.initial then s1.(status := s1.status - {s.current}) else s1
  }

  /** init_thread for a new thread */
  function Create(s: Sched, t: Tid): Sched {
    s.(status := s.status[t := Blocked])
  }

  /** thread_tick, followed on return from the interrupt by a yield when the
      time slice is over. */
  function Tick(s: Sched): Sched {
    if s.ticks + 1 >= SLICE then Yield(s) else s.(ticks := s.ticks + 1)
  }

  // ----- every routine keeps the invariant

  /** A running thread has just given up the processor. */
  ghost predicate GaveUp(s: Sched) {
    && s.idle in s.status && s.idle != s.initial && s.status[s.idle] != Dying
    && (forall t :: t in s.status ==> s.status[t] != Running)
    && ReadyOk(s)
  }

  lemma ScheduleOk(s: Sched)
    requires GaveUp(s)
    ensures Ok(Schedule(s))
    ensures forall t :: t in s.status && t != Schedule(s).current ==> Schedule(s).status[t] == s.status[t]
  {
    var s' := Schedule(s);
    if s.ready != [] {
      forall t | IsReady(s', t)
        ensures t in s'.ready
      {
        assert IsReady(s, t);
        var k :| 0 <= k < |s.ready| && s.ready[k] == t;
        assert s'.ready[k - 1] == t;
      }
      forall k | 0 <= k < |s'.ready|
        ensures IsReady(s', s'.ready[k])
      {
        assert IsReady(s, s.ready[k + 1]);
      }
    }
  }

  lemma BlockOk(s: Sched)
    requires Ok(s)
    ensures Ok(Block(s))
  {
    GivesUp(s, Blocked);
    ScheduleOk(s.(status := s.status[s.current := Blocked]));
  }

  lemma UnblockOk(s: Sched, t: Tid)
    requires Ok(s) && t in s.status && s.status[t] == Blocked && t != s.idle
    ensures Ok(Unblock(s, t))
  {
    var s' := Unblock(s, t);
    forall u
      ensures IsReady(s', u) <==> IsReady(s, u) || u == t
    {
    }
    assert s'.ready[|s.ready|] == t;
    forall u | IsReady(s', u)
      ensures u in s'.ready
    {
    }
  }

  lemma YieldOk(s: Sched)
    requires Ok(s)
    ensures Ok(Yield(s))
  {
    YieldsUp(s);
    ScheduleOk(s.(status := s.status[s.current := Ready], ready := if s.current != s.idle then s.ready + [s.current]
        else s.ready));
  }

  /** The exiting thread is not the one chosen next, so it is safe to destroy. */
  lemma ExitOk(s: Sched)
    requires Ok(s) && s.current != s.idle
    ensures Ok(Exit(s)) && Exit(s).current != s.current
  {
    var s1 := s.(status := s.status[s.current := Dying]);
    GivesUp(s, Dying);
    ScheduleOk(s1);
    var s2 := Schedule(s1);
    if s1.ready != [] {
      assert IsReady(s1, s1.ready[0]);
    }
    var s' := Exit(s);
    forall t
      ensures IsReady(s', t) <==> IsReady(s2, t)
    {
    }
  }

  lemma CreateOk(s: Sched, t: Tid)
    requires Ok(s) && t !in s.status && t != s.initial
    ensures Ok(Create(s, t))
  {
    forall u
      ensures IsReady(Create(s, t), u) <==> IsReady(s, u)
    {
    }
  }

  lemma TickOk(s: Sched)
    requires Ok(s)
    ensures Ok(Tick(s))
  {
    var s1 := s.(ticks := s.ticks + 1);
    if s.ticks + 1 < SLICE {
      assert forall u :: IsReady(s1, u) <==> IsReady(s, u);
    } else {
      YieldOk(s);
    }
  }

  // ----- thread.c

  /** The scheduler's variables. */
  class Scheduler {
    var status: map<Tid, Status>
    var current: Tid
    var readyList: seq<Tid>
    var idleThread: Tid
    const initialThread: Tid
    var threadTicks: nat

    constructor (initial: Tid, idle: Tid)
      requires idle != initial
      ensures State() == Sched(map[initial := Running, idle := Blocked], initial, [], 0, idle, initial) && Ok(State())
    {
      status, current, readyList := map[initial := Running, idle := Blocked], initial, [];
      idleThread, initialThread, threadTicks := idle, initial, 0;
    }

    function State(): Sched
      reads this
    {
      Sched(status, current, readyList, threadTicks, idleThread, initialThread)
    }

    /** next_thread_to_run */
    method NextThreadToRun() returns (next: Tid)
      modifies this`readyList
      ensures if old(readyList) == [] then next == idleThread && readyList == []
              else [next] + readyList == old(readyList)
    {
      if readyList == [] {
        next := idleThread;
      } else {
        next := readyList[0];
        readyList := readyList[1..];
      }
    }

    /** schedule, with thread_schedule_tail of the thread it switches to. Only
        a dying thread is destroyed, and not the initial one. */
    method ScheduleNext()
      requires GaveUp(State())
      modifies this
      ensures idleThread == old(idleThread)
      ensures var s := Schedule(old(State()));
              State() == if old(current) in old(status) && old(status)[old(current)] == Dying
                  && old(current) != initialThread && s.current != old(current)
                         then s.(status := s.status - {old(current)}) else s
    {
      var cur := current;
      var next := NextThreadToRun();
      current := next;
      status := status[next := Running];
      threadTicks := 0;
      if cur in status && status[cur] == Dying && cur != initialThread {
        status := status - {cur};
      }
    }

    method ThreadBlock()
      requires Ok(State())
      modifies this
      ensures State() == Block(old(State())) && Ok(State())
    {
      BlockOk(State());
      GivesUp(State(), Blocked);
      status := status[current := Blocked];
      ScheduleNext();
    }

    method ThreadUnblock(t: Tid)
      requires Ok(State()) && t in status && status[t] == Blocked && t != idleThread
      modifies this
      ensures State() == Unblock(old(State()), t) && Ok(State())
    {
      UnblockOk(State(), t);
      readyList := readyList + [t];
      status := status[t := Ready];
    }

    method ThreadYield()
      requires Ok(State())
      modifies this
      ensures State() == Yield(old(State())) && Ok(State())
    {
      YieldOk(State());
      YieldsUp(State());
      if current != idleThread {
        readyList := readyList + [current];
      }
      status := status[current := Ready];
      ScheduleNext();
    }

    method ThreadExit()
      requires Ok(State()) && current != idleThread
      modifies this
      ensures State() == Exit(old(State())) && Ok(State())
    {
      ExitOk(State());
      GivesUp(State(), Dying);
      status := status[current := Dying];
      ScheduleNext();
    }

    /** thread_tick and the yield on return from the interrupt. */
    method ThreadTick()
      requires Ok(State())
      modifies this
      ensures State() == Tick(old(State())) && Ok(State())
    {
      TickOk(State());
      if threadTicks + 1 >= SLICE {
        ThreadYield();
      } else {
        threadTicks := threadTicks + 1;
      }
    }
  }

  lemma GivesUp(s: Sched, status: Status)
    requires Ok(s) && (status == Blocked || (status == Dying && s.current != s.idle))
    ensures GaveUp(s.(status := s.status[s.current := status]))
  {
    var s1 := s.(status := s.status[s.current := status]);
    forall t
      ensures IsReady(s1, t) <==> IsReady(s, t)
    {
    }
  }

  lemma YieldsUp(s: Sched)
    requires Ok(s)
    ensures GaveUp(s.(status := s.status[s.current := Ready], ready := if s.current != s.idle then s.ready + [s.current]
            else s.ready))
  {
    var s1 := s.(status := s.status[s.current := Ready], ready := if s.current != s.idle then s.ready + [s.current]
        else s.ready);
    forall u
      ensures IsReady(s1, u) <==> IsReady(s, u) || (u == s.current && u != s.idle)
    {
    }
    if s.current != s.idle {
      assert s1.ready[|s.ready|] == s.current;
    }
    forall u | IsReady(s1, u)
      ensures u in s1.ready
    {
    }
  }

  // ----- bounded waiting

  /** How the ready list changes: threads are added at the end, and a call of
      schedule takes the first one (if there is one by then). */
  ghost predicate Moves(s: Sched, s': Sched, scheduled: bool) {
    exists added: seq<Tid> :: MovesBy(s, s', scheduled, added)
  }

  ghost predicate MovesBy(s: Sched, s': Sched, scheduled: bool, added: seq<Tid>) {
    var all := s.ready + added;
    if !scheduled then s'.ready == all && s'.current == s.current
    else if all == [] then s'.ready == [] && s'.current == s.idle
    else s'.ready == all[1..] && s'.current == all[0]
  }

  lemma RoutinesMove(s: Sched, t: Tid)
    ensures Moves(s, Block(s), true) && Moves(s, Yield(s), true) && Moves(s, Exit(s), true)
    ensures Moves(s, Unblock(s, t), false) && Moves(s, Create(s, t), false) && Moves(s, Tick(s), s.ticks + 1 >= SLICE)
  {
    assert s.ready + [] == s.ready;
    assert MovesBy(s, Block(s), true, []) && MovesBy(s, Exit(s), true, []);
    assert MovesBy(s, Yield(s), true, if s.current != s.idle then [s.current] else []);
    assert MovesBy(s, Unblock(s, t), false, [t]) && MovesBy(s, Create(s, t), false, []);
    assert s.ticks + 1 < SLICE ==> MovesBy(s, Tick(s), false, []);
  }

  /** A step moves a waiting thread one place forward when it schedules, and
      never back. */
  lemma PositionFalls(s: Sched, s': Sched, scheduled: bool, k: nat)
    requires Moves(s, s', scheduled) && k < |s.ready|
    ensures if !scheduled then k < |s'.ready| && s'.ready[k] == s.ready[k]
            else if k == 0 then s'.current == s.ready[0]
            else k - 1 < |s'.ready| && s'.ready[k - 1] == s.ready[k]
  {
  }

  /** A run of the scheduler: calls[i] tells whether step i calls schedule. */
  ghost predicate Run(run: seq<Sched>, calls: seq<bool>) {
    |run| == |calls| + 1 && forall i :: 0 <= i < |calls| ==> Moves(run[i], run[i + 1], calls[i])
  }

  function Count(calls: seq<bool>): nat {
    if calls == [] then 0 else (if calls[0] then 1 else 0) + Count(calls[1..])
  }

  /** A thread at position k of the ready list runs after at most k + 1 calls
      of schedule, whatever the other steps are. */
  lemma {:induction false} BoundedWaiting(run: seq<Sched>, calls: seq<bool>, k: nat)
    requires Run(run, calls) && k < |run[0].ready| && Count(calls) >= k + 1
    ensures exists i :: 0 < i < |run| && run[i].current == run[0].ready[k] && Count(calls[..i]) <= k + 1
    decreases |calls|
  {
    var t := run[0].ready[k];
    PositionFalls(run[0], run[1], calls[0], k);
    assert calls[..1] == [calls[0]];
    if calls[0] && k == 0 {
      assert Count(calls[..1]) == 1;
      assert run[1].current == t;
    } else {
      var k' := if calls[0] then k - 1 else k;
      assert forall i :: 0 <= i < |calls[1..]| ==> run[1..][i] == run[i + 1] && calls[1..][i] == calls[i + 1];
      BoundedWaiting(run[1..], calls[1..], k');
      var i :| 0 < i < |run[1..]| && run[1..][i].current == run[1..][0].ready[k'] && Count(calls[1..][..i]) <= k' + 1;
      assert calls[..i + 1][1..] == calls[1..][..i];
      assert run[i + 1].current == t;
    }
  }

  // ----- what becomes of the threads

  /** The thread that blocks is blocked, the one that yields is ready, and the one
      that exits is gone, but for the initial thread; except that the idle
      thread may be chosen again. The thread that is unblocked is ready, and
      all others are what they were. */
  lemma RoutineEffects(s: Sched, t: Tid)
    requires Ok(s)
    ensures var s' := Block(s); s'.current != s.current ==> s.current in s'.status && s'.status[s.current] == Blocked
    ensures var s' := Yield(s); s'.current != s.current ==> s.current in s'.status && s'.status[s.current] == Ready
    ensures s.current != s.idle ==>
              Exit(s).status.Keys == s.status.Keys - if s.current != s.initial then {s.current} else {}
    ensures Unblock(s, t).status == s.status[t := Ready] && Create(s, t).status == s.status[t := Blocked]
    ensures forall s' :: s' == Block(s) || s' == Yield(s) || s' == Exit(s) ==>
              forall u :: u in s.status && u != s.current && u != s'.current ==>
                    u in s'.status && s'.status[u] == s.status[u]
  {
    if s.ready != [] {
      assert IsReady(s, s.ready[0]);
    }
  }

  // ----- time slices

  /** What may happen to the scheduler. */
  datatype Event = Blocks | Yields | Exits | Ticks | Unblocks(t: Tid) | Creates(t: Tid)

  function After(s: Sched, e: Event): Sched {
    match e
    case Blocks => Block(s)
    case Yields => Yield(s)
    case Exits => Exit(s)
    case Ticks => Tick(s)
    case Unblocks(t) => Unblock(s, t)
    case Creates(t) => Create(s, t)
  }

  ghost predicate Happens(run: seq<Sched>, events: seq<Event>) {
    |run| == |events| + 1 && forall i :: 0 <= i < |events| ==> run[i + 1] == After(run[i], events[i])
  }

  function TickCount(events: seq<Event>): nat {
    if events == [] then 0 else TickCount(events[..|events| - 1]) + if events[|events| - 1] == Ticks then 1 else 0
  }

  /** Whenever a thread gives up the processor, the next one has a full slice. */
  lemma SliceStarts(s: Sched)
    ensures Block(s).ticks == 0 && Yield(s).ticks == 0 && Exit(s).ticks == 0
    ensures Tick(s).ticks == 0 || Tick(s).ticks == s.ticks + 1 < SLICE
  {
  }

  /** A thread that starts a slice and does not give up the processor keeps it
      until it has run for SLICE ticks, and then goes to the end of the ready
      list, where the idle thread has no place. */
  lemma {:induction false} SliceLength(run: seq<Sched>, events: seq<Event>)
    requires Happens(run, events) && run[0].ticks == 0
    requires forall i :: 0 <= i < |events| ==> !events[i].Blocks? && !events[i].Yields? && !events[i].Exits?
    requires |events| > 0 ==> TickCount(events[..|events| - 1]) < SLICE
    ensures TickCount(events) < SLICE ==>
              run[|events|].current == run[0].current && run[|events|].ticks == TickCount(events)
    ensures TickCount(events) == SLICE ==>
              var before, after := run[|events| - 1], run[|events|];
              && before.current == run[0].current && after.ticks == 0
              && if before.current != before.idle then [after.current] + after.ready == before.ready + [before.current]
                 else if before.ready != [] then [after.current] + after.ready == before.ready
                 else after.current == before.idle && after.ready == []
    decreases |events|
  {
    if |events| > 0 {
      var n := |events| - 1;
      var front := events[..n];
      assert n > 0 ==> front[..n - 1] == events[..n - 1];
      if n > 0 { TicksGrow(events, n - 1, n); }
      SliceLength(run[..n + 1], front);
      assert run[n + 1] == After(run[n], events[n]);
    }
  }

  lemma {:induction false} TicksGrow(events: seq<Event>, i: nat, j: nat)
    requires i <= j <= |events|
    ensures TickCount(events[..i]) <= TickCount(events[..j])
    decreases j
  {
    if i < j {
      assert events[..j][..j - 1] == events[..j - 1];
      TicksGrow(events, i, j - 1);
    }
  }
}
