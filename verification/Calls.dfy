/** What the operations of synch.c do for the threads that call them: each step
    of a thread's own, and whole calls over runs. */
module Calls {
  import opened Bitmap
  import opened Threads
  import opened Synch

  // ----- steps

  /** The current thread takes the next step of the operation it is in. */
  ghost predicate Advances(s: State, a: Action) {
    || a.SetHolder? || a.UnlockUp? || a.WaitRelease? || a.SignalUp? || a.BroadcastTurn?
    || (a.DownTurn? && DownId(Mine(s)).Some? && Value(s, DownId(Mine(s)).value) > 0)
  }

  ghost predicate UpsOnce(s: State, s': State, id: SemaId) { Synch.Count(s'.ups, id) == Synch.Count(s.ups, id) + 1 }

  ghost predicate DownsOnce(s: State, s': State,
                            id: SemaId) { Synch.Count(s'.downs, id) == Synch.Count(s.downs, id) + 1 }

  /** The order of the steps of each operation, as synch.c has it, with what
      each of them does. */
  ghost predicate Goes(s: State, s': State, t: Tid)
    requires t in s.pc && t in s'.pc
  {
    match s.pc[t]
    case DownPlain(n) => s'.pc[t] == Outside && DownsOnce(s, s', Plain(n))
    case DownLock(l) => s'.pc[t] == Holding(l) && DownsOnce(s, s', LockSema(l))
    case Holding(l) => s'.pc[t] == Outside && Holds(s'.holder, t, l)
    case Unlocking(l, w) =>
      UpsOnce(s, s', LockSema(l)) && s'.pc[t] == if w.Some? then DownPrivate(w.value, l) else Outside
    case Queued(l, p) => s'.pc[t] == Unlocking(l, Some(p)) && l !in s'.holder
    case DownPrivate(p, l) => s'.pc[t] == DownLock(l) && DownsOnce(s, s', Private(p))
    case Signalling(p, more) =>
      UpsOnce(s, s', Private(p)) && s'.pc[t] == if more.Some? then Broadcasting(more.value) else Outside
    case Broadcasting(c) =>
      if Waiting(s.queue, c) == [] then s'.pc[t] == Outside && s'.queue == s.queue
      else s'.pc[t] == Signalling(Waiting(s.queue, c)[0], Some(c))
           && Waiting(s.queue, c) == [Waiting(s.queue, c)[0]] + Waiting(s'.queue, c)
    case _ => false
  }

  lemma OwnStep(s: State, a: Action)
    requires SchedInv(s) && Enabled(s, a) && Advances(s, a)
    ensures s.sched.current in s.pc && s.sched.current in Step(s, a).pc && Goes(s, Step(s, a), s.sched.current)
  {
    hide SchedInv, Step, Goes, SemaUp, SemaTake, Get, Value;
    CurrentAwake(s);
    match a {
      case DownTurn => OwnDown(s);
      case UnlockUp => OwnUp(s, a);
      case SignalUp => OwnUp(s, a);
      case _ => OwnOther(s, a);
    }
  }

  lemma OwnDown(s: State)
    requires s.sched.current in s.pc && DownId(Mine(s)).Some? && Value(s, DownId(Mine(s)).value) > 0
    ensures s.sched.current in Step(s, DownTurn).pc && Goes(s, Step(s, DownTurn), s.sched.current)
  {
    TakeValues(s, DownId(Mine(s)).value);
    hide SemaTake, Get, Value, SemaSleep;
  }

  lemma OwnUp(s: State, a: Action)
    requires s.sched.current in s.pc && Enabled(s, a) && (a.UnlockUp? || a.SignalUp?)
    ensures s.sched.current in Step(s, a).pc && Goes(s, Step(s, a), s.sched.current)
  {
    var id := if a.UnlockUp? then LockSema(Mine(s).l) else Private(Mine(s).p);
    OtherValues(s, id);
    hide SemaUp, SemaDown, SemaTake, Get, Value, TakeWaiter;
  }

  lemma OwnOther(s: State, a: Action)
    requires s.sched.current in s.pc && Enabled(s, a) && (a.SetHolder? || a.WaitRelease? || a.BroadcastTurn?)
    ensures s.sched.current in Step(s, a).pc && Goes(s, Step(s, a), s.sched.current)
  {
    hide SemaUp, SemaDown, SemaTake, Get, Value, TakeWaiter, Waiting;
    if a.BroadcastTurn? && Waiting(s.queue, Mine(s).c) != [] {
      TakesFirst(s, Mine(s).c, Some(Mine(s).c), Mine(s).c);
      TakesTo(s, Mine(s).c, Some(Mine(s).c));
    }
  }

  lemma TakesTo(s: State, c: nat, more: Option<nat>)
    requires Waiting(s.queue, c) != []
    ensures TakeWaiter(s, c, more).pc == s.pc[s.sched.current := Signalling(Waiting(s.queue, c)[0], more)]
  {
  }

  /** A thread inside an operation stays where it is in all other steps. */
  lemma Stays(s: State, a: Action, t: Tid)
    requires SchedInv(s) && Enabled(s, a) && t in s.pc && s.pc[t] != Outside && s.pc[t] != Born
    requires !(Advances(s, a) && t == s.sched.current)
    ensures t in Step(s, a).pc && Step(s, a).pc[t] == s.pc[t]
  {
    hide SchedInv, Get, Value, Exit, Yield, Tick, Block, Unblock, Create, Waiting, SemaUp;
    CurrentAwake(s);
    if UsesSema(a) {
      StaysSema(s, a, t);
    } else if Switches(a) {
      StaysSwitch(s, a, t);
    } else {
      StaysOther(s, a, t);
    }
  }

  lemma StaysSema(s: State, a: Action, t: Tid)
    requires Enabled(s, a) && UsesSema(a) && s.sched.current in s.pc && t in s.pc && s.pc[t] != Outside
             && s.pc[t] != Born
    requires !(Advances(s, a) && t == s.sched.current)
    ensures t in Step(s, a).pc && Step(s, a).pc[t] == s.pc[t]
  {
    hide Get, Value, Block, Unblock, SemaUp, SemaTake;
    match a {
      case DownTurn => OtherValues(s, DownId(Mine(s)).value);
      case TryDown(n) => OtherValues(s, Plain(n));
      case Up(n) => OtherValues(s, Plain(n));
      case TryAcquire(l) => OtherValues(s, LockSema(l));
      case UnlockUp => OtherValues(s, LockSema(Mine(s).l));
      case SignalUp => OtherValues(s, Private(Mine(s).p));
    }
  }

  lemma StaysSwitch(s: State, a: Action, t: Tid)
    requires Enabled(s, a) && Switches(a) && s.sched.current in s.pc && t in s.pc && s.pc[t] != Outside
             && s.pc[t] != Born
    ensures t in Step(s, a).pc && Step(s, a).pc[t] == s.pc[t]
  {
    hide Exit, Yield, Tick, Block, Unblock, Create, SemaUp, SemaDown, TakeWaiter;
    match a {
      case New(u) =>
      case Start(u) =>
      case Leave =>
      case GiveWay =>
      case TimerTick =>
      case IdleBlock =>
    }
  }

  lemma StaysOther(s: State, a: Action, t: Tid)
    requires Enabled(s, a) && !UsesSema(a) && !Switches(a) && s.sched.current in s.pc
    requires t in s.pc && s.pc[t] != Outside && s.pc[t] != Born && !(Advances(s, a) && t == s.sched.current)
    ensures t in Step(s, a).pc && Step(s, a).pc[t] == s.pc[t]
  {
    hide SemaUp, SemaDown, Waiting;
    match a {
      case StartDown(n) =>
      case StartAcquire(l) =>
      case SetHolder =>
      case StartRelease(l) =>
      case Wait(c) =>
      case WaitRelease =>
      case Signal(c) =>
      case Broadcast(c) =>
      case BroadcastTurn =>
    }
  }

  // ----- how calls begin, and those that are done in one step

  lemma StartDownBegins(s: State, n: nat)
    ensures Step(s, StartDown(n)) == s.(pc := s.pc[s.sched.current := DownPlain(n)])
  {
  }

  lemma AcquireBegins(s: State, l: nat)
    ensures Step(s, StartAcquire(l)) == s.(pc := s.pc[s.sched.current := DownLock(l)])
  {
  }

  lemma ReleaseBegins(s: State, l: nat)
    ensures var s' := Step(s, StartRelease(l));
            s' == s.(pc := s.pc[s.sched.current := Unlocking(l, None)], holder := s'.holder) && l !in s'.holder
            && forall k :: k != l ==>
                  (k in s'.holder <==> k in s.holder) && (k in s.holder ==> s'.holder[k] == s.holder[k])
  {
  }

  /** sema_try_down and lock_try_acquire succeed exactly when the value is
      positive, and then have decremented it. */
  lemma TryDownNow(s: State, n: nat)
    ensures var s' := Step(s, TryDown(n)); var id := Plain(n);
            && s'.sched == s.sched && s'.pc == s.pc
            && Value(s', id) == if Value(s, id) > 0 then Value(s, id) - 1 else 0
  {
    hide SemaUp, SemaDown, TakeWaiter;
  }

  lemma TryAcquireNow(s: State, l: nat)
    ensures var s' := Step(s, TryAcquire(l)); var id := LockSema(l);
            && s'.sched == s.sched && Value(s', id) == (if Value(s, id) > 0 then Value(s, id) - 1 else 0)
            && s'.pc == if Value(s, id) > 0 then s.pc[s.sched.current := Holding(l)] else s.pc
  {
    hide SemaUp, SemaDown, TakeWaiter;
  }

  /** sema_up raises the value and makes the thread that has waited longest
      ready, at the end of the ready list. */
  lemma UpWakesFirst(s: State, n: nat)
    requires SchedInv(s)
    ensures var s' := Step(s, Up(n)); var list := Waiters(s, Plain(n));
            && Value(s', Plain(n)) == Value(s, Plain(n)) + 1 && UpsOnce(s, s', Plain(n)) && s'.pc == s.pc
            && if list == [] then Waiters(s', Plain(n)) == [] && s'.sched == s.sched
               else list == [list[0]] + Waiters(s', Plain(n)) && s'.sched.ready == s.sched.ready + [list[0]]
                    && list[0] in s'.sched.status && s'.sched.status[list[0]] == Ready
  {
    UpValues(s, Plain(n));
  }

  /** A thread that finds 0 in sema_down blocks at the end of the waiters. */
  lemma DownSleeps(s: State, id: SemaId)
    requires SchedInv(s) && DownId(Mine(s)) == Some(id) && Value(s, id) == 0
    ensures var s' := Step(s, DownTurn);
            && Waiters(s', id) == Waiters(s, id) + [s.sched.current] && s'.pc == s.pc && Value(s', id) == 0
            && s.sched.current in s'.sched.status && s'.sched.status[s.sched.current] == Blocked
  {
    CurrentAwake(s);
    SameIdle(s);
    hide SchedInv, WaitInv, Block, Get;
    SleepLists(s, id);
    SleepValues(s, id);
    BlockedNow(s);
  }

  lemma BlockedNow(s: State)
    requires SchedInv(s) && s.sched.current != s.sched.idle
    ensures s.sched.current in Block(s.sched).status && Block(s.sched).status[s.sched.current] == Blocked
  {
    if s.sched.ready != [] { assert IsReady(s.sched, s.sched.ready[0]); }
  }

  /** cond_wait puts the caller behind all other waiters of c. */
  lemma WaitBegins(s: State, c: nat)
    requires CondInv(s) && Enabled(s, Wait(c))
    ensures var s' := Step(s, Wait(c));
            && c in s.lockOf && Mine(s') == Queued(s.lockOf[c], s.next) && s'.holder == s.holder && s'.sched == s.sched
            && Waiting(s'.queue, c) == Waiting(s.queue, c) + [s.next]
            && forall q :: q in Waiting(s.queue, c) ==> q < s.next
  {
    assert QueueOk(s.queue, s.stage, s.next, c);
  }

  /** cond_signal takes the waiter with the least number, the one that has
      waited longest, off the list; without a waiter it does nothing. */
  lemma SignalBegins(s: State, c: nat)
    requires CondInv(s) && Enabled(s, Signal(c))
    ensures var s', list := Step(s, Signal(c)), Waiting(s.queue, c);
            if list == [] then s' == s
            else
              && s'.sched == s.sched && Mine(s') == Signalling(list[0], None)
                  && list == [list[0]] + Waiting(s'.queue, c)
              && (forall q :: q in Waiting(s'.queue, c) ==> list[0] < q)
              && s'.ups == s.ups && forall d :: d != c ==> Waiting(s'.queue, d) == Waiting(s.queue, d)
  {
    assert QueueOk(s.queue, s.stage, s.next, c);
  }

  lemma BroadcastBegins(s: State, c: nat)
    ensures Step(s, Broadcast(c)) == s.(pc := s.pc[s.sched.current := Broadcasting(c)])
  {
  }

  /** thread_create, in two steps, and thread_exit. */
  lemma ThreadsCome(s: State, t: Tid)
    ensures Step(s, New(t)) == s.(pc := s.pc[t := Born], sched := Create(s.sched, t))
    ensures Step(s, Start(t)) == s.(pc := s.pc[t := Outside], sched := Unblock(s.sched, t))
  {
    hide Create, Unblock, SemaUp, SemaDown, SemaTake, TakeWaiter;
  }

  lemma ThreadsGo(s: State)
    ensures var s' := Step(s, Leave);
            && s'.sched == Exit(s.sched) && s'.holder == s.holder
            && s'.pc.Keys == s.pc.Keys - if s.sched.current != s.sched.initial then {s.sched.current} else {}
    ensures Step(s, GiveWay) == s.(sched := Yield(s.sched)) && Step(s, TimerTick) == s.(sched := Tick(s.sched))
  {
    hide Exit, Yield, Tick, SemaUp, SemaDown, SemaTake, TakeWaiter;
  }

  // ----- whole calls

  /** The thread goes from one step of an operation to the next, or stays. */
  lemma OneStep(s: State, a: Action, t: Tid)
    requires SchedInv(s) && Enabled(s, a) && t in s.pc && s.pc[t] != Outside && s.pc[t] != Born
    ensures t in Step(s, a).pc
            && if Advances(s, a) && t == s.sched.current then Goes(s, Step(s, a), t) else Step(s, a).pc[t] == s.pc[t]
  {
    hide SchedInv, Goes, Step, Enabled, Advances;
    if Advances(s, a) && t == s.sched.current {
      OwnStep(s, a);
    } else {
      Stays(s, a, t);
    }
  }

  /** Completed operations are only ever added. */
  lemma CountsGrow(s: State, a: Action, id: SemaId)
    requires Enabled(s, a)
    ensures Synch.Count(Step(s, a).ups, id) >= Synch.Count(s.ups, id)
    ensures Synch.Count(Step(s, a).downs, id) >= Synch.Count(s.downs, id)
  {
    hide Value, SemaUp, SemaTake, Get, Step;
    if UsesSema(a) {
      CountsGrowSema(s, a, id);
    } else {
      NoSema(s, a);
    }
  }

  lemma CountsGrowSema(s: State, a: Action, id: SemaId)
    requires Enabled(s, a) && UsesSema(a)
    ensures Synch.Count(Step(s, a).ups, id) >= Synch.Count(s.ups, id)
    ensures Synch.Count(Step(s, a).downs, id) >= Synch.Count(s.downs, id)
  {
    hide Value, SemaUp, SemaTake, Get, Block;
    match a {
      case DownTurn => OtherValues(s, DownId(Mine(s)).value);
      case TryDown(n) => OtherValues(s, Plain(n));
      case Up(n) => OtherValues(s, Plain(n));
      case TryAcquire(l) => OtherValues(s, LockSema(l));
      case UnlockUp => OtherValues(s, LockSema(Mine(s).l));
      case SignalUp => OtherValues(s, Private(Mine(s).p));
    }
  }

  /** From state i on, and before state j, the thread is inside an operation. */
  ghost predicate Busy(run: seq<State>, t: Tid, i: nat, j: nat) {
    i < j < |run| && t in run[i].pc && forall k :: i <= k < j ==> t in run[k].pc && run[k].pc[t] != Outside
  }

  ghost predicate IsRun(run: seq<State>, actions: seq<Action>) {
    |run| == |actions| + 1 && Steps(run, actions) && Begins(run[0])
  }

  lemma StepOf(run: seq<State>, actions: seq<Action>, j: nat)
    requires IsRun(run, actions) && j < |actions|
    ensures Inv(run[j]) && Enabled(run[j], actions[j]) && run[j + 1] == Step(run[j], actions[j]) && Inv(run[j + 1])
  {
    hide Inv, Step, Begins, Enabled;
    RunInv(run, actions, j);
    RunInv(run, actions, j + 1);
    assert Enabled(run[j], actions[j]) && run[j + 1] == Step(run[j], actions[j]);
  }

  // ----- cond_signal

  ghost predicate SignalPhase(s: State, t: Tid, p: nat) {
    t in s.pc && (s.pc[t] == Signalling(p, None) || (s.pc[t] == Outside && Synch.Count(s.ups, Private(p)) >= 1))
  }

  lemma {:induction false} WhileSignalling(run: seq<State>, actions: seq<Action>, t: Tid, p: nat, i: nat, j: nat)
    requires IsRun(run, actions) && Busy(run, t, i, j) && run[i].pc[t] == Signalling(p, None)
    ensures SignalPhase(run[j], t, p)
    decreases j
  {
    hide Inv, Step, Begins, Enabled, Steps, Goes;
    if i < j - 1 { WhileSignalling(run, actions, t, p, i, j - 1); }
    StepOf(run, actions, j - 1);
    SignalGoes(run[j - 1], actions[j - 1], t, p);
  }

  lemma SignalGoes(s: State, a: Action, t: Tid, p: nat)
    requires Inv(s) && Enabled(s, a) && t in s.pc && s.pc[t] == Signalling(p, None)
    ensures SignalPhase(Step(s, a), t, p)
  {
    hide Step, Enabled, SchedInv, LockInv, CondInv;
    OneStep(s, a, t);
  }

  lemma ListedNotUpped(s: State, c: nat)
    requires CondInv(s)
    ensures forall p :: p in Waiting(s.queue, c) ==> Synch.Count(s.ups, Private(p)) == 0
  {
    assert QueueOk(s.queue, s.stage, s.next, c);
    forall p | p in Waiting(s.queue, c)
      ensures Synch.Count(s.ups, Private(p)) == 0
    {
      assert PrivateOk(Waiters(s, Private(p)), s.stage, s.next, s.ups, s.downs, p);
    }
  }

  /** A call of cond_signal with waiters takes the one with the least number, the
      one that has waited longest, off the list at once; by the time it returns
      that waiter's semaphore has been upped, for the first time. */
  lemma SignalDelivers(run: seq<State>, actions: seq<Action>, c: nat, i: nat, j: nat)
    requires IsRun(run, actions) && i < |actions| && actions[i] == Signal(c) && Waiting(run[i].queue, c) != []
    requires i + 1 < |run| && Busy(run, run[i].sched.current, i + 1, j)
    requires run[i].sched.current in run[j].pc && run[j].pc[run[i].sched.current] == Outside
    ensures var list := Waiting(run[i].queue, c); var p := list[0];
            && list == [p] + Waiting(run[i + 1].queue, c) && (forall q :: q in list ==> p <= q)
            && Synch.Count(run[i].ups, Private(p)) == 0 && Synch.Count(run[j].ups, Private(p)) == 1
  {
    hide Step, Begins, Enabled, Steps, SchedInv, LockInv, CondInv, QueueOk;
    var t, p := run[i].sched.current, Waiting(run[i].queue, c)[0];
    StepOf(run, actions, i);
    StepOf(run, actions, j - 1);
    SignalBegins(run[i], c);
    ListedNotUpped(run[i], c);
    WhileSignalling(run, actions, t, p, i + 1, j);
    AtMostOnce(run[j], p);
  }

  lemma AtMostOnce(s: State, p: nat)
    requires CondInv(s)
    ensures Synch.Count(s.ups, Private(p)) <= 1
  {
    assert PrivateOk(Waiters(s, Private(p)), s.stage, s.next, s.ups, s.downs, p);
  }

  // ----- cond_broadcast

  /** Waiter p is still listed, or has been upped, or is about to be upped by t. */
  ghost predicate OnTheWay(s: State, t: Tid, c: nat, p: nat)
    requires t in s.pc
  {
    p in Waiting(s.queue, c) || Synch.Count(s.ups, Private(p)) == 1 || s.pc[t] == Signalling(p, Some(c))
  }

  ghost predicate BroadcastPhase(s: State, t: Tid, c: nat, listed: seq<nat>) {
    && t in s.pc && c in s.lockOf
    && if s.pc[t] == Outside
       then Waiting(s.queue, c) == [] && forall p :: p in listed ==> Synch.Count(s.ups, Private(p)) == 1
       else (s.pc[t] == Broadcasting(c) || (s.pc[t].Signalling? && s.pc[t].more == Some(c)))
            && forall p :: p in listed ==> OnTheWay(s, t, c, p)
  }

  /** The list of c grows at the end by cond_wait, and only a thread that holds
      the lock takes the first waiter off. */
  lemma ListSteps(s: State, a: Action, c: nat)
    requires Enabled(s, a) && s.sched.current in s.pc
    ensures var list, list' := Waiting(s.queue, c), Waiting(Step(s, a).queue, c);
            || list' == list
            || (a == Wait(c) && list' == list + [s.next])
            || (list != [] && list == [list[0]] + list'
                && (a == Signal(c) || (a == BroadcastTurn && Mine(s) == Broadcasting(c))))
  {
    hide SemaUp, SemaTake, SemaDown, Get, Value, Exit, Yield, Tick, Block, Unblock, Create;
    if UsesSema(a) {
      ListSema(s, a);
    } else if Switches(a) {
      ListSwitch(s, a);
    } else {
      ListOther(s, a, c);
    }
  }

  lemma ListSema(s: State, a: Action)
    requires Enabled(s, a) && UsesSema(a)
    ensures Step(s, a).queue == s.queue && Step(s, a).lockOf == s.lockOf
  {
    hide SemaUp, SemaTake, Get, Value, Block;
    match a {
      case DownTurn => OtherValues(s, DownId(Mine(s)).value);
      case TryDown(n) => OtherValues(s, Plain(n));
      case Up(n) => OtherValues(s, Plain(n));
      case TryAcquire(l) => OtherValues(s, LockSema(l));
      case UnlockUp => OtherValues(s, LockSema(Mine(s).l));
      case SignalUp => OtherValues(s, Private(Mine(s).p));
    }
  }

  lemma ListSwitch(s: State, a: Action)
    requires Switches(a)
    ensures Step(s, a).queue == s.queue && Step(s, a).lockOf == s.lockOf
  {
    hide SemaUp, SemaDown, SemaTake, Exit, Yield, Tick, Block, Unblock, Create, TakeWaiter;
  }

  lemma ListOther(s: State, a: Action, c: nat)
    requires Enabled(s, a) && !UsesSema(a) && !Switches(a) && s.sched.current in s.pc
    ensures Step(s, a).lockOf == s.lockOf
    ensures var list, list' := Waiting(s.queue, c), Waiting(Step(s, a).queue, c);
            || list' == list
            || (a == Wait(c) && list' == list + [s.next])
            || (list != [] && list == [list[0]] + list'
                && (a == Signal(c) || (a == BroadcastTurn && Mine(s) == Broadcasting(c))))
  {
    hide SemaUp, SemaDown, SemaTake, TakeWaiter, Waiting;
    match a {
      case StartDown(n) =>
      case StartAcquire(l) =>
      case SetHolder =>
      case StartRelease(l) =>
      case Wait(d) => AddsWaiter(s.queue, d, s.next, c);
      case WaitRelease =>
      case Signal(d) => if Waiting(s.queue, d) != [] { TakesFirst(s, d, None, c); }
      case Broadcast(d) =>
      case BroadcastTurn =>
        if Waiting(s.queue, Mine(s).c) != [] { TakesFirst(s, Mine(s).c, Some(Mine(s).c), c); }
    }
  }

  lemma AddsWaiter(queue: map<nat, seq<nat>>, d: nat, p: nat, c: nat)
    ensures Waiting(queue[d := Waiting(queue, d) + [p]], c) == if c == d then Waiting(queue, c) + [p]
            else Waiting(queue, c)
  {
  }

  lemma TakesFirst(s: State, d: nat, more: Option<nat>, c: nat)
    requires Waiting(s.queue, d) != []
    ensures TakeWaiter(s, d, more).lockOf == s.lockOf
    ensures var list, list' := Waiting(s.queue, c), Waiting(TakeWaiter(s, d, more).queue, c);
            if c == d then list != [] && list == [list[0]] + list' else list' == list
  {
  }

  lemma SameLockOf(s: State, a: Action)
    requires Enabled(s, a) && s.sched.current in s.pc
    ensures Step(s, a).lockOf == s.lockOf
  {
    hide Step;
    if UsesSema(a) { ListSema(s, a); } else if Switches(a) { ListSwitch(s, a); } else { ListOther(s, a, 0); }
  }

  /** While t broadcasts it holds the lock of c, so that nobody else signals c. */
  lemma OnlySignaller(s: State, a: Action, t: Tid, c: nat)
    requires LockInv(s) && Enabled(s, a) && s.sched.current in s.pc && t in s.pc && c in s.lockOf
    requires s.pc[t] == Broadcasting(c) || (s.pc[t].Signalling? && s.pc[t].more == Some(c))
    ensures a != Signal(c) && (a == BroadcastTurn && Mine(s) == Broadcasting(c) ==> t == s.sched.current)
  {
    StillNeeds(s, t);
    StillNeeds(s, s.sched.current);
  }

  lemma InFront(list: seq<nat>, list': seq<nat>, p: nat)
    ensures p in list && list == [list[0]] + list' ==> p == list[0] || p in list'
    ensures p in list ==> forall q :: p in list + [q]
  {
    if p in list && list == [list[0]] + list' {
      var k :| 0 <= k < |list| && list[k] == p;
      assert k > 0 ==> list'[k - 1] == p;
    }
  }

  lemma BroadcastGoes(s: State, a: Action, t: Tid, c: nat, listed: seq<nat>)
    requires Inv(s) && Enabled(s, a) && BroadcastPhase(s, t, c, listed) && s.pc[t] != Outside
    ensures BroadcastPhase(Step(s, a), t, c, listed)
  {
    hide Step, Enabled, LockInv, CondInv, SchedInv, Waiting;
    CurrentAwake(s);
    OneStep(s, a, t);
    ListSteps(s, a, c);
    SameLockOf(s, a);
    OnlySignaller(s, a, t, c);
    var s' := Step(s, a);
    forall p | p in listed
      ensures s'.pc[t] == Outside ==> Synch.Count(s'.ups, Private(p)) == 1
      ensures s'.pc[t] != Outside ==> OnTheWay(s', t, c, p)
    {
      assert OnTheWay(s, t, c, p);
      InFront(Waiting(s.queue, c), Waiting(s'.queue, c), p);
      CountsGrow(s, a, Private(p));
      StepInv(s, a);
      AtMostOnce(s', p);
    }
  }

  lemma {:induction false} WhileBroadcasting(run: seq<State>, actions: seq<Action>, t: Tid, c: nat, listed: seq<nat>,
                                             i: nat, j: nat)
    requires IsRun(run, actions) && Busy(run, t, i, j) && BroadcastPhase(run[i], t, c, listed)
    ensures BroadcastPhase(run[j], t, c, listed)
    decreases j
  {
    hide Inv, Step, Begins, Enabled, Steps, BroadcastPhase;
    if i < j - 1 { WhileBroadcasting(run, actions, t, c, listed, i, j - 1); }
    StepOf(run, actions, j - 1);
    BroadcastGoes(run[j - 1], actions[j - 1], t, c, listed);
  }

  /** A call of cond_broadcast returns only when the list is empty, and then every
      waiter that was listed when it began has been upped. */
  lemma BroadcastWakesAll(run: seq<State>, actions: seq<Action>, c: nat, i: nat, j: nat)
    requires IsRun(run, actions) && i < |actions| && actions[i] == Broadcast(c)
    requires i + 1 < |run| && Busy(run, run[i].sched.current, i + 1, j)
    requires run[i].sched.current in run[j].pc && run[j].pc[run[i].sched.current] == Outside
    ensures Waiting(run[j].queue, c) == []
    ensures forall p :: p in Waiting(run[i].queue, c) ==> Synch.Count(run[j].ups, Private(p)) == 1
  {
    hide Begins, Steps, SchedInv, LockInv, CondInv;
    var t, listed := run[i].sched.current, Waiting(run[i].queue, c);
    StepOf(run, actions, i);
    BroadcastBegins(run[i], c);
    assert BroadcastPhase(run[i + 1], t, c, listed);
    WhileBroadcasting(run, actions, t, c, listed, i + 1, j);
  }

  // ----- cond_wait, lock_acquire and lock_release

  /** How far a call of cond_wait has got, or that it is over: then the caller
      holds the lock again, and its semaphore has been downed. */
  ghost predicate WaitPhase(s: State, t: Tid, l: nat, p: nat) {
    && t in s.pc
    && (s.pc[t] == Queued(l, p) || s.pc[t] == Unlocking(l, Some(p)) || s.pc[t] == DownPrivate(p, l)
        || (Synch.Count(s.downs, Private(p)) >= 1
            && (s.pc[t] == DownLock(l) || s.pc[t] == Holding(l) || (s.pc[t] == Outside && Holds(s.holder, t, l)))))
  }

  lemma WaitGoes(s: State, a: Action, t: Tid, l: nat, p: nat)
    requires Inv(s) && Enabled(s, a) && WaitPhase(s, t, l, p) && s.pc[t] != Outside
    ensures WaitPhase(Step(s, a), t, l, p)
  {
    hide Step, Enabled, LockInv, CondInv, SchedInv, Advances;
    OneStep(s, a, t);
    CountsGrow(s, a, Private(p));
  }

  lemma {:induction false} WhileWaiting(run: seq<State>, actions: seq<Action>, t: Tid, l: nat, p: nat, i: nat, j: nat)
    requires IsRun(run, actions) && Busy(run, t, i, j) && WaitPhase(run[i], t, l, p)
    ensures WaitPhase(run[j], t, l, p)
    decreases j
  {
    hide Inv, Step, Begins, Enabled, Steps, WaitPhase;
    if i < j - 1 { WhileWaiting(run, actions, t, l, p, i, j - 1); }
    StepOf(run, actions, j - 1);
    WaitGoes(run[j - 1], actions[j - 1], t, l, p);
  }

  /** A call of cond_wait returns only with the lock held again, and only after
      it has been signalled. */
  lemma WaitReturns(run: seq<State>, actions: seq<Action>, c: nat, i: nat, j: nat)
    requires IsRun(run, actions) && i < |actions| && actions[i] == Wait(c)
    requires i + 1 < |run| && Busy(run, run[i].sched.current, i + 1, j)
    requires run[i].sched.current in run[j].pc && run[j].pc[run[i].sched.current] == Outside
    ensures c in run[i].lockOf && Holds(run[j].holder, run[i].sched.current, run[i].lockOf[c])
    ensures Synch.Count(run[i].ups, Private(run[i].next)) == 0 && Synch.Count(run[j].ups, Private(run[i].next)) == 1
  {
    hide Step, Begins, Enabled, Steps, SchedInv, LockInv, CondInv;
    var t, p := run[i].sched.current, run[i].next;
    StepOf(run, actions, i);
    StepOf(run, actions, j - 1);
    WaitBegins(run[i], c);
    WhileWaiting(run, actions, t, run[i].lockOf[c], p, i + 1, j);
    AtMostOnce(run[j], p);
    NotYetUpped(run[i]);
    DownsNeedUps(run[j], p);
  }

  lemma NotYetUpped(s: State)
    requires CondInv(s)
    ensures Synch.Count(s.ups, Private(s.next)) == 0
  {
    assert PrivateOk(Waiters(s, Private(s.next)), s.stage, s.next, s.ups, s.downs, s.next);
  }

  lemma DownsNeedUps(s: State, p: nat)
    requires Balance(s.semas, s.init, s.ups, s.downs)
    ensures Synch.Count(s.downs, Private(p)) <= Synch.Count(s.ups, Private(p))
  {
    var id := Private(p);
    assert Balanced(Get(s.semas, s.init, id), Initial(s.init, id), Synch.Count(s.ups, id), Synch.Count(s.downs, id));
  }

  ghost predicate AcquirePhase(s: State, t: Tid, l: nat) {
    t in s.pc && (s.pc[t] == DownLock(l) || s.pc[t] == Holding(l) || (s.pc[t] == Outside && Holds(s.holder, t, l)))
  }

  lemma {:induction false} WhileAcquiring(run: seq<State>, actions: seq<Action>, t: Tid, l: nat, i: nat, j: nat)
    requires IsRun(run, actions) && Busy(run, t, i, j) && AcquirePhase(run[i], t, l)
    ensures AcquirePhase(run[j], t, l)
    decreases j
  {
    hide Step, Begins, Enabled, Steps, LockInv, CondInv, SchedInv, Advances;
    if i < j - 1 { WhileAcquiring(run, actions, t, l, i, j - 1); }
    StepOf(run, actions, j - 1);
    OneStep(run[j - 1], actions[j - 1], t);
  }

  /** lock_acquire returns only with the lock held, as does a successful
      lock_try_acquire. */
  lemma AcquireReturns(run: seq<State>, actions: seq<Action>, l: nat, i: nat, j: nat)
    requires IsRun(run, actions) && i < |actions| && (actions[i] == StartAcquire(l) || actions[i] == TryAcquire(l))
    requires i + 1 < |run| && Busy(run, run[i].sched.current, i + 1, j)
    requires run[i].sched.current in run[j].pc && run[j].pc[run[i].sched.current] == Outside
    ensures Holds(run[j].holder, run[i].sched.current, l)
  {
    hide Step, Begins, Steps, SchedInv, LockInv, CondInv, Value;
    StepOf(run, actions, i);
    AcquireBegins(run[i], l);
    TryAcquireNow(run[i], l);
    WhileAcquiring(run, actions, run[i].sched.current, l, i + 1, j);
  }

  ghost predicate ReleasePhase(s: State, t: Tid, l: nat, ups: nat) {
    && t in s.pc && Synch.Count(s.ups, LockSema(l)) >= ups
    && (s.pc[t] == Unlocking(l, None) || (s.pc[t] == Outside && Synch.Count(s.ups, LockSema(l)) > ups))
  }

  lemma {:induction false} WhileReleasing(run: seq<State>, actions: seq<Action>, t: Tid, l: nat, ups: nat, i: nat,
                                          j: nat)
    requires IsRun(run, actions) && Busy(run, t, i, j) && ReleasePhase(run[i], t, l, ups)
    ensures ReleasePhase(run[j], t, l, ups)
    decreases j
  {
    hide Step, Begins, Enabled, Steps, LockInv, CondInv, SchedInv, Advances;
    if i < j - 1 { WhileReleasing(run, actions, t, l, ups, i, j - 1); }
    StepOf(run, actions, j - 1);
    OneStep(run[j - 1], actions[j - 1], t);
    CountsGrow(run[j - 1], actions[j - 1], LockSema(l));
  }

  /** lock_release has upped the lock's semaphore by the time it returns. */
  lemma ReleaseReturns(run: seq<State>, actions: seq<Action>, l: nat, i: nat, j: nat)
    requires IsRun(run, actions) && i < |actions| && actions[i] == StartRelease(l)
    requires i + 1 < |run| && Busy(run, run[i].sched.current, i + 1, j)
    requires run[i].sched.current in run[j].pc && run[j].pc[run[i].sched.current] == Outside
    ensures Synch.Count(run[j].ups, LockSema(l)) > Synch.Count(run[i].ups, LockSema(l))
  {
    hide Step, Begins, Steps, SchedInv, LockInv, CondInv;
    StepOf(run, actions, i);
    ReleaseBegins(run[i], l);
    WhileReleasing(run, actions, run[i].sched.current, l, Synch.Count(run[i].ups, LockSema(l)), i + 1, j);
  }

  ghost predicate DownPhase(s: State, t: Tid, n: nat, downs: nat) {
    && t in s.pc && Synch.Count(s.downs, Plain(n)) >= downs
    && (s.pc[t] == DownPlain(n) || (s.pc[t] == Outside && Synch.Count(s.downs, Plain(n)) > downs))
  }

  lemma {:induction false} WhileDowning(run: seq<State>, actions: seq<Action>, t: Tid, n: nat, downs: nat, i: nat,
                                        j: nat)
    requires IsRun(run, actions) && Busy(run, t, i, j) && DownPhase(run[i], t, n, downs)
    ensures DownPhase(run[j], t, n, downs)
    decreases j
  {
    hide Step, Begins, Enabled, Steps, LockInv, CondInv, SchedInv, Advances;
    if i < j - 1 { WhileDowning(run, actions, t, n, downs, i, j - 1); }
    StepOf(run, actions, j - 1);
    OneStep(run[j - 1], actions[j - 1], t);
    CountsGrow(run[j - 1], actions[j - 1], Plain(n));
  }

  /** sema_down returns only after it has decremented the value. */
  lemma DownReturns(run: seq<State>, actions: seq<Action>, n: nat, i: nat, j: nat)
    requires IsRun(run, actions) && i < |actions| && actions[i] == StartDown(n)
    requires i + 1 < |run| && Busy(run, run[i].sched.current, i + 1, j)
    requires run[i].sched.current in run[j].pc && run[j].pc[run[i].sched.current] == Outside
    ensures Synch.Count(run[j].downs, Plain(n)) > Synch.Count(run[i].downs, Plain(n))
  {
    hide Step, Begins, Steps, SchedInv, LockInv, CondInv;
    StepOf(run, actions, i);
    StartDownBegins(run[i], n);
    WhileDowning(run, actions, run[i].sched.current, n, Synch.Count(run[i].downs, Plain(n)), i + 1, j);
  }
}
