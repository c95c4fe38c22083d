/** Semaphores, locks and condition variables (synch.c) as a machine whose steps
    are the sections that run with interrupts off, together with the plain
    assignments between them. Any thread may be preempted between two steps. */
module Synch {
  import opened Bitmap
  import opened Threads

  datatype Sema = Sema(value: nat, waiters: seq<Tid>)

  /** Plain semaphores, those inside locks, and the private ones that
      cond_wait makes, numbered in the order of the calls. */
  datatype SemaId = Plain(n: nat) | LockSema(l: nat) | Private(p: nat)

  /** What a thread is about to do. */
  datatype Pc =
    | Born                                      // created, not yet unblocked
    | Outside                                   // in no operation of this module
    | DownPlain(n: nat)                         // sema_down: about to test the value
    | DownLock(l: nat)                          // the same inside lock_acquire
    | DownPrivate(p: nat, l: nat)               // the same inside cond_wait
    | Holding(l: nat)                           // lock_acquire: about to set the holder
    | Unlocking(l: nat, wait: Option<nat>)      // lock_release: holder cleared, about to up
    | Queued(l: nat, p: nat)                    // cond_wait: in the list, about to release
    | Signalling(p: nat, more: Option<nat>)     // cond_signal: about to up
    | Broadcasting(c: nat)                      // cond_broadcast: about to test the list

  /** How far a condition variable's waiter has got: in the list of c, taken off
      it by thread t, or upped. */
  datatype Stage = InList(c: nat) | Taken(t: Tid) | Upped

  /** woken has the threads that sema_up has unblocked and that have not tested
      the value again; ups and downs count the completed operations. */
  datatype State = State(sched: Sched, pc: map<Tid, Pc>, semas: map<SemaId, Sema>, woken: set<Tid>,
                         holder: map<nat, Tid>, queue: map<nat, seq<nat>>, stage: map<nat, Stage>, next: nat,
                         ups: map<SemaId, nat>, downs: map<SemaId, nat>, init: map<SemaId, nat>, lockOf: map<nat, nat>)

  function Initial(init: map<SemaId, nat>, id: SemaId): nat {
    if id.LockSema? then 1 else if id.Plain? && id in init then init[id] else 0
  }

  function Get(semas: map<SemaId, Sema>, init: map<SemaId, nat>, id: SemaId): Sema {
    if id in semas then semas[id] else Sema(Initial(init, id), [])
  }

  function Count(m: map<SemaId, nat>, id: SemaId): nat {
    if id in m then m[id] else 0
  }

  function Waiting(queue: map<nat, seq<nat>>, c: nat): seq<nat> {
    if c in queue then queue[c] else []
  }

  /** The semaphore that a thread is trying to down. */
  function DownId(pc: Pc): Option<SemaId> {
    match pc
    case DownPlain(n) => Some(Plain(n))
    case DownLock(l) => Some(LockSema(l))
    case DownPrivate(p, _) => Some(Private(p))
    case _ => None
  }

  /** What follows that sema_down. */
  function AfterDown(pc: Pc): Pc {
    match pc
    case DownLock(l) => Holding(l)
    case DownPrivate(_, l) => DownLock(l)
    case _ => Outside
  }

  // ----- steps

  function Value(s: State, id: SemaId): nat { Get(s.semas, s.init, id).value }

  function Waiters(s: State, id: SemaId): seq<Tid> { Get(s.semas, s.init, id).waiters }

  function Mine(s: State): Pc {
    if s.sched.current in s.pc then s.pc[s.sched.current] else Outside
  }

  function SetPc(s: State, pc: Pc): State { s.(pc := s.pc[s.sched.current := pc]) }

  /** A semaphore after sema_up, after a decrement, and with one more waiter. */
  function Raised(sema: Sema): Sema {
    Sema(sema.value + 1, if sema.waiters == [] then [] else sema.waiters[1..])
  }

  function Lowered(sema: Sema): Sema
    requires sema.value > 0
  {
    Sema(sema.value - 1, sema.waiters)
  }

  function Awaited(sema: Sema, t: Tid): Sema { Sema(0, sema.waiters + [t]) }

  /** sema_up */
  function SemaUp(s: State, id: SemaId): State {
    var sema := Get(s.semas, s.init, id);
    s.(semas := s.semas[id := Raised(sema)], ups := s.ups[id := Count(s.ups, id) + 1],
       sched := if sema.waiters == [] then s.sched else Unblock(s.sched, sema.waiters[0]),
       woken := if sema.waiters == [] then s.woken else s.woken + {sema.waiters[0]})
  }

  /** The rest of sema_down once the value is not 0; also sema_try_down. */
  function SemaTake(s: State, id: SemaId): State
    requires Value(s, id) > 0
  {
    var sema := Get(s.semas, s.init, id);
    s.(semas := s.semas[id := Lowered(sema)], woken := s.woken - {s.sched.current},
        downs := s.downs[id := Count(s.downs, id) + 1])
  }

  /** The current thread joins the waiters and blocks. */
  function SemaSleep(s: State, id: SemaId): State {
    s.(semas := s.semas[id := Awaited(Get(s.semas, s.init, id), s.sched.current)], sched := Block(s.sched),
        woken := s.woken - {s.sched.current})
  }

  /** One turn of sema_down's loop. */
  function SemaDown(s: State, id: SemaId): State {
    if Value(s, id) == 0 then SemaSleep(s, id) else SetPc(SemaTake(s, id), AfterDown(Mine(s)))
  }

  /** Takes the first waiter off the list of c. */
  function TakeWaiter(s: State, c: nat, more: Option<nat>): State
    requires Waiting(s.queue, c) != []
  {
    var p := Waiting(s.queue, c)[0];
    SetPc(s.(queue := s.queue[c := Waiting(s.queue, c)[1..]], stage := s.stage[p := Taken(s.sched.current)]),
        Signalling(p, more))
  }

  datatype Action =
    | StartDown(n: nat) | DownTurn | TryDown(n: nat) | Up(n: nat)
    | StartAcquire(l: nat) | TryAcquire(l: nat) | SetHolder | StartRelease(l: nat) | UnlockUp
    | Wait(c: nat) | WaitRelease | Signal(c: nat) | SignalUp | Broadcast(c: nat) | BroadcastTurn
    | New(t: Tid) | Start(t: Tid) | Leave | GiveWay | TimerTick | IdleBlock

  ghost predicate HoldsLock(s: State, l: nat) {
    l in s.holder && s.holder[l] == s.sched.current
  }

  /** What the current thread, or an interrupt, may do next. Operations are
      started by threads other than the idle one, within the assertions that
      synch.c makes about its callers; a thread never gets the identity of one
      that held a lock when it exited. */
  ghost predicate Enabled(s: State, a: Action) {
    var free := Mine(s) == Outside && s.sched.current != s.sched.idle;
    match a
    case StartDown(n) => free
    case DownTurn => DownId(Mine(s)).Some?
    case TryDown(n) => true
    case Up(n) => true
    case StartAcquire(l) => free && !HoldsLock(s, l)
    case TryAcquire(l) => free && !HoldsLock(s, l)
    case SetHolder => Mine(s).Holding?
    case StartRelease(l) => free && HoldsLock(s, l)
    case UnlockUp => Mine(s).Unlocking?
    case Wait(c) => free && c in s.lockOf && HoldsLock(s, s.lockOf[c])
    case WaitRelease => Mine(s).Queued?
    case Signal(c) => free && c in s.lockOf && HoldsLock(s, s.lockOf[c])
    case SignalUp => Mine(s).Signalling?
    case Broadcast(c) => free && c in s.lockOf && HoldsLock(s, s.lockOf[c])
    case BroadcastTurn => Mine(s).Broadcasting?
    case New(t) => t !in s.pc && t !in s.sched.status && t != s.sched.initial && t !in s.holder.Values
    case Start(t) => t in s.pc && s.pc[t] == Born
    case Leave => free
    case GiveWay => true
    case TimerTick => true
    case IdleBlock => s.sched.current == s.sched.idle
  }

  function Step(s: State, a: Action): State {
    var cur, mine := s.sched.current, Mine(s);
    match a
    case StartDown(n) => SetPc(s, DownPlain(n))
    case DownTurn => if DownId(mine).Some? then SemaDown(s, DownId(mine).value) else s
    case TryDown(n) => if Value(s, Plain(n)) > 0 then SemaTake(s, Plain(n)).(woken := s.woken) else s
    case Up(n) => SemaUp(s, Plain(n))
    case StartAcquire(l) => SetPc(s, DownLock(l))
    case TryAcquire(l) => if Value(s, LockSema(l)) > 0 then SetPc(SemaTake(s, LockSema(l)), Holding(l)) else s
    case SetHolder => if mine.Holding? then SetPc(s.(holder := s.holder[mine.l := cur]), Outside) else s
    case StartRelease(l) => SetPc(s.(holder := s.holder - {l}), Unlocking(l, None))
    case UnlockUp =>
      if mine.Unlocking? then
        SetPc(SemaUp(s, LockSema(mine.l)), if mine.wait.Some? then DownPrivate(mine.wait.value, mine.l) else Outside)
      else s
    case Wait(c) =>
      if c in s.lockOf then
        SetPc(s.(queue := s.queue[c := Waiting(s.queue, c) + [s.next]], stage := s.stage[s.next := InList(c)],
            next := s.next + 1),
              Queued(s.lockOf[c], s.next))
      else s
    case WaitRelease => if mine.Queued? then SetPc(s.(holder := s.holder - {mine.l}), Unlocking(mine.l, Some(mine.p)))
        else s
    case Signal(c) => if Waiting(s.queue, c) == [] then s else TakeWaiter(s, c, None)
    case SignalUp =>
      if mine.Signalling? then
        SetPc(SemaUp(s, Private(mine.p)).(stage := s.stage[mine.p := Upped]), if mine.more.Some?
            then Broadcasting(mine.more.value) else Outside)
      else s
    case Broadcast(c) => SetPc(s, Broadcasting(c))
    case BroadcastTurn =>
      if !mine.Broadcasting? then s
      else if Waiting(s.queue, mine.c) == [] then SetPc(s, Outside)
      else TakeWaiter(s, mine.c, Some(mine.c))
    case New(t) => s.(sched := Create(s.sched, t), pc := s.pc[t := Born])
    case Start(t) => s.(sched := Unblock(s.sched, t), pc := s.pc[t := Outside])
    case Leave => s.(sched := Exit(s.sched), pc := if cur == s.sched.initial then s.pc else s.pc - {cur})
    case GiveWay => s.(sched := Yield(s.sched))
    case TimerTick => s.(sched := Tick(s.sched))
    case IdleBlock => s.(sched := Block(s.sched))
  }

  // ----- wait lists and wake-ups

  /** The blocked threads but the idle one. */
  ghost function Asleep(s: Sched): set<Tid> {
    set t | t in s.status && s.status[t] == Blocked && t != s.idle
  }

  /** The waiters of a semaphore sleep, each in one place of its list. */
  ghost predicate ListOk(asleep: set<Tid>, pc: map<Tid, Pc>, waiters: seq<Tid>, id: SemaId) {
    && (forall k :: 0 <= k < |waiters| ==>
          waiters[k] in asleep && waiters[k] in pc && DownId(pc[waiters[k]]) == Some(id))
    && NoDuplicates(waiters)
  }

  /** A sleeping thread is new, or waits for the semaphore it wants to down. */
  ghost predicate SleeperOk(pc: map<Tid, Pc>, semas: map<SemaId, Sema>, init: map<SemaId, nat>, t: Tid) {
    t in pc && (pc[t] == Born || (DownId(pc[t]).Some? && t in Get(semas, init, DownId(pc[t]).value).waiters))
  }

  ghost predicate WokenOk(asleep: set<Tid>, pc: map<Tid, Pc>, t: Tid) {
    t in pc && t !in asleep && DownId(pc[t]).Some?
  }

  ghost predicate WaitInv(asleep: set<Tid>, pc: map<Tid, Pc>, semas: map<SemaId, Sema>, init: map<SemaId, nat>,
                          woken: set<Tid>) {
    && (forall id :: ListOk(asleep, pc, Get(semas, init, id).waiters, id))
    && (forall t :: t in asleep ==> SleeperOk(pc, semas, init, t))
    && (forall t :: t in woken ==> WokenOk(asleep, pc, t))
    && (forall t :: t in pc && pc[t] == Born ==> t in asleep)
  }

  /** The threads woken for a semaphore. */
  ghost function WokenFor(pc: map<Tid, Pc>, woken: set<Tid>, id: SemaId): set<Tid> {
    set t | t in woken && t in pc && DownId(pc[t]) == Some(id)
  }

  /** While threads wait for a semaphore, each unit of its value has a woken
      thread on the way to take it. */
  ghost predicate Enough(pc: map<Tid, Pc>, woken: set<Tid>, sema: Sema, id: SemaId) {
    sema.waiters != [] ==> sema.value <= |WokenFor(pc, woken, id)|
  }

  ghost predicate WakeInv(pc: map<Tid, Pc>, semas: map<SemaId, Sema>, init: map<SemaId, nat>, woken: set<Tid>) {
    forall id :: Enough(pc, woken, Get(semas, init, id), id)
  }

  /** Nothing is lost or made up: value plus downs is initial value plus ups. */
  ghost predicate Balance(semas: map<SemaId, Sema>, init: map<SemaId, nat>, ups: map<SemaId, nat>,
                          downs: map<SemaId, nat>) {
    forall id :: Balanced(Get(semas, init, id), Initial(init, id), Count(ups, id), Count(downs, id))
  }

  ghost predicate Balanced(sema: Sema, init: nat, ups: nat, downs: nat) {
    sema.value + downs == init + ups
  }

  ghost predicate SchedInv(s: State) {
    && Ok(s.sched) && s.pc.Keys == s.sched.status.Keys
    && s.sched.idle in s.pc && s.pc[s.sched.idle] == Outside
    && WaitInv(Asleep(s.sched), s.pc, s.semas, s.init, s.woken)
  }

  // ----- what each kind of change does to the wait lists

  lemma AfterBlock(s: Sched)
    requires Ok(s)
    ensures Asleep(Block(s)) == Asleep(s) + (if s.current != s.idle then {s.current} else {})
    ensures Block(s).status.Keys == s.status.Keys && s.current !in Asleep(s)
    ensures Ok(Block(s)) && Block(s).idle == s.idle && Block(s).initial == s.initial
  {
    BlockOk(s);
    if s.ready != [] { assert IsReady(s, s.ready[0]); }
  }

  lemma AfterYield(s: Sched)
    requires Ok(s)
    ensures Asleep(Yield(s)) == Asleep(s) && Yield(s).status.Keys == s.status.Keys
    ensures Ok(Yield(s)) && Yield(s).idle == s.idle && Yield(s).initial == s.initial
  {
    YieldOk(s);
    if s.ready != [] { assert IsReady(s, s.ready[0]); }
  }

  lemma AfterTick(s: Sched)
    requires Ok(s)
    ensures Asleep(Tick(s)) == Asleep(s) && Tick(s).status.Keys == s.status.Keys
    ensures Ok(Tick(s)) && Tick(s).idle == s.idle && Tick(s).initial == s.initial
  {
    hide Yield;
    TickOk(s);
    AfterYield(s);
  }

  lemma AfterExit(s: Sched)
    requires Ok(s) && s.current != s.idle
    ensures Asleep(Exit(s)) == Asleep(s) && s.current !in Asleep(s) && Ok(Exit(s))
    ensures Exit(s).status.Keys == if s.current == s.initial then s.status.Keys else s.status.Keys - {s.current}
    ensures Exit(s).idle == s.idle && Exit(s).initial == s.initial
  {
    ExitOk(s);
    if s.ready != [] { assert IsReady(s, s.ready[0]); }
  }

  lemma AfterUnblock(s: Sched, t: Tid)
    requires Ok(s) && t in Asleep(s)
    ensures Asleep(Unblock(s, t)) == Asleep(s) - {t} && Unblock(s, t).status.Keys == s.status.Keys && Ok(Unblock(s, t))
    ensures t != s.current
  {
    UnblockOk(s, t);
  }

  lemma AfterCreate(s: Sched, t: Tid)
    requires Ok(s) && t !in s.status && t != s.initial
    ensures Asleep(Create(s, t)) == Asleep(s) + {t} && Ok(Create(s, t))
  {
    CreateOk(s, t);
  }

  lemma CurrentAwake(s: State)
    requires SchedInv(s)
    ensures s.sched.current !in Asleep(s.sched) && s.sched.current in s.pc && Mine(s) != Born
    ensures s.sched.current in s.woken ==> DownId(Mine(s)).Some?
  {
    if s.sched.current in s.woken { assert WokenOk(Asleep(s.sched), s.pc, s.sched.current); }
  }

  /** A thread that is neither asleep nor woken does something else next. */
  lemma PcChanges(asleep: set<Tid>, pc: map<Tid, Pc>, semas: map<SemaId, Sema>, init: map<SemaId, nat>, woken: set<Tid>,
                  t: Tid, x: Pc)
    requires WaitInv(asleep, pc, semas, init, woken) && t !in asleep && t !in woken && x != Born
    ensures WaitInv(asleep, pc[t := x], semas, init, woken)
  {
    forall id
      ensures ListOk(asleep, pc[t := x], Get(semas, init, id).waiters, id)
    {
      assert ListOk(asleep, pc, Get(semas, init, id).waiters, id);
    }
    forall u | u in asleep
      ensures SleeperOk(pc[t := x], semas, init, u)
    {
      assert SleeperOk(pc, semas, init, u);
    }
    forall u | u in woken
      ensures WokenOk(asleep, pc[t := x], u)
    {
      assert WokenOk(asleep, pc, u);
    }
  }

  /** Only a value changes. */
  lemma ValueChanges(asleep: set<Tid>, pc: map<Tid, Pc>, semas: map<SemaId, Sema>, init: map<SemaId, nat>,
                     woken: set<Tid>, woken': set<Tid>, id: SemaId, v: nat)
    requires WaitInv(asleep, pc, semas, init, woken) && woken' <= woken
    ensures WaitInv(asleep, pc, semas[id := Sema(v, Get(semas, init, id).waiters)], init, woken')
  {
    var semas' := semas[id := Sema(v, Get(semas, init, id).waiters)];
    forall i
      ensures Get(semas', init, i).waiters == Get(semas, init, i).waiters
      ensures ListOk(asleep, pc, Get(semas', init, i).waiters, i)
    {
      assert ListOk(asleep, pc, Get(semas, init, i).waiters, i);
    }
    forall u | u in asleep
      ensures SleeperOk(pc, semas', init, u)
    {
      assert SleeperOk(pc, semas, init, u);
    }
  }

  /** The first waiter is woken. */
  lemma WaiterLeaves(asleep: set<Tid>, pc: map<Tid, Pc>, semas: map<SemaId, Sema>, init: map<SemaId, nat>,
                     woken: set<Tid>, id: SemaId, v: nat)
    requires WaitInv(asleep, pc, semas, init, woken) && Get(semas, init, id).waiters != []
    ensures var list := Get(semas, init, id).waiters;
            && list[0] in asleep && list[0] in pc && DownId(pc[list[0]]) == Some(id) && list[0] !in woken
            && WaitInv(asleep - {list[0]}, pc, semas[id := Sema(v, list[1..])], init, woken + {list[0]})
  {
    var list := Get(semas, init, id).waiters;
    var t := list[0];
    var semas' := semas[id := Sema(v, list[1..])];
    assert ListOk(asleep, pc, list, id);
    assert t in woken ==> WokenOk(asleep, pc, t);
    forall i
      ensures ListOk(asleep - {t}, pc, Get(semas', init, i).waiters, i)
    {
      var other := Get(semas, init, i).waiters;
      assert ListOk(asleep, pc, other, i);
      if i == id {
        forall k | 0 <= k < |list[1..]|
          ensures list[1..][k] in asleep - {t} && list[1..][k] in pc && DownId(pc[list[1..][k]]) == Some(id)
        {
          assert list[1..][k] == list[k + 1];
        }
      }
    }
    forall u | u in asleep - {t}
      ensures SleeperOk(pc, semas', init, u)
    {
      assert SleeperOk(pc, semas, init, u);
      if DownId(pc[u]) == Some(id) {
        var k :| 0 <= k < |list| && list[k] == u;
        assert list[1..][k - 1] == u;
      }
    }
    forall u | u in woken + {t}
      ensures WokenOk(asleep - {t}, pc, u)
    {
      assert u != t ==> WokenOk(asleep, pc, u);
    }
  }

  /** The current thread goes to sleep. */
  lemma WaiterComes(asleep: set<Tid>, pc: map<Tid, Pc>, semas: map<SemaId, Sema>, init: map<SemaId, nat>,
                    woken: set<Tid>, id: SemaId, t: Tid)
    requires WaitInv(asleep, pc, semas, init, woken) && t !in asleep && t in pc && DownId(pc[t]) == Some(id)
    ensures var list := Get(semas, init, id).waiters;
            WaitInv(asleep + {t}, pc, semas[id := Sema(0, list + [t])], init, woken - {t})
  {
    var list := Get(semas, init, id).waiters;
    var semas' := semas[id := Sema(0, list + [t])];
    forall i
      ensures ListOk(asleep + {t}, pc, Get(semas', init, i).waiters, i)
    {
      assert ListOk(asleep, pc, Get(semas, init, i).waiters, i);
    }
    forall u | u in asleep + {t}
      ensures SleeperOk(pc, semas', init, u)
    {
      if u != t {
        assert SleeperOk(pc, semas, init, u);
        if DownId(pc[u]) == Some(id) {
          var k :| 0 <= k < |list| && list[k] == u;
          assert (list + [t])[k] == u;
        }
      } else {
        assert (list + [t])[|list|] == t;
      }
    }
    forall u | u in woken - {t}
      ensures WokenOk(asleep + {t}, pc, u)
    {
      assert WokenOk(asleep, pc, u);
    }
  }

  /** A thread is created, or a new one is started, or one exits. */
  lemma ThreadComes(asleep: set<Tid>, pc: map<Tid, Pc>, semas: map<SemaId, Sema>, init: map<SemaId, nat>,
                    woken: set<Tid>, t: Tid)
    requires WaitInv(asleep, pc, semas, init, woken) && t !in pc
    ensures WaitInv(asleep + {t}, pc[t := Born], semas, init, woken)
  {
    forall id
      ensures ListOk(asleep + {t}, pc[t := Born], Get(semas, init, id).waiters, id)
    {
      assert ListOk(asleep, pc, Get(semas, init, id).waiters, id);
    }
    forall u | u in asleep
      ensures SleeperOk(pc[t := Born], semas, init, u)
    {
      assert SleeperOk(pc, semas, init, u);
    }
    forall u | u in woken
      ensures WokenOk(asleep + {t}, pc[t := Born], u)
    {
      assert WokenOk(asleep, pc, u);
    }
  }

  lemma ThreadStarts(asleep: set<Tid>, pc: map<Tid, Pc>, semas: map<SemaId, Sema>, init: map<SemaId, nat>,
                     woken: set<Tid>, t: Tid)
    requires WaitInv(asleep, pc, semas, init, woken) && t in pc && pc[t] == Born
    ensures t in asleep && WaitInv(asleep - {t}, pc[t := Outside], semas, init, woken)
  {
    forall id
      ensures ListOk(asleep - {t}, pc[t := Outside], Get(semas, init, id).waiters, id)
    {
      assert ListOk(asleep, pc, Get(semas, init, id).waiters, id);
    }
    forall u | u in asleep - {t}
      ensures SleeperOk(pc[t := Outside], semas, init, u)
    {
      assert SleeperOk(pc, semas, init, u);
    }
    forall u | u in woken
      ensures WokenOk(asleep - {t}, pc[t := Outside], u)
    {
      assert WokenOk(asleep, pc, u);
    }
  }

  lemma ThreadLeaves(asleep: set<Tid>, pc: map<Tid, Pc>, semas: map<SemaId, Sema>, init: map<SemaId, nat>,
                     woken: set<Tid>, t: Tid)
    requires WaitInv(asleep, pc, semas, init, woken) && t !in asleep && t !in woken
    ensures WaitInv(asleep, pc - {t}, semas, init, woken)
  {
    forall id
      ensures ListOk(asleep, pc - {t}, Get(semas, init, id).waiters, id)
    {
      assert ListOk(asleep, pc, Get(semas, init, id).waiters, id);
    }
    forall u | u in asleep
      ensures SleeperOk(pc - {t}, semas, init, u)
    {
      assert SleeperOk(pc, semas, init, u);
    }
    forall u | u in woken
      ensures WokenOk(asleep, pc - {t}, u)
    {
      assert WokenOk(asleep, pc, u);
    }
  }

  // ----- every step keeps the scheduler and the wait lists right

  lemma SchedSetPc(s: State, x: Pc)
    requires SchedInv(s) && s.sched.current !in s.woken && x != Born
             && (s.sched.current == s.sched.idle ==> x == Outside)
    ensures SchedInv(SetPc(s, x))
  {
    CurrentAwake(s);
    PcChanges(Asleep(s.sched), s.pc, s.semas, s.init, s.woken, s.sched.current, x);
  }

  lemma SchedUp(s: State, id: SemaId)
    requires SchedInv(s)
    ensures SchedInv(SemaUp(s, id)) && SemaUp(s, id).sched.current == s.sched.current && SemaUp(s, id).pc == s.pc
    ensures s.sched.current in SemaUp(s, id).woken <==> s.sched.current in s.woken
  {
    hide Ok, WaitInv, Asleep;
    CurrentAwake(s);
    var sema := Get(s.semas, s.init, id);
    if sema.waiters == [] {
      ValueChanges(Asleep(s.sched), s.pc, s.semas, s.init, s.woken, s.woken, id, sema.value + 1);
    } else {
      WaiterLeaves(Asleep(s.sched), s.pc, s.semas, s.init, s.woken, id, sema.value + 1);
      AfterUnblock(s.sched, sema.waiters[0]);
    }
  }

  lemma SchedTake(s: State, id: SemaId)
    requires SchedInv(s) && Value(s, id) > 0
    ensures SchedInv(SemaTake(s, id))
  {
    var sema := Get(s.semas, s.init, id);
    ValueChanges(Asleep(s.sched), s.pc, s.semas, s.init, s.woken, s.woken - {s.sched.current}, id, sema.value - 1);
  }

  lemma SchedDown(s: State, id: SemaId)
    requires SchedInv(s) && DownId(Mine(s)) == Some(id)
    ensures SchedInv(SemaDown(s, id))
  {
    hide SchedInv, SemaSleep, SemaTake, Value;
    if Value(s, id) == 0 {
      SchedSleep(s, id);
    } else {
      SchedTake(s, id);
      SchedTaken(s, id);
      SchedSetPc(SemaTake(s, id), AfterDown(Mine(s)));
    }
  }

  lemma SchedSleep(s: State, id: SemaId)
    requires SchedInv(s) && DownId(Mine(s)) == Some(id)
    ensures SchedInv(SemaSleep(s, id))
  {
    hide Ok, WaitInv, Asleep, Block;
    CurrentAwake(s);
    AfterBlock(s.sched);
    WaiterComes(Asleep(s.sched), s.pc, s.semas, s.init, s.woken, id, s.sched.current);
  }

  /** Only a thread other than the idle one downs a semaphore. */
  lemma SchedTaken(s: State, id: SemaId)
    requires SchedInv(s) && DownId(Mine(s)) == Some(id) && Value(s, id) > 0
    ensures SemaTake(s, id).sched == s.sched && s.sched.current !in SemaTake(s, id).woken
    ensures s.sched.current != s.sched.idle && AfterDown(Mine(s)) != Born
  {
    hide Ok, WaitInv, Asleep;
  }

  /** The steps that use a semaphore. */
  ghost predicate UsesSema(a: Action) {
    a.DownTurn? || a.TryDown? || a.Up? || a.TryAcquire? || a.UnlockUp? || a.SignalUp?
  }

  /** The steps of the scheduler. */
  ghost predicate Switches(a: Action) {
    a.New? || a.Start? || a.Leave? || a.GiveWay? || a.TimerTick? || a.IdleBlock?
  }

  lemma SchedStep(s: State, a: Action)
    requires SchedInv(s) && Enabled(s, a)
    ensures SchedInv(Step(s, a))
  {
    hide SchedInv, Step;
    if UsesSema(a) {
      SchedSemaStep(s, a);
    } else if Switches(a) {
      SchedSwitch(s, a);
    } else {
      SchedOtherStep(s, a);
    }
  }

  lemma SchedSemaStep(s: State, a: Action)
    requires SchedInv(s) && Enabled(s, a) && UsesSema(a)
    ensures SchedInv(Step(s, a))
  {
    hide Ok, WaitInv, Asleep, SemaDown;
    CurrentAwake(s);
    match a {
      case DownTurn => SchedDown(s, DownId(Mine(s)).value);
      case TryDown(n) => if Value(s, Plain(n)) > 0 { SchedTry(s, n); }
      case Up(n) => SchedUp(s, Plain(n));
      case TryAcquire(l) =>
        if Value(s, LockSema(l)) > 0 {
          SchedTake(s, LockSema(l));
          SchedSetPc(SemaTake(s, LockSema(l)), Holding(l));
        }
      case UnlockUp =>
        SchedUp(s, LockSema(Mine(s).l));
        SchedSetPc(SemaUp(s, LockSema(Mine(s).l)), Step(s, a).pc[s.sched.current]);
      case SignalUp =>
        SchedUp(s, Private(Mine(s).p));
        SchedSetPc(SemaUp(s, Private(Mine(s).p)), Step(s, a).pc[s.sched.current]);
    }
  }

  lemma SchedSwitch(s: State, a: Action)
    requires SchedInv(s) && Enabled(s, a) && Switches(a)
    ensures SchedInv(Step(s, a))
  {
    match a {
      case New(t) => SchedNew(s, t);
      case Start(t) => SchedStart(s, t);
      case Leave => SchedLeave(s);
      case _ => SchedPass(s, a);
    }
  }

  lemma SchedNew(s: State, t: Tid)
    requires SchedInv(s) && Enabled(s, New(t))
    ensures SchedInv(Step(s, New(t)))
  {
    hide Ok, WaitInv, Asleep;
    AfterCreate(s.sched, t);
    ThreadComes(Asleep(s.sched), s.pc, s.semas, s.init, s.woken, t);
  }

  lemma SchedStart(s: State, t: Tid)
    requires SchedInv(s) && Enabled(s, Start(t))
    ensures SchedInv(Step(s, Start(t)))
  {
    hide Ok, WaitInv, Asleep;
    ThreadStarts(Asleep(s.sched), s.pc, s.semas, s.init, s.woken, t);
    AfterUnblock(s.sched, t);
  }

  lemma SchedLeave(s: State)
    requires SchedInv(s) && Enabled(s, Leave)
    ensures SchedInv(Step(s, Leave))
  {
    hide Ok, WaitInv, Asleep, Exit;
    CurrentAwake(s);
    AfterExit(s.sched);
    ThreadLeaves(Asleep(s.sched), s.pc, s.semas, s.init, s.woken, s.sched.current);
  }

  /** The processor passes to another thread. */
  lemma SchedPass(s: State, a: Action)
    requires SchedInv(s) && Enabled(s, a) && (a.GiveWay? || a.TimerTick? || a.IdleBlock?)
    ensures SchedInv(Step(s, a))
  {
    hide Ok, WaitInv, Asleep, Yield, Tick, Block;
    match a {
      case GiveWay => AfterYield(s.sched);
      case TimerTick => AfterTick(s.sched);
      case IdleBlock =>
        AfterBlock(s.sched);
        assert Asleep(s.sched) + {} == Asleep(s.sched);
    }
  }

  lemma SchedOtherStep(s: State, a: Action)
    requires SchedInv(s) && Enabled(s, a) && !UsesSema(a) && !Switches(a)
    ensures SchedInv(Step(s, a))
  {
    if a.Signal? || a.BroadcastTurn? {
      SchedTaking(s, a);
    } else {
      SchedPcStep(s, a);
    }
  }

  lemma SchedTaking(s: State, a: Action)
    requires SchedInv(s) && Enabled(s, a) && (a.Signal? || a.BroadcastTurn?)
    ensures SchedInv(Step(s, a))
  {
    hide SchedInv, DownId, Get, SemaUp, SemaDown, Waiting;
    CurrentAwake(s);
    SameIdle(s);
    assert DownId(Mine(s)) == None by { NotDown(s, a); }
    var s', c := Step(s, a), if a.Signal? then a.c else Mine(s).c;
    var more := if a.Signal? then None else Some(c);
    if Waiting(s.queue, c) != [] {
      SchedPc(s, s', Signalling(Waiting(s.queue, c)[0], more));
    } else if a.BroadcastTurn? {
      SchedPc(s, s', Outside);
    }
  }

  lemma SchedPcStep(s: State, a: Action)
    requires SchedInv(s) && Enabled(s, a) && !UsesSema(a) && !Switches(a) && !a.Signal? && !a.BroadcastTurn?
    ensures SchedInv(Step(s, a))
  {
    hide SchedInv, DownId, Get, SemaUp, SemaDown, TakeWaiter, Waiting;
    CurrentAwake(s);
    SameIdle(s);
    assert DownId(Mine(s)) == None by { NotDown(s, a); }
    var s' := Step(s, a);
    match a {
      case StartDown(n) => SchedPc(s, s', DownPlain(n));
      case StartAcquire(l) => SchedPc(s, s', DownLock(l));
      case SetHolder => SchedPc(s, s', Outside);
      case StartRelease(l) => SchedPc(s, s', Unlocking(l, None));
      case Wait(c) => SchedPc(s, s', Queued(s.lockOf[c], s.next));
      case WaitRelease => SchedPc(s, s', Unlocking(Mine(s).l, Some(Mine(s).p)));
      case Broadcast(c) => SchedPc(s, s', Broadcasting(c));
    }
  }

  lemma NotDown(s: State, a: Action)
    requires Enabled(s, a) && !UsesSema(a) && !Switches(a)
    ensures DownId(Mine(s)) == None
  {
  }

  lemma SchedPc(s: State, s': State, x: Pc)
    requires SchedInv(s) && s.sched.current !in s.woken && x != Born
             && (s.sched.current == s.sched.idle ==> x == Outside)
    requires s'.sched == s.sched && s'.pc == s.pc[s.sched.current := x] && s'.semas == s.semas && s'.init == s.init
             && s'.woken == s.woken
    ensures SchedInv(s')
  {
    hide SchedInv;
    SchedSetPc(s, x);
    SchedParts(SetPc(s, x), s');
  }

  lemma SameIdle(s: State)
    requires SchedInv(s)
    ensures s.sched.current == s.sched.idle ==> Mine(s) == Outside
  {
  }

  lemma SchedParts(s: State, s': State)
    requires SchedInv(s) && s'.sched == s.sched && s'.pc == s.pc && s'.semas == s.semas && s'.init == s.init
             && s'.woken == s.woken
    ensures SchedInv(s')
  {
  }

  lemma SchedTry(s: State, n: nat)
    requires SchedInv(s) && Value(s, Plain(n)) > 0
    ensures SchedInv(SemaTake(s, Plain(n)).(woken := s.woken))
  {
    var sema := Get(s.semas, s.init, Plain(n));
    ValueChanges(Asleep(s.sched), s.pc, s.semas, s.init, s.woken, s.woken, Plain(n), sema.value - 1);
  }

  // ----- every step keeps enough threads on the way

  /** The entries of woken threads do not change. */
  lemma WakeSame(pc: map<Tid, Pc>, pc': map<Tid, Pc>, semas: map<SemaId, Sema>, init: map<SemaId, nat>, woken: set<Tid>)
    requires WakeInv(pc, semas, init, woken)
    requires forall t :: t in woken ==> t in pc && t in pc' && pc'[t] == pc[t]
    ensures WakeInv(pc', semas, init, woken)
  {
    forall id
      ensures Enough(pc', woken, Get(semas, init, id), id)
    {
      assert Enough(pc, woken, Get(semas, init, id), id);
      assert WokenFor(pc', woken, id) == WokenFor(pc, woken, id);
    }
  }

  /** One semaphore changes, with one thread's mark. */
  lemma WakeChanges(pc: map<Tid, Pc>, semas: map<SemaId, Sema>, init: map<SemaId, nat>, woken: set<Tid>,
                    woken': set<Tid>, id: SemaId, sema: Sema, t: Tid)
    requires WakeInv(pc, semas, init, woken) && (woken' == woken || woken' == woken + {t} || woken' == woken - {t})
    requires (t in woken) != (t in woken') ==> t in pc && DownId(pc[t]) == Some(id)
    requires var was := Get(semas, init, id);
             || sema.waiters == [] || sema.value == 0
             || (was.waiters != [] && t in woken' && t !in woken && sema.value <= was.value + 1)
             || (was.waiters != [] && t in woken && t !in woken' && sema.value + 1 <= was.value)
             || (was.waiters != [] && woken' == woken && sema.value <= was.value)
    ensures WakeInv(pc, semas[id := sema], init, woken')
  {
    hide WokenFor;
    var semas' := semas[id := sema];
    forall i
      ensures Enough(pc, woken', Get(semas', init, i), i)
    {
      assert Enough(pc, woken, Get(semas, init, i), i);
      WokenCount(pc, woken, woken', t, id, i);
    }
  }

  /** The mark of one thread counts for the semaphore it wants. */
  lemma WokenCount(pc: map<Tid, Pc>, woken: set<Tid>, woken': set<Tid>, t: Tid, id: SemaId, i: SemaId)
    requires woken' == woken || woken' == woken + {t} || woken' == woken - {t}
    requires (t in woken) != (t in woken') ==> t in pc && DownId(pc[t]) == Some(id)
    ensures |WokenFor(pc, woken', i)| == |WokenFor(pc, woken, i)|
              + if i != id || (t in woken) == (t in woken') then 0 else if t in woken' then 1 else -1
  {
    var before, after := WokenFor(pc, woken, i), WokenFor(pc, woken', i);
    if t in woken' && t !in woken {
      assert after == if i == id then before + {t} else before;
    } else if t in woken && t !in woken' {
      assert after == if i == id then before - {t} else before;
    } else {
      assert woken' == woken;
    }
  }

  lemma WakeStep(s: State, a: Action)
    requires SchedInv(s) && Enabled(s, a) && WakeInv(s.pc, s.semas, s.init, s.woken)
    ensures var s' := Step(s, a); WakeInv(s'.pc, s'.semas, s'.init, s'.woken)
  {
    hide SchedInv, WakeInv, Step;
    if UsesSema(a) {
      WakeSemaStep(s, a);
    } else {
      WakeOtherStep(s, a);
    }
  }

  lemma WakeOtherStep(s: State, a: Action)
    requires SchedInv(s) && Enabled(s, a) && WakeInv(s.pc, s.semas, s.init, s.woken) && !UsesSema(a)
    ensures var s' := Step(s, a); WakeInv(s'.pc, s'.semas, s'.init, s'.woken)
  {
    hide WakeInv, Get, SemaUp, SemaDown, Ok, ListOk, SleeperOk, Exit, Yield, Tick, Block, Unblock;
    CurrentAwake(s);
    var s' := Step(s, a);
    forall t | t in s.woken
      ensures t in s.pc && t in s'.pc && s'.pc[t] == s.pc[t]
    {
      assert WokenOk(Asleep(s.sched), s.pc, t);
      Undisturbed(s, a, t);
    }
    WakeSame(s.pc, s'.pc, s.semas, s.init, s.woken);
    NoSema(s, a);
  }

  lemma NoSema(s: State, a: Action)
    requires !UsesSema(a)
    ensures SameSemas(s, Step(s, a))
  {
    hide SemaUp, SemaDown, Exit, Yield, Tick, Block, Unblock, Create, Step;
    if Switches(a) {
      NoSemaSwitch(s, a);
    } else {
      NoSemaOther(s, a);
    }
  }

  ghost predicate SameSemas(s: State, s': State) {
    s'.semas == s.semas && s'.init == s.init && s'.woken == s.woken && s'.ups == s.ups && s'.downs == s.downs
  }

  lemma NoSemaSwitch(s: State, a: Action)
    requires Switches(a)
    ensures SameSemas(s, Step(s, a))
  {
    hide SemaUp, SemaDown, Exit, Yield, Tick, Block, Unblock, Create, TakeWaiter;
  }

  lemma NoSemaOther(s: State, a: Action)
    requires !UsesSema(a) && !Switches(a)
    ensures SameSemas(s, Step(s, a))
  {
    hide SemaUp, SemaDown, Exit, Yield, Tick, Block, Unblock, Create, TakeWaiter, SetPc;
    match a
    case StartDown(n) => NoSemaPc(s, DownPlain(n));
    case StartAcquire(l) => NoSemaPc(s, DownLock(l));
    case SetHolder => if Mine(s).Holding? { NoSemaPc(s.(holder := s.holder[Mine(s).l := s.sched.current]), Outside); }
    case StartRelease(l) => NoSemaPc(s.(holder := s.holder - {l}), Unlocking(l, None));
    case Wait(c) =>
      if c in s.lockOf {
        NoSemaPc(s.(queue := s.queue[c := Waiting(s.queue, c) + [s.next]], stage := s.stage[s.next := InList(c)],
            next := s.next + 1),
                 Queued(s.lockOf[c], s.next));
      }
    case WaitRelease =>
      if Mine(s).Queued? {
        NoSemaPc(s.(holder := s.holder - {Mine(s).l}), Unlocking(Mine(s).l, Some(Mine(s).p)));
      }
    case Signal(c) => if Waiting(s.queue, c) != [] { NoSemaTake(s, c, None); }
    case Broadcast(c) => NoSemaPc(s, Broadcasting(c));
    case BroadcastTurn =>
      if Mine(s).Broadcasting? {
        if Waiting(s.queue, Mine(s).c) == [] {
          NoSemaPc(s, Outside);
        } else {
          NoSemaTake(s, Mine(s).c, Some(Mine(s).c));
        }
      }
  }

  lemma NoSemaPc(s: State, x: Pc)
    ensures SameSemas(s, SetPc(s, x))
  {
  }

  lemma NoSemaTake(s: State, c: nat, more: Option<nat>)
    requires Waiting(s.queue, c) != []
    ensures SameSemas(s, TakeWaiter(s, c, more))
  {
  }

  /** A thread on its way to down a semaphore is not affected by such a step. */
  lemma Undisturbed(s: State, a: Action, t: Tid)
    requires Enabled(s, a) && !UsesSema(a) && t in s.pc && DownId(s.pc[t]).Some? && s.sched.current in s.pc
    ensures t in Step(s, a).pc && Step(s, a).pc[t] == s.pc[t]
  {
    hide SemaUp, SemaDown, Get, Exit, Yield, Tick, Block, Unblock, Create, Waiting, TakeWaiter;
    if Switches(a) {
      UndisturbedSwitch(s, a, t);
    } else {
      NotDown(s, a);
      assert t != s.sched.current;
      match a
      case StartDown(n) =>
      case StartAcquire(l) =>
      case SetHolder =>
      case StartRelease(l) =>
      case Wait(c) =>
      case WaitRelease =>
      case Signal(c) => if Waiting(s.queue, c) != [] { UndisturbedTaking(s, c, None, t); }
      case Broadcast(c) =>
      case BroadcastTurn =>
        if Waiting(s.queue, Mine(s).c) != [] {
          UndisturbedTaking(s, Mine(s).c, Some(Mine(s).c), t);
        }
    }
  }

  lemma UndisturbedTaking(s: State, c: nat, more: Option<nat>, t: Tid)
    requires t in s.pc && t != s.sched.current && Waiting(s.queue, c) != []
    ensures t in TakeWaiter(s, c, more).pc && TakeWaiter(s, c, more).pc[t] == s.pc[t]
  {
  }

  lemma UndisturbedSwitch(s: State, a: Action, t: Tid)
    requires Enabled(s, a) && Switches(a) && t in s.pc && DownId(s.pc[t]).Some? && s.sched.current in s.pc
    ensures t in Step(s, a).pc && Step(s, a).pc[t] == s.pc[t]
  {
    hide SemaUp, SemaDown, Get, Exit, Yield, Tick, Block, Unblock, Create, TakeWaiter;
    match a
    case New(u) =>
    case Start(u) =>
    case Leave =>
    case GiveWay =>
    case TimerTick =>
    case IdleBlock =>
  }

  lemma WakeUp(s: State, id: SemaId)
    requires SchedInv(s) && WakeInv(s.pc, s.semas, s.init, s.woken)
    ensures var s' := SemaUp(s, id); s'.pc == s.pc && s'.init == s.init && WakeInv(s.pc, s'.semas, s.init, s'.woken)
  {
    hide WakeInv;
    var sema := Get(s.semas, s.init, id);
    if sema.waiters == [] {
      WakeChanges(s.pc, s.semas, s.init, s.woken, s.woken, id, Sema(sema.value + 1, []), s.sched.current);
    } else {
      var t := sema.waiters[0];
      assert ListOk(Asleep(s.sched), s.pc, sema.waiters, id);
      assert t in s.woken ==> WokenOk(Asleep(s.sched), s.pc, t);
      WakeChanges(s.pc, s.semas, s.init, s.woken, s.woken + {t}, id, Sema(sema.value + 1, sema.waiters[1..]), t);
    }
  }

  lemma WakeTake(s: State, id: SemaId, woken': set<Tid>)
    requires SchedInv(s) && WakeInv(s.pc, s.semas, s.init, s.woken) && Value(s, id) > 0
    requires woken' == s.woken || (woken' == s.woken - {s.sched.current} && DownId(Mine(s)) == Some(id))
    ensures WakeInv(s.pc, SemaTake(s, id).semas, s.init, woken')
  {
    hide WakeInv;
    CurrentAwake(s);
    var sema := Get(s.semas, s.init, id);
    WakeChanges(s.pc, s.semas, s.init, s.woken, woken', id, Sema(sema.value - 1, sema.waiters), s.sched.current);
  }

  lemma WakeDown(s: State, id: SemaId)
    requires SchedInv(s) && WakeInv(s.pc, s.semas, s.init, s.woken) && DownId(Mine(s)) == Some(id)
    ensures var s' := SemaDown(s, id); WakeInv(s'.pc, s'.semas, s'.init, s'.woken)
  {
    hide WakeInv, Block;
    CurrentAwake(s);
    var cur, sema := s.sched.current, Get(s.semas, s.init, id);
    if sema.value == 0 {
      WakeChanges(s.pc, s.semas, s.init, s.woken, s.woken - {cur}, id, Sema(0, sema.waiters + [cur]), cur);
    } else {
      var s1 := SemaTake(s, id);
      WakeTake(s, id, s1.woken);
      forall t | t in s1.woken
        ensures t in s.pc
      {
        assert WokenOk(Asleep(s.sched), s.pc, t);
      }
      WakeSame(s.pc, s.pc[cur := AfterDown(Mine(s))], s1.semas, s.init, s1.woken);
    }
  }

  lemma WakeSemaStep(s: State, a: Action)
    requires SchedInv(s) && Enabled(s, a) && WakeInv(s.pc, s.semas, s.init, s.woken) && UsesSema(a)
    ensures var s' := Step(s, a); WakeInv(s'.pc, s'.semas, s'.init, s'.woken)
  {
    hide SchedInv, WakeInv, SemaUp, SemaDown;
    var cur := s.sched.current;
    match a {
      case DownTurn => WakeDown(s, DownId(Mine(s)).value);
      case TryDown(n) => if Value(s, Plain(n)) > 0 { WakeTake(s, Plain(n), s.woken); }
      case Up(n) => WakeUp(s, Plain(n));
      case TryAcquire(l) =>
        if Value(s, LockSema(l)) > 0 {
          CurrentAwake(s);
          assert s.woken - {cur} == s.woken;
          WakeTake(s, LockSema(l), s.woken);
          WakeAway(s, SemaTake(s, LockSema(l)).semas, s.woken, Holding(l));
        }
      case UnlockUp =>
        WakeUpAway(s, LockSema(Mine(s).l), if Mine(s).wait.Some? then DownPrivate(Mine(s).wait.value, Mine(s).l)
            else Outside);
      case SignalUp =>
        WakeUpAway(s, Private(Mine(s).p), if Mine(s).more.Some? then Broadcasting(Mine(s).more.value) else Outside);
    }
  }

  /** The current thread, not on its way down, ups a semaphore and goes on. */
  lemma WakeUpAway(s: State, id: SemaId, x: Pc)
    requires SchedInv(s) && WakeInv(s.pc, s.semas, s.init, s.woken) && DownId(Mine(s)) == None
    ensures var s' := SetPc(SemaUp(s, id), x); WakeInv(s'.pc, s'.semas, s'.init, s'.woken)
  {
    hide SchedInv, WakeInv;
    WakeUp(s, id);
    SchedUp(s, id);
    WakeAway(SemaUp(s, id), SemaUp(s, id).semas, SemaUp(s, id).woken, x);
  }

  /** The current thread, not a woken one, goes on. */
  lemma WakeAway(s: State, semas: map<SemaId, Sema>, woken: set<Tid>, x: Pc)
    requires SchedInv(s) && WakeInv(s.pc, semas, s.init, woken) && woken == s.woken && DownId(Mine(s)) == None
    ensures WakeInv(s.pc[s.sched.current := x], semas, s.init, woken)
  {
    hide WakeInv;
    CurrentAwake(s);
    forall t | t in woken
      ensures t in s.pc
    {
      assert WokenOk(Asleep(s.sched), s.pc, t);
    }
    WakeSame(s.pc, s.pc[s.sched.current := x], semas, s.init, woken);
  }

  // ----- every step keeps the balance

  lemma BalanceStep(s: State, a: Action)
    requires Balance(s.semas, s.init, s.ups, s.downs) && Enabled(s, a)
    ensures var s' := Step(s, a); Balance(s'.semas, s'.init, s'.ups, s'.downs)
  {
    hide Balance, SemaUp, SemaDown;
    if !UsesSema(a) {
      NoSema(s, a);
    } else {
      match a {
        case DownTurn => BalanceDown(s, DownId(Mine(s)).value);
        case TryDown(n) => if Value(s, Plain(n)) > 0 { BalanceTake(s, Plain(n)); }
        case Up(n) => BalanceUp(s, Plain(n));
        case TryAcquire(l) => if Value(s, LockSema(l)) > 0 { BalanceTake(s, LockSema(l)); }
        case UnlockUp => BalanceUp(s, LockSema(Mine(s).l));
        case SignalUp => BalanceUp(s, Private(Mine(s).p));
      }
    }
  }

  lemma BalanceUp(s: State, id: SemaId)
    requires Balance(s.semas, s.init, s.ups, s.downs)
    ensures var s' := SemaUp(s, id); s'.init == s.init && Balance(s'.semas, s.init, s'.ups, s'.downs)
  {
    hide Balance, Unblock, Get;
    BalanceChanges(s, id, Raised(Get(s.semas, s.init, id)), 1, 0);
  }

  lemma BalanceTake(s: State, id: SemaId)
    requires Balance(s.semas, s.init, s.ups, s.downs) && Value(s, id) > 0
    ensures var s' := SemaTake(s, id); s'.init == s.init && Balance(s'.semas, s.init, s'.ups, s'.downs)
  {
    hide Balance;
    BalanceChanges(s, id, Lowered(Get(s.semas, s.init, id)), 0, 1);
  }

  lemma BalanceDown(s: State, id: SemaId)
    requires Balance(s.semas, s.init, s.ups, s.downs)
    ensures var s' := SemaDown(s, id); s'.init == s.init && Balance(s'.semas, s.init, s'.ups, s'.downs)
  {
    hide Balance;
    if Value(s, id) > 0 {
      BalanceTake(s, id);
    } else {
      BalanceChanges(s, id, Awaited(Get(s.semas, s.init, id), s.sched.current), 0, 0);
    }
  }

  lemma BalanceChanges(s: State, id: SemaId, sema: Sema, up: nat, down: nat)
    requires Balance(s.semas, s.init, s.ups, s.downs) && sema.value + down == Value(s, id) + up
    ensures Balance(s.semas[id := sema], s.init, if up == 0 then s.ups else s.ups[id := Count(s.ups, id) + up],
                    if down == 0 then s.downs else s.downs[id := Count(s.downs, id) + down])
  {
    var semas' := s.semas[id := sema];
    var ups' := if up == 0 then s.ups else s.ups[id := Count(s.ups, id) + up];
    var downs' := if down == 0 then s.downs else s.downs[id := Count(s.downs, id) + down];
    forall i
      ensures Balanced(Get(semas', s.init, i), Initial(s.init, i), Count(ups', i), Count(downs', i))
    {
      assert Balanced(Get(s.semas, s.init, i), Initial(s.init, i), Count(s.ups, i), Count(s.downs, i));
    }
  }

  // ----- locks

  /** The thread is in lock_acquire after its sema_down, or in lock_release
      before its sema_up. */
  ghost predicate Between(pc: map<Tid, Pc>, t: Tid, l: nat) {
    t in pc && (pc[t] == Holding(l) || (pc[t].Unlocking? && pc[t].l == l))
  }

  /** The thread is somewhere from its sema_down on the lock to its sema_up. */
  ghost predicate Inside(pc: map<Tid, Pc>, holder: map<nat, Tid>, t: Tid, l: nat) {
    Between(pc, t, l) || (l in holder && holder[l] == t)
  }

  /** At most one thread is inside, and the semaphore is 1 exactly when none is. */
  ghost predicate LockOk(pc: map<Tid, Pc>, holder: map<nat, Tid>, v: nat, l: nat) {
    && v <= 1
    && (forall t, u :: Inside(pc, holder, t, l) && Inside(pc, holder, u, l) ==> t == u)
    && (v == 1 <==> forall t :: !Inside(pc, holder, t, l))
    && (l in holder ==> forall t :: !Between(pc, t, l))
  }

  /** The lock that a thread must hold for what it is about to do. */
  function Needs(pc: Pc, lockOf: map<nat, nat>): Option<nat> {
    match pc
    case Queued(l, _) => Some(l)
    case Broadcasting(c) => if c in lockOf then Some(lockOf[c]) else None
    case Signalling(_, more) => if more.Some? && more.value in lockOf then Some(lockOf[more.value]) else None
    case _ => None
  }

  /** The lock that it must not hold: it is in lock_acquire, or will call it
      from cond_wait, or has just released it. */
  function Awaits(pc: Pc): Option<nat> {
    match pc
    case DownLock(l) => Some(l)
    case DownPrivate(_, l) => Some(l)
    case Unlocking(l, _) => Some(l)
    case _ => None
  }

  ghost predicate Holds(holder: map<nat, Tid>, t: Tid, l: nat) { l in holder && holder[l] == t }

  ghost predicate NeedsOk(pc: map<Tid, Pc>, holder: map<nat, Tid>, lockOf: map<nat, nat>, t: Tid)
    requires t in pc
  {
    && (Needs(pc[t], lockOf).Some? ==> Holds(holder, t, Needs(pc[t], lockOf).value))
    && (Awaits(pc[t]).Some? ==> !Holds(holder, t, Awaits(pc[t]).value))
  }

  ghost predicate LockInv(s: State) {
    && (forall l :: LockOk(s.pc, s.holder, Value(s, LockSema(l)), l))
    && (forall t :: t in s.pc ==> NeedsOk(s.pc, s.holder, s.lockOf, t))
  }

  /** A thread does something that has nothing to do with its being inside a lock. */
  lemma LockPc(s: State, s': State, t: Tid, x: Pc)
    requires LockInv(s) && s'.holder == s.holder && s'.lockOf == s.lockOf
    requires s'.pc == s.pc[t := x] && forall l :: Value(s', LockSema(l)) == Value(s, LockSema(l))
    requires !x.Holding? && !x.Unlocking? && (t in s.pc ==> !s.pc[t].Holding? && !s.pc[t].Unlocking?)
    requires NeedsOk(s'.pc, s.holder, s.lockOf, t)
    ensures LockInv(s')
  {
    hide Get;
    forall l
      ensures LockOk(s'.pc, s'.holder, Value(s', LockSema(l)), l)
    {
      assert LockOk(s.pc, s.holder, Value(s, LockSema(l)), l);
      forall u
        ensures Between(s'.pc, u, l) <==> Between(s.pc, u, l)
        ensures Inside(s'.pc, s'.holder, u, l) <==> Inside(s.pc, s.holder, u, l)
      {
      }
    }
    forall u | u in s'.pc
      ensures NeedsOk(s'.pc, s'.holder, s'.lockOf, u)
    {
      assert u != t ==> NeedsOk(s.pc, s.holder, s.lockOf, u);
    }
  }

  /** The value of one lock's semaphore and the current thread's place change. */
  lemma LockMoves(s: State, s': State, l: nat, x: Pc)
    requires LockInv(s) && s.sched.current in s.pc && s'.lockOf == s.lockOf && s'.pc == s.pc[s.sched.current := x]
    requires forall k :: k != l ==>
               Value(s', LockSema(k)) == Value(s, LockSema(k)) && (k in s'.holder <==> k in s.holder)
                   && (k in s.holder ==> s'.holder[k] == s.holder[k])
    requires forall k :: k != l ==> !Between(s.pc, s.sched.current, k) && x != Holding(k) && !(x.Unlocking? && x.l == k)
    requires LockOk(s'.pc, s'.holder, Value(s', LockSema(l)), l)
    requires NeedsOk(s'.pc, s'.holder, s'.lockOf, s.sched.current)
    requires l in s'.holder ==> s'.holder[l] == s.sched.current || (l in s.holder && s'.holder[l] == s.holder[l])
    requires forall u :: u in s.pc && u != s.sched.current && Needs(s.pc[u], s.lockOf) == Some(l) ==>
               l in s'.holder && l in s.holder && s'.holder[l] == s.holder[l]
    ensures LockInv(s')
  {
    hide Get;
    var cur := s.sched.current;
    forall k
      ensures LockOk(s'.pc, s'.holder, Value(s', LockSema(k)), k)
    {
      if k != l {
        assert LockOk(s.pc, s.holder, Value(s, LockSema(k)), k);
        forall u
          ensures Between(s'.pc, u, k) <==> Between(s.pc, u, k)
          ensures Inside(s'.pc, s'.holder, u, k) <==> Inside(s.pc, s.holder, u, k)
        {
        }
      }
    }
    forall u | u in s'.pc
      ensures NeedsOk(s'.pc, s'.holder, s'.lockOf, u)
    {
      assert u != cur ==> NeedsOk(s.pc, s.holder, s.lockOf, u);
    }
  }

  /** The four ways of moving: in, then holder, out of holder, out. */
  lemma LockIn(s: State, s': State, l: nat)
    requires LockInv(s) && s.sched.current in s.pc && s'.lockOf == s.lockOf
             && s'.pc == s.pc[s.sched.current := Holding(l)]
    requires !Mine(s).Holding? && !Mine(s).Unlocking?
    requires s'.holder == s.holder && Value(s, LockSema(l)) > 0 && Value(s', LockSema(l)) == Value(s, LockSema(l)) - 1
    requires forall k :: k != l ==> Value(s', LockSema(k)) == Value(s, LockSema(k))
    ensures LockInv(s')
  {
    hide Get;
    var cur := s.sched.current;
    assert LockOk(s.pc, s.holder, Value(s, LockSema(l)), l);
    forall t
      ensures Inside(s'.pc, s'.holder, t, l) <==> t == cur
    {
      assert !Inside(s.pc, s.holder, t, l);
    }
    assert l in s.holder ==> Inside(s.pc, s.holder, s.holder[l], l);
    NobodyNeeds(s, l);
    assert Inside(s'.pc, s'.holder, cur, l);
    LockMoves(s, s', l, Holding(l));
  }

  lemma NobodyNeeds(s: State, l: nat)
    requires LockInv(s) && l !in s.holder
    ensures forall u :: u in s.pc ==> Needs(s.pc[u], s.lockOf) != Some(l)
  {
    forall u | u in s.pc
      ensures Needs(s.pc[u], s.lockOf) != Some(l)
    {
      assert NeedsOk(s.pc, s.holder, s.lockOf, u);
    }
  }

  lemma LockSet(s: State, s': State, l: nat)
    requires LockInv(s) && s.sched.current in s.pc && s'.lockOf == s.lockOf && s'.pc == s.pc[s.sched.current := Outside]
    requires Mine(s) == Holding(l) && s'.holder == s.holder[l := s.sched.current]
    requires forall k :: Value(s', LockSema(k)) == Value(s, LockSema(k))
    ensures LockInv(s')
  {
    hide Get;
    var cur := s.sched.current;
    assert LockOk(s.pc, s.holder, Value(s, LockSema(l)), l);
    assert Between(s.pc, cur, l) && Inside(s.pc, s.holder, cur, l);
    forall t
      ensures Inside(s'.pc, s'.holder, t, l) <==> t == cur
      ensures !Between(s'.pc, t, l)
    {
      assert Between(s.pc, t, l) ==> Inside(s.pc, s.holder, t, l);
    }
    NobodyNeeds(s, l);
    assert Inside(s'.pc, s'.holder, cur, l);
    LockMoves(s, s', l, Outside);
  }

  lemma LockClear(s: State, s': State, l: nat, w: Option<nat>)
    requires LockInv(s) && s.sched.current in s.pc && s'.lockOf == s.lockOf
             && s'.pc == s.pc[s.sched.current := Unlocking(l, w)]
    requires !Mine(s).Holding? && !Mine(s).Unlocking? && HoldsLock(s, l) && s'.holder == s.holder - {l}
    requires forall k :: Value(s', LockSema(k)) == Value(s, LockSema(k))
    ensures LockInv(s')
  {
    hide Get;
    var cur := s.sched.current;
    assert LockOk(s.pc, s.holder, Value(s, LockSema(l)), l);
    assert Inside(s.pc, s.holder, cur, l);
    forall t
      ensures Inside(s'.pc, s'.holder, t, l) <==> t == cur
    {
      assert !Between(s.pc, t, l);
    }
    forall u | u in s.pc && u != cur
      ensures Needs(s.pc[u], s.lockOf) != Some(l)
    {
      assert NeedsOk(s.pc, s.holder, s.lockOf, u);
    }
    assert Inside(s'.pc, s'.holder, cur, l);
    LockMoves(s, s', l, Unlocking(l, w));
  }

  lemma LockOut(s: State, s': State, l: nat, x: Pc)
    requires LockInv(s) && s.sched.current in s.pc && s'.lockOf == s.lockOf && s'.pc == s.pc[s.sched.current := x]
    requires Mine(s).Unlocking? && Mine(s).l == l && s'.holder == s.holder
             && Value(s', LockSema(l)) == Value(s, LockSema(l)) + 1
    requires !x.Holding? && !x.Unlocking? && Needs(x, s.lockOf) == None && (Awaits(x).Some? ==> Awaits(x).value == l)
    requires forall k :: k != l ==> Value(s', LockSema(k)) == Value(s, LockSema(k))
    ensures LockInv(s')
  {
    hide Get;
    var cur := s.sched.current;
    assert LockOk(s.pc, s.holder, Value(s, LockSema(l)), l);
    assert Between(s.pc, cur, l) && Inside(s.pc, s.holder, cur, l);
    forall t
      ensures !Inside(s'.pc, s'.holder, t, l)
    {
      assert t != cur ==> !Inside(s.pc, s.holder, t, l);
    }
    NobodyNeeds(s, l);
    LockMoves(s, s', l, x);
  }

  lemma LockStep(s: State, a: Action)
    requires SchedInv(s) && LockInv(s) && Enabled(s, a)
    ensures LockInv(Step(s, a))
  {
    hide SchedInv, LockInv, Step;
    CurrentAwake(s);
    if UsesSema(a) {
      LockSemaStep(s, a);
    } else if Switches(a) {
      LockSwitch(s, a);
    } else {
      LockOtherStep(s, a);
    }
  }

  lemma LockSemaStep(s: State, a: Action)
    requires s.sched.current in s.pc && LockInv(s) && Enabled(s, a) && UsesSema(a)
    ensures LockInv(Step(s, a))
  {
    hide LockInv, SemaUp, SemaTake, SemaDown, Value;
    var cur, mine, s' := s.sched.current, Mine(s), Step(s, a);
    match a {
      case DownTurn => LockDown(s, DownId(mine).value);
      case TryDown(n) =>
        OtherValues(s, Plain(n));
        if Value(s, Plain(n)) > 0 {
          SameValues(SemaTake(s, Plain(n)), s');
          LockSame(s, s');
        }
      case Up(n) =>
        OtherValues(s, Plain(n));
        LockSame(s, s');
      case TryAcquire(l) =>
        OtherValues(s, LockSema(l));
        if Value(s, LockSema(l)) > 0 {
          SameValues(SemaTake(s, LockSema(l)), s');
          LockIn(s, s', l);
        }
      case UnlockUp =>
        OtherValues(s, LockSema(mine.l));
        SameValues(SemaUp(s, LockSema(mine.l)), s');
        LockOut(s, s', mine.l, s'.pc[cur]);
      case SignalUp =>
        OtherValues(s, Private(mine.p));
        SameValues(SemaUp(s, Private(mine.p)), s');
        StillNeeds(s, cur);
        LockPc(s, s', cur, s'.pc[cur]);
    }
  }

  lemma SameValues(s: State, s': State)
    requires s'.semas == s.semas && s'.init == s.init
    ensures forall i :: Value(s', i) == Value(s, i)
  {
  }

  /** What the semaphore operations do to values. */
  lemma OtherValues(s: State, id: SemaId)
    ensures Value(SemaUp(s, id), id) == Value(s, id) + 1
    ensures forall i :: i != id ==> Value(SemaUp(s, id), i) == Value(s, i)
    ensures Value(s, id) > 0 ==> Value(SemaTake(s, id), id) == Value(s, id) - 1
    ensures Value(s, id) > 0 ==> forall i :: i != id ==> Value(SemaTake(s, id), i) == Value(s, i)
    ensures Keeps(s, SemaUp(s, id)) && SemaUp(s, id).downs == s.downs
            && SemaUp(s, id).ups == s.ups[id := Count(s.ups, id) + 1]
    ensures Value(s, id) > 0 ==> Keeps(s, SemaTake(s, id)) && SemaTake(s, id).ups == s.ups
    ensures Value(s, id) > 0 ==> SemaTake(s, id).downs == s.downs[id := Count(s.downs, id) + 1]
  {
    hide SemaTake, Value, SemaUp;
    UpValues(s, id);
    if Value(s, id) > 0 { TakeValues(s, id); }
  }

  lemma UpValues(s: State, id: SemaId)
    ensures Value(SemaUp(s, id), id) == Value(s, id) + 1
    ensures forall i :: i != id ==> Value(SemaUp(s, id), i) == Value(s, i)
    ensures Keeps(s, SemaUp(s, id)) && SemaUp(s, id).downs == s.downs
            && SemaUp(s, id).ups == s.ups[id := Count(s.ups, id) + 1]
  {
  }

  lemma TakeValues(s: State, id: SemaId)
    requires Value(s, id) > 0
    ensures Value(SemaTake(s, id), id) == Value(s, id) - 1
    ensures forall i :: i != id ==> Value(SemaTake(s, id), i) == Value(s, i)
    ensures Keeps(s, SemaTake(s, id)) && SemaTake(s, id).ups == s.ups
    ensures SemaTake(s, id).downs == s.downs[id := Count(s.downs, id) + 1]
  {
  }

  lemma SleepValues(s: State, id: SemaId)
    requires Value(s, id) == 0
    ensures forall i :: Value(SemaSleep(s, id), i) == Value(s, i)
    ensures SleepKeeps(s, SemaSleep(s, id))
  {
    hide Block;
  }

  ghost predicate SleepKeeps(s: State, s': State) {
    && s'.pc == s.pc && s'.init == s.init && s'.holder == s.holder && s'.lockOf == s.lockOf
    && s'.queue == s.queue && s'.stage == s.stage && s'.next == s.next && s'.ups == s.ups && s'.downs == s.downs
  }

  lemma SleepLists(s: State, id: SemaId)
    ensures Waiters(SemaSleep(s, id), id) == Waiters(s, id) + [s.sched.current]
    ensures forall i :: i != id ==> Waiters(SemaSleep(s, id), i) == Waiters(s, i)
  {
    hide Block;
  }

  lemma TakeLists(s: State, id: SemaId)
    requires Value(s, id) > 0
    ensures forall i :: Waiters(SemaTake(s, id), i) == Waiters(s, i)
  {
  }

  ghost predicate Keeps(s: State, s': State) {
    && s'.pc == s.pc && s'.init == s.init && s'.holder == s.holder && s'.lockOf == s.lockOf
    && s'.queue == s.queue && s'.stage == s.stage && s'.next == s.next && s'.sched.current == s.sched.current
  }

  lemma StillNeeds(s: State, t: Tid)
    requires LockInv(s) && t in s.pc
    ensures NeedsOk(s.pc, s.holder, s.lockOf, t)
  {
  }

  lemma LockSame(s: State, s': State)
    requires LockInv(s) && s'.holder == s.holder && s'.lockOf == s.lockOf && s'.pc == s.pc
    requires forall l :: Value(s', LockSema(l)) == Value(s, LockSema(l))
    ensures LockInv(s')
  {
    hide Get;
    forall l
      ensures LockOk(s'.pc, s'.holder, Value(s', LockSema(l)), l)
    {
      assert LockOk(s.pc, s.holder, Value(s, LockSema(l)), l);
    }
  }

  lemma LockDown(s: State, id: SemaId)
    requires s.sched.current in s.pc && LockInv(s) && DownId(Mine(s)) == Some(id)
    ensures LockInv(SemaDown(s, id))
  {
    hide LockInv, Get, Block;
    hide SemaSleep, SemaTake, Value;
    var cur, s' := s.sched.current, SemaDown(s, id);
    StillNeeds(s, cur);
    if Value(s, id) == 0 {
      SleepValues(s, id);
      LockSame(s, s');
    } else {
      TakeValues(s, id);
      SameValues(SemaTake(s, id), s');
      match Mine(s)
      case DownPlain(n) => LockPc(s, s', cur, Outside);
      case DownPrivate(p, l) => LockPc(s, s', cur, DownLock(l));
      case DownLock(l) => LockIn(s, s', l);
    }
  }

  lemma LockSwitch(s: State, a: Action)
    requires s.sched.current in s.pc && LockInv(s) && Enabled(s, a) && Switches(a)
    ensures LockInv(Step(s, a))
  {
    hide LockInv, Get, Block, Unblock, Exit, Yield, Tick, Create;
    var s' := Step(s, a);
    match a {
      case New(t) => LockPc(s, s', t, Born);
      case Start(t) => LockPc(s, s', t, Outside);
      case Leave => if s.sched.current == s.sched.initial { LockSame(s, s'); } else { LockGone(s, s'); }
      case GiveWay => LockSame(s, s');
      case TimerTick => LockSame(s, s');
      case IdleBlock => LockSame(s, s');
    }
  }

  lemma LockGone(s: State, s': State)
    requires LockInv(s) && s'.holder == s.holder && s'.lockOf == s.lockOf && s'.pc == s.pc - {s.sched.current}
             && Mine(s) == Outside
    requires forall l :: Value(s', LockSema(l)) == Value(s, LockSema(l))
    ensures LockInv(s')
  {
    hide Get;
    forall l
      ensures LockOk(s'.pc, s'.holder, Value(s', LockSema(l)), l)
    {
      assert LockOk(s.pc, s.holder, Value(s, LockSema(l)), l);
      forall u
        ensures Between(s'.pc, u, l) <==> Between(s.pc, u, l)
        ensures Inside(s'.pc, s'.holder, u, l) <==> Inside(s.pc, s.holder, u, l)
      {
      }
    }
    forall u | u in s'.pc
      ensures NeedsOk(s'.pc, s'.holder, s'.lockOf, u)
    {
      assert NeedsOk(s.pc, s.holder, s.lockOf, u);
    }
  }

  lemma LockOtherStep(s: State, a: Action)
    requires s.sched.current in s.pc && LockInv(s) && Enabled(s, a) && !UsesSema(a) && !Switches(a)
    ensures LockInv(Step(s, a))
  {
    hide LockInv, Step, SameSemas, Value;
    NoSema(s, a);
    if a.SetHolder? || a.StartRelease? || a.WaitRelease? {
      LockHolderStep(s, a);
    } else {
      LockPcStep(s, a);
    }
  }

  lemma LockHolderStep(s: State, a: Action)
    requires s.sched.current in s.pc && LockInv(s) && Enabled(s, a)
             && (a.SetHolder? || a.StartRelease? || a.WaitRelease?)
    requires SameSemas(s, Step(s, a))
    ensures LockInv(Step(s, a))
  {
    var s' := Step(s, a);
    SameValues(s, s');
    hide LockInv, Value, SemaUp, SemaDown, SemaTake;
    match a {
      case SetHolder => LockSet(s, s', Mine(s).l);
      case StartRelease(l) => LockClear(s, s', l, None);
      case WaitRelease => LockClear(s, s', Mine(s).l, Some(Mine(s).p));
    }
  }

  lemma LockPcStep(s: State, a: Action)
    requires s.sched.current in s.pc && LockInv(s) && Enabled(s, a) && !UsesSema(a) && !Switches(a)
    requires !a.SetHolder? && !a.StartRelease? && !a.WaitRelease? && SameSemas(s, Step(s, a))
    ensures LockInv(Step(s, a))
  {
    var cur, s' := s.sched.current, Step(s, a);
    SameValues(s, s');
    StillNeeds(s, cur);
    hide LockInv, Value, SemaUp, SemaDown, SemaTake, TakeWaiter, Waiting;
    match a {
      case StartDown(n) => LockPc(s, s', cur, DownPlain(n));
      case StartAcquire(l) => LockPc(s, s', cur, DownLock(l));
      case Wait(c) => LockPc(s, s', cur, Queued(s.lockOf[c], s.next));
      case Broadcast(c) => LockPc(s, s', cur, Broadcasting(c));
      case Signal(c) => if Waiting(s.queue, c) != [] { LockTaking(s, c, None); }
      case BroadcastTurn =>
        var c := Mine(s).c;
        if Waiting(s.queue, c) == [] { LockPc(s, s', cur, Outside); } else { LockTaking(s, c, Some(c)); }
    }
  }

  lemma LockTaking(s: State, c: nat, more: Option<nat>)
    requires s.sched.current in s.pc && LockInv(s) && Waiting(s.queue, c) != [] && !Mine(s).Holding?
             && !Mine(s).Unlocking?
    requires more == None || (more == Some(c) && Mine(s) == Broadcasting(c))
    ensures LockInv(TakeWaiter(s, c, more))
  {
    var cur, s' := s.sched.current, TakeWaiter(s, c, more);
    NoSemaTake(s, c, more);
    SameValues(s, s');
    StillNeeds(s, cur);
    hide LockInv, Value;
    LockPc(s, s', cur, Signalling(Waiting(s.queue, c)[0], more));
  }

  // ----- condition variables

  /** The private semaphore that a thread in cond_wait has not downed yet. */
  function WaitsOn(pc: Pc): Option<nat> {
    match pc
    case Queued(_, p) => Some(p)
    case Unlocking(_, w) => w
    case DownPrivate(p, _) => Some(p)
    case _ => None
  }

  ghost predicate QueueOk(queue: map<nat, seq<nat>>, stage: map<nat, Stage>, next: nat, c: nat) {
    var q := Waiting(queue, c);
    && (forall i, j :: 0 <= i < j < |q| ==> q[i] < q[j])
    && (forall i :: 0 <= i < |q| ==> q[i] < next && q[i] in stage && stage[q[i]] == InList(c))
  }

  ghost predicate StageOk(pc: map<Tid, Pc>, queue: map<nat, seq<nat>>, stage: map<nat, Stage>, p: nat) {
    && p in stage
    && match stage[p]
       case InList(c) => p in Waiting(queue, c)
       case Taken(t) => t in pc && pc[t].Signalling? && pc[t].p == p
       case Upped => true
  }

  ghost predicate PcOk(pc: Pc, t: Tid, stage: map<nat, Stage>, next: nat, downs: map<SemaId, nat>) {
    && (pc.Signalling? ==> pc.p < next && pc.p in stage && stage[pc.p] == Taken(t))
    && (WaitsOn(pc).Some? ==> WaitsOn(pc).value < next && Count(downs, Private(WaitsOn(pc).value)) == 0)
  }

  /** The semaphore has been upped once if its waiter's turn has come, and not
      before; while somebody sleeps on it, not yet. */
  ghost predicate PrivateOk(waiters: seq<Tid>, stage: map<nat, Stage>, next: nat, ups: map<SemaId, nat>,
                            downs: map<SemaId, nat>, p: nat) {
    && Count(ups, Private(p)) == (if p < next && p in stage && stage[p] == Upped then 1 else 0)
    && (p >= next ==> Count(downs, Private(p)) == 0)
    && (waiters != [] ==> Count(ups, Private(p)) == 0)
  }

  ghost predicate CondInv(s: State) {
    && (forall c :: QueueOk(s.queue, s.stage, s.next, c))
    && (forall p :: 0 <= p < s.next ==> StageOk(s.pc, s.queue, s.stage, p))
    && (forall t :: t in s.pc ==> PcOk(s.pc[t], t, s.stage, s.next, s.downs))
    && (forall p :: 0 <= p ==> PrivateOk(Waiters(s, Private(p)), s.stage, s.next, s.ups, s.downs, p))
    && (forall t, u :: t in s.pc && u in s.pc && WaitsOn(s.pc[t]).Some? && WaitsOn(s.pc[u]) == WaitsOn(s.pc[t]) ==>
          t == u)
  }

  /** Condition variables and private semaphores stay as they are. */
  ghost predicate SameConds(s: State, s': State) {
    && s'.queue == s.queue && s'.stage == s.stage && s'.next == s.next && s'.init == s.init
    && (forall p :: 0 <= p ==> SamePrivate(s, s', p))
  }

  ghost predicate SamePrivate(s: State, s': State, p: nat) {
    && Waiters(s', Private(p)) == Waiters(s, Private(p))
    && Count(s'.ups, Private(p)) == Count(s.ups, Private(p))
        && Count(s'.downs, Private(p)) == Count(s.downs, Private(p))
  }

  /** A thread that is not signalling goes on, waiting for what it waited for
      or for nothing, or leaves. */
  ghost predicate GoesOn(pc: map<Tid, Pc>, pc': map<Tid, Pc>, t: Tid) {
    && (t in pc ==> !pc[t].Signalling?)
    && (forall u :: u != t ==> (u in pc' <==> u in pc) && (u in pc ==> pc'[u] == pc[u]))
    && (t in pc' ==> !pc'[t].Signalling? && (WaitsOn(pc'[t]) == None || (t in pc && WaitsOn(pc'[t]) == WaitsOn(pc[t]))))
  }

  lemma CondPc(s: State, s': State, t: Tid)
    requires CondInv(s) && SameConds(s, s')
    requires s'.pc == s.pc || GoesOn(s.pc, s'.pc, t)
    ensures CondInv(s')
  {
    hide Waiters, Count, QueueOk, Waiting;
    forall p | 0 <= p < s'.next
      ensures StageOk(s'.pc, s'.queue, s'.stage, p)
    {
      assert StageOk(s.pc, s.queue, s.stage, p);
    }
    forall u | u in s'.pc
      ensures PcOk(s'.pc[u], u, s'.stage, s'.next, s'.downs)
    {
      assert u in s.pc ==> PcOk(s.pc[u], u, s.stage, s.next, s.downs);
      if WaitsOn(s'.pc[u]).Some? { assert SamePrivate(s, s', WaitsOn(s'.pc[u]).value); }
    }
    forall p | 0 <= p
      ensures PrivateOk(Waiters(s', Private(p)), s'.stage, s'.next, s'.ups, s'.downs, p)
    {
      assert SamePrivate(s, s', p) && PrivateOk(Waiters(s, Private(p)), s.stage, s.next, s.ups, s.downs, p);
    }
    forall t1, u | t1 in s'.pc && u in s'.pc && WaitsOn(s'.pc[t1]).Some? && WaitsOn(s'.pc[u]) == WaitsOn(s'.pc[t1])
      ensures t1 == u
    {
      assert t1 in s.pc && u in s.pc;
    }
    forall c
      ensures QueueOk(s'.queue, s'.stage, s'.next, c)
    {
      assert QueueOk(s.queue, s.stage, s.next, c);
    }
  }

  /** cond_wait puts a new semaphore at the end of the list. */
  lemma CondWait(s: State, c: nat)
    requires CondInv(s) && s.sched.current in s.pc && Mine(s) == Outside && c in s.lockOf
    ensures CondInv(Step(s, Wait(c)))
  {
    hide CondInv, SameSemas;
    NoSema(s, Wait(c));
    Enqueued(s, Step(s, Wait(c)), c, s.lockOf[c]);
  }

  lemma Enqueued(s: State, s': State, c: nat, l: nat)
    requires CondInv(s) && s.sched.current in s.pc && Mine(s) == Outside && SameSemas(s, s')
    requires s'.queue == s.queue[c := Waiting(s.queue, c) + [s.next]] && s'.stage == s.stage[s.next := InList(c)]
             && s'.next == s.next + 1
    requires s'.pc == s.pc[s.sched.current := Queued(l, s.next)]
    ensures CondInv(s')
  {
    WaitersKept(s, s');
    EnqueuedLists(s, s', c);
    EnqueuedWaiters(s, s', l);
    hide Count, Waiters, QueueOk, StageOk, Waiting, PcOk;
    forall p | 0 <= p
      ensures PrivateOk(Waiters(s', Private(p)), s'.stage, s'.next, s'.ups, s'.downs, p)
    {
      assert SamePrivate(s, s', p) && PrivateOk(Waiters(s, Private(p)), s.stage, s.next, s.ups, s.downs, p);
    }
  }

  lemma EnqueuedLists(s: State, s': State, c: nat)
    requires CondInv(s) && s.sched.current in s.pc && Mine(s) == Outside
    requires s'.queue == s.queue[c := Waiting(s.queue, c) + [s.next]] && s'.stage == s.stage[s.next := InList(c)]
             && s'.next == s.next + 1
    requires forall t :: t != s.sched.current ==> (t in s'.pc <==> t in s.pc) && (t in s.pc ==> s'.pc[t] == s.pc[t])
    ensures forall d :: QueueOk(s'.queue, s'.stage, s'.next, d)
    ensures forall p :: 0 <= p < s'.next ==> StageOk(s'.pc, s'.queue, s'.stage, p)
  {
    hide PcOk, PrivateOk;
    var q := Waiting(s.queue, c);
    forall d
      ensures QueueOk(s'.queue, s'.stage, s'.next, d)
    {
      assert QueueOk(s.queue, s.stage, s.next, d);
    }
    forall p | 0 <= p < s'.next
      ensures StageOk(s'.pc, s'.queue, s'.stage, p)
    {
      if p == s.next {
        assert s'.queue[c][|q|] == p;
      } else {
        assert StageOk(s.pc, s.queue, s.stage, p);
        assert s.stage[p] == InList(c) ==> p in q && p in q + [s.next];
      }
    }
  }

  lemma EnqueuedWaiters(s: State, s': State, l: nat)
    requires CondInv(s) && s.sched.current in s.pc && s'.next == s.next + 1 && s'.downs == s.downs
    requires s'.pc == s.pc[s.sched.current := Queued(l, s.next)] && s.next in s'.stage
             && s'.stage == s.stage[s.next := s'.stage[s.next]]
    ensures forall t :: t in s'.pc ==> PcOk(s'.pc[t], t, s'.stage, s'.next, s'.downs)
    ensures forall t, u ::
              t in s'.pc && u in s'.pc && WaitsOn(s'.pc[t]).Some? && WaitsOn(s'.pc[u]) == WaitsOn(s'.pc[t]) ==> t == u
  {
    hide QueueOk, StageOk, Count, Waiters;
    var cur := s.sched.current;
    assert PrivateOk(Waiters(s, Private(s.next)), s.stage, s.next, s.ups, s.downs, s.next);
    forall t | t in s'.pc
      ensures PcOk(s'.pc[t], t, s'.stage, s'.next, s'.downs)
    {
      assert t != cur ==> PcOk(s.pc[t], t, s.stage, s.next, s.downs);
    }
    forall t, u | t in s'.pc && u in s'.pc && WaitsOn(s'.pc[t]).Some? && WaitsOn(s'.pc[u]) == WaitsOn(s'.pc[t])
      ensures t == u
    {
      assert t != cur ==> PcOk(s.pc[t], t, s.stage, s.next, s.downs);
      assert u != cur ==> PcOk(s.pc[u], u, s.stage, s.next, s.downs);
    }
  }

  ghost predicate SamePrivates(s: State, s': State) {
    forall p :: 0 <= p ==> SamePrivate(s, s', p)
  }

  lemma WaitersKept(s: State, s': State)
    requires SameSemas(s, s')
    ensures SamePrivates(s, s')
  {
  }

  /** A signal takes the first waiter, the one that has waited longest. */
  lemma CondTake(s: State, c: nat, more: Option<nat>)
    requires CondInv(s) && s.sched.current in s.pc && !Mine(s).Signalling? && WaitsOn(Mine(s)) == None
             && Waiting(s.queue, c) != []
    ensures CondInv(TakeWaiter(s, c, more))
  {
    hide CondInv, SameSemas, Waiting;
    NoSemaTake(s, c, more);
    FirstTaken(s, TakeWaiter(s, c, more), c, more);
  }

  lemma FirstTaken(s: State, s': State, c: nat, more: Option<nat>)
    requires CondInv(s) && s.sched.current in s.pc && !Mine(s).Signalling? && WaitsOn(Mine(s)) == None
             && Waiting(s.queue, c) != []
    requires SameSemas(s, s') && s'.next == s.next && s'.queue == s.queue[c := Waiting(s.queue, c)[1..]]
    requires s'.stage == s.stage[Waiting(s.queue, c)[0] := Taken(s.sched.current)]
    requires s'.pc == s.pc[s.sched.current := Signalling(Waiting(s.queue, c)[0], more)]
    ensures CondInv(s')
  {
    var first := Waiting(s.queue, c)[0];
    assert QueueOk(s.queue, s.stage, s.next, c);
    assert first < s.next && first in s.stage && s.stage[first] == InList(c);
    WaitersKept(s, s');
    TakenLists(s, s', c, more);
    hide Count, Waiters, QueueOk, StageOk, Waiting;
    forall u | u in s'.pc
      ensures PcOk(s'.pc[u], u, s'.stage, s'.next, s'.downs)
    {
      assert PcOk(s.pc[u], u, s.stage, s.next, s.downs);
    }
    forall p | 0 <= p
      ensures PrivateOk(Waiters(s', Private(p)), s'.stage, s'.next, s'.ups, s'.downs, p)
    {
      assert SamePrivate(s, s', p) && PrivateOk(Waiters(s, Private(p)), s.stage, s.next, s.ups, s.downs, p);
    }
  }

  lemma TakenLists(s: State, s': State, c: nat, more: Option<nat>)
    requires CondInv(s) && s.sched.current in s.pc && !Mine(s).Signalling? && Waiting(s.queue, c) != []
    requires s'.next == s.next && s'.queue == s.queue[c := Waiting(s.queue, c)[1..]]
    requires s'.stage == s.stage[Waiting(s.queue, c)[0] := Taken(s.sched.current)]
    requires s'.pc == s.pc[s.sched.current := Signalling(Waiting(s.queue, c)[0], more)]
    ensures forall d :: QueueOk(s'.queue, s'.stage, s'.next, d)
    ensures forall p :: 0 <= p < s'.next ==> StageOk(s'.pc, s'.queue, s'.stage, p)
  {
    hide PcOk, PrivateOk, QueueOk, StageOk;
    forall d
      ensures QueueOk(s'.queue, s'.stage, s'.next, d)
    {
      TakenQueue(s.queue, s.stage, s.next, c, s.sched.current, d);
    }
    forall p | 0 <= p < s'.next
      ensures StageOk(s'.pc, s'.queue, s'.stage, p)
    {
      TakenStage(s, s', c, more, p);
    }
  }

  lemma TakenQueue(queue: map<nat, seq<nat>>, stage: map<nat, Stage>, next: nat, c: nat, t: Tid, d: nat)
    requires QueueOk(queue, stage, next, c) && QueueOk(queue, stage, next, d) && Waiting(queue, c) != []
    ensures QueueOk(queue[c := Waiting(queue, c)[1..]], stage[Waiting(queue, c)[0] := Taken(t)], next, d)
  {
    var q, q' := Waiting(queue, c), Waiting(queue[c := Waiting(queue, c)[1..]], d);
    assert d == c ==> forall i :: 0 <= i < |q'| ==> q'[i] == q[i + 1];
    assert d != c ==> q' == Waiting(queue, d);
  }

  lemma TakenStage(s: State, s': State, c: nat, more: Option<nat>, p: nat)
    requires StageOk(s.pc, s.queue, s.stage, p) && s.sched.current in s.pc && !Mine(s).Signalling?
             && Waiting(s.queue, c) != []
    requires s'.queue == s.queue[c := Waiting(s.queue, c)[1..]]
             && s'.stage == s.stage[Waiting(s.queue, c)[0] := Taken(s.sched.current)]
    requires s'.pc == s.pc[s.sched.current := Signalling(Waiting(s.queue, c)[0], more)]
    ensures StageOk(s'.pc, s'.queue, s'.stage, p)
  {
    var q := Waiting(s.queue, c);
    if p != q[0] && s.stage[p] == InList(c) {
      var k :| 0 <= k < |q| && q[k] == p;
      assert q[1..][k - 1] == p;
    }
  }

  /** Only the waiter sleeps on a private semaphore. */
  lemma OneSleeper(s: State, p: nat)
    requires SchedInv(s) && CondInv(s)
    ensures |Waiters(s, Private(p))| <= 1
  {
    hide NoDuplicates;
    var list := Waiters(s, Private(p));
    assert ListOk(Asleep(s.sched), s.pc, list, Private(p));
    forall j, k | 0 <= j < |list| && 0 <= k < |list|
      ensures list[j] == list[k]
    {
      assert WaitsOn(s.pc[list[j]]) == Some(p) && WaitsOn(s.pc[list[k]]) == Some(p);
    }
    if |list| > 1 {
      FirstTwo(list);
    }
  }

  lemma FirstTwo(list: seq<Tid>)
    requires NoDuplicates(list) && |list| > 1
    ensures list[0] != list[1]
  {
  }

  /** The signalled waiter's semaphore is upped, for the only time. */
  lemma CondUp(s: State, s': State, p: nat)
    requires SchedInv(s) && CondInv(s) && s.sched.current in s.pc && Mine(s).Signalling? && Mine(s).p == p
    requires s'.queue == s.queue && s'.next == s.next && s'.downs == s.downs && s'.stage == s.stage[p := Upped]
             && s'.init == s.init
    requires s.sched.current in s'.pc && Private(p) in s'.semas
             && s'.pc == s.pc[s.sched.current := s'.pc[s.sched.current]]
    requires !s'.pc[s.sched.current].Signalling? && WaitsOn(s'.pc[s.sched.current]) == None
    requires s'.ups == s.ups[Private(p) := Count(s.ups, Private(p)) + 1]
    requires s'.semas == s.semas[Private(p) := s'.semas[Private(p)]]
    requires s'.semas[Private(p)].waiters == if Waiters(s, Private(p)) == [] then [] else Waiters(s, Private(p))[1..]
    ensures CondInv(s')
  {
    hide SchedInv, QueueOk;
    var cur := s.sched.current;
    OneSleeper(s, p);
    assert PcOk(s.pc[cur], cur, s.stage, s.next, s.downs);
    forall q | 0 <= q < s'.next
      ensures StageOk(s'.pc, s'.queue, s'.stage, q)
    {
      assert StageOk(s.pc, s.queue, s.stage, q);
    }
    forall u | u in s'.pc
      ensures PcOk(s'.pc[u], u, s'.stage, s'.next, s'.downs)
    {
      assert PcOk(s.pc[u], u, s.stage, s.next, s.downs);
    }
    forall q | 0 <= q
      ensures PrivateOk(Waiters(s', Private(q)), s'.stage, s'.next, s'.ups, s'.downs, q)
    {
      assert PrivateOk(Waiters(s, Private(q)), s.stage, s.next, s.ups, s.downs, q);
    }
    forall c
      ensures QueueOk(s'.queue, s'.stage, s'.next, c)
    {
      QueueUpped(s, p, c);
    }
  }

  lemma QueueUpped(s: State, p: nat, c: nat)
    requires QueueOk(s.queue, s.stage, s.next, c) && p in s.stage && !s.stage[p].InList?
    ensures QueueOk(s.queue, s.stage[p := Upped], s.next, c)
  {
  }

  /** A waiter downs its private semaphore, or goes to sleep on it; it cannot
      have been upped in the latter case. */
  lemma CondDown(s: State, p: nat)
    requires SchedInv(s) && CondInv(s) && s.sched.current in s.pc && DownId(Mine(s)) == Some(Private(p))
    requires Balance(s.semas, s.init, s.ups, s.downs)
    ensures CondInv(SemaDown(s, Private(p)))
  {
    hide SchedInv, CondInv, Balance, SemaSleep, SemaTake, Value;
    if Value(s, Private(p)) == 0 {
      CondSleep(s, p);
    } else {
      CondTaken(s, p);
    }
  }

  lemma CondSleep(s: State, p: nat)
    requires CondInv(s) && s.sched.current in s.pc && DownId(Mine(s)) == Some(Private(p)) && Value(s, Private(p)) == 0
    requires Balance(s.semas, s.init, s.ups, s.downs)
    ensures CondInv(SemaSleep(s, Private(p)))
  {
    var cur, s' := s.sched.current, SemaSleep(s, Private(p));
    assert Balanced(Get(s.semas, s.init, Private(p)), 0, Count(s.ups, Private(p)), Count(s.downs, Private(p)));
    hide SemaSleep, QueueOk, StageOk, Waiting, Waiters, Count;
    SleepValues(s, Private(p));
    SleepLists(s, Private(p));
    assert PcOk(s.pc[cur], cur, s.stage, s.next, s.downs);
    forall q | 0 <= q
      ensures PrivateOk(Waiters(s', Private(q)), s'.stage, s'.next, s'.ups, s'.downs, q)
    {
      assert PrivateOk(Waiters(s, Private(q)), s.stage, s.next, s.ups, s.downs, q);
    }
  }

  lemma CondTaken(s: State, p: nat)
    requires CondInv(s) && s.sched.current in s.pc && DownId(Mine(s)) == Some(Private(p)) && Value(s, Private(p)) > 0
    ensures CondInv(SetPc(SemaTake(s, Private(p)), AfterDown(Mine(s))))
  {
    hide SemaTake, QueueOk, Waiting;
    var cur, s1 := s.sched.current, SemaTake(s, Private(p));
    var s' := SetPc(s1, AfterDown(Mine(s)));
    TakeValues(s, Private(p));
    TakeLists(s, Private(p));
    SameLists(s1, s');
    hide Waiters, Value;
    assert PcOk(s.pc[cur], cur, s.stage, s.next, s.downs);
    forall q | 0 <= q < s'.next
      ensures StageOk(s'.pc, s'.queue, s'.stage, q)
    {
      assert StageOk(s.pc, s.queue, s.stage, q);
    }
    forall u | u in s'.pc
      ensures PcOk(s'.pc[u], u, s'.stage, s'.next, s'.downs)
    {
      assert PcOk(s.pc[u], u, s.stage, s.next, s.downs);
    }
    forall q | 0 <= q
      ensures PrivateOk(Waiters(s', Private(q)), s'.stage, s'.next, s'.ups, s'.downs, q)
    {
      assert PrivateOk(Waiters(s, Private(q)), s.stage, s.next, s.ups, s.downs, q);
    }
    forall c
      ensures QueueOk(s'.queue, s'.stage, s'.next, c)
    {
      assert QueueOk(s.queue, s.stage, s.next, c);
    }
  }

  lemma SameLists(s: State, s': State)
    requires s'.semas == s.semas && s'.init == s.init
    ensures forall i :: Waiters(s', i) == Waiters(s, i)
  {
  }

  /** Operations on other semaphores do not concern condition variables. */
  lemma NotPrivate(s: State, id: SemaId)
    requires !id.Private?
    ensures SameConds(s, SemaUp(s, id))
    ensures Value(s, id) > 0 ==> SameConds(s, SemaTake(s, id))
    ensures SameConds(s, SemaDown(s, id))
  {
    hide SameConds, SemaUp, SemaTake, SemaDown, Value;
    NotPrivateUp(s, id);
    if Value(s, id) > 0 { NotPrivateTake(s, id); }
    NotPrivateDown(s, id);
  }

  lemma NotPrivateUp(s: State, id: SemaId)
    requires !id.Private?
    ensures SameConds(s, SemaUp(s, id))
  {
    hide SameConds, Get, Unblock;
    OtherSema(s, SemaUp(s, id), id);
  }

  lemma NotPrivateTake(s: State, id: SemaId)
    requires !id.Private? && Value(s, id) > 0
    ensures SameConds(s, SemaTake(s, id))
  {
    hide SameConds, Get;
    OtherSema(s, SemaTake(s, id), id);
  }

  lemma NotPrivateDown(s: State, id: SemaId)
    requires !id.Private?
    ensures SameConds(s, SemaDown(s, id))
  {
    hide SameConds, SemaSleep, SemaTake, Value;
    if Value(s, id) == 0 {
      NotPrivateSleep(s, id);
    } else {
      NotPrivateTake(s, id);
      SameAfter(s, SemaTake(s, id), SemaDown(s, id));
    }
  }

  lemma NotPrivateSleep(s: State, id: SemaId)
    requires !id.Private?
    ensures SameConds(s, SemaSleep(s, id))
  {
    hide SameConds, Get, Block;
    OtherSema(s, SemaSleep(s, id), id);
  }

  lemma OtherSema(s: State, s': State, id: SemaId)
    requires !id.Private? && s'.queue == s.queue && s'.stage == s.stage && s'.next == s.next && s'.init == s.init
    requires id in s'.semas ==> s'.semas == s.semas[id := s'.semas[id]]
    requires id !in s'.semas ==> s'.semas == s.semas
    requires s'.ups == s.ups || s'.ups == s.ups[id := Count(s.ups, id) + 1]
    requires s'.downs == s.downs || s'.downs == s.downs[id := Count(s.downs, id) + 1]
    ensures SameConds(s, s')
  {
  }

  lemma CondStep(s: State, a: Action)
    requires SchedInv(s) && CondInv(s) && Balance(s.semas, s.init, s.ups, s.downs) && Enabled(s, a)
    ensures CondInv(Step(s, a))
  {
    hide SchedInv, CondInv, Balance, Step;
    CurrentAwake(s);
    if UsesSema(a) {
      CondSemaStep(s, a);
    } else if Switches(a) {
      CondSwitch(s, a);
    } else {
      CondOtherStep(s, a);
    }
  }

  lemma CondSemaStep(s: State, a: Action)
    requires SchedInv(s) && CondInv(s) && Balance(s.semas, s.init, s.ups, s.downs) && Enabled(s, a) && UsesSema(a)
    requires s.sched.current in s.pc
    ensures CondInv(Step(s, a))
  {
    hide SchedInv, CondInv, Balance, SemaUp, SemaTake, SemaDown, SameConds, Value;
    var cur, mine, s' := s.sched.current, Mine(s), Step(s, a);
    match a {
      case DownTurn => CondDownTurn(s, DownId(mine).value);
      case TryDown(n) =>
        NotPrivate(s, Plain(n));
        OtherValues(s, Plain(n));
        if Value(s, Plain(n)) > 0 {
          SameAfter(s, SemaTake(s, Plain(n)), s');
          CondPc(s, s', cur);
        }
      case Up(n) =>
        NotPrivate(s, Plain(n));
        OtherValues(s, Plain(n));
        CondPc(s, s', cur);
      case TryAcquire(l) =>
        NotPrivate(s, LockSema(l));
        OtherValues(s, LockSema(l));
        if Value(s, LockSema(l)) > 0 {
          SameAfter(s, SemaTake(s, LockSema(l)), s');
          CondPc(s, s', cur);
        }
      case UnlockUp =>
        NotPrivate(s, LockSema(mine.l));
        OtherValues(s, LockSema(mine.l));
        SameAfter(s, SemaUp(s, LockSema(mine.l)), s');
        CondPc(s, s', cur);
      case SignalUp =>
        OtherValues(s, Private(mine.p));
        UpList(s, Private(mine.p));
        CondUp(s, s', mine.p);
    }
  }

  lemma UpList(s: State, id: SemaId)
    ensures id in SemaUp(s, id).semas && SemaUp(s, id).semas == s.semas[id := SemaUp(s, id).semas[id]]
    ensures SemaUp(s, id).semas[id].waiters == if Waiters(s, id) == [] then [] else Waiters(s, id)[1..]
  {
  }

  lemma SameAfter(s: State, s1: State, s': State)
    requires SameConds(s, s1)
    requires s'.queue == s1.queue && s'.stage == s1.stage && s'.next == s1.next && s'.init == s1.init
    requires s'.semas == s1.semas && s'.ups == s1.ups && s'.downs == s1.downs
    ensures SameConds(s, s')
  {
    forall p | 0 <= p
      ensures SamePrivate(s, s', p)
    {
      assert SamePrivate(s, s1, p);
    }
  }

  lemma CondDownTurn(s: State, id: SemaId)
    requires SchedInv(s) && CondInv(s) && Balance(s.semas, s.init, s.ups, s.downs) && s.sched.current in s.pc
    requires DownId(Mine(s)) == Some(id)
    ensures CondInv(SemaDown(s, id))
  {
    hide SchedInv, CondInv, Balance, SameConds, Value, SemaSleep, SemaTake;
    if id.Private? {
      CondDown(s, id.p);
    } else {
      NotPrivate(s, id);
      if Value(s, id) == 0 {
        SleepValues(s, id);
      } else {
        TakeValues(s, id);
      }
      CondPc(s, SemaDown(s, id), s.sched.current);
    }
  }

  lemma CondSwitch(s: State, a: Action)
    requires CondInv(s) && Enabled(s, a) && Switches(a) && s.sched.current in s.pc
    ensures CondInv(Step(s, a))
  {
    hide CondInv, Get, Block, Unblock, Exit, Yield, Tick, Create;
    var cur, s' := s.sched.current, Step(s, a);
    match a {
      case New(t) => WaitersKept(s, s'); CondPc(s, s', t);
      case Start(t) => WaitersKept(s, s'); CondPc(s, s', t);
      case Leave => WaitersKept(s, s'); CondPc(s, s', cur);
      case GiveWay => WaitersKept(s, s'); CondPc(s, s', cur);
      case TimerTick => WaitersKept(s, s'); CondPc(s, s', cur);
      case IdleBlock => WaitersKept(s, s'); CondPc(s, s', cur);
    }
  }

  lemma CondOtherStep(s: State, a: Action)
    requires CondInv(s) && Enabled(s, a) && !UsesSema(a) && !Switches(a) && s.sched.current in s.pc
    ensures CondInv(Step(s, a))
  {
    hide CondInv, Get, Waiting, TakeWaiter;
    match a {
      case Wait(c) => CondWait(s, c);
      case Signal(c) => if Waiting(s.queue, c) != [] { CondTake(s, c, None); }
      case BroadcastTurn =>
        if Waiting(s.queue, Mine(s).c) == [] { CondPcStep(s, a); } else { CondTake(s, Mine(s).c, Some(Mine(s).c)); }
      case _ => CondPcStep(s, a);
    }
  }

  lemma CondPcStep(s: State, a: Action)
    requires CondInv(s) && Enabled(s, a) && !UsesSema(a) && !Switches(a) && s.sched.current in s.pc
    requires !a.Wait? && !a.Signal? && (a.BroadcastTurn? ==> Waiting(s.queue, Mine(s).c) == [])
    ensures CondInv(Step(s, a))
  {
    hide CondInv, Get, Waiting, TakeWaiter;
    var s' := Step(s, a);
    WaitersKept(s, s');
    CondPc(s, s', s.sched.current);
  }

  // ----- whole runs

  ghost predicate Inv(s: State) {
    && SchedInv(s) && LockInv(s) && CondInv(s)
    && WakeInv(s.pc, s.semas, s.init, s.woken)
    && Balance(s.semas, s.init, s.ups, s.downs)
  }

  /** Only the initial thread runs, the idle thread sleeps, and nobody has used
      a semaphore; those of the plain ones have any initial values. */
  ghost predicate Begins(s: State) {
    && s.sched.idle != s.sched.initial
    && s.sched == Sched(map[s.sched.initial := Threads.Running, s.sched.idle := Blocked], s.sched.initial, [], 0,
        s.sched.idle, s.sched.initial)
    && s.pc == map[s.sched.initial := Outside, s.sched.idle := Outside]
    && s.semas == map[] && s.woken == {} && s.holder == map[] && s.queue == map[] && s.stage == map[] && s.next == 0
    && s.ups == map[] && s.downs == map[]
  }

  lemma BeginInv(s: State)
    requires Begins(s)
    ensures Inv(s)
  {
    hide SchedInv, LockInv, CondInv, WakeInv, Balance, Begins;
    BeginSched(s);
    BeginLocks(s);
    BeginConds(s);
  }

  lemma BeginSched(s: State)
    requires Begins(s)
    ensures SchedInv(s)
  {
    assert Asleep(s.sched) == {};
    assert Ok(s.sched);
  }

  lemma BeginLocks(s: State)
    requires Begins(s)
    ensures LockInv(s) && WakeInv(s.pc, s.semas, s.init, s.woken) && Balance(s.semas, s.init, s.ups, s.downs)
  {
    forall id
      ensures Get(s.semas, s.init, id) == Sema(Initial(s.init, id), [])
    {
    }
  }

  lemma BeginConds(s: State)
    requires Begins(s)
    ensures CondInv(s)
  {
  }

  lemma StepInv(s: State, a: Action)
    requires Inv(s) && Enabled(s, a)
    ensures Inv(Step(s, a))
  {
    hide SchedInv, LockInv, CondInv, WakeInv, Balance, Step, Enabled;
    SchedStep(s, a);
    LockStep(s, a);
    CondStep(s, a);
    WakeStep(s, a);
    BalanceStep(s, a);
  }

  ghost predicate Steps(run: seq<State>, actions: seq<Action>) {
    && |run| == |actions| + 1
    && forall i :: 0 <= i < |actions| ==> Enabled(run[i], actions[i]) && run[i + 1] == Step(run[i], actions[i])
  }

  /** Every state of every run satisfies the invariant. */
  lemma {:induction false} RunInv(run: seq<State>, actions: seq<Action>, i: nat)
    requires Steps(run, actions) && Begins(run[0]) && i < |run|
    ensures Inv(run[i])
  {
    hide Inv, Step, Begins, Enabled;
    if i == 0 {
      BeginInv(run[0]);
    } else {
      RunInv(run, actions, i - 1);
      var j := i - 1;
      assert Enabled(run[j], actions[j]) && run[j + 1] == Step(run[j], actions[j]);
      StepInv(run[j], actions[j]);
    }
  }

  /** The states of all runs. */
  ghost predicate Reachable(s: State) {
    exists run: seq<State>, actions: seq<Action> :: Steps(run, actions) && Begins(run[0]) && run[|run| - 1] == s
  }

  lemma ReachableInv(s: State)
    requires Reachable(s)
    ensures Inv(s)
  {
    hide Inv, Step, Begins, Enabled;
    var run: seq<State>, actions: seq<Action> :| Steps(run, actions) && Begins(run[0]) && run[|run| - 1] == s;
    RunInv(run, actions, |run| - 1);
  }

  // ----- what the invariant gives, in every state of a run

  /** Nobody sleeps on a semaphore without reason: each unit of a positive
      value has a thread of its own that is awake and about to take it. */
  lemma NoLostWakeup(s: State, id: SemaId)
    requires Reachable(s) && Waiters(s, id) != []
    ensures Value(s, id) <= |WokenFor(s.pc, s.woken, id)|
    ensures forall t :: t in WokenFor(s.pc, s.woken, id) ==>
              t in s.pc && DownId(s.pc[t]) == Some(id) && t !in Asleep(s.sched)
    ensures Value(s, id) > 0 ==> exists t :: t in s.pc && DownId(s.pc[t]) == Some(id) && t !in Asleep(s.sched)
  {
    ReachableInv(s);
    assert Enough(s.pc, s.woken, Get(s.semas, s.init, id), id);
    forall t | t in WokenFor(s.pc, s.woken, id)
      ensures t !in Asleep(s.sched)
    {
      assert WokenOk(Asleep(s.sched), s.pc, t);
    }
    if Value(s, id) > 0 {
      var t :| t in WokenFor(s.pc, s.woken, id);
    }
  }

  lemma Conservation(s: State, id: SemaId)
    requires Reachable(s)
    ensures Value(s, id) + Count(s.downs, id) == Initial(s.init, id) + Count(s.ups, id)
  {
    ReachableInv(s);
    assert Balanced(Get(s.semas, s.init, id), Initial(s.init, id), Count(s.ups, id), Count(s.downs, id));
  }

  /** A waiting thread is blocked, on one list only, and so not ready. */
  lemma OneList(s: State, t: Tid, id: SemaId, id': SemaId)
    requires Reachable(s) && t in Waiters(s, id)
    ensures t in s.sched.status && s.sched.status[t] == Blocked && t !in s.sched.ready
    ensures t in Waiters(s, id') ==> id' == id
  {
    ReachableInv(s);
    var list := Waiters(s, id);
    var k :| 0 <= k < |list| && list[k] == t;
    assert ListOk(Asleep(s.sched), s.pc, list, id);
    if t in Waiters(s, id') {
      var j :| 0 <= j < |Waiters(s, id')| && Waiters(s, id')[j] == t;
      assert ListOk(Asleep(s.sched), s.pc, Waiters(s, id'), id');
    }
    forall j | 0 <= j < |s.sched.ready|
      ensures s.sched.ready[j] != t
    {
      assert IsReady(s.sched, s.sched.ready[j]);
    }
  }

  /** At most one thread is between its sema_down and its sema_up on a lock, and
      the lock can be taken exactly when none is. The threads in cond_wait before
      its lock_release and in cond_broadcast hold the lock, and the threads that
      are acquiring it or will acquire it again in cond_wait do not, as is
      asserted there. */
  lemma MutualExclusion(s: State, l: nat, t: Tid, u: Tid)
    requires Reachable(s)
    ensures Inside(s.pc, s.holder, t, l) && Inside(s.pc, s.holder, u, l) ==> t == u
    ensures Value(s, LockSema(l)) == 1 <==> forall v :: !Inside(s.pc, s.holder, v, l)
    ensures Value(s, LockSema(l)) <= 1
    ensures t in s.pc && Needs(s.pc[t], s.lockOf) == Some(l) ==> l in s.holder && s.holder[l] == t
    ensures t in s.pc && Awaits(s.pc[t]) == Some(l) ==> !(l in s.holder && s.holder[l] == t)
  {
    ReachableInv(s);
    assert LockOk(s.pc, s.holder, Value(s, LockSema(l)), l);
    assert t in s.pc ==> NeedsOk(s.pc, s.holder, s.lockOf, t);
  }

  /** A thread in cond_wait is either still in the list, or its signal is on
      the way, or its semaphore has been upped, once, and then it is not asleep
      and will not go to sleep: its sema_down finds the value 1. */
  lemma SignalNotLost(s: State, t: Tid, p: nat)
    requires Reachable(s) && t in s.pc && WaitsOn(s.pc[t]) == Some(p)
    ensures p in s.stage
    ensures match s.stage[p]
            case InList(c) => p in Waiting(s.queue, c) && Count(s.ups, Private(p)) == 0
            case Taken(u) => u in s.pc && s.pc[u].Signalling? && s.pc[u].p == p && Count(s.ups, Private(p)) == 0
            case Upped => Value(s, Private(p)) == 1 && t !in Asleep(s.sched) && Count(s.ups, Private(p)) == 1
  {
    hide LockInv;
    ReachableInv(s);
    assert PcOk(s.pc[t], t, s.stage, s.next, s.downs);
    assert StageOk(s.pc, s.queue, s.stage, p);
    assert PrivateOk(Waiters(s, Private(p)), s.stage, s.next, s.ups, s.downs, p);
    Conservation(s, Private(p));
    if t in Asleep(s.sched) {
      assert SleeperOk(s.pc, s.semas, s.init, t);
    }
  }

  lemma UppedAtMostOnce(s: State, p: nat)
    requires Reachable(s)
    ensures Count(s.ups, Private(p)) <= 1
  {
    ReachableInv(s);
    assert PrivateOk(Waiters(s, Private(p)), s.stage, s.next, s.ups, s.downs, p);
  }

  /** A signal goes to the thread that has waited longest: the numbers of the
      private semaphores are in the order of the cond_wait calls. */
  lemma LongestWaiting(s: State, c: nat, more: Option<nat>)
    requires Reachable(s) && Waiting(s.queue, c) != []
    ensures var s' := TakeWaiter(s, c, more); var p := Waiting(s.queue, c)[0];
            && Mine(s') == Signalling(p, more)
            && Waiting(s.queue, c) == [p] + Waiting(s'.queue, c)
            && forall q :: q in Waiting(s'.queue, c) ==> p < q
  {
    ReachableInv(s);
    assert QueueOk(s.queue, s.stage, s.next, c);
  }

  /** Each step of the machine moves the ready list as the scheduler does, so
      Threads.BoundedWaiting holds of its runs. */
  ghost predicate CallsSchedule(s: State, a: Action) {
    match a
    case DownTurn => DownId(Mine(s)).Some? && Value(s, DownId(Mine(s)).value) == 0
    case Leave => true
    case GiveWay => true
    case IdleBlock => true
    case TimerTick => s.sched.ticks + 1 >= SLICE
    case _ => false
  }

  lemma StepMoves(s: State, a: Action)
    requires Enabled(s, a)
    ensures Moves(s.sched, Step(s, a).sched, CallsSchedule(s, a))
  {
    hide Moves, Step, CallsSchedule;
    if UsesSema(a) {
      SemaMoves(s, a);
    } else if Switches(a) {
      SwitchMoves(s, a);
    } else {
      OtherMoves(s, a);
    }
  }

  lemma SemaMoves(s: State, a: Action)
    requires Enabled(s, a) && UsesSema(a)
    ensures Moves(s.sched, Step(s, a).sched, CallsSchedule(s, a))
  {
    hide Moves, Block, SemaUp;
    StayMoves(s.sched);
    match a {
      case DownTurn => RoutinesMove(s.sched, s.sched.current);
      case Up(n) => UpMoves(s, Plain(n));
      case UnlockUp => UpMoves(s, LockSema(Mine(s).l));
      case SignalUp => UpMoves(s, Private(Mine(s).p));
      case TryDown(n) =>
      case TryAcquire(l) =>
    }
  }

  lemma SwitchMoves(s: State, a: Action)
    requires Enabled(s, a) && Switches(a)
    ensures Moves(s.sched, Step(s, a).sched, CallsSchedule(s, a))
  {
    hide Moves, Block, Unblock, Exit, Yield, Tick, Create;
    match a {
      case New(t) => RoutinesMove(s.sched, t);
      case Start(t) => RoutinesMove(s.sched, t);
      case Leave => RoutinesMove(s.sched, s.sched.current);
      case GiveWay => RoutinesMove(s.sched, s.sched.current);
      case TimerTick => RoutinesMove(s.sched, s.sched.current);
      case IdleBlock => RoutinesMove(s.sched, s.sched.current);
    }
  }

  lemma OtherMoves(s: State, a: Action)
    requires Enabled(s, a) && !UsesSema(a) && !Switches(a)
    ensures Moves(s.sched, Step(s, a).sched, CallsSchedule(s, a))
  {
    hide Moves;
    StayMoves(s.sched);
    match a {
      case StartDown(n) =>
      case StartAcquire(l) =>
      case SetHolder =>
      case StartRelease(l) =>
      case Wait(c) =>
      case WaitRelease =>
      case Signal(c) =>
      case Broadcast(c) =>
      case BroadcastTurn =>
    }
  }

  lemma StayMoves(s: Sched)
    ensures Moves(s, s, false)
  {
    assert MovesBy(s, s, false, []);
  }

  lemma UpMoves(s: State, id: SemaId)
    ensures Moves(s.sched, SemaUp(s, id).sched, false)
  {
    StayMoves(s.sched);
    if Waiters(s, id) != [] {
      RoutinesMove(s.sched, Waiters(s, id)[0]);
    }
  }

  /** From any state on, a thread at position k of the ready list runs after at
      most k + 1 calls of schedule. */
  lemma ReadyThreadsRun(run: seq<State>, actions: seq<Action>, calls: seq<bool>, k: nat)
    requires Steps(run, actions) && |calls| == |actions| && forall i :: 0 <= i < |calls| ==>
               (calls[i] <==> CallsSchedule(run[i], actions[i]))
    requires k < |run[0].sched.ready| && Threads.Count(calls) >= k + 1
    ensures exists i ::
              0 < i < |run| && run[i].sched.current == run[0].sched.ready[k] && Threads.Count(calls[..i]) <= k + 1
  {
    hide Step, Enabled, CallsSchedule, Moves;
    var scheds := seq(|run|, i requires 0 <= i < |run| => run[i].sched);
    forall i | 0 <= i < |calls|
      ensures Moves(scheds[i], scheds[i + 1], calls[i])
    {
      assert Enabled(run[i], actions[i]) && run[i + 1] == Step(run[i], actions[i]);
      StepMoves(run[i], actions[i]);
    }
    BoundedWaiting(scheds, calls, k);
    var i :| 0 < i < |scheds| && scheds[i].current == scheds[0].ready[k] && Threads.Count(calls[..i]) <= k + 1;
    assert run[i].sched.current == run[0].sched.ready[k];
  }

  // ----- synch.c

  /** What Up asks of the waiters holds in every state of a run. */
  lemma WaitersAsleep(s: State, id: SemaId)
    requires Reachable(s) && Waiters(s, id) != []
    ensures Waiters(s, id)[0] in Asleep(s.sched)
  {
    ReachableInv(s);
    assert ListOk(Asleep(s.sched), s.pc, Waiters(s, id), id);
  }

  class Semaphore {
    var value: nat
    var waiters: seq<Tid>

    constructor (value: nat)
      ensures Now() == Sema(value, [])
    {
      this.value, waiters := value, [];
    }

    function Now(): Sema
      reads this
    {
      Sema(value, waiters)
    }

    /** One turn of sema_down's loop: down tells whether it was the last. */
    method DownTurn(sched: Scheduler) returns (down: bool)
      requires Ok(sched.State())
      modifies this, sched
      ensures down <==> old(value) > 0
      ensures if down then old(value) > 0 && Now() == Lowered(old(Now())) && sched.State() == old(sched.State())
              else Now() == Awaited(old(Now()), old(sched.current)) && sched.State() == Block(old(sched.State()))
    {
      if value == 0 {
        waiters := waiters + [sched.current];
        sched.ThreadBlock();
        return false;
      }
      value := value - 1;
      down := true;
    }

    method TryDown() returns (success: bool)
      modifies this
      ensures success <==> old(value) > 0
      ensures if success then old(value) > 0 && Now() == Lowered(old(Now())) else Now() == old(Now())
    {
      if value > 0 {
        value := value - 1;
        success := true;
      } else {
        success := false;
      }
    }

    method Up(sched: Scheduler)
      requires Ok(sched.State())
      requires waiters != [] ==> waiters[0] in Asleep(sched.State())
      modifies this, sched
      ensures Now() == Raised(old(Now()))
      ensures sched.State() == if old(waiters) == [] then old(sched.State())
              else Unblock(old(sched.State()), old(waiters)[0])
    {
      if waiters != [] {
        sched.ThreadUnblock(waiters[0]);
        waiters := waiters[1..];
      }
      value := value + 1;
    }
  }
}
