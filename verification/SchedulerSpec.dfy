/** The user-level scheduler as a step machine: what each library call and each clock tick does to
    the threads, the run tree, the sleep tree, the queues, the mutexes and the monitors. A step
    without a result ends the process: there is no thread left to switch to. */
module SchedulerSpec {
  import opened Wrappers
  import opened RedBlackOrder

  type Tid = nat

  const MIN_DELAY := 5
  const CLOCK_TICK := 10000

  /** Where a thread goes on when it is switched back in: at its first instruction, in the tail of
      the dispatcher, at the end of a library call, or in the second half of a monitor wait. */
  datatype Resume = Start | Tail | Call | Window

  /** A thread. The last four fields record history for the properties: the mutex that a lock or
      wait in progress will own on return, the mutexes held since a lock or wait returned, the
      virtual runtime at creation, and whether the weight is still the one from creation. */
  datatype Thread = Thread(
    vruntime: int, exectime: nat, priority: int, nice: int, times: nat, wake: nat, joinTid: nat, resume: Resume,
    pending: Option<nat>, inside: set<nat>, base: int, fixedWeight: bool)
  {
    function Weight(): int { nice + priority }

    function Charged(): Thread {
      this.(vruntime := vruntime + Weight() * times, times := 0)
    }
  }

  /** A mutex, with the history of arrivals at its queue and of grants. */
  datatype Mutex = Mutex(owner: Option<Tid>, fila: seq<Tid>, arrivals: seq<Tid>, grants: seq<Tid>)

  datatype Monitor = Monitor(mutex: nat, fila: seq<Tid>)

  datatype State = State(
    thr: map<Tid, Thread>, active: Tid, exe: seq<Item>, sleep: seq<Item>,
    join: seq<Tid>, zombie: seq<Tid>, dead: seq<Tid>,
    mutexes: seq<Mutex>, monitors: seq<Monitor>, clock: nat, tidGen: nat)

  datatype Op =
    | Create(priority: int) | Tick | Yield | Exit | Join(target: Tid) | Sleep(time: int) | Nice(n: int)
    | MutexInit | MonitorInit | Lock(m: nat) | Unlock(m: nat) | Wait(mon: nat) | Signal(mon: nat) | SignalAll(mon: nat)

  // ---------- Pieces of steps ----------

  function NewThread(vruntime: int, priority: int): Thread {
    Thread(vruntime, 0, if priority > 10 then 10 else if priority < 1 then 1 else priority,
           0, 0, 0, 0, Start, None, {}, vruntime, true)
  }

  function Me(s: State): Thread
    requires s.active in s.thr
  {
    s.thr[s.active]
  }

  function SetMe(s: State, th: Thread): State {
    s.(thr := s.thr[s.active := th])
  }

  function SetResume(s: State, r: Resume): State
    requires s.active in s.thr
  {
    SetMe(s, Me(s).(resume := r))
  }

  function ItemOf(s: State, t: Tid): Item
    requires t in s.thr
  {
    Item(s.thr[t].vruntime, t, t)
  }

  /** Puts a thread in the run tree under its virtual runtime. */
  function Put(s: State, t: Tid): State
    requires t in s.thr
  {
    s.(exe := Insere(s.exe, ItemOf(s, t)))
  }

  /** The least key of the run tree, which a new thread starts from. */
  function MinKey(s: State): int {
    if s.exe == [] then 0 else s.exe[0].chave
  }

  /** The thread with the least virtual runtime becomes active. */
  function Extract(s: State): State
    requires s.exe != []
  {
    s.(active := s.exe[0].elem, exe := s.exe[1..])
  }

  /** The tail of the dispatcher: the clock advances, and five uncharged ticks are charged. */
  function RunTail(s: State): State
    requires s.active in s.thr
  {
    var s1 := s.(clock := s.clock + 1);
    if Me(s).times < MIN_DELAY then s1 else SetMe(s1, Me(s1).Charged())
  }

  /** A lock or wait that was in progress returns. */
  function Returned(s: State): State
    requires s.active in s.thr
  {
    var th := Me(s);
    SetMe(s, th.(resume := Call, pending := None,
                 inside := if th.pending.Some? then th.inside + {th.pending.value} else th.inside))
  }

  predicate ItemsKnown(ids: set<Tid>, q: seq<Item>) {
    forall i :: 0 <= i < |q| ==> q[i].elem in ids
  }

  predicate QueueKnown(ids: set<Tid>, q: seq<Tid>) {
    forall x :: x in q ==> x in ids
  }

  predicate KnownThreads(s: State) {
    s.active in s.thr && ItemsKnown(s.thr.Keys, s.exe)
  }

  lemma InsereKnown(ids: set<Tid>, q: seq<Item>, it: Item)
    requires ItemsKnown(ids, q) && it.elem in ids
    ensures ItemsKnown(ids, Insere(q, it))
  {
  }

  /** The active thread goes on where it was suspended. In the second half of a wait it hands the
      processor on at once. */
  function Resumed(s: State): Option<State>
    requires KnownThreads(s)
    decreases |s.exe|
  {
    match Me(s).resume
    case Start => Some(Returned(s))
    case Call => Some(Returned(s))
    case Tail => Some(RunTail(Returned(s)))
    case Window => if s.exe == [] then None else Resumed(Extract(SetResume(s, Call)))
  }

  /** Leaves the active thread where it was put and runs the next one. */
  function Switch(s: State): Option<State>
    requires KnownThreads(s)
  {
    if s.exe == [] then None else Resumed(Extract(s))
  }

  // ---------- Steps ----------

  function CreateStep(s: State, priority: int): State
    requires KnownThreads(s)
  {
    var t := s.tidGen;
    Put(s.(thr := s.thr[t := NewThread(MinKey(s), priority)], tidGen := t + 1), t)
  }

  /** Sleepers whose time has come move to the run tree, earliest first. */
  function WakeAll(s: State): State
    requires KnownThreads(s) && ItemsKnown(s.thr.Keys, s.sleep)
    ensures WakeAll(s) == s.(thr := WakeAll(s).thr, exe := WakeAll(s).exe, sleep := WakeAll(s).sleep)
    ensures WakeAll(s).thr.Keys == s.thr.Keys && KnownThreads(WakeAll(s))
    decreases |s.sleep|
  {
    if s.sleep == [] || s.sleep[0].chave > s.clock then s
    else
      var t := s.sleep[0].elem;
      WakeAll(Put(s.(thr := s.thr[t := s.thr[t].(wake := 0)], sleep := s.sleep[1..]), t))
  }

  function TickStep(s: State): Option<State>
    requires KnownThreads(s) && ItemsKnown(s.thr.Keys, s.sleep)
  {
    var s1 := SetMe(s, Me(s).(times := Me(s).times + 1, exectime := Me(s).exectime + 1));
    var s2 := WakeAll(s1);
    if Me(s2).vruntime + Me(s2).Weight() * Me(s2).times >= MinKey(s2) then
      Switch(Put(SetResume(s2, Tail), s2.active))
    else
      Some(RunTail(s2))
  }

  function YieldStep(s: State): Option<State>
    requires KnownThreads(s)
  {
    Switch(Put(SetResume(s, Call), s.active))
  }

  /** The joiners of `t`, in queue order, and the rest of the queue. */
  function Joiners(s: State, q: seq<Tid>, t: Tid): seq<Tid>
    requires QueueKnown(s.thr.Keys, q)
  {
    if q == [] then [] else (if s.thr[q[0]].joinTid == t then [q[0]] else []) + Joiners(s, q[1..], t)
  }

  function NonJoiners(s: State, q: seq<Tid>, t: Tid): seq<Tid>
    requires QueueKnown(s.thr.Keys, q)
  {
    if q == [] then [] else (if s.thr[q[0]].joinTid == t then [] else [q[0]]) + NonJoiners(s, q[1..], t)
  }

  function PutAll(s: State, q: seq<Tid>): State
    requires KnownThreads(s) && QueueKnown(s.thr.Keys, q)
    ensures PutAll(s, q) == s.(exe := PutAll(s, q).exe) && KnownThreads(PutAll(s, q))
    decreases |q|
  {
    if q == [] then s else PutAll(Put(s, q[0]), q[1..])
  }

  lemma Dealt(h: Tid, a: seq<Tid>, b: seq<Tid>, q: seq<Tid>)
    requires multiset(a) + multiset(b) == multiset(q)
    ensures multiset([h] + a) + multiset(b) == multiset([h] + q) && multiset(a) + multiset([h] + b) == multiset([h] + q)
  {
  }

  lemma {:induction false} JoinersOf(s: State, q: seq<Tid>, t: Tid)
    requires QueueKnown(s.thr.Keys, q)
    ensures forall x :: x in Joiners(s, q, t) <==> x in q && s.thr[x].joinTid == t
    ensures forall x :: x in NonJoiners(s, q, t) <==> x in q && s.thr[x].joinTid != t
  {
    if q != [] {
      JoinersOf(s, q[1..], t);
      assert q == [q[0]] + q[1..];
    }
  }

  lemma {:induction false} JoinersSplit(s: State, q: seq<Tid>, t: Tid)
    requires QueueKnown(s.thr.Keys, q)
    ensures multiset(Joiners(s, q, t)) + multiset(NonJoiners(s, q, t)) == multiset(q)
  {
    if q != [] {
      JoinersSplit(s, q[1..], t);
      assert q == [q[0]] + q[1..];
      Dealt(q[0], Joiners(s, q[1..], t), NonJoiners(s, q[1..], t), q[1..]);
    }
  }

  lemma JoinersKnown(s: State, q: seq<Tid>, t: Tid)
    requires QueueKnown(s.thr.Keys, q)
    ensures forall x :: x in Joiners(s, q, t) ==> x in s.thr && x in q && s.thr[x].joinTid == t
    ensures forall x :: x in NonJoiners(s, q, t) ==> x in s.thr && x in q && s.thr[x].joinTid != t
    ensures multiset(Joiners(s, q, t)) + multiset(NonJoiners(s, q, t)) == multiset(q)
  {
    JoinersOf(s, q, t);
    JoinersSplit(s, q, t);
  }

  /** A thread that ends wakes all its joiners; without any it waits as a zombie. */
  function ExitStep(s: State): Option<State>
    requires KnownThreads(s) && QueueKnown(s.thr.Keys, s.join)
  {
    JoinersKnown(s, s.join, s.active);
    var woken := Joiners(s, s.join, s.active);
    var s1 := PutAll(s.(join := NonJoiners(s, s.join, s.active)), woken);
    var s2 := if woken == [] then s1.(zombie := s1.zombie + [s.active]) else s1.(dead := s1.dead + [s.active]);
    Switch(s2)
  }

  function Matching(q: seq<Tid>, t: Tid): seq<Tid> {
    if q == [] then [] else (if q[0] == t then [q[0]] else []) + Matching(q[1..], t)
  }

  function Without(q: seq<Tid>, t: Tid): seq<Tid> {
    if q == [] then [] else (if q[0] == t then [] else [q[0]]) + Without(q[1..], t)
  }

  /** Joining a zombie reaps it. Joining anything else blocks, whether or not the target exists:
      the search of the sleep tree sets the found flag in every case. */
  function JoinStep(s: State, target: Tid): Option<State>
    requires KnownThreads(s)
  {
    if target in s.zombie then
      Some(s.(zombie := Without(s.zombie, target), dead := s.dead + Matching(s.zombie, target)))
    else
      var s1 := SetMe(s, Me(s).(joinTid := target, resume := Call));
      Switch(s1.(join := s1.join + [s.active]))
  }

  /** Whole ticks of a time; division truncates towards zero. */
  function Ticks(time: int): int {
    if time >= 0 then time / CLOCK_TICK else -(-time / CLOCK_TICK)
  }

  /** A thread that sleeps until a time that is over already is woken by the next tick. */
  function SleepStep(s: State, time: int): Option<State>
    requires KnownThreads(s) && s.clock + Ticks(time) >= 0
  {
    if Ticks(time) == 0 then Some(s)
    else
      var w: nat := s.clock + Ticks(time);
      var s1 := SetMe(s, Me(s).(wake := w, resume := Call));
      Switch(s1.(sleep := Insere(s1.sleep, Item(w, s.active, s.active))))
  }

  function NiceStep(s: State, n: int): State
    requires KnownThreads(s)
  {
    SetMe(s, Me(s).(nice := if n > 10 then 10 else if n < 1 then 1 else n, fixedWeight := false))
  }

  function LockStep(s: State, m: nat): Option<State>
    requires KnownThreads(s) && m < |s.mutexes|
  {
    var mx := s.mutexes[m];
    if mx.owner == None then
      Some(SetMe(s.(mutexes := s.mutexes[m := Mutex(Some(s.active), mx.fila, mx.arrivals + [s.active], mx.grants + [s.active])]),
                 Me(s).(inside := Me(s).inside + {m})))
    else
      var s1 := s.(mutexes := s.mutexes[m := mx.(fila := mx.fila + [s.active], arrivals := mx.arrivals + [s.active])]);
      Switch(SetMe(s1, Me(s1).(pending := Some(m), resume := Call)))
  }

  /** The owner gives up the mutex; the first waiter, if any, owns it at once. */
  function HandOff(s: State, m: nat): State
    requires KnownThreads(s) && m < |s.mutexes|
  {
    var mx := s.mutexes[m];
    var mx' := if mx.fila == [] then mx.(owner := None)
               else Mutex(Some(mx.fila[0]), mx.fila[1..], mx.arrivals, mx.grants + [mx.fila[0]]);
    SetMe(s.(mutexes := s.mutexes[m := mx']), Me(s).(inside := Me(s).inside - {m}))
  }

  /** Whether the releasing thread has run longer than the heir and so gives up the processor too. */
  predicate Preempts(s: State, m: nat)
    requires KnownThreads(s) && m < |s.mutexes|
  {
    var mx := s.mutexes[m];
    mx.fila != [] && mx.fila[0] in s.thr &&
    Me(s).vruntime + Me(s).Weight() * Me(s).times > s.thr[mx.fila[0]].vruntime
  }

  /** The releasing thread is charged and put in the run tree, and the heir runs. */
  function Preempted(s: State, m: nat, r: Resume): State
    requires KnownThreads(s) && m < |s.mutexes| && Preempts(s, m)
  {
    var heir := s.mutexes[m].fila[0];
    var s1 := HandOff(s, m);
    Put(SetMe(s1, Me(s1).Charged().(resume := r)), s.active).(active := heir)
  }

  predicate KnownMutex(s: State, m: nat) {
    m < |s.mutexes| && QueueKnown(s.thr.Keys, s.mutexes[m].fila)
  }

  /** A release without a switch: the heir goes to the run tree. */
  function Released(s: State, m: nat): State
    requires KnownThreads(s) && KnownMutex(s, m)
  {
    var s1 := HandOff(s, m);
    if s.mutexes[m].fila == [] then s1 else Put(s1, s.mutexes[m].fila[0])
  }

  function UnlockStep(s: State, m: nat): Option<State>
    requires KnownThreads(s) && KnownMutex(s, m)
  {
    if s.mutexes[m].owner != Some(s.active) then Some(s)
    else if Preempts(s, m) then Resumed(Preempted(s, m, Call))
    else Some(Released(s, m))
  }

  /** The first half of a wait: into the monitor's queue. */
  function Waiting(s: State, mon: nat): State
    requires KnownThreads(s) && mon < |s.monitors|
  {
    var mo := s.monitors[mon];
    SetMe(s.(monitors := s.monitors[mon := mo.(fila := mo.fila + [s.active])]), Me(s).(pending := Some(mo.mutex)))
  }

  /** A wait releases the mutex. If that preempts the thread, the wait is in its window: the thread
      is both in the monitor's queue and in the run tree. */
  function WaitStep(s: State, mon: nat): Option<State>
    requires KnownThreads(s) && mon < |s.monitors| && KnownMutex(s, s.monitors[mon].mutex)
  {
    var m := s.monitors[mon].mutex;
    if s.mutexes[m].owner != Some(s.active) then Some(s)
    else
      var s1 := Waiting(s, mon);
      if Preempts(s1, m) then Resumed(Preempted(s1, m, Window))
      else Switch(SetResume(Released(s1, m), Call))
  }

  function SignalStep(s: State, mon: nat): State
    requires KnownThreads(s) && mon < |s.monitors| && s.monitors[mon].mutex < |s.mutexes|
  {
    var m := s.monitors[mon].mutex;
    var q := s.monitors[mon].fila;
    if s.mutexes[m].owner != Some(s.active) || q == [] then s
    else
      s.(monitors := s.monitors[mon := Monitor(m, q[1..])],
         mutexes := s.mutexes[m := s.mutexes[m].(fila := s.mutexes[m].fila + [q[0]], arrivals := s.mutexes[m].arrivals + [q[0]])])
  }

  function SignalAllStep(s: State, mon: nat): State
    requires KnownThreads(s) && mon < |s.monitors| && s.monitors[mon].mutex < |s.mutexes|
  {
    var m := s.monitors[mon].mutex;
    var q := s.monitors[mon].fila;
    if s.mutexes[m].owner != Some(s.active) then s
    else
      s.(monitors := s.monitors[mon := Monitor(m, [])],
         mutexes := s.mutexes[m := s.mutexes[m].(fila := s.mutexes[m].fila + q, arrivals := s.mutexes[m].arrivals + q)])
  }

  // ---------- Runs ----------

  predicate MutexesKnown(ids: set<Tid>, ms: seq<Mutex>) {
    forall m :: 0 <= m < |ms| ==> QueueKnown(ids, ms[m].fila)
  }

  predicate MonitorsKnown(n: nat, mons: seq<Monitor>) {
    forall k :: 0 <= k < |mons| ==> mons[k].mutex < n
  }

  /** All thread ids name threads and all monitors name mutexes. */
  predicate Known(s: State) {
    && KnownThreads(s) && QueueKnown(s.thr.Keys, s.join) && ItemsKnown(s.thr.Keys, s.sleep)
    && MutexesKnown(s.thr.Keys, s.mutexes) && MonitorsKnown(|s.mutexes|, s.monitors)
  }

  /** Calls on a mutex or monitor name an existing one, and nobody is to be woken before the clock started. */
  predicate WellFormed(s: State, op: Op) {
    match op
    case Lock(m) => m < |s.mutexes|
    case Unlock(m) => m < |s.mutexes|
    case Wait(k) => k < |s.monitors|
    case Signal(k) => k < |s.monitors|
    case SignalAll(k) => k < |s.monitors|
    case Sleep(t) => s.clock + Ticks(t) >= 0
    case _ => true
  }

  function Step(s: State, op: Op): Option<State>
    requires Known(s) && WellFormed(s, op)
  {
    match op
    case Create(p) => Some(CreateStep(s, p))
    case Tick => TickStep(s)
    case Yield => YieldStep(s)
    case Exit => ExitStep(s)
    case Join(t) => JoinStep(s, t)
    case Sleep(t) => SleepStep(s, t)
    case Nice(n) => Some(NiceStep(s, n))
    case MutexInit => Some(s.(mutexes := s.mutexes + [Mutex(None, [], [], [])]))
    case MonitorInit => Some(s.(mutexes := s.mutexes + [Mutex(None, [], [], [])],
                                monitors := s.monitors + [Monitor(|s.mutexes|, [])]))
    case Lock(m) => LockStep(s, m)
    case Unlock(m) => UnlockStep(s, m)
    case Wait(k) => assert KnownMutex(s, s.monitors[k].mutex); WaitStep(s, k)
    case Signal(k) => Some(SignalStep(s, k))
    case SignalAll(k) => Some(SignalAllStep(s, k))
  }

  /** The state after initialisation: the main thread runs. */
  function Init(): State {
    State(map[1 := Thread(0, 0, 1, 0, 0, 0, 0, Call, None, {}, 0, true)], 1, [], [], [], [], [], [], [], 1, 2)
  }
}
