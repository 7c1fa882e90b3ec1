/** The user-level thread library: threads, the run tree and the sleep tree, queues, mutexes and
    monitors, changed in place by each library call and each clock tick. Every method does one step
    of the specification. */
module Scheduler {
  import opened Wrappers
  import opened RedBlack
  import opened RedBlackOrder
  import opened SchedulerSpec
  import opened SchedulerInvariant
  import opened SchedulerSteps
  import Effects = SchedulerEffects
  import Sleeping = SchedulerSleep

  class SthreadUser {
    var thr: map<Tid, Thread>
    var active: Tid
    const exe: ArvoreRB
    const sleep: ArvoreRB
    var join: seq<Tid>
    var zombie: seq<Tid>
    var dead: seq<Tid>
    var mutexes: seq<Mutex>
    var monitors: seq<Monitor>
    var clock: nat
    var tidGen: nat

    ghost function Abs(): State
      reads this, exe, sleep
    {
      State(thr, active, exe.Contents(), sleep.Contents(), join, zombie, dead, mutexes, monitors, clock, tidGen)
    }

    ghost predicate Trees()
      reads this, exe, sleep
    {
      exe != sleep && exe.Valid() && sleep.Valid()
    }

    ghost predicate Valid()
      reads this, exe, sleep
    {
      Trees() && Inv(Abs())
    }

    /** The main thread runs. */
    constructor ()
      ensures Valid() && fresh(exe) && fresh(sleep) && Abs() == Init()
    {
      hide Inv, ArvoreRB.Valid, ArvoreRB.Contents;
      exe := new ArvoreRB();
      sleep := new ArvoreRB();
      thr := map[1 := Thread(0, 0, 1, 0, 0, 0, 0, Call, None, {}, 0, true)];
      active := 1;
      join, zombie, dead := [], [], [];
      mutexes, monitors := [], [];
      clock := 1;
      tidGen := 2;
      new;
      assert Abs() == Init();
      InitInv();
    }

    // ---------- Moving threads ----------

    method RBInserir(t: Tid)
      requires Trees() && t in thr && thr[t].vruntime >= 0
      modifies exe
      ensures Trees() && Abs() == Put(old(Abs()), t)
    {
      hide ArvoreRB.Valid, ArvoreRB.Contents, Insere;
      exe.RBInserirNo(thr[t].vruntime, t, t);
    }

    /** The thread with the least virtual runtime becomes active; false if there is none. */
    method Escolher() returns (ok: bool)
      requires Trees()
      modifies this`active, exe
      ensures Trees() && ok == (old(Abs()).exe != [])
      ensures ok ==> Abs() == Extract(old(Abs()))
    {
      hide ArvoreRB.Valid, ArvoreRB.Contents;
      var vazia := exe.RBArvoreVazia();
      if vazia {
        return false;
      }
      var next := exe.RBExtraiMinimo();
      active := next.value;
      ok := true;
    }

    /** The active thread goes on where it was suspended; in the second half of a wait it hands the
        processor on. */
    method Retomar() returns (ok: bool)
      requires Trees() && Arriving(Abs())
      modifies this`active, this`thr, this`clock, exe
      ensures Trees() && ok == Resumed(old(Abs())).Some?
      ensures ok ==> Abs() == Resumed(old(Abs())).value && Inv(Abs())
    {
      hide Arriving, Inv, Parked, Insere, ArvoreRB.Valid, ArvoreRB.Contents;
      ResumedInv(Abs());
      ArrivingKnown(Abs());
      while thr[active].resume == Window
        invariant Trees() && Arriving(Abs()) && active in thr && KnownThreads(Abs())
        invariant Resumed(Abs()) == Resumed(old(Abs()))
        decreases |exe.Contents()|
      {
        WindowParks(Abs());
        thr := thr[active := thr[active].(resume := Call)];
        ghost var s := Abs();
        assert s.exe != [] ==> Arriving(Extract(s)) by { if s.exe != [] { ExtractArrives(s); } }
        ok := Escolher();
        if !ok {
          return false;
        }
        ArrivingKnown(Abs());
      }
      ghost var s := Abs();
      var me := thr[active];
      thr := thr[active := me.(resume := Call, pending := None,
                 inside := if me.pending.Some? then me.inside + {me.pending.value} else me.inside)];
      assert Abs() == Returned(s);
      if me.resume == Tail {
        CaudaDespacho();
      }
      ok := true;
    }

    /** The tail of the dispatcher. */
    method CaudaDespacho()
      requires active in thr
      modifies this`thr, this`clock
      ensures Abs() == RunTail(old(Abs()))
    {
      clock := clock + 1;
      if thr[active].times >= MIN_DELAY {
        var me := thr[active];
        thr := thr[active := me.(vruntime := me.vruntime + me.Weight() * me.times)];
        thr := thr[active := thr[active].(times := 0)];
      }
    }

    /** Leaves the active thread where it was put and runs the next one. */
    method Comutar() returns (ok: bool)
      requires Trees() && Parked(Abs())
      modifies this`active, this`thr, this`clock, exe
      ensures Trees() && ok == Switch(old(Abs())).Some?
      ensures ok ==> Abs() == Switch(old(Abs())).value && Inv(Abs())
    {
      hide Arriving, Inv, Insere, Resumed, ArvoreRB.Valid, ArvoreRB.Contents;
      assert Abs().exe != [] ==> Arriving(Extract(Abs())) by { if Abs().exe != [] { ExtractArrives(Abs()); } }
      ok := Escolher();
      if ok {
        ok := Retomar();
      }
    }

    // ---------- Creating, ticking, yielding ----------

    /** A new thread starts from the least virtual runtime in the run tree. */
    method Create(priority: int) returns (t: Tid)
      requires Valid()
      modifies this`thr, this`tidGen, exe
      ensures Valid() && t == old(tidGen) && Abs() == CreateStep(old(Abs()), priority)
    {
      hide Inv, Insere, ArvoreRB.Valid, ArvoreRB.Contents;
      InvFacts(Abs());
      CreateInv(Abs(), priority);
      var k := exe.RBMenorChave();
      t := tidGen;
      thr := thr[t := NewThread(if k == -1 then 0 else k, priority)];
      tidGen := tidGen + 1;
      RBInserir(t);
    }

    /** Sleepers whose time has come move to the run tree, earliest first. */
    method AcordarProcessos()
      requires Trees() && Runtimes(thr) && KnownThreads(Abs()) && ItemsKnown(thr.Keys, Abs().sleep)
      modifies this`thr, exe, sleep
      ensures Trees() && Abs() == WakeAll(old(Abs()))
    {
      hide Insere, ArvoreRB.Valid, ArvoreRB.Contents;
      var vazia := sleep.RBArvoreVazia();
      var k := sleep.RBMenorChave();
      while !vazia && k <= clock
        invariant Trees() && Runtimes(thr) && KnownThreads(Abs()) && ItemsKnown(thr.Keys, Abs().sleep)
        invariant WakeAll(Abs()) == WakeAll(old(Abs()))
        invariant vazia == (Abs().sleep == []) && (!vazia ==> k == Abs().sleep[0].chave)
        decreases |Abs().sleep|
      {
        ghost var s := Abs();
        var t := sleep.RBExtraiMinimo();
        thr := thr[t.value := thr[t.value].(wake := 0)];
        WokenKnown(s, Abs());
        RBInserir(t.value);
        vazia := sleep.RBArvoreVazia();
        k := sleep.RBMenorChave();
      }
    }

    /** A clock tick in the active thread. The clock advances exactly if the thread that is active afterwards went through
        the tail of the dispatcher. */
    method Dispatcher() returns (ok: bool)
      requires Valid()
      modifies this`thr, this`active, this`clock, exe, sleep
      ensures ok && TickStep(old(Abs())).Some? && Valid() && Abs() == TickStep(old(Abs())).value
      ensures active in old(thr) && clock == old(clock) + if active == old(active) || old(thr)[active].resume == Tail then 1 else 0
    {
      hide Inv, ArvoreRB.Valid, ArvoreRB.Contents, TickStep;
      InvFacts(Abs());
      Effects.TickClock(Abs());
      ok := Despachar();
    }

    method Despachar() returns (ok: bool)
      requires Valid()
      modifies this`thr, this`active, this`clock, exe, sleep
      ensures ok == TickStep(old(Abs())).Some?
      ensures ok ==> Valid() && Abs() == TickStep(old(Abs())).value
    {
      hide Inv, Insere, ArvoreRB.Valid, ArvoreRB.Contents, Switch, WakeAll, Parked, Core, Balanced;
      InvFacts(Abs());
      TickCore(Abs());
      TickParks(Abs());
      TickInv(Abs());
      var me := thr[active];
      thr := thr[active := me.(times := me.times + 1, exectime := me.exectime + 1)];
      TickedKnown(old(Abs()), Abs());
      AcordarProcessos();
      assert Abs() == TickedWoken(old(Abs()));
      CoreRuntimes(Abs());
      var tempV := thr[active].vruntime + thr[active].Weight() * thr[active].times;
      var k := exe.RBMenorChave();
      if tempV >= k {
        ghost var s := Abs();
        thr := thr[active := thr[active].(resume := Tail)];
        RBInserir(active);
        assert Abs() == Put(SetResume(s, Tail), s.active);
        ok := Comutar();
      } else {
        CaudaDespacho();
        ok := true;
      }
    }

    method Yield() returns (ok: bool)
      requires Valid()
      modifies this`thr, this`active, this`clock, exe
      ensures ok && YieldStep(old(Abs())).Some? && Valid() && Abs() == YieldStep(old(Abs())).value
    {
      hide Inv, Insere, ArvoreRB.Valid, ArvoreRB.Contents, Switch, Parked;
      InvFacts(Abs());
      YieldParks(Abs());
      ghost var k := Effects.YieldEffect(Abs());
      thr := thr[active := thr[active].(resume := Call)];
      RBInserir(active);
      assert Abs() == Put(SetResume(old(Abs()), Call), old(active));
      ok := Comutar();
    }

    // ---------- Exit, join, sleep, nice ----------

    /** Wakes all joiners of the active thread; true if there was none. */
    method LibertarJoin() returns (isZombie: bool)
      requires Valid()
      modifies this`join, exe
      ensures Trees() && QueueKnown(old(thr).Keys, old(join)) && KnownThreads(old(Abs()))
      ensures var woken := Joiners(old(Abs()), old(join), active);
        && isZombie == (woken == []) && QueueKnown(thr.Keys, woken)
        && Abs() == PutAll(old(Abs()).(join := NonJoiners(old(Abs()), old(join), active)), woken)
    {
      hide Inv, Insere, ArvoreRB.Valid, ArvoreRB.Contents, Draining, Joiners, NonJoiners, PutAll;
      ghost var s := Abs();
      InvFacts(s);
      DrainStart(s);
      isZombie := true;
      var tmp: seq<Tid> := [];
      while join != []
        invariant Trees() && Draining(s, Abs(), tmp, isZombie) && QueueKnown(thr.Keys, join)
        decreases |join|
      {
        DrainStep(s, Abs(), tmp, isZombie);
        var t := join[0];
        join := join[1..];
        if thr[t].joinTid == active {
          RBInserir(t);
          isZombie := false;
        } else {
          tmp := tmp + [t];
        }
      }
      DrainEnd(s, Abs(), tmp, isZombie);
      join := tmp;
    }

    /** The active thread ends; false if no other can run. */
    method Exit() returns (ok: bool)
      requires Valid()
      modifies this`thr, this`active, this`clock, this`join, this`zombie, this`dead, exe
      ensures ok == ExitStep(old(Abs())).Some?
      ensures ok ==> Valid() && Abs() == ExitStep(old(Abs())).value
    {
      hide Inv, Insere, ArvoreRB.Valid, ArvoreRB.Contents, Switch, Parked, Joiners, NonJoiners, PutAll;
      InvFacts(Abs());
      ExitParks(Abs());
      var isZombie := LibertarJoin();
      if isZombie {
        zombie := zombie + [active];
      } else {
        dead := dead + [active];
      }
      assert Abs() == Exited(old(Abs()));
      ok := Comutar();
    }

    /** Takes every occurrence of `target` out of the zombies. */
    method Recolher(target: Tid) returns (found: bool)
      modifies this`zombie, this`dead
      ensures found == (target in old(zombie))
      ensures zombie == Without(old(zombie), target) && dead == old(dead) + Matching(old(zombie), target)
    {
      hide Without, Matching;
      found := false;
      var tmp: seq<Tid> := [];
      while zombie != []
        invariant tmp + Without(zombie, target) == Without(old(zombie), target)
        invariant dead + Matching(zombie, target) == old(dead) + Matching(old(zombie), target)
        invariant (found || target in zombie) == (target in old(zombie))
        decreases |zombie|
      {
        var t := zombie[0];
        Effects.MatchFirst(zombie, target);
        assert zombie == [t] + zombie[1..];
        zombie := zombie[1..];
        if t == target {
          dead := dead + [t];
          found := true;
        } else {
          tmp := tmp + [t];
        }
      }
      Effects.NoMatch(zombie, target);
      zombie := tmp;
    }

    /** Waits until the thread `target` ends, unless it is a zombie already. The searches that follow
        cannot change the outcome. */
    method Join(target: Tid) returns (ok: bool)
      requires Valid()
      modifies this`thr, this`active, this`clock, this`join, this`zombie, this`dead, exe
      ensures ok == JoinStep(old(Abs()), target).Some?
      ensures ok ==> Valid() && Abs() == JoinStep(old(Abs()), target).value
    {
      hide Inv, Insere, ArvoreRB.Valid, ArvoreRB.Contents, Switch, Parked;
      InvFacts(Abs());
      JoinParks(Abs(), target);
      JoinInv(Abs(), target);
      var found := Recolher(target);
      WithoutAbsent(old(zombie), target);
      if found {
        return true;
      }
      // The searches that follow cannot change the outcome: the one of the sleep tree counts as found in every case.
      thr := thr[active := thr[active].(joinTid := target, resume := Call)];
      join := join + [active];
      assert Abs() == Blocked(old(Abs()), target);
      ok := Comutar();
    }

    /** Sleeps for a number of ticks, which may be negative as long as the wake-up time is not. */
    method Sleep(time: int) returns (ok: bool)
      requires Valid() && clock + Ticks(time) >= 0
      modifies this`thr, this`active, this`clock, exe, sleep
      ensures ok == SleepStep(old(Abs()), time).Some?
      ensures ok ==> Valid() && Abs() == SleepStep(old(Abs()), time).value
      ensures ok && Ticks(time) != 0 ==> Item(old(clock) + Ticks(time), old(active), old(active)) in sleep.Contents()
    {
      hide Inv, Insere, ArvoreRB.Valid, ArvoreRB.Contents, Switch, Parked;
      InvFacts(Abs());
      var ticks := Ticks(time);
      if ticks == 0 {
        return true;
      }
      SleepParks(Abs(), clock + ticks);
      Sleeping.FallsAsleep(Abs(), time);
      thr := thr[active := thr[active].(wake := clock + ticks, resume := Call)];
      sleep.RBInserirNo(thr[active].wake, active, active);
      assert Abs() == Asleep(old(Abs()), clock + ticks);
      ok := Comutar();
    }

    /** Sets the niceness, between 1 and 10, and reports the resulting weight. */
    method Nice(n: int) returns (weight: int)
      requires Valid()
      modifies this`thr
      ensures Valid() && Abs() == NiceStep(old(Abs()), n) && weight == Me(Abs()).Weight()
    {
      hide Inv, ArvoreRB.Valid, ArvoreRB.Contents;
      InvFacts(Abs());
      NiceInv(Abs(), n);
      var nice := if n > 10 then 10 else if n < 1 then 1 else n;
      thr := thr[active := thr[active].(nice := nice, fixedWeight := false)];
      weight := thr[active].priority + thr[active].nice;
    }

    // ---------- Mutexes ----------

    method MutexInit() returns (m: nat)
      requires Valid()
      modifies this`mutexes
      ensures Known(old(Abs())) && Valid() && m == |old(mutexes)| && Step(old(Abs()), Op.MutexInit) == Some(Abs())
    {
      hide Inv, ArvoreRB.Valid, ArvoreRB.Contents;
      InvFacts(Abs());
      NewMutexInv(Abs(), Abs().(mutexes := mutexes + [Mutex(None, [], [], [])]));
      m := |mutexes|;
      mutexes := mutexes + [Mutex(None, [], [], [])];
    }

    method Lock(m: nat) returns (ok: bool)
      requires Valid() && m < |mutexes|
      modifies this`thr, this`active, this`clock, this`mutexes, exe
      ensures ok == LockStep(old(Abs()), m).Some?
      ensures ok ==> Valid() && Abs() == LockStep(old(Abs()), m).value
    {
      hide Inv, Insere, ArvoreRB.Valid, ArvoreRB.Contents, Switch, Parked;
      InvFacts(Abs());
      LockInv(Abs(), m);
      var mx := mutexes[m];
      if mx.owner == None {
        mutexes := mutexes[m := Mutex(Some(active), mx.fila, mx.arrivals + [active], mx.grants + [active])];
        thr := thr[active := thr[active].(inside := thr[active].inside + {m})];
        ok := true;
      } else {
        QueuedParks(Abs(), m);
        mutexes := mutexes[m := mx.(fila := mx.fila + [active], arrivals := mx.arrivals + [active])];
        thr := thr[active := thr[active].(pending := Some(m), resume := Call)];
        assert Abs() == Queued(old(Abs()), m);
        ok := Comutar();
      }
    }

    /** Takes the mutex from the active thread and gives it to the first waiter, if there is one. */
    method Ceder(m: nat)
      requires active in thr && m < |mutexes| && KnownThreads(Abs())
      modifies this`thr, this`mutexes
      ensures Abs() == HandOff(old(Abs()), m)
    {
      var mx := mutexes[m];
      if mx.fila == [] {
        mutexes := mutexes[m := mx.(owner := None)];
      } else {
        mutexes := mutexes[m := Mutex(Some(mx.fila[0]), mx.fila[1..], mx.arrivals, mx.grants + [mx.fila[0]])];
      }
      thr := thr[active := thr[active].(inside := thr[active].inside - {m})];
    }

    /** The releasing thread is charged and put in the run tree; the heir becomes active. */
    method Trocar(m: nat, heir: Tid, r: Resume)
      requires Trees() && KnownThreads(Abs()) && m < |mutexes| && Preempts(Abs(), m) && heir == mutexes[m].fila[0]
      requires thr[active].vruntime + thr[active].Weight() * thr[active].times >= 0
      modifies this`thr, this`active, this`mutexes, exe
      ensures Trees() && Abs() == Preempted(old(Abs()), m, r)
    {
      hide Insere, ArvoreRB.Valid, ArvoreRB.Contents;
      Ceder(m);
      ghost var s1 := Abs();
      var me := thr[active];
      thr := thr[active := me.(vruntime := me.vruntime + me.Weight() * me.times, times := 0, resume := r)];
      RBInserir(active);
      active := heir;
    }

    method Unlock(m: nat) returns (ok: bool)
      requires Valid() && m < |mutexes|
      modifies this`thr, this`active, this`clock, this`mutexes, exe
      ensures KnownMutex(old(Abs()), m) && KnownThreads(old(Abs())) && ok == UnlockStep(old(Abs()), m).Some?
      ensures ok ==> Valid() && Abs() == UnlockStep(old(Abs()), m).value
    {
      hide Inv, Insere, ArvoreRB.Valid, ArvoreRB.Contents, Parked, Preempted, Arriving, Resumed, HandOff;
      ghost var s := Abs();
      InvFacts(s);
      InvMutex(s, m);
      UnlockInv(s, m);
      if mutexes[m].owner != Some(active) {
        return true;
      }
      UnlockArrives(s, m);
      var fila := mutexes[m].fila;
      var tempr := thr[active].vruntime + thr[active].Weight() * thr[active].times;
      if fila != [] && tempr > thr[fila[0]].vruntime {
        Trocar(m, fila[0], Call);
        ok := Retomar();
      } else {
        Ceder(m);
        if fila != [] {
          HeirRuntime(s, m, fila[0]);
          RBInserir(fila[0]);
        }
        assert Abs() == Released(s, m);
        ok := true;
      }
    }

    // ---------- Monitors ----------

    method MonitorInit() returns (k: nat)
      requires Valid()
      modifies this`mutexes, this`monitors
      ensures Known(old(Abs())) && Valid() && k == |old(monitors)| && Step(old(Abs()), Op.MonitorInit) == Some(Abs())
    {
      hide Inv, ArvoreRB.Valid, ArvoreRB.Contents;
      InvFacts(Abs());
      NewMutexInv(Abs(), Abs().(mutexes := mutexes + [Mutex(None, [], [], [])], monitors := monitors + [Monitor(|mutexes|, [])]));
      k := |monitors|;
      monitors := monitors + [Monitor(|mutexes|, [])];
      mutexes := mutexes + [Mutex(None, [], [], [])];
    }

    /** Waits in a monitor whose mutex the active thread owns: into the monitor's queue, release the
        mutex, and give up the processor. */
    method Wait(mon: nat) returns (ok: bool)
      requires Valid() && mon < |monitors|
      modifies this`thr, this`active, this`clock, this`mutexes, this`monitors, exe
      ensures KnownThreads(old(Abs())) && KnownMutex(old(Abs()), old(monitors)[mon].mutex)
      ensures ok == WaitStep(old(Abs()), mon).Some?
      ensures ok ==> Valid() && Abs() == WaitStep(old(Abs()), mon).value
    {
      hide Inv, Insere, ArvoreRB.Valid, ArvoreRB.Contents, Parked, Preempted, Arriving, Resumed, HandOff, Switch;
      ghost var s := Abs();
      var m := monitors[mon].mutex;
      InvFacts(s);
      InvMutex(s, m);
      if mutexes[m].owner != Some(active) {
        return true;
      }
      WaitParks(s, mon);
      var mo := monitors[mon];
      monitors := monitors[mon := mo.(fila := mo.fila + [active])];
      thr := thr[active := thr[active].(pending := Some(m))];
      ghost var s1 := Abs();
      assert s1 == Waiting(s, mon);
      WaitingFacts(s, mon);
      var fila := mutexes[m].fila;
      var tempr := thr[active].vruntime + thr[active].Weight() * thr[active].times;
      if fila != [] && tempr > thr[fila[0]].vruntime {
        Trocar(m, fila[0], Window);
        ok := Retomar();
      } else {
        Ceder(m);
        if fila != [] {
          HeirRuntime(s1, m, fila[0]);
          RBInserir(fila[0]);
        }
        assert Abs() == Released(s1, m);
        thr := thr[active := thr[active].(resume := Call)];
        ok := Comutar();
      }
    }

    /** Moves the first waiter of the monitor to the queue of its mutex. */
    method Signal(mon: nat)
      requires Valid() && mon < |monitors|
      modifies this`mutexes, this`monitors
      ensures Known(old(Abs())) && Valid() && Abs() == SignalStep(old(Abs()), mon)
      ensures Effects.Moved(old(Abs()), Abs(), mon,
                            if old(mutexes)[old(monitors)[mon].mutex].owner == Some(active) && old(monitors)[mon].fila != [] then 1 else 0)
    {
      hide Inv, ArvoreRB.Valid, ArvoreRB.Contents;
      InvFacts(Abs());
      SignalInv(Abs(), mon);
      Effects.SignalEffect(Abs(), mon);
      var m, q := monitors[mon].mutex, monitors[mon].fila;
      if mutexes[m].owner == Some(active) && q != [] {
        monitors := monitors[mon := Monitor(m, q[1..])];
        mutexes := mutexes[m := mutexes[m].(fila := mutexes[m].fila + [q[0]], arrivals := mutexes[m].arrivals + [q[0]])];
      }
    }

    /** Moves all waiters of the monitor, in order, to the queue of its mutex. */
    method SignalAll(mon: nat)
      requires Valid() && mon < |monitors|
      modifies this`mutexes, this`monitors
      ensures Known(old(Abs())) && Valid() && Abs() == SignalAllStep(old(Abs()), mon)
      ensures Effects.Moved(old(Abs()), Abs(), mon,
                            if old(mutexes)[old(monitors)[mon].mutex].owner == Some(active) then |old(monitors)[mon].fila| else 0)
    {
      hide Inv, ArvoreRB.Valid, ArvoreRB.Contents;
      ghost var s := Abs();
      InvFacts(s);
      SignalInv(s, mon);
      Effects.SignalEffect(s, mon);
      var m := monitors[mon].mutex;
      if mutexes[m].owner != Some(active) {
        return;
      }
      while monitors[mon].fila != []
        invariant |monitors| == |old(monitors)| && |mutexes| == |old(mutexes)|
        invariant monitors[mon].mutex == m
        invariant SignalAllStep(Abs(), mon) == SignalAllStep(s, mon)
        invariant mutexes[m].owner == Some(active)
        invariant KnownThreads(Abs())
        invariant thr == old(thr) && active == old(active) && exe.Contents() == old(exe.Contents()) && exe.Valid() && sleep.Valid()
        decreases |monitors[mon].fila|
      {
        ghost var s1 := Abs();
        var q := monitors[mon].fila;
        monitors := monitors[mon := Monitor(m, q[1..])];
        mutexes := mutexes[m := mutexes[m].(fila := mutexes[m].fila + [q[0]], arrivals := mutexes[m].arrivals + [q[0]])];
        SignalOneMore(s1, Abs(), mon);
      }
      SignalNone(Abs(), mon);
    }
  }

  lemma ArrivingKnown(s: State)
    requires Arriving(s)
    ensures KnownThreads(s)
  {
  }

  predicate Runtimes(thr: map<Tid, Thread>) {
    forall t :: t in thr ==> thr[t].vruntime >= 0
  }

  lemma CoreRuntimes(s: State)
    requires Core(s, true) && Balanced(Me(s).(resume := Tail))
    ensures Runtimes(s.thr) && Me(s).vruntime + Me(s).Weight() * Me(s).times >= 0
  {
    ChargedBalanced(Me(s).(resume := Tail));
  }

  lemma InvFacts(s: State)
    requires Inv(s)
    ensures Known(s) && Runtimes(s.thr) && s.tidGen !in s.thr && Me(s).vruntime + Me(s).Weight() * Me(s).times >= 0
    ensures MinKey(s) >= 0
  {
    assert Balanced(Me(s));
    ChargedBalanced(Me(s));
    assert s.tidGen !in s.thr.Keys;
    MinKeyNatural(s);
  }

  lemma WokenKnown(s: State, s': State)
    requires s.sleep != [] && s.sleep[0].elem in s.thr && Runtimes(s.thr) && KnownThreads(s) && ItemsKnown(s.thr.Keys, s.sleep)
    requires var t := s.sleep[0].elem; s' == s.(thr := s.thr[t := s.thr[t].(wake := 0)], sleep := s.sleep[1..])
    ensures Runtimes(s'.thr) && s'.thr.Keys == s.thr.Keys && KnownThreads(Put(s', s.sleep[0].elem))
    ensures WakeAll(s) == if s.sleep[0].chave > s.clock then s else WakeAll(Put(s', s.sleep[0].elem))
  {
    assert s'.thr.Keys == s.thr.Keys;
    InsereKnown(s'.thr.Keys, s'.exe, ItemOf(s', s.sleep[0].elem));
  }

  lemma TickedKnown(s: State, s': State)
    requires Inv(s) && s.active in s.thr && s' == SetMe(s, Me(s).(times := Me(s).times + 1, exectime := Me(s).exectime + 1))
    ensures KnownThreads(s') && ItemsKnown(s'.thr.Keys, s'.sleep) && Runtimes(s'.thr)
  {
    assert s'.thr.Keys == s.thr.Keys;
    InvFacts(s);
  }

  lemma PutKnown(s: State, t: Tid)
    requires KnownThreads(s) && t in s.thr
    ensures KnownThreads(Put(s, t))
  {
    InsereKnown(s.thr.Keys, s.exe, ItemOf(s, t));
  }

  lemma {:induction false} WithoutAbsent(q: seq<Tid>, t: Tid)
    ensures t !in q ==> Without(q, t) == q && Matching(q, t) == []
  {
    if q != [] { WithoutAbsent(q[1..], t); }
  }

  lemma InvMutex(s: State, m: nat)
    requires Inv(s) && m < |s.mutexes|
    ensures KnownMutex(s, m) && (s.mutexes[m].fila != [] ==> s.mutexes[m].fila[0] in s.thr)
  {
    assert QueueKnown(s.thr.Keys, s.mutexes[m].fila);
    if s.mutexes[m].fila != [] { assert s.mutexes[m].fila[0] in s.mutexes[m].fila; }
  }

  lemma UnlockArrives(s: State, m: nat)
    requires Inv(s) && Owns(s.mutexes, m, s.active)
    ensures KnownThreads(s) && (Preempts(s, m) ==> Arriving(Preempted(s, m, Call)))
  {
    hide Conserved, Exclusive, Fair, RunKeyed, SleepKeyed, Sorted, Ids, Insere, Releasing, NotIn, OthersBalanced, Preempted;
    UnlockReleasing(s, m);
    if Preempts(s, m) { PreemptedArrives(s, m, Call); }
  }

  lemma HeirRuntime(s: State, m: nat, h: Tid)
    requires KnownThreads(s) && Runtimes(s.thr) && m < |s.mutexes| && h in s.thr
    ensures h in HandOff(s, m).thr && HandOff(s, m).thr[h].vruntime >= 0
  {
  }

  /** How far an exit has come in going through the join list of `s`. */
  ghost predicate Draining(s: State, cur: State, tmp: seq<Tid>, isZombie: bool) {
    && KnownThreads(s) && QueueKnown(s.thr.Keys, s.join)
    && cur == s.(join := cur.join, exe := cur.exe) && QueueKnown(s.thr.Keys, cur.join) && KnownThreads(cur)
    && Runtimes(s.thr)
    && var rest, woken, left := NonJoiners(s, s.join, s.active), Joiners(s, s.join, s.active), Joiners(s, cur.join, s.active);
      && tmp + NonJoiners(s, cur.join, s.active) == rest
      && QueueKnown(s.thr.Keys, left) && QueueKnown(s.thr.Keys, woken)
      && PutAll(cur.(join := rest), left) == PutAll(s.(join := rest), woken)
      && (if isZombie then left == woken else |left| < |woken|)
  }

  lemma DrainStart(s: State)
    requires KnownThreads(s) && QueueKnown(s.thr.Keys, s.join) && Runtimes(s.thr)
    ensures Draining(s, s, [], true)
  {
    JoinersKnown(s, s.join, s.active);
  }

  lemma DrainEnd(s: State, cur: State, tmp: seq<Tid>, isZombie: bool)
    requires Draining(s, cur, tmp, isZombie) && cur.join == []
    ensures KnownThreads(s) && QueueKnown(s.thr.Keys, s.join)
    ensures var woken := Joiners(s, s.join, s.active);
      && isZombie == (woken == []) && QueueKnown(s.thr.Keys, woken)
      && cur.(join := tmp) == PutAll(s.(join := NonJoiners(s, s.join, s.active)), woken)
  {
    assert Joiners(s, cur.join, s.active) == [];
    assert NonJoiners(s, cur.join, s.active) == [];
  }

  lemma DrainStep(s: State, cur: State, tmp: seq<Tid>, isZombie: bool)
    requires Draining(s, cur, tmp, isZombie) && cur.join != []
    ensures cur.join[0] in s.thr && cur.thr == s.thr && s.thr[cur.join[0]].vruntime >= 0 && QueueKnown(s.thr.Keys, cur.join[1..])
    ensures var t := cur.join[0];
      if s.thr[t].joinTid == s.active then Draining(s, Put(cur.(join := cur.join[1..]), t), tmp, false)
      else Draining(s, cur.(join := cur.join[1..]), tmp + [t], isZombie)
  {
    hide Insere, PutAll, Joiners, NonJoiners;
    var t, q := cur.join[0], cur.join;
    assert q == [t] + q[1..];
    JoinersKnown(s, q[1..], s.active);
    JoinersKnown(s, s.join, s.active);
    JoinersHead(s, q, s.active);
    PutKnown(cur, t);
    if s.thr[t].joinTid == s.active {
      PutAllHead(cur.(join := NonJoiners(s, s.join, s.active)), t, Joiners(s, q[1..], s.active));
    } else {
      assert tmp + [t] + NonJoiners(s, q[1..], s.active) == tmp + ([t] + NonJoiners(s, q[1..], s.active));
    }
  }

  lemma JoinersHead(s: State, q: seq<Tid>, t: Tid)
    requires QueueKnown(s.thr.Keys, q) && q != [] && QueueKnown(s.thr.Keys, q[1..])
    ensures Joiners(s, q, t) == (if s.thr[q[0]].joinTid == t then [q[0]] else []) + Joiners(s, q[1..], t)
    ensures NonJoiners(s, q, t) == (if s.thr[q[0]].joinTid == t then [] else [q[0]]) + NonJoiners(s, q[1..], t)
    ensures s.thr[q[0]].joinTid != t ==> Joiners(s, q, t) == Joiners(s, q[1..], t)
    ensures s.thr[q[0]].joinTid == t ==> NonJoiners(s, q, t) == NonJoiners(s, q[1..], t)
  {
  }

  lemma PutAllHead(s: State, t: Tid, q: seq<Tid>)
    requires KnownThreads(s) && t in s.thr && QueueKnown(s.thr.Keys, q) && QueueKnown(s.thr.Keys, [t] + q) && KnownThreads(Put(s, t))
    ensures PutAll(s, [t] + q) == PutAll(Put(s, t), q)
  {
    assert ([t] + q)[1..] == q;
  }

  lemma WaitingFacts(s: State, mon: nat)
    requires Inv(s) && mon < |s.monitors|
    ensures var s1 := Waiting(s, mon);
      && KnownThreads(s1) && Runtimes(s1.thr) && s1.thr.Keys == s.thr.Keys
      && (Me(s1).vruntime + Me(s1).Weight() * Me(s1).times >= 0)
  {
    InvFacts(s);
    assert Waiting(s, mon).thr.Keys == s.thr.Keys;
  }

  lemma SignalOneMore(s: State, s': State, mon: nat)
    requires KnownThreads(s) && mon < |s.monitors| && s.monitors[mon].mutex < |s.mutexes| && s.monitors[mon].fila != []
    requires s.mutexes[s.monitors[mon].mutex].owner == Some(s.active) && s' == SignalStep(s, mon)
    ensures SignalAllStep(s', mon) == SignalAllStep(s, mon)
  {
    var m, q := s.monitors[mon].mutex, s.monitors[mon].fila;
    assert q == [q[0]] + q[1..];
    assert s.mutexes[m].fila + [q[0]] + q[1..] == s.mutexes[m].fila + q;
    assert s.mutexes[m].arrivals + [q[0]] + q[1..] == s.mutexes[m].arrivals + q;
    assert SignalAllStep(s', mon).mutexes == SignalAllStep(s, mon).mutexes;
    assert SignalAllStep(s', mon).monitors == SignalAllStep(s, mon).monitors;
  }

  lemma SignalNone(s: State, mon: nat)
    requires KnownThreads(s) && mon < |s.monitors| && s.monitors[mon].mutex < |s.mutexes| && s.monitors[mon].fila == []
    ensures SignalAllStep(s, mon) == s
  {
    var m := s.monitors[mon].mutex;
    assert s.mutexes[m].fila + [] == s.mutexes[m].fila && s.mutexes[m].arrivals + [] == s.mutexes[m].arrivals;
    assert s.monitors[mon := Monitor(m, [])] == s.monitors;
    assert s.mutexes[m := s.mutexes[m]] == s.mutexes;
  }
}
