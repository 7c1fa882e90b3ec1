/** Handing a mutex over: whoever queues for it owns it after exactly as many releases as there are threads ahead of it
    and one for the owner; so does a thread that was signalled in a monitor, which then returns from its wait. */
module SchedulerHandover {
  import opened Wrappers
  import opened RedBlackOrder
  import opened SchedulerSpec
  import opened SchedulerInvariant
  import opened SchedulerSteps
  import opened SchedulerEffects

  /** The step gives up mutex `m`: an unlock or a wait by its owner. */
  predicate Releases(s: State, op: Op, m: nat) {
    && m < |s.mutexes| && s.mutexes[m].owner == Some(s.active)
    && (op == Unlock(m) || (op.Wait? && op.mon < |s.monitors| && s.monitors[op.mon].mutex == m))
  }

  /** Nothing but arrivals at the end of the queue. */
  predicate OnlyArrivals(mx: Mutex, mx': Mutex) {
    && mx'.owner == mx.owner && mx'.grants == mx.grants && mx.fila <= mx'.fila && mx'.arrivals == mx.arrivals + mx'.fila[|mx.fila|..]
  }

  /** What a step does to mutex `m`. */
  ghost predicate MutexStep(s: State, op: Op, m: nat, r: Option<State>)
    requires m < |s.mutexes|
  {
    r.Some? ==>
      && m < |r.value.mutexes|
      && var mx, mx' := s.mutexes[m], r.value.mutexes[m];
        if Releases(s, op, m) then mx' == Passed(mx)
        else if op == Lock(m) && mx.owner == None then
          mx' == mx.(owner := Some(s.active), arrivals := mx.arrivals + [s.active], grants := mx.grants + [s.active])
        else OnlyArrivals(mx, mx')
  }

  lemma NoArrivals(mx: Mutex)
    ensures OnlyArrivals(mx, mx)
  {
    assert mx.arrivals + mx.fila[|mx.fila|..] == mx.arrivals;
  }

  lemma Arrive(mx: Mutex, q: seq<Tid>)
    ensures OnlyArrivals(mx, mx.(fila := mx.fila + q, arrivals := mx.arrivals + q))
  {
    assert (mx.fila + q)[|mx.fila|..] == q;
  }

  lemma LeavesMutexes(p: State, q: seq<Tid>, r: Option<State>, k: nat)
    requires Leaves(p, q, r, k)
    ensures r.Some? ==> r.value.mutexes == p.mutexes
  {
    hide GoesOn, GoesFirst;
  }

  lemma TurnMutexes(p: State, q: seq<Tid>, s: State, k: nat)
    requires Turn(p, q, s, k)
    ensures s.mutexes == p.mutexes
  {
    hide GoesOn, GoesFirst;
  }

  /** Ticks and calls that have nothing to do with mutexes. */
  lemma OtherMutexes(s: State, op: Op)
    requires Inv(s) && Known(s) && WellFormed(s, op) && !op.Lock? && !op.Unlock? && !op.Wait? && !op.Signal? && !op.SignalAll?
    ensures Step(s, op).Some? ==> |Step(s, op).value.mutexes| >= |s.mutexes| && Step(s, op).value.mutexes[..|s.mutexes|] == s.mutexes
  {
    hide Conserved, Exclusive, Fair, RunKeyed, SleepKeyed, Ids, OthersBalanced, Balanced, Sorted, Insere, Turn, GoesFirst, Leaves, Entered,
         TickStep, YieldStep, ExitStep, JoinStep, SleepStep, Joiners, NonJoiners, TickedWoken, Displaced, GoesOn, Tids;
    assert s.mutexes[..|s.mutexes|] == s.mutexes;
    match op
    case Tick =>
      var j, w, k := TickEffect(s);
      DecidedMutexes(Me(s), w, TickStep(s).value, k);
    case Yield =>
      var k := YieldEffect(s);
      var p := s.(exe := Insere(s.exe, Item(Me(s).vruntime, s.active, s.active)));
      TurnMutexes(p, Tids(p.exe), YieldStep(s).value, k);
    case Exit =>
      var woken, rest, k := ExitEffect(s);
      var p := s.(join := rest, exe := Entered(s.thr, s.exe, woken),
                  zombie := if woken == [] then s.zombie + [s.active] else s.zombie, dead := if woken == [] then s.dead else s.dead + [s.active]);
      LeavesMutexes(p, Tids(p.exe), ExitStep(s), k);
    case Join(t) =>
      var k := JoinEffect(s, t);
      if t !in s.zombie {
        var p := s.(thr := s.thr[s.active := Me(s).(joinTid := t)], join := s.join + [s.active]);
        LeavesMutexes(p, Tids(p.exe), JoinStep(s, t), k);
      }
    case Sleep(time) =>
      var k := SleepEffect(s, time);
      if Ticks(time) != 0 {
        var w: nat := s.clock + Ticks(time);
        var p := s.(thr := s.thr[s.active := Me(s).(wake := w)], sleep := Insere(s.sleep, Item(w, s.active, s.active)));
        LeavesMutexes(p, Tids(p.exe), SleepStep(s, time), k);
      }
    case _ =>
  }

  lemma DecidedMutexes(me: Thread, w: State, s: State, k: nat)
    requires w.active in w.thr && Decided(me, w, s, k)
    ensures s.mutexes == w.mutexes
  {
    hide GoesFirst, GoesOn, Insere;
  }

  lemma LockMutex(s: State, l: nat, m: nat)
    requires Inv(s) && Known(s) && l < |s.mutexes| && m < |s.mutexes|
    ensures MutexStep(s, Lock(l), m, LockStep(s, l))
  {
    hide Inv, Known, Leaves, Insere, LockStep, OnlyArrivals;
    var k := LockEffect(s, l);
    NoArrivals(s.mutexes[m]);
    Arrive(s.mutexes[m], [s.active]);
    if s.mutexes[l].owner.Some? {
      var p := s.(thr := s.thr[s.active := Me(s).(pending := Some(l))],
                  mutexes := s.mutexes[l := s.mutexes[l].(fila := s.mutexes[l].fila + [s.active], arrivals := s.mutexes[l].arrivals + [s.active])]);
      LeavesMutexes(p, Tids(p.exe), LockStep(s, l), k);
    }
  }

  lemma HandedMutexes(s: State, l: nat, th: Thread, r: Resume, p: State, q: seq<Tid>)
    requires l < |s.mutexes| && Handed(s, l, th, r, p, q)
    ensures p.mutexes == s.mutexes[l := Passed(s.mutexes[l])]
  {
    hide Insere;
  }

  lemma UnlockMutex(s: State, l: nat, m: nat)
    requires Inv(s) && Known(s) && l < |s.mutexes| && m < |s.mutexes|
    ensures KnownThreads(s) && KnownMutex(s, l) && MutexStep(s, Unlock(l), m, UnlockStep(s, l))
  {
    hide Inv, Known, Leaves, Insere, UnlockStep, OnlyArrivals, Handed;
    var p, q, k := UnlockEffect(s, l);
    NoArrivals(s.mutexes[m]);
    if s.mutexes[l].owner == Some(s.active) {
      HandedMutexes(s, l, Me(s), Call, p, q);
      if Yields(s, l, Me(s)) { LeavesMutexes(p, q, UnlockStep(s, l), k); }
    }
  }

  lemma WaitMutex(s: State, mon: nat, m: nat)
    requires Inv(s) && Known(s) && mon < |s.monitors| && m < |s.mutexes|
    ensures KnownThreads(s) && KnownMutex(s, s.monitors[mon].mutex) && MutexStep(s, Wait(mon), m, WaitStep(s, mon))
  {
    hide Inv, Known, Leaves, Insere, WaitStep, OnlyArrivals, Handed;
    var p, q, k := WaitEffect(s, mon);
    NoArrivals(s.mutexes[m]);
    var l := s.monitors[mon].mutex;
    if s.mutexes[l].owner == Some(s.active) {
      HandedMutexes(s.(monitors := s.monitors[mon := Monitor(l, s.monitors[mon].fila + [s.active])]), l, Me(s).(pending := Some(l)), Window, p, q);
      LeavesMutexes(p, q, WaitStep(s, mon), k);
    }
  }

  lemma SignalMutex(s: State, op: Op, m: nat)
    requires Known(s) && WellFormed(s, op) && (op.Signal? || op.SignalAll?) && m < |s.mutexes|
    ensures MutexStep(s, op, m, Step(s, op))
  {
    hide SignalStep, SignalAllStep, OnlyArrivals;
    SignalEffect(s, op.mon);
    var q := s.monitors[op.mon].fila;
    var mx' := Step(s, op).value.mutexes[m];
    NoArrivals(s.mutexes[m]);
    if m == s.monitors[op.mon].mutex {
      var n := |mx'.fila| - |s.mutexes[m].fila|;
      assert mx'.fila == s.mutexes[m].fila + q[..n];
      Arrive(s.mutexes[m], q[..n]);
    }
  }

  /** In every step a mutex is handed to the first of its queue exactly if its owner releases it, is taken exactly by a
      lock while it is free, and otherwise gets nothing but arrivals. */
  lemma StepMutex(s: State, op: Op, m: nat)
    requires Inv(s) && Known(s) && WellFormed(s, op) && m < |s.mutexes|
    ensures MutexStep(s, op, m, Step(s, op))
  {
    hide Inv, Known, CreateStep, TickStep, YieldStep, ExitStep, JoinStep, SleepStep, NiceStep, LockStep, UnlockStep, WaitStep, SignalStep, SignalAllStep, OnlyArrivals;
    match op
    case Lock(l) => LockMutex(s, l, m);
    case Unlock(l) => UnlockMutex(s, l, m);
    case Wait(k) => WaitMutex(s, k, m);
    case Signal(k) => SignalMutex(s, op, m);
    case SignalAll(k) => SignalMutex(s, op, m);
    case _ =>
      OtherMutexes(s, op);
      NoArrivals(s.mutexes[m]);
      if Step(s, op).Some? { assert Step(s, op).value.mutexes[..|s.mutexes|][m] == s.mutexes[m]; }
  }

  // ---------- Runs ----------

  /** How often mutex `m` is released in the run. */
  ghost function ReleaseCount(s: State, ops: seq<Op>, m: nat): nat
    decreases |ops|
  {
    if ops == [] || !Known(s) || !WellFormed(s, ops[0]) || Step(s, ops[0]).None? then 0
    else (if Releases(s, ops[0], m) then 1 else 0) + ReleaseCount(Step(s, ops[0]).value, ops[1..], m)
  }

  /** After `r` releases the first `r` that queued for the mutex had it in their order, the last of them has it, and the
      others queue as before, ahead of all that came since. */
  ghost predicate HandedOn(mx: Mutex, mx': Mutex, r: nat) {
    && r <= |mx.fila| && mx'.grants == mx.grants + mx.fila[..r] && mx.fila[r..] <= mx'.fila
    && mx'.owner == if r == 0 then mx.owner else Some(mx.fila[r - 1])
  }

  lemma HandedLater(mx: Mutex, mx1: Mutex, mx': Mutex, r: nat)
    requires HandedOn(mx1, mx', r)
    requires (OnlyArrivals(mx, mx1) && r <= |mx.fila|) || (mx.fila != [] && mx1 == Passed(mx))
    ensures HandedOn(mx, mx', if OnlyArrivals(mx, mx1) && r <= |mx.fila| then r else r + 1)
  {
    if OnlyArrivals(mx, mx1) && r <= |mx.fila| {
      assert mx1.fila[..r] == mx.fila[..r];
      assert mx1.fila == mx.fila + mx1.fila[|mx.fila|..];
      assert mx1.fila[r..] == mx.fila[r..] + mx1.fila[|mx.fila|..];
    } else {
      assert mx.fila == [mx.fila[0]] + mx1.fila;
      assert mx.fila[..r + 1] == [mx.fila[0]] + mx1.fila[..r];
      assert mx.grants + mx.fila[..r + 1] == mx.grants + [mx.fila[0]] + mx1.fila[..r];
    }
  }

  lemma PassedDiffers(mx: Mutex)
    requires mx.owner.Some? && mx.fila != []
    ensures !OnlyArrivals(mx, Passed(mx))
  {
    assert |Passed(mx).grants| == |mx.grants| + 1;
  }

  lemma {:induction false} RunHandsOn(s: State, ops: seq<Op>, s': State, m: nat)
    requires Inv(s) && Reaches(s, ops, s') && m < |s.mutexes| && s.mutexes[m].owner.Some? && ReleaseCount(s, ops, m) <= |s.mutexes[m].fila|
    ensures Inv(s') && m < |s'.mutexes| && HandedOn(s.mutexes[m], s'.mutexes[m], ReleaseCount(s, ops, m))
    decreases |ops|
  {
    hide Inv, Known, WellFormed, Step, HandedOn, OnlyArrivals;
    if ops == [] {
      NothingHanded(s.mutexes[m]);
    } else {
      var s1 := Step(s, ops[0]).value;
      StepInv(s, ops[0]);
      StepMutex(s, ops[0], m);
      var mx, mx1 := s.mutexes[m], s1.mutexes[m];
      if Releases(s, ops[0], m) {
        PassedDiffers(mx);
      } else {
        ArrivalsKeep(mx, mx1);
      }
      RunHandsOn(s1, ops[1..], s', m);
      HandedLater(mx, mx1, s'.mutexes[m], ReleaseCount(s1, ops[1..], m));
    }
  }

  lemma NothingHanded(mx: Mutex)
    ensures HandedOn(mx, mx, 0)
  {
    assert mx.grants + mx.fila[..0] == mx.grants && mx.fila[0..] == mx.fila;
  }

  lemma ArrivalsKeep(mx: Mutex, mx': Mutex)
    requires OnlyArrivals(mx, mx')
    ensures mx'.owner == mx.owner && |mx.fila| <= |mx'.fila|
  {
  }

  /** Whoever is at place `i` of the queue of a mutex owns it when it was released `i + 1` times since, directly after all
      that were ahead of it; then it returns next, or did already. After fewer releases it still waits, by so many places
      nearer. */
  lemma QueuedReturns(s: State, ops: seq<Op>, s': State, m: nat, i: nat)
    requires Inv(s) && Reaches(s, ops, s') && m < |s.mutexes| && i < |s.mutexes[m].fila|
    ensures m < |s'.mutexes| && Inv(s')
    ensures var r, t := ReleaseCount(s, ops, m), s.mutexes[m].fila[i];
      && (r <= i ==> i - r < |s'.mutexes[m].fila| && s'.mutexes[m].fila[i - r] == t)
      && (r == i + 1 ==>
            && s'.mutexes[m].owner == Some(t) && s'.mutexes[m].grants == s.mutexes[m].grants + s.mutexes[m].fila[..i + 1]
            && t in s'.thr && (m in s'.thr[t].inside || s'.thr[t].pending == Some(m))
            && (s'.active == t ==> m in s'.thr[t].inside))
  {
    hide Conserved, RunKeyed, SleepKeyed, Ids, OthersBalanced, Balanced, Sorted, Reaches, ReleaseCount;
    assert FairMutex(s.mutexes[m]);
    var r, t := ReleaseCount(s, ops, m), s.mutexes[m].fila[i];
    if r <= i + 1 {
      RunHandsOn(s, ops, s', m);
      assert s.mutexes[m].fila[r..] <= s'.mutexes[m].fila;
      if r <= i { assert s.mutexes[m].fila[r..][i - r] == t; }
      if r == i + 1 { OwnerReturns(s', m); }
    } else {
      RunMutexes(s, ops, s', m);
    }
  }

  lemma OwnerReturns(s: State, m: nat)
    requires Inv(s) && m < |s.mutexes| && s.mutexes[m].owner.Some?
    ensures var t := s.mutexes[m].owner.value; t in s.thr && (m in s.thr[t].inside || s.thr[t].pending == Some(m)) && (s.active == t ==> m in s.thr[t].inside)
  {
  }

  lemma {:induction false} RunMutexes(s: State, ops: seq<Op>, s': State, m: nat)
    requires Inv(s) && Reaches(s, ops, s') && m < |s.mutexes|
    ensures m < |s'.mutexes| && Inv(s')
    decreases |ops|
  {
    hide Inv, Known, WellFormed, Step;
    if ops != [] {
      StepInv(s, ops[0]);
      StepMutex(s, ops[0], m);
      RunMutexes(Step(s, ops[0]).value, ops[1..], s', m);
    }
  }

  /** A thread signalled in a monitor waits until its mutex was released once for the signaller and once for each that
      queued before it, and then owns it: it returns from its wait. With a signal to all, so do all in their order. */
  lemma SignalledReturns(s: State, mon: nat, all: bool, i: nat, ops: seq<Op>, s': State)
    requires Inv(s) && Known(s) && mon < |s.monitors| && i < |s.monitors[mon].fila| && (i == 0 || all)
    requires s.mutexes[s.monitors[mon].mutex].owner == Some(s.active)
    requires Reaches(if all then SignalAllStep(s, mon) else SignalStep(s, mon), ops, s')
    ensures var m, t, s1 := s.monitors[mon].mutex, s.monitors[mon].fila[i], if all then SignalAllStep(s, mon) else SignalStep(s, mon);
      var n, r := |s.mutexes[m].fila| + i, ReleaseCount(s1, ops, m);
      && m < |s'.mutexes|
      && (r <= n ==> n - r < |s'.mutexes[m].fila| && s'.mutexes[m].fila[n - r] == t)
      && (r == n + 1 ==>
            && s'.mutexes[m].owner == Some(t)
            && s'.mutexes[m].grants == s.mutexes[m].grants + s.mutexes[m].fila + s.monitors[mon].fila[..i + 1]
            && t in s'.thr && (m in s'.thr[t].inside || s'.thr[t].pending == Some(m))
            && (s'.active == t ==> m in s'.thr[t].inside))
  {
    hide Inv, Reaches, ReleaseCount, SignalStep, SignalAllStep;
    SignalEffect(s, mon);
    SignalInv(s, mon);
    var m, q, s1 := s.monitors[mon].mutex, s.monitors[mon].fila, if all then SignalAllStep(s, mon) else SignalStep(s, mon);
    var n := |s.mutexes[m].fila| + i;
    assert s1.mutexes[m].fila[n] == q[i];
    assert s1.mutexes[m].fila[..n + 1] == s.mutexes[m].fila + q[..i + 1];
    QueuedReturns(s1, ops, s', m, n);
    assert s.mutexes[m].grants + (s.mutexes[m].fila + q[..i + 1]) == s.mutexes[m].grants + s.mutexes[m].fila + q[..i + 1];
  }
}
