/** Sleeping: over every run a sleeper stays asleep until the clock has come to its wake-up time, and while only clock
    ticks happen it wakes within a number of ticks that can be computed beforehand. */
module SchedulerSleep {
  import opened Wrappers
  import opened RedBlackOrder
  import opened SchedulerSpec
  import opened SchedulerInvariant
  import opened SchedulerSteps
  import opened SchedulerEffects
  import opened SchedulerFairness

  // ---------- The clock ----------

  /** Whether the thread that runs after the step went through the tail of the dispatcher: it was switched out there, or
      a tick left it running. */
  predicate ThroughTail(s: State, op: Op, s': State)
    requires s'.active in s.thr
  {
    if s'.active == s.active then op.Tick? else s.thr[s'.active].resume == Tail
  }

  /** The record of nobody but the running thread is in the tail of the dispatcher afterwards and was not before. */
  predicate NoMoreTails(s: State, p: State) {
    && p.clock == s.clock && p.thr.Keys == s.thr.Keys && s.active in s.thr && p.thr[s.active].resume != Tail
    && forall t :: t in s.thr && t != s.active ==> p.thr[t].resume == s.thr[t].resume
  }

  lemma LeavesClock(s: State, p: State, q: seq<Tid>, r: Option<State>, k: nat, op: Op)
    requires Leaves(p, q, r, k) && NoMoreTails(s, p) && !op.Tick?
    ensures r.Some? ==> r.value.active in s.thr && r.value.clock == s.clock + if ThroughTail(s, op, r.value) then 1 else 0
    ensures r.Some? ==> r.value.sleep == p.sleep
  {
    hide GoesOn;
  }

  lemma {:induction false} InsereHas(q: seq<Item>, it: Item)
    ensures it in Insere(q, it) && forall x :: x in q ==> x in Insere(q, it)
  {
    var n := Pos(q, it.chave);
    assert Insere(q, it)[n] == it;
    assert q == q[..n] + q[n..];
  }

  /** What a step does to the clock and the sleep tree. */
  ghost predicate Clocked(s: State, op: Op, r: Option<State>) {
    r.Some? ==>
      && r.value.active in s.thr && r.value.clock == s.clock + (if ThroughTail(s, op, r.value) then 1 else 0)
      && forall it :: it in s.sleep && (op.Tick? ==> it.chave > s.clock) ==> it in r.value.sleep
  }

  lemma CallClock(s: State, op: Op)
    requires Inv(s) && Known(s) && WellFormed(s, op) && (op.Yield? || op.Exit? || op.Join? || op.Sleep?)
    ensures Clocked(s, op, Step(s, op))
  {
    hide Conserved, Exclusive, Fair, RunKeyed, SleepKeyed, Ids, OthersBalanced, Balanced, Sorted, Insere, Turn, GoesFirst, Leaves, Entered,
         YieldStep, ExitStep, JoinStep, SleepStep, Joiners, NonJoiners;
    match op
    case Yield =>
      var k := YieldEffect(s);
      var p := s.(exe := Insere(s.exe, Item(Me(s).vruntime, s.active, s.active)));
      TurnLeaves(p, Tids(p.exe), YieldStep(s), k);
      LeavesClock(s, p, Tids(p.exe), YieldStep(s), k, op);
    case Exit =>
      var woken, rest, k := ExitEffect(s);
      var p := s.(join := rest, exe := Entered(s.thr, s.exe, woken),
                  zombie := if woken == [] then s.zombie + [s.active] else s.zombie, dead := if woken == [] then s.dead else s.dead + [s.active]);
      LeavesClock(s, p, Tids(p.exe), ExitStep(s), k, op);
    case Join(t) =>
      var k := JoinEffect(s, t);
      if t !in s.zombie {
        var p := s.(thr := s.thr[s.active := Me(s).(joinTid := t)], join := s.join + [s.active]);
        LeavesClock(s, p, Tids(p.exe), JoinStep(s, t), k, op);
      }
    case Sleep(time) =>
      var k := SleepEffect(s, time);
      if Ticks(time) != 0 {
        var w: nat := s.clock + Ticks(time);
        var p := s.(thr := s.thr[s.active := Me(s).(wake := w)], sleep := Insere(s.sleep, Item(w, s.active, s.active)));
        LeavesClock(s, p, Tids(p.exe), SleepStep(s, time), k, op);
        InsereHas(s.sleep, Item(w, s.active, s.active));
      }
  }

  lemma TurnLeaves(p: State, q: seq<Tid>, r: Option<State>, k: nat)
    requires r.Some? && Turn(p, q, r.value, k)
    ensures Leaves(p, q, r, k)
  {
  }

  lemma MutexClock(s: State, op: Op)
    requires Inv(s) && Known(s) && WellFormed(s, op) && (op.Lock? || op.Unlock? || op.Wait?)
    ensures Clocked(s, op, Step(s, op))
  {
    hide Conserved, Exclusive, Fair, RunKeyed, SleepKeyed, Ids, OthersBalanced, Balanced, Sorted, Insere, Turn, GoesFirst, Leaves,
         LockStep, UnlockStep, WaitStep;
    match op
    case Lock(m) =>
      var k := LockEffect(s, m);
      if s.mutexes[m].owner.Some? {
        var p := s.(thr := s.thr[s.active := Me(s).(pending := Some(m))],
                    mutexes := s.mutexes[m := s.mutexes[m].(fila := s.mutexes[m].fila + [s.active], arrivals := s.mutexes[m].arrivals + [s.active])]);
        LeavesClock(s, p, Tids(p.exe), LockStep(s, m), k, op);
      }
    case Unlock(m) =>
      var p, q, k := UnlockEffect(s, m);
      if s.mutexes[m].owner == Some(s.active) {
        HandedClock(s, m, Me(s), Call, p, q);
        if Yields(s, m, Me(s)) { LeavesClock(s, p, q, UnlockStep(s, m), k, op); }
      }
    case Wait(mon) =>
      var p, q, k := WaitEffect(s, mon);
      var m := s.monitors[mon].mutex;
      if s.mutexes[m].owner == Some(s.active) {
        var s1 := s.(monitors := s.monitors[mon := Monitor(m, s.monitors[mon].fila + [s.active])]);
        HandedClock(s1, m, Me(s).(pending := Some(m)), Window, p, q);
        LeavesClock(s, p, q, WaitStep(s, mon), k, op);
      }
  }

  lemma HandedClock(s: State, m: nat, th: Thread, r: Resume, p: State, q: seq<Tid>)
    requires m < |s.mutexes| && Handed(s, m, th, r, p, q) && s.active in s.thr && th.resume == Call && r != Tail
    ensures NoMoreTails(s, p) && p.sleep == s.sleep && (!Yields(s, m, th) ==> p.active == s.active)
  {
    hide Insere;
    assert p.thr.Keys == s.thr.Keys;
  }

  lemma OtherClock(s: State, op: Op)
    requires Inv(s) && Known(s) && WellFormed(s, op) && (op.Create? || op.Nice? || op.MutexInit? || op.MonitorInit? || op.Signal? || op.SignalAll?)
    ensures Clocked(s, op, Step(s, op))
  {
    hide Conserved, Exclusive, Fair, RunKeyed, SleepKeyed, Ids, OthersBalanced, Balanced, Sorted, Insere;
  }

  lemma TickSleeps(s: State)
    requires Inv(s) && Known(s)
    ensures Clocked(s, Tick, TickStep(s))
  {
    hide Inv, Known, Insere, GoesFirst, GoesOn, TickStep, Entered, TickedWoken, Decided, Tids, Displaced;
    KnownParts(s);
    TickClock(s);
    var j, w, k := TickEffect(s);
    NotDueStay(s, j);
    DecidedSleep(Me(s), w, TickStep(s).value, k);
  }

  lemma NotDueStay(s: State, j: nat)
    requires DueAt(s, j)
    ensures forall it :: it in s.sleep && it.chave > s.clock ==> it in s.sleep[j..]
  {
    forall it | it in s.sleep && it.chave > s.clock ensures it in s.sleep[j..] {
      var i :| 0 <= i < |s.sleep| && s.sleep[i] == it;
      assert s.sleep[j..][i - j] == it;
    }
  }

  lemma DecidedSleep(me: Thread, w: State, s: State, k: nat)
    requires w.active in w.thr && Decided(me, w, s, k)
    ensures s.sleep == w.sleep
  {
    hide GoesFirst, GoesOn, Insere;
  }

  /** In every step the clock advances by one exactly if the thread that runs afterwards went through the tail of the
      dispatcher, and nobody leaves the sleep tree but in a tick when its time has come. */
  lemma StepClock(s: State, op: Op)
    requires Inv(s) && Known(s) && WellFormed(s, op)
    ensures Clocked(s, op, Step(s, op))
  {
    hide Inv, Clocked, CreateStep, TickStep, YieldStep, ExitStep, JoinStep, SleepStep, NiceStep, LockStep, UnlockStep, WaitStep, SignalStep, SignalAllStep;
    match op
    case Create(_) => OtherClock(s, op);
    case Tick => TickSleeps(s);
    case Yield => CallClock(s, op);
    case Exit => CallClock(s, op);
    case Join(_) => CallClock(s, op);
    case Sleep(_) => CallClock(s, op);
    case Nice(_) => OtherClock(s, op);
    case MutexInit => OtherClock(s, op);
    case MonitorInit => OtherClock(s, op);
    case Lock(_) => MutexClock(s, op);
    case Unlock(_) => MutexClock(s, op);
    case Wait(_) => MutexClock(s, op);
    case Signal(_) => OtherClock(s, op);
    case SignalAll(_) => OtherClock(s, op);
  }

  /** Whoever sleeps is in the sleep tree under the clock of the call plus the time in whole ticks. */
  lemma FallsAsleep(s: State, time: int)
    requires Inv(s) && s.clock + Ticks(time) >= 0 && Ticks(time) != 0
    ensures KnownThreads(s)
    ensures SleepStep(s, time).Some? ==> Item(s.clock + Ticks(time), s.active, s.active) in SleepStep(s, time).value.sleep
  {
    hide Conserved, Exclusive, Fair, RunKeyed, SleepKeyed, Ids, OthersBalanced, Balanced, Sorted, Insere, Leaves, SleepStep;
    var k := SleepEffect(s, time);
    var w: nat := s.clock + Ticks(time);
    var p := s.(thr := s.thr[s.active := Me(s).(wake := w)], sleep := Insere(s.sleep, Item(w, s.active, s.active)));
    LeavesClock(s, p, Tids(p.exe), SleepStep(s, time), k, Sleep(time));
    InsereHas(s.sleep, Item(w, s.active, s.active));
  }

  /** Never before its time: over every run, whoever sleeps is still asleep as long as the clock has not come to its
      wake-up time. */
  lemma {:induction false} NeverBefore(s: State, ops: seq<Op>, s': State, it: Item)
    requires Inv(s) && Reaches(s, ops, s') && it in s.sleep
    ensures s.clock <= s'.clock <= s.clock + |ops| && (s'.clock < it.chave ==> it in s'.sleep)
    decreases |ops|
  {
    hide Inv, Known, WellFormed, Step;
    if ops != [] {
      var s1 := Step(s, ops[0]).value;
      StepInv(s, ops[0]);
      StepClock(s, ops[0]);
      LaterClock(s1, ops[1..], s');
      if s'.clock < it.chave { NeverBefore(s1, ops[1..], s', it); }
    }
  }

  lemma {:induction false} LaterClock(s: State, ops: seq<Op>, s': State)
    requires Inv(s) && Reaches(s, ops, s')
    ensures s.clock <= s'.clock <= s.clock + |ops|
    decreases |ops|
  {
    hide Inv, Known, WellFormed, Step;
    if ops != [] {
      StepInv(s, ops[0]);
      StepClock(s, ops[0]);
      LaterClock(Step(s, ops[0]).value, ops[1..], s');
    }
  }

  // ---------- Waking ----------

  /** How many in the run tree will not go on in the tail of the dispatcher. */
  function Late(thr: Threads, q: seq<Item>): nat
    requires ItemsKnown(thr.Keys, q)
  {
    if q == [] then 0 else (if thr[q[0].elem].resume == Tail then 0 else 1) + Late(thr, q[1..])
  }

  /** How many ticks can pass without the clock advancing. */
  function Held(s: State): nat
    requires KnownThreads(s)
  {
    Late(s.thr, s.exe) + |s.sleep|
  }

  /** The number of ticks within which the sleeper `it` wakes. */
  function WakesWithin(s: State, it: Item): nat
    requires KnownThreads(s)
  {
    (if it.chave > s.clock then it.chave - s.clock else 0) + Held(s) + 1
  }

  lemma {:induction false} LateConcat(thr: Threads, a: seq<Item>, b: seq<Item>)
    requires ItemsKnown(thr.Keys, a) && ItemsKnown(thr.Keys, b)
    ensures ItemsKnown(thr.Keys, a + b) && Late(thr, a + b) == Late(thr, a) + Late(thr, b)
  {
    if a == [] {
      assert a + b == b;
    } else {
      LateConcat(thr, a[1..], b);
      assert (a + b)[1..] == a[1..] + b;
    }
  }

  lemma LateInsere(thr: Threads, q: seq<Item>, it: Item)
    requires ItemsKnown(thr.Keys, q) && it.elem in thr
    ensures ItemsKnown(thr.Keys, Insere(q, it))
    ensures Late(thr, Insere(q, it)) == Late(thr, q) + if thr[it.elem].resume == Tail then 0 else 1
  {
    var a, b := q[..Pos(q, it.chave)], q[Pos(q, it.chave)..];
    assert q == a + b;
    LateConcat(thr, a, b);
    LateConcat(thr, [it], b);
    LateConcat(thr, a, [it] + b);
    assert a + [it] + b == a + ([it] + b);
  }

  lemma {:induction false} LateSame(thr: Threads, thr': Threads, q: seq<Item>)
    requires ItemsKnown(thr.Keys, q) && ItemsKnown(thr'.Keys, q)
    requires forall i :: 0 <= i < |q| && thr[q[i].elem].resume == Tail ==> thr'[q[i].elem].resume == Tail
    ensures Late(thr', q) <= Late(thr, q)
  {
    if q != [] {
      forall i | 0 <= i < |q[1..]| && thr[q[1..][i].elem].resume == Tail ensures thr'[q[1..][i].elem].resume == Tail {
        assert q[1..][i] == q[i + 1];
      }
      LateSame(thr, thr', q[1..]);
    }
  }

  lemma {:induction false} LateEntered(thr: Threads, q: seq<Item>, ts: seq<Tid>)
    requires ItemsKnown(thr.Keys, q) && QueueKnown(thr.Keys, ts)
    ensures ItemsKnown(thr.Keys, Entered(thr, q, ts)) && Late(thr, Entered(thr, q, ts)) <= Late(thr, q) + |ts|
    decreases |ts|
  {
    hide Insere;
    if ts != [] {
      var it := Item(thr[ts[0]].vruntime, ts[0], ts[0]);
      LateInsere(thr, q, it);
      LateEntered(thr, Insere(q, it), ts[1..]);
    } else {
      assert Entered(thr, q, ts) == q;
    }
  }

  /** A thread that is not in the window of a wait is in the run tree at most once. */
  lemma OnceInTree(s: State, i: nat, j: nat)
    requires Conserved(s, false) && i < j < |s.exe| && s.exe[i].elem == s.exe[j].elem
    ensures s.exe[i].elem in s.thr ==> s.thr[s.exe[i].elem].resume == Window
  {
    var t, q := s.exe[i].elem, Tids(s.exe);
    assert q == q[..j] + q[j..];
    assert q[i] == t && q[j] == t && q[..j][i] == t && q[j..][0] == t;
    assert t in multiset(q[..j]) && t in multiset(q[j..]);
    assert multiset(q)[t] == multiset(q[..j])[t] + multiset(q[j..])[t];
    assert Places(s)[t] >= multiset(q)[t];
  }

  /** A switch lets the clock advance, or one less is in the run tree that does not. */
  lemma TurnAdvances(p: State, s: State, k: nat)
    requires KnownThreads(p) && Conserved(p, false) && Turn(p, Tids(p.exe), s, k)
    ensures KnownThreads(s) && Late(s.thr, s.exe) + 1 <= Late(p.thr, p.exe) + (s.clock - p.clock)
  {
    hide Conserved, GoesOn, Late, Tids;
    var rest := p.exe[k + 1..];
    LateFrom(p.thr, p.exe, k);
    assert Tids(p.exe)[k] == p.exe[k].elem && s.exe == rest && ItemsKnown(s.thr.Keys, rest);
    forall i | 0 <= i < |rest| && p.thr[rest[i].elem].resume == Tail ensures s.thr[rest[i].elem].resume == Tail {
      assert rest[i] == p.exe[k + 1 + i];
      if rest[i].elem == p.exe[k].elem { OnceInTree(p, k, k + 1 + i); }
      PassedWindow(p, s, k, rest[i].elem);
    }
    LateSame(p.thr, s.thr, rest);
  }

  lemma LateFrom(thr: Threads, q: seq<Item>, k: nat)
    requires ItemsKnown(thr.Keys, q) && k < |q|
    ensures ItemsKnown(thr.Keys, q[k + 1..])
    ensures (if thr[q[k].elem].resume == Tail then 0 else 1) + Late(thr, q[k + 1..]) <= Late(thr, q)
  {
    LateConcat(thr, q[..k], q[k..]);
    assert q == q[..k] + q[k..] && q[k..][1..] == q[k + 1..] && q[k..][0] == q[k];
  }

  lemma PassedWindow(p: State, s: State, k: nat, t: Tid)
    requires Turn(p, Tids(p.exe), s, k) && t in p.thr && t != s.active && p.thr[t].resume == Tail
    ensures s.thr[t].resume == Tail
  {
    hide GoesOn;
    var q := Tids(p.exe)[..k];
    assert forall i :: 0 <= i < |q| ==> q[i] == Tids(p.exe)[i];
  }

  lemma TickedLate(s: State, w: State, j: nat)
    requires KnownThreads(s) && ItemsKnown(s.thr.Keys, s.sleep) && j <= |s.sleep| && AtDecision(s, w, j)
    ensures KnownThreads(w) && Held(w) <= Held(s)
  {
    hide Insere;
    var ts := Tids(s.sleep[..j]);
    LateEntered(s.thr, s.exe, ts);
    LateSame(s.thr, w.thr, w.exe);
  }

  lemma DisplacedLate(w: State)
    requires KnownThreads(w)
    ensures KnownThreads(Displaced(w)) && Late(Displaced(w).thr, Displaced(w).exe) <= Late(w.thr, w.exe)
  {
    hide Insere;
    var d := Displaced(w);
    assert d.thr.Keys == w.thr.Keys;
    LateSame(w.thr, d.thr, w.exe);
    LateInsere(d.thr, w.exe, Item(Me(w).vruntime, w.active, w.active));
  }

  lemma DecidedAdvances(me: Thread, w: State, s: State, k: nat)
    requires KnownThreads(w) && Decided(me, w, s, k) && Conserved(Displaced(w), false) && NotIn(w.exe, w.active)
    ensures KnownThreads(s) && Held(s) + 1 <= Held(w) + (s.clock - w.clock)
  {
    hide Conserved, GoesFirst, GoesOn, Insere, Displaced;
    DisplacedLate(w);
    DisplacedRest(w);
    if Stays(w, s) {
      assert s.thr.Keys == w.thr.Keys;
      LateSame(w.thr, s.thr, w.exe);
    } else {
      TurnAdvances(Displaced(w), s, k);
    }
  }

  lemma DisplacedRest(w: State)
    requires KnownThreads(w)
    ensures Displaced(w).clock == w.clock && Displaced(w).sleep == w.sleep
  {
  }

  /** Each tick lets the clock advance, or uses up one of the threads that keep it from advancing. */
  lemma TickAdvances(s: State)
    requires Inv(s) && Known(s)
    ensures TickStep(s).Some?
    ensures var s' := TickStep(s).value;
      && Inv(s') && Known(s') && s.clock <= s'.clock <= s.clock + 1
      && Held(s') + 1 <= Held(s) + (s'.clock - s.clock)
  {
    hide Conserved, Exclusive, Fair, RunKeyed, SleepKeyed, Ids, OthersBalanced, Balanced, Sorted, Insere, GoesFirst, GoesOn, TickStep, Held, TickedWoken, Turn;
    TickInv(s);
    TickClock(s);
    var j, w, k := TickEffect(s);
    TickedLate(s, w, j);
    TickParks(s);
    TickCore(s);
    OnlyActive(w);
    assert Put(SetResume(w, Tail), w.active) == Displaced(w);
    DecidedAdvances(Me(s), w, TickStep(s).value, k);
  }

  /** A sleeper whose time has come is runnable after a tick, or runs. */
  lemma DueWakes(s: State, it: Item)
    requires Inv(s) && Known(s) && it in s.sleep && it.chave <= s.clock
    ensures TickStep(s).Some?
    ensures var s' := TickStep(s).value; it !in s'.sleep && (s'.active == it.elem || it.elem in Tids(s'.exe))
  {
    hide Inv, Known, Insere, GoesFirst, GoesOn, TickStep, Entered, TickedWoken, Displaced, Decided, Tids;
    KnownParts(s);
    var j, w, k := TickEffect(s);
    SleeperEnters(s, w, j, it);
    DecidedKeeps(Me(s), w, TickStep(s).value, k, it.elem);
    DecidedSleep(Me(s), w, TickStep(s).value, k);
    assert it !in s.sleep[j..];
  }

  lemma SleeperEnters(s: State, w: State, j: nat, it: Item)
    requires Inv(s) && KnownThreads(s) && ItemsKnown(s.thr.Keys, s.sleep) && DueAt(s, j) && AtDecision(s, w, j) && w == TickedWoken(s)
    requires it in s.sleep && it.chave <= s.clock
    ensures it.elem in Tids(w.exe) && it.elem != w.active && it.elem in w.thr && w.thr[it.elem].resume != Window
  {
    hide Inv, Insere, Entered, TickedWoken, Known;
    var i :| 0 <= i < |s.sleep| && s.sleep[i] == it;
    var ts := Tids(s.sleep[..j]);
    assert s.sleep[..j][i] == it && ts[i] == it.elem;
    NotWindow(s, i);
    ActiveAwake(s, j);
    hide Tids;
    EnteredHas(s.thr, s.exe, ts, it.elem);
  }

  lemma EnteredHas(thr: Threads, q: seq<Item>, ts: seq<Tid>, t: Tid)
    requires QueueKnown(thr.Keys, ts) && t in ts
    ensures t in Tids(Entered(thr, q, ts))
  {
    hide Entered, Tids;
    EnteredAll(thr, q, ts);
    assert t in multiset(ts) && t in multiset(Tids(Entered(thr, q, ts)));
  }

  lemma NotWindow(s: State, i: nat)
    requires Inv(s) && i < |s.sleep|
    ensures s.sleep[i].elem in s.thr && s.thr[s.sleep[i].elem].resume != Window
  {
  }

  lemma TurnKeeps(p: State, s: State, k: nat, t: Tid)
    requires Turn(p, Tids(p.exe), s, k) && t in Tids(p.exe) && t in p.thr && p.thr[t].resume != Window
    ensures s.active == t || t in Tids(s.exe)
  {
    hide GoesOn, Tids;
    var i :| 0 <= i < |p.exe| && Tids(p.exe)[i] == t;
    TidsFrom(p.exe, s.exe, k, i);
  }

  lemma TidsFrom(q: seq<Item>, rest: seq<Item>, k: nat, i: nat)
    requires k <= i < |q| && rest == q[k + 1..]
    ensures i > k ==> Tids(q)[i] in Tids(rest)
  {
    if i > k { assert Tids(rest)[i - k - 1] == Tids(q)[i]; }
  }

  lemma DecidedKeeps(me: Thread, w: State, s: State, k: nat, t: Tid)
    requires w.active in w.thr && Decided(me, w, s, k) && t in Tids(w.exe) && t != w.active && t in w.thr && w.thr[t].resume != Window
    ensures s.active == t || t in Tids(s.exe)
  {
    hide GoesOn, Insere, GoesFirst, Turn, Tids;
    if !Stays(w, s) {
      TidsInsere(w.exe, Item(Me(w).vruntime, w.active, w.active));
      assert t in multiset(Tids(Displaced(w).exe));
      TurnKeeps(Displaced(w), s, k, t);
    }
  }

  /** While only clock ticks happen a sleeper is runnable, or runs, within `WakesWithin(s, it)` ticks. */
  lemma {:induction false} SleeperWakes(s: State, it: Item) returns (n: nat, s': State)
    requires Inv(s) && it in s.sleep
    ensures KnownThreads(s) && n <= WakesWithin(s, it) && Reaches(s, TickRun(n), s')
    ensures it !in s'.sleep && (s'.active == it.elem || it.elem in Tids(s'.exe))
    decreases if Known(s) then WakesWithin(s, it) else 0
  {
    hide Inv, Known, TickStep, Held, Tids;
    InvKnown(s);
    KnownParts(s);
    if it.chave <= s.clock {
      DueWakes(s, it);
      n, s' := 1, TickStep(s).value;
      assert Reaches(s', TickRun(n)[1..], s');
    } else {
      TickAdvances(s);
      StepClock(s, Tick);
      var s1 := TickStep(s).value;
      KnownParts(s1);
      var m;
      m, s' := SleeperWakes(s1, it);
      n := m + 1;
      assert TickRun(n)[1..] == TickRun(m);
    }
  }

  lemma KnownParts(s: State)
    requires Known(s)
    ensures KnownThreads(s) && ItemsKnown(s.thr.Keys, s.sleep)
  {
  }
}
