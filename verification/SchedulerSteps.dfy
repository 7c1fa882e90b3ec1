/** Every step keeps the scheduler's invariant, and so does every run. */
module SchedulerSteps {
  import opened Wrappers
  import opened RedBlackOrder
  import opened SchedulerSpec
  import opened SchedulerInvariant

  // ---------- Ticks and yields ----------

  /** One sleeper moves to the run tree. */
  function WakeOne(s: State): State
    requires s.sleep != [] && s.sleep[0].elem in s.thr
  {
    var t := s.sleep[0].elem;
    Put(s.(thr := s.thr[t := s.thr[t].(wake := 0)], sleep := s.sleep[1..]), t)
  }

  lemma WakeOnePlaces(s: State)
    requires s.sleep != [] && s.sleep[0].elem in s.thr
    ensures Places(WakeOne(s)) == Places(s) && Waiters(WakeOne(s)) == Waiters(s)
  {
    var t := s.sleep[0].elem;
    var s1 := s.(thr := s.thr[t := s.thr[t].(wake := 0)], sleep := s.sleep[1..]);
    assert s.sleep == [s.sleep[0]] + s.sleep[1..];
    TidsConcat([s.sleep[0]], s.sleep[1..]);
    assert Tids([s.sleep[0]]) == [t];
    assert multiset(Tids(s.sleep)) == multiset{t} + multiset(Tids(s1.sleep));
    PutPlaces(s1, t);
  }

  lemma WakeOneConserved(s: State)
    requires Conserved(s, true) && s.sleep != [] && s.sleep[0].elem in s.thr
    ensures Conserved(WakeOne(s), true)
  {
    hide Places, Insere;
    WakeOnePlaces(s);
    var s' := WakeOne(s);
    forall x: Tid ensures Places(s')[x] + (if x == s'.active then 1 else 0) == Tokens(s'.thr, x) {
      assert Places(s)[x] + (if x == s.active then 1 else 0) == Tokens(s.thr, x);
    }
  }

  /** A sleeper is nowhere else. */
  lemma OnlyAsleep(s: State)
    requires Conserved(s, true) && s.sleep != [] && SleepKeyed(s.thr, s.sleep)
    ensures NotIn(s.sleep[1..], s.sleep[0].elem) && s.sleep[0].elem != s.active
  {
    var t := s.sleep[0].elem;
    assert s.sleep == [s.sleep[0]] + s.sleep[1..];
    TidsConcat([s.sleep[0]], s.sleep[1..]);
    assert Tids([s.sleep[0]]) == [t];
    assert Tokens(s.thr, t) == 1;
    assert Places(s)[t] + (if t == s.active then 1 else 0) == 1;
    var rest := multiset(Tids(s.sleep[1..]));
    assert multiset(Tids(s.sleep))[t] == 1 + rest[t];
    assert rest[t] == 0;
    forall i | 0 <= i < |s.sleep[1..]| ensures s.sleep[1..][i].elem != t {
      assert Tids(s.sleep[1..])[i] in rest;
    }
  }

  lemma WakeOneOrdered(s: State)
    requires Ordered(s) && s.sleep != [] && NotIn(s.sleep[1..], s.sleep[0].elem)
    ensures Ordered(WakeOne(s))
  {
    hide Insere;
    var t := s.sleep[0].elem;
    var s1 := s.(thr := s.thr[t := s.thr[t].(wake := 0)], sleep := s.sleep[1..]);
    assert s1.thr.Keys == s.thr.Keys;
    assert forall i :: 0 <= i < |s1.sleep| ==> s1.sleep[i] == s.sleep[i + 1];
    assert RunKeyed(s1.thr, s1.exe);
    assert SleepKeyed(s1.thr, s1.sleep);
    PutOrdered(s1, t);
  }

  lemma WakeOneExclusive(s: State)
    requires Exclusive(s) && s.sleep != [] && s.sleep[0].elem in s.thr
    ensures Exclusive(WakeOne(s))
  {
    hide Insere, Waiters;
    WakeOnePlaces(s);
    var s' := WakeOne(s);
    assert MutexPending(s'.thr, s'.mutexes);
    assert MonitorPending(s'.thr, s'.monitors);
    assert PendingOwned(s'.thr, s'.mutexes, Waiters(s'));
    assert InsideOwned(s'.thr, s'.mutexes);
    assert OwnersInside(s'.thr, s'.mutexes);
  }

  lemma WakeOneBalanced(s: State)
    requires OthersBalanced(s) && s.sleep != [] && s.sleep[0].elem in s.thr
    ensures OthersBalanced(WakeOne(s))
  {
    hide Insere;
  }

  lemma {:induction false} WakeAllCore(s: State)
    requires Core(s, true)
    ensures Core(WakeAll(s), true) && Me(WakeAll(s)) == Me(s)
    ensures WakeAll(s).active == s.active && WakeAll(s).clock == s.clock
    decreases |s.sleep|
  {
    hide Conserved, Exclusive, Fair, RunKeyed, SleepKeyed, Sorted, Ids, OthersBalanced, Insere, NotIn;
    if s.sleep != [] && s.sleep[0].chave <= s.clock {
      OnlyAsleep(s);
      WakeOneConserved(s);
      WakeOneOrdered(s);
      WakeOneExclusive(s);
      WakeOneBalanced(s);
      WakeAllCore(WakeOne(s));
    }
  }

  /** The state of a tick once the clock is charged to the thread and the sleepers are woken. */
  function TickedWoken(s: State): State
    requires KnownThreads(s) && ItemsKnown(s.thr.Keys, s.sleep)
  {
    WakeAll(SetMe(s, Me(s).(times := Me(s).times + 1, exectime := Me(s).exectime + 1)))
  }

  lemma TickCore(s: State)
    requires Inv(s)
    ensures var s2 := TickedWoken(s);
      && Core(s2, true) && Me(s2).resume == Call && Me(s2).pending == None && Balanced(Me(s2).(resume := Tail))
  {
    hide Conserved, Exclusive, Fair, RunKeyed, SleepKeyed, Sorted, Ids, OthersBalanced, Insere;
    var th := Me(s).(times := Me(s).times + 1, exectime := Me(s).exectime + 1);
    SetMeCore(s, th);
    WakeAllCore(SetMe(s, th));
    TickBalanced(Me(s));
  }

  lemma TickParks(s: State)
    requires Inv(s)
    ensures var s2 := TickedWoken(s);
      s2.active in s2.thr && Parked(Put(SetResume(s2, Tail), s2.active))
  {
    hide Conserved, Exclusive, Fair, RunKeyed, SleepKeyed, Sorted, Ids, OthersBalanced, Insere, TickedWoken;
    TickCore(s);
    var s2 := TickedWoken(s);
    SetMeCore(s2, Me(s2).(resume := Tail));
    PutParks(SetResume(s2, Tail));
  }

  lemma TickInv(s: State)
    requires Inv(s)
    ensures TickStep(s).Some? ==> Inv(TickStep(s).value)
  {
    hide Conserved, Exclusive, Fair, RunKeyed, SleepKeyed, Sorted, Ids, OthersBalanced, Insere, Balanced;
    TickCore(s);
    var s2 := TickedWoken(s);
    if Me(s2).vruntime + Me(s2).Weight() * Me(s2).times >= MinKey(s2) {
      TickParks(s);
      SwitchInv(Put(SetResume(s2, Tail), s2.active));
    } else {
      RunTailInv(s2);
    }
  }

  lemma TickBalanced(th: Thread)
    requires Balanced(th) && th.resume == Call
    ensures Balanced(th.(times := th.times + 1, exectime := th.exectime + 1, resume := Tail))
  {
  }

  lemma YieldParks(s: State)
    requires Inv(s)
    ensures Parked(Put(SetResume(s, Call), s.active))
  {
    hide Conserved, Exclusive, Fair, RunKeyed, SleepKeyed, Sorted, Ids, OthersBalanced, Insere;
    SetMeCore(s, Me(s).(resume := Call));
    PutParks(SetResume(s, Call));
  }

  lemma YieldInv(s: State)
    requires Inv(s)
    ensures YieldStep(s).Some? ==> Inv(YieldStep(s).value)
  {
    hide Conserved, Exclusive, Fair, RunKeyed, SleepKeyed, Sorted, Ids, OthersBalanced, Insere, Parked, Balanced;
    YieldParks(s);
    SwitchInv(Put(SetResume(s, Call), s.active));
  }

  // ---------- Exit, join, sleep ----------

  lemma {:induction false} PutAllKeeps(s: State, q: seq<Tid>)
    requires Ordered(s) && QueueKnown(s.thr.Keys, q)
    ensures Ordered(PutAll(s, q)) && Places(PutAll(s, q)) == Places(s) + multiset(q)
    ensures Waiters(PutAll(s, q)) == Waiters(s)
    decreases |q|
  {
    hide Ids, RunKeyed, SleepKeyed, Sorted, Insere, Places, Waiters;
    if q == [] {
      assert multiset(q) == multiset{};
    } else {
      PutOrdered(s, q[0]);
      PutPlaces(s, q[0]);
      PutAllKeeps(Put(s, q[0]), q[1..]);
      assert q == [q[0]] + q[1..];
      assert Places(PutAll(s, q)) == Places(s) + multiset{q[0]} + multiset(q[1..]);
    }
  }

  /** The state of an exit before the switch. */
  function Exited(s: State): State
    requires KnownThreads(s) && QueueKnown(s.thr.Keys, s.join)
  {
    JoinersKnown(s, s.join, s.active);
    var woken := Joiners(s, s.join, s.active);
    var s1 := PutAll(s.(join := NonJoiners(s, s.join, s.active)), woken);
    if woken == [] then s1.(zombie := s1.zombie + [s.active]) else s1.(dead := s1.dead + [s.active])
  }

  lemma JoinSplit(s: State, rest: seq<Tid>, woken: seq<Tid>)
    requires multiset(woken) + multiset(rest) == multiset(s.join)
    ensures Places(s.(join := rest)) + multiset(woken) == Places(s) && Waiters(s.(join := rest)) == Waiters(s)
  {
    WaitersSame(s, s.(join := rest));
  }

  lemma EndPlaces(s: State, t: Tid)
    ensures Places(s.(zombie := s.zombie + [t])) == Places(s) + multiset{t}
    ensures Places(s.(dead := s.dead + [t])) == Places(s) + multiset{t}
    ensures Waiters(s.(zombie := s.zombie + [t])) == Waiters(s) && Waiters(s.(dead := s.dead + [t])) == Waiters(s)
  {
    hide Waiters;
    WaitersSame(s, s.(zombie := s.zombie + [t]));
    WaitersSame(s, s.(dead := s.dead + [t]));
    assert multiset(s.zombie + [t]) == multiset(s.zombie) + multiset{t};
    assert multiset(s.dead + [t]) == multiset(s.dead) + multiset{t};
  }

  lemma ExitedPlaces(s: State)
    requires Ordered(s)
    ensures Places(Exited(s)) == Places(s) + multiset{s.active} && Waiters(Exited(s)) == Waiters(s)
    ensures Ordered(Exited(s))
  {
    hide Ids, RunKeyed, SleepKeyed, Sorted, Insere, Waiters, PutAll, Places, Joiners, NonJoiners;
    JoinersKnown(s, s.join, s.active);
    var woken, rest := Joiners(s, s.join, s.active), NonJoiners(s, s.join, s.active);
    var s0 := s.(join := rest);
    JoinSplit(s, rest, woken);
    PutAllKeeps(s0, woken);
    EndPlaces(PutAll(s0, woken), s.active);
  }

  lemma WaitersSame(s: State, s': State)
    requires s'.mutexes == s.mutexes && s'.monitors == s.monitors
    ensures Waiters(s') == Waiters(s)
  {
  }

  /** What keeps the records, mutexes and monitors keeps who waits for whom. */
  lemma ExclusiveSame(s: State, s': State)
    requires Exclusive(s) && s'.thr == s.thr && s'.mutexes == s.mutexes && s'.monitors == s.monitors
    ensures Exclusive(s')
  {
    hide Waiters, ExclusiveParts;
    WaitersSame(s, s');
  }

  lemma ExitParks(s: State)
    requires Inv(s)
    ensures Parked(Exited(s))
  {
    hide Conserved, Exclusive, Fair, RunKeyed, SleepKeyed, Sorted, Ids, Insere, Places, Waiters, Balanced;
    ExitedPlaces(s);
    ExclusiveSame(s, Exited(s));
    PlacesPark(s, Exited(s));
  }

  lemma ExitInv(s: State)
    requires Inv(s)
    ensures ExitStep(s).Some? ==> Inv(ExitStep(s).value)
  {
    hide Conserved, Exclusive, Fair, RunKeyed, SleepKeyed, Sorted, Ids, Insere, Places, Waiters, Balanced, Parked;
    ExitParks(s);
    SwitchInv(Exited(s));
  }

  lemma {:induction false} MatchingWithout(q: seq<Tid>, t: Tid)
    ensures multiset(Matching(q, t)) + multiset(Without(q, t)) == multiset(q)
    ensures forall x :: x in Matching(q, t) ==> x == t
    ensures t !in Without(q, t) && forall x :: x in Without(q, t) ==> x in q
  {
    if q != [] {
      MatchingWithout(q[1..], t);
      assert q == [q[0]] + q[1..];
    }
  }

  lemma ReapPlaces(s: State, t: Tid)
    ensures var s' := s.(zombie := Without(s.zombie, t), dead := s.dead + Matching(s.zombie, t));
      Places(s') == Places(s)
  {
    hide Waiters;
    var s' := s.(zombie := Without(s.zombie, t), dead := s.dead + Matching(s.zombie, t));
    MatchingWithout(s.zombie, t);
    WaitersSame(s, s');
    var a, b, c := multiset(s.dead), multiset(Matching(s.zombie, t)), multiset(Without(s.zombie, t));
    assert multiset(s'.zombie) + multiset(s'.dead) == multiset(s.zombie) + multiset(s.dead);
  }

  lemma JoinPlaces(s: State)
    ensures Places(s.(join := s.join + [s.active])) == Places(s) + multiset{s.active}
  {
    hide Waiters;
    var s' := s.(join := s.join + [s.active]);
    WaitersSame(s, s');
    assert multiset(s'.join) == multiset(s.join) + multiset{s.active};
  }

  /** The state of a blocking join before the switch. */
  function Blocked(s: State, t: Tid): State
    requires KnownThreads(s)
  {
    var s1 := SetMe(s, Me(s).(joinTid := t, resume := Call));
    s1.(join := s1.join + [s.active])
  }

  lemma JoinParks(s: State, t: Tid)
    requires Inv(s)
    ensures Parked(Blocked(s, t))
  {
    hide Conserved, Exclusive, Fair, RunKeyed, SleepKeyed, Sorted, Ids, Insere, Places, Waiters, OthersBalanced;
    var s1 := SetMe(s, Me(s).(joinTid := t, resume := Call));
    SetMeCore(s, Me(s1));
    JoinPlaces(s1);
    PlacesPark(s1, Blocked(s, t));
    ExclusiveSame(s1, Blocked(s, t));
    OthersSame(s1, Blocked(s, t));
  }

  lemma JoinInv(s: State, t: Tid)
    requires Inv(s)
    ensures JoinStep(s, t).Some? ==> Inv(JoinStep(s, t).value)
  {
    hide Conserved, Exclusive, Fair, RunKeyed, SleepKeyed, Sorted, Ids, Insere, Places, Waiters, OthersBalanced, Parked;
    if t in s.zombie {
      var s' := JoinStep(s, t).value;
      ReapPlaces(s, t);
      PlacesKeep(s, s', true);
      ExclusiveSame(s, s');
      OthersSame(s, s');
    } else {
      JoinParks(s, t);
      SwitchInv(Blocked(s, t));
    }
  }

  lemma OthersSame(s: State, s': State)
    requires OthersBalanced(s) && s'.thr == s.thr && s'.active == s.active
    ensures OthersBalanced(s')
  {
  }

  lemma SleepPlaces(s: State, it: Item)
    ensures Places(s.(sleep := Insere(s.sleep, it))) == Places(s) + multiset{it.elem}
  {
    hide Waiters;
    TidsInsere(s.sleep, it);
    WaitersSame(s, s.(sleep := Insere(s.sleep, it)));
  }

  lemma SleepOrdered(s: State, it: Item)
    requires Ordered(s) && it.elem in s.thr && s.thr[it.elem].resume != Window
    requires it == Item(s.thr[it.elem].wake, it.elem, it.elem)
    ensures Ordered(s.(sleep := Insere(s.sleep, it)))
  {
    hide Insere;
    var s' := s.(sleep := Insere(s.sleep, it));
    InsereSorted(s.sleep, it);
    InsereItems(s.sleep, it);
    InsereKnown(s.thr.Keys, s.sleep, it);
    forall i | 0 <= i < |s'.sleep|
      ensures s'.sleep[i].elem in s.thr && s.thr[s'.sleep[i].elem].resume != Window
      ensures s'.sleep[i] == Item(s.thr[s'.sleep[i].elem].wake, s'.sleep[i].elem, s'.sleep[i].elem)
    {
      if s'.sleep[i] != it {
        var j :| 0 <= j < |s.sleep| && s.sleep[j] == s'.sleep[i];
      }
    }
  }

  /** The state of a sleep until `w` before the switch. */
  function Asleep(s: State, w: nat): State
    requires KnownThreads(s)
  {
    var s1 := SetMe(s, Me(s).(wake := w, resume := Call));
    s1.(sleep := Insere(s1.sleep, Item(w, s.active, s.active)))
  }

  lemma SleepParks(s: State, w: nat)
    requires Inv(s)
    ensures Parked(Asleep(s, w))
  {
    hide Conserved, Exclusive, Fair, RunKeyed, SleepKeyed, Sorted, Ids, Insere, Places, Waiters, OthersBalanced;
    var s1 := SetMe(s, Me(s).(wake := w, resume := Call));
    SetMeCore(s, Me(s1));
    var it := Item(w, s.active, s.active);
    SleepPlaces(s1, it);
    SleepOrdered(s1, it);
    PlacesPark(s1, Asleep(s, w));
    ExclusiveSame(s1, Asleep(s, w));
    OthersSame(s1, Asleep(s, w));
  }

  lemma SleepInv(s: State, time: int)
    requires Inv(s) && s.clock + Ticks(time) >= 0
    ensures SleepStep(s, time).Some? ==> Inv(SleepStep(s, time).value)
  {
    hide Conserved, Exclusive, Fair, RunKeyed, SleepKeyed, Sorted, Ids, Insere, OthersBalanced, Parked, Ticks;
    if Ticks(time) != 0 {
      SleepParks(s, s.clock + Ticks(time));
      SwitchInv(Asleep(s, s.clock + Ticks(time)));
    }
  }

  // ---------- Mutexes and monitors ----------

  lemma Cancel(a: multiset<Tid>, b: multiset<Tid>, c: multiset<Tid>)
    requires a + c == b + c
    ensures a == b
  {
    forall x: Tid ensures a[x] == b[x] {
      assert (a + c)[x] == (b + c)[x];
    }
  }

  lemma AddBoth(a: multiset<Tid>, b: multiset<Tid>, c: multiset<Tid>, d: multiset<Tid>, r: multiset<Tid>)
    requires a + b == c + d
    ensures (r + a) + b == (r + c) + d && (a + r) + b == (c + r) + d
  {
    forall x: Tid ensures a[x] + b[x] == c[x] + d[x] {
      assert (a + b)[x] == (c + d)[x];
    }
  }

  /** Everywhere but the queues of mutexes and monitors. */
  function Elsewhere(s: State): multiset<Tid> {
    multiset(Tids(s.exe)) + multiset(Tids(s.sleep)) + multiset(s.join) + multiset(s.zombie) + multiset(s.dead)
  }

  lemma MutexPlaces(s: State, m: nat, x: Mutex)
    requires m < |s.mutexes|
    ensures var s' := s.(mutexes := s.mutexes[m := x]);
      && Waiters(s') + multiset(s.mutexes[m].fila) == Waiters(s) + multiset(x.fila)
      && Places(s') + multiset(s.mutexes[m].fila) == Places(s) + multiset(x.fila)
  {
    hide MutexWaiters, MonitorWaiters;
    MutexUpdate(s.mutexes, m, x);
    var s' := s.(mutexes := s.mutexes[m := x]);
    var q, q' := multiset(s.mutexes[m].fila), multiset(x.fila);
    AddBoth(MutexWaiters(s'.mutexes), q, MutexWaiters(s.mutexes), q', MonitorWaiters(s.monitors));
    AddBoth(Waiters(s'), q, Waiters(s), q', Elsewhere(s));
  }

  lemma MonitorPlaces(s: State, k: nat, x: Monitor)
    requires k < |s.monitors|
    ensures var s' := s.(monitors := s.monitors[k := x]);
      && Waiters(s') + multiset(s.monitors[k].fila) == Waiters(s) + multiset(x.fila)
      && Places(s') + multiset(s.monitors[k].fila) == Places(s) + multiset(x.fila)
  {
    hide MutexWaiters, MonitorWaiters;
    MonitorUpdate(s.monitors, k, x);
    var s' := s.(monitors := s.monitors[k := x]);
    var q, q' := multiset(s.monitors[k].fila), multiset(x.fila);
    AddBoth(MonitorWaiters(s'.monitors), q, MonitorWaiters(s.monitors), q', MutexWaiters(s.mutexes));
    AddBoth(Waiters(s'), q, Waiters(s), q', Elsewhere(s));
  }

  lemma OrderedSame(s: State, s': State)
    requires Ordered(s) && s' == s.(mutexes := s'.mutexes, monitors := s'.monitors)
    requires MutexesKnown(s.thr.Keys, s'.mutexes) && MonitorsKnown(|s'.mutexes|, s'.monitors)
    ensures Ordered(s')
  {
  }

  /** A free mutex is granted at once. */
  function Acquired(s: State, m: nat): State
    requires s.active in s.thr && m < |s.mutexes|
  {
    var mx := s.mutexes[m];
    SetMe(s.(mutexes := s.mutexes[m := Mutex(Some(s.active), mx.fila, mx.arrivals + [s.active], mx.grants + [s.active])]),
          Me(s).(inside := Me(s).inside + {m}))
  }

  lemma AcquiredWaiters(s: State, m: nat)
    requires s.active in s.thr && m < |s.mutexes|
    ensures Waiters(Acquired(s, m)) == Waiters(s)
  {
    hide Waiters;
    var s1 := s.(mutexes := Acquired(s, m).mutexes);
    MutexPlaces(s, m, s1.mutexes[m]);
    Cancel(Waiters(s1), Waiters(s), multiset(s.mutexes[m].fila));
    WaitersSame(s1, Acquired(s, m));
  }

  lemma AcquiredPending(s: State, m: nat)
    requires Known(s) && Exclusive(s) && m < |s.mutexes| && s.mutexes[m].owner == None
    ensures var s' := Acquired(s, m);
      MutexPending(s'.thr, s'.mutexes) && MonitorPending(s'.thr, s'.monitors) && OwnersInside(s'.thr, s'.mutexes)
  {
    hide Waiters, PendingOwned, InsideOwned;
    var s' := Acquired(s, m);
    assert MutexPending(s'.thr, s'.mutexes);
    assert MonitorPending(s'.thr, s'.monitors);
    assert OwnersInside(s'.thr, s'.mutexes);
  }

  lemma AcquiredOwned(s: State, m: nat)
    requires Known(s) && Exclusive(s) && m < |s.mutexes| && s.mutexes[m].owner == None
    ensures var s' := Acquired(s, m);
      PendingOwned(s'.thr, s'.mutexes, Waiters(s')) && InsideOwned(s'.thr, s'.mutexes)
  {
    hide Waiters, MutexPending, MonitorPending, OwnersInside;
    AcquiredWaiters(s, m);
    var s' := Acquired(s, m);
    forall t | t in s'.thr && s'.thr[t].pending.Some?
      ensures Owns(s'.mutexes, s'.thr[t].pending.value, t) || Waiters(s')[t] > 0
    {
      assert Owns(s.mutexes, s.thr[t].pending.value, t) || Waiters(s)[t] > 0;
    }
    forall t | t in s'.thr ensures AllOwned(s'.mutexes, s'.thr[t].inside, t) {
      assert AllOwned(s.mutexes, s.thr[t].inside, t);
    }
  }

  lemma AcquiredExclusive(s: State, m: nat)
    requires Known(s) && Exclusive(s) && m < |s.mutexes| && s.mutexes[m].owner == None
    ensures Exclusive(Acquired(s, m)) && Waiters(Acquired(s, m)) == Waiters(s)
  {
    hide Waiters, MutexPending, MonitorPending, InsideOwned, PendingOwned, OwnersInside;
    AcquiredWaiters(s, m);
    AcquiredPending(s, m);
    AcquiredOwned(s, m);
  }

  lemma AcquiredInv(s: State, m: nat)
    requires Inv(s) && m < |s.mutexes| && s.mutexes[m].owner == None
    ensures Inv(Acquired(s, m))
  {
    hide Conserved, Exclusive, RunKeyed, SleepKeyed, Sorted, Ids, Places, Waiters, NotIn;
    OnlyActive(s);
    AcquiredExclusive(s, m);
    var s' := Acquired(s, m);
    var s1 := s.(mutexes := s'.mutexes);
    MutexPlaces(s, m, s'.mutexes[m]);
    Cancel(Places(s1), Places(s), multiset(s.mutexes[m].fila));
    PlacesKeep(s, s1, true);
    assert MutexesKnown(s.thr.Keys, s1.mutexes) by { assert s1.mutexes[m].fila == s.mutexes[m].fila; }
    OrderedSame(s, s1);
    OrderedSetMe(s1, Me(s'));
    ConservedSetMe(s1, Me(s'), true);
    assert FairMutex(s.mutexes[m]);
    assert FairMutex(s'.mutexes[m]);
  }

  /** An owned mutex: the thread queues up for it. */
  function Queued(s: State, m: nat): State
    requires s.active in s.thr && m < |s.mutexes|
  {
    var mx := s.mutexes[m];
    var s1 := s.(mutexes := s.mutexes[m := mx.(fila := mx.fila + [s.active], arrivals := mx.arrivals + [s.active])]);
    SetMe(s1, Me(s1).(pending := Some(m), resume := Call))
  }

  lemma QueuedPlaces(s: State, m: nat)
    requires s.active in s.thr && m < |s.mutexes|
    ensures Waiters(Queued(s, m)) == Waiters(s) + multiset{s.active}
    ensures Places(Queued(s, m)) == Places(s) + multiset{s.active}
  {
    hide Waiters, Places;
    var s' := Queued(s, m);
    var s1 := s.(mutexes := s'.mutexes);
    var q, me := multiset(s.mutexes[m].fila), multiset{s.active};
    MutexPlaces(s, m, s'.mutexes[m]);
    SamePlaces(s1, s');
    assert multiset(s'.mutexes[m].fila) == q + me;
    assert Waiters(s) + (q + me) == Waiters(s) + me + q && Places(s) + (q + me) == Places(s) + me + q;
    Cancel(Waiters(s'), Waiters(s) + me, q);
    Cancel(Places(s'), Places(s) + me, q);
  }

  lemma QueuedPending(s: State, m: nat)
    requires Known(s) && Exclusive(s) && m < |s.mutexes| && Me(s).pending == None
    requires forall i :: 0 <= i < |s.mutexes| ==> s.active !in s.mutexes[i].fila
    requires forall k :: 0 <= k < |s.monitors| ==> s.active !in s.monitors[k].fila
    ensures var s' := Queued(s, m);
      MutexPending(s'.thr, s'.mutexes) && MonitorPending(s'.thr, s'.monitors) && InsideOwned(s'.thr, s'.mutexes)
  {
    hide Waiters, PendingOwned, OwnersInside;
    var s' := Queued(s, m);
    forall i | 0 <= i < |s'.mutexes| ensures QueuePending(s'.thr, s'.mutexes[i].fila, i) {
      assert QueuePending(s.thr, s.mutexes[i].fila, i);
    }
    forall k | 0 <= k < |s'.monitors| ensures QueuePending(s'.thr, s'.monitors[k].fila, s'.monitors[k].mutex) {
      assert QueuePending(s.thr, s.monitors[k].fila, s.monitors[k].mutex);
    }
    forall t | t in s'.thr ensures AllOwned(s'.mutexes, s'.thr[t].inside, t) {
      assert AllOwned(s.mutexes, s.thr[t].inside, t);
    }
  }

  lemma QueuedOwned(s: State, m: nat)
    requires Known(s) && Exclusive(s) && m < |s.mutexes| && Me(s).pending == None
    ensures var s' := Queued(s, m);
      PendingOwned(s'.thr, s'.mutexes, Waiters(s')) && OwnersInside(s'.thr, s'.mutexes)
  {
    hide Waiters, MutexPending, MonitorPending, InsideOwned;
    QueuedPlaces(s, m);
    var s' := Queued(s, m);
    forall t | t in s'.thr && s'.thr[t].pending.Some?
      ensures Owns(s'.mutexes, s'.thr[t].pending.value, t) || Waiters(s')[t] > 0
    {
      if t != s.active { assert Owns(s.mutexes, s.thr[t].pending.value, t) || Waiters(s)[t] > 0; }
    }
  }

  lemma QueuedExclusive(s: State, m: nat)
    requires Known(s) && Exclusive(s) && m < |s.mutexes| && Me(s).pending == None
    requires forall i :: 0 <= i < |s.mutexes| ==> s.active !in s.mutexes[i].fila
    requires forall k :: 0 <= k < |s.monitors| ==> s.active !in s.monitors[k].fila
    ensures Exclusive(Queued(s, m))
  {
    QueuedPending(s, m);
    QueuedOwned(s, m);
    hide Waiters, MutexPending, MonitorPending, InsideOwned, PendingOwned, OwnersInside;
  }

  lemma QueuedParks(s: State, m: nat)
    requires Inv(s) && m < |s.mutexes| && s.mutexes[m].owner.Some?
    ensures Parked(Queued(s, m))
  {
    hide Conserved, Exclusive, RunKeyed, SleepKeyed, Sorted, Ids, Places, Waiters, NotIn;
    OnlyActive(s);
    QueuedExclusive(s, m);
    QueuedPlaces(s, m);
    var s' := Queued(s, m);
    var s1 := s.(mutexes := s'.mutexes);
    assert FairMutex(s.mutexes[m]);
    assert FairMutex(s'.mutexes[m]);
    assert MutexesKnown(s.thr.Keys, s1.mutexes);
    OrderedSame(s, s1);
    OrderedSetMe(s1, Me(s'));
    QueuedConserved(s, s');
  }

  lemma QueuedConserved(s: State, s': State)
    requires Conserved(s, true) && Places(s') == Places(s) + multiset{s.active} && s.active in s.thr && s.active in s'.thr
    requires s'.thr == s.thr[s.active := s'.thr[s.active]] && (Me(s).resume == Window <==> s'.thr[s.active].resume == Window)
    ensures Conserved(s', false)
  {
    hide Places;
    forall t: Tid ensures Places(s')[t] == Tokens(s'.thr, t) {
      assert Places(s)[t] + (if t == s.active then 1 else 0) == Tokens(s.thr, t);
    }
  }

  lemma LockInv(s: State, m: nat)
    requires Inv(s) && m < |s.mutexes|
    ensures LockStep(s, m).Some? ==> Inv(LockStep(s, m).value)
  {
    hide Conserved, Exclusive, Fair, RunKeyed, SleepKeyed, Sorted, Ids, Places, Waiters, OthersBalanced;
    if s.mutexes[m].owner == None {
      AcquiredInv(s, m);
    } else {
      QueuedParks(s, m);
      SwitchInv(Queued(s, m));
    }
  }

  // ---------- Handing a mutex over ----------

  /** The active thread owns mutex `m`, waits for no mutex, and may be about to wait in a monitor. */
  ghost predicate Releasing(s: State, m: nat) {
    && Known(s) && Exclusive(s) && Owns(s.mutexes, m, s.active)
    && (forall i :: 0 <= i < |s.mutexes| ==> s.active !in s.mutexes[i].fila)
    && (Me(s).pending.Some? ==> MonitorWaiters(s.monitors)[s.active] > 0)
  }

  function Heir(s: State, m: nat): multiset<Tid>
    requires m < |s.mutexes|
  {
    if s.mutexes[m].fila == [] then multiset{} else multiset{s.mutexes[m].fila[0]}
  }

  lemma HandOffPlaces(s: State, m: nat)
    requires KnownThreads(s) && m < |s.mutexes|
    ensures Places(HandOff(s, m)) + Heir(s, m) == Places(s)
    ensures Waiters(HandOff(s, m)) + Heir(s, m) == Waiters(s)
  {
    hide Places, Waiters;
    var s' := HandOff(s, m);
    var s1 := s.(mutexes := s'.mutexes);
    var q, q', h := multiset(s.mutexes[m].fila), multiset(s'.mutexes[m].fila), Heir(s, m);
    MutexPlaces(s, m, s'.mutexes[m]);
    SamePlaces(s1, s');
    assert q == q' + h by {
      if s.mutexes[m].fila != [] { assert s.mutexes[m].fila == [s.mutexes[m].fila[0]] + s.mutexes[m].fila[1..]; }
    }
    assert Places(s') + (q' + h) == Places(s') + h + q' && Waiters(s') + (q' + h) == Waiters(s') + h + q';
    Cancel(Places(s') + h, Places(s), q');
    Cancel(Waiters(s') + h, Waiters(s), q');
  }

  lemma HandOffPending(s: State, m: nat)
    requires Releasing(s, m)
    ensures var s' := HandOff(s, m);
      MutexPending(s'.thr, s'.mutexes) && MonitorPending(s'.thr, s'.monitors) && OwnersInside(s'.thr, s'.mutexes)
  {
    hide Waiters, MonitorWaiters;
    var s' := HandOff(s, m);
    assert QueuePending(s.thr, s.mutexes[m].fila, m);
    forall i | 0 <= i < |s'.mutexes| ensures QueuePending(s'.thr, s'.mutexes[i].fila, i) {
      assert QueuePending(s.thr, s.mutexes[i].fila, i);
    }
    forall k | 0 <= k < |s'.monitors| ensures QueuePending(s'.thr, s'.monitors[k].fila, s'.monitors[k].mutex) {
      assert QueuePending(s.thr, s.monitors[k].fila, s.monitors[k].mutex);
    }
    forall i | 0 <= i < |s'.mutexes| && s'.mutexes[i].owner.Some?
      ensures var t := s'.mutexes[i].owner.value; t in s'.thr && (i in s'.thr[t].inside || s'.thr[t].pending == Some(i))
    {
      if i == m {
        assert s.mutexes[m].fila[0] in s.mutexes[m].fila;
      } else {
        assert s.mutexes[i].owner.value in s.thr;
      }
    }
  }

  lemma HandOffOwned(s: State, m: nat)
    requires Releasing(s, m)
    ensures var s' := HandOff(s, m);
      PendingOwned(s'.thr, s'.mutexes, Waiters(s')) && InsideOwned(s'.thr, s'.mutexes)
  {
    hide MonitorWaiters, MutexWaiters, Places;
    HandOffPlaces(s, m);
    var s' := HandOff(s, m);
    assert QueuePending(s.thr, s.mutexes[m].fila, m);
    forall t | t in s'.thr && s'.thr[t].pending.Some?
      ensures Owns(s'.mutexes, s'.thr[t].pending.value, t) || Waiters(s')[t] > 0
    {
      assert Owns(s.mutexes, s.thr[t].pending.value, t) || Waiters(s)[t] > 0;
      assert (Waiters(s') + Heir(s, m))[t] == Waiters(s)[t];
      if s.mutexes[m].fila != [] && t == s.mutexes[m].fila[0] {
        assert t in s.mutexes[m].fila;
      }
    }
    forall t | t in s'.thr ensures AllOwned(s'.mutexes, s'.thr[t].inside, t) {
      assert AllOwned(s.mutexes, s.thr[t].inside, t);
    }
  }

  lemma HandOffExclusive(s: State, m: nat)
    requires Releasing(s, m)
    ensures Exclusive(HandOff(s, m))
  {
    hide Waiters, MutexPending, MonitorPending, PendingOwned, InsideOwned, OwnersInside, Releasing;
    HandOffPending(s, m);
    HandOffOwned(s, m);
  }

  lemma HandOffOrdered(s: State, m: nat)
    requires Ordered(s) && m < |s.mutexes|
    ensures Ordered(HandOff(s, m)) && HandOff(s, m).thr.Keys == s.thr.Keys
  {
    hide Ids, RunKeyed, SleepKeyed, Sorted;
    var s' := HandOff(s, m);
    var s1 := s.(mutexes := s'.mutexes);
    assert QueueKnown(s.thr.Keys, s.mutexes[m].fila);
    OrderedSame(s, s1);
    HandOffAwake(s);
    OrderedSetMe(s1, Me(s'));
    SetMeIds(s1, Me(s'));
  }

  lemma HandOffAwake(s: State)
    requires SleepKeyed(s.thr, s.sleep) && s.active in s.thr
    ensures NotIn(s.sleep, s.active) || Me(s).resume != Window
  {
  }

  lemma HandOffFair(s: State, m: nat)
    requires Fair(s.mutexes) && m < |s.mutexes| && KnownThreads(s)
    ensures Fair(HandOff(s, m).mutexes)
  {
    var mx, mx' := s.mutexes[m], HandOff(s, m).mutexes[m];
    assert FairMutex(mx);
    if mx.fila != [] {
      assert mx.fila == [mx.fila[0]] + mx.fila[1..];
      assert mx.grants + ([mx.fila[0]] + mx.fila[1..]) == mx.grants + [mx.fila[0]] + mx.fila[1..];
    }
    assert FairMutex(mx');
  }

  /** A release without preemption only moves the heir. */
  lemma ReleasedKeeps(s: State, m: nat, running: bool)
    requires Releasing(s, m) && Ordered(s) && OthersBalanced(s) && Conserved(s, running) && Fair(s.mutexes)
    requires KnownMutex(s, m)
    ensures Core(Released(s, m), running)
    ensures Me(Released(s, m)) == Me(s).(inside := Me(s).inside - {m})
  {
    hide Conserved, Exclusive, Fair, RunKeyed, SleepKeyed, Sorted, Ids, Places, Insere, Releasing;
    var s' := HandOff(s, m);
    HandOffExclusive(s, m) by { ReleasingOwns(s, m); }
    HandOffOrdered(s, m);
    HandOffFair(s, m);
    HandOffPlaces(s, m);
    if s.mutexes[m].fila == [] {
      assert Places(s') == Places(s);
      ReleasedConserved(s, s', running);
    } else {
      var h := s.mutexes[m].fila[0];
      assert h in s.mutexes[m].fila;
      PutOrdered(s', h);
      PutExclusive(s', h);
      PutPlaces(s', h);
      ReleasedConserved(s, Put(s', h), running);
    }
  }

  lemma ReleasingOwns(s: State, m: nat)
    requires Releasing(s, m)
    ensures KnownThreads(s) && m < |s.mutexes|
  {
  }

  lemma ReleasedConserved(s: State, s': State, running: bool)
    requires Conserved(s, running) && Places(s') == Places(s) && s'.active == s.active && s.active in s.thr && s.active in s'.thr
    requires s'.thr == s.thr[s.active := s'.thr[s.active]] && (Me(s).resume == Window <==> s'.thr[s.active].resume == Window)
    ensures Conserved(s', running)
  {
    hide Places;
    forall t: Tid ensures Places(s')[t] + (if running && t == s'.active then 1 else 0) == Tokens(s'.thr, t) {
      assert Places(s)[t] + (if running && t == s.active then 1 else 0) == Tokens(s.thr, t);
    }
  }

  /** A preempting release: the releaser is charged and goes to the run tree, the heir arrives. In a
      wait (`r == Window`) the releaser is also in the monitor's queue. */
  lemma PreemptedArrives(s: State, m: nat, r: Resume)
    requires Releasing(s, m) && Ordered(s) && OthersBalanced(s) && Fair(s.mutexes) && Preempts(s, m)
    requires Balanced(Me(s)) && Me(s).resume == Call && NotIn(s.exe, s.active) && NotIn(s.sleep, s.active)
    requires (r == Call && Conserved(s, true)) || (r == Window && Conserved(s, false))
    ensures Arriving(Preempted(s, m, r))
  {
    hide Conserved, Exclusive, Fair, RunKeyed, SleepKeyed, Sorted, Ids, Places, Insere, Releasing, NotIn, Balanced;
    ReleasingOwns(s, m);
    var h := s.mutexes[m].fila[0];
    var s1 := HandOff(s, m);
    var th := Me(s1).Charged().(resume := r);
    var s2 := SetMe(s1, th);
    var s3 := Put(s2, s.active);
    PreemptedHeir(s, m);
    HandOffExclusive(s, m);
    HandOffOrdered(s, m);
    HandOffFair(s, m);
    HandOffPlaces(s, m);
    OrderedSetMe(s1, th);
    ExclusiveSetMe(s1, th);
    SamePlaces(s1, s2);
    PutOrdered(s2, s.active);
    PutExclusive(s2, s.active);
    PutPlaces(s2, s.active);
    PreemptedBalanced(Me(s), Me(s).inside - {m});
    var s4 := s3.(active := h);
    SamePlaces(s3, s4);
    assert Ordered(s4) by { HeirOrdered(s3, h); }
    assert Exclusive(s4) by { ExclusiveSame(s3, s4); }
    assert Conserved(s4, true) by { PreemptedConserved(s, s4, Places(s1), r); }
  }

  lemma HeirOrdered(s: State, h: Tid)
    requires Ordered(s) && h in s.thr
    ensures Ordered(s.(active := h))
  {
  }

  lemma PreemptedHeir(s: State, m: nat)
    requires Releasing(s, m) && Preempts(s, m)
    ensures var h := s.mutexes[m].fila[0]; h in s.thr && h != s.active
  {
    assert s.mutexes[m].fila[0] in s.mutexes[m].fila;
  }

  lemma PreemptedBalanced(th: Thread, inside: set<nat>)
    requires Balanced(th)
    ensures Balanced(th.(inside := inside).Charged().(resume := Call)) && Balanced(th.(inside := inside).Charged().(resume := Window))
  {
    ChargedBalanced(th);
  }

  lemma PreemptedConserved(s: State, s4: State, p1: multiset<Tid>, r: Resume)
    requires s.active in s.thr && s.active in s4.thr && Me(s).resume == Call && s4.thr[s.active].resume == r
    requires s4.thr == s.thr[s.active := s4.thr[s.active]]
    requires (r == Call && Conserved(s, true)) || (r == Window && Conserved(s, false))
    requires p1 + multiset{s4.active} == Places(s) && Places(s4) == p1 + multiset{s.active}
    ensures Conserved(s4, true)
  {
    hide Places;
    forall t: Tid ensures Places(s4)[t] + (if t == s4.active then 1 else 0) == Tokens(s4.thr, t) {
      assert (p1 + multiset{s4.active})[t] == Places(s)[t];
      assert Places(s)[t] + (if r == Call && t == s.active then 1 else 0) == Tokens(s.thr, t);
    }
  }

  lemma UnlockReleasing(s: State, m: nat)
    requires Inv(s) && Owns(s.mutexes, m, s.active)
    ensures Releasing(s, m) && NotIn(s.exe, s.active) && NotIn(s.sleep, s.active) && KnownMutex(s, m)
  {
    OnlyActive(s);
  }

  lemma UnlockInv(s: State, m: nat)
    requires Inv(s) && m < |s.mutexes| && KnownMutex(s, m)
    ensures UnlockStep(s, m).Some? ==> Inv(UnlockStep(s, m).value)
  {
    hide Conserved, Exclusive, Fair, RunKeyed, SleepKeyed, Sorted, Ids, Insere, Releasing, NotIn, OthersBalanced, Preempted, Released;
    if s.mutexes[m].owner == Some(s.active) {
      UnlockReleasing(s, m);
      if Preempts(s, m) {
        PreemptedArrives(s, m, Call);
        ResumedInv(Preempted(s, m, Call));
      } else {
        ReleasedKeeps(s, m, true);
      }
    }
  }

  // ---------- Monitors ----------

  lemma WaitingPlaces(s: State, mon: nat)
    requires KnownThreads(s) && mon < |s.monitors|
    ensures Places(Waiting(s, mon)) == Places(s) + multiset{s.active}
    ensures Waiters(Waiting(s, mon)) == Waiters(s) + multiset{s.active}
    ensures MonitorWaiters(Waiting(s, mon).monitors)[s.active] > 0
  {
    hide Places, Waiters;
    var s' := Waiting(s, mon);
    var s1 := s.(monitors := s'.monitors);
    var q, me := multiset(s.monitors[mon].fila), multiset{s.active};
    MonitorPlaces(s, mon, s'.monitors[mon]);
    SamePlaces(s1, s');
    assert multiset(s'.monitors[mon].fila) == q + me;
    assert Waiters(s) + (q + me) == Waiters(s) + me + q && Places(s) + (q + me) == Places(s) + me + q;
    Cancel(Waiters(s'), Waiters(s) + me, q);
    Cancel(Places(s'), Places(s) + me, q);
    MonitorUpdate(s'.monitors, mon, s'.monitors[mon]);
    assert s.active in s'.monitors[mon].fila;
  }

  lemma WaitingExclusive(s: State, mon: nat)
    requires Known(s) && Exclusive(s) && mon < |s.monitors| && Me(s).pending == None
    requires forall i :: 0 <= i < |s.mutexes| ==> s.active !in s.mutexes[i].fila
    requires forall k :: 0 <= k < |s.monitors| ==> s.active !in s.monitors[k].fila
    ensures Exclusive(Waiting(s, mon))
  {
    hide Waiters, Places, MonitorWaiters;
    WaitingPlaces(s, mon);
    var s' := Waiting(s, mon);
    forall i | 0 <= i < |s'.mutexes| ensures QueuePending(s'.thr, s'.mutexes[i].fila, i) {
      assert QueuePending(s.thr, s.mutexes[i].fila, i);
    }
    forall k | 0 <= k < |s'.monitors| ensures QueuePending(s'.thr, s'.monitors[k].fila, s'.monitors[k].mutex) {
      assert QueuePending(s.thr, s.monitors[k].fila, s.monitors[k].mutex);
    }
    forall t | t in s'.thr && s'.thr[t].pending.Some?
      ensures Owns(s'.mutexes, s'.thr[t].pending.value, t) || Waiters(s')[t] > 0
    {
      if t != s.active { assert Owns(s.mutexes, s.thr[t].pending.value, t) || Waiters(s)[t] > 0; }
    }
    forall t | t in s'.thr ensures AllOwned(s'.mutexes, s'.thr[t].inside, t) {
      assert AllOwned(s.mutexes, s.thr[t].inside, t);
    }
    assert OwnersInside(s'.thr, s'.mutexes);
  }

  lemma WaitingReleasing(s: State, mon: nat)
    requires Inv(s) && mon < |s.monitors| && Owns(s.mutexes, s.monitors[mon].mutex, s.active)
    ensures var s' := Waiting(s, mon);
      && Releasing(s', s.monitors[mon].mutex) && NotIn(s'.exe, s.active) && NotIn(s'.sleep, s.active)
      && Ordered(s') && OthersBalanced(s') && Conserved(s', false)
      && Me(s') == Me(s).(pending := Some(s.monitors[mon].mutex))
  {
    hide Conserved, Exclusive, RunKeyed, SleepKeyed, Sorted, Ids, NotIn, MonitorWaiters, Waiters, Balanced;
    OnlyActive(s);
    WaitingExclusive(s, mon);
    WaitingPlaces(s, mon);
    var s' := Waiting(s, mon);
    var s1 := s.(monitors := s'.monitors);
    OrderedSame(s, s1);
    OrderedSetMe(s1, Me(s'));
    QueuedConserved(s, s');
  }

  lemma InvKnown(s: State)
    requires Inv(s)
    ensures Known(s)
  {
  }

  lemma WaitParks(s: State, mon: nat)
    requires Inv(s) && mon < |s.monitors| && KnownMutex(s, s.monitors[mon].mutex)
    requires Owns(s.mutexes, s.monitors[mon].mutex, s.active)
    ensures var s1 := Waiting(s, mon);
      var m := s.monitors[mon].mutex;
      if Preempts(s1, m) then Arriving(Preempted(s1, m, Window))
      else Me(s).resume == Call && Released(s1, m).active in Released(s1, m).thr && Parked(SetResume(Released(s1, m), Call))
  {
    hide Conserved, Exclusive, Fair, RunKeyed, SleepKeyed, Sorted, Ids, Insere, Releasing, NotIn, OthersBalanced, Preempted, Released;
    var m := s.monitors[mon].mutex;
    WaitingReleasing(s, mon);
    var s1 := Waiting(s, mon);
    if Preempts(s1, m) {
      PreemptedArrives(s1, m, Window);
    } else {
      ReleasedKeeps(s1, m, false);
      var s2 := Released(s1, m);
      assert Me(s2).resume == Call;
      SameRecord(s2);
    }
  }

  lemma WaitInv(s: State, mon: nat)
    requires Inv(s) && mon < |s.monitors| && KnownMutex(s, s.monitors[mon].mutex)
    ensures WaitStep(s, mon).Some? ==> Inv(WaitStep(s, mon).value)
  {
    hide Conserved, Exclusive, Fair, RunKeyed, SleepKeyed, Sorted, Ids, Insere, OthersBalanced, Preempted, Released, Arriving, Parked;
    var m := s.monitors[mon].mutex;
    InvKnown(s);
    if s.mutexes[m].owner == Some(s.active) {
      WaitParks(s, mon);
      var s1 := Waiting(s, mon);
      if Preempts(s1, m) {
        ResumedInv(Preempted(s1, m, Window));
      } else {
        SwitchInv(SetResume(Released(s1, m), Call));
      }
    }
  }

  lemma SameRecord(s: State)
    requires s.active in s.thr && Me(s).resume == Call
    ensures SetResume(s, Call) == s
  {
    assert s.thr[s.active := Me(s)] == s.thr;
  }

  /** Signalling moves waiters from the monitor's queue to the mutex's. */
  function Signalled(s: State, mon: nat, q: seq<Tid>, rest: seq<Tid>): State
    requires mon < |s.monitors| && s.monitors[mon].mutex < |s.mutexes|
  {
    var m := s.monitors[mon].mutex;
    s.(monitors := s.monitors[mon := Monitor(m, rest)],
       mutexes := s.mutexes[m := s.mutexes[m].(fila := s.mutexes[m].fila + q, arrivals := s.mutexes[m].arrivals + q)])
  }

  lemma SignalledPlaces(s: State, mon: nat, q: seq<Tid>, rest: seq<Tid>)
    requires mon < |s.monitors| && s.monitors[mon].mutex < |s.mutexes| && s.monitors[mon].fila == q + rest
    ensures Places(Signalled(s, mon, q, rest)) == Places(s) && Waiters(Signalled(s, mon, q, rest)) == Waiters(s)
  {
    hide Places, Waiters;
    var m := s.monitors[mon].mutex;
    var s' := Signalled(s, mon, q, rest);
    var s1 := s.(monitors := s'.monitors);
    MonitorPlaces(s, mon, Monitor(m, rest));
    MutexPlaces(s1, m, s'.mutexes[m]);
    var a, b, f := multiset(q), multiset(rest), multiset(s.mutexes[m].fila);
    assert multiset(q + rest) == a + b && multiset(s.mutexes[m].fila + q) == f + a;
    SignalSum(Places(s'), Places(s1), Places(s), a, b, f);
    SignalSum(Waiters(s'), Waiters(s1), Waiters(s), a, b, f);
  }

  lemma SignalSum(p': multiset<Tid>, p1: multiset<Tid>, p: multiset<Tid>, a: multiset<Tid>, b: multiset<Tid>, f: multiset<Tid>)
    requires p1 + (a + b) == p + b && p' + f == p1 + (f + a)
    ensures p' == p
  {
    forall x: Tid ensures p'[x] == p[x] {
      assert (p1 + (a + b))[x] == (p + b)[x];
      assert (p' + f)[x] == (p1 + (f + a))[x];
    }
  }

  lemma SignalledExclusive(s: State, mon: nat, q: seq<Tid>, rest: seq<Tid>)
    requires Exclusive(s) && mon < |s.monitors| && s.monitors[mon].mutex < |s.mutexes| && s.monitors[mon].fila == q + rest
    ensures Exclusive(Signalled(s, mon, q, rest))
  {
    hide Waiters, Places;
    SignalledPlaces(s, mon, q, rest);
    var s' := Signalled(s, mon, q, rest);
    var m := s.monitors[mon].mutex;
    assert forall t :: t in q ==> t in q + rest;
    assert forall t :: t in rest ==> t in q + rest;
    assert QueuePending(s.thr, s.monitors[mon].fila, m);
    assert QueuePending(s.thr, s.mutexes[m].fila, m);
    assert MutexPending(s'.thr, s'.mutexes);
    assert MonitorPending(s'.thr, s'.monitors);
    forall t | t in s'.thr && s'.thr[t].pending.Some?
      ensures Owns(s'.mutexes, s'.thr[t].pending.value, t) || Waiters(s')[t] > 0
    {
      assert Owns(s.mutexes, s.thr[t].pending.value, t) || Waiters(s)[t] > 0;
    }
    forall t | t in s'.thr ensures AllOwned(s'.mutexes, s'.thr[t].inside, t) {
      assert AllOwned(s.mutexes, s.thr[t].inside, t);
    }
    assert OwnersInside(s'.thr, s'.mutexes);
  }

  lemma SignalledInv(s: State, mon: nat, q: seq<Tid>, rest: seq<Tid>)
    requires Inv(s) && mon < |s.monitors| && s.monitors[mon].fila == q + rest
    requires s.monitors[mon].mutex < |s.mutexes| && s.mutexes[s.monitors[mon].mutex].owner.Some?
    ensures Inv(Signalled(s, mon, q, rest))
  {
    hide Conserved, Exclusive, RunKeyed, SleepKeyed, Sorted, Ids, Places, Waiters, Balanced;
    var m := s.monitors[mon].mutex;
    var s' := Signalled(s, mon, q, rest);
    SignalledPlaces(s, mon, q, rest);
    PlacesKeep(s, s', true);
    SignalledKnown(s, mon, q, rest);
    SignalledExclusive(s, mon, q, rest);
    OrderedSame(s, s');
    var mx := s.mutexes[m];
    assert FairMutex(mx);
    assert mx.grants + mx.fila + q == mx.grants + (mx.fila + q);
    assert FairMutex(s'.mutexes[m]);
  }

  lemma SignalledKnown(s: State, mon: nat, q: seq<Tid>, rest: seq<Tid>)
    requires Known(s) && Exclusive(s) && mon < |s.monitors| && s.monitors[mon].fila == q + rest && s.monitors[mon].mutex < |s.mutexes|
    ensures var s' := Signalled(s, mon, q, rest);
      MutexesKnown(s.thr.Keys, s'.mutexes) && MonitorsKnown(|s'.mutexes|, s'.monitors)
  {
    hide Waiters;
    var s' := Signalled(s, mon, q, rest);
    var m := s.monitors[mon].mutex;
    assert QueuePending(s.thr, s.monitors[mon].fila, m);
    forall t | t in q ensures t in s.thr.Keys { assert t in q + rest; }
    assert QueueKnown(s.thr.Keys, s.mutexes[m].fila);
  }

  lemma SignalInv(s: State, mon: nat)
    requires Inv(s) && mon < |s.monitors| && s.monitors[mon].mutex < |s.mutexes|
    ensures Inv(SignalStep(s, mon)) && Inv(SignalAllStep(s, mon))
  {
    hide Conserved, Exclusive, Fair, RunKeyed, SleepKeyed, Sorted, Ids, OthersBalanced, Balanced;
    var q := s.monitors[mon].fila;
    if s.mutexes[s.monitors[mon].mutex].owner == Some(s.active) {
      if q != [] {
        assert q == [q[0]] + q[1..];
        SignalledInv(s, mon, [q[0]], q[1..]);
      }
      assert q == q + [];
      SignalledInv(s, mon, q, []);
    }
  }

  // ---------- All steps and runs ----------

  /** Every step keeps the invariant. */
  lemma StepInv(s: State, op: Op)
    requires Inv(s) && WellFormed(s, op)
    ensures Step(s, op).Some? ==> Inv(Step(s, op).value)
  {
    hide Conserved, Exclusive, Fair, RunKeyed, SleepKeyed, Sorted, Ids, OthersBalanced, Balanced;
    match op
    case Create(p) => CreateInv(s, p);
    case Tick => TickInv(s);
    case Yield => YieldInv(s);
    case Exit => ExitInv(s);
    case Join(t) => JoinInv(s, t);
    case Sleep(t) => SleepInv(s, t);
    case Nice(n) => NiceInv(s, n);
    case MutexInit => NewMutexInv(s, Step(s, op).value);
    case MonitorInit => NewMutexInv(s, Step(s, op).value);
    case Lock(m) => LockInv(s, m);
    case Unlock(m) => UnlockInv(s, m);
    case Wait(k) => WaitInv(s, k);
    case Signal(k) => SignalInv(s, k);
    case SignalAll(k) => SignalInv(s, k);
  }

  lemma InitConserved()
    ensures Conserved(Init(), true)
  {
    var s := Init();
    assert Tids(s.exe) == [] && Tids(s.sleep) == [] && MutexWaiters(s.mutexes) == multiset{} && MonitorWaiters(s.monitors) == multiset{};
    assert Places(s) == multiset{};
  }

  lemma InitOrdered()
    ensures Ordered(Init())
  {
    assert Init().thr.Keys == {1};
  }

  lemma InitExclusive()
    ensures Exclusive(Init()) && Fair(Init().mutexes) && OthersBalanced(Init())
  {
  }

  lemma InitInv()
    ensures Inv(Init())
  {
    hide Ordered, Conserved, Exclusive, Fair, OthersBalanced, Balanced, Init;
    InitConserved();
    InitOrdered();
    InitExclusive();
    InitBalanced();
  }

  lemma InitBalanced()
    ensures Init().active in Init().thr && Balanced(Me(Init())) && Me(Init()).resume == Call && Me(Init()).pending == None
  {
    var th := Me(Init());
    assert th == Thread(0, 0, 1, 0, 0, 0, 0, Call, None, {}, 0, true);
    NewBalanced(th);
  }

  /** A thread that has used no time yet. */
  lemma NewBalanced(th: Thread)
    requires 1 <= th.priority <= 10 && th.nice == 0 && th.exectime == 0 && th.times == 0 && 0 <= th.base == th.vruntime
    ensures Balanced(th)
  {
    var w, d := th.Weight(), th.exectime - th.times;
    assert d == 0 && w * d == 0;
  }

  /** The states that the operations `ops` lead to, as long as the process goes on. */
  ghost predicate Reaches(s: State, ops: seq<Op>, s': State)
    decreases |ops|
  {
    if ops == [] then s' == s
    else Known(s) && WellFormed(s, ops[0]) && Step(s, ops[0]).Some? && Reaches(Step(s, ops[0]).value, ops[1..], s')
  }

  /** The invariant holds after every run. */
  lemma {:induction false} RunInv(s: State, ops: seq<Op>, s': State)
    requires Inv(s) && Reaches(s, ops, s')
    ensures Inv(s')
    decreases |ops|
  {
    hide Conserved, Exclusive, Fair, RunKeyed, SleepKeyed, Sorted, Ids, OthersBalanced, Balanced;
    if ops != [] {
      StepInv(s, ops[0]);
      RunInv(Step(s, ops[0]).value, ops[1..], s');
    }
  }
}
