/** What the invariant means over whole runs: mutual exclusion, hand-over in arrival order,
    conservation of threads, processor accounts, and when joiners are stranded. */
module SchedulerTheorems {
  import opened Wrappers
  import opened RedBlackOrder
  import opened SchedulerSpec
  import opened SchedulerInvariant
  import opened SchedulerSteps

  // ---------- Consequences over every run ----------

  ghost predicate Reachable(s: State) {
    exists ops :: Reaches(Init(), ops, s)
  }

  lemma ReachableInv(s: State)
    requires Reachable(s)
    ensures Inv(s)
  {
    hide Inv, Reaches;
    var ops :| Reaches(Init(), ops, s);
    InitInv();
    RunInv(Init(), ops, s);
  }

  /** At most one thread is between the return of a lock or wait and its unlock, and it is the owner. */
  lemma MutualExclusion(s: State, t: Tid, u: Tid, m: nat)
    requires Reachable(s) && t in s.thr && u in s.thr && m in s.thr[t].inside
    ensures Owns(s.mutexes, m, t) && (m in s.thr[u].inside ==> u == t)
  {
    hide Reachable, Conserved, Fair, RunKeyed, SleepKeyed, Sorted, Ids, OthersBalanced, Balanced, Known;
    ReachableInv(s);
    assert AllOwned(s.mutexes, s.thr[t].inside, t) && AllOwned(s.mutexes, s.thr[u].inside, u);
  }

  /** Mutexes are granted in the order of arrival, to everyone who does not wait any more; an owner
      is inside or returns next, and the running thread is inside every mutex it owns. */
  lemma GrantedInOrder(s: State, m: nat)
    requires Reachable(s) && m < |s.mutexes|
    ensures s.mutexes[m].arrivals == s.mutexes[m].grants + s.mutexes[m].fila
    ensures s.mutexes[m].owner == None ==> s.mutexes[m].fila == []
    ensures s.mutexes[m].owner.Some? ==> s.mutexes[m].grants != [] && s.mutexes[m].grants[|s.mutexes[m].grants| - 1] == s.mutexes[m].owner.value
    ensures s.active in s.thr && (Owns(s.mutexes, m, s.active) <==> m in Me(s).inside)
  {
    hide Reachable, Conserved, RunKeyed, SleepKeyed, Sorted, Ids, OthersBalanced, Balanced;
    ReachableInv(s);
    assert FairMutex(s.mutexes[m]);
    assert AllOwned(s.mutexes, Me(s).inside, s.active);
  }

  /** The places a thread can be in. */
  datatype Place = Running | Runnable | Sleeping | Joining | Zombie | Dead | InMutex(m: nat) | InMonitor(k: nat)

  predicate At(s: State, t: Tid, p: Place) {
    match p
    case Running => s.active == t
    case Runnable => t in Tids(s.exe)
    case Sleeping => t in Tids(s.sleep)
    case Joining => t in s.join
    case Zombie => t in s.zombie
    case Dead => t in s.dead
    case InMutex(m) => m < |s.mutexes| && t in s.mutexes[m].fila
    case InMonitor(k) => k < |s.monitors| && t in s.monitors[k].fila
  }

  lemma {:induction false} SomeMutex(ms: seq<Mutex>, t: Tid) returns (m: nat)
    requires MutexWaiters(ms)[t] > 0
    ensures m < |ms| && t in ms[m].fila
  {
    if t in ms[0].fila {
      m := 0;
    } else {
      var k := SomeMutex(ms[1..], t);
      m := k + 1;
    }
  }

  lemma {:induction false} SomeMonitor(ms: seq<Monitor>, t: Tid) returns (k: nat)
    requires MonitorWaiters(ms)[t] > 0
    ensures k < |ms| && t in ms[k].fila
  {
    if t in ms[0].fila {
      k := 0;
    } else {
      var j := SomeMonitor(ms[1..], t);
      k := j + 1;
    }
  }

  /** How often a thread occurs in a place. */
  function Count(s: State, t: Tid, p: Place): nat {
    match p
    case Running => if s.active == t then 1 else 0
    case Runnable => multiset(Tids(s.exe))[t]
    case Sleeping => multiset(Tids(s.sleep))[t]
    case Joining => multiset(s.join)[t]
    case Zombie => multiset(s.zombie)[t]
    case Dead => multiset(s.dead)[t]
    case InMutex(m) => if m < |s.mutexes| then multiset(s.mutexes[m].fila)[t] else 0
    case InMonitor(k) => if k < |s.monitors| then multiset(s.monitors[k].fila)[t] else 0
  }

  lemma CountAt(s: State, t: Tid, p: Place)
    ensures Count(s, t, p) > 0 <==> At(s, t, p)
  {
  }

  /** All places of `t` together, the processor included. */
  function Everywhere(s: State, t: Tid): nat {
    Places(s)[t] + Count(s, t, Running)
  }

  lemma {:induction false} TwoMutexes(ms: seq<Mutex>, t: Tid, a: nat, b: nat)
    requires a < |ms| && b < |ms|
    ensures multiset(ms[a].fila)[t] + (if a == b then 0 else multiset(ms[b].fila)[t]) <= MutexWaiters(ms)[t]
  {
    if a > 0 && b > 0 {
      TwoMutexes(ms[1..], t, a - 1, b - 1);
    } else if a > 0 {
      TwoMutexes(ms[1..], t, a - 1, a - 1);
    } else if b > 0 {
      TwoMutexes(ms[1..], t, b - 1, b - 1);
    }
  }

  lemma {:induction false} TwoMonitors(ms: seq<Monitor>, t: Tid, a: nat, b: nat)
    requires a < |ms| && b < |ms|
    ensures multiset(ms[a].fila)[t] + (if a == b then 0 else multiset(ms[b].fila)[t]) <= MonitorWaiters(ms)[t]
  {
    if a > 0 && b > 0 {
      TwoMonitors(ms[1..], t, a - 1, b - 1);
    } else if a > 0 {
      TwoMonitors(ms[1..], t, a - 1, a - 1);
    } else if b > 0 {
      TwoMonitors(ms[1..], t, b - 1, b - 1);
    }
  }

  function QueueCount(s: State, t: Tid, p: Place): nat {
    if p.InMutex? || p.InMonitor? then Count(s, t, p) else 0
  }

  lemma TwoQueues(s: State, t: Tid, p: Place, q: Place)
    requires p != q
    ensures QueueCount(s, t, p) + QueueCount(s, t, q) <= Waiters(s)[t]
    ensures QueueCount(s, t, p) <= Waiters(s)[t]
  {
    hide MutexWaiters, MonitorWaiters;
    if p.InMutex? && p.m < |s.mutexes| { TwoMutexes(s.mutexes, t, p.m, if q.InMutex? && q.m < |s.mutexes| then q.m else p.m); }
    if q.InMutex? && q.m < |s.mutexes| { TwoMutexes(s.mutexes, t, q.m, q.m); }
    if p.InMonitor? && p.k < |s.monitors| { TwoMonitors(s.monitors, t, p.k, if q.InMonitor? && q.k < |s.monitors| then q.k else p.k); }
    if q.InMonitor? && q.k < |s.monitors| { TwoMonitors(s.monitors, t, q.k, q.k); }
  }

  lemma EverywhereSplit(s: State, t: Tid)
    ensures Everywhere(s, t) == Count(s, t, Running) + Count(s, t, Runnable) + Count(s, t, Sleeping) + Count(s, t, Joining)
      + Count(s, t, Zombie) + Count(s, t, Dead) + Waiters(s)[t]
  {
    hide Waiters, Tids;
  }

  lemma TwoPlaces(s: State, t: Tid, p: Place, q: Place)
    requires p != q
    ensures Count(s, t, p) + Count(s, t, q) <= Everywhere(s, t)
    ensures Count(s, t, p) <= Everywhere(s, t)
  {
    hide Waiters, Count, Everywhere;
    EverywhereSplit(s, t);
    TwoQueues(s, t, p, q);
  }

  lemma PlacesSplit(s: State, t: Tid)
    ensures Places(s)[t] ==
      multiset(Tids(s.exe))[t] + multiset(Tids(s.sleep))[t] + multiset(s.join)[t] + multiset(s.zombie)[t] + multiset(s.dead)[t]
      + MutexWaiters(s.mutexes)[t] + MonitorWaiters(s.monitors)[t]
  {
  }

  lemma SomePlace(s: State, t: Tid) returns (p: Place)
    requires Everywhere(s, t) > 0
    ensures At(s, t, p)
  {
    hide MutexWaiters, MonitorWaiters, Places, Tids;
    PlacesSplit(s, t);
    if s.active == t { p := Running; }
    else if t in multiset(Tids(s.exe)) { p := Runnable; }
    else if t in multiset(Tids(s.sleep)) { p := Sleeping; }
    else if t in multiset(s.join) { p := Joining; }
    else if t in multiset(s.zombie) { p := Zombie; }
    else if t in multiset(s.dead) { p := Dead; }
    else if MutexWaiters(s.mutexes)[t] > 0 {
      var m := SomeMutex(s.mutexes, t);
      p := InMutex(m);
    } else {
      var k := SomeMonitor(s.monitors, t);
      p := InMonitor(k);
    }
  }

  /** Every created thread is in exactly one place, once; only in the window of a wait is it in two. */
  lemma OnePlace(s: State, t: Tid) returns (p: Place)
    requires Reachable(s) && 1 <= t < s.tidGen
    ensures t in s.thr && At(s, t, p)
    ensures s.thr[t].resume != Window ==> Count(s, t, p) == 1 && forall q :: q != p ==> !At(s, t, q)
    ensures s.thr[t].resume == Window ==> Everywhere(s, t) == 2
  {
    hide Reachable, Exclusive, Fair, RunKeyed, SleepKeyed, Sorted, OthersBalanced, Balanced, Known;
    ReachableInv(s);
    assert t in s.thr.Keys;
    assert Everywhere(s, t) == Tokens(s.thr, t);
    hide Conserved, Places, Ids;
    p := SomePlace(s, t);
    CountAt(s, t, p);
    forall q | s.thr[t].resume != Window && q != p ensures !At(s, t, q) {
      TwoPlaces(s, t, p, q);
      CountAt(s, t, q);
    }
    TwoPlaces(s, t, p, if p == Running then Runnable else Running);
  }

  /** The processor account of every thread after every run. */
  lemma Accounts(s: State, t: Tid)
    requires Reachable(s) && t in s.thr
    ensures var th := s.thr[t];
      && th.times <= MIN_DELAY && th.times <= th.exectime
      && th.exectime - th.times <= th.vruntime - th.base <= 20 * (th.exectime - th.times)
      && (th.fixedWeight ==> th.vruntime - th.base == th.Weight() * (th.exectime - th.times))
    ensures forall i :: 0 <= i < |s.exe| ==> s.exe[i].elem in s.thr && s.exe[i].chave == s.thr[s.exe[i].elem].vruntime
  {
    hide Reachable, Conserved, Exclusive, Fair, SleepKeyed, Sorted, Ids, Known;
    ReachableInv(s);
    assert Balanced(s.thr[t]);
  }

  // ---------- Joiners ----------

  /** Nobody waits for a thread that has already ended. */
  predicate NoneStranded(s: State)
    requires QueueKnown(s.thr.Keys, s.join)
  {
    forall x :: x in s.join ==> s.thr[x].joinTid !in s.zombie && s.thr[x].joinTid !in s.dead
  }

  /** What switching leaves as it is. */
  predicate SameJoins(s: State, s': State) {
    && s'.join == s.join && s'.zombie == s.zombie && s'.dead == s.dead && s'.thr.Keys == s.thr.Keys
    && forall t :: t in s.thr ==> s'.thr[t].joinTid == s.thr[t].joinTid
  }

  lemma ReturnedJoins(s: State)
    requires s.active in s.thr
    ensures SameJoins(s, Returned(s)) && SameJoins(s, RunTail(Returned(s)))
  {
    assert Returned(s).thr.Keys == s.thr.Keys;
    assert RunTail(Returned(s)).thr.Keys == s.thr.Keys;
  }

  lemma {:induction false} ResumedJoins(s: State)
    requires KnownThreads(s)
    ensures Resumed(s).Some? ==> SameJoins(s, Resumed(s).value)
    decreases |s.exe|
  {
    hide Returned, RunTail;
    if Me(s).resume == Window && s.exe != [] {
      assert SameJoins(s, Extract(SetResume(s, Call)));
      ResumedJoins(Extract(SetResume(s, Call)));
    } else {
      ReturnedJoins(s);
    }
  }

  lemma SwitchJoins(s: State)
    requires KnownThreads(s)
    ensures Switch(s).Some? ==> SameJoins(s, Switch(s).value)
  {
    hide Resumed;
    if s.exe != [] { ResumedJoins(Extract(s)); }
  }

  lemma {:induction false} WakeAllJoins(s: State)
    requires KnownThreads(s) && ItemsKnown(s.thr.Keys, s.sleep)
    ensures SameJoins(s, WakeAll(s))
    decreases |s.sleep|
  {
    hide Insere;
    if s.sleep != [] && s.sleep[0].chave <= s.clock {
      var t := s.sleep[0].elem;
      var s1 := s.(thr := s.thr[t := s.thr[t].(wake := 0)], sleep := s.sleep[1..]);
      assert s1.thr.Keys == s.thr.Keys;
      InsereKnown(s1.thr.Keys, s1.exe, ItemOf(s1, t));
      WakeAllJoins(Put(s1, t));
    }
  }

  lemma JoinsTrans(a: State, b: State, c: State)
    requires SameJoins(a, b) && SameJoins(b, c)
    ensures SameJoins(a, c)
  {
  }

  lemma TickedJoins(s: State)
    requires s.active in s.thr
    ensures var th := Me(s).(times := Me(s).times + 1, exectime := Me(s).exectime + 1);
      SameJoins(s, SetMe(s, th)) && SameJoins(s, Put(SetResume(s, Tail), s.active)) && SameJoins(s, RunTail(s))
  {
    hide Insere;
    var th := Me(s).(times := Me(s).times + 1, exectime := Me(s).exectime + 1);
    assert SetMe(s, th).thr.Keys == s.thr.Keys && SetResume(s, Tail).thr.Keys == s.thr.Keys && RunTail(s).thr.Keys == s.thr.Keys;
  }

  lemma TickJoins(s: State)
    requires KnownThreads(s) && ItemsKnown(s.thr.Keys, s.sleep)
    ensures TickStep(s).Some? ==> SameJoins(s, TickStep(s).value)
  {
    hide Insere, WakeAll, Switch, RunTail, SameJoins, Put;
    TickedJoins(s);
    var s1 := SetMe(s, Me(s).(times := Me(s).times + 1, exectime := Me(s).exectime + 1));
    SameKnown(s, s1);
    WakeAllJoins(s1);
    var s2 := WakeAll(s1);
    JoinsTrans(s, s1, s2);
    TickedJoins(s2);
    PutKnown(SetResume(s2, Tail), s2.active);
    var s3 := Put(SetResume(s2, Tail), s2.active);
    SwitchJoins(s3);
    JoinsTrans(s, s2, s3);
    if Switch(s3).Some? { JoinsTrans(s, s3, Switch(s3).value); }
    JoinsTrans(s, s2, RunTail(s2));
  }

  lemma SameKnown(s: State, s1: State)
    requires KnownThreads(s) && SameJoins(s, s1) && s1.exe == s.exe && s1.active == s.active
    ensures KnownThreads(s1)
  {
  }

  lemma PutKnown(s: State, t: Tid)
    requires KnownThreads(s) && t in s.thr
    ensures KnownThreads(Put(s, t))
  {
    InsereKnown(s.thr.Keys, s.exe, ItemOf(s, t));
  }

  lemma UnlockJoins(s: State, m: nat)
    requires KnownThreads(s) && KnownMutex(s, m)
    ensures SameJoins(s, HandOff(s, m)) && SameJoins(s, Released(s, m)) && KnownThreads(Released(s, m))
    ensures UnlockStep(s, m).Some? ==> SameJoins(s, UnlockStep(s, m).value)
  {
    hide Insere, Resumed;
    var s1 := HandOff(s, m);
    assert s1.thr.Keys == s.thr.Keys;
    if s.mutexes[m].fila != [] {
      assert s.mutexes[m].fila[0] in s.mutexes[m].fila;
      InsereKnown(s1.thr.Keys, s1.exe, ItemOf(s1, s.mutexes[m].fila[0]));
    }
    if Preempts(s, m) {
      PreemptedJoins(s, m, Call);
      ResumedJoins(Preempted(s, m, Call));
    }
  }

  lemma PreemptedJoins(s: State, m: nat, r: Resume)
    requires KnownThreads(s) && KnownMutex(s, m) && Preempts(s, m)
    ensures SameJoins(s, Preempted(s, m, r)) && KnownThreads(Preempted(s, m, r))
  {
    hide Insere;
    var s1 := HandOff(s, m);
    var s2 := SetMe(s1, Me(s1).Charged().(resume := r));
    assert s2.thr.Keys == s.thr.Keys;
    InsereKnown(s2.thr.Keys, s2.exe, ItemOf(s2, s.active));
  }

  lemma WaitJoins(s: State, mon: nat)
    requires KnownThreads(s) && mon < |s.monitors| && KnownMutex(s, s.monitors[mon].mutex)
    ensures WaitStep(s, mon).Some? ==> SameJoins(s, WaitStep(s, mon).value)
  {
    hide Insere, Resumed, HandOff, Preempted, Released;
    var m := s.monitors[mon].mutex;
    if s.mutexes[m].owner == Some(s.active) {
      var s1 := Waiting(s, mon);
      assert s1.thr.Keys == s.thr.Keys;
      assert SameJoins(s, s1);
      if Preempts(s1, m) {
        PreemptedJoins(s1, m, Window);
        ResumedJoins(Preempted(s1, m, Window));
      } else {
        UnlockJoins(s1, m);
        var s2 := Released(s1, m);
        assert SetResume(s2, Call).thr.Keys == s2.thr.Keys;
        SwitchJoins(SetResume(s2, Call));
      }
    }
  }

  /** Only create, exit and join touch the joiners and the ended threads. */
  lemma OtherJoins(s: State, op: Op)
    requires Known(s) && WellFormed(s, op) && !op.Create? && !op.Exit? && !op.Join?
    ensures Step(s, op).Some? ==> SameJoins(s, Step(s, op).value)
  {
    hide Insere, Resumed, HandOff, Preempted, Released, Waiting, WakeAll;
    match op
    case Tick => TickJoins(s);
    case Yield =>
      var s1 := SetResume(s, Call);
      assert s1.thr.Keys == s.thr.Keys;
      InsereKnown(s1.thr.Keys, s1.exe, ItemOf(s1, s.active));
      SwitchJoins(Put(s1, s.active));
    case Sleep(time) =>
      var w: nat := s.clock + Ticks(time);
      var s1 := SetMe(s, Me(s).(wake := w, resume := Call));
      assert s1.thr.Keys == s.thr.Keys;
      SwitchJoins(s1.(sleep := Insere(s1.sleep, Item(w, s.active, s.active))));
    case Nice(n) => assert NiceStep(s, n).thr.Keys == s.thr.Keys;
    case MutexInit =>
    case MonitorInit =>
    case Lock(m) =>
      assert Acquired(s, m).thr.Keys == s.thr.Keys;
      assert Queued(s, m).thr.Keys == s.thr.Keys;
      SwitchJoins(Queued(s, m));
    case Unlock(m) => UnlockJoins(s, m);
    case Wait(k) =>
      assert KnownMutex(s, s.monitors[k].mutex);
      WaitJoins(s, k);
    case Signal(k) =>
    case SignalAll(k) =>
  }

  lemma {:induction false} PutAllTids(s: State, q: seq<Tid>)
    requires KnownThreads(s) && QueueKnown(s.thr.Keys, q)
    ensures multiset(Tids(PutAll(s, q).exe)) == multiset(Tids(s.exe)) + multiset(q)
    decreases |q|
  {
    hide Insere, Tids, KnownThreads;
    if q != [] {
      TidsInsere(s.exe, ItemOf(s, q[0]));
      PutKnown(s, q[0]);
      PutAllTids(Put(s, q[0]), q[1..]);
      assert q == [q[0]] + q[1..];
    }
  }

  /** An exit moves all its joiners to the run tree at once and no one else out of the join list; the
      thread becomes a zombie exactly if nobody had joined it. */
  lemma ExitReleases(s: State)
    requires Inv(s)
    ensures var e := Exited(s);
      && ExitStep(s) == Switch(e)
      && (forall x :: x in s.join && s.thr[x].joinTid == s.active ==> x in Tids(e.exe) && x !in e.join)
      && (forall x :: x in s.join && s.thr[x].joinTid != s.active ==> x in e.join)
      && (forall x :: x in e.join ==> x in s.join)
      && (if exists x :: x in s.join && s.thr[x].joinTid == s.active
          then e.dead == s.dead + [s.active] && e.zombie == s.zombie
          else e.zombie == s.zombie + [s.active] && e.dead == s.dead)
  {
    hide Conserved, Exclusive, Fair, RunKeyed, SleepKeyed, Sorted, Ids, OthersBalanced, Balanced;
    JoinersKnown(s, s.join, s.active);
    JoinersOf(s, s.join, s.active);
    var woken := Joiners(s, s.join, s.active);
    var s0 := s.(join := NonJoiners(s, s.join, s.active));
    PutAllTids(s0, woken);
    assert Tids(Exited(s).exe) == Tids(PutAll(s0, woken).exe);
    forall x | x in woken ensures x in Tids(Exited(s).exe) {
      assert x in multiset(woken);
      assert x in multiset(Tids(Exited(s).exe));
    }
    if woken != [] { assert woken[0] in woken; }
  }

  lemma CreateJoins(s: State, p: int)
    requires Inv(s) && NoneStranded(s)
    ensures Known(CreateStep(s, p)) ==> NoneStranded(CreateStep(s, p))
  {
    hide Conserved, Exclusive, Fair, RunKeyed, SleepKeyed, Sorted, OthersBalanced, Balanced, Insere;
    assert s.tidGen !in s.thr.Keys;
  }

  lemma ExitJoins(s: State)
    requires Inv(s) && NoneStranded(s) && ExitStep(s).Some?
    ensures Known(ExitStep(s).value) && NoneStranded(ExitStep(s).value)
  {
    hide Conserved, Exclusive, Fair, RunKeyed, SleepKeyed, Sorted, Ids, OthersBalanced, Balanced, PutAll, Resumed;
    ExitReleases(s);
    ExitInv(s);
    SwitchJoins(Exited(s));
    assert Exited(s).thr == s.thr;
  }

  /** A thread that is not in the zombie list cannot be there after a reap, and reaping leaves the
      ended threads the same. */
  lemma ReapJoins(s: State, t: Tid)
    requires Known(s) && t in s.zombie
    ensures var s' := s.(zombie := Without(s.zombie, t), dead := s.dead + Matching(s.zombie, t));
      NoneStranded(s) ==> NoneStranded(s')
  {
    MatchingWithout(s.zombie, t);
    var s' := s.(zombie := Without(s.zombie, t), dead := s.dead + Matching(s.zombie, t));
    forall x | x in s'.dead ensures x in s.zombie || x in s.dead {
      assert x in s.dead || x in Matching(s.zombie, t);
    }
  }

  lemma BlockedKnown(s: State, t: Tid)
    requires Inv(s)
    ensures KnownThreads(s) && Blocked(s, t).thr.Keys == s.thr.Keys && QueueKnown(s.thr.Keys, s.join)
    ensures QueueKnown(Blocked(s, t).thr.Keys, Blocked(s, t).join) && KnownThreads(Blocked(s, t))
    ensures s.active !in s.join
  {
    hide Conserved, Exclusive, Fair, RunKeyed, SleepKeyed, Sorted, Ids, OthersBalanced, Balanced, NotIn;
    OnlyActive(s);
  }

  lemma BlockedJoins(s: State, t: Tid)
    requires Inv(s) && NoneStranded(s) && t !in s.zombie
    ensures var e := Blocked(s, t);
      QueueKnown(e.thr.Keys, e.join) && KnownThreads(e) && (NoneStranded(e) <==> t !in s.dead)
  {
    hide Conserved, Exclusive, Fair, RunKeyed, SleepKeyed, Sorted, Ids, OthersBalanced, Balanced, KnownThreads, Inv;
    BlockedKnown(s, t);
    var e := Blocked(s, t);
    assert s.active in e.join;
    assert forall x :: x in s.join ==> x in e.join && e.thr[x] == s.thr[x];
  }

  lemma JoinJoins(s: State, t: Tid)
    requires Inv(s) && NoneStranded(s) && JoinStep(s, t).Some?
    ensures Known(JoinStep(s, t).value) && (NoneStranded(JoinStep(s, t).value) <==> t in s.zombie || t !in s.dead)
  {
    hide Conserved, Exclusive, Fair, RunKeyed, SleepKeyed, Sorted, Ids, OthersBalanced, Balanced, Switch;
    JoinInv(s, t);
    if t in s.zombie {
      ReapJoins(s, t);
    } else {
      BlockedJoins(s, t);
      SwitchJoins(Blocked(s, t));
    }
  }

  /** A step strands a joiner exactly if it is a join that names a thread already joined. */
  lemma StrandedExactly(s: State, op: Op)
    requires Inv(s) && NoneStranded(s) && WellFormed(s, op) && Step(s, op).Some?
    ensures Known(Step(s, op).value)
    ensures NoneStranded(Step(s, op).value) <==> (op.Join? ==> op.target in s.zombie || op.target !in s.dead)
  {
    hide Conserved, Exclusive, Fair, RunKeyed, SleepKeyed, Sorted, Ids, OthersBalanced, Balanced;
    StepInv(s, op);
    match op
    case Create(p) => CreateJoins(s, p);
    case Exit => ExitJoins(s);
    case Join(t) => JoinJoins(s, t);
    case _ => OtherJoins(s, op);
  }

  /** No join of the run names a thread that was already joined. */
  ghost predicate JoinsOnce(s: State, ops: seq<Op>)
    decreases |ops|
  {
    ops == [] || !Known(s) || !WellFormed(s, ops[0]) ||
    ((ops[0].Join? ==> ops[0].target in s.zombie || ops[0].target !in s.dead) &&
     (Step(s, ops[0]).Some? ==> JoinsOnce(Step(s, ops[0]).value, ops[1..])))
  }

  /** Over a run that joins every thread at most once, nobody ever waits for a thread that has ended. */
  lemma {:induction false} RunUnstranded(s: State, ops: seq<Op>, s': State)
    requires Inv(s) && Known(s) && NoneStranded(s) && JoinsOnce(s, ops) && Reaches(s, ops, s')
    ensures Known(s') && NoneStranded(s')
    decreases |ops|
  {
    hide Inv, Known, WellFormed, Step, NoneStranded;
    if ops != [] {
      StepInv(s, ops[0]);
      StrandedExactly(s, ops[0]);
      RunUnstranded(Step(s, ops[0]).value, ops[1..], s');
    }
  }

  lemma InitUnstranded()
    ensures Known(Init()) && NoneStranded(Init())
  {
  }

  /** So nobody is ever stranded in a run from the start that joins every thread at most once. */
  lemma NobodyStranded(ops: seq<Op>, s': State)
    requires JoinsOnce(Init(), ops) && Reaches(Init(), ops, s')
    ensures Known(s') && NoneStranded(s')
  {
    hide Init, Inv, Known, WellFormed, Step, NoneStranded, JoinsOnce, Reaches;
    InitInv();
    InitUnstranded();
    RunUnstranded(Init(), ops, s');
  }
}
