/** What every step of the scheduler keeps, over every run: each thread is in exactly one place,
    the run tree is sorted by virtual runtime, the processor accounts balance, and mutexes pass
    from owner to owner in the order of arrival. */
module SchedulerInvariant {
  import opened Wrappers
  import opened RedBlackOrder
  import opened SchedulerSpec

  type Threads = map<Tid, Thread>

  // ---------- Places ----------

  function Tids(s: seq<Item>): (r: seq<Tid>)
    ensures |r| == |s| && forall i :: 0 <= i < |s| ==> r[i] == s[i].elem
  {
    if s == [] then [] else [s[0].elem] + Tids(s[1..])
  }

  lemma TidsConcat(a: seq<Item>, b: seq<Item>)
    ensures Tids(a + b) == Tids(a) + Tids(b)
  {
  }

  lemma TidsInsere(s: seq<Item>, it: Item)
    ensures multiset(Tids(Insere(s, it))) == multiset(Tids(s)) + multiset{it.elem}
  {
    var a, b := s[..Pos(s, it.chave)], s[Pos(s, it.chave)..];
    assert s == a + b;
    TidsConcat(a, b);
    TidsConcat(a + [it], b);
    TidsConcat(a, [it]);
    assert Tids([it]) == [it.elem];
  }

  /** Everybody waiting for some mutex. */
  function MutexWaiters(ms: seq<Mutex>): multiset<Tid> {
    if ms == [] then multiset{} else multiset(ms[0].fila) + MutexWaiters(ms[1..])
  }

  /** Everybody waiting in some monitor. */
  function MonitorWaiters(ms: seq<Monitor>): multiset<Tid> {
    if ms == [] then multiset{} else multiset(ms[0].fila) + MonitorWaiters(ms[1..])
  }

  lemma {:induction false} MutexUpdate(ms: seq<Mutex>, m: nat, x: Mutex)
    requires m < |ms|
    ensures MutexWaiters(ms[m := x]) + multiset(ms[m].fila) == MutexWaiters(ms) + multiset(x.fila)
    ensures forall t :: t in ms[m].fila ==> MutexWaiters(ms)[t] > 0
  {
    var ms' := ms[m := x];
    if m > 0 {
      MutexUpdate(ms[1..], m - 1, x);
      assert ms'[1..] == ms[1..][m - 1 := x] && ms[1..][m - 1] == ms[m] && ms'[0] == ms[0];
      var h, a, b, c, d := multiset(ms[0].fila), MutexWaiters(ms'[1..]), multiset(ms[m].fila), MutexWaiters(ms[1..]), multiset(x.fila);
      assert a + b == c + d;
      assert h + a + b == h + (a + b) == h + c + d;
    } else {
      assert ms'[1..] == ms[1..];
    }
  }

  lemma {:induction false} MonitorUpdate(ms: seq<Monitor>, k: nat, x: Monitor)
    requires k < |ms|
    ensures MonitorWaiters(ms[k := x]) + multiset(ms[k].fila) == MonitorWaiters(ms) + multiset(x.fila)
    ensures forall t :: t in ms[k].fila ==> MonitorWaiters(ms)[t] > 0
  {
    var ms' := ms[k := x];
    if k > 0 {
      MonitorUpdate(ms[1..], k - 1, x);
      assert ms'[1..] == ms[1..][k - 1 := x] && ms[1..][k - 1] == ms[k] && ms'[0] == ms[0];
      var h, a, b, c, d := multiset(ms[0].fila), MonitorWaiters(ms'[1..]), multiset(ms[k].fila), MonitorWaiters(ms[1..]), multiset(x.fila);
      assert a + b == c + d;
      assert h + a + b == h + (a + b) == h + c + d;
    } else {
      assert ms'[1..] == ms[1..];
    }
  }

  lemma {:induction false} MutexAppend(ms: seq<Mutex>, x: Mutex)
    ensures MutexWaiters(ms + [x]) == MutexWaiters(ms) + multiset(x.fila)
  {
    if ms == [] {
      assert ms + [x] == [x];
    } else {
      MutexAppend(ms[1..], x);
      assert (ms + [x])[1..] == ms[1..] + [x];
    }
  }

  lemma {:induction false} MonitorAppend(ms: seq<Monitor>, x: Monitor)
    ensures MonitorWaiters(ms + [x]) == MonitorWaiters(ms) + multiset(x.fila)
  {
    if ms == [] {
      assert ms + [x] == [x];
    } else {
      MonitorAppend(ms[1..], x);
      assert (ms + [x])[1..] == ms[1..] + [x];
    }
  }

  function Waiters(s: State): multiset<Tid> {
    MutexWaiters(s.mutexes) + MonitorWaiters(s.monitors)
  }

  /** Every place a thread can be in, apart from being active, with multiplicity. */
  function Places(s: State): multiset<Tid> {
    multiset(Tids(s.exe)) + multiset(Tids(s.sleep)) + multiset(s.join) + multiset(s.zombie) + multiset(s.dead) + Waiters(s)
  }

  /** A thread is in one place, and in the window of a wait it is in two: the monitor (or the mutex
      it was moved to) and the run tree. */
  function Tokens(thr: Threads, t: Tid): nat {
    if t !in thr then 0 else if thr[t].resume == Window then 2 else 1
  }

  ghost predicate Conserved(s: State, running: bool) {
    forall t: Tid :: Places(s)[t] + (if running && t == s.active then 1 else 0) == Tokens(s.thr, t)
  }

  // ---------- Parts of the invariant ----------

  /** Keys of the run tree are virtual runtimes. */
  predicate RunKeyed(thr: Threads, q: seq<Item>) {
    forall i :: 0 <= i < |q| ==> q[i].elem in thr && q[i] == Item(thr[q[i].elem].vruntime, q[i].elem, q[i].elem)
  }

  /** Keys of the sleep tree are wake-up times. */
  predicate SleepKeyed(thr: Threads, q: seq<Item>) {
    forall i :: 0 <= i < |q| ==>
      q[i].elem in thr && thr[q[i].elem].resume != Window && q[i] == Item(thr[q[i].elem].wake, q[i].elem, q[i].elem)
  }

  ghost predicate Ids(thr: Threads, gen: nat) {
    forall t: Tid :: t in thr.Keys <==> 1 <= t < gen
  }

  /** Ids are the created ones; both trees are sorted by the fields they are keyed on. */
  ghost predicate Ordered(s: State) {
    && Known(s) && Ids(s.thr, s.tidGen)
    && RunKeyed(s.thr, s.exe) && SleepKeyed(s.thr, s.sleep)
    && Sorted(s.exe) && Sorted(s.sleep)
  }

  /** A thread's virtual runtime has grown by 1 to 20 for every charged tick, exactly by its weight
      if that never changed, and at most five ticks are uncharged. */
  predicate Balanced(th: Thread) {
    && 1 <= th.priority <= 10 && 0 <= th.nice <= 10 && 0 <= th.base
    && th.times <= MIN_DELAY && (th.resume != Tail ==> th.times < MIN_DELAY) && th.times <= th.exectime
    && th.base + (th.exectime - th.times) <= th.vruntime <= th.base + 20 * (th.exectime - th.times)
    && (th.fixedWeight ==> th.nice == 0 && th.vruntime == th.base + th.Weight() * (th.exectime - th.times))
  }

  predicate OthersBalanced(s: State) {
    forall t :: t in s.thr && t != s.active ==> Balanced(s.thr[t])
  }

  /** Grants follow arrivals; the last grantee owns a mutex that is owned, and nobody waits for a
      mutex that is free. */
  predicate FairMutex(mx: Mutex) {
    && mx.arrivals == mx.grants + mx.fila
    && (mx.owner == None ==> mx.fila == [])
    && (mx.owner.Some? ==> mx.grants != [] && mx.grants[|mx.grants| - 1] == mx.owner.value)
  }

  predicate Fair(ms: seq<Mutex>) {
    forall m :: 0 <= m < |ms| ==> FairMutex(ms[m])
  }

  predicate Owns(ms: seq<Mutex>, m: nat, t: Tid) {
    m < |ms| && ms[m].owner == Some(t)
  }

  predicate QueuePending(thr: Threads, q: seq<Tid>, m: nat) {
    forall t :: t in q ==> t in thr && thr[t].pending == Some(m)
  }

  /** Everyone in a mutex queue has a lock or wait on it in progress. */
  predicate MutexPending(thr: Threads, ms: seq<Mutex>) {
    forall m :: 0 <= m < |ms| ==> QueuePending(thr, ms[m].fila, m)
  }

  /** Everyone in a monitor queue has a wait on its mutex in progress. */
  predicate MonitorPending(thr: Threads, mons: seq<Monitor>) {
    forall k :: 0 <= k < |mons| ==> QueuePending(thr, mons[k].fila, mons[k].mutex)
  }

  /** A lock or wait in progress is still queued, or its thread already owns the mutex. */
  predicate PendingOwned(thr: Threads, ms: seq<Mutex>, w: multiset<Tid>) {
    forall t :: t in thr && thr[t].pending.Some? ==> Owns(ms, thr[t].pending.value, t) || w[t] > 0
  }

  predicate AllOwned(ms: seq<Mutex>, inside: set<nat>, t: Tid) {
    forall m :: m in inside ==> Owns(ms, m, t)
  }

  /** Whoever is inside a mutex owns it. */
  predicate InsideOwned(thr: Threads, ms: seq<Mutex>) {
    forall t :: t in thr ==> AllOwned(ms, thr[t].inside, t)
  }

  /** Whoever owns a mutex is inside it or about to return from its lock or wait. */
  predicate OwnersInside(thr: Threads, ms: seq<Mutex>) {
    forall m :: 0 <= m < |ms| && ms[m].owner.Some? ==>
      ms[m].owner.value in thr && (m in thr[ms[m].owner.value].inside || thr[ms[m].owner.value].pending == Some(m))
  }

  predicate ExclusiveParts(thr: Threads, ms: seq<Mutex>, mons: seq<Monitor>, w: multiset<Tid>) {
    && MutexPending(thr, ms) && MonitorPending(thr, mons) && PendingOwned(thr, ms, w)
    && InsideOwned(thr, ms) && OwnersInside(thr, ms)
  }

  predicate Exclusive(s: State) {
    ExclusiveParts(s.thr, s.mutexes, s.monitors, Waiters(s))
  }

  /** All but the account of the active thread. */
  ghost predicate Core(s: State, running: bool) {
    Ordered(s) && OthersBalanced(s) && Conserved(s, running) && Fair(s.mutexes) && Exclusive(s)
  }

  /** The active thread has been put somewhere and the next one is to be chosen. */
  ghost predicate Parked(s: State) {
    Core(s, false) && Balanced(Me(s))
  }

  /** A thread has just been made active. */
  ghost predicate Arriving(s: State) {
    Core(s, true) && Balanced(Me(s))
  }

  /** The invariant between steps. */
  ghost predicate Inv(s: State) {
    Arriving(s) && Me(s).resume == Call && Me(s).pending == None
  }

  // ---------- Changes of one thread's record ----------

  lemma SetMeIds(s: State, th: Thread)
    requires s.active in s.thr
    ensures SetMe(s, th).thr.Keys == s.thr.Keys
    ensures Known(s) ==> Known(SetMe(s, th))
    ensures Ids(s.thr, s.tidGen) ==> Ids(SetMe(s, th).thr, s.tidGen)
  {
    assert SetMe(s, th).thr.Keys == s.thr.Keys;
  }

  predicate NotIn(q: seq<Item>, t: Tid) {
    forall i :: 0 <= i < |q| ==> q[i].elem != t
  }

  lemma OrderedSetMe(s: State, th: Thread)
    requires Ordered(s)
    requires NotIn(s.exe, s.active) || th.vruntime == Me(s).vruntime
    requires NotIn(s.sleep, s.active) || (th.wake == Me(s).wake && th.resume != Window)
    ensures Ordered(SetMe(s, th))
  {
    SetMeIds(s, th);
    hide Known;
  }

  /** Links to mutexes are untouched. */
  lemma ExclusiveSetMe(s: State, th: Thread)
    requires Exclusive(s) && s.active in s.thr && th.pending == Me(s).pending && th.inside == Me(s).inside
    ensures Exclusive(SetMe(s, th))
  {
    hide Waiters;
    var s' := SetMe(s, th);
    assert Waiters(s') == Waiters(s) by { SamePlaces(s, s'); }
    assert MutexPending(s'.thr, s'.mutexes);
    assert MonitorPending(s'.thr, s'.monitors);
    assert PendingOwned(s'.thr, s'.mutexes, Waiters(s'));
    assert InsideOwned(s'.thr, s'.mutexes);
  }

  lemma SamePlaces(s: State, s': State)
    requires s'.exe == s.exe && s'.sleep == s.sleep && s'.join == s.join && s'.zombie == s.zombie && s'.dead == s.dead
    requires s'.mutexes == s.mutexes && s'.monitors == s.monitors
    ensures Places(s') == Places(s) && Waiters(s') == Waiters(s)
  {
  }

  lemma ConservedSetMe(s: State, th: Thread, running: bool)
    requires Conserved(s, running) && s.active in s.thr
    requires th.resume == Window <==> Me(s).resume == Window
    ensures Conserved(SetMe(s, th), running)
  {
    hide Places;
    var s' := SetMe(s, th);
    SamePlaces(s, s');
    forall t: Tid ensures Places(s')[t] + (if running && t == s'.active then 1 else 0) == Tokens(s'.thr, t) {
      assert Tokens(s'.thr, t) == Tokens(s.thr, t);
      assert Places(s)[t] + (if running && t == s.active then 1 else 0) == Tokens(s.thr, t);
    }
  }

  // ---------- Switching ----------

  lemma ExtractPlaces(s: State)
    requires s.exe != []
    ensures Places(s) == Places(Extract(s)) + multiset{s.exe[0].elem}
    ensures Waiters(Extract(s)) == Waiters(s)
  {
    assert s.exe == [s.exe[0]] + s.exe[1..];
    TidsConcat([s.exe[0]], s.exe[1..]);
    assert Tids([s.exe[0]]) == [s.exe[0].elem];
  }

  lemma ExtractConserved(s: State)
    requires Conserved(s, false) && s.exe != []
    ensures Conserved(Extract(s), true)
  {
    hide Places;
    ExtractPlaces(s);
    var s' := Extract(s);
    forall t: Tid ensures Places(s')[t] + (if t == s'.active then 1 else 0) == Tokens(s'.thr, t) {
      assert Tokens(s'.thr, t) == Places(s)[t];
    }
  }

  lemma ExtractOrdered(s: State)
    requires Ordered(s) && s.exe != []
    ensures Ordered(Extract(s))
  {
  }

  lemma ExtractExclusive(s: State)
    requires Exclusive(s) && s.exe != []
    ensures Exclusive(Extract(s))
  {
    hide Waiters, ExclusiveParts;
    ExtractPlaces(s);
  }

  lemma ExtractArrives(s: State)
    requires Parked(s) && s.exe != []
    ensures Arriving(Extract(s))
  {
    hide Conserved, Exclusive, Balanced, Fair, RunKeyed, SleepKeyed, Sorted, Ids;
    ExtractConserved(s);
    ExtractOrdered(s);
    ExtractExclusive(s);
  }

  /** An arriving thread that is not in the window of a wait is nowhere else. */
  lemma OnlyActive(s: State)
    requires Known(s) && Conserved(s, true) && Exclusive(s) && Me(s).resume != Window
    ensures Places(s)[s.active] == 0 && NotIn(s.exe, s.active) && NotIn(s.sleep, s.active)
    ensures Waiters(s)[s.active] == 0
    ensures Me(s).pending.Some? ==> Owns(s.mutexes, Me(s).pending.value, s.active)
    ensures s.active !in s.join && s.active !in s.zombie && s.active !in s.dead
    ensures forall m :: 0 <= m < |s.mutexes| ==> s.active !in s.mutexes[m].fila
    ensures forall k :: 0 <= k < |s.monitors| ==> s.active !in s.monitors[k].fila
  {
    assert Tokens(s.thr, s.active) == 1;
    assert Places(s)[s.active] == 0;
    hide Conserved, Exclusive, Known;
    assert multiset(Tids(s.exe))[s.active] == 0 && multiset(Tids(s.sleep))[s.active] == 0;
    forall i | 0 <= i < |s.exe| ensures s.exe[i].elem != s.active {
      assert Tids(s.exe)[i] in multiset(Tids(s.exe));
    }
    forall i | 0 <= i < |s.sleep| ensures s.sleep[i].elem != s.active {
      assert Tids(s.sleep)[i] in multiset(Tids(s.sleep));
    }
    assert s.active !in multiset(s.join) && s.active !in multiset(s.zombie) && s.active !in multiset(s.dead);
    forall m | 0 <= m < |s.mutexes| ensures s.active !in s.mutexes[m].fila {
      MutexUpdate(s.mutexes, m, s.mutexes[m]);
    }
    forall k | 0 <= k < |s.monitors| ensures s.active !in s.monitors[k].fila {
      MonitorUpdate(s.monitors, k, s.monitors[k]);
    }
    assert Me(s).pending.Some? ==> Owns(s.mutexes, Me(s).pending.value, s.active) by { OwnedOnReturn(s); }
  }

  lemma OwnedOnReturn(s: State)
    ensures s.active in s.thr && Exclusive(s) && Waiters(s)[s.active] == 0 && Me(s).pending.Some?
      ==> Owns(s.mutexes, Me(s).pending.value, s.active)
  {
  }

  /** Changing the active thread's own record while it is nowhere else. */
  lemma SetMeCore(s: State, th: Thread)
    requires Core(s, true) && Me(s).resume != Window && th.resume != Window
    requires th.pending == Me(s).pending && th.inside == Me(s).inside
    ensures Core(SetMe(s, th), true) && Me(SetMe(s, th)) == th
  {
    hide Conserved, Exclusive, Balanced, Fair, RunKeyed, SleepKeyed, Sorted, Ids, NotIn;
    OnlyActive(s);
    OrderedSetMe(s, th);
    ConservedSetMe(s, th, true);
    ExclusiveSetMe(s, th);
  }

  /** A thread in no queue may change what it waits for and is inside of, as long as it owns these. */
  lemma OwnRecord(thr: Threads, thr': Threads, t: Tid, ms: seq<Mutex>, mons: seq<Monitor>)
    requires t in thr && thr'.Keys == thr.Keys && forall x :: x in thr && x != t ==> thr'[x] == thr[x]
    requires MutexPending(thr, ms) && MonitorPending(thr, mons)
    requires forall m :: 0 <= m < |ms| ==> t !in ms[m].fila
    requires forall k :: 0 <= k < |mons| ==> t !in mons[k].fila
    ensures MutexPending(thr', ms) && MonitorPending(thr', mons)
  {
    forall m | 0 <= m < |ms| ensures QueuePending(thr', ms[m].fila, m) { assert QueuePending(thr, ms[m].fila, m); }
    forall k | 0 <= k < |mons| ensures QueuePending(thr', mons[k].fila, mons[k].mutex) { assert QueuePending(thr, mons[k].fila, mons[k].mutex); }
  }

  lemma ReturnedOwns(thr: Threads, t: Tid, ms: seq<Mutex>, w: multiset<Tid>, th: Thread)
    requires t in thr && PendingOwned(thr, ms, w) && InsideOwned(thr, ms) && OwnersInside(thr, ms)
    requires thr[t].pending.Some? ==> Owns(ms, thr[t].pending.value, t)
    requires th.pending == None && th.inside == if thr[t].pending.Some? then thr[t].inside + {thr[t].pending.value} else thr[t].inside
    ensures PendingOwned(thr[t := th], ms, w) && InsideOwned(thr[t := th], ms) && OwnersInside(thr[t := th], ms)
  {
    assert AllOwned(ms, thr[t].inside, t);
    assert AllOwned(ms, th.inside, t);
  }

  lemma ReturnedExclusive(s: State)
    requires Known(s) && Exclusive(s) && Waiters(s)[s.active] == 0
    requires Me(s).pending.Some? ==> Owns(s.mutexes, Me(s).pending.value, s.active)
    requires forall m :: 0 <= m < |s.mutexes| ==> s.active !in s.mutexes[m].fila
    requires forall k :: 0 <= k < |s.monitors| ==> s.active !in s.monitors[k].fila
    ensures Exclusive(Returned(s))
  {
    hide Waiters, MutexPending, MonitorPending, PendingOwned, InsideOwned, OwnersInside;
    var s' := Returned(s);
    SamePlaces(s, s');
    OwnRecord(s.thr, s'.thr, s.active, s.mutexes, s.monitors);
    ReturnedOwns(s.thr, s.active, s.mutexes, Waiters(s), Me(s'));
  }

  lemma ReturnedCore(s: State)
    requires Core(s, true) && Me(s).resume != Window
    ensures Core(Returned(s), true) && Me(Returned(s)).resume == Call && Me(Returned(s)).pending == None
  {
    hide Conserved, Exclusive, Balanced, Fair, RunKeyed, SleepKeyed, Sorted, Ids, NotIn;
    OnlyActive(s);
    OrderedSetMe(s, Me(Returned(s)));
    ConservedSetMe(s, Me(Returned(s)), true);
    ReturnedExclusive(s);
  }

  lemma RunTailInv(s: State)
    requires Core(s, true) && Me(s).resume == Call && Me(s).pending == None
    requires Balanced(Me(s).(resume := Tail))
    ensures Inv(RunTail(s))
  {
    hide Conserved, Exclusive, Fair, RunKeyed, SleepKeyed, Sorted, Ids, OthersBalanced;
    var s1 := s.(clock := s.clock + 1);
    ClockCore(s);
    if Me(s).times >= MIN_DELAY {
      ChargedBalanced(Me(s).(resume := Tail));
      SetMeCore(s1, Me(s1).Charged());
    }
  }

  lemma ClockCore(s: State)
    requires Core(s, true)
    ensures Core(s.(clock := s.clock + 1), true)
  {
    hide ExclusiveParts, Places, Waiters, Balanced, Fair;
    var s1 := s.(clock := s.clock + 1);
    SamePlaces(s, s1);
    PlacesKeep(s, s1, true);
  }

  lemma ChargedBalanced(th: Thread)
    requires Balanced(th)
    ensures Balanced(th.Charged()) && Balanced(th.Charged().(resume := Call)) && Balanced(th.Charged().(resume := Window))
  {
    var w, n, e := th.Weight(), th.times, th.exectime;
    assert n <= w * n <= 20 * n by { WeightBounds(w, n); }
    assert w * (e - n) + w * n == w * e by { WeightSum(w, e, n); }
  }

  lemma WeightBounds(w: int, n: nat)
    requires 1 <= w <= 20
    ensures n <= w * n <= 20 * n
  {
  }

  lemma WeightSum(w: int, e: int, n: int)
    ensures w * (e - n) + w * n == w * e
  {
  }

  lemma ReturnedInv(s: State)
    requires Arriving(s) && Me(s).resume != Window
    ensures Me(s).resume != Tail ==> Inv(Returned(s))
    ensures Me(s).resume == Tail ==> Inv(RunTail(Returned(s)))
  {
    hide Conserved, Exclusive, Fair, RunKeyed, SleepKeyed, Sorted, Ids, OthersBalanced;
    ReturnedCore(s);
    if Me(s).resume == Tail {
      RunTailInv(Returned(s));
    }
  }

  lemma WindowConserved(s: State)
    requires Conserved(s, true) && s.active in s.thr && Me(s).resume == Window
    ensures Conserved(SetResume(s, Call), false)
  {
    hide Places;
    var s' := SetResume(s, Call);
    SamePlaces(s, s');
    forall t: Tid ensures Places(s')[t] == Tokens(s'.thr, t) {
      assert Places(s)[t] + (if t == s.active then 1 else 0) == Tokens(s.thr, t);
    }
  }

  lemma WindowParks(s: State)
    requires Arriving(s) && Me(s).resume == Window
    ensures Parked(SetResume(s, Call))
  {
    hide Conserved, Exclusive, Fair, RunKeyed, SleepKeyed, Sorted, Ids;
    WindowConserved(s);
    WindowAwake(s);
    ExclusiveSetMe(s, Me(SetResume(s, Call)));
    OrderedSetMe(s, Me(SetResume(s, Call)));
  }

  lemma WindowAwake(s: State)
    requires SleepKeyed(s.thr, s.sleep) && s.active in s.thr && Me(s).resume == Window
    ensures NotIn(s.sleep, s.active)
  {
  }

  lemma {:induction false} ResumedInv(s: State)
    requires Arriving(s)
    ensures Resumed(s).Some? ==> Inv(Resumed(s).value)
    decreases |s.exe|
  {
    hide Conserved, Exclusive, Fair, RunKeyed, SleepKeyed, Sorted, Ids, OthersBalanced, Balanced;
    if Me(s).resume == Window {
      WindowParks(s);
      if s.exe != [] {
        ExtractArrives(SetResume(s, Call));
        ResumedInv(Extract(SetResume(s, Call)));
      }
    } else {
      ReturnedInv(s);
    }
  }

  lemma SwitchInv(s: State)
    requires Parked(s)
    ensures Switch(s).Some? ==> Inv(Switch(s).value)
  {
    hide Conserved, Exclusive, Fair, RunKeyed, SleepKeyed, Sorted, Ids, OthersBalanced, Balanced;
    if s.exe != [] {
      ExtractArrives(s);
      ResumedInv(Extract(s));
    }
  }

  // ---------- Moving threads between places ----------

  lemma PutPlaces(s: State, t: Tid)
    requires t in s.thr
    ensures Places(Put(s, t)) == Places(s) + multiset{t} && Waiters(Put(s, t)) == Waiters(s)
  {
    TidsInsere(s.exe, ItemOf(s, t));
  }

  lemma InsereItems(q: seq<Item>, it: Item)
    ensures forall i :: 0 <= i < |Insere(q, it)| ==> Insere(q, it)[i] == it || Insere(q, it)[i] in q
  {
  }

  lemma PutOrdered(s: State, t: Tid)
    requires Ordered(s) && t in s.thr
    ensures Ordered(Put(s, t))
  {
    var s' := Put(s, t);
    InsereSorted(s.exe, ItemOf(s, t));
    InsereItems(s.exe, ItemOf(s, t));
    InsereKnown(s.thr.Keys, s.exe, ItemOf(s, t));
    forall i | 0 <= i < |s'.exe|
      ensures s'.exe[i].elem in s'.thr && s'.exe[i] == Item(s'.thr[s'.exe[i].elem].vruntime, s'.exe[i].elem, s'.exe[i].elem)
    {
      if s'.exe[i] != ItemOf(s, t) {
        var j :| 0 <= j < |s.exe| && s.exe[j] == s'.exe[i];
      }
    }
    hide Insere;
  }

  lemma PutExclusive(s: State, t: Tid)
    requires Exclusive(s) && t in s.thr
    ensures Exclusive(Put(s, t))
  {
    hide Insere, Waiters, ExclusiveParts;
    PutPlaces(s, t);
  }

  lemma PutParks(s: State)
    requires Arriving(s) && Me(s).resume != Window
    ensures Parked(Put(s, s.active))
  {
    hide Conserved, Exclusive, Fair, RunKeyed, SleepKeyed, Sorted, Ids, Insere, Balanced, Places;
    PutPlaces(s, s.active);
    PutOrdered(s, s.active);
    PutExclusive(s, s.active);
    PlacesPark(s, Put(s, s.active));
  }

  /** Adding the active thread to one place accounts for it there. */
  lemma PlacesPark(s: State, s': State)
    requires Conserved(s, true) && Places(s') == Places(s) + multiset{s.active} && s'.thr == s.thr
    ensures Conserved(s', false)
  {
    hide Places;
    forall t: Tid ensures Places(s')[t] == Tokens(s'.thr, t) {
      assert Places(s)[t] + (if t == s.active then 1 else 0) == Tokens(s.thr, t);
    }
  }

  lemma PlacesKeep(s: State, s': State, running: bool)
    requires Conserved(s, running) && Places(s') == Places(s) && s'.thr == s.thr && s'.active == s.active
    ensures Conserved(s', running)
  {
    hide Places;
    forall t: Tid ensures Places(s')[t] + (if running && t == s'.active then 1 else 0) == Tokens(s'.thr, t) {
      assert Places(s)[t] + (if running && t == s.active then 1 else 0) == Tokens(s.thr, t);
    }
  }

  // ---------- Steps that do not block ----------

  lemma MinKeyNatural(s: State)
    requires Arriving(s)
    ensures MinKey(s) >= 0
  {
    if s.exe != [] {
      assert Balanced(s.thr[s.exe[0].elem]);
    }
  }

  lemma CreateInv(s: State, p: int)
    requires Inv(s)
    ensures Inv(CreateStep(s, p))
  {
    hide Conserved, Exclusive, Fair, RunKeyed, SleepKeyed, Sorted, Insere, Places, Waiters;
    var t := s.tidGen;
    var s1 := s.(thr := s.thr[t := NewThread(MinKey(s), p)], tidGen := t + 1);
    MinKeyNatural(s);
    assert t !in s.thr.Keys;
    assert s1.thr.Keys == s.thr.Keys + {t};
    NewOrdered(s, s1);
    PutOrdered(s1, t);
    SamePlaces(s, s1);
    NewExclusive(s, s1);
    PutExclusive(s1, t);
    CreateConserved(s, s1, t);
  }

  lemma CreateConserved(s: State, s1: State, t: Tid)
    requires Conserved(s, true) && s1 == s.(thr := s1.thr, tidGen := s1.tidGen) && t !in s.thr && t in s1.thr
    requires s1.thr == s.thr[t := s1.thr[t]] && s1.thr[t].resume == Start && s.active in s.thr
    ensures Conserved(Put(s1, t), true)
  {
    hide Places, Insere;
    SamePlaces(s, s1);
    PutPlaces(s1, t);
    var s2 := Put(s1, t);
    forall x: Tid ensures Places(s2)[x] + (if x == s2.active then 1 else 0) == Tokens(s2.thr, x) {
      assert Places(s)[x] + (if x == s.active then 1 else 0) == Tokens(s.thr, x);
    }
  }

  lemma NewOrdered(s: State, s1: State)
    requires Ordered(s) && s1 == s.(thr := s1.thr, tidGen := s.tidGen + 1)
    requires s1.thr.Keys == s.thr.Keys + {s.tidGen} && forall t :: t in s.thr ==> s1.thr[t] == s.thr[t]
    ensures Ordered(s1)
  {
    assert QueueKnown(s1.thr.Keys, s1.join);
    assert MutexesKnown(s1.thr.Keys, s1.mutexes) by {
      forall m | 0 <= m < |s.mutexes| ensures QueueKnown(s1.thr.Keys, s.mutexes[m].fila) {
        assert QueueKnown(s.thr.Keys, s.mutexes[m].fila);
      }
    }
  }

  lemma NewExclusive(s: State, s1: State)
    requires Exclusive(s) && s1.mutexes == s.mutexes && s1.monitors == s.monitors && Waiters(s1) == Waiters(s)
    requires s1.thr.Keys == s.thr.Keys + {s.tidGen} && s.tidGen !in s.thr && forall t :: t in s.thr ==> s1.thr[t] == s.thr[t]
    requires s1.thr[s.tidGen].pending == None && s1.thr[s.tidGen].inside == {}
    ensures Exclusive(s1)
  {
    forall m | 0 <= m < |s.mutexes| ensures QueuePending(s1.thr, s.mutexes[m].fila, m) {
      assert QueuePending(s.thr, s.mutexes[m].fila, m);
    }
    forall k | 0 <= k < |s.monitors| ensures QueuePending(s1.thr, s.monitors[k].fila, s.monitors[k].mutex) {
      assert QueuePending(s.thr, s.monitors[k].fila, s.monitors[k].mutex);
    }
    assert InsideOwned(s1.thr, s1.mutexes);
    assert OwnersInside(s1.thr, s1.mutexes);
  }

  lemma NiceInv(s: State, n: int)
    requires Inv(s)
    ensures Inv(NiceStep(s, n))
  {
    hide Conserved, Exclusive, Fair, RunKeyed, SleepKeyed, Sorted, Ids, OthersBalanced;
    SetMeCore(s, Me(NiceStep(s, n)));
  }

  lemma NewMutexPlaces(s: State, s': State)
    requires s' == s.(mutexes := s.mutexes + [Mutex(None, [], [], [])], monitors := s'.monitors)
    requires s'.monitors == s.monitors || s'.monitors == s.monitors + [Monitor(|s.mutexes|, [])]
    ensures Waiters(s') == Waiters(s) && Places(s') == Places(s)
  {
    MutexAppend(s.mutexes, Mutex(None, [], [], []));
    MonitorAppend(s.monitors, Monitor(|s.mutexes|, []));
    assert Waiters(s') == Waiters(s);
  }

  lemma NewMutexExclusive(s: State, s': State)
    requires Exclusive(s) && s' == s.(mutexes := s.mutexes + [Mutex(None, [], [], [])], monitors := s'.monitors)
    requires s'.monitors == s.monitors || s'.monitors == s.monitors + [Monitor(|s.mutexes|, [])]
    requires Waiters(s') == Waiters(s)
    ensures Exclusive(s')
  {
    hide Waiters, MutexPending, MonitorPending, PendingOwned, InsideOwned, OwnersInside;
    NewMutexQueues(s.thr, s.mutexes, s'.mutexes, s.monitors, s'.monitors);
    NewMutexOwners(s.thr, s.mutexes, s'.mutexes, Waiters(s));
  }

  lemma NewMutexQueues(thr: Threads, ms: seq<Mutex>, ms': seq<Mutex>, mons: seq<Monitor>, mons': seq<Monitor>)
    requires MutexPending(thr, ms) && MonitorPending(thr, mons) && ms' == ms + [Mutex(None, [], [], [])]
    requires mons' == mons || mons' == mons + [Monitor(|ms|, [])]
    ensures MutexPending(thr, ms') && MonitorPending(thr, mons')
  {
    forall k | 0 <= k < |mons'| ensures QueuePending(thr, mons'[k].fila, mons'[k].mutex) {
      if k < |mons| { assert QueuePending(thr, mons[k].fila, mons[k].mutex); }
    }
  }

  lemma NewMutexOwners(thr: Threads, ms: seq<Mutex>, ms': seq<Mutex>, w: multiset<Tid>)
    requires PendingOwned(thr, ms, w) && InsideOwned(thr, ms) && OwnersInside(thr, ms) && ms' == ms + [Mutex(None, [], [], [])]
    ensures PendingOwned(thr, ms', w) && InsideOwned(thr, ms') && OwnersInside(thr, ms')
  {
    forall t | t in thr ensures AllOwned(ms', thr[t].inside, t) { assert AllOwned(ms, thr[t].inside, t); }
  }

  lemma NewMutexInv(s: State, s': State)
    requires Inv(s) && s' == s.(mutexes := s.mutexes + [Mutex(None, [], [], [])], monitors := s'.monitors)
    requires s'.monitors == s.monitors || s'.monitors == s.monitors + [Monitor(|s.mutexes|, [])]
    ensures Inv(s')
  {
    hide Places, Waiters, Conserved, Balanced, Exclusive, RunKeyed, SleepKeyed, Sorted, Ids;
    NewMutexPlaces(s, s');
    PlacesKeep(s, s', true);
    NewMutexExclusive(s, s');
  }
}
