/** What each library call and each clock tick changes, field by field: who runs next, what its record and the trees,
    lists and queues hold afterwards, and that the clock advances exactly with the tail of the dispatcher. */
module SchedulerEffects {
  import opened Wrappers
  import opened RedBlackOrder
  import opened SchedulerSpec
  import opened SchedulerInvariant
  import opened SchedulerSteps

  // ---------- Who runs next ----------

  /** Candidate `k` is the first that can go on. One in the window of a wait is passed over, once. */
  ghost predicate GoesFirst(thr: Threads, q: seq<Tid>, k: nat) {
    && k < |q| && q[k] in thr && (thr[q[k]].resume == Window ==> q[k] in q[..k])
    && forall i :: 0 <= i < k ==> q[i] in thr && thr[q[i]].resume == Window && q[i] !in q[..i]
  }

  /** A thread goes on: it owns what it waited for, and in the tail of the dispatcher at least five uncharged ticks
      are charged at its weight. */
  ghost predicate GoesOn(a: Thread, b: Thread, tail: bool) {
    && b == a.(resume := Call, pending := None, inside := b.inside, vruntime := b.vruntime, times := b.times)
    && (forall m :: m in b.inside <==> m in a.inside || a.pending == Some(m))
    && (if tail && a.times >= 5 then b.vruntime == a.vruntime + (a.nice + a.priority) * a.times && b.times == 0
        else b.vruntime == a.vruntime && b.times == a.times)
  }

  /** Everything but the threads, the run tree, the clock and who runs. */
  predicate SameRest(p: State, s: State) {
    && s.sleep == p.sleep && s.join == p.join && s.zombie == p.zombie && s.dead == p.dead
    && s.mutexes == p.mutexes && s.monitors == p.monitors && s.tidGen == p.tidGen
  }

  /** From state `p` the first of the candidates `q` that can go on runs; the candidates are the last ones of the run
      tree, or one thread more. */
  ghost predicate Turn(p: State, q: seq<Tid>, s: State, k: nat) {
    && GoesFirst(p.thr, q, k) && s.active == q[k]
    && |q| <= |p.exe| + 1 && s.exe == p.exe[|p.exe| + k + 1 - |q|..]
    && s.clock == p.clock + (if p.thr[q[k]].resume == Tail then 1 else 0)
    && s.thr.Keys == p.thr.Keys && GoesOn(p.thr[q[k]], s.thr[q[k]], p.thr[q[k]].resume == Tail)
    && (forall t :: t in p.thr && t != q[k] ==> s.thr[t] == if t in q[..k] then p.thr[t].(resume := Call) else p.thr[t])
    && SameRest(p, s)
  }

  lemma FirstOnce(thr: Threads, q: seq<Tid>, j: nat, k: nat)
    requires GoesFirst(thr, q, j) && GoesFirst(thr, q, k)
    ensures j == k
  {
  }

  /** Somebody can go on if somebody is not in the window of a wait. */
  lemma {:induction false} SomebodyGoes(thr: Threads, q: seq<Tid>, i: nat) returns (k: nat)
    requires i < |q| && (forall j :: 0 <= j < |q| ==> q[j] in thr) && thr[q[i]].resume != Window
    ensures GoesFirst(thr, q, k) && k <= i
  {
    k := 0;
    while thr[q[k]].resume == Window && q[k] !in q[..k]
      invariant k <= i && forall j :: 0 <= j < k ==> thr[q[j]].resume == Window && q[j] !in q[..j]
      decreases i - k
    {
      k := k + 1;
    }
  }

  /** In the second half of a wait the thread is passed over. */
  lemma PassesOver(s: State, q: seq<Tid>, k: nat)
    requires KnownThreads(s) && Me(s).resume == Window && q != [] && q[0] == s.active
    ensures GoesFirst(SetResume(s, Call).thr, q[1..], k) <==> GoesFirst(s.thr, q, k + 1)
  {
    var thr, thr' := s.thr, SetResume(s, Call).thr;
    if GoesFirst(thr', q[1..], k) {
      forall i | 0 <= i < k + 1 ensures q[i] in thr && thr[q[i]].resume == Window && q[i] !in q[..i] {
        if i > 0 {
          assert q[i] == q[1..][i - 1] && q[..i] == [q[0]] + q[1..][..i - 1];
        }
      }
      assert q[..k + 1] == [q[0]] + q[1..][..k] && q[k + 1] == q[1..][k];
    }
    if GoesFirst(thr, q, k + 1) {
      assert q[..k + 1] == [q[0]] + q[1..][..k] && q[k + 1] == q[1..][k];
      forall i | 0 <= i < k ensures q[1..][i] in thr' && thr'[q[1..][i]].resume == Window && q[1..][i] !in q[1..][..i] {
        assert q[1..][i] == q[i + 1] && q[..i + 1] == [q[0]] + q[1..][..i];
      }
    }
  }

  lemma PassedOver(s: State, q: seq<Tid>, s': State, k: nat)
    requires KnownThreads(s) && Me(s).resume == Window && s.exe != [] && q != [] && q[0] == s.active && |q| == |s.exe| + 1
    requires Turn(Extract(SetResume(s, Call)), q[1..], s', k)
    ensures Turn(s, q, s', k + 1)
  {
    PassesOver(s, q, k);
    assert q[k + 1] == q[1..][k] && q[..k + 1] == [q[0]] + q[1..][..k];
    assert SetResume(s, Call).thr.Keys == s.thr.Keys;
  }

  lemma ReturnsAtOnce(s: State, q: seq<Tid>)
    requires KnownThreads(s) && Me(s).resume != Window && q != [] && q[0] == s.active && |q| == |s.exe| + 1
    ensures Resumed(s).Some? && Turn(s, q, Resumed(s).value, 0)
  {
    hide Resumed, GoesOn;
    ReturnedGoesOn(s);
    var s' := Resumed(s).value;
    assert s'.thr.Keys == s.thr.Keys;
    assert s.exe[0..] == s.exe && q[..0] == [];
  }

  lemma ReturnedGoesOn(s: State)
    requires KnownThreads(s) && Me(s).resume != Window
    ensures Resumed(s).Some?
    ensures var s' := Resumed(s).value;
      && s'.active in s'.thr && s' == s.(thr := s.thr[s.active := Me(s')], clock := s'.clock) && s'.active == s.active
      && s'.clock == s.clock + (if Me(s).resume == Tail then 1 else 0)
      && GoesOn(Me(s), Me(s'), Me(s).resume == Tail)
  {
    var s' := Resumed(s).value;
    assert s'.thr == s.thr[s.active := Me(s')];
  }

  /** The thread made active goes on, or if it is in the window of a wait the first behind it that can. */
  lemma {:induction false} ResumedTurn(s: State) returns (k: nat)
    requires KnownThreads(s)
    ensures Resumed(s).Some? ==> Turn(s, [s.active] + Tids(s.exe), Resumed(s).value, k)
    ensures Resumed(s) == None ==> forall j: nat :: !GoesFirst(s.thr, [s.active] + Tids(s.exe), j)
    decreases |s.exe|
  {
    hide Returned, RunTail, GoesFirst, Turn, Resumed;
    var q := [s.active] + Tids(s.exe);
    if Me(s).resume != Window {
      ReturnsAtOnce(s, q);
      k := 0;
    } else if s.exe == [] {
      NobodyGoes(s);
      k := 0;
    } else {
      var e := Extract(SetResume(s, Call));
      assert KnownThreads(e) by { assert SetResume(s, Call).thr.Keys == s.thr.Keys; }
      ResumedOver(s);
      assert q[1..] == [e.active] + Tids(e.exe);
      var j := ResumedTurn(e);
      k := j + 1;
      if Resumed(e).Some? {
        PassedOver(s, q, Resumed(e).value, j);
      } else {
        forall i: nat ensures !GoesFirst(s.thr, q, i) {
          NotFirst(s, q);
          if i > 0 { PassesOver(s, q, i - 1); }
        }
      }
    }
  }

  lemma ResumedOver(s: State)
    requires KnownThreads(s) && Me(s).resume == Window && s.exe != []
    ensures KnownThreads(Extract(SetResume(s, Call))) && Resumed(s) == Resumed(Extract(SetResume(s, Call)))
  {
    assert SetResume(s, Call).thr.Keys == s.thr.Keys;
  }

  lemma NotFirst(s: State, q: seq<Tid>)
    requires KnownThreads(s) && Me(s).resume == Window && q != [] && q[0] == s.active
    ensures !GoesFirst(s.thr, q, 0)
  {
  }

  lemma NobodyGoes(s: State)
    requires KnownThreads(s) && Me(s).resume == Window && s.exe == []
    ensures Resumed(s) == None && forall j: nat :: !GoesFirst(s.thr, [s.active] + Tids(s.exe), j)
  {
  }

  /** When the running thread was put somewhere, the first of the run tree that can go on runs. */
  lemma SwitchTurn(s: State) returns (k: nat)
    requires KnownThreads(s)
    ensures Switch(s).Some? ==> Turn(s, Tids(s.exe), Switch(s).value, k)
    ensures Switch(s) == None ==> forall j: nat :: !GoesFirst(s.thr, Tids(s.exe), j)
  {
    hide Resumed, GoesFirst, Turn;
    k := 0;
    if s.exe != [] {
      assert Tids(s.exe) == [Extract(s).active] + Tids(Extract(s).exe);
      k := ResumedTurn(Extract(s));
      if Switch(s).Some? { ExtractTurn(s, Switch(s).value, k); }
    } else {
      forall j: nat ensures !GoesFirst(s.thr, Tids(s.exe), j) { EmptyFirst(s.thr, j); }
    }
  }

  lemma ExtractTurn(p: State, s: State, k: nat)
    requires p.exe != [] && Turn(Extract(p), Tids(p.exe), s, k)
    ensures Turn(p, Tids(p.exe), s, k)
  {
    hide GoesOn;
    assert p.exe[1..][k..] == p.exe[k + 1..];
  }

  lemma EmptyFirst(thr: Threads, j: nat)
    ensures !GoesFirst(thr, [], j)
  {
  }

  /** Of the threads that can go on, the one that runs has the least key. */
  lemma TurnLeast(p: State, s: State, k: nat, i: nat)
    requires Turn(p, Tids(p.exe), s, k) && Sorted(p.exe) && i < |p.exe| && p.exe[i].elem in p.thr && p.thr[p.exe[i].elem].resume != Window
    ensures k < |p.exe| && p.exe[k].elem == s.active && p.exe[k].chave <= p.exe[i].chave
  {
    hide GoesOn, SameRest;
    assert Tids(p.exe)[k] == p.exe[k].elem && Tids(p.exe)[i] == p.exe[i].elem;
    hide Tids;
  }

  // ---------- Entering the run tree ----------

  /** The run tree when threads `ts` have entered it one after the other, each under its virtual runtime. */
  function Entered(thr: Threads, q: seq<Item>, ts: seq<Tid>): seq<Item>
    requires QueueKnown(thr.Keys, ts)
    decreases |ts|
  {
    if ts == [] then q else Entered(thr, Insere(q, Item(thr[ts[0]].vruntime, ts[0], ts[0])), ts[1..])
  }

  lemma {:induction false} EnteredAll(thr: Threads, q: seq<Item>, ts: seq<Tid>)
    requires QueueKnown(thr.Keys, ts)
    ensures multiset(Tids(Entered(thr, q, ts))) == multiset(Tids(q)) + multiset(ts)
    ensures Sorted(q) ==> Sorted(Entered(thr, q, ts))
    ensures RunKeyed(thr, q) ==> RunKeyed(thr, Entered(thr, q, ts))
    decreases |ts|
  {
    hide Insere, Sorted, RunKeyed, Tids;
    if ts != [] {
      var it := Item(thr[ts[0]].vruntime, ts[0], ts[0]);
      TidsInsere(q, it);
      if Sorted(q) { InsereSorted(q, it); }
      EnterKeyed(thr, q, it);
      EnteredAll(thr, Insere(q, it), ts[1..]);
      assert ts == [ts[0]] + ts[1..];
      assert multiset(Tids(q)) + multiset{ts[0]} + multiset(ts[1..]) == multiset(Tids(q)) + multiset(ts);
    }
  }

  lemma EnterKeyed(thr: Threads, q: seq<Item>, it: Item)
    requires it.elem in thr && it == Item(thr[it.elem].vruntime, it.elem, it.elem)
    ensures RunKeyed(thr, q) ==> RunKeyed(thr, Insere(q, it))
  {
    hide Insere;
    InsereItems(q, it);
  }

  lemma {:induction false} EnteredSame(thr: Threads, thr': Threads, q: seq<Item>, ts: seq<Tid>)
    requires QueueKnown(thr.Keys, ts) && QueueKnown(thr'.Keys, ts) && forall t :: t in ts ==> thr'[t].vruntime == thr[t].vruntime
    ensures Entered(thr', q, ts) == Entered(thr, q, ts)
    decreases |ts|
  {
    if ts != [] { EnteredSame(thr, thr', Insere(q, Item(thr[ts[0]].vruntime, ts[0], ts[0])), ts[1..]); }
  }

  // ---------- The clock tick ----------

  /** The first `j` sleepers are those whose time has come. */
  predicate DueAt(s: State, j: nat) {
    && j <= |s.sleep| && (forall i :: 0 <= i < j ==> s.sleep[i].chave <= s.clock)
    && forall i :: j <= i < |s.sleep| ==> s.sleep[i].chave > s.clock
  }

  /** The first `j` sleepers have moved to the run tree, in their order. */
  ghost predicate WokenUp(s: State, w: State, j: nat)
    requires ItemsKnown(s.thr.Keys, s.sleep) && j <= |s.sleep|
  {
    var ts := Tids(s.sleep[..j]);
    && w == s.(thr := w.thr, exe := w.exe, sleep := s.sleep[j..]) && w.thr.Keys == s.thr.Keys
    && (forall t :: t in s.thr ==> w.thr[t] == if t in ts then s.thr[t].(wake := 0) else s.thr[t])
    && QueueKnown(s.thr.Keys, ts) && w.exe == Entered(s.thr, s.exe, ts)
  }

  lemma SleepersKnown(s: State, j: nat)
    requires ItemsKnown(s.thr.Keys, s.sleep) && j <= |s.sleep|
    ensures QueueKnown(s.thr.Keys, Tids(s.sleep[..j]))
  {
    var ts := Tids(s.sleep[..j]);
    forall x | x in ts ensures x in s.thr.Keys {
      var i :| 0 <= i < |ts| && ts[i] == x;
      assert s.sleep[..j][i] == s.sleep[i];
    }
  }

  lemma {:induction false} WakeEffect(s: State) returns (j: nat)
    requires KnownThreads(s) && ItemsKnown(s.thr.Keys, s.sleep) && Sorted(s.sleep)
    ensures DueAt(s, j) && WokenUp(s, WakeAll(s), j)
    decreases |s.sleep|
  {
    hide Insere, WokenUp;
    if s.sleep == [] || s.sleep[0].chave > s.clock {
      j := 0;
      NobodyWakes(s);
    } else {
      var t := s.sleep[0].elem;
      var s1 := Put(s.(thr := s.thr[t := s.thr[t].(wake := 0)], sleep := s.sleep[1..]), t);
      assert s1.thr.Keys == s.thr.Keys;
      InsereKnown(s.thr.Keys, s.exe, ItemOf(s, t));
      var i := WakeEffect(s1);
      j := i + 1;
      OneWakes(s, s1, WakeAll(s), i);
    }
  }

  lemma NobodyWakes(s: State)
    requires KnownThreads(s) && ItemsKnown(s.thr.Keys, s.sleep)
    ensures WokenUp(s, s, 0)
  {
    assert s.sleep[..0] == [] && s.sleep[0..] == s.sleep;
  }

  lemma OneWakes(s: State, s1: State, w: State, i: nat)
    requires ItemsKnown(s.thr.Keys, s.sleep) && s.sleep != [] && i < |s.sleep|
    requires var t := s.sleep[0].elem; s1 == Put(s.(thr := s.thr[t := s.thr[t].(wake := 0)], sleep := s.sleep[1..]), t)
    requires ItemsKnown(s1.thr.Keys, s1.sleep) && WokenUp(s1, w, i)
    ensures WokenUp(s, w, i + 1)
  {
    hide Insere;
    var t, ts := s.sleep[0].elem, Tids(s.sleep[..i + 1]);
    SleepersKnown(s, i + 1);
    assert s.sleep[1..][i..] == s.sleep[i + 1..];
    OneWakesFirst(s.sleep, i);
    hide Tids;
    assert QueueKnown(s1.thr.Keys, ts[1..]);
    EnteredSame(s.thr, s1.thr, s1.exe, ts[1..]);
    forall x | x in s.thr ensures w.thr[x] == if x in ts then s.thr[x].(wake := 0) else s.thr[x] {
      assert x in ts <==> x == t || x in ts[1..];
    }
  }

  lemma OneWakesFirst(q: seq<Item>, i: nat)
    requires i < |q|
    ensures var ts := Tids(q[..i + 1]); ts != [] && ts == [q[0].elem] + ts[1..] && ts[1..] == Tids(q[1..][..i])
  {
    assert q[..i + 1] == [q[0]] + q[1..][..i];
  }

  /** What a tick finds when it decides: the running thread has one tick more, and the sleepers that were due are in
      the run tree. */
  ghost predicate AtDecision(s: State, w: State, j: nat)
    requires s.active in s.thr && ItemsKnown(s.thr.Keys, s.sleep) && j <= |s.sleep|
  {
    var me, ts := Me(s), Tids(s.sleep[..j]);
    && w == s.(thr := w.thr, exe := w.exe, sleep := s.sleep[j..]) && w.thr.Keys == s.thr.Keys
    && w.thr[s.active] == me.(times := me.times + 1, exectime := me.exectime + 1)
    && (forall t :: t in s.thr && t != s.active ==> w.thr[t] == if t in ts then s.thr[t].(wake := 0) else s.thr[t])
    && QueueKnown(s.thr.Keys, ts) && w.exe == Entered(s.thr, s.exe, ts)
  }

  /** The running thread is in the run tree, and goes on in the tail of the dispatcher. */
  function Displaced(w: State): State
    requires w.active in w.thr
  {
    w.(thr := w.thr[w.active := Me(w).(resume := Tail)], exe := Insere(w.exe, Item(Me(w).vruntime, w.active, w.active)))
  }

  /** How the tick is decided for a thread that was `me` before it. */
  ghost predicate Decided(me: Thread, w: State, s: State, k: nat)
    requires w.active in w.thr
  {
    if w.exe != [] && me.vruntime + (me.nice + me.priority) * (me.times + 1) < w.exe[0].chave then Stays(w, s)
    else Turn(Displaced(w), Tids(Displaced(w).exe), s, k)
  }

  /** The running thread keeps the processor, through the tail of the dispatcher. */
  ghost predicate Stays(w: State, s: State)
    requires w.active in w.thr
  {
    && s.active == w.active && s.exe == w.exe && s.clock == w.clock + 1 && SameRest(w, s)
    && s.active in s.thr && GoesOn(Me(w), Me(s), true) && s.thr == w.thr[w.active := Me(s)]
  }

  /** A tick: what the running thread would be charged, with this tick, is compared with the least virtual runtime in
      the run tree. Below it the thread keeps the processor; otherwise it goes to the run tree under what it was charged
      before, and the first there that can go on runs. */
  lemma TickEffect(s: State) returns (j: nat, w: State, k: nat)
    requires Inv(s)
    ensures KnownThreads(s) && ItemsKnown(s.thr.Keys, s.sleep) && DueAt(s, j) && AtDecision(s, w, j) && w.active in w.thr
    ensures w == TickedWoken(s)
    ensures TickStep(s).Some? && Decided(Me(s), w, TickStep(s).value, k)
  {
    hide Conserved, Exclusive, Fair, RunKeyed, SleepKeyed, Ids, OthersBalanced, Balanced, Sorted, Insere, Turn, WakeAll, Entered, WokenUp, AtDecision, Decided, Switch, RunTail;
    var s1 := SetMe(s, Me(s).(times := Me(s).times + 1, exectime := Me(s).exectime + 1));
    assert s1.thr.Keys == s.thr.Keys;
    j := WakeEffect(s1);
    w := WakeAll(s1);
    TickedIs(s, w, j);
    TickRuntimes(s);
    k := DecidedIs(Me(s), w);
  }

  /** The end of a tick. */
  function TickEnd(w: State): Option<State>
    requires KnownThreads(w)
  {
    assert SetResume(w, Tail).thr.Keys == w.thr.Keys;
    InsereKnown(w.thr.Keys, w.exe, ItemOf(SetResume(w, Tail), w.active));
    if Me(w).vruntime + Me(w).Weight() * Me(w).times >= MinKey(w) then Switch(Put(SetResume(w, Tail), w.active)) else Some(RunTail(w))
  }

  lemma DecidedIs(me: Thread, w: State) returns (k: nat)
    requires KnownThreads(w) && Me(w) == me.(times := me.times + 1, exectime := me.exectime + 1)
    requires Me(w).resume == Call && Me(w).pending == None && me.vruntime + (me.nice + me.priority) * (me.times + 1) >= 0
    ensures TickEnd(w).Some? && Decided(me, w, TickEnd(w).value, k)
  {
    hide Turn, Insere, GoesFirst, Stays, RunTail, Switch, Tids;
    k := 0;
    if w.exe != [] && me.vruntime + (me.nice + me.priority) * (me.times + 1) < w.exe[0].chave {
      StaysOn(w);
    } else {
      assert SetResume(w, Tail).thr.Keys == w.thr.Keys;
      InsereKnown(w.thr.Keys, w.exe, ItemOf(SetResume(w, Tail), w.active));
      assert Put(SetResume(w, Tail), w.active) == Displaced(w);
      DisplacedGoes(w);
      k := SwitchTurn(Displaced(w));
    }
  }

  lemma TickRuntimes(s: State)
    requires Inv(s)
    ensures var me := Me(s); me.vruntime + (me.nice + me.priority) * (me.times + 1) >= 0
  {
    var me := Me(s);
    hide Core;
    WeightBounds(me.nice + me.priority, me.times + 1);
  }

  /** The tail of the dispatcher without a switch. */
  lemma StaysOn(w: State)
    requires w.active in w.thr && Me(w).resume == Call && Me(w).pending == None
    ensures Stays(w, RunTail(w))
  {
  }

  lemma DisplacedGoes(w: State)
    requires KnownThreads(w) && KnownThreads(Displaced(w))
    ensures exists j: nat :: GoesFirst(Displaced(w).thr, Tids(Displaced(w).exe), j)
  {
    hide GoesFirst;
    var d := Displaced(w);
    var i := Pos(w.exe, Me(w).vruntime);
    assert d.exe[i].elem == w.active;
    forall x | 0 <= x < |d.exe| ensures Tids(d.exe)[x] in d.thr { assert d.exe[x].elem in d.thr.Keys; }
    var j := SomebodyGoes(d.thr, Tids(d.exe), i);
  }

  lemma TickedIs(s: State, w: State, j: nat)
    requires Inv(s) && ItemsKnown(s.thr.Keys, s.sleep) && j <= |s.sleep|
    requires var s1 := SetMe(s, Me(s).(times := Me(s).times + 1, exectime := Me(s).exectime + 1));
      s1.thr.Keys == s.thr.Keys && WokenUp(s1, w, j)
    ensures s.active in s.thr && AtDecision(s, w, j) && KnownThreads(w) && Me(w).resume == Call && Me(w).pending == None
    ensures Me(w) == Me(s).(times := Me(s).times + 1, exectime := Me(s).exectime + 1)
  {
    hide Conserved, Exclusive, Fair, RunKeyed, SleepKeyed, Ids, OthersBalanced, Balanced, Sorted, Insere;
    var s1 := SetMe(s, Me(s).(times := Me(s).times + 1, exectime := Me(s).exectime + 1));
    var ts := Tids(s.sleep[..j]);
    EnteredSame(s.thr, s1.thr, s.exe, ts);
    ActiveAwake(s, j);
    EnteredKnown(s.thr, s.exe, ts);
  }

  lemma ActiveAwake(s: State, j: nat)
    requires Inv(s) && j <= |s.sleep|
    ensures s.active !in Tids(s.sleep[..j])
  {
    hide Conserved, Exclusive, Fair, RunKeyed, SleepKeyed, Ids, OthersBalanced, Balanced, Sorted;
    OnlyActive(s);
  }

  lemma {:induction false} EnteredKnown(thr: Threads, q: seq<Item>, ts: seq<Tid>)
    requires ItemsKnown(thr.Keys, q) && QueueKnown(thr.Keys, ts)
    ensures ItemsKnown(thr.Keys, Entered(thr, q, ts))
    decreases |ts|
  {
    hide Insere;
    if ts != [] {
      InsereKnown(thr.Keys, q, Item(thr[ts[0]].vruntime, ts[0], ts[0]));
      EnteredKnown(thr, Insere(q, Item(thr[ts[0]].vruntime, ts[0], ts[0])), ts[1..]);
    }
  }

  /** The clock advances in a tick exactly if the thread that runs afterwards went through the tail of the dispatcher:
      it kept the processor, or was switched out there. */
  lemma TickClock(s: State)
    requires Inv(s)
    ensures KnownThreads(s) && ItemsKnown(s.thr.Keys, s.sleep) && TickStep(s).Some?
    ensures var s' := TickStep(s).value;
      s'.active in s.thr && s'.clock == s.clock + (if s'.active == s.active || s.thr[s'.active].resume == Tail then 1 else 0)
  {
    hide Inv, Entered, DueAt, GoesOn, TickStep, Insere;
    var j, w, k := TickEffect(s);
  }

  // ---------- Calls ----------

  /** The running thread is no candidate any more in state `p`: the first of `q` that can go on runs, and the process
      ends exactly if none can. */
  ghost predicate Leaves(p: State, q: seq<Tid>, r: Option<State>, k: nat) {
    && (r.Some? ==> Turn(p, q, r.value, k))
    && (r == None <==> forall j: nat :: !GoesFirst(p.thr, q, j))
  }

  lemma SwitchLeaves(p: State) returns (k: nat)
    requires KnownThreads(p)
    ensures Leaves(p, Tids(p.exe), Switch(p), k)
  {
    hide GoesFirst, Switch, GoesOn, Tids;
    k := SwitchTurn(p);
  }

  lemma ResumedLeaves(p: State) returns (k: nat)
    requires KnownThreads(p)
    ensures Leaves(p, [p.active] + Tids(p.exe), Resumed(p), k)
  {
    hide GoesFirst, Resumed, GoesOn, Tids;
    k := ResumedTurn(p);
  }

  /** A new thread has no smaller virtual runtime than the first of the run tree and no larger one, a priority between 1
      and 10 as near as possible to the one asked for, and nothing else; the creator goes on. */
  lemma CreateEffect(s: State, priority: int)
    requires Inv(s)
    ensures KnownThreads(s)
    ensures var t, s' := s.tidGen, CreateStep(s, priority);
      && t !in s.thr && t in s'.thr && s'.tidGen == t + 1
      && s' == s.(thr := s.thr[t := s'.thr[t]], tidGen := t + 1, exe := Insere(s.exe, Item(s'.thr[t].vruntime, t, t)))
      && var th := s'.thr[t];
        && th.vruntime == (if s.exe == [] then 0 else s.exe[0].chave) && th.base == th.vruntime && th.resume == Start
        && 1 <= th.priority <= 10 && (1 <= priority <= 10 ==> th.priority == priority)
        && (priority < 1 ==> th.priority == 1) && (priority > 10 ==> th.priority == 10)
        && th.exectime == th.times == th.wake == th.joinTid == th.nice == 0 && th.pending == None && th.inside == {} && th.fixedWeight
  {
    hide Conserved, Exclusive, Fair, RunKeyed, SleepKeyed, OthersBalanced, Balanced, Sorted, Insere;
    assert s.tidGen !in s.thr.Keys;
  }

  /** The nice value is the one between 1 and 10 nearest to the one asked for. */
  lemma NiceEffect(s: State, n: int)
    requires KnownThreads(s)
    ensures var s' := NiceStep(s, n);
      && s'.active == s.active && s.active in s'.thr && s' == s.(thr := s.thr[s.active := Me(s')])
      && Me(s') == Me(s).(nice := Me(s').nice, fixedWeight := false)
      && 1 <= Me(s').nice <= 10 && (1 <= n <= 10 ==> Me(s').nice == n) && (n < 1 ==> Me(s').nice == 1) && (n > 10 ==> Me(s').nice == 10)
  {
  }

  /** A yield: the thread goes to the run tree under its virtual runtime, and the first there that can go on runs. */
  lemma YieldEffect(s: State) returns (k: nat)
    requires Inv(s)
    ensures KnownThreads(s)
    ensures var p := s.(exe := Insere(s.exe, Item(Me(s).vruntime, s.active, s.active)));
      YieldStep(s).Some? && Turn(p, Tids(p.exe), YieldStep(s).value, k)
  {
    hide Conserved, Exclusive, Fair, RunKeyed, SleepKeyed, Ids, OthersBalanced, Balanced, Sorted, Insere, GoesFirst, Turn, Switch;
    var p := s.(exe := Insere(s.exe, Item(Me(s).vruntime, s.active, s.active)));
    assert SetResume(s, Call).thr == s.thr;
    InsereKnown(s.thr.Keys, s.exe, ItemOf(s, s.active));
    k := SwitchTurn(p);
    YielderGoes(s);
  }

  lemma YielderGoes(s: State)
    requires KnownThreads(s) && Me(s).resume != Window
    ensures var p := s.(exe := Insere(s.exe, Item(Me(s).vruntime, s.active, s.active)));
      exists j: nat :: GoesFirst(p.thr, Tids(p.exe), j)
  {
    hide GoesFirst;
    var p := s.(exe := Insere(s.exe, Item(Me(s).vruntime, s.active, s.active)));
    var i := Pos(s.exe, Me(s).vruntime);
    assert p.exe[i].elem == s.active;
    forall x | 0 <= x < |p.exe| ensures Tids(p.exe)[x] in p.thr { assert p.exe[x].elem in p.thr.Keys; }
    var j := SomebodyGoes(p.thr, Tids(p.exe), i);
  }

  /** The joiners of two queues in a row are the joiners of the one and then of the other; so each list keeps its order. */
  lemma {:induction false} JoinersConcat(s: State, a: seq<Tid>, b: seq<Tid>, t: Tid)
    requires QueueKnown(s.thr.Keys, a) && QueueKnown(s.thr.Keys, b)
    ensures QueueKnown(s.thr.Keys, a + b)
    ensures Joiners(s, a + b, t) == Joiners(s, a, t) + Joiners(s, b, t) && NonJoiners(s, a + b, t) == NonJoiners(s, a, t) + NonJoiners(s, b, t)
  {
    hide Joiners, NonJoiners;
    if a == [] {
      assert a + b == b && Joiners(s, a, t) == [] && NonJoiners(s, a, t) == [] by { NoJoiners(s, a, t); }
    } else {
      JoinersConcat(s, a[1..], b, t);
      assert (a + b)[1..] == a[1..] + b && (a + b)[0] == a[0];
      JoinersFirst(s, a + b, t);
      JoinersFirst(s, a, t);
      Prepend(if s.thr[a[0]].joinTid == t then [a[0]] else [], Joiners(s, a[1..], t), Joiners(s, b, t));
      Prepend(if s.thr[a[0]].joinTid == t then [] else [a[0]], NonJoiners(s, a[1..], t), NonJoiners(s, b, t));
    }
  }

  lemma NoJoiners(s: State, q: seq<Tid>, t: Tid)
    requires q == []
    ensures Joiners(s, q, t) == [] && NonJoiners(s, q, t) == []
  {
  }

  lemma JoinersFirst(s: State, q: seq<Tid>, t: Tid)
    requires QueueKnown(s.thr.Keys, q) && q != []
    ensures Joiners(s, q, t) == (if s.thr[q[0]].joinTid == t then [q[0]] else []) + Joiners(s, q[1..], t)
    ensures NonJoiners(s, q, t) == (if s.thr[q[0]].joinTid == t then [] else [q[0]]) + NonJoiners(s, q[1..], t)
  {
  }

  lemma Prepend(h: seq<Tid>, a: seq<Tid>, b: seq<Tid>)
    ensures h + (a + b) == h + a + b
  {
  }

  lemma {:induction false} WithoutConcat(a: seq<Tid>, b: seq<Tid>, t: Tid)
    ensures Without(a + b, t) == Without(a, t) + Without(b, t) && Matching(a + b, t) == Matching(a, t) + Matching(b, t)
  {
    hide Without, Matching;
    if a == [] {
      assert a + b == b && Without(a, t) == [] && Matching(a, t) == [] by { NoMatch(a, t); }
    } else {
      WithoutConcat(a[1..], b, t);
      assert (a + b)[1..] == a[1..] + b && (a + b)[0] == a[0];
      MatchFirst(a + b, t);
      MatchFirst(a, t);
      Prepend(if a[0] == t then [] else [a[0]], Without(a[1..], t), Without(b, t));
      Prepend(if a[0] == t then [a[0]] else [], Matching(a[1..], t), Matching(b, t));
    }
  }

  lemma NoMatch(q: seq<Tid>, t: Tid)
    requires q == []
    ensures Without(q, t) == [] && Matching(q, t) == []
  {
  }

  lemma MatchFirst(q: seq<Tid>, t: Tid)
    requires q != []
    ensures Without(q, t) == (if q[0] == t then [] else [q[0]]) + Without(q[1..], t)
    ensures Matching(q, t) == (if q[0] == t then [q[0]] else []) + Matching(q[1..], t)
  {
  }

  lemma {:induction false} PutAllEntered(s: State, q: seq<Tid>)
    requires KnownThreads(s) && QueueKnown(s.thr.Keys, q)
    ensures PutAll(s, q).exe == Entered(s.thr, s.exe, q)
    decreases |q|
  {
    hide Insere;
    if q != [] {
      InsereKnown(s.thr.Keys, s.exe, ItemOf(s, q[0]));
      PutAllEntered(Put(s, q[0]), q[1..]);
    }
  }

  /** A thread that ends: its joiners move to the run tree in their order, and it becomes a zombie exactly if there were
      none; then the first in the run tree that can go on runs. */
  lemma ExitEffect(s: State) returns (woken: seq<Tid>, rest: seq<Tid>, k: nat)
    requires Inv(s)
    ensures KnownThreads(s) && QueueKnown(s.thr.Keys, s.join) && QueueKnown(s.thr.Keys, woken) && multiset(woken) + multiset(rest) == multiset(s.join)
    ensures woken == Joiners(s, s.join, s.active) && rest == NonJoiners(s, s.join, s.active)
    ensures (forall x :: x in woken ==> s.thr[x].joinTid == s.active) && (forall x :: x in rest ==> x in s.thr && s.thr[x].joinTid != s.active)
    ensures var p := s.(join := rest, exe := Entered(s.thr, s.exe, woken),
                        zombie := if woken == [] then s.zombie + [s.active] else s.zombie, dead := if woken == [] then s.dead else s.dead + [s.active]);
      Leaves(p, Tids(p.exe), ExitStep(s), k)
  {
    hide Conserved, Exclusive, Fair, RunKeyed, SleepKeyed, Ids, OthersBalanced, Balanced, Sorted, PutAll, Leaves, Switch, Entered;
    woken, rest := Joiners(s, s.join, s.active), NonJoiners(s, s.join, s.active);
    JoinersKnown(s, s.join, s.active);
    PutAllEntered(s.(join := rest), woken);
    EnteredKnown(s.thr, s.exe, woken);
    k := SwitchLeaves(s.(join := rest, exe := Entered(s.thr, s.exe, woken),
                         zombie := if woken == [] then s.zombie + [s.active] else s.zombie, dead := if woken == [] then s.dead else s.dead + [s.active]));
  }

  /** A join takes a zombie to the dead at once; anybody else it waits for, at the end of the list of joiners. */
  lemma JoinEffect(s: State, t: Tid) returns (k: nat)
    requires Inv(s)
    ensures KnownThreads(s)
    ensures t in s.zombie ==> JoinStep(s, t).Some?
    ensures t in s.zombie ==>
      var s' := JoinStep(s, t).value;
      && s' == s.(zombie := s'.zombie, dead := s'.dead) && t !in s'.zombie && (forall x :: x != t ==> (x in s'.zombie <==> x in s.zombie))
      && |s'.dead| > |s.dead| && s'.dead[..|s.dead|] == s.dead && (forall i :: |s.dead| <= i < |s'.dead| ==> s'.dead[i] == t)
    ensures t !in s.zombie ==>
      var p := s.(thr := s.thr[s.active := Me(s).(joinTid := t)], join := s.join + [s.active]);
      Leaves(p, Tids(p.exe), JoinStep(s, t), k)
  {
    hide Conserved, Exclusive, Fair, RunKeyed, SleepKeyed, Ids, OthersBalanced, Balanced, Sorted, Leaves, Switch;
    k := 0;
    if t in s.zombie {
      MatchingWithout(s.zombie, t);
      ReapedZombie(s.zombie, t);
    } else {
      var p := s.(thr := s.thr[s.active := Me(s).(joinTid := t)], join := s.join + [s.active]);
      assert p.thr.Keys == s.thr.Keys;
      k := SwitchLeaves(p);
    }
  }

  lemma {:induction false} ReapedZombie(q: seq<Tid>, t: Tid)
    ensures (forall x :: x != t ==> (x in Without(q, t) <==> x in q)) && (t in q ==> Matching(q, t) != [])
    ensures forall i :: 0 <= i < |Matching(q, t)| ==> Matching(q, t)[i] == t
  {
    if q != [] {
      ReapedZombie(q[1..], t);
      assert q == [q[0]] + q[1..];
    }
  }

  /** Whole ticks of 10000, towards zero. */
  lemma TicksTowardsZero(time: int)
    ensures time >= 0 ==> 10000 * Ticks(time) <= time < 10000 * Ticks(time) + 10000
    ensures time <= 0 ==> 10000 * Ticks(time) - 10000 < time <= 10000 * Ticks(time)
    ensures Ticks(time) == 0 <==> -10000 < time < 10000
  {
  }

  /** A sleep of less than a tick does nothing; any other puts the thread in the sleep tree under the clock plus the time
      in ticks. */
  lemma SleepEffect(s: State, time: int) returns (k: nat)
    requires Inv(s) && s.clock + Ticks(time) >= 0
    ensures KnownThreads(s) && (Ticks(time) == 0 ==> SleepStep(s, time) == Some(s))
    ensures Ticks(time) != 0 ==>
      var w: nat := s.clock + Ticks(time);
      var p := s.(thr := s.thr[s.active := Me(s).(wake := w)], sleep := Insere(s.sleep, Item(w, s.active, s.active)));
      Leaves(p, Tids(p.exe), SleepStep(s, time), k)
  {
    hide Conserved, Exclusive, Fair, RunKeyed, SleepKeyed, Ids, OthersBalanced, Balanced, Sorted, Leaves, Switch, Insere;
    k := 0;
    if Ticks(time) != 0 {
      var w: nat := s.clock + Ticks(time);
      var p := s.(thr := s.thr[s.active := Me(s).(wake := w)], sleep := Insere(s.sleep, Item(w, s.active, s.active)));
      assert p.thr.Keys == s.thr.Keys;
      k := SwitchLeaves(p);
    }
  }

  // ---------- Mutexes ----------

  lemma NewMutexEffect(s: State)
    requires Known(s)
    ensures var s' := Step(s, Op.MutexInit).value;
      && s' == s.(mutexes := s'.mutexes) && |s'.mutexes| == |s.mutexes| + 1 && s'.mutexes[..|s.mutexes|] == s.mutexes
      && s'.mutexes[|s.mutexes|].owner == None && s'.mutexes[|s.mutexes|].fila == []
    ensures var s' := Step(s, Op.MonitorInit).value;
      && s' == s.(mutexes := s'.mutexes, monitors := s'.monitors)
      && |s'.mutexes| == |s.mutexes| + 1 && s'.mutexes[..|s.mutexes|] == s.mutexes
      && |s'.monitors| == |s.monitors| + 1 && s'.monitors[..|s.monitors|] == s.monitors
      && s'.mutexes[|s.mutexes|].owner == None && s'.mutexes[|s.mutexes|].fila == []
      && s'.monitors[|s.monitors|].mutex == |s.mutexes| && s'.monitors[|s.monitors|].fila == []
  {
  }

  /** A free mutex is taken at once; for any other the thread goes to the end of its queue. */
  lemma LockEffect(s: State, m: nat) returns (k: nat)
    requires Inv(s) && m < |s.mutexes|
    ensures KnownThreads(s)
    ensures s.mutexes[m].owner == None ==>
      LockStep(s, m) ==
      Some(s.(thr := s.thr[s.active := Me(s).(inside := Me(s).inside + {m})],
              mutexes := s.mutexes[m := s.mutexes[m].(owner := Some(s.active), arrivals := s.mutexes[m].arrivals + [s.active],
                                                      grants := s.mutexes[m].grants + [s.active])]))
    ensures s.mutexes[m].owner.Some? ==>
      var p := s.(thr := s.thr[s.active := Me(s).(pending := Some(m))],
                  mutexes := s.mutexes[m := s.mutexes[m].(fila := s.mutexes[m].fila + [s.active], arrivals := s.mutexes[m].arrivals + [s.active])]);
      Leaves(p, Tids(p.exe), LockStep(s, m), k)
  {
    hide Conserved, Exclusive, Fair, RunKeyed, SleepKeyed, Ids, OthersBalanced, Balanced, Sorted, Leaves, Switch;
    k := 0;
    if s.mutexes[m].owner.Some? {
      var p := s.(thr := s.thr[s.active := Me(s).(pending := Some(m))],
                  mutexes := s.mutexes[m := s.mutexes[m].(fila := s.mutexes[m].fila + [s.active], arrivals := s.mutexes[m].arrivals + [s.active])]);
      assert p.thr.Keys == s.thr.Keys;
      k := SwitchLeaves(p);
    }
  }

  /** The mutex after its owner gives it up: the first of its queue owns it. */
  function Passed(mx: Mutex): Mutex {
    if mx.fila == [] then mx.(owner := None)
    else mx.(owner := Some(mx.fila[0]), fila := mx.fila[1..], grants := mx.grants + [mx.fila[0]])
  }

  /** The virtual runtime with the uncharged ticks. */
  function Charge(th: Thread): int {
    th.vruntime + (th.nice + th.priority) * th.times
  }

  /** The release in state `s` of mutex `m` by the running thread, whose record is `th` otherwise: without an heir
      nobody moves; an heir of at least the charged runtime goes to the run tree; for an heir below it the thread is
      charged and goes to the run tree, and the heir is to run. */
  ghost predicate Handed(s: State, m: nat, th: Thread, r: Resume, p: State, q: seq<Tid>)
    requires m < |s.mutexes|
  {
    var mx, t := s.mutexes[m], s.active;
    var th' := th.(inside := th.inside - {m});
    var ms := s.mutexes[m := Passed(mx)];
    if mx.fila == [] then p == s.(thr := s.thr[t := th'], mutexes := ms) && q == Tids(p.exe)
    else
      var h := mx.fila[0];
      && h in s.thr
      && if Charge(th) <= s.thr[h].vruntime then
           p == s.(thr := s.thr[t := th'], mutexes := ms, exe := Insere(s.exe, Item(s.thr[h].vruntime, h, h))) && q == Tids(p.exe)
         else
           && p == s.(thr := s.thr[t := th'.(vruntime := Charge(th), times := 0, resume := r)], mutexes := ms, active := h,
                      exe := Insere(s.exe, Item(Charge(th), t, t)))
           && q == [h] + Tids(p.exe)
  }

  /** Whether the heir of mutex `m` takes the processor from thread `th`. */
  predicate Yields(s: State, m: nat, th: Thread)
    requires m < |s.mutexes|
  {
    s.mutexes[m].fila != [] && s.mutexes[m].fila[0] in s.thr && Charge(th) > s.thr[s.mutexes[m].fila[0]].vruntime
  }

  /** A release: by anybody else it does nothing; by the owner the mutex is handed on, and the processor too if the
      owner has run further than the heir. */
  lemma UnlockEffect(s: State, m: nat) returns (p: State, q: seq<Tid>, k: nat)
    requires Inv(s) && m < |s.mutexes|
    ensures KnownThreads(s) && KnownMutex(s, m)
    ensures s.mutexes[m].owner != Some(s.active) ==> UnlockStep(s, m) == Some(s)
    ensures s.mutexes[m].owner == Some(s.active) ==>
      && Handed(s, m, Me(s), Call, p, q)
      && if Yields(s, m, Me(s)) then Leaves(p, q, UnlockStep(s, m), k) else UnlockStep(s, m) == Some(p)
  {
    hide Conserved, Exclusive, Fair, RunKeyed, SleepKeyed, Ids, OthersBalanced, Balanced, Sorted, Leaves, Resumed, Insere, Releasing, NotIn;
    assert QueueKnown(s.thr.Keys, s.mutexes[m].fila);
    p, q, k := s, [], 0;
    if s.mutexes[m].owner == Some(s.active) {
      UnlockReleasing(s, m);
      p, q := HandedIs(s, m, Me(s), Call);
      if Yields(s, m, Me(s)) {
        assert p == Preempted(s, m, Call);
        k := ResumedLeaves(p);
      } else {
        assert p == Released(s, m);
      }
    }
  }

  lemma HandedIs(s: State, m: nat, th: Thread, r: Resume) returns (p: State, q: seq<Tid>)
    requires KnownThreads(s) && KnownMutex(s, m)
    ensures Handed(s, m, th, r, p, q) && KnownThreads(p)
    ensures Yields(s, m, th) ==> q == [p.active] + Tids(p.exe)
    ensures !Yields(s, m, th) ==> q == Tids(p.exe) && p.active == s.active
  {
    hide Insere;
    var mx, t := s.mutexes[m], s.active;
    var th' := th.(inside := th.inside - {m});
    var ms := s.mutexes[m := Passed(mx)];
    assert s.thr[t := th'].Keys == s.thr.Keys;
    if mx.fila == [] {
      p := s.(thr := s.thr[t := th'], mutexes := ms);
    } else {
      var h := mx.fila[0];
      assert h in mx.fila;
      if Charge(th) <= s.thr[h].vruntime {
        InsereKnown(s.thr.Keys, s.exe, Item(s.thr[h].vruntime, h, h));
        p := s.(thr := s.thr[t := th'], mutexes := ms, exe := Insere(s.exe, Item(s.thr[h].vruntime, h, h)));
      } else {
        assert s.thr[t := th'.(vruntime := Charge(th), times := 0, resume := r)].Keys == s.thr.Keys;
        InsereKnown(s.thr.Keys, s.exe, Item(Charge(th), t, t));
        p := s.(thr := s.thr[t := th'.(vruntime := Charge(th), times := 0, resume := r)], mutexes := ms, active := h,
                exe := Insere(s.exe, Item(Charge(th), t, t)));
      }
    }
    q := if Yields(s, m, th) then [p.active] + Tids(p.exe) else Tids(p.exe);
  }

  // ---------- Monitors ----------

  /** A wait by anybody but the owner of the mutex does nothing. The owner goes to the end of the monitor's queue and
      hands the mutex on; if the processor goes with it, the second half of the wait is still to come; otherwise the
      thread leaves the processor. */
  lemma WaitEffect(s: State, mon: nat) returns (p: State, q: seq<Tid>, k: nat)
    requires Inv(s) && mon < |s.monitors|
    ensures KnownThreads(s) && KnownMutex(s, s.monitors[mon].mutex)
    ensures var m := s.monitors[mon].mutex;
      && (s.mutexes[m].owner != Some(s.active) ==> WaitStep(s, mon) == Some(s))
      && (s.mutexes[m].owner == Some(s.active) ==>
            && Handed(s.(monitors := s.monitors[mon := Monitor(m, s.monitors[mon].fila + [s.active])]), m, Me(s).(pending := Some(m)), Window, p, q)
            && Leaves(p, q, WaitStep(s, mon), k))
  {
    hide Conserved, Exclusive, Fair, RunKeyed, SleepKeyed, Ids, OthersBalanced, Balanced, Sorted, Leaves, Resumed, Switch, Insere, Releasing, NotIn;
    var m, th := s.monitors[mon].mutex, Me(s).(pending := Some(s.monitors[mon].mutex));
    assert QueueKnown(s.thr.Keys, s.mutexes[m].fila);
    p, q, k := s, [], 0;
    if s.mutexes[m].owner == Some(s.active) {
      UnlockReleasing(s, m);
      var s1 := s.(monitors := s.monitors[mon := Monitor(m, s.monitors[mon].fila + [s.active])]);
      p, q := HandedIs(s1, m, th, Window);
      assert Waiting(s, mon).thr.Keys == s.thr.Keys;
      if Yields(s1, m, th) {
        assert p == Preempted(Waiting(s, mon), m, Window);
        k := ResumedLeaves(p);
      } else {
        assert p == SetResume(Released(Waiting(s, mon), m), Call);
        k := SwitchLeaves(p);
      }
    }
  }

  /** Everything but the monitors and the mutexes. */
  predicate SameButQueues(s: State, s': State) {
    s' == s.(mutexes := s'.mutexes, monitors := s'.monitors) && |s'.mutexes| == |s.mutexes| && |s'.monitors| == |s.monitors|
  }

  /** The first `n` of the monitor's queue have gone to the end of the queue of its mutex, as arrivals there; nothing
      else has changed. */
  ghost predicate Moved(s: State, s': State, mon: nat, n: nat)
    requires mon < |s.monitors| && s.monitors[mon].mutex < |s.mutexes| && n <= |s.monitors[mon].fila|
  {
    var m, q := s.monitors[mon].mutex, s.monitors[mon].fila;
    && SameButQueues(s, s')
    && s'.monitors[mon].fila == q[n..] && s'.monitors[mon].mutex == m
    && s'.mutexes[m].fila == s.mutexes[m].fila + q[..n] && s'.mutexes[m].arrivals == s.mutexes[m].arrivals + q[..n]
    && s'.mutexes[m].owner == s.mutexes[m].owner && s'.mutexes[m].grants == s.mutexes[m].grants
    && (forall k :: 0 <= k < |s.monitors| && k != mon ==> s'.monitors[k] == s.monitors[k])
    && (forall i :: 0 <= i < |s.mutexes| && i != m ==> s'.mutexes[i] == s.mutexes[i])
  }

  /** A signal by the owner moves the first of the monitor's queue, if there is one, to the end of the mutex queue; a
      signal to all moves the whole queue in its order; by anybody else both do nothing. */
  lemma SignalEffect(s: State, mon: nat)
    requires KnownThreads(s) && mon < |s.monitors| && s.monitors[mon].mutex < |s.mutexes|
    ensures var q, mine := s.monitors[mon].fila, s.mutexes[s.monitors[mon].mutex].owner == Some(s.active);
      && Moved(s, SignalStep(s, mon), mon, if mine && q != [] then 1 else 0)
      && Moved(s, SignalAllStep(s, mon), mon, if mine then |q| else 0)
  {
    var q := s.monitors[mon].fila;
    assert q[0..] == q && q[..0] == [] && q[|q|..] == [] && q[..|q|] == q && (q != [] ==> q[..1] == [q[0]]);
    var m := s.mutexes[s.monitors[mon].mutex];
    assert m.fila + [] == m.fila && m.arrivals + [] == m.arrivals;
  }

  /** In the beginning the main thread runs alone, with the least weight, and the clock stands at 1. */
  lemma InitEffect()
    ensures var s := Init();
      && s.thr.Keys == {1} && s.active == 1 && s.tidGen == 2 && s.clock == 1
      && Me(s).vruntime == Me(s).times == Me(s).exectime == 0 && Me(s).priority == 1 && Me(s).nice == 0
      && s.exe == [] && s.sleep == [] && s.join == [] && s.zombie == [] && s.dead == [] && s.mutexes == [] && s.monitors == []
  {
  }
}
