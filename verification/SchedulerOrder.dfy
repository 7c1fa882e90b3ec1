/** Threads of equal virtual runtime run in the order in which they came: over every run, a thread that waits
    in the run tree is not overtaken by one that came later with no less virtual runtime. */
module SchedulerOrder {
  import opened Wrappers
  import opened RedBlackOrder
  import opened SchedulerSpec
  import opened SchedulerInvariant
  import opened SchedulerSteps

  /** Item `x` is in the tree and ahead of all items of thread `y` with no smaller key; and it is ahead of item
      `behind`, if there is one. */
  ghost predicate Ahead(q: seq<Item>, x: Item, y: Tid, behind: Option<Item>) {
    exists i :: AheadAt(q, x, y, behind, i)
  }

  ghost predicate AheadAt(q: seq<Item>, x: Item, y: Tid, behind: Option<Item>, i: nat) {
    && i < |q| && q[i] == x
    && (forall j :: 0 <= j < |q| && q[j].elem == y && q[j].chave >= x.chave ==> i < j)
    && (behind.Some? ==> exists m :: i < m < |q| && q[m] == behind.value)
  }

  lemma PosCuts(q: seq<Item>, k: int)
    requires Sorted(q)
    ensures forall j :: 0 <= j < |q| && q[j].chave <= k ==> j < Pos(q, k)
  {
    var n := Pos(q, k);
    assert n < |q| ==> q[n].chave > k;
  }

  lemma InsereAt(q: seq<Item>, it: Item, r: seq<Item>) returns (n: nat)
    requires Sorted(q) && r == Insere(q, it)
    ensures n <= |q| && |r| == |q| + 1 && r[n] == it
    ensures forall j :: 0 <= j < |q| ==> q[j] == r[if j < n then j else j + 1]
    ensures forall j :: 0 <= j < |r| && j != n ==> r[j] == q[if j < n then j else j - 1]
    ensures forall j :: 0 <= j < |q| && q[j].chave <= it.chave ==> j < n
  {
    hide Sorted, Pos;
    n := Pos(q, it.chave);
    PosCuts(q, it.chave);
    assert r == q[..n] + [it] + q[n..];
    Inserted(q, n, it, r);
  }

  lemma Inserted(q: seq<Item>, n: nat, it: Item, r: seq<Item>)
    requires n <= |q| && r == q[..n] + [it] + q[n..]
    ensures |r| == |q| + 1 && r[n] == it
    ensures forall j :: 0 <= j < |q| ==> q[j] == r[if j < n then j else j + 1]
    ensures forall j :: 0 <= j < |r| && j != n ==> r[j] == q[if j < n then j else j - 1]
  {
  }

  lemma InsereAhead(q: seq<Item>, it: Item, x: Item, y: Tid, behind: Option<Item>)
    requires Sorted(q) && Ahead(q, x, y, behind)
    ensures Sorted(Insere(q, it)) && Ahead(Insere(q, it), x, y, behind)
  {
    hide Sorted, Insere;
    InsereSorted(q, it);
    var i: nat :| AheadAt(q, x, y, behind, i);
    var r := Insere(q, it);
    var n := InsereAt(q, it, r);
    var k := if i < n then i else i + 1;
    assert r[k] == x;
    forall j | 0 <= j < |r| && r[j].elem == y && r[j].chave >= x.chave ensures k < j {
      assert j != n ==> q[if j < n then j else j - 1] == r[j];
    }
    if behind.Some? {
      var m :| i < m < |q| && q[m] == behind.value;
      assert r[if m < n then m else m + 1] == behind.value;
    }
    assert AheadAt(r, x, y, behind, k);
  }

  lemma DropAhead(q: seq<Item>, x: Item, y: Tid, behind: Option<Item>)
    requires Sorted(q) && Ahead(q, x, y, behind) && q[0].elem != x.elem
    ensures Sorted(q[1..]) && Ahead(q[1..], x, y, behind)
  {
    var i: nat :| AheadAt(q, x, y, behind, i);
    var r := q[1..];
    assert forall j :: 0 <= j < |r| ==> r[j] == q[j + 1];
    if behind.Some? {
      var m :| i < m < |q| && q[m] == behind.value;
      assert r[m - 1] == behind.value;
    }
    assert AheadAt(r, x, y, behind, i - 1);
  }

  // ---------- What steps do to the tree ----------

  /** The thread of item `x` waits in the tree, ahead of `y` and of `behind`, and is not in the window of a wait. */
  ghost predicate Waits(s: State, x: Item, y: Tid, behind: Option<Item>) {
    && Sorted(s.exe) && Ahead(s.exe, x, y, behind) && x.elem in s.thr && s.thr[x.elem].resume != Window
  }

  lemma PutWaits(s: State, t: Tid, x: Item, y: Tid, behind: Option<Item>)
    requires t in s.thr && Waits(s, x, y, behind)
    ensures Waits(Put(s, t), x, y, behind)
  {
    hide Insere, Ahead, Sorted;
    InsereAhead(s.exe, ItemOf(s, t), x, y, behind);
  }

  /** A change of other threads' records leaves the tree alone. */
  lemma OtherWaits(s: State, s': State, x: Item, y: Tid, behind: Option<Item>)
    requires Waits(s, x, y, behind) && s'.exe == s.exe && x.elem in s'.thr && s'.thr[x.elem].resume == s.thr[x.elem].resume
    ensures Waits(s', x, y, behind)
  {
  }

  lemma {:induction false} PutAllWaits(s: State, q: seq<Tid>, x: Item, y: Tid, behind: Option<Item>)
    requires KnownThreads(s) && QueueKnown(s.thr.Keys, q) && Waits(s, x, y, behind)
    ensures Waits(PutAll(s, q), x, y, behind)
    decreases |q|
  {
    hide Insere, Waits;
    if q != [] {
      InsereKnown(s.thr.Keys, s.exe, ItemOf(s, q[0]));
      PutWaits(s, q[0], x, y, behind);
      PutAllWaits(Put(s, q[0]), q[1..], x, y, behind);
    }
  }

  lemma {:induction false} WakeAllWaits(s: State, x: Item, y: Tid, behind: Option<Item>)
    requires KnownThreads(s) && ItemsKnown(s.thr.Keys, s.sleep) && Waits(s, x, y, behind)
    ensures Waits(WakeAll(s), x, y, behind)
    decreases |s.sleep|
  {
    hide Insere;
    if s.sleep != [] && s.sleep[0].chave <= s.clock {
      var t := s.sleep[0].elem;
      var s1 := s.(thr := s.thr[t := s.thr[t].(wake := 0)], sleep := s.sleep[1..]);
      OtherWaits(s, s1, x, y, behind);
      assert s1.thr.Keys == s.thr.Keys;
      InsereKnown(s1.thr.Keys, s1.exe, ItemOf(s1, t));
      PutWaits(s1, t, x, y, behind);
      WakeAllWaits(Put(s1, t), x, y, behind);
    }
  }

  /** Whoever goes on, the thread still waits unless it is the one that runs in the end. */
  lemma {:induction false} ResumedWaits(s: State, x: Item, y: Tid, behind: Option<Item>)
    requires KnownThreads(s) && Waits(s, x, y, behind)
    ensures Resumed(s).Some? && Resumed(s).value.active != x.elem ==> Waits(Resumed(s).value, x, y, behind)
    decreases |s.exe|
  {
    hide Ahead, Sorted;
    if Me(s).resume == Window && s.exe != [] {
      var s1 := SetResume(s, Call);
      var s2 := Extract(s1);
      if s.exe[0].elem == x.elem {
        assert Me(s2).resume != Window && Resumed(s2).value.active == x.elem;
      } else {
        DropAhead(s.exe, x, y, behind);
        ResumedWaits(s2, x, y, behind);
      }
    }
  }

  lemma SwitchWaits(s: State, x: Item, y: Tid, behind: Option<Item>)
    requires KnownThreads(s) && Waits(s, x, y, behind)
    ensures Switch(s).Some? && Switch(s).value.active != x.elem ==> Waits(Switch(s).value, x, y, behind)
  {
    hide Ahead, Sorted;
    if s.exe != [] {
      if s.exe[0].elem == x.elem {
        assert Me(Extract(s)).resume != Window && Resumed(Extract(s)).value.active == x.elem;
      } else {
        DropAhead(s.exe, x, y, behind);
        ResumedWaits(Extract(s), x, y, behind);
      }
    }
  }

  // ---------- Steps ----------

  lemma TickWaits(s: State, x: Item, y: Tid, behind: Option<Item>)
    requires KnownThreads(s) && ItemsKnown(s.thr.Keys, s.sleep) && Waits(s, x, y, behind) && s.active != x.elem
    ensures TickStep(s).Some? && TickStep(s).value.active != x.elem ==> Waits(TickStep(s).value, x, y, behind)
  {
    hide Insere, Ahead, Sorted, WakeAll, Switch;
    var s1 := SetMe(s, Me(s).(times := Me(s).times + 1, exectime := Me(s).exectime + 1));
    WakeAllWaits(s1, x, y, behind);
    var s2 := WakeAll(s1);
    var s3 := SetResume(s2, Tail);
    OtherWaits(s2, s3, x, y, behind);
    InsereKnown(s3.thr.Keys, s3.exe, ItemOf(s3, s3.active));
    PutWaits(s3, s3.active, x, y, behind);
    SwitchWaits(Put(s3, s3.active), x, y, behind);
    OtherWaits(s2, RunTail(s2), x, y, behind);
  }

  lemma YieldWaits(s: State, x: Item, y: Tid, behind: Option<Item>)
    requires KnownThreads(s) && Waits(s, x, y, behind) && s.active != x.elem
    ensures YieldStep(s).Some? && YieldStep(s).value.active != x.elem ==> Waits(YieldStep(s).value, x, y, behind)
  {
    hide Insere, Ahead, Sorted, Switch;
    var s1 := SetResume(s, Call);
    InsereKnown(s1.thr.Keys, s1.exe, ItemOf(s1, s.active));
    PutWaits(s1, s.active, x, y, behind);
    SwitchWaits(Put(s1, s.active), x, y, behind);
  }

  lemma CreateWaits(s: State, p: int, x: Item, y: Tid, behind: Option<Item>)
    requires KnownThreads(s) && Waits(s, x, y, behind) && s.tidGen !in s.thr
    ensures Waits(CreateStep(s, p), x, y, behind)
  {
    hide Insere, Ahead, Sorted;
    var t := s.tidGen;
    var s1 := s.(thr := s.thr[t := NewThread(MinKey(s), p)], tidGen := t + 1);
    OtherWaits(s, s1, x, y, behind);
    PutWaits(s1, t, x, y, behind);
  }

  lemma ExitWaits(s: State, x: Item, y: Tid, behind: Option<Item>)
    requires KnownThreads(s) && QueueKnown(s.thr.Keys, s.join) && Waits(s, x, y, behind)
    ensures ExitStep(s).Some? && ExitStep(s).value.active != x.elem ==> Waits(ExitStep(s).value, x, y, behind)
  {
    hide Insere, Ahead, Sorted, Switch, PutAll;
    JoinersKnown(s, s.join, s.active);
    var woken := Joiners(s, s.join, s.active);
    var s0 := s.(join := NonJoiners(s, s.join, s.active));
    PutAllWaits(s0, woken, x, y, behind);
    var s1 := PutAll(s0, woken);
    var s2 := if woken == [] then s1.(zombie := s1.zombie + [s.active]) else s1.(dead := s1.dead + [s.active]);
    OtherWaits(s1, s2, x, y, behind);
    SwitchWaits(s2, x, y, behind);
  }

  lemma BlockWaits(s: State, op: Op, x: Item, y: Tid, behind: Option<Item>)
    requires Known(s) && WellFormed(s, op) && (op.Join? || op.Sleep? || op.Lock?) && Waits(s, x, y, behind) && s.active != x.elem
    ensures Step(s, op).Some? && Step(s, op).value.active != x.elem ==> Waits(Step(s, op).value, x, y, behind)
  {
    hide Insere, Ahead, Sorted, Switch;
    match op
    case Join(target) =>
      if target !in s.zombie {
        var s1 := SetMe(s, Me(s).(joinTid := target, resume := Call));
        SwitchWaits(s1.(join := s1.join + [s.active]), x, y, behind);
      }
    case Sleep(time) =>
      var w: nat := s.clock + Ticks(time);
      if Ticks(time) != 0 {
        var s1 := SetMe(s, Me(s).(wake := w, resume := Call));
        SwitchWaits(s1.(sleep := Insere(s1.sleep, Item(w, s.active, s.active))), x, y, behind);
      }
    case Lock(m) =>
      var mx := s.mutexes[m];
      if mx.owner != None {
        var s1 := s.(mutexes := s.mutexes[m := mx.(fila := mx.fila + [s.active], arrivals := mx.arrivals + [s.active])]);
        SwitchWaits(SetMe(s1, Me(s1).(pending := Some(m), resume := Call)), x, y, behind);
      }
  }

  lemma PreemptedWaits(s: State, m: nat, r: Resume, x: Item, y: Tid, behind: Option<Item>)
    requires KnownThreads(s) && KnownMutex(s, m) && Preempts(s, m) && Waits(s, x, y, behind) && s.active != x.elem
    ensures KnownThreads(Preempted(s, m, r)) && Waits(Preempted(s, m, r), x, y, behind)
  {
    hide Insere, Ahead, Sorted;
    var heir := s.mutexes[m].fila[0];
    var s1 := HandOff(s, m);
    var s2 := SetMe(s1, Me(s1).Charged().(resume := r));
    InsereKnown(s2.thr.Keys, s2.exe, ItemOf(s2, s.active));
    PutWaits(s2, s.active, x, y, behind);
  }

  lemma ReleasedWaits(s: State, m: nat, x: Item, y: Tid, behind: Option<Item>)
    requires KnownThreads(s) && KnownMutex(s, m) && Waits(s, x, y, behind) && s.active != x.elem
    ensures KnownThreads(Released(s, m)) && Waits(Released(s, m), x, y, behind)
  {
    hide Insere, Ahead, Sorted;
    var s1 := HandOff(s, m);
    OtherWaits(s, s1, x, y, behind);
    if s.mutexes[m].fila != [] {
      InsereKnown(s1.thr.Keys, s1.exe, ItemOf(s1, s.mutexes[m].fila[0]));
      PutWaits(s1, s.mutexes[m].fila[0], x, y, behind);
    }
  }

  lemma UnlockWaits(s: State, m: nat, x: Item, y: Tid, behind: Option<Item>)
    requires KnownThreads(s) && KnownMutex(s, m) && Waits(s, x, y, behind) && s.active != x.elem
    ensures UnlockStep(s, m).Some? && UnlockStep(s, m).value.active != x.elem ==> Waits(UnlockStep(s, m).value, x, y, behind)
  {
    hide Insere, Ahead, Sorted, Waits, Resumed, Preempted, Released;
    if s.mutexes[m].owner == Some(s.active) {
      if Preempts(s, m) {
        PreemptedWaits(s, m, Call, x, y, behind);
        ResumedWaits(Preempted(s, m, Call), x, y, behind);
      } else {
        ReleasedWaits(s, m, x, y, behind);
      }
    }
  }

  lemma WaitWaits(s: State, mon: nat, x: Item, y: Tid, behind: Option<Item>)
    requires KnownThreads(s) && mon < |s.monitors| && KnownMutex(s, s.monitors[mon].mutex) && Waits(s, x, y, behind) && s.active != x.elem
    ensures WaitStep(s, mon).Some? && WaitStep(s, mon).value.active != x.elem ==> Waits(WaitStep(s, mon).value, x, y, behind)
  {
    hide Insere, Ahead, Sorted, Resumed, Preempted, Released, Switch;
    var m := s.monitors[mon].mutex;
    if s.mutexes[m].owner == Some(s.active) {
      var s1 := Waiting(s, mon);
      OtherWaits(s, s1, x, y, behind);
      if Preempts(s1, m) {
        PreemptedWaits(s1, m, Window, x, y, behind);
        ResumedWaits(Preempted(s1, m, Window), x, y, behind);
      } else {
        ReleasedWaits(s1, m, x, y, behind);
        ReleasedActive(s1, m);
        var s2 := SetResume(Released(s1, m), Call);
        OtherWaits(Released(s1, m), s2, x, y, behind);
        SwitchWaits(s2, x, y, behind);
      }
    }
  }

  lemma ReleasedActive(s: State, m: nat)
    requires KnownThreads(s) && KnownMutex(s, m)
    ensures Released(s, m).active == s.active
  {
  }

  /** A step leaves a waiting thread waiting, ahead of those it was ahead of, unless it runs in the end. */
  lemma StepWaits(s: State, op: Op, x: Item, y: Tid, behind: Option<Item>)
    requires Inv(s) && WellFormed(s, op) && Waits(s, x, y, behind) && s.active != x.elem
    ensures Step(s, op).Some? && Step(s, op).value.active != x.elem ==> Waits(Step(s, op).value, x, y, behind)
  {
    hide Conserved, Exclusive, Fair, RunKeyed, SleepKeyed, OthersBalanced, Balanced, Insere, Ahead, Sorted,
         TickStep, YieldStep, ExitStep, JoinStep, SleepStep, LockStep, UnlockStep, WaitStep, CreateStep;
    match op
    case Create(p) => CreateWaits(s, p, x, y, behind);
    case Tick => TickWaits(s, x, y, behind);
    case Yield => YieldWaits(s, x, y, behind);
    case Exit => ExitWaits(s, x, y, behind);
    case Join(t) => BlockWaits(s, op, x, y, behind);
    case Sleep(t) => BlockWaits(s, op, x, y, behind);
    case Lock(m) => BlockWaits(s, op, x, y, behind);
    case Unlock(m) => UnlockWaits(s, m, x, y, behind);
    case Wait(k) => assert KnownMutex(s, s.monitors[k].mutex); WaitWaits(s, k, x, y, behind);
    case Nice(n) => OtherWaits(s, Step(s, op).value, x, y, behind);
    case MutexInit => OtherWaits(s, Step(s, op).value, x, y, behind);
    case MonitorInit => OtherWaits(s, Step(s, op).value, x, y, behind);
    case Signal(k) => OtherWaits(s, Step(s, op).value, x, y, behind);
    case SignalAll(k) => OtherWaits(s, Step(s, op).value, x, y, behind);
  }

  // ---------- Runs ----------

  /** Thread `x` does not run in any state of the run. */
  ghost predicate NotRun(s: State, ops: seq<Op>, x: Tid)
    decreases |ops|
  {
    s.active != x && (ops != [] && Known(s) && WellFormed(s, ops[0]) && Step(s, ops[0]).Some? ==> NotRun(Step(s, ops[0]).value, ops[1..], x))
  }

  lemma {:induction false} RunWaits(s: State, ops: seq<Op>, s': State, x: Item, y: Tid, behind: Option<Item>)
    requires Inv(s) && Reaches(s, ops, s') && NotRun(s, ops, x.elem) && Waits(s, x, y, behind)
    ensures Inv(s') && Waits(s', x, y, behind)
    decreases |ops|
  {
    hide Inv, Waits, Step, WellFormed, Known;
    if ops != [] {
      StepInv(s, ops[0]);
      StepWaits(s, ops[0], x, y, behind);
      RunWaits(Step(s, ops[0]).value, ops[1..], s', x, y, behind);
    }
  }

  /** A thread in the run tree. */
  predicate Runnable(s: State, t: Tid) {
    t in s.thr && ItemOf(s, t) in s.exe
  }

  /** First come, first served: thread `x` waits in the run tree when `y` is not there. If `y` comes to the tree later
      with no less virtual runtime, it is still there as long as `x` has not run: it does not run before `x`. */
  lemma FirstComeFirst(s: State, ops1: seq<Op>, s1: State, ops2: seq<Op>, s2: State, x: Tid, y: Tid)
    requires Inv(s) && Reaches(s, ops1, s1) && NotRun(s, ops1, x) && Reaches(s1, ops2, s2) && NotRun(s1, ops2, x)
    requires Runnable(s, x) && s.thr[x].resume != Window && x != y && (forall i :: 0 <= i < |s.exe| ==> s.exe[i].elem != y)
    requires Runnable(s1, y) && s1.thr[y].vruntime >= s.thr[x].vruntime
    ensures ItemOf(s, x) in s2.exe && ItemOf(s1, y) in s2.exe
    ensures exists i, j :: 0 <= i < j < |s2.exe| && s2.exe[i] == ItemOf(s, x) && s2.exe[j] == ItemOf(s1, y)
  {
    hide Reaches, NotRun, Conserved, Exclusive, Fair, SleepKeyed, Ids, OthersBalanced, Balanced;
    var a, b := ItemOf(s, x), ItemOf(s1, y);
    var i: nat :| i < |s.exe| && s.exe[i] == a;
    assert AheadAt(s.exe, a, y, None, i);
    RunWaits(s, ops1, s1, a, y, None);
    var k: nat :| AheadAt(s1.exe, a, y, None, k);
    var n: nat :| n < |s1.exe| && s1.exe[n] == b;
    assert AheadAt(s1.exe, a, y, Some(b), k);
    RunWaits(s1, ops2, s2, a, y, Some(b));
    var i2: nat :| AheadAt(s2.exe, a, y, Some(b), i2);
    var j2 :| i2 < j2 < |s2.exe| && s2.exe[j2] == b;
  }
}
