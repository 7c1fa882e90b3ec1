/** Bounded waiting: while only clock ticks happen, a runnable thread runs after a number of ticks
    that can be computed beforehand from how far the others lag behind its virtual runtime. */
module SchedulerFairness {
  import opened Wrappers
  import opened RedBlackOrder
  import opened SchedulerSpec
  import opened SchedulerInvariant
  import opened SchedulerSteps

  /** The charged runtime of a thread plus its uncharged ticks. */
  function Progress(th: Thread): int {
    th.vruntime + th.times
  }

  /** How many ticks a thread can still take before its progress reaches `c`. */
  function Lag(thr: Threads, i: Tid, t: Tid, c: int): nat
    requires i in thr
  {
    if i == t || Progress(thr[i]) >= c then 0 else c - Progress(thr[i])
  }

  function TreeLag(thr: Threads, q: seq<Item>, t: Tid, c: int): nat
    requires ItemsKnown(thr.Keys, q)
  {
    if q == [] then 0 else Lag(thr, q[0].elem, t, c) + TreeLag(thr, q[1..], t, c)
  }

  /** The progress beyond which a thread cannot be chosen before `t`. */
  function Ceiling(s: State, t: Tid): int
    requires t in s.thr
  {
    s.thr[t].vruntime + MIN_DELAY + 2
  }

  /** The number of ticks that can pass before `t` runs. */
  function Bound(s: State, t: Tid): nat
    requires KnownThreads(s) && t in s.thr
  {
    var c := Ceiling(s, t);
    TreeLag(s.thr, s.exe, t, c) + Lag(s.thr, s.active, t, c) + (if Progress(Me(s)) >= c then 1 else 0)
  }

  predicate InTree(q: seq<Item>, t: Tid) {
    exists i :: 0 <= i < |q| && q[i].elem == t
  }

  /** `t` is in the run tree and will go on running when it is chosen. */
  predicate Ready(s: State, t: Tid) {
    t in s.thr && s.thr[t].resume != Window && InTree(s.exe, t)
  }

  predicate NotDue(s: State, ticks: nat) {
    s.sleep == [] || s.sleep[0].chave > s.clock + ticks
  }

  /** A run in which nothing happens but `n` clock ticks. */
  function TickRun(n: nat): seq<Op> {
    seq(n, _ => Tick)
  }

  // ---------- Sums ----------

  lemma {:induction false} TreeLagConcat(thr: Threads, p: seq<Item>, q: seq<Item>, t: Tid, c: int)
    requires ItemsKnown(thr.Keys, p) && ItemsKnown(thr.Keys, q)
    ensures ItemsKnown(thr.Keys, p + q)
    ensures TreeLag(thr, p + q, t, c) == TreeLag(thr, p, t, c) + TreeLag(thr, q, t, c)
  {
    if p == [] {
      assert p + q == q;
    } else {
      TreeLagConcat(thr, p[1..], q, t, c);
      assert (p + q)[1..] == p[1..] + q;
    }
  }

  lemma TreeLagInsere(thr: Threads, q: seq<Item>, it: Item, t: Tid, c: int)
    requires ItemsKnown(thr.Keys, q) && it.elem in thr
    ensures ItemsKnown(thr.Keys, Insere(q, it))
    ensures TreeLag(thr, Insere(q, it), t, c) == TreeLag(thr, q, t, c) + Lag(thr, it.elem, t, c)
  {
    var a, b := q[..Pos(q, it.chave)], q[Pos(q, it.chave)..];
    assert q == a + b;
    TreeLagConcat(thr, a, b, t, c);
    TreeLagConcat(thr, [it], b, t, c);
    TreeLagConcat(thr, a, [it] + b, t, c);
    assert a + [it] + b == a + ([it] + b);
  }

  /** Only records of threads in the tree matter. */
  lemma {:induction false} TreeLagSame(thr: Threads, thr': Threads, q: seq<Item>, t: Tid, c: int)
    requires ItemsKnown(thr.Keys, q) && ItemsKnown(thr'.Keys, q)
    requires forall i :: 0 <= i < |q| ==> Progress(thr'[q[i].elem]) == Progress(thr[q[i].elem])
    ensures TreeLag(thr', q, t, c) == TreeLag(thr, q, t, c)
  {
    if q != [] {
      assert Progress(thr'[q[0].elem]) == Progress(thr[q[0].elem]);
      forall i | 0 <= i < |q[1..]| ensures Progress(thr'[q[1..][i].elem]) == Progress(thr[q[1..][i].elem]) {
        assert q[1..][i] == q[i + 1];
      }
      TreeLagSame(thr, thr', q[1..], t, c);
    }
  }

  lemma InsereHas(q: seq<Item>, it: Item, t: Tid)
    requires InTree(q, t)
    ensures InTree(Insere(q, it), t)
  {
    var i :| 0 <= i < |q| && q[i].elem == t;
    var p := Pos(q, it.chave);
    var q' := Insere(q, it);
    assert if i < p then q'[i].elem == t else q'[i + 1].elem == t;
  }

  /** The least key of the tree is at most that of `t`, and `t` stays unless it is the one chosen. */
  lemma FirstAtMost(s: State, t: Tid)
    requires Ordered(s) && InTree(s.exe, t)
    ensures s.exe != [] && s.exe[0].elem in s.thr && t in s.thr
    ensures s.exe[0].chave <= s.thr[t].vruntime && s.thr[s.exe[0].elem].vruntime == s.exe[0].chave
    ensures s.exe[0].elem == t || InTree(s.exe[1..], t)
  {
    var i :| 0 <= i < |s.exe| && s.exe[i].elem == t;
    assert i > 0 ==> s.exe[1..][i - 1].elem == t;
  }

  // ---------- One tick ----------

  /** The record of `t` as far as its turn depends on it. */
  predicate Waits(s: State, s': State, t: Tid) {
    t in s.thr && t in s'.thr && s'.thr[t].vruntime == s.thr[t].vruntime && s'.sleep == s.sleep && s'.clock <= s.clock + 1
  }

  /** What the running thread does at the end of a tick or on its return takes it no further back, and
      beyond the ceiling only at the cost of its lag. */
  lemma ReturnLag(s: State, s': State, t: Tid)
    requires Ordered(s) && NotIn(s.exe, s.active) && t in s.thr && t != s.active && Balanced(Me(s))
    requires Me(s).vruntime <= s.thr[t].vruntime
    requires s' == Returned(s) || s' == RunTail(Returned(s))
    requires KnownThreads(s')
    ensures Waits(s, s', t) && s'.thr[t] == s.thr[t] && s'.active == s.active && s'.exe == s.exe
    ensures Bound(s', t) <= TreeLag(s.thr, s.exe, t, Ceiling(s, t)) + Lag(s.thr, s.active, t, Ceiling(s, t))
  {
    TreeLagSame(s.thr, s'.thr, s.exe, t, Ceiling(s, t));
    ChargedGrows(Me(s));
  }

  lemma ChargedGrows(th: Thread)
    requires Balanced(th)
    ensures Progress(th.Charged()) >= Progress(th) && th.vruntime + th.Weight() * th.times >= Progress(th)
  {
    WeightBounds(th.Weight(), th.times);
  }

  lemma WindowLag(s: State, t: Tid)
    requires Ordered(s) && Ready(s, t) && Me(s).resume == Window && Parked(SetResume(s, Call))
    ensures var e := Extract(SetResume(s, Call));
      && Arriving(e) && (e.active == t || Ready(e, t)) && t in e.thr && e.thr[t].resume != Window
      && e.thr[e.active].vruntime <= e.thr[t].vruntime && Waits(s, e, t)
      && TreeLag(e.thr, e.exe, t, Ceiling(s, t)) + Lag(e.thr, e.active, t, Ceiling(s, t)) <= TreeLag(s.thr, s.exe, t, Ceiling(s, t))
  {
    hide Balanced, Conserved, Exclusive, Fair, OthersBalanced;
    FirstAtMost(s, t);
    ExtractArrives(SetResume(s, Call));
    TreeLagSame(s.thr, SetResume(s, Call).thr, s.exe, t, Ceiling(s, t));
  }

  lemma {:induction false} ResumedLag(s: State, t: Tid)
    requires Arriving(s) && t in s.thr && s.thr[t].resume != Window && (s.active == t || Ready(s, t))
    requires Me(s).vruntime <= s.thr[t].vruntime
    ensures Resumed(s).Some? && KnownThreads(Resumed(s).value) && t in Resumed(s).value.thr
    ensures Resumed(s).value.active == t || Waited(s, Resumed(s).value, t)
    decreases |s.exe|
  {
    hide Conserved, Exclusive, Fair, RunKeyed, SleepKeyed, Sorted, Ids, OthersBalanced, Balanced, Progress, TreeLag, Lag, InTree, NotIn, Bound;
    if Me(s).resume == Window {
      WindowParks(s);
      WindowLag(s, t);
      FirstAtMost(s, t);
      ResumedLag(Extract(SetResume(s, Call)), t);
    } else if s.active != t {
      ArrivedLag(s, t);
    } else {
      ReturnedKnown(s, t);
    }
  }

  /** After the step, `t` still waits, and its bound is at most the lag there was before. */
  predicate Waited(s: State, s': State, t: Tid)
    requires KnownThreads(s) && KnownThreads(s') && t in s.thr
  {
    && Ready(s', t) && Waits(s, s', t)
    && Bound(s', t) <= TreeLag(s.thr, s.exe, t, Ceiling(s, t)) + Lag(s.thr, s.active, t, Ceiling(s, t))
  }

  lemma ReturnedKnown(s: State, t: Tid)
    requires KnownThreads(s) && Me(s).resume != Window
    ensures Resumed(s).Some? && KnownThreads(Resumed(s).value) && Resumed(s).value.active == s.active
    ensures Resumed(s).value.thr.Keys == s.thr.Keys
  {
    assert Returned(s).thr.Keys == s.thr.Keys;
    assert RunTail(Returned(s)).thr.Keys == s.thr.Keys;
  }

  lemma ArrivedLag(s: State, t: Tid)
    requires Arriving(s) && Me(s).resume != Window && Ready(s, t) && s.active != t && Me(s).vruntime <= s.thr[t].vruntime
    ensures Resumed(s).Some? && KnownThreads(Resumed(s).value) && t in Resumed(s).value.thr
    ensures Waited(s, Resumed(s).value, t)
  {
    hide Conserved, Exclusive, Fair, RunKeyed, SleepKeyed, Sorted, Ids, OthersBalanced, Balanced, Progress, TreeLag, Lag, NotIn, Bound;
    OnlyActive(s);
    ReturnedKnown(s, t);
    ReturnLag(s, Resumed(s).value, t);
  }

  lemma PutLag(s: State, t: Tid)
    requires Ordered(s) && Ready(s, t)
    ensures var e := Put(s, s.active);
      && InTree(e.exe, t) && KnownThreads(e)
      && TreeLag(e.thr, e.exe, t, Ceiling(s, t)) == TreeLag(s.thr, s.exe, t, Ceiling(s, t)) + Lag(s.thr, s.active, t, Ceiling(s, t))
  {
    hide Insere;
    InsereHas(s.exe, ItemOf(s, s.active), t);
    TreeLagInsere(s.thr, s.exe, ItemOf(s, s.active), t, Ceiling(s, t));
  }

  /** Choosing from the tree only moves lag from the tree to the processor. */
  lemma ExtractLag(s: State, t: Tid)
    requires Ordered(s) && InTree(s.exe, t) && s.thr[t].resume != Window
    ensures s.exe != [] && KnownThreads(Extract(s))
    ensures var e := Extract(s);
      && (e.active == t || Ready(e, t)) && e.thr[e.active].vruntime <= e.thr[t].vruntime
      && TreeLag(e.thr, e.exe, t, Ceiling(s, t)) + Lag(e.thr, e.active, t, Ceiling(s, t)) == TreeLag(s.thr, s.exe, t, Ceiling(s, t))
  {
    FirstAtMost(s, t);
  }

  /** The ticking thread gains one tick of progress. */
  function Ticked(s: State): State
    requires s.active in s.thr
  {
    SetMe(s, Me(s).(times := Me(s).times + 1, exectime := Me(s).exectime + 1))
  }

  lemma TickedLag(s: State, t: Tid)
    requires Inv(s) && Ready(s, t) && t != s.active
    ensures Ordered(Ticked(s)) && Core(Ticked(s), true) && Ready(Ticked(s), t) && Ticked(s).thr[t] == s.thr[t]
    ensures var e := Ticked(s);
      Bound(s, t) >= TreeLag(e.thr, e.exe, t, Ceiling(s, t)) + Lag(e.thr, e.active, t, Ceiling(s, t)) + 1
    ensures NotIn(s.exe, s.active)
  {
    hide Conserved, Exclusive, Fair, RunKeyed, SleepKeyed, Sorted, Ids, OthersBalanced, Balanced, InTree;
    OnlyActive(s);
    SetMeCore(s, Me(Ticked(s)));
    TreeLagSame(s.thr, Ticked(s).thr, s.exe, t, Ceiling(s, t));
  }

  /** A thread that keeps the processor is still below the runtime of `t`. */
  lemma StayLag(s: State, t: Tid)
    requires Ordered(s) && Core(s, true) && Ready(s, t) && t != s.active && Balanced(Me(s).(resume := Tail))
    requires Me(s).resume == Call && Me(s).pending == None
    requires Me(s).vruntime + Me(s).Weight() * Me(s).times < MinKey(s) && NotIn(s.exe, s.active)
    ensures KnownThreads(RunTail(s)) && Ready(RunTail(s), t) && Waits(s, RunTail(s), t)
    ensures Bound(RunTail(s), t) <= TreeLag(s.thr, s.exe, t, Ceiling(s, t)) + Lag(s.thr, s.active, t, Ceiling(s, t))
  {
    hide Conserved, Exclusive, Fair, SleepKeyed, Ids, OthersBalanced;
    FirstAtMost(s, t);
    TreeLagSame(s.thr, RunTail(s).thr, s.exe, t, Ceiling(s, t));
    ChargedGrows(Me(s).(resume := Tail));
  }

  /** The case of a tick with a switch. */
  lemma SwitchedLag(s: State, t: Tid)
    requires Inv(s) && Ready(s, t) && t != s.active
    ensures var s1 := Ticked(s);
      var s2 := SetResume(s1, Tail);
      KnownThreads(s2) && KnownThreads(Put(s2, s2.active))
      && Switch(Put(s2, s2.active)).Some?
      && var e := Switch(Put(s2, s2.active)).value;
        KnownThreads(e) && t in e.thr && (e.active == t || (Ready(e, t) && Waits(s, e, t) && Bound(e, t) < Bound(s, t)))
  {
    hide Conserved, Exclusive, Fair, RunKeyed, SleepKeyed, Sorted, Ids, OthersBalanced, Balanced, TreeLag, Lag, InTree, NotIn, Insere;
    TickedLag(s, t);
    TickBalanced(Me(s));
    var s1 := Ticked(s);
    SetMeCore(s1, Me(s1).(resume := Tail));
    var s2 := SetResume(s1, Tail);
    TreeLagSame(s1.thr, s2.thr, s1.exe, t, Ceiling(s, t));
    SameLag(s1, s2, t, Ceiling(s, t));
    PutLag(s2, t);
    PutParks(s2);
    var s3 := Put(s2, s2.active);
    ExtractLag(s3, t);
    ExtractArrives(s3);
    ResumedLag(Extract(s3), t);
  }

  /** A tick either lets `t` run or lowers its bound. */
  lemma TickLag(s: State, t: Tid)
    requires Inv(s) && Ready(s, t) && NotDue(s, 0)
    ensures TickStep(s).Some? && Inv(TickStep(s).value) && KnownThreads(TickStep(s).value) && t in TickStep(s).value.thr
    ensures var s' := TickStep(s).value;
      s'.active == t || (Ready(s', t) && Waits(s, s', t) && Bound(s', t) < Bound(s, t))
  {
    hide Conserved, Exclusive, Fair, RunKeyed, SleepKeyed, Sorted, Ids, OthersBalanced, Balanced, TreeLag, Lag, InTree, NotIn, Insere;
    TickInv(s);
    ReadyOther(s, t);
    TickedLag(s, t);
    TickBalanced(Me(s));
    var s1 := Ticked(s);
    assert WakeAll(s1) == s1;
    if Me(s1).vruntime + Me(s1).Weight() * Me(s1).times >= MinKey(s1) {
      SwitchedLag(s, t);
    } else {
      StayLag(s1, t);
    }
  }

  lemma SameLag(s: State, s': State, t: Tid, c: int)
    requires s.active in s.thr && s.active in s'.thr && s'.active == s.active && Progress(Me(s')) == Progress(Me(s))
    ensures Lag(s'.thr, s.active, t, c) == Lag(s.thr, s.active, t, c)
  {
  }

  lemma ReadyOther(s: State, t: Tid)
    requires Inv(s) && Ready(s, t)
    ensures t != s.active
  {
    hide Conserved, Exclusive, Fair, RunKeyed, SleepKeyed, Sorted, Ids, OthersBalanced, Balanced;
    OnlyActive(s);
  }

  /** A thread in the run tree runs within `Bound(s, t) + 1` ticks, if no sleeper is due until then. */
  lemma {:induction false} BoundedWaiting(s: State, t: Tid) returns (n: nat, s': State)
    requires Inv(s) && Ready(s, t) && NotDue(s, Bound(s, t))
    ensures n <= Bound(s, t) + 1
    ensures Reaches(s, TickRun(n), s') && s'.active == t
    decreases Bound(s, t)
  {
    hide Bound, Inv, Known, TickStep;
    InvKnown(s);
    TickLag(s, t);
    s' := TickStep(s).value;
    if s'.active == t {
      n := 1;
      assert Reaches(s', TickRun(n)[1..], s');
    } else {
      var n1;
      n1, s' := BoundedWaiting(s', t);
      n := n1 + 1;
      assert TickRun(n)[1..] == TickRun(n1);
    }
  }
}
