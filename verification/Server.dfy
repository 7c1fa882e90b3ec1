/** The request buffer of the server: a ring filled by one producer and emptied by any number of
    consumers, all synchronised by one monitor. */
module Server {
  import opened Wrappers

  const RING_SIZE: nat := 10

  /** The ring with the positions of the next get and the next put. */
  datatype Ring<T> = Ring(slots: seq<T>, getPos: nat, putPos: nat)

  ghost predicate RingOk<T>(r: Ring<T>) {
    |r.slots| == RING_SIZE && r.getPos < RING_SIZE && r.putPos < RING_SIZE
  }

  /** The slot `k` places behind slot `g`. */
  function Behind(g: nat, k: nat): nat {
    if g + k < RING_SIZE then g + k else g + k - RING_SIZE
  }

  /** The `n` requests from the get position on. */
  function Requests<T>(r: Ring<T>, n: nat): (s: seq<T>)
    requires |r.slots| == RING_SIZE && r.getPos < RING_SIZE && n <= RING_SIZE
    ensures |s| == n
  {
    seq(n, k requires 0 <= k < n => r.slots[Behind(r.getPos, k)])
  }

  function AfterGet<T>(r: Ring<T>): Ring<T> {
    r.(getPos := Behind(r.getPos, 1))
  }

  function AfterPut<T>(r: Ring<T>, req: T): Ring<T>
    requires r.putPos < |r.slots|
  {
    r.(slots := r.slots[r.putPos := req], putPos := Behind(r.putPos, 1))
  }

  /** The put position is behind the last of the `n` requests. */
  predicate Filled<T>(r: Ring<T>, n: nat) {
    n <= RING_SIZE && r.putPos == Behind(r.getPos, n)
  }

  lemma NextPos(g: nat, k: nat)
    requires g < RING_SIZE && k < RING_SIZE
    ensures Behind(Behind(g, 1), k) == Behind(g, k + 1) == Behind(Behind(g, k), 1) && Behind(g, 0) == g
  {
  }

  lemma OtherPos(g: nat, k: nat, n: nat)
    requires g < RING_SIZE && k < n < RING_SIZE
    ensures Behind(g, k) != Behind(g, n)
  {
  }

  /** A get takes the first request and leaves the others in order. */
  lemma GetTakesFirst<T>(r: Ring<T>, n: nat)
    requires RingOk(r) && Filled(r, n) && n > 0
    ensures RingOk(AfterGet(r)) && Filled(AfterGet(r), n - 1)
    ensures Requests(r, n) == [r.slots[r.getPos]] + Requests(AfterGet(r), n - 1)
  {
    NextPos(r.getPos, n - 1);
    NextPos(r.getPos, 0);
    var a, b := Requests(r, n), [r.slots[r.getPos]] + Requests(AfterGet(r), n - 1);
    forall k | 0 <= k < n ensures a[k] == b[k] {
      if k > 0 { NextPos(r.getPos, k - 1); }
    }
  }

  /** A put into a ring that is not full adds the request behind the others. */
  lemma PutAddsLast<T>(r: Ring<T>, n: nat, req: T)
    requires RingOk(r) && Filled(r, n) && n < RING_SIZE
    ensures RingOk(AfterPut(r, req)) && Filled(AfterPut(r, req), n + 1)
    ensures Requests(AfterPut(r, req), n + 1) == Requests(r, n) + [req]
  {
    NextPos(r.getPos, n);
    var r' := AfterPut(r, req);
    forall k | 0 <= k < n ensures Requests(r', n + 1)[k] == Requests(r, n)[k] { OtherPos(r.getPos, k, n); }
    assert Requests(r', n + 1)[n] == req;
    assert Requests(r', n + 1)[..n] == Requests(r, n);
    assert Requests(r', n + 1) == Requests(r', n + 1)[..n] + [Requests(r', n + 1)[n]];
  }

  /** The ring as the server keeps it: an array and two positions. */
  class RequestRing<T(0)> {
    const ring: array<T>
    var getPos: nat
    var putPos: nat

    ghost function Abs(): Ring<T>
      reads this, ring
    {
      Ring(ring[..], getPos, putPos)
    }

    ghost predicate Valid()
      reads this, ring
    {
      RingOk(Abs())
    }

    constructor ()
      ensures Valid() && fresh(ring) && Filled(Abs(), 0)
    {
      ring := new T[RING_SIZE];
      getPos, putPos := 0, 0;
    }

    method GetReq() returns (req: T)
      requires Valid()
      modifies this`getPos
      ensures Valid() && Abs() == AfterGet(old(Abs())) && req == old(ring[getPos])
    {
      req := ring[getPos];
      getPos := (getPos + 1) % RING_SIZE;
    }

    method PutReq(req: T)
      requires Valid()
      modifies this`putPos, ring
      ensures Valid() && Abs() == AfterPut(old(Abs()), req)
    {
      ring[putPos] := req;
      putPos := (putPos + 1) % RING_SIZE;
    }
  }

  // ---------- The protocol ----------

  /** Where a thread is in its loop. The monitor's mutex is owned in `Test`, `Act`, `Putting`,
      `Signalling` and `Leaving`. */
  datatype Phase =
    | Outside      // before entering the monitor
    | Queued       // waits for the mutex, to test the condition
    | Test         // about to test whether it must wait
    | Waiting      // in the monitor's queue, not signalled
    | Act          // the condition holds: take a request, or leave to receive one
    | Receiving    // the producer receives a request, outside the monitor
    | Entering     // the producer waits for the mutex, to put the request
    | Putting      // about to put the request
    | Signalling   // the buffer is changed, nobody is signalled yet
    | Leaving      // about to leave the monitor

  /** The producer is thread 0. `produced` and `consumed` record every put and every get. */
  datatype Sys<T> = Sys(
    ring: Ring<T>, available: int, owner: Option<nat>, phase: seq<Phase>, fila: seq<nat>,
    request: Option<T>, produced: seq<T>, consumed: seq<T>)

  datatype Event<T> = Go(t: nat) | Receive(req: Option<T>)

  predicate Owning(p: Phase) {
    p == Test || p == Act || p == Putting || p == Signalling || p == Leaving
  }

  /** Whether a thread can go on: it owns the mutex, wants it while it is free, or is outside. */
  predicate Enabled<T>(s: Sys<T>, e: Event<T>) {
    match e
    case Go(t) =>
      && t < |s.phase| && s.phase[t] != Waiting && s.phase[t] != Receiving
      && (s.phase[t] == Queued || s.phase[t] == Entering ==> s.owner == None)
    case Receive(_) => 0 < |s.phase| && s.phase[0] == Receiving
  }

  function To<T>(s: Sys<T>, t: nat, p: Phase): Sys<T>
    requires t < |s.phase|
  {
    s.(phase := s.phase[t := p], owner := if Owning(p) then Some(t) else if s.owner == Some(t) then None else s.owner)
  }

  /** Wakes the first waiter: it queues for the mutex to test again. */
  function SignalOne<T>(s: Sys<T>): (s': Sys<T>)
    ensures |s'.phase| == |s.phase|
  {
    if s.fila == [] || s.fila[0] >= |s.phase| then s
    else s.(phase := s.phase[s.fila[0] := Queued], fila := s.fila[1..])
  }

  function SignalEvery<T>(s: Sys<T>): (s': Sys<T>)
    ensures |s'.phase| == |s.phase|
    decreases |s.fila|
  {
    if s.fila == [] || s.fila[0] >= |s.phase| then s else SignalEvery(SignalOne(s))
  }

  predicate MustWait<T>(s: Sys<T>, t: nat) {
    if t == 0 then s.available == RING_SIZE else s.available == 0
  }

  ghost predicate BufferOk<T>(s: Sys<T>) {
    && RingOk(s.ring) && 0 <= s.available <= RING_SIZE && Filled(s.ring, s.available)
    && s.produced == s.consumed + Requests(s.ring, s.available)
  }

  function Next<T>(s: Sys<T>, e: Event<T>): Sys<T>
    requires Enabled(s, e) && s.ring.getPos < |s.ring.slots| && s.ring.putPos < |s.ring.slots|
    requires 0 < |s.phase| && (s.phase[0] == Putting ==> s.request.Some?)
  {
    match e
    case Receive(None) => To(s, 0, Outside)
    case Receive(Some(req)) => To(s.(request := Some(req)), 0, Entering)
    case Go(t) =>
      match s.phase[t]
      case Outside => if s.owner == None then To(s, t, Test) else To(s, t, Queued)
      case Queued => To(s, t, Test)
      case Test => if MustWait(s, t) then To(s.(fila := s.fila + [t]), t, Waiting) else To(s, t, Act)
      case Act =>
        if t == 0 then To(s, 0, Receiving)
        else To(s.(consumed := s.consumed + [s.ring.slots[s.ring.getPos]], ring := AfterGet(s.ring),
                   available := s.available - 1), t, Signalling)
      case Entering => To(s, t, Putting)
      case Putting =>
        if t != 0 then s
        else To(s.(produced := s.produced + [s.request.value], ring := AfterPut(s.ring, s.request.value),
                   available := s.available + 1, request := None), 0, Signalling)
      case Signalling => To(if t == 0 then SignalEvery(s) else SignalOne(s), t, Leaving)
      case Leaving => To(s, t, Outside)
      case _ => s
  }

  // ---------- The invariant ----------

  /** Exactly the owner is inside the monitor. */
  predicate MutexOk(phase: seq<Phase>, owner: Option<nat>) {
    && (owner.Some? ==> owner.value < |phase|)
    && forall t :: 0 <= t < |phase| ==> (Owning(phase[t]) <==> owner == Some(t))
  }

  /** The monitor's queue holds exactly the waiting threads, once each. */
  predicate QueueOk(phase: seq<Phase>, fila: seq<nat>) {
    && (forall i :: 0 <= i < |fila| ==> fila[i] < |phase| && phase[fila[i]] == Waiting)
    && (forall i, j :: 0 <= i < j < |fila| ==> fila[i] != fila[j])
    && (forall t :: 0 <= t < |phase| && phase[t] == Waiting ==> t in fila)
  }

  /** Only the producer receives and puts; it does so only with a free slot, which stays free as long
      as it needs it; a consumer takes only when there is something to take. */
  predicate PhaseOk<T>(s: Sys<T>) {
    && 0 < |s.phase|
    && (s.phase[0] in {Act, Receiving, Entering, Putting} ==> s.available < RING_SIZE)
    && (s.phase[0] in {Entering, Putting} ==> s.request.Some?)
    && (forall t :: 0 < t < |s.phase| ==> s.phase[t] !in {Receiving, Entering, Putting} && (s.phase[t] == Act ==> s.available > 0))
  }

  predicate ConsumerSignals(phase: seq<Phase>) {
    exists t :: 0 < t < |phase| && phase[t] == Signalling
  }

  /** A waiting producer that is not signalled has a full buffer, a waiting consumer an empty one,
      unless the signal is about to be given. */
  predicate WakeOk<T>(s: Sys<T>) {
    && 0 < |s.phase|
    && (0 in s.fila ==> s.available == RING_SIZE || (s.available == RING_SIZE - 1 && ConsumerSignals(s.phase)))
    && (forall t :: t in s.fila && t > 0 ==> s.available == 0 || (s.available == 1 && s.phase[0] == Signalling))
  }

  ghost predicate SysInv<T>(s: Sys<T>) {
    BufferOk(s) && MutexOk(s.phase, s.owner) && QueueOk(s.phase, s.fila) && PhaseOk(s) && WakeOk(s)
  }

  function Init<T>(ring: Ring<T>, consumers: nat): Sys<T> {
    Sys(ring, 0, None, seq(1 + consumers, _ => Outside), [], None, [], [])
  }

  lemma InitInv<T>(ring: Ring<T>, consumers: nat)
    requires RingOk(ring) && ring.getPos == ring.putPos
    ensures SysInv(Init(ring, consumers))
  {
    assert Requests(ring, 0) == [];
  }

  /** A step that moves one thread and leaves the buffer and the queue. */
  lemma MoveInv<T>(s: Sys<T>, s1: Sys<T>, t: nat, p: Phase)
    requires SysInv(s) && t < |s.phase| && s.phase[t] != Waiting && p != Waiting
    requires s1 == s.(request := s1.request) && (s1.request == s.request || s1.request.Some?)
    requires s.phase[t] != Signalling && (Owning(p) ==> s.owner == None || s.owner == Some(t))
    requires t == 0 && p in {Act, Receiving, Entering, Putting} ==> s.available < RING_SIZE
    requires t == 0 && p in {Entering, Putting} ==> s1.request.Some?
    requires t > 0 ==> p !in {Receiving, Entering, Putting} && (p == Act ==> s.available > 0)
    ensures SysInv(To(s1, t, p))
  {
    var s' := To(s1, t, p);
    assert MutexOk(s'.phase, s'.owner);
    assert QueueOk(s'.phase, s'.fila);
    if ConsumerSignals(s.phase) {
      var c :| 0 < c < |s.phase| && s.phase[c] == Signalling;
      assert s'.phase[c] == Signalling;
    }
  }

  lemma WaitInv<T>(s: Sys<T>, t: nat)
    requires SysInv(s) && t < |s.phase| && s.phase[t] == Test && MustWait(s, t)
    ensures SysInv(To(s.(fila := s.fila + [t]), t, Waiting))
  {
    var s' := To(s.(fila := s.fila + [t]), t, Waiting);
    assert s.owner == Some(t);
    assert MutexOk(s'.phase, s'.owner);
    assert QueueOk(s'.phase, s'.fila);
  }

  /** Whoever is inside the monitor is alone there. */
  lemma AloneInside<T>(s: Sys<T>, t: nat)
    requires SysInv(s) && t < |s.phase| && Owning(s.phase[t])
    ensures s.owner == Some(t) && forall u :: 0 <= u < |s.phase| && u != t ==> !Owning(s.phase[u])
    ensures s.phase[t] != Signalling ==> !ConsumerSignals(s.phase)
    ensures t > 0 ==> s.phase[0] != Signalling
  {
  }

  lemma GetInv<T>(s: Sys<T>, t: nat)
    requires SysInv(s) && 0 < t < |s.phase| && s.phase[t] == Act
    ensures s.available > 0 && SysInv(Next(s, Go(t)))
  {
    AloneInside(s, t);
    GetTakesFirst(s.ring, s.available);
    var s' := Next(s, Go(t));
    assert s'.consumed + Requests(s'.ring, s'.available) == s.consumed + Requests(s.ring, s.available);
    assert s'.phase[t] == Signalling;
    assert ConsumerSignals(s'.phase);
  }

  lemma PutInv<T>(s: Sys<T>)
    requires SysInv(s) && s.phase[0] == Putting
    ensures SysInv(Next(s, Go(0)))
  {
    AloneInside(s, 0);
    PutAddsLast(s.ring, s.available, s.request.value);
    var s' := Next(s, Go(0));
    assert s.consumed + Requests(s.ring, s.available) + [s.request.value] == s.consumed + (Requests(s.ring, s.available) + [s.request.value]);
  }

  lemma SignalOneQueue<T>(s: Sys<T>)
    requires QueueOk(s.phase, s.fila)
    ensures var s' := SignalOne(s);
      && QueueOk(s'.phase, s'.fila)
      && s' == s.(phase := s'.phase, fila := s'.fila)
      && (s.fila != [] ==> s'.fila == s.fila[1..] && s.fila[0] !in s'.fila)
      && (forall t :: 0 <= t < |s.phase| ==> s'.phase[t] == s.phase[t] || (s.phase[t] == Waiting && s'.phase[t] == Queued))
  {
    if s.fila != [] {
      var s' := SignalOne(s);
      assert forall t :: t in s.fila && t != s.fila[0] ==> t in s'.fila;
    }
  }

  lemma SignalOneKeeps<T>(s: Sys<T>)
    requires QueueOk(s.phase, s.fila) && MutexOk(s.phase, s.owner) && PhaseOk(s)
    ensures var s' := SignalOne(s);
      && QueueOk(s'.phase, s'.fila) && MutexOk(s'.phase, s'.owner) && PhaseOk(s')
      && s' == s.(phase := s'.phase, fila := s'.fila)
      && (s.fila != [] ==> s'.fila == s.fila[1..] && s.fila[0] !in s'.fila)
      && (forall t :: 0 <= t < |s.phase| && s.phase[t] != Waiting ==> s'.phase[t] == s.phase[t])
  {
    hide QueueOk, SignalOne;
    SignalOneQueue(s);
  }

  lemma {:induction false} SignalEveryKeeps<T>(s: Sys<T>)
    requires QueueOk(s.phase, s.fila) && MutexOk(s.phase, s.owner) && PhaseOk(s)
    ensures var s' := SignalEvery(s);
      && QueueOk(s'.phase, s'.fila) && MutexOk(s'.phase, s'.owner) && PhaseOk(s')
      && s' == s.(phase := s'.phase, fila := s'.fila) && s'.fila == []
      && (forall t :: 0 <= t < |s.phase| && s.phase[t] != Waiting ==> s'.phase[t] == s.phase[t])
    decreases |s.fila|
  {
    if s.fila != [] {
      SignalOneKeeps(s);
      SignalEveryKeeps(SignalOne(s));
    }
  }

  lemma LeavingInv<T>(s: Sys<T>, t: nat)
    requires t < |s.phase| && s.phase[t] == Signalling && s.owner == Some(t)
    requires BufferOk(s) && QueueOk(s.phase, s.fila) && MutexOk(s.phase, s.owner) && PhaseOk(s)
    requires 0 in s.fila ==> s.available == RING_SIZE
    requires forall u :: u in s.fila && u > 0 ==> s.available == 0
    ensures SysInv(To(s, t, Leaving))
  {
  }

  lemma SignallingInv<T>(s: Sys<T>, t: nat)
    requires SysInv(s) && t < |s.phase| && s.phase[t] == Signalling
    ensures SysInv(Next(s, Go(t)))
  {
    AloneInside(s, t);
    if t == 0 {
      SignalEveryKeeps(s);
      LeavingInv(SignalEvery(s), 0);
    } else {
      SignalOneKeeps(s);
      if 0 in s.fila { OnlyProducer(s); }
      LeavingInv(SignalOne(s), t);
    }
  }

  /** A waiting producer whose wake-up is due is alone in the queue. */
  lemma OnlyProducer<T>(s: Sys<T>)
    requires SysInv(s) && s.phase[0] != Signalling && 0 in s.fila
    ensures s.fila == [0]
  {
    TwoDiffer(s.fila);
  }

  lemma TwoDiffer(fila: seq<nat>)
    requires forall i, j :: 0 <= i < j < |fila| ==> fila[i] != fila[j]
    ensures |fila| > 1 ==> exists u :: u in fila && u != 0
  {
    if |fila| > 1 {
      var u := if fila[0] == 0 then fila[1] else fila[0];
      assert u in fila && u != 0;
    }
  }

  /** Every step of every thread keeps the invariant. */
  lemma StepInv<T>(s: Sys<T>, e: Event<T>)
    requires SysInv(s) && Enabled(s, e)
    ensures SysInv(Next(s, e))
  {
    match e
    case Receive(None) => MoveInv(s, s, 0, Outside);
    case Receive(Some(req)) => MoveInv(s, s.(request := Some(req)), 0, Entering);
    case Go(t) =>
      match s.phase[t]
      case Outside => MoveInv(s, s, t, if s.owner == None then Test else Queued);
      case Queued => MoveInv(s, s, t, Test);
      case Test => if MustWait(s, t) { WaitInv(s, t); } else { MoveInv(s, s, t, Act); }
      case Act => if t == 0 { MoveInv(s, s, 0, Receiving); } else { GetInv(s, t); }
      case Entering => MoveInv(s, s, t, Putting);
      case Putting => PutInv(s);
      case Signalling => SignallingInv(s, t);
      case Leaving => MoveInv(s, s, t, Outside);
  }

  // ---------- Runs ----------

  ghost predicate Reaches<T>(s: Sys<T>, es: seq<Event<T>>, s': Sys<T>)
    decreases |es|
  {
    if es == [] then s' == s
    else SysInv(s) && Enabled(s, es[0]) && Reaches(Next(s, es[0]), es[1..], s')
  }

  lemma {:induction false} RunInv<T>(s: Sys<T>, es: seq<Event<T>>, s': Sys<T>)
    requires SysInv(s) && Reaches(s, es, s')
    ensures SysInv(s') && |s'.phase| == |s.phase|
    decreases |es|
  {
    if es != [] {
      StepInv(s, es[0]);
      RunInv(Next(s, es[0]), es[1..], s');
    }
  }

  /** The requests that were received in the run, in their order. */
  function Received<T>(es: seq<Event<T>>): seq<T> {
    if es == [] then []
    else (if es[0].Receive? && es[0].req.Some? then [es[0].req.value] else []) + Received(es[1..])
  }

  /** What the producer has received and not put yet. */
  function InHand<T>(s: Sys<T>): seq<T> {
    if s.request.Some? then [s.request.value] else []
  }

  /** The producer has a request in hand exactly from its reception to its put. */
  predicate HandOk<T>(s: Sys<T>) {
    0 < |s.phase| && (s.request.Some? <==> s.phase[0] in {Entering, Putting})
  }

  lemma {:induction false} SignalEveryHand<T>(s: Sys<T>)
    requires 0 < |s.phase| && s.phase[0] == Signalling && QueueOk(s.phase, s.fila)
    ensures var s' := SignalEvery(s); s' == s.(phase := s'.phase, fila := s'.fila) && s'.phase[0] == Signalling
    decreases |s.fila|
  {
    if s.fila != [] {
      SignalOneQueue(s);
      SignalEveryHand(SignalOne(s));
    }
  }

  lemma ReceivedOne<T>(e: Event<T>)
    ensures Received([e]) == if e.Receive? && e.req.Some? then [e.req.value] else []
  {
    assert [e][1..] == [];
  }

  /** What is received is in hand, and what is put was in hand: in every step nothing is lost, doubled or overtaken. */
  lemma NextReceives<T>(s: Sys<T>, e: Event<T>)
    requires SysInv(s) && HandOk(s) && Enabled(s, e)
    ensures HandOk(Next(s, e)) && Next(s, e).produced + InHand(Next(s, e)) == s.produced + InHand(s) + Received([e])
  {
    ReceivedOne(e);
    hide Received, BufferOk, MutexOk, WakeOk;
    if e.Go? && s.phase[e.t] == Signalling {
      if e.t == 0 { SignalEveryHand(s); } else { SignalOneQueue(s); }
    }
  }

  lemma ReceivedNone<T>(es: seq<Event<T>>)
    requires es == []
    ensures Received(es) == []
  {
  }

  lemma ReceivedHead<T>(es: seq<Event<T>>)
    requires es != []
    ensures Received([es[0]]) + Received(es[1..]) == Received(es)
  {
    assert Received([es[0]][1..]) == [];
  }

  lemma {:induction false} RunReceives<T>(s: Sys<T>, es: seq<Event<T>>, s': Sys<T>)
    requires SysInv(s) && HandOk(s) && Reaches(s, es, s')
    ensures s'.produced + InHand(s') == s.produced + InHand(s) + Received(es)
    decreases |es|
  {
    hide Next, MutexOk, QueueOk, WakeOk, Filled, Requests, Enabled, HandOk, Received, InHand;
    if es == [] {
      assert Received(es) == [] by { ReceivedNone(es); }
    } else {
      StepInv(s, es[0]);
      NextReceives(s, es[0]);
      RunReceives(Next(s, es[0]), es[1..], s');
      ReceivedHead(es);
      assert s.produced + InHand(s) + (Received([es[0]]) + Received(es[1..])) == s.produced + InHand(s) + Received([es[0]]) + Received(es[1..]);
    }
  }

  /** Over every run with any number of consumers: the buffer never over- or underflows, and the requests received are,
      once each and in their order, those taken, those in the ring and the one the producer has in hand. */
  lemma FirstInFirstOut<T>(ring: Ring<T>, consumers: nat, es: seq<Event<T>>, s: Sys<T>)
    requires RingOk(ring) && ring.getPos == ring.putPos && Reaches(Init(ring, consumers), es, s)
    ensures 0 <= s.available <= RING_SIZE && RingOk(s.ring)
    ensures Received(es) == s.consumed + Requests(s.ring, s.available) + InHand(s)
    ensures s.consumed <= Received(es) && |InHand(s)| <= 1
  {
    InitInv(ring, consumers);
    RunInv(Init(ring, consumers), es, s);
    RunReceives(Init(ring, consumers), es, s);
    assert [] + [] + Received(es) == Received(es);
  }

  lemma SomebodyAwake<T>(s: Sys<T>)
    requires SysInv(s) && |s.phase| > 1
    ensures exists t :: 0 <= t < |s.phase| && s.phase[t] != Waiting
  {
    assert s.phase[0] == Waiting ==> 0 in s.fila;
    assert s.phase[1] == Waiting ==> 1 in s.fila;
  }

  /** No wake-up is lost: while nobody is inside the monitor, an unsignalled waiting producer has a
      full buffer and an unsignalled waiting consumer an empty one; so never do all threads wait. */
  lemma NoLostWakeup<T>(ring: Ring<T>, consumers: nat, es: seq<Event<T>>, s: Sys<T>)
    requires RingOk(ring) && ring.getPos == ring.putPos && Reaches(Init(ring, consumers), es, s)
    ensures s.owner == None && 0 in s.fila ==> s.available == RING_SIZE
    ensures forall t :: s.owner == None && t in s.fila && t > 0 ==> s.available == 0
    ensures consumers > 0 ==> exists t :: 0 <= t < |s.phase| && s.phase[t] != Waiting
  {
    InitInv(ring, consumers);
    RunInv(Init(ring, consumers), es, s);
    if consumers > 0 { SomebodyAwake(s); }
  }

  lemma SomeStep<T(0)>(s: Sys<T>) returns (e: Event<T>)
    requires SysInv(s) && |s.phase| > 1
    ensures Enabled(s, e)
  {
    SomebodyAwake(s);
    if s.owner.Some? {
      e := Go(s.owner.value);
    } else {
      var t :| 0 <= t < |s.phase| && s.phase[t] != Waiting;
      e := if s.phase[t] == Receiving then Receive(None) else Go(t);
    }
  }

  /** Some thread can always take a step, so the server never comes to a stop. */
  lemma NeverStuck<T(0)>(ring: Ring<T>, consumers: nat, es: seq<Event<T>>, s: Sys<T>) returns (e: Event<T>)
    requires consumers > 0 && RingOk(ring) && ring.getPos == ring.putPos && Reaches(Init(ring, consumers), es, s)
    ensures Enabled(s, e)
  {
    hide SysInv;
    InitInv(ring, consumers);
    RunInv(Init(ring, consumers), es, s);
    e := SomeStep(s);
  }

  // ---------- Everybody is served ----------

  /** How far thread `t`, which owns the monitor, is from leaving it. */
  function Rank<T>(s: Sys<T>, t: nat): nat
    requires t < |s.phase|
  {
    match s.phase[t]
    case Test => if MustWait(s, t) then 6 else if t == 0 then 7 else 4
    case Act => if t == 0 then 6 else 3
    case Putting => 4
    case Signalling => 7
    case Leaving => 6
    case _ => 0
  }

  /** What remains to be done until all requests are taken. */
  function Remaining<T>(s: Sys<T>): nat
    requires MutexOk(s.phase, s.owner)
  {
    20 * |InHand(s)| + 10 * (if s.available >= 0 then s.available else 0) + if s.owner.Some? then Rank(s, s.owner.value) else 5
  }

  predicate Idle<T>(s: Sys<T>) {
    s.available == 0 && s.request == None
  }

  /** Somebody's step brings the requests nearer to being taken. */
  lemma NearerStep<T>(s: Sys<T>) returns (t: nat)
    requires SysInv(s) && HandOk(s) && |s.phase| > 1 && !Idle(s)
    ensures Enabled(s, Go(t)) && SysInv(Next(s, Go(t))) && HandOk(Next(s, Go(t))) && |Next(s, Go(t)).phase| == |s.phase|
    ensures Remaining(Next(s, Go(t))) < Remaining(s)
  {
    if s.owner.Some? {
      t := s.owner.value;
    } else if s.request.Some? {
      t := 0;
    } else {
      t := 1;
      assert s.phase[1] != Waiting by { if s.phase[1] == Waiting { NobodySignals(s); } }
    }
    StepInv(s, Go(t));
    NextReceives(s, Go(t));
    GoNearer(s, t);
  }

  lemma NobodySignals<T>(s: Sys<T>)
    requires SysInv(s) && s.owner == None && |s.phase| > 1 && s.phase[1] == Waiting
    ensures s.available == 0
  {
    assert 1 in s.fila;
  }

  lemma GoNearer<T>(s: Sys<T>, t: nat)
    requires SysInv(s) && HandOk(s) && Enabled(s, Go(t)) && SysInv(Next(s, Go(t)))
    requires s.owner == Some(t) || (s.owner == None && if s.request.Some? then t == 0 else t > 0 && s.available > 0)
    ensures Remaining(Next(s, Go(t))) < Remaining(s)
  {
    hide BufferOk, QueueOk, WakeOk;
    if s.phase[t] == Signalling {
      SignallingNearer(s, t);
    }
  }

  lemma SignallingNearer<T>(s: Sys<T>, t: nat)
    requires SysInv(s) && HandOk(s) && Enabled(s, Go(t)) && s.phase[t] == Signalling && SysInv(Next(s, Go(t)))
    ensures Remaining(Next(s, Go(t))) < Remaining(s)
  {
    if t == 0 { SignalEveryHand(s); } else { SignalOneQueue(s); }
  }

  predicate OnlyGo<T>(es: seq<Event<T>>) {
    forall i :: 0 <= i < |es| ==> es[i].Go?
  }

  lemma {:induction false} Drain<T>(s: Sys<T>) returns (es: seq<Event<T>>, s': Sys<T>)
    requires SysInv(s) && HandOk(s) && |s.phase| > 1
    ensures Reaches(s, es, s') && OnlyGo(es) && Idle(s') && SysInv(s')
    decreases Remaining(s)
  {
    hide Next, Remaining, HandOk, Idle, BufferOk, QueueOk, WakeOk, Enabled;
    if Idle(s) {
      es, s' := [], s;
    } else {
      var t := NearerStep(s);
      NextAllowed(s, t);
      var es1;
      es1, s' := Drain(Next(s, Go(t)));
      es := [Go(t)] + es1;
      assert es[1..] == es1;
    }
  }

  lemma NextAllowed<T>(s: Sys<T>, t: nat)
    requires SysInv(s) && Enabled(s, Go(t))
    ensures s.ring.getPos < |s.ring.slots| && s.ring.putPos < |s.ring.slots| && 0 < |s.phase| && (s.phase[0] == Putting ==> s.request.Some?)
  {
  }

  lemma {:induction false} NoneReceived<T>(es: seq<Event<T>>)
    requires OnlyGo(es)
    ensures Received(es) == []
  {
    if es != [] { NoneReceived(es[1..]); }
  }

  lemma {:induction false} ReachesHand<T>(s: Sys<T>, es: seq<Event<T>>, s': Sys<T>)
    requires SysInv(s) && HandOk(s) && Reaches(s, es, s')
    ensures HandOk(s')
    decreases |es|
  {
    hide Next, MutexOk, QueueOk, WakeOk, Filled, Requests, Enabled, HandOk;
    if es != [] {
      StepInv(s, es[0]);
      NextReceives(s, es[0]);
      ReachesHand(Next(s, es[0]), es[1..], s');
    }
  }

  /** After every run there is a way to go on, without a further reception, that ends with exactly the requests received
      taken, in their order: whoever sent one can still be served. */
  lemma EverybodyServed<T>(ring: Ring<T>, consumers: nat, es: seq<Event<T>>, s: Sys<T>) returns (es': seq<Event<T>>, s': Sys<T>)
    requires consumers > 0 && RingOk(ring) && ring.getPos == ring.putPos && Reaches(Init(ring, consumers), es, s)
    ensures OnlyGo(es') && Reaches(s, es', s') && s'.consumed == Received(es)
  {
    hide SysInv, HandOk, Received, Reaches, Idle, InHand;
    var s0 := Init(ring, consumers);
    InitInv(ring, consumers);
    InitHand(ring, consumers);
    RunInv(s0, es, s);
    RunReceives(s0, es, s);
    ReachesHand(s0, es, s);
    es', s' := Drain(s);
    RunReceives(s, es', s');
    NoneReceived(es');
    IdleTaken(s');
    assert s.produced + InHand(s) + [] == s.produced + InHand(s) && [] + [] + Received(es) == Received(es);
  }

  lemma InitHand<T>(ring: Ring<T>, consumers: nat)
    ensures HandOk(Init(ring, consumers)) && InHand(Init(ring, consumers)) == []
  {
  }

  lemma IdleTaken<T>(s: Sys<T>)
    requires SysInv(s) && Idle(s)
    ensures s.produced == s.consumed && InHand(s) == []
  {
    assert s.produced == s.consumed + Requests(s.ring, 0);
  }
}
