/** What the cache's operations do to its entries: their bits and times, which of them leave to make room, and how long
    a written block can stay off the disk. */
module CacheEffects {
  import opened Block
  import opened CacheSpec

  // ---------- The order of sacrifice ----------

  /** An entry is worth less than another: invalid ones less than valid ones, then unreferenced ones less than referenced
      ones, then unmodified ones less than modified ones. */
  predicate WorthLess(e: Entry, f: Entry) {
    if e.valido != f.valido then f.valido
    else if !e.valido then false
    else if e.referenciado != f.referenciado then f.referenciado
    else f.modificado && !e.modificado
  }

  lemma ClasseOrder(e: Entry, f: Entry)
    ensures Classe(e) < 5 && (Classe(e) < Classe(f) <==> WorthLess(e, f))
  {
  }

  /** Some entry is worth less than that of block `b`. */
  predicate Spared(entries: map<nat, Entry>, b: nat)
    requires b in entries
  {
    exists x :: x in entries && WorthLess(entries[x], entries[b])
  }

  /** What is on the disk when the entries of `c` that are not in `c'` have left. */
  ghost predicate LeftToDisk(c: CacheState, c': CacheState) {
    && |c'.disk| == |c.disk|
    && forall x :: 0 <= x < |c.disk| ==>
         c'.disk[x] == if x in c.entries && x !in c'.entries && c.entries[x].valido && c.entries[x].modificado then c.entries[x].bytes else c.disk[x]
  }

  /** Exactly the entries that are worth least leave. */
  ghost predicate Sacrificed(c: CacheState, c': CacheState) {
    && c'.max == c.max && LeftToDisk(c, c')
    && (forall x :: x in c'.entries <==> x in c.entries && Spared(c.entries, x))
    && (forall x :: x in c'.entries ==> c'.entries[x] == c.entries[x])
  }

  /** When the cache is full exactly the entries that are worth least leave; otherwise none does. */
  lemma RoomEffect(c: CacheState)
    requires CacheInv(c)
    ensures |c.entries| < c.max ==> MakeRoom(c) == c
    ensures |c.entries| == c.max ==> Sacrificed(c, MakeRoom(c))
  {
    if |c.entries| == c.max {
      EvictFirst(c, 0);
      var k :| FirstClass(c, k) && EvictFrom(c, 0) == Remove(c, Members(c, k));
      forall x | x in c.entries ensures Spared(c.entries, x) <==> x !in Members(c, k) {
        LeastClass(c, k, x);
      }
    }
  }

  lemma LeastClass(c: CacheState, k: nat, b: nat)
    requires FirstClass(c, k) && b in c.entries
    ensures Spared(c.entries, b) <==> b !in Members(c, k)
  {
    forall x | x in c.entries ensures k <= Classe(c.entries[x]) < 5 {
      ClasseOrder(c.entries[x], c.entries[x]);
      assert x in Members(c, Classe(c.entries[x]));
    }
    if b in Members(c, k) {
      forall x | x in c.entries ensures !WorthLess(c.entries[x], c.entries[b]) { ClasseOrder(c.entries[x], c.entries[b]); }
    } else {
      var x :| x in Members(c, k);
      ClasseOrder(c.entries[x], c.entries[b]);
    }
  }

  // ---------- Reading and writing ----------

  /** All entries but that of block `b`, and the disk, are as before. */
  ghost predicate OnlyEntry(c: CacheState, c': CacheState, b: nat) {
    && c'.disk == c.disk && c'.max == c.max
    && forall x :: x != b ==> (x in c'.entries <==> x in c.entries) && (x in c.entries ==> c'.entries[x] == c.entries[x])
  }

  /** Room was made first for the entry of block `b`. */
  ghost predicate RoomFor(c: CacheState, c': CacheState, b: nat) {
    exists r: CacheState :: Sacrificed(c, r) && OnlyEntry(r, c', b)
  }

  /** A read finds or loads the block and marks it as referenced. A hit changes nothing else; a block that is loaded is
      unmodified and starts at time 0, and others leave for it exactly if it was not there and the cache was full. */
  lemma ReadEffect(c: CacheState, b: nat)
    requires CacheInv(c) && b < |c.disk|
    ensures b in Loaded(c, b).entries && b in Read(c, b).entries
    ensures var e := Read(c, b).entries[b];
      && e.valido && e.referenciado && e.bytes == Logical(c, b)
      && (HasValid(c, b) ==> e.modificado == c.entries[b].modificado && e.tempo == c.entries[b].tempo)
      && (!HasValid(c, b) ==> !e.modificado && e.tempo == 0)
    ensures if b !in c.entries && |c.entries| == c.max then RoomFor(c, Read(c, b), b) else OnlyEntry(c, Read(c, b), b)
  {
    LoadedEffect(c, b);
    hide Loaded, CacheInv, OnlyEntry, RoomFor;
    SameEntryOnly(c, Loaded(c, b), Read(c, b), b);
  }

  lemma SameEntryOnly(c: CacheState, c1: CacheState, c': CacheState, b: nat)
    requires b in c1.entries && b in c'.entries && c' == c1.(entries := c1.entries[b := c'.entries[b]])
    ensures OnlyEntry(c, c1, b) ==> OnlyEntry(c, c', b)
    ensures RoomFor(c, c1, b) ==> RoomFor(c, c', b)
  {
    hide Sacrificed;
    if RoomFor(c, c1, b) {
      var r :| Sacrificed(c, r) && OnlyEntry(r, c1, b);
      assert OnlyEntry(r, c', b);
    }
  }

  lemma LoadedEffect(c: CacheState, b: nat)
    requires CacheInv(c) && b < |c.disk|
    ensures b in Loaded(c, b).entries
    ensures HasValid(c, b) ==> Loaded(c, b) == c
    ensures !HasValid(c, b) ==> Loaded(c, b).entries[b] == Entry(Logical(c, b), true, true, false, 0)
    ensures if b !in c.entries && |c.entries| == c.max then RoomFor(c, Loaded(c, b), b) else OnlyEntry(c, Loaded(c, b), b)
  {
    if b !in c.entries {
      InsertEffect(c, b, false, c.disk[b]);
    } else if !c.entries[b].valido {
      RemoveKeeps(c, {b});
      SubsetSize(c.entries, {b});
      InsertEffect(Remove(c, {b}), b, false, c.disk[b]);
      assert Remove(c, {b}).disk == c.disk;
    }
  }

  lemma InsertEffect(c: CacheState, b: nat, modificado: bool, bytes: Block)
    requires CacheInv(c) && b < |c.disk| && b !in c.entries
    ensures var c' := Insert(c, b, modificado, bytes);
      && b in c'.entries && c'.entries[b] == Entry(bytes, true, true, modificado, 0)
      && if |c.entries| == c.max then RoomFor(c, c', b) else OnlyEntry(c, c', b)
  {
    RoomEffect(c);
    var r, c' := MakeRoom(c), Insert(c, b, modificado, bytes);
    assert OnlyEntry(r, c', b);
  }

  /** A write leaves the block valid, referenced and modified with what was written, and does not touch the disk for it.
      On a hit the time goes on; a new entry starts at time 0. */
  lemma WriteEffect(c: CacheState, b: nat, data: Block)
    requires CacheInv(c) && b < |c.disk|
    ensures b in Loaded(c, b).entries && b in Write(c, b, data).entries
    ensures var e := Write(c, b, data).entries[b];
      && e.valido && e.referenciado && e.modificado && e.bytes == data
      && e.tempo == if HasValid(c, b) then c.entries[b].tempo else 0
    ensures if b !in c.entries && |c.entries| == c.max then RoomFor(c, Write(c, b, data), b) else OnlyEntry(c, Write(c, b, data), b)
  {
    LoadedKeeps(c, b);
    if b !in c.entries { InsertEffect(c, b, true, data); } else { LoadedEffect(c, b); }
  }

  /** A block that was just read or written survives the next eviction exactly if some entry is worth less; so it does
      if some entry is invalid or was not referenced since the last ageing. */
  lemma JustUsedSurvives(c: CacheState, b: nat, c': CacheState)
    requires CacheInv(c') && b in c'.entries && c'.entries[b].valido && c'.entries[b].referenciado && |c'.entries| == c'.max
    ensures b in MakeRoom(c').entries <==>
      exists x :: x in c'.entries &&
        (!c'.entries[x].valido || !c'.entries[x].referenciado || (c'.entries[b].modificado && !c'.entries[x].modificado))
  {
    RoomEffect(c');
  }

  /** Reading block `b` and then another one keeps the entry of `b`, if there was room or some entry of the cache is
      invalid or unreferenced after the first read. */
  lemma ReadSurvives(c: CacheState, b: nat, b2: nat)
    requires CacheInv(c) && b < |c.disk| && b2 < |c.disk| && b2 != b
    ensures b in Loaded(c, b).entries && CacheInv(Read(c, b)) && |Read(c, b).disk| == |c.disk| && b2 in Loaded(Read(c, b), b2).entries
    ensures var c1 := Read(c, b);
      |c1.entries| < c1.max || (exists x :: x in c1.entries && (!c1.entries[x].valido || !c1.entries[x].referenciado))
      ==> b in Read(c1, b2).entries && Read(c1, b2).entries[b] == c1.entries[b]
  {
    ReadCoherent(c, b);
    ReadEffect(c, b);
    var c1 := Read(c, b);
    ReadEffect(c1, b2);
    if x :| x in c1.entries && (!c1.entries[x].valido || !c1.entries[x].referenciado) {
      assert WorthLess(c1.entries[x], c1.entries[b]);
      assert Spared(c1.entries, b);
    }
  }

  // ---------- Ageing, invalidating, eliminating ----------

  /** Ageing takes the reference from every entry and adds to its time; exactly those that come to ten seconds leave,
      to the disk if they are valid and modified. */
  lemma AgeEffect(c: CacheState, n: int)
    requires CacheInv(c)
    ensures var c' := Age(c, n);
      && c'.max == c.max && LeftToDisk(c, c')
      && (forall b :: b in c'.entries <==> b in c.entries && c.entries[b].tempo + n < 10)
      && (forall b :: b in c'.entries ==> c'.entries[b] == c.entries[b].(tempo := c.entries[b].tempo + n, referenciado := false))
  {
    AgeCoherent(c, n);
  }

  /** Invalidating clears one bit of one entry. */
  lemma InvalidateEffect(c: CacheState, b: nat)
    ensures OnlyEntry(c, Invalidate(c, b), b) && (b in Invalidate(c, b).entries <==> b in c.entries)
    ensures b in c.entries ==> Invalidate(c, b).entries[b] == c.entries[b].(valido := false)
    ensures Eliminate(c, b).entries == Invalidate(c, b).entries && |Eliminate(c, b).disk| == |c.disk|
    ensures forall x :: 0 <= x < |c.disk| ==> Eliminate(c, b).disk[x] == if x == b then Zeros() else c.disk[x]
  {
  }

  // ---------- How long a written block stays off the disk ----------

  /** The cache after an operation. */
  function AfterOp(c: CacheState, op: CacheOp): CacheState
    requires CacheInv(c) && (op.OpAge? || op.b < |c.disk|)
  {
    match op
    case OpRead(b) => ReadCoherent(c, b); Read(c, b)
    case OpWrite(b, data) => WriteCoherent(c, b, data); Write(c, b, data)
    case OpAge(n) => Age(c, n)
    case OpEliminate(b) => Eliminate(c, b)
  }

  lemma AfterOpInv(c: CacheState, op: CacheOp)
    requires CacheInv(c) && (op.OpAge? || op.b < |c.disk|)
    ensures CacheInv(AfterOp(c, op)) && |AfterOp(c, op).disk| == |c.disk|
    ensures forall x :: 0 <= x < |c.disk| && (op.OpRead? || op.OpAge? || op.b != x) ==> Logical(AfterOp(c, op), x) == Logical(c, x)
  {
    OpRefines(c, op);
    var c' := AfterOp(c, op);
    LogicalLength(c);
    LogicalLength(c');
    forall x | 0 <= x < |c.disk| && (op.OpRead? || op.OpAge? || op.b != x) ensures Logical(c', x) == Logical(c, x) {
      assert LogicalDisk(c')[x] == LogicalDisk(c)[x];
    }
  }

  /** The cache after a run. */
  function AfterRun(c: CacheState, ops: seq<CacheOp>): CacheState
    requires CacheInv(c) && OpsInRange(ops, |c.disk|)
    decreases |ops|
  {
    if ops == [] then c
    else
      AfterOpInv(c, ops[0]);
      AfterRun(AfterOp(c, ops[0]), ops[1..])
  }

  /** The seconds that pass in a run. */
  function Seconds(ops: seq<CacheOp>): int {
    if ops == [] then 0 else (if ops[0].OpAge? then ops[0].n else 0) + Seconds(ops[1..])
  }

  /** No operation of the run names block `b`, and time does not run backwards. */
  predicate LeavesAlone(ops: seq<CacheOp>, b: nat) {
    forall i :: 0 <= i < |ops| ==> if ops[i].OpAge? then ops[i].n >= 0 else ops[i].b != b
  }

  /** An entry that is left alone keeps its time but for ageing. */
  lemma AloneEffect(c: CacheState, op: CacheOp, b: nat)
    requires CacheInv(c) && (op.OpAge? || (op.b < |c.disk| && op.b != b)) && b < |c.disk|
    ensures b in AfterOp(c, op).entries ==>
      && b in c.entries
      && (!op.OpAge? ==> AfterOp(c, op).entries[b].tempo == c.entries[b].tempo)
      && (op.OpAge? ==> AfterOp(c, op).entries[b].tempo == c.entries[b].tempo + op.n < 10)
  {
    match op
    case OpRead(x) => ReadEffect(c, x);
    case OpWrite(x, data) => WriteEffect(c, x, data);
    case OpAge(n) => AgeEffect(c, n);
    case OpEliminate(x) => InvalidateEffect(c, x);
  }

  /** Whatever was written is on the disk at the latest when ten seconds have passed since the block came into the cache,
      if nobody uses the block, and whatever happens to others. */
  lemma {:induction false} OnDiskInTime(c: CacheState, ops: seq<CacheOp>, b: nat)
    requires CacheInv(c) && OpsInRange(ops, |c.disk|) && b < |c.disk| && LeavesAlone(ops, b)
    requires b in c.entries ==> c.entries[b].tempo < 10 <= c.entries[b].tempo + Seconds(ops)
    ensures var c' := AfterRun(c, ops); b !in c'.entries && |c'.disk| == |c.disk| && c'.disk[b] == Logical(c, b)
    decreases |ops|
  {
    hide CacheInv;
    if ops != [] {
      assert ops[0].OpAge? || ops[0].b < |c.disk|;
      AfterOpInv(c, ops[0]);
      AloneEffect(c, ops[0], b);
      var c1 := AfterOp(c, ops[0]);
      assert OpsInRange(ops[1..], |c1.disk|) && LeavesAlone(ops[1..], b);
      assert Seconds(ops) == (if ops[0].OpAge? then ops[0].n else 0) + Seconds(ops[1..]);
      OnDiskInTime(c1, ops[1..], b);
    }
  }
}
