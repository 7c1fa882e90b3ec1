/** What the write-back cache does to its entries and to the disk, and why it always agrees with the
    plain disk that it speeds up. */
module CacheSpec {
  import opened Block

  datatype Entry = Entry(bytes: Block, valido: bool, referenciado: bool, modificado: bool, tempo: int)

  datatype CacheState = CacheState(entries: map<nat, Entry>, disk: seq<Block>, max: nat)

  const MAX_TEMPO := 10

  /** The content of a block as the users of the cache see it. */
  function Logical(c: CacheState, b: nat): Block
    requires b < |c.disk|
  {
    if b in c.entries && c.entries[b].valido then c.entries[b].bytes else c.disk[b]
  }

  function LogicalDisk(c: CacheState): seq<Block> {
    seq(|c.disk|, b requires 0 <= b < |c.disk| => Logical(c, b))
  }

  /** A valid unmodified entry equals the disk. */
  predicate Coherent(entries: map<nat, Entry>, disk: seq<Block>) {
    forall b :: b in entries ==>
      b < |disk| && (entries[b].valido && !entries[b].modificado ==> entries[b].bytes == disk[b])
  }

  predicate CacheInv(c: CacheState) {
    0 < c.max && |c.entries| <= c.max && Coherent(c.entries, c.disk)
  }

  // ---------- Operations ----------

  predicate Unwritten(e: Entry) {
    e.modificado && e.valido
  }

  function WrittenBack(entries: map<nat, Entry>, disk: seq<Block>, bs: set<nat>): seq<Block> {
    seq(|disk|, b requires 0 <= b < |disk| => if b in bs && b in entries && Unwritten(entries[b]) then entries[b].bytes else disk[b])
  }

  /** Removing entries writes those back that are valid and modified. */
  function Remove(c: CacheState, bs: set<nat>): CacheState {
    c.(entries := c.entries - bs, disk := WrittenBack(c.entries, c.disk, bs))
  }

  /** The classes in the order in which they are sacrificed: invalid entries, then not referenced and
      not modified, not referenced but modified, referenced but not modified, both. */
  function Classe(e: Entry): nat {
    if !e.valido then 0
    else if !e.referenciado && !e.modificado then 1
    else if !e.referenciado then 2
    else if !e.modificado then 3
    else 4
  }

  function Members(c: CacheState, k: nat): set<nat> {
    set b | b in c.entries && Classe(c.entries[b]) == k
  }

  /** The first class that has members. */
  predicate FirstClass(c: CacheState, k: nat) {
    k < 5 && Members(c, k) != {} && forall j :: 0 <= j < k ==> Members(c, j) == {}
  }

  /** Removes the first class, from `k` on, that has members. */
  function EvictFrom(c: CacheState, k: nat): CacheState
    decreases 5 - k
  {
    if k >= 5 then c
    else if Members(c, k) != {} then Remove(c, Members(c, k))
    else EvictFrom(c, k + 1)
  }

  function MakeRoom(c: CacheState): CacheState {
    if |c.entries| == c.max then EvictFrom(c, 0) else c
  }

  function Insert(c: CacheState, b: nat, modificado: bool, bytes: Block): CacheState {
    var c1 := MakeRoom(c);
    c1.(entries := c1.entries[b := Entry(bytes, true, true, modificado, 0)])
  }

  function Load(c: CacheState, b: nat): CacheState
    requires b < |c.disk|
  {
    Insert(c, b, false, c.disk[b])
  }

  /** The state in which block `b` has a valid entry. */
  function Loaded(c: CacheState, b: nat): CacheState
    requires b < |c.disk|
  {
    if b !in c.entries then Load(c, b)
    else if !c.entries[b].valido then Load(Remove(c, {b}), b)
    else c
  }

  function Read(c: CacheState, b: nat): CacheState
    requires b < |c.disk| && b in Loaded(c, b).entries
  {
    var c1 := Loaded(c, b);
    c1.(entries := c1.entries[b := c1.entries[b].(referenciado := true, valido := true)])
  }

  function Write(c: CacheState, b: nat, data: Block): CacheState
    requires b < |c.disk| && b in Loaded(c, b).entries
  {
    if b !in c.entries then Insert(c, b, true, data)
    else
      var c1 := Loaded(c, b);
      c1.(entries := c1.entries[b := c1.entries[b].(bytes := data, referenciado := true, modificado := true, valido := true)])
  }

  function Older(e: Entry, n: int): Entry {
    e.(tempo := e.tempo + n, referenciado := false)
  }

  function OlderSome(entries: map<nat, Entry>, n: int, vs: set<nat>): map<nat, Entry> {
    map b | b in entries :: if b in vs then Older(entries[b], n) else entries[b]
  }

  function Expired(entries: map<nat, Entry>, vs: set<nat>): set<nat> {
    set b | b in entries && b in vs && entries[b].tempo >= MAX_TEMPO
  }

  /** The entries `vs` get older; those of them that have been there for ten seconds leave. */
  function AgeSome(c: CacheState, n: int, vs: set<nat>): CacheState {
    Remove(c.(entries := OlderSome(c.entries, n, vs)), Expired(OlderSome(c.entries, n, vs), vs))
  }

  function Age(c: CacheState, n: int): CacheState {
    AgeSome(c, n, c.entries.Keys)
  }

  function Invalidate(c: CacheState, b: nat): CacheState {
    if b in c.entries then c.(entries := c.entries[b := c.entries[b].(valido := false)]) else c
  }

  function Eliminate(c: CacheState, b: nat): CacheState {
    var c1 := Invalidate(c, b);
    if b < |c.disk| then c1.(disk := c.disk[b := Zeros()]) else c1
  }

  // ---------- Removal and eviction ----------

  predicate SameLogical(c: CacheState, c': CacheState) {
    |c'.disk| == |c.disk| && forall b :: 0 <= b < |c.disk| ==> Logical(c', b) == Logical(c, b)
  }

  lemma SubsetSize(m: map<nat, Entry>, bs: set<nat>)
    ensures |m - bs| <= |m|
    ensures (exists b :: b in bs && b in m) ==> |m - bs| < |m|
  {
    assert (m - bs).Keys == m.Keys - bs;
    SubsetCardinality(m.Keys - bs, m.Keys);
    if b :| b in bs && b in m {
      assert b in m.Keys && b !in m.Keys - bs;
      SubsetCardinality(m.Keys - bs, m.Keys - {b});
    }
    assert |m| == |m.Keys| && |m - bs| == |(m - bs).Keys|;
  }

  lemma {:induction false} SubsetCardinality(a: set<nat>, b: set<nat>)
    requires a <= b
    ensures |a| <= |b|
  {
    if a != {} {
      var x :| x in a;
      SubsetCardinality(a - {x}, b - {x});
    }
  }

  /** Removing entries changes no block for the users, whatever is removed. */
  lemma RemoveKeeps(c: CacheState, bs: set<nat>)
    requires CacheInv(c)
    ensures CacheInv(Remove(c, bs)) && SameLogical(c, Remove(c, bs))
    ensures forall b :: b in Remove(c, bs).entries <==> b in c.entries && b !in bs
    ensures forall b :: b in Remove(c, bs).entries ==> Remove(c, bs).entries[b] == c.entries[b]
  {
    SubsetSize(c.entries, bs);
  }

  /** Eviction takes exactly the first class that has members, and a full cache gets a free place. */
  lemma {:induction false} EvictFirst(c: CacheState, k: nat)
    requires CacheInv(c) && k <= 5 && forall i :: 0 <= i < k ==> Members(c, i) == {}
    ensures c.entries == map[] ==> EvictFrom(c, k) == c
    ensures c.entries != map[] ==> exists i :: FirstClass(c, i) && k <= i && EvictFrom(c, k) == Remove(c, Members(c, i))
    decreases 5 - k
  {
    assert forall b :: b in c.entries ==> Classe(c.entries[b]) < 5 && b in Members(c, Classe(c.entries[b]));
    if k < 5 {
      if Members(c, k) == {} {
        EvictFirst(c, k + 1);
      } else {
        assert FirstClass(c, k);
      }
    }
  }

  /** A full cache loses exactly the members of the first class that has any, and so has room. */
  lemma EvictFrees(c: CacheState)
    requires CacheInv(c)
    ensures CacheInv(MakeRoom(c)) && SameLogical(c, MakeRoom(c)) && |MakeRoom(c).entries| < c.max
    ensures forall b :: b in MakeRoom(c).entries ==> b in c.entries
    ensures |c.entries| < c.max ==> MakeRoom(c) == c
    ensures |c.entries| == c.max ==> exists k :: FirstClass(c, k) && Survivors(c, MakeRoom(c), k)
  {
    if |c.entries| == c.max {
      EvictFirst(c, 0);
      var k :| FirstClass(c, k) && EvictFrom(c, 0) == Remove(c, Members(c, k));
      RemoveKeeps(c, Members(c, k));
      SubsetSize(c.entries, Members(c, k));
      var b :| b in Members(c, k);
      assert b in c.entries;
      assert Survivors(c, MakeRoom(c), k);
    }
  }

  /** Exactly the entries outside class `k` are left, as they were. */
  ghost predicate Survivors(c: CacheState, c': CacheState, k: nat) {
    && (forall b :: b in c'.entries <==> b in c.entries && Classe(c.entries[b]) != k)
    && (forall b :: b in c'.entries ==> c'.entries[b] == c.entries[b])
  }

  lemma InsertKeeps(c: CacheState, b: nat, modificado: bool, bytes: Block)
    requires CacheInv(c) && b < |c.disk| && b !in c.entries && (!modificado ==> bytes == c.disk[b])
    ensures var c' := Insert(c, b, modificado, bytes);
      && CacheInv(c') && |c'.disk| == |c.disk| && b in c'.entries && c'.entries[b].valido
      && forall x :: 0 <= x < |c.disk| ==> Logical(c', x) == if x == b then bytes else Logical(c, x)
  {
    EvictFrees(c);
    assert b !in MakeRoom(c).entries;
    assert Logical(MakeRoom(c), b) == Logical(c, b);
  }

  lemma LoadedKeeps(c: CacheState, b: nat)
    requires CacheInv(c) && b < |c.disk|
    ensures var c' := Loaded(c, b);
      CacheInv(c') && SameLogical(c, c') && b in c'.entries && c'.entries[b].valido
  {
    if b !in c.entries {
      InsertKeeps(c, b, false, c.disk[b]);
    } else if !c.entries[b].valido {
      RemoveKeeps(c, {b});
      InsertKeeps(Remove(c, {b}), b, false, c.disk[b]);
    }
  }

  // ---------- Coherence ----------

  /** Reading gives the block as its users see it and changes no block. */
  lemma ReadCoherent(c: CacheState, b: nat)
    requires CacheInv(c) && b < |c.disk|
    ensures b in Loaded(c, b).entries
    ensures CacheInv(Read(c, b)) && SameLogical(c, Read(c, b))
    ensures b in Read(c, b).entries && Read(c, b).entries[b].bytes == Logical(c, b)
  {
    LoadedKeeps(c, b);
  }

  /** Writing changes exactly the block written. */
  lemma WriteCoherent(c: CacheState, b: nat, data: Block)
    requires CacheInv(c) && b < |c.disk|
    ensures b in Loaded(c, b).entries
    ensures CacheInv(Write(c, b, data)) && LogicalDisk(Write(c, b, data)) == LogicalDisk(c)[b := data]
  {
    LoadedKeeps(c, b);
    if b !in c.entries { InsertKeeps(c, b, true, data); }
  }

  lemma AgeCoherent(c: CacheState, n: int)
    requires CacheInv(c)
    ensures CacheInv(Age(c, n)) && SameLogical(c, Age(c, n))
    ensures forall b :: b in Age(c, n).entries <==> b in c.entries && c.entries[b].tempo + n < MAX_TEMPO
    ensures forall b :: b in Age(c, n).entries ==> !Age(c, n).entries[b].referenciado
  {
    var older := OlderSome(c.entries, n, c.entries.Keys);
    assert older.Keys == c.entries.Keys;
    assert |older| == |older.Keys| && |c.entries| == |c.entries.Keys|;
    RemoveKeeps(c.(entries := older), Expired(older, c.entries.Keys));
  }

  /** Eliminating makes the block empty for its users, in the cache or not. */
  lemma EliminateCoherent(c: CacheState, b: nat)
    requires CacheInv(c) && b < |c.disk|
    ensures CacheInv(Eliminate(c, b)) && LogicalDisk(Eliminate(c, b)) == LogicalDisk(c)[b := Zeros()]
  {
    InvalidateExactly(c, b);
  }

  /** Invalidating falls back to what the disk holds: it loses a write exactly if the entry was valid
      and its bytes differ from the disk. */
  lemma InvalidateExactly(c: CacheState, b: nat)
    requires CacheInv(c) && b < |c.disk|
    ensures CacheInv(Invalidate(c, b)) && LogicalDisk(Invalidate(c, b)) == LogicalDisk(c)[b := c.disk[b]]
    ensures SameLogical(c, Invalidate(c, b)) <==>
            (b in c.entries && Unwritten(c.entries[b]) ==> c.entries[b].bytes == c.disk[b])
  {
    if b in c.entries {
      assert (c.entries[b := c.entries[b].(valido := false)]).Keys == c.entries.Keys;
      assert |c.entries[b := c.entries[b].(valido := false)]| == |c.entries|;
      assert SameLogical(c, Invalidate(c, b)) ==> Logical(Invalidate(c, b), b) == Logical(c, b);
    }
  }

  // ---------- Beside the cache ----------

  /** Whether the users of the cache see block `b` through a valid entry. */
  predicate HasValid(c: CacheState, b: nat) {
    b in c.entries && c.entries[b].valido
  }

  /** Reading and writing make no entry valid but that of the block read or written. */
  lemma OnlyOneMoreValid(c: CacheState, b: nat, data: Block)
    requires CacheInv(c) && b < |c.disk|
    ensures b in Loaded(c, b).entries
    ensures forall x :: HasValid(Read(c, b), x) ==> x == b || HasValid(c, x)
    ensures forall x :: HasValid(Write(c, b, data), x) ==> x == b || HasValid(c, x)
  {
    LoadedKeeps(c, b);
    RoomValid(c);
    RemoveKeeps(c, {b});
    RoomValid(Remove(c, {b}));
  }

  lemma RoomValid(c: CacheState)
    requires CacheInv(c)
    ensures forall x :: HasValid(MakeRoom(c), x) ==> HasValid(c, x)
  {
    if |c.entries| == c.max {
      EvictFirst(c, 0);
      var k :| FirstClass(c, k) && EvictFrom(c, 0) == Remove(c, Members(c, k));
    }
  }

  /** A block without a valid entry can be read and written on the disk directly. */
  function RawWrite(c: CacheState, b: nat, data: Block): CacheState {
    if b < |c.disk| then c.(disk := c.disk[b := data]) else c
  }

  lemma RawAccess(c: CacheState, b: nat, data: Block)
    requires CacheInv(c) && b < |c.disk| && !HasValid(c, b)
    ensures Logical(c, b) == c.disk[b]
    ensures CacheInv(RawWrite(c, b, data)) && LogicalDisk(RawWrite(c, b, data)) == LogicalDisk(c)[b := data]
    ensures forall x :: HasValid(RawWrite(c, b, data), x) <==> HasValid(c, x)
  {
  }

  /** Formatting overwrites the disk beside the cache: the users see empty blocks exactly where the cache
      has no valid entry with other content. */
  lemma FormatExactly(c: CacheState, disk: seq<Block>)
    requires CacheInv(c) && |disk| == |c.disk| && forall b :: 0 <= b < |disk| ==> disk[b] == Zeros()
    ensures LogicalDisk(c.(disk := disk)) == disk <==> forall b :: 0 <= b < |disk| && HasValid(c, b) ==> c.entries[b].bytes == Zeros()
  {
    var c' := c.(disk := disk);
    if LogicalDisk(c') == disk {
      forall b | 0 <= b < |disk| && HasValid(c, b) ensures c.entries[b].bytes == Zeros() {
        assert LogicalDisk(c')[b] == disk[b];
      }
    }
  }

  // ---------- One entry at a time ----------

  /** Removing one more entry. */
  lemma RemoveMore(c: CacheState, bs: set<nat>, b: nat)
    requires b in c.entries && b !in bs
    ensures b in Remove(c, bs).entries && Remove(c, bs).entries[b] == c.entries[b]
    ensures Remove(Remove(c, bs), {b}) == Remove(c, bs + {b})
  {
    assert c.entries - bs - {b} == c.entries - (bs + {b});
  }

  /** One entry gets older. */
  function AgeOne(c: CacheState, n: int, b: nat): CacheState
    requires b in c.entries
  {
    var e := Older(c.entries[b], n);
    var c1 := c.(entries := c.entries[b := e]);
    if e.tempo >= MAX_TEMPO then Remove(c1, {b}) else c1
  }

  /** One more entry gets older, and leaves if it has been there for long enough. */
  lemma AgeMore(c: CacheState, n: int, vs: set<nat>, b: nat)
    requires b in c.entries && b !in vs
    ensures b in AgeSome(c, n, vs).entries && AgeSome(c, n, vs).entries[b] == c.entries[b]
    ensures AgeSome(c, n, vs + {b}) == AgeOne(AgeSome(c, n, vs), n, b)
  {
    var old1, old2 := OlderSome(c.entries, n, vs), OlderSome(c.entries, n, vs + {b});
    var e := Older(c.entries[b], n);
    assert old2 == old1[b := e];
    if e.tempo >= MAX_TEMPO {
      assert Expired(old2, vs + {b}) == Expired(old1, vs) + {b};
      assert old2 - Expired(old2, vs + {b}) == (old1 - Expired(old1, vs))[b := e] - {b};
    } else {
      assert Expired(old2, vs + {b}) == Expired(old1, vs);
      assert old2 - Expired(old2, vs + {b}) == (old1 - Expired(old1, vs))[b := e];
    }
  }

  lemma AgeNone(c: CacheState, n: int)
    ensures AgeSome(c, n, {}) == c
  {
    assert OlderSome(c.entries, n, {}) == c.entries;
    assert c.entries - Expired(c.entries, {}) == c.entries;
  }

  lemma RemoveNone(c: CacheState)
    ensures Remove(c, {}) == c
  {
    assert c.entries - {} == c.entries;
  }

  // ---------- Whole runs ----------

  datatype CacheOp = OpRead(b: nat) | OpWrite(b: nat, data: Block) | OpAge(n: int) | OpEliminate(b: nat)

  predicate OpsInRange(ops: seq<CacheOp>, n: nat) {
    forall i :: 0 <= i < |ops| ==> (ops[i].OpAge? || ops[i].b < n)
  }

  /** What a run of operations reads through the cache. */
  function CacheRun(c: CacheState, ops: seq<CacheOp>): seq<Block>
    requires CacheInv(c) && OpsInRange(ops, |c.disk|)
    decreases |ops|
  {
    if ops == [] then [] else
      match ops[0]
      case OpRead(b) =>
        ReadCoherent(c, b);
        [Read(c, b).entries[b].bytes] + CacheRun(Read(c, b), ops[1..])
      case OpWrite(b, data) =>
        WriteCoherent(c, b, data);
        assert |LogicalDisk(Write(c, b, data))| == |c.disk|;
        CacheRun(Write(c, b, data), ops[1..])
      case OpAge(n) =>
        AgeCoherent(c, n);
        CacheRun(Age(c, n), ops[1..])
      case OpEliminate(b) =>
        EliminateCoherent(c, b);
        assert |LogicalDisk(Eliminate(c, b))| == |c.disk|;
        CacheRun(Eliminate(c, b), ops[1..])
  }

  /** What the same run reads from a plain disk. */
  function DiskRun(d: seq<Block>, ops: seq<CacheOp>): seq<Block>
    requires OpsInRange(ops, |d|)
    decreases |ops|
  {
    if ops == [] then [] else
      match ops[0]
      case OpRead(b) => [d[b]] + DiskRun(d, ops[1..])
      case OpWrite(b, data) => DiskRun(d[b := data], ops[1..])
      case OpAge(n) => DiskRun(d, ops[1..])
      case OpEliminate(b) => DiskRun(d[b := Zeros()], ops[1..])
  }

  lemma SameDisk(c: CacheState, c': CacheState)
    requires SameLogical(c, c')
    ensures LogicalDisk(c) == LogicalDisk(c')
  {
  }

  /** One operation, and what it reads, if it reads. */
  lemma OpRefines(c: CacheState, op: CacheOp)
    requires CacheInv(c) && (op.OpAge? || op.b < |c.disk|)
    ensures op.OpRead? ==> op.b in Loaded(c, op.b).entries && op.b in Read(c, op.b).entries
    ensures op.OpRead? ==> Read(c, op.b).entries[op.b].bytes == LogicalDisk(c)[op.b] && CacheInv(Read(c, op.b)) && LogicalDisk(Read(c, op.b)) == LogicalDisk(c)
    ensures op.OpWrite? ==> op.b in Loaded(c, op.b).entries
    ensures op.OpWrite? ==> CacheInv(Write(c, op.b, op.data)) && LogicalDisk(Write(c, op.b, op.data)) == LogicalDisk(c)[op.b := op.data]
    ensures op.OpAge? ==> CacheInv(Age(c, op.n)) && LogicalDisk(Age(c, op.n)) == LogicalDisk(c)
    ensures op.OpEliminate? ==> CacheInv(Eliminate(c, op.b)) && LogicalDisk(Eliminate(c, op.b)) == LogicalDisk(c)[op.b := Zeros()]
  {
    hide CacheInv, Loaded, Write, Age, Eliminate;
    match op
    case OpRead(b) =>
      ReadCoherent(c, b);
      SameDisk(c, Read(c, b));
    case OpWrite(b, data) => WriteCoherent(c, b, data);
    case OpAge(n) =>
      AgeCoherent(c, n);
      SameDisk(c, Age(c, n));
    case OpEliminate(b) => EliminateCoherent(c, b);
  }

  lemma LogicalLength(c: CacheState)
    ensures |LogicalDisk(c)| == |c.disk|
  {
  }

  /** Over every run the cache reads what the plain disk would, however small the cache is. */
  lemma {:induction false} CacheRefinesDisk(c: CacheState, ops: seq<CacheOp>)
    requires CacheInv(c) && OpsInRange(ops, |c.disk|)
    ensures |LogicalDisk(c)| == |c.disk| && CacheRun(c, ops) == DiskRun(LogicalDisk(c), ops)
    decreases |ops|
  {
    hide CacheInv, Loaded, Read, Write, Age, Eliminate, LogicalDisk;
    LogicalLength(c);
    if ops != [] {
      OpRefines(c, ops[0]);
      match ops[0]
      case OpRead(b) =>
        LogicalLength(Read(c, b));
        CacheRefinesDisk(Read(c, b), ops[1..]);
      case OpWrite(b, data) =>
        LogicalLength(Write(c, b, data));
        CacheRefinesDisk(Write(c, b, data), ops[1..]);
      case OpAge(n) =>
        LogicalLength(Age(c, n));
        CacheRefinesDisk(Age(c, n), ops[1..]);
      case OpEliminate(b) =>
        LogicalLength(Eliminate(c, b));
        CacheRefinesDisk(Eliminate(c, b), ops[1..]);
    }
  }
}
