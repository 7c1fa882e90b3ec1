/** A freshly formatted file system. */
module FileSystemFormat {
  import opened Block
  import opened CacheSpec
  import opened Bitmap
  import opened Accounting
  import opened FileSystemSpec
  import opened FileSystemSteps
  import opened FileSystemFacts
  import opened FileSystemTree

  function EmptyUsage(): Usage {
    Usage(seq(INODES, f => f == 1), seq(INODES, _ => []))
  }

  /** The bits below `n` are set, and no others. */
  predicate OnlyBelow(bmap: Bits, n: nat) {
    8 * |bmap| == BMAP_BITS && forall b :: 0 <= b < BMAP_BITS ==> (IsSet(bmap, b) <==> b < n)
  }

  /** What a format leaves: empty blocks, no references, the metadata blocks and inodes 0 and 1 taken, an
      empty root directory, and the cache entries as they were. */
  ghost predicate Formatted(s: Fs) {
    && Formed(s) && 0 < s.cache.max && |s.cache.entries| <= s.cache.max
    && (forall b :: 0 <= b < |s.cache.disk| ==> s.cache.disk[b] == Zeros()) && (forall b :: b in s.cache.entries ==> b < |s.cache.disk|)
    && (forall b :: 0 <= b < |s.refs| ==> s.refs[b] == 0)
    && OnlyBelow(s.bmap, FIRST_DATA) && OnlyBelow(s.ibmap, 2)
    && s.inodes[0].tipo == 0 && s.inodes[1] == Inode(FS_DIR, 0, NO_BLOCKS)
  }

  lemma EmptySums()
    ensures |EmptyUsage().dirs| == |EmptyUsage().slots| == INODES
    ensures forall b: nat :: FileSlots(EmptyUsage())[b] == 0 && DirSlots(EmptyUsage())[b] == 0
  {
    var u := EmptyUsage();
    forall b: nat ensures FileSlots(u)[b] == 0 && DirSlots(u)[b] == 0 {
      SumEmpty(Only(u, false));
      SumEmpty(Only(u, true));
    }
  }

  lemma {:induction false} SumEmpty(ss: seq<seq<nat>>)
    requires forall f :: 0 <= f < |ss| ==> ss[f] == []
    ensures Sum(ss) == multiset{}
  {
    if ss != [] { SumEmpty(ss[1..]); }
  }

  lemma FormattedAcc(s: Fs)
    requires Formatted(s)
    ensures Acc(s.bmap, s.refs, EmptyUsage())
  {
    hide IsSet, FileSlots, DirSlots;
    EmptySums();
    AccPut(s.bmap, s.refs, EmptyUsage());
  }

  lemma AccPut(bmap: Bits, refs: seq<Char>, u: Usage)
    requires Shaped(u) && InRange(u.slots) && |refs| >= NUM_BLOCOS_MAX && |u.dirs| == |u.slots|
    requires BitsOk(bmap, u) && RefsOk(refs, u) && DirsAlone(u)
    ensures Acc(bmap, refs, u)
  {
  }

  lemma {:induction false} NoneFrom(s: Fs, f: nat)
    requires Formed(s) && 2 <= f <= INODES && OnlyBelow(s.ibmap, 2)
    ensures InodesFrom(s, f) == 0 && EntriesFrom(s, f) == 0
    decreases INODES - f
  {
    if f < INODES { NoneFrom(s, f + 1); }
  }

  lemma FormattedCounts(s: Fs)
    requires Formatted(s)
    ensures Counted(s)
  {
    NoneFrom(s, 2);
    assert InodesFrom(s, 1) == 1 && InodesFrom(s, 0) == 2;
    assert EntriesFrom(s, 1) == 0 && EntriesFrom(s, 0) == 0;
  }

  lemma FormattedCore(s: Fs)
    requires Formatted(s) && forall b :: !HasValid(s.cache, b)
    ensures Core(s, EmptyUsage())
  {
    hide IsSet, FileSlots, DirSlots, BitsOk, RefsOk, DirsAlone;
    FormattedAcc(s);
    var u := EmptyUsage();
    TypesAfter(s);
    forall b | b in s.cache.entries ensures !s.cache.entries[b].valido { assert !HasValid(s.cache, b); }
    forall f | 0 <= f < INODES ensures LinkedInode(s, u, f) { assert u.slots[f] == []; }
    CorePut(s, u);
  }

  lemma TypesAfter(s: Fs)
    requires Formatted(s)
    ensures forall f :: 0 <= f < INODES ==> (IsType(s, f, FS_DIR) <==> f == 1) && !IsType(s, f, FS_FILE)
    ensures IsSet(s.ibmap, 0)
  {
  }

  /** A format gives a valid file system with nothing in it exactly if the cache has no valid entry. */
  lemma FormattedValid(s: Fs)
    requires Formatted(s)
    ensures FullInv(s, EmptyUsage()) <==> forall b :: !HasValid(s.cache, b)
    ensures FullInv(s, EmptyUsage()) ==> IsType(s, 1, FS_DIR) && Contents(s, EmptyUsage(), 1) == []
    ensures NoRepeat(EmptyUsage())
  {
    hide IsSet, FileSlots, DirSlots;
    var u := EmptyUsage();
    TypesAfter(s);
    if forall b :: !HasValid(s.cache, b) {
      FormattedCore(s);
      FormattedCounts(s);
      NoBlocks();
      FsInvPut(s);
      forall f | 0 <= f < INODES ensures DirOk(s, u, f) { }
    } else {
      var b :| HasValid(s.cache, b);
      EmptySums();
      assert !RawOk(s.cache, u);
    }
  }

  lemma FsInvPut(s: Fs)
    requires Formatted(s) && Core(s, EmptyUsage()) && Counted(s)
    ensures FsInv(s, EmptyUsage())
  {
    hide IsSet, FileSlots, DirSlots;
    EmptySums();
    TypesAfter(s);
    NoBlocks();
  }

  /** Tables of the right sizes, with inode 0 unused. */
  ghost predicate Tables(s: Fs, numBlocks: nat) {
    Formed(s) && 8 * |s.bmap| == BMAP_BITS && |s.cache.disk| == numBlocks && s.inodes[0].tipo == 0
  }
}
