/** Removing: the blocks and the inode of the file are given up, and the directory loses its last entry. */
module FileSystemRemove {
  import opened Wrappers
  import opened Block
  import opened CacheSpec
  import opened Bitmap
  import opened Accounting
  import opened FileSystemSpec
  import opened FileSystemSteps
  import opened FileSystemFacts
  import opened FileSystemTree
  import opened FileBytes
  import opened Directory

  // ---------- The directory's last block ----------

  /** The last block of directory `d` is deleted. */
  function LastDropped(s: Fs, u: Usage, d: nat): Fs
    requires Formed(s) && Shaped(u) && d < INODES && u.slots[d] != [] && u.slots[d][|u.slots[d]| - 1] < |s.refs| && u.slots[d][|u.slots[d]| - 1] < 8 * |s.bmap|
  {
    var n := |u.slots[d]| - 1;
    var b := u.slots[d][n];
    SetBlock(s, d, n, 0).(bmap := ClrBit(s.bmap, b), refs := s.refs[b := 0], cache := RawWrite(s.cache, b, Zeros()))
  }

  lemma LastDroppedCore(s: Fs, u: Usage, d: nat)
    requires Core(s, u) && IsType(s, d, FS_DIR) && d < |u.slots| && u.slots[d] != []
    ensures var n := |u.slots[d]| - 1;
      && u.slots[d][n] < |s.refs| && u.slots[d][n] < 8 * |s.bmap| && n < |s.inodes[d].blocks| && u.slots[d][n] == s.inodes[d].blocks[n]
      && s.refs[u.slots[d][n]] == 0
    ensures var n := |u.slots[d]| - 1;
      var s', u' := LastDropped(s, u, d), SetSlots(u, d, u.slots[d][..n]);
      && Core(s', u') && |u.dirs| == |u.slots| && (Fits(u) ==> Fits(u'))
      && |PagesFor(s', u')| == |PagesFor(s, u)| == INODES && n < |PagesFor(s, u)[d]| && PagesFor(s', u')[d] == PagesFor(s, u)[d][..n]
      && forall g :: 0 <= g < INODES && g != d ==> PagesFor(s', u')[g] == PagesFor(s, u)[g]
  {
    hide Core, Fits, Acc, Linked, CacheInv, RawOk, Roots, AllOnDisk, Logical, LogicalDisk, IsSet, ClrBit, FileSlots, DirSlots, RawWrite, AllPages;
    CoreParts(s, u);
    AccShape(s.bmap, s.refs, u);
    LinkedAt(s, u, d);
    PagesCount(s, u);
    var n := |u.slots[d]| - 1;
    var b := u.slots[d][n];
    DropLastAcc(s.bmap, s.refs, u, d);
    DirBlock(s, u, d, n);
    RawCore(s, u, b, Zeros());
    var c' := RawWrite(s.cache, b, Zeros());
    var s1 := s.(cache := c');
    CoreParts(s1, u);
    var s', u' := LastDropped(s, u, d), SetSlots(u, d, u.slots[d][..n]);
    assert u'.slots[d] == s.inodes[d].blocks[n := 0][..n];
    TableSlots(s1, s', u, d, n, 0, u'.slots[d]);
    SlotsDropLast(u, d);
    RawSame(c', u, u');
    CorePut(s', u');
    LastPages(LogicalDisk(s.cache), u, d);
  }

  lemma LastPages(dk: seq<Block>, u: Usage, d: nat)
    requires AllOnDisk(u, dk) && d < |u.slots| && u.slots[d] != [] && u.slots[d][|u.slots[d]| - 1] < |dk|
    requires var n := |u.slots[d]| - 1;
      forall g, j :: 0 <= g < |u.slots| && 0 <= j < |u.slots[g]| && (g != d || j != n) ==> u.slots[g][j] != u.slots[d][n]
    ensures var n := |u.slots[d]| - 1;
      var dk', u' := dk[u.slots[d][n] := Zeros()], SetSlots(u, d, u.slots[d][..n]);
      AllOnDisk(u', dk') && |AllPages(dk', u')| == |AllPages(dk, u)| == |u.slots| && n < |AllPages(dk, u)[d]| && AllPages(dk', u')[d] == AllPages(dk, u)[d][..n]
      && forall g :: 0 <= g < |u.slots| && g != d ==> AllPages(dk', u')[g] == AllPages(dk, u)[g]
  {
  }

  /** A metadata block may be written on the disk: it is in no slot. */
  lemma MetadataWrite(s: Fs, u: Usage, b: nat, page: Block)
    requires Core(s, u) && b < FIRST_DATA
    ensures b < |s.cache.disk|
    ensures Core(s.(cache := RawWrite(s.cache, b, page)), u) && PagesFor(s.(cache := RawWrite(s.cache, b, page)), u) == PagesFor(s, u)
  {
    hide Core, Linked, CacheInv, RawOk, Roots, Logical, LogicalDisk, IsSet, Only, RawWrite;
    CoreParts(s, u);
    AccShape(s.bmap, s.refs, u);
    forall f, k | 0 <= f < |u.slots| && 0 <= k < |u.slots[f]| ensures u.slots[f][k] != b { assert u.slots[f][k] >= FIRST_DATA; }
    Unnamed(u, b);
    RawCore(s, u, b, page);
    FreshWrite(LogicalDisk(s.cache), u, b, page);
  }

  // ---------- The whole removal ----------

  /** The state of a removal before the directory gets shorter and the inode is freed: the blocks of `id`
      are given up, and the directory has the pages for one entry less. */
  ghost predicate EntryDropped(s: Fs, u: Usage, s2: Fs, u2: Usage, d: nat, id: nat) {
    && FullInv(s, u) && Core(s2, u2) && IsType(s, d, FS_DIR) && s.inodes[d].size >= DENTRY && d != id && 2 <= id < INODES
    && |u2.dirs| == |u2.slots| && Fits(u2)
    && SameButBlocks(s, s2, d) && |u2.slots| == |u.slots| == INODES && u2.dirs == u.dirs && u2.slots[id] == []
    && (forall g :: 0 <= g < INODES && g != d && g != id ==> u2.slots[g] == u.slots[g] && PagesFor(s2, u2)[g] == PagesFor(s, u)[g])
    && TailZero(s2, u2, d) && |u2.slots[d]| == OffsetToBlocks(s.inodes[d].size - DENTRY)
    && SamePrefix(PagesFor(s, u)[d], PagesFor(s2, u2)[d], s.inodes[d].size - DENTRY)
    && (IsType(s, id, FS_DIR) ==> s.inodes[id].size == 0)
  }

  /** The first `n` bytes are the same. */
  predicate SamePrefix(ps: Pages, ps2: Pages, n: nat) {
    n <= BLOCK_SIZE * |ps| && n <= BLOCK_SIZE * |ps2| && Bytes(ps2, n) == Bytes(ps, n)
  }

  /** The state after a removal. */
  function Removed(s2: Fs, d: nat, id: nat): Fs
    requires d < |s2.inodes| && id < |s2.inodes| && id < 8 * |s2.ibmap| && s2.inodes[d].size >= DENTRY
  {
    var s3 := Resized(s2, d, s2.inodes[d].size - DENTRY);
    s3.(ibmap := ClrBit(s3.ibmap, id), inodes := s3.inodes[id := Inode(0, 0, NO_BLOCKS)])
  }

  lemma DroppedParts(s: Fs, u: Usage, s2: Fs, u2: Usage, d: nat, id: nat)
    requires EntryDropped(s, u, s2, u2, d, id)
    ensures FullInv(s, u) && FsInv(s, u) && Core(s2, u2) && Formed(s) && Formed(s2) && Shaped(u) && Shaped(u2) && IsType(s, d, FS_DIR)
    ensures s.inodes[d].size >= DENTRY && d != id && 2 <= id < INODES && SameButBlocks(s, s2, d) && u2.dirs == u.dirs
    ensures |u2.slots| == |u.slots| == |u.dirs| == INODES && u2.slots[id] == []
    ensures forall g :: 0 <= g < INODES && g != d && g != id ==> u2.slots[g] == u.slots[g]
    ensures |u2.slots[d]| == OffsetToBlocks(s.inodes[d].size - DENTRY) && (IsType(s, id, FS_DIR) ==> s.inodes[id].size == 0)
    ensures id < 8 * |s2.ibmap| && s.ibmap == s2.ibmap && Fits(u2)
  {
    hide Core, Fits, Sized, Counted, OffsetToBlocks, TailZero, IsSet, SamePrefix;
    FullParts(s, u);
    CoreParts(s2, u2);
    AccShape(s2.bmap, s2.refs, u2);
  }

  lemma DroppedPagesOf(s: Fs, u: Usage, s2: Fs, u2: Usage, d: nat, id: nat)
    requires EntryDropped(s, u, s2, u2, d, id)
    ensures Core(s, u) && |PagesFor(s, u)| == |PagesFor(s2, u2)| == INODES
    ensures forall g :: 0 <= g < INODES && g != d && g != id ==> PagesFor(s2, u2)[g] == PagesFor(s, u)[g]
    ensures SamePrefix(PagesFor(s, u)[d], PagesFor(s2, u2)[d], s.inodes[d].size - DENTRY) && TailZero(s2, u2, d)
  {
    hide Core, Fits, Sized, Counted, OffsetToBlocks, TailZero, IsSet, SamePrefix, LogicalDisk;
    FullParts(s, u);
  }

  lemma RemovedInodes(s2: Fs, d: nat, id: nat)
    requires |s2.inodes| == INODES && d < INODES && id < INODES && id != d && id < 8 * |s2.ibmap| && s2.inodes[d].size >= DENTRY
    ensures var s' := Removed(s2, d, id);
      && |s'.inodes| == INODES && s'.inodes[id] == Inode(0, 0, NO_BLOCKS) && s'.inodes[d] == s2.inodes[d].(size := s2.inodes[d].size - DENTRY)
      && (forall g :: 0 <= g < INODES && g != d && g != id ==> s'.inodes[g] == s2.inodes[g])
      && (forall g :: 0 <= g < 8 * |s2.ibmap| ==> (IsSet(s'.ibmap, g) <==> g != id && IsSet(s2.ibmap, g)))
  {
    hide IsSet, ClrBit;
    forall g | 0 <= g < 8 * |s2.ibmap| ensures IsSet(ClrBit(s2.ibmap, id), g) <==> g != id && IsSet(s2.ibmap, g) { ClrOnly(s2.ibmap, id, g); }
  }

  lemma FreedInodeCore(s: Fs, u: Usage, s': Fs, u': Usage, d: nat, id: nat)
    requires Core(s, u) && 2 <= id < INODES && d < INODES && id != d && |u.dirs| == |u.slots| == INODES && u.slots[id] == []
    requires Formed(s') && s' == s.(inodes := s'.inodes, ibmap := s'.ibmap) && u' == WithDir(u, id, false)
    requires s'.inodes[id].tipo == 0 && s'.inodes[d] == s.inodes[d].(size := s'.inodes[d].size)
    requires forall g :: 0 <= g < INODES && g != d && g != id ==> s'.inodes[g] == s.inodes[g]
    requires |s'.ibmap| == |s.ibmap| && forall g :: 0 <= g < INODES ==> (IsSet(s'.ibmap, g) <==> g != id && IsSet(s.ibmap, g))
    ensures Core(s', u') && PagesFor(s', u') == PagesFor(s, u)
    ensures forall g, t :: 0 <= g < INODES && g != id ==> IsType(s', g, t) == IsType(s, g, t)
    ensures !IsType(s', id, FS_FILE) && !IsType(s', id, FS_DIR)
  {
    hide CacheInv, LogicalDisk, BitsOk, RefsOk, DirsAlone, FileSlots, DirSlots, RawOk, IsSet;
    CoreParts(s, u);
    NewInodeAcc(s.bmap, s.refs, u, id, false);
    forall g | 0 <= g < INODES ensures LinkedInode(s', u', g) { assert LinkedInode(s, u, g); }
    RawSame(s.cache, u, u');
    assert AllPages(LogicalDisk(s.cache), u') == AllPages(LogicalDisk(s.cache), u);
  }

  /** One entry less, and at most one inode. */
  lemma {:induction false} CountsRemove(s: Fs, s': Fs, f: nat, d: nat, id: nat)
    requires Formed(s) && Formed(s') && f <= INODES && id < INODES && d < INODES && id != d
    requires forall g :: 0 <= g < INODES ==> (IsSet(s'.ibmap, g) <==> g != id && IsSet(s.ibmap, g))
    requires IsType(s, d, FS_DIR) && s'.inodes[d].tipo == FS_DIR && s.inodes[d].size >= DENTRY && s'.inodes[d].size == s.inodes[d].size - DENTRY
    requires IsType(s, id, FS_DIR) ==> s.inodes[id].size == 0
    requires forall g :: 0 <= g < INODES && g != d && g != id ==> s'.inodes[g] == s.inodes[g]
    ensures InodesFrom(s', f) == InodesFrom(s, f) - (if f <= id && IsSet(s.ibmap, id) then 1 else 0)
    ensures EntriesFrom(s', f) == EntriesFrom(s, f) - (if f <= d then 1 else 0)
    decreases INODES - f
  {
    hide IsSet;
    if f < INODES { CountsRemove(s, s', f + 1, d, id); }
  }

  /** A removal keeps the invariant of blocks, sizes and counts. */
  lemma RemovedFs(s: Fs, u: Usage, s2: Fs, u2: Usage, d: nat, id: nat)
    requires EntryDropped(s, u, s2, u2, d, id)
    ensures d < |s2.inodes| && id < |s2.inodes| && id < 8 * |s2.ibmap| && s2.inodes[d].size >= DENTRY && id < |u2.dirs|
    ensures var s', u' := Removed(s2, d, id), WithDir(u2, id, false);
      && FsInv(s', u') && PagesFor(s', u') == PagesFor(s2, u2)
      && !IsType(s', id, FS_FILE) && !IsType(s', id, FS_DIR)
      && forall g, t :: 0 <= g < INODES && g != id ==> IsType(s', g, t) == IsType(s, g, t)
  {
    hide Core, Fits, FileSlots, LogicalDisk, IsSet, Counted, Sized, ClrBit, EntryDropped, OffsetToBlocks, FullInv, Removed, PagesFor;
    DroppedParts(s, u, s2, u2, d, id);
    RemovedInodes(s2, d, id);
    CoreParts(s2, u2);
    NewInodeAcc(s2.bmap, s2.refs, u2, id, false);
    SameFits(u2, WithDir(u2, id, false));
    var s', u' := Removed(s2, d, id), WithDir(u2, id, false);
    RemovedForm(s2, d, id);
    FreedInodeCore(s2, u2, s', u', d, id);
    CoreParts(s', u');
    AccShape(s'.bmap, s'.refs, u');
    InvParts(s, u);
    RemovedCounted(s, u, s', d, id);
    RemovedSized(s, u, s', u', d, id);
    InvPut(s', u');
  }

  lemma RemovedForm(s2: Fs, d: nat, id: nat)
    requires Formed(s2) && d < INODES && id < INODES && id != d && id < 8 * |s2.ibmap| && s2.inodes[d].size >= DENTRY
    ensures var s' := Removed(s2, d, id); Formed(s') && s' == s2.(inodes := s'.inodes, ibmap := s'.ibmap) && |s'.ibmap| == |s2.ibmap|
  {
  }

  lemma RemovedCounted(s: Fs, u: Usage, s': Fs, d: nat, id: nat)
    requires FsInv(s, u) && Formed(s') && id < INODES && IsType(s, d, FS_DIR) && id != d && s.inodes[d].size >= DENTRY
    requires forall g :: 0 <= g < INODES ==> (IsSet(s'.ibmap, g) <==> g != id && IsSet(s.ibmap, g))
    requires s'.inodes[d].tipo == FS_DIR && s'.inodes[d].size == s.inodes[d].size - DENTRY && (IsType(s, id, FS_DIR) ==> s.inodes[id].size == 0)
    requires forall g :: 0 <= g < INODES && g != d && g != id ==> s'.inodes[g] == s.inodes[g]
    ensures Counted(s')
  {
    hide Core, Sized, IsSet, InodesFrom, EntriesFrom;
    InvParts(s, u);
    CountsRemove(s, s', 0, d, id);
  }

  lemma RemovedSized(s: Fs, u: Usage, s': Fs, u': Usage, d: nat, id: nat)
    requires FsInv(s, u) && Formed(s') && Shaped(u') && id < INODES && id != d && |u'.slots| == |u.slots| && IsType(s, d, FS_DIR)
    requires forall g, t :: 0 <= g < INODES && g != id ==> IsType(s', g, t) == IsType(s, g, t)
    requires !IsType(s', id, FS_FILE) && !IsType(s', id, FS_DIR) && s.inodes[d].size >= DENTRY && s'.inodes[d].size == s.inodes[d].size - DENTRY
    requires |u'.slots[d]| == OffsetToBlocks(s.inodes[d].size - DENTRY)
    requires forall g :: 0 <= g < INODES && g != d && g != id ==> s'.inodes[g] == s.inodes[g] && u'.slots[g] == u.slots[g]
    ensures Sized(s', u')
  {
    hide Core, Counted, IsSet, OffsetToBlocks;
    InvParts(s, u);
    SizeAt(s, u, d);
    forall g | 0 <= g < INODES ensures SizedInode(s', u', g) { assert SizedInode(s, u, g); }
  }

  /** What a removal leaves of the entries of a directory. */
  lemma EntriesSurvive(s: Fs, s': Fs, d: nat, id: nat, c: seq<Byte>, n: nat)
    requires Formed(s) && Formed(s') && EntriesOk(s, c) && n <= |c| && IsType(s, d, FS_DIR) && id < INODES
    requires s'.inodes[id].tipo == 0 && s'.inodes[id].size == 0
    requires forall g, t :: 0 <= g < INODES && g != id ==> IsType(s', g, t) == IsType(s, g, t)
    requires forall g :: 0 <= g < INODES && g != d && g != id ==> s'.inodes[g] == s.inodes[g]
    ensures EntriesOk(s', c[..n])
  {
    hide IsType;
    forall i | 0 <= i < |c[..n]| / DENTRY ensures EntryOk(s', EntryAt(c[..n], i)) {
      assert EntryAt(c[..n], i) == EntryAt(c, i);
      assert EntryOk(s, EntryAt(c, i));
      DirNotClean(s, d);
    }
  }

  lemma DirNotClean(s: Fs, d: nat)
    requires Formed(s) && IsType(s, d, FS_DIR)
    ensures s.inodes[d].tipo != 0
  {
  }

  lemma PrefixContents(ps: Pages, n: nat, m: nat)
    requires m <= n <= BLOCK_SIZE * |ps|
    ensures Bytes(ps, n)[..m] == Bytes(ps, m)
  {
  }

  lemma RemovedDir(s: Fs, u: Usage, s2: Fs, u2: Usage, d: nat, id: nat, s': Fs, u': Usage, g: nat)
    requires EntryDropped(s, u, s2, u2, d, id) && |s2.inodes| == INODES && id < 8 * |s2.ibmap| && s2.inodes[d].size >= DENTRY && id < |u2.dirs|
    requires s' == Removed(s2, d, id) && u' == WithDir(u2, id, false) && FsInv(s', u') && PagesFor(s', u') == PagesFor(s2, u2)
    requires forall h, t :: 0 <= h < INODES && h != id ==> IsType(s', h, t) == IsType(s, h, t)
    requires !IsType(s', id, FS_DIR) && g < INODES
    ensures FsModulo(s', u') && DirOk(s', u', g)
    ensures g == d ==> IsType(s', d, FS_DIR) && Contents(s', u', d) == Contents(s, u, d)[..s.inodes[d].size - DENTRY]
  {
    hide Core, Fits, LogicalDisk, IsSet, Counted, Sized, EntryDropped, OffsetToBlocks, Removed, PagesFor, EntriesOk, Bytes, IsType, UniqueNames;
    DroppedParts(s, u, s2, u2, d, id);
    DroppedPagesOf(s, u, s2, u2, d, id);
    FullParts(s, u);
    InvParts(s', u');
    RemovedInodes(s2, d, id);
    if g != id && IsType(s', g, FS_DIR) {
      assert DirOk(s, u, g);
      DirPages(s, u, g);
      DirPages(s', u', g);
      var n := if g == d then s.inodes[d].size - DENTRY else s.inodes[g].size;
      PrefixContents(PagesFor(s, u)[g], s.inodes[g].size, n);
      EntriesSurvive(s, s', d, id, Contents(s, u, g), n);
      UniquePrefix(Contents(s, u, g), n);
      assert Contents(s', u', g) == Contents(s, u, g)[..n];
    }
  }

  /** What a removal does: the inode is free and empty, the directory has lost its last entry, and no other
      inode changed. */
  ghost predicate IsRemoved(s: Fs, u: Usage, s': Fs, u': Usage, d: nat, id: nat) {
    && FullInv(s, u) && FullInv(s', u') && IsType(s, d, FS_DIR) && IsType(s', d, FS_DIR) && id < INODES && id != d
    && !IsSet(s'.ibmap, id) && s'.inodes[id] == Inode(0, 0, NO_BLOCKS)
    && s.inodes[d].size >= DENTRY && Contents(s', u', d) == Contents(s, u, d)[..s.inodes[d].size - DENTRY]
    && |PagesFor(s, u)| == |PagesFor(s', u')| == INODES
    && forall g :: 0 <= g < INODES && g != id ==>
      && (IsSet(s'.ibmap, g) <==> IsSet(s.ibmap, g))
      && (g != d ==> s'.inodes[g] == s.inodes[g] && PagesFor(s', u')[g] == PagesFor(s, u)[g])
  }

  lemma RemovedIs(s: Fs, u: Usage, s2: Fs, u2: Usage, d: nat, id: nat)
    requires EntryDropped(s, u, s2, u2, d, id)
    ensures d < |s2.inodes| && id < |s2.inodes| && id < 8 * |s2.ibmap| && s2.inodes[d].size >= DENTRY && id < |u2.dirs|
    ensures FullInv(Removed(s2, d, id), WithDir(u2, id, false))
    ensures IsRemoved(s, u, Removed(s2, d, id), WithDir(u2, id, false), d, id)
    ensures NoRepeat(u2) ==> NoRepeat(WithDir(u2, id, false))
  {
    hide Core, Fits, LogicalDisk, IsSet, Counted, Sized, EntryDropped, Removed, PagesFor, Contents, IsType, DirOk;
    DroppedParts(s, u, s2, u2, d, id);
    DroppedPagesOf(s, u, s2, u2, d, id);
    RemovedFs(s, u, s2, u2, d, id);
    RemovedInodes(s2, d, id);
    var s', u' := Removed(s2, d, id), WithDir(u2, id, false);
    forall g | 0 <= g < INODES ensures DirOk(s', u', g) { RemovedDir(s, u, s2, u2, d, id, s', u', g); }
    RemovedDir(s, u, s2, u2, d, id, s', u', d);
    assert u'.slots == u2.slots;
  }

  /** The directory leads to nothing under the name now exactly if that was the name of its last entry. */
  ghost predicate NameGone(s: Fs, u: Usage, s': Fs, u': Usage, d: nat, nome: seq<Byte>) {
    && FsModulo(s, u) && FsModulo(s', u') && IsType(s, d, FS_DIR) && IsType(s', d, FS_DIR)
    && s.inodes[d].size >= DENTRY && s.inodes[d].size % DENTRY == 0
    && (Search(Contents(s', u', d), nome, 0) == None <==> LastName(Contents(s, u, d)) == nome)
  }

  /** After a removal the directory leads to nothing under the removed name exactly if that was the name of
      its last entry. */
  lemma RemovedName(s: Fs, u: Usage, s': Fs, u': Usage, d: nat, id: nat, nome: seq<Byte>)
    requires IsRemoved(s, u, s', u', d, id) && Search(Contents(s, u, d), nome, 0).Some?
    ensures NameGone(s, u, s', u', d, nome)
  {
    hide Core, Fits, LogicalDisk, IsSet, Counted, Sized, PagesFor, Search, Bytes, UniqueNames, EntryName;
    FullParts(s, u);
    FullParts(s', u');
    DirPages(s, u, d);
    assert DirOk(s, u, d);
    RemovedExactly(Contents(s, u, d), nome);
  }

  // ---------- The way there ----------

  /** The blocks of inode `id` are given up, and nothing else changed. */
  ghost predicate BlocksGone(s: Fs, u: Usage, s1: Fs, u1: Usage, id: nat) {
    && FullInv(s, u) && Core(s1, u1) && 2 <= id < INODES && s1.inodes == s.inodes && s1.ibmap == s.ibmap && |s1.refs| == |s.refs|
    && |u.slots| == |u.dirs| == INODES && u1 == SetSlots(u, id, []) && Fits(u1)
    && |PagesFor(s, u)| == |PagesFor(s1, u1)| == INODES && forall g :: 0 <= g < INODES && g != id ==> PagesFor(s1, u1)[g] == PagesFor(s, u)[g]
  }

  /** A name found in a directory leads to an inode that is in use, or to one that is clean. */
  lemma FoundInode(s: Fs, u: Usage, d: nat, nome: seq<Byte>)
    requires FullInv(s, u) && IsType(s, d, FS_DIR) && Search(Contents(s, u, d), nome, 0).Some?
    ensures var id := Search(Contents(s, u, d), nome, 0).value;
      && 2 <= id < INODES && s.inodes[d].size >= DENTRY
      && (IsType(s, id, FS_FILE) || IsType(s, id, FS_DIR) || (s.inodes[id].tipo == 0 && s.inodes[id].size == 0))
      && (OffsetToBlocks(s.inodes[id].size) > 0 && !IsType(s, id, FS_DIR) ==> IsType(s, id, FS_FILE))
      && (OffsetToBlocks(s.inodes[id].size) == 0 ==> s.inodes[id].size == 0 && |u.slots| == INODES && u.slots[id] == [])
      && (s.inodes[id].tipo == FS_DIR ==> IsType(s, id, FS_DIR))
  {
    hide Core, Fits, Sized, Counted, IsSet, LogicalDisk, EntryName, Bytes;
    FullParts(s, u);
    DirPages(s, u, d);
    var c := Contents(s, u, d);
    var k := SearchWhere(c, nome, 0);
    assert DirOk(s, u, d);
    assert EntryOk(s, EntryAt(c, k));
    var id := IdOf(EntryAt(c, k));
    CoreParts(s, u);
    if OffsetToBlocks(s.inodes[id].size) == 0 { Unused(s, u, id); }
    NoBlocks();
  }

  lemma Unused(s: Fs, u: Usage, id: nat)
    requires FsInv(s, u) && id < INODES && OffsetToBlocks(s.inodes[id].size) == 0
    ensures s.inodes[id].size == 0 && |u.slots| == INODES && u.slots[id] == []
  {
    InvParts(s, u);
    CoreParts(s, u);
    hide Core, Counted, IsSet, Acc, RawOk, Roots, CacheInv;
    assert LinkedInode(s, u, id) by { LinkedOf(s, u, id); }
    assert SizedInode(s, u, id);
    SizeFits(s.inodes[id].size);
  }

  lemma LinkedOf(s: Fs, u: Usage, id: nat)
    requires Core(s, u) && id < INODES
    ensures LinkedInode(s, u, id)
  {
  }

  lemma EntryBlocks(size: nat)
    requires size % DENTRY == 0 && DENTRY <= size <= DENTRY * 62
    ensures var num := size / DENTRY;
      var last := num / PAGE_ENTRIES;
      && (num == 1 ==> OffsetToBlocks(size) == 1 && OffsetToBlocks(size - DENTRY) == 0)
      && (num > 1 && last == 0 ==> OffsetToBlocks(size) == 1 == OffsetToBlocks(size - DENTRY) && (size - DENTRY) / BLOCK_SIZE == 0)
      && (num > 1 && last == 0 ==> (size - DENTRY) % BLOCK_SIZE == DENTRY * (num - 1) && DENTRY * num <= BLOCK_SIZE)
      && (last > 0 ==> last == 1 && (num - 1) % (last * PAGE_ENTRIES) == (num - 1) % PAGE_ENTRIES)
      && (num == 32 ==> OffsetToBlocks(size) == 1 == OffsetToBlocks(size - DENTRY) && (num - 1) % PAGE_ENTRIES != 0)
      && (num == 33 ==> OffsetToBlocks(size) == 2 && OffsetToBlocks(size - DENTRY) == 1)
      && (last > 0 && (num - 1) % PAGE_ENTRIES == 0 ==> num == 33)
      && (num > 33 ==> OffsetToBlocks(size) == 2 == OffsetToBlocks(size - DENTRY) && (size - DENTRY) / BLOCK_SIZE == 1)
      && (num > 33 ==> (size - DENTRY) % BLOCK_SIZE == DENTRY * ((num - 1) % PAGE_ENTRIES))
      && DENTRY * ((num - 1) % PAGE_ENTRIES) + DENTRY <= BLOCK_SIZE
  {
  }

  /** A page without its entry at `off`: no name, and no inode. */
  function Cleared(page: Block, off: nat): (r: Block)
    requires off + DENTRY <= BLOCK_SIZE
  {
    page[off := 0][off + NAME := 255][off + NAME + 1 := 255]
  }

  lemma ClearedPrefix(ps: Pages, n: nat, k: nat, off: nat)
    requires n <= BLOCK_SIZE * |ps| && k < |ps| && k == n / BLOCK_SIZE && off == n % BLOCK_SIZE && off + DENTRY <= BLOCK_SIZE
    ensures SamePrefix(ps, ps[k := Cleared(ps[k], off)], n)
  {
    var ps2: Pages := ps[k := Cleared(ps[k], off)];
    forall p | 0 <= p < n ensures ByteAt(ps2, p) == ByteAt(ps, p) { }
  }

  /** The directory's last page is freed with its only entry. */
  lemma DropLastEntry(s: Fs, u: Usage, s1: Fs, u1: Usage, d: nat, id: nat)
    requires BlocksGone(s, u, s1, u1, id) && IsType(s, d, FS_DIR) && d != id && s.inodes[d].size >= DENTRY && (IsType(s, id, FS_DIR) ==> s.inodes[id].size == 0)
    requires OffsetToBlocks(s.inodes[d].size - DENTRY) + 1 == OffsetToBlocks(s.inodes[d].size)
    ensures IsType(s1, d, FS_DIR) && d < |u1.slots| && u1.slots[d] != [] && |u1.slots[d]| == OffsetToBlocks(s.inodes[d].size)
    ensures u1.slots[d][|u1.slots[d]| - 1] < |s1.refs| && u1.slots[d][|u1.slots[d]| - 1] < 8 * |s1.bmap|
    ensures var u2 := SetSlots(u1, d, u1.slots[d][..|u1.slots[d]| - 1]);
      Core(LastDropped(s1, u1, d), u2) && EntryDropped(s, u, LastDropped(s1, u1, d), u2, d, id)
  {
    hide Core, Fits, Sized, Counted, IsSet, LogicalDisk, Bytes, ClrBit, RawWrite, EntriesOk, PagesFor, OffsetToBlocks;
    FullParts(s, u);
    DirPages(s, u, d);
    SizeAt(s, u, d);
    CoreParts(s1, u1);
    PagesCount(s, u);
    LastDroppedCore(s1, u1, d);
    SizeFits(s.inodes[d].size - DENTRY);
    assert DirOk(s, u, d);
    DropPrefix(PagesFor(s, u)[d], s.inodes[d].size - DENTRY);
    var s2 := LastDropped(s1, u1, d);
    assert s2.inodes == s.inodes[d := s.inodes[d].(blocks := s2.inodes[d].blocks)];
  }

  lemma DropPrefix(ps: Pages, n: nat)
    requires |ps| == OffsetToBlocks(n) + 1
    ensures SamePrefix(ps, ps[..|ps| - 1], n)
  {
    SizeFits(n);
    forall p | 0 <= p < n ensures ByteAt(ps[..|ps| - 1], p) == ByteAt(ps, p) { }
  }

  /** The last entry is cleared in its page. */
  lemma ClearLastEntry(s: Fs, u: Usage, s1: Fs, u1: Usage, d: nat, id: nat, k: nat, off: nat)
    requires BlocksGone(s, u, s1, u1, id) && IsType(s, d, FS_DIR) && d != id && s.inodes[d].size >= DENTRY && (IsType(s, id, FS_DIR) ==> s.inodes[id].size == 0)
    requires OffsetToBlocks(s.inodes[d].size - DENTRY) == OffsetToBlocks(s.inodes[d].size)
    requires k < OffsetToBlocks(s.inodes[d].size) && k == (s.inodes[d].size - DENTRY) / BLOCK_SIZE && off == (s.inodes[d].size - DENTRY) % BLOCK_SIZE
    requires off + DENTRY <= BLOCK_SIZE
    ensures IsType(s1, d, FS_DIR) && d < |u1.slots| && k < |u1.slots[d]| && u1.slots[d][k] < |s1.cache.disk| && k < |s1.inodes[d].blocks| && u1.slots[d][k] == s1.inodes[d].blocks[k]
    ensures var b := u1.slots[d][k];
      var s2 := s1.(cache := RawWrite(s1.cache, b, Cleared(s1.cache.disk[b], off)));
      Core(s2, u1) && EntryDropped(s, u, s2, u1, d, id)
  {
    hide Core, Fits, Sized, Counted, IsSet, LogicalDisk, Bytes, ClrBit, RawWrite, EntriesOk, PagesFor, OffsetToBlocks, Cleared;
    FullParts(s, u);
    DirPages(s, u, d);
    SizeAt(s, u, d);
    CoreParts(s1, u1);
    PagesCount(s, u);
    PagesCount(s1, u1);
    DirPageCore(s1, u1, d, k, Zeros());
    DirPageCore(s1, u1, d, k, Cleared(s1.cache.disk[u1.slots[d][k]], off));
    ClearedPrefix(PagesFor(s, u)[d], s.inodes[d].size - DENTRY, k, off);
    assert DirOk(s, u, d);
    var i := s.inodes[d];
    assert s.inodes[d := i.(blocks := i.blocks)] == s.inodes;
  }

  /** With 32 entries the wrong block is looked at: slot 1, which is zero, so a metadata block is written,
      and the directory's own page stays as it is. */
  lemma ClearWrongBlock(s: Fs, u: Usage, s1: Fs, u1: Usage, d: nat, id: nat, page: Block)
    requires BlocksGone(s, u, s1, u1, id) && IsType(s, d, FS_DIR) && d != id && s.inodes[d].size == DENTRY * 32 && (IsType(s, id, FS_DIR) ==> s.inodes[id].size == 0)
    ensures d < |s1.inodes| && 1 < |s1.inodes[d].blocks| && s1.inodes[d].blocks[1] == 0 && 0 < |s1.cache.disk|
    ensures var s2 := s1.(cache := RawWrite(s1.cache, 0, page));
      Core(s2, u1) && EntryDropped(s, u, s2, u1, d, id)
  {
    hide Core, Fits, Sized, Counted, IsSet, LogicalDisk, Bytes, RawWrite, EntriesOk, PagesFor;
    FullParts(s, u);
    DirPages(s, u, d);
    SizeAt(s, u, d);
    CoreParts(s1, u1);
    PagesCount(s, u);
    MetadataWrite(s1, u1, 0, page);
    assert DirOk(s, u, d);
    var i := s.inodes[d];
    assert s.inodes[d := i.(blocks := i.blocks)] == s.inodes;
  }

  /** When a removal succeeds: a name that is there, of a file or of a directory without entries. */
  ghost predicate CanRemove(s: Fs, u: Usage, d: nat, nome: seq<Byte>) {
    && FullInv(s, u) && 0 < |nome| < NAME && IsType(s, d, FS_DIR)
    && match Search(Contents(s, u, d), nome, 0)
       case None => false
       case Some(id) => id < |s.inodes| && (s.inodes[id].tipo == FS_DIR ==> s.inodes[id].size == 0)
  }

  lemma ClearedRepeat(u: Usage, f: nat)
    requires f < |u.slots|
    ensures NoRepeat(u) ==> NoRepeat(SetSlots(u, f, []))
  {
    if NoRepeat(u) {
      forall g | 0 <= g < |u.slots| ensures Distinct(SetSlots(u, f, []).slots[g]) { assert Distinct(u.slots[g]); }
    }
  }

  lemma ShorterRepeat(u: Usage, f: nat)
    requires f < |u.slots| && u.slots[f] != []
    ensures NoRepeat(u) ==> NoRepeat(SetSlots(u, f, u.slots[f][..|u.slots[f]| - 1]))
  {
    var u' := SetSlots(u, f, u.slots[f][..|u.slots[f]| - 1]);
    if NoRepeat(u) {
      forall g | 0 <= g < |u'.slots| ensures Distinct(u'.slots[g]) { assert Distinct(u.slots[g]); }
    }
  }
}
