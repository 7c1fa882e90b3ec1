/** What the operations of the file system leave as it was, and what their steps add up to. */
module FileSystemFacts {
  import opened Block
  import opened CacheSpec
  import opened Bitmap
  import opened Accounting
  import opened FileSystemSpec
  import opened FileSystemSteps
  import opened FileBytes
  import opened FileTwins

  lemma SomeFreeBlock(s: Fs, u: Usage) returns (b: nat)
    requires Core(s, u)
    ensures 8 * |s.bmap| == BMAP_BITS && FIRST_DATA <= b < NUM_BLOCOS_MAX && !IsSet(s.bmap, b)
  {
    CoreParts(s, u);
    b := SomeFree(s.bmap, s.refs, u);
  }

  /** The metadata blocks are taken. */
  lemma TakenBelow(s: Fs, u: Usage)
    requires Core(s, u)
    ensures 8 * |s.bmap| == BMAP_BITS && forall b :: 0 <= b < 8 * |s.bmap| && !IsSet(s.bmap, b) ==> b >= FIRST_DATA
  {
    hide IsSet;
  }

  /** The first slot of an inode with the same block as slot `k`. */
  ghost predicate OwnSlot(u: Usage, f: nat, k: nat, kk: nat) {
    && f < |u.slots| && kk <= k < |u.slots[f]| && u.slots[f][kk] == u.slots[f][k]
    && forall i :: 0 <= i < kk ==> u.slots[f][i] != u.slots[f][k]
  }

  ghost predicate FreshBlock(u: Usage, b: int) {
    forall f, k :: 0 <= f < |u.slots| && 0 <= k < |u.slots[f]| ==> u.slots[f][k] != b
  }

  /** Nothing in the inode table changed but the block slots of inode `f`. */
  ghost predicate SameButBlocks(s: Fs, s': Fs, f: nat) {
    && s'.ibmap == s.ibmap && |s'.inodes| == |s.inodes| && f < |s.inodes| && |s'.refs| == |s.refs|
    && s'.inodes == s.inodes[f := s.inodes[f].(blocks := s'.inodes[f].blocks)]
  }

  lemma SlotReferenced(s: Fs, u: Usage, f: nat, k: nat)
    requires Core(s, u) && |u.dirs| == |u.slots| && Fits(u) && IsType(s, f, FS_FILE) && f < INODES && f < |u.slots| && k < |u.slots[f]|
    ensures u.slots[f][k] < |s.refs| && s.refs[u.slots[f][k]] > 0
  {
    hide Fits;
    FileOnly(s, u, f);
    CountIs(s.bmap, s.refs, u, u.slots[f][k]);
    SlotCounted(u, f, k);
  }

  /** Whether the count of a block makes the code copy it before it is written. */
  predicate Copied(refs: seq<Char>, b: nat)
    requires b < |refs|
  {
    refs[b] != 0 && refs[b] != 1
  }

  /** One page changed: that of the first slot of the file with the block of slot `k`, which has its block alone now. */
  ghost predicate OnePage(v: Usage, u: Usage, ps: seq<Pages>, ps': seq<Pages>, f: nat, k: nat, kk: nat, x: Block) {
    && OwnSlot(v, f, k, kk) && f < |ps| && kk < |ps[f]| && ps' == WithPage(ps, f, kk, x)
    && f < |u.slots| && kk < |u.slots[f]| && Alone(u, f, kk)
  }

  /** The pages of all slots with block `b` changed. */
  ghost predicate InAllSlots(u: Usage, ps: seq<Pages>, ps': seq<Pages>, b: nat, x: Block) {
    |ps| == |u.slots| && (forall g :: 0 <= g < |ps| ==> |ps[g]| == |u.slots[g]|) && ps' == Everywhere(ps, u, b, x)
  }

  /** A count that has not wrapped around tells whether others have the block. */
  lemma CountTells(s: Fs, u: Usage, f: nat, k: nat)
    requires Core(s, u) && |u.dirs| == |u.slots| && Fits(u) && IsType(s, f, FS_FILE) && f < |u.slots| && k < |u.slots[f]|
    ensures u.slots[f][k] < |s.refs| && (Copied(s.refs, u.slots[f][k]) || Alone(u, f, k))
  {
    hide Fits;
    CoreParts(s, u);
    AccShape(s.bmap, s.refs, u);
    FileOnly(s, u, f);
    SlotReferenced(s, u, f, k);
    if s.refs[u.slots[f][k]] == 1 { SoleOwner(s.bmap, s.refs, u, f, k); }
  }

  /** A slot with a fresh block has it alone. */
  lemma FreshAlone(u: Usage, f: nat, k: nat, b: nat)
    requires f < |u.slots| && k < |u.slots[f]| && FreshBlock(u, b)
    ensures Alone(SetSlots(u, f, u.slots[f][k := b]), f, k)
  {
  }

  lemma AloneOwn(u: Usage, f: nat, k: nat)
    requires f < |u.slots| && k < |u.slots[f]| && Alone(u, f, k)
    ensures OwnSlot(u, f, k, k)
  {
  }

  lemma FreshUnnamed(s: Fs, u: Usage, b: nat)
    requires Core(s, u) && b < 8 * |s.bmap| && !IsSet(s.bmap, b)
    ensures FreshBlock(u, b)
  {
    CoreParts(s, u);
    AccShape(s.bmap, s.refs, u);
    FreeUnnamed(s.bmap, s.refs, u, b);
  }

  lemma SamePage(ps: seq<Pages>, f: nat, k: nat, x: Block, y: Block)
    requires f < |ps| && k < |ps[f]| && ps[f][k] == y
    ensures WithPage(WithPage(ps, f, k, x), f, k, y) == ps
  {
    var p: Pages := ps[f];
    assert p[k := x][k := y] == p;
  }

  lemma NoRepeatFresh(u: Usage, u': Usage, f: nat, k: nat, b: int)
    requires f < |u.slots| && k < |u.slots[f]|
    requires u' == u || (0 <= b && u' == SetSlots(u, f, u.slots[f][k := b]) && FreshBlock(u, b))
    ensures f < |u'.slots| && u' == SetSlots(u, f, u'.slots[f]) && |u'.slots[f]| == |u.slots[f]|
    ensures NoRepeat(u) ==> NoRepeat(u')
    ensures Distinct(u.slots[f]) ==> Distinct(u'.slots[f])
  {
    if NoRepeat(u) && u' != u {
      forall g | 0 <= g < |u'.slots| ensures Distinct(u'.slots[g]) { assert Distinct(u.slots[g]); }
    }
  }

  lemma InvParts(s: Fs, u: Usage)
    requires FsInv(s, u)
    ensures Core(s, u) && Formed(s) && Shaped(u) && Sized(s, u) && Counted(s) && FsModulo(s, u) && Fits(u)
  {
  }

  lemma ModuloParts(s: Fs, u: Usage)
    requires FsModulo(s, u)
    ensures Core(s, u) && Formed(s) && Shaped(u) && Sized(s, u) && Counted(s)
  {
  }

  lemma SizeAt(s: Fs, u: Usage, f: nat)
    requires FsModulo(s, u) && (IsType(s, f, FS_FILE) || IsType(s, f, FS_DIR))
    ensures s.inodes[f].size <= MAX_SIZE && |u.slots[f]| == OffsetToBlocks(s.inodes[f].size)
    ensures s.inodes[f].size <= BLOCK_SIZE * |u.slots[f]|
  {
    hide Core, Counted, IsSet;
    ModuloParts(s, u);
    assert SizedInode(s, u, f);
    SizeFits(s.inodes[f].size);
  }

  /** Sizes and entries depend on the inode table only. */
  lemma InvCache(s: Fs, u: Usage, s': Fs)
    requires FsInv(s, u) && Core(s', u) && s'.inodes == s.inodes && s'.ibmap == s.ibmap
    ensures FsInv(s', u)
  {
    hide Core, Fits, IsSet, InodesFrom, EntriesFrom;
    InvParts(s, u);
    CoreParts(s', u);
    CountsSame(s, s', 0);
    forall f | 0 <= f < INODES ensures SizedInode(s', u, f) { assert SizedInode(s, u, f); }
  }

  lemma {:induction false} CountsSame(s: Fs, s': Fs, f: nat)
    requires Formed(s) && Formed(s') && f <= INODES && s'.ibmap == s.ibmap
    requires forall g :: f <= g < INODES ==> s'.inodes[g].tipo == s.inodes[g].tipo
    requires forall g :: f <= g < INODES && IsType(s, g, FS_DIR) ==> s'.inodes[g].size == s.inodes[g].size
    ensures InodesFrom(s', f) == InodesFrom(s, f) && EntriesFrom(s', f) == EntriesFrom(s, f)
    decreases INODES - f
  {
    if f < INODES { CountsSame(s, s', f + 1); }
  }

  lemma ReadSlice(ps: Pages, size: nat, offset: nat, count: nat, buffer: seq<Byte>)
    requires offset < size <= BLOCK_SIZE * |ps| && |buffer| == (if count <= size - offset then count else size - offset)
    requires IsRead(ps, offset, buffer)
    ensures buffer == Slice(Bytes(ps, size), offset, count)
  {
  }

  lemma ReadNothing(ps: Pages, offset: nat, max: nat)
    requires offset <= BLOCK_SIZE * |ps|
    ensures IsRead(ps, offset, []) && AtBlock(offset, 0, max, offset / BLOCK_SIZE)
  {
  }

  lemma StillAt(offset: nat, pos: nat, max: nat, iblock: nat)
    requires AtBlock(offset, pos, max, iblock) && pos < max
    ensures iblock == (offset + pos) / BLOCK_SIZE
  {
  }

  /** The loop over the blocks in use ends when everything is read. */
  lemma ReadAll(offset: nat, pos: nat, max: nat, iblock: nat, size: nat)
    requires AtBlock(offset, pos, max, iblock) && offset + max <= size && pos <= max && (pos >= max || iblock >= OffsetToBlocks(size))
    ensures pos == max
  {
    if pos < max { BlockWithin(offset + pos, size); }
  }

  lemma SameTrans(a: Fs, b: Fs, c: Fs, f: nat)
    requires SameButBlocks(a, b, f) && SameButBlocks(b, c, f)
    ensures SameButBlocks(a, c, f)
  {
  }

  /** The block that was reserved is in no other slot. */
  lemma ReservedFresh(u: Usage, f: nat, b: nat)
    requires FreshBlock(u, b) && f < |u.slots|
    ensures NoRepeat(u) ==> NoRepeat(SetSlots(u, f, u.slots[f] + [b]))
    ensures Distinct(u.slots[f]) ==> Distinct(u.slots[f] + [b])
  {
    var u' := SetSlots(u, f, u.slots[f] + [b]);
    if NoRepeat(u) {
      forall g | 0 <= g < |u'.slots| ensures Distinct(u'.slots[g]) { assert Distinct(u.slots[g]); }
    }
  }

  lemma AloneRow(u: Usage, f: nat, k: nat)
    requires f < |u.slots| && k < |u.slots[f]| && Alone(u, f, k)
    ensures RowAlone(u.slots[f], k)
  {
  }

  /** Slots that name the same block have the same page. */
  lemma ConsistentPages(s: Fs, u: Usage, f: nat)
    requires Core(s, u) && f < |u.slots|
    ensures |PagesFor(s, u)| == |u.slots| && Consistent(u.slots[f], PagesFor(s, u)[f])
  {
    hide Acc, Linked, RawOk, Roots, CacheInv, LogicalDisk;
    CoreOnDisk(s, u);
  }

  lemma StartAt(offset: nat, count: nat)
    ensures AtBlock(offset, 0, count, offset / BLOCK_SIZE)
  {
  }

  /** Behind the blocks in use the writing goes on at the beginning of a block. */
  lemma BeyondEnd(offset: nat, num: nat, count: nat, iblock: nat, size: nat)
    requires AtBlock(offset, num, count, iblock) && num < count && iblock >= OffsetToBlocks(size) && offset <= size
    ensures (offset + num) % BLOCK_SIZE == 0
  {
  }

  /** How many blocks a write needs, with the wrap-around of the end position. */
  lemma NeededBlocks(size: nat, offset: nat, count: nat)
    requires offset <= size <= MAX_SIZE && count < U32
    ensures var used, total := OffsetToBlocks(size), OffsetToBlocks((offset + count) % U32);
      var req := (if total >= used then total else used) - used;
      && used <= INODE_NUM_BLKS
      && (offset + count >= U32 ==> req == 0 && offset + count > BLOCK_SIZE * used)
      && (offset + count < U32 ==>
           && (req > INODE_NUM_BLKS - used <==> offset + count > MAX_SIZE) && offset + count <= BLOCK_SIZE * (used + req)
           && OffsetToBlocks(if offset + count >= size then offset + count else size) == used + req)
  {
    if offset + count < U32 {
      assert (offset + count) % U32 == offset + count;
      if offset + count <= size { SmallerBlocks(offset + count, size); } else { SmallerBlocks(size, offset + count); }
    } else {
      assert (offset + count) % U32 == offset + count - U32;
      SmallerBlocks(offset + count - U32, size);
    }
  }

  lemma SmallerBlocks(a: nat, b: nat)
    requires a <= b
    ensures OffsetToBlocks(a) <= OffsetToBlocks(b)
  {
  }

  function Resized(s: Fs, f: nat, size: nat): Fs
    requires f < |s.inodes|
  {
    s.(inodes := s.inodes[f := s.inodes[f].(size := size)])
  }

  /** A file's new size, when its slots fit it. */
  lemma ResizedInv(s0: Fs, u0: Usage, s: Fs, u: Usage, f: nat, size: nat)
    requires FsInv(s0, u0) && Core(s, u) && SameButBlocks(s0, s, f) && IsType(s, f, FS_FILE) && size <= MAX_SIZE
    requires |u.slots| == |u0.slots| && f < |u.slots| && |u.slots[f]| == OffsetToBlocks(size)
    requires forall g :: 0 <= g < |u.slots| && g != f ==> u.slots[g] == u0.slots[g]
    ensures FsModulo(Resized(s, f, size), u)
  {
    hide Core, Fits, IsSet, OffsetToBlocks, InodesFrom, EntriesFrom;
    CoreParts(s, u);
    InvParts(s0, u0);
    AccShape(s.bmap, s.refs, u);
    var s' := Resized(s, f, size);
    ResizedCore(s, u, f, size);
    CountsSame(s0, s', 0);
    forall g | 0 <= g < INODES ensures SizedInode(s', u, g) { assert SizedInode(s0, u0, g); }
  }

  lemma ResizedCore(s: Fs, u: Usage, f: nat, size: nat)
    requires Core(s, u) && f < INODES
    ensures Core(Resized(s, f, size), u)
  {
    hide BitsOk, RefsOk, DirsAlone, RawOk, CacheInv, IsSet;
    var s' := Resized(s, f, size);
    forall g | 0 <= g < INODES ensures LinkedInode(s', u, g) { assert LinkedInode(s, u, g); }
  }

  ghost function PagesFor(s: Fs, u: Usage): seq<Pages>
    requires Core(s, u)
  {
    CoreOnDisk(s, u);
    AllPages(LogicalDisk(s.cache), u)
  }

  /** No inode but `f` changed, neither in the table nor in its pages. */
  ghost predicate OthersKept(s: Fs, u: Usage, s': Fs, u': Usage, f: nat) {
    && Core(s, u) && Core(s', u') && |u.slots| == |u'.slots| == INODES && s'.ibmap == s.ibmap
    && forall g :: 0 <= g < INODES && g != f ==> s'.inodes[g] == s.inodes[g] && PagesFor(s', u')[g] == PagesFor(s, u)[g]
  }

  /** So their contents are as before. */
  lemma OthersContents(s: Fs, u: Usage, s': Fs, u': Usage, f: nat, g: nat)
    requires FsModulo(s, u) && FsModulo(s', u') && OthersKept(s, u, s', u', f) && g < INODES && g != f
    requires IsType(s, g, FS_FILE) || IsType(s, g, FS_DIR)
    ensures (IsType(s', g, FS_FILE) || IsType(s', g, FS_DIR)) && Contents(s', u', g) == Contents(s, u, g)
  {
    hide Core, Counted, IsSet, LogicalDisk;
    ModuloParts(s, u);
    ModuloParts(s', u');
  }

  /** The end of a write. */
  lemma WriteDone(s0: Fs, u0: Usage, ps0: seq<Pages>, s1: Fs, s: Fs, u: Usage, f: nat, size: nat, offset: nat, buffer: seq<Byte>, i: nat)
    requires FsInv(s0, u0) && FsInv(s, u) && ps0 == PagesFor(s0, u0) && SameButBlocks(s0, s1, f) && IsType(s, f, FS_FILE)
    requires IsType(s0, f, FS_FILE) && size == s0.inodes[f].size && offset <= size
    requires s == Resized(s1, f, if offset + |buffer| >= size then offset + |buffer| else size)
    requires |u.slots| == |u0.slots| == |ps0| && f < |u.slots|
    requires forall g :: 0 <= g < |u.slots| && g != f ==> PagesFor(s, u)[g] == ps0[g]
    requires f < |u.slots| && Laid(u0.slots[f], ps0[f], u.slots[f], PagesFor(s, u)[f], size, offset, buffer, i, |buffer|)
    ensures Contents(s, u, f) == Splice(Contents(s0, u0, f), offset, buffer) <==> TwinsSame(u0.slots[f], ps0[f], offset, buffer)
    ensures OthersKept(s0, u0, s, u, f)
  {
    hide Core, Fits, Counted, IsSet, LogicalDisk, Splice, Laid, TwinsSame, OffsetToBlocks;
    InvParts(s0, u0);
    InvParts(s, u);
    SizeAt(s0, u0, f);
    ConsistentPages(s0, u0, f);
    LaidSplice(u0.slots[f], ps0[f], u.slots[f], PagesFor(s, u)[f], size, offset, buffer, i);
  }

  lemma SizeLimit(size: nat)
    ensures OffsetToBlocks(size) <= INODE_NUM_BLKS ==> size <= MAX_SIZE
  {
  }

  /** Since state `s0`, the first `k` slots of inode `f` were given up. */
  ghost predicate GivingUp(s0: Fs, u0: Usage, ps0: seq<Pages>, f: nat, k: nat, s: Fs, u: Usage) {
    && CoreBut(s, u, f) && Core(s0, u0) && ps0 == PagesFor(s0, u0)
    && f < |u0.slots| == |u.slots| == |u.dirs| && k <= |u0.slots[f]|
    && s.inodes == s0.inodes && s.ibmap == s0.ibmap && |s.refs| == |s0.refs|
    && u == SetSlots(u0, f, u0.slots[f][k..]) && Fits(u)
    && AllOnDisk(u, LogicalDisk(s.cache)) && forall g :: 0 <= g < |u.slots| && g != f ==> AllPages(LogicalDisk(s.cache), u)[g] == ps0[g]
  }

  lemma GivenUpNext(s0: Fs, u0: Usage, ps0: seq<Pages>, f: nat, k: nat, s: Fs, u: Usage)
    requires GivingUp(s0, u0, ps0, f, k, s, u) && k < |u0.slots[f]|
    ensures f < |u.slots| == |u.dirs| && u.slots[f] != [] && f < |s.inodes| && k < |s.inodes[f].blocks| && Formed(s) && 8 * |s.bmap| == BMAP_BITS && f < INODES
    ensures var b := u.slots[f][0];
      && b == s.inodes[f].blocks[k] < |s.refs| && b < 8 * |s.bmap| && Erased(s, f, b) == DroppedFrom(s, u, f, b)
      && GivingUp(s0, u0, ps0, f, k + 1, DroppedFrom(s, u, f, b), SetSlots(u, f, u.slots[f][1..]))
  {
    hide CoreBut, Core, Fits, LogicalDisk, IsSet, Erased, Eliminate, RawWrite, ClrBit, Down;
    ApagandoFacts(s0, u0, f, k, s, u);
    DroppedCore(s, u, f);
    ButParts(s, u, f);
    AccShape(s.bmap, s.refs, u);
    CoreParts(s0, u0);
    LinkedAt(s0, u0, f);
    ErasedIs(s, u, f, u.slots[f][0]);
  }

  lemma ApagandoFacts(s0: Fs, u0: Usage, f: nat, k: nat, s: Fs, u: Usage)
    requires CoreBut(s, u, f) && Core(s0, u0) && f < |u0.slots| && k < |u0.slots[f]| && u == SetSlots(u0, f, u0.slots[f][k..])
    requires s.inodes == s0.inodes && s.ibmap == s0.ibmap
    ensures u.slots[f] != [] && u.slots[f][0] == u0.slots[f][k] && f < |u.dirs| == |u.slots|
    ensures u.dirs[f] == (s.inodes[f].tipo == FS_DIR)
    ensures u.slots[f][1..] == u0.slots[f][k + 1..] && SetSlots(u, f, u.slots[f][1..]) == SetSlots(u0, f, u0.slots[f][k + 1..])
  {
    hide Acc, CacheInv, RawOk, Roots;
    CoreParts(s0, u0);
    assert LinkedInode(s0, u0, f);
  }

  lemma PrefixRepeat(v: Usage, u: Usage, origem: nat, destino: nat, i: nat)
    requires origem < |v.slots| == |u.slots| && destino < |u.slots| && i <= |v.slots[origem]| && u.slots[destino] == v.slots[origem][..i]
    requires forall g :: 0 <= g < |u.slots| && g != destino ==> u.slots[g] == v.slots[g]
    ensures NoRepeat(v) ==> NoRepeat(u)
  {
    if NoRepeat(v) {
      assert Distinct(v.slots[origem]);
      forall g | 0 <= g < |u.slots| ensures Distinct(u.slots[g]) { assert g != destino ==> Distinct(v.slots[g]); }
    }
  }

  /** File `f` gets a further slot, with the block of slot `a` of file `g`. */
  lemma ShareSlot(s: Fs, v: Usage, f: nat, g: nat, a: nat)
    requires Core(s, v) && IsType(s, f, FS_FILE) && IsType(s, g, FS_FILE) && f < |v.slots| && g < |v.slots|
    requires |v.slots[f]| < INODE_NUM_BLKS && a < |v.slots[g]|
    ensures a < |s.inodes[g].blocks| && v.slots[g][a] == s.inodes[g].blocks[a] < |s.refs|
    ensures var b := v.slots[g][a];
      var s', v' := SharedWith(s, v, f, b), SetSlots(v, f, v.slots[f] + [b]);
      && Core(s', v') && IsType(s', f, FS_FILE) && IsType(s', g, FS_FILE) && SameButBlocks(s, s', f) && s'.cache == s.cache
      && f < |PagesFor(s, v)| && g < |PagesFor(s, v)| && a < |PagesFor(s, v)[g]|
      && PagesFor(s', v') == PlusPage(PagesFor(s, v), f, PagesFor(s, v)[g][a])
  {
    hide Core, Fits, LogicalDisk, IsSet, FileSlots, Up;
    CoreParts(s, v);
    LinkedAt(s, v, f);
    LinkedAt(s, v, g);
    FileOnly(s, v, g);
    SlotCounted(v, g, a);
    SharedCore(s, v, f, v.slots[g][a]);
  }

  lemma CopyDone(s: Fs, v: Usage, ps: seq<Pages>, s1: Fs, s': Fs, u': Usage, origem: nat, destino: nat)
    requires FsInv(s, v) && FsModulo(s', u') && ps == PagesFor(s, v) && SameButBlocks(s, s1, destino) && origem != destino
    requires IsType(s, origem, FS_FILE) && IsType(s', destino, FS_FILE) && s' == Resized(s1, destino, s.inodes[origem].size)
    requires |u'.slots| == |v.slots| == |ps| && PagesFor(s', u')[destino] == ps[origem]
    requires forall g :: 0 <= g < |u'.slots| && g != destino ==> PagesFor(s', u')[g] == ps[g]
    ensures Contents(s', u', destino) == Contents(s, v, origem) && OthersKept(s, v, s', u', destino)
  {
    hide Core, Fits, Counted, IsSet, LogicalDisk;
    InvParts(s, v);
    ModuloParts(s', u');
  }

  /** What an append amounts to: the blocks are put behind each other and the sizes added. The slots
      fit the new size exactly if no block is saved by filling up the last one; if the first file ends
      with its last block, or the second is empty, the contents are put behind each other. The counts are
      still right exactly if they had room for the second file's blocks once more. */
  ghost predicate Appended(s: Fs, v: Usage, s': Fs, u': Usage, f: nat, g: nat) {
    && FsInv(s, v) && Core(s', u') && IsType(s, f, FS_FILE) && IsType(s, g, FS_FILE) && IsType(s', f, FS_FILE)
    && f < |v.slots| && g < |v.slots| && u' == SetSlots(v, f, v.slots[f] + v.slots[g]) && OthersKept(s, v, s', u', f)
    && f < |PagesFor(s, v)| == |PagesFor(s', u')| && g < |PagesFor(s, v)| && PagesFor(s', u')[f] == PagesFor(s, v)[f] + PagesFor(s, v)[g]
    && var n, n2 := s.inodes[f].size, s.inodes[g].size;
      && s'.inodes[f].size == n + n2
      && (FsModulo(s', u') <==> OffsetToBlocks(n + n2) == OffsetToBlocks(n) + OffsetToBlocks(n2))
      && (FsInv(s', u') <==> FsModulo(s', u') && Room(s.refs, [], v.slots[g]))
      && (n % BLOCK_SIZE == 0 || n2 == 0 ==> FsModulo(s', u') && Contents(s', u', f) == Contents(s, v, f) + Contents(s, v, g))
  }

  /** The state before the size is set: the blocks of `g` are behind those of `f`. */
  ghost predicate Joined(s: Fs, v: Usage, s1: Fs, u1: Usage, f: nat, g: nat) {
    && FsInv(s, v) && Core(s1, u1) && SameButBlocks(s, s1, f) && IsType(s, f, FS_FILE) && IsType(s, g, FS_FILE)
    && f < |v.slots| == |u1.slots| && g < |v.slots| && u1 == SetSlots(v, f, v.slots[f] + v.slots[g]) && s1.cache == s.cache
    && |PagesFor(s1, u1)| == |PagesFor(s, v)| == |v.slots| && PagesFor(s1, u1)[f] == PagesFor(s, v)[f] + PagesFor(s, v)[g]
    && forall h :: 0 <= h < |u1.slots| && h != f ==> PagesFor(s1, u1)[h] == PagesFor(s, v)[h]
  }

  lemma JoinedKept(s: Fs, v: Usage, s1: Fs, u1: Usage, f: nat, g: nat)
    requires Joined(s, v, s1, u1, f, g)
    ensures f < |s1.inodes| && g < |s.inodes| && f < |s.inodes|
    ensures var s' := Resized(s1, f, s.inodes[f].size + s.inodes[g].size);
      && Core(s, v) && Core(s', u1) && OthersKept(s, v, s', u1, f) && IsType(s', f, FS_FILE) && PagesFor(s', u1) == PagesFor(s1, u1)
      && s'.inodes[f].size == s.inodes[f].size + s.inodes[g].size
  {
    hide Core, Fits, Sized, Counted, IsSet, LogicalDisk;
    InvParts(s, v);
    CoreParts(s, v);
    CoreParts(s1, u1);
    ResizedCore(s1, u1, f, s.inodes[f].size + s.inodes[g].size);
  }

  lemma JoinedCounts(s: Fs, v: Usage, s1: Fs, u1: Usage, f: nat, g: nat)
    requires Joined(s, v, s1, u1, f, g) && f < |s1.inodes| && f < |s.inodes| && g < |s.inodes|
    ensures |v.slots[f]| == OffsetToBlocks(s.inodes[f].size) && |v.slots[g]| == OffsetToBlocks(s.inodes[g].size)
    ensures |u1.slots[f]| == OffsetToBlocks(s.inodes[f].size) + OffsetToBlocks(s.inodes[g].size) <= INODE_NUM_BLKS
  {
    hide Core, Fits, Sized, Counted, IsSet, LogicalDisk, OffsetToBlocks, PagesFor;
    InvParts(s, v);
    SizeAt(s, v, f);
    SizeAt(s, v, g);
    CoreParts(s1, u1);
    AccShape(s1.bmap, s1.refs, u1);
  }

  lemma JoinedSized(s: Fs, v: Usage, s1: Fs, u1: Usage, f: nat, g: nat)
    requires Joined(s, v, s1, u1, f, g) && f < |s1.inodes| && f < |s.inodes| && g < |s.inodes|
    ensures var n, n2 := s.inodes[f].size, s.inodes[g].size;
      FsModulo(Resized(s1, f, n + n2), u1) <==> OffsetToBlocks(n + n2) == OffsetToBlocks(n) + OffsetToBlocks(n2)
  {
    hide Core, Fits, Sized, Counted, IsSet, LogicalDisk, OffsetToBlocks, PagesFor, FsModulo, FsInv;
    JoinedCounts(s, v, s1, u1, f, g);
    JoinedTypes(s, v, s1, u1, f, g);
    var n, n2 := s.inodes[f].size, s.inodes[g].size;
    SizeLimit(n + n2);
    if OffsetToBlocks(n + n2) == OffsetToBlocks(n) + OffsetToBlocks(n2) {
      ResizedInv(s, v, s1, u1, f, n + n2);
    }
    if FsModulo(Resized(s1, f, n + n2), u1) {
      ModuloParts(Resized(s1, f, n + n2), u1);
      SizeAt(Resized(s1, f, n + n2), u1, f);
    }
  }

  lemma JoinedTypes(s: Fs, v: Usage, s1: Fs, u1: Usage, f: nat, g: nat)
    requires Joined(s, v, s1, u1, f, g) && f < |s1.inodes|
    ensures Formed(s1) && IsType(s1, f, FS_FILE) && forall size: nat :: Formed(Resized(s1, f, size)) && IsType(Resized(s1, f, size), f, FS_FILE)
  {
    hide Core, Fits, Sized, Counted, IsSet, LogicalDisk, PagesFor;
    InvParts(s, v);
    CoreParts(s1, u1);
  }

  lemma JoinedContents(s: Fs, v: Usage, s1: Fs, u1: Usage, f: nat, g: nat)
    requires Joined(s, v, s1, u1, f, g) && f < |s1.inodes| && f < |s.inodes| && g < |s.inodes| && Core(s, v)
    requires var n, n2 := s.inodes[f].size, s.inodes[g].size;
      FsModulo(Resized(s1, f, n + n2), u1) && (n % BLOCK_SIZE == 0 || n2 == 0) && PagesFor(Resized(s1, f, n + n2), u1) == PagesFor(s1, u1)
    ensures var s' := Resized(s1, f, s.inodes[f].size + s.inodes[g].size);
      IsType(s', f, FS_FILE) && Contents(s', u1, f) == Contents(s, v, f) + Contents(s, v, g)
  {
    hide Core, Fits, Counted, IsSet, LogicalDisk, OffsetToBlocks, Bytes;
    InvParts(s, v);
    ModuloParts(Resized(s1, f, s.inodes[f].size + s.inodes[g].size), u1);
    SizeAt(s, v, f);
    SizeAt(s, v, g);
    ConsistentPages(s, v, f);
    AlignedAppend(PagesFor(s, v)[f], s.inodes[f].size, PagesFor(s, v)[g], s.inodes[g].size);
  }

  lemma AppendDone(s: Fs, v: Usage, s1: Fs, u1: Usage, f: nat, g: nat)
    requires Joined(s, v, s1, u1, f, g)
    ensures f < |s1.inodes| && g < |s.inodes| && f < |s.inodes|
    ensures Core(Resized(s1, f, s.inodes[f].size + s.inodes[g].size), u1)
    ensures Appended(s, v, Resized(s1, f, s.inodes[f].size + s.inodes[g].size), u1, f, g)
  {
    hide Core, Fits, Sized, Counted, IsSet, LogicalDisk, OffsetToBlocks, Room, OthersKept, Contents, FsModulo;
    InvParts(s, v);
    AppendRoom(s, v, f, g);
    JoinedKept(s, v, s1, u1, f, g);
    JoinedSized(s, v, s1, u1, f, g);
    var n, n2 := s.inodes[f].size, s.inodes[g].size;
    AlignedBlocks(n, n2);
    if n % BLOCK_SIZE == 0 || n2 == 0 {
      JoinedContents(s, v, s1, u1, f, g);
    }
  }

  /** The counts have room for a second file's blocks behind those of the first. */
  lemma AppendRoom(s: Fs, v: Usage, f: nat, g: nat)
    requires Core(s, v) && |v.dirs| == |v.slots| && Fits(v) && IsType(s, f, FS_FILE) && f < |v.slots| && g < |v.slots|
    ensures Fits(SetSlots(v, f, v.slots[f] + v.slots[g])) <==> Room(s.refs, [], v.slots[g])
  {
    hide Core, Fits, IsSet, FileSlots;
    CoreParts(s, v);
    AccShape(s.bmap, s.refs, v);
    FileOnly(s, v, f);
    var a, b := v.slots[f], v.slots[g];
    forall k | 0 <= k < |a + b| ensures (a + b)[k] < |s.refs| {
      if k < |a| { assert v.slots[f][k] < NUM_BLOCOS_MAX; } else { assert (a + b)[k] == v.slots[g][k - |a|]; }
    }
    RoomExactly(s.bmap, s.refs, v, f, a + b);
    assert multiset(a + b) == multiset(a) + multiset(b);
    RoomAppended(s.refs, a, b);
  }

  lemma RoomAppended(refs: seq<Char>, a: seq<nat>, b: seq<nat>)
    requires forall k :: 0 <= k < |a + b| ==> (a + b)[k] < |refs|
    ensures Room(refs, a, a + b) <==> Room(refs, [], b)
  {
    assert multiset(a + b) == multiset(a) + multiset(b);
    if Room(refs, [], b) {
      forall i | 0 <= i < |a + b| ensures refs[(a + b)[i]] - multiset(a)[(a + b)[i]] + multiset(a + b)[(a + b)[i]] <= CHAR_MAX {
        var x := (a + b)[i];
        if x in b {
          var k :| 0 <= k < |b| && b[k] == x;
        } else {
          assert multiset(b)[x] == 0;
        }
      }
    }
    if Room(refs, a, a + b) {
      forall i | 0 <= i < |b| ensures b[i] < |refs| && refs[b[i]] + multiset(b)[b[i]] <= CHAR_MAX { assert (a + b)[|a| + i] == b[i]; }
    }
  }

  lemma AlignedBlocks(n: nat, n2: nat)
    ensures n % BLOCK_SIZE == 0 || n2 == 0 ==> OffsetToBlocks(n + n2) == OffsetToBlocks(n) + OffsetToBlocks(n2)
  {
  }

  /** The first `a` blocks of file `g` are behind those of file `f`. */
  ghost predicate Appending(s: Fs, v: Usage, s1: Fs, u1: Usage, f: nat, g: nat, a: nat) {
    && Core(s, v) && Core(s1, u1) && IsType(s1, f, FS_FILE) && IsType(s1, g, FS_FILE)
    && f < |v.slots| && g < |v.slots| && a <= |v.slots[g]| && SameButBlocks(s, s1, f) && s1.cache == s.cache
    && u1 == SetSlots(v, f, v.slots[f] + v.slots[g][..a])
    && var ps, ps1 := PagesFor(s, v), PagesFor(s1, u1);
      && |ps1| == |ps| == |v.slots| && |ps[g]| == |v.slots[g]| && ps1[f] == ps[f] + ps[g][..a]
      && forall h :: 0 <= h < |ps| && h != f ==> ps1[h] == ps[h]
  }

  lemma AppendingStart(s: Fs, u: Usage, f: nat, g: nat)
    requires FsInv(s, u) && IsType(s, f, FS_FILE) && IsType(s, g, FS_FILE)
    ensures Appending(s, u, s, u, f, g, 0)
  {
    hide LogicalDisk, IsSet, Core, Sized, Counted;
    InvParts(s, u);
    CoreParts(s, u);
    var i := s.inodes[f];
    assert s.inodes[f := i.(blocks := i.blocks)] == s.inodes;
    assert u.slots[f] + u.slots[g][..0] == u.slots[f];
    assert PagesFor(s, u)[f] + PagesFor(s, u)[g][..0] == PagesFor(s, u)[f];
  }

  lemma AppendingParts(s: Fs, v: Usage, s1: Fs, u1: Usage, f: nat, g: nat, a: nat)
    requires Appending(s, v, s1, u1, f, g, a)
    ensures Core(s, v) && Core(s1, u1) && IsType(s1, f, FS_FILE) && IsType(s1, g, FS_FILE) && SameButBlocks(s, s1, f) && s1.cache == s.cache
    ensures f < |u1.slots| == |v.slots| && g < |v.slots| && a <= |v.slots[g]| && |u1.slots[f]| == |v.slots[f]| + a
    ensures a < |v.slots[g]| ==> a < |u1.slots[g]| && u1.slots[g][a] == v.slots[g][a] && PagesFor(s1, u1)[g][a] == PagesFor(s, v)[g][a]
    ensures |PagesFor(s1, u1)| == |PagesFor(s, v)| == |v.slots|
    ensures a == |v.slots[g]| ==>
      u1 == SetSlots(v, f, v.slots[f] + v.slots[g]) && PagesFor(s1, u1)[f] == PagesFor(s, v)[f] + PagesFor(s, v)[g]
    ensures forall h :: 0 <= h < |v.slots| && h != f ==> PagesFor(s1, u1)[h] == PagesFor(s, v)[h]
  {
    hide LogicalDisk, IsSet, Core;
    assert a == |v.slots[g]| ==> v.slots[g][..a] == v.slots[g] && PagesFor(s, v)[g][..a] == PagesFor(s, v)[g];
    if g == f && a < |v.slots[g]| {
      assert (v.slots[f] + v.slots[g][..a])[a] == v.slots[g][a];
      assert (PagesFor(s, v)[f] + PagesFor(s, v)[g][..a])[a] == PagesFor(s, v)[g][a];
    }
  }

  lemma AppendingStep(s: Fs, v: Usage, s1: Fs, u1: Usage, s2: Fs, u2: Usage, f: nat, g: nat, a: nat)
    requires Appending(s, v, s1, u1, f, g, a) && a < |v.slots[g]| && Core(s2, u2) && IsType(s2, f, FS_FILE) && IsType(s2, g, FS_FILE)
    requires SameButBlocks(s1, s2, f) && s2.cache == s1.cache && f < |u1.slots| && g < |u1.slots| && a < |u1.slots[g]|
    requires u2 == SetSlots(u1, f, u1.slots[f] + [u1.slots[g][a]])
    requires |PagesFor(s1, u1)| == |u1.slots| && |PagesFor(s1, u1)[g]| == |u1.slots[g]|
    requires PagesFor(s2, u2) == PlusPage(PagesFor(s1, u1), f, PagesFor(s1, u1)[g][a])
    ensures Appending(s, v, s2, u2, f, g, a + 1)
  {
    hide LogicalDisk, IsSet, Core, PagesFor, SameButBlocks;
    AppendingParts(s, v, s1, u1, f, g, a);
    SameTrans(s, s1, s2, f);
    AppendingSlots(v, u1, u2, f, g, a);
    AppendingPages(PagesFor(s, v), PagesFor(s1, u1), PagesFor(s2, u2), f, g, a);
  }

  lemma AppendingSlots(v: Usage, u1: Usage, u2: Usage, f: nat, g: nat, a: nat)
    requires f < |v.slots| && g < |v.slots| && a < |v.slots[g]| && u1 == SetSlots(v, f, v.slots[f] + v.slots[g][..a]) && a < |u1.slots[g]|
    requires u1.slots[g][a] == v.slots[g][a] && u2 == SetSlots(u1, f, u1.slots[f] + [u1.slots[g][a]])
    ensures u2 == SetSlots(v, f, v.slots[f] + v.slots[g][..a + 1])
  {
    assert v.slots[f] + v.slots[g][..a] + [v.slots[g][a]] == v.slots[f] + v.slots[g][..a + 1];
  }

  lemma AppendingPages(ps: seq<Pages>, ps1: seq<Pages>, ps2: seq<Pages>, f: nat, g: nat, a: nat)
    requires f < |ps| && g < |ps| && a < |ps[g]| && |ps1| == |ps| && ps1[f] == ps[f] + ps[g][..a] && (forall h :: 0 <= h < |ps| && h != f ==> ps1[h] == ps[h])
    requires a < |ps1[g]| && ps1[g][a] == ps[g][a] && ps2 == PlusPage(ps1, f, ps1[g][a])
    ensures |ps2| == |ps| && ps2[f] == ps[f] + ps[g][..a + 1] && forall h :: 0 <= h < |ps| && h != f ==> ps2[h] == ps[h]
  {
    assert ps[f] + ps[g][..a] + [ps[g][a]] == ps[f] + ps[g][..a + 1];
  }

  /** An append keeps all slots of every inode distinct exactly if the files had no block in common. */
  lemma AppendRepeats(v: Usage, f: nat, g: nat)
    requires NoRepeat(v) && f < |v.slots| && g < |v.slots|
    ensures NoRepeat(SetSlots(v, f, v.slots[f] + v.slots[g])) <==> forall i, j :: 0 <= i < |v.slots[f]| && 0 <= j < |v.slots[g]| ==> v.slots[f][i] != v.slots[g][j]
  {
    var a, b := v.slots[f], v.slots[g];
    var u' := SetSlots(v, f, a + b);
    assert Distinct(a) && Distinct(b);
    if Distinct(a + b) {
      forall i, j | 0 <= i < |a| && 0 <= j < |b| ensures a[i] != b[j] { assert (a + b)[i] != (a + b)[|a| + j]; }
    }
    assert NoRepeat(u') ==> Distinct(u'.slots[f]);
    assert forall h :: 0 <= h < |v.slots| ==> Distinct(v.slots[h]);
  }
}
