/** The directory tree: what the entries of directories name, and what keeps it. */
module FileSystemTree {
  import opened Wrappers
  import opened Block
  import opened CacheSpec
  import opened Bitmap
  import opened Accounting
  import opened FileSystemSpec
  import opened FileSystemSteps
  import opened FileSystemFacts
  import opened FileBytes
  import opened Directory

  /** An entry names an inode in use, or one that was removed and not used since. */
  predicate EntryOk(s: Fs, e: seq<Byte>)
    requires Formed(s) && |e| == DENTRY
  {
    var id := IdOf(e);
    2 <= id < INODES && (IsType(s, id, FS_FILE) || IsType(s, id, FS_DIR) || (s.inodes[id].tipo == 0 && s.inodes[id].size == 0))
  }

  predicate EntriesOk(s: Fs, c: seq<Byte>)
    requires Formed(s)
  {
    forall i :: 0 <= i < |c| / DENTRY ==> EntryOk(s, EntryAt(c, i))
  }

  /** The slots of a directory that are not in use are zero. */
  predicate TailZero(s: Fs, u: Usage, f: nat)
    requires Formed(s) && Shaped(u) && f < INODES
  {
    forall k :: |u.slots[f]| <= k < INODE_NUM_BLKS ==> s.inodes[f].blocks[k] == 0
  }

  /** The entries of a directory are in order, and no name occurs twice. */
  ghost predicate DirOk(s: Fs, u: Usage, f: nat)
    requires FsModulo(s, u) && f < INODES
  {
    IsType(s, f, FS_DIR) ==> EntriesOk(s, Contents(s, u, f)) && UniqueNames(Contents(s, u, f)) && TailZero(s, u, f)
  }

  ghost predicate Tree(s: Fs, u: Usage)
    requires FsModulo(s, u)
  {
    forall f :: 0 <= f < INODES ==> DirOk(s, u, f)
  }

  /** The whole invariant but for reference counts that have wrapped around. */
  ghost predicate FullModulo(s: Fs, u: Usage) {
    FsModulo(s, u) && Tree(s, u)
  }

  ghost predicate FullInv(s: Fs, u: Usage) {
    FsInv(s, u) && Tree(s, u)
  }

  lemma FullParts(s: Fs, u: Usage)
    requires FullInv(s, u)
    ensures FsInv(s, u) && FsModulo(s, u) && Fits(u) && Core(s, u) && Formed(s) && Shaped(u) && Sized(s, u) && Counted(s) && Tree(s, u)
    ensures |s.inodes| == INODES && |s.bmap| == |s.ibmap| == BMAP_BITS / 8
    ensures FullModulo(s, u)
  {
    hide Fits;
    InvParts(s, u);
    CoreParts(s, u);
  }

  lemma FullModuloParts(s: Fs, u: Usage)
    requires FullModulo(s, u)
    ensures FsModulo(s, u) && Core(s, u) && Formed(s) && Shaped(u) && Sized(s, u) && Counted(s) && Tree(s, u)
    ensures |s.inodes| == INODES && |s.bmap| == |s.ibmap| == BMAP_BITS / 8
    ensures |u.dirs| == |u.slots| && (FullInv(s, u) <==> Fits(u))
  {
    hide Fits;
    CoreParts(s, u);
  }

  /** An operation on a file keeps the tree. */
  lemma FileKeepsTree(s: Fs, u: Usage, s': Fs, u': Usage, f: nat)
    requires FullInv(s, u) && FsModulo(s', u') && OthersKept(s, u, s', u', f) && IsType(s, f, FS_FILE) && IsType(s', f, FS_FILE)
    ensures FullModulo(s', u')
  {
    hide Core, Fits, Sized, Counted, IsSet, EntryOk;
    FullParts(s, u);
    ModuloParts(s', u');
    forall g | 0 <= g < INODES ensures DirOk(s', u', g) { FileKeepsDir(s, u, s', u', f, g); }
  }

  lemma FileKeepsDir(s: Fs, u: Usage, s': Fs, u': Usage, f: nat, g: nat)
    requires FullInv(s, u) && FsModulo(s', u') && OthersKept(s, u, s', u', f) && IsType(s, f, FS_FILE) && IsType(s', f, FS_FILE) && g < INODES
    ensures DirOk(s', u', g)
  {
    FullParts(s, u);
    ModuloParts(s', u');
    hide Core, Fits, Sized, Counted, IsSet, UniqueNames;
    if IsType(s', g, FS_DIR) {
      assert g != f && IsType(s, g, FS_DIR) && DirOk(s, u, g);
      OthersContents(s, u, s', u', f, g);
      SizeAt(s, u, g);
      SizeAt(s', u', g);
      EntriesKept(s, s', f, Contents(s, u, g));
    }
  }

  lemma EntriesKept(s: Fs, s': Fs, f: nat, c: seq<Byte>)
    requires Formed(s) && Formed(s') && EntriesOk(s, c) && s'.ibmap == s.ibmap && IsType(s, f, FS_FILE) && IsType(s', f, FS_FILE)
    requires forall g :: 0 <= g < INODES && g != f ==> s'.inodes[g] == s.inodes[g]
    ensures EntriesOk(s', c)
  {
    forall i | 0 <= i < |c| / DENTRY ensures EntryOk(s', EntryAt(c, i)) { assert EntryOk(s, EntryAt(c, i)); }
  }

  /** A change beside the inode table keeps the tree if it keeps the pages. */
  lemma CacheKeepsTree(s: Fs, u: Usage, s': Fs)
    requires FullInv(s, u) && FsInv(s', u) && s'.inodes == s.inodes && s'.ibmap == s.ibmap && PagesFor(s', u) == PagesFor(s, u)
    ensures FullInv(s', u)
  {
    hide Core, Fits, Sized, Counted, IsSet, EntryOk, UniqueNames;
    FullParts(s, u);
    InvParts(s', u);
    forall g | 0 <= g < INODES ensures DirOk(s', u, g) {
      assert DirOk(s, u, g);
      if IsType(s', g, FS_DIR) {
        assert Contents(s', u, g) == Contents(s, u, g);
        forall i | 0 <= i < |Contents(s, u, g)| / DENTRY ensures EntryOk(s', EntryAt(Contents(s, u, g), i)) {
          SameEntryOk(s, s', EntryAt(Contents(s, u, g), i));
        }
      }
    }
  }

  lemma SameEntryOk(s: Fs, s': Fs, e: seq<Byte>)
    requires Formed(s) && Formed(s') && |e| == DENTRY && s'.ibmap == s.ibmap && s'.inodes == s.inodes
    ensures EntryOk(s', e) == EntryOk(s, e)
  {
  }

  // ---------- Blocks of directories ----------

  /** A directory's block has no valid cache entry and is in no other slot. */
  lemma DirBlock(s: Fs, u: Usage, f: nat, k: nat)
    requires Core(s, u) && IsType(s, f, FS_DIR) && f < |u.slots| && k < |u.slots[f]|
    ensures u.slots[f][k] < |s.cache.disk| && |u.dirs| == |u.slots| && FileSlots(u)[u.slots[f][k]] == 0
    ensures forall g, j :: 0 <= g < |u.slots| && 0 <= j < |u.slots[g]| && (g != f || j != k) ==> u.slots[g][j] != u.slots[f][k]
  {
    CoreParts(s, u);
    LinkedAt(s, u, f);
    SlotCounted(u, f, k);
    forall g, j | 0 <= g < |u.slots| && 0 <= j < |u.slots[g]| && (g != f || j != k) ensures u.slots[g][j] != u.slots[f][k] {
      SlotCounted(u, g, j);
      if u.slots[g][j] == u.slots[f][k] && u.dirs[g] { SumTwice(Only(u, true), f, k, g, j); }
    }
  }

  /** Entry `e` of a directory is in page `e / 32`. */
  lemma EntryInPage(ps: Pages, size: nat, e: nat)
    requires size <= BLOCK_SIZE * |ps| && DENTRY * (e + 1) <= size
    ensures e / PAGE_ENTRIES < |ps| && DENTRY * (e % PAGE_ENTRIES) + DENTRY <= BLOCK_SIZE
    ensures EntryAt(Bytes(ps, size), e) == ps[e / PAGE_ENTRIES][DENTRY * (e % PAGE_ENTRIES)..DENTRY * (e % PAGE_ENTRIES) + DENTRY]
  {
    var q := DENTRY * e;
    assert q / BLOCK_SIZE == e / PAGE_ENTRIES && q % BLOCK_SIZE == DENTRY * (e % PAGE_ENTRIES);
    ReadStep(ps, q, DENTRY);
    var a, b := EntryAt(Bytes(ps, size), e), ps[e / PAGE_ENTRIES][q % BLOCK_SIZE..q % BLOCK_SIZE + DENTRY];
    forall i | 0 <= i < DENTRY ensures a[i] == b[i] { assert a[i] == ByteAt(ps, q + i); }
  }

  // ---------- Creating ----------

  const NO_BLOCKS: seq<nat> := [0, 0, 0, 0, 0, 0, 0, 0, 0, 0]

  /** A free inode becomes an empty file or directory. */
  function WithInode(s: Fs, id: nat, tipo: int): Fs
    requires id < |s.inodes| && id < 8 * |s.ibmap|
  {
    s.(ibmap := SetBit(s.ibmap, id), inodes := s.inodes[id := Inode(tipo, 0, NO_BLOCKS)])
  }

  function WithDir(u: Usage, id: nat, dir: bool): Usage
    requires id < |u.dirs|
  {
    u.(dirs := u.dirs[id := dir])
  }

  lemma NewInodeAcc(bmap: Bits, refs: seq<Char>, u: Usage, id: nat, dir: bool)
    requires Acc(bmap, refs, u) && id < INODES && u.slots[id] == []
    ensures Acc(bmap, refs, WithDir(u, id, dir))
    ensures FileSlots(WithDir(u, id, dir)) == FileSlots(u) && DirSlots(WithDir(u, id, dir)) == DirSlots(u)
  {
    var u' := WithDir(u, id, dir);
    assert Only(u', false) == Only(u, false);
    assert Only(u', true) == Only(u, true);
  }

  lemma FreeInode(s: Fs, u: Usage, id: nat)
    requires Core(s, u) && id < INODES && !IsSet(s.ibmap, id)
    ensures id >= 2 && u.slots[id] == []
  {
    assert LinkedInode(s, u, id);
  }

  lemma NewInodeCore(s: Fs, u: Usage, id: nat, tipo: int)
    requires Core(s, u) && id < INODES && !IsSet(s.ibmap, id) && (tipo == FS_FILE || tipo == FS_DIR)
    ensures id < 8 * |s.ibmap| && id < |u.dirs|
    ensures var s', u' := WithInode(s, id, tipo), WithDir(u, id, tipo == FS_DIR);
      Core(s', u') && PagesFor(s', u') == PagesFor(s, u) && IsType(s', id, tipo)
    ensures forall g, t :: 0 <= g < INODES && g != id ==> IsType(WithInode(s, id, tipo), g, t) == IsType(s, g, t)
  {
    hide CacheInv, LogicalDisk, BitsOk, RefsOk, DirsAlone, FileSlots, DirSlots, RawOk, SetBit, IsSet;
    CoreParts(s, u);
    FreeInode(s, u, id);
    var s', u' := WithInode(s, id, tipo), WithDir(u, id, tipo == FS_DIR);
    NewInodeAcc(s.bmap, s.refs, u, id, tipo == FS_DIR);
    forall g | 0 <= g < 8 * |s.ibmap| ensures IsSet(s'.ibmap, g) <==> g == id || IsSet(s.ibmap, g) { SetOnly(s.ibmap, id, g); }
    forall g | 0 <= g < INODES ensures LinkedInode(s', u', g) { assert LinkedInode(s, u, g); }
    RawSame(s.cache, u, u');
    assert AllPages(LogicalDisk(s.cache), u') == AllPages(LogicalDisk(s.cache), u);
  }

  lemma RawSame(c: CacheState, u: Usage, u': Usage)
    requires |u.dirs| == |u.slots| && |u'.dirs| == |u'.slots| && RawOk(c, u) && FileSlots(u') == FileSlots(u)
    ensures RawOk(c, u')
  {
  }

  // ---------- Counting ----------

  lemma {:induction false} InodesBound(s: Fs, f: nat, id: nat)
    requires Formed(s) && f <= INODES
    ensures InodesFrom(s, f) <= INODES - f
    ensures f <= id < INODES && !IsSet(s.ibmap, id) ==> InodesFrom(s, f) < INODES - f
    decreases INODES - f
  {
    if f < INODES { InodesBound(s, f + 1, id); }
  }

  lemma {:induction false} EntriesBound(s: Fs, f: nat, d: nat)
    requires Formed(s) && f <= d && IsType(s, d, FS_DIR)
    ensures s.inodes[d].size / DENTRY <= EntriesFrom(s, f)
    decreases INODES - f
  {
    if f < d { EntriesBound(s, f + 1, d); }
  }

  /** A directory never has more entries than 61 while there is a free inode, so never more than two
      blocks. */
  lemma DirectorySmall(s: Fs, u: Usage, d: nat)
    requires FsInv(s, u) && IsType(s, d, FS_DIR)
    ensures s.inodes[d].size <= DENTRY * 62 && s.inodes[d].size % DENTRY == 0
    ensures forall id :: 0 <= id < INODES && !IsSet(s.ibmap, id) ==> s.inodes[d].size <= DENTRY * 61
  {
    InvParts(s, u);
    hide Core, Sized, IsSet, InodesFrom, EntriesFrom;
    EntriesBound(s, 0, d);
    InodesBound(s, 0, 0);
    forall id | 0 <= id < INODES && !IsSet(s.ibmap, id) ensures s.inodes[d].size <= DENTRY * 61 { InodesBound(s, 0, id); }
  }

  /** One more inode and one more entry. */
  lemma {:induction false} CountsCreate(s: Fs, s': Fs, f: nat, d: nat, id: nat)
    requires Formed(s) && Formed(s') && f <= INODES && id < INODES && d < INODES && id != d && !IsSet(s.ibmap, id)
    requires forall g :: 0 <= g < INODES ==> (IsSet(s'.ibmap, g) <==> g == id || IsSet(s.ibmap, g))
    requires IsType(s, d, FS_DIR) && s'.inodes[d].tipo == FS_DIR && s'.inodes[d].size == s.inodes[d].size + DENTRY
    requires s'.inodes[id].size == 0 && forall g :: 0 <= g < INODES && g != d && g != id ==> s'.inodes[g] == s.inodes[g]
    ensures InodesFrom(s', f) == InodesFrom(s, f) + (if f <= id then 1 else 0)
    ensures EntriesFrom(s', f) == EntriesFrom(s, f) + (if f <= d then 1 else 0)
    decreases INODES - f
  {
    hide IsSet;
    if f < INODES { CountsCreate(s, s', f + 1, d, id); }
  }

  // ---------- One entry more ----------

  /** A page with an entry written at offset `off`. */
  function WithEntryAt(page: Block, off: nat, nome: seq<Byte>, id: nat): (r: Block)
    requires off + DENTRY <= BLOCK_SIZE && |nome| < NAME && id < 65536
  {
    page[..off] + WithEntry(page[off..off + DENTRY], nome, id) + page[off + DENTRY..]
  }

  /** Writing an entry behind the last one. */
  lemma EntryAppended(ps: Pages, ps': Pages, size: nat, page: Block, nome: seq<Byte>, id: nat)
    requires size % DENTRY == 0 && |nome| < NAME && id < 65536 && size <= BLOCK_SIZE * |ps| && |ps| == OffsetToBlocks(size)
    requires PageAdded(ps, ps', size, page, nome, id)
    ensures size + DENTRY <= BLOCK_SIZE * |ps'|
    ensures Bytes(ps', size + DENTRY) == Bytes(ps, size) + NewEntry(page, size, nome, id)
  {
    SizeFits(size + DENTRY);
    var off, e := size % BLOCK_SIZE, WithEntry(page[size % BLOCK_SIZE..size % BLOCK_SIZE + DENTRY], nome, id);
    ReadStep(ps', size, DENTRY);
    var a, b := Bytes(ps', size + DENTRY), Bytes(ps, size) + e;
    forall p | 0 <= p < size + DENTRY ensures a[p] == b[p] {
      if p >= size {
        assert ByteAt(ps', p) == ps'[size / BLOCK_SIZE][off + (p - size)];
        assert WithEntryAt(page, off, nome, id)[off + (p - size)] == e[p - size];
      } else if p / BLOCK_SIZE == size / BLOCK_SIZE {
        OutsideStep(p, size, DENTRY);
      }
    }
  }

  /** Writing a page of a directory on the disk. */
  lemma DirPageCore(s: Fs, u: Usage, d: nat, k: nat, page: Block)
    requires Core(s, u) && IsType(s, d, FS_DIR) && d < |u.slots| && k < |u.slots[d]|
    ensures u.slots[d][k] < |s.cache.disk| && d < |PagesFor(s, u)| && k < |PagesFor(s, u)[d]|
    ensures s.cache.disk[u.slots[d][k]] == PagesFor(s, u)[d][k]
    ensures var s' := s.(cache := RawWrite(s.cache, u.slots[d][k], page));
      Core(s', u) && PagesFor(s', u) == WithPage(PagesFor(s, u), d, k, page)
  {
    hide Core, LogicalDisk, FileSlots, IsSet, RawWrite;
    CoreParts(s, u);
    DirBlock(s, u, d, k);
    RawCore(s, u, u.slots[d][k], page);
    IsolatedWrite(LogicalDisk(s.cache), u, d, k, page);
  }

  /** The state of a create once the entry is written: the directory has its page for it, and nothing
      else changed. */
  ghost predicate EntryWritten(s: Fs, u: Usage, s2: Fs, u2: Usage, d: nat, page: Block, nome: seq<Byte>, id: nat) {
    && FullInv(s, u) && Core(s2, u2) && IsType(s, d, FS_DIR) && |nome| < NAME && id < 65536
    && SameButBlocks(s, s2, d) && |u2.slots| == |u.slots| == INODES && u2.dirs == u.dirs
    && (forall g :: 0 <= g < INODES && g != d ==> u2.slots[g] == u.slots[g] && PagesFor(s2, u2)[g] == PagesFor(s, u)[g])
    && TailZero(s2, u2, d) && FileSlots(u2) == FileSlots(u)
    && |u2.slots[d]| == OffsetToBlocks(s.inodes[d].size + DENTRY) && s.inodes[d].size % DENTRY == 0
    && PageAdded(PagesFor(s, u)[d], PagesFor(s2, u2)[d], s.inodes[d].size, page, nome, id)
  }

  /** The page of the entry behind byte `size` is written, and the pages before it are as they were. */
  predicate PageAdded(ps: Pages, ps2: Pages, size: nat, page: Block, nome: seq<Byte>, id: nat)
    requires |nome| < NAME && id < 65536
  {
    && |ps2| == OffsetToBlocks(size + DENTRY) && size / BLOCK_SIZE < |ps2| && size % DENTRY == 0
    && (size / BLOCK_SIZE < |ps| ==> page == ps[size / BLOCK_SIZE])
    && (forall j :: 0 <= j < |ps2| && j < |ps| && j != size / BLOCK_SIZE ==> ps2[j] == ps[j])
    && ps2[size / BLOCK_SIZE] == WithEntryAt(page, size % BLOCK_SIZE, nome, id)
  }

  /** The state after a create. */
  function Created(s2: Fs, d: nat, id: nat, tipo: int): Fs
    requires d < |s2.inodes| && id < |s2.inodes| && id < 8 * |s2.ibmap|
  {
    WithInode(Resized(s2, d, s2.inodes[d].size + DENTRY), id, tipo)
  }

  lemma CreatedCore(s: Fs, u: Usage, s2: Fs, u2: Usage, d: nat, page: Block, nome: seq<Byte>, id: nat, tipo: int)
    requires EntryWritten(s, u, s2, u2, d, page, nome, id) && 2 <= id < INODES && !IsSet(s.ibmap, id) && (tipo == FS_FILE || tipo == FS_DIR)
    ensures d < |s2.inodes| && id < |s2.inodes| && id < 8 * |s2.ibmap| && id < |u2.dirs| && id != d
    ensures var s', u' := Created(s2, d, id, tipo), WithDir(u2, id, tipo == FS_DIR);
      && Core(s', u') && PagesFor(s', u') == PagesFor(s2, u2) && IsType(s', id, tipo) && IsType(s', d, FS_DIR)
      && (forall g, t :: 0 <= g < INODES && g != id ==> IsType(s', g, t) == IsType(s, g, t))
      && (forall g :: 0 <= g < INODES ==> (IsSet(s'.ibmap, g) <==> g == id || IsSet(s.ibmap, g)))
  {
    hide Core, Fits, FileSlots, LogicalDisk, IsSet, EntryWritten, FullInv, SetBit, OffsetToBlocks, PagesFor;
    WrittenParts(s, u, s2, u2, d, page, nome, id);
    CoreParts(s2, u2);
    var s3 := Resized(s2, d, s2.inodes[d].size + DENTRY);
    ResizedPages(s2, u2, d, s2.inodes[d].size + DENTRY);
    NewInodeCore(s3, u2, id, tipo);
    ResizedTypes(s, s2, d, s2.inodes[d].size + DENTRY);
    forall g | 0 <= g < 8 * |s.ibmap| ensures IsSet(SetBit(s.ibmap, id), g) <==> g == id || IsSet(s.ibmap, g) { SetOnly(s.ibmap, id, g); }
  }

  lemma ResizedTypes(s: Fs, s2: Fs, d: nat, size: nat)
    requires Formed(s) && Formed(s2) && SameButBlocks(s, s2, d)
    ensures Formed(Resized(s2, d, size)) && forall g, t :: 0 <= g < INODES ==> IsType(Resized(s2, d, size), g, t) == IsType(s, g, t)
  {
    hide IsSet;
  }

  lemma ResizedPages(s: Fs, u: Usage, f: nat, size: nat)
    requires Core(s, u) && f < INODES
    ensures Core(Resized(s, f, size), u) && PagesFor(Resized(s, f, size), u) == PagesFor(s, u)
  {
    ResizedCore(s, u, f, size);
  }

  lemma CreatedCounted(s: Fs, u: Usage, s': Fs, d: nat, id: nat)
    requires FsInv(s, u) && Formed(s') && 2 <= id < INODES && !IsSet(s.ibmap, id) && IsType(s, d, FS_DIR) && id != d
    requires forall g :: 0 <= g < INODES ==> (IsSet(s'.ibmap, g) <==> g == id || IsSet(s.ibmap, g))
    requires s'.inodes[d].tipo == FS_DIR && s'.inodes[d].size == s.inodes[d].size + DENTRY && s'.inodes[id].size == 0
    requires forall g :: 0 <= g < INODES && g != d && g != id ==> s'.inodes[g] == s.inodes[g]
    ensures Counted(s') && s.inodes[d].size + DENTRY <= MAX_SIZE
  {
    hide Core, Sized, IsSet, InodesFrom, EntriesFrom;
    InvParts(s, u);
    CountsCreate(s, s', 0, d, id);
    DirectorySmall(s, u, d);
  }

  lemma CreatedSized(s: Fs, u: Usage, s': Fs, u': Usage, d: nat, id: nat)
    requires FsInv(s, u) && Formed(s') && Shaped(u') && id < INODES && d < INODES && id != d && |u'.slots| == |u.slots|
    requires forall g, t :: 0 <= g < INODES && g != id ==> IsType(s', g, t) == IsType(s, g, t)
    requires s.inodes[d].size + DENTRY <= MAX_SIZE && s'.inodes[d].size == s.inodes[d].size + DENTRY && s'.inodes[id].size == 0 && u'.slots[id] == []
    requires |u'.slots[d]| == OffsetToBlocks(s.inodes[d].size + DENTRY)
    requires forall g :: 0 <= g < INODES && g != d && g != id ==> s'.inodes[g] == s.inodes[g] && u'.slots[g] == u.slots[g]
    ensures Sized(s', u')
  {
    hide Core, Counted, IsSet, OffsetToBlocks;
    InvParts(s, u);
    NoBlocks();
    forall g | 0 <= g < INODES ensures SizedInode(s', u', g) { assert SizedInode(s, u, g); }
  }

  lemma InvPut(s: Fs, u: Usage)
    requires Core(s, u) && Formed(s) && Shaped(u) && Sized(s, u) && Counted(s) && Fits(u)
    ensures FsInv(s, u)
  {
  }

  lemma WrittenParts(s: Fs, u: Usage, s2: Fs, u2: Usage, d: nat, page: Block, nome: seq<Byte>, id: nat)
    requires EntryWritten(s, u, s2, u2, d, page, nome, id)
    ensures FullInv(s, u) && FsInv(s, u) && Core(s2, u2) && Formed(s) && Shaped(u) && IsType(s, d, FS_DIR) && |nome| < NAME && id < 65536
    ensures SameButBlocks(s, s2, d) && |u2.slots| == |u2.dirs| == |u.slots| == INODES && u2.dirs == u.dirs
    ensures forall g :: 0 <= g < INODES && g != d ==> u2.slots[g] == u.slots[g]
    ensures |u2.slots[d]| == OffsetToBlocks(s.inodes[d].size + DENTRY) && s.inodes[d].size % DENTRY == 0
    ensures Fits(u) && FileSlots(u2) == FileSlots(u) && Fits(u2)
  {
    hide Core, FileSlots, Sized, Counted, PageAdded, OffsetToBlocks, TailZero, IsSet;
    FullParts(s, u);
    CoreParts(s2, u2);
    SameFits(u, u2);
  }

  lemma SameFits(u: Usage, u': Usage)
    requires |u.dirs| == |u.slots| && |u'.dirs| == |u'.slots| && FileSlots(u') == FileSlots(u)
    ensures Fits(u') == Fits(u)
  {
    hide FileSlots;
  }

  /** A create keeps the invariant. */
  lemma CreatedFs(s: Fs, u: Usage, s2: Fs, u2: Usage, d: nat, page: Block, nome: seq<Byte>, id: nat, tipo: int)
    requires EntryWritten(s, u, s2, u2, d, page, nome, id) && 2 <= id < INODES && !IsSet(s.ibmap, id) && (tipo == FS_FILE || tipo == FS_DIR)
    ensures d < |s2.inodes| && id < |s2.inodes| && id < 8 * |s2.ibmap| && id < |u2.dirs| && id != d
    ensures FsInv(Created(s2, d, id, tipo), WithDir(u2, id, tipo == FS_DIR))
  {
    hide Core, Fits, FileSlots, LogicalDisk, IsSet, Counted, Sized, SetBit, EntryWritten, OffsetToBlocks, FullInv;
    WrittenParts(s, u, s2, u2, d, page, nome, id);
    CreatedCore(s, u, s2, u2, d, page, nome, id, tipo);
    CoreParts(s2, u2);
    InvParts(s, u);
    FreeInode(s, u, id);
    NewInodeAcc(s2.bmap, s2.refs, u2, id, tipo == FS_DIR);
    SameFits(u2, WithDir(u2, id, tipo == FS_DIR));
    var s', u' := Created(s2, d, id, tipo), WithDir(u2, id, tipo == FS_DIR);
    CoreParts(s', u');
    AccShape(s'.bmap, s'.refs, u');
    CreatedCounted(s, u, s', d, id);
    CreatedSized(s, u, s', u', d, id);
    InvPut(s', u');
  }

  /** The directory gets the entry at its end. */
  lemma CreatedContents(s: Fs, u: Usage, s2: Fs, u2: Usage, d: nat, page: Block, nome: seq<Byte>, id: nat, s': Fs, u': Usage)
    requires EntryWritten(s, u, s2, u2, d, page, nome, id) && FsInv(s', u') && IsType(s', d, FS_DIR)
    requires PagesFor(s', u') == PagesFor(s2, u2) && s'.inodes[d].size == s.inodes[d].size + DENTRY
    ensures Contents(s', u', d) == Contents(s, u, d) + NewEntry(page, s.inodes[d].size, nome, id)
  {
    hide Core, LogicalDisk, IsSet, TailZero, Counted, Tree, PageAdded, OffsetToBlocks, NewEntry;
    FullParts(s, u);
    InvParts(s', u');
    CoreParts(s2, u2);
    SizeAt(s, u, d);
    EntryAppended(PagesFor(s, u)[d], PagesFor(s2, u2)[d], s.inodes[d].size, page, nome, id);
  }

  /** The entry that a create writes behind byte `size` of a directory. */
  function NewEntry(page: Block, size: nat, nome: seq<Byte>, id: nat): (e: seq<Byte>)
    requires |nome| < NAME && id < 65536 && size % DENTRY == 0
    ensures |e| == DENTRY
  {
    EntryFits(size);
    WithEntry(page[size % BLOCK_SIZE..size % BLOCK_SIZE + DENTRY], nome, id)
  }

  lemma EntryFits(size: nat)
    requires size % DENTRY == 0
    ensures size % BLOCK_SIZE + DENTRY <= BLOCK_SIZE
  {
  }

  lemma NoBlocks()
    ensures OffsetToBlocks(0) == 0
  {
  }

  /** What a create leaves of the entries of other directories. */
  lemma EntryStaysOk(s: Fs, s': Fs, d: nat, id: nat, tipo: int, e: seq<Byte>)
    requires Formed(s) && Formed(s') && |e| == DENTRY && EntryOk(s, e) && IsType(s, d, FS_DIR) && id < INODES && IsType(s', id, tipo)
    requires tipo == FS_FILE || tipo == FS_DIR
    requires forall g, t :: 0 <= g < INODES && g != id ==> IsType(s', g, t) == IsType(s, g, t)
    requires forall g :: 0 <= g < INODES && g != d && g != id ==> s'.inodes[g] == s.inodes[g]
    ensures EntryOk(s', e)
  {
  }

  lemma EntriesStayOk(s: Fs, s': Fs, d: nat, id: nat, tipo: int, c: seq<Byte>)
    requires Formed(s) && Formed(s') && EntriesOk(s, c) && IsType(s, d, FS_DIR) && id < INODES && IsType(s', id, tipo)
    requires tipo == FS_FILE || tipo == FS_DIR
    requires forall g, t :: 0 <= g < INODES && g != id ==> IsType(s', g, t) == IsType(s, g, t)
    requires forall g :: 0 <= g < INODES && g != d && g != id ==> s'.inodes[g] == s.inodes[g]
    ensures EntriesOk(s', c)
  {
    forall i | 0 <= i < |c| / DENTRY ensures EntryOk(s', EntryAt(c, i)) {
      assert EntryOk(s, EntryAt(c, i));
      EntryStaysOk(s, s', d, id, tipo, EntryAt(c, i));
    }
  }

  lemma EntriesPlus(s: Fs, c: seq<Byte>, e: seq<Byte>)
    requires Formed(s) && EntriesOk(s, c) && |e| == DENTRY && EntryOk(s, e) && |c| % DENTRY == 0
    ensures EntriesOk(s, c + e)
  {
    forall i | 0 <= i < |c + e| / DENTRY ensures EntryOk(s, EntryAt(c + e, i)) { EntryOfConcat(c, e, i); }
  }

  /** What `Created` makes of a state, as the lemmas about its directories need it. */
  ghost predicate CreatedFrom(s: Fs, u: Usage, s2: Fs, u2: Usage, d: nat, page: Block, nome: seq<Byte>, id: nat, tipo: int, s': Fs, u': Usage) {
    && EntryWritten(s, u, s2, u2, d, page, nome, id) && 2 <= id < INODES && id != d && (tipo == FS_FILE || tipo == FS_DIR) && IsName(nome)
    && Search(Contents(s, u, d), nome, 0) == None
    && FsInv(s', u') && |s2.inodes| == INODES && id < 8 * |s2.ibmap| && s' == Created(s2, d, id, tipo) && id < |u2.dirs| && u' == WithDir(u2, id, tipo == FS_DIR)
    && PagesFor(s', u') == PagesFor(s2, u2) && IsType(s', id, tipo) && u2.slots[id] == []
    && forall h, t :: 0 <= h < INODES && h != id ==> IsType(s', h, t) == IsType(s, h, t)
  }

  lemma CreatedDir(s: Fs, u: Usage, s2: Fs, u2: Usage, d: nat, page: Block, nome: seq<Byte>, id: nat, tipo: int, s': Fs, u': Usage, g: nat)
    requires CreatedFrom(s, u, s2, u2, d, page, nome, id, tipo, s', u') && FsModulo(s', u') && g < INODES
    ensures DirOk(s', u', g)
  {
    hide CreatedFrom;
    if IsType(s', g, FS_DIR) {
      if g == id {
        CreatedNewDir(s, u, s2, u2, d, page, nome, id, tipo, s', u');
      } else if g == d {
        CreatedOwnDir(s, u, s2, u2, d, page, nome, id, tipo, s', u');
      } else {
        CreatedOtherDir(s, u, s2, u2, d, page, nome, id, tipo, s', u', g);
      }
    }
  }

  /** A new directory has no entries. */
  lemma CreatedNewDir(s: Fs, u: Usage, s2: Fs, u2: Usage, d: nat, page: Block, nome: seq<Byte>, id: nat, tipo: int, s': Fs, u': Usage)
    requires CreatedFrom(s, u, s2, u2, d, page, nome, id, tipo, s', u') && FsModulo(s', u')
    ensures DirOk(s', u', id)
  {
    hide Core, Fits, FileSlots, LogicalDisk, IsSet, Counted, Sized, EntryWritten, EntryOk, Search;
    WrittenParts(s, u, s2, u2, d, page, nome, id);
    CreatedInodes(s2, d, id, tipo);
    ModuloParts(s', u');
  }

  /** The directory itself has the entry behind its others. */
  lemma CreatedOwnDir(s: Fs, u: Usage, s2: Fs, u2: Usage, d: nat, page: Block, nome: seq<Byte>, id: nat, tipo: int, s': Fs, u': Usage)
    requires CreatedFrom(s, u, s2, u2, d, page, nome, id, tipo, s', u') && FsModulo(s', u')
    ensures DirOk(s', u', d)
  {
    hide Core, Fits, FileSlots, LogicalDisk, IsSet, Counted, Sized, PageAdded, EntryOk, WithInode, UniqueNames, Search, NewEntry, OffsetToBlocks;
    FullParts(s, u);
    ModuloParts(s', u');
    CoreParts(s2, u2);
    CreatedInodes(s2, d, id, tipo);
    assert DirOk(s, u, d);
    SizeAt(s, u, d);
    var c, e := Contents(s, u, d), NewEntry(page, s.inodes[d].size, nome, id);
    EntriesStayOk(s, s', d, id, tipo, c);
    CreatedContents(s, u, s2, u2, d, page, nome, id, s', u');
    NewEntryOk(s', page, s.inodes[d].size, nome, id, tipo);
    EntriesPlus(s', c, e);
    UniquePlus(c, e);
  }

  lemma CreatedOtherDir(s: Fs, u: Usage, s2: Fs, u2: Usage, d: nat, page: Block, nome: seq<Byte>, id: nat, tipo: int, s': Fs, u': Usage, g: nat)
    requires CreatedFrom(s, u, s2, u2, d, page, nome, id, tipo, s', u') && FsModulo(s', u') && g < INODES && g != d && g != id
    ensures DirOk(s', u', g)
  {
    hide Core, Fits, FileSlots, LogicalDisk, IsSet, Counted, Sized, PageAdded, EntryOk, WithInode, UniqueNames, Search;
    FullParts(s, u);
    ModuloParts(s', u');
    CoreParts(s2, u2);
    CreatedInodes(s2, d, id, tipo);
    if IsType(s', g, FS_DIR) {
      assert DirOk(s, u, g);
      SizeAt(s, u, g);
      EntriesStayOk(s, s', d, id, tipo, Contents(s, u, g));
      OtherContents(s, u, s2, u2, d, page, nome, id, s', u', g);
    }
  }

  lemma OtherContents(s: Fs, u: Usage, s2: Fs, u2: Usage, d: nat, page: Block, nome: seq<Byte>, id: nat, s': Fs, u': Usage, g: nat)
    requires EntryWritten(s, u, s2, u2, d, page, nome, id) && FsModulo(s', u') && PagesFor(s', u') == PagesFor(s2, u2)
    requires g < INODES && g != d && IsType(s, g, FS_DIR) && IsType(s', g, FS_DIR) && s'.inodes[g].size == s.inodes[g].size
    ensures Contents(s', u', g) == Contents(s, u, g)
  {
    hide Core, Fits, FileSlots, LogicalDisk, IsSet, TailZero, Counted, Tree, PageAdded, OffsetToBlocks;
    FullParts(s, u);
    ModuloParts(s', u');
  }

  lemma CreatedInodes(s2: Fs, d: nat, id: nat, tipo: int)
    requires |s2.inodes| == INODES && d < INODES && id < INODES && id != d && id < 8 * |s2.ibmap|
    ensures var s' := Created(s2, d, id, tipo);
      && |s'.inodes| == INODES && s'.inodes[id] == Inode(tipo, 0, NO_BLOCKS) && s'.inodes[d] == s2.inodes[d].(size := s2.inodes[d].size + DENTRY)
      && forall g :: 0 <= g < INODES && g != d && g != id ==> s'.inodes[g] == s2.inodes[g]
  {
  }

  lemma NewEntryOk(s: Fs, page: Block, size: nat, nome: seq<Byte>, id: nat, tipo: int)
    requires Formed(s) && size % DENTRY == 0 && IsName(nome) && 2 <= id < INODES && IsType(s, id, tipo) && (tipo == FS_FILE || tipo == FS_DIR)
    ensures EntryOk(s, NewEntry(page, size, nome, id))
    ensures EntryName(NewEntry(page, size, nome, id)) == nome && IdOf(NewEntry(page, size, nome, id)) == id
  {
    hide IsSet;
    EntryFits(size);
    EntryRoundTrip(page[size % BLOCK_SIZE..size % BLOCK_SIZE + DENTRY], nome, id);
  }

  /** A create keeps the whole invariant; its directory then leads to the new inode under the name, and
      to what it led to before under every other name. */
  lemma CreatedFull(s: Fs, u: Usage, s2: Fs, u2: Usage, d: nat, page: Block, nome: seq<Byte>, id: nat, tipo: int)
    requires EntryWritten(s, u, s2, u2, d, page, nome, id) && 2 <= id < INODES && !IsSet(s.ibmap, id) && (tipo == FS_FILE || tipo == FS_DIR)
    requires IsName(nome) && Search(Contents(s, u, d), nome, 0) == None
    ensures d < |s2.inodes| && id < |s2.inodes| && id < 8 * |s2.ibmap| && id < |u2.dirs| && id != d
    ensures var s', u' := Created(s2, d, id, tipo), WithDir(u2, id, tipo == FS_DIR);
      && FullInv(s', u') && IsType(s', d, FS_DIR) && IsType(s', id, tipo)
      && Search(Contents(s', u', d), nome, 0) == Some(id) && EntryAdded(Contents(s, u, d), Contents(s', u', d), nome, id)
      && forall other :: other != nome ==> Search(Contents(s', u', d), other, 0) == Search(Contents(s, u, d), other, 0)
  {
    hide Core, LogicalDisk, IsSet, Counted, Sized, EntryWritten, SetBit, EntryOk, Created, Search, NewEntry;
    WrittenParts(s, u, s2, u2, d, page, nome, id);
    CreatedCore(s, u, s2, u2, d, page, nome, id, tipo);
    CreatedFs(s, u, s2, u2, d, page, nome, id, tipo);
    FreeInode(s, u, id);
    CoreParts(s2, u2);
    CreatedInodes(s2, d, id, tipo);
    var s', u' := Created(s2, d, id, tipo), WithDir(u2, id, tipo == FS_DIR);
    forall g | 0 <= g < INODES ensures DirOk(s', u', g) { CreatedDir(s, u, s2, u2, d, page, nome, id, tipo, s', u', g); }
    CoreParts(s', u');
    CreatedContents(s, u, s2, u2, d, page, nome, id, s', u');
    var c, e := Contents(s, u, d), NewEntry(page, s.inodes[d].size, nome, id);
    NewEntryOk(s', page, s.inodes[d].size, nome, id, tipo);
    SearchAppended(c, e, nome, 0);
    assert (c + e)[..|c|] == c && (c + e)[|c|..] == e;
    forall other | other != nome ensures Search(c + e, other, 0) == Search(c, other, 0) { SearchAppended(c, e, other, 0); }
  }

  /** The entries of one page of a directory. */
  lemma EntriesOfPage(ps: Pages, size: nat, k: nat, n: nat)
    requires size <= BLOCK_SIZE * |ps| && k < |ps| && n <= PAGE_ENTRIES && DENTRY * (PAGE_ENTRIES * k + n) <= size
    ensures forall i :: 0 <= i < n ==> PageEntry(ps[k], i) == EntryAt(Bytes(ps, size), PAGE_ENTRIES * k + i)
  {
    hide Bytes, EntryAt;
    forall i | 0 <= i < n ensures PageEntry(ps[k], i) == EntryAt(Bytes(ps, size), PAGE_ENTRIES * k + i) {
      EntryInPage(ps, size, PAGE_ENTRIES * k + i);
      assert (PAGE_ENTRIES * k + i) / PAGE_ENTRIES == k && (PAGE_ENTRIES * k + i) % PAGE_ENTRIES == i;
    }
  }

  lemma DirPages(s: Fs, u: Usage, d: nat)
    requires FsInv(s, u) && IsType(s, d, FS_DIR)
    ensures Formed(s) && |s.inodes| == |u.slots| == INODES && d < |PagesFor(s, u)| && |PagesFor(s, u)[d]| == |u.slots[d]| <= INODE_NUM_BLKS
    ensures s.inodes[d].size <= BLOCK_SIZE * |PagesFor(s, u)[d]| && s.inodes[d].size % DENTRY == 0
    ensures Contents(s, u, d) == Bytes(PagesFor(s, u)[d], s.inodes[d].size)
    ensures forall k :: 0 <= k < |u.slots[d]| ==> u.slots[d][k] == s.inodes[d].blocks[k]
    ensures |s.inodes[d].blocks| == INODE_NUM_BLKS
  {
    hide Core, Sized, Counted, IsSet, LogicalDisk;
    InvParts(s, u);
    SizeAt(s, u, d);
    LinkedAt(s, u, d);
    DirectorySmall(s, u, d);
  }

  /** A directory with room for its next entry: its next page is among its slots. */
  ghost predicate EntryReady(s: Fs, u: Usage, s1: Fs, u1: Usage, d: nat) {
    && FullInv(s, u) && Core(s1, u1) && IsType(s, d, FS_DIR) && IsType(s1, d, FS_DIR)
    && SameButBlocks(s, s1, d) && |u1.slots| == |u.slots| == INODES && u1.dirs == u.dirs && s1.cache == s.cache
    && (forall g :: 0 <= g < INODES && g != d ==> u1.slots[g] == u.slots[g] && PagesFor(s1, u1)[g] == PagesFor(s, u)[g])
    && TailZero(s1, u1, d) && s.inodes[d].size % DENTRY == 0
    && |u1.slots[d]| == |PagesFor(s1, u1)[d]| == OffsetToBlocks(s.inodes[d].size + DENTRY) && s.inodes[d].size / BLOCK_SIZE < |u1.slots[d]|
    && |PagesFor(s, u)[d]| <= |PagesFor(s1, u1)[d]| && PagesFor(s1, u1)[d][..|PagesFor(s, u)[d]|] == PagesFor(s, u)[d]
    && (NoRepeat(u) ==> NoRepeat(u1)) && FileSlots(u1) == FileSlots(u)
  }

  lemma EntryBlock(size: nat)
    requires size % DENTRY == 0
    ensures size % BLOCK_SIZE == 0 ==> OffsetToBlocks(size) == size / BLOCK_SIZE && OffsetToBlocks(size + DENTRY) == OffsetToBlocks(size) + 1
    ensures size % BLOCK_SIZE != 0 ==> size / BLOCK_SIZE < OffsetToBlocks(size) == OffsetToBlocks(size + DENTRY)
    ensures size <= DENTRY * 61 ==> size / BLOCK_SIZE <= 1
  {
  }

  lemma EntryStart(s: Fs, u: Usage, d: nat)
    requires FullInv(s, u) && IsType(s, d, FS_DIR) && s.inodes[d].size % BLOCK_SIZE != 0
    ensures EntryReady(s, u, s, u, d)
  {
    hide Core, LogicalDisk, IsSet, Counted, Sized, OffsetToBlocks, EntriesOk;
    FullParts(s, u);
    DirPages(s, u, d);
    SizeAt(s, u, d);
    CoreParts(s, u);
    EntryBlock(s.inodes[d].size);
    assert DirOk(s, u, d);
    var i := s.inodes[d];
    assert s.inodes[d := i.(blocks := i.blocks)] == s.inodes;
  }

  lemma EntryNewBlock(s: Fs, u: Usage, s1: Fs, u1: Usage, d: nat, b: nat)
    requires FullInv(s, u) && Core(s1, u1) && IsType(s, d, FS_DIR) && IsType(s1, d, FS_DIR) && s.inodes[d].size % BLOCK_SIZE == 0
    requires SameButBlocks(s, s1, d) && s1.cache == s.cache && d < |u.slots| && u1 == SetSlots(u, d, u.slots[d] + [b])
    requires |u.slots[d]| < |s.inodes[d].blocks| && s1.inodes[d].blocks == s.inodes[d].blocks[|u.slots[d]| := b]
    requires b < |LogicalDisk(s.cache)| && d < |PagesFor(s, u)| && PagesFor(s1, u1) == PlusPage(PagesFor(s, u), d, LogicalDisk(s.cache)[b])
    requires FreshBlock(u, b)
    ensures EntryReady(s, u, s1, u1, d)
  {
    hide Core, FileSlots, LogicalDisk, IsSet, Counted, Sized, OffsetToBlocks, EntriesOk, PagesFor;
    FullParts(s, u);
    DirPages(s, u, d);
    PagesCount(s, u);
    PagesCount(s1, u1);
    SizeAt(s, u, d);
    CoreParts(s1, u1);
    CoreParts(s, u);
    EntryBlock(s.inodes[d].size);
    assert DirOk(s, u, d);
    LinkedAt(s, u, d);
    SlotsAppend(u, d, b);
    ReservedFresh(u, d, b);
  }

  lemma EntryReadyParts(s: Fs, u: Usage, s1: Fs, u1: Usage, d: nat)
    requires EntryReady(s, u, s1, u1, d)
    ensures Core(s1, u1) && IsType(s1, d, FS_DIR) && |s1.inodes| == INODES && d < |u1.slots| && s1.inodes[d].size == s.inodes[d].size
    ensures s.inodes[d].size / BLOCK_SIZE < |u1.slots[d]| <= |s1.inodes[d].blocks|
    ensures u1.slots[d][s.inodes[d].size / BLOCK_SIZE] == s1.inodes[d].blocks[s.inodes[d].size / BLOCK_SIZE]
    ensures NoRepeat(u) ==> NoRepeat(u1)
  {
    hide Core, LogicalDisk, IsSet, Counted, Sized, OffsetToBlocks, FullInv, PagesFor;
    CoreParts(s1, u1);
    LinkedAt(s1, u1, d);
  }

  lemma EntryReadyWrite(s: Fs, u: Usage, s1: Fs, u1: Usage, d: nat, page: Block, nome: seq<Byte>, id: nat)
    requires EntryReady(s, u, s1, u1, d) && |nome| < NAME && id < 65536 && s.inodes[d].size % BLOCK_SIZE + DENTRY <= BLOCK_SIZE
    requires d < |PagesFor(s1, u1)| && s.inodes[d].size / BLOCK_SIZE < |PagesFor(s1, u1)[d]| && page == PagesFor(s1, u1)[d][s.inodes[d].size / BLOCK_SIZE]
    requires s.inodes[d].size / BLOCK_SIZE < |u1.slots[d]|
    ensures var k := s.inodes[d].size / BLOCK_SIZE;
      var s2 := s1.(cache := RawWrite(s1.cache, u1.slots[d][k], WithEntryAt(page, s.inodes[d].size % BLOCK_SIZE, nome, id)));
      Core(s2, u1) && EntryWritten(s, u, s2, u1, d, page, nome, id)
  {
    hide Core, LogicalDisk, IsSet, Counted, Sized, OffsetToBlocks, Tree, PagesFor, RawWrite, WithEntryAt;
    FullParts(s, u);
    PagesCount(s, u);
    PagesCount(s1, u1);
    var k := s.inodes[d].size / BLOCK_SIZE;
    var nova := WithEntryAt(page, s.inodes[d].size % BLOCK_SIZE, nome, id);
    DirPageCore(s1, u1, d, k, nova);
    var ps, ps1 := PagesFor(s, u)[d], PagesFor(s1, u1)[d];
    assert forall j :: 0 <= j < |ps| ==> ps[j] == ps1[..|ps|][j] == ps1[j];
  }

  /** When a create succeeds: a proper name that is not there yet, in a directory, and a free inode. */
  ghost predicate CanCreate(s: Fs, u: Usage, d: nat, nome: seq<Byte>) {
    && FullInv(s, u) && 0 < |nome| < NAME && IsType(s, d, FS_DIR) && Search(Contents(s, u, d), nome, 0) == None
    && exists id :: 0 <= id < INODES && !IsSet(s.ibmap, id)
  }

  /** What a create does: the free inode `id` is an empty file or directory, the directory leads to it under
      the name and to the same as before under all other names, and no other inode changed. */
  ghost predicate IsCreated(s: Fs, u: Usage, s': Fs, u': Usage, d: nat, nome: seq<Byte>, id: nat, tipo: int) {
    && FullInv(s, u) && FullInv(s', u') && IsType(s, d, FS_DIR) && IsType(s', d, FS_DIR)
    && 2 <= id < INODES && !IsSet(s.ibmap, id) && IsType(s', id, tipo) && s'.inodes[id].size == 0
    && |u'.slots| == |u.slots| == |u'.dirs| == |u.dirs| == INODES && u'.slots[id] == [] && FileSlots(u') == FileSlots(u)
    && (forall g :: 0 <= g < INODES && g != d ==> u'.slots[g] == u.slots[g])
    && Search(Contents(s, u, d), nome, 0) == None && Search(Contents(s', u', d), nome, 0) == Some(id)
    && EntryAdded(Contents(s, u, d), Contents(s', u', d), nome, id)
    && (forall other :: other != nome ==> Search(Contents(s', u', d), other, 0) == Search(Contents(s, u, d), other, 0))
    && |PagesFor(s, u)| == |PagesFor(s', u')| == INODES
    && forall g :: 0 <= g < INODES && g != id ==>
      && (IsSet(s'.ibmap, g) <==> IsSet(s.ibmap, g))
      && (g != d ==> s'.inodes[g] == s.inodes[g] && PagesFor(s', u')[g] == PagesFor(s, u)[g])
  }

  lemma CreatedIs(s: Fs, u: Usage, s2: Fs, u2: Usage, d: nat, page: Block, nome: seq<Byte>, id: nat, tipo: int)
    requires EntryWritten(s, u, s2, u2, d, page, nome, id) && 2 <= id < INODES && !IsSet(s.ibmap, id) && (tipo == FS_FILE || tipo == FS_DIR)
    requires IsName(nome) && Search(Contents(s, u, d), nome, 0) == None
    ensures d < |s2.inodes| && id < |s2.inodes| && id < 8 * |s2.ibmap| && id < |u2.dirs| && id != d
    ensures FullInv(Created(s2, d, id, tipo), WithDir(u2, id, tipo == FS_DIR))
    ensures IsCreated(s, u, Created(s2, d, id, tipo), WithDir(u2, id, tipo == FS_DIR), d, nome, id, tipo)
    ensures NoRepeat(u2) ==> NoRepeat(WithDir(u2, id, tipo == FS_DIR))
  {
    hide Core, Fits, FileSlots, LogicalDisk, IsSet, Counted, Sized, EntryWritten, Created, Search, FullInv, PagesFor, Contents, IsType, SetBit;
    CreatedFull(s, u, s2, u2, d, page, nome, id, tipo);
    CreatedCore(s, u, s2, u2, d, page, nome, id, tipo);
    OtherPages(s, u, s2, u2, d, page, nome, id);
    WrittenParts(s, u, s2, u2, d, page, nome, id);
    CoreParts(s2, u2);
    CreatedInodes(s2, d, id, tipo);
    CreatedSlots(s, u, s2, u2, d, page, nome, id, tipo);
    assert WithDir(u2, id, tipo == FS_DIR).slots == u2.slots;
  }

  lemma CreatedSlots(s: Fs, u: Usage, s2: Fs, u2: Usage, d: nat, page: Block, nome: seq<Byte>, id: nat, tipo: int)
    requires EntryWritten(s, u, s2, u2, d, page, nome, id) && 2 <= id < INODES && !IsSet(s.ibmap, id) && id < |u2.dirs|
    ensures var u' := WithDir(u2, id, tipo == FS_DIR);
      && |u'.slots| == |u.slots| == |u'.dirs| == |u.dirs| == INODES && u'.slots[id] == [] && FileSlots(u') == FileSlots(u)
      && forall g :: 0 <= g < INODES && g != d ==> u'.slots[g] == u.slots[g]
  {
    hide Core, Fits, FileSlots, LogicalDisk, IsSet, Counted, Sized, EntryWritten, FullInv, PagesFor;
    WrittenParts(s, u, s2, u2, d, page, nome, id);
    InvParts(s, u);
    FreeInode(s, u, id);
    CoreParts(s2, u2);
    NewInodeAcc(s2.bmap, s2.refs, u2, id, tipo == FS_DIR);
  }

  lemma OtherPages(s: Fs, u: Usage, s2: Fs, u2: Usage, d: nat, page: Block, nome: seq<Byte>, id: nat)
    requires EntryWritten(s, u, s2, u2, d, page, nome, id)
    ensures Core(s, u) && |PagesFor(s, u)| == |PagesFor(s2, u2)| == INODES
    ensures forall g :: 0 <= g < INODES && g != d ==> PagesFor(s2, u2)[g] == PagesFor(s, u)[g]
  {
    hide Core, Sized, Counted, PageAdded, OffsetToBlocks, TailZero, IsSet, LogicalDisk;
    FullParts(s, u);
  }

  lemma PagesCount(s: Fs, u: Usage)
    requires Core(s, u)
    ensures |PagesFor(s, u)| == |u.slots| == INODES && forall g :: 0 <= g < INODES ==> |PagesFor(s, u)[g]| == |u.slots[g]|
  {
    hide LogicalDisk, Linked, RawOk, Roots, BitsOk, RefsOk, DirsAlone, CacheInv;
  }
}
