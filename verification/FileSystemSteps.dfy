/** The elementary steps of the file system: taking a block, copying on write, giving a block up,
    sharing one. Each keeps the account of blocks and changes the pages it means to change. */
module FileSystemSteps {
  import opened Block
  import opened CacheSpec
  import opened Bitmap
  import opened Accounting
  import opened FileSystemSpec

  function WithBlock(i: Inode, k: nat, b: nat): Inode
    requires k < |i.blocks|
  {
    i.(blocks := i.blocks[k := b])
  }

  function SetBlock(s: Fs, f: nat, k: nat, b: nat): Fs
    requires f < |s.inodes| && k < |s.inodes[f].blocks|
  {
    s.(inodes := s.inodes[f := WithBlock(s.inodes[f], k, b)])
  }

  // ---------- What the parts of the invariant depend on ----------

  lemma RawKeeps(c: CacheState, u: Usage, u': Usage)
    requires |u.dirs| == |u.slots| && |u'.dirs| == |u'.slots| && RawOk(c, u)
    requires forall b: nat :: FileSlots(u)[b] > 0 ==> FileSlots(u')[b] > 0
    ensures RawOk(c, u')
  {
  }

  /** Changing the slots of one inode, in the table and in the account. */
  lemma LinkedSlots(s: Fs, u: Usage, f: nat, k: nat, b: nat, slots: seq<nat>)
    requires Formed(s) && Shaped(u) && Linked(s, u) && f < INODES && k < INODE_NUM_BLKS && |slots| <= INODE_NUM_BLKS
    requires slots == s.inodes[f].blocks[k := b][..|slots|]
    requires IsType(s, f, FS_DIR) || IsType(s, f, FS_FILE)
    ensures Formed(SetBlock(s, f, k, b)) && Shaped(SetSlots(u, f, slots)) && Linked(SetBlock(s, f, k, b), SetSlots(u, f, slots))
  {
    var s', u' := SetBlock(s, f, k, b), SetSlots(u, f, slots);
    forall g | 0 <= g < INODES ensures LinkedInode(s', u', g) { assert LinkedInode(s, u, g); }
  }

  lemma RootsSlots(s: Fs, u: Usage, f: nat, k: nat, b: nat, slots: seq<nat>)
    requires Formed(s) && Shaped(u) && Roots(s, u) && f < INODES && k < INODE_NUM_BLKS && |slots| <= INODE_NUM_BLKS
    requires f == 1 ==> |slots| < INODE_NUM_BLKS
    ensures Roots(SetBlock(s, f, k, b), SetSlots(u, f, slots))
  {
  }

  /** The inode table after a change of slots of one inode. */
  lemma TableSlots(s: Fs, s': Fs, u: Usage, f: nat, k: nat, b: nat, slots: seq<nat>)
    requires Core(s, u) && f < INODES && k < INODE_NUM_BLKS && |slots| <= INODE_NUM_BLKS && (f == 1 ==> |slots| < INODE_NUM_BLKS)
    requires slots == s.inodes[f].blocks[k := b][..|slots|] && (IsType(s, f, FS_DIR) || IsType(s, f, FS_FILE))
    requires s'.inodes == SetBlock(s, f, k, b).inodes && s'.ibmap == s.ibmap && |s'.refs| == |s.refs| && s'.cache == s.cache
    ensures Formed(s') && Shaped(SetSlots(u, f, slots)) && Linked(s', SetSlots(u, f, slots)) && Roots(s', SetSlots(u, f, slots))
    ensures CacheInv(s'.cache)
  {
    hide BitsOk, RefsOk, DirsAlone, RawOk, CacheInv, Linked, Roots, IsSet;
    LinkedSlots(s, u, f, k, b, slots);
    LinkedOther(SetBlock(s, f, k, b), s', SetSlots(u, f, slots));
    RootsSlots(s, u, f, k, b, slots);
    RootsOther(SetBlock(s, f, k, b), s', SetSlots(u, f, slots));
  }

  /** The parts of `Core` put together. */
  lemma CorePut(s: Fs, u: Usage)
    requires Formed(s) && Acc(s.bmap, s.refs, u) && Linked(s, u) && CacheInv(s.cache) && RawOk(s.cache, u) && Roots(s, u)
    ensures Core(s, u)
  {
  }

  lemma CoreParts(s: Fs, u: Usage)
    requires Core(s, u)
    ensures Formed(s) && Acc(s.bmap, s.refs, u) && Linked(s, u) && CacheInv(s.cache) && RawOk(s.cache, u) && Roots(s, u)
    ensures |u.dirs| == |u.slots| == INODES && |s.bmap| == |s.ibmap| == BMAP_BITS / 8
    ensures AllOnDisk(u, LogicalDisk(s.cache)) && |LogicalDisk(s.cache)| == |s.cache.disk|
    ensures u.slots[0] == []
  {
    CoreOnDisk(s, u);
    assert LinkedInode(s, u, 0);
  }

  lemma LinkedAt(s: Fs, u: Usage, f: nat)
    requires Core(s, u) && f < INODES
    ensures u.dirs[f] == IsType(s, f, FS_DIR) && |u.slots[f]| <= INODE_NUM_BLKS == |s.inodes[f].blocks|
    ensures u.slots[f] == s.inodes[f].blocks[..|u.slots[f]|]
    ensures forall k :: 0 <= k < |u.slots[f]| ==> u.slots[f][k] == s.inodes[f].blocks[k] && FIRST_DATA <= u.slots[f][k] < NUM_BLOCOS_MAX
  {
    hide BitsOk, RefsOk, DirsAlone, RawOk, Roots, CacheInv;
    assert LinkedInode(s, u, f);
  }

  // ---------- Taking a block ----------

  /** Block `b` becomes the next slot of inode `f`; a directory's block is not counted. */
  function Reserved(s: Fs, u: Usage, f: nat, b: nat): Fs
    requires Formed(s) && Shaped(u) && f < INODES && |u.slots[f]| < INODE_NUM_BLKS && b < 8 * |s.bmap| && b < |s.refs|
  {
    SetBlock(s, f, |u.slots[f]|, b).(bmap := SetBit(s.bmap, b), refs := if u.dirs[f] then s.refs else s.refs[b := Up(s.refs[b])])
  }

  lemma ReservedCore(s: Fs, u: Usage, f: nat, b: nat)
    requires Core(s, u) && (IsType(s, f, FS_FILE) || IsType(s, f, FS_DIR)) && |u.slots[f]| < INODE_NUM_BLKS
    requires f == 1 ==> |u.slots[f]| + 1 < INODE_NUM_BLKS
    requires FIRST_DATA <= b < NUM_BLOCOS_MAX && !IsSet(s.bmap, b)
    ensures b < 8 * |s.bmap| && b < |s.refs|
    ensures var s', u', d := Reserved(s, u, f, b), SetSlots(u, f, u.slots[f] + [b]), LogicalDisk(s.cache);
      Core(s', u') && AllOnDisk(u, d) && AllOnDisk(u', d) && b < |d| && AllPages(d, u') == PlusPage(AllPages(d, u), f, d[b])
    ensures forall g, k :: 0 <= g < INODES && 0 <= k < |u.slots[g]| ==> u.slots[g][k] != b
    ensures |u.dirs| == |u.slots| && (Fits(u) ==> Fits(SetSlots(u, f, u.slots[f] + [b])))
  {
    hide Core, Fits, Acc, Linked, CacheInv, RawOk, Roots, AllPages, AllOnDisk, Logical, LogicalDisk, IsSet, SetBit, FileSlots, DirSlots;
    CoreParts(s, u);
    AccShape(s.bmap, s.refs, u);
    LinkedAt(s, u, f);
    var n := |u.slots[f]|;
    var s', u', d := Reserved(s, u, f, b), SetSlots(u, f, u.slots[f] + [b]), LogicalDisk(s.cache);
    ReserveAcc(s.bmap, s.refs, u, f, b);
    SlotsAppend(u, f, b);
    FreeUnnamed(s.bmap, s.refs, u, b);
    assert u'.slots[f] == s.inodes[f].blocks[n := b][..n + 1];
    TableSlots(s, s', u, f, n, b, u'.slots[f]);
    RawKeeps(s.cache, u, u');
    AppendedPages(d, u, f, b);
    CorePut(s', u');
  }

  lemma AccShape(bmap: Bits, refs: seq<Char>, u: Usage)
    requires Acc(bmap, refs, u)
    ensures Shaped(u) && 8 * |bmap| == BMAP_BITS && |refs| >= NUM_BLOCOS_MAX && InRange(u.slots)
  {
  }

  /** Links depend on the inode table and its bitmap only. */
  lemma LinkedOther(s: Fs, s': Fs, u: Usage)
    requires Formed(s) && Formed(s') && Shaped(u) && Linked(s, u) && s'.inodes == s.inodes && s'.ibmap == s.ibmap
    ensures Linked(s', u)
  {
    forall g | 0 <= g < INODES ensures LinkedInode(s', u, g) { assert LinkedInode(s, u, g); }
  }

  lemma RootsOther(s: Fs, s': Fs, u: Usage)
    requires Formed(s) && Formed(s') && Shaped(u) && Roots(s, u) && s'.inodes == s.inodes && s'.ibmap == s.ibmap
    ensures Roots(s', u)
  {
  }

  // ---------- Copy on write ----------

  /** The slot `k` of file `f` gets its own block `b` instead of a shared one. */
  function Replaced(s: Fs, u: Usage, f: nat, k: nat, b: nat): Fs
    requires Formed(s) && Shaped(u) && f < INODES && k < |u.slots[f]| && b < 8 * |s.bmap| && b < |s.refs| && u.slots[f][k] < |s.refs|
  {
    var o := u.slots[f][k];
    SetBlock(s, f, k, b).(bmap := SetBit(s.bmap, b), refs := s.refs[b := Up(s.refs[b])][o := Down(s.refs[o])])
  }

  lemma ReplacedCore(s: Fs, u: Usage, f: nat, k: nat, b: nat)
    requires Core(s, u) && |u.dirs| == |u.slots|
    requires IsType(s, f, FS_FILE) && k < |u.slots[f]| && u.slots[f][k] < |s.refs| && s.refs[u.slots[f][k]] != 0 && s.refs[u.slots[f][k]] != 1
    requires FIRST_DATA <= b < NUM_BLOCOS_MAX && !IsSet(s.bmap, b)
    ensures b < 8 * |s.bmap| && b < |s.refs|
    ensures var s', u', d := Replaced(s, u, f, k, b), SetSlots(u, f, u.slots[f][k := b]), LogicalDisk(s.cache);
      && Core(s', u') && AllOnDisk(u, d) && AllOnDisk(u', d) && b < |d|
      && AllPages(d, u') == WithPage(AllPages(d, u), f, k, d[b])
      && s'.refs[b] == 1 && u.slots[f][k] != b && (Fits(u) ==> Fits(u'))
  {
    hide Core, Fits, Acc, Linked, CacheInv, RawOk, Roots, AllPages, AllOnDisk, Logical, LogicalDisk, SetBit, FileSlots, DirSlots;
    CoreParts(s, u);
    AccShape(s.bmap, s.refs, u);
    LinkedAt(s, u, f);
    var n := |u.slots[f]|;
    var s', u', d := Replaced(s, u, f, k, b), SetSlots(u, f, u.slots[f][k := b]), LogicalDisk(s.cache);
    FileOnly(s, u, f);
    ReplaceAcc(s.bmap, s.refs, u, f, k, b);
    ReplacedNames(u, f, k, b);
    assert u'.slots[f] == s.inodes[f].blocks[k := b][..n];
    TableSlots(s, s', u, f, k, b, u'.slots[f]);
    RawKeeps(s.cache, u, u');
    RenamedPages(d, u, f, k, b);
    CorePut(s', u');
  }

  lemma ReplacedNames(u: Usage, f: nat, k: nat, b: nat)
    requires |u.dirs| == |u.slots| && f < |u.slots| && !u.dirs[f] && k < |u.slots[f]| && FileSlots(u)[u.slots[f][k]] > 1
    ensures forall m: nat :: FileSlots(u)[m] > 0 ==> FileSlots(SetSlots(u, f, u.slots[f][k := b]))[m] > 0
  {
    SlotsReplace(u, f, k, b);
    var u', o := SetSlots(u, f, u.slots[f][k := b]), u.slots[f][k];
    forall m: nat | FileSlots(u)[m] > 0 ensures FileSlots(u')[m] > 0 {
      assert (FileSlots(u') + multiset{o})[m] == (FileSlots(u) + multiset{b})[m];
    }
  }

  lemma FileOnly(s: Fs, u: Usage, f: nat)
    requires Core(s, u) && IsType(s, f, FS_FILE)
    ensures f != 1 && f != 0 && !u.dirs[f] && !IsType(s, f, FS_DIR)
  {
    assert LinkedInode(s, u, f);
  }

  // ---------- Giving a block up ----------

  /** The first slot in use of inode `f` is dropped from the account. */
  function Dropped(s: Fs, b: nat): Fs
    requires b < 8 * |s.bmap| && b < |s.refs|
  {
    if s.refs[b] > 1 then s.(refs := s.refs[b := Down(s.refs[b])])
    else s.(refs := s.refs[b := 0], bmap := ClrBit(s.bmap, b))
  }

  /** All of `Core` but the links of one inode, whose slots are being given up. */
  ghost predicate CoreBut(s: Fs, u: Usage, f: nat) {
    && Formed(s) && Acc(s.bmap, s.refs, u) && CacheInv(s.cache) && RawOk(s.cache, u) && Roots(s, u)
    && f < INODES && forall g :: 0 <= g < INODES && g != f ==> LinkedInode(s, u, g)
  }

  lemma CoreIsBut(s: Fs, u: Usage, f: nat)
    requires f < INODES
    ensures Core(s, u) ==> CoreBut(s, u, f)
    ensures CoreBut(s, u, f) && u.slots[f] == [] && u.dirs[f] == IsType(s, f, FS_DIR) ==> Core(s, u)
  {
    hide BitsOk, RefsOk, DirsAlone, RawOk, CacheInv, IsSet;
  }

  lemma ButParts(s: Fs, u: Usage, f: nat)
    requires CoreBut(s, u, f)
    ensures Formed(s) && Acc(s.bmap, s.refs, u) && CacheInv(s.cache) && RawOk(s.cache, u) && Roots(s, u)
    ensures |u.dirs| == |u.slots| == INODES && f < INODES
    ensures AllOnDisk(u, LogicalDisk(s.cache)) && |LogicalDisk(s.cache)| == |s.cache.disk|
    ensures forall k :: 0 <= k < |u.slots[f]| ==> FIRST_DATA <= u.slots[f][k] < NUM_BLOCOS_MAX
  {
    hide BitsOk, RefsOk, DirsAlone, RawOk, CacheInv, Roots, LinkedInode, Logical, LogicalDisk, IsSet;
    LogicalSize(s.cache);
  }

  lemma LogicalSize(c: CacheState)
    ensures |LogicalDisk(c)| == |c.disk|
  {
  }

  /** The account after dropping the first slot of `f`, with the block's content gone if it was the last. */
  function DroppedFrom(s: Fs, u: Usage, f: nat, b: nat): Fs
    requires f < |u.dirs| && b < 8 * |s.bmap| && b < |s.refs|
  {
    Dropped(s, b).(cache := if s.refs[b] > 1 then s.cache
                            else if u.dirs[f] then RawWrite(s.cache, b, Zeros())
                            else Eliminate(s.cache, b))
  }

  /** What giving up a block does to the tables and the disk, whatever its count says. */
  function Erased(s: Fs, f: nat, b: nat): Fs
    requires f < |s.inodes| && b < 8 * |s.bmap| && b < |s.refs|
  {
    Dropped(s, b).(cache := if s.refs[b] > 1 then s.cache
                            else if s.inodes[f].tipo == FS_DIR then RawWrite(s.cache, b, Zeros())
                            else Eliminate(s.cache, b))
  }

  /** Giving up a block: a count above 1 goes down by one and nothing else changes; otherwise the block is free, has no
      references, and reads as zeros. */
  lemma ErasedEffect(s: Fs, f: nat, b: nat)
    requires f < |s.inodes| && b < 8 * |s.bmap| && b < |s.refs| && CacheInv(s.cache) && b < |s.cache.disk|
    requires s.inodes[f].tipo == FS_DIR ==> !HasValid(s.cache, b)
    ensures var s' := Erased(s, f, b);
      && s' == s.(refs := s'.refs, bmap := s'.bmap, cache := s'.cache)
      && (s.refs[b] > 1 ==> s'.refs == s.refs[b := s.refs[b] - 1] && s'.bmap == s.bmap && s'.cache == s.cache)
      && (s.refs[b] <= 1 ==>
            && s'.refs == s.refs[b := 0] && LogicalDisk(s'.cache) == LogicalDisk(s.cache)[b := Zeros()]
            && 8 * |s'.bmap| == 8 * |s.bmap| && forall n :: 0 <= n < 8 * |s.bmap| ==> (IsSet(s'.bmap, n) <==> IsSet(s.bmap, n) && n != b))
  {
    hide IsSet, ClrBit;
    if s.refs[b] <= 1 {
      EliminateCoherent(s.cache, b);
      forall n | 0 <= n < 8 * |s.bmap| ensures IsSet(ClrBit(s.bmap, b), n) <==> IsSet(s.bmap, n) && n != b { ClrOnly(s.bmap, b, n); }
    }
  }

  lemma ErasedIs(s: Fs, u: Usage, f: nat, b: nat)
    requires f < |s.inodes| && f < |u.dirs| && b < 8 * |s.bmap| && b < |s.refs| && u.dirs[f] == (s.inodes[f].tipo == FS_DIR)
    ensures Erased(s, f, b) == DroppedFrom(s, u, f, b)
  {
  }

  lemma DroppedCore(s: Fs, u: Usage, f: nat)
    requires CoreBut(s, u, f) && |u.dirs| == |u.slots| && Fits(u) && f < |u.slots| && u.slots[f] != []
    ensures var b := u.slots[f][0]; b < 8 * |s.bmap| && b < |s.refs| && f < |u.dirs|
    ensures var s', u' := DroppedFrom(s, u, f, u.slots[f][0]), SetSlots(u, f, u.slots[f][1..]);
      && CoreBut(s', u', f) && AllOnDisk(u, LogicalDisk(s.cache)) && AllOnDisk(u', LogicalDisk(s'.cache))
      && AllPages(LogicalDisk(s'.cache), u') == LessPage(AllPages(LogicalDisk(s.cache), u), f) && Fits(u')
  {
    hide CoreBut, Fits, Acc, CacheInv, RawOk, Roots, AllPages, AllOnDisk, Logical, LogicalDisk, IsSet, ClrBit, FileSlots, DirSlots, Eliminate, RawWrite, LinkedInode;
    ButParts(s, u, f);
    AccShape(s.bmap, s.refs, u);
    var b := u.slots[f][0];
    var s', u' := DroppedFrom(s, u, f, b), SetSlots(u, f, u.slots[f][1..]);
    DropAcc(s.bmap, s.refs, u, f);
    DroppedCache(s, u, f);
    ButLinks(s, s', u, f, u.slots[f][1..]);
    DroppedPages(LogicalDisk(s.cache), u, f);
    if s.refs[b] <= 1 {
      DropSole(s.bmap, s.refs, u, f);
      FreshWrite(LogicalDisk(s.cache), u', b, Zeros());
    }
    ButPut(s', u', f);
  }

  /** Dropping the first slot of a file keeps the account exactly if the count tells the slot from the last one:
      a count that has wrapped around looks like that of a block that nobody else has. */
  lemma DropExactly(s: Fs, u: Usage, f: nat)
    requires Core(s, u) && IsType(s, f, FS_FILE) && f < |u.slots| && u.slots[f] != [] && |u.dirs| == |u.slots|
    ensures u.slots[f][0] < 8 * |s.bmap| && u.slots[f][0] < |s.refs|
    ensures var b := u.slots[f][0];
      && (FileSlots(u)[b] > 0)
      && (Acc(Dropped(s, b).bmap, Dropped(s, b).refs, SetSlots(u, f, u.slots[f][1..])) <==> s.refs[b] > 1 || FileSlots(u)[b] == 1)
      && (s.refs[b] <= 1 ==> !IsSet(Dropped(s, b).bmap, b) && (FileSlots(u)[b] > 1 ==> FileSlots(SetSlots(u, f, u.slots[f][1..]))[b] > 0))
  {
    hide Core, CacheInv, RawOk, Roots, Linked, IsSet, ClrBit, Only, Wrap, Down, FileSlots, DirSlots;
    CoreParts(s, u);
    AccShape(s.bmap, s.refs, u);
    FileOnly(s, u, f);
    LinkedAt(s, u, f);
    SlotCounted(u, f, 0);
    SlotsDrop(u, f);
    DropCounts(s.bmap, s.refs, u, f);
  }

  lemma DropCounts(bmap: Bits, refs: seq<Char>, u: Usage, f: nat)
    requires Acc(bmap, refs, u) && f < INODES && !u.dirs[f] && u.slots[f] != [] && FileSlots(u)[u.slots[f][0]] > 0
    requires FIRST_DATA <= u.slots[f][0] < NUM_BLOCOS_MAX
    requires var u' := SetSlots(u, f, u.slots[f][1..]); DirSlots(u') == DirSlots(u) && FileSlots(u) == FileSlots(u') + multiset{u.slots[f][0]}
    ensures var b, u' := u.slots[f][0], SetSlots(u, f, u.slots[f][1..]);
      && (refs[b] > 1 ==> Acc(bmap, refs[b := Down(refs[b])], u'))
      && (refs[b] <= 1 ==> !IsSet(ClrBit(bmap, b), b) && (Acc(ClrBit(bmap, b), refs[b := 0], u') <==> FileSlots(u)[b] == 1))
  {
    hide IsSet, ClrBit, Only, Wrap, Down, FileSlots, DirSlots;
    var b, u' := u.slots[f][0], SetSlots(u, f, u.slots[f][1..]);
    WrapSteps(FileSlots(u)[b]);
    WrapSteps(0);
    WrapSteps(1);
    assert FileSlots(u)[b] == FileSlots(u')[b] + 1;
    assert forall m: nat :: m != b ==> FileSlots(u')[m] == FileSlots(u)[m];
    assert InRange(u'.slots);
    forall m | 0 <= m < BMAP_BITS ensures IsSet(ClrBit(bmap, b), m) <==> m != b && IsSet(bmap, m) { ClrOnly(bmap, b, m); }
    assert DirsAlone(u');
    if FileSlots(u)[b] > 1 {
      assert !BitsOk(ClrBit(bmap, b), u');
    }
  }

  /** All slots that name a block have new content. */
  function Everywhere(ps: seq<Pages>, u: Usage, b: nat, x: Block): (r: seq<Pages>)
    requires |ps| == |u.slots| && forall g :: 0 <= g < |ps| ==> |ps[g]| == |u.slots[g]|
    ensures |r| == |ps|
  {
    seq(|ps|, g requires 0 <= g < |ps| => seq(|ps[g]|, j requires 0 <= j < |ps[g]| => if u.slots[g][j] == b then x else ps[g][j]))
  }

  /** Writing a block changes the pages of all slots that name it. */
  lemma WriteEverywhere(d: seq<Block>, u: Usage, b: nat, x: Block)
    requires AllOnDisk(u, d) && b < |d|
    ensures AllOnDisk(u, d[b := x]) && |AllPages(d, u)| == |u.slots| && (forall g :: 0 <= g < |u.slots| ==> |AllPages(d, u)[g]| == |u.slots[g]|)
    ensures AllPages(d[b := x], u) == Everywhere(AllPages(d, u), u, b, x)
  {
    var p, r := AllPages(d[b := x], u), Everywhere(AllPages(d, u), u, b, x);
    forall g | 0 <= g < |u.slots| ensures p[g] == r[g] { }
  }

  /** A write in place changes the one page it means to change, whatever is written, exactly if nobody else has the
      block. */
  lemma InPlaceExactly(ps: seq<Pages>, u: Usage, f: nat, k: nat)
    requires |ps| == |u.slots| && (forall g :: 0 <= g < |ps| ==> |ps[g]| == |u.slots[g]|) && f < |u.slots| && k < |u.slots[f]|
    ensures Alone(u, f, k) <==> forall x: Block :: Everywhere(ps, u, u.slots[f][k], x) == WithPage(ps, f, k, x)
  {
    var b := u.slots[f][k];
    if Alone(u, f, k) {
      forall x: Block ensures Everywhere(ps, u, b, x) == WithPage(ps, f, k, x) { InPlaceAlone(ps, u, f, k, x); }
    } else {
      var g, j :| 0 <= g < |u.slots| && 0 <= j < |u.slots[g]| && (g != f || j != k) && u.slots[g][j] == b;
      var x := OtherBlock(ps[g][j]);
      assert Everywhere(ps, u, b, x)[g][j] == x != WithPage(ps, f, k, x)[g][j];
    }
  }

  lemma InPlaceAlone(ps: seq<Pages>, u: Usage, f: nat, k: nat, x: Block)
    requires |ps| == |u.slots| && (forall g :: 0 <= g < |ps| ==> |ps[g]| == |u.slots[g]|) && f < |u.slots| && k < |u.slots[f]| && Alone(u, f, k)
    ensures Everywhere(ps, u, u.slots[f][k], x) == WithPage(ps, f, k, x)
  {
    var p, r := Everywhere(ps, u, u.slots[f][k], x), WithPage(ps, f, k, x);
    forall g | 0 <= g < |ps| ensures p[g] == r[g] { }
  }

  function OtherBlock(x: Block): (r: Block)
    ensures r != x
  {
    x[0 := if x[0] == 0 then 1 else 0]
  }

  /** A write of a file's block stays in its page, whatever is written, exactly if the count makes the code copy the
      block first or nobody else has it: a count of 0 or 1 that has wrapped around makes it write in place. */
  lemma WriteExactly(s: Fs, u: Usage, f: nat, k: nat)
    requires Core(s, u) && IsType(s, f, FS_FILE) && f < |u.slots| && k < |u.slots[f]| && |u.dirs| == |u.slots|
    ensures u.slots[f][k] < |s.refs|
    ensures s.refs[u.slots[f][k]] == 0 || s.refs[u.slots[f][k]] == 1 ==>
      (FileSlots(u)[u.slots[f][k]] == 1 <==> InPlaceIsolated(s, u, f, k))
  {
    hide Core, FileSlots, IsSet, Everywhere, WithPage;
    CoreParts(s, u);
    AccShape(s.bmap, s.refs, u);
    FileOnly(s, u, f);
    LinkedAt(s, u, f);
    AloneCount(s.bmap, s.refs, u, f, k);
    PagesWide(s, u);
    InPlaceExactly(AllPages(LogicalDisk(s.cache), u), u, f, k);
  }

  ghost predicate InPlaceIsolated(s: Fs, u: Usage, f: nat, k: nat)
    requires Core(s, u) && f < |u.slots| && k < |u.slots[f]|
  {
    PagesWide(s, u);
    forall x: Block :: Everywhere(AllPages(LogicalDisk(s.cache), u), u, u.slots[f][k], x) == WithPage(AllPages(LogicalDisk(s.cache), u), f, k, x)
  }

  lemma PagesWide(s: Fs, u: Usage)
    requires Core(s, u)
    ensures AllOnDisk(u, LogicalDisk(s.cache)) && |AllPages(LogicalDisk(s.cache), u)| == |u.slots|
    ensures forall g :: 0 <= g < |u.slots| ==> |AllPages(LogicalDisk(s.cache), u)[g]| == |u.slots[g]|
  {
    hide Acc, Linked, RawOk, Roots, CacheInv, LogicalDisk;
    CoreOnDisk(s, u);
  }

  lemma ButPut(s: Fs, u: Usage, f: nat)
    requires Formed(s) && Acc(s.bmap, s.refs, u) && CacheInv(s.cache) && RawOk(s.cache, u) && Roots(s, u) && f < INODES
    requires forall g :: 0 <= g < INODES && g != f ==> LinkedInode(s, u, g)
    ensures CoreBut(s, u, f)
  {
  }

  lemma ButLinks(s: Fs, s': Fs, u: Usage, f: nat, slots: seq<nat>)
    requires CoreBut(s, u, f) && |slots| <= |u.slots[f]|
    requires s'.inodes == s.inodes && s'.ibmap == s.ibmap && |s'.refs| == |s.refs| == |s'.cache.disk|
    ensures Formed(s') && Shaped(SetSlots(u, f, slots)) && Roots(s', SetSlots(u, f, slots))
    ensures forall g :: 0 <= g < INODES && g != f ==> LinkedInode(s', SetSlots(u, f, slots), g)
  {
    hide BitsOk, RefsOk, DirsAlone, RawOk, CacheInv, IsSet;
    forall g | 0 <= g < INODES && g != f ensures LinkedInode(s', SetSlots(u, f, slots), g) { assert LinkedInode(s, u, g); }
  }

  /** The block of a dropped slot that was its last: nobody else names it. */
  lemma DropSole(bmap: Bits, refs: seq<Char>, u: Usage, f: nat)
    requires Acc(bmap, refs, u) && Fits(u) && f < INODES && u.slots[f] != [] && refs[u.slots[f][0]] <= 1
    ensures var u' := SetSlots(u, f, u.slots[f][1..]);
      forall g, j :: 0 <= g < |u'.slots| && 0 <= j < |u'.slots[g]| ==> u'.slots[g][j] != u.slots[f][0]
  {
    var u', b := SetSlots(u, f, u.slots[f][1..]), u.slots[f][0];
    SlotsDrop(u, f);
    SlotCounted(u, f, 0);
    CountIs(bmap, refs, u, b);
    assert FileSlots(u')[b] == 0 && DirSlots(u')[b] == 0;
    forall g, j | 0 <= g < |u'.slots| && 0 <= j < |u'.slots[g]| ensures u'.slots[g][j] != b { SlotCounted(u', g, j); }
  }

  /** The cache after dropping a slot. */
  lemma DroppedCache(s: Fs, u: Usage, f: nat)
    requires CoreBut(s, u, f) && |u.dirs| == |u.slots| && Fits(u) && u.slots[f] != [] && f < |u.dirs| && u.slots[f][0] < |s.refs| && u.slots[f][0] < 8 * |s.bmap|
    ensures var b, u', c' := u.slots[f][0], SetSlots(u, f, u.slots[f][1..]), DroppedFrom(s, u, f, u.slots[f][0]).cache;
      && CacheInv(c') && RawOk(c', u') && |c'.disk| == |s.cache.disk|
      && LogicalDisk(c') == if s.refs[b] > 1 then LogicalDisk(s.cache) else LogicalDisk(s.cache)[b := Zeros()]
  {
    hide BitsOk, Roots, LinkedInode, Logical, Only, IsSet, CacheInv;
    var b, u', c' := u.slots[f][0], SetSlots(u, f, u.slots[f][1..]), DroppedFrom(s, u, f, u.slots[f][0]).cache;
    SlotsDrop(u, f);
    SlotCounted(u, f, 0);
    CountIs(s.bmap, s.refs, u, b);
    assert forall m: nat :: m != b ==> FileSlots(u')[m] == FileSlots(u)[m];
    EliminateCoherent(s.cache, b);
    EliminateValid(s.cache, b);
    if u.dirs[f] {
      assert FileSlots(u)[b] == 0;
      RawAccess(s.cache, b, Zeros());
    }
    assert s.refs[b] > 1 ==> FileSlots(u')[b] > 0;
    LogicalSize(c');
    LogicalSize(s.cache);
  }

  lemma EliminateValid(c: CacheState, b: nat)
    ensures forall x :: HasValid(Eliminate(c, b), x) ==> x != b && HasValid(c, x)
    ensures |Eliminate(c, b).disk| == |c.disk|
  {
  }

  // ---------- Sharing a block ----------

  function SharedWith(s: Fs, u: Usage, f: nat, b: nat): Fs
    requires Formed(s) && Shaped(u) && f < INODES && |u.slots[f]| < INODE_NUM_BLKS && b < |s.refs|
  {
    SetBlock(s, f, |u.slots[f]|, b).(refs := s.refs[b := Up(s.refs[b])])
  }

  /** File `f` gets a further slot with a block that some file has. */
  lemma SharedCore(s: Fs, u: Usage, f: nat, b: nat)
    requires Core(s, u) && IsType(s, f, FS_FILE) && |u.slots[f]| < INODE_NUM_BLKS
    requires FIRST_DATA <= b < NUM_BLOCOS_MAX && |u.dirs| == |u.slots| && FileSlots(u)[b] > 0
    ensures b < |s.refs|
    ensures var s', u', d := SharedWith(s, u, f, b), SetSlots(u, f, u.slots[f] + [b]), LogicalDisk(s.cache);
      Core(s', u') && AllOnDisk(u, d) && AllOnDisk(u', d) && b < |d| && AllPages(d, u') == PlusPage(AllPages(d, u), f, d[b])
    ensures forall m: nat :: FileSlots(u)[m] > 0 ==> FileSlots(SetSlots(u, f, u.slots[f] + [b]))[m] > 0
    ensures Fits(u) ==> (Fits(SetSlots(u, f, u.slots[f] + [b])) <==> s.refs[b] < CHAR_MAX)
  {
    hide Core, Fits, Acc, Linked, CacheInv, RawOk, Roots, AllPages, AllOnDisk, Logical, LogicalDisk, IsSet, FileSlots, DirSlots;
    CoreParts(s, u);
    AccShape(s.bmap, s.refs, u);
    LinkedAt(s, u, f);
    FileOnly(s, u, f);
    var n := |u.slots[f]|;
    var s', u', d := SharedWith(s, u, f, b), SetSlots(u, f, u.slots[f] + [b]), LogicalDisk(s.cache);
    ShareAcc(s.bmap, s.refs, u, f, b);
    SlotsAppend(u, f, b);
    assert u'.slots[f] == s.inodes[f].blocks[n := b][..n + 1];
    TableSlots(s, s', u, f, n, b, u'.slots[f]);
    RawKeeps(s.cache, u, u');
    AppendedPages(d, u, f, b);
    CorePut(s', u');
  }

  /** Sharing keeps the account exactly if the block has references already and its count has room for one
      more. So a file copied onto itself keeps it only if every one of its blocks is shared with another
      file: its own references are given up first, and a block that had no other is free by then. */
  lemma ShareExactly(s: Fs, u: Usage, f: nat, b: nat)
    requires Core(s, u) && |u.dirs| == |u.slots| && Fits(u) && IsType(s, f, FS_FILE) && f < |u.slots| && |u.slots[f]| < INODE_NUM_BLKS
    requires FIRST_DATA <= b < NUM_BLOCOS_MAX
    ensures b < |s.refs|
    ensures var s', u' := SharedWith(s, u, f, b), SetSlots(u, f, u.slots[f] + [b]);
      Core(s', u') && Fits(u') <==> 0 < s.refs[b] < CHAR_MAX
  {
    hide Core, Fits, FileSlots, IsSet;
    CoreParts(s, u);
    FileOnly(s, u, f);
    CountIs(s.bmap, s.refs, u, b);
    if FileSlots(u)[b] > 0 {
      SharedCore(s, u, f, b);
    } else {
      SlotsAppend(u, f, b);
      FreeShareBreaks(s, u, f, b);
    }
  }

  lemma FreeShareBreaks(s: Fs, u: Usage, f: nat, b: nat)
    requires Core(s, u) && f < INODES && |u.slots| == |u.dirs| == INODES && |u.slots[f]| < INODE_NUM_BLKS && FIRST_DATA <= b < NUM_BLOCOS_MAX && b < |s.refs|
    requires FileSlots(u)[b] == 0
    requires var u' := SetSlots(u, f, u.slots[f] + [b]); DirSlots(u') == DirSlots(u) && FileSlots(u') == FileSlots(u) + multiset{b}
    ensures !Core(SharedWith(s, u, f, b), SetSlots(u, f, u.slots[f] + [b]))
  {
    hide IsSet, Linked, CacheInv, RawOk, Roots, Only, FileSlots, DirSlots;
    var s', u' := SharedWith(s, u, f, b), SetSlots(u, f, u.slots[f] + [b]);
    assert FileSlots(u')[b] == 1;
    assert BitsOk(s.bmap, u) && DirsAlone(u);
    assert IsSet(s.bmap, b) <==> DirSlots(u)[b] > 0;
  }

  // ---------- Contents through the cache and beside it ----------

  lemma CacheOnly(s: Fs, u: Usage, c: CacheState)
    requires Core(s, u) && CacheInv(c) && RawOk(c, u) && |c.disk| == |s.cache.disk|
    ensures Core(s.(cache := c), u)
  {
    hide BitsOk, RefsOk, DirsAlone, RawOk, CacheInv, IsSet;
    var s' := s.(cache := c);
    LinkedOther(s, s', u);
    RootsOther(s, s', u);
  }

  /** A file's block read through the cache. */
  lemma ReadCore(s: Fs, u: Usage, b: nat)
    requires Core(s, u) && b < |s.cache.disk| && |u.dirs| == |u.slots| && FileSlots(u)[b] > 0
    ensures b in Loaded(s.cache, b).entries && b in Read(s.cache, b).entries
    ensures b < |LogicalDisk(s.cache)| && Read(s.cache, b).entries[b].bytes == LogicalDisk(s.cache)[b]
    ensures Core(s.(cache := Read(s.cache, b)), u) && LogicalDisk(Read(s.cache, b)) == LogicalDisk(s.cache)
  {
    hide BitsOk, RefsOk, DirsAlone, CacheInv, Linked, Roots, IsSet, FileSlots, Read, Loaded, RawOk, Logical;
    ReadSeen(s.cache, u, b);
    CacheOnly(s, u, Read(s.cache, b));
  }

  lemma ReadSeen(c: CacheState, u: Usage, b: nat)
    requires CacheInv(c) && b < |c.disk| && |u.dirs| == |u.slots| && RawOk(c, u) && FileSlots(u)[b] > 0
    ensures b in Loaded(c, b).entries && b in Read(c, b).entries && b < |LogicalDisk(c)|
    ensures Read(c, b).entries[b].bytes == LogicalDisk(c)[b] && LogicalDisk(Read(c, b)) == LogicalDisk(c)
    ensures CacheInv(Read(c, b)) && RawOk(Read(c, b), u) && |Read(c, b).disk| == |c.disk|
  {
    hide FileSlots, CacheInv, Loaded;
    ReadCoherent(c, b);
    OnlyOneMoreValid(c, b, Zeros());
    SameDisk(c, Read(c, b));
    LogicalSize(Read(c, b));
    LogicalSize(c);
    RawByValid(c, u, Read(c, b), b);
  }

  /** Only the entry of a file's block became valid. */
  lemma RawByValid(c: CacheState, u: Usage, c': CacheState, b: nat)
    requires |u.dirs| == |u.slots| && RawOk(c, u) && FileSlots(u)[b] > 0
    requires forall x :: HasValid(c', x) ==> x == b || HasValid(c, x)
    ensures RawOk(c', u)
  {
    forall x | x in c'.entries && c'.entries[x].valido ensures FileSlots(u)[x] > 0 { assert HasValid(c', x); }
  }

  lemma WriteSeen(c: CacheState, u: Usage, b: nat, data: Block)
    requires CacheInv(c) && b < |c.disk| && |u.dirs| == |u.slots| && RawOk(c, u) && FileSlots(u)[b] > 0
    ensures b in Loaded(c, b).entries && b < |LogicalDisk(c)|
    ensures LogicalDisk(Write(c, b, data)) == LogicalDisk(c)[b := data]
    ensures CacheInv(Write(c, b, data)) && RawOk(Write(c, b, data), u) && |Write(c, b, data).disk| == |c.disk|
  {
    hide FileSlots, CacheInv, Loaded, Write, Logical;
    WriteCoherent(c, b, data);
    OnlyOneMoreValid(c, b, data);
    LogicalSize(c);
    LogicalSize(Write(c, b, data));
    RawByValid(c, u, Write(c, b, data), b);
  }

  /** A file's block written through the cache. */
  lemma WriteCore(s: Fs, u: Usage, b: nat, data: Block)
    requires Core(s, u) && b < |s.cache.disk| && |u.dirs| == |u.slots| && FileSlots(u)[b] > 0
    ensures b in Loaded(s.cache, b).entries && b < |LogicalDisk(s.cache)|
    ensures Core(s.(cache := Write(s.cache, b, data)), u) && LogicalDisk(Write(s.cache, b, data)) == LogicalDisk(s.cache)[b := data]
  {
    hide BitsOk, RefsOk, DirsAlone, CacheInv, Linked, Roots, IsSet, FileSlots, Write, Loaded, RawOk, Logical;
    WriteSeen(s.cache, u, b, data);
    CacheOnly(s, u, Write(s.cache, b, data));
  }

  /** A directory's block read and written on the disk. */
  lemma RawCore(s: Fs, u: Usage, b: nat, data: Block)
    requires Core(s, u) && b < |s.cache.disk| && |u.dirs| == |u.slots| && FileSlots(u)[b] == 0
    ensures b < |LogicalDisk(s.cache)| && s.cache.disk[b] == LogicalDisk(s.cache)[b]
    ensures Core(s.(cache := RawWrite(s.cache, b, data)), u) && LogicalDisk(RawWrite(s.cache, b, data)) == LogicalDisk(s.cache)[b := data]
  {
    hide BitsOk, RefsOk, DirsAlone, CacheInv, Linked, Roots, IsSet, FileSlots;
    RawAccess(s.cache, b, data);
    LogicalSize(s.cache);
    CacheOnly(s, u, RawWrite(s.cache, b, data));
  }

  /** The ageing of the cache, which another thread does from time to time. */
  lemma AgeCore(s: Fs, u: Usage, n: int)
    requires Core(s, u)
    ensures Core(s.(cache := Age(s.cache, n)), u) && LogicalDisk(Age(s.cache, n)) == LogicalDisk(s.cache)
  {
    hide BitsOk, RefsOk, DirsAlone, CacheInv, Linked, Roots, IsSet, FileSlots;
    AgeCoherent(s.cache, n);
    SameDisk(s.cache, Age(s.cache, n));
    CacheOnly(s, u, Age(s.cache, n));
  }
}
