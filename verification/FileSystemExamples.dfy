/** Valid file systems of a simple kind, on which the code's limits show: a root directory with a few files. */
module FileSystemExamples {
  import opened Wrappers
  import opened Block
  import opened CacheSpec
  import opened Bitmap
  import opened Accounting
  import opened FileSystemSpec
  import opened FileSystemSteps
  import opened FileSystemFacts
  import opened FileSystemTree
  import opened FileSystemFormat
  import opened FileSystemRemove
  import opened FileSystemSharing
  import opened Directory
  import opened FileBytes
  import opened Defrag
  import opened DefragAccount

  const ROOT_BLOCK: nat := 10

  // ---------- Bitmaps ----------

  function BitsBelow(n: nat): (r: Bits)
    requires n <= BMAP_BITS
    ensures |r| == BMAP_BITS / 8
  {
    if n == 0 then seq(BMAP_BITS / 8, _ => 0) else SetBit(BitsBelow(n - 1), n - 1)
  }

  lemma {:induction false} BelowOnly(n: nat)
    requires n <= BMAP_BITS
    ensures OnlyBelow(BitsBelow(n), n)
  {
    if n > 0 {
      hide IsSet, SetBit;
      BelowOnly(n - 1);
      forall b | 0 <= b < BMAP_BITS ensures IsSet(BitsBelow(n), b) <==> b < n { SetOnly(BitsBelow(n - 1), n - 1, b); }
    }
  }

  /** The metadata blocks, the root's block, and those below `n` that are in some row. */
  ghost function BitsFor(rows: seq<seq<nat>>, n: nat): (r: Bits)
    requires n <= BMAP_BITS
    ensures |r| == BMAP_BITS / 8
  {
    if n == 0 then seq(BMAP_BITS / 8, _ => 0)
    else if n - 1 <= ROOT_BLOCK || InRows(rows, n - 1) then SetBit(BitsFor(rows, n - 1), n - 1)
    else BitsFor(rows, n - 1)
  }

  lemma {:induction false} BitsForOnly(rows: seq<seq<nat>>, n: nat)
    requires n <= BMAP_BITS
    ensures forall b :: 0 <= b < BMAP_BITS ==> (IsSet(BitsFor(rows, n), b) <==> b < n && (b <= ROOT_BLOCK || InRows(rows, b)))
  {
    if n > 0 {
      hide IsSet, SetBit, InRows;
      BitsForOnly(rows, n - 1);
      forall b | 0 <= b < BMAP_BITS ensures IsSet(BitsFor(rows, n), b) <==> b < n && (b <= ROOT_BLOCK || InRows(rows, b)) {
        SetOnly(BitsFor(rows, n - 1), n - 1, b);
      }
    }
  }

  // ---------- The root directory ----------

  /** Entry `i` is a letter for the name and the number of inode `i + 2`. */
  function EntryByte(n: nat, p: nat): Byte
    requires n <= 32
  {
    var i, off := p / DENTRY, p % DENTRY;
    if i >= n then 0 else if off == 0 then 97 + i else if off == NAME then i + 2 else 0
  }

  function RootPage(n: nat): Block
    requires n <= 32
  {
    seq(BLOCK_SIZE, p requires 0 <= p < BLOCK_SIZE => EntryByte(n, p))
  }

  lemma RootEntry(n: nat, c: seq<Byte>, i: nat)
    requires i < n <= 32 && c == RootPage(n)[..DENTRY * n]
    ensures DENTRY * (i + 1) <= |c| && EntryName(EntryAt(c, i)) == [97 + i] && IdOf(EntryAt(c, i)) == i + 2
  {
    var e := EntryAt(c, i);
    forall k | 0 <= k < DENTRY ensures e[k] == if k == 0 then 97 + i else if k == NAME then i + 2 else 0 {
      assert e[k] == c[DENTRY * i + k] == RootPage(n)[DENTRY * i + k];
      assert (DENTRY * i + k) / DENTRY == i && (DENTRY * i + k) % DENTRY == k;
    }
    assert e[..NAME][0] == 97 + i && e[..NAME][1..][0] == 0;
    assert NameOf(e[..NAME][1..]) == [];
  }

  lemma RootUnique(n: nat, c: seq<Byte>)
    requires n <= 32 && c == RootPage(n)[..DENTRY * n]
    ensures UniqueNames(c)
  {
    hide NameOf;
    forall i, j | 0 <= i < j && DENTRY * (j + 1) <= |c| ensures EntryName(EntryAt(c, i)) != EntryName(EntryAt(c, j)) {
      RootEntry(n, c, i);
      RootEntry(n, c, j);
    }
  }

  // ---------- The tables ----------

  function Padded(row: seq<nat>): (r: seq<nat>)
    requires |row| <= INODE_NUM_BLKS
    ensures |r| == INODE_NUM_BLKS
  {
    row + seq(INODE_NUM_BLKS - |row|, _ => 0)
  }

  /** Files 2 and on with these slots, the root with block 10. */
  function SlotsOfRows(rows: seq<seq<nat>>): (r: seq<seq<nat>>)
    requires |rows| <= 32
    ensures |r| == INODES
  {
    seq(INODES, f requires 0 <= f < INODES => if f == 1 then [ROOT_BLOCK] else if 2 <= f < |rows| + 2 then rows[f - 2] else [])
  }

  function ExampleUsage(rows: seq<seq<nat>>): Usage
    requires |rows| <= 32
  {
    Usage(seq(INODES, f => f == 1), SlotsOfRows(rows))
  }

  function ExampleInode(rows: seq<seq<nat>>, f: nat): Inode
    requires |rows| <= 32 && forall i :: 0 <= i < |rows| ==> |rows[i]| <= INODE_NUM_BLKS
  {
    if f == 1 then Inode(FS_DIR, DENTRY * |rows|, Padded([ROOT_BLOCK]))
    else if 2 <= f < |rows| + 2 then Inode(FS_FILE, BLOCK_SIZE * |rows[f - 2]|, Padded(rows[f - 2]))
    else Inode(0, 0, NO_BLOCKS)
  }

  /** Every file has at most ten blocks, all from 11 to `top - 1`. */
  ghost predicate Rows(rows: seq<seq<nat>>, top: nat) {
    && 0 < |rows| <= 32 && ROOT_BLOCK < top <= NUM_BLOCOS_MAX
    && (forall i :: 0 <= i < |rows| ==> |rows[i]| <= INODE_NUM_BLKS)
    && (forall i, k :: 0 <= i < |rows| && 0 <= k < |rows[i]| ==> ROOT_BLOCK < rows[i][k] < top)
  }

  ghost predicate InRows(rows: seq<seq<nat>>, b: nat) {
    exists i, k :: 0 <= i < |rows| && 0 <= k < |rows[i]| && rows[i][k] == b
  }

  ghost function Example(rows: seq<seq<nat>>, top: nat, disk: seq<Block>): Fs
    requires |rows| <= 32 && (forall i :: 0 <= i < |rows| ==> |rows[i]| <= INODE_NUM_BLKS) && top <= BMAP_BITS
  {
    var u := ExampleUsage(rows);
    Fs(CacheState(map[], disk, 1), seq(|disk|, b requires 0 <= b < |disk| => Wrap(FileSlots(u)[b])), BitsFor(rows, top), BitsBelow(|rows| + 2),
       seq(INODES, f requires 0 <= f < INODES => ExampleInode(rows, f)))
  }

  lemma ExampleShape(rows: seq<seq<nat>>, top: nat)
    requires Rows(rows, top)
    ensures Shaped(ExampleUsage(rows)) && InRange(ExampleUsage(rows).slots)
  {
    var ss := SlotsOfRows(rows);
    forall f, k | 0 <= f < |ss| && 0 <= k < |ss[f]| ensures FIRST_DATA <= ss[f][k] < NUM_BLOCOS_MAX {
      if 2 <= f < |rows| + 2 { assert ss[f] == rows[f - 2]; }
    }
  }

  /** The root's block is named by the root alone, and the others exactly if they are in a row. */
  lemma ExampleNames(rows: seq<seq<nat>>, top: nat, b: nat)
    requires Rows(rows, top)
    ensures var u := ExampleUsage(rows);
      && |u.dirs| == |u.slots|
      && DirSlots(u)[b] == (if b == ROOT_BLOCK then 1 else 0)
      && (FileSlots(u)[b] > 0 <==> InRows(rows, b)) && (InRows(rows, b) ==> ROOT_BLOCK < b < top)
  {
    var u := ExampleUsage(rows);
    var none: seq<seq<nat>> := seq(INODES, _ => []);
    assert Only(u, true) == none[1 := [ROOT_BLOCK]];
    SumEmpty(none);
    SumUpdate(none, 1, [ROOT_BLOCK]);
    assert DirSlots(u)[b] == multiset([ROOT_BLOCK])[b];
    var ss := Only(u, false);
    if InRows(rows, b) {
      var i, k :| 0 <= i < |rows| && 0 <= k < |rows[i]| && rows[i][k] == b;
      assert ss[i + 2] == rows[i];
      SumHas(ss, i + 2, k);
    } else {
      forall f, k | 0 <= f < |ss| && 0 <= k < |ss[f]| ensures ss[f][k] != b { assert ss[f] == rows[f - 2] && rows[f - 2][k] == ss[f][k]; }
      SumLacks(ss, b);
    }
  }

  lemma ExampleAcc(rows: seq<seq<nat>>, top: nat, disk: seq<Block>)
    requires Rows(rows, top) && |disk| >= NUM_BLOCOS_MAX
    ensures var s := Example(rows, top, disk); Acc(s.bmap, s.refs, ExampleUsage(rows))
  {
    hide IsSet, FileSlots, DirSlots, BitsBelow, BitsFor, SlotsOfRows, InRows;
    var s, u := Example(rows, top, disk), ExampleUsage(rows);
    ExampleShape(rows, top);
    BitsForOnly(rows, top);
    forall b: nat
      ensures DirSlots(u)[b] == (if b == ROOT_BLOCK then 1 else 0) && (FileSlots(u)[b] > 0 <==> InRows(rows, b)) && (InRows(rows, b) ==> ROOT_BLOCK < b < top)
    {
      ExampleNames(rows, top, b);
    }
    AccPut(s.bmap, s.refs, u);
  }

  lemma ExampleTypes(rows: seq<seq<nat>>, top: nat, disk: seq<Block>)
    requires Rows(rows, top) && |disk| >= NUM_BLOCOS_MAX
    ensures var s := Example(rows, top, disk);
      && Formed(s) && IsSet(s.ibmap, 0)
      && (forall f :: 0 <= f < INODES ==> (IsSet(s.ibmap, f) <==> f < |rows| + 2))
      && (forall f :: 0 <= f < INODES ==> (IsType(s, f, FS_DIR) <==> f == 1) && (IsType(s, f, FS_FILE) <==> 2 <= f < |rows| + 2))
  {
    hide IsSet, BitsBelow, BitsFor, BitsFor, FileSlots;
    BelowOnly(|rows| + 2);
  }

  lemma ExampleCore(rows: seq<seq<nat>>, top: nat, disk: seq<Block>)
    requires Rows(rows, top) && |disk| >= NUM_BLOCOS_MAX
    ensures Core(Example(rows, top, disk), ExampleUsage(rows))
  {
    hide IsSet, FileSlots, DirSlots, BitsBelow, BitsFor, BitsOk, RefsOk, DirsAlone;
    var s, u := Example(rows, top, disk), ExampleUsage(rows);
    ExampleAcc(rows, top, disk);
    ExampleShape(rows, top);
    ExampleTypes(rows, top, disk);
    forall f | 0 <= f < INODES ensures LinkedInode(s, u, f) { assert u.slots[f] == s.inodes[f].blocks[..|u.slots[f]|]; }
    CorePut(s, u);
  }

  lemma {:induction false} ExampleCounts(rows: seq<seq<nat>>, top: nat, disk: seq<Block>, f: nat)
    requires Rows(rows, top) && |disk| >= NUM_BLOCOS_MAX && f <= INODES
    ensures Formed(Example(rows, top, disk))
    ensures InodesFrom(Example(rows, top, disk), f) == (if f < |rows| + 2 then |rows| + 2 - f else 0)
    ensures EntriesFrom(Example(rows, top, disk), f) == (if f <= 1 then |rows| else 0)
    decreases INODES - f
  {
    hide IsSet, FileSlots, BitsBelow, BitsFor;
    ExampleTypes(rows, top, disk);
    if f < INODES {
      ExampleCounts(rows, top, disk, f + 1);
      assert Example(rows, top, disk).inodes[f] == ExampleInode(rows, f);
    }
  }

  lemma ExampleModulo(rows: seq<seq<nat>>, top: nat, disk: seq<Block>)
    requires Rows(rows, top) && |disk| >= NUM_BLOCOS_MAX
    ensures FsModulo(Example(rows, top, disk), ExampleUsage(rows))
  {
    hide IsSet, FileSlots, DirSlots, BitsBelow, BitsFor, Core, InodesFrom, EntriesFrom;
    var s, u := Example(rows, top, disk), ExampleUsage(rows);
    ExampleCore(rows, top, disk);
    ExampleShape(rows, top);
    ExampleTypes(rows, top, disk);
    ExampleCounts(rows, top, disk, 0);
    forall f | 0 <= f < INODES ensures SizedInode(s, u, f) { assert s.inodes[f] == ExampleInode(rows, f); }
  }

  /** Such a file system is valid, as far as the counts fit. */
  lemma ExampleValid(rows: seq<seq<nat>>, top: nat, disk: seq<Block>)
    requires Rows(rows, top) && |disk| >= NUM_BLOCOS_MAX && disk[ROOT_BLOCK] == RootPage(|rows|)
    requires |ExampleUsage(rows).dirs| == |ExampleUsage(rows).slots| && Fits(ExampleUsage(rows))
    ensures FullInv(Example(rows, top, disk), ExampleUsage(rows))
  {
    hide IsSet, FileSlots, DirSlots, BitsBelow, BitsFor, Core, Sized, Counted, Fits, RootPage;
    var s, u := Example(rows, top, disk), ExampleUsage(rows);
    ExampleModulo(rows, top, disk);
    ExampleTypes(rows, top, disk);
    ModuloParts(s, u);
    forall f | 0 <= f < INODES ensures DirOk(s, u, f) {
      if f == 1 { ExampleRoot(rows, top, disk); }
    }
  }

  lemma ExampleRoot(rows: seq<seq<nat>>, top: nat, disk: seq<Block>)
    requires Rows(rows, top) && |disk| >= NUM_BLOCOS_MAX && disk[ROOT_BLOCK] == RootPage(|rows|) && FsModulo(Example(rows, top, disk), ExampleUsage(rows))
    ensures DirOk(Example(rows, top, disk), ExampleUsage(rows), 1)
  {
    hide IsSet, FileSlots, DirSlots, Core, Sized, Counted, RootPage, Example, ExampleUsage, EntriesOk, UniqueNames, Bytes;
    var s, u := Example(rows, top, disk), ExampleUsage(rows);
    ExampleTypes(rows, top, disk);
    ModuloParts(s, u);
    RootContents(rows, top, disk);
    RootUnique(|rows|, Contents(s, u, 1));
    RootEntries(s, |rows|, Contents(s, u, 1));
    RootTail(rows, top, disk);
  }

  lemma RootTail(rows: seq<seq<nat>>, top: nat, disk: seq<Block>)
    requires Rows(rows, top) && Formed(Example(rows, top, disk)) && Shaped(ExampleUsage(rows))
    ensures TailZero(Example(rows, top, disk), ExampleUsage(rows), 1)
  {
    hide BitsBelow, BitsFor, FileSlots;
  }

  lemma RootEntries(s: Fs, n: nat, c: seq<Byte>)
    requires Formed(s) && n <= 32 && c == RootPage(n)[..DENTRY * n] && forall f :: 2 <= f < n + 2 ==> IsType(s, f, FS_FILE)
    ensures EntriesOk(s, c)
  {
    hide IsSet, RootPage, EntryName, IdOf;
    forall i | 0 <= i < |c| / DENTRY ensures EntryOk(s, EntryAt(c, i)) { RootEntry(n, c, i); }
  }

  lemma RootContents(rows: seq<seq<nat>>, top: nat, disk: seq<Block>)
    requires Rows(rows, top) && |disk| >= NUM_BLOCOS_MAX && disk[ROOT_BLOCK] == RootPage(|rows|)
    requires var s, u := Example(rows, top, disk), ExampleUsage(rows); FsModulo(s, u) && IsType(s, 1, FS_DIR) && Core(s, u) && Sized(s, u)
    ensures Contents(Example(rows, top, disk), ExampleUsage(rows), 1) == RootPage(|rows|)[..DENTRY * |rows|]
  {
    hide IsSet, FileSlots, DirSlots, BitsBelow, BitsFor, Core, Sized, Counted, RootPage;
    var s, u := Example(rows, top, disk), ExampleUsage(rows);
    CoreOnDisk(s, u);
    SizeAt(s, u, 1);
    var c, p := Contents(s, u, 1), RootPage(|rows|)[..DENTRY * |rows|];
    assert LogicalDisk(s.cache) == disk;
    assert AllPages(disk, u)[1] == [RootPage(|rows|)];
    forall i | 0 <= i < |p| ensures c[i] == p[i] { }
  }

  // ---------- A count that wraps around ----------

  const SHARED: nat := 11

  /** Fifteen files, each with one block eight times over, and an empty one: file 17. */
  function SharedRows(): (r: seq<seq<nat>>)
    ensures |r| == 16 && forall i :: 0 <= i < 16 ==> r[i] == if i < 15 then Eight() else []
  {
    seq(16, i requires 0 <= i < 16 => if i < 15 then Eight() else [])
  }

  function Eight(): (r: seq<nat>)
    ensures |r| == 8 && forall k :: 0 <= k < 8 ==> r[k] == SHARED
  {
    [SHARED, SHARED, SHARED, SHARED, SHARED, SHARED, SHARED, SHARED]
  }

  /** A disk with nothing but the root's page. */
  function DiskOf(n: nat): (d: seq<Block>)
    requires n <= 32
    ensures |d| == NUM_BLOCOS_MAX && d[ROOT_BLOCK] == RootPage(n)
  {
    var empty: seq<Block> := seq(NUM_BLOCOS_MAX, _ => Zeros());
    empty[ROOT_BLOCK := RootPage(n)]
  }

  function SharedDisk(): (d: seq<Block>)
    ensures |d| == NUM_BLOCOS_MAX && d[ROOT_BLOCK] == RootPage(16)
  {
    DiskOf(16)
  }

  ghost function SharedFs(): Fs {
    Example(SharedRows(), 12, SharedDisk())
  }

  function SharedUsage(): (u: Usage)
    ensures |u.dirs| == |u.slots| == INODES
  {
    ExampleUsage(SharedRows())
  }

  /** The same slots in a band of files: their count is so many times the count of one. */
  lemma {:induction false} SumBand(ss: seq<seq<nat>>, lo: nat, hi: nat, row: seq<nat>, b: nat)
    requires lo <= hi <= |ss| && forall f :: 0 <= f < |ss| ==> ss[f] == if lo <= f < hi then row else []
    ensures Sum(ss)[b] == (hi - lo) * multiset(row)[b]
  {
    var m := multiset(row)[b];
    if hi == 0 {
      SumEmpty(ss);
    } else if lo == 0 {
      SumBand(ss[1..], 0, hi - 1, row, b);
      assert ss[0] == row && Sum(ss)[b] == m + (hi - 1) * m == hi * m;
    } else {
      SumBand(ss[1..], lo - 1, hi - 1, row, b);
      assert ss[0] == [] && Sum(ss)[b] == Sum(ss[1..])[b];
    }
  }

  lemma SharedCounts(u: Usage, n: nat, b: nat)
    requires |u.dirs| == |u.slots| == INODES && n <= 16 && (forall f :: 0 <= f < INODES ==> u.dirs[f] == (f == 1))
    requires forall f :: 0 <= f < INODES && f != 1 ==> u.slots[f] == if 2 <= f < n + 2 then Eight() else []
    ensures FileSlots(u)[b] == if b == SHARED then n * 8 else 0
  {
    SumBand(Only(u, false), 2, n + 2, Eight(), b);
    assert multiset(Eight())[SHARED] == 8;
    assert b != SHARED ==> multiset(Eight())[b] == 0;
  }

  lemma SharedRowsOk()
    ensures Rows(SharedRows(), 12)
  {
    var rows := SharedRows();
    assert |rows| == 16;
  }

  lemma EightTimes()
    ensures multiset(Eight())[SHARED] == 8
  {
  }

  lemma SharedSlots()
    ensures var u := SharedUsage();
      && (forall f :: 0 <= f < INODES ==> u.dirs[f] == (f == 1)) && u.slots[1] == [ROOT_BLOCK]
      && forall f :: 0 <= f < INODES && f != 1 ==> u.slots[f] == if 2 <= f < 17 then Eight() else []
  {
    hide Eight;
  }

  /** Fifteen files with the same 4096 bytes, all in one block: that block has 120 references. */
  lemma SharedValid()
    ensures FullInv(SharedFs(), SharedUsage()) && FileSlots(SharedUsage())[SHARED] == 120
  {
    hide FullInv, RootPage, BitsBelow, BitsFor, Only, FileSlots, Eight, Rows, ExampleUsage, Example, SharedRows;
    SharedRowsOk();
    SharedSlots();
    forall b: nat ensures FileSlots(SharedUsage())[b] <= 120 { SharedCounts(SharedUsage(), 15, b); }
    SharedCounts(SharedUsage(), 15, SHARED);
    ExampleValid(SharedRows(), 12, SharedDisk());
  }

  lemma SharedFiles()
    ensures var s := SharedFs(); Formed(s) && IsType(s, 2, FS_FILE) && s.inodes[2].size == 4096 && IsType(s, 17, FS_FILE) && s.inodes[17].size == 0
  {
    hide RootPage, BitsBelow, BitsFor, BitsFor, FileSlots, Eight, IsSet;
    SharedRowsOk();
    ExampleTypes(SharedRows(), 12, SharedDisk());
  }

  lemma SharedNoRoom()
    ensures |SharedFs().refs| >= NUM_BLOCOS_MAX && SharedFs().refs[SHARED] == 120
    ensures !Room(SharedFs().refs, SharedUsage().slots[17], SharedUsage().slots[2])
  {
    hide FullInv, FileSlots, Eight, ExampleUsage, SharedFs, SharedUsage;
    var s, u := SharedFs(), SharedUsage();
    SharedValid();
    SharedSlots();
    EightTimes();
    FullParts(s, u);
    CoreParts(s, u);
    AccShape(s.bmap, s.refs, u);
    CountIs(s.bmap, s.refs, u, SHARED);
    assert u.slots[2][0] == SHARED && multiset(u.slots[17])[SHARED] == 0;
  }

  /** The state after a copy of file 2 onto file 17. */
  ghost function SharedAfter(): Fs {
    SharedSlots();
    SharedFiles();
    SharedBlocks();
    SharedRaw(SharedFs(), 17, 0, SharedUsage().slots[2])
  }

  function UsageWrapped(): (u: Usage)
    ensures |u.dirs| == |u.slots| == INODES
  {
    SetSlots(SharedUsage(), 17, SharedUsage().slots[2])
  }

  lemma SharedBlocks()
    ensures var s := SharedFs();
      |s.inodes| == INODES && |s.inodes[17].blocks| == INODE_NUM_BLKS && forall k :: 0 <= k < |SharedUsage().slots[2]| ==> SharedUsage().slots[2][k] < |s.refs|
  {
    hide FullInv, FileSlots, Eight, ExampleUsage, SharedFs, SharedUsage, Core;
    SharedValid();
    SharedSlots();
    var s, u := SharedFs(), SharedUsage();
    FullParts(s, u);
    CoreParts(s, u);
    AccShape(s.bmap, s.refs, u);
    LinkedAt(s, u, 2);
    LinkedAt(s, u, 17);
  }

  lemma SharedCopied()
    ensures Core(SharedAfter(), UsageWrapped()) && IsType(SharedAfter(), 17, FS_FILE)
  {
    hide FullInv, FileSlots, Eight, ExampleUsage, SharedFs, SharedUsage, Core, IsSet, SharedRaw;
    SharedValid();
    SharedFiles();
    SharedSlots();
    var s, u := SharedFs(), SharedUsage();
    FullParts(s, u);
    var y := u.slots[2];
    SharedRawCore(s, u, 17, 2, |y|);
    assert y[..|y|] == y && u.slots[17] == [] && u.slots[17] + y == y;
  }

  /** One more copy of these is too much: the count becomes -128, and when the copy gives its first slot up, the
      block is free, though all sixteen files still name it. */
  lemma CopyWraps()
    ensures FullInv(SharedFs(), SharedUsage()) && IsType(SharedFs(), 2, FS_FILE) && IsType(SharedFs(), 17, FS_FILE)
    ensures !Room(SharedFs().refs, SharedUsage().slots[17], SharedUsage().slots[2])
    ensures var s', u' := SharedAfter(), UsageWrapped();
      && Core(s', u') && SHARED < |s'.refs| && s'.refs[SHARED] == -128 && SHARED < 8 * |s'.bmap|
      && u'.slots[17] != [] && FileSlots(SetSlots(u', 17, u'.slots[17][1..]))[SHARED] > 0
      && !IsSet(Dropped(s', SHARED).bmap, SHARED)
      && !Acc(Dropped(s', SHARED).bmap, Dropped(s', SHARED).refs, SetSlots(u', 17, u'.slots[17][1..]))
  {
    hide Core, Acc, FullInv, FileSlots, Eight, ExampleUsage, SharedFs, SharedUsage, SharedAfter, Room, IsSet, Dropped;
    SharedValid();
    SharedFiles();
    SharedNoRoom();
    SharedSlots();
    SharedCopied();
    var s', u' := SharedAfter(), UsageWrapped();
    SharedCounts(u', 16, SHARED);
    CoreParts(s', u');
    AccShape(s'.bmap, s'.refs, u');
    assert s'.refs[SHARED] == Wrap(128) by { RefIs(s', u', SHARED); }
    assert u'.slots[17][0] == SHARED;
    DropExactly(s', u', 17);
  }

  lemma RefIs(s: Fs, u: Usage, b: nat)
    requires Core(s, u) && b < |s.refs|
    ensures |u.dirs| == |u.slots| && s.refs[b] == Wrap(FileSlots(u)[b])
  {
  }

  // ---------- A disk of 640 blocks on which a block is in the way ----------

  /** Two files that were written in the other order: file 2 has block 12 and file 3 has block 11. */
  function CrossedRows(): (r: seq<seq<nat>>)
    ensures |r| == 2 && r[0] == [12] && r[1] == [11]
  {
    [[12], [11]]
  }

  ghost function CrossedFs(): Fs {
    Example(CrossedRows(), 13, DiskOf(2))
  }

  function CrossedUsage(): (u: Usage)
    ensures |u.dirs| == |u.slots| == INODES
  {
    ExampleUsage(CrossedRows())
  }

  lemma CrossedRowsOk()
    ensures Rows(CrossedRows(), 13)
  {
    var rows := CrossedRows();
    assert rows[0][0] == 12 && rows[1][0] == 11;
  }

  lemma CrossedSlots()
    ensures var u := CrossedUsage();
      && u.slots[1] == [ROOT_BLOCK] && u.slots[2] == [12] && u.slots[3] == [11] && u.slots[0] == [] && u.dirs[1]
      && forall f :: 4 <= f < INODES ==> u.slots[f] == []
  {
  }

  /** The tables of this file system, with the inodes that name no block written out. */
  lemma CrossedTable()
    ensures var t := Slots(CrossedFs());
      && |t| == INODES && t[1] == Padded([ROOT_BLOCK]) && t[2] == Padded([12]) && t[3] == Padded([11]) && |CrossedFs().cache.disk| == NUM_BLOCOS_MAX
      && forall z :: 0 <= z < INODES && z != 1 && z != 2 && z != 3 ==> t[z] == NO_BLOCKS
  {
    hide BitsBelow, BitsFor, FileSlots, RootPage;
  }

  lemma CrossedValid()
    ensures FullInv(CrossedFs(), CrossedUsage()) && Defraggable(CrossedFs(), CrossedUsage())
  {
    hide FullInv, RootPage, BitsBelow, BitsFor, Only, FileSlots, Rows, ExampleUsage, Example, CrossedRows, Sized, Counted, Core, Fits;
    CrossedRowsOk();
    CrossedSlots();
    CrossedTable();
    var s, u := CrossedFs(), CrossedUsage();
    CrossedRepeat(u);
    ExampleShape(CrossedRows(), 13);
    RefsFit(u);
    ExampleValid(CrossedRows(), 13, DiskOf(2));
    FullParts(s, u);
    CrossedClean();
  }

  lemma CrossedRepeat(u: Usage)
    requires |u.slots| == INODES && forall f :: 0 <= f < INODES ==> |u.slots[f]| <= 1
    ensures NoRepeat(u)
  {
  }

  lemma CrossedClean()
    ensures Formed(CrossedFs()) && Shaped(CrossedUsage()) && NoStale(CrossedFs(), CrossedUsage()) && NothingUnwritten(CrossedFs().cache)
  {
    hide BitsBelow, BitsFor, FileSlots, RootPage, IsSet;
    CrossedRowsOk();
    ExampleShape(CrossedRows(), 13);
    ExampleTypes(CrossedRows(), 13, DiskOf(2));
  }

  /** Block 11 stands before its place, 12. So a defragmentation loses the contents of some disk with these
      tables. */
  lemma CrossedLoses()
    ensures FullInv(CrossedFs(), CrossedUsage()) && Defraggable(CrossedFs(), CrossedUsage()) && Movable(CrossedFs())
    ensures |CrossedFs().cache.disk| == NUM_BLOCOS_MAX && !Unobstructed(Slots(CrossedFs()))
    ensures exists d: seq<Block>, lixo: nat -> Block :: |d| == |CrossedFs().cache.disk| && !KeepsAll(CrossedFs(), d, lixo)
  {
    hide FullInv, Defraggable, Movable, CrossedFs, CrossedUsage, KeepsAll, Unobstructed;
    var s := CrossedFs();
    CrossedValid();
    CrossedTable();
    DefragStart(s, CrossedUsage());
    CrossedPlace(Slots(s));
    SmallDiskExactly(s);
  }

  lemma CrossedPlace(t: Table)
    requires |t| == INODES && t[1] == Padded([ROOT_BLOCK]) && t[2] == Padded([12]) && t[3] == Padded([11])
    requires forall z :: 0 <= z < INODES && z != 1 && z != 2 && z != 3 ==> t[z] == NO_BLOCKS
    ensures !Unobstructed(t)
  {
    var done := BlocksBefore(t, 3, 0);
    assert t[1][0] == 10 && t[2][0] == 12 && t[3][0] == 11;
    assert Before(1, 0, 3, 0) && Before(2, 0, 3, 0);
    assert {10, 12} <= done;
    SubsetCount({10, 12}, done);
    forall y, r | 0 <= y < |t| && 0 <= r < |t[y]| && Before(y, r, 3, 0) ensures t[y][r] != 11 { }
    assert IsFirst(t, 3, 0);
  }

  // ---------- Counts that stay behind ----------

  /** One file, in block 12; block 11 is free. */
  function HoleRows(): (r: seq<seq<nat>>)
    ensures |r| == 1 && r[0] == [12]
  {
    [[12]]
  }

  ghost function HoleFs(): Fs {
    Example(HoleRows(), 13, DiskOf(1))
  }

  function HoleUsage(): (u: Usage)
    ensures |u.dirs| == |u.slots| == INODES
  {
    ExampleUsage(HoleRows())
  }

  lemma HoleRowsOk()
    ensures Rows(HoleRows(), 13)
  {
    assert HoleRows()[0][0] == 12;
  }

  lemma HoleSlots()
    ensures var u := HoleUsage();
      && u.slots[1] == [ROOT_BLOCK] && u.slots[2] == [12] && u.slots[0] == [] && u.dirs[1] && !u.dirs[2]
      && forall f :: 3 <= f < INODES ==> u.slots[f] == []
  {
  }

  lemma HoleTable()
    ensures var t := Slots(HoleFs());
      && |t| == INODES && t[1] == Padded([ROOT_BLOCK]) && t[2] == Padded([12]) && |HoleFs().cache.disk| == NUM_BLOCOS_MAX
      && forall z :: 0 <= z < INODES && z != 1 && z != 2 ==> t[z] == NO_BLOCKS
  {
    hide BitsBelow, BitsFor, FileSlots, RootPage;
  }

  lemma HoleClean()
    ensures Formed(HoleFs()) && Shaped(HoleUsage()) && NoStale(HoleFs(), HoleUsage()) && NothingUnwritten(HoleFs().cache)
  {
    hide BitsBelow, BitsFor, FileSlots, RootPage, IsSet;
    HoleRowsOk();
    ExampleShape(HoleRows(), 13);
    ExampleTypes(HoleRows(), 13, DiskOf(1));
  }

  lemma HoleValid()
    ensures FullInv(HoleFs(), HoleUsage()) && Defraggable(HoleFs(), HoleUsage())
  {
    hide FullInv, RootPage, BitsBelow, BitsFor, Only, FileSlots, Rows, ExampleUsage, Example, HoleRows, Sized, Counted, Core, Fits;
    HoleRowsOk();
    HoleSlots();
    HoleTable();
    var s, u := HoleFs(), HoleUsage();
    CrossedRepeat(u);
    ExampleShape(HoleRows(), 13);
    RefsFit(u);
    ExampleValid(HoleRows(), 13, DiskOf(1));
    FullParts(s, u);
    HoleClean();
  }

  /** The file's block is the second in the table, so its place is 11. */
  lemma HolePlace(t: Table)
    requires |t| == INODES && t[1] == Padded([ROOT_BLOCK]) && t[2] == Padded([12])
    requires forall z :: 0 <= z < INODES && z != 1 && z != 2 ==> t[z] == NO_BLOCKS
    ensures IsFirst(t, 2, 0) && t[2][0] == 12 && Place(t, 2, 0) == 11
  {
    var done := BlocksBefore(t, 2, 0);
    assert t[1][0] == 10 && t[2][0] == 12;
    assert Before(1, 0, 2, 0);
    forall y, r | 0 <= y < |t| && 0 <= r < |t[y]| && Before(y, r, 2, 0) && t[y][r] != 0 ensures t[y][r] == 10 { }
    assert done == {10};
  }

  lemma HoleCounts()
    ensures |HoleUsage().dirs| == |HoleUsage().slots| && FileSlots(HoleUsage())[11] == 0 && FileSlots(HoleUsage())[12] == 1
  {
    hide ExampleUsage, HoleUsage, Only, Sum;
    HoleSlots();
    HoleFiles(HoleUsage());
    var row: seq<nat> := [12];
    SumBand(Only(HoleUsage(), false), 2, 3, row, 11);
    SumBand(Only(HoleUsage(), false), 2, 3, row, 12);
    assert multiset(row)[12] == 1 && multiset(row)[11] == 0;
  }

  lemma HoleFiles(u: Usage)
    requires |u.dirs| == |u.slots| == INODES && u.slots[0] == [] && u.dirs[1] && u.slots[2] == [12] && !u.dirs[2]
    requires forall f :: 3 <= f < INODES ==> u.slots[f] == []
    ensures forall f :: 0 <= f < INODES ==> Only(u, false)[f] == if 2 <= f < 3 then [12] else []
  {
  }

  lemma HoleMoved(s0: Fs, u0: Usage, lixo: nat -> Block)
    requires Defraggable(s0, u0) && IsFirst(Slots(s0), 2, 0) && Place(Slots(s0), 2, 0) == 11 && |u0.slots| == INODES && |u0.slots[2]| == 1
    ensures Movable(s0) && Shaped(u0)
    ensures var s := Run(s0, 1, 0, FIRST_DATA, lixo).0;
      Formed(s) && s.refs == s0.refs && UsageAfter(s, u0).slots[2] == [11]
  {
    hide Defraggable, Movable, Run, Settled, Place, IsFirst, Still, OnlyBlocks;
    RunSettled(s0, u0, lixo);
    var s := Run(s0, 1, 0, FIRST_DATA, lixo).0;
    SettledSlot(u0, Slots(s0), UsageAfter(s, u0), Slots(s), 2, 0);
    assert UsageAfter(s, u0).slots[2] == [UsageAfter(s, u0).slots[2][0]];
  }

  /** A defragmentation of this valid file system moves the file to block 11 and leaves its count with block 12:
      the file names a block without references, and the account of blocks does not hold. */
  lemma HoleBreaks(lixo: nat -> Block)
    ensures FullInv(HoleFs(), HoleUsage()) && Defraggable(HoleFs(), HoleUsage()) && Movable(HoleFs()) && Shaped(HoleUsage())
    ensures var s := Run(HoleFs(), 1, 0, FIRST_DATA, lixo).0;
      && Formed(s) && |s.refs| == NUM_BLOCOS_MAX
      && UsageAfter(s, HoleUsage()).slots[2] == [11] && s.refs[11] == 0 && s.refs[12] == 1
      && !Acc(s.bmap, s.refs, UsageAfter(s, HoleUsage()))
  {
    hide FullInv, Defraggable, Movable, HoleFs, HoleUsage, Run, Place, IsFirst, CountsPlaced, Acc, UsageTable, NoRepeat, FsInv, UsageAfter;
    HoleValid();
    HoleTable();
    HoleSlots();
    HolePlace(Slots(HoleFs()));
    HoleRefs();
    HoleMoved(HoleFs(), HoleUsage(), lixo);
    DefragAccounts(HoleFs(), HoleUsage(), lixo);
    NotPlacedCount(HoleFs().refs, Slots(HoleFs()), 2, 0);
  }

  lemma HoleRefs()
    ensures |HoleFs().refs| == NUM_BLOCOS_MAX && HoleFs().refs[11] == 0 && HoleFs().refs[12] == 1
  {
    hide RootPage, BitsBelow, BitsFor, FileSlots, ExampleUsage;
    HoleCounts();
  }

  lemma NotPlacedCount(refs: seq<Char>, t: Table, z: nat, q: nat)
    requires IsFirst(t, z, q) && !SameCount(refs, Place(t, z, q), t[z][q])
    ensures !CountsPlaced(refs, t)
  {
  }
}
