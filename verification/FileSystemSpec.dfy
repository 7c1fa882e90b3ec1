/** The state of the file system and what its operations mean for the contents of files. */
module FileSystemSpec {
  import opened Block
  import opened CacheSpec
  import opened Bitmap
  import opened Accounting

  const FS_DIR := 1
  const FS_FILE := 2
  const U32: nat := 0x1_0000_0000
  const MAX_SIZE: nat := 5120
  const DENTRY: nat := 16

  datatype Inode = Inode(tipo: int, size: nat, blocks: seq<nat>)

  datatype Fs = Fs(cache: CacheState, refs: seq<Char>, bmap: Bits, ibmap: Bits, inodes: seq<Inode>)

  function OffsetToBlocks(pos: nat): nat {
    pos / BLOCK_SIZE + if pos % BLOCK_SIZE > 0 then 1 else 0
  }

  // ---------- Invariant ----------

  predicate Formed(s: Fs) {
    && |s.inodes| == INODES && 8 * |s.ibmap| == BMAP_BITS && |s.refs| == |s.cache.disk| >= NUM_BLOCOS_MAX
    && forall f :: 0 <= f < INODES ==> |s.inodes[f].blocks| == INODE_NUM_BLKS
  }

  predicate IsType(s: Fs, f: nat, tipo: int)
    requires Formed(s)
  {
    f < INODES && IsSet(s.ibmap, f) && s.inodes[f].tipo == tipo
  }

  /** The slots in use of an inode are its first ones, and only files and directories use any. */
  predicate LinkedInode(s: Fs, u: Usage, f: nat)
    requires Formed(s) && Shaped(u) && f < INODES
  {
    && u.dirs[f] == IsType(s, f, FS_DIR)
    && u.slots[f] == s.inodes[f].blocks[..|u.slots[f]|]
    && (!IsType(s, f, FS_DIR) && !IsType(s, f, FS_FILE) ==> u.slots[f] == [])
  }

  predicate Linked(s: Fs, u: Usage)
    requires Formed(s) && Shaped(u)
  {
    forall f :: 0 <= f < INODES ==> LinkedInode(s, u, f)
  }

  /** Only blocks of files have valid cache entries: directories are read and written on the disk. */
  predicate RawOk(c: CacheState, u: Usage)
    requires |u.dirs| == |u.slots|
  {
    forall b :: b in c.entries && c.entries[b].valido ==> FileSlots(u)[b] > 0
  }

  /** Inode 0 is reserved and inode 1 is the root directory. */
  predicate Roots(s: Fs, u: Usage)
    requires Formed(s) && Shaped(u)
  {
    && IsSet(s.ibmap, 0) && s.inodes[0].tipo != FS_DIR && s.inodes[0].tipo != FS_FILE
    && IsType(s, 1, FS_DIR) && |u.slots[1]| < INODE_NUM_BLKS
  }

  ghost predicate Core(s: Fs, u: Usage) {
    && Formed(s) && Acc(s.bmap, s.refs, u) && Linked(s, u) && CacheInv(s.cache) && RawOk(s.cache, u) && Roots(s, u)
  }

  /** The slots in use are as many as the size needs. */
  predicate SizedInode(s: Fs, u: Usage, f: nat)
    requires Formed(s) && Shaped(u) && f < INODES
  {
    IsType(s, f, FS_DIR) || IsType(s, f, FS_FILE) ==>
      s.inodes[f].size <= MAX_SIZE && |u.slots[f]| == OffsetToBlocks(s.inodes[f].size)
  }

  predicate Sized(s: Fs, u: Usage)
    requires Formed(s) && Shaped(u)
  {
    forall f :: 0 <= f < INODES ==> SizedInode(s, u, f)
  }

  /** Inodes in use, from inode `f` on. */
  function InodesFrom(s: Fs, f: nat): nat
    requires Formed(s) && f <= INODES
    decreases INODES - f
  {
    if f == INODES then 0 else (if IsSet(s.ibmap, f) then 1 else 0) + InodesFrom(s, f + 1)
  }

  /** Directory entries, from inode `f` on. */
  function EntriesFrom(s: Fs, f: nat): nat
    requires Formed(s) && f <= INODES
    decreases INODES - f
  {
    if f == INODES then 0 else (if IsType(s, f, FS_DIR) then s.inodes[f].size / DENTRY else 0) + EntriesFrom(s, f + 1)
  }

  /** Directories hold whole entries, and never more in all than there are inodes to name. */
  predicate Counted(s: Fs)
    requires Formed(s)
  {
    && EntriesFrom(s, 0) + 2 <= InodesFrom(s, 0)
    && forall f :: 0 <= f < INODES && IsType(s, f, FS_DIR) ==> s.inodes[f].size % DENTRY == 0
  }

  /** Blocks, links, sizes and entries agree, and the reference counts as far as a byte can tell. */
  ghost predicate FsModulo(s: Fs, u: Usage) {
    Core(s, u) && Sized(s, u) && Counted(s)
  }

  /** And no reference count has wrapped around. */
  ghost predicate FsInv(s: Fs, u: Usage) {
    FsModulo(s, u) && Fits(u)
  }

  // ---------- Contents ----------

  predicate OnDisk(slots: seq<nat>, d: seq<Block>) {
    forall k :: 0 <= k < |slots| ==> slots[k] < |d|
  }

  function PagesOf(d: seq<Block>, slots: seq<nat>): (r: seq<Block>)
    requires OnDisk(slots, d)
    ensures |r| == |slots|
  {
    seq(|slots|, k requires 0 <= k < |slots| => d[slots[k]])
  }

  predicate AllOnDisk(u: Usage, d: seq<Block>) {
    forall f :: 0 <= f < |u.slots| ==> OnDisk(u.slots[f], d)
  }

  /** The pages of all inodes, as their users see them. */
  function AllPages(d: seq<Block>, u: Usage): (r: seq<seq<Block>>)
    requires AllOnDisk(u, d)
    ensures |r| == |u.slots|
  {
    seq(|u.slots|, f requires 0 <= f < |u.slots| => PagesOf(d, u.slots[f]))
  }

  function ByteAt(pages: seq<Block>, p: nat): Byte
    requires p < BLOCK_SIZE * |pages|
  {
    pages[p / BLOCK_SIZE][p % BLOCK_SIZE]
  }

  /** The first `n` bytes of some pages. */
  function Bytes(pages: seq<Block>, n: nat): (r: seq<Byte>)
    requires n <= BLOCK_SIZE * |pages|
    ensures |r| == n
  {
    seq(n, p requires 0 <= p < n => ByteAt(pages, p))
  }

  lemma SizeFits(size: nat)
    ensures size <= BLOCK_SIZE * OffsetToBlocks(size) < size + BLOCK_SIZE
  {
  }

  lemma CoreOnDisk(s: Fs, u: Usage)
    requires Core(s, u)
    ensures AllOnDisk(u, LogicalDisk(s.cache)) && |LogicalDisk(s.cache)| == |s.cache.disk|
  {
    hide BitsOk, RefsOk, DirsAlone, Linked, RawOk, Roots, CacheInv, Logical;
  }

  /** What a user reads in inode `f` from beginning to end. */
  ghost function Contents(s: Fs, u: Usage, f: nat): (r: seq<Byte>)
    requires Core(s, u) && Sized(s, u) && f < INODES && (IsType(s, f, FS_FILE) || IsType(s, f, FS_DIR))
    ensures |r| == s.inodes[f].size
  {
    CoreOnDisk(s, u);
    SizeFits(s.inodes[f].size);
    assert SizedInode(s, u, f);
    Bytes(AllPages(LogicalDisk(s.cache), u)[f], s.inodes[f].size)
  }

  /** `w` written over `s` from position `at` on; the result is longer if `w` reaches beyond the end. */
  function Splice(s: seq<Byte>, at: nat, w: seq<Byte>): seq<Byte>
    requires at <= |s|
  {
    s[..at] + w + if at + |w| <= |s| then s[at + |w|..] else []
  }

  // ---------- Pages under changes of slots and blocks ----------

  type Pages = seq<Block>

  function WithPage(ps: seq<Pages>, f: nat, k: nat, x: Block): (r: seq<Pages>)
    requires f < |ps| && k < |ps[f]|
  {
    var p: Pages := ps[f];
    var q: Pages := p[k := x];
    ps[f := q]
  }

  function PlusPage(ps: seq<Pages>, f: nat, x: Block): seq<Pages>
    requires f < |ps|
  {
    var q: Pages := ps[f] + [x];
    ps[f := q]
  }

  function LessPage(ps: seq<Pages>, f: nat): seq<Pages>
    requires f < |ps| && ps[f] != []
  {
    var q: Pages := ps[f][1..];
    ps[f := q]
  }

  /** Writing a block that no slot names changes no page. */
  lemma FreshWrite(d: seq<Block>, u: Usage, b: nat, x: Block)
    requires AllOnDisk(u, d) && b < |d| && forall f, k :: 0 <= f < |u.slots| && 0 <= k < |u.slots[f]| ==> u.slots[f][k] != b
    ensures AllOnDisk(u, d[b := x]) && AllPages(d[b := x], u) == AllPages(d, u)
  {
    forall f | 0 <= f < |u.slots| ensures PagesOf(d[b := x], u.slots[f]) == PagesOf(d, u.slots[f]) { }
  }

  /** Writing a block that exactly one slot names changes exactly that page. */
  lemma IsolatedWrite(d: seq<Block>, u: Usage, f: nat, k: nat, x: Block)
    requires AllOnDisk(u, d) && f < |u.slots| && k < |u.slots[f]|
    requires forall g, j :: 0 <= g < |u.slots| && 0 <= j < |u.slots[g]| && (g != f || j != k) ==> u.slots[g][j] != u.slots[f][k]
    ensures AllOnDisk(u, d[u.slots[f][k] := x])
    ensures AllPages(d[u.slots[f][k] := x], u) == WithPage(AllPages(d, u), f, k, x)
  {
    var d' := d[u.slots[f][k] := x];
    forall g | 0 <= g < |u.slots| ensures PagesOf(d', u.slots[g]) == WithPage(AllPages(d, u), f, k, x)[g] { }
  }

  /** Naming another block in a slot changes that page only. */
  lemma RenamedPages(d: seq<Block>, u: Usage, f: nat, k: nat, b: nat)
    requires AllOnDisk(u, d) && f < |u.slots| && k < |u.slots[f]| && b < |d|
    ensures var u' := SetSlots(u, f, u.slots[f][k := b]);
      AllOnDisk(u', d) && AllPages(d, u') == WithPage(AllPages(d, u), f, k, d[b])
  {
    var u' := SetSlots(u, f, u.slots[f][k := b]);
    assert PagesOf(d, u'.slots[f]) == PagesOf(d, u.slots[f])[k := d[b]];
  }

  lemma AppendedPages(d: seq<Block>, u: Usage, f: nat, b: nat)
    requires AllOnDisk(u, d) && f < |u.slots| && b < |d|
    ensures var u' := SetSlots(u, f, u.slots[f] + [b]);
      AllOnDisk(u', d) && AllPages(d, u') == PlusPage(AllPages(d, u), f, d[b])
  {
    var u' := SetSlots(u, f, u.slots[f] + [b]);
    assert PagesOf(d, u'.slots[f]) == PagesOf(d, u.slots[f]) + [d[b]];
  }

  lemma DroppedPages(d: seq<Block>, u: Usage, f: nat)
    requires AllOnDisk(u, d) && f < |u.slots| && u.slots[f] != []
    ensures var u' := SetSlots(u, f, u.slots[f][1..]);
      AllOnDisk(u', d) && AllPages(d, u') == LessPage(AllPages(d, u), f)
  {
    var u' := SetSlots(u, f, u.slots[f][1..]);
    assert PagesOf(d, u'.slots[f]) == PagesOf(d, u.slots[f])[1..];
  }

  /** A block that is free in the bitmap is in no slot. */
  lemma FreeUnnamed(bmap: Bits, refs: seq<Char>, u: Usage, b: nat)
    requires Acc(bmap, refs, u) && b < BMAP_BITS && !IsSet(bmap, b)
    ensures forall f, k :: 0 <= f < |u.slots| && 0 <= k < |u.slots[f]| ==> u.slots[f][k] != b
  {
    hide IsSet, Only;
    forall f, k | 0 <= f < |u.slots| && 0 <= k < |u.slots[f]| ensures u.slots[f][k] != b {
      SlotCounted(u, f, k);
    }
  }

  /** A file's block with one reference is in no other slot. */
  lemma SoleOwner(bmap: Bits, refs: seq<Char>, u: Usage, f: nat, k: nat)
    requires Acc(bmap, refs, u) && Fits(u) && f < INODES && !u.dirs[f] && k < |u.slots[f]| && refs[u.slots[f][k]] <= 1
    ensures forall g, j :: 0 <= g < |u.slots| && 0 <= j < |u.slots[g]| && (g != f || j != k) ==> u.slots[g][j] != u.slots[f][k]
  {
    forall g, j | 0 <= g < |u.slots| && 0 <= j < |u.slots[g]| && (g != f || j != k) ensures u.slots[g][j] != u.slots[f][k] {
      if u.slots[g][j] == u.slots[f][k] { SharedCounted(bmap, refs, u, f, k, g, j); }
    }
  }
}
