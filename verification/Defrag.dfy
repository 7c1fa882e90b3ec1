/** Defragmentation: the used data blocks are moved together to the front of the disk, one by one, in the
    order of the inode table. */
module Defrag {
  import opened Block
  import opened CacheSpec
  import opened Bitmap
  import opened Accounting
  import opened FileSystemSpec
  import opened FileSystemSteps
  import opened FileSystemFacts

  type Table = seq<seq<nat>>

  /** All ten block slots of all inodes; 0 where there is no block. */
  function Slots(s: Fs): (t: Table)
    ensures |t| == |s.inodes| && forall z :: 0 <= z < |t| ==> t[z] == s.inodes[z].blocks
  {
    SlotsOf(s.inodes)
  }

  function SlotsOf(inodes: seq<Inode>): (t: Table)
    ensures |t| == |inodes| && forall z :: 0 <= z < |t| ==> t[z] == inodes[z].blocks
  {
    seq(|inodes|, z requires 0 <= z < |inodes| => inodes[z].blocks)
  }

  ghost predicate Named(t: Table, b: nat) {
    exists z, q :: 0 <= z < |t| && 0 <= q < |t[z]| && t[z][q] == b
  }

  /** No slot is stale: every slot that is not zero names a data block, and no inode names one twice. Inode 0
      names none, and the root does not fill its slots. */
  predicate TableOk(t: Table) {
    && |t| == INODES && (forall z :: 0 <= z < |t| ==> |t[z]| == INODE_NUM_BLKS)
    && (forall z, q :: 0 <= z < |t| && 0 <= q < |t[z]| ==> t[z][q] == 0 || FIRST_DATA <= t[z][q] <= NUM_BLOCOS_MAX)
    && (forall z, q, r :: 0 <= z < |t| && 0 <= q < r < |t[z]| && t[z][q] != 0 ==> t[z][q] != t[z][r])
    && (forall q :: 0 <= q < |t[0]| ==> t[0][q] == 0) && t[1][INODE_NUM_BLKS - 1] == 0
  }

  ghost predicate BitsNamed(bmap: Bits, t: Table) {
    8 * |bmap| == BMAP_BITS && forall b :: 0 <= b < BMAP_BITS ==> (IsSet(bmap, b) <==> b < FIRST_DATA || Named(t, b))
  }

  /** The cache has nothing that is not on the disk, and valid entries for named blocks only. */
  ghost predicate Flushed(c: CacheState, t: Table) {
    && CacheInv(c)
    && forall b :: b in c.entries && c.entries[b].valido ==> c.entries[b].bytes == c.disk[b] && Named(t, b)
  }

  /** The state between two moves. A slot may name block 640, which is beyond a disk of 640 blocks. */
  ghost predicate Movable(s: Fs) {
    Formed(s) && TableOk(Slots(s)) && BitsNamed(s.bmap, Slots(s)) && Flushed(s.cache, Slots(s))
  }

  /** Every slot has the content it had, whatever block it is in now. */
  predicate SameView(d0: seq<Block>, t0: Table, d: seq<Block>, t: Table) {
    && |t| == |t0|
    && forall z :: 0 <= z < |t| ==> |t[z]| == |t0[z]| && forall q :: 0 <= q < |t[z]| ==> SameSlot(d0, t0[z][q], d, t[z][q])
  }

  predicate SameSlot(d0: seq<Block>, b0: nat, d: seq<Block>, b: nat) {
    (b == 0 <==> b0 == 0) && (b0 != 0 ==> b0 < |d0| && b < |d| && d[b] == d0[b0])
  }

  /** Nothing in the inode table changed but the block slots. */
  predicate OnlyBlocks(s0: Fs, s: Fs) {
    && s.ibmap == s0.ibmap && |s.inodes| == |s0.inodes|
    && forall z :: 0 <= z < |s.inodes| ==> s.inodes[z].tipo == s0.inodes[z].tipo && s.inodes[z].size == s0.inodes[z].size
  }

  // ---------- One move ----------

  function Renamed(row: seq<nat>, from: nat, to: nat): (r: seq<nat>)
    ensures |r| == |row| && forall q :: 0 <= q < |row| ==> r[q] == if row[q] == from then to else row[q]
  {
    seq(|row|, q requires 0 <= q < |row| => if row[q] == from then to else row[q])
  }

  function RenamedInodes(inodes: seq<Inode>, from: nat, to: nat): (r: seq<Inode>)
    ensures |r| == |inodes| && forall z :: 0 <= z < |r| ==> r[z] == inodes[z].(blocks := Renamed(inodes[z].blocks, from, to))
  {
    seq(|inodes|, z requires 0 <= z < |inodes| => inodes[z].(blocks := Renamed(inodes[z].blocks, from, to)))
  }

  /** What a buffer holds after a block is read into it: beyond the disk, what it held before. */
  function ReadOr(d: seq<Block>, b: nat, lixo: Block): Block {
    if b < |d| then d[b] else lixo
  }

  /** Block `bl` moves to `dest`, which is free. */
  function MovedFree(s: Fs, bl: nat, dest: nat, lixo: Block): Fs
    requires bl < 8 * |s.bmap| && dest < 8 * |s.bmap|
  {
    s.(cache := Invalidate(RawWrite(s.cache, dest, ReadOr(s.cache.disk, bl, lixo)), bl),
       bmap := ClrBit(SetBit(s.bmap, dest), bl),
       inodes := RenamedInodes(s.inodes, bl, dest))
  }

  /** Block `bl` moves to `dest`, and what was there moves to the free block `k`. */
  function MovedOver(s: Fs, bl: nat, dest: nat, k: nat): Fs
    requires dest < |s.cache.disk| && bl < 8 * |s.bmap| && dest < 8 * |s.bmap| && k < 8 * |s.bmap|
  {
    var c1 := Invalidate(RawWrite(s.cache, k, s.cache.disk[dest]), dest);
    var c2 := Invalidate(RawWrite(c1, dest, ReadOr(c1.disk, bl, s.cache.disk[dest])), bl);
    s.(cache := c2, bmap := ClrBit(SetBit(SetBit(s.bmap, k), dest), bl),
       inodes := RenamedInodes(RenamedInodes(s.inodes, dest, k), bl, dest))
  }

  /** The last free block from `k` down, or 9. */
  function LastFree(bmap: Bits, k: nat): (r: nat)
    requires k < 8 * |bmap|
    ensures r <= k
  {
    if k < FIRST_DATA || !IsSet(bmap, k) then k else LastFree(bmap, k - 1)
  }

  /** Block `bl` moves to `dest`; if that is used, what is there is put in the last free block before. */
  function Moved(s: Fs, bl: nat, dest: nat, lixo: Block): Fs
    requires dest < |s.cache.disk| && bl < 8 * |s.bmap| && dest < 8 * |s.bmap| && NUM_BLOCOS_MAX < 8 * |s.bmap|
  {
    if !IsSet(s.bmap, dest) then MovedFree(s, bl, dest, lixo) else MovedOver(s, bl, dest, LastFree(s.bmap, NUM_BLOCOS_MAX))
  }

  lemma InvalidateKeys(c: CacheState, b: nat)
    ensures Invalidate(c, b).entries.Keys == c.entries.Keys && Invalidate(c, b).disk == c.disk && Invalidate(c, b).max == c.max
    ensures |Invalidate(c, b).entries| == |c.entries|
    ensures forall x :: HasValid(Invalidate(c, b), x) ==> x != b && HasValid(c, x) && Invalidate(c, b).entries[x] == c.entries[x]
  {
    assert Invalidate(c, b).entries.Keys == c.entries.Keys;
    assert |Invalidate(c, b).entries| == |Invalidate(c, b).entries.Keys| && |c.entries| == |c.entries.Keys|;
  }

  /** The table after a move to a free block. */
  lemma FreeTable(t: Table, t': Table, bl: nat, dest: nat)
    requires TableOk(t) && Named(t, bl) && bl >= FIRST_DATA && FIRST_DATA <= dest <= NUM_BLOCOS_MAX && !Named(t, dest)
    requires |t'| == |t| && forall z :: 0 <= z < |t| ==> t'[z] == Renamed(t[z], bl, dest)
    ensures TableOk(t') && forall b: nat :: Named(t', b) <==> b == dest || (b != bl && Named(t, b))
  {
    forall z, q | 0 <= z < |t| && 0 <= q < |t[z]| ensures t[z][q] != dest { assert Named(t, t[z][q]); }
    RenamedNames(t, t', bl, dest);
  }

  lemma RenamedNames(t: Table, t': Table, bl: nat, dest: nat)
    requires Named(t, bl) && dest != bl && |t'| == |t| && forall z :: 0 <= z < |t| ==> t'[z] == Renamed(t[z], bl, dest)
    ensures forall b: nat :: Named(t', b) <==> b == dest || (b != bl && Named(t, b))
  {
    var z0, q0 :| 0 <= z0 < |t| && 0 <= q0 < |t[z0]| && t[z0][q0] == bl;
    assert t'[z0][q0] == dest;
    forall b: nat | b != dest && Named(t', b) ensures b != bl && Named(t, b) {
      var z, q :| 0 <= z < |t'| && 0 <= q < |t'[z]| && t'[z][q] == b;
      assert t[z][q] == b;
    }
    forall b: nat | b != bl && Named(t, b) ensures Named(t', b) {
      var z, q :| 0 <= z < |t| && 0 <= q < |t[z]| && t[z][q] == b;
      assert t'[z][q] == b;
    }
  }

  lemma FreeBits(bmap: Bits, t: Table, t': Table, bl: nat, dest: nat)
    requires BitsNamed(bmap, t) && bl < BMAP_BITS && dest < BMAP_BITS && bl >= FIRST_DATA && dest != bl
    requires forall b: nat :: Named(t', b) <==> b == dest || (b != bl && Named(t, b))
    ensures BitsNamed(ClrBit(SetBit(bmap, dest), bl), t')
  {
    hide IsSet, SetBit, ClrBit, Named;
    var b1 := SetBit(bmap, dest);
    forall b | 0 <= b < BMAP_BITS ensures IsSet(ClrBit(b1, bl), b) <==> b < FIRST_DATA || Named(t', b) {
      SetOnly(bmap, dest, b);
      ClrOnly(b1, bl, b);
    }
  }

  lemma FreeFlushed(c: CacheState, t: Table, t': Table, bl: nat, dest: nat, x: Block)
    requires Flushed(c, t) && !Named(t, dest) && bl != dest
    requires forall b: nat :: Named(t', b) <==> b == dest || (b != bl && Named(t, b))
    ensures Flushed(Invalidate(RawWrite(c, dest, x), bl), t')
  {
    hide Named;
    var c1 := RawWrite(c, dest, x);
    var c' := Invalidate(c1, bl);
    InvalidateKeys(c1, bl);
    forall x | x in c'.entries && c'.entries[x].valido ensures c'.entries[x].bytes == c'.disk[x] && Named(t', x) && x < |c'.disk| {
      assert HasValid(c', x);
      assert HasValid(c, x) && x != bl;
      assert Named(t, x) && x != dest;
    }
  }

  lemma FreeView(d: seq<Block>, t: Table, t': Table, bl: nat, dest: nat)
    requires TableOk(t) && NamesOn(t, d) && FIRST_DATA <= bl < |d| && FIRST_DATA <= dest < |d| && !Named(t, dest)
    requires |t'| == |t| && forall z :: 0 <= z < |t| ==> t'[z] == Renamed(t[z], bl, dest)
    ensures SameView(d, t, d[dest := d[bl]], t')
  {
    forall z, q | 0 <= z < |t'| && 0 <= q < |t'[z]| ensures SameSlot(d, t[z][q], d[dest := d[bl]], t'[z][q]) {
      assert Named(t, t[z][q]);
    }
  }

  /** No slot names a block beyond the disk. */
  predicate NamesOn(t: Table, d: seq<Block>) {
    forall z, q :: 0 <= z < |t| && 0 <= q < |t[z]| ==> t[z][q] < |d|
  }

  /** Moving a block to a free one keeps all that a defragmentation needs, and every slot's content if there
      are no names beyond the disk. */
  lemma FreeMove(s: Fs, bl: nat, dest: nat, lixo: Block)
    requires Movable(s) && Named(Slots(s), bl) && FIRST_DATA <= bl <= NUM_BLOCOS_MAX && FIRST_DATA <= dest <= NUM_BLOCOS_MAX && !Named(Slots(s), dest)
    ensures bl < 8 * |s.bmap| && dest < 8 * |s.bmap|
    ensures var s' := MovedFree(s, bl, dest, lixo);
      && Movable(s') && OnlyBlocks(s, s') && s'.refs == s.refs && |s'.cache.disk| == |s.cache.disk|
      && (forall b: nat :: Named(Slots(s'), b) <==> b == dest || (b != bl && Named(Slots(s), b)))
      && (NamesOn(Slots(s), s.cache.disk) && bl < |s.cache.disk| && dest < |s.cache.disk| ==> SameView(s.cache.disk, Slots(s), s'.cache.disk, Slots(s')))
  {
    hide IsSet, SetBit, ClrBit, CacheInv, Invalidate, Named, BitsNamed, Flushed, SameView, NamesOn;
    BitsLength(s.bmap, Slots(s));
    var s' := MovedFree(s, bl, dest, lixo);
    var t, t' := Slots(s), Slots(s');
    assert bl != dest;
    FreeTable(t, t', bl, dest);
    FreeBits(s.bmap, t, t', bl, dest);
    FreeFlushed(s.cache, t, t', bl, dest, ReadOr(s.cache.disk, bl, lixo));
    if NamesOn(t, s.cache.disk) && bl < |s.cache.disk| && dest < |s.cache.disk| { FreeView(s.cache.disk, t, t', bl, dest); }
    InvalidateKeys(RawWrite(s.cache, dest, ReadOr(s.cache.disk, bl, lixo)), bl);
    MovedForm(s, bl, dest, lixo);
  }

  lemma BitsLength(bmap: Bits, t: Table)
    requires BitsNamed(bmap, t)
    ensures 8 * |bmap| == BMAP_BITS
  {
  }

  lemma MovedForm(s: Fs, bl: nat, dest: nat, lixo: Block)
    requires Formed(s) && bl < 8 * |s.bmap| && dest < 8 * |s.bmap|
    ensures Formed(MovedFree(s, bl, dest, lixo))
  {
    InvalidateKeys(RawWrite(s.cache, dest, ReadOr(s.cache.disk, bl, lixo)), bl);
  }

  lemma ViewTrans(d0: seq<Block>, t0: Table, d1: seq<Block>, t1: Table, d2: seq<Block>, t2: Table)
    requires SameView(d0, t0, d1, t1) && SameView(d1, t1, d2, t2)
    ensures SameView(d0, t0, d2, t2)
  {
    forall z, q | 0 <= z < |t2| && 0 <= q < |t2[z]| ensures SameSlot(d0, t0[z][q], d2, t2[z][q]) {
      assert SameSlot(d0, t0[z][q], d1, t1[z][q]) && SameSlot(d1, t1[z][q], d2, t2[z][q]);
    }
  }

  /** Moving a block to a used one, whose content goes to a free one first. */
  lemma OverMove(s: Fs, bl: nat, dest: nat, k: nat)
    requires Movable(s) && Named(Slots(s), bl) && Named(Slots(s), dest) && bl != dest && !Named(Slots(s), k) && dest < |s.cache.disk|
    requires FIRST_DATA <= bl <= NUM_BLOCOS_MAX && FIRST_DATA <= dest <= NUM_BLOCOS_MAX && FIRST_DATA <= k <= NUM_BLOCOS_MAX
    ensures bl < 8 * |s.bmap| && dest < 8 * |s.bmap| && k < 8 * |s.bmap|
    ensures var s' := MovedOver(s, bl, dest, k);
      && Movable(s') && OnlyBlocks(s, s') && s'.refs == s.refs && |s'.cache.disk| == |s.cache.disk|
      && (forall b: nat :: Named(Slots(s'), b) <==> b == k || (b != bl && Named(Slots(s), b)))
      && (NamesOn(Slots(s), s.cache.disk) && bl < |s.cache.disk| && k < |s.cache.disk| ==> SameView(s.cache.disk, Slots(s), s'.cache.disk, Slots(s')))
  {
    hide IsSet, SetBit, ClrBit, CacheInv, Invalidate, Named, Flushed, SameView, TableOk, BitsNamed, NamesOn, RawWrite;
    var lixo := s.cache.disk[dest];
    FreeMove(s, dest, k, lixo);
    var s1 := MovedFree(s, dest, k, lixo);
    FreeMove(s1, bl, dest, lixo);
    var s2, s' := MovedFree(s1, bl, dest, lixo), MovedOver(s, bl, dest, k);
    if NamesOn(Slots(s), s.cache.disk) && bl < |s.cache.disk| && k < |s.cache.disk| {
      ViewOn(s.cache.disk, Slots(s), s1.cache.disk, Slots(s1));
      ViewTrans(s.cache.disk, Slots(s), s1.cache.disk, Slots(s1), s2.cache.disk, Slots(s2));
    }
    assert s' == s2.(bmap := s'.bmap) by { OverCache(s, bl, dest, k); }
    assert Slots(s') == Slots(s2);
    OverBits(s.bmap, Slots(s), Slots(s'), bl, dest, k);
  }

  lemma ViewOn(d0: seq<Block>, t0: Table, d: seq<Block>, t: Table)
    requires SameView(d0, t0, d, t) && |d| > 0
    ensures NamesOn(t, d)
  {
    forall z, q | 0 <= z < |t| && 0 <= q < |t[z]| ensures t[z][q] < |d| { assert SameSlot(d0, t0[z][q], d, t[z][q]); }
  }

  lemma OverCache(s: Fs, bl: nat, dest: nat, k: nat)
    requires dest < |s.cache.disk| && bl < 8 * |s.bmap| && dest < 8 * |s.bmap| && k < 8 * |s.bmap| && bl != k
    ensures MovedFree(MovedFree(s, dest, k, s.cache.disk[dest]), bl, dest, s.cache.disk[dest]).cache == MovedOver(s, bl, dest, k).cache
  {
    hide IsSet, SetBit, ClrBit;
    InvalidateKeys(RawWrite(s.cache, k, s.cache.disk[dest]), dest);
  }

  lemma OverBits(bmap: Bits, t: Table, t': Table, bl: nat, dest: nat, k: nat)
    requires BitsNamed(bmap, t) && FIRST_DATA <= bl < BMAP_BITS && dest < BMAP_BITS && k < BMAP_BITS && k != bl && dest != bl
    requires Named(t, dest) && forall b: nat :: Named(t', b) <==> b == dest || (b != bl && (b == k || (b != dest && Named(t, b))))
    ensures BitsNamed(ClrBit(SetBit(SetBit(bmap, k), dest), bl), t')
    ensures forall b: nat :: Named(t', b) <==> b == k || (b != bl && Named(t, b))
  {
    hide IsSet, SetBit, ClrBit, Named;
    var b1, b2 := SetBit(bmap, k), SetBit(SetBit(bmap, k), dest);
    forall b | 0 <= b < BMAP_BITS ensures IsSet(ClrBit(b2, bl), b) <==> b < FIRST_DATA || Named(t', b) {
      SetOnly(bmap, k, b);
      SetOnly(b1, dest, b);
      ClrOnly(b2, bl, b);
    }
  }

  // ---------- A free block to move to ----------

  lemma {:induction false} SumCountsZeros(ss: seq<seq<nat>>, z: nat)
    requires z < |ss|
    ensures Sum(ss)[0] >= multiset(ss[z])[0]
  {
    if z > 0 { SumCountsZeros(ss[1..], z - 1); }
  }

  lemma {:induction false} ZerosIn(s: seq<nat>)
    requires forall q :: 0 <= q < |s| ==> s[q] == 0
    ensures multiset(s)[0] == |s|
  {
    if s != [] {
      assert s == [s[0]] + s[1..];
      ZerosIn(s[1..]);
    }
  }

  lemma WithoutZeros(m: multiset<nat>)
    ensures |m| == |m[0 := 0]| + m[0]
  {
    assert m == m[0 := 0] + multiset{0}[0 := m[0]];
    assert |multiset{0}[0 := m[0]]| == m[0];
  }

  lemma AllNamedMany(t: Table)
    requires TableOk(t) && forall b :: FIRST_DATA <= b < NUM_BLOCOS_MAX ==> Named(t, b)
    ensures |Sum(t)| > INODE_NUM_BLKS * INODES
  {
    var m := Sum(t);
    var m0 := m[0 := 0];
    forall b | FIRST_DATA <= b < NUM_BLOCOS_MAX ensures m0[b] > 0 {
      assert Named(t, b);
      var z, q :| 0 <= z < |t| && 0 <= q < |t[z]| && t[z][q] == b;
      SumHas(t, z, q);
    }
    ManyNames(m0, FIRST_DATA, NUM_BLOCOS_MAX);
    ManyZeros(t);
    WithoutZeros(m);
  }

  /** Among the data blocks of the first 640 there is always one that no slot names. */
  lemma SomeUnnamed(t: Table) returns (b: nat)
    requires TableOk(t)
    ensures FIRST_DATA <= b < NUM_BLOCOS_MAX && !Named(t, b)
  {
    SumSize(t);
    if forall b :: FIRST_DATA <= b < NUM_BLOCOS_MAX ==> Named(t, b) {
      AllNamedMany(t);
    }
    b :| FIRST_DATA <= b < NUM_BLOCOS_MAX && !Named(t, b);
  }

  lemma ManyZeros(t: Table)
    requires TableOk(t)
    ensures Sum(t)[0] > INODE_NUM_BLKS
  {
    ZerosIn(t[0]);
    assert Sum(t) == multiset(t[0]) + Sum(t[1..]);
    assert t[1] == t[1][..INODE_NUM_BLKS - 1] + [0];
    assert multiset(t[1])[0] > 0;
    SumCountsZeros(t[1..], 0);
  }

  // ---------- The order of the moves ----------

  predicate Before(z: nat, q: nat, z': nat, q': nat) {
    z < z' || (z == z' && q < q')
  }

  ghost predicate NamedBefore(t: Table, b: nat, z: nat, q: nat) {
    exists y, r :: 0 <= y < |t| && 0 <= r < |t[y]| && Before(y, r, z, q) && t[y][r] == b
  }

  /** The blocks named before slot `q` of inode `z` are exactly those from 10 to `pos - 1`. */
  ghost predicate Packed(t: Table, z: nat, q: nat, pos: nat) {
    && FIRST_DATA <= pos
    && (forall y, r :: 0 <= y < |t| && 0 <= r < |t[y]| && Before(y, r, z, q) ==> t[y][r] == 0 || FIRST_DATA <= t[y][r] < pos)
    && (forall b :: FIRST_DATA <= b < pos ==> NamedBefore(t, b, z, q))
  }

  lemma PackedStart(t: Table)
    requires TableOk(t)
    ensures Packed(t, 1, 0, FIRST_DATA)
  {
  }

  /** A slot that is zero, or names a block that is already in its place. */
  lemma PackedSkip(t: Table, z: nat, q: nat, pos: nat)
    requires TableOk(t) && Packed(t, z, q, pos) && z < |t| && q < |t[z]| && t[z][q] < pos
    ensures Packed(t, z, q + 1, pos)
  {
    var q' := q + 1;
    forall b | FIRST_DATA <= b < pos ensures NamedBefore(t, b, z, q') { assert NamedBefore(t, b, z, q); Later(t, b, z, q); }
  }

  lemma Later(t: Table, b: nat, z: nat, q: nat)
    requires NamedBefore(t, b, z, q)
    ensures NamedBefore(t, b, z, q + 1) && NamedBefore(t, b, z + 1, 0)
  {
    var y, r :| 0 <= y < |t| && 0 <= r < |t[y]| && Before(y, r, z, q) && t[y][r] == b;
    assert Before(y, r, z, q + 1) && Before(y, r, z + 1, 0);
  }

  /** A slot that names the next block in order. */
  lemma PackedNext(t: Table, z: nat, q: nat, pos: nat)
    requires TableOk(t) && Packed(t, z, q, pos) && z < |t| && q < |t[z]| && t[z][q] == pos
    ensures Packed(t, z, q + 1, pos + 1)
  {
    var q' := q + 1;
    forall b | FIRST_DATA <= b < pos + 1 ensures NamedBefore(t, b, z, q') {
      if b < pos { assert NamedBefore(t, b, z, q); Later(t, b, z, q); } else { assert Before(z, q, z, q') && t[z][q] == b; }
    }
  }

  lemma PackedRow(t: Table, z: nat, pos: nat)
    requires TableOk(t) && z < |t| && Packed(t, z, INODE_NUM_BLKS, pos)
    ensures Packed(t, z + 1, 0, pos)
  {
    var z' := z + 1;
    forall b | FIRST_DATA <= b < pos ensures NamedBefore(t, b, z', 0) { assert NamedBefore(t, b, z, INODE_NUM_BLKS); Later(t, b, z, INODE_NUM_BLKS); }
    forall y, r | 0 <= y < |t| && 0 <= r < |t[y]| && Before(y, r, z + 1, 0) ensures t[y][r] == 0 || FIRST_DATA <= t[y][r] < pos {
      assert Before(y, r, z, INODE_NUM_BLKS);
    }
  }

  /** Renaming blocks beyond those in place does not disturb them. */
  lemma PackedMove(t: Table, t': Table, z: nat, q: nat, pos: nat)
    requires Packed(t, z, q, pos) && |t'| == |t|
    requires forall y :: 0 <= y < |t| ==> |t'[y]| == |t[y]| && forall r :: 0 <= r < |t[y]| ==> (t[y][r] < pos ==> t'[y][r] == t[y][r])
    ensures Packed(t', z, q, pos)
  {
    forall b | FIRST_DATA <= b < pos ensures NamedBefore(t', b, z, q) {
      assert NamedBefore(t, b, z, q);
      var y, r :| 0 <= y < |t| && 0 <= r < |t[y]| && Before(y, r, z, q) && t[y][r] == b;
      assert t'[y][r] == b;
    }
    forall y, r | 0 <= y < |t'| && 0 <= r < |t'[y]| && Before(y, r, z, q) ensures t'[y][r] == 0 || FIRST_DATA <= t'[y][r] < pos {
      assert t[y][r] == 0 || FIRST_DATA <= t[y][r] < pos;
    }
  }

  /** At the end the used data blocks are exactly those from 10 to `pos - 1`. */
  lemma PackedAll(t: Table, pos: nat)
    requires TableOk(t) && Packed(t, INODES, 0, pos)
    ensures forall b :: b >= FIRST_DATA ==> (Named(t, b) <==> b < pos)
  {
    forall b | b >= FIRST_DATA ensures Named(t, b) <==> b < pos {
      if b < pos {
        assert NamedBefore(t, b, INODES, 0);
        var y, r :| 0 <= y < |t| && 0 <= r < |t[y]| && Before(y, r, INODES, 0) && t[y][r] == b;
        assert t[y][r] == b;
      }
      if Named(t, b) {
        var y, r :| 0 <= y < |t| && 0 <= r < |t[y]| && t[y][r] == b;
        assert Before(y, r, INODES, 0);
      }
    }
  }

  /** A free block is not among those in place. */
  lemma PlaceUsed(t: Table, z: nat, q: nat, pos: nat)
    requires Packed(t, z, q, pos)
    ensures forall b :: FIRST_DATA <= b < pos ==> Named(t, b)
  {
    forall b | FIRST_DATA <= b < pos ensures Named(t, b) {
      assert NamedBefore(t, b, z, q);
      var y, r :| 0 <= y < |t| && 0 <= r < |t[y]| && Before(y, r, z, q) && t[y][r] == b;
    }
  }

  // ---------- Before and after ----------

  /** Every slot beyond those in use is zero, in all inodes. */
  predicate NoStale(s: Fs, u: Usage)
    requires Formed(s) && Shaped(u)
  {
    forall z, k :: 0 <= z < INODES && |u.slots[z]| <= k < INODE_NUM_BLKS ==> s.inodes[z].blocks[k] == 0
  }

  /** Every valid cache entry equals the disk. */
  predicate NothingUnwritten(c: CacheState) {
    forall b :: b in c.entries && b < |c.disk| && c.entries[b].valido ==> c.entries[b].bytes == c.disk[b]
  }

  /** What a defragmentation asks for. */
  ghost predicate Defraggable(s: Fs, u: Usage) {
    && FsInv(s, u) && NoRepeat(u) && NoStale(s, u) && NothingUnwritten(s.cache)
  }

  /** Every slot names a block among the first 640. */
  predicate NamesLow(t: Table) {
    forall z, q :: 0 <= z < |t| && 0 <= q < |t[z]| ==> t[z][q] < NUM_BLOCOS_MAX
  }

  lemma StartTable(s: Fs, u: Usage)
    requires Core(s, u) && NoRepeat(u) && NoStale(s, u)
    ensures TableOk(Slots(s)) && NamesOn(Slots(s), s.cache.disk) && NamesLow(Slots(s))
    ensures forall b :: b >= FIRST_DATA ==> (Named(Slots(s), b) <==> FileSlots(u)[b] > 0 || DirSlots(u)[b] > 0)
  {
    hide BitsOk, RefsOk, DirsAlone, RawOk, CacheInv, IsSet, Only;
    var t := Slots(s);
    CoreParts(s, u);
    forall z | 0 <= z < INODES ensures u.slots[z] == t[z][..|u.slots[z]|] && Distinct(u.slots[z]) { assert LinkedInode(s, u, z); }
    assert |s.cache.disk| >= NUM_BLOCOS_MAX;
    forall z, q | 0 <= z < |t| && 0 <= q < |t[z]| ensures if q < |u.slots[z]| then t[z][q] == u.slots[z][q] && FIRST_DATA <= t[z][q] < NUM_BLOCOS_MAX else t[z][q] == 0 { }
    forall b | b >= FIRST_DATA ensures Named(t, b) <==> FileSlots(u)[b] > 0 || DirSlots(u)[b] > 0 {
      if Named(t, b) {
        var z, q :| 0 <= z < |t| && 0 <= q < |t[z]| && t[z][q] == b;
        SlotCounted(u, z, q);
      } else {
        forall f, k | 0 <= f < |u.slots| && 0 <= k < |u.slots[f]| ensures u.slots[f][k] != b { assert t[f][k] == u.slots[f][k]; assert Named(t, t[f][k]); }
        Unnamed(u, b);
      }
    }
  }

  /** A file system without repeats, stale slots and unwritten data can be defragmented. */
  lemma DefragStart(s: Fs, u: Usage)
    requires Defraggable(s, u)
    ensures Movable(s) && NamesOn(Slots(s), s.cache.disk) && NamesLow(Slots(s))
  {
    hide IsSet, Fits, Sized, Counted, LogicalDisk, TableOk;
    InvParts(s, u);
    CoreParts(s, u);
    StartTable(s, u);
    StartBits(s.bmap, s.refs, u, Slots(s));
    StartFlushed(s.cache, u, Slots(s));
  }

  lemma StartBits(bmap: Bits, refs: seq<Char>, u: Usage, t: Table)
    requires Acc(bmap, refs, u) && forall b :: b >= FIRST_DATA ==> (Named(t, b) <==> FileSlots(u)[b] > 0 || DirSlots(u)[b] > 0)
    ensures BitsNamed(bmap, t)
  {
    hide IsSet, Named;
  }

  lemma StartFlushed(c: CacheState, u: Usage, t: Table)
    requires CacheInv(c) && |u.dirs| == |u.slots| && RawOk(c, u) && NothingUnwritten(c) && InRange(u.slots)
    requires forall b :: b >= FIRST_DATA ==> (Named(t, b) <==> FileSlots(u)[b] > 0 || DirSlots(u)[b] > 0)
    ensures Flushed(c, t)
  {
    hide Named;
    forall b | b in c.entries && c.entries[b].valido ensures c.entries[b].bytes == c.disk[b] && Named(t, b) && b < |c.disk| {
      assert FileSlots(u)[b] > 0;
      if b < FIRST_DATA { MetadataUnnamed(u, b); }
    }
  }

  lemma MetadataUnnamed(u: Usage, b: nat)
    requires |u.dirs| == |u.slots| && InRange(u.slots) && b < FIRST_DATA
    ensures FileSlots(u)[b] == 0
  {
    forall f, k | 0 <= f < |u.slots| && 0 <= k < |u.slots[f]| ensures u.slots[f][k] != b { }
    Unnamed(u, b);
  }

  /** What a defragmentation leaves in the tables: the used data blocks are those from 10 to `pos - 1`, the bitmap
      says so, and the reference counts are still those of the old places. */
  ghost predicate DefraggedTables(s0: Fs, u0: Usage, s: Fs, pos: nat) {
    && FsInv(s0, u0) && Formed(s) && OnlyBlocks(s0, s) && s.refs == s0.refs && FIRST_DATA <= pos
    && (forall b :: b >= FIRST_DATA ==> (Named(Slots(s), b) <==> b < pos))
    && 8 * |s.bmap| == BMAP_BITS && (forall b :: 0 <= b < BMAP_BITS ==> (IsSet(s.bmap, b) <==> b < pos))
  }

  /** And every file and directory has the contents it had. */
  ghost predicate Defragged(s0: Fs, u0: Usage, s: Fs, pos: nat) {
    && DefraggedTables(s0, u0, s, pos)
    && forall f :: 0 <= f < INODES && (IsType(s0, f, FS_FILE) || IsType(s0, f, FS_DIR)) ==> SameContents(s0, u0, s, f)
  }

  ghost predicate SameContents(s0: Fs, u0: Usage, s: Fs, f: nat)
    requires FsInv(s0, u0) && Formed(s) && f < INODES && (IsType(s0, f, FS_FILE) || IsType(s0, f, FS_DIR))
  {
    var slots := s.inodes[f].blocks[..|u0.slots[f]|];
    && IsType(s, f, s0.inodes[f].tipo) && s.inodes[f].size == s0.inodes[f].size
    && OnDisk(slots, LogicalDisk(s.cache)) && s.inodes[f].size <= BLOCK_SIZE * |slots|
    && Bytes(PagesOf(LogicalDisk(s.cache), slots), s.inodes[f].size) == Contents(s0, u0, f)
  }

  lemma DefragEnd(s0: Fs, u0: Usage, s: Fs, pos: nat)
    requires Defraggable(s0, u0) && Movable(s) && OnlyBlocks(s0, s) && s.refs == s0.refs
    requires Packed(Slots(s), INODES, 0, pos) && pos <= NUM_BLOCOS_MAX + 1
    ensures DefraggedTables(s0, u0, s, pos)
    ensures SameView(s0.cache.disk, Slots(s0), s.cache.disk, Slots(s)) ==> Defragged(s0, u0, s, pos)
  {
    hide IsSet, Core, Fits, Sized, Counted, LogicalDisk, SameView, TableOk, Flushed;
    InvParts(s0, u0);
    DefragStart(s0, u0);
    PackedAll(Slots(s), pos);
    EndBits(s.bmap, Slots(s), pos);
    if SameView(s0.cache.disk, Slots(s0), s.cache.disk, Slots(s)) {
      forall f | 0 <= f < INODES && (IsType(s0, f, FS_FILE) || IsType(s0, f, FS_DIR)) ensures SameContents(s0, u0, s, f) { EndContents(s0, u0, s, f); }
    }
  }

  lemma EndBits(bmap: Bits, t: Table, pos: nat)
    requires BitsNamed(bmap, t) && FIRST_DATA <= pos && forall b :: b >= FIRST_DATA ==> (Named(t, b) <==> b < pos)
    ensures 8 * |bmap| == BMAP_BITS && forall b :: 0 <= b < BMAP_BITS ==> (IsSet(bmap, b) <==> b < pos)
  {
    hide IsSet, Named;
  }

  lemma EndContents(s0: Fs, u0: Usage, s: Fs, f: nat)
    requires FsInv(s0, u0) && Movable(s0) && Movable(s) && OnlyBlocks(s0, s) && SameView(s0.cache.disk, Slots(s0), s.cache.disk, Slots(s))
    requires f < INODES && (IsType(s0, f, FS_FILE) || IsType(s0, f, FS_DIR))
    ensures SameContents(s0, u0, s, f)
  {
    hide IsSet, Core, Sized, Counted, LogicalDisk, BitsNamed, Flushed;
    InvParts(s0, u0);
    SizeAt(s0, u0, f);
    LinkedAt(s0, u0, f);
    LogicalSize(s.cache);
    LogicalSize(s0.cache);
    var n := |u0.slots[f]|;
    var a, b := u0.slots[f], s.inodes[f].blocks[..n];
    forall k | 0 <= k < n ensures b[k] < |s.cache.disk| && LogicalDisk(s.cache)[b[k]] == LogicalDisk(s0.cache)[a[k]] {
      var t0, t := Slots(s0), Slots(s);
      assert SameSlot(s0.cache.disk, t0[f][k], s.cache.disk, t[f][k]);
      assert Named(t0, t0[f][k]) && Named(t, t[f][k]);
      FlushedLogical(s0.cache, t0, t0[f][k]);
      FlushedLogical(s.cache, t, t[f][k]);
    }
    assert PagesOf(LogicalDisk(s.cache), b) == PagesOf(LogicalDisk(s0.cache), a);
  }

  lemma FlushedLogical(c: CacheState, t: Table, b: nat)
    requires Flushed(c, t) && b < |c.disk|
    ensures b < |LogicalDisk(c)| && LogicalDisk(c)[b] == c.disk[b]
  {
  }

  /** Inode `z` as it is once the inodes before position `l` of the list are renamed. */
  function PartRenamed(inodes: seq<Inode>, refs: seq<nat>, l: nat, from: nat, to: nat): (r: seq<Inode>)
    requires l <= |refs|
    ensures |r| == |inodes|
  {
    seq(|inodes|, z requires 0 <= z < |inodes| => if z in refs[..l] then inodes[z].(blocks := Renamed(inodes[z].blocks, from, to)) else inodes[z])
  }

  /** The only occurrence of a block in a row. */
  lemma RenamedOnce(row: seq<nat>, w: nat, from: nat, to: nat)
    requires w < |row| && row[w] == from && forall r :: 0 <= r < |row| && r != w ==> row[r] != from
    ensures row[w := to] == Renamed(row, from, to)
  {
  }

  lemma RenamedNone(row: seq<nat>, from: nat, to: nat)
    requires from !in row
    ensures Renamed(row, from, to) == row
  {
  }

  /** All inodes with the block are in the list, so renaming those renames all. */
  lemma PartAll(inodes: seq<Inode>, refs: seq<nat>, from: nat, to: nat)
    requires forall z :: 0 <= z < |inodes| ==> (from in inodes[z].blocks ==> z in refs)
    ensures PartRenamed(inodes, refs, |refs|, from, to) == RenamedInodes(inodes, from, to)
  {
    assert refs[..|refs|] == refs;
    forall z | 0 <= z < |inodes| ensures PartRenamed(inodes, refs, |refs|, from, to)[z] == RenamedInodes(inodes, from, to)[z] {
      if z !in refs { RenamedNone(inodes[z].blocks, from, to); }
    }
  }

  /** One more inode of the list, which has the block in slot `w` and nowhere else. */
  lemma PartNext(inodes: seq<Inode>, refs: seq<nat>, l: nat, from: nat, to: nat, w: nat)
    requires l < |refs| && refs[l] < |inodes| && from != to && forall i :: 0 <= i < l ==> refs[i] != refs[l]
    requires var row := inodes[refs[l]].blocks;
      w < |row| && row[w] == from && forall r :: 0 <= r < |row| && r != w ==> row[r] != from
    ensures var p := PartRenamed(inodes, refs, l, from, to);
      p[refs[l]] == inodes[refs[l]] && PartRenamed(inodes, refs, l + 1, from, to) == p[refs[l] := WithBlock(inodes[refs[l]], w, to)]
  {
    RenamedOnce(inodes[refs[l]].blocks, w, from, to);
    assert refs[..l + 1] == refs[..l] + [refs[l]];
  }

  lemma PartStart(inodes: seq<Inode>, refs: seq<nat>, from: nat, to: nat)
    ensures PartRenamed(inodes, refs, 0, from, to) == inodes
  {
  }

  /** An inode further down the list is as it was. */
  lemma PartStill(inodes: seq<Inode>, refs: seq<nat>, l: nat, from: nat, to: nat)
    requires l < |refs| && refs[l] < |inodes| && forall i :: 0 <= i < l ==> refs[i] != refs[l]
    ensures PartRenamed(inodes, refs, l, from, to)[refs[l]] == inodes[refs[l]]
  {
  }

  /** A block is in one slot of an inode at most. */
  lemma RowOnce(t: Table, o: nat, b: nat)
    requires TableOk(t) && o < |t| && b != 0
    ensures |t[o]| == INODE_NUM_BLKS && forall q, r :: 0 <= q < |t[o]| && 0 <= r < |t[o]| && t[o][q] == b && t[o][r] == b ==> q == r
  {
  }

  /** The inodes that have a block, each once, in order. */
  predicate RefList(inodes: seq<Inode>, refs: seq<nat>, n: nat, b: nat) {
    && n <= |inodes|
    && (forall i :: 0 <= i < |refs| ==> 1 <= refs[i] < n && b in inodes[refs[i]].blocks)
    && (forall i, j :: 0 <= i < j < |refs| ==> refs[i] < refs[j])
    && (forall z :: 1 <= z < n && b in inodes[z].blocks ==> z in refs)
  }

  lemma MovableParts(s: Fs)
    requires Movable(s)
    ensures Formed(s) && TableOk(Slots(s)) && 8 * |s.bmap| == BMAP_BITS && |s.cache.disk| >= NUM_BLOCOS_MAX && |s.inodes| == INODES
    ensures forall z :: 0 <= z < INODES ==> |s.inodes[z].blocks| == INODE_NUM_BLKS
    ensures forall b :: FIRST_DATA <= b < BMAP_BITS ==> (IsSet(s.bmap, b) <==> Named(Slots(s), b))
  {
    hide IsSet, TableOk, Named;
  }

  lemma ZeroRow(t: Table, from: nat)
    requires TableOk(t) && from >= FIRST_DATA
    ensures from !in t[0]
  {
  }

  lemma SetTwice(bmap: Bits, n: nat)
    requires n < 8 * |bmap|
    ensures SetBit(SetBit(bmap, n), n) == SetBit(bmap, n)
  {
  }

  /** Renaming another block leaves the list of the inodes with block `bl`, and the table in order. */
  lemma StillListed(inodes: seq<Inode>, refs: seq<nat>, bl: nat, dest: nat, k: nat)
    requires RefList(inodes, refs, INODES, bl) && bl != dest && bl != k
    ensures RefList(RenamedInodes(inodes, dest, k), refs, INODES, bl)
  {
    var r := RenamedInodes(inodes, dest, k);
    forall z | 0 <= z < |inodes| ensures bl in inodes[z].blocks <==> bl in r[z].blocks {
      if bl in inodes[z].blocks {
        var q :| 0 <= q < |inodes[z].blocks| && inodes[z].blocks[q] == bl;
        assert r[z].blocks[q] == bl;
      }
    }
  }

  lemma RenamedTable(s: Fs, dest: nat, k: nat)
    requires Movable(s) && Named(Slots(s), dest) && FIRST_DATA <= dest <= NUM_BLOCOS_MAX && FIRST_DATA <= k <= NUM_BLOCOS_MAX && !Named(Slots(s), k)
    ensures var s' := s.(inodes := RenamedInodes(s.inodes, dest, k)); Formed(s') && TableOk(Slots(s'))
  {
    FreeTable(Slots(s), Slots(s.(inodes := RenamedInodes(s.inodes, dest, k))), dest, k);
  }

  // ---------- The whole run ----------

  /** Defragmentation of `s0` has come to slot `q` of inode `z`. */
  ghost predicate Moving(s0: Fs, s: Fs, z: nat, q: nat, pos: nat) {
    && Movable(s) && OnlyBlocks(s0, s) && s.refs == s0.refs && |s.cache.disk| == |s0.cache.disk|
    && Packed(Slots(s), z, q, pos) && pos <= NUM_BLOCOS_MAX + 1
  }

  /** Every slot has the content it had in `s0`. */
  ghost predicate Kept(s0: Fs, s: Fs) {
    SameView(s0.cache.disk, Slots(s0), s.cache.disk, Slots(s))
  }

  /** One round: the block of a slot is put in its place, unless it is there already. What an unfilled buffer
      holds may differ from round to round. */
  ghost function Arranged(s: Fs, z: nat, q: nat, pos: nat, lixo: nat -> Block): (r: (Fs, nat))
    requires Movable(s) && z < INODES && q < INODE_NUM_BLKS && FIRST_DATA <= pos
  {
    MovableParts(s);
    SlotRange(s, z, q);
    var b := s.inodes[z].blocks[q];
    if b == pos then (s, pos + 1) else if b > pos then (Moved(s, b, pos, lixo(pos)), pos + 1) else (s, pos)
  }

  lemma SlotRange(s: Fs, z: nat, q: nat)
    requires Movable(s) && z < INODES && q < INODE_NUM_BLKS
    ensures |s.inodes| == INODES && |s.inodes[z].blocks| == INODE_NUM_BLKS && s.inodes[z].blocks[q] == Slots(s)[z][q] <= NUM_BLOCOS_MAX
    ensures s.inodes[z].blocks[q] != 0 ==> s.inodes[z].blocks[q] >= FIRST_DATA && Named(Slots(s), s.inodes[z].blocks[q])
  {
    hide BitsNamed, Flushed;
    assert Slots(s)[z][q] == s.inodes[z].blocks[q];
  }

  /** The last free block is one that no slot names. */
  lemma LastFreeIs(s: Fs)
    requires Movable(s)
    ensures 8 * |s.bmap| == BMAP_BITS
    ensures var k := LastFree(s.bmap, NUM_BLOCOS_MAX); FIRST_DATA <= k <= NUM_BLOCOS_MAX && !Named(Slots(s), k)
  {
    hide IsSet, Flushed, TableOk, Named;
    MovableParts(s);
    var livre := SomeUnnamed(Slots(s));
    LastFreeFrom(s.bmap, NUM_BLOCOS_MAX, livre);
  }

  lemma {:induction false} LastFreeFrom(bmap: Bits, k: nat, livre: nat)
    requires k < 8 * |bmap| && FIRST_DATA <= livre <= k && !IsSet(bmap, livre)
    ensures livre <= LastFree(bmap, k) && !IsSet(bmap, LastFree(bmap, k))
  {
    if IsSet(bmap, k) { LastFreeFrom(bmap, k - 1, livre); }
  }

  /** One move keeps what a defragmentation needs, and every slot's content unless it sends a block beyond the disk. */
  lemma MovedKeeps(s: Fs, bl: nat, dest: nat, lixo: Block)
    requires Movable(s) && Named(Slots(s), bl) && FIRST_DATA <= dest < bl <= NUM_BLOCOS_MAX
    ensures dest < |s.cache.disk| && 8 * |s.bmap| == BMAP_BITS
    ensures var s', k := Moved(s, bl, dest, lixo), LastFree(s.bmap, NUM_BLOCOS_MAX);
      && Movable(s') && OnlyBlocks(s, s') && s'.refs == s.refs && |s'.cache.disk| == |s.cache.disk|
      && (forall y, r :: 0 <= y < |Slots(s)| && 0 <= r < |Slots(s)[y]| ==>
           Slots(s')[y][r] == if Slots(s)[y][r] == bl then dest else if Slots(s)[y][r] == dest then k else Slots(s)[y][r])
      && FIRST_DATA <= k <= NUM_BLOCOS_MAX && !Named(Slots(s), k)
      && (NamesOn(Slots(s), s.cache.disk) && (Named(Slots(s), dest) ==> k < |s.cache.disk|) ==> SameView(s.cache.disk, Slots(s), s'.cache.disk, Slots(s')))
  {
    hide IsSet, SetBit, ClrBit, Flushed, TableOk, BitsNamed, Invalidate, RawWrite, SameView, Movable;
    MovableParts(s);
    LastFreeIs(s);
    var k := LastFree(s.bmap, NUM_BLOCOS_MAX);
    var t := Slots(s);
    var y0, r0 :| 0 <= y0 < |t| && 0 <= r0 < |t[y0]| && t[y0][r0] == bl;
    if IsSet(s.bmap, dest) {
      OverMove(s, bl, dest, k);
      assert NamesOn(t, s.cache.disk) ==> t[y0][r0] < |s.cache.disk|;
    } else {
      FreeMove(s, bl, dest, lixo);
      assert NamesOn(t, s.cache.disk) ==> t[y0][r0] < |s.cache.disk|;
      assert forall y, r :: 0 <= y < |t| && 0 <= r < |t[y]| ==> t[y][r] != dest;
    }
  }

  lemma ArrangedMovable(s: Fs, z: nat, q: nat, pos: nat, lixo: nat -> Block)
    requires Movable(s) && z < INODES && q < INODE_NUM_BLKS && FIRST_DATA <= pos
    ensures var r := Arranged(s, z, q, pos, lixo); Movable(r.0) && pos <= r.1 <= pos + 1 && |r.0.cache.disk| == |s.cache.disk|
  {
    hide Movable, Moved, Named;
    SlotRange(s, z, q);
    if s.inodes[z].blocks[q] > pos { MovedKeeps(s, s.inodes[z].blocks[q], pos, lixo(pos)); }
  }

  /** The rounds from slot `q` of inode `z` on: the state and the first place behind the blocks in place. */
  ghost function Run(s: Fs, z: nat, q: nat, pos: nat, lixo: nat -> Block): (r: (Fs, nat))
    requires Movable(s) && z <= INODES && q <= INODE_NUM_BLKS && FIRST_DATA <= pos
    decreases INODES - z, INODE_NUM_BLKS - q
  {
    if z == INODES then (s, pos)
    else if q == INODE_NUM_BLKS then Run(s, z + 1, 0, pos, lixo)
    else
      ArrangedMovable(s, z, q, pos, lixo);
      var r := Arranged(s, z, q, pos, lixo);
      Run(r.0, z, q + 1, r.1, lixo)
  }

  lemma MovingStart(s0: Fs)
    requires Movable(s0)
    ensures Moving(s0, s0, 1, 0, FIRST_DATA)
  {
    PackedStart(Slots(s0));
  }

  lemma StartKept(s0: Fs)
    requires Movable(s0) && NamesOn(Slots(s0), s0.cache.disk)
    ensures Kept(s0, s0)
  {
    var t := Slots(s0);
    forall z, q | 0 <= z < |t| && 0 <= q < |t[z]| ensures SameSlot(s0.cache.disk, t[z][q], s0.cache.disk, t[z][q]) { }
  }

  lemma MovingRow(s0: Fs, s: Fs, z: nat, pos: nat)
    requires Moving(s0, s, z, INODE_NUM_BLKS, pos) && z < INODES
    ensures Moving(s0, s, z + 1, 0, pos)
  {
    hide Packed;
    MovableParts(s);
    PackedRow(Slots(s), z, pos);
  }

  lemma PlacesFrom(t: Table, z: nat, q: nat, pos: nat)
    requires Packed(t, z, q, pos)
    ensures FIRST_DATA <= pos
  {
  }

  /** Each round puts the next block in its place and disturbs none of those in place. */
  lemma ArrangedMoving(s0: Fs, s: Fs, z: nat, q: nat, pos: nat, lixo: nat -> Block)
    requires Moving(s0, s, z, q, pos) && z < INODES && q < INODE_NUM_BLKS
    ensures FIRST_DATA <= pos
    ensures var r := Arranged(s, z, q, pos, lixo); Moving(s0, r.0, z, q + 1, r.1)
  {
    hide Packed, Named, OnlyBlocks, Movable, TableOk, Moved;
    PlacesFrom(Slots(s), z, q, pos);
    SlotRange(s, z, q);
    ArrangedPacked(s, z, q, pos, lixo);
    var b := s.inodes[z].blocks[q];
    if b > pos {
      MovedKeeps(s, b, pos, lixo(pos));
      OnlyTrans(s0, s, Moved(s, b, pos, lixo(pos)));
    }
  }

  lemma {:induction false} RunMoving(s0: Fs, s: Fs, z: nat, q: nat, pos: nat, lixo: nat -> Block)
    requires Moving(s0, s, z, q, pos) && z <= INODES && q <= INODE_NUM_BLKS && (z == INODES ==> q == 0)
    ensures FIRST_DATA <= pos
    ensures var r := Run(s, z, q, pos, lixo); Moving(s0, r.0, INODES, 0, r.1)
    decreases INODES - z, INODE_NUM_BLKS - q
  {
    hide Movable, OnlyBlocks, Arranged;
    if z < INODES {
      if q == INODE_NUM_BLKS {
        MovingRow(s0, s, z, pos);
        RunMoving(s0, s, z + 1, 0, pos, lixo);
      } else {
        ArrangedMoving(s0, s, z, q, pos, lixo);
        var r := Arranged(s, z, q, pos, lixo);
        RunMoving(s0, r.0, z, q + 1, r.1, lixo);
      }
    }
  }

  /** A round keeps every slot's content, unless a block makes way that has nowhere to go on the disk. */
  lemma ArrangedKept(s0: Fs, s: Fs, z: nat, q: nat, pos: nat, lixo: nat -> Block)
    requires Movable(s) && Kept(s0, s) && z < INODES && q < INODE_NUM_BLKS && FIRST_DATA <= pos && 8 * |s.bmap| == BMAP_BITS
    requires Slots(s)[z][q] > pos && Named(Slots(s), pos) ==> LastFree(s.bmap, NUM_BLOCOS_MAX) < |s.cache.disk|
    ensures Kept(s0, Arranged(s, z, q, pos, lixo).0)
  {
    hide Movable, Moved, Named, SameView;
    MovableParts(s);
    SlotRange(s, z, q);
    ViewOn(s0.cache.disk, Slots(s0), s.cache.disk, Slots(s));
    var b := s.inodes[z].blocks[q];
    if b > pos {
      MovedKeeps(s, b, pos, lixo(pos));
      var s' := Moved(s, b, pos, lixo(pos));
      ViewTrans(s0.cache.disk, Slots(s0), s.cache.disk, Slots(s), s'.cache.disk, Slots(s'));
    }
  }

  /** On a disk of more than 640 blocks there always is somewhere to go. */
  lemma {:induction false} RunKept(s0: Fs, s: Fs, z: nat, q: nat, pos: nat, lixo: nat -> Block)
    requires Movable(s) && Kept(s0, s) && z <= INODES && q <= INODE_NUM_BLKS && FIRST_DATA <= pos && |s.cache.disk| > NUM_BLOCOS_MAX
    ensures Kept(s0, Run(s, z, q, pos, lixo).0)
    decreases INODES - z, INODE_NUM_BLKS - q
  {
    hide Movable, Arranged, Kept, Named;
    if z < INODES {
      if q == INODE_NUM_BLKS {
        RunKept(s0, s, z + 1, 0, pos, lixo);
      } else {
        MovableParts(s);
        ArrangedKept(s0, s, z, q, pos, lixo);
        ArrangedMovable(s, z, q, pos, lixo);
        var r := Arranged(s, z, q, pos, lixo);
        RunKept(s0, r.0, z, q + 1, r.1, lixo);
      }
    }
  }

  lemma TableWide(t: Table, z: nat)
    requires TableOk(t) && z < INODES
    ensures |t| == INODES && |t[z]| == INODE_NUM_BLKS
  {
  }

  lemma OnlyTrans(a: Fs, b: Fs, c: Fs)
    requires OnlyBlocks(a, b) && OnlyBlocks(b, c)
    ensures OnlyBlocks(a, c)
  {
  }

  /** What the whole run does for a file system that can be defragmented. */
  lemma JuntarIs(s0: Fs, u0: Usage, lixo: nat -> Block)
    requires Defraggable(s0, u0)
    ensures Movable(s0)
    ensures var r := Run(s0, 1, 0, FIRST_DATA, lixo);
      && DefraggedTables(s0, u0, r.0, r.1)
      && (|s0.cache.disk| > NUM_BLOCOS_MAX || Unobstructed(Slots(s0)) ==> Defragged(s0, u0, r.0, r.1))
  {
    hide Defraggable, Movable, OnlyBlocks, Kept, Packed, Run, Unobstructed, Quiet, DefraggedTables, Defragged, TableOk, NamesLow, NamesOn;
    DefragStart(s0, u0);
    MovableParts(s0);
    MovingStart(s0);
    StartKept(s0);
    QuietStart(Slots(s0));
    RunMoving(s0, s0, 1, 0, FIRST_DATA, lixo);
    if |s0.cache.disk| > NUM_BLOCOS_MAX {
      RunKept(s0, s0, 1, 0, FIRST_DATA, lixo);
    } else if Unobstructed(Slots(s0)) {
      RunUnobstructed(s0, s0, 1, 0, FIRST_DATA, lixo);
    }
    var r := Run(s0, 1, 0, FIRST_DATA, lixo);
    MovingEnd(s0, u0, r.0, r.1);
  }

  lemma MovingEnd(s0: Fs, u0: Usage, s: Fs, pos: nat)
    requires Defraggable(s0, u0) && Moving(s0, s, INODES, 0, pos)
    ensures DefraggedTables(s0, u0, s, pos) && (Kept(s0, s) ==> Defragged(s0, u0, s, pos))
  {
    hide Defraggable, Movable, OnlyBlocks, SameView, Packed;
    DefragEnd(s0, u0, s, pos);
  }

  // ---------- A disk of exactly 640 blocks ----------

  /** The blocks named before slot `q` of inode `z`. */
  function BlocksBefore(t: Table, z: nat, q: nat): set<nat> {
    set y, r | 0 <= y < |t| && 0 <= r < |t[y]| && Before(y, r, z, q) && t[y][r] != 0 :: t[y][r]
  }

  /** The first slot of a block. */
  predicate IsFirst(t: Table, z: nat, q: nat) {
    z < |t| && q < |t[z]| && t[z][q] != 0 && t[z][q] !in BlocksBefore(t, z, q)
  }

  /** No block stands before the place that it is to move to: 10 and the number of blocks that come before it in
      the table. */
  ghost predicate Unobstructed(t: Table) {
    forall z: nat, q: nat :: IsFirst(t, z, q) ==> t[z][q] >= FIRST_DATA + |BlocksBefore(t, z, q)|
  }

  lemma BeforeNext(t: Table, z: nat, q: nat)
    requires z < |t| && q < |t[z]|
    ensures BlocksBefore(t, z, q + 1) == BlocksBefore(t, z, q) + if t[z][q] == 0 then {} else {t[z][q]}
  {
    var a, b := BlocksBefore(t, z, q + 1), BlocksBefore(t, z, q) + if t[z][q] == 0 then {} else {t[z][q]};
    forall x | x in a ensures x in b {
      var y, r :| 0 <= y < |t| && 0 <= r < |t[y]| && Before(y, r, z, q + 1) && t[y][r] != 0 && t[y][r] == x;
      assert Before(y, r, z, q) || (y == z && r == q);
    }
    forall x | x in b ensures x in a {
      if x in BlocksBefore(t, z, q) {
        var y, r :| 0 <= y < |t| && 0 <= r < |t[y]| && Before(y, r, z, q) && t[y][r] != 0 && t[y][r] == x;
        assert Before(y, r, z, q + 1);
      } else {
        assert Before(z, q, z, q + 1);
      }
    }
  }

  lemma BeforeRow(t: Table, z: nat)
    requires TableOk(t) && z < |t|
    ensures BlocksBefore(t, z + 1, 0) == BlocksBefore(t, z, INODE_NUM_BLKS)
  {
    assert forall y, r :: 0 <= y < |t| && 0 <= r < |t[y]| ==> (Before(y, r, z + 1, 0) <==> Before(y, r, z, INODE_NUM_BLKS));
  }

  lemma BeforeMore(t: Table, z: nat, q: nat, y: nat, r: nat)
    requires z < |t| && q < |t[z]| && t[z][q] != 0 && Before(z, q, y, r)
    ensures BlocksBefore(t, z, q) + {t[z][q]} <= BlocksBefore(t, y, r)
  {
  }

  /** A slot that is still to come: it names what it named at the start, or a block that is in place by now. */
  predicate QuietSlot(b0: nat, b: nat, done: set<nat>, pos: nat) {
    if b0 == 0 then b == 0 else if b0 in done then FIRST_DATA <= b < pos else b == b0 >= pos
  }

  /** So far no block had to make way. */
  ghost predicate Quiet(t0: Table, t: Table, z: nat, q: nat, pos: nat) {
    && TableOk(t0) && NamesLow(t0) && |t| == |t0| && (forall y :: 0 <= y < |t| ==> |t[y]| == |t0[y]|)
    && pos == FIRST_DATA + |BlocksBefore(t0, z, q)|
    && forall y, r :: 0 <= y < |t| && 0 <= r < |t[y]| && !Before(y, r, z, q) ==> QuietSlot(t0[y][r], t[y][r], BlocksBefore(t0, z, q), pos)
  }

  lemma QuietStart(t: Table)
    requires TableOk(t) && NamesLow(t)
    ensures Quiet(t, t, 1, 0, FIRST_DATA)
  {
    assert BlocksBefore(t, 1, 0) == {};
  }

  lemma QuietRow(t0: Table, t: Table, z: nat, pos: nat)
    requires Quiet(t0, t, z, INODE_NUM_BLKS, pos) && z < |t0|
    ensures Quiet(t0, t, z + 1, 0, pos)
  {
    BeforeRow(t0, z);
    assert forall y, r :: 0 <= y < |t| && 0 <= r < |t[y]| && !Before(y, r, z + 1, 0) ==> !Before(y, r, z, INODE_NUM_BLKS);
  }

  /** The slot that is next: nothing, a block in place, or one to be put in place. */
  lemma QuietNext(t0: Table, t: Table, t': Table, z: nat, q: nat, pos: nat)
    requires Quiet(t0, t, z, q, pos) && z < |t0| && q < |t0[z]| && t[z][q] >= pos && (t[z][q] > pos ==> !Named(t, pos))
    requires |t'| == |t| && forall y :: 0 <= y < |t| ==> |t'[y]| == |t[y]|
    requires forall y, r :: 0 <= y < |t| && 0 <= r < |t[y]| ==> t'[y][r] == if t[y][r] == t[z][q] then pos else t[y][r]
    ensures Quiet(t0, t', z, q + 1, pos + 1) && IsFirst(t0, z, q) && t0[z][q] == t[z][q]
  {
    BeforeNext(t0, z, q);
    var done, q' := BlocksBefore(t0, z, q), q + 1;
    assert !Before(z, q, z, q);
    assert QuietSlot(t0[z][q], t[z][q], done, pos);
    forall y, r | 0 <= y < |t'| && 0 <= r < |t'[y]| && !Before(y, r, z, q') ensures QuietSlot(t0[y][r], t'[y][r], done + {t0[z][q]}, pos + 1) {
      assert !Before(y, r, z, q);
      assert QuietSlot(t0[y][r], t[y][r], done, pos);
      assert t[y][r] == pos && t[z][q] > pos ==> Named(t, pos);
    }
  }

  lemma QuietSkip(t0: Table, t: Table, z: nat, q: nat, pos: nat)
    requires Quiet(t0, t, z, q, pos) && z < |t0| && q < |t0[z]| && t[z][q] < pos
    ensures Quiet(t0, t, z, q + 1, pos)
  {
    BeforeNext(t0, z, q);
    assert !Before(z, q, z, q);
    assert QuietSlot(t0[z][q], t[z][q], BlocksBefore(t0, z, q), pos);
    var q' := q + 1;
    assert BlocksBefore(t0, z, q') == BlocksBefore(t0, z, q);
    forall y, r | 0 <= y < |t| && 0 <= r < |t[y]| && !Before(y, r, z, q') ensures QuietSlot(t0[y][r], t[y][r], BlocksBefore(t0, z, q), pos) {
      assert !Before(y, r, z, q);
    }
  }

  lemma QuietAt(t0: Table, t: Table, z: nat, q: nat, pos: nat, y: nat, r: nat)
    requires Quiet(t0, t, z, q, pos) && y < |t| && r < |t[y]| && !Before(y, r, z, q)
    ensures |t0| == |t| && |t0[y]| == |t[y]| && QuietSlot(t0[y][r], t[y][r], BlocksBefore(t0, z, q), pos)
    ensures pos == FIRST_DATA + |BlocksBefore(t0, z, q)|
  {
  }

  /** The first slot of a block that some slot names. */
  lemma {:induction false} FirstOf(t: Table, z: nat, q: nat) returns (y: nat, r: nat)
    requires z < |t| && q < |t[z]| && t[z][q] != 0
    ensures IsFirst(t, y, r) && t[y][r] == t[z][q] && (Before(y, r, z, q) || (y == z && r == q))
    decreases z, q
  {
    y, r := z, q;
    if t[z][q] in BlocksBefore(t, z, q) {
      var y1, r1 :| 0 <= y1 < |t| && 0 <= r1 < |t[y1]| && Before(y1, r1, z, q) && t[y1][r1] != 0 && t[y1][r1] == t[z][q];
      y, r := FirstOf(t, y1, r1);
    }
  }

  /** If no block stands before its place, none has to make way. */
  lemma NeverInTheWay(t0: Table, t: Table, z: nat, q: nat, pos: nat)
    requires Unobstructed(t0) && Quiet(t0, t, z, q, pos) && Packed(t, z, q, pos) && z < |t| && q < |t[z]| && t[z][q] > pos
    ensures !Named(t, pos)
  {
    hide Quiet, BlocksBefore, Unobstructed, Packed;
    QuietAt(t0, t, z, q, pos, z, q);
    if Named(t, pos) {
      var y, r :| 0 <= y < |t| && 0 <= r < |t[y]| && t[y][r] == pos;
      PackedBelow(t, z, q, pos, y, r);
      QuietAt(t0, t, z, q, pos, y, r);
      TooEarly(t0, z, q, pos, y, r);
    }
  }

  lemma PackedBelow(t: Table, z: nat, q: nat, pos: nat, y: nat, r: nat)
    requires Packed(t, z, q, pos) && y < |t| && r < |t[y]| && t[y][r] >= pos
    ensures !Before(y, r, z, q)
  {
  }

  /** A block that is named later than one not yet in place, and is the place that is next, stands too early. */
  lemma TooEarly(t0: Table, z: nat, q: nat, pos: nat, y: nat, r: nat)
    requires IsFirst(t0, z, q) && y < |t0| && r < |t0[y]| && t0[y][r] == pos == FIRST_DATA + |BlocksBefore(t0, z, q)|
    requires pos !in BlocksBefore(t0, z, q) && pos != t0[z][q]
    ensures !Unobstructed(t0)
  {
    var y1, r1 := FirstOf(t0, y, r);
    NotBefore(t0, z, q, y1, r1);
    BeforeMore(t0, z, q, y1, r1);
    SubsetCount(BlocksBefore(t0, z, q) + {t0[z][q]}, BlocksBefore(t0, y1, r1));
  }

  lemma NotBefore(t: Table, z: nat, q: nat, y: nat, r: nat)
    requires y < |t| && r < |t[y]| && t[y][r] != 0 && t[y][r] !in BlocksBefore(t, z, q)
    ensures !Before(y, r, z, q)
  {
  }

  lemma {:induction false} SubsetCount(a: set<nat>, b: set<nat>)
    requires a <= b
    ensures |a| <= |b|
  {
    assert b == a + (b - a);
  }

  lemma QuietArranged(t0: Table, s: Fs, z: nat, q: nat, pos: nat, lixo: nat -> Block)
    requires Movable(s) && Quiet(t0, Slots(s), z, q, pos) && z < INODES && q < INODE_NUM_BLKS && FIRST_DATA <= pos
    requires Slots(s)[z][q] > pos ==> !Named(Slots(s), pos)
    ensures var r := Arranged(s, z, q, pos, lixo); Quiet(t0, Slots(r.0), z, q + 1, r.1)
  {
    hide Movable, Moved, Named, Quiet, TableOk;
    MovableParts(s);
    SlotRange(s, z, q);
    QuietWide(t0, Slots(s), z, q, pos);
    var t, b := Slots(s), s.inodes[z].blocks[q];
    if b < pos {
      QuietSkip(t0, t, z, q, pos);
    } else if b == pos {
      QuietNext(t0, t, t, z, q, pos);
    } else {
      MovedKeeps(s, b, pos, lixo(pos));
      var t' := Slots(Moved(s, b, pos, lixo(pos)));
      MovableParts(Moved(s, b, pos, lixo(pos)));
      UnnamedSlots(t, pos);
      QuietNext(t0, t, t', z, q, pos);
    }
  }

  lemma QuietWide(t0: Table, t: Table, z: nat, q: nat, pos: nat)
    requires Quiet(t0, t, z, q, pos)
    ensures |t0| == |t| == INODES && forall y :: 0 <= y < INODES ==> |t0[y]| == |t[y]| == INODE_NUM_BLKS
  {
  }

  lemma UnnamedSlots(t: Table, b: nat)
    requires !Named(t, b)
    ensures forall y, r :: 0 <= y < |t| && 0 <= r < |t[y]| ==> t[y][r] != b
  {
  }

  /** If no block stands before its place, every slot keeps its content, on a disk of 640 blocks too. */
  lemma {:induction false} RunUnobstructed(s0: Fs, s: Fs, z: nat, q: nat, pos: nat, lixo: nat -> Block)
    requires Moving(s0, s, z, q, pos) && Kept(s0, s) && Unobstructed(Slots(s0)) && Quiet(Slots(s0), Slots(s), z, q, pos)
    requires z <= INODES && q <= INODE_NUM_BLKS && (z == INODES ==> q == 0)
    ensures FIRST_DATA <= pos && Movable(s) && Kept(s0, Run(s, z, q, pos, lixo).0)
    decreases INODES - z, INODE_NUM_BLKS - q
  {
    hide Movable, OnlyBlocks, Arranged, Kept, Named, Unobstructed, Quiet, Packed;
    PlacesFrom(Slots(s), z, q, pos);
    QuietWide(Slots(s0), Slots(s), z, q, pos);
    if z < INODES {
      if q == INODE_NUM_BLKS {
        MovingRow(s0, s, z, pos);
        QuietRow(Slots(s0), Slots(s), z, pos);
        RunUnobstructed(s0, s, z + 1, 0, pos, lixo);
      } else {
        MovableParts(s);
        if Slots(s)[z][q] > pos { NeverInTheWay(Slots(s0), Slots(s), z, q, pos); }
        ArrangedMoving(s0, s, z, q, pos, lixo);
        ArrangedKept(s0, s, z, q, pos, lixo);
        QuietArranged(Slots(s0), s, z, q, pos, lixo);
        var r := Arranged(s, z, q, pos, lixo);
        RunUnobstructed(s0, r.0, z, q + 1, r.1, lixo);
      }
    }
  }

  // ---------- What is lost when a block makes way ----------

  predicate Gone(d: seq<Block>, x: Block) {
    forall b :: 0 <= b < |d| ==> d[b] != x
  }

  lemma MovedDisk(s: Fs, bl: nat, dest: nat, lixo: Block)
    requires dest < |s.cache.disk| && bl < 8 * |s.bmap| && dest < 8 * |s.bmap| && NUM_BLOCOS_MAX < 8 * |s.bmap|
    ensures var d, k := s.cache.disk, LastFree(s.bmap, NUM_BLOCOS_MAX);
      var d1 := if k < |d| then d[k := d[dest]] else d;
      Moved(s, bl, dest, lixo).cache.disk == if IsSet(s.bmap, dest) then d1[dest := ReadOr(d1, bl, d[dest])] else d[dest := ReadOr(d, bl, lixo)]
  {
    hide IsSet, SetBit, ClrBit;
  }

  /** Moves only copy what is on the disk or in a buffer. */
  lemma ArrangedGone(s: Fs, z: nat, q: nat, pos: nat, lixo: nat -> Block, x: Block)
    requires Movable(s) && z < INODES && q < INODE_NUM_BLKS && FIRST_DATA <= pos && Gone(s.cache.disk, x) && lixo(pos) != x
    ensures Gone(Arranged(s, z, q, pos, lixo).0.cache.disk, x)
  {
    hide Movable, Moved, IsSet;
    MovableParts(s);
    SlotRange(s, z, q);
    if s.inodes[z].blocks[q] > pos { MovedDisk(s, s.inodes[z].blocks[q], pos, lixo(pos)); }
  }

  lemma {:induction false} RunGone(s: Fs, z: nat, q: nat, pos: nat, lixo: nat -> Block, x: Block)
    requires Movable(s) && z <= INODES && q <= INODE_NUM_BLKS && FIRST_DATA <= pos && Gone(s.cache.disk, x) && forall n :: lixo(n) != x
    ensures Gone(Run(s, z, q, pos, lixo).0.cache.disk, x)
    decreases INODES - z, INODE_NUM_BLKS - q
  {
    hide Movable, Arranged, Gone;
    if z < INODES {
      if q == INODE_NUM_BLKS {
        RunGone(s, z + 1, 0, pos, lixo, x);
      } else {
        ArrangedGone(s, z, q, pos, lixo, x);
        ArrangedMovable(s, z, q, pos, lixo);
        var r := Arranged(s, z, q, pos, lixo);
        RunGone(r.0, z, q + 1, r.1, lixo, x);
      }
    }
  }

  lemma GoneLost(d0: seq<Block>, t0: Table, d: seq<Block>, t: Table, z: nat, q: nat)
    requires z < |t0| && q < |t0[z]| && 0 < t0[z][q] < |d0| && Gone(d, d0[t0[z][q]])
    ensures !SameView(d0, t0, d, t)
  {
  }

  /** What the blocks that are still to come had at the start is nowhere but in these blocks. */
  ghost predicate Apart(t0: Table, z: nat, q: nat, d0: seq<Block>, d: seq<Block>) {
    |d| == |d0| == NUM_BLOCOS_MAX && NamesLow(t0) &&
    forall y, r, b :: 0 <= y < |t0| && 0 <= r < |t0[y]| && t0[y][r] != 0 && t0[y][r] !in BlocksBefore(t0, z, q) && 0 <= b < |d| && b != t0[y][r] ==>
      d[b] != d0[t0[y][r]]
  }

  lemma ApartNext(t0: Table, z: nat, q: nat, d0: seq<Block>, d: seq<Block>, d': seq<Block>, pos: nat)
    requires Apart(t0, z, q, d0, d) && IsFirst(t0, z, q) && pos < |d| && d' == d[pos := d[t0[z][q]]]
    ensures Apart(t0, z, q + 1, d0, d')
  {
    BeforeNext(t0, z, q);
  }

  lemma ApartSkip(t0: Table, z: nat, q: nat, d0: seq<Block>, d: seq<Block>)
    requires Apart(t0, z, q, d0, d) && z < |t0| && q < |t0[z]|
    ensures Apart(t0, z, q + 1, d0, d)
  {
    BeforeNext(t0, z, q);
  }

  /** A quiet round, of which nothing is known but that no block makes way. */
  lemma ApartArranged(t0: Table, s: Fs, z: nat, q: nat, pos: nat, lixo: nat -> Block, d0: seq<Block>)
    requires Movable(s) && Quiet(t0, Slots(s), z, q, pos) && z < INODES && q < INODE_NUM_BLKS && FIRST_DATA <= pos && Apart(t0, z, q, d0, s.cache.disk)
    requires Slots(s)[z][q] > pos ==> !Named(Slots(s), pos)
    ensures Apart(t0, z, q + 1, d0, Arranged(s, z, q, pos, lixo).0.cache.disk)
  {
    hide Movable, Moved, Named, Quiet, TableOk, Apart, BlocksBefore, IsSet;
    MovableParts(s);
    SlotRange(s, z, q);
    QuietWide(t0, Slots(s), z, q, pos);
    QuietAt(t0, Slots(s), z, q, pos, z, q);
    var b := s.inodes[z].blocks[q];
    if b <= pos {
      ApartSkip(t0, z, q, d0, s.cache.disk);
    } else {
      MovedDisk(s, b, pos, lixo(pos));
      QuietLow(t0, Slots(s), z, q, pos);
      ApartNext(t0, z, q, d0, s.cache.disk, Moved(s, b, pos, lixo(pos)).cache.disk, pos);
    }
  }

  lemma QuietLow(t0: Table, t: Table, z: nat, q: nat, pos: nat)
    requires Quiet(t0, t, z, q, pos) && z < |t0| && q < |t0[z]|
    ensures t0[z][q] < NUM_BLOCOS_MAX
  {
  }

  /** The first block that makes way goes to block 640, beyond the disk, and its content is overwritten. */
  lemma ObstructedRound(t0: Table, s: Fs, z: nat, q: nat, pos: nat, lixo: nat -> Block, d0: seq<Block>) returns (y: nat, r: nat)
    requires Movable(s) && Quiet(t0, Slots(s), z, q, pos) && Packed(Slots(s), z, q, pos) && z < INODES && q < INODE_NUM_BLKS && FIRST_DATA <= pos
    requires Apart(t0, z, q, d0, s.cache.disk) && Slots(s)[z][q] > pos && Named(Slots(s), pos)
    ensures y < |t0| && r < |t0[y]| && t0[y][r] == pos < |d0| && Gone(Arranged(s, z, q, pos, lixo).0.cache.disk, d0[pos])
  {
    hide Movable, Moved, Quiet, TableOk, BlocksBefore, IsSet, Packed;
    MovableParts(s);
    SlotRange(s, z, q);
    QuietWide(t0, Slots(s), z, q, pos);
    QuietAt(t0, Slots(s), z, q, pos, z, q);
    var t, b := Slots(s), s.inodes[z].blocks[q];
    y, r :| 0 <= y < |t| && 0 <= r < |t[y]| && t[y][r] == pos;
    PackedBelow(t, z, q, pos, y, r);
    QuietAt(t0, t, z, q, pos, y, r);
    NobodyBeyond(t0, t, z, q, pos);
    assert LastFree(s.bmap, NUM_BLOCOS_MAX) == NUM_BLOCOS_MAX;
    MovedDisk(s, b, pos, lixo(pos));
  }

  /** As long as no block has made way, no slot names block 640. */
  lemma NobodyBeyond(t0: Table, t: Table, z: nat, q: nat, pos: nat)
    requires Quiet(t0, t, z, q, pos) && Packed(t, z, q, pos) && pos <= NUM_BLOCOS_MAX
    ensures !Named(t, NUM_BLOCOS_MAX)
  {
    forall y, r | 0 <= y < |t| && 0 <= r < |t[y]| ensures t[y][r] != NUM_BLOCOS_MAX {
      if !Before(y, r, z, q) { QuietAt(t0, t, z, q, pos, y, r); }
    }
  }

  /** If block `t0[y1][r1]` stands before its place, some block makes way, and its content is lost. */
  lemma {:induction false} RunLoses(t0: Table, d0: seq<Block>, s: Fs, z: nat, q: nat, pos: nat, lixo: nat -> Block, y1: nat, r1: nat)
    requires Movable(s) && Quiet(t0, Slots(s), z, q, pos) && Packed(Slots(s), z, q, pos) && Apart(t0, z, q, d0, s.cache.disk)
    requires z <= INODES && q <= INODE_NUM_BLKS && FIRST_DATA <= pos && !Before(y1, r1, z, q)
    requires IsFirst(t0, y1, r1) && t0[y1][r1] < FIRST_DATA + |BlocksBefore(t0, y1, r1)|
    requires forall n, b :: 0 <= b < |d0| ==> lixo(n) != d0[b]
    ensures var e := Run(s, z, q, pos, lixo).0; !SameView(d0, t0, e.cache.disk, Slots(e))
    decreases INODES - z, INODE_NUM_BLKS - q
  {
    hide Movable, Arranged, Named, Quiet, Packed, BlocksBefore, Apart, SameView, Gone, TableOk;
    QuietWide(t0, Slots(s), z, q, pos);
    if z < INODES {
      if q == INODE_NUM_BLKS {
        MovableParts(s);
        PackedRow(Slots(s), z, pos);
        QuietRow(t0, Slots(s), z, pos);
        ApartRow(t0, Slots(s), z, pos, d0, s.cache.disk);
        RunLoses(t0, d0, s, z + 1, 0, pos, lixo, y1, r1);
      } else if Slots(s)[z][q] > pos && Named(Slots(s), pos) {
        var y, r := ObstructedRound(t0, s, z, q, pos, lixo, d0);
        ArrangedMovable(s, z, q, pos, lixo);
        var n := Arranged(s, z, q, pos, lixo);
        RunGone(n.0, z, q + 1, n.1, lixo, d0[pos]);
        var e := Run(n.0, z, q + 1, n.1, lixo).0;
        GoneLost(d0, t0, e.cache.disk, Slots(e), y, r);
      } else {
        QuietAt(t0, Slots(s), z, q, pos, z, q);
        assert y1 != z || r1 != q;
        ArrangedPacked(s, z, q, pos, lixo);
        QuietArranged(t0, s, z, q, pos, lixo);
        ApartArranged(t0, s, z, q, pos, lixo, d0);
        ArrangedMovable(s, z, q, pos, lixo);
        var n := Arranged(s, z, q, pos, lixo);
        RunLoses(t0, d0, n.0, z, q + 1, n.1, lixo, y1, r1);
      }
    }
  }

  lemma ApartRow(t0: Table, t: Table, z: nat, pos: nat, d0: seq<Block>, d: seq<Block>)
    requires Apart(t0, z, INODE_NUM_BLKS, d0, d) && Quiet(t0, t, z, INODE_NUM_BLKS, pos) && z < |t0|
    ensures Apart(t0, z + 1, 0, d0, d)
  {
    BeforeRow(t0, z);
  }

  lemma ArrangedPacked(s: Fs, z: nat, q: nat, pos: nat, lixo: nat -> Block)
    requires Movable(s) && Packed(Slots(s), z, q, pos) && z < INODES && q < INODE_NUM_BLKS && FIRST_DATA <= pos
    ensures var r := Arranged(s, z, q, pos, lixo); Packed(Slots(r.0), z, q + 1, r.1)
  {
    hide Packed, Named, Movable, TableOk, Moved;
    MovableParts(s);
    SlotRange(s, z, q);
    TableWide(Slots(s), z);
    var b := s.inodes[z].blocks[q];
    if b == pos {
      PackedNext(Slots(s), z, q, pos);
    } else if b < pos {
      PackedSkip(Slots(s), z, q, pos);
    } else {
      MovedKeeps(s, b, pos, lixo(pos));
      var s' := Moved(s, b, pos, lixo(pos));
      PlaceUsed(Slots(s), z, q, pos);
      MovableParts(s');
      PackedMove(Slots(s), Slots(s'), z, q, pos);
      TableWide(Slots(s'), z);
      PackedNext(Slots(s'), z, q, pos);
    }
  }

  /** The same tables over another disk, with nothing cached. */
  function OnDiskOf(s: Fs, d: seq<Block>): Fs {
    s.(cache := CacheState(map[], d, s.cache.max))
  }

  lemma OtherDisk(s: Fs, d: seq<Block>)
    requires Movable(s) && |d| == |s.cache.disk|
    ensures Movable(OnDiskOf(s, d)) && Slots(OnDiskOf(s, d)) == Slots(s)
  {
    hide BitsNamed, TableOk;
  }

  /** A defragmentation of these tables over disk `d` keeps the content of every slot. */
  ghost predicate KeepsAll(s: Fs, d: seq<Block>, lixo: nat -> Block)
    requires Movable(s) && |d| == |s.cache.disk|
  {
    OtherDisk(s, d);
    Kept(OnDiskOf(s, d), Run(OnDiskOf(s, d), 1, 0, FIRST_DATA, lixo).0)
  }

  /** A page that tells the number of its block, and one that is no such page. */
  function Numbered(b: nat): Block
    requires b < 65536
  {
    Zeros()[0 := b % 256][1 := b / 256]
  }

  function Stranger(): Block {
    Zeros()[0 := 1][1 := 1][2 := 1]
  }

  lemma NumberedApart(a: nat, b: nat)
    requires a < 65536 && b < 65536
    ensures Numbered(a) == Numbered(b) ==> a == b
    ensures Numbered(a) != Stranger()
  {
    assert Numbered(a)[0] == a % 256 && Numbered(a)[1] == a / 256 && Numbered(a)[2] == 0;
    assert Numbered(b)[0] == b % 256 && Numbered(b)[1] == b / 256 && Stranger()[2] == 1;
  }

  lemma NumberedDisk() returns (d: seq<Block>)
    ensures |d| == NUM_BLOCOS_MAX && (forall a, b :: 0 <= a < b < |d| ==> d[a] != d[b]) && forall b :: 0 <= b < |d| ==> d[b] != Stranger()
  {
    hide Numbered, Stranger;
    d := seq(NUM_BLOCOS_MAX, b requires 0 <= b < NUM_BLOCOS_MAX => Numbered(b));
    forall a, b | 0 <= a < b < |d| ensures d[a] != d[b] { NumberedApart(a, b); }
    forall b | 0 <= b < |d| ensures d[b] != Stranger() { NumberedApart(b, b); }
  }

  /** On a disk of exactly 640 blocks a defragmentation keeps the content of every slot, whatever that is and
      whatever unfilled buffers hold, exactly if no block stands before the place that it is to move to. */
  lemma SmallDiskExactly(s: Fs)
    requires Movable(s) && NamesLow(Slots(s)) && |s.cache.disk| == NUM_BLOCOS_MAX
    ensures Unobstructed(Slots(s)) <==> forall d: seq<Block>, lixo: nat -> Block :: |d| == |s.cache.disk| ==> KeepsAll(s, d, lixo)
  {
    hide Movable, Unobstructed, Kept;
    if Unobstructed(Slots(s)) {
      forall d: seq<Block>, lixo: nat -> Block | |d| == |s.cache.disk| ensures KeepsAll(s, d, lixo) { KeepsUnobstructed(s, d, lixo); }
    } else {
      var d := NumberedDisk();
      LosesObstructed(s, d);
      assert !KeepsAll(s, d, _ => Stranger());
    }
  }

  lemma KeepsUnobstructed(s: Fs, d: seq<Block>, lixo: nat -> Block)
    requires Movable(s) && NamesLow(Slots(s)) && Unobstructed(Slots(s)) && |d| == |s.cache.disk|
    ensures KeepsAll(s, d, lixo)
  {
    hide Unobstructed, Kept, Quiet, Packed;
    OtherDisk(s, d);
    var s1 := OnDiskOf(s, d);
    MovableParts(s1);
    LowNames(s1);
    QuietStart(Slots(s1));
    MovingStart(s1);
    StartKept(s1);
    RunUnobstructed(s1, s1, 1, 0, FIRST_DATA, lixo);
  }

  lemma LowNames(s: Fs)
    requires NamesLow(Slots(s)) && |s.cache.disk| >= NUM_BLOCOS_MAX
    ensures NamesOn(Slots(s), s.cache.disk)
  {
  }

  lemma LosesObstructed(s: Fs, d: seq<Block>)
    requires Movable(s) && NamesLow(Slots(s)) && !Unobstructed(Slots(s)) && |d| == |s.cache.disk| == NUM_BLOCOS_MAX
    requires (forall a, b :: 0 <= a < b < |d| ==> d[a] != d[b]) && forall b :: 0 <= b < |d| ==> d[b] != Stranger()
    ensures !KeepsAll(s, d, _ => Stranger())
  {
    hide Quiet, Packed, BlocksBefore, Movable, SameView, Run, Stranger;
    OtherDisk(s, d);
    var s1, t := OnDiskOf(s, d), Slots(s);
    MovableParts(s1);
    QuietStart(t);
    PackedStart(t);
    var z: nat, q: nat :| IsFirst(t, z, q) && t[z][q] < FIRST_DATA + |BlocksBefore(t, z, q)|;
    FirstRow(t, z, q);
    RunLoses(t, d, s1, 1, 0, FIRST_DATA, _ => Stranger(), z, q);
  }

  /** Inode 0 names no block. */
  lemma FirstRow(t: Table, z: nat, q: nat)
    requires TableOk(t) && IsFirst(t, z, q)
    ensures !Before(z, q, 1, 0)
  {
  }

  lemma DiskLength(c: CacheState, b: nat, x: Block)
    ensures |RawWrite(c, b, x).disk| == |c.disk| && |Invalidate(c, b).disk| == |c.disk|
  {
  }
}
