/** What a defragmentation does to the account of blocks: blocks change their places, but the reference counts
    stay where they are. */
module DefragAccount {
  import opened Block
  import opened CacheSpec
  import opened Bitmap
  import opened Accounting
  import opened FileSystemSpec
  import opened FileSystemSteps
  import opened FileSystemFacts
  import opened FileSystemTree
  import opened FileSystemFormat
  import opened Directory
  import opened Defrag

  // ---------- Where each block ends ----------

  /** The place of the block that is named first in slot `q` of inode `z`. */
  function Place(t: Table, z: nat, q: nat): nat {
    FIRST_DATA + |BlocksBefore(t, z, q)|
  }

  predicate SameWidth(t0: Table, t: Table) {
    |t| == |t0| && forall y :: 0 <= y < |t| ==> |t[y]| == |t0[y]|
  }

  /** Slots that named the same block still do, and so do no others; empty slots are still empty. */
  ghost predicate Alike(t0: Table, t: Table) {
    && SameWidth(t0, t)
    && (forall y, r :: 0 <= y < |t| && 0 <= r < |t[y]| ==> (t[y][r] == 0 <==> t0[y][r] == 0))
    && forall y, r, z, q :: 0 <= y < |t| && 0 <= r < |t[y]| && 0 <= z < |t| && 0 <= q < |t[z]| ==> (t[y][r] == t[z][q] <==> t0[y][r] == t0[z][q])
  }

  /** The blocks named before slot `q` of inode `z` are in their places. */
  ghost predicate PlacedBefore(t0: Table, t: Table, z: nat, q: nat)
    requires SameWidth(t0, t)
  {
    forall y: nat, r: nat :: IsFirst(t0, y, r) && Before(y, r, z, q) ==> t[y][r] == Place(t0, y, r)
  }

  ghost predicate Tracking(t0: Table, t: Table, z: nat, q: nat, pos: nat) {
    TableOk(t0) && TableOk(t) && Alike(t0, t) && PlacedBefore(t0, t, z, q) && pos == Place(t0, z, q) && Packed(t, z, q, pos)
  }

  /** Moves rename blocks one to one. */
  lemma AlikeMoved(t0: Table, t: Table, t': Table, bl: nat, dest: nat, k: nat)
    requires Alike(t0, t) && SameWidth(t, t') && bl != dest && bl != 0 && dest != 0 && k != 0
    requires forall y, r :: 0 <= y < |t| && 0 <= r < |t[y]| ==> t[y][r] != k
    requires forall y, r :: 0 <= y < |t| && 0 <= r < |t[y]| ==> t'[y][r] == if t[y][r] == bl then dest else if t[y][r] == dest then k else t[y][r]
    ensures Alike(t0, t')
  {
    forall y, r, z, q | 0 <= y < |t| && 0 <= r < |t[y]| && 0 <= z < |t| && 0 <= q < |t[z]| ensures t'[y][r] == t'[z][q] <==> t0[y][r] == t0[z][q] {
      assert t[y][r] == t[z][q] <==> t0[y][r] == t0[z][q];
    }
  }

  lemma AlikeAt(t0: Table, t: Table, y: nat, r: nat, z: nat, q: nat)
    requires Alike(t0, t) && y < |t| && r < |t[y]| && z < |t| && q < |t[z]|
    ensures |t0| == |t| && |t0[y]| == |t[y]| && |t0[z]| == |t[z]|
    ensures (t[y][r] == t[z][q] <==> t0[y][r] == t0[z][q]) && (t[z][q] == 0 <==> t0[z][q] == 0)
  {
  }

  /** The next slot is the first of its block exactly if the block is not in place yet. */
  lemma FirstIffBeyond(t0: Table, t: Table, z: nat, q: nat, pos: nat)
    requires Tracking(t0, t, z, q, pos) && z < |t| && q < |t[z]|
    ensures |t0| == |t| && q < |t0[z]| && FIRST_DATA <= pos
    ensures IsFirst(t0, z, q) <==> t[z][q] >= pos
  {
    hide Alike, TableOk, PlacedBefore;
    AlikeAt(t0, t, z, q, z, q);
    if t[z][q] >= pos {
      forall y, r | 0 <= y < |t0| && 0 <= r < |t0[y]| && Before(y, r, z, q) ensures t0[y][r] != t0[z][q] {
        AlikeWide(t0, t);
        AlikeAt(t0, t, y, r, z, q);
      }
    } else if t[z][q] != 0 {
      SlotIsBlock(t, z, q);
      assert NamedBefore(t, t[z][q], z, q);
      var y, r :| 0 <= y < |t| && 0 <= r < |t[y]| && Before(y, r, z, q) && t[y][r] == t[z][q];
      AlikeAt(t0, t, y, r, z, q);
      assert t0[y][r] in BlocksBefore(t0, z, q);
    }
  }

  lemma AlikeWide(t0: Table, t: Table)
    requires Alike(t0, t)
    ensures SameWidth(t0, t)
  {
  }

  lemma SlotIsBlock(t: Table, z: nat, q: nat)
    requires TableOk(t) && z < |t| && q < |t[z]| && t[z][q] != 0
    ensures FIRST_DATA <= t[z][q] <= NUM_BLOCOS_MAX
  {
  }

  lemma PlaceNext(t0: Table, z: nat, q: nat)
    requires z < |t0| && q < |t0[z]|
    ensures Place(t0, z, q + 1) == Place(t0, z, q) + if IsFirst(t0, z, q) then 1 else 0
  {
    BeforeNext(t0, z, q);
    var done, b := BlocksBefore(t0, z, q), t0[z][q];
    if IsFirst(t0, z, q) {
      assert |done + {b}| == |done| + 1;
    } else {
      assert BlocksBefore(t0, z, q + 1) == done;
    }
  }

  /** Past the next slot, when everything named before it stays where it is. */
  lemma TrackNext(t0: Table, t: Table, t': Table, z: nat, q: nat, pos: nat, pos': nat)
    requires Tracking(t0, t, z, q, pos) && z < |t| && q < |t[z]| && TableOk(t') && Alike(t0, t') && Packed(t', z, q + 1, pos')
    requires forall y, r :: 0 <= y < |t| && 0 <= r < |t[y]| && t[y][r] < pos ==> t'[y][r] == t[y][r]
    requires if t[z][q] >= pos then pos' == pos + 1 && t'[z][q] == pos else pos' == pos
    ensures Tracking(t0, t', z, q + 1, pos')
  {
    hide Alike, TableOk, Packed, BlocksBefore, IsFirst;
    FirstIffBeyond(t0, t, z, q, pos);
    PlaceNext(t0, z, q);
    AlikeWide(t0, t);
    AlikeWide(t0, t');
    PlacedNext(t0, t, t', z, q, pos);
  }

  lemma PlacedNext(t0: Table, t: Table, t': Table, z: nat, q: nat, pos: nat)
    requires Tracking(t0, t, z, q, pos) && z < |t| && q < |t[z]| && SameWidth(t0, t) && SameWidth(t0, t')
    requires forall y, r :: 0 <= y < |t| && 0 <= r < |t[y]| && t[y][r] < pos ==> t'[y][r] == t[y][r]
    requires IsFirst(t0, z, q) ==> t'[z][q] == pos
    ensures PlacedBefore(t0, t', z, q + 1)
  {
    hide Alike, TableOk, Packed, BlocksBefore;
    var q' := q + 1;
    forall y: nat, r: nat | IsFirst(t0, y, r) && Before(y, r, z, q') ensures t'[y][r] == Place(t0, y, r) {
      if Before(y, r, z, q) {
        PlaceLow(t0, t, y, r, z, q, pos);
      } else {
        assert y == z && r == q;
      }
    }
  }

  lemma PlaceLow(t0: Table, t: Table, y: nat, r: nat, z: nat, q: nat, pos: nat)
    requires Tracking(t0, t, z, q, pos) && IsFirst(t0, y, r) && Before(y, r, z, q)
    ensures y < |t| && r < |t[y]| && t[y][r] == Place(t0, y, r) < pos
  {
    assert t[y][r] == 0 || t[y][r] < pos;
  }

  lemma TrackRow(t0: Table, t: Table, z: nat, pos: nat)
    requires Tracking(t0, t, z, INODE_NUM_BLKS, pos) && z < |t|
    ensures Tracking(t0, t, z + 1, 0, pos)
  {
    hide Alike;
    BeforeRow(t0, z);
    PackedRow(t, z, pos);
    var z' := z + 1;
    AlikeWide(t0, t);
    forall y: nat, r: nat | IsFirst(t0, y, r) && Before(y, r, z', 0) ensures t[y][r] == Place(t0, y, r) {
      assert Before(y, r, z, INODE_NUM_BLKS);
    }
  }

  lemma TrackStart(t: Table)
    requires TableOk(t)
    ensures Tracking(t, t, 1, 0, FIRST_DATA)
  {
    PackedStart(t);
    assert BlocksBefore(t, 1, 0) == {};
  }

  lemma ArrangedTracks(t0: Table, s: Fs, z: nat, q: nat, pos: nat, lixo: nat -> Block)
    requires Movable(s) && Tracking(t0, Slots(s), z, q, pos) && z < INODES && q < INODE_NUM_BLKS
    ensures FIRST_DATA <= pos
    ensures var r := Arranged(s, z, q, pos, lixo); Tracking(t0, Slots(r.0), z, q + 1, r.1)
  {
    hide Movable, Moved, Named, Alike, TableOk, Packed, PlacedBefore;
    MovableParts(s);
    SlotRange(s, z, q);
    var t, b := Slots(s), s.inodes[z].blocks[q];
    TableWide(t, z);
    FirstIffBeyond(t0, t, z, q, pos);
    ArrangedPacked(s, z, q, pos, lixo);
    var r := Arranged(s, z, q, pos, lixo);
    if b > pos {
      MovedKeeps(s, b, pos, lixo(pos));
      var k := LastFree(s.bmap, NUM_BLOCOS_MAX);
      MovableParts(r.0);
      UnnamedSlots(t, k);
      AlikeMoved(t0, t, Slots(r.0), b, pos, k);
    }
    TrackNext(t0, t, Slots(r.0), z, q, pos, r.1);
  }

  /** In the end every block is in its place. */
  lemma {:induction false} RunTracks(t0: Table, s: Fs, z: nat, q: nat, pos: nat, lixo: nat -> Block)
    requires Movable(s) && Tracking(t0, Slots(s), z, q, pos) && z <= INODES && q <= INODE_NUM_BLKS && (z == INODES ==> q == 0)
    ensures FIRST_DATA <= pos
    ensures var r := Run(s, z, q, pos, lixo); Tracking(t0, Slots(r.0), INODES, 0, r.1)
    decreases INODES - z, INODE_NUM_BLKS - q
  {
    hide Movable, Arranged, Tracking;
    TrackFrom(t0, Slots(s), z, q, pos);
    if z < INODES {
      if q == INODE_NUM_BLKS {
        MovableParts(s);
        TrackRow(t0, Slots(s), z, pos);
        RunTracks(t0, s, z + 1, 0, pos, lixo);
      } else {
        ArrangedTracks(t0, s, z, q, pos, lixo);
        ArrangedMovable(s, z, q, pos, lixo);
        var r := Arranged(s, z, q, pos, lixo);
        RunTracks(t0, r.0, z, q + 1, r.1, lixo);
      }
    }
  }

  lemma TrackFrom(t0: Table, t: Table, z: nat, q: nat, pos: nat)
    requires Tracking(t0, t, z, q, pos)
    ensures FIRST_DATA <= pos
  {
  }

  // ---------- Cache entries ----------

  /** Blocks with valid entries had them before and have never moved. */
  ghost predicate Still(c0: CacheState, t0: Table, c: CacheState, t: Table) {
    SameWidth(t0, t) && forall x :: HasValid(c, x) ==> HasValid(c0, x) && StillNamed(t0, t, x)
  }

  predicate StillNamed(t0: Table, t: Table, x: nat)
    requires SameWidth(t0, t)
  {
    forall y, r :: 0 <= y < |t| && 0 <= r < |t[y]| ==> (t[y][r] == x <==> t0[y][r] == x)
  }

  lemma MovedValid(s: Fs, bl: nat, dest: nat, lixo: Block, x: nat)
    requires Movable(s) && Named(Slots(s), bl) && FIRST_DATA <= dest < bl <= NUM_BLOCOS_MAX
    ensures dest < |s.cache.disk| && 8 * |s.bmap| == BMAP_BITS
    ensures HasValid(Moved(s, bl, dest, lixo).cache, x) ==> HasValid(s.cache, x) && x != bl && x != dest && Named(Slots(s), x)
  {
    hide IsSet, SetBit, ClrBit, Named, TableOk, LastFree;
    MovableParts(s);
    var k := LastFree(s.bmap, NUM_BLOCOS_MAX);
    var d := s.cache.disk;
    var c1 := RawWrite(s.cache, k, d[dest]);
    InvalidateKeys(c1, dest);
    InvalidateKeys(RawWrite(Invalidate(c1, dest), dest, ReadOr(Invalidate(c1, dest).disk, bl, d[dest])), bl);
    InvalidateKeys(RawWrite(s.cache, dest, ReadOr(d, bl, lixo)), bl);
  }

  lemma ArrangedStill(c0: CacheState, t0: Table, s: Fs, z: nat, q: nat, pos: nat, lixo: nat -> Block)
    requires Movable(s) && Still(c0, t0, s.cache, Slots(s)) && z < INODES && q < INODE_NUM_BLKS && FIRST_DATA <= pos
    ensures var r := Arranged(s, z, q, pos, lixo); Still(c0, t0, r.0.cache, Slots(r.0))
  {
    hide Movable, Moved, TableOk, Named, HasValid;
    MovableParts(s);
    SlotRange(s, z, q);
    var b := s.inodes[z].blocks[q];
    if b > pos {
      MovedKeeps(s, b, pos, lixo(pos));
      var s' := Moved(s, b, pos, lixo(pos));
      var t, t', k := Slots(s), Slots(s'), LastFree(s.bmap, NUM_BLOCOS_MAX);
      MovableParts(s');
      forall x | HasValid(s'.cache, x) ensures HasValid(c0, x) && StillNamed(t0, t', x) {
        MovedValid(s, b, pos, lixo(pos), x);
        assert StillNamed(t0, t, x) && x != k;
      }
    }
  }

  lemma {:induction false} RunStill(c0: CacheState, t0: Table, s: Fs, z: nat, q: nat, pos: nat, lixo: nat -> Block)
    requires Movable(s) && Still(c0, t0, s.cache, Slots(s)) && z <= INODES && q <= INODE_NUM_BLKS && FIRST_DATA <= pos
    ensures var r := Run(s, z, q, pos, lixo); Still(c0, t0, r.0.cache, Slots(r.0))
    decreases INODES - z, INODE_NUM_BLKS - q
  {
    hide Movable, Arranged, Still;
    if z < INODES {
      if q == INODE_NUM_BLKS {
        RunStill(c0, t0, s, z + 1, 0, pos, lixo);
      } else {
        ArrangedStill(c0, t0, s, z, q, pos, lixo);
        ArrangedMovable(s, z, q, pos, lixo);
        var r := Arranged(s, z, q, pos, lixo);
        RunStill(c0, t0, r.0, z, q + 1, r.1, lixo);
      }
    }
  }

  // ---------- Counts ----------

  /** The slots in use are the first ones of the table's rows, and all others are empty. */
  ghost predicate UsageTable(u: Usage, t: Table) {
    && |u.dirs| == |u.slots| == |t| == INODES
    && forall f :: 0 <= f < INODES ==> |u.slots[f]| <= |t[f]| && u.slots[f] == t[f][..|u.slots[f]|] && forall k :: |u.slots[f]| <= k < |t[f]| ==> t[f][k] == 0
  }

  /** The same inodes use as many slots in both. */
  predicate SameShape(u0: Usage, u: Usage) {
    u.dirs == u0.dirs && |u.slots| == |u0.slots| && forall f :: 0 <= f < |u.slots| ==> |u.slots[f]| == |u0.slots[f]|
  }

  /** Where one list of lists has `b`, and only there, the other has `c`. */
  lemma {:induction false} SumAlike(ss: seq<seq<nat>>, ss': seq<seq<nat>>, b: nat, c: nat)
    requires |ss'| == |ss| && forall f :: 0 <= f < |ss| ==> |ss'[f]| == |ss[f]| && forall k :: 0 <= k < |ss[f]| ==> (ss[f][k] == b <==> ss'[f][k] == c)
    ensures Sum(ss')[c] == Sum(ss)[b]
  {
    if ss != [] {
      RowAlike(ss[0], ss'[0], b, c);
      var r, r' := ss[1..], ss'[1..];
      assert forall f :: 0 <= f < |r| ==> r[f] == ss[f + 1] && r'[f] == ss'[f + 1];
      SumAlike(r, r', b, c);
    }
  }

  lemma {:induction false} RowAlike(s: seq<nat>, s': seq<nat>, b: nat, c: nat)
    requires |s'| == |s| && forall k :: 0 <= k < |s| ==> (s[k] == b <==> s'[k] == c)
    ensures multiset(s')[c] == multiset(s)[b]
  {
    if s != [] {
      var r, r' := s[1..], s'[1..];
      assert s == [s[0]] + r && s' == [s'[0]] + r';
      assert forall k :: 0 <= k < |r| ==> r[k] == s[k + 1] && r'[k] == s'[k + 1];
      RowAlike(r, r', b, c);
    }
  }

  /** A block is named as often in its new place as it was in its old one. */
  lemma CountsFollow(u0: Usage, t0: Table, u: Usage, t: Table, f: nat, k: nat)
    requires UsageTable(u0, t0) && UsageTable(u, t) && SameShape(u0, u) && Alike(t0, t) && f < INODES && k < |u0.slots[f]|
    ensures FileSlots(u)[u.slots[f][k]] == FileSlots(u0)[u0.slots[f][k]] && DirSlots(u)[u.slots[f][k]] == DirSlots(u0)[u0.slots[f][k]]
  {
    hide Alike;
    var b, c := u0.slots[f][k], u.slots[f][k];
    AlikeWide(t0, t);
    forall g, j | 0 <= g < INODES && 0 <= j < |u0.slots[g]| ensures u0.slots[g][j] == b <==> u.slots[g][j] == c { AlikeAt(t0, t, g, j, f, k); }
    SumAlike(Only(u0, false), Only(u, false), b, c);
    SumAlike(Only(u0, true), Only(u, true), b, c);
  }

  /** The counted blocks are the named ones. */
  lemma NamesCounted(u: Usage, t: Table, b: nat)
    requires UsageTable(u, t) && b != 0
    ensures Named(t, b) <==> FileSlots(u)[b] > 0 || DirSlots(u)[b] > 0
  {
    hide FileSlots, DirSlots;
    if Named(t, b) {
      var z, q :| 0 <= z < |t| && 0 <= q < |t[z]| && t[z][q] == b;
      SlotCounted(u, z, q);
    } else {
      forall f, k | 0 <= f < |u.slots| && 0 <= k < |u.slots[f]| ensures u.slots[f][k] != b { assert t[f][k] == u.slots[f][k]; }
      Unnamed(u, b);
    }
  }

  predicate SameCount(refs: seq<Char>, a: nat, b: nat) {
    a < |refs| && b < |refs| && refs[a] == refs[b]
  }

  /** Every block's count already stands at the place that the block is to move to, and no other block has one. */
  ghost predicate CountsPlaced(refs: seq<Char>, t: Table) {
    && (forall z: nat, q: nat :: IsFirst(t, z, q) ==> SameCount(refs, Place(t, z, q), t[z][q]))
    && forall b :: Place(t, INODES, 0) <= b < |refs| ==> refs[b] == 0
  }

  /** The end of a run: blocks are in their places, and these are all there are. */
  ghost predicate Settled(u0: Usage, t0: Table, u: Usage, t: Table) {
    && UsageTable(u0, t0) && UsageTable(u, t) && SameShape(u0, u) && Alike(t0, t) && TableOk(t0) && TableOk(t)
    && (forall z: nat, q: nat :: IsFirst(t0, z, q) ==> t[z][q] == Place(t0, z, q))
    && (forall b :: b >= FIRST_DATA ==> (Named(t, b) <==> b < Place(t0, INODES, 0)))
  }

  /** A used slot of the first table, as it is at the end. */
  lemma SettledSlot(u0: Usage, t0: Table, u: Usage, t: Table, z: nat, q: nat)
    requires Settled(u0, t0, u, t) && IsFirst(t0, z, q)
    ensures z < INODES && q < |u0.slots[z]| && u0.slots[z][q] == t0[z][q] && |u.slots| == |u.dirs| == |u0.slots| == |u0.dirs| == INODES
    ensures q < |u.slots[z]| && u.slots[z][q] == Place(t0, z, q)
    ensures FileSlots(u)[Place(t0, z, q)] == FileSlots(u0)[t0[z][q]] && DirSlots(u)[Place(t0, z, q)] == DirSlots(u0)[t0[z][q]]
    ensures FIRST_DATA <= Place(t0, z, q) < Place(t0, INODES, 0) && FIRST_DATA <= t0[z][q]
  {
    hide Alike, FileSlots, DirSlots, BlocksBefore, TableOk;
    SlotIsBlock(t0, z, q);
    CountsFollow(u0, t0, u, t, z, q);
    assert t[z][q] == Place(t0, z, q);
    assert Named(t, t[z][q]);
  }

  /** The block that ends in a place. */
  lemma PlaceOf(u0: Usage, t0: Table, u: Usage, t: Table, b: nat) returns (z: nat, q: nat)
    requires Settled(u0, t0, u, t) && FIRST_DATA <= b < Place(t0, INODES, 0)
    ensures IsFirst(t0, z, q) && Place(t0, z, q) == b
  {
    hide Alike, BlocksBefore, UsageTable, SameShape, TableOk;
    assert Named(t, b);
    var y, r :| 0 <= y < |t| && 0 <= r < |t[y]| && t[y][r] == b;
    AlikeWide(t0, t);
    AlikeAt(t0, t, y, r, y, r);
    z, q := FirstOf(t0, y, r);
    AlikeAt(t0, t, z, q, y, r);
  }

  /** Counts that stay where they are are right at the end exactly if they stood at the places already. */
  lemma CountsExactly(u0: Usage, t0: Table, u: Usage, t: Table, refs: seq<Char>)
    requires Settled(u0, t0, u, t) && RefsOk(refs, u0) && |refs| >= NUM_BLOCOS_MAX && Place(t0, INODES, 0) <= NUM_BLOCOS_MAX
    requires InRange(u0.slots) && InRange(u.slots)
    ensures |u.dirs| == |u.slots| && (RefsOk(refs, u) <==> CountsPlaced(refs, t0))
  {
    hide Settled, FileSlots, DirSlots, Place, InRange, Wrap, IsFirst;
    assert UsageTable(u0, t0) && UsageTable(u, t) by { SettledTables(u0, t0, u, t); }
    if RefsOk(refs, u) {
      forall z: nat, q: nat | IsFirst(t0, z, q) ensures z < |t0| && q < |t0[z]| && SameCount(refs, Place(t0, z, q), t0[z][q]) {
        FirstIn(t0, z, q);
        SettledSlot(u0, t0, u, t, z, q);
        InRangeAt(u0.slots, z, q);
      }
      forall b | Place(t0, INODES, 0) <= b < |refs| ensures refs[b] == 0 { NotPlaced(u0, t0, u, t, b); }
    }
    if CountsPlaced(refs, t0) {
      forall b | 0 <= b < |refs| ensures refs[b] == Wrap(FileSlots(u)[b]) {
        if b < FIRST_DATA {
          MetadataUnnamed(u0, b);
          MetadataUnnamed(u, b);
        } else if b < Place(t0, INODES, 0) {
          var z, q := PlaceOf(u0, t0, u, t, b);
          FirstIn(t0, z, q);
          SettledSlot(u0, t0, u, t, z, q);
          assert SameCount(refs, Place(t0, z, q), t0[z][q]);
        } else {
          NotPlaced(u0, t0, u, t, b);
        }
      }
    }
  }

  lemma SettledTables(u0: Usage, t0: Table, u: Usage, t: Table)
    requires Settled(u0, t0, u, t)
    ensures UsageTable(u0, t0) && UsageTable(u, t) && SameShape(u0, u) && TableOk(t0) && TableOk(t)
  {
  }

  lemma FirstIn(t: Table, z: nat, q: nat)
    requires IsFirst(t, z, q)
    ensures z < |t| && q < |t[z]| && t[z][q] != 0
  {
  }

  lemma InRangeAt(slots: seq<seq<nat>>, f: nat, k: nat)
    requires InRange(slots) && f < |slots| && k < |slots[f]|
    ensures FIRST_DATA <= slots[f][k] < NUM_BLOCOS_MAX
  {
  }

  lemma NotPlaced(u0: Usage, t0: Table, u: Usage, t: Table, b: nat)
    requires Settled(u0, t0, u, t) && b >= Place(t0, INODES, 0)
    ensures |u.dirs| == |u.slots| && FileSlots(u)[b] == 0 && DirSlots(u)[b] == 0 && Wrap(0) == 0
  {
    hide Alike, FileSlots, DirSlots, BlocksBefore;
    assert Place(t0, INODES, 0) >= FIRST_DATA;
    NamesCounted(u, t, b);
  }

  // ---------- The file system afterwards ----------

  function UsageAfter(s: Fs, u: Usage): (r: Usage)
    requires Formed(s) && Shaped(u)
    ensures |r.slots| == INODES && r.dirs == u.dirs && forall f :: 0 <= f < INODES ==> |r.slots[f]| == |u.slots[f]| && r.slots[f] == s.inodes[f].blocks[..|u.slots[f]|]
  {
    u.(slots := seq(INODES, f requires 0 <= f < INODES => s.inodes[f].blocks[..|u.slots[f]|]))
  }

  lemma TableBefore(s: Fs, u: Usage)
    requires Core(s, u) && NoStale(s, u)
    ensures UsageTable(u, Slots(s)) && Shaped(u) && InRange(u.slots)
  {
    hide Acc, RawOk, CacheInv, Roots, IsSet;
    CoreParts(s, u);
    AccShape(s.bmap, s.refs, u);
    forall f | 0 <= f < INODES ensures u.slots[f] == Slots(s)[f][..|u.slots[f]|] { LinkedAt(s, u, f); }
  }

  lemma TableAfter(s: Fs, u0: Usage, t0: Table)
    requires Formed(s) && Shaped(u0) && UsageTable(u0, t0) && Alike(t0, Slots(s))
    ensures UsageTable(UsageAfter(s, u0), Slots(s)) && SameShape(u0, UsageAfter(s, u0))
  {
    hide Alike;
    var t := Slots(s);
    AlikeWide(t0, t);
    forall f, k | 0 <= f < INODES && |u0.slots[f]| <= k < |t[f]| ensures t[f][k] == 0 { AlikeAt(t0, t, f, k, f, k); }
  }

  lemma SettledPut(u0: Usage, t0: Table, u: Usage, t: Table, pos: nat)
    requires UsageTable(u0, t0) && UsageTable(u, t) && SameShape(u0, u) && Tracking(t0, t, INODES, 0, pos)
    ensures Settled(u0, t0, u, t) && pos == Place(t0, INODES, 0) <= NUM_BLOCOS_MAX
  {
    hide Alike, BlocksBefore;
    AlikeWide(t0, t);
    PackedAll(t, pos);
    var b := SomeUnnamed(t);
    forall z: nat, q: nat | IsFirst(t0, z, q) ensures t[z][q] == Place(t0, z, q) { assert Before(z, q, INODES, 0); }
  }

  /** After a run the blocks are in their places, named by the same slots. */
  lemma RunSettled(s0: Fs, u0: Usage, lixo: nat -> Block)
    requires Defraggable(s0, u0)
    ensures Movable(s0) && Shaped(u0)
    ensures var r, t0 := Run(s0, 1, 0, FIRST_DATA, lixo), Slots(s0);
      && Formed(r.0) && Settled(u0, t0, UsageAfter(r.0, u0), Slots(r.0)) && r.1 == Place(t0, INODES, 0) <= NUM_BLOCOS_MAX
      && OnlyBlocks(s0, r.0) && r.0.refs == s0.refs && Movable(r.0) && Still(s0.cache, t0, r.0.cache, Slots(r.0))
      && |r.0.cache.disk| == |s0.cache.disk|
  {
    hide Movable, OnlyBlocks, Run, Core, Fits, Sized, Counted, TableOk, Tracking, UsageTable, Settled, Place, NamesOn, NamesLow, NothingUnwritten, SameShape, Packed, Still;
    InvParts(s0, u0);
    DefragStart(s0, u0);
    MovableParts(s0);
    var t0 := Slots(s0);
    TableBefore(s0, u0);
    TrackStart(t0);
    StillStart(s0.cache, t0);
    MovingStart(s0);
    RunMoving(s0, s0, 1, 0, FIRST_DATA, lixo);
    RunTracks(t0, s0, 1, 0, FIRST_DATA, lixo);
    RunStill(s0.cache, t0, s0, 1, 0, FIRST_DATA, lixo);
    var r := Run(s0, 1, 0, FIRST_DATA, lixo);
    MovableParts(r.0);
    TrackAlike(t0, Slots(r.0), r.1);
    TableAfter(r.0, u0, t0);
    SettledPut(u0, t0, UsageAfter(r.0, u0), Slots(r.0), r.1);
  }

  lemma StillStart(c: CacheState, t: Table)
    ensures Still(c, t, c, t)
  {
  }

  lemma TrackAlike(t0: Table, t: Table, pos: nat)
    requires Tracking(t0, t, INODES, 0, pos)
    ensures Alike(t0, t)
  {
  }

  lemma RangeAfter(u0: Usage, t0: Table, u: Usage, t: Table)
    requires Settled(u0, t0, u, t) && InRange(u0.slots) && Place(t0, INODES, 0) <= NUM_BLOCOS_MAX
    ensures InRange(u.slots)
  {
    hide Alike, BlocksBefore, Place;
    forall f, k | 0 <= f < |u.slots| && 0 <= k < |u.slots[f]| ensures FIRST_DATA <= u.slots[f][k] < NUM_BLOCOS_MAX {
      assert u.slots[f][k] == t[f][k] && u0.slots[f][k] == t0[f][k] >= FIRST_DATA;
      AlikeAt(t0, t, f, k, f, k);
      SlotIsBlock(t, f, k);
      assert Named(t, t[f][k]);
    }
  }

  lemma AloneAfter(u0: Usage, t0: Table, u: Usage, t: Table)
    requires Settled(u0, t0, u, t) && |u0.dirs| == |u0.slots| && DirsAlone(u0) && InRange(u.slots)
    ensures |u.dirs| == |u.slots| && DirsAlone(u)
  {
    hide Settled, FileSlots, DirSlots, Place, IsFirst, InRange;
    SettledTables(u0, t0, u, t);
    assert |u.dirs| == |u.slots| by { SettledWide(u0, t0, u, t); }
    forall b: nat ensures DirSlots(u)[b] <= 1 && (DirSlots(u)[b] == 1 ==> FileSlots(u)[b] == 0) {
      if b < FIRST_DATA {
        NothingBelow(u, b);
      } else if b < Place(t0, INODES, 0) {
        var z, q := PlaceOf(u0, t0, u, t, b);
        SettledSlot(u0, t0, u, t, z, q);
      } else {
        NotPlaced(u0, t0, u, t, b);
      }
    }
  }

  lemma SettledWide(u0: Usage, t0: Table, u: Usage, t: Table)
    requires Settled(u0, t0, u, t)
    ensures |u.dirs| == |u.slots| == |u0.dirs| == |u0.slots| == |t0| == |t| == INODES
  {
  }

  lemma NothingBelow(u: Usage, b: nat)
    requires |u.dirs| == |u.slots| && InRange(u.slots) && b < FIRST_DATA
    ensures FileSlots(u)[b] == 0 && DirSlots(u)[b] == 0
  {
    forall f, k | 0 <= f < |u.slots| && 0 <= k < |u.slots[f]| ensures u.slots[f][k] != b { }
    Unnamed(u, b);
  }

  lemma BitsAfter(u0: Usage, t0: Table, u: Usage, t: Table, bmap: Bits)
    requires Settled(u0, t0, u, t) && BitsNamed(bmap, t)
    ensures |u.dirs| == |u.slots| && BitsOk(bmap, u)
  {
    hide Settled, FileSlots, DirSlots, IsSet, Named;
    SettledTables(u0, t0, u, t);
    forall b | FIRST_DATA <= b < BMAP_BITS ensures Named(t, b) <==> FileSlots(u)[b] > 0 || DirSlots(u)[b] > 0 { NamesCounted(u, t, b); }
  }

  /** The account of blocks holds after a run exactly if the counts stood at the places before. */
  lemma AccAfter(u0: Usage, t0: Table, u: Usage, t: Table, bmap0: Bits, bmap: Bits, refs: seq<Char>)
    requires Settled(u0, t0, u, t) && Acc(bmap0, refs, u0) && BitsNamed(bmap, t) && Shaped(u) && Place(t0, INODES, 0) <= NUM_BLOCOS_MAX
    ensures InRange(u.slots) && |u.dirs| == |u.slots|
    ensures Acc(bmap, refs, u) <==> CountsPlaced(refs, t0)
  {
    hide Settled, FileSlots, DirSlots, IsSet, Place, CountsPlaced, RefsOk, BitsOk, DirsAlone, BitsNamed;
    RangeAfter(u0, t0, u, t);
    AloneAfter(u0, t0, u, t);
    BitsAfter(u0, t0, u, t, bmap);
    CountsExactly(u0, t0, u, t, refs);
  }

  lemma SameTypes(s0: Fs, s: Fs)
    requires Formed(s0) && Formed(s) && OnlyBlocks(s0, s)
    ensures forall f, tipo :: 0 <= f < INODES ==> IsType(s, f, tipo) == IsType(s0, f, tipo)
  {
  }

  lemma LinkedAfter(s0: Fs, u0: Usage, s: Fs)
    requires Core(s0, u0) && Formed(s) && OnlyBlocks(s0, s) && Shaped(u0) && Shaped(UsageAfter(s, u0))
    ensures Linked(s, UsageAfter(s, u0)) && Roots(s, UsageAfter(s, u0))
  {
    hide Acc, RawOk, CacheInv, IsSet;
    CoreParts(s0, u0);
    SameTypes(s0, s);
    var u := UsageAfter(s, u0);
    forall g | 0 <= g < INODES ensures LinkedInode(s, u, g) { assert LinkedInode(s0, u0, g); }
  }

  lemma RawAfter(c0: CacheState, u0: Usage, t0: Table, c: CacheState, u: Usage, t: Table)
    requires UsageTable(u0, t0) && UsageTable(u, t) && SameShape(u0, u) && Still(c0, t0, c, t) && RawOk(c0, u0)
    ensures RawOk(c, u)
  {
    hide HasValid;
    forall x | x in c.entries && c.entries[x].valido ensures FileSlots(u)[x] > 0 {
      assert HasValid(c, x) by { ValidAt(c, x); }
      ValidOf(c0, x);
      assert StillNamed(t0, t, x);
      forall g, j | 0 <= g < INODES && 0 <= j < |u0.slots[g]| ensures u0.slots[g][j] == x <==> u.slots[g][j] == x {
        assert u0.slots[g][j] == t0[g][j] && u.slots[g][j] == t[g][j];
      }
      SumAlike(Only(u0, false), Only(u, false), x, x);
    }
  }

  lemma ValidAt(c: CacheState, x: nat)
    requires x in c.entries && c.entries[x].valido
    ensures HasValid(c, x)
  {
  }

  lemma ValidOf(c: CacheState, x: nat)
    requires HasValid(c, x)
    ensures x in c.entries && c.entries[x].valido
  {
  }

  lemma SizesAfter(s0: Fs, u0: Usage, s: Fs, u: Usage)
    requires Formed(s0) && Shaped(u0) && Sized(s0, u0) && Counted(s0) && Formed(s) && OnlyBlocks(s0, s) && Shaped(u) && SameShape(u0, u)
    ensures Sized(s, u) && Counted(s)
  {
    hide IsSet, InodesFrom, EntriesFrom;
    SameTypes(s0, s);
    CountsSame(s0, s, 0);
    forall f | 0 <= f < INODES ensures SizedInode(s, u, f) { assert SizedInode(s0, u0, f); }
  }

  lemma NoRepeatAfter(u: Usage, t: Table)
    requires UsageTable(u, t) && TableOk(t) && InRange(u.slots)
    ensures NoRepeat(u)
  {
    forall f | 0 <= f < |u.slots| ensures Distinct(u.slots[f]) {
      forall i, j | 0 <= i < j < |u.slots[f]| ensures u.slots[f][i] != u.slots[f][j] {
        assert u.slots[f][i] == t[f][i] && u.slots[f][j] == t[f][j] && t[f][i] != 0;
      }
    }
  }

  /** What a defragmentation does to the account: it holds afterwards, and with it the whole invariant of blocks,
      links, sizes and counts, exactly if every block's count stood at its place before and no other block had one. */
  lemma DefragAccounts(s0: Fs, u0: Usage, lixo: nat -> Block)
    requires Defraggable(s0, u0)
    ensures Movable(s0) && Shaped(u0)
    ensures var s := Run(s0, 1, 0, FIRST_DATA, lixo).0;
      && Formed(s)
      && var u := UsageAfter(s, u0);
        && (Acc(s.bmap, s.refs, u) <==> CountsPlaced(s0.refs, Slots(s0)))
        && (FsInv(s, u) <==> CountsPlaced(s0.refs, Slots(s0)))
        && NoRepeat(u) && UsageTable(u, Slots(s))
  {
    hide Movable, OnlyBlocks, Run, Core, Acc, Fits, Sized, Counted, TableOk, UsageTable, Settled, Place, NamesOn, NamesLow, NothingUnwritten, SameShape, CountsPlaced, Still, BitsNamed, Linked, Roots, RawOk, NoRepeat;
    RunSettled(s0, u0, lixo);
    InvParts(s0, u0);
    CoreParts(s0, u0);
    var s, t0 := Run(s0, 1, 0, FIRST_DATA, lixo).0, Slots(s0);
    var u := UsageAfter(s, u0);
    assert Shaped(u);
    MovableBits(s);
    SettledTables(u0, t0, u, Slots(s));
    AccAfter(u0, t0, u, Slots(s), s0.bmap, s.bmap, s.refs);
    LinkedAfter(s0, u0, s);
    RawAfter(s0.cache, u0, t0, s.cache, u, Slots(s));
    SizesAfter(s0, u0, s, u);
    NoRepeatAfter(u, Slots(s));
    FitsAfter(s, u);
    if Acc(s.bmap, s.refs, u) { CorePut(s, u); }
    if FsInv(s, u) {
      InvParts(s, u);
      CoreParts(s, u);
    }
  }

  lemma MovableBits(s: Fs)
    requires Movable(s)
    ensures BitsNamed(s.bmap, Slots(s)) && CacheInv(s.cache)
  {
  }

  lemma FitsAfter(s: Fs, u: Usage)
    requires Formed(s) && Shaped(u) && NoRepeat(u) && Linked(s, u) && Roots(s, u)
    ensures |u.dirs| == |u.slots| && Fits(u)
  {
    hide IsSet, Fits, NoRepeat;
    assert LinkedInode(s, u, 0) && LinkedInode(s, u, 1);
    RefsFit(u);
  }

  // ---------- Directories afterwards ----------

  lemma EntriesAfter(s0: Fs, s: Fs, c: seq<Byte>)
    requires Formed(s0) && Formed(s) && OnlyBlocks(s0, s) && EntriesOk(s0, c)
    ensures EntriesOk(s, c)
  {
    forall i | 0 <= i < |c| / DENTRY ensures EntryOk(s, EntryAt(c, i)) { assert EntryOk(s0, EntryAt(c, i)); }
  }

  lemma ContentsAfter(s0: Fs, u0: Usage, s: Fs, f: nat)
    requires FsInv(s0, u0) && Formed(s) && Shaped(u0) && FsModulo(s, UsageAfter(s, u0))
    requires f < INODES && (IsType(s0, f, FS_FILE) || IsType(s0, f, FS_DIR)) && SameContents(s0, u0, s, f)
    ensures (IsType(s, f, FS_FILE) || IsType(s, f, FS_DIR)) && Contents(s, UsageAfter(s, u0), f) == Contents(s0, u0, f)
  {
    hide Core, Fits, Sized, Counted, IsSet, LogicalDisk;
    InvParts(s0, u0);
    ModuloParts(s, UsageAfter(s, u0));
    CoreParts(s, UsageAfter(s, u0));
  }

  lemma TreeAfter(s0: Fs, u0: Usage, s: Fs)
    requires FullInv(s0, u0) && Formed(s) && Shaped(u0) && OnlyBlocks(s0, s) && FsModulo(s, UsageAfter(s, u0)) && UsageTable(UsageAfter(s, u0), Slots(s))
    requires DirsKept(s0, u0, s)
    ensures Tree(s, UsageAfter(s, u0))
  {
    hide Core, Fits, Sized, Counted, IsSet, LogicalDisk, EntriesOk, UniqueNames, SameContents, OnlyBlocks;
    FullParts(s0, u0);
    var u := UsageAfter(s, u0);
    ModuloParts(s, u);
    SameTypes(s0, s);
    forall f | 0 <= f < INODES ensures DirOk(s, u, f) {
      if IsType(s, f, FS_DIR) {
        assert DirOk(s0, u0, f);
        ContentsAfter(s0, u0, s, f);
        EntriesAfter(s0, s, Contents(s0, u0, f));
        assert Slots(s)[f] == s.inodes[f].blocks;
      }
    }
  }

  /** Directories have the contents they had. */
  ghost predicate DirsKept(s0: Fs, u0: Usage, s: Fs)
    requires FsInv(s0, u0) && Formed(s)
  {
    forall f :: 0 <= f < INODES && IsType(s0, f, FS_DIR) ==> SameContents(s0, u0, s, f)
  }

  lemma RunKeepsRest(s0: Fs, u0: Usage, lixo: nat -> Block)
    requires Defraggable(s0, u0)
    ensures Movable(s0) && OnlyBlocks(s0, Run(s0, 1, 0, FIRST_DATA, lixo).0)
  {
    hide Defraggable, Movable, Run;
    RunSettled(s0, u0, lixo);
  }

  /** A defragmentation that keeps the contents of directories leaves a valid file system exactly if every block's
      count stood at its place before. */
  lemma DefragValid(s0: Fs, u0: Usage, lixo: nat -> Block)
    requires Defraggable(s0, u0) && FullInv(s0, u0)
    ensures Movable(s0) && Shaped(u0)
    ensures var r := Run(s0, 1, 0, FIRST_DATA, lixo);
      && Formed(r.0)
      && (FullInv(r.0, UsageAfter(r.0, u0)) ==> CountsPlaced(s0.refs, Slots(s0)))
      && (DirsKept(s0, u0, r.0) ==> (FullInv(r.0, UsageAfter(r.0, u0)) <==> CountsPlaced(s0.refs, Slots(s0))))
  {
    hide Defraggable, Movable, Run, Core, Fits, Sized, Counted, CountsPlaced, DirsKept, UsageTable, NoRepeat, Acc;
    DefragAccounts(s0, u0, lixo);
    var r := Run(s0, 1, 0, FIRST_DATA, lixo);
    var s, u := r.0, UsageAfter(r.0, u0);
    RunKeepsRest(s0, u0, lixo);
    if CountsPlaced(s0.refs, Slots(s0)) && DirsKept(s0, u0, s) {
      InvParts(s, u);
      TreeAfter(s0, u0, s);
    }
    if FullInv(s, u) { FullParts(s, u); }
  }
}
