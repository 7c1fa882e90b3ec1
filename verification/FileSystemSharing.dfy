/** Sharing where it does harm: a file copied onto itself, a directory appended to a file. */
module FileSystemSharing {
  import opened Block
  import opened CacheSpec
  import opened Bitmap
  import opened Accounting
  import opened FileSystemSpec
  import opened FileSystemSteps
  import opened FileSystemFacts
  import opened FileSystemTree

  // ---------- Raising counts ----------

  /** The counts with one more reference for every block of a list. */
  function RefsUp(refs: seq<Char>, blocks: seq<nat>): (r: seq<Char>)
    requires forall k :: 0 <= k < |blocks| ==> blocks[k] < |refs|
    ensures |r| == |refs|
  {
    if blocks == [] then refs
    else
      var n := |blocks| - 1;
      var r := RefsUp(refs, blocks[..n]);
      r[blocks[n] := Up(r[blocks[n]])]
  }

  lemma {:induction false} RefsUpCounts(refs: seq<Char>, blocks: seq<nat>, b: nat)
    requires (forall k :: 0 <= k < |blocks| ==> blocks[k] < |refs|) && b < |refs|
    ensures RefsUp(refs, blocks)[b] == Wrap(refs[b] + multiset(blocks)[b])
  {
    hide Wrap, Up;
    WrapSteps(refs[b]);
    if blocks != [] {
      var n := |blocks| - 1;
      RefsUpCounts(refs, blocks[..n], b);
      WrapSteps(refs[b] + multiset(blocks[..n])[b]);
      assert blocks == blocks[..n] + [blocks[n]];
      assert multiset(blocks) == multiset(blocks[..n]) + multiset{blocks[n]};
    }
  }

  lemma RefsUpNext(refs: seq<Char>, blocks: seq<nat>, i: nat)
    requires i < |blocks| && forall k :: 0 <= k < |blocks| ==> blocks[k] < |refs|
    ensures var r := RefsUp(refs, blocks[..i]); RefsUp(refs, blocks[..i + 1]) == r[blocks[i] := Up(r[blocks[i]])]
  {
    assert blocks[..i + 1][..i] == blocks[..i];
  }

  // ---------- A file copied onto itself ----------

  /** Every block of a list has references beside those from the list. */
  predicate OthersHave(refs: seq<Char>, blocks: seq<nat>) {
    forall k :: 0 <= k < |blocks| ==> blocks[k] < |refs| && refs[blocks[k]] > multiset(blocks)[blocks[k]]
  }

  /** The state after the slots of file `f` were given up in `s1` and counted again as they are. */
  function Recounted(s1: Fs, u0: Usage, f: nat): Fs
    requires f < |u0.slots| && forall k :: 0 <= k < |u0.slots[f]| ==> u0.slots[f][k] < |s1.refs|
  {
    s1.(refs := RefsUp(s1.refs, u0.slots[f]))
  }

  /** The blocks of file `f` of state `s0` are given up. */
  ghost predicate GivenUp(s0: Fs, u0: Usage, s1: Fs, u1: Usage, f: nat) {
    && FsInv(s0, u0) && Core(s1, u1) && |u1.slots| == |u1.dirs| == |u0.dirs| == |u0.slots| == INODES && Fits(u1)
    && IsType(s0, f, FS_FILE) && u1 == SetSlots(u0, f, []) && s1.inodes == s0.inodes && s1.ibmap == s0.ibmap && |s1.refs| == |s0.refs|
    && |PagesFor(s0, u0)| == |PagesFor(s1, u1)| == INODES && forall g :: 0 <= g < INODES && g != f ==> PagesFor(s1, u1)[g] == PagesFor(s0, u0)[g]
  }

  lemma GivenUpCounts(s0: Fs, u0: Usage, s1: Fs, u1: Usage, f: nat)
    requires GivenUp(s0, u0, s1, u1, f)
    ensures !u0.dirs[f] && DirSlots(u1) == DirSlots(u0) && FileSlots(u0) == FileSlots(u1) + multiset(u0.slots[f])
    ensures forall k :: 0 <= k < |u0.slots[f]| ==> FIRST_DATA <= u0.slots[f][k] < NUM_BLOCOS_MAX <= |s1.refs|
    ensures OthersHave(s0.refs, u0.slots[f]) <==> forall k :: 0 <= k < |u0.slots[f]| ==> FileSlots(u1)[u0.slots[f][k]] > 0
  {
    hide Core, Fits, FileSlots, DirSlots, Sized, Counted, IsSet, PagesFor;
    InvParts(s0, u0);
    CoreParts(s0, u0);
    AccShape(s0.bmap, s0.refs, u0);
    FileOnly(s0, u0, f);
    LinkedAt(s0, u0, f);
    SlotsUpdate(u0, f, []);
    assert FileSlots(u0) == FileSlots(u1) + multiset(u0.slots[f]);
    forall k | 0 <= k < |u0.slots[f]|
      ensures s0.refs[u0.slots[f][k]] == FileSlots(u1)[u0.slots[f][k]] + multiset(u0.slots[f])[u0.slots[f][k]]
    {
      CountIs(s0.bmap, s0.refs, u0, u0.slots[f][k]);
    }
  }

  /** What is counted again has the old account, if others had every block. */
  lemma RecountedAcc(s0: Fs, u0: Usage, s1: Fs, u1: Usage, f: nat)
    requires GivenUp(s0, u0, s1, u1, f) && OthersHave(s0.refs, u0.slots[f])
    requires forall k :: 0 <= k < |u0.slots[f]| ==> u0.slots[f][k] < |s1.refs|
    ensures Acc(s1.bmap, RefsUp(s1.refs, u0.slots[f]), u0)
    ensures forall b: nat :: FileSlots(u1)[b] > 0 ==> FileSlots(u0)[b] > 0
  {
    hide Fits, FileSlots, DirSlots, Linked, RawOk, Roots, CacheInv, Sized, Counted, IsSet, PagesFor, Wrap;
    GivenUpCounts(s0, u0, s1, u1, f);
    var slots, refs := u0.slots[f], RefsUp(s1.refs, u0.slots[f]);
    forall b: nat ensures FileSlots(u0)[b] > 0 <==> FileSlots(u1)[b] > 0 {
      assert b in slots ==> FileSlots(u1)[b] > 0;
    }
    forall b | 0 <= b < |refs| ensures refs[b] == Wrap(FileSlots(u0)[b]) {
      RefsUpCounts(s1.refs, slots, b);
      WrapAdds(FileSlots(u1)[b], multiset(slots)[b]);
    }
    assert RefsOk(refs, u0) && BitsOk(s1.bmap, u0);
  }

  lemma WrapAdds(n: int, m: int)
    ensures var w: int := Wrap(n); Wrap(w + m) == Wrap(n + m)
  {
  }

  /** A block that nobody else had is free after a copy of its file onto itself, though the file names it. */
  lemma RecountedBreaks(s0: Fs, u0: Usage, s1: Fs, u1: Usage, f: nat)
    requires GivenUp(s0, u0, s1, u1, f) && !OthersHave(s0.refs, u0.slots[f])
    requires forall k :: 0 <= k < |u0.slots[f]| ==> u0.slots[f][k] < |s1.refs|
    ensures !Core(Recounted(s1, u0, f), u0)
  {
    hide Fits, FileSlots, DirSlots, Linked, RawOk, Roots, CacheInv, Sized, Counted, IsSet, PagesFor, RefsOk;
    GivenUpCounts(s0, u0, s1, u1, f);
    var k :| 0 <= k < |u0.slots[f]| && FileSlots(u1)[u0.slots[f][k]] == 0;
    var b := u0.slots[f][k];
    SlotCounted(u0, f, k);
    assert DirSlots(u1)[b] == 0;
    assert !IsSet(s1.bmap, b);
    assert Core(Recounted(s1, u0, f), u0) ==> BitsOk(s1.bmap, u0);
  }

  /** The blocks of the file are still there, because others have them. */
  lemma RecountedPages(s0: Fs, u0: Usage, s1: Fs, u1: Usage, f: nat)
    requires GivenUp(s0, u0, s1, u1, f) && OthersHave(s0.refs, u0.slots[f]) && AllOnDisk(u0, LogicalDisk(s1.cache)) && Core(s0, u0)
    ensures AllPages(LogicalDisk(s1.cache), u0) == PagesFor(s0, u0)
  {
    hide Fits, FileSlots, DirSlots, Core, Sized, Counted, IsSet, LogicalDisk;
    GivenUpCounts(s0, u0, s1, u1, f);
    CoreParts(s0, u0);
    CoreParts(s1, u1);
    var d0, d1 := LogicalDisk(s0.cache), LogicalDisk(s1.cache);
    forall g | 0 <= g < INODES && g != f ensures PagesOf(d1, u0.slots[g]) == PagesOf(d0, u0.slots[g]) {
      assert PagesFor(s1, u1)[g] == PagesFor(s0, u0)[g];
    }
    forall k | 0 <= k < |u0.slots[f]| ensures d1[u0.slots[f][k]] == d0[u0.slots[f][k]] {
      var b := u0.slots[f][k];
      var g, j := NamedBy(u1, b);
      assert PagesFor(s1, u1)[g][j] == PagesFor(s0, u0)[g][j];
    }
    assert PagesOf(d1, u0.slots[f]) == PagesOf(d0, u0.slots[f]);
  }

  /** A slot that names a counted block. */
  lemma NamedBy(u: Usage, b: nat) returns (g: nat, j: nat)
    requires |u.dirs| == |u.slots| && FileSlots(u)[b] > 0
    ensures g < |u.slots| && j < |u.slots[g]| && u.slots[g][j] == b
  {
    if forall f, k :: 0 <= f < |u.slots| && 0 <= k < |u.slots[f]| ==> u.slots[f][k] != b { Unnamed(u, b); }
    g, j :| 0 <= g < |u.slots| && 0 <= j < |u.slots[g]| && u.slots[g][j] == b;
  }

  /** Copying a file onto itself gives its blocks up and counts them again. That keeps the file system valid
      exactly if every one of its blocks has references from other files, and then nothing has changed for
      the users; any other block is deleted under the file that names it. */
  lemma SelfCopied(s0: Fs, u0: Usage, s1: Fs, u1: Usage, f: nat)
    requires GivenUp(s0, u0, s1, u1, f)
    ensures forall k :: 0 <= k < |u0.slots[f]| ==> u0.slots[f][k] < |s1.refs|
    ensures var s2 := Recounted(s1, u0, f);
      && (FsInv(s2, u0) <==> OthersHave(s0.refs, u0.slots[f]))
      && (FsInv(s2, u0) ==> Core(s2, u0) && Core(s0, u0) && PagesFor(s2, u0) == PagesFor(s0, u0))
  {
    hide Fits, FileSlots, DirSlots, Core, Acc, Linked, RawOk, Roots, CacheInv, Sized, Counted, IsSet, LogicalDisk, GivenUp;
    GivenUpCounts(s0, u0, s1, u1, f);
    assert FsInv(s0, u0) && Core(s1, u1) && s1.inodes == s0.inodes && s1.ibmap == s0.ibmap && |u1.dirs| == |u1.slots| && f < |u0.slots| by { GivenUpParts(s0, u0, s1, u1, f); }
    InvParts(s0, u0);
    CoreParts(s0, u0);
    CoreParts(s1, u1);
    var s2 := Recounted(s1, u0, f);
    if OthersHave(s0.refs, u0.slots[f]) {
      RecountedAcc(s0, u0, s1, u1, f);
      LinkedOther(s0, s2, u0);
      RootsOther(s0, s2, u0);
      RawKeeps(s1.cache, u1, u0);
      CorePut(s2, u0);
      CoreOnDisk(s2, u0);
      InvCache(s0, u0, s2);
      RecountedPages(s0, u0, s1, u1, f);
    } else {
      RecountedBreaks(s0, u0, s1, u1, f);
    }
  }

  lemma GivenUpParts(s0: Fs, u0: Usage, s1: Fs, u1: Usage, f: nat)
    requires GivenUp(s0, u0, s1, u1, f)
    ensures FsInv(s0, u0) && Core(s1, u1) && s1.inodes == s0.inodes && s1.ibmap == s0.ibmap && |u1.dirs| == |u1.slots| == |u0.dirs| == |u0.slots|
    ensures f < |u0.slots|
  {
    hide Core, Fits, Sized, Counted;
  }

  // ---------- A directory appended to a file ----------

  /** The inode with some blocks in its slots from `n` on. */
  function WithBlocks(i: Inode, n: nat, blocks: seq<nat>): (r: Inode)
    requires n + |blocks| <= |i.blocks|
    ensures |r.blocks| == |i.blocks|
  {
    i.(blocks := i.blocks[..n] + blocks + i.blocks[n + |blocks|..])
  }

  /** Inode `f` names some blocks in its slots from `n` on, and they are counted once more. */
  function SharedRaw(s: Fs, f: nat, n: nat, blocks: seq<nat>): (r: Fs)
    requires f < |s.inodes| && n + |blocks| <= |s.inodes[f].blocks| && forall k :: 0 <= k < |blocks| ==> blocks[k] < |s.refs|
    ensures |r.inodes| == |s.inodes| && |r.refs| == |s.refs|
  {
    s.(inodes := s.inodes[f := WithBlocks(s.inodes[f], n, blocks)], refs := RefsUp(s.refs, blocks))
  }

  lemma SharedRawNext(s: Fs, f: nat, n: nat, blocks: seq<nat>, a: nat)
    requires a < |blocks| && f < |s.inodes| && n + |blocks| <= |s.inodes[f].blocks| && forall k :: 0 <= k < |blocks| ==> blocks[k] < |s.refs|
    ensures var s1, b := SharedRaw(s, f, n, blocks[..a]), blocks[a];
      SharedRaw(s, f, n, blocks[..a + 1]) == SetBlock(s1, f, n + a, b).(refs := s1.refs[b := Up(s1.refs[b])])
  {
    RefsUpNext(s.refs, blocks, a);
    var i, j := WithBlocks(s.inodes[f], n, blocks[..a]), WithBlocks(s.inodes[f], n, blocks[..a + 1]);
    assert WithBlock(i, n + a, blocks[a]).blocks == j.blocks;
  }

  /** One block more. */
  lemma SharedRawStep(s: Fs, v: Usage, f: nat, g: nat, a: nat)
    requires f < |v.slots| && g < |v.slots| && f != g && a < |v.slots[g]| && |v.slots[f]| + |v.slots[g]| <= INODE_NUM_BLKS
    requires f < |s.inodes| && |s.inodes[f].blocks| == INODE_NUM_BLKS && forall k :: 0 <= k < |v.slots[g]| ==> v.slots[g][k] < |s.refs|
    requires var s1, v1 := SharedRaw(s, f, |v.slots[f]|, v.slots[g][..a]), SetSlots(v, f, v.slots[f] + v.slots[g][..a]);
      Core(s1, v1) && IsType(s1, f, FS_FILE) && IsType(s1, g, FS_FILE)
    ensures var s2, v2 := SharedRaw(s, f, |v.slots[f]|, v.slots[g][..a + 1]), SetSlots(v, f, v.slots[f] + v.slots[g][..a + 1]);
      Core(s2, v2) && IsType(s2, f, FS_FILE) && IsType(s2, g, FS_FILE)
  {
    hide Core, IsSet, RefsUp, Up, SharedRaw, SetBlock, LogicalDisk;
    var x, y := v.slots[f], v.slots[g];
    var s1, v1 := SharedRaw(s, f, |x|, y[..a]), SetSlots(v, f, x + y[..a]);
    ShareSlot(s1, v1, f, g, a);
    SharedRawNext(s, f, |x|, y, a);
    assert x + y[..a] + [y[a]] == x + y[..a + 1];
    assert SetSlots(v1, f, v1.slots[f] + [y[a]]).slots == v.slots[f := x + y[..a + 1]];
  }

  /** Sharing the blocks of a file one after the other keeps the account up to wrapping. */
  lemma {:induction false} SharedRawCore(s: Fs, v: Usage, f: nat, g: nat, a: nat)
    requires Core(s, v) && IsType(s, f, FS_FILE) && IsType(s, g, FS_FILE) && f != g && f < |v.slots| && g < |v.slots|
    requires a <= |v.slots[g]| && |v.slots[f]| + |v.slots[g]| <= INODE_NUM_BLKS
    ensures |s.inodes[f].blocks| == INODE_NUM_BLKS && forall k :: 0 <= k < |v.slots[g]| ==> v.slots[g][k] < |s.refs|
    ensures var s1, v1 := SharedRaw(s, f, |v.slots[f]|, v.slots[g][..a]), SetSlots(v, f, v.slots[f] + v.slots[g][..a]);
      Core(s1, v1) && IsType(s1, f, FS_FILE) && IsType(s1, g, FS_FILE)
    decreases a
  {
    hide Core, IsSet, RefsUp, SharedRaw, LogicalDisk, Acc;
    CoreParts(s, v);
    AccShape(s.bmap, s.refs, v);
    LinkedAt(s, v, f);
    LinkedAt(s, v, g);
    var x, y := v.slots[f], v.slots[g];
    if a == 0 {
      SharedRawNone(s, f, |x|);
      assert x + y[..0] == x && y[..0] == [];
      assert v.slots[f := x] == v.slots;
    } else {
      SharedRawCore(s, v, f, g, a - 1);
      SharedRawStep(s, v, f, g, a - 1);
    }
  }

  /** The first `a` blocks of inode `g` of state `s` are named by `f` too. */
  ghost predicate IsSharedRaw(s: Fs, v: Usage, s1: Fs, u1: Usage, f: nat, g: nat, a: nat)
    requires f < |v.slots| && g < |v.slots| && a <= |v.slots[g]|
  {
    && f < |s.inodes| && |v.slots[f]| + a <= |s.inodes[f].blocks| && (forall k :: 0 <= k < |v.slots[g]| ==> v.slots[g][k] < |s.refs|)
    && u1 == SetSlots(v, f, v.slots[f] + v.slots[g][..a]) && s1 == SharedRaw(s, f, |v.slots[f]|, v.slots[g][..a])
  }

  /** What an append of an inode that is no file leaves. */
  ghost predicate IsAppendedRaw(s: Fs, s': Fs, f: nat, g: nat, x: seq<nat>, y: seq<nat>) {
    && f < |s.inodes| && g < |s.inodes| && |x| + |y| <= |s.inodes[f].blocks| && (forall k :: 0 <= k < |y| ==> y[k] < |s.refs|)
    && s' == Resized(SharedRaw(s, f, |x|, y), f, s.inodes[f].size + s.inodes[g].size)
  }

  lemma SharedRawNone(s: Fs, f: nat, n: nat)
    requires f < |s.inodes| && n <= |s.inodes[f].blocks|
    ensures SharedRaw(s, f, n, []) == s
  {
    assert WithBlocks(s.inodes[f], n, []).blocks == s.inodes[f].blocks;
  }

  /** Blocks of a directory that a file names too break the account, whatever the tables say. */
  lemma DirShareBreaks(s: Fs, u: Usage, f: nat, g: nat, s': Fs)
    requires Core(s, u) && IsType(s, f, FS_FILE) && IsType(s, g, FS_DIR) && f < |u.slots| && g < |u.slots| && u.slots[g] != []
    ensures !Core(s', SetSlots(u, f, u.slots[f] + u.slots[g]))
  {
    hide FileSlots, DirSlots, Linked, RawOk, Roots, CacheInv, IsSet, BitsOk, RefsOk;
    FileOnly(s, u, f);
    LinkedAt(s, u, g);
    CoreParts(s, u);
    var u' := SetSlots(u, f, u.slots[f] + u.slots[g]);
    SlotCounted(u', g, 0);
    SlotCounted(u', f, |u.slots[f]|);
    assert u'.slots[f][|u.slots[f]|] == u'.slots[g][0];
    assert !DirsAlone(u');
  }

  /** The first `a` blocks of `g`, whatever its type, were named behind those of file `f` since state `s`. */
  ghost predicate Joining(s: Fs, v: Usage, s1: Fs, u1: Usage, f: nat, g: nat, a: nat) {
    && FsInv(s, v) && IsType(s, f, FS_FILE) && f < |v.slots| && g < |v.slots| && a <= |v.slots[g]| && |v.slots[f]| + |v.slots[g]| <= INODE_NUM_BLKS
    && if IsType(s, g, FS_FILE) then Core(s1, u1) && Appending(s, v, s1, u1, f, g, a)
       else IsSharedRaw(s, v, s1, u1, f, g, a)
  }

  lemma JoiningNext(s: Fs, v: Usage, s1: Fs, u1: Usage, f: nat, g: nat, a: nat)
    requires Joining(s, v, s1, u1, f, g, a) && a < |v.slots[g]| && f < |u1.slots|
    requires Formed(s1) && f < INODES && g < INODES && |v.slots[f]| + a < INODE_NUM_BLKS && v.slots[g][a] < |s1.refs|
    ensures var b := v.slots[g][a];
      Joining(s, v, SetBlock(s1, f, |v.slots[f]| + a, b).(refs := s1.refs[b := Up(s1.refs[b])]), SetSlots(u1, f, u1.slots[f] + [b]), f, g, a + 1)
  {
    hide Core, Fits, LogicalDisk, FsInv, IsSet, Appending, RefsUp, Up, SharedRaw, SetBlock, PagesFor, SameButBlocks, Sized, Counted, FsModulo;
    var x, y := v.slots[f], v.slots[g];
    var b := y[a];
    var s2, u2 := SetBlock(s1, f, |x| + a, b).(refs := s1.refs[b := Up(s1.refs[b])]), SetSlots(u1, f, u1.slots[f] + [b]);
    InvParts(s, v);
    if IsType(s, g, FS_FILE) {
      AppendingParts(s, v, s1, u1, f, g, a);
      ShareSlot(s1, u1, f, g, a);
      PagesCount(s1, u1);
      AppendingStep(s, v, s1, u1, s2, u2, f, g, a);
    } else {
      assert x + y[..a] + [y[a]] == x + y[..a + 1];
      SharedRawNext(s, f, |x|, y, a);
    }
  }

  /** The first `i` blocks of file `g` were named by file `f`, which had none, since state `s`. */
  ghost predicate Copying(s: Fs, v: Usage, ps: seq<Pages>, s2: Fs, u2: Usage, g: nat, f: nat, i: nat) {
    && Core(s2, u2) && Core(s, v) && |u2.slots| == |v.slots| == |ps| == |PagesFor(s2, u2)| && f < |v.slots| && g < |v.slots| && g != f
    && IsType(s2, f, FS_FILE) && IsType(s2, g, FS_FILE) && SameButBlocks(s, s2, f) && u2.dirs == v.dirs
    && i <= |v.slots[g]| == |ps[g]| && u2 == SetSlots(v, f, v.slots[g][..i]) && PagesFor(s2, u2)[f] == ps[g][..i]
    && forall h :: 0 <= h < |u2.slots| && h != f ==> PagesFor(s2, u2)[h] == ps[h]
  }

  lemma CopyingNext(s: Fs, v: Usage, ps: seq<Pages>, s2: Fs, u2: Usage, g: nat, f: nat, i: nat)
    requires Copying(s, v, ps, s2, u2, g, f, i) && FsInv(s, v) && i < |v.slots[g]| && i < |s2.inodes[f].blocks| && v.slots[g][i] < |s2.refs|
    ensures var b := v.slots[g][i];
      Copying(s, v, ps, SetBlock(s2, f, i, b).(refs := s2.refs[b := Up(s2.refs[b])]), SetSlots(u2, f, u2.slots[f] + [b]), g, f, i + 1)
  {
    hide Core, Fits, LogicalDisk, Sized, Counted, IsSet, Up, PagesFor, SameButBlocks, FsModulo;
    var b := v.slots[g][i];
    InvParts(s, v);
    CoreParts(s2, u2);
    LinkedAt(s, v, g);
    ShareSlot(s2, u2, f, g, i);
    SameTrans(s, s2, SharedWith(s2, u2, f, b), f);
    assert v.slots[g][..i + 1] == v.slots[g][..i] + [b];
    assert ps[g][..i + 1] == ps[g][..i] + [ps[g][i]];
  }
}
