/** Who uses which block: the free-block bitmap and the reference counts against the block slots of
    the inodes. */
module Accounting {
  import opened Bitmap

  const INODES: nat := 64
  const INODE_NUM_BLKS: nat := 10
  const NUM_BLOCOS_MAX: nat := 640
  const FIRST_DATA: nat := 10
  const BMAP_BITS: nat := 4096

  /** A reference count is one signed byte. */
  type Char = x: int | -128 <= x < 128

  const CHAR_MAX: nat := 127

  /** The byte that a number leaves: it wraps around at 256. */
  function Wrap(n: int): Char {
    (n + 128) % 256 - 128
  }

  function Up(c: Char): (r: Char)
    ensures c < CHAR_MAX ==> r == c + 1
  {
    var n: int := c;
    Wrap(n + 1)
  }

  function Down(c: Char): (r: Char)
    ensures c > -128 ==> r == c - 1
  {
    var n: int := c;
    Wrap(n - 1)
  }

  lemma WrapSteps(n: int)
    ensures Up(Wrap(n)) == Wrap(n + 1) && Down(Wrap(n)) == Wrap(n - 1)
    ensures -128 <= n <= CHAR_MAX ==> Wrap(n) == n
  {
  }

  /** For every inode: whether it is a directory, and the blocks in its slots in use. */
  datatype Usage = Usage(dirs: seq<bool>, slots: seq<seq<nat>>)

  /** All slots together. */
  function Sum(ss: seq<seq<nat>>): multiset<nat> {
    if ss == [] then multiset{} else multiset(ss[0]) + Sum(ss[1..])
  }

  /** The slots of the directories only, or of the files only. */
  function Only(u: Usage, dir: bool): (r: seq<seq<nat>>)
    requires |u.dirs| == |u.slots|
    ensures |r| == |u.slots|
  {
    seq(|u.slots|, f requires 0 <= f < |u.slots| => if u.dirs[f] == dir then u.slots[f] else [])
  }

  function FileSlots(u: Usage): multiset<nat>
    requires |u.dirs| == |u.slots|
  {
    Sum(Only(u, false))
  }

  function DirSlots(u: Usage): multiset<nat>
    requires |u.dirs| == |u.slots|
  {
    Sum(Only(u, true))
  }

  predicate Shaped(u: Usage) {
    |u.dirs| == |u.slots| == INODES && forall f :: 0 <= f < INODES ==> |u.slots[f]| <= INODE_NUM_BLKS
  }

  predicate InRange(slots: seq<seq<nat>>) {
    forall f, k :: 0 <= f < |slots| && 0 <= k < |slots[f]| ==> FIRST_DATA <= slots[f][k] < NUM_BLOCOS_MAX
  }

  /** A block is taken if it holds metadata or some slot names it. */
  predicate BitsOk(bmap: Bits, u: Usage)
    requires |u.dirs| == |u.slots|
  {
    8 * |bmap| == BMAP_BITS &&
    forall b :: 0 <= b < BMAP_BITS ==> (IsSet(bmap, b) <==> b < FIRST_DATA || FileSlots(u)[b] > 0 || DirSlots(u)[b] > 0)
  }

  /** The reference count of a block is the number of file slots that name it, as far as a byte can tell. */
  predicate RefsOk(refs: seq<Char>, u: Usage)
    requires |u.dirs| == |u.slots|
  {
    forall b :: 0 <= b < |refs| ==> refs[b] == Wrap(FileSlots(u)[b])
  }

  /** No block is named by more file slots than its count can hold, so the count is their number. */
  ghost predicate Fits(u: Usage)
    requires |u.dirs| == |u.slots|
  {
    forall b: nat :: FileSlots(u)[b] <= CHAR_MAX
  }

  /** A directory's block is in no other slot. */
  ghost predicate DirsAlone(u: Usage)
    requires |u.dirs| == |u.slots|
  {
    forall b: nat :: DirSlots(u)[b] <= 1 && (DirSlots(u)[b] == 1 ==> FileSlots(u)[b] == 0)
  }

  ghost predicate Acc(bmap: Bits, refs: seq<Char>, u: Usage) {
    && Shaped(u) && InRange(u.slots) && |refs| >= NUM_BLOCOS_MAX
    && BitsOk(bmap, u) && RefsOk(refs, u) && DirsAlone(u)
  }

  predicate Distinct(s: seq<nat>) {
    forall i, j :: 0 <= i < j < |s| ==> s[i] != s[j]
  }

  /** No inode lists a block twice. */
  predicate NoRepeat(u: Usage) {
    forall f :: 0 <= f < |u.slots| ==> Distinct(u.slots[f])
  }

  function SetSlots(u: Usage, f: nat, s: seq<nat>): Usage
    requires f < |u.slots|
  {
    u.(slots := u.slots[f := s])
  }

  // ---------- Sums ----------

  lemma {:induction false} SumUpdate(ss: seq<seq<nat>>, f: nat, s: seq<nat>)
    requires f < |ss|
    ensures Sum(ss[f := s]) + multiset(ss[f]) == Sum(ss) + multiset(s)
  {
    if f == 0 {
      assert ss[f := s][1..] == ss[1..];
    } else {
      SumUpdate(ss[1..], f - 1, s);
      assert ss[f := s][1..] == ss[1..][f - 1 := s];
      var h, a, b, c, d := multiset(ss[0]), Sum(ss[1..][f - 1 := s]), multiset(ss[f]), Sum(ss[1..]), multiset(s);
      assert a + b == c + d;
      assert h + a + b == h + (a + b) == h + c + d;
    }
  }

  lemma SetSlotsOnly(u: Usage, f: nat, s: seq<nat>, dir: bool)
    requires |u.dirs| == |u.slots| && f < |u.slots|
    ensures Only(SetSlots(u, f, s), dir) == if u.dirs[f] == dir then Only(u, dir)[f := s] else Only(u, dir)
  {
  }

  /** Changing the slots of one inode changes the count of its kind by just that. */
  lemma SlotsUpdate(u: Usage, f: nat, s: seq<nat>)
    requires |u.dirs| == |u.slots| && f < |u.slots|
    ensures var u' := SetSlots(u, f, s);
      if u.dirs[f] then FileSlots(u') == FileSlots(u) && DirSlots(u') + multiset(u.slots[f]) == DirSlots(u) + multiset(s)
      else DirSlots(u') == DirSlots(u) && FileSlots(u') + multiset(u.slots[f]) == FileSlots(u) + multiset(s)
  {
    SetSlotsOnly(u, f, s, true);
    SetSlotsOnly(u, f, s, false);
    SumUpdate(Only(u, u.dirs[f]), f, s);
    assert Only(u, u.dirs[f])[f] == u.slots[f];
  }

  lemma SlotsAppend(u: Usage, f: nat, b: nat)
    requires |u.dirs| == |u.slots| && f < |u.slots|
    ensures var u' := SetSlots(u, f, u.slots[f] + [b]);
      if u.dirs[f] then FileSlots(u') == FileSlots(u) && DirSlots(u') == DirSlots(u) + multiset{b}
      else DirSlots(u') == DirSlots(u) && FileSlots(u') == FileSlots(u) + multiset{b}
  {
    SlotsUpdate(u, f, u.slots[f] + [b]);
    var u' := SetSlots(u, f, u.slots[f] + [b]);
    assert multiset(u.slots[f] + [b]) == multiset(u.slots[f]) + multiset{b};
    if u.dirs[f] {
      AddCancel(DirSlots(u'), DirSlots(u), multiset(u.slots[f]), multiset{b});
    } else {
      AddCancel(FileSlots(u'), FileSlots(u), multiset(u.slots[f]), multiset{b});
    }
  }

  lemma AddCancel(a: multiset<nat>, b: multiset<nat>, c: multiset<nat>, d: multiset<nat>)
    requires a + c == b + (c + d)
    ensures a == b + d
  {
    forall x: nat ensures a[x] == (b + d)[x] {
      assert (a + c)[x] == (b + (c + d))[x];
    }
  }

  lemma SlotsDrop(u: Usage, f: nat)
    requires |u.dirs| == |u.slots| && f < |u.slots| && u.slots[f] != []
    ensures var u', b := SetSlots(u, f, u.slots[f][1..]), u.slots[f][0];
      if u.dirs[f] then FileSlots(u') == FileSlots(u) && DirSlots(u) == DirSlots(u') + multiset{b}
      else DirSlots(u') == DirSlots(u) && FileSlots(u) == FileSlots(u') + multiset{b}
  {
    var s, b := u.slots[f], u.slots[f][0];
    var u' := SetSlots(u, f, s[1..]);
    SlotsUpdate(u, f, s[1..]);
    assert s == [b] + s[1..];
    assert multiset(s) == multiset(s[1..]) + multiset{b};
    if u.dirs[f] {
      AddCancel(DirSlots(u), DirSlots(u'), multiset(s[1..]), multiset{b});
    } else {
      AddCancel(FileSlots(u), FileSlots(u'), multiset(s[1..]), multiset{b});
    }
  }

  lemma SlotsReplace(u: Usage, f: nat, k: nat, b: nat)
    requires |u.dirs| == |u.slots| && f < |u.slots| && k < |u.slots[f]| && !u.dirs[f]
    ensures var u' := SetSlots(u, f, u.slots[f][k := b]);
      DirSlots(u') == DirSlots(u) && FileSlots(u') + multiset{u.slots[f][k]} == FileSlots(u) + multiset{b}
  {
    var s := u.slots[f];
    SlotsUpdate(u, f, s[k := b]);
    var u' := SetSlots(u, f, s[k := b]);
    ReplacedCount(s, k, b);
    var a, c, d, e := FileSlots(u'), FileSlots(u), multiset(s), multiset(s[k := b]);
    forall x: nat ensures (a + multiset{s[k]})[x] == (c + multiset{b})[x] {
      assert (a + d)[x] == (c + e)[x] && (e + multiset{s[k]})[x] == (d + multiset{b})[x];
    }
  }

  lemma ReplacedCount(s: seq<nat>, k: nat, b: nat)
    requires k < |s|
    ensures multiset(s[k := b]) + multiset{s[k]} == multiset(s) + multiset{b}
  {
    assert s == s[..k] + [s[k]] + s[k + 1..];
  }

  lemma {:induction false} SumHas(ss: seq<seq<nat>>, f: nat, k: nat)
    requires f < |ss| && k < |ss[f]|
    ensures Sum(ss)[ss[f][k]] > 0
  {
    if f == 0 {
      assert ss[0][k] in multiset(ss[0]);
    } else {
      SumHas(ss[1..], f - 1, k);
    }
  }

  /** A block in a slot is counted with the slots of that kind. */
  lemma SlotCounted(u: Usage, f: nat, k: nat)
    requires |u.dirs| == |u.slots| && f < |u.slots| && k < |u.slots[f]|
    ensures u.dirs[f] ==> DirSlots(u)[u.slots[f][k]] > 0
    ensures !u.dirs[f] ==> FileSlots(u)[u.slots[f][k]] > 0
  {
    SumHas(Only(u, u.dirs[f]), f, k);
  }

  lemma {:induction false} SumTwice(ss: seq<seq<nat>>, f: nat, k: nat, g: nat, j: nat)
    requires f < |ss| && k < |ss[f]| && g < |ss| && j < |ss[g]| && (f != g || k != j) && ss[f][k] == ss[g][j]
    ensures Sum(ss)[ss[f][k]] >= 2
  {
    if f == 0 && g == 0 {
      var lo, hi := if k < j then k else j, if k < j then j else k;
      var s := ss[0];
      assert s == s[..lo] + [s[lo]] + s[lo + 1..];
      assert s[lo + 1..][hi - lo - 1] == s[hi];
      assert multiset(s[lo + 1..])[s[hi]] > 0;
    } else if f == 0 {
      assert ss[0][k] in multiset(ss[0]);
      SumHas(ss[1..], g - 1, j);
    } else if g == 0 {
      assert ss[0][j] in multiset(ss[0]);
      SumHas(ss[1..], f - 1, k);
    } else {
      SumTwice(ss[1..], f - 1, k, g - 1, j);
    }
  }

  lemma {:induction false} SumLacks(ss: seq<seq<nat>>, b: nat)
    requires forall f, k :: 0 <= f < |ss| && 0 <= k < |ss[f]| ==> ss[f][k] != b
    ensures Sum(ss)[b] == 0
  {
    if ss != [] {
      assert b !in ss[0];
      var rest: seq<seq<nat>> := ss[1..];
      forall f, k | 0 <= f < |rest| && 0 <= k < |rest[f]| ensures rest[f][k] != b { assert rest[f] == ss[f + 1]; }
      SumLacks(rest, b);
    }
  }

  /** A block in no slot is not counted. */
  lemma Unnamed(u: Usage, b: nat)
    requires |u.dirs| == |u.slots| && forall f, k :: 0 <= f < |u.slots| && 0 <= k < |u.slots[f]| ==> u.slots[f][k] != b
    ensures FileSlots(u)[b] == 0 && DirSlots(u)[b] == 0
  {
    SumLacks(Only(u, false), b);
    SumLacks(Only(u, true), b);
  }

  lemma CountIs(bmap: Bits, refs: seq<Char>, u: Usage, b: nat)
    requires Acc(bmap, refs, u) && Fits(u) && b < |refs|
    ensures refs[b] == FileSlots(u)[b]
  {
    assert FileSlots(u)[b] <= CHAR_MAX;
  }

  /** A block that two slots name has at least two references, or else a directory is not alone. */
  lemma SharedCounted(bmap: Bits, refs: seq<Char>, u: Usage, f: nat, k: nat, g: nat, j: nat)
    requires Acc(bmap, refs, u) && Fits(u)
    requires f < INODES && !u.dirs[f] && k < |u.slots[f]| && g < INODES && j < |u.slots[g]| && (f != g || k != j) && u.slots[f][k] == u.slots[g][j]
    ensures !u.dirs[g] && refs[u.slots[f][k]] >= 2
  {
    SlotCounted(u, f, k);
    SlotCounted(u, g, j);
    CountIs(bmap, refs, u, u.slots[f][k]);
    if !u.dirs[g] { SumTwice(Only(u, false), f, k, g, j); }
  }

  /** No other slot names the block of this one. */
  predicate Alone(u: Usage, f: nat, k: nat)
    requires f < |u.slots| && k < |u.slots[f]|
  {
    forall g, j :: 0 <= g < |u.slots| && 0 <= j < |u.slots[g]| && (g != f || j != k) ==> u.slots[g][j] != u.slots[f][k]
  }

  lemma {:induction false} SumOnce(ss: seq<seq<nat>>, f: nat, k: nat)
    requires f < |ss| && k < |ss[f]| && forall g, j :: 0 <= g < |ss| && 0 <= j < |ss[g]| && (g != f || j != k) ==> ss[g][j] != ss[f][k]
    ensures Sum(ss)[ss[f][k]] == 1
  {
    var b, rest: seq<seq<nat>> := ss[f][k], ss[1..];
    forall g, j | 0 <= g < |rest| && 0 <= j < |rest[g]| ensures rest[g][j] == ss[g + 1][j] { }
    if f == 0 {
      var s := ss[0];
      assert s == s[..k] + [b] + s[k + 1..];
      var tail := s[k + 1..];
      assert forall j :: 0 <= j < |tail| ==> tail[j] == s[k + 1 + j];
      assert b !in s[..k] && b !in tail;
      SumLacks(rest, b);
    } else {
      assert b !in ss[0];
      SumOnce(rest, f - 1, k);
    }
  }

  /** A file's block is in one slot alone exactly if one file slot names it. */
  lemma AloneCount(bmap: Bits, refs: seq<Char>, u: Usage, f: nat, k: nat)
    requires Acc(bmap, refs, u) && f < INODES && !u.dirs[f] && k < |u.slots[f]|
    ensures Alone(u, f, k) <==> FileSlots(u)[u.slots[f][k]] == 1
  {
    hide IsSet, BitsOk, RefsOk;
    SlotCounted(u, f, k);
    if Alone(u, f, k) {
      SumOnce(Only(u, false), f, k);
    } else {
      var g, j :| 0 <= g < |u.slots| && 0 <= j < |u.slots[g]| && (g != f || j != k) && u.slots[g][j] == u.slots[f][k];
      SlotCounted(u, g, j);
      if !u.dirs[g] { SumTwice(Only(u, false), f, k, g, j); }
    }
  }

  // ---------- Changes that keep the account ----------

  /** Taking a free block for a new slot. */
  lemma ReserveAcc(bmap: Bits, refs: seq<Char>, u: Usage, f: nat, b: nat)
    requires Acc(bmap, refs, u) && f < INODES && |u.slots[f]| < INODE_NUM_BLKS
    requires FIRST_DATA <= b < NUM_BLOCOS_MAX && !IsSet(bmap, b)
    ensures refs[b] == 0
    ensures Acc(SetBit(bmap, b), if u.dirs[f] then refs else refs[b := Up(refs[b])], SetSlots(u, f, u.slots[f] + [b]))
    ensures Fits(u) ==> Fits(SetSlots(u, f, u.slots[f] + [b]))
  {
    hide IsSet, SetBit, Only, Wrap, Up, FileSlots, DirSlots;
    WrapSteps(0);
    SlotsAppend(u, f, b);
    forall m | 0 <= m < BMAP_BITS ensures IsSet(SetBit(bmap, b), m) <==> m == b || IsSet(bmap, m) { SetOnly(bmap, b, m); }
  }

  /** A slot whose block has a count other than 0 and 1 gets a free block instead. */
  lemma ReplaceAcc(bmap: Bits, refs: seq<Char>, u: Usage, f: nat, k: nat, b: nat)
    requires Acc(bmap, refs, u) && f < INODES && !u.dirs[f] && k < |u.slots[f]| && refs[u.slots[f][k]] != 0 && refs[u.slots[f][k]] != 1
    requires FIRST_DATA <= b < NUM_BLOCOS_MAX && !IsSet(bmap, b)
    ensures var o := u.slots[f][k];
      && o != b && refs[b] == 0 && FileSlots(u)[o] > 1
      && Acc(SetBit(bmap, b), refs[b := Up(refs[b])][o := Down(refs[o])], SetSlots(u, f, u.slots[f][k := b]))
      && (Fits(u) ==> Fits(SetSlots(u, f, u.slots[f][k := b])))
  {
    hide IsSet, SetBit, Only, Wrap, Up, Down, FileSlots, DirSlots;
    WrapSteps(0);
    WrapSteps(1);
    var o := u.slots[f][k];
    SlotsReplace(u, f, k, b);
    SlotCounted(u, f, k);
    var u' := SetSlots(u, f, u.slots[f][k := b]);
    WrapSteps(FileSlots(u)[o]);
    assert o != b;
    forall m: nat ensures FileSlots(u')[m] == FileSlots(u)[m] + (if m == b then 1 else 0) - (if m == o then 1 else 0) {
      assert (FileSlots(u') + multiset{o})[m] == (FileSlots(u) + multiset{b})[m];
    }
    forall m | 0 <= m < BMAP_BITS ensures IsSet(SetBit(bmap, b), m) <==> m == b || IsSet(bmap, m) { SetOnly(bmap, b, m); }
  }

  /** One more slot names a block that some file has. The count still tells how many there are exactly if
      there was room for one more in its byte. */
  lemma ShareAcc(bmap: Bits, refs: seq<Char>, u: Usage, f: nat, b: nat)
    requires Acc(bmap, refs, u) && f < INODES && !u.dirs[f] && |u.slots[f]| < INODE_NUM_BLKS
    requires FIRST_DATA <= b < NUM_BLOCOS_MAX && FileSlots(u)[b] > 0
    ensures Acc(bmap, refs[b := Up(refs[b])], SetSlots(u, f, u.slots[f] + [b]))
    ensures Fits(u) ==> (Fits(SetSlots(u, f, u.slots[f] + [b])) <==> refs[b] < CHAR_MAX)
  {
    hide IsSet, Only, Wrap, Up, FileSlots, DirSlots;
    WrapSteps(FileSlots(u)[b]);
    SlotsAppend(u, f, b);
    var u' := SetSlots(u, f, u.slots[f] + [b]);
    assert FileSlots(u')[b] == FileSlots(u)[b] + 1;
    assert forall m: nat :: m != b ==> FileSlots(u')[m] == FileSlots(u)[m];
    if Fits(u) { CountIs(bmap, refs, u, b); }
  }

  /** A slot is given up: a shared block loses a reference, any other is freed. */
  lemma DropAcc(bmap: Bits, refs: seq<Char>, u: Usage, f: nat)
    requires Acc(bmap, refs, u) && Fits(u) && f < INODES && u.slots[f] != []
    ensures var b := u.slots[f][0];
      if refs[b] > 1 then Acc(bmap, refs[b := Down(refs[b])], SetSlots(u, f, u.slots[f][1..]))
      else Acc(ClrBit(bmap, b), refs[b := 0], SetSlots(u, f, u.slots[f][1..]))
    ensures Fits(SetSlots(u, f, u.slots[f][1..]))
  {
    hide IsSet, ClrBit, Only, Wrap, Down, FileSlots, DirSlots;
    WrapSteps(0);
    var b := u.slots[f][0];
    var u' := SetSlots(u, f, u.slots[f][1..]);
    SlotsDrop(u, f);
    SlotCounted(u, f, 0);
    CountIs(bmap, refs, u, b);
    WrapSteps(FileSlots(u)[b]);
    assert forall m: nat :: m != b ==> FileSlots(u')[m] == FileSlots(u)[m] && DirSlots(u')[m] == DirSlots(u)[m];
    assert refs[b] <= 1 ==> FileSlots(u')[b] == 0 && DirSlots(u')[b] == 0;
    assert InRange(u'.slots);
    forall m | 0 <= m < BMAP_BITS ensures IsSet(ClrBit(bmap, b), m) <==> m != b && IsSet(bmap, m) { ClrOnly(bmap, b, m); }
  }

  lemma SlotsDropLast(u: Usage, f: nat)
    requires |u.dirs| == |u.slots| && f < |u.slots| && u.slots[f] != [] && u.dirs[f]
    ensures var n := |u.slots[f]| - 1;
      var u', b := SetSlots(u, f, u.slots[f][..n]), u.slots[f][n];
      FileSlots(u') == FileSlots(u) && DirSlots(u) == DirSlots(u') + multiset{b}
  {
    var s, n := u.slots[f], |u.slots[f]| - 1;
    var u' := SetSlots(u, f, s[..n]);
    SlotsUpdate(u, f, s[..n]);
    assert s == s[..n] + [s[n]];
    assert multiset(s) == multiset(s[..n]) + multiset{s[n]};
    AddCancel(DirSlots(u), DirSlots(u'), multiset(s[..n]), multiset{s[n]});
  }

  /** The last block of a directory is freed. */
  lemma DropLastAcc(bmap: Bits, refs: seq<Char>, u: Usage, f: nat)
    requires Acc(bmap, refs, u) && f < INODES && u.slots[f] != [] && u.dirs[f]
    ensures var n := |u.slots[f]| - 1;
      var b := u.slots[f][n];
      refs[b] == 0 && Acc(ClrBit(bmap, b), refs[b := 0], SetSlots(u, f, u.slots[f][..n])) && (Fits(u) ==> Fits(SetSlots(u, f, u.slots[f][..n])))
  {
    hide IsSet, ClrBit, Only;
    var n := |u.slots[f]| - 1;
    var b := u.slots[f][n];
    var u' := SetSlots(u, f, u.slots[f][..n]);
    SlotsDropLast(u, f);
    SlotCounted(u, f, n);
    assert forall m: nat :: m != b ==> DirSlots(u')[m] == DirSlots(u)[m];
    assert FileSlots(u)[b] == 0 && DirSlots(u')[b] == 0;
    assert InRange(u'.slots);
    forall m | 0 <= m < BMAP_BITS ensures IsSet(ClrBit(bmap, b), m) <==> m != b && IsSet(bmap, m) { ClrOnly(bmap, b, m); }
  }

  // ---------- Pigeonhole ----------

  lemma {:induction false} SumSize(ss: seq<seq<nat>>)
    requires forall f :: 0 <= f < |ss| ==> |ss[f]| <= INODE_NUM_BLKS
    ensures |Sum(ss)| <= INODE_NUM_BLKS * |ss|
  {
    if ss != [] {
      SumSize(ss[1..]);
    }
  }

  lemma {:induction false} ManyNames(m: multiset<nat>, lo: nat, hi: nat)
    requires lo <= hi && forall b :: lo <= b < hi ==> m[b] > 0
    ensures |m| >= hi - lo
    decreases hi
  {
    if lo < hi {
      ManyNames(m[hi - 1 := 0], lo, hi - 1);
      assert m == m[hi - 1 := 0] + multiset{hi - 1}[hi - 1 := m[hi - 1]];
      assert |multiset{hi - 1}[hi - 1 := m[hi - 1]]| == m[hi - 1];
    }
  }

  lemma OnlySize(u: Usage)
    requires Shaped(u) && u.slots[0] == [] && |u.slots[1]| < INODE_NUM_BLKS
    ensures |Sum(u.slots)| < NUM_BLOCOS_MAX - FIRST_DATA
  {
    var ss := u.slots;
    assert Sum(ss) == multiset(ss[0]) + Sum(ss[1..]);
    assert Sum(ss[1..]) == multiset(ss[1]) + Sum(ss[1..][1..]);
    assert ss[1..][1..] == ss[2..];
    var rest: seq<seq<nat>> := ss[2..];
    forall f | 0 <= f < |rest| ensures |rest[f]| <= INODE_NUM_BLKS { assert rest[f] == ss[f + 2]; }
    SumSize(rest);
  }

  lemma OnlyTail(dirs: seq<bool>, ss: seq<seq<nat>>, dir: bool)
    requires |dirs| == |ss| > 0
    ensures Only(Usage(dirs, ss), dir)[1..] == Only(Usage(dirs[1..], ss[1..]), dir)
    ensures Only(Usage(dirs, ss), dir)[0] == if dirs[0] == dir then ss[0] else []
  {
  }

  lemma AddHeads(a: multiset<nat>, x: multiset<nat>, b: multiset<nat>, y: multiset<nat>, c: multiset<nat>, z: multiset<nat>)
    requires a + b == c && x + y == z
    ensures (a + x) + (b + y) == c + z
  {
  }

  lemma {:induction false} SumSplit(dirs: seq<bool>, ss: seq<seq<nat>>)
    requires |dirs| == |ss|
    ensures Sum(Only(Usage(dirs, ss), false)) + Sum(Only(Usage(dirs, ss), true)) == Sum(ss)
  {
    hide Only;
    if ss != [] {
      SumSplit(dirs[1..], ss[1..]);
      var a, b := Only(Usage(dirs, ss), false), Only(Usage(dirs, ss), true);
      OnlyTail(dirs, ss, false);
      OnlyTail(dirs, ss, true);
      AddHeads(multiset(a[0]), Sum(a[1..]), multiset(b[0]), Sum(b[1..]), multiset(ss[0]), Sum(ss[1..]));
    }
  }

  /** However the blocks are shared, 64 inodes of which the first has no block and the second not all
      ten leave a free block among the first 640. */
  lemma SomeFree(bmap: Bits, refs: seq<Char>, u: Usage) returns (b: nat)
    requires Acc(bmap, refs, u) && u.slots[0] == [] && |u.slots[1]| < INODE_NUM_BLKS
    ensures FIRST_DATA <= b < NUM_BLOCOS_MAX && !IsSet(bmap, b)
  {
    hide IsSet, Only;
    OnlySize(u);
    SumSplit(u.dirs, u.slots);
    assert Usage(u.dirs, u.slots) == u;
    if forall b :: FIRST_DATA <= b < NUM_BLOCOS_MAX ==> Sum(u.slots)[b] > 0 {
      ManyNames(Sum(u.slots), FIRST_DATA, NUM_BLOCOS_MAX);
    }
    b :| FIRST_DATA <= b < NUM_BLOCOS_MAX && Sum(u.slots)[b] == 0;
    assert FileSlots(u)[b] + DirSlots(u)[b] == Sum(u.slots)[b];
  }

  /** If no inode lists a block twice, a block has at most one reference from every file, so the counts
      fit a signed character. */
  lemma RefsFit(u: Usage)
    requires Shaped(u) && NoRepeat(u) && u.slots[0] == [] && u.dirs[1]
    ensures Fits(u) && forall b: nat :: FileSlots(u)[b] <= INODES - 2
  {
    hide Only;
    forall b: nat ensures FileSlots(u)[b] <= INODES - 2 { OnePerFile(u, b); }
  }

  lemma OnePerFile(u: Usage, b: nat)
    requires Shaped(u) && NoRepeat(u) && u.slots[0] == [] && u.dirs[1]
    ensures FileSlots(u)[b] <= INODES - 2
  {
    var ss := Only(u, false);
    assert Sum(ss) == multiset(ss[0]) + Sum(ss[1..]);
    assert Sum(ss[1..]) == multiset(ss[1]) + Sum(ss[1..][1..]);
    assert ss[1..][1..] == ss[2..];
    OncePerInode(ss[2..], b);
  }

  // ---------- Room in the counts ----------

  /** The counts have room for the slots `gained`, once the slots `lost` are given up. */
  predicate Room(refs: seq<Char>, lost: seq<nat>, gained: seq<nat>) {
    forall i :: 0 <= i < |gained| ==>
      gained[i] < |refs| && refs[gained[i]] - multiset(lost)[gained[i]] + multiset(gained)[gained[i]] <= CHAR_MAX
  }

  /** If the counts are right, they still are with other slots for file `f` exactly if they have room. */
  lemma RoomExactly(bmap: Bits, refs: seq<Char>, u: Usage, f: nat, slots: seq<nat>)
    requires Acc(bmap, refs, u) && Fits(u) && f < INODES && !u.dirs[f] && forall k :: 0 <= k < |slots| ==> slots[k] < |refs|
    ensures Fits(SetSlots(u, f, slots)) <==> Room(refs, u.slots[f], slots)
  {
    hide IsSet, Only, FileSlots, DirSlots;
    SlotsUpdate(u, f, slots);
    var u' := SetSlots(u, f, slots);
    forall b: nat ensures FileSlots(u')[b] + multiset(u.slots[f])[b] == FileSlots(u)[b] + multiset(slots)[b] {
      assert (FileSlots(u') + multiset(u.slots[f]))[b] == (FileSlots(u) + multiset(slots))[b];
    }
    forall k | 0 <= k < |slots| ensures refs[slots[k]] == FileSlots(u)[slots[k]] { CountIs(bmap, refs, u, slots[k]); }
    if Room(refs, u.slots[f], slots) {
      forall b: nat ensures FileSlots(u')[b] <= CHAR_MAX {
        if b in slots {
          var k :| 0 <= k < |slots| && slots[k] == b;
        } else {
          assert multiset(slots)[b] == 0 && FileSlots(u)[b] <= CHAR_MAX;
        }
      }
    } else {
      var k :| 0 <= k < |slots| && refs[slots[k]] - multiset(u.slots[f])[slots[k]] + multiset(slots)[slots[k]] > CHAR_MAX;
      assert FileSlots(u')[slots[k]] > CHAR_MAX;
    }
  }

  lemma {:induction false} OncePerInode(ss: seq<seq<nat>>, b: nat)
    requires forall f :: 0 <= f < |ss| ==> Distinct(ss[f])
    ensures Sum(ss)[b] <= |ss|
  {
    if ss != [] {
      assert Distinct(ss[0]);
      AtMostOnce(ss[0], b);
      OncePerInode(ss[1..], b);
    }
  }

  lemma {:induction false} AtMostOnce(s: seq<nat>, b: nat)
    requires Distinct(s)
    ensures multiset(s)[b] <= 1
  {
    if s != [] {
      assert s == [s[0]] + s[1..];
      assert forall j :: 0 <= j < |s[1..]| ==> s[1..][j] == s[j + 1];
      AtMostOnce(s[1..], b);
      if s[0] == b { assert b !in s[1..]; }
    }
  }
}
