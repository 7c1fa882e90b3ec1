/** Writing a file that may list a block twice. A write reaches the first slot that names the block, so a slot with
    a twin before the written range is missed. The contents become the splice exactly if what would be written
    to such slots is what they hold already. */
module FileTwins {
  import opened Block
  import opened FileSystemSpec
  import opened Accounting
  import opened FileBytes

  /** Page `k` is among those that a write of `n` bytes at `offset` reaches. */
  predicate Touched(k: nat, offset: nat, n: nat) {
    n > 0 && offset / BLOCK_SIZE <= k && BLOCK_SIZE * k < offset + n
  }

  /** A slot before the written range names the same block. */
  ghost predicate HasTwin(slots: seq<nat>, offset: nat, k: nat) {
    k < |slots| && exists j :: 0 <= j < offset / BLOCK_SIZE && j < |slots| && slots[j] == slots[k]
  }

  /** What is to be written to page `k` is there already. */
  predicate PieceSame(ps: Pages, offset: nat, buffer: seq<Byte>, k: nat)
    requires k < |ps|
  {
    forall r :: 0 <= r < BLOCK_SIZE && offset <= BLOCK_SIZE * k + r < offset + |buffer| ==> buffer[BLOCK_SIZE * k + r - offset] == ps[k][r]
  }

  ghost predicate Missed(slots: seq<nat>, ps: Pages, offset: nat, buffer: seq<Byte>, k: nat)
    requires k < |ps|
  {
    Touched(k, offset, |buffer|) && HasTwin(slots, offset, k) && !PieceSame(ps, offset, buffer, k)
  }

  ghost predicate NoneMissed(slots: seq<nat>, ps: Pages, offset: nat, buffer: seq<Byte>, n: nat) {
    forall k :: 0 <= k < n && k < |ps| ==> !Missed(slots, ps, offset, buffer, k)
  }

  /** Every page that is written and has a twin before the written range holds already what is written to it. */
  ghost predicate TwinsSame(slots: seq<nat>, ps: Pages, offset: nat, buffer: seq<Byte>) {
    NoneMissed(slots, ps, offset, buffer, |ps|)
  }

  // ---------- Slots ----------

  predicate RowAlone(c: seq<nat>, a: nat) {
    a < |c| && forall b :: 0 <= b < |c| && b != a ==> c[b] != c[a]
  }

  /** More slots, each with a block that none before it names. */
  predicate Extends(c0: seq<nat>, c: seq<nat>) {
    |c0| <= |c| && c[..|c0|] == c0 && forall j, k :: 0 <= j < k < |c| && |c0| <= k ==> c[j] != c[k]
  }

  /** Slots from `i` on are as at the start; any other is, or has a block of its own by now. */
  ghost predicate Marked(c0: seq<nat>, c: seq<nat>, i: nat) {
    && |c0| <= |c| && (forall m :: i <= m < |c0| ==> c[m] == c0[m])
    && forall j :: 0 <= j < |c0| ==> c[j] == c0[j] || RowAlone(c, j)
  }

  /** A slot that is still to be written and shares its block with an earlier one has a twin. */
  ghost predicate Early(c0: seq<nat>, c: seq<nat>, offset: nat, n: nat, i: nat) {
    forall j, m :: 0 <= j < i <= m < |c| && Touched(m, offset, n) && c[j] == c[m] ==> HasTwin(c0, offset, m)
  }

  ghost predicate Shares(c: seq<nat>, i: nat, m: nat) {
    m < |c| && exists j :: 0 <= j < i && j < |c| && c[j] == c[m]
  }

  /** And a slot with a twin still shares its block with an earlier one. */
  ghost predicate Late(c0: seq<nat>, c: seq<nat>, offset: nat, n: nat, i: nat) {
    forall m :: i <= m < |c0| && Touched(m, offset, n) && HasTwin(c0, offset, m) ==> Shares(c, i, m)
  }

  ghost predicate SlotsLaid(c0: seq<nat>, c: seq<nat>, offset: nat, n: nat, i: nat) {
    Marked(c0, c, i) && Early(c0, c, offset, n, i) && Late(c0, c, offset, n, i)
  }

  lemma SlotsStart(c0: seq<nat>, c: seq<nat>, offset: nat, n: nat)
    requires Extends(c0, c)
    ensures SlotsLaid(c0, c, offset, n, offset / BLOCK_SIZE)
  {
    var i := offset / BLOCK_SIZE;
    assert forall m :: 0 <= m < |c0| ==> c[m] == c[..|c0|][m] == c0[m];
    forall m | i <= m < |c0| && Touched(m, offset, n) && HasTwin(c0, offset, m) ensures Shares(c, i, m) {
      var j :| 0 <= j < i && j < |c0| && c0[j] == c0[m];
      assert c[j] == c[m];
    }
  }

  /** The first slot with the block of slot `i` gets a block of its own. */
  lemma SlotsStep(c0: seq<nat>, c: seq<nat>, c': seq<nat>, offset: nat, n: nat, i: nat, kk: nat)
    requires SlotsLaid(c0, c, offset, n, i) && kk <= i < |c| && c[kk] == c[i] && Touched(i, offset, n)
    requires |c'| == |c| && (forall m :: 0 <= m < |c| && m != kk ==> c'[m] == c[m]) && RowAlone(c', kk)
    ensures SlotsLaid(c0, c', offset, n, i + 1)
  {
    MarkedStep(c0, c, c', i, kk);
    EarlyStep(c0, c, c', offset, n, i, kk);
    LateStep(c0, c, c', offset, n, i, kk);
  }

  lemma MarkedStep(c0: seq<nat>, c: seq<nat>, c': seq<nat>, i: nat, kk: nat)
    requires Marked(c0, c, i) && kk <= i < |c|
    requires |c'| == |c| && (forall m :: 0 <= m < |c| && m != kk ==> c'[m] == c[m]) && RowAlone(c', kk)
    ensures Marked(c0, c', i + 1)
  {
    forall j | 0 <= j < |c0| ensures c'[j] == c0[j] || RowAlone(c', j) {
      if j != kk && c[j] != c0[j] { assert RowAlone(c, j); }
    }
  }

  lemma EarlyStep(c0: seq<nat>, c: seq<nat>, c': seq<nat>, offset: nat, n: nat, i: nat, kk: nat)
    requires SlotsLaid(c0, c, offset, n, i) && kk <= i < |c| && c[kk] == c[i] && Touched(i, offset, n)
    requires |c'| == |c| && (forall m :: 0 <= m < |c| && m != kk ==> c'[m] == c[m]) && RowAlone(c', kk)
    ensures Early(c0, c', offset, n, i + 1)
  {
    forall j, m | 0 <= j < i + 1 <= m < |c'| && Touched(m, offset, n) && c'[j] == c'[m] ensures HasTwin(c0, offset, m) {
      assert j != kk;
      assert c[j] == c[m];
      if j == i {
        assert HasTwin(c0, offset, i);
        assert c[kk] == c[m];
        assert HasTwin(c0, offset, m);
      }
    }
  }

  lemma LateStep(c0: seq<nat>, c: seq<nat>, c': seq<nat>, offset: nat, n: nat, i: nat, kk: nat)
    requires SlotsLaid(c0, c, offset, n, i) && kk <= i < |c| && c[kk] == c[i]
    requires |c'| == |c| && (forall m :: 0 <= m < |c| && m != kk ==> c'[m] == c[m])
    ensures Late(c0, c', offset, n, i + 1)
  {
    forall m | i + 1 <= m < |c0| && Touched(m, offset, n) && HasTwin(c0, offset, m) ensures Shares(c', i + 1, m) {
      assert Shares(c, i, m);
      var j :| 0 <= j < i && j < |c| && c[j] == c[m];
      var j' := if j == kk then i else j;
      assert c'[j'] == c'[m];
    }
  }

  // ---------- Bytes ----------

  /** What position `r` of page `a` should hold. */
  function Wanted(p0: Pages, offset: nat, buffer: seq<Byte>, a: nat, r: nat): Byte
    requires a < |p0| && r < BLOCK_SIZE
  {
    if offset <= BLOCK_SIZE * a + r < offset + |buffer| then buffer[BLOCK_SIZE * a + r - offset] else p0[a][r]
  }

  /** A page that was full holds something else than it should, and nothing will reach it any more. */
  ghost predicate Spoiled(c: seq<nat>, p: Pages, p0: Pages, offset: nat, buffer: seq<Byte>, i: nat) {
    exists a, r :: SpoiledAt(c, p, p0, offset, buffer, i, a, r)
  }

  ghost predicate SpoiledAt(c: seq<nat>, p: Pages, p0: Pages, offset: nat, buffer: seq<Byte>, i: nat, a: nat, r: nat) {
    a < i && a + 1 < |p0| <= |p| && r < BLOCK_SIZE && RowAlone(c, a) && p[a][r] != Wanted(p0, offset, buffer, a, r)
  }

  /** The same block, the same page. */
  predicate Consistent(c: seq<nat>, p: Pages) {
    |c| == |p| && forall a, b :: 0 <= a < |c| && 0 <= b < |c| && c[a] == c[b] ==> p[a] == p[b]
  }

  /** A write has come to page `i` with `num` bytes: as long as nothing was missed they are written, and otherwise
      some page is spoiled. */
  ghost predicate Laid(c0: seq<nat>, p0: Pages, c: seq<nat>, p: Pages, size: nat, offset: nat, buffer: seq<Byte>, i: nat, num: nat) {
    && Consistent(c0, p0) && Consistent(c, p) && SlotsLaid(c0, c, offset, |buffer|, i)
    && size <= BLOCK_SIZE * |p0| <= BLOCK_SIZE * |p| && num <= |buffer| && offset + num <= BLOCK_SIZE * |p|
    && (forall m :: i <= m < |p0| ==> p[m] == p0[m]) && (num > 0 ==> offset + num <= BLOCK_SIZE * i) && offset / BLOCK_SIZE <= i
    && (NoneMissed(c0, p0, offset, buffer, i) ==> Written(p0, size, p, offset, buffer, num))
    && (!NoneMissed(c0, p0, offset, buffer, i) ==> Spoiled(c, p, p0, offset, buffer, i))
  }

  lemma LaidStart(c0: seq<nat>, p0: Pages, c: seq<nat>, p: Pages, size: nat, offset: nat, buffer: seq<Byte>)
    requires Consistent(c0, p0) && Consistent(c, p) && Extends(c0, c) && offset <= size <= BLOCK_SIZE * |p0| && |p0| <= |p| && p[..|p0|] == p0
    ensures Laid(c0, p0, c, p, size, offset, buffer, offset / BLOCK_SIZE, 0)
  {
    hide SlotsLaid, HasTwin, PieceSame;
    SlotsStart(c0, c, offset, |buffer|);
    assert forall k :: 0 <= k < |p0| ==> p[k] == p[..|p0|][k];
  }

  /** The bytes that belong into page `i`. */
  lemma PieceIs(offset: nat, num: nat, total: nat, i: nat, start: nat, n: nat, r: nat)
    requires num < total && i == (offset + num) / BLOCK_SIZE && start == (offset + num) % BLOCK_SIZE && (num > 0 ==> start == 0) && r < BLOCK_SIZE
    requires n == if BLOCK_SIZE - start <= total - num then BLOCK_SIZE - start else total - num
    ensures offset <= BLOCK_SIZE * i + r < offset + total <==> start <= r < start + n
    ensures BLOCK_SIZE * i + r - offset == num + (r - start)
    ensures Touched(i, offset, total) && offset + (num + n) <= BLOCK_SIZE * (i + 1)
  {
  }

  lemma PieceFilled(ps: Pages, offset: nat, buffer: seq<Byte>, num: nat, i: nat, start: nat, n: nat, block: Block, novo: Block)
    requires num < |buffer| && i == (offset + num) / BLOCK_SIZE < |ps| && start == (offset + num) % BLOCK_SIZE && (num > 0 ==> start == 0)
    requires n == if BLOCK_SIZE - start <= |buffer| - num then BLOCK_SIZE - start else |buffer| - num
    requires FileBytes.Filled(block, novo, start, buffer, num, n)
    ensures forall r :: 0 <= r < BLOCK_SIZE ==> novo[r] == if offset <= BLOCK_SIZE * i + r < offset + |buffer| then buffer[BLOCK_SIZE * i + r - offset] else block[r]
    ensures block == ps[i] ==> (PieceSame(ps, offset, buffer, i) <==> novo == block)
  {
    forall r | 0 <= r < BLOCK_SIZE
      ensures novo[r] == if offset <= BLOCK_SIZE * i + r < offset + |buffer| then buffer[BLOCK_SIZE * i + r - offset] else block[r]
    {
      PieceIs(offset, num, |buffer|, i, start, n, r);
    }
    if block == ps[i] && !PieceSame(ps, offset, buffer, i) {
      var r :| 0 <= r < BLOCK_SIZE && offset <= BLOCK_SIZE * i + r < offset + |buffer| && buffer[BLOCK_SIZE * i + r - offset] != ps[i][r];
      assert novo[r] != block[r];
    }
  }

  /** Writing what is there already. */
  lemma SameStep(old_: Pages, size: nat, ps: Pages, offset: nat, buffer: seq<Byte>, num: nat, n: nat, i: nat)
    requires size <= BLOCK_SIZE * |old_| <= BLOCK_SIZE * |ps| && num + n <= |buffer| && num < |buffer| && offset + num <= BLOCK_SIZE * |ps|
    requires i == (offset + num) / BLOCK_SIZE < |old_| && ps[i] == old_[i] && Written(old_, size, ps, offset, buffer, num)
    requires (offset + num) % BLOCK_SIZE + n <= BLOCK_SIZE && PieceSame(old_, offset, buffer, i)
    ensures offset + (num + n) <= BLOCK_SIZE * |ps| && Written(old_, size, ps, offset, buffer, num + n)
  {
    var q := offset + num;
    ReadStep(ps, q, n);
    forall x | q <= x < q + n ensures ByteAt(ps, x) == buffer[x - offset] {
      var r := q % BLOCK_SIZE + (x - q);
      assert BLOCK_SIZE * i + r == x;
      assert buffer[BLOCK_SIZE * i + r - offset] == old_[i][r];
    }
  }

  /** One page more. */
  lemma LaidStep(c0: seq<nat>, p0: Pages, c: seq<nat>, p: Pages, c': seq<nat>, p': Pages, size: nat, offset: nat, buffer: seq<Byte>,
                 i: nat, num: nat, n: nat, kk: nat, block: Block, novo: Block)
    requires Laid(c0, p0, c, p, size, offset, buffer, i, num) && num < |buffer| && i == (offset + num) / BLOCK_SIZE < |c|
    requires num > 0 ==> (offset + num) % BLOCK_SIZE == 0
    requires var start := (offset + num) % BLOCK_SIZE; n == if BLOCK_SIZE - start <= |buffer| - num then BLOCK_SIZE - start else |buffer| - num
    requires kk <= i && c[kk] == c[i] && (forall m :: 0 <= m < kk ==> c[m] != c[i])
    requires |c'| == |c| && (forall m :: 0 <= m < |c| && m != kk ==> c'[m] == c[m]) && RowAlone(c', kk) && p' == p[kk := novo]
    requires FileBytes.Filled(block, novo, (offset + num) % BLOCK_SIZE, buffer, num, n)
    requires block == p[i] || (i >= |p0| && (offset + num) % BLOCK_SIZE == 0)
    ensures Laid(c0, p0, c', p', size, offset, buffer, i + 1, num + n)
  {
    hide SlotsLaid, Written, NoneMissed, Spoiled, FileBytes.Filled;
    PieceIs(offset, num, |buffer|, i, (offset + num) % BLOCK_SIZE, n, 0);
    SlotsStep(c0, c, c', offset, |buffer|, i, kk);
    ConsistentStep(c, p, c', p', kk, novo);
    if !NoneMissed(c0, p0, offset, buffer, i) {
      SpoiledStays(c0, p0, c, p, c', p', offset, buffer, i, kk, novo);
    } else if kk == i {
      OwnStep(c0, p0, c, p, size, offset, buffer, i, num, n, block, novo);
    } else {
      TwinStep(c0, p0, c, p, c', size, offset, buffer, i, num, n, kk, block, novo);
    }
  }

  lemma ConsistentStep(c: seq<nat>, p: Pages, c': seq<nat>, p': Pages, kk: nat, novo: Block)
    requires Consistent(c, p) && |c'| == |c| && (forall m :: 0 <= m < |c| && m != kk ==> c'[m] == c[m]) && RowAlone(c', kk) && p' == p[kk := novo]
    ensures Consistent(c', p')
  {
  }

  lemma SpoiledStays(c0: seq<nat>, p0: Pages, c: seq<nat>, p: Pages, c': seq<nat>, p': Pages, offset: nat, buffer: seq<Byte>, i: nat, kk: nat, novo: Block)
    requires Spoiled(c, p, p0, offset, buffer, i) && !NoneMissed(c0, p0, offset, buffer, i) && |c| == |p|
    requires kk <= i < |c| && c[kk] == c[i] && |c'| == |c| && (forall m :: 0 <= m < |c| && m != kk ==> c'[m] == c[m]) && RowAlone(c', kk) && p' == p[kk := novo]
    ensures Spoiled(c', p', p0, offset, buffer, i + 1) && !NoneMissed(c0, p0, offset, buffer, i + 1)
  {
    var a: nat, r: nat :| SpoiledAt(c, p, p0, offset, buffer, i, a, r);
    assert a != kk by { assert c[a] != c[i]; }
    assert SpoiledAt(c', p', p0, offset, buffer, i + 1, a, r);
  }

  /** A page without a twin. */
  lemma OwnStep(c0: seq<nat>, p0: Pages, c: seq<nat>, p: Pages, size: nat, offset: nat, buffer: seq<Byte>, i: nat, num: nat, n: nat, block: Block, novo: Block)
    requires Laid(c0, p0, c, p, size, offset, buffer, i, num) && NoneMissed(c0, p0, offset, buffer, i)
    requires num < |buffer| && i == (offset + num) / BLOCK_SIZE < |c| && num + n <= |buffer| && Touched(i, offset, |buffer|)
    requires forall m :: 0 <= m < i ==> c[m] != c[i]
    requires FileBytes.Filled(block, novo, (offset + num) % BLOCK_SIZE, buffer, num, n)
    requires block == p[i] || (i >= |p0| && (offset + num) % BLOCK_SIZE == 0)
    ensures NoneMissed(c0, p0, offset, buffer, i + 1)
    ensures offset + (num + n) <= BLOCK_SIZE * |p| && Written(p0, size, p[i := novo], offset, buffer, num + n)
  {
    hide Written, PieceSame;
    assert !HasTwin(c0, offset, i) by { OwnHasNone(c0, c, offset, |buffer|, i); }
    WriteStep(p0, size, p, p[i := novo], offset, buffer, num, n, block, novo);
  }

  lemma OwnHasNone(c0: seq<nat>, c: seq<nat>, offset: nat, n: nat, i: nat)
    requires SlotsLaid(c0, c, offset, n, i) && Touched(i, offset, n) && forall m :: 0 <= m < i && m < |c| && i < |c| ==> c[m] != c[i]
    ensures !HasTwin(c0, offset, i)
  {
    assert !Shares(c, i, i);
  }

  /** A page with a twin: what it holds already may be written, anything else spoils the page of an earlier slot. */
  lemma TwinStep(c0: seq<nat>, p0: Pages, c: seq<nat>, p: Pages, c': seq<nat>, size: nat, offset: nat, buffer: seq<Byte>,
                 i: nat, num: nat, n: nat, kk: nat, block: Block, novo: Block)
    requires Laid(c0, p0, c, p, size, offset, buffer, i, num) && NoneMissed(c0, p0, offset, buffer, i)
    requires num < |buffer| && i == (offset + num) / BLOCK_SIZE < |c| && Touched(i, offset, |buffer|) && (num > 0 ==> (offset + num) % BLOCK_SIZE == 0)
    requires var start := (offset + num) % BLOCK_SIZE; n == if BLOCK_SIZE - start <= |buffer| - num then BLOCK_SIZE - start else |buffer| - num
    requires kk < i && c[kk] == c[i] && |c'| == |c| && RowAlone(c', kk)
    requires FileBytes.Filled(block, novo, (offset + num) % BLOCK_SIZE, buffer, num, n)
    requires block == p[i] || (i >= |p0| && (offset + num) % BLOCK_SIZE == 0)
    ensures offset + (num + n) <= BLOCK_SIZE * |p|
    ensures NoneMissed(c0, p0, offset, buffer, i + 1) ==> Written(p0, size, p[kk := novo], offset, buffer, num + n)
    ensures !NoneMissed(c0, p0, offset, buffer, i + 1) ==> Spoiled(c', p[kk := novo], p0, offset, buffer, i + 1)
  {
    hide Written, FileBytes.Filled, Wanted;
    assert HasTwin(c0, offset, i);
    assert i < |p0| && p[i] == p0[i] == block && p[kk] == p[i];
    PieceFilled(p0, offset, buffer, num, i, (offset + num) % BLOCK_SIZE, n, block, novo);
    if PieceSame(p0, offset, buffer, i) {
      assert p[kk := novo] == p;
      SameStep(p0, size, p, offset, buffer, num, n, i);
    } else {
      TwinWanted(c0, p0, c, p, size, offset, buffer, i, num, kk);
      var r: nat :| r < BLOCK_SIZE && offset <= BLOCK_SIZE * i + r < offset + |buffer| && buffer[BLOCK_SIZE * i + r - offset] != p0[i][r];
      assert SpoiledAt(c', p[kk := novo], p0, offset, buffer, i + 1, kk, r);
      assert Missed(c0, p0, offset, buffer, i);
    }
  }

  /** The page that is reached instead should hold what it held at the start, which is what page `i` held. */
  lemma TwinWanted(c0: seq<nat>, p0: Pages, c: seq<nat>, p: Pages, size: nat, offset: nat, buffer: seq<Byte>, i: nat, num: nat, kk: nat)
    requires Laid(c0, p0, c, p, size, offset, buffer, i, num) && NoneMissed(c0, p0, offset, buffer, i)
    requires i < |p0| && Touched(i, offset, |buffer|) && HasTwin(c0, offset, i) && kk < i < |c| && c[kk] == c[i]
    ensures forall r :: 0 <= r < BLOCK_SIZE ==> Wanted(p0, offset, buffer, kk, r) == p0[i][r]
  {
    hide Written, Spoiled;
    assert !RowAlone(c, kk);
    assert c[kk] == c0[kk] && c[i] == c0[i];
    assert p0[kk] == p0[i];
    if kk >= offset / BLOCK_SIZE {
      var j :| 0 <= j < offset / BLOCK_SIZE && j < |c0| && c0[j] == c0[i];
      assert c0[j] == c0[kk];
      assert HasTwin(c0, offset, kk) && Touched(kk, offset, |buffer|);
      assert !Missed(c0, p0, offset, buffer, kk);
    }
    forall r | 0 <= r < BLOCK_SIZE ensures Wanted(p0, offset, buffer, kk, r) == p0[i][r] {
      if kk < offset / BLOCK_SIZE { assert BLOCK_SIZE * kk + r < offset; }
    }
  }

  /** In the end the contents are the splice exactly if nothing was missed. */
  lemma LaidSplice(c0: seq<nat>, p0: Pages, c: seq<nat>, p: Pages, size: nat, offset: nat, buffer: seq<Byte>, i: nat)
    requires Laid(c0, p0, c, p, size, offset, buffer, i, |buffer|) && offset <= size && |p0| == OffsetToBlocks(size)
    ensures var n := if offset + |buffer| >= size then offset + |buffer| else size;
      && n <= BLOCK_SIZE * |p|
      && (Bytes(p, n) == Splice(Bytes(p0, size), offset, buffer) <==> TwinsSame(c0, p0, offset, buffer))
  {
    hide SlotsLaid, Consistent, Written, Splice, HasTwin, PieceSame, Bytes, OffsetToBlocks, Wanted;
    assert NoneMissed(c0, p0, offset, buffer, i) <==> TwinsSame(c0, p0, offset, buffer) by {
      assert forall k :: k >= i ==> !Touched(k, offset, |buffer|);
    }
    if NoneMissed(c0, p0, offset, buffer, i) {
      WrittenSplice(p0, size, p, offset, buffer);
    } else {
      var a: nat, r: nat :| SpoiledAt(c, p, p0, offset, buffer, i, a, r);
      SpoiledDiffers(p0, p, size, offset, buffer, a, r);
    }
  }

  lemma SpoiledDiffers(p0: Pages, p: Pages, size: nat, offset: nat, buffer: seq<Byte>, a: nat, r: nat)
    requires a + 1 < |p0| <= |p| && r < BLOCK_SIZE && p[a][r] != Wanted(p0, offset, buffer, a, r)
    requires offset <= size <= BLOCK_SIZE * |p0| && |p0| == OffsetToBlocks(size) && offset + |buffer| <= BLOCK_SIZE * |p|
    ensures var n := if offset + |buffer| >= size then offset + |buffer| else size;
      n <= BLOCK_SIZE * |p| && Bytes(p, n) != Splice(Bytes(p0, size), offset, buffer)
  {
    SizeFits(size);
    var n := if offset + |buffer| >= size then offset + |buffer| else size;
    var x := BLOCK_SIZE * a + r;
    assert x < size && x / BLOCK_SIZE == a && x % BLOCK_SIZE == r;
    assert Bytes(p, n)[x] == ByteAt(p, x) == p[a][r];
    var s := Splice(Bytes(p0, size), offset, buffer);
    assert s[x] == if offset <= x < offset + |buffer| then buffer[x - offset] else Bytes(p0, size)[x];
    assert Bytes(p0, size)[x] == p0[a][r];
  }

  lemma LaidBounds(c0: seq<nat>, p0: Pages, c: seq<nat>, p: Pages, size: nat, offset: nat, buffer: seq<Byte>, i: nat, num: nat)
    requires Laid(c0, p0, c, p, size, offset, buffer, i, num)
    ensures num <= |buffer| && offset + num <= BLOCK_SIZE * |p| && |c| == |p| && |c0| == |p0|
  {
  }

  lemma ExtendsSelf(c: seq<nat>)
    ensures Extends(c, c)
  {
  }

  lemma ExtendsMore(c0: seq<nat>, c: seq<nat>, b: nat)
    requires Extends(c0, c) && b !in c
    ensures Extends(c0, c + [b])
  {
    assert (c + [b])[..|c0|] == c[..|c0|];
  }

  /** A file that lists no block twice has no twins. */
  lemma NoTwins(slots: seq<nat>, ps: Pages, offset: nat, buffer: seq<Byte>)
    requires Distinct(slots)
    ensures TwinsSame(slots, ps, offset, buffer)
  {
    forall k | 0 <= k < |ps| ensures !Missed(slots, ps, offset, buffer, k) { assert Touched(k, offset, |buffer|) ==> !HasTwin(slots, offset, k); }
  }

  lemma AllReached(offset: nat, buffer: seq<Byte>, num: nat, iblock: nat, n: nat)
    requires num <= |buffer| && offset + num <= BLOCK_SIZE * n && AtBlock(offset, num, |buffer|, iblock) && (num >= |buffer| || iblock >= n)
    ensures num == |buffer| <==> offset + |buffer| <= BLOCK_SIZE * n
  {
    if num < |buffer| { assert iblock * BLOCK_SIZE <= offset + num; }
  }

  lemma AtStart(offset: nat, pos: nat, max: nat, iblock: nat)
    requires AtBlock(offset, pos, max, iblock) && pos < max
    ensures iblock == (offset + pos) / BLOCK_SIZE && (pos > 0 ==> (offset + pos) % BLOCK_SIZE == 0)
  {
  }
}
