/** Bytes of a file against its pages: what reading and writing block by block comes to. */
module FileBytes {
  import opened Block
  import opened FileSystemSpec
  import opened Accounting

  /** The bytes read from position `offset` on, at most `count`. */
  function Slice(s: seq<Byte>, offset: nat, count: nat): seq<Byte> {
    if offset >= |s| then [] else if offset + count <= |s| then s[offset..offset + count] else s[offset..]
  }

  lemma PosIn(q: nat, i: nat)
    requires q % BLOCK_SIZE + i < BLOCK_SIZE
    ensures (q + i) / BLOCK_SIZE == q / BLOCK_SIZE && (q + i) % BLOCK_SIZE == q % BLOCK_SIZE + i
  {
  }

  lemma PosEnd(q: nat, n: nat)
    requires q % BLOCK_SIZE + n == BLOCK_SIZE
    ensures q + n == (q / BLOCK_SIZE + 1) * BLOCK_SIZE && (q + n) / BLOCK_SIZE == q / BLOCK_SIZE + 1 && (q + n) % BLOCK_SIZE == 0
  {
  }

  /** One more block read. */
  lemma ReadStep(ps: Pages, q: nat, n: nat)
    requires q / BLOCK_SIZE < |ps| && q % BLOCK_SIZE + n <= BLOCK_SIZE
    ensures q + n <= BLOCK_SIZE * |ps|
    ensures forall p :: q <= p < q + n ==> ByteAt(ps, p) == ps[q / BLOCK_SIZE][q % BLOCK_SIZE + (p - q)]
  {
    assert q + n <= BLOCK_SIZE * |ps|;
    forall p | q <= p < q + n ensures ByteAt(ps, p) == ps[q / BLOCK_SIZE][q % BLOCK_SIZE + (p - q)] { PosIn(q, p - q); }
  }

  /** `num` bytes of `buffer` are written at `offset`, and the other old bytes are as they were. */
  ghost predicate Written(old_: Pages, size: nat, ps: Pages, offset: nat, buffer: seq<Byte>, num: nat)
    requires size <= BLOCK_SIZE * |old_| <= BLOCK_SIZE * |ps| && num <= |buffer| && offset + num <= BLOCK_SIZE * |ps|
  {
    && (forall p :: 0 <= p < size && !(offset <= p < offset + num) ==> ByteAt(ps, p) == ByteAt(old_, p))
    && (forall p :: offset <= p < offset + num ==> ByteAt(ps, p) == buffer[p - offset])
  }

  /** `block` with `n` bytes of `buffer`, from its byte `num` on, put at `start`. */
  predicate Filled(block: Block, novo: Block, start: nat, buffer: seq<Byte>, num: nat, n: nat) {
    && start + n <= BLOCK_SIZE && num + n <= |buffer|
    && forall i :: 0 <= i < BLOCK_SIZE ==> novo[i] == if start <= i < start + n then buffer[num + (i - start)] else block[i]
  }

  /** Writing one more block. Outside the bytes written, the block is as it was, or it is a new block
      written from its beginning. */
  lemma WriteStep(old_: Pages, size: nat, ps: Pages, ps': Pages, offset: nat, buffer: seq<Byte>, num: nat, n: nat, block: Block, novo: Block)
    requires size <= BLOCK_SIZE * |old_| <= BLOCK_SIZE * |ps| && num + n <= |buffer|
    requires (offset + num) / BLOCK_SIZE < |ps| && offset + num <= BLOCK_SIZE * |ps|
    requires Written(old_, size, ps, offset, buffer, num)
    requires Filled(block, novo, (offset + num) % BLOCK_SIZE, buffer, num, n)
    requires block == ps[(offset + num) / BLOCK_SIZE] || ((offset + num) / BLOCK_SIZE >= |old_| && (offset + num) % BLOCK_SIZE == 0)
    requires |ps'| == |ps| && forall k :: 0 <= k < |ps| ==> ps'[k] == if k == (offset + num) / BLOCK_SIZE then novo else ps[k]
    ensures offset + (num + n) <= BLOCK_SIZE * |ps'| && Written(old_, size, ps', offset, buffer, num + n)
  {
    var q := offset + num;
    ReadStep(ps', q, n);
    forall p | 0 <= p < size && !(offset <= p < offset + (num + n)) ensures ByteAt(ps', p) == ByteAt(old_, p) {
      assert ByteAt(ps, p) == ByteAt(old_, p);
      if p / BLOCK_SIZE == q / BLOCK_SIZE { OutsideStep(p, q, n); }
    }
    forall p | offset <= p < offset + (num + n) ensures ByteAt(ps', p) == buffer[p - offset] {
      if p < q {
        assert ByteAt(ps, p) == buffer[p - offset];
        if p / BLOCK_SIZE == q / BLOCK_SIZE { OutsideStep(p, q, n); }
      } else {
        var i := q % BLOCK_SIZE + (p - q);
        assert ByteAt(ps', p) == novo[i] == buffer[num + (i - q % BLOCK_SIZE)];
      }
    }
  }

  lemma OutsideStep(p: nat, q: nat, n: nat)
    requires p / BLOCK_SIZE == q / BLOCK_SIZE && !(q <= p < q + n)
    ensures !(q % BLOCK_SIZE <= p % BLOCK_SIZE < q % BLOCK_SIZE + n)
  {
  }

  /** When all is written, the contents are spliced. */
  lemma WrittenSplice(old_: Pages, size: nat, ps: Pages, offset: nat, buffer: seq<Byte>)
    requires size <= BLOCK_SIZE * |old_| <= BLOCK_SIZE * |ps| && offset + |buffer| <= BLOCK_SIZE * |ps| && offset <= size
    requires Written(old_, size, ps, offset, buffer, |buffer|)
    ensures var n := if offset + |buffer| >= size then offset + |buffer| else size;
      Bytes(ps, n) == Splice(Bytes(old_, size), offset, buffer)
  {
    var n := if offset + |buffer| >= size then offset + |buffer| else size;
    var a, b := Bytes(ps, n), Splice(Bytes(old_, size), offset, buffer);
    assert |b| == n;
    forall p | 0 <= p < n ensures a[p] == b[p] {
      if offset <= p < offset + |buffer| {
        assert ByteAt(ps, p) == buffer[p - offset];
      } else {
        assert ByteAt(ps, p) == ByteAt(old_, p);
      }
    }
  }

  /** The bytes of some pages from `offset` on. */
  predicate IsRead(ps: Pages, offset: nat, buffer: seq<Byte>) {
    && offset + |buffer| <= BLOCK_SIZE * |ps|
    && forall i :: 0 <= i < |buffer| ==> buffer[i] == ByteAt(ps, offset + i)
  }

  lemma BufferStep(ps: Pages, offset: nat, buffer: seq<Byte>, block: Block, start: nat, n: nat)
    requires IsRead(ps, offset, buffer) && (offset + |buffer|) / BLOCK_SIZE < |ps| && block == ps[(offset + |buffer|) / BLOCK_SIZE]
    requires start == (offset + |buffer|) % BLOCK_SIZE && start + n <= BLOCK_SIZE
    ensures IsRead(ps, offset, buffer + block[start..start + n])
  {
    var q := offset + |buffer|;
    ReadStep(ps, q, n);
    var b := buffer + block[start..start + n];
    forall i | 0 <= i < |b| ensures b[i] == ByteAt(ps, offset + i) {
      if i >= |buffer| { assert ByteAt(ps, offset + i) == ps[q / BLOCK_SIZE][q % BLOCK_SIZE + (offset + i - q)]; }
    }
  }

  /** Where a loop over blocks is: at the beginning of a block, unless it has not begun or is done. */
  predicate AtBlock(offset: nat, pos: nat, max: nat, iblock: nat) {
    pos < max ==> iblock == (offset + pos) / BLOCK_SIZE && (pos > 0 ==> (offset + pos) % BLOCK_SIZE == 0)
  }

  lemma NextBlock(offset: nat, pos: nat, max: nat, iblock: nat, start: nat, n: nat)
    requires AtBlock(offset, pos, max, iblock) && pos < max
    requires start == if pos == 0 then offset % BLOCK_SIZE else 0
    requires n == if BLOCK_SIZE - start <= max - pos then BLOCK_SIZE - start else max - pos
    ensures n > 0 && start == (offset + pos) % BLOCK_SIZE && start + n <= BLOCK_SIZE && AtBlock(offset, pos + n, max, iblock + 1)
  {
    if start + n == BLOCK_SIZE { PosEnd(offset + pos, n); }
  }

  lemma BlockWithin(q: nat, size: nat)
    requires q < size
    ensures q / BLOCK_SIZE < OffsetToBlocks(size)
  {
  }

  /** Blocks put behind full blocks: the bytes are put behind the bytes. */
  lemma AlignedAppend(a: Pages, n: nat, b: Pages, m: nat)
    requires n <= BLOCK_SIZE * |a| && m <= BLOCK_SIZE * |b| && |a| == OffsetToBlocks(n) && (n % BLOCK_SIZE == 0 || m == 0)
    ensures Bytes(a + b, n + m) == Bytes(a, n) + Bytes(b, m)
  {
    forall p | 0 <= p < n + m ensures ByteAt(a + b, p) == (Bytes(a, n) + Bytes(b, m))[p] {
      if p >= n {
        assert n == BLOCK_SIZE * |a|;
        assert p / BLOCK_SIZE == |a| + (p - n) / BLOCK_SIZE && p % BLOCK_SIZE == (p - n) % BLOCK_SIZE;
      }
    }
  }

  /** Behind a block that is not full, the bytes that follow are not those appended: for all sizes of
      this kind there are contents that an append does not put behind each other. */
  lemma UnalignedAppend(n: nat, m: nat) returns (a: Pages, b: Pages)
    requires n % BLOCK_SIZE != 0 && m > 0
    ensures |a| == OffsetToBlocks(n) && |b| == OffsetToBlocks(m) && n <= BLOCK_SIZE * |a| && m <= BLOCK_SIZE * |b|
    ensures n + m <= BLOCK_SIZE * |a + b| && Bytes(a + b, n + m) != Bytes(a, n) + Bytes(b, m)
  {
    SizeFits(n);
    SizeFits(m);
    var one: Block := seq(BLOCK_SIZE, _ => 1);
    a := seq(OffsetToBlocks(n), _ => Zeros());
    b := seq(OffsetToBlocks(m), _ => one);
    assert Bytes(a + b, n + m)[n] == ByteAt(a + b, n) == 0;
    assert (Bytes(a, n) + Bytes(b, m))[n] == Bytes(b, m)[0] == ByteAt(b, 0) == 1;
  }

  // ---------- Reading back ----------

  /** A read gives the bytes from the offset on, as many as asked for or as there are. */
  lemma SliceBytes(c: seq<Byte>, offset: nat, count: nat)
    ensures |Slice(c, offset, count)| == if offset >= |c| then 0 else if count <= |c| - offset then count else |c| - offset
    ensures forall i :: 0 <= i < |Slice(c, offset, count)| ==> offset + i < |c| && Slice(c, offset, count)[i] == c[offset + i]
  {
  }

  /** What was written at a place is read there, and everywhere else what was there before. */
  lemma ReadsBack(c: seq<Byte>, at: nat, w: seq<Byte>)
    requires at <= |c|
    ensures Slice(Splice(c, at, w), at, |w|) == w
    ensures forall o: nat, n: nat :: o + n <= at ==> Slice(Splice(c, at, w), o, n) == Slice(c, o, n)
    ensures forall o: nat, n: nat :: at + |w| <= o ==> Slice(Splice(c, at, w), o, n) == Slice(c, o, n)
  {
    var s := Splice(c, at, w);
    assert forall i :: 0 <= i < |w| ==> s[at + i] == w[i];
    forall o: nat, n: nat | at + |w| <= o ensures Slice(s, o, n) == Slice(c, o, n) {
      assert forall i :: at + |w| <= i < |s| ==> s[i] == c[i];
    }
  }

  lemma SpliceEnd(c: seq<Byte>, w: seq<Byte>)
    ensures Splice(c, |c|, w) == c + w
  {
    assert c[..|c|] == c;
    assert |w| == 0 ==> c[|c|..] == [];
  }
}
