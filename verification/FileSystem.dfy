/** The file system: bitmaps, reference counts and the inode table, changed in place, over the block
    cache, which is used as its specification says. */
module FileSystem {
  import opened Block
  import opened CacheSpec
  import opened Bitmap
  import opened Accounting
  import opened FileSystemSpec
  import opened FileSystemSteps
  import opened FileBytes
  import opened FileTwins
  import opened FileSystemFacts
  import opened FileSystemTree
  import opened FileSystemSharing
  import opened FileSystemRemove
  import opened FileSystemFormat
  import opened FileSystemCopy
  import opened Defrag
  import opened DefragAccount
  import opened Directory
  import opened Wrappers

  class FsServer {
    var cache: CacheState
    const referencias: array<Char>
    const blk_bmap: array<bv8>
    const inode_bmap: array<bv8>
    const inode_tab: array<Inode>
    var defragState: int
    ghost var u: Usage

    ghost function Abs(): Fs
      reads this, referencias, blk_bmap, inode_bmap, inode_tab
    {
      Fs(cache, referencias[..], blk_bmap[..], inode_bmap[..], inode_tab[..])
    }

    /** Blocks, counts and links agree; the sizes of the inodes may not yet be up to date. */
    ghost predicate Partly()
      reads this, referencias, blk_bmap, inode_bmap, inode_tab
    {
      blk_bmap != inode_bmap && Core(Abs(), u)
    }

    /** Sizes and entry counts are up to date too, and reference counts as far as a byte can tell. */
    ghost predicate Modulo()
      reads this, referencias, blk_bmap, inode_bmap, inode_tab
    {
      blk_bmap != inode_bmap && FsModulo(Abs(), u)
    }

    /** And no reference count has wrapped around. */
    ghost predicate Coerente()
      reads this, referencias, blk_bmap, inode_bmap, inode_tab
    {
      blk_bmap != inode_bmap && FsInv(Abs(), u)
    }

    /** And the entries of directories name inodes. */
    ghost predicate Valid()
      reads this, referencias, blk_bmap, inode_bmap, inode_tab
    {
      blk_bmap != inode_bmap && FullInv(Abs(), u)
    }

    ghost function Logico(): seq<Block>
      reads this
    {
      LogicalDisk(cache)
    }

    ghost function Paginas(): seq<Pages>
      reads this, referencias, blk_bmap, inode_bmap, inode_tab
      requires Partly()
    {
      CoreOnDisk(Abs(), u);
      AllPages(Logico(), u)
    }

    // ---------- A new file system ----------

    /** A disk of zeros, an empty cache, and all tables read from the disk. */
    constructor (numBlocks: nat, dimCache: nat)
      requires numBlocks >= NUM_BLOCOS_MAX && dimCache > 0
      ensures blk_bmap != inode_bmap && fresh(referencias) && fresh(blk_bmap) && fresh(inode_bmap) && fresh(inode_tab)
      ensures Tables(Abs(), numBlocks) && cache == CacheState(map[], seq(numBlocks, _ => Zeros()), dimCache) && defragState == 0
    {
      cache := CacheState(map[], seq(numBlocks, _ => Zeros()), dimCache);
      referencias := new Char[numBlocks](_ => 0);
      blk_bmap := new bv8[BLOCK_SIZE](_ => 0);
      inode_bmap := new bv8[BLOCK_SIZE](_ => 0);
      inode_tab := new Inode[INODES](_ => Inode(0, 0, NO_BLOCKS));
      defragState := 0;
      u := EmptyUsage();
    }

    /** Sets the bits below `n` of a bitmap, and no others. */
    method MarcarAbaixo(bmap: array<bv8>, n: nat)
      requires 8 * bmap.Length == BMAP_BITS && n <= BMAP_BITS
      modifies bmap
      ensures OnlyBelow(bmap[..], n)
    {
      hide IsSet, SetBit, ClrBit;
      var i: nat := 0;
      while i < BMAP_BITS
        invariant 0 <= i <= BMAP_BITS && forall b :: 0 <= b < i ==> !IsSet(bmap[..], b)
      {
        ghost var o := bmap[..];
        BmapClr(bmap, i);
        forall b | 0 <= b < BMAP_BITS ensures IsSet(bmap[..], b) <==> b != i && IsSet(o, b) { ClrOnly(o, i, b); }
        i := i + 1;
      }
      i := 0;
      while i < n
        invariant 0 <= i <= n && forall b :: 0 <= b < BMAP_BITS ==> (IsSet(bmap[..], b) <==> b < i)
      {
        ghost var o := bmap[..];
        BmapSet(bmap, i);
        forall b | 0 <= b < BMAP_BITS ensures IsSet(bmap[..], b) <==> b == i || IsSet(o, b) { SetOnly(o, i, b); }
        i := i + 1;
      }
    }

    /** Formats the disk. The cache is not told, so the result is a valid file system exactly if no cache
        entry is valid. */
    method FsFormat()
      requires blk_bmap != inode_bmap && Tables(Abs(), |cache.disk|) && 0 < cache.max && |cache.entries| <= cache.max
      requires forall b :: b in cache.entries ==> b < |cache.disk|
      modifies this`cache, this`u, referencias, blk_bmap, inode_bmap, inode_tab
      ensures Formatted(Abs()) && u == EmptyUsage() && cache.entries == old(cache.entries) && NoRepeat(u)
      ensures Valid() <==> forall b :: !HasValid(old(cache), b)
      ensures Valid() ==> IsType(Abs(), 1, FS_DIR) && Conteudo(1) == []
    {
      hide IsSet, FullInv, OnlyBelow;
      cache := cache.(disk := seq(|cache.disk|, _ => Zeros()));
      var i: nat := 0;
      while i < referencias.Length
        invariant 0 <= i <= referencias.Length && forall b :: 0 <= b < i ==> referencias[b] == 0
        modifies referencias
      {
        referencias[i] := 0;
        i := i + 1;
      }
      MarcarAbaixo(blk_bmap, FIRST_DATA);
      MarcarAbaixo(inode_bmap, 2);
      inode_tab[1] := Inode(FS_DIR, 0, NO_BLOCKS);
      u := EmptyUsage();
      assert Formatted(Abs());
      FormattedValid(Abs());
      assert forall b :: HasValid(cache, b) <==> HasValid(old(cache), b);
    }

    /** The ageing of the cache, which a thread of its own does every two seconds. */
    method ActualizarCache(intervalo: int)
      requires Valid()
      modifies this`cache
      ensures Valid() && Abs() == old(Abs()).(cache := cache) && cache == Age(old(cache), intervalo) && Paginas() == old(Paginas())
    {
      hide Core, Sized, Counted, LogicalDisk, Tree, Age;
      ghost var s := Abs();
      FullParts(s, u);
      AgeCore(s, u, intervalo);
      cache := Age(cache, intervalo);
      InvCache(s, u, Abs());
      CacheKeepsTree(s, u, Abs());
    }

    // ---------- Blocks of files ----------

    /** Reads a file's block through the cache. */
    method LerBloco(b: nat, ghost f: nat, ghost k: nat) returns (dados: Block)
      requires Partly() && IsType(Abs(), f, FS_FILE) && k < |u.slots[f]| && b == u.slots[f][k]
      modifies this`cache
      ensures Partly() && Abs() == old(Abs()).(cache := cache) && Paginas() == old(Paginas()) && dados == Paginas()[f][k]
    {
      hide Core, LogicalDisk, FileSlots, Loaded, Read;
      CoreParts(Abs(), u);
      LinkedAt(Abs(), u, f);
      FileOnly(Abs(), u, f);
      SlotCounted(u, f, k);
      AccShape(Abs().bmap, Abs().refs, u);
      ReadCore(Abs(), u, b);
      cache := Read(cache, b);
      dados := cache.entries[b].bytes;
    }

    /** The first free block. There always is one, so the callers' branches for a full disk are never taken. */
    method BlocoLivre() returns (b: nat)
      requires Partly()
      ensures 8 * blk_bmap.Length == BMAP_BITS && FIRST_DATA <= b < NUM_BLOCOS_MAX && b < |cache.disk|
      ensures !IsSet(blk_bmap[..], b) && forall n :: 0 <= n < b ==> IsSet(blk_bmap[..], n)
    {
      hide LogicalDisk, FileSlots, IsSet;
      ghost var s := Abs();
      ghost var free := SomeFreeBlock(s, u);
      TakenBelow(s, u);
      assert blk_bmap[..] == s.bmap && !IsSet(blk_bmap[..], free) && free < |cache.disk|;
      var achou;
      achou, b := FindFree(blk_bmap, |cache.disk|);
      assert !IsSet(blk_bmap[..], free);
      assert achou;
    }

    /** Takes the first free block for the next slot of a file. */
    method ReservarBloco(f: nat, i: nat) returns (b: nat)
      requires Partly() && IsType(Abs(), f, FS_FILE) && i == |u.slots[f]| < INODE_NUM_BLKS
      modifies this`u, referencias, blk_bmap, inode_tab
      ensures Partly() && FIRST_DATA <= b < NUM_BLOCOS_MAX && b < |Logico()|
      ensures Abs() == Reserved(old(Abs()), old(u), f, b) && u == SetSlots(old(u), f, old(u).slots[f] + [b])
      ensures Paginas() == PlusPage(old(Paginas()), f, Logico()[b]) && FreshBlock(old(u), b)
      ensures |u.dirs| == |u.slots| && |old(u).dirs| == |old(u).slots| && (Fits(old(u)) ==> Fits(u))
    {
      hide Core, Fits, LogicalDisk, FileSlots, Acc, IsSet;
      ghost var s := Abs();
      CoreParts(s, u);
      LinkedAt(s, u, f);
      FileOnly(s, u, f);
      AccShape(s.bmap, s.refs, u);
      b := BlocoLivre();
      ReservedCore(s, u, f, b);
      BmapSet(blk_bmap, b);
      referencias[b] := Up(referencias[b]);
      inode_tab[f] := WithBlock(inode_tab[f], i, b);
      u := SetSlots(u, f, u.slots[f] + [b]);
      assert Abs() == Reserved(s, old(u), f, b);
    }

    /** No count has wrapped around, whatever sizes there are. */
    ghost predicate Certo()
      reads this, referencias, blk_bmap, inode_bmap, inode_tab
    {
      Partly() && |u.dirs| == |u.slots| && Fits(u)
    }

    /** A file's block that others have too is replaced by a copy of its own; -1 if its count says that the file has
        it alone, -2 if it says that nobody has it. */
    method CopyOnWrite(blockId: nat, f: nat, ghost k: nat) returns (novo: int, ghost kk: nat)
      requires Partly() && IsType(Abs(), f, FS_FILE) && k < |u.slots[f]| && blockId == inode_tab[f].blocks[k]
      modifies this`u, this`cache, referencias, blk_bmap, inode_tab
      ensures Partly() && (old(Certo()) ==> Certo()) && blockId < |old(referencias[..])| && Paginas() == old(Paginas())
      ensures novo >= -2 && (novo == -2 <==> old(referencias[..])[blockId] == 0) && (novo == -1 <==> old(referencias[..])[blockId] == 1)
      ensures novo < 0 ==> kk == k && u == old(u) && Abs() == old(Abs())
      ensures novo >= 0 ==> OwnSlot(old(u), f, k, kk) && u == SetSlots(old(u), f, old(u).slots[f][kk := novo]) && FreshBlock(old(u), novo)
      ensures SameButBlocks(old(Abs()), Abs(), f)
    {
      hide Core, Fits, LogicalDisk, FileSlots, Acc, IsSet, Read, Loaded, Write;
      ghost var s := Abs();
      CoreParts(s, u);
      AccShape(s.bmap, s.refs, u);
      LinkedAt(s, u, f);
      FileOnly(s, u, f);
      SameInodes(s, s, f);
      kk := k;
      var nRef := referencias[blockId];
      if nRef == 0 {
        return -2, kk;
      }
      if nRef == 1 {
        return -1, kk;
      }
      var block := LerBloco(blockId, f, k);
      var bks := BlocoLivre();
      var i := 0;
      while inode_tab[f].blocks[i] != blockId
        invariant 0 <= i <= k && forall j :: 0 <= j < i ==> inode_tab[f].blocks[j] != blockId
        decreases k - i
      {
        i := i + 1;
      }
      kk := i;
      Substituir(f, i, bks, blockId, block);
      novo := bks;
    }

    /** The slot `k` of a file gets the free block `bks` with a copy of the old content. */
    method Substituir(f: nat, k: nat, bks: nat, blockId: nat, block: Block)
      requires Partly() && IsType(Abs(), f, FS_FILE) && k < |u.slots[f]| && blockId == inode_tab[f].blocks[k] == u.slots[f][k]
      requires blockId < |referencias[..]| && referencias[blockId] != 0 && referencias[blockId] != 1 && block == Paginas()[f][k]
      requires 8 * blk_bmap.Length == BMAP_BITS && FIRST_DATA <= bks < NUM_BLOCOS_MAX && !IsSet(blk_bmap[..], bks)
      modifies this`u, this`cache, referencias, blk_bmap, inode_tab
      ensures Partly() && (old(Certo()) ==> Certo()) && u == SetSlots(old(u), f, old(u).slots[f][k := bks]) && Paginas() == old(Paginas())
      ensures FreshBlock(old(u), bks) && SameButBlocks(old(Abs()), Abs(), f)
    {
      hide Core, Fits, LogicalDisk, FileSlots, Acc, IsSet, Write, Loaded, Everywhere;
      ghost var s := Abs();
      CoreParts(s, u);
      AccShape(s.bmap, s.refs, u);
      LinkedAt(s, u, f);
      FreshUnnamed(s, u, bks);
      ReplacedCore(s, u, f, k, bks);
      BmapSet(blk_bmap, bks);
      inode_tab[f] := WithBlock(inode_tab[f], k, bks);
      referencias[bks] := Up(referencias[bks]);
      referencias[blockId] := Down(referencias[blockId]);
      u := SetSlots(u, f, u.slots[f][k := bks]);
      assert Abs() == Replaced(s, old(u), f, k, bks);
      assert bks < |Logico()|;
      ghost var x := Logico()[bks];
      FreshAlone(old(u), f, k, bks);
      PagesWide(Abs(), u);
      InPlaceAlone(Paginas(), u, f, k, block);
      EscreverPagina(bks, block, f, k);
      SamePage(old(Paginas()), f, k, x, block);
    }

    /** Writes a file's block through the cache, for all slots that name it. */
    method EscreverPagina(b: nat, dados: Block, ghost f: nat, ghost k: nat)
      requires Partly() && IsType(Abs(), f, FS_FILE) && k < |u.slots[f]| && b == u.slots[f][k]
      modifies this`cache
      ensures Partly() && Abs() == old(Abs()).(cache := cache) && Paginas() == Everywhere(old(Paginas()), u, b, dados)
    {
      hide Core, LogicalDisk, FileSlots, Acc, Write, Loaded, Everywhere;
      CoreParts(Abs(), u);
      AccShape(Abs().bmap, Abs().refs, u);
      LinkedAt(Abs(), u, f);
      FileOnly(Abs(), u, f);
      SlotCounted(u, f, k);
      WriteCore(Abs(), u, b, dados);
      WriteEverywhere(Logico(), u, b, dados);
      cache := Write(cache, b, dados);
    }

    /** Writes a file's block. If its count makes the code copy it first, or nobody else has it, one page changes, the
        first of the file with that block; with a count of 0 or 1 it is written in place, for all that have it. */
    method EscreverBloco(f: nat, k: nat, dados: Block) returns (ghost kk: nat)
      requires Partly() && IsType(Abs(), f, FS_FILE) && k < |u.slots[f]|
      modifies this`u, this`cache, referencias, blk_bmap, inode_tab
      ensures Partly() && (old(Certo()) ==> Certo()) && old(u).slots[f][k] < |old(Abs()).refs|
      ensures Copied(old(Abs()).refs, old(u).slots[f][k]) || Alone(old(u), f, k) ==> OnePage(old(u), u, old(Paginas()), Paginas(), f, k, kk, dados)
      ensures f < |u.slots| && |u.slots[f]| == |old(u).slots[f]| && forall m :: 0 <= m < |u.slots[f]| && m != kk ==> u.slots[f][m] == old(u).slots[f][m]
      ensures !Copied(old(Abs()).refs, old(u).slots[f][k]) ==> u == old(u) && InAllSlots(u, old(Paginas()), Paginas(), u.slots[f][k], dados)
      ensures SameButBlocks(old(Abs()), Abs(), f) && (NoRepeat(old(u)) ==> NoRepeat(u))
      ensures f < |u.slots| && (Distinct(old(u).slots[f]) ==> Distinct(u.slots[f])) && u == SetSlots(old(u), f, u.slots[f]) && |u.slots[f]| == |old(u).slots[f]|
    {
      hide Core, Fits, LogicalDisk, FileSlots, Acc, Everywhere;
      ghost var s, v, ps := Abs(), u, Paginas();
      CoreParts(s, v);
      LinkedAt(s, v, f);
      PagesWide(s, v);
      var idBloco := inode_tab[f].blocks[k];
      var novo;
      novo, kk := CopyOnWrite(idBloco, f, k);
      NoRepeatFresh(v, u, f, kk, novo);
      if novo >= 0 {
        FreshAlone(v, f, kk, novo);
      }
      PagesWide(Abs(), u);
      EscreverPagina(if novo >= 0 then novo else idBloco, dados, f, kk);
      if Alone(u, f, kk) {
        InPlaceAlone(ps, u, f, kk, dados);
      }
      if novo < 0 && Alone(v, f, k) {
        AloneOwn(v, f, k);
      }
    }

    // ---------- Reading ----------

    /** The contents of a file or directory. */
    ghost function Conteudo(f: nat): seq<Byte>
      reads this, referencias, blk_bmap, inode_bmap, inode_tab
      requires Modulo() && f < INODES && (IsType(Abs(), f, FS_FILE) || IsType(Abs(), f, FS_DIR))
    {
      Contents(Abs(), u, f)
    }

    /** Reads at most `count` bytes of a file from `offset` on. */
    method FsRead(file: nat, offset: nat, count: nat) returns (status: int, buffer: seq<Byte>)
      requires Valid()
      modifies this`cache
      ensures Valid() && Abs() == old(Abs()).(cache := cache) && Paginas() == old(Paginas())
      ensures status == if IsType(Abs(), file, FS_FILE) then 0 else -1
      ensures status == 0 ==> buffer == Slice(Conteudo(file), offset, count)
    {
      hide Core, Sized, Counted, LogicalDisk, ByteAt, Tree;
      ghost var s := Abs();
      InvParts(s, u);
      buffer := [];
      if file >= INODES || inode_bmap[file / 8] & Mask(file % 8) == 0 || inode_tab[file].tipo != FS_FILE {
        return -1, [];
      }
      SizeAt(s, u, file);
      var size := inode_tab[file].size;
      if offset >= size {
        return 0, [];
      }
      buffer := LerPaginas(file, offset, if count <= size - offset then count else size - offset);
      InvCache(s, u, Abs());
      CacheKeepsTree(s, u, Abs());
      ReadSlice(Paginas()[file], size, offset, count, buffer);
      status := 0;
    }

    /** Reads block by block. */
    method LerPaginas(file: nat, offset: nat, max: nat) returns (buffer: seq<Byte>)
      requires Partly() && IsType(Abs(), file, FS_FILE) && offset < inode_tab[file].size && offset + max <= inode_tab[file].size
      requires file < |u.slots| && |u.slots[file]| == OffsetToBlocks(inode_tab[file].size)
      modifies this`cache
      ensures Partly() && Abs() == old(Abs()).(cache := cache) && Paginas() == old(Paginas())
      ensures |buffer| == max && IsRead(Paginas()[file], offset, buffer)
    {
      hide Core, LogicalDisk, ByteAt, IsRead, AtBlock, OffsetToBlocks;
      CoreParts(Abs(), u);
      ghost var ps := Paginas()[file];
      SizeFits(inode_tab[file].size);
      buffer := [];
      ReadNothing(ps, offset, max);
      var pos: nat, iblock: nat := 0, offset / BLOCK_SIZE;
      var blksUsed := OffsetToBlocks(inode_tab[file].size);
      while pos < max && iblock < blksUsed
        invariant Partly() && Abs() == old(Abs()).(cache := cache) && Paginas() == old(Paginas())
        invariant |buffer| == pos <= max && AtBlock(offset, pos, max, iblock) && IsRead(ps, offset, buffer)
        decreases max - pos
      {
        var num;
        buffer, num := LerMais(file, offset, buffer, max, iblock);
        pos := pos + num;
        iblock := iblock + 1;
      }
      ReadAll(offset, pos, max, iblock, inode_tab[file].size);
    }

    /** Reads what is wanted of one block. */
    method LerMais(file: nat, offset: nat, lido: seq<Byte>, max: nat, iblock: nat) returns (buffer: seq<Byte>, num: nat)
      requires Partly() && IsType(Abs(), file, FS_FILE) && file < |u.slots| && iblock < |u.slots[file]|
      requires |lido| < max && AtBlock(offset, |lido|, max, iblock) && IsRead(Paginas()[file], offset, lido)
      modifies this`cache
      ensures Partly() && Abs() == old(Abs()).(cache := cache) && Paginas() == old(Paginas())
      ensures 0 < num && |buffer| == |lido| + num <= max && AtBlock(offset, |buffer|, max, iblock + 1) && IsRead(Paginas()[file], offset, buffer)
    {
      hide Core, LogicalDisk, ByteAt, IsRead, AtBlock;
      var block := LerBlocoDoInode(file, iblock);
      var start := if |lido| == 0 then offset % BLOCK_SIZE else 0;
      num := if BLOCK_SIZE - start <= max - |lido| then BLOCK_SIZE - start else max - |lido|;
      NextBlock(offset, |lido|, max, iblock, start, num);
      StillAt(offset, |lido|, max, iblock);
      BufferStep(Paginas()[file], offset, lido, block, start, num);
      buffer := lido + block[start..start + num];
    }

    method LerBlocoDoInode(file: nat, iblock: nat) returns (dados: Block)
      requires Partly() && IsType(Abs(), file, FS_FILE) && file < |u.slots| && iblock < |u.slots[file]|
      modifies this`cache
      ensures Partly() && Abs() == old(Abs()).(cache := cache) && Paginas() == old(Paginas()) && dados == Paginas()[file][iblock]
    {
      hide Core, LogicalDisk;
      CoreParts(Abs(), u);
      LinkedAt(Abs(), u, file);
      dados := LerBloco(inode_tab[file].blocks[iblock], file, iblock);
    }

    // ---------- Writing ----------

    /** Since state `s0`, only the blocks of file `f` changed, which has `n` slots now. */
    ghost predicate Mudando(s0: Fs, u0: Usage, ps0: seq<Pages>, f: nat, n: nat)
      reads this, referencias, blk_bmap, inode_bmap, inode_tab
    {
      && Partly() && IsType(Abs(), f, FS_FILE) && SameButBlocks(s0, Abs(), f) && u.dirs == u0.dirs && |u.slots| == |u0.slots| && f < |u.slots| && |u.slots[f]| == n
      && |ps0| == |u0.slots| && (forall g :: 0 <= g < |u.slots| && g != f ==> u.slots[g] == u0.slots[g] && Paginas()[g] == ps0[g])
    }

    /** And the counts are right; a file without repeated blocks still has none. */
    ghost predicate Escrevendo(s0: Fs, u0: Usage, ps0: seq<Pages>, f: nat, n: nat)
      reads this, referencias, blk_bmap, inode_bmap, inode_tab
    {
      Certo() && Mudando(s0, u0, ps0, f, n) && (Distinct(u0.slots[f]) ==> Distinct(u.slots[f]))
    }

    /** Takes blocks for the slots `used` to `used + req - 1` of a file. */
    method ReservarBlocos(file: nat, used: nat, req: nat, ghost s0: Fs, ghost u0: Usage, ghost ps0: seq<Pages>)
      requires Escrevendo(s0, u0, ps0, file, used) && used + req <= INODE_NUM_BLKS
      requires Paginas()[file] == ps0[file] && Extends(u0.slots[file], u.slots[file])
      modifies this`u, referencias, blk_bmap, inode_tab
      ensures Escrevendo(s0, u0, ps0, file, used + req) && |ps0[file]| == used
      ensures |Paginas()[file]| == used + req && Paginas()[file][..used] == ps0[file]
      ensures file < |u.slots| && file < |u0.slots| && Extends(u0.slots[file], u.slots[file])
    {
      hide Core, Fits, Distinct, LogicalDisk, Escrevendo, Extends;
      SlotCount(s0, u0, ps0, file, used);
      var i: nat := used;
      while i < used + req
        invariant used <= i <= used + req && Escrevendo(s0, u0, ps0, file, i)
        invariant EscrevendoParcial(file, i) && Paginas()[file][..used] == ps0[file]
        invariant Extends(u0.slots[file], u.slots[file])
      {
        ReservarMais(file, i, s0, u0, ps0);
        i := i + 1;
      }
    }

    ghost predicate EscrevendoParcial(f: nat, n: nat)
      reads this, referencias, blk_bmap, inode_bmap, inode_tab
    {
      Partly() && f < |u.slots| && |Paginas()[f]| == |u.slots[f]| == n
    }

    lemma SlotCount(s0: Fs, u0: Usage, ps0: seq<Pages>, f: nat, n: nat)
      requires Escrevendo(s0, u0, ps0, f, n)
      ensures Partly() && f < |Paginas()| && EscrevendoParcial(f, n) && |ps0| == |Paginas()| && f < |u0.slots|
    {
    }

    method ReservarMais(file: nat, i: nat, ghost s0: Fs, ghost u0: Usage, ghost ps0: seq<Pages>)
      requires Escrevendo(s0, u0, ps0, file, i) && i < INODE_NUM_BLKS && Extends(u0.slots[file], u.slots[file])
      modifies this`u, referencias, blk_bmap, inode_tab
      ensures Escrevendo(s0, u0, ps0, file, i + 1) && EscrevendoParcial(file, i + 1)
      ensures |old(Paginas()[file])| == i && Paginas()[file][..i] == old(Paginas()[file])
      ensures file < |u.slots| && file < |u0.slots| && Extends(u0.slots[file], u.slots[file])
    {
      hide Core, Fits, Distinct, LogicalDisk, IsSet, Extends;
      ghost var s := Abs();
      CoreParts(s, u);
      var b := ReservarBloco(file, i);
      ReservedFresh(old(u), file, b);
      ExtendsMore(u0.slots[file], old(u).slots[file], b);
      assert SameButBlocks(s, Abs(), file);
      SameTrans(s0, s, Abs(), file);
    }

    /** Puts bytes of the buffer in a block, from `start` on. */
    method Preencher(block: Block, start: nat, buffer: seq<Byte>, num: nat) returns (novo: Block, num': nat)
      requires start < BLOCK_SIZE && num <= |buffer|
      ensures num <= num' && num' - num == (if BLOCK_SIZE - start <= |buffer| - num then BLOCK_SIZE - start else |buffer| - num)
      ensures FileBytes.Filled(block, novo, start, buffer, num, num' - num)
    {
      novo, num' := block, num;
      var i := start;
      while i < BLOCK_SIZE && num' < |buffer|
        invariant start <= i <= BLOCK_SIZE && num <= num' <= |buffer| && num' - num == i - start
        invariant FileBytes.Filled(block, novo, start, buffer, num, num' - num)
      {
        novo := novo[i := buffer[num']];
        i := i + 1;
        num' := num' + 1;
      }
    }

    /** Writes what belongs into one block; a new block need not be read before. */
    method EscreverMais(file: nat, offset: nat, buffer: seq<Byte>, num: nat, iblock: nat, lixo: Block, existente: bool,
                        ghost s0: Fs, ghost u0: Usage, ghost ps0: seq<Pages>, ghost size: nat, ghost n: nat)
      returns (block: Block, num': nat)
      requires Escrevendo(s0, u0, ps0, file, n) && iblock < n
      requires num < |buffer| && AtBlock(offset, num, |buffer|, iblock)
      requires Laid(u0.slots[file], ps0[file], u.slots[file], Paginas()[file], size, offset, buffer, iblock, num)
      requires existente || (iblock >= |ps0[file]| && (offset + num) % BLOCK_SIZE == 0)
      modifies this`u, this`cache, referencias, blk_bmap, inode_tab
      ensures Escrevendo(s0, u0, ps0, file, n)
      ensures num < num' <= |buffer| && AtBlock(offset, num', |buffer|, iblock + 1)
      ensures file < |u.slots| && Laid(u0.slots[file], ps0[file], u.slots[file], Paginas()[file], size, offset, buffer, iblock + 1, num')
    {
      hide Core, Fits, Distinct, LogicalDisk, IsSet, AtBlock, FileBytes.Filled, Laid, Everywhere;
      block := lixo;
      if existente {
        block := LerBlocoDoInode(file, iblock);
      }
      var start := if num == 0 then offset % BLOCK_SIZE else 0;
      ghost var antes := block;
      block, num' := Preencher(block, start, buffer, num);
      NextBlock(offset, num, |buffer|, iblock, start, num' - num);
      StillAt(offset, num, |buffer|, iblock);
      ghost var ps, s, v := Paginas()[file], Abs(), u;
      CountTells(s, v, file, iblock);
      ghost var kk := EscreverBloco(file, iblock, block);
      SameTrans(s0, s, Abs(), file);
      AtStart(offset, num, |buffer|, iblock);
      AloneRow(u, file, kk);
      LaidStep(u0.slots[file], ps0[file], v.slots[file], ps, u.slots[file], Paginas()[file], size, offset, buffer, iblock, num, num' - num, kk, antes, block);
    }

    /** Writes the buffer block by block, first over existing blocks, then into new ones; what the block
        buffer held before does not matter. */
    method EscreverDados(file: nat, offset: nat, buffer: seq<Byte>, used: nat, req: nat,
                         ghost s0: Fs, ghost u0: Usage, ghost ps0: seq<Pages>, ghost size: nat)
      returns (num: nat, ghost iblock': nat)
      requires Escrevendo(s0, u0, ps0, file, used + req) && |ps0[file]| == used && offset <= size && OffsetToBlocks(size) == used
      requires Laid(u0.slots[file], ps0[file], u.slots[file], Paginas()[file], size, offset, buffer, offset / BLOCK_SIZE, 0)
      modifies this`u, this`cache, referencias, blk_bmap, inode_tab
      ensures Escrevendo(s0, u0, ps0, file, used + req)
      ensures file < |u.slots| && Laid(u0.slots[file], ps0[file], u.slots[file], Paginas()[file], size, offset, buffer, iblock', num)
      ensures num == |buffer| <==> offset + |buffer| <= BLOCK_SIZE * (used + req)
    {
      hide Core, Fits, Distinct, LogicalDisk, Escrevendo, Laid, AtBlock;
      SlotCount(s0, u0, ps0, file, used + req);
      var lixo: Block := *;
      num := 0;
      var iblock: nat := offset / BLOCK_SIZE;
      StartAt(offset, |buffer|);
      while num < |buffer| && iblock < used
        invariant Escrevendo(s0, u0, ps0, file, used + req) && num <= |buffer| && AtBlock(offset, num, |buffer|, iblock)
        invariant EscrevendoParcial(file, used + req)
        invariant Laid(u0.slots[file], ps0[file], u.slots[file], Paginas()[file], size, offset, buffer, iblock, num)
        decreases |buffer| - num
      {
        lixo, num := EscreverMais(file, offset, buffer, num, iblock, lixo, true, s0, u0, ps0, size, used + req);
        SlotCount(s0, u0, ps0, file, used + req);
        iblock := iblock + 1;
      }
      while num < |buffer| && iblock < used + req
        invariant Escrevendo(s0, u0, ps0, file, used + req) && num <= |buffer| && AtBlock(offset, num, |buffer|, iblock)
        invariant EscrevendoParcial(file, used + req) && (num < |buffer| ==> iblock >= used)
        invariant Laid(u0.slots[file], ps0[file], u.slots[file], Paginas()[file], size, offset, buffer, iblock, num)
        decreases |buffer| - num
      {
        BeyondEnd(offset, num, |buffer|, iblock, size);
        lixo, num := EscreverMais(file, offset, buffer, num, iblock, lixo, false, s0, u0, ps0, size, used + req);
        SlotCount(s0, u0, ps0, file, used + req);
        iblock := iblock + 1;
      }
      LaidBounds(u0.slots[file], ps0[file], u.slots[file], Paginas()[file], size, offset, buffer, iblock, num);
      AllReached(offset, buffer, num, iblock, used + req);
      iblock' := iblock;
    }

    lemma Comecar(f: nat, used: nat)
      requires Certo() && IsType(Abs(), f, FS_FILE) && f < |u.slots| && |u.slots[f]| == used
      ensures Escrevendo(Abs(), u, Paginas(), f, used) && |Paginas()[f]| == used
    {
      hide Core, Fits, LogicalDisk, IsSet;
      CoreParts(Abs(), u);
      var i := Abs().inodes[f];
      assert Abs().inodes[f := i.(blocks := i.blocks)] == Abs().inodes;
    }

    /** A file's new size, when its slots fit it. */
    lemma Terminado(f: nat, size: nat, s0: Fs, u0: Usage, ps0: seq<Pages>, n: nat)
      requires Mudando(s0, u0, ps0, f, n) && FsInv(s0, u0) && size <= MAX_SIZE && OffsetToBlocks(size) == n
      ensures f < |Abs().inodes| && FsModulo(Resized(Abs(), f, size), u) && PagesFor(Resized(Abs(), f, size), u) == Paginas()
      ensures IsType(Resized(Abs(), f, size), f, FS_FILE)
    {
      hide Core, Fits, LogicalDisk, Counted, Sized, IsSet, OffsetToBlocks;
      CoreParts(Abs(), u);
      InvParts(s0, u0);
      ResizedInv(s0, u0, Abs(), u, f, size);
    }

    method MudarTamanho(f: nat, size: nat)
      requires f < inode_tab.Length == INODES && 8 * blk_bmap.Length == 8 * inode_bmap.Length == BMAP_BITS
      modifies inode_tab
      ensures Abs() == Resized(old(Abs()), f, size)
    {
      inode_tab[f] := inode_tab[f].(size := size);
    }

    /** Gives the file its new size. */
    method Acabar(f: nat, size: nat, ghost s0: Fs, ghost u0: Usage, ghost ps0: seq<Pages>, ghost n: nat)
      requires Mudando(s0, u0, ps0, f, n) && FsInv(s0, u0) && size <= MAX_SIZE && OffsetToBlocks(size) == n
      modifies inode_tab
      ensures Modulo() && Abs() == Resized(old(Abs()), f, size) && u == old(u) && Paginas() == old(Paginas())
      ensures IsType(Abs(), f, FS_FILE)
    {
      hide Core, Fits, LogicalDisk, FsModulo, IsSet, OffsetToBlocks;
      CoreParts(Abs(), u);
      Terminado(f, size, s0, u0, ps0, n);
      MudarTamanho(f, size);
      ModuloParts(Abs(), u);
    }

    /** Writes `buffer` into a file at `offset0`, or at its end if that is beyond. The contents become the splice
        exactly if pages with a twin before the written range hold already what is written to them; a file that
        lists no block twice has none. The process ends if the end position does not fit 32 bits. */
    method FsWrite(file: nat, offset0: nat, buffer: seq<Byte>) returns (status: int, ended: bool)
      requires Valid() && offset0 < U32 && |buffer| < U32
      modifies this`cache, this`u, referencias, blk_bmap, inode_tab
      ensures ended <==>
        && IsType(old(Abs()), file, FS_FILE)
        && var end := |old(Conteudo(file))|; (if offset0 <= end then offset0 else end) + |buffer| >= U32
      ensures !ended ==> Valid() && (status == 0 || status == -1)
      ensures !ended ==> (status == 0 <==>
        && IsType(old(Abs()), file, FS_FILE)
        && var end := |old(Conteudo(file))|; (if offset0 <= end then offset0 else end) + |buffer| <= MAX_SIZE)
      ensures !ended && status == -1 ==> Abs() == old(Abs()) && u == old(u)
      ensures !ended && status == 0 ==> IsType(Abs(), file, FS_FILE) && file < |old(u).slots| && file < |old(Paginas())|
      ensures !ended && status == 0 && offset0 <= |old(Conteudo(file))| ==>
        (Conteudo(file) == Splice(old(Conteudo(file)), offset0, buffer) <==> TwinsSame(old(u).slots[file], old(Paginas())[file], offset0, buffer))
      ensures !ended && status == 0 && offset0 > |old(Conteudo(file))| ==>
        var end := |old(Conteudo(file))|;
        (Conteudo(file) == old(Conteudo(file)) + buffer <==> TwinsSame(old(u).slots[file], old(Paginas())[file], end, buffer))
      ensures !ended && status == 0 ==> OthersKept(old(Abs()), old(u), Abs(), u, file)
      ensures !ended && NoRepeat(old(u)) ==> NoRepeat(u)
    {
      hide Core, Fits, NoRepeat, Distinct, Sized, Counted, LogicalDisk, Escrevendo, TwinsSame, Tree, Splice, OthersKept, OffsetToBlocks;
      ghost var s0, u0 := Abs(), u;
      InvParts(s0, u0);
      if file >= INODES || inode_bmap[file / 8] & Mask(file % 8) == 0 || inode_tab[file].tipo != FS_FILE {
        return -1, false;
      }
      SizeAt(s0, u0, file);
      var size := inode_tab[file].size;
      var offset := if offset0 > size then size else offset0;
      var used := OffsetToBlocks(size);
      var total := OffsetToBlocks((offset + |buffer|) % U32);
      var req := (if total >= used then total else used) - used;
      NeededBlocks(size, offset, |buffer|);
      if req > 0 && req > INODE_NUM_BLKS - used {
        return -1, false;
      }
      ended := Gravar(file, offset, buffer, size, used, req);
      status := 0;
      if !ended {
        SpliceEnd(Contents(s0, u0, file), buffer);
        InvParts(Abs(), u);
        FileKeepsTree(s0, u0, Abs(), u, file);
      }
    }

    /** Takes the blocks that a write needs, writes the buffer and sets the size. */
    method Gravar(file: nat, offset: nat, buffer: seq<Byte>, size: nat, used: nat, req: nat) returns (ended: bool)
      requires Coerente() && IsType(Abs(), file, FS_FILE) && size == inode_tab[file].size && offset <= size
      requires file < |u.slots| && |u.slots[file]| == used == OffsetToBlocks(size) && used + req <= INODE_NUM_BLKS
      requires offset + |buffer| <= BLOCK_SIZE * (used + req) ==>
        OffsetToBlocks(if offset + |buffer| >= size then offset + |buffer| else size) == used + req
      modifies this`cache, this`u, referencias, blk_bmap, inode_tab
      ensures ended <==> offset + |buffer| > BLOCK_SIZE * (used + req)
      ensures !ended ==> Coerente() && OthersKept(old(Abs()), old(u), Abs(), u, file)
      ensures !ended ==> IsType(Abs(), file, FS_FILE)
      ensures !ended ==>
        && file < |old(u).slots| && file < |old(Paginas())| && offset <= |old(Conteudo(file))|
        && (Conteudo(file) == Splice(old(Conteudo(file)), offset, buffer) <==> TwinsSame(old(u).slots[file], old(Paginas())[file], offset, buffer))
      ensures !ended && NoRepeat(old(u)) ==> NoRepeat(u)
    {
      hide Core, Fits, Sized, Counted, LogicalDisk, Escrevendo, Mudando, Laid, TwinsSame, Extends, Consistent, OthersKept, OffsetToBlocks, IsSet, NoRepeat, Distinct, Splice;
      ghost var s0, u0, ps0 := Abs(), u, Paginas();
      InvParts(s0, u0);
      SizeAt(s0, u0, file);
      Comecar(file, used);
      ExtendsSelf(u0.slots[file]);
      ConsistentPages(s0, u0, file);
      if req > 0 {
        ReservarBlocos(file, used, req, s0, u0, ps0);
      }
      SlotCount(s0, u0, ps0, file, used + req);
      ConsistentPages(Abs(), u, file);
      LaidStart(u0.slots[file], ps0[file], u.slots[file], Paginas()[file], size, offset, buffer);
      var num;
      ghost var iblock;
      num, iblock := EscreverDados(file, offset, buffer, used, req, s0, u0, ps0, size);
      if num != |buffer| {
        return true;
      }
      ghost var s1 := Abs();
      EscrevendoParts(s0, u0, ps0, file, used + req);
      SizeLimit(if offset + |buffer| >= size then offset + |buffer| else size);
      Acabar(file, if offset + |buffer| >= size then offset + |buffer| else size, s0, u0, ps0, used + req);
      WriteDone(s0, u0, ps0, s1, Abs(), u, file, size, offset, buffer, iblock);
      ended := false;
    }

    lemma EscrevendoParts(s0: Fs, u0: Usage, ps0: seq<Pages>, f: nat, n: nat)
      requires Escrevendo(s0, u0, ps0, f, n)
      ensures Certo() && Mudando(s0, u0, ps0, f, n)
      ensures IsType(Abs(), f, FS_FILE) && SameButBlocks(s0, Abs(), f) && |u.slots| == |u0.slots| == |ps0| && f < |u.slots|
      ensures forall g :: 0 <= g < |u.slots| && g != f ==> Paginas()[g] == ps0[g]
      ensures NoRepeat(u0) ==> NoRepeat(u)
    {
      hide Core, Fits, LogicalDisk, IsSet;
      if NoRepeat(u0) {
        forall g | 0 <= g < |u.slots| ensures Distinct(u.slots[g]) { assert Distinct(u0.slots[g]); }
      }
    }

    // ---------- Giving blocks up and sharing them ----------

    /** Since state `s0`, the first `k` slots of inode `f` were given up. */
    ghost predicate Apagando(s0: Fs, u0: Usage, ps0: seq<Pages>, f: nat, k: nat)
      reads this, referencias, blk_bmap, inode_bmap, inode_tab
    {
      blk_bmap != inode_bmap && GivingUp(s0, u0, ps0, f, k, Abs(), u)
    }

    /** Gives a block up for inode `f`: 2 if its count says that others still have it; otherwise it is deleted and
        becomes free. */
    method ApagarBloco(b: nat, f: nat) returns (status: int)
      requires Formed(Abs()) && 8 * |Abs().bmap| == BMAP_BITS && blk_bmap != inode_bmap && f < INODES && b < |Abs().refs| && b < BMAP_BITS
      modifies this`cache, referencias, blk_bmap
      ensures Abs() == Erased(old(Abs()), f, b) && status == if old(Abs()).refs[b] > 1 then 2 else 0
    {
      hide IsSet, ClrBit, RawWrite, Eliminate, Down;
      var nRef := referencias[b];
      if nRef > 1 {
        referencias[b] := Down(referencias[b]);
        return 2;
      }
      referencias[b] := 0;
      if inode_tab[f].tipo == FS_DIR {
        cache := RawWrite(cache, b, Zeros());
      } else {
        cache := Eliminate(cache, b);
      }
      BmapClr(blk_bmap, b);
      status := 0;
    }

    /** The next slot of an inode is given up. */
    method ApagarMais(f: nat, ghost s0: Fs, ghost u0: Usage, ghost ps0: seq<Pages>, k: nat)
      requires Apagando(s0, u0, ps0, f, k) && k < |u0.slots[f]|
      modifies this`cache, this`u, referencias, blk_bmap
      ensures Apagando(s0, u0, ps0, f, k + 1)
    {
      hide GivingUp, Erased, DroppedFrom, Formed;
      ghost var s, v := Abs(), u;
      GivenUpNext(s0, u0, ps0, f, k, s, v);
      var status := ApagarBloco(inode_tab[f].blocks[k], f);
      u := SetSlots(v, f, v.slots[f][1..]);
    }

    /** Gives up all blocks of an inode. */
    method ApagarBlocos(f: nat) returns (ghost s0: Fs, ghost u0: Usage, ghost ps0: seq<Pages>)
      requires Coerente() && (IsType(Abs(), f, FS_FILE) || IsType(Abs(), f, FS_DIR))
      modifies this`cache, this`u, referencias, blk_bmap
      ensures s0 == old(Abs()) && u0 == old(u) && ps0 == old(Paginas()) && f < |u0.slots|
      ensures Partly() && Apagando(s0, u0, ps0, f, |u0.slots[f]|)
    {
      hide CoreBut, Core, Fits, LogicalDisk, Apagando, IsSet;
      s0, u0, ps0 := Abs(), u, Paginas();
      InvParts(s0, u0);
      SizeAt(s0, u0, f);
      ApagarInicio(f);
      LinkedAt(s0, u0, f);
      CoreParts(s0, u0);
      var numBlocos := OffsetToBlocks(inode_tab[f].size);
      var k: nat := 0;
      while k < numBlocos
        invariant 0 <= k <= numBlocos && Apagando(s0, u0, ps0, f, k)
      {
        ApagarMais(f, s0, u0, ps0, k);
        k := k + 1;
      }
      ApagarFim(s0, u0, ps0, f);
    }

    lemma ApagarInicio(f: nat)
      requires Certo() && f < |u.slots| && f < INODES
      ensures Apagando(Abs(), u, Paginas(), f, 0)
    {
      hide Fits, LogicalDisk, IsSet, Acc, Linked, CacheInv, RawOk, Roots;
      CoreParts(Abs(), u);
      CoreIsBut(Abs(), u, f);
      assert u.slots[f][0..] == u.slots[f];
    }

    lemma ApagarFim(s0: Fs, u0: Usage, ps0: seq<Pages>, f: nat)
      requires f < |u0.slots| && Apagando(s0, u0, ps0, f, |u0.slots[f]|)
      ensures Certo() && u == SetSlots(u0, f, []) && |u0.slots| == INODES && |ps0| == INODES
      ensures SameButBlocks(s0, Abs(), f) && forall g :: 0 <= g < |u.slots| && g != f ==> Paginas()[g] == ps0[g]
    {
      hide Fits, LogicalDisk, IsSet, Acc, CacheInv, RawOk, Roots, LinkedInode;
      CoreParts(s0, u0);
      LinkedAt(s0, u0, f);
      var all := u0.slots[f];
      assert all[|all|..] == [];
      assert u == SetSlots(u0, f, []) && u.slots[f] == [];
      assert u.dirs[f] == IsType(Abs(), f, FS_DIR);
      CoreIsBut(Abs(), u, f);
      SameInodes(s0, Abs(), f);
    }

    lemma SameInodes(s: Fs, s': Fs, f: nat)
      requires s'.inodes == s.inodes && s'.ibmap == s.ibmap && |s'.refs| == |s.refs| && f < |s.inodes|
      ensures SameButBlocks(s, s', f)
    {
      var i := s.inodes[f];
      assert s.inodes[f := i.(blocks := i.blocks)] == s.inodes;
    }

    /** Slot `n` of inode `f` names the block of slot `a` of inode `g` too, and the block is counted once more. */
    method PartilharBloco(f: nat, n: nat, g: nat, a: nat)
      requires Formed(Abs()) && 8 * |Abs().bmap| == BMAP_BITS && f < INODES && g < INODES && n < INODE_NUM_BLKS && a < INODE_NUM_BLKS
      requires Abs().inodes[g].blocks[a] < |Abs().refs|
      modifies referencias, inode_tab
      ensures var s, b := old(Abs()), old(inode_tab[g].blocks[a]);
        Abs() == SetBlock(s, f, n, b).(refs := s.refs[b := Up(s.refs[b])])
    {
      var b := inode_tab[g].blocks[a];
      inode_tab[f] := WithBlock(inode_tab[f], n, b);
      referencias[b] := Up(referencias[b]);
    }

    /** File `destino` gives up its blocks and shares those of `origem`. If they are the same file, it counts the
        blocks again that it has given up. */
    method CopiarBlocos(origem: nat, destino: nat)
      requires Coerente() && IsType(Abs(), origem, FS_FILE) && IsType(Abs(), destino, FS_FILE)
      modifies this`cache, this`u, referencias, blk_bmap, inode_tab
      ensures origem != destino ==> Modulo() && IsType(Abs(), destino, FS_FILE) && Conteudo(destino) == old(Conteudo(origem))
      ensures origem != destino ==> OthersKept(old(Abs()), old(u), Abs(), u, destino)
      ensures origem < |old(u).slots| && destino < |old(u).slots| && u == SetSlots(old(u), destino, old(u).slots[origem])
      ensures origem == destino ==>
        && (Coerente() <==> OthersHave(old(Abs()).refs, old(u).slots[origem])) && Abs().inodes == old(Abs()).inodes && Abs().ibmap == old(Abs()).ibmap
        && (Coerente() ==> Core(Abs(), u) && Paginas() == old(Paginas()))
    {
      hide Core, Fits, LogicalDisk, Sized, Counted, Apagando, Mudando, OthersKept, IsSet, OthersHave, Copiando, Recopiando, GivenUp;
      ghost var s, v, ps := Abs(), u, Paginas();
      InvParts(s, v);
      SizeAt(s, v, origem);
      ghost var s0, u0, ps0 := ApagarBlocos(destino);
      ApagandoFim(s, v, ps, destino);
      ghost var s1 := Abs();
      if origem == destino {
        RecopiarInicio(s, v, ps, destino);
        u := v;
        RecopiarComeca(s, v, s1, destino);
        assert CopiandoOuNao(s, v, ps, s1, origem, destino, 0);
      } else {
        CopiarInicio(s, v, ps, s1, origem, destino);
      }
      var num := OffsetToBlocks(inode_tab[origem].size);
      var i: nat := 0;
      while i < num
        invariant 0 <= i <= num && CopiandoOuNao(s, v, ps, s1, origem, destino, i)
      {
        CopiarMais(s, v, ps, s1, origem, destino, i);
        i := i + 1;
      }
      CopiarFim(s, v, ps, s1, origem, destino, i);
    }

    /** The first `i` blocks of `origem` are shared. */
    ghost predicate Copiando(s: Fs, v: Usage, ps: seq<Pages>, origem: nat, destino: nat, i: nat)
      reads this, referencias, blk_bmap, inode_bmap, inode_tab
    {
      && Mudando(s, v, ps, destino, i) && Core(s, v) && origem < |v.slots| && origem != destino && IsType(Abs(), origem, FS_FILE)
      && i <= |v.slots[origem]| == |ps[origem]| && u == SetSlots(v, destino, v.slots[origem][..i]) && Paginas()[destino] == ps[origem][..i]
    }

    /** The first `i` blocks of `f`, which it gave up in state `s1`, are counted again. */
    ghost predicate Recopiando(s: Fs, v: Usage, s1: Fs, f: nat, i: nat)
      reads this, referencias, blk_bmap, inode_bmap, inode_tab
    {
      && blk_bmap != inode_bmap && f < |v.slots| && GivenUp(s, v, s1, SetSlots(v, f, []), f) && u == v && i <= |v.slots[f]|
      && (forall k :: 0 <= k < |v.slots[f]| ==> v.slots[f][k] < |s1.refs|)
      && Abs() == s1.(refs := RefsUp(s1.refs, v.slots[f][..i]))
    }

    ghost predicate CopiandoOuNao(s: Fs, v: Usage, ps: seq<Pages>, s1: Fs, origem: nat, destino: nat, i: nat)
      reads this, referencias, blk_bmap, inode_bmap, inode_tab
    {
      if origem == destino then Recopiando(s, v, s1, destino, i) else Copiando(s, v, ps, origem, destino, i)
    }

    lemma CopiarInicio(s: Fs, v: Usage, ps: seq<Pages>, s1: Fs, origem: nat, destino: nat)
      requires Partly() && FsInv(s, v) && ps == PagesFor(s, v) && IsType(s, origem, FS_FILE) && IsType(s, destino, FS_FILE) && origem != destino
      requires |u.slots| == |ps| == |v.slots| == INODES && u == SetSlots(v, destino, []) && SameButBlocks(s, Abs(), destino)
      requires forall g :: 0 <= g < |u.slots| && g != destino ==> Paginas()[g] == ps[g]
      ensures CopiandoOuNao(s, v, ps, s1, origem, destino, 0)
    {
      hide Fits, LogicalDisk, IsSet, Core, Sized, Counted;
      InvParts(s, v);
      CoreParts(Abs(), u);
      assert v.slots[origem][..0] == [];
    }

    /** The blocks of a file that is copied onto itself are given up. */
    lemma RecopiarInicio(s: Fs, v: Usage, ps: seq<Pages>, f: nat)
      requires Certo() && FsInv(s, v) && ps == PagesFor(s, v) && IsType(s, f, FS_FILE) && |u.slots| == |ps| == |v.slots| == INODES
      requires u == SetSlots(v, f, []) && SameButBlocks(s, Abs(), f) && Abs().inodes == s.inodes
      requires forall g :: 0 <= g < |u.slots| && g != f ==> Paginas()[g] == ps[g]
      ensures GivenUp(s, v, Abs(), u, f) && forall k :: 0 <= k < |v.slots[f]| ==> v.slots[f][k] < |Abs().refs|
    {
      hide Fits, LogicalDisk, IsSet, Core, Sized, Counted;
      InvParts(s, v);
      CoreParts(Abs(), u);
      CoreParts(s, v);
      AccShape(s.bmap, s.refs, v);
      LinkedAt(s, v, f);
    }

    lemma RecopiarComeca(s: Fs, v: Usage, s1: Fs, f: nat)
      requires blk_bmap != inode_bmap && f < |v.slots| && GivenUp(s, v, s1, SetSlots(v, f, []), f) && u == v && Abs() == s1
      requires forall k :: 0 <= k < |v.slots[f]| ==> v.slots[f][k] < |s1.refs|
      ensures Recopiando(s, v, s1, f, 0)
    {
      hide GivenUp;
      assert RefsUp(s1.refs, v.slots[f][..0]) == s1.refs;
    }

    lemma CopiandoParts(s: Fs, v: Usage, ps: seq<Pages>, origem: nat, destino: nat, i: nat)
      requires Copiando(s, v, ps, origem, destino, i) && FsInv(s, v) && i == |v.slots[origem]|
      ensures Mudando(s, v, ps, destino, i) && Partly() && SameButBlocks(s, Abs(), destino) && Paginas()[destino] == ps[origem]
      ensures |u.slots| == |v.slots| == |ps| && u == SetSlots(v, destino, v.slots[origem])
      ensures forall g :: 0 <= g < |u.slots| && g != destino ==> Paginas()[g] == ps[g]
      ensures destino < |u.slots| && destino < |Abs().inodes| && Abs().inodes[origem] == s.inodes[origem]
    {
      hide Fits, LogicalDisk, IsSet, Core, Sized, Counted;
      InvParts(s, v);
      CoreParts(Abs(), u);
      assert v.slots[origem][..i] == v.slots[origem];
    }

    /** One more block is named by the destination and counted. */
    method CopiarMais(ghost s: Fs, ghost v: Usage, ghost ps: seq<Pages>, ghost s1: Fs, origem: nat, destino: nat, i: nat)
      requires CopiandoOuNao(s, v, ps, s1, origem, destino, i) && FsInv(s, v) && origem < |v.slots| && i < |v.slots[origem]|
      modifies this`u, referencias, inode_tab
      ensures CopiandoOuNao(s, v, ps, s1, origem, destino, i + 1)
    {
      hide Core, Fits, LogicalDisk, FsInv, IsSet, Copiando, Recopiando, SetBlock;
      ghost var s2, u2 := Abs(), u;
      if origem == destino {
        RecopiarPode(s, v, s1, destino, i);
      } else {
        CopiarPode(s, v, ps, origem, destino, i);
      }
      PartilharBloco(destino, i, origem, i);
      if origem == destino {
        RecopiarSegue(s, v, s1, s2, destino, i);
      } else {
        u := SetSlots(u2, destino, u2.slots[destino] + [v.slots[origem][i]]);
        CopiarSegue(s, v, ps, s2, u2, origem, destino, i);
      }
    }

    lemma CopiarPode(s: Fs, v: Usage, ps: seq<Pages>, origem: nat, destino: nat, i: nat)
      requires Copiando(s, v, ps, origem, destino, i) && FsInv(s, v) && origem < |v.slots| && i < |v.slots[origem]|
      ensures Copying(s, v, ps, Abs(), u, origem, destino, i) && destino < |u.slots| && blk_bmap != inode_bmap
      ensures Formed(Abs()) && 8 * |Abs().bmap| == BMAP_BITS && origem < INODES && destino < INODES && i < INODE_NUM_BLKS
      ensures Abs().inodes[origem].blocks[i] == v.slots[origem][i] < |Abs().refs|
    {
      hide Core, Fits, LogicalDisk, Sized, Counted, IsSet;
      InvParts(s, v);
      CoreParts(Abs(), u);
      AccShape(Abs().bmap, Abs().refs, u);
      LinkedAt(s, v, origem);
      ShareSlot(Abs(), u, destino, origem, i);
    }

    lemma CopiarSegue(s: Fs, v: Usage, ps: seq<Pages>, s2: Fs, u2: Usage, origem: nat, destino: nat, i: nat)
      requires Copying(s, v, ps, s2, u2, origem, destino, i) && FsInv(s, v) && i < |v.slots[origem]| && blk_bmap != inode_bmap
      requires i < |s2.inodes[destino].blocks| && v.slots[origem][i] < |s2.refs| && u == SetSlots(u2, destino, u2.slots[destino] + [v.slots[origem][i]])
      requires var b := v.slots[origem][i]; Abs() == SetBlock(s2, destino, i, b).(refs := s2.refs[b := Up(s2.refs[b])])
      ensures Copiando(s, v, ps, origem, destino, i + 1)
    {
      hide Core, LogicalDisk, SetBlock, Up, IsSet, SameButBlocks, FsInv;
      CopyingNext(s, v, ps, s2, u2, origem, destino, i);
    }

    lemma RecopiarPode(s: Fs, v: Usage, s1: Fs, f: nat, i: nat)
      requires Recopiando(s, v, s1, f, i) && FsInv(s, v) && i < |v.slots[f]|
      ensures Formed(Abs()) && 8 * |Abs().bmap| == BMAP_BITS && f < INODES && i < INODE_NUM_BLKS && Abs().inodes[f].blocks[i] == v.slots[f][i] < |Abs().refs|
      ensures GivenUp(s, v, s1, SetSlots(v, f, []), f) && blk_bmap != inode_bmap && u == v
      ensures (forall k :: 0 <= k < |v.slots[f]| ==> v.slots[f][k] < |s1.refs|) && Abs() == s1.(refs := RefsUp(s1.refs, v.slots[f][..i]))
    {
      hide Core, Fits, LogicalDisk, Sized, Counted, IsSet, RefsUp;
      GivenUpParts(s, v, s1, SetSlots(v, f, []), f);
      InvParts(s, v);
      CoreParts(s1, SetSlots(v, f, []));
      LinkedAt(s, v, f);
    }

    lemma RecopiarSegue(s: Fs, v: Usage, s1: Fs, s2: Fs, f: nat, i: nat)
      requires f < |v.slots| && i < |v.slots[f]| && GivenUp(s, v, s1, SetSlots(v, f, []), f) && blk_bmap != inode_bmap && u == v
      requires (forall k :: 0 <= k < |v.slots[f]| ==> v.slots[f][k] < |s1.refs|) && s2 == s1.(refs := RefsUp(s1.refs, v.slots[f][..i]))
      requires f < |s2.inodes| && i < |s2.inodes[f].blocks| && s2.inodes[f].blocks[i] == v.slots[f][i]
      requires var b := v.slots[f][i]; Abs() == SetBlock(s2, f, i, b).(refs := s2.refs[b := Up(s2.refs[b])])
      ensures Recopiando(s, v, s1, f, i + 1)
    {
      hide GivenUp, RefsUp, Up;
      RefsUpNext(s1.refs, v.slots[f], i);
      SameBlock(s2, f, i);
    }

    lemma SameBlock(s: Fs, f: nat, k: nat)
      requires f < |s.inodes| && k < |s.inodes[f].blocks|
      ensures s.inodes[f := WithBlock(s.inodes[f], k, s.inodes[f].blocks[k])] == s.inodes
    {
      var i := s.inodes[f];
      assert i.blocks[k := i.blocks[k]] == i.blocks;
    }

    /** The destination gets the size of the source. */
    method CopiarFim(ghost s: Fs, ghost v: Usage, ghost ps: seq<Pages>, ghost s1: Fs, origem: nat, destino: nat, ghost i: nat)
      requires CopiandoOuNao(s, v, ps, s1, origem, destino, i) && FsInv(s, v) && ps == PagesFor(s, v) && origem < |v.slots| && i == |v.slots[origem]|
      requires IsType(s, origem, FS_FILE) && IsType(s, destino, FS_FILE) && destino < |v.slots|
      modifies inode_tab
      ensures u == SetSlots(v, destino, v.slots[origem]) && Core(s, v)
      ensures origem != destino ==> Modulo() && IsType(Abs(), destino, FS_FILE) && Contents(Abs(), u, destino) == Contents(s, v, origem)
      ensures origem != destino ==> OthersKept(s, v, Abs(), u, destino)
      ensures origem == destino ==>
        && (Coerente() <==> OthersHave(s.refs, v.slots[origem])) && Abs().inodes == s.inodes && Abs().ibmap == s.ibmap
        && (Coerente() ==> Core(Abs(), u) && Paginas() == ps)
    {
      hide Core, Fits, LogicalDisk, Sized, Counted, IsSet, Copiando, Recopiando, OthersHave, OthersKept;
      InvParts(s, v);
      if origem == destino {
        RecopiarFim(s, v, ps, s1, destino);
      } else {
        CopiarOutroFim(s, v, ps, origem, destino, i);
      }
    }

    method CopiarOutroFim(ghost s: Fs, ghost v: Usage, ghost ps: seq<Pages>, origem: nat, destino: nat, ghost i: nat)
      requires Copiando(s, v, ps, origem, destino, i) && FsInv(s, v) && ps == PagesFor(s, v) && i == |v.slots[origem]|
      requires IsType(s, origem, FS_FILE) && IsType(s, destino, FS_FILE)
      modifies inode_tab
      ensures destino < |v.slots| && u == SetSlots(v, destino, v.slots[origem])
      ensures Modulo() && IsType(Abs(), destino, FS_FILE) && Contents(Abs(), u, destino) == Contents(s, v, origem)
      ensures OthersKept(s, v, Abs(), u, destino)
    {
      hide Core, Fits, LogicalDisk, Sized, Counted, IsSet, OthersKept, OffsetToBlocks, Mudando;
      InvParts(s, v);
      SizeAt(s, v, origem);
      CopiandoParts(s, v, ps, origem, destino, i);
      ghost var s2 := Abs();
      CoreParts(s2, u);
      Acabar(destino, inode_tab[origem].size, s, v, ps, i);
      CopyDone(s, v, ps, s2, Abs(), u, origem, destino);
    }

    method RecopiarFim(ghost s: Fs, ghost v: Usage, ghost ps: seq<Pages>, ghost s1: Fs, f: nat)
      requires f < |v.slots| && Recopiando(s, v, s1, f, |v.slots[f]|) && Core(s, v) && ps == PagesFor(s, v)
      modifies inode_tab
      ensures u == SetSlots(v, f, v.slots[f]) && (Coerente() <==> OthersHave(s.refs, v.slots[f])) && Abs().inodes == s.inodes && Abs().ibmap == s.ibmap
      ensures Coerente() ==> Core(Abs(), u) && Paginas() == ps
    {
      hide Core, Fits, LogicalDisk, Sized, Counted, IsSet, RefsUp, OthersHave;
      GivenUpParts(s, v, s1, SetSlots(v, f, []), f);
      InvParts(s, v);
      CoreParts(s, v);
      CoreParts(s1, SetSlots(v, f, []));
      SelfCopied(s, v, s1, SetSlots(v, f, []), f);
      assert v.slots[f][..|v.slots[f]|] == v.slots[f];
      ghost var i := s.inodes[f];
      assert s.inodes[f := i.(size := i.size)] == s.inodes;
      MudarTamanho(f, inode_tab[f].size);
      assert Abs() == Recounted(s1, v, f);
    }

    // ---------- Appending ----------

    /** File `f` gets the blocks of `g` behind its own, shared; -1 if they do not fit. Nothing asks whether `g`
        is a file. */
    method AcrescentarBlocos(f: nat, g: nat) returns (status: int)
      requires Coerente() && IsType(Abs(), f, FS_FILE) && g < |u.slots| && |u.slots[g]| == OffsetToBlocks(inode_tab[g].size)
      modifies this`u, referencias, inode_tab
      ensures status == if OffsetToBlocks(old(inode_tab[f].size)) + OffsetToBlocks(old(inode_tab[g].size)) <= INODE_NUM_BLKS then 0 else -1
      ensures status == -1 ==> Abs() == old(Abs()) && u == old(u)
      ensures status == 0 && IsType(old(Abs()), g, FS_FILE) ==> Partly() && Appended(old(Abs()), old(u), Abs(), u, f, g)
      ensures status == 0 && !IsType(old(Abs()), g, FS_FILE) ==>
        f < |old(u).slots| && IsAppendedRaw(old(Abs()), Abs(), f, g, old(u).slots[f], old(u).slots[g]) && u == SetSlots(old(u), f, old(u).slots[f] + old(u).slots[g])
    {
      hide Core, Fits, LogicalDisk, Sized, Counted, Appended, IsSet, Acrescentando, OffsetToBlocks, IsAppendedRaw;
      ghost var s, v := Abs(), u;
      InvParts(s, v);
      SizeAt(s, v, f);
      var num, num2 := OffsetToBlocks(inode_tab[f].size), OffsetToBlocks(inode_tab[g].size);
      if INODE_NUM_BLKS - num < num2 {
        return -1;
      }
      AcrescentarInicio(f, g);
      var a: nat := 0;
      while a < num2
        invariant 0 <= a <= num2 && Acrescentando(s, v, f, g, a)
      {
        AcrescentarMais(s, v, f, g, num, a);
        a := a + 1;
      }
      SomarTamanhos(f, g, s, v);
      status := 0;
    }

    /** The first `a` blocks of `g` are named by `f` too. */
    ghost predicate Acrescentando(s: Fs, v: Usage, f: nat, g: nat, a: nat)
      reads this, referencias, blk_bmap, inode_bmap, inode_tab
    {
      blk_bmap != inode_bmap && Joining(s, v, Abs(), u, f, g, a)
    }

    lemma AcrescentarInicio(f: nat, g: nat)
      requires Coerente() && IsType(Abs(), f, FS_FILE) && f < |u.slots| && g < |u.slots| && |u.slots[f]| + |u.slots[g]| <= INODE_NUM_BLKS
      ensures Acrescentando(Abs(), u, f, g, 0)
    {
      hide Core, Fits, LogicalDisk, Sized, Counted, IsSet, Appending;
      InvParts(Abs(), u);
      CoreParts(Abs(), u);
      AccShape(Abs().bmap, Abs().refs, u);
      if IsType(Abs(), g, FS_FILE) {
        AppendingStart(Abs(), u, f, g);
      } else {
        LinkedAt(Abs(), u, f);
        LinkedAt(Abs(), u, g);
        assert u.slots[f] + u.slots[g][..0] == u.slots[f] && u.slots[g][..0] == [];
        SharedRawNone(Abs(), f, |u.slots[f]|);
      }
    }

    method AcrescentarMais(ghost s: Fs, ghost v: Usage, f: nat, g: nat, n: nat, a: nat)
      requires Acrescentando(s, v, f, g, a) && f < |v.slots| && n == |v.slots[f]| && g < |v.slots| && a < |v.slots[g]|
      modifies this`u, referencias, inode_tab
      ensures Acrescentando(s, v, f, g, a + 1)
    {
      hide Core, Fits, LogicalDisk, FsInv, IsSet, Acrescentando, SetBlock;
      ghost var s1, u1 := Abs(), u;
      AcrescentarPode(s, v, f, g, a);
      PartilharBloco(f, n + a, g, a);
      u := SetSlots(u1, f, u1.slots[f] + [v.slots[g][a]]);
      AcrescentarSegue(s, v, s1, u1, f, g, a);
    }

    lemma AcrescentarPode(s: Fs, v: Usage, f: nat, g: nat, a: nat)
      requires Acrescentando(s, v, f, g, a) && f < |v.slots| && g < |v.slots| && a < |v.slots[g]|
      ensures Joining(s, v, Abs(), u, f, g, a) && f < |u.slots| && blk_bmap != inode_bmap
      ensures Formed(Abs()) && 8 * |Abs().bmap| == BMAP_BITS && f < INODES && g < INODES && |v.slots[f]| + a < INODE_NUM_BLKS && a < INODE_NUM_BLKS
      ensures Abs().inodes[g].blocks[a] == v.slots[g][a] < |Abs().refs|
    {
      hide Core, Fits, LogicalDisk, Sized, Counted, IsSet, Appending, RefsUp;
      InvParts(s, v);
      CoreParts(s, v);
      LinkedAt(s, v, f);
      LinkedAt(s, v, g);
      AccShape(s.bmap, s.refs, v);
      if IsType(s, g, FS_FILE) {
        AppendingParts(s, v, Abs(), u, f, g, a);
        CoreParts(Abs(), u);
        ShareSlot(Abs(), u, f, g, a);
      }
    }

    lemma AcrescentarSegue(s: Fs, v: Usage, s1: Fs, u1: Usage, f: nat, g: nat, a: nat)
      requires Joining(s, v, s1, u1, f, g, a) && a < |v.slots[g]| && blk_bmap != inode_bmap && f < |u1.slots|
      requires Formed(s1) && f < INODES && g < INODES && |v.slots[f]| + a < INODE_NUM_BLKS && v.slots[g][a] < |s1.refs|
      requires u == SetSlots(u1, f, u1.slots[f] + [v.slots[g][a]])
      requires var b := v.slots[g][a]; Abs() == SetBlock(s1, f, |v.slots[f]| + a, b).(refs := s1.refs[b := Up(s1.refs[b])])
      ensures Acrescentando(s, v, f, g, a + 1)
    {
      hide Joining, SetBlock, Up;
      JoiningNext(s, v, s1, u1, f, g, a);
    }

    /** Adds the size of `g` to that of `f`. */
    method SomarTamanhos(f: nat, g: nat, ghost s: Fs, ghost v: Usage)
      requires g < |v.slots| && Acrescentando(s, v, f, g, |v.slots[g]|)
      modifies inode_tab
      ensures IsType(s, g, FS_FILE) ==> Partly() && Appended(s, v, Abs(), u, f, g)
      ensures !IsType(s, g, FS_FILE) ==>
        f < |v.slots| && IsAppendedRaw(s, Abs(), f, g, v.slots[f], v.slots[g]) && u == SetSlots(v, f, v.slots[f] + v.slots[g])
    {
      hide Core, Appended, IsSet, FsInv, Acrescentando, IsAppendedRaw;
      SomaTudo(f, g, s, v);
      MudarTamanho(f, inode_tab[f].size + inode_tab[g].size);
    }

    lemma SomaTudo(f: nat, g: nat, s: Fs, v: Usage)
      requires g < |v.slots| && Acrescentando(s, v, f, g, |v.slots[g]|)
      ensures Formed(s) && f < |Abs().inodes| && g < |Abs().inodes| && f < |v.slots| && blk_bmap != inode_bmap
      ensures |Abs().inodes| == INODES && 8 * |Abs().bmap| == 8 * |Abs().ibmap| == BMAP_BITS
      ensures var s' := Resized(Abs(), f, Abs().inodes[f].size + Abs().inodes[g].size);
        && (IsType(s, g, FS_FILE) ==> Core(s', u) && Appended(s, v, s', u, f, g))
        && (!IsType(s, g, FS_FILE) ==> IsAppendedRaw(s, s', f, g, v.slots[f], v.slots[g]) && u == SetSlots(v, f, v.slots[f] + v.slots[g]))
    {
      hide Core, Fits, LogicalDisk, Appended, IsSet, Appending, FsInv, OffsetToBlocks, PagesFor, RefsUp, SharedRaw;
      InvParts(s, v);
      CoreParts(s, v);
      if IsType(s, g, FS_FILE) {
        AppendingEnd(s, v, Abs(), u, f, g);
      } else {
        assert v.slots[g][..|v.slots[g]|] == v.slots[g];
        RawSizes(s, f, |v.slots[f]|, v.slots[g], g);
      }
    }

    lemma RawSizes(s: Fs, f: nat, n: nat, blocks: seq<nat>, g: nat)
      requires f < |s.inodes| && g < |s.inodes| && n + |blocks| <= |s.inodes[f].blocks| && forall k :: 0 <= k < |blocks| ==> blocks[k] < |s.refs|
      ensures var s1 := SharedRaw(s, f, n, blocks);
        && s1.inodes[f].size == s.inodes[f].size && s1.inodes[g].size == s.inodes[g].size && |s1.inodes| == |s.inodes|
        && s1.bmap == s.bmap && s1.ibmap == s.ibmap
    {
    }

    lemma AppendingEnd(s: Fs, v: Usage, s1: Fs, u1: Usage, f: nat, g: nat)
      requires FsInv(s, v) && IsType(s, f, FS_FILE) && IsType(s, g, FS_FILE) && f < |v.slots| && g < |v.slots| && Core(s1, u1)
      requires Appending(s, v, s1, u1, f, g, |v.slots[g]|)
      ensures |s1.inodes| == INODES && 8 * |s1.bmap| == 8 * |s1.ibmap| == BMAP_BITS
      ensures var s' := Resized(s1, f, s1.inodes[f].size + s1.inodes[g].size); Core(s', u1) && Appended(s, v, s', u1, f, g)
    {
      hide Core, Fits, LogicalDisk, Appended, IsSet, Appending, FsInv, OffsetToBlocks, PagesFor;
      AppendingParts(s, v, s1, u1, f, g, |v.slots[g]|);
      CoreParts(s1, u1);
      AppendDone(s, v, s1, u1, f, g);
      AppendedSizes(s, s1, f, g);
    }

    lemma AppendedSizes(s: Fs, s1: Fs, f: nat, g: nat)
      requires SameButBlocks(s, s1, f) && g < |s.inodes|
      ensures s1.inodes[f].size == s.inodes[f].size && s1.inodes[g].size == s.inodes[g].size
    {
    }

    // ---------- Directories ----------

    /** Reads a page of a directory on the disk. */
    method LerPaginaDir(b: nat, ghost d: nat, ghost k: nat) returns (page: Block)
      requires Partly() && IsType(Abs(), d, FS_DIR) && d < |u.slots| && k < |u.slots[d]| && b == u.slots[d][k]
      ensures d < |Paginas()| && k < |Paginas()[d]| && page == Paginas()[d][k]
    {
      hide Core, LogicalDisk;
      DirPageCore(Abs(), u, d, k, Zeros());
      page := cache.disk[b];
    }

    /** The inode that a directory gives for a name. */
    method DirSearch(d: nat, nome: seq<Byte>) returns (id: Option<nat>)
      requires Coerente() && IsType(Abs(), d, FS_DIR)
      ensures id == Search(Conteudo(d), nome, 0)
    {
      hide Core, Sized, Counted, LogicalDisk, ByteAt, Bytes, Search, SearchPage, EntryAt, PageEntry, OffsetToBlocks, IsSet, AllPages, FsInv;
      InvParts(Abs(), u);
      DirPages(Abs(), u, d);
      ghost var c := Conteudo(d);
      var num := inode_tab[d].size / DENTRY;
      var iblock: nat := 0;
      while num > 0
        invariant 0 <= num && (num > 0 ==> DENTRY * (PAGE_ENTRIES * iblock + num) == |c|)
        invariant Search(c, nome, 0) == if num > 0 then Search(c, nome, PAGE_ENTRIES * iblock) else Search(c, nome, |c| / DENTRY)
        decreases num
      {
        var n := if num < PAGE_ENTRIES then num else PAGE_ENTRIES;
        EntriesOfPage(Paginas()[d], inode_tab[d].size, iblock, n);
        var page := LerPaginaDir(inode_tab[d].blocks[iblock], d, iblock);
        id := ProcurarNaPagina(page, nome, n);
        SearchByPage(c, nome, PAGE_ENTRIES * iblock, page, 0, n);
        if id.Some? {
          return;
        }
        iblock := iblock + 1;
        num := num - n;
      }
      SearchEnd(c, nome);
      return None;
    }

    /** Takes the first free block for the next slot of a directory; it is not counted. */
    method ReservarBlocoDir(d: nat, i: nat) returns (b: nat)
      requires Partly() && IsType(Abs(), d, FS_DIR) && i == |u.slots[d]| && i + 1 < INODE_NUM_BLKS
      modifies this`u, blk_bmap, inode_tab
      ensures Partly() && IsType(Abs(), d, FS_DIR) && SameButBlocks(old(Abs()), Abs(), d) && cache == old(cache)
      ensures u == SetSlots(old(u), d, old(u).slots[d] + [b]) && Abs().inodes[d].blocks == old(inode_tab[d].blocks)[i := b]
      ensures b < |Logico()| && Paginas() == PlusPage(old(Paginas()), d, Logico()[b]) && FreshBlock(old(u), b)
    {
      hide Core, LogicalDisk, FileSlots, Acc, IsSet;
      ghost var s := Abs();
      CoreParts(s, u);
      LinkedAt(s, u, d);
      AccShape(s.bmap, s.refs, u);
      b := BlocoLivre();
      ReservedCore(s, u, d, b);
      BmapSet(blk_bmap, b);
      inode_tab[d] := WithBlock(inode_tab[d], i, b);
      u := SetSlots(u, d, u.slots[d] + [b]);
      assert Abs() == Reserved(s, old(u), d, b);
    }

    /** Writes the entry for a new inode behind the last one, in a new block if the others are full. */
    method EscreverEntrada(d: nat, nome: seq<Byte>, id: nat) returns (ghost page: Block)
      requires Valid() && IsType(Abs(), d, FS_DIR) && IsName(nome) && id < INODES && !IsSet(Abs().ibmap, id)
      modifies this`u, this`cache, blk_bmap, inode_tab
      ensures Partly() && EntryWritten(old(Abs()), old(u), Abs(), u, d, page, nome, id) && (NoRepeat(old(u)) ==> NoRepeat(u))
    {
      hide Core, LogicalDisk, IsSet, Tree, Counted, Sized, EntryWritten, FsInv, OffsetToBlocks, RawWrite, AllPages;
      ghost var s, v := Abs(), u;
      FullParts(s, v);
      DirPages(s, v, d);
      SizeAt(s, v, d);
      DirectorySmall(s, v, d);
      var size := inode_tab[d].size;
      EntryBlock(size);
      if size % BLOCK_SIZE == 0 {
        var b := ReservarBlocoDir(d, size / BLOCK_SIZE);
        EntryNewBlock(s, v, Abs(), u, d, b);
      } else {
        EntryStart(s, v, d);
      }
      EntryReadyParts(s, v, Abs(), u, d);
      var b := inode_tab[d].blocks[size / BLOCK_SIZE];
      var pagina := LerPaginaDir(b, d, size / BLOCK_SIZE);
      page := pagina;
      EntryFits(size);
      var nova := WithEntryAt(pagina, size % BLOCK_SIZE, nome, id);
      EntryReadyWrite(s, v, Abs(), u, d, page, nome, id);
      cache := RawWrite(cache, b, nova);
    }

    /** Creates an empty file or directory. */
    method Criar(d: nat, nome: seq<Byte>, tipo: int) returns (status: int, id: nat)
      requires Valid() && (tipo == FS_FILE || tipo == FS_DIR) && forall k :: 0 <= k < |nome| ==> nome[k] != 0
      modifies this`cache, this`u, blk_bmap, inode_bmap, inode_tab
      ensures Valid()
      ensures status == 0 <==> CanCreate(old(Abs()), old(u), d, nome)
      ensures status != 0 ==> status == -1 && Abs() == old(Abs()) && u == old(u)
      ensures status == 0 ==> IsCreated(old(Abs()), old(u), Abs(), u, d, nome, id, tipo) && (NoRepeat(old(u)) ==> NoRepeat(u))
    {
      hide Core, LogicalDisk, Tree, Counted, Sized, Search, IsCreated;
      ghost var s, v := Abs(), u;
      FullParts(s, v);
      id := 0;
      if d >= INODES || |nome| == 0 || |nome| + 1 > NAME {
        return -1, id;
      }
      if inode_bmap[d / 8] & Mask(d % 8) == 0 || inode_tab[d].tipo != FS_DIR {
        return -1, id;
      }
      var found := DirSearch(d, nome);
      if found.Some? {
        return -1, found.value;
      }
      var achou, finode := FindFree(inode_bmap, INODES);
      if !achou {
        return -1, id;
      }
      CriarEntrada(d, nome, tipo, finode);
      status, id := 0, finode;
    }

    /** Writes the entry and sets up the new inode. */
    method CriarEntrada(d: nat, nome: seq<Byte>, tipo: int, finode: nat)
      requires Valid() && (tipo == FS_FILE || tipo == FS_DIR) && IsName(nome) && IsType(Abs(), d, FS_DIR)
      requires finode < INODES && !IsSet(Abs().ibmap, finode) && Search(Conteudo(d), nome, 0) == None
      modifies this`u, this`cache, blk_bmap, inode_bmap, inode_tab
      ensures Valid() && IsCreated(old(Abs()), old(u), Abs(), u, d, nome, finode, tipo) && (NoRepeat(old(u)) ==> NoRepeat(u))
    {
      hide Core, LogicalDisk, Counted, Sized, EntryWritten, Search, IsCreated, FullInv, IsSet;
      ghost var s, v := Abs(), u;
      FullParts(s, v);
      FreeInode(s, v, finode);
      ghost var page := EscreverEntrada(d, nome, finode);
      ghost var s2, u2 := Abs(), u;
      CreatedIs(s, v, s2, u2, d, page, nome, finode, tipo);
      CoreParts(s2, u2);
      inode_tab[d] := inode_tab[d].(size := inode_tab[d].size + DENTRY);
      BmapSet(inode_bmap, finode);
      inode_tab[finode] := Inode(tipo, 0, NO_BLOCKS);
      u := WithDir(u, finode, tipo == FS_DIR);
      assert Abs() == Created(s2, d, finode, tipo);
    }

    method FsCreate(d: nat, nome: seq<Byte>) returns (status: int, id: nat)
      requires Valid() && forall k :: 0 <= k < |nome| ==> nome[k] != 0
      modifies this`cache, this`u, blk_bmap, inode_bmap, inode_tab
      ensures Valid() && (status == 0 <==> CanCreate(old(Abs()), old(u), d, nome))
      ensures status != 0 ==> status == -1 && Abs() == old(Abs()) && u == old(u)
      ensures status == 0 ==> IsCreated(old(Abs()), old(u), Abs(), u, d, nome, id, FS_FILE) && (NoRepeat(old(u)) ==> NoRepeat(u))
    {
      status, id := Criar(d, nome, FS_FILE);
    }

    method FsMkdir(d: nat, nome: seq<Byte>) returns (status: int, id: nat)
      requires Valid() && forall k :: 0 <= k < |nome| ==> nome[k] != 0
      modifies this`cache, this`u, blk_bmap, inode_bmap, inode_tab
      ensures Valid() && (status == 0 <==> CanCreate(old(Abs()), old(u), d, nome))
      ensures status != 0 ==> status == -1 && Abs() == old(Abs()) && u == old(u)
      ensures status == 0 ==> IsCreated(old(Abs()), old(u), Abs(), u, d, nome, id, FS_DIR) && (NoRepeat(old(u)) ==> NoRepeat(u))
    {
      status, id := Criar(d, nome, FS_DIR);
    }

    // ---------- Removing ----------

    /** Gives up all blocks of an inode, if it has any. */
    method SoltarBlocos(id: nat)
      requires Valid() && 2 <= id < INODES && (OffsetToBlocks(inode_tab[id].size) > 0 ==> IsType(Abs(), id, FS_FILE))
      modifies this`cache, this`u, referencias, blk_bmap
      ensures Partly() && BlocksGone(old(Abs()), old(u), Abs(), u, id) && (NoRepeat(old(u)) ==> NoRepeat(u))
    {
      hide Core, LogicalDisk, IsSet, FullInv, Apagando, AllPages, OffsetToBlocks;
      ghost var s, v := Abs(), u;
      FullParts(s, v);
      PagesCount(s, v);
      if OffsetToBlocks(inode_tab[id].size) > 0 {
        ghost var s0, u0, ps0 := ApagarBlocos(id);
        ApagandoFim(s0, u0, ps0, id);
        PagesCount(Abs(), u);
        assert NoRepeat(v) ==> NoRepeat(u) by { ClearedRepeat(v, id); }
      } else {
        Unused(s, v, id);
        assert SetSlots(v, id, []) == v;
      }
    }

    lemma ApagandoFim(s0: Fs, u0: Usage, ps0: seq<Pages>, f: nat)
      requires f < |u0.slots| && Apagando(s0, u0, ps0, f, |u0.slots[f]|)
      ensures Certo() && u == SetSlots(u0, f, []) && |u0.slots| == INODES && Core(s0, u0) && ps0 == PagesFor(s0, u0) && |ps0| == INODES
      ensures SameButBlocks(s0, Abs(), f)
      ensures Abs().inodes == s0.inodes && Abs().ibmap == s0.ibmap && |Abs().refs| == |s0.refs|
      ensures forall g :: 0 <= g < |u.slots| && g != f ==> Paginas()[g] == ps0[g]
    {
      hide Fits, LogicalDisk, IsSet, Acc, CacheInv, RawOk, Roots, PagesFor;
      ApagarFim(s0, u0, ps0, f);
    }

    /** Deletes the last block of a directory. */
    method ApagarUltimoBloco(d: nat, k: nat)
      requires Partly() && IsType(Abs(), d, FS_DIR) && d < |u.slots| && k + 1 == |u.slots[d]|
      modifies this`cache, this`u, referencias, blk_bmap, inode_tab
      ensures old(u).slots[d][k] < |old(Abs()).refs| && old(u).slots[d][k] < 8 * |old(Abs()).bmap|
      ensures Abs() == LastDropped(old(Abs()), old(u), d) && u == SetSlots(old(u), d, old(u).slots[d][..k])
    {
      hide Core, LogicalDisk, IsSet, RawWrite, ClrBit;
      ghost var s, v := Abs(), u;
      CoreParts(s, v);
      LastDroppedCore(s, v, d);
      var b := inode_tab[d].blocks[k];
      // A directory's block is not counted, so it is always deleted.
      referencias[b] := 0;
      cache := RawWrite(cache, b, Zeros());
      BmapClr(blk_bmap, b);
      inode_tab[d] := WithBlock(inode_tab[d], k, 0);
      u := SetSlots(u, d, u.slots[d][..k]);
      assert Abs() == LastDropped(s, v, d);
    }

    /** Takes the last entry out of a directory's pages. What the code puts in the place of the removed entry
        is never stored, so it is not part of this. */
    method RetirarEntrada(d: nat, ghost id: nat, ghost s: Fs, ghost v: Usage)
      requires Partly() && BlocksGone(s, v, Abs(), u, id) && IsType(s, d, FS_DIR) && d != id && s.inodes[d].size >= DENTRY
      requires IsType(s, id, FS_DIR) ==> s.inodes[id].size == 0
      modifies this`cache, this`u, referencias, blk_bmap, inode_tab
      ensures Partly() && EntryDropped(s, v, Abs(), u, d, id) && (NoRepeat(old(u)) ==> NoRepeat(u))
    {
      hide Core, LogicalDisk, IsSet, Tree, RawWrite, EntryDropped, OffsetToBlocks, Cleared, LastDropped, PagesFor, Fits, FullInv, Bytes, NoRepeat, Zeros;
      ghost var s1, u1 := Abs(), u;
      FullParts(s, v);
      DirPages(s, v, d);
      DirectorySmall(s, v, d);
      CoreParts(s1, u1);
      EntryBlocks(s.inodes[d].size);
      var num := inode_tab[d].size / DENTRY;
      var ultimoBloco := num / PAGE_ENTRIES;
      var idUltima := if num == 1 then 0 else if ultimoBloco == 0 then num - 1 else (num - 1) % (ultimoBloco * PAGE_ENTRIES);
      if idUltima == 0 {
        DropLastEntry(s, v, s1, u1, d, id);
        ShorterRepeat(u1, d);
        ApagarUltimoBloco(d, ultimoBloco);
      } else {
        LimparEntrada(d, ultimoBloco, idUltima, id, s, v);
      }
    }

    /** Clears the last entry in the block where the code looks for it. */
    method LimparEntrada(d: nat, ultimoBloco: nat, idUltima: nat, ghost id: nat, ghost s: Fs, ghost v: Usage)
      requires Partly() && BlocksGone(s, v, Abs(), u, id) && IsType(s, d, FS_DIR) && d != id && s.inodes[d].size >= DENTRY
      requires IsType(s, id, FS_DIR) ==> s.inodes[id].size == 0
      requires var num := s.inodes[d].size / DENTRY;
        ultimoBloco == num / PAGE_ENTRIES && idUltima == (if num == 1 then 0 else if ultimoBloco == 0 then num - 1 else (num - 1) % (ultimoBloco * PAGE_ENTRIES)) != 0
      modifies this`cache
      ensures Partly() && EntryDropped(s, v, Abs(), u, d, id)
    {
      hide Core, LogicalDisk, IsSet, Tree, RawWrite, EntryDropped, OffsetToBlocks, Cleared, LastDropped, PagesFor, Fits, FullInv, Bytes, Zeros;
      ghost var s1, u1 := Abs(), u;
      FullParts(s, v);
      DirPages(s, v, d);
      DirectorySmall(s, v, d);
      CoreParts(s1, u1);
      EntryBlocks(s.inodes[d].size);
      var b := inode_tab[d].blocks[ultimoBloco];
      if s.inodes[d].size / DENTRY == PAGE_ENTRIES {
        ClearWrongBlock(s, v, s1, u1, d, id, Cleared(cache.disk[0], DENTRY * idUltima));
      } else {
        ClearLastEntry(s, v, s1, u1, d, id, ultimoBloco, DENTRY * idUltima);
      }
      cache := RawWrite(cache, b, Cleared(cache.disk[b], DENTRY * idUltima));
    }

    /** Removes a file or an empty directory from a directory. */
    method FsRemove(d: nat, nome: seq<Byte>) returns (status: int, id: nat)
      requires Valid() && forall k :: 0 <= k < |nome| ==> nome[k] != 0
      modifies this`cache, this`u, referencias, blk_bmap, inode_bmap, inode_tab
      ensures Valid() && (status == 0 <==> CanRemove(old(Abs()), old(u), d, nome))
      ensures status != 0 ==> status == -1 && Abs() == old(Abs()) && u == old(u)
      ensures status == 0 ==> Search(Contents(old(Abs()), old(u), d), nome, 0) == Some(id) && IsRemoved(old(Abs()), old(u), Abs(), u, d, id)
      ensures status == 0 ==> NameGone(old(Abs()), old(u), Abs(), u, d, nome)
      ensures NoRepeat(old(u)) ==> NoRepeat(u)
    {
      hide Core, Fits, LogicalDisk, Tree, Counted, Sized, Search, IsRemoved, OffsetToBlocks, NameGone;
      ghost var s, v := Abs(), u;
      FullParts(s, v);
      id := 0;
      if d >= INODES || |nome| == 0 || |nome| + 1 > NAME {
        return -1, id;
      }
      if inode_bmap[d / 8] & Mask(d % 8) == 0 || inode_tab[d].tipo != FS_DIR {
        return -1, id;
      }
      var found := DirSearch(d, nome);
      if found == None {
        return -1, id;
      }
      id := found.value;
      FoundInode(s, v, d, nome);
      NoBlocks();
      if inode_tab[id].tipo == FS_DIR && inode_tab[id].size != 0 {
        return -1, id;
      }
      RemoverInode(d, id);
      RemovedName(s, v, Abs(), u, d, id, nome);
      status := 0;
    }

    method RemoverInode(d: nat, id: nat)
      requires Valid() && IsType(Abs(), d, FS_DIR) && d < |inode_tab[..]| && inode_tab[d].size >= DENTRY && 2 <= id < INODES && d != id
      requires OffsetToBlocks(inode_tab[id].size) > 0 ==> IsType(Abs(), id, FS_FILE)
      requires IsType(Abs(), id, FS_DIR) ==> inode_tab[id].size == 0
      modifies this`cache, this`u, referencias, blk_bmap, inode_bmap, inode_tab
      ensures Valid() && IsRemoved(old(Abs()), old(u), Abs(), u, d, id) && (NoRepeat(old(u)) ==> NoRepeat(u))
    {
      hide Core, LogicalDisk, FullInv, BlocksGone, EntryDropped, IsRemoved, OffsetToBlocks, IsSet;
      ghost var s, v := Abs(), u;
      FullParts(s, v);
      assert IsType(s, id, FS_DIR) ==> s.inodes[id].size == 0;
      SoltarBlocos(id);
      RetirarEntrada(d, id, s, v);
      LibertarInode(d, id, s, v);
    }

    /** The directory gets shorter and the inode is free. */
    method LibertarInode(d: nat, id: nat, ghost s: Fs, ghost v: Usage)
      requires Partly() && EntryDropped(s, v, Abs(), u, d, id)
      modifies this`u, inode_bmap, inode_tab
      ensures Valid() && IsRemoved(s, v, Abs(), u, d, id) && (NoRepeat(old(u)) ==> NoRepeat(u))
    {
      hide Core, LogicalDisk, FullInv, EntryDropped, IsRemoved, IsSet, ClrBit, PagesFor, NoRepeat;
      ghost var s2, u2 := Abs(), u;
      RemovedIs(s, v, s2, u2, d, id);
      CoreParts(s2, u2);
      inode_tab[d] := inode_tab[d].(size := inode_tab[d].size - DENTRY);
      inode_tab[id] := Inode(0, 0, NO_BLOCKS);
      BmapClr(inode_bmap, id);
      u := WithDir(u, id, false);
      assert Abs() == Removed(s2, d, id);
    }

    // ---------- Copying and appending by name ----------

    /** The regular file that a directory has under a name. */
    method AbrirFicheiro(d: nat, nome: seq<Byte>) returns (id: Option<nat>)
      requires Valid() && d < INODES
      ensures id.Some? <==> IsFileAt(Abs(), u, d, nome)
      ensures id.Some? ==> Search(Contents(Abs(), u, d), nome, 0) == id && IsType(Abs(), id.value, FS_FILE)
    {
      hide Core, LogicalDisk, Tree, Counted, Sized, Search;
      FullParts(Abs(), u);
      if inode_bmap[d / 8] & Mask(d % 8) == 0 || inode_tab[d].tipo != FS_DIR || |nome| == 0 || |nome| + 1 > NAME {
        return None;
      }
      id := DirSearch(d, nome);
      if id == None {
        return None;
      }
      FoundInode(Abs(), u, d, nome);
      if inode_tab[id.value].tipo != FS_FILE {
        return None;
      }
    }

    /** The inode that a directory has under a name, of whatever type. */
    method AbrirNome(d: nat, nome: seq<Byte>) returns (id: Option<nat>)
      requires Valid() && d < INODES
      ensures id.Some? <==> IsNameAt(Abs(), u, d, nome)
      ensures id.Some? ==> NameAt(Abs(), u, d, nome, id.value) && id.value < INODES
      ensures id.Some? ==> IsType(Abs(), id.value, FS_FILE) || IsType(Abs(), id.value, FS_DIR) || (Abs().inodes[id.value].tipo == 0 && Abs().inodes[id.value].size == 0)
    {
      hide Core, Fits, LogicalDisk, Tree, Counted, Sized, Search;
      FullParts(Abs(), u);
      if inode_bmap[d / 8] & Mask(d % 8) == 0 || inode_tab[d].tipo != FS_DIR || |nome| == 0 || |nome| + 1 > NAME {
        return None;
      }
      id := DirSearch(d, nome);
      if id.Some? {
        FoundInode(Abs(), u, d, nome);
      }
    }

    /** Copies a regular file to another name, which is created if it is not there. The reference counts are right
        afterwards exactly if they had room; a copy of a file onto itself is harmless exactly if other files have
        each of its blocks. */
    method FsCopy(dirOrigem: nat, nomeOrigem: seq<Byte>, dirDestino: nat, nomeDestino: seq<Byte>) returns (status: int, ghost origem: nat, ghost destino: nat)
      requires Valid() && dirDestino < INODES && (forall k :: 0 <= k < |nomeDestino| ==> nomeDestino[k] != 0)
      modifies this`cache, this`u, referencias, blk_bmap, inode_bmap, inode_tab
      ensures status == 0 <==>
        && IsFileAt(old(Abs()), old(u), dirOrigem, nomeOrigem)
        && (IsFileAt(old(Abs()), old(u), dirDestino, nomeDestino) || CanCreate(old(Abs()), old(u), dirDestino, nomeDestino))
      ensures status != 0 ==> status == -1 && Abs() == old(Abs()) && u == old(u)
      ensures status == 0 ==> FileAt(old(Abs()), old(u), dirOrigem, nomeOrigem, origem) && origem < |old(u).slots|
      ensures status == 0 && origem != destino ==>
        && IsCopied(old(Abs()), old(u), Abs(), u, dirOrigem, nomeOrigem, origem, dirDestino, nomeDestino, destino)
        && (Valid() <==> CopyRoom(old(Abs()), old(u), origem, dirDestino, nomeDestino)) && (NoRepeat(old(u)) ==> NoRepeat(u))
      ensures status == 0 && IsFileAt(old(Abs()), old(u), dirDestino, nomeDestino) ==>
        destino < |old(u).slots| && u == SetSlots(old(u), destino, old(u).slots[origem])
      ensures status == 0 && origem == destino ==>
        && FileAt(old(Abs()), old(u), dirDestino, nomeDestino, origem) && u == old(u) && Abs().inodes == old(Abs()).inodes && Abs().ibmap == old(Abs()).ibmap
        && (Valid() <==> OthersHave(old(Abs()).refs, u.slots[origem])) && (Valid() ==> Core(Abs(), u) && Paginas() == old(Paginas()))
    {
      hide Core, Fits, LogicalDisk, FullInv, Search, IsSet, Contents, CanCreate, IsCreated, IsFileAt, CopyRoom, OthersHave;
      origem, destino := 0, 0;
      ghost var s, v := Abs(), u;
      if dirOrigem >= INODES {
        NoFileAt(s, v, dirOrigem, nomeOrigem);
        return -1, 0, 0;
      }
      var idO := AbrirFicheiro(dirOrigem, nomeOrigem);
      if idO == None {
        return -1, 0, 0;
      }
      var idD := AbrirFicheiro(dirDestino, nomeDestino);
      if idD == None {
        var st, novo := FsCreate(dirDestino, nomeDestino);
        if st == -1 {
          return -1, 0, 0;
        }
        idD := Some(novo);
        CreatedApart(s, v, Abs(), u, dirDestino, nomeDestino, novo, idO.value);
      } else {
        FoundSame(s, v, dirDestino, nomeDestino, idD.value);
      }
      CopiarConteudo(idO.value, idD.value, s, v, dirOrigem, nomeOrigem, dirDestino, nomeDestino);
      status, origem, destino := 0, idO.value, idD.value;
    }

    /** The blocks of one file for another, which was there in state `s` or was created since. */
    method CopiarConteudo(origem: nat, destino: nat, ghost s: Fs, ghost v: Usage, ghost dO: nat, ghost nomeO: seq<Byte>, ghost dD: nat, ghost nomeD: seq<Byte>)
      requires Valid() && FileAt(s, v, dO, nomeO, origem) && IsType(Abs(), origem, FS_FILE) && IsType(Abs(), destino, FS_FILE)
      requires (Abs() == s && u == v && FileAt(s, v, dD, nomeD, destino)) || (origem != destino && IsCreated(s, v, Abs(), u, dD, nomeD, destino, FS_FILE))
      modifies this`cache, this`u, referencias, blk_bmap, inode_tab
      ensures origem < INODES && origem < |v.slots| && origem < |old(u).slots| && destino < |old(u).slots|
      ensures u == SetSlots(old(u), destino, old(u).slots[origem])
      ensures origem != destino ==> IsCopied(s, v, Abs(), u, dO, nomeO, origem, dD, nomeD, destino)
      ensures origem != destino ==> (Valid() <==> CopyRoom(s, v, origem, dD, nomeD))
      ensures NoRepeat(old(u)) && origem != destino ==> NoRepeat(u)
      ensures origem == destino ==>
        && u == v && Abs().inodes == s.inodes && Abs().ibmap == s.ibmap
        && (Valid() <==> OthersHave(s.refs, v.slots[origem])) && (Valid() ==> Core(Abs(), u) && Paginas() == old(Paginas()))
    {
      hide Core, Fits, LogicalDisk, Tree, Sized, Counted, Search, IsSet, Contents, IsCreated, IsFileAt, IsCopied, OthersKept, CopyRoom, NoRepeat, OthersHave;
      ghost var s1, u1 := Abs(), u;
      FullParts(s1, u1);
      FileAtParts(s, v, dO, nomeO, origem);
      FullParts(s, v);
      CoreParts(s, v);
      CoreParts(s1, u1);
      CopiarBlocos(origem, destino);
      if origem == destino {
        assert u1.slots[destino := u1.slots[origem]] == u1.slots;
        if Coerente() {
          CacheKeepsTree(s1, u1, Abs());
        }
      } else {
        FileKeepsTree(s1, u1, Abs(), u, destino);
        FullModuloParts(Abs(), u);
        CopiedIs(s, v, s1, u1, Abs(), u, dO, nomeO, origem, dD, nomeD, destino);
        CopiedRoom(s, v, s1, u1, u, origem, dD, nomeD, destino);
        assert u1.slots[origem][..|u1.slots[origem]|] == u1.slots[origem];
        PrefixRepeat(u1, u, origem, destino, |u1.slots[origem]|);
      }
    }

    /** Appends the second file to the first. Only the first is asked whether it is a regular file. The result is
        a valid file system exactly if the second is one too, no block is saved by filling up the last one, and
        the reference counts have room; or if the second is empty. */
    method FsAppend(dirOrigem: nat, nomeOrigem: seq<Byte>, dirDestino: nat, nomeDestino: seq<Byte>)
      returns (status: int, fsize: nat, ghost f: nat, ghost g: nat)
      requires Valid() && dirDestino < INODES
      modifies this`u, referencias, inode_tab
      ensures status == 0 <==> CanAppend(old(Abs()), old(u), dirOrigem, nomeOrigem, dirDestino, nomeDestino)
      ensures status != 0 ==> status == -1 && Abs() == old(Abs()) && u == old(u)
      ensures status == 0 ==> FileAt(old(Abs()), old(u), dirOrigem, nomeOrigem, f) && NameAt(old(Abs()), old(u), dirDestino, nomeDestino, g)
      ensures status == 0 ==> f < |Abs().inodes| && fsize == Abs().inodes[f].size
      ensures status == 0 && IsType(old(Abs()), g, FS_FILE) ==>
        Appended(old(Abs()), old(u), Abs(), u, f, g) && (Valid() <==> FsInv(Abs(), u))
      ensures status == 0 && !IsType(old(Abs()), g, FS_FILE) ==>
        && f < |old(u).slots| && g < |old(u).slots| && g < |old(Abs()).inodes| && u == SetSlots(old(u), f, old(u).slots[f] + old(u).slots[g])
        && IsAppendedRaw(old(Abs()), Abs(), f, g, old(u).slots[f], old(u).slots[g])
        && (Valid() <==> old(Abs()).inodes[g].size == 0) && (Valid() ==> Abs() == old(Abs()) && u == old(u))
    {
      hide Core, Fits, LogicalDisk, FullInv, Search, IsSet, Contents, Appended, FsInv, OffsetToBlocks, IsFileAt, IsNameAt, IsAppendedRaw;
      f, g, fsize := 0, 0, 0;
      FullParts(Abs(), u);
      if dirOrigem >= INODES {
        NoFileAt(Abs(), u, dirOrigem, nomeOrigem);
        return -1, 0, 0, 0;
      }
      var idO := AbrirFicheiro(dirOrigem, nomeOrigem);
      if idO == None {
        return -1, 0, 0, 0;
      }
      var idD := AbrirNome(dirDestino, nomeDestino);
      if idD == None {
        return -1, 0, 0, 0;
      }
      status, fsize := Acrescentar(idO.value, idD.value);
      f, g := idO.value, idD.value;
    }

    /** Puts the blocks of inode `g` behind those of file `f`. */
    method Acrescentar(f: nat, g: nat) returns (status: int, fsize: nat)
      requires Valid() && IsType(Abs(), f, FS_FILE) && g < INODES
      requires IsType(Abs(), g, FS_FILE) || IsType(Abs(), g, FS_DIR) || (Abs().inodes[g].tipo == 0 && Abs().inodes[g].size == 0)
      modifies this`u, referencias, inode_tab
      ensures status == if OffsetToBlocks(old(inode_tab[f].size)) + OffsetToBlocks(old(inode_tab[g].size)) <= INODE_NUM_BLKS then 0 else -1
      ensures status == -1 ==> Abs() == old(Abs()) && u == old(u)
      ensures status == 0 ==> f < |Abs().inodes| && fsize == Abs().inodes[f].size
      ensures status == 0 && IsType(old(Abs()), g, FS_FILE) ==> Appended(old(Abs()), old(u), Abs(), u, f, g) && (Valid() <==> FsInv(Abs(), u))
      ensures status == 0 && !IsType(old(Abs()), g, FS_FILE) ==>
        && f < |old(u).slots| && g < |old(u).slots| && g < |old(Abs()).inodes| && u == SetSlots(old(u), f, old(u).slots[f] + old(u).slots[g])
        && IsAppendedRaw(old(Abs()), Abs(), f, g, old(u).slots[f], old(u).slots[g])
        && (Valid() <==> old(Abs()).inodes[g].size == 0) && (Valid() ==> Abs() == old(Abs()) && u == old(u))
    {
      hide Core, Fits, LogicalDisk, Tree, FsInv, Search, IsSet, Contents, Appended, Sized, Counted, OffsetToBlocks, IsAppendedRaw;
      ghost var s, v := Abs(), u;
      FullParts(s, v);
      CoreParts(s, v);
      AppendSizes(s, v, g);
      fsize := 0;
      status := AcrescentarBlocos(f, g);
      if status == 0 {
        AppendedValid(s, v, Abs(), u, f, g);
        fsize := inode_tab[f].size;
      }
    }

    // ---------- Defragmentation ----------

    /** The inodes with block `b` in some slot. */
    method RefInodes(b: nat) returns (refs: seq<nat>)
      requires Formed(Abs())
      ensures RefList(inode_tab[..], refs, INODES, b)
    {
      refs := [];
      var o: nat := 1;
      while o < INODES
        invariant 1 <= o <= INODES && RefList(inode_tab[..], refs, o, b)
      {
        var p: nat := 0;
        while p < INODE_NUM_BLKS && inode_tab[o].blocks[p] != b
          invariant 0 <= p <= INODE_NUM_BLKS && forall r :: 0 <= r < p ==> inode_tab[o].blocks[r] != b
        {
          p := p + 1;
        }
        if p < INODE_NUM_BLKS {
          refs := refs + [o];
        }
        o := o + 1;
      }
    }

    /** The first slot of an inode that names a block which is there. */
    method PrimeiraEntrada(o: nat, b: nat) returns (w: nat)
      requires o < inode_tab.Length && b in inode_tab[o].blocks
      ensures w < |inode_tab[o].blocks| && inode_tab[o].blocks[w] == b && forall r :: 0 <= r < w ==> inode_tab[o].blocks[r] != b
    {
      w := 0;
      while inode_tab[o].blocks[w] != b
        invariant 0 <= w < |inode_tab[o].blocks| && forall r :: 0 <= r < w ==> inode_tab[o].blocks[r] != b
        decreases |inode_tab[o].blocks| - w
      {
        w := w + 1;
      }
    }

    /** Renames block `from` in the listed inodes, in each the first slot that has it. */
    method ActualizarReferencias(refs: seq<nat>, from: nat, to: nat)
      requires Formed(Abs()) && TableOk(Slots(Abs())) && RefList(inode_tab[..], refs, INODES, from) && from >= FIRST_DATA && to != from
      modifies inode_tab
      ensures inode_tab[..] == RenamedInodes(old(inode_tab[..]), from, to)
    {
      hide IsSet, TableOk, PartRenamed;
      ghost var inodes := inode_tab[..];
      ghost var t := Slots(Abs());
      PartStart(inodes, refs, from, to);
      var l: nat := 0;
      while l < |refs|
        invariant 0 <= l <= |refs| && inode_tab[..] == PartRenamed(inodes, refs, l, from, to)
      {
        var o := refs[l];
        PartStill(inodes, refs, l, from, to);
        RowOnce(t, o, from);
        assert inode_tab[o] == inode_tab[..][o] == inodes[o];
        var w := PrimeiraEntrada(o, from);
        PartNext(inodes, refs, l, from, to, w);
        inode_tab[o] := WithBlock(inode_tab[o], w, to);
        l := l + 1;
      }
      ZeroRow(t, from);
      PartAll(inodes, refs, from, to);
    }

    /** Moves block `bl` to `dest`. What is at `dest` goes to the last free block first. A block that is beyond the
        disk cannot be read, so the buffer keeps what it had: at first, anything. */
    method MexeBlocoPara(bl: nat, dest: nat, lixo: Block)
      requires blk_bmap != inode_bmap && Movable(Abs()) && Named(Slots(Abs()), bl) && FIRST_DATA <= dest < bl <= NUM_BLOCOS_MAX
      modifies this`cache, blk_bmap, inode_tab
      ensures dest < |old(cache).disk| && 8 * |old(Abs()).bmap| == BMAP_BITS && Abs() == Moved(old(Abs()), bl, dest, lixo)
    {
      hide IsSet, SetBit, ClrBit, Invalidate, Flushed, TableOk, Named, RawWrite, LastFree;
      ghost var s := Abs();
      MovableParts(s);
      var refs := RefInodes(bl);
      BitTest(s.bmap, dest);
      var tp := lixo;
      if blk_bmap[dest / 8] & Mask(dest % 8) == 0 {
        tp := ReadOr(cache.disk, bl, tp);
        DiskLength(cache, dest, tp);
        cache := RawWrite(cache, dest, tp);
        BmapSet(blk_bmap, dest);
        ActualizarReferencias(refs, bl, dest);
      } else {
        var livre := BlocoDoFim();
        tp := cache.disk[dest];
        AfastarBloco(dest, livre, refs, bl);
        tp := ReadOr(cache.disk, bl, tp);
        DiskLength(cache, dest, tp);
        cache := RawWrite(cache, dest, tp);
        BmapSet(blk_bmap, dest);
        ActualizarReferencias(refs, bl, dest);
      }
      cache := Invalidate(cache, bl);
      BmapClr(blk_bmap, bl);
    }

    /** The last free block, looked for from block 640 down. */
    method BlocoDoFim() returns (k: nat)
      requires Movable(Abs())
      ensures FIRST_DATA <= k <= NUM_BLOCOS_MAX && !Named(Slots(Abs()), k) && NUM_BLOCOS_MAX < 8 * |Abs().bmap| && k == LastFree(Abs().bmap, NUM_BLOCOS_MAX)
    {
      hide IsSet, Flushed, TableOk, Named;
      MovableParts(Abs());
      LastFreeIs(Abs());
      k := NUM_BLOCOS_MAX;
      BitTest(Abs().bmap, k);
      while k >= FIRST_DATA && blk_bmap[k / 8] & Mask(k % 8) != 0
        invariant 0 <= k <= NUM_BLOCOS_MAX && LastFree(Abs().bmap, NUM_BLOCOS_MAX) == LastFree(Abs().bmap, k)
        decreases k
      {
        BitTest(Abs().bmap, k);
        k := k - 1;
      }
      if k >= FIRST_DATA { BitTest(Abs().bmap, k); }
    }

    /** Copies what is at `dest` to the free block `livre` and renames it. */
    method AfastarBloco(dest: nat, livre: nat, ghost refs: seq<nat>, ghost bl: nat)
      requires Movable(Abs()) && blk_bmap != inode_bmap && Named(Slots(Abs()), dest) && FIRST_DATA <= dest < NUM_BLOCOS_MAX
      requires FIRST_DATA <= livre <= NUM_BLOCOS_MAX && !Named(Slots(Abs()), livre) && RefList(inode_tab[..], refs, INODES, bl) && bl != dest && bl != livre
      modifies this`cache, blk_bmap, inode_tab
      ensures dest < |old(cache).disk| && livre < 8 * |old(Abs()).bmap|
      ensures Abs() == old(Abs()).(cache := Invalidate(RawWrite(old(cache), livre, old(cache).disk[dest]), dest),
                                   bmap := SetBit(old(Abs()).bmap, livre), inodes := RenamedInodes(old(Abs()).inodes, dest, livre))
      ensures Formed(Abs()) && TableOk(Slots(Abs())) && RefList(inode_tab[..], refs, INODES, bl) && |cache.disk| == |old(cache).disk|
    {
      hide IsSet, SetBit, Flushed, TableOk, Named, Invalidate, RawWrite, RefList;
      ghost var s := Abs();
      MovableParts(s);
      RenamedTable(s, dest, livre);
      StillListed(s.inodes, refs, bl, dest, livre);
      SetTwice(s.bmap, livre);
      BmapSet(blk_bmap, livre);
      var temp := RefInodes(dest);
      AwayDisk(cache, livre, cache.disk[dest], dest);
      DiskLength(cache, livre, cache.disk[dest]);
      cache := RawWrite(cache, livre, cache.disk[dest]);
      BmapSet(blk_bmap, livre);
      ActualizarReferencias(temp, dest, livre);
      cache := Invalidate(cache, dest);
    }

    lemma AwayDisk(c: CacheState, k: nat, x: Block, dest: nat)
      ensures |Invalidate(RawWrite(c, k, x), dest).disk| == |c.disk|
    {
    }

    lemma BitTest(bmap: Bits, b: nat)
      requires b < 8 * |bmap|
      ensures IsSet(bmap, b) <==> bmap[b / 8] & Mask(b % 8) != 0
    {
    }

    /** Moves the used data blocks together at the front of the disk: 0 if that is going on already, -1 if no
        data block is used, 1 when it is done. The contents are kept on every disk of more than 640 blocks, and on
        one of 640 if no block stands before its place. The account of blocks, whose counts are not moved, holds
        afterwards exactly if every count stood at its block's place already. `lixo` is what unfilled buffers hold. */
    method FsDefrag(lixo: nat -> Block) returns (status: int, fim: nat)
      requires blk_bmap != inode_bmap && Defraggable(Abs(), u)
      modifies this`cache, this`u, this`defragState, blk_bmap, inode_tab
      ensures status == if old(defragState) == 1 then 0 else if exists b :: FIRST_DATA <= b < NUM_BLOCOS_MAX && Named(old(Slots(Abs())), b) then 1 else -1
      ensures defragState == if old(defragState) == 1 then 1 else 0
      ensures status != 1 ==> Abs() == old(Abs()) && u == old(u)
      ensures status == 1 ==> DefraggedTables(old(Abs()), old(u), Abs(), fim)
      ensures status == 1 && (|old(cache).disk| > NUM_BLOCOS_MAX || Unobstructed(old(Slots(Abs())))) ==> Defragged(old(Abs()), old(u), Abs(), fim)
      ensures status == 1 ==> Movable(old(Abs())) && (Abs(), fim) == Run(old(Abs()), 1, 0, FIRST_DATA, lixo)
      ensures status == 1 ==> Formed(Abs()) && Shaped(old(u)) && u == UsageAfter(Abs(), old(u)) && NoRepeat(u)
      ensures status == 1 ==> (Coerente() <==> CountsPlaced(old(Abs()).refs, old(Slots(Abs()))))
      ensures status == 1 && old(Valid()) && DirsKept(old(Abs()), old(u), Abs()) ==> (Valid() <==> CountsPlaced(old(Abs()).refs, old(Slots(Abs()))))
    {
      hide IsSet, Defraggable, TableOk, Named, Defragged, DefraggedTables, Run, Unobstructed, CountsPlaced, DirsKept, FullInv, NoRepeat, UsageAfter;
      ghost var s0 := Abs();
      fim := 0;
      if defragState == 1 {
        return 0, 0;
      }
      defragState := 1;
      DefragStart(s0, u);
      MovableParts(s0);
      var blocosvz := 0;
      var i: nat := FIRST_DATA;
      BitTest(s0.bmap, i);
      while i < NUM_BLOCOS_MAX && blocosvz == 0
        invariant FIRST_DATA <= i <= NUM_BLOCOS_MAX && 0 <= blocosvz && Abs() == s0
        invariant blocosvz == 0 ==> forall b :: FIRST_DATA <= b < i ==> !Named(Slots(s0), b)
        invariant blocosvz > 0 ==> exists b :: FIRST_DATA <= b < NUM_BLOCOS_MAX && Named(Slots(s0), b)
        modifies {}
      {
        BitTest(s0.bmap, i);
        if blk_bmap[i / 8] & Mask(i % 8) != 0 {
          blocosvz := blocosvz + 1;
        }
        i := i + 1;
      }
      if blocosvz == 0 {
        defragState := 0;
        return -1, 0;
      }
      ghost var u0 := u;
      fim := Juntar(s0, u0, lixo);
      defragState := 0;
      DefragAccounts(s0, u0, lixo);
      u := UsageAfter(Abs(), u0);
      if FullInv(s0, u0) { DefragValid(s0, u0, lixo); }
      status := 1;
    }

    /** Goes through all slots of all inodes. */
    method Juntar(ghost s0: Fs, ghost u0: Usage, lixo: nat -> Block) returns (fim: nat)
      requires blk_bmap != inode_bmap && Defraggable(s0, u0) && Abs() == s0
      modifies this`cache, blk_bmap, inode_tab
      ensures DefraggedTables(s0, u0, Abs(), fim)
      ensures |s0.cache.disk| > NUM_BLOCOS_MAX || Unobstructed(Slots(s0)) ==> Defragged(s0, u0, Abs(), fim)
      ensures Movable(s0) && (Abs(), fim) == Run(s0, 1, 0, FIRST_DATA, lixo)
    {
      hide IsSet, Defraggable, TableOk, Named, Defragged, DefraggedTables, Movable, Arranged, Unobstructed;
      DefragStart(s0, u0);
      var pos: nat := FIRST_DATA;
      var z: nat := 1;
      while z < INODES
        invariant 1 <= z <= INODES && Movable(Abs()) && FIRST_DATA <= pos
        invariant Run(Abs(), z, 0, pos, lixo) == Run(s0, 1, 0, FIRST_DATA, lixo)
      {
        var q: nat := 0;
        while q < INODE_NUM_BLKS
          invariant 0 <= q <= INODE_NUM_BLKS && Movable(Abs()) && FIRST_DATA <= pos
          invariant Run(Abs(), z, q, pos, lixo) == Run(s0, 1, 0, FIRST_DATA, lixo)
        {
          pos := Arrumar(z, q, pos, lixo);
          q := q + 1;
        }
        z := z + 1;
      }
      fim := pos;
      JuntarIs(s0, u0, lixo);
    }

    /** Puts the block of one slot in its place, unless it is there already. */
    method Arrumar(z: nat, q: nat, pos: nat, lixo: nat -> Block) returns (novo: nat)
      requires blk_bmap != inode_bmap && Movable(Abs()) && z < INODES && q < INODE_NUM_BLKS && FIRST_DATA <= pos
      modifies this`cache, blk_bmap, inode_tab
      ensures (Abs(), novo) == Arranged(old(Abs()), z, q, pos, lixo) && Movable(Abs()) && FIRST_DATA <= novo
    {
      hide IsSet, Named, Movable, Moved;
      ghost var s := Abs();
      MovableParts(s);
      SlotRange(s, z, q);
      ArrangedMovable(s, z, q, pos, lixo);
      novo := pos;
      var b := inode_tab[z].blocks[q];
      if b == pos {
        novo := pos + 1;
      } else if b > pos {
        MexeBlocoPara(b, pos, lixo(pos));
        novo := pos + 1;
      }
    }
  }
}
