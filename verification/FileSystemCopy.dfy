/** Copying and appending by name. */
module FileSystemCopy {
  import opened Wrappers
  import opened Block
  import opened CacheSpec
  import opened Bitmap
  import opened Accounting
  import opened FileSystemSpec
  import opened FileSystemSteps
  import opened FileSystemFacts
  import opened FileSystemTree
  import opened FileSystemRemove
  import opened FileSystemSharing
  import opened Directory

  /** A directory has a regular file under the name. */
  ghost predicate IsFileAt(s: Fs, u: Usage, d: nat, nome: seq<Byte>) {
    && FullInv(s, u) && 0 < |nome| < NAME && IsType(s, d, FS_DIR)
    && match Search(Contents(s, u, d), nome, 0)
       case None => false
       case Some(id) => IsType(s, id, FS_FILE)
  }

  /** A directory has the regular file `id` under the name. */
  ghost predicate FileAt(s: Fs, u: Usage, d: nat, nome: seq<Byte>, id: nat) {
    IsFileAt(s, u, d, nome) && Search(Contents(s, u, d), nome, 0) == Some(id)
  }

  /** A directory has the name. */
  ghost predicate IsNameAt(s: Fs, u: Usage, d: nat, nome: seq<Byte>) {
    FullInv(s, u) && 0 < |nome| < NAME && IsType(s, d, FS_DIR) && Search(Contents(s, u, d), nome, 0).Some?
  }

  ghost predicate NameAt(s: Fs, u: Usage, d: nat, nome: seq<Byte>, id: nat) {
    IsNameAt(s, u, d, nome) && Search(Contents(s, u, d), nome, 0) == Some(id)
  }

  lemma FileAtParts(s: Fs, u: Usage, d: nat, nome: seq<Byte>, id: nat)
    requires FileAt(s, u, d, nome, id)
    ensures FullInv(s, u) && IsFileAt(s, u, d, nome) && IsType(s, id, FS_FILE) && id < INODES && Search(Contents(s, u, d), nome, 0) == Some(id)
  {
  }

  lemma NoFileAt(s: Fs, u: Usage, d: nat, nome: seq<Byte>)
    requires d >= INODES
    ensures !IsFileAt(s, u, d, nome)
  {
  }

  lemma FoundSame(s: Fs, u: Usage, d: nat, nome: seq<Byte>, id: nat)
    requires IsFileAt(s, u, d, nome) && Search(Contents(s, u, d), nome, 0) == Some(id)
    ensures !CanCreate(s, u, d, nome)
  {
  }

  /** What a copy does: the second name leads to a file with the contents of the first, and no other file or
      directory has other contents than before, but for the entry of a file that was created. */
  ghost predicate IsCopied(s: Fs, u: Usage, s': Fs, u': Usage, dO: nat, nomeO: seq<Byte>, origem: nat, dD: nat, nomeD: seq<Byte>, destino: nat) {
    && FullInv(s, u) && FullModulo(s', u') && IsType(s, dO, FS_DIR) && Search(Contents(s, u, dO), nomeO, 0) == Some(origem) && IsType(s, origem, FS_FILE)
    && IsType(s', dD, FS_DIR) && Search(Contents(s', u', dD), nomeD, 0) == Some(destino) && IsType(s', destino, FS_FILE) && destino != origem
    && Contents(s', u', destino) == Contents(s, u, origem)
    && |PagesFor(s, u)| == |PagesFor(s', u')| == INODES
    && CopyEntry(s, u, s', u', dD, nomeD, destino)
    && (forall g :: 0 <= g < INODES && g != destino ==> (IsSet(s'.ibmap, g) <==> IsSet(s.ibmap, g)))
    && forall g :: 0 <= g < INODES && g != destino && g != dD ==> s'.inodes[g] == s.inodes[g] && PagesFor(s', u')[g] == PagesFor(s, u)[g]
  }

  /** The directory of the copy is as before if the second name was there, and otherwise has an entry for it more. */
  ghost predicate CopyEntry(s: Fs, u: Usage, s': Fs, u': Usage, d: nat, nome: seq<Byte>, id: nat)
    requires FsModulo(s, u) && FsModulo(s', u') && IsType(s', d, FS_DIR)
  {
    && IsType(s, d, FS_DIR) && id < 8 * |s.ibmap|
    && if Search(Contents(s, u, d), nome, 0).Some? then Contents(s', u', d) == Contents(s, u, d) && IsSet(s.ibmap, id)
       else !IsSet(s.ibmap, id) && EntryAdded(Contents(s, u, d), Contents(s', u', d), nome, id)
  }

  /** A file that was just created is no file there was before. */
  lemma CreatedApart(s: Fs, u: Usage, s1: Fs, u1: Usage, d: nat, nome: seq<Byte>, id: nat, o: nat)
    requires IsCreated(s, u, s1, u1, d, nome, id, FS_FILE) && IsType(s, o, FS_FILE)
    ensures o != id && IsType(s1, o, FS_FILE) && IsType(s1, id, FS_FILE) && !IsFileAt(s, u, d, nome)
    ensures Core(s, u) && Core(s1, u1) && Contents(s1, u1, o) == Contents(s, u, o)
  {
    hide Core, Sized, Counted, IsSet, LogicalDisk, Search, Tree;
    FullParts(s, u);
    FullParts(s1, u1);
    SizeAt(s, u, o);
    SizeAt(s1, u1, o);
  }

  lemma CopiedIs(s: Fs, u: Usage, s1: Fs, u1: Usage, s2: Fs, u2: Usage, dO: nat, nomeO: seq<Byte>, origem: nat, dD: nat, nomeD: seq<Byte>, destino: nat)
    requires IsFileAt(s, u, dO, nomeO) && Search(Contents(s, u, dO), nomeO, 0) == Some(origem)
    requires (s1 == s && u1 == u && IsFileAt(s, u, dD, nomeD) && Search(Contents(s, u, dD), nomeD, 0) == Some(destino)) || IsCreated(s, u, s1, u1, dD, nomeD, destino, FS_FILE)
    requires FullInv(s1, u1) && FullModulo(s2, u2) && OthersKept(s1, u1, s2, u2, destino) && origem != destino && IsType(s1, origem, FS_FILE)
    requires IsType(s2, destino, FS_FILE) && IsType(s1, destino, FS_FILE) && Contents(s2, u2, destino) == Contents(s1, u1, origem)
    ensures IsCopied(s, u, s2, u2, dO, nomeO, origem, dD, nomeD, destino)
  {
    hide Core, Fits, FileSlots, Sized, Counted, IsSet, LogicalDisk, Search, Tree;
    FullParts(s, u);
    FullParts(s1, u1);
    FullModuloParts(s2, u2);
    PagesCount(s, u);
    PagesCount(s2, u2);
    OthersContents(s1, u1, s2, u2, destino, dD);
    CopiedEntry(s, u, s1, u1, s2, u2, dD, nomeD, destino);
    if IsCreated(s, u, s1, u1, dD, nomeD, destino, FS_FILE) {
      CreatedApart(s, u, s1, u1, dD, nomeD, destino, origem);
    }
  }

  lemma CopiedEntry(s: Fs, u: Usage, s1: Fs, u1: Usage, s2: Fs, u2: Usage, d: nat, nome: seq<Byte>, id: nat)
    requires (s1 == s && u1 == u && IsFileAt(s, u, d, nome) && Search(Contents(s, u, d), nome, 0) == Some(id)) || IsCreated(s, u, s1, u1, d, nome, id, FS_FILE)
    requires FullInv(s, u) && FullInv(s1, u1) && FullModulo(s2, u2) && OthersKept(s1, u1, s2, u2, id) && IsType(s2, d, FS_DIR)
    requires IsType(s1, d, FS_DIR) && d != id && d < INODES && Contents(s2, u2, d) == Contents(s1, u1, d)
    ensures CopyEntry(s, u, s2, u2, d, nome, id)
    ensures forall g :: 0 <= g < INODES && g != id ==> (IsSet(s2.ibmap, g) <==> IsSet(s.ibmap, g))
  {
    hide Core, Fits, FileSlots, Sized, Counted, LogicalDisk, Search, Tree, Contents, EntryAdded;
    FullParts(s, u);
    CoreParts(s, u);
  }

  /** Whether the reference counts have room for a copy of the blocks of `origem`, once those of the file
      that it replaces are given up. */
  ghost predicate CopyRoom(s: Fs, u: Usage, origem: nat, dD: nat, nomeD: seq<Byte>)
    requires FullInv(s, u) && origem < INODES
  {
    Room(s.refs, if IsFileAt(s, u, dD, nomeD) then u.slots[Search(Contents(s, u, dD), nomeD, 0).value] else [], u.slots[origem])
  }

  /** The counts are still right after a copy exactly if they had room. */
  lemma CopiedRoom(s: Fs, u: Usage, s1: Fs, u1: Usage, u2: Usage, origem: nat, dD: nat, nomeD: seq<Byte>, destino: nat)
    requires FullInv(s, u) && FullInv(s1, u1) && |u1.slots| == |u1.dirs| == INODES && origem < INODES && destino < INODES
    requires (s1 == s && u1 == u && IsFileAt(s, u, dD, nomeD) && Search(Contents(s, u, dD), nomeD, 0) == Some(destino)) || IsCreated(s, u, s1, u1, dD, nomeD, destino, FS_FILE)
    requires IsType(s1, destino, FS_FILE) && IsType(s, origem, FS_FILE) && origem != destino && u2 == SetSlots(u1, destino, u1.slots[origem])
    ensures Fits(u2) <==> CopyRoom(s, u, origem, dD, nomeD)
  {
    hide Core, Fits, FileSlots, Sized, Counted, IsSet, LogicalDisk, Search, Tree, Room, Contents;
    FullParts(s, u);
    FullParts(s1, u1);
    CoreParts(s1, u1);
    CoreParts(s, u);
    AccShape(s1.bmap, s1.refs, u1);
    FileOnly(s1, u1, destino);
    LinkedAt(s1, u1, origem);
    RoomExactly(s1.bmap, s1.refs, u1, destino, u1.slots[origem]);
    if IsCreated(s, u, s1, u1, dD, nomeD, destino, FS_FILE) {
      CreatedApart(s, u, s1, u1, dD, nomeD, destino, origem);
      FileOnly(s, u, origem);
      assert origem != dD;
      assert u1.slots[origem] == u.slots[origem];
      SameRoom(s, u, s1, u1, u.slots[origem]);
    }
  }

  /** What counts the same has the same room. */
  lemma SameRoom(s: Fs, u: Usage, s1: Fs, u1: Usage, slots: seq<nat>)
    requires Core(s, u) && Core(s1, u1) && |u.dirs| == |u.slots| && |u1.dirs| == |u1.slots| && FileSlots(u1) == FileSlots(u) && Fits(u) && Fits(u1)
    requires forall k :: 0 <= k < |slots| ==> slots[k] < NUM_BLOCOS_MAX
    ensures Room(s1.refs, [], slots) <==> Room(s.refs, [], slots)
  {
    hide FileSlots, IsSet, Fits;
    CoreParts(s, u);
    CoreParts(s1, u1);
    forall k | 0 <= k < |slots| ensures slots[k] < |s.refs| && slots[k] < |s1.refs| && s.refs[slots[k]] == s1.refs[slots[k]] {
      AccShape(s.bmap, s.refs, u);
      AccShape(s1.bmap, s1.refs, u1);
      CountIs(s.bmap, s.refs, u, slots[k]);
      CountIs(s1.bmap, s1.refs, u1, slots[k]);
    }
  }

  /** When an append succeeds: a regular file and a name, with blocks that fit one inode. */
  ghost predicate CanAppend(s: Fs, u: Usage, dO: nat, nomeO: seq<Byte>, dD: nat, nomeD: seq<Byte>) {
    && IsFileAt(s, u, dO, nomeO) && IsNameAt(s, u, dD, nomeD)
    && var f, g := Search(Contents(s, u, dO), nomeO, 0).value, Search(Contents(s, u, dD), nomeD, 0).value;
      g < |s.inodes| && OffsetToBlocks(s.inodes[f].size) + OffsetToBlocks(s.inodes[g].size) <= INODE_NUM_BLKS
  }

  /** The blocks of an inode that a name leads to are as many as its size needs. */
  lemma AppendSizes(s: Fs, v: Usage, g: nat)
    requires FullInv(s, v) && g < INODES
    requires IsType(s, g, FS_FILE) || IsType(s, g, FS_DIR) || (s.inodes[g].tipo == 0 && s.inodes[g].size == 0)
    ensures |v.slots| == INODES && |v.slots[g]| == OffsetToBlocks(s.inodes[g].size) && (s.inodes[g].size == 0 <==> v.slots[g] == [])
  {
    hide Core, Fits, Sized, Counted, Tree, IsSet;
    FullParts(s, v);
    CoreParts(s, v);
    SizeFits(s.inodes[g].size);
    if IsType(s, g, FS_FILE) || IsType(s, g, FS_DIR) {
      SizeAt(s, v, g);
    } else {
      NoBlocks();
      LinkedOf(s, v, g);
    }
  }

  /** When an append leaves a valid file system. */
  lemma AppendedValid(s: Fs, v: Usage, s': Fs, u': Usage, f: nat, g: nat)
    requires FullInv(s, v) && IsType(s, f, FS_FILE) && g < INODES && |v.slots| == INODES
    requires IsType(s, g, FS_FILE) || IsType(s, g, FS_DIR) || (s.inodes[g].tipo == 0 && s.inodes[g].size == 0)
    requires IsType(s, g, FS_FILE) ==> Appended(s, v, s', u', f, g)
    requires !IsType(s, g, FS_FILE) ==> IsAppendedRaw(s, s', f, g, v.slots[f], v.slots[g]) && u' == SetSlots(v, f, v.slots[f] + v.slots[g])
    ensures f < |s'.inodes|
    ensures IsType(s, g, FS_FILE) ==> (FullInv(s', u') <==> FsInv(s', u'))
    ensures !IsType(s, g, FS_FILE) ==> (FullInv(s', u') <==> s.inodes[g].size == 0) && (FullInv(s', u') ==> s' == s && u' == v)
  {
    hide Core, Fits, Sized, Counted, Tree, IsSet, Appended, FsInv, LogicalDisk;
    FullParts(s, v);
    AppendSizes(s, v, g);
    if IsType(s, g, FS_FILE) {
      AppendedParts(s, v, s', u', f, g);
      if FsInv(s', u') {
        InvParts(s', u');
        AppendKeepsTree(s, v, s', u', f, g);
        FullModuloParts(s', u');
      }
    } else if v.slots[g] == [] {
      LinkedAt(s, v, f);
      SharedRawNone(s, f, |v.slots[f]|);
      var i := s.inodes[f];
      assert s.inodes[f := i.(size := i.size)] == s.inodes;
      assert v.slots[f] + v.slots[g] == v.slots[f];
      assert s' == s && u' == v;
    } else {
      assert IsType(s, g, FS_DIR);
      DirShareBreaks(s, v, f, g, s');
      if FullInv(s', u') { FullParts(s', u'); }
    }
  }

  lemma AppendedParts(s: Fs, v: Usage, s': Fs, u': Usage, f: nat, g: nat)
    requires Appended(s, v, s', u', f, g)
    ensures f < |s'.inodes| && Core(s', u')
  {
    hide Core, FsInv, PagesFor, FsModulo;
    CoreParts(s', u');
  }

  lemma AppendKeepsTree(s: Fs, u: Usage, s': Fs, u': Usage, f: nat, g: nat)
    requires FullInv(s, u) && Appended(s, u, s', u', f, g) && FsModulo(s', u')
    ensures FullModulo(s', u')
  {
    FileKeepsTree(s, u, s', u', f);
  }
}
