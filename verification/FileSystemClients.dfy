/** What a client sees over several requests in a row: what was written is read, a copy and its original go apart at the
    first write, what was created is found, and what was created last can be removed without a trace. */
module FileSystemClients {
  import opened Block
  import opened Bitmap
  import opened CacheSpec
  import opened Accounting
  import opened FileSystemSpec
  import opened FileSystemSteps
  import opened FileBytes
  import opened FileTwins
  import opened FileSystemFacts
  import opened FileSystemTree
  import opened FileSystemSharing
  import opened FileSystemRemove
  import opened FileSystemCopy
  import opened FileSystemView
  import opened Directory
  import opened Defrag
  import opened DefragAccount
  import opened FileSystem
  import opened Wrappers

  /** The file system as its users see it. */
  ghost function Seen(fs: FsServer): (v: seq<Node>)
    reads fs, fs.referencias, fs.blk_bmap, fs.inode_bmap, fs.inode_tab
    requires fs.Valid()
    ensures |v| == INODES
  {
    View(fs.Abs(), fs.u)
  }

  /** The whole of a file. */
  method ReadAll(fs: FsServer, file: nat) returns (status: int, bytes: seq<Byte>)
    requires fs.Valid()
    modifies fs`cache
    ensures fs.Valid() && Seen(fs) == old(Seen(fs))
    ensures status == if file < INODES && Seen(fs)[file].File? then 0 else -1
    ensures status == 0 ==> bytes == Seen(fs)[file].bytes
  {
    hide FullInv, FullModulo, FsInv, FsModulo, PagesFor;
    ghost var s, u := fs.Abs(), fs.u;
    status, bytes := fs.FsRead(file, 0, MAX_SIZE);
    ReadSame(s, u, fs.Abs());
    if status == 0 { Whole(fs.Abs(), fs.u, file); }
  }

  method ReadPart(fs: FsServer, file: nat, offset: nat, count: nat) returns (status: int, bytes: seq<Byte>)
    requires fs.Valid()
    modifies fs`cache
    ensures fs.Valid() && Seen(fs) == old(Seen(fs))
    ensures status == if file < INODES && Seen(fs)[file].File? then 0 else -1
    ensures status == 0 ==> bytes == Slice(Seen(fs)[file].bytes, offset, count)
  {
    hide FullInv, FullModulo, FsInv, FsModulo, PagesFor;
    ghost var s, u := fs.Abs(), fs.u;
    status, bytes := fs.FsRead(file, offset, count);
    ReadSame(s, u, fs.Abs());
  }

  lemma ReadSame(s: Fs, u: Usage, s': Fs)
    requires FullInv(s, u) && FullInv(s', u) && s' == s.(cache := s'.cache) && AllPages(LogicalDisk(s'.cache), u) == AllPages(LogicalDisk(s.cache), u)
    ensures FsModulo(s, u) && FsModulo(s', u) && View(s', u) == View(s, u)
  {
    hide Core, Sized, Counted, LogicalDisk, Tree, IsSet, View;
    FullParts(s, u);
    FullParts(s', u);
    FileSystemView.SameView(s, u, s', u);
  }

  /** A read of the greatest size gives all of a file. */
  lemma Whole(s: Fs, u: Usage, file: nat)
    requires FullInv(s, u) && IsType(s, file, FS_FILE)
    ensures file < INODES && Core(s, u) && Sized(s, u) && Slice(Contents(s, u, file), 0, MAX_SIZE) == Contents(s, u, file)
  {
    hide Core, Counted, Tree, LogicalDisk, Bytes;
    FullParts(s, u);
    SizeAt(s, u, file);
    SizeLimit(s.inodes[file].size);
    var c := Contents(s, u, file);
    assert |c| > 0 ==> c[0..] == c;
  }

  /** A file's bytes after `buffer` is written at `offset`, or at its end if that comes first. */
  function Overwritten(c: seq<Byte>, offset: nat, buffer: seq<Byte>): (r: seq<Byte>)
    ensures offset <= |c| ==> |r| == if offset + |buffer| <= |c| then |c| else offset + |buffer|
    ensures offset <= |c| ==> forall i :: 0 <= i < |r| ==> r[i] == if offset <= i < offset + |buffer| then buffer[i - offset] else c[i]
    ensures offset > |c| ==> r == c + buffer
  {
    if offset <= |c| then Splice(c, offset, buffer) else c + buffer
  }

  /** A write: the view changes at the file only, by the bytes written. */
  method Write(fs: FsServer, file: nat, offset: nat, buffer: seq<Byte>) returns (status: int, ended: bool)
    requires fs.Valid() && NoRepeat(fs.u) && offset < U32 && |buffer| < U32
    modifies fs`cache, fs`u, fs.referencias, fs.blk_bmap, fs.inode_tab
    ensures ended ==> file < INODES && old(Seen(fs))[file].File?
    ensures !ended ==> fs.Valid() && NoRepeat(fs.u)
    ensures !ended && status == 0 ==>
      file < INODES && old(Seen(fs))[file].File? && Seen(fs) == old(Seen(fs))[file := File(Overwritten(old(Seen(fs))[file].bytes, offset, buffer))]
    ensures !ended && status != 0 ==> Seen(fs) == old(Seen(fs))
    ensures !ended ==> (status == 0 <==>
      file < INODES && old(Seen(fs))[file].File? && var c := old(Seen(fs))[file].bytes; (if offset <= |c| then offset else |c|) + |buffer| <= 5120)
  {
    hide FullInv, FullModulo, FsInv, FsModulo, TwinsSame, OthersKept, Splice, Core, IsSet;
    ghost var s, u := fs.Abs(), fs.u;
    ValidModulo(s, u);
    status, ended := fs.FsWrite(file, offset, buffer);
    if !ended && status == 0 {
      ghost var c := Contents(s, u, file);
      NoRepeatTwins(s, u, file, if offset <= |c| then offset else |c|, buffer);
      ValidModulo(fs.Abs(), fs.u);
      KeptView(s, u, fs.Abs(), fs.u, file);
      assert View(fs.Abs(), fs.u)[file] == File(Overwritten(c, offset, buffer));
      assert View(fs.Abs(), fs.u) == View(s, u)[file := File(Overwritten(c, offset, buffer))];
    }
  }

  lemma ValidModulo(s: Fs, u: Usage)
    requires FullInv(s, u)
    ensures FsModulo(s, u) && Core(s, u) && Sized(s, u) && |PagesFor(s, u)| == |u.slots| == INODES && |View(s, u)| == INODES
  {
    hide Core, Counted, LogicalDisk, View;
    FullParts(s, u);
    PagesCount(s, u);
  }

  lemma NoRepeatTwins(s: Fs, u: Usage, file: nat, at: nat, buffer: seq<Byte>)
    requires FullInv(s, u) && NoRepeat(u) && file < |u.slots| && file < |PagesFor(s, u)|
    ensures TwinsSame(u.slots[file], PagesFor(s, u)[file], at, buffer)
  {
    hide Core, Sized, Counted, Tree;
    NoTwins(u.slots[file], PagesFor(s, u)[file], at, buffer);
  }

  /** Read after write: from the offset on there is the buffer, and in front of it and behind it what was there. */
  method WriteThenRead(fs: FsServer, file: nat, offset: nat, buffer: seq<Byte>)
    returns (status: int, ended: bool, before: seq<Byte>, part: seq<Byte>, after: seq<Byte>)
    requires fs.Valid() && NoRepeat(fs.u) && offset < U32 && |buffer| < U32
    modifies fs`cache, fs`u, fs.referencias, fs.blk_bmap, fs.inode_tab
    ensures !ended ==> fs.Valid() && NoRepeat(fs.u)
    ensures !ended && status == 0 && offset <= |before| ==> part == buffer
    ensures !ended && status == 0 && offset + |buffer| <= |before| ==> after == before[..offset] + buffer + before[offset + |buffer|..]
    ensures !ended && status == 0 && offset <= |before| < offset + |buffer| ==> after == before[..offset] + buffer
    ensures !ended && status == 0 && offset > |before| ==> after == before + buffer
    ensures !ended && status != 0 ==> after == before
  {
    hide FsServer.Valid, Seen, NoRepeat;
    var r, w;
    r, before := ReadAll(fs, file);
    status, ended := Write(fs, file, offset, buffer);
    part, after := [], before;
    if !ended && status == 0 {
      if offset <= |before| { ReadsBack(before, offset, buffer); }
      w, part := ReadPart(fs, file, offset, |buffer|);
      w, after := ReadAll(fs, file);
    }
  }

  // ---------- Copies ----------

  /** Without repeated blocks a copy always leaves a valid file system. */
  lemma CopyFits(s: Fs, u: Usage, s': Fs, u': Usage, dO: nat, nomeO: seq<Byte>, origem: nat, dD: nat, nomeD: seq<Byte>, destino: nat)
    requires IsCopied(s, u, s', u', dO, nomeO, origem, dD, nomeD, destino) && NoRepeat(u')
    ensures FullInv(s', u')
  {
    hide Core, Sized, Counted, Tree, LogicalDisk, IsSet, Search, Fits, Contents;
    CoreParts(s', u');
    FitsAfter(s', u');
  }

  lemma NamesKept(s: Fs, u: Usage, s': Fs, u': Usage, dO: nat, nomeO: seq<Byte>, origem: nat, dD: nat, nomeD: seq<Byte>, destino: nat)
    requires IsCopied(s, u, s', u', dO, nomeO, origem, dD, nomeD, destino) && FullInv(s', u') && 0 < |nomeD| < NAME
    ensures FileAt(s', u', dD, nomeD, destino) && FsModulo(s', u') && FsModulo(s, u) && origem != destino && origem != dD
    ensures origem < INODES && destino < INODES && |View(s, u)| == |View(s', u')| == INODES
    ensures View(s, u)[origem].File? && View(s', u')[origem] == View(s', u')[destino] == View(s, u)[origem]
  {
    hide Core, Sized, Counted, Tree, LogicalDisk, IsSet, Search, Fits, EntryAdded;
    CopiedView(s, u, s', u', dO, nomeO, origem, dD, nomeD, destino);
  }

  /** Names never are empty or longer than 13 bytes. */
  lemma ProperName(s: Fs, u: Usage, d: nat, nome: seq<Byte>)
    requires IsFileAt(s, u, d, nome) || CanCreate(s, u, d, nome)
    ensures 0 < |nome| < NAME
  {
  }

  /** A copy to another name: two different files have the bytes that the first had. */
  method Copy(fs: FsServer, dO: nat, nomeO: seq<Byte>, dD: nat, nomeD: seq<Byte>) returns (status: int, from: nat, to: nat)
    requires fs.Valid() && NoRepeat(fs.u) && dO < INODES && dD < INODES
    requires forall k :: 0 <= k < |nomeD| ==> nomeD[k] != 0
    modifies fs`cache, fs`u, fs.referencias, fs.blk_bmap, fs.inode_bmap, fs.inode_tab
    ensures fs.Valid() && NoRepeat(fs.u)
    ensures status == 0 ==>
      && from < INODES && to < INODES && from != to && old(Seen(fs))[from].File?
      && Seen(fs)[to] == Seen(fs)[from] == old(Seen(fs))[from]
  {
    hide FullInv, NoRepeat, FullModulo, IsCopied, FileAt, View, CanCreate, CopyRoom, OthersHave, Search, IsFileAt;
    var o := fs.AbrirFicheiro(dO, nomeO);
    var e := fs.AbrirFicheiro(dD, nomeD);
    from, to := 0, 0;
    if o == None || o == e {
      return -1, from, to;
    }
    ghost var s, u := fs.Abs(), fs.u;
    ghost var origem, destino;
    status, origem, destino := fs.FsCopy(dO, nomeO, dD, nomeD);
    if status == 0 {
      OneFile(s, u, dO, nomeO, origem, o.value);
      ProperName(s, u, dD, nomeD);
      if origem == destino { FoundThere(s, u, dD, nomeD, origem, e); }
      CopyFits(s, u, fs.Abs(), fs.u, dO, nomeO, origem, dD, nomeD, destino);
      NamesKept(s, u, fs.Abs(), fs.u, dO, nomeO, origem, dD, nomeD, destino);
      FileAtParts(fs.Abs(), fs.u, dD, nomeD, destino);
      var d := fs.AbrirFicheiro(dD, nomeD);
      from, to := o.value, d.value;
    }
  }

  lemma FoundThere(s: Fs, u: Usage, d: nat, nome: seq<Byte>, f: nat, e: Option<nat>)
    requires FileAt(s, u, d, nome, f) && (IsFileAt(s, u, d, nome) ==> e == Search(Contents(s, u, d), nome, 0))
    ensures e == Some(f)
  {
  }

  lemma OneFile(s: Fs, u: Usage, d: nat, nome: seq<Byte>, f: nat, g: nat)
    requires FileAt(s, u, d, nome, f) && IsFileAt(s, u, d, nome) && Search(Contents(s, u, d), nome, 0) == Some(g)
    ensures f == g
  {
  }

  /** A copy has the bytes of its original, though it has its blocks too; a write to the copy changes the copy as it would
      any file, and leaves the original as it was. */
  method CopyThenWrite(fs: FsServer, dO: nat, nomeO: seq<Byte>, dD: nat, nomeD: seq<Byte>, offset: nat, buffer: seq<Byte>)
    returns (status: int, original: seq<Byte>, written: int, ended: bool, original': seq<Byte>, copy': seq<Byte>)
    requires fs.Valid() && NoRepeat(fs.u) && dO < INODES && dD < INODES && offset < U32 && |buffer| < U32
    requires forall k :: 0 <= k < |nomeD| ==> nomeD[k] != 0
    modifies fs`cache, fs`u, fs.referencias, fs.blk_bmap, fs.inode_bmap, fs.inode_tab
    ensures !ended ==> fs.Valid() && NoRepeat(fs.u)
    ensures status == 0 && !ended ==> original' == original && copy' == if written == 0 then Overwritten(original, offset, buffer) else original
  {
    hide FsServer.Valid, Seen, NoRepeat, Overwritten;
    original, original', copy', written, ended := [], [], [], -1, false;
    var from, to, r;
    status, from, to := Copy(fs, dO, nomeO, dD, nomeD);
    if status == 0 {
      r, original := ReadAll(fs, from);
      written, ended := Write(fs, to, offset, buffer);
      if !ended {
        r, original' := ReadAll(fs, from);
        r, copy' := ReadAll(fs, to);
      }
    }
  }

  // ---------- What was created last ----------

  lemma CreatedRemovable(s: Fs, u: Usage, s': Fs, u': Usage, d: nat, nome: seq<Byte>, id: nat, tipo: int)
    requires CanCreate(s, u, d, nome) && IsCreated(s, u, s', u', d, nome, id, tipo) && (tipo == FS_FILE || tipo == FS_DIR)
    ensures CanRemove(s', u', d, nome) && Search(Contents(s', u', d), nome, 0) == Some(id) && IsNameAt(s', u', d, nome) && d < INODES
  {
    hide Core, Fits, FileSlots, Sized, Counted, Tree, LogicalDisk, IsSet, Search, EntryAdded;
    FullParts(s', u');
    CoreParts(s', u');
  }

  /** Creating and removing come to nothing. */
  lemma CreateUndone(s: Fs, u: Usage, s1: Fs, u1: Usage, s2: Fs, u2: Usage, d: nat, nome: seq<Byte>, id: nat, tipo: int)
    requires IsCreated(s, u, s1, u1, d, nome, id, tipo) && (tipo == FS_FILE || tipo == FS_DIR) && IsRemoved(s1, u1, s2, u2, d, id)
    ensures FsModulo(s, u) && FsModulo(s2, u2) && View(s2, u2) == View(s, u)
  {
    hide Core, Fits, FileSlots, Sized, Counted, Tree, LogicalDisk, IsSet, Search, View, IsCreated, IsRemoved;
    CreatedView(s, u, s1, u1, d, nome, id, tipo);
    RemovedView(s1, u1, s2, u2, d, id);
    var v, v2 := View(s, u), View(s2, u2);
    forall g | 0 <= g < INODES ensures v2[g] == v[g] { }
  }

  /** A file or directory that was just created is found under its name, and removing it again leaves the file system
      as it looked before. */
  method CreateThenRemove(fs: FsServer, d: nat, nome: seq<Byte>, dir: bool) returns (status: int, id: nat, found: Option<nat>, status': int)
    requires fs.Valid() && forall k :: 0 <= k < |nome| ==> nome[k] != 0
    modifies fs`cache, fs`u, fs.referencias, fs.blk_bmap, fs.inode_bmap, fs.inode_tab
    ensures fs.Valid() && Seen(fs) == old(Seen(fs)) && 8 * |old(fs.inode_bmap[..])| >= 64
    ensures status == 0 <==>
      && ProperIn(old(Seen(fs)), d, nome) && Search(old(Seen(fs))[d].entries, nome, 0) == None
      && exists i :: 0 <= i < 64 && !IsSet(old(fs.inode_bmap[..]), i)
    ensures status == 0 ==> found == Some(id) && status' == 0
  {
    hide FullInv, FullModulo, FsModulo, IsCreated, IsRemoved, View, CanCreate, CanRemove, NameGone, Search, IsNameAt, Contents, NoRepeat;
    ghost var s, u := fs.Abs(), fs.u;
    CanCreateSeen(s, u, d, nome);
    found, status' := None, -1;
    if dir {
      status, id := fs.FsMkdir(d, nome);
    } else {
      status, id := fs.FsCreate(d, nome);
    }
    if status == 0 {
      ghost var s1, u1, tipo := fs.Abs(), fs.u, if dir then FS_DIR else FS_FILE;
      CreatedRemovable(s, u, s1, u1, d, nome, id, tipo);
      found := fs.AbrirNome(d, nome);
      NameFound(s1, u1, d, nome, id);
      var id';
      status', id' := fs.FsRemove(d, nome);
      CreateUndone(s, u, s1, u1, fs.Abs(), fs.u, d, nome, id, tipo);
    }
  }

  lemma NameFound(s: Fs, u: Usage, d: nat, nome: seq<Byte>, id: nat)
    requires IsNameAt(s, u, d, nome) && Search(Contents(s, u, d), nome, 0) == Some(id)
    ensures forall x :: NameAt(s, u, d, nome, x) ==> x == id
  {
  }

  // ---------- Defragmentation ----------

  /** A defragmentation of a file system whose counts stand at the places that the blocks move to changes nothing that a
      user sees, on a disk of more than 640 blocks or if no block stands before its place. */
  method DefragSeen(fs: FsServer, lixo: nat -> Block) returns (status: int)
    requires fs.Valid() && Defraggable(fs.Abs(), fs.u) && Movable(fs.Abs()) && CountsPlaced(fs.referencias[..], Slots(fs.Abs()))
    requires |fs.cache.disk| > NUM_BLOCOS_MAX || Unobstructed(Slots(fs.Abs()))
    modifies fs`cache, fs`u, fs`defragState, fs.blk_bmap, fs.inode_tab
    ensures fs.Valid() && Seen(fs) == old(Seen(fs))
  {
    hide FullInv, FullModulo, FsModulo, View, Defraggable, Movable, CountsPlaced, Unobstructed, Defragged, DefraggedTables, NoRepeat, DirsKept, Run, UsageAfter, Slots;
    ghost var s, u := fs.Abs(), fs.u;
    var fim;
    status, fim := fs.FsDefrag(lixo);
    if status == 1 {
      DirectoriesKept(s, u, fs.Abs(), fim);
      ValidModulo(fs.Abs(), fs.u);
      DefraggedView(s, u, fs.Abs(), fim);
    }
  }

  lemma DirectoriesKept(s0: Fs, u0: Usage, s: Fs, fim: nat)
    requires Defragged(s0, u0, s, fim)
    ensures FsInv(s0, u0) && Formed(s) && DirsKept(s0, u0, s)
  {
    hide FsInv, SameContents;
  }
}
