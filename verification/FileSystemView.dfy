/** The file system as its users see it: for each inode number nothing, a file's bytes or a directory's entries. Each
    operation changes this simple view at the one or two inodes it is about, however their blocks are shared. */
module FileSystemView {
  import opened Block
  import opened CacheSpec
  import opened Bitmap
  import opened Accounting
  import opened FileSystemSpec
  import opened FileSystemSteps
  import opened FileBytes
  import opened FileTwins
  import opened FileSystemFacts
  import opened FileSystemTree
  import opened FileSystemSharing
  import opened FileSystemRemove
  import opened FileSystemCopy
  import opened FileSystemFormat
  import opened Directory
  import opened Defrag
  import opened DefragAccount
  import opened Wrappers

  datatype Node = Absent | File(bytes: seq<Byte>) | Dir(entries: seq<Byte>)

  ghost function NodeAt(s: Fs, u: Usage, f: nat): Node
    requires FsModulo(s, u) && f < INODES
  {
    if IsType(s, f, FS_FILE) then File(Contents(s, u, f)) else if IsType(s, f, FS_DIR) then Dir(Contents(s, u, f)) else Absent
  }

  ghost function View(s: Fs, u: Usage): (v: seq<Node>)
    requires FsModulo(s, u)
    ensures |v| == INODES
  {
    seq(INODES, f requires 0 <= f < INODES => NodeAt(s, u, f))
  }

  /** What is neither changed in the table nor in its pages looks the same. */
  lemma SameNode(s: Fs, u: Usage, s': Fs, u': Usage, f: nat)
    requires FsModulo(s, u) && FsModulo(s', u') && f < INODES && f < |s.inodes| && f < |s'.inodes| && s'.inodes[f] == s.inodes[f]
    requires f < |PagesFor(s, u)| && f < |PagesFor(s', u')| && PagesFor(s', u')[f] == PagesFor(s, u)[f]
    requires IsSet(s'.ibmap, f) <==> IsSet(s.ibmap, f)
    ensures View(s', u')[f] == View(s, u)[f]
  {
    hide Core, Counted, LogicalDisk, IsSet;
    ModuloParts(s, u);
    ModuloParts(s', u');
  }

  /** A write changes one file. */
  lemma KeptView(s: Fs, u: Usage, s': Fs, u': Usage, f: nat)
    requires FsModulo(s, u) && FsModulo(s', u') && OthersKept(s, u, s', u', f)
    ensures forall g :: 0 <= g < INODES && g != f ==> View(s', u')[g] == View(s, u)[g]
  {
    hide Core, Sized, Counted, LogicalDisk, IsSet, Contents, View, PagesFor;
    ModuloParts(s, u);
    ModuloParts(s', u');
    ViewPages(s, u);
    ViewPages(s', u');
    forall g | 0 <= g < INODES && g != f ensures View(s', u')[g] == View(s, u)[g] { SameNode(s, u, s', u', g); }
  }

  lemma ViewPages(s: Fs, u: Usage)
    requires FsModulo(s, u)
    ensures Core(s, u) && |s.inodes| == INODES && |PagesFor(s, u)| == INODES
  {
    hide Sized, Counted, LogicalDisk, CacheInv, RawOk, Roots, BitsOk, RefsOk, DirsAlone;
    ModuloParts(s, u);
    CoreParts(s, u);
    PagesCount(s, u);
  }

  /** A create: at a number where nothing was there is an empty file or directory, and the directory has one more entry. */
  lemma CreatedView(s: Fs, u: Usage, s': Fs, u': Usage, d: nat, nome: seq<Byte>, id: nat, tipo: int)
    requires IsCreated(s, u, s', u', d, nome, id, tipo) && (tipo == FS_FILE || tipo == FS_DIR)
    ensures FullInv(s, u) && FullInv(s', u') && d < INODES && id < INODES && d != id
    ensures var v, v' := View(s, u), View(s', u');
      && v[id] == Absent && v'[id] == (if tipo == FS_FILE then File([]) else Dir([]))
      && v[d].Dir? && v'[d].Dir? && EntryAdded(v[d].entries, v'[d].entries, nome, id)
      && forall g :: 0 <= g < INODES && g != id && g != d ==> v'[g] == v[g]
  {
    hide Core, Fits, FileSlots, Sized, Counted, Tree, LogicalDisk, IsSet, Search, EntryAdded;
    FullParts(s, u);
    FullParts(s', u');
    ViewPages(s, u);
    ViewPages(s', u');
    forall g | 0 <= g < INODES && g != id && g != d ensures View(s', u')[g] == View(s, u)[g] { SameNode(s, u, s', u', g); }
  }

  /** A removal: there is nothing at the number any more, and the directory has lost its last entry. */
  lemma RemovedView(s: Fs, u: Usage, s': Fs, u': Usage, d: nat, id: nat)
    requires IsRemoved(s, u, s', u', d, id)
    ensures FullInv(s, u) && FullInv(s', u') && d < INODES && id < INODES && d != id
    ensures var v, v' := View(s, u), View(s', u');
      && v'[id] == Absent && v[d].Dir? && |v[d].entries| >= DENTRY && v'[d] == Dir(v[d].entries[..|v[d].entries| - DENTRY])
      && forall g :: 0 <= g < INODES && g != id && g != d ==> v'[g] == v[g]
  {
    hide Core, Fits, FileSlots, Sized, Counted, Tree, LogicalDisk, IsSet, Search;
    FullParts(s, u);
    FullParts(s', u');
    ViewPages(s, u);
    ViewPages(s', u');
    forall g | 0 <= g < INODES && g != id && g != d ensures View(s', u')[g] == View(s, u)[g] { SameNode(s, u, s', u', g); }
  }

  /** A copy: the second name leads to a file with the bytes of the first, at the number that it led to before or at one
      where nothing was; in that case the directory has one more entry. Nothing else looks different. */
  lemma CopiedView(s: Fs, u: Usage, s': Fs, u': Usage, dO: nat, nomeO: seq<Byte>, origem: nat, dD: nat, nomeD: seq<Byte>, destino: nat)
    requires IsCopied(s, u, s', u', dO, nomeO, origem, dD, nomeD, destino)
    ensures FullInv(s, u) && FsModulo(s', u') && origem < INODES && destino < INODES && dD < INODES && destino != dD
    ensures var v, v' := View(s, u), View(s', u');
      && v[origem].File? && v'[destino] == v[origem] && v[dD].Dir? && v'[dD].Dir? && Search(v'[dD].entries, nomeD, 0) == Some(destino)
      && (if Search(v[dD].entries, nomeD, 0).Some? then v'[dD] == v[dD]
          else v[destino] == Absent && EntryAdded(v[dD].entries, v'[dD].entries, nomeD, destino))
      && forall g :: 0 <= g < INODES && g != destino && g != dD ==> v'[g] == v[g]
  {
    hide Core, Fits, FileSlots, Sized, Counted, Tree, LogicalDisk, IsSet, Search, EntryAdded;
    FullParts(s, u);
    ViewPages(s, u);
    ViewPages(s', u');
    forall g | 0 <= g < INODES && g != destino && g != dD ensures View(s', u')[g] == View(s, u)[g] { SameNode(s, u, s', u', g); }
  }

  /** An append of a file: behind full blocks its bytes are put behind those of the first, and nothing else looks
      different. */
  lemma AppendedView(s: Fs, u: Usage, s': Fs, u': Usage, f: nat, g: nat)
    requires Appended(s, u, s', u', f, g) && FsModulo(s', u')
    ensures FsInv(s, u) && f < INODES && g < INODES
    ensures var v, v' := View(s, u), View(s', u');
      && v[f].File? && v[g].File? && v'[f].File? && |v'[f].bytes| == |v[f].bytes| + |v[g].bytes|
      && (|v[f].bytes| % BLOCK_SIZE == 0 || v[g].bytes == [] ==> v'[f].bytes == v[f].bytes + v[g].bytes)
      && forall h :: 0 <= h < INODES && h != f ==> v'[h] == v[h]
  {
    hide Core, Fits, FileSlots, Sized, Counted, LogicalDisk, IsSet, OthersKept;
    InvParts(s, u);
    ModuloParts(s', u');
    KeptView(s, u, s', u', f);
  }

  /** What keeps all pages and inodes keeps the view. */
  lemma SameView(s: Fs, u: Usage, s': Fs, u': Usage)
    requires FsModulo(s, u) && FsModulo(s', u') && s'.inodes == s.inodes && s'.ibmap == s.ibmap && PagesFor(s', u') == PagesFor(s, u)
    ensures View(s', u') == View(s, u)
  {
    hide Core, Sized, Counted, LogicalDisk, IsSet, Contents, View, PagesFor;
    ViewPages(s, u);
    ViewPages(s', u');
    forall g | 0 <= g < INODES ensures View(s', u')[g] == View(s, u)[g] { SameNode(s, u, s', u', g); }
  }

  /** After formatting there is an empty root and nothing else. */
  lemma FormattedView(s: Fs, u: Usage)
    requires Formatted(s) && FsModulo(s, u)
    ensures View(s, u)[1] == Dir([]) && forall f :: 0 <= f < INODES && f != 1 ==> View(s, u)[f] == Absent
  {
    hide Core, Counted, LogicalDisk, IsSet;
    ModuloParts(s, u);
  }

  /** A defragmentation that keeps all contents changes nothing that a user sees, wherever the blocks are now. */
  lemma DefraggedView(s0: Fs, u0: Usage, s: Fs, fim: nat)
    requires Defragged(s0, u0, s, fim) && Shaped(u0) && FsModulo(s, UsageAfter(s, u0))
    ensures FsModulo(s0, u0) && View(s, UsageAfter(s, u0)) == View(s0, u0)
  {
    hide Core, Fits, Counted, LogicalDisk, IsSet, NodeAt, TableOk;
    var u := UsageAfter(s, u0);
    ModuloParts(s, u);
    ViewPages(s0, u0);
    ViewPages(s, u);
    forall f | 0 <= f < INODES ensures NodeAt(s, u, f) == NodeAt(s0, u0, f) { DefraggedNode(s0, u0, s, fim, f); }
  }

  lemma DefraggedNode(s0: Fs, u0: Usage, s: Fs, fim: nat, f: nat)
    requires Defragged(s0, u0, s, fim) && Shaped(u0) && FsModulo(s, UsageAfter(s, u0)) && f < INODES
    ensures FsModulo(s0, u0) && NodeAt(s, UsageAfter(s, u0), f) == NodeAt(s0, u0, f)
  {
    hide Core, Fits, Counted, LogicalDisk, IsSet, TableOk, Bytes;
    var u := UsageAfter(s, u0);
    ModuloParts(s, u);
    InvParts(s0, u0);
    CoreParts(s0, u0);
    CoreParts(s, u);
    if IsType(s0, f, FS_FILE) || IsType(s0, f, FS_DIR) { assert SameContents(s0, u0, s, f); }
  }

  // ---------- When operations succeed ----------

  /** A proper name, of 1 to 13 bytes, asked for in a directory. */
  predicate ProperIn(v: seq<Node>, d: nat, nome: seq<Byte>) {
    1 <= |nome| <= 13 && d < |v| && v[d].Dir?
  }

  /** A create succeeds exactly with a proper name that is not in the directory, while an inode number is free. */
  lemma CanCreateSeen(s: Fs, u: Usage, d: nat, nome: seq<Byte>)
    requires FullInv(s, u)
    ensures FsModulo(s, u) && 8 * |s.ibmap| >= 64
    ensures CanCreate(s, u, d, nome) <==>
      && ProperIn(View(s, u), d, nome) && Search(View(s, u)[d].entries, nome, 0) == None
      && exists i :: 0 <= i < 64 && !IsSet(s.ibmap, i)
  {
    hide Core, Sized, Counted, Tree, LogicalDisk, IsSet, Search, Fits;
    FullParts(s, u);
    CoreParts(s, u);
  }

  /** A removal succeeds exactly with a name that is in the directory and leads to no directory with entries. */
  lemma CanRemoveSeen(s: Fs, u: Usage, d: nat, nome: seq<Byte>)
    requires FullInv(s, u)
    ensures FsModulo(s, u)
    ensures CanRemove(s, u, d, nome) <==>
      && ProperIn(View(s, u), d, nome)
      && match Search(View(s, u)[d].entries, nome, 0)
         case None => false
         case Some(id) => id < INODES && (View(s, u)[id].Dir? ==> View(s, u)[id].entries == [])
  {
    hide Core, Sized, Counted, Tree, LogicalDisk, Search, Fits;
    FullParts(s, u);
    CoreParts(s, u);
    if ProperIn(View(s, u), d, nome) && Search(View(s, u)[d].entries, nome, 0).Some? {
      FoundInode(s, u, d, nome);
    }
  }

  /** A name leads to a file exactly if its directory gives a number at which a file is seen. */
  lemma FileSeen(s: Fs, u: Usage, d: nat, nome: seq<Byte>)
    requires FullInv(s, u)
    ensures FsModulo(s, u)
    ensures IsFileAt(s, u, d, nome) <==>
      && ProperIn(View(s, u), d, nome)
      && match Search(View(s, u)[d].entries, nome, 0)
         case None => false
         case Some(id) => id < INODES && View(s, u)[id].File?
  {
    hide Core, Sized, Counted, Tree, LogicalDisk, IsSet, Search, Fits;
    FullParts(s, u);
    CoreParts(s, u);
  }

  /** The number of 512-byte blocks that hold what is seen. */
  function Blocks(n: Node): nat {
    match n
    case Absent => 0
    case File(b) => (|b| + 511) / 512
    case Dir(e) => (|e| + 511) / 512
  }

  function BlocksAt(v: seq<Node>, f: nat): nat {
    if f < |v| then Blocks(v[f]) else 0
  }

  lemma BlocksSeen(s: Fs, u: Usage, f: nat)
    requires FsModulo(s, u) && f < INODES && f < |s.inodes|
    requires IsType(s, f, FS_FILE) || IsType(s, f, FS_DIR) || (s.inodes[f].tipo == 0 && s.inodes[f].size == 0)
    ensures OffsetToBlocks(s.inodes[f].size) == BlocksAt(View(s, u), f)
  {
    hide Core, Counted, LogicalDisk, IsSet, Bytes;
  }

  /** A name is there exactly if the directory that is seen has it. */
  lemma NameSeen(s: Fs, u: Usage, d: nat, nome: seq<Byte>)
    requires FullInv(s, u)
    ensures FsModulo(s, u)
    ensures IsNameAt(s, u, d, nome) <==> ProperIn(View(s, u), d, nome) && Search(View(s, u)[d].entries, nome, 0).Some?
    ensures IsNameAt(s, u, d, nome) ==> Search(View(s, u)[d].entries, nome, 0) == Search(Contents(s, u, d), nome, 0)
  {
    hide Core, Sized, Counted, Tree, LogicalDisk, IsSet, Search, Fits;
    FullParts(s, u);
    CoreParts(s, u);
  }

  /** The blocks of the inode that a name leads to are those that what is seen there needs. */
  lemma NameBlocks(s: Fs, u: Usage, d: nat, nome: seq<Byte>)
    requires FullInv(s, u) && IsNameAt(s, u, d, nome)
    ensures FsModulo(s, u)
    ensures var g := Search(Contents(s, u, d), nome, 0).value;
      g < INODES && g < |s.inodes| && OffsetToBlocks(s.inodes[g].size) == BlocksAt(View(s, u), g)
  {
    hide Core, Sized, Counted, Tree, LogicalDisk, IsSet, Search, Fits, OffsetToBlocks, BlocksAt, Contents, View;
    FullParts(s, u);
    CoreParts(s, u);
    FoundInode(s, u, d, nome);
    BlocksSeen(s, u, Search(Contents(s, u, d), nome, 0).value);
  }

  /** An append succeeds exactly if the first name leads to a file, the second is there, and the blocks of both fit ten. */
  lemma CanAppendSeen(s: Fs, u: Usage, dO: nat, nomeO: seq<Byte>, dD: nat, nomeD: seq<Byte>)
    requires FullInv(s, u)
    ensures FsModulo(s, u)
    ensures CanAppend(s, u, dO, nomeO, dD, nomeD) <==>
      && IsFileAt(s, u, dO, nomeO) && ProperIn(View(s, u), dO, nomeO) && Search(View(s, u)[dO].entries, nomeO, 0).Some?
      && ProperIn(View(s, u), dD, nomeD) && Search(View(s, u)[dD].entries, nomeD, 0).Some?
      && BlocksAt(View(s, u), Search(View(s, u)[dO].entries, nomeO, 0).value) + BlocksAt(View(s, u), Search(View(s, u)[dD].entries, nomeD, 0).value) <= 10
  {
    hide FullInv, FsModulo, Search, OffsetToBlocks, BlocksAt, Contents, View, ProperIn, IsNameAt;
    NameSeen(s, u, dO, nomeO);
    NameSeen(s, u, dD, nomeD);
    if IsFileAt(s, u, dO, nomeO) {
      FileIsName(s, u, dO, nomeO);
      NameBlocks(s, u, dO, nomeO);
    }
    if IsNameAt(s, u, dD, nomeD) { NameBlocks(s, u, dD, nomeD); }
  }

  lemma FileIsName(s: Fs, u: Usage, d: nat, nome: seq<Byte>)
    requires IsFileAt(s, u, d, nome)
    ensures IsNameAt(s, u, d, nome)
  {
  }
}
