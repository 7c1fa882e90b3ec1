/** Directories: contents of sixteen-byte entries, each a name and an inode number. */
module Directory {
  import opened Wrappers
  import opened Block
  import opened FileSystemSpec
  import opened Accounting

  const NAME: nat := 14
  const PAGE_ENTRIES: nat := 32

  /** A name: the bytes before the first zero byte. */
  function NameOf(e: seq<Byte>): (n: seq<Byte>)
    ensures |n| <= |e|
  {
    if e == [] || e[0] == 0 then [] else [e[0]] + NameOf(e[1..])
  }

  function IdOf(e: seq<Byte>): nat
    requires |e| == DENTRY
  {
    var lo: int, hi: int := e[NAME], e[NAME + 1];
    lo + 256 * hi
  }

  function EntryAt(c: seq<Byte>, i: nat): (e: seq<Byte>)
    requires DENTRY * (i + 1) <= |c|
    ensures |e| == DENTRY
  {
    c[DENTRY * i..DENTRY * (i + 1)]
  }

  function EntryName(e: seq<Byte>): seq<Byte>
    requires |e| == DENTRY
  {
    NameOf(e[..NAME])
  }

  /** The inode that the first entry of this name gives, looking from entry `i` on. */
  function Search(c: seq<Byte>, nome: seq<Byte>, i: nat): Option<nat>
    decreases |c| - DENTRY * i
  {
    if DENTRY * (i + 1) > |c| then None
    else if EntryName(EntryAt(c, i)) == nome then Some(IdOf(EntryAt(c, i)))
    else Search(c, nome, i + 1)
  }

  /** `e` with the name and the inode number written into it; bytes behind the name stay. */
  function WithEntry(e: seq<Byte>, nome: seq<Byte>, id: nat): (r: seq<Byte>)
    requires |e| == DENTRY && |nome| < NAME && id < 65536
    ensures |r| == DENTRY
  {
    nome + [0] + e[|nome| + 1..NAME] + [id % 256, id / 256]
  }

  /** One more entry, at the end. */
  predicate EntryAdded(c: seq<Byte>, c': seq<Byte>, nome: seq<Byte>, id: nat) {
    |c'| == |c| + DENTRY && c'[..|c|] == c && EntryName(c'[|c|..]) == nome && IdOf(c'[|c|..]) == id
  }

  predicate IsName(nome: seq<Byte>) {
    0 < |nome| < NAME && forall k :: 0 <= k < |nome| ==> nome[k] != 0
  }

  lemma {:induction false} NameOfTerminated(nome: seq<Byte>, rest: seq<Byte>)
    requires forall k :: 0 <= k < |nome| ==> nome[k] != 0
    ensures NameOf(nome + [0] + rest) == nome
  {
    var s := nome + [0] + rest;
    if nome == [] {
      assert s[0] == 0;
    } else {
      NameOfTerminated(nome[1..], rest);
      assert s[1..] == nome[1..] + [0] + rest;
      assert s[0] == nome[0];
    }
  }

  /** What is written as an entry is read as that entry. */
  lemma EntryRoundTrip(e: seq<Byte>, nome: seq<Byte>, id: nat)
    requires |e| == DENTRY && IsName(nome) && id < 65536
    ensures EntryName(WithEntry(e, nome, id)) == nome && IdOf(WithEntry(e, nome, id)) == id
  {
    var w := WithEntry(e, nome, id);
    WrittenName(e, nome, id);
    NameOfTerminated(nome, e[|nome| + 1..NAME]);
    WrittenId(e, nome, id);
    assert IdOf(w) == id % 256 + 256 * (id / 256);
  }

  lemma WrittenName(e: seq<Byte>, nome: seq<Byte>, id: nat)
    requires |e| == DENTRY && |nome| < NAME && id < 65536
    ensures WithEntry(e, nome, id)[..NAME] == nome + [0] + e[|nome| + 1..NAME]
  {
  }

  lemma WrittenId(e: seq<Byte>, nome: seq<Byte>, id: nat)
    requires |e| == DENTRY && |nome| < NAME && id < 65536
    ensures WithEntry(e, nome, id)[NAME] == id % 256 && WithEntry(e, nome, id)[NAME + 1] == id / 256
  {
  }

  lemma EntryOfConcat(c: seq<Byte>, e: seq<Byte>, i: nat)
    requires |c| % DENTRY == 0 && |e| == DENTRY && DENTRY * (i + 1) <= |c| + DENTRY
    ensures EntryAt(c + e, i) == if DENTRY * (i + 1) <= |c| then EntryAt(c, i) else e
  {
  }

  /** An entry put at the end is found if its name was not there, and hides no other. */
  lemma {:induction false} SearchAppended(c: seq<Byte>, e: seq<Byte>, nome: seq<Byte>, i: nat)
    requires |c| % DENTRY == 0 && |e| == DENTRY && DENTRY * i <= |c|
    ensures Search(c + e, nome, i) == match Search(c, nome, i)
                                      case Some(id) => Some(id)
                                      case None => if EntryName(e) == nome then Some(IdOf(e)) else None
    decreases |c| - DENTRY * i
  {
    EntryOfConcat(c, e, i);
    if DENTRY * (i + 1) <= |c| {
      SearchAppended(c, e, nome, i + 1);
    } else {
      assert Search(c + e, nome, i + 1) == None;
    }
  }

  /** Names that occur once. */
  ghost predicate UniqueNames(c: seq<Byte>) {
    forall i, j :: 0 <= i < j && DENTRY * (j + 1) <= |c| ==> EntryName(EntryAt(c, i)) != EntryName(EntryAt(c, j))
  }

  lemma {:induction false} SearchNone(c: seq<Byte>, nome: seq<Byte>, i: nat)
    requires Search(c, nome, i) == None
    ensures forall k :: i <= k && DENTRY * (k + 1) <= |c| ==> EntryName(EntryAt(c, k)) != nome
    decreases |c| - DENTRY * i
  {
    if DENTRY * (i + 1) <= |c| { SearchNone(c, nome, i + 1); }
  }

  /** A new name at the end is as unique as the others. */
  lemma UniquePlus(c: seq<Byte>, e: seq<Byte>)
    requires |c| % DENTRY == 0 && |e| == DENTRY && UniqueNames(c) && Search(c, EntryName(e), 0) == None
    ensures UniqueNames(c + e)
  {
    hide NameOf;
    SearchNone(c, EntryName(e), 0);
    forall i, j | 0 <= i < j && DENTRY * (j + 1) <= |c + e| ensures EntryName(EntryAt(c + e, i)) != EntryName(EntryAt(c + e, j)) {
      EntryOfConcat(c, e, i);
      EntryOfConcat(c, e, j);
    }
  }

  lemma UniquePrefix(c: seq<Byte>, n: nat)
    requires UniqueNames(c) && n <= |c|
    ensures UniqueNames(c[..n])
  {
    forall i, j | 0 <= i < j && DENTRY * (j + 1) <= n ensures EntryName(EntryAt(c[..n], i)) != EntryName(EntryAt(c[..n], j)) {
      assert EntryAt(c[..n], i) == EntryAt(c, i) && EntryAt(c[..n], j) == EntryAt(c, j);
    }
  }

  /** The name of the last entry. */
  function LastName(c: seq<Byte>): seq<Byte>
    requires |c| >= DENTRY && |c| % DENTRY == 0
  {
    EntryName(EntryAt(c, |c| / DENTRY - 1))
  }

  /** Dropping the last entry makes the name unfindable exactly if it was the name of the last entry. */
  lemma RemovedExactly(c: seq<Byte>, nome: seq<Byte>)
    requires |c| % DENTRY == 0 && UniqueNames(c) && Search(c, nome, 0).Some?
    ensures |c| >= DENTRY
    ensures Search(c[..|c| - DENTRY], nome, 0) == None <==> LastName(c) == nome
  {
    assert c != [];
    var d, last := c[..|c| - DENTRY], EntryAt(c, |c| / DENTRY - 1);
    assert c == d + last;
    SearchAppended(d, last, nome, 0);
    if Search(d, nome, 0).Some? {
      var k := SearchWhere(d, nome, 0);
      EntryOfConcat(d, last, k);
    }
  }

  lemma {:induction false} SearchWhere(c: seq<Byte>, nome: seq<Byte>, i: nat) returns (k: nat)
    requires Search(c, nome, i).Some?
    ensures i <= k && DENTRY * (k + 1) <= |c| && EntryName(EntryAt(c, k)) == nome && Search(c, nome, i) == Some(IdOf(EntryAt(c, k)))
    decreases |c| - DENTRY * i
  {
    if EntryName(EntryAt(c, i)) == nome {
      k := i;
    } else {
      k := SearchWhere(c, nome, i + 1);
    }
  }

  function PageEntry(page: Block, i: nat): (e: seq<Byte>)
    requires i < PAGE_ENTRIES
    ensures |e| == DENTRY
  {
    page[DENTRY * i..DENTRY * i + DENTRY]
  }

  /** Looks through entries `i` to `n - 1` of a page. */
  function SearchPage(page: Block, nome: seq<Byte>, i: nat, n: nat): Option<nat>
    requires n <= PAGE_ENTRIES
    decreases n - i
  {
    if i >= n then None
    else if EntryName(PageEntry(page, i)) == nome then Some(IdOf(PageEntry(page, i)))
    else SearchPage(page, nome, i + 1, n)
  }

  method ProcurarNaPagina(page: Block, nome: seq<Byte>, n: nat) returns (id: Option<nat>)
    requires n <= PAGE_ENTRIES
    ensures id == SearchPage(page, nome, 0, n)
  {
    var i: nat := 0;
    while i < n
      invariant 0 <= i <= n && SearchPage(page, nome, 0, n) == SearchPage(page, nome, i, n)
    {
      if EntryName(PageEntry(page, i)) == nome {
        return Some(IdOf(PageEntry(page, i)));
      }
      i := i + 1;
    }
    return None;
  }

  /** Searching goes page by page. */
  lemma {:induction false} SearchByPage(c: seq<Byte>, nome: seq<Byte>, e: nat, page: Block, i: nat, n: nat)
    requires i <= n <= PAGE_ENTRIES && DENTRY * (e + n) <= |c|
    requires forall k :: 0 <= k < n ==> PageEntry(page, k) == EntryAt(c, e + k)
    ensures Search(c, nome, e + i) == match SearchPage(page, nome, i, n)
                                      case Some(id) => Some(id)
                                      case None => Search(c, nome, e + n)
    decreases n - i
  {
    if i < n {
      assert PageEntry(page, i) == EntryAt(c, e + i);
      SearchByPage(c, nome, e, page, i + 1, n);
    }
  }

  lemma SearchEnd(c: seq<Byte>, nome: seq<Byte>)
    ensures Search(c, nome, |c| / DENTRY) == None
  {
  }
}
