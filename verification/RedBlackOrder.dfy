/** The order that a tree keeps: items sorted by key, equal keys in order of arrival. */
module RedBlackOrder {
  import opened Wrappers
  import opened RedBlackShape
  import opened RedBlackMemory
  import opened RedBlackSteps

  datatype Item = Item(chave: int, tid: int, elem: nat)

  /** The comparison of keys, where -1 counts as above everything. */
  function Comparar(a: int, b: int): int {
    if a > b || a == -1 then 1 else if a == b then 0 else -1
  }

  predicate Sorted(s: seq<Item>) {
    forall i, j :: 0 <= i < j < |s| ==> s[i].chave <= s[j].chave
  }

  /** How many leading items have keys at most `k`. */
  function Pos(s: seq<Item>, k: int): (n: nat)
    ensures n <= |s|
    ensures forall i :: 0 <= i < n ==> s[i].chave <= k
    ensures n < |s| ==> s[n].chave > k
  {
    if s == [] || s[0].chave > k then 0 else 1 + Pos(s[1..], k)
  }

  /** A new item goes after every item whose key is not larger. */
  function Insere(s: seq<Item>, it: Item): seq<Item> {
    s[..Pos(s, it.chave)] + [it] + s[Pos(s, it.chave)..]
  }

  lemma InsereSorted(s: seq<Item>, it: Item)
    requires Sorted(s)
    ensures Sorted(Insere(s, it))
  {
    var n := Pos(s, it.chave);
    if n < |s| { assert forall j :: n <= j < |s| ==> s[n].chave <= s[j].chave; }
  }

  lemma InsereMultiset(s: seq<Item>, it: Item)
    ensures multiset(Insere(s, it)) == multiset(s) + multiset{it}
  {
    var n := Pos(s, it.chave);
    assert s == s[..n] + s[n..];
  }

  lemma {:induction false} PosCut(a: seq<Item>, b: seq<Item>, k: int)
    requires forall i :: 0 <= i < |a| ==> a[i].chave <= k
    requires b != [] ==> b[0].chave > k
    ensures Pos(a + b, k) == |a|
  {
    if a == [] {
      assert a + b == b;
    } else {
      assert (a + b)[1..] == a[1..] + b;
      PosCut(a[1..], b, k);
    }
  }

  /** Where a sorted sequence is cut by the key, that is where the new item goes. */
  lemma InsereCut(a: seq<Item>, b: seq<Item>, it: Item)
    requires forall i :: 0 <= i < |a| ==> a[i].chave <= it.chave
    requires b != [] ==> b[0].chave > it.chave
    ensures Insere(a + b, it) == a + [it] + b
  {
    PosCut(a, b, it.chave);
    assert (a + b)[..|a|] == a && (a + b)[|a|..] == b;
  }

  // ---------- Items of a node store ----------

  function ItemAt(m: Mem, q: Ptr): Item {
    if q < |m| then Item(m[q].chave, m[q].tid, m[q].elem) else Item(0, 0, 0)
  }

  function Items(m: Mem, s: seq<Ptr>): (r: seq<Item>)
    ensures |r| == |s|
    ensures forall i :: 0 <= i < |s| ==> r[i] == ItemAt(m, s[i])
  {
    if s == [] then [] else [ItemAt(m, s[0])] + Items(m, s[1..])
  }

  lemma ItemsSame(m: Mem, m': Mem, s: seq<Ptr>)
    requires forall i :: 0 <= i < |s| ==> ItemAt(m, s[i]) == ItemAt(m', s[i])
    ensures Items(m, s) == Items(m', s)
  {
  }

  lemma ItemsConcat(m: Mem, a: seq<Ptr>, b: seq<Ptr>)
    ensures Items(m, a + b) == Items(m, a) + Items(m, b)
  {
  }

  lemma StepItems(m: Mem, m': Mem, s: seq<Ptr>)
    requires SameKeys(m, m')
    ensures Items(m, s) == Items(m', s)
  {
    ItemsSame(m, m', s);
  }

  function Key(m: Mem, q: Ptr): int {
    ItemAt(m, q).chave
  }

  predicate AtMost(m: Mem, s: seq<Ptr>, k: int) {
    forall q :: q in s ==> Key(m, q) <= k
  }

  predicate AtLeast(m: Mem, s: seq<Ptr>, k: int) {
    forall q :: q in s ==> Key(m, q) >= k
  }

  lemma SortedCut(a: seq<Item>, b: seq<Item>)
    requires Sorted(a + b)
    ensures Sorted(a) && Sorted(b)
    ensures forall i, j :: 0 <= i < |a| && 0 <= j < |b| ==> a[i].chave <= b[j].chave
  {
    var s := a + b;
    forall i, j | 0 <= i < |a| && 0 <= j < |b| ensures a[i].chave <= b[j].chave {
      assert s[i] == a[i] && s[|a| + j] == b[j];
    }
    forall i, j | 0 <= i < j < |a| ensures a[i].chave <= a[j].chave {
      assert s[i] == a[i] && s[j] == a[j];
    }
    forall i, j | 0 <= i < j < |b| ensures b[i].chave <= b[j].chave {
      assert s[|a| + i] == b[i] && s[|a| + j] == b[j];
    }
  }

  /** In a sorted sequence, what comes before a node has smaller or equal keys, and what comes
      after it larger or equal ones. */
  lemma SortedAround(m: Mem, a: seq<Ptr>, x: Ptr, b: seq<Ptr>)
    requires Sorted(Items(m, a + [x] + b))
    ensures AtMost(m, a, Key(m, x)) && AtLeast(m, b, Key(m, x))
  {
    var ia, ix, ib := Items(m, a), Items(m, [x]), Items(m, b);
    ItemsConcat(m, a + [x], b);
    ItemsConcat(m, a, [x]);
    SortedCut(ia + ix, ib);
    SortedCut(ia, ix);
    forall q | q in a ensures Key(m, q) <= Key(m, x) {
      var i :| 0 <= i < |a| && a[i] == q;
      assert ia[i].chave <= ix[0].chave;
    }
    forall q | q in b ensures Key(m, q) >= Key(m, x) {
      var i :| 0 <= i < |b| && b[i] == q;
      assert (ia + ix)[|a|].chave <= ib[i].chave;
    }
  }

  /** A new item goes where the keys of the nodes pass its own. */
  lemma InsereNodes(m: Mem, a: seq<Ptr>, z: Ptr, b: seq<Ptr>)
    requires AtMost(m, a, Key(m, z)) && AtLeast(m, b, Key(m, z) + 1)
    ensures Items(m, a + [z] + b) == Insere(Items(m, a + b), ItemAt(m, z))
  {
    var ia, ib := Items(m, a), Items(m, b);
    forall i | 0 <= i < |ia| ensures ia[i].chave <= Key(m, z) { assert a[i] in a; }
    if b != [] { assert b[0] in b; }
    InsereCut(ia, ib, ItemAt(m, z));
    ItemsConcat(m, a, b);
    ItemsAround(m, a, z, b);
  }

  lemma ItemsAround(m: Mem, a: seq<Ptr>, z: Ptr, b: seq<Ptr>)
    ensures Items(m, a + [z] + b) == Items(m, a) + [ItemAt(m, z)] + Items(m, b)
  {
    ItemsConcat(m, a + [z], b);
    ItemsConcat(m, a, [z]);
    assert Items(m, [z]) == [ItemAt(m, z)];
  }

  lemma AtLeastConcat(m: Mem, a: seq<Ptr>, b: seq<Ptr>, k: int)
    ensures AtLeast(m, a + b, k) <==> AtLeast(m, a, k) && AtLeast(m, b, k)
  {
    if AtLeast(m, a + b, k) {
      forall q | q in a ensures Key(m, q) >= k { assert q in a + b; }
      forall q | q in b ensures Key(m, q) >= k { assert q in a + b; }
    }
  }

  lemma AtMostConcat(m: Mem, a: seq<Ptr>, b: seq<Ptr>, k: int)
    ensures AtMost(m, a + b, k) <==> AtMost(m, a, k) && AtMost(m, b, k)
  {
    if AtMost(m, a + b, k) {
      forall q | q in a ensures Key(m, q) <= k { assert q in a + b; }
      forall q | q in b ensures Key(m, q) <= k { assert q in a + b; }
    }
  }

  // ---------- A key of -1 ----------

  /** How many leading items do not compare above the key: where the search for a place leads, as long as it leads
      past these and no others. */
  function PosComo(s: seq<Item>, k: int): (n: nat)
    ensures n <= |s|
  {
    if s == [] || Comparar(s[0].chave, k) == 1 then 0 else 1 + PosComo(s[1..], k)
  }

  function InsereComo(s: seq<Item>, it: Item): seq<Item> {
    var n := PosComo(s, it.chave);
    s[..n] + [it] + s[n..]
  }

  predicate NoMinusOne(s: seq<Item>) {
    forall i :: 0 <= i < |s| ==> s[i].chave != -1
  }

  /** What the tree holds after some insertions and some extractions of the first item, if none finds it empty. */
  datatype TreeOp = Entra(it: Item) | Sai

  function AfterOps(s: seq<Item>, ops: seq<TreeOp>): Option<seq<Item>>
    decreases |ops|
  {
    if ops == [] then Some(s)
    else
      match ops[0]
      case Entra(it) => AfterOps(InsereComo(s, it), ops[1..])
      case Sai => if s == [] then None else AfterOps(s[1..], ops[1..])
  }

  predicate NoneEnters(ops: seq<TreeOp>) {
    forall i :: 0 <= i < |ops| && ops[i].Entra? ==> ops[i].it.chave != -1
  }

  lemma {:induction false} PosComoIs(s: seq<Item>, m: Item, k: int)
    requires NoMinusOne(s) && m.chave == -1
    ensures PosComo(s, k) == Pos(s, k) == PosComo(s + [m], k)
  {
    if s != [] {
      assert (s + [m])[1..] == s[1..] + [m];
      PosComoIs(s[1..], m, k);
    }
  }

  /** A later insertion goes ahead of an item of key -1, wherever it goes among the others. */
  lemma PassedOver(s: seq<Item>, m: Item, it: Item)
    requires NoMinusOne(s) && m.chave == -1
    ensures InsereComo(s, it) == Insere(s, it) && InsereComo(s + [m], it) == Insere(s, it) + [m]
  {
    PosComoIs(s, m, it.chave);
    var n := Pos(s, it.chave);
    assert (s + [m])[..n] == s[..n] && (s + [m])[n..] == s[n..] + [m];
  }

  /** An item of key -1 that is the last stays the last, whatever comes and goes, and is the first exactly when no
      other is left: it is passed over as long as there are others. */
  lemma {:induction false} MinusOneLast(s: seq<Item>, m: Item, ops: seq<TreeOp>)
    requires NoMinusOne(s) && m.chave == -1 && NoneEnters(ops)
    ensures var a, b := AfterOps(s, ops), AfterOps(s + [m], ops);
      a.Some? ==> b == Some(a.value + [m]) && (b.value[0] == m <==> a.value == [])
    decreases |ops|
  {
    if ops == [] {
      assert s != [] ==> (s + [m])[0] == s[0];
    } else {
      match ops[0]
      case Entra(it) =>
        PassedOver(s, m, it);
        assert NoMinusOne(Insere(s, it));
        MinusOneLast(Insere(s, it), m, ops[1..]);
      case Sai =>
        if s != [] {
          assert (s + [m])[1..] == s[1..] + [m];
          MinusOneLast(s[1..], m, ops[1..]);
        }
    }
  }
}
