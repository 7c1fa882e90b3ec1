/** The chained hash table of the block cache: buckets of linked nodes, unlinked through the link
    that leads to them. It refines a finite map. */
module Hash {
  import opened Block

  /** A cached block. */
  class ICache {
    var idBloco: nat
    var valido: bool
    var referenciado: bool
    var modificado: bool
    var tempoEmCache: int
    var conteudobloco: Block

    constructor (id: nat, modificado: bool, dados: Block)
      ensures idBloco == id && valido && referenciado && this.modificado == modificado && tempoEmCache == 0
      ensures conteudobloco == dados
    {
      idBloco, valido, referenciado, this.modificado, tempoEmCache := id, true, true, modificado, 0;
      conteudobloco := dados;
    }
  }

  class HashNode {
    const key: nat
    var value: ICache
    var next: HashNode?

    constructor (key: nat, value: ICache, next: HashNode?)
      ensures this.key == key && this.value == value && this.next == next
    {
      this.key, this.value, this.next := key, value, next;
    }
  }

  function FuncaoHash(key: nat): nat {
    key % 10
  }

  /** The link at position `j` of a chain. */
  ghost function LinkAt(c: seq<HashNode>, j: nat): HashNode? {
    if j < |c| then c[j] else null
  }

  /** A linked list of nodes. */
  ghost predicate Linked(head: HashNode?, c: seq<HashNode>)
    reads (set n | n in c)`next
  {
    head == LinkAt(c, 0) && forall j :: 0 <= j < |c| ==> c[j].next == LinkAt(c, j + 1)
  }

  /** The keys of bucket `i`, each once. */
  ghost predicate Keyed(c: seq<HashNode>, i: nat, length: nat)
    requires length > 0
  {
    && (forall j :: 0 <= j < |c| ==> FuncaoHash(c[j].key) % length == i)
    && (forall j, k :: 0 <= j < k < |c| ==> c[j].key != c[k].key)
  }

  /** The values are those of the map. */
  ghost predicate Valued(c: seq<HashNode>, m: map<nat, ICache>)
    reads (set n | n in c)`value
  {
    forall j :: 0 <= j < |c| ==> c[j].key in m && m[c[j].key] == c[j].value
  }

  ghost predicate HasKey(c: seq<HashNode>, key: nat) {
    exists j :: 0 <= j < |c| && c[j].key == key
  }

  lemma DisjointBuckets(c: seq<HashNode>, d: seq<HashNode>, i: nat, k: nat, length: nat)
    requires length > 0 && Keyed(c, i, length) && Keyed(d, k, length) && i != k
    ensures forall n :: n in c ==> n !in d
  {
  }

  ghost function Total(chains: seq<seq<HashNode>>): nat {
    if chains == [] then 0 else |chains[0]| + Total(chains[1..])
  }

  class HashMap {
    var size: nat
    const elems: array<HashNode?>
    ghost var chains: seq<seq<HashNode>>
    ghost var repr: set<HashNode>
    ghost var m: map<nat, ICache>

    ghost function Index(key: nat): nat
      requires elems.Length > 0
    {
      FuncaoHash(key) % elems.Length
    }

    ghost predicate Bucket(i: nat)
      reads this, elems, repr
      requires i < elems.Length == |chains|
    {
      && (forall n :: n in chains[i] ==> n in repr)
      && Linked(elems[i], chains[i]) && Keyed(chains[i], i, elems.Length) && Valued(chains[i], m)
    }

    /** Every bucket is a chain of nodes with its keys and the values of the map; every key of the map
        has a node. */
    ghost predicate Valid()
      reads this, elems, repr
    {
      && 0 < elems.Length == |chains|
      && (forall i :: 0 <= i < |chains| ==> Bucket(i))
      && (forall k :: k in m ==> HasKey(chains[Index(k)], k))
      && size == |m| == Total(chains)
    }

    constructor (length: nat)
      requires length > 0
      ensures Valid() && fresh(elems) && fresh(repr) && m == map[] && elems.Length == length
    {
      size := 0;
      elems := new HashNode?[length](_ => null);
      chains := seq(length, _ => []);
      repr := {};
      m := map[];
      new;
      TotalEmpty(chains);
    }

    /** Replaces the value of the node at position `j` of a chain. */
    method Substituir(h: nat, ghost j: nat, aux: HashNode, value: ICache)
      requires Valid() && h < |chains| && j < |chains[h]| && aux == chains[h][j]
      modifies this`m, aux`value
      ensures Valid() && aux.key in old(m) && m == old(m)[aux.key := value]
    {
      hide Valid, Bucket, Linked, Keyed, Valued;
      NodeAt(h, j);
      aux.value := value;
      m := m[aux.key := value];
      SubstituirValid(h, j, aux);
    }

    twostate lemma SubstituirValid(new h: nat, new j: nat, new aux: HashNode)
      requires old(Valid()) && h < |old(chains)| && j < |old(chains)[h]| && aux == old(chains)[h][j] && aux.key in old(m)
      requires chains == old(chains) && repr == old(repr) && size == old(size) && m == old(m)[aux.key := aux.value]
      requires forall i :: 0 <= i < elems.Length ==> elems[i] == old(elems[i])
      requires forall x :: x in repr ==> x.next == old(x.next)
      requires forall x :: x in repr && x != aux ==> x.value == old(x.value)
      ensures Valid()
    {
      assert old(Bucket(h));
      SameSize(old(m), aux.key, aux.value);
      forall i | 0 <= i < |chains| ensures Bucket(i) {
        assert old(Bucket(i));
        if i != h { DisjointBuckets(chains[i], chains[h], i, h, elems.Length); }
      }
    }

    /** Puts a new node in front of a chain that does not hold its key. */
    method Juntar(h: nat, key: nat, value: ICache)
      requires Valid() && h == Index(key) && forall j :: 0 <= j < |chains[h]| ==> chains[h][j].key != key
      modifies this, elems
      ensures Valid() && key !in old(m) && m == old(m)[key := value]
      ensures fresh(repr - old(repr)) && old(repr) <= repr
    {
      hide Linked, Keyed, Valued, Bucket, HasKey;
      var n := new HashNode(key, value, elems[h]);
      elems[h] := n;
      size := size + 1;
      m := m[key := value];
      repr := repr + {n};
      chains := chains[h := [n] + chains[h]];
      JuntarValid(h, n);
    }

    twostate lemma JuntarValid(new h: nat, new n: HashNode)
      requires old(Valid()) && h == Index(n.key) && n !in old(repr)
      requires forall j :: 0 <= j < |old(chains[h])| ==> old(chains[h])[j].key != n.key
      requires elems[h] == n && n.next == old(elems[h]) && forall i :: 0 <= i < elems.Length && i != h ==> elems[i] == old(elems[i])
      requires chains == old(chains)[h := [n] + old(chains)[h]] && m == old(m)[n.key := n.value]
      requires repr == old(repr) + {n} && size == old(size) + 1
      requires forall x :: x in old(repr) ==> x.next == old(x.next) && x.value == old(x.value)
      ensures Valid() && n.key !in old(m)
    {
      hide Linked, Keyed, Valued, HasKey;
      ghost var c := old(chains)[h];
      assert old(Bucket(h));
      NoKey(c, n.key);
      TotalUpdate(old(chains), h, [n] + c);
      forall i | 0 <= i < |chains| ensures Bucket(i) {
        assert old(Bucket(i));
        if i == h {
          LinkedCons(old(elems[h]), n, c);
          KeyedCons(n, c, h, elems.Length);
          ValuedCons(n, c, old(m), m);
        } else {
          ValuedOther(chains[i], i, elems.Length, old(m), m, n.key);
        }
      }
      forall k | k in m ensures HasKey(chains[Index(k)], k) {
        assert k != n.key ==> HasKey(old(chains)[Index(k)], k);
        HasKeyCons(n, c, k);
      }
    }

    /** What a node of a chain is. */
    lemma NodeAt(i: nat, j: nat)
      requires Valid() && i < |chains| && j < |chains[i]|
      ensures var n := chains[i][j];
        n in repr && n.next == LinkAt(chains[i], j + 1) && n.key in m && m[n.key] == n.value && Index(n.key) == i
    {
      assert Bucket(i);
    }

    /** Chains start at their bucket and lead to every key of the map. */
    lemma Heads(i: nat)
      requires Valid() && i < |chains|
      ensures elems[i] == LinkAt(chains[i], 0)
      ensures forall k :: k in m && Index(k) == i ==> HasKey(chains[i], k)
      ensures forall j, l :: 0 <= j < l < |chains[i]| ==> chains[i][j].key != chains[i][l].key
    {
      assert Bucket(i);
    }

    /** Adds a pair, or replaces the value and marks it modified and referenced if the key exists. */
    method HashInsert(key: nat, value: ICache) returns (status: int)
      requires Valid()
      modifies this, elems, repr, value`modificado, value`referenciado
      ensures Valid() && m == old(m)[key := value]
      ensures fresh(repr - old(repr)) && old(repr) <= repr
      ensures status == if key in old(m) then 1 else 0
      ensures if key in old(m) then value.modificado && value.referenciado
              else value.modificado == old(value.modificado) && value.referenciado == old(value.referenciado)
    {
      hide Valid, Bucket, Linked, Keyed, Valued, HasKey;
      ValidLength();
      var h := FuncaoHash(key) % elems.Length;
      ghost var c := chains[h];
      Heads(h);
      var aux, stop := elems[h], true;
      ghost var j := 0;
      while aux != null && stop
        invariant 0 <= j <= |c| && aux == LinkAt(c, j) && chains == old(chains) && repr == old(repr) && Valid()
        invariant m == if stop then old(m) else old(m)[key := value]
        invariant stop ==> value.modificado == old(value.modificado) && value.referenciado == old(value.referenciado)
        invariant !stop ==> key in old(m) && value.modificado && value.referenciado
        invariant forall k :: 0 <= k < j && stop ==> c[k].key != key
        decreases |c| - j
      {
        NodeAt(h, j);
        if aux.key == key {
          label unmarked:
          value.modificado := true;
          value.referenciado := true;
          MarkedValid@unmarked();
          Substituir(h, j, aux, value);
          stop := false;
          NodeAt(h, j);
        }
        aux := aux.next;
        j := j + 1;
      }
      if stop {
        Juntar(h, key, value);
        status := 0;
      } else {
        status := 1;
      }
    }

    twostate lemma MarkedValid()
      requires old(Valid()) && chains == old(chains) && repr == old(repr) && m == old(m) && size == old(size)
      requires forall i :: 0 <= i < elems.Length ==> elems[i] == old(elems[i])
      requires forall x :: x in repr ==> x.next == old(x.next) && x.value == old(x.value)
      ensures Valid()
    {
      forall i | 0 <= i < |chains| ensures Bucket(i) { assert old(Bucket(i)); }
    }

    lemma ValidLength()
      requires Valid()
      ensures 0 < elems.Length == |chains| && size == |m| == Total(chains)
    {
    }

    /** The value stored under a key; null and status 1 if there is none. */
    method HashGet(key: nat) returns (status: int, value: ICache?)
      requires Valid()
      ensures status == (if key in m then 0 else 1)
      ensures value == if key in m then m[key] else null
    {
      hide Valid, Bucket, Linked, Keyed, Valued;
      ValidLength();
      var h := FuncaoHash(key) % elems.Length;
      ghost var c := chains[h];
      Heads(h);
      var aux := elems[h];
      ghost var j := 0;
      while aux != null && aux.key != key
        invariant 0 <= j <= |c| && aux == LinkAt(c, j)
        invariant forall k :: 0 <= k < j ==> c[k].key != key
        decreases |c| - j
      {
        NodeAt(h, j);
        aux := aux.next;
        j := j + 1;
      }
      if aux != null {
        NodeAt(h, j);
        value := aux.value;
        status := 0;
      } else {
        NoKey(c, key);
        value := null;
        status := 1;
      }
    }

    /** The node of a key and the node before it in its bucket. */
    method Procurar(key: nat) returns (aux: HashNode?, last: HashNode?, ghost at: nat)
      requires Valid()
      ensures Index(key) < |chains| && at <= |chains[Index(key)]| && aux == LinkAt(chains[Index(key)], at)
      ensures last == if at == 0 then null else chains[Index(key)][at - 1]
      ensures aux == null <==> key !in m
      ensures aux != null ==> aux.key == key && aux.value == m[key]
    {
      hide Valid, Bucket, Linked, Keyed, Valued;
      ValidLength();
      var index := FuncaoHash(key) % elems.Length;
      ghost var c := chains[index];
      Heads(index);
      aux, last, at := elems[index], null, 0;
      while aux != null && key != aux.key
        invariant 0 <= at <= |c| && aux == LinkAt(c, at)
        invariant last == if at == 0 then null else c[at - 1]
        invariant forall k :: 0 <= k < at ==> c[k].key != key
        decreases |c| - at
      {
        NodeAt(index, at);
        last := aux;
        aux := aux.next;
        at := at + 1;
      }
      if aux != null {
        NodeAt(index, at);
      } else {
        NoKey(c, key);
      }
    }

    /** Unlinks the node of a key, through the link that leads to it, and hands over its value. */
    method HashRemove(key: nat) returns (status: int, value: ICache?, ghost at: nat)
      requires Valid()
      modifies this, elems, repr`next
      ensures Valid() && m == old(m) - {key} && repr == old(repr)
      ensures status == (if key in old(m) then 0 else 1)
      ensures value == if key in old(m) then old(m)[key] else null
      ensures key !in old(m) ==> chains == old(chains)
      ensures key in old(m) ==>
        && Index(key) < |old(chains)| && at < |old(chains)[Index(key)]| && old(chains)[Index(key)][at].key == key
        && chains == old(chains)[Index(key) := Cut(old(chains)[Index(key)], at)]
    {
      hide Valid, Bucket;
      ValidLength();
      var aux, last;
      aux, last, at := Procurar(key);
      if aux == null {
        NotInMap(m, key);
        return 1, null, at;
      }
      value := aux.value;
      Desligar(FuncaoHash(key) % elems.Length, at, aux, last);
      status := 0;
    }

    /** Takes the node `aux` out of the chain by changing the link that leads to it. */
    method Desligar(index: nat, ghost at: nat, aux: HashNode, last: HashNode?)
      requires Valid() && index < |chains| && at < |chains[index]| && aux == chains[index][at]
      requires last == if at == 0 then null else chains[index][at - 1]
      modifies this, elems, repr`next
      ensures Valid() && m == old(m) - {aux.key} && repr == old(repr)
      ensures chains == old(chains)[index := Cut(old(chains)[index], at)]
    {
      hide Valid, Bucket, Linked, Keyed, Valued, HasKey;
      ValidLength();
      NodeAt(index, at);
      LastAt(index, at, last);
      Religar(index, last, aux.next);
      size := size - 1;
      m := m - {aux.key};
      ghost var c := chains[index];
      chains := chains[index := Cut(c, at)];
      RetirarValid(c, index, at);
    }

    lemma LastAt(i: nat, j: nat, last: HashNode?)
      requires Valid() && i < |chains| && j < |chains[i]| && last == if j == 0 then null else chains[i][j - 1]
      ensures last != null ==> last in repr
    {
      if j > 0 { NodeAt(i, j - 1); }
    }

    /** Changes the link in node `last`, or in the bucket if there is none. */
    method Religar(index: nat, last: HashNode?, next: HashNode?)
      requires index < elems.Length
      modifies elems, (if last == null then {} else {last})`next
      ensures if last == null then elems[index] == next else elems[index] == old(elems[index]) && last.next == next
      ensures forall i :: 0 <= i < elems.Length && i != index ==> elems[i] == old(elems[i])
    {
      if last == null {
        elems[index] := next;
      } else {
        last.next := next;
      }
    }

    twostate lemma RetirarValid(new c: seq<HashNode>, new h: nat, new at: nat)
      requires old(Valid()) && h < |old(chains)| && c == old(chains[h]) && at < |c|
      requires forall i :: 0 <= i < elems.Length && i != h ==> elems[i] == old(elems[i])
      requires repr == old(repr) && m == old(m) - {c[at].key} && size == old(size) - 1
      requires chains == old(chains)[h := Cut(c, at)]
      requires forall x :: x in repr ==> x.value == old(x.value)
      requires forall x :: x in repr && (at == 0 || x != c[at - 1]) ==> x.next == old(x.next)
      requires at == 0 ==> elems[h] == old(c[at].next)
      requires at > 0 ==> elems[h] == old(elems[h]) && c[at - 1].next == old(c[at].next)
      ensures Valid()
    {
      hide Linked, Keyed, Valued, HasKey;
      assert old(Bucket(h));
      TotalUpdate(old(chains), h, Cut(c, at));
      KeyedCut(c, at, h, elems.Length);
      ValuedHas(c, at);
      LinkedCut(c, h, at);
      ValuedCut(c, at, h, elems.Length, old(m), m);
      forall i | 0 <= i < |chains| && i != h ensures Bucket(i) {
        OutroBucket(c, h, at, i);
      }
      forall k | k in m ensures HasKey(chains[Index(k)], k) {
        assert HasKey(old(chains)[Index(k)], k);
        if Index(k) == h { HasKeyCut(c, at, k); }
      }
    }

    /** A bucket that the removed node was not in. */
    twostate lemma OutroBucket(new c: seq<HashNode>, new h: nat, new at: nat, new i: nat)
      requires old(Valid()) && h < |old(chains)| && c == old(chains[h]) && at < |c| && i < elems.Length && i != h
      requires |chains| == elems.Length && elems[i] == old(elems[i]) && chains[i] == old(chains)[i]
      requires repr == old(repr) && m == old(m) - {c[at].key}
      requires forall x :: x in repr ==> x.value == old(x.value)
      requires forall x :: x in repr && (at == 0 || x != c[at - 1]) ==> x.next == old(x.next)
      ensures Bucket(i)
    {
      hide Linked, Keyed, Valued, HasKey;
      assert old(Bucket(h)) && old(Bucket(i));
      OtherBucket(c, at, chains[i], h, i, elems.Length);
      HeadOf(i);
      LinkedSame(chains[i]);
      ValuedOther(chains[i], i, elems.Length, old(m), m, c[at].key);
    }

    twostate lemma HeadOf(i: nat)
      requires i < elems.Length == |old(chains)| && old(Linked(elems[i], chains[i]))
      ensures old(elems[i]) == LinkAt(old(chains[i]), 0)
    {
    }

    twostate lemma ValuedHas(c: seq<HashNode>, new at: nat)
      requires at < |c| && old(Valued(c, m))
      ensures c[at].key in old(m)
    {
    }

    twostate lemma LinkedSame(c: seq<HashNode>)
      requires old(Linked(LinkAt(c, 0), c)) && forall j :: 0 <= j < |c| ==> c[j].next == old(c[j].next)
      ensures Linked(LinkAt(c, 0), c)
    {
    }

    twostate lemma LinkedCut(c: seq<HashNode>, new h: nat, new at: nat)
      requires h < elems.Length && at < |c| && old(Linked(elems[h], c)) && Keyed(c, h, elems.Length)
      requires forall j :: 0 <= j < |c| && j != at - 1 ==> c[j].next == old(c[j].next)
      requires at == 0 ==> elems[h] == old(c[at].next)
      requires at > 0 ==> elems[h] == old(elems[h]) && c[at - 1].next == old(c[at].next)
      ensures Linked(elems[h], Cut(c, at))
    {
    }
  }

  /** A chain without its node at position `at`. */
  ghost function Cut(c: seq<HashNode>, at: nat): seq<HashNode>
    requires at < |c|
  {
    c[..at] + c[at + 1..]
  }

  lemma SameSize(m: map<nat, ICache>, key: nat, value: ICache)
    requires key in m
    ensures |m[key := value]| == |m|
  {
    assert m[key := value].Keys == m.Keys;
    assert |m[key := value]| == |m[key := value].Keys| && |m| == |m.Keys|;
  }

  lemma NotInMap(m: map<nat, ICache>, key: nat)
    requires key !in m
    ensures m - {key} == m
  {
  }

  lemma KeyedCut(c: seq<HashNode>, at: nat, i: nat, length: nat)
    requires length > 0 && Keyed(c, i, length) && at < |c|
    ensures Keyed(Cut(c, at), i, length)
    ensures FuncaoHash(c[at].key) % length == i
    ensures forall j :: 0 <= j < |c| && j != at ==> c[j] != c[at]
    ensures forall j :: 0 <= j < |c| && at > 0 && j != at - 1 ==> c[j] != c[at - 1]
  {
  }

  lemma ValuedCut(c: seq<HashNode>, at: nat, i: nat, length: nat, m: map<nat, ICache>, m': map<nat, ICache>)
    requires length > 0 && Valued(c, m) && Keyed(c, i, length) && at < |c| && m' == m - {c[at].key}
    ensures Valued(Cut(c, at), m')
  {
  }

  lemma OtherBucket(c: seq<HashNode>, at: nat, d: seq<HashNode>, h: nat, i: nat, length: nat)
    requires length > 0 && Keyed(c, h, length) && Keyed(d, i, length) && at < |c| && h != i
    ensures forall j :: 0 <= j < |d| ==> d[j] !in c
    ensures FuncaoHash(c[at].key) % length == h
  {
  }

  lemma HasKeyCut(c: seq<HashNode>, at: nat, k: nat)
    requires at < |c| && HasKey(c, k) && k != c[at].key
    ensures HasKey(Cut(c, at), k)
  {
    var j :| 0 <= j < |c| && c[j].key == k;
    assert Cut(c, at)[if j < at then j else j - 1].key == k;
  }

  lemma NoKey(c: seq<HashNode>, key: nat)
    ensures HasKey(c, key) <==> !forall j :: 0 <= j < |c| ==> c[j].key != key
  {
  }

  lemma LinkedCons(head: HashNode?, n: HashNode, c: seq<HashNode>)
    requires Linked(head, c) && n.next == head
    ensures Linked(n, [n] + c)
  {
  }

  lemma KeyedCons(n: HashNode, c: seq<HashNode>, i: nat, length: nat)
    requires length > 0 && Keyed(c, i, length) && FuncaoHash(n.key) % length == i
    requires forall j :: 0 <= j < |c| ==> c[j].key != n.key
    ensures Keyed([n] + c, i, length)
  {
  }

  lemma ValuedCons(n: HashNode, c: seq<HashNode>, m: map<nat, ICache>, m': map<nat, ICache>)
    requires Valued(c, m) && m' == m[n.key := n.value] && n.key !in m
    ensures Valued([n] + c, m')
  {
  }

  /** A change of the map outside the bucket. */
  lemma ValuedOther(c: seq<HashNode>, i: nat, length: nat, m: map<nat, ICache>, m': map<nat, ICache>, key: nat)
    requires length > 0 && Valued(c, m) && Keyed(c, i, length) && FuncaoHash(key) % length != i
    requires forall k :: k in m && k != key ==> k in m' && m'[k] == m[k]
    ensures Valued(c, m')
  {
  }

  lemma HasKeyCons(n: HashNode, c: seq<HashNode>, k: nat)
    ensures HasKey([n] + c, k) <==> n.key == k || HasKey(c, k)
  {
    assert ([n] + c)[0] == n;
    if HasKey(c, k) {
      var j :| 0 <= j < |c| && c[j].key == k;
      assert ([n] + c)[j + 1].key == k;
    }
  }

  lemma {:induction false} TotalEmpty(chains: seq<seq<HashNode>>)
    requires forall i :: 0 <= i < |chains| ==> chains[i] == []
    ensures Total(chains) == 0
  {
    if chains != [] { TotalEmpty(chains[1..]); }
  }

  lemma {:induction false} TotalUpdate(chains: seq<seq<HashNode>>, i: nat, c: seq<HashNode>)
    requires i < |chains|
    ensures Total(chains[i := c]) == Total(chains) - |chains[i]| + |c|
  {
    if i == 0 {
      assert chains[i := c][1..] == chains[1..];
    } else {
      TotalUpdate(chains[1..], i - 1, c);
      assert chains[i := c][1..] == chains[1..][i - 1 := c];
    }
  }
}
