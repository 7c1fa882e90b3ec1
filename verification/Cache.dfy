/** The write-back block cache over the chained hash: entries changed in place, removed by sweeps
    over all buckets. Every method does one operation of the specification. */
module Cache {
  import opened Block
  import opened Hash
  import opened HashSweep
  import opened CacheSpec

  ghost function Snapshot(e: ICache): Entry
    reads e
  {
    Entry(e.conteudobloco, e.valido, e.referenciado, e.modificado, e.tempoEmCache)
  }

  class BlockCache {
    const tabela: HashMap
    const disco: Blocks
    const numeroMaxNos: nat
    var numeroNosUtilizados: int

    ghost function Repr(): set<object>
      reads tabela
    {
      {this, tabela, tabela.elems, disco} + tabela.repr + tabela.m.Values
    }

    ghost function Entries(): map<nat, Entry>
      reads tabela, tabela.m.Values
    {
      map b | b in tabela.m :: Snapshot(tabela.m[b])
    }

    ghost function Estado(): CacheState
      reads tabela, tabela.m.Values, disco
    {
      CacheState(Entries(), disco.blocks, numeroMaxNos)
    }

    /** Entries are stored under their block number, the counter is the size of the table and at most
        the size of the cache, and the cache is coherent with the disk. */
    ghost predicate Valid()
      reads this, tabela, tabela.elems, tabela.repr, tabela.m.Values, disco
    {
      Tabled() && CacheInv(Estado())
    }

    ghost predicate Tabled()
      reads this, tabela, tabela.elems, tabela.repr, tabela.m.Values
    {
      && tabela.Valid() && tabela.elems.Length == numeroMaxNos
      && (forall b :: b in tabela.m ==> tabela.m[b].idBloco == b)
      && numeroNosUtilizados == tabela.size
    }

    constructor (dimensao: nat, disco: Blocks)
      requires dimensao > 0
      ensures Valid() && this.disco == disco && fresh(Repr() - {disco})
      ensures Estado() == CacheState(map[], disco.blocks, dimensao)
    {
      hide HashMap.Valid, CacheInv, Entries, Estado, Tabled, Snapshot, Repr, Valid;
      tabela := new HashMap(dimensao);
      this.disco := disco;
      numeroMaxNos := dimensao;
      numeroNosUtilizados := 0;
      new;
      Vazia();
    }

    lemma Vazia()
      requires tabela.Valid() && tabela.m == map[] && numeroNosUtilizados == 0
      requires 0 < numeroMaxNos == tabela.elems.Length
      ensures Valid() && Estado() == CacheState(map[], disco.blocks, numeroMaxNos)
      ensures Repr() == {this, tabela, tabela.elems, disco} + tabela.repr
    {
      hide HashMap.Valid, CacheInv;
      tabela.ValidLength();
      assert Entries() == map[];
      EmptyInv(disco.blocks, numeroMaxNos);
    }

    lemma Sizes()
      requires tabela.Valid()
      ensures |Entries()| == |tabela.m| == tabela.size && 0 < tabela.elems.Length == |tabela.chains|
      ensures Entries().Keys == tabela.m.Keys
    {
      assert Entries().Keys == tabela.m.Keys;
      assert |Entries()| == |Entries().Keys| && |tabela.m| == |tabela.m.Keys|;
      tabela.ValidLength();
    }

    // ---------- Removing one entry ----------

    /** Takes an entry out of the cache, and writes it to the disk if it is valid and modified. */
    method RetirarDaCache(b: nat) returns (status: int, ghost at: nat)
      requires Valid()
      modifies this, tabela, tabela.elems, tabela.repr`next, disco
      ensures Valid() && tabela.repr == old(tabela.repr) && tabela.m == old(tabela.m) - {b} && tabela.m.Values <= old(tabela.m.Values)
      ensures status == if b in old(tabela.m) then 0 else -1
      ensures b !in old(tabela.m) ==> Estado() == old(Estado())
      ensures b in old(tabela.m) ==>
        && Estado() == Remove(old(Estado()), {b})
        && tabela.Index(b) < |old(tabela.chains)| && at < |old(tabela.chains)[tabela.Index(b)]|
        && old(tabela.chains)[tabela.Index(b)][at].key == b
        && tabela.chains == old(tabela.chains)[tabela.Index(b) := Cut(old(tabela.chains)[tabela.Index(b)], at)]
    {
      hide HashMap.Valid, CacheInv, Entries, Remove, Cut, Snapshot, Tabled, WrittenBack, Valid, Estado, Repr;
      Tabela();
      if b in tabela.m { EmDisco(b); }
      var removido;
      status, removido, at := tabela.HashRemove(b);
      tabela.ValidLength();
      if status != 0 {
        Ausente(b);
        MenosEntradas(b);
        return -1, at;
      }
      if removido.modificado && removido.valido {
        status := disco.BlockWrite(b, removido.conteudobloco);
        // The write cannot fail: the disk has every cached block.
      }
      numeroNosUtilizados := numeroNosUtilizados - 1;
      Retirado(b);
      MenosEntradas(b);
      status := 0;
    }

    twostate lemma MenosEntradas(b: nat)
      requires tabela.m == old(tabela.m) - {b}
      ensures tabela.m.Values <= old(tabela.m.Values)
    {
    }


    lemma Tabela()
      requires Valid()
      ensures tabela.Valid() && tabela.size == |tabela.m| && 0 < tabela.elems.Length == |tabela.chains|
    {
      hide HashMap.Valid;
      tabela.ValidLength();
    }

    /** No cached entry changed. */
    twostate predicate Intactas()
      reads tabela, tabela.m.Values
    {
      forall e :: e in tabela.m.Values && e in old(tabela.m.Values) ==> unchanged(e)
    }

    twostate lemma Ausente(b: nat)
      requires old(Valid()) && tabela.Valid() && Intactas() && tabela.m == old(tabela.m) - {b} && b !in old(tabela.m)
      requires numeroNosUtilizados == old(numeroNosUtilizados) && disco.blocks == old(disco.blocks)
      ensures Valid() && Estado() == old(Estado())
    {
      hide HashMap.Valid, CacheInv;
      tabela.ValidLength();
      assert old(tabela.size) == |old(tabela.m)| by { Contadas(); }
      assert tabela.m == old(tabela.m);
      assert forall k :: k in tabela.m ==> tabela.m[k] in old(tabela.m.Values);
      assert Entries() == old(Entries());
    }

    twostate lemma Contadas()
      requires old(Valid())
      ensures old(tabela.size) == |old(tabela.m)|
    {
    }

    /** A cached block is on the disk, and removing it writes it back if necessary. */
    lemma EmDisco(b: nat)
      requires Valid() && b in tabela.m
      ensures b < |disco.blocks|
      ensures var e := tabela.m[b];
        WrittenBack(Entries(), disco.blocks, {b}) == if e.modificado && e.valido then disco.blocks[b := e.conteudobloco] else disco.blocks
    {
      hide Tabled;
      assert b in Entries();
    }

    twostate lemma Retirado(b: nat)
      requires old(Valid()) && b in old(tabela.m) && tabela.Valid() && Intactas() && tabela.m == old(tabela.m) - {b}
      requires numeroNosUtilizados == old(numeroNosUtilizados) - 1
      requires disco.blocks == WrittenBack(old(Entries()), old(disco.blocks), {b})
      ensures Valid() && Estado() == Remove(old(Estado()), {b})
    {
      hide Entries, CacheInv, WrittenBack, SameLogical, Tabled, Intactas, Logical;
      TabelaSem(b);
      EntradasSem(b);
      RemoveKeeps(old(Estado()), {b});
    }

    twostate lemma TabelaSem(b: nat)
      requires old(Valid()) && b in old(tabela.m) && tabela.Valid() && Intactas() && tabela.m == old(tabela.m) - {b}
      requires numeroNosUtilizados == old(numeroNosUtilizados) - 1
      ensures Tabled()
    {
      hide HashMap.Valid, CacheInv;
      tabela.ValidLength();
      Contadas();
      assert forall k :: k in tabela.m ==> tabela.m[k] in old(tabela.m.Values);
    }

    twostate lemma EntradasSem(b: nat)
      requires Intactas() && tabela.m == old(tabela.m) - {b}
      ensures Entries() == old(Entries()) - {b}
    {
      assert forall k :: k in tabela.m ==> tabela.m[k] in old(tabela.m.Values);
    }

    // ---------- Sweeps ----------

    /** The node at a position of the table and its entry. */
    lemma EntradaEm(i: nat, j: nat)
      requires Valid() && i < |tabela.chains| && j < |tabela.chains[i]|
      ensures var n := tabela.chains[i][j];
        && n.next == LinkAt(tabela.chains[i], j + 1) && n.key in tabela.m && n.value == tabela.m[n.key] && n in tabela.repr
        && n.value.idBloco == n.key && tabela.Index(n.key) == i
        && n.key in Estado().entries && Estado().entries[n.key] == Snapshot(n.value)
    {
      hide HashMap.Valid, CacheInv;
      Tabela();
      tabela.NodeAt(i, j);
    }

    lemma Forma()
      requires Valid()
      ensures Shape(tabela.chains, tabela.m.Keys, tabela.elems.Length) && Estado().entries.Keys == tabela.m.Keys
      ensures 0 < tabela.elems.Length == |tabela.chains|
    {
      hide HashMap.Valid, Shape, CacheInv;
      Tabela();
      ValidShape(tabela);
    }

    lemma Cabeca(i: nat)
      requires Valid() && i < tabela.elems.Length == |tabela.chains|
      ensures tabela.elems[i] == LinkAt(tabela.chains[i], 0)
    {
      hide HashMap.Valid, CacheInv;
      Tabela();
      tabela.Heads(i);
    }

    /** Removes the entry at a node if it is in class `k`. */
    method VisitarClasse(k: nat, aux: HashNode, ghost i: nat, ghost j: nat) returns (next: HashNode?, retirou: bool)
      requires Valid() && k < 5 && i < |tabela.chains| && j < |tabela.chains[i]| && aux == tabela.chains[i][j]
      requires k > 0 ==> Members(Estado(), 0) == {}
      modifies this, tabela, tabela.elems, tabela.repr`next, disco
      ensures Valid() && tabela.repr == old(tabela.repr) && aux.key in old(Estado()).entries
      ensures retirou == (Classe(old(Estado()).entries[aux.key]) == k)
      ensures tabela.m == if retirou then old(tabela.m) - {aux.key} else old(tabela.m)
      ensures Estado() == if retirou then Remove(old(Estado()), {aux.key}) else old(Estado())
      ensures tabela.chains == if retirou then old(tabela.chains)[i := Cut(old(tabela.chains)[i], j)] else old(tabela.chains)
      ensures i < |tabela.chains| && next == LinkAt(tabela.chains[i], if retirou then j else j + 1)
    {
      hide Valid, Estado, Remove, HashMap.Valid, Shape;
      EntradaEm(i, j);
      Forma();
      ShapeKeyed(tabela.chains, tabela.m.Keys, tabela.elems.Length, i, j);
      UniqueKeysOf(tabela.chains[i], i, tabela.elems.Length);
      NotInClass(Estado(), aux.key);
      next := aux.next;
      var entrada := aux.value;
      retirou := match k
        case 0 => !entrada.valido
        case 1 => !entrada.referenciado && !entrada.modificado
        case 2 => !entrada.referenciado && entrada.modificado
        case 3 => entrada.referenciado && !entrada.modificado
        case _ => entrada.referenciado && entrada.modificado;
      if retirou {
        var status;
        ghost var at;
        status, at := RetirarDaCache(entrada.idBloco);
      }
    }

    /** Removes all entries of class `k`, bucket by bucket. */
    method RetirarClasse(k: nat) returns (removidas: nat)
      requires Valid() && k < 5 && (k > 0 ==> Members(Estado(), 0) == {})
      modifies this, tabela, tabela.elems, tabela.repr`next, disco
      ensures Valid() && Estado() == Remove(old(Estado()), Members(old(Estado()), k))
      ensures removidas == |Members(old(Estado()), k)|
      ensures tabela.repr == old(tabela.repr) && tabela.m.Values <= old(tabela.m.Values)
    {
      hide Valid, Estado, Remove, HashMap.Valid, Varrendo, Members;
      ghost var c, m, vs: set<nat> := Estado(), tabela.m, {};
      Forma();
      removidas := 0;
      var i := 0;
      VarrerInicio(c, m, k);
      while i < tabela.elems.Length
        invariant 0 <= i <= tabela.elems.Length == |tabela.chains|
        invariant Varrendo(c, m, k, vs, removidas, i, 0) && tabela.repr == old(tabela.repr)
      {
        VarrerBalde(c, m, k, vs, removidas, i);
        var aux := tabela.elems[i];
        ghost var j := 0;
        while aux != null
          invariant i < |tabela.chains| == tabela.elems.Length && 0 <= j <= |tabela.chains[i]| && aux == LinkAt(tabela.chains[i], j)
          invariant Varrendo(c, m, k, vs, removidas, i, j) && tabela.repr == old(tabela.repr)
          decreases |tabela.chains[i]| - j
        {
          VarrerPronto(c, m, k, vs, removidas, i, j);
          label antes:
          var retirou;
          ghost var b := aux.key;
          aux, retirou := VisitarClasse(k, aux, i, j);
          VarrerMais@antes(c, m, k, vs, removidas, i, j, b, retirou);
          vs := vs + {b};
          if retirou {
            removidas := removidas + 1;
          } else {
            j := j + 1;
          }
        }
        VarrerProximo(c, m, k, vs, removidas, i, j);
        i := i + 1;
      }
      VarrerFim(c, m, k, vs, removidas);
    }

    /** The sweep for class `k` is at position `j` of bucket `i`, has met the keys `vs` and removed `n`
        entries. */
    ghost predicate Varrendo(c: CacheState, m: map<nat, ICache>, k: nat, vs: set<nat>, n: nat, i: nat, j: nat)
      reads this, tabela, tabela.elems, tabela.repr, tabela.m.Values, disco
    {
      && Valid() && Frontier(m.Keys, vs, tabela.m.Keys, tabela.chains, tabela.elems.Length, i, j)
      && c.entries.Keys == m.Keys && (k > 0 ==> Members(c, 0) == {})
      && Estado() == Remove(c, Members(c, k) * vs) && n == |Members(c, k) * vs| && tabela.m == m - Members(c, k) * vs
    }

    lemma VarrerInicio(c: CacheState, m: map<nat, ICache>, k: nat)
      requires Valid() && c == Estado() && m == tabela.m && (k > 0 ==> Members(c, 0) == {})
      ensures Varrendo(c, m, k, {}, 0, 0, 0)
    {
      hide Valid, Estado, Remove, Frontier, Members;
      Forma();
      FrontierStart(m.Keys, tabela.chains, tabela.elems.Length);
      RemoveNone(c);
      assert Members(c, k) * {} == {};
      assert m - {} == m;
    }

    lemma VarrerBalde(c: CacheState, m: map<nat, ICache>, k: nat, vs: set<nat>, n: nat, i: nat)
      requires Varrendo(c, m, k, vs, n, i, 0) && i < tabela.elems.Length == |tabela.chains|
      ensures tabela.elems[i] == LinkAt(tabela.chains[i], 0)
    {
      hide Valid, Estado, Frontier;
      Cabeca(i);
    }

    lemma VarrerPronto(c: CacheState, m: map<nat, ICache>, k: nat, vs: set<nat>, n: nat, i: nat, j: nat)
      requires Varrendo(c, m, k, vs, n, i, j) && i < tabela.elems.Length
      ensures Valid() && (k > 0 ==> Members(Estado(), 0) == {})
    {
      hide Valid, Estado, Frontier;
      NoMember(c, Members(c, k) * vs);
    }

    twostate lemma VarrerMais(new c: CacheState, m: map<nat, ICache>, new k: nat, new vs: set<nat>, new n: nat, new i: nat, new j: nat, new b: nat, new retirou: bool)
      requires old(Varrendo(c, m, k, vs, n, i, j)) && Valid() && i < |old(tabela.chains)| && j < |old(tabela.chains)[i]|
      requires i < tabela.elems.Length && b == old(tabela.chains)[i][j].key && b in old(Estado()).entries
      requires retirou == (Classe(old(Estado()).entries[b]) == k)
      requires tabela.m == if retirou then old(tabela.m) - {b} else old(tabela.m)
      requires Estado() == if retirou then Remove(old(Estado()), {b}) else old(Estado())
      requires tabela.chains == if retirou then old(tabela.chains)[i := Cut(old(tabela.chains)[i], j)] else old(tabela.chains)
      ensures i < |tabela.chains| && (if retirou then j else j + 1) <= |tabela.chains[i]|
      ensures Varrendo(c, m, k, vs + {b}, if retirou then n + 1 else n, i, if retirou then j else j + 1)
    {
      hide Valid, Estado, Frontier;
      ghost var keys, chains := old(tabela.m).Keys, old(tabela.chains);
      ghost var ms := Members(c, k);
      FrontierKeep(m.Keys, vs, keys, chains, tabela.elems.Length, i, j);
      FrontierCut(m.Keys, vs, keys, chains, tabela.elems.Length, i, j);
      RemoveMore(c, ms * vs, b);
      MeetOne(ms, vs, b);
      assert (old(tabela.m) - {b}).Keys == keys - {b};
      assert m - ms * vs - {b} == m - (ms * vs + {b});
    }

    lemma VarrerProximo(c: CacheState, m: map<nat, ICache>, k: nat, vs: set<nat>, n: nat, i: nat, j: nat)
      requires Varrendo(c, m, k, vs, n, i, j) && i < tabela.elems.Length == |tabela.chains| && j == |tabela.chains[i]|
      ensures Varrendo(c, m, k, vs, n, i + 1, 0)
    {
      hide Valid, Estado, Frontier, Remove, Members;
      FrontierNext(m.Keys, vs, tabela.m.Keys, tabela.chains, tabela.elems.Length, i, j);
    }

    lemma VarrerFim(c: CacheState, m: map<nat, ICache>, k: nat, vs: set<nat>, n: nat)
      requires Varrendo(c, m, k, vs, n, tabela.elems.Length, 0)
      ensures Valid() && Estado() == Remove(c, Members(c, k)) && n == |Members(c, k)|
      ensures tabela.m.Values <= m.Values
    {
      hide Valid, Estado, Frontier, Remove;
      FrontierEnd(m.Keys, vs, tabela.m.Keys, tabela.chains, tabela.elems.Length);
      assert Members(c, k) * vs == Members(c, k);
    }

    /** Makes room: removes the first class, in the order of sacrifice, that has members. */
    method LibertarEspaco()
      requires Valid()
      modifies this, tabela, tabela.elems, tabela.repr`next, disco
      ensures Valid() && Estado() == EvictFrom(old(Estado()), 0)
      ensures tabela.repr == old(tabela.repr) && tabela.m.Values <= old(tabela.m.Values)
    {
      hide Valid, Estado, Remove, Members;
      RemoveNone(Estado());
      var removidas := RetirarClasse(0);
      if removidas != 0 {
        return;
      }
      removidas := RetirarClasse(1);
      if removidas != 0 {
        return;
      }
      removidas := RetirarClasse(2);
      if removidas != 0 {
        return;
      }
      removidas := RetirarClasse(3);
      if removidas != 0 {
        return;
      }
      removidas := RetirarClasse(4);
    }

    // ---------- Entries ----------

    /** The entry of one block changed, and nothing else. */
    twostate lemma EntradaMudada(b: nat)
      requires old(Valid()) && b in tabela.m && tabela.Valid() && tabela.m == old(tabela.m) && tabela.size == old(tabela.size)
      requires forall x :: x in tabela.m && x != b ==> unchanged(tabela.m[x])
      requires tabela.m[b].idBloco == b && disco.blocks == old(disco.blocks) && numeroNosUtilizados == old(numeroNosUtilizados)
      ensures Tabled() && Estado() == old(Estado()).(entries := old(Estado()).entries[b := Snapshot(tabela.m[b])])
    {
      hide HashMap.Valid, CacheInv;
      assert Entries() == old(Entries())[b := Snapshot(tabela.m[b])];
    }

    /** A full cache makes room. */
    method LibertarSeCheia()
      requires Valid()
      modifies this, tabela, tabela.elems, tabela.repr`next, disco
      ensures Valid() && Estado() == MakeRoom(old(Estado()))
      ensures tabela.repr == old(tabela.repr) && tabela.m.Values <= old(tabela.m.Values)
    {
      hide Valid, Estado, EvictFrom;
      Cheia();
      if numeroNosUtilizados == numeroMaxNos {
        LibertarEspaco();
      }
    }

    /** A new entry for a block that is not cached; a full cache makes room first. */
    method NovaEntradaCache(b: nat, modificado: bool, dados: Block) returns (e: ICache)
      requires Valid() && b !in tabela.m && b < |disco.blocks| && (!modificado ==> dados == disco.blocks[b])
      modifies this, tabela, tabela.elems, tabela.repr, disco
      ensures Valid() && Estado() == Insert(old(Estado()), b, modificado, dados)
      ensures b in tabela.m && e == tabela.m[b]
      ensures fresh(e) && tabela.m.Values <= old(tabela.m.Values) + {e} && fresh(tabela.repr - old(tabela.repr)) && old(tabela.repr) <= tabela.repr
    {
      hide Valid, Estado, HashMap.Valid, EvictFrom, Tabled, CacheInv, Insert, MakeRoom;
      ghost var c := Estado();
      Cheia();
      LibertarSeCheia();
      RoomMade(c, b, modificado, dados);
      Cheia();
      e := InserirEntrada(b, modificado, dados);
      ComInvariante();
    }

    /** Only fresh objects come to belong to the cache. */
    twostate lemma ReprCresce(new e: ICache)
      requires fresh(tabela.repr - old(tabela.repr)) && (fresh(e) || e in old(tabela.m.Values)) && tabela.m.Values <= old(tabela.m.Values) + {e}
      ensures fresh(Repr() - old(Repr()))
    {
    }

    method InserirEntrada(b: nat, modificado: bool, dados: Block) returns (e: ICache)
      requires Valid() && b !in tabela.m
      modifies this, tabela, tabela.elems, tabela.repr
      ensures Tabled() && Estado() == old(Estado()).(entries := old(Estado()).entries[b := Entry(dados, true, true, modificado, 0)])
      ensures b in tabela.m && e == tabela.m[b]
      ensures fresh(e) && tabela.m.Values <= old(tabela.m.Values) + {e} && fresh(tabela.repr - old(tabela.repr)) && old(tabela.repr) <= tabela.repr
    {
      hide Valid, Estado, HashMap.Valid, Tabled;
      Tabela();
      e := new ICache(b, modificado, dados);
      var status := tabela.HashInsert(b, e);
      if status == 0 {
        numeroNosUtilizados := numeroNosUtilizados + 1;
      }
      InsertedValues(old(tabela.m), b, e);
      NovaEntrada(b, e);
    }

    lemma Cheia()
      requires Valid()
      ensures numeroNosUtilizados == |Estado().entries| && Estado().max == numeroMaxNos && CacheInv(Estado())
      ensures Estado().disk == disco.blocks && Estado().entries.Keys == tabela.m.Keys
    {
      Sizes();
    }

    lemma ComInvariante()
      requires Tabled() && CacheInv(Estado())
      ensures Valid()
    {
    }

    twostate lemma NovaEntrada(b: nat, new e: ICache)
      requires old(Valid()) && b !in old(tabela.m) && tabela.Valid() && tabela.m == old(tabela.m)[b := e] && e.idBloco == b
      requires forall x :: x in old(tabela.m) ==> unchanged(old(tabela.m)[x])
      requires disco.blocks == old(disco.blocks) && numeroNosUtilizados == old(numeroNosUtilizados) + 1
      ensures Tabled() && Estado() == old(Estado()).(entries := old(Estado()).entries[b := Snapshot(e)])
    {
      hide HashMap.Valid, CacheInv;
      Contadas();
      tabela.ValidLength();
      assert Entries() == old(Entries())[b := Snapshot(e)];
    }

    /** Loads a block that is not cached from the disk. */
    method CarregarBlocoParaCache(b: nat) returns (e: ICache?)
      requires Valid() && b !in tabela.m
      modifies this, tabela, tabela.elems, tabela.repr, disco
      ensures Valid()
      ensures b >= |old(disco.blocks)| ==> e == null && Estado() == old(Estado())
      ensures b < |old(disco.blocks)| ==> e != null && b in tabela.m && e == tabela.m[b] && Estado() == Load(old(Estado()), b)
      ensures b < |old(disco.blocks)| ==> fresh(e) && tabela.m.Values <= old(tabela.m.Values) + {e} && fresh(tabela.repr - old(tabela.repr)) && old(tabela.repr) <= tabela.repr
    {
      hide Valid, Estado, HashMap.Valid, Insert;
      Cheia();
      var status, block := disco.BlockRead(b);
      if status != 0 {
        return null;
      }
      e := NovaEntradaCache(b, false, block);
    }

    // ---------- Reading and writing ----------

    lemma EntradaDe(b: nat)
      requires Valid() && b in tabela.m
      ensures b in Estado().entries && Estado().entries[b] == Snapshot(tabela.m[b]) && tabela.m[b].idBloco == b
      ensures b < |disco.blocks| && tabela.m[b] in Repr()
      ensures forall x :: x in tabela.m && x != b ==> tabela.m[x] != tabela.m[b]
    {
      hide HashMap.Valid;
    }

    /** Drops the entry of a block and loads the block from the disk. */
    method Recarregar(b: nat) returns (e: ICache?)
      requires Valid() && b in tabela.m
      modifies this, tabela, tabela.elems, tabela.repr, disco
      ensures Valid() && b < |old(Estado()).disk|
      ensures Estado() == Load(Remove(old(Estado()), {b}), b)
      ensures e != null && b in tabela.m && e == tabela.m[b]
      ensures fresh(e) && tabela.m.Values <= old(tabela.m.Values) + {e} && fresh(tabela.repr - old(tabela.repr)) && old(tabela.repr) <= tabela.repr
    {
      hide Valid, Estado, HashMap.Valid, Load, Remove;
      EntradaDe(b);
      Cheia();
      ReloadKeeps(Estado(), b);
      var status;
      ghost var at;
      status, at := RetirarDaCache(b);
      Cheia();
      e := CarregarBlocoParaCache(b);
    }

    /** The entry of a block, loaded or reloaded if it is not there or not valid. */
    method Obter(b: nat) returns (e: ICache)
      requires Valid() && b < |disco.blocks|
      modifies this, tabela, tabela.elems, tabela.repr, disco
      ensures Valid() && b < |old(Estado()).disk| && Estado() == Loaded(old(Estado()), b)
      ensures b in tabela.m && e == tabela.m[b] && (fresh(e) || e in old(tabela.m.Values))
      ensures tabela.m.Values <= old(tabela.m.Values) + {e} && fresh(tabela.repr - old(tabela.repr)) && old(tabela.repr) <= tabela.repr
    {
      hide Valid, Estado, HashMap.Valid, Loaded;
      Cheia();
      Tabela();
      ghost var repr, es := tabela.repr, tabela.m.Values;
      var status, entrada := tabela.HashGet(b);
      assert tabela.repr == repr && tabela.m.Values == es;
      e := ObterEntrada(b, entrada);
      assert fresh(tabela.repr - repr) && (fresh(e) || e in es);
    }

    method ObterEntrada(b: nat, entrada: ICache?) returns (e: ICache)
      requires Valid() && b < |disco.blocks| && entrada == if b in tabela.m then tabela.m[b] else null
      modifies this, tabela, tabela.elems, tabela.repr, disco
      ensures Valid() && b < |old(Estado()).disk| && Estado() == Loaded(old(Estado()), b)
      ensures b in tabela.m && e == tabela.m[b] && (fresh(e) || e in old(tabela.m.Values))
      ensures tabela.m.Values <= old(tabela.m.Values) + {e} && fresh(tabela.repr - old(tabela.repr)) && old(tabela.repr) <= tabela.repr
    {
      hide Valid, Estado, HashMap.Valid, Load, Remove;
      Cheia();
      if entrada == null {
        e := CarregarBlocoParaCache(b);
        return;
      }
      EntradaDe(b);
      if !entrada.valido {
        e := Recarregar(b);
      } else {
        e := entrada;
      }
    }

    /** Marks a valid entry referenced. */
    method Tocar(b: nat, entrada: ICache)
      requires Valid() && b in tabela.m && entrada == tabela.m[b] && entrada.valido
      modifies entrada
      ensures Valid() && b in old(Estado()).entries && entrada.conteudobloco == old(Estado()).entries[b].bytes
      ensures Estado() == old(Estado()).(entries := old(Estado()).entries[b := old(Estado()).entries[b].(referenciado := true, valido := true)])
    {
      hide Valid, Estado, HashMap.Valid, CacheInv;
      EntradaDe(b);
      Cheia();
      TouchKeeps(Estado(), b);
      Tabela();
      entrada.valido := true;
      entrada.referenciado := true;
      EntradaMudada(b);
      ComInvariante();
    }

    /** Replaces the content of an entry. */
    method Gravar(b: nat, entrada: ICache, bloco: Block)
      requires Valid() && b in tabela.m && entrada == tabela.m[b]
      modifies entrada
      ensures Valid() && b in old(Estado()).entries
      ensures Estado() == old(Estado()).(entries := old(Estado()).entries[b := old(Estado()).entries[b].(bytes := bloco, referenciado := true, modificado := true, valido := true)])
    {
      hide Valid, Estado, HashMap.Valid, CacheInv;
      EntradaDe(b);
      Cheia();
      RecordKeeps(Estado(), b, bloco);
      Tabela();
      entrada.conteudobloco := bloco;
      entrada.referenciado := true;
      entrada.modificado := true;
      entrada.valido := true;
      EntradaMudada(b);
      ComInvariante();
    }

    /** Reads a block: what its users see, wherever it is. */
    method LerCache(b: nat) returns (status: int, bloco: Block)
      requires Valid() && b < |disco.blocks|
      modifies this, tabela, tabela.elems, tabela.repr, tabela.m.Values, disco
      ensures Valid() && fresh(Repr() - old(Repr())) && status == 0
      ensures b < |old(Estado()).disk| && b in Loaded(old(Estado()), b).entries && Estado() == Read(old(Estado()), b)
      ensures bloco == Logical(old(Estado()), b) && LogicalDisk(Estado()) == LogicalDisk(old(Estado()))
    {
      hide Valid, Estado, HashMap.Valid, Loaded, CacheInv, Logical, LogicalDisk, SameLogical, Repr;
      ghost var c := Estado();
      Cheia();
      ReadCoherent(c, b);
      SameDisk(c, Read(c, b));
      LoadedKeeps(c, b);
      var entrada := Obter(b);
      EntradaDe(b);
      Tocar(b, entrada);
      ReprCresce(entrada);
      bloco := entrada.conteudobloco;
      status := 0;
    }

    /** Replaces the content of a block that has an entry, which is reloaded first if it is not valid. */
    method Substituir(b: nat, bloco: Block) returns (e: ICache)
      requires Valid() && b in tabela.m && b < |disco.blocks|
      modifies this, tabela, tabela.elems, tabela.repr, tabela.m.Values, disco
      ensures Valid() && (fresh(e) || e in old(tabela.m.Values)) && tabela.m.Values <= old(tabela.m.Values) + {e}
      ensures fresh(tabela.repr - old(tabela.repr)) && old(tabela.repr) <= tabela.repr
      ensures b in old(Estado()).entries && b < |old(Estado()).disk| && b in Loaded(old(Estado()), b).entries
      ensures Estado() == Write(old(Estado()), b, bloco)
    {
      hide Valid, Estado, HashMap.Valid, Loaded, CacheInv, Insert, LogicalDisk, Repr;
      Cheia();
      WriteCoherent(Estado(), b, bloco);
      EntradaDe(b);
      e := Obter(b);
      Gravar(b, e, bloco);
    }

    /** Writes a whole block: only this block changes for the users. */
    method EscreverCache(b: nat, bloco: Block) returns (status: int)
      requires Valid() && b < |disco.blocks|
      modifies this, tabela, tabela.elems, tabela.repr, tabela.m.Values, disco
      ensures Valid() && fresh(Repr() - old(Repr())) && status == 0
      ensures b < |old(Estado()).disk| && b in Loaded(old(Estado()), b).entries && Estado() == Write(old(Estado()), b, bloco)
      ensures LogicalDisk(Estado()) == LogicalDisk(old(Estado()))[b := bloco]
    {
      hide Valid, Estado, HashMap.Valid, Loaded, CacheInv, Write, LogicalDisk, Repr;
      Cheia();
      WriteCoherent(Estado(), b, bloco);
      Tabela();
      var st, entrada := tabela.HashGet(b);
      var e := EscreverEntrada(b, bloco, st == 1);
      ReprCresce(e);
      status := 0;
    }

    /** The entry of a block with new content. */
    method EscreverEntrada(b: nat, bloco: Block, nova: bool) returns (e: ICache)
      requires Valid() && b < |disco.blocks| && nova == (b !in tabela.m)
      modifies this, tabela, tabela.elems, tabela.repr, tabela.m.Values, disco
      ensures Valid() && (fresh(e) || e in old(tabela.m.Values)) && tabela.m.Values <= old(tabela.m.Values) + {e}
      ensures fresh(tabela.repr - old(tabela.repr)) && old(tabela.repr) <= tabela.repr
      ensures b < |old(Estado()).disk| && b in Loaded(old(Estado()), b).entries && Estado() == Write(old(Estado()), b, bloco)
    {
      hide Valid, Estado, HashMap.Valid, Loaded, CacheInv, Insert, Logical;
      Cheia();
      LoadedKeeps(Estado(), b);
      if nova {
        e := NovaEntradaCache(b, true, bloco);
      } else {
        e := Substituir(b, bloco);
      }
    }

    /** Marks the entry of a block invalid; -1 if there is none. */
    method InvalidarBloco(b: nat) returns (status: int)
      requires Valid()
      modifies tabela.m.Values
      ensures Valid() && Estado() == Invalidate(old(Estado()), b)
      ensures status == if b in old(Estado()).entries then 0 else -1
    {
      hide Valid, Estado, HashMap.Valid, CacheInv;
      Cheia();
      Tabela();
      var st, entrada := tabela.HashGet(b);
      if st == 1 {
        return -1;
      }
      EntradaDe(b);
      InvalidateExactly(Estado(), b);
      Marcar(b, entrada);
      status := 0;
    }

    method Marcar(b: nat, entrada: ICache)
      requires Valid() && b in tabela.m && entrada == tabela.m[b]
      modifies entrada
      ensures Valid() && b in old(Estado()).entries && Estado() == Invalidate(old(Estado()), b)
    {
      hide Valid, Estado, HashMap.Valid, CacheInv;
      Cheia();
      EntradaDe(b);
      Tabela();
      InvalidateExactly(Estado(), b);
      entrada.valido := false;
      EntradaMudada(b);
      ComInvariante();
    }

    twostate lemma DiscoMudado(b: nat)
      requires old(Tabled()) && tabela.Valid() && tabela.m == old(tabela.m) && tabela.size == old(tabela.size)
      requires forall x :: x in tabela.m ==> unchanged(tabela.m[x])
      requires numeroNosUtilizados == old(numeroNosUtilizados)
      ensures Tabled() && Estado() == old(Estado()).(disk := disco.blocks)
    {
      hide HashMap.Valid;
      assert Entries() == old(Entries());
    }

    /** Deletes a block: its entry becomes invalid and the disk holds zeros. */
    method EliminarBlocoCache(b: nat) returns (status: int)
      requires Valid()
      modifies tabela.m.Values, disco
      ensures Valid() && Estado() == Eliminate(old(Estado()), b) && status == 1
      ensures b < |old(Estado()).disk| ==> LogicalDisk(Estado()) == LogicalDisk(old(Estado()))[b := Zeros()]
    {
      hide Valid, Estado, HashMap.Valid, CacheInv, Invalidate, Tabled;
      ghost var c := Estado();
      Cheia();
      EliminateAnywhere(c, b);
      Tabela();
      var st, entrada := tabela.HashGet(b);
      if st == 0 {
        EntradaDe(b);
        Marcar(b, entrada);
      }
      assert Estado() == Invalidate(c, b);
      Cheia();
      Tabela();
      Arrumada();
      label antes:
      st := disco.BlockWrite(b, Zeros());
      DiscoMudado@antes(b);
      ComInvariante();
      status := 1;
    }

    lemma Arrumada()
      requires Valid()
      ensures Tabled()
    {
    }

    // ---------- Ageing ----------

    /** The entry at a node gets older, loses its reference bit, and leaves if it is old enough. */
    method VisitarIdade(n: int, aux: HashNode, ghost i: nat, ghost j: nat) returns (next: HashNode?, ghost retirou: bool)
      requires Valid() && i < |tabela.chains| && j < |tabela.chains[i]| && aux == tabela.chains[i][j]
      modifies this, tabela, tabela.elems, tabela.repr`next, disco, aux.value
      ensures Valid() && tabela.repr == old(tabela.repr) && aux.key in old(Estado()).entries
      ensures retirou == (Older(old(Estado()).entries[aux.key], n).tempo >= MAX_TEMPO)
      ensures tabela.m == if retirou then old(tabela.m) - {aux.key} else old(tabela.m)
      ensures Estado() == AgeOne(old(Estado()), n, aux.key)
      ensures tabela.chains == if retirou then old(tabela.chains)[i := Cut(old(tabela.chains)[i], j)] else old(tabela.chains)
      ensures i < |tabela.chains| && next == LinkAt(tabela.chains[i], if retirou then j else j + 1)
    {
      hide Valid, Estado, Remove, HashMap.Valid, Shape, Tabled;
      EntradaEm(i, j);
      EntradaDe(aux.key);
      Forma();
      ShapeKeyed(tabela.chains, tabela.m.Keys, tabela.elems.Length, i, j);
      UniqueKeysOf(tabela.chains[i], i, tabela.elems.Length);
      next := aux.next;
      var entrada := aux.value;
      Envelhecer(entrada, n);
      retirou := entrada.tempoEmCache >= 10;
      if entrada.tempoEmCache >= 10 {
        var status;
        ghost var at;
        status, at := RetirarDaCache(entrada.idBloco);
      }
    }

    method Envelhecer(entrada: ICache, n: int)
      requires Valid() && entrada.idBloco in tabela.m && entrada == tabela.m[entrada.idBloco]
      modifies entrada
      ensures Valid() && entrada.idBloco == old(entrada.idBloco) && entrada.idBloco in old(Estado()).entries
      ensures entrada.tempoEmCache == old(entrada.tempoEmCache) + n
      ensures Estado() == old(Estado()).(entries := old(Estado()).entries[entrada.idBloco := Older(old(Estado()).entries[entrada.idBloco], n)])
    {
      hide Valid, Estado, HashMap.Valid, CacheInv;
      EntradaDe(entrada.idBloco);
      Cheia();
      OlderKeeps(Estado(), entrada.idBloco, n);
      Tabela();
      entrada.tempoEmCache := entrada.tempoEmCache + n;
      entrada.referenciado := false;
      EntradaMudada(entrada.idBloco);
      ComInvariante();
    }

    /** All entries get older, and those that have been there for ten seconds leave. */
    method ActualizarCache(n: int)
      requires Valid()
      modifies this, tabela, tabela.elems, tabela.repr`next, disco, tabela.m.Values
      ensures Valid() && Estado() == Age(old(Estado()), n) && LogicalDisk(Estado()) == LogicalDisk(old(Estado()))
      ensures tabela.repr == old(tabela.repr) && tabela.m.Values <= old(tabela.m.Values)
    {
      hide Valid, Estado, Age, LogicalDisk, CacheInv, HashMap.Valid;
      Cheia();
      AgedDisk(Estado(), n);
      VarrerIdades(n, tabela.m.Values);
    }

    /** The sweep over all buckets. */
    method VarrerIdades(n: int, ghost es: set<ICache>)
      requires Valid() && es == tabela.m.Values
      modifies this, tabela, tabela.elems, tabela.repr`next, disco, es
      ensures Valid() && Estado() == Age(old(Estado()), n)
      ensures tabela.repr == old(tabela.repr) && tabela.m.Values <= old(tabela.m.Values)
    {
      hide Valid, Estado, AgeOne, HashMap.Valid, Age, Envelhecendo;
      ghost var c, m, vs: set<nat> := Estado(), tabela.m, {};
      Forma();
      var i := 0;
      IdadeInicio(c, m, n);
      while i < tabela.elems.Length
        invariant 0 <= i <= tabela.elems.Length == |tabela.chains|
        invariant Envelhecendo(c, m, n, vs, i, 0) && tabela.repr == old(tabela.repr)
      {
        vs := VarrerBaldeIdade(c, m, n, vs, i, es);
        i := i + 1;
      }
      IdadeFim(c, m, n, vs);
    }

    /** The sweep of one bucket. */
    method VarrerBaldeIdade(ghost c: CacheState, ghost m: map<nat, ICache>, n: int, ghost vs0: set<nat>, i: nat, ghost es: set<ICache>)
      returns (ghost vs: set<nat>)
      requires i < tabela.elems.Length == |tabela.chains| && Envelhecendo(c, m, n, vs0, i, 0) && es == m.Values
      modifies this, tabela, tabela.elems, tabela.repr`next, disco, es
      ensures Envelhecendo(c, m, n, vs, i + 1, 0) && tabela.repr == old(tabela.repr) && |tabela.chains| == tabela.elems.Length
    {
      hide Valid, Estado, AgeOne, HashMap.Valid, Age, Envelhecendo;
      vs := vs0;
      IdadeBalde(c, m, n, vs, i);
      var aux := tabela.elems[i];
      ghost var j := 0;
      while aux != null
        invariant i < |tabela.chains| == tabela.elems.Length && 0 <= j <= |tabela.chains[i]| && aux == LinkAt(tabela.chains[i], j)
        invariant Envelhecendo(c, m, n, vs, i, j) && tabela.repr == old(tabela.repr)
        decreases |tabela.chains[i]| - j
      {
        IdadePronta(c, m, n, vs, i, j, es);
        label antes:
        ghost var retirou;
        ghost var b := aux.key;
        aux, retirou := VisitarIdade(n, aux, i, j);
        IdadeMais@antes(c, m, n, vs, i, j, b, retirou);
        vs := vs + {b};
        if !retirou {
          j := j + 1;
        }
      }
      IdadeProxima(c, m, n, vs, i, j);
    }

    /** The ageing sweep is at position `j` of bucket `i` and has met the keys `vs`. */
    ghost predicate Envelhecendo(c: CacheState, m: map<nat, ICache>, n: int, vs: set<nat>, i: nat, j: nat)
      reads this, tabela, tabela.elems, tabela.repr, tabela.m.Values, disco
    {
      && Valid() && Frontier(m.Keys, vs, tabela.m.Keys, tabela.chains, tabela.elems.Length, i, j)
      && c.entries.Keys == m.Keys && Estado() == AgeSome(c, n, vs)
      && (forall b :: b in tabela.m ==> b in m && tabela.m[b] == m[b])
    }

    lemma IdadeInicio(c: CacheState, m: map<nat, ICache>, n: int)
      requires Valid() && c == Estado() && m == tabela.m
      ensures Envelhecendo(c, m, n, {}, 0, 0)
    {
      hide Valid, Estado, Frontier, AgeSome;
      Forma();
      FrontierStart(m.Keys, tabela.chains, tabela.elems.Length);
      AgeNone(c, n);
    }

    lemma IdadeBalde(c: CacheState, m: map<nat, ICache>, n: int, vs: set<nat>, i: nat)
      requires Envelhecendo(c, m, n, vs, i, 0) && i < tabela.elems.Length == |tabela.chains|
      ensures tabela.elems[i] == LinkAt(tabela.chains[i], 0)
    {
      hide Valid, Estado, Frontier;
      Cabeca(i);
    }

    lemma IdadePronta(c: CacheState, m: map<nat, ICache>, n: int, vs: set<nat>, i: nat, j: nat, es: set<ICache>)
      requires es == m.Values && Envelhecendo(c, m, n, vs, i, j) && i < |tabela.chains| && j < |tabela.chains[i]|
      ensures Valid() && tabela.chains[i][j] in tabela.repr && tabela.chains[i][j].value in es
    {
      hide Valid, Estado, Frontier;
      EntradaEm(i, j);
    }

    twostate lemma IdadeMais(new c: CacheState, m: map<nat, ICache>, new n: int, new vs: set<nat>, new i: nat, new j: nat, new b: nat, new retirou: bool)
      requires old(Envelhecendo(c, m, n, vs, i, j)) && Valid() && i < |old(tabela.chains)| && j < |old(tabela.chains)[i]|
      requires i < tabela.elems.Length && b == old(tabela.chains)[i][j].key && b in old(Estado()).entries
      requires retirou == (Older(old(Estado()).entries[b], n).tempo >= MAX_TEMPO)
      requires tabela.m == if retirou then old(tabela.m) - {b} else old(tabela.m)
      requires Estado() == AgeOne(old(Estado()), n, b)
      requires tabela.chains == if retirou then old(tabela.chains)[i := Cut(old(tabela.chains)[i], j)] else old(tabela.chains)
      ensures i < |tabela.chains| && (if retirou then j else j + 1) <= |tabela.chains[i]|
      ensures Envelhecendo(c, m, n, vs + {b}, i, if retirou then j else j + 1)
    {
      hide Valid, Estado, Frontier, AgeSome, AgeOne;
      ghost var keys, chains := old(tabela.m).Keys, old(tabela.chains);
      FrontierKeep(m.Keys, vs, keys, chains, tabela.elems.Length, i, j);
      FrontierCut(m.Keys, vs, keys, chains, tabela.elems.Length, i, j);
      AgeMore(c, n, vs, b);
      assert (old(tabela.m) - {b}).Keys == keys - {b};
    }

    lemma IdadeProxima(c: CacheState, m: map<nat, ICache>, n: int, vs: set<nat>, i: nat, j: nat)
      requires Envelhecendo(c, m, n, vs, i, j) && i < tabela.elems.Length == |tabela.chains| && j == |tabela.chains[i]|
      ensures Envelhecendo(c, m, n, vs, i + 1, 0)
    {
      hide Valid, Estado, Frontier, AgeSome;
      FrontierNext(m.Keys, vs, tabela.m.Keys, tabela.chains, tabela.elems.Length, i, j);
    }

    lemma IdadeFim(c: CacheState, m: map<nat, ICache>, n: int, vs: set<nat>)
      requires Envelhecendo(c, m, n, vs, tabela.elems.Length, 0)
      ensures Valid() && Estado() == Age(c, n) && tabela.m.Values <= m.Values
    {
      hide Valid, Estado, Frontier, AgeSome;
      FrontierEnd(m.Keys, vs, tabela.m.Keys, tabela.chains, tabela.elems.Length);
    }
  }

  lemma EmptyInv(disk: seq<Block>, max: nat)
    requires max > 0
    ensures CacheInv(CacheState(map[], disk, max))
  {
  }

  /** Without invalid entries, the class of an entry is given by the other two bits. */
  lemma NotInClass(c: CacheState, b: nat)
    requires b in c.entries
    ensures Members(c, 0) == {} ==> c.entries[b].valido
  {
    assert !c.entries[b].valido ==> b in Members(c, 0);
  }

  lemma NoMember(c: CacheState, bs: set<nat>)
    ensures Members(c, 0) == {} ==> Members(Remove(c, bs), 0) == {}
  {
    forall b | b in Members(Remove(c, bs), 0) ensures b in Members(c, 0) { }
  }

  lemma MeetOne(ms: set<nat>, vs: set<nat>, b: nat)
    requires b !in vs
    ensures if b in ms then ms * (vs + {b}) == ms * vs + {b} && |ms * (vs + {b})| == |ms * vs| + 1 else ms * (vs + {b}) == ms * vs
  {
    if b in ms { assert ms * (vs + {b}) == ms * vs + {b}; }
  }

  lemma RoomMade(c: CacheState, b: nat, modificado: bool, dados: Block)
    requires CacheInv(c) && b !in c.entries && b < |c.disk| && (!modificado ==> dados == c.disk[b])
    ensures b !in MakeRoom(c).entries
    ensures var c1 := MakeRoom(c); c1.(entries := c1.entries[b := Entry(dados, true, true, modificado, 0)]) == Insert(c, b, modificado, dados)
    ensures CacheInv(Insert(c, b, modificado, dados))
  {
    EvictFrees(c);
    InsertKeeps(c, b, modificado, dados);
  }

  lemma InsertedValues(m: map<nat, ICache>, b: nat, e: ICache)
    ensures m[b := e].Values <= m.Values + {e}
  {
  }

  lemma ReloadKeeps(c: CacheState, b: nat)
    ensures |Remove(c, {b}).disk| == |c.disk|
  {
  }

  lemma OlderKeeps(c: CacheState, b: nat, n: int)
    requires CacheInv(c) && b in c.entries
    ensures CacheInv(c.(entries := c.entries[b := Older(c.entries[b], n)]))
  {
    var es := c.entries[b := Older(c.entries[b], n)];
    assert es.Keys == c.entries.Keys;
    assert |es| == |es.Keys| && |c.entries| == |c.entries.Keys|;
  }

  lemma EliminateAnywhere(c: CacheState, b: nat)
    requires CacheInv(c)
    ensures CacheInv(Eliminate(c, b))
    ensures b < |c.disk| ==> LogicalDisk(Eliminate(c, b)) == LogicalDisk(c)[b := Zeros()]
    ensures Invalidate(c, b).disk == c.disk && (b >= |c.disk| ==> b !in c.entries) && (b !in c.entries ==> Invalidate(c, b) == c)
  {
    if b < |c.disk| { EliminateCoherent(c, b); }
  }

  lemma AgedDisk(c: CacheState, n: int)
    requires CacheInv(c)
    ensures LogicalDisk(Age(c, n)) == LogicalDisk(c)
  {
    AgeCoherent(c, n);
    SameDisk(c, Age(c, n));
  }

  lemma TouchKeeps(c: CacheState, b: nat)
    requires CacheInv(c) && b in c.entries && c.entries[b].valido
    ensures CacheInv(c.(entries := c.entries[b := c.entries[b].(referenciado := true, valido := true)]))
  {
    SameKeys(c.entries, b, c.entries[b].(referenciado := true, valido := true));
  }

  lemma RecordKeeps(c: CacheState, b: nat, bloco: Block)
    requires CacheInv(c) && b in c.entries
    ensures CacheInv(c.(entries := c.entries[b := c.entries[b].(bytes := bloco, referenciado := true, modificado := true, valido := true)]))
  {
    SameKeys(c.entries, b, c.entries[b].(bytes := bloco, referenciado := true, modificado := true, valido := true));
  }

  lemma SameKeys(m: map<nat, Entry>, b: nat, e: Entry)
    requires b in m
    ensures |m[b := e]| == |m|
  {
    assert m[b := e].Keys == m.Keys;
    assert |m[b := e]| == |m[b := e].Keys| && |m| == |m.Keys|;
  }
}
