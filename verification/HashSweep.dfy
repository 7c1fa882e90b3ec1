/** Going through all buckets of the table, node by node, while nodes are removed behind: every key is
    met exactly once. */
module HashSweep {
  import opened Hash

  /** What a valid table looks like, apart from links and values. */
  ghost predicate Shape(chains: seq<seq<HashNode>>, keys: set<nat>, length: nat) {
    && 0 < length == |chains|
    && (forall i :: 0 <= i < |chains| ==> Keyed(chains[i], i, length))
    && (forall i, j :: 0 <= i < |chains| && 0 <= j < |chains[i]| ==> chains[i][j].key in keys)
    && (forall k :: k in keys ==> HasKey(chains[FuncaoHash(k) % length], k))
  }

  /** Key `b` is still to come when the sweep is at position `j` of bucket `i`. */
  ghost predicate Ahead(b: nat, chains: seq<seq<HashNode>>, length: nat, i: nat, j: nat)
    requires 0 < length == |chains| && (i < length ==> j <= |chains[i]|)
  {
    var h := FuncaoHash(b) % length;
    i < h || (i == h && HasKey(chains[i][j..], b))
  }

  /** Of the keys `all` that were there at the start, those not in `vs` are still there and ahead. */
  ghost predicate Frontier(all: set<nat>, vs: set<nat>, keys: set<nat>, chains: seq<seq<HashNode>>, length: nat, i: nat, j: nat) {
    && Shape(chains, keys, length) && (i < length ==> j <= |chains[i]|)
    && vs <= all && keys <= all
    && forall b :: b in all ==> (b !in vs <==> b in keys && Ahead(b, chains, length, i, j))
  }

  lemma FrontierStart(keys: set<nat>, chains: seq<seq<HashNode>>, length: nat)
    requires Shape(chains, keys, length)
    ensures Frontier(keys, {}, keys, chains, length, 0, 0)
  {
    assert chains[0][0..] == chains[0];
  }

  lemma HasKeyTail(c: seq<HashNode>, j: nat, b: nat)
    requires j < |c|
    ensures HasKey(c[j..], b) <==> c[j].key == b || HasKey(c[j + 1..], b)
  {
    assert c[j..] == [c[j]] + c[j + 1..];
    HasKeyCons(c[j], c[j + 1..], b);
  }

  lemma UniqueTail(c: seq<HashNode>, i: nat, j: nat, length: nat)
    requires length > 0 && Keyed(c, i, length) && j < |c|
    ensures !HasKey(c[j + 1..], c[j].key) && FuncaoHash(c[j].key) % length == i
  {
  }

  /** The sweep moves past a node. */
  lemma FrontierKeep(all: set<nat>, vs: set<nat>, keys: set<nat>, chains: seq<seq<HashNode>>, length: nat, i: nat, j: nat)
    requires Frontier(all, vs, keys, chains, length, i, j) && i < length && j < |chains[i]|
    ensures var key := chains[i][j].key;
      key in all && key !in vs && Frontier(all, vs + {key}, keys, chains, length, i, j + 1)
  {
    hide Keyed, HasKey;
    var key := chains[i][j].key;
    UniqueTail(chains[i], i, j, length);
    HasKeyTail(chains[i], j, key);
    forall b | b in all ensures b !in vs + {key} <==> b in keys && Ahead(b, chains, length, i, j + 1) {
      HasKeyTail(chains[i], j, b);
    }
  }

  lemma ShapeCut(chains: seq<seq<HashNode>>, keys: set<nat>, length: nat, i: nat, j: nat)
    requires Shape(chains, keys, length) && i < length && j < |chains[i]|
    ensures Shape(chains[i := Cut(chains[i], j)], keys - {chains[i][j].key}, length)
  {
    hide Keyed, HasKey;
    var key := chains[i][j].key;
    var chains': seq<seq<HashNode>> := chains[i := Cut(chains[i], j)];
    KeyedCut(chains[i], j, i, length);
    UniqueKeysOf(chains[i], i, length);
    forall h, l | 0 <= h < |chains'| && 0 <= l < |chains'[h]| ensures chains'[h][l].key in keys - {key} {
      if h == i {
        assert chains'[h][l] == chains[i][if l < j then l else l + 1];
      } else {
        KeyIndex(chains[h], h, l, length);
      }
    }
    forall k | k in keys - {key} ensures HasKey(chains'[FuncaoHash(k) % length], k) {
      if FuncaoHash(k) % length == i { HasKeyCut(chains[i], j, k); }
    }
  }

  lemma UniqueKeysOf(c: seq<HashNode>, i: nat, length: nat)
    requires length > 0 && Keyed(c, i, length)
    ensures forall j, k :: 0 <= j < k < |c| ==> c[j].key != c[k].key
  {
  }

  lemma KeyIndex(c: seq<HashNode>, i: nat, j: nat, length: nat)
    requires length > 0 && Keyed(c, i, length) && j < |c|
    ensures FuncaoHash(c[j].key) % length == i
  {
  }

  /** The sweep removes the node it is at. */
  lemma FrontierCut(all: set<nat>, vs: set<nat>, keys: set<nat>, chains: seq<seq<HashNode>>, length: nat, i: nat, j: nat)
    requires Frontier(all, vs, keys, chains, length, i, j) && i < length && j < |chains[i]|
    ensures var key := chains[i][j].key;
      key in all && key !in vs && Frontier(all, vs + {key}, keys - {key}, chains[i := Cut(chains[i], j)], length, i, j)
  {
    hide Keyed, HasKey, Shape;
    ShapeKeyed(chains, keys, length, i, j);
    var key := chains[i][j].key;
    var chains': seq<seq<HashNode>> := chains[i := Cut(chains[i], j)];
    ShapeCut(chains, keys, length, i, j);
    UniqueTail(chains[i], i, j, length);
    HasKeyTail(chains[i], j, key);
    assert chains'[i][j..] == chains[i][j + 1..];
    forall b | b in all ensures b !in vs + {key} <==> b in keys - {key} && Ahead(b, chains', length, i, j) {
      HasKeyTail(chains[i], j, b);
    }
  }

  lemma ShapeKeyed(chains: seq<seq<HashNode>>, keys: set<nat>, length: nat, i: nat, j: nat)
    requires Shape(chains, keys, length) && i < length && j < |chains[i]|
    ensures Keyed(chains[i], i, length) && chains[i][j].key in keys && |chains| == length
  {
  }

  /** The sweep goes on to the next bucket. */
  lemma FrontierNext(all: set<nat>, vs: set<nat>, keys: set<nat>, chains: seq<seq<HashNode>>, length: nat, i: nat, j: nat)
    requires Frontier(all, vs, keys, chains, length, i, j) && i < length && j == |chains[i]|
    ensures Frontier(all, vs, keys, chains, length, i + 1, 0)
  {
    forall b | b in all ensures b !in vs <==> b in keys && Ahead(b, chains, length, i + 1, 0) {
      if b in keys {
        var h := FuncaoHash(b) % length;
        assert chains[h][0..] == chains[h];
        assert chains[i][j..] == [];
      }
    }
  }

  /** At the end every key has been met. */
  lemma FrontierEnd(all: set<nat>, vs: set<nat>, keys: set<nat>, chains: seq<seq<HashNode>>, length: nat)
    requires Frontier(all, vs, keys, chains, length, length, 0)
    ensures vs == all
  {
  }

  /** A valid table has the shape. */
  lemma ValidShape(h: HashMap)
    requires h.Valid()
    ensures Shape(h.chains, h.m.Keys, h.elems.Length)
  {
    forall i | 0 <= i < |h.chains| ensures Keyed(h.chains[i], i, h.elems.Length) && forall j :: 0 <= j < |h.chains[i]| ==> h.chains[i][j].key in h.m.Keys {
      assert h.Bucket(i);
    }
  }
}
