/** The FIFO queues of the thread library: linked cells with a pointer to the last one, and one cell that
    all queues share for reuse. */
module Queue {

  class Elemento {
    var conteudo: nat
    var next: Elemento?

    constructor ()
      ensures conteudo == 0 && next == null
    {
      conteudo, next := 0, null;
    }
  }

  /** The cell at a position, or null behind the last. */
  ghost function CellAt(c: seq<Elemento>, i: nat): Elemento? {
    if i < |c| then c[i] else null
  }

  class Fila {
    var first: Elemento?
    var last: Elemento?
    ghost var cells: seq<Elemento>

    /** The cells are linked in order, and `last` is the last of them; on an empty queue it may be stale. */
    ghost predicate Valid()
      reads this, cells
    {
      && (first == null <==> cells == []) && (cells != [] ==> first == cells[0] && last == cells[|cells| - 1])
      && (forall i :: 0 <= i < |cells| ==> cells[i].next == CellAt(cells, i + 1))
      && (forall i, j :: 0 <= i < j < |cells| ==> cells[i] != cells[j])
    }

    ghost function Contents(): seq<nat>
      reads this, cells
    {
      seq(|cells|, i requires 0 <= i < |cells| reads this, cells => cells[i].conteudo)
    }

    constructor ()
      ensures Valid() && Contents() == [] && cells == []
    {
      first, last := null, null;
      cells := [];
    }

    /** Links a cell behind the last one. */
    method Ligar(e: Elemento, x: nat)
      requires Valid() && e !in cells
      modifies this, e, if cells == [] then {} else {cells[|cells| - 1]}
      ensures Valid() && cells == old(cells) + [e] && Contents() == old(Contents()) + [x]
    {
      hide Contents;
      ghost var c := cells;
      assert forall i :: 0 <= i < |c| ==> c[i] != e && (i + 1 < |c| ==> c[i] != c[|c| - 1]);
      e.conteudo := x;
      e.next := null;
      if first == null {
        first := e;
        last := e;
      } else {
        last.next := e;
        last := e;
      }
      cells := c + [e];
      ComUltimo(e);
    }

    /** The queue with one more cell behind its last. */
    twostate lemma ComUltimo(new e: Elemento)
      requires old(Valid()) && e !in old(cells) && cells == old(cells) + [e] && last == e && e.next == null
      requires first == if old(first) == null then e else old(first)
      requires old(cells) != [] ==> old(last).next == e
      requires forall i :: 0 <= i < |old(cells)| ==>
        cells[i].conteudo == old(cells[i].conteudo) && (i + 1 < |old(cells)| ==> cells[i].next == old(cells[i].next))
      ensures Valid() && Contents() == old(Contents()) + [e.conteudo]
    {
      ghost var c := old(cells);
      assert forall i :: 0 <= i < |c| ==> cells[i] == c[i];
    }

    /** Unlinks the first cell and empties it. */
    method Soltar() returns (temp: Elemento, x: nat)
      requires Valid() && cells != []
      modifies this, cells[0]
      ensures Valid() && temp == old(cells)[0] && cells == old(cells)[1..]
      ensures x == old(Contents())[0] && Contents() == old(Contents())[1..]
    {
      hide Contents;
      ghost var c := cells;
      temp := first;
      assert temp == c[0] && forall i :: 0 < i < |c| ==> c[i] != temp;
      first := temp.next;
      x := temp.conteudo;
      temp.conteudo := 0;
      temp.next := null;
      cells := cells[1..];
      SemPrimeiro();
    }

    /** The queue without its first cell. */
    twostate lemma SemPrimeiro()
      requires old(Valid()) && old(cells) != [] && cells == old(cells)[1..]
      requires first == old(cells[0].next) && last == old(last)
      requires forall e :: e in cells ==> e.next == old(e.next) && e.conteudo == old(e.conteudo)
      ensures Valid() && old(Contents()) == [old(cells[0].conteudo)] + Contents()
    {
      ghost var c := old(cells);
      assert forall i :: 0 <= i < |cells| ==> cells[i] == c[i + 1];
    }
  }

  /** All queues with the cell they share. */
  class Filas {
    ghost var todas: set<Fila>
    var vazio: Elemento?

    ghost var repr: set<Elemento>

    /** No cell is in two queues, and the spare cell is in none. */
    ghost predicate Valid()
      reads this, todas, repr
    {
      && (forall q, e :: q in todas && e in q.cells ==> e in repr)
      && (forall q :: q in todas ==> q.Valid())
      && (forall p, q, e :: p in todas && q in todas && e in p.cells && e in q.cells ==> p == q)
      && (vazio != null ==> vazio in repr && forall q :: q in todas ==> vazio !in q.cells)
    }

    constructor ()
      ensures Valid() && todas == {} && vazio == null
    {
      todas, vazio, repr := {}, null, {};
    }

    method CreateQueue() returns (q: Fila)
      requires Valid()
      modifies this
      ensures Valid() && fresh(q) && todas == old(todas) + {q} && q.Contents() == []
      ensures forall p :: p in old(todas) ==> p.Contents() == old(p.Contents())
    {
      q := new Fila();
      vazio := null;
      todas := todas + {q};
    }

    /** The spare cell, or a new one. */
    method NovaCelula() returns (e: Elemento)
      requires Valid()
      modifies this`vazio, this`repr
      ensures Valid() && vazio == null && todas == old(todas) && repr == old(repr) + {e} && (e in old(repr) || fresh(e))
      ensures forall p :: p in todas ==> e !in p.cells
    {
      hide Fila.Valid;
      if vazio == null {
        e := new Elemento();
      } else {
        e := vazio;
        vazio := null;
      }
      repr := repr + {e};
    }

    /** Puts `x` at the end of one queue; no other queue changes, whichever queue the cell came from. */
    method QueueInsert(q: Fila, x: nat)
      requires Valid() && q in todas
      modifies this`vazio, this`repr, q, repr
      ensures Valid() && q.Contents() == old(q.Contents()) + [x] && fresh(repr - old(repr))
      ensures forall p :: p in todas && p != q ==> p.cells == old(p.cells) && p.Contents() == old(p.Contents())
    {
      hide Fila.Valid, Fila.Contents;
      var e := NovaCelula();
      ghost var c := q.cells;
      assert c != [] ==> c[|c| - 1] in c;
      assert forall p, d :: p in todas && p != q && d in p.cells ==> d !in c;
      label antes:
      q.Ligar(e, x);
      assert forall p :: p in todas && p != q ==> unchanged@antes(p, p.cells);
    }

    /** Takes the first element of one queue; its cell becomes the spare one if there is none. */
    method QueueRemove(q: Fila) returns (x: nat)
      requires Valid() && q in todas && q.Contents() != []
      modifies this`vazio, q, repr
      ensures Valid() && x == old(q.Contents())[0] && q.Contents() == old(q.Contents())[1..]
      ensures forall p :: p in todas && p != q ==> p.cells == old(p.cells) && p.Contents() == old(p.Contents())
    {
      hide Fila.Valid, Fila.Contents;
      ghost var c := q.cells;
      NotEmpty(q);
      assert c[0] in c && c[0] in repr;
      assert forall p, d :: p in todas && p != q && d in p.cells ==> d !in c;
      label antes:
      var temp;
      temp, x := q.Soltar();
      assert forall p :: p in todas && p != q ==> unchanged@antes(p, p.cells);
      Rest(c);
      if vazio == null {
        vazio := temp;
      }
    }
  }

  lemma NotEmpty(q: Fila)
    requires q.Valid() && q.Contents() != []
    ensures q.cells != []
    ensures forall i, j :: 0 <= i < j < |q.cells| ==> q.cells[i] != q.cells[j]
  {
  }

  lemma Rest(c: seq<Elemento>)
    requires c != [] && forall i, j :: 0 <= i < j < |c| ==> c[i] != c[j]
    ensures c[0] !in c[1..] && forall e :: e in c[1..] ==> e in c
  {
  }
}
