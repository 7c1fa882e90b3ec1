/** The red-black tree with parent links, two sentinels and a cached minimum. */
module RedBlack {
  import opened RedBlackShape
  import opened RedBlackMemory
  import opened RedBlackRepair
  import opened RedBlackSteps
  import opened RedBlackOrder
  import opened Wrappers

  class ArvoreRB {
    var mem: Mem
    var minimo: Ptr
    ghost var tree: Tree

    /** The items in order. */
    ghost function Contents(): seq<Item>
      reads this
    {
      Items(mem, Inorder(tree))
    }

    /** The store holds a red-black search tree, and the cached minimum is its first node in order;
        on an empty tree it is NULL or the dummy root. */
    ghost predicate Valid()
      reads this
    {
      && Holds(mem, Top, tree)
      && RedBlack(tree)
      && Sorted(Contents())
      && AtLeast(mem, Inorder(tree), 0)
      && (tree.Leaf? ==> minimo == NULO || minimo == RAIZ)
      && (tree.Node? ==> Inorder(tree) != [] && minimo == Inorder(tree)[0])
    }

    constructor ()
      ensures Valid() && Contents() == [] && minimo == NULO
    {
      mem := [No(0, 0, 0, Black, NULO, NULO, NULO),
              No(-1, 0, -1, Black, NIL, NIL, NIL),
              No(-1, 0, -1, Black, NIL, NIL, NIL)];
      minimo := NULO;
      tree := Leaf;
    }

    /** Rotates at `x`: to the left when `away` is the right side, to the right when it is the left. */
    method Rodar(x: Ptr, away: Side, ghost ctx: Ctx, ghost t: Tree)
      requires Holds(mem, ctx, t) && t.Node? && t.p == x && Sub(t, away).Node?
      modifies this`mem
      ensures Holds(mem, ctx, RotateTree(t, away))
      ensures Step(old(mem), mem, All(ctx, t)) && mem[NIL] == old(mem)[NIL]
    {
      RotateFocus(mem, ctx, t, away);
      var y := Child(mem[x], away);
      var b := Child(mem[y], Other(away));
      if away == Dir {
        mem := mem[x := mem[x].(dir := b)];
      } else {
        mem := mem[x := mem[x].(esq := b)];
      }
      if b != NIL {
        mem := mem[b := mem[b].(pai := x)];
      }
      mem := mem[y := mem[y].(pai := mem[x].pai)];
      var pai := mem[x].pai;
      if x == mem[pai].esq {
        mem := mem[pai := mem[pai].(esq := y)];
      } else {
        mem := mem[pai := mem[pai].(dir := y)];
      }
      if away == Dir {
        mem := mem[y := mem[y].(esq := x)];
      } else {
        mem := mem[y := mem[y].(dir := x)];
      }
      mem := mem[x := mem[x].(pai := y)];
    }

    /** Walks down from the root to the place of node `z`: below `y`, after every node of equal or
        smaller key. */
    method Descer(z: Ptr) returns (y: Ptr, ghost ctx: Ctx)
      requires RAIZ < z < |mem| && Descent(mem, tree, Top, tree, mem[z].chave)
      ensures y == Parent(ctx) && Descent(mem, tree, ctx, Leaf, mem[z].chave)
    {
      HeldPointers(mem, Top, tree);
      y := RAIZ;
      var x := mem[RAIZ].esq;
      ctx := Top;
      ghost var t := tree;
      while x != NIL
        invariant x == PtrOf(t) && y == Parent(ctx) && Descent(mem, tree, ctx, t, mem[z].chave)
        decreases t
      {
        HeldPointers(mem, ctx, t);
        DescentStep(mem, tree, ctx, t, mem[z].chave);
        y := x;
        if Comparar(mem[x].chave, mem[z].chave) == 1 {
          ctx, t := Frame(Esq, t.p, t.c, t.r, ctx), t.l;
          x := mem[x].esq;
        } else {
          ctx, t := Frame(Dir, t.p, t.c, t.l, ctx), t.r;
          x := mem[x].dir;
        }
      }
      HeldPointers(mem, ctx, t);
    }

    /** Hangs the fresh node `z` under a leaf, after every node of equal or smaller key. */
    method InserirNoAux(z: Ptr) returns (ghost ctx: Ctx)
      requires Valid() && RAIZ < z < |mem| && z !in Nodes(tree)
      requires mem[z].cor == Red && mem[z].chave >= 0
      modifies this`mem
      ensures Holds(mem, ctx, Node(Leaf, z, Red, Leaf))
      ensures Plug(ctx, Leaf) == tree
      ensures SameKeys(old(mem), mem)
      ensures AtMost(mem, Before(ctx), mem[z].chave) && AtLeast(mem, After(ctx), mem[z].chave + 1)
    {
      ghost var m0 := mem;
      mem := mem[z := mem[z].(esq := NIL, dir := NIL)];
      FreshCell(m0, mem, tree, z);
      var y;
      y, ctx := Descer(z);
      HeldPointers(mem, ctx, Leaf);
      PlugNodes(ctx, Leaf);
      ghost var m1 := mem;
      mem := mem[z := mem[z].(pai := y)];
      if y == RAIZ || Comparar(mem[y].chave, mem[z].chave) == 1 {
        mem := mem[y := mem[y].(esq := z)];
      } else {
        mem := mem[y := mem[y].(dir := z)];
      }
      HangLeaf(m1, mem, ctx, z);
      SameKeysBounds(m1, mem, Before(ctx), After(ctx), m1[z].chave);
    }

    /** Moves the red-red violation at `x` up and removes it, then paints the root black. */
    method RepararInserido(x0: Ptr, ghost ctx0: Ctx, ghost t0: Tree) returns (ghost novo: Tree)
      requires Holds(mem, ctx0, t0) && Inserting(ctx0, t0) && t0.p == x0
      modifies this`mem
      ensures Holds(mem, Top, novo) && RedBlack(novo) && novo.Node? && Inorder(novo) == Inorder(Plug(ctx0, t0))
      ensures SameKeys(old(mem), mem)
    {
      hide Holds, RB, CtxRB, BH, Inorder, Plug, SameKeys;
      var x := x0;
      ghost var ctx, t := ctx0, t0;
      HeldPointers(mem, ctx, t);
      SameKeysRefl(mem);
      while mem[mem[x].pai].cor == Red
        invariant Holds(mem, ctx, t) && Inserting(ctx, t) && t.p == x
        invariant Inorder(Plug(ctx, t)) == Inorder(Plug(ctx0, t0)) && SameKeys(old(mem), mem)
        invariant x < |mem| && mem[x].pai == Parent(ctx) < |mem|
        invariant mem[mem[x].pai].cor == Red <==> ctx.Frame? && ctx.c == Red
        decreases Depth(ctx)
      {
        UncleFacts(mem, ctx, t);
        ghost var m1, d1 := mem, Depth(ctx);
        assert d1 == 1 + Depth(ctx.up) && Depth(ctx.up) == 1 + Depth(ctx.up.up);
        var p := mem[x].pai;
        var g := mem[p].pai;
        var lado := if p == mem[g].esq then Esq else Dir;
        var y := Child(mem[g], Other(lado));
        if mem[y].cor == Red {
          RecolorHolds(mem, ctx, t);
          mem := mem[p := mem[p].(cor := Black)];
          mem := mem[y := mem[y].(cor := Black)];
          mem := mem[g := mem[g].(cor := Red)];
          x := g;
          ctx, t := ctx.up.up, Recolored(ctx, t);
        } else {
          x, ctx, t := RodarInserido(x, lado, ctx, t);
        }
        assert Depth(ctx) < d1;
        HeldPointers(mem, ctx, t);
        SameKeysTrans(old(mem), m1, mem);
      }
      ghost var m2 := mem;
      novo := PaintRoot(mem, ctx, t);
      mem := mem[mem[RAIZ].esq := mem[mem[RAIZ].esq].(cor := Black)];
      SameKeysTrans(old(mem), m2, mem);
    }

    /** The case of a black uncle: one or two rotations around the grandparent of `x0`. */
    method RodarInserido(x0: Ptr, lado: Side, ghost ctx0: Ctx, ghost t0: Tree) returns (x: Ptr, ghost ctx: Ctx, ghost t: Tree)
      requires Holds(mem, ctx0, t0) && Inserting(ctx0, t0) && t0.p == x0
      requires ctx0.Frame? && ctx0.c == Red && ctx0.up.Frame? && ctx0.up.side == lado && RootColor(ctx0.up.sib) == Black
      modifies this`mem
      ensures Holds(mem, ctx, t) && Inserting(ctx, t) && t.p == x
      ensures ctx.Frame? && ctx.c == Black && Depth(ctx) < Depth(ctx0)
      ensures Inorder(Plug(ctx, t)) == Inorder(Plug(ctx0, t0)) && SameKeys(old(mem), mem)
    {
      hide Holds, RB, CtxRB, BH, Inorder, Plug;
      x, ctx, t := x0, ctx0, t0;
      HeldPointers(mem, ctx, t);
      InnerTest(mem, ctx, t);
      var p := mem[x].pai;
      if x == Child(mem[p], Other(lado)) {
        ghost var pt := Mk(ctx.side, ctx.p, Red, t, ctx.sib);
        FocusUp(mem, ctx, t);
        InnerOrder(ctx, t);
        x := p;
        Rodar(x, Other(lado), ctx.up, pt);
        FocusDown(mem, ctx.up, lado, t.p, Red, Mk(lado, p, Red, ctx.sib, Sub(t, lado)), Sub(t, ctx.side));
        ctx, t := Frame(lado, t.p, Red, Sub(t, ctx.side), ctx.up), Mk(lado, p, Red, ctx.sib, Sub(t, lado));
      }
      OuterHolds(mem, ctx, t);
      OuterOrder(ctx, t);
      p := mem[x].pai;
      var g := mem[p].pai;
      mem := mem[p := mem[p].(cor := Black)];
      mem := mem[g := mem[g].(cor := Red)];
      Rodar(g, lado, ctx.up.up, OuterTree(ctx, t));
      FocusDown(mem, ctx.up.up, lado, p, Black, t, Mk(Other(lado), g, Red, ctx.up.sib, ctx.sib));
      ctx := Frame(lado, p, Black, Mk(Other(lado), g, Red, ctx.up.sib, ctx.sib), ctx.up.up);
    }

    /** Adds an item after every item whose key is not larger. */
    method RBInserirNo(chave: int, tid: int, elem: nat)
      requires Valid() && chave >= 0
      modifies this
      ensures Valid() && tree.Node?
      ensures Contents() == Insere(old(Contents()), Item(chave, tid, elem))
    {
      hide Holds, RB, CtxRB, Inorder, Plug, Items, Insere;
      ghost var m0 := mem;
      TreePointers(mem, tree);
      var x := |mem|;
      mem := mem + [No(chave, elem, tid, Red, NULO, NULO, NULO)];
      FreshNode(m0, mem, tree);
      ghost var ctx := InserirNoAux(x);
      ghost var t := Node(Leaf, x, Red, Leaf);
      StartInserting(ctx, x);
      ghost var m1 := mem;
      ghost var novo := RepararInserido(x, ctx, t);
      InsertedOrder(m0, m1, mem, tree, ctx, x, novo);
      TreePointers(mem, novo);
      InsertedMinimum(mem, tree, ctx, x, minimo);
      if minimo == NULO || Comparar(mem[minimo].chave, mem[x].chave) == 1 {
        minimo := x;
      }
      tree := novo;
      InsereSorted(Items(m0, Inorder(old(tree))), Item(chave, tid, elem));
    }

    /** Deletion, red sibling: rotate so that the sibling is black. */
    method IrmaoVermelho(x: Ptr, lado: Side, w: Ptr, ghost ctx: Ctx, ghost t: Tree) returns (ghost ctx': Ctx)
      requires Holds(mem, ctx, t) && Deleting(ctx, t) && x == PtrOf(t) < |mem| && mem[x].pai == Parent(ctx)
      requires RootColor(t) == Black && ctx.Frame? && ctx.side == lado
      requires ctx.sib.Node? && ctx.sib.p == w && ctx.sib.c == Red
      modifies this`mem
      ensures Holds(mem, ctx', t) && Deleting(ctx', t) && x < |mem| && mem[x].pai == Parent(ctx')
      ensures ctx'.Frame? && ctx'.side == lado && ctx'.p == ctx.p && ctx'.c == Red && ctx'.up.Frame?
      ensures ctx'.sib.Node? && ctx'.sib.c == Black && Depth(ctx') == Depth(ctx) + 1
      ensures RootPtr(ctx, x) == ctx.p || RootPtr(ctx', x) == RootPtr(ctx, x)
      ensures Inorder(Plug(ctx', t)) == Inorder(Plug(ctx, t)) && All(ctx', t) == All(ctx, t)
      ensures Step(old(mem), mem, All(ctx, t))
    {
      hide Holds, RB, CtxRB, BH, Inorder, Plug;
      RedSiblingHolds(mem, ctx, t);
      var p := mem[x].pai;
      mem := mem[w := mem[w].(cor := Black)];
      mem := mem[p := mem[p].(cor := Red)];
      Rodar(p, Other(lado), ctx.up, Mk(lado, p, Red, t, ctx.sib.(c := Black)));
      ctx' := Frame(lado, p, Red, Sub(ctx.sib, lado), Frame(lado, w, Black, Sub(ctx.sib, Other(lado)), ctx.up));
      RedSiblingFocus(mem, ctx, t);
      HeldPointers(mem, ctx', t);
      RootPtrLower(ctx, ctx', x);
    }

    /** Deletion, near nephew red and far nephew black: rotate so that the far nephew is red. */
    method SobrinhoProximo(x: Ptr, lado: Side, w: Ptr, ghost ctx: Ctx, ghost t: Tree) returns (ghost ctx': Ctx)
      requires Holds(mem, ctx, t) && Deleting(ctx, t) && x == PtrOf(t) < |mem| && mem[x].pai == Parent(ctx)
      requires ctx.Frame? && ctx.side == lado && ctx.sib.Node? && ctx.sib.p == w && ctx.sib.c == Black
      requires RootColor(Sub(ctx.sib, Other(lado))) == Black && RootColor(Sub(ctx.sib, lado)) == Red
      modifies this`mem
      ensures ctx'.Frame? && ctx' == ctx.(sib := ctx'.sib) && ctx'.sib.Node? && ctx'.sib.c == Black
      ensures RootColor(Sub(ctx'.sib, Other(lado))) == Red
      ensures Holds(mem, ctx', t) && Deleting(ctx', t) && x < |mem| && mem[x].pai == Parent(ctx')
      ensures Inorder(Plug(ctx', t)) == Inorder(Plug(ctx, t)) && All(ctx', t) == All(ctx, t)
      ensures Step(old(mem), mem, All(ctx, t))
    {
      hide Holds, RB, CtxRB, BH, Inorder, Plug;
      NearRedHolds(mem, ctx, t);
      var n := Child(mem[w], lado);
      mem := mem[n := mem[n].(cor := Black)];
      mem := mem[w := mem[w].(cor := Red)];
      ghost var sc := Frame(Other(lado), ctx.p, ctx.c, t, ctx.up);
      Rodar(w, lado, sc, NearRedTree(ctx));
      ctx' := ctx.(sib := RotateTree(NearRedTree(ctx), lado));
      NearRedFocus(mem, ctx, t);
      HeldPointers(mem, ctx', t);
    }

    /** Deletion, far nephew red: the last rotation. */
    method SobrinhoAfastado(x: Ptr, lado: Side, w: Ptr, ghost ctx: Ctx, ghost t: Tree) returns (ghost novo: Tree)
      requires Holds(mem, ctx, t) && Deleting(ctx, t) && x == PtrOf(t) < |mem| && mem[x].pai == Parent(ctx)
      requires RootColor(t) == Black && ctx.Frame? && ctx.side == lado
      requires ctx.sib.Node? && ctx.sib.p == w && ctx.sib.c == Black
      requires RootColor(Sub(ctx.sib, Other(lado))) == Red
      modifies this`mem
      ensures Holds(mem, Top, novo) && RedBlack(novo)
      ensures Inorder(novo) == Inorder(Plug(ctx, t)) && Step(old(mem), mem, All(ctx, t))
      ensures ctx.p < |mem| && mem[ctx.p].cor == Black
      ensures RootPtr(ctx, x) < |mem| && mem[RootPtr(ctx, x)].cor == Black
    {
      hide Holds, RB, CtxRB, BH, Inorder, Plug;
      FarRedHolds(mem, ctx, t);
      var p := mem[x].pai;
      mem := mem[w := mem[w].(cor := mem[p].cor)];
      mem := mem[p := mem[p].(cor := Black)];
      var f := Child(mem[w], Other(lado));
      mem := mem[f := mem[f].(cor := Black)];
      Rodar(p, Other(lado), ctx.up, FarRedTree(ctx, t));
      novo := Plug(ctx.up, RotateTree(FarRedTree(ctx, t), Other(lado)));
      FarRedFocus(mem, ctx, t);
    }

    /** Deletion, black sibling with a red child: one or two rotations end the repair. */
    method SobrinhoVermelho(x: Ptr, lado: Side, w0: Ptr, ghost ctx0: Ctx, ghost t: Tree) returns (ghost novo: Tree)
      requires Holds(mem, ctx0, t) && Deleting(ctx0, t) && x == PtrOf(t) < |mem| && mem[x].pai == Parent(ctx0)
      requires RootColor(t) == Black && ctx0.Frame? && ctx0.side == lado
      requires ctx0.sib.Node? && ctx0.sib.p == w0 && ctx0.sib.c == Black
      requires RootColor(ctx0.sib.l) == Red || RootColor(ctx0.sib.r) == Red
      modifies this`mem
      ensures Holds(mem, Top, novo) && RedBlack(novo)
      ensures Inorder(novo) == Inorder(Plug(ctx0, t)) && Step(old(mem), mem, All(ctx0, t))
      ensures ctx0.p < |mem| && mem[ctx0.p].cor == Black
      ensures RootPtr(ctx0, x) < |mem| && mem[RootPtr(ctx0, x)].cor == Black
    {
      hide Holds, RB, CtxRB, BH, Inorder, Plug, RedBlack, Deleting;
      ghost var ctx := ctx0;
      var w := w0;
      NephewFacts(mem, ctx, t);
      if mem[Child(mem[w], Other(lado))].cor == Black {
        ctx := SobrinhoProximo(x, lado, w, ctx, t);
        HeldSibling(mem, ctx, t);
        w := Child(mem[mem[x].pai], Other(lado));
      }
      novo := SobrinhoAfastado(x, lado, w, ctx, t);
    }

    /** Deletion, black sibling: either the focus moves up, or the repair ends and `x` is the root
        that was read on entry. */
    method IrmaoPreto(x0: Ptr, raiz: Ptr, lado: Side, w: Ptr, ghost ctx0: Ctx, ghost t0: Tree)
        returns (x: Ptr, ghost ctx: Ctx, ghost t: Tree, ghost done: bool, ghost novo: Tree)
      requires Holds(mem, ctx0, t0) && Deleting(ctx0, t0) && x0 == PtrOf(t0) < |mem| && mem[x0].pai == Parent(ctx0)
      requires RootColor(t0) == Black && ctx0.Frame? && ctx0.side == lado
      requires ctx0.sib.Node? && ctx0.sib.p == w && ctx0.sib.c == Black
      requires RootPtr(ctx0, x0) == raiz || (ctx0.p == raiz && ctx0.c == Red)
      modifies this`mem
      ensures Step(old(mem), mem, All(ctx0, t0))
      ensures !done ==> Ongoing(mem, ctx, t, x, raiz) && SameWhole(ctx, t, ctx0, t0) && ctx == ctx0.up && RootColor(t) == ctx0.c
      ensures done ==> Finished(mem, x, raiz, novo) && Inorder(novo) == Inorder(Plug(ctx0, t0))
    {
      hide Holds, RB, CtxRB, BH, Inorder, Plug, RedBlack, Deleting, SameKeys, Outside, CtxNodes, Nodes;
      x, ctx, t, done, novo := x0, ctx0, t0, false, Leaf;
      NephewFacts(mem, ctx, t);
      HeldPointers(mem, ctx, t);
      if mem[mem[w].dir].cor == Black && mem[mem[w].esq].cor == Black {
        NephewsBlackHolds(mem, ctx, t);
        mem := mem[w := mem[w].(cor := Red)];
        x := mem[x].pai;
        ctx, t := ctx.up, Mk(lado, ctx.p, ctx.c, t, ctx.sib.(c := Red));
        HeldPointers(mem, ctx, t);
      } else {
        novo := SobrinhoVermelho(x, lado, w, ctx, t);
        x := raiz;
        done := true;
      }
    }

    /** One turn of the deletion loop. */
    method PassoEliminado(x0: Ptr, raiz: Ptr, ghost ctx0: Ctx, ghost t0: Tree)
        returns (x: Ptr, ghost ctx: Ctx, ghost t: Tree, ghost done: bool, ghost novo: Tree)
      requires Ongoing(mem, ctx0, t0, x0, raiz) && RootColor(t0) == Black && raiz != x0
      modifies this`mem
      ensures Step(old(mem), mem, All(ctx0, t0))
      ensures !done ==> Ongoing(mem, ctx, t, x, raiz) && SameWhole(ctx, t, ctx0, t0)
      ensures !done ==> RootColor(t) == Red || Depth(ctx) < Depth(ctx0)
      ensures done ==> Finished(mem, x, raiz, novo) && Inorder(novo) == Inorder(Plug(ctx0, t0))
    {
      hide Holds, RB, CtxRB, BH, Inorder, Plug, RedBlack, Deleting, SameKeys, Outside, CtxNodes, Nodes, Finished;
      DeleteFacts(mem, ctx0, t0, raiz);
      StepRefl(mem, All(ctx0, t0));
      ctx := ctx0;
      var lado := if x0 == mem[mem[x0].pai].esq then Esq else Dir;
      var w := Child(mem[mem[x0].pai], Other(lado));
      if mem[w].cor == Red {
        ctx := IrmaoVermelho(x0, lado, w, ctx, t0);
        HeldSibling(mem, ctx, t0);
        w := Child(mem[mem[x0].pai], Other(lado));
      }
      ghost var m1 := mem;
      x, ctx, t, done, novo := IrmaoPreto(x0, raiz, lado, w, ctx, t0);
      StepTrans(old(mem), m1, mem, All(ctx0, t0));
    }

    /** Moves the missing black node at `x0` up until it can be supplied. The root is read once,
        on entry, as in the source. */
    method RepararEliminado(x0: Ptr, ghost ctx0: Ctx, ghost t0: Tree) returns (ghost novo: Tree)
      requires Holds(mem, ctx0, t0) && Deleting(ctx0, t0) && x0 == PtrOf(t0) < |mem| && mem[x0].pai == Parent(ctx0)
      modifies this`mem
      ensures Holds(mem, Top, novo) && RedBlack(novo)
      ensures Inorder(novo) == Inorder(Plug(ctx0, t0)) && Step(old(mem), mem, All(ctx0, t0))
    {
      hide Holds, RB, CtxRB, BH, Inorder, Plug, RedBlack, Deleting, RootPtr;
      RootRead(mem, ctx0, t0);
      var x: Ptr := x0;
      var raiz: Ptr := mem[RAIZ].esq;
      ghost var ctx, t, done := ctx0, t0, false;
      novo := Leaf;
      while mem[x].cor == Black && raiz != x
        invariant Step(old(mem), mem, All(ctx0, t0)) && x < |mem|
        invariant !done ==> Ongoing(mem, ctx, t, x, raiz) && SameWhole(ctx, t, ctx0, t0)
        invariant done ==> Finished(mem, x, raiz, novo) && Inorder(novo) == Inorder(Plug(ctx0, t0))
        decreases !done, RootColor(t) == Black, Depth(ctx)
      {
        ghost var m1 := mem;
        x, ctx, t, done, novo := PassoEliminado(x, raiz, ctx, t);
        StepTrans(old(mem), m1, mem, All(ctx0, t0));
      }
      if !done {
        DeleteEnd(mem, ctx, t, raiz);
        novo := Plug(ctx, Blacken(t));
      } else {
        assert mem[x := mem[x].(cor := Black)] == mem;
      }
      mem := mem[x := mem[x].(cor := Black)];
    }

    /** The next node in order, or `nil` after the last one. */
    method Sucessor(x0: Ptr, ghost ctx0: Ctx, ghost t0: Tree) returns (y: Ptr, ghost yc: Ctx, ghost yt: Tree)
      requires Holds(mem, ctx0, t0) && t0.Node? && t0.p == x0
      ensures y == NIL <==> t0.r.Leaf? && After(ctx0) == []
      ensures y != NIL ==> Inorder(t0.r) + After(ctx0) != [] && (Inorder(t0.r) + After(ctx0))[..1] == [y]
      ensures t0.r.Node? ==> Holds(mem, yc, yt) && Plug(yc, yt) == Plug(ctx0, t0) && yt.Node? && yt.p == y && yt.l.Leaf?
      ensures t0.r.Node? ==> x0 in CtxNodes(yc) && Before(yc) == Before(ctx0) + Inorder(t0.l) + [x0]
    {
      hide Holds, Inorder, Before, After, CtxNodes;
      HeldPointers(mem, ctx0, t0);
      y, yc, yt := mem[x0].dir, ctx0, t0;
      if y != NIL {
        RightOf(mem, ctx0, t0);
        yc, yt := Frame(Dir, x0, t0.c, t0.l, ctx0), t0.r;
        HeldPointers(mem, yc, yt);
        while mem[y].esq != NIL
          invariant Holds(mem, yc, yt) && yt.Node? && RAIZ < yt.p == y < |mem| && Plug(yc, yt) == Plug(ctx0, t0)
          invariant x0 in CtxNodes(yc) && Before(yc) == Before(ctx0) + Inorder(t0.l) + [x0]
          invariant Inorder(yt) + After(yc) == Inorder(t0.r) + After(ctx0)
          invariant mem[y].esq == NIL <==> yt.l.Leaf?
          decreases yt
        {
          HeldPointers(mem, yc, yt);
          LeftOf(mem, yc, yt);
          y := mem[y].esq;
          yc, yt := Frame(Esq, yt.p, yt.c, yt.r, yc), yt.l;
          HeldPointers(mem, yc, yt);
        }
        LeftmostFirst(yt, After(yc));
      } else {
        NothingRight(t0, After(ctx0));
        var x := x0;
        y := mem[x].pai;
        while x == mem[y].dir
          invariant Holds(mem, yc, yt) && yt.Node? && yt.p == x > RAIZ && y == Parent(yc) < |mem|
          invariant Inorder(t0.r) + After(ctx0) == After(yc)
          decreases Depth(yc)
        {
          Climb(mem, yc, yt);
          x := y;
          y := mem[y].pai;
          yt := Mk(Dir, yc.p, yc.c, yt, yc.sib);
          yc := yc.up;
        }
        ClimbEnd(mem, yc, yt);
        if y == RAIZ {
          y := NIL;
        }
      }
    }

    /** Takes `y`, which lacks a child, out of the tree: its other child `x` hangs in its place. */
    method Retirar(y: Ptr, ghost ctx: Ctx, ghost t: Tree) returns (x: Ptr, ghost xt: Tree)
      requires Holds(mem, ctx, t) && t.Node? && t.p == y && (t.l.Leaf? || t.r.Leaf?)
      modifies this`mem
      ensures xt == (if t.l.Leaf? then t.r else t.l) && x == PtrOf(xt) < |mem|
      ensures Holds(mem, ctx, xt) && mem[x].pai == Parent(ctx)
      ensures SameKeys(old(mem), mem) && y < |mem| && mem[y] == old(mem)[y]
    {
      HeldPointers(mem, ctx, t);
      SpliceHolds(mem, ctx, t);
      x := if mem[y].esq == NIL then mem[y].dir else mem[y].esq;
      xt := if t.l.Leaf? then t.r else t.l;
      mem := mem[x := mem[x].(pai := mem[y].pai)];
      var pai := mem[y].pai;
      if RAIZ == pai {
        mem := mem[RAIZ := mem[RAIZ].(esq := x)];
      } else if y == mem[pai].esq {
        mem := mem[pai := mem[pai].(esq := x)];
      } else {
        mem := mem[pai := mem[pai].(dir := x)];
      }
    }

    /** Puts `y`, which is outside the tree, in the place and colour of `z`. */
    method Trocar(z: Ptr, y: Ptr, ghost ctx: Ctx, ghost t: Tree)
      requires Holds(mem, ctx, t) && t.Node? && t.p == z
      requires RAIZ < y < |mem| && y !in All(ctx, t)
      modifies this`mem
      ensures Holds(mem, ctx, t.(p := y)) && SameKeys(old(mem), mem)
    {
      ReplaceHolds(mem, ctx, t, y);
      mem := mem[y := mem[y].(esq := mem[z].esq, dir := mem[z].dir, pai := mem[z].pai, cor := mem[z].cor)];
      mem := mem[mem[z].dir := mem[mem[z].dir].(pai := y)];
      mem := mem[mem[z].esq := mem[mem[z].esq].(pai := y)];
      var pai := mem[z].pai;
      if z == mem[pai].esq {
        mem := mem[pai := mem[pai].(esq := y)];
      } else {
        mem := mem[pai := mem[pai].(dir := y)];
      }
    }

    /** Takes `y` out of the tree and, if a black node was lost, repairs the tree. */
    method RetirarReparando(y: Ptr, ghost ctx: Ctx, ghost t: Tree) returns (ghost novo: Tree)
      requires Holds(mem, ctx, t) && RedBlack(Plug(ctx, t)) && t.Node? && t.p == y && (t.l.Leaf? || t.r.Leaf?)
      modifies this`mem
      ensures Holds(mem, Top, novo) && RedBlack(novo) && SameKeys(old(mem), mem)
      ensures Inorder(novo) == Before(ctx) + Inorder(if t.l.Leaf? then t.r else t.l) + After(ctx)
      ensures y < |mem| && mem[y] == old(mem)[y]
    {
      hide Holds, RB, CtxRB, BH, Inorder, Plug, RedBlack, Before, After;
      HeldPointers(mem, ctx, t);
      ApartFromSubtree(mem, ctx, t);
      var x;
      ghost var xt;
      x, xt := Retirar(y, ctx, t);
      PlugInorder(ctx, xt);
      if mem[y].cor == Black {
        SplicedBlack(ctx, t, xt);
        ghost var m1 := mem;
        novo := RepararEliminado(x, ctx, xt);
        assert mem[y] == m1[y];
      } else {
        SplicedRed(ctx, t, xt);
        FocusRoot(mem, ctx, xt);
        novo := Plug(ctx, xt);
      }
    }

    /** Removes node `z`. */
    method RBRemoverNo(z: Ptr) returns (ghost a: seq<Ptr>, ghost b: seq<Ptr>)
      requires Valid() && z in Nodes(tree)
      modifies this
      ensures Valid()
      ensures Inorder(old(tree)) == a + [z] + b && Inorder(tree) == a + b && z !in a
      ensures old(Contents()) == Items(old(mem), a) + [ItemAt(old(mem), z)] + Items(old(mem), b)
      ensures Contents() == Items(old(mem), a) + Items(old(mem), b)
      ensures Contents() == [] ==> minimo == RAIZ
    {
      hide Holds, RB, CtxRB, BH, Inorder, Plug, RedBlack, Before, After, Items, CtxNodes, Nodes;
      ghost var m0 := mem;
      InTree(tree, z);
      FocusLocate(mem, Top, tree, z);
      ghost var zc, zt := Locate(Top, tree, z).0, Locate(Top, tree, z).1;
      assert Plug(zc, zt) == tree by { PlugTop(tree); }
      NodeOrder(mem, zc, zt);
      a, b := Before(zc) + Inorder(zt.l), Inorder(zt.r) + After(zc);
      HeldPointers(mem, zc, zt);
      RemovedMinimum(m0, tree, zc, zt, minimo);
      ghost var novo;
      if mem[z].esq == NIL || mem[z].dir == NIL {
        SplicedOrder(zc, zt);
        novo := RetirarReparando(z, zc, zt);
        if minimo == z {
          minimo := if mem[z].dir != NIL then mem[z].dir else mem[z].pai;
        }
      } else {
        novo := RemoverTrocando(z, zc, zt);
        if minimo == z {
          // The source patches the minimum here too, but a leftmost node has no left subtree.
          assert false;
        }
      }
      RemovedItems(m0, mem, a, z, b);
      KeepsMinimum(novo, a, b);
      NoItems(mem, a + b);
      tree := novo;
    }

    /** Removes `z`, which has two children, by letting its successor take its place. */
    method RemoverTrocando(z: Ptr, ghost zc: Ctx, ghost zt: Tree) returns (ghost novo: Tree)
      requires Holds(mem, zc, zt) && RedBlack(Plug(zc, zt)) && zt.Node? && zt.p == z && zt.l.Node? && zt.r.Node?
      modifies this`mem
      ensures Holds(mem, Top, novo) && RedBlack(novo) && SameKeys(old(mem), mem)
      ensures Inorder(novo) == Before(zc) + Inorder(zt.l) + (Inorder(zt.r) + After(zc))
    {
      hide Holds, RB, CtxRB, BH, Inorder, Plug, RedBlack, Before, After, CtxNodes, Nodes;
      HeldPointers(mem, zc, zt);
      var y;
      ghost var yc, yt;
      y, yc, yt := Sucessor(z, zc, zt);
      HeldPointers(mem, yc, yt);
      ghost var a, b1 := Before(zc) + Inorder(zt.l), Inorder(yt.r) + After(yc);
      NodeOrder(mem, zc, zt);
      SuccessorOrder(mem, zc, zt, yc, yt);
      novo := RetirarReparando(y, yc, yt);
      InorderHas(novo, a, z, b1);
      ghost var nc, nt := Locate(Top, novo, z).0, Locate(Top, novo, z).1;
      FocusLocate(mem, Top, novo, z);
      assert Plug(nc, nt) == novo by { PlugTop(novo); }
      NotInOrder(mem, nc, nt, novo, a, z, b1, y);
      Trocar(z, y, nc, nt);
      ReplacedOrder(mem, nc, nt, y, a, b1);
      novo := Plug(nc, nt.(p := y));
    }

    /** Removes the first item in order and hands over its content; nothing on a tree that never
        held an item. */
    method RBExtraiMinimo() returns (r: Option<nat>)
      requires Valid() && (Contents() != [] || minimo == NULO)
      modifies this
      ensures Valid()
      ensures old(Contents()) == [] ==> r == None && Contents() == []
      ensures old(Contents()) != [] ==> r == Some(old(Contents())[0].elem) && Contents() == old(Contents())[1..]
      ensures old(Contents()) != [] && Contents() == [] ==> minimo == RAIZ
    {
      FirstItem(mem, tree);
      if minimo == NULO {
        return None;
      }
      r := Some(mem[minimo].elem);
      ghost var z := minimo;
      ghost var m0, s := mem, Inorder(tree);
      ghost var a, b := RBRemoverNo(minimo);
      FirstRemoved(s, a, z, b);
      RestOfItems(m0, a, z, b);
    }

    /** The key of the cached minimum; 0 on a tree that never held an item. */
    method RBMenorChave() returns (k: int)
      requires Valid()
      ensures Contents() != [] ==> k == Contents()[0].chave
      ensures Contents() == [] ==> k == if minimo == NULO then 0 else -1
    {
      FirstItem(mem, tree);
      k := if minimo == NULO then 0 else mem[minimo].chave;
    }

    method RBArvoreVazia() returns (b: bool)
      requires Valid()
      ensures b <==> Contents() == []
    {
      HeldPointers(mem, Top, tree);
      EmptyOrder(tree);
      b := mem[RAIZ].esq == NIL;
    }

    /** A node with key `q`, or NULL when there is none. */
    method PesquisaRB(q: int) returns (x: Ptr)
      requires Valid()
      ensures x == NULO ==> forall i :: 0 <= i < |Contents()| ==> Contents()[i].chave != q
      ensures x != NULO ==> x in Nodes(tree) && Key(mem, x) == q
    {
      TreePointers(mem, tree);
      HeldPointers(mem, Top, tree);
      x := mem[RAIZ].esq;
      ghost var ctx, t := Top, tree;
      while x != NIL && Comparar(mem[x].chave, q) != 0
        invariant x == PtrOf(t) && Search(mem, tree, ctx, t, q)
        invariant x < |mem| && (x == NIL <==> t.Leaf?)
        decreases t
      {
        SearchStep(mem, tree, ctx, t, q);
        if Comparar(mem[x].chave, q) == 1 {
          ctx, t := Frame(Esq, t.p, t.c, t.r, ctx), t.l;
          x := mem[x].esq;
        } else {
          ctx, t := Frame(Dir, t.p, t.c, t.l, ctx), t.r;
          x := mem[x].dir;
        }
        HeldPointers(mem, ctx, t);
      }
      SearchEnd(mem, tree, ctx, t, q);
      if x == NIL {
        x := NULO;
      }
    }

    /** Whether some node below `no` carries the thread id. */
    method RBSearchTIDAux(no: Ptr, tid: int, ghost ctx: Ctx, ghost t: Tree) returns (b: bool)
      requires Holds(mem, ctx, t) && no == PtrOf(t)
      ensures b <==> exists q :: q in Nodes(t) && q < |mem| && mem[q].tid == tid
      decreases t
    {
      HeldPointers(mem, ctx, t);
      if no == NIL {
        return false;
      }
      if mem[no].tid == tid {
        return true;
      }
      FocusDown(mem, ctx, Esq, t.p, t.c, t.l, t.r);
      FocusDown(mem, ctx, Dir, t.p, t.c, t.r, t.l);
      b := RBSearchTIDAux(mem[no].esq, tid, Frame(Esq, t.p, t.c, t.r, ctx), t.l);
      if !b {
        b := RBSearchTIDAux(mem[no].dir, tid, Frame(Dir, t.p, t.c, t.l, ctx), t.r);
      }
    }

    method RBSearchTID(tid: int) returns (b: bool)
      requires Valid()
      ensures b <==> exists i :: 0 <= i < |Contents()| && Contents()[i].tid == tid
    {
      HeldPointers(mem, Top, tree);
      TreePointers(mem, tree);
      b := RBSearchTIDAux(mem[RAIZ].esq, tid, Top, tree);
      if b {
        ghost var q :| q in Nodes(tree) && q < |mem| && mem[q].tid == tid;
        InorderNodes(tree, q);
        ghost var i :| 0 <= i < |Inorder(tree)| && Inorder(tree)[i] == q;
        assert Contents()[i].tid == tid;
      } else {
        forall i | 0 <= i < |Contents()| ensures Contents()[i].tid != tid {
          assert Inorder(tree)[i] in Inorder(tree);
        }
      }
    }
  }

  lemma FirstItem(m: Mem, tree: Tree)
    requires Holds(m, Top, tree)
    ensures tree.Leaf? <==> Items(m, Inorder(tree)) == []
    ensures tree.Node? ==> Inorder(tree)[0] in Nodes(tree) && RAIZ < Inorder(tree)[0] < |m|
    ensures tree.Node? ==> Items(m, Inorder(tree))[0] == ItemAt(m, Inorder(tree)[0])
    ensures Sentinels(m)
  {
    TreePointers(m, tree);
    EmptyOrder(tree);
    if tree.Node? { assert Inorder(tree)[0] in Inorder(tree); }
  }

  lemma FirstRemoved(s: seq<Ptr>, a: seq<Ptr>, z: Ptr, b: seq<Ptr>)
    requires s == a + [z] + b && s[0] == z && z !in a
    ensures a == []
  {
    assert s == [] + [z] + s[1..];
    SplitUnique(a, z, b, [], s[1..]);
  }

  lemma RestOfItems(m: Mem, a: seq<Ptr>, z: Ptr, b: seq<Ptr>)
    requires a == []
    ensures Items(m, a) + [ItemAt(m, z)] + Items(m, b) == [ItemAt(m, z)] + Items(m, b)
    ensures Items(m, a) + Items(m, b) == Items(m, b)
    ensures ([ItemAt(m, z)] + Items(m, b))[1..] == Items(m, b)
  {
  }

  /** How far the search for key `q` has come: it can only be under the focus. */
  ghost predicate Search(m: Mem, tree: Tree, ctx: Ctx, t: Tree, q: int) {
    && Holds(m, ctx, t) && Plug(ctx, t) == tree
    && Sorted(Items(m, Inorder(tree))) && AtLeast(m, Inorder(tree), 0)
    && AtMost(m, Before(ctx), q - 1) && AtLeast(m, After(ctx), q + 1)
  }

  lemma SearchStep(m: Mem, tree: Tree, ctx: Ctx, t: Tree, q: int)
    requires Search(m, tree, ctx, t, q) && t.Node?
    ensures t.p < |m| && Key(m, t.p) >= 0
    ensures m[t.p].esq == PtrOf(t.l) && m[t.p].dir == PtrOf(t.r)
    ensures Key(m, t.p) > q ==> Search(m, tree, Frame(Esq, t.p, t.c, t.r, ctx), t.l, q)
    ensures Key(m, t.p) < q ==> Search(m, tree, Frame(Dir, t.p, t.c, t.l, ctx), t.r, q)
  {
    HeldPointers(m, ctx, t);
    assert AtMost(m, Before(ctx), q);
    CutAt(m, ctx, t, q);
    if Key(m, t.p) < q {
      assert AtLeast(m, After(ctx), q);
      CutAt(m, ctx, t, q - 1);
    }
    FocusDown(m, ctx, Esq, t.p, t.c, t.l, t.r);
    FocusDown(m, ctx, Dir, t.p, t.c, t.r, t.l);
  }

  lemma SearchEnd(m: Mem, tree: Tree, ctx: Ctx, t: Tree, q: int)
    requires Search(m, tree, ctx, t, q)
    ensures t.Node? ==> t.p in Nodes(tree)
    ensures t.Leaf? ==> forall i :: 0 <= i < |Items(m, Inorder(tree))| ==> Items(m, Inorder(tree))[i].chave != q
  {
    PlugNodes(ctx, t);
    if t.Leaf? {
      PlugInorder(ctx, t);
      forall i | 0 <= i < |Inorder(tree)| ensures ItemAt(m, Inorder(tree)[i]).chave != q {
        assert Inorder(tree) == Before(ctx) + [] + After(ctx);
        var p := Inorder(tree)[i];
        assert p in Before(ctx) || p in After(ctx);
        assert Key(m, p) != q;
      }
    } else {
      assert t.p in Nodes(t);
    }
  }

  lemma InTree(t: Tree, z: Ptr)
    requires z in Nodes(t)
    ensures t.Node?
  {
  }

  lemma PlugTop(t: Tree)
    ensures Plug(Top, t) == t
  {
  }

  lemma ApartFromSubtree(m: Mem, ctx: Ctx, t: Tree)
    requires Holds(m, ctx, t) && t.Node?
    ensures t.p !in All(ctx, t.l) && t.p !in All(ctx, t.r)
  {
    assert t.p in Nodes(t);
  }

  /** The order around a located node, which occurs only there. */
  lemma NodeOrder(m: Mem, ctx: Ctx, t: Tree)
    requires Holds(m, ctx, t) && t.Node?
    ensures Inorder(Plug(ctx, t)) == Before(ctx) + Inorder(t.l) + [t.p] + (Inorder(t.r) + After(ctx))
    ensures t.p !in Before(ctx) + Inorder(t.l) && t.p !in Inorder(t.r) + After(ctx)
  {
    PlugInorder(ctx, t);
    RegroupMiddle(Before(ctx), Inorder(t.l), [t.p], Inorder(t.r), After(ctx));
    InorderNodes(t.l, t.p);
    InorderNodes(t.r, t.p);
    ContextNodes(ctx, t.p);
    assert t.p in Nodes(t);
  }

  lemma SplicedOrder(ctx: Ctx, t: Tree)
    requires t.Node? && (t.l.Leaf? || t.r.Leaf?)
    ensures Before(ctx) + Inorder(if t.l.Leaf? then t.r else t.l) + After(ctx)
         == Before(ctx) + Inorder(t.l) + (Inorder(t.r) + After(ctx))
  {
    if t.l.Leaf? {
      assert Before(ctx) + Inorder(t.l) == Before(ctx);
    } else {
      assert Inorder(t.r) + After(ctx) == After(ctx);
    }
  }

  lemma SuccessorOrder(m: Mem, zc: Ctx, zt: Tree, yc: Ctx, yt: Tree)
    requires Holds(m, zc, zt) && zt.Node? && Holds(m, yc, yt) && yt.Node? && yt.l.Leaf?
    requires Plug(yc, yt) == Plug(zc, zt)
    requires Before(yc) == Before(zc) + Inorder(zt.l) + [zt.p]
    ensures Inorder(zt.r) + After(zc) == [yt.p] + (Inorder(yt.r) + After(yc))
    ensures yt.p !in Before(yc) && yt.p !in Inorder(yt.r) + After(yc)
  {
    hide Holds, Plug, Before, After;
    NodeOrder(m, zc, zt);
    NodeOrder(m, yc, yt);
    assert Inorder(yt.l) == [];
    SamePrefix(Before(yc), Inorder(zt.r) + After(zc), [yt.p] + (Inorder(yt.r) + After(yc)));
    DropEmpty(Before(yc), Inorder(yt.l), [yt.p], Inorder(yt.r) + After(yc));
  }

  lemma DropEmpty<T>(a: seq<T>, e: seq<T>, y: seq<T>, b: seq<T>)
    requires e == []
    ensures a + e == a && a + e + y + b == a + (y + b)
  {
  }

  lemma SamePrefix<T>(a: seq<T>, b: seq<T>, c: seq<T>)
    ensures a + b == a + c ==> b == c
  {
    if a + b == a + c {
      assert b == (a + b)[|a|..];
      assert c == (a + c)[|a|..];
    }
  }

  /** A node that occurs once splits a sequence in one way. */
  lemma SplitUnique<T>(a: seq<T>, z: T, b: seq<T>, c: seq<T>, d: seq<T>)
    requires a + [z] + b == c + [z] + d && z !in a && z !in c
    ensures a == c && b == d
  {
    var s := a + [z] + b;
    assert forall i :: 0 <= i < |a| ==> s[i] == a[i] && a[i] in a;
    assert forall i :: 0 <= i < |c| ==> s[i] == c[i] && c[i] in c;
    assert s[|a|] == z && s[|c|] == z;
    assert |a| == |c|;
    assert a == s[..|a|] && c == s[..|a|];
    assert b == s[|a| + 1..] && d == s[|a| + 1..];
  }

  lemma InorderHas(t: Tree, a: seq<Ptr>, z: Ptr, b: seq<Ptr>)
    requires Inorder(t) == a + [z] + b
    ensures z in Nodes(t)
  {
    InorderNodes(t, z);
    assert (a + [z] + b)[|a|] == z;
  }

  lemma NotInOrder(m: Mem, nc: Ctx, nt: Tree, novo: Tree, a: seq<Ptr>, z: Ptr, b: seq<Ptr>, y: Ptr)
    requires Holds(m, nc, nt) && nt.Node? && nt.p == z && Plug(nc, nt) == novo
    requires Inorder(novo) == a + [z] + b && z !in a && y !in a + [z] && y !in b
    ensures y !in All(nc, nt)
    ensures Before(nc) + Inorder(nt.l) == a && Inorder(nt.r) + After(nc) == b
  {
    NodeOrder(m, nc, nt);
    SplitUnique(a, z, b, Before(nc) + Inorder(nt.l), Inorder(nt.r) + After(nc));
    PlugNodes(nc, nt);
    InorderNodes(novo, y);
  }

  lemma ReplacedOrder(m: Mem, ctx: Ctx, t: Tree, y: Ptr, a: seq<Ptr>, b: seq<Ptr>)
    requires t.Node? && Holds(m, ctx, t.(p := y)) && RedBlack(Plug(ctx, t))
    requires Before(ctx) + Inorder(t.l) == a && Inorder(t.r) + After(ctx) == b
    ensures var novo := Plug(ctx, t.(p := y));
      Holds(m, Top, novo) && RedBlack(novo) && Inorder(novo) == a + ([y] + b)
  {
    assert RedBlack(Plug(ctx, t.(p := y))) by {
      UnplugRB(ctx, t);
      PlugRB(ctx, t.(p := y));
    }
    hide Holds, Plug, RedBlack, Before, After;
    FocusRoot(m, ctx, t.(p := y));
    NodeOrder(m, ctx, t.(p := y));
    DropEmpty(a, [], [y], b);
    assert a + [] + [y] + b == a + [y] + b;
  }

  lemma RemovedItems(m0: Mem, m: Mem, a: seq<Ptr>, z: Ptr, b: seq<Ptr>)
    requires SameKeys(m0, m) && Sorted(Items(m0, a + [z] + b)) && AtLeast(m0, a + [z] + b, 0)
    ensures Items(m0, a + [z] + b) == Items(m0, a) + [ItemAt(m0, z)] + Items(m0, b)
    ensures Items(m, a + b) == Items(m0, a) + Items(m0, b)
    ensures Sorted(Items(m, a + b)) && AtLeast(m, a + b, 0)
  {
    ItemsAround(m0, a, z, b);
    ItemsConcat(m0, a, b);
    StepItems(m0, m, a + b);
    DropSorted(Items(m0, a), ItemAt(m0, z), Items(m0, b));
    AtLeastConcat(m0, a + [z], b, 0);
    AtLeastConcat(m0, a, [z], 0);
    AtLeastConcat(m0, a, b, 0);
    assert forall q :: Key(m, q) == Key(m0, q);
  }

  lemma DropSorted(a: seq<Item>, x: Item, b: seq<Item>)
    requires Sorted(a + [x] + b)
    ensures Sorted(a + b)
  {
    SortedCut(a + [x], b);
    SortedCut(a, [x]);
    forall i, j | 0 <= i < |a| && 0 <= j < |b| ensures a[i].chave <= b[j].chave {
      assert (a + [x])[i].chave <= b[j].chave;
    }
    forall i, j | 0 <= i < j < |a + b| ensures (a + b)[i].chave <= (a + b)[j].chave {
      if j >= |a| {
        assert (a + b)[j] == b[j - |a|];
        if i >= |a| { assert (a + b)[i] == b[i - |a|]; }
      }
    }
  }

  /** No items, no nodes. */
  lemma NoItems(m: Mem, s: seq<Ptr>)
    ensures Items(m, s) == [] <==> s == []
  {
  }

  /** The first node in order after removing a node, as the code finds it next to the removed one. */
  lemma RemovedMinimum(m: Mem, tree: Tree, ctx: Ctx, t: Tree, minimo: Ptr)
    requires Holds(m, ctx, t) && t.Node? && Plug(ctx, t) == tree && RedBlack(tree)
    requires Inorder(tree) != [] && minimo == Inorder(tree)[0] && t.p < |m|
    ensures var a, b := Before(ctx) + Inorder(t.l), Inorder(t.r) + After(ctx);
      var next := if m[t.p].dir != NIL then m[t.p].dir else m[t.p].pai;
      && (minimo == t.p <==> a == [])
      && (a == [] ==> t.l.Leaf? && (if b == [] then next == RAIZ else next == b[0]))
      && (a != [] ==> minimo == a[0])
  {
    NodeOrder(m, ctx, t);
    HeldPointers(m, ctx, t);
    var a, b := Before(ctx) + Inorder(t.l), Inorder(t.r) + After(ctx);
    if a == [] {
      EmptyOrder(t.l);
      LeftmostShape(ctx, t);
      if t.r.Node? {
        assert Inorder(t.r) == [] + [t.r.p] + [];
      } else if ctx.Frame? {
        NonemptyBefore(ctx);
        assert b == After(ctx) == [ctx.p] + Inorder(ctx.sib) + After(ctx.up);
      }
    } else {
      assert (a + [t.p] + b)[0] == a[0];
    }
  }

  lemma EmptyOrder(t: Tree)
    ensures Inorder(t) == [] <==> t.Leaf?
  {
  }

  lemma NonemptyBefore(ctx: Ctx)
    requires ctx.Frame?
    ensures ctx.side == Dir ==> Before(ctx) != []
  {
  }

  lemma KeepsMinimum(novo: Tree, a: seq<Ptr>, b: seq<Ptr>)
    requires Inorder(novo) == a + b
    ensures novo.Leaf? <==> a + b == []
    ensures a != [] ==> (a + b)[0] == a[0]
    ensures a == [] ==> a + b == b
  {
  }

  lemma SpliceHolds(m: Mem, ctx: Ctx, t: Tree)
    requires Holds(m, ctx, t) && t.Node? && (t.l.Leaf? || t.r.Leaf?)
    ensures var xt := if t.l.Leaf? then t.r else t.l;
      var x := PtrOf(xt);
      && x < |m| && Parent(ctx) < |m| && t.p < |m|
      && var m' := Relink(m[x := m[x].(pai := Parent(ctx))], Parent(ctx), t.p, x);
      && Holds(m', ctx, xt) && m'[x].pai == Parent(ctx) && SameKeys(m, m') && m'[t.p] == m[t.p]
    ensures ctx.Top? ==> m[RAIZ].esq == t.p
  {
    HeldPointers(m, ctx, t);
    var xt := if t.l.Leaf? then t.r else t.l;
    var x := PtrOf(xt);
    var m1 := m[x := m[x].(pai := Parent(ctx))];
    var m' := Relink(m1, Parent(ctx), t.p, x);
    CtxBound(m, ctx, t.p);
    RepBound(m, t.p, xt);
    CtxFrame(m, m1, ctx, t.p);
    RelinkCtx(m1, m', ctx, t.p, x);
    Rehang(m, m', t.p, Parent(ctx), xt);
  }

  /** The writes that put `y` in the place of `z`. */
  function Replaced(m: Mem, z: Ptr, y: Ptr, l: Ptr, r: Ptr, par: Ptr): Mem
    requires z < |m| && y < |m| && l < |m| && r < |m| && par < |m|
  {
    var m1 := m[y := m[y].(esq := l, dir := r, pai := par, cor := m[z].cor)];
    var m2 := m1[r := m1[r].(pai := y)];
    var m3 := m2[l := m2[l].(pai := y)];
    Relink(m3, par, z, y)
  }

  lemma ReplacedCells(m: Mem, z: Ptr, y: Ptr, l: Ptr, r: Ptr, par: Ptr)
    requires z < |m| && y < |m| && l < |m| && r < |m| && par < |m|
    requires y != z && y != l && y != r && y != par && par != l && par != r
    requires l != r || l == NIL
    ensures var m' := Replaced(m, z, y, l, r, par);
      && SameKeys(m, m')
      && m'[y] == m[y].(esq := l, dir := r, pai := par, cor := m[z].cor)
      && m'[l] == m[l].(pai := y) && m'[r] == m[r].(pai := y)
      && m'[par] == Relink(m, par, z, y)[par]
      && (forall q :: 0 <= q < |m| && q != y && q != l && q != r && q != par ==> m'[q] == m[q])
  {
  }

  lemma ReplacePieces(m: Mem, ctx: Ctx, t: Tree, y: Ptr)
    requires Holds(m, ctx, t) && t.Node? && RAIZ < y < |m| && y !in All(ctx, t)
    ensures t.p < |m| && Parent(ctx) < |m| && PtrOf(t.l) < |m| && PtrOf(t.r) < |m|
    ensures m[t.p].esq == PtrOf(t.l) && m[t.p].dir == PtrOf(t.r) && m[t.p].pai == Parent(ctx)
    ensures t.p != y && t.p != PtrOf(t.l) && t.p != PtrOf(t.r) && t.p != Parent(ctx)
    ensures y != Parent(ctx) && y != PtrOf(t.l) && y != PtrOf(t.r)
    ensures Parent(ctx) != PtrOf(t.l) && Parent(ctx) != PtrOf(t.r)
    ensures PtrOf(t.l) != PtrOf(t.r) || PtrOf(t.l) == NIL
  {
    HeldPointers(m, ctx, t);
    CtxBound(m, ctx, t.p);
    RepBound(m, t.p, t.l);
    RepBound(m, t.p, t.r);
    assert t.l.Node? ==> t.l.p in Nodes(t.l);
    assert t.r.Node? ==> t.r.p in Nodes(t.r);
  }

  lemma ReplaceHolds(m: Mem, ctx: Ctx, t: Tree, y: Ptr)
    requires Holds(m, ctx, t) && t.Node? && RAIZ < y < |m| && y !in All(ctx, t)
    ensures t.p < |m| && Parent(ctx) < |m| && PtrOf(t.l) < |m| && PtrOf(t.r) < |m|
    ensures m[t.p].esq == PtrOf(t.l) && m[t.p].dir == PtrOf(t.r) && m[t.p].pai == Parent(ctx)
    ensures t.p != y && t.p != PtrOf(t.l) && t.p != PtrOf(t.r) && t.p != Parent(ctx) && y != Parent(ctx)
    ensures var m' := Replaced(m, t.p, y, PtrOf(t.l), PtrOf(t.r), Parent(ctx));
      Holds(m', ctx, t.(p := y)) && SameKeys(m, m')
  {
    ReplacePieces(m, ctx, t, y);
    ReplacedCells(m, t.p, y, PtrOf(t.l), PtrOf(t.r), Parent(ctx));
    ReplacedParts(m, Replaced(m, t.p, y, PtrOf(t.l), PtrOf(t.r), Parent(ctx)), ctx, t, y);
  }

  lemma ReplacedParts(m: Mem, m': Mem, ctx: Ctx, t: Tree, y: Ptr)
    requires Holds(m, ctx, t) && t.Node? && RAIZ < y < |m| && y !in All(ctx, t) && |m'| == |m|
    requires Parent(ctx) < |m| && PtrOf(t.l) < |m| && PtrOf(t.r) < |m| && t.p < |m|
    requires m'[y] == m[y].(esq := PtrOf(t.l), dir := PtrOf(t.r), pai := Parent(ctx), cor := m[t.p].cor)
    requires m'[PtrOf(t.l)] == m[PtrOf(t.l)].(pai := y) && m'[PtrOf(t.r)] == m[PtrOf(t.r)].(pai := y)
    requires m'[Parent(ctx)] == Relink(m, Parent(ctx), t.p, y)[Parent(ctx)]
    requires forall q :: 0 <= q < |m| && q != y && q != PtrOf(t.l) && q != PtrOf(t.r) && q != Parent(ctx) ==> m'[q] == m[q]
    ensures Holds(m', ctx, t.(p := y))
  {
    HeldPointers(m, ctx, t);
    CtxBound(m, ctx, t.p);
    RepBound(m, t.p, t.l);
    RepBound(m, t.p, t.r);
    RelinkCtx(m, m', ctx, t.p, y);
    Rehang(m, m', t.p, y, t.l);
    Rehang(m, m', t.p, y, t.r);
  }

  lemma RightOf(m: Mem, ctx: Ctx, t: Tree)
    requires Holds(m, ctx, t) && t.Node?
    ensures var c := Frame(Dir, t.p, t.c, t.l, ctx);
      && Holds(m, c, t.r) && t.p in CtxNodes(c)
      && Before(c) == Before(ctx) + Inorder(t.l) + [t.p] && After(c) == After(ctx)
      && Plug(c, t.r) == Plug(ctx, t)
  {
    FocusDown(m, ctx, Dir, t.p, t.c, t.r, t.l);
  }

  lemma LeftOf(m: Mem, ctx: Ctx, t: Tree)
    requires Holds(m, ctx, t) && t.Node?
    ensures var c := Frame(Esq, t.p, t.c, t.r, ctx);
      && Holds(m, c, t.l) && CtxNodes(ctx) <= CtxNodes(c) && Before(c) == Before(ctx)
      && Inorder(t.l) + After(c) == Inorder(t) + After(ctx)
      && Plug(c, t.l) == Plug(ctx, t)
  {
    FocusDown(m, ctx, Esq, t.p, t.c, t.l, t.r);
    var a, b, c, d := Inorder(t.l), [t.p], Inorder(t.r), After(ctx);
    assert a + (b + c + d) == a + b + c + d;
  }

  lemma LeftmostFirst(t: Tree, rest: seq<Ptr>)
    requires t.Node? && t.l.Leaf?
    ensures Inorder(t) + rest != [] && (Inorder(t) + rest)[..1] == [t.p]
  {
    assert Inorder(t) == [] + [t.p] + Inorder(t.r);
  }

  lemma NothingRight(t: Tree, rest: seq<Ptr>)
    requires t.Node? && t.r.Leaf?
    ensures Inorder(t.r) == [] && Inorder(t.r) + rest == rest
  {
  }

  /** Climbing from a right child changes nothing of what comes after. */
  lemma Climb(m: Mem, ctx: Ctx, t: Tree)
    requires Holds(m, ctx, t) && t.Node? && Parent(ctx) < |m| && t.p == m[Parent(ctx)].dir && t.p > RAIZ
    ensures ctx.Frame? && ctx.side == Dir && m[ctx.p].pai == Parent(ctx.up) < |m| && ctx.p > RAIZ
    ensures Holds(m, ctx.up, Mk(Dir, ctx.p, ctx.c, t, ctx.sib)) && After(ctx.up) == After(ctx)
  {
    HeldPointers(m, ctx, t);
    HeldSibling(m, ctx, t);
    SideTest(m, ctx, t);
    if ctx.side == Esq {
      assert ctx.sib.Node? ==> ctx.sib.p in CtxNodes(ctx);
      assert t.p in Nodes(t);
    }
    FocusUp(m, ctx, t);
  }

  lemma ClimbEnd(m: Mem, ctx: Ctx, t: Tree)
    requires Holds(m, ctx, t) && t.Node? && Parent(ctx) < |m| && t.p != m[Parent(ctx)].dir
    ensures Parent(ctx) == RAIZ <==> ctx.Top?
    ensures ctx.Top? ==> After(ctx) == []
    ensures ctx.Frame? ==> After(ctx) != [] && After(ctx)[..1] == [ctx.p] && ctx.p > RAIZ
  {
    HeldPointers(m, ctx, t);
    if ctx.Frame? {
      HeldSibling(m, ctx, t);
      assert ctx.side == Esq;
      assert After(ctx) == [ctx.p] + Inorder(ctx.sib) + After(ctx.up);
    }
  }

  /** The state of the deletion loop while it goes on: the focus `x` is one black short, and unless
      it is red the root is the one that was read on entry. */
  ghost predicate Ongoing(m: Mem, ctx: Ctx, t: Tree, x: Ptr, raiz: Ptr) {
    && Holds(m, ctx, t) && Deleting(ctx, t) && x == PtrOf(t) < |m| && m[x].pai == Parent(ctx)
    && m[x].cor == RootColor(t) && (RootColor(t) == Red || RootPtr(ctx, x) == raiz)
  }

  /** The deletion loop has ended with the whole tree in order. */
  ghost predicate Finished(m: Mem, x: Ptr, raiz: Ptr, novo: Tree) {
    x == raiz < |m| && m[raiz].cor == Black && Holds(m, Top, novo) && RedBlack(novo)
  }

  /** Two views of a tree with the same nodes in the same order. */
  ghost predicate SameWhole(ctx: Ctx, t: Tree, ctx0: Ctx, t0: Tree) {
    Inorder(Plug(ctx, t)) == Inorder(Plug(ctx0, t0)) && All(ctx, t) == All(ctx0, t0)
  }

  /** The root as the code reads it. */
  lemma RootRead(m: Mem, ctx: Ctx, t: Tree)
    requires Holds(m, ctx, t)
    ensures RAIZ < |m| && m[RAIZ].esq == RootPtr(ctx, PtrOf(t)) < |m|
    ensures PtrOf(t) < |m| && m[PtrOf(t)].cor == RootColor(t)
  {
    FocusRoot(m, ctx, t);
    RootPtrPlug(ctx, t);
    HeldPointers(m, Top, Plug(ctx, t));
    HeldPointers(m, ctx, t);
  }

  /** A short black focus that is not the root has a sibling, and the code finds it. */
  lemma DeleteFacts(m: Mem, ctx: Ctx, t: Tree, raiz: Ptr)
    requires Holds(m, ctx, t) && Deleting(ctx, t) && RootColor(t) == Black
    requires RootPtr(ctx, PtrOf(t)) == raiz != PtrOf(t)
    ensures ctx.Frame? && ctx.sib.Node? && Parent(ctx) == ctx.p < |m|
    ensures m[ctx.p].esq == PtrOf(t) <==> ctx.side == Esq
    ensures Child(m[ctx.p], Other(ctx.side)) == ctx.sib.p < |m| && m[ctx.sib.p].cor == ctx.sib.c
  {
    SiblingExists(ctx, t);
    SideTest(m, ctx, t);
    HeldSibling(m, ctx, t);
  }

  /** The nephews' colours as the code reads them. */
  lemma NephewFacts(m: Mem, ctx: Ctx, t: Tree)
    requires Holds(m, ctx, t) && ctx.Frame? && ctx.sib.Node?
    ensures ctx.sib.p < |m| && m[ctx.sib.p].esq < |m| && m[ctx.sib.p].dir < |m|
    ensures m[m[ctx.sib.p].esq].cor == RootColor(ctx.sib.l) && m[m[ctx.sib.p].dir].cor == RootColor(ctx.sib.r)
  {
    HeldSibling(m, ctx, t);
    var sc := Frame(Other(ctx.side), ctx.p, ctx.c, t, ctx.up);
    HeldChildren(m, sc, ctx.sib, Esq);
    HeldChildren(m, sc, ctx.sib, Dir);
  }

  /** Painting a black sibling with black children red and moving up. */
  lemma NephewsBlackHolds(m: Mem, ctx: Ctx, t: Tree)
    requires Holds(m, ctx, t) && Deleting(ctx, t) && RootColor(t) == Black && ctx.Frame?
    requires ctx.sib.Node? && ctx.sib.c == Black && RootColor(ctx.sib.l) == Black && RootColor(ctx.sib.r) == Black
    ensures var t' := Mk(ctx.side, ctx.p, ctx.c, t, ctx.sib.(c := Red));
      && ctx.sib.p < |m| && Holds(Painted(m, ctx.sib.p, Red), ctx.up, t') && Deleting(ctx.up, t')
      && Inorder(Plug(ctx.up, t')) == Inorder(Plug(ctx, t)) && All(ctx.up, t') == All(ctx, t)
      && Step(m, Painted(m, ctx.sib.p, Red), All(ctx, t))
      && RootPtr(ctx.up, PtrOf(t')) == RootPtr(ctx, PtrOf(t))
  {
    hide Holds, Deleting, RB, CtxRB, BH;
    var wr := ctx.sib.(c := Red);
    PaintSibling(m, ctx, t, Red);
    FocusUp(Painted(m, ctx.sib.p, Red), ctx.(sib := wr), t);
    DeleteBlackNephews(ctx.side, ctx.p, ctx.c, ctx.sib, ctx.up, t);
    assert Inorder(wr) == Inorder(ctx.sib) && Nodes(wr) == Nodes(ctx.sib);
    SameOrder(ctx.up, Mk(ctx.side, ctx.p, ctx.c, t, ctx.sib), Mk(ctx.side, ctx.p, ctx.c, t, wr));
  }

  /** The sibling, its near child painted black and itself red. */
  function NearRedTree(ctx: Ctx): Tree
    requires ctx.Frame? && ctx.sib.Node? && Sub(ctx.sib, ctx.side).Node?
  {
    Mk(ctx.side, ctx.sib.p, Red, Sub(ctx.sib, ctx.side).(c := Black), Sub(ctx.sib, Other(ctx.side)))
  }

  lemma NearRedHolds(m: Mem, ctx: Ctx, t: Tree)
    requires Holds(m, ctx, t) && ctx.Frame? && ctx.sib.Node? && Sub(ctx.sib, ctx.side).Node?
    ensures ctx.sib.p < |m| && Child(m[ctx.sib.p], ctx.side) == Sub(ctx.sib, ctx.side).p < |m|
    ensures var sc := Frame(Other(ctx.side), ctx.p, ctx.c, t, ctx.up);
      var m' := Painted(Painted(m, Sub(ctx.sib, ctx.side).p, Black), ctx.sib.p, Red);
      && Holds(m', sc, NearRedTree(ctx)) && Step(m, m', All(ctx, t)) && m'[NIL] == m[NIL]
    ensures All(Frame(Other(ctx.side), ctx.p, ctx.c, t, ctx.up), NearRedTree(ctx)) == All(ctx, t)
    ensures Sub(NearRedTree(ctx), ctx.side).Node? && PtrOf(NearRedTree(ctx)) == ctx.sib.p
  {
    var s, w := ctx.side, ctx.sib;
    var n, far := Sub(w, s), Sub(w, Other(s));
    var sc := Frame(Other(s), ctx.p, ctx.c, t, ctx.up);
    HeldSibling(m, ctx, t);
    HeldChildren(m, sc, w, s);
    MkSub(w, s);
    FocusDown(m, sc, s, w.p, w.c, n, far);
    var nc := Frame(s, w.p, w.c, far, sc);
    PaintFocus(m, nc, n, Black);
    var m1 := Painted(m, n.p, Black);
    PaintParent(m1, nc, n.(c := Black), Red);
    FocusUp(Painted(m1, w.p, Red), nc.(c := Red), n.(c := Black));
    assert Nodes(n.(c := Black)) == Nodes(n);
    assert Nodes(w) == Nodes(n) + {w.p} + Nodes(far);
    assert All(nc, n) == All(ctx, t);
    assert All(nc, n.(c := Black)) == All(ctx, t);
  }

  lemma NearRedFocus(m: Mem, ctx: Ctx, t: Tree)
    requires Deleting(ctx, t) && ctx.Frame? && ctx.sib.Node? && ctx.sib.c == Black
    requires RootColor(Sub(ctx.sib, Other(ctx.side))) == Black && RootColor(Sub(ctx.sib, ctx.side)) == Red
    requires Sub(NearRedTree(ctx), ctx.side).Node?
    requires Holds(m, Frame(Other(ctx.side), ctx.p, ctx.c, t, ctx.up), RotateTree(NearRedTree(ctx), ctx.side))
    ensures var w' := RotateTree(NearRedTree(ctx), ctx.side);
      var ctx' := ctx.(sib := w');
      && w'.Node? && w'.c == Black && RootColor(Sub(w', Other(ctx.side))) == Red
      && Holds(m, ctx', t) && Deleting(ctx', t)
      && Inorder(Plug(ctx', t)) == Inorder(Plug(ctx, t)) && All(ctx', t) == All(ctx, t)
  {
    var s, w := ctx.side, ctx.sib;
    var w' := RotateTree(NearRedTree(ctx), s);
    DeleteNearRed(s, ctx.p, ctx.c, w, ctx.up, t);
    var sc := Frame(Other(s), ctx.p, ctx.c, t, ctx.up);
    HeldSibling(m, sc, w');
    RotateTreeInorder(NearRedTree(ctx), s);
    MkSub(w, s);
    assert Inorder(Sub(w, s).(c := Black)) == Inorder(Sub(w, s)) && Nodes(Sub(w, s).(c := Black)) == Nodes(Sub(w, s));
    assert Inorder(w') == Inorder(w) && Nodes(w') == Nodes(w);
    SameOrder(ctx.up, Mk(s, ctx.p, ctx.c, t, w), Mk(s, ctx.p, ctx.c, t, w'));
  }

  /** The parent painted black, the sibling in the parent's colour and the far nephew black. */
  function FarRedTree(ctx: Ctx, t: Tree): Tree
    requires ctx.Frame? && ctx.sib.Node? && Sub(ctx.sib, Other(ctx.side)).Node?
  {
    Mk(ctx.side, ctx.p, Black, t,
       Mk(ctx.side, ctx.sib.p, ctx.c, Sub(ctx.sib, ctx.side), Sub(ctx.sib, Other(ctx.side)).(c := Black)))
  }

  lemma FarRedHolds(m: Mem, ctx: Ctx, t: Tree)
    requires Holds(m, ctx, t) && ctx.Frame? && ctx.sib.Node? && Sub(ctx.sib, Other(ctx.side)).Node?
    ensures var w, f := ctx.sib.p, Sub(ctx.sib, Other(ctx.side)).p;
      && ctx.p < |m| && w < |m| && f < |m| && m[ctx.p].cor == ctx.c && w != ctx.p
      && Child(m[w], Other(ctx.side)) == f
      && Holds(Painted(Painted(Painted(m, w, ctx.c), ctx.p, Black), f, Black), ctx.up, FarRedTree(ctx, t))
      && Step(m, Painted(Painted(Painted(m, w, ctx.c), ctx.p, Black), f, Black), All(ctx, t))
    ensures All(ctx.up, FarRedTree(ctx, t)) == All(ctx, t)
    ensures Sub(FarRedTree(ctx, t), Other(ctx.side)).Node? && PtrOf(FarRedTree(ctx, t)) == ctx.p
  {
    hide Holds, Rep, RepCtx;
    var s, w := ctx.side, ctx.sib;
    var near, far := Sub(w, s), Sub(w, Other(s));
    HeldPointers(m, ctx, t);
    HeldSibling(m, ctx, t);
    HeldChildren(m, Frame(Other(s), ctx.p, ctx.c, t, ctx.up), w, Other(s));
    PaintSibling(m, ctx, t, ctx.c);
    var m1 := Painted(m, w.p, ctx.c);
    var c1 := ctx.(sib := w.(c := ctx.c));
    PaintParent(m1, c1, t, Black);
    var m2 := Painted(m1, ctx.p, Black);
    var c2 := c1.(c := Black);
    HeldSibling(m2, c2, t);
    var sc := Frame(Other(s), ctx.p, Black, t, ctx.up);
    MkSub(w.(c := ctx.c), Other(s));
    FocusDown(m2, sc, Other(s), w.p, ctx.c, far, near);
    var fc := Frame(Other(s), w.p, ctx.c, near, sc);
    PaintFocus(m2, fc, far, Black);
    var m3 := Painted(m2, far.p, Black);
    FocusUp(m3, fc, far.(c := Black));
    FocusUp(m3, sc, Mk(Other(s), w.p, ctx.c, far.(c := Black), near));
    assert Nodes(w) == Nodes(near) + {w.p} + Nodes(far);
    assert Nodes(far.(c := Black)) == Nodes(far);
    assert All(c1, t) == All(ctx, t);
    assert All(fc, far) == All(ctx, t);
  }

  lemma FarRedFocus(m: Mem, ctx: Ctx, t: Tree)
    requires Deleting(ctx, t) && RootColor(t) == Black && ctx.Frame? && ctx.sib.Node? && ctx.sib.c == Black
    requires RootColor(Sub(ctx.sib, Other(ctx.side))) == Red
    requires Sub(FarRedTree(ctx, t), Other(ctx.side)).Node?
    requires Holds(m, ctx.up, RotateTree(FarRedTree(ctx, t), Other(ctx.side)))
    ensures var t' := RotateTree(FarRedTree(ctx, t), Other(ctx.side));
      var novo := Plug(ctx.up, t');
      && Holds(m, Top, novo) && RedBlack(novo) && Inorder(novo) == Inorder(Plug(ctx, t))
    ensures ctx.p < |m| && m[ctx.p].cor == Black
    ensures RootPtr(ctx, PtrOf(t)) < |m| && m[RootPtr(ctx, PtrOf(t))].cor == Black
  {
    var s, w := ctx.side, ctx.sib;
    var t0 := FarRedTree(ctx, t);
    var t' := RotateTree(t0, Other(s));
    var novo := Plug(ctx.up, t');
    DeleteFarRed(s, ctx.p, ctx.c, w, ctx.up, t);
    FocusRoot(m, ctx.up, t');
    HeldPointers(m, Top, novo);
    RootPtrPlug(ctx.up, t');
    var pt, far := Mk(s, ctx.p, Black, t, Sub(w, s)), Sub(w, Other(s)).(c := Black);
    FocusDown(m, ctx.up, s, w.p, ctx.c, pt, far);
    HeldPointers(m, Frame(s, w.p, ctx.c, far, ctx.up), pt);
    RotateTreeInorder(t0, Other(s));
    MkSub(w, s);
    assert Inorder(far) == Inorder(Sub(w, Other(s)));
    assert Inorder(t0) == Inorder(Mk(s, ctx.p, ctx.c, t, w));
    SameOrder(ctx.up, Mk(s, ctx.p, ctx.c, t, w), t');
    assert ctx.up.Frame? ==> RootPtr(ctx, PtrOf(t)) == RootPtr(ctx.up, w.p);
  }

  /** The end of the loop: the focus is red, or it is the whole tree. */
  lemma DeleteEnd(m: Mem, ctx: Ctx, t: Tree, raiz: Ptr)
    requires Holds(m, ctx, t) && Deleting(ctx, t) && PtrOf(t) < |m| && m[PtrOf(t)].cor == RootColor(t)
    requires RootColor(t) == Red || (RootPtr(ctx, PtrOf(t)) == raiz == PtrOf(t))
    ensures Holds(Painted(m, PtrOf(t), Black), Top, Plug(ctx, Blacken(t))) && RedBlack(Plug(ctx, Blacken(t)))
    ensures Inorder(Plug(ctx, Blacken(t))) == Inorder(Plug(ctx, t))
    ensures Step(m, Painted(m, PtrOf(t), Black), All(ctx, t))
  {
    RootPtrPlug(ctx, t);
    HeldPointers(m, ctx, t);
    assert ctx.Frame? ==> RootPtr(ctx, PtrOf(t)) in All(ctx, t);
    assert t.Node? ==> t.p in Nodes(t);
    assert RootColor(t) == Black ==> ctx.Top?;
    DeleteDone(ctx, t);
    if t.Node? {
      PaintFocus(m, ctx, t, Black);
      FocusRoot(Painted(m, t.p, Black), ctx, Blacken(t));
      assert Inorder(Blacken(t)) == Inorder(t);
      SameOrder(ctx, t, Blacken(t));
    } else {
      assert Painted(m, PtrOf(t), Black) == m;
      FocusRoot(m, ctx, t);
    }
  }

  lemma RootPtrLower(ctx: Ctx, ctx': Ctx, h: Ptr)
    requires ctx.Frame? && ctx'.Frame? && ctx'.p == ctx.p && ctx'.up.Frame? && ctx'.up.up == ctx.up
    ensures RootPtr(ctx, h) == ctx.p || RootPtr(ctx', h) == RootPtr(ctx, h)
  {
    assert RootPtr(ctx', h) == RootPtr(ctx'.up, ctx.p) == RootPtr(ctx.up, ctx'.up.p);
  }

  /** Painting a red sibling black and the parent red. */
  lemma RedSiblingHolds(m: Mem, ctx: Ctx, t: Tree)
    requires Holds(m, ctx, t) && Deleting(ctx, t) && RootColor(t) == Black
    requires ctx.Frame? && ctx.sib.Node? && ctx.sib.c == Red
    ensures ctx.sib.p < |m| && ctx.p < |m|
    ensures var wb := ctx.sib.(c := Black);
      var m' := Painted(Painted(m, ctx.sib.p, Black), ctx.p, Red);
      && Holds(m', ctx.up, Mk(ctx.side, ctx.p, Red, t, wb))
      && Step(m, m', All(ctx, t)) && m'[NIL] == m[NIL]
    ensures All(ctx.up, Mk(ctx.side, ctx.p, Red, t, ctx.sib.(c := Black))) == All(ctx, t)
  {
    var wb := ctx.sib.(c := Black);
    PaintSibling(m, ctx, t, Black);
    var m1 := Painted(m, ctx.sib.p, Black);
    PaintParent(m1, ctx.(sib := wb), t, Red);
    FocusUp(Painted(m1, ctx.p, Red), ctx.(sib := wb, c := Red), t);
    assert All(ctx.(sib := wb), t) == All(ctx, t);
  }

  /** The focus after the rotation with a red sibling. */
  lemma RedSiblingFocus(m: Mem, ctx: Ctx, t: Tree)
    requires Deleting(ctx, t) && RootColor(t) == Black
    requires ctx.Frame? && ctx.sib.Node? && ctx.sib.c == Red
    requires var t0 := Mk(ctx.side, ctx.p, Red, t, ctx.sib.(c := Black));
      Holds(m, ctx.up, RotateTree(t0, Other(ctx.side)))
    ensures var w, s := ctx.sib, ctx.side;
      var ctx' := Frame(s, ctx.p, Red, Sub(w, s), Frame(s, w.p, Black, Sub(w, Other(s)), ctx.up));
      && Holds(m, ctx', t) && Deleting(ctx', t) && Sub(w, s).Node? && Sub(w, s).c == Black
      && Inorder(Plug(ctx', t)) == Inorder(Plug(ctx, t)) && All(ctx', t) == All(ctx, t)
  {
    hide Holds, RB, CtxRB, BH;
    var w, s := ctx.sib, ctx.side;
    var t0 := Mk(s, ctx.p, Red, t, w.(c := Black));
    SiblingExists(ctx, t);
    DeleteRedSibling(s, ctx.p, w, ctx.up, t);
    FocusDown(m, ctx.up, s, w.p, Black, Mk(s, ctx.p, Red, t, Sub(w, s)), Sub(w, Other(s)));
    FocusDown(m, Frame(s, w.p, Black, Sub(w, Other(s)), ctx.up), s, ctx.p, Red, t, Sub(w, s));
    RotateTreeInorder(t0, Other(s));
    assert Inorder(t0) == Inorder(Mk(s, ctx.p, ctx.c, t, w));
    SameOrder(ctx.up, Mk(s, ctx.p, ctx.c, t, w), RotateTree(t0, Other(s)));
  }

  /** A cell added at the end of the store. */
  lemma FreshNode(m: Mem, m': Mem, tree: Tree)
    requires Holds(m, Top, tree) && |m'| == |m| + 1 && forall q :: 0 <= q < |m| ==> m'[q] == m[q]
    ensures Holds(m', Top, tree) && |m| !in Nodes(tree)
    ensures Items(m', Inorder(tree)) == Items(m, Inorder(tree))
    ensures AtLeast(m, Inorder(tree), 0) ==> AtLeast(m', Inorder(tree), 0)
  {
    RepBound(m, RAIZ, tree);
    RepFrame(m, m', RAIZ, tree);
    KeptItems(m, m', tree);
  }

  lemma TreePointers(m: Mem, tree: Tree)
    requires Holds(m, Top, tree)
    ensures Sentinels(m) && forall q :: q in Inorder(tree) ==> RAIZ < q < |m| && q in Nodes(tree)
    ensures forall q :: q in Nodes(tree) ==> RAIZ < q < |m|
    ensures tree.Node? ==> Inorder(tree) != []
  {
    HeldPointers(m, Top, tree);
    assert All(Top, tree) == Nodes(tree);
    forall q | q in Inorder(tree) ensures q in Nodes(tree) { InorderNodes(tree, q); }
  }

  lemma StartInserting(ctx: Ctx, x: Ptr)
    requires RedBlack(Plug(ctx, Leaf))
    ensures Inserting(ctx, Node(Leaf, x, Red, Leaf))
  {
    UnplugRB(ctx, Leaf);
  }

  lemma LeafOrder(ctx: Ctx, x: Ptr)
    ensures Inorder(Plug(ctx, Leaf)) == Before(ctx) + After(ctx)
    ensures Inorder(Plug(ctx, Node(Leaf, x, Red, Leaf))) == Before(ctx) + [x] + After(ctx)
  {
    PlugInorder(ctx, Leaf);
    PlugInorder(ctx, Node(Leaf, x, Red, Leaf));
    assert Before(ctx) + [] + After(ctx) == Before(ctx) + After(ctx);
    assert [] + [x] + [] == [x];
  }

  /** What an insertion does to the items. */
  lemma InsertedOrder(m0: Mem, m1: Mem, m: Mem, tree: Tree, ctx: Ctx, x: Ptr, novo: Tree)
    requires Plug(ctx, Leaf) == tree && Inorder(novo) == Inorder(Plug(ctx, Node(Leaf, x, Red, Leaf)))
    requires AtMost(m1, Before(ctx), Key(m1, x)) && AtLeast(m1, After(ctx), Key(m1, x) + 1)
    requires SameKeys(m1, m)
    requires Items(m1, Inorder(tree)) == Items(m0, Inorder(tree)) && AtLeast(m1, Inorder(tree), 0) && Key(m1, x) >= 0
    ensures Items(m, Inorder(novo)) == Insere(Items(m0, Inorder(tree)), ItemAt(m1, x))
    ensures AtLeast(m, Inorder(novo), 0)
    ensures Inorder(novo) == Before(ctx) + [x] + After(ctx) && Inorder(tree) == Before(ctx) + After(ctx)
    ensures AtMost(m, Before(ctx), Key(m, x)) && AtLeast(m, After(ctx), Key(m, x) + 1) && AtLeast(m, Before(ctx), 0)
  {
    hide Items, Insere, Inorder, Plug, Before, After;
    LeafOrder(ctx, x);
    InsereNodes(m1, Before(ctx), x, After(ctx));
    StepItems(m1, m, Inorder(novo));
    SameKeysBounds(m1, m, Before(ctx), After(ctx), Key(m1, x));
    AtLeastConcat(m1, Before(ctx), After(ctx), 0);
    AtLeastConcat(m1, Before(ctx), [x], 0);
    AtLeastConcat(m1, Before(ctx) + [x], After(ctx), 0);
    assert forall q :: Key(m, q) == Key(m1, q);
  }

  /** The cached minimum after an insertion. */
  lemma InsertedMinimum(m: Mem, tree: Tree, ctx: Ctx, x: Ptr, minimo: Ptr)
    requires Sentinels(m) && x < |m| && m[x].chave >= 0
    requires Inorder(tree) == Before(ctx) + After(ctx)
    requires AtMost(m, Before(ctx), Key(m, x)) && AtLeast(m, After(ctx), Key(m, x) + 1) && AtLeast(m, Before(ctx), 0)
    requires forall q :: q in Inorder(tree) ==> RAIZ < q < |m|
    requires tree.Leaf? ==> minimo == NULO || minimo == RAIZ
    requires tree.Node? ==> Inorder(tree) != [] && minimo == Inorder(tree)[0]
    ensures minimo < |m|
    ensures var first := (Before(ctx) + [x] + After(ctx))[0];
      first == if minimo == NULO || Comparar(m[minimo].chave, m[x].chave) == 1 then x else minimo
  {
    if tree.Node? {
      assert minimo in Inorder(tree);
      if Before(ctx) == [] {
        assert minimo == After(ctx)[0] && minimo in After(ctx);
      } else {
        assert minimo == Before(ctx)[0] && minimo in Before(ctx);
      }
    }
  }

  /** What the code reads around a red node with a red parent. */
  lemma UncleFacts(m: Mem, ctx: Ctx, t: Tree)
    requires Holds(m, ctx, t) && Inserting(ctx, t) && ctx.Frame? && ctx.c == Red
    ensures ctx.up.Frame? && m[t.p].pai == ctx.p < |m| && m[ctx.p].pai == ctx.up.p < |m| && RAIZ < ctx.up.p
    ensures m[ctx.up.p].esq == ctx.p <==> ctx.up.side == Esq
    ensures Child(m[ctx.up.p], Other(ctx.up.side)) == PtrOf(ctx.up.sib) < |m|
    ensures m[PtrOf(ctx.up.sib)].cor == RootColor(ctx.up.sib)
  {
    var pt := Mk(ctx.side, ctx.p, Red, t, ctx.sib);
    HeldPointers(m, ctx, t);
    FocusUp(m, ctx, t);
    HeldPointers(m, ctx.up, pt);
    HeldSibling(m, ctx.up, pt);
    SideTest(m, ctx.up, pt);
  }

  /** The code's test for a focus that hangs inwards. */
  lemma InnerTest(m: Mem, ctx: Ctx, t: Tree)
    requires Holds(m, ctx, t) && t.Node? && ctx.Frame? && ctx.up.Frame?
    ensures ctx.p < |m| && (t.p == Child(m[ctx.p], Other(ctx.up.side)) <==> ctx.side == Other(ctx.up.side))
  {
    SideTest(m, ctx, t);
    HeldSibling(m, ctx, t);
    if ctx.sib.Node? { assert t.p in Nodes(t) && ctx.sib.p in CtxNodes(ctx); }
    HeldPointers(m, ctx, t);
  }

  function Recolored(ctx: Ctx, t: Tree): Tree
    requires ctx.Frame? && ctx.up.Frame? && ctx.up.sib.Node?
  {
    Mk(ctx.up.side, ctx.up.p, Red, Mk(ctx.side, ctx.p, Black, t, ctx.sib), ctx.up.sib.(c := Black))
  }

  /** Painting the parent and uncle of the focus black and the grandparent red. */
  lemma RecolorHolds(m: Mem, ctx: Ctx, t: Tree)
    requires Holds(m, ctx, t) && Inserting(ctx, t) && ctx.Frame? && ctx.c == Red
    requires ctx.up.Frame? && ctx.up.sib.Node? && ctx.up.sib.c == Red
    ensures ctx.p < |m| && ctx.up.p < |m| && ctx.up.sib.p < |m|
    ensures var m' := Painted(Painted(Painted(m, ctx.p, Black), ctx.up.sib.p, Black), ctx.up.p, Red);
      Holds(m', ctx.up.up, Recolored(ctx, t)) && SameKeys(m, m')
    ensures Inserting(ctx.up.up, Recolored(ctx, t))
    ensures Inorder(Plug(ctx.up.up, Recolored(ctx, t))) == Inorder(Plug(ctx, t))
  {
    InsertRecolor(ctx.side, ctx.p, ctx.sib, ctx.up.side, ctx.up.p, ctx.up.sib, ctx.up.up, t);
    RecolorOrder(ctx, t);
    PaintParent(m, ctx, t, Black);
    var m1 := Painted(m, ctx.p, Black);
    var pb, ub := Mk(ctx.side, ctx.p, Black, t, ctx.sib), ctx.up.sib.(c := Black);
    FocusUp(m1, ctx.(c := Black), t);
    PaintSibling(m1, ctx.up, pb, Black);
    var m2 := Painted(m1, ctx.up.sib.p, Black);
    PaintParent(m2, ctx.up.(sib := ub), pb, Red);
    FocusUp(Painted(m2, ctx.up.p, Red), ctx.up.(sib := ub, c := Red), pb);
  }

  lemma RecolorOrder(ctx: Ctx, t: Tree)
    requires ctx.Frame? && ctx.up.Frame? && ctx.up.sib.Node?
    ensures Inorder(Plug(ctx.up.up, Recolored(ctx, t))) == Inorder(Plug(ctx, t))
  {
    var pt, pb := Mk(ctx.side, ctx.p, ctx.c, t, ctx.sib), Mk(ctx.side, ctx.p, Black, t, ctx.sib);
    assert Inorder(pt) == Inorder(pb) && Inorder(ctx.up.sib.(c := Black)) == Inorder(ctx.up.sib);
    SameOrder(ctx.up.up, Mk(ctx.up.side, ctx.up.p, ctx.up.c, pt, ctx.up.sib), Recolored(ctx, t));
  }

  /** The first of two rotations keeps the order and makes the focus hang outwards. */
  lemma InnerOrder(ctx: Ctx, t: Tree)
    requires Inserting(ctx, t) && ctx.Frame? && ctx.c == Red && ctx.up.Frame? && ctx.side == Other(ctx.up.side)
    ensures var s := ctx.up.side;
      var t' := Mk(s, ctx.p, Red, ctx.sib, Sub(t, s));
      var ctx' := Frame(s, t.p, Red, Sub(t, ctx.side), ctx.up);
      && Inserting(ctx', t') && Inorder(Plug(ctx', t')) == Inorder(Plug(ctx, t))
      && RotateTree(Mk(ctx.side, ctx.p, Red, t, ctx.sib), ctx.side) == Mk(s, t.p, Red, t', Sub(t, ctx.side))
  {
    var pt := Mk(ctx.side, ctx.p, Red, t, ctx.sib);
    InsertInner(ctx.side, ctx.p, ctx.sib, ctx.up.p, ctx.up.sib, ctx.up.up, t);
    RotateTreeInorder(pt, ctx.side);
    SameOrder(ctx.up, pt, RotateTree(pt, ctx.side));
  }

  function OuterTree(ctx: Ctx, t: Tree): Tree
    requires ctx.Frame? && ctx.up.Frame?
  {
    Mk(ctx.up.side, ctx.up.p, Red, Mk(ctx.side, ctx.p, Black, t, ctx.sib), ctx.up.sib)
  }

  /** Painting the parent black and the grandparent red before the last rotation. */
  lemma OuterHolds(m: Mem, ctx: Ctx, t: Tree)
    requires Holds(m, ctx, t) && t.Node? && ctx.Frame? && ctx.up.Frame?
    ensures t.p < |m| && m[t.p].pai == ctx.p < |m| && m[ctx.p].pai == ctx.up.p < |m|
    ensures var m' := Painted(Painted(m, ctx.p, Black), ctx.up.p, Red);
      Holds(m', ctx.up.up, OuterTree(ctx, t)) && SameKeys(m, m')
  {
    HeldPointers(m, ctx, t);
    PaintParent(m, ctx, t, Black);
    var m1 := Painted(m, ctx.p, Black);
    var pb := Mk(ctx.side, ctx.p, Black, t, ctx.sib);
    FocusUp(m1, ctx.(c := Black), t);
    PaintParent(m1, ctx.up, pb, Red);
    FocusUp(Painted(m1, ctx.up.p, Red), ctx.up.(c := Red), pb);
  }

  /** The last rotation keeps the order and ends the violation. */
  lemma OuterOrder(ctx: Ctx, t: Tree)
    requires Inserting(ctx, t) && ctx.Frame? && ctx.c == Red && ctx.up.Frame?
    requires ctx.side == ctx.up.side && RootColor(ctx.up.sib) == Black
    ensures var s := ctx.side;
      var gt := Mk(Other(s), ctx.up.p, Red, ctx.up.sib, ctx.sib);
      var ctx' := Frame(s, ctx.p, Black, gt, ctx.up.up);
      && Inserting(ctx', t) && Inorder(Plug(ctx', t)) == Inorder(Plug(ctx, t))
      && Sub(OuterTree(ctx, t), s).Node? && RotateTree(OuterTree(ctx, t), s) == Mk(s, ctx.p, Black, t, gt)
  {
    var s := ctx.side;
    InsertOuter(s, ctx.p, ctx.sib, ctx.up.p, ctx.up.sib, ctx.up.up, t);
    RotateTreeInorder(OuterTree(ctx, t), s);
    assert Inorder(Mk(s, ctx.p, Black, t, ctx.sib)) == Inorder(Mk(s, ctx.p, Red, t, ctx.sib));
    SameOrder(ctx.up.up, Mk(s, ctx.up.p, Black, Mk(s, ctx.p, Red, t, ctx.sib), ctx.up.sib), RotateTree(OuterTree(ctx, t), s));
  }

  /** The end of an insertion: painting the root black meets every rule. */
  lemma PaintRoot(m: Mem, ctx: Ctx, t: Tree) returns (novo: Tree)
    requires Holds(m, ctx, t) && Inserting(ctx, t) && (ctx.Frame? ==> ctx.c == Black)
    ensures RAIZ < |m| && m[RAIZ].esq < |m|
    ensures Holds(Painted(m, m[RAIZ].esq, Black), Top, novo) && RedBlack(novo) && novo.Node?
    ensures Inorder(novo) == Inorder(Plug(ctx, t))
    ensures SameKeys(m, Painted(m, m[RAIZ].esq, Black))
  {
    FocusRoot(m, ctx, t);
    var whole := Plug(ctx, t);
    PlugNodes(ctx, t);
    assert t.p in Nodes(whole);
    PaintFocus(m, Top, whole, Black);
    novo := whole.(c := Black);
    if ctx.Frame? {
      PlugRB(ctx, t);
      assert novo == whole;
    }
  }

  lemma SameKeysBounds(m: Mem, m': Mem, a: seq<Ptr>, b: seq<Ptr>, k: int)
    requires SameKeys(m, m') && AtMost(m, a, k) && AtLeast(m, b, k + 1)
    ensures AtMost(m', a, k) && AtLeast(m', b, k + 1)
  {
    assert forall q :: Key(m', q) == Key(m, q);
  }

  /** How far the search for the place of key `k` has come. */
  ghost predicate Descent(m: Mem, tree: Tree, ctx: Ctx, t: Tree, k: int) {
    && Holds(m, ctx, t) && Plug(ctx, t) == tree
    && Sorted(Items(m, Inorder(tree))) && AtLeast(m, Inorder(tree), 0)
    && AtMost(m, Before(ctx), k) && AtLeast(m, After(ctx), k + 1)
    && (ctx.Frame? ==> Key(m, ctx.p) >= 0 && (ctx.side == Esq <==> Key(m, ctx.p) > k))
  }

  lemma DescentStep(m: Mem, tree: Tree, ctx: Ctx, t: Tree, k: int)
    requires Descent(m, tree, ctx, t, k) && t.Node?
    ensures Key(m, t.p) >= 0
    ensures Key(m, t.p) > k ==> Descent(m, tree, Frame(Esq, t.p, t.c, t.r, ctx), t.l, k)
    ensures Key(m, t.p) <= k ==> Descent(m, tree, Frame(Dir, t.p, t.c, t.l, ctx), t.r, k)
  {
    CutAt(m, ctx, t, k);
    FocusDown(m, ctx, Esq, t.p, t.c, t.l, t.r);
    FocusDown(m, ctx, Dir, t.p, t.c, t.r, t.l);
  }

  lemma KeptSequence(m: Mem, m': Mem, s: seq<Ptr>)
    requires forall q :: q in s ==> ItemAt(m', q) == ItemAt(m, q)
    ensures Items(m', s) == Items(m, s)
    ensures AtLeast(m, s, 0) ==> AtLeast(m', s, 0)
  {
    assert forall i :: 0 <= i < |s| ==> s[i] in s;
    ItemsSame(m, m', s);
  }

  lemma KeptItems(m: Mem, m': Mem, tree: Tree)
    requires forall q :: q in Nodes(tree) ==> q < |m| && q < |m'| && m'[q] == m[q]
    ensures Items(m', Inorder(tree)) == Items(m, Inorder(tree))
    ensures AtLeast(m, Inorder(tree), 0) ==> AtLeast(m', Inorder(tree), 0)
  {
    forall q | q in Inorder(tree) ensures ItemAt(m', q) == ItemAt(m, q) { InorderNodes(tree, q); }
    KeptSequence(m, m', Inorder(tree));
  }

  /** Writing to a cell outside the tree. */
  lemma FreshCell(m: Mem, m': Mem, tree: Tree, z: Ptr)
    requires Holds(m, Top, tree) && RAIZ < z < |m| && z !in Nodes(tree)
    requires |m'| == |m| && forall q :: 0 <= q < |m| && q != z ==> m'[q] == m[q]
    ensures Holds(m', Top, tree)
    ensures Items(m', Inorder(tree)) == Items(m, Inorder(tree))
    ensures AtLeast(m, Inorder(tree), 0) ==> AtLeast(m', Inorder(tree), 0)
  {
    RepBound(m, RAIZ, tree);
    RepFrame(m, m', RAIZ, tree);
    KeptItems(m, m', tree);
  }

  /** Going left of `t` puts its root and right subtree after the key; going right puts its root
      and left subtree before it. */
  lemma CutAt(m: Mem, ctx: Ctx, t: Tree, k: int)
    requires t.Node?
    requires Sorted(Items(m, Inorder(Plug(ctx, t))))
    requires AtMost(m, Before(ctx), k) && AtLeast(m, After(ctx), k + 1)
    ensures t.p in Inorder(Plug(ctx, t))
    ensures Key(m, t.p) > k ==> AtLeast(m, After(Frame(Esq, t.p, t.c, t.r, ctx)), k + 1)
    ensures Key(m, t.p) <= k ==> AtMost(m, Before(Frame(Dir, t.p, t.c, t.l, ctx)), k)
  {
    PlugInorder(ctx, t);
    var bf, l, p, r, af := Before(ctx), Inorder(t.l), [t.p], Inorder(t.r), After(ctx);
    RegroupMiddle(bf, l, p, r, af);
    assert t.p in Inorder(Plug(ctx, t)) by { assert (bf + l + p + (r + af))[|bf + l|] == t.p; }
    SortedAround(m, bf + l, t.p, r + af);
    AtMostConcat(m, bf, l, Key(m, t.p));
    AtLeastConcat(m, r, af, Key(m, t.p));
    if Key(m, t.p) > k {
      AtLeastConcat(m, p, r, k + 1);
      AtLeastConcat(m, p + r, af, k + 1);
    } else {
      AtMostConcat(m, bf, l, k);
      AtMostConcat(m, bf + l, p, k);
    }
  }

  /** Linking a fresh red node where the context ends. */
  lemma HangLeaf(m: Mem, m': Mem, ctx: Ctx, z: Ptr)
    requires Holds(m, ctx, Leaf) && RAIZ < z < |m| && z !in CtxNodes(ctx) && Parent(ctx) < |m|
    requires m[z].esq == NIL && m[z].dir == NIL && m[z].cor == Red
    requires var side := if ctx.Top? then Esq else ctx.side;
      m' == m[z := m[z].(pai := Parent(ctx))][Parent(ctx) :=
        if side == Esq then m[Parent(ctx)].(esq := z) else m[Parent(ctx)].(dir := z)]
    requires z != Parent(ctx)
    ensures Holds(m', ctx, Node(Leaf, z, Red, Leaf)) && SameKeys(m, m')
  {
    if ctx.Frame? {
      CtxBound(m, ctx, NIL);
      RepFrame(m, m', ctx.p, ctx.sib);
      CtxFrame(m, m', ctx.up, ctx.p);
    }
  }
}
