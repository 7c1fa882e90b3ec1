/** What the colour changes and rotations of one repair step do to the node store. */
module RedBlackSteps {
  import opened RedBlackShape
  import opened RedBlackMemory
  import opened RedBlackRepair

  function Painted(m: Mem, q: Ptr, c: Color): Mem
    requires q < |m|
  {
    m[q := m[q].(cor := c)]
  }

  /** Keys, contents and the size of the store are the same; only links and colours may differ,
      and only inside `s`. */
  predicate SameKeys(m: Mem, m': Mem) {
    |m'| == |m| && forall q :: 0 <= q < |m| ==> m'[q].chave == m[q].chave && m'[q].elem == m[q].elem && m'[q].tid == m[q].tid
  }

  /** Nodes that are not in the tree keep their cells. */
  predicate Outside(m: Mem, m': Mem, s: set<Ptr>) {
    |m'| == |m| && forall q :: 0 <= q < |m| && q != RAIZ && q !in s ==> m'[q] == m[q]
  }

  predicate Step(m: Mem, m': Mem, s: set<Ptr>) {
    SameKeys(m, m') && Outside(m, m', s)
  }

  lemma SameKeysRefl(m: Mem)
    ensures SameKeys(m, m)
  {
  }

  lemma SameKeysTrans(m1: Mem, m2: Mem, m3: Mem)
    requires SameKeys(m1, m2) && SameKeys(m2, m3)
    ensures SameKeys(m1, m3)
  {
  }

  lemma StepRefl(m: Mem, s: set<Ptr>)
    ensures Step(m, m, s)
  {
  }

  lemma StepTrans(m1: Mem, m2: Mem, m3: Mem, s: set<Ptr>)
    requires Step(m1, m2, s) && Step(m2, m3, s)
    ensures Step(m1, m3, s)
  {
  }

  function All(ctx: Ctx, t: Tree): set<Ptr> {
    CtxNodes(ctx) + Nodes(t)
  }

  lemma HeldPointers(m: Mem, ctx: Ctx, t: Tree)
    requires Holds(m, ctx, t)
    ensures forall q :: q in All(ctx, t) ==> RAIZ < q < |m|
    ensures PtrOf(t) < |m| && Parent(ctx) < |m|
    ensures ctx.Frame? ==> RAIZ < ctx.p < |m| && m[ctx.p].cor == ctx.c && m[ctx.p].pai == Parent(ctx.up) < |m|
    ensures ctx.Top? ==> m[Parent(ctx)].cor == Black
    ensures t.Node? ==> RAIZ < t.p < |m| && m[t.p].cor == t.c && m[t.p].pai == Parent(ctx)
    ensures t.Node? ==> m[t.p].esq == PtrOf(t.l) < |m| && m[t.p].dir == PtrOf(t.r) < |m|
    ensures t.Node? ==> (m[t.p].esq == NIL <==> t.l.Leaf?) && (m[t.p].dir == NIL <==> t.r.Leaf?)
    ensures t.Leaf? ==> m[PtrOf(t)].cor == Black
  {
    CtxBound(m, ctx, PtrOf(t));
    RepBound(m, Parent(ctx), t);
    if ctx.Frame? { CtxBound(m, ctx.up, ctx.p); }
    if t.Node? { RepBound(m, t.p, t.l); RepBound(m, t.p, t.r); }
    if ctx.Frame? && ctx.up.Frame? { assert ctx.up.p in CtxNodes(ctx); }
  }

  /** Both children of a held node, as the code reads their colours. */
  lemma HeldChildren(m: Mem, ctx: Ctx, t: Tree, side: Side)
    requires Holds(m, ctx, t) && t.Node?
    ensures Child(m[t.p], side) == PtrOf(Sub(t, side)) < |m|
    ensures m[Child(m[t.p], side)].cor == RootColor(Sub(t, side))
  {
    MkSub(t, side);
    FocusDown(m, ctx, side, t.p, t.c, Sub(t, side), Sub(t, Other(side)));
    HeldPointers(m, Frame(side, t.p, t.c, Sub(t, Other(side)), ctx), Sub(t, side));
  }

  /** The sibling of the focus. */
  lemma HeldSibling(m: Mem, ctx: Ctx, t: Tree)
    requires Holds(m, ctx, t) && ctx.Frame?
    ensures RAIZ < ctx.p < |m| && Child(m[ctx.p], Other(ctx.side)) == PtrOf(ctx.sib) < |m|
    ensures m[PtrOf(ctx.sib)].cor == RootColor(ctx.sib)
    ensures Holds(m, Frame(Other(ctx.side), ctx.p, ctx.c, t, ctx.up), ctx.sib)
  {
    FocusUp(m, ctx, t);
    FocusDown(m, ctx.up, Other(ctx.side), ctx.p, ctx.c, ctx.sib, t);
    HeldPointers(m, Frame(Other(ctx.side), ctx.p, ctx.c, t, ctx.up), ctx.sib);
  }

  /** The code's test for the side on which the focus hangs. */
  lemma SideTest(m: Mem, ctx: Ctx, t: Tree)
    requires Holds(m, ctx, t) && ctx.Frame? && (t.Node? || ctx.sib.Node?)
    ensures RAIZ < ctx.p < |m| && (m[ctx.p].esq == PtrOf(t) <==> ctx.side == Esq)
  {
    HeldSibling(m, ctx, t);
    if t.Node? && ctx.sib.Node? { assert t.p in Nodes(t) && ctx.sib.p in CtxNodes(ctx); }
    HeldPointers(m, ctx, t);
    HeldPointers(m, Frame(Other(ctx.side), ctx.p, ctx.c, t, ctx.up), ctx.sib);
  }

  lemma PaintFocus(m: Mem, ctx: Ctx, t: Tree, c: Color)
    requires Holds(m, ctx, t) && t.Node?
    ensures t.p < |m| && Holds(Painted(m, t.p, c), ctx, t.(c := c))
    ensures Step(m, Painted(m, t.p, c), All(ctx, t))
    ensures Painted(m, t.p, c)[NIL] == m[NIL]
  {
    Paint(m, ctx, t, c);
  }

  lemma PaintParent(m: Mem, ctx: Ctx, t: Tree, c: Color)
    requires Holds(m, ctx, t) && ctx.Frame?
    ensures ctx.p < |m| && Holds(Painted(m, ctx.p, c), ctx.(c := c), t)
    ensures Step(m, Painted(m, ctx.p, c), All(ctx, t))
    ensures Painted(m, ctx.p, c)[NIL] == m[NIL]
  {
    hide Holds;
    FocusUp(m, ctx, t);
    var pt := Mk(ctx.side, ctx.p, ctx.c, t, ctx.sib);
    PaintFocus(m, ctx.up, pt, c);
    FocusDown(Painted(m, ctx.p, c), ctx.up, ctx.side, ctx.p, c, t, ctx.sib);
    assert pt.(c := c) == Mk(ctx.side, ctx.p, c, t, ctx.sib);
    assert All(ctx.up, pt) == All(ctx, t);
  }

  lemma PaintSibling(m: Mem, ctx: Ctx, t: Tree, c: Color)
    requires Holds(m, ctx, t) && ctx.Frame? && ctx.sib.Node?
    ensures ctx.sib.p < |m| && Holds(Painted(m, ctx.sib.p, c), ctx.(sib := ctx.sib.(c := c)), t)
    ensures Step(m, Painted(m, ctx.sib.p, c), All(ctx, t))
    ensures Painted(m, ctx.sib.p, c)[NIL] == m[NIL]
  {
    HeldSibling(m, ctx, t);
    var sc := Frame(Other(ctx.side), ctx.p, ctx.c, t, ctx.up);
    PaintFocus(m, sc, ctx.sib, c);
    var m' := Painted(m, ctx.sib.p, c);
    HeldSibling(m', sc, ctx.sib.(c := c));
    assert All(sc, ctx.sib) == All(ctx, t);
  }

  /** A rotation at the focus. */
  lemma RotateFocus(m: Mem, ctx: Ctx, t: Tree, away: Side)
    requires Holds(m, ctx, t) && t.Node? && Sub(t, away).Node?
    ensures t.p < |m| && Child(m[t.p], away) < |m| && m[t.p].pai < |m|
    ensures Child(m[Child(m[t.p], away)], Other(away)) < |m|
    ensures Holds(Rotated(m, t.p, away), ctx, RotateTree(t, away))
    ensures Step(m, Rotated(m, t.p, away), All(ctx, t))
    ensures Rotated(m, t.p, away)[NIL] == m[NIL]
  {
    var y := Sub(t, away);
    var outer, mid, far := Sub(t, Other(away)), Sub(y, Other(away)), Sub(y, away);
    MkSub(t, Other(away));
    MkSub(y, Other(away));
    RotateHolds(m, ctx, away, t.p, t.c, y.p, y.c, outer, mid, far);
    var m' := Rotated(m, t.p, away);
    assert y.p in Nodes(t) && t.p in Nodes(t);
    assert mid.Node? ==> mid.p in Nodes(mid) && Nodes(mid) <= Nodes(y) <= Nodes(t);
    assert ctx.Frame? ==> ctx.p in CtxNodes(ctx);
    if mid.Leaf? { assert m'[NIL] == m[NIL]; }
  }
}
