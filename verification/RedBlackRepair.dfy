/** The two repair arguments of red-black trees on shapes: the red-red violation that an insertion
    moves towards the root, and the missing black node that a deletion moves towards the root. */
module RedBlackRepair {
  import opened RedBlackShape
  import opened RedBlackMemory

  function Sub(t: Tree, side: Side): Tree
    requires t.Node?
  {
    if side == Esq then t.l else t.r
  }

  lemma MkSub(t: Tree, side: Side)
    requires t.Node?
    ensures t == Mk(side, t.p, t.c, Sub(t, side), Sub(t, Other(side)))
  {
  }

  /** The shape after rotating at the root of `t`: the child on side `away` becomes the root. */
  function RotateTree(t: Tree, away: Side): Tree
    requires t.Node? && Sub(t, away).Node?
  {
    var y := Sub(t, away);
    Mk(Other(away), y.p, y.c, Mk(Other(away), t.p, t.c, Sub(t, Other(away)), Sub(y, Other(away))), Sub(y, away))
  }

  lemma RotateTreeInorder(t: Tree, away: Side)
    requires t.Node? && Sub(t, away).Node?
    ensures Inorder(RotateTree(t, away)) == Inorder(t)
    ensures Nodes(RotateTree(t, away)) == Nodes(t)
  {
    var y := Sub(t, away);
    var o, m, f := Inorder(Sub(t, Other(away))), Inorder(Sub(y, Other(away))), Inorder(Sub(y, away));
    if away == Dir {
      assert o + [t.p] + (m + [y.p] + f) == (o + [t.p] + m) + [y.p] + f;
    } else {
      assert (f + [y.p] + m) + [t.p] + o == f + [y.p] + (m + [t.p] + o);
    }
  }

  /** Same order for the focus means same order for the whole tree. */
  lemma SameOrder(ctx: Ctx, t: Tree, t': Tree)
    requires Inorder(t) == Inorder(t')
    ensures Inorder(Plug(ctx, t)) == Inorder(Plug(ctx, t'))
  {
    PlugInorder(ctx, t);
    PlugInorder(ctx, t');
  }

  // ---------- Insertion ----------

  /** The focus is red and its parent may be red too; every other rule holds. */
  predicate Inserting(ctx: Ctx, t: Tree) {
    t.Node? && t.c == Red && RB(t) && CtxRB(ctx, BH(t))
  }

  /** Red uncle: the violation moves two levels up. */
  lemma InsertRecolor(s1: Side, p: Ptr, sib: Tree, s2: Side, g: Ptr, u: Tree, up: Ctx, t: Tree)
    requires Inserting(Frame(s1, p, Red, sib, Frame(s2, g, Black, u, up)), t)
    requires u.Node? && u.c == Red
    ensures Inserting(up, Mk(s2, g, Red, Mk(s1, p, Black, t, sib), u.(c := Black)))
  {
    var t1, u1 := Mk(s1, p, Black, t, sib), u.(c := Black);
    assert CtxRB(Frame(s2, g, Black, u, up), BH(t));
    assert RB(t1) && BH(t1) == BH(t) + 1;
    assert RB(u1) && BH(u1) == BH(t) + 1;
  }

  /** Black uncle and the focus hanging inwards: one rotation makes it hang outwards. */
  lemma InsertInner(s1: Side, p: Ptr, sib: Tree, g: Ptr, u: Tree, up: Ctx, t: Tree)
    requires Inserting(Frame(s1, p, Red, sib, Frame(Other(s1), g, Black, u, up)), t)
    ensures var s2 := Other(s1);
      Inserting(Frame(s2, t.p, Red, Sub(t, s1), Frame(s2, g, Black, u, up)), Mk(s2, p, Red, sib, Sub(t, s2)))
    ensures RotateTree(Mk(s1, p, Red, t, sib), s1)
         == Mk(Other(s1), t.p, Red, Mk(Other(s1), p, Red, sib, Sub(t, Other(s1))), Sub(t, s1))
  {
  }

  /** Black uncle and the focus hanging outwards: one rotation ends the repair. */
  lemma InsertOuter(s: Side, p: Ptr, sib: Tree, g: Ptr, u: Tree, up: Ctx, t: Tree)
    requires Inserting(Frame(s, p, Red, sib, Frame(s, g, Black, u, up)), t)
    requires RootColor(u) == Black
    ensures Inserting(Frame(s, p, Black, Mk(Other(s), g, Red, u, sib), up), t)
    ensures RotateTree(Mk(s, g, Red, Mk(s, p, Black, t, sib), u), s)
         == Mk(s, p, Black, t, Mk(Other(s), g, Red, u, sib))
  {
    assert CtxRB(Frame(s, g, Black, u, up), BH(t));
    var g1 := Mk(Other(s), g, Red, u, sib);
    assert RB(g1) && BH(g1) == BH(t);
  }

  // ---------- Deletion ----------

  function Blacken(t: Tree): Tree {
    if t.Leaf? then t else t.(c := Black)
  }

  /** The focus is one black node short; painting a red focus black makes up for it. */
  predicate Deleting(ctx: Ctx, t: Tree) {
    RB(Blacken(t)) && CtxRB(ctx, BH(t) + 1)
  }

  /** Black-height of a sibling of a short focus is at least one. */
  lemma SiblingExists(ctx: Ctx, t: Tree)
    requires Deleting(ctx, t) && ctx.Frame?
    ensures ctx.sib.Node?
    ensures ctx.sib.c == Red ==> ctx.c == Black && ctx.sib.l.Node? && ctx.sib.r.Node?
  {
  }

  /** Red sibling: rotate so that the sibling is black. */
  lemma DeleteRedSibling(s: Side, p: Ptr, w: Tree, up: Ctx, t: Tree)
    requires Deleting(Frame(s, p, Black, w, up), t) && RootColor(t) == Black
    requires w.Node? && w.c == Red
    ensures Deleting(Frame(s, p, Red, Sub(w, s), Frame(s, w.p, Black, Sub(w, Other(s)), up)), t)
    ensures Sub(w, s).Node? && Sub(w, s).c == Black
    ensures RotateTree(Mk(s, p, Red, t, w.(c := Black)), Other(s))
         == Mk(s, w.p, Black, Mk(s, p, Red, t, Sub(w, s)), Sub(w, Other(s)))
  {
  }

  /** Black sibling with black children: paint it red and move up. */
  lemma DeleteBlackNephews(s: Side, p: Ptr, c: Color, w: Tree, up: Ctx, t: Tree)
    requires Deleting(Frame(s, p, c, w, up), t) && RootColor(t) == Black
    requires w.Node? && w.c == Black && RootColor(w.l) == Black && RootColor(w.r) == Black
    ensures Deleting(up, Mk(s, p, c, t, w.(c := Red)))
  {
  }

  /** Near nephew red and far nephew black: one rotation makes the far nephew red. */
  lemma DeleteNearRed(s: Side, p: Ptr, c: Color, w: Tree, up: Ctx, t: Tree)
    requires Deleting(Frame(s, p, c, w, up), t)
    requires w.Node? && w.c == Black && RootColor(Sub(w, Other(s))) == Black && RootColor(Sub(w, s)) == Red
    ensures var n := Sub(w, s);
      var w' := Mk(s, n.p, Black, Sub(n, s), Mk(Other(s), w.p, Red, Sub(w, Other(s)), Sub(n, Other(s))));
      && Deleting(Frame(s, p, c, w', up), t)
      && RotateTree(Mk(s, w.p, Red, n.(c := Black), Sub(w, Other(s))), s) == w'
      && w'.c == Black && Sub(w', Other(s)).Node? && Sub(w', Other(s)).c == Red
  {
    var n, far := Sub(w, s), Sub(w, Other(s));
    assert RB(n) && RB(far) && BH(n) == BH(far) == BH(t);
    var w1 := Mk(Other(s), w.p, Red, far, Sub(n, Other(s)));
    assert RB(w1) && BH(w1) == BH(t);
    var w' := Mk(s, n.p, Black, Sub(n, s), w1);
    assert RB(w') && BH(w') == BH(w);
  }

  /** Far nephew red: one rotation supplies the missing black node. */
  lemma DeleteFarRed(s: Side, p: Ptr, c: Color, w: Tree, up: Ctx, t: Tree)
    requires Deleting(Frame(s, p, c, w, up), t) && RootColor(t) == Black
    requires w.Node? && w.c == Black && RootColor(Sub(w, Other(s))) == Red
    ensures var f := Sub(w, Other(s)).(c := Black);
      var t' := Mk(s, w.p, c, Mk(s, p, Black, t, Sub(w, s)), f);
      && RotateTree(Mk(s, p, Black, t, Mk(s, w.p, c, Sub(w, s), f)), Other(s)) == t'
      && RedBlack(Plug(up, t'))
  {
    var f := Sub(w, Other(s)).(c := Black);
    assert RB(Sub(w, Other(s))) && BH(Sub(w, Other(s))) == BH(t);
    var p1 := Mk(s, p, Black, t, Sub(w, s));
    var t' := Mk(s, w.p, c, p1, f);
    assert RB(p1) && BH(p1) == BH(t) + 1;
    assert RB(f) && BH(f) == BH(t) + 1;
    PlugRB(up, t');
  }

  /** The pointer at the root of a tree seen from a focus `h`. */
  function RootPtr(ctx: Ctx, h: Ptr): Ptr {
    if ctx.Top? then h else RootPtr(ctx.up, ctx.p)
  }

  lemma {:induction false} RootPtrPlug(ctx: Ctx, t: Tree)
    ensures RootPtr(ctx, PtrOf(t)) == PtrOf(Plug(ctx, t))
    ensures ctx.Frame? ==> RootPtr(ctx, PtrOf(t)) in CtxNodes(ctx)
    decreases ctx
  {
    if ctx.Frame? {
      RootPtrPlug(ctx.up, Mk(ctx.side, ctx.p, ctx.c, t, ctx.sib));
    }
  }

  /** A short focus that is the whole tree, or that is red, is mended by painting it black. */
  lemma DeleteDone(ctx: Ctx, t: Tree)
    requires Deleting(ctx, t) && (ctx.Top? || RootColor(t) == Red)
    ensures RedBlack(Plug(ctx, Blacken(t)))
  {
    PlugRB(ctx, Blacken(t));
  }

  /** Splicing out a red node, or replacing a node by its only red child, leaves no black short. */
  lemma SplicedRed(ctx: Ctx, t: Tree, x: Tree)
    requires RedBlack(Plug(ctx, t)) && t.Node? && t.c == Red
    requires (t.l.Leaf? && x == t.r) || (t.r.Leaf? && x == t.l)
    ensures RedBlack(Plug(ctx, x))
  {
    UnplugRB(ctx, t);
    PlugRB(ctx, x);
  }

  /** Splicing out a black node leaves its child one black short. */
  lemma SplicedBlack(ctx: Ctx, t: Tree, x: Tree)
    requires RedBlack(Plug(ctx, t)) && t.Node? && t.c == Black
    requires (t.l.Leaf? && x == t.r) || (t.r.Leaf? && x == t.l)
    ensures Deleting(ctx, x)
  {
    UnplugRB(ctx, t);
  }
}
