/** Shapes of red-black trees: trees whose nodes are pointers, contexts (the rest of the tree
    around a focused subtree), the in-order sequence, and the colour and black-height rules.
    Left and right are told apart by a `Side`, so every mirrored pair of cases is proved once. */
module RedBlackShape {

  type Ptr = nat

  datatype Color = Black | Red

  datatype Tree = Leaf | Node(l: Tree, p: Ptr, c: Color, r: Tree)

  datatype Side = Esq | Dir

  /** The path from a focused subtree up to the root. Each frame says on which side of `p` the
      focus hangs, and holds the subtree `sib` on the other side. */
  datatype Ctx = Top | Frame(side: Side, p: Ptr, c: Color, sib: Tree, up: Ctx)

  function Mk(side: Side, p: Ptr, c: Color, inner: Tree, sib: Tree): Tree {
    if side == Esq then Node(inner, p, c, sib) else Node(sib, p, c, inner)
  }

  function Plug(ctx: Ctx, t: Tree): Tree {
    match ctx
    case Top => t
    case Frame(side, p, c, sib, up) => Plug(up, Mk(side, p, c, t, sib))
  }

  function Depth(ctx: Ctx): nat {
    match ctx
    case Top => 0
    case Frame(_, _, _, _, up) => 1 + Depth(up)
  }

  // ---------- Pointers and order ----------

  function Nodes(t: Tree): set<Ptr> {
    match t
    case Leaf => {}
    case Node(l, p, _, r) => Nodes(l) + {p} + Nodes(r)
  }

  function CtxNodes(ctx: Ctx): set<Ptr> {
    match ctx
    case Top => {}
    case Frame(_, p, _, sib, up) => {p} + Nodes(sib) + CtxNodes(up)
  }

  function Inorder(t: Tree): seq<Ptr> {
    match t
    case Leaf => []
    case Node(l, p, _, r) => Inorder(l) + [p] + Inorder(r)
  }

  /** The in-order nodes that come before the focus. */
  function Before(ctx: Ctx): seq<Ptr> {
    match ctx
    case Top => []
    case Frame(side, p, _, sib, up) =>
      if side == Esq then Before(up) else Before(up) + Inorder(sib) + [p]
  }

  /** The in-order nodes that come after the focus. */
  function After(ctx: Ctx): seq<Ptr> {
    match ctx
    case Top => []
    case Frame(side, p, _, sib, up) =>
      if side == Esq then [p] + Inorder(sib) + After(up) else After(up)
  }

  lemma Regroup<T>(a: seq<T>, b: seq<T>, c: seq<T>, d: seq<T>, e: seq<T>)
    ensures a + (b + c + d) + e == a + b + (c + d + e)
    ensures a + (b + c + d) + e == (a + b + c) + d + e
  {
  }

  lemma RegroupMiddle<T>(a: seq<T>, b: seq<T>, c: seq<T>, d: seq<T>, e: seq<T>)
    ensures a + (b + c + d) + e == a + b + c + (d + e)
  {
  }

  lemma {:induction false} PlugInorder(ctx: Ctx, t: Tree)
    ensures Inorder(Plug(ctx, t)) == Before(ctx) + Inorder(t) + After(ctx)
    decreases ctx
  {
    match ctx
    case Top =>
    case Frame(side, p, c, sib, up) =>
      PlugInorder(up, Mk(side, p, c, t, sib));
      var a, b, z := Before(up), Inorder(sib), After(up);
      if side == Esq {
        Regroup(a, Inorder(t), [p], b, z);
      } else {
        Regroup(a, b, [p], Inorder(t), z);
      }
  }

  lemma {:induction false} PlugNodes(ctx: Ctx, t: Tree)
    ensures Nodes(Plug(ctx, t)) == CtxNodes(ctx) + Nodes(t)
    decreases ctx
  {
    match ctx
    case Top =>
    case Frame(side, p, c, sib, up) => PlugNodes(up, Mk(side, p, c, t, sib));
  }

  lemma {:induction false} InorderNodes(t: Tree, q: Ptr)
    ensures q in Inorder(t) <==> q in Nodes(t)
  {
    match t
    case Leaf =>
    case Node(l, p, _, r) => InorderNodes(l, q); InorderNodes(r, q);
  }

  lemma {:induction false} ContextNodes(ctx: Ctx, q: Ptr)
    ensures q in Before(ctx) || q in After(ctx) <==> q in CtxNodes(ctx)
  {
    match ctx
    case Top =>
    case Frame(side, p, _, sib, up) => InorderNodes(sib, q); ContextNodes(up, q);
  }

  // ---------- Colours and black heights ----------

  function RootColor(t: Tree): Color {
    if t.Leaf? then Black else t.c
  }

  function B(c: Color): nat {
    if c == Black then 1 else 0
  }

  /** Number of black nodes on the leftmost path; on a balanced tree, on every path. */
  function BH(t: Tree): nat {
    if t.Leaf? then 0 else BH(t.l) + B(t.c)
  }

  /** Equal black heights and no red node with a red child. */
  predicate RB(t: Tree) {
    t.Leaf? || (
      && RB(t.l) && RB(t.r) && BH(t.l) == BH(t.r)
      && (t.c == Red ==> RootColor(t.l) == Black && RootColor(t.r) == Black))
  }

  /** The context accepts a subtree of black height `h`: plugging one in breaks no rule except
      perhaps the red-red rule between the focus and its parent. */
  predicate CtxRB(ctx: Ctx, h: nat) {
    ctx.Top? || (
      && RB(ctx.sib) && BH(ctx.sib) == h
      && (ctx.c == Red ==> RootColor(ctx.sib) == Black && ctx.up.Frame? && ctx.up.c == Black)
      && CtxRB(ctx.up, h + B(ctx.c)))
  }

  /** No red-red edge between the focus and its parent, and no red root. */
  predicate Fits(ctx: Ctx, t: Tree) {
    RootColor(t) == Red ==> ctx.Frame? && ctx.c == Black
  }

  /** A whole tree that meets all red-black rules. */
  predicate RedBlack(t: Tree) {
    RB(t) && RootColor(t) == Black
  }

  lemma {:induction false} PlugRB(ctx: Ctx, t: Tree)
    requires RB(t) && CtxRB(ctx, BH(t)) && Fits(ctx, t)
    ensures RedBlack(Plug(ctx, t))
    decreases ctx
  {
    if ctx.Frame? {
      PlugRB(ctx.up, Mk(ctx.side, ctx.p, ctx.c, t, ctx.sib));
    }
  }

  lemma {:induction false} UnplugRB(ctx: Ctx, t: Tree)
    requires RedBlack(Plug(ctx, t))
    ensures RB(t) && CtxRB(ctx, BH(t)) && Fits(ctx, t)
    decreases ctx
  {
    if ctx.Frame? {
      UnplugRB(ctx.up, Mk(ctx.side, ctx.p, ctx.c, t, ctx.sib));
    }
  }

  // ---------- Height ----------

  function Height(t: Tree): nat {
    if t.Leaf? then 0
    else 1 + if Height(t.l) > Height(t.r) then Height(t.l) else Height(t.r)
  }

  function Size(t: Tree): nat {
    if t.Leaf? then 0 else Size(t.l) + 1 + Size(t.r)
  }

  function Pow2(n: nat): nat {
    if n == 0 then 1 else 2 * Pow2(n - 1)
  }

  lemma {:induction false} Pow2Monotone(a: nat, b: nat)
    requires a <= b
    ensures Pow2(a) <= Pow2(b)
    decreases b
  {
    if a < b { Pow2Monotone(a, b - 1); }
  }

  lemma {:induction false} SizeInorder(t: Tree)
    ensures |Inorder(t)| == Size(t)
  {
    if t.Node? { SizeInorder(t.l); SizeInorder(t.r); }
  }

  lemma {:induction false} BlackHeightBounds(t: Tree)
    requires RB(t)
    ensures Pow2(BH(t)) <= Size(t) + 1
    ensures Height(t) <= 2 * BH(t) + (if RootColor(t) == Red then 1 else 0)
  {
    if t.Node? {
      BlackHeightBounds(t.l);
      BlackHeightBounds(t.r);
    }
  }

  /** Height is at most 2*log2(n + 1): half the height, rounded up, is a power of two within n + 1. */
  lemma {:induction false} HeightBound(t: Tree)
    requires RedBlack(t)
    ensures Pow2((Height(t) + 1) / 2) <= |Inorder(t)| + 1
  {
    BlackHeightBounds(t);
    SizeInorder(t);
    Pow2Monotone((Height(t) + 1) / 2, BH(t));
  }

  // ---------- Finding and replacing a node ----------

  /** The context of node `z` in `t`, itself inside `ctx`. */
  function Locate(ctx: Ctx, t: Tree, z: Ptr): (r: (Ctx, Tree))
    requires z in Nodes(t)
    ensures Plug(r.0, r.1) == Plug(ctx, t)
    ensures r.1.Node? && r.1.p == z
    decreases t
  {
    if t.p == z then (ctx, t)
    else if z in Nodes(t.l) then Locate(Frame(Esq, t.p, t.c, t.r, ctx), t.l, z)
    else Locate(Frame(Dir, t.p, t.c, t.l, ctx), t.r, z)
  }

  /** A leftmost node of a red-black tree has no right subtree, or a single red leaf there. */
  lemma LeftmostShape(ctx: Ctx, t: Tree)
    requires RedBlack(Plug(ctx, t)) && t.Node? && t.l.Leaf?
    ensures t.r.Leaf? || (t.r.l.Leaf? && t.r.r.Leaf? && t.r.c == Red && t.c == Black)
  {
    UnplugRB(ctx, t);
    if t.r.Node? {
      assert BH(t.r) == 0;
      assert BH(t.r.l) == 0 && BH(t.r.r) == 0;
    }
  }
}
