/** The node store of a tree and what it means for it to hold a given shape. A pointer is an
    index; 0 stands for NULL, and every tree has two sentinel nodes: `nil` under the leaves and
    the dummy `raiz` above the root. */
module RedBlackMemory {
  import opened RedBlackShape

  const NULO: Ptr := 0
  const NIL: Ptr := 1
  const RAIZ: Ptr := 2

  datatype No = No(chave: int, elem: nat, tid: int, cor: Color, esq: Ptr, dir: Ptr, pai: Ptr)

  type Mem = seq<No>

  function PtrOf(t: Tree): Ptr {
    if t.Leaf? then NIL else t.p
  }

  function Parent(ctx: Ctx): Ptr {
    if ctx.Top? then RAIZ else ctx.p
  }

  function Child(n: No, side: Side): Ptr {
    if side == Esq then n.esq else n.dir
  }

  function Other(side: Side): Side {
    if side == Esq then Dir else Esq
  }

  /** The sentinels are in place. */
  predicate Sentinels(m: Mem) {
    && |m| > RAIZ
    && m[NIL].cor == Black && m[NIL].chave == -1
    && m[RAIZ].cor == Black && m[RAIZ].chave == -1 && m[RAIZ].dir == NIL
  }

  /** `m` holds tree `t` hanging from node `par`. */
  predicate Rep(m: Mem, par: Ptr, t: Tree)
    decreases t
  {
    t.Leaf? || (
      && RAIZ < t.p < |m|
      && m[t.p].cor == t.c && m[t.p].pai == par
      && m[t.p].esq == PtrOf(t.l) && m[t.p].dir == PtrOf(t.r)
      && t.p !in Nodes(t.l) && t.p !in Nodes(t.r) && Nodes(t.l) !! Nodes(t.r)
      && Rep(m, t.p, t.l) && Rep(m, t.p, t.r))
  }

  /** `m` holds context `ctx`, and the link where the focus hangs is `h`. */
  predicate RepCtx(m: Mem, ctx: Ctx, h: Ptr) {
    |m| > RAIZ &&
    match ctx
    case Top => m[RAIZ].esq == h
    case Frame(side, p, c, sib, up) =>
      && RAIZ < p < |m|
      && m[p].cor == c && m[p].pai == Parent(up)
      && Child(m[p], side) == h && Child(m[p], Other(side)) == PtrOf(sib)
      && p !in Nodes(sib) && p !in CtxNodes(up) && Nodes(sib) !! CtxNodes(up)
      && Rep(m, p, sib)
      && RepCtx(m, up, p)
  }

  /** `m` holds the tree `Plug(ctx, t)`. */
  predicate Holds(m: Mem, ctx: Ctx, t: Tree) {
    && Sentinels(m)
    && RepCtx(m, ctx, PtrOf(t))
    && Rep(m, Parent(ctx), t)
    && CtxNodes(ctx) !! Nodes(t)
  }

  // ---------- Framing ----------

  lemma {:induction false} RepBound(m: Mem, par: Ptr, t: Tree)
    requires Rep(m, par, t)
    ensures forall q :: q in Nodes(t) ==> RAIZ < q < |m|
    decreases t
  {
    if t.Node? { RepBound(m, t.p, t.l); RepBound(m, t.p, t.r); }
  }

  lemma {:induction false} CtxBound(m: Mem, ctx: Ctx, h: Ptr)
    requires RepCtx(m, ctx, h)
    ensures forall q :: q in CtxNodes(ctx) ==> RAIZ < q < |m|
  {
    if ctx.Frame? { RepBound(m, ctx.p, ctx.sib); CtxBound(m, ctx.up, ctx.p); }
  }

  lemma {:induction false} RepFrame(m: Mem, m': Mem, par: Ptr, t: Tree)
    requires Rep(m, par, t)
    requires forall q :: q in Nodes(t) && q < |m| ==> q < |m'| && m'[q] == m[q]
    ensures Rep(m', par, t)
    decreases t
  {
    if t.Node? { RepFrame(m, m', t.p, t.l); RepFrame(m, m', t.p, t.r); }
  }

  lemma {:induction false} CtxFrame(m: Mem, m': Mem, ctx: Ctx, h: Ptr)
    requires RepCtx(m, ctx, h) && |m| <= |m'|
    requires m'[RAIZ] == m[RAIZ]
    requires forall q :: q in CtxNodes(ctx) && q < |m| ==> m'[q] == m[q]
    ensures RepCtx(m', ctx, h)
  {
    if ctx.Frame? { RepFrame(m, m', ctx.p, ctx.sib); CtxFrame(m, m', ctx.up, ctx.p); }
  }

  /** The tree `t` moves under `par'`: only the parent link of its root changes. */
  lemma Rehang(m: Mem, m': Mem, par: Ptr, par': Ptr, t: Tree)
    requires Rep(m, par, t)
    requires t.Node? ==> t.p < |m'| && m'[t.p] == m[t.p].(pai := par')
    requires forall q :: q in Nodes(t) && q < |m| && q != PtrOf(t) ==> q < |m'| && m'[q] == m[q]
    ensures Rep(m', par', t)
  {
    if t.Node? { RepFrame(m, m', t.p, t.l); RepFrame(m, m', t.p, t.r); }
  }

  /** The link from the parent of the focus, as the code finds it: the left link if it names the
      focus, and the right one otherwise. */
  function Relink(m: Mem, par: Ptr, h: Ptr, h': Ptr): Mem
    requires par < |m|
  {
    if m[par].esq == h then m[par := m[par].(esq := h')] else m[par := m[par].(dir := h')]
  }

  /** Redirecting the parent's link hangs a new node in the same place. */
  lemma RelinkCtx(m: Mem, m': Mem, ctx: Ctx, h: Ptr, h': Ptr)
    requires RepCtx(m, ctx, h) && h > RAIZ && h !in CtxNodes(ctx)
    requires Parent(ctx) < |m| && |m'| == |m|
    requires m'[Parent(ctx)] == Relink(m, Parent(ctx), h, h')[Parent(ctx)]
    requires m'[RAIZ] == m[RAIZ] || ctx.Top?
    requires forall q :: q in CtxNodes(ctx) && q < |m| && q != Parent(ctx) ==> m'[q] == m[q]
    ensures RepCtx(m', ctx, h')
  {
    if ctx.Frame? {
      RepFrame(m, m', ctx.p, ctx.sib);
      CtxFrame(m, m', ctx.up, ctx.p);
    }
  }

  // ---------- Moving the focus ----------

  lemma FocusUp(m: Mem, ctx: Ctx, t: Tree)
    requires Holds(m, ctx, t) && ctx.Frame?
    ensures Holds(m, ctx.up, Mk(ctx.side, ctx.p, ctx.c, t, ctx.sib))
  {
  }

  lemma FocusDown(m: Mem, ctx: Ctx, side: Side, p: Ptr, c: Color, inner: Tree, sib: Tree)
    requires Holds(m, ctx, Mk(side, p, c, inner, sib))
    ensures Holds(m, Frame(side, p, c, sib, ctx), inner)
  {
  }

  lemma {:induction false} FocusRoot(m: Mem, ctx: Ctx, t: Tree)
    requires Holds(m, ctx, t)
    ensures Holds(m, Top, Plug(ctx, t))
    decreases ctx
  {
    if ctx.Frame? {
      FocusUp(m, ctx, t);
      FocusRoot(m, ctx.up, Mk(ctx.side, ctx.p, ctx.c, t, ctx.sib));
    }
  }

  lemma {:induction false} FocusLocate(m: Mem, ctx: Ctx, t: Tree, z: Ptr)
    requires Holds(m, ctx, t) && z in Nodes(t)
    ensures var r := Locate(ctx, t, z); Holds(m, r.0, r.1)
    decreases t
  {
    if t.p == z {
    } else if z in Nodes(t.l) {
      FocusDown(m, ctx, Esq, t.p, t.c, t.l, t.r);
      FocusLocate(m, Frame(Esq, t.p, t.c, t.r, ctx), t.l, z);
    } else {
      FocusDown(m, ctx, Dir, t.p, t.c, t.r, t.l);
      FocusLocate(m, Frame(Dir, t.p, t.c, t.l, ctx), t.r, z);
    }
  }

  // ---------- Painting and rotating ----------

  /** Everything but links and colours of the nodes in `s` is as before. */
  predicate SameBut(m: Mem, m': Mem, s: set<Ptr>) {
    && |m'| == |m|
    && (forall q :: 0 <= q < |m| ==> m'[q].chave == m[q].chave && m'[q].elem == m[q].elem && m'[q].tid == m[q].tid)
    && (forall q :: 0 <= q < |m| && q !in s ==> m'[q] == m[q])
  }

  lemma Paint(m: Mem, ctx: Ctx, t: Tree, c: Color)
    requires Holds(m, ctx, t) && t.Node?
    ensures var m' := m[t.p := m[t.p].(cor := c)];
      Holds(m', ctx, t.(c := c)) && SameBut(m, m', {t.p})
  {
    var m' := m[t.p := m[t.p].(cor := c)];
    RepFrame(m, m', t.p, t.l);
    RepFrame(m, m', t.p, t.r);
    CtxFrame(m, m', ctx, t.p);
  }

  /** The memory after rotating at `x`: its child on side `away` takes its place. */
  function Rotated(m: Mem, x: Ptr, away: Side): Mem
    requires x < |m| && Child(m[x], away) < |m|
    requires m[x].pai < |m|
    requires Child(m[Child(m[x], away)], Other(away)) < |m|
  {
    var y := Child(m[x], away);
    var b := Child(m[y], Other(away));
    var m1 := if away == Dir then m[x := m[x].(dir := b)] else m[x := m[x].(esq := b)];
    var m2 := if b != NIL then m1[b := m1[b].(pai := x)] else m1;
    var m3 := m2[y := m2[y].(pai := m2[x].pai)];
    var m4 := if m3[x].pai < |m3| then Relink(m3, m3[x].pai, x, y) else m3;
    var m5 := if away == Dir then m4[y := m4[y].(esq := x)] else m4[y := m4[y].(dir := x)];
    m5[x := m5[x].(pai := y)]
  }

  function WithChild(n: No, side: Side, h: Ptr): No {
    if side == Esq then n.(esq := h) else n.(dir := h)
  }

  /** What a rotation at `x` writes, cell by cell. */
  predicate Cells(m: Mem, m': Mem, x: Ptr, away: Side, y: Ptr, b: Ptr, par: Ptr) {
    && x < |m| && y < |m| && b < |m| && par < |m| && |m'| == |m|
    && m'[x] == WithChild(m[x], away, b).(pai := y)
    && m'[y] == WithChild(m[y], Other(away), x).(pai := par)
    && m'[b] == (if b == NIL then m[b] else m[b].(pai := x))
    && m'[par] == Relink(m, par, x, y)[par]
    && (forall q :: 0 <= q < |m| && q != x && q != y && q != b && q != par ==> m'[q] == m[q])
  }

  /** The same writes with the three pointers read beforehand. */
  function RotatedAt(m: Mem, x: Ptr, away: Side, y: Ptr, b: Ptr, par: Ptr): Mem
    requires x < |m| && y < |m| && b < |m| && par < |m|
  {
    var m1 := m[x := WithChild(m[x], away, b)];
    var m2 := if b != NIL then m1[b := m1[b].(pai := x)] else m1;
    var m3 := m2[y := m2[y].(pai := par)];
    var m4 := Relink(m3, par, x, y);
    var m5 := m4[y := WithChild(m4[y], Other(away), x)];
    m5[x := m5[x].(pai := y)]
  }

  lemma RotatedIsRotatedAt(m: Mem, x: Ptr, away: Side, y: Ptr, b: Ptr, par: Ptr)
    requires x < |m| && y < |m| && b < |m| && par < |m|
    requires Child(m[x], away) == y && Child(m[y], Other(away)) == b && m[x].pai == par
    requires x != y && x != b
    ensures Rotated(m, x, away) == RotatedAt(m, x, away, y, b, par)
  {
  }

  lemma RotatedCells(m: Mem, x: Ptr, away: Side, y: Ptr, b: Ptr, par: Ptr)
    requires x < |m| && y < |m| && b < |m| && par < |m|
    requires x != y && x != b && y != b && par != x && par != y && par != b
    requires NIL < |m| && x != NIL && y != NIL && par != NIL
    ensures Cells(m, RotatedAt(m, x, away, y, b, par), x, away, y, b, par)
  {
  }

  lemma CellsSameBut(m: Mem, m': Mem, x: Ptr, away: Side, y: Ptr, b: Ptr, par: Ptr)
    requires Cells(m, m', x, away, y, b, par)
    requires b != NIL ==> b > RAIZ
    requires NIL < |m| && x > NIL && y > NIL && par > NIL
    ensures SameBut(m, m', {x, y, b, par}) && m'[NIL] == m[NIL]
  {
  }

  /** What holding a node means, whichever side its subtrees are on. */
  lemma MkRep(m: Mem, par: Ptr, side: Side, p: Ptr, c: Color, inner: Tree, sib: Tree)
    ensures var t := Mk(side, p, c, inner, sib);
      && PtrOf(t) == p && Nodes(t) == Nodes(inner) + {p} + Nodes(sib)
      && (Rep(m, par, t) <==>
        && RAIZ < p < |m| && m[p].cor == c && m[p].pai == par
        && Child(m[p], side) == PtrOf(inner) && Child(m[p], Other(side)) == PtrOf(sib)
        && p !in Nodes(inner) && p !in Nodes(sib) && Nodes(inner) !! Nodes(sib)
        && Rep(m, p, inner) && Rep(m, p, sib))
  {
  }

  lemma DisjointParts(s: set<Ptr>, a: set<Ptr>, x: Ptr, rest: set<Ptr>)
    requires s !! a + {x} + rest
    ensures s !! a && x !in s && s !! rest
  {
  }

  /** The two nodes that a rotation exchanges, their subtrees, and the parent are all apart. */
  predicate Apart(ctx: Ctx, x: Ptr, y: Ptr, outer: Tree, mid: Tree, far: Tree) {
    && x != y && x !in Nodes(outer) && x !in Nodes(mid) && x !in Nodes(far)
    && y !in Nodes(outer) && y !in Nodes(mid) && y !in Nodes(far)
    && Nodes(outer) !! Nodes(mid) && Nodes(outer) !! Nodes(far) && Nodes(mid) !! Nodes(far)
    && CtxNodes(ctx) !! Nodes(outer) && CtxNodes(ctx) !! Nodes(mid) && CtxNodes(ctx) !! Nodes(far)
    && x !in CtxNodes(ctx) && y !in CtxNodes(ctx)
  }

  lemma RotateApart(m: Mem, ctx: Ctx, away: Side, x: Ptr, cx: Color, y: Ptr, cy: Color, outer: Tree, mid: Tree, far: Tree)
    requires Holds(m, ctx, Mk(Other(away), x, cx, outer, Mk(Other(away), y, cy, mid, far)))
    ensures Apart(ctx, x, y, outer, mid, far)
  {
    var ty := Mk(Other(away), y, cy, mid, far);
    MkRep(m, Parent(ctx), Other(away), x, cx, outer, ty);
    MkRep(m, x, Other(away), y, cy, mid, far);
    DisjointParts(CtxNodes(ctx), Nodes(outer), x, Nodes(ty));
    DisjointParts(CtxNodes(ctx), Nodes(mid), y, Nodes(far));
    DisjointParts({x}, Nodes(mid), y, Nodes(far));
    DisjointParts(Nodes(outer), Nodes(mid), y, Nodes(far));
  }

  /** The pieces of a tree about to be rotated. */
  lemma RotatePieces(m: Mem, ctx: Ctx, away: Side, x: Ptr, cx: Color, y: Ptr, cy: Color, outer: Tree, mid: Tree, far: Tree)
    requires Holds(m, ctx, Mk(Other(away), x, cx, outer, Mk(Other(away), y, cy, mid, far)))
    ensures RAIZ < x < |m| && RAIZ < y < |m| && PtrOf(mid) < |m| && Parent(ctx) < |m|
    ensures Child(m[x], away) == y && Child(m[y], Other(away)) == PtrOf(mid) && m[x].pai == Parent(ctx)
    ensures m[x].cor == cx && m[y].cor == cy && m[y].pai == x
    ensures Child(m[x], Other(away)) == PtrOf(outer) && Child(m[y], away) == PtrOf(far)
    ensures Rep(m, x, outer) && Rep(m, y, mid) && Rep(m, y, far)
    ensures Parent(ctx) == RAIZ || Parent(ctx) in CtxNodes(ctx)
    ensures PtrOf(mid) == NIL || PtrOf(mid) in Nodes(mid)
  {
    hide Rep, Mk;
    var ty := Mk(Other(away), y, cy, mid, far);
    MkRep(m, Parent(ctx), Other(away), x, cx, outer, ty);
    MkRep(m, x, Other(away), y, cy, mid, far);
    RepBound(m, y, mid);
    CtxBound(m, ctx, x);
  }

  /** Rotation moves the middle subtree across and keeps the order and everything around it. */
  lemma RotateHolds(m: Mem, ctx: Ctx, away: Side, x: Ptr, cx: Color, y: Ptr, cy: Color, outer: Tree, mid: Tree, far: Tree)
    requires Holds(m, ctx, Mk(Other(away), x, cx, outer, Mk(Other(away), y, cy, mid, far)))
    ensures x < |m| && Child(m[x], away) == y < |m| && m[x].pai < |m| && Child(m[y], Other(away)) < |m|
    ensures Holds(Rotated(m, x, away), ctx, Mk(Other(away), y, cy, Mk(Other(away), x, cx, outer, mid), far))
    ensures SameBut(m, Rotated(m, x, away), {x, y, PtrOf(mid), Parent(ctx)})
    ensures Rotated(m, x, away)[NIL] == m[NIL]
  {
    RotatePieces(m, ctx, away, x, cx, y, cy, outer, mid, far);
    RotateApart(m, ctx, away, x, cx, y, cy, outer, mid, far);
    CtxBound(m, ctx, x);
    RepBound(m, y, mid);
    RotatedIsRotatedAt(m, x, away, y, PtrOf(mid), Parent(ctx));
    RotatedCells(m, x, away, y, PtrOf(mid), Parent(ctx));
    RotatedHolds(m, Rotated(m, x, away), ctx, away, x, cx, y, cy, outer, mid, far);
    CellsSameBut(m, Rotated(m, x, away), x, away, y, PtrOf(mid), Parent(ctx));
  }

  lemma RotatedHolds(m: Mem, m': Mem, ctx: Ctx, away: Side, x: Ptr, cx: Color, y: Ptr, cy: Color, outer: Tree, mid: Tree, far: Tree)
    requires Holds(m, ctx, Mk(Other(away), x, cx, outer, Mk(Other(away), y, cy, mid, far)))
    requires Cells(m, m', x, away, y, PtrOf(mid), Parent(ctx))
    ensures Holds(m', ctx, Mk(Other(away), y, cy, Mk(Other(away), x, cx, outer, mid), far))
  {
    RotatePieces(m, ctx, away, x, cx, y, cy, outer, mid, far);
    RotateApart(m, ctx, away, x, cx, y, cy, outer, mid, far);
    RotatedParts(m, m', ctx, away, x, y, outer, mid, far);
    MkRep(m', y, Other(away), x, cx, outer, mid);
    MkRep(m', Parent(ctx), Other(away), y, cy, Mk(Other(away), x, cx, outer, mid), far);
  }

  lemma RotatedParts(m: Mem, m': Mem, ctx: Ctx, away: Side, x: Ptr, y: Ptr, outer: Tree, mid: Tree, far: Tree)
    requires Cells(m, m', x, away, y, PtrOf(mid), Parent(ctx))
    requires RAIZ < x && RAIZ < y && Apart(ctx, x, y, outer, mid, far) && Sentinels(m)
    requires Rep(m, x, outer) && Rep(m, y, mid) && Rep(m, y, far) && RepCtx(m, ctx, x)
    ensures Rep(m', x, outer) && Rep(m', x, mid) && Rep(m', y, far) && RepCtx(m', ctx, y) && Sentinels(m')
  {
    RotatedTrees(m, m', ctx, away, x, y, outer, mid, far);
    RotatedCtx(m, m', ctx, away, x, y, outer, mid, far);
  }

  /** A subtree that has none of the four nodes whose pointers change. */
  lemma KeptTree(m: Mem, m': Mem, x: Ptr, away: Side, y: Ptr, b: Ptr, par: Ptr, root: Ptr, t: Tree)
    requires Cells(m, m', x, away, y, b, par) && Rep(m, root, t)
    requires x !in Nodes(t) && y !in Nodes(t) && b !in Nodes(t) && par !in Nodes(t)
    ensures Rep(m', root, t)
  {
    RepBound(m, root, t);
    RepFrame(m, m', root, t);
  }

  lemma RotatedTrees(m: Mem, m': Mem, ctx: Ctx, away: Side, x: Ptr, y: Ptr, outer: Tree, mid: Tree, far: Tree)
    requires Cells(m, m', x, away, y, PtrOf(mid), Parent(ctx)) && RepCtx(m, ctx, x)
    requires RAIZ < x && RAIZ < y && Apart(ctx, x, y, outer, mid, far)
    requires Rep(m, x, outer) && Rep(m, y, mid) && Rep(m, y, far)
    ensures Rep(m', x, outer) && Rep(m', x, mid) && Rep(m', y, far)
  {
    hide Rep, RepCtx, Cells;
    RotatedNodes(m, ctx, x, y, outer, mid, far);
    KeptTree(m, m', x, away, y, PtrOf(mid), Parent(ctx), x, outer);
    KeptTree(m, m', x, away, y, PtrOf(mid), Parent(ctx), y, far);
    RotatedMid(m, m', ctx, away, x, y, outer, mid, far);
  }

  lemma RotatedNodes(m: Mem, ctx: Ctx, x: Ptr, y: Ptr, outer: Tree, mid: Tree, far: Tree)
    requires Apart(ctx, x, y, outer, mid, far) && RepCtx(m, ctx, x) && Rep(m, x, outer) && Rep(m, y, mid) && Rep(m, y, far)
    ensures PtrOf(mid) !in Nodes(outer) && PtrOf(mid) !in Nodes(far)
    ensures Parent(ctx) !in Nodes(outer) && Parent(ctx) !in Nodes(far)
  {
    hide RepCtx;
    RepBound(m, x, outer);
    RepBound(m, y, mid);
    RepBound(m, y, far);
    CtxBound(m, ctx, x);
  }

  lemma RotatedMid(m: Mem, m': Mem, ctx: Ctx, away: Side, x: Ptr, y: Ptr, outer: Tree, mid: Tree, far: Tree)
    requires Cells(m, m', x, away, y, PtrOf(mid), Parent(ctx)) && RepCtx(m, ctx, x)
    requires RAIZ < x && RAIZ < y && Apart(ctx, x, y, outer, mid, far) && Rep(m, y, mid)
    ensures Rep(m', x, mid)
  {
    hide RepCtx;
    RepBound(m, y, mid);
    CtxBound(m, ctx, x);
    Rehang(m, m', y, x, mid);
  }

  lemma RotatedCtx(m: Mem, m': Mem, ctx: Ctx, away: Side, x: Ptr, y: Ptr, outer: Tree, mid: Tree, far: Tree)
    requires Cells(m, m', x, away, y, PtrOf(mid), Parent(ctx))
    requires RAIZ < x && RAIZ < y && Apart(ctx, x, y, outer, mid, far) && Sentinels(m) && RepCtx(m, ctx, x)
    requires Rep(m, y, mid)
    ensures RepCtx(m', ctx, y) && Sentinels(m')
  {
    RepBound(m, y, mid);
    CtxBound(m, ctx, x);
    RelinkCtx(m, m', ctx, x, y);
  }
}
