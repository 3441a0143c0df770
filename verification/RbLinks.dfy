/** How stores to the links of a red-black tree change the tree that the links spell out. */
module RbLinks {
  import opened RedBlack

  function Only(n: Node?): set<Node> {
    if n == null then {} else {n}
  }

  function RotatedLeft(t: Tree): Tree
    requires t.Br? && t.right.Br?
  {
    Br(Br(t.left, t.node, t.color, t.right.left), t.right.node, t.right.color, t.right.right)
  }

  function RotatedRight(t: Tree): Tree
    requires t.Br? && t.left.Br?
  {
    Br(t.left.left, t.left.node, t.left.color, Br(t.left.right, t.node, t.color, t.right))
  }

  /** Three subtrees and two nodes with nothing in common. */
  predicate Apart(ctx: Ctx, a: Tree, x: Node, b: Tree, y: Node, d: Tree) {
    && Distinct(a) && Distinct(b) && Distinct(d) && DistinctCtx(ctx)
    && x != y && x !in Nodes(a) && x !in Nodes(b) && x !in Nodes(d) && x !in CtxNodes(ctx)
    && y !in Nodes(a) && y !in Nodes(b) && y !in Nodes(d) && y !in CtxNodes(ctx)
    && Nodes(a) !! Nodes(b) && Nodes(a) !! Nodes(d) && Nodes(b) !! Nodes(d)
    && CtxNodes(ctx) !! Nodes(a) && CtxNodes(ctx) !! Nodes(b) && CtxNodes(ctx) !! Nodes(d)
  }

  /** A node `y` as the right child of `x`. */
  predicate LeanRight(m: Links, root: Node?, ctx: Ctx, a: Tree, x: Node, c: Color, b: Tree, y: Node, k: Color,
      d: Tree) {
    && x in m && m[x] == Cell(ParentOf(ctx), NodeOf(a), y, c) && y in m && m[y] == Cell(x, NodeOf(b), NodeOf(d), k)
    && HangsFrom(m, a, x) && HangsFrom(m, b, y) && HangsFrom(m, d, y)
    && Linked(m, a) && Linked(m, b) && Linked(m, d) && CtxLinked(m, ctx, root, x)
  }

  /** A node `x` as the left child of `y`. */
  predicate LeanLeft(m: Links, root: Node?, ctx: Ctx, a: Tree, x: Node, c: Color, b: Tree, y: Node, k: Color, d: Tree) {
    && x in m && m[x] == Cell(y, NodeOf(a), NodeOf(b), c) && y in m && m[y] == Cell(ParentOf(ctx), x, NodeOf(d), k)
    && HangsFrom(m, a, x) && HangsFrom(m, b, x) && HangsFrom(m, d, y)
    && Linked(m, a) && Linked(m, b) && Linked(m, d) && CtxLinked(m, ctx, root, y)
  }

  lemma LinkedAt(m: Links, l: Tree, n: Node, c: Color, r: Tree)
    ensures Linked(m, Br(l, n, c, r)) <==>
      (n in m && m[n].color == c && m[n].left == NodeOf(l) && m[n].right == NodeOf(r)
       && HangsFrom(m, l, n) && Linked(m, l) && HangsFrom(m, r, n) && Linked(m, r))
  {
  }

  lemma CtxReplaced(m: Links, m': Links, ctx: Ctx, root: Node?, root': Node?, child: Node?, other: Node?)
    requires CtxLinked(m, ctx, root, child) && DistinctCtx(ctx)
    requires root' == if ctx.Top? then other else root
    requires forall n :: n in CtxNodes(ctx) && n in m ==>
      n in m' && m'[n] == if n != ctx.node then m[n] else if ctx.InLeft? then m[n].(left := other)
        else m[n].(right := other)
    ensures CtxLinked(m', ctx, root', other)
  {
    if !ctx.Top? {
      CtxFrame(m, m', ctx.up, root, ctx.node);
      LinkedFrame(m, m', if ctx.InLeft? then ctx.right else ctx.left);
    }
  }

  lemma ApartRight(ctx: Ctx, a: Tree, x: Node, c: Color, b: Tree, y: Node, k: Color, d: Tree)
    ensures var t := Br(a, x, c, Br(b, y, k, d));
      && Nodes(t) == {x, y} + Nodes(a) + Nodes(b) + Nodes(d)
      && (DistinctCtx(ctx) && Distinct(t) && CtxNodes(ctx) !! Nodes(t) <==> Apart(ctx, a, x, b, y, d))
  {
    hide DistinctCtx, CtxNodes;
    var low := Br(b, y, k, d);
    DistinctAt(b, y, k, d);
    DistinctAt(a, x, c, low);
  }

  lemma ApartLeft(ctx: Ctx, a: Tree, x: Node, c: Color, b: Tree, y: Node, k: Color, d: Tree)
    ensures var t := Br(Br(a, x, c, b), y, k, d);
      && Nodes(t) == {x, y} + Nodes(a) + Nodes(b) + Nodes(d)
      && (DistinctCtx(ctx) && Distinct(t) && CtxNodes(ctx) !! Nodes(t) <==> Apart(ctx, a, x, b, y, d))
  {
    hide DistinctCtx, CtxNodes;
    var low := Br(a, x, c, b);
    DistinctAt(a, x, c, b);
    DistinctAt(low, y, k, d);
  }

  lemma DistinctAt(l: Tree, n: Node, c: Color, r: Tree)
    ensures Nodes(Br(l, n, c, r)) == Nodes(l) + {n} + Nodes(r)
    ensures Distinct(Br(l, n, c, r)) <==>
      Distinct(l) && Distinct(r) && n !in Nodes(l) && n !in Nodes(r) && Nodes(l) !! Nodes(r)
  {
  }

  lemma OpenRight(m: Links, root: Node?, ctx: Ctx, a: Tree, x: Node, c: Color, b: Tree, y: Node, k: Color, d: Tree)
    ensures var t := Br(a, x, c, Br(b, y, k, d));
      Focus(m, root, ctx, t) <==> Apart(ctx, a, x, b, y, d) && LeanRight(m, root, ctx, a, x, c, b, y, k, d)
  {
    hide Distinct, DistinctCtx, Nodes, CtxNodes, Linked, CtxLinked, Apart;
    ApartRight(ctx, a, x, c, b, y, k, d);
    LinkedAt(m, b, y, k, d);
    LinkedAt(m, a, x, c, Br(b, y, k, d));
  }

  lemma OpenLeft(m: Links, root: Node?, ctx: Ctx, a: Tree, x: Node, c: Color, b: Tree, y: Node, k: Color, d: Tree)
    ensures var t := Br(Br(a, x, c, b), y, k, d);
      Focus(m, root, ctx, t) <==> Apart(ctx, a, x, b, y, d) && LeanLeft(m, root, ctx, a, x, c, b, y, k, d)
  {
    hide Distinct, DistinctCtx, Nodes, CtxNodes, Linked, CtxLinked, Apart;
    ApartLeft(ctx, a, x, c, b, y, k, d);
    LinkedAt(m, a, x, c, b);
    LinkedAt(m, Br(a, x, c, b), y, k, d);
  }

  /** The links `m'` differ from `m` only at `x`, `y`, the parent of the two, and in that `b` now hangs from `mid`. */
  ghost predicate Turned(m: Links, m': Links, ctx: Ctx, x: Node, y: Node, b: Tree, mid: Node) {
    && (forall n :: n in m && n != x && n != y && n != NodeOf(b) && n != ParentOf(ctx) ==> n in m' && m'[n] == m[n])
    && (b.Br? && b.node in m ==> b.node in m' && m'[b.node] == m[b.node].(parent := mid))
  }

  lemma TurnedParts(m: Links, m': Links, ctx: Ctx, a: Tree, x: Node, b: Tree, y: Node, d: Tree, mid: Node)
    requires Apart(ctx, a, x, b, y, d) && Turned(m, m', ctx, x, y, b, mid) && Linked(m, a) && Linked(m, b)
      && Linked(m, d)
    ensures Linked(m', a) && Linked(m', b) && Linked(m', d) && HangsFrom(m', b, mid)
    ensures forall par :: HangsFrom(m, a, par) ==> HangsFrom(m', a, par)
    ensures forall par :: HangsFrom(m, d, par) ==> HangsFrom(m', d, par)
  {
    TopNode(a);
    TopNode(b);
    TopNode(d);
    assert !ctx.Top? ==> ctx.node in CtxNodes(ctx);
    LinkedFrame(m, m', a);
    LinkedFrame(m, m', b);
    LinkedFrame(m, m', d);
  }

  /** The parent of the two nodes has `old` replaced by `new` among its children. */
  predicate Switched(m: Links, m': Links, root: Node?, root': Node?, ctx: Ctx, was: Node, now: Node?) {
    && root' == (if ctx.Top? then now else root)
    && (!ctx.Top? ==> ctx.node in m && ctx.node in m'
                      && m'[ctx.node] == if m[ctx.node].left == was then m[ctx.node].(left := now)
                        else m[ctx.node].(right := now))
  }

  lemma SwitchedCtx(m: Links, m': Links, root: Node?, root': Node?, ctx: Ctx, was: Node, now: Node?)
    requires CtxLinked(m, ctx, root, was) && DistinctCtx(ctx) && was !in CtxNodes(ctx)
    requires Switched(m, m', root, root', ctx, was, now)
    requires forall n :: n in m && n in CtxNodes(ctx) && n != ParentOf(ctx) ==> n in m' && m'[n] == m[n]
    ensures CtxLinked(m', ctx, root', now)
  {
    if ctx.InRight? {
      TopNode(ctx.left);
    }
    CtxReplaced(m, m', ctx, root, root', was, now);
  }

  lemma TurnedLeft(m: Links, m': Links, root: Node?, root': Node?, ctx: Ctx,
                 a: Tree, x: Node, c: Color, b: Tree, y: Node, k: Color, d: Tree)
    requires Apart(ctx, a, x, b, y, d) && LeanRight(m, root, ctx, a, x, c, b, y, k, d)
    requires Turned(m, m', ctx, x, y, b, x) && Switched(m, m', root, root', ctx, x, y)
    requires x in m' && m'[x] == Cell(y, NodeOf(a), NodeOf(b), c) && y in m'
      && m'[y] == Cell(ParentOf(ctx), x, NodeOf(d), k)
    ensures LeanLeft(m', root', ctx, a, x, c, b, y, k, d)
  {
    hide Linked, CtxLinked, CtxNodes, Nodes;
    TurnedParts(m, m', ctx, a, x, b, y, d, x);
    TopNode(b);
    SwitchedCtx(m, m', root, root', ctx, x, y);
  }

  lemma TurnedRight(m: Links, m': Links, root: Node?, root': Node?, ctx: Ctx,
                  a: Tree, x: Node, c: Color, b: Tree, y: Node, k: Color, d: Tree)
    requires Apart(ctx, a, x, b, y, d) && LeanLeft(m, root, ctx, a, x, c, b, y, k, d)
    requires Turned(m, m', ctx, x, y, b, y) && Switched(m, m', root, root', ctx, y, x)
    requires x in m' && m'[x] == Cell(ParentOf(ctx), NodeOf(a), y, c) && y in m'
      && m'[y] == Cell(x, NodeOf(b), NodeOf(d), k)
    ensures LeanRight(m', root', ctx, a, x, c, b, y, k, d)
  {
    hide Linked, CtxLinked, CtxNodes, Nodes;
    TurnedParts(m, m', ctx, a, x, b, y, d, y);
    TopNode(b);
    SwitchedCtx(m, m', root, root', ctx, y, x);
  }

  lemma TopNode(t: Tree)
    ensures t.Br? ==> t.node in Nodes(t)
  {
  }

  lemma Corners(m: Links, root: Node?, ctx: Ctx, a: Tree, x: Node, b: Tree, y: Node, d: Tree, top: Node)
    requires Apart(ctx, a, x, b, y, d) && CtxLinked(m, ctx, root, top) && Linked(m, b)
    ensures x != y && x != ParentOf(ctx) && y != ParentOf(ctx)
    ensures b.Br? ==> b.node in m && b.node != x && b.node != y && b.node != ParentOf(ctx)
    ensures !ctx.Top? ==> ctx.node in m
  {
    TopNode(b);
    assert !ctx.Top? ==> ctx.node in CtxNodes(ctx);
  }

  /** The links after a child of `p` has been replaced. */
  function Replaced(m: Links, p: Node?, child: Node, other: Node?): (m': Links)
    requires (p != null ==> p in m) && (other != null ==> other in m)
    ensures m'.Keys == m.Keys
    ensures forall n :: n in m && n != p && n != other ==> m'[n] == m[n]
    ensures p != null && p != other ==>
      m'[p] == if m[p].left == child then m[p].(left := other) else m[p].(right := other)
    ensures other != null && p != other ==> m'[other] == m[other].(parent := p)
  {
    var m1 := if p == null then m else m[p := if m[p].left == child then m[p].(left := other)
      else m[p].(right := other)];
    if other == null then m1 else m1[other := m1[other].(parent := p)]
  }

  predicate Corner(m: Links, top: Node, low: Node, mid: Node?) {
    && top in m && low in m && top != low && mid != top && mid != low && (mid != null ==> mid in m)
    && var p := m[top].parent; p != null ==> p in m && p != top && p != low && p != mid
  }

  /** The links after the stores of a rotation: `low` takes the place of its parent `top`, which becomes its left (or
      right) child and takes over the subtree `mid` between the two. */
  function RelinkedLeft(m: Links, top: Node, low: Node, mid: Node?): (m': Links)
    requires Corner(m, top, low, mid)
    ensures m'.Keys == m.Keys
    ensures m'[top] == m[top].(right := mid, parent := low) && m'[low] == m[low].(left := top, parent := m[top].parent)
    ensures mid != null ==> m'[mid] == m[mid].(parent := top)
    ensures forall n :: n in m && n != top && n != low && n != mid && n != m[top].parent ==> m'[n] == m[n]
    ensures var p := m[top].parent;
      p != null ==> m'[p] == if m[p].left == top then m[p].(left := low) else m[p].(right := low)
  {
    var m1 := m[low := m[low].(left := top)];
    var m2 := m1[top := m1[top].(right := mid)];
    var m3 := if mid == null then m2 else m2[mid := m2[mid].(parent := top)];
    var m4 := m3[low := m3[low].(parent := m3[top].parent)];
    var m5 := Replaced(m4, m4[top].parent, top, low);
    m5[top := m5[top].(parent := low)]
  }

  function RelinkedRight(m: Links, top: Node, low: Node, mid: Node?): (m': Links)
    requires Corner(m, top, low, mid)
    ensures m'.Keys == m.Keys
    ensures m'[top] == m[top].(left := mid, parent := low) && m'[low] == m[low].(right := top, parent := m[top].parent)
    ensures mid != null ==> m'[mid] == m[mid].(parent := top)
    ensures forall n :: n in m && n != top && n != low && n != mid && n != m[top].parent ==> m'[n] == m[n]
    ensures var p := m[top].parent;
      p != null ==> m'[p] == if m[p].left == top then m[p].(left := low) else m[p].(right := low)
  {
    var m1 := m[low := m[low].(right := top)];
    var m2 := m1[top := m1[top].(left := mid)];
    var m3 := if mid == null then m2 else m2[mid := m2[mid].(parent := top)];
    var m4 := m3[low := m3[low].(parent := m3[top].parent)];
    var m5 := Replaced(m4, m4[top].parent, top, low);
    m5[top := m5[top].(parent := low)]
  }

  lemma TurnLeft(m: Links, root: Node?, root': Node?, ctx: Ctx,
                 a: Tree, x: Node, c: Color, b: Tree, y: Node, k: Color, d: Tree)
    requires Apart(ctx, a, x, b, y, d) && LeanRight(m, root, ctx, a, x, c, b, y, k, d)
    requires root' == if ctx.Top? then y else root
    ensures Corner(m, x, y, NodeOf(b))
    ensures LeanLeft(RelinkedLeft(m, x, y, NodeOf(b)), root', ctx, a, x, c, b, y, k, d)
  {
    hide Linked, CtxLinked, CtxNodes, Nodes, Apart, RelinkedLeft, HangsFrom, LeanLeft;
    Corners(m, root, ctx, a, x, b, y, d, x);
    TurnedLeft(m, RelinkedLeft(m, x, y, NodeOf(b)), root, root', ctx, a, x, c, b, y, k, d);
  }

  lemma TurnRight(m: Links, root: Node?, root': Node?, ctx: Ctx,
                  a: Tree, x: Node, c: Color, b: Tree, y: Node, k: Color, d: Tree)
    requires Apart(ctx, a, x, b, y, d) && LeanLeft(m, root, ctx, a, x, c, b, y, k, d)
    requires root' == if ctx.Top? then x else root
    ensures Corner(m, y, x, NodeOf(b))
    ensures LeanRight(RelinkedRight(m, y, x, NodeOf(b)), root', ctx, a, x, c, b, y, k, d)
  {
    hide Linked, CtxLinked, CtxNodes, Nodes, Apart, RelinkedRight, HangsFrom, LeanRight;
    Corners(m, root, ctx, a, x, b, y, d, y);
    TurnedRight(m, RelinkedRight(m, y, x, NodeOf(b)), root, root', ctx, a, x, c, b, y, k, d);
  }

  // ---- colours

  lemma Repainted(m: Links, root: Node?, ctx: Ctx, t: Tree, c: Color)
    requires Focus(m, root, ctx, t) && t.Br?
    ensures t.node in m && Focus(m[t.node := m[t.node].(color := c)], root, ctx, t.(color := c))
  {
    var m' := m[t.node := m[t.node].(color := c)];
    LinkedFrame(m, m', t.left);
    LinkedFrame(m, m', t.right);
    TopNode(t);
    CtxFrame(m, m', ctx, root, t.node);
  }

  // ---- moving about

  /** The context of the sibling. */
  function Flip(ctx: Ctx, t: Tree): Ctx
    requires !ctx.Top?
  {
    if ctx.InLeft? then InRight(ctx.up, t, ctx.node, ctx.color) else InLeft(ctx.up, ctx.node, ctx.color, t)
  }

  lemma Sideways(m: Links, root: Node?, ctx: Ctx, t: Tree)
    requires Focus(m, root, ctx, t) && !ctx.Top?
    ensures Focus(m, root, Flip(ctx, t), Sibling(ctx)) && Wrap(Flip(ctx, t), Sibling(ctx)) == Wrap(ctx, t)
  {
    MoveUp(m, root, ctx, t);
    MoveUp(m, root, Flip(ctx, t), Sibling(ctx));
  }

  lemma ChildrenDiffer(m: Links, root: Node?, ctx: Ctx, t: Tree)
    requires Focus(m, root, ctx, t) && !ctx.Top?
    ensures t.Br? ==> t.node != NodeOf(Sibling(ctx))
  {
    TopNode(t);
    TopNode(Sibling(ctx));
  }

  lemma {:induction false} RootAbove(m: Links, root: Node?, ctx: Ctx, hole: Node?)
    requires CtxLinked(m, ctx, root, hole) && !ctx.Top?
    ensures root != null && root in CtxNodes(ctx)
  {
    if !ctx.up.Top? {
      RootAbove(m, root, ctx.up, ctx.node);
    }
  }

  // ---- a new leaf

  /** The links after `z` has been hung into an empty place. */
  function Attached(m: Links, ctx: Ctx, z: Node): Links
    requires !ctx.Top? ==> ctx.node in m
  {
    var m1 := m[z := Cell(ParentOf(ctx), null, null, Red)];
    match ctx
    case Top => m1
    case InLeft(_, n, _, _) => m1[n := m1[n].(left := z)]
    case InRight(_, _, n, _) => m1[n := m1[n].(right := z)]
  }

  lemma Attach(m: Links, root: Node?, ctx: Ctx, z: Node)
    requires Focus(m, root, ctx, Leaf) && z !in CtxNodes(ctx)
    ensures !ctx.Top? ==> ctx.node in m
    ensures Focus(Attached(m, ctx, z), if ctx.Top? then z else root, ctx, Br(Leaf, z, Red, Leaf))
  {
    assert !ctx.Top? ==> ctx.node in CtxNodes(ctx);
    CtxReplaced(m, Attached(m, ctx, z), ctx, root, if ctx.Top? then z else root, null, z);
  }

  // ---- taking nodes out

  predicate Transplantable(m: Links, u: Node, v: Node?) {
    u in m && (m[u].parent != null ==> m[u].parent in m) && (v != null ==> v in m)
  }

  /** The links after `u` has made way for `v` below the parent of `u`. */
  function Transplanted(m: Links, u: Node, v: Node?): Links
    requires Transplantable(m, u, v)
  {
    Replaced(m, m[u].parent, u, v)
  }

  /** A node with one child at most makes way for it. */
  lemma TransplantChild(m: Links, root: Node?, ctx: Ctx, t: Tree, s: Tree)
    requires Focus(m, root, ctx, t) && t.Br? && (t == Br(Leaf, t.node, t.color, s) || t == Br(s, t.node, t.color, Leaf))
    ensures t.node in m && m[t.node].parent == ParentOf(ctx) && (!ctx.Top? ==> ctx.node in m) && (s.Br? ==> s.node in m)
    ensures Focus(Transplanted(m, t.node, NodeOf(s)), if ctx.Top? then NodeOf(s) else root, ctx, s)
  {
    hide Replaced;
    TopNode(s);
    assert Distinct(s) && Linked(m, s) && Nodes(s) <= Nodes(t);
    assert !ctx.Top? ==> ctx.node in CtxNodes(ctx);
    var m' := Transplanted(m, t.node, NodeOf(s));
    LinkedFrame(m, m', s);
    SwitchedCtx(m, m', root, if ctx.Top? then NodeOf(s) else root, ctx, t.node, NodeOf(s));
  }

  /** A node `y` that already holds the right subtree `r` of `n`, with `l` still below `n`. */
  predicate Heir(m: Links, root: Node?, ctx: Ctx, l: Tree, n: Node, c: Color, y: Node, r: Tree) {
    && Apart(ctx, l, n, Leaf, y, r) && CtxLinked(m, ctx, root, n) && n in m && y in m
    && m[n].parent == ParentOf(ctx) && m[n].left == NodeOf(l) && m[n].color == c && m[y].right == NodeOf(r)
    && HangsFrom(m, l, n) && HangsFrom(m, r, y) && Linked(m, l) && Linked(m, r)
  }

  /** The links after `y` has taken the place of `n`. */
  function Inherited(m: Links, n: Node, y: Node, l: Node): Links
    requires n in m && y in m && l in m && (m[n].parent != null ==> m[n].parent in m)
  {
    var m1 := Transplanted(m, n, y);
    var m2 := m1[y := m1[y].(left := l)];
    var m3 := m2[l := m2[l].(parent := y)];
    m3[y := m3[y].(color := m3[n].color)]
  }

  lemma Inherit(m: Links, root: Node?, ctx: Ctx, l: Tree, n: Node, c: Color, y: Node, r: Tree)
    requires Heir(m, root, ctx, l, n, c, y, r) && l.Br?
    ensures l.node in m && (!ctx.Top? ==> ctx.node in m)
    ensures Focus(Inherited(m, n, y, l.node), if ctx.Top? then y else root, ctx, Br(l, y, c, r))
  {
    hide Replaced, DistinctCtx;
    TopNode(l);
    TopNode(r);
    assert !ctx.Top? ==> ctx.node in CtxNodes(ctx) && ctx.node in m;
    var m' := Inherited(m, n, y, l.node);
    LinkedFrame(m, m', l);
    LinkedFrame(m, m', r);
    SwitchedCtx(m, m', root, if ctx.Top? then y else root, ctx, n, y);
    LinkedAt(m', l, y, c, r);
    DistinctAt(l, y, c, r);
  }

  lemma {:induction false} PlugBr(ctx: Ctx, t: Tree)
    requires t.Br? || !ctx.Top?
    ensures Plug(ctx, t).Br?
    decreases Depth(ctx)
  {
    if !ctx.Top? {
      PlugBr(ctx.up, Wrap(ctx, t));
    }
  }

  /** When the heir already is the right child. */
  lemma HeirChild(m: Links, root: Node?, ctx: Ctx, l: Tree, n: Node, c: Color, y: Node, k: Color, r: Tree)
    requires Focus(m, root, ctx, Br(l, n, c, Br(Leaf, y, k, r)))
    ensures Heir(m, root, ctx, l, n, c, y, r)
  {
    hide Focus, Apart, Linked, CtxLinked, Nodes, CtxNodes;
    OpenRight(m, root, ctx, l, n, c, Leaf, y, k, r);
  }

  lemma OpenNode(m: Links, root: Node?, ctx: Ctx, l: Tree, n: Node, c: Color, r: Tree)
    requires Focus(m, root, ctx, Br(l, n, c, r))
    ensures n in m && m[n] == Cell(ParentOf(ctx), NodeOf(l), NodeOf(r), c) && CtxLinked(m, ctx, root, n)
    ensures r.Br? ==> r.node in m
    ensures HangsFrom(m, l, n) && Linked(m, l) && HangsFrom(m, r, n) && Linked(m, r)
    ensures DistinctCtx(ctx) && Distinct(l) && Distinct(r) && n !in CtxNodes(ctx) && n !in Nodes(l) && n !in Nodes(r)
    ensures Nodes(l) !! Nodes(r) && CtxNodes(ctx) !! Nodes(l) && CtxNodes(ctx) !! Nodes(r)
  {
  }

  /** The links after the subtree at `p` has been hung to the right below `y`. */
  function Bestowed(m: Links, y: Node, p: Node): (m': Links)
    requires y in m && p in m
    ensures y in m' && p in m' && forall o :: o in m && o != y && o != p ==> o in m' && m'[o] == m[o]
    ensures y != p ==> m'[y] == m[y].(right := p) && m'[p] == m[p].(parent := y)
  {
    var m1 := m[y := m[y].(right := p)];
    m1[p := m1[p].(parent := y)]
  }

  /** When the heir is taken out from deeper in the right subtree: what is left of that subtree is hung below it. */
  lemma HeirDeep(m: Links, root: Node?, ctx: Ctx, l: Tree, n: Node, c: Color, y: Node, r: Tree)
    requires Focus(m, root, ctx, Br(l, n, c, r)) && r.Br? && y in m
    requires y != n && y !in Nodes(l) && y !in Nodes(r) && y !in CtxNodes(ctx)
    ensures r.node in m && Heir(Bestowed(m, y, r.node), root, ctx, l, n, c, y, r)
  {
    hide Focus, Linked, CtxLinked, Distinct, DistinctCtx, Nodes, CtxNodes, Bestowed, Apart, HangsFrom;
    HeirFrames(m, root, ctx, l, n, c, y, r);
    HeirHangs(m, root, ctx, l, n, c, y, r);
  }

  lemma HeirFrames(m: Links, root: Node?, ctx: Ctx, l: Tree, n: Node, c: Color, y: Node, r: Tree)
    requires Focus(m, root, ctx, Br(l, n, c, r)) && r.Br? && y in m
    requires y != n && y !in Nodes(l) && y !in Nodes(r) && y !in CtxNodes(ctx)
    ensures r.node in m
    ensures var m' := Bestowed(m, y, r.node); Linked(m', l) && Linked(m', r) && CtxLinked(m', ctx, root, n)
  {
    hide Focus, Linked, CtxLinked, Distinct, DistinctCtx, Nodes, CtxNodes, Bestowed, HangsFrom;
    OpenNode(m, root, ctx, l, n, c, r);
    TopNode(r);
    FramesApart(m, Bestowed(m, y, r.node), ctx, root, l, n, r, y);
  }

  lemma HeirHangs(m: Links, root: Node?, ctx: Ctx, l: Tree, n: Node, c: Color, y: Node, r: Tree)
    requires Focus(m, root, ctx, Br(l, n, c, r)) && r.Br? && y in m && r.node in m
    requires y != n && y !in Nodes(l) && y !in Nodes(r) && y !in CtxNodes(ctx)
    ensures Apart(ctx, l, n, Leaf, y, r)
    ensures var m' := Bestowed(m, y, r.node);
      && n in m' && m'[n] == Cell(ParentOf(ctx), NodeOf(l), NodeOf(r), c)
      && y in m' && m'[y].right == r.node && HangsFrom(m', l, n) && HangsFrom(m', r, y)
  {
    hide Focus, Linked, CtxLinked, Distinct, DistinctCtx, Nodes, CtxNodes, Bestowed, Apart, HangsFrom;
    OpenNode(m, root, ctx, l, n, c, r);
    WithoutMiddle(ctx, l, n, y, r);
    BestowedHangs(m, l, n, y, r);
  }

  lemma BestowedHangs(m: Links, l: Tree, n: Node, y: Node, r: Tree)
    requires y in m && n in m && r.Br? && r.node in m && HangsFrom(m, l, n)
    requires n != y && n !in Nodes(r) && y !in Nodes(r) && y !in Nodes(l) && Nodes(l) !! Nodes(r)
    ensures var m' := Bestowed(m, y, r.node);
      n in m' && m'[n] == m[n] && m'[y].right == r.node && HangsFrom(m', l, n) && HangsFrom(m', r, y)
  {
    TopNode(l);
    TopNode(r);
  }

  lemma WithoutMiddle(ctx: Ctx, l: Tree, n: Node, y: Node, r: Tree)
    requires Distinct(l) && Distinct(r) && DistinctCtx(ctx)
    requires n !in CtxNodes(ctx) && n !in Nodes(l) && n !in Nodes(r)
    requires Nodes(l) !! Nodes(r) && CtxNodes(ctx) !! Nodes(l) && CtxNodes(ctx) !! Nodes(r)
    requires y != n && y !in Nodes(l) && y !in Nodes(r) && y !in CtxNodes(ctx)
    ensures Apart(ctx, l, n, Leaf, y, r)
  {
  }

  lemma FramesApart(m: Links, m': Links, ctx: Ctx, root: Node?, l: Tree, n: Node, r: Tree, y: Node)
    requires Linked(m, l) && Linked(m, r) && CtxLinked(m, ctx, root, n) && Distinct(l) && Distinct(r)
      && DistinctCtx(ctx)
    requires r.Br? && r.node in m
    requires y !in Nodes(l) && y !in Nodes(r) && y !in CtxNodes(ctx) && Nodes(l) !! Nodes(r)
      && CtxNodes(ctx) !! Nodes(r)
    requires forall o :: o in m && o != y && o != r.node ==> o in m' && m'[o] == m[o]
    requires r.node in m' && m'[r.node] == m[r.node].(parent := y)
    ensures Linked(m', l) && Linked(m', r) && CtxLinked(m', ctx, root, n)
  {
    hide Linked, CtxLinked, Distinct, DistinctCtx, Nodes, CtxNodes;
    TopNode(r);
    LinkedFrame(m, m', l);
    LinkedFrame(m, m', r);
    CtxFrame(m, m', ctx, root, n);
  }

  /** Cutting the leftmost node out of the right subtree. */
  lemma CutLeftmost(m: Links, root: Node?, inner: Ctx, ctx: Ctx, l: Tree, n: Node, c: Color, y: Node, k: Color, s: Tree)
    requires !inner.Top? && Focus(m, root, Join(inner, InRight(ctx, l, n, c)), Br(Leaf, y, k, s))
    ensures y in m && m[y].parent == inner.node && inner.node in m && (s.Br? ==> s.node in m)
    ensures Focus(Transplanted(m, y, NodeOf(s)), root, ctx, Br(l, n, c, Plug(inner, s)))
    ensures y != n && y !in Nodes(l) && y !in Nodes(Plug(inner, s)) && y !in CtxNodes(ctx)
  {
    hide Replaced, Linked, CtxLinked, Plug;
    var outer := InRight(ctx, l, n, c);
    TransplantChild(m, root, Join(inner, outer), Br(Leaf, y, k, s), s);
    var m' := Transplanted(m, y, NodeOf(s));
    JoinFocus(m', root, inner, outer, s);
    MoveUp(m', root, outer, Plug(inner, s));
    DistinctAt(Leaf, y, k, s);
    assert y !in Nodes(s) + CtxNodes(Join(inner, outer));
  }

  lemma HeirIsNot(m: Links, root: Node?, ctx: Ctx, l: Tree, n: Node, c: Color, y: Node, r: Tree)
    requires Heir(m, root, ctx, l, n, c, y, r) && l.Br?
    ensures y != n && y != l.node && n != l.node && y != ParentOf(ctx) && n != ParentOf(ctx)
  {
    TopNode(l);
    assert !ctx.Top? ==> ctx.node in CtxNodes(ctx);
  }

  lemma TransplantedKeeps(m: Links, u: Node, v: Node)
    requires Transplantable(m, u, v) && u != v && u != m[u].parent && v != m[u].parent
    ensures var m' := Transplanted(m, u, v); u in m' && m'[u] == m[u]
  {
  }

  lemma TopPlug(t: Tree)
    ensures Plug(Top, t) == t
  {
  }

  /** The parent of a node is none of the nodes below it. */
  lemma ParentDiffers(m: Links, root: Node?, ctx: Ctx, t: Tree, s: Tree)
    requires Focus(m, root, ctx, t) && t.Br? && (s == t.left || s == t.right) && !ctx.Top?
    ensures ctx.node in m && NodeOf(s) != ctx.node && (s.Br? ==> s.node in m)
  {
    TopNode(s);
  }

  lemma {:induction false} OuterNodes(inner: Ctx, outer: Ctx)
    ensures CtxNodes(outer) <= CtxNodes(Join(inner, outer))
    decreases Depth(inner)
  {
    if !inner.Top? {
      OuterNodes(inner.up, outer);
    }
  }

  lemma InnerParent(m: Links, root: Node?, inner: Ctx, outer: Ctx, t: Tree)
    requires Focus(m, root, Join(inner, outer), t) && !outer.Top?
    ensures if inner.Top? then ParentOf(Join(inner, outer)) == outer.node
      else ParentOf(Join(inner, outer)) == inner.node && inner.node != outer.node
  {
    if !inner.Top? {
      OuterNodes(inner.up, outer);
    }
  }

  lemma Unheld(m: Links, root: Node?, t: Tree, n: Node)
    requires Focus(m, root, Top, t) && n !in Nodes(t)
    ensures Focus(m - {n}, root, Top, t)
  {
    TopNode(t);
    LinkedFrame(m, m - {n}, t);
  }
}
