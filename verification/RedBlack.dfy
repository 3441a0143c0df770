/** Red-black trees as values: the trees and contexts that the linked nodes of kernel/src/util/rbtree.c spell out. */
module RedBlack {
  datatype Color = Red | Black

  /** An area with its embedded tree node. The key of the tree is the base. */
  class Node {
    const base: nat
    var size: nat
    var flags: bv32
    var parent: Node?
    var left: Node?
    var right: Node?
    var color: Color

    constructor (base: nat, size: nat, flags: bv32)
      ensures this.base == base && this.size == size && this.flags == flags
    {
      this.base, this.size, this.flags := base, size, flags;
      parent, left, right, color := null, null, null, Black;
    }
  }

  datatype Tree = Leaf | Br(left: Tree, node: Node, color: Color, right: Tree)

  /** A tree with a hole in it, from the hole outwards: the hole is the left (InLeft) or the right (InRight) subtree of
      `node`, which itself sits in `up`. */
  datatype Ctx =
    | Top
    | InLeft(up: Ctx, node: Node, color: Color, right: Tree)
    | InRight(up: Ctx, left: Tree, node: Node, color: Color)

  function NodeOf(t: Tree): Node? {
    if t.Leaf? then null else t.node
  }

  function ColorOf(t: Tree): Color {
    if t.Leaf? then Black else t.color
  }

  function ParentOf(ctx: Ctx): Node? {
    if ctx.Top? then null else ctx.node
  }

  function Nodes(t: Tree): set<Node> {
    if t.Leaf? then {} else Nodes(t.left) + {t.node} + Nodes(t.right)
  }

  function CtxNodes(ctx: Ctx): set<Node> {
    match ctx
    case Top => {}
    case InLeft(up, n, _, r) => CtxNodes(up) + {n} + Nodes(r)
    case InRight(up, l, n, _) => CtxNodes(up) + Nodes(l) + {n}
  }

  function InOrder(t: Tree): seq<Node> {
    if t.Leaf? then [] else InOrder(t.left) + [t.node] + InOrder(t.right)
  }

  function Before(ctx: Ctx): seq<Node> {
    match ctx
    case Top => []
    case InLeft(up, n, _, r) => Before(up)
    case InRight(up, l, n, _) => Before(up) + InOrder(l) + [n]
  }

  function After(ctx: Ctx): seq<Node> {
    match ctx
    case Top => []
    case InLeft(up, n, _, r) => [n] + InOrder(r) + After(up)
    case InRight(up, l, n, _) => After(up)
  }

  function Plug(ctx: Ctx, t: Tree): Tree {
    match ctx
    case Top => t
    case InLeft(up, n, c, r) => Plug(up, Br(t, n, c, r))
    case InRight(up, l, n, c) => Plug(up, Br(l, n, c, t))
  }

  function Depth(ctx: Ctx): nat {
    if ctx.Top? then 0 else 1 + Depth(ctx.up)
  }

  lemma Regroup(a: seq<Node>, b: seq<Node>, c: seq<Node>, d: seq<Node>, e: seq<Node>)
    ensures a + (b + c + d) + e == a + b + (c + d + e)
    ensures a + (b + c + d) + e == (a + b + c) + d + e
    ensures a + (b + c + d) + e == (a + b) + c + (d + e)
  {
    assert a + (b + c + d) + e == a + b + c + d + e;
  }

  lemma {:induction false} InOrderPlug(ctx: Ctx, t: Tree)
    ensures InOrder(Plug(ctx, t)) == Before(ctx) + InOrder(t) + After(ctx)
  {
    match ctx
    case Top =>
    case InLeft(up, n, c, r) =>
      InOrderPlug(up, Br(t, n, c, r));
      Regroup(Before(up), InOrder(t), [n], InOrder(r), After(up));
    case InRight(up, l, n, c) =>
      InOrderPlug(up, Br(l, n, c, t));
      Regroup(Before(up), InOrder(l), [n], InOrder(t), After(up));
  }

  lemma {:induction false} InOrderNodes(t: Tree)
    ensures Nodes(t) == set n | n in InOrder(t)
  {
    if t.Br? {
      InOrderNodes(t.left);
      InOrderNodes(t.right);
    }
  }

  // ---- no node occurs twice

  predicate Distinct(t: Tree) {
    t.Br? ==>
      && Distinct(t.left) && Distinct(t.right)
      && t.node !in Nodes(t.left) && t.node !in Nodes(t.right) && Nodes(t.left) !! Nodes(t.right)
  }

  predicate DistinctCtx(ctx: Ctx) {
    match ctx
    case Top => true
    case InLeft(up, n, _, t) =>
      DistinctCtx(up) && Distinct(t) && n !in CtxNodes(up) && n !in Nodes(t) && CtxNodes(up) !! Nodes(t)
    case InRight(up, t, n, _) =>
      DistinctCtx(up) && Distinct(t) && n !in CtxNodes(up) && n !in Nodes(t) && CtxNodes(up) !! Nodes(t)
  }

  // ---- the linked nodes spell out a tree

  datatype Cell = Cell(parent: Node?, left: Node?, right: Node?, color: Color)

  type Links = map<Node, Cell>

  ghost function LinksOf(nodes: set<Node>): Links
    reads nodes`parent, nodes`left, nodes`right, nodes`color
  {
    map n | n in nodes :: Cell(n.parent, n.left, n.right, n.color)
  }

  predicate HangsFrom(m: Links, t: Tree, par: Node?) {
    t.Br? ==> t.node in m && m[t.node].parent == par
  }

  /** Everything but the parent link of the topmost node. */
  predicate Linked(m: Links, t: Tree) {
    t.Br? ==>
      && t.node in m && m[t.node].color == t.color
      && m[t.node].left == NodeOf(t.left) && m[t.node].right == NodeOf(t.right)
      && HangsFrom(m, t.left, t.node) && Linked(m, t.left)
      && HangsFrom(m, t.right, t.node) && Linked(m, t.right)
  }

  predicate CtxLinked(m: Links, ctx: Ctx, root: Node?, hole: Node?) {
    match ctx
    case Top => root == hole
    case InLeft(up, n, c, r) =>
      && n in m && m[n] == Cell(ParentOf(up), hole, NodeOf(r), c)
      && HangsFrom(m, r, n) && Linked(m, r) && CtxLinked(m, up, root, n)
    case InRight(up, l, n, c) =>
      && n in m && m[n] == Cell(ParentOf(up), NodeOf(l), hole, c)
      && HangsFrom(m, l, n) && Linked(m, l) && CtxLinked(m, up, root, n)
  }

  /** The nodes hanging off `root` are the tree `t` in the context `ctx`. */
  predicate Focus(m: Links, root: Node?, ctx: Ctx, t: Tree) {
    && CtxLinked(m, ctx, root, NodeOf(t)) && HangsFrom(m, t, ParentOf(ctx)) && Linked(m, t)
    && DistinctCtx(ctx) && Distinct(t) && CtxNodes(ctx) !! Nodes(t)
  }

  /** The same links below the topmost node. */
  ghost predicate SameBelow(m: Links, m': Links, t: Tree) {
    forall n :: n in Nodes(t) && n in m ==>
      n in m' && m'[n].left == m[n].left && m'[n].right == m[n].right && m'[n].color == m[n].color
                                             && (n != t.node ==> m'[n].parent == m[n].parent)
  }

  lemma {:induction false} LinkedFrame(m: Links, m': Links, t: Tree)
    requires Linked(m, t) && Distinct(t) && SameBelow(m, m', t)
    ensures Linked(m', t)
  {
    if t.Br? {
      LinkedFrame(m, m', t.left);
      LinkedFrame(m, m', t.right);
    }
  }

  lemma {:induction false} CtxFrame(m: Links, m': Links, ctx: Ctx, root: Node?, hole: Node?)
    requires CtxLinked(m, ctx, root, hole) && DistinctCtx(ctx)
    requires forall n :: n in CtxNodes(ctx) && n in m ==> n in m' && m'[n] == m[n]
    ensures CtxLinked(m', ctx, root, hole)
  {
    match ctx
    case Top =>
    case InLeft(up, n, c, t) =>
      LinkedFrame(m, m', t);
      CtxFrame(m, m', up, root, n);
    case InRight(up, t, n, c) =>
      LinkedFrame(m, m', t);
      CtxFrame(m, m', up, root, n);
  }

  /** The tree that holds the hole of `ctx` directly. */
  function Wrap(ctx: Ctx, t: Tree): Tree
    requires !ctx.Top?
  {
    if ctx.InLeft? then Br(t, ctx.node, ctx.color, ctx.right) else Br(ctx.left, ctx.node, ctx.color, t)
  }

  lemma MoveUp(m: Links, root: Node?, ctx: Ctx, t: Tree)
    requires !ctx.Top?
    ensures Focus(m, root, ctx, t) <==> Focus(m, root, ctx.up, Wrap(ctx, t))
    ensures Nodes(Wrap(ctx, t)) + CtxNodes(ctx.up) == Nodes(t) + CtxNodes(ctx)
    ensures Plug(ctx, t) == Plug(ctx.up, Wrap(ctx, t))
  {
  }

  lemma {:induction false} Zip(m: Links, root: Node?, ctx: Ctx, t: Tree)
    ensures Focus(m, root, ctx, t) <==> Focus(m, root, Top, Plug(ctx, t))
    ensures Nodes(Plug(ctx, t)) == Nodes(t) + CtxNodes(ctx)
    decreases Depth(ctx)
  {
    if !ctx.Top? {
      MoveUp(m, root, ctx, t);
      Zip(m, root, ctx.up, Wrap(ctx, t));
    }
  }

  /** Puts the focus on a node below the present one. */
  lemma {:induction false} Locate(m: Links, root: Node?, ctx: Ctx, t: Tree, n: Node) returns (ctx': Ctx, t': Tree)
    requires Focus(m, root, ctx, t) && n in Nodes(t)
    ensures Focus(m, root, ctx', t') && t'.Br? && t'.node == n && Plug(ctx', t') == Plug(ctx, t)
    ensures Nodes(t') + CtxNodes(ctx') == Nodes(t) + CtxNodes(ctx)
    decreases t
  {
    if n == t.node {
      return ctx, t;
    } else if n in Nodes(t.left) {
      var inner := InLeft(ctx, t.node, t.color, t.right);
      MoveUp(m, root, inner, t.left);
      ctx', t' := Locate(m, root, inner, t.left, n);
    } else {
      var inner := InRight(ctx, t.left, t.node, t.color);
      MoveUp(m, root, inner, t.right);
      ctx', t' := Locate(m, root, inner, t.right, n);
    }
  }

  /** One context inside another. */
  function Join(inner: Ctx, outer: Ctx): Ctx {
    match inner
    case Top => outer
    case InLeft(up, n, c, r) => InLeft(Join(up, outer), n, c, r)
    case InRight(up, l, n, c) => InRight(Join(up, outer), l, n, c)
  }

  lemma {:induction false} JoinFocus(m: Links, root: Node?, inner: Ctx, outer: Ctx, t: Tree)
    ensures Focus(m, root, Join(inner, outer), t) <==> Focus(m, root, outer, Plug(inner, t))
    ensures Plug(Join(inner, outer), t) == Plug(outer, Plug(inner, t))
    ensures Nodes(t) + CtxNodes(Join(inner, outer)) == Nodes(Plug(inner, t)) + CtxNodes(outer)
    decreases Depth(inner)
  {
    if !inner.Top? {
      MoveUp(m, root, Join(inner, outer), t);
      JoinFocus(m, root, inner.up, outer, Wrap(inner, t));
    }
  }

  // ---- the red-black rules

  function Weight(c: Color): nat {
    if c == Black then 1 else 0
  }

  function BlackHeight(t: Tree): nat {
    if t.Leaf? then 0 else BlackHeight(t.left) + Weight(t.color)
  }

  /** No red node has a red child, and every way down meets equally many black nodes. */
  predicate RedBlackTree(t: Tree) {
    t.Br? ==>
      && RedBlackTree(t.left) && RedBlackTree(t.right) && BlackHeight(t.left) == BlackHeight(t.right)
      && (t.color == Red ==> ColorOf(t.left) == Black && ColorOf(t.right) == Black)
  }

  /** A red-black tree of black height `h` and colour `c` in this hole makes a red-black tree with a black root. */
  predicate RedBlackCtx(ctx: Ctx, h: nat, c: Color) {
    match ctx
    case Top => c == Black
    case InLeft(up, _, k, t) =>
      RedBlackTree(t) && BlackHeight(t) == h && (k == Red ==> c == Black && ColorOf(t) == Black)
        && RedBlackCtx(up, h + Weight(k), k)
    case InRight(up, t, _, k) =>
      RedBlackTree(t) && BlackHeight(t) == h && (k == Red ==> c == Black && ColorOf(t) == Black)
        && RedBlackCtx(up, h + Weight(k), k)
  }

  predicate Balanced(t: Tree) {
    RedBlackTree(t) && ColorOf(t) == Black
  }

  lemma {:induction false} BalancedPlug(ctx: Ctx, t: Tree)
    ensures Balanced(Plug(ctx, t)) <==> RedBlackTree(t) && RedBlackCtx(ctx, BlackHeight(t), ColorOf(t))
    decreases Depth(ctx)
  {
    if !ctx.Top? {
      BalancedPlug(ctx.up, Wrap(ctx, t));
    }
  }

  function Pow2(n: nat): nat {
    if n == 0 then 1 else 2 * Pow2(n - 1)
  }

  function Height(t: Tree): nat {
    if t.Leaf? then 0 else 1 + if Height(t.left) > Height(t.right) then Height(t.left) else Height(t.right)
  }

  lemma {:induction false} BlackHeightBounds(t: Tree)
    requires RedBlackTree(t)
    ensures Height(t) <= 2 * BlackHeight(t) + 1 - Weight(ColorOf(t))
    ensures Pow2(BlackHeight(t)) <= |InOrder(t)| + 1
  {
    if t.Br? {
      BlackHeightBounds(t.left);
      BlackHeightBounds(t.right);
    }
  }

  lemma {:induction false} Pow2Monotone(a: nat, b: nat)
    requires a <= b
    ensures Pow2(a) <= Pow2(b)
  {
    if a < b {
      Pow2Monotone(a, b - 1);
    }
  }

  /** The height is at most twice the binary logarithm of the number of nodes plus one. */
  lemma HeightIsLogarithmic(t: Tree)
    requires Balanced(t)
    ensures Pow2((Height(t) + 1) / 2) <= |InOrder(t)| + 1
  {
    BlackHeightBounds(t);
    Pow2Monotone((Height(t) + 1) / 2, BlackHeight(t));
  }

  // ---- insertion

  function Sibling(ctx: Ctx): Tree
    requires !ctx.Top?
  {
    if ctx.InLeft? then ctx.right else ctx.left
  }

  /** All is well but for the red node `t` perhaps having a red parent. */
  predicate Inserting(ctx: Ctx, t: Tree) {
    t.Br? && t.color == Red && RedBlackTree(t) && RedBlackCtx(ctx, BlackHeight(t), Black)
  }

  lemma CtxStep(ctx: Ctx, h: nat, c: Color)
    requires !ctx.Top?
    ensures RedBlackCtx(ctx, h, c) <==>
      (RedBlackTree(Sibling(ctx)) && BlackHeight(Sibling(ctx)) == h
       && (ctx.color == Red ==> c == Black && ColorOf(Sibling(ctx)) == Black)
       && RedBlackCtx(ctx.up, h + Weight(ctx.color), ctx.color))
  {
  }

  lemma RedParent(ctx: Ctx, t: Tree)
    requires Inserting(ctx, t) && !ctx.Top? && ctx.color == Red
    ensures !ctx.up.Top? && ctx.up.color == Black
  {
    CtxStep(ctx, BlackHeight(t), Black);
  }

  function Painted(t: Tree, c: Color): Tree {
    if t.Leaf? then Leaf else t.(color := c)
  }

  /** The tree at the grandparent after its two red children have been painted black and itself red. */
  function Recolored(ctx: Ctx, t: Tree): Tree
    requires !ctx.Top? && !ctx.up.Top? && Sibling(ctx.up).Br?
  {
    var p, u := Painted(Wrap(ctx, t), Black), Painted(Sibling(ctx.up), Black);
    if ctx.up.InLeft? then Br(p, ctx.up.node, Red, u) else Br(u, ctx.up.node, Red, p)
  }

  lemma InsertRecolor(ctx: Ctx, t: Tree)
    requires Inserting(ctx, t) && !ctx.Top? && ctx.color == Red && !ctx.up.Top? && ColorOf(Sibling(ctx.up)) == Red
    ensures Inserting(ctx.up.up, Recolored(ctx, t))
    ensures InOrder(Plug(ctx.up.up, Recolored(ctx, t))) == InOrder(Plug(ctx, t))
  {
    CtxStep(ctx, BlackHeight(t), Black);
    CtxStep(ctx.up, BlackHeight(t), Red);
    var p, u := Wrap(ctx, t), Sibling(ctx.up);
    assert InOrder(Painted(p, Black)) == InOrder(p) && InOrder(Painted(u, Black)) == InOrder(u);
    SameInOrder(ctx.up.up, Recolored(ctx, t), Wrap(ctx.up, p));
  }

  /** An inner red grandchild is turned into an outer one: the hole moves to the old parent. */
  function TurnedCtx(ctx: Ctx, t: Tree): Ctx
    requires !ctx.Top? && t.Br?
  {
    if ctx.InRight? then InLeft(ctx.up, t.node, t.color, t.right) else InRight(ctx.up, t.left, t.node, t.color)
  }

  function TurnedTree(ctx: Ctx, t: Tree): Tree
    requires !ctx.Top? && t.Br?
  {
    if ctx.InRight? then Br(ctx.left, ctx.node, ctx.color, t.left) else Br(t.right, ctx.node, ctx.color, ctx.right)
  }

  lemma InsertTurn(ctx: Ctx, t: Tree)
    requires Inserting(ctx, t) && !ctx.Top? && ctx.color == Red
    ensures Inserting(TurnedCtx(ctx, t), TurnedTree(ctx, t))
    ensures InOrder(Plug(TurnedCtx(ctx, t), TurnedTree(ctx, t))) == InOrder(Plug(ctx, t))
  {
    CtxStep(ctx, BlackHeight(t), Black);
    var ctx', t' := TurnedCtx(ctx, t), TurnedTree(ctx, t);
    CtxStep(ctx', BlackHeight(t'), Black);
    if ctx.InRight? {
      RotationInOrder(ctx.left, ctx.node, ctx.color, t.left, t.node, t.color, t.right, ctx.color, t.color);
    } else {
      RotationInOrder(t.left, t.node, t.color, t.right, ctx.node, ctx.color, ctx.right, t.color, ctx.color);
    }
    SameInOrder(ctx.up, Wrap(ctx', t'), Wrap(ctx, t));
  }

  /** The parent, now black, takes the place of the grandparent, which becomes red. */
  function RaisedCtx(ctx: Ctx): Ctx
    requires !ctx.Top? && !ctx.up.Top?
  {
    if ctx.InLeft? then InLeft(ctx.up.up, ctx.node, Black, Br(ctx.right, ctx.up.node, Red, Sibling(ctx.up)))
    else InRight(ctx.up.up, Br(Sibling(ctx.up), ctx.up.node, Red, ctx.left), ctx.node, Black)
  }

  lemma InsertRaise(ctx: Ctx, t: Tree)
    requires Inserting(ctx, t) && !ctx.Top? && ctx.color == Red && !ctx.up.Top? && ColorOf(Sibling(ctx.up)) == Black
    requires ctx.InLeft? <==> ctx.up.InLeft?
    ensures Inserting(RaisedCtx(ctx), t)
    ensures InOrder(Plug(RaisedCtx(ctx), t)) == InOrder(Plug(ctx, t))
  {
    CtxStep(ctx, BlackHeight(t), Black);
    CtxStep(ctx.up, BlackHeight(t), Red);
    var ctx' := RaisedCtx(ctx);
    CtxStep(ctx', BlackHeight(t), Black);
    if ctx.InLeft? {
      RotationInOrder(t, ctx.node, ctx.color, ctx.right, ctx.up.node, ctx.up.color, ctx.up.right, Black, Red);
    } else {
      RotationInOrder(ctx.up.left, ctx.up.node, ctx.up.color, ctx.left, ctx.node, ctx.color, t, Red, Black);
    }
    SameInOrder(ctx.up.up, Wrap(ctx', t), Wrap(ctx.up, Wrap(ctx, t)));
  }

  lemma InsertDone(ctx: Ctx, t: Tree)
    requires Inserting(ctx, t) && (ctx.Top? || ctx.color == Black)
    ensures Plug(ctx, t).Br? && Balanced(Painted(Plug(ctx, t), Black))
    ensures InOrder(Painted(Plug(ctx, t), Black)) == InOrder(Plug(ctx, t))
  {
    if !ctx.Top? {
      CtxStep(ctx, BlackHeight(t), Black);
      CtxStep(ctx, BlackHeight(t), Red);
      BalancedPlug(ctx, t);
      InOrderPlug(ctx, t);
      assert t.node in InOrder(t);
    }
  }

  lemma RotationInOrder(a: Tree, x: Node, c: Color, b: Tree, y: Node, k: Color, d: Tree, c': Color, k': Color)
    ensures InOrder(Br(Br(a, x, c, b), y, k, d)) == InOrder(Br(a, x, c', Br(b, y, k', d)))
    ensures InOrder(Br(Br(a, x, c', b), y, k', d)) == InOrder(Br(a, x, c, Br(b, y, k, d)))
  {
    assert InOrder(Br(a, x, c, b)) == InOrder(Br(a, x, c', b)) == InOrder(a) + [x] + InOrder(b);
    assert InOrder(Br(b, y, k, d)) == InOrder(Br(b, y, k', d)) == InOrder(b) + [y] + InOrder(d);
  }

  lemma SameInOrder(ctx: Ctx, t: Tree, t': Tree)
    requires InOrder(t) == InOrder(t')
    ensures InOrder(Plug(ctx, t)) == InOrder(Plug(ctx, t'))
  {
    InOrderPlug(ctx, t);
    InOrderPlug(ctx, t');
  }

  // ---- removal

  /** All is well but for `t` being one black node short, and perhaps red under or over red. */
  predicate Removing(ctx: Ctx, t: Tree) {
    RedBlackTree(Painted(t, Black)) && RedBlackCtx(ctx, BlackHeight(t) + 1, Black)
  }

  /** The nephew next to the hole, and the other one. */
  function Near(ctx: Ctx): Tree
    requires !ctx.Top? && Sibling(ctx).Br?
  {
    if ctx.InLeft? then Sibling(ctx).left else Sibling(ctx).right
  }

  function Far(ctx: Ctx): Tree
    requires !ctx.Top? && Sibling(ctx).Br?
  {
    if ctx.InLeft? then Sibling(ctx).right else Sibling(ctx).left
  }

  function WithSibling(ctx: Ctx, s: Tree): Ctx
    requires !ctx.Top?
  {
    if ctx.InLeft? then ctx.(right := s) else ctx.(left := s)
  }

  /** A node with its subtrees on the side of the hole and on the other side. */
  function Oriented(ctx: Ctx, near: Tree, n: Node, c: Color, far: Tree): Tree {
    if ctx.InLeft? then Br(near, n, c, far) else Br(far, n, c, near)
  }

  function Hole(ctx: Ctx, up: Ctx, n: Node, c: Color, far: Tree): Ctx {
    if ctx.InLeft? then InLeft(up, n, c, far) else InRight(up, far, n, c)
  }

  lemma HasSibling(ctx: Ctx, t: Tree)
    requires Removing(ctx, t) && !ctx.Top?
    ensures Sibling(ctx).Br?
  {
    CtxStep(ctx, BlackHeight(t) + 1, Black);
  }

  /** A red sibling is rotated above the parent. */
  function Lowered(ctx: Ctx): Ctx
    requires !ctx.Top? && Sibling(ctx).Br?
  {
    Hole(ctx, Hole(ctx, ctx.up, Sibling(ctx).node, Black, Far(ctx)), ctx.node, Red, Near(ctx))
  }

  lemma RemoveLower(ctx: Ctx, t: Tree)
    requires Removing(ctx, t) && !ctx.Top? && ColorOf(Sibling(ctx)) == Red
    ensures Removing(Lowered(ctx), t) && ColorOf(Sibling(Lowered(ctx))) == Black
    ensures InOrder(Plug(Lowered(ctx), t)) == InOrder(Plug(ctx, t))
  {
    var h := BlackHeight(t) + 1;
    CtxStep(ctx, h, Black);
    CtxStep(Lowered(ctx), h, Black);
    CtxStep(Lowered(ctx).up, h, Red);
    var s := Sibling(ctx);
    if ctx.InLeft? {
      RotationInOrder(t, ctx.node, Red, s.left, s.node, Black, s.right, ctx.color, s.color);
    } else {
      RotationInOrder(s.left, s.node, s.color, s.right, ctx.node, ctx.color, t, Black, Red);
    }
    SameInOrder(ctx.up, Wrap(Lowered(ctx).up, Wrap(Lowered(ctx), t)), Wrap(ctx, t));
  }

  /** A black sibling with black children becomes red, and the shortage moves up. */
  function Blamed(ctx: Ctx, t: Tree): Tree
    requires !ctx.Top?
  {
    Wrap(WithSibling(ctx, Painted(Sibling(ctx), Red)), t)
  }

  lemma RemoveBlame(ctx: Ctx, t: Tree)
    requires Removing(ctx, t) && !ctx.Top? && ColorOf(t) == Black && Sibling(ctx).Br? && ColorOf(Sibling(ctx)) == Black
    requires ColorOf(Near(ctx)) == Black && ColorOf(Far(ctx)) == Black
    ensures Removing(ctx.up, Blamed(ctx, t))
    ensures InOrder(Plug(ctx.up, Blamed(ctx, t))) == InOrder(Plug(ctx, t))
  {
    var h := BlackHeight(t) + 1;
    CtxStep(ctx, h, Black);
    if !ctx.up.Top? {
      CtxStep(ctx.up, h + Weight(ctx.color), Red);
      CtxStep(ctx.up, h + Weight(ctx.color), Black);
    }
    var s := Sibling(ctx);
    assert InOrder(Painted(s, Red)) == InOrder(s);
    assert RedBlackTree(Painted(s, Red)) && BlackHeight(Painted(s, Red)) == BlackHeight(t);
    SameInOrder(ctx.up, Blamed(ctx, t), Wrap(ctx, t));
  }

  /** A red nephew next to the hole is rotated above the sibling. */
  function Swung(ctx: Ctx): Ctx
    requires !ctx.Top? && Sibling(ctx).Br? && Near(ctx).Br?
  {
    var s, n := Sibling(ctx), Near(ctx);
    WithSibling(ctx, if ctx.InLeft? then Br(n.left, n.node, Black, Br(n.right, s.node, Red, s.right))
                     else Br(Br(s.left, s.node, Red, n.left), n.node, Black, n.right))
  }

  lemma RemoveSwing(ctx: Ctx, t: Tree)
    requires Removing(ctx, t) && !ctx.Top? && Sibling(ctx).Br? && ColorOf(Sibling(ctx)) == Black
    requires ColorOf(Near(ctx)) == Red && ColorOf(Far(ctx)) == Black
    ensures Removing(Swung(ctx), t) && Sibling(Swung(ctx)).Br? && ColorOf(Sibling(Swung(ctx))) == Black
    ensures ColorOf(Far(Swung(ctx))) == Red
    ensures InOrder(Plug(Swung(ctx), t)) == InOrder(Plug(ctx, t))
  {
    var h := BlackHeight(t) + 1;
    CtxStep(ctx, h, Black);
    CtxStep(Swung(ctx), h, Black);
    var s, n := Sibling(ctx), Near(ctx);
    if ctx.InLeft? {
      RotationInOrder(n.left, n.node, n.color, n.right, s.node, s.color, s.right, Black, Red);
    } else {
      RotationInOrder(s.left, s.node, Red, n.left, n.node, Black, n.right, s.color, n.color);
    }
    SameInOrder(ctx.up, Wrap(Swung(ctx), t), Wrap(ctx, t));
  }

  /** A red nephew away from the hole ends the removal: the sibling takes the place of the parent. */
  function Repaired(ctx: Ctx, t: Tree): Tree
    requires !ctx.Top? && Sibling(ctx).Br?
  {
    Oriented(ctx, Oriented(ctx, t, ctx.node, Black, Near(ctx)), Sibling(ctx).node, ctx.color, Painted(Far(ctx), Black))
  }

  lemma RemoveRepair(ctx: Ctx, t: Tree)
    requires Removing(ctx, t) && !ctx.Top? && ColorOf(t) == Black && Sibling(ctx).Br? && ColorOf(Sibling(ctx)) == Black
    requires ColorOf(Far(ctx)) == Red
    ensures Balanced(Plug(ctx.up, Repaired(ctx, t)))
    ensures InOrder(Plug(ctx.up, Repaired(ctx, t))) == InOrder(Plug(ctx, t))
  {
    var h := BlackHeight(t) + 1;
    CtxStep(ctx, h, Black);
    BalancedPlug(ctx.up, Repaired(ctx, t));
    var s, f := Sibling(ctx), Painted(Far(ctx), Black);
    assert InOrder(f) == InOrder(Far(ctx)) && RedBlackTree(f) && BlackHeight(f) == h;
    var low := Oriented(ctx, t, ctx.node, Black, Near(ctx));
    assert RedBlackTree(low) && BlackHeight(low) == h;
    if ctx.InLeft? {
      RotationInOrder(t, ctx.node, Black, s.left, s.node, ctx.color, s.right, ctx.color, s.color);
    } else {
      RotationInOrder(s.left, s.node, s.color, s.right, ctx.node, ctx.color, t, ctx.color, Black);
    }
    SameInOrder(ctx.up, Repaired(ctx, t), Wrap(ctx, t));
  }

  lemma RemoveDone(ctx: Ctx, t: Tree)
    requires Removing(ctx, t) && (ctx.Top? || ColorOf(t) == Red)
    ensures Balanced(Plug(ctx, Painted(t, Black)))
    ensures InOrder(Plug(ctx, Painted(t, Black))) == InOrder(Plug(ctx, t))
  {
    BalancedPlug(ctx, Painted(t, Black));
    SameInOrder(ctx, Painted(t, Black), t);
  }

  lemma RemoveEnd(t: Tree)
    requires Balanced(t)
    ensures Removing(Top, t) && Plug(Top, t) == t
  {
  }

  /** A sequence without one of its elements. */
  function Cut(s: seq<Node>, i: nat): seq<Node>
    requires i < |s|
  {
    s[..i] + s[i+1..]
  }

  lemma CutMiddle(a: seq<Node>, n: Node, b: seq<Node>)
    ensures var s := a + [n] + b; s[|a|] == n && Cut(s, |a|) == a + b
  {
  }

  /** How many nodes come before the topmost one in focus. */
  function Rank(ctx: Ctx, t: Tree): nat
    requires t.Br?
  {
    |Before(ctx) + InOrder(t.left)|
  }

  /** Taking out a node that has at most one child `s`. */
  lemma RemoveOne(ctx: Ctx, t: Tree, s: Tree)
    requires t.Br? && (t == Br(Leaf, t.node, t.color, s) || t == Br(s, t.node, t.color, Leaf)) && Balanced(Plug(ctx, t))
    ensures t.color == Black ==> Removing(ctx, s)
    ensures t.color == Red ==> Balanced(Plug(ctx, s))
  {
    BalancedPlug(ctx, t);
    assert RedBlackTree(s) && BlackHeight(s) == 0;
    if t.color == Red {
      BalancedPlug(ctx, s);
      if !ctx.Top? {
        CtxStep(ctx, 0, Red);
        CtxStep(ctx, 0, Black);
      }
    }
  }

  lemma RemoveLeftmostOrder(ctx: Ctx, n: Node, c: Color, s: Tree)
    ensures var t := Br(Leaf, n, c, s); var o := InOrder(Plug(ctx, t));
      Rank(ctx, t) < |o| && o[Rank(ctx, t)] == n && InOrder(Plug(ctx, s)) == Cut(o, Rank(ctx, t))
  {
    hide Plug, Before, After;
    InOrderPlug(ctx, Br(Leaf, n, c, s));
    InOrderPlug(ctx, s);
    RowOf(Before(ctx), n, InOrder(s), After(ctx));
  }

  lemma RemoveRightmostOrder(ctx: Ctx, s: Tree, n: Node, c: Color)
    ensures var t := Br(s, n, c, Leaf); var o := InOrder(Plug(ctx, t));
      Rank(ctx, t) < |o| && o[Rank(ctx, t)] == n && InOrder(Plug(ctx, s)) == Cut(o, Rank(ctx, t))
  {
    hide Plug, Before, After;
    var a, q, b := Before(ctx), InOrder(s), After(ctx);
    InOrderPlug(ctx, Br(s, n, c, Leaf));
    InOrderPlug(ctx, s);
    Regroup(a, q, [n], [], b);
    CutMiddle(a + q, n, b);
    assert [] + b == b;
  }

  lemma RowOf(a: seq<Node>, n: Node, s: seq<Node>, b: seq<Node>)
    ensures var o := a + ([n] + s) + b; o == a + ([] + [n] + s) + b && o[|a|] == n && Cut(o, |a|) == a + s + b
    ensures a + [] == a
  {
    var o := a + ([n] + s) + b;
    assert o == a + [n] + (s + b);
    CutMiddle(a, n, s + b);
    assert a + (s + b) == a + s + b;
    assert [] + [n] + s == [n] + s;
  }

  lemma {:induction false} Renamed(inner: Ctx, ctx: Ctx, l: Tree, n: Node, y: Node, c: Color, h: nat, k: Color)
    requires RedBlackCtx(Join(inner, InRight(ctx, l, n, c)), h, k)
    ensures RedBlackCtx(Join(inner, InRight(ctx, l, y, c)), h, k)
    decreases Depth(inner)
  {
    if !inner.Top? {
      Renamed(inner.up, ctx, l, n, y, c, h + Weight(inner.color), inner.color);
    }
  }

  lemma {:induction false} JoinPlug(inner: Ctx, outer: Ctx, t: Tree)
    ensures Plug(Join(inner, outer), t) == Plug(outer, Plug(inner, t))
    decreases Depth(inner)
  {
    if !inner.Top? {
      JoinPlug(inner.up, outer, Wrap(inner, t));
    }
  }

  /** Taking out a node with two children: the leftmost node `y` of the right subtree takes its place. */
  lemma RemoveTwo(inner: Ctx, ctx: Ctx, l: Tree, n: Node, c: Color, y: Node, k: Color, s: Tree)
    requires Balanced(Plug(ctx, Br(l, n, c, Plug(inner, Br(Leaf, y, k, s)))))
    ensures k == Black ==> Removing(Join(inner, InRight(ctx, l, y, c)), s)
    ensures k == Red ==> Balanced(Plug(Join(inner, InRight(ctx, l, y, c)), s))
  {
    hide RedBlackTree, RedBlackCtx;
    var at, at' := Join(inner, InRight(ctx, l, n, c)), Join(inner, InRight(ctx, l, y, c));
    JoinPlug(inner, InRight(ctx, l, n, c), Br(Leaf, y, k, s));
    RemoveOne(at, Br(Leaf, y, k, s), s);
    if k == Black {
      Renamed(inner, ctx, l, n, y, c, BlackHeight(s) + 1, Black);
    } else {
      BalancedPlug(at, s);
      Renamed(inner, ctx, l, n, y, c, BlackHeight(s), ColorOf(s));
      BalancedPlug(at', s);
    }
  }

  lemma RemoveTwoOrder(inner: Ctx, ctx: Ctx, l: Tree, n: Node, c: Color, y: Node, k: Color, s: Tree)
    requires Before(inner) == []
    ensures var t := Br(l, n, c, Plug(inner, Br(Leaf, y, k, s))); var o := InOrder(Plug(ctx, t));
      && Rank(ctx, t) < |o| && o[Rank(ctx, t)] == n
      && InOrder(Plug(Join(inner, InRight(ctx, l, y, c)), s)) == Cut(o, Rank(ctx, t))
  {
    hide Plug, Before, After;
    var r, r' := Plug(inner, Br(Leaf, y, k, s)), Plug(inner, s);
    var t, t' := Br(l, n, c, r), Br(l, y, c, r');
    JoinPlug(inner, InRight(ctx, l, y, c), s);
    InRightPlug(ctx, l, y, c, r');
    InOrderPlug(inner, Br(Leaf, y, k, s));
    InOrderPlug(inner, s);
    assert InOrder(Br(Leaf, y, k, s)) == [y] + InOrder(s);
    assert InOrder(r) == [y] + InOrder(r');
    InOrderPlug(ctx, t);
    InOrderPlug(ctx, t');
    Regroup(Before(ctx), InOrder(l), [n], InOrder(r), After(ctx));
    Regroup(Before(ctx), InOrder(l), [y], InOrder(r'), After(ctx));
    CutMiddle(Before(ctx) + InOrder(l), n, InOrder(r) + After(ctx));
    assert Before(ctx) + InOrder(l) + (InOrder(r) + After(ctx))
      == (Before(ctx) + InOrder(l)) + [y] + (InOrder(r') + After(ctx));
  }

  lemma InRightPlug(ctx: Ctx, l: Tree, n: Node, c: Color, t: Tree)
    ensures Plug(InRight(ctx, l, n, c), t) == Plug(ctx, Br(l, n, c, t))
  {
  }

  // ---- search order

  ghost predicate Sorted(s: seq<Node>) {
    forall i, j :: 0 <= i < j < |s| ==> s[i].base < s[j].base
  }

  ghost predicate AllBelow(s: seq<Node>, key: nat) {
    forall i :: 0 <= i < |s| ==> s[i].base < key
  }

  ghost predicate AllAbove(s: seq<Node>, key: nat) {
    forall i :: 0 <= i < |s| ==> key < s[i].base
  }

  /** A search for `key` in a sorted tree need not look outside the hole. */
  ghost predicate Between(ctx: Ctx, key: nat) {
    AllBelow(Before(ctx), key) && AllAbove(After(ctx), key)
  }

  lemma SortedParts(a: seq<Node>, n: Node, b: seq<Node>)
    requires Sorted(a + [n] + b)
    ensures AllBelow(a, n.base) && AllAbove(b, n.base) && Sorted(a) && Sorted(b)
  {
    var s := a + [n] + b;
    assert forall i :: 0 <= i < |a| ==> s[i] == a[i];
    assert s[|a|] == n;
    assert forall i :: 0 <= i < |b| ==> s[|a| + 1 + i] == b[i];
  }

  lemma SortedJoin(a: seq<Node>, n: Node, b: seq<Node>)
    requires Sorted(a + b) && AllBelow(a, n.base) && AllAbove(b, n.base)
    ensures Sorted(a + [n] + b)
  {
    var s := a + b;
    assert forall i :: 0 <= i < |a| ==> s[i] == a[i];
    assert forall i :: 0 <= i < |b| ==> s[|a| + i] == b[i];
  }

  /** What lies to the left and to the right of the topmost node in focus. */
  lemma FocusOrder(ctx: Ctx, t: Tree)
    requires Sorted(InOrder(Plug(ctx, t))) && t.Br?
    ensures AllBelow(Before(ctx) + InOrder(t.left), t.node.base) && AllAbove(InOrder(t.right) + After(ctx), t.node.base)
    ensures InOrder(Plug(ctx, t)) == (Before(ctx) + InOrder(t.left)) + [t.node] + (InOrder(t.right) + After(ctx))
  {
    hide AllBelow, AllAbove, Sorted, Before, After, Plug;
    InOrderPlug(ctx, t);
    Regroup(Before(ctx), InOrder(t.left), [t.node], InOrder(t.right), After(ctx));
    SortedParts(Before(ctx) + InOrder(t.left), t.node, InOrder(t.right) + After(ctx));
  }

  lemma FocusNode(ctx: Ctx, t: Tree)
    requires t.Br?
    ensures t.node in InOrder(Plug(ctx, t))
  {
    InOrderPlug(ctx, t);
    assert t.node in InOrder(t);
  }

  /** Going left or right below the focus. */
  function GoLeft(ctx: Ctx, t: Tree): Ctx
    requires t.Br?
  {
    InLeft(ctx, t.node, t.color, t.right)
  }

  function GoRight(ctx: Ctx, t: Tree): Ctx
    requires t.Br?
  {
    InRight(ctx, t.left, t.node, t.color)
  }

  lemma SearchStep(ctx: Ctx, t: Tree, key: nat)
    requires Sorted(InOrder(Plug(ctx, t))) && t.Br? && Between(ctx, key)
    ensures key < t.node.base ==> Between(GoLeft(ctx, t), key)
    ensures t.node.base < key ==> Between(GoRight(ctx, t), key)
  {
    hide Sorted, Plug;
    FocusOrder(ctx, t);
    var l, r := Before(ctx) + InOrder(t.left), InOrder(t.right) + After(ctx);
    if key < t.node.base {
      assert After(GoLeft(ctx, t)) == [t.node] + r;
      assert Before(GoLeft(ctx, t)) == Before(ctx);
    } else if t.node.base < key {
      assert Before(GoRight(ctx, t)) == l + [t.node];
      assert After(GoRight(ctx, t)) == After(ctx);
    }
  }

  /** The search has ended at an empty place: no node has the key. */
  lemma NotFound(m: Links, root: Node?, ctx: Ctx, t: Tree, key: nat)
    requires Focus(m, root, ctx, Leaf) && Plug(ctx, Leaf) == t && Between(ctx, key)
    ensures forall n :: n in Nodes(t) ==> n.base != key
    ensures CtxNodes(ctx) == Nodes(t)
  {
    hide Focus, Before, After, CtxNodes;
    Zip(m, root, ctx, Leaf);
    InOrderPlug(ctx, Leaf);
    InOrderNodes(t);
    forall n | n in InOrder(t) ensures n.base != key {
      if n in Before(ctx) {
      } else if n in InOrder(Leaf) {
      } else {
        assert n in After(ctx);
      }
    }
  }

  /** The tree with a new red node in an empty place. */
  lemma NewLeaf(ctx: Ctx, z: Node)
    requires Balanced(Plug(ctx, Leaf)) && Sorted(InOrder(Plug(ctx, Leaf))) && Between(ctx, z.base)
    ensures Inserting(ctx, Br(Leaf, z, Red, Leaf))
    ensures var s, s' := InOrder(Plug(ctx, Leaf)), InOrder(Plug(ctx, Br(Leaf, z, Red, Leaf)));
      Sorted(s') && |s'| == |s| + 1 && |Before(ctx)| <= |s| && s' == s[..|Before(ctx)|] + [z] + s[|Before(ctx)|..]
  {
    BalancedPlug(ctx, Leaf);
    InOrderPlug(ctx, Leaf);
    var leaf := Br(Leaf, z, Red, Leaf);
    InOrderPlug(ctx, leaf);
    assert InOrder(leaf) == [z];
    assert Before(ctx) + [] + After(ctx) == Before(ctx) + After(ctx);
    SortedJoin(Before(ctx), z, After(ctx));
  }

  lemma Members(a: seq<Node>, z: Node, b: seq<Node>)
    ensures forall n :: n in a + [z] + b <==> n in a + b || n == z
  {
    assert (a + [z] + b)[|a|] == z;
  }

  lemma NodesWith(t: Tree, t': Tree, z: Node, i: nat)
    requires i <= |InOrder(t)| && InOrder(t') == InOrder(t)[..i] + [z] + InOrder(t)[i..]
    ensures Nodes(t') == Nodes(t) + {z}
  {
    hide InOrder, Nodes;
    InOrderNodes(t);
    InOrderNodes(t');
    var s := InOrder(t);
    Members(s[..i], z, s[i..]);
    assert s == s[..i] + s[i..];
  }

  lemma NodesWithout(t: Tree, t': Tree, i: nat)
    requires Sorted(InOrder(t)) && i < |InOrder(t)| && InOrder(t') == Cut(InOrder(t), i)
    ensures Nodes(t') == Nodes(t) - {InOrder(t)[i]} && Sorted(InOrder(t')) && |InOrder(t')| == |InOrder(t)| - 1
  {
    hide InOrder, Nodes;
    InOrderNodes(t);
    InOrderNodes(t');
    var s := InOrder(t);
    Members(s[..i], s[i], s[i+1..]);
    assert s == s[..i] + [s[i]] + s[i+1..];
    assert s[i] !in s[..i] && s[i] !in s[i+1..];
  }

  // ---- positions

  /** The node at a position, if there is one. */
  function At(s: seq<Node>, i: int): Node? {
    if 0 <= i < |s| then s[i] else null
  }

  /** The nodes from position `i` on are exactly those with a key of at least (or above) `key`. */
  ghost predicate SplitsAt(s: seq<Node>, i: nat, key: nat, inclusive: bool) {
    && i <= |s| && (forall k :: 0 <= k < i ==> s[k].base < key || (s[k].base == key && !inclusive))
    && (forall k :: i <= k < |s| ==> key < s[k].base || (s[k].base == key && inclusive))
  }

  lemma SplitSearched(s: seq<Node>, a: seq<Node>, b: seq<Node>, key: nat, inclusive: bool)
    requires s == a + b && (forall k :: 0 <= k < |a| ==> a[k].base < key || (a[k].base == key && !inclusive))
      && AllAbove(b, key)
    ensures SplitsAt(s, |a|, key, inclusive) && At(s, |a|) == At(b, 0)
  {
  }

  lemma SplitHit(s: seq<Node>, a: seq<Node>, n: Node, b: seq<Node>, key: nat)
    requires s == a + [n] + b && AllBelow(a, key) && n.base == key && AllAbove(b, key)
    ensures SplitsAt(s, |a|, key, true) && At(s, |a|) == n
  {
  }

  /** The neighbours of the topmost node in focus. */
  lemma Neighbours(ctx: Ctx, t: Tree)
    requires t.Br?
    ensures var s, i := InOrder(Plug(ctx, t)), Rank(ctx, t);
      && i < |s| && s[i] == t.node
      && At(s, i + 1) == At(InOrder(t.right) + After(ctx), 0)
      && At(s, i - 1) == At(Before(ctx) + InOrder(t.left), |Before(ctx) + InOrder(t.left)| - 1)
  {
    hide Before, After, Plug;
    InOrderPlug(ctx, t);
    Regroup(Before(ctx), InOrder(t.left), [t.node], InOrder(t.right), After(ctx));
  }

  lemma LeftmostIsFirst(inner: Ctx, y: Node, c: Color, s: Tree)
    requires Before(inner) == []
    ensures var o := InOrder(Plug(inner, Br(Leaf, y, c, s))); |o| > 0 && o[0] == y
  {
    InOrderPlug(inner, Br(Leaf, y, c, s));
  }

  lemma RightmostIsLast(inner: Ctx, y: Node, c: Color, s: Tree)
    requires After(inner) == []
    ensures var o := InOrder(Plug(inner, Br(s, y, c, Leaf))); |o| > 0 && o[|o|-1] == y
  {
    InOrderPlug(inner, Br(s, y, c, Leaf));
  }

  lemma BoundHere(ctx: Ctx, key: nat, inclusive: bool)
    requires Between(ctx, key)
    ensures var s := InOrder(Plug(ctx, Leaf));
      SplitsAt(s, |Before(ctx)|, key, inclusive) && At(s, |Before(ctx)|) == At(After(ctx), 0)
  {
    InOrderPlug(ctx, Leaf);
    SplitSearched(InOrder(Plug(ctx, Leaf)), Before(ctx), After(ctx), key, inclusive);
  }

  /** A search for the first key above `key` need not look outside the hole. */
  ghost predicate UpTo(ctx: Ctx, key: nat) {
    AllBelow(Before(ctx), key + 1) && AllAbove(After(ctx), key)
  }

  lemma StartUpTo(key: nat)
    ensures UpTo(Top, key)
  {
  }

  lemma UpToStep(ctx: Ctx, t: Tree, key: nat)
    requires Sorted(InOrder(Plug(ctx, t))) && t.Br? && UpTo(ctx, key)
    ensures key < t.node.base ==> UpTo(GoLeft(ctx, t), key)
    ensures t.node.base <= key ==> UpTo(GoRight(ctx, t), key)
  {
    hide Sorted, Plug;
    FocusOrder(ctx, t);
    var l, r := Before(ctx) + InOrder(t.left), InOrder(t.right) + After(ctx);
    if key < t.node.base {
      assert After(GoLeft(ctx, t)) == [t.node] + r;
      assert Before(GoLeft(ctx, t)) == Before(ctx);
    } else {
      assert Before(GoRight(ctx, t)) == l + [t.node];
      assert After(GoRight(ctx, t)) == After(ctx);
    }
  }

  lemma UpToHere(ctx: Ctx, key: nat)
    requires UpTo(ctx, key)
    ensures var s := InOrder(Plug(ctx, Leaf));
      SplitsAt(s, |Before(ctx)|, key, false) && At(s, |Before(ctx)|) == At(After(ctx), 0)
  {
    InOrderPlug(ctx, Leaf);
    SplitSearched(InOrder(Plug(ctx, Leaf)), Before(ctx), After(ctx), key, false);
  }

  lemma EmptyOrder(t: Tree)
    requires NodeOf(t) == null
    ensures InOrder(t) == []
  {
  }

  lemma Unique(s: seq<Node>, i: nat, j: nat)
    requires Sorted(s) && i < |s| && j < |s| && s[i] == s[j]
    ensures i == j
  {
  }

  lemma CutAt(s: seq<Node>, i: nat, s': seq<Node>)
    requires Sorted(s) && i < |s| && exists j :: 0 <= j < |s| && s[j] == s[i] && s' == Cut(s, j)
    ensures s' == Cut(s, i) && At(s, i + 1) == At(s', i)
  {
    var j :| 0 <= j < |s| && s[j] == s[i] && s' == Cut(s, j);
    Unique(s, i, j);
  }
}
