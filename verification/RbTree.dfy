/** The red-black tree of kernel/src/util/rbtree.c: nodes linked both ways and rebalanced in place. */
module RbTrees {
  import opened RedBlack
  import opened RbLinks

  class RbTree {
    var root: Node?
    var size: nat
    ghost var tree: Tree
    ghost var nodes: set<Node>

    predicate IsRed(n: Node?)
      reads n
    {
      n != null && n.color == Red
    }

    predicate IsBlack(n: Node?)
      reads n
    {
      n == null || n.color == Black
    }

    ghost function Heap(): (m: Links)
      reads this`nodes, nodes`parent, nodes`left, nodes`right, nodes`color
      ensures m.Keys == nodes
    {
      LinksOf(nodes)
    }

    /** The nodes in search order. */
    ghost function Contents(): seq<Node>
      reads this`tree
    {
      InOrder(tree)
    }

    ghost predicate Valid()
      reads this, nodes`parent, nodes`left, nodes`right, nodes`color
    {
      && nodes == Nodes(tree) && Focus(Heap(), root, Top, tree)
      && Balanced(tree) && Sorted(InOrder(tree)) && size == |InOrder(tree)|
    }

    constructor ()
      ensures Valid() && Contents() == [] && size == 0
    {
      root, size, tree, nodes := null, 0, Leaf, {};
    }

    lemma Look(n: Node)
      requires n in nodes
      ensures n in Heap() && Heap()[n] == Cell(n.parent, n.left, n.right, n.color)
    {
    }

    // Stores to one link of a node.

    method SetParent(n: Node, p: Node?)
      requires n in nodes
      modifies n`parent
      ensures Heap() == old(Heap())[n := old(Heap())[n].(parent := p)]
    {
      n.parent := p;
    }

    method SetLeft(n: Node, p: Node?)
      requires n in nodes
      modifies n`left
      ensures Heap() == old(Heap())[n := old(Heap())[n].(left := p)]
    {
      n.left := p;
    }

    method SetRight(n: Node, p: Node?)
      requires n in nodes
      modifies n`right
      ensures Heap() == old(Heap())[n := old(Heap())[n].(right := p)]
    {
      n.right := p;
    }

    method SetColor(n: Node, c: Color)
      requires n in nodes
      modifies n`color
      ensures Heap() == old(Heap())[n := old(Heap())[n].(color := c)]
    {
      n.color := c;
    }

    method ReplaceChild(parent: Node?, child: Node, other: Node?)
      requires (parent != null ==> parent in nodes) && (other != null ==> other in nodes)
      modifies this`root, Only(parent)`left, Only(parent)`right, Only(other)`parent
      ensures root == if parent == null then other else old(root)
      ensures Heap() == Replaced(old(Heap()), parent, child, other)
    {
      hide RbTree.Heap;
      if parent == null {
        root := other;
      } else {
        Look(parent);
        if parent.left == child {
          SetLeft(parent, other);
        } else {
          SetRight(parent, other);
        }
      }
      if other != null {
        SetParent(other, parent);
      }
    }

    method RotateLeft(node: Node, ghost ctx: Ctx, ghost t: Tree)
      requires Focus(Heap(), root, ctx, t) && t.Br? && t.node == node && t.right.Br?
      modifies this`root, nodes`left, nodes`right, nodes`parent
      ensures Focus(Heap(), root, ctx, RotatedLeft(t))
    {
      hide RbTree.Heap, Focus, Apart, LeanLeft, Replaced;
      ghost var m := Heap();
      ghost var a, c, b, k, d := t.left, t.color, t.right.left, t.right.color, t.right.right;
      OpenRight(m, root, ctx, a, node, c, b, t.right.node, k, d);
      TurnLeft(m, root, if ctx.Top? then t.right.node else root, ctx, a, node, c, b, t.right.node, k, d);
      Look(node);
      var r := node.right;
      Look(r);
      var rl := r.left;
      SetLeft(r, node);
      SetRight(node, rl);
      if rl != null {
        SetParent(rl, node);
      }
      Look(node);
      SetParent(r, node.parent);
      ReplaceChild(node.parent, node, r);
      SetParent(node, r);
      assert Heap() == RelinkedLeft(m, node, r, rl);
      OpenLeft(Heap(), root, ctx, a, node, c, b, r, k, d);
    }

    method RotateRight(node: Node, ghost ctx: Ctx, ghost t: Tree)
      requires Focus(Heap(), root, ctx, t) && t.Br? && t.node == node && t.left.Br?
      modifies this`root, nodes`left, nodes`right, nodes`parent
      ensures Focus(Heap(), root, ctx, RotatedRight(t))
    {
      hide RbTree.Heap, Focus, Apart, LeanRight, Replaced;
      ghost var m := Heap();
      ghost var a, c, b, k, d := t.left.left, t.left.color, t.left.right, t.color, t.right;
      OpenLeft(m, root, ctx, a, t.left.node, c, b, node, k, d);
      TurnRight(m, root, if ctx.Top? then t.left.node else root, ctx, a, t.left.node, c, b, node, k, d);
      Look(node);
      var l := node.left;
      Look(l);
      var lr := l.right;
      SetRight(l, node);
      SetLeft(node, lr);
      if lr != null {
        SetParent(lr, node);
      }
      Look(node);
      SetParent(l, node.parent);
      ReplaceChild(node.parent, node, l);
      SetParent(node, l);
      assert Heap() == RelinkedRight(m, node, l, lr);
      OpenRight(Heap(), root, ctx, a, l, c, b, node, k, d);
    }

    method Paint(n: Node, c: Color, ghost ctx: Ctx, ghost t: Tree)
      requires Focus(Heap(), root, ctx, t) && t.Br? && t.node == n
      modifies nodes`color
      ensures Focus(Heap(), root, ctx, t.(color := c))
    {
      hide RbTree.Heap, Focus;
      Repainted(Heap(), root, ctx, t, c);
      SetColor(n, c);
    }

    /** What the links of a node in focus are. */
    lemma Around(ctx: Ctx, t: Tree)
      requires Focus(Heap(), root, ctx, t)
      ensures t.Br? ==> t.node in nodes && t.node.left == NodeOf(t.left) && t.node.right == NodeOf(t.right)
      ensures t.Br? ==> t.node.parent == ParentOf(ctx) && t.node.color == t.color
      ensures ctx.Top? ==> root == NodeOf(t)
    {
      hide Distinct, DistinctCtx, CtxNodes, Nodes;
      if t.Br? { Look(t.node); }
    }

    /** The same for the node above the focus. */
    lemma Above(ctx: Ctx, t: Tree)
      requires Focus(Heap(), root, ctx, t) && !ctx.Top?
      ensures Focus(Heap(), root, ctx.up, Wrap(ctx, t))
      ensures ctx.node in nodes && ctx.node.parent == ParentOf(ctx.up) && ctx.node.color == ctx.color
      ensures ctx.node.left == NodeOf(Wrap(ctx, t).left) && ctx.node.right == NodeOf(Wrap(ctx, t).right)
      ensures t.Br? ==> t.node != NodeOf(Sibling(ctx))
    {
      hide RbTree.Heap, Focus;
      MoveUp(Heap(), root, ctx, t);
      Around(ctx.up, Wrap(ctx, t));
      ChildrenDiffer(Heap(), root, ctx, t);
    }

    /** The focus is on the root exactly when there is nothing above it. */
    lemma AtRoot(ctx: Ctx, t: Tree)
      requires Focus(Heap(), root, ctx, t)
      ensures ctx.Top? <==> NodeOf(t) == root
      ensures t.Br? ==> t.node.color == t.color
    {
      Around(ctx, t);
      if !ctx.Top? {
        RootAbove(Heap(), root, ctx, NodeOf(t));
        TopNode(t);
      }
    }

    /** The links and colours of the sibling and of its children. */
    lemma Nephews(ctx: Ctx, t: Tree)
      requires Focus(Heap(), root, ctx, t) && !ctx.Top? && Sibling(ctx).Br?
      ensures var s := Sibling(ctx);
        s.node.left == NodeOf(s.left) && s.node.right == NodeOf(s.right) && s.node.color == s.color
      ensures var s := Sibling(ctx); s.left.Br? ==> s.left.node.color == s.left.color
      ensures var s := Sibling(ctx); s.right.Br? ==> s.right.node.color == s.right.color
    {
      hide RbTree.Heap, Focus;
      var s, at := Sibling(ctx), Flip(ctx, t);
      Sideways(Heap(), root, ctx, t);
      Around(at, s);
      MoveUp(Heap(), root, GoLeft(at, s), s.left);
      Around(GoLeft(at, s), s.left);
      MoveUp(Heap(), root, GoRight(at, s), s.right);
      Around(GoRight(at, s), s.right);
    }

    /** Both red children of the grandparent become black, and the grandparent red. */
    method Recolor(p: Node, u: Node, g: Node, ghost ctx: Ctx, ghost t: Tree)
      requires Focus(Heap(), root, ctx, t) && !ctx.Top? && !ctx.up.Top? && Sibling(ctx.up).Br?
      requires p == ctx.node && g == ctx.up.node && u == Sibling(ctx.up).node
      modifies nodes`color
      ensures Focus(Heap(), root, ctx.up.up, Recolored(ctx, t))
    {
      hide RbTree.Heap, Focus;
      Above(ctx, t);
      Paint(p, Black, ctx.up, Wrap(ctx, t));
      ghost var t1 := Painted(Wrap(ctx, t), Black);
      Sideways(Heap(), root, ctx.up, t1);
      Paint(u, Black, Flip(ctx.up, t1), Sibling(ctx.up));
      ghost var t2 := Painted(Sibling(ctx.up), Black);
      Above(Flip(ctx.up, t1), t2);
      Paint(g, Red, ctx.up.up, Wrap(Flip(ctx.up, t1), t2));
    }

    /** The parent of a left-hand red node takes the place of the grandparent. */
    method RaiseRight(p: Node, g: Node, ghost ctx: Ctx, ghost t: Tree)
      requires Focus(Heap(), root, ctx, t) && ctx.InLeft? && ctx.up.InLeft? && p == ctx.node && g == ctx.up.node
      modifies this`root, nodes`left, nodes`right, nodes`parent, nodes`color
      ensures Focus(Heap(), root, RaisedCtx(ctx), t)
    {
      hide RbTree.Heap, Focus;
      Above(ctx, t);
      Paint(p, Black, ctx.up, Wrap(ctx, t));
      ghost var t1 := Painted(Wrap(ctx, t), Black);
      Above(ctx.up, t1);
      Paint(g, Red, ctx.up.up, Wrap(ctx.up, t1));
      RotateRight(g, ctx.up.up, Painted(Wrap(ctx.up, t1), Red));
      MoveUp(Heap(), root, RaisedCtx(ctx), t);
    }

    method RaiseLeft(p: Node, g: Node, ghost ctx: Ctx, ghost t: Tree)
      requires Focus(Heap(), root, ctx, t) && ctx.InRight? && ctx.up.InRight? && p == ctx.node && g == ctx.up.node
      modifies this`root, nodes`left, nodes`right, nodes`parent, nodes`color
      ensures Focus(Heap(), root, RaisedCtx(ctx), t)
    {
      hide RbTree.Heap, Focus;
      Above(ctx, t);
      Paint(p, Black, ctx.up, Wrap(ctx, t));
      ghost var t1 := Painted(Wrap(ctx, t), Black);
      Above(ctx.up, t1);
      Paint(g, Red, ctx.up.up, Wrap(ctx.up, t1));
      RotateLeft(g, ctx.up.up, Painted(Wrap(ctx.up, t1), Red));
      MoveUp(Heap(), root, RaisedCtx(ctx), t);
    }

    /** One turn of the loop of _insert_fixup, for a parent that is a left child. */
    method InsertStepLeft(node: Node, ghost ctx: Ctx, ghost t: Tree) returns (next: Node, ghost ctx': Ctx,
        ghost t': Tree)
      requires Focus(Heap(), root, ctx, t) && Inserting(ctx, t) && t.node == node
      requires !ctx.Top? && ctx.color == Red && ctx.up.InLeft?
      modifies this`root, nodes`left, nodes`right, nodes`parent, nodes`color
      ensures Focus(Heap(), root, ctx', t') && Inserting(ctx', t') && t'.node == next
      ensures Depth(ctx') < Depth(ctx) && InOrder(Plug(ctx', t')) == InOrder(Plug(ctx, t))
    {
      hide RbTree.Heap, Focus, RedBlackTree, RedBlackCtx, Plug, InOrder;
      Around(ctx, t);
      Above(ctx, t);
      Above(ctx.up, Wrap(ctx, t));
      var uncle := node.parent.parent.right;
      Sideways(Heap(), root, ctx.up, Wrap(ctx, t));
      Around(Flip(ctx.up, Wrap(ctx, t)), Sibling(ctx.up));
      if IsRed(uncle) {
        InsertRecolor(ctx, t);
        Recolor(node.parent, uncle, node.parent.parent, ctx, t);
        return node.parent.parent, ctx.up.up, Recolored(ctx, t);
      }
      next, ctx', t' := node, ctx, t;
      if node == node.parent.right {
        InsertTurn(ctx, t);
        next, ctx', t' := node.parent, TurnedCtx(ctx, t), TurnedTree(ctx, t);
        RotateLeft(next, ctx.up, Wrap(ctx, t));
        MoveUp(Heap(), root, ctx', t');
      }
      Around(ctx', t');
      Above(ctx', t');
      InsertRaise(ctx', t');
      RaiseRight(next.parent, next.parent.parent, ctx', t');
      ctx' := RaisedCtx(ctx');
    }

    /** One turn of the loop of _insert_fixup, for a parent that is a right child. */
    method InsertStepRight(node: Node, ghost ctx: Ctx, ghost t: Tree) returns (next: Node, ghost ctx': Ctx,
        ghost t': Tree)
      requires Focus(Heap(), root, ctx, t) && Inserting(ctx, t) && t.node == node
      requires !ctx.Top? && ctx.color == Red && ctx.up.InRight?
      modifies this`root, nodes`left, nodes`right, nodes`parent, nodes`color
      ensures Focus(Heap(), root, ctx', t') && Inserting(ctx', t') && t'.node == next
      ensures Depth(ctx') < Depth(ctx) && InOrder(Plug(ctx', t')) == InOrder(Plug(ctx, t))
    {
      hide RbTree.Heap, Focus, RedBlackTree, RedBlackCtx, Plug, InOrder;
      Around(ctx, t);
      Above(ctx, t);
      Above(ctx.up, Wrap(ctx, t));
      var uncle := node.parent.parent.left;
      Sideways(Heap(), root, ctx.up, Wrap(ctx, t));
      Around(Flip(ctx.up, Wrap(ctx, t)), Sibling(ctx.up));
      if IsRed(uncle) {
        InsertRecolor(ctx, t);
        Recolor(node.parent, uncle, node.parent.parent, ctx, t);
        return node.parent.parent, ctx.up.up, Recolored(ctx, t);
      }
      next, ctx', t' := node, ctx, t;
      if node == node.parent.left {
        InsertTurn(ctx, t);
        next, ctx', t' := node.parent, TurnedCtx(ctx, t), TurnedTree(ctx, t);
        RotateRight(next, ctx.up, Wrap(ctx, t));
        MoveUp(Heap(), root, ctx', t');
      }
      Around(ctx', t');
      Above(ctx', t');
      InsertRaise(ctx', t');
      RaiseLeft(next.parent, next.parent.parent, ctx', t');
      ctx' := RaisedCtx(ctx');
    }

    method InsertFixup(z: Node, ghost ctx0: Ctx, ghost t0: Tree) returns (ghost t': Tree)
      requires Focus(Heap(), root, ctx0, t0) && Inserting(ctx0, t0) && t0.node == z
      modifies this`root, nodes`left, nodes`right, nodes`parent, nodes`color
      ensures Focus(Heap(), root, Top, t') && Balanced(t') && InOrder(t') == InOrder(Plug(ctx0, t0))
    {
      hide RbTree.Heap, Focus, RedBlackTree, RedBlackCtx, Plug, InOrder;
      var node := z;
      ghost var ctx, t := ctx0, t0;
      Around(ctx, t);
      if !ctx.Top? { Above(ctx, t); }
      while IsRed(node.parent)
        invariant Focus(Heap(), root, ctx, t) && Inserting(ctx, t) && t.node == node
        invariant node.parent == ParentOf(ctx) && (!ctx.Top? ==> ctx.node.color == ctx.color)
        invariant InOrder(Plug(ctx, t)) == InOrder(Plug(ctx0, t0))
        decreases Depth(ctx)
      {
        RedParent(ctx, t);
        Above(ctx, t);
        Above(ctx.up, Wrap(ctx, t));
        if node.parent == node.parent.parent.left {
          node, ctx, t := InsertStepLeft(node, ctx, t);
        } else {
          node, ctx, t := InsertStepRight(node, ctx, t);
        }
        Around(ctx, t);
        if !ctx.Top? { Above(ctx, t); }
      }
      Zip(Heap(), root, ctx, t);
      InsertDone(ctx, t);
      Around(Top, Plug(ctx, t));
      Paint(root, Black, Top, Plug(ctx, t));
      t' := Painted(Plug(ctx, t), Black);
    }

    method InitNode(z: Node, parent: Node?)
      requires z !in nodes
      modifies this`nodes, z`parent, z`left, z`right, z`color
      ensures nodes == old(nodes) + {z} && Heap() == old(Heap())[z := Cell(parent, null, null, Red)]
    {
      z.parent, z.left, z.right, z.color := parent, null, null, Red;
      nodes := nodes + {z};
    }

    /** Hangs `z` into the empty place in focus, as a red node. */
    method AttachNode(z: Node, parent: Node?, toLeft: bool, ghost ctx: Ctx)
      requires Focus(Heap(), root, ctx, Leaf) && z !in CtxNodes(ctx) && parent == ParentOf(ctx)
        && (toLeft <==> ctx.InLeft?)
      requires z !in nodes
      modifies this`root, this`nodes, z`parent, z`left, z`right, z`color, nodes`left, nodes`right
      ensures nodes == old(nodes) + {z} && Focus(Heap(), root, ctx, Br(Leaf, z, Red, Leaf))
    {
      hide RbTree.Heap, Focus;
      Attach(Heap(), root, ctx, z);
      InitNode(z, parent);
      if parent == null {
        root := z;
      } else if toLeft {
        SetLeft(parent, z);
      } else {
        SetRight(parent, z);
      }
    }

    lemma Start(key: nat)
      requires Valid()
      ensures root == NodeOf(tree) && Plug(Top, tree) == tree && Between(Top, key) && Focus(Heap(), root, Top, tree)
      ensures nodes == Nodes(tree) && Balanced(tree) && Sorted(InOrder(tree)) && size == |InOrder(tree)|
    {
    }

    lemma Restored()
      requires nodes == Nodes(tree) && Focus(Heap(), root, Top, tree)
      requires Balanced(tree) && Sorted(InOrder(tree)) && size == |InOrder(tree)|
      ensures Valid()
    {
    }

    lemma InContents()
      requires Valid()
      ensures nodes == (set n | n in Contents()) && Sorted(Contents())
    {
      InOrderNodes(tree);
    }

    lemma SizeIs()
      requires Valid()
      ensures size == |Contents()|
    {
    }

    /** The descent of rb_insert: a node with the key, or the empty place where it belongs. */
    method Descend(key: nat) returns (parent: Node?, toLeft: bool, hit: Node?, ghost ctx: Ctx)
      requires Valid()
      ensures hit != null ==> hit in Contents() && hit.base == key
      ensures hit == null ==> Focus(Heap(), root, ctx, Leaf) && Plug(ctx, Leaf) == tree && Between(ctx, key)
      ensures hit == null ==> parent == ParentOf(ctx) && (toLeft <==> ctx.InLeft?)
    {
      hide RbTree.Valid, RbTree.Heap, Focus, InOrder, Before, After, Sorted, Between, Plug;
      Start(key);
      parent, toLeft, hit, ctx := null, false, root, Top;
      ghost var t := tree;
      while hit != null
        invariant Focus(Heap(), root, ctx, t) && Plug(ctx, t) == tree && Between(ctx, key)
        invariant hit == NodeOf(t) && parent == ParentOf(ctx) && (toLeft <==> ctx.InLeft?)
        decreases t
      {
        Around(ctx, t);
        SearchStep(ctx, t, key);
        if key < hit.base {
          MoveUp(Heap(), root, GoLeft(ctx, t), t.left);
          parent, hit, toLeft, ctx, t := hit, hit.left, true, GoLeft(ctx, t), t.left;
        } else if key > hit.base {
          MoveUp(Heap(), root, GoRight(ctx, t), t.right);
          parent, hit, toLeft, ctx, t := hit, hit.right, false, GoRight(ctx, t), t.right;
        } else {
          FocusNode(ctx, t);
          return;
        }
      }
    }

    /** Inserts `z` at its place in the order, or returns -1 when a node has its key already. */
    method Insert(z: Node) returns (r: int, ghost i: nat)
      requires Valid()
      modifies this, z`parent, z`left, z`right, z`color, nodes`parent, nodes`left, nodes`right, nodes`color
      ensures Valid()
      ensures r == -1 <==> exists n :: n in old(Contents()) && n.base == z.base
      ensures r == -1 ==> Contents() == old(Contents()) && nodes == old(nodes) && size == old(size)
      ensures r != -1 ==> r == 0 && nodes == old(nodes) + {z} && z !in old(nodes) && size == old(size) + 1
      ensures r != -1 ==> i <= |old(Contents())| && Contents() == old(Contents())[..i] + [z] + old(Contents())[i..]
    {
      hide RbTree.Valid, RbTree.Heap, Focus, Nodes, RedBlackTree, RedBlackCtx, InOrder, Before, After, Sorted, Between,
           Plug;
      var parent, toLeft, hit, ctx := Descend(z.base);
      if hit != null {
        return -1, 0;
      }
      Start(z.base);
      NotFound(Heap(), root, ctx, tree, z.base);
      NewLeaf(ctx, z);
      InOrderNodes(tree);
      assert forall n :: n in Contents() ==> n.base != z.base;
      AttachNode(z, parent, toLeft, ctx);
      size := size + 1;
      ghost var was := tree;
      i := |Before(ctx)|;
      tree := InsertFixup(z, ctx, Br(Leaf, z, Red, Leaf));
      NodesWith(was, tree, z, i);
      Restored();
      r := 0;
    }

    // ---- removal

    /** A red sibling is painted black and rotated above the parent, painted red. */
    method LowerLeft(p: Node, s: Node, ghost ctx: Ctx, ghost t: Tree)
      requires Focus(Heap(), root, ctx, t) && ctx.InLeft? && ctx.right.Br? && p == ctx.node && s == ctx.right.node
      modifies this`root, nodes`left, nodes`right, nodes`parent, nodes`color
      ensures Focus(Heap(), root, Lowered(ctx), t)
    {
      hide RbTree.Heap, Focus;
      Sideways(Heap(), root, ctx, t);
      Paint(s, Black, Flip(ctx, t), ctx.right);
      ghost var sib := Painted(ctx.right, Black);
      Above(Flip(ctx, t), sib);
      Paint(p, Red, ctx.up, Br(t, p, ctx.color, sib));
      RotateLeft(p, ctx.up, Br(t, p, Red, sib));
      MoveUp(Heap(), root, Lowered(ctx).up, Br(t, p, Red, sib.left));
      MoveUp(Heap(), root, Lowered(ctx), t);
    }

    /** The sibling becomes red. */
    method Blame(s: Node, ghost ctx: Ctx, ghost t: Tree)
      requires Focus(Heap(), root, ctx, t) && !ctx.Top? && Sibling(ctx).Br? && s == Sibling(ctx).node
      modifies nodes`color
      ensures Focus(Heap(), root, ctx.up, Blamed(ctx, t))
    {
      hide RbTree.Heap, Focus;
      Sideways(Heap(), root, ctx, t);
      Paint(s, Red, Flip(ctx, t), Sibling(ctx));
      Above(Flip(ctx, t), Painted(Sibling(ctx), Red));
    }

    /** A red nephew on the left is rotated above the sibling. */
    method SwingLeft(s: Node, ghost ctx: Ctx, ghost t: Tree)
      requires Focus(Heap(), root, ctx, t) && ctx.InLeft? && ctx.right.Br? && ctx.right.left.Br? && s == ctx.right.node
      modifies this`root, nodes`left, nodes`right, nodes`parent, nodes`color
      ensures Focus(Heap(), root, Swung(ctx), t)
    {
      hide RbTree.Heap, Focus;
      ghost var sib, at := ctx.right, Flip(ctx, t);
      Sideways(Heap(), root, ctx, t);
      Around(at, sib);
      MoveUp(Heap(), root, GoLeft(at, sib), sib.left);
      Paint(s.left, Black, GoLeft(at, sib), sib.left);
      ghost var near := Painted(sib.left, Black);
      Above(GoLeft(at, sib), near);
      Paint(s, Red, at, sib.(left := near));
      RotateRight(s, at, sib.(left := near, color := Red));
      Sideways(Heap(), root, at, RotatedRight(sib.(left := near, color := Red)));
    }

    /** The sibling takes the colour and the place of the parent; the parent and the right nephew become black. */
    method RepairLeft(p: Node, s: Node, ghost ctx: Ctx, ghost t: Tree)
      requires Focus(Heap(), root, ctx, t) && ctx.InLeft? && ctx.right.Br? && p == ctx.node && s == ctx.right.node
      modifies this`root, nodes`left, nodes`right, nodes`parent, nodes`color
      ensures Focus(Heap(), root, ctx.up, Repaired(ctx, t))
    {
      hide RbTree.Heap, Focus;
      Above(ctx, t);
      Sideways(Heap(), root, ctx, t);
      Paint(s, p.color, Flip(ctx, t), ctx.right);
      ghost var sib := Painted(ctx.right, ctx.color);
      Above(Flip(ctx, t), sib);
      Paint(p, Black, ctx.up, Br(t, p, ctx.color, sib));
      ghost var at := InRight(ctx.up, t, p, Black);
      MoveUp(Heap(), root, at, sib);
      Around(at, sib);
      ghost var far := Painted(sib.right, Black);
      if s.right != null {
        MoveUp(Heap(), root, GoRight(at, sib), sib.right);
        Paint(s.right, Black, GoRight(at, sib), sib.right);
        Above(GoRight(at, sib), far);
      }
      MoveUp(Heap(), root, at, sib.(right := far));
      RotateLeft(p, ctx.up, Br(t, p, Black, sib.(right := far)));
    }

    /** A red sibling is painted black and rotated above the parent, painted red. */
    method LowerRight(p: Node, s: Node, ghost ctx: Ctx, ghost t: Tree)
      requires Focus(Heap(), root, ctx, t) && ctx.InRight? && ctx.left.Br? && p == ctx.node && s == ctx.left.node
      modifies this`root, nodes`left, nodes`right, nodes`parent, nodes`color
      ensures Focus(Heap(), root, Lowered(ctx), t)
    {
      hide RbTree.Heap, Focus;
      Sideways(Heap(), root, ctx, t);
      Paint(s, Black, Flip(ctx, t), ctx.left);
      ghost var sib := Painted(ctx.left, Black);
      Above(Flip(ctx, t), sib);
      Paint(p, Red, ctx.up, Br(sib, p, ctx.color, t));
      RotateRight(p, ctx.up, Br(sib, p, Red, t));
      MoveUp(Heap(), root, Lowered(ctx).up, Br(sib.right, p, Red, t));
      MoveUp(Heap(), root, Lowered(ctx), t);
    }

    /** A red nephew on the right is rotated above the sibling. */
    method SwingRight(s: Node, ghost ctx: Ctx, ghost t: Tree)
      requires Focus(Heap(), root, ctx, t) && ctx.InRight? && ctx.left.Br? && ctx.left.right.Br? && s == ctx.left.node
      modifies this`root, nodes`left, nodes`right, nodes`parent, nodes`color
      ensures Focus(Heap(), root, Swung(ctx), t)
    {
      hide RbTree.Heap, Focus;
      ghost var sib, at := ctx.left, Flip(ctx, t);
      Sideways(Heap(), root, ctx, t);
      Around(at, sib);
      MoveUp(Heap(), root, GoRight(at, sib), sib.right);
      Paint(s.right, Black, GoRight(at, sib), sib.right);
      ghost var near := Painted(sib.right, Black);
      Above(GoRight(at, sib), near);
      Paint(s, Red, at, sib.(right := near));
      RotateLeft(s, at, sib.(right := near, color := Red));
      Sideways(Heap(), root, at, RotatedLeft(sib.(right := near, color := Red)));
    }

    /** The sibling takes the colour and the place of the parent; the parent and the left nephew become black. */
    method RepairRight(p: Node, s: Node, ghost ctx: Ctx, ghost t: Tree)
      requires Focus(Heap(), root, ctx, t) && ctx.InRight? && ctx.left.Br? && p == ctx.node && s == ctx.left.node
      modifies this`root, nodes`left, nodes`right, nodes`parent, nodes`color
      ensures Focus(Heap(), root, ctx.up, Repaired(ctx, t))
    {
      hide RbTree.Heap, Focus;
      Above(ctx, t);
      Sideways(Heap(), root, ctx, t);
      Paint(s, p.color, Flip(ctx, t), ctx.left);
      ghost var sib := Painted(ctx.left, ctx.color);
      Above(Flip(ctx, t), sib);
      Paint(p, Black, ctx.up, Br(sib, p, ctx.color, t));
      ghost var at := InLeft(ctx.up, p, Black, t);
      MoveUp(Heap(), root, at, sib);
      Around(at, sib);
      ghost var far := Painted(sib.left, Black);
      if s.left != null {
        MoveUp(Heap(), root, GoLeft(at, sib), sib.left);
        Paint(s.left, Black, GoLeft(at, sib), sib.left);
        Above(GoLeft(at, sib), far);
      }
      MoveUp(Heap(), root, at, sib.(left := far));
      RotateRight(p, ctx.up, Br(sib.(left := far), p, Black, t));
    }

    /** One turn of the loop of _remove_fixup, for a left child. */
    method RemoveStepLeft(parent: Node, ghost ctx: Ctx, ghost t: Tree) returns (next: Node?, over: Node?,
        ghost ctx': Ctx, ghost t': Tree)
      requires Focus(Heap(), root, ctx, t) && Removing(ctx, t) && ColorOf(t) == Black && ctx.InLeft?
        && parent == ctx.node
      modifies this`root, nodes`left, nodes`right, nodes`parent, nodes`color
      ensures Focus(Heap(), root, ctx', t') && Removing(ctx', t') && next == NodeOf(t')
        && (!ctx'.Top? ==> over == ctx'.node)
      ensures Depth(ctx') + Weight(ColorOf(t')) < Depth(ctx) + 1 && InOrder(Plug(ctx', t')) == InOrder(Plug(ctx, t))
    {
      hide RbTree.Heap, Focus, Removing, Plug, InOrder, RedBlackTree, RedBlackCtx;
      Above(ctx, t);
      HasSibling(ctx, t);
      Sideways(Heap(), root, ctx, t);
      Around(Flip(ctx, t), Sibling(ctx));
      var sibling := parent.right;
      ctx', t' := ctx, t;
      if IsRed(sibling) {
        RemoveLower(ctx, t);
        LowerLeft(parent, sibling, ctx, t);
        ctx' := Lowered(ctx);
        Above(ctx', t);
        HasSibling(ctx', t);
        sibling := parent.right;
      }
      Nephews(ctx', t);
      if IsBlack(sibling.left) && IsBlack(sibling.right) {
        RemoveBlame(ctx', t);
        Blame(sibling, ctx', t);
        ctx', t' := ctx'.up, Blamed(ctx', t);
        Around(ctx', t');
        return parent, parent.parent, ctx', t';
      }
      if IsBlack(sibling.right) {
        RemoveSwing(ctx', t);
        SwingLeft(sibling, ctx', t);
        ctx' := Swung(ctx');
        Above(ctx', t);
        sibling := parent.right;
      }
      RemoveRepair(ctx', t);
      RepairLeft(parent, sibling, ctx', t);
      t' := Plug(ctx'.up, Repaired(ctx', t));
      Zip(Heap(), root, ctx'.up, Repaired(ctx', t));
      Around(Top, t');
      RemoveEnd(t');
      return root, null, Top, t';
    }

    /** One turn of the loop of _remove_fixup, for a right child. */
    method RemoveStepRight(parent: Node, ghost ctx: Ctx, ghost t: Tree) returns (next: Node?, over: Node?,
        ghost ctx': Ctx, ghost t': Tree)
      requires Focus(Heap(), root, ctx, t) && Removing(ctx, t) && ColorOf(t) == Black && ctx.InRight?
        && parent == ctx.node
      modifies this`root, nodes`left, nodes`right, nodes`parent, nodes`color
      ensures Focus(Heap(), root, ctx', t') && Removing(ctx', t') && next == NodeOf(t')
        && (!ctx'.Top? ==> over == ctx'.node)
      ensures Depth(ctx') + Weight(ColorOf(t')) < Depth(ctx) + 1 && InOrder(Plug(ctx', t')) == InOrder(Plug(ctx, t))
    {
      hide RbTree.Heap, Focus, Removing, Plug, InOrder, RedBlackTree, RedBlackCtx;
      Above(ctx, t);
      HasSibling(ctx, t);
      Sideways(Heap(), root, ctx, t);
      Around(Flip(ctx, t), Sibling(ctx));
      var sibling := parent.left;
      ctx', t' := ctx, t;
      if IsRed(sibling) {
        RemoveLower(ctx, t);
        LowerRight(parent, sibling, ctx, t);
        ctx' := Lowered(ctx);
        Above(ctx', t);
        HasSibling(ctx', t);
        sibling := parent.left;
      }
      Nephews(ctx', t);
      if IsBlack(sibling.left) && IsBlack(sibling.right) {
        RemoveBlame(ctx', t);
        Blame(sibling, ctx', t);
        ctx', t' := ctx'.up, Blamed(ctx', t);
        Around(ctx', t');
        return parent, parent.parent, ctx', t';
      }
      if IsBlack(sibling.left) {
        RemoveSwing(ctx', t);
        SwingRight(sibling, ctx', t);
        ctx' := Swung(ctx');
        Above(ctx', t);
        sibling := parent.left;
      }
      RemoveRepair(ctx', t);
      RepairRight(parent, sibling, ctx', t);
      t' := Plug(ctx'.up, Repaired(ctx', t));
      Zip(Heap(), root, ctx'.up, Repaired(ctx', t));
      Around(Top, t');
      RemoveEnd(t');
      return root, null, Top, t';
    }

    method RemoveFixup(x: Node?, par: Node?, ghost ctx0: Ctx, ghost t0: Tree) returns (ghost t': Tree)
      requires Focus(Heap(), root, ctx0, t0) && Removing(ctx0, t0) && x == NodeOf(t0) && par == ParentOf(ctx0)
      modifies this`root, nodes`left, nodes`right, nodes`parent, nodes`color
      ensures Focus(Heap(), root, Top, t') && Balanced(t') && InOrder(t') == InOrder(Plug(ctx0, t0))
    {
      hide RbTree.Heap, Focus, Removing, RedBlackTree, RedBlackCtx, Plug, InOrder;
      var node, parent := x, par;
      ghost var ctx, t := ctx0, t0;
      AtRoot(ctx, t);
      while IsBlack(node) && node != root
        invariant Focus(Heap(), root, ctx, t) && Removing(ctx, t) && node == NodeOf(t)
          && (!ctx.Top? ==> parent == ctx.node)
        invariant InOrder(Plug(ctx, t)) == InOrder(Plug(ctx0, t0))
        invariant (ctx.Top? <==> node == root) && (t.Br? ==> node.color == t.color)
        decreases Depth(ctx) + Weight(ColorOf(t))
      {
        Above(ctx, t);
        HasSibling(ctx, t);
        if node == parent.left {
          node, parent, ctx, t := RemoveStepLeft(parent, ctx, t);
        } else {
          node, parent, ctx, t := RemoveStepRight(parent, ctx, t);
        }
        AtRoot(ctx, t);
      }
      RemoveDone(ctx, t);
      if node != null {
        Paint(node, Black, ctx, t);
      }
      Zip(Heap(), root, ctx, Painted(t, Black));
      t' := Plug(ctx, Painted(t, Black));
    }

    method Transplant(u: Node, v: Node?)
      requires u in nodes && (u.parent != null ==> u.parent in nodes && v != u.parent) && (v != null ==> v in nodes)
      modifies this`root, nodes`left, nodes`right, nodes`parent
      ensures root == if old(u.parent) == null then v else old(root)
      ensures Transplantable(old(Heap()), u, v) && Heap() == Transplanted(old(Heap()), u, v)
    {
      hide RbTree.Heap, Replaced;
      Look(u);
      ReplaceChild(u.parent, u, v);
      Look(u);
      if v != null {
        SetParent(v, u.parent);
      }
    }

    /** The leftmost node below the focus. */
    method Leftmost(top: Node, ghost ctx: Ctx, ghost t: Tree) returns (y: Node, ghost inner: Ctx, ghost s: Tree)
      requires Focus(Heap(), root, ctx, t) && t.Br? && t.node == top
      ensures Before(inner) == [] && Plug(inner, Br(Leaf, y, y.color, s)) == t
      ensures Focus(Heap(), root, Join(inner, ctx), Br(Leaf, y, y.color, s))
      ensures y.parent == ParentOf(Join(inner, ctx)) && y.right == NodeOf(s) && y in nodes
    {
      hide RbTree.Heap, Focus, InOrder;
      y, inner := top, Top;
      ghost var low := t;
      Around(ctx, t);
      while y.left != null
        invariant low.Br? && low.node == y && y in nodes && y.left == NodeOf(low.left) && y.right == NodeOf(low.right)
        invariant y.color == low.color && y.parent == ParentOf(Join(inner, ctx))
        invariant Focus(Heap(), root, Join(inner, ctx), low) && Plug(inner, low) == t && Before(inner) == []
        decreases low
      {
        MoveUp(Heap(), root, GoLeft(Join(inner, ctx), low), low.left);
        y, inner, low := y.left, GoLeft(inner, low), low.left;
        Around(Join(inner, ctx), low);
      }
      s := low.right;
    }

    /** The node `y`, which already holds the right subtree, takes the place of `node`. */
    method TakePlace(node: Node, y: Node, ghost ctx: Ctx, ghost l: Tree, ghost c: Color, ghost r: Tree)
      requires Heir(Heap(), root, ctx, l, node, c, y, r) && l.Br?
      modifies this`root, nodes`left, nodes`right, nodes`parent, nodes`color
      ensures Focus(Heap(), root, ctx, Br(l, y, c, r))
    {
      hide RbTree.Heap, Focus, Replaced, Apart, Linked, CtxLinked;
      ghost var m := Heap();
      HeirIsNot(m, root, ctx, l, node, c, y, r);
      Inherit(m, root, ctx, l, node, c, y, r);
      Look(node);
      Transplant(node, y);
      TransplantedKeeps(m, node, y);
      Look(node);
      SetLeft(y, node.left);
      Look(y);
      SetParent(y.left, y);
      Look(node);
      SetColor(y, node.color);
    }

    /** Takes the leftmost node `y` out of the right subtree and hangs the rest of the subtree below it. */
    method CutHeir(node: Node, y: Node, ghost inner: Ctx, ghost ctx: Ctx, ghost t: Tree, ghost s: Tree)
      requires t.Br? && t.node == node && t.right.Br? && t.right == Plug(inner, Br(Leaf, y, y.color, s))
      requires Focus(Heap(), root, Join(inner, GoRight(ctx, t)), Br(Leaf, y, y.color, s)) && !inner.Top?
      modifies this`root, nodes`left, nodes`right, nodes`parent
      ensures Heir(Heap(), root, ctx, t.left, node, t.color, y, Plug(inner, s))
    {
      hide RbTree.Heap, Focus, Heir, Plug, Nodes, CtxNodes, Linked, CtxLinked, Replaced;
      ghost var at, low, r := Join(inner, GoRight(ctx, t)), Br(Leaf, y, y.color, s), Plug(inner, s);
      ghost var m := Heap();
      Around(at, low);
      ParentDiffers(m, root, at, low, s);
      PlugBr(inner, s);
      CutLeftmost(m, root, inner, ctx, t.left, node, t.color, y, y.color, s);
      Transplant(y, y.right);
      HeirDeep(Heap(), root, ctx, t.left, node, t.color, y, r);
      Around(ctx, Br(t.left, node, t.color, r));
      SetRight(y, node.right);
      Look(y);
      SetParent(y.right, y);
    }

    /** Takes out a node with two children. The shortage, if any, is at `x` below `par`. */
    method UnlinkTwo(node: Node, ghost ctx: Ctx, ghost t: Tree)
      returns (x: Node?, par: Node?, c: Color, ghost at: Ctx, ghost s: Tree)
      requires Focus(Heap(), root, ctx, t) && t.Br? && t.node == node && t.left.Br? && t.right.Br?
        && Balanced(Plug(ctx, t))
      modifies this`root, nodes`left, nodes`right, nodes`parent, nodes`color
      ensures Focus(Heap(), root, at, s) && x == NodeOf(s) && par == ParentOf(at)
      ensures (c == Black ==> Removing(at, s)) && (c == Red ==> Balanced(Plug(at, s)))
      ensures var o := InOrder(Plug(ctx, t));
        Rank(ctx, t) < |o| && o[Rank(ctx, t)] == node && InOrder(Plug(at, s)) == Cut(o, Rank(ctx, t))
    {
      hide RbTree.Heap, Focus, Heir, Plug, InOrder, Before, After, Removing, Balanced;
      Around(ctx, t);
      MoveUp(Heap(), root, GoRight(ctx, t), t.right);
      var y, inner, rest := Leftmost(node.right, GoRight(ctx, t), t.right);
      s, c, x := rest, y.color, y.right;
      RemoveTwo(inner, ctx, t.left, node, t.color, y, c, s);
      RemoveTwoOrder(inner, ctx, t.left, node, t.color, y, c, s);
      InnerParent(Heap(), root, inner, GoRight(ctx, t), Br(Leaf, y, c, s));
      if y.parent == node {
        par := y;
        TopPlug(Br(Leaf, y, c, s));
        TopPlug(s);
        HeirChild(Heap(), root, ctx, t.left, node, t.color, y, c, s);
      } else {
        par := y.parent;
        CutHeir(node, y, inner, ctx, t, s);
      }
      TakePlace(node, y, ctx, t.left, t.color, Plug(inner, s));
      MoveUp(Heap(), root, InRight(ctx, t.left, y, t.color), Plug(inner, s));
      JoinFocus(Heap(), root, inner, InRight(ctx, t.left, y, t.color), s);
      at := Join(inner, InRight(ctx, t.left, y, t.color));
    }

    /** Takes out a node that has at most the child in `s`. */
    method UnlinkOne(node: Node, child: Node?, ghost ctx: Ctx, ghost t: Tree, ghost s: Tree)
      requires Focus(Heap(), root, ctx, t) && t.Br? && t.node == node && child == NodeOf(s)
      requires t == Br(Leaf, node, t.color, s) || t == Br(s, node, t.color, Leaf)
      modifies this`root, nodes`left, nodes`right, nodes`parent
      ensures Focus(Heap(), root, ctx, s)
    {
      hide RbTree.Heap, Focus, Replaced;
      TransplantChild(Heap(), root, ctx, t, s);
      Around(ctx, t);
      if !ctx.Top? { ParentDiffers(Heap(), root, ctx, t, s); }
      Transplant(node, child);
    }

    method Forget(node: Node)
      modifies this`nodes
      ensures nodes == old(nodes) - {node} && Heap() == old(Heap()) - {node}
    {
      nodes := nodes - {node};
    }

    /** The unlinking part of rb_remove. */
    method Unlink(node: Node, ghost ctx: Ctx, ghost t: Tree) returns (x: Node?, par: Node?, c: Color, ghost at: Ctx,
        ghost s: Tree)
      requires Focus(Heap(), root, ctx, t) && t.Br? && t.node == node && Balanced(Plug(ctx, t))
      modifies this`root, nodes`left, nodes`right, nodes`parent, nodes`color
      ensures Focus(Heap(), root, at, s) && x == NodeOf(s) && par == ParentOf(at)
      ensures (c == Black ==> Removing(at, s)) && (c == Red ==> Balanced(Plug(at, s)))
      ensures var o := InOrder(Plug(ctx, t));
        Rank(ctx, t) < |o| && o[Rank(ctx, t)] == node && InOrder(Plug(at, s)) == Cut(o, Rank(ctx, t))
    {
      hide RbTree.Heap, Focus, Plug, InOrder, Before, After, Removing, Balanced;
      Around(ctx, t);
      at, c := ctx, node.color;
      if node.left == null {
        x, par, s := node.right, node.parent, t.right;
        RemoveOne(ctx, t, s);
        RemoveLeftmostOrder(ctx, node, t.color, s);
        UnlinkOne(node, node.right, ctx, t, s);
      } else if node.right == null {
        x, par, s := node.left, node.parent, t.left;
        RemoveOne(ctx, t, s);
        RemoveRightmostOrder(ctx, s, node, t.color);
        UnlinkOne(node, node.left, ctx, t, s);
      } else {
        x, par, c, at, s := UnlinkTwo(node, ctx, t);
      }
    }

    /** Takes `node` out of the order and touches no payload. */
    method Remove(node: Node)
      requires Valid() && node in nodes
      modifies this, nodes`parent, nodes`left, nodes`right, nodes`color
      ensures Valid() && nodes == old(nodes) - {node}
      ensures exists i ::
        0 <= i < |old(Contents())| && old(Contents())[i] == node && Contents() == Cut(old(Contents()), i)
    {
      hide RbTree.Valid, RbTree.Heap, Focus, Nodes, Plug, InOrder, Before, After, Removing, Balanced, Sorted;
      Start(0);
      ghost var ctx, t := Locate(Heap(), root, Top, tree, node);
      ghost var was, i := tree, Rank(ctx, t);
      var x, par, c, at, s := Unlink(node, ctx, t);
      size := size - 1;
      Zip(Heap(), root, at, s);
      tree := Plug(at, s);
      if c == Black {
        tree := RemoveFixup(x, par, at, s);
      }
      NodesWithout(was, tree, i);
      Unheld(Heap(), root, tree, node);
      Forget(node);
      Restored();
      assert Contents() == Cut(old(Contents()), i);
    }

    // ---- searches

    method Find(key: nat) returns (n: Node?)
      requires Valid()
      ensures n != null ==> n in Contents() && n.base == key
      ensures n == null ==> forall i :: 0 <= i < |Contents()| ==> Contents()[i].base != key
    {
      var _, _, hit, ctx := Descend(key);
      if hit == null {
        InOrderPlug(ctx, Leaf);
      }
      n := hit;
    }

    /** The first node with a key of at least `key`. */
    method LowerBound(key: nat) returns (n: Node?, ghost i: nat)
      requires Valid()
      ensures SplitsAt(Contents(), i, key, true) && n == At(Contents(), i)
    {
      hide RbTree.Valid, RbTree.Heap, Focus, InOrder, Sorted, Between, Plug, SplitsAt;
      Start(key);
      var cur := root;
      ghost var ctx, t := Top, tree;
      n := null;
      while cur != null
        invariant Focus(Heap(), root, ctx, t) && Plug(ctx, t) == tree && Between(ctx, key)
        invariant cur == NodeOf(t) && n == At(After(ctx), 0)
        decreases t
      {
        Around(ctx, t);
        SearchStep(ctx, t, key);
        if key < cur.base {
          MoveUp(Heap(), root, GoLeft(ctx, t), t.left);
          n := cur;
          cur, ctx, t := cur.left, GoLeft(ctx, t), t.left;
        } else if key > cur.base {
          MoveUp(Heap(), root, GoRight(ctx, t), t.right);
          cur, ctx, t := cur.right, GoRight(ctx, t), t.right;
        } else {
          FocusOrder(ctx, t);
          i := Rank(ctx, t);
          SplitHit(Contents(), Before(ctx) + InOrder(t.left), cur, InOrder(t.right) + After(ctx), key);
          return cur, i;
        }
      }
      i := |Before(ctx)|;
      BoundHere(ctx, key, true);
    }

    /** The first node with a key above `key`. */
    method UpperBound(key: nat) returns (n: Node?, ghost i: nat)
      requires Valid()
      ensures SplitsAt(Contents(), i, key, false) && n == At(Contents(), i)
    {
      hide RbTree.Valid, RbTree.Heap, Focus, InOrder, Sorted, UpTo, Plug, SplitsAt;
      Start(key);
      StartUpTo(key);
      var cur := root;
      ghost var ctx, t := Top, tree;
      n := null;
      while cur != null
        invariant Focus(Heap(), root, ctx, t) && Plug(ctx, t) == tree && UpTo(ctx, key)
        invariant cur == NodeOf(t) && n == At(After(ctx), 0)
        decreases t
      {
        Around(ctx, t);
        UpToStep(ctx, t, key);
        if key < cur.base {
          MoveUp(Heap(), root, GoLeft(ctx, t), t.left);
          n := cur;
          cur, ctx, t := cur.left, GoLeft(ctx, t), t.left;
        } else {
          MoveUp(Heap(), root, GoRight(ctx, t), t.right);
          cur, ctx, t := cur.right, GoRight(ctx, t), t.right;
        }
      }
      i := |Before(ctx)|;
      UpToHere(ctx, key);
    }

    method First() returns (n: Node?)
      requires Valid()
      ensures n == At(Contents(), 0)
    {
      hide RbTree.Valid, RbTree.Heap, Focus, InOrder, Sorted, Plug;
      Start(0);
      if root == null {
        EmptyOrder(tree);
        return null;
      }
      var y, inner, s := Leftmost(root, Top, tree);
      LeftmostIsFirst(inner, y, y.color, s);
      n := y;
    }

    method Last() returns (n: Node?)
      requires Valid()
      ensures n == At(Contents(), |Contents()| - 1)
    {
      hide RbTree.Valid, RbTree.Heap, Focus, InOrder, Sorted, Plug;
      Start(0);
      if root == null {
        EmptyOrder(tree);
        return null;
      }
      var y, inner, s := Rightmost(root, Top, tree);
      RightmostIsLast(inner, y, y.color, s);
      n := y;
    }

    method Rightmost(top: Node, ghost ctx: Ctx, ghost t: Tree) returns (y: Node, ghost inner: Ctx, ghost s: Tree)
      requires Focus(Heap(), root, ctx, t) && t.Br? && t.node == top
      ensures After(inner) == [] && Plug(inner, Br(s, y, y.color, Leaf)) == t
    {
      hide RbTree.Heap, Focus, InOrder;
      y, inner := top, Top;
      ghost var low := t;
      Around(ctx, t);
      while y.right != null
        invariant low.Br? && low.node == y && y.left == NodeOf(low.left) && y.right == NodeOf(low.right)
          && y.color == low.color
        invariant Focus(Heap(), root, Join(inner, ctx), low) && Plug(inner, low) == t && After(inner) == []
        decreases low
      {
        MoveUp(Heap(), root, GoRight(Join(inner, ctx), low), low.right);
        y, inner, low := y.right, GoRight(inner, low), low.right;
        Around(Join(inner, ctx), low);
      }
      s := low.left;
    }

    /** The node after `node` in the order. */
    method Next(node: Node) returns (n: Node?, ghost i: nat)
      requires Valid() && node in nodes
      ensures i < |Contents()| && Contents()[i] == node && n == At(Contents(), i + 1)
    {
      hide RbTree.Valid, RbTree.Heap, Focus, InOrder, Sorted, Plug;
      Start(0);
      TopPlug(tree);
      ghost var ctx, t := Locate(Heap(), root, Top, tree, node);
      Around(ctx, t);
      i := Rank(ctx, t);
      Neighbours(ctx, t);
      if node.right != null {
        MoveUp(Heap(), root, GoRight(ctx, t), t.right);
        var y, inner, s := Leftmost(node.right, GoRight(ctx, t), t.right);
        LeftmostIsFirst(inner, y, y.color, s);
        return y, i;
      }
      EmptyOrder(t.right);
      ghost var c, u := ctx, t;
      var cur, parent := node, node.parent;
      while parent != null && cur == parent.right
        invariant Focus(Heap(), root, c, u) && u.Br? && cur == u.node && parent == ParentOf(c) && After(c) == After(ctx)
        decreases Depth(c)
      {
        Above(c, u);
        cur, parent, c, u := parent, parent.parent, c.up, Wrap(c, u);
      }
      n := parent;
      if !c.Top? { Above(c, u); }
    }

    /** The node before `node` in the order. */
    method Prev(node: Node) returns (n: Node?, ghost i: nat)
      requires Valid() && node in nodes
      ensures i < |Contents()| && Contents()[i] == node && n == At(Contents(), i - 1)
    {
      hide RbTree.Valid, RbTree.Heap, Focus, InOrder, Sorted, Plug;
      Start(0);
      TopPlug(tree);
      ghost var ctx, t := Locate(Heap(), root, Top, tree, node);
      Around(ctx, t);
      i := Rank(ctx, t);
      Neighbours(ctx, t);
      if node.left != null {
        MoveUp(Heap(), root, GoLeft(ctx, t), t.left);
        var y, inner, s := Rightmost(node.left, GoLeft(ctx, t), t.left);
        RightmostIsLast(inner, y, y.color, s);
        return y, i;
      }
      EmptyOrder(t.left);
      ghost var c, u := ctx, t;
      var cur, parent := node, node.parent;
      while parent != null && cur == parent.left
        invariant Focus(Heap(), root, c, u) && u.Br? && cur == u.node && parent == ParentOf(c)
          && Before(c) == Before(ctx)
        decreases Depth(c)
      {
        Above(c, u);
        cur, parent, c, u := parent, parent.parent, c.up, Wrap(c, u);
      }
      n := parent;
      if !c.Top? { Above(c, u); }
    }

    /** The successor saved before a removal is the node that moves up to the place of the removed one. */
    method RemoveVisited(node: Node, ghost i: nat) returns (tmp: Node?)
      requires Valid() && i < |Contents()| && Contents()[i] == node
      modifies this, nodes`parent, nodes`left, nodes`right, nodes`color
      ensures Valid() && nodes == old(nodes) - {node} && Contents() == Cut(old(Contents()), i)
        && tmp == At(Contents(), i)
      ensures size == old(size) - 1
    {
      hide RbTree.Valid, RbTree.Heap, InOrder, Sorted;
      InContents();
      ghost var was := Contents();
      ghost var j;
      tmp, j := Next(node);
      Unique(was, i, j);
      SizeIs();
      Remove(node);
      SizeIs();
      CutAt(was, i, Contents());
    }

    /** The rb_for_each_safe loop that removes every node it visits: it visits all of them, in order, each one once. */
    method RemoveAll() returns (visited: seq<Node>)
      requires Valid()
      modifies this, nodes`parent, nodes`left, nodes`right, nodes`color
      ensures Valid() && Contents() == [] && size == 0 && visited == old(Contents())
    {
      hide RbTree.Valid, RbTree.Heap, InOrder;
      visited := [];
      var node := First();
      while node != null
        invariant Valid() && nodes <= old(nodes) && node == At(Contents(), 0)
        invariant visited + Contents() == old(Contents())
        decreases |Contents()|
      {
        ghost var seen, rest := visited, Contents();
        visited := visited + [node];
        node := RemoveVisited(node, 0);
        assert seen + rest == visited + Contents();
      }
      SizeIs();
    }
  }
}
