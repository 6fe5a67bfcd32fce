/** The red-black tree operations of `lib/tree.h` on mutable elements. */
module RedBlackTree {
  import opened Sides
  import opened Powers
  import opened KeySets
  import opened RedBlackShape
  import opened RedBlackCost

  /** The link fields of a set of elements, as one value. */
  ghost function Snapshot(ns: set<Node>): Memory
    reads ns
  {
    map n | n in ns :: Cell(n.left, n.right, n.parent, n.color)
  }

  function Kid(n: Node, d: Dir): Node?
    reads n
  {
    if d.Left? then n.left else n.right
  }

  /** The side of its parent on which an element hangs. */
  ghost function SideIn(n: Node): Dir
    reads n, n.parent
  {
    if n.parent == null || n.parent.left == n then Left else Right
  }

  method SetKid(n: Node, d: Dir, x: Node?)
    modifies n`left, n`right
    ensures Kid(n, d) == x && Kid(n, Flip(d)) == old(Kid(n, Flip(d)))
  {
    if d.Left? {
      n.left := x;
    } else {
      n.right := x;
    }
  }

  class RbTree {
    var root: Node?
    ghost var nodes: set<Node>
    ghost var shape: Tree

    /** The heap holds exactly the search tree `t`. */
    ghost predicate Is(t: Tree)
      reads `root, `nodes, nodes
    {
      Holds(Snapshot(nodes), root, t)
    }

    ghost predicate Valid()
      reads this, nodes
    {
      Is(shape) && RedBlack(shape)
    }

    /** The parent's link to `from` leads to `to`. */
    method SwapKid(parent: Node, from: Node, to: Node?)
      modifies parent`left, parent`right
      ensures var d := if old(parent.left) == from then Left else Right;
        Kid(parent, d) == to && Kid(parent, Flip(d)) == old(Kid(parent, Flip(d)))
    {
      if parent.left == from {
        parent.left := to;
      } else {
        parent.right := to;
      }
    }

    /** The pointer writes of RB_ROTATE_LEFT (`d` is Left) and RB_ROTATE_RIGHT (`d` is Right). */
    method RotatePointers(d: Dir, elm: Node) returns (tmp: Node)
      requires elm in nodes && Kid(elm, Flip(d)) != null
      requires
        var y, p := Kid(elm, Flip(d)), elm.parent;
        var b := Kid(y, d);
        && y in nodes && (b != null ==> b in nodes) && (p != null ==> p in nodes)
        && elm != y && elm != b && elm != p && y != b && y != p && (b != null ==> b != p)
      modifies this`root, nodes
      ensures tmp == old(Kid(elm, Flip(d)))
      ensures RotateWrites(old(Snapshot(nodes)), Snapshot(nodes), d, elm, tmp, old(Kid(Kid(elm, Flip(d)), d)), old(elm.parent),
                           old(SideIn(elm)))
      ensures root == if old(elm.parent) != null then old(root) else tmp
    {
      tmp := Kid(elm, Flip(d));
      SetKid(elm, Flip(d), Kid(tmp, d));
      if Kid(tmp, d) != null {
        Kid(tmp, d).parent := elm;
      }
      tmp.parent := elm.parent;
      if elm.parent != null {
        SwapKid(elm.parent, elm, tmp);
      } else {
        root := tmp;
      }
      SetKid(tmp, d, elm);
      elm.parent := tmp;
    }

    /** One rotation of the subtree `t` in context `c`. */
    method Rotate(d: Dir, elm: Node, ghost c: Ctx, ghost t: Tree) returns (tmp: Node)
      requires Is(Plug(c, t))
      requires t.Fork? && t.node == elm && Sub(t, Flip(d)).Fork?
      modifies this`root, nodes
      ensures Is(Plug(c, Rotated(d, t)))
      ensures tmp == Rotated(d, t).node
    {
      ghost var m, r := Snapshot(nodes), root;
      RotateReady(m, r, d, c, t);
      tmp := RotatePointers(d, elm);
      RotateHolds(m, Snapshot(nodes), r, root, d, c, t);
    }

    method Paint(n: Node, col: Color, ghost c: Ctx, ghost t: Tree)
      requires Is(Plug(c, t))
      requires t.Fork? && t.node == n
      modifies n`color
      ensures Is(Plug(c, t.(color := col)))
    {
      ghost var m := Snapshot(nodes);
      PaintHolds(m, root, c, t, col);
      n.color := col;
      assert Snapshot(nodes) == m[n := m[n].(color := col)];
    }

    /** Paints the child on the side away from `d`. */
    method PaintFar(n: Node, col: Color, d: Dir, ghost near: Tree, ghost p: Node, ghost pc: Color, ghost far: Tree, ghost up: Ctx)
      requires Is(Plug(up, Mk(d, near, p, pc, far)))
      requires far.Fork? && far.node == n
      modifies n`color
      ensures Is(Plug(up, Mk(d, near, p, pc, far.(color := col))))
    {
      ghost var side := Frame(Flip(d), p, pc, near, up);
      assert Plug(side, far) == Plug(up, Mk(d, near, p, pc, far));
      Paint(n, col, side, far);
      assert Plug(side, far.(color := col)) == Plug(up, Mk(d, near, p, pc, far.(color := col)));
    }

    // ---------- insertion ----------

    /** The red-uncle case: the two red elements below `gparent` turn black, it turns red. */
    method RecolorFamily(d: Dir, parent: Node, gparent: Node, uncle: Node, ghost pt: Tree, ghost ut: Tree, ghost up: Ctx)
      requires Is(Plug(up, Mk(d, pt, gparent, Black, ut)))
      requires pt.Fork? && pt.node == parent && ut.Fork? && ut.node == uncle
      modifies nodes`color
      ensures Is(Plug(up, Mk(d, pt.(color := Black), gparent, Red, ut.(color := Black))))
    {
      assert {parent, gparent, uncle} <= nodes by { PlugElems(up, Mk(d, pt, gparent, Black, ut)); }
      PaintFar(uncle, Black, d, pt, gparent, Black, ut, up);
      ghost var ut' := ut.(color := Black);
      Paint(parent, Black, Frame(d, gparent, Black, ut', up), pt);
      ghost var pt' := pt.(color := Black);
      Paint(gparent, Red, up, Mk(d, pt', gparent, Black, ut'));
    }

    /** The last step: `parent` turns black and rises over `gparent`, which turns red. */
    method RaiseParent(d: Dir, parent: Node, gparent: Node, ghost t: Tree, ghost s: Tree, ghost ut: Tree, ghost up: Ctx)
      requires Is(Plug(up, Mk(d, Mk(d, t, parent, Red, s), gparent, Black, ut)))
      modifies this`root, nodes
      ensures Is(Plug(up, Mk(d, t, parent, Black, Mk(d, s, gparent, Red, ut))))
    {
      ghost var pt := Mk(d, t, parent, Red, s);
      assert {parent, gparent} <= nodes by { PlugElems(up, Mk(d, pt, gparent, Black, ut)); }
      Paint(parent, Black, Frame(d, gparent, Black, ut, up), pt);
      ghost var pt' := Mk(d, t, parent, Black, s);
      Paint(gparent, Red, up, Mk(d, pt', gparent, Black, ut));
      RaisedShape(d, t, parent, Black, s, gparent, Red, ut);
      var tmp := Rotate(Flip(d), gparent, up, Mk(d, pt', gparent, Red, ut));
    }

    /** What the insertion fix-up reads around a red subtree below a red element. */
    lemma InsertFamily(c: Ctx, t: Tree)
      requires Is(Plug(c, t)) && InsertPending(c, t) && c.Frame? && c.color.Red?
      ensures c.up.Frame? && c.up.color.Black?
      ensures t.node.parent == c.node && c.node.parent == c.up.node
      ensures c.up.node.left == c.node <==> c.up.dir.Left?
      ensures Kid(c.node, Flip(c.up.dir)) == t.node <==> c.dir == Flip(c.up.dir)
      ensures Kid(c.up.node, Flip(c.up.dir)) == Root(c.up.sib)
      ensures c.up.sib.Fork? ==> c.up.sib.node.color == c.up.sib.color
      ensures {t.node, c.node, c.up.node} <= nodes
    {
      var m := Snapshot(nodes);
      var pt := Mk(c.dir, t, c.node, Red, c.sib);
      Peek(m, root, c, t);
      Peek(m, root, c.up, pt);
      Peek(m, root, Frame(Flip(c.up.dir), c.up.node, Black, pt, c.up.up), c.up.sib);
    }

    /** The black-uncle case: straighten if needed, then raise. */
    method InsertRotate(d: Dir, elm0: Node, parent0: Node, gparent: Node, ghost c: Ctx, ghost t: Tree)
        returns (elm: Node, ghost c': Ctx, ghost t': Tree)
      requires Is(Plug(c, t)) && InsertPending(c, t) && t.node == elm0
      requires c.Frame? && c.node == parent0 && c.color.Red?
      requires c.up.Frame? && c.up.node == gparent && c.up.dir == d && !IsRed(c.up.sib)
      modifies this`root, nodes
      ensures Is(Plug(c', t')) && InsertPending(c', t') && t'.node == elm
      ensures c'.Frame? && c'.color.Black?
      ensures InOrder(Plug(c', t')) == InOrder(Plug(c, t))
    {
      elm := elm0;
      var parent := parent0;
      c', t' := c, t;
      InsertFamily(c, t);
      ghost var up, ut := c.up.up, c.up.sib;
      if Kid(parent, Flip(d)) == elm {
        ghost var pt := Mk(c.dir, t, parent, Red, c.sib);
        var tmp := Rotate(d, parent, c.up, pt);
        InsertStraightened(d, t, parent, c.sib, gparent, ut, up);
        RotatedSame(d, pt);
        PlugSame(c.up, pt, Rotated(d, pt));
        c' := Frame(d, elm, Red, Sub(t, Flip(d)), c.up);
        t' := Mk(d, c.sib, parent, Red, Sub(t, d));
        tmp := parent;
        parent := elm;
        elm := tmp;
      }
      ghost var s := c'.sib;
      assert Plug(c', t') == Plug(c.up, Mk(d, t', parent, Red, s)) == Plug(up, Mk(d, Mk(d, t', parent, Red, s), gparent, Black, ut));
      RaiseParent(d, parent, gparent, t', s, ut, up);
      InsertRotated(d, t', parent, s, gparent, ut, up);
      RaisedSame(d, t', parent, s, gparent, ut);
      PlugSame(up, Mk(d, Mk(d, t', parent, Red, s), gparent, Black, ut), Mk(d, t', parent, Black, Mk(d, s, gparent, Red, ut)));
      c' := Frame(d, parent, Black, Mk(d, s, gparent, Red, ut), up);
    }

    /** The red-uncle case: the trouble moves up to `gparent`. */
    method InsertRecolor(d: Dir, parent: Node, gparent: Node, uncle: Node, ghost c: Ctx, ghost t: Tree)
        returns (ghost c': Ctx, ghost t': Tree)
      requires Is(Plug(c, t)) && InsertPending(c, t)
      requires c.Frame? && c.node == parent && c.color.Red?
      requires c.up.Frame? && c.up.node == gparent && c.up.dir == d
      requires IsRed(c.up.sib) && c.up.sib.node == uncle
      modifies nodes`color
      ensures Is(Plug(c', t')) && InsertPending(c', t') && t'.node == gparent
      ensures c' == c.up.up
      ensures InOrder(Plug(c', t')) == InOrder(Plug(c, t))
    {
      ghost var up, ut := c.up.up, c.up.sib;
      ghost var pt := Mk(c.dir, t, parent, Red, c.sib);
      assert Plug(c, t) == Plug(c.up, pt) == Plug(up, Mk(d, pt, gparent, Black, ut));
      RecolorFamily(d, parent, gparent, uncle, pt, ut, up);
      InsertRecolored(d, c.dir, t, parent, c.sib, gparent, ut, up);
      c', t' := up, Mk(d, pt.(color := Black), gparent, Red, ut.(color := Black));
      PlugSame(up, Mk(d, pt, gparent, Black, ut), t');
    }

    /** One turn of the loop of RB_INSERT_COLOR. */
    method InsertTurn(elm0: Node, ghost c: Ctx, ghost t: Tree, ghost n: nat) returns (elm: Node, ghost c': Ctx, ghost t': Tree)
      requires Is(Plug(c, t)) && InsertPending(c, t) && t.node == elm0 && InsertDue(c, n)
      requires c.Frame? && c.color.Red?
      modifies this`root, nodes
      ensures Is(Plug(c', t')) && InsertPending(c', t') && t'.node == elm
      ensures InOrder(Plug(c', t')) == InOrder(Plug(c, t))
      ensures Trouble(c') < Trouble(c) && n > 0 && InsertDue(c', n - 1)
    {
      assert InsertTurns(c) == n;
      InsertFamily(c, t);
      var parent := elm0.parent;
      var gparent := parent.parent;
      if gparent == null {
        assert false;  // the source would spin here
      }
      var d := if parent == gparent.left then Left else Right;
      var uncle := Kid(gparent, Flip(d));
      if uncle != null && uncle.color.Red? {
        c', t' := InsertRecolor(d, parent, gparent, uncle, c, t);
        elm := gparent;
        assert Depth(c) == 1 + Depth(c.up);
      } else {
        elm, c', t' := InsertRotate(d, elm0, parent, gparent, c, t);
      }
    }

    /** RB_INSERT_COLOR; `turns` counts those of its loop. */
    method InsertColor(elm0: Node, ghost c0: Ctx, ghost t0: Tree) returns (ghost r: Tree, ghost turns: nat)
      requires Is(Plug(c0, t0)) && InsertPending(c0, t0) && t0.node == elm0
      modifies this`root, nodes
      ensures Is(r) && RedBlack(r) && InOrder(r) == InOrder(Plug(c0, t0))
      ensures turns == InsertTurns(c0)
    {
      turns := 0;
      ghost var n := InsertTurns(c0);
      var elm := elm0;
      ghost var c, t := c0, t0;
      Peek(Snapshot(nodes), root, c, t);
      while elm.parent != null && elm.parent.color.Red?
        invariant Is(Plug(c, t)) && InsertPending(c, t) && t.node == elm
        invariant elm in nodes && elm.parent == Above(c) && (c.Frame? ==> c.node in nodes && c.node.color == c.color)
        invariant InOrder(Plug(c, t)) == InOrder(Plug(c0, t0))
        invariant InsertDue(c, n) && turns + n == InsertTurns(c0)
        decreases Trouble(c)
      {
        elm, c, t := InsertTurn(elm, c, t, n);
        turns, n := turns + 1, n - 1;
        Peek(Snapshot(nodes), root, c, t);
      }
      InsertNoneDue(c, n);
      r := BlackenRoot(c, t);
    }

    /** The end of the fix-up. */
    method BlackenRoot(ghost c: Ctx, ghost t: Tree) returns (ghost r: Tree)
      requires Is(Plug(c, t)) && InsertPending(c, t) && (c.Top? || c.color.Black?)
      modifies nodes`color
      ensures Is(r) && RedBlack(r) && InOrder(r) == InOrder(Plug(c, t))
    {
      InsertDone(c, t);
      ghost var w := Plug(c, t);
      Peek(Snapshot(nodes), root, Top, w);
      Paint(root, Black, Top, w);
      r := w.(color := Black);
    }

    /** The search loop of RB_INSERT: the element holding the key, or the empty place for it. */
    method Search(key: int) returns (found: Node?, parent: Node?, comp: int, ghost c: Ctx, ghost steps: nat)
      requires Is(shape)
      ensures steps == Comparisons(shape, key) && c == PlaceOf(shape, key, Top).ctx
      ensures found != null ==> found in nodes && found.key == key
      ensures found == null ==>
                && Lacks(nodes, key) && Plug(c, Leaf) == shape && Fits(c, key)
                && parent == Above(c) && (c.Frame? ==> (comp < 0 <==> c.dir.Left?))
    {
      parent, comp := null, 0;
      var tmp := root;
      ghost var t := shape;
      c, steps := Top, 0;
      while tmp != null
        invariant steps + Comparisons(t, key) == Comparisons(shape, key) && PlaceOf(t, key, c) == PlaceOf(shape, key, Top)
        invariant Plug(c, t) == shape && tmp == Root(t) && parent == Above(c) && Fits(c, key)
        invariant c.Frame? ==> (comp < 0 <==> c.dir.Left?)
        decreases t
      {
        steps := steps + 1;
        Peek(Snapshot(nodes), root, c, t);
        parent := tmp;
        comp := Compare(key, parent.key);
        if comp < 0 {
          tmp := tmp.left;
          c, t := Frame(Left, t.node, t.color, t.right, c), t.left;
        } else if comp > 0 {
          tmp := tmp.right;
          c, t := Frame(Right, t.node, t.color, t.left, c), t.right;
        } else {
          found := tmp;
          return;
        }
      }
      found := null;
      Focus(Snapshot(nodes), root, c, t);
      FitsLacks(c, {}, key);
    }

    /** RB_INSERT: the element already holding the key, or null once `elm` is in the tree;
        `steps` counts the turns of the search, and `turns` those of the fix-up. */
    method Insert(elm: Node) returns (found: Node?, ghost steps: nat, ghost turns: nat)
      requires Valid()
      modifies this, nodes, elm
      ensures Valid()
      ensures found == null <==> old(Lacks(nodes, elm.key))
      ensures found == null ==> nodes == old(nodes) + {elm}
      ensures found != null ==> found in old(nodes) && found.key == elm.key
      ensures found != null ==> unchanged(this) && unchanged(nodes) && unchanged(elm)
      ensures steps == Comparisons(old(shape), elm.key)
      ensures turns == if found == null then InsertTurns(PlaceOf(old(shape), elm.key, Top).ctx) else 0
    {
      var parent, comp;
      ghost var c;
      found, parent, comp, c, steps := Search(elm.key);
      turns := 0;
      if found != null {
        return;
      }
      Attach(elm, parent, comp, c);
      GraftPending(c, elm);
      ghost var t := Fork(Leaf, elm, Red, Leaf);
      ghost var r;
      r, turns := InsertColor(elm, c, t);
      shape := r;
    }

    /** RB_SET and the link from the parent. */
    method Attach(elm: Node, parent: Node?, comp: int, ghost c: Ctx)
      requires Is(Plug(c, Leaf)) && elm !in nodes && Fits(c, elm.key)
      requires parent == Above(c) && (c.Frame? ==> (comp < 0 <==> c.dir.Left?))
      modifies this`root, this`nodes, nodes, elm
      ensures nodes == old(nodes) + {elm}
      ensures Is(Plug(c, Fork(Leaf, elm, Red, Leaf)))
    {
      ghost var m, r := Snapshot(nodes), root;
      Peek(m, r, c, Leaf);
      elm.parent, elm.left, elm.right, elm.color := parent, null, null, Red;
      if parent != null {
        if comp < 0 {
          parent.left := elm;
        } else {
          parent.right := elm;
        }
      } else {
        root := elm;
      }
      nodes := nodes + {elm};
      GraftHolds(m, Snapshot(nodes), r, root, c, elm);
    }

    /** RB_FIND; `steps` counts the turns of its loop. */
    method Find(key: int) returns (n: Node?, ghost steps: nat)
      requires Valid()
      ensures n == null <==> Lacks(nodes, key)
      ensures n != null ==> n in nodes && n.key == key
      ensures steps == Comparisons(shape, key) <= Height(shape)
    {
      n, steps := root, 0;
      ghost var c, t := Top, shape;
      ComparisonsBound(shape, key);
      while n != null
        invariant Plug(c, t) == shape && n == Root(t) && Fits(c, key)
        invariant steps + Comparisons(t, key) == Comparisons(shape, key)
        decreases t
      {
        steps := steps + 1;
        Peek(Snapshot(nodes), root, c, t);
        var comp := Compare(key, n.key);
        if comp < 0 {
          n := n.left;
          c, t := Frame(Left, t.node, t.color, t.right, c), t.left;
        } else if comp > 0 {
          n := n.right;
          c, t := Frame(Right, t.node, t.color, t.left, c), t.right;
        } else {
          return;
        }
      }
      Focus(Snapshot(nodes), root, c, t);
      FitsLacks(c, {}, key);
    }

    /** The height of the tree is at most 2 lg(n + 1). */
    lemma Shallow()
      requires Valid()
      ensures Pow2(Height(shape)) <= (|nodes| + 1) * (|nodes| + 1)
    {
      HeightBound(shape);
      Count(shape);
      assert nodes == Snapshot(nodes).Keys;
    }

    /** So a search compares at most 2 lg(n + 1) keys. */
    lemma FindCost(key: int)
      requires Valid()
      ensures Pow2(Comparisons(shape, key)) <= (|nodes| + 1) * (|nodes| + 1)
    {
      Shallow();
      ComparisonsBound(shape, key);
      Pow2Mono(Comparisons(shape, key), Height(shape));
    }

    /** And every other loop has at most 4 lg(n + 1) turns. */
    lemma OperationCost(key: int)
      requires Valid()
      ensures Pow2(Height(shape)) <= (|nodes| + 1) * (|nodes| + 1)
      ensures var p := PlaceOf(shape, key, Top);
        && 2 * InsertTurns(p.ctx) <= Height(shape)
        && (p.tree.Fork? ==> RemoveSteps(p) <= 2 * Height(shape) && NextSteps(p) <= Height(shape))
    {
      Shallow();
      StepsBound(shape, key);
    }

    // ---------- removal ----------

    predicate BlackOrNull(n: Node?)
      reads n
    {
      n == null || n.color.Black?
    }

    /** What the removal fix-up reads around a short subtree. */
    lemma RemoveFamily(c: Ctx, t: Tree)
      requires Is(Plug(c, t)) && RemovePending(c, t) && c.Frame? && !IsRed(t)
      ensures c.sib.Fork? && c.node in nodes && c.sib.node in nodes
      ensures c.node.left == Root(t) <==> c.dir.Left?
      ensures Kid(c.node, Flip(c.dir)) == c.sib.node
      ensures c.node.parent == Above(c.up) && c.node.color == c.color
      ensures c.sib.node.color == c.sib.color
      ensures c.sib.node.left == Root(c.sib.left) && c.sib.node.right == Root(c.sib.right)
      ensures BlackOrNull(c.sib.node.left) == !IsRed(c.sib.left)
      ensures BlackOrNull(c.sib.node.right) == !IsRed(c.sib.right)
    {
      var m := Snapshot(nodes);
      SiblingPresent(c, t);
      Peek(m, root, c, t);
      var c' := Frame(Flip(c.dir), c.node, c.color, t, c.up);
      Peek(m, root, c', c.sib);
      Peek(m, root, Frame(Left, c.sib.node, c.sib.color, c.sib.right, c'), c.sib.left);
      Peek(m, root, Frame(Right, c.sib.node, c.sib.color, c.sib.left, c'), c.sib.right);
    }

    /** A red sibling is painted black and raised over the parent. */
    method RaiseRedSibling(d: Dir, parent: Node, tmp: Node, ghost c: Ctx, ghost t: Tree) returns (ghost c': Ctx)
      requires Is(Plug(c, t)) && RemovePending(c, t) && !IsRed(t)
      requires c.Frame? && c.dir == d && c.node == parent && IsRed(c.sib) && c.sib.node == tmp
      modifies this`root, nodes
      ensures Is(Plug(c', t)) && RemovePending(c', t)
      ensures c'.Frame? && c'.dir == d && c'.node == parent && c'.color.Red? && !IsRed(c'.sib)
      ensures InOrder(Plug(c', t)) == InOrder(Plug(c, t))
    {
      ghost var s, up := c.sib, c.up;
      RemoveFamily(c, t);
      SiblingPresent(c, t);
      PaintFar(tmp, Black, d, t, parent, Black, s, up);
      ghost var s' := s.(color := Black);
      Paint(parent, Red, up, Mk(d, t, parent, Black, s'));
      ghost var pt := Mk(d, t, parent, Red, s');
      var y := Rotate(d, parent, up, pt);
      SiblingRaised(d, t, parent, s, up);
      RotatedSame(d, pt);
      PlugSame(up, Mk(d, t, parent, Black, s), Rotated(d, pt));
      c' := Frame(d, parent, Red, Sub(s, d), Frame(d, tmp, Black, Sub(s, Flip(d)), up));
    }

    /** A sibling whose far child is black is rotated so that it becomes red. */
    method Straighten(d: Dir, parent: Node, tmp: Node, ghost c: Ctx, ghost t: Tree) returns (tmp': Node, ghost c': Ctx)
      requires Is(Plug(c, t)) && RemovePending(c, t) && !IsRed(t)
      requires c.Frame? && c.dir == d && c.node == parent && c.sib.Fork? && c.sib.node == tmp
      requires !IsRed(c.sib) && IsRed(Sub(c.sib, d)) && !IsRed(Sub(c.sib, Flip(d)))
      modifies this`root, nodes
      ensures Is(Plug(c', t)) && RemovePending(c', t)
      ensures c'.Frame? && c'.dir == d && c'.node == parent && c'.color == c.color && c'.up == c.up
      ensures c'.sib.Fork? && c'.sib.node == tmp' && !IsRed(c'.sib) && IsRed(Sub(c'.sib, Flip(d)))
      ensures InOrder(Plug(c', t)) == InOrder(Plug(c, t))
    {
      ghost var s, up, col := c.sib, c.up, c.color;
      ghost var n := Sub(s, d);
      ghost var side := Frame(Flip(d), parent, col, t, up);
      RemoveFamily(c, t);
      assert Plug(c, t) == Plug(side, s);
      var inner := Kid(tmp, d);
      Peek(Snapshot(nodes), root, Frame(d, tmp, Black, Sub(s, Flip(d)), side), n);
      if inner != null {
        Paint(inner, Black, Frame(d, tmp, Black, Sub(s, Flip(d)), side), n);
      }
      ghost var n' := n.(color := Black);
      Paint(tmp, Red, side, Mk(d, n', tmp, Black, Sub(s, Flip(d))));
      ghost var st := Mk(d, n', tmp, Red, Sub(s, Flip(d)));
      inner := Rotate(Flip(d), tmp, side, st);
      SiblingStraightened(d, t, parent, col, s, up);
      RotatedSame(Flip(d), st);
      PlugSame(side, s, Rotated(Flip(d), st));
      c' := Frame(d, parent, col, Rotated(Flip(d), st), up);
      assert Plug(c', t) == Plug(side, Rotated(Flip(d), st));
      Peek(Snapshot(nodes), root, c', t);
      tmp' := Kid(parent, Flip(d));
    }

    /** The sibling takes the parent's colour; the parent and the far nephew turn black. */
    method PaintFamily(d: Dir, parent: Node, tmp: Node, ghost col: Color, ghost t: Tree, ghost near: Tree, ghost far: Tree, ghost up: Ctx)
      requires Is(Plug(up, Mk(d, t, parent, col, Mk(d, near, tmp, Black, far)))) && far.Fork?
      modifies nodes`color
      ensures Is(Plug(up, Mk(d, t, parent, Black, Mk(d, near, tmp, col, far.(color := Black)))))
    {
      ghost var s := Mk(d, near, tmp, Black, far);
      PaintReady(Snapshot(nodes), root, d, t, parent, col, near, tmp, far, up);
      PaintFar(tmp, parent.color, d, t, parent, col, s, up);
      ghost var s' := Mk(d, near, tmp, col, far);
      Paint(parent, Black, up, Mk(d, t, parent, col, s'));
      PaintNephew(Kid(tmp, Flip(d)), d, parent, tmp, col, t, near, far, up);
    }

    method PaintNephew(n: Node?, d: Dir, ghost parent: Node, ghost tmp: Node, ghost col: Color, ghost t: Tree, ghost near: Tree, ghost far: Tree, ghost up: Ctx)
      requires Is(Plug(up, Mk(d, t, parent, Black, Mk(d, near, tmp, col, far)))) && far.Fork? && far.node == n
      modifies n`color
      ensures Is(Plug(up, Mk(d, t, parent, Black, Mk(d, near, tmp, col, far.(color := Black)))))
    {
      ghost var side := Frame(Flip(d), parent, Black, t, up);
      if n != null {
        PaintFar(n, Black, d, near, tmp, col, far, side);
      }
    }

    /** The last step: repaint, then raise the sibling over the parent. */
    method RaiseSibling(d: Dir, parent: Node, tmp: Node, ghost c: Ctx, ghost t: Tree) returns (ghost w: Tree)
      requires Is(Plug(c, t)) && RemovePending(c, t) && !IsRed(t)
      requires c.Frame? && c.dir == d && c.node == parent && c.sib.Fork? && c.sib.node == tmp
      requires !IsRed(c.sib) && IsRed(Sub(c.sib, Flip(d)))
      modifies this`root, nodes
      ensures Is(w) && RedBlack(w) && InOrder(w) == InOrder(Plug(c, t))
    {
      ghost var s, up, col := c.sib, c.up, c.color;
      ghost var near, far := Sub(s, d), Sub(s, Flip(d));
      PaintFamily(d, parent, tmp, col, t, near, far, up);
      ghost var s' := Mk(d, near, tmp, col, far.(color := Black));
      ghost var pt := Mk(d, t, parent, Black, s');
      var y := Rotate(d, parent, up, pt);
      SiblingRisen(d, t, parent, col, s, up);
      RotatedSame(d, pt);
      MkSame(d, near, near, tmp, Black, col, far, far.(color := Black));
      MkSame(d, t, t, parent, col, Black, s, s');
      PlugSame(up, Mk(d, t, parent, col, s), Rotated(d, pt));
      w := Plug(up, Rotated(d, pt));
    }

    /** A black sibling without red children turns red: the shortage moves up to the parent. */
    method ReddenSibling(d: Dir, parent: Node, tmp: Node, ghost c: Ctx, ghost t: Tree) returns (ghost t': Tree)
      requires Is(Plug(c, t)) && RemovePending(c, t) && !IsRed(t)
      requires c.Frame? && c.dir == d && c.node == parent && c.sib.Fork? && c.sib.node == tmp
      requires !IsRed(c.sib) && !IsRed(c.sib.left) && !IsRed(c.sib.right)
      modifies tmp`color
      ensures Is(Plug(c.up, t')) && RemovePending(c.up, t')
      ensures t'.Fork? && t'.node == parent && t'.color == c.color && parent.parent == Above(c.up)
      ensures InOrder(Plug(c.up, t')) == InOrder(Plug(c, t))
    {
      ghost var s, up, col := c.sib, c.up, c.color;
      PaintFar(tmp, Red, d, t, parent, col, s, up);
      SiblingReddened(d, t, parent, col, s, up);
      t' := Mk(d, t, parent, col, s.(color := Red));
      MkSame(d, t, t, parent, col, col, s, s.(color := Red));
      PlugSame(up, Mk(d, t, parent, col, s), t');
      Peek(Snapshot(nodes), root, up, t');
    }

    /** One turn of the loop of RB_REMOVE_COLOR; `done` is its `break`. */
    method RemoveTurn(elm0: Node?, parent0: Node, ghost c0: Ctx, ghost t0: Tree, ghost n: nat)
        returns (elm: Node?, parent: Node?, done: bool, ghost c: Ctx, ghost t: Tree)
      requires Is(Plug(c0, t0)) && RemovePending(c0, t0) && !IsRed(t0)
      requires c0.Frame? && c0.node == parent0 && elm0 == Root(t0) && RemoveDue(c0, false, n)
      modifies this`root, nodes
      ensures Is(Plug(c, t)) && RemovePending(c, t)
      ensures elm == Root(t) && parent == Above(c)
      ensures InOrder(Plug(c, t)) == InOrder(Plug(c0, t0))
      ensures done ==> c.Top?
      ensures !done ==> RemoveTrouble(c, t) < RemoveTrouble(c0, t0)
      ensures n > 0 && if done then n == 1 else RemoveDue(c, IsRed(t), n - 1)
    {
      assert RemoveTurns(c0, false) == n;
      elm, parent, c, t := elm0, parent0, c0, t0;
      RemoveFamily(c, t);
      var d := if parent.left == elm then Left else Right;
      var tmp := Kid(parent, Flip(d));
      if tmp == null {
        assert false;  // the source would spin here
      }
      if tmp.color.Red? {
        c := RaiseRedSibling(d, parent, tmp, c, t);
        RemoveFamily(c, t);
        tmp := Kid(parent, Flip(d));
      }
      if tmp == null {
        assert false;  // the source would spin here
      }
      if BlackOrNull(tmp.left) && BlackOrNull(tmp.right) {
        t := ReddenSibling(d, parent, tmp, c, t);
        c := c.up;
        elm := parent;
        parent := elm.parent;
        done := false;
      } else {
        if BlackOrNull(Kid(tmp, Flip(d))) {
          tmp, c := Straighten(d, parent, tmp, c, t);
        }
        t := RaiseSibling(d, parent, tmp, c, t);
        c := Top;
        RemoveFinished(t);
        elm := root;
        parent := null;
        done := true;
      }
    }

    /** RB_REMOVE_COLOR; `turns` counts those of its loop. */
    method RemoveColor(parent0: Node?, elm0: Node?, ghost c0: Ctx, ghost t0: Tree) returns (ghost r: Tree, ghost turns: nat)
      requires Is(Plug(c0, t0)) && RemovePending(c0, t0)
      requires elm0 == Root(t0) && parent0 == Above(c0)
      modifies this`root, nodes
      ensures Is(r) && RedBlack(r) && InOrder(r) == InOrder(Plug(c0, t0))
      ensures turns == RemoveTurns(c0, IsRed(t0))
    {
      turns := 0;
      ghost var n := RemoveTurns(c0, IsRed(t0));
      var elm, parent := elm0, parent0;
      ghost var c, t := c0, t0;
      var done := false;
      RemoveLook(c, t);
      while (elm == null || elm.color.Black?) && elm != root
        invariant Is(Plug(c, t)) && RemovePending(c, t) && elm == Root(t) && parent == Above(c)
        invariant elm != null ==> elm in nodes && elm.color == t.color
        invariant elm == root <==> c.Top?
        invariant InOrder(Plug(c, t)) == InOrder(Plug(c0, t0))
        invariant RemoveDue(c, IsRed(t), n) && turns + n == RemoveTurns(c0, IsRed(t0))
        decreases RemoveTrouble(c, t)
      {
        elm, parent, done, c, t := RemoveTurn(elm, parent, c, t, n);
        turns, n := turns + 1, n - 1;
        RemoveLook(c, t);
        if done {
          break;
        }
      }
      if !done {
        RemoveNoneDue(c, IsRed(t), n);
      }
      if elm != null {
        Paint(elm, Black, c, t);
      }
      RemoveDone(c, t);
      PlugSame(c, t, Blacken(t));
      r := Plug(c, Blacken(t));
    }

    lemma RemoveLook(c: Ctx, t: Tree)
      requires Is(Plug(c, t))
      ensures t.Fork? ==> t.node in nodes && t.node.color == t.color
      ensures Root(t) == root <==> c.Top?
    {
      Peek(Snapshot(nodes), root, c, t);
      Focus(Snapshot(nodes), root, c, t);
      if c.Frame? {
        PlugRoot(c, t);
      }
    }

    /** The pointer writes that link `child` to the parent of `elm` in its place. */
    method SplicePointers(elm: Node, child: Node?, parent: Node?)
      requires elm in nodes && parent == elm.parent
      requires child != null ==> child in nodes && child != elm && child != parent
      requires parent != null ==> parent in nodes && parent != elm
      modifies this`root, this`nodes, nodes - {elm}
      ensures nodes == old(nodes) - {elm}
      ensures SpliceWrites(old(Snapshot(nodes)), Snapshot(nodes), elm, child, parent, old(SideIn(elm)))
      ensures root == if parent == null then child else old(root)
    {
      if child != null {
        child.parent := parent;
      }
      if parent != null {
        SwapKid(parent, elm, child);
      } else {
        root := child;
      }
      nodes := nodes - {elm};
    }

    /** Takes out an element with at most one child. */
    method Splice(elm: Node, child: Node?, ghost c: Ctx, ghost t: Tree) returns (parent: Node?, color: Color)
      requires Is(Plug(c, t)) && t.Fork? && t.node == elm
      requires (t.left.Leaf? || t.right.Leaf?) && child == Root(Only(t))
      modifies this`root, this`nodes, nodes - {elm}
      ensures nodes == old(nodes) - {elm}
      ensures Is(Plug(c, Only(t)))
      ensures parent == Above(c) && color == t.color
    {
      ghost var m, r := Snapshot(nodes), root;
      SpliceReady(m, r, c, t);
      parent := elm.parent;
      color := elm.color;
      SplicePointers(elm, child, parent);
      SpliceHolds(m, Snapshot(nodes), r, root, c, t);
    }

    /** The pointer writes that put `elm` in the place of `gone`. */
    method ReplacePointers(gone: Node, elm: Node)
      requires gone in nodes && elm !in nodes && gone.left != null
      requires
        var l, r, p := gone.left, gone.right, gone.parent;
        && l in nodes && l != gone && l != r && l != p
        && (r != null ==> r in nodes && r != gone && r != p)
        && (p != null ==> p in nodes && p != gone)
      modifies this`root, this`nodes, nodes, elm
      ensures nodes == old(nodes) - {gone} + {elm}
      ensures ReplaceWrites(old(Snapshot(nodes)), Snapshot(nodes), gone, elm, old(gone.left), old(gone.right), old(gone.parent), old(SideIn(gone)))
      ensures root == if old(gone.parent) == null then elm else old(root)
    {
      elm.left, elm.right, elm.parent, elm.color := gone.left, gone.right, gone.parent, gone.color;
      if gone.parent != null {
        SwapKid(gone.parent, gone, elm);
      } else {
        root := elm;
      }
      gone.left.parent := elm;
      if gone.right != null {
        gone.right.parent := elm;
      }
      nodes := nodes - {gone} + {elm};
    }

    /** `elm` takes over the place of `gone`. */
    method Replace(gone: Node, elm: Node, ghost c: Ctx, ghost t: Tree)
      requires Is(Plug(c, t)) && t.Fork? && t.node == gone && elm !in nodes && t.left.Fork?
      requires Ordered(t.(node := elm)) && CtxOrdered(c, Elems(t.(node := elm)))
      modifies this`root, this`nodes, nodes, elm
      ensures nodes == old(nodes) - {gone} + {elm}
      ensures Is(Plug(c, t.(node := elm)))
    {
      ghost var m, r := Snapshot(nodes), root;
      ReplaceReady(m, r, c, t);
      ReplacePointers(gone, elm);
      ReplaceHolds(m, Snapshot(nodes), r, root, c, t, elm);
    }

    /** The first element of the right subtree; `steps` counts the turns of the walk to it. */
    method Successor(gone: Node, ghost c: Ctx, ghost t: Tree) returns (elm: Node, ghost inner: Ctx, ghost s: Tree, ghost steps: nat)
      requires Is(Plug(c, t)) && t.Fork? && t.node == gone && t.right.Fork?
      ensures Plug(inner, s) == t.right && Leftmost(inner)
      ensures s.Fork? && s.node == elm && s.left.Leaf? && elm in nodes
      ensures Place(inner, s) == First(t.right, Top) && steps == Depth(inner)
    {
      steps := 0;
      Peek(Snapshot(nodes), root, c, t);
      ghost var f := Frame(Right, gone, t.color, t.left, c);
      elm, inner, s := gone.right, Top, t.right;
      Peek(Snapshot(nodes), root, f, s);
      while elm.left != null
        invariant Plug(inner, s) == t.right && Leftmost(inner) && s.Fork? && s.node == elm
        invariant elm in nodes && elm.left == Root(s.left)
        invariant First(s, inner) == First(t.right, Top) && steps == Depth(inner)
        decreases s
      {
        steps := steps + 1;
        inner, s := Frame(Left, s.node, s.color, s.right, inner), s.left;
        elm := elm.left;
        PlugAppend(inner, f, s);
        Peek(Snapshot(nodes), root, Append(inner, f), s);
      }
    }

    /** The successor `elm` leaves its place, in context `from`, and takes that of `gone`. */
    method MoveSuccessor(gone: Node, elm: Node, ghost c: Ctx, ghost from: Ctx, ghost s: Tree, ghost mid: Tree)
        returns (child: Node?, parent: Node?, color: Color)
      requires Is(Plug(from, s)) && s.Fork? && s.node == elm && s.left.Leaf?
      requires elm in nodes && elm.right == Root(s.right) && gone in nodes && elm != gone
      requires mid.Fork? && mid.node == gone && mid.left.Fork? && Plug(from, s.right) == Plug(c, mid)
      requires Ordered(mid.(node := elm)) && CtxOrdered(c, Elems(mid.(node := elm)))
      modifies this`root, this`nodes, nodes
      ensures nodes == old(nodes) - {gone}
      ensures Is(Plug(c, mid.(node := elm)))
      ensures child == Root(s.right) && color == s.color
      ensures parent == if Above(from) == gone then elm else Above(from)
    {
      SwapOut(nodes, elm, gone);
      child := elm.right;
      parent, color := Splice(elm, child, from, s);
      if parent == gone {
        parent := elm;
      }
      Replace(gone, elm, c, mid);
    }

    /** The two-child case of RB_REMOVE. */
    method TakeSuccessor(gone: Node, ghost c: Ctx, ghost t: Tree)
        returns (child: Node?, parent: Node?, color: Color, ghost c': Ctx, ghost t': Tree, ghost steps: nat)
      requires Is(Plug(c, t)) && RedBlack(Plug(c, t))
      requires t.Fork? && t.node == gone && t.left.Fork? && t.right.Fork?
      modifies this`root, this`nodes, nodes
      ensures nodes == old(nodes) - {gone}
      ensures Is(Plug(c', t')) && child == Root(t') && parent == Above(c')
      ensures color.Black? ==> RemovePending(c', t')
      ensures color.Red? ==> RedBlack(Plug(c', t'))
      ensures Place(c', t') == Gap(Place(c, t)) && color == Cut(t).color && steps == Walk(t)
    {
      var elm;
      ghost var inner, s;
      elm, inner, s, steps := Successor(gone, c, t);
      SuccessorPlan(Snapshot(nodes), root, c, t, inner, s);
      ghost var f := Frame(Right, gone, t.color, t.left, c);
      ghost var mid := Fork(t.left, gone, t.color, Plug(inner, s.right));
      c', t' := Append(inner, f.(node := elm)), s.right;
      child, parent, color := MoveSuccessor(gone, elm, c, Append(inner, f), s, mid);
    }

    /** Takes `elm` out of the search tree, before any repair of the colours. */
    method TakeOut(elm: Node) returns (child: Node?, parent: Node?, color: Color, ghost c: Ctx, ghost t: Tree, ghost steps: nat)
      requires Valid() && elm in nodes
      modifies this`root, this`nodes, nodes
      ensures nodes == old(nodes) - {elm}
      ensures Is(Plug(c, t)) && child == Root(t) && parent == Above(c)
      ensures color.Black? ==> RemovePending(c, t)
      ensures color.Red? ==> RedBlack(Plug(c, t))
      ensures var p := PlaceOf(old(shape), elm.key, Top);
        p.tree.Fork? && Place(c, t) == Gap(p) && color == Cut(p.tree).color && steps == Walk(p.tree)
    {
      PlaceFound(shape, elm, Top);
      c, t := PlaceOf(shape, elm.key, Top).ctx, PlaceOf(shape, elm.key, Top).tree;
      steps := 0;
      Peek(Snapshot(nodes), root, c, t);
      if elm.left != null && elm.right != null {
        child, parent, color, c, t, steps := TakeSuccessor(elm, c, t);
      } else {
        child := if elm.left == null then elm.right else elm.left;
        SplicePending(c, t);
        parent, color := Splice(elm, child, c, t);
        t := Only(t);
      }
    }

    /** RB_REMOVE; `steps` counts the turns of the walk to the successor and of the fix-up. */
    method Remove(elm: Node) returns (gone: Node, ghost steps: nat)
      requires Valid() && elm in nodes
      modifies this, nodes
      ensures Valid() && gone == elm
      ensures nodes == old(nodes) - {elm}
      ensures var p := PlaceOf(old(shape), elm.key, Top);
        p.tree.Fork? && steps == RemoveSteps(p)
    {
      gone := elm;
      var child, parent, color;
      ghost var c, t, turns;
      child, parent, color, c, t, steps := TakeOut(elm);
      if color.Black? {
        ghost var r;
        r, turns := RemoveColor(parent, child, c, t);
        shape, steps := r, steps + turns;
      } else {
        shape := Plug(c, t);
      }
    }

    // ---------- walking ----------

    /** The elements in the order of a walk. */
    ghost function Order(): seq<Node>
      reads this
    {
      InOrder(shape)
    }

    /** RB_NEXT; `steps` counts the turns of its loops. */
    method Next(elm: Node) returns (next: Node?, ghost steps: nat)
      requires Valid() && elm in nodes
      ensures PlaceOf(shape, elm.key, Top).tree.Fork? && steps == NextSteps(PlaceOf(shape, elm.key, Top))
      ensures Follows(Order(), elm, next)
      ensures next != null ==> next in nodes
    {
      PlaceFound(shape, elm, Top);
      ghost var c, t := PlaceOf(shape, elm.key, Top).ctx, PlaceOf(shape, elm.key, Top).tree;
      Peek(Snapshot(nodes), root, c, t);
      if elm.right != null {
        ghost var inner, s;
        next, inner, s, steps := Successor(elm, c, t);
        NextBelow(c, t, inner, s);
      } else {
        ghost var pre := Before(c) + InOrder(t.left);
        next, steps := elm, 0;
        ghost var climb := Climb(c);
        UpToRoot(c, t);
        while next.parent != null && next == next.parent.right
          invariant next != null && next in nodes
          invariant Plug(c, t) == shape && t.Fork? && t.node == next
          invariant next.parent == Above(c) && (c.Frame? ==> c.node in nodes && (next == c.node.right <==> c.dir.Right?))
          invariant UpTo(c, t) == pre + [elm] && steps + Climb(c) == climb
          decreases Depth(c)
        {
          steps := steps + 1;
          UpToClimb(c, t);
          next := next.parent;
          c, t := c.up, Fork(c.sib, c.node, c.color, t);
          Peek(Snapshot(nodes), root, c, t);
        }
        NextAbove(shape, c, t, pre, elm);
        next := next.parent;
      }
    }

    /** RB_MINMAX: the first element for a negative `val`, the last one otherwise. */
    method MinMax(val: int) returns (parent: Node?, ghost steps: nat)
      requires Valid()
      ensures steps == Edge(if val < 0 then Left else Right, shape) <= Height(shape)
      ensures parent == null <==> Order() == []
      ensures parent != null ==> parent in nodes
      ensures parent != null && val < 0 ==> parent == Order()[0]
      ensures parent != null && val >= 0 ==> parent == Order()[|Order()| - 1]
    {
      parent, steps := null, 0;
      var tmp := root;
      ghost var c, t := Top, shape;
      ghost var d := if val < 0 then Left else Right;
      EdgeBound(d, shape);
      while tmp != null
        invariant steps + Edge(d, t) == Edge(d, shape)
        invariant Plug(c, t) == shape && tmp == Root(t) && parent == Above(c)
        invariant if val < 0 then Before(c) == [] && (c.Frame? ==> c.dir.Left?) else After(c) == [] && (c.Frame? ==> c.dir.Right?)
        decreases t
      {
        steps := steps + 1;
        Peek(Snapshot(nodes), root, c, t);
        parent := tmp;
        if val < 0 {
          tmp := tmp.left;
          c, t := Frame(Left, t.node, t.color, t.right, c), t.left;
        } else {
          tmp := tmp.right;
          c, t := Frame(Right, t.node, t.color, t.left, c), t.right;
        }
      }
      PlugOrder(c, t);
      Peek(Snapshot(nodes), root, c, t);
    }

    lemma OrderFacts()
      requires Valid()
      ensures Ascending(Order()) && |Order()| == |nodes|
      ensures forall i :: 0 <= i < |Order()| ==> Order()[i] in nodes
    {
      OrderedAscending(shape);
      InOrderElems(shape);
      Count(shape);
      assert nodes == Snapshot(nodes).Keys;
    }

    /** RB_FOREACH: the elements visited, in order of visit. */
    method ForEach() returns (visited: seq<Node>)
      requires Valid()
      ensures visited == Order() && Ascending(visited)
      ensures forall i :: 0 <= i < |visited| ==> visited[i] in nodes
      ensures |visited| == |nodes|
    {
      visited := [];
      OrderFacts();
      ghost var o := Order();
      var x, _ := MinMax(-1);
      while x != null
        invariant |visited| <= |o| && visited == o[..|visited|]
        invariant x == if |visited| < |o| then o[|visited|] else null
        invariant x != null ==> x in nodes
        decreases |o| - |visited|
      {
        var elm := x;
        ghost var steps;
        x, steps := Next(elm);
        FollowsUse(o, |visited|, elm, x);
        visited := visited + [elm];
      }
    }

    constructor ()
      ensures Valid() && nodes == {}
    {
      root, nodes, shape := null, {}, Leaf;
    }
  }

  // ---------- whole runs ----------

  ghost function KeysOf(ns: set<Node>): set<int> {
    set n | n in ns :: n.key
  }

  lemma KeysLack(ns: set<Node>, key: int)
    ensures Lacks(ns, key) <==> key !in KeysOf(ns)
  {
  }

  lemma KeysGrow(ns: set<Node>, n: Node)
    ensures KeysOf(ns + {n}) == KeysOf(ns) + {n.key}
  {
    forall k | k in KeysOf(ns) + {n.key} ensures k in KeysOf(ns + {n}) {
      if k == n.key {
        assert n in ns + {n};
      } else {
        var m :| m in ns && m.key == k;
        assert m in ns + {n};
      }
    }
  }

  lemma KeysShrink(t: Tree, n: Node)
    requires Ordered(t) && n in Elems(t)
    ensures KeysOf(Elems(t) - {n}) == KeysOf(Elems(t)) - {n.key}
  {
    forall k | k in KeysOf(Elems(t) - {n}) ensures k != n.key {
      var m :| m in Elems(t) - {n} && m.key == k;
      KeysDiffer(t, m, n);
    }
    forall k | k in KeysOf(Elems(t)) - {n.key} ensures k in KeysOf(Elems(t) - {n}) {
      var m :| m in Elems(t) && m.key == k;
      assert m in Elems(t) - {n};
    }
  }

  lemma {:induction false} KeysDiffer(t: Tree, a: Node, b: Node)
    requires Ordered(t) && a in Elems(t) && b in Elems(t) && a != b
    ensures a.key != b.key
  {
    if a in Elems(t.left) && b in Elems(t.left) {
      KeysDiffer(t.left, a, b);
    } else if a in Elems(t.right) && b in Elems(t.right) {
      KeysDiffer(t.right, a, b);
    }
  }

  method InsertKey(tree: RbTree, key: int) returns (was: bool)
    requires tree.Valid()
    modifies tree, tree.nodes
    ensures tree.Valid() && fresh(tree.nodes - old(tree.nodes))
    ensures was <==> key in old(KeysOf(tree.nodes))
    ensures KeysOf(tree.nodes) == old(KeysOf(tree.nodes)) + {key}
  {
    ghost var ns := tree.nodes;
    KeysLack(ns, key);
    var n := new Node(key, 0);
    KeysGrow(ns, n);
    var found, _, _ := tree.Insert(n);
    was := found != null;
  }

  method RemoveKey(tree: RbTree, key: int) returns (was: bool)
    requires tree.Valid()
    modifies tree, tree.nodes
    ensures tree.Valid() && tree.nodes <= old(tree.nodes)
    ensures was <==> key in old(KeysOf(tree.nodes))
    ensures KeysOf(tree.nodes) == old(KeysOf(tree.nodes)) - {key}
  {
    KeysLack(tree.nodes, key);
    var n, _ := tree.Find(key);
    was := n != null;
    if n != null {
      assert tree.nodes == Snapshot(tree.nodes).Keys;
      KeysShrink(tree.shape, n);
      var _, _ := tree.Remove(n);
    }
  }

  /** One client call on the tree; `was` tells whether the key was there before. */
  method Apply(tree: RbTree, op: Op) returns (was: bool)
    requires tree.Valid()
    modifies tree, tree.nodes
    ensures tree.Valid() && fresh(tree.nodes - old(tree.nodes))
    ensures was <==> op.key in old(KeysOf(tree.nodes))
    ensures KeysOf(tree.nodes) == SetAfter(old(KeysOf(tree.nodes)), op)
  {
    match op {
      case InsertOp(k) =>
        was := InsertKey(tree, k);
      case RemoveOp(k) =>
        was := RemoveKey(tree, k);
      case FindOp(k) =>
        KeysLack(tree.nodes, k);
        var n, _ := tree.Find(k);
        was := n != null;
    }
  }

  /** Over any run the tree answers like the plain set, and stays shallow. */
  method Run(tree: RbTree, ops: seq<Op>) returns (answers: seq<bool>)
    requires tree.Valid()
    modifies tree, tree.nodes
    ensures tree.Valid() && fresh(tree.nodes - old(tree.nodes))
    ensures answers == SetAnswers(old(KeysOf(tree.nodes)), ops)
    ensures KeysOf(tree.nodes) == SetRun(old(KeysOf(tree.nodes)), ops)
    decreases |ops|
  {
    if ops == [] {
      answers := [];
    } else {
      var was := Apply(tree, ops[0]);
      var rest := Run(tree, ops[1..]);
      answers := [was] + rest;
    }
  }
}
