/** How long the loops of the red-black tree operations run: each as a function of the tree,
    and bounded by its height. */
module RedBlackCost {
  import opened Sides
  import opened RedBlackShape

  /** A place in a tree: the way to it, and what is there. */
  datatype Place = Place(ctx: Ctx, tree: Tree)

  /** Where a search for the key ends. */
  function PlaceOf(t: Tree, key: int, c: Ctx): Place {
    if t.Leaf? || key == t.node.key then Place(c, t)
    else if key < t.node.key then PlaceOf(t.left, key, Frame(Left, t.node, t.color, t.right, c))
    else PlaceOf(t.right, key, Frame(Right, t.node, t.color, t.left, c))
  }

  lemma {:induction false} PlaceFound(w: Tree, n: Node, c: Ctx)
    requires Ordered(w) && n in Elems(w)
    ensures var p := PlaceOf(w, n.key, c);
      Plug(p.ctx, p.tree) == Plug(c, w) && p.tree.Fork? && p.tree.node == n
  {
    if n in Elems(w.left) {
      PlaceFound(w.left, n, Frame(Left, w.node, w.color, w.right, c));
    } else if n in Elems(w.right) {
      PlaceFound(w.right, n, Frame(Right, w.node, w.color, w.left, c));
    }
  }

  lemma {:induction false} PlaceDepth(t: Tree, key: int, c: Ctx)
    ensures var p := PlaceOf(t, key, c);
      Depth(p.ctx) + Height(p.tree) <= Depth(c) + Height(t)
  {
    if t.Fork? && key < t.node.key {
      PlaceDepth(t.left, key, Frame(Left, t.node, t.color, t.right, c));
    } else if t.Fork? && key > t.node.key {
      PlaceDepth(t.right, key, Frame(Right, t.node, t.color, t.left, c));
    }
  }

  // ---------- insertion ----------

  /** The turns of the fix-up for a red element below `c`: a red uncle sends it two levels up,
      and a black one ends it. */
  function InsertTurns(c: Ctx): nat {
    if c.Top? || c.color.Black? || c.up.Top? then 0
    else if IsRed(c.up.sib) then 1 + InsertTurns(c.up.up)
    else 1
  }

  lemma {:induction false} InsertTurnsBound(c: Ctx)
    ensures 2 * InsertTurns(c) <= Depth(c)
  {
    if c.Frame? && c.up.Frame? {
      InsertTurnsBound(c.up.up);
    }
  }

  // ---------- removal ----------

  /** The first element of a subtree. */
  function First(t: Tree, c: Ctx): (p: Place)
    requires t.Fork?
    ensures p.tree.Fork?
  {
    if t.left.Leaf? then Place(c, t) else First(t.left, Frame(Left, t.node, t.color, t.right, c))
  }

  lemma {:induction false} FirstDepth(t: Tree, c: Ctx)
    requires t.Fork?
    ensures Depth(First(t, c).ctx) + Height(First(t, c).tree) <= Depth(c) + Height(t)
  {
    if t.left.Fork? {
      FirstDepth(t.left, Frame(Left, t.node, t.color, t.right, c));
    }
  }

  predicate TwoKids(t: Tree) {
    t.Fork? && t.left.Fork? && t.right.Fork?
  }

  /** How far below an element its successor is. */
  function Walk(t: Tree): nat {
    if TwoKids(t) then Depth(First(t.right, Top).ctx) else 0
  }

  /** The element that is cut out of its place for the root of `t`, seen from that root. */
  function Cut(t: Tree): (s: Tree)
    requires t.Fork?
    ensures s.Fork?
  {
    if TwoKids(t) then First(t.right, Top).tree else t
  }

  /** What is left where that element was. */
  function Gap(p: Place): Place
    requires p.tree.Fork?
  {
    var t := p.tree;
    if TwoKids(t) then
      var s := First(t.right, Top);
      Place(Append(s.ctx, Frame(Right, s.tree.node, t.color, t.left, p.ctx)), s.tree.right)
    else Place(p.ctx, Only(t))
  }

  /** The turns of the fix-up for a subtree below `c` that is one black element short: it goes
      up as long as the element there, the sibling and the nephews are black. */
  function RemoveTurns(c: Ctx, red: bool): nat {
    if red || c.Top? then 0
    else if c.sib.Fork? && !IsRed(c.sib) && !IsRed(c.sib.left) && !IsRed(c.sib.right) then 1 + RemoveTurns(c.up, c.color.Red?)
    else 1
  }

  lemma {:induction false} RemoveTurnsBound(c: Ctx, red: bool)
    ensures RemoveTurns(c, red) <= Depth(c)
  {
    if c.Frame? {
      RemoveTurnsBound(c.up, c.color.Red?);
    }
  }

  /** There are `n` turns to come. */
  ghost predicate InsertDue(c: Ctx, n: nat) {
    forall x: Ctx :: x == c ==> InsertTurns(x) == n
  }

  ghost predicate RemoveDue(c: Ctx, red: bool, n: nat) {
    forall x: Ctx :: x == c ==> RemoveTurns(x, red) == n
  }

  lemma InsertNoneDue(c: Ctx, n: nat)
    requires InsertDue(c, n) && (c.Top? || c.color.Black?)
    ensures n == 0
  {
    assert InsertTurns(c) == n;
  }

  lemma RemoveNoneDue(c: Ctx, red: bool, n: nat)
    requires RemoveDue(c, red, n) && (red || c.Top?)
    ensures n == 0
  {
    assert RemoveTurns(c, red) == n;
  }

  /** The turns of the walk to the successor and of the fix-up. */
  function RemoveSteps(p: Place): nat
    requires p.tree.Fork?
  {
    Walk(p.tree) + if Cut(p.tree).color.Black? then RemoveTurns(Gap(p).ctx, IsRed(Gap(p).tree)) else 0
  }

  lemma {:induction false} AppendDepth(inner: Ctx, outer: Ctx)
    ensures Depth(Append(inner, outer)) == Depth(inner) + Depth(outer)
  {
    if inner.Frame? {
      AppendDepth(inner.up, outer);
    }
  }

  lemma RemoveStepsBound(p: Place)
    requires p.tree.Fork?
    ensures RemoveSteps(p) <= 2 * (Depth(p.ctx) + Height(p.tree))
  {
    var t, g := p.tree, Gap(p);
    RemoveTurnsBound(g.ctx, IsRed(g.tree));
    if TwoKids(t) {
      var s := First(t.right, Top);
      FirstDepth(t.right, Top);
      AppendDepth(s.ctx, Frame(Right, s.tree.node, t.color, t.left, p.ctx));
    }
  }

  // ---------- walking ----------

  /** The elements on one edge of a tree. */
  function Edge(d: Dir, t: Tree): nat {
    if t.Leaf? then 0 else 1 + Edge(d, Sub(t, d))
  }

  lemma {:induction false} EdgeBound(d: Dir, t: Tree)
    ensures Edge(d, t) <= Height(t)
  {
    if t.Fork? {
      EdgeBound(d, Sub(t, d));
    }
  }

  /** The levels up to the first element of which this is in the left part. */
  function Climb(c: Ctx): nat {
    if c.Top? || c.dir.Left? then 0 else 1 + Climb(c.up)
  }

  lemma {:induction false} ClimbBound(c: Ctx)
    ensures Climb(c) <= Depth(c)
  {
    if c.Frame? {
      ClimbBound(c.up);
    }
  }

  /** The turns of RB_NEXT. */
  function NextSteps(p: Place): nat
    requires p.tree.Fork?
  {
    if p.tree.right.Fork? then Depth(First(p.tree.right, Top).ctx) else Climb(p.ctx)
  }

  /** All loops, in terms of the height. */
  lemma StepsBound(w: Tree, key: int)
    ensures var p := PlaceOf(w, key, Top);
      && 2 * InsertTurns(p.ctx) <= Height(w)
      && (p.tree.Fork? ==> RemoveSteps(p) <= 2 * Height(w) && NextSteps(p) <= Height(w))
  {
    var p := PlaceOf(w, key, Top);
    PlaceDepth(w, key, Top);
    InsertTurnsBound(p.ctx);
    if p.tree.Fork? {
      RemoveStepsBound(p);
      ClimbBound(p.ctx);
      if p.tree.right.Fork? {
        FirstDepth(p.tree.right, Top);
      }
    }
  }
}
