/** The shape of a red-black tree: what the pointers of `lib/tree.h` describe. */
module RedBlackShape {
  import opened Sides
  import opened Powers

  datatype Color = Red | Black

  /** One tree element: a key, a payload, and the RB_ENTRY link fields. */
  class Node {
    const key: int
    const payload: int
    var left: Node?
    var right: Node?
    var parent: Node?
    var color: Color

    constructor (key: int, payload: int)
      ensures this.key == key && this.payload == payload
    {
      this.key, this.payload := key, payload;
      left, right, parent, color := null, null, null, Black;
    }
  }

  datatype Tree = Leaf | Fork(left: Tree, node: Node, color: Color, right: Tree)

  /** The way from a subtree up to the root: the subtree hangs on side `dir` of `node`. */
  datatype Ctx = Top | Frame(dir: Dir, node: Node, color: Color, sib: Tree, up: Ctx)

  function Mk(d: Dir, near: Tree, n: Node, c: Color, far: Tree): Tree {
    if d.Left? then Fork(near, n, c, far) else Fork(far, n, c, near)
  }

  function Sub(t: Tree, d: Dir): Tree
    requires t.Fork?
  {
    if d.Left? then t.left else t.right
  }

  function Root(t: Tree): Node? {
    if t.Leaf? then null else t.node
  }

  function Above(c: Ctx): Node? {
    if c.Top? then null else c.node
  }

  function SideOf(c: Ctx): Dir {
    if c.Top? then Left else c.dir
  }

  function Plug(c: Ctx, t: Tree): Tree {
    match c
    case Top => t
    case Frame(d, n, col, sib, up) => Plug(up, Mk(d, t, n, col, sib))
  }

  function Depth(c: Ctx): nat {
    if c.Top? then 0 else 1 + Depth(c.up)
  }

  // ---------- contents ----------

  function InOrder(t: Tree): seq<Node> {
    match t
    case Leaf => []
    case Fork(l, n, _, r) => InOrder(l) + [n] + InOrder(r)
  }

  /** Elements before, and after, the hole of a context. */
  function Before(c: Ctx): seq<Node> {
    match c
    case Top => []
    case Frame(d, n, _, sib, up) =>
      if d.Left? then Before(up) else Before(up) + InOrder(sib) + [n]
  }

  function After(c: Ctx): seq<Node> {
    match c
    case Top => []
    case Frame(d, n, _, sib, up) =>
      if d.Left? then [n] + InOrder(sib) + After(up) else After(up)
  }

  lemma {:induction false} PlugOrder(c: Ctx, t: Tree)
    ensures InOrder(Plug(c, t)) == Before(c) + InOrder(t) + After(c)
  {
    match c
    case Top =>
      assert Before(c) + InOrder(t) + After(c) == InOrder(t);
    case Frame(d, n, col, sib, up) =>
      PlugOrder(up, Mk(d, t, n, col, sib));
      if d.Left? {
        Regroup(Before(up), InOrder(t), [n], InOrder(sib), After(up));
      } else {
        Regroup(Before(up), InOrder(sib), [n], InOrder(t), After(up));
      }
  }

  function Elems(t: Tree): set<Node> {
    match t
    case Leaf => {}
    case Fork(l, n, _, r) => Elems(l) + {n} + Elems(r)
  }

  function CtxElems(c: Ctx): set<Node> {
    match c
    case Top => {}
    case Frame(_, n, _, sib, up) => {n} + Elems(sib) + CtxElems(up)
  }

  lemma {:induction false} InOrderElems(t: Tree)
    ensures forall i :: 0 <= i < |InOrder(t)| ==> InOrder(t)[i] in Elems(t)
  {
    match t
    case Leaf =>
    case Fork(l, _, _, r) =>
      InOrderElems(l);
      InOrderElems(r);
  }

  lemma {:induction false} ElemsInOrder(t: Tree, n: Node)
    requires n in Elems(t)
    ensures n in InOrder(t)
  {
    if n in Elems(t.left) {
      ElemsInOrder(t.left, n);
    } else if n in Elems(t.right) {
      ElemsInOrder(t.right, n);
    }
  }

  lemma {:induction false} PlugElems(c: Ctx, t: Tree)
    ensures Elems(Plug(c, t)) == CtxElems(c) + Elems(t)
  {
    match c
    case Top =>
    case Frame(d, n, col, sib, up) =>
      PlugElems(up, Mk(d, t, n, col, sib));
  }

  // ---------- search order ----------

  ghost predicate Side(d: Dir, s: set<Node>, n: Node) {
    forall m :: m in s ==> if d.Left? then m.key < n.key else n.key < m.key
  }

  ghost predicate Ordered(t: Tree) {
    match t
    case Leaf => true
    case Fork(l, n, _, r) =>
      Ordered(l) && Ordered(r) && Side(Left, Elems(l), n) && Side(Right, Elems(r), n)
  }

  /** `s`, the elements of the subtree in the hole, fit the context's search order. */
  ghost predicate CtxOrdered(c: Ctx, s: set<Node>) {
    match c
    case Top => true
    case Frame(d, n, _, sib, up) =>
      Ordered(sib) && Side(d, s, n) && Side(Flip(d), Elems(sib), n)
      && CtxOrdered(up, s + {n} + Elems(sib))
  }

  lemma OrderedMk(d: Dir, near: Tree, n: Node, c: Color, far: Tree)
    ensures Elems(Mk(d, near, n, c, far)) == Elems(near) + {n} + Elems(far)
    ensures Ordered(Mk(d, near, n, c, far))
       <==> Ordered(near) && Ordered(far) && Side(d, Elems(near), n) && Side(Flip(d), Elems(far), n)
  {
  }

  lemma {:induction false} PlugOrdered(c: Ctx, t: Tree)
    ensures Ordered(Plug(c, t)) <==> Ordered(t) && CtxOrdered(c, Elems(t))
  {
    match c
    case Top =>
    case Frame(d, n, col, sib, up) =>
      PlugOrdered(up, Mk(d, t, n, col, sib));
      assert Elems(Mk(d, t, n, col, sib)) == Elems(t) + {n} + Elems(sib);
  }

  /** The elements in the hole and those of each part of the top frame are all different. */
  ghost predicate Apart(c: Ctx, s: set<Node>) {
    && s !! CtxElems(c)
    && (c.Frame? ==> c.node !in Elems(c.sib) && c.node !in CtxElems(c.up) && Elems(c.sib) !! CtxElems(c.up))
  }

  lemma {:induction false} CtxApart(c: Ctx, s: set<Node>)
    requires CtxOrdered(c, s)
    ensures Apart(c, s)
  {
    match c
    case Top =>
    case Frame(d, n, _, sib, up) =>
      CtxApart(up, s + {n} + Elems(sib));
  }

  ghost predicate Ascending(s: seq<Node>) {
    forall i, j :: 0 <= i < j < |s| ==> s[i].key < s[j].key
  }

  lemma {:induction false} OrderedAscending(t: Tree)
    requires Ordered(t)
    ensures Ascending(InOrder(t))
  {
    match t
    case Leaf =>
    case Fork(l, n, _, r) =>
      OrderedAscending(l);
      OrderedAscending(r);
      InOrderElems(l);
      InOrderElems(r);
      var a, b := InOrder(l), InOrder(r);
      forall i, j | 0 <= i < j < |a + [n] + b|
        ensures (a + [n] + b)[i].key < (a + [n] + b)[j].key
      {
        assert i < |a| ==> a[i] in Elems(l);
        assert j > |a| ==> b[j - |a| - 1] in Elems(r);
        assert i > |a| ==> b[i - |a| - 1].key < b[j - |a| - 1].key;
      }
  }

  // ---------- colours ----------

  predicate IsRed(t: Tree) {
    t.Fork? && t.color.Red?
  }

  function Bh(t: Tree): nat {
    match t
    case Leaf => 0
    case Fork(l, _, c, _) => Bh(l) + if c.Black? then 1 else 0
  }

  /** Equal black height on every path, and no red element with a red child. */
  predicate Balanced(t: Tree) {
    match t
    case Leaf => true
    case Fork(l, _, c, r) =>
      Balanced(l) && Balanced(r) && Bh(l) == Bh(r) && (c.Red? ==> !IsRed(l) && !IsRed(r))
  }

  /** Plugging in a balanced subtree of black height `h` balances everything,
      except that its root may be red below a red element. */
  predicate CtxBalanced(c: Ctx, h: nat) {
    match c
    case Top => true
    case Frame(_, _, col, sib, up) =>
      && Balanced(sib) && Bh(sib) == h
      && (col.Red? ==> !IsRed(sib) && up.Frame? && up.color.Black?)
      && CtxBalanced(up, if col.Black? then h + 1 else h)
  }

  predicate RedBlack(t: Tree) {
    Balanced(t) && !IsRed(t)
  }

  predicate RedOk(c: Ctx) {
    c.Frame? && c.color.Black?
  }

  lemma {:induction false} PlugBalanced(c: Ctx, t: Tree)
    ensures RedBlack(Plug(c, t)) <==> Balanced(t) && CtxBalanced(c, Bh(t)) && (IsRed(t) ==> RedOk(c))
  {
    match c
    case Top =>
    case Frame(d, n, col, sib, up) =>
      PlugBalanced(up, Mk(d, t, n, col, sib));
  }

  // ---------- memory ----------

  /** The link fields of one element. */
  datatype Cell = Cell(left: Node?, right: Node?, parent: Node?, color: Color) {
    function Kid(d: Dir): Node? {
      if d.Left? then left else right
    }
  }

  type Memory = map<Node, Cell>

  function MkCell(d: Dir, near: Node?, far: Node?, parent: Node?, c: Color): Cell {
    if d.Left? then Cell(near, far, parent, c) else Cell(far, near, parent, c)
  }

  /** Every element of `t` holds exactly the links and colour that `t` shows,
      and its root points up to `p`. */
  ghost predicate Linked(m: Memory, t: Tree, p: Node?) {
    match t
    case Leaf => true
    case Fork(l, n, c, r) =>
      n in m && m[n] == Cell(Root(l), Root(r), p, c) && Linked(m, l, n) && Linked(m, r, n)
  }

  ghost predicate CtxLinked(m: Memory, root: Node?, c: Ctx, x: Node?) {
    match c
    case Top => root == x
    case Frame(d, n, col, sib, up) =>
      && n in m && m[n] == MkCell(d, x, Root(sib), Above(up), col)
      && Linked(m, sib, n) && CtxLinked(m, root, up, n)
  }

  lemma {:induction false} PlugLinked(m: Memory, root: Node?, c: Ctx, t: Tree)
    ensures Linked(m, Plug(c, t), null) && root == Root(Plug(c, t))
       <==> Linked(m, t, Above(c)) && CtxLinked(m, root, c, Root(t))
  {
    match c
    case Top =>
    case Frame(d, n, col, sib, up) =>
      PlugLinked(m, root, up, Mk(d, t, n, col, sib));
  }

  lemma LinkedMk(m: Memory, d: Dir, near: Tree, n: Node, c: Color, far: Tree, p: Node?)
    ensures Linked(m, Mk(d, near, n, c, far), p)
       <==> n in m && m[n] == MkCell(d, Root(near), Root(far), p, c) && Linked(m, near, n) && Linked(m, far, n)
  {
  }

  ghost predicate Agree(m: Memory, m': Memory, s: set<Node>) {
    forall n :: n in s ==> n in m && n in m' && m'[n] == m[n]
  }

  lemma {:induction false} LinkedFrame(m: Memory, m': Memory, t: Tree, p: Node?)
    requires Linked(m, t, p)
    requires Agree(m, m', Elems(t))
    ensures Linked(m', t, p)
  {
    match t
    case Leaf =>
    case Fork(l, n, _, r) =>
      assert n in Elems(t);
      LinkedFrame(m, m', l, n);
      LinkedFrame(m, m', r, n);
  }

  lemma {:induction false} CtxLinkedFrame(m: Memory, m': Memory, root: Node?, root': Node?, c: Ctx, x: Node?)
    requires CtxLinked(m, root, c, x)
    requires c.Frame? ==> root' == root
    requires c.Top? ==> root' == x
    requires Agree(m, m', CtxElems(c))
    ensures CtxLinked(m', root', c, x)
  {
    match c
    case Top =>
    case Frame(_, n, _, sib, up) =>
      assert n in CtxElems(c);
      LinkedFrame(m, m', sib, n);
      CtxLinkedFrame(m, m', root, root', up, n);
  }

  lemma {:induction false} LinkedIn(m: Memory, t: Tree, p: Node?)
    requires Linked(m, t, p)
    ensures Elems(t) <= m.Keys
  {
    match t
    case Leaf =>
    case Fork(l, n, _, r) =>
      LinkedIn(m, l, n);
      LinkedIn(m, r, n);
  }

  lemma {:induction false} CtxLinkedIn(m: Memory, root: Node?, c: Ctx, x: Node?)
    requires CtxLinked(m, root, c, x)
    ensures CtxElems(c) <= m.Keys
  {
    match c
    case Top =>
    case Frame(_, n, _, sib, up) =>
      LinkedIn(m, sib, n);
      CtxLinkedIn(m, root, up, n);
  }

  lemma AgreeOutside(m: Memory, m': Memory, touched: set<Node?>, s: set<Node>)
    requires Agree(m, m', m.Keys - touched)
    requires s <= m.Keys && s !! touched
    ensures Agree(m, m', s)
  {
  }

  /** A subtree whose root alone changes, and only its parent pointer. */
  lemma Relink(m: Memory, m': Memory, t: Tree, p: Node?, p': Node?)
    requires Linked(m, t, p)
    requires t.Fork? ==>
               && t.node in m' && m'[t.node] == m[t.node].(parent := p')
               && Agree(m, m', Elems(t.left)) && Agree(m, m', Elems(t.right))
    ensures Linked(m', t, p')
  {
    if t.Fork? {
      LinkedFrame(m, m', t.left, t.node);
      LinkedFrame(m, m', t.right, t.node);
    }
  }

  /** A context whose hole is filled by `x'` instead of `x`. */
  lemma CtxRelink(m: Memory, m': Memory, root: Node?, root': Node?, c: Ctx, x: Node?, x': Node?)
    requires CtxLinked(m, root, c, x)
    requires c.Top? ==> root' == x'
    requires c.Frame? ==>
               && root' == root && c.node in m'
               && m'[c.node] == MkCell(c.dir, x', m[c.node].Kid(Flip(c.dir)), m[c.node].parent, m[c.node].color)
               && Agree(m, m', Elems(c.sib)) && Agree(m, m', CtxElems(c.up))
    ensures CtxLinked(m', root', c, x')
  {
    if c.Frame? {
      LinkedFrame(m, m', c.sib, c.node);
      CtxLinkedFrame(m, m', root, root, c.up, c.node);
    }
  }

  // ---------- rotation ----------

  /** The subtree after rotating its root towards `d`. */
  function Rotated(d: Dir, t: Tree): Tree
    requires t.Fork? && Sub(t, Flip(d)).Fork?
  {
    var y := Sub(t, Flip(d));
    Mk(d, Mk(d, Sub(t, d), t.node, t.color, Sub(y, d)), y.node, y.color, Sub(y, Flip(d)))
  }

  lemma RotatedSame(d: Dir, t: Tree)
    requires t.Fork? && Sub(t, Flip(d)).Fork?
    ensures InOrder(Rotated(d, t)) == InOrder(t)
    ensures Elems(Rotated(d, t)) == Elems(t)
  {
    var y := Sub(t, Flip(d));
    if d.Left? {
      Regroup([], InOrder(t.left), [t.node], InOrder(y.left), [y.node] + InOrder(y.right));
    } else {
      Regroup([], InOrder(y.left), [y.node], InOrder(y.right), [t.node] + InOrder(t.right));
    }
  }

  lemma RotatedOrdered(d: Dir, t: Tree)
    requires t.Fork? && Sub(t, Flip(d)).Fork?
    requires Ordered(t)
    ensures Ordered(Rotated(d, t))
  {
    var x, y := t.node, Sub(t, Flip(d));
    var a, b, e := Sub(t, d), Sub(y, d), Sub(y, Flip(d));
    OrderedMk(d, a, x, t.color, y);
    OrderedMk(d, b, y.node, y.color, e);
    OrderedMk(d, a, x, t.color, b);
    assert y.node in Elems(y);
    OrderedMk(d, Mk(d, a, x, t.color, b), y.node, y.color, e);
  }

  /** What the writes of one rotation leave in memory: `x` goes down on side `d`,
      `y` comes up, `b` changes parent, and `p` (if any) now holds `y` on side `pd`. */
  ghost predicate RotateWrites(m: Memory, m': Memory, d: Dir, x: Node, y: Node, b: Node?, p: Node?, pd: Dir)
  {
    && m'.Keys == m.Keys && x in m && y in m && (b != null ==> b in m) && (p != null ==> p in m)
    && m'[x] == MkCell(d, m[x].Kid(d), b, y, m[x].color)
    && m'[y] == MkCell(d, x, m[y].Kid(Flip(d)), p, m[y].color)
    && (b != null ==> m'[b] == m[b].(parent := x))
    && (p != null ==> m'[p] == MkCell(pd, y, m[p].Kid(Flip(pd)), m[p].parent, m[p].color))
    && Agree(m, m', m.Keys - {x, y, b, p})
  }

  /** The root and the two subtrees share no element. */
  ghost predicate Distinct(t: Tree) {
    t.Fork? ==> t.node !in Elems(t.left) && t.node !in Elems(t.right) && Elems(t.left) !! Elems(t.right)
  }

  lemma OrderedDistinct(t: Tree)
    requires Ordered(t)
    ensures Distinct(t)
  {
  }

  /** Subtree part: after the writes the rotated subtree is linked below `p`. */
  lemma RotateLinksBelow(m: Memory, m': Memory, d: Dir, p: Node?, pd: Dir, t: Tree)
    requires t.Fork? && Sub(t, Flip(d)).Fork?
    requires Distinct(t) && Distinct(Sub(t, Flip(d))) && Distinct(Sub(Sub(t, Flip(d)), d))
    requires Linked(m, t, p) && (p != null ==> p !in Elems(t))
    requires RotateWrites(m, m', d, t.node, Sub(t, Flip(d)).node, Root(Sub(Sub(t, Flip(d)), d)), p, pd)
    ensures Linked(m', Rotated(d, t), p)
  {
    var x, y := t.node, Sub(t, Flip(d));
    var a, b, e := Sub(t, d), Sub(y, d), Sub(y, Flip(d));
    LinkedIn(m, t, p);
    LinkedMk(m, d, a, x, t.color, y, p);
    LinkedMk(m, d, b, y.node, y.color, e, x);
    var touched := {x, y.node, Root(b), p};
    assert Linked(m', a, x) by {
      AgreeOutside(m, m', touched, Elems(a));
      LinkedFrame(m, m', a, x);
    }
    assert Linked(m', e, y.node) by {
      AgreeOutside(m, m', touched, Elems(e));
      LinkedFrame(m, m', e, y.node);
    }
    assert Linked(m', b, x) by {
      if b.Fork? {
        AgreeOutside(m, m', touched, Elems(b.left));
        AgreeOutside(m, m', touched, Elems(b.right));
      }
      Relink(m, m', b, y.node, x);
    }
    LinkedMk(m', d, a, x, t.color, b, y.node);
    LinkedMk(m', d, Mk(d, a, x, t.color, b), y.node, y.color, e, p);
  }

  /** Context part: the context is unchanged except that its hole now holds `y`. */
  lemma RotateLinksAbove(m: Memory, m': Memory, root: Node?, d: Dir, c: Ctx, s: set<Node>, x: Node, y: Node, b: Node?)
    requires CtxLinked(m, root, c, x) && Apart(c, s)
    requires x in s && y in s && (b != null ==> b in s)
    requires RotateWrites(m, m', d, x, y, b, Above(c), SideOf(c))
    ensures CtxLinked(m', if c.Frame? then root else y, c, y)
  {
    if c.Frame? {
      CtxLinkedIn(m, root, c, x);
      var touched := {x, y, b, Above(c)};
      AgreeOutside(m, m', touched, Elems(c.sib));
      AgreeOutside(m, m', touched, CtxElems(c.up));
    }
    CtxRelink(m, m', root, if c.Frame? then root else y, c, x, y);
  }

  /** Painting the root of a subtree changes its colour and nothing else. */
  lemma PaintLinks(m: Memory, m': Memory, root: Node?, c: Ctx, t: Tree, col: Color)
    requires t.Fork? && Distinct(t) && Apart(c, Elems(t))
    requires Linked(m, t, Above(c)) && CtxLinked(m, root, c, t.node)
    requires m' == m[t.node := m[t.node].(color := col)]
    ensures Linked(m', t.(color := col), Above(c)) && CtxLinked(m', root, c, t.node)
  {
    LinkedIn(m, t, Above(c));
    CtxLinkedIn(m, root, c, t.node);
    LinkedFrame(m, m', t.left, t.node);
    LinkedFrame(m, m', t.right, t.node);
    CtxLinkedFrame(m, m', root, root, c, t.node);
  }

  // ---------- whole trees ----------

  /** Memory `m` with root pointer `root` holds exactly the search tree `t`. */
  ghost predicate Holds(m: Memory, root: Node?, t: Tree) {
    m.Keys == Elems(t) && root == Root(t) && Linked(m, t, null) && Ordered(t)
  }

  lemma Focus(m: Memory, root: Node?, c: Ctx, t: Tree)
    requires Holds(m, root, Plug(c, t))
    ensures m.Keys == CtxElems(c) + Elems(t)
    ensures Linked(m, t, Above(c)) && CtxLinked(m, root, c, Root(t))
    ensures Ordered(t) && CtxOrdered(c, Elems(t)) && Apart(c, Elems(t)) && Distinct(t)
  {
    PlugLinked(m, root, c, t);
    PlugOrdered(c, t);
    PlugElems(c, t);
    CtxApart(c, Elems(t));
    OrderedDistinct(t);
  }

  lemma Settle(m: Memory, root: Node?, c: Ctx, t: Tree)
    requires m.Keys == CtxElems(c) + Elems(t)
    requires Linked(m, t, Above(c)) && CtxLinked(m, root, c, Root(t))
    requires Ordered(t) && CtxOrdered(c, Elems(t))
    ensures Holds(m, root, Plug(c, t))
  {
    PlugLinked(m, root, c, t);
    PlugOrdered(c, t);
    PlugElems(c, t);
  }

  lemma RotateReady(m: Memory, root: Node?, d: Dir, c: Ctx, t: Tree)
    requires Holds(m, root, Plug(c, t))
    requires t.Fork? && Sub(t, Flip(d)).Fork?
    ensures
      var y := Sub(t, Flip(d));
      var b, p := Root(Sub(y, d)), Above(c);
      && t.node in m && y.node in m && (b != null ==> b in m) && (p != null ==> p in m)
      && m[t.node].Kid(Flip(d)) == y.node && m[y.node].Kid(d) == b && m[t.node].parent == p
      && y.node in Elems(t) && (b != null ==> b in Elems(t))
      && t.node != y.node && t.node != b && t.node != p && y.node != b && y.node != p && (b != null ==> b != p)
      && Distinct(y) && Distinct(Sub(y, d))
      && (c.Frame? ==> (c.dir.Left? <==> m[c.node].left == t.node))
  {
    Focus(m, root, c, t);
    var y := Sub(t, Flip(d));
    LinkedMk(m, d, Sub(t, d), t.node, t.color, y, Above(c));
    LinkedMk(m, d, Sub(y, d), y.node, y.color, Sub(y, Flip(d)), t.node);
    OrderedDistinct(y);
    OrderedDistinct(Sub(y, d));
    assert Sub(y, d).Fork? ==> Sub(y, d).node in Elems(Sub(y, d));
    assert y.node in Elems(y);
  }

  lemma RotateHolds(m: Memory, m': Memory, root: Node?, root': Node?, d: Dir, c: Ctx, t: Tree)
    requires Holds(m, root, Plug(c, t))
    requires t.Fork? && Sub(t, Flip(d)).Fork?
    requires RotateWrites(m, m', d, t.node, Sub(t, Flip(d)).node, Root(Sub(Sub(t, Flip(d)), d)), Above(c),
                          SideOf(c))
    requires root' == if c.Frame? then root else Sub(t, Flip(d)).node
    ensures Holds(m', root', Plug(c, Rotated(d, t)))
  {
    Focus(m, root, c, t);
    RotateReady(m, root, d, c, t);
    var y := Sub(t, Flip(d));
    RotateLinksBelow(m, m', d, Above(c), SideOf(c), t);
    RotateLinksAbove(m, m', root, d, c, Elems(t), t.node, y.node, Root(Sub(y, d)));
    RotatedSame(d, t);
    RotatedOrdered(d, t);
    Settle(m', root', c, Rotated(d, t));
  }

  lemma PaintHolds(m: Memory, root: Node?, c: Ctx, t: Tree, col: Color)
    requires Holds(m, root, Plug(c, t)) && t.Fork?
    ensures t.node in m && Holds(m[t.node := m[t.node].(color := col)], root, Plug(c, t.(color := col)))
  {
    Focus(m, root, c, t);
    var m' := m[t.node := m[t.node].(color := col)];
    PaintLinks(m, m', root, c, t, col);
    Settle(m', root, c, t.(color := col));
  }

  /** The link fields at the root of a subtree and at the element above it. */
  lemma Peek(m: Memory, root: Node?, c: Ctx, t: Tree)
    requires Holds(m, root, Plug(c, t))
    ensures t.Fork? ==> t.node in m && m[t.node] == Cell(Root(t.left), Root(t.right), Above(c), t.color)
    ensures c.Frame? ==> c.node in m && m[c.node] == MkCell(c.dir, Root(t), Root(c.sib), Above(c.up), c.color)
    ensures c.Top? ==> root == Root(t)
    ensures c.Frame? && t.Fork? ==> Root(c.sib) != t.node
  {
    Focus(m, root, c, t);
  }

  // ---------- insertion ----------

  /** The state of the insertion fix-up: everything is balanced except that the
      red root of `t` may hang below a red element. */
  ghost predicate InsertPending(c: Ctx, t: Tree) {
    IsRed(t) && Balanced(t) && CtxBalanced(c, Bh(t))
  }

  /** How far the trouble can still climb; zero once the element above is black. */
  ghost function Trouble(c: Ctx): nat {
    if c.Frame? && c.color.Red? then 1 + Depth(c) else 0
  }

  lemma BalancedMk(d: Dir, near: Tree, n: Node, c: Color, far: Tree)
    ensures Balanced(Mk(d, near, n, c, far)) <==>
              && Balanced(near) && Balanced(far) && Bh(near) == Bh(far)
              && (c.Red? ==> !IsRed(near) && !IsRed(far))
    ensures Bh(near) == Bh(far) ==> Bh(Mk(d, near, n, c, far)) == Bh(near) + if c.Black? then 1 else 0
  {
  }

  lemma InsertRecolored(d: Dir, dp: Dir, t: Tree, p: Node, s: Tree, g: Node, u: Tree, up: Ctx)
    requires InsertPending(Frame(dp, p, Red, s, Frame(d, g, Black, u, up)), t)
    requires IsRed(u)
    ensures InsertPending(up, Mk(d, Mk(dp, t, p, Black, s), g, Red, u.(color := Black)))
  {
    assert CtxBalanced(Frame(d, g, Black, u, up), Bh(t));
    BalancedMk(dp, t, p, Black, s);
    BalancedMk(d, Mk(dp, t, p, Black, s), g, Red, u.(color := Black));
  }

  lemma InsertRotated(d: Dir, t: Tree, p: Node, s: Tree, g: Node, u: Tree, up: Ctx)
    requires InsertPending(Frame(d, p, Red, s, Frame(d, g, Black, u, up)), t)
    requires !IsRed(u)
    ensures InsertPending(Frame(d, p, Black, Mk(d, s, g, Red, u), up), t)
  {
    assert CtxBalanced(Frame(d, g, Black, u, up), Bh(t));
    BalancedMk(d, s, g, Red, u);
  }

  /** Rotating the red element `p` below a red root `t` on its inner side. */
  lemma InsertStraightened(d: Dir, t: Tree, p: Node, s: Tree, g: Node, u: Tree, up: Ctx)
    requires InsertPending(Frame(Flip(d), p, Red, s, Frame(d, g, Black, u, up)), t)
    ensures
      var low := Mk(d, s, p, Red, Sub(t, d));
      && Rotated(d, Mk(Flip(d), t, p, Red, s)) == Mk(d, low, t.node, Red, Sub(t, Flip(d)))
      && InsertPending(Frame(d, t.node, Red, Sub(t, Flip(d)), Frame(d, g, Black, u, up)), low)
  {
    BalancedMk(d, Sub(t, d), t.node, Red, Sub(t, Flip(d)));
    BalancedMk(d, s, p, Red, Sub(t, d));
  }

  lemma RaisedShape(d: Dir, t: Tree, p: Node, pc: Color, s: Tree, g: Node, gc: Color, u: Tree)
    ensures Rotated(Flip(d), Mk(d, Mk(d, t, p, pc, s), g, gc, u)) == Mk(d, t, p, pc, Mk(d, s, g, gc, u))
  {
  }

  lemma RaisedSame(d: Dir, t: Tree, p: Node, s: Tree, g: Node, u: Tree)
    ensures InOrder(Mk(d, t, p, Black, Mk(d, s, g, Red, u))) == InOrder(Mk(d, Mk(d, t, p, Red, s), g, Black, u))
  {
    if d.Left? {
      Regroup([], InOrder(t), [p], InOrder(s), [g] + InOrder(u));
    } else {
      Regroup([], InOrder(u), [g], InOrder(s), [p] + InOrder(t));
    }
  }

  lemma {:induction false} PlugFork(c: Ctx, t: Tree)
    requires t.Fork?
    ensures Plug(c, t).Fork?
  {
    if c.Frame? {
      PlugFork(c.up, Mk(c.dir, t, c.node, c.color, c.sib));
    }
  }

  lemma InsertDone(c: Ctx, t: Tree)
    requires InsertPending(c, t) && (c.Frame? ==> c.color.Black?)
    ensures Plug(c, t).Fork? && RedBlack(Plug(c, t).(color := Black))
  {
    PlugFork(c, t);
    PlugBalanced(c, t);
  }

  lemma PlugSame(c: Ctx, t: Tree, t': Tree)
    requires InOrder(t') == InOrder(t)
    ensures InOrder(Plug(c, t')) == InOrder(Plug(c, t))
  {
    PlugOrder(c, t);
    PlugOrder(c, t');
  }

  lemma MkSame(d: Dir, near: Tree, near': Tree, n: Node, c: Color, c': Color, far: Tree, far': Tree)
    requires InOrder(near') == InOrder(near) && InOrder(far') == InOrder(far)
    ensures InOrder(Mk(d, near', n, c', far')) == InOrder(Mk(d, near, n, c, far))
  {
  }

  // ---------- search ----------

  function Compare(a: int, b: int): int {
    a - b
  }

  /** A search for `key` passes through every frame of the context. */
  ghost predicate Fits(c: Ctx, key: int) {
    c.Frame? ==> (if c.dir.Left? then key < c.node.key else c.node.key < key) && Fits(c.up, key)
  }

  ghost predicate Lacks(s: set<Node>, key: int) {
    forall n :: n in s ==> n.key != key
  }

  lemma {:induction false} FitsLacks(c: Ctx, s: set<Node>, key: int)
    requires CtxOrdered(c, s) && Fits(c, key)
    ensures Lacks(CtxElems(c), key)
  {
    if c.Frame? {
      FitsLacks(c.up, s + {c.node} + Elems(c.sib), key);
    }
  }

  lemma {:induction false} FitsOrdered(c: Ctx, s: set<Node>, n: Node)
    requires CtxOrdered(c, s) && Fits(c, n.key)
    ensures CtxOrdered(c, s + {n})
  {
    if c.Frame? {
      FitsOrdered(c.up, s + {c.node} + Elems(c.sib), n);
      assert s + {n} + {c.node} + Elems(c.sib) == s + {c.node} + Elems(c.sib) + {n};
    }
  }

  /** Hanging a new red element into an empty place. */
  lemma GraftHolds(m: Memory, m': Memory, root: Node?, root': Node?, c: Ctx, n: Node)
    requires Holds(m, root, Plug(c, Leaf)) && n !in m && Fits(c, n.key)
    requires m'.Keys == m.Keys + {n} && m'[n] == Cell(null, null, Above(c), Red)
    requires c.Top? ==> root' == n && Agree(m, m', m.Keys)
    requires c.Frame? ==>
               && root' == root && c.node in m && Agree(m, m', m.Keys - {c.node})
               && m'[c.node] == MkCell(c.dir, n, m[c.node].Kid(Flip(c.dir)), m[c.node].parent, m[c.node].color)
    ensures Holds(m', root', Plug(c, Fork(Leaf, n, Red, Leaf)))
  {
    Focus(m, root, c, Leaf);
    FitsOrdered(c, {}, n);
    assert {} + {n} == Elems(Fork(Leaf, n, Red, Leaf));
    if c.Frame? {
      LinkedFrame(m, m', c.sib, c.node);
      CtxLinkedFrame(m, m', root, root, c.up, c.node);
    }
    Settle(m', root', c, Fork(Leaf, n, Red, Leaf));
  }

  lemma GraftPending(c: Ctx, n: Node)
    requires RedBlack(Plug(c, Leaf))
    ensures InsertPending(c, Fork(Leaf, n, Red, Leaf))
  {
    PlugBalanced(c, Leaf);
  }

  // ---------- removal ----------

  function Blacken(t: Tree): Tree {
    if t.Leaf? then t else t.(color := Black)
  }

  /** The state of the removal fix-up: the subtree `t` is one black element short,
      and its root, if red, may have red children. */
  ghost predicate RemovePending(c: Ctx, t: Tree) {
    Balanced(Blacken(t)) && CtxBalanced(c, Bh(t) + 1)
  }

  ghost function RemoveTrouble(c: Ctx, t: Tree): nat {
    if IsRed(t) then 0 else 1 + Depth(c)
  }

  /** The sibling of a short subtree is never missing. */
  lemma SiblingPresent(c: Ctx, t: Tree)
    requires RemovePending(c, t) && c.Frame? && !IsRed(t)
    ensures c.sib.Fork?
    ensures IsRed(c.sib) ==> c.color.Black? && c.sib.left.Fork? && c.sib.right.Fork? && !IsRed(c.sib.left) && !IsRed(c.sib.right)
  {
  }

  lemma SiblingRaised(d: Dir, t: Tree, p: Node, s: Tree, up: Ctx)
    requires RemovePending(Frame(d, p, Black, s, up), t) && IsRed(s) && !IsRed(t)
    ensures Rotated(d, Mk(d, t, p, Red, s.(color := Black))).Fork?
    ensures Rotated(d, Mk(d, t, p, Red, s.(color := Black)))
         == Mk(d, Mk(d, t, p, Red, Sub(s, d)), s.node, Black, Sub(s, Flip(d)))
    ensures RemovePending(Frame(d, p, Red, Sub(s, d), Frame(d, s.node, Black, Sub(s, Flip(d)), up)), t)
    ensures !IsRed(Sub(s, d)) && Sub(s, d).Fork?
  {
    BalancedMk(d, Sub(s, d), s.node, Red, Sub(s, Flip(d)));
    assert CtxBalanced(Frame(d, s.node, Black, Sub(s, Flip(d)), up), Bh(t) + 1);
  }

  lemma SiblingReddened(d: Dir, t: Tree, p: Node, col: Color, s: Tree, up: Ctx)
    requires RemovePending(Frame(d, p, col, s, up), t) && !IsRed(t)
    requires s.Fork? && !IsRed(s) && !IsRed(s.left) && !IsRed(s.right)
    ensures RemovePending(up, Mk(d, t, p, col, s.(color := Red)))
  {
    BalancedMk(d, t, p, Black, s.(color := Red));
    BalancedMk(d, t, p, col, s.(color := Red));
  }

  lemma SiblingStraightened(d: Dir, t: Tree, p: Node, col: Color, s: Tree, up: Ctx)
    requires RemovePending(Frame(d, p, col, s, up), t) && !IsRed(t)
    requires s.Fork? && !IsRed(s) && IsRed(Sub(s, d)) && !IsRed(Sub(s, Flip(d)))
    ensures
      var n := Sub(s, d);
      var low := Mk(d, Sub(n, Flip(d)), s.node, Red, Sub(s, Flip(d)));
      var s' := Mk(d, Sub(n, d), n.node, Black, low);
      && Rotated(Flip(d), Mk(d, n.(color := Black), s.node, Red, Sub(s, Flip(d)))) == s'
      && RemovePending(Frame(d, p, col, s', up), t) && !IsRed(s') && IsRed(Sub(s', Flip(d)))
  {
    var n := Sub(s, d);
    var low := Mk(d, Sub(n, Flip(d)), s.node, Red, Sub(s, Flip(d)));
    BalancedMk(d, n, s.node, Black, Sub(s, Flip(d)));
    BalancedMk(d, Sub(n, d), n.node, Red, Sub(n, Flip(d)));
    BalancedMk(d, Sub(n, Flip(d)), s.node, Red, Sub(s, Flip(d)));
    BalancedMk(d, Sub(n, d), n.node, Black, low);
  }

  lemma SiblingRisen(d: Dir, t: Tree, p: Node, col: Color, s: Tree, up: Ctx)
    requires RemovePending(Frame(d, p, col, s, up), t) && !IsRed(t)
    requires s.Fork? && !IsRed(s) && IsRed(Sub(s, Flip(d)))
    ensures
      var top := Mk(d, Mk(d, t, p, Black, Sub(s, d)), s.node, col, Sub(s, Flip(d)).(color := Black));
      && Rotated(d, Mk(d, t, p, Black, Mk(d, Sub(s, d), s.node, col, Sub(s, Flip(d)).(color := Black)))) == top
      && RedBlack(Plug(up, top))
  {
    var far := Sub(s, Flip(d)).(color := Black);
    var low := Mk(d, t, p, Black, Sub(s, d));
    var top := Mk(d, low, s.node, col, far);
    BalancedMk(d, Sub(s, d), s.node, Black, Sub(s, Flip(d)));
    BalancedMk(d, t, p, Black, Sub(s, d));
    BalancedMk(d, low, s.node, col, far);
    assert Bh(far) == Bh(t) + 1;
    PlugBalanced(up, top);
  }

  lemma RemoveDone(c: Ctx, t: Tree)
    requires RemovePending(c, t) && (c.Top? || IsRed(t))
    ensures RedBlack(Plug(c, Blacken(t)))
  {
    if IsRed(t) {
      assert Bh(Blacken(t)) == Bh(t) + 1;
    }
    PlugBalanced(c, Blacken(t));
  }

  /** A subtree that is not the whole tree does not start at the root. */
  lemma {:induction false} PlugRoot(c: Ctx, t: Tree)
    requires c.Frame?
    ensures Plug(c, t).Fork? && Plug(c, t).node in CtxElems(c)
  {
    if c.up.Frame? {
      PlugRoot(c.up, Mk(c.dir, t, c.node, c.color, c.sib));
    }
  }

  lemma RemoveFinished(w: Tree)
    requires RedBlack(w)
    ensures RemovePending(Top, w) && Blacken(w) == w
  {
  }

  lemma PaintReady(m: Memory, root: Node?, d: Dir, t: Tree, p: Node, col: Color, near: Tree, s: Node, far: Tree, up: Ctx)
    requires Holds(m, root, Plug(up, Mk(d, t, p, col, Mk(d, near, s, Black, far))))
    ensures {p, s} <= m.Keys && p != s && m[p].color == col && m[s].Kid(Flip(d)) == Root(far)
    ensures far.Fork? ==> far.node in m && far.node != p && far.node != s
  {
    var st := Mk(d, near, s, Black, far);
    var side := Frame(Flip(d), p, col, t, up);
    Peek(m, root, up, Mk(d, t, p, col, st));
    assert Plug(side, st) == Plug(up, Mk(d, t, p, col, st));
    Peek(m, root, side, st);
    Focus(m, root, side, st);
    Focus(m, root, Frame(Flip(d), s, Black, near, side), far);
  }

  // ---------- taking an element out ----------

  /** The only subtree, if any, of an element with at most one child. */
  function Only(t: Tree): Tree
    requires t.Fork?
  {
    if t.left.Leaf? then t.right else t.left
  }

  /** Child `k` of `x` now hangs on side `pd` of `p` in its place. */
  ghost predicate SpliceWrites(m: Memory, m': Memory, x: Node, k: Node?, p: Node?, pd: Dir) {
    && m'.Keys == m.Keys - {x}
    && Agree(m, m', m.Keys - {x, k, p})
    && (k != null ==> k in m && k in m' && m'[k] == m[k].(parent := p))
    && (p != null ==>
          && p in m && p in m'
          && m'[p] == MkCell(pd, k, m[p].Kid(Flip(pd)), m[p].parent, m[p].color))
  }

  lemma SpliceLinks(m: Memory, m': Memory, root: Node?, root': Node?, c: Ctx, t: Tree)
    requires t.Fork? && (t.left.Leaf? || t.right.Leaf?)
    requires Linked(m, t, Above(c)) && CtxLinked(m, root, c, t.node)
    requires Distinct(t) && Distinct(Only(t)) && Apart(c, Elems(t))
    requires m.Keys == CtxElems(c) + Elems(t)
    requires SpliceWrites(m, m', t.node, Root(Only(t)), Above(c), SideOf(c))
    requires root' == if c.Top? then Root(Only(t)) else root
    ensures Linked(m', Only(t), Above(c)) && CtxLinked(m', root', c, Root(Only(t)))
  {
    var k := Only(t);
    var touched := {t.node, Root(k), Above(c)};
    if k.Fork? {
      AgreeOutside(m, m', touched, Elems(k.left));
      AgreeOutside(m, m', touched, Elems(k.right));
    }
    Relink(m, m', k, t.node, Above(c));
    if c.Frame? {
      AgreeOutside(m, m', touched, Elems(c.sib));
      AgreeOutside(m, m', touched, CtxElems(c.up));
    }
    CtxRelink(m, m', root, root', c, t.node, Root(k));
  }

  lemma SpliceHolds(m: Memory, m': Memory, root: Node?, root': Node?, c: Ctx, t: Tree)
    requires Holds(m, root, Plug(c, t)) && t.Fork? && (t.left.Leaf? || t.right.Leaf?)
    requires SpliceWrites(m, m', t.node, Root(Only(t)), Above(c), SideOf(c))
    requires root' == if c.Top? then Root(Only(t)) else root
    ensures Holds(m', root', Plug(c, Only(t)))
  {
    Focus(m, root, c, t);
    OrderedDistinct(Only(t));
    SpliceLinks(m, m', root, root', c, t);
    CtxShrink(c, Elems(t), Elems(Only(t)));
    Settle(m', root', c, Only(t));
  }

  lemma SpliceReady(m: Memory, root: Node?, c: Ctx, t: Tree)
    requires Holds(m, root, Plug(c, t)) && t.Fork? && (t.left.Leaf? || t.right.Leaf?)
    ensures t.node in m && m[t.node] == Cell(Root(t.left), Root(t.right), Above(c), t.color)
    ensures
      var k := Root(Only(t));
      && (k != null ==> k in m && k != t.node && k != Above(c))
      && (c.Frame? ==> c.node in m && c.node != t.node && (m[c.node].left == t.node <==> c.dir.Left?))
  {
    Focus(m, root, c, t);
    Peek(m, root, c, t);
  }

  lemma {:induction false} CtxShrink(c: Ctx, s: set<Node>, s': set<Node>)
    requires CtxOrdered(c, s) && s' <= s
    ensures CtxOrdered(c, s')
  {
    if c.Frame? {
      CtxShrink(c.up, s + {c.node} + Elems(c.sib), s' + {c.node} + Elems(c.sib));
    }
  }

  /** Taking out a black element leaves a shortage, taking out a red one does not. */
  lemma SplicePending(c: Ctx, t: Tree)
    requires RedBlack(Plug(c, t)) && t.Fork? && (t.left.Leaf? || t.right.Leaf?)
    ensures t.color.Black? ==> RemovePending(c, Only(t))
    ensures t.color.Red? ==> RedBlack(Plug(c, Only(t)))
  {
    PlugBalanced(c, t);
    PlugBalanced(c, Only(t));
  }

  /** Element `e` takes over the fields of `x` and the pointers to it in `l`, `r` and `p`. */
  ghost predicate ReplaceWrites(m: Memory, m': Memory, x: Node, e: Node, l: Node?, r: Node?, p: Node?, pd: Dir) {
    && x in m && m'.Keys == m.Keys - {x} + {e}
    && Agree(m, m', m.Keys - {x, l, r, p})
    && m'[e] == m[x]
    && (l != null ==> l in m && l in m' && m'[l] == m[l].(parent := e))
    && (r != null ==> r in m && r in m' && m'[r] == m[r].(parent := e))
    && (p != null ==>
          && p in m && p in m'
          && m'[p] == MkCell(pd, e, m[p].Kid(Flip(pd)), m[p].parent, m[p].color))
  }

  lemma ReplaceLinks(m: Memory, m': Memory, root: Node?, root': Node?, c: Ctx, t: Tree, e: Node)
    requires t.Fork? && e !in m
    requires Linked(m, t, Above(c)) && CtxLinked(m, root, c, t.node)
    requires Distinct(t) && Distinct(t.left) && Distinct(t.right) && Apart(c, Elems(t))
    requires m.Keys == CtxElems(c) + Elems(t)
    requires ReplaceWrites(m, m', t.node, e, Root(t.left), Root(t.right), Above(c), SideOf(c))
    requires root' == if c.Top? then e else root
    ensures Linked(m', t.(node := e), Above(c)) && CtxLinked(m', root', c, e)
  {
    var l, r := t.left, t.right;
    var touched := {t.node, Root(l), Root(r), Above(c)};
    if l.Fork? {
      AgreeOutside(m, m', touched, Elems(l.left));
      AgreeOutside(m, m', touched, Elems(l.right));
    }
    Relink(m, m', l, t.node, e);
    if r.Fork? {
      AgreeOutside(m, m', touched, Elems(r.left));
      AgreeOutside(m, m', touched, Elems(r.right));
    }
    Relink(m, m', r, t.node, e);
    if c.Frame? {
      AgreeOutside(m, m', touched, Elems(c.sib));
      AgreeOutside(m, m', touched, CtxElems(c.up));
    }
    CtxRelink(m, m', root, root', c, t.node, e);
  }

  lemma ReplaceHolds(m: Memory, m': Memory, root: Node?, root': Node?, c: Ctx, t: Tree, e: Node)
    requires Holds(m, root, Plug(c, t)) && t.Fork? && e !in m
    requires Ordered(t.(node := e)) && CtxOrdered(c, Elems(t.(node := e)))
    requires ReplaceWrites(m, m', t.node, e, Root(t.left), Root(t.right), Above(c), SideOf(c))
    requires root' == if c.Top? then e else root
    ensures Holds(m', root', Plug(c, t.(node := e)))
  {
    Focus(m, root, c, t);
    OrderedDistinct(t.left);
    OrderedDistinct(t.right);
    ReplaceLinks(m, m', root, root', c, t, e);
    assert m'.Keys == CtxElems(c) + Elems(t.(node := e));
    Settle(m', root', c, t.(node := e));
  }

  lemma ReplaceReady(m: Memory, root: Node?, c: Ctx, t: Tree)
    requires Holds(m, root, Plug(c, t)) && t.Fork?
    ensures t.node in m && m[t.node] == Cell(Root(t.left), Root(t.right), Above(c), t.color)
    ensures
      var l, r, p := Root(t.left), Root(t.right), Above(c);
      && (l != null ==> l in m && l != t.node && l != r && l != p)
      && (r != null ==> r in m && r != t.node && r != p)
      && (c.Frame? ==> c.node in m && c.node != t.node && (m[c.node].left == t.node <==> c.dir.Left?))
  {
    Focus(m, root, c, t);
    Peek(m, root, c, t);
  }

  // ---------- the successor ----------

  /** The frames of `inner`, a context inside the hole of `outer`. */
  function Append(inner: Ctx, outer: Ctx): Ctx {
    match inner
    case Top => outer
    case Frame(d, n, col, sib, up) => Frame(d, n, col, sib, Append(up, outer))
  }

  lemma {:induction false} PlugAppend(inner: Ctx, outer: Ctx, t: Tree)
    ensures Plug(Append(inner, outer), t) == Plug(outer, Plug(inner, t))
  {
    match inner
    case Top =>
    case Frame(d, n, col, sib, up) => PlugAppend(up, outer, Mk(d, t, n, col, sib));
  }

  /** Which element sits in a frame does not matter for the balance. */
  lemma {:induction false} AppendBalanced(inner: Ctx, f: Ctx, e: Node, h: nat)
    requires f.Frame?
    ensures CtxBalanced(Append(inner, f.(node := e)), h) == CtxBalanced(Append(inner, f), h)
  {
    match inner
    case Top =>
    case Frame(_, _, col, _, up) =>
      AppendBalanced(up, f, e, if col.Black? then h + 1 else h);
      assert up.Top? ==> Append(up, f) == f;
  }

  lemma AppendRedBlack(inner: Ctx, f: Ctx, e: Node, t: Tree)
    requires f.Frame?
    ensures RemovePending(Append(inner, f), t) ==> RemovePending(Append(inner, f.(node := e)), t)
    ensures RedBlack(Plug(Append(inner, f), t)) ==> RedBlack(Plug(Append(inner, f.(node := e)), t))
  {
    AppendBalanced(inner, f, e, Bh(t) + 1);
    AppendBalanced(inner, f, e, Bh(t));
    PlugBalanced(Append(inner, f), t);
    PlugBalanced(Append(inner, f.(node := e)), t);
  }

  /** Every frame goes left: the hole is the first place of the subtree. */
  ghost predicate Leftmost(c: Ctx) {
    c.Frame? ==> c.dir.Left? && Leftmost(c.up)
  }

  lemma {:induction false} LeftmostFirst(c: Ctx, s: set<Node>, e: Node)
    requires CtxOrdered(c, s) && Leftmost(c) && e in s
    ensures Side(Right, CtxElems(c), e)
  {
    if c.Frame? {
      LeftmostFirst(c.up, s + {c.node} + Elems(c.sib), e);
    }
  }

  /** With the first element `e` of the right subtree taken out, it can stand in for the root. */
  lemma SuccessorOrdered(c: Ctx, l: Tree, n: Node, col: Color, inner: Ctx, e: Node, ecol: Color, k: Tree)
    requires Leftmost(inner)
    requires
      var r := Plug(inner, Fork(Leaf, e, ecol, k));
      Ordered(Fork(l, n, col, r)) && CtxOrdered(c, Elems(Fork(l, n, col, r)))
    ensures Ordered(Fork(l, e, col, Plug(inner, k)))
    ensures CtxOrdered(c, Elems(Fork(l, e, col, Plug(inner, k))))
    ensures e !in Elems(Plug(inner, k))
  {
    var s := Fork(Leaf, e, ecol, k);
    PlugOrdered(inner, s);
    PlugElems(inner, s);
    CtxShrink(inner, Elems(s), Elems(k));
    PlugOrdered(inner, k);
    PlugElems(inner, k);
    LeftmostFirst(inner, Elems(s), e);
    CtxShrink(c, Elems(Fork(l, n, col, Plug(inner, s))), Elems(Fork(l, e, col, Plug(inner, k))));
  }

  /** All that moving the successor `s.node` to the root of `t` relies on. */
  lemma SuccessorPlan(m: Memory, root: Node?, c: Ctx, t: Tree, inner: Ctx, s: Tree)
    requires Holds(m, root, Plug(c, t)) && RedBlack(Plug(c, t)) && t.Fork?
    requires Leftmost(inner) && s.Fork? && s.left.Leaf? && Plug(inner, s) == t.right
    ensures
      var f, k := Frame(Right, t.node, t.color, t.left, c), s.right;
      var from, to := Append(inner, f), Append(inner, f.(node := s.node));
      var mid := Fork(t.left, t.node, t.color, Plug(inner, k));
      && Plug(from, s) == Plug(c, t) && Plug(from, k) == Plug(c, mid)
      && Plug(to, k) == Plug(c, mid.(node := s.node))
      && Ordered(mid.(node := s.node)) && CtxOrdered(c, Elems(mid.(node := s.node)))
      && (s.color.Black? ==> RemovePending(to, k)) && (s.color.Red? ==> RedBlack(Plug(to, k)))
      && Above(to) == (if Above(from) == t.node then s.node else Above(from))
      && s.node in m && t.node in m && s.node != t.node
      && m[s.node].right == Root(k)
  {
    var f, k := Frame(Right, t.node, t.color, t.left, c), s.right;
    Focus(m, root, c, t);
    SuccessorOrdered(c, t.left, t.node, t.color, inner, s.node, s.color, k);
    PlugAppend(inner, f, s);
    PlugAppend(inner, f, k);
    PlugAppend(inner, f.(node := s.node), k);
    SplicePending(Append(inner, f), s);
    AppendRedBlack(inner, f, s.node, k);
    PlugElems(inner, s);
    Peek(m, root, Append(inner, f), s);
  }

  lemma SwapOut(s: set<Node>, e: Node, gone: Node)
    requires e in s && e != gone
    ensures s - {e} - {gone} + {e} == s - {gone}
  {
  }

  // ---------- height ----------

  function Height(t: Tree): nat {
    match t
    case Leaf => 0
    case Fork(l, _, _, r) => 1 + if Height(l) < Height(r) then Height(r) else Height(l)
  }

  lemma {:induction false} BlackHeightBounds(t: Tree)
    requires Balanced(t)
    ensures Height(t) <= 2 * Bh(t) + if IsRed(t) then 1 else 0
    ensures Pow2(Bh(t)) <= |InOrder(t)| + 1
  {
    if t.Fork? {
      BlackHeightBounds(t.left);
      BlackHeightBounds(t.right);
    }
  }

  lemma SquareMono(a: nat, b: nat)
    requires a <= b
    ensures a * a <= b * b
  {
    assert a * a <= a * b <= b * b;
  }

  /** A red-black tree with n elements has height at most 2 lg(n + 1). */
  lemma HeightBound(t: Tree)
    requires RedBlack(t)
    ensures Pow2(Height(t)) <= (|InOrder(t)| + 1) * (|InOrder(t)| + 1)
  {
    BlackHeightBounds(t);
    Pow2Mono(Height(t), Bh(t) + Bh(t));
    Pow2Add(Bh(t), Bh(t));
    SquareMono(Pow2(Bh(t)), |InOrder(t)| + 1);
  }

  /** How many elements a search compares with the key. */
  function Comparisons(t: Tree, key: int): nat {
    if t.Leaf? then 0
    else if key == t.node.key then 1
    else 1 + Comparisons(if key < t.node.key then t.left else t.right, key)
  }

  lemma {:induction false} ComparisonsBound(t: Tree, key: int)
    ensures Comparisons(t, key) <= Height(t)
  {
    if t.Fork? && key != t.node.key {
      ComparisonsBound(if key < t.node.key then t.left else t.right, key);
    }
  }

  lemma {:induction false} Count(t: Tree)
    requires Ordered(t)
    ensures |InOrder(t)| == |Elems(t)|
  {
    if t.Fork? {
      Count(t.left);
      Count(t.right);
      OrderedDistinct(t);
      assert |Elems(t.left) + {t.node}| == |Elems(t.left)| + 1;
      assert |Elems(t)| == |Elems(t.left) + {t.node}| + |Elems(t.right)|;
    }
  }

  // ---------- neighbours ----------

  /** `b` comes right after `a` (null: last) in `o`. */
  ghost predicate Follows(o: seq<Node>, a: Node, b: Node?) {
    forall i :: 0 <= i < |o| && o[i] == a ==> b == if i + 1 < |o| then o[i + 1] else null
  }

  lemma FollowsUse(o: seq<Node>, i: nat, a: Node, b: Node?)
    requires Follows(o, a, b) && i < |o| && o[i] == a
    ensures b == if i + 1 < |o| then o[i + 1] else null
  {
  }

  lemma AscendingOnce(o: seq<Node>, i: nat, j: nat)
    requires Ascending(o) && i < |o| && j < |o| && o[i] == o[j]
    ensures i == j
  {
  }

  lemma FollowsAt(o: seq<Node>, pre: seq<Node>, a: Node, post: seq<Node>)
    requires Ascending(o) && o == pre + [a] + post
    ensures Follows(o, a, if post == [] then null else post[0])
  {
    forall i | 0 <= i < |o| && o[i] == a ensures i == |pre| {
      AscendingOnce(o, i, |pre|);
    }
  }

  lemma FollowsNext(o: seq<Node>, pre: seq<Node>, a: Node, b: Node, mid: seq<Node>, post: seq<Node>)
    requires Ascending(o) && o == (pre + [a]) + ([] + [b] + mid) + post
    ensures Follows(o, a, b)
  {
    assert o == pre + [a] + ([b] + mid + post);
    FollowsAt(o, pre, a, [b] + mid + post);
  }

  lemma {:induction false} LeftmostBefore(inner: Ctx, outer: Ctx)
    requires Leftmost(inner)
    ensures Before(Append(inner, outer)) == Before(outer)
  {
    if inner.Frame? {
      LeftmostBefore(inner.up, outer);
    }
  }

  /** The first element `s.node` of the right subtree is the successor of the root. */
  lemma NextBelow(c: Ctx, t: Tree, inner: Ctx, s: Tree)
    requires t.Fork? && Ordered(Plug(c, t))
    requires Plug(inner, s) == t.right && Leftmost(inner) && s.Fork? && s.left.Leaf?
    ensures Follows(InOrder(Plug(c, t)), t.node, s.node)
  {
    var f := Frame(Right, t.node, t.color, t.left, c);
    PlugAppend(inner, f, s);
    PlugOrder(Append(inner, f), s);
    LeftmostBefore(inner, f);
    OrderedAscending(Plug(c, t));
    FollowsNext(InOrder(Plug(c, t)), Before(c) + InOrder(t.left), t.node, s.node, InOrder(s.right), After(Append(inner, f)));
  }

  /** Everything up to and including the last element of `t`. */
  function UpTo(c: Ctx, t: Tree): seq<Node> {
    Before(c) + InOrder(t)
  }

  lemma UpToRoot(c: Ctx, t: Tree)
    requires t.Fork? && t.right.Leaf?
    ensures UpTo(c, t) == Before(c) + InOrder(t.left) + [t.node]
  {
    assert InOrder(t) == InOrder(t.left) + [t.node];
    Regroup(Before(c), InOrder(t.left), [t.node], [], []);
  }

  lemma UpToClimb(c: Ctx, t: Tree)
    requires c.Frame? && c.dir.Right?
    ensures UpTo(c.up, Fork(c.sib, c.node, c.color, t)) == UpTo(c, t)
  {
    Regroup(Before(c.up), InOrder(c.sib), [c.node], InOrder(t), []);
  }

  lemma NextAbove(w: Tree, c: Ctx, t: Tree, pre: seq<Node>, n: Node)
    requires Ordered(w) && w == Plug(c, t) && UpTo(c, t) == pre + [n]
    requires c.Top? || c.dir.Left?
    ensures Follows(InOrder(w), n, Above(c))
  {
    PlugOrder(c, t);
    OrderedAscending(w);
    FollowsAt(InOrder(w), pre, n, After(c));
  }
}
