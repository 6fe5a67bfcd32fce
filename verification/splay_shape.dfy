/** The shape of a splay tree, and of the two side trees a top-down splay builds. */
module SplayShape {
  import opened Sides

  /** One tree element with its SPLAY_ENTRY link fields. */
  class Item {
    const key: int
    var left: Item?
    var right: Item?

    constructor (key: int)
      ensures this.key == key && left == null && right == null
    {
      this.key := key;
      left, right := null, null;
    }
  }

  datatype Tree = Tip | Bin(left: Tree, item: Item, right: Tree)

  function Mk(d: Dir, near: Tree, n: Item, far: Tree): Tree {
    if d.Left? then Bin(near, n, far) else Bin(far, n, near)
  }

  function Sub(t: Tree, d: Dir): Tree
    requires t.Bin?
  {
    if d.Left? then t.left else t.right
  }

  function Root(t: Tree): Item? {
    if t.Tip? then null else t.item
  }

  function Elems(t: Tree): set<Item> {
    if t.Tip? then {} else Elems(t.left) + {t.item} + Elems(t.right)
  }

  function InOrder(t: Tree): seq<Item> {
    if t.Tip? then [] else InOrder(t.left) + [t.item] + InOrder(t.right)
  }

  ghost predicate Side(d: Dir, s: set<Item>, key: int) {
    forall m :: m in s ==> if d.Left? then m.key < key else key < m.key
  }

  ghost predicate Ordered(t: Tree) {
    t.Bin? ==>
      && Ordered(t.left) && Ordered(t.right)
      && Side(Left, Elems(t.left), t.item.key) && Side(Right, Elems(t.right), t.item.key)
  }

  lemma OrderedMk(d: Dir, near: Tree, n: Item, far: Tree)
    ensures Elems(Mk(d, near, n, far)) == Elems(near) + {n} + Elems(far)
    ensures Ordered(Mk(d, near, n, far))
       <==> Ordered(near) && Ordered(far) && Side(d, Elems(near), n.key) && Side(Flip(d), Elems(far), n.key)
  {
  }

  ghost predicate Distinct(t: Tree) {
    t.Bin? ==> t.item !in Elems(t.left) && t.item !in Elems(t.right) && Elems(t.left) !! Elems(t.right)
  }

  lemma OrderedDistinct(t: Tree)
    requires Ordered(t)
    ensures Distinct(t)
  {
  }

  // ---------- search order as a sequence ----------

  ghost predicate Ascending(s: seq<Item>) {
    forall i, j :: 0 <= i < j < |s| ==> s[i].key < s[j].key
  }

  lemma {:induction false} InOrderElems(t: Tree)
    ensures forall i :: 0 <= i < |InOrder(t)| ==> InOrder(t)[i] in Elems(t)
  {
    if t.Bin? {
      InOrderElems(t.left);
      InOrderElems(t.right);
    }
  }

  lemma {:induction false} ElemsInOrder(t: Tree, n: Item)
    requires n in Elems(t)
    ensures n in InOrder(t)
  {
    if n in Elems(t.left) {
      ElemsInOrder(t.left, n);
    } else if n in Elems(t.right) {
      ElemsInOrder(t.right, n);
    }
  }

  lemma AscendingParts(a: seq<Item>, n: Item, b: seq<Item>)
    requires Ascending(a + [n] + b)
    ensures Ascending(a) && Ascending(b)
    ensures forall i :: 0 <= i < |a| ==> a[i].key < n.key
    ensures forall i :: 0 <= i < |b| ==> n.key < b[i].key
  {
    var s := a + [n] + b;
    assert forall i :: 0 <= i < |a| ==> s[i] == a[i];
    assert s[|a|] == n;
    assert forall i :: 0 <= i < |b| ==> s[|a| + 1 + i] == b[i];
  }

  lemma AscendingJoin(a: seq<Item>, n: Item, b: seq<Item>)
    requires Ascending(a) && Ascending(b)
    requires forall i :: 0 <= i < |a| ==> a[i].key < n.key
    requires forall i :: 0 <= i < |b| ==> n.key < b[i].key
    ensures Ascending(a + [n] + b)
  {
  }

  lemma {:induction false} OrderedAscending(t: Tree)
    ensures Ordered(t) <==> Ascending(InOrder(t))
  {
    if t.Bin? {
      OrderedAscending(t.left);
      OrderedAscending(t.right);
      InOrderElems(t.left);
      InOrderElems(t.right);
      if Ordered(t) {
        AscendingJoin(InOrder(t.left), t.item, InOrder(t.right));
      }
      if Ascending(InOrder(t)) {
        AscendingParts(InOrder(t.left), t.item, InOrder(t.right));
        SideFromOrder(Left, t.left, t.item.key);
        SideFromOrder(Right, t.right, t.item.key);
      }
    }
  }

  lemma SideFromOrder(d: Dir, t: Tree, key: int)
    requires forall i :: 0 <= i < |InOrder(t)| ==> if d.Left? then InOrder(t)[i].key < key else key < InOrder(t)[i].key
    ensures Side(d, Elems(t), key)
  {
    forall n | n in Elems(t) ensures if d.Left? then n.key < key else key < n.key {
      ElemsInOrder(t, n);
    }
  }

  // ---------- memory ----------

  datatype Cell = Cell(left: Item?, right: Item?) {
    function Kid(d: Dir): Item? {
      if d.Left? then left else right
    }
  }

  type Memory = map<Item, Cell>

  function MkCell(d: Dir, near: Item?, far: Item?): Cell {
    if d.Left? then Cell(near, far) else Cell(far, near)
  }

  ghost predicate Linked(m: Memory, t: Tree) {
    t.Bin? ==> t.item in m && m[t.item] == Cell(Root(t.left), Root(t.right)) && Linked(m, t.left) && Linked(m, t.right)
  }

  lemma LinkedMk(m: Memory, d: Dir, near: Tree, n: Item, far: Tree)
    ensures Linked(m, Mk(d, near, n, far))
       <==> n in m && m[n] == MkCell(d, Root(near), Root(far)) && Linked(m, near) && Linked(m, far)
  {
  }

  ghost predicate Agree(m: Memory, m': Memory, s: set<Item>) {
    forall n :: n in s ==> n in m && n in m' && m'[n] == m[n]
  }

  lemma {:induction false} LinkedFrame(m: Memory, m': Memory, t: Tree)
    requires Linked(m, t) && Agree(m, m', Elems(t))
    ensures Linked(m', t)
  {
    if t.Bin? {
      assert t.item in Elems(t);
      LinkedFrame(m, m', t.left);
      LinkedFrame(m, m', t.right);
    }
  }

  lemma {:induction false} LinkedIn(m: Memory, t: Tree)
    requires Linked(m, t)
    ensures Elems(t) <= m.Keys
  {
    if t.Bin? {
      LinkedIn(m, t.left);
      LinkedIn(m, t.right);
    }
  }

  // ---------- side trees ----------

  /** A side tree under construction, innermost element first.  Each element keeps
      its outer subtree `sub`; what comes next goes on its other side `d`. */
  datatype Spine = End | Link(item: Item, sub: Tree, rest: Spine)

  function SpineElems(s: Spine): set<Item> {
    if s.End? then {} else {s.item} + Elems(s.sub) + SpineElems(s.rest)
  }

  /** The side tree with `t` in its open place. */
  function Fill(d: Dir, s: Spine, t: Tree): Tree {
    if s.End? then t else Fill(d, s.rest, Mk(d, t, s.item, s.sub))
  }

  /** The elements of a left side tree (`d` is Right), then of a right one (`d` is Left), in order. */
  function SpineOrder(d: Dir, s: Spine): seq<Item> {
    if s.End? then []
    else if d.Right? then SpineOrder(d, s.rest) + InOrder(s.sub) + [s.item]
    else [s.item] + InOrder(s.sub) + SpineOrder(d, s.rest)
  }

  lemma {:induction false} FillOrder(d: Dir, s: Spine, t: Tree)
    ensures InOrder(Fill(d, s, t)) == if d.Right? then SpineOrder(d, s) + InOrder(t) else InOrder(t) + SpineOrder(d, s)
  {
    if s.Link? {
      FillOrder(d, s.rest, Mk(d, t, s.item, s.sub));
      if d.Right? {
        Regroup(SpineOrder(d, s.rest), InOrder(s.sub), [s.item], InOrder(t), []);
      } else {
        Regroup([], InOrder(t), [s.item], InOrder(s.sub), SpineOrder(d, s.rest));
      }
    }
  }

  lemma {:induction false} FillElems(d: Dir, s: Spine, t: Tree)
    ensures Elems(Fill(d, s, t)) == SpineElems(s) + Elems(t)
  {
    if s.Link? {
      FillElems(d, s.rest, Mk(d, t, s.item, s.sub));
      OrderedMk(d, t, s.item, s.sub);
    }
  }

  /** The header element, or the innermost element, whose side `d` is the open place. */
  function Tail(hdr: Item, s: Spine): Item {
    if s.End? then hdr else s.item
  }

  /** The chain from the header is linked; the open place holds `x`. */
  ghost predicate SpineLinked(m: Memory, hdr: Item, d: Dir, s: Spine, x: Item?) {
    if s.End? then hdr in m && m[hdr].Kid(d) == x
    else
      && s.item in m && m[s.item] == MkCell(d, x, Root(s.sub))
      && Linked(m, s.sub) && SpineLinked(m, hdr, d, s.rest, s.item)
  }

  /** The item and the outer subtree of the innermost link are apart from the rest. */
  ghost predicate SpineApart(s: Spine) {
    s.Link? ==> s.item !in Elems(s.sub) && s.item !in SpineElems(s.rest) && Elems(s.sub) !! SpineElems(s.rest)
  }

  lemma {:induction false} SpineFrame(m: Memory, m': Memory, hdr: Item, d: Dir, s: Spine, x: Item?)
    requires SpineLinked(m, hdr, d, s, x) && Agree(m, m', SpineElems(s))
    requires hdr in m && hdr in m' && m'[hdr].Kid(d) == m[hdr].Kid(d)
    ensures SpineLinked(m', hdr, d, s, x)
  {
    if s.Link? {
      assert s.item in SpineElems(s);
      LinkedFrame(m, m', s.sub);
      SpineFrame(m, m', hdr, d, s.rest, s.item);
    }
  }

  lemma {:induction false} SpineIn(m: Memory, hdr: Item, d: Dir, s: Spine, x: Item?)
    requires SpineLinked(m, hdr, d, s, x)
    ensures SpineElems(s) <= m.Keys && hdr in m
  {
    if s.Link? {
      LinkedIn(m, s.sub);
      SpineIn(m, hdr, d, s.rest, s.item);
    }
  }

  /** Closing the open place with a tree. */
  lemma {:induction false} FillLinked(m: Memory, hdr: Item, d: Dir, s: Spine, t: Tree)
    requires SpineLinked(m, hdr, d, s, Root(t)) && Linked(m, t)
    ensures hdr in m && Linked(m, Fill(d, s, t)) && Root(Fill(d, s, t)) == m[hdr].Kid(d)
  {
    if s.Link? {
      LinkedMk(m, d, t, s.item, s.sub);
      FillLinked(m, hdr, d, s.rest, Mk(d, t, s.item, s.sub));
    }
  }

  // ---------- the loop state ----------

  function SetKid(m: Memory, n: Item, d: Dir, x: Item?): Memory
    requires n in m
  {
    m[n := MkCell(d, x, m[n].Kid(Flip(d)))]
  }

  /** A side tree whose open place holds whatever the program last left there. */
  ghost predicate SpineOk(m: Memory, hdr: Item, d: Dir, s: Spine) {
    && hdr in m && Tail(hdr, s) in m && SpineApart(s)
    && SpineLinked(m, hdr, d, s, m[Tail(hdr, s)].Kid(d))
  }

  /** `all` splits into the header and the three sets. */
  ghost predicate Parts(all: set<Item>, hdr: Item, a: set<Item>, b: set<Item>, c: set<Item>) {
    all == {hdr} + a + b + c && hdr !in a + b + c && a !! b && b !! c && a !! c
  }

  lemma PartsMove(all: set<Item>, hdr: Item, a: set<Item>, x: Item, near: set<Item>, far: set<Item>, c: set<Item>)
    requires Parts(all, hdr, a, near + {x} + far, c)
    requires x !in near && near !! far
    ensures Parts(all, hdr, {x} + far + a, near, c)
  {
  }

  /** Between two turns of the loop: `t` is still to be searched, `side` collects the elements
      beyond the key on the way `d`, `other` those on the opposite way. */
  ghost predicate Splaying(m: Memory, hdr: Item, d: Dir, side: Spine, t: Tree, other: Spine) {
    && Parts(m.Keys, hdr, SpineElems(side), Elems(t), SpineElems(other))
    && Linked(m, t) && Ordered(t)
    && SpineOk(m, hdr, d, side) && SpineOk(m, hdr, Flip(d), other)
  }

  lemma SpineOkFrame(m: Memory, m': Memory, hdr: Item, d: Dir, s: Spine)
    requires SpineOk(m, hdr, d, s) && Agree(m, m', SpineElems(s))
    requires hdr in m' && m'[hdr].Kid(d) == m[hdr].Kid(d)
    ensures SpineOk(m', hdr, d, s)
  {
    assert s.Link? ==> s.item in SpineElems(s);
    SpineFrame(m, m', hdr, d, s, m[Tail(hdr, s)].Kid(d));
  }

  /** The tree after SPLAY_ROTATE_RIGHT (`d` is Left) or SPLAY_ROTATE_LEFT. */
  function Rotated(d: Dir, t: Tree): Tree
    requires t.Bin? && Sub(t, d).Bin?
  {
    var y := Sub(t, d);
    Mk(d, Sub(y, d), y.item, Mk(d, Sub(y, Flip(d)), t.item, Sub(t, Flip(d))))
  }

  lemma RotatedOrdered(d: Dir, t: Tree)
    requires t.Bin? && Sub(t, d).Bin? && Ordered(t)
    ensures Ordered(Rotated(d, t)) && Elems(Rotated(d, t)) == Elems(t)
  {
    var y := Sub(t, d);
    OrderedMk(d, y, t.item, Sub(t, Flip(d)));
    OrderedMk(d, Sub(y, d), y.item, Sub(y, Flip(d)));
    OrderedMk(d, Sub(y, Flip(d)), t.item, Sub(t, Flip(d)));
    assert y.item in Elems(y);
    OrderedMk(d, Sub(y, d), y.item, Mk(d, Sub(y, Flip(d)), t.item, Sub(t, Flip(d))));
  }

  lemma RotatedSame(d: Dir, t: Tree)
    requires t.Bin? && Sub(t, d).Bin?
    ensures InOrder(Rotated(d, t)) == InOrder(t)
  {
    var y := Sub(t, d);
    if d.Left? {
      Regroup([], InOrder(y.left), [y.item], InOrder(y.right), [t.item] + InOrder(t.right));
    } else {
      Regroup([], InOrder(t.left), [t.item], InOrder(y.left), [y.item] + InOrder(y.right));
    }
  }

  lemma RotateLinked(m: Memory, d: Dir, t: Tree)
    requires t.Bin? && Sub(t, d).Bin? && Linked(m, t) && Distinct(t) && Distinct(Sub(t, d))
    ensures
      var x, y := t.item, Sub(t, d).item;
      && x in m && y in m
      && var m' := SetKid(SetKid(m, x, d, m[y].Kid(Flip(d))), y, Flip(d), x);
      Linked(m', Rotated(d, t)) && Agree(m, m', m.Keys - {x, y}) && m'.Keys == m.Keys
  {
    var x, y := t.item, Sub(t, d);
    var a, b, e := Sub(y, d), Sub(y, Flip(d)), Sub(t, Flip(d));
    LinkedMk(m, d, y, x, e);
    LinkedMk(m, d, a, y.item, b);
    LinkedIn(m, t);
    var m' := SetKid(SetKid(m, x, d, m[y.item].Kid(Flip(d))), y.item, Flip(d), x);
    LinkedFrame(m, m', a);
    LinkedFrame(m, m', b);
    LinkedFrame(m, m', e);
    LinkedMk(m', d, b, x, e);
    LinkedMk(m', d, a, y.item, Mk(d, b, x, e));
  }

  lemma RotateStep(m: Memory, hdr: Item, d: Dir, side: Spine, t: Tree, other: Spine)
    requires Splaying(m, hdr, d, side, t, other) && t.Bin? && Sub(t, d).Bin?
    ensures
      var x, y := t.item, Sub(t, d).item;
      && x in m && y in m && m[x].Kid(d) == y && x != y && x != hdr && y != hdr
      && var m' := SetKid(SetKid(m, x, d, m[y].Kid(Flip(d))), y, Flip(d), x);
      Splaying(m', hdr, d, side, Rotated(d, t), other)
  {
    var x, y := t.item, Sub(t, d);
    OrderedDistinct(t);
    OrderedDistinct(y);
    LinkedMk(m, d, y, x, Sub(t, Flip(d)));
    assert y.item in Elems(y);
    RotateLinked(m, d, t);
    RotatedOrdered(d, t);
    var m' := SetKid(SetKid(m, x, d, m[y.item].Kid(Flip(d))), y.item, Flip(d), x);
    SpineOkFrame(m, m', hdr, d, side);
    SpineOkFrame(m, m', hdr, Flip(d), other);
  }

  /** SPLAY_LINKLEFT (`d` is Left) and SPLAY_LINKRIGHT: the root and its far subtree move to `side`. */
  lemma LinkStep(m: Memory, hdr: Item, d: Dir, side: Spine, t: Tree, other: Spine)
    requires Splaying(m, hdr, d, side, t, other) && t.Bin?
    ensures
      && Tail(hdr, side) in m && t.item in m && m[t.item].Kid(d) == Root(Sub(t, d)) && Tail(hdr, side) != t.item
      && var m' := SetKid(m, Tail(hdr, side), d, t.item);
      Splaying(m', hdr, d, Link(t.item, Sub(t, Flip(d)), side), Sub(t, d), other)
  {
    var x, tail := t.item, Tail(hdr, side);
    var near, far := Sub(t, d), Sub(t, Flip(d));
    var m' := SetKid(m, tail, d, x);
    OrderedDistinct(t);
    OrderedMk(d, near, x, far);
    LinkedMk(m, d, near, x, far);
    PartsMove(m.Keys, hdr, SpineElems(side), x, Elems(near), Elems(far), SpineElems(other));
    assert m'.Keys == m.Keys;
    LinkApart(m, m', hdr, d, side, t, other, x);
    LinkedFrame(m, m', near);
    LinkedFrame(m, m', far);
    SpineOkFrame(m, m', hdr, Flip(d), other);
    SpineClose(m, hdr, d, side, x);
  }

  lemma LinkApart(m: Memory, m': Memory, hdr: Item, d: Dir, side: Spine, t: Tree, other: Spine, x: Item?)
    requires Parts(m.Keys, hdr, SpineElems(side), Elems(t), SpineElems(other)) && t.Bin?
    requires Tail(hdr, side) in m && m' == SetKid(m, Tail(hdr, side), d, x)
    ensures Agree(m, m', Elems(Sub(t, d))) && Agree(m, m', Elems(Sub(t, Flip(d)))) && Agree(m, m', SpineElems(other))
    ensures hdr in m && m'[hdr].Kid(Flip(d)) == m[hdr].Kid(Flip(d))
    ensures Tail(hdr, side) != t.item && t.item in m && m'[t.item] == m[t.item]
  {
    assert side.Link? ==> side.item in SpineElems(side);
  }

  /** Writing the open place of a side tree. */
  lemma SpineClose(m: Memory, hdr: Item, d: Dir, s: Spine, x: Item?)
    requires SpineOk(m, hdr, d, s) && hdr !in SpineElems(s)
    ensures SpineLinked(SetKid(m, Tail(hdr, s), d, x), hdr, d, s, x)
  {
    var m' := SetKid(m, Tail(hdr, s), d, x);
    SpineIn(m, hdr, d, s, m[Tail(hdr, s)].Kid(d));
    if s.Link? {
      LinkedFrame(m, m', s.sub);
      SpineFrame(m, m', hdr, d, s.rest, s.item);
    }
  }

  // ---------- putting the parts together ----------

  /** The tree SPLAY_ASSEMBLE builds. */
  function Assembled(l: Spine, t: Tree, r: Spine): Tree
    requires t.Bin?
  {
    Bin(Fill(Right, l, t.left), t.item, Fill(Left, r, t.right))
  }

  /** All elements, in order, while the loop runs. */
  function WholeOrder(l: Spine, t: Tree, r: Spine): seq<Item> {
    SpineOrder(Right, l) + InOrder(t) + SpineOrder(Left, r)
  }

  lemma AssembledOrder(l: Spine, t: Tree, r: Spine)
    requires t.Bin?
    ensures InOrder(Assembled(l, t, r)) == WholeOrder(l, t, r)
    ensures Elems(Assembled(l, t, r)) == SpineElems(l) + Elems(t) + SpineElems(r)
  {
    FillOrder(Right, l, t.left);
    FillOrder(Left, r, t.right);
    FillElems(Right, l, t.left);
    FillElems(Left, r, t.right);
    Gather(SpineOrder(Right, l), InOrder(t.left), [t.item], InOrder(t.right), SpineOrder(Left, r));
  }

  lemma LinkOrder(d: Dir, l: Spine, t: Tree, r: Spine)
    requires t.Bin?
    ensures d.Left? ==> WholeOrder(l, t.left, Link(t.item, t.right, r)) == WholeOrder(l, t, r)
    ensures d.Right? ==> WholeOrder(Link(t.item, t.left, l), t.right, r) == WholeOrder(l, t, r)
  {
    Regroup(SpineOrder(Right, l), InOrder(t.left), [t.item], InOrder(t.right), SpineOrder(Left, r));
  }

  /** First half of SPLAY_ASSEMBLE: both open places are closed. */
  lemma CloseBoth(m: Memory, hdr: Item, l: Spine, t: Tree, r: Spine)
    requires Splaying(m, hdr, Right, l, t, r) && t.Bin?
    ensures
      && Tail(hdr, l) in m && Tail(hdr, r) in m && t.item in m
      && m[t.item] == Cell(Root(t.left), Root(t.right))
      && Tail(hdr, l) != t.item && Tail(hdr, r) != t.item && hdr != t.item
      && var m1 := SetKid(m, Tail(hdr, l), Right, Root(t.left));
      && var m2 := SetKid(m1, Tail(hdr, r), Left, Root(t.right));
      && SpineLinked(m2, hdr, Right, l, Root(t.left)) && SpineLinked(m2, hdr, Left, r, Root(t.right))
      && Linked(m2, t.left) && Linked(m2, t.right) && hdr in m2 && m2.Keys == m.Keys
      && m2[t.item] == m[t.item]
  {
    var m1 := SetKid(m, Tail(hdr, l), Right, Root(t.left));
    var m2 := SetKid(m1, Tail(hdr, r), Left, Root(t.right));
    LinkApart(m, m1, hdr, Right, l, t, r, Root(t.left));
    SpineClose(m, hdr, Right, l, Root(t.left));
    SpineOkFrame(m, m1, hdr, Left, r);
    LinkApart(m1, m2, hdr, Left, r, t, l, Root(t.right));
    SpineClose(m1, hdr, Left, r, Root(t.right));
    SpineFrame(m1, m2, hdr, Right, l, Root(t.left));
    LinkedFrame(m, m1, t.left);
    LinkedFrame(m1, m2, t.left);
    LinkedFrame(m, m1, t.right);
    LinkedFrame(m1, m2, t.right);
  }

  /** Second half: the root takes the two side trees from the header. */
  lemma AssembleStep(m: Memory, hdr: Item, l: Spine, t: Tree, r: Spine)
    requires Parts(m.Keys, hdr, SpineElems(l), Elems(t), SpineElems(r)) && t.Bin? && Distinct(t)
    requires SpineLinked(m, hdr, Right, l, Root(t.left)) && SpineLinked(m, hdr, Left, r, Root(t.right))
    requires Linked(m, t.left) && Linked(m, t.right)
    ensures hdr in m && t.item in m && t.item != hdr
    ensures Linked(SetKid(SetKid(m, t.item, Left, m[hdr].right), t.item, Right, m[hdr].left), Assembled(l, t, r))
  {
    FillLinked(m, hdr, Right, l, t.left);
    FillLinked(m, hdr, Left, r, t.right);
    FillElems(Right, l, t.left);
    FillElems(Left, r, t.right);
    LinkedIn(m, Fill(Right, l, t.left));
    LinkedIn(m, Fill(Left, r, t.right));
    var m' := SetKid(SetKid(m, t.item, Left, m[hdr].right), t.item, Right, m[hdr].left);
    LinkedFrame(m, m', Fill(Right, l, t.left));
    LinkedFrame(m, m', Fill(Left, r, t.right));
  }

  lemma RotateTurn(m: Memory, hdr: Item, d: Dir, l: Spine, t: Tree, r: Spine)
    requires Splaying(m, hdr, Right, l, t, r) && t.Bin? && Sub(t, d).Bin?
    ensures
      var x, y := t.item, Sub(t, d).item;
      && x in m && y in m && x != y
      && Splaying(SetKid(SetKid(m, x, d, m[y].Kid(Flip(d))), y, Flip(d), x), hdr, Right, l, Rotated(d, t), r)
    ensures WholeOrder(l, Rotated(d, t), r) == WholeOrder(l, t, r) && Elems(Rotated(d, t)) == Elems(t)
  {
    if d.Right? {
      RotateStep(m, hdr, d, l, t, r);
    } else {
      RotateStep(m, hdr, d, r, t, l);
    }
    RotatedSame(d, t);
    RotatedOrdered(d, t);
  }

  lemma LinkTurn(m: Memory, hdr: Item, d: Dir, l: Spine, t: Tree, r: Spine)
    requires Splaying(m, hdr, Right, l, t, r) && t.Bin?
    ensures
      var tail := Tail(hdr, if d.Right? then l else r);
      var l' := if d.Right? then Link(t.item, t.left, l) else l;
      var r' := if d.Left? then Link(t.item, t.right, r) else r;
      && tail in m && t.item in m && m[t.item].Kid(d) == Root(Sub(t, d)) && tail != t.item
      && Splaying(SetKid(m, tail, d, t.item), hdr, Right, l', Sub(t, d), r')
      && WholeOrder(l', Sub(t, d), r') == WholeOrder(l, t, r)
  {
    if d.Right? {
      LinkStep(m, hdr, d, l, t, r);
    } else {
      LinkStep(m, hdr, d, r, t, l);
    }
    LinkOrder(d, l, t, r);
  }

  // ---------- what a splay is for ----------

  /** Everything left of the root is below the key, everything right of it above. */
  ghost predicate CutAt(t: Tree, key: int) {
    t.Bin? && Side(Left, Elems(t.left), key) && Side(Right, Elems(t.right), key)
  }

  /** The elements already moved to the side trees are on their side of the key. */
  ghost predicate Sorted(l: Spine, r: Spine, key: int) {
    Side(Left, SpineElems(l), key) && Side(Right, SpineElems(r), key)
  }

  /** The loop stops on the key, or where the way to it ends. */
  lemma StopCut(t: Tree, d: Dir, key: int)
    requires t.Bin? && Ordered(t)
    requires key == t.item.key || (Sub(t, d).Tip? && if d.Left? then key < t.item.key else t.item.key < key)
    ensures CutAt(t, key)
  {
  }

  lemma LinkSorted(d: Dir, l: Spine, t: Tree, r: Spine, key: int)
    requires Sorted(l, r, key) && t.Bin? && Ordered(t)
    requires if d.Left? then key < t.item.key else t.item.key < key
    ensures d.Left? ==> Sorted(l, Link(t.item, t.right, r), key)
    ensures d.Right? ==> Sorted(Link(t.item, t.left, l), r, key)
  {
  }

  lemma AssembledCut(l: Spine, t: Tree, r: Spine, key: int)
    requires CutAt(t, key) && Sorted(l, r, key)
    ensures CutAt(Assembled(l, t, r), key)
  {
    FillElems(Right, l, t.left);
    FillElems(Left, r, t.right);
  }

  lemma StartSplaying(m: Memory, hdr: Item, t: Tree)
    requires m.Keys == {hdr} + Elems(t) && hdr !in Elems(t) && Linked(m, t) && Ordered(t)
    ensures Splaying(m, hdr, Right, End, t, End) && WholeOrder(End, t, End) == InOrder(t)
  {
  }

  lemma Shrinks(d: Dir, t: Tree)
    requires t.Bin? && Ordered(t)
    ensures Elems(Sub(t, d)) < Elems(t)
  {
    OrderedDistinct(t);
  }

  // ---------- insertion and removal at the root ----------

  /** The new root `e` takes the subtree on side `d`; the old root keeps the rest. */
  function Topped(d: Dir, e: Item, t: Tree): Tree
    requires t.Bin?
  {
    Mk(d, Sub(t, d), e, Mk(d, Tip, t.item, Sub(t, Flip(d))))
  }

  lemma ToppedLinked(m: Memory, d: Dir, e: Item, t: Tree)
    requires t.Bin? && Linked(m, t) && Ordered(t) && m.Keys == Elems(t) + {e} && e !in Elems(t)
    requires CutAt(t, e.key) && if d.Left? then e.key < t.item.key else t.item.key < e.key
    ensures Ordered(Topped(d, e, t)) && Elems(Topped(d, e, t)) == Elems(t) + {e}
    ensures
      && t.item in m && e in m
      && var m1 := SetKid(SetKid(m, e, d, m[t.item].Kid(d)), e, Flip(d), t.item);
      Linked(SetKid(m1, t.item, d, null), Topped(d, e, t))
  {
    var x, near, far := t.item, Sub(t, d), Sub(t, Flip(d));
    OrderedDistinct(t);
    OrderedMk(d, near, x, far);
    OrderedMk(d, Tip, x, far);
    OrderedMk(d, near, e, Mk(d, Tip, x, far));
    LinkedMk(m, d, near, x, far);
    var m1 := SetKid(SetKid(m, e, d, m[x].Kid(d)), e, Flip(d), x);
    var m' := SetKid(m1, x, d, null);
    LinkedFrame(m, m', near);
    LinkedFrame(m, m', far);
    LinkedMk(m', d, Tip, x, far);
    LinkedMk(m', d, near, e, Mk(d, Tip, x, far));
  }

  /** A tree of smaller elements, cut at the key, has its last element at the root. */
  lemma LastAtRoot(s: Tree, t: Tree, key: int)
    requires t.Bin? && Ordered(t) && t.item.key == key
    requires CutAt(s, key) && Elems(s) == Elems(t.left)
    ensures s.right.Tip?
    ensures Before(Elems(s), Elems(t.right))
  {
    assert Elems(s.right) <= Elems(t.left);
    assert Elems(s.right) == {};
  }

  ghost predicate Before(a: set<Item>, b: set<Item>) {
    forall x, y :: x in a && y in b ==> x.key < y.key
  }

  /** Joining two trees when the root of the first has no right subtree. */
  lemma JoinLinked(m: Memory, s: Tree, r: Tree)
    requires s.Bin? && s.right.Tip? && Linked(m, s) && Linked(m, r) && Ordered(s) && Ordered(r)
    requires Before(Elems(s), Elems(r))
    ensures s.item in m && Linked(SetKid(m, s.item, Right, Root(r)), Bin(s.left, s.item, r))
    ensures Ordered(Bin(s.left, s.item, r)) && Elems(Bin(s.left, s.item, r)) == Elems(s) + Elems(r)
  {
    var m' := SetKid(m, s.item, Right, Root(r));
    assert s.item in Elems(s);
    OrderedDistinct(s);
    LinkedIn(m, s);
    LinkedIn(m, r);
    LinkedFrame(m, m', s.left);
    LinkedFrame(m, m', r);
  }

  // ---------- neighbours ----------

  /** `b` comes right after `a` (null: last) in `o`. */
  ghost predicate Follows(o: seq<Item>, a: Item, b: Item?) {
    forall i :: 0 <= i < |o| && o[i] == a ==> b == if i + 1 < |o| then o[i + 1] else null
  }

  lemma AscendingOnce(o: seq<Item>, i: nat, j: nat)
    requires Ascending(o) && i < |o| && j < |o| && o[i] == o[j]
    ensures i == j
  {
  }

  /** After the root comes the first element of its right subtree. */
  lemma NextOfRoot(t: Tree)
    requires t.Bin? && Ordered(t)
    ensures Follows(InOrder(t), t.item, if t.right.Tip? then null else InOrder(t.right)[0])
  {
    OrderedAscending(t);
    var o, k := InOrder(t), |InOrder(t.left)|;
    forall i | 0 <= i < |o| && o[i] == t.item ensures i == k {
      AscendingOnce(o, i, k);
    }
  }

  lemma EndAtRoot(d: Dir, t: Tree)
    requires t.Bin? && Sub(t, d).Tip?
    ensures InOrder(t) != [] && t.item == if d.Left? then InOrder(t)[0] else InOrder(t)[|InOrder(t)| - 1]
  {
  }

  lemma KeyAtRoot(t: Tree, n: Item)
    requires CutAt(t, n.key) && n in Elems(t)
    ensures t.item == n
  {
  }
}
