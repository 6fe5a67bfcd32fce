/** The keys of a splay tree on the heap, and the loop of SPLAY as a step of the recursive form. */
module SplayKeys {
  import opened Sides
  import opened SplayShape
  import Cost = SplayCost

  function Keys(t: Tree): Cost.Tree {
    if t.Tip? then Cost.Tip else Cost.Bin(Keys(t.left), t.item.key, Keys(t.right))
  }

  /** The keys of a side tree with `k` in its open place. */
  function FillKeys(d: Dir, s: Spine, k: Cost.Tree): Cost.Tree {
    if s.End? then k else FillKeys(d, s.rest, Cost.Mk(d, k, s.item.key, Keys(s.sub)))
  }

  function AssembledKeys(l: Spine, k: Cost.Tree, r: Spine): Cost.Tree
    requires k.Bin?
  {
    Cost.Bin(FillKeys(Right, l, k.left), k.key, FillKeys(Left, r, k.right))
  }

  lemma {:induction false} KeysFill(d: Dir, s: Spine, t: Tree)
    ensures Keys(Fill(d, s, t)) == FillKeys(d, s, Keys(t))
  {
    if s.Link? {
      KeysFill(d, s.rest, Mk(d, t, s.item, s.sub));
    }
  }

  lemma KeysAssembled(l: Spine, t: Tree, r: Spine)
    requires t.Bin?
    ensures Keys(Assembled(l, t, r)) == AssembledKeys(l, Keys(t), r)
  {
    KeysFill(Right, l, t.left);
    KeysFill(Left, r, t.right);
  }

  lemma KeysSub(d: Dir, t: Tree)
    requires t.Bin?
    ensures Keys(Sub(t, d)) == Cost.Sub(Keys(t), d)
  {
  }

  lemma KeysRotated(d: Dir, t: Tree)
    requires t.Bin? && Sub(t, d).Bin?
    ensures Cost.Sub(Keys(t), d).Bin? && Keys(Rotated(d, t)) == Cost.Rotated(d, Keys(t))
  {
  }

  lemma KeysTopped(e: Item, t: Tree)
    requires t.Bin? && e.key != t.item.key
    ensures Keys(Topped(if e.key < t.item.key then Left else Right, e, t)) == Cost.Topped(Keys(t), e.key)
  {
    var d := if e.key < t.item.key then Left else Right;
    var low := Mk(d, Tip, t.item, Sub(t, Flip(d)));
    assert Keys(low) == Cost.Mk(d, Cost.Tip, t.item.key, Keys(Sub(t, Flip(d))));
  }

  lemma {:induction false} SizeCounts(t: Tree)
    ensures Cost.Size(Keys(t)) == |InOrder(t)|
  {
    if t.Bin? {
      SizeCounts(t.left);
      SizeCounts(t.right);
    }
  }

  // ---------- one turn ----------

  /** The three parts become a tree with the keys `whole` in `n` more turns. */
  ghost predicate Becomes(l: Spine, t: Tree, r: Spine, key: int, whole: Cost.Tree, n: nat) {
    forall x: Tree {:trigger Cost.Turns(Keys(x), key)} :: x == t ==>
      x.Bin? && AssembledKeys(l, Cost.Splayed(Keys(x), key), r) == whole && Cost.Turns(Keys(x), key) == n
  }

  lemma BecomesStart(t: Tree, key: int)
    requires t.Bin?
    ensures Becomes(End, t, End, key, Cost.Splayed(Keys(t), key), Cost.Turns(Keys(t), key))
  {
  }

  /** The parts whose root is not to be changed any more. */
  lemma BecomesStop(l: Spine, t: Tree, r: Spine, key: int, whole: Cost.Tree, n: nat)
    requires Becomes(l, t, r, key, whole, n) && t.Bin? && key == t.item.key
    ensures Keys(Assembled(l, t, r)) == whole && n == 0
  {
    assert Cost.Turns(Keys(t), key) == n;
    KeysAssembled(l, t, r);
  }

  /** The way to the key, and the tree after the rotation of a turn, if there is one. */
  function Way(t: Tree, key: int): Dir
    requires t.Bin?
  {
    if key < t.item.key then Left else Right
  }

  function TurnedRoot(t: Tree, key: int): (u: Tree)
    requires t.Bin? && Sub(t, Way(t, key)).Bin?
    ensures u.Bin?
  {
    var d := Way(t, key);
    if Cost.Beyond(d, key, Sub(t, d).item.key) then Rotated(d, t) else t
  }

  /** The side trees after the root of `u` is hung on one of them. */
  function LeftAfter(d: Dir, u: Tree, l: Spine): Spine
    requires u.Bin?
  {
    if d.Right? then Link(u.item, u.left, l) else l
  }

  function RightAfter(d: Dir, u: Tree, r: Spine): Spine
    requires u.Bin?
  {
    if d.Left? then Link(u.item, u.right, r) else r
  }

  lemma HungKeys(d: Dir, l: Spine, u: Tree, r: Spine, s: Cost.Tree)
    requires u.Bin? && s.Bin?
    ensures AssembledKeys(LeftAfter(d, u, l), s, RightAfter(d, u, r)) == AssembledKeys(l, Cost.Hung(d, Keys(u), s), r)
  {
  }

  /** After a turn the side trees are still on their sides, or the root is cut at the key. */
  lemma TurnSorted(l: Spine, t: Tree, r: Spine, key: int)
    requires t.Bin? && key != t.item.key && Sub(t, Way(t, key)).Bin? && Ordered(t) && Sorted(l, r, key)
    ensures
      var d, u := Way(t, key), TurnedRoot(t, key);
      if Sub(u, d).Tip? then CutAt(u, key)
      else Sorted(LeftAfter(d, u, l), RightAfter(d, u, r), key) && Elems(Sub(u, d)) < Elems(t)
  {
    var d, u := Way(t, key), TurnedRoot(t, key);
    RotatedOrdered(d, t);
    if Sub(u, d).Tip? {
      StopCut(u, d, key);
    } else {
      LinkSorted(d, l, u, r, key);
      Shrinks(d, u);
    }
  }

  /** A turn that finds the way to the key at its end. */
  lemma TurnEnds(l: Spine, t: Tree, r: Spine, key: int, whole: Cost.Tree, n: nat)
    requires Becomes(l, t, r, key, whole, n) && t.Bin? && key != t.item.key && Sub(t, Way(t, key)).Tip?
    ensures n == 1 && Keys(Assembled(l, t, r)) == whole
  {
    assert Cost.Turns(Keys(t), key) == n;
    KeysSub(Way(t, key), t);
    KeysAssembled(l, t, r);
  }

  /** What one turn of the loop does is what one step of the recursive form does. */
  lemma TurnBecomes(l: Spine, t: Tree, r: Spine, key: int, whole: Cost.Tree, n: nat)
    requires Becomes(l, t, r, key, whole, n) && t.Bin? && key != t.item.key && Sub(t, Way(t, key)).Bin?
    ensures n > 0
    ensures
      var d, u := Way(t, key), TurnedRoot(t, key);
      if Sub(u, d).Tip? then n == 1 && Keys(Assembled(l, u, r)) == whole
      else Becomes(LeftAfter(d, u, l), Sub(u, d), RightAfter(d, u, r), key, whole, n - 1)
  {
    var d, u := Way(t, key), TurnedRoot(t, key);
    assert Cost.Turns(Keys(t), key) == n;
    KeysSub(d, t);
    KeysRotated(d, t);
    KeysSub(d, Sub(t, d));
    KeysSub(d, u);
    if Sub(u, d).Tip? {
      KeysAssembled(l, u, r);
    } else {
      HungKeys(d, l, u, r, Cost.Splayed(Keys(Sub(u, d)), key));
    }
  }
}
