/** The splay tree operations of `lib/tree.h` on mutable elements. */
module SplayTrees {
  import opened Sides
  import opened KeySets
  import opened SplayShape
  import opened SplayKeys
  import opened Powers
  import Cost = SplayCost
  import Times

  ghost function Snapshot(ns: set<Item>): Memory
    reads ns
  {
    map n | n in ns :: Cell(n.left, n.right)
  }

  function Kid(n: Item, d: Dir): Item?
    reads n
  {
    if d.Left? then n.left else n.right
  }

  method WriteKid(n: Item, d: Dir, x: Item?, ghost ns: set<Item>)
    requires n in ns
    modifies n
    ensures Snapshot(ns) == SetKid(old(Snapshot(ns)), n, d, x)
  {
    if d.Left? {
      n.left := x;
    } else {
      n.right := x;
    }
  }

  /** The elements that have another key. */
  ghost function Without(ns: set<Item>, key: int): set<Item> {
    set n | n in ns && n.key != key
  }

  lemma CutKeys(t: Tree, key: int)
    requires CutAt(t, key)
    ensures Without(Elems(t), key) == if t.item.key == key then Elems(t) - {t.item} else Elems(t)
  {
  }

  /** A call takes a tree with the keys of `t` to one with those of `r`, in so many turns. */
  ghost predicate Performs(t: Tree, op: Op, r: Tree, turns: nat) {
    Keys(r) == Cost.After(Keys(t), op) && turns == Cost.OpTurns(Keys(t), op)
  }

  class SplayTree {
    var root: Item?
    ghost var items: set<Item>
    ghost var shape: Tree

    ghost predicate Is(t: Tree)
      reads `root, `items, items
    {
      items == Elems(t) && root == Root(t) && Linked(Snapshot(items), t) && Ordered(t)
    }

    ghost predicate Valid()
      reads this, items
    {
      Is(shape)
    }

    ghost function Order(): seq<Item>
      reads this
    {
      InOrder(shape)
    }

    constructor ()
      ensures Valid() && items == {} && shape == Tip
    {
      root, items, shape := null, {}, Tip;
    }

    /** Makes `x` the root of the tree `t` that the links of its elements already describe. */
    method Install(x: Item?, ghost t: Tree)
      requires x == Root(t) && Linked(Snapshot(Elems(t)), t) && Ordered(t)
      modifies this
      ensures Valid() && root == x && items == Elems(t) && shape == t
    {
      root, items, shape := x, Elems(t), t;
    }

    /** SPLAY_ROTATE_RIGHT (`d` is Left) and SPLAY_ROTATE_LEFT. */
    method RotateRoot(d: Dir, tmp: Item, hdr: Item, ghost all: set<Item>, ghost l: Spine, ghost t: Tree, ghost r: Spine)
        returns (ghost t': Tree)
      requires Splaying(Snapshot(all), hdr, Right, l, t, r) && root == Root(t)
      requires t.Bin? && Sub(t, d).Bin? && Sub(t, d).item == tmp
      modifies `root, all
      ensures t' == Rotated(d, t)
      ensures Splaying(Snapshot(all), hdr, Right, l, t', r) && root == Root(t')
      ensures WholeOrder(l, t', r) == WholeOrder(l, t, r) && Elems(t') == Elems(t)
      ensures items == old(items)
    {
      ghost var m := Snapshot(all);
      RotateTurn(m, hdr, d, l, t, r);
      WriteKid(root, d, Kid(tmp, Flip(d)), all);
      WriteKid(tmp, Flip(d), root, all);
      root := tmp;
      assert Snapshot(all) == SetKid(SetKid(m, t.item, d, m[tmp].Kid(Flip(d))), tmp, Flip(d), t.item);
      t' := Rotated(d, t);
    }

    /** SPLAY_LINKLEFT (`d` is Left) and SPLAY_LINKRIGHT: `tail` is the tail of that side tree. */
    method LinkRoot(d: Dir, tail: Item, hdr: Item, ghost all: set<Item>, ghost l: Spine, ghost t: Tree, ghost r: Spine)
        returns (tail': Item, ghost l': Spine, ghost t': Tree, ghost r': Spine)
      requires Splaying(Snapshot(all), hdr, Right, l, t, r) && root == Root(t) && t.Bin?
      requires tail == Tail(hdr, if d.Right? then l else r)
      modifies `root, all
      ensures Splaying(Snapshot(all), hdr, Right, l', t', r') && root == Root(t')
      ensures tail' == Tail(hdr, if d.Right? then l' else r') && tail' == t.item
      ensures t' == Sub(t, d)
      ensures l' == LeftAfter(d, t, l) && r' == RightAfter(d, t, r)
      ensures WholeOrder(l', t', r') == WholeOrder(l, t, r)
      ensures items == old(items)
    {
      ghost var m := Snapshot(all);
      LinkTurn(m, hdr, d, l, t, r);
      WriteKid(tail, d, root, all);
      tail' := root;
      root := Kid(root, d);
      assert Snapshot(all) == SetKid(m, tail, d, t.item);
      t' := Sub(t, d);
      l', r' := LeftAfter(d, t, l), RightAfter(d, t, r);
    }

    /** SPLAY_ASSEMBLE */
    method Assemble(hdr: Item, left: Item, right: Item, ghost all: set<Item>, ghost l: Spine, ghost t: Tree, ghost r: Spine)
      requires Splaying(Snapshot(all), hdr, Right, l, t, r) && root == Root(t) && t.Bin?
      requires left == Tail(hdr, l) && right == Tail(hdr, r)
      modifies all
      ensures Linked(Snapshot(all), Assembled(l, t, r)) && items == old(items)
    {
      CloseBoth(Snapshot(all), hdr, l, t, r);
      WriteKid(left, Right, root.left, all);
      WriteKid(right, Left, root.right, all);
      OrderedDistinct(t);
      AssembleStep(Snapshot(all), hdr, l, t, r);
      WriteKid(root, Left, hdr.right, all);
      WriteKid(root, Right, hdr.left, all);
    }

    /** Installs the assembled tree. */
    lemma AssembledHolds(hdr: Item, all: set<Item>, l: Spine, t: Tree, r: Spine)
      requires t.Bin? && all == items + {hdr} && hdr !in items
      requires items == SpineElems(l) + Elems(t) + SpineElems(r)
      requires Linked(Snapshot(all), Assembled(l, t, r)) && root == Root(t)
      requires Ascending(WholeOrder(l, t, r))
      ensures Is(Assembled(l, t, r))
    {
      AssembledOrder(l, t, r);
      OrderedAscending(Assembled(l, t, r));
      LinkedFrame(Snapshot(all), Snapshot(items), Assembled(l, t, r));
    }

    /** One turn of the loop of SPLAY on the way `d`; `stop` is its `break`. */
    method SplayTurn(d: Dir, zigzig: bool, tmp: Item, hdr: Item, tail: Item, ghost all: set<Item>, ghost l: Spine, ghost t: Tree, ghost r: Spine)
        returns (stop: bool, tail': Item, ghost l': Spine, ghost t': Tree, ghost r': Spine)
      requires Splaying(Snapshot(all), hdr, Right, l, t, r) && root == Root(t) && t.Bin?
      requires tail == Tail(hdr, if d.Right? then l else r)
      requires Sub(t, d).Bin? && Sub(t, d).item == tmp
      modifies `root, all
      ensures Splaying(Snapshot(all), hdr, Right, l', t', r') && root == Root(t') && t'.Bin?
      ensures tail' == Tail(hdr, if d.Right? then l' else r')
      ensures WholeOrder(l', t', r') == WholeOrder(l, t, r) && items == old(items)
      ensures
        var u := if zigzig then Rotated(d, t) else t;
        && Ordered(u) && Elems(u) == Elems(t)
        && (stop ==> zigzig && t' == u && l' == l && r' == r && Sub(u, d).Tip?)
        && (!stop ==>
              && t' == Sub(u, d)
              && l' == LeftAfter(d, u, l) && r' == RightAfter(d, u, r))
    {
      ghost var u := t;
      if zigzig {
        u := RotateRoot(d, tmp, hdr, all, l, t, r);
        assert root in Snapshot(all) && Snapshot(all)[root] == Cell(Root(u.left), Root(u.right));
        if Kid(root, d) == null {
          stop, tail', l', t', r' := true, tail, l, u, r;
          return;
        }
      }
      stop := false;
      tail', l', t', r' := LinkRoot(d, tail, hdr, all, l, u, r);
    }

    /** The loop of SPLAY has three parts with these elements in order, and `n` more turns to
        the tree `whole`. */
    ghost predicate Turning(key: int, hdr: Item, left: Item, right: Item, all: set<Item>, l: Spine, t: Tree, r: Spine,
                            order: seq<Item>, whole: Cost.Tree, n: nat)
      reads `root, all
    {
      forall x: Tree {:trigger Becomes(l, x, r, key, whole, n)} :: x == t ==>
        && Splaying(Snapshot(all), hdr, Right, l, x, r) && root == Root(x) && x.Bin?
        && left == Tail(hdr, l) && right == Tail(hdr, r) && Sorted(l, r, key)
        && WholeOrder(l, x, r) == order && Becomes(l, x, r, key, whole, n)
    }

    /** It has ended. */
    ghost predicate Turned(key: int, hdr: Item, left: Item, right: Item, all: set<Item>, l: Spine, t: Tree, r: Spine,
                           order: seq<Item>, whole: Cost.Tree)
      reads `root, all
    {
      && Splaying(Snapshot(all), hdr, Right, l, t, r) && root == Root(t) && t.Bin?
      && left == Tail(hdr, l) && right == Tail(hdr, r) && Sorted(l, r, key) && CutAt(t, key)
      && WholeOrder(l, t, r) == order && Keys(Assembled(l, t, r)) == whole
    }

    /** The body of the loop of SPLAY for a key that is not at the root; `stop` is its `break`. */
    method KeyTurn(key: int, hdr: Item, left: Item, right: Item, ghost all: set<Item>, ghost l: Spine, ghost t: Tree, ghost r: Spine,
                   ghost whole: Cost.Tree, ghost n: nat)
        returns (stop: bool, left': Item, right': Item, ghost l': Spine, ghost t': Tree, ghost r': Spine)
      requires Splaying(Snapshot(all), hdr, Right, l, t, r) && root == Root(t) && t.Bin? && key != t.item.key
      requires left == Tail(hdr, l) && right == Tail(hdr, r) && Sorted(l, r, key) && Becomes(l, t, r, key, whole, n)
      modifies `root, all
      ensures Splaying(Snapshot(all), hdr, Right, l', t', r') && root == Root(t') && t'.Bin?
      ensures left' == Tail(hdr, l') && right' == Tail(hdr, r') && Sorted(l', r', key)
      ensures WholeOrder(l', t', r') == WholeOrder(l, t, r) && items == old(items)
      ensures stop ==> CutAt(t', key)
      ensures !stop ==> Elems(t') < Elems(t)
      ensures n > 0 && if stop then n == 1 && Keys(Assembled(l', t', r')) == whole else Becomes(l', t', r', key, whole, n - 1)
    {
      stop, left', right', l', t', r' := true, left, right, l, t, r;
      var d := if key < root.key then Left else Right;
      Peek(hdr, all, l, t, r);
      var tmp := Kid(root, d);
      if tmp == null {
        StopCut(t, d, key);
        TurnEnds(l, t, r, key, whole, n);
        return;
      }
      var zigzig := if d.Left? then key < tmp.key else tmp.key < key;
      TurnBecomes(l, t, r, key, whole, n);
      TurnSorted(l, t, r, key);
      var tail;
      stop, tail, l', t', r' := SplayTurn(d, zigzig, tmp, hdr, if d.Right? then left else right, all, l, t, r);
      if !stop {
        if d.Right? {
          left' := tail;
        } else {
          right' := tail;
        }
      }
    }

    /** The same, for the loop that need not look at the parts. */
    method NextTurn(key: int, hdr: Item, left: Item, right: Item, ghost all: set<Item>, ghost l: Spine, ghost t: Tree, ghost r: Spine,
                    ghost order: seq<Item>, ghost whole: Cost.Tree, ghost n: nat)
        returns (stop: bool, left': Item, right': Item, ghost l': Spine, ghost t': Tree, ghost r': Spine)
      requires Turning(key, hdr, left, right, all, l, t, r, order, whole, n) && t.Bin? && root == Root(t) && key != t.item.key
      modifies `root, all
      ensures n > 0 && t'.Bin? && root == Root(t') && items == old(items)
      ensures stop ==> n == 1 && Turned(key, hdr, left', right', all, l', t', r', order, whole)
      ensures !stop ==> Turning(key, hdr, left', right', all, l', t', r', order, whole, n - 1) && Elems(t') < Elems(t)
    {
      assert Becomes(l, t, r, key, whole, n);
      stop, left', right', l', t', r' := KeyTurn(key, hdr, left, right, all, l, t, r, whole, n);
    }

    /** The end of SPLAY. */
    method Finish(hdr: Item, left: Item, right: Item, ghost all: set<Item>, ghost l: Spine, ghost t: Tree, ghost r: Spine)
      requires Splaying(Snapshot(all), hdr, Right, l, t, r) && root == Root(t) && t.Bin?
      requires left == Tail(hdr, l) && right == Tail(hdr, r)
      requires all == items + {hdr} && hdr !in items && Ascending(WholeOrder(l, t, r))
      modifies `shape, all
      ensures Valid() && shape == Assembled(l, t, r) && Order() == WholeOrder(l, t, r)
      ensures items == old(items)
    {
      assert items == SpineElems(l) + Elems(t) + SpineElems(r);
      Assemble(hdr, left, right, all, l, t, r);
      AssembledHolds(hdr, all, l, t, r);
      AssembledOrder(l, t, r);
      shape := Assembled(l, t, r);
    }

    /** The loop of SPLAY; `turns` counts its turns. */
    method KeyTurns(key: int, hdr: Item, ghost all: set<Item>, ghost t0: Tree, ghost order: seq<Item>, ghost whole: Cost.Tree, ghost n0: nat)
        returns (left: Item, right: Item, ghost l: Spine, ghost t: Tree, ghost r: Spine, ghost turns: nat)
      requires Turning(key, hdr, hdr, hdr, all, End, t0, End, order, whole, n0) && t0.Bin? && root == Root(t0)
      modifies `root, all
      ensures Turned(key, hdr, left, right, all, l, t, r, order, whole) && turns == n0 && items == old(items)
    {
      left, right, l, t, r, turns := hdr, hdr, End, t0, End, 0;
      ghost var n := n0;
      while key != root.key
        invariant Turning(key, hdr, left, right, all, l, t, r, order, whole, n) && t.Bin? && root == Root(t)
        invariant turns + n == n0 && items == old(items)
        decreases Elems(t)
      {
        var stop;
        stop, left, right, l, t, r := NextTurn(key, hdr, left, right, all, l, t, r, order, whole, n);
        turns, n := turns + 1, n - 1;
        if stop {
          return;
        }
      }
      assert Becomes(l, t, r, key, whole, n);
      StopCut(t, Left, key);
      BecomesStop(l, t, r, key, whole, n);
    }

    /** SPLAY: moves the element with the key, or one next to it, to the root. */
    method Splay(key: int) returns (ghost turns: nat)
      requires Valid() && root != null
      modifies this, items
      ensures Valid() && items == old(items) && Order() == old(Order())
      ensures CutAt(shape, key)
      ensures old(shape).Bin? && Keys(shape) == Cost.Splayed(Keys(old(shape)), key) && turns == Cost.Turns(Keys(old(shape)), key)
    {
      var hdr := new Item(0);
      ghost var all := items + {hdr};
      StartReady(hdr, all);
      BecomesStart(shape, key);
      var left, right;
      ghost var l, t, r;
      ghost var k := Keys(shape);
      left, right, l, t, r, turns := KeyTurns(key, hdr, all, shape, Order(), Cost.Splayed(k, key), Cost.Turns(k, key));
      AssembledCut(l, t, r, key);
      Finish(hdr, left, right, all, l, t, r);
    }

    lemma StartReady(hdr: Item, all: set<Item>)
      requires Valid() && hdr !in items && all == items + {hdr} && root != null
      ensures Splaying(Snapshot(all), hdr, Right, End, shape, End) && shape.Bin?
      ensures WholeOrder(End, shape, End) == Order() && Ascending(Order())
    {
      LinkedFrame(Snapshot(items), Snapshot(all), shape);
      StartSplaying(Snapshot(all), hdr, shape);
      OrderedAscending(shape);
    }

    lemma Peek(hdr: Item, all: set<Item>, l: Spine, t: Tree, r: Spine)
      requires Splaying(Snapshot(all), hdr, Right, l, t, r) && t.Bin?
      ensures t.item in all && t.item.left == Root(t.left) && t.item.right == Root(t.right)
      ensures t.left.Bin? ==> t.left.item in all
      ensures t.right.Bin? ==> t.right.item in all
    {
      LinkedIn(Snapshot(all), t);
    }

    /** SPLAY_MINMAX: moves the first (`d` is Left) or the last element to the root. */
    method SplayEnd(d: Dir)
      requires Valid() && root != null
      modifies this, items
      ensures Valid() && items == old(items) && Order() == old(Order())
      ensures shape.Bin? && Sub(shape, d).Tip?
    {
      var hdr := new Item(0);
      ghost var all := items + {hdr};
      var tail := hdr;
      ghost var l, t, r := End, shape, End;
      StartReady(hdr, all);
      while true
        invariant Splaying(Snapshot(all), hdr, Right, l, t, r) && root == Root(t) && t.Bin?
        invariant tail == Tail(hdr, if d.Right? then l else r) && (if d.Right? then r else l) == End
        invariant WholeOrder(l, t, r) == old(Order()) && items == old(items)
        decreases Elems(t)
      {
        Peek(hdr, all, l, t, r);
        var tmp := Kid(root, d);
        if tmp == null {
          break;
        }
        ghost var t0 := t;
        var stop;
        stop, tail, l, t, r := SplayTurn(d, true, tmp, hdr, tail, all, l, t, r);
        if stop {
          break;
        }
        Shrinks(d, Rotated(d, t0));
      }
      Finish(hdr, if d.Right? then tail else hdr, if d.Left? then tail else hdr, all, l, t, r);
    }

    ghost predicate Lacks(key: int)
      reads this
    {
      forall n :: n in items ==> n.key != key
    }

    /** SPLAY_FIND */
    method Find(key: int) returns (n: Item?, ghost turns: nat)
      requires Valid()
      modifies this, items
      ensures Valid() && items == old(items) && Order() == old(Order())
      ensures n == null <==> Lacks(key)
      ensures n != null ==> n in items && n.key == key && root == n
      ensures Performs(old(shape), FindOp(key), shape, turns)
    {
      n, turns := null, 0;
      if root != null {
        turns := Splay(key);
        if key == root.key {
          n := root;
        }
      }
    }

    /** Any number of accesses. Their turns are at most m (3 lg n + 2) + n lg n, for m accesses
        to n elements. */
    method FindAll(keys: seq<int>) returns (ghost turns: nat)
      requires Valid() && root != null
      modifies this, items
      ensures Valid() && items == old(items) && Order() == old(Order())
      ensures old(shape).Bin? && turns == Cost.TotalTurns(Keys(old(shape)), keys)
      ensures Keys(shape) == Cost.Accessed(Keys(old(shape)), keys)
      ensures var n := |old(Order())|;
        Pow2(turns) <= Times.Power(Cost.Charge(n), |keys|) * Times.Power(n, n)
      decreases |keys|
    {
      ghost var t := shape;
      turns := 0;
      Cost.Balance(Keys(t), keys);
      SizeCounts(t);
      if keys != [] {
        var first := Splay(keys[0]);
        var rest := FindAll(keys[1..]);
        turns := first + rest;
      }
    }

    /** The links of SPLAY_INSERT above a splayed root. */
    method Attach(elm: Item)
      requires Valid() && CutAt(shape, elm.key) && elm !in items && elm.key != shape.item.key
      modifies this, items, elm
      ensures Valid() && items == old(items) + {elm} && root == elm
      ensures shape == Topped(if elm.key < old(shape).item.key then Left else Right, elm, old(shape))
    {
      var d := if elm.key < root.key then Left else Right;
      ghost var all, t := items + {elm}, shape;
      LinkedFrame(Snapshot(items), Snapshot(all), t);
      ToppedLinked(Snapshot(all), d, elm, t);
      WriteKid(elm, d, Kid(root, d), all);
      WriteKid(elm, Flip(d), root, all);
      WriteKid(root, d, null, all);
      Install(elm, Topped(d, elm, t));
    }

    /** A splay and what it says about the key. */
    method SplayFor(key: int) returns (ghost turns: nat)
      requires Valid() && root != null
      modifies this, items
      ensures Valid() && items == old(items) && Order() == old(Order()) && CutAt(shape, key)
      ensures root == shape.item && (Lacks(key) <==> root.key != key)
      ensures Without(items, key) == if root.key == key then items - {root} else items
      ensures old(shape).Bin? && Keys(shape) == Cost.Splayed(Keys(old(shape)), key) && turns == Cost.Turns(Keys(old(shape)), key)
    {
      turns := Splay(key);
      CutKeys(shape, key);
    }

    /** SPLAY_INSERT: the element already holding the key, or null once `elm` is the root. */
    method Insert(elm: Item) returns (found: Item?, ghost turns: nat)
      requires Valid()
      modifies this, items, elm
      ensures Valid()
      ensures found == null <==> old(Lacks(elm.key))
      ensures found == null ==> items == old(items) + {elm} && root == elm
      ensures found != null ==> found in items && found.key == elm.key && items == old(items) && Order() == old(Order())
      ensures Performs(old(shape), InsertOp(elm.key), shape, turns)
    {
      turns := 0;
      if root == null {
        elm.left, elm.right := null, null;
        Install(elm, Bin(Tip, elm, Tip));
      } else {
        turns := SplayFor(elm.key);
        if elm.key == root.key {
          return root, turns;
        }
        KeysTopped(elm, shape);
        Attach(elm);
      }
      return null, turns;
    }

    /** SPLAY_REMOVE: `elm` itself if an element with its key was there, and null otherwise. */
    method Remove(elm: Item) returns (gone: Item?, ghost turns: nat)
      requires Valid()
      modifies this, items
      ensures Valid() && items == Without(old(items), elm.key)
      ensures gone == if old(Lacks(elm.key)) then null else elm
      ensures Performs(old(shape), RemoveOp(elm.key), shape, turns)
    {
      if root == null {
        return null, 0;
      }
      turns := SplayFor(elm.key);
      if elm.key == root.key {
        var more := Uproot(elm.key);
        return elm, turns + more;
      }
      return null, turns;
    }

    /** Takes out the root; the rest is joined around the last element of the left part. */
    method Uproot(key: int) returns (ghost turns: nat)
      requires Valid() && root != null && root.key == key
      modifies this, items
      ensures Valid() && items == old(items) - {old(root)}
      ensures old(shape).Bin? && Keys(shape) == Cost.Uprooted(Keys(old(shape)), key) && turns == Cost.UprootTurns(Keys(old(shape)), key)
    {
      ghost var t := shape;
      OrderedDistinct(t);
      if root.left == null {
        turns := 0;
        Narrow(t, t.right);
        Install(root.right, t.right);
      } else {
        var tmp := root.right;
        turns := SplayLeft(t, key);
        Join(tmp, t, key);
      }
    }

    /** Splays the left part alone; the right part is not touched. */
    method SplayLeft(ghost t: Tree, key: int) returns (ghost turns: nat)
      requires Valid() && t == shape && t.Bin? && t.left.Bin?
      modifies this, items
      ensures Valid() && items == Elems(t.left) && CutAt(shape, key)
      ensures Linked(Snapshot(Elems(t.right)), t.right)
      ensures Keys(shape) == Cost.Splayed(Keys(t.left), key) && turns == Cost.Turns(Keys(t.left), key)
    {
      OrderedDistinct(t);
      Narrow(t, t.left);
      Narrow(t, t.right);
      ghost var aside := Elems(t.right);
      Install(root.left, t.left);
      assert Linked(Snapshot(aside), t.right);
      label L:
      turns := Splay(key);
      assert unchanged@L(aside);
    }

    lemma Narrow(t: Tree, s: Tree)
      requires Is(t) && t.Bin? && (s == t.left || s == t.right)
      ensures Linked(Snapshot(Elems(s)), s) && Ordered(s)
    {
      LinkedFrame(Snapshot(items), Snapshot(Elems(s)), s);
    }

    method Join(tmp: Item?, ghost t: Tree, ghost key: int)
      requires Valid() && t.Bin? && Ordered(t) && t.item.key == key
      requires items == Elems(t.left) && CutAt(shape, key)
      requires tmp == Root(t.right) && Linked(Snapshot(Elems(t.right)), t.right)
      modifies this, items
      ensures Valid() && items == Elems(t.left) + Elems(t.right)
      ensures old(shape).Bin? && shape == Bin(old(shape).left, old(shape).item, t.right)
    {
      ghost var s, all := shape, Elems(t.left) + Elems(t.right);
      LastAtRoot(s, t, key);
      LinkedFrame(Snapshot(items), Snapshot(all), s);
      LinkedFrame(Snapshot(Elems(t.right)), Snapshot(all), t.right);
      JoinLinked(Snapshot(all), s, t.right);
      WriteKid(root, Right, tmp, all);
      Install(root, Bin(s.left, s.item, t.right));
    }

    // ---------- walking ----------

    /** SPLAY_NEXT: `elm` comes to the root, and the result is the element after it. */
    method Next(elm: Item) returns (next: Item?)
      requires Valid() && elm in items
      modifies this, items
      ensures Valid() && items == old(items) && Order() == old(Order())
      ensures Follows(Order(), elm, next)
      ensures next != null ==> next in items
    {
      var _ := Splay(elm.key);
      KeyAtRoot(shape, elm);
      NextOfRoot(shape);
      next := null;
      if elm.right != null {
        next := elm.right;
        ghost var s := shape.right;
        LinkedIn(Snapshot(items), shape);
        while next.left != null
          invariant next != null && s.Bin? && s.item == next && Linked(Snapshot(items), s)
          invariant InOrder(s)[0] == InOrder(shape.right)[0]
          modifies {}
          decreases s
        {
          next, s := next.left, s.left;
        }
        LinkedIn(Snapshot(items), s);
      }
    }

    /** SPLAY_MIN (`d` is Left) and SPLAY_MAX. */
    method MinMax(d: Dir) returns (n: Item?)
      requires Valid()
      modifies this, items
      ensures Valid() && items == old(items) && Order() == old(Order())
      ensures n == null <==> Order() == []
      ensures n != null ==> n in items && n == if d.Left? then Order()[0] else Order()[|Order()| - 1]
    {
      if root == null {
        return null;
      }
      SplayEnd(d);
      EndAtRoot(d, shape);
      return root;
    }
  }

  // ---------- whole runs ----------

  ghost function KeysOf(ns: set<Item>): set<int> {
    set n | n in ns :: n.key
  }

  lemma KeysGrow(ns: set<Item>, n: Item)
    ensures KeysOf(ns + {n}) == KeysOf(ns) + {n.key}
  {
    forall k | k in KeysOf(ns) + {n.key} ensures k in KeysOf(ns + {n}) {
      if k == n.key {
        assert n in ns + {n};
      } else {
        var m :| m in ns && m.key == k;
        assert m in ns + {n};
      }
    }
  }

  lemma KeysShrink(ns: set<Item>, key: int)
    ensures KeysOf(Without(ns, key)) == KeysOf(ns) - {key}
  {
    var rest := Without(ns, key);
    forall k | k in KeysOf(ns) - {key} ensures k in KeysOf(rest) {
      var m :| m in ns && m.key == k;
      assert m in rest;
    }
  }

  method InsertKey(tree: SplayTree, key: int) returns (was: bool, ghost turns: nat)
    requires tree.Valid()
    modifies tree, tree.items
    ensures tree.Valid() && fresh(tree.items - old(tree.items))
    ensures was <==> key in old(KeysOf(tree.items))
    ensures KeysOf(tree.items) == old(KeysOf(tree.items)) + {key}
    ensures Performs(old(tree.shape), InsertOp(key), tree.shape, turns)
  {
    var elm := new Item(key);
    KeysGrow(tree.items, elm);
    var found;
    found, turns := tree.Insert(elm);
    was := found != null;
  }

  method RemoveKey(tree: SplayTree, key: int) returns (was: bool, ghost turns: nat)
    requires tree.Valid()
    modifies tree, tree.items
    ensures tree.Valid() && tree.items <= old(tree.items)
    ensures was <==> key in old(KeysOf(tree.items))
    ensures KeysOf(tree.items) == old(KeysOf(tree.items)) - {key}
    ensures Performs(old(tree.shape), RemoveOp(key), tree.shape, turns)
  {
    var elm := new Item(key);
    KeysShrink(tree.items, key);
    var gone;
    gone, turns := tree.Remove(elm);
    was := gone != null;
  }

  /** One client call on the tree; `was` tells whether the key was there before. */
  method Apply(tree: SplayTree, op: Op) returns (was: bool, ghost turns: nat)
    requires tree.Valid()
    modifies tree, tree.items
    ensures tree.Valid() && fresh(tree.items - old(tree.items))
    ensures was <==> op.key in old(KeysOf(tree.items))
    ensures KeysOf(tree.items) == SetAfter(old(KeysOf(tree.items)), op)
    ensures Performs(old(tree.shape), op, tree.shape, turns)
  {
    match op {
      case InsertOp(k) =>
        was, turns := InsertKey(tree, k);
      case RemoveOp(k) =>
        was, turns := RemoveKey(tree, k);
      case FindOp(k) =>
        var n;
        n, turns := tree.Find(k);
        was := n != null;
    }
  }

  /** Over any run the tree answers like the plain set, and its shape and the turns of all its
      splays together are those of the run on the tree of its keys. */
  method Run(tree: SplayTree, ops: seq<Op>) returns (answers: seq<bool>, ghost turns: nat)
    requires tree.Valid()
    modifies tree, tree.items
    ensures tree.Valid() && fresh(tree.items - old(tree.items))
    ensures answers == SetAnswers(old(KeysOf(tree.items)), ops)
    ensures KeysOf(tree.items) == SetRun(old(KeysOf(tree.items)), ops)
    ensures Keys(tree.shape) == Cost.RunTree(Keys(old(tree.shape)), ops) && turns == Cost.RunTurns(Keys(old(tree.shape)), ops)
    decreases |ops|
  {
    if ops == [] {
      answers, turns := [], 0;
    } else {
      var was, first := Apply(tree, ops[0]);
      var rest, more := Run(tree, ops[1..]);
      answers, turns := [was] + rest, first + more;
    }
  }

  /** The Balance Theorem on the heap: m calls on an empty tree, n of them insertions, take at
      most m (6 lg (n + 1) + 4) turns in all. */
  method Balanced(ops: seq<Op>) returns (answers: seq<bool>, ghost turns: nat)
    ensures answers == SetAnswers({}, ops) && turns == Cost.RunTurns(Cost.Tip, ops)
    ensures Pow2(turns) <= Times.Power(Cost.Fee(Cost.Inserts(ops) + 1), |ops|)
  {
    var tree := new SplayTree();
    assert KeysOf(tree.items) == {};
    answers, turns := Run(tree, ops);
    Cost.RunBalance(ops);
  }
}
