/** The amortised cost of top-down splaying: the Balance Theorem that `lib/tree.h` states.
    The potential of a tree is kept as the product of the sizes of its subtrees, whose
    logarithm is the usual sum of ranks, so that all is said in whole numbers. */
module SplayCost {
  import opened KeySets
  import opened Powers
  import opened Sides
  import opened Times

  // ---------- what the operations do to a tree of keys ----------

  datatype Tree = Tip | Bin(left: Tree, key: int, right: Tree)

  function Mk(d: Dir, near: Tree, key: int, far: Tree): Tree {
    if d.Left? then Bin(near, key, far) else Bin(far, key, near)
  }

  function Sub(t: Tree, d: Dir): Tree
    requires t.Bin?
  {
    if d.Left? then t.left else t.right
  }

  function Rotated(d: Dir, t: Tree): Tree
    requires t.Bin? && Sub(t, d).Bin?
  {
    var y := Sub(t, d);
    Mk(d, Sub(y, d), y.key, Mk(d, Sub(y, Flip(d)), t.key, Sub(t, Flip(d))))
  }

  /** On the way `d` the key lies beyond `at`. */
  predicate Beyond(d: Dir, key: int, at: int) {
    if d.Left? then key < at else at < key
  }

  function Way(t: Tree, key: int): Dir
    requires t.Bin?
  {
    if key < t.key then Left else Right
  }

  /** The root of `u` is hung on its side tree, and `s` is what the rest came to. */
  function Hung(d: Dir, u: Tree, s: Tree): (r: Tree)
    requires u.Bin? && s.Bin?
    ensures r.Bin?
  {
    Mk(d, Sub(s, d), s.key, Mk(d, Sub(s, Flip(d)), u.key, Sub(u, Flip(d))))
  }

  /** The tree that SPLAY makes. */
  function Splayed(t: Tree, key: int): (r: Tree)
    requires t.Bin?
    ensures r.Bin?
  {
    if key == t.key then t
    else
      var d := Way(t, key);
      var y := Sub(t, d);
      if y.Tip? then t
      else if !Beyond(d, key, y.key) then Hung(d, t, Splayed(y, key))
      else if Sub(y, d).Tip? then Rotated(d, t)
      else Hung(d, Rotated(d, t), Splayed(Sub(y, d), key))
  }

  /** The turns of its loop. */
  function Turns(t: Tree, key: int): nat
    requires t.Bin?
  {
    if key == t.key then 0
    else
      var d := Way(t, key);
      var y := Sub(t, d);
      if y.Tip? then 1
      else if !Beyond(d, key, y.key) then 1 + Turns(y, key)
      else if Sub(y, d).Tip? then 1
      else 1 + Turns(Sub(y, d), key)
  }

  /** A new root above a splayed tree. */
  function Topped(t: Tree, key: int): Tree
    requires t.Bin?
  {
    var d := Way(t, key);
    Mk(d, Sub(t, d), key, Mk(d, Tip, t.key, Sub(t, Flip(d))))
  }

  function Inserted(t: Tree, key: int): Tree {
    if t.Tip? then Bin(Tip, key, Tip)
    else
      var s := Splayed(t, key);
      if s.key == key then s else Topped(s, key)
  }

  /** The root is gone, and the rest is joined. */
  function Uprooted(t: Tree, key: int): Tree
    requires t.Bin?
  {
    if t.left.Tip? then t.right
    else
      var s := Splayed(t.left, key);
      Bin(s.left, s.key, t.right)
  }

  function Removed(t: Tree, key: int): Tree {
    if t.Tip? then t
    else
      var s := Splayed(t, key);
      if s.key == key then Uprooted(s, key) else s
  }

  /** The tree after one call, and the turns of its splays. */
  function After(t: Tree, op: Op): Tree {
    match op
    case InsertOp(k) => Inserted(t, k)
    case RemoveOp(k) => Removed(t, k)
    case FindOp(k) => if t.Tip? then t else Splayed(t, k)
  }

  function UprootTurns(t: Tree, key: int): nat
    requires t.Bin?
  {
    if t.left.Tip? then 0 else Turns(t.left, key)
  }

  function OpTurns(t: Tree, op: Op): nat {
    if t.Tip? then 0
    else
      var s := Splayed(t, op.key);
      Turns(t, op.key) + if op.RemoveOp? && s.key == op.key then UprootTurns(s, op.key) else 0
  }

  /** The tree after a run of calls, and the turns of all their splays. */
  function RunTree(t: Tree, ops: seq<Op>): Tree
    decreases |ops|
  {
    if ops == [] then t else RunTree(After(t, ops[0]), ops[1..])
  }

  function RunTurns(t: Tree, ops: seq<Op>): nat
    decreases |ops|
  {
    if ops == [] then 0 else OpTurns(t, ops[0]) + RunTurns(After(t, ops[0]), ops[1..])
  }

  function Inserts(ops: seq<Op>): nat {
    if ops == [] then 0 else (if ops[0].InsertOp? then 1 else 0) + Inserts(ops[1..])
  }

  // ---------- sizes and potentials ----------

  function Size(t: Tree): nat {
    if t.Tip? then 0 else Size(t.left) + 1 + Size(t.right)
  }

  function Potential(t: Tree): nat {
    if t.Tip? then 1 else T(Size(t), T(Potential(t.left), Potential(t.right)))
  }

  lemma {:induction false} SizeMk(d: Dir, near: Tree, key: int, far: Tree)
    ensures Size(Mk(d, near, key, far)) == Size(near) + 1 + Size(far)
    ensures Potential(Mk(d, near, key, far)) == T(Size(near) + 1 + Size(far), T(Potential(near), Potential(far)))
  {
    Comm(Potential(near), Potential(far));
  }

  lemma {:induction false} SizeSub(d: Dir, t: Tree)
    requires t.Bin?
    ensures Size(t) == Size(Sub(t, d)) + 1 + Size(Sub(t, Flip(d)))
    ensures Potential(t) == T(Size(t), T(Potential(Sub(t, d)), Potential(Sub(t, Flip(d)))))
  {
    SizeMk(d, Sub(t, d), t.key, Sub(t, Flip(d)));
  }

  lemma {:induction false} SplayedSize(t: Tree, key: int)
    requires t.Bin?
    ensures Size(Splayed(t, key)) == Size(t)
  {
    if key != t.key {
      var d := Way(t, key);
      var y := Sub(t, d);
      SizeSub(d, t);
      if y.Bin? {
        SizeSub(d, y);
        if !Beyond(d, key, y.key) {
          SplayedSize(y, key);
          HungSize(d, t, Splayed(y, key));
        } else {
          SizeMk(d, Sub(y, Flip(d)), t.key, Sub(t, Flip(d)));
          SizeMk(d, Sub(y, d), y.key, Mk(d, Sub(y, Flip(d)), t.key, Sub(t, Flip(d))));
          if Sub(y, d).Bin? {
            SplayedSize(Sub(y, d), key);
            HungSize(d, Rotated(d, t), Splayed(Sub(y, d), key));
          }
        }
      }
    }
  }

  lemma {:induction false} HungSize(d: Dir, u: Tree, s: Tree)
    requires u.Bin? && s.Bin?
    ensures Size(Hung(d, u, s)) == Size(s) + 1 + Size(Sub(u, Flip(d)))
  {
    var far := Mk(d, Sub(s, Flip(d)), u.key, Sub(u, Flip(d)));
    SizeSub(d, s);
    SizeMk(d, Sub(s, Flip(d)), u.key, Sub(u, Flip(d)));
    SizeMk(d, Sub(s, d), s.key, far);
  }

  // ---------- one turn ----------

  /** The potential of a splayed tree without its root. */
  function Parts(s: Tree): nat
    requires s.Bin?
  {
    T(Potential(s.left), Potential(s.right))
  }

  /** The size of the element that a turn hangs on a side tree. */
  function HungTo(d: Dir, u: Tree, s: Tree): nat
    requires u.Bin? && s.Bin?
  {
    Size(Sub(s, Flip(d))) + 1 + Size(Sub(u, Flip(d)))
  }

  lemma {:induction false} PartsSub(d: Dir, s: Tree)
    requires s.Bin?
    ensures Parts(s) == T(Potential(Sub(s, d)), Potential(Sub(s, Flip(d))))
  {
    Comm(Potential(s.left), Potential(s.right));
  }

  lemma {:induction false} HungParts(d: Dir, u: Tree, s: Tree)
    requires u.Bin? && s.Bin?
    ensures Parts(Hung(d, u, s)) == T(T(HungTo(d, u, s), Potential(Sub(u, Flip(d)))), Parts(s))
  {
    var f, q := HungTo(d, u, s), Potential(Sub(u, Flip(d)));
    var near, far := Potential(Sub(s, d)), Potential(Sub(s, Flip(d)));
    SizeMk(d, Sub(s, Flip(d)), u.key, Sub(u, Flip(d)));
    PartsSub(d, s);
    PartsSub(d, Hung(d, u, s));
    HungProduct(near, far, f, q);
  }

  lemma {:induction false} HungProduct(near: nat, far: nat, f: nat, q: nat)
    ensures T(near, T(f, T(far, q))) == T(T(f, q), T(near, far))
  {
    Comm(far, q);
    Assoc(f, q, far);
    Assoc(near, T(f, q), far);
    Comm(near, T(f, q));
    Assoc(T(f, q), near, far);
  }

  /** What a turn that links without a rotation does. */
  lemma {:induction false} ZigFactors(d: Dir, t: Tree, s: Tree)
    requires t.Bin? && s.Bin?
    ensures var q := Potential(Sub(t, Flip(d)));
      && Parts(Hung(d, t, s)) == T(T(HungTo(d, t, s), q), Parts(s))
      && Potential(t) == T(Size(t), T(Potential(Sub(t, d)), q))
  {
    HungParts(d, t, s);
    SizeSub(d, t);
  }

  /** The potential, seen from the child on side `d`. */
  lemma {:induction false} PotentialTwo(d: Dir, t: Tree)
    requires t.Bin? && Sub(t, d).Bin?
    ensures var y := Sub(t, d);
      Potential(t) == T(T(Size(t), Size(y)), T(Potential(Sub(y, d)), T(Potential(Sub(y, Flip(d))), Potential(Sub(t, Flip(d))))))
  {
    var y := Sub(t, d);
    SizeSub(d, t);
    SizeSub(d, y);
    TwoLevels(Size(t), Size(y), Potential(Sub(y, d)), Potential(Sub(y, Flip(d))), Potential(Sub(t, Flip(d))));
  }

  lemma {:induction false} RotatedSize(d: Dir, t: Tree)
    requires t.Bin? && Sub(t, d).Bin?
    ensures var y, x := Sub(t, d), Sub(Rotated(d, t), Flip(d));
      && Size(x) == Size(Sub(y, Flip(d))) + 1 + Size(Sub(t, Flip(d)))
      && Potential(x) == T(Size(x), T(Potential(Sub(y, Flip(d))), Potential(Sub(t, Flip(d)))))
  {
    var y := Sub(t, d);
    SizeMk(d, Sub(y, Flip(d)), t.key, Sub(t, Flip(d)));
  }

  /** What a turn that rotates and links does. */
  lemma {:induction false} ZigZigFactors(d: Dir, t: Tree, s: Tree)
    requires t.Bin? && Sub(t, d).Bin? && s.Bin?
    ensures var y, u := Sub(t, d), Rotated(d, t);
      var fx, fy := Size(Sub(u, Flip(d))), HungTo(d, u, s);
      var q := T(Potential(Sub(y, Flip(d))), Potential(Sub(t, Flip(d))));
      && fx == Size(Sub(y, Flip(d))) + 1 + Size(Sub(t, Flip(d)))
      && Parts(Hung(d, u, s)) == T(T(T(fy, fx), q), Parts(s))
      && Potential(t) == T(T(Size(t), Size(y)), T(Potential(Sub(y, d)), q))
  {
    var y, u := Sub(t, d), Rotated(d, t);
    var q := T(Potential(Sub(y, Flip(d))), Potential(Sub(t, Flip(d))));
    RotatedSize(d, t);
    HungParts(d, u, s);
    Assoc(HungTo(d, u, s), Size(Sub(u, Flip(d))), q);
    PotentialTwo(d, t);
  }

  lemma {:induction false} TwoLevels(n: nat, y: nat, p: nat, q: nat, r: nat)
    ensures T(n, T(T(y, T(p, q)), r)) == T(T(n, y), T(p, T(q, r)))
  {
    Assoc(y, T(p, q), r);
    Assoc(p, q, r);
    Assoc(n, y, T(p, T(q, r)));
  }

  // ---------- the bound ----------

  /** What is to be shown of a tree of size `n` and potential `p` that became `parts` in
      lg `k` turns: the turns are paid by the potential, up to 2 lg n + 2. */
  ghost predicate Bounded(k: nat, parts: nat, n: nat, p: nat) {
    T(k, parts) <= T(4, T(T(n, n), p))
  }

  /** The bound of the rest, carried over turns that multiply `k` by `c`: `f` are the new sizes
      and `m` the old ones, and `q` is what the turns do not touch. */
  lemma {:induction false} CarryTurn(k: nat, parts: nat, b: nat, p: nat, c: nat, f: nat, q: nat, n: nat, m: nat)
    requires Bounded(k, parts, b, p) && T(c, T(T(b, b), f)) <= T(T(n, n), m)
    ensures Bounded(T(c, k), T(T(f, q), parts), n, T(m, T(p, q)))
  {
    var bb, nn, fq, pq := T(b, b), T(n, n), T(f, q), T(p, q);
    Cross(c, k, fq, parts);
    Mono(T(c, fq), T(c, fq), T(k, parts), T(4, T(bb, p)));
    Pull(4, T(c, fq), T(bb, p));
    Assoc(c, fq, T(bb, p));
    Cross(f, q, bb, p);
    Comm(f, bb);
    Comm(q, p);
    Assoc(c, T(bb, f), pq);
    Mono(T(c, T(bb, f)), T(nn, m), pq, pq);
    Assoc(nn, m, pq);
    Mono(4, 4, T(T(c, fq), T(bb, p)), T(nn, T(m, pq)));
  }

  lemma {:induction false} Compose(f1: nat, q1: nat, f2: nat, q2: nat, parts: nat, m1: nat, m2: nat, p: nat)
    ensures T(T(f1, q1), T(T(f2, q2), parts)) == T(T(T(f1, f2), T(q2, q1)), parts)
    ensures T(m1, T(T(m2, T(p, q2)), q1)) == T(T(m1, m2), T(p, T(q2, q1)))
  {
    Assoc(T(f1, q1), T(f2, q2), parts);
    Cross(f1, q1, f2, q2);
    Comm(q1, q2);
    TwoLevels(m1, m2, p, q2, q1);
  }

  /** The rest behind some turns. */
  ghost predicate RestOf(s: Tree, rest: Tree, k: nat) {
    s.Bin? && rest.Bin? && Size(s) == Size(rest) && Bounded(k, Parts(s), Size(rest), Potential(rest))
  }

  lemma {:induction false} ZigZigSizes(b: nat, fx: nat, fy: nat, y: nat, n: nat)
    requires fy <= n && b <= y && b + fx <= n
    ensures T(2, T(T(b, b), T(fy, fx))) <= T(T(n, n), T(n, y))
  {
    Halves(b, fx, n);
    Cross(b, b, fx, fy);
    Comm(fx, fy);
    Mono(b, y, fy, n);
    Comm(y, n);
    Assoc(2, T(b, fx), T(b, fy));
    Mono(T(2, T(b, fx)), T(n, n), T(b, fy), T(n, y));
  }

  lemma {:induction false} ZigZigBound(d: Dir, t: Tree, s: Tree, k: nat)
    requires t.Bin? && Sub(t, d).Bin? && RestOf(s, Sub(Sub(t, d), d), k)
    ensures Bounded(T(2, k), Parts(Hung(d, Rotated(d, t), s)), Size(t), Potential(t))
  {
    var y, u := Sub(t, d), Rotated(d, t);
    var b, fx, fy := Size(Sub(y, d)), Size(Sub(u, Flip(d))), HungTo(d, u, s);
    var q := T(Potential(Sub(y, Flip(d))), Potential(Sub(t, Flip(d))));
    ZigZigFactors(d, t, s);
    SizeSub(d, t);
    SizeSub(d, y);
    SizeSub(d, s);
    ZigZigSizes(b, fx, fy, Size(y), Size(t));
    CarryTurn(k, Parts(s), b, Potential(Sub(y, d)), 2, T(fy, fx), q, Size(t), T(Size(t), Size(y)));
  }

  lemma {:induction false} ZigZagSizes(w: nat, fx: nat, fy: nat, a: nat, n: nat)
    requires fx + fy <= n && w <= a && w <= n
    ensures T(4, T(T(w, w), T(fx, fy))) <= T(T(n, n), T(n, a))
  {
    Halves(fx, fy, n);
    Mono(w, n, w, a);
    Comm(T(w, w), T(fx, fy));
    Assoc(4, T(fx, fy), T(w, w));
    Mono(T(4, T(fx, fy)), T(n, n), T(w, w), T(n, a));
  }

  lemma {:induction false} ZigZagBound(d: Dir, t: Tree, s: Tree, k: nat)
    requires t.Bin? && Sub(t, d).Bin? && RestOf(s, Sub(Sub(t, d), Flip(d)), k)
    ensures Bounded(T(4, k), Parts(Hung(d, t, Hung(Flip(d), Sub(t, d), s))), Size(t), Potential(t))
  {
    var y, e := Sub(t, d), Flip(d);
    var s1 := Hung(e, y, s);
    var w, fx, fy := Sub(y, e), HungTo(d, t, s1), HungTo(e, y, s);
    var qx, qy := Potential(Sub(t, e)), Potential(Sub(y, d));
    ZigFactors(d, t, s1);
    ZigFactors(e, y, s);
    Compose(fx, qx, fy, qy, Parts(s), Size(t), Size(y), Potential(w));
    SizeSub(d, t);
    SizeSub(d, y);
    SizeSub(d, s);
    ZigZagSizes(Size(w), fx, fy, Size(y), Size(t));
    CarryTurn(k, Parts(s), Size(w), Potential(w), 4, T(fx, fy), T(qy, qx), Size(t), T(Size(t), Size(y)));
  }

  lemma {:induction false} ZigZagZagSizes(b: nat, fx: nat, fw: nat, fy: nat, a: nat, w: nat, n: nat)
    requires fx + fw <= n && fy + b <= a && a <= n && b <= w
    ensures T(4, T(T(b, b), T(fx, T(fw, fy)))) <= T(T(n, n), T(n, T(a, w)))
  {
    var g := T(fx, fw);
    Halves(fx, fw, n);
    InnerSizes(b, fy, a, w, n);
    Assoc(fx, fw, fy);
    Comm(g, fy);
    Cross(b, b, fy, g);
    Comm(T(b, fy), T(b, g));
    Comm(b, g);
    Assoc(g, b, T(b, fy));
    Assoc(4, g, T(b, T(b, fy)));
    Mono(T(4, g), T(n, n), T(b, T(b, fy)), T(n, T(a, w)));
  }

  lemma {:induction false} InnerSizes(b: nat, fy: nat, a: nat, w: nat, n: nat)
    requires fy + b <= a <= n && b <= w
    ensures T(b, T(b, fy)) <= T(n, T(a, w))
  {
    Halves(b, fy, a);
    Mono(1, 4, T(b, fy), T(b, fy));
    Is(1, T(b, fy));
    Mono(a, n, a, a);
    Mono(b, w, T(b, fy), T(n, a));
    Comm(w, T(n, a));
    Assoc(n, a, w);
  }

  lemma {:induction false} ZigZagZagBound(d: Dir, t: Tree, s: Tree, k: nat)
    requires t.Bin? && Sub(t, d).Bin? && Sub(Sub(t, d), Flip(d)).Bin?
    requires RestOf(s, Sub(Sub(Sub(t, d), Flip(d)), Flip(d)), k)
    ensures Bounded(T(4, k), Parts(Hung(d, t, Hung(Flip(d), Rotated(Flip(d), Sub(t, d)), s))), Size(t), Potential(t))
  {
    var y, e := Sub(t, d), Flip(d);
    var w, u := Sub(y, e), Rotated(e, y);
    var s1 := Hung(e, u, s);
    var b, fx, fw, fy := Sub(w, e), HungTo(d, t, s1), HungTo(e, u, s), Size(Sub(u, d));
    var qx, q := Potential(Sub(t, e)), T(Potential(Sub(w, d)), Potential(Sub(y, d)));
    ZigFactors(d, t, s1);
    ZigZigFactors(e, y, s);
    Compose(fx, qx, T(fw, fy), q, Parts(s), Size(t), T(Size(y), Size(w)), Potential(b));
    SizeSub(d, t);
    SizeSub(d, y);
    SizeSub(d, w);
    SizeSub(d, s);
    ZigZagZagSizes(Size(b), fx, fw, fy, Size(y), Size(w), Size(t));
    CarryTurn(k, Parts(s), Size(b), Potential(b), 4, T(fx, T(fw, fy)), T(q, qx), Size(t), T(Size(t), T(Size(y), Size(w))));
  }

  // ---------- where the loop ends ----------

  /** The loop ends at this tree. */
  predicate Stopping(t: Tree, key: int)
    requires t.Bin?
  {
    key == t.key || Sub(t, Way(t, key)).Tip?
    || (Beyond(Way(t, key), key, Sub(t, Way(t, key)).key) && Sub(Sub(t, Way(t, key)), Way(t, key)).Tip?)
  }

  lemma {:induction false} AtLeast(n: nat, p: nat)
    requires n >= 1
    ensures p <= T(n, p)
  {
    Mono(1, n, p, p);
    Is(1, p);
  }

  lemma {:induction false} RotatedParts(d: Dir, t: Tree)
    requires t.Bin? && Sub(t, d).Bin? && Sub(Sub(t, d), d).Tip?
    ensures var y := Sub(t, d);
      Parts(Rotated(d, t))
        == T(Size(Sub(y, Flip(d))) + 1 + Size(Sub(t, Flip(d))), T(Potential(Sub(y, Flip(d))), Potential(Sub(t, Flip(d)))))
  {
    var y, u := Sub(t, d), Rotated(d, t);
    SizeMk(d, Sub(y, Flip(d)), t.key, Sub(t, Flip(d)));
    PartsSub(d, u);
    Is(1, Potential(Sub(u, Flip(d))));
  }

  lemma {:induction false} RotatedStop(d: Dir, t: Tree)
    requires t.Bin? && Sub(t, d).Bin? && Sub(Sub(t, d), d).Tip?
    ensures Parts(Rotated(d, t)) <= Potential(t)
  {
    var y := Sub(t, d);
    var q := T(Potential(Sub(y, Flip(d))), Potential(Sub(t, Flip(d))));
    RotatedParts(d, t);
    PotentialTwo(d, t);
    SizeSub(d, t);
    SizeSub(d, y);
    StopProduct(Size(y), Size(t), Size(Sub(y, Flip(d))) + 1 + Size(Sub(t, Flip(d))), Potential(Sub(y, d)), q);
  }

  lemma {:induction false} StopProduct(y: nat, n: nat, f: nat, e: nat, q: nat)
    requires 1 <= y && f <= n && 1 <= e
    ensures T(f, q) <= T(T(n, y), T(e, q))
  {
    AtLeast(y, n);
    Comm(y, n);
    AtLeast(e, q);
    Mono(f, T(n, y), q, T(e, q));
  }

  lemma {:induction false} StopParts(t: Tree, key: int)
    requires t.Bin? && Stopping(t, key)
    ensures Parts(Splayed(t, key)) <= Potential(t) && Turns(t, key) <= 1
  {
    if Splayed(t, key) == t {
      AtLeast(Size(t), Parts(t));
    } else {
      RotatedStop(Way(t, key), t);
    }
  }

  lemma {:induction false} Cheap(k: nat, parts: nat, n: nat, p: nat)
    requires k <= 4 && parts <= p && n >= 1
    ensures Bounded(k, parts, n, p)
  {
    Mono(k, 4, parts, p);
    AtLeast(n, n);
    AtLeast(T(n, n), p);
    Mono(4, 4, p, T(T(n, n), p));
  }

  lemma {:induction false} ZigStopBound(d: Dir, t: Tree, s: Tree, k: nat)
    requires t.Bin? && Sub(t, d).Bin? && s.Bin? && Size(s) == Size(Sub(t, d))
    requires Parts(s) <= Potential(Sub(t, d)) && k <= 4
    ensures Bounded(k, Parts(Hung(d, t, s)), Size(t), Potential(t))
  {
    var q := Potential(Sub(t, Flip(d)));
    ZigFactors(d, t, s);
    SizeSub(d, t);
    SizeSub(d, s);
    Mono(HungTo(d, t, s), Size(t), q, q);
    Mono(T(HungTo(d, t, s), q), T(Size(t), q), Parts(s), Potential(Sub(t, d)));
    Assoc(Size(t), q, Potential(Sub(t, d)));
    Comm(q, Potential(Sub(t, d)));
    Cheap(k, Parts(Hung(d, t, s)), Size(t), Potential(t));
  }

  // ---------- the theorems ----------

  lemma {:induction false} Doubled(n: nat)
    ensures Pow2(n + 1) == T(2, Pow2(n)) && Pow2(n + 2) == T(4, Pow2(n))
  {
    Is(2, Pow2(n));
    Is(4, Pow2(n));
  }

  /** A zig that is not the last turn is followed by a turn on the other way. */
  lemma {:induction false} ZigBound(t: Tree, key: int)
    requires t.Bin? && !Stopping(t, key)
    requires var y := Sub(t, Way(t, key)); !Beyond(Way(t, key), key, y.key) && !Stopping(y, key)
    ensures Bounded(Pow2(Turns(t, key)), Parts(Splayed(t, key)), Size(t), Potential(t))
    decreases t, 0
  {
    var d := Way(t, key);
    var y, e := Sub(t, d), Flip(d);
    assert Way(y, key) == e;
    var w := Sub(y, e);
    if Beyond(e, key, w.key) {
      var b := Sub(w, e);
      Amortised(b, key);
      SplayedSize(b, key);
      ZigZagZagBound(d, t, Splayed(b, key), Pow2(Turns(b, key)));
      Doubled(Turns(b, key));
    } else {
      Amortised(w, key);
      SplayedSize(w, key);
      ZigZagBound(d, t, Splayed(w, key), Pow2(Turns(w, key)));
      Doubled(Turns(w, key));
    }
  }

  /** The turns of a splay are paid by the potential that it releases, up to 2 lg n + 2. */
  lemma {:induction false} Amortised(t: Tree, key: int)
    requires t.Bin?
    ensures Bounded(Pow2(Turns(t, key)), Parts(Splayed(t, key)), Size(t), Potential(t))
    decreases t, 1
  {
    if Stopping(t, key) {
      StopParts(t, key);
      Pow2Mono(Turns(t, key), 1);
      Cheap(Pow2(Turns(t, key)), Parts(Splayed(t, key)), Size(t), Potential(t));
    } else {
      var d := Way(t, key);
      var y := Sub(t, d);
      if Beyond(d, key, y.key) {
        var b := Sub(y, d);
        Amortised(b, key);
        SplayedSize(b, key);
        ZigZigBound(d, t, Splayed(b, key), Pow2(Turns(b, key)));
        Doubled(Turns(b, key));
      } else if Stopping(y, key) {
        StopParts(y, key);
        SplayedSize(y, key);
        Pow2Mono(Turns(t, key), 2);
        ZigStopBound(d, t, Splayed(y, key), Pow2(Turns(t, key)));
      } else {
        ZigBound(t, key);
      }
    }
  }

  /** Four times the cube of `n`. */
  function Charge(n: nat): nat {
    T(4, T(n, T(n, n)))
  }

  /** The turns on the way from `t` to `r`, and the potential of `r`, are paid by the potential
      of `t` and lg `c`. */
  ghost predicate Paid(turns: nat, t: Tree, c: nat, r: Tree) {
    T(Pow2(turns), Potential(r)) <= T(c, Potential(t))
  }

  /** The amortised bound of one splay: it is paid by 3 lg n + 2. */
  lemma {:induction false} SplayBound(t: Tree, key: int)
    requires t.Bin?
    ensures Paid(Turns(t, key), t, Charge(Size(t)), Splayed(t, key))
  {
    var k, s, n, p := Pow2(Turns(t, key)), Splayed(t, key), Size(t), Potential(t);
    Amortised(t, key);
    SplayedSize(t, key);
    Assoc(k, n, Parts(s));
    Comm(k, n);
    Assoc(n, k, Parts(s));
    Mono(n, n, T(k, Parts(s)), T(4, T(T(n, n), p)));
    Pull(4, n, T(T(n, n), p));
    Assoc(n, T(n, n), p);
    Assoc(4, T(n, T(n, n)), p);
  }

  lemma {:induction false} PaidThen(a: nat, t: Tree, c: nat, s: Tree, b: nat, e: nat, r: Tree)
    requires Paid(a, t, c, s) && Paid(b, s, e, r)
    ensures Paid(a + b, t, T(c, e), r)
  {
    Pow2Add(a, b);
    Is(Pow2(a), Pow2(b));
    Chain(Pow2(a), Pow2(b), Potential(r), e, Potential(s), c, Potential(t));
  }

  lemma {:induction false} PaidMore(turns: nat, t: Tree, c: nat, more: nat, r: Tree)
    requires Paid(turns, t, c, r) && c <= more
    ensures Paid(turns, t, more, r)
  {
    Mono(c, more, Potential(t), Potential(t));
  }

  /** The tree after a sequence of accesses, and all their turns. */
  function Accessed(t: Tree, keys: seq<int>): (r: Tree)
    requires t.Bin?
    ensures r.Bin?
    decreases |keys|
  {
    if keys == [] then t else Accessed(Splayed(t, keys[0]), keys[1..])
  }

  function TotalTurns(t: Tree, keys: seq<int>): nat
    requires t.Bin?
    decreases |keys|
  {
    if keys == [] then 0 else Turns(t, keys[0]) + TotalTurns(Splayed(t, keys[0]), keys[1..])
  }

  lemma {:induction false} AccessBound(t: Tree, keys: seq<int>)
    requires t.Bin?
    ensures Paid(TotalTurns(t, keys), t, Power(Charge(Size(t)), |keys|), Accessed(t, keys))
    decreases |keys|
  {
    var c := Charge(Size(t));
    if keys != [] {
      var s, rest := Splayed(t, keys[0]), keys[1..];
      SplayBound(t, keys[0]);
      SplayedSize(t, keys[0]);
      AccessBound(s, rest);
      PaidThen(Turns(t, keys[0]), t, c, s, TotalTurns(s, rest), Power(c, |rest|), Accessed(s, rest));
    }
  }

  lemma {:induction false} Chain(k: nat, m: nat, last: nat, power: nat, mid: nat, c: nat, p: nat)
    requires T(k, mid) <= T(c, p) && T(m, last) <= T(power, mid)
    ensures T(T(k, m), last) <= T(T(c, power), p)
  {
    Assoc(k, m, last);
    Mono(k, k, T(m, last), T(power, mid));
    Assoc(k, power, mid);
    Comm(k, power);
    Assoc(power, k, mid);
    Mono(power, power, T(k, mid), T(c, p));
    Assoc(power, c, p);
    Comm(power, c);
  }

  lemma {:induction false} PotentialPositive(t: Tree)
    ensures Potential(t) >= 1
  {
    if t.Bin? {
      PotentialPositive(t.left);
      PotentialPositive(t.right);
      Positive(Potential(t.left), Potential(t.right));
      Positive(Size(t), T(Potential(t.left), Potential(t.right)));
    }
  }

  lemma {:induction false} PotentialBound(t: Tree, n: nat)
    requires Size(t) <= n
    ensures Potential(t) <= Power(n, Size(t))
  {
    if t.Bin? {
      var l, r := t.left, t.right;
      PotentialBound(l, n);
      PotentialBound(r, n);
      Mono(Potential(l), Power(n, Size(l)), Potential(r), Power(n, Size(r)));
      PowerAdd(n, Size(l), Size(r));
      Mono(Size(t), n, T(Potential(l), Potential(r)), Power(n, Size(l) + Size(r)));
    }
  }

  /** What is paid bounds the turns themselves. */
  lemma {:induction false} PaidTotal(turns: nat, t: Tree, c: nat, r: Tree, n: nat)
    requires Paid(turns, t, c, r) && Size(t) <= n
    ensures Pow2(turns) <= T(c, Power(n, Size(t)))
  {
    PotentialPositive(r);
    AtLeast(Potential(r), Pow2(turns));
    Comm(Potential(r), Pow2(turns));
    PotentialBound(t, n);
    Mono(c, c, Potential(t), Power(n, Size(t)));
  }

  /** m accesses to a tree of n elements, whatever its shape and whatever the keys, take at most
      m (3 lg n + 2) + n lg n turns. */
  lemma {:induction false} Balance(t: Tree, keys: seq<int>)
    requires t.Bin?
    ensures Pow2(TotalTurns(t, keys)) <= Power(Charge(Size(t)), |keys|) * Power(Size(t), Size(t))
  {
    AccessBound(t, keys);
    PaidTotal(TotalTurns(t, keys), t, Power(Charge(Size(t)), |keys|), Accessed(t, keys), Size(t));
    Is(Power(Charge(Size(t)), |keys|), Power(Size(t), Size(t)));
  }

  // ---------- insertion and removal ----------

  /** What one operation on a tree of fewer than `n` elements costs: 6 lg n + 4. */
  function Fee(n: nat): nat {
    T(Charge(n), Charge(n))
  }

  lemma {:induction false} ChargeMono(n: nat, m: nat)
    requires n <= m
    ensures Charge(n) <= Charge(m) && Fee(n) <= Fee(m) && (m >= 1 ==> m <= Charge(m))
  {
    Mono(n, m, n, m);
    Mono(n, m, T(n, n), T(m, m));
    Mono(4, 4, T(n, T(n, n)), T(m, T(m, m)));
    Mono(Charge(n), Charge(m), Charge(n), Charge(m));
    if m >= 1 {
      AtLeast(m, m);
      AtLeast(m, T(m, m));
      AtLeast(4, T(m, T(m, m)));
    }
  }

  lemma {:induction false} FeeAbove(n: nat, c: nat)
    requires n >= 1 && c <= Charge(n)
    ensures c <= Fee(n)
  {
    ChargeMono(n, n);
    AtLeast(Charge(n), Charge(n));
  }

  /** The turns on the way from `t` to `r` are paid by the fee of one operation. */
  ghost predicate FeePaid(turns: nat, t: Tree, r: Tree) {
    forall n: nat :: n == Size(t) + 1 ==> Paid(turns, t, Fee(n), r)
  }

  lemma {:induction false} NothingPaid(t: Tree)
    ensures FeePaid(0, t, t)
  {
    var n := Size(t) + 1;
    ChargeMono(n, n);
    FeeAbove(n, 1);
    Mono(1, Fee(n), Potential(t), Potential(t));
  }

  /** The turns on the way from `t` to `r` are paid by the charge of one splay. */
  ghost predicate ChargePaid(turns: nat, t: Tree, r: Tree) {
    forall n: nat :: n == Size(t) ==> Paid(turns, t, Charge(n), r)
  }

  lemma {:induction false} SplayCharge(t: Tree, key: int)
    requires t.Bin?
    ensures Size(Splayed(t, key)) == Size(t) && ChargePaid(Turns(t, key), t, Splayed(t, key))
  {
    SplayedSize(t, key);
    SplayBound(t, key);
  }

  lemma {:induction false} ChargeFee(turns: nat, t: Tree, r: Tree)
    requires ChargePaid(turns, t, r)
    ensures FeePaid(turns, t, r)
  {
    var n := Size(t);
    assert Paid(turns, t, Charge(n), r);
    ChargeMono(n, n + 1);
    FeeAbove(n + 1, Charge(n));
    PaidMore(turns, t, Charge(n), Fee(n + 1), r);
  }

  lemma {:induction false} SingleFee(key: int)
    ensures FeePaid(0, Tip, Bin(Tip, key, Tip)) && Size(Bin(Tip, key, Tip)) == 1
  {
    assert Size(Bin(Tip, key, Tip)) == 1;
    Is(1, 1);
    NothingPaid(Tip);
    assert Paid(0, Tip, Fee(1), Tip);
  }

  lemma {:induction false} ToppedLow(d: Dir, key: int, far: Tree)
    ensures Size(Mk(d, Tip, key, far)) == 1 + Size(far)
    ensures Potential(Mk(d, Tip, key, far)) == T(1 + Size(far), Potential(far))
  {
    SizeMk(d, Tip, key, far);
    Is(1, Potential(far));
  }

  /** The new root has one element more below it, and the old root at most as many as before. */
  lemma {:induction false} ToppedPotential(t: Tree, key: int)
    requires t.Bin?
    ensures Size(Topped(t, key)) == Size(t) + 1
    ensures Potential(Topped(t, key)) <= T(Size(t) + 1, Potential(t))
  {
    var d := Way(t, key);
    var near, far, low := Sub(t, d), Sub(t, Flip(d)), Mk(d, Tip, t.key, Sub(t, Flip(d)));
    ToppedLow(d, t.key, far);
    SizeMk(d, near, key, low);
    SizeSub(d, t);
    ToppedProduct(Potential(near), Potential(far), Size(low), Size(t), Size(t) + 1);
  }

  lemma {:induction false} ToppedProduct(a: nat, b: nat, f: nat, n: nat, m: nat)
    requires f <= n
    ensures T(m, T(a, T(f, b))) <= T(m, T(n, T(a, b)))
  {
    Swap(a, f, b);
    Mono(f, n, T(a, b), T(a, b));
    Mono(m, m, T(f, T(a, b)), T(n, T(a, b)));
  }

  /** An insertion that makes a new root. */
  lemma {:induction false} ToppedFee(turns: nat, t: Tree, s: Tree, key: int)
    requires s.Bin? && Size(s) == Size(t) && ChargePaid(turns, t, s)
    ensures Size(Topped(s, key)) == Size(t) + 1 && FeePaid(turns, t, Topped(s, key))
  {
    var n, top := Size(t), Topped(s, key);
    assert Paid(turns, t, Charge(n), s);
    ToppedPotential(s, key);
    ChargeMono(n, n + 1);
    Grown(Pow2(turns), Potential(top), n + 1, Potential(s), Charge(n), Potential(t), Charge(n + 1));
  }

  lemma {:induction false} Grown(k: nat, last: nat, m: nat, mid: nat, c: nat, p: nat, e: nat)
    requires last <= T(m, mid) && T(k, mid) <= T(c, p) && m <= e && c <= e
    ensures T(k, last) <= T(T(e, e), p)
  {
    Mono(k, k, last, T(m, mid));
    Swap(k, m, mid);
    Mono(m, e, T(k, mid), T(c, p));
    Mono(c, e, p, p);
    Mono(e, e, T(c, p), T(e, p));
    Assoc(e, e, p);
  }

  /** The root goes, and there is nothing to its left. */
  lemma {:induction false} UprootRight(t: Tree)
    requires t.Bin? && t.left.Tip?
    ensures Size(t.right) <= Size(t) && ChargePaid(0, t, t.right)
  {
    var n, p := Size(t), Potential(t.right);
    Is(1, p);
    AtLeast(n, p);
    assert Potential(t) == T(n, T(1, p));
    ChargeMono(n, n);
    Mono(1, Charge(n), p, Potential(t));
  }

  /** The root goes, and the rest is joined above the splayed left part. */
  lemma {:induction false} UprootJoined(t: Tree, key: int)
    requires t.Bin? && t.left.Bin?
    ensures Size(Uprooted(t, key)) <= Size(t) && ChargePaid(Turns(t.left, key), t, Uprooted(t, key))
  {
    var s, n, l := Splayed(t.left, key), Size(t), Size(t.left);
    var k, a, b, p := Pow2(Turns(t.left, key)), Potential(s.left), Potential(t.right), Potential(t.left);
    SplayedSize(t.left, key);
    Amortised(t.left, key);
    PartsAbove(s);
    Mono(k, k, a, Parts(s));
    Assoc(4, T(l, l), p);
    SquareCharge(l, n);
    JoinedProduct(k, a, b, p, T(4, T(l, l)), Size(Uprooted(t, key)), n, Charge(n));
  }

  lemma {:induction false} PartsAbove(s: Tree)
    requires s.Bin?
    ensures Potential(s.left) <= Parts(s)
  {
    PotentialPositive(s.right);
    AtLeast(Potential(s.right), Potential(s.left));
    Comm(Potential(s.left), Potential(s.right));
  }

  lemma {:induction false} SquareCharge(l: nat, n: nat)
    requires l <= n && n >= 1
    ensures T(4, T(l, l)) <= Charge(n)
  {
    Mono(l, n, l, n);
    AtLeast(n, T(n, n));
    Mono(4, 4, T(l, l), T(n, T(n, n)));
  }

  lemma {:induction false} JoinedProduct(k: nat, a: nat, b: nat, p: nat, c: nat, m: nat, n: nat, e: nat)
    requires T(k, a) <= T(c, p) && m <= n && c <= e
    ensures T(k, T(m, T(a, b))) <= T(e, T(n, T(p, b)))
  {
    Assoc(k, a, b);
    Mono(T(k, a), T(c, p), b, b);
    Assoc(c, p, b);
    Swap(k, m, T(a, b));
    Mono(m, n, T(k, T(a, b)), T(c, T(p, b)));
    Swap(n, c, T(p, b));
    Mono(c, e, T(n, T(p, b)), T(n, T(p, b)));
  }

  lemma {:induction false} Swap(a: nat, b: nat, c: nat)
    ensures T(a, T(b, c)) == T(b, T(a, c))
  {
    Assoc(a, b, c);
    Comm(a, b);
    Assoc(b, a, c);
  }

  /** A splay that brings the element up and its removal from the root. */
  lemma {:induction false} ChargesPaid(a: nat, t: Tree, s: Tree, b: nat, r: Tree)
    requires Size(s) == Size(t) && ChargePaid(a, t, s) && ChargePaid(b, s, r)
    ensures FeePaid(a + b, t, r)
  {
    var n := Size(t);
    assert Paid(a, t, Charge(n), s) && Paid(b, s, Charge(n), r);
    PaidThen(a, t, Charge(n), s, b, Charge(n), r);
    ChargeMono(n, n + 1);
    PaidMore(a + b, t, Fee(n), Fee(n + 1), r);
  }

  lemma {:induction false} InsertFee(t: Tree, key: int)
    ensures Size(Inserted(t, key)) <= Size(t) + 1 && FeePaid(OpTurns(t, InsertOp(key)), t, Inserted(t, key))
  {
    if t.Tip? {
      SingleFee(key);
    } else {
      SplayCharge(t, key);
      ChargeFee(Turns(t, key), t, Splayed(t, key));
      ToppedFee(Turns(t, key), t, Splayed(t, key), key);
    }
  }

  lemma {:induction false} RemoveFee(t: Tree, key: int)
    ensures Size(Removed(t, key)) <= Size(t) && FeePaid(OpTurns(t, RemoveOp(key)), t, Removed(t, key))
  {
    if t.Tip? {
      NothingPaid(t);
    } else {
      var s := Splayed(t, key);
      SplayCharge(t, key);
      if s.key == key {
        if s.left.Tip? {
          UprootRight(s);
        } else {
          UprootJoined(s, key);
        }
        ChargesPaid(Turns(t, key), t, s, UprootTurns(s, key), Uprooted(s, key));
      } else {
        ChargeFee(Turns(t, key), t, s);
      }
    }
  }

  /** Every call is paid by the fee of one operation, whatever the tree. */
  lemma {:induction false} OpFee(t: Tree, op: Op)
    ensures Size(After(t, op)) <= Size(t) + if op.InsertOp? then 1 else 0
    ensures FeePaid(OpTurns(t, op), t, After(t, op))
  {
    match op {
      case InsertOp(k) =>
        InsertFee(t, k);
      case RemoveOp(k) =>
        RemoveFee(t, k);
      case FindOp(k) =>
        if t.Tip? {
          NothingPaid(t);
        } else {
          SplayCharge(t, k);
          ChargeFee(Turns(t, k), t, Splayed(t, k));
        }
    }
  }

  /** The turns of `m` operations are paid by as many fees. */
  ghost predicate FeesPaid(turns: nat, t: Tree, n: nat, m: nat, r: Tree) {
    forall c: nat :: c == Power(Fee(n), m) ==> Paid(turns, t, c, r)
  }

  lemma {:induction false} NoFees(t: Tree, n: nat)
    ensures FeesPaid(0, t, n, 0, t)
  {
  }

  /** One more operation in front of a run of `m`. */
  lemma {:induction false} FeesMore(a: nat, t: Tree, s: Tree, b: nat, n: nat, m: nat, r: Tree)
    requires Size(t) < n && FeePaid(a, t, s) && FeesPaid(b, s, n, m, r)
    ensures FeesPaid(a + b, t, n, m + 1, r)
  {
    assert Paid(a, t, Fee(Size(t) + 1), s) && Paid(b, s, Power(Fee(n), m), r);
    ChargeMono(Size(t) + 1, n);
    PaidMore(a, t, Fee(Size(t) + 1), Fee(n), s);
    PaidThen(a, t, Fee(n), s, b, Power(Fee(n), m), r);
  }

  lemma {:induction false} FeesTotal(turns: nat, n: nat, m: nat, r: Tree)
    requires FeesPaid(turns, Tip, n, m, r)
    ensures Pow2(turns) <= Power(Fee(n), m)
  {
    var c := Power(Fee(n), m);
    assert Paid(turns, Tip, c, r);
    PaidTotal(turns, Tip, c, r, n);
    Is(c, 1);
  }

  /** A run on a tree that never has `n` elements is paid by a fee for each call. */
  lemma {:induction false} RunPaid(t: Tree, ops: seq<Op>, n: nat)
    requires Size(t) + Inserts(ops) < n
    ensures FeesPaid(RunTurns(t, ops), t, n, |ops|, RunTree(t, ops))
    decreases |ops|
  {
    if ops == [] {
      NoFees(t, n);
    } else {
      var s, rest := After(t, ops[0]), ops[1..];
      OpFee(t, ops[0]);
      RunPaid(s, rest, n);
      FeesMore(OpTurns(t, ops[0]), t, s, RunTurns(s, rest), n, |rest|, RunTree(s, rest));
    }
  }

  /** The Balance Theorem: m calls on an empty tree, n of them insertions, take at most
      m (6 lg (n + 1) + 4) turns in all. */
  lemma {:induction false} RunBalance(ops: seq<Op>)
    ensures Pow2(RunTurns(Tip, ops)) <= Power(Fee(Inserts(ops) + 1), |ops|)
  {
    var n := Inserts(ops) + 1;
    RunPaid(Tip, ops, n);
    FeesTotal(RunTurns(Tip, ops), n, |ops|, RunTree(Tip, ops));
  }
}
