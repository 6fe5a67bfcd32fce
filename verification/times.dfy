/** Products of natural numbers, kept apart from the solver's own multiplication so that long
    products stay cheap to reason about. */
module Times {
  function T(a: nat, b: nat): nat {
    if a == 0 then 0 else b + T(a - 1, b)
  }

  lemma {:induction false} Is(a: nat, b: nat)
    ensures T(a, b) == a * b
  {
    if a > 0 {
      Is(a - 1, b);
    }
  }

  lemma {:induction false} Positive(a: nat, b: nat)
    requires a >= 1 && b >= 1
    ensures T(a, b) >= 1
  {
    Is(a, b);
  }

  lemma {:induction false} Comm(a: nat, b: nat)
    ensures T(a, b) == T(b, a)
  {
    Is(a, b);
    Is(b, a);
  }

  lemma {:induction false} Assoc(a: nat, b: nat, c: nat)
    ensures T(a, T(b, c)) == T(T(a, b), c)
  {
    Is(b, c);
    Is(a, b);
    Is(a, T(b, c));
    Is(T(a, b), c);
    AssocStar(a, b, c);
  }

  lemma {:induction false} AssocStar(a: nat, b: nat, c: nat)
    ensures a * (b * c) == (a * b) * c
  {
  }

  lemma {:induction false} Mono(a: nat, b: nat, c: nat, d: nat)
    requires a <= b && c <= d
    ensures T(a, c) <= T(b, d)
  {
    Is(a, c);
    Is(b, d);
    MonoStar(a, b, c, d);
  }

  lemma {:induction false} MonoStar(a: nat, b: nat, c: nat, d: nat)
    requires a <= b && c <= d
    ensures a * c <= b * d
  {
    assert a * c <= b * c;
    assert b * c <= b * d;
  }

  lemma {:induction false} Cross(a: nat, b: nat, c: nat, d: nat)
    ensures T(T(a, b), T(c, d)) == T(T(a, c), T(b, d))
  {
    Assoc(a, b, T(c, d));
    Assoc(b, c, d);
    Comm(b, c);
    Assoc(c, b, d);
    Assoc(a, c, T(b, d));
  }

  /** A constant factor may be taken out of a product. */
  lemma {:induction false} Pull(k: nat, a: nat, b: nat)
    ensures T(T(k, a), b) == T(k, T(a, b)) && T(a, T(k, b)) == T(k, T(a, b))
  {
    Assoc(k, a, b);
    Assoc(a, k, b);
    Comm(a, k);
  }

  /** The step of every rank argument: two numbers and their sum. */
  lemma {:induction false} Halves(a: nat, b: nat, c: nat)
    requires a + b <= c
    ensures T(4, T(a, b)) <= T(c, c)
  {
    Is(a, b);
    Is(c, c);
    Is(4, T(a, b));
    HalvesStar(a, b, c);
  }

  lemma {:induction false} HalvesStar(a: nat, b: nat, c: nat)
    requires a + b <= c
    ensures 4 * (a * b) <= c * c
  {
    var s := a + b;
    assert s * s == a * a + 2 * (a * b) + b * b;
    assert (a - b) * (a - b) == a * a - 2 * (a * b) + b * b;
    assert (a - b) * (a - b) >= 0;
    MonoStar(s, c, s, c);
  }

  function Power(a: nat, n: nat): nat {
    if n == 0 then 1 else T(a, Power(a, n - 1))
  }

  lemma {:induction false} PowerMono(a: nat, b: nat, n: nat)
    requires a <= b
    ensures Power(a, n) <= Power(b, n)
  {
    if n > 0 {
      PowerMono(a, b, n - 1);
      Mono(a, b, Power(a, n - 1), Power(b, n - 1));
    }
  }

  lemma {:induction false} PowerAdd(a: nat, n: nat, m: nat)
    ensures Power(a, n + m) == T(Power(a, n), Power(a, m))
  {
    if n == 0 {
      Is(1, Power(a, m));
    } else {
      PowerAdd(a, n - 1, m);
      Assoc(a, Power(a, n - 1), Power(a, m));
    }
  }
}
