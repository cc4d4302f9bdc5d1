/** A commutative group, standing for the Edwards curve points, and integer multiples in it. */
module Group {
  datatype Group<!T> = Group(zero: T, add: (T, T) -> T, neg: T -> T)

  ghost predicate Abelian<T(!new)>(g: Group<T>) {
    && (forall a, b :: g.add(a, b) == g.add(b, a))
    && (forall a, b, c :: g.add(g.add(a, b), c) == g.add(a, g.add(b, c)))
    && (forall a :: g.add(a, g.zero) == a)
    && (forall a :: g.add(a, g.neg(a)) == g.zero)
  }

  /** `n` times `p`. */
  ghost function Mul<T>(g: Group<T>, n: int, p: T): T
    decreases if n < 0 then 1 - 2 * n else 2 * n
  {
    if n == 0 then g.zero
    else if n < 0 then g.neg(Mul(g, -n, p))
    else g.add(Mul(g, n - 1, p), p)
  }

  // The axioms one instance at a time; the proofs below hide the quantified form.

  lemma Comm<T(!new)>(g: Group<T>, a: T, b: T)
    requires Abelian(g)
    ensures g.add(a, b) == g.add(b, a)
  {
  }

  lemma Assoc<T(!new)>(g: Group<T>, a: T, b: T, c: T)
    requires Abelian(g)
    ensures g.add(g.add(a, b), c) == g.add(a, g.add(b, c))
  {
  }

  lemma Zero<T(!new)>(g: Group<T>, a: T)
    requires Abelian(g)
    ensures g.add(a, g.zero) == a && g.add(g.zero, a) == a
  {
    Comm(g, a, g.zero);
  }

  lemma Inverse<T(!new)>(g: Group<T>, a: T)
    requires Abelian(g)
    ensures g.add(a, g.neg(a)) == g.zero && g.add(g.neg(a), a) == g.zero
  {
    Comm(g, a, g.neg(a));
  }

  lemma Cancel<T(!new)>(g: Group<T>, a: T, b: T, c: T)
    requires Abelian(g) && g.add(a, c) == g.add(b, c)
    ensures a == b
  {
    hide Abelian;
    Inverse(g, c);
    Assoc(g, a, c, g.neg(c));
    Assoc(g, b, c, g.neg(c));
    Zero(g, a);
    Zero(g, b);
  }

  lemma NegUnique<T(!new)>(g: Group<T>, a: T, b: T)
    requires Abelian(g) && g.add(a, b) == g.zero
    ensures b == g.neg(a)
  {
    hide Abelian;
    Comm(g, a, b);
    Inverse(g, a);
    Cancel(g, b, g.neg(a), a);
  }

  lemma Interchange<T(!new)>(g: Group<T>, a: T, b: T, c: T, d: T)
    requires Abelian(g)
    ensures g.add(g.add(a, b), g.add(c, d)) == g.add(g.add(a, c), g.add(b, d))
  {
    hide Abelian;
    Assoc(g, a, b, g.add(c, d));
    Assoc(g, b, c, d);
    Comm(g, b, c);
    Assoc(g, c, b, d);
    Assoc(g, a, c, g.add(b, d));
  }

  lemma NegAdd<T(!new)>(g: Group<T>, a: T, b: T)
    requires Abelian(g)
    ensures g.neg(g.add(a, b)) == g.add(g.neg(a), g.neg(b))
  {
    hide Abelian;
    Interchange(g, a, b, g.neg(a), g.neg(b));
    Inverse(g, a);
    Inverse(g, b);
    Zero(g, g.zero);
    NegUnique(g, g.add(a, b), g.add(g.neg(a), g.neg(b)));
  }

  lemma MulSucc<T(!new)>(g: Group<T>, n: int, p: T)
    requires Abelian(g)
    ensures Mul(g, n + 1, p) == g.add(Mul(g, n, p), p)
  {
    hide Abelian;
    if n < 0 {
      var q := Mul(g, -n - 1, p);
      assert Mul(g, -n, p) == g.add(q, p);
      NegAdd(g, q, p);
      Assoc(g, g.neg(q), g.neg(p), p);
      Inverse(g, p);
      Zero(g, g.neg(q));
      if n == -1 {
        Zero(g, g.zero);
        NegUnique(g, g.zero, g.zero);
      }
    }
  }

  lemma {:induction false} MulAdds<T(!new)>(g: Group<T>, m: int, n: int, p: T)
    requires Abelian(g)
    ensures Mul(g, m + n, p) == g.add(Mul(g, m, p), Mul(g, n, p))
    decreases if n < 0 then -n else n
  {
    hide Abelian;
    if n == 0 {
      Zero(g, Mul(g, m, p));
    } else if n > 0 {
      MulAdds(g, m, n - 1, p);
      MulSucc(g, m + n - 1, p);
      MulSucc(g, n - 1, p);
      Assoc(g, Mul(g, m, p), Mul(g, n - 1, p), p);
    } else {
      MulAdds(g, m, n + 1, p);
      MulSucc(g, m + n, p);
      MulSucc(g, n, p);
      var a, b, c := Mul(g, m + n, p), Mul(g, m, p), Mul(g, n, p);
      Assoc(g, b, c, p);
      Cancel(g, a, g.add(b, c), p);
    }
  }

  lemma MulNeg<T(!new)>(g: Group<T>, n: int, p: T)
    requires Abelian(g)
    ensures Mul(g, -n, p) == g.neg(Mul(g, n, p))
  {
    hide Abelian;
    MulAdds(g, n, -n, p);
    NegUnique(g, Mul(g, n, p), Mul(g, -n, p));
  }

  /** A multiple of a multiple. */
  lemma {:induction false} MulMul<T(!new)>(g: Group<T>, m: int, n: int, p: T)
    requires Abelian(g)
    ensures Mul(g, m, Mul(g, n, p)) == Mul(g, m * n, p)
    decreases if m < 0 then -m else m
  {
    hide Abelian;
    var q := Mul(g, n, p);
    if m > 0 {
      MulMul(g, m - 1, n, p);
      MulSucc(g, m - 1, q);
      MulAdds(g, (m - 1) * n, n, p);
      assert (m - 1) * n + n == m * n;
    } else if m < 0 {
      MulMul(g, m + 1, n, p);
      MulSucc(g, m, q);
      MulAdds(g, m * n, n, p);
      assert m * n + n == (m + 1) * n;
      Cancel(g, Mul(g, m, q), Mul(g, m * n, p), q);
    }
  }
}
