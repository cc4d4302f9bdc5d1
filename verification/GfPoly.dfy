/** Repeated products with x, and products split at any coefficient. */
module GfPoly {
  import opened GF128

  /** The product with x^n. */
  function Xn(a: Elem, n: nat): Elem
    decreases n, a
  {
    if n == 0 then a else Xtime(Xn(a, n - 1))
  }

  lemma {:induction false} XnAdds(a: Elem, b: Elem, n: nat)
    ensures Xn(Xor(a, b), n) == Xor(Xn(a, n), Xn(b, n))
    decreases n
  {
    hide Xtime, Xor;
    if n > 0 {
      XnAdds(a, b, n - 1);
      XtimeAdds(Xn(a, n - 1), Xn(b, n - 1));
    }
  }

  lemma {:induction false} XnZero(n: nat)
    ensures Xn(Zero(), n) == Zero()
    decreases n
  {
    hide Xtime;
    if n > 0 {
      XnZero(n - 1);
      XtimeZero();
    }
  }

  lemma {:induction false} XnInside(a: Elem, n: nat)
    ensures Xn(Xtime(a), n) == Xtime(Xn(a, n))
    decreases n
  {
    hide Xtime;
    if n > 0 {
      XnInside(a, n - 1);
    }
  }

  /** A product can be taken piecewise. */
  lemma {:induction false} TimesConcat(u: seq<bool>, v: seq<bool>, b: Elem)
    ensures Times(u + v, b) == Xor(Times(u, b), Xn(Times(v, b), |u|))
  {
    hide Xtime, Xor;
    if |u| == 0 {
      assert u + v == v;
      XorLaws(Times(v, b), Zero(), Zero());
    } else {
      assert (u + v)[1..] == u[1..] + v;
      TimesConcat(u[1..], v, b);
      var p, q := Times(u[1..], b), Xn(Times(v, b), |u| - 1);
      XtimeAdds(p, q);
      XorLaws(Pick(u[0], b), Xtime(p), Xtime(q));
    }
  }

  lemma {:induction false} TimesFalses(n: nat, b: Elem)
    ensures Times(Falses(n), b) == Zero()
  {
    hide Xtime, Xor;
    if n > 0 {
      TimesFalses(n - 1, b);
      assert Falses(n)[1..] == Falses(n - 1);
      XtimeZero();
      XorLaws(Zero(), Zero(), Zero());
    }
  }

  /** Without overflow the product with x^n is a shift. */
  lemma {:induction false} XnShifts(u: seq<bool>, n: nat)
    requires |u| + n <= 128
    ensures Xn(u + Falses(128 - |u|), n) == Falses(n) + u + Falses(128 - |u| - n)
    decreases n
  {
    if n == 0 {
      assert u + Falses(128 - |u|) == Falses(0) + u + Falses(128 - |u| - 0);
    } else {
      XnShifts(u, n - 1);
      var s := Falses(n - 1) + u + Falses(129 - |u| - n);
      assert Xtime(s) == Falses(n) + u + Falses(128 - |u| - n);
    }
  }

  /** The `|v|` highest coefficients overflow into a product with x^128. */
  lemma {:induction false} Overflow(v: seq<bool>)
    requires |v| <= 128
    ensures Xn(Falses(128 - |v|) + v, |v|) == Times(v, Fold())
  {
    hide Xtime, Xor;
    var m := |v|;
    if m == 0 {
      assert Falses(128) + v == Zero();
    } else {
      var first := Falses(128 - m) + [v[0]] + Falses(m - 1);
      var rest := Falses(129 - m) + v[1..];
      SplitFirst(v);
      XnAdds(first, rest, m);
      Overflow(v[1..]);
      FirstOverflows(v[0], m);
    }
  }

  lemma SplitFirst(v: seq<bool>)
    requires 0 < |v| <= 128
    ensures Falses(128 - |v|) + v == Xor(Falses(128 - |v|) + [v[0]] + Falses(|v| - 1), Falses(129 - |v|) + v[1..])
  {
  }

  lemma FirstOverflows(bit: bool, m: nat)
    requires 0 < m <= 128
    ensures Xn(Falses(128 - m) + [bit] + Falses(m - 1), m) == Pick(bit, Fold())
  {
    XnShifts(Falses(128 - m) + [bit], m - 1);
    assert Falses(m - 1) + (Falses(128 - m) + [bit]) + Falses(0) == Falses(127) + [bit];
    assert Xtime(Falses(127) + [bit]) == Pick(bit, Fold());
  }

  /** Eight products with x at once: a shift by eight, and the eight coefficients that leave fold back. */
  lemma XnEight(a: Elem)
    ensures Xn(a, 8) == Xor(Falses(8) + a[..120], Times(a[120..], Fold()))
  {
    hide Xtime, Times, Xn;
    var low, high := a[..120] + Falses(8), Falses(120) + a[120..];
    assert a == Xor(low, high);
    XnAdds(low, high, 8);
    XnShifts(a[..120], 8);
    assert Falses(8) + a[..120] + Falses(0) == Falses(8) + a[..120];
    Overflow(a[120..]);
  }
}
