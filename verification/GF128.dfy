/** The field GF(2^128) of section 6.3 of NIST SP 800-38D: 128 coefficients, that of x^0 first. */
module GF128 {
  type Elem = s: seq<bool> | |s| == 128 witness Falses(128)

  function Falses(n: nat): (s: seq<bool>)
    ensures |s| == n
  {
    seq(n, i => false)
  }

  function Zero(): Elem {
    Falses(128)
  }

  function One(): Elem {
    seq(128, i => i == 0)
  }

  /** x^128 modulo the field polynomial x^128 + x^7 + x^2 + x + 1. */
  function Fold(): Elem {
    seq(128, i => i == 0 || i == 1 || i == 2 || i == 7)
  }

  function Xor(a: Elem, b: Elem): Elem {
    seq(128, i requires 0 <= i < 128 => a[i] != b[i])
  }

  /** `b` or zero. */
  function Pick(bit: bool, b: Elem): Elem {
    if bit then b else Zero()
  }

  /** The product with x. */
  function Xtime(a: Elem): Elem {
    Xor([false] + a[..127], Pick(a[127], Fold()))
  }

  /** The product of the polynomial with coefficients `a` and the element `b`, by Horner's rule. */
  function Times(a: seq<bool>, b: Elem): Elem {
    if |a| == 0 then Zero() else Xor(Pick(a[0], b), Xtime(Times(a[1..], b)))
  }

  /** The product of two field elements. */
  function Mul(a: Elem, b: Elem): Elem {
    Times(a, b)
  }

  lemma XorLaws(a: Elem, b: Elem, c: Elem)
    ensures Xor(a, b) == Xor(b, a) && Xor(Xor(a, b), c) == Xor(a, Xor(b, c))
    ensures Xor(a, Zero()) == a == Xor(Zero(), a) && Xor(a, a) == Zero()
  {
  }

  lemma XorMiddle(a: Elem, b: Elem, c: Elem, d: Elem)
    ensures Xor(Xor(a, b), Xor(c, d)) == Xor(Xor(a, c), Xor(b, d))
  {
  }

  lemma XtimeAdds(a: Elem, b: Elem)
    ensures Xtime(Xor(a, b)) == Xor(Xtime(a), Xtime(b))
  {
  }

  lemma XtimeZero()
    ensures Xtime(Zero()) == Zero()
  {
  }

  lemma PickLaws(p: bool, q: bool, b: Elem, c: Elem)
    ensures Pick(p, Xor(b, c)) == Xor(Pick(p, b), Pick(p, c))
    ensures Pick(p, Xtime(b)) == Xtime(Pick(p, b))
    ensures Pick(p != q, b) == Xor(Pick(p, b), Pick(q, b))
  {
    XtimeZero();
  }

  /** Coefficientwise sum of polynomials of the same length. */
  function Sum(a: seq<bool>, b: seq<bool>): (r: seq<bool>)
    requires |a| == |b|
    ensures |r| == |a|
  {
    seq(|a|, i requires 0 <= i < |a| => a[i] != b[i])
  }

  lemma {:induction false} AddsLeft(a: seq<bool>, a': seq<bool>, b: Elem)
    requires |a| == |a'|
    ensures Times(Sum(a, a'), b) == Xor(Times(a, b), Times(a', b))
  {
    hide Xtime, Xor, Pick;
    if |a| == 0 {
      XorLaws(Zero(), Zero(), Zero());
    } else {
      AddsLeft(a[1..], a'[1..], b);
      assert Sum(a, a')[1..] == Sum(a[1..], a'[1..]);
      var p, q := Times(a[1..], b), Times(a'[1..], b);
      XtimeAdds(p, q);
      PickLaws(a[0], a'[0], b, b);
      XorMiddle(Pick(a[0], b), Pick(a'[0], b), Xtime(p), Xtime(q));
    }
  }

  lemma {:induction false} AddsRight(a: seq<bool>, b: Elem, b': Elem)
    ensures Times(a, Xor(b, b')) == Xor(Times(a, b), Times(a, b'))
  {
    hide Xtime, Xor, Pick;
    if |a| == 0 {
      XorLaws(Zero(), Zero(), Zero());
    } else {
      AddsRight(a[1..], b, b');
      var p, q := Times(a[1..], b), Times(a[1..], b');
      XtimeAdds(p, q);
      PickLaws(a[0], a[0], b, b');
      XorMiddle(Pick(a[0], b), Pick(a[0], b'), Xtime(p), Xtime(q));
    }
  }

  /** Multiplying by x can be done before or after. */
  lemma {:induction false} XtimeMoves(a: seq<bool>, b: Elem)
    ensures Times(a, Xtime(b)) == Xtime(Times(a, b))
  {
    hide Xtime, Xor, Pick;
    if |a| == 0 {
      XtimeZero();
    } else {
      XtimeMoves(a[1..], b);
      PickLaws(a[0], a[0], b, b);
      XtimeAdds(Pick(a[0], b), Xtime(Times(a[1..], b)));
    }
  }

  lemma {:induction false} TimesZero(a: seq<bool>)
    ensures Times(a, Zero()) == Zero()
  {
    hide Xtime, Xor;
    if |a| > 0 {
      TimesZero(a[1..]);
      XtimeZero();
      XorLaws(Zero(), Zero(), Zero());
    }
  }

  /** A product with a fixed polynomial passes through any other. */
  lemma {:induction false} PassesThrough(b: seq<bool>, a: seq<bool>, c: Elem)
    ensures Times(b, Times(a, c)) == Times(a, Times(b, c))
    decreases a
  {
    hide Xtime, Xor;
    TimesZero(b);
    if |a| > 0 {
      PassesThrough(b, a[1..], c);
      var p := Times(a[1..], c);
      AddsRight(b, Pick(a[0], c), Xtime(p));
      XtimeMoves(b, p);
    }
  }

  /** One is neutral: a polynomial is its own product with one. */
  lemma {:induction false} OneNeutral(a: seq<bool>)
    requires |a| <= 128
    ensures Times(a, One()) == a + Falses(128 - |a|)
  {
    if |a| == 0 {
      assert Zero() == a + Falses(128 - |a|);
    } else {
      OneNeutral(a[1..]);
    }
  }

  lemma MulOne(a: Elem)
    ensures Mul(a, One()) == a
  {
    hide Times;
    OneNeutral(a);
    assert a + Falses(0) == a;
  }

  lemma MulCommutes(a: Elem, b: Elem)
    ensures Mul(a, b) == Mul(b, a)
  {
    hide Times;
    PassesThrough(b, a, One());
    MulOne(a);
    MulOne(b);
  }

  lemma MulAssociates(a: Elem, b: Elem, c: Elem)
    ensures Mul(Mul(a, b), c) == Mul(a, Mul(b, c))
  {
    hide Times;
    MulCommutes(Mul(a, b), c);
    PassesThrough(c, a, b);
    MulCommutes(c, b);
  }

  lemma MulDistributes(a: Elem, b: Elem, c: Elem)
    ensures Mul(Xor(a, b), c) == Xor(Mul(a, c), Mul(b, c))
  {
    hide Times;
    assert Xor(a, b) == Sum(a, b);
    AddsLeft(a, b, c);
  }
}
