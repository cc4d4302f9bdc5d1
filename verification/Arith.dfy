/** Quotients, remainders and powers of two. */
module Arith {
  /** A quotient and remainder are determined by the division equation. */
  lemma DivModUnique(x: int, d: int, q: int, r: int)
    requires 0 <= r < d && x == d * q + r
    ensures x / d == q && x % d == r
  {
    var k := x / d - q;
    assert d * (x / d) + x % d == x;
    assert d * k == r - x % d by { assert d * (x / d - q) == d * (x / d) - d * q; }
    if k >= 1 {
      MultipleGrows(d, k);
    } else if k <= -1 {
      MultipleGrows(d, -k);
    }
  }

  lemma MultipleGrows(d: int, k: int)
    requires 0 < d && 1 <= k
    ensures d <= d * k && d * -k <= -d
  {
    assert d * (k - 1) >= 0;
  }

  /** Products of bounded non-negative factors. */
  lemma MulBounds(a: int, b: int, c: int, d: int)
    requires 0 <= a <= c && 0 <= b <= d
    ensures 0 <= a * b <= c * d
  {
    assert (c - a) * b >= 0;
    assert c * (d - b) >= 0;
  }

  /** A quotient below the bound its dividend gives. */
  lemma QuotientBelow(a: int, s: int, t: int)
    requires 0 <= a < s * t && 0 < s && 0 < t
    ensures 0 <= a / s < t
  {
    var h := a / s;
    assert s * h <= a;
    if t <= h {
      MulBounds(s, t, s, h);
    }
  }

  /** Shifting left by `t` in a word of size `s * t`. */
  lemma ShiftInWord(b: int, s: int, t: int)
    requires 0 < s && 0 < t
    ensures 0 < s * t && (b * t) % (s * t) == t * (b % s)
  {
    var k, e := b / s, b % s;
    assert b == s * k + e;
    assert (s * k + e) * t == (s * t) * k + t * e;
    MulBounds(e, t, s - 1, t);
    assert (s - 1) * t == s * t - t;
    DivModUnique(b * t, s * t, k, t * e);
  }

  lemma ModOfMod(b: int, u: int, v: int)
    requires 0 < u && 0 < v
    ensures 0 < u * v && (b % (u * v)) % u == b % u
  {
    MulBounds(1, 1, u, v);
    var k, e := b / (u * v), b % (u * v);
    var j, g := e / u, e % u;
    assert b == u * (v * k + j) + g by {
      assert b == (u * v) * k + e && e == u * j + g;
      assert u * (v * k + j) == (u * v) * k + u * j;
    }
    DivModUnique(b, u, v * k + j, g);
  }

  /** Digits of a two-part number: `h` below `t`, `e` above it, cut at `t * u`. */
  lemma JoinInWord(e: int, h: int, t: int, u: int)
    requires 0 <= h < t && 0 < u
    ensures 0 < t * u && (t * e + h) % (t * u) == h + t * (e % u)
  {
    MulBounds(1, 1, t, u);
    var j, g := e / u, e % u;
    assert t * e + h == (t * u) * j + (h + t * g) by {
      assert e == u * j + g;
      assert t * (u * j + g) == (t * u) * j + t * g;
    }
    MulBounds(t, g, t, u - 1);
    assert t * (u - 1) == t * u - t;
    DivModUnique(t * e + h, t * u, j, h + t * g);
  }

  lemma ModOfShifted(q: int, m: int, width: int)
    requires 0 < width
    ensures (q + width * m) % width == q % width
  {
    assert width * (q / width + m) == width * (q / width) + width * m;
    DivModUnique(q + width * m, width, q / width + m, q % width);
  }

  lemma Associates(a: int, b: int, c: int)
    ensures a * (b * c) == (a * b) * c
  {
  }

  lemma FourFactors(a: int, b: int, c: int, d: int)
    ensures (a * b) * (c * d) == (a * c) * (b * d)
  {
    assert (a * b) * (c * d) == a * (b * c) * d == a * (c * b) * d == (a * c) * (b * d);
  }
}
