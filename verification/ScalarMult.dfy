/** The two scalar multiplication loops, over any commutative group. */
module ScalarMult {
  import opened Words
  import opened Bytes
  import opened Group
  import opened Recode
  import Modm

  /** A point in extended coordinates. A partial conversion leaves the fourth coordinate stale, and additions
      read it, so a point carries whether it is full. */
  datatype Point<T> = Point(p: T, full: bool)

  // What the point formulas compute; a completed point is just its group element.

  function DoubleP1P1<T>(g: Group<T>, r: Point<T>): T {
    g.add(r.p, r.p)
  }

  function ToFull<T>(t: T): Point<T> {
    Point(t, true)
  }

  function ToPartial<T>(t: T): Point<T> {
    Point(t, false)
  }

  /** Adds a table entry, or subtracts it when the sign bit is set. */
  function AddP1P1<T>(g: Group<T>, r: Point<T>, q: T, sign: bool): T
    requires r.full
  {
    g.add(r.p, if sign then g.neg(q) else q)
  }

  function Abs(d: int): nat {
    if d < 0 then -d else d
  }

  /** Entry `i` is the odd multiple `2 * i + 1`. */
  ghost predicate OddMultiples<T(!new)>(g: Group<T>, table: seq<T>, p: T) {
    forall i :: 0 <= i < |table| ==> table[i] == Mul(g, 2 * i + 1, p)
  }

  /** The table of odd multiples that precedes the loop. */
  method OddTable<T(!new)>(g: Group<T>, p: T, size: nat) returns (pre: seq<T>)
    requires Abelian(g) && 1 <= size
    ensures |pre| == size && OddMultiples(g, pre, p)
  {
    hide Abelian;
    var d := DoubleP1P1(g, Point(p, true));
    assert Mul(g, 1, p) == p && d == Mul(g, 2, p) by {
      Zero(g, p);
      MulSucc(g, 0, p);
      MulSucc(g, 1, p);
    }
    pre := [p];
    while |pre| < size
      invariant 1 <= |pre| <= size && OddMultiples(g, pre, p)
    {
      ghost var i := |pre| - 1;
      MulAdds(g, 2, 2 * i + 1, p);
      pre := pre + [g.add(d, pre[|pre| - 1])];
    }
  }

  /** A signed odd digit picks its multiple out of the table at index `|d| / 2`. */
  lemma TableLookup<T(!new)>(g: Group<T>, table: seq<T>, p: T, d: int)
    requires Abelian(g) && OddMultiples(g, table, p) && d % 2 == 1 && Abs(d) < 2 * |table|
    ensures Abs(d) / 2 < |table|
    ensures (if d < 0 then g.neg(table[Abs(d) / 2]) else table[Abs(d) / 2]) == Mul(g, d, p)
  {
    hide Abelian;
    var i := Abs(d) / 2;
    assert 2 * i + 1 == Abs(d);
    if d < 0 {
      MulNeg(g, -d, p);
    }
  }

  /** `m * p + n * q`. */
  ghost function Combine<T>(g: Group<T>, m: int, p: T, n: int, q: T): T {
    g.add(Mul(g, m, p), Mul(g, n, q))
  }

  lemma CombineDouble<T(!new)>(g: Group<T>, m: int, p: T, n: int, q: T)
    requires Abelian(g)
    ensures g.add(Combine(g, m, p, n, q), Combine(g, m, p, n, q)) == Combine(g, 2 * m, p, 2 * n, q)
  {
    hide Abelian;
    var a, b := Mul(g, m, p), Mul(g, n, q);
    Interchange(g, a, b, a, b);
    MulAdds(g, m, m, p);
    MulAdds(g, n, n, q);
  }

  lemma CombineFirst<T(!new)>(g: Group<T>, m: int, p: T, n: int, q: T, d: int)
    requires Abelian(g)
    ensures g.add(Combine(g, m, p, n, q), Mul(g, d, p)) == Combine(g, m + d, p, n, q)
  {
    hide Abelian;
    var a, b, c := Mul(g, m, p), Mul(g, n, q), Mul(g, d, p);
    Assoc(g, a, b, c);
    Comm(g, b, c);
    Assoc(g, a, c, b);
    MulAdds(g, m, d, p);
  }

  lemma CombineSecond<T(!new)>(g: Group<T>, m: int, p: T, n: int, q: T, d: int)
    requires Abelian(g)
    ensures g.add(Combine(g, m, p, n, q), Mul(g, d, q)) == Combine(g, m, p, n + d, q)
  {
    hide Abelian;
    Assoc(g, Mul(g, m, p), Mul(g, n, q), Mul(g, d, q));
    MulAdds(g, n, d, q);
  }

  /** One digit position of the double-scalar loop. */
  method DigitStep<T(!new)>(g: Group<T>, r: Point<T>, pre1: seq<T>, pre2: seq<T>, d1: int8, d2: int8,
                            ghost p: T, ghost q: T, ghost m: int, ghost n: int) returns (r': Point<T>)
    requires Abelian(g) && OddMultiples(g, pre1, p) && OddMultiples(g, pre2, q)
    requires d1 == 0 || (d1 % 2 == 1 && Abs(d1) < 2 * |pre1|)
    requires d2 == 0 || (d2 % 2 == 1 && Abs(d2) < 2 * |pre2|)
    requires r.p == Combine(g, m, p, n, q)
    ensures r'.p == Combine(g, 2 * m + d1, p, 2 * n + d2, q)
  {
    hide Abelian, OddMultiples, Combine;
    var t := DoubleP1P1(g, r);
    CombineDouble(g, m, p, n, q);
    if d1 != 0 {
      TableLookup(g, pre1, p, d1);
      CombineFirst(g, 2 * m, p, 2 * n, q, d1);
      r' := ToFull(t);
      t := AddP1P1(g, r', pre1[Abs(d1) / 2], d1 < 0);
    }
    if d2 != 0 {
      TableLookup(g, pre2, q, d2);
      CombineSecond(g, 2 * m + d1, p, 2 * n, q, d2);
      r' := ToFull(t);
      t := AddP1P1(g, r', pre2[Abs(d2) / 2], d2 < 0);
    }
    r' := ToPartial(t);
  }

  /** `[s1]p + [s2]base`: the sliding digits of both scalars from the top down, skipping leading zeros. */
  method DoubleScalarMult<T(!new)>(g: Group<T>, p: T, s1: seq<uint64>, s2: seq<uint64>,
                                   baseTable: seq<T>, ghost base: T) returns (r: Point<T>)
    requires Abelian(g) && |baseTable| == 32 && OddMultiples(g, baseTable, base)
    requires Modm.Limbs(s1, TWO32) && Modm.Val(s1) < Pow2(DIGITS - 1)
    requires Modm.Limbs(s2, TWO32) && Modm.Val(s2) < Pow2(DIGITS - 1)
    ensures r.p == g.add(Mul(g, Modm.Val(s1), p), Mul(g, Modm.Val(s2), base))
  {
    hide Abelian, OddMultiples, Combine, Seg, Mul, Modm.Val, Pow2;
    var slide1, slide2 := new int8[256], new int8[256];
    SlidingWindow(slide1, s1, 5);
    SlidingWindow(slide2, s2, 7);
    var d1, d2 := slide1[..], slide2[..];
    var pre1 := OddTable(g, p, 8);
    r := Point(g.zero, true);
    var i := 255;
    while i >= 0 && d1[i] == 0 && d2[i] == 0
      invariant -1 <= i <= 255
      invariant forall k :: i < k < DIGITS ==> d1[k] == 0 && d2[k] == 0
    {
      i := i - 1;
    }
    SegZero(d1, i + 1, 255 - i);
    SegZero(d2, i + 1, 255 - i);
    CombineZero(g, p, base);
    while i >= 0
      invariant -1 <= i <= 255
      invariant r.p == Combine(g, Seg(d1, i + 1, 255 - i), p, Seg(d2, i + 1, 255 - i), base)
    {
      DigitAt(d1, i, 5, 8);
      DigitAt(d2, i, 7, 32);
      r := DigitStep(g, r, pre1, baseTable, d1[i], d2[i], p, base, Seg(d1, i + 1, 255 - i), Seg(d2, i + 1, 255 - i));
      SegHead(d1, i);
      SegHead(d2, i);
      i := i - 1;
    }
    CombineIs(g, Modm.Val(s1), p, Modm.Val(s2), base);
  }

  lemma CombineIs<T>(g: Group<T>, m: int, p: T, n: int, q: T)
    ensures Combine(g, m, p, n, q) == g.add(Mul(g, m, p), Mul(g, n, q))
  {
  }

  lemma CombineZero<T(!new)>(g: Group<T>, p: T, q: T)
    requires Abelian(g)
    ensures Combine(g, 0, p, 0, q) == g.zero
  {
    Zero(g, g.zero);
  }

  lemma SegHead(s: seq<int>, i: nat)
    requires |s| == DIGITS && i < DIGITS
    ensures Seg(s, i, DIGITS - i) == 2 * Seg(s, i + 1, 255 - i) + s[i]
  {
  }

  /** Every digit of a window of `w` bits indexes a table of 2^(w-2) odd multiples. */
  lemma DigitAt(s: seq<int>, i: nat, w: nat, size: nat)
    requires |s| == DIGITS && i < DIGITS && ((w == 5 && size == 8) || (w == 7 && size == 32)) && Recoded(s, DIGITS, w)
    ensures s[i] == 0 || (s[i] % 2 == 1 && Abs(s[i]) < 2 * size)
  {
    assert MaxDigit(5) == 15 && MaxDigit(7) == 63;
  }

  /** The sign of a digit as a word: the top bit of its byte. */
  function SignWord(b: int8): (sign: uint32)
    ensures sign == if b < 0 then 1 else 0
  {
    b % 0x100 / 0x80
  }

  /** `~(sign - 1)`. */
  function SignMask(sign: uint32): (mask: uint32) {
    Not32((sign - 1) % 0x1_0000_0000)
  }

  /** `(b + mask) ^ mask` is the magnitude of the digit. */
  lemma MagnitudeWord(b: int8)
    ensures var mask := SignMask(SignWord(b));
            Xor((b + mask) % 0x1_0000_0000, mask) == Abs(b)
  {
    hide Xor, Ones;
    if b >= 0 {
      XorZero(b);
    } else {
      var n: nat := 32;
      OnesWord(n);
      XorOnes(n, 0xffff_ffff + b);
    }
  }

  /** `((b ^ c) - 1) >> 31` for operands below 2^31. */
  function WindowEqual(b: uint32, c: uint32): (flag: uint32)
    requires b < 0x8000_0000 && c < 0x8000_0000
    ensures flag == if b == c then 1 else 0
  {
    hide Xor;
    EqualWord(b, c);
    (Xor(b, c) - 1) % 0x1_0000_0000 / 0x8000_0000
  }

  lemma EqualWord(b: uint32, c: uint32)
    requires b < 0x8000_0000 && c < 0x8000_0000
    ensures (Xor(b, c) - 1) % 0x1_0000_0000 / 0x8000_0000 == if b == c then 1 else 0
  {
    hide Xor, Ones;
    var n: nat := 32;
    OnesWord(n);
    assert Ones(n) == 1 + 2 * Ones(n - 1) by { OnesStep(n); }
    XorBelow(n - 1, b, c);
    XorEqual(b, c);
  }

  ghost function Row<T>(table: seq<T>, pos: nat, i: nat): T
    requires |table| == 256 && pos < 32 && i < 8
  {
    table[pos * 8 + i]
  }

  /** Row `pos` of the table holds one to eight times `256^pos * base`. */
  ghost predicate BaseTable<T(!new)>(g: Group<T>, table: seq<T>, base: T) {
    |table| == 256
    && forall pos: nat, i: nat :: pos < 32 && i < 8 ==> Row(table, pos, i) == Mul(g, (i + 1) * Pow2(8 * pos), base)
  }

  lemma TableRow<T(!new)>(g: Group<T>, table: seq<T>, base: T, pos: nat, u: nat)
    requires BaseTable(g, table, base) && pos < 32 && u <= 8
    ensures |table| == 256
    ensures (if u == 0 then g.zero else table[pos * 8 + (u - 1)]) == Mul(g, u * Pow2(8 * pos), base)
  {
    if u > 0 {
      assert Row(table, pos, u - 1) == table[pos * 8 + (u - 1)];
    }
  }

  /** Scans all eight entries of a row and keeps the one that matches; the sign is applied afterwards. */
  method ChooseNiels<T(!new)>(g: Group<T>, table: seq<T>, pos: nat, b: int8, ghost base: T) returns (t: T)
    requires Abelian(g) && BaseTable(g, table, base) && pos < 32 && -8 <= b <= 8
    ensures t == Mul(g, b * Pow2(8 * pos), base)
  {
    hide Abelian, BaseTable, Pow2, Mul, Xor;
    var sign := SignWord(b);
    var mask := SignMask(sign);
    MagnitudeWord(b);
    var u := Xor((b + mask) % 0x1_0000_0000, mask);
    TableRow(g, table, base, pos, u);
    t := g.zero;
    var i := 0;
    while i < 8
      invariant 0 <= i <= 8
      invariant t == (if 1 <= u <= i then table[pos * 8 + (u - 1)] else g.zero)
    {
      if WindowEqual(u, i + 1) == 1 {
        t := table[pos * 8 + i];
      }
      i := i + 1;
    }
    if sign == 1 {
      t := g.neg(t);
      MulNeg(g, u * Pow2(8 * pos), base);
      assert b * Pow2(8 * pos) == -(u * Pow2(8 * pos));
    }
  }

  /** The first `k` digits of one parity, each worth 256 times the one before. */
  ghost function Alternate(b: seq<int>, parity: nat, k: nat): int
    requires parity <= 1 && 2 * k <= |b|
  {
    if k == 0 then 0 else Alternate(b, parity, k - 1) + b[2 * (k - 1) + parity] * Pow2(8 * (k - 1))
  }

  /** Odd and even digits separately make up the radix-16 number. */
  lemma {:induction false} HexAlternates(b: seq<int>, k: nat)
    requires 2 * k <= |b|
    ensures Hex(b, 0, 2 * k) == Alternate(b, 0, k) + 16 * Alternate(b, 1, k)
  {
    if k > 0 {
      HexAlternates(b, k - 1);
      HexSplit(b, 0, 2 * (k - 1), 2);
      assert 4 * (2 * (k - 1)) == 8 * (k - 1);
      HexTwo(b, 2 * (k - 1));
      TwoDigits(Pow2(8 * (k - 1)), b[2 * k - 2], b[2 * k - 1]);
    }
  }

  lemma HexTwo(b: seq<int>, i: nat)
    requires i + 2 <= |b|
    ensures Hex(b, i, 2) == b[i] + 16 * b[i + 1]
  {
    assert Hex(b, i + 1, 1) == b[i + 1] by { HexOne(b, i + 1); }
  }

  lemma TwoDigits(p: int, x: int, y: int)
    ensures p * (x + 16 * y) == x * p + 16 * (y * p)
  {
  }

  /** Adds the digits of one parity from index `from` on. */
  method AddDigits<T(!new)>(g: Group<T>, table: seq<T>, b: seq<int8>, parity: nat, from: nat, r0: Point<T>,
                            ghost m: int, ghost base: T) returns (r: Point<T>)
    requires Abelian(g) && BaseTable(g, table, base) && |b| == NIBBLES && parity <= 1 && from <= 32
    requires (forall k :: 0 <= k < NIBBLES ==> -8 <= b[k] <= 8) && r0.full
    requires r0.p == Mul(g, m + Alternate(b, parity, from), base)
    ensures r.p == Mul(g, m + Alternate(b, parity, 32), base) && r.full
  {
    hide Abelian, BaseTable, Pow2, Mul;
    r := r0;
    var i := 2 * from + parity;
    ghost var k := from;
    while i < 64
      invariant from <= k <= 32 && i == 2 * k + parity && r.full
      invariant r.p == Mul(g, m + Alternate(b, parity, k), base)
    {
      var t := ChooseNiels(g, table, i / 2, b[i], base);
      MulAdds(g, m + Alternate(b, parity, k), b[i] * Pow2(8 * k), base);
      r := Point(AddP1P1(g, r, t, false), true);
      i := i + 2;
      k := k + 1;
    }
  }

  /** `[s]base`: the odd digits, four doublings, then the even digits. */
  method ScalarMultBase<T(!new)>(g: Group<T>, table: seq<T>, s: seq<uint64>, ghost base: T) returns (r: Point<T>)
    requires Abelian(g) && BaseTable(g, table, base)
    requires Modm.Limbs(s, TWO32) && s[4] < TWO32 / 2
    ensures r.p == Mul(g, Modm.Val(s), base) && r.full
  {
    hide Abelian, BaseTable, Hex, Mul, Modm.Val, Alternate, Pow2;
    var digits := new int8[64];
    Window4(digits, s);
    var b := digits[..];
    var t := ChooseNiels(g, table, 0, b[1], base);
    r := Point(t, true);
    FirstDigit(b);
    r := AddDigits(g, table, b, 1, 1, r, 0, base);
    ghost var odd := Alternate(b, 1, 32);
    r := ToPartial(DoubleP1P1(g, r));
    MulAdds(g, odd, odd, base);
    r := ToPartial(DoubleP1P1(g, r));
    MulAdds(g, 2 * odd, 2 * odd, base);
    r := ToPartial(DoubleP1P1(g, r));
    MulAdds(g, 4 * odd, 4 * odd, base);
    r := ToFull(DoubleP1P1(g, r));
    MulAdds(g, 8 * odd, 8 * odd, base);
    r := AddDigits(g, table, b, 0, 0, r, 16 * odd, base);
    HexAlternates(b, 32);
  }

  lemma FirstDigit(b: seq<int>)
    requires |b| == NIBBLES
    ensures Alternate(b, 1, 1) == b[1] * Pow2(8 * 0) && Alternate(b, 0, 0) == 0
  {
    assert Alternate(b, 1, 0) == 0;
  }
}
