/** Canonical 32-byte encoding of ten signed limbs. */
module Contract {
  import opened Arith
  import opened Words
  import opened Bytes
  import opened Field25519
  import opened FieldOps

  /** What a limb borrows, as a non-positive carry: only negative limbs borrow, just enough to become non-negative. */
  function Borrowed(x: int, w: int): (k: int)
    requires w == TWO25 || w == TWO26
    ensures 0 <= x ==> k == 0
    ensures x < 0 ==> k < 0 && 0 <= x - k * w < w
  {
    var masked := if x < 0 then x else 0;
    masked / w
  }

  /** A limb together with what it borrows. */
  function Lifted(x: int, w: int): (r: int)
    requires w == TWO25 || w == TWO26
  {
    x - Borrowed(x, w) * w
  }

  /** What limb `i` borrows in one pass over the limbs `s`, the limb below it having borrowed from it before. */
  function Owed(s: seq<int>, i: nat): (k: nat)
    requires i < |s|
    decreases i, 1
  {
    -Borrowed(Left(s, i), Width(i))
  }

  /** Limb `i` when its turn comes. */
  function Left(s: seq<int>, i: nat): int
    requires i < |s|
    decreases i, 0
  {
    if i == 0 then s[0] else s[i] - Owed(s, i - 1)
  }

  /** No limb owes more than three, and limb nine owes at most one exactly when what the limb below borrows leaves it
      at -2^25 or more. */
  lemma {:induction false} OwedBound(s: seq<int>, i: nat)
    requires i < |s| && Below(s, |s|, TWO26)
    ensures Owed(s, i) <= 3
    decreases i
  {
    if i > 0 {
      OwedBound(s, i - 1);
    }
  }

  lemma OwedAtMostOne(s: seq<int>)
    requires |s| == 10 && Below(s, 10, TWO26)
    ensures Owed(s, 9) <= 1 <==> s[9] - Owed(s, 8) >= -TWO25
    ensures Owed(s, 9) == 0 <==> s[9] >= Owed(s, 8)
  {
    hide Owed;
    OwedIs(s, 9);
  }

  /** With every limb at 1 - 2^26 the borrows run 1, 2, 2, 3, 2, 3, 2, 3, 2, 3. */
  lemma {:induction false} OwedByAll(s: seq<int>, i: nat)
    requires i < |s| && forall j :: 0 <= j < |s| ==> s[j] == 1 - TWO26
    ensures Owed(s, i) == if i == 0 then 1 else if i <= 2 then 2 else if i % 2 == 1 then 3 else 2
    decreases i
  {
    if i > 0 {
      OwedByAll(s, i - 1);
    }
  }

  /** The least limbs that a caller may pass make limb nine borrow three, not one. */
  lemma BorrowOfThree(s: seq<int>)
    requires |s| == 10 && forall j :: 0 <= j < 10 ==> s[j] == 1 - TWO26
    ensures Below(s, 10, TWO26) && Owed(s, 9) == 3 && s[9] - Owed(s, 8) < -TWO25
  {
    OwedByAll(s, 8);
    OwedByAll(s, 9);
  }

  /** The limbs after one pass: each gives what the limb below borrows and gains what it borrows itself, and limb zero
      gives nineteen times what limb nine borrows. */
  ghost predicate Passed(s: seq<int>, t: seq<int>)
    requires |s| == |t| == 10
  {
    && t[0] == Lifted(s[0], TWO26) - 19 * Owed(s, 9)
    && forall i :: 1 <= i < 10 ==> t[i] == Lifted(s[i] - Owed(s, i - 1), Width(i))
  }

  /** Makes limb `i` non-negative at the expense of limb `i + 1`. */
  method BorrowStep(input: array<int32>, i: nat)
    requires input.Length == 10 && i < 9 && -TWO26 - 3 <= input[i] < TWO26 && -TWO26 < input[i + 1] < TWO26
    modifies input
    ensures 0 <= old(input[i]) ==> input[i] == old(input[i]) && input[i + 1] == old(input[i + 1])
    ensures old(input[i]) < 0 ==>
      0 <= input[i] < Width(i) && old(input[i + 1]) - 3 <= input[i + 1] <= old(input[i + 1]) - 1
    ensures -TWO25 <= old(input[i]) < 0 ==>
      input[i] == old(input[i]) + Width(i) && input[i + 1] == old(input[i + 1]) - 1
    ensures input[i] == Lifted(old(input[i]), Width(i))
    ensures input[i + 1] == old(input[i + 1]) + Borrowed(old(input[i]), Width(i))
    ensures forall j :: 0 <= j < 10 && j != i && j != i + 1 ==> input[j] == old(input[j])
    ensures Val(input[..]) == old(Val(input[..]))
  {
    hide Limbs;
    ghost var before: seq<int> := input[..];
    var carry := -Borrowed(input[i], Width(i));
    input[i] := input[i] + carry * Width(i);
    input[i + 1] := input[i + 1] - carry;
    CarryKeeps(before, input[..], 0, i, -carry, 10);
  }

  /** The last limb borrows from the first, nineteen-fold. */
  method BorrowTop(input: array<int32>)
    requires input.Length == 10 && -TWO26 - 3 <= input[9] < TWO26 && 0 <= input[0] < TWO26
    modifies input
    ensures 0 <= input[9] < TWO26 && input[0] >= old(input[0]) - 57 && input[0] <= old(input[0])
    ensures 0 <= old(input[9]) ==> input[0] == old(input[0])
    ensures -TWO25 <= old(input[9]) < 0 ==> input[0] == old(input[0]) - 19
    ensures input[9] == Lifted(old(input[9]), TWO25)
    ensures input[0] == old(input[0]) + 19 * Borrowed(old(input[9]), TWO25)
    ensures forall j :: 1 <= j < 9 ==> input[j] == old(input[j])
    ensures Cong(Val(input[..]), old(Val(input[..])))
  {
    hide Limbs;
    ghost var before: seq<int> := input[..];
    var carry := -Borrowed(input[9], TWO25);
    input[9] := input[9] + carry * TWO25;
    input[0] := input[0] - carry * 19;
    EndsValue(before, input[..], carry);
  }

  /** Moving `c` units across the ends changes the value by `c` times the prime. */
  lemma EndsValue(s: seq<int>, t: seq<int>, c: int)
    requires |s| == |t| == 10 && t[9] == s[9] + c * TWO25 && t[0] == s[0] - c * 19
    requires forall j :: 1 <= j < 9 ==> t[j] == s[j]
    ensures Cong(Val(t), Val(s))
  {
    hide Limbs;
    ValExplicit(s);
    ValExplicit(t);
    CongBy(Val(t), Val(s), c);
  }

  /** Limbs one to nine are non-negative and limb zero is at worst slightly negative. */
  ghost predicate NearlyPositive(s: seq<int>) {
    |s| == 10 && -57 <= s[0] < TWO26 && forall i :: 1 <= i < 10 ==> 0 <= s[i] < TWO26
  }

  /** One borrow pass leaves only limb zero possibly negative, and a second one not even that. */
  method BorrowPass(input: array<int32>)
    requires input.Length == 10 && Below(input[..], 10, TWO26)
    modifies input
    ensures NearlyPositive(input[..])
    ensures old(NearlyPositive(input[..])) ==> 0 <= input[0]
    ensures Passed(old(input[..]), input[..])
    ensures Cong(Val(input[..]), old(Val(input[..])))
  {
    hide Limbs, Borrowed, Lifted, Owed;
    ghost var s := input[..];
    ghost var tame := NearlyPositive(s);
    var i := 0;
    while i < 9
      invariant 0 <= i <= 9
      invariant forall j :: 0 <= j < i ==> 0 <= input[j] < TWO26
      invariant -TWO26 - 3 <= input[i] < TWO26
      invariant forall j :: i < j < 10 ==> input[j] == s[j]
      invariant tame && i == 0 ==> -57 <= input[0]
      invariant tame && i > 0 ==> -1 <= input[i] && (input[i] < 0 ==> TWO26 - 57 <= input[0])
      invariant i > 0 ==> input[0] == Lifted(s[0], TWO26)
      invariant forall j :: 1 <= j < i ==> input[j] == Lifted(s[j] - Owed(s, j - 1), Width(j))
      invariant input[i] == Left(s, i)
      invariant Val(input[..]) == Val(s)
    {
      OwedIs(s, i);
      BorrowStep(input, i);
      i := i + 1;
    }
    OwedIs(s, 9);
    BorrowTop(input);
  }

  lemma OwedIs(s: seq<int>, i: nat)
    requires i < |s|
    ensures Owed(s, i) == -Borrowed(Left(s, i), Width(i))
  {
  }

  /** Moves what limb `i` holds above its width to limb `i + 1`. */
  method CarryStep(input: array<int32>, i: nat)
    requires input.Length == 10 && i < 9 && 0 <= input[i] < TWO26 + 57 && 0 <= input[i + 1] < TWO26
    modifies input
    ensures 0 <= input[i] < Width(i) && old(input[i + 1]) <= input[i + 1] <= old(input[i + 1]) + 2
    ensures old(input[i]) < Width(i) ==> input[i] == old(input[i]) && input[i + 1] == old(input[i + 1])
    ensures Width(i) <= old(input[i]) < 2 * Width(i) ==>
      input[i] == old(input[i]) - Width(i) && input[i + 1] == old(input[i + 1]) + 1
    ensures forall j :: 0 <= j < 10 && j != i && j != i + 1 ==> input[j] == old(input[j])
    ensures Val(input[..]) == old(Val(input[..]))
  {
    hide Limbs;
    ghost var before: seq<int> := input[..];
    var carry := input[i] / Width(i);
    input[i] := input[i] % Width(i);
    input[i + 1] := input[i + 1] + carry;
    CarryKeeps(before, input[..], 0, i, carry, 10);
  }

  method CarryTop(input: array<int32>)
    requires input.Length == 10 && 0 <= input[9] <= TWO26 + 2 && 0 <= input[0] < TWO26
    modifies input
    ensures 0 <= input[9] < TWO25 && old(input[0]) <= input[0] <= old(input[0]) + 38
    ensures old(input[9]) < TWO25 ==> input[0] == old(input[0])
    ensures forall j :: 1 <= j < 9 ==> input[j] == old(input[j])
    ensures Cong(Val(input[..]), old(Val(input[..])))
  {
    hide Limbs;
    ghost var before: seq<int> := input[..];
    var carry := input[9] / TWO25;
    input[9] := input[9] % TWO25;
    input[0] := input[0] + 19 * carry;
    EndsValue(before, input[..], -carry);
  }

  /** Limbs one to nine are within their widths and limb zero at worst slightly above. */
  ghost predicate NearlyReduced(s: seq<int>) {
    |s| == 10 && 0 <= s[0] < TWO26 + 38 && forall i :: 1 <= i < 10 ==> 0 <= s[i] < Width(i)
  }

  /** One carry pass leaves only limb zero possibly too large, and a second one not even that. */
  method CarryPass(input: array<int32>)
    requires input.Length == 10 && 0 <= input[0] < TWO26 + 38 && forall i :: 1 <= i < 10 ==> 0 <= input[i] < TWO26
    modifies input
    ensures NearlyReduced(input[..])
    ensures old(NearlyReduced(input[..])) ==> input[0] < TWO26
    ensures Cong(Val(input[..]), old(Val(input[..])))
  {
    hide Limbs;
    ghost var s := input[..];
    ghost var tame := NearlyReduced(s);
    var i := 0;
    while i < 9
      invariant 0 <= i <= 9
      invariant forall j :: 0 <= j < i ==> 0 <= input[j] < Width(j)
      invariant 0 <= input[i] < TWO26 + (if i == 0 then 38 else 2)
      invariant forall j :: i < j < 10 ==> input[j] == s[j]
      invariant tame && i > 0 ==> input[i] <= Width(i) && (input[i] == Width(i) ==> input[0] < 38)
      invariant Val(input[..]) == Val(s)
    {
      CarryStep(input, i);
      i := i + 1;
    }
    CarryTop(input);
  }

  /** Every limb is within its width. */
  ghost predicate Reduced(s: seq<int>) {
    |s| == 10 && forall i :: 0 <= i < 10 ==> 0 <= s[i] < Width(i)
  }

  /** `x << n` in an unsigned 32-bit word, with `unit` two to the `n`. */
  function Shl32(x: uint32, unit: int): (r: uint32) {
    x * unit % 0x1_0000_0000
  }

  /** `x &= x << n`. */
  function Fold(x: uint32, unit: int): (r: uint32) {
    AndBelow(x, Shl32(x, unit));
    And(x, Shl32(x, unit))
  }

  /** All ones when the operands are equal, else zero: bits that agree are folded onto the top bit, which is then
      spread by an arithmetic shift. */
  function S32Eq(a: int32, b: int32): (mask: int32)
    ensures mask == if a == b then -1 else 0
  {
    hide Fold, Xor;
    EqByFolding(a, b);
    Signed32(Folded(AgreeingBits(a, b))) / 0x8000_0000
  }

  /** `~(a ^ b)`. */
  function AgreeingBits(a: int32, b: int32): (x: uint32) {
    XorWord(Bits32(a), Bits32(b));
    Not32(Xor(Bits32(a), Bits32(b)))
  }

  function Folded(x: uint32): (r: uint32) {
    Fold(Fold(Fold(Fold(Fold(x, 0x1_0000), 0x100), 0x10), 4), 2)
  }

  lemma XorWord(u: uint32, v: uint32)
    ensures 0 <= Xor(u, v) < 0x1_0000_0000
  {
    hide Ones, Xor;
    var n: nat := 32;
    OnesWord(n);
    XorBelow(n, u, v);
  }

  /** The top bit of the folded word is set exactly when the operands are equal. */
  lemma EqByFolding(a: int32, b: int32)
    ensures Folded(AgreeingBits(a, b)) >= 0x8000_0000 <==> a == b
  {
    hide Fold, Xor;
    var x0 := AgreeingBits(a, b);
    var x1 := Fold(x0, 0x1_0000);
    var x2 := Fold(x1, 0x100);
    var x3 := Fold(x2, 0x10);
    var x4 := Fold(x3, 4);
    FoldPowers();
    FoldTop(x0, 16, 0x1_0000, 1);
    FoldTop(x1, 8, 0x100, 0x1_0000);
    FoldTop(x2, 4, 0x10, 0x100_0000);
    FoldTop(x3, 2, 4, 0x1000_0000);
    FoldTop(x4, 1, 2, 0x4000_0000);
    XorEqual(Bits32(a), Bits32(b));
  }

  lemma FoldPowers()
    ensures Pow2(1) == 2 && Pow2(2) == 4 && Pow2(4) == 0x10 && Pow2(8) == 0x100 && Pow2(16) == 0x1_0000
    ensures Pow2(24) == 0x100_0000 && Pow2(28) == 0x1000_0000 && Pow2(30) == 0x4000_0000 && Pow2(31) == 0x8000_0000
    ensures Pow2(32) == 0x1_0000_0000
  {
  }

  lemma {:induction false} OnesPow(k: nat)
    ensures Ones(k) == Pow2(k) - 1
  {
    if k > 0 {
      OnesPow(k - 1);
    }
  }

  /** The bits of a number from bit `m` up. */
  function High(a: nat, m: nat): (r: nat) {
    if m == 0 then a else High(a / 2, m - 1)
  }

  lemma {:induction false} HighIs(a: nat, m: nat)
    ensures High(a, m) == a / Pow2(m)
    decreases m
  {
    if m > 0 {
      HighIs(a / 2, m - 1);
      Halves(a, Pow2(m - 1));
    }
  }

  lemma {:induction false} AndHigh(a: nat, b: nat, m: nat)
    ensures High(And(a, b), m) == And(High(a, m), High(b, m))
    decreases m
  {
    hide And;
    if m > 0 {
      AndHigh(a / 2, b / 2, m - 1);
      AndStep(a, b);
    }
  }

  lemma Halves(a: nat, p: int)
    requires p > 0
    ensures a / (2 * p) == a / 2 / p
  {
    var q, r := a / 2 / p, a / 2 % p;
    assert a == (2 * p) * q + (2 * r + a % 2);
    DivModUnique(a, 2 * p, q, 2 * r + a % 2);
  }

  /** The bits from weight `low` up are all one. */
  predicate TopOnes(x: uint32, low: int)
    requires low > 0
  {
    x / low == 0x1_0000_0000 / low - 1
  }

  /** Folding by `k` makes the top `k` bits all one exactly when the top `2 k` bits were. */
  lemma FoldTop(x: uint32, k: nat, unit: int, w: int)
    requires 0 < unit && 0 < w && unit == Pow2(k) && k <= 32 && unit * w == Pow2(32 - k)
    requires unit * (unit * w) == 0x1_0000_0000
    ensures TopOnes(Fold(x, unit), unit * w) <==> TopOnes(x, w)
  {
    hide And, Ones, Pow2, Shl32, TopOnes;
    var low := unit * w;
    var y := Shl32(x, unit);
    OnesPow(k);
    AndHigh(x, y, 32 - k);
    HighIs(x, 32 - k);
    HighIs(y, 32 - k);
    HighIs(And(x, y), 32 - k);
    TopIs(x, unit, w);
    TopIs(y, unit, w);
    AndFull(k, x / low, y / low);
    AndBelow(x, y);
    TopIs(And(x, y), unit, w);
    ShiftedTop(x, unit, w);
  }

  /** The top bits as a number. */
  lemma TopIs(x: uint32, unit: int, w: int)
    requires 0 < unit && 0 < w && unit * (unit * w) == 0x1_0000_0000
    ensures unit * w > 0 && 0 <= x / (unit * w) < unit && (TopOnes(x, unit * w) <==> x / (unit * w) == unit - 1)
  {
    var low := unit * w;
    QuotientBelow(x, low, unit);
    DivModUnique(0x1_0000_0000, low, unit, 0);
  }

  /** The upper half of the top bits of `x`, and the lower half moved up. */
  lemma ShiftedTop(x: uint32, unit: int, w: int)
    requires 0 < unit && 0 < w && unit * (unit * w) == 0x1_0000_0000
    ensures TopOnes(x, w) <==> x / (unit * w) == unit - 1 && Shl32(x, unit) / (unit * w) == unit - 1
  {
    var low := unit * w;
    var q, r := x / low, x % low;
    var s, t := r / w, r % w;
    QuotientBelow(x, low, unit);
    QuotientBelow(r, w, unit);
    ShiftedOut(x, unit, low, q, r);
    ShiftedDown(r, unit, w, s, t);
    TwoDigitsOf(x, unit, w, q, s, t);
    FullPair(unit, q, s);
  }

  lemma TwoDigitsOf(x: int, unit: int, w: int, q: int, s: int, t: int)
    requires 0 < w && unit * (unit * w) == 0x1_0000_0000 && x == unit * w * q + (w * s + t) && 0 <= t < w
    ensures x / w == unit * q + s && 0x1_0000_0000 / w == unit * unit
  {
    assert w * (unit * q + s) == w * (unit * q) + w * s;
    assert w * (unit * q) == unit * w * q;
    DivModUnique(x, w, unit * q + s, t);
    assert w * (unit * unit) == unit * (unit * w);
    DivModUnique(0x1_0000_0000, w, unit * unit, 0);
  }

  lemma ShiftedOut(x: int, unit: int, low: int, q: int, r: int)
    requires 0 < unit && unit * low == 0x1_0000_0000 && x == low * q + r && 0 <= r < low
    ensures x * unit % 0x1_0000_0000 == r * unit
  {
    assert x * unit == (unit * low) * q + r * unit;
    assert 0 <= r * unit;
    assert (low - 1 - r) * unit >= 0;
    DivModUnique(x * unit, unit * low, q, r * unit);
  }

  lemma ShiftedDown(r: int, unit: int, w: int, s: int, t: int)
    requires 0 < unit && 0 < w && r == w * s + t && 0 <= t < w
    ensures unit * w > 0 && r * unit / (unit * w) == s
  {
    Regrouped(w, s, t, unit);
    MulBounds(t, unit, w - 1, unit);
    MulBounds(1, 1, unit, w);
    assert (w - 1) * unit == unit * w - unit;
    DivModUnique(r * unit, unit * w, s, t * unit);
  }

  lemma Regrouped(w: int, s: int, t: int, unit: int)
    ensures (w * s + t) * unit == (unit * w) * s + t * unit
  {
    assert w * s * unit == (unit * w) * s;
  }

  lemma FullPair(unit: int, q: int, s: int)
    requires 0 <= q < unit && 0 <= s < unit
    ensures unit * q + s == unit * unit - 1 <==> q == unit - 1 && s == unit - 1
  {
    if q < unit - 1 {
      assert unit * (unit - 2 - q) >= 0;
    }
  }

  /** All ones when `a >= b`, else zero: the complement of the sign of the difference. */
  function S32Gte(a: int32, b: int32): (mask: int32)
    requires 0 <= a && 0 <= b
    ensures mask == if a >= b then -1 else 0
  {
    var d: int := a - b;
    -1 - d / 0x8000_0000
  }

  /** `mask & x` for an all-zero or all-one mask. */
  function Masked(mask: int32, x: int32): (r: int32)
    requires mask == 0 || mask == -1
    ensures r == if mask == 0 then 0 else x
  {
    hide And;
    MaskedWord(mask, x);
    Signed32(And(Bits32(mask), Bits32(x)))
  }

  lemma MaskedWord(mask: int32, x: int32)
    requires mask == 0 || mask == -1
    ensures And(Bits32(mask), Bits32(x)) == if mask == 0 then 0 else Bits32(x)
  {
    hide And, Ones;
    if mask == 0 {
      AndZero(Bits32(x));
    } else {
      var n: nat := 32;
      OnesWord(n);
      AndOnes(n, Bits32(x));
    }
  }

  /** The largest value of limb `i`. */
  function Top(i: nat): int {
    Width(i) - 1
  }

  ghost predicate AtLeastPrime(s: seq<int>)
    requires |s| == 10
  {
    s[0] >= TWO26 - 19 && forall i :: 1 <= i < 10 ==> s[i] == Top(i)
  }

  /** Digits within their widths reach the prime only when limbs one to nine are full. */
  lemma PrimeReached(s: seq<int>)
    requires Reduced(s)
    ensures 0 <= Val(s) < TWO255
    ensures AtLeastPrime(s) ==> Val(s) == P + s[0] - (TWO26 - 19)
    ensures !AtLeastPrime(s) ==> Val(s) < P
  {
    hide Limbs, Sum10;
    ValExplicit(s);
    Slack(s[0], s[1], s[2], s[3], s[4], s[5], s[6], s[7], s[8], s[9]);
  }

  lemma Slack(a: int, b: int, c: int, d: int, e: int, f: int, g: int, h: int, i: int, j: int)
    requires 0 <= a < TWO26 && 0 <= c < TWO26 && 0 <= e < TWO26 && 0 <= g < TWO26 && 0 <= i < TWO26
    requires 0 <= b < TWO25 && 0 <= d < TWO25 && 0 <= f < TWO25 && 0 <= h < TWO25 && 0 <= j < TWO25
    ensures var v := Sum10(a, b, c, d, e, f, g, h, i, j);
            && 0 <= v < TWO255
            && (v < P || (b == d == f == h == j == TWO25 - 1 && c == e == g == i == TWO26 - 1 && a >= TWO26 - 19))
            && (b == d == f == h == j == TWO25 - 1 && c == e == g == i == TWO26 - 1 ==> v == P + a - (TWO26 - 19))
  {
  }

  /** Subtracts the prime once if the value reaches it. */
  method SubtractPrime(input: array<int32>)
    requires input.Length == 10 && Reduced(input[..])
    modifies input
    ensures Reduced(input[..]) && Val(input[..]) == old(Val(input[..])) % P
  {
    hide Limbs, S32Eq, Masked;
    ghost var s: seq<int> := input[..];
    var mask := S32Gte(input[0], 0x3ff_ffed);
    var i := 1;
    while i < 10
      invariant 1 <= i <= 10 && (mask == 0 || mask == -1)
      invariant mask == -1 <==> s[0] >= TWO26 - 19 && forall j :: 1 <= j < i ==> s[j] == Top(j)
    {
      mask := Masked(mask, S32Eq(input[i], Top(i)));
      i := i + 1;
    }
    PrimeReached(s);
    input[0] := input[0] - Masked(mask, 0x3ff_ffed);
    i := 1;
    while i < 10
      invariant 1 <= i <= 10 && input[0] == s[0] - Masked(mask, 0x3ff_ffed)
      invariant forall j :: 1 <= j < i ==> input[j] == s[j] - Masked(mask, Top(j))
      invariant forall j :: i <= j < 10 ==> input[j] == s[j]
    {
      input[i] := input[i] - Masked(mask, Top(i));
      i := i + 1;
    }
    if mask == 0 {
      assert input[..] == s;
      DivModUnique(Val(s), P, 0, Val(s));
    } else {
      OnlyFirst(input[..]);
      DivModUnique(Val(s), P, 1, s[0] - (TWO26 - 19));
    }
  }

  lemma OnlyFirst(s: seq<int>)
    requires |s| == 10 && forall i :: 1 <= i < 10 ==> s[i] == 0
    ensures Val(s) == s[0]
  {
    hide Limbs;
    ValExplicit(s);
  }

  // Writing the limbs to bytes.

  /** `x << n` in a signed 32-bit word, with `unit` two to the `n`; the top bit may change the sign. */
  function ShiftLeft32(x: int, unit: int): (r: int32) {
    Signed32(x * unit % 0x1_0000_0000)
  }

  /** `(v >> n) & 0xff` of a signed word, with `unit` two to the `n`. */
  function ByteOf(v: int32, unit: int): (r: uint8)
    requires unit > 0
  {
    v / unit % 0x100
  }

  /** Sign extension never reaches the low byte of a shifted word. */
  lemma ByteOfSigned(u: uint32)
    ensures ByteOf(Signed32(u), 1) == u % 0x100 && ByteOf(Signed32(u), 0x100) == u / 0x100 % 0x100
    ensures ByteOf(Signed32(u), 0x1_0000) == u / 0x1_0000 % 0x100 && ByteOf(Signed32(u), 0x100_0000) == u / 0x100_0000
  {
    ByteBelowSign(u, 1, 0x100_0000);
    ByteBelowSign(u, 0x100, 0x1_0000);
    ByteBelowSign(u, 0x1_0000, 0x100);
    ByteBelowSign(u, 0x100_0000, 1);
  }

  lemma ByteBelowSign(u: uint32, unit: int, c: int)
    requires 0 < unit && unit * (0x100 * c) == 0x1_0000_0000
    ensures ByteOf(Signed32(u), unit) == u / unit % 0x100
  {
    var q, r := u / unit, u % unit;
    assert unit * (q - 0x100 * c) == unit * q - unit * (0x100 * c);
    DivModUnique(u - 0x1_0000_0000, unit, q - 0x100 * c, r);
    ModOfShifted(q, -c, 0x100);
  }

  /** A word above the bits already in the first byte, cut into four bytes. */
  lemma WordBytes(b: int, u: int, x: int, unit: int)
    requires 0 < unit <= 0x40 && 0x100 % unit == 0 && 0 <= b < unit && 0 <= u < 0x1_0000_0000 && u == x * unit
    ensures u % 0x100 % unit == 0 && b + u % 0x100 < 0x100
    ensures b + u == (b + u % 0x100) + 0x100 * (u / 0x100 % 0x100) + 0x1_0000 * (u / 0x1_0000 % 0x100)
                   + 0x100_0000 * (u / 0x100_0000)
  {
    CutBytes(u);
    LowMultiple(u, x, unit, 0x100 / unit);
  }

  lemma CutBytes(u: int)
    requires 0 <= u < 0x1_0000_0000
    ensures u == u % 0x100 + 0x100 * (u / 0x100 % 0x100) + 0x1_0000 * (u / 0x1_0000 % 0x100)
            + 0x100_0000 * (u / 0x100_0000)
  {
  }

  /** The low byte of a multiple of `unit` leaves room for what is below `unit`. */
  lemma LowMultiple(u: int, x: int, unit: int, c: int)
    requires 0 < unit && unit * c == 0x100 && u == x * unit
    ensures u % 0x100 % unit == 0 && u % 0x100 + unit <= 0x100
  {
    var q := u / 0x100;
    var y := x - c * q;
    assert u % 0x100 == unit * y by {
      assert unit * (x - c * q) == u - (unit * c) * q;
    }
    DivModUnique(u % 0x100, unit, y, 0);
    assert y < c;
    assert unit * (c - 1 - y) >= 0;
  }

  /** The number in a prefix, with four bytes written at `s` over bits `b`. */
  lemma FourBytes(before: seq<uint8>, after: seq<uint8>, s: nat, u: int)
    requires |before| == |after| && s + 4 <= |before| && after[..s] == before[..s]
    requires var a: seq<int> := after;
             before[s] + u == a[s] + 0x100 * a[s + 1] + 0x1_0000 * a[s + 2] + 0x100_0000 * a[s + 3]
    ensures Le(after[..s + 4]) == Le(before[..s + 1]) + Pow2(8 * s) * u
  {
    hide Le, Pow2;
    assert before[..s + 1] == before[..s] + before[s..s + 1];
    assert after[..s + 4] == before[..s] + after[s..s + 4];
    LeConcat(before[..s], before[s..s + 1]);
    LeConcat(before[..s], after[s..s + 4]);
    LeSingle(before[s..s + 1]);
    LeFour(after[s..s + 4]);
    var p, b := Pow2(8 * s), before[s] as int;
    assert p * (b + u) == p * b + p * u;
  }

  lemma LeFour(s: seq<uint8>)
    requires |s| == 4
    ensures var a: seq<int> := s;
            Le(s) == a[0] + 0x100 * a[1] + 0x1_0000 * a[2] + 0x100_0000 * a[3]
  {
    assert s[1..][1..] == s[2..] && s[2..][1..] == s[3..] && s[3..][1..] == [];
    assert Le(s[2..]) == s[2] as int + 0x100 * Le(s[3..]);
  }

  /** Adds the limb `x`, shifted by `unit`, at byte `s`: the first byte is merged with what it holds. */
  method PutLimb(output: array<uint8>, x: int32, s: nat, unit: int)
    requires s + 4 <= output.Length && 0 < unit <= 0x40 && 0x100 % unit == 0 && 0 <= x && x * unit < 0x1_0000_0000
    requires output[s] < unit
    modifies output
    ensures Le(output[..s + 4]) == old(Le(output[..s + 1])) + Pow2(8 * s) * (x * unit)
    ensures output[s + 3] == x * unit / 0x100_0000
    ensures forall j :: 0 <= j < output.Length && !(s <= j < s + 4) ==> output[j] == old(output[j])
  {
    hide Le, Pow2, ByteOf, Signed32;
    ghost var before := output[..];
    var v := ShiftLeft32(x, unit);
    ghost var u := ShiftedWord(x, unit);
    ByteOfSigned(u);
    WordBytes(output[s], u, x, unit);
    output[s] := DisjointOr(ByteOf(v, 1), output[s], unit);
    output[s + 1] := ByteOf(v, 0x100);
    output[s + 2] := ByteOf(v, 0x1_0000);
    output[s + 3] := ByteOf(v, 0x100_0000);
    FourBytes(before, output[..], s, u);
  }

  lemma ShiftedWord(x: int, unit: int) returns (u: uint32)
    requires 0 <= x && 0 < unit && x * unit < 0x1_0000_0000
    ensures u == x * unit && ShiftLeft32(x, unit) == Signed32(u)
  {
    u := x * unit;
  }

  lemma NoBytes()
    ensures Pow2(0) == 1
  {
  }

  /** The places of the limbs: byte `s` and the shift within it make the weight of the limb. */
  lemma Places()
    ensures Pow2(0) == 1 && Pow2(24) * 4 == W1 && Pow2(48) * 8 == W2 && Pow2(72) * 32 == W3 && Pow2(96) * 64 == W4
    ensures Pow2(128) == W5 && Pow2(152) * 2 == W6 && Pow2(176) * 8 == W7 && Pow2(200) * 16 == W8
            && Pow2(224) * 64 == W9
  {
    hide Pow2;
    NoBytes();
    Pow2Three(0);
    Pow2Three(24);
    Pow2Three(48);
    Pow2Three(72);
    Pow2Three(96);
    Pow2Next(120);
    Pow2Three(128);
    Pow2Three(152);
    Pow2Three(176);
    Pow2Three(200);
  }

  lemma Pow2Three(n: nat)
    ensures Pow2(n + 24) == 0x100_0000 * Pow2(n)
  {
    hide Pow2;
    Pow2Next(n);
    Pow2Next(n + 8);
    Pow2Next(n + 16);
  }

  lemma Placed(p: int, x: int, unit: int, w: int)
    requires p * unit == w
    ensures p * (x * unit) == w * x
  {
    assert p * (x * unit) == (p * unit) * x;
  }

  /** Writes a limb of known weight. */
  method PutWeighted(output: array<uint8>, x: int32, s: nat, unit: int, ghost w: int, ghost low: int,
                     ghost width: int, ghost next: int)
    requires s + 4 <= output.Length && 0 < unit <= 0x40 && 0x100 % unit == 0 && 0 <= x < width
    requires width * unit == 0x100_0000 * next && next <= 0x100
    requires output[s] < unit && Pow2(8 * s) * unit == w && Le(output[..s + 1]) == low
    modifies output
    ensures Le(output[..s + 4]) == low + w * x && output[s + 3] < next
    ensures forall j :: s + 4 <= j < output.Length ==> output[j] == old(output[j])
  {
    hide Le, Pow2;
    assert x * unit < 0x100_0000 * next by {
      MulBounds(x, unit, width - 1, unit);
      assert (width - 1) * unit == width * unit - unit;
    }
    PutLimb(output, x, s, unit);
    Placed(Pow2(8 * s), x, unit, w);
    QuotientBelow(x * unit, 0x100_0000, next);
  }

  lemma SkipZero(s: seq<uint8>, n: nat)
    requires n < |s| && s[n] == 0
    ensures Le(s[..n + 1]) == Le(s[..n])
  {
    hide Le, Pow2;
    assert s[..n + 1] == s[..n] + [0];
    LeConcat(s[..n], [0]);
    LeSingle([0]);
  }

  /** The first five limbs fill sixteen bytes exactly. */
  method WriteLow(output: array<uint8>, input: array<int32>)
    requires output.Length == 32 && input.Length == 10 && Reduced(input[..]) && output[0] == 0
    modifies output
    ensures var a: seq<int> := input[..];
            Le(output[..16]) == a[0] + W1 * a[1] + W2 * a[2] + W3 * a[3] + W4 * a[4]
    ensures forall j :: 16 <= j < 32 ==> output[j] == old(output[j])
  {
    hide Le, Pow2;
    Places();
    NoPrefix(output[..]);
    var a: seq<int> := input[..];
    PutWeighted(output, input[0], 0, 1, 1, 0, TWO26, 4);
    var v0 := a[0];
    PutWeighted(output, input[1], 3, 4, W1, v0, TWO25, 8);
    var v1 := v0 + W1 * a[1];
    PutWeighted(output, input[2], 6, 8, W2, v1, TWO26, 32);
    var v2 := v1 + W2 * a[2];
    PutWeighted(output, input[3], 9, 32, W3, v2, TWO25, 64);
    var v3 := v2 + W3 * a[3];
    PutWeighted(output, input[4], 12, 64, W4, v3, TWO26, 256);
  }

  lemma NoPrefix(s: seq<uint8>)
    requires |s| > 0 && s[0] == 0
    ensures Le(s[..1]) == 0
  {
  }

  /** The last five limbs follow on the upper sixteen bytes. */
  method WriteHigh(output: array<uint8>, input: array<int32>)
    requires output.Length == 32 && input.Length == 10 && Reduced(input[..]) && output[16] == 0
    modifies output
    ensures var a: seq<int> := input[..];
            Le(output[..]) == old(Le(output[..16])) + W5 * a[5] + W6 * a[6] + W7 * a[7] + W8 * a[8] + W9 * a[9]
  {
    hide Le, Pow2;
    Places();
    SkipZero(output[..], 16);
    assert output[..][..17] == output[..17] && output[..][..16] == output[..16];
    var a: seq<int> := input[..];
    ghost var v4 := Le(output[..16]);
    PutWeighted(output, input[5], 16, 1, W5, v4, TWO25, 2);
    ghost var v5 := v4 + W5 * a[5];
    PutWeighted(output, input[6], 19, 2, W6, v5, TWO26, 8);
    ghost var v6 := v5 + W6 * a[6];
    PutWeighted(output, input[7], 22, 8, W7, v6, TWO25, 16);
    ghost var v7 := v6 + W7 * a[7];
    PutWeighted(output, input[8], 25, 16, W8, v7, TWO26, 64);
    ghost var v8 := v7 + W8 * a[8];
    PutWeighted(output, input[9], 28, 64, W9, v8, TWO25, 128);
    assert output[..32] == output[..];
  }

  /** The canonical encoding: the number modulo the prime, in 32 little-endian bytes. */
  method FContract(output: array<uint8>, inputLimbs: array<int64>)
    requires output.Length == 32 && inputLimbs.Length >= 10 && Below(inputLimbs[..], 10, TWO26)
    modifies output
    ensures output[..] == ToLe(32, Val(inputLimbs[..]) % P)
  {
    hide Limbs, Le, ToLe;
    ghost var v := Val(inputLimbs[..]);
    var input := new int32[10];
    var i := 0;
    while i < 10
      invariant 0 <= i <= 10 && forall j :: 0 <= j < i ==> input[j] == inputLimbs[j]
    {
      input[i] := inputLimbs[i];
      i := i + 1;
    }
    LimbsSame(inputLimbs[..], input[..], 0, 10);
    Normalize(input);
    SubtractPrime(input);
    output[0] := 0;
    output[16] := 0;
    WriteLow(output, input);
    WriteHigh(output, input);
    ValExplicit(input[..]);
    ToLeOfLe(output[..]);
  }

  /** Two borrow passes, a last borrow that finds nothing to do, and two carry passes. */
  method Normalize(input: array<int32>)
    requires input.Length == 10 && Below(input[..], 10, TWO26)
    modifies input
    ensures Reduced(input[..]) && Val(input[..]) % P == old(Val(input[..])) % P
  {
    hide Limbs, Passed, Borrowed, Lifted;
    ghost var v0 := Val(input[..]);
    BorrowPass(input);
    ghost var v1 := Val(input[..]);
    BorrowPass(input);
    ghost var v2 := Val(input[..]);
    BorrowStep(input, 0);
    CarryPass(input);
    ghost var v3 := Val(input[..]);
    CarryPass(input);
    CongResidue(v1, v0);
    CongResidue(v2, v1);
    CongResidue(v3, v2);
    CongResidue(Val(input[..]), v3);
  }
}
