/** The X25519 function of section 5 of RFC 7748 on byte strings. */
module X25519 {
  import opened Arith
  import opened Words
  import opened Bytes
  import opened Field25519
  import opened FieldOps
  import opened Ladder
  import opened Recip
  import opened Contract
  import Fe
  import Quotient
  import Montgomery

  /** `limb` is the digit of `n` at weight `w`. */
  ghost predicate IsDigit(limb: int, n: int, w: int, width: int) {
    0 < w && 0 < width && limb == n / w % width
  }

  /** Four bytes at `start`, shifted down and cut to the width of a limb. */
  method LoadLimb(input: seq<uint8>, start: nat, unit: int, width: int, ghost w: int,
                  ghost spare: int) returns (limb: int64)
    requires |input| == 32 && start + 4 <= 32 && 0 < unit && 0 < width && Pow2(8 * start) * unit == w
    requires 0 < spare && unit * width * spare == 0x1_0000_0000
    ensures IsDigit(limb, Le(input), w, width)
  {
    hide Le, Pow2;
    var b: seq<int> := input;
    var word := b[start] + 0x100 * b[start + 1] + 0x1_0000 * b[start + 2] + 0x100_0000 * b[start + 3];
    LoadWindow(input, start, unit, width, w, spare, word);
    limb := word / unit % width;
  }

  lemma LoadWindow(input: seq<uint8>, start: nat, unit: int, width: int, w: int, spare: int, word: int)
    requires |input| == 32 && start + 4 <= 32 && 0 < unit && 0 < width && Pow2(8 * start) * unit == w
    requires 0 < spare && unit * width * spare == 0x1_0000_0000
    requires var b: seq<int> := input;
             word == b[start] + 0x100 * b[start + 1] + 0x1_0000 * b[start + 2] + 0x100_0000 * b[start + 3]
    ensures 0 < w && word / unit % width == Le(input) / w % width
  {
    hide Le, Pow2;
    assert input == input[..start] + input[start..];
    assert input[start..] == input[start..start + 4] + input[start + 4..];
    LeConcat(input[..start], input[start..]);
    LeConcat(input[start..start + 4], input[start + 4..]);
    LeFour(input[start..start + 4]);
    LeBound(input[..start]);
    var n: nat := 8;
    Pow2Three(n);
    Pow2Byte(n);
    WindowOf(Le(input), Le(input[..start]), Pow2(8 * start), word, Le(input[start + 4..]), unit, width, spare);
  }

  /** Bits above a low part and below 2^32 of the rest are bits of the whole. */
  lemma WindowOf(n: int, low: int, p: int, word: int, high: int, unit: int, width: int, spare: int)
    requires 0 <= low < p && 0 < unit && 0 < width && n == low + p * (word + 0x1_0000_0000 * high)
    requires 0 < spare && unit * width * spare == 0x1_0000_0000
    ensures 0 < p * unit && n / (p * unit) % width == word / unit % width
  {
    var m := spare * high;
    FourFactors(unit, width, spare, high);
    DropLow(n, low, p, word, width * m, unit);
    ModOfShifted(word / unit, m, width);
  }

  lemma FourFactors(a: int, b: int, c: int, d: int)
    ensures (a * b * c) * d == a * (b * (c * d))
  {
    assert (a * b * c) * d == (a * b) * (c * d);
    assert (a * b) * (c * d) == a * (b * (c * d));
  }

  lemma DropLow(n: int, low: int, p: int, word: int, k: int, unit: int)
    requires 0 <= low < p && 0 < unit && n == low + p * (word + unit * k)
    ensures 0 < p * unit && n / (p * unit) == word / unit + k
  {
    var q, r := word / unit, word % unit;
    assert word + unit * k == unit * (q + k) + r;
    assert p * (unit * (q + k) + r) == (p * unit) * (q + k) + p * r;
    MulBounds(p, r, p, unit - 1);
    assert p * (unit - 1) == p * unit - p;
    DivModUnique(n, p * unit, q + k, low + p * r);
  }

  method LoadLow(input: seq<uint8>) returns (t0: int64, t1: int64, t2: int64, t3: int64, t4: int64)
    requires |input| == 32
    ensures var n := Le(input);
            && IsDigit(t0, n, 1, TWO26) && IsDigit(t1, n, W1, TWO25) && IsDigit(t2, n, W2, TWO26)
            && IsDigit(t3, n, W3, TWO25) && IsDigit(t4, n, W4, TWO26)
  {
    hide Le, Pow2, IsDigit;
    Places();
    t0 := LoadLimb(input, 0, 1, TWO26, 1, 64);
    t1 := LoadLimb(input, 3, 4, TWO25, W1, 32);
    t2 := LoadLimb(input, 6, 8, TWO26, W2, 8);
    t3 := LoadLimb(input, 9, 32, TWO25, W3, 4);
    t4 := LoadLimb(input, 12, 64, TWO26, W4, 1);
  }

  method LoadHigh(input: seq<uint8>) returns (t5: int64, t6: int64, t7: int64, t8: int64, t9: int64)
    requires |input| == 32
    ensures var n := Le(input);
            && IsDigit(t5, n, W5, TWO25) && IsDigit(t6, n, W6, TWO26) && IsDigit(t7, n, W7, TWO25)
            && IsDigit(t8, n, W8, TWO26) && IsDigit(t9, n, W9, TWO25)
  {
    hide Le, Pow2, IsDigit;
    Places();
    t5 := LoadLimb(input, 16, 1, TWO25, W5, 128);
    t6 := LoadLimb(input, 19, 2, TWO26, W6, 32);
    t7 := LoadLimb(input, 22, 8, TWO25, W7, 16);
    t8 := LoadLimb(input, 25, 16, TWO26, W8, 4);
    t9 := LoadLimb(input, 28, 64, TWO25, W9, 2);
  }

  /** The limbs of a 32-byte number; its top bit is dropped. */
  method FExpand(output: array<int64>, input: seq<uint8>)
    requires output.Length >= 10 && |input| == 32
    modifies output
    ensures Below(output[..], 10, TWO26) && Val(output[..]) == Le(input) % TWO255
  {
    hide Le, Limbs, IsDigit;
    output[0], output[1], output[2], output[3], output[4] := LoadLow(input);
    output[5], output[6], output[7], output[8], output[9] := LoadHigh(input);
    Digits(Le(input), output[..]);
  }

  /** The limbs are the mixed-radix digits of the number. */
  lemma Digits(n: int, t: seq<int>)
    requires 0 <= n && |t| >= 10
    requires IsDigit(t[0], n, 1, TWO26) && IsDigit(t[1], n, W1, TWO25) && IsDigit(t[2], n, W2, TWO26)
    requires IsDigit(t[3], n, W3, TWO25) && IsDigit(t[4], n, W4, TWO26) && IsDigit(t[5], n, W5, TWO25)
    requires IsDigit(t[6], n, W6, TWO26) && IsDigit(t[7], n, W7, TWO25) && IsDigit(t[8], n, W8, TWO26)
    requires IsDigit(t[9], n, W9, TWO25)
    ensures Below(t, 10, TWO26) && Val(t) == n % TWO255
  {
    hide Limbs, IsDigit, Rest;
    ValExplicit(t);
    NoRest(n);
    DigitStep(n, 1, TWO26, W1, t[0]);
    DigitStep(n, W1, TWO25, W2, t[1]);
    DigitStep(n, W2, TWO26, W3, t[2]);
    DigitStep(n, W3, TWO25, W4, t[3]);
    DigitStep(n, W4, TWO26, W5, t[4]);
    DigitStep(n, W5, TWO25, W6, t[5]);
    DigitStep(n, W6, TWO26, W7, t[6]);
    DigitStep(n, W7, TWO25, W8, t[7]);
    DigitStep(n, W8, TWO26, W9, t[8]);
    DigitStep(n, W9, TWO25, TWO255, t[9]);
    RestIs(n, TWO255);
  }

  /** What of `n` lies below weight `w`. */
  ghost function Rest(n: int, w: int): int
    requires 0 < w
  {
    n % w
  }

  lemma NoRest(n: int)
    ensures Rest(n, 1) == 0
  {
  }

  lemma RestIs(n: int, w: int)
    requires 0 < w
    ensures Rest(n, w) == n % w
  {
  }

  lemma DigitStep(n: int, w: int, width: int, next: int, digit: int)
    requires 0 <= n && IsDigit(digit, n, w, width) && next == w * width
    ensures 0 < next && Rest(n, next) == Rest(n, w) + w * digit && 0 <= digit < width
  {
    var q, r := n / w, n % w;
    var c := q / width;
    assert n == next * c + (w * digit + r) by {
      assert w * (width * c + digit) == (w * width) * c + w * digit;
    }
    MulBounds(w, digit, w, width - 1);
    assert w * (width - 1) == w * width - w;
    MulBounds(1, 1, w, width);
    DivModUnique(n, next, c, w * digit + r);
  }

  /** The scalar with its low three bits and top bit cleared and bit 254 set. */
  function Clamp(secret: seq<uint8>): (e: seq<uint8>)
    requires |secret| == 32
    ensures |e| == 32 && e[0] % 8 == 0 && 64 <= e[31] < 128
    ensures e[0] == secret[0] - secret[0] % 8 && e[31] % 64 == secret[31] % 64 && e[1..31] == secret[1..31]
  {
    var low: uint8 := secret[0] / 8 * 8;
    var high: uint8 := secret[31] % 64 + 64;
    [low] + secret[1..31] + [high]
  }

  /** The result of section 5 of RFC 7748: the ladder on the clamped scalar and the u-coordinate with its top bit
      masked, then `x2 * z2^(p - 2)`, encoded canonically. */
  ghost function Shared(secret: seq<uint8>, basepoint: seq<uint8>): seq<uint8>
    requires |secret| == 32 && |basepoint| == 32
  {
    var u := Le(basepoint) % TWO255 % P;
    var m := Multiple(Clamp(secret), u);
    ToLe(32, Fe.Mul(m.x2, Pow(m.z2, P - 2)))
  }

  method Curve25519Donna(mypublic: array<uint8>, secret: seq<uint8>, basepoint: seq<uint8>)
    requires mypublic.Length == 32 && |secret| == 32 && |basepoint| == 32
    modifies mypublic
    ensures mypublic[..] == Shared(secret, basepoint)
  {
    hide Le, ToLe, Limbs, Pow, Multiple, Clamp;
    var bp, x, z, zmone := new int64[10], new int64[10], new int64[11], new int64[10];
    var e := new uint8[32];
    ClampInto(e, secret);
    FExpand(bp, basepoint);
    ghost var u := Le(basepoint) % TWO255 % P;
    CMult(x, z, e, bp, u);
    ghost var m := Multiple(Clamp(secret), u);
    CRecip(zmone, z, m.z2);
    ghost var a, b := Val(x[..]), Val(zmone[..]);
    FMul(z, x, zmone);
    CongResidue(Val(z[..]), a * b);
    Fe.MulOfResidues(a, b);
    FContract(mypublic, z);
  }

  /** On every clamped scalar the ladder of the code, which looks at 256 bits, and that of RFC 7748, which looks at 255,
      reach the same projective points, up to powers of four times the base coordinate. */
  lemma ClampedPoint(secret: seq<uint8>, u: int) returns (p: nat, q: nat)
    requires |secret| == 32
    ensures var a := Multiple(Clamp(secret), u);
            var b := Fe.RfcLadder(Clamp(secret), u, 255, Fe.Ladder(1, 0, u, 1), false);
            && Fe.Scaled(a, b, Fe.Exp(4 * u, p), Fe.Exp(4 * u, q))
            && Fe.Mul(a.x2, b.z2) == Fe.Mul(b.x2, a.z2) && Fe.Mul(a.x3, b.z3) == Fe.Mul(b.x3, a.z3)
  {
    hide Fe.RfcLadder, Fe.Mul, Fe.Bit, Fe.Scaled, Fe.Exp;
    ClampedTop(secret);
    p, q := Fe.TopBitClear(Clamp(secret), u);
  }

  /** A clamped scalar is a multiple of eight with bit 254 as its highest bit. */
  lemma ClampedScalar(secret: seq<uint8>)
    requires |secret| == 32
    ensures var n := Le(Clamp(secret));
            n % 8 == 0 && Pow2(254) <= n < Pow2(255)
  {
    hide Le, Pow2;
    ClampedNumber(Clamp(secret));
  }

  /** On any curve model with the doubling and the differential addition of the curve, the ladder on a clamped secret
      ends with the coordinates of the secret's multiple of the point. */
  lemma ClampedMultiple<T(!new)>(c: Montgomery.Model<T>, secret: seq<uint8>, u: int, p: T)
    requires |secret| == 32 && Montgomery.Lawful(c, u, p) && c.on(1, 0, c.g.zero) && c.on(u, 1, p)
    ensures Montgomery.At(c, p, Multiple(Clamp(secret), u), Le(Clamp(secret)))
  {
    hide Montgomery.Lawful, Montgomery.At, Fe.RfcLadder, Le;
    Montgomery.LadderIsMultiple(c, u, p, Clamp(secret));
  }

  lemma ClampedTop(secret: seq<uint8>)
    requires |secret| == 32
    ensures !Fe.Bit(Clamp(secret), 255)
  {
    hide Pow2;
    var n: nat := 7;
    SevenBits(n);
  }

  /** The function as section 5 of RFC 7748 writes it, with 255 steps. */
  ghost function SharedRfc(secret: seq<uint8>, basepoint: seq<uint8>): seq<uint8>
    requires |secret| == 32 && |basepoint| == 32
  {
    var u := Le(basepoint) % TWO255 % P;
    var m := Fe.RfcLadder(Clamp(secret), u, 255, Fe.Ladder(1, 0, u, 1), false);
    ToLe(32, Fe.Mul(m.x2, Pow(m.z2, P - 2)))
  }

  /** Given Fermat's theorem the bytes of the code are those of RFC 7748, for every secret and every u-coordinate. */
  lemma SharedIsRfc(secret: seq<uint8>, basepoint: seq<uint8>)
    requires |secret| == 32 && |basepoint| == 32 && Quotient.Fermat()
    ensures Shared(secret, basepoint) == SharedRfc(secret, basepoint)
  {
    hide Fe.RfcLadder, Fe.Bit, Fe.Mul, Pow, Le, ToLe, Quotient.Fermat;
    ClampedTop(secret);
    Quotient.SameRatio(Clamp(secret), Le(basepoint) % TWO255 % P);
  }

  lemma SevenBits(n: nat)
    requires n == 7
    ensures Pow2(n) == 0x80
  {
    assert Pow2(n) == 2 * Pow2(n - 1) == 4 * Pow2(n - 2) == 8 * Pow2(n - 3);
    assert Pow2(n - 3) == 2 * Pow2(n - 4) == 4 * Pow2(n - 5) == 8 * Pow2(n - 6) == 16 * Pow2(n - 7);
  }

  method ClampInto(e: array<uint8>, secret: seq<uint8>)
    requires e.Length == 32 && |secret| == 32
    modifies e
    ensures e[..] == Clamp(secret)
  {
    var i := 0;
    while i < 32
      invariant 0 <= i <= 32 && forall j :: 0 <= j < i ==> e[j] == secret[j]
    {
      e[i] := secret[i];
      i := i + 1;
    }
    e[0] := e[0] / 8 * 8;
    e[31] := e[31] % 128;
    e[31] := e[31] % 64 + 64;
  }
}
