/** Machine words of the target and the bit operations the scalar and field code applies to them,
    stated as arithmetic on bounded integers. */
module Words {
  const TWO32: int := 0x1_0000_0000
  const TWO63: int := 0x8000_0000_0000_0000
  const TWO64: int := 0x1_0000_0000_0000_0000
  const TWO128: int := 0x1_0000_0000_0000_0000_0000_0000_0000_0000

  // A value assigned to a variable of one of these types must be proved to fit it.
  type uint8 = x: int | 0 <= x < 0x100
  type uint32 = x: int | 0 <= x < 0x1_0000_0000
  type uint64 = x: int | 0 <= x < 0x1_0000_0000_0000_0000
  type uint128 = x: int | 0 <= x < 0x1_0000_0000_0000_0000_0000_0000_0000_0000
  type int8 = x: int | -0x80 <= x < 0x80
  type int32 = x: int | -0x8000_0000 <= x < 0x8000_0000
  type int64 = x: int | -0x8000_0000_0000_0000 <= x < 0x8000_0000_0000_0000

  /** Unsigned 64-bit wrap-around. */
  function Wrap64(x: int): (r: uint64) {
    x % TWO64
  }

  /** Bitwise or of operands that share no bit: `lo` is below `unit` and `hi` is a multiple of it. */
  function DisjointOr(hi: int, lo: int, unit: int): (r: int)
    requires 0 <= hi && 0 <= lo < unit && hi % unit == 0
    ensures hi <= r && lo <= r
  {
    hi + lo
  }

  // Bitwise operations as arithmetic on the binary digits.

  function And(a: nat, b: nat): nat {
    if a == 0 || b == 0 then 0 else (if a % 2 == 1 && b % 2 == 1 then 1 else 0) + 2 * And(a / 2, b / 2)
  }

  function Xor(a: nat, b: nat): nat
    decreases a + b
  {
    if a == 0 && b == 0 then 0 else (a + b) % 2 + 2 * Xor(a / 2, b / 2)
  }

  lemma AndStep(a: nat, b: nat)
    ensures And(a, b) / 2 == And(a / 2, b / 2)
  {
  }

  lemma XorStep(a: nat, b: nat)
    ensures Xor(a, b) == (a + b) % 2 + 2 * Xor(a / 2, b / 2)
  {
  }

  lemma {:induction false} XorUndone(a: nat, b: nat)
    ensures Xor(a, Xor(a, b)) == b && Xor(a, b) == Xor(b, a)
    decreases a + b
  {
    hide Xor;
    if a > 0 || b > 0 {
      XorUndone(a / 2, b / 2);
      XorStep(a, b);
      XorStep(b, a);
      var c := Xor(a, b);
      assert c / 2 == Xor(a / 2, b / 2);
      XorStep(a, c);
    } else {
      XorZero(0);
    }
  }

  lemma {:induction false} XorZero(a: nat)
    ensures Xor(a, 0) == a
  {
    if a > 0 {
      XorZero(a / 2);
    }
  }

  function Ones(n: nat): nat {
    if n == 0 then 0 else 1 + 2 * Ones(n - 1)
  }

  lemma {:induction false} AndOnes(n: nat, a: nat)
    requires a <= Ones(n)
    ensures And(Ones(n), a) == a
  {
    if n > 0 {
      AndOnes(n - 1, a / 2);
    }
  }

  lemma {:induction false} XorBelow(n: nat, a: nat, b: nat)
    requires a <= Ones(n) && b <= Ones(n)
    ensures Xor(a, b) <= Ones(n)
  {
    if n > 0 {
      XorBelow(n - 1, a / 2, b / 2);
    }
  }

  lemma {:induction false} XorEqual(a: nat, b: nat)
    ensures Xor(a, b) == 0 <==> a == b
    decreases a + b
  {
    if a > 0 || b > 0 {
      XorEqual(a / 2, b / 2);
    }
  }

  lemma {:induction false} XorOnes(n: nat, a: nat)
    requires a <= Ones(n)
    ensures Xor(a, Ones(n)) == Ones(n) - a
  {
    if n > 0 {
      XorOnes(n - 1, a / 2);
    }
  }

  lemma {:induction false} AndBelow(a: nat, b: nat)
    ensures And(a, b) <= a
  {
    if a > 0 && b > 0 {
      AndBelow(a / 2, b / 2);
    }
  }

  /** All ones come only from all ones. */
  lemma {:induction false} AndFull(n: nat, a: nat, b: nat)
    requires a <= Ones(n) && b <= Ones(n)
    ensures And(a, b) == Ones(n) <==> a == Ones(n) && b == Ones(n)
  {
    if n > 0 {
      AndFull(n - 1, a / 2, b / 2);
    }
  }

  /** The complement of a word. */
  function Not32(x: uint32): (r: uint32) {
    0xffff_ffff - x
  }

  /** The two's complement bits of a signed word. */
  function Bits32(x: int32): (b: uint32) {
    x % 0x1_0000_0000
  }

  /** The signed word with the given bits. */
  function Signed32(b: uint32): (x: int32) {
    if b < 0x8000_0000 then b else b - 0x1_0000_0000
  }

  /** The conditional exchange `x = mask & (u ^ v)`, `u ^= x`, `v ^= x`: nothing happens under an all-zero mask, the
      operands trade places under an all-one mask. */
  lemma MaskedExchange32(iswap: int32, a: int32, b: int32)
    requires iswap == 0 || iswap == 1
    ensures var u, v := Bits32(a), Bits32(b);
            var x := And(Bits32(-iswap), Xor(u, v));
            && 0 <= Xor(u, x) < 0x1_0000_0000 && 0 <= Xor(v, x) < 0x1_0000_0000
            && Signed32(Xor(u, x)) == (if iswap == 1 then b else a)
            && Signed32(Xor(v, x)) == (if iswap == 1 then a else b)
  {
    hide Xor, And, Ones;
    var u, v := Bits32(a), Bits32(b);
    if iswap == 0 {
      XorZero(u);
      XorZero(v);
      AndZero(Xor(u, v));
    } else {
      var n: nat := 32;
      OnesWord(n);
      XorBelow(n, u, v);
      AndOnes(n, Xor(u, v));
      XorUndone(u, v);
      XorUndone(v, u);
    }
  }

  /** The idiom `r ^= mask & (r ^ t)`: an all-zero mask keeps the word and an all-one mask replaces it. */
  lemma MaskedCopy64(mask: uint64, r: uint64, t: uint64)
    requires mask == 0 || mask == 0xffff_ffff_ffff_ffff
    ensures Xor(r, And(mask, Xor(r, t))) == if mask == 0 then r else t
  {
    hide Xor, And, Ones;
    if mask == 0 {
      AndZero(Xor(r, t));
      XorZero(r);
    } else {
      var n: nat := 64;
      OnesDoubleWord(n);
      XorBelow(n, r, t);
      AndOnes(n, Xor(r, t));
      XorUndone(r, t);
    }
  }

  lemma AndZero(a: nat)
    ensures And(0, a) == 0
  {
  }

  lemma OnesByte(n: nat)
    requires n >= 8
    ensures Ones(n) == 0xff + 0x100 * Ones(n - 8)
  {
    assert Ones(n) == 3 + 4 * Ones(n - 2) == 15 + 16 * Ones(n - 4);
    assert Ones(n - 4) == 3 + 4 * Ones(n - 6) == 15 + 16 * Ones(n - 8);
  }

  lemma OnesStep(n: nat)
    requires n > 0
    ensures Ones(n) == 1 + 2 * Ones(n - 1)
  {
  }

  lemma NoOnes()
    ensures Ones(0) == 0
  {
  }

  lemma OnesWord(n: nat)
    requires n == 32
    ensures Ones(n) == 0xffff_ffff
  {
    hide Ones;
    OnesByte(n);
    OnesByte(n - 8);
    OnesByte(n - 16);
    OnesByte(n - 24);
    NoOnes();
  }

  lemma OnesDoubleWord(n: nat)
    requires n == 64
    ensures Ones(n) == 0xffff_ffff_ffff_ffff
  {
    hide Ones;
    OnesByte(n);
    OnesByte(n - 8);
    OnesByte(n - 16);
    OnesByte(n - 24);
    OnesWord(n - 32);
  }

  /** Exclusive or of 32-bit words. */
  function Xor32(w: bv32, v: bv32): bv32 {
    w ^ v
  }

  lemma Xor32Laws(a: bv32, b: bv32, c: bv32)
    ensures Xor32(Xor32(a, b), c) == Xor32(a, Xor32(b, c)) && Xor32(a, b) == Xor32(b, a)
    ensures Xor32(Xor32(a, b), b) == a && Xor32(b, Xor32(a, b)) == a
  {
  }
}
