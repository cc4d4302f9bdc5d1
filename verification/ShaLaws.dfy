/** What the words, the sigma functions and the padding of SHA-512 are, bit by bit and number by number. */
module ShaLaws {
  import opened GfBlock
  import opened Ghash
  import opened GcmSpec
  import opened Sha512
  import opened HashStream
  import opened Words
  import opened Counters
  import GcmCtx

  // Words and bytes.

  lemma LoadOfStore(v: bv64)
    ensures Load64(Store64(v)) == v
  {
  }

  lemma StoreOfLoad(p: seq<bv8>)
    requires |p| == 8
    ensures Store64(Load64(p)) == p
  {
    StoredBytes(p[0], p[1], p[2], p[3], p[4], p[5], p[6], p[7]);
    assert p == [p[0], p[1], p[2], p[3], p[4], p[5], p[6], p[7]];
  }

  lemma StoredBytes(a: bv8, b: bv8, c: bv8, d: bv8, e: bv8, f: bv8, g: bv8, h: bv8)
    ensures Store64(Load64([a, b, c, d, e, f, g, h])) == [a, b, c, d, e, f, g, h]
  {
  }

  /** The word of a number, counted from zero. */
  function WordOf(n: nat): bv64 {
    if n == 0 then 0 else Add(WordOf(n - 1), 1)
  }

  /** Bytes shifted in one after the other. */
  function ShiftIn(s: seq<bv8>): bv64 {
    if |s| == 0 then 0 else Shifted(ShiftIn(s[..|s| - 1]), s[|s| - 1])
  }

  function Shifted(x: bv64, b: bv8): bv64 {
    (x << 8) | (b as bv64)
  }

  lemma LoadIsShiftIn(p: seq<bv8>)
    requires |p| == 8
    ensures Load64(p) == ShiftIn(p)
  {
    hide Shifted, Load64;
    TwoShifts(p);
    TwoShifts(p[..6]);
    TwoShifts(p[..4]);
    TwoShifts(p[..2]);
    assert p[..6][..4] == p[..4] && p[..4][..2] == p[..2] && p[..2][..0] == [];
    NoShifts();
    EightShifts(p[0], p[1], p[2], p[3], p[4], p[5], p[6], p[7]);
    assert p == [p[0], p[1], p[2], p[3], p[4], p[5], p[6], p[7]];
  }

  lemma TwoShifts(s: seq<bv8>)
    requires |s| >= 2
    ensures var n := |s| - 2;
            ShiftIn(s) == Shifted(Shifted(ShiftIn(s[..n]), s[n]), s[n + 1])
  {
    hide Shifted;
    assert s[..|s| - 1][..|s| - 2] == s[..|s| - 2];
  }

  lemma NoShifts()
    ensures ShiftIn([]) == 0
  {
  }

  lemma EightShifts(a: bv8, b: bv8, c: bv8, d: bv8, e: bv8, f: bv8, g: bv8, h: bv8)
    ensures Load64([a, b, c, d, e, f, g, h])
         == Shifted(Shifted(Shifted(Shifted(Shifted(Shifted(Shifted(Shifted(0, a), b), c), d), e), f), g), h)
  {
    hide Shifted, Load64;
    var x1 := Shifted(0, a);
    var x2 := Shifted(x1, b);
    var x3 := Shifted(x2, c);
    var x4 := Shifted(x3, d);
    var x5 := Shifted(x4, e);
    var x6 := Shifted(x5, f);
    var x7 := Shifted(x6, g);
    ShiftedIs(0, a);
    ShiftedIs(x1, b);
    ShiftedIs(x2, c);
    ShiftedIs(x3, d);
    ShiftedIs(x4, e);
    ShiftedIs(x5, f);
    ShiftedIs(x6, g);
    ShiftedIs(x7, h);
    EightSteps(a, b, c, d, e, f, g, h, x1, x2, x3, x4, x5, x6, x7, Shifted(x7, h));
    LoadedBytes(a, b, c, d, e, f, g, h);
  }

  lemma ShiftedIs(x: bv64, b: bv8)
    ensures Shifted(x, b) == (x << 8) | (b as bv64)
  {
  }

  lemma EightSteps(a: bv8, b: bv8, c: bv8, d: bv8, e: bv8, f: bv8, g: bv8, h: bv8,
                   x1: bv64, x2: bv64, x3: bv64, x4: bv64, x5: bv64, x6: bv64, x7: bv64, x8: bv64)
    requires x1 == (0 << 8) | (a as bv64) && x2 == (x1 << 8) | (b as bv64) && x3 == (x2 << 8) | (c as bv64)
    requires x4 == (x3 << 8) | (d as bv64) && x5 == (x4 << 8) | (e as bv64) && x6 == (x5 << 8) | (f as bv64)
    requires x7 == (x6 << 8) | (g as bv64) && x8 == (x7 << 8) | (h as bv64)
    ensures x8 == ((a as bv64) << 56) | ((b as bv64) << 48) | ((c as bv64) << 40) | ((d as bv64) << 32)
                | ((e as bv64) << 24) | ((f as bv64) << 16) | ((g as bv64) << 8) | (h as bv64)
  {
  }

  lemma LoadedBytes(a: bv8, b: bv8, c: bv8, d: bv8, e: bv8, f: bv8, g: bv8, h: bv8)
    ensures Load64([a, b, c, d, e, f, g, h])
         == ((a as bv64) << 56) | ((b as bv64) << 48) | ((c as bv64) << 40) | ((d as bv64) << 32)
          | ((e as bv64) << 24) | ((f as bv64) << 16) | ((g as bv64) << 8) | (h as bv64)
  {
  }

  /** Adding one to a last byte that is not full. */
  lemma NextLowByte(x: bv64, b: bv8)
    ensures b != 0xff ==> Shifted(x, Next8(b)) == Add(Shifted(x, b), 1)
  {
  }

  /** Adding one to a full last byte carries. */
  lemma NextCarry(x: bv64)
    ensures Shifted(Add(x, 1), 0) == Add(Shifted(x, 0xff), 1)
  {
  }

  lemma LowNext(n: nat)
    ensures Low8(n + 1) == Next8(Low8(n))
  {
    hide Next8, Low8, Number8, ByteOf;
    NextNumber(Low8(n));
    LowOf(n);
    LowOf(n + 1);
    ByteOfNumber(Next8(Low8(n)));
    LowBytes(n + 1);
  }

  lemma LowOf(n: nat)
    ensures Number8(Low8(n)) == n % 256
  {
  }

  /** The last byte is full exactly before a multiple of 256. */
  lemma LowFull(n: nat)
    ensures n % 256 == 255 ==> Low8(n) == 0xff
    ensures n % 256 != 255 ==> Low8(n) != 0xff
    ensures n % 256 == 0 ==> Low8(n) == 0
  {
    hide Low8, Number8, ByteOf;
    LowOf(n);
    NumberIs(0xff);
    ByteOfNumber(0xff);
    NumberZero(Low8(n));
    LowBytes(n);
  }

  lemma LowBytes(n: nat)
    ensures Low8(n) == ByteOf(n % 256)
  {
  }

  /** The word of a number from that of the number without its last byte. */
  lemma {:induction false} WordStep(n: nat)
    ensures WordOf(n) == Shifted(WordOf(n / 256), Low8(n))
  {
    hide Shifted, Low8, Add, Next8;
    LowFull(n);
    if n == 0 {
      NoShift();
    } else {
      var m := n - 1;
      WordStep(m);
      LowNext(m);
      LowFull(m);
      NextLowByte(WordOf(m / 256), Low8(m));
      NextCarry(WordOf(m / 256));
      Quotients(m);
    }
  }

  lemma Quotients(m: nat)
    ensures m % 256 == 255 ==> (m + 1) % 256 == 0 && (m + 1) / 256 == m / 256 + 1
    ensures m % 256 != 255 ==> (m + 1) / 256 == m / 256
  {
  }

  lemma NoShift()
    ensures Shifted(0, 0) == 0
  {
  }

  lemma {:induction false} ShiftInIs(k: nat, n: nat)
    requires n < Exp256(k)
    ensures ShiftIn(Be(k, n)) == WordOf(n)
    decreases k
  {
    hide Shifted, Low8;
    if k > 0 {
      ShiftInIs(k - 1, n / 256);
      WordStep(n);
      assert Be(k, n)[..k - 1] == Be(k - 1, n / 256);
    }
  }

  lemma BytesRange()
    ensures Exp256(8) == TWO64
  {
    assert Exp256(4) == 0x1_0000_0000;
  }

  /** Loading reads the big-endian number, and storing writes it. */
  lemma LoadIs(n: nat)
    requires n < TWO64
    ensures Load64(Be(8, n)) == WordOf(n) && Store64(WordOf(n)) == Be(8, n)
  {
    hide Be, ShiftIn, WordOf, Load64, Store64, Exp256;
    BytesRange();
    LoadIsShiftIn(Be(8, n));
    ShiftInIs(8, n);
    StoreOfLoad(Be(8, n));
  }

  /** Every word is stored where it belongs. */
  lemma StoreAllIs(h: seq<bv64>, i: nat)
    requires |h| == 8 && i < 8
    ensures |StoreAll(h)| == 64 && StoreAll(h)[8 * i..8 * i + 8] == Store64(h[i])
  {
    hide Store64;
  }

  // The padding.

  lemma SmallLow(b: bv8, n: nat)
    requires n < 256 && Number8(b) == n
    ensures Low8(n) == b && Be(16, n) == Zeros(15) + [b]
  {
    hide Low8, Number8, ByteOf;
    ByteOfNumber(b);
    LowBytes(n);
    GcmCtx.BeZero(15);
    assert Be(16, n) == Be(15, 0) + [Low8(n)];
  }

  /** A message of `n` bytes below 112 is padded with an end mark, zeros and its length in bits, here in one byte. */
  lemma ShortPad(s: seq<bv8>, bits: bv8)
    requires 8 * |s| < 256 && Number8(bits) == 8 * |s|
    ensures Pad(s) == s + [0x80] + Zeros(126 - |s|) + [bits]
  {
    hide Be, Number8;
    SmallLow(bits, 8 * |s|);
    assert Gap(|s|) == 111 - |s|;
    assert Zeros(111 - |s|) + (Zeros(15) + [bits]) == Zeros(126 - |s|) + [bits];
  }

  /** The padding of the empty message and of the three bytes "abc". */
  lemma KnownPads()
    ensures Pad([]) == [0x80] + Zeros(127)
    ensures Pad([0x61, 0x62, 0x63]) == [0x61, 0x62, 0x63, 0x80] + Zeros(123) + [0x18]
  {
    hide Pad, Number8;
    NumberZero(0);
    NumberIs(0x18);
    ShortPad([], 0);
    ShortPad([0x61, 0x62, 0x63], 0x18);
    assert [] + [0x80] + Zeros(126) + [0] == [0x80] + Zeros(127);
    assert [0x61, 0x62, 0x63] + [0x80] + Zeros(123) + [0x18] == [0x61, 0x62, 0x63, 0x80] + Zeros(123) + [0x18];
  }

  /** Different messages are padded differently. */
  lemma PadInjective(s: seq<bv8>, t: seq<bv8>)
    requires 8 * |s| < TWO128 && 8 * |t| < TWO128 && Pad(s) == Pad(t)
    ensures s == t
  {
    hide Be, Exp256, Gap;
    var p, q := Pad(s), Pad(t);
    assert p[|p| - 16..] == Be(16, 8 * |s|) && q[|q| - 16..] == Be(16, 8 * |t|);
    LengthRange();
    BeInjective(16, 8 * |s|, 8 * |t|);
    assert p[..|s|] == s && q[..|t|] == t;
  }

  lemma LengthRange()
    ensures Exp256(16) == TWO128
  {
    BytesRange();
    assert Exp256(16) == 0x1_0000_0000 * Exp256(12) == TWO64 * Exp256(8) by {
      assert Exp256(12) == 0x1_0000_0000 * Exp256(8);
    }
  }
}
