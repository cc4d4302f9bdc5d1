/** Sixteen-byte blocks as field elements, and the word-level products with x and x^8. */
module GfBlock {
  import opened GF128
  import opened GfPoly
  import Bytes

  type Block = s: seq<bv8> | |s| == 16 witness ZeroBlock()

  function ZeroBlock(): (s: seq<bv8>)
    ensures |s| == 16
  {
    seq(16, i => 0)
  }

  /** Bitwise exclusive or of bytes. */
  function Xor8(b: bv8, c: bv8): bv8 {
    b ^ c
  }

  lemma Xor8Laws(b: bv8, c: bv8, d: bv8)
    ensures Xor8(b, c) == Xor8(c, b) && Xor8(Xor8(b, c), d) == Xor8(b, Xor8(c, d))
    ensures Xor8(b, 0) == b == Xor8(0, b) && Xor8(b, b) == 0 && Xor8(Xor8(b, c), c) == b
  {
  }

  function XorBytes(s: seq<bv8>, t: seq<bv8>): (r: seq<bv8>)
    requires |s| == |t|
    ensures |r| == |s|
  {
    seq(|s|, i requires 0 <= i < |s| => Xor8(s[i], t[i]))
  }

  /** Adding the same bytes again, on either side, takes them off. */
  lemma XorBytesUndone(s: seq<bv8>, t: seq<bv8>)
    requires |s| == |t|
    ensures XorBytes(XorBytes(s, t), t) == s && XorBytes(t, XorBytes(t, s)) == s
  {
    hide Xor8;
    forall i | 0 <= i < |s|
      ensures Xor8(Xor8(s[i], t[i]), t[i]) == s[i] && Xor8(t[i], Xor8(t[i], s[i])) == s[i]
    {
      Xor8Laws(s[i], t[i], t[i]);
      Xor8Laws(t[i], s[i], 0);
      Xor8Laws(t[i], Xor8(s[i], t[i]), 0);
    }
  }

  // Bits: coefficient 8 i + k is bit 7 - k of byte i.

  function Mask(k: nat): bv8
    requires k < 8
  {
    if k == 0 then 0x80 else if k == 1 then 0x40 else if k == 2 then 0x20 else if k == 3 then 0x10
    else if k == 4 then 0x08 else if k == 5 then 0x04 else if k == 6 then 0x02 else 0x01
  }

  predicate BitOf(b: bv8, k: nat)
    requires k < 8
  {
    b & Mask(k) != 0
  }

  function ByteBits(b: bv8): (r: seq<bool>)
    ensures |r| == 8
  {
    seq(8, k requires 0 <= k < 8 => BitOf(b, k))
  }

  function Bits(s: seq<bv8>): (r: seq<bool>)
    ensures |r| == 8 * |s|
  {
    if |s| == 0 then [] else ByteBits(s[0]) + Bits(s[1..])
  }

  lemma {:induction false} BitAt(s: seq<bv8>, i: nat, k: nat)
    requires i < |s| && k < 8
    ensures Bits(s)[8 * i + k] == BitOf(s[i], k)
  {
    hide BitOf;
    if i > 0 {
      BitAt(s[1..], i - 1, k);
      assert Bits(s)[8 * i + k] == Bits(s[1..])[8 * (i - 1) + k];
    }
  }

  lemma {:induction false} BitsConcat(s: seq<bv8>, t: seq<bv8>)
    ensures Bits(s + t) == Bits(s) + Bits(t)
  {
    hide ByteBits;
    if |s| == 0 {
      assert s + t == t;
    } else {
      BitsConcat(s[1..], t);
      assert (s + t)[1..] == s[1..] + t && (s + t)[0] == s[0];
      SeqAssociates(ByteBits(s[0]), Bits(s[1..]), Bits(t));
    }
  }

  lemma SeqAssociates<T>(a: seq<T>, b: seq<T>, c: seq<T>)
    ensures a + (b + c) == (a + b) + c
  {
  }

  lemma BitOfXor(b: bv8, c: bv8, k: nat)
    requires k < 8
    ensures BitOf(Xor8(b, c), k) == (BitOf(b, k) != BitOf(c, k))
  {
    OneBitXor(b, c, Mask(k));
  }

  lemma OneBitXor(b: bv8, c: bv8, m: bv8)
    requires m in {0x80, 0x40, 0x20, 0x10, 0x08, 0x04, 0x02, 0x01}
    ensures ((b ^ c) & m != 0) == ((b & m != 0) != (c & m != 0))
  {
  }

  lemma ByteBitsXor(b: bv8, c: bv8)
    ensures ByteBits(Xor8(b, c)) == Sum(ByteBits(b), ByteBits(c))
  {
    hide BitOf, Xor8;
    forall k | 0 <= k < 8
      ensures BitOf(Xor8(b, c), k) == (BitOf(b, k) != BitOf(c, k))
    {
      BitOfXor(b, c, k);
    }
  }

  lemma {:induction false} BitsXor(s: seq<bv8>, t: seq<bv8>)
    requires |s| == |t|
    ensures Bits(XorBytes(s, t)) == Sum(Bits(s), Bits(t))
  {
    hide ByteBits, Sum, Xor8;
    if |s| == 0 {
      SumConcat([], [], [], []);
    } else {
      BitsXor(s[1..], t[1..]);
      assert XorBytes(s, t)[1..] == XorBytes(s[1..], t[1..]);
      ByteBitsXor(s[0], t[0]);
      SumConcat(ByteBits(s[0]), ByteBits(t[0]), Bits(s[1..]), Bits(t[1..]));
    }
  }

  lemma SumConcat(u: seq<bool>, u': seq<bool>, v: seq<bool>, v': seq<bool>)
    requires |u| == |u'| && |v| == |v'|
    ensures Sum(u + v, u' + v') == Sum(u, u') + Sum(v, v')
  {
  }

  /** The field element a block stands for. */
  function Element(s: Block): Elem {
    Bits(s)
  }

  lemma ElementXor(s: Block, t: Block)
    ensures Element(XorBytes(s, t)) == Xor(Element(s), Element(t))
  {
    BitsXor(s, t);
  }

  lemma {:induction false} BitsZero(n: nat)
    ensures Bits(seq(n, i => 0)) == Falses(8 * n)
  {
    if n > 0 {
      BitsZero(n - 1);
      assert (seq(n, i => 0 as bv8))[1..] == seq(n - 1, i => 0 as bv8);
    }
  }

  lemma ByteDetermined(b: bv8, c: bv8)
    requires ByteBits(b) == ByteBits(c)
    ensures b == c
  {
    assert BitOf(b, 0) == ByteBits(b)[0] == BitOf(c, 0) && BitOf(b, 1) == ByteBits(b)[1] == BitOf(c, 1);
    assert BitOf(b, 2) == ByteBits(b)[2] == BitOf(c, 2) && BitOf(b, 3) == ByteBits(b)[3] == BitOf(c, 3);
    assert BitOf(b, 4) == ByteBits(b)[4] == BitOf(c, 4) && BitOf(b, 5) == ByteBits(b)[5] == BitOf(c, 5);
    assert BitOf(b, 6) == ByteBits(b)[6] == BitOf(c, 6) && BitOf(b, 7) == ByteBits(b)[7] == BitOf(c, 7);
    EightBits(b, c);
  }

  lemma EightBits(b: bv8, c: bv8)
    requires (b & 0x80 == 0) == (c & 0x80 == 0) && (b & 0x40 == 0) == (c & 0x40 == 0)
    requires (b & 0x20 == 0) == (c & 0x20 == 0) && (b & 0x10 == 0) == (c & 0x10 == 0)
    requires (b & 0x08 == 0) == (c & 0x08 == 0) && (b & 0x04 == 0) == (c & 0x04 == 0)
    requires (b & 0x02 == 0) == (c & 0x02 == 0) && (b & 0x01 == 0) == (c & 0x01 == 0)
    ensures b == c
  {
  }

  /** A block is determined by its element. */
  lemma {:induction false} BitsInjective(s: seq<bv8>, t: seq<bv8>)
    requires |s| == |t| && Bits(s) == Bits(t)
    ensures s == t
  {
    hide ByteBits;
    if |s| > 0 {
      assert ByteBits(s[0]) == Bits(s)[..8] == Bits(t)[..8] == ByteBits(t[0]);
      assert Bits(s[1..]) == Bits(s)[8..] == Bits(t)[8..] == Bits(t[1..]);
      ByteDetermined(s[0], t[0]);
      BitsInjective(s[1..], t[1..]);
    }
  }

  /** The byte with the given bits. */
  function Pack(r: seq<bool>): (b: bv8)
    requires |r| == 8
    ensures ByteBits(b) == r
  {
    var b := (if r[0] then 0x80 else 0) | (if r[1] then 0x40 else 0) | (if r[2] then 0x20 else 0)
           | (if r[3] then 0x10 else 0) | (if r[4] then 0x08 else 0) | (if r[5] then 0x04 else 0)
           | (if r[6] then 0x02 else 0) | (if r[7] then 0x01 else 0);
    PackedBits(r, b);
    b
  }

  lemma PackedBits(r: seq<bool>, b: bv8)
    requires |r| == 8
    requires b == (if r[0] then 0x80 else 0) | (if r[1] then 0x40 else 0) | (if r[2] then 0x20 else 0)
                | (if r[3] then 0x10 else 0) | (if r[4] then 0x08 else 0) | (if r[5] then 0x04 else 0)
                | (if r[6] then 0x02 else 0) | (if r[7] then 0x01 else 0)
    ensures ByteBits(b) == r
  {
    hide BitOf;
    PackedBools(r[0], r[1], r[2], r[3], r[4], r[5], r[6], r[7], b);
  }

  lemma PackedBools(r0: bool, r1: bool, r2: bool, r3: bool, r4: bool, r5: bool, r6: bool, r7: bool, b: bv8)
    requires b == (if r0 then 0x80 else 0) | (if r1 then 0x40 else 0) | (if r2 then 0x20 else 0)
                | (if r3 then 0x10 else 0) | (if r4 then 0x08 else 0) | (if r5 then 0x04 else 0)
                | (if r6 then 0x02 else 0) | (if r7 then 0x01 else 0)
    ensures BitOf(b, 0) == r0 && BitOf(b, 1) == r1 && BitOf(b, 2) == r2 && BitOf(b, 3) == r3
    ensures BitOf(b, 4) == r4 && BitOf(b, 5) == r5 && BitOf(b, 6) == r6 && BitOf(b, 7) == r7
  {
  }

  /** The `n` low binary digits of a number, the most significant first. */
  function IndexBits(i: nat, n: nat): (r: seq<bool>)
    ensures |r| == n
    decreases n, i
  {
    if n == 0 then [] else IndexBits(i / 2, n - 1) + [i % 2 == 1]
  }

  /** The number with the given binary digits. */
  function Digits(r: seq<bool>): (v: nat) {
    if |r| == 0 then 0 else 2 * Digits(r[..|r| - 1]) + if r[|r| - 1] then 1 else 0
  }

  lemma {:induction false} DigitsOfIndex(i: nat, n: nat)
    requires i < Bytes.Pow2(n)
    ensures Digits(IndexBits(i, n)) == i
    decreases n
  {
    if n > 0 {
      DigitsOfIndex(i / 2, n - 1);
      assert IndexBits(i, n)[..n - 1] == IndexBits(i / 2, n - 1);
    }
  }

  lemma ByteRange()
    ensures Bytes.Pow2(8) == 256
  {
  }

  lemma {:induction false} DigitsBound(r: seq<bool>)
    ensures Digits(r) < Bytes.Pow2(|r|)
  {
    if |r| > 0 {
      DigitsBound(r[..|r| - 1]);
    }
  }

  lemma {:induction false} IndexOfDigits(r: seq<bool>)
    ensures IndexBits(Digits(r), |r|) == r
  {
    if |r| > 0 {
      IndexOfDigits(r[..|r| - 1]);
    }
  }

  /** The number in a byte. */
  function Number8(b: bv8): (n: nat)
    ensures n < 256
  {
    DigitsBound(ByteBits(b));
    ByteRange();
    Digits(ByteBits(b))
  }

  /** A byte used as an index has the byte's bits. */
  lemma IndexIsByte(b: bv8)
    ensures IndexBits(Number8(b), 8) == ByteBits(b)
  {
    hide ByteBits, IndexBits, Digits;
    IndexOfDigits(ByteBits(b));
  }

  lemma ByteOfNumber(b: bv8)
    ensures ByteOf(Number8(b)) == b
  {
    hide ByteBits, IndexBits, Digits;
    IndexIsByte(b);
    ByteDetermined(ByteOf(Number8(b)), b);
  }

  /** The byte that holds a small number. */
  function ByteOf(n: nat): (b: bv8)
    requires n < 256
    ensures Number8(b) == n
  {
    ByteRange();
    DigitsOfIndex(n, 8);
    Pack(IndexBits(n, 8))
  }

  /** The bytes with the given bits. */
  function Unbits(r: seq<bool>): (s: seq<bv8>)
    requires |r| % 8 == 0
    ensures 8 * |s| == |r|
  {
    if |r| == 0 then [] else [Pack(r[..8])] + Unbits(r[8..])
  }

  lemma {:induction false} BitsOfUnbits(r: seq<bool>)
    requires |r| % 8 == 0
    ensures Bits(Unbits(r)) == r
  {
    hide ByteBits;
    if |r| > 0 {
      BitsOfUnbits(r[8..]);
    }
  }

  // The field product on blocks.

  function BlockMul(a: Block, b: Block): (c: Block) {
    Unbits(Mul(Element(a), Element(b)))
  }

  lemma ElementMul(a: Block, b: Block)
    ensures Element(BlockMul(a, b)) == Mul(Element(a), Element(b))
  {
    BitsOfUnbits(Mul(Element(a), Element(b)));
  }

  lemma BlockMulAssociates(a: Block, b: Block, c: Block)
    ensures BlockMul(BlockMul(a, b), c) == BlockMul(a, BlockMul(b, c))
  {
    hide Mul, Bits, Unbits;
    ElementMul(a, b);
    ElementMul(b, c);
    MulAssociates(Element(a), Element(b), Element(c));
  }

  lemma BlockMulDistributes(a: Block, b: Block, c: Block)
    ensures BlockMul(XorBytes(a, b), c) == XorBytes(BlockMul(a, c), BlockMul(b, c))
  {
    hide Mul, Bits, XorBytes, BlockMul, Xor;
    var l, r := BlockMul(XorBytes(a, b), c), XorBytes(BlockMul(a, c), BlockMul(b, c));
    ElementMul(XorBytes(a, b), c);
    ElementMul(a, c);
    ElementMul(b, c);
    ElementXor(a, b);
    ElementXor(BlockMul(a, c), BlockMul(b, c));
    MulDistributes(Element(a), Element(b), Element(c));
    BitsInjective(l, r);
  }

  lemma BlockMulZero(b: Block)
    ensures BlockMul(ZeroBlock(), b) == ZeroBlock()
  {
    hide Times, Bits, BlockMul;
    ElementZero();
    TimesFalses(128, Element(b));
    ElementMul(ZeroBlock(), b);
    BitsInjective(BlockMul(ZeroBlock(), b), ZeroBlock());
  }

  lemma ElementZero()
    ensures Element(ZeroBlock()) == Zero()
  {
    hide Bits;
    assert ZeroBlock() == seq(16, i => 0);
    BitsZero(16);
  }
}
