/** The slow field multiplier and the multiplier that uses a table of 256 products. */
module GfMul {
  import opened GF128
  import opened GfPoly
  import opened GfBlock
  import opened GfWords
  import Bytes
  import Words

  /** The element in a four-word buffer. */
  ghost function At(a: array<bv32>): Elem
    requires a.Length == 4
    reads a
  {
    Element(Memory(a[..]))
  }

  lemma Xor32Byte0(w: bv32, v: bv32)
    ensures Byte0(Words.Xor32(w, v)) == Xor8(Byte0(w), Byte0(v))
  {
  }

  lemma Xor32Byte1(w: bv32, v: bv32)
    ensures Byte1(Words.Xor32(w, v)) == Xor8(Byte1(w), Byte1(v))
  {
  }

  lemma Xor32Byte2(w: bv32, v: bv32)
    ensures Byte2(Words.Xor32(w, v)) == Xor8(Byte2(w), Byte2(v))
  {
  }

  lemma Xor32Byte3(w: bv32, v: bv32)
    ensures Byte3(Words.Xor32(w, v)) == Xor8(Byte3(w), Byte3(v))
  {
  }

  lemma Xor32Word(w: bv32, v: bv32)
    ensures WordBytes(Words.Xor32(w, v)) == XorBytes(WordBytes(w), WordBytes(v))
  {
    hide Words.Xor32, Xor8, Byte0, Byte1, Byte2, Byte3;
    Xor32Byte0(w, v);
    Xor32Byte1(w, v);
    Xor32Byte2(w, v);
    Xor32Byte3(w, v);
  }

  lemma XorConcat(s: seq<bv8>, t: seq<bv8>, u: seq<bv8>, v: seq<bv8>)
    requires |s| == |t| && |u| == |v|
    ensures XorBytes(s + u, t + v) == XorBytes(s, t) + XorBytes(u, v)
  {
    hide Xor8;
  }

  lemma XorMemory(x: seq<bv32>, y: seq<bv32>, r: seq<bv32>)
    requires |x| == |y| == |r| == 4 && forall i :: 0 <= i < 4 ==> r[i] == Words.Xor32(x[i], y[i])
    ensures Memory(r) == XorBytes(Memory(x), Memory(y))
  {
    hide Words.Xor32, WordBytes, XorBytes;
    Xor32Word(x[0], y[0]);
    Xor32Word(x[1], y[1]);
    Xor32Word(x[2], y[2]);
    Xor32Word(x[3], y[3]);
    var a, b := WordBytes(x[0]), WordBytes(y[0]);
    var c, d := a + WordBytes(x[1]), b + WordBytes(y[1]);
    XorConcat(a, b, WordBytes(x[1]), WordBytes(y[1]));
    XorConcat(c, d, WordBytes(x[2]), WordBytes(y[2]));
    XorConcat(c + WordBytes(x[2]), d + WordBytes(y[2]), WordBytes(x[3]), WordBytes(y[3]));
  }

  /** `r = p ^ q` by words; `r` may be an operand. */
  method XorBlock(r: array<bv32>, p: array<bv32>, q: array<bv32>)
    requires r.Length == 4 && p.Length == 4 && q.Length == 4
    modifies r
    ensures At(r) == old(Xor(At(p), At(q)))
  {
    hide Words.Xor32, Memory, Bits, Xor, XorBytes;
    ghost var x, y := p[..], q[..];
    r[0], r[1], r[2], r[3] := Words.Xor32(p[0], q[0]), Words.Xor32(p[1], q[1]), Words.Xor32(p[2], q[2]),
      Words.Xor32(p[3], q[3]);
    XorMemory(x, y, r[..]);
    ElementXor(Memory(x), Memory(y));
  }

  method ClearBlock(r: array<bv32>)
    requires r.Length == 4
    modifies r
    ensures At(r) == Zero()
  {
    r[0], r[1], r[2], r[3] := 0, 0, 0, 0;
    assert r[..] == [0, 0, 0, 0];
    ClearMemory();
    ElementZero();
  }

  lemma ClearMemory()
    ensures Memory([0, 0, 0, 0]) == ZeroBlock()
  {
    ZeroWord();
  }

  lemma ZeroWord()
    ensures WordBytes(0) == [0, 0, 0, 0]
  {
  }

  method CopyBlock(r: array<bv32>, x: array<bv32>)
    requires r.Length == 4 && x.Length == 4
    modifies r
    ensures r[..] == old(x[..])
  {
    r[0], r[1], r[2], r[3] := x[0], x[1], x[2], x[3];
  }

  /** Byte `i` of a buffer. */
  function ByteAt(w: seq<bv32>, i: nat): (b: bv8)
    requires |w| == 4 && i < 16
    ensures b == Memory(w)[i]
  {
    hide Byte0, Byte1, Byte2, Byte3;
    var word := w[i / 4];
    MemoryAt(w, i);
    if i % 4 == 0 then Byte0(word) else if i % 4 == 1 then Byte1(word) else if i % 4 == 2 then Byte2(word)
    else Byte3(word)
  }

  lemma MemoryAt(w: seq<bv32>, i: nat)
    requires |w| == 4 && i < 16
    ensures Memory(w)[i] == WordBytes(w[i / 4])[i % 4]
  {
    hide WordBytes;
  }

  /** Separate four-word buffers. */
  ghost predicate Blocks(p: seq<array<bv32>>) {
    (forall i :: 0 <= i < |p| ==> p[i].Length == 4) && forall i, j :: 0 <= i < j < |p| ==> p[i] != p[j]
  }

  method NewBlocks(n: nat) returns (p: seq<array<bv32>>)
    ensures |p| == n && Blocks(p) && forall i :: 0 <= i < n ==> fresh(p[i])
  {
    p := [];
    while |p| < n
      invariant |p| <= n && Blocks(p) && forall i :: 0 <= i < |p| ==> fresh(p[i])
    {
      var b := new bv32[4];
      p := p + [b];
    }
  }

  /** `p[k]` holds `e` times x^k. */
  ghost predicate Powers(p: seq<array<bv32>>, e: Elem, n: nat)
    requires Blocks(p) && n <= |p|
    reads p
  {
    forall k :: 0 <= k < n ==> At(p[k]) == Xn(e, k)
  }

  /** The products of a buffer with the first eight powers of x. */
  method FirstPowers(a: array<bv32>) returns (p: seq<array<bv32>>)
    requires a.Length == 4
    ensures |p| == 8 && Blocks(p) && (forall i :: 0 <= i < 8 ==> fresh(p[i]))
    ensures Powers(p, At(a), 8) && p[0][..] == a[..]
  {
    hide Element, Memory, Xtime;
    p := NewBlocks(8);
    CopyBlock(p[0], a);
    var i := 0;
    while i < 7
      invariant 0 <= i <= 7 && Powers(p, At(a), i + 1) && p[0][..] == a[..]
    {
      Mulx1(p[i + 1], p[i]);
      i := i + 1;
    }
  }

  /** What the bits of a byte from `k` on contribute. */
  ghost function Contribution(ch: bv8, e: Elem, k: nat): Elem
    requires k <= 8
  {
    Times(ByteBits(ch)[k..], Xn(e, k))
  }

  lemma NextContribution(ch: bv8, e: Elem, k: nat)
    requires k < 8
    ensures Contribution(ch, e, k) == Xor(Pick(BitOf(ch, k), Xn(e, k)), Contribution(ch, e, k + 1))
  {
    hide Xtime, Xor, ByteBits, BitOf, Pick;
    var v := ByteBits(ch)[k..];
    assert v[1..] == ByteBits(ch)[k + 1..];
    XtimeMoves(v[1..], Xn(e, k));
    BitHere(ch, k);
  }

  /** Adds the multiples of `e` that the bits of `ch` select. */
  method AddByte(a: array<bv32>, p: seq<array<bv32>>, ch: bv8, ghost e: Elem)
    requires a.Length == 4 && |p| == 8 && Blocks(p) && a !in p && Powers(p, e, 8)
    modifies a
    ensures At(a) == Xor(old(At(a)), Times(ByteBits(ch), e))
  {
    hide Element, Memory, Xor, Contribution, ByteBits, BitOf, Xn;
    ghost var start := At(a);
    var k := 0;
    while k < 8
      invariant 0 <= k <= 8
      invariant Xor(At(a), Contribution(ch, e, k)) == Xor(start, Contribution(ch, e, 0))
    {
      NextContribution(ch, e, k);
      XorLaws(At(a), Xn(e, k), Contribution(ch, e, k + 1));
      XorLaws(Contribution(ch, e, k + 1), Zero(), Zero());
      if BitOf(ch, k) {
        XorBlock(a, a, p[k]);
      }
      k := k + 1;
    }
    LastContribution(ch, e);
    XorLaws(At(a), Zero(), Zero());
  }

  lemma LastContribution(ch: bv8, e: Elem)
    ensures Contribution(ch, e, 8) == Zero() && Contribution(ch, e, 0) == Times(ByteBits(ch), e)
  {
    hide ByteBits;
    assert ByteBits(ch)[8..] == [] && ByteBits(ch)[0..] == ByteBits(ch);
  }

  /** The product with the bytes of `m` from `i` on. */
  ghost function Tail(m: Block, e: Elem, i: nat): Elem
    requires i <= 16
  {
    Times(Bits(m[i..]), e)
  }

  lemma NextTail(m: Block, e: Elem, i: nat)
    requires i < 16
    ensures Tail(m, e, i) == Xor(Times(ByteBits(m[i]), e), Xn(Tail(m, e, i + 1), 8))
  {
    hide Times, ByteBits, Xor, Xn;
    assert m[i..][1..] == m[i + 1..] && m[i..][0] == m[i];
    TimesConcat(ByteBits(m[i]), Bits(m[i + 1..]), e);
  }

  lemma NoTail(m: Block, e: Elem)
    ensures Tail(m, e, 16) == Zero() && Xn(Tail(m, e, 16), 8) == Zero() && Tail(m, e, 0) == Times(Element(m), e)
  {
    hide Xn;
    assert m[16..] == [] && m[0..] == m;
    XnZero(8);
  }

  /** `a = a * b`; squaring is the call with both buffers the same. */
  method MulTMD(a: array<bv32>, b: array<bv32>)
    requires a.Length == 4 && b.Length == 4
    modifies a
    ensures At(a) == old(Mul(At(a), At(b)))
  {
    hide Element, Memory, Mul, Powers, Times;
    ghost var e, m := At(a), Memory(b[..]);
    var p := FirstPowers(a);
    var q := (if a == b then p[0] else b)[..];
    assert Memory(q) == m;
    AllBytes(a, p, q, e);
    TimesIsMul(m, e);
  }

  /** Horner's rule on the bytes of `q`, from the last to the first. */
  method AllBytes(a: array<bv32>, p: seq<array<bv32>>, q: seq<bv32>, ghost e: Elem)
    requires a.Length == 4 && |p| == 8 && Blocks(p) && a !in p && Powers(p, e, 8) && |q| == 4
    modifies a
    ensures At(a) == Times(Element(Memory(q)), e)
  {
    hide Element, Memory, Xor, Tail, ByteBits, Xn, Powers, Blocks, Times, At;
    ghost var m := Memory(q);
    ClearBlock(a);
    NoTail(m, e);
    var i := 15;
    while true
      invariant 0 <= i <= 15 && Powers(p, e, 8)
      invariant At(a) == Xn(Tail(m, e, i + 1), 8)
      decreases i
    {
      AddByte(a, p, ByteAt(q, i), e);
      NextTail(m, e, i);
      XorLaws(Xn(Tail(m, e, i + 1), 8), Times(ByteBits(m[i]), e), Zero());
      if i == 0 {
        break;
      }
      i := i - 1;
      AtIs(a);
      Mulx8(a);
      AtIs(a);
    }
  }

  lemma AtIs(a: array<bv32>)
    requires a.Length == 4
    ensures At(a) == Element(Memory(a[..]))
  {
  }

  lemma TimesIsMul(m: Block, e: Elem)
    ensures Times(Element(m), e) == Mul(e, Element(m))
  {
    hide Times;
    MulCommutes(e, Element(m));
  }

  // The table of 256 products.

  /** The product that belongs at index `i`. */
  ghost function Entry(i: nat, e: Elem): Elem {
    Times(IndexBits(i, 8), e)
  }

  lemma {:induction false} IndexZero(n: nat)
    ensures IndexBits(0, n) == Falses(n)
  {
    if n > 0 {
      IndexZero(n - 1);
      assert Falses(n - 1) + [false] == Falses(n);
    }
  }

  lemma EntryZero(e: Elem)
    ensures Entry(0, e) == Zero()
  {
    hide Times, IndexBits;
    IndexZero(8);
    TimesFalses(8, e);
  }

  /** Doubling an index below 128 divides its product by x. */
  lemma EntryHalf(j: nat, e: Elem)
    requires j < 128
    ensures Entry(j, e) == Xtime(Entry(2 * j, e))
  {
    hide Xtime, Xor, Xn, IndexBits, Times;
    var v := IndexBits(j, 7);
    SevenBits();
    LeadingZero(j, 7);
    TimesShifted(v, e);
    TrailingZero(j, 7);
    TimesTrailing(v, e);
  }

  lemma TimesShifted(v: seq<bool>, e: Elem)
    ensures Times([false] + v, e) == Xtime(Times(v, e))
  {
    hide Xtime, Xor;
    assert ([false] + v)[1..] == v;
    XorLaws(Xtime(Times(v, e)), Zero(), Zero());
  }

  lemma TimesTrailing(v: seq<bool>, e: Elem)
    ensures Times(v + [false], e) == Times(v, e)
  {
    hide Xtime, Xor, Xn, Times;
    TimesConcat(v, [false], e);
    assert [false] == Falses(1);
    TimesFalses(1, e);
    XnZero(|v|);
    XorLaws(Times(v, e), Zero(), Zero());
  }

  lemma TrailingZero(j: nat, n: nat)
    ensures IndexBits(2 * j, n + 1) == IndexBits(j, n) + [false]
  {
  }

  lemma {:induction false} LeadingZero(i: nat, n: nat)
    requires i < Bytes.Pow2(n)
    ensures IndexBits(i, n + 1) == [false] + IndexBits(i, n)
    decreases n, i
  {
    if n > 0 {
      LeadingZero(i / 2, n - 1);
    } else {
      assert IndexBits(i / 2, 0) == [];
    }
  }

  lemma {:induction false} IndexOne(n: nat)
    requires n > 0
    ensures IndexBits(Bytes.Pow2(n - 1), n) == [true] + Falses(n - 1)
  {
    if n > 1 {
      IndexOne(n - 1);
      assert Falses(n - 2) + [false] == Falses(n - 1);
    } else {
      assert IndexBits(0, 0) == [];
    }
  }

  lemma SevenBits()
    ensures Bytes.Pow2(7) == 128
  {
  }

  lemma EntryTop(e: Elem)
    ensures Entry(128, e) == e
  {
    hide Xtime, Xor;
    IndexOne(8);
    SevenBits();
    assert IndexBits(128, 8)[1..] == Falses(7);
    TimesFalses(7, e);
    XtimeZero();
    XorLaws(e, Zero(), Zero());
  }

  ghost predicate IsPower(j: nat) {
    j == 1 || (j % 2 == 0 && 0 < j && IsPower(j / 2))
  }

  /** Below a power of two, adding indices adds their digits. */
  lemma {:induction false} IndexSum(j: nat, k: nat, n: nat)
    requires IsPower(j) && k < j
    ensures IndexBits(j + k, n) == Sum(IndexBits(j, n), IndexBits(k, n))
    decreases n
  {
    if n > 0 {
      if j == 1 {
        IndexZero(n);
      } else {
        IndexSum(j / 2, k / 2, n - 1);
        assert (j + k) / 2 == j / 2 + k / 2;
      }
    }
  }

  lemma EntrySum(j: nat, k: nat, e: Elem)
    requires j in {1, 2, 4, 8, 16, 32, 64, 128} && k < j
    ensures Entry(j + k, e) == Xor(Entry(j, e), Entry(k, e))
  {
    hide Times, IndexBits;
    assert IsPower(1) && IsPower(2) && IsPower(4) && IsPower(8) && IsPower(16) && IsPower(32) && IsPower(64);
    IndexSum(j, k, 8);
    AddsLeft(IndexBits(j, 8), IndexBits(k, 8), e);
  }

  /** A buffer holds the product that belongs at index `i`. */
  ghost predicate Filled(b: array<bv32>, e: Elem, i: nat)
    requires b.Length == 4
    reads b
  {
    At(b) == Entry(i, e)
  }

  /** Fills the entries of single bits. */
  method TablePowers(g: array<bv32>, t: seq<array<bv32>>)
    requires g.Length == 4 && |t| == 256 && Blocks(t) && g !in t
    modifies t
    ensures Filled(t[0], At(g), 0)
    ensures forall i :: i in {128, 64, 32, 16, 8, 4, 2, 1} ==> Filled(t[i], At(g), i)
  {
    hide Element, Memory, Entry, Xtime;
    ghost var e := At(g);
    EntryZero(e);
    EntryTop(e);
    ClearBlock(t[0]);
    CopyBlock(t[128], g);
    var j := 64;
    while j >= 1
      invariant j in {64, 32, 16, 8, 4, 2, 1, 0} && At(g) == e
      invariant Filled(t[0], e, 0) && forall i :: i in {128, 64, 32, 16, 8, 4, 2, 1} && i > j ==> Filled(t[i], e, i)
    {
      EntryHalf(j, e);
      Mulx1(t[j], t[j + j]);
      j := j / 2;
    }
  }

  /** Fills the table of products of `g` with all bytes. */
  method Init4kTable(g: array<bv32>, t: seq<array<bv32>>)
    requires g.Length == 4 && |t| == 256 && Blocks(t) && g !in t
    modifies t
    ensures forall i :: 0 <= i < 256 ==> Filled(t[i], At(g), i)
  {
    hide Element, Memory, Entry, Xor, At;
    ghost var e := At(g);
    TablePowers(g, t);
    var j := 2;
    while j < 256
      invariant j in {2, 4, 8, 16, 32, 64, 128, 256} && At(g) == e
      invariant forall i :: 0 <= i < j ==> Filled(t[i], e, i)
      invariant forall i :: i in {128, 64, 32, 16, 8, 4, 2, 1} ==> Filled(t[i], e, i)
      decreases 256 - j
    {
      var k := 1;
      while k < j
        invariant 1 <= k <= j && At(g) == e
        invariant forall i :: 0 <= i < j + k ==> Filled(t[i], e, i)
        invariant forall i :: i in {128, 64, 32, 16, 8, 4, 2, 1} ==> Filled(t[i], e, i)
      {
        EntrySum(j, k, e);
        XorBlock(t[j + k], t[j], t[k]);
        k := k + 1;
      }
      j := j + j;
    }
  }

  /** `a = a * g` by the table of `g`, through the scratch buffer `r`. */
  method Mul4k(a: array<bv32>, t: seq<array<bv32>>, r: array<bv32>, ghost g: Elem)
    requires a.Length == 4 && r.Length == 4 && a != r && |t| == 256 && Blocks(t) && a !in t && r !in t
    requires forall i :: 0 <= i < 256 ==> Filled(t[i], g, i)
    modifies a, r
    ensures At(a) == Mul(old(At(a)), g)
  {
    hide Element, Memory, Entry, Xor, Tail, Xn, ByteBits, IndexBits;
    ghost var m := Memory(a[..]);
    ClearBlock(r);
    NoTail(m, g);
    var i := 15;
    while i >= 0
      invariant -1 <= i <= 15 && a[..] == old(a[..])
      invariant At(r) == Tail(m, g, i + 1) && forall i :: 0 <= i < 256 ==> Filled(t[i], g, i)
    {
      Mulx8(r);
      var b := ByteAt(a[..], i);
      IndexIsByte(b);
      EntryIs(Number8(b), g);
      NextTail(m, g, i);
      assert Filled(t[Number8(b)], g, Number8(b));
      XorLaws(Xn(Tail(m, g, i + 1), 8), Times(ByteBits(b), g), Zero());
      XorBlock(r, r, t[Number8(b)]);
      i := i - 1;
    }
    CopyBlock(a, r);
  }

  lemma EntryIs(i: nat, e: Elem)
    ensures Entry(i, e) == Times(IndexBits(i, 8), e)
  {
  }
}
