/** Products with x and x^8 on four little-endian words, with the table that folds overflow bits back. */
module GfWords {
  import opened GF128
  import opened GfPoly
  import opened GfBlock

  function Byte0(w: bv32): bv8 {
    (w & 0xff) as bv8
  }

  function Byte1(w: bv32): bv8 {
    ((w >> 8) & 0xff) as bv8
  }

  function Byte2(w: bv32): bv8 {
    ((w >> 16) & 0xff) as bv8
  }

  function Byte3(w: bv32): bv8 {
    ((w >> 24) & 0xff) as bv8
  }

  /** The bytes of a word, as they lie in memory. */
  function WordBytes(w: bv32): (s: seq<bv8>)
    ensures |s| == 4
  {
    [Byte0(w), Byte1(w), Byte2(w), Byte3(w)]
  }

  /** The sixteen bytes of four words. */
  function Memory(w: seq<bv32>): (s: Block)
    requires |w| == 4
  {
    WordBytes(w[0]) + WordBytes(w[1]) + WordBytes(w[2]) + WordBytes(w[3])
  }

  /** Bits of a byte moved one place up, taking in the last bit of the byte before. */
  function Down1(b: bv8, before: bv8): bv8 {
    (b >> 1) | (before << 7)
  }

  /** The one-bit shift of a word among words: every byte takes in the last bit of its predecessor. */
  function Shift1(x: bv32, before: bv32): bv32 {
    ((x >> 1) & !0x8080_8080) | (((x << 15) | (before >> 17)) & 0x8080_8080)
  }

  lemma Shift1Bytes(x: bv32, before: bv32)
    ensures Byte0(Shift1(x, before)) == Down1(Byte0(x), Byte3(before))
    ensures Byte1(Shift1(x, before)) == Down1(Byte1(x), Byte0(x))
    ensures Byte2(Shift1(x, before)) == Down1(Byte2(x), Byte1(x))
    ensures Byte3(Shift1(x, before)) == Down1(Byte3(x), Byte2(x))
  {
  }

  /** The eight-bit shift of a word among words. */
  function Shift8(x: bv32, before: bv32): bv32 {
    (x << 8) | (before >> 24)
  }

  lemma Shift8Bytes(x: bv32, before: bv32)
    ensures Byte0(Shift8(x, before)) == Byte3(before) && Byte1(Shift8(x, before)) == Byte0(x)
    ensures Byte2(Shift8(x, before)) == Byte1(x) && Byte3(Shift8(x, before)) == Byte2(x)
  {
  }

  /** The entry of `gf_tab` for an overflow byte. */
  function GfTab(i: bv8): bv16 {
    (if i & 0x80 != 0 then 0x00e1 else 0) ^ (if i & 0x40 != 0 then 0x8070 else 0)
    ^ (if i & 0x20 != 0 then 0x4038 else 0) ^ (if i & 0x10 != 0 then 0x201c else 0)
    ^ (if i & 0x08 != 0 then 0x100e else 0) ^ (if i & 0x04 != 0 then 0x0807 else 0)
    ^ (if i & 0x02 != 0 then 0x8403 else 0) ^ (if i & 0x01 != 0 then 0xc201 else 0)
  }

  function Low(t: bv16): bv8 {
    (t & 0xff) as bv8
  }

  function High(t: bv16): bv8 {
    (t >> 8) as bv8
  }

  /** A table entry added to the two low bytes of a word. */
  function XorTab(w: bv32, t: bv16): bv32 {
    w ^ (t as bv32)
  }

  lemma XorTabLow(w: bv32, t: bv16)
    ensures Byte0(XorTab(w, t)) == Xor8(Byte0(w), Low(t))
  {
  }

  lemma XorTabHigh(w: bv32, t: bv16)
    ensures Byte1(XorTab(w, t)) == Xor8(Byte1(w), High(t))
  {
  }

  lemma XorTabRest(w: bv32, t: bv16)
    ensures Byte2(XorTab(w, t)) == Byte2(w) && Byte3(XorTab(w, t)) == Byte3(w)
  {
  }

  // The one-bit shift of a block.

  lemma DownBits(b: bv8, before: bv8)
    ensures ByteBits(Down1(b, before)) == [BitOf(before, 7)] + ByteBits(b)[..7]
  {
    DownMasks(b, before);
  }

  lemma DownMasks(b: bv8, before: bv8)
    ensures var d := Down1(b, before);
            && (d & 0x80 != 0) == (before & 0x01 != 0) && (d & 0x40 != 0) == (b & 0x80 != 0)
            && (d & 0x20 != 0) == (b & 0x40 != 0) && (d & 0x10 != 0) == (b & 0x20 != 0)
            && (d & 0x08 != 0) == (b & 0x10 != 0) && (d & 0x04 != 0) == (b & 0x08 != 0)
            && (d & 0x02 != 0) == (b & 0x04 != 0) && (d & 0x01 != 0) == (b & 0x02 != 0)
  {
  }

  /** Every byte of `s` shifted, the first taking in a bit of `before`. */
  function DownAll(s: seq<bv8>, before: bv8): (r: seq<bv8>)
    ensures |r| == |s|
  {
    if |s| == 0 then [] else [Down1(s[0], before)] + DownAll(s[1..], s[0])
  }

  lemma {:induction false} DownAllBits(s: seq<bv8>, before: bv8)
    requires |s| > 0
    ensures Bits(DownAll(s, before)) == [BitOf(before, 7)] + Bits(s)[..8 * |s| - 1]
  {
    hide ByteBits, BitOf, Down1;
    DownBits(s[0], before);
    var r := DownAll(s, before);
    if |s| == 1 {
      assert r[1..] == [] && s[1..] == [];
      assert Bits(s) == ByteBits(s[0]);
      assert Bits(r) == ByteBits(r[0]);
    } else {
      DownAllBits(s[1..], s[0]);
      assert r[1..] == DownAll(s[1..], s[0]);
      LastBit(s[0]);
      assert Bits(s)[..8 * |s| - 1] == ByteBits(s[0]) + Bits(s[1..])[..8 * |s| - 9];
      assert ByteBits(s[0]) == ByteBits(s[0])[..7] + [BitOf(s[0], 7)];
    }
  }

  lemma LastBit(b: bv8)
    ensures ByteBits(b)[7] == BitOf(b, 7)
  {
  }

  /** A block with two leading bytes. */
  function TwoBytes(lo: bv8, hi: bv8): Block {
    [lo, hi] + seq(14, i => 0)
  }

  lemma TwoBytesXor(a: bv8, b: bv8, c: bv8, d: bv8)
    ensures XorBytes(TwoBytes(a, b), TwoBytes(c, d)) == TwoBytes(Xor8(a, c), Xor8(b, d))
  {
    hide Xor8;
    Xor8Laws(0, 0, 0);
  }

  lemma TwoBytesBits(lo: bv8, hi: bv8)
    ensures Element(TwoBytes(lo, hi)) == ByteBits(lo) + ByteBits(hi) + Falses(112)
  {
    hide ByteBits;
    BitsConcat([lo, hi], seq(14, i => 0));
    BitsZero(14);
    assert Bits([lo, hi]) == ByteBits(lo) + ByteBits(hi) by {
      assert [lo, hi][1..] == [hi] && [hi][1..] == [];
    }
  }

  /** The block of a table entry. */
  function TabBlock(t: bv16): Block {
    TwoBytes(Low(t), High(t))
  }

  /** The table entry of a single overflow bit. */
  function TabPower(k: nat): bv16
    requires k < 8
  {
    if k == 0 then 0x00e1 else if k == 1 then 0x8070 else if k == 2 then 0x4038 else if k == 3 then 0x201c
    else if k == 4 then 0x100e else if k == 5 then 0x0807 else if k == 6 then 0x8403 else 0xc201
  }

  function Xor16(t: bv16, u: bv16): bv16 {
    t ^ u
  }

  /** The entry of the overflow bits from `k` on. */
  function TabFrom(i: bv8, k: nat): bv16
    requires k <= 8
    decreases 8 - k
  {
    if k == 8 then 0 else Xor16(if BitOf(i, k) then TabPower(k) else 0, TabFrom(i, k + 1))
  }

  lemma TabXor(t: bv16, u: bv16)
    ensures Element(TabBlock(Xor16(t, u))) == Xor(Element(TabBlock(t)), Element(TabBlock(u)))
  {
    hide Bits, TwoBytes, XorBytes, Xor8, Xor16, Low, High;
    TabHalves(t, u);
    TwoBytesXor(Low(t), High(t), Low(u), High(u));
    ElementXor(TabBlock(t), TabBlock(u));
  }

  lemma TabHalves(t: bv16, u: bv16)
    ensures Low(Xor16(t, u)) == Xor8(Low(t), Low(u)) && High(Xor16(t, u)) == Xor8(High(t), High(u))
  {
  }

  lemma TabHalvesOfPowers()
    ensures Low(0x00e1) == 0xe1 && High(0x00e1) == 0x00 && Low(0x8070) == 0x70 && High(0x8070) == 0x80
    ensures Low(0x4038) == 0x38 && High(0x4038) == 0x40 && Low(0x201c) == 0x1c && High(0x201c) == 0x20
    ensures Low(0x100e) == 0x0e && High(0x100e) == 0x10 && Low(0x0807) == 0x07 && High(0x0807) == 0x08
    ensures Low(0x8403) == 0x03 && High(0x8403) == 0x84 && Low(0xc201) == 0x01 && High(0xc201) == 0xc2
    ensures Low(0) == 0 && High(0) == 0
  {
  }

  /** Each single-bit entry is x^128 times a power of x, without overflow. */
  lemma TabPowerIs(k: nat)
    requires k < 8
    ensures Element(TabBlock(TabPower(k))) == Xn(Fold(), k)
  {
    hide Bits, TwoBytes, Xn;
    var u := [true, true, true, false, false, false, false, true];
    assert Fold() == u + Falses(120);
    XnShifts(u, k);
    var t := TabPower(k);
    TwoBytesBits(Low(t), High(t));
    PowerBits(k);
    assert Falses(k) + u + Falses(120 - k) == Falses(k) + u + Falses(8 - k) + Falses(112);
  }

  lemma PowerBits(k: nat)
    requires k < 8
    ensures var u := [true, true, true, false, false, false, false, true];
            ByteBits(Low(TabPower(k))) + ByteBits(High(TabPower(k))) == Falses(k) + u + Falses(8 - k)
  {
    hide Low, High;
    TabHalvesOfPowers();
  }

  lemma {:induction false} TabFromIs(i: bv8, k: nat)
    requires k <= 8
    ensures Element(TabBlock(TabFrom(i, k))) == Times(ByteBits(i)[k..], Xn(Fold(), k))
    decreases 8 - k
  {
    hide Bits, TabBlock, ByteBits, Xtime, Xor, Xor16, TabPower, BitOf;
    TabZero();
    if k < 8 {
      TabFromIs(i, k + 1);
      var v := ByteBits(i)[k..];
      assert v[1..] == ByteBits(i)[k + 1..];
      XtimeMoves(v[1..], Xn(Fold(), k));
      TabXor(if BitOf(i, k) then TabPower(k) else 0, TabFrom(i, k + 1));
      TabPowerIs(k);
      BitHere(i, k);
    }
  }

  lemma BitHere(i: bv8, k: nat)
    requires k < 8
    ensures ByteBits(i)[k] == BitOf(i, k)
  {
  }

  lemma TabZero()
    ensures Element(TabBlock(0)) == Zero()
  {
    hide Bits;
    TabHalvesOfPowers();
    assert TwoBytes(0, 0) == ZeroBlock();
    ElementZero();
  }

  lemma TabUnrolled(i: bv8)
    ensures GfTab(i) == TabFrom(i, 0)
  {
    hide TabPower, Xor16, BitOf, GfTab;
    TabPowers();
    assert TabFrom(i, 8) == 0;
    assert TabFrom(i, 6) == Xor16(PowerEntry(BitOf(i, 6), 0x8403), Xor16(PowerEntry(BitOf(i, 7), 0xc201), 0));
    assert TabFrom(i, 4) ==
      Xor16(PowerEntry(BitOf(i, 4), 0x100e), Xor16(PowerEntry(BitOf(i, 5), 0x0807), TabFrom(i, 6)));
    assert TabFrom(i, 2) ==
      Xor16(PowerEntry(BitOf(i, 2), 0x4038), Xor16(PowerEntry(BitOf(i, 3), 0x201c), TabFrom(i, 4)));
    assert TabFrom(i, 0) ==
      Xor16(PowerEntry(BitOf(i, 0), 0x00e1), Xor16(PowerEntry(BitOf(i, 1), 0x8070), TabFrom(i, 2)));
    TabNested(i);
  }

  function PowerEntry(bit: bool, t: bv16): bv16 {
    if bit then t else 0
  }

  lemma TabNested(i: bv8)
    ensures GfTab(i) ==
      Xor16(PowerEntry(BitOf(i, 0), 0x00e1), Xor16(PowerEntry(BitOf(i, 1), 0x8070),
      Xor16(PowerEntry(BitOf(i, 2), 0x4038), Xor16(PowerEntry(BitOf(i, 3), 0x201c),
      Xor16(PowerEntry(BitOf(i, 4), 0x100e), Xor16(PowerEntry(BitOf(i, 5), 0x0807),
      Xor16(PowerEntry(BitOf(i, 6), 0x8403), Xor16(PowerEntry(BitOf(i, 7), 0xc201), 0))))))))
  {
  }

  lemma TabPowers()
    ensures TabPower(0) == 0x00e1 && TabPower(1) == 0x8070 && TabPower(2) == 0x4038 && TabPower(3) == 0x201c
    ensures TabPower(4) == 0x100e && TabPower(5) == 0x0807 && TabPower(6) == 0x8403 && TabPower(7) == 0xc201
  {
  }

  /** The table holds the products of a byte of overflow bits with x^128. */
  lemma TabIs(i: bv8)
    ensures Element(TabBlock(GfTab(i))) == Times(ByteBits(i), Fold())
  {
    hide Bits, TabBlock, GfTab, TabFrom, Times;
    TabUnrolled(i);
    TabFromIs(i, 0);
    assert ByteBits(i)[0..] == ByteBits(i);
  }

  /** The product with x on bytes: a one-bit shift, with the table entry of the bit that leaves. */
  lemma XtimeOfBytes(s: Block)
    ensures Element(XorBytes(DownAll(s, 0), TabBlock(GfTab(s[15] << 7)))) == Xtime(Element(s))
  {
    hide Bits, TabBlock, GfTab, XorBytes, ByteBits, DownAll, BitOf, Times;
    DownAllBits(s, 0);
    TabIs(s[15] << 7);
    LastToFirst(s[15]);
    OneBitTimes(BitOf(s[15], 7));
    NoBit();
    BitAt(s, 15, 7);
    ElementXor(DownAll(s, 0), TabBlock(GfTab(s[15] << 7)));
  }

  lemma NoBit()
    ensures !BitOf(0, 7)
  {
  }

  lemma LastToFirst(b: bv8)
    ensures ByteBits(b << 7) == [BitOf(b, 7)] + Falses(7)
  {
    assert b << 7 == 0x80 || b << 7 == 0;
  }

  lemma OneBitTimes(bit: bool)
    ensures Times([bit] + Falses(7), Fold()) == Pick(bit, Fold())
  {
    hide Xtime, Xor, Fold;
    assert ([bit] + Falses(7))[1..] == Falses(7);
    TimesFalses(7, Fold());
    XtimeZero();
    XorLaws(Pick(bit, Fold()), Zero(), Zero());
  }

  /** The product with x^8 on bytes: a shift by one byte, with the table entry of the byte that leaves. */
  lemma XnEightOfBytes(s: Block)
    ensures Element(XorBytes([0] + s[..15], TabBlock(GfTab(s[15])))) == Xn(Element(s), 8)
  {
    hide Bits, TabBlock, GfTab, XorBytes, ByteBits, Times, Xn;
    XnEight(Element(s));
    TabIs(s[15]);
    BitsConcat([0], s[..15]);
    BitsConcat(s[..15], [s[15]]);
    assert s[..15] + [s[15]] == s;
    OneByte(0);
    OneByte(s[15]);
    NoBits();
    ElementXor([0] + s[..15], TabBlock(GfTab(s[15])));
  }

  lemma OneByte(b: bv8)
    ensures Bits([b]) == ByteBits(b)
  {
    hide ByteBits;
    assert [b][1..] == [];
  }

  lemma NoBits()
    ensures ByteBits(0) == Falses(8)
  {
  }

  lemma OverflowFits(w: bv32)
    ensures (w >> 17) & 0x8080_8080 <= 0xff && w >> 24 <= 0xff
  {
  }

  /** The table index of the last bit of the last word. */
  function Overflow1(w: bv32): (i: bv8)
    ensures i == Byte3(w) << 7
  {
    OverflowFits(w);
    ((w >> 17) & 0x8080_8080) as bv8
  }

  /** The table index of the last byte of the last word. */
  function Overflow8(w: bv32): (i: bv8)
    ensures i == Byte3(w)
  {
    OverflowFits(w);
    (w >> 24) as bv8
  }

  lemma {:induction false} DownConcat(s: seq<bv8>, t: seq<bv8>, before: bv8)
    requires |s| > 0
    ensures DownAll(s + t, before) == DownAll(s, before) + DownAll(t, s[|s| - 1])
  {
    hide Down1;
    assert (s + t)[1..] == s[1..] + t;
    if |s| == 1 {
      assert s + t == s + t && s[1..] + t == t;
    } else {
      DownConcat(s[1..], t, s[0]);
    }
  }

  lemma Shift1Word(x: bv32, before: bv32)
    ensures WordBytes(Shift1(x, before)) == DownAll(WordBytes(x), Byte3(before))
  {
    hide Shift1, Down1, Byte0, Byte1, Byte2, Byte3;
    Shift1Bytes(x, before);
    var s := WordBytes(x);
    assert s[1..] == [s[1], s[2], s[3]] && s[1..][1..] == [s[2], s[3]];
    assert [s[2], s[3]][1..] == [s[3]] && [s[3]][1..] == [];
    assert DownAll([s[3]], s[2]) == [Down1(s[3], s[2])];
    assert DownAll([s[2], s[3]], s[1]) == [Down1(s[2], s[1]), Down1(s[3], s[2])];
  }

  lemma Shift1Memory(x: seq<bv32>, r: seq<bv32>)
    requires |x| == |r| == 4 && r[3] == Shift1(x[3], x[2]) && r[2] == Shift1(x[2], x[1]) && r[1] == Shift1(x[1], x[0])
    requires r[0] == Shift1(x[0], 0)
    ensures Memory(r) == DownAll(Memory(x), 0)
  {
    hide Shift1, Byte0, Byte1, Byte2, Byte3, DownAll;
    Shift1Word(x[0], 0);
    Shift1Word(x[1], x[0]);
    Shift1Word(x[2], x[1]);
    Shift1Word(x[3], x[2]);
    ZeroByte();
    var a, b, c, d := WordBytes(x[0]), WordBytes(x[1]), WordBytes(x[2]), WordBytes(x[3]);
    DownConcat(a, b, 0);
    DownConcat(a + b, c, 0);
    DownConcat(a + b + c, d, 0);
  }

  lemma ZeroByte()
    ensures Byte3(0) == 0
  {
  }

  lemma XorTabMemory(x: seq<bv32>, r: seq<bv32>, t: bv16)
    requires |x| == |r| == 4 && r == x[0 := XorTab(x[0], t)]
    ensures Memory(r) == XorBytes(Memory(x), TabBlock(t))
  {
    hide XorTab, Byte0, Byte1, Byte2, Byte3, Low, High, Xor8;
    XorTabLow(x[0], t);
    XorTabHigh(x[0], t);
    XorTabRest(x[0], t);
    var s := Memory(x);
    forall i | 0 <= i < 16
      ensures Xor8(s[i], 0) == s[i]
    {
      Xor8Laws(s[i], 0, 0);
    }
    var u, v := Memory(r), XorBytes(s, TabBlock(t));
    assert u[0] == v[0] && u[1] == v[1];
    assert forall i :: 2 <= i < 16 ==> u[i] == s[i] == v[i];
  }

  /** The product with x, written to another buffer or in place. */
  method Mulx1(r: array<bv32>, x: array<bv32>)
    requires r.Length == 4 && x.Length == 4
    modifies r
    ensures Element(Memory(r[..])) == Xtime(old(Element(Memory(x[..]))))
  {
    hide Bits, Xtime, Shift1, GfTab, Memory, XorBytes, TabBlock, DownAll, XorTab, Overflow1, Byte3;
    ghost var x4 := x[..];
    var tt := GfTab(Overflow1(x[3]));
    r[3] := Shift1(x[3], x[2]);
    r[2] := Shift1(x[2], x[1]);
    r[1] := Shift1(x[1], x[0]);
    r[0] := Shift1(x[0], 0);
    ghost var r4 := r[..];
    r[0] := XorTab(r[0], tt);
    Shift1Memory(x4, r4);
    XorTabMemory(r4, r[..], tt);
    XtimeOfBytes(Memory(x4));
    MemoryLast(x4);
  }

  lemma MemoryLast(w: seq<bv32>)
    requires |w| == 4
    ensures Memory(w)[15] == Byte3(w[3])
  {
  }

  lemma Shift8Memory(x: seq<bv32>, r: seq<bv32>)
    requires |x| == |r| == 4 && r[3] == Shift8(x[3], x[2]) && r[2] == Shift8(x[2], x[1]) && r[1] == Shift8(x[1], x[0])
    requires r[0] == Shift8(x[0], 0)
    ensures Memory(r) == [0] + Memory(x)[..15]
  {
    hide Shift8, Byte3, WordBytes;
    Shift8Word(x[0], 0);
    Shift8Word(x[1], x[0]);
    Shift8Word(x[2], x[1]);
    Shift8Word(x[3], x[2]);
    ZeroByte();
    Rejoin(WordBytes(x[0]), WordBytes(x[1]), WordBytes(x[2]), WordBytes(x[3]));
    LastByte(x[0]);
    LastByte(x[1]);
    LastByte(x[2]);
  }

  lemma LastByte(w: bv32)
    ensures WordBytes(w)[3] == Byte3(w)
  {
  }

  lemma Shift8Word(x: bv32, before: bv32)
    ensures WordBytes(Shift8(x, before)) == [Byte3(before)] + WordBytes(x)[..3]
  {
    hide Shift8, Byte0, Byte1, Byte2, Byte3;
    Shift8Bytes(x, before);
  }

  lemma Rejoin(a: seq<bv8>, b: seq<bv8>, c: seq<bv8>, d: seq<bv8>)
    requires |a| == |b| == |c| == |d| == 4
    ensures ([0] + a[..3]) + ([a[3]] + b[..3]) + ([b[3]] + c[..3]) + ([c[3]] + d[..3]) == [0] + (a + b + c + d)[..15]
  {
  }

  /** The product with x^8, in place. */
  method Mulx8(x: array<bv32>)
    requires x.Length == 4
    modifies x
    ensures Element(Memory(x[..])) == Xn(old(Element(Memory(x[..]))), 8)
  {
    hide Bits, Xtime, Shift8, GfTab, Memory, XorBytes, TabBlock, Xn, XorTab, Overflow8, Byte3;
    ghost var x4 := x[..];
    var tt := GfTab(Overflow8(x[3]));
    x[3] := Shift8(x[3], x[2]);
    x[2] := Shift8(x[2], x[1]);
    x[1] := Shift8(x[1], x[0]);
    x[0] := Shift8(x[0], 0);
    ghost var r4 := x[..];
    x[0] := XorTab(x[0], tt);
    Shift8Memory(x4, r4);
    XorTabMemory(r4, x[..], tt);
    XnEightOfBytes(Memory(x4));
    MemoryLast(x4);
  }
}
