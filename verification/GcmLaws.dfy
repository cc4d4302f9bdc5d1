/** Authenticated encryption spelled out on short messages, with every block and counter written in bytes. */
module GcmLaws {
  import opened GfBlock
  import opened Ghash
  import opened GcmSpec
  import opened GcmCtx
  import opened Words
  import opened Counters
  import GF128

  // The tag.

  /** The bit lengths of a header and a text of at most one block each. */
  function OneBlockLengths(header: bool, text: bool): (b: Block) {
    [0, 0, 0, 0, 0, 0, 0, if header then 0x80 else 0, 0, 0, 0, 0, 0, 0, 0, if text then 0x80 else 0]
  }

  /** The block of sixteen zero bytes. */
  function Nothing(): (b: Block) {
    [0, 0, 0, 0, 0, 0, 0, 0, 0, 0, 0, 0, 0, 0, 0, 0]
  }

  lemma NothingIs()
    ensures ZeroBlock() == Nothing()
  {
  }

  lemma Low128()
    ensures Low8(128) == 0x80
  {
    hide ByteOf, Number8, Low8;
    NumberIs(0x80);
    ByteOfNumber(0x80);
    LowIs(128);
  }

  lemma LowIs(n: nat)
    requires n < 256
    ensures Low8(n) == ByteOf(n)
  {
  }

  lemma SmallBe(b: bv8, n: nat)
    requires n < 256 && Low8(n) == b
    ensures Be(8, n) == [0, 0, 0, 0, 0, 0, 0, b]
  {
    hide Low8;
    BeZero(7);
    assert Be(8, n) == Be(7, 0) + [b];
  }

  lemma LengthsAre(header: bool, text: bool)
    ensures Lengths(if header then 16 else 0, if text then 16 else 0) == OneBlockLengths(header, text)
  {
    hide Be, Low8;
    Low128();
    LowZero();
    SmallBe(0x80, 128);
    SmallBe(0, 0);
  }

  /** The tag of nothing is the mask alone. */
  lemma TagOfNothing(e: Cipher, h: Block, j0: Block)
    ensures Tag(e, h, j0, [], []) == e(j0)
  {
    hide BlockMul, XorBytes, Padded, Lengths, Hash, Raise, HashInput;
    TagHash(h, [], []);
    NoBlocks();
    LengthsAre(false, false);
    NothingIs();
    HashOfNone(h);
    RaiseNone(ZeroBlock(), h);
    XorLaws(ZeroBlock(), ZeroBlock(), ZeroBlock());
    BlockMulZero(h);
    XorLaws(e(j0), ZeroBlock(), ZeroBlock());
  }

  lemma NoBlocks()
    ensures BlockCount(0) == 0 && BlockCount(16) == 1 && Padded([]) == []
  {
  }

  lemma HashOfNone(h: Block)
    ensures Hash(h, []) == ZeroBlock()
  {
  }

  lemma RaiseNone(x: Block, h: Block)
    ensures Raise(x, h, 0) == x && Raise(x, h, 1) == BlockMul(x, h)
  {
    hide BlockMul;
    assert Raise(x, h, 1) == BlockMul(Raise(x, h, 0), h);
  }

  /** Tags of the same header and text under two pre-counter blocks differ by the two masks. */
  lemma TagsDiffer(e: Cipher, h: Block, j: Block, k: Block, aad: seq<bv8>, text: seq<bv8>)
    ensures XorBytes(Tag(e, h, j, aad, text), Tag(e, h, k, aad, text)) == XorBytes(e(j), e(k))
  {
    hide Hash, HashInput, XorBytes;
    var t := Hash(h, HashInput(aad, text));
    XorLaws(t, e(j), e(k));
    XorLaws(e(j), t, XorBytes(t, e(k)));
    XorLaws(t, e(k), e(k));
    XorBytesUndone(e(k), t);
  }

  lemma PaddedBlock(x: Block)
    ensures Padded(x) == x && Padded(x)[..0] == []
  {
    NoBlocks();
  }

  lemma HashOfOne(h: Block, x: Block)
    ensures Hash(h, x) == BlockMul(x, h)
  {
    hide BlockMul, XorBytes;
    assert x[..0] == [] && x[0..] == x;
    XorLaws(x, x, x);
  }

  /** The tag of a text of one block: the block times the hash key, plus the length of 128 bits, times the hash key,
      plus the mask, for the hash key that the cipher makes of zeros. */
  lemma TagOfText(e: Cipher, j0: Block, x: Block)
    ensures var h := e(Nothing());
            Tag(e, HashKeyOf(e), j0, [], x)
            == XorBytes(BlockMul(XorBytes(BlockMul(x, h), OneBlockLengths(false, true)), h), e(j0))
  {
    hide BlockMul, XorBytes, Padded, Lengths, Hash, Raise, HashInput;
    var h := e(Nothing());
    NothingIs();
    TagHash(h, [], x);
    NoBlocks();
    PaddedBlock(x);
    LengthsAre(false, true);
    HashOfNone(h);
    HashOfOne(h, x);
    RaiseNone(ZeroBlock(), h);
    BlockMulZero(h);
    XorLaws(BlockMul(x, h), ZeroBlock(), ZeroBlock());
  }

  /** The tag of a header of one block and a text of one block. */
  lemma TagOfBoth(e: Cipher, j0: Block, a: Block, x: Block)
    ensures var h := e(Nothing());
            var y := BlockMul(XorBytes(BlockMul(a, h), x), h);
            Tag(e, HashKeyOf(e), j0, a, x) == XorBytes(BlockMul(XorBytes(y, OneBlockLengths(true, true)), h), e(j0))
  {
    hide BlockMul, XorBytes, Padded, Lengths, Hash, Raise, HashInput;
    var h := e(Nothing());
    NothingIs();
    TagHash(h, a, x);
    NoBlocks();
    PaddedBlock(a);
    PaddedBlock(x);
    LengthsAre(true, true);
    HashOfOne(h, a);
    HashOfOne(h, x);
    RaiseNone(BlockMul(a, h), h);
    BlockMulDistributes(BlockMul(a, h), x, h);
  }

  /** The tag of a header of one block alone. */
  lemma TagOfHeader(e: Cipher, j0: Block, a: Block)
    ensures var h := e(Nothing());
            Tag(e, HashKeyOf(e), j0, a, [])
            == XorBytes(BlockMul(XorBytes(BlockMul(a, h), OneBlockLengths(true, false)), h), e(j0))
  {
    hide BlockMul, XorBytes, Padded, Lengths, Hash, Raise, HashInput;
    var h := e(Nothing());
    NothingIs();
    TagHash(h, a, []);
    NoBlocks();
    PaddedBlock(a);
    LengthsAre(true, false);
    HashOfNone(h);
    HashOfOne(h, a);
    RaiseNone(BlockMul(a, h), h);
    XorLaws(BlockMul(a, h), ZeroBlock(), ZeroBlock());
  }

  // The counters of a twelve-byte vector.

  /** Counter block number `k` after the pre-counter block is the vector and the number `k + 1`. */
  lemma CounterBlock(h: Block, iv: seq<bv8>, k: nat)
    requires |iv| == 12 && k + 1 < TWO32
    ensures IncN(PreCounter(h, iv), k) == iv + Be(4, k + 1)
  {
    hide Be, BeValue, IncN;
    var j0 := PreCounter(h, iv);
    IncNKeepsIv(j0, k);
    IncNValue(j0, k);
    FirstCounter(iv);
    WordRange();
    BeValueOfBe(4, k + 1);
    ValueInjective(IncN(j0, k)[12..], Be(4, k + 1));
    assert IncN(j0, k) == IncN(j0, k)[..12] + IncN(j0, k)[12..];
  }

  lemma FirstCounter(iv: seq<bv8>)
    requires |iv| == 12
    ensures (iv + [0, 0, 0, 1])[..12] == iv && BeValue((iv + [0, 0, 0, 1])[12..]) == 1
  {
    hide Number8;
    var s := (iv + [0, 0, 0, 1])[12..];
    assert s == [0, 0, 0, 1];
    NumberZero(0);
    NumberIs(1);
    assert s[..3] == [0, 0, 0] && s[..3][..2] == [0, 0] && s[..2] == [0, 0];
    assert BeValue([0, 0, 0]) == 0 by {
      assert [0, 0, 0][..2] == [0, 0] && [0, 0][..1] == [0] && [0][..0] == [];
      assert BeValue([0]) == 0;
      assert BeValue([0, 0]) == 0;
    }
  }

  /** Byte `p` of the keystream is byte `p mod 16` of the encryption of the vector and the number `p / 16 + 2`. */
  lemma KeystreamIs(e: Cipher, h: Block, iv: seq<bv8>, p: nat)
    requires |iv| == 12 && p / 16 + 2 < TWO32
    ensures Keystream(e, PreCounter(h, iv), p) == e(iv + Be(4, p / 16 + 2))[p % 16]
  {
    hide Be, IncN, PreCounter;
    CounterBlock(h, iv, p / 16 + 1);
  }

  /** One block under a twelve-byte vector: it is added to the encryption of the vector and the number two, and the tag
      is masked with the encryption of the vector and the number one. */
  lemma SealedBlock(e: Cipher, iv: seq<bv8>, x: Block)
    requires |iv| == 12
    ensures var h := e(Nothing());
            var ct := XorBytes(x, e(iv + [0, 0, 0, 2]));
            var tag := XorBytes(BlockMul(XorBytes(BlockMul(ct, h), OneBlockLengths(false, true)), h),
                                e(iv + [0, 0, 0, 1]));
            Sealed(e, iv, [], x) == (ct, tag)
  {
    hide BlockMul, Tag, Keystream, IncN, Be, Xor8, OneBlockLengths;
    var h := HashKeyOf(e);
    NothingIs();
    Two();
    forall p | 0 <= p < 16
      ensures Keystream(e, PreCounter(h, iv), p) == e(iv + [0, 0, 0, 2])[p]
    {
      KeystreamIs(e, h, iv, p);
    }
    var ct := XorBytes(x, e(iv + [0, 0, 0, 2]));
    assert Crypt(e, PreCounter(h, iv), 0, x) == ct;
    TagOfText(e, PreCounter(h, iv), ct);
  }

  lemma Two()
    ensures Be(4, 2) == [0, 0, 0, 2]
  {
    hide ByteOf, Number8, Low8;
    NumberIs(2);
    ByteOfNumber(2);
    LowIs(2);
    BeZero(3);
    assert Be(4, 2) == Be(3, 0) + [Low8(2)];
  }

  // The field in bytes.

  /** The blocks that stand for one, for x, for x^127 and for 1 + x + x^2 + x^7. */
  function OneBlock(): (b: Block) {
    [0x80, 0, 0, 0, 0, 0, 0, 0, 0, 0, 0, 0, 0, 0, 0, 0]
  }

  function XBlock(): (b: Block) {
    [0x40, 0, 0, 0, 0, 0, 0, 0, 0, 0, 0, 0, 0, 0, 0, 0]
  }

  function TopBlock(): (b: Block) {
    [0, 0, 0, 0, 0, 0, 0, 0, 0, 0, 0, 0, 0, 0, 0, 1]
  }

  function FoldBlock(): (b: Block) {
    [0xe1, 0, 0, 0, 0, 0, 0, 0, 0, 0, 0, 0, 0, 0, 0, 0]
  }

  lemma ByteBitsOf()
    ensures ByteBits(0) == [false, false, false, false, false, false, false, false]
    ensures ByteBits(0x80) == [true, false, false, false, false, false, false, false]
    ensures ByteBits(0x40) == [false, true, false, false, false, false, false, false]
    ensures ByteBits(1) == [false, false, false, false, false, false, false, true]
    ensures ByteBits(0xe1) == [true, true, true, false, false, false, false, true]
  {
  }

  lemma {:induction false} BitsOfZeros(n: nat)
    ensures Bits(Zeros(n)) == GF128.Falses(8 * n)
  {
    hide ByteBits;
    ByteBitsOf();
    if n > 0 {
      BitsOfZeros(n - 1);
      assert Zeros(n)[1..] == Zeros(n - 1);
    }
  }

  /** A first byte followed by zeros. */
  lemma HeadByte(b: bv8, s: Block)
    requires s == [b] + Zeros(15)
    ensures Element(s) == ByteBits(b) + GF128.Falses(120)
  {
    hide ByteBits;
    BitsOfZeros(15);
    assert s[1..] == Zeros(15);
  }

  /** A last byte after zeros. */
  lemma TailByte(b: bv8, s: Block)
    requires s == Zeros(15) + [b]
    ensures Element(s) == GF128.Falses(120) + ByteBits(b)
  {
    hide ByteBits;
    BitsOfZeros(15);
    BitsConcat(Zeros(15), [b]);
    var last: seq<bv8> := [b];
    assert last[1..] == [] && Bits(last) == ByteBits(b) + Bits([]);
    assert Bits([]) == [];
  }

  lemma OneElement()
    ensures Element(OneBlock()) == GF128.One()
  {
    hide ByteBits, Element;
    ByteBitsOf();
    assert OneBlock() == [0x80] + Zeros(15);
    HeadByte(0x80, OneBlock());
  }

  lemma XElement()
    ensures Element(XBlock()) == [false, true] + GF128.Falses(126)
  {
    hide ByteBits, Element;
    ByteBitsOf();
    assert XBlock() == [0x40] + Zeros(15);
    HeadByte(0x40, XBlock());
  }

  lemma TopElement()
    ensures Element(TopBlock()) == GF128.Falses(127) + [true]
  {
    hide ByteBits, Element;
    ByteBitsOf();
    assert TopBlock() == Zeros(15) + [1];
    TailByte(1, TopBlock());
  }

  lemma FoldElement()
    ensures Element(FoldBlock()) == GF128.Fold()
  {
    hide ByteBits, Element;
    ByteBitsOf();
    assert FoldBlock() == [0xe1] + Zeros(15);
    HeadByte(0xe1, FoldBlock());
  }

  lemma SameElement(a: Block, b: Block)
    requires Element(a) == Element(b)
    ensures a == b
  {
    BitsInjective(a, b);
  }

  /** The block that starts with 0x80 is neutral, and x times x^127 is the polynomial 1 + x + x^2 + x^7. */
  lemma FieldBlocks(b: Block)
    ensures BlockMul(b, OneBlock()) == b && BlockMul(XBlock(), TopBlock()) == FoldBlock()
  {
    hide BlockMul, Element, GF128.Mul, GF128.Times, OneBlock, XBlock, TopBlock, FoldBlock;
    ElementMul(b, OneBlock());
    OneElement();
    GF128.MulOne(Element(b));
    SameElement(BlockMul(b, OneBlock()), b);
    ElementMul(XBlock(), TopBlock());
    XElement();
    TopElement();
    FoldElement();
    TimesX(Element(TopBlock()));
    TopTimesX();
    SameElement(BlockMul(XBlock(), TopBlock()), FoldBlock());
  }

  lemma TimesX(a: GF128.Elem)
    ensures GF128.Mul([false, true] + GF128.Falses(126), a) == GF128.Xtime(a)
  {
    hide GF128.Xtime, GF128.Xor;
    var z := GF128.Falses(126);
    var p, q := [false, true] + z, [true] + z;
    assert p[1..] == q && q[1..] == z;
    TimesNone(126, a);
    GF128.XtimeZero();
    GF128.XorLaws(a, a, a);
    GF128.XorLaws(GF128.Xtime(a), a, a);
    assert GF128.Times(q, a) == GF128.Xor(a, GF128.Xtime(GF128.Times(z, a)));
  }

  lemma {:induction false} TimesNone(n: nat, a: GF128.Elem)
    ensures GF128.Times(GF128.Falses(n), a) == GF128.Zero()
  {
    hide GF128.Xtime, GF128.Xor;
    if n > 0 {
      TimesNone(n - 1, a);
      assert GF128.Falses(n)[1..] == GF128.Falses(n - 1);
      GF128.XtimeZero();
      GF128.XorLaws(GF128.Zero(), a, a);
    }
  }

  lemma TopTimesX()
    ensures GF128.Xtime(GF128.Falses(127) + [true]) == GF128.Fold()
  {
  }
}
