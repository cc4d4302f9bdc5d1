/** The GCM context and its calls, and whole messages. */
module GcmCtx {
  import opened GfBlock
  import opened Ghash
  import opened GcmSpec
  import opened Gcm
  import opened Words
  import GfWords
  import GfMul

  const GOOD: int := 0
  const WARN: int := 1
  const ERROR: int := -1

  // The pre-counter block of an initialisation vector.

  /** Hashes the vector, multiplying after every block. */
  method HashIv(key: HashKey, iv: seq<bv8>) returns (ctr: Block)
    requires key.Valid()
    ensures ctr == Hash(key.h, Padded(iv))
  {
    hide BlockMul, XorBytes, HashKey.Valid, Padded;
    ctr := ZeroBlock();
    var c := 0;
    while c + 16 <= |iv|
      invariant c <= |iv| && c % 16 == 0 && ctr == Hash(key.h, iv[..c])
    {
      ctr := XorBytes(ctr, iv[c..c + 16]);
      ctr := key.Times(ctr);
      assert iv[..c + 16][..c] == iv[..c] && iv[..c + 16][c..] == iv[c..c + 16];
      c := c + 16;
    }
    if c < |iv| {
      ctr := XorBytes(ctr, iv[c..] + Zeros(16 - (|iv| - c)));
      ctr := key.Times(ctr);
      PaddedLast(iv, c);
    } else {
      PaddedFull(iv);
      assert iv[..c] == iv;
    }
  }

  lemma PaddedLast(s: seq<bv8>, c: nat)
    requires c % 16 == 0 && c < |s| < c + 16
    ensures |Padded(s)| == c + 16 && Padded(s)[..c] == s[..c] && Padded(s)[c..] == s[c..] + Zeros(16 - (|s| - c))
  {
    hide BlockCount;
    PadLength(|s|, |s| - c);
  }

  lemma PaddedFull(s: seq<bv8>)
    requires Whole(|s|)
    ensures Padded(s) == s
  {
    assert BlockCount(|s|) == |s| / 16;
  }

  /** Adds the bit length from the last byte backwards, stopping when no digits are left. */
  method AddLength(ctr0: Block, bits: nat) returns (ctr: Block)
    requires bits < TWO32
    ensures ctr == XorBytes(ctr0, Be(16, bits))
  {
    hide Xor8, Be, XorBytes;
    ctr := ctr0;
    var n, i := bits, 15;
    while n != 0
      invariant 11 <= i <= 15 && Fits(n, i)
      invariant XorBytes(ctr, Be(i + 1, n) + Zeros(15 - i)) == XorBytes(ctr0, Be(16, bits) + Zeros(0))
      decreases n
    {
      LengthStep(ctr, n, i);
      ctr := ctr[i := Xor8(ctr[i], Low8(n))];
      n, i := n / 256, i - 1;
    }
    BeZero(i + 1);
    assert Zeros(i + 1) + Zeros(15 - i) == ZeroBlock();
    XorLaws(ctr, ctr, ctr);
    assert Be(16, bits) + Zeros(0) == Be(16, bits);
  }

  /** What is left of a 32-bit number at byte `i`. */
  ghost predicate Fits(n: nat, i: int) {
    if i == 15 then n < 0x1_0000_0000 else if i == 14 then n < 0x100_0000 else if i == 13 then n < 0x1_0000
    else if i == 12 then n < 0x100 else n == 0
  }

  lemma LengthStep(ctr: Block, n: nat, i: nat)
    requires 11 < i <= 15
    ensures XorBytes(ctr[i := Xor8(ctr[i], Low8(n))], Be(i, n / 256) + Zeros(16 - i))
         == XorBytes(ctr, Be(i + 1, n) + Zeros(15 - i))
  {
    hide Xor8, Low8;
    var u, v := Be(i, n / 256) + Zeros(16 - i), Be(i + 1, n) + Zeros(15 - i);
    assert v == u[i := Low8(n)] && u[i] == 0;
    Xor8Laws(Xor8(ctr[i], Low8(n)), 0, 0);
  }

  lemma {:induction false} BeZero(n: nat)
    ensures Be(n, 0) == Zeros(n)
  {
    if n > 0 {
      BeZero(n - 1);
      LowZero();
    }
  }

  lemma LowZero()
    ensures Low8(0) == 0
  {
    hide ByteBits, IndexBits;
    GfMul.IndexZero(8);
    GfWords.NoBits();
    ByteDetermined(Low8(0), 0);
  }

  /** What the pre-counter block of the code hashes. The length of the vector goes through a 32-bit variable before its
      bytes are read, and again as a number of bits. */
  function IvHashed(iv: seq<bv8>): (r: seq<bv8>)
    ensures Whole(|r|)
  {
    hide Padded, Be, BlockCount, Whole;
    var p := Padded(iv[..|iv| % TWO32]);
    WholeBlock();
    WholeSum(|p|, 16);
    p + Be(16, 8 * |iv| % TWO32)
  }

  /** The pre-counter block of the code. */
  function StartOf(h: Block, iv: seq<bv8>): (j0: Block) {
    if |iv| == 12 then iv + [0, 0, 0, 1] else Hash(h, IvHashed(iv))
  }

  /** The code hashes what the standard asks for exactly when the bits of the vector can be counted in 32 bits. */
  lemma HashedWhen(iv: seq<bv8>)
    requires 8 * |iv| < TWO64
    ensures IvHashed(iv) == IvInput(iv) <==> 8 * |iv| < TWO32
  {
    hide Padded, Be, Whole, Exp256;
    var bits := 8 * |iv|;
    var u, v := IvHashed(iv), IvInput(iv);
    assert u[|u| - 16..] == Be(16, bits % TWO32) && v[|v| - 16..] == Be(16, bits);
    if u == v {
      LongRange();
      BeInjective(16, bits % TWO32, bits);
    }
    if bits < TWO32 {
      assert iv[..|iv| % TWO32] == iv;
    }
  }

  lemma LongRange()
    ensures Exp256(16) > TWO64
  {
    assert Exp256(9) > TWO64;
    assert Exp256(16) >= Exp256(9);
  }

  /** For such vectors, and for those of twelve bytes, the code starts where section 7.1 of NIST SP 800-38D does. */
  lemma StandardStart(h: Block, iv: seq<bv8>)
    requires |iv| == 12 || 8 * |iv| < TWO32
    ensures StartOf(h, iv) == PreCounter(h, iv)
  {
    hide IvHashed, IvInput, Hash;
    if |iv| != 12 {
      HashedWhen(iv);
    }
  }

  method StartCounter(key: HashKey, iv: seq<bv8>) returns (ctr: Block)
    requires key.Valid()
    ensures ctr == StartOf(key.h, iv)
  {
    hide HashKey.Valid, BlockMul, XorBytes, Padded, Be;
    if |iv| == 12 {
      ctr := ZeroBlock();
      ctr := iv + ctr[12..];
      ctr := ctr[15 := 1];
      assert ctr == iv + [0, 0, 0, 1];
    } else {
      ctr := HashIv(key, iv[..|iv| % TWO32]);
      ctr := AddLength(ctr, 8 * |iv| % TWO32);
      ctr := key.Times(ctr);
      var p, b := Padded(iv[..|iv| % TWO32]), Be(16, 8 * |iv| % TWO32);
      assert (p + b)[..|p|] == p && (p + b)[|p|..] == b;
    }
  }

  lemma StartOfMessage(e: Cipher, h: Block, ctr: Block, enc: Block)
    ensures Holds(h, ZeroBlock(), []) && Keyed(e, ctr, ctr, enc, 0, 0)
  {
  }

  class Context {
    const e: Cipher
    const key: HashKey
    var ctrVal: Block
    var encCtr: Block
    var hdrGhv: Block
    var txtGhv: Block
    var y0: seq<bv8>
    var hdrCnt: nat
    var txtCcnt: nat
    var txtAcnt: nat
    ghost var j0: Block
    ghost var aad: seq<bv8>
    ghost var text: seq<bv8>

    /** Keyed. */
    ghost predicate Ready()
      reads this, key, key.table
    {
      key.Valid() && key.h == HashKeyOf(e)
    }

    /** In the middle of a message: `aad` and `text` are authenticated, `txtCcnt` bytes are encrypted. */
    ghost predicate Valid()
      reads this, key, key.table
    {
      && Ready()
      && hdrCnt == |aad| < TWO32 && txtAcnt == |text| < TWO32 && txtCcnt < TWO32
      && y0 == j0[12..]
      && Holds(key.h, hdrGhv, aad) && Holds(key.h, txtGhv, text)
      && Keyed(e, j0, ctrVal, encCtr, txtCcnt, txtCcnt % 16)
    }

    constructor InitAndKey(cipher: Cipher)
      ensures Ready() && e == cipher && fresh(key) && fresh(set i | 0 <= i < |key.table| :: key.table[i])
    {
      hide BlockMul;
      e := cipher;
      var k := new HashKey(cipher(ZeroBlock()));
      key := k;
      ctrVal, encCtr, hdrGhv, txtGhv := ZeroBlock(), ZeroBlock(), ZeroBlock(), ZeroBlock();
    }

    method InitMessage(iv: seq<bv8>)
      requires Ready()
      modifies this
      ensures Valid() && j0 == StartOf(key.h, iv) && aad == [] && text == [] && txtCcnt == 0
    {
      assert key.Valid();
      hide HashKey.Valid, Holds, Keyed, StartOf, ZeroBlock, HashKeyOf, Ready;
      var ctr := StartCounter(key, iv);
      StartOfMessage(e, key.h, ctr, encCtr);
      ctrVal := ctr;
      y0 := ctr[12..];
      hdrGhv, txtGhv := ZeroBlock(), ZeroBlock();
      hdrCnt, txtCcnt, txtAcnt := 0, 0, 0;
      j0, aad, text := ctr, [], [];
      assert Holds(key.h, hdrGhv, aad) && Holds(key.h, txtGhv, text);
      assert Keyed(e, j0, ctrVal, encCtr, txtCcnt, 0);
    }

    method AuthHeader(hdr: seq<bv8>, aligned: bool)
      requires Valid() && hdrCnt + |hdr| < TWO32
      modifies this
      ensures Valid() && aad == old(aad) + hdr
      ensures text == old(text) && j0 == old(j0) && txtCcnt == old(txtCcnt)
    {
      hide HashKey.Valid, Holds, Keyed;
      var g := Absorb(key, hdrGhv, hdrCnt, hdr, aligned, aad);
      hdrGhv := g;
      hdrCnt := hdrCnt + |hdr|;
      aad := aad + hdr;
    }

    method AuthData(data: seq<bv8>, aligned: bool)
      requires Valid() && txtAcnt + |data| < TWO32
      modifies this
      ensures Valid() && text == old(text) + data
      ensures aad == old(aad) && j0 == old(j0) && txtCcnt == old(txtCcnt)
    {
      hide HashKey.Valid, Holds, Keyed;
      var g := Absorb(key, txtGhv, txtAcnt, data, aligned, text);
      txtGhv := g;
      txtAcnt := txtAcnt + |data|;
      text := text + data;
    }

    /** The next counter block and its encryption. */
    method NextBlock()
      modifies this`ctrVal, this`encCtr
      ensures ctrVal == Inc(old(ctrVal)) && encCtr == e(ctrVal)
    {
      var c := IncCtr(ctrVal);
      ctrVal := c;
      encCtr := e(ctrVal);
    }

    /** Encrypts or decrypts in place, continuing the keystream where the last call stopped. */
    method CryptData(data: array<bv8>, aligned: bool)
      requires Valid() && txtCcnt + data.Length < TWO32
      modifies this, data
      ensures Valid() && data[..] == Crypt(e, j0, old(txtCcnt), old(data[..]))
      ensures txtCcnt == old(txtCcnt) + data.Length
      ensures aad == old(aad) && text == old(text) && j0 == old(j0)
    {
      hide HashKey.Valid, Holds, Keyed, Done;
      ghost var was, n := data[..], txtCcnt;
      NothingDone(was, e, j0, n);
      var c, b := 0, txtCcnt % 16;
      if data.Length == 0 {
        AllDone(data[..], was, e, j0, n);
        return;
      }
      if b != 0 {
        c, b := UsePartial(data, b, aligned, n);
      }
      c, b := UseBlocks(data, c, b, was, n);
      b := UseBytes(data, c, b, was, n);
      KeyedAgain(e, j0, ctrVal, encCtr, n + data.Length, b);
      AllDone(data[..], was, e, j0, n);
      txtCcnt := txtCcnt + data.Length;
    }

    /** The rest of a partly used keystream block: bytes, with words in between when aligned. */
    method UsePartial(data: array<bv8>, b0: nat, aligned: bool, ghost n: nat) returns (c: nat, b: nat)
      requires 0 < b0 < 16 && Keyed(e, j0, ctrVal, encCtr, n, b0)
      modifies data
      ensures c <= data.Length && 0 < b <= 16 && Keyed(e, j0, ctrVal, encCtr, n + c, b)
      ensures Done(data[..], old(data[..]), e, j0, n, c) && (c + 16 <= data.Length ==> b == 16)
    {
      hide Keyed, Done, Xor8, XorBytes;
      ghost var was := data[..];
      c, b := 0, b0;
      NothingDone(was, e, j0, n);
      while c < data.Length && (if aligned then b % 4 != 0 else b < 16)
        invariant c <= data.Length && 0 < b <= 16 && Keyed(e, j0, ctrVal, encCtr, n + c, b)
        invariant Done(data[..], was, e, j0, n, c)
        decreases data.Length - c
      {
        KeyedByte(e, j0, ctrVal, encCtr, n + c, b);
        DoneByte(data[..], was, e, j0, n, c, encCtr[b]);
        ghost var before := data[..];
        data[c] := Xor8(data[c], encCtr[b]);
        assert data[..] == before[c := data[c]];
        c, b := c + 1, b + 1;
      }
      if aligned {
        while c + 4 <= data.Length && b <= 12
          invariant c <= data.Length && 0 < b <= 16 && Keyed(e, j0, ctrVal, encCtr, n + c, b)
          invariant Done(data[..], was, e, j0, n, c) && (b % 4 == 0 || c == data.Length)
          decreases data.Length - c
        {
          KeyedWord(e, j0, ctrVal, encCtr, n + c, b, encCtr[b..b + 4]);
          ghost var before := data[..];
          XorInto(data, c, encCtr[b..b + 4]);
          DoneMany(before, data[..], was, e, j0, n, c, encCtr[b..b + 4]);
          c, b := c + 4, b + 4;
        }
      }
    }

    /** Whole blocks; the position within a block stays as it was. */
    method UseBlocks(data: array<bv8>, c0: nat, b: nat, ghost was: seq<bv8>, ghost n: nat) returns (c: nat, b': nat)
      requires c0 <= data.Length && Keyed(e, j0, ctrVal, encCtr, n + c0, b) && Done(data[..], was, e, j0, n, c0)
      requires c0 + 16 <= data.Length ==> b == 0 || b == 16
      modifies data, this`ctrVal, this`encCtr
      ensures c0 <= c <= data.Length && b' == b && Keyed(e, j0, ctrVal, encCtr, n + c, b)
      ensures Done(data[..], was, e, j0, n, c)
    {
      hide Keyed, Done, XorBytes, Inc;
      c, b' := c0, b;
      while c + 16 <= data.Length
        invariant c0 <= c <= data.Length && Keyed(e, j0, ctrVal, encCtr, n + c, b)
        invariant Done(data[..], was, e, j0, n, c)
      {
        KeyedNext(e, j0, ctrVal, encCtr, n + c, b);
        NextBlock();
        ghost var before := data[..];
        XorInto(data, c, encCtr);
        DoneMany(before, data[..], was, e, j0, n, c, encCtr);
        c := c + 16;
      }
    }

    /** The last bytes, starting a new keystream block where one is used up. */
    method UseBytes(data: array<bv8>, c0: nat, b0: nat, ghost was: seq<bv8>, ghost n: nat) returns (b: nat)
      requires c0 <= data.Length && Keyed(e, j0, ctrVal, encCtr, n + c0, b0) && Done(data[..], was, e, j0, n, c0)
      modifies data, this`ctrVal, this`encCtr
      ensures Keyed(e, j0, ctrVal, encCtr, n + data.Length, b) && Done(data[..], was, e, j0, n, data.Length)
    {
      hide Keyed, Done, Xor8, Inc;
      var c := c0;
      b := b0;
      while c < data.Length
        invariant c <= data.Length && Keyed(e, j0, ctrVal, encCtr, n + c, b)
        invariant Done(data[..], was, e, j0, n, c)
      {
        KeyedBound(e, j0, ctrVal, encCtr, n + c, b);
        if b == 16 || b == 0 {
          KeyedNext(e, j0, ctrVal, encCtr, n + c, b);
          NextBlock();
          b := 0;
          assert Keystream(e, j0, n + c + 0) == encCtr[0];
        } else {
          KeyedByte(e, j0, ctrVal, encCtr, n + c, b);
        }
        DoneByte(data[..], was, e, j0, n, c, encCtr[b]);
        ghost var before := data[..];
        data[c] := Xor8(data[c], encCtr[b]);
        assert data[..] == before[c := data[c]];
        c, b := c + 1, b + 1;
      }
    }

    /** The tag over everything authenticated; the hash buffers are consumed. */
    method ComputeTag(tagLen: nat) returns (ret: int, tag: seq<bv8>)
      requires Valid() && tagLen <= 16 && txtAcnt + 15 < TWO32
      modifies this
      ensures Ready() && txtCcnt == old(txtCcnt) && text == old(text) && aad == old(aad) && j0 == old(j0)
      ensures ret == (if txtAcnt != txtCcnt && txtCcnt > 0 then ERROR else if txtAcnt == txtCcnt then GOOD else WARN)
      ensures txtAcnt == old(txtAcnt)
      ensures ret != ERROR ==> tag == Tag(e, key.h, j0, aad, text)[..tagLen]
    {
      hide HashKey.Valid, Holds, Keyed, XorBytes, Hash, HashInput;
      if txtAcnt != txtCcnt && txtCcnt > 0 {
        return ERROR, [];
      }
      var hash, txt := FinalHash(key, hdrGhv, txtGhv, hdrCnt, txtAcnt, aad, text);
      KeyedIv(e, j0, ctrVal, encCtr, txtCcnt, txtCcnt % 16);
      hdrGhv, txtGhv := hash, txt;
      encCtr := ctrVal[..12] + y0;
      assert encCtr == j0;
      encCtr := e(encCtr);
      tag := XorBytes(hdrGhv, encCtr)[..tagLen];
      ret := if txtCcnt == txtAcnt then GOOD else WARN;
    }

    method Encrypt(data: array<bv8>, a1: bool, a2: bool)
      requires Valid() && txtCcnt + data.Length < TWO32 && txtAcnt + data.Length < TWO32
      modifies this, data
      ensures Valid() && data[..] == Crypt(e, j0, old(txtCcnt), old(data[..])) && text == old(text) + data[..]
      ensures aad == old(aad) && j0 == old(j0) && txtCcnt == old(txtCcnt) + data.Length
    {
      hide Valid, Crypt;
      Counted();
      CryptData(data, a1);
      Counted();
      AuthData(data[..], a2);
    }

    method Decrypt(data: array<bv8>, a1: bool, a2: bool)
      requires Valid() && txtCcnt + data.Length < TWO32 && txtAcnt + data.Length < TWO32
      modifies this, data
      ensures Valid() && data[..] == Crypt(e, j0, old(txtCcnt), old(data[..])) && text == old(text) + old(data[..])
      ensures aad == old(aad) && j0 == old(j0) && txtCcnt == old(txtCcnt) + data.Length
    {
      hide Valid, Crypt;
      AuthData(data[..], a1);
      CryptData(data, a2);
    }

    lemma Counted()
      requires Valid()
      ensures txtAcnt == |text| && hdrCnt == |aad| && Ready()
    {
    }
  }

  /** The hash that the tag masks, from the two buffers. */
  method FinalHash(key: HashKey, hdrGhv: Block, txtGhv: Block, hdrCnt: nat, txtAcnt: nat,
                   ghost aad: seq<bv8>, ghost text: seq<bv8>) returns (hash: Block, txt: Block)
    requires key.Valid() && hdrCnt == |aad| < TWO32 && txtAcnt == |text| && txtAcnt + 15 < TWO32
    requires Holds(key.h, hdrGhv, aad) && Holds(key.h, txtGhv, text)
    ensures hash == Hash(key.h, HashInput(aad, text))
  {
    hide HashKey.Valid, Holds, BlockMul, XorBytes, Hash, Padded, HashInput, Lengths, Raise;
    HoldsEnds(key.h, hdrGhv, aad);
    HoldsEnds(key.h, txtGhv, text);
    hash := key.Times(hdrGhv);
    txt := key.Times(txtGhv);
    if hdrCnt != 0 {
      var ln := (txtAcnt + 15) / 16;
      hash := PowerLoop(hash, key.h, ln);
    } else {
      NoHeader(key.h, aad, BlockCount(|text|));
    }
    hash := AddLengths(hash, txt, hdrCnt, txtAcnt);
    hash := key.Times(hash);
    TagHash(key.h, aad, text);
  }

  lemma KeyedBound(e: Cipher, j0: Block, ctr: Block, enc: Block, n: nat, b: nat)
    requires Keyed(e, j0, ctr, enc, n, b)
    ensures b <= 16
  {
  }

  lemma KeyedWord(e: Cipher, j0: Block, ctr: Block, enc: Block, n: nat, b: nat, w: seq<bv8>)
    requires Keyed(e, j0, ctr, enc, n, b) && 0 < b <= 12 && w == enc[b..b + 4]
    ensures forall i :: 0 <= i < 4 ==> w[i] == Keystream(e, j0, n + i)
    ensures Keyed(e, j0, ctr, enc, n + 4, b + 4)
  {
    hide Keyed;
    KeyedByte(e, j0, ctr, enc, n, b);
    KeyedByte(e, j0, ctr, enc, n + 1, b + 1);
    KeyedByte(e, j0, ctr, enc, n + 2, b + 2);
    KeyedByte(e, j0, ctr, enc, n + 3, b + 3);
  }

  lemma NothingDone(was: seq<bv8>, e: Cipher, j0: Block, n: nat)
    ensures Done(was, was, e, j0, n, 0)
  {
    assert was[..0] == [];
  }

  lemma AllDone(data: seq<bv8>, was: seq<bv8>, e: Cipher, j0: Block, n: nat)
    requires Done(data, was, e, j0, n, |data|)
    ensures data == Crypt(e, j0, n, was)
  {
    hide Crypt;
    assert data[..|data|] == data && was[..|data|] == was;
  }

  /** Adds `x` to the bytes of `data` from `c` on. */
  method XorInto(data: array<bv8>, c: nat, x: seq<bv8>)
    requires c + |x| <= data.Length
    modifies data
    ensures data[..] == old(data[..c] + XorBytes(data[c..c + |x|], x) + data[c + |x|..])
  {
    hide Xor8;
    ghost var was := data[..];
    var i := 0;
    while i < |x|
      invariant i <= |x|
      invariant forall k :: 0 <= k < i ==> data[c + k] == Xor8(was[c + k], x[k])
      invariant forall k :: 0 <= k < data.Length && !(c <= k < c + i) ==> data[k] == was[k]
    {
      data[c + i] := Xor8(data[c + i], x[i]);
      i := i + 1;
    }
    XorPart(data[..], was, c, x);
  }

  lemma XorPart(after: seq<bv8>, was: seq<bv8>, c: nat, x: seq<bv8>)
    requires |after| == |was| && c + |x| <= |was|
    requires forall k :: 0 <= k < |x| ==> after[c + k] == Xor8(was[c + k], x[k])
    requires forall k :: 0 <= k < |was| && !(c <= k < c + |x|) ==> after[k] == was[k]
    ensures after == was[..c] + XorBytes(was[c..c + |x|], x) + was[c + |x|..]
  {
    hide Xor8;
    var r := was[..c] + XorBytes(was[c..c + |x|], x) + was[c + |x|..];
    forall k | 0 <= k < |was|
      ensures after[k] == r[k]
    {
      if c <= k < c + |x| {
        assert after[c + (k - c)] == Xor8(was[c + (k - c)], x[k - c]);
      }
    }
  }

  lemma KeyedIv(e: Cipher, j0: Block, ctr: Block, enc: Block, n: nat, b: nat)
    requires Keyed(e, j0, ctr, enc, n, b)
    ensures ctr[..12] == j0[..12]
  {
    IncNKeepsIv(j0, (n - b) / 16 + if b > 0 then 1 else 0);
  }

  /** Without a header there is nothing to multiply. */
  lemma NoHeader(h: Block, aad: seq<bv8>, n: nat)
    requires |aad| == 0
    ensures Raise(Hash(h, Padded(aad)), h, n) == Hash(h, Padded(aad))
  {
    hide BlockMul;
    assert Padded(aad) == [];
    HashEmpty(h);
    RaiseZero(h, n);
  }

  lemma {:induction false} RaiseZero(h: Block, n: nat)
    ensures Raise(ZeroBlock(), h, n) == ZeroBlock()
    decreases n
  {
    hide BlockMul;
    if n > 0 {
      RaiseZero(h, n - 1);
      BlockMulZero(h);
    }
  }

  /** Multiplies by the `ln`-th power of `h`, squaring as it goes. */
  method PowerLoop(x: Block, h: Block, ln0: nat) returns (r: Block)
    ensures r == Raise(x, h, ln0)
  {
    hide BlockMul;
    r := x;
    var ln := ln0;
    if ln != 0 {
      var tbuf := h;
      while true
        invariant ln > 0 && Raise(r, tbuf, ln) == Raise(x, h, ln0)
        decreases ln
      {
        RaiseOdd(r, tbuf, ln);
        if ln % 2 == 1 {
          r := SlowMul(r, tbuf);
        }
        ln := ln / 2;
        if ln == 0 {
          break;
        }
        tbuf := SlowSquare(tbuf);
      }
    }
  }

  lemma RaiseOdd(r: Block, t: Block, n: nat)
    requires n > 0
    ensures Raise(r, t, n) == Raise(if n % 2 == 1 then BlockMul(r, t) else r, BlockMul(t, t), n / 2)
  {
    hide BlockMul, Raise;
    var m := n / 2;
    if n % 2 == 1 {
      RaiseLast(r, t, n);
      RaiseInside(r, t, 2 * m);
      RaiseSquared(BlockMul(r, t), t, m);
    } else {
      RaiseSquared(r, t, m);
    }
  }

  lemma RaiseLast(r: Block, t: Block, n: nat)
    requires n > 0
    ensures Raise(r, t, n) == BlockMul(Raise(r, t, n - 1), t)
  {
    hide BlockMul;
  }

  /** `lens` is what is still to be added: the digits of `tm` end at byte `i`, after the header length if `i` is past
      the middle. */
  ghost predicate LengthsFrom(lens: Block, hdrCnt: nat, tm: nat, i: nat) {
    && i <= 16
    && lens[..i] == if 8 < i then Be(8, 8 * hdrCnt) + Be(i - 8, tm) else Be(i, tm)
  }

  lemma LengthDigit(lens: Block, hdrCnt: nat, tm: nat, i: nat)
    requires i < 16 && LengthsFrom(lens, hdrCnt, tm, i + 1)
    ensures lens[i] == Low8(tm) && LengthsFrom(lens, hdrCnt, if i == 8 then 8 * hdrCnt else tm / 256, i)
  {
    hide Low8;
    var k := if 8 <= i then i - 8 else i;
    assert Be(k + 1, tm) == Be(k, tm / 256) + [Low8(tm)];
    assert lens[i] == lens[..i + 1][i] && lens[..i] == lens[..i + 1][..i];
  }

  lemma AddedByte(x: Block, txt: Block, lens: Block, goal: Block, now: Block, i: nat)
    requires i < 16 && goal == XorBytes(XorBytes(x, txt), lens) && now == x[..i + 1] + goal[i + 1..]
    ensures now[i := Xor8(now[i], Xor8(txt[i], lens[i]))] == x[..i] + goal[i..]
  {
    hide Xor8;
    Xor8Laws(x[i], txt[i], lens[i]);
  }

  /** Adds the text hash and the two bit lengths, from the last byte to the first. */
  method AddLengths(hash0: Block, txt: Block, hdrCnt: nat, txtAcnt: nat) returns (hash: Block)
    requires hdrCnt < TWO32 && txtAcnt < TWO32
    ensures hash == XorBytes(XorBytes(hash0, txt), Lengths(hdrCnt, txtAcnt))
  {
    hide Xor8, Be, Low8, XorBytes, LengthsFrom;
    hash := hash0;
    var tm: nat := 8 * txtAcnt;
    var i := 16;
    ghost var lens := Lengths(hdrCnt, txtAcnt);
    ghost var goal := XorBytes(XorBytes(hash0, txt), lens);
    AllLengths(hdrCnt, txtAcnt);
    while i > 0
      invariant 0 <= i <= 16 && LengthsFrom(lens, hdrCnt, tm, i) && hash == hash0[..i] + goal[i..]
    {
      i := i - 1;
      LengthDigit(lens, hdrCnt, tm, i);
      AddedByte(hash0, txt, lens, goal, hash, i);
      hash := hash[i := Xor8(hash[i], Xor8(txt[i], Low8(tm)))];
      tm := if i == 8 then 8 * hdrCnt else tm / 256;
    }
  }

  lemma AllLengths(hdrCnt: nat, txtAcnt: nat)
    ensures LengthsFrom(Lengths(hdrCnt, txtAcnt), hdrCnt, 8 * txtAcnt, 16)
  {
    hide Be;
  }

  // Whole messages. Each flag stands for one of the alignment tests.

  /** The ciphertext and full tag of a message from the pre-counter block `j0`. */
  ghost function SealedFrom(e: Cipher, j0: Block, hdr: seq<bv8>, msg: seq<bv8>): (seq<bv8>, Block) {
    var ct := Crypt(e, j0, 0, msg);
    (ct, Tag(e, HashKeyOf(e), j0, hdr, ct))
  }

  /** The ciphertext and full tag of section 7.1 of NIST SP 800-38D. */
  ghost function Sealed(e: Cipher, iv: seq<bv8>, hdr: seq<bv8>, msg: seq<bv8>): (seq<bv8>, Block) {
    SealedFrom(e, PreCounter(HashKeyOf(e), iv), hdr, msg)
  }

  method EncryptMessage(ctx: Context, iv: seq<bv8>, hdr: seq<bv8>, msg: array<bv8>, tagLen: nat, a: (bool, bool, bool))
    returns (ret: int, tag: seq<bv8>)
    requires ctx.Ready() && |hdr| < TWO32 && msg.Length + 15 < TWO32 && tagLen <= 16
    modifies ctx, msg
    ensures ctx.Ready() && ret == GOOD
    ensures var sealed := SealedFrom(ctx.e, StartOf(HashKeyOf(ctx.e), iv), hdr, old(msg[..]));
            msg[..] == sealed.0 && tag == sealed.1[..tagLen]
  {
    hide Context.Valid, Crypt, Tag, StartOf;
    ctx.InitMessage(iv);
    ctx.Counted();
    ctx.AuthHeader(hdr, a.0);
    ctx.Counted();
    ctx.Encrypt(msg, a.1, a.2);
    ctx.Counted();
    assert ctx.text == msg[..] && ctx.aad == hdr;
    var r, t := ctx.ComputeTag(tagLen);
    ret, tag := if r != GOOD then ERROR else GOOD, t;
  }

  method DecryptMessage(ctx: Context, iv: seq<bv8>, hdr: seq<bv8>, msg: array<bv8>, tag: seq<bv8>,
                        a: (bool, bool, bool)) returns (ret: int)
    requires ctx.Ready() && |hdr| < TWO32 && msg.Length + 15 < TWO32 && |tag| <= 16
    modifies ctx, msg
    ensures ctx.Ready()
    ensures var h := HashKeyOf(ctx.e);
            var j0 := StartOf(h, iv);
            && msg[..] == Crypt(ctx.e, j0, 0, old(msg[..]))
            && ret == (if tag == Tag(ctx.e, h, j0, hdr, old(msg[..]))[..|tag|] then GOOD else ERROR)
  {
    hide Context.Valid, Crypt, Tag, StartOf;
    ctx.InitMessage(iv);
    ctx.Counted();
    ctx.AuthHeader(hdr, a.0);
    ctx.Counted();
    ctx.Decrypt(msg, a.1, a.2);
    ctx.Counted();
    assert ctx.text == old(msg[..]) && ctx.aad == hdr;
    var r, local := ctx.ComputeTag(|tag|);
    ret := if r != GOOD || tag != local then ERROR else GOOD;
  }

  /** Decryption accepts and undoes encryption, for every cipher, vector, header, message and tag length. The same
      context may serve both directions. */
  method RoundTrip(ctx: Context, ctx': Context, iv: seq<bv8>, hdr: seq<bv8>, msg: array<bv8>, tagLen: nat,
                   a: (bool, bool, bool), b: (bool, bool, bool)) returns (ret: int)
    requires ctx.Ready() && ctx'.Ready() && ctx.e == ctx'.e
    requires |hdr| < TWO32 && msg.Length + 15 < TWO32 && tagLen <= 16
    modifies ctx, ctx', msg
    ensures ret == GOOD && msg[..] == old(msg[..])
  {
    hide Crypt, Tag, StartOf, Context.Ready;
    var _, tag := EncryptMessage(ctx, iv, hdr, msg, tagLen, a);
    CryptTwice(ctx.e, StartOf(HashKeyOf(ctx.e), iv), 0, old(msg[..]));
    ret := DecryptMessage(ctx', iv, hdr, msg, tag, b);
  }
}
