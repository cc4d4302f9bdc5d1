/** The incremental GCM context: header and text hashes, counter keystream, and the tag. */
module Gcm {
  import opened GF128
  import opened GfBlock
  import opened GfWords
  import opened GfMul
  import opened Ghash
  import opened GcmSpec

  // Words and bytes of one buffer.

  function Word(b0: bv8, b1: bv8, b2: bv8, b3: bv8): bv32 {
    (b0 as bv32) | ((b1 as bv32) << 8) | ((b2 as bv32) << 16) | ((b3 as bv32) << 24)
  }

  lemma WordLoads(b0: bv8, b1: bv8, b2: bv8, b3: bv8)
    ensures Byte0(Word(b0, b1, b2, b3)) == b0 && Byte1(Word(b0, b1, b2, b3)) == b1
    ensures Byte2(Word(b0, b1, b2, b3)) == b2 && Byte3(Word(b0, b1, b2, b3)) == b3
  {
  }

  lemma WordOf(b0: bv8, b1: bv8, b2: bv8, b3: bv8)
    ensures WordBytes(Word(b0, b1, b2, b3)) == [b0, b1, b2, b3]
  {
    hide Word, Byte0, Byte1, Byte2, Byte3;
    WordLoads(b0, b1, b2, b3);
  }

  method ToWords(s: Block) returns (w: array<bv32>)
    ensures fresh(w) && w.Length == 4 && Memory(w[..]) == s
  {
    hide Word, WordBytes;
    w := new bv32[4];
    w[0] := Word(s[0], s[1], s[2], s[3]);
    w[1] := Word(s[4], s[5], s[6], s[7]);
    w[2] := Word(s[8], s[9], s[10], s[11]);
    w[3] := Word(s[12], s[13], s[14], s[15]);
    WordOf(s[0], s[1], s[2], s[3]);
    WordOf(s[4], s[5], s[6], s[7]);
    WordOf(s[8], s[9], s[10], s[11]);
    WordOf(s[12], s[13], s[14], s[15]);
  }

  lemma ProductIs(r: Block, a: Block, b: Block)
    requires Element(r) == Mul(Element(a), Element(b))
    ensures r == BlockMul(a, b)
  {
    hide Bits, Mul, BlockMul;
    ElementMul(a, b);
    BitsInjective(r, BlockMul(a, b));
  }

  /** The slow product on byte blocks. */
  method SlowMul(a: Block, b: Block) returns (r: Block)
    ensures r == BlockMul(a, b)
  {
    hide Bits, Mul, Memory, BlockMul;
    var u := ToWords(a);
    var v := ToWords(b);
    MulTMD(u, v);
    r := Memory(u[..]);
    ProductIs(r, a, b);
  }

  /** The slow product of a buffer with itself. */
  method SlowSquare(a: Block) returns (r: Block)
    ensures r == BlockMul(a, a)
  {
    hide Bits, Mul, Memory, BlockMul;
    var u := ToWords(a);
    MulTMD(u, u);
    r := Memory(u[..]);
    ProductIs(r, a, a);
  }

  /** The hash key with its table of products. */
  class HashKey {
    const h: Block
    const table: seq<array<bv32>>

    ghost predicate Valid()
      reads table
    {
      && |table| == 256 && Blocks(table)
      && forall i :: 0 <= i < 256 ==> Filled(table[i], Element(h), i)
    }

    constructor (h0: Block)
      ensures Valid() && h == h0 && fresh(set i | 0 <= i < 256 :: table[i])
    {
      hide Bits, Memory, Entry;
      var g := ToWords(h0);
      var t := NewBlocks(256);
      Init4kTable(g, t);
      h := h0;
      table := t;
    }

    method Times(a: Block) returns (r: Block)
      requires Valid()
      ensures r == BlockMul(a, h)
    {
      hide Bits, Mul, Memory, BlockMul, Filled;
      var w := ToWords(a);
      var scr := new bv32[4];
      Mul4k(w, table, scr, Element(h));
      r := Memory(w[..]);
      ProductIs(r, a, h);
    }
  }

  // Absorbing bytes into a hash buffer.

  /** The buffer between calls: a full last block stays unmultiplied until more bytes come. */
  ghost predicate Holds(h: Block, g: Block, s: seq<bv8>) {
    if |s| == 0 then g == ZeroBlock() else Open(h, g, s, 1 + (|s| - 1) % 16)
  }

  lemma HoldsOfOpen(h: Block, g: Block, s: seq<bv8>, b: nat)
    requires Open(h, g, s, b) && b > 0
    ensures Holds(h, g, s)
  {
    hide Hash, XorBytes;
    assert b == 1 + (|s| - 1) % 16;
  }

  lemma OpenOfHolds(h: Block, g: Block, s: seq<bv8>)
    requires Holds(h, g, s)
    ensures |s| % 16 != 0 ==> Open(h, g, s, |s| % 16)
    ensures |s| % 16 == 0 && |s| > 0 ==> Open(h, g, s, 16)
    ensures |s| == 0 ==> Open(h, g, s, 0)
  {
    hide Hash, XorBytes;
    if |s| == 0 {
      OpenEmpty(h);
      assert s == [];
    }
  }

  /** Adds four bytes of data at position `b`. */
  function XorWordAt(g: Block, b: nat, w: seq<bv8>): (r: Block)
    requires b <= 12 && |w| == 4
  {
    g[..b] + XorBytes(g[b..b + 4], w) + g[b + 4..]
  }

  lemma OpenWord(h: Block, g: Block, s: seq<bv8>, b: nat, w: seq<bv8>)
    requires Open(h, g, s, b) && b <= 12 && |w| == 4
    ensures Open(h, XorWordAt(g, b, w), s + w, b + 4)
  {
    hide Open, Xor8;
    var g1 := g[b := Xor8(g[b], w[0])];
    var g2 := g1[b + 1 := Xor8(g[b + 1], w[1])];
    var g3 := g2[b + 2 := Xor8(g[b + 2], w[2])];
    var g4 := g3[b + 3 := Xor8(g[b + 3], w[3])];
    OpenByte(h, g, s, b, w[0]);
    OpenByte(h, g1, s + [w[0]], b + 1, w[1]);
    OpenByte(h, g2, s + [w[0]] + [w[1]], b + 2, w[2]);
    OpenByte(h, g3, s + [w[0]] + [w[1]] + [w[2]], b + 3, w[3]);
    assert s + [w[0]] + [w[1]] + [w[2]] + [w[3]] == s + w;
    assert XorWordAt(g, b, w) == g4;
  }

  lemma Prefix(s: seq<bv8>, data: seq<bv8>, c: nat, n: nat)
    requires c + n <= |data|
    ensures s + data[..c] + data[c..c + n] == s + data[..c + n]
    ensures n == 1 ==> data[c..c + 1] == [data[c]]
  {
  }

  /** Takes in `data` after `s`; the data and the buffer may or may not be aligned alike. */
  method Absorb(key: HashKey, g0: Block, cnt: nat, data: seq<bv8>, aligned: bool, ghost s: seq<bv8>) returns (g: Block)
    requires key.Valid() && cnt == |s| && Holds(key.h, g0, s)
    ensures Holds(key.h, g, s + data)
  {
    hide Open, Holds, Xor8, XorBytes, BlockMul, HashKey.Valid;
    ghost var h := key.h;
    g := g0;
    if |data| == 0 {
      assert s + data == s;
      return;
    }
    var b := cnt % 16;
    OpenOfHolds(h, g, s);
    if cnt != 0 && b == 0 {
      OpenFull(h, g, s);
      g := key.Times(g);
    }
    assert s + data[..0] == s;
    var c := 0;
    if aligned {
      g, c, b := AlignedStart(g, b, data, h, s);
      if c + 16 <= |data| {
        g, c := WholeBlocks(key, g, data, c, s);
      }
    } else {
      while c < |data| && b < 16
        invariant c <= |data| && b <= 16 && (c > 0 ==> b > 0) && Open(h, g, s + data[..c], b)
      {
        OpenByte(h, g, s + data[..c], b, data[c]);
        Prefix(s, data, c, 1);
        g := g[b := Xor8(g[b], data[c])];
        b, c := b + 1, c + 1;
      }
      if c + 16 <= |data| {
        g, c := WholeBlocks(key, g, data, c, s);
      }
    }
    g := Remaining(key, g, b, data, c, s);
  }

  /** Bytes up to a word boundary of the buffer, then words up to the end of its block. */
  method AlignedStart(g0: Block, b0: nat, data: seq<bv8>, ghost h: Block, ghost s: seq<bv8>)
    returns (g: Block, c: nat, b: nat)
    requires b0 < 16 && |data| > 0 && Open(h, g0, s, b0)
    ensures c <= |data| && b <= 16 && (c > 0 ==> b > 0) && Open(h, g, s + data[..c], b)
    ensures c + 16 <= |data| ==> b == 16
  {
    hide Open, Xor8;
    g, c, b := g0, 0, b0;
    assert s + data[..0] == s;
    while c < |data| && b % 4 != 0
      invariant c <= |data| && b <= 16 && (b == 16 ==> b % 4 == 0) && (c > 0 ==> b > 0) && Open(h, g, s + data[..c], b)
    {
      OpenByte(h, g, s + data[..c], b, data[c]);
      Prefix(s, data, c, 1);
      g := g[b := Xor8(g[b], data[c])];
      b, c := b + 1, c + 1;
    }
    while c + 4 <= |data| && b <= 12
      invariant c <= |data| && b <= 16 && (b % 4 == 0 || c == |data|) && (c > 0 ==> b > 0)
      invariant Open(h, g, s + data[..c], b)
    {
      OpenWord(h, g, s + data[..c], b, data[c..c + 4]);
      Prefix(s, data, c, 4);
      g := XorWordAt(g, b, data[c..c + 4]);
      b, c := b + 4, c + 4;
    }
  }

  /** Whole blocks, each after hashing the full buffer. */
  method WholeBlocks(key: HashKey, g0: Block, data: seq<bv8>, c0: nat, ghost s: seq<bv8>) returns (g: Block, c: nat)
    requires key.Valid() && c0 <= |data| && Open(key.h, g0, s + data[..c0], 16)
    ensures c0 <= c <= |data| && |data| < c + 16 && Open(key.h, g, s + data[..c], 16)
  {
    hide Open, XorBytes, BlockMul, HashKey.Valid;
    g, c := g0, c0;
    while c + 16 <= |data|
      invariant c0 <= c <= |data| && Open(key.h, g, s + data[..c], 16)
    {
      OpenFull(key.h, g, s + data[..c]);
      g := key.Times(g);
      OpenBlock(key.h, g, s + data[..c], data[c..c + 16]);
      Prefix(s, data, c, 16);
      g := XorBytes(g, data[c..c + 16]);
      c := c + 16;
    }
  }

  /** The last bytes, one at a time. */
  method Remaining(key: HashKey, g0: Block, b0: nat, data: seq<bv8>, c0: nat, ghost s: seq<bv8>) returns (g: Block)
    requires key.Valid() && c0 <= |data| && 0 < |data| && b0 <= 16 && (c0 > 0 ==> b0 > 0)
    requires Open(key.h, g0, s + data[..c0], b0)
    ensures Holds(key.h, g, s + data)
  {
    hide Open, Xor8, BlockMul, HashKey.Valid, Holds;
    var b: nat, c: nat := b0, c0;
    g := g0;
    while c < |data|
      invariant c <= |data| && b <= 16 && (c > 0 ==> b > 0) && Open(key.h, g, s + data[..c], b)
    {
      if b == 16 {
        OpenFull(key.h, g, s + data[..c]);
        g := key.Times(g);
        b := 0;
      }
      OpenByte(key.h, g, s + data[..c], b, data[c]);
      Prefix(s, data, c, 1);
      g := g[b := Xor8(g[b], data[c])];
      b, c := b + 1, c + 1;
    }
    assert data[..c] == data;
    HoldsOfOpen(key.h, g, s + data, b);
  }

  /** One product at the end gives the hash of the padded bytes. */
  lemma HoldsEnds(h: Block, g: Block, s: seq<bv8>)
    requires Holds(h, g, s)
    ensures BlockMul(g, h) == Hash(h, Padded(s))
  {
    hide Open, BlockMul, Hash;
    if |s| == 0 {
      BlockMulZero(h);
      HashEmpty(h);
      assert Padded(s) == [];
    } else {
      OpenEnds(h, g, s, 1 + (|s| - 1) % 16);
    }
  }

  // The counter keystream.

  /** `n` bytes of keystream are used; the last `b` of them come from the encrypted counter. */
  ghost predicate Keyed(e: Cipher, j0: Block, ctr: Block, enc: Block, n: nat, b: nat) {
    && b <= 16 && b <= n && (n - b) % 16 == 0
    && ctr == IncN(j0, (n - b) / 16 + if b > 0 then 1 else 0)
    && (b > 0 ==> enc == e(ctr))
  }

  lemma KeyedByte(e: Cipher, j0: Block, ctr: Block, enc: Block, n: nat, b: nat)
    requires Keyed(e, j0, ctr, enc, n, b) && 0 < b < 16
    ensures Keystream(e, j0, n) == enc[b] && Keyed(e, j0, ctr, enc, n + 1, b + 1)
  {
    hide IncN;
  }

  lemma KeyedNext(e: Cipher, j0: Block, ctr: Block, enc: Block, n: nat, b: nat)
    requires Keyed(e, j0, ctr, enc, n, b) && (b == 0 || b == 16)
    ensures var c := Inc(ctr);
            && (forall i :: 0 <= i < 16 ==> Keystream(e, j0, n + i) == e(c)[i])
            && Keyed(e, j0, c, e(c), n + 1, 1) && Keyed(e, j0, c, e(c), n + 16, 16) && Keyed(e, j0, c, e(c), n + 16, 0)
  {
    hide Inc;
    var m := n / 16;
    assert IncN(j0, m + 1) == Inc(IncN(j0, m));
    forall i | 0 <= i < 16
      ensures Keystream(e, j0, n + i) == e(Inc(ctr))[i]
    {
      assert (n + i) / 16 == m && (n + i) % 16 == i;
    }
  }

  lemma KeyedAgain(e: Cipher, j0: Block, ctr: Block, enc: Block, n: nat, b: nat)
    requires Keyed(e, j0, ctr, enc, n, b)
    ensures Keyed(e, j0, ctr, enc, n, n % 16)
  {
    hide IncN;
  }

  /** The byte-wise increment of a counter block, with early exit. */
  method IncCtr(c: Block) returns (r: Block)
    ensures r == Inc(c)
  {
    hide IncBytes;
    var tail := IncTail(c[12..]);
    r := c[..12] + tail;
  }

  method IncTail(s: seq<bv8>) returns (r: seq<bv8>)
    ensures r == IncBytes(s)
  {
    hide Next8;
    r := s;
    var i := |s|;
    assert s[..i] == s && r[i..] == [];
    while i > 0
      invariant 0 <= i <= |s| == |r| && r[..i] == s[..i] && IncBytes(s) == IncBytes(s[..i]) + r[i..]
    {
      ghost var before := r;
      assert s[..i][..i - 1] == s[..i - 1] && s[..i][i - 1] == s[i - 1];
      i := i - 1;
      r := r[i := Next8(r[i])];
      assert r[i..] == [r[i]] + before[i + 1..] && r[..i] == s[..i];
      if r[i] != 0 {
        assert r == r[..i] + r[i..];
        return;
      }
    }
    assert r == r[0..];
  }

  /** `data` up to `c` is encrypted, the rest is still as it was. */
  ghost predicate Done(data: seq<bv8>, was: seq<bv8>, e: Cipher, j0: Block, n: nat, c: nat) {
    && c <= |data| == |was| && data[..c] == Crypt(e, j0, n, was[..c]) && data[c..] == was[c..]
  }

  lemma DoneByte(data: seq<bv8>, was: seq<bv8>, e: Cipher, j0: Block, n: nat, c: nat, x: bv8)
    requires Done(data, was, e, j0, n, c) && c < |data| && x == Keystream(e, j0, n + c)
    ensures Done(data[c := Xor8(data[c], x)], was, e, j0, n, c + 1)
  {
    hide Keystream, Xor8, Crypt;
    assert was[..c + 1] == was[..c] + [was[c]];
    CryptConcat(e, j0, n, was[..c], [was[c]]);
    CryptOne(e, j0, n + c, was[c]);
    assert data[c] == was[c];
  }

  lemma CryptOne(e: Cipher, j0: Block, p: nat, b: bv8)
    ensures Crypt(e, j0, p, [b]) == [Xor8(b, Keystream(e, j0, p))]
  {
    hide Keystream, Xor8;
  }

  lemma DoneMany(data: seq<bv8>, after: seq<bv8>, was: seq<bv8>, e: Cipher, j0: Block, n: nat, c: nat, x: seq<bv8>)
    requires Done(data, was, e, j0, n, c) && c + |x| <= |data| == |after|
    requires forall i :: 0 <= i < |x| ==> x[i] == Keystream(e, j0, n + c + i)
    requires after == data[..c] + XorBytes(data[c..c + |x|], x) + data[c + |x|..]
    ensures Done(after, was, e, j0, n, c + |x|)
  {
    hide Keystream, Xor8;
    var k := |x|;
    assert data[c..c + k] == was[c..c + k] by {
      assert data[c..][..k] == was[c..][..k];
    }
    assert was[..c + k] == was[..c] + was[c..c + k];
    CryptConcat(e, j0, n, was[..c], was[c..c + k]);
    assert XorBytes(was[c..c + k], x) == Crypt(e, j0, n + c, was[c..c + k]);
    assert after[c + k..] == was[c + k..] by {
      assert data[c..][k..] == was[c..][k..];
    }
  }
}
