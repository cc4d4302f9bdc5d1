/** GHASH of section 6.4 of NIST SP 800-38D, and how a header hash moves past the text that follows it. */
module Ghash {
  import opened GfBlock

  function Zeros(n: nat): (s: seq<bv8>)
    ensures |s| == n
  {
    seq(n, i => 0)
  }

  /** Pieces laid end to end. */
  function Flatten(chunks: seq<seq<bv8>>): seq<bv8> {
    if |chunks| == 0 then [] else Flatten(chunks[..|chunks| - 1]) + chunks[|chunks| - 1]
  }

  lemma XorLaws(a: Block, b: Block, c: Block)
    ensures XorBytes(a, b) == XorBytes(b, a) && XorBytes(XorBytes(a, b), c) == XorBytes(a, XorBytes(b, c))
    ensures XorBytes(a, ZeroBlock()) == a == XorBytes(ZeroBlock(), a)
  {
    hide Xor8;
    forall i | 0 <= i < 16
      ensures Xor8(a[i], b[i]) == Xor8(b[i], a[i]) && Xor8(Xor8(a[i], b[i]), c[i]) == Xor8(a[i], Xor8(b[i], c[i]))
      ensures Xor8(a[i], 0) == a[i] == Xor8(0, a[i])
    {
      Xor8Laws(a[i], b[i], c[i]);
    }
  }

  /** A number of bytes that is a number of blocks. */
  predicate Whole(n: nat) {
    n % 16 == 0
  }

  lemma WholeSum(m: nat, n: nat)
    requires Whole(m) && Whole(n)
    ensures Whole(m + n)
  {
  }

  lemma WholeBlock()
    ensures Whole(16)
  {
  }

  lemma WholeRest(n: nat)
    requires Whole(n) && n > 0
    ensures n >= 16 && Whole(n - 16)
  {
  }

  /** The hash of whole blocks: each block is added and the sum multiplied by `h`. */
  function Hash(h: Block, s: seq<bv8>): (y: Block)
    requires Whole(|s|)
  {
    if |s| == 0 then ZeroBlock()
    else
      WholeRest(|s|);
      BlockMul(XorBytes(Hash(h, s[..|s| - 16]), s[|s| - 16..]), h)
  }

  /** The blocks that hold `n` bytes. */
  function BlockCount(n: nat): (k: nat)
    ensures n <= 16 * k < n + 16
  {
    (n + 15) / 16
  }

  /** Zero bytes up to a block boundary. */
  function Padded(s: seq<bv8>): (r: seq<bv8>)
    ensures |r| == 16 * BlockCount(|s|) && Whole(|r|) && r[..|s|] == s
  {
    s + Zeros(16 * BlockCount(|s|) - |s|)
  }

  /** `x` multiplied `n` times by `t`. */
  function Raise(x: Block, t: Block, n: nat): Block
    decreases n, x
  {
    if n == 0 then x else BlockMul(Raise(x, t, n - 1), t)
  }

  lemma {:induction false} RaiseAdds(x: Block, y: Block, t: Block, n: nat)
    ensures Raise(XorBytes(x, y), t, n) == XorBytes(Raise(x, t, n), Raise(y, t, n))
    decreases n
  {
    hide BlockMul, XorBytes;
    if n > 0 {
      RaiseAdds(x, y, t, n - 1);
      BlockMulDistributes(Raise(x, t, n - 1), Raise(y, t, n - 1), t);
    }
  }

  lemma {:induction false} RaiseInside(x: Block, t: Block, n: nat)
    ensures Raise(BlockMul(x, t), t, n) == BlockMul(Raise(x, t, n), t)
    decreases n
  {
    hide BlockMul;
    if n > 0 {
      RaiseInside(x, t, n - 1);
    }
  }

  /** Squaring the factor halves the number of products. */
  lemma {:induction false} RaiseSquared(x: Block, t: Block, m: nat)
    ensures Raise(x, t, 2 * m) == Raise(x, BlockMul(t, t), m)
    decreases m
  {
    hide BlockMul;
    if m > 0 {
      RaiseSquared(x, t, m - 1);
      var y := Raise(x, t, 2 * (m - 1));
      assert Raise(x, t, 2 * m) == BlockMul(Raise(x, t, 2 * m - 1), t);
      assert Raise(x, t, 2 * m - 1) == BlockMul(y, t);
      BlockMulAssociates(y, t, t);
    }
  }

  lemma CountRest(n: nat)
    requires Whole(n) && n > 0
    ensures n >= 16 && Whole(n - 16) && BlockCount(n) > 0 && BlockCount(n - 16) == BlockCount(n) - 1
  {
  }

  lemma CountOfBlocks(k: nat)
    ensures BlockCount(16 * k) == k
  {
  }

  lemma LastOfConcat(s: seq<bv8>, t: seq<bv8>)
    requires |t| >= 16
    ensures (s + t)[..|s + t| - 16] == s + t[..|t| - 16] && (s + t)[|s + t| - 16..] == t[|t| - 16..]
  {
  }

  lemma HashStep(h: Block, s: seq<bv8>)
    requires Whole(|s|) && |s| >= 16 && Whole(|s| - 16)
    ensures Hash(h, s) == BlockMul(XorBytes(Hash(h, s[..|s| - 16]), s[|s| - 16..]), h)
  {
    hide BlockMul, XorBytes, Whole;
  }

  /** Hashing on after a prefix multiplies the prefix's hash once per block. */
  lemma {:induction false} HashConcat(h: Block, s: seq<bv8>, t: seq<bv8>)
    requires Whole(|s|) && Whole(|t|) && Whole(|s + t|)
    ensures Hash(h, s + t) == XorBytes(Raise(Hash(h, s), h, BlockCount(|t|)), Hash(h, t))
    decreases |t|
  {
    hide BlockMul, XorBytes, Whole, Hash, BlockCount;
    if |t| == 0 {
      assert s + t == s && t == [];
      HashEmpty(h);
      XorLaws(Hash(h, s), ZeroBlock(), ZeroBlock());
      CountOfBlocks(0);
    } else {
      CountRest(|t|);
      CountRest(|s + t|);
      var n := BlockCount(|t|) - 1;
      var u, b := t[..|t| - 16], t[|t| - 16..];
      LastOfConcat(s, t);
      WholeSum(|s|, |u|);
      HashConcat(h, s, u);
      HashStep(h, s + t);
      HashStep(h, t);
      var p, q := Raise(Hash(h, s), h, n), Hash(h, u);
      XorLaws(p, q, b);
      BlockMulDistributes(p, XorBytes(q, b), h);
    }
  }

  // Absorbing bytes one buffer at a time.

  /** The buffer `g` has taken in `s`: the blocks before the last `b` bytes are hashed, the last `b` are only added. */
  ghost predicate Open(h: Block, g: Block, s: seq<bv8>, b: nat) {
    b <= 16 && b <= |s| && Whole(|s| - b)
    && g == XorBytes(Hash(h, s[..|s| - b]), s[|s| - b..] + Zeros(16 - b))
  }

  lemma OpenByte(h: Block, g: Block, s: seq<bv8>, b: nat, x: bv8)
    requires Open(h, g, s, b) && b < 16
    ensures Open(h, g[b := Xor8(g[b], x)], s + [x], b + 1)
  {
    hide Hash, Xor8;
    var n := |s| - b;
    var t := s + [x];
    assert t[..n] == s[..n];
    var u, v := s[n..] + Zeros(16 - b), t[n..] + Zeros(15 - b);
    assert v == u[b := x];
    var y := Hash(h, s[..n]);
    Xor8Laws(y[b], x, 0);
  }

  lemma OpenEmpty(h: Block)
    ensures Open(h, ZeroBlock(), [], 0)
  {
    hide Hash, XorBytes;
    HashEmpty(h);
    var s: seq<bv8> := [];
    assert s[..0] == s && s[0..] + Zeros(16) == ZeroBlock();
    XorLaws(ZeroBlock(), ZeroBlock(), ZeroBlock());
  }

  lemma HashEmpty(h: Block)
    ensures Hash(h, []) == ZeroBlock()
  {
  }

  /** A full buffer is hashed by one product. */
  lemma OpenFull(h: Block, g: Block, s: seq<bv8>)
    requires Open(h, g, s, 16)
    ensures Whole(|s|) && BlockMul(g, h) == Hash(h, s) && Open(h, BlockMul(g, h), s, 0)
  {
    hide BlockMul, XorBytes;
    assert s[|s| - 16..] + Zeros(0) == s[|s| - 16..];
    assert s[..|s|] == s && s[|s|..] + Zeros(16) == ZeroBlock();
    XorLaws(Hash(h, s), ZeroBlock(), ZeroBlock());
  }

  /** A whole block taken in at once. */
  lemma OpenBlock(h: Block, g: Block, s: seq<bv8>, x: Block)
    requires Open(h, g, s, 0)
    ensures Open(h, XorBytes(g, x), s + x, 16)
  {
    hide Hash, XorBytes;
    var t := s + x;
    assert t[..|t| - 16] == s == s[..|s| - 0] && t[|t| - 16..] + Zeros(0) == x;
    assert s[|s| - 0..] + Zeros(16) == ZeroBlock();
    XorLaws(Hash(h, s), ZeroBlock(), ZeroBlock());
  }

  lemma PadLength(n: nat, b: nat)
    requires 0 < b <= 16 && b <= n && Whole(n - b)
    ensures 16 * BlockCount(n) == n + (16 - b)
  {
    var k := (n - b) / 16;
    assert n - b == 16 * k;
  }

  /** At the end one product hashes the zero-padded bytes. */
  lemma OpenEnds(h: Block, g: Block, s: seq<bv8>, b: nat)
    requires Open(h, g, s, b) && b > 0
    ensures BlockMul(g, h) == Hash(h, Padded(s))
  {
    hide BlockMul, XorBytes, BlockCount;
    var p := Padded(s);
    PadLength(|s|, b);
    assert p[..|p| - 16] == s[..|s| - b] && p[|p| - 16..] == s[|s| - b..] + Zeros(16 - b);
  }
}
