/** GCM in one shot: sections 6.5 and 7 of NIST SP 800-38D for an arbitrary block cipher. */
module GcmSpec {
  import opened GfBlock
  import opened Ghash

  type Cipher = Block -> Block

  // Big-endian numbers and counters.

  function Low8(n: nat): (b: bv8)
    ensures Number8(b) == n % 256
  {
    ByteOf(n % 256)
  }

  /** The big-endian encoding of `v` in `n` bytes. */
  function Be(n: nat, v: nat): (s: seq<bv8>)
    ensures |s| == n
    decreases n, v
  {
    if n == 0 then [] else Be(n - 1, v / 256) + [Low8(v)]
  }

  function Exp256(n: nat): (r: nat)
    ensures r > 0
  {
    if n == 0 then 1 else 256 * Exp256(n - 1)
  }

  /** Different numbers that fit have different encodings. */
  lemma {:induction false} BeInjective(n: nat, v: nat, w: nat)
    requires v < Exp256(n) && w < Exp256(n) && Be(n, v) == Be(n, w)
    ensures v == w
    decreases n
  {
    hide Low8, Number8;
    if n > 0 {
      var s, t := Be(n, v), Be(n, w);
      assert Be(n - 1, v / 256) == s[..n - 1] == t[..n - 1] == Be(n - 1, w / 256);
      assert Low8(v) == s[n - 1] == t[n - 1] == Low8(w);
      BeInjective(n - 1, v / 256, w / 256);
    }
  }

  function Next8(b: bv8): bv8 {
    b + 1
  }

  /** A big-endian increment that wraps around. */
  function IncBytes(s: seq<bv8>): (r: seq<bv8>)
    ensures |r| == |s|
  {
    if |s| == 0 then []
    else
      var b := Next8(s[|s| - 1]);
      if b == 0 then IncBytes(s[..|s| - 1]) + [0] else s[..|s| - 1] + [b]
  }

  /** The 32-bit increment of a counter block. */
  function Inc(c: Block): (r: Block) {
    c[..12] + IncBytes(c[12..])
  }

  function IncN(c: Block, n: nat): Block
    decreases n, c
  {
    if n == 0 then c else Inc(IncN(c, n - 1))
  }

  lemma {:induction false} IncNKeepsIv(c: Block, n: nat)
    ensures IncN(c, n)[..12] == c[..12]
    decreases n
  {
    hide IncBytes;
    if n > 0 {
      IncNKeepsIv(c, n - 1);
    }
  }

  /** Byte `p` of the keystream: counter blocks start one after the pre-counter block. */
  function Keystream(e: Cipher, j0: Block, p: nat): bv8 {
    e(IncN(j0, p / 16 + 1))[p % 16]
  }

  /** Encryption and decryption of a whole text from keystream position `p`. */
  function Crypt(e: Cipher, j0: Block, p: nat, text: seq<bv8>): (r: seq<bv8>)
    ensures |r| == |text|
  {
    seq(|text|, i requires 0 <= i < |text| => Xor8(text[i], Keystream(e, j0, p + i)))
  }

  lemma CryptTwice(e: Cipher, j0: Block, p: nat, text: seq<bv8>)
    ensures Crypt(e, j0, p, Crypt(e, j0, p, text)) == text
  {
    hide Keystream, Xor8;
    forall i | 0 <= i < |text|
      ensures Xor8(Xor8(text[i], Keystream(e, j0, p + i)), Keystream(e, j0, p + i)) == text[i]
    {
      Xor8Laws(text[i], Keystream(e, j0, p + i), 0);
    }
  }

  /** Pieces of a text can be processed one after the other. */
  lemma CryptConcat(e: Cipher, j0: Block, p: nat, s: seq<bv8>, t: seq<bv8>)
    ensures Crypt(e, j0, p, s + t) == Crypt(e, j0, p, s) + Crypt(e, j0, p + |s|, t)
  {
    hide Keystream, Xor8;
  }

  /** The hash key. */
  function HashKeyOf(e: Cipher): Block {
    e(ZeroBlock())
  }

  /** What the pre-counter block hashes: the padded vector and its length in bits. */
  function IvInput(iv: seq<bv8>): (r: seq<bv8>)
    ensures Whole(|r|)
  {
    hide Padded, Be, BlockCount, Whole;
    WholeBlock();
    WholeSum(|Padded(iv)|, 16);
    Padded(iv) + Be(16, 8 * |iv|)
  }

  /** The pre-counter block of an initialisation vector. */
  function PreCounter(h: Block, iv: seq<bv8>): (j0: Block) {
    if |iv| == 12 then iv + [0, 0, 0, 1] else Hash(h, IvInput(iv))
  }

  function Lengths(aad: nat, text: nat): (b: Block) {
    Be(8, 8 * aad) + Be(8, 8 * text)
  }

  /** What the tag hashes: padded header, padded text, and their lengths in bits. */
  function HashInput(aad: seq<bv8>, text: seq<bv8>): (r: seq<bv8>)
    ensures Whole(|r|)
  {
    hide Padded, Lengths, BlockCount, Whole;
    var p, q := Padded(aad), Padded(text);
    WholeSum(|p|, |q|);
    WholeBlock();
    WholeSum(|p| + |q|, 16);
    p + q + Lengths(|aad|, |text|)
  }

  /** The tag of a header and a ciphertext, before truncation. */
  function Tag(e: Cipher, h: Block, j0: Block, aad: seq<bv8>, text: seq<bv8>): (t: Block) {
    XorBytes(Hash(h, HashInput(aad, text)), e(j0))
  }

  /** The hash of the tag from separately hashed header and text. */
  lemma TagHash(h: Block, aad: seq<bv8>, text: seq<bv8>)
    ensures Hash(h, HashInput(aad, text))
         == BlockMul(XorBytes(XorBytes(Raise(Hash(h, Padded(aad)), h, BlockCount(|text|)), Hash(h, Padded(text))),
                              Lengths(|aad|, |text|)), h)
  {
    hide BlockMul, XorBytes, Padded, Lengths, Raise, BlockCount, Whole;
    WholeSum(|Padded(aad)|, |Padded(text)|);
    var s, b := Padded(aad) + Padded(text), Lengths(|aad|, |text|);
    var r := HashInput(aad, text);
    assert r == s + b && r[..|r| - 16] == s && r[|r| - 16..] == b;
    HashConcat(h, Padded(aad), Padded(text));
    CountOfBlocks(BlockCount(|text|));
  }
}
