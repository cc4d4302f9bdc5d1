/** The incremental SHA-512 of the signature code: buffering, bit counting and padding. */
module HashStream {
  import opened GfBlock
  import opened Ghash
  import opened GcmSpec
  import opened Sha512
  import opened Words


  /** A number of bytes that is a number of hash blocks. */
  predicate Whole128(n: nat) {
    n % 128 == 0
  }

  lemma Rest128(n: nat)
    requires Whole128(n) && n > 0
    ensures n >= 128 && Whole128(n - 128)
  {
  }

  lemma Sum128(m: nat, n: nat)
    requires Whole128(m) && Whole128(n)
    ensures Whole128(m + n)
  {
  }

  lemma One128()
    ensures Whole128(0) && Whole128(128) && Whole128(256)
  {
  }

  /** The hash value after whole blocks. */
  function HashBlocks(ks: seq<bv64>, h: seq<bv64>, s: seq<bv8>): (q: seq<bv64>)
    requires |ks| == 80 && |h| == 8 && Whole128(|s|)
    ensures |q| == 8
    decreases |s|
  {
    if |s| == 0 then h
    else
      Rest128(|s|);
      Compress(ks, HashBlocks(ks, h, s[..|s| - 128]), s[|s| - 128..])
  }

  lemma OneBlock(ks: seq<bv64>, h: seq<bv64>, s: seq<bv8>, b: seq<bv8>)
    requires |ks| == 80 && |h| == 8 && Whole128(|s|) && |b| == 128
    ensures Whole128(|s + b|) && HashBlocks(ks, h, s + b) == Compress(ks, HashBlocks(ks, h, s), b)
  {
    hide Compress, Whole128;
    One128();
    Sum128(|s|, 128);
    assert (s + b)[..|s|] == s && (s + b)[|s|..] == b;
    Unfolded(ks, h, s + b);
  }

  lemma Unfolded(ks: seq<bv64>, h: seq<bv64>, s: seq<bv8>)
    requires |ks| == 80 && |h| == 8 && Whole128(|s|) && |s| >= 128 && Whole128(|s| - 128)
    ensures HashBlocks(ks, h, s) == Compress(ks, HashBlocks(ks, h, s[..|s| - 128]), s[|s| - 128..])
  {
    hide Compress, Whole128;
  }

  lemma {:induction false} HashBlocksConcat(ks: seq<bv64>, h: seq<bv64>, s: seq<bv8>, t: seq<bv8>)
    requires |ks| == 80 && |h| == 8 && Whole128(|s|) && Whole128(|t|)
    ensures Whole128(|s + t|) && HashBlocks(ks, h, s + t) == HashBlocks(ks, HashBlocks(ks, h, s), t)
    decreases |t|
  {
    hide Compress, Whole128, HashBlocks;
    Sum128(|s|, |t|);
    if |t| == 0 {
      assert s + t == s && t == [];
      NoBlocks(ks, HashBlocks(ks, h, s));
    } else {
      Rest128(|t|);
      var u, b := t[..|t| - 128], t[|t| - 128..];
      HashBlocksConcat(ks, h, s, u);
      OneBlock(ks, h, s + u, b);
      OneBlock(ks, HashBlocks(ks, h, s), u, b);
      assert t == u + b && s + t == s + u + b;
    }
  }

  lemma NoBlocks(ks: seq<bv64>, h: seq<bv64>)
    requires |ks| == 80 && |h| == 8
    ensures Whole128(0) && HashBlocks(ks, h, []) == h
  {
  }

  // Counting bits in two words.

  /** The two counter words as one number. */
  function Count(t0: nat, t1: nat): nat {
    t0 + TWO64 * t1
  }

  /** The low word holds whole blocks, so it comes round to zero exactly when it overflows. */
  ghost predicate Counts(t0: nat, t1: nat, bytes: nat) {
    t0 < TWO64 && t1 < TWO64 && t0 % 1024 == 0 && Count(t0, t1) == 8 * bytes % TWO128
  }

  lemma Tick(t0: nat, t1: nat, bytes: nat)
    requires Counts(t0, t1, bytes)
    ensures var u := (t0 + 1024) % TWO64;
            Counts(u, (t1 + if u == 0 then 1 else 0) % TWO64, bytes + 128)
  {
    var u := (t0 + 1024) % TWO64;
    var q := 8 * bytes / TWO128;
    assert 8 * bytes == TWO128 * q + Count(t0, t1);
    if u == 0 {
      assert t0 == TWO64 - 1024;
      if t1 == TWO64 - 1 {
        Residue(8 * (bytes + 128), q + 1, 0);
      } else {
        Residue(8 * (bytes + 128), q, TWO64 * (t1 + 1));
      }
    } else {
      assert u == t0 + 1024;
      Residue(8 * (bytes + 128), q, Count(u, t1));
    }
  }

  lemma Residue(x: int, q: int, r: int)
    requires 0 <= r < TWO128 && x == TWO128 * q + r
    ensures x % TWO128 == r
  {
  }

  // Padding.

  /** Zero bytes between the end mark and the length. */
  function Gap(n: nat): (z: nat) {
    if n % 128 <= 111 then 111 - n % 128 else 239 - n % 128
  }

  /** Section 5.1.2 of FIPS 180-4. */
  function Pad(s: seq<bv8>): seq<bv8> {
    s + [0x80] + Zeros(Gap(|s|)) + Be(16, 8 * |s|)
  }

  function Store64(v: bv64): (s: seq<bv8>)
    ensures |s| == 8
  {
    [((v >> 56) & 0xff) as bv8, ((v >> 48) & 0xff) as bv8, ((v >> 40) & 0xff) as bv8, ((v >> 32) & 0xff) as bv8,
     ((v >> 24) & 0xff) as bv8, ((v >> 16) & 0xff) as bv8, ((v >> 8) & 0xff) as bv8, (v & 0xff) as bv8]
  }

  function StoreAll(h: seq<bv64>): seq<bv8>
    requires |h| == 8
  {
    Store64(h[0]) + Store64(h[1]) + Store64(h[2]) + Store64(h[3]) + Store64(h[4]) + Store64(h[5]) + Store64(h[6])
    + Store64(h[7])
  }

  /** The padded message is a whole number of blocks. */
  lemma PadWhole(s: seq<bv8>)
    ensures Whole128(|Pad(s)|)
  {
    hide Be, Zeros;
    var k, r := |s| / 128, |s| % 128;
    assert |s| == 128 * k + r;
    assert |Pad(s)| == 128 * k + if r <= 111 then 128 else 256;
  }

  /** SHA-512 of a message, for the initial hash value `h0`. */
  function Digest(ks: seq<bv64>, h0: seq<bv64>, s: seq<bv8>): seq<bv8>
    requires |ks| == 80 && |h0| == 8
  {
    PadWhole(s);
    StoreAll(HashBlocks(ks, h0, Pad(s)))
  }

  // The context.

  /** `h` and the buffer stand for `data`: whole blocks are compressed, the rest is at the front of the buffer. */
  ghost predicate Holds(ks: seq<bv64>, h0: seq<bv64>, data: seq<bv8>, h: seq<bv64>, buffer: seq<bv8>, left: nat) {
    && |ks| == 80 && |h0| == 8 && |buffer| == 128 && left < 128 && left <= |data| && Whole128(|data| - left)
    && buffer[..left] == data[|data| - left..] && h == HashBlocks(ks, h0, data[..|data| - left])
  }

  class State {
    const ks: seq<bv64>
    const h0: seq<bv64>
    var h: seq<bv64>
    var t0: nat
    var t1: nat
    var leftover: nat
    var buffer: seq<bv8>
    ghost var data: seq<bv8>

    /** Everything taken in so far is `data`; the counter holds the bits compressed. */
    ghost predicate Valid()
      reads this
    {
      Holds(ks, h0, data, h, buffer, leftover) && Counts(t0, t1, |data| - leftover)
    }

    constructor Init(constants: seq<bv64>, start: seq<bv64>)
      requires |constants| == 80 && |start| == 8
      ensures Valid() && ks == constants && h0 == start && data == []
    {
      ks, h0, h := constants, start, start;
      t0, t1, leftover := 0, 0, 0;
      buffer := Zeros(128);
      data := [];
    }

    /** Compresses whole blocks and counts their bits. */
    method Blocks(input: seq<bv8>, ghost bytes: nat)
      requires |ks| == 80 && |h| == 8 && Whole128(|input|) && Counts(t0, t1, bytes)
      modifies this`h, this`t0, this`t1
      ensures h == HashBlocks(ks, old(h), input) && Counts(t0, t1, bytes + |input|)
    {
      hide HashBlocks, Compress, Counts, Whole128;
      ghost var start := h;
      var r := new bv64[8](i requires 0 <= i < 8 reads this requires |h| == 8 => h[i]);
      var c := 0;
      One128();
      NoBlocks(ks, h);
      assert input[..0] == [] && r[..] == h;
      while c < |input|
        invariant 0 <= c <= |input| && Whole128(c) && |h| == 8 && r[..] == h
        invariant h == HashBlocks(ks, start, input[..c]) && Counts(t0, t1, bytes + c)
      {
        Left128(|input|, c);
        OneBlock(ks, start, input[..c], input[c..c + 128]);
        assert input[..c] + input[c..c + 128] == input[..c + 128];
        Tick(t0, t1, bytes + c);
        h := CompressInPlace(ks, h, r, input[c..c + 128]);
        t0 := (t0 + 1024) % TWO64;
        t1 := (t1 + if t0 == 0 then 1 else 0) % TWO64;
        c := c + 128;
      }
      assert input[..c] == input;
    }

    /** Takes in more bytes. */
    method Update(input0: seq<bv8>)
      requires Valid()
      modifies this
      ensures Valid() && data == old(data) + input0
    {
      hide HashBlocks, Counts, Whole128, Holds, Clean;
      var input := input0;
      HoldsBounds(ks, h0, data, h, buffer, leftover);
      if leftover != 0 {
        var want := if 128 - leftover < |input| then 128 - leftover else |input|;
        ghost var was, n := buffer, leftover;
        buffer := buffer[..leftover] + input[..want] + buffer[leftover + want..];
        leftover := leftover + want;
        if leftover < 128 {
          assert input[..want] == input;
          HoldsMore(ks, h0, data, h, was, n, input, buffer);
          data := data + input;
          return;
        }
        input := input[want..];
        ghost var h1 := h;
        CleanFull(ks, h0, data, h1, was, n, input0[..want], buffer);
        Blocks(buffer, |data| - n);
        data := data + input0[..want];
        assert data + input == old(data) + input0;
      } else {
        CleanOfHolds(ks, h0, data, h, buffer);
      }
      TakeRest(input);
    }

    /** Whole blocks straight from the input, and the rest into the buffer. */
    method TakeRest(input: seq<bv8>)
      requires Clean(ks, h0, data, h) && |buffer| == 128 && Counts(t0, t1, |data|)
      modifies this
      ensures Valid() && data == old(data) + input
    {
      hide HashBlocks, Counts, Whole128, Holds, Clean;
      var blocks := |input| - |input| % 128;
      Blocks128(|input|, blocks);
      CleanBlocks(ks, h0, data, h, input[..blocks]);
      leftover := |input| - blocks;
      if blocks != 0 {
        Blocks(input[..blocks], |data|);
      } else {
        NoBlocks(ks, h);
        assert input[..blocks] == [];
      }
      if leftover != 0 {
        buffer := input[blocks..] + buffer[leftover..];
      }
      data := data + input[..blocks];
      HoldsOfClean(ks, h0, data, h, input[blocks..], buffer);
      assert data + input[blocks..] == old(data) + input;
      data := data + input[blocks..];
    }

    /** Pads and returns the digest; the context is used up. */
    method Final() returns (hash: seq<bv8>)
      requires Valid() && 8 * |data| < TWO128
      modifies this
      ensures hash == Digest(ks, h0, old(data))
    {
      hide HashBlocks, Counts, Whole128, Holds, Be, Digest, Store64, Zeros, StoreAll;
      HoldsBounds(ks, h0, data, h, buffer, leftover);
      LengthWords(t0, t1, data, leftover);
      var u0, u1 := t0 + leftover * 8, t1;
      ghost var lens := Be(16, 8 * |data|);
      ghost var n := |data| - leftover;
      ghost var tail, h1 := data[n..], h;
      One128();
      HoldsTail(ks, h0, data, h, buffer, leftover);
      buffer := buffer[leftover := 0x80];
      Marked(old(buffer), buffer, leftover, tail);
      if leftover <= 111 {
        PadShort(ks, h0, data, h1, old(buffer), leftover);
        buffer := buffer[..leftover + 1] + Zeros(111 - leftover) + buffer[112..];
      } else {
        PadLong(ks, h0, data, h1, old(buffer), leftover);
        buffer := buffer[..leftover + 1] + Zeros(127 - leftover);
        Blocks(buffer, n);
        n := n + 128;
        buffer := Zeros(112) + buffer[112..];
      }
      ghost var padded := buffer;
      buffer := buffer[..112] + Be(8, u1) + buffer[120..];
      buffer := buffer[..120] + Be(8, u0);
      WithLengths(padded, Be(8, u1), Be(8, u0), buffer);
      assert buffer == padded[..112] + lens;
      Blocks(buffer, n);
      hash := StoreAll(h);
    }
  }

  /** Nothing is buffered. */
  ghost predicate Clean(ks: seq<bv64>, h0: seq<bv64>, data: seq<bv8>, h: seq<bv64>) {
    |ks| == 80 && |h0| == 8 && Whole128(|data|) && h == HashBlocks(ks, h0, data)
  }

  lemma HoldsBounds(ks: seq<bv64>, h0: seq<bv64>, data: seq<bv8>, h: seq<bv64>, buffer: seq<bv8>, left: nat)
    requires Holds(ks, h0, data, h, buffer, left)
    ensures |ks| == 80 && |h0| == 8 && |h| == 8 && |buffer| == 128 && left < 128 && left <= |data|
  {
  }

  lemma Left128(n: nat, c: nat)
    requires Whole128(n) && Whole128(c) && c < n
    ensures c + 128 <= n && Whole128(c + 128)
  {
  }

  lemma Blocks128(n: nat, b: nat)
    requires b == n - n % 128
    ensures Whole128(b) && b <= n < b + 128
  {
  }

  lemma CleanOfHolds(ks: seq<bv64>, h0: seq<bv64>, data: seq<bv8>, h: seq<bv64>, buffer: seq<bv8>)
    requires Holds(ks, h0, data, h, buffer, 0)
    ensures Clean(ks, h0, data, h)
  {
    hide HashBlocks, Whole128;
    assert data[..|data| - 0] == data;
  }

  /** Bytes that do not complete the buffered block. */
  lemma HoldsMore(ks: seq<bv64>, h0: seq<bv64>, data: seq<bv8>, h: seq<bv64>, was: seq<bv8>, n: nat, x: seq<bv8>,
                  now: seq<bv8>)
    requires Holds(ks, h0, data, h, was, n) && n + |x| < 128 && now == was[..n] + x + was[n + |x|..]
    ensures Holds(ks, h0, data + x, h, now, n + |x|)
  {
    hide HashBlocks, Whole128;
    var all := data + x;
    assert all[..|all| - (n + |x|)] == data[..|data| - n];
    assert now[..n + |x|] == was[..n] + x == all[|all| - (n + |x|)..];
  }

  /** Bytes that complete the buffered block. */
  lemma CleanFull(ks: seq<bv64>, h0: seq<bv64>, data: seq<bv8>, h: seq<bv64>, was: seq<bv8>, n: nat, x: seq<bv8>,
                  now: seq<bv8>)
    requires Holds(ks, h0, data, h, was, n) && n + |x| == 128 && now == was[..n] + x + was[128..]
    ensures Whole128(|now|) && |h| == 8 && Clean(ks, h0, data + x, HashBlocks(ks, h, now))
  {
    hide HashBlocks, Whole128;
    One128();
    var whole := data[..|data| - n];
    assert was[128..] == [];
    HashBlocksConcat(ks, h0, whole, now);
    assert whole + now == data + x;
  }

  lemma CleanBlocks(ks: seq<bv64>, h0: seq<bv64>, data: seq<bv8>, h: seq<bv64>, x: seq<bv8>)
    requires Clean(ks, h0, data, h) && Whole128(|x|)
    ensures |ks| == 80 && |h| == 8 && Clean(ks, h0, data + x, HashBlocks(ks, h, x))
  {
    hide HashBlocks, Whole128;
    HashBlocksConcat(ks, h0, data, x);
  }

  lemma HoldsOfClean(ks: seq<bv64>, h0: seq<bv64>, data: seq<bv8>, h: seq<bv64>, x: seq<bv8>, buffer: seq<bv8>)
    requires Clean(ks, h0, data, h) && |x| < 128 && |buffer| == 128 && buffer[..|x|] == x
    ensures Holds(ks, h0, data + x, h, buffer, |x|)
  {
    hide HashBlocks, Whole128;
    var all := data + x;
    assert all[..|all| - |x|] == data && all[|all| - |x|..] == x;
  }

  lemma Marked(was: seq<bv8>, now: seq<bv8>, left: nat, tail: seq<bv8>)
    requires |was| == 128 && left < 128 && now == was[left := 0x80] && was[..left] == tail
    ensures now[..left + 1] == tail + [0x80]
  {
  }

  lemma WithLengths(p: seq<bv8>, a: seq<bv8>, b: seq<bv8>, q: seq<bv8>)
    requires |p| == 128 && |a| == |b| == 8 && q == (p[..112] + a + p[120..])[..120] + b
    ensures q == p[..112] + (a + b)
  {
  }

  lemma HoldsTail(ks: seq<bv64>, h0: seq<bv64>, data: seq<bv8>, h: seq<bv64>, buffer: seq<bv8>, left: nat)
    requires Holds(ks, h0, data, h, buffer, left)
    ensures buffer[..left] == data[|data| - left..]
  {
  }

  lemma {:induction false} BeSplits(m: nat, k: nat, hi: nat, lo: nat)
    requires lo < Exp256(k)
    ensures Be(m + k, hi * Exp256(k) + lo) == Be(m, hi) + Be(k, lo)
    decreases k
  {
    hide Low8;
    if k == 0 {
      assert hi * 1 + 0 == hi;
    } else {
      var v, p := hi * Exp256(k) + lo, hi * Exp256(k - 1);
      Scaled(hi, Exp256(k - 1), lo, v);
      BeSplits(m, k - 1, hi, lo / 256);
      SameLow(v, lo, p);
      assert Be(m + k, v) == Be(m + k - 1, v / 256) + [Low8(v)];
    }
  }

  lemma Scaled(hi: nat, e: nat, lo: nat, v: nat)
    requires v == hi * (256 * e) + lo
    ensures v == 256 * (hi * e) + lo && v / 256 == hi * e + lo / 256
  {
    assert hi * (256 * e) == 256 * (hi * e);
  }

  lemma SameLow(v: nat, lo: nat, p: nat)
    requires v == 256 * p + lo
    ensures Low8(v) == Low8(lo)
  {
    hide ByteOf;
    assert v % 256 == lo % 256;
  }

  lemma WordExp(n: nat)
    requires n == 8
    ensures Exp256(n) == TWO64
  {
    assert Exp256(n) == 256 * Exp256(n - 1) == 65536 * Exp256(n - 2);
    assert Exp256(n - 2) == 256 * Exp256(n - 3) == 65536 * Exp256(n - 4);
    assert Exp256(n - 4) == 256 * Exp256(n - 5) == 65536 * Exp256(n - 6);
    assert Exp256(n - 6) == 256 * Exp256(n - 7) == 65536 * Exp256(n - 8);
  }

  /** The two counter words, with the buffered bits added to the low one, are the length of the message in bits. */
  lemma LengthWords(t0: nat, t1: nat, data: seq<bv8>, left: nat)
    requires left < 128 && left <= |data| && Counts(t0, t1, |data| - left) && 8 * |data| < TWO128
    ensures t0 + 8 * left < TWO64 && Be(8, t1) + Be(8, t0 + left * 8) == Be(16, 8 * |data|)
  {
    hide Be;
    var u := t0 + 8 * left;
    assert u < TWO64;
    var k: nat := 8;
    WordExp(k);
    BeSplits(8, k, t1, u);
    Residue(8 * (|data| - left), 0, 8 * (|data| - left));
  }

  lemma GapIs(n: nat, left: nat)
    requires left < 128 && left <= n && Whole128(n - left)
    ensures Gap(n) == if left <= 111 then 111 - left else 239 - left
  {
    assert n == 128 * ((n - left) / 128) + left;
  }

  /** The mark and the length fit the last block. */
  lemma PadShort(ks: seq<bv64>, h0: seq<bv64>, data: seq<bv8>, h: seq<bv64>, buffer: seq<bv8>, left: nat)
    requires Holds(ks, h0, data, h, buffer, left) && left <= 111
    ensures var b := data[|data| - left..] + [0x80] + Zeros(111 - left) + Be(16, 8 * |data|);
            && |ks| == 80 && |h| == 8 && |h0| == 8 && |b| == 128 && Whole128(128)
            && Digest(ks, h0, data) == StoreAll(HashBlocks(ks, h, b))
  {
    hide HashBlocks, Whole128, Be, StoreAll, Gap, Zeros;
    One128();
    GapIs(|data|, left);
    var n := |data| - left;
    var b := data[n..] + [0x80] + Zeros(111 - left) + Be(16, 8 * |data|);
    assert data[..n] + b == Pad(data);
    HashBlocksConcat(ks, h0, data[..n], b);
  }

  /** The mark and the length need a block more. */
  lemma PadLong(ks: seq<bv64>, h0: seq<bv64>, data: seq<bv8>, h: seq<bv64>, buffer: seq<bv8>, left: nat)
    requires Holds(ks, h0, data, h, buffer, left) && left > 111
    ensures var b := data[|data| - left..] + [0x80] + Zeros(127 - left);
            var c := Zeros(112) + Be(16, 8 * |data|);
            && |ks| == 80 && |h| == 8 && |h0| == 8 && |b| == 128 && |c| == 128 && Whole128(128)
            && Digest(ks, h0, data) == StoreAll(HashBlocks(ks, HashBlocks(ks, h, b), c))
  {
    hide HashBlocks, Whole128, Be, StoreAll, Gap;
    One128();
    GapIs(|data|, left);
    var n := |data| - left;
    var b, c := data[n..] + [0x80] + Zeros(127 - left), Zeros(112) + Be(16, 8 * |data|);
    assert Zeros(127 - left) + Zeros(112) == Zeros(239 - left);
    assert data[..n] + (b + c) == Pad(data);
    HashBlocksConcat(ks, h, b, c);
    HashBlocksConcat(ks, h0, data[..n], b + c);
  }

  /** The one-call form. */
  method Hash(ks: seq<bv64>, h0: seq<bv64>, input: seq<bv8>) returns (hash: seq<bv8>)
    requires |ks| == 80 && |h0| == 8 && 8 * |input| < TWO128
    ensures hash == Digest(ks, h0, input)
  {
    hide Digest, Holds, Counts;
    var ctx := new State.Init(ks, h0);
    ctx.Update(input);
    assert [] + input == input;
    hash := ctx.Final();
  }

  /** Any sequence of updates gives the digest of the bytes laid end to end. */
  method HashChunks(ks: seq<bv64>, h0: seq<bv64>, chunks: seq<seq<bv8>>) returns (hash: seq<bv8>)
    requires |ks| == 80 && |h0| == 8 && 8 * |Flatten(chunks)| < TWO128
    ensures hash == Digest(ks, h0, Flatten(chunks))
  {
    hide Digest, Holds, Counts;
    var ctx := new State.Init(ks, h0);
    var i := 0;
    while i < |chunks|
      invariant 0 <= i <= |chunks| && fresh(ctx) && ctx.Valid() && ctx.ks == ks && ctx.h0 == h0
      invariant ctx.data == Flatten(chunks[..i])
    {
      ctx.Update(chunks[i]);
      assert chunks[..i + 1][..i] == chunks[..i];
      i := i + 1;
    }
    assert chunks[..i] == chunks;
    hash := ctx.Final();
  }
}
