/** The compression function of SHA-512, section 6.4 of FIPS 180-4, and the loops that compute it in place. */
module Sha512 {
  function Add(x: bv64, y: bv64): bv64 {
    x + y
  }

  function Rotr(x: bv64, k: bv7, l: bv7): bv64
    requires k <= 64 && k + l == 64
  {
    (x >> k) | (x << l)
  }

  function Shr(x: bv64, k: bv7): bv64
    requires k <= 64
  {
    x >> k
  }

  function Xor64(x: bv64, y: bv64): bv64 {
    x ^ y
  }

  function Xor3(x: bv64, y: bv64, z: bv64): bv64 {
    Xor64(Xor64(x, y), z)
  }

  function BigSigma0(x: bv64): bv64 {
    Xor3(Rotr(x, 28, 36), Rotr(x, 34, 30), Rotr(x, 39, 25))
  }

  function BigSigma1(x: bv64): bv64 {
    Xor3(Rotr(x, 14, 50), Rotr(x, 18, 46), Rotr(x, 41, 23))
  }

  function Sigma0(x: bv64): bv64 {
    Xor3(Rotr(x, 1, 63), Rotr(x, 8, 56), Shr(x, 7))
  }

  function Sigma1(x: bv64): bv64 {
    Xor3(Rotr(x, 19, 45), Rotr(x, 61, 3), Shr(x, 6))
  }

  /** Section 4.1.3: choice and majority. */
  function Ch(x: bv64, y: bv64, z: bv64): bv64 {
    (x & y) ^ (!x & z)
  }

  function Maj(x: bv64, y: bv64, z: bv64): bv64 {
    (x & y) ^ (x & z) ^ (y & z)
  }

  /** The forms the code uses. */
  function ChFast(x: bv64, y: bv64, z: bv64): bv64 {
    z ^ (x & (y ^ z))
  }

  function MajFast(x: bv64, y: bv64, z: bv64): bv64 {
    ((x | y) & z) | (x & y)
  }

  lemma FastForms(x: bv64, y: bv64, z: bv64)
    ensures ChFast(x, y, z) == Ch(x, y, z) && MajFast(x, y, z) == Maj(x, y, z)
  {
    Choice(x, y, z);
    Majority(x, y, z);
  }

  lemma Choice(x: bv64, y: bv64, z: bv64)
    ensures z ^ (x & (y ^ z)) == (x & y) ^ (!x & z)
  {
  }

  lemma Majority(x: bv64, y: bv64, z: bv64)
    ensures ((x | y) & z) | (x & y) == (x & y) ^ (x & z) ^ (y & z)
  {
  }

  /** A big-endian load. */
  function Load64(p: seq<bv8>): bv64
    requires |p| == 8
  {
    ((p[0] as bv64) << 56) | ((p[1] as bv64) << 48) | ((p[2] as bv64) << 40) | ((p[3] as bv64) << 32)
    | ((p[4] as bv64) << 24) | ((p[5] as bv64) << 16) | ((p[6] as bv64) << 8) | (p[7] as bv64)
  }

  // The standard, as functions.

  /** Word `t` of the message schedule. */
  function W(block: seq<bv8>, t: nat): bv64
    requires |block| == 128 && t < 80
    decreases t
  {
    if t < 16 then Load64(block[8 * t..8 * t + 8])
    else Add(Add(Add(Sigma1(W(block, t - 2)), W(block, t - 7)), Sigma0(W(block, t - 15))), W(block, t - 16))
  }

  /** One round on the eight working variables. */
  function Round(r: seq<bv64>, k: bv64, w: bv64): (q: seq<bv64>)
    requires |r| == 8
    ensures |q| == 8
  {
    var t1 := Add(Add(Add(Add(r[7], BigSigma1(r[4])), Ch(r[4], r[5], r[6])), k), w);
    var t2 := Add(BigSigma0(r[0]), Maj(r[0], r[1], r[2]));
    [Add(t1, t2), r[0], r[1], r[2], Add(r[3], t1), r[4], r[5], r[6]]
  }

  function Rounds(ks: seq<bv64>, h: seq<bv64>, block: seq<bv8>, t: nat): (q: seq<bv64>)
    requires |ks| == 80 && |h| == 8 && |block| == 128 && t <= 80
    ensures |q| == 8
    decreases t
  {
    if t == 0 then h else Round(Rounds(ks, h, block, t - 1), ks[t - 1], W(block, t - 1))
  }

  function Sum(r: seq<bv64>, h: seq<bv64>): (q: seq<bv64>)
    requires |r| == |h| == 8
    ensures |q| == 8
  {
    seq(8, i requires 0 <= i < 8 => Add(r[i], h[i]))
  }

  /** The hash value after one more block. */
  function Compress(ks: seq<bv64>, h: seq<bv64>, block: seq<bv8>): (q: seq<bv64>)
    requires |ks| == 80 && |h| == 8 && |block| == 128
    ensures |q| == 8
  {
    Sum(Rounds(ks, h, block, 80), h)
  }

  // The loops.

  method Schedule(block: seq<bv8>, w: array<bv64>)
    requires |block| == 128 && w.Length == 80
    modifies w
    ensures forall t :: 0 <= t < 80 ==> w[t] == W(block, t)
  {
    hide Load64, Sigma0, Sigma1, Add;
    var i := 0;
    while i < 16
      invariant 0 <= i <= 16 && forall t :: 0 <= t < i ==> w[t] == W(block, t)
    {
      w[i] := Load64(block[8 * i..8 * i + 8]);
      i := i + 1;
    }
    while i < 80
      invariant 16 <= i <= 80 && forall t :: 0 <= t < i ==> w[t] == W(block, t)
    {
      w[i] := Add(Add(Add(Sigma1(w[i - 2]), w[i - 7]), Sigma0(w[i - 15])), w[i - 16]);
      i := i + 1;
    }
  }

  /** One step in place: the registers move up one after the other. */
  method StepInPlace(r: array<bv64>, k: bv64, wi: bv64)
    requires r.Length == 8
    modifies r
    ensures r[..] == Round(old(r[..]), k, wi)
  {
    hide Add, BigSigma0, BigSigma1, Ch, Maj, ChFast, MajFast;
    ghost var o := r[..];
    FastForms(r[0], r[1], r[2]);
    FastForms(r[4], r[5], r[6]);
    var t1 := Add(BigSigma0(r[0]), MajFast(r[0], r[1], r[2]));
    var t0 := Add(Add(Add(Add(r[7], BigSigma1(r[4])), ChFast(r[4], r[5], r[6])), k), wi);
    MoveUp(r, t0);
    r[0] := Add(t0, t1);
    assert r[..] == [Add(t0, t1), o[0], o[1], o[2], Add(o[3], t0), o[4], o[5], o[6]];
  }

  method MoveUp(r: array<bv64>, t0: bv64)
    requires r.Length == 8
    modifies r
    ensures r[7] == old(r[6]) && r[6] == old(r[5]) && r[5] == old(r[4]) && r[4] == Add(old(r[3]), t0)
    ensures r[3] == old(r[2]) && r[2] == old(r[1]) && r[1] == old(r[0])
  {
    hide Add;
    r[7] := r[6];
    r[6] := r[5];
    r[5] := r[4];
    r[4] := Add(r[3], t0);
    r[3] := r[2];
    r[2] := r[1];
    r[1] := r[0];
  }

  /** Adds the hash value to the registers. */
  method AddInto(r: array<bv64>, h: seq<bv64>)
    requires r.Length == 8 && |h| == 8
    modifies r
    ensures r[..] == Sum(old(r[..]), h)
  {
    hide Add;
    var i := 0;
    while i < 8
      invariant 0 <= i <= 8
      invariant forall j :: 0 <= j < i ==> r[j] == Add(old(r[j]), h[j])
      invariant forall j :: i <= j < 8 ==> r[j] == old(r[j])
    {
      r[i] := Add(r[i], h[i]);
      i := i + 1;
    }
  }

  method CompressInPlace(ks: seq<bv64>, h: seq<bv64>, r: array<bv64>, block: seq<bv8>) returns (q: seq<bv64>)
    requires |ks| == 80 && |h| == 8 && |block| == 128 && r.Length == 8 && r[..] == h
    modifies r
    ensures q == Compress(ks, h, block) && r[..] == q
  {
    hide W, Round, Add, Sum;
    var w := new bv64[80];
    Schedule(block, w);
    var i := 0;
    while i < 80
      invariant 0 <= i <= 80 && r[..] == Rounds(ks, h, block, i)
      invariant forall t :: 0 <= t < 80 ==> w[t] == W(block, t)
    {
      StepInPlace(r, ks[i], w[i]);
      i := i + 1;
    }
    AddInto(r, h);
    q := r[..];
  }
}
