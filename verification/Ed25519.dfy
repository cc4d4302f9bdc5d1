/** Ed25519 key generation, signing and verification, over any group with a base point of order `M`,
    any 64-byte hash and any point packing that verification can undo. */
module Ed25519 {
  import opened Arith
  import opened Words
  import opened Bytes
  import opened Group
  import opened Modm
  import opened ModmCodec
  import opened ScalarMult

  datatype Option<+T> = None | Some(value: T)

  datatype Suite<!T> = Suite(
    g: Group<T>, base: T, baseTable: seq<T>, slideTable: seq<T>,
    hash: seq<uint8> -> seq<uint8>, pack: T -> seq<uint8>, unpackNegative: seq<uint8> -> Option<T>)

  /** Digests are 64 bytes and packed points are 32. */
  ghost predicate Sized<T(!new)>(c: Suite<T>) {
    (forall m :: |c.hash(m)| == 64) && (forall p :: |c.pack(p)| == 32)
  }

  /** The base point has order `M`, the tables hold its multiples, and unpacking negates what was packed. */
  ghost predicate Sound<T(!new)>(c: Suite<T>) {
    && Abelian(c.g) && Mul(c.g, M, c.base) == c.g.zero
    && BaseTable(c.g, c.baseTable, c.base)
    && |c.slideTable| == 32 && OddMultiples(c.g, c.slideTable, c.base)
    && (forall n :: c.unpackNegative(c.pack(Mul(c.g, n, c.base))) == Some(c.g.neg(Mul(c.g, n, c.base))))
  }

  /** The secret's hash with three low bits cleared, the top bit cleared and the next bit set. */
  function ExtendedKey<T>(c: Suite<T>, sk: seq<uint8>): (e: seq<uint8>)
    requires |c.hash(sk)| == 64
    ensures var h := c.hash(sk);
            && |e| == 64 && e[0] % 8 == 0 && e[0] / 8 == h[0] / 8
            && 0x40 <= e[31] < 0x80 && e[31] % 0x40 == h[31] % 0x40
            && e[1..31] == h[1..31] && e[32..] == h[32..]
  {
    var h := c.hash(sk);
    h[0 := h[0] - h[0] % 8][31 := h[31] % 64 + 64]
  }

  /** What a signature's nonce is hashed from: the upper half of the secret's hash, then the message. */
  function NonceInput(e: seq<uint8>, m: seq<uint8>): (x: seq<uint8>)
    requires |e| == 64
    ensures |x| == 32 + |m| && x[..32] == e[32..] && x[32..] == m
  {
    e[32..] + m
  }

  /** What a challenge is hashed from: the packed point, the public key, the message. */
  function ChallengeInput(r: seq<uint8>, pk: seq<uint8>, m: seq<uint8>): (x: seq<uint8>)
    ensures |x| == |r| + |pk| + |m|
    ensures x[..|r|] == r && x[|r|..|r| + |pk|] == pk && x[|r| + |pk|..] == m
  {
    r + pk + m
  }

  ghost function Scalar(s: seq<uint8>): (n: int)
    ensures 0 <= n < M
  {
    Le(s) % M
  }

  ghost function PublicKeyOf<T(!new)>(c: Suite<T>, sk: seq<uint8>): seq<uint8>
    requires Sized(c)
  {
    c.pack(Mul(c.g, Scalar(ExtendedKey(c, sk)[..32]), c.base))
  }

  /** The answer to challenge `h`: `r + h * a` modulo the order. */
  ghost function Answer(r: int, h: int, a: int): (s: int)
    ensures 0 <= s < M
  {
    (r + h * a % M) % M
  }

  /** The signature equation: `R = [r]B` and `S = r + H(R, A, m) a mod M`. */
  ghost function SignatureOf<T(!new)>(c: Suite<T>, m: seq<uint8>, sk: seq<uint8>, pk: seq<uint8>): (rs: seq<uint8>)
    requires Sized(c)
    ensures |rs| == 64
  {
    var e := ExtendedKey(c, sk);
    var r := Scalar(c.hash(NonceInput(e, m)));
    var packed := c.pack(Mul(c.g, r, c.base));
    packed + ToLe(32, Answer(r, Scalar(c.hash(ChallengeInput(packed, pk, m))), Scalar(e[..32])))
  }

  /** The verification equation: `R = [S]B - [H(R, A, m)]A`. */
  ghost predicate Accepts<T(!new)>(c: Suite<T>, m: seq<uint8>, pk: seq<uint8>, rs: seq<uint8>)
    requires Sized(c) && |rs| == 64
  {
    && rs[63] < 32
    && c.unpackNegative(pk).Some?
    && rs[..32] == c.pack(c.g.add(Mul(c.g, Scalar(c.hash(ChallengeInput(rs[..32], pk, m))), c.unpackNegative(pk).value),
                                  Mul(c.g, Scalar(rs[32..]), c.base)))
  }

  /** The secret scalar before reduction is a multiple of eight with bit 254 as its highest bit. */
  lemma SecretScalar<T(!new)>(c: Suite<T>, sk: seq<uint8>)
    requires Sized(c)
    ensures var a := Le(ExtendedKey(c, sk)[..32]);
            a % 8 == 0 && Pow2(254) <= a < Pow2(255)
  {
    hide Le, Pow2;
    ClampedNumber(ExtendedKey(c, sk)[..32]);
  }

  method LoadScalar(input: seq<uint8>) returns (s: array<uint64>)
    requires |input| <= 64
    ensures fresh(s) && s.Length == 5 && Limbs(s[..], TWO32) && Val(s[..]) == Scalar(input)
    ensures s[4] < TWO32 / 2 && Val(s[..]) < Pow2(255)
  {
    s := new uint64[5];
    Expand256(s, input);
    ReducedSize(s[..]);
  }

  lemma ReducedSize(s: seq<int>)
    requires Limbs(s, TWO32) && Val(s) < M
    ensures s[4] < TWO32 / 2 && Limbs(s, TWO32 / 2) && Val(s) < Pow2(255)
  {
    var n: nat := 255;
    Pow2Word(n + 1);
    assert Pow2(n + 1) == 2 * Pow2(n);
    assert s[4] < TWO32 / 2;
  }

  method PublicKey<T(!new)>(c: Suite<T>, sk: seq<uint8>) returns (pk: seq<uint8>)
    requires Sized(c) && Sound(c)
    ensures pk == PublicKeyOf(c, sk)
  {
    hide Val, Limbs, Le, BaseTable, Abelian, OddMultiples;
    var e := ExtendedKey(c, sk);
    var a := LoadScalar(e[..32]);
    var p := ScalarMultBase(c.g, c.baseTable, a[..], c.base);
    pk := c.pack(p.p);
  }

  /** The second half of a signature, `r + h * a mod M`. */
  method Response(hash: seq<uint8>, key: seq<uint8>, r: array<uint64>) returns (bytes: seq<uint8>)
    requires |hash| <= 64 && |key| <= 64 && r.Length == 5 && Limbs(r[..], TWO32) && Val(r[..]) < M
    ensures bytes == ToLe(32, Answer(Val(r[..]), Scalar(hash), Scalar(key)))
  {
    hide Val, Limbs, Le, Scalar, ToLe, SubtractOnce;
    var s := LoadScalar(hash);
    var a := LoadScalar(key);
    Mul256(s, s, a);
    ReducedSize(s[..]);
    ReducedSize(r[..]);
    Add256(s, s, r);
    bytes := Contract256(s);
    ToLeOfLe(bytes);
  }

  method Sign<T(!new)>(c: Suite<T>, m: seq<uint8>, sk: seq<uint8>, pk: seq<uint8>) returns (rs: seq<uint8>)
    requires Sized(c) && Sound(c)
    ensures rs == SignatureOf(c, m, sk, pk)
  {
    hide Val, Limbs, Le, BaseTable, Abelian, OddMultiples, Mul, ToLe, Scalar, Answer;
    var e := ExtendedKey(c, sk);
    var r := LoadScalar(c.hash(e[32..] + m));
    var point := ScalarMultBase(c.g, c.baseTable, r[..], c.base);
    var packed := c.pack(point.p);
    var bytes := Response(c.hash(packed + pk + m), e[..32], r);
    rs := packed + bytes;
  }

  method SignOpen<T(!new)>(c: Suite<T>, m: seq<uint8>, pk: seq<uint8>, rs: seq<uint8>) returns (ok: bool)
    requires Sized(c) && Sound(c) && |rs| == 64
    ensures ok <==> Accepts(c, m, pk, rs)
  {
    hide Val, Limbs, Le, BaseTable, Abelian, OddMultiples;
    var unpacked := c.unpackNegative(pk);
    if rs[63] / 32 != 0 || unpacked.None? {
      return false;
    }
    var h := LoadScalar(c.hash(rs[..32] + pk + m));
    var s := LoadScalar(rs[32..]);
    var r := DoubleScalarMult(c.g, unpacked.value, h[..], s[..], c.slideTable, c.base);
    ok := rs[..32] == c.pack(r.p);
  }

  /** Every signature made with a secret key verifies under its public key. */
  lemma SignatureAccepted<T(!new)>(c: Suite<T>, m: seq<uint8>, sk: seq<uint8>)
    requires Sized(c) && Sound(c)
    ensures Accepts(c, m, PublicKeyOf(c, sk), SignatureOf(c, m, sk, PublicKeyOf(c, sk)))
  {
    hide Abelian, BaseTable, OddMultiples, Le, ToLe, Scalar, Answer, Mul;
    var pk := PublicKeyOf(c, sk);
    var rs := SignatureOf(c, m, sk, pk);
    var e := ExtendedKey(c, sk);
    var a, r := Scalar(e[..32]), Scalar(c.hash(NonceInput(e, m)));
    var packed := c.pack(Mul(c.g, r, c.base));
    var h := Scalar(c.hash(ChallengeInput(packed, pk, m)));
    var s := Answer(r, h, a);
    assert rs[..32] == packed && rs[32..] == ToLe(32, s);
    EncodedScalar(s);
    assert rs[63] == rs[32..][31];
    VerificationEquation(c.g, c.base, r, h, a);
  }

  /** A reduced scalar survives its encoding, and its top byte passes the range test. */
  lemma EncodedScalar(s: int)
    requires 0 <= s < M
    ensures Scalar(ToLe(32, s)) == s && ToLe(32, s)[31] < 32
  {
    hide ToLe, Pow2;
    var t := ToLe(32, s);
    LeOfToLe(32, s);
    Pow2Word(8 * |t|);
    DivModUnique(s, TWO256, 0, s);
    DivModUnique(s, M, 0, s);
    RangeTest(t);
  }

  lemma VerificationEquation<T(!new)>(g: Group<T>, base: T, r: int, h: int, a: int)
    requires Abelian(g) && Mul(g, M, base) == g.zero
    ensures g.add(Mul(g, h, g.neg(Mul(g, a, base))), Mul(g, Answer(r, h, a), base)) == Mul(g, r, base)
  {
    hide Abelian, Mul;
    MulNeg(g, a, base);
    MulMul(g, h, -a, base);
    assert h * -a == -(h * a);
    Cancels(g, base, r, h * a, Answer(r, h, a));
  }

  lemma Cancels<T(!new)>(g: Group<T>, base: T, r: int, x: int, s: int)
    requires Abelian(g) && Mul(g, M, base) == g.zero && s == (r + x % M) % M
    ensures g.add(Mul(g, -x, base), Mul(g, s, base)) == Mul(g, r, base)
  {
    hide Abelian, Mul;
    var k := (r + x % M) / M + x / M;
    Residue(r, x, s, k);
    MulAdds(g, -x, s, base);
    MulAdds(g, r, -k * M, base);
    MulMul(g, -k, M, base);
    MulOfZero(g, -k);
    Zero(g, Mul(g, r, base));
  }

  lemma Residue(r: int, x: int, s: int, k: int)
    requires s == (r + x % M) % M && k == (r + x % M) / M + x / M
    ensures -x + s == r + -k * M
  {
  }

  lemma {:induction false} MulOfZero<T(!new)>(g: Group<T>, n: int)
    requires Abelian(g)
    ensures Mul(g, n, g.zero) == g.zero
    decreases if n < 0 then 1 - n else n
  {
    hide Abelian;
    if n > 0 {
      MulOfZero(g, n - 1);
      Zero(g, g.zero);
    } else if n < 0 {
      MulOfZero(g, -n);
      Zero(g, g.zero);
      NegUnique(g, g.zero, g.zero);
    }
  }

  // Other accepted forms of a signature.

  /** No smaller multiple of the base point than `M` is zero, and packing tells points apart. */
  ghost predicate Exact<T(!new)>(c: Suite<T>) {
    && (forall n :: Mul(c.g, n, c.base) == c.g.zero ==> n % M == 0)
    && (forall p, q :: c.pack(p) == c.pack(q) ==> p == q)
  }

  /** Another accepted signature with the same point `R`. */
  ghost predicate OtherForm<T(!new)>(c: Suite<T>, m: seq<uint8>, pk: seq<uint8>, rs: seq<uint8>, other: seq<uint8>)
    requires Sized(c) && |rs| == 64
  {
    |other| == 64 && other != rs && other[..32] == rs[..32] && Accepts(c, m, pk, other)
  }

  /** The bound that the range test puts on `S`. */
  const TWO253: int := 32 * TWO248

  lemma RangeTest(t: seq<uint8>)
    requires |t| == 32
    ensures t[31] < 32 <==> Le(t) < TWO253
  {
    hide Pow2, Le;
    assert t == t[..31] + t[31..];
    LeConcat(t[..31], t[31..]);
    LeSingle(t[31..]);
    LeBound(t[..31]);
    Pow2Next(8 * |t[..31]|);
    Pow2Word(8 * |t|);
  }

  /** `S` may be replaced by any number below 2^253 with the same residue. */
  lemma SameResidueAccepted<T(!new)>(c: Suite<T>, m: seq<uint8>, pk: seq<uint8>, rs: seq<uint8>, s: int)
    requires Sized(c) && |rs| == 64 && Accepts(c, m, pk, rs)
    requires 0 <= s < TWO253 && s % M == Le(rs[32..]) % M && s != Le(rs[32..])
    ensures OtherForm(c, m, pk, rs, rs[..32] + ToLe(32, s))
  {
    hide ToLe, Le, Pow2, Mul;
    var t := ToLe(32, s);
    var other := rs[..32] + t;
    LeOfToLe(32, s);
    Pow2Word(8 * |t|);
    DivModUnique(s, TWO256, 0, s);
    RangeTest(t);
    assert other[..32] == rs[..32] && other[32..] == t && other[63] == t[31];
  }

  /** Accepted signatures with the same `R` have the same residue of `S`. */
  lemma SameResidue<T(!new)>(c: Suite<T>, m: seq<uint8>, pk: seq<uint8>, rs: seq<uint8>, other: seq<uint8>)
    requires Sized(c) && Sound(c) && Exact(c) && |rs| == |other| == 64 && other[..32] == rs[..32]
    requires Accepts(c, m, pk, rs) && Accepts(c, m, pk, other)
    ensures Scalar(rs[32..]) == Scalar(other[32..])
  {
    hide Abelian, BaseTable, OddMultiples, Mul, Scalar, Exact;
    var u, v := Scalar(rs[32..]), Scalar(other[32..]);
    var h := Mul(c.g, Scalar(c.hash(ChallengeInput(rs[..32], pk, m))), c.unpackNegative(pk).value);
    var p, q := Mul(c.g, u, c.base), Mul(c.g, v, c.base);
    PackedOnce(c, c.g.add(h, p), c.g.add(h, q));
    Comm(c.g, h, p);
    Comm(c.g, h, q);
    Cancel(c.g, p, q, h);
    MulAdds(c.g, u - v, v, c.base);
    Zero(c.g, q);
    Cancel(c.g, Mul(c.g, u - v, c.base), c.g.zero, q);
    OrderDivides(c, u - v);
  }

  lemma PackedOnce<T(!new)>(c: Suite<T>, p: T, q: T)
    requires Exact(c) && c.pack(p) == c.pack(q)
    ensures p == q
  {
  }

  lemma OrderDivides<T(!new)>(c: Suite<T>, n: int)
    requires Exact(c) && Mul(c.g, n, c.base) == c.g.zero && -M < n < M
    ensures n == 0
  {
    hide Mul;
  }

  /** An accepted signature has a second accepted form with the same `R` exactly when `S` is not in the range from
      2^253 - M to M: the code tests `S` against 2^253 only and then reduces it. */
  lemma OtherForms<T(!new)>(c: Suite<T>, m: seq<uint8>, pk: seq<uint8>, rs: seq<uint8>)
    requires Sized(c) && Sound(c) && Exact(c) && |rs| == 64 && Accepts(c, m, pk, rs)
    ensures (exists other :: OtherForm(c, m, pk, rs, other)) <==> !(TWO253 - M <= Le(rs[32..]) < M)
  {
    hide Sound, Exact, Mul, ToLe, Le, Accepts;
    var s := Le(rs[32..]);
    Below253(c, m, pk, rs);
    if s < TWO253 - M {
      DivModUnique(s + M, M, s / M + 1, s % M);
      SameResidueAccepted(c, m, pk, rs, s + M);
    } else if s >= M {
      DivModUnique(s - M, M, s / M - 1, s % M);
      SameResidueAccepted(c, m, pk, rs, s - M);
    } else if other :| OtherForm(c, m, pk, rs, other) {
      assert rs == rs[..32] + rs[32..] && other == other[..32] + other[32..];
      SameResidue(c, m, pk, rs, other);
      Below253(c, m, pk, other);
      Neighbours(s, Le(other[32..]));
      LeInjective(rs[32..], other[32..]);
    }
  }

  lemma Below253<T(!new)>(c: Suite<T>, m: seq<uint8>, pk: seq<uint8>, rs: seq<uint8>)
    requires Sized(c) && |rs| == 64 && Accepts(c, m, pk, rs)
    ensures 0 <= Le(rs[32..]) < TWO253
  {
    hide Le, Mul;
    assert rs[32..][31] == rs[63];
    RangeTest(rs[32..]);
  }

  /** In the middle range nothing else below 2^253 has the same residue. */
  lemma Neighbours(s: int, t: int)
    requires TWO253 - M <= s < M && 0 <= t < TWO253 && s % M == t % M
    ensures s == t
  {
  }

  lemma LeInjective(s: seq<uint8>, t: seq<uint8>)
    requires |s| == |t| && Le(s) == Le(t)
    ensures s == t
  {
    hide Le, ToLe;
    ToLeOfLe(s);
    ToLeOfLe(t);
  }

  /** The order of the base point. */
  lemma OrderIs()
    ensures M == Pow2(252) + 27742317777372353535851937790883648493
  {
    hide Pow2;
    var n: nat := 252;
    Pow2Four(n);
    Pow2Word(n + 4);
  }

  lemma Pow2Four(n: nat)
    ensures Pow2(n + 4) == 16 * Pow2(n)
  {
    assert Pow2(n + 4) == 2 * Pow2(n + 3) == 4 * Pow2(n + 2) == 8 * Pow2(n + 1) == 16 * Pow2(n);
  }
}
