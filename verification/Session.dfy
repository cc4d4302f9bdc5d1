/** A whole session: the key exchange with Ed25519 signatures, then messages over the two channels it keys. */
module Session {
  import opened GfBlock
  import opened GcmSpec
  import opened Words
  import opened Channel
  import Sts
  import StsSystem
  import Ed25519

  // Signatures of the exchange made with Ed25519.

  function Numbers(s: Sts.Octets): (r: seq<uint8>)
    ensures |r| == |s|
  {
    seq(|s|, i requires 0 <= i < |s| => Number8(s[i]))
  }

  function Octets(r: seq<uint8>): (s: Sts.Octets)
    ensures Numbers(s) == r
  {
    seq(|r|, i requires 0 <= i < |r| => ByteOf(r[i]))
  }

  /** The exchange signs and verifies with Ed25519. */
  ghost predicate UsesEd25519<T(!new)>(s: Sts.Suite, c: Ed25519.Suite<T>) {
    && Ed25519.Sized(c)
    && (forall k, m :: s.sign(k, m) == Octets(Ed25519.SignatureOf(c, Numbers(m), Numbers(k.priv), Numbers(k.pub))))
    && (forall pub, m, sig :: |sig| == 64 ==>
          s.verify(pub, m, sig) == Ed25519.Accepts(c, Numbers(m), Numbers(pub), Numbers(sig)))
  }

  /** A key pair as the key generation makes it. */
  ghost predicate KeyPair<T(!new)>(c: Ed25519.Suite<T>, k: Sts.PrivKey) {
    Ed25519.Sized(c) && Numbers(k.pub) == Ed25519.PublicKeyOf(c, Numbers(k.priv))
  }

  /** Signatures made with such a key pair verify under its public half. */
  lemma GenuinePair<T(!new)>(s: Sts.Suite, c: Ed25519.Suite<T>, k: Sts.PrivKey)
    requires Ed25519.Sound(c) && UsesEd25519(s, c) && KeyPair(c, k)
    ensures StsSystem.Genuine(s, k)
  {
    hide Ed25519.Sized, Ed25519.Sound, Ed25519.Accepts, Ed25519.SignatureOf, UsesEd25519, Numbers, Octets;
    forall m
      ensures s.verify(k.pub, m, s.sign(k, m))
    {
      SignedWith(s, c, k, m);
      Ed25519.SignatureAccepted(c, Numbers(m), Numbers(k.priv));
    }
  }

  lemma SignedWith<T(!new)>(s: Sts.Suite, c: Ed25519.Suite<T>, k: Sts.PrivKey, m: Sts.Octets)
    requires Ed25519.Sized(c) && UsesEd25519(s, c)
    ensures var rs := Ed25519.SignatureOf(c, Numbers(m), Numbers(k.priv), Numbers(k.pub));
            s.verify(k.pub, m, s.sign(k, m)) == Ed25519.Accepts(c, Numbers(m), Numbers(k.pub), rs)
  {
    hide Ed25519.Sized, Ed25519.Accepts, Ed25519.SignatureOf;
    var rs := Ed25519.SignatureOf(c, Numbers(m), Numbers(k.priv), Numbers(k.pub));
    var sig := s.sign(k, m);
    assert sig == Octets(rs) && Numbers(sig) == rs && |sig| == 64;
  }

  // Channels from key material.

  /** Keys one channel with the first half of the material and one with the second. */
  method KeyMaterialTo2Channels(km: Sts.Octets, aes: seq<bv8> -> Cipher) returns (chan1: SymKey, chan2: SymKey)
    requires |km| == 48
    ensures chan1.Valid() && chan1.ctr == 0 && chan1.gctx.e == aes(km[..16]) && chan1.salt == km[16..24]
    ensures chan2.Valid() && chan2.ctr == 0 && chan2.gctx.e == aes(km[24..40]) && chan2.salt == km[40..]
    ensures fresh(chan1) && fresh(chan1.gctx) && fresh(chan2) && fresh(chan2.gctx)
    ensures chan1 != chan2 && chan1.gctx != chan2.gctx
  {
    hide SymKey.Valid;
    assert km[..24][..16] == km[..16] && km[..24][16..] == km[16..24];
    assert km[24..][..16] == km[24..40] && km[24..][16..] == km[40..];
    chan1 := new SymKey.InitConfAuth(km[..24], aes);
    chan2 := new SymKey.InitConfAuth(km[24..], aes);
  }

  /** The four steps on two contexts in memory, messages delivered as sent. */
  method Exchange(s: Sts.Suite, a: Sts.StsCtx, b: Sts.StsCtx, ra: Sts.Octets, rb: Sts.Octets)
    returns (kma: Sts.Octets, kmb: Sts.Octets)
    requires Sts.Sized(s) && Sts.Commuting(s) && a != b && a.stage == Sts.ReadyStage && b.stage == Sts.ReadyStage
    requires a.theirPub == b.myPriv.pub && b.theirPub == a.myPriv.pub
    requires StsSystem.Genuine(s, a.myPriv) && StsSystem.Genuine(s, b.myPriv)
    modifies a, b
    ensures kma == kmb && |kma| == 48 && a.stage == Sts.ReadyStage && b.stage == Sts.ReadyStage
  {
    hide Sts.Sized, Sts.Commuting, StsSystem.Genuine, Sts.Initiate, Sts.Respond, Sts.ResponseAck, Sts.Finish;
    StsSystem.Undisturbed(s, a.State(), b.State(), ra, rb);
    var ret1, m1 := a.InitiateSts(s, ra);
    var ret2, m2 := b.RespondSts(s, m1, rb);
    var ret3, m3, material := a.ResponseAckSts(s, m2);
    var ret4, same := b.FinishSts(s, m3);
    kma, kmb := material, same;
  }

  /** Messages of the channel's size, no more than one key can send. */
  ghost predicate Messages(pts: seq<seq<bv8>>) {
    |pts| <= LIMIT && forall i :: 0 <= i < |pts| ==> |pts[i]| == PT_LEN
  }

  /** Messages in both directions over channels from the same key material. */
  method Talk(km: Sts.Octets, aes: seq<bv8> -> Cipher, there: seq<seq<bv8>>, back: seq<seq<bv8>>,
              u: (bool, bool, bool), v: (bool, bool, bool)) returns (gotThere: seq<seq<bv8>>, gotBack: seq<seq<bv8>>)
    requires |km| == 48 && Messages(there) && Messages(back)
    ensures gotThere == there && gotBack == back
  {
    hide SymKey.Valid;
    var a1, a2 := KeyMaterialTo2Channels(km, aes);
    var b1, b2 := KeyMaterialTo2Channels(km, aes);
    gotThere := DeliverAll(a1, b1, there, u, v);
    gotBack := DeliverAll(b2, a2, back, v, u);
  }

  /** What the end-to-end result needs of the primitives. */
  ghost predicate Suited<T(!new)>(s: Sts.Suite, c: Ed25519.Suite<T>) {
    Ed25519.Sound(c) && UsesEd25519(s, c) && Sts.Sized(s) && Sts.Commuting(s)
  }

  /** Two ready contexts with Ed25519 key pairs that know each other's public key. */
  ghost predicate Partners<T(!new)>(c: Ed25519.Suite<T>, a: Sts.StsCtx, b: Sts.StsCtx)
    reads a, b
  {
    && a != b && a.stage == Sts.ReadyStage && b.stage == Sts.ReadyStage
    && KeyPair(c, a.myPriv) && KeyPair(c, b.myPriv)
    && a.theirPub == b.myPriv.pub && b.theirPub == a.myPriv.pub
  }

  /** An undisturbed session from end to end: with Ed25519 key pairs known to each other, every message that either side
      sends over its channel arrives, up to the number of messages that a channel allows. */
  method Converse<T(!new)>(s: Sts.Suite, c: Ed25519.Suite<T>, aes: seq<bv8> -> Cipher, a: Sts.StsCtx, b: Sts.StsCtx,
                           ra: Sts.Octets, rb: Sts.Octets, there: seq<seq<bv8>>, back: seq<seq<bv8>>,
                           u: (bool, bool, bool), v: (bool, bool, bool))
    returns (gotThere: seq<seq<bv8>>, gotBack: seq<seq<bv8>>)
    requires Messages(there) && Messages(back) && Suited(s, c) && Partners(c, a, b)
    modifies a, b
    ensures gotThere == there && gotBack == back
  {
    hide Ed25519.Sound, UsesEd25519, KeyPair, Sts.Sized, Sts.Commuting, StsSystem.Genuine, Messages;
    GenuinePair(s, c, a.myPriv);
    GenuinePair(s, c, b.myPriv);
    var kma, kmb := Exchange(s, a, b, ra, rb);
    gotThere, gotBack := Talk(kma, aes, there, back, u, v);
  }
}
