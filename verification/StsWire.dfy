/** What the exchange hashes, derives and sends, byte by byte. */
module StsWire {
  import opened GfBlock
  import opened GcmSpec
  import opened Words
  import opened Counters
  import opened Sts
  import GcmCtx

  // Key separation.

  /** What block `count` of a derived stream is the hash of: the block number in two bytes, the secret, the party. */
  function KdfInput(secret: Octets, party: Party, count: nat): (r: Octets)
    ensures |r| == |secret| + 3
  {
    Be(2, count) + secret + [PartyByte(party)]
  }

  /** Inputs of different parties or different block numbers differ, whatever the secrets of the same length are. */
  lemma InputsDiffer(z: Octets, p: Party, i: nat, y: Octets, q: Party, j: nat)
    requires |z| == |y| && i < 0x1_0000 && j < 0x1_0000 && (p != q || i != j)
    ensures KdfInput(z, p, i) != KdfInput(y, q, j)
  {
    hide Be;
    var u, v := KdfInput(z, p, i), KdfInput(y, q, j);
    if u == v {
      assert u[..2] == Be(2, i) && v[..2] == Be(2, j) && u[|u| - 1] == PartyByte(p) && v[|v| - 1] == PartyByte(q);
      CountRange();
      BeInjective(2, i, j);
      assert false;
    }
  }

  lemma CountRange()
    ensures Exp256(2) == 0x1_0000
  {
  }

  lemma BlockIsHash(s: Suite, secret: Octets, party: Party, count: nat)
    ensures KdfBlock(s, secret, party, count) == s.hash(KdfInput(secret, party, count))
  {
  }

  /** The first input of each stream: two zero bytes, the secret, and 0 for the initiator, 1 for the responder, 2 for
      the client. */
  lemma FirstInputs(z: Octets)
    ensures KdfInput(z, Initiator, 0) == [0, 0] + z + [0]
    ensures KdfInput(z, Responder, 0) == [0, 0] + z + [1]
    ensures KdfInput(z, Client, 0) == [0, 0] + z + [2]
  {
    hide Be;
    GcmCtx.BeZero(2);
    assert Be(2, 0) == [0, 0];
  }

  /** The hash of the first input with the given party byte. */
  function First(s: Suite, z: Octets, party: bv8): (h: Octets)
    requires Sized(s)
    ensures |h| == 64
  {
    hide Sized;
    SizedAt(s, [0, 0] + z + [party], [], 0);
    s.hash([0, 0] + z + [party])
  }

  /** The streams of up to 64 bytes are prefixes of one hash. */
  lemma FirstBlocks(s: Suite, z: Octets, n: nat)
    requires Sized(s) && n <= 64
    ensures Kdf(s, n, z, Initiator) == First(s, z, 0)[..n] && Kdf(s, n, z, Responder) == First(s, z, 1)[..n]
    ensures Kdf(s, n, z, Client) == First(s, z, 2)[..n]
  {
    hide Sized, KdfInput, PartyByte, Be, KdfBlock;
    FirstInputs(z);
    BlockIsHash(s, z, Initiator, 0);
    BlockIsHash(s, z, Responder, 0);
    BlockIsHash(s, z, Client, 0);
  }

  /** A confirmation key from the first 24 bytes of a hash. */
  function KeyFrom(s: Suite, h: Octets): Kck
    requires |h| == 64
  {
    Kck(s.schedule(h[..16]), h[16..24], 0)
  }

  /** Each side keys its own direction from its own stream and the other's from the peer's, and hands the client
      material from a third. */
  lemma DerivedFrom(s: Suite, c: Ctx, z: Octets)
    requires Sized(s) && (c.party == Initiator || c.party == Responder)
    ensures var first, second := KeyFrom(s, First(s, z, 0)), KeyFrom(s, First(s, z, 1));
            var d := Derive(s, c, z);
            && d.myKck == (if c.party == Initiator then first else second)
            && d.theirKck == (if c.party == Initiator then second else first)
            && d.clientKey == First(s, z, 2)[..48]
  {
    hide Sized, Kdf, First;
    FirstBlocks(s, z, 24);
    FirstBlocks(s, z, 48);
    var h, g := First(s, z, 0), First(s, z, 1);
    assert h[..24][..16] == h[..16] && h[..24][16..] == h[16..24];
    assert g[..24][..16] == g[..16] && g[..24][16..] == g[16..24];
  }

  lemma DeriveKeeps(s: Suite, c: Ctx, z: Octets)
    requires Sized(s)
    ensures var d := Derive(s, c, z);
            d == c.(myKck := d.myKck, theirKck := d.theirKck, clientKey := d.clientKey)
  {
    hide Sized, Kdf;
  }

  // Messages.

  /** 64 bytes under the first counter of the key from the hash `h`, in either direction. */
  function Under(s: Suite, h: Octets, data: Octets): (r: Octets)
    requires Sized(s) && |h| == 64 && |data| == 64
    ensures |r| == 64
  {
    hide Sized;
    SizedAt(s, s.schedule(h[..16]), [], 0);
    XorBytes(data, s.stream(s.schedule(h[..16]), 0))
  }

  function Signed(s: Suite, k: PrivKey, m: Octets): (sig: Octets)
    requires Sized(s)
    ensures |sig| == 64
  {
    hide Sized;
    SignatureSize(s, k, m);
    s.sign(k, m)
  }

  /** The responder's message: its ephemeral key, then its signature over both ephemeral keys, its own first, under its
      own confirmation key. */
  lemma SecondMessage(s: Suite, c: Ctx, msg1: Octets, random: Octets)
    requires Sized(s) && |msg1| == 32 && c.stage == ReadyStage
    ensures var h, pub := First(s, s.dh(msg1, random), 1), s.ephPub(random);
            Respond(s, c, msg1, random).1 == Ok(pub + Under(s, h, Signed(s, c.myPriv, pub + msg1)))
  {
    hide Sized, Derive, XorBytes, First;
    var z := s.dh(msg1, random);
    var c1 := c.(party := Responder, myPrivE := random, myPubE := s.ephPub(random), theirPubE := msg1);
    DerivedFrom(s, c1, z);
    DeriveKeeps(s, c1, z);
  }

  /** The initiator accepts exactly the responder's signature over both ephemeral keys, the responder's first, under the
      responder's confirmation key, and answers with its own signature, its own key first, under its own confirmation
      key. */
  lemma ThirdMessage(s: Suite, c: Ctx, msg2: Octets)
    requires Sized(s) && |msg2| == 96 && c.stage == Message1Done && c.party == Initiator
    ensures var pub := msg2[..32];
            var z := s.dh(pub, c.myPrivE);
            ResponseAck(s, c, msg2).1
            == if s.verify(c.theirPub, pub + c.myPubE, Under(s, First(s, z, 1), msg2[32..]))
               then Ok((Under(s, First(s, z, 0), Signed(s, c.myPriv, c.myPubE + pub)), First(s, z, 2)[..48])) else Fail
  {
    hide Sized, Derive, XorBytes, First;
    var pub := msg2[..32];
    var z := s.dh(pub, c.myPrivE);
    var c1 := c.(theirPubE := pub);
    DerivedFrom(s, c1, z);
    DeriveKeeps(s, c1, z);
  }

  /** The responder accepts the last message exactly for the initiator's signature over both ephemeral keys, the
      initiator's first, under the initiator's confirmation key. */
  lemma LastMessage(s: Suite, c: Ctx, msg1: Octets, random: Octets, msg3: Octets)
    requires Sized(s) && |msg1| == 32 && |msg3| == 64 && c.stage == ReadyStage
    ensures var z := s.dh(msg1, random);
            Finish(s, Respond(s, c, msg1, random).0, msg3).1
            == if s.verify(c.theirPub, msg1 + s.ephPub(random), Under(s, First(s, z, 0), msg3))
               then Ok(First(s, z, 2)[..48]) else Fail
  {
    hide Sized, Derive, XorBytes, First;
    var z := s.dh(msg1, random);
    var c1 := c.(party := Responder, myPrivE := random, myPubE := s.ephPub(random), theirPubE := msg1);
    DerivedFrom(s, c1, z);
    DeriveKeeps(s, c1, z);
  }

  // Reset.

  /** A reset makes the ephemeral keys and the key material zero, and of each confirmation key the first 24 bytes only:
      the rest of the expanded key, the salt and the counter stay, and so do the long-term keys. */
  lemma ResetIs(c: Ctx, i: nat)
    requires |c.myKck.schedule| >= 24 && i < |c.myKck.schedule|
    ensures var r := Reset(c);
            && |r.myKck.schedule| == |c.myKck.schedule|
            && r.myKck.schedule[i] == (if i < 24 then 0 else c.myKck.schedule[i])
            && r.myKck.salt == c.myKck.salt && r.myKck.ctr == c.myKck.ctr
            && r.myPub == c.myPub && r.myPriv == c.myPriv && r.theirPub == c.theirPub && r.stage == ReadyStage
    ensures forall j :: 0 <= j < 32 ==> Reset(c).myPrivE[j] == Reset(c).myPubE[j] == Reset(c).theirPubE[j] == 0
    ensures forall j :: 0 <= j < 48 ==> Reset(c).clientKey[j] == 0
  {
  }
}
