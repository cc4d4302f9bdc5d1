/** The station-to-station key exchange: contexts, key derivation and the four protocol steps. */
module Sts {
  import opened GfBlock
  import opened Ghash
  import opened GcmSpec

  type Octets = seq<bv8>

  /** A signing key: the secret and the public half that goes with it. */
  datatype PrivKey = PrivKey(priv: Octets, pub: Octets)

  /** The primitives the exchange is built on. `dh` takes a public and a private key; `schedule` is the expanded cipher
      key; `stream` is the keystream of a 64-byte confidential message from a counter and `next` the counter after it.
  */
  datatype Suite = Suite(
    ephPub: Octets -> Octets,
    dh: (Octets, Octets) -> Octets,
    hash: Octets -> Octets,
    sign: (PrivKey, Octets) -> Octets,
    verify: (Octets, Octets, Octets) -> bool,
    schedule: Octets -> Octets,
    stream: (Octets, nat) -> Octets,
    next: nat -> nat)

  /** Sizes of what the primitives return. */
  ghost predicate Sized(s: Suite) {
    && (forall x :: |s.ephPub(x)| == 32)
    && (forall x, y :: |s.dh(x, y)| == 32)
    && (forall x :: |s.hash(x)| == 64)
    && (forall k, m :: |s.sign(k, m)| == 64)
    && (forall k :: |s.schedule(k)| >= 24)
    && (forall k, c :: |s.stream(k, c)| == 64)
  }

  lemma SizedAt(s: Suite, x: Octets, y: Octets, c: nat)
    requires Sized(s)
    ensures |s.ephPub(x)| == 32 && |s.dh(x, y)| == 32 && |s.hash(x)| == 64
    ensures |s.schedule(x)| >= 24 && |s.stream(x, c)| == 64
  {
  }

  lemma SignatureSize(s: Suite, k: PrivKey, m: Octets)
    requires Sized(s)
    ensures |s.sign(k, m)| == 64
  {
  }

  /** Both sides of a key agreement obtain the same secret. */
  ghost predicate Commuting(s: Suite) {
    forall x, y :: s.dh(s.ephPub(x), y) == s.dh(s.ephPub(y), x)
  }

  lemma CommutingAt(s: Suite, x: Octets, y: Octets)
    requires Commuting(s)
    ensures s.dh(s.ephPub(x), y) == s.dh(s.ephPub(y), x)
  {
  }

  // Key derivation.

  datatype Stage = InvalidStage | ReadyStage | Message1Done | Message2Done
  datatype Party = Initiator | Responder | Client | InvalidParty

  function PartyByte(p: Party): bv8 {
    match p case Initiator => 0 case Responder => 1 case Client => 2 case InvalidParty => 3
  }

  function Peer(p: Party): Party {
    if p == Initiator then Responder else Initiator
  }

  /** Block `count` of the derived stream. */
  function KdfBlock(s: Suite, secret: Octets, party: Party, count: nat): Octets {
    s.hash(Be(2, count) + secret + [PartyByte(party)])
  }

  /** `size` derived bytes from block `count` on. */
  function KdfFrom(s: Suite, secret: Octets, party: Party, count: nat, size: nat): Octets
    requires Sized(s)
    decreases size
  {
    hide Sized;
    SizedAt(s, Be(2, count) + secret + [PartyByte(party)], [], 0);
    if size <= 64 then KdfBlock(s, secret, party, count)[..size]
    else KdfBlock(s, secret, party, count) + KdfFrom(s, secret, party, count + 1, size - 64)
  }

  function Kdf(s: Suite, size: nat, secret: Octets, party: Party): Octets
    requires Sized(s)
  {
    KdfFrom(s, secret, party, 0, size)
  }

  lemma {:induction false} KdfLength(s: Suite, secret: Octets, party: Party, count: nat, size: nat)
    requires Sized(s)
    ensures |KdfFrom(s, secret, party, count, size)| == size
    decreases size
  {
    hide Sized;
    SizedAt(s, Be(2, count) + secret + [PartyByte(party)], [], 0);
    if size > 64 {
      KdfLength(s, secret, party, count + 1, size - 64);
    }
  }

  /** The derivation loop; the block counter has 16 bits. Nothing is derived for size zero. */
  method KdfLoop(s: Suite, size: nat, secret: Octets, party: Party) returns (result: Octets)
    requires Sized(s) && size <= 64 * 0xffff
    ensures result == Kdf(s, size, secret, party)
  {
    hide Sized, Kdf, KdfBlock, Rest, KdfFrom, Be, PartyByte;
    result := [];
    AllRest(s, secret, party, size);
    var remaining, count := size, 0;
    var nrReps := (size + 63) / 64;
    while count < nrReps
      invariant 0 <= count <= nrReps
      invariant 64 * count < size ==> remaining == size - 64 * count
      invariant Kdf(s, size, secret, party) == result + Rest(s, secret, party, count, size)
    {
      Repetitions(size, count);
      SizedAt(s, Be(2, count) + secret + [PartyByte(party)], [], 0);
      var block := s.hash(Be(2, count) + secret + [PartyByte(party)]);
      KdfBlockIs(s, secret, party, count);
      RestStep(s, secret, party, count, size);
      if remaining > 64 {
        result := result + block;
      } else {
        result := result + block[..remaining];
      }
      remaining := (remaining - 64) % 0x1_0000_0000;
      count := count + 1;
    }
    Repetitions(size, count);
    NoRest(s, secret, party, count, size);
  }

  /** What is still to be derived. */
  ghost function Rest(s: Suite, secret: Octets, party: Party, count: nat, size: nat): Octets
    requires Sized(s)
  {
    if 64 * count < size then KdfFrom(s, secret, party, count, size - 64 * count) else []
  }

  lemma AllRest(s: Suite, secret: Octets, party: Party, size: nat)
    requires Sized(s)
    ensures Kdf(s, size, secret, party) == [] + Rest(s, secret, party, 0, size)
  {
    hide Sized, KdfFrom;
    KdfLength(s, secret, party, 0, size);
  }

  lemma NoRest(s: Suite, secret: Octets, party: Party, count: nat, size: nat)
    requires Sized(s) && 64 * count >= size
    ensures Rest(s, secret, party, count, size) == []
  {
  }

  lemma RestStep(s: Suite, secret: Octets, party: Party, count: nat, size: nat)
    requires Sized(s) && 64 * count < size
    ensures |KdfBlock(s, secret, party, count)| == 64
    ensures Rest(s, secret, party, count, size)
         == (if size - 64 * count > 64 then KdfBlock(s, secret, party, count)
             else KdfBlock(s, secret, party, count)[..size - 64 * count]) + Rest(s, secret, party, count + 1, size)
  {
    hide Sized;
    SizedAt(s, Be(2, count) + secret + [PartyByte(party)], [], 0);
  }

  lemma Repetitions(size: nat, count: nat)
    ensures count < (size + 63) / 64 <==> 64 * count < size
  {
  }

  lemma KdfBlockIs(s: Suite, secret: Octets, party: Party, count: nat)
    ensures KdfBlock(s, secret, party, count) == s.hash(Be(2, count) + secret + [PartyByte(party)])
  {
  }

  // Confirmation keys.

  /** A key for confidentiality only: expanded cipher key, salt and counter. */
  datatype Kck = Kck(schedule: Octets, salt: Octets, ctr: nat)

  function InitConf(s: Suite, raw: Octets): Kck
    requires |raw| == 24
  {
    Kck(s.schedule(raw[..16]), raw[16..], 0)
  }

  /** Encryption and decryption of 64 bytes: refused when the counter is about to roll over. */
  function ConfCrypt(s: Suite, k: Kck, data: Octets): (Octets, Kck)
    requires Sized(s) && |data| == 64
  {
    hide Sized;
    SizedAt(s, k.schedule, [], k.ctr);
    if k.ctr >= 0xffff_ffff - (64 + 15) % 16 then (Zeros(64), k)
    else (XorBytes(data, s.stream(k.schedule, k.ctr)), k.(ctr := s.next(k.ctr)))
  }

  /** Only the first 24 bytes of a confirmation key are wiped. */
  function Wiped(k: Kck): Kck {
    if |k.schedule| >= 24 then k.(schedule := Zeros(24) + k.schedule[24..]) else k.(schedule := Zeros(|k.schedule|))
  }

  // Contexts as values, and the steps on them.

  datatype Ctx = Ctx(
    myPub: Octets, myPriv: PrivKey, theirPub: Octets,
    myPubE: Octets, myPrivE: Octets, theirPubE: Octets,
    myKck: Kck, theirKck: Kck, clientKey: Octets,
    stage: Stage, party: Party)

  function Reset(c: Ctx): Ctx {
    c.(theirKck := Wiped(c.theirKck), myKck := Wiped(c.myKck), clientKey := Zeros(48), myPrivE := Zeros(32),
       myPubE := Zeros(32), theirPubE := Zeros(32), stage := ReadyStage, party := InvalidParty)
  }

  /** The keys both directions are confirmed with, and the key material handed to the client. */
  function Derive(s: Suite, c: Ctx, z: Octets): Ctx
    requires Sized(s)
  {
    hide Sized;
    KdfLength(s, z, c.party, 0, 24);
    KdfLength(s, z, Peer(c.party), 0, 24);
    c.(myKck := InitConf(s, Kdf(s, 24, z, c.party)), theirKck := InitConf(s, Kdf(s, 24, z, Peer(c.party))),
       clientKey := Kdf(s, 48, z, Client))
  }

  /** Success with what the step returns, or failure. */
  datatype Result<T> = Ok(value: T) | Fail

  function Initiate(s: Suite, c: Ctx, random: Octets): (Ctx, Result<Octets>) {
    if c.stage != ReadyStage then (c, Fail)
    else
      var pub := s.ephPub(random);
      (c.(myPrivE := random, myPubE := pub, stage := Message1Done, party := Initiator), Ok(pub))
  }

  /** The contents of the signature a context makes. */
  function Transcript(c: Ctx): Octets {
    c.myPubE + c.theirPubE
  }

  function Respond(s: Suite, c: Ctx, msg1: Octets, random: Octets): (Ctx, Result<Octets>)
    requires Sized(s) && |msg1| == 32
  {
    hide Sized;
    if c.stage != ReadyStage then (c, Fail)
    else
      var c1 := c.(party := Responder, myPrivE := random, myPubE := s.ephPub(random), theirPubE := msg1);
      var c2 := Derive(s, c1, s.dh(c1.theirPubE, c1.myPrivE));
      SignatureSize(s, c2.myPriv, Transcript(c2));
      var (e, k) := ConfCrypt(s, c2.myKck, s.sign(c2.myPriv, Transcript(c2)));
      (c2.(myKck := k, stage := Message2Done), Ok(c2.myPubE + e))
  }

  /** Decrypts and checks the peer's signature over both ephemeral keys, the peer's first. */
  function Verify(s: Suite, c: Ctx, msg: Octets): (Ctx, bool)
    requires Sized(s) && |msg| == 64
  {
    var (sig, k) := ConfCrypt(s, c.theirKck, msg);
    (c.(theirKck := k), s.verify(c.theirPub, c.theirPubE + c.myPubE, sig))
  }

  function ResponseAck(s: Suite, c: Ctx, msg2: Octets): (Ctx, Result<(Octets, Octets)>)
    requires Sized(s) && |msg2| == 96
  {
    hide Sized;
    if c.stage != Message1Done then (c, Fail)
    else
      var c1 := c.(theirPubE := msg2[..32]);
      var c2 := Derive(s, c1, s.dh(c1.theirPubE, c1.myPrivE));
      var (c3, ok) := Verify(s, c2, msg2[32..]);
      if !ok then (c3, Fail)
      else
        SignatureSize(s, c3.myPriv, Transcript(c3));
        var (e, k) := ConfCrypt(s, c3.myKck, s.sign(c3.myPriv, Transcript(c3)));
        (Reset(c3.(myKck := k)), Ok((e, c3.clientKey)))
  }

  function Finish(s: Suite, c: Ctx, msg3: Octets): (Ctx, Result<Octets>)
    requires Sized(s) && |msg3| == 64
  {
    if c.stage != Message2Done then (c, Fail)
    else
      var (c1, ok) := Verify(s, c, msg3);
      if ok then (Reset(c1), Ok(c.clientKey)) else (c1, Fail)
  }

  // The context in memory.

  class StsCtx {
    var myPub: Octets
    var myPriv: PrivKey
    var theirPub: Octets
    var myPubE: Octets
    var myPrivE: Octets
    var theirPubE: Octets
    var myKck: Kck
    var theirKck: Kck
    var clientKey: Octets
    var stage: Stage
    var party: Party

    function State(): Ctx
      reads this
    {
      Ctx(myPub, myPriv, theirPub, myPubE, myPrivE, theirPubE, myKck, theirKck, clientKey, stage, party)
    }

    /** Long-term keys of this party and of its one partner; the rest of the memory is as it was. */
    method InitContext(pub: Octets, priv: PrivKey, partner: Octets)
      modifies this
      ensures State() == old(State()).(
        stage := ReadyStage, party := InvalidParty, myPub := pub, myPriv := priv, theirPub := partner)
    {
      stage := ReadyStage;
      party := InvalidParty;
      myPub := pub;
      myPriv := priv;
      theirPub := partner;
    }

    method ResetCtx()
      modifies this
      ensures State() == Reset(old(State()))
    {
      hide Wiped, Zeros;
      theirKck := Wiped(theirKck);
      myKck := Wiped(myKck);
      clientKey := Zeros(48);
      myPrivE := Zeros(32);
      myPubE := Zeros(32);
      theirPubE := Zeros(32);
      stage := ReadyStage;
      party := InvalidParty;
    }

    method DeriveKeyMaterials(s: Suite, secret: Octets)
      requires Sized(s)
      modifies this
      ensures State() == Derive(s, old(State()), secret)
    {
      hide Sized, Kdf;
      var tmp := KdfLoop(s, 24, secret, party);
      LengthOfKdf(s, 24, secret, party);
      myKck := InitConf(s, tmp);
      tmp := KdfLoop(s, 24, secret, Peer(party));
      LengthOfKdf(s, 24, secret, Peer(party));
      theirKck := InitConf(s, tmp);
      clientKey := KdfLoop(s, 48, secret, Client);
    }

    method InitiateSts(s: Suite, random: Octets) returns (ret: int, msg1: Octets)
      modifies this
      ensures State() == Initiate(s, old(State()), random).0
      ensures ret == 0 <==> Initiate(s, old(State()), random).1.Ok?
      ensures ret == 0 ==> msg1 == Initiate(s, old(State()), random).1.value
    {
      ret, msg1 := -1, [];
      if stage == ReadyStage {
        myPrivE := random;
        myPubE := s.ephPub(myPrivE);
        msg1 := myPubE;
        stage := Message1Done;
        party := Initiator;
        ret := 0;
      }
    }

    method RespondSts(s: Suite, msg1: Octets, random: Octets) returns (ret: int, msg2: Octets)
      requires Sized(s) && |msg1| == 32
      modifies this
      ensures State() == Respond(s, old(State()), msg1, random).0
      ensures ret == 0 <==> Respond(s, old(State()), msg1, random).1.Ok?
      ensures ret == 0 ==> msg2 == Respond(s, old(State()), msg1, random).1.value
    {
      hide Sized, Derive, ConfCrypt;
      ret, msg2 := -1, [];
      if stage == ReadyStage {
        party := Responder;
        myPrivE := random;
        myPubE := s.ephPub(myPrivE);
        theirPubE := msg1;
        ghost var c1 := old(State()).(
          party := Responder, myPrivE := random, myPubE := s.ephPub(random), theirPubE := msg1);
        assert State() == c1;
        var z := s.dh(theirPubE, myPrivE);
        DeriveKeyMaterials(s, z);
        assert State() == Derive(s, c1, z);
        msg2 := myPubE;
        var unsignedData := myPubE + theirPubE;
        SignatureSize(s, myPriv, unsignedData);
        var sig := s.sign(myPriv, unsignedData);
        var (e, k) := ConfCrypt(s, myKck, sig);
        myKck := k;
        msg2 := msg2 + e;
        stage := Message2Done;
        ret := 0;
      }
    }

    method VerifySig(s: Suite, msg: Octets) returns (ok: bool)
      requires Sized(s) && |msg| == 64
      modifies this`theirKck
      ensures State() == Verify(s, old(State()), msg).0 && ok == Verify(s, old(State()), msg).1
    {
      hide Sized, ConfCrypt;
      var signedContents := theirPubE + myPubE;
      var (sig, k) := ConfCrypt(s, theirKck, msg);
      theirKck := k;
      ok := s.verify(theirPub, signedContents, sig);
    }

    method ResponseAckSts(s: Suite, msg2: Octets) returns (ret: int, msg3: Octets, keyMaterial: Octets)
      requires Sized(s) && |msg2| == 96
      modifies this
      ensures State() == ResponseAck(s, old(State()), msg2).0
      ensures ret == 0 <==> ResponseAck(s, old(State()), msg2).1.Ok?
      ensures ret == 0 ==> (msg3, keyMaterial) == ResponseAck(s, old(State()), msg2).1.value
    {
      hide Sized, Derive, Reset, ConfCrypt;
      ret, msg3, keyMaterial := -1, [], [];
      if stage == Message1Done {
        theirPubE := msg2[..32];
        var z := s.dh(theirPubE, myPrivE);
        DeriveKeyMaterials(s, z);
        var sigOk := VerifySig(s, msg2[32..]);
        if sigOk {
          var unsignedData := myPubE + theirPubE;
          SignatureSize(s, myPriv, unsignedData);
          var sig := s.sign(myPriv, unsignedData);
          var (e, k) := ConfCrypt(s, myKck, sig);
          myKck := k;
          msg3 := e;
          keyMaterial := clientKey;
          ResetCtx();
          ret := 0;
        }
      }
    }

    method FinishSts(s: Suite, msg3: Octets) returns (ret: int, keyMaterial: Octets)
      requires Sized(s) && |msg3| == 64
      modifies this
      ensures State() == Finish(s, old(State()), msg3).0
      ensures ret == 0 <==> Finish(s, old(State()), msg3).1.Ok?
      ensures ret == 0 ==> keyMaterial == Finish(s, old(State()), msg3).1.value
    {
      hide Sized, Reset, ConfCrypt;
      ret, keyMaterial := -1, [];
      if stage == Message2Done {
        var ok := VerifySig(s, msg3);
        if ok {
          keyMaterial := clientKey;
          ResetCtx();
          ret := 0;
        }
      }
    }
  }

  lemma LengthOfKdf(s: Suite, size: nat, secret: Octets, party: Party)
    requires Sized(s)
    ensures |Kdf(s, size, secret, party)| == size
  {
    hide Sized;
    KdfLength(s, secret, party, 0, size);
  }
}
