/** Any number of contexts running the exchange under arbitrary scheduling and arbitrary delivered messages. */
module StsSystem {
  import opened GfBlock
  import opened Ghash
  import opened GcmSpec
  import opened Sts
  import ConfChannel
  import Modes

  /** A signature made with the key pair of public half `pub`, with the signer's context at that moment. */
  datatype Signature = Signature(pub: Octets, signer: Ctx)

  datatype System = System(ctxs: map<nat, Ctx>, log: set<Signature>)

  datatype Op =
    | DoInitiate(random: Octets)
    | DoRespond(msg1: Octets, random: Octets)
    | DoAck(msg2: Octets)
    | DoFinish(msg3: Octets)
    | DoReset
    | DoPartner(partner: Octets)
    | DoInit(pub: Octets, priv: PrivKey, partner: Octets)

  predicate WellSized(op: Op) {
    match op
    case DoRespond(msg1, _) => |msg1| == 32
    case DoAck(msg2) => |msg2| == 96
    case DoFinish(msg3) => |msg3| == 64
    case _ => true
  }

  /** The context a step leaves behind. */
  function Next(s: Suite, c: Ctx, op: Op): Ctx
    requires Sized(s) && WellSized(op)
  {
    match op
    case DoInitiate(random) => Initiate(s, c, random).0
    case DoRespond(msg1, random) => Respond(s, c, msg1, random).0
    case DoAck(msg2) => ResponseAck(s, c, msg2).0
    case DoFinish(msg3) => Finish(s, c, msg3).0
    case DoReset => Reset(c)
    case DoPartner(partner) => Reset(c.(theirPub := partner))
    case DoInit(pub, priv, partner) =>
      c.(stage := ReadyStage, party := InvalidParty, myPub := pub, myPriv := priv, theirPub := partner)
  }

  /** The context in which a step checks the peer's signature, or makes its own. */
  function Midway(s: Suite, c: Ctx, op: Op): Ctx
    requires Sized(s) && WellSized(op)
  {
    hide Sized;
    match op
    case DoRespond(msg1, random) =>
      var c1 := c.(party := Responder, myPrivE := random, myPubE := s.ephPub(random), theirPubE := msg1);
      Derive(s, c1, s.dh(c1.theirPubE, c1.myPrivE))
    case DoAck(msg2) =>
      var c1 := c.(theirPubE := msg2[..32]);
      Derive(s, c1, s.dh(c1.theirPubE, c1.myPrivE))
    case _ => c
  }

  /** The step returns 0 and hands out key material. */
  predicate Accepts(s: Suite, c: Ctx, op: Op)
    requires Sized(s) && WellSized(op)
  {
    match op
    case DoAck(msg2) => ResponseAck(s, c, msg2).1.Ok?
    case DoFinish(msg3) => Finish(s, c, msg3).1.Ok?
    case _ => false
  }

  function KeyMaterial(s: Suite, c: Ctx, op: Op): Octets
    requires Sized(s) && WellSized(op) && Accepts(s, c, op)
  {
    match op
    case DoAck(msg2) => ResponseAck(s, c, msg2).1.value.1
    case DoFinish(msg3) => Finish(s, c, msg3).1.value
  }

  predicate Signs(s: Suite, c: Ctx, op: Op)
    requires Sized(s) && WellSized(op)
  {
    match op
    case DoRespond(msg1, random) => Respond(s, c, msg1, random).1.Ok?
    case DoAck(msg2) => ResponseAck(s, c, msg2).1.Ok?
    case _ => false
  }

  function Step(s: Suite, sys: System, id: nat, op: Op): System
    requires Sized(s) && WellSized(op) && id in sys.ctxs
  {
    var c := sys.ctxs[id];
    System(sys.ctxs[id := Next(s, c, op)],
           if Signs(s, c, op) then sys.log + {Signature(c.myPriv.pub, Midway(s, c, op))} else sys.log)
  }

  /** A signature in the log that covers what `c` checks: the peer's ephemeral key, then its own. */
  predicate Covers(g: Signature, c: Ctx) {
    g.pub == c.theirPub && Transcript(g.signer) == c.theirPubE + c.myPubE
  }

  /** Ideal signatures: what verifies under an honest key was signed under it. */
  ghost predicate Unforged(s: Suite, honest: set<Octets>, sys: System, id: nat, op: Op)
    requires Sized(s) && WellSized(op) && id in sys.ctxs
  {
    var c := sys.ctxs[id];
    Accepts(s, c, op) && c.theirPub in honest ==> exists g :: g in sys.log && Covers(g, Midway(s, c, op))
  }

  // Runs.

  datatype Event = Event(id: nat, op: Op)

  ghost predicate Fair(s: Suite, honest: set<Octets>, sys: System, run: seq<Event>)
    requires Sized(s)
    decreases |run|
  {
    |run| == 0 ||
      (&& WellSized(run[0].op) && run[0].id in sys.ctxs && Unforged(s, honest, sys, run[0].id, run[0].op)
       && Fair(s, honest, Step(s, sys, run[0].id, run[0].op), run[1..]))
  }

  /** The system before event `i`. */
  ghost function Before(s: Suite, honest: set<Octets>, sys: System, run: seq<Event>, i: nat): System
    requires Sized(s) && Fair(s, honest, sys, run) && i < |run|
    decreases i
  {
    if i == 0 then sys else Before(s, honest, Step(s, sys, run[0].id, run[0].op), run[1..], i - 1)
  }

  /** No exchange is under way and nothing has been signed. */
  ghost predicate Initial(sys: System) {
    && sys.log == {}
    && forall id :: id in sys.ctxs ==> sys.ctxs[id].stage == ReadyStage || sys.ctxs[id].stage == InvalidStage
  }

  /** The key material belongs to the two ephemeral keys of the context. */
  ghost predicate Derived(s: Suite, c: Ctx)
    requires Sized(s)
  {
    && c.myPubE == s.ephPub(c.myPrivE) && |c.theirPubE| == 32
    && c.clientKey == Kdf(s, 48, s.dh(c.theirPubE, c.myPrivE), Client)
  }

  ghost predicate CtxOk(s: Suite, c: Ctx)
    requires Sized(s)
  {
    && (c.stage == Message1Done ==> c.myPubE == s.ephPub(c.myPrivE))
    && (c.stage == Message2Done ==> Derived(s, c))
  }

  ghost predicate Inv(s: Suite, sys: System)
    requires Sized(s)
  {
    && (forall id :: id in sys.ctxs ==> CtxOk(s, sys.ctxs[id]))
    && (forall g :: g in sys.log ==> Derived(s, g.signer))
  }

  /** Every step keeps what is known of its context. */
  lemma StepKeepsCtx(s: Suite, c: Ctx, op: Op)
    requires Sized(s) && WellSized(op) && CtxOk(s, c)
    ensures CtxOk(s, Next(s, c, op))
    ensures Signs(s, c, op) ==> Derived(s, Midway(s, c, op))
    ensures Accepts(s, c, op) ==> Derived(s, Midway(s, c, op)) && KeyMaterial(s, c, op) == Midway(s, c, op).clientKey
  {
    hide Sized, Kdf, ConfCrypt, Wiped;
  }

  lemma StepKeeps(s: Suite, sys: System, id: nat, op: Op)
    requires Sized(s) && WellSized(op) && id in sys.ctxs && Inv(s, sys)
    ensures Inv(s, Step(s, sys, id, op))
  {
    hide Sized, CtxOk, Derived, Next, Midway, Signs, Accepts;
    StepKeepsCtx(s, sys.ctxs[id], op);
  }

  lemma {:induction false} InvBefore(s: Suite, honest: set<Octets>, sys: System, run: seq<Event>, i: nat)
    requires Sized(s) && Fair(s, honest, sys, run) && i < |run| && Inv(s, sys)
    ensures var at := Before(s, honest, sys, run, i);
            && Inv(s, at) && WellSized(run[i].op) && run[i].id in at.ctxs
            && Unforged(s, honest, at, run[i].id, run[i].op)
    decreases i
  {
    hide Sized, Inv, Step, Unforged;
    if i > 0 {
      StepKeeps(s, sys, run[0].id, run[0].op);
      InvBefore(s, honest, Step(s, sys, run[0].id, run[0].op), run[1..], i - 1);
    }
  }

  /** A context and the signer of a signature that covers it derived the same key material. */
  lemma SameKeys(s: Suite, c: Ctx, g: Signature)
    requires Sized(s) && Commuting(s) && Derived(s, c) && Derived(s, g.signer) && Covers(g, c)
    ensures g.signer.clientKey == c.clientKey
  {
    hide Sized, Commuting, Kdf;
    var d := g.signer;
    SizedAt(s, c.myPrivE, [], 0);
    SizedAt(s, d.myPrivE, [], 0);
    assert Transcript(d)[..32] == d.myPubE && Transcript(d)[32..] == d.theirPubE;
    assert (c.theirPubE + c.myPubE)[..32] == c.theirPubE && (c.theirPubE + c.myPubE)[32..] == c.myPubE;
    CommutingAt(s, d.myPrivE, c.myPrivE);
  }

  /** In every run from a fresh system, whatever the schedule and the delivered messages, a party that accepts under an
      honest partner key holds the key material that the partner had derived when it signed. */
  lemma Agreement(s: Suite, honest: set<Octets>, sys: System, run: seq<Event>, i: nat)
    requires Sized(s) && Commuting(s) && Initial(sys) && Fair(s, honest, sys, run) && i < |run|
    ensures var at := Before(s, honest, sys, run, i);
            && run[i].id in at.ctxs && WellSized(run[i].op)
            && var c := at.ctxs[run[i].id];
            (Accepts(s, c, run[i].op) && c.theirPub in honest ==>
              exists g :: g in at.log && g.pub == c.theirPub && g.signer.clientKey == KeyMaterial(s, c, run[i].op))
  {
    hide Sized, Commuting, Derived, Midway, Accepts, Covers;
    assert Inv(s, sys);
    InvBefore(s, honest, sys, run, i);
    var at := Before(s, honest, sys, run, i);
    var op := run[i].op;
    var c := at.ctxs[run[i].id];
    if Accepts(s, c, op) && c.theirPub in honest {
      var g :| g in at.log && Covers(g, Midway(s, c, op));
      StepKeepsCtx(s, c, op);
      SameKeys(s, Midway(s, c, op), g);
      SamePartner(s, c, op, g);
    }
  }

  lemma SamePartner(s: Suite, c: Ctx, op: Op, g: Signature)
    requires Sized(s) && WellSized(op) && Covers(g, Midway(s, c, op))
    ensures g.pub == c.theirPub
  {
    hide Sized;
  }

  // The undisturbed exchange.

  /** What is signed with a key pair verifies under its public half. */
  ghost predicate Genuine(s: Suite, k: PrivKey) {
    forall m :: s.verify(k.pub, m, s.sign(k, m))
  }

  /** A confidential message is undone by the same key at the same counter. */
  lemma ConfTwice(s: Suite, k: Kck, data: Octets)
    requires Sized(s) && |data| == 64 && k.ctr == 0
    ensures |ConfCrypt(s, k, data).0| == 64 && ConfCrypt(s, k, ConfCrypt(s, k, data).0).0 == data
  {
    hide Sized, XorBytes;
    SizedAt(s, k.schedule, [], 0);
    XorBytesUndone(data, s.stream(k.schedule, 0));
  }

  /** Responder and initiator derive each other's confirmation keys and the same key material. */
  lemma CrossedKeys(s: Suite, a: Ctx, b: Ctx, z: Octets)
    requires Sized(s) && a.party == Initiator && b.party == Responder
    ensures var c, d := Derive(s, a, z), Derive(s, b, z);
            && c.myKck == d.theirKck && c.theirKck == d.myKck && c.clientKey == d.clientKey && |c.clientKey| == 48
            && c.myKck.ctr == 0 && c.theirKck.ctr == 0
  {
    hide Sized, Kdf;
    LengthOfKdf(s, 24, z, Initiator);
    LengthOfKdf(s, 24, z, Responder);
    LengthOfKdf(s, 48, z, Client);
  }

  /** Messages delivered as sent: every step succeeds, both sides get the same key material and are ready again. */
  lemma Undisturbed(s: Suite, a: Ctx, b: Ctx, ra: Octets, rb: Octets)
    requires Sized(s) && Commuting(s) && a.stage == ReadyStage && b.stage == ReadyStage
    requires a.theirPub == b.myPriv.pub && b.theirPub == a.myPriv.pub
    requires Genuine(s, a.myPriv) && Genuine(s, b.myPriv)
    ensures var (a1, m1) := Initiate(s, a, ra);
            && m1.Ok? && |m1.value| == 32
            && var (b1, m2) := Respond(s, b, m1.value, rb);
            && m2.Ok? && |m2.value| == 96
            && var (a2, m3) := ResponseAck(s, a1, m2.value);
            && m3.Ok? && |m3.value.0| == 64
            && var (b2, done) := Finish(s, b1, m3.value.0);
            && done.Ok? && done.value == m3.value.1 && |done.value| == 48
            && a2.stage == ReadyStage && b2.stage == ReadyStage
  {
    hide Sized, Commuting, ConfCrypt, Derive, Genuine;
    var z := s.dh(s.ephPub(rb), ra);
    CommutingAt(s, ra, rb);
    SizedAt(s, ra, [], 0);
    SizedAt(s, rb, [], 0);
    var a1 := Initiate(s, a, ra).0;
    var b0 := b.(party := Responder, myPrivE := rb, myPubE := s.ephPub(rb), theirPubE := s.ephPub(ra));
    var a0 := a1.(theirPubE := s.ephPub(rb));
    CrossedKeys(s, a0, b0, z);
    KeepsRest(s, a0, z);
    KeepsRest(s, b0, z);
    var da, db := Derive(s, a0, z), Derive(s, b0, z);
    var sigB := s.sign(b.myPriv, Transcript(db));
    var sigA := s.sign(a.myPriv, Transcript(da));
    SignatureSize(s, b.myPriv, Transcript(db));
    SignatureSize(s, a.myPriv, Transcript(da));
    ConfTwice(s, db.myKck, sigB);
    ConfTwice(s, da.myKck, sigA);
    GenuineAt(s, b.myPriv, Transcript(db));
    GenuineAt(s, a.myPriv, Transcript(da));
    var m2 := s.ephPub(rb) + ConfCrypt(s, db.myKck, sigB).0;
    assert m2[..32] == s.ephPub(rb) && m2[32..] == ConfCrypt(s, db.myKck, sigB).0;
  }

  lemma GenuineAt(s: Suite, k: PrivKey, m: Octets)
    requires Genuine(s, k)
    ensures s.verify(k.pub, m, s.sign(k, m))
  {
  }

  lemma KeepsRest(s: Suite, c: Ctx, z: Octets)
    requires Sized(s)
    ensures var d := Derive(s, c, z);
            && d.myPub == c.myPub && d.myPriv == c.myPriv && d.theirPub == c.theirPub && d.stage == c.stage
            && d.myPubE == c.myPubE && d.theirPubE == c.theirPubE && d.myPrivE == c.myPrivE
  {
    hide Sized, Kdf;
  }

  // Rejected messages, with the confidential channel as it is.

  /** The keystream and the counters of a confidential message are those of the channel, under the cipher that belongs
      to an expanded key. */
  ghost predicate UsesChannel(s: Suite, cipher: Octets -> Cipher) {
    && (forall k, c :: s.stream(k, c) == ConfChannel.Text(cipher(k), c, 0, Zeros(64)))
    && (forall c :: s.next(c) == ConfChannel.Next(c, 0, 64))
  }

  lemma UsesAt(s: Suite, cipher: Octets -> Cipher, k: Octets, c: nat)
    requires UsesChannel(s, cipher)
    ensures s.stream(k, c) == ConfChannel.Text(cipher(k), c, 0, Zeros(64)) && s.next(c) == ConfChannel.Next(c, 0, 64)
  {
  }

  /** Bytes in counter mode are the bytes added to what zeros become. */
  lemma TextIsXor(e: Cipher, ctr: nat, data: Octets)
    requires |data| == 64
    ensures var zeros := ConfChannel.Text(e, ctr, 0, Zeros(64));
            |zeros| == 64 && ConfChannel.Text(e, ctr, 0, data) == XorBytes(data, zeros)
  {
    hide Modes.CtrRun, Modes.IncPow, Modes.CtrKey, Xor8;
    var c := ConfChannel.Start(ctr);
    Modes.CtrIs(e, ConfChannel.GecInc, c, 0, data);
    Modes.CtrIs(e, ConfChannel.GecInc, c, 0, Zeros(64));
    forall i | 0 <= i < 64
      ensures Xor8(0, Modes.CtrKey(e, ConfChannel.GecInc, c, i)) == Modes.CtrKey(e, ConfChannel.GecInc, c, i)
    {
      Xor8Laws(Modes.CtrKey(e, ConfChannel.GecInc, c, i), 0, 0);
    }
  }

  /** What the exchange does with a confirmation key is what a call on the channel's key does. */
  lemma ConfCryptIs(s: Suite, cipher: Octets -> Cipher, k: Kck, data: Octets)
    requires Sized(s) && UsesChannel(s, cipher) && |data| == 64
    ensures ConfCrypt(s, k, data).1 == k.(ctr := ConfChannel.Advance(k.ctr, 0, 64).0)
    ensures ConfChannel.Code(k.ctr, 64) == 0 ==>
      ConfCrypt(s, k, data).0 == ConfChannel.Text(cipher(k.schedule), k.ctr, 0, data)
  {
    hide Sized, UsesChannel, ConfChannel.Text, ConfChannel.Next, XorBytes;
    UsesAt(s, cipher, k.schedule, k.ctr);
    TextIsXor(cipher(k.schedule), k.ctr, data);
  }

  /** A rejected last message leaves the responder waiting, its context as it was but for the counter of its partner's
      confirmation key, which is the settled one from every start that is not refused. A retry is decrypted at a
      different counter exactly when the rejected attempt was decrypted and was not already at the settled one. */
  lemma RejectedFinish(s: Suite, cipher: Octets -> Cipher, c: Ctx, msg3: Octets)
    requires Sized(s) && UsesChannel(s, cipher) && |msg3| == 64 && c.stage == Message2Done
    requires Finish(s, c, msg3).1.Fail?
    ensures var c1 := Finish(s, c, msg3).0;
            var refused := ConfChannel.RollsOver(c.theirKck.ctr, 64);
            && c1 == c.(theirKck := c.theirKck.(ctr := if refused then c.theirKck.ctr else ConfChannel.SETTLED))
            && (c1.theirKck.ctr != c.theirKck.ctr <==> !refused && c.theirKck.ctr != ConfChannel.SETTLED)
  {
    hide Sized, UsesChannel, ConfChannel.Next, ConfCrypt;
    ConfCryptIs(s, cipher, c.theirKck, msg3);
    if !ConfChannel.RollsOver(c.theirKck.ctr, 64) {
      ConfChannel.AfterMessage(c.theirKck.ctr);
    }
  }

  /** The context after a sequence of last messages. */
  function Attempts(s: Suite, c: Ctx, msgs: seq<Octets>): Ctx
    requires Sized(s) && ConfChannel.Fixed64(msgs)
    decreases |msgs|
  {
    if |msgs| == 0 then c else Finish(s, Attempts(s, c, msgs[..|msgs| - 1]), msgs[|msgs| - 1]).0
  }

  ghost predicate AllRejected(s: Suite, c: Ctx, msgs: seq<Octets>)
    requires Sized(s) && ConfChannel.Fixed64(msgs)
  {
    forall i :: 0 <= i < |msgs| ==> Finish(s, Attempts(s, c, msgs[..i]), msgs[i]).1.Fail?
  }

  lemma {:induction false} AfterRejections(s: Suite, cipher: Octets -> Cipher, c: Ctx, msgs: seq<Octets>)
    requires Sized(s) && UsesChannel(s, cipher) && ConfChannel.Fixed64(msgs) && c.stage == Message2Done
    requires !ConfChannel.RollsOver(c.theirKck.ctr, 64) && AllRejected(s, c, msgs)
    ensures Attempts(s, c, msgs)
         == if |msgs| == 0 then c else c.(theirKck := c.theirKck.(ctr := ConfChannel.SETTLED))
    decreases |msgs|
  {
    hide Sized, UsesChannel, Finish;
    if |msgs| > 0 {
      var n := |msgs| - 1;
      forall i | 0 <= i < n
        ensures msgs[..n][..i] == msgs[..i]
      {
      }
      AfterRejections(s, cipher, c, msgs[..n]);
      RejectedFinish(s, cipher, Attempts(s, c, msgs[..n]), msgs[n]);
    }
  }

  /** What a waiting responder accepts: the first attempt is read with the keystream of its first counter, and every
      attempt after a rejection, however many there were, with the keystream of the settled counter. */
  lemma RetryAccepts(s: Suite, cipher: Octets -> Cipher, c: Ctx, msgs: seq<Octets>, again: Octets)
    requires Sized(s) && UsesChannel(s, cipher) && ConfChannel.Fixed64(msgs) && |again| == 64 && c.stage == Message2Done
    requires !ConfChannel.RollsOver(c.theirKck.ctr, 64) && AllRejected(s, c, msgs)
    ensures var ctr := if |msgs| == 0 then c.theirKck.ctr else ConfChannel.SETTLED;
            Finish(s, Attempts(s, c, msgs), again).1.Ok?
            <==> s.verify(c.theirPub, c.theirPubE + c.myPubE,
                          ConfChannel.Text(cipher(c.theirKck.schedule), ctr, 0, again))
  {
    hide Sized, UsesChannel, AllRejected, Attempts, ConfChannel.Text, ConfChannel.Next, ConfCrypt;
    AfterRejections(s, cipher, c, msgs);
    ConfCryptIs(s, cipher, Attempts(s, c, msgs).theirKck, again);
  }

  /** A waiting responder's partner key has its first counter or the settled one. */
  ghost predicate CounterOk(c: Ctx) {
    c.stage == Message2Done ==> c.theirKck.ctr == 0 || c.theirKck.ctr == ConfChannel.SETTLED
  }

  lemma FreshCounters(s: Suite, c: Ctx, z: Octets)
    requires Sized(s)
    ensures Derive(s, c, z).myKck.ctr == 0 && Derive(s, c, z).theirKck.ctr == 0 && Derive(s, c, z).stage == c.stage
  {
    hide Sized, Kdf;
  }

  lemma FinishKeepsCounter(s: Suite, cipher: Octets -> Cipher, c: Ctx, msg3: Octets)
    requires Sized(s) && UsesChannel(s, cipher) && |msg3| == 64 && CounterOk(c)
    ensures CounterOk(Finish(s, c, msg3).0)
  {
    hide Sized, UsesChannel, ConfCrypt;
    if c.stage == Message2Done && Finish(s, c, msg3).1.Fail? {
      RejectedFinish(s, cipher, c, msg3);
    }
  }

  lemma StepKeepsCounter(s: Suite, cipher: Octets -> Cipher, c: Ctx, op: Op)
    requires Sized(s) && UsesChannel(s, cipher) && WellSized(op) && CounterOk(c)
    ensures CounterOk(Next(s, c, op))
  {
    hide Sized, UsesChannel, Derive, ConfCrypt, Wiped;
    match op
    case DoRespond(msg1, random) =>
      var c1 := c.(party := Responder, myPrivE := random, myPubE := s.ephPub(random), theirPubE := msg1);
      FreshCounters(s, c1, s.dh(c1.theirPubE, c1.myPrivE));
    case DoAck(msg2) =>
      var c1 := c.(theirPubE := msg2[..32]);
      FreshCounters(s, c1, s.dh(c1.theirPubE, c1.myPrivE));
    case DoFinish(msg3) => FinishKeepsCounter(s, cipher, c, msg3);
    case _ =>
  }

  /** In every run, from a fresh system in particular, every responder that waits for the last message has the counter 0
      or the settled one, so that no message to it is ever refused for rollover. */
  lemma {:induction false} CountersBefore(s: Suite, cipher: Octets -> Cipher, honest: set<Octets>, sys: System,
                                          run: seq<Event>, i: nat, id: nat)
    requires Sized(s) && UsesChannel(s, cipher) && Fair(s, honest, sys, run) && i < |run|
    requires forall k :: k in sys.ctxs ==> CounterOk(sys.ctxs[k])
    ensures var at := Before(s, honest, sys, run, i);
            id in at.ctxs ==>
              && CounterOk(at.ctxs[id])
              && (at.ctxs[id].stage == Message2Done ==> !ConfChannel.RollsOver(at.ctxs[id].theirKck.ctr, 64))
    decreases i
  {
    hide Sized, UsesChannel, Next, Signs, Midway, Unforged;
    if i > 0 {
      StepKeepsCounter(s, cipher, sys.ctxs[run[0].id], run[0].op);
      CountersBefore(s, cipher, honest, Step(s, sys, run[0].id, run[0].op), run[1..], i - 1, id);
    }
  }

  // Rejected second messages.

  /** The initiator after a sequence of second messages. */
  function AckAttempts(s: Suite, c: Ctx, msgs: seq<Octets>): Ctx
    requires Sized(s) && forall i :: 0 <= i < |msgs| ==> |msgs[i]| == 96
    decreases |msgs|
  {
    if |msgs| == 0 then c else ResponseAck(s, AckAttempts(s, c, msgs[..|msgs| - 1]), msgs[|msgs| - 1]).0
  }

  /** A rejection changes only what the next attempt overwrites. */
  lemma AckAfterRejection(s: Suite, c: Ctx, msg2: Octets, again: Octets)
    requires Sized(s) && |msg2| == |again| == 96 && ResponseAck(s, c, msg2).1.Fail?
    ensures ResponseAck(s, ResponseAck(s, c, msg2).0, again) == ResponseAck(s, c, again)
  {
    hide Sized, Kdf, ConfCrypt, InitConf, Reset;
    if c.stage == Message1Done {
      SameDerivation(s, c, ResponseAck(s, c, msg2).0, again[..32]);
    }
  }

  lemma SameDerivation(s: Suite, c: Ctx, d: Ctx, pub: Octets)
    requires Sized(s)
    requires d == c.(theirPubE := d.theirPubE, myKck := d.myKck, theirKck := d.theirKck, clientKey := d.clientKey)
    ensures var z := s.dh(pub, c.myPrivE);
            Derive(s, d.(theirPubE := pub), z) == Derive(s, c.(theirPubE := pub), z)
  {
    hide Sized, Kdf, InitConf;
  }

  /** After any number of rejected second messages the initiator answers the next one as it would have at first. */
  lemma {:induction false} AckAfterRejections(s: Suite, c: Ctx, msgs: seq<Octets>, again: Octets)
    requires Sized(s) && (forall i :: 0 <= i < |msgs| ==> |msgs[i]| == 96) && |again| == 96
    requires forall i :: 0 <= i < |msgs| ==> ResponseAck(s, AckAttempts(s, c, msgs[..i]), msgs[i]).1.Fail?
    ensures ResponseAck(s, AckAttempts(s, c, msgs), again) == ResponseAck(s, c, again)
    decreases |msgs|
  {
    hide Sized, ResponseAck;
    if |msgs| > 0 {
      var n := |msgs| - 1;
      forall i | 0 <= i < n
        ensures msgs[..n][..i] == msgs[..i]
      {
      }
      AckAfterRejections(s, c, msgs[..n], again);
      AckAfterRejection(s, AckAttempts(s, c, msgs[..n]), msgs[n], again);
    }
  }
}
