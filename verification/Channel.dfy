/** The GEC channel: authenticated encryption of fixed-size messages under a counter and a salt. */
module Channel {
  import opened GfBlock
  import opened Ghash
  import opened GcmSpec
  import opened GcmCtx
  import opened Words
  import opened Counters

  const SUCCESS: int := 0
  const DECRYPT_AUTH_FAILED: int := 3
  const COUNTER_ROLLOVER: int := 4
  const ENCRYPT_AUTH_FAILED: int := 5

  const PT_LEN: nat := 64
  const CT_LEN: nat := 80
  const TAG_LEN: nat := 12

  /** The number of messages one key can send. */
  const LIMIT: nat := 0xffff_fff0

  // Counters as bytes.

  /** Writes a counter, low byte last. */
  method WriteWord32(ctr0: nat) returns (buf: seq<bv8>)
    ensures buf == Be(4, ctr0)
  {
    hide Low8;
    buf := [];
    var ctr, i := ctr0, 3;
    while i >= 0
      invariant -1 <= i <= 3 && Be(4, ctr0) == Be(i + 1, ctr) + buf
    {
      buf := [Low8(ctr)] + buf;
      ctr, i := ctr / 256, i - 1;
    }
  }

  /** Reads a counter as the code does: it shifts once more after the last byte. */
  method ReadWord32(buf: seq<bv8>) returns (ctr: nat)
    requires |buf| == 4
    ensures ctr == 256 * BeValue(buf) % TWO32
  {
    hide Number8;
    ctr := 0;
    var i := 0;
    assert buf[..0] == [];
    while i < 4
      invariant 0 <= i <= 4 && ctr == 256 * BeValue(buf[..i]) % TWO32
    {
      assert buf[..i + 1][..i] == buf[..i];
      ReadStep(BeValue(buf[..i]), Number8(buf[i]), ctr);
      ctr := (ctr + Number8(buf[i])) * 256 % TWO32;
      i := i + 1;
    }
    assert buf[..4] == buf;
  }

  lemma ReadStep(v: nat, d: nat, ctr: nat)
    requires ctr == 256 * v % TWO32
    ensures (ctr + d) * 256 % TWO32 == 256 * (256 * v + d) % TWO32
  {
    var q := 256 * v / TWO32;
    assert 256 * v == TWO32 * q + ctr;
    assert 256 * (256 * v + d) == TWO32 * (256 * q) + (ctr + d) * 256;
    Shifted((ctr + d) * 256, 256 * q);
  }

  lemma Shifted(x: int, k: int)
    ensures (TWO32 * k + x) % TWO32 == x % TWO32
  {
  }

  /** What is read back from a written counter is the counter only when it is zero. */
  lemma ReadBack(c: nat)
    requires c < TWO32
    ensures 256 * BeValue(Be(4, c)) % TWO32 == 256 * c % TWO32
    ensures 256 * c % TWO32 == c <==> c == 0
  {
    hide Be, BeValue;
    WordRange();
    BeValueOfBe(4, c);
  }

  /** The initialisation vector of message number `c`. */
  function Iv(salt: seq<bv8>, c: nat): (iv: seq<bv8>)
    requires |salt| == 8
    ensures |iv| == 12
  {
    Be(4, c) + salt
  }

  /** Message number `c` as it travels: counter, ciphertext, truncated tag. */
  ghost function Message(e: Cipher, salt: seq<bv8>, c: nat, pt: seq<bv8>): seq<bv8>
    requires |salt| == 8
  {
    var sealed := Sealed(e, Iv(salt, c), [], pt);
    Be(4, c) + sealed.0 + sealed.1[..TAG_LEN]
  }

  /** The guard of `gec_encrypt`: `UINT32_MAX` less the block term, which is 15 for every multiple of the block size. */
  predicate Exhausted(ctr: nat) {
    0xffff_ffff - (PT_LEN + 16 - 1) % 16 <= ctr
  }

  class SymKey {
    const gctx: Context
    const salt: seq<bv8>
    var ctr: nat

    ghost predicate Valid()
      reads this, gctx, gctx.key, gctx.key.table
    {
      gctx.Ready() && |salt| == 8 && ctr < TWO32
    }

    /** Keys the cipher with the first sixteen bytes and keeps the rest as salt. */
    constructor InitConfAuth(rawkey: seq<bv8>, aes: seq<bv8> -> Cipher)
      requires |rawkey| == 24
      ensures Valid() && ctr == 0 && gctx.e == aes(rawkey[..16]) && salt == rawkey[16..] && fresh(gctx)
    {
      var g := new Context.InitAndKey(aes(rawkey[..16]));
      gctx := g;
      salt := rawkey[16..];
      ctr := 0;
    }

    method Encrypt(pt: seq<bv8>, a: (bool, bool, bool)) returns (ret: int, ct: seq<bv8>)
      requires Valid() && |pt| == PT_LEN
      modifies this, gctx
      ensures Valid()
      ensures Exhausted(old(ctr)) ==> ret == COUNTER_ROLLOVER && unchanged(this, gctx)
      ensures !Exhausted(old(ctr)) ==>
        ret == SUCCESS && ctr == old(ctr) + 1 && ct == Message(gctx.e, salt, ctr, pt)
      ensures ctr == Step(old(ctr)).1 && (ret == SUCCESS <==> Step(old(ctr)).0.Sent?)
    {
      hide SealedFrom, StartOf, Context.Ready, Be;
      ct := [];
      if 0xffff_ffff - (PT_LEN + 16 - 1) % 16 <= ctr {
        ret := COUNTER_ROLLOVER;
      } else {
        ctr := ctr + 1;
        var word := WriteWord32(ctr);
        var iv := word + salt;
        var body := new bv8[PT_LEN](i requires 0 <= i < PT_LEN => pt[i]);
        assert body[..] == pt;
        StandardStart(HashKeyOf(gctx.e), iv);
        var gcmRet, tag := EncryptMessage(gctx, iv, [], body, TAG_LEN, a);
        if gcmRet == GOOD {
          ct := word + body[..] + tag;
          ret := SUCCESS;
        } else {
          ret := ENCRYPT_AUTH_FAILED;
        }
      }
    }

    method Decrypt(ct: seq<bv8>, a: (bool, bool, bool)) returns (ret: int, pt: seq<bv8>)
      requires Valid() && |ct| == CT_LEN
      modifies this, gctx
      ensures Valid()
      ensures var h := HashKeyOf(gctx.e);
              var j0 := PreCounter(h, ct[..4] + salt);
              var good := ct[68..] == Tag(gctx.e, h, j0, [], ct[4..68])[..TAG_LEN];
              && ret == (if good then SUCCESS else DECRYPT_AUTH_FAILED)
              && pt == (if good then Crypt(gctx.e, j0, 0, ct[4..68]) else Zeros(PT_LEN))
              && ctr == (if good then 256 * BeValue(ct[..4]) % TWO32 else old(ctr))
    {
      hide Tag, Crypt, PreCounter, StartOf, Context.Ready, BeValue;
      var theirCounter := ReadWord32(ct[..4]);
      var iv := ct[..4] + salt;
      var body := new bv8[PT_LEN](i requires 0 <= i < PT_LEN => ct[4 + i]);
      assert body[..] == ct[4..68];
      StandardStart(HashKeyOf(gctx.e), iv);
      var gcmRet := DecryptMessage(gctx, iv, [], body, ct[68..], a);
      if gcmRet == GOOD {
        ret := SUCCESS;
        pt := body[..];
        ctr := theirCounter;
      } else {
        pt := Zeros(PT_LEN);
        ret := DECRYPT_AUTH_FAILED;
      }
    }
  }

  /** What a peer with the same key accepts from any message sent, whatever either counter is. The peer may be the
      sender itself. */
  method Deliver(sender: SymKey, receiver: SymKey, pt: seq<bv8>, a: (bool, bool, bool), b: (bool, bool, bool))
    returns (ret: int, got: seq<bv8>)
    requires sender.Valid() && receiver.Valid()
    requires sender.gctx.e == receiver.gctx.e && sender.salt == receiver.salt
    requires |pt| == PT_LEN && !Exhausted(sender.ctr)
    modifies sender, sender.gctx, receiver, receiver.gctx
    ensures ret == SUCCESS && got == pt && sender.Valid() && receiver.Valid()
    ensures receiver.ctr == 256 * (old(sender.ctr) + 1) % TWO32
    ensures sender != receiver ==> sender.ctr == old(sender.ctr) + 1
  {
    hide Tag, Crypt, PreCounter, Context.Ready, Be, BeValue;
    var _, ct := sender.Encrypt(pt, a);
    Parts(sender.gctx.e, sender.salt, sender.ctr, pt);
    ReadBack(sender.ctr);
    CryptTwice(sender.gctx.e, PreCounter(HashKeyOf(sender.gctx.e), Iv(sender.salt, sender.ctr)), 0, pt);
    ret, got := receiver.Decrypt(ct, b);
  }

  /** Any number of messages from one key to another, up to what the sender's counter allows. */
  method DeliverAll(sender: SymKey, receiver: SymKey, pts: seq<seq<bv8>>, a: (bool, bool, bool), b: (bool, bool, bool))
    returns (got: seq<seq<bv8>>)
    requires sender.Valid() && receiver.Valid() && sender != receiver
    requires sender.gctx.e == receiver.gctx.e && sender.salt == receiver.salt
    requires (forall i :: 0 <= i < |pts| ==> |pts[i]| == PT_LEN) && sender.ctr + |pts| <= LIMIT
    modifies sender, sender.gctx, receiver, receiver.gctx
    ensures got == pts && sender.Valid() && receiver.Valid() && sender.ctr == old(sender.ctr) + |pts|
  {
    hide Context.Ready;
    got := [];
    while |got| < |pts|
      invariant |got| <= |pts| && got == pts[..|got|] && sender.Valid() && receiver.Valid()
      invariant sender.ctr == old(sender.ctr) + |got|
    {
      var _, pt := Deliver(sender, receiver, pts[|got|], a, b);
      got := got + [pt];
    }
  }

  /** A message taken apart. */
  lemma Parts(e: Cipher, salt: seq<bv8>, c: nat, pt: seq<bv8>)
    requires |salt| == 8 && |pt| == PT_LEN
    ensures var ct := Message(e, salt, c, pt);
            var sealed := Sealed(e, Iv(salt, c), [], pt);
            |ct| == CT_LEN && ct[..4] == Be(4, c) && ct[4..68] == sealed.0 && ct[68..] == sealed.1[..TAG_LEN]
  {
    hide Tag, PreCounter, Keystream, Be;
  }

  // Runs of encryptions.

  datatype Event = Sent(counter: nat) | Refused

  /** One call of `Encrypt` as it acts on the counter. */
  function Step(ctr: nat): (Event, nat) {
    if Exhausted(ctr) then (Refused, ctr) else (Sent(ctr + 1), ctr + 1)
  }

  /** The events of `n` calls. */
  function Run(ctr: nat, n: nat): (r: seq<Event>)
    ensures |r| == n
    decreases n, ctr
  {
    if n == 0 then [] else [Step(ctr).0] + Run(Step(ctr).1, n - 1)
  }

  /** On a fresh key call number `i` sends with counter `i + 1` as long as fewer than `LIMIT` calls were made, and every
      later call is refused. */
  lemma {:induction false} RunIs(ctr: nat, n: nat, i: nat)
    requires i < n && ctr <= LIMIT
    ensures Run(ctr, n)[i] == if ctr + i < LIMIT then Sent(ctr + i + 1) else Refused
    decreases n
  {
    if i > 0 {
      RunIs(Step(ctr).1, n - 1, i - 1);
    }
  }

  /** Any number of calls on a fresh key: the events are the run from zero, and what a call sends is the message under
      the counter of its event. */
  method EncryptAll(rawkey: seq<bv8>, aes: seq<bv8> -> Cipher, pts: seq<seq<bv8>>, a: seq<(bool, bool, bool)>)
    returns (events: seq<Event>, cts: seq<seq<bv8>>)
    requires |rawkey| == 24 && |a| == |pts| && forall i :: 0 <= i < |pts| ==> |pts[i]| == PT_LEN
    ensures events == Run(0, |pts|) && |cts| == |pts|
    ensures forall i :: 0 <= i < |pts| && events[i].Sent? ==>
      cts[i] == Message(aes(rawkey[..16]), rawkey[16..], events[i].counter, pts[i])
  {
    hide Message, Run, Context.Ready;
    var k := new SymKey.InitConfAuth(rawkey, aes);
    events, cts := [], [];
    var i := 0;
    while i < |pts|
      invariant 0 <= i == |events| == |cts| <= |pts|
      invariant k.Valid() && k.gctx.e == aes(rawkey[..16]) && k.salt == rawkey[16..]
      invariant events + Run(k.ctr, |pts| - i) == Run(0, |pts|)
      invariant forall j :: 0 <= j < i && events[j].Sent? ==>
        cts[j] == Message(aes(rawkey[..16]), rawkey[16..], events[j].counter, pts[j])
    {
      RunStep(k.ctr, |pts| - i);
      var ret, ct := k.Encrypt(pts[i], a[i]);
      events, cts := events + [if ret == SUCCESS then Sent(k.ctr) else Refused], cts + [ct];
      i := i + 1;
    }
    assert Run(k.ctr, 0) == [] by { NoRun(k.ctr); }
  }

  lemma NoRun(ctr: nat)
    ensures Run(ctr, 0) == []
  {
  }

  lemma RunStep(ctr: nat, n: nat)
    requires n > 0
    ensures Run(ctr, n) == [Step(ctr).0] + Run(Step(ctr).1, n - 1)
  {
  }

  lemma {:induction false} IncNBlocks(j0: Block, k0: Block, m: nat, n: nat)
    requires j0[..12] != k0[..12]
    ensures IncN(j0, m) != IncN(k0, n)
  {
    hide IncN;
    IncNKeepsIv(j0, m);
    IncNKeepsIv(k0, n);
  }

  /** Any two successful calls of a run use different vectors, and no counter block of one is a counter block of the
      other, the block that masks the tag included. */
  lemma NoReuse(h: Block, salt: seq<bv8>, n: nat, i: nat, j: nat, k: nat, m: nat)
    requires |salt| == 8 && i < j < n && Run(0, n)[i].Sent? && Run(0, n)[j].Sent?
    ensures var c, d := Run(0, n)[i].counter, Run(0, n)[j].counter;
            && Iv(salt, c) != Iv(salt, d)
            && IncN(PreCounter(h, Iv(salt, c)), k) != IncN(PreCounter(h, Iv(salt, d)), m)
  {
    hide Be, Run, IncN;
    RunIs(0, n, i);
    RunIs(0, n, j);
    var c, d := i + 1, j + 1;
    WordRange();
    var u, v := Iv(salt, c), Iv(salt, d);
    if u[..4] == v[..4] {
      assert Be(4, c) == u[..4] == v[..4] == Be(4, d);
      BeInjective(4, c, d);
    }
    assert u != v;
    assert PreCounter(h, u)[..12] == u && PreCounter(h, v)[..12] == v;
    IncNBlocks(PreCounter(h, u), PreCounter(h, v), k, m);
  }

  /** How many calls of a run succeed. */
  function Successes(r: seq<Event>): nat {
    if |r| == 0 then 0 else Successes(r[..|r| - 1]) + if r[|r| - 1].Sent? then 1 else 0
  }

  lemma {:induction false} SuccessesUpTo(n: nat, k: nat)
    requires k <= n
    ensures Successes(Run(0, n)[..k]) == if k < LIMIT then k else LIMIT
    decreases k
  {
    hide Run;
    if k > 0 {
      SuccessesUpTo(n, k - 1);
      RunIs(0, n, k - 1);
      assert Run(0, n)[..k][..k - 1] == Run(0, n)[..k - 1];
    }
  }
}
