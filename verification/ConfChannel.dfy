/** Confidentiality-only encryption: counter mode under the counter of the key. */
module ConfChannel {
  import opened GfBlock
  import opened Ghash
  import opened GcmSpec
  import opened Words
  import opened Counters
  import opened Channel
  import Arith
  import Modes

  /** What the code reads from a counter buffer: the number shifted up once too often. */
  function ReadBe(s: seq<bv8>): (v: nat)
    requires |s| == 4
    ensures v < TWO32
  {
    256 * BeValue(s) % TWO32
  }

  /** The counter increment of the channel: read, add one, write. */
  function GecInc(c: Block): (r: Block) {
    Be(4, (ReadBe(c[..4]) + 1) % TWO32) + c[4..]
  }

  predicate RollsOver(ctr: nat, len: nat) {
    ctr >= 0xffff_ffff - (len + 15) % 16
  }

  /** Whole blocks are refused at the last sixteen counters, and whole blocks and `r` more bytes at the last `r`. */
  lemma RefusedFrom(ctr: nat, len: nat)
    ensures len % 16 == 0 ==> (RollsOver(ctr, len) <==> 0xffff_fff0 <= ctr)
    ensures len % 16 > 0 ==> (RollsOver(ctr, len) <==> 0x1_0000_0000 - len % 16 <= ctr)
  {
  }

  /** The counter buffer a call starts from. */
  function Start(ctr: nat): (c: Block) {
    Be(4, ctr) + Zeros(12)
  }

  /** The bytes a call makes from counter `ctr` and remembered position `pos`. */
  function Text(e: Cipher, ctr: nat, pos: nat, data: seq<bv8>): seq<bv8>
    requires pos <= 16
  {
    Modes.CtrRun(e, GecInc, Modes.Settle(GecInc, Start(ctr), pos, []), data).out
  }

  /** The counter read back after a call of `len` bytes. */
  function Next(ctr: nat, pos: nat, len: nat): (r: nat)
    ensures r < TWO32
  {
    ReadBe(Modes.IncPow(GecInc, Start(ctr), Modes.Increments(pos, len))[..4])
  }

  /** Counter and position after a call, which a refusal leaves alone. */
  function Advance(ctr: nat, pos: nat, len: nat): (nat, nat) {
    if RollsOver(ctr, len) then (ctr, pos) else (Next(ctr, pos, len), Modes.Remembers(pos, len))
  }

  function Code(ctr: nat, len: nat): int {
    if RollsOver(ctr, len) then COUNTER_ROLLOVER else SUCCESS
  }

  class SymKeyConf {
    const e: Cipher
    var ctr: nat
    var pos: nat

    ghost predicate Valid()
      reads this
    {
      pos <= 16 && ctr < TWO32
    }

    constructor Init(rawkey: seq<bv8>, aes: seq<bv8> -> Cipher)
      requires |rawkey| == 24
      ensures Valid() && e == aes(rawkey[..16]) && ctr == 0 && pos == 0
    {
      e, ctr, pos := aes(rawkey[..16]), 0, 0;
    }

    /** Encrypts, and decrypts: the two calls are the same. */
    method CryptConf(data: seq<bv8>) returns (ret: int, out: seq<bv8>)
      requires Valid()
      modifies this
      ensures Valid() && ret == Code(old(ctr), |data|) && (ctr, pos) == Advance(old(ctr), old(pos), |data|)
      ensures ret == SUCCESS ==> out == Text(e, old(ctr), old(pos), data)
    {
      hide Be, BeValue, Modes.CtrRun, Modes.IncPow, Modes.Increments, Modes.Remembers;
      if ctr >= 0xffff_ffff - (|data| + 15) % 16 {
        return COUNTER_ROLLOVER, [];
      }
      var word := WriteWord32(ctr);
      var mode := new Modes.Counter(e, GecInc, word + Zeros(12));
      mode.pos := pos;
      out := mode.Crypt(data);
      pos := mode.pos;
      ctr := ReadWord32(mode.cbuf[..4]);
      ret := SUCCESS;
    }
  }

  /** Keys that will produce the same keystream from here on. */
  ghost predicate InStep(a: SymKeyConf, b: SymKeyConf)
    reads a, b
  {
    a != b && a.e == b.e && a.Valid() && a.ctr == b.ctr && a.pos == b.pos
  }

  /** Two keys in the same state undo each other and end in the same state, whatever the counter has become. */
  method Exchange(sender: SymKeyConf, receiver: SymKeyConf, data: seq<bv8>) returns (ret: int, got: seq<bv8>)
    requires InStep(sender, receiver)
    modifies sender, receiver
    ensures InStep(sender, receiver) && (sender.ctr, sender.pos) == Advance(old(sender.ctr), old(sender.pos), |data|)
    ensures ret == Code(old(sender.ctr), |data|) && (ret == SUCCESS ==> got == data)
  {
    hide Be, BeValue, Modes.CtrRun, Advance;
    ghost var s := Modes.Settle(GecInc, Start(sender.ctr), sender.pos, []);
    Modes.CtrTwice(sender.e, GecInc, s.c, s.pos, data);
    var ct;
    ret, ct := sender.CryptConf(data);
    got := [];
    if ret == SUCCESS {
      ret, got := receiver.CryptConf(ct);
    } else {
      Refusal(receiver.ctr, receiver.pos, |data|);
    }
  }

  lemma Refusal(ctr: nat, pos: nat, len: nat)
    requires RollsOver(ctr, len)
    ensures Advance(ctr, pos, len) == (ctr, pos)
  {
  }

  // Any number of messages.

  /** Counter and position after messages of the given contents. */
  function AdvanceAll(ctr: nat, pos: nat, messages: seq<seq<bv8>>): (nat, nat) {
    if |messages| == 0 then (ctr, pos)
    else
      var (c, p) := AdvanceAll(ctr, pos, messages[..|messages| - 1]);
      Advance(c, p, |messages[|messages| - 1]|)
  }

  /** The code of message number `i`. */
  function CodeAt(ctr: nat, pos: nat, messages: seq<seq<bv8>>, i: nat): int
    requires i < |messages|
  {
    Code(AdvanceAll(ctr, pos, messages[..i]).0, |messages[i]|)
  }

  /** For every sequence of messages the receiver recovers each one that is sent, and the keys stay in step. */
  method ExchangeAll(sender: SymKeyConf, receiver: SymKeyConf, messages: seq<seq<bv8>>)
    returns (rets: seq<int>, got: seq<seq<bv8>>)
    requires InStep(sender, receiver)
    modifies sender, receiver
    ensures InStep(sender, receiver)
    ensures (sender.ctr, sender.pos) == AdvanceAll(old(sender.ctr), old(sender.pos), messages)
    ensures |rets| == |got| == |messages|
    ensures forall i :: 0 <= i < |messages| ==> rets[i] == CodeAt(old(sender.ctr), old(sender.pos), messages, i)
    ensures forall i :: 0 <= i < |messages| && rets[i] == SUCCESS ==> got[i] == messages[i]
    ensures old(sender.ctr) % 256 == 0 ==> got == messages
  {
    hide Advance, Code;
    rets, got := [], [];
    ghost var c, p := sender.ctr, sender.pos;
    var i := 0;
    while i < |messages|
      invariant 0 <= i == |rets| == |got| <= |messages| && InStep(sender, receiver)
      invariant (sender.ctr, sender.pos) == AdvanceAll(c, p, messages[..i])
      invariant forall j :: 0 <= j < i ==> rets[j] == CodeAt(c, p, messages, j)
      invariant forall j :: 0 <= j < i && rets[j] == SUCCESS ==> got[j] == messages[j]
    {
      assert messages[..i + 1][..i] == messages[..i];
      var ret, pt := Exchange(sender, receiver, messages[i]);
      rets, got := rets + [ret], got + [pt];
      i := i + 1;
    }
    assert messages[..i] == messages;
    if c % 256 == 0 {
      forall j | 0 <= j < |messages|
        ensures got[j] == messages[j]
      {
        NeverRefused(c, p, messages, j);
      }
    }
  }

  /** What is read back ends in a zero byte. */
  lemma LowByteZero(ctr: nat, pos: nat, len: nat)
    ensures Next(ctr, pos, len) % 256 == 0
  {
    hide Modes.IncPow, BeValue, Be;
    var v := BeValue(Modes.IncPow(GecInc, Start(ctr), Modes.Increments(pos, len))[..4]);
    assert 256 * v % TWO32 == 256 * (v % 0x100_0000);
  }

  lemma {:induction false} AlwaysLowByteZero(ctr: nat, pos: nat, messages: seq<seq<bv8>>)
    requires ctr % 256 == 0
    ensures AdvanceAll(ctr, pos, messages).0 % 256 == 0
    decreases |messages|
  {
    hide Next;
    if |messages| > 0 {
      var n := |messages| - 1;
      AlwaysLowByteZero(ctr, pos, messages[..n]);
      var (c, p) := AdvanceAll(ctr, pos, messages[..n]);
      LowByteZero(c, p, |messages[n]|);
    }
  }

  /** The rollover guard never refuses a message on a key that started at zero, however many were sent. */
  lemma NeverRefused(ctr: nat, pos: nat, messages: seq<seq<bv8>>, i: nat)
    requires ctr % 256 == 0 && ctr < TWO32 && i < |messages|
    ensures CodeAt(ctr, pos, messages, i) == SUCCESS
  {
    hide Next;
    AlwaysLowByteZero(ctr, pos, messages[..i]);
    AllBelow(ctr, pos, messages[..i]);
  }

  lemma {:induction false} AllBelow(ctr: nat, pos: nat, messages: seq<seq<bv8>>)
    requires ctr < TWO32
    ensures AdvanceAll(ctr, pos, messages).0 < TWO32
    decreases |messages|
  {
    hide Next;
    if |messages| > 0 {
      AllBelow(ctr, pos, messages[..|messages| - 1]);
    }
  }

  // The counters of a stream.

  /** The counter word after `k` increments. */
  function Word(c: nat, k: nat): nat
    decreases k
  {
    if k == 0 then c else (256 * Word(c, k - 1) + 1) % TWO32
  }

  /** The last `n` bytes of a counter are all one. */
  predicate EndsInOnes(c: nat, n: nat)
    decreases n
  {
    n == 0 || (c % 256 == 1 && EndsInOnes(c / 256, n - 1))
  }

  /** The counter that its increment leaves as it is. */
  const FIXED: nat := 0x0101_0101

  /** Increments act on the first four bytes of the buffer only. */
  lemma {:induction false} WordOf(c: nat, k: nat)
    requires c < TWO32
    ensures Word(c, k) < TWO32 && Modes.IncPow(GecInc, Start(c), k) == Be(4, Word(c, k)) + Zeros(12)
    decreases k
  {
    hide Be, BeValue;
    if k > 0 {
      WordOf(c, k - 1);
      var w := Word(c, k - 1);
      var b := Be(4, w) + Zeros(12);
      assert b[..4] == Be(4, w) && b[4..] == Zeros(12);
      WordRange();
      BeValueOfBe(4, w);
      OneMore(w);
    }
  }

  lemma OneMore(w: nat)
    ensures (256 * w % TWO32 + 1) % TWO32 == (256 * w + 1) % TWO32
  {
  }

  /** A counter below 2^32 is the fixed one exactly when its four bytes are one. */
  lemma FixedIsOnes(w: nat)
    requires w < TWO32
    ensures w == FIXED <==> EndsInOnes(w, 4)
  {
    assert EndsInOnes(w, 4) <==> w % 256 == 1 && EndsInOnes(w / 256, 3);
    assert EndsInOnes(w / 256, 3) <==> w / 256 % 256 == 1 && EndsInOnes(w / 256 / 256, 2);
    assert EndsInOnes(w / 256 / 256, 2) <==> w / 256 / 256 % 256 == 1 && w / 256 / 256 / 256 % 256 == 1;
  }

  /** Bytes that the modulus keeps. */
  lemma {:induction false} OnesKept(w: nat, m: nat, n: nat)
    requires n <= m
    ensures EndsInOnes(w % Exp256(m), n) <==> EndsInOnes(w, n)
    decreases n
  {
    hide Exp256;
    if n > 0 {
      OnesKept(w / 256, m - 1, n - 1);
      LowAndRest(w, m);
    }
  }

  lemma LowAndRest(w: nat, m: nat)
    requires m > 0
    ensures w % Exp256(m) % 256 == w % 256 && w % Exp256(m) / 256 == w / 256 % Exp256(m - 1)
  {
    var e := Exp256(m - 1);
    var q, r := w / 256 / e, w / 256 % e;
    assert w == 256 * (e * q + r) + w % 256;
    assert 256 * (e * q + r) == 256 * e * q + 256 * r;
    Arith.DivModUnique(w, 256 * e, q, 256 * r + w % 256);
  }

  /** An increment appends a byte that is one. */
  lemma OnesShift(w: nat, n: nat)
    requires n <= 3
    ensures EndsInOnes((256 * w + 1) % TWO32, n + 1) <==> EndsInOnes(w, n)
  {
    hide Exp256;
    var m: nat := 3;
    WordRange();
    LowAndRest(256 * w + 1, m + 1);
    OnesKept(w, m, n);
  }

  lemma {:induction false} OnesAfter(c: nat, j: nat, n: nat)
    requires n + j <= 4
    ensures EndsInOnes(Word(c, j), n + j) <==> EndsInOnes(c, n)
    decreases j
  {
    hide EndsInOnes;
    if j > 0 {
      OnesAfter(c, j - 1, n);
      OnesShift(Word(c, j - 1), n + j - 1);
    }
  }

  /** After four increments nothing of the first counter is left. */
  lemma {:induction false} FixedFromFour(c: nat, k: nat)
    requires k >= 4
    ensures Word(c, k) == FIXED
    decreases k
  {
    if k > 4 {
      FixedFromFour(c, k - 1);
    } else {
      OnesAfter(c, k, 0);
      FixedIsOnes(Word(c, k));
    }
  }

  lemma {:induction false} WordAdd(c: nat, j: nat, n: nat)
    ensures Word(Word(c, j), n) == Word(c, j + n)
    decreases n
  {
    if n > 0 {
      WordAdd(c, j, n - 1);
    }
  }

  /** A counter that returns after `n` increments returns after any multiple of `n`. */
  lemma {:induction false} Periodic(c: nat, j: nat, n: nat, m: nat)
    requires Word(c, j) == Word(c, j + n)
    ensures Word(c, j) == Word(c, j + m * n)
    decreases m
  {
    hide Word;
    if m > 0 {
      Periodic(c, j, n, m - 1);
      var k := (m - 1) * n;
      assert j + m * n == (j + n) + k;
      WordAdd(c, j, k);
      WordAdd(c, j + n, k);
    }
  }

  lemma {:induction false} FixedWhen(c: nat, j: nat)
    requires c < TWO32
    ensures Word(c, j) == FIXED <==> j >= 4 || EndsInOnes(c, 4 - j)
  {
    hide EndsInOnes;
    if j >= 4 {
      FixedFromFour(c, j);
    } else {
      OnesAfter(c, j, 4 - j);
      FixedIsOnes(Word(c, j));
    }
  }

  /** The counter blocks of a stream: two of them are the same exactly when the earlier one already holds the fixed
      counter, which the first counter alone decides. */
  lemma BlocksCoincide(c: nat, j: nat, k: nat)
    requires c < TWO32 && j < k
    ensures Modes.IncPow(GecInc, Start(c), j) == Modes.IncPow(GecInc, Start(c), k)
       <==> j >= 4 || EndsInOnes(c, 4 - j)
  {
    hide Be, Word, Modes.IncPow, EndsInOnes;
    WordOf(c, j);
    WordOf(c, k);
    FixedWhen(c, j);
    var b, d := Modes.IncPow(GecInc, Start(c), j), Modes.IncPow(GecInc, Start(c), k);
    if b == d {
      assert b[..4] == Be(4, Word(c, j)) && d[..4] == Be(4, Word(c, k));
      WordRange();
      BeInjective(4, Word(c, j), Word(c, k));
      var n := k - j;
      Periodic(c, j, n, 4);
      FixedFromFour(c, j + 4 * n);
    }
    if Word(c, j) == FIXED {
      StaysFixed(c, j, k);
    }
  }

  lemma {:induction false} StaysFixed(c: nat, j: nat, k: nat)
    requires j <= k && Word(c, j) == FIXED
    ensures Word(c, k) == FIXED
    decreases k
  {
    if j < k {
      StaysFixed(c, j, k - 1);
    }
  }

  /** What is read back after four or more increments, wherever the counter started. */
  const SETTLED: nat := 0x0101_0100

  lemma NextIs(ctr: nat, pos: nat, len: nat)
    requires ctr < TWO32
    ensures Next(ctr, pos, len) == 256 * Word(ctr, Modes.Increments(pos, len)) % TWO32
  {
    hide Be, BeValue, Word, Modes.IncPow;
    var k := Modes.Increments(pos, len);
    WordOf(ctr, k);
    assert Modes.IncPow(GecInc, Start(ctr), k)[..4] == Be(4, Word(ctr, k));
    WordRange();
    BeValueOfBe(4, Word(ctr, k));
  }

  /** Four whole blocks from the start of a block. */
  lemma AfterMessage(ctr: nat)
    requires ctr < TWO32
    ensures Next(ctr, 0, 64) == SETTLED && Modes.Remembers(0, 64) == 0
  {
    hide Next, Word;
    NextIs(ctr, 0, 64);
    FixedFromFour(ctr, 4);
  }

  /** All messages have 64 bytes. */
  ghost predicate Fixed64(messages: seq<seq<bv8>>) {
    forall i :: 0 <= i < |messages| ==> |messages[i]| == 64
  }

  /** On a key at the start of a block, 64-byte messages find the first counter once and then always the same one. */
  lemma {:induction false} MessageCounters(ctr: nat, messages: seq<seq<bv8>>)
    requires ctr < TWO32 && !RollsOver(ctr, 64) && Fixed64(messages)
    ensures AdvanceAll(ctr, 0, messages) == (if |messages| == 0 then ctr else SETTLED, 0)
    decreases |messages|
  {
    hide Next, Modes.Remembers;
    if |messages| > 0 {
      MessageCounters(ctr, messages[..|messages| - 1]);
      AfterMessage(ctr);
      AfterMessage(SETTLED);
    }
  }

  /** Two messages of a run start from the same counter exactly when neither is the first, or the first counter was the
      settled one; they then meet the same keystream. */
  lemma SharedKeystream(e: Cipher, ctr: nat, messages: seq<seq<bv8>>, i: nat, j: nat, data: seq<bv8>)
    requires ctr < TWO32 && !RollsOver(ctr, 64) && Fixed64(messages) && i < j < |messages|
    ensures var (c, p) := AdvanceAll(ctr, 0, messages[..i]);
            var (d, q) := AdvanceAll(ctr, 0, messages[..j]);
            && p == q == 0
            && (c == d <==> i > 0 || ctr == SETTLED)
            && (i > 0 || ctr == SETTLED ==> Text(e, c, p, data) == Text(e, d, q, data))
  {
    hide Text, AdvanceAll;
    MessageCounters(ctr, messages[..i]);
    MessageCounters(ctr, messages[..j]);
  }

  // Counter blocks of different messages.

  /** The last `n` bytes of what an increment makes are the last `n - 1` bytes before it and a one. */
  lemma LastBytes(w: nat, n: nat)
    requires n <= 3
    ensures (256 * w + 1) % TWO32 % Exp256(n + 1) == 256 * (w % Exp256(n)) + 1
  {
    hide Exp256;
    var x := 256 * w + 1;
    LowAndRest(x, n + 1);
    assert x % Exp256(n + 1) == 256 * (w % Exp256(n)) + 1;
    WordRange();
    Exp256Adds(n + 1, 3 - n);
    Arith.ModOfMod(x, Exp256(n + 1), Exp256(3 - n));
  }

  lemma {:induction false} Exp256Adds(m: nat, n: nat)
    ensures Exp256(m + n) == Exp256(m) * Exp256(n)
  {
    if m > 0 {
      Exp256Adds(m - 1, n);
      Arith.Associates(256, Exp256(m - 1), Exp256(n));
    }
  }

  /** After `a` increments counters agree on `n + a` bytes exactly when they agreed on `n` before. */
  lemma {:induction false} AgreeAfter(c: nat, d: nat, a: nat, n: nat)
    requires n + a <= 4
    ensures Word(c, a) % Exp256(n + a) == Word(d, a) % Exp256(n + a) <==> c % Exp256(n) == d % Exp256(n)
    decreases a
  {
    hide Exp256;
    if a > 0 {
      AgreeAfter(c, d, a - 1, n);
      LastBytes(Word(c, a - 1), n + a - 1);
      LastBytes(Word(d, a - 1), n + a - 1);
    }
  }

  lemma WordsAgree(c: nat, d: nat, a: nat)
    requires c < TWO32 && d < TWO32 && a <= 4
    ensures Word(c, a) == Word(d, a) <==> c % Exp256(4 - a) == d % Exp256(4 - a)
  {
    hide Word, Exp256;
    AgreeAfter(c, d, a, 4 - a);
    WordBelow(c, a);
    WordBelow(d, a);
    WordRange();
  }

  lemma WordBelow(c: nat, a: nat)
    requires c < TWO32
    ensures Word(c, a) < TWO32
  {
  }

  /** Blocks are the same exactly when their counter words are. */
  lemma SameBlock(c: nat, d: nat, a: nat, b: nat)
    requires c < TWO32 && d < TWO32
    ensures Modes.IncPow(GecInc, Start(c), a) == Modes.IncPow(GecInc, Start(d), b) <==> Word(c, a) == Word(d, b)
  {
    hide Be, Word, Modes.IncPow;
    WordOf(c, a);
    WordOf(d, b);
    var x, y := Modes.IncPow(GecInc, Start(c), a), Modes.IncPow(GecInc, Start(d), b);
    if x == y {
      assert x[..4] == Be(4, Word(c, a)) && y[..4] == Be(4, Word(d, b));
      WordRange();
      BeInjective(4, Word(c, a), Word(d, b));
    }
  }

  /** The first counter `ctr` makes block `a` of the first message what the settled counter makes block `b` of a later
      one: its last `4 - a` bytes are all one but for a zero at byte `b - a`. */
  predicate Meets(ctr: nat, a: nat, b: nat)
    requires a < 4
  {
    a <= b && ctr % Exp256(4 - a) == Word(SETTLED, b - a) % Exp256(4 - a)
  }

  /** Against a stream from the settled counter. */
  lemma MeetsSettled(ctr: nat, a: nat, b: nat)
    requires ctr < TWO32 && a < 4 && b < 4
    ensures Word(ctr, a) == Word(SETTLED, b) <==> Meets(ctr, a, b)
  {
    hide Word, Exp256;
    if a <= b {
      WordBelow(SETTLED, b - a);
      WordsAgree(ctr, Word(SETTLED, b - a), a);
      WordAdd(SETTLED, b - a, a);
    } else {
      OnesAfter(ctr, a, 0);
      OnesAfter(SETTLED, b, 1);
      FewerOnes(Word(ctr, a), a, b + 1);
    }
  }

  lemma {:induction false} FewerOnes(w: nat, m: nat, n: nat)
    requires EndsInOnes(w, m) && n <= m
    ensures EndsInOnes(w, n)
    decreases n
  {
    if n > 0 {
      FewerOnes(w / 256, m - 1, n - 1);
    }
  }

  /** Counter block `a` of one 64-byte message is counter block `b` of a later one, for every cipher, exactly when the
      first message meets the later one there, or when neither is the first and `a == b`. */
  lemma SharedBlocks(ctr: nat, messages: seq<seq<bv8>>, i: nat, j: nat, a: nat, b: nat)
    requires ctr < TWO32 && !RollsOver(ctr, 64) && Fixed64(messages) && i < j < |messages| && a < 4 && b < 4
    ensures var c, d := AdvanceAll(ctr, 0, messages[..i]).0, AdvanceAll(ctr, 0, messages[..j]).0;
            Modes.IncPow(GecInc, Start(c), a) == Modes.IncPow(GecInc, Start(d), b)
            <==> if i == 0 then Meets(ctr, a, b) else a == b
  {
    hide AdvanceAll, Word, Modes.IncPow, Meets, Start, GecInc, RollsOver;
    MessageCounters(ctr, messages[..i]);
    MessageCounters(ctr, messages[..j]);
    if i == 0 {
      SameBlock(ctr, SETTLED, a, b);
      MeetsSettled(ctr, a, b);
    } else {
      SettledBlocks(a, b);
    }
  }

  lemma SettledBlocks(a: nat, b: nat)
    requires a < 4 && b < 4
    ensures Modes.IncPow(GecInc, Start(SETTLED), a) == Modes.IncPow(GecInc, Start(SETTLED), b) <==> a == b
  {
    hide Modes.IncPow, EndsInOnes, Start, GecInc;
    if a < b {
      BlocksCoincide(SETTLED, a, b);
      NoOnes(4 - a);
    } else if b < a {
      BlocksCoincide(SETTLED, b, a);
      NoOnes(4 - b);
    }
  }

  lemma NoOnes(n: nat)
    requires n > 0
    ensures !EndsInOnes(SETTLED, n)
  {
  }

  /** A counter whose last byte is zero, as every counter that is read back has, meets a later message only at the same
      block, and there exactly when its last `4 - a` bytes are those of the settled counter. */
  lemma MeetsFromZeroByte(ctr: nat, a: nat, b: nat)
    requires ctr % 256 == 0 && a < 4 && b < 4
    ensures Meets(ctr, a, b) <==> a == b && ctr % Exp256(4 - a) == SETTLED % Exp256(4 - a)
  {
    hide Exp256, Word;
    if a < b {
      LowAndRest(ctr, 4 - a);
      LowAndRest(Word(SETTLED, b - a), 4 - a);
      LastByteOne(SETTLED, b - a);
    } else if a == b {
      NoWords(SETTLED);
    }
  }

  lemma LastByteOne(c: nat, k: nat)
    requires k > 0
    ensures Word(c, k) % 256 == 1
  {
    var w := Word(c, k - 1);
    Arith.ModOfMod(256 * w + 1, 256, 0x100_0000);
    Arith.DivModUnique(256 * w + 1, 256, w, 1);
  }

  lemma NoWords(c: nat)
    ensures Word(c, 0) == c
  {
  }

  /** On a fresh key the first message shares its last block with every later message, and no other block. */
  lemma MeetsFromZero(a: nat, b: nat)
    requires a < 4 && b < 4
    ensures Meets(0, a, b) <==> a == 3 && b == 3
  {
    MeetsFromZeroByte(0, a, b);
    assert Exp256(1) == 256 && Exp256(2) == 0x1_0000 && Exp256(3) == 0x100_0000 && Exp256(4) == 0x1_0000_0000;
  }
}
