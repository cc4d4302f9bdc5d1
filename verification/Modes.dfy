/** Block cipher modes that keep their position within a block between calls, for an arbitrary block function. */
module Modes {
  import opened GfBlock
  import opened Ghash
  import opened GcmSpec

  // Feedback modes, byte by byte.

  /** Which byte goes back into the register: the ciphertext made, the ciphertext read, or the keystream itself. */
  datatype Kind = CfbEnc | CfbDec | Ofb

  /** A register with its block already encrypted, its position, and the output so far. */
  datatype State = State(iv: Block, pos: nat, out: seq<bv8>)

  function Back(kind: Kind, k: bv8, x: bv8): bv8 {
    match kind case CfbEnc => Xor8(k, x) case CfbDec => x case Ofb => k
  }

  /** One byte at a position whose keystream is already in the register. */
  function Put(kind: Kind, iv: Block, b: nat, x: bv8): Block
    requires b < 16
  {
    iv[b := Back(kind, iv[b], x)]
  }

  /** The position after `b`. */
  function After(b: nat): (r: nat)
    requires b < 16
    ensures r < 16
  {
    if b == 15 then 0 else b + 1
  }

  /** One byte: at the start of a block the register is encrypted first. */
  function Step(e: Cipher, kind: Kind, s: State, x: bv8): State
    requires s.pos < 16
  {
    var iv := if s.pos == 0 then e(s.iv) else s.iv;
    State(Put(kind, iv, s.pos, x), After(s.pos), s.out + [Xor8(iv[s.pos], x)])
  }

  function Process(e: Cipher, kind: Kind, s: State, data: seq<bv8>): (r: State)
    requires s.pos < 16
    ensures r.pos < 16
  {
    if |data| == 0 then s else Step(e, kind, Process(e, kind, s, data[..|data| - 1]), data[|data| - 1])
  }

  /** Splitting the data over calls changes nothing. */
  lemma {:induction false} ProcessConcat(e: Cipher, kind: Kind, s: State, u: seq<bv8>, v: seq<bv8>)
    requires s.pos < 16
    ensures Process(e, kind, s, u + v) == Process(e, kind, Process(e, kind, s, u), v)
    decreases v
  {
    hide Step;
    if |v| == 0 {
      assert u + v == u;
    } else {
      ProcessConcat(e, kind, s, u, v[..|v| - 1]);
      assert (u + v)[..|u + v| - 1] == u + v[..|v| - 1];
    }
  }

  lemma ProcessByte(e: Cipher, kind: Kind, s: State, data: seq<bv8>, c: nat)
    requires s.pos < 16 && c < |data|
    ensures Process(e, kind, s, data[..c + 1]) == Step(e, kind, Process(e, kind, s, data[..c]), data[c])
  {
    hide Step;
    assert data[..c + 1][..c] == data[..c];
  }

  /** The register after the first `k` bytes of a block. */
  function Mix(kind: Kind, iv: Block, x: Block, k: nat): Block
    requires k <= 16
  {
    seq(16, i requires 0 <= i < 16 => if i < k then Back(kind, iv[i], x[i]) else iv[i])
  }

  /** A whole block at once is sixteen bytes. */
  lemma {:induction false} BlockSteps(e: Cipher, kind: Kind, s: State, x: Block, k: nat)
    requires s.pos == 0 && 0 < k <= 16
    ensures Process(e, kind, s, x[..k])
         == State(Mix(kind, e(s.iv), x, k), After(k - 1), s.out + XorBytes(e(s.iv), x)[..k])
    decreases k
  {
    hide Step, Mix, XorBytes, Process;
    ProcessByte(e, kind, s, x, k - 1);
    if k == 1 {
      NoData(e, kind, s, x);
      FirstOfBlock(e, kind, s, x);
    } else {
      BlockSteps(e, kind, s, x, k - 1);
      NextOfBlock(e, kind, s, x, k - 1);
    }
  }

  lemma FirstOfBlock(e: Cipher, kind: Kind, s: State, x: Block)
    requires s.pos == 0
    ensures Step(e, kind, s, x[0]) == State(Mix(kind, e(s.iv), x, 1), 1, s.out + XorBytes(e(s.iv), x)[..1])
  {
    hide Xor8, Back;
    var r := XorBytes(e(s.iv), x);
    assert Put(kind, e(s.iv), 0, x[0]) == Mix(kind, e(s.iv), x, 1);
    assert r[..1] == [r[0]];
  }

  lemma NextOfBlock(e: Cipher, kind: Kind, s: State, x: Block, k: nat)
    requires s.pos == 0 && 0 < k < 16
    ensures Step(e, kind, State(Mix(kind, e(s.iv), x, k), k, s.out + XorBytes(e(s.iv), x)[..k]), x[k])
         == State(Mix(kind, e(s.iv), x, k + 1), After(k), s.out + XorBytes(e(s.iv), x)[..k + 1])
  {
    hide Xor8, Back;
    var r := XorBytes(e(s.iv), x);
    assert Put(kind, Mix(kind, e(s.iv), x, k), k, x[k]) == Mix(kind, e(s.iv), x, k + 1);
    assert r[..k + 1] == r[..k] + [r[k]];
  }

  /** A whole block: feedback of the ciphertext leaves it in the register, whichever way it is going, and feedback of
      the output leaves the encrypted register. */
  lemma WholeBlockIs(e: Cipher, s: State, x: Block)
    requires s.pos == 0
    ensures var r := XorBytes(e(s.iv), x);
            && Process(e, CfbEnc, s, x) == State(r, 0, s.out + r)
            && Process(e, CfbDec, s, x) == State(x, 0, s.out + r)
            && Process(e, Ofb, s, x) == State(e(s.iv), 0, s.out + r)
  {
    hide Process, Xor8;
    var r := XorBytes(e(s.iv), x);
    assert x[..16] == x && r[..16] == r;
    BlockSteps(e, CfbEnc, s, x, 16);
    BlockSteps(e, CfbDec, s, x, 16);
    BlockSteps(e, Ofb, s, x, 16);
    assert Mix(CfbEnc, e(s.iv), x, 16) == r;
    assert Mix(CfbDec, e(s.iv), x, 16) == x;
    assert Mix(Ofb, e(s.iv), x, 16) == e(s.iv);
  }

  /** A mode context: the register and the position that the cipher context remembers. */
  class Feedback {
    const e: Cipher
    var iv: Block
    var pos: nat

    constructor (cipher: Cipher, start: Block)
      ensures e == cipher && iv == start && pos == 0
    {
      e, iv, pos := cipher, start, 0;
    }

    /** The control flow common to `aes_cfb_encrypt`, `aes_cfb_decrypt` and `aes_ofb_crypt`. */
    method Crypt(kind: Kind, ibuf: seq<bv8>) returns (obuf: seq<bv8>)
      requires pos < 16
      modifies this
      ensures pos < 16 && State(iv, pos, obuf) == Process(e, kind, State(old(iv), old(pos), []), ibuf)
    {
      hide Step, Put, Process;
      ghost var s := State(iv, pos, []);
      var b, c := pos, 0;
      obuf := [];
      NoData(e, kind, s, ibuf);
      if b != 0 {
        obuf, c, b := Run(kind, ibuf, obuf, c, b, s);
      }
      while c + 16 <= |ibuf|
        invariant 0 <= c <= |ibuf| && b < 16 && (c + 16 <= |ibuf| ==> b == 0)
        invariant Process(e, kind, s, ibuf[..c]) == State(iv, b, obuf)
      {
        ghost var before := State(iv, b, obuf);
        ghost var x := ibuf[c..c + 16];
        BlockSteps(e, kind, before, x, 16);
        assert x[..16] == x && ibuf[..c] + x == ibuf[..c + 16];
        ProcessConcat(e, kind, s, ibuf[..c], x);
        iv := e(iv);
        var r := XorBytes(iv, ibuf[c..c + 16]);
        iv := Mix(kind, iv, ibuf[c..c + 16], 16);
        obuf := obuf + r;
        assert r[..16] == r;
        c := c + 16;
      }
      while c < |ibuf|
        invariant 0 <= c <= |ibuf| && b < 16
        invariant Process(e, kind, s, ibuf[..c]) == State(iv, b, obuf)
      {
        obuf, c, b := Run(kind, ibuf, obuf, c, b, s);
      }
      assert ibuf[..c] == ibuf;
      pos := b;
    }

    /** Encrypts the register at the start of a block and uses its bytes until the block or the data ends. */
    method Run(kind: Kind, ibuf: seq<bv8>, obuf0: seq<bv8>, c0: nat, b0: nat, ghost s: State)
      returns (obuf: seq<bv8>, c: nat, b: nat)
      requires b0 < 16 && s.pos < 16 && c0 <= |ibuf| && Process(e, kind, s, ibuf[..c0]) == State(iv, b0, obuf0)
      modifies this`iv
      ensures c0 <= c <= |ibuf| && b < 16 && (c < |ibuf| ==> b == 0) && (c0 < |ibuf| ==> c0 < c)
      ensures Process(e, kind, s, ibuf[..c]) == State(iv, b, obuf)
    {
      hide Process, Xor8, Back;
      obuf, c, b := obuf0, c0, b0;
      ghost var r := iv;
      if c < |ibuf| {
        if b == 0 {
          iv := e(iv);
        }
        while b < 16 && c < |ibuf|
          invariant c0 <= c <= |ibuf| && b0 <= b <= 16 && (c0 < c <==> b0 < b)
          invariant iv == if b == 0 then e(r) else r
          invariant Process(e, kind, s, ibuf[..c]) == State(r, if b == 16 then 0 else b, obuf)
        {
          ProcessByte(e, kind, s, ibuf, c);
          var k := iv[b];
          obuf := obuf + [Xor8(k, ibuf[c])];
          iv := Put(kind, iv, b, ibuf[c]);
          r := iv;
          b, c := b + 1, c + 1;
        }
        b := if b == 16 then 0 else b;
      }
    }
  }

  lemma NoData(e: Cipher, kind: Kind, s: State, data: seq<bv8>)
    requires s.pos < 16
    ensures Process(e, kind, s, data[..0]) == s
  {
  }

  /** What is produced does not depend on what was produced before. */
  lemma {:induction false} OutputGrows(e: Cipher, kind: Kind, s: State, data: seq<bv8>)
    requires s.pos < 16
    ensures var r := Process(e, kind, s.(out := []), data);
            Process(e, kind, s, data) == r.(out := s.out + r.out) && |r.out| == |data|
    decreases data
  {
    hide Xor8;
    if |data| > 0 {
      OutputGrows(e, kind, s, data[..|data| - 1]);
    }
  }

  /** The kind of call that undoes another. */
  function Inverse(kind: Kind): Kind {
    match kind case CfbEnc => CfbDec case CfbDec => CfbEnc case Ofb => Ofb
  }

  lemma StepUndone(e: Cipher, kind: Kind, r: State, x: bv8, d: seq<bv8>)
    requires r.pos < 16
    ensures var t := Step(e, kind, r, x);
            && t.out == r.out + [t.out[|r.out|]]
            && Step(e, Inverse(kind), r.(out := d), t.out[|r.out|]) == t.(out := d + [x])
  {
    hide Xor8;
    var k := (if r.pos == 0 then e(r.iv) else r.iv)[r.pos];
    Xor8Laws(x, k, k);
    Xor8Laws(k, x, x);
    Xor8Laws(Xor8(k, x), k, k);
  }

  lemma ProcessSnoc(e: Cipher, kind: Kind, s: State, d: seq<bv8>, x: bv8)
    requires s.pos < 16
    ensures Process(e, kind, s, d + [x]) == Step(e, kind, Process(e, kind, s, d), x)
  {
    hide Step;
    assert (d + [x])[..|d|] == d;
  }

  /** Feeding the output of one direction to the other gives the data back, and both registers end the same. */
  lemma {:induction false} Undone(e: Cipher, kind: Kind, iv: Block, pos: nat, data: seq<bv8>)
    requires pos < 16
    ensures var s := State(iv, pos, []);
            var r := Process(e, kind, s, data);
            |r.out| == |data| && Process(e, Inverse(kind), s, r.out) == r.(out := data)
    decreases data
  {
    hide Step, Process;
    var s := State(iv, pos, []);
    if |data| == 0 {
      NoData(e, kind, s, data);
      NoData(e, Inverse(kind), s, []);
      assert data[..0] == data && data == [];
    } else {
      var d, x := data[..|data| - 1], data[|data| - 1];
      assert data == d + [x];
      Undone(e, kind, iv, pos, d);
      var r := Process(e, kind, s, d);
      ProcessSnoc(e, kind, s, d, x);
      StepUndone(e, kind, r, x, d);
      var t := Process(e, kind, s, data);
      ProcessSnoc(e, Inverse(kind), s, r.out, t.out[|r.out|]);
    }
  }

  // Any number of calls.

  /** The state after a sequence of calls, with the outputs of all of them. */
  function Calls(e: Cipher, kind: Kind, s: State, chunks: seq<seq<bv8>>): (r: State)
    requires s.pos < 16
    ensures r.pos < 16
  {
    if |chunks| == 0 then s else Process(e, kind, Calls(e, kind, s, chunks[..|chunks| - 1]), chunks[|chunks| - 1])
  }

  lemma {:induction false} CallsAreOne(e: Cipher, kind: Kind, s: State, chunks: seq<seq<bv8>>)
    requires s.pos < 16
    ensures Calls(e, kind, s, chunks) == Process(e, kind, s, Flatten(chunks))
    decreases chunks
  {
    hide Process;
    if |chunks| == 0 {
      NoData(e, kind, s, []);
    } else {
      CallsAreOne(e, kind, s, chunks[..|chunks| - 1]);
      ProcessConcat(e, kind, s, Flatten(chunks[..|chunks| - 1]), chunks[|chunks| - 1]);
    }
  }

  /** However the data is split on one side and its output on the other, the second side recovers the data and both
      end with the same register and position. */
  lemma IndependentSplits(e: Cipher, kind: Kind, iv: Block, pos: nat, sent: seq<seq<bv8>>, received: seq<seq<bv8>>)
    requires pos < 16 && Flatten(received) == Calls(e, kind, State(iv, pos, []), sent).out
    ensures Calls(e, Inverse(kind), State(iv, pos, []), received)
         == Calls(e, kind, State(iv, pos, []), sent).(out := Flatten(sent))
  {
    hide Process, Calls, Flatten;
    var s := State(iv, pos, []);
    CallsAreOne(e, kind, s, sent);
    CallsAreOne(e, Inverse(kind), s, received);
    Undone(e, kind, iv, pos, Flatten(sent));
  }

  // Counter mode, for any counter increment.

  type Increment = Block -> Block

  /** A counter block and the position in its encryption. */
  datatype Ctr = Ctr(c: Block, pos: nat, out: seq<bv8>)

  function CtrStep(e: Cipher, inc: Increment, s: Ctr, x: bv8): Ctr
    requires s.pos < 16
  {
    Ctr(if s.pos == 15 then inc(s.c) else s.c, After(s.pos), s.out + [Xor8(x, e(s.c)[s.pos])])
  }

  function CtrRun(e: Cipher, inc: Increment, s: Ctr, data: seq<bv8>): (r: Ctr)
    requires s.pos < 16
    ensures r.pos < 16
  {
    if |data| == 0 then s else CtrStep(e, inc, CtrRun(e, inc, s, data[..|data| - 1]), data[|data| - 1])
  }

  lemma {:induction false} CtrConcat(e: Cipher, inc: Increment, s: Ctr, u: seq<bv8>, v: seq<bv8>)
    requires s.pos < 16
    ensures CtrRun(e, inc, s, u + v) == CtrRun(e, inc, CtrRun(e, inc, s, u), v)
    decreases v
  {
    hide CtrStep;
    if |v| == 0 {
      assert u + v == u;
    } else {
      CtrConcat(e, inc, s, u, v[..|v| - 1]);
      assert (u + v)[..|u + v| - 1] == u + v[..|v| - 1];
    }
  }

  lemma CtrSnoc(e: Cipher, inc: Increment, s: Ctr, d: seq<bv8>, x: bv8)
    requires s.pos < 16
    ensures CtrRun(e, inc, s, d + [x]) == CtrStep(e, inc, CtrRun(e, inc, s, d), x)
  {
    hide CtrStep;
    assert (d + [x])[..|d|] == d;
  }

  lemma NoCtr(e: Cipher, inc: Increment, s: Ctr)
    requires s.pos < 16
    ensures CtrRun(e, inc, s, []) == s
  {
  }

  /** Counter mode undoes itself from the same counter and position, whatever the increment. */
  lemma {:induction false} CtrTwice(e: Cipher, inc: Increment, c: Block, pos: nat, data: seq<bv8>)
    requires pos < 16
    ensures var s := Ctr(c, pos, []);
            var r := CtrRun(e, inc, s, data);
            |r.out| == |data| && CtrRun(e, inc, s, r.out) == r.(out := data)
    decreases data
  {
    hide CtrStep, CtrRun;
    var s := Ctr(c, pos, []);
    NoCtr(e, inc, s);
    if |data| == 0 {
      assert data == [];
    } else {
      var d, x := data[..|data| - 1], data[|data| - 1];
      assert data == d + [x];
      CtrTwice(e, inc, c, pos, d);
      var r := CtrRun(e, inc, s, d);
      CtrSnoc(e, inc, s, d, x);
      CtrStepTwice(e, inc, r, x, d);
      CtrSnoc(e, inc, s, r.out, CtrRun(e, inc, s, data).out[|r.out|]);
    }
  }

  lemma CtrStepTwice(e: Cipher, inc: Increment, r: Ctr, x: bv8, d: seq<bv8>)
    requires r.pos < 16
    ensures var t := CtrStep(e, inc, r, x);
            && t.out == r.out + [t.out[|r.out|]]
            && CtrStep(e, inc, r.(out := d), t.out[|r.out|]) == t.(out := d + [x])
  {
    hide Xor8;
    Xor8Laws(x, e(r.c)[r.pos], 0);
  }

  /** The remembered position 16 is position 0 of the next counter. */
  function Settle(inc: Increment, c: Block, pos: nat, out: seq<bv8>): Ctr {
    if pos == 16 then Ctr(inc(c), 0, out) else Ctr(c, pos, out)
  }

  // Any number of calls in counter mode.

  /** The state after a sequence of calls, with the outputs of all of them. */
  function CtrCalls(e: Cipher, inc: Increment, s: Ctr, chunks: seq<seq<bv8>>): (r: Ctr)
    requires s.pos < 16
    ensures r.pos < 16
  {
    if |chunks| == 0 then s else CtrRun(e, inc, CtrCalls(e, inc, s, chunks[..|chunks| - 1]), chunks[|chunks| - 1])
  }

  lemma {:induction false} CtrCallsAreOne(e: Cipher, inc: Increment, s: Ctr, chunks: seq<seq<bv8>>)
    requires s.pos < 16
    ensures CtrCalls(e, inc, s, chunks) == CtrRun(e, inc, s, Flatten(chunks))
    decreases chunks
  {
    hide CtrRun;
    if |chunks| == 0 {
      NoCtr(e, inc, s);
    } else {
      CtrCallsAreOne(e, inc, s, chunks[..|chunks| - 1]);
      CtrConcat(e, inc, s, Flatten(chunks[..|chunks| - 1]), chunks[|chunks| - 1]);
    }
  }

  /** However the data is split on one side and its output on the other, the second side recovers the data and both
      end with the same counter and position. The two sides may remember the end of a block differently, one as
      position 16 and the other as position 0 of the next counter. */
  lemma CtrIndependentSplits(e: Cipher, inc: Increment, c: Block, pos: nat, d: Block, q: nat,
                             sent: seq<seq<bv8>>, received: seq<seq<bv8>>)
    requires pos <= 16 && q <= 16 && Settle(inc, c, pos, []) == Settle(inc, d, q, [])
    requires Flatten(received) == CtrCalls(e, inc, Settle(inc, c, pos, []), sent).out
    ensures CtrCalls(e, inc, Settle(inc, d, q, []), received)
         == CtrCalls(e, inc, Settle(inc, c, pos, []), sent).(out := Flatten(sent))
  {
    hide CtrRun, CtrCalls, Flatten;
    var s := Settle(inc, c, pos, []);
    CtrCallsAreOne(e, inc, s, sent);
    CtrCallsAreOne(e, inc, s, received);
    CtrTwice(e, inc, s.c, s.pos, Flatten(sent));
  }

  /** What is produced does not depend on what was produced before. */
  lemma {:induction false} CtrOutputGrows(e: Cipher, inc: Increment, s: Ctr, data: seq<bv8>)
    requires s.pos < 16
    ensures var r := CtrRun(e, inc, s.(out := []), data);
            CtrRun(e, inc, s, data) == r.(out := s.out + r.out) && |r.out| == |data|
    decreases data
  {
    hide Xor8;
    if |data| > 0 {
      CtrOutputGrows(e, inc, s, data[..|data| - 1]);
    }
  }

  lemma {:induction false} CtrBlockBytes(e: Cipher, inc: Increment, s: Ctr, x: Block, k: nat)
    requires s.pos == 0 && k <= 16
    ensures CtrRun(e, inc, s, x[..k]) == Settle(inc, s.c, k, s.out + XorBytes(x, e(s.c))[..k])
    decreases k
  {
    hide XorBytes, CtrRun, CtrStep;
    if k == 0 {
      assert x[..0] == [];
      NoCtr(e, inc, s);
      assert s.out + XorBytes(x, e(s.c))[..0] == s.out;
    } else {
      CtrBlockBytes(e, inc, s, x, k - 1);
      assert x[..k] == x[..k - 1] + [x[k - 1]];
      CtrSnoc(e, inc, s, x[..k - 1], x[k - 1]);
      CtrNext(e, inc, s, x, k - 1);
    }
  }

  lemma CtrNext(e: Cipher, inc: Increment, s: Ctr, x: Block, k: nat)
    requires s.pos == 0 && k < 16
    ensures CtrStep(e, inc, Ctr(s.c, k, s.out + XorBytes(x, e(s.c))[..k]), x[k])
         == Settle(inc, s.c, k + 1, s.out + XorBytes(x, e(s.c))[..k + 1])
  {
    hide Xor8;
    var r := XorBytes(x, e(s.c));
    assert r[..k + 1] == r[..k] + [r[k]];
  }

  function IncPow(inc: Increment, c: Block, n: nat): Block
    decreases n
  {
    if n == 0 then c else inc(IncPow(inc, c, n - 1))
  }

  lemma {:induction false} IncPowAdd(inc: Increment, c: Block, m: nat, n: nat)
    ensures IncPow(inc, IncPow(inc, c, m), n) == IncPow(inc, c, m + n)
    decreases n
  {
    if n > 0 {
      IncPowAdd(inc, c, m, n - 1);
    }
  }

  /** Byte `p` of the keystream from counter `c`. */
  function CtrKey(e: Cipher, inc: Increment, c: Block, p: nat): bv8 {
    e(IncPow(inc, c, p / 16))[p % 16]
  }

  /** The data under the keystream from position `p` on. */
  function CtrText(e: Cipher, inc: Increment, c: Block, p: nat, data: seq<bv8>): (r: seq<bv8>)
    ensures |r| == |data|
  {
    seq(|data|, i requires 0 <= i < |data| => Xor8(data[i], CtrKey(e, inc, c, p + i)))
  }

  /** Byte `i` meets byte `(pos + i) mod 16` of the encryption of counter number `(pos + i) / 16`. */
  lemma {:induction false} CtrIs(e: Cipher, inc: Increment, c: Block, pos: nat, data: seq<bv8>)
    requires pos < 16
    ensures var p := pos + |data|;
            CtrRun(e, inc, Ctr(c, pos, []), data)
            == Ctr(IncPow(inc, c, p / 16), p % 16, CtrText(e, inc, c, pos, data))
    decreases data
  {
    hide CtrRun, CtrStep, CtrText, IncPow;
    if |data| == 0 {
      NoCtr(e, inc, Ctr(c, pos, []));
      assert data == [];
      NoText(e, inc, c, pos);
    } else {
      var d, x := data[..|data| - 1], data[|data| - 1];
      assert data == d + [x];
      CtrIs(e, inc, c, pos, d);
      CtrSnoc(e, inc, Ctr(c, pos, []), d, x);
      CtrAt(e, inc, c, pos, d, x);
    }
  }

  lemma NoText(e: Cipher, inc: Increment, c: Block, pos: nat)
    ensures CtrText(e, inc, c, pos, []) == [] && IncPow(inc, c, 0) == c
  {
  }

  lemma CtrAt(e: Cipher, inc: Increment, c: Block, pos: nat, d: seq<bv8>, x: bv8)
    ensures var p := pos + |d|;
            CtrStep(e, inc, Ctr(IncPow(inc, c, p / 16), p % 16, CtrText(e, inc, c, pos, d)), x)
            == Ctr(IncPow(inc, c, (p + 1) / 16), (p + 1) % 16, CtrText(e, inc, c, pos, d + [x]))
  {
    hide Xor8;
    var p := pos + |d|;
    assert CtrText(e, inc, c, pos, d + [x]) == CtrText(e, inc, c, pos, d) + [Xor8(x, CtrKey(e, inc, c, p))];
    NextPosition(p);
  }

  lemma NextPosition(p: nat)
    ensures p % 16 == 15 ==> (p + 1) / 16 == p / 16 + 1 && (p + 1) % 16 == 0
    ensures p % 16 != 15 ==> (p + 1) / 16 == p / 16 && (p + 1) % 16 == p % 16 + 1
  {
  }

  /** How many increments a call of `n` bytes from position `pos` makes. A call that only uses up the rest of a block
      makes none. */
  function Increments(pos: nat, n: nat): nat {
    if 0 < pos && pos + n <= 16 then 0 else (pos + n) / 16
  }

  /** The position such a call remembers. */
  function Remembers(pos: nat, n: nat): nat {
    if 0 < pos && pos + n <= 16 then pos + n else (pos + n) % 16
  }

  /** The increment before the whole blocks, if there is one, counts like theirs. */
  lemma AfterPartial(inc: Increment, c: Block, d: Block, pos: nat, len: nat, n: nat, b: nat)
    requires pos <= 16 && b <= 16
    requires 0 < pos && pos + len <= 16 ==> n == 0 && d == c && b == pos + len
    requires pos == 0 ==> b < 16 && 16 * n + b == len && d == c
    requires 0 < pos && pos + len > 16 ==> b < 16 && 16 * n + b == pos + len - 16 && d == inc(c)
    ensures IncPow(inc, d, n) == IncPow(inc, c, Increments(pos, len)) && b == Remembers(pos, len)
  {
    if pos > 0 && pos + len > 16 {
      assert inc(c) == IncPow(inc, c, 1);
      IncPowAdd(inc, c, 1, n);
    }
  }

  /** A byte with the keystream block at hand. */
  lemma CtrByte(e: Cipher, inc: Increment, s: Ctr, data: seq<bv8>, n: nat, c: Block, b: nat, out: seq<bv8>)
    requires s.pos < 16 && n < |data| && b < 16 && CtrRun(e, inc, s, data[..n]) == Ctr(c, b, out)
    ensures CtrRun(e, inc, s, data[..n + 1]) == Settle(inc, c, b + 1, out + [Xor8(data[n], e(c)[b])])
  {
    hide CtrRun, Xor8;
    assert data[..n + 1] == data[..n] + [data[n]];
    CtrSnoc(e, inc, s, data[..n], data[n]);
  }

  /** A whole block with its keystream block at hand. */
  lemma CtrBlock(e: Cipher, inc: Increment, s: Ctr, data: seq<bv8>, n: nat, c: Block, out: seq<bv8>)
    requires s.pos < 16 && n + 16 <= |data| && CtrRun(e, inc, s, data[..n]) == Ctr(c, 0, out)
    ensures CtrRun(e, inc, s, data[..n + 16]) == Ctr(inc(c), 0, out + XorBytes(data[n..n + 16], e(c)))
  {
    hide CtrRun, XorBytes, CtrStep;
    var x := data[n..n + 16];
    Piece(data, n);
    CtrConcat(e, inc, s, data[..n], x);
    CtrBlockBytes(e, inc, Ctr(c, 0, out), x, 16);
    AllOf(x);
    AllOf(XorBytes(x, e(c)));
  }

  lemma Piece(data: seq<bv8>, n: nat)
    requires n + 16 <= |data|
    ensures data[..n + 16] == data[..n] + data[n..n + 16]
  {
  }

  lemma AllOf(x: Block)
    ensures x[..16] == x
  {
  }

  class Counter {
    const e: Cipher
    const inc: Increment
    var cbuf: Block
    var pos: nat

    constructor (cipher: Cipher, increment: Increment, start: Block)
      ensures e == cipher && inc == increment && cbuf == start && pos == 0
    {
      e, inc, cbuf, pos := cipher, increment, start, 0;
    }

    /** The rest of a partly used block. */
    method Partial(ibuf: seq<bv8>, b0: nat, ghost s: Ctr) returns (obuf: seq<bv8>, c: nat, b: nat)
      requires 0 < b0 <= 16 && s == Settle(inc, cbuf, b0, [])
      modifies this`cbuf
      ensures c <= |ibuf| && b <= 16 && (c < |ibuf| ==> b == 0)
      ensures if b0 + |ibuf| <= 16 then c == |ibuf| && b == b0 + c && cbuf == old(cbuf)
              else c == 16 - b0 && b == 0 && cbuf == inc(old(cbuf))
      ensures Settle(inc, cbuf, b, obuf) == CtrRun(e, inc, s, ibuf[..c])
    {
      hide CtrRun, Xor8;
      obuf, c, b := [], 0, b0;
      assert ibuf[..0] == [];
      NoCtr(e, inc, s);
      var buf := e(cbuf);
      while b < 16 && c < |ibuf|
        invariant c <= |ibuf| && b == b0 + c <= 16 && buf == e(cbuf) && cbuf == old(cbuf)
        invariant Settle(inc, cbuf, b, obuf) == CtrRun(e, inc, s, ibuf[..c])
        decreases 16 - b
      {
        CtrByte(e, inc, s, ibuf, c, cbuf, b, obuf);
        obuf := obuf + [Xor8(ibuf[c], buf[b])];
        b, c := b + 1, c + 1;
      }
      if c < |ibuf| {
        cbuf := inc(cbuf);
        b := 0;
      }
    }

    /** `n` counter blocks, and one more that leaves the counter as it is if a partial block follows. */
    method Fill(n: nat, partial: bool) returns (blocks: seq<Block>)
      modifies this`cbuf
      ensures |blocks| == n + (if partial then 1 else 0) && cbuf == IncPow(inc, old(cbuf), n)
      ensures forall j :: 0 <= j < |blocks| ==> blocks[j] == IncPow(inc, old(cbuf), j)
    {
      blocks := [];
      var i := 0;
      while i < n
        invariant 0 <= i <= n && |blocks| == i && cbuf == IncPow(inc, old(cbuf), i)
        invariant forall j :: 0 <= j < i ==> blocks[j] == IncPow(inc, old(cbuf), j)
      {
        blocks := blocks + [cbuf];
        cbuf := inc(cbuf);
        i := i + 1;
      }
      if partial {
        blocks := blocks + [cbuf];
      }
    }

    /** Encrypts the prepared counter blocks in place. */
    method Ecb(blocks: seq<Block>) returns (r: seq<Block>)
      ensures |r| == |blocks| && forall j :: 0 <= j < |r| ==> r[j] == e(blocks[j])
    {
      r := [];
      while |r| < |blocks|
        invariant |r| <= |blocks| && forall j :: 0 <= j < |r| ==> r[j] == e(blocks[j])
      {
        r := r + [e(blocks[|r|])];
      }
    }

    /** Up to eight blocks: counters first, then their encryption, then the data. */
    method Chunk(ibuf: seq<bv8>, obuf0: seq<bv8>, c0: nat, ghost s: Ctr)
      returns (obuf: seq<bv8>, c: nat, b: nat, ghost n: nat)
      requires s.pos < 16 && c0 < |ibuf| && CtrRun(e, inc, s, ibuf[..c0]) == Ctr(cbuf, 0, obuf0)
      modifies this`cbuf
      ensures c0 < c <= |ibuf| && b < 16 && (c < |ibuf| ==> b == 0)
      ensures cbuf == IncPow(inc, old(cbuf), n) && c - c0 == 16 * n + b
      ensures CtrRun(e, inc, s, ibuf[..c]) == Ctr(cbuf, b, obuf)
    {
      hide CtrRun, Xor8, XorBytes;
      ghost var start := cbuf;
      var blen := if |ibuf| - c0 > 128 then 128 else |ibuf| - c0;
      var whole, j := blen / 16, 0;
      n := whole;
      var buf := Fill(whole, blen % 16 != 0);
      buf := Ecb(buf);
      obuf, c, b := obuf0, c0, 0;
      while j < whole
        invariant 0 <= j <= whole && c == c0 + 16 * j <= |ibuf| && cbuf == IncPow(inc, start, whole)
        invariant CtrRun(e, inc, s, ibuf[..c]) == Ctr(IncPow(inc, start, j), 0, obuf)
      {
        CtrBlock(e, inc, s, ibuf, c, IncPow(inc, start, j), obuf);
        obuf := obuf + XorBytes(ibuf[c..c + 16], buf[j]);
        c, j := c + 16, j + 1;
      }
      while c < c0 + blen
        invariant c0 + 16 * whole <= c <= c0 + blen && b == c - c0 - 16 * whole && cbuf == IncPow(inc, start, whole)
        invariant CtrRun(e, inc, s, ibuf[..c]) == Ctr(IncPow(inc, start, whole), b, obuf)
      {
        CtrByte(e, inc, s, ibuf, c, IncPow(inc, start, whole), b, obuf);
        obuf := obuf + [Xor8(ibuf[c], buf[whole][b])];
        c, b := c + 1, b + 1;
      }
    }

    /** All that follows a partly used block. */
    method Chunks(ibuf: seq<bv8>, obuf0: seq<bv8>, c0: nat, ghost s: Ctr)
      returns (obuf: seq<bv8>, b: nat, ghost n: nat)
      requires s.pos < 16 && c0 <= |ibuf| && CtrRun(e, inc, s, ibuf[..c0]) == Ctr(cbuf, 0, obuf0)
      modifies this`cbuf
      ensures b < 16 && cbuf == IncPow(inc, old(cbuf), n) && |ibuf| - c0 == 16 * n + b
      ensures CtrRun(e, inc, s, ibuf) == Ctr(cbuf, b, obuf)
    {
      hide CtrRun;
      var c: nat := c0;
      obuf, b, n := obuf0, 0, 0;
      while c < |ibuf|
        invariant c0 <= c <= |ibuf| && b < 16 && (c < |ibuf| ==> b == 0)
        invariant cbuf == IncPow(inc, old(cbuf), n) && c - c0 == 16 * n + b
        invariant CtrRun(e, inc, s, ibuf[..c]) == Ctr(cbuf, b, obuf)
      {
        ghost var k;
        obuf, c, b, k := Chunk(ibuf, obuf, c, s);
        IncPowAdd(inc, old(cbuf), n, k);
        n := n + k;
      }
      assert ibuf[..c] == ibuf;
    }

    /** `aes_ctr_crypt`: the bytes of the byte-wise mode, and exactly which counter and position are remembered. */
    method Crypt(ibuf: seq<bv8>) returns (obuf: seq<bv8>)
      requires pos <= 16
      modifies this
      ensures pos <= 16
      ensures Settle(inc, cbuf, pos, obuf) == CtrRun(e, inc, Settle(inc, old(cbuf), old(pos), []), ibuf)
      ensures cbuf == IncPow(inc, old(cbuf), Increments(old(pos), |ibuf|)) && pos == Remembers(old(pos), |ibuf|)
    {
      hide CtrRun, Increments, Remembers;
      ghost var s := Settle(inc, cbuf, pos, []);
      var b, c := pos, 0;
      obuf := [];
      assert ibuf[..0] == [];
      NoCtr(e, inc, s);
      if b != 0 {
        obuf, c, b := Partial(ibuf, b, s);
      }
      ghost var start := cbuf;
      ghost var n: nat := 0;
      if c < |ibuf| {
        obuf, b, n := Chunks(ibuf, obuf, c, s);
      }
      assert ibuf[..|ibuf|] == ibuf;
      pos := b;
      AfterPartial(inc, old(cbuf), start, old(pos), |ibuf|, n, b);
    }

    /** Any number of calls. */
    method CryptAll(chunks: seq<seq<bv8>>) returns (obuf: seq<bv8>)
      requires pos <= 16
      modifies this
      ensures pos <= 16
      ensures Settle(inc, cbuf, pos, obuf) == CtrCalls(e, inc, Settle(inc, old(cbuf), old(pos), []), chunks)
    {
      hide CtrRun;
      ghost var s := Settle(inc, cbuf, pos, []);
      obuf := [];
      var i := 0;
      while i < |chunks|
        invariant 0 <= i <= |chunks| && pos <= 16
        invariant Settle(inc, cbuf, pos, obuf) == CtrCalls(e, inc, s, chunks[..i])
      {
        CtrOutputGrows(e, inc, Settle(inc, cbuf, pos, obuf), chunks[i]);
        assert chunks[..i + 1][..i] == chunks[..i];
        var out := Crypt(chunks[i]);
        obuf := obuf + out;
        i := i + 1;
      }
      assert chunks[..i] == chunks;
    }
  }

  /** Two contexts at the same counter and position, each making its own calls: the second gets back what the first was
      given and both end at the same counter and position. */
  method BothSides(a: Counter, b: Counter, sent: seq<seq<bv8>>, received: seq<seq<bv8>>)
    returns (ct: seq<bv8>, pt: seq<bv8>)
    requires a != b && a.e == b.e && a.inc == b.inc && a.pos <= 16 && b.pos <= 16
    requires Settle(a.inc, a.cbuf, a.pos, []) == Settle(b.inc, b.cbuf, b.pos, [])
    requires Flatten(received) == CtrCalls(a.e, a.inc, Settle(a.inc, a.cbuf, a.pos, []), sent).out
    modifies a, b
    ensures ct == Flatten(received) && pt == Flatten(sent) && a.pos <= 16 && b.pos <= 16
    ensures Settle(a.inc, a.cbuf, a.pos, []) == Settle(b.inc, b.cbuf, b.pos, [])
  {
    hide CtrCalls, Flatten;
    CtrIndependentSplits(a.e, a.inc, a.cbuf, a.pos, b.cbuf, b.pos, sent, received);
    ct := a.CryptAll(sent);
    pt := b.CryptAll(received);
  }

  // Cipher block chaining, for a cipher with an inverse.

  function CbcEnc(e: Cipher, iv: Block, data: seq<bv8>): (r: (seq<bv8>, Block))
    requires Whole(|data|)
    ensures |r.0| == |data|
    decreases |data|
  {
    if |data| == 0 then ([], iv)
    else
      WholeRest(|data|);
      var n := |data| - 16;
      var (out, v) := CbcEnc(e, iv, data[..n]);
      var c := e(XorBytes(v, data[n..]));
      (out + c, c)
  }

  function CbcDec(d: Cipher, iv: Block, data: seq<bv8>): (r: (seq<bv8>, Block))
    requires Whole(|data|)
    ensures |r.0| == |data|
    decreases |data|
  {
    if |data| == 0 then ([], iv)
    else
      WholeRest(|data|);
      var n := |data| - 16;
      var (out, v) := CbcDec(d, iv, data[..n]);
      (out + XorBytes(v, d(data[n..])), data[n..])
  }

  method CbcEncrypt(e: Cipher, ibuf: seq<bv8>, iv0: Block) returns (ok: bool, obuf: seq<bv8>, iv: Block)
    ensures ok <==> Whole(|ibuf|)
    ensures ok ==> (obuf, iv) == CbcEnc(e, iv0, ibuf)
    ensures !ok ==> iv == iv0
  {
    hide XorBytes;
    ok, obuf, iv := false, [], iv0;
    if |ibuf| % 16 != 0 {
      return;
    }
    var c := 0;
    while c < |ibuf|
      invariant 0 <= c <= |ibuf| && Whole(c) && Whole(|ibuf|) && (obuf, iv) == CbcEnc(e, iv0, ibuf[..c])
    {
      BlockLeft(|ibuf|, c);
      iv := XorBytes(iv, ibuf[c..c + 16]);
      iv := e(iv);
      obuf := obuf + iv;
      assert ibuf[..c + 16][..c] == ibuf[..c] && ibuf[..c + 16][c..] == ibuf[c..c + 16];
      c := c + 16;
    }
    assert ibuf[..c] == ibuf;
    ok := true;
  }

  method CbcDecrypt(d: Cipher, ibuf: seq<bv8>, iv0: Block) returns (ok: bool, obuf: seq<bv8>, iv: Block)
    ensures ok <==> Whole(|ibuf|)
    ensures ok ==> (obuf, iv) == CbcDec(d, iv0, ibuf)
    ensures !ok ==> iv == iv0
  {
    hide XorBytes;
    ok, obuf, iv := false, [], iv0;
    if |ibuf| % 16 != 0 {
      return;
    }
    var c := 0;
    while c < |ibuf|
      invariant 0 <= c <= |ibuf| && Whole(c) && Whole(|ibuf|) && (obuf, iv) == CbcDec(d, iv0, ibuf[..c])
    {
      BlockLeft(|ibuf|, c);
      var tmp := ibuf[c..c + 16];
      var block := d(ibuf[c..c + 16]);
      obuf := obuf + XorBytes(iv, block);
      iv := tmp;
      assert ibuf[..c + 16][..c] == ibuf[..c] && ibuf[..c + 16][c..] == ibuf[c..c + 16];
      c := c + 16;
    }
    assert ibuf[..c] == ibuf;
    ok := true;
  }

  lemma BlockLeft(n: nat, c: nat)
    requires Whole(n) && Whole(c) && c < n
    ensures c + 16 <= n && Whole(c + 16)
  {
  }

  ghost predicate Inverts(d: Cipher, e: Cipher) {
    forall x: Block :: d(e(x)) == x
  }

  /** Decryption undoes encryption and both chains end on the same block. */
  lemma {:induction false} CbcUndone(e: Cipher, d: Cipher, iv: Block, data: seq<bv8>)
    requires Whole(|data|) && Inverts(d, e)
    ensures CbcDec(d, iv, CbcEnc(e, iv, data).0) == (data, CbcEnc(e, iv, data).1)
    decreases |data|
  {
    hide XorBytes, Whole, Inverts;
    if |data| > 0 {
      WholeRest(|data|);
      var n := |data| - 16;
      CbcUndone(e, d, iv, data[..n]);
      var (out, v) := CbcEnc(e, iv, data[..n]);
      var x := XorBytes(v, data[n..]);
      var ct := CbcEnc(e, iv, data).0;
      assert ct[..n] == out && ct[n..] == e(x);
      InvertsAt(d, e, x);
      XorBytesUndone(data[n..], v);
      assert data[..n] + data[n..] == data;
    }
  }

  /** Block `i` of the ciphertext is the encryption of block `i` of the data plus the ciphertext block before it, or the
      initial vector. */
  lemma {:induction false} CbcBlocks(e: Cipher, iv: Block, data: seq<bv8>, i: nat)
    requires Whole(|data|) && 16 * i + 16 <= |data|
    ensures var ct := CbcEnc(e, iv, data).0;
            ct[16 * i..16 * i + 16]
            == e(XorBytes(if i == 0 then iv else ct[16 * i - 16..16 * i], data[16 * i..16 * i + 16]))
    decreases |data|
  {
    hide XorBytes, Whole;
    WholeRest(|data|);
    var n := |data| - 16;
    var (out, v) := CbcEnc(e, iv, data[..n]);
    LastBlock(e, iv, data[..n]);
    Reach(|data|, i);
    var ct := CbcEnc(e, iv, data).0;
    assert ct == out + ct[n..];
    if 16 * i < n {
      CbcBlocks(e, iv, data[..n], i);
      assert data[..n][16 * i..16 * i + 16] == data[16 * i..16 * i + 16];
      assert ct[16 * i..16 * i + 16] == out[16 * i..16 * i + 16];
    } else {
      assert ct[n..] == e(XorBytes(v, data[n..]));
      assert ct[16 * i..16 * i + 16] == ct[n..] && data[16 * i..16 * i + 16] == data[n..];
    }
    if i > 0 {
      assert ct[16 * i - 16..16 * i] == out[16 * i - 16..16 * i];
    }
  }

  lemma Reach(n: nat, i: nat)
    requires Whole(n) && 16 * i + 16 <= n
    ensures 16 * i == n - 16 || 16 * i + 16 <= n - 16
  {
  }

  /** The chain ends on the last ciphertext block. */
  lemma LastBlock(e: Cipher, iv: Block, data: seq<bv8>)
    requires Whole(|data|)
    ensures var (ct, v) := CbcEnc(e, iv, data);
            v == if |data| == 0 then iv else ct[|data| - 16..]
  {
    hide XorBytes;
  }

  lemma InvertsAt(d: Cipher, e: Cipher, x: Block)
    requires Inverts(d, e)
    ensures d(e(x)) == x
  {
  }
}
