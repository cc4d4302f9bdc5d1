/** Counters as big-endian bytes, and the counter blocks of one message. */
module Counters {
  import opened GfBlock
  import opened GcmSpec
  import opened GcmCtx
  import opened Words
  import Arith

  lemma WordRange()
    ensures Exp256(4) == TWO32
  {
    assert Exp256(2) == 65536;
  }

  /** The number in big-endian bytes. */
  function BeValue(s: seq<bv8>): (v: nat) {
    if |s| == 0 then 0 else 256 * BeValue(s[..|s| - 1]) + Number8(s[|s| - 1])
  }

  lemma {:induction false} BeValueOfBe(n: nat, v: nat)
    requires v < Exp256(n)
    ensures BeValue(Be(n, v)) == v
    decreases n
  {
    hide Low8, Number8;
    if n > 0 {
      BeValueOfBe(n - 1, v / 256);
      assert Be(n, v)[..n - 1] == Be(n - 1, v / 256);
    }
  }

  // Counter blocks of one message.

  /** The number with four binary digits. */
  function Four(p: bool, q: bool, r: bool, s: bool): nat {
    (if p then 8 else 0) + (if q then 4 else 0) + (if r then 2 else 0) + if s then 1 else 0
  }

  /** The eight bits of a byte as a number. */
  lemma NumberIs(b: bv8)
    ensures Number8(b) == 16 * Four(BitOf(b, 0), BitOf(b, 1), BitOf(b, 2), BitOf(b, 3))
                        + Four(BitOf(b, 4), BitOf(b, 5), BitOf(b, 6), BitOf(b, 7))
  {
    hide BitOf, Digits;
    var r := ByteBits(b);
    FourDigits(r);
    FourDigits(r[..4]);
    assert r[..4][..0] == [] && Digits([]) == 0 by { NoDigits(); }
  }

  lemma NoDigits()
    ensures Digits([]) == 0
  {
  }

  lemma FourDigits(r: seq<bool>)
    requires |r| >= 4
    ensures var n := |r| - 4;
            Digits(r) == 16 * Digits(r[..n]) + Four(r[n], r[n + 1], r[n + 2], r[n + 3])
  {
    var n := |r| - 4;
    assert r[..n + 3][..n + 2] == r[..n + 2] && r[..n + 2][..n + 1] == r[..n + 1] && r[..n + 1][..n] == r[..n];
    assert Digits(r[..n + 2]) == 2 * Digits(r[..n + 1]) + if r[n + 1] then 1 else 0;
  }

  /** Four digits with a carry added: a digit flips exactly when the carry reaches it. */
  lemma Ripple(p: bool, q: bool, r: bool, s: bool, carry: bool)
    ensures var t := Four(p, q, r, s) + if carry then 1 else 0;
            && Four(p != (q && r && s && carry), q != (r && s && carry), r != (s && carry), s != carry)
               == (if t == 16 then 0 else t)
            && (t == 16 <==> p && q && r && s && carry)
  {
  }

  /** Adding one flips a bit exactly when all lower bits are set. */
  lemma NextBits(b: bv8)
    ensures var n := Next8(b);
            && BitOf(n, 7) == !BitOf(b, 7) && BitOf(n, 6) == (BitOf(b, 6) != BitOf(b, 7))
            && BitOf(n, 5) == (BitOf(b, 5) != (BitOf(b, 6) && BitOf(b, 7)))
            && BitOf(n, 4) == (BitOf(b, 4) != (BitOf(b, 5) && BitOf(b, 6) && BitOf(b, 7)))
  {
  }

  lemma NextHighBits(b: bv8)
    ensures var n, low := Next8(b), BitOf(b, 4) && BitOf(b, 5) && BitOf(b, 6) && BitOf(b, 7);
            && BitOf(n, 3) == (BitOf(b, 3) != low) && BitOf(n, 2) == (BitOf(b, 2) != (BitOf(b, 3) && low))
            && BitOf(n, 1) == (BitOf(b, 1) != (BitOf(b, 2) && BitOf(b, 3) && low))
            && BitOf(n, 0) == (BitOf(b, 0) != (BitOf(b, 1) && BitOf(b, 2) && BitOf(b, 3) && low))
  {
  }

  lemma NextNumber(b: bv8)
    ensures Number8(Next8(b)) == (Number8(b) + 1) % 256
  {
    hide BitOf, Next8, Number8, Four;
    NumberIs(b);
    NumberIs(Next8(b));
    NextBits(b);
    NextHighBits(b);
    var low := BitOf(b, 4) && BitOf(b, 5) && BitOf(b, 6) && BitOf(b, 7);
    Ripple(BitOf(b, 4), BitOf(b, 5), BitOf(b, 6), BitOf(b, 7), true);
    Ripple(BitOf(b, 0), BitOf(b, 1), BitOf(b, 2), BitOf(b, 3), low);
  }

  lemma NumberZero(b: bv8)
    ensures Number8(b) == 0 <==> b == 0
  {
    hide Number8, Low8;
    LowZero();
    ByteOfNumber(b);
    ByteOfNumber(0);
  }

  /** The increment adds one to the number in the bytes, modulo what they can hold. */
  lemma {:induction false} IncValue(s: seq<bv8>)
    ensures BeValue(s) < Exp256(|s|) && BeValue(IncBytes(s)) == (BeValue(s) + 1) % Exp256(|s|)
  {
    hide Number8, Next8, IncBytes;
    if |s| > 0 {
      var n := |s| - 1;
      var u, b := s[..n], s[n];
      IncValue(u);
      NextNumber(b);
      NumberZero(Next8(b));
      IncParts(s);
      CarryValue(BeValue(u), Number8(b), Exp256(n));
    } else {
      IncParts(s);
    }
  }

  lemma IncParts(s: seq<bv8>)
    ensures |s| == 0 ==> IncBytes(s) == []
    ensures var n := |s| - 1;
            |s| > 0 ==> IncBytes(s)[..n] == (if Next8(s[n]) == 0 then IncBytes(s[..n]) else s[..n])
                        && IncBytes(s)[n] == Next8(s[n])
  {
    hide Next8;
  }

  lemma CarryValue(v: nat, x: nat, e: nat)
    requires v < e && x < 256
    ensures 256 * v + x < 256 * e
    ensures (256 * v + x + 1) % (256 * e) == 256 * (if (x + 1) % 256 == 0 then (v + 1) % e else v) + (x + 1) % 256
  {
    if x == 255 {
      if v + 1 == e {
        Arith.DivModUnique(256 * v + x + 1, 256 * e, 1, 0);
        Arith.DivModUnique(v + 1, e, 1, 0);
      } else {
        Arith.DivModUnique(256 * v + x + 1, 256 * e, 0, 256 * v + x + 1);
        Arith.DivModUnique(v + 1, e, 0, v + 1);
      }
    } else {
      Arith.DivModUnique(256 * v + x + 1, 256 * e, 0, 256 * v + x + 1);
    }
  }

  lemma {:induction false} IncNValue(j0: Block, n: nat)
    ensures BeValue(IncN(j0, n)[12..]) == (BeValue(j0[12..]) + n) % TWO32
    decreases n
  {
    hide IncBytes, BeValue, Exp256;
    WordRange();
    if n == 0 {
      IncValue(j0[12..]);
    } else {
      IncNValue(j0, n - 1);
      var c := IncN(j0, n - 1);
      assert Inc(c)[12..] == IncBytes(c[12..]);
      IncValue(c[12..]);
      OneMore(BeValue(j0[12..]) + n - 1);
    }
  }

  lemma OneMore(x: nat)
    ensures (x % TWO32 + 1) % TWO32 == (x + 1) % TWO32
  {
  }

  /** Bytes are determined by their number. */
  lemma {:induction false} ValueInjective(s: seq<bv8>, t: seq<bv8>)
    requires |s| == |t| && BeValue(s) == BeValue(t)
    ensures s == t
  {
    hide Number8;
    if |s| > 0 {
      var n := |s| - 1;
      assert Number8(s[n]) == Number8(t[n]) && BeValue(s[..n]) == BeValue(t[..n]);
      ByteOfNumber(s[n]);
      ByteOfNumber(t[n]);
      ValueInjective(s[..n], t[..n]);
      assert s == s[..n] + [s[n]] && t == t[..n] + [t[n]];
    }
  }

  /** Counter blocks of one message repeat exactly after 2^32 of them, so no message that the 32-bit counts allow
      repeats one, the block that masks the tag included. */
  lemma BlocksRepeat(j0: Block, m: nat, n: nat)
    ensures IncN(j0, m) == IncN(j0, n) <==> m % TWO32 == n % TWO32
  {
    hide IncN, BeValue;
    IncNValue(j0, m);
    IncNValue(j0, n);
    SameResidue(BeValue(j0[12..]), m, n);
    if m % TWO32 == n % TWO32 {
      ValueInjective(IncN(j0, m)[12..], IncN(j0, n)[12..]);
      IncNKeepsIv(j0, m);
      IncNKeepsIv(j0, n);
      assert IncN(j0, m) == IncN(j0, m)[..12] + IncN(j0, m)[12..];
      assert IncN(j0, n) == IncN(j0, n)[..12] + IncN(j0, n)[12..];
    }
  }

  lemma SameResidue(v: nat, m: nat, n: nat)
    ensures (v + m) % TWO32 == (v + n) % TWO32 <==> m % TWO32 == n % TWO32
  {
  }
}
