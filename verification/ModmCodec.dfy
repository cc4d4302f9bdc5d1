/** Scalars to and from bytes: the 512-bit and raw 256-bit expansions and the 32-byte contraction. */
module ModmCodec {
  import opened Arith
  import opened Words
  import opened Bytes
  import opened Modm

  const TWO8: int := 0x100
  const TWO16: int := 0x1_0000
  const TWO24: int := 0x100_0000
  const TWO48: int := 0x1_0000_0000_0000
  const TWO192: int := 0x1_0000_0000_0000_0000_0000_0000_0000_0000_0000_0000_0000_0000

  /** Four 64-bit words as one number. */
  function Words4(x0: int, x1: int, x2: int, x3: int): int {
    x0 + TWO64 * x1 + TWO128 * x2 + TWO192 * x3
  }

  /** `((a >> s) | (b << t)) & mask` with `s`, `t` and `mask + 1` given as powers of two. */
  method Straddle(a: uint64, s: int, b: uint64, t: int, size: int, ghost u: int, ghost v: int) returns (r: uint64)
    requires 0 < s && 0 < t && 0 < u && 0 < v && s * t == TWO64 && t * u == size && u * v == s && size < TWO64
    ensures r == a / s + t * (b % u) && a / s < t
  {
    StraddleFacts(a, s, b, t, size, u, v);
    r := DisjointOr(Wrap64(b * t), a / s, t) % size;
  }

  lemma StraddleFacts(a: int, s: int, b: int, t: int, size: int, u: int, v: int)
    requires 0 <= a < TWO64 && 0 <= b < TWO64
    requires 0 < s && 0 < t && 0 < u && 0 < v && s * t == TWO64 && t * u == size && u * v == s
    ensures a / s < t && b * t % TWO64 == t * (b % s) && b * t % TWO64 % t == 0
    ensures (t * (b % s) + a / s) % size == a / s + t * (b % u)
  {
    QuotientBelow(a, s, t);
    ShiftInWord(b, s, t);
    DivModUnique(t * (b % s), t, b % s, 0);
    ModOfMod(b, u, v);
    JoinInWord(b % s, a / s, t, u);
  }

  /** The limbs of `x mod 2^264`. */
  method LowLimbs(x0: uint64, x1: uint64, x2: uint64, x3: uint64, x4: uint64)
    returns (y0: uint64, y1: uint64, y2: uint64, y3: uint64, y4: uint64)
    ensures y0 < B && y1 < B && y2 < B && y3 < B && y4 < TWO40
    ensures Value(y0, y1, y2, y3, y4) == Words4(x0, x1, x2, x3) + TWO256 * (x4 % TWO8)
  {
    y0 := x0 % B;
    y1 := Straddle(x0, B, x1, TWO8, B, TWO48, TWO8);
    y2 := Straddle(x1, TWO48, x2, TWO16, B, TWO40, TWO8);
    y3 := Straddle(x2, TWO40, x3, TWO24, B, TWO32, TWO8);
    y4 := Straddle(x3, TWO32, x4, TWO32, TWO40, TWO8, TWO24);
  }

  /** The limbs of `x >> 248`, from the words above bit 192. */
  method HighLimbs(x3: uint64, x4: uint64, x5: uint64, x6: uint64, x7: uint64)
    returns (y0: uint64, y1: uint64, y2: uint64, y3: uint64, y4: uint64)
    ensures y0 < B && y1 < B && y2 < B && y3 < B && y4 < TWO40
    ensures Value(y0, y1, y2, y3, y4) == x3 / B + TWO8 * Words4(x4, x5, x6, x7)
  {
    y0 := Straddle(x3, B, x4, TWO8, B, TWO48, TWO8);
    y1 := Straddle(x4, TWO48, x5, TWO16, B, TWO40, TWO8);
    y2 := Straddle(x5, TWO40, x6, TWO24, B, TWO32, TWO8);
    y3 := Straddle(x6, TWO32, x7, TWO32, B, TWO24, TWO8);
    y4 := x7 / TWO24;
  }

  /** An eight-byte little-endian load. */
  function Load64(s: seq<uint8>): (r: uint64)
    requires |s| == 8
    ensures r == Le(s)
  {
    LoadIsLe(s);
    var b: seq<int> := s;
    b[0] + TWO8 * b[1] + TWO16 * b[2] + TWO24 * b[3] + TWO32 * b[4] + TWO40 * b[5] + TWO48 * b[6] + B * b[7]
  }

  lemma LoadIsLe(s: seq<uint8>)
    requires |s| == 8
    ensures var b: seq<int> := s;
            Le(s) == b[0] + TWO8 * b[1] + TWO16 * b[2] + TWO24 * b[3] + TWO32 * b[4] + TWO40 * b[5] + TWO48 * b[6]
            + B * b[7]
  {
    var b: seq<int> := s;
    assert s[1..][1..] == s[2..];
    assert s[2..][1..] == s[3..] && s[3..][1..] == s[4..] && s[4..][1..] == s[5..];
    assert s[5..][1..] == s[6..] && s[6..][1..] == s[7..] && s[7..][1..] == [];
    assert Le(s[7..]) == b[7];
    assert Le(s[6..]) == b[6] + 0x100 * b[7];
    assert Le(s[4..]) == b[4] + 0x100 * (b[5] + 0x100 * Le(s[6..]));
    assert Le(s[2..]) == b[2] + 0x100 * (b[3] + 0x100 * Le(s[4..]));
  }

  lemma LePair(s: seq<uint8>, n: nat)
    requires |s| == 2 * n && (n == 8 || n == 16 || n == 32)
    ensures n == 8 ==> Le(s) == Le(s[..n]) + TWO64 * Le(s[n..])
    ensures n == 16 ==> Le(s) == Le(s[..n]) + TWO128 * Le(s[n..])
    ensures n == 32 ==> Le(s) == Le(s[..n]) + TWO256 * Le(s[n..])
  {
    assert s == s[..n] + s[n..];
    LeConcat(s[..n], s[n..]);
    Pow2Word(8 * n);
  }

  /** 32 bytes as four loaded words. */
  lemma LeOfWords(s: seq<uint8>)
    requires |s| == 32
    ensures Le(s) == Words4(Le(s[..8]), Le(s[8..16]), Le(s[16..24]), Le(s[24..]))
  {
    LePair(s, 16);
    LePair(s[..16], 8);
    LePair(s[16..], 8);
    assert s[..16][..8] == s[..8] && s[..16][8..] == s[8..16] && s[16..][..8] == s[16..24] && s[16..][8..] == s[24..];
  }

  /** Cuts a 64-byte number at bit 264. */
  method CutLow(work: seq<uint8>) returns (y: seq<uint64>)
    requires |work| == 64
    ensures Limbs(y, TWO40) && Val(y) == Le(work) % TWO264
  {
    hide Value, Words4, Le;
    var y0, y1, y2, y3, y4 := LowLimbs(Load64(work[..8]), Load64(work[8..16]), Load64(work[16..24]),
                                       Load64(work[24..32]), Load64(work[32..40]));
    LowCut(work, Le(work), y0, y1, y2, y3, y4);
    y := [y0, y1, y2, y3, y4];
  }

  /** Cuts a 64-byte number at bit 248. */
  method CutHigh(work: seq<uint8>) returns (y: seq<uint64>)
    requires |work| == 64 && Le(work) < TWO512
    ensures Limbs(y, TWO40) && Val(y) == Le(work) / TWO248
  {
    hide Value, Words4, Le;
    var y0, y1, y2, y3, y4 := HighLimbs(Load64(work[24..32]), Load64(work[32..40]), Load64(work[40..48]),
                                        Load64(work[48..56]), Load64(work[56..]));
    HighCut(work, Le(work));
    y := [y0, y1, y2, y3, y4];
  }

  /** Reduces a little-endian number of at most 64 bytes; below 32 bytes it is small enough already. */
  method Expand256(out: array<uint64>, input: seq<uint8>)
    requires out.Length == 5 && |input| <= 64
    modifies out
    ensures Limbs(out[..], TWO32) && Val(out[..]) == Le(input) % M
  {
    hide Value, Le;
    var work := input + seq(64 - |input|, i => 0);
    PaddedValue(input, work);
    var low := CutLow(work);
    out[0], out[1], out[2], out[3], out[4] := low[0], low[1], low[2], low[3], low[4];
    assert out[..] == low;
    if |input| < 32 {
      ShortValue(input, low);
      return;
    }
    var high := CutHigh(work);
    var q1 := new uint64[5](i requires 0 <= i < 5 => high[i]);
    assert q1[..] == high;
    BarrettReduce256(out, q1, out, Le(input));
  }

  lemma PaddedValue(input: seq<uint8>, work: seq<uint8>)
    requires |input| <= 64 && work == input + seq(64 - |input|, i => 0)
    ensures Le(work) == Le(input) < TWO512
  {
    hide Le, Pow2;
    LePadded(input, 64 - |input|);
    LePair(work, 32);
    LeBound32(work[..32]);
    LeBound32(work[32..]);
  }

  lemma LeBound32(s: seq<uint8>)
    requires |s| == 32
    ensures Le(s) < TWO256
  {
    LeBound(s);
    Pow2Word(8 * |s|);
  }

  lemma LeBound8(s: seq<uint8>)
    requires |s| == 8
    ensures Le(s) < TWO64
  {
    LeBound(s);
    Pow2Word(8 * |s|);
  }

  lemma LowCut(work: seq<uint8>, x: int, y0: int, y1: int, y2: int, y3: int, y4: int)
    requires |work| == 64 && x == Le(work)
    requires Value(y0, y1, y2, y3, y4)
          == Words4(Le(work[..8]), Le(work[8..16]), Le(work[16..24]), Le(work[24..32]))
          + TWO256 * (Le(work[32..40]) % TWO8)
    ensures Value(y0, y1, y2, y3, y4) == x % TWO264
  {
    hide Le, Words4, Value;
    var lo, hi := work[..32], work[32..];
    LePair(work, 32);
    LeOfWords(lo);
    LeOfWords(hi);
    LeBound32(lo);
    assert lo[..8] == work[..8] && lo[8..16] == work[8..16] && lo[16..24] == work[16..24] && lo[24..] == work[24..32];
    assert hi[..8] == work[32..40];
    JoinInWord(Le(hi), Le(lo), TWO256, TWO8);
    HighMod(Le(hi[..8]), Le(hi[8..16]), Le(hi[16..24]), Le(hi[24..]));
  }

  lemma HighMod(x4: int, x5: int, x6: int, x7: int)
    ensures Words4(x4, x5, x6, x7) % TWO8 == x4 % TWO8
  {
  }

  lemma HighCut(work: seq<uint8>, x: int)
    requires |work| == 64 && x == Le(work) < TWO512
    ensures x / TWO248
         == Le(work[24..32]) / B + TWO8 * Words4(Le(work[32..40]), Le(work[40..48]), Le(work[48..56]), Le(work[56..]))
  {
    hide Le;
    var lo, hi := work[..32], work[32..];
    LePair(work, 32);
    LeOfWords(lo);
    LeOfWords(hi);
    assert lo[24..] == work[24..32] && hi[..8] == work[32..40] && hi[8..16] == work[40..48];
    assert hi[16..24] == work[48..56] && hi[24..] == work[56..];
    var low := Le(lo[..8]) + TWO64 * Le(lo[8..16]) + TWO128 * Le(lo[16..24]);
    LeBound8(lo[..8]);
    LeBound8(lo[8..16]);
    LeBound8(lo[16..24]);
    var x3 := Le(lo[24..]);
    DivModUnique(x, TWO248, x3 / B + TWO8 * Le(hi), low + TWO192 * (x3 % B));
  }

  lemma ShortValue(input: seq<uint8>, y: seq<int>)
    requires |input| < 32 && Limbs(y, TWO40) && Val(y) == Le(input) % TWO264
    ensures Limbs(y, TWO32) && Val(y) == Le(input) % M
  {
    assert Le(input) < TWO248 by {
      var t := input + seq(31 - |input|, i => 0);
      LePadded(input, 31 - |input|);
      LeBound(t);
      Pow2Word(8 * |t| + 8);
      Pow2Next(8 * |t|);
    }
    DivModUnique(Le(input), M, 0, Le(input));
    DivModUnique(Le(input), TWO264, 0, Le(input));
    TopLimb(y, TWO40, TWO248);
  }

  /** Loads 32 bytes without reducing. */
  method ExpandRaw256(out: array<uint64>, input: seq<uint8>)
    requires out.Length == 5 && |input| == 32
    modifies out
    ensures Limbs(out[..], TWO32) && Val(out[..]) == Le(input)
  {
    hide Le, Value, Words4;
    LeOfWords(input);
    LeBound32(input);
    var y0, y1, y2, y3, y4 := LowLimbs(
      Load64(input[..8]), Load64(input[8..16]), Load64(input[16..24]), Load64(input[24..]), 0);
    TopLimb([y0, y1, y2, y3, y4], TWO40, TWO256);
    out[0], out[1], out[2], out[3], out[4] := y0, y1, y2, y3, y4 % TWO32;
  }

  /** Packs five limbs into four words. */
  method PackWords(x0: uint64, x1: uint64, x2: uint64, x3: uint64, x4: uint64)
    returns (w0: uint64, w1: uint64, w2: uint64, w3: uint64)
    requires x0 < B && x1 < B && x2 < B && x3 < B && x4 < TWO32
    ensures Words4(w0, w1, w2, w3) == Value(x0, x1, x2, x3, x4)
  {
    w0 := PackWord(x0, x1, TWO8, B);
    w1 := PackWord(x1 / TWO8, x2, TWO16, TWO48);
    w2 := PackWord(x2 / TWO16, x3, TWO24, TWO40);
    w3 := PackWord(x3 / TWO24, x4, TWO32, TWO32);
  }

  /** `lo | (hi << t)` in a 64-bit word of `s * t`. */
  method PackWord(lo: uint64, hi: uint64, s: int, t: int) returns (r: uint64)
    requires 0 < s && lo < t && s * t == TWO64
    ensures r == lo + t * (hi % s)
  {
    ShiftInWord(hi, s, t);
    DivModUnique(t * (hi % s), t, hi % s, 0);
    JoinInWord(hi, lo, t, s);
    r := DisjointOr(Wrap64(hi * t), lo, t);
  }

  /** Writes the unique 32-byte encoding of a scalar. */
  method Contract256(input: array<uint64>) returns (out: seq<uint8>)
    requires input.Length == 5 && Limbs(input[..], TWO32)
    ensures |out| == 32 && Le(out) == Val(input[..])
  {
    hide Le, Value, Words4;
    var w0, w1, w2, w3 := PackWords(input[0], input[1], input[2], input[3], input[4]);
    StoreLoad(w0);
    StoreLoad(w1);
    StoreLoad(w2);
    StoreLoad(w3);
    out := ToLe(8, w0) + ToLe(8, w1) + ToLe(8, w2) + ToLe(8, w3);
    LeOfWords(out);
    assert out[..8] == ToLe(8, w0) && out[8..16] == ToLe(8, w1) && out[16..24] == ToLe(8, w2)
           && out[24..] == ToLe(8, w3);
  }

  lemma StoreLoad(w: int)
    requires 0 <= w < TWO64
    ensures Le(ToLe(8, w)) == w
  {
    LeOfToLe(8, w);
    var n: nat := 8;
    Pow2Word(8 * n);
  }
}
