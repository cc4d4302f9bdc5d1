/** Signed-digit recodings of a scalar: the in-place sliding window and the signed radix 16. */
module Recode {
  import opened Arith
  import opened Words
  import opened Bytes
  import Modm

  const DIGITS: nat := 256

  /** The number written by digits `a .. a + n - 1`, digit `a` counting once. */
  ghost function Seg(s: seq<int>, a: nat, n: nat): int
    requires a + n <= |s|
    decreases n, s
  {
    if n == 0 then 0 else s[a] + 2 * Seg(s, a + 1, n - 1)
  }

  ghost predicate Bits(s: seq<int>, a: nat, n: nat)
    requires a + n <= |s|
  {
    forall i :: a <= i < a + n ==> s[i] == 0 || s[i] == 1
  }

  lemma Distribute(x: int, p: int, q: int)
    ensures 2 * (x + p * q) == 2 * x + (2 * p) * q
  {
  }

  lemma {:induction false} SegSplit(s: seq<int>, a: nat, m: nat, n: nat)
    requires a + m + n <= |s|
    ensures Seg(s, a, m + n) == Seg(s, a, m) + Pow2(m) * Seg(s, a + m, n)
    decreases m
  {
    if m > 0 {
      SegSplit(s, a + 1, m - 1, n);
      assert Seg(s, a, m + n) == s[a] + 2 * Seg(s, a + 1, m - 1 + n);
      Distribute(Seg(s, a + 1, m - 1), Pow2(m - 1), Seg(s, a + m, n));
    }
  }

  lemma {:induction false} SegSame(s: seq<int>, t: seq<int>, a: nat, n: nat)
    requires a + n <= |s| && a + n <= |t| && forall i :: a <= i < a + n ==> s[i] == t[i]
    ensures Seg(s, a, n) == Seg(t, a, n)
    decreases n
  {
    if n > 0 {
      SegSame(s, t, a + 1, n - 1);
    }
  }

  /** What changing one digit does to the number. */
  lemma {:induction false} SegSet(s: seq<int>, a: nat, n: nat, i: nat, v: int)
    requires a <= i < a + n <= |s|
    ensures Seg(s[i := v], a, n) == Seg(s, a, n) + Pow2(i - a) * (v - s[i])
    decreases n
  {
    if i == a {
      SegSame(s, s[i := v], a + 1, n - 1);
    } else {
      SegSet(s, a + 1, n - 1, i, v);
      Distribute(Seg(s, a + 1, n - 1), Pow2(i - a - 1), v - s[i]);
    }
  }

  lemma {:induction false} BitsRange(s: seq<int>, a: nat, n: nat)
    requires a + n <= |s| && Bits(s, a, n)
    ensures 0 <= Seg(s, a, n) < Pow2(n)
    decreases n
  {
    if n > 0 {
      BitsRange(s, a + 1, n - 1);
    }
  }

  lemma {:induction false} Pow2Grows(m: nat, n: nat)
    requires m <= n
    ensures Pow2(m) <= Pow2(n)
    decreases n
  {
    if m < n {
      Pow2Grows(m, n - 1);
    }
  }

  /** Adds one at position `p` of a run of bits, carrying upwards; the carry never leaves the array. */
  method Ripple(r: array<int8>, p: nat)
    requires r.Length == DIGITS && p < DIGITS && Bits(r[..], p, DIGITS - p) && r[p] == 1
    requires Seg(r[..], p, DIGITS - p) + 1 < Pow2(DIGITS - p)
    modifies r
    ensures r[..p] == old(r[..p]) && Bits(r[..], p, DIGITS - p) && r[p] == 0
    ensures Seg(r[..], p, DIGITS - p) == old(Seg(r[..], p, DIGITS - p)) + 1
  {
    var k := p;
    ghost var n := DIGITS - p;
    ghost var goal := Seg(r[..], p, n) + 1;
    while k < DIGITS
      invariant p <= k <= DIGITS
      invariant r[..p] == old(r[..p]) && Bits(r[..], p, n)
      invariant k > p ==> r[p] == 0
      invariant forall i :: p <= i < k ==> r[i] == 0
      invariant forall i :: k <= i < DIGITS ==> r[i] == old(r[i])
      invariant Seg(r[..], p, n) + Pow2(k - p) == goal
    {
      ghost var before := r[..];
      if r[k] == 0 {
        SegSet(before, p, n, k, 1);
        r[k] := 1;
        assert r[..] == before[k := 1];
        return;
      }
      SegSet(before, p, n, k, 0);
      r[k] := 0;
      assert r[..] == before[k := 0];
      k := k + 1;
    }
    BitsRange(r[..], p, n);
    assert false;
  }

  /** The largest digit magnitude of a window of `w` bits. */
  function MaxDigit(w: nat): (m: int)
    requires 1 <= w
    ensures 0 <= m
  {
    Pow2(w - 1) - 1
  }

  ghost predicate Digit(d: int, m: int) {
    d % 2 == 1 && -m <= d <= m
  }

  /** Digits below `j` are final: zero or odd and in range, and every nonzero one is followed by `w - 1` zeros. */
  ghost predicate Recoded(r: seq<int>, j: nat, w: nat)
    requires 1 <= w && j <= |r|
  {
    && (forall k :: 0 <= k < j ==> r[k] == 0 || Digit(r[k], MaxDigit(w)))
    && (forall k, l :: 0 <= k < j && k < l < k + w && l < |r| && r[k] != 0 ==> r[l] == 0)
  }

  /** The digits from `t` up are bits, and exceed the scalar's own bits there by at most one carry. */
  ghost predicate Pending(r: seq<int>, t: nat, s: int)
    requires |r| == DIGITS && t <= DIGITS
  {
    Bits(r, t, DIGITS - t) && Pow2(t) * Seg(r, t, DIGITS - t) <= s + Pow2(t)
  }

  /** Digit `j` is being widened and has absorbed the `b - 1` positions above it. */
  ghost predicate Widening(r: seq<int>, j: nat, b: nat, w: nat, s: int)
    requires |r| == DIGITS && 1 <= w && 1 <= b && j + b <= DIGITS
  {
    && Seg(r, 0, DIGITS) == s
    && Recoded(r, j, w)
    && (forall k :: 0 <= k < j && r[k] != 0 ==> k + w <= j)
    && Digit(r[j], MaxDigit(w))
    && (forall k :: j < k < j + b ==> r[k] == 0)
    && -Pow2(j) <= Seg(r, 0, j)
    && Pending(r, j + b, s)
  }

  /** Which digits a window of `w` bits can still take in. */
  lemma WindowReach(d: int, b: nat, w: nat)
    requires 2 <= w && 1 <= b && Digit(d, MaxDigit(w))
    ensures b < w && 0 < d ==> d - Pow2(b) >= -MaxDigit(w)
    ensures b < w && d < 0 ==> d + Pow2(b) <= MaxDigit(w)
    ensures w <= b ==> d + Pow2(b) > MaxDigit(w) && d - Pow2(b) < -MaxDigit(w)
    ensures Pow2(b) % 2 == 0
  {
    if b < w {
      Pow2Grows(b, w - 1);
    } else {
      Pow2Grows(w, b);
    }
  }

  /** The split of the number at a digit followed by zeros. */
  lemma SplitAtDigit(r: seq<int>, j: nat, b: nat)
    requires |r| == DIGITS && 1 <= b && j + b <= DIGITS && forall i :: j < i < j + b ==> r[i] == 0
    ensures Seg(r, 0, DIGITS) == Seg(r, 0, j) + Pow2(j) * r[j] + Pow2(j + b) * Seg(r, j + b, DIGITS - j - b)
  {
    hide Seg, Pow2;
    var n := DIGITS - j - b;
    SegSplit(r, 0, j, DIGITS - j);
    SegSplit(r, j, b, n);
    SegLone(r, j, b);
    Pow2Adds(j, b);
    Nest(Pow2(j), r[j], Pow2(b), Seg(r, j + b, n));
  }

  lemma Nest(p: int, a: int, q: int, x: int)
    ensures p * (a + q * x) == p * a + (p * q) * x
  {
  }

  /** A digit followed by zeros. */
  lemma SegLone(s: seq<int>, j: nat, b: nat)
    requires 1 <= b && j + b <= |s| && forall i :: j < i < j + b ==> s[i] == 0
    ensures Seg(s, j, b) == s[j]
  {
    SegZero(s, j + 1, b - 1);
  }

  lemma {:induction false} SegZero(s: seq<int>, a: nat, n: nat)
    requires a + n <= |s| && forall i :: a <= i < a + n ==> s[i] == 0
    ensures Seg(s, a, n) == 0
    decreases n
  {
    if n > 0 {
      SegZero(s, a + 1, n - 1);
    }
  }

  /** Moving `c` units from digit `j + b` to digit `j` keeps the number. */
  lemma MoveUnits(r: seq<int>, j: nat, b: nat, c: int, d: int)
    requires |r| == DIGITS && 1 <= b && j + b < DIGITS && d == r[j] + c * Pow2(b)
    ensures Seg(r[j := d][j + b := r[j + b] - c], 0, DIGITS) == Seg(r, 0, DIGITS)
  {
    hide Seg, Pow2;
    SegSet(r, 0, DIGITS, j, d);
    SegSet(r[j := d], 0, DIGITS, j + b, r[j + b] - c);
    Pow2Adds(j, b);
    Regroup(Pow2(j), c, Pow2(b));
  }

  lemma Regroup(p: int, c: int, q: int)
    ensures p * (c * q) + (p * q) * -c == 0
  {
  }

  /** Finished digits stay finished while digits from `j` on change. */
  lemma RecodedFrame(r: seq<int>, t: seq<int>, j: nat, w: nat)
    requires |r| == |t| == DIGITS && 1 <= w && j <= DIGITS && Recoded(r, j, w)
    requires forall k :: 0 <= k < j ==> t[k] == r[k] && (r[k] != 0 ==> k + w <= j)
    ensures Recoded(t, j, w)
  {
  }

  /** Taking a set bit into the digit by adding: the digit gains what the bit was worth. */
  lemma Absorb(r: seq<int>, j: nat, b: nat, w: nat, s: int, d: int)
    requires |r| == DIGITS && 2 <= w && 1 <= b && j + b < DIGITS && Widening(r, j, b, w, s)
    requires r[j + b] == 1 && d == r[j] + Pow2(b) <= MaxDigit(w)
    ensures Widening(r[j := d][j + b := 0], j, b + 1, w, s)
  {
    hide Seg, Pow2, Recoded, MaxDigit, Pending;
    var p := j + b;
    var t := r[j := d][p := 0];
    MoveUnits(r, j, b, 1, d);
    RecodedFrame(r, t, j, w);
    SegSame(r, t, 0, j);
    NextPending(r, p, s);
    PendingFrame(r, t, p + 1, s);
    WindowReach(r[j], b, w);
  }

  /** Passing over a clear bit. */
  lemma PassOver(r: seq<int>, j: nat, b: nat, w: nat, s: int)
    requires |r| == DIGITS && 2 <= w && 1 <= b && j + b < DIGITS && Widening(r, j, b, w, s) && r[j + b] == 0
    ensures Widening(r, j, b + 1, w, s)
  {
    hide Seg, Pow2, Recoded, MaxDigit, Pending;
    NextPending(r, j + b, s);
  }

  lemma PendingFrame(r: seq<int>, t: seq<int>, p: nat, s: int)
    requires |r| == |t| == DIGITS && p <= DIGITS && Pending(r, p, s) && forall i :: p <= i < DIGITS ==> t[i] == r[i]
    ensures Pending(t, p, s)
  {
    SegSame(r, t, p, DIGITS - p);
  }

  lemma NextPending(r: seq<int>, p: nat, s: int)
    requires |r| == DIGITS && p < DIGITS && Pending(r, p, s)
    ensures Pending(r, p + 1, s)
  {
    var x, y := Seg(r, p, DIGITS - p), Seg(r, p + 1, DIGITS - p - 1);
    Doubling(Pow2(p), x, y, r[p]);
  }

  lemma Doubling(p: int, x: int, y: int, c: int)
    requires x == c + 2 * y && 0 <= c && 0 <= p
    ensures (2 * p) * y <= p * x
  {
    assert p * x == p * c + (2 * p) * y;
  }

  /** A borrow is only taken for a positive digit, so the bits above still stand for no more than the
      scalar and have room for the carry. */
  lemma BorrowRoom(r: seq<int>, j: nat, b: nat, w: nat, s: int)
    requires |r| == DIGITS && 2 <= w && 1 <= b && j + b < DIGITS && Widening(r, j, b, w, s) && s < Pow2(DIGITS - 1)
    requires r[j + b] == 1 && r[j] + Pow2(b) > MaxDigit(w) && r[j] - Pow2(b) >= -MaxDigit(w)
    ensures 0 < r[j] && Pow2(j + b) * Seg(r, j + b, DIGITS - j - b) <= s
    ensures Seg(r, j + b, DIGITS - j - b) + 1 < Pow2(DIGITS - j - b)
  {
    hide Seg, Pow2, Recoded, MaxDigit;
    var p := j + b;
    var x := Seg(r, p, DIGITS - p);
    WindowReach(r[j], b, w);
    assert 0 < r[j];
    SplitAtDigit(r, j, b);
    AtLeastOnce(Pow2(j), r[j]);
    assert Pow2(p) * x <= s;
    RoomBelow(p, x, s);
  }

  lemma AtLeastOnce(p: int, d: int)
    requires 0 <= p && 1 <= d
    ensures p <= p * d
  {
    assert 0 <= p * (d - 1);
  }

  lemma RoomBelow(p: nat, x: int, s: int)
    requires p < DIGITS && Pow2(p) * x <= s < Pow2(DIGITS - 1)
    ensures x + 1 < Pow2(DIGITS - p)
  {
    hide Pow2;
    Pow2Adds(p, DIGITS - 1 - p);
    var q := Pow2(DIGITS - 1 - p);
    if q <= x {
      MulBounds(Pow2(p), q, Pow2(p), x);
    }
    assert Pow2(DIGITS - p) == 2 * q by { Pow2Step(DIGITS - 1 - p); }
  }

  lemma Pow2Step(n: nat)
    ensures Pow2(n + 1) == 2 * Pow2(n)
  {
  }

  /** Taking a bit into the digit by subtracting and carrying one upwards. */
  lemma Borrowed(r: seq<int>, t: seq<int>, j: nat, b: nat, w: nat, s: int)
    requires |r| == |t| == DIGITS && 2 <= w && 1 <= b && j + b < DIGITS && Widening(r, j, b, w, s)
    requires r[j] - Pow2(b) >= -MaxDigit(w) && t[j] == r[j] - Pow2(b)
    requires forall k :: 0 <= k < j + b && k != j ==> t[k] == r[k]
    requires Pow2(j + b) * Seg(r, j + b, DIGITS - j - b) <= s
    requires t[j + b] == 0 && Bits(t, j + b, DIGITS - j - b)
    requires Seg(t, j + b, DIGITS - j - b) == Seg(r, j + b, DIGITS - j - b) + 1
    ensures Widening(t, j, b + 1, w, s)
  {
    hide Seg, Pow2, Recoded, MaxDigit, Pending;
    BorrowValue(r, t, j, b, s);
    SegSame(r, t, 0, j);
    RecodedFrame(r, t, j, w);
    WindowReach(r[j], b, w);
    NextPending(t, j + b, s);
  }

  lemma BorrowValue(r: seq<int>, t: seq<int>, j: nat, b: nat, s: int)
    requires |r| == |t| == DIGITS && 1 <= b && j + b < DIGITS && Seg(r, 0, DIGITS) == s
    requires forall i :: j < i < j + b ==> r[i] == 0
    requires forall k :: 0 <= k < j + b && k != j ==> t[k] == r[k]
    requires t[j] == r[j] - Pow2(b) && Bits(t, j + b, DIGITS - j - b)
    requires Seg(t, j + b, DIGITS - j - b) == Seg(r, j + b, DIGITS - j - b) + 1
    requires Pow2(j + b) * Seg(r, j + b, DIGITS - j - b) <= s
    ensures Seg(t, 0, DIGITS) == s && Pending(t, j + b, s)
  {
    hide Seg, Pow2;
    SplitAtDigit(r, j, b);
    SplitAtDigit(t, j, b);
    SegSame(r, t, 0, j);
    Pow2Adds(j, b);
    Transfer(Pow2(j), r[j], Pow2(b), Seg(r, j + b, DIGITS - j - b));
  }

  lemma Transfer(p: int, d: int, q: int, x: int)
    ensures p * (d - q) + (p * q) * (x + 1) == p * d + (p * q) * x
    ensures (p * q) * (x + 1) == (p * q) * x + p * q
  {
  }

  lemma DigitSize(w: nat)
    requires 2 <= w <= 7
    ensures MaxDigit(w) <= 63
  {
    Pow2Grows(w - 1, 6);
  }

  /** What the inner loop reads off the digit and the next bit. */
  lemma WideningBit(r: seq<int>, j: nat, b: nat, w: nat, s: int)
    requires |r| == DIGITS && 1 <= w && 1 <= b && j + b < DIGITS && Widening(r, j, b, w, s)
    ensures (r[j + b] == 0 || r[j + b] == 1) && Bits(r, j + b, DIGITS - j - b) && Digit(r[j], MaxDigit(w))
  {
  }

  /** The digit is done when its window is full or the array ends. */
  lemma Finished(r: seq<int>, j: nat, b: nat, w: nat, s: int)
    requires |r| == DIGITS && 2 <= w && 1 <= b && j + b <= DIGITS && Widening(r, j, b, w, s)
    requires w <= b || j + b == DIGITS
    ensures Seg(r, 0, DIGITS) == s && Recoded(r, j + 1, w) && (forall k :: j < k < j + b ==> r[k] == 0)
    ensures Pending(r, j + b, s)
  {
  }

  /** The inner loop: widens digit `j` over the bits above it. */
  method Widen(r: array<int8>, j: nat, w: nat, ghost s: int) returns (ghost p: nat)
    requires r.Length == DIGITS && j < DIGITS && 2 <= w <= 7
    requires Widening(r[..], j, 1, w, s) && s < Pow2(DIGITS - 1)
    modifies r
    ensures j < p <= DIGITS && Seg(r[..], 0, DIGITS) == s && Recoded(r[..], j + 1, w)
    ensures (forall k :: j < k < p ==> r[k] == 0) && Pending(r[..], p, s)
  {
    hide Seg, Pow2, Recoded, Pending, Widening;
    var b := 1;
    while b < DIGITS - j && b <= 6
      invariant 1 <= b <= 7 && j + b <= DIGITS
      invariant Widening(r[..], j, b, w, s)
    {
      var stop := WidenBit(r, j, b, w, s);
      if stop {
        break;
      }
      b := b + 1;
    }
    p := j + b;
    Finished(r[..], j, b, w, s);
  }

  /** One bit of the inner loop: absorb it, borrow for it, or stop at it. */
  method WidenBit(r: array<int8>, j: nat, b: nat, w: nat, ghost s: int) returns (stop: bool)
    requires r.Length == DIGITS && 1 <= b && j + b < DIGITS && 2 <= w <= 7
    requires Widening(r[..], j, b, w, s) && s < Pow2(DIGITS - 1)
    modifies r
    ensures !stop ==> Widening(r[..], j, b + 1, w, s)
    ensures stop ==> w <= b && r[..] == old(r[..])
  {
    hide Seg, Pow2, Recoded, Pending, Widening, Bits, MaxDigit;
    DigitSize(w);
    var m := MaxDigit(w);
    ghost var before: seq<int> := r[..];
    WideningBit(before, j, b, w, s);
    WindowReach(r[j], b, w);
    var shifted := r[j + b] * Pow2(b);
    stop := false;
    if r[j] + shifted <= m {
      if r[j + b] == 0 {
        PassOver(before, j, b, w, s);
      } else {
        Absorb(before, j, b, w, s, r[j] + shifted);
      }
      r[j] := r[j] + shifted;
      r[j + b] := 0;
      assert r[..] == before[j := before[j] + shifted][j + b := 0];
      assert before[j + b] == 0 ==> r[..] == before;
    } else if r[j] - shifted >= -m {
      BorrowRoom(before, j, b, w, s);
      r[j] := r[j] - shifted;
      SegSame(before, r[..], j + b, DIGITS - j - b);
      BitsFrame(before, r[..], j + b);
      Ripple(r, j + b);
      assert forall k :: 0 <= k < j + b ==> r[k] == r[..j + b][k];
      Borrowed(before, r[..], j, b, w, s);
    } else {
      stop := r[j + b] != 0;
    }
  }

  lemma BitsFrame(r: seq<int>, t: seq<int>, p: nat)
    requires |r| == |t| == DIGITS && p <= DIGITS && Bits(r, p, DIGITS - p)
            && forall i :: p <= i < DIGITS ==> t[i] == r[i]
    ensures Bits(t, p, DIGITS - p)
  {
  }

  /** A digit that is still a bit starts out widened over nothing. */
  lemma StartWidening(r: seq<int>, j: nat, w: nat, s: int)
    requires |r| == DIGITS && 2 <= w && j < DIGITS && r[j] != 0
    requires Seg(r, 0, DIGITS) == s && Recoded(r, j, w) && Pending(r, j, s)
    ensures Widening(r, j, 1, w, s)
  {
    hide Seg, Pow2;
    assert r[j] == 1;
    assert Digit(r[j], MaxDigit(w)) by {
      Pow2Grows(1, w - 1);
      Pow2Step(0);
    }
    SegSplit(r, 0, j, DIGITS - j);
    NextPending(r, j, s);
  }

  /** The outer loop, on an array that holds the bits of `s`. */
  method MakeSliding(r: array<int8>, w: nat, ghost s: int)
    requires r.Length == DIGITS && 2 <= w <= 7
    requires Bits(r[..], 0, DIGITS) && Seg(r[..], 0, DIGITS) == s && s < Pow2(DIGITS - 1)
    modifies r
    ensures Seg(r[..], 0, DIGITS) == s && Recoded(r[..], DIGITS, w)
  {
    hide Seg;
    var j := 0;
    ghost var t := 0;
    while j < DIGITS
      invariant 0 <= j <= DIGITS && j <= t <= DIGITS
      invariant Seg(r[..], 0, DIGITS) == s && Recoded(r[..], j, w) && Pending(r[..], t, s)
      invariant forall k :: j <= k < t ==> r[k] == 0
    {
      if r[j] != 0 {
        StartWidening(r[..], j, w, s);
        t := Widen(r, j, w, s);
      } else if t == j {
        NextPending(r[..], j, s);
        t := j + 1;
      }
      j := j + 1;
    }
  }

  /** Writes the low `count` bits of a limb, least significant first. */
  method WriteBits(r: array<int8>, start: nat, limb: uint64, count: nat)
    requires r.Length == DIGITS && start + count <= DIGITS && limb < Pow2(count)
    modifies r
    ensures r[..start] == old(r[..start]) && Bits(r[..], start, count) && Seg(r[..], start, count) == limb
  {
    hide Seg, Pow2;
    var v: uint64 := limb;
    var j := 0;
    assert Pow2(j) == 1 && Seg(r[..], start, j) == 0 by { SegEmpty(r[..], start); }
    while j < count
      invariant 0 <= j <= count && r[..start] == old(r[..start])
      invariant Bits(r[..], start, j)
      invariant limb == Seg(r[..], start, j) + Pow2(j) * v && v < Pow2(count - j)
    {
      ghost var before := r[..];
      r[start + j] := v % 2;
      BitWritten(before, r[..], start, j, count, v);
      v := v / 2;
      j := j + 1;
    }
    assert v == 0 by { SegEmpty(r[..], start); }
  }

  lemma SegEmpty(s: seq<int>, a: nat)
    requires a <= |s|
    ensures Seg(s, a, 0) == 0 && Pow2(0) == 1
  {
  }

  lemma BitWritten(s: seq<int>, t: seq<int>, a: nat, j: nat, count: nat, v: int)
    requires |s| == |t| == DIGITS && a + j < DIGITS && j < count && t == s[a + j := v % 2] && 0 <= v < Pow2(count - j)
    ensures Seg(s, a, j) + Pow2(j) * v == Seg(t, a, j + 1) + Pow2(j + 1) * (v / 2) && v / 2 < Pow2(count - j - 1)
  {
    SegSplit(t, a, j, 1);
    SegSame(s, t, a, j);
    assert Seg(t, a + j, 1) == v % 2;
    Halves(Pow2(j), v);
  }

  lemma Halves(p: int, v: int)
    ensures p * v == p * (v % 2) + (2 * p) * (v / 2)
  {
    assert v == v % 2 + 2 * (v / 2);
    assert p * (v % 2 + 2 * (v / 2)) == p * (v % 2) + (2 * p) * (v / 2);
  }

  lemma Pow2Limb(n: nat)
    requires n == 32 || n == 56 || n == 112 || n == 168 || n == 224
    ensures n == 32 ==> Pow2(n) == TWO32
    ensures n == 56 ==> Pow2(n) == Modm.B
    ensures n == 112 ==> Pow2(n) == Modm.B2
    ensures n == 168 ==> Pow2(n) == Modm.B3
    ensures n == 224 ==> Pow2(n) == Modm.B4
  {
    hide Pow2;
    var m: nat := 56;
    var k: nat := 8;
    Pow2Word(m + 8);
    Pow2Next(m);
    Pow2Adds(m, m);
    Pow2Adds(m, 2 * m);
    Pow2Adds(m, 3 * m);
    Pow2Byte(k);
    Pow2Adds(k, k);
    Pow2Adds(2 * k, 2 * k);
  }

  /** The sliding-window recoding of a scalar below 2^255: the digits still write the scalar, every nonzero
      digit is odd and at most 2^(w-1) - 1 in magnitude, and nonzero digits are at least `w` apart. */
  method SlidingWindow(r: array<int8>, s: seq<uint64>, w: nat)
    requires r.Length == DIGITS && 2 <= w <= 7
    requires Modm.Limbs(s, TWO32) && Modm.Val(s) < Pow2(DIGITS - 1)
    modifies r
    ensures Seg(r[..], 0, DIGITS) == Modm.Val(s) && Recoded(r[..], DIGITS, w)
  {
    hide Seg, Pow2;
    Pow2Limb(56);
    Pow2Limb(112);
    Pow2Limb(168);
    Pow2Limb(224);
    Pow2Limb(32);
    var i := 0;
    assert Seg(r[..], 0, 0) == 0 by { SegEmpty(r[..], 0); }
    while i < 4
      invariant 0 <= i <= 4
      invariant Bits(r[..], 0, 56 * i)
      invariant Seg(r[..], 0, 56 * i) == Partial(s, i)
    {
      ghost var before := r[..];
      WriteBits(r, 56 * i, s[i], 56);
      LimbWritten(before, r[..], s, i, 56);
      i := i + 1;
    }
    ghost var before := r[..];
    WriteBits(r, 224, s[4], 32);
    LimbWritten(before, r[..], s, 4, 32);
    assert Partial(s, 4) + Modm.B4 * s[4] == Modm.Val(s);
    MakeSliding(r, w, Modm.Val(s));
  }

  /** The number the first `i` limbs stand for. */
  ghost function Partial(s: seq<int>, i: nat): int
    requires |s| == 5 && i <= 4
  {
    (if i > 0 then s[0] else 0) + Modm.B * (if i > 1 then s[1] else 0) + Modm.B2 * (if i > 2 then s[2] else 0)
    + Modm.B3 * (if i > 3 then s[3] else 0)
  }

  lemma LimbWritten(before: seq<int>, after: seq<int>, s: seq<int>, i: nat, count: nat)
    requires |before| == |after| == DIGITS && |s| == 5 && i <= 4 && 56 * i + count <= DIGITS
    requires before[..56 * i] == after[..56 * i] && Bits(before, 0, 56 * i) && Bits(after, 56 * i, count)
    requires Seg(before, 0, 56 * i) == Partial(s, i) && Seg(after, 56 * i, count) == s[i]
    ensures Bits(after, 0, 56 * i + count)
    ensures Seg(after, 0, 56 * i + count) == Partial(s, i) + Pow2(56 * i) * s[i]
  {
    hide Seg, Pow2, Partial;
    SegSplit(after, 0, 56 * i, count);
    assert forall k :: 0 <= k < 56 * i ==> after[k] == after[..56 * i][k] == before[..56 * i][k] == before[k];
    SegSame(before, after, 0, 56 * i);
  }

  const NIBBLES: nat := 64

  /** The number written by the radix-16 digits `a .. a + n - 1`. */
  ghost function Hex(s: seq<int>, a: nat, n: nat): int
    requires a + n <= |s|
    decreases n, s
  {
    if n == 0 then 0 else s[a] + 16 * Hex(s, a + 1, n - 1)
  }

  lemma {:induction false} HexSame(s: seq<int>, t: seq<int>, a: nat, n: nat)
    requires a + n <= |s| && a + n <= |t| && forall i :: a <= i < a + n ==> s[i] == t[i]
    ensures Hex(s, a, n) == Hex(t, a, n)
    decreases n
  {
    if n > 0 {
      HexSame(s, t, a + 1, n - 1);
    }
  }

  /** Two lists of digits that agree below `i` and, with a carry, from `i` on write the same number. */
  lemma {:induction false} HexTail(s: seq<int>, t: seq<int>, a: nat, i: nat, n: nat, carry: int)
    requires a <= i <= n && n <= |s| && n <= |t| && forall k :: a <= k < i ==> s[k] == t[k]
    requires Hex(s, i, n - i) == Hex(t, i, n - i) + carry
    ensures Hex(s, a, n - a) == Hex(t, a, n - a) + Pow2(4 * (i - a)) * carry
    decreases i - a
  {
    if a < i {
      HexTail(s, t, a + 1, i, n, carry);
      Pow2Adds(4, 4 * (i - a - 1));
      Sixteenfold(Hex(t, a + 1, n - a - 1), Pow2(4 * (i - a - 1)), carry);
    }
  }

  lemma Sixteenfold(x: int, p: int, c: int)
    ensures 16 * (x + p * c) == 16 * x + (16 * p) * c
  {
  }

  ghost predicate Nibbles(s: seq<int>, a: nat, n: nat)
    requires a + n <= |s|
  {
    forall i :: a <= i < a + n ==> 0 <= s[i] < 16
  }

  /** Writes the low `count` nibbles of a limb. */
  method WriteNibbles(r: array<int8>, start: nat, limb: uint64, count: nat)
    requires r.Length == NIBBLES && start + count <= NIBBLES && limb < Pow2(4 * count)
    modifies r
    ensures r[..start] == old(r[..start]) && Nibbles(r[..], start, count) && Hex(r[..], start, count) == limb
  {
    var v: uint64 := limb;
    var j := 0;
    while j < count
      invariant 0 <= j <= count && r[..start] == old(r[..start])
      invariant Nibbles(r[..], start, j)
      invariant limb == Hex(r[..], start, j) + Pow2(4 * j) * v && v < Pow2(4 * (count - j))
    {
      ghost var before := r[..];
      r[start + j] := v % 16;
      NibbleWritten(before, r[..], start, j, count, v);
      v := v / 16;
      j := j + 1;
    }
  }

  lemma {:induction false} HexSplit(s: seq<int>, a: nat, m: nat, n: nat)
    requires a + m + n <= |s|
    ensures Hex(s, a, m + n) == Hex(s, a, m) + Pow2(4 * m) * Hex(s, a + m, n)
    decreases m
  {
    if m > 0 {
      HexSplit(s, a + 1, m - 1, n);
      assert Hex(s, a, m + n) == s[a] + 16 * Hex(s, a + 1, m - 1 + n);
      Pow2Adds(4, 4 * (m - 1));
      Sixteenfold(Hex(s, a + 1, m - 1), Pow2(4 * (m - 1)), Hex(s, a + m, n));
    }
  }

  lemma NibbleWritten(s: seq<int>, t: seq<int>, a: nat, j: nat, count: nat, v: int)
    requires |s| == |t| == NIBBLES && a + j < NIBBLES && j < count && t == s[a + j := v % 16]
    requires 0 <= v < Pow2(4 * (count - j))
    ensures Hex(s, a, j) + Pow2(4 * j) * v == Hex(t, a, j + 1) + Pow2(4 * (j + 1)) * (v / 16)
    ensures v / 16 < Pow2(4 * (count - j - 1))
  {
    HexSplit(t, a, j, 1);
    HexSame(s, t, a, j);
    assert Hex(t, a + j, 1) == v % 16;
    Pow2Adds(4, 4 * j);
    Pow2Adds(4, 4 * (count - j - 1));
    assert v == v % 16 + 16 * (v / 16);
    Sixteenths(Pow2(4 * j), v % 16, v / 16);
  }

  lemma Pow2Nibble(n: nat)
    ensures Pow2(n + 4) == 16 * Pow2(n)
  {
    assert Pow2(n + 4) == 2 * Pow2(n + 3) == 4 * Pow2(n + 2);
  }

  lemma Sixteenths(p: int, d: int, q: int)
    ensures p * (d + 16 * q) == p * d + (16 * p) * q
  {
  }

  /** One position of the signed pass: reduces digit `i` into [-8, 8) and passes the excess upwards. */
  method SignDigit(r: array<int8>, i: nat, carry: int8) returns (next: int8)
    requires r.Length == NIBBLES && i < NIBBLES - 1 && 0 <= carry <= 1
    requires 0 <= r[i] + carry <= 16 && 0 <= r[i + 1] < 16
    modifies r
    ensures 0 <= next <= 1 && -8 <= r[i] < 8
    ensures forall k :: 0 <= k < NIBBLES && k != i && k != i + 1 ==> r[k] == old(r[k])
    ensures old(r[i + 1]) <= r[i + 1] <= old(r[i + 1]) + 1 - next
    ensures Hex(r[..], 0, NIBBLES) + Pow2(4 * (i + 1)) * next == old(Hex(r[..], 0, NIBBLES)) + Pow2(4 * i) * carry
  {
    ghost var before := r[..];
    r[i] := r[i] + carry;
    r[i + 1] := r[i + 1] + r[i] / 16;
    r[i] := r[i] % 16;
    next := r[i] / 8;
    r[i] := r[i] - 16 * next;
    DigitSigned(before, r[..], i, carry, next);
  }

  lemma DigitSigned(s: seq<int>, t: seq<int>, i: nat, carry: int, next: int)
    requires |s| == |t| == NIBBLES && i < NIBBLES - 1
    requires forall k :: 0 <= k < NIBBLES && k != i && k != i + 1 ==> t[k] == s[k]
    requires t[i] + 16 * (t[i + 1] + next) == s[i] + carry + 16 * s[i + 1]
    ensures Hex(t, 0, NIBBLES) + Pow2(4 * (i + 1)) * next == Hex(s, 0, NIBBLES) + Pow2(4 * i) * carry
  {
    hide Pow2;
    var n := NIBBLES - i;
    HexSame(s, t, i + 2, n - 2);
    assert Hex(s, i, n) == s[i] + 16 * Hex(s, i + 1, n - 1) == s[i] + 16 * (s[i + 1] + 16 * Hex(s, i + 2, n - 2));
    assert Hex(t, i, n) == t[i] + 16 * Hex(t, i + 1, n - 1) == t[i] + 16 * (t[i + 1] + 16 * Hex(t, i + 2, n - 2));
    HexTail(t, s, 0, i, NIBBLES, carry - 16 * next);
    Pow2Nibble(4 * i);
    Sixteenths(Pow2(4 * i), carry - 16 * next, next);
  }

  /** The signed pass over the nibbles of a scalar below 2^255. */
  method MakeSigned(r: array<int8>, ghost s: int)
    requires r.Length == NIBBLES && Nibbles(r[..], 0, NIBBLES) && r[63] < 8 && Hex(r[..], 0, NIBBLES) == s
    modifies r
    ensures Hex(r[..], 0, NIBBLES) == s && forall k :: 0 <= k < NIBBLES ==> -8 <= r[k] <= 8
  {
    hide Hex, Pow2;
    assert Pow2(0) == 1 by { SegEmpty(r[..], 0); }
    var carry: int8 := 0;
    var i := 0;
    while i < 63
      invariant 0 <= i <= 63 && 0 <= carry <= 1
      invariant forall k :: 0 <= k < i ==> -8 <= r[k] < 8
      invariant 0 <= r[i] + carry <= 16 && (forall k :: i < k < NIBBLES ==> 0 <= r[k] < 16)
      invariant r[63] + (if i == 63 then carry else 0) <= (if i == 63 then 8 else 7)
      invariant Hex(r[..], 0, NIBBLES) + Pow2(4 * i) * carry == s
    {
      carry := SignDigit(r, i, carry);
      i := i + 1;
    }
    TopDigit(r[..], i, r[63] + carry);
    r[63] := r[63] + carry;
  }

  lemma TopDigit(s: seq<int>, i: nat, v: int)
    requires |s| == NIBBLES && i == NIBBLES - 1
    ensures Hex(s[i := v], 0, NIBBLES) == Hex(s, 0, NIBBLES) + Pow2(4 * i) * (v - s[i])
  {
    var t := s[i := v];
    HexOne(s, i);
    HexOne(t, i);
    HexTail(t, s, 0, i, NIBBLES, v - s[i]);
  }

  lemma HexOne(s: seq<int>, i: nat)
    requires i < |s|
    ensures Hex(s, i, 1) == s[i]
  {
    assert Hex(s, i + 1, 0) == 0;
  }

  lemma HexEmpty(s: seq<int>)
    ensures Hex(s, 0, 0) == 0 && Pow2(0) == 1
  {
  }

  /** The signed radix-16 recoding of a scalar below 2^255: digits in [-8, 8] that write the scalar. */
  method Window4(r: array<int8>, s: seq<uint64>)
    requires r.Length == NIBBLES && Modm.Limbs(s, TWO32) && s[4] < TWO32 / 2
    modifies r
    ensures Hex(r[..], 0, NIBBLES) == Modm.Val(s) && forall k :: 0 <= k < NIBBLES ==> -8 <= r[k] <= 8
  {
    hide Hex, Pow2;
    Pow2Limb(56);
    Pow2Limb(112);
    Pow2Limb(168);
    Pow2Limb(224);
    Pow2Limb(32);
    var i := 0;
    HexEmpty(r[..]);
    while i < 4
      invariant 0 <= i <= 4
      invariant Nibbles(r[..], 0, 14 * i)
      invariant Hex(r[..], 0, 14 * i) == Partial(s, i)
    {
      ghost var before := r[..];
      WriteNibbles(r, 14 * i, s[i], 14);
      NibblesWritten(before, r[..], s, i, 14);
      i := i + 1;
    }
    ghost var before := r[..];
    WriteNibbles(r, 56, s[4], 8);
    NibblesWritten(before, r[..], s, 4, 8);
    assert Partial(s, 4) + Modm.B4 * s[4] == Modm.Val(s);
    TopNibble(r[..], s[4]);
    MakeSigned(r, Modm.Val(s));
  }

  lemma NibblesWritten(before: seq<int>, after: seq<int>, s: seq<int>, i: nat, count: nat)
    requires |before| == |after| == NIBBLES && |s| == 5 && i <= 4 && 14 * i + count <= NIBBLES
    requires before[..14 * i] == after[..14 * i] && Nibbles(before, 0, 14 * i) && Nibbles(after, 14 * i, count)
    requires Hex(before, 0, 14 * i) == Partial(s, i) && Hex(after, 14 * i, count) == s[i]
    ensures Nibbles(after, 0, 14 * i + count)
    ensures Hex(after, 0, 14 * i + count) == Partial(s, i) + Pow2(56 * i) * s[i]
  {
    hide Hex, Pow2, Partial;
    HexSplit(after, 0, 14 * i, count);
    assert forall k :: 0 <= k < 14 * i ==> after[k] == after[..14 * i][k] == before[..14 * i][k] == before[k];
    HexSame(before, after, 0, 14 * i);
  }

  /** A top limb below 2^31 leaves a top nibble below 8. */
  lemma TopNibble(r: seq<int>, v: int)
    requires |r| == NIBBLES && Nibbles(r, 0, NIBBLES) && Hex(r, 56, 8) == v < TWO32 / 2
    ensures r[63] < 8
  {
    var n: nat := 7;
    HexSplit(r, 56, n, 1);
    HexOne(r, 63);
    HexNonNegative(r, 56, n);
    Pow2Limb(4 * n + 4);
    Pow2Nibble(4 * n);
  }

  lemma {:induction false} HexNonNegative(s: seq<int>, a: nat, n: nat)
    requires a + n <= |s| && Nibbles(s, a, n)
    ensures 0 <= Hex(s, a, n)
    decreases n
  {
    if n > 0 {
      HexNonNegative(s, a + 1, n - 1);
    }
  }
}
