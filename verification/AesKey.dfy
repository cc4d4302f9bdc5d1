/** The AES-128 key schedules, for any word substitution and any inverse column mix that respects exclusive or. */
module AesKey {
  import opened Words

  /** The four words of a round key. */
  datatype Quad = Quad(a: bv32, b: bv32, c: bv32, d: bv32)

  /** The key, and the functions and constants the schedule is built from. */
  datatype Setup = Setup(key: Quad, lsBox: bv32 -> bv32, rc: seq<bv32>, invMcol: bv32 -> bv32)

  ghost predicate Linear(f: bv32 -> bv32) {
    forall a, b :: f(Xor32(a, b)) == Xor32(f(a), f(b))
  }

  /** What a round adds to the first word of the next. */
  function Turn(s: Setup, i: nat, d: bv32): bv32
    requires i < |s.rc|
  {
    Xor32(s.lsBox(d), s.rc[i])
  }

  /** The key expansion of section 5.2 of FIPS 197, one round from the one before. */
  function Expand(q: Quad, t: bv32): Quad {
    var a := Xor32(q.a, t);
    var b := Xor32(q.b, a);
    var c := Xor32(q.c, b);
    Quad(a, b, c, Xor32(q.d, c))
  }

  function RoundKey(s: Setup, r: nat): Quad
    requires r <= |s.rc|
    decreases r, s
  {
    if r == 0 then s.key else Expand(RoundKey(s, r - 1), Turn(s, r - 1, RoundKey(s, r - 1).d))
  }

  /** The words of `k` from `n` on are `q`. */
  ghost predicate Slot(k: seq<bv32>, n: nat, q: Quad) {
    n + 4 <= |k| && k[n] == q.a && k[n + 1] == q.b && k[n + 2] == q.c && k[n + 3] == q.d
  }

  // Encryption.

  /** One cycle: `ss` moves on to the next round key, which is stored. */
  method Ke4(k: array<bv32>, ss: array<bv32>, s: Setup, i: nat)
    requires k.Length >= 44 && ss.Length >= 4 && k != ss && |s.rc| == 10 && i < 10
    requires Slot(ss[..], 0, RoundKey(s, i))
    modifies k, ss
    ensures Slot(ss[..], 0, RoundKey(s, i + 1)) && Slot(k[..], 4 * i + 4, RoundKey(s, i + 1))
    ensures k[..4 * i + 4] == old(k[..4 * i + 4])
  {
    hide Xor32;
    ss[0] := Xor32(ss[0], Xor32(s.lsBox(ss[3]), s.rc[i]));
    k[4 * i + 4] := ss[0];
    ss[1] := Xor32(ss[1], ss[0]);
    k[4 * i + 5] := ss[1];
    ss[2] := Xor32(ss[2], ss[1]);
    k[4 * i + 6] := ss[2];
    ss[3] := Xor32(ss[3], ss[2]);
    k[4 * i + 7] := ss[3];
  }

  /** The round keys up to `r` lie in order. */
  ghost predicate Schedule(k: seq<bv32>, s: Setup, r: nat)
    requires r <= |s.rc|
  {
    forall j :: 0 <= j <= r ==> Slot(k, 4 * j, RoundKey(s, j))
  }

  lemma ScheduleGrows(k: seq<bv32>, k': seq<bv32>, s: Setup, r: nat)
    requires |s.rc| == 10 && r < 10 && |k| == |k'| && 44 <= |k| && Schedule(k, s, r)
    requires k'[..4 * r + 4] == k[..4 * r + 4] && Slot(k', 4 * r + 4, RoundKey(s, r + 1))
    ensures Schedule(k', s, r + 1)
  {
    hide RoundKey;
    forall j | 0 <= j <= r + 1
      ensures Slot(k', 4 * j, RoundKey(s, j))
    {
      if j <= r {
        assert Slot(k, 4 * j, RoundKey(s, j));
        var p, q := k[..4 * r + 4], k'[..4 * r + 4];
        assert p[4 * j] == q[4 * j] && p[4 * j + 1] == q[4 * j + 1];
        assert p[4 * j + 2] == q[4 * j + 2] && p[4 * j + 3] == q[4 * j + 3];
      }
    }
  }

  method EncryptKey128(k: array<bv32>, s: Setup)
    requires k.Length >= 44 && |s.rc| == 10
    modifies k
    ensures Schedule(k[..], s, 10)
  {
    hide RoundKey;
    var ss := new bv32[4];
    ss[0], ss[1], ss[2], ss[3] := s.key.a, s.key.b, s.key.c, s.key.d;
    k[0], k[1], k[2], k[3] := ss[0], ss[1], ss[2], ss[3];
    FirstKey(s);
    var i := 0;
    while i < 10
      invariant 0 <= i <= 10 && Slot(ss[..], 0, RoundKey(s, i)) && Schedule(k[..], s, i)
    {
      ghost var before := k[..];
      Ke4(k, ss, s, i);
      assert k[..][..4 * i + 4] == k[..4 * i + 4] && before[..4 * i + 4] == k[..4 * i + 4];
      ScheduleGrows(before, k[..], s, i);
      i := i + 1;
    }
  }

  lemma FirstKey(s: Setup)
    ensures RoundKey(s, 0) == s.key
  {
  }

  // Decryption: round keys in reverse order, columns kept, computed without the intermediate words.

  /** Where word `i` of the encryption schedule goes. */
  function V(i: nat): (n: nat)
    requires i < 44
  {
    40 - i + 2 * (i % 4)
  }

  /** Rounds trade places, columns stay. */
  lemma Places(r: nat)
    requires r <= 10
    ensures V(4 * r) == 40 - 4 * r && V(4 * r + 1) == 41 - 4 * r && V(4 * r + 2) == 42 - 4 * r
            && V(4 * r + 3) == 43 - 4 * r
  {
  }

  /** All four words added up, and the sums the recurrence needs. */
  function Total(q: Quad): bv32 {
    Xor32(Xor32(Xor32(q.a, q.c), q.b), q.d)
  }

  /** `ss` holds the sums of round key `q`, turned by the round number. */
  ghost predicate Twisted(ss: seq<bv32>, r: nat, q: Quad) {
    && |ss| == 4 && ss[(r + 3) % 4] == q.d && ss[r % 4] == Total(q)
    && ss[(r + 1) % 4] == Xor32(q.b, q.d) && ss[(r + 2) % 4] == Xor32(q.c, q.d)
  }

  /** One addition moves all four sums to the next round key. */
  lemma TwistStep(q: Quad, t: bv32)
    ensures var p := Expand(q, t);
            && Xor32(Total(q), t) == p.d && Xor32(q.b, q.d) == Total(p)
            && Xor32(q.c, q.d) == Xor32(p.b, p.d) && q.d == Xor32(p.c, p.d)
  {
    hide Xor32;
    var p := Expand(q, t);
    TotalTurned(q.a, q.b, q.c, q.d, t);
    TotalOfNext(p.a, q.b, p.c, q.d);
    Xor32Laws(p.b, p.c, q.d);
    Xor32Laws(q.c, p.b, p.c);
    Xor32Laws(q.d, p.c, p.c);
  }

  lemma TotalTurned(a: bv32, b: bv32, c: bv32, d: bv32, t: bv32)
    ensures Xor32(Xor32(Xor32(Xor32(a, c), b), d), t) == Xor32(d, Xor32(c, Xor32(b, Xor32(a, t))))
  {
    hide Xor32;
    Xor32Laws(b, a, t);
    Xor32Laws(c, Xor32(b, a), t);
    Xor32Laws(d, Xor32(c, Xor32(b, a)), t);
    Xor32Laws(a, b, c);
    Xor32Laws(c, a, b);
    Xor32Laws(a, c, b);
  }

  /** With `b' = b ^ a'` and `d' = d ^ c'`, the sum of the four new words is `b ^ d`. */
  lemma TotalOfNext(a': bv32, b: bv32, c': bv32, d: bv32)
    ensures Xor32(Xor32(Xor32(a', c'), Xor32(b, a')), Xor32(d, c')) == Xor32(b, d)
  {
    hide Xor32;
    var b', d' := Xor32(b, a'), Xor32(d, c');
    Xor32Laws(a', c', b');
    Xor32Laws(c', b', b');
    Xor32Laws(a', b', c');
    Xor32Laws(b, a', a');
    assert Xor32(Xor32(a', c'), b') == Xor32(b, c');
    Xor32Laws(b, c', d');
    Xor32Laws(d, c', c');
  }

  lemma TwistedNext(ss: seq<bv32>, ss': seq<bv32>, r: nat, q: Quad, t: bv32)
    requires Twisted(ss, r, q) && |ss'| == 4 && ss'[r % 4] == Xor32(ss[r % 4], t)
    requires forall j :: 0 <= j < 4 && j != r % 4 ==> ss'[j] == ss[j]
    ensures Twisted(ss', r + 1, Expand(q, t))
  {
    hide Xor32, Expand, Total;
    TwistStep(q, t);
    var j := r % 4;
    assert (r + 1) % 4 == (if j == 3 then 0 else j + 1);
    assert (r + 2) % 4 == (if j >= 2 then j - 2 else j + 2);
    assert (r + 3) % 4 == (if j == 0 then 3 else j - 1);
    assert (r + 4) % 4 == j;
  }

  function Mixed(s: Setup, q: Quad): Quad {
    Quad(s.invMcol(q.a), s.invMcol(q.b), s.invMcol(q.c), s.invMcol(q.d))
  }

  /** The inverse mix of an expansion from inversely mixed words. */
  lemma MixedExpand(s: Setup, q: Quad, t: bv32)
    requires Linear(s.invMcol)
    ensures Mixed(s, Expand(q, t)) == Expand(Mixed(s, q), s.invMcol(t))
  {
    hide Xor32, Linear;
    var p := Expand(q, t);
    LinearAt(s, q.a, t);
    LinearAt(s, q.b, p.a);
    LinearAt(s, q.c, p.b);
    LinearAt(s, q.d, p.c);
  }

  lemma LinearAt(s: Setup, a: bv32, b: bv32)
    requires Linear(s.invMcol)
    ensures s.invMcol(Xor32(a, b)) == Xor32(s.invMcol(a), s.invMcol(b))
  {
  }

  /** `ss` is turned from the words of the key into their sums. */
  method StartSums(ss: array<bv32>, q: Quad)
    requires ss.Length == 4 && Slot(ss[..], 0, q)
    modifies ss
    ensures Twisted(ss[..], 0, q)
  {
    hide Xor32;
    ss[0] := Xor32(Xor32(Xor32(ss[0], ss[2]), ss[1]), ss[3]);
    ss[1] := Xor32(ss[1], ss[3]);
    ss[2] := Xor32(ss[2], ss[3]);
  }

  /** Adds what round `i` contributes; the sums are then those of the next round key. */
  method TurnSums(ss: array<bv32>, s: Setup, i: nat) returns (x: bv32)
    requires ss.Length == 4 && |s.rc| == 10 && i < 10 && Twisted(ss[..], i, RoundKey(s, i))
    modifies ss
    ensures x == Turn(s, i, RoundKey(s, i).d) && Twisted(ss[..], i + 1, RoundKey(s, i + 1))
  {
    hide Xor32, Twisted, RoundKey;
    ghost var q, sums := RoundKey(s, i), ss[..];
    LastSum(sums, i, q);
    x := Xor32(s.lsBox(ss[(i + 3) % 4]), s.rc[i]);
    ss[i % 4] := Xor32(ss[i % 4], x);
    TwistedNext(sums, ss[..], i, q, x);
    NextKey(s, i);
  }

  /** The first cycle: the words of round one are stored mixed. */
  method Kdf4(k: array<bv32>, ss: array<bv32>, s: Setup)
    requires k.Length >= 44 && ss.Length == 4 && k != ss && |s.rc| == 10
    requires Slot(ss[..], 0, s.key) && Slot(k[..], 40, s.key)
    modifies k, ss
    ensures Twisted(ss[..], 1, RoundKey(s, 1)) && Slot(k[..], 36, Mixed(s, RoundKey(s, 1)))
    ensures k[40..] == old(k[40..])
  {
    hide Xor32, V, Twisted, RoundKey, Expand;
    FirstKey(s);
    StartSums(ss, s.key);
    var x := TurnSums(ss, s, 0);
    NextKey(s, 0);
    AddUp(s.key, x);
    Places(0);
    Places(1);
    var a := Xor32(x, k[V(0)]);
    var b := Xor32(a, k[V(1)]);
    var c := Xor32(b, k[V(2)]);
    var d := Xor32(c, k[V(3)]);
    k[V(4)], k[V(5)], k[V(6)], k[V(7)] := s.invMcol(a), s.invMcol(b), s.invMcol(c), s.invMcol(d);
  }

  /** The running sum that the stores use, in the order the additions are made. */
  lemma AddUp(q: Quad, t: bv32)
    ensures var p := Expand(q, t);
            && Xor32(t, q.a) == p.a && Xor32(p.a, q.b) == p.b && Xor32(p.b, q.c) == p.c && Xor32(p.c, q.d) == p.d
  {
    hide Xor32;
    var p := Expand(q, t);
    Xor32Laws(t, q.a, t);
    Xor32Laws(p.a, q.b, t);
    Xor32Laws(p.b, q.c, t);
    Xor32Laws(p.c, q.d, t);
  }

  /** A middle cycle: the next mixed round key from the mixed round key before it. */
  method Kd4(k: array<bv32>, ss: array<bv32>, s: Setup, i: nat)
    requires k.Length >= 44 && ss.Length == 4 && k != ss && |s.rc| == 10 && 1 <= i <= 8 && Linear(s.invMcol)
    requires Twisted(ss[..], i, RoundKey(s, i)) && Slot(k[..], 40 - 4 * i, Mixed(s, RoundKey(s, i)))
    modifies k, ss
    ensures Twisted(ss[..], i + 1, RoundKey(s, i + 1)) && Slot(k[..], 36 - 4 * i, Mixed(s, RoundKey(s, i + 1)))
    ensures k[40 - 4 * i..] == old(k[40 - 4 * i..])
  {
    hide Xor32, Linear, Twisted, RoundKey, Mixed, Slot, Expand;
    var x := TurnSums(ss, s, i);
    NextKey(s, i);
    MixedExpand(s, RoundKey(s, i), x);
    x := s.invMcol(x);
    StoreSums(k, x, i, Mixed(s, RoundKey(s, i)));
  }

  /** Four stores, each adding the word of the round before. */
  method StoreSums(k: array<bv32>, x0: bv32, i: nat, ghost m: Quad)
    requires k.Length >= 44 && 1 <= i <= 8 && Slot(k[..], 40 - 4 * i, m)
    modifies k
    ensures Slot(k[..], 36 - 4 * i, Expand(m, x0))
    ensures forall n :: 40 - 4 * i <= n < k.Length ==> k[n] == old(k[n])
  {
    hide Xor32, V, Expand;
    Places(i);
    Places(i + 1);
    AddUp(m, x0);
    var a := Xor32(x0, k[V(4 * i)]);
    var b := Xor32(a, k[V(4 * i + 1)]);
    var c := Xor32(b, k[V(4 * i + 2)]);
    var d := Xor32(c, k[V(4 * i + 3)]);
    StoreQuad(k, V(4 * i + 4), V(4 * i + 5), V(4 * i + 6), V(4 * i + 7), Quad(a, b, c, d));
  }

  /** Four words at places that turn out to be next to each other. */
  method StoreQuad(k: array<bv32>, n: nat, o: nat, p: nat, r: nat, q: Quad)
    requires o == n + 1 && p == n + 2 && r == n + 3 < k.Length
    modifies k
    ensures Slot(k[..], n, q)
    ensures forall j :: 0 <= j < k.Length && !(n <= j < n + 4) ==> k[j] == old(k[j])
  {
    k[n], k[o], k[p], k[r] := q.a, q.b, q.c, q.d;
  }

  lemma LastSum(ss: seq<bv32>, r: nat, q: Quad)
    requires Twisted(ss, r, q)
    ensures |ss| == 4 && ss[(r + 3) % 4] == q.d
  {
  }

  lemma NextKey(s: Setup, i: nat)
    requires |s.rc| == 10 && i < 10
    ensures RoundKey(s, i + 1) == Expand(RoundKey(s, i), Turn(s, i, RoundKey(s, i).d))
  {
    hide Expand, Turn;
  }

  /** The last cycle: the words of round ten are read off the sums. */
  method Kdl4(k: array<bv32>, ss: array<bv32>, s: Setup)
    requires k.Length >= 44 && ss.Length == 4 && k != ss && |s.rc| == 10 && Twisted(ss[..], 9, RoundKey(s, 9))
    modifies k, ss
    ensures Slot(k[..], 0, RoundKey(s, 10)) && k[4..] == old(k[4..])
  {
    hide Xor32, V, Total, RoundKey;
    var _ := TurnSums(ss, s, 9);
    ReadOff(RoundKey(s, 10));
    Places(10);
    ss[0] := Xor32(ss[0], ss[1]);
    k[V(40)], k[V(41)], k[V(42)], k[V(43)] := Xor32(Xor32(ss[0], ss[2]), ss[3]), Xor32(ss[1], ss[3]), ss[0], ss[1];
  }

  /** The words of a round key from its sums. */
  lemma ReadOff(p: Quad)
    ensures Xor32(Xor32(p.c, p.d), p.d) == p.c
    ensures Xor32(Xor32(p.c, Total(p)), Xor32(p.b, p.d)) == p.a && Xor32(p.d, Xor32(p.b, p.d)) == p.b
  {
    hide Xor32;
    var a, b, c, d := p.a, p.b, p.c, p.d;
    Xor32Laws(c, d, d);
    Xor32Laws(b, d, d);
    Xor32Laws(Xor32(a, c), b, d);
    Xor32Laws(a, c, Xor32(b, d));
    Xor32Laws(c, Xor32(a, Xor32(c, Xor32(b, d))), c);
    var e := Xor32(b, d);
    assert Total(p) == Xor32(Xor32(a, c), e);
    Xor32Laws(c, a, c);
    Xor32Laws(Xor32(a, c), c, e);
    Xor32Laws(c, Xor32(a, c), e);
    Xor32Laws(a, c, c);
    assert Xor32(c, Total(p)) == Xor32(a, e);
    Xor32Laws(a, e, e);
  }

  /** Rounds `r` and below, from the top of the schedule downwards: mixed except for the key itself. */
  ghost predicate Reversed(k: seq<bv32>, s: Setup, r: nat)
    requires r <= |s.rc|
  {
    && Slot(k, 40, RoundKey(s, 0))
    && forall j :: 1 <= j <= r ==> 4 * j <= 40 && Slot(k, 40 - 4 * j, Mixed(s, RoundKey(s, j)))
  }

  lemma ReversedGrows(k: seq<bv32>, k': seq<bv32>, s: Setup, r: nat)
    requires |s.rc| == 10 && r < 9 && |k| == |k'| && 44 <= |k| && Reversed(k, s, r)
    requires k'[40 - 4 * r..] == k[40 - 4 * r..] && Slot(k', 36 - 4 * r, Mixed(s, RoundKey(s, r + 1)))
    ensures Reversed(k', s, r + 1)
  {
    hide RoundKey, Mixed;
    var n := 40 - 4 * r;
    SlotKept(k, k', n, 40, RoundKey(s, 0));
    forall j | 1 <= j <= r + 1
      ensures 4 * j <= 40 && Slot(k', 40 - 4 * j, Mixed(s, RoundKey(s, j)))
    {
      if j <= r {
        SlotKept(k, k', n, 40 - 4 * j, Mixed(s, RoundKey(s, j)));
      }
    }
  }

  lemma SlotKept(k: seq<bv32>, k': seq<bv32>, n: nat, m: nat, q: Quad)
    requires |k| == |k'| && n <= m && m + 4 <= |k| && k'[n..] == k[n..] && Slot(k, m, q)
    ensures Slot(k', m, q)
  {
    var u, v := k[n..], k'[n..];
    assert u[m - n] == v[m - n] && u[m - n + 1] == v[m - n + 1];
    assert u[m - n + 2] == v[m - n + 2] && u[m - n + 3] == v[m - n + 3];
  }

  /** The rewritten schedule is the encryption schedule with rounds reversed and rounds one to nine inversely mixed, as
      the equivalent inverse cipher of section 5.3.5 of FIPS 197 wants it. */
  method DecryptKey128(k: array<bv32>, s: Setup)
    requires k.Length >= 44 && |s.rc| == 10 && Linear(s.invMcol)
    modifies k
    ensures Slot(k[..], 40, RoundKey(s, 0)) && Slot(k[..], 0, RoundKey(s, 10))
    ensures forall j :: 1 <= j <= 9 ==> Slot(k[..], 40 - 4 * j, Mixed(s, RoundKey(s, j)))
  {
    hide RoundKey, Mixed, Twisted, Linear, V, Slot;
    var ss := new bv32[4];
    StartKeys(k, ss, s);
    FirstKey(s);
    ghost var before := k[..];
    Kdf4(k, ss, s);
    assert before[40..] == k[40..];
    assert Reversed(k[..], s, 1) by {
      SlotKept(before, k[..], 40, 40, RoundKey(s, 0));
    }
    var i := 1;
    while i < 9
      invariant 1 <= i <= 9 && Twisted(ss[..], i, RoundKey(s, i)) && Reversed(k[..], s, i)
    {
      ghost var b := k[..];
      Kd4(k, ss, s, i);
      assert k[..][40 - 4 * i..] == k[40 - 4 * i..] && b[40 - 4 * i..] == k[40 - 4 * i..];
      ReversedGrows(b, k[..], s, i);
      i := i + 1;
    }
    ghost var c := k[..];
    Kdl4(k, ss, s);
    assert c[4..] == k[4..];
    forall j | 1 <= j <= 9
      ensures Slot(k[..], 40 - 4 * j, Mixed(s, RoundKey(s, j)))
    {
      SlotKept(c, k[..], 4, 40 - 4 * j, Mixed(s, RoundKey(s, j)));
    }
    SlotKept(c, k[..], 4, 40, RoundKey(s, 0));
  }

  method StartKeys(k: array<bv32>, ss: array<bv32>, s: Setup)
    requires k.Length >= 44 && ss.Length == 4 && k != ss
    modifies k, ss
    ensures Slot(ss[..], 0, s.key) && Slot(k[..], 40, s.key)
  {
    hide V;
    Places(0);
    ss[0] := s.key.a;
    k[V(0)] := ss[0];
    ss[1] := s.key.b;
    k[V(1)] := ss[1];
    ss[2] := s.key.c;
    k[V(2)] := ss[2];
    ss[3] := s.key.d;
    k[V(3)] := ss[3];
  }

  // The schedule as one array of words.

  /** Word `i` of the expanded key. */
  function Word(s: Setup, i: nat): bv32
    requires i < 4 * |s.rc| + 4
  {
    var q := RoundKey(s, i / 4);
    if i % 4 == 0 then q.a else if i % 4 == 1 then q.b else if i % 4 == 2 then q.c else q.d
  }

  /** The recurrence of section 5.2 of FIPS 197: every word is the sum of the one before it and the one four back, and
      the one before is substituted and has round constant number `i / 4` added where a new round begins. */
  lemma WordIs(s: Setup, i: nat)
    requires 4 <= i < 4 * |s.rc| + 4
    ensures Word(s, i) == Xor32(Word(s, i - 4),
                                if i % 4 == 0 then Xor32(s.lsBox(Word(s, i - 1)), s.rc[i / 4 - 1]) else Word(s, i - 1))
  {
    hide Xor32;
    var r := i / 4;
    assert (i - 4) / 4 == r - 1 && (i - 4) % 4 == i % 4;
    assert i % 4 == 0 ==> (i - 1) / 4 == r - 1 && (i - 1) % 4 == 3;
    assert i % 4 != 0 ==> (i - 1) / 4 == r && (i - 1) % 4 == i % 4 - 1;
  }

  /** So every word of the array that `EncryptKey128` fills obeys it, from the four words of the key on. */
  lemma ScheduleWords(k: seq<bv32>, s: Setup, i: nat)
    requires |s.rc| == 10 && |k| >= 44 && Schedule(k, s, 10) && 4 <= i < 44
    ensures k[0] == s.key.a && k[1] == s.key.b && k[2] == s.key.c && k[3] == s.key.d
    ensures k[i] == Xor32(k[i - 4], if i % 4 == 0 then Xor32(s.lsBox(k[i - 1]), s.rc[i / 4 - 1]) else k[i - 1])
  {
    hide Xor32, RoundKey, Schedule, Word;
    FirstKey(s);
    SlotAt(k, s, 0);
    SlotAt(k, s, 1);
    SlotAt(k, s, 2);
    SlotAt(k, s, 3);
    WordIs(s, i);
    SlotAt(k, s, i);
    SlotAt(k, s, i - 1);
    SlotAt(k, s, i - 4);
    KeyWords(s);
  }

  lemma SlotAt(k: seq<bv32>, s: Setup, i: nat)
    requires |s.rc| == 10 && |k| >= 44 && Schedule(k, s, 10) && i < 44
    ensures k[i] == Word(s, i)
  {
    hide RoundKey;
    var r, c := i / 4, i % 4;
    assert Slot(k, 4 * r, RoundKey(s, r));
    assert i == 4 * r + c;
  }

  lemma KeyWords(s: Setup)
    requires |s.rc| == 10
    ensures Word(s, 0) == s.key.a && Word(s, 1) == s.key.b && Word(s, 2) == s.key.c && Word(s, 3) == s.key.d
  {
    FirstKey(s);
  }
}
