/**
 u256KnuthD around the division loop, normalizing and un-normalizing its operands, and
 the dispatcher lu256DivMod.
 */
module Division {
  import opened Words
  import opened Uint256
  import opened Shifts
  import opened LimbSeqs
  import opened KnuthD

  // The number of words u256KnuthD takes the divisor to have.
  function SignificantWords(d: U256): nat
  {
    if d.hi != 0 then 4 else if d.mh != 0 then 3 else 2
  }

  function Normalizer(d: U256): nat
    requires Nat(d) >= BASE
  {
    LeadingZeros64(Limbs(d)[SignificantWords(d) - 1])
  }

  // Exactly the inputs u256KnuthD divides correctly: on the normalized operands no partial
  // remainder makes the saturating arm under-estimate.
  predicate DivisionExact(u: U256, d: U256)
    requires Nat(d) >= BASE
  {
    var p := Pow2(Normalizer(d));
    MulMonotone(1, p, Nat(d));
    DigitsExactFrom(Nat(u) * p, Nat(d) * p, SignificantWords(d), 0)
  }

  lemma ValLimbs(v: U256)
    ensures Val(Limbs(v)) == Nat(v)
    ensures BPow(4) == BASE4
  {
    var l := Limbs(v);
    assert l[1..] == [v.ml, v.mh, v.hi] && l[1..][1..] == [v.mh, v.hi] && l[1..][1..][1..] == [v.hi];
    ValOne(v.hi);
    assert Val([v.mh, v.hi]) == v.mh + BASE * v.hi;
    assert Val([v.ml, v.mh, v.hi]) == v.ml + BASE * (v.mh + BASE * v.hi);
    assert BPow(4) == BASE * (BASE * (BASE * (BASE * 1)));
  }

  lemma ValFive(v: U256, top: Word)
    ensures Val(Limbs(v) + [top]) == Nat(v) + BASE4 * top
  {
    ValLimbs(v);
    ValAppend(Limbs(v), [top]);
    ValOne(top);
  }

  // ----- normalization -----

  // Shifting the leading limb to the top leaves the divisor within its words.
  lemma NormalizedFits(d: seq<Word>, m: nat, s: nat)
    requires 1 <= m == |d| && s < 64
    requires BASE / 2 <= d[m - 1] * Pow2(s) < BASE
    ensures BASE / 2 * BPow(m - 1) <= Val(d) * Pow2(s) < BPow(m)
  {
    ValJoin(d, m - 1);
    assert d[m - 1..] == [d[m - 1]];
    ValOne(d[m - 1]);
    ValBound(d[..m - 1]);
    Pow2Word();
    Pow2Add(s, 64 - s);
    TopFits(d[m - 1], Pow2(s), Pow2(64 - s), Val(d[..m - 1]), BPow(m - 1));
  }

  lemma TopFits(t: nat, p: nat, c: nat, low: nat, b: nat)
    requires p >= 1 && c >= 1 && p * c == BASE && BASE / 2 <= t * p < BASE && low < b
    ensures BASE / 2 * b <= (low + b * t) * p < BASE * b
  {
    TopFitsAbove(t, p, c, low, b);
    TopFitsBelow(t, p, low, b);
  }

  lemma TopFitsAbove(t: nat, p: nat, c: nat, low: nat, b: nat)
    requires p >= 1 && c >= 1 && p * c == BASE && t * p < BASE && low < b
    ensures (low + b * t) * p < BASE * b
  {
    if t >= c {
      MulMonotone(c, t, p);
    } else {
      MulMonotone(t + 1, c, b);
      MulMonotone(low + b * t + 1, c * b, p);
      MulAssoc(p, c, b);
    }
  }

  lemma TopFitsBelow(t: nat, p: nat, low: nat, b: nat)
    requires BASE / 2 <= t * p
    ensures BASE / 2 * b <= (low + b * t) * p
  {
    MulMonotone(BASE / 2, t * p, b);
    MulMonotone(b * t, low + b * t, p);
    MulAssoc(b, t, p);
  }

  // The limbs of the shifted divisor.
  lemma NormalizedDivisor(d: U256, m: nat, s: nat)
    requires 2 <= m <= 4 && s < 64 && Limbs(d)[m - 1] != 0
    requires forall k :: m <= k < 4 ==> Limbs(d)[k] == 0
    requires BASE / 2 <= Limbs(d)[m - 1] * Pow2(s) < BASE
    ensures var l := Limbs(BitsLeft(d, s));
            Val(l[..m]) == Nat(d) * Pow2(s) && l[m - 1] >= BASE / 2
  {
    hide Nat, Val, BPow, Pow2, BitsLeft;
    var l, w := Limbs(BitsLeft(d, s)), Limbs(d);
    ValLimbs(d);
    ValJoin(w, m);
    ValZeros(w[m..]);
    NormalizedFits(w[..m], m, s);
    var n := Nat(d) * Pow2(s);
    BitsLeftValue(d, s);
    ValLimbs(BitsLeft(d, s));
    BPowAdd(m, 4 - m);
    MulMonotone(1, BPow(4 - m), BPow(m));
    SmallSum(Nat(BitsLeft(d, s)), BASE4, Shr64(d.hi, 64 - s));
    HighZero(l, m);
    TopLimb(l[..m]);
    DivAtLeast(n, BPow(m - 1), BASE / 2);
  }

  lemma DivAtLeast(n: nat, p: nat, k: nat)
    requires p >= 1 && k * p <= n
    ensures n / p >= k
  {
    FloorAtLeast(n, p, k);
  }

  lemma ProductBelow(x: nat, p: nat)
    requires x < BASE4 && 1 <= p <= BASE / 2
    ensures x * p < BASE / 2 * BASE4
  {
    ScaleLess(x, BASE4, p);
    MulMonotone(p, BASE / 2, BASE4);
  }

  // The dividend gets one more limb.
  lemma NormalizedDividend(u: U256, s: nat)
    requires s < 64
    ensures var n := Val(Limbs(BitsLeft(u, s)) + [Shr64(u.hi, 64 - s)]);
            n == Nat(u) * Pow2(s) && n < BASE / 2 * BPow(4)
  {
    hide Nat, Val, BPow, Pow2, BitsLeft, Shr64;
    BitsLeftValue(u, s);
    ValFive(BitsLeft(u, s), Shr64(u.hi, 64 - s));
    ValLimbs(u);
    Pow2Word();
    Pow2Monotone(s, 63);
    ProductBelow(Nat(u), Pow2(s));
  }

  // Dividing scaled numbers.
  lemma ScaledDivMod(x: nat, y: nat, p: nat)
    requires y > 0 && p > 0
    ensures y * p > 0 && (x * p) / (y * p) == x / y && (x * p) % (y * p) == (x % y) * p
  {
    MulMonotone(1, p, y);
    var q, r := x / y, x % y;
    assert x * p == q * (y * p) + r * p by {
      assert (q * y) * p == q * (y * p);
    }
    MulMonotone(r + 1, y, p);
    MulMonotone(0, r, p);
    DivModUnique(x * p, y * p, q, r * p);
  }

  // D1 for the divisor
  method NormalizeDivisor(d: U256, m: nat, shift: nat) returns (dn: array<Word>)
    requires 2 <= m <= 4 && shift < 64
    ensures fresh(dn) && dn.Length == 4
    ensures forall k :: 0 <= k < m ==> dn[k] == Limbs(BitsLeft(d, shift))[k]
  {
    var words := Limbs(d);
    dn := new Word[4] [0, 0, 0, 0];
    if shift == 0 {
      NoBits(d);
      for i := 0 to m
        invariant forall k :: 0 <= k < i ==> dn[k] == words[k]
      {
        dn[i] := words[i];
      }
    } else {
      for i := m downto 1
        invariant forall k :: i <= k < m ==> dn[k] == Limbs(BitsLeft(d, shift))[k]
      {
        ShiftedLimb(words[i], words[i - 1], shift);
        dn[i] := BitOr(Shl64(words[i], shift), Shr64(words[i - 1], 64 - shift));
      }
      dn[0] := Shl64(d.lo, shift);
    }
  }

  // D1 for the dividend: one more limb than the value
  method NormalizeDividend(u: U256, shift: nat) returns (un: array<Word>)
    requires shift < 64
    ensures fresh(un) && un.Length == 5
    ensures un[..] == Limbs(BitsLeft(u, shift)) + [Shr64(u.hi, 64 - shift)]
  {
    hide Nat, Pow2, BitOr;
    if shift == 0 {
      NoBits(u);
      ShiftByZero(u.hi);
      un := new Word[5] [u.lo, u.ml, u.mh, u.hi, 0];
    } else {
      ShiftedLimb(u.ml, u.lo, shift);
      ShiftedLimb(u.mh, u.ml, shift);
      ShiftedLimb(u.hi, u.mh, shift);
      un := new Word[5]
        [Shl64(u.lo, shift),
         BitOr(Shl64(u.ml, shift), Shr64(u.lo, 64 - shift)),
         BitOr(Shl64(u.mh, shift), Shr64(u.ml, 64 - shift)),
         BitOr(Shl64(u.hi, shift), Shr64(u.mh, 64 - shift)),
         Shr64(u.hi, 64 - shift)];
    }
  }

  // The low m limbs of a five-limb number as a value.
  function Lowest(un: seq<Word>, m: nat): U256
    requires |un| == 5 && 2 <= m <= 4
  {
    U256(un[0], un[1], if m > 2 then un[2] else 0, if m > 3 then un[3] else 0)
  }

  lemma LowestValue(un: seq<Word>, m: nat)
    requires |un| == 5 && 2 <= m <= 4
    ensures Nat(Lowest(un, m)) == Val(un[..m])
  {
    var l := Limbs(Lowest(un, m));
    ValLimbs(Lowest(un, m));
    ValJoin(l, m);
    assert l[..m] == un[..m];
    ValZeros(l[m..]);
  }

  // D8: shifts the remainder back
  method Unnormalize(un: array<Word>, m: nat, shift: nat) returns (rem: U256)
    requires un.Length == 5 && 2 <= m <= 4 && shift < 64
    ensures Nat(rem) == Val(un[..m]) / Pow2(shift)
  {
    ghost var r := Lowest(un[..], m);
    ghost var limbs := Limbs(BitsRight(r, shift));
    TopOfBitsRight(r, m, shift);
    assert shift == 0 ==> limbs == Limbs(r) by { NoBits(r); }
    hide Nat, Val, Pow2, BitOr, BitsRight, Shl64;
    var rw := new Word[4] [0, 0, 0, 0];
    if shift == 0 {
      for i := 0 to m
        invariant forall k :: 0 <= k < 4 ==> rw[k] == if k < i then limbs[k] else 0
      {
        rw[i] := un[i];
      }
    } else {
      for i := 0 to m - 1
        invariant forall k :: 0 <= k < 4 ==> rw[k] == if k < i then limbs[k] else 0
      {
        RightLimb(r, m, shift, i);
        rw[i] := OrWord(Shr64(un[i], shift), Shl64(un[i + 1], 64 - shift));
      }
      rw[m - 1] := Shr64(un[m - 1], shift);
    }
    rem := U256(rw[0], rw[1], rw[2], rw[3]);
    UnnormalizedValue(un[..], m, shift, rem);
    assert un[..][..m] == un[..m];
  }

  lemma RightLimb(r: U256, m: nat, s: nat, i: nat)
    requires 2 <= m <= 4 && s <= 64 && i < m - 1
    ensures Limbs(BitsRight(r, s))[i] == OrWord(Shr64(Limbs(r)[i], s), Shl64(Limbs(r)[i + 1], 64 - s))
  {
    hide BitOr, Shr64, Shl64, Pow2;
    OrCommutes(Shr64(Limbs(r)[i], s), Shl64(Limbs(r)[i + 1], 64 - s));
  }

  lemma UnnormalizedValue(un: seq<Word>, m: nat, s: nat, rem: U256)
    requires |un| == 5 && 2 <= m <= 4 && s <= 64
    requires Limbs(rem) == Limbs(BitsRight(Lowest(un, m), s))
    ensures Nat(rem) == Val(un[..m]) / Pow2(s)
  {
    var l := BitsRight(Lowest(un, m), s);
    assert rem == U256(Limbs(rem)[0], Limbs(rem)[1], Limbs(rem)[2], Limbs(rem)[3]) == l;
    LowestValue(un, m);
    BitsRightValue(Lowest(un, m), s);
  }

  lemma TopOfBitsRight(r: U256, m: nat, s: nat)
    requires 2 <= m <= 4 && s <= 64
    requires forall k :: m <= k < 4 ==> Limbs(r)[k] == 0
    ensures var l := Limbs(BitsRight(r, s));
            l[m - 1] == Shr64(Limbs(r)[m - 1], s) && forall k :: m <= k < 4 ==> l[k] == 0
  {
    ZeroWordShifts(s);
    ZeroWordShifts(64 - s);
    hide Shl64, Shr64, BitOr, Pow2;
    var top := Shr64(Limbs(r)[m - 1], s);
    OrZero(top);
    OrZero(0);
    OrCommutes(top, 0);
    assert m < 4 ==> r.hi == Limbs(r)[3] == 0;
    assert m < 3 ==> r.mh == Limbs(r)[2] == 0;
  }

  lemma ZeroWordShifts(s: nat)
    ensures Shl64(0, s) == 0 && Shr64(0, s) == 0
  {
  }

  // ----- u256KnuthD -----

  method KnuthDivide(u: U256, d: U256) returns (quo: U256, rem: U256)
    requires Nat(d) >= BASE
    ensures DivisionExact(u, d) ==> Nat(quo) == Nat(u) / Nat(d) && Nat(rem) == Nat(u) % Nat(d)
    ensures !DivisionExact(u, d) ==> Nat(quo) < Nat(u) / Nat(d)
  {
    var m := 4;
    if d.hi == 0 {
      m := 3;
      if d.mh == 0 {
        m := 2;
      }
    }
    var shift := LeadingZeros64(Limbs(d)[m - 1]);
    hide Val, BPow, Pow2, BitsLeft, DigitsExactFrom;
    NormalizedDivisor(d, m, shift);
    NormalizedDividend(u, shift);
    var dn := NormalizeDivisor(d, m, shift);
    assert dn[..m] == Limbs(BitsLeft(d, shift))[..m];
    var un := NormalizeDividend(u, shift);
    ghost var p := Pow2(shift);
    ghost var N, V := Nat(u) * p, Nat(d) * p;
    var q := DivideDigits(un, dn, m);
    quo := U256(q[0], q[1], q[2], q[3]);
    ValLimbs(quo);
    assert q[..] == Limbs(quo);
    ScaledDivMod(Nat(u), Nat(d), p);
    rem := Unnormalize(un, m, shift);
    if DigitsExactFrom(N, V, m, 0) {
      ValBound(dn[..m]);
      HighZero(un[..], m);
      assert un[..][..m] == un[..m];
      MultipleMod(Nat(u) % Nat(d), p);
    }
  }

  // ----- lu256DivMod -----

  // Whether lu256DivMod divides exactly: always when a comparison or the one-word path decides,
  // otherwise when u256KnuthD does.
  predicate DivModExact(a: U256, b: U256)
  {
    Nat(a) <= Nat(b) || Nat(b) < BASE || DivisionExact(a, b)
  }

  // The one-word path: four chained double-word divisions.
  lemma ChainedDivisions(a: U256, y: Word, q3: Word, r3: Word, q2: Word, r2: Word, q1: Word, r1: Word, q0: Word,
                         r0: Word)
    requires y > 0 && r0 < y
    requires a.hi == q3 * y + r3
    requires r3 * BASE + a.mh == q2 * y + r2
    requires r2 * BASE + a.ml == q1 * y + r1
    requires r1 * BASE + a.lo == q0 * y + r0
    ensures Nat(U256(q0, q1, q2, q3)) == Nat(a) / y && r0 == Nat(a) % y
  {
    var q := U256(q0, q1, q2, q3);
    TimesByLimbs(q, y);
    assert Nat(a) == Nat(q) * y + r0;
    DivModUnique(Nat(a), y, Nat(q), r0);
  }

  method DivMod(a: U256, b: U256) returns (quo: U256, rem: U256)
    requires Nat(b) != 0
    ensures DivModExact(a, b) ==> Nat(quo) == Nat(a) / Nat(b) && Nat(rem) == Nat(a) % Nat(b)
    ensures !DivModExact(a, b) ==> Nat(quo) < Nat(a) / Nat(b)
  {
    hide DivisionExact;
    var c := Cmp(a, b);
    if c == -1 {
      DivModUnique(Nat(a), Nat(b), 0, Nat(a));
      return ZERO, a;
    } else if c == 0 {
      DivModUnique(Nat(a), Nat(b), 1, 0);
      return ONE, ZERO;
    }
    if b.hi == 0 && b.mh == 0 && b.ml == 0 {
      var (q3, r3) := Div64(0, a.hi, b.lo);
      var (q2, r2) := Div64(r3, a.mh, b.lo);
      var (q1, r1) := Div64(r2, a.ml, b.lo);
      var (q0, r0) := Div64(r1, a.lo, b.lo);
      ChainedDivisions(a, b.lo, q3, r3, q2, r2, q1, r1, q0, r0);
      return U256(q0, q1, q2, q3), U256(r0, 0, 0, 0);
    }
    quo, rem := KnuthDivide(a, b);
  }

  // ----- where the condition holds -----

  // A short numerator keeps the leading limb of every partial remainder below the divisor's.
  lemma NeverSaturates(N: nat, V: nat, m: nat, p: nat, k: nat)
    requires V > 0 && m >= 2
    requires N < p * BPow(m) && p <= BASE / 2 <= V / BPow(m - 1)
    ensures !UnderEstimates(PartialRemainder(N, V, k), V, m)
  {
    RemainderAtMost(N, V, k);
    var U := PartialRemainder(N, V, k);
    hide PartialRemainder, BPow;
    DivBound(U, BPow(m), p);
  }

  lemma RemainderAtMost(N: nat, V: nat, k: nat)
    requires V > 0
    ensures PartialRemainder(N, V, k) <= N
  {
    hide BPow;
    MulMonotone(1, BPow(k + 1), V);
    ModAtMost(N, V * BPow(k + 1));
    DivLeDividend(N % (V * BPow(k + 1)), BPow(k));
  }

  // A dividend no longer than the divisor's words: the saturating arm is never taken.
  lemma ExactWhenShort(u: U256, d: U256)
    requires Nat(d) >= BASE
    requires Nat(u) < BPow(SignificantWords(d))
    ensures DivisionExact(u, d)
  {
    var m, p := SignificantWords(d), Pow2(Normalizer(d));
    hide DigitsExactFrom, BPow, Nat, Pow2, Normalizer;
    NormalizerRange(d);
    MulMonotone(1, p, Nat(d));
    ScaleLess(Nat(u), BPow(m), p);
    AllDigitsExact(Nat(u) * p, Nat(d) * p, m, p);
  }

  lemma AllDigitsExact(N: nat, V: nat, m: nat, p: nat)
    requires V > 0 && m >= 2
    requires N < p * BPow(m) && p <= BASE / 2 <= V / BPow(m - 1)
    ensures DigitsExactFrom(N, V, m, 0)
  {
    forall k | 0 <= k <= 4 - m
      ensures !UnderEstimates(PartialRemainder(N, V, k), V, m)
    {
      NeverSaturates(N, V, m, p, k);
    }
  }

  lemma NormalizerRange(d: U256)
    requires Nat(d) >= BASE
    ensures var m, s := SignificantWords(d), Normalizer(d);
            Pow2(s) <= BASE / 2 <= (Nat(d) * Pow2(s)) / BPow(m - 1)
  {
    var m, s := SignificantWords(d), Normalizer(d);
    NormalizedDivisor(d, m, s);
    TopLimb(Limbs(BitsLeft(d, s))[..m]);
    Pow2Word();
    Pow2Monotone(s, 63);
  }

  // All four-word divisors, and all operands below 2^128, divide exactly.
  lemma ExactDomain(a: U256, b: U256)
    requires Nat(b) != 0
    requires b.hi != 0 || Nat(a) < BASE2 || Nat(b) < BASE
    ensures DivModExact(a, b)
  {
    if Nat(b) >= BASE && Nat(a) > Nat(b) {
      ValLimbs(a);
      assert BPow(2) == BASE * (BASE * 1);
      BPowAdd(2, SignificantWords(b) - 2);
      MulMonotone(1, BPow(SignificantWords(b) - 2), BPow(2));
      ExactWhenShort(a, b);
    }
  }

  // 2^127 + 2 into 2^64 times itself minus one: the quotient digit 2^64 - 1 comes out one too small.
  lemma UnderEstimateExists()
    ensures var d := U256(2, BASE / 2, 0, 0);
            var u := U256(MAX_WORD, 1, BASE / 2, 0);
            Nat(u) == Nat(d) * BASE - 1 && !DivModExact(u, d)
  {
    var d := U256(2, BASE / 2, 0, 0);
    var u := U256(MAX_WORD, 1, BASE / 2, 0);
    var N, V := Nat(u), Nat(d);
    assert Normalizer(d) == 0 && Pow2(0) == 1;
    assert BPow(0) == 1 && BPow(1) == BASE && BPow(2) == BASE * (BASE * 1);
    DivModUnique(N, V * BASE, 0, N);
    assert PartialRemainder(N, V, 0) == N;
    DivModUnique(N, BASE2, BASE / 2, N - BASE / 2 * BASE2);
    DivModUnique(V, BASE, BASE / 2, 2);
    assert DigitOf(N, V, 2) == MAX_WORD - 1;
    assert UnderEstimates(N, V, 2);
  }
}
