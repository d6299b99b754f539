/**
 The digits of long division, Knuth's Algorithm D (TAOCP vol. 2, section 4.3.1), on arrays of words:
 the estimate of a digit, the multiplication and subtraction, the correction, and the loop over them.

 One arm of the digit estimate, taken when the leading limb of the partial remainder equals the
 leading limb of the divisor, starts the refinement from a remainder of 0.  It can return a
 digit that is too small, and nothing after it repairs that: `UnderEstimates` says when.
 */
module KnuthD {
  import opened Words
  import opened Uint256
  import opened Shifts
  import opened LimbSeqs

  // ----- the digit estimate on leading limbs -----

  // The digit the saturating arm settles on.
  function SaturatedDigit(d1: Word, d2: Word, u3: Word): (q: Word)
  {
    if MAX_WORD * d2 <= u3 then MAX_WORD
    else if (MAX_WORD - 1) * d2 <= d1 * BASE + u3 then MAX_WORD - 1
    else MAX_WORD - 2
  }

  lemma FloorIs(n: nat, d: nat, q: nat)
    requires q * d <= n < (q + 1) * d
    ensures n / d == q
  {
    DivModUnique(n, d, q, n - q * d);
  }

  // The first estimate, one limb against one, is not too small for two limbs against three.
  lemma FirstEstimate(q: nat, u12: nat, u3: Word, d1: Word, d2: Word)
    requires u12 < (q + 1) * d1
    ensures u12 * BASE + u3 < (q + 1) * (d1 * BASE + d2)
  {
    MulMonotone(u12 + 1, (q + 1) * d1, BASE);
    MulAssoc(q + 1, d1, BASE);
    MulMonotone(0, q + 1, d2);
  }

  // The refinement test compares the digit with the three limbs.
  lemma RefineTest(q: nat, r: nat, u12: nat, u3: Word, d1: Word, d2: Word)
    requires q * d1 + r == u12
    ensures q * (d1 * BASE + d2) <= u12 * BASE + u3 <==> q * d2 <= r * BASE + u3
  {
    MulAssoc(q, d1, BASE);
  }

  lemma DecrementEstimate(q: nat, r: nat, u12: nat, d1: Word)
    requires q >= 1 && q * d1 + r == u12
    ensures (q - 1) * d1 + (r + d1) == u12
  {
  }

  lemma TestOverflow(q: Word, r: nat, u3: Word, d2: Word)
    requires r >= BASE
    ensures q * d2 <= r * BASE + u3
  {
    MulMonotone(q, BASE, d2);
  }

  // Step D3: estimates a quotient digit from three limbs of the remainder and two of the divisor.
  method EstimateDigit(u1: Word, u2: Word, u3: Word, d1: Word, d2: Word) returns (qhat: Word)
    requires d1 >= BASE / 2
    ensures u1 < d1 ==> qhat == ((u1 * BASE + u2) * BASE + u3) / (d1 * BASE + d2)
    ensures u1 >= d1 ==> qhat == SaturatedDigit(d1, d2, u3)
  {
    var rhat: Word;
    ghost var u12 := u1 * BASE + u2;
    ghost var divisor := d1 * BASE + d2;
    if u1 >= d1 {
      qhat, rhat := MAX_WORD, 0;
    } else {
      var qr := Div64(u1, u2, d1);
      qhat, rhat := qr.0, qr.1;
      FirstEstimate(qhat, u12, u3, d1, d2);
    }
    ghost var tight := false;
    if d2 == 0 {
      if u1 < d1 {
        RefineTest(qhat, rhat, u12, u3, d1, d2);
      }
      tight := true;
    }
    while d2 != 0
      invariant u1 < d1 && !tight ==> qhat * d1 + rhat == u12
      invariant u1 < d1 ==> u12 * BASE + u3 < (qhat + 1) * divisor
      invariant u1 < d1 && tight ==> qhat * divisor <= u12 * BASE + u3
      invariant u1 >= d1 && !tight ==> (qhat == MAX_WORD && rhat == 0)
                                       || (qhat == MAX_WORD - 1 && rhat == d1 && MAX_WORD * d2 > u3)
      invariant u1 >= d1 && tight ==> qhat == SaturatedDigit(d1, d2, u3)
      invariant tight ==> d2 == 0
      decreases qhat
    {
      var p := Mul64(qhat, d2);
      if u1 < d1 {
        RefineTest(qhat, rhat, u12, u3, d1, d2);
      }
      if p.0 < rhat || (p.0 == rhat && p.1 <= u3) {
        assert qhat * d2 <= rhat * BASE + u3;
        tight := true;
        break;
      }
      assert qhat * d2 > rhat * BASE + u3;
      assert qhat > 0;
      if u1 < d1 {
        DecrementEstimate(qhat, rhat, u12, d1);
      }
      qhat := qhat - 1;
      ghost var exactRhat := rhat + d1;
      var sum := Add64(rhat, d1, 0);
      rhat := sum.0;
      if sum.1 != 0 {
        if u1 < d1 {
          TestOverflow(qhat, exactRhat, u3, d2);
          RefineTest(qhat, exactRhat, u12, u3, d1, d2);
        }
        tight := true;
        break;
      }
    }
    if u1 < d1 {
      FloorIs(u12 * BASE + u3, divisor, qhat);
    }
  }

  // ----- multiply and subtract, add back -----

  // One limb of the subtraction.  The running borrow is a whole word: the high product word plus
  // the carry of folding the borrow in plus the underflow, which together never wrap.
  function SubtractProduct(un: Word, q: Word, d: Word, borrow: Word): (r: (Word, Word))
    ensures r.0 - BASE * r.1 == un - q * d - borrow
  {
    var (hi, lo) := Mul64(q, d);
    var (low, carry) := Add64(lo, borrow, 0);
    var (diff, underflow) := Sub64(un, low, 0);
    MulMonotone(q, MAX_WORD, d);
    MulMonotone(d, MAX_WORD, MAX_WORD);
    (diff, hi + carry + underflow)
  }

  lemma ScaleEquation(p: int, diff: int, b': int, un: int, qd: int, b: int)
    requires diff - BASE * b' == un - qd - b
    ensures p * diff - b' * (BASE * p) == p * un - p * qd - b * p
  {
    assert p * (diff - BASE * b') == p * (un - qd - b);
  }

  // One more limb of  value - borrow == dividend - q * divisor.
  lemma BorrowStep(vb: int, vu: int, vd: int, p: int, q: int, diff: int, un: int, d: int, b: int, b': int)
    requires vb - b * p == vu - q * vd
    requires diff - BASE * b' == un - q * d - b
    ensures (vb + p * diff) - b' * (BASE * p) == (vu + p * un) - q * (vd + p * d)
  {
    ScaleEquation(p, diff, b', un, q * d, b);
    assert q * (vd + p * d) == q * vd + p * (q * d);
  }

  // The limbs `r` with the pending borrow are the limbs u minus q times the limbs d.
  ghost predicate Subtracted(r: seq<Word>, borrow: int, u: seq<Word>, q: int, d: seq<Word>)
  {
    |r| == |u| && Val(r) - borrow * BPow(|r|) == Val(u) - q * Val(d)
  }

  lemma SubtractedNone(u: seq<Word>, q: int, d: seq<Word>)
    ensures Subtracted([], 0, u[..0], q, d[..0])
  {
  }

  lemma SubtractLimb(r: seq<Word>, u: seq<Word>, d: seq<Word>, q: int, diff: Word, b: int, b': int)
    requires |r| < |u| && |r| < |d|
    requires Subtracted(r, b, u[..|r|], q, d[..|r|])
    requires diff - BASE * b' == u[|r|] - q * d[|r|] - b
    ensures Subtracted(r + [diff], b', u[..|r| + 1], q, d[..|r| + 1])
  {
    var i := |r|;
    ValPrefix(u, i);
    ValPrefix(d, i);
    ValAppend(r, [diff]);
    ValOne(diff);
    BorrowStep(Val(r), Val(u[..i]), Val(d[..i]), BPow(i), q, diff, u[i], d[i], b, b');
  }

  lemma SubtractTop(r: seq<Word>, u: seq<Word>, d: seq<Word>, q: int, top: Word, b: int, ov: int)
    requires |r| == |d| && |u| == |r| + 1
    requires Subtracted(r, b, u[..|r|], q, d[..|r|])
    requires top - BASE * ov == u[|r|] - b
    ensures Subtracted(r + [top], ov, u, q, d)
  {
    var m := |r|;
    assert u[..m + 1] == u && d[..m] == d;
    ValPrefix(u, m);
    ValAppend(r, [top]);
    ValOne(top);
    BorrowStep(Val(r), Val(u[..m]), Val(d), BPow(m), q, top, u[m], 0, b, ov);
  }

  // Step D4: subtracts qhat times the divisor from limbs j .. j + m.
  method MultiplySubtract(un: array<Word>, dn: array<Word>, j: nat, m: nat, qhat: Word) returns (overflow: Word)
    requires un.Length == 5 && dn.Length == 4 && un != dn
    requires 2 <= m <= 4 && j + m <= 4
    modifies un
    ensures overflow <= 1
    ensures Subtracted(un[j..j + m + 1], overflow, old(un[j..j + m + 1]), qhat, dn[..m])
    ensures un[..j] == old(un[..j]) && un[j + m + 1..] == old(un[j + m + 1..])
  {
    hide Subtracted, SubtractProduct, Sub64;
    ghost var was, d, finished := un[..], dn[..m], [];
    ghost var u := was[j..j + m + 1];
    SubtractedNone(u, qhat, d);
    var borrow: Word := 0;
    for i := 0 to m
      invariant |finished| == i
      invariant forall k :: 0 <= k < 5 ==> un[k] == if j <= k < j + i then finished[k - j] else was[k]
      invariant Subtracted(finished, borrow, u[..i], qhat, d[..i])
    {
      var (diff, out) := SubtractProduct(un[j + i], qhat, dn[i], borrow);
      SubtractLimb(finished, u, d, qhat, diff, borrow, out);
      un[j + i] := diff;
      borrow := out;
      finished := finished + [diff];
    }
    var (top, ov) := Sub64(un[j + m], borrow, 0);
    SubtractTop(finished, u, d, qhat, top, borrow, ov);
    un[j + m] := top;
    overflow := ov;
    finished := finished + [top];
    assert forall k :: 0 <= k < 5 ==> un[k] == if j <= k < j + m + 1 then finished[k - j] else was[k];
    assert un[j..j + m + 1] == finished;
  }

  // Step D5: adds the divisor back to limbs j .. j + m, dropping the last carry.
  method AddBack(un: array<Word>, dn: array<Word>, j: nat, m: nat) returns (ghost carryOut: Word)
    requires un.Length == 5 && dn.Length == 4 && un != dn
    requires 2 <= m <= 4 && j + m <= 4
    modifies un
    ensures carryOut <= 1
    ensures Subtracted(un[j..j + m + 1], 0 - carryOut, old(un[j..j + m + 1]), 0 - 1, dn[..m])
    ensures un[..j] == old(un[..j]) && un[j + m + 1..] == old(un[j + m + 1..])
  {
    hide Subtracted, Add64;
    ghost var was, d, finished := un[..], dn[..m], [];
    ghost var u := was[j..j + m + 1];
    SubtractedNone(u, 0 - 1, d);
    var carry: Word := 0;
    for i := 0 to m
      invariant carry <= 1
      invariant |finished| == i
      invariant forall k :: 0 <= k < 5 ==> un[k] == if j <= k < j + i then finished[k - j] else was[k]
      invariant Subtracted(finished, 0 - carry, u[..i], 0 - 1, d[..i])
    {
      var (sum, c) := Add64(un[j + i], dn[i], carry);
      SubtractLimb(finished, u, d, 0 - 1, sum, 0 - carry, 0 - c);
      un[j + i] := sum;
      carry := c;
      finished := finished + [sum];
    }
    var (top, c) := Add64(un[j + m], 0, carry);
    SubtractTop(finished, u, d, 0 - 1, top, 0 - carry, 0 - c);
    un[j + m] := top;
    carryOut := c;
    finished := finished + [top];
    assert forall k :: 0 <= k < 5 ==> un[k] == if j <= k < j + m + 1 then finished[k - j] else was[k];
    assert un[j..j + m + 1] == finished;
  }

  // ----- one digit -----

  // The saturating arm under-estimates: the leading limbs agree and the digit it settles on
  // leaves at least the divisor.  U is the partial remainder, V the normalized divisor of m limbs.
  predicate UnderEstimates(U: nat, V: nat, m: nat)
    requires m >= 2
  {
    && U / BPow(m) == V / BPow(m - 1)
    && (DigitOf(U, V, m) + 1) * V <= U
  }

  function DigitOf(U: nat, V: nat, m: nat): Word
    requires m >= 2
  {
    SaturatedDigit(V / BPow(m - 1) % BASE, V / BPow(m - 2) % BASE, U / BPow(m - 2) % BASE)
  }

  // A digit that does not exceed the leading limbs' quotient over-shoots by at most one divisor.
  lemma OvershootsByOne(q: Word, U: nat, V: nat, u3: nat, d2: nat, ul: nat, vl: nat, p: nat)
    requires U == p * u3 + ul && V == p * d2 + vl && ul < p && vl < p
    requires q * d2 <= u3 && d2 >= BASE
    ensures q * V < U + V
  {
    MulMonotone(q * d2, u3, p);
    MulMonotone(vl, p, q);
    MulMonotone(q, BASE, p);
    MulMonotone(BASE, d2, p);
    assert q * V == (q * d2) * p + q * vl;
  }

  lemma NotTooSmall(q: Word, U: nat, V: nat, u3: nat, d2: nat, ul: nat, vl: nat, p: nat)
    requires U == p * u3 + ul && V == p * d2 + vl && ul < p && vl < p
    requires u3 < (q + 1) * d2
    ensures U < (q + 1) * V
  {
    MulMonotone(u3 + 1, (q + 1) * d2, p);
    MulMonotone(0, q + 1, vl);
    assert (q + 1) * V == ((q + 1) * d2) * p + (q + 1) * vl;
  }

  // The saturated digit does not exceed the leading limbs' quotient.
  lemma SaturatedDigitFits(d1: Word, d2: Word, u2: Word, u3: Word)
    requires d1 >= BASE / 2
    ensures SaturatedDigit(d1, d2, u3) * (d1 * BASE + d2) <= (d1 * BASE + u2) * BASE + u3
  {
    var q := SaturatedDigit(d1, d2, u3);
    MulAssoc(q, d1, BASE);
    if q == MAX_WORD - 2 {
      MulMonotone(d2, BASE, MAX_WORD - 2);
    }
  }

  // Leading limbs of a number and of the divisor.
  lemma LeadingLimbs(u: seq<Word>, d: seq<Word>, m: nat)
    requires 2 <= m == |d| && |u| == m + 1
    ensures Val(u) / BPow(m) == u[m] && Val(d) / BPow(m - 1) == d[m - 1]
    ensures Val(d) / BPow(m - 1) % BASE == d[m - 1] && Val(d) / BPow(m - 2) % BASE == d[m - 2]
    ensures Val(u) / BPow(m - 2) % BASE == u[m - 2]
  {
    TopLimb(u);
    TopLimb(d);
    LimbAt(d, m - 1);
    LimbAt(d, m - 2);
    LimbAt(u, m - 2);
  }

  lemma ThreeLimbs(u: seq<Word>, m: nat)
    requires 2 <= m && |u| == m + 1
    ensures Val(u) == BPow(m - 2) * ((u[m] * BASE + u[m - 1]) * BASE + u[m - 2]) + Val(u[..m - 2])
    ensures Val(u[..m - 2]) < BPow(m - 2)
  {
    ValSplit(u, m - 2);
    var t := u[m - 2..];
    assert t == [u[m - 2], u[m - 1], u[m]];
    assert t[1..] == [u[m - 1], u[m]] && t[1..][1..] == [u[m]];
    ValOne(u[m]);
    assert Val(t) == u[m - 2] + BASE * (u[m - 1] + BASE * u[m]);
  }

  lemma TwoLimbs(d: seq<Word>, m: nat)
    requires 2 <= m && |d| == m
    ensures Val(d) == BPow(m - 2) * (d[m - 1] * BASE + d[m - 2]) + Val(d[..m - 2])
    ensures Val(d[..m - 2]) < BPow(m - 2)
  {
    ValSplit(d, m - 2);
    var t := d[m - 2..];
    assert t == [d[m - 2], d[m - 1]];
    assert t[1..] == [d[m - 1]];
    ValOne(d[m - 1]);
    assert Val(t) == d[m - 2] + BASE * d[m - 1];
  }

  lemma LeadingDigitBound(u1: nat, d1: nat, ul: nat, dl: nat, p: nat)
    requires ul + (BASE * p) * u1 < (dl + p * d1) * BASE && dl < p
    ensures u1 <= d1
  {
    if u1 >= d1 + 1 {
      MulMonotone(d1 + 1, u1, BASE * p);
    }
  }

  // The partial remainder is below BASE divisors, so its leading limb is at most the divisor's.
  lemma LeadingLimbBound(u: seq<Word>, d: seq<Word>, m: nat)
    requires 2 <= m == |d| && |u| == m + 1
    requires Val(u) < Val(d) * BASE
    ensures u[m] <= d[m - 1]
  {
    ValSplit(u, m);
    assert u[m..] == [u[m]];
    ValOne(u[m]);
    ValSplit(d, m - 1);
    assert d[m - 1..] == [d[m - 1]];
    ValOne(d[m - 1]);
    LeadingDigitBound(u[m], d[m - 1], Val(u[..m]), Val(d[..m - 1]), BPow(m - 1));
  }

  lemma FloorBounds(n: nat, d: nat)
    requires d > 0
    ensures (n / d) * d <= n < (n / d + 1) * d
  {
  }

  // Bounds on leading limbs carry over to the whole numbers.
  lemma DigitBounds(q: Word, u: seq<Word>, d: seq<Word>, m: nat)
    requires 2 <= m == |d| && |u| == m + 1 && d[m - 1] >= BASE / 2
    ensures var u3, d2 := (u[m] * BASE + u[m - 1]) * BASE + u[m - 2], d[m - 1] * BASE + d[m - 2];
            (q * d2 <= u3 ==> q * Val(d) < Val(u) + Val(d))
            && (u3 < (q + 1) * d2 ==> Val(u) < (q + 1) * Val(d))
  {
    ThreeLimbs(u, m);
    TwoLimbs(d, m);
    hide Val, BPow;
    var u3, d2 := (u[m] * BASE + u[m - 1]) * BASE + u[m - 2], d[m - 1] * BASE + d[m - 2];
    if q * d2 <= u3 {
      OvershootsByOne(q, Val(u), Val(d), u3, d2, Val(u[..m - 2]), Val(d[..m - 2]), BPow(m - 2));
    }
    if u3 < (q + 1) * d2 {
      NotTooSmall(q, Val(u), Val(d), u3, d2, Val(u[..m - 2]), Val(d[..m - 2]), BPow(m - 2));
    }
  }

  lemma UnderEstimatesByLimbs(u: seq<Word>, d: seq<Word>, m: nat)
    requires 2 <= m == |d| && |u| == m + 1
    ensures UnderEstimates(Val(u), Val(d), m) <==>
            u[m] == d[m - 1] && (SaturatedDigit(d[m - 1], d[m - 2], u[m - 2]) + 1) * Val(d) <= Val(u)
  {
    LeadingLimbs(u, d, m);
    hide SaturatedDigit, Val, BPow;
  }

  // What the estimate guarantees for the whole divisor.
  lemma EstimateSound(u: seq<Word>, d: seq<Word>, m: nat, qhat: Word)
    requires 2 <= m == |d| && |u| == m + 1 && d[m - 1] >= BASE / 2
    requires Val(u) < Val(d) * BASE
    requires u[m] < d[m - 1] ==>
               qhat == ((u[m] * BASE + u[m - 1]) * BASE + u[m - 2]) / (d[m - 1] * BASE + d[m - 2])
    requires u[m] >= d[m - 1] ==> qhat == SaturatedDigit(d[m - 1], d[m - 2], u[m - 2])
    ensures qhat * Val(d) < Val(u) + Val(d)
    ensures UnderEstimates(Val(u), Val(d), m) <==> (qhat + 1) * Val(d) <= Val(u)
  {
    LeadingLimbBound(u, d, m);
    UnderEstimatesByLimbs(u, d, m);
    hide SaturatedDigit, Val, BPow, UnderEstimates;
    DigitBounds(qhat, u, d, m);
    if u[m] < d[m - 1] {
      FloorBounds((u[m] * BASE + u[m - 1]) * BASE + u[m - 2], d[m - 1] * BASE + d[m - 2]);
    } else {
      SaturatedDigitFits(d[m - 1], d[m - 2], u[m - 1], u[m - 2]);
    }
  }

  // ----- one step of the division loop -----

  lemma SubtractedValue(r: seq<Word>, borrow: int, u: seq<Word>, q: int, d: seq<Word>)
    requires Subtracted(r, borrow, u, q, d)
    ensures Val(r) == Val(u) - q * Val(d) + borrow * BPow(|r|)
    ensures Val(r) < BPow(|r|)
  {
    ValBound(r);
  }

  // A digit that left a non-negative remainder.
  lemma DigitKept(U: nat, V: nat, q: nat, r: nat)
    requires V > 0 && r == U - q * V
    ensures (q + 1) * V <= U ==> q < U / V
    ensures U < (q + 1) * V ==> q == U / V && r == U % V
  {
    if U < (q + 1) * V {
      DivModUnique(U, V, q, r);
    } else {
      FloorBounds(U, V);
      if U / V <= q {
        MulMonotone(U / V + 1, q + 1, V);
      }
    }
  }

  // A digit one too large: the subtraction wrapped, and adding the divisor back wraps again.
  lemma DigitCorrected(U: nat, V: nat, q: nat, wrapped: nat, r: nat, carry: nat, big: nat)
    requires 0 < V <= big && q * V < U + V && carry <= 1
    requires wrapped == U - q * V + big && wrapped < big
    requires r == wrapped + V - carry * big && r < big
    ensures q >= 1 && q - 1 == U / V && r == U % V && U < (q + 1) * V
  {
    if q == 0 {
      MulMonotone(0, 0, V);
    }
    assert (q - 1) * V == q * V - V;
    DivModUnique(U, V, q - 1, U - (q - 1) * V);
  }

  // Steps D3 to D5 for the digit at position j.
  method DivideStep(un: array<Word>, dn: array<Word>, j: nat, m: nat) returns (digit: Word)
    requires un.Length == 5 && dn.Length == 4 && un != dn
    requires 2 <= m <= 4 && j + m <= 4 && dn[m - 1] >= BASE / 2
    modifies un
    ensures var U, V := old(Val(un[j..j + m + 1])), Val(dn[..m]);
            U < V * BASE ==>
              if UnderEstimates(U, V, m) then V > 0 && digit < U / V
              else V > 0 && digit == U / V && Val(un[j..j + m + 1]) == U % V
    ensures un[..j] == old(un[..j]) && un[j + m + 1..] == old(un[j + m + 1..])
  {
    hide Val, BPow, Subtracted, UnderEstimates, SaturatedDigit;
    ghost var u, d := un[j..j + m + 1], dn[..m];
    assert Val(d) > 0 by { DivisorPositive(d, m); }
    var qhat := EstimateDigit(un[j + m], un[j + m - 1], un[j + m - 2], dn[m - 1], dn[m - 2]);
    ghost var inRange := Val(u) < Val(d) * BASE;
    if inRange {
      EstimateSound(u, d, m, qhat);
    }
    var overflow := MultiplySubtract(un, dn, j, m, qhat);
    ghost var wrapped := un[j..j + m + 1];
    SubtractedValue(wrapped, overflow, u, qhat, d);
    digit := qhat;
    if overflow != 0 {
      digit := if qhat == 0 then MAX_WORD else qhat - 1;
      ghost var carry := AddBack(un, dn, j, m);
      ghost var r := un[j..j + m + 1];
      SubtractedValue(r, 0 - (carry as int), wrapped, 0 - 1, d);
      DivisorBelow(d, m);
      if inRange {
        DigitCorrected(Val(u), Val(d), qhat, Val(wrapped), Val(r), carry, BPow(m + 1));
      }
    } else if inRange {
      DigitKept(Val(u), Val(d), qhat, Val(wrapped));
    }
  }

  lemma DivisorPositive(d: seq<Word>, m: nat)
    requires 2 <= m == |d| && d[m - 1] >= BASE / 2
    ensures Val(d) > 0
  {
    TopLimb(d);
    MulMonotone(1, BPow(m - 1), 1);
  }

  lemma DivisorBelow(d: seq<Word>, m: nat)
    requires |d| == m
    ensures Val(d) <= BPow(m + 1)
  {
    ValBound(d);
  }

  // ----- the whole division, on normalized numbers -----

  // What is left of N when the digits above position j have been divided out, from position j up.
  function PartialRemainder(N: nat, V: nat, j: nat): (u: nat)
    requires V > 0
    ensures u < V * BASE
  {
    RemainderInWindow(N, V, BPow(j), BPow(j + 1));
    (N % (V * BPow(j + 1))) / BPow(j)
  }

  lemma RemainderInWindow(N: nat, V: nat, p: nat, pb: nat)
    requires V > 0 && p > 0 && pb == BASE * p
    ensures V * pb > 0 && 0 <= (N % (V * pb)) / p < V * BASE
  {
    MulMonotone(1, V, pb);
    MulAssoc(V, BASE, p);
    DivBound(N % (V * pb), p, V * BASE);
  }

  // No digit from position j up is under-estimated.
  predicate DigitsExactFrom(N: nat, V: nat, m: nat, j: nat)
    requires V > 0 && m >= 2
  {
    forall k :: j <= k <= 4 - m ==> !UnderEstimates(PartialRemainder(N, V, k), V, m)
  }

  lemma {:induction false} ValUpdate(s: seq<Word>, k: nat, x: Word)
    requires k < |s|
    ensures Val(s[k := x]) == Val(s) + BPow(k) * (x - s[k])
    decreases k
  {
    if k == 0 {
      assert s[0 := x][1..] == s[1..];
    } else {
      assert s[k := x][1..] == s[1..][k - 1 := x];
      ValUpdate(s[1..], k - 1, x);
      MulAssoc(BASE, BPow(k - 1), x - s[k]);
    }
  }

  lemma SmallSum(low: nat, p: nat, high: nat)
    requires low + p * high < p
    ensures high == 0
  {
    if high >= 1 {
      MulMonotone(1, high, p);
    }
  }

  lemma HighZero(s: seq<Word>, k: nat)
    requires k <= |s| && Val(s) < BPow(k)
    ensures Val(s[k..]) == 0 && Val(s) == Val(s[..k])
  {
    hide Val, BPow;
    ValJoin(s, k);
    SmallSum(Val(s[..k]), BPow(k), Val(s[k..]));
  }

  lemma {:induction false} ValZeros(s: seq<Word>)
    requires forall i :: 0 <= i < |s| ==> s[i] == 0
    ensures Val(s) == 0
  {
    if s != [] {
      ValZeros(s[1..]);
    }
  }

  // Limbs j .. j + m hold everything at or above position j.
  lemma WindowValue(un: seq<Word>, d: seq<Word>, m: nat, j: nat)
    requires |un| == 5 && |d| == m && j + m <= 4
    requires Val(un) < Val(d) * BPow(j + 1)
    ensures Val(un) == Val(un[..j]) + BPow(j) * Val(un[j..j + m + 1])
    ensures Val(un[..j]) < BPow(j)
    ensures Val(un) / BPow(j) == Val(un[j..j + m + 1])
    ensures Val(un[j + m + 1..]) == 0
  {
    hide Val, BPow;
    ValBound(d);
    MulMonotone(Val(d), BPow(m), BPow(j + 1));
    BPowAdd(m, j + 1);
    HighZero(un, j + m + 1);
    var low := un[..j + m + 1];
    ValSplit(low, j);
    assert low[..j] == un[..j] && low[j..] == un[j..j + m + 1];
  }

  lemma RemainderOf(N: nat, V: nat, q: nat, p: nat, w: nat, pb: nat)
    requires pb == BASE * p && V > 0 && p > 0
    requires w + (q * pb) * V == N && w < V * pb
    ensures w == N % (V * pb)
  {
    assert (q * pb) * V == q * (V * pb);
    DivModUnique(N, V * pb, q, w);
  }

  // Before the step at position j the window is the partial remainder of the inputs.
  lemma WindowIsRemainder(N: nat, un: seq<Word>, d: seq<Word>, q: seq<Word>, m: nat, j: nat)
    requires |un| == 5 && |d| == m && |q| == 4 && j + m <= 4 && Val(d) > 0 && m >= 2
    requires Val(un) < Val(d) * BPow(j + 1) && Val(un) + Val(q) * Val(d) == N
    requires forall k :: 0 <= k <= j ==> q[k] == 0
    ensures Val(un[j..j + m + 1]) == PartialRemainder(N, Val(d), j)
  {
    hide Val;
    WindowValue(un, d, m, j);
    ValJoin(q, j + 1);
    ValZeros(q[..j + 1]);
    RemainderOf(N, Val(d), Val(q[j + 1..]), BPow(j), Val(un), BPow(j + 1));
  }

  lemma DivideWindow(N: nat, V: nat, U: nat, Q: nat, low: nat, p: nat, digit: nat)
    requires V > 0 && low < p && low + p * U + Q * V == N
    ensures digit == U / V ==> low + p * (U % V) + (Q + p * digit) * V == N && low + p * (U % V) < V * p
    ensures digit < U / V ==> (Q + p * digit) + p <= N / V
  {
    var t, r := U / V, U % V;
    assert p * U == p * (t * V) + p * r;
    assert (Q + p * t) * V == Q * V + p * (t * V);
    MulMonotone(r + 1, V, p);
    if digit < t {
      MulMonotone(digit + 1, t, p);
      MulMonotone(Q + p * digit + p, Q + p * t, V);
      MulMonotone(0, p, r);
      FloorAtLeast(N, V, Q + p * digit + p);
    }
  }

  lemma FloorAtLeast(n: nat, d: nat, q: nat)
    requires d > 0 && q * d <= n
    ensures q <= n / d
  {
    FloorBounds(n, d);
    if n / d < q {
      MulMonotone(n / d + 1, q, d);
    }
  }

  // Bounds that hold once the divisor is normalized.
  lemma DivisorAtLeast(N: nat, d: seq<Word>, m: nat)
    requires 2 <= m == |d| && m <= 4 && d[m - 1] >= BASE / 2
    requires N < BASE / 2 * BPow(4)
    ensures N < Val(d) * BPow(5 - m)
  {
    TwoLimbs(d, m);
    ValSplit(d, m - 1);
    assert d[m - 1..] == [d[m - 1]];
    ValOne(d[m - 1]);
    var p := BPow(m - 1);
    MulMonotone(BASE / 2, d[m - 1], p);
    MulMonotone(BASE / 2 * p, Val(d), BPow(5 - m));
    BPowAdd(m - 1, 5 - m);
    MulAssoc(BASE / 2, p, BPow(5 - m));
  }

  // The limbs outside the window did not change.
  lemma WindowAfter(was: seq<Word>, now: seq<Word>, m: nat, j: nat)
    requires |was| == |now| == 5 && j + m <= 4
    requires now[..j] == was[..j] && now[j + m + 1..] == was[j + m + 1..]
    requires Val(was[j + m + 1..]) == 0
    ensures Val(now) == Val(was[..j]) + BPow(j) * Val(now[j..j + m + 1])
  {
    hide Val, BPow;
    ValJoin(now, j + m + 1);
    var low := now[..j + m + 1];
    ValJoin(low, j);
    assert low[..j] == was[..j] && low[j..] == now[j..j + m + 1];
  }

  lemma LaterDigits(Q: nat, j: nat, digit: Word, t: nat)
    requires Q + BPow(j + 1) <= t
    ensures Q + BPow(j) * digit + BPow(j) <= t
  {
    MulMonotone(digit + 1, BASE, BPow(j));
  }

  // The state of the loop with the digits from position j up in place: either they are the
  // digits of the quotient and `un` is what is left, or they fell behind for good.
  ghost predicate Dividing(N: nat, d: seq<Word>, m: nat, un: seq<Word>, q: seq<Word>, j: nat)
  {
    && 2 <= m == |d| && Val(d) > 0 && |un| == 5 && |q| == 4 && j <= 5 - m
    && (forall k :: 0 <= k < j ==> q[k] == 0)
    && if DigitsExactFrom(N, Val(d), m, j) then
         Val(un) + Val(q) * Val(d) == N && Val(un) < Val(d) * BPow(j)
       else
         Val(q) + BPow(j) <= N / Val(d)
  }

  // What DivideStep promises about the window.
  ghost predicate Stepped(was: seq<Word>, now: seq<Word>, V: nat, m: nat, j: nat, digit: Word)
  {
    && |was| == |now| == 5 && m >= 2 && j + m <= 4
    && now[..j] == was[..j] && now[j + m + 1..] == was[j + m + 1..]
    && var U := Val(was[j..j + m + 1]);
       U < V * BASE ==>
         V > 0 && if UnderEstimates(U, V, m) then digit < U / V
                  else digit == U / V && Val(now[j..j + m + 1]) == U % V
  }

  lemma DividingStep(N: nat, d: seq<Word>, m: nat, was: seq<Word>, now: seq<Word>, q: seq<Word>, j: nat, digit: Word)
    requires Dividing(N, d, m, was, q, j + 1)
    requires Stepped(was, now, Val(d), m, j, digit)
    ensures Dividing(N, d, m, now, q[j := digit], j)
  {
    assert DigitsExactFrom(N, Val(d), m, j) <==>
           DigitsExactFrom(N, Val(d), m, j + 1) && !UnderEstimates(PartialRemainder(N, Val(d), j), Val(d), m);
    hide Val, BPow, UnderEstimates, PartialRemainder, DigitsExactFrom;
    ValUpdate(q, j, digit);
    if DigitsExactFrom(N, Val(d), m, j + 1) {
      var V, U := Val(d), Val(was[j..j + m + 1]);
      WindowIsRemainder(N, was, d, q, m, j);
      WindowValue(was, d, m, j);
      DivideWindow(N, V, U, Val(q), Val(was[..j]), BPow(j), digit);
      WindowAfter(was, now, m, j);
    } else {
      LaterDigits(Val(q), j, digit, N / Val(d));
    }
  }

  lemma DividingDone(N: nat, d: seq<Word>, m: nat, un: seq<Word>, q: seq<Word>)
    requires Dividing(N, d, m, un, q, 0)
    ensures if DigitsExactFrom(N, Val(d), m, 0) then Val(q) == N / Val(d) && Val(un) == N % Val(d)
            else Val(q) < N / Val(d)
  {
    if DigitsExactFrom(N, Val(d), m, 0) {
      DivModUnique(N, Val(d), Val(q), Val(un));
    }
  }

  lemma DividingStart(un: seq<Word>, d: seq<Word>, m: nat)
    requires 2 <= m == |d| && m <= 4 && d[m - 1] >= BASE / 2 && |un| == 5
    requires Val(un) < BASE / 2 * BPow(4)
    ensures Val(d) > 0 && Dividing(Val(un), d, m, un, [0, 0, 0, 0], 5 - m)
  {
    DivisorPositive(d, m);
    DivisorAtLeast(Val(un), d, m);
    ValZeros([0, 0, 0, 0]);
  }

  // The loop of u256KnuthD: divides the five limbs of un by the m limbs of dn.
  method DivideDigits(un: array<Word>, dn: array<Word>, m: nat) returns (q: array<Word>)
    requires un.Length == 5 && dn.Length == 4 && un != dn
    requires 2 <= m <= 4 && dn[m - 1] >= BASE / 2
    requires Val(un[..]) < BASE / 2 * BPow(4)
    modifies un
    ensures fresh(q) && q.Length == 4
    ensures var N, V := old(Val(un[..])), Val(dn[..m]);
            V > 0 && if DigitsExactFrom(N, V, m, 0) then Val(q[..]) == N / V && Val(un[..]) == N % V
                     else Val(q[..]) < N / V
  {
    hide Val, BPow, UnderEstimates, PartialRemainder, DigitsExactFrom, Dividing;
    ghost var N, d := Val(un[..]), dn[..m];
    DividingStart(un[..], d, m);
    q := new Word[4] [0, 0, 0, 0];
    assert q[..] == [0, 0, 0, 0];
    for j := 5 - m downto 0
      invariant dn[..m] == d
      invariant Dividing(N, d, m, un[..], q[..], j)
    {
      ghost var was, quo := un[..], q[..];
      label Step:
      var digit := DivideStep(un, dn, j, m);
      assert Stepped(was, un[..], Val(d), m, j, digit) by {
        assert was[j..j + m + 1] == old@Step(un[j..j + m + 1]);
      }
      q[j] := digit;
      assert q[..] == quo[j := digit];
      DividingStep(N, d, m, was, un[..], quo, j, digit);
    }
    DividingDone(N, d, m, un[..], q[..]);
  }
}
