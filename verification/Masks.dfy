/**
 Bit masks, bit tests and N-bit two's complement on 256-bit values.
 */
module Masks {
  import opened Words
  import opened Uint256
  import opened Shifts

  // ----- masks -----

  // The limbs of a with everything from bit n up cleared.
  function MaskedLimbs(a: U256, n: nat): (l: seq<Word>)
    ensures |l| == 4
  {
    [MaskedLimb(a.lo, 0, n), MaskedLimb(a.ml, 1, n), MaskedLimb(a.mh, 2, n), MaskedLimb(a.hi, 3, n)]
  }

  function MaskedLimb(x: Word, k: nat, n: nat): Word
  {
    if k < n / 64 then x
    else if k == n / 64 then (ModAtMost(x, Pow2(n % 64)); x % Pow2(n % 64))
    else 0
  }

  lemma ModAtLimb(low: nat, b: nat, limb: nat, rest: nat, p: nat, c: nat)
    requires low < b && p >= 1 && p * c == BASE
    ensures b * p > 0 && (low + b * (limb + BASE * rest)) % (b * p) == low + b * (limb % p)
  {
    var q, r := limb / p, limb % p;
    MulMonotone(1, p, b);
    MulMonotone(r + 1, p, b);
    assert limb + BASE * rest == (q + c * rest) * p + r by {
      assert (p * c) * rest == (c * rest) * p;
    }
    assert b * ((q + c * rest) * p + r) == (q + c * rest) * (b * p) + b * r;
    DivModUnique(low + b * (limb + BASE * rest), b * p, q + c * rest, low + b * r);
  }

  function FromLimbs(l: seq<Word>): U256
    requires |l| == 4
  {
    U256(l[0], l[1], l[2], l[3])
  }

  // Limbs below w whole, limb w modulo p, nothing above.
  function KeepLow(a: U256, w: nat, p: nat): U256
    requires w < 4 && p >= 1
  {
    ModAtMost(a.lo, p);
    ModAtMost(a.ml, p);
    ModAtMost(a.mh, p);
    ModAtMost(a.hi, p);
    if w == 0 then U256(a.lo % p, 0, 0, 0)
    else if w == 1 then U256(a.lo, a.ml % p, 0, 0)
    else if w == 2 then U256(a.lo, a.ml, a.mh % p, 0)
    else U256(a.lo, a.ml, a.mh, a.hi % p)
  }

  lemma KeepLowValue(a: U256, w: nat, p: nat, c: nat, m: nat)
    requires w < 4 && p >= 1 && p * c == BASE
    requires m == (if w == 0 then p else if w == 1 then BASE * p else if w == 2 then BASE2 * p else BASE3 * p)
    ensures m > 0 && Nat(KeepLow(a, w, p)) == Nat(a) % m
  {
    if w == 0 {
      ModAtLimb(0, 1, a.lo, a.ml + BASE * a.mh + BASE2 * a.hi, p, c);
    } else if w == 1 {
      ModAtLimb(a.lo, BASE, a.ml, a.mh + BASE * a.hi, p, c);
    } else if w == 2 {
      ModAtLimb(a.lo + BASE * a.ml, BASE2, a.mh, a.hi, p, c);
    } else {
      ModAtLimb(a.lo + BASE * a.ml + BASE2 * a.mh, BASE3, a.hi, 0, p, c);
    }
  }

  lemma MaskedValue(a: U256, n: nat)
    requires n < 256
    ensures Nat(FromLimbs(MaskedLimbs(a, n))) == Nat(a) % Pow2(n)
  {
    var w, s := n / 64, n % 64;
    assert FromLimbs(MaskedLimbs(a, n)) == KeepLow(a, w, Pow2(s));
    hide Nat, MaskedLimbs, KeepLow;
    Pow2Add(s, 64 - s);
    Pow2Word();
    PowerAtLimb(n);
    KeepLowValue(a, w, Pow2(s), Pow2(64 - s), Pow2(n));
  }

  lemma PowerAtLimb(n: nat)
    requires n < 256
    ensures var w, p := n / 64, Pow2(n % 64);
            Pow2(n) == if w == 0 then p else if w == 1 then BASE * p else if w == 2 then BASE2 * p else BASE3 * p
  {
    assert Pow2(0) == 1;
    hide Pow2;
    Pow2Limbs();
    var w, s := n / 64, n % 64;
    assert n == 64 * w + s && w < 4;
    Pow2Add(64 * w, s);
  }

  lemma WideMask(a: U256, n: nat)
    requires n >= 256
    ensures Nat(a) % Pow2(n) == Nat(a)
  {
    hide Pow2, Nat;
    Pow2Limbs();
    Pow2Monotone(256, n);
    DivModUnique(Nat(a), Pow2(n), 0, Nat(a));
  }

  // lu256MaskN
  method MaskN(a: U256, n: int) returns (r: U256)
    ensures n <= 0 ==> r == ZERO
    ensures n >= 0 ==> Nat(r) == Nat(a) % Pow2(n)
  {
    if n >= 256 {
      WideMask(a, n);
      return a;
    }
    if n <= 0 {
      return ZERO;
    }
    var w := new Word[4] [a.lo, a.ml, a.mh, a.hi];
    var wordIdx, bitInWord := n / 64, n % 64;
    ghost var limbs := MaskedLimbs(a, n);
    MaskedValue(a, n);
    MaskedAt(a, n);
    hide Nat, Pow2, MaskedLimbs, BitAnd, Shl64;
    if bitInWord != 0 {
      MaskWord(w[wordIdx], bitInWord);
      w[wordIdx] := BitAnd(w[wordIdx], Shl64(1, bitInWord) - 1);
      wordIdx := wordIdx + 1;
    }
    for i := wordIdx to 4
      invariant forall k :: 0 <= k < i ==> w[k] == limbs[k]
    {
      w[i] := 0;
    }
    r := U256(w[0], w[1], w[2], w[3]);
  }

  lemma MaskedAt(a: U256, n: nat)
    requires n < 256
    ensures forall k :: 0 <= k < 4 ==>
              (MaskedLimbs(a, n)[k] == if k < n / 64 then Limbs(a)[k]
                                       else if k == n / 64 && n % 64 != 0 then Limbs(a)[k] % Pow2(n % 64)
                                       else 0)
  {
  }

  lemma MaskWord(x: Word, b: nat)
    requires b < 64
    ensures Shl64(1, b) >= 1 && BitAnd(x, Shl64(1, b) - 1) == x % Pow2(b) <= x
  {
    Pow2Word();
    Pow2Monotone(b, 63);
    hide Pow2, BitAnd;
    DivModUnique(1 * Pow2(b), BASE, 0, Pow2(b));
    AndMask(x, b);
    ModAtMost(x, Pow2(b));
  }

  // ----- bits -----

  // lu256BitN
  method BitN(a: U256, n: nat) returns (r: bool)
    requires n < 256
    ensures r <==> (Nat(a) / Pow2(n)) % 2 == 1
  {
    var w := new Word[4] [a.lo, a.ml, a.mh, a.hi];
    r := BitAnd(Shr64(w[n / 64], n % 64), 1) == 1;
    assert Pow2(1) == 2;
    AndMask(Shr64(w[n / 64], n % 64), 1);
    BitValue(a, n);
  }

  lemma BitValue(a: U256, n: nat)
    requires n < 256
    ensures (Nat(a) / Pow2(n)) % 2 == Shr64(Limbs(a)[n / 64], n % 64) % 2
  {
    hide Nat, Pow2, BitsRight;
    ShrValue(a, n);
    var s, k := n % 64, n / 64;
    EvenNat(MovedDown(BitsRight(a, s), k));
    assert MovedDown(BitsRight(a, s), k).lo == Limbs(BitsRight(a, s))[k];
    RightLimbParity(a, s, k);
  }

  lemma EvenNat(v: U256)
    ensures Nat(v) % 2 == v.lo % 2
  {
  }

  lemma RightLimbParity(a: U256, s: nat, k: nat)
    requires s < 64 && k < 4
    ensures Limbs(BitsRight(a, s))[k] % 2 == Shr64(Limbs(a)[k], s) % 2
  {
    hide Nat, Pow2, Shr64, Shl64, BitOr;
    var l := Limbs(a);
    if k < 3 {
      assert Limbs(BitsRight(a, s))[k] == BitOr(Shl64(l[k + 1], 64 - s), Shr64(l[k], s));
      hide BitsRight;
      ShiftedLimb(l[k + 1], l[k], 64 - s);
      ShlEven(l[k + 1], 64 - s);
    }
  }

  lemma MultipleEven(y: nat, q: nat)
    requires q > 0 && y % (2 * q) == 0
    ensures y % 2 == 0
  {
    var k := y / (2 * q);
    MulAssoc(k, q, 2);
    DivModUnique(y, 2, k * q, 0);
  }

  lemma ShlEven(x: Word, s: nat)
    requires 0 < s <= 64
    ensures Shl64(x, s) % 2 == 0
  {
    SplitWord(x, s);
    MultipleEven(Shl64(x, s), Pow2(s - 1));
  }

  // ----- N-bit two's complement -----

  // The patterns an N-bit operand ranges over.
  predicate Canonical(v: U256, n: nat) { Nat(v) < Pow2(n) }

  // The signed number an N-bit pattern stands for.
  function Signed(v: U256, n: nat): int
    requires n >= 1 && Canonical(v, n)
  {
    SignedNat(Nat(v), n)
  }

  function SignedNat(v: nat, n: nat): (x: int)
    requires n >= 1 && v < Pow2(n)
    ensures x % Pow2(n) == v && 0 <= x + Pow2(n - 1) && x < Pow2(n - 1)
  {
    if v >= Pow2(n - 1) then
      DivModUnique(v - Pow2(n), Pow2(n), 0 - 1, v);
      v - Pow2(n)
    else
      DivModUnique(v, Pow2(n), 0, v);
      v
  }

  function Abs(x: int): nat { if x < 0 then -x else x }

  // The top bit of a canonical pattern is its sign.
  lemma TopBit(v: U256, n: nat)
    requires n >= 1 && Canonical(v, n)
    ensures (Nat(v) / Pow2(n - 1)) % 2 == 1 <==> Signed(v, n) < 0
  {
    var p := Pow2(n - 1);
    assert Pow2(n) == 2 * p;
    if Nat(v) >= p {
      DivModUnique(Nat(v), p, 1, Nat(v) - p);
    } else {
      DivModUnique(Nat(v), p, 0, Nat(v));
    }
  }

  lemma ModShift(x: int, k: int, m: nat)
    requires m > 0
    ensures (x + k * m) % m == x % m
  {
    assert (x / m + k) * m == x / m * m + k * m;
    DivModUnique(x + k * m, m, x / m + k, x % m);
  }

  // Reduction modulo 2^256 does not disturb reduction modulo a smaller power.
  lemma ModMod(x: int, m: nat, k: nat)
    requires m > 0 && k > 0
    ensures m * k > 0 && (x % (m * k)) % m == x % m
  {
    MulMonotone(1, k, m);
    var q, r := x / (m * k), x % (m * k);
    assert q * (m * k) == (q * k) * m;
    ModShift(r, q * k, m);
  }

  lemma Mod256(x: int, n: nat)
    requires n <= 256
    ensures (x % BASE4) % Pow2(n) == x % Pow2(n)
  {
    Pow2Limbs();
    Pow2Add(n, 256 - n);
    ModMod(x, Pow2(n), Pow2(256 - n));
  }

  // lu256NegN
  method NegN(a: U256, n: nat) returns (r: U256)
    requires n <= 256
    ensures Nat(r) == (0 - Nat(a) as int) % Pow2(n)
  {
    r := MaskN(Sub(ZERO, a), n);
    assert Nat(ZERO) == 0;
    Mod256(0 - Nat(a), n);
  }

  // ----- sign extension -----

  function Not(a: U256): U256 { U256(MAX_WORD - a.lo, MAX_WORD - a.ml, MAX_WORD - a.mh, MAX_WORD - a.hi) }

  // lu256Bor
  function Or(a: U256, b: U256): U256
  {
    U256(OrWord(a.lo, b.lo), OrWord(a.ml, b.ml), OrWord(a.mh, b.mh), OrWord(a.hi, b.hi))
  }

  lemma CanonicalLimbs(a: U256, n: nat)
    requires n < 256 && Canonical(a, n)
    ensures Limbs(a) == MaskedLimbs(a, n)
  {
    MaskedValue(a, n);
    hide Pow2;
    DivModUnique(Nat(a), Pow2(n), 0, Nat(a));
    NatInjective(a, FromLimbs(MaskedLimbs(a, n)));
  }

  // A limb below the mark, at it, and above it: filling the bits from n up adds them.
  lemma FillLimb(x: Word, n: nat, k: nat)
    requires n < 256 && k < 4 && x == MaskedLimb(x, k, n)
    ensures var high := MAX_WORD - MaskedLimb(MAX_WORD, k, n);
            BitOr(x, high) == x + high
  {
    hide Pow2, BitOr;
    var s := n % 64;
    if k < n / 64 {
      OrZero(x);
    } else if k == n / 64 {
      Pow2Word();
      Pow2Add(s, 64 - s);
      var p := Pow2(s);
      OnesMod(p, Pow2(64 - s), BASE);
      FloorPart(x, p);
      OrDisjoint(BASE - p, x, s);
      OrCommutes(BASE - p, x);
    } else {
      OrZero(MAX_WORD);
      OrCommutes(0, MAX_WORD);
    }
  }

  lemma FloorPart(x: nat, p: nat)
    requires p > 0 && x % p == x
    ensures x < p
  {
  }

  lemma FillLimbs(a: U256, low: U256, n: nat)
    requires n < 256 && Canonical(a, n)
    requires Limbs(low) == MaskedLimbs(ALL_ONES, n)
    ensures forall k :: 0 <= k < 4 ==>
              BitOr(Limbs(a)[k], MAX_WORD - Limbs(low)[k]) == Limbs(a)[k] + (MAX_WORD - Limbs(low)[k])
  {
    CanonicalLimbs(a, n);
    hide Pow2, BitOr, MaskedLimb, Nat;
    forall k | 0 <= k < 4
      ensures BitOr(Limbs(a)[k], MAX_WORD - Limbs(low)[k]) == Limbs(a)[k] + (MAX_WORD - Limbs(low)[k])
    {
      assert MaskedLimbs(a, n)[k] == MaskedLimb(Limbs(a)[k], k, n);
      assert MaskedLimbs(ALL_ONES, n)[k] == MaskedLimb(MAX_WORD, k, n);
      FillLimb(Limbs(a)[k], n, k);
    }
  }

  lemma OrLimbs(a: U256, b: U256)
    requires forall k :: 0 <= k < 4 ==> BitOr(Limbs(a)[k], Limbs(b)[k]) == Limbs(a)[k] as int + Limbs(b)[k]
    ensures Nat(Or(a, b)) == Nat(a) + Nat(b)
  {
    hide BitOr;
    assert Or(a, b).lo == BitOr(Limbs(a)[0], Limbs(b)[0]);
    assert Or(a, b).ml == BitOr(Limbs(a)[1], Limbs(b)[1]);
    assert Or(a, b).mh == BitOr(Limbs(a)[2], Limbs(b)[2]);
    assert Or(a, b).hi == BitOr(Limbs(a)[3], Limbs(b)[3]);
  }

  lemma NotValue(a: U256)
    ensures Nat(Not(a)) == BASE4 - 1 - Nat(a)
    ensures forall k :: 0 <= k < 4 ==> Limbs(Not(a))[k] == MAX_WORD - Limbs(a)[k]
  {
  }

  lemma FillHigh(a: U256, low: U256, n: nat)
    requires n < 256 && Canonical(a, n)
    requires Nat(low) == Nat(ALL_ONES) % Pow2(n)
    ensures Nat(Or(a, Not(low))) == Nat(a) + BASE4 - Pow2(n)
  {
    hide Nat, Pow2, BitOr, Or, MaskedLimbs;
    MaskedValue(ALL_ONES, n);
    NatInjective(low, FromLimbs(MaskedLimbs(ALL_ONES, n)));
    FillLimbs(a, low, n);
    NotValue(low);
    OrLimbs(a, Not(low));
    AllOnesMod(n);
  }

  lemma OnesMod(p: nat, c: nat, total: nat)
    requires p >= 1 && p * c == total
    ensures (total - 1) % p == p - 1 && (total - p) % p == 0 
  {
    assert (c - 1) * p == total - p;
    DivModUnique(total - 1, p, c - 1, p - 1);
    DivModUnique(total - p, p, c - 1, 0);
  }

  lemma AllOnesMod(n: nat)
    requires n <= 256
    ensures Nat(ALL_ONES) == BASE4 - 1 && Nat(ALL_ONES) % Pow2(n) == Pow2(n) - 1
  {
    assert Nat(ALL_ONES) == BASE4 - 1;
    hide Nat, Pow2;
    Pow2Limbs();
    Pow2Add(n, 256 - n);
    OnesMod(Pow2(n), Pow2(256 - n), BASE4);
  }

  // lu256SignExtendN
  method SignExtendN(a: U256, n: nat) returns (r: U256)
    requires 1 <= n <= 256
    ensures Canonical(a, n) ==> Nat(r) == Signed(a, n) % BASE4
  {
    hide Nat, Pow2, Or;
    Pow2Limbs();
    if Canonical(a, n) {
      TopBit(a, n);
      SignedPattern(a, n);
    }
    if n >= 256 {
      return a;
    }
    var negative := BitN(a, n - 1);
    if !negative {
      return a;
    }
    var low := MaskN(ALL_ONES, n);
    r := Or(a, Not(low));
    if Canonical(a, n) {
      FillHigh(a, low, n);
    }
  }

  lemma SignedPattern(a: U256, n: nat)
    requires 1 <= n <= 256 && Canonical(a, n)
    ensures Signed(a, n) % BASE4 == if Signed(a, n) < 0 then Nat(a) + BASE4 - Pow2(n) else Nat(a)
  {
    Pow2Limbs();
    Pow2Monotone(n, 256);
    if Signed(a, n) < 0 {
      DivModUnique(Signed(a, n), BASE4, 0 - 1, Nat(a) + BASE4 - Pow2(n));
    } else {
      DivModUnique(Nat(a), BASE4, 0, Nat(a));
    }
  }

  // ----- arithmetic right shift -----

  // lu256SarN: the extension is shifted in with zeros above, so the result is the floor of the
  // quotient exactly when those zeros stay out of the N bits.
  method SarN(a: U256, shift: nat, n: nat) returns (r: U256)
    requires 1 <= n <= 256
    ensures Canonical(a, n) ==>
      (Nat(r) == (Signed(a, n) / Pow2(shift)) % Pow2(n)
       <==> Signed(a, n) >= 0 || shift >= n || shift + n <= 256)
  {
    hide Nat, Pow2;
    if Canonical(a, n) {
      TopBit(a, n);
    }
    var negative := BitN(a, n - 1);
    if !negative {
      r := Shr(a, shift);
      r := MaskN(r, n);
      return;
    }
    if shift >= n {
      r := MaskN(ALL_ONES, n);
      if Canonical(a, n) {
        AllOnesMod(n);
        SarAll(a, shift, n);
      }
      return;
    }
    var extended := SignExtendN(a, n);
    r := Shr(extended, shift);
    r := MaskN(r, n);
    if Canonical(a, n) {
      SarExtended(a, shift, n);
    }
  }

  // A negative number shifted by its width or more is -1.
  lemma SarAll(a: U256, shift: nat, n: nat)
    requires 1 <= n <= shift && Canonical(a, n) && Signed(a, n) < 0
    ensures (Signed(a, n) / Pow2(shift)) % Pow2(n) == Pow2(n) - 1
  {
    Pow2Monotone(n - 1, shift);
    var x := Signed(a, n);
    DivModUnique(x, Pow2(shift), 0 - 1, x + Pow2(shift));
    DivModUnique(0 - 1, Pow2(n), 0 - 1, Pow2(n) - 1);
  }

  lemma SarExtended(a: U256, shift: nat, n: nat)
    requires 1 <= n <= 256 && shift < n && Canonical(a, n) && Signed(a, n) < 0
    ensures ((Signed(a, n) % BASE4) / Pow2(shift)) % Pow2(n) == (Signed(a, n) / Pow2(shift)) % Pow2(n)
            <==> shift + n <= 256
  {
    SarPattern(Signed(a, n), shift, n);
  }

  lemma SarPattern(x: int, shift: nat, n: nat)
    requires 1 <= n <= 256 && shift < n && 0 <= x + Pow2(n - 1) && x < 0
    ensures ((x % BASE4) / Pow2(shift)) % Pow2(n) == (x / Pow2(shift)) % Pow2(n) <==> shift + n <= 256
  {
    hide Pow2;
    Pow2Monotone(n - 1, 255);
    ShiftedPattern(x, shift);
    var y := x / Pow2(shift);
    AddedPower(y, 256 - shift, n);
  }

  // Shifting the 256-bit pattern of a negative number: the sign bits lost on top are missing.
  lemma ShiftedPattern(x: int, shift: nat)
    requires 0 <= x + Pow2(255) && x < 0 && shift <= 256
    ensures (x % BASE4) / Pow2(shift) == x / Pow2(shift) + Pow2(256 - shift)
  {
    Pow2Limbs();
    Pow2Add(256 - shift, shift);
    Pow2Monotone(255, 256);
    hide Pow2;
    DivModUnique(x, BASE4, 0 - 1, x + BASE4);
    ShiftedExtension(x, Pow2(shift), Pow2(256 - shift));
  }

  lemma ShiftedExtension(x: int, p: nat, c: nat)
    requires p > 0
    ensures (x + c * p) / p == x / p + c
  {
    DivModUnique(x + c * p, p, x / p + c, x % p);
  }

  // 2^w added to y changes y modulo 2^n exactly when w < n.
  lemma AddedPower(y: int, w: nat, n: nat)
    ensures (y + Pow2(w)) % Pow2(n) == y % Pow2(n) <==> n <= w
  {
    if n <= w {
      Pow2Add(w - n, n);
      ModShift(y, Pow2(w - n), Pow2(n));
    } else {
      Pow2Monotone(w, n);
      BelowModulus(y, Pow2(w), Pow2(n));
    }
  }

  lemma BelowModulus(y: int, c: nat, m: nat)
    requires 0 < c < m
    ensures (y + c) % m != y % m
  {
    if (y + c) % m == y % m {
      var k := (y + c) / m - y / m;
      assert k * m == c;
      MulAtLeast(k, m);
    }
  }
}
