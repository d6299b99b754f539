/**
 N-bit signed division on two's-complement patterns and the overflow-checked operations the
 contract runtime calls.  A host call either pushes a value or raises.
 */
module CheckedArith {
  import opened Words
  import opened Uint256
  import opened Shifts
  import opened Division
  import opened Masks

  datatype Outcome = Pushed(value: U256) | Raised(message: string)

  // ----- truncating division -----

  function TruncDiv(x: int, y: int): int
    requires y != 0
  {
    if (x < 0) == (y < 0) then Abs(x) / Abs(y) else -(Abs(x) / Abs(y))
  }

  // The remainder takes the sign of the dividend.
  function TruncMod(x: int, y: int): int
    requires y != 0
  {
    if x < 0 then -(Abs(x) % Abs(y)) else Abs(x) % Abs(y)
  }

  lemma TruncDivMod(x: int, y: int)
    requires y != 0
    ensures x == y * TruncDiv(x, y) + TruncMod(x, y)
    ensures Abs(TruncMod(x, y)) < Abs(y)
    ensures TruncMod(x, y) == 0 || (TruncMod(x, y) < 0 <==> x < 0)
  {
    var q, r := Abs(x) / Abs(y), Abs(x) % Abs(y);
    assert Abs(x) == q * Abs(y) + r;
  }

  // The magnitude of an N-bit operand, as the 256-bit value the code divides.
  function Magnitude(v: U256, n: nat): (m: U256)
    requires 1 <= n <= 256 && Canonical(v, n)
    ensures Nat(m) == Abs(Signed(v, n)) <= Pow2(n - 1)
  {
    Pow2Limbs();
    Pow2Monotone(n - 1, 255);
    Pow2Monotone(255, 256);
    FromNat(Abs(Signed(v, n)))
  }

  lemma NegMod(v: nat, m: nat)
    requires v < m
    ensures (0 - v) % m == if v == 0 then 0 else m - v
  {
    if v > 0 {
      DivModUnique(0 - v, m, 0 - 1, m - v);
    }
  }

  // Negating a negative pattern gives the magnitude.
  lemma NegatedPattern(v: U256, n: nat)
    requires 1 <= n && Canonical(v, n) && Signed(v, n) < 0
    ensures (0 - Nat(v)) % Pow2(n) == -Signed(v, n)
  {
    hide Nat;
    NegMod(Nat(v), Pow2(n));
  }

  // The magnitude of an operand, as both division routines compute it.
  method MagnitudeOf(v: U256, n: nat, negative: bool) returns (m: U256)
    requires 1 <= n <= 256
    requires Canonical(v, n) ==> (negative <==> Signed(v, n) < 0)
    ensures Canonical(v, n) ==> m == Magnitude(v, n)
    ensures Nat(v) % Pow2(n) != 0 ==> Nat(m) != 0
  {
    hide Nat, Signed;
    m := v;
    if negative {
      m := NegN(v, n);
      if Canonical(v, n) {
        NegatedPattern(v, n);
      }
      if Nat(v) % Pow2(n) != 0 && Nat(m) == 0 {
        ZeroNegation(Nat(v), Pow2(n));
      }
    }
    if Canonical(v, n) {
      assert Nat(m) == Abs(Signed(v, n)) by {
        if !negative {
          NonNegative(v, n);
        }
      }
      NatInjective(m, Magnitude(v, n));
    }
    if Nat(v) == 0 {
      DivModUnique(0, Pow2(n), 0, 0);
    }
  }

  lemma NonNegative(v: U256, n: nat)
    requires 1 <= n && Canonical(v, n) && Signed(v, n) >= 0
    ensures Signed(v, n) == Nat(v)
  {
  }

  lemma ZeroNegation(v: nat, m: nat)
    requires m > 0 && (0 - v) % m == 0
    ensures v % m == 0
  {
    var k := (0 - v) / m;
    assert v == (0 - k) * m;
    DivModUnique(v, m, 0 - k, 0);
  }

  // A quotient of magnitudes, signed or not, fits in N bits and determines its pattern.
  lemma SignedQuotient(q: nat, t: nat, n: nat)
    requires n >= 1 && q <= t <= Pow2(n - 1)
    ensures q % Pow2(n) == q
    ensures q == t <==> q % Pow2(n) == t % Pow2(n)
    ensures q == t <==> (0 - q) % Pow2(n) == (0 - t) % Pow2(n)
  {
    DivModUnique(q, Pow2(n), 0, q);
    DivModUnique(t, Pow2(n), 0, t);
    NegMod(q, Pow2(n));
    NegMod(t, Pow2(n));
  }

  predicate MagnitudesExact(a: U256, b: U256, n: nat)
    requires 1 <= n <= 256 && Canonical(a, n) && Canonical(b, n)
  {
    DivModExact(Magnitude(a, n), Magnitude(b, n))
  }

  lemma ZeroDivisor(b: U256, n: nat)
    requires 1 <= n && Canonical(b, n)
    ensures Signed(b, n) == 0 <==> Nat(b) % Pow2(n) == 0
  {
    hide Nat;
    DivModUnique(Nat(b), Pow2(n), 0, Nat(b));
    assert Nat(b) == 0 ==> Signed(b, n) == 0;
    DivModUnique(0, Pow2(n), 0, 0);
  }

  // lu256SignedDivN: the pattern of the truncated quotient, exactly when the magnitudes divide
  // exactly.
  method SignedDivN(a: U256, b: U256, n: nat) returns (q: U256)
    requires 1 <= n <= 256 && Nat(b) % Pow2(n) != 0
    ensures Nat(q) < Pow2(n)
    ensures Canonical(a, n) && Canonical(b, n) ==>
      (Signed(b, n) != 0 && (MagnitudesExact(a, b, n) <==>
         Nat(q) == TruncDiv(Signed(a, n), Signed(b, n)) % Pow2(n)))
  {
    hide Nat, Pow2, Signed, DivModExact;
    var aNeg := BitN(a, n - 1);
    var bNeg := BitN(b, n - 1);
    ghost var canonical := Canonical(a, n) && Canonical(b, n);
    if Canonical(a, n) {
      TopBit(a, n);
    }
    if Canonical(b, n) {
      TopBit(b, n);
      ZeroDivisor(b, n);
    }
    var absA := MagnitudeOf(a, n, aNeg);
    var absB := MagnitudeOf(b, n, bNeg);
    var q0, _ := DivMod(absA, absB);
    q := MaskN(q0, n);
    ghost var t := Nat(absA) / Nat(absB);
    if canonical {
      DivLeDividend(Nat(absA), Nat(absB));
      SignedQuotient(Nat(q0), t, n);
    }
    if aNeg != bNeg {
      q := NegN(q, n);
    }
  }

  // lu256SignedModN: the pattern of the truncated remainder.
  method SignedModN(a: U256, b: U256, n: nat) returns (r: U256)
    requires 1 <= n <= 256 && Nat(b) % Pow2(n) != 0
    ensures Nat(r) < Pow2(n)
    ensures Canonical(a, n) && Canonical(b, n) ==>
      (Signed(b, n) != 0 && (MagnitudesExact(a, b, n) ==>
         Nat(r) == TruncMod(Signed(a, n), Signed(b, n)) % Pow2(n)))
  {
    hide Nat, Pow2, Signed, DivModExact;
    var aNeg := BitN(a, n - 1);
    var bNeg := BitN(b, n - 1);
    ghost var exact := Canonical(a, n) && Canonical(b, n);
    if Canonical(a, n) {
      TopBit(a, n);
    }
    if Canonical(b, n) {
      TopBit(b, n);
      ZeroDivisor(b, n);
      exact := exact && MagnitudesExact(a, b, n);
    }
    var absA := MagnitudeOf(a, n, aNeg);
    var absB := MagnitudeOf(b, n, bNeg);
    var _, r0 := DivMod(absA, absB);
    r := MaskN(r0, n);
    if exact {
      RemainderBelow(Nat(absA), Nat(absB));
      SignedQuotient(Nat(r0), Nat(r0), n);
    }
    if aNeg {
      r := NegN(r, n);
    }
  }

  lemma RemainderBelow(x: nat, y: nat)
    requires y > 0
    ensures x % y <= x
  {
    ModAtMost(x, y);
  }

  // At most 128 bits: always exact.
  lemma NarrowExact(a: U256, b: U256, n: nat)
    requires 1 <= n <= 128 && Canonical(a, n) && Canonical(b, n) && Signed(b, n) != 0
    ensures MagnitudesExact(a, b, n)
  {
    hide DivModExact, Nat, Signed;
    Pow2Limbs();
    Pow2Monotone(n - 1, 127);
    Pow2Monotone(127, 128);
    ExactDomain(Magnitude(a, n), Magnitude(b, n));
  }

  // ----- widths -----

  // int(L.CheckUint256(k).lo) on a 64-bit machine
  function WidthArgument(bits: U256): int
  {
    if bits.lo < BASE / 2 then bits.lo else bits.lo - BASE
  }

  // signedBitWidth: -1 stands for the raised error
  function SignedBitWidth(bits: U256): (n: int)
    ensures n != -1 ==> 8 <= n <= 256 && n == Nat(bits)
  {
    if bits.hi != 0 || bits.mh != 0 || bits.ml != 0 || bits.lo > MAX_WORD / 2 then -1
    else if bits.lo < 8 || bits.lo > 256 || bits.lo % 8 != 0 then -1
    else bits.lo
  }

  const OVERFLOW := "Panic(0x11)"
  const BAD_WIDTH := "__tol_signed: invalid bit width"

  // ----- unsigned checked operations -----

  // cryptoUintCheckedAdd: the sum, or an overflow error exactly when it needs more than N bits.
  method UintCheckedAdd(a: U256, b: U256, bits: U256) returns (r: Outcome)
    ensures var n := WidthArgument(bits);
            1 <= n <= 256 && Canonical(a, n) && Canonical(b, n) ==>
              if Nat(a) + Nat(b) < Pow2(n) then r.Pushed? && Nat(r.value) == Nat(a) + Nat(b)
              else r == Raised(OVERFLOW)
  {
    hide Nat, Pow2, Add;
    var n := WidthArgument(bits);
    var result := Add(a, b);
    Pow2Limbs();
    if n == 256 {
      SumWraps(Nat(a), Nat(b), BASE4);
      if Cmp(result, a) < 0 {
        return Raised(OVERFLOW);
      }
    } else {
      var masked := MaskN(result, n);
      if 1 <= n < 256 && Canonical(a, n) && Canonical(b, n) {
        Pow2Monotone(n, 256);
        SumWraps(Nat(a), Nat(b), BASE4);
        MaskKeeps(result, masked, n);
      }
      if masked != result {
        return Raised(OVERFLOW);
      }
    }
    return Pushed(result);
  }

  lemma SumWraps(x: nat, y: nat, m: nat)
    requires x < m && y < m
    ensures (x + y) % m == if x + y < m then x + y else x + y - m
  {
    if x + y < m {
      DivModUnique(x + y, m, 0, x + y);
    } else {
      DivModUnique(x + y, m, 1, x + y - m);
    }
  }

  // Masking leaves a value unchanged exactly when it fits.
  lemma MaskKeeps(v: U256, masked: U256, n: nat)
    requires Nat(masked) == Nat(v) % Pow2(n)
    ensures masked == v <==> Nat(v) < Pow2(n)
  {
    hide Nat, Pow2;
    if Nat(v) < Pow2(n) {
      DivModUnique(Nat(v), Pow2(n), 0, Nat(v));
      NatInjective(masked, v);
    }
  }

  // cryptoUintCheckedSub: the difference, or an overflow error exactly when it is negative.
  method UintCheckedSub(a: U256, b: U256, bits: U256) returns (r: Outcome)
    ensures var n := WidthArgument(bits);
            1 <= n <= 256 && Canonical(a, n) && Canonical(b, n) ==>
              if Nat(a) >= Nat(b) then r.Pushed? && Nat(r.value) == Nat(a) - Nat(b)
              else r == Raised(OVERFLOW)
  {
    hide Nat, Pow2, Sub;
    var n := WidthArgument(bits);
    var aMasked, bMasked := a, b;
    if n < 256 {
      aMasked := MaskN(a, n);
      bMasked := MaskN(b, n);
      if 1 <= n && Canonical(a, n) && Canonical(b, n) {
        MaskKeeps(a, aMasked, n);
        MaskKeeps(b, bMasked, n);
      }
    }
    if Cmp(bMasked, aMasked) > 0 {
      return Raised(OVERFLOW);
    }
    if Nat(a) >= Nat(b) {
      DivModUnique(Nat(a) - Nat(b), BASE4, 0, Nat(a) - Nat(b));
    }
    return Pushed(Sub(a, b));
  }

  // cryptoUintCheckedMul, where the limb product keeps its carries, as it does up to 64 bits.  Up to 128
  // bits, and at 256 bits where the division that tests it is exact: the product, or an overflow error
  // exactly when it needs more than N bits.  At every width below 256 the test sees the product modulo
  // 2^256 only, so that between 128 and 256 bits a product that wraps around to fewer than N bits is
  // pushed.
  method UintCheckedMul(a: U256, b: U256, bits: U256) returns (r: Outcome)
    ensures var n := WidthArgument(bits);
            1 <= n <= 256 && Canonical(a, n) && Canonical(b, n)
            && MulKeepsCarries(a, b) && (n <= 128 || (n == 256 && DivModExact(Mul(a, b), a))) ==>
              if Nat(a) * Nat(b) < Pow2(n) then r.Pushed? && Nat(r.value) == Nat(a) * Nat(b)
              else r == Raised(OVERFLOW)
    ensures var n, seen := WidthArgument(bits), (Nat(a) * Nat(b)) % BASE4;
            0 <= n < 256 && MulKeepsCarries(a, b) ==>
              if seen < Pow2(n) then r.Pushed? && Nat(r.value) == seen else r == Raised(OVERFLOW)
  {
    hide Nat, Pow2, Mul, MulKeepsCarries, DivModExact;
    var n := WidthArgument(bits);
    var result := Mul(a, b);
    MulExactIff(a, b);
    Pow2Limbs();
    if n < 256 {
      var masked := MaskN(result, n);
      if n >= 0 {
        MaskKeeps(result, masked, n);
      }
      if 1 <= n <= 128 && Canonical(a, n) && Canonical(b, n) && MulKeepsCarries(a, b) {
        NarrowProduct(Nat(a), Nat(b), n);
      }
      if masked != result {
        return Raised(OVERFLOW);
      }
    } else {
      if a != ZERO {
        assert Nat(a) != 0 by {
          if Nat(a) == 0 {
            ZeroNat();
            NatInjective(a, ZERO);
          }
        }
        var q, _ := DivMod(result, a);
        if MulKeepsCarries(a, b) && DivModExact(result, a) {
          ProductTest(Nat(a), Nat(b), BASE4);
          if Nat(q) == Nat(b) {
            NatInjective(q, b);
          }
        }
        if q != b {
          return Raised(OVERFLOW);
        }
      } else {
        ZeroNat();
        ProductOfZero(Nat(b));
      }
    }
    return Pushed(result);
  }

  // The verdict is right exactly when the product does not wrap around to fewer than N bits.
  lemma WideVerdictRight(product: nat, n: nat)
    requires n <= 256
    ensures (product % BASE4 < Pow2(n) <==> product < Pow2(n)) <==> product < BASE4 || product % BASE4 >= Pow2(n)
  {
    Pow2Limbs();
    Pow2Monotone(n, 256);
    hide Pow2;
    if product < BASE4 {
      ModIdentity(product, BASE4);
    }
  }

  // 2^128 times itself at 200 bits: no carry is lost, the product is far too large, and 0 is pushed.
  lemma WideProductWraps()
    ensures var a := U256(0, 0, 1, 0);
            && Canonical(a, 200) && MulKeepsCarries(a, a)
            && Nat(a) * Nat(a) >= Pow2(200) && (Nat(a) * Nat(a)) % BASE4 == 0
  {
    hide Pow2, Mul, MulKeepsCarries;
    SquareKeepsCarries();
    Pow2Limbs();
    Pow2Monotone(128, 200);
    Pow2Monotone(200, 256);
  }

  lemma SquareKeepsCarries()
    ensures var a := U256(0, 0, 1, 0); Nat(a) == BASE2 && MulKeepsCarries(a, a) && BASE2 * BASE2 == BASE4
  {
    hide Pow2;
    var a := U256(0, 0, 1, 0);
    var none := Double(0, 0);
    assert PartialProducts(a, a) == Partial(none, none, none, none, none, none, none, none, none, none);
  }

  lemma ZeroNat()
    ensures Nat(ZERO) == 0
  {
  }

  lemma ProductOfZero(y: nat)
    ensures 0 * y == 0 && (0 * y) % BASE4 == 0
  {
  }

  // Two operands of at most 128 bits multiply below 2^256.
  lemma NarrowProduct(x: nat, y: nat, n: nat)
    requires n <= 128 && x < Pow2(n) && y < Pow2(n)
    ensures (x * y) % BASE4 == x * y
  {
    hide Pow2;
    Pow2Limbs();
    Pow2Monotone(n, 128);
    BelowSquare(x, y, BASE2);
    ModIdentity(x * y, BASE4);
  }

  lemma ModIdentity(v: nat, m: nat)
    requires v < m
    ensures v % m == v
  {
    DivModUnique(v, m, 0, v);
  }

  lemma BelowSquare(x: nat, y: nat, b: nat)
    requires x < b && y < b
    ensures x * y < b * b
  {
    MulMonotone(x, b, y);
    ScaleLess(y, b, b);
  }

  // Dividing the wrapped product by a factor gives the other factor back exactly when nothing
  // was lost.
  lemma ProductTest(x: nat, y: nat, m: nat)
    requires 0 < x < m && y < m
    ensures ((x * y) % m) / x == y <==> x * y < m
  {
    var p := x * y;
    if p < m {
      DivModUnique(p, m, 0, p);
      DivModUnique(p, x, y, 0);
    } else {
      FloorTimes(p % m, x);
    }
  }

  lemma FloorTimes(w: nat, x: nat)
    requires x > 0
    ensures (w / x) * x <= w
  {
  }

  // ----- signed checked operations -----

  // lu256Bit
  function Bit(v: U256, pos: nat): bool
    requires pos < 256
  {
    if pos < 64 then BitAnd(Shr64(v.lo, pos), 1) == 1
    else if pos < 128 then BitAnd(Shr64(v.ml, pos - 64), 1) == 1
    else if pos < 192 then BitAnd(Shr64(v.mh, pos - 128), 1) == 1
    else BitAnd(Shr64(v.hi, pos - 192), 1) == 1
  }

  // The sign bit of an N-bit pattern.
  lemma SignBit(v: U256, n: nat)
    requires 1 <= n <= 256 && Canonical(v, n)
    ensures Bit(v, n - 1) <==> Signed(v, n) < 0
    ensures Bit(v, n - 1) <==> Nat(v) >= Pow2(n - 1)
  {
    BitValue(v, n - 1);
    TopBit(v, n);
    hide Nat;
    assert Pow2(1) == 2;
    AndMask(Shr64(Limbs(v)[(n - 1) / 64], (n - 1) % 64), 1);
  }

  // Sum and difference of two patterns modulo 2H: the sign-bit tests.
  lemma SumOverflow(a: nat, b: nat, s: nat, h: int)
    requires h > 0 && a < 2 * h && b < 2 * h && s == (a + b) % (2 * h)
    ensures var x: int, y: int := if a >= h then a - 2 * h else a, if b >= h then b - 2 * h else b;
            var z: int := if s >= h then s - 2 * h else s;
            ((a >= h <==> b >= h) && (s >= h <==> a < h) <==> !(-h <= x + y < h))
            && (-h <= x + y < h ==> z == x + y)
  {
    SumWraps(a, b, 2 * h);
  }

  lemma DifferenceOverflow(a: nat, b: nat, s: nat, h: int)
    requires h > 0 && a < 2 * h && b < 2 * h && s == (a - b) % (2 * h)
    ensures var x: int, y: int := if a >= h then a - 2 * h else a, if b >= h then b - 2 * h else b;
            var z: int := if s >= h then s - 2 * h else s;
            ((a >= h <==> b < h) && (s >= h <==> a < h) <==> !(-h <= x - y < h))
            && (-h <= x - y < h ==> z == x - y)
  {
    if a >= b {
      DivModUnique(a - b, 2 * h, 0, a - b);
    } else {
      DivModUnique(a - b, 2 * h, 0 - 1, a - b + 2 * h);
    }
  }

  // The N-bit signed range.
  predicate InRange(x: int, n: nat)
    requires n >= 1
  {
    0 <= x + Pow2(n - 1) && x < Pow2(n - 1)
  }

  // cryptoSignedCheckedAdd: the pattern of the sum, or an overflow error exactly when the sum
  // leaves the N-bit range.
  method SignedCheckedAdd(a: U256, b: U256, bits: U256) returns (r: Outcome)
    ensures SignedBitWidth(bits) == -1 ==> r == Raised(BAD_WIDTH)
    ensures var n := SignedBitWidth(bits);
            n != -1 && Canonical(a, n) && Canonical(b, n) ==>
              if InRange(Signed(a, n) + Signed(b, n), n)
              then r.Pushed? && Canonical(r.value, n) && Signed(r.value, n) == Signed(a, n) + Signed(b, n)
              else r == Raised(OVERFLOW)
  {
    hide Nat, Add;
    var n := SignedBitWidth(bits);
    if n == -1 {
      return Raised(BAD_WIDTH);
    }
    var result := MaskN(Add(a, b), n);
    Mod256(Nat(a) + Nat(b), n);
    SignBit(result, n);
    if Canonical(a, n) && Canonical(b, n) {
      SignBit(a, n);
      SignBit(b, n);
      SumOverflow(Nat(a), Nat(b), Nat(result), Pow2(n - 1));
    }
    if Bit(a, n - 1) == Bit(b, n - 1) && Bit(result, n - 1) != Bit(a, n - 1) {
      return Raised(OVERFLOW);
    }
    return Pushed(result);
  }

  // cryptoSignedCheckedSub
  method SignedCheckedSub(a: U256, b: U256, bits: U256) returns (r: Outcome)
    ensures SignedBitWidth(bits) == -1 ==> r == Raised(BAD_WIDTH)
    ensures var n := SignedBitWidth(bits);
            n != -1 && Canonical(a, n) && Canonical(b, n) ==>
              if InRange(Signed(a, n) - Signed(b, n), n)
              then r.Pushed? && Canonical(r.value, n) && Signed(r.value, n) == Signed(a, n) - Signed(b, n)
              else r == Raised(OVERFLOW)
  {
    hide Nat, Sub;
    var n := SignedBitWidth(bits);
    if n == -1 {
      return Raised(BAD_WIDTH);
    }
    var result := MaskN(Sub(a, b), n);
    Mod256(Nat(a) - Nat(b), n);
    SignBit(result, n);
    if Canonical(a, n) && Canonical(b, n) {
      SignBit(a, n);
      SignBit(b, n);
      DifferenceOverflow(Nat(a), Nat(b), Nat(result), Pow2(n - 1));
    }
    if Bit(a, n - 1) != Bit(b, n - 1) && Bit(result, n - 1) != Bit(a, n - 1) {
      return Raised(OVERFLOW);
    }
    return Pushed(result);
  }

  // ----- signed multiplication -----

  // The one overflow the division test cannot see: -1 times the least number.
  predicate MissedOverflow(x: int, y: int, n: nat)
    requires n >= 1
  {
    x == -1 && y + Pow2(n - 1) == 0
  }

  // What the division test accepts.
  predicate TestAccepts(x: int, y: int, n: nat)
    requires n >= 1
  {
    InRange(x * y, n) || MissedOverflow(x, y, n)
  }

  // Dividing the wrapped product back.
  lemma WrappedProduct(x: int, y: int, z: int, n: nat)
    requires n >= 1 && InRange(x, n) && InRange(y, n) && InRange(z, n) && x != 0
    requires z % Pow2(n) == (x * y) % Pow2(n)
    ensures TruncDiv(z, x) % Pow2(n) == y % Pow2(n) <==> TestAccepts(x, y, n)
  {
    assert Pow2(n) == 2 * Pow2(n - 1);
    hide Pow2;
    WrappedQuotient(x, y, z, x * y, Pow2(n - 1));
  }

  lemma WrappedQuotient(x: int, y: int, z: int, p: int, h: int)
    requires h > 0 && -h <= x < h && -h <= y < h && -h <= z < h && x != 0
    requires z % (2 * h) == p % (2 * h) && p == x * y
    ensures TruncDiv(z, x) % (2 * h) == y % (2 * h) <==> -h <= p < h || (x == -1 && y == -h)
  {
    hide TruncDiv;
    if -h <= p < h {
      SameResidue(z, p, h);
      ExactQuotient(x, y);
    } else if x == -1 && y == -h {
      MissedQuotient(z, y, h);
    } else if TruncDiv(z, x) % (2 * h) == y % (2 * h) {
      LostProduct(x, y, z, p, h);
    }
  }

  lemma MissedQuotient(z: int, y: int, h: int)
    requires h > 0 && -h <= z < h && y == -h && z % (2 * h) == h % (2 * h)
    ensures TruncDiv(z, 0 - 1) % (2 * h) == y % (2 * h)
  {
    ModShift(0 - h, 1, 2 * h);
    SameResidue(z, 0 - h, h);
    DivModUnique(h, 1, h, 0);
  }

  // A quotient with the residue of y means the product was not wrapped, or y is the least number.
  lemma LostProduct(x: int, y: int, z: int, p: int, h: int)
    requires h > 0 && -h <= x < h && -h <= y < h && -h <= z < h && x != 0
    requires z % (2 * h) == p % (2 * h) && p == x * y
    requires TruncDiv(z, x) % (2 * h) == y % (2 * h)
    ensures -h <= p < h || (x == -1 && y == -h)
  {
    TruncDivMod(z, x);
    QuotientRange(z, x, h);
    var t, r := TruncDiv(z, x), TruncMod(z, x);
    hide TruncDiv, TruncMod;
    if t == h {
      ModShift(t, 0 - 1, 2 * h);
      SameResidue(y, t - 2 * h, h);
      OnlyMinusOne(z, x, h);
    } else {
      SameResidue(y, t, h);
      SameResidueNear(p, z, h);
    }
  }

  lemma SameResidue(x: int, y: int, h: int)
    requires h > 0 && -h <= x < h && -h <= y < h && x % (2 * h) == y % (2 * h)
    ensures x == y
  {
    var k := x / (2 * h) - y / (2 * h);
    assert k * (2 * h) == x - y;
    MulAtLeast(k, 2 * h);
  }

  lemma SameResidueNear(x: int, y: int, h: int)
    requires h > 0 && x % (2 * h) == y % (2 * h) && -2 * h < x - y < 2 * h
    ensures x == y
  {
    var k := x / (2 * h) - y / (2 * h);
    assert k * (2 * h) == x - y;
    MulAtLeast(k, 2 * h);
  }

  lemma ExactQuotient(x: int, y: int)
    requires x != 0
    ensures TruncDiv(x * y, x) == y
  {
    DivModUnique(Abs(x * y), Abs(x), Abs(y), 0) by {
      assert Abs(x * y) == Abs(y) * Abs(x);
    }
    assert x * y < 0 <==> (x < 0 && y > 0) || (x > 0 && y < 0);
  }

  lemma QuotientRange(z: int, x: int, h: int)
    requires x != 0 && -h <= z < h
    ensures -h <= TruncDiv(z, x) <= h
  {
    DivLeDividend(Abs(z), Abs(x));
  }

  lemma OnlyMinusOne(z: int, x: int, h: int)
    requires x != 0 && h > 0 && -h <= z < h && TruncDiv(z, x) == h
    ensures x == -1
  {
    if Abs(x) >= 2 {
      DivModBig(Abs(z), Abs(x), h);
    } else {
      DivModUnique(Abs(z), 1, Abs(z), 0);
    }
  }

  lemma DivModBig(z: nat, x: nat, h: int)
    requires h > 0 && z <= h && x >= 2
    ensures z / x < h
  {
    if z / x >= h {
      FloorTimes(z, x);
      MulMonotone(2, x, z / x);
    }
  }

  // cryptoSignedCheckedMul: up to 64 bits, an overflow error exactly when the product leaves the
  // N-bit range, save for -1 times the least number, which pushes the least number; up to
  // 128 bits when the limb product of the patterns keeps its carries.
  method SignedCheckedMul(a: U256, b: U256, bits: U256) returns (r: Outcome)
    ensures SignedBitWidth(bits) == -1 ==> r == Raised(BAD_WIDTH)
    ensures var n := SignedBitWidth(bits);
            n != -1 && n <= 128 && Canonical(a, n) && Canonical(b, n) && MulKeepsCarries(a, b) ==>
              var x, y := Signed(a, n), Signed(b, n);
              if TestAccepts(x, y, n)
              then r.Pushed? && Canonical(r.value, n) && Signed(r.value, n) % Pow2(n) == (x * y) % Pow2(n)
              else r == Raised(OVERFLOW)
  {
    hide Nat, Mul, MulKeepsCarries, MagnitudesExact, Pow2, TruncDiv, Signed, TestAccepts;
    var n := SignedBitWidth(bits);
    if n == -1 {
      return Raised(BAD_WIDTH);
    }
    var result := MaskN(Mul(a, b), n);
    var aMasked := MaskN(a, n);
    ghost var covered := n <= 128 && Canonical(a, n) && Canonical(b, n) && MulKeepsCarries(a, b);
    if covered {
      MulExactIff(a, b);
      PatternProduct(a, b, result, n);
      MaskKeeps(a, aMasked, n);
    }
    if aMasked != ZERO {
      NonZero(aMasked);
      DivModUnique(Nat(aMasked), Pow2(n), 0, Nat(aMasked));
      var q := SignedDivN(result, aMasked, n);
      var qMasked := MaskN(q, n);
      var bMasked := MaskN(b, n);
      MaskKeeps(q, qMasked, n);
      if covered {
        MaskKeeps(b, bMasked, n);
        NarrowExact(result, a, n);
        ProductVerdict(a, b, result, q, n);
      }
      if qMasked != bMasked {
        return Raised(OVERFLOW);
      }
    } else if covered {
      ZeroNat();
      ZeroOperand(a, b, n);
    }
    return Pushed(result);
  }

  // The test compares the quotient of the wrapped product with the other factor.
  lemma ProductVerdict(a: U256, b: U256, result: U256, q: U256, n: nat)
    requires 1 <= n <= 128 && Canonical(a, n) && Canonical(b, n) && Canonical(result, n) && Signed(a, n) != 0
    requires Signed(result, n) % Pow2(n) == (Signed(a, n) * Signed(b, n)) % Pow2(n)
    requires Nat(q) == TruncDiv(Signed(result, n), Signed(a, n)) % Pow2(n)
    ensures q == b <==> TestAccepts(Signed(a, n), Signed(b, n), n)
  {
    hide Nat, TruncDiv, TestAccepts;
    WrappedProduct(Signed(a, n), Signed(b, n), Signed(result, n), n);
    if Nat(q) == Nat(b) {
      NatInjective(q, b);
    }
  }

  lemma NonZero(v: U256)
    requires v != ZERO
    ensures Nat(v) != 0
  {
    if Nat(v) == 0 {
      ZeroNat();
      NatInjective(v, ZERO);
    }
  }

  lemma ZeroOperand(a: U256, b: U256, n: nat)
    requires n >= 1 && Canonical(a, n) && Canonical(b, n) && Nat(a) == 0
    ensures TestAccepts(Signed(a, n), Signed(b, n), n)
  {
  }

  // The masked product of two patterns is the pattern of the product, modulo 2^N.
  lemma PatternProduct(a: U256, b: U256, result: U256, n: nat)
    requires 1 <= n <= 128 && Canonical(a, n) && Canonical(b, n)
    requires Nat(result) == ((Nat(a) * Nat(b)) % BASE4) % Pow2(n)
    ensures Canonical(result, n)
    ensures Signed(result, n) % Pow2(n) == (Signed(a, n) * Signed(b, n)) % Pow2(n)
  {
    hide Nat;
    Mod256(Nat(a) * Nat(b), n);
    ProductResidue(Signed(a, n), Nat(a), Signed(b, n), Nat(b), Pow2(n));
  }

  lemma ProductResidue(x: int, a: nat, y: int, b: nat, m: nat)
    requires m > 0 && (x == a || x == a - m) && (y == b || y == b - m)
    ensures (x * y) % m == (a * b) % m
  {
    if x == a {
      if y == b - m {
        assert a * (b - m) == a * b + (0 - a) * m;
        ModShift(a * b, 0 - a, m);
      }
    } else if y == b {
      assert (a - m) * b == a * b + (0 - b) * m;
      ModShift(a * b, 0 - b, m);
    } else {
      assert (a - m) * (b - m) == a * b + (m - a - b) * m;
      ModShift(a * b, m - a - b, m);
    }
  }

  // Up to 64 bits the limb product keeps its carries.
  lemma NarrowKeepsCarries(a: U256, b: U256, n: nat)
    requires n <= 64 && Canonical(b, n)
    ensures MulKeepsCarries(a, b)
  {
    Pow2Limbs();
    Pow2Monotone(n, 64);
    hide Pow2, Mul;
    assert b.ml == 0 && b.mh == 0 && b.hi == 0;
    MulByWord(a, b);
  }

  // -1 times the least number, at every width up to 64 bits: the product leaves the range, the limb product
  // is exact, and the test accepts it.
  lemma MissedOverflowPushed(n: nat) returns (minusOne: U256, least: U256)
    requires 1 <= n <= 64
    ensures Canonical(minusOne, n) && Signed(minusOne, n) == -1
    ensures Canonical(least, n) && Signed(least, n) + Pow2(n - 1) == 0
    ensures MulKeepsCarries(minusOne, least)
    ensures TestAccepts(Signed(minusOne, n), Signed(least, n), n)
    ensures !InRange(Signed(minusOne, n) * Signed(least, n), n)
  {
    Pow2Limbs();
    Pow2Monotone(n, 64);
    assert Pow2(n) == 2 * Pow2(n - 1);
    hide Pow2;
    minusOne, least := FromNat(Pow2(n) - 1), FromNat(Pow2(n - 1));
    hide Nat;
    NarrowKeepsCarries(minusOne, least, n);
  }

  // ----- signed division and remainder as host calls -----

  // cryptoSignedDiv
  method SignedDiv(a: U256, b: U256, bits: U256) returns (r: Outcome)
    ensures SignedBitWidth(bits) == -1 ==> r == Raised(BAD_WIDTH)
    ensures var n := SignedBitWidth(bits);
            n != -1 && Canonical(a, n) && Canonical(b, n) ==>
              var x, y := Signed(a, n), Signed(b, n);
              if y == 0 || (x + Pow2(n - 1) == 0 && y == -1) then r.Raised?
              else r.Pushed? && Canonical(r.value, n)
                   && (MagnitudesExact(a, b, n) ==> Signed(r.value, n) == TruncDiv(x, y))
  {
    hide Nat, Pow2, Or, MagnitudesExact, TruncDiv;
    var n := SignedBitWidth(bits);
    if n == -1 {
      return Raised(BAD_WIDTH);
    }
    var aMasked := MaskN(a, n);
    var bMasked := MaskN(b, n);
    ghost var canonical := Canonical(a, n) && Canonical(b, n);
    if canonical {
      MaskKeeps(a, aMasked, n);
      MaskKeeps(b, bMasked, n);
      ZeroDivisor(b, n);
    }
    if bMasked == ZERO {
      ZeroNat();
      return Raised("signed integer division by zero");
    }
    NonZero(bMasked);
    var minSigned := MaskN(ZERO, n);
    ZeroPattern(minSigned, n);
    var signBit := Shl(ONE, n - 1);
    minSigned := Or(minSigned, signBit);
    OrWithZero(signBit);
    var negOne := MaskN(ALL_ONES, n);
    LeastPattern(signBit, n);
    AllOnesMod(n);
    if canonical {
      ExtremePatterns(a, b, signBit, negOne, n);
    }
    if aMasked == minSigned && bMasked == negOne {
      return Raised("signed integer overflow: min_int / -1");
    }
    var q := SignedDivN(a, b, n);
    if canonical && MagnitudesExact(a, b, n) {
      QuotientInRange(Signed(a, n), Signed(b, n), n);
      PatternOf(q, TruncDiv(Signed(a, n), Signed(b, n)), n);
    }
    return Pushed(q);
  }

  lemma ZeroPattern(v: U256, n: nat)
    requires Nat(v) == Nat(ZERO) % Pow2(n)
    ensures v == ZERO
  {
    hide Pow2;
    ZeroNat();
    DivModUnique(0, Pow2(n), 0, 0);
    NatInjective(v, ZERO);
  }

  lemma OrWithZero(v: U256)
    ensures Or(ZERO, v) == v
  {
    OrZero(v.lo);
    OrZero(v.ml);
    OrZero(v.mh);
    OrZero(v.hi);
    OrCommutes(0, v.lo);
    OrCommutes(0, v.ml);
    OrCommutes(0, v.mh);
    OrCommutes(0, v.hi);
  }

  // 1 << (n - 1)
  lemma LeastPattern(v: U256, n: nat)
    requires 1 <= n <= 256 && Nat(v) == (Nat(ONE) * Pow2(n - 1)) % BASE4
    ensures Nat(v) == Pow2(n - 1)
  {
    assert Nat(ONE) == 1;
    hide Nat, Pow2;
    Pow2Limbs();
    Pow2Monotone(n - 1, 256);
    var p := Pow2(n - 1);
    assert Nat(v) == p % BASE4;
    DivModUnique(p, BASE4, 0, p);
  }

  // The patterns of the least number and of -1.
  lemma ExtremePatterns(a: U256, b: U256, least: U256, negOne: U256, n: nat)
    requires 1 <= n <= 256 && Canonical(a, n) && Canonical(b, n)
    requires Nat(least) == Pow2(n - 1) && Nat(negOne) == Pow2(n) - 1
    ensures a == least <==> Signed(a, n) + Pow2(n - 1) == 0
    ensures b == negOne <==> Signed(b, n) == -1
  {
    hide Nat;
    if Nat(a) == Nat(least) {
      NatInjective(a, least);
    }
    if Nat(b) == Nat(negOne) {
      NatInjective(b, negOne);
    }
  }

  lemma QuotientInRange(x: int, y: int, n: nat)
    requires n >= 1 && InRange(x, n) && y != 0 && !(x + Pow2(n - 1) == 0 && y == -1)
    ensures InRange(TruncDiv(x, y), n)
  {
    QuotientRange(x, y, Pow2(n - 1));
    if TruncDiv(x, y) == Pow2(n - 1) {
      OnlyMinusOne(x, y, Pow2(n - 1));
      DivModUnique(Abs(x), 1, Abs(x), 0);
    }
  }

  // A pattern stands for the number in range it is congruent to.
  lemma PatternOf(v: U256, x: int, n: nat)
    requires n >= 1 && Canonical(v, n) && InRange(x, n) && Nat(v) == x % Pow2(n)
    ensures Signed(v, n) == x
  {
    hide Nat;
    SameResidue(Signed(v, n), x, Pow2(n - 1));
  }

  // cryptoSignedMod
  method SignedMod(a: U256, b: U256, bits: U256) returns (r: Outcome)
    ensures SignedBitWidth(bits) == -1 ==> r == Raised(BAD_WIDTH)
    ensures var n := SignedBitWidth(bits);
            n != -1 && Canonical(a, n) && Canonical(b, n) ==>
              var x, y := Signed(a, n), Signed(b, n);
              if y == 0 then r.Raised?
              else r.Pushed? && Canonical(r.value, n)
                   && (MagnitudesExact(a, b, n) ==> Signed(r.value, n) == TruncMod(x, y))
  {
    hide Nat, Pow2, MagnitudesExact, TruncMod;
    var n := SignedBitWidth(bits);
    if n == -1 {
      return Raised(BAD_WIDTH);
    }
    var bMasked := MaskN(b, n);
    if Canonical(b, n) {
      MaskKeeps(b, bMasked, n);
      ZeroDivisor(b, n);
    }
    if bMasked == ZERO {
      ZeroNat();
      return Raised("signed integer modulo by zero");
    }
    NonZero(bMasked);
    var m := SignedModN(a, b, n);
    if Canonical(a, n) && Canonical(b, n) && MagnitudesExact(a, b, n) {
      RemainderInRange(Signed(a, n), Signed(b, n), n);
      PatternOf(m, TruncMod(Signed(a, n), Signed(b, n)), n);
    }
    return Pushed(m);
  }

  lemma RemainderInRange(x: int, y: int, n: nat)
    requires n >= 1 && InRange(x, n) && InRange(y, n) && y != 0
    ensures InRange(TruncMod(x, y), n)
  {
    TruncDivMod(x, y);
  }

  // ----- arithmetic shift as a host call -----

  // lu256ShiftAmount
  function ShiftAmount(v: U256): (s: nat)
    ensures s == if Nat(v) < 256 then Nat(v) else 256
  {
    if v.hi != 0 || v.mh != 0 || v.ml != 0 || v.lo >= 256 then 256 else v.lo
  }

  // cryptoSignedSar: the floor of the quotient by 2^shift, exactly when the number is not
  // negative, or the shift covers the width, or width and shift together stay within 256.
  method SignedSar(a: U256, shiftV: U256, bits: U256) returns (r: Outcome)
    ensures SignedBitWidth(bits) == -1 ==> r == Raised(BAD_WIDTH)
    ensures var n := SignedBitWidth(bits);
            n != -1 && Canonical(a, n) ==>
              r.Pushed?
              && (Nat(r.value) == (Signed(a, n) / Pow2(Nat(shiftV))) % Pow2(n)
                  <==> Signed(a, n) >= 0 || Nat(shiftV) >= n || Nat(shiftV) + n <= 256)
  {
    hide Nat;
    var n := SignedBitWidth(bits);
    if n == -1 {
      return Raised(BAD_WIDTH);
    }
    var shift := ShiftAmount(shiftV);
    var v := SarN(a, shift, n);
    if Canonical(a, n) && Nat(shiftV) >= 256 {
      ShiftedToSign(Signed(a, n), n, 256);
      ShiftedToSign(Signed(a, n), n, Nat(shiftV));
    }
    return Pushed(v);
  }

  // A shift by at least the width leaves the sign alone.
  lemma ShiftedToSign(x: int, n: nat, s: nat)
    requires n >= 1 && InRange(x, n) && s >= n
    ensures x / Pow2(s) == if x < 0 then -1 else 0
  {
    Pow2Monotone(n - 1, s);
    if x < 0 {
      DivModUnique(x, Pow2(s), 0 - 1, x + Pow2(s));
    } else {
      DivModUnique(x, Pow2(s), 0, x);
    }
  }
}
