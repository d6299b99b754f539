/**
 The VM's number type: four 64-bit limbs, least significant first, with the straight-line
 carry-chain operations on them.  `Nat` is the number a value stands for.
 */
module Uint256 {
  import opened Words

  datatype U256 = U256(lo: Word, ml: Word, mh: Word, hi: Word)

  const BASE2 := 0x1_0000_0000_0000_0000_0000_0000_0000_0000
  const BASE3 := 0x1_0000_0000_0000_0000_0000_0000_0000_0000_0000_0000_0000_0000
  const BASE4 := 0x1_0000_0000_0000_0000_0000_0000_0000_0000_0000_0000_0000_0000_0000_0000_0000_0000

  const ZERO := U256(0, 0, 0, 0)
  const ONE := U256(1, 0, 0, 0)
  const ALL_ONES := U256(MAX_WORD, MAX_WORD, MAX_WORD, MAX_WORD)

  function Nat(v: U256): (n: nat)
    ensures n < BASE4
  {
    v.lo + BASE * v.ml + BASE2 * v.mh + BASE3 * v.hi
  }

  // The value with a given number below 2^256.
  function FromNat(n: nat): (v: U256)
    requires n < BASE4
    ensures Nat(v) == n
  {
    var n1, n2, n3 := n / BASE, n / BASE / BASE, n / BASE / BASE / BASE;
    U256(n % BASE, n1 % BASE, n2 % BASE, n3)
  }

  lemma LowLimb(lo: Word, rest: nat)
    ensures (lo + BASE * rest) % BASE == lo && (lo + BASE * rest) / BASE == rest
  {
    DivModUnique(lo + BASE * rest, BASE, rest, lo);
  }

  lemma NatInjective(a: U256, b: U256)
    requires Nat(a) == Nat(b)
    ensures a == b
  {
    LowLimb(a.lo, a.ml + BASE * (a.mh + BASE * a.hi));
    LowLimb(b.lo, b.ml + BASE * (b.mh + BASE * b.hi));
    LowLimb(a.ml, a.mh + BASE * a.hi);
    LowLimb(b.ml, b.mh + BASE * b.hi);
    LowLimb(a.mh, a.hi);
    LowLimb(b.mh, b.hi);
  }

  lemma Pow2Limbs()
    ensures Pow2(64) == BASE && Pow2(128) == BASE2 && Pow2(192) == BASE3 && Pow2(256) == BASE4
  {
    Pow2Word();
    Pow2Add(64, 64);
    Pow2Add(128, 64);
    Pow2Add(128, 128);
  }

  // ----- comparison -----

  function Cmp(a: U256, b: U256): (r: int)
    ensures r == if Nat(a) > Nat(b) then 1 else if Nat(a) < Nat(b) then -1 else 0
  {
    if a.hi != b.hi then (if a.hi > b.hi then 1 else -1)
    else if a.mh != b.mh then (if a.mh > b.mh then 1 else -1)
    else if a.ml != b.ml then (if a.ml > b.ml then 1 else -1)
    else if a.lo != b.lo then (if a.lo > b.lo then 1 else -1)
    else 0
  }

  // ----- addition and subtraction -----

  function Add(a: U256, b: U256): (r: U256)
    ensures Nat(r) == (Nat(a) + Nat(b)) % BASE4
  {
    var (lo, c0) := Add64(a.lo, b.lo, 0);
    var (ml, c1) := Add64(a.ml, b.ml, c0);
    var (mh, c2) := Add64(a.mh, b.mh, c1);
    var (hi, c3) := Add64(a.hi, b.hi, c2);
    var r := U256(lo, ml, mh, hi);
    DivModUnique(Nat(a) + Nat(b), BASE4, c3, Nat(r));
    r
  }

  function Sub(a: U256, b: U256): (r: U256)
    ensures Nat(r) == (Nat(a) - Nat(b)) % BASE4
  {
    var (lo, b0) := Sub64(a.lo, b.lo, 0);
    var (ml, b1) := Sub64(a.ml, b.ml, b0);
    var (mh, b2) := Sub64(a.mh, b.mh, b1);
    var (hi, b3) := Sub64(a.hi, b.hi, b2);
    var r := U256(lo, ml, mh, hi);
    DivModUnique(Nat(a) - Nat(b), BASE4, 0 - b3, Nat(r));
    r
  }

  // ----- multiplication -----

  // A double word.
  datatype Double = Double(hi: Word, lo: Word)

  function Wide(p: Double): nat { p.hi * BASE + p.lo }

  // The limb products lu256Mul forms; those of column 3 contribute their low words only.
  datatype Partial = Partial(p00: Double, p01: Double, p10: Double, p02: Double, p11: Double, p20: Double,
                             p03: Double, p12: Double, p21: Double, p30: Double)

  function MulWords(x: Word, y: Word): (p: Double)
    ensures Wide(p) == x * y && p.hi <= BASE - 2
  {
    var (hi, lo) := Mul64(x, y);
    Double(hi, lo)
  }

  function PartialProducts(a: U256, b: U256): Partial
  {
    Partial(MulWords(a.lo, b.lo), MulWords(a.lo, b.ml), MulWords(a.ml, b.lo),
            MulWords(a.lo, b.mh), MulWords(a.ml, b.ml), MulWords(a.mh, b.lo),
            MulWords(a.lo, b.hi), MulWords(a.ml, b.mh), MulWords(a.mh, b.ml), MulWords(a.hi, b.lo))
  }

  // The sums and carries of columns 1 and 2.
  datatype Chain = Chain(s1: Word, c1: Word, r1: Word, c2: Word,
                         s2: Word, d1: Word, t2: Word, d2: Word, r2: Word, d3: Word)

  // The carry chains over the limb products.  The carry out of an addition inside a column is
  // added back into that same column, and the word that carries column 1 into column 2 wraps.
  function Carry(p: Partial): Chain
  {
    var (s1, c1) := Add64(p.p00.hi, p.p01.lo, 0);
    var (r1, c2) := Add64(s1, p.p10.lo, c1);
    var carry1 := (p.p01.hi + p.p10.hi + c2) % BASE;
    var (s2, d1) := Add64(carry1, p.p02.lo, 0);
    var (t2, d2) := Add64(s2, p.p11.lo, d1);
    var (r2, d3) := Add64(t2, p.p20.lo, d2);
    Chain(s1, c1, r1, c2, s2, d1, t2, d2, r2, d3)
  }

  ghost predicate CarryEquations(p: Partial, c: Chain)
  {
    && c.c1 <= 1 && c.c2 <= 1 && c.d1 <= 1 && c.d2 <= 1 && c.d3 <= 1
    && c.s1 + BASE * c.c1 == p.p00.hi + p.p01.lo
    && c.r1 + BASE * c.c2 == c.s1 + p.p10.lo + c.c1
    && c.s2 + BASE * c.d1 == (p.p01.hi + p.p10.hi + c.c2) % BASE + p.p02.lo
    && c.t2 + BASE * c.d2 == c.s2 + p.p11.lo + c.d1
    && c.r2 + BASE * c.d3 == c.t2 + p.p20.lo + c.d2
  }

  lemma CarryHolds(p: Partial)
    ensures CarryEquations(p, Carry(p))
  {
  }

  function SumColumns(p: Partial, c: Chain): U256
  {
    var carry2 := (p.p02.hi + p.p11.hi + p.p20.hi + c.d3) % BASE;
    U256(p.p00.lo, c.r1, c.r2, (carry2 + p.p03.lo + p.p12.lo + p.p21.lo + p.p30.lo) % BASE)
  }

  // lu256Mul
  function Mul(a: U256, b: U256): U256 
  {
    var p := PartialProducts(a, b);
    SumColumns(p, Carry(p))
  }

  // No carry is lost: the additions whose carry would go astray stay below BASE.
  predicate KeepsCarries(p: Partial)
  {
    && p.p00.hi + p.p01.lo < BASE
    && p.p01.hi + p.p10.hi + (p.p00.hi + p.p01.lo + p.p10.lo) / BASE + p.p02.lo + p.p11.lo < BASE
  }

  predicate MulKeepsCarries(a: U256, b: U256) { KeepsCarries(PartialProducts(a, b)) }

  function ColumnSum(p: Partial): nat
  {
    Wide(p.p00) + BASE * (Wide(p.p01) + Wide(p.p10)) + BASE2 * (Wide(p.p02) + Wide(p.p11) + Wide(p.p20))
    + BASE3 * (Wide(p.p03) + Wide(p.p12) + Wide(p.p21) + Wide(p.p30))
  }

  lemma Distribute(x: int, y: int, z: int)
    ensures x * (y + BASE * z) == x * y + BASE * (x * z)
  {
  }

  // One limb times a value, by limbs.
  lemma LimbTimes(x: Word, b: U256)
    ensures x * Nat(b) == x * b.lo + BASE * (x * b.ml) + BASE2 * (x * b.mh) + BASE3 * (x * b.hi)
  {
    Distribute(x, b.mh, b.hi);
    Distribute(x, b.ml, b.mh + BASE * b.hi);
    Distribute(x, b.lo, b.ml + BASE * (b.mh + BASE * b.hi));
  }

  // Value times value, by the limbs of the first.
  lemma TimesByLimbs(a: U256, n: nat)
    ensures Nat(a) * n == a.lo * n + BASE * (a.ml * n) + BASE2 * (a.mh * n) + BASE3 * (a.hi * n)
  {
    Distribute(n, a.mh, a.hi);
    Distribute(n, a.ml, a.mh + BASE * a.hi);
    Distribute(n, a.lo, a.ml + BASE * (a.mh + BASE * a.hi));
  }

  // The limb products of the first four columns are the product, up to multiples of 2^256.
  lemma PartialProductsSum(a: U256, b: U256) returns (p: Partial, rest: int)
    ensures p == PartialProducts(a, b)
    ensures p.p01.hi <= BASE - 2 && p.p10.hi <= BASE - 2
    ensures Nat(a) * Nat(b) == ColumnSum(p) + BASE4 * rest
  {
    p := PartialProducts(a, b);
    LimbTimes(a.lo, b);
    LimbTimes(a.ml, b);
    LimbTimes(a.mh, b);
    LimbTimes(a.hi, b);
    TimesByLimbs(a, Nat(b));
    rest := a.ml * b.hi + a.mh * b.mh + BASE * (a.mh * b.hi)
            + a.hi * b.ml + BASE * (a.hi * b.mh) + BASE2 * (a.hi * b.hi);
  }

  // Column 1: two additions, the carry of the first folded into the second.
  lemma Column1ExactIff(x: Word, y: Word, z: Word, s: Word, c: Word, t: Word, d: Word)
    requires c <= 1 && d <= 1 && s + BASE * c == x + y && t + BASE * d == s + z + c
    ensures t == (x + y + z) % BASE <==> x + y < BASE
    ensures x + y < BASE ==> d == (x + y + z) / BASE
  {
    DivModUnique(x + y + z + c, BASE, c + d, t);
  }

  // Columns 2 and 3: `column2` is what the two lower columns hand over.
  lemma Column23ExactIff(column2: nat, x: Word, y: Word, z: Word, sum: nat, high: nat,
                         s: Word, d1: Word, t: Word, d2: Word, r: Word, d3: Word)
    requires column2 < 2 * BASE && d1 <= 1 && d2 <= 1 && d3 <= 1
    requires s + BASE * d1 == column2 % BASE + x
    requires t + BASE * d2 == s + y + d1
    requires r + BASE * d3 == t + z + d2
    requires sum == column2 + x + y + z
    ensures r == sum % BASE && (high + d3) % BASE == (high + sum / BASE) % BASE
            <==> column2 + x + y < BASE
  {
    var w := column2 / BASE;
    assert sum == (w + d1 + d2 + d3) * BASE + (r - d1 - d2);
    if d1 + d2 == 0 {
      DivModUnique(sum, BASE, w + d3, r);
      WrapsOnce(high + d3, w);
    }
  }

  lemma WrapsOnce(x: int, w: int)
    requires 0 <= w <= 1
    ensures (x + w) % BASE == x % BASE <==> w == 0
  {
  }

  lemma ModInside(x: int, y: int)
    ensures (x % BASE + y) % BASE == (x + y) % BASE
  {
  }

  // The limb products added up with every carry where it belongs.
  function ExactColumns(p: Partial): U256
  {
    var x1 := p.p00.hi + p.p01.lo + p.p10.lo;
    var x2 := p.p01.hi + p.p10.hi + x1 / BASE + p.p02.lo + p.p11.lo + p.p20.lo;
    var x3 := p.p02.hi + p.p11.hi + p.p20.hi + p.p03.lo + p.p12.lo + p.p21.lo + p.p30.lo + x2 / BASE;
    U256(p.p00.lo, x1 % BASE, x2 % BASE, x3 % BASE)
  }

  // Reduces a sum of columns to digits.
  lemma DigitsOfColumns(x0: Word, x1: nat, x2: nat, x3: nat, rest: int)
    ensures var y2 := x2 + x1 / BASE;
            var y3 := x3 + y2 / BASE;
            (x0 + BASE * x1 + BASE2 * x2 + BASE3 * x3 + BASE4 * rest) % BASE4
            == Nat(U256(x0, x1 % BASE, y2 % BASE, y3 % BASE))
  {
    var y2 := x2 + x1 / BASE;
    var y3 := x3 + y2 / BASE;
    var digits := U256(x0, x1 % BASE, y2 % BASE, y3 % BASE);
    DivModUnique(x0 + BASE * x1 + BASE2 * x2 + BASE3 * x3 + BASE4 * rest, BASE4, y3 / BASE + rest, Nat(digits));
  }

  lemma ExactColumnsValue(p: Partial, rest: int)
    ensures Nat(ExactColumns(p)) == (ColumnSum(p) + BASE4 * rest) % BASE4
  {
    DigitsOfColumns(p.p00.lo, p.p00.hi + p.p01.lo + p.p10.lo, p.p01.hi + p.p10.hi + p.p02.lo + p.p11.lo + p.p20.lo,
                    HighWords(p), p.p03.hi + p.p12.hi + p.p21.hi + p.p30.hi + rest);
  }

  // What columns 2 and 3 hand to the top limb besides carries.
  function HighWords(p: Partial): nat
  {
    p.p02.hi + p.p11.hi + p.p20.hi + p.p03.lo + p.p12.lo + p.p21.lo + p.p30.lo
  }

  lemma SumColumnsExactIff(p: Partial, c: Chain)
    requires p.p01.hi <= BASE - 2 && p.p10.hi <= BASE - 2
    requires CarryEquations(p, c)
    ensures SumColumns(p, c) == ExactColumns(p) <==> KeepsCarries(p)
  {
    Column1ExactIff(p.p00.hi, p.p01.lo, p.p10.lo, c.s1, c.c1, c.r1, c.c2);
    ModInside(p.p02.hi + p.p11.hi + p.p20.hi + c.d3, p.p03.lo + p.p12.lo + p.p21.lo + p.p30.lo);
    if p.p00.hi + p.p01.lo < BASE {
      var x2 := p.p01.hi + p.p10.hi + c.c2 + p.p02.lo + p.p11.lo + p.p20.lo;
      Column23ExactIff(p.p01.hi + p.p10.hi + c.c2, p.p02.lo, p.p11.lo, p.p20.lo, x2, HighWords(p),
                       c.s2, c.d1, c.t2, c.d2, c.r2, c.d3);
    }
  }

  lemma ColumnsExactIff(p: Partial, c: Chain, n: nat, rest: int)
    requires n == ColumnSum(p) + BASE4 * rest
    requires p.p01.hi <= BASE - 2 && p.p10.hi <= BASE - 2
    requires CarryEquations(p, c)
    ensures KeepsCarries(p) <==> Nat(SumColumns(p, c)) == n % BASE4
  {
    ExactColumnsValue(p, rest);
    SumColumnsExactIff(p, c);
    if Nat(SumColumns(p, c)) == Nat(ExactColumns(p)) {
      NatInjective(SumColumns(p, c), ExactColumns(p));
    }
  }

  lemma MulColumnsExactIff(p: Partial, n: nat, rest: int)
    requires n == ColumnSum(p) + BASE4 * rest
    requires p.p01.hi <= BASE - 2 && p.p10.hi <= BASE - 2
    ensures KeepsCarries(p) <==> Nat(SumColumns(p, Carry(p))) == n % BASE4
  {
    CarryHolds(p);
    ColumnsExactIff(p, Carry(p), n, rest);
  }

  // lu256Mul is the product modulo 2^256 exactly when no carry is lost.
  lemma MulExactIff(a: U256, b: U256)
    ensures MulKeepsCarries(a, b) <==> Nat(Mul(a, b)) == (Nat(a) * Nat(b)) % BASE4
  {
    hide Nat;
    var p, rest := PartialProductsSum(a, b);
    var n := Nat(a) * Nat(b);
    assert KeepsCarries(p) <==> Nat(SumColumns(p, Carry(p))) == n % BASE4 by {
      MulColumnsExactIff(p, n, rest);
    }
  }

  // A one-limb second operand, as in the parser, loses no carry.
  lemma MulByWord(a: U256, b: U256)
    requires b.ml == b.mh == b.hi == 0
    ensures MulKeepsCarries(a, b)
    ensures Nat(Mul(a, b)) == (Nat(a) * Nat(b)) % BASE4
  {
    MulExactIff(a, b);
  }

  // Multiplication does not commute: one order of these operands keeps its carries, the other not.
  lemma MulLosesCarry()
    ensures var a, b := U256(MAX_WORD, 0, 0, 0), U256(MAX_WORD, 2, 0, 0);
            Nat(Mul(b, a)) == (Nat(a) * Nat(b)) % BASE4 != Nat(Mul(a, b))
  {
    var a, b := U256(MAX_WORD, 0, 0, 0), U256(MAX_WORD, 2, 0, 0);
    MulByWord(b, a);
    MulExactIff(a, b);
    DivModUnique(MAX_WORD * MAX_WORD, BASE, BASE - 2, 1);
    DivModUnique(MAX_WORD * 2, BASE, 1, BASE - 2);
    assert Nat(b) * Nat(a) == Nat(a) * Nat(b);
  }
}
