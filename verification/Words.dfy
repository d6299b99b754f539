/**
 64-bit machine words as the Go runtime's `uint64` and the `math/bits` intrinsics see them.
 Words are mathematical integers below BASE; every wrap-around is written out.
 */
module Words {

  const BASE := 0x1_0000_0000_0000_0000

  type Word = x: int | 0 <= x < BASE

  const MAX_WORD: Word := BASE - 1

  // ----- arithmetic facts used throughout -----

  function Max(x: int, y: int): (m: int)
    ensures m >= x && m >= y && (m == x || m == y)
  {
    if x >= y then x else y
  }

  lemma MulAtLeast(k: int, m: int)
    requires m > 0
    ensures k >= 1 ==> k * m >= m
    ensures k <= -1 ==> k * m <= -m
    ensures k >= 0 ==> k * m >= 0
  {
  }

  lemma MulMonotone(a: int, b: int, m: int)
    requires 0 <= m && a <= b
    ensures a * m <= b * m
  {
  }

  lemma ScaleLess(x: nat, y: nat, p: nat)
    requires x < y && p >= 1
    ensures x * p < p * y
  {
    MulMonotone(x + 1, y, p);
  }

  lemma MulAssoc(a: int, b: int, c: int)
    ensures (a * b) * c == a * (b * c)
  {
  }

  // A quotient and a remainder in range are the quotient and the remainder.
  lemma DivModUnique(x: int, m: int, q: int, r: int)
    requires 0 <= r < m && x == q * m + r
    ensures x / m == q && x % m == r
  {
    var k := q - x / m;
    assert k * m == x % m - r;
    MulAtLeast(k, m);
  }

  lemma DivBound(x: nat, m: nat, n: nat)
    requires m > 0 && x < n * m
    ensures x / m < n
  {
    if x / m >= n {
      MulMonotone(n, x / m, m);
    }
  }

  lemma DivDiv(n: nat, p: nat, q: nat)
    requires p >= 1 && q >= 1
    ensures p * q >= 1 && n / p / q == n / (p * q)
  {
    var a, r := n / p, n % p;
    var b, t := a / q, a % q;
    MulMonotone(1, p, q);
    assert n == (b * q + t) * p + r == b * (p * q) + (t * p + r);
    MulMonotone(t + 1, q, p);
    MulMonotone(0, t, p);
    DivModUnique(n, p * q, b, t * p + r);
  }

  lemma ModAtMost(x: nat, m: nat)
    requires m > 0
    ensures x % m <= x
  {
    if x < m {
      DivModUnique(x, m, 0, x);
    }
  }

  lemma MultipleMod(k: int, m: int)
    requires m > 0
    ensures (k * m) % m == 0 && (k * m) / m == k
  {
    DivModUnique(k * m, m, k, 0);
  }

  // ----- powers of two -----

  function Pow2(n: nat): (p: nat)
    ensures p >= 1
  {
    if n == 0 then 1 else 2 * Pow2(n - 1)
  }

  lemma {:induction false} Pow2Add(m: nat, n: nat)
    ensures Pow2(m + n) == Pow2(m) * Pow2(n)
  {
    if m > 0 {
      Pow2Add(m - 1, n);
      MulAssoc(2, Pow2(m - 1), Pow2(n));
    }
  }

  lemma {:induction false} Pow2Monotone(m: nat, n: nat)
    requires m <= n
    ensures Pow2(m) <= Pow2(n)
    ensures m < n ==> 2 * Pow2(m) <= Pow2(n)
  {
    if m < n {
      Pow2Monotone(m, n - 1);
    }
  }

  lemma Pow2Word()
    ensures Pow2(32) == 0x1_0000_0000
    ensures Pow2(64) == BASE
    ensures Pow2(63) == BASE / 2
  {
    assert Pow2(8) == 256;
    Pow2Add(8, 8);
    Pow2Add(16, 16);
    Pow2Add(32, 32);
    assert Pow2(64) == 2 * Pow2(63);
  }

  // ----- math/bits -----

  // bits.Add64
  function Add64(a: Word, b: Word, carry: Word): (r: (Word, Word))
    requires carry <= 1
    ensures r.1 <= 1 && r.0 + BASE * r.1 == a + b + carry
  {
    var s := a + b + carry;
    if s < BASE then (s, 0) else (s - BASE, 1)
  }

  // bits.Sub64
  function Sub64(a: Word, b: Word, borrow: Word): (r: (Word, Word))
    requires borrow <= 1
    ensures r.1 <= 1 && r.0 - BASE * r.1 == a - b - borrow
  {
    var d := a - b - borrow;
    if d >= 0 then (d, 0) else (d + BASE, 1)
  }

  // bits.Mul64: (high word, low word)
  function Mul64(a: Word, b: Word): (r: (Word, Word))
    ensures r.0 * BASE + r.1 == a * b
    ensures r.0 <= BASE - 2
  {
    MulMonotone(a, BASE - 1, b);
    MulMonotone(0, a, b);
    ((a * b) / BASE, (a * b) % BASE)
  }

  // bits.Div64: the 128-bit dividend hi:lo divided by y; the intrinsic panics unless hi < y
  function Div64(hi: Word, lo: Word, y: Word): (r: (Word, Word))
    requires hi < y
    ensures hi * BASE + lo == r.0 * y + r.1
    ensures r.1 < y
  {
    var n := hi * BASE + lo;
    MulMonotone(hi + 1, y, BASE);
    DivBound(n, y, BASE);
    (n / y, n % y)
  }

  // bits.LeadingZeros64
  function LeadingZeros64(x: Word): (n: nat)
    ensures n <= 64
    ensures x > 0 ==> n < 64 && BASE / 2 <= x * Pow2(n) < BASE
  {
    Pow2Word();
    if x == 0 then 64 else TopBitShift(x)
  }

  function TopBitShift(x: Word): (n: nat)
    requires x > 0
    ensures n < 64 && BASE / 2 <= x * Pow2(n) < BASE
    decreases BASE - x
  {
    if x >= BASE / 2 then
      0
    else
      var n := TopBitShift(2 * x);
      assert x * Pow2(n + 1) == (2 * x) * Pow2(n);
      Pow2Word();
      (if n + 1 >= 64 then Pow2Monotone(64, n + 1); MulMonotone(1, x, Pow2(n + 1)); n + 1 else n + 1)
  }

  // ----- shifts and bitwise operators on words -----

  // x << s for any shift count
  function Shl64(x: Word, s: nat): Word { (x * Pow2(s)) % BASE }

  // x >> s for any shift count
  function Shr64(x: Word, s: nat): (r: Word)
    ensures r <= x
  {
    DivLeDividend(x, Pow2(s));
    x / Pow2(s)
  }

  lemma DivLeDividend(x: nat, m: nat)
    requires m >= 1
    ensures 0 <= x / m <= x
  {
    MulMonotone(1, m, x / m) by { assert x / m >= 0; }
  }

  function BitOr(a: nat, b: nat): nat
    decreases a + b
  {
    if a == 0 && b == 0 then 0
    else 2 * BitOr(a / 2, b / 2) + (if a % 2 == 1 || b % 2 == 1 then 1 else 0)
  }

  function BitAnd(a: nat, b: nat): nat
    decreases a + b
  {
    if a == 0 && b == 0 then 0
    else 2 * BitAnd(a / 2, b / 2) + (if a % 2 == 1 && b % 2 == 1 then 1 else 0)
  }

  // Setting bits below a multiple of 2^k is addition.
  lemma {:induction false} OrDisjoint(a: nat, b: nat, k: nat)
    requires a % Pow2(k) == 0 && b < Pow2(k)
    ensures BitOr(a, b) == a + b
    decreases k
  {
    if k == 0 {
      OrZero(a);
    } else {
      var q := a / Pow2(k);
      assert a == q * Pow2(k) == 2 * (q * Pow2(k - 1));
      DivModUnique(a / 2, Pow2(k - 1), q, 0);
      OrDisjoint(a / 2, b / 2, k - 1);
    }
  }

  lemma {:induction false} OrZero(a: nat)
    ensures BitOr(a, 0) == a
  {
    if a > 0 {
      OrZero(a / 2);
    }
  }

  lemma {:induction false} OrBound(a: nat, b: nat, k: nat)
    requires a < Pow2(k) && b < Pow2(k)
    ensures BitOr(a, b) < Pow2(k)
    decreases k
  {
    if k > 0 {
      OrBound(a / 2, b / 2, k - 1);
    }
  }

  // x | y on words
  function OrWord(x: Word, y: Word): Word
  {
    Pow2Word();
    OrBound(x, y, 64);
    BitOr(x, y)
  }

  lemma HalfMod(a: nat, k: nat)
    requires k > 0
    ensures a % Pow2(k) == 2 * ((a / 2) % Pow2(k - 1)) + a % 2
  {
    var p := Pow2(k - 1);
    var q, r := (a / 2) / p, (a / 2) % p;
    MulAssoc(q, 2, p);
    DivModUnique(a, 2 * p, q, 2 * r + a % 2);
  }

  lemma {:induction false} OrCommutes(a: nat, b: nat)
    ensures BitOr(a, b) == BitOr(b, a)
    decreases a + b
  {
    if a + b > 0 {
      OrCommutes(a / 2, b / 2);
    }
  }

  // Masking with 2^k - 1 is reduction modulo 2^k.
  lemma {:induction false} AndMask(a: nat, k: nat)
    ensures BitAnd(a, Pow2(k) - 1) == a % Pow2(k)
    decreases k
  {
    if k == 0 {
      AndZero(a);
    } else {
      AndMask(a / 2, k - 1);
      HalfMod(a, k);
      assert (Pow2(k) - 1) / 2 == Pow2(k - 1) - 1;
    }
  }

  lemma {:induction false} AndZero(a: nat)
    ensures BitAnd(a, 0) == 0
  {
    if a > 0 {
      AndZero(a / 2);
    }
  }
}
