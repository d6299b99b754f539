/**
 Cross-limb shifts: limb loops with a word part and a bit part, against multiplication and
 division by a power of two.
 */
module Shifts {
  import opened Words
  import opened Uint256

  function Limbs(a: U256): seq<Word> { [a.lo, a.ml, a.mh, a.hi] }

  // ----- one word -----

  // Splits x at a factor of the base: what x * p keeps below the base and what it carries.
  lemma SplitAt(x: nat, p: nat, c: nat, base: nat)
    requires p >= 1 && c >= 1 && p * c == base && x < base
    ensures x * p == (x / c) * base + (x % c) * p
    ensures (x % c) * p <= base - p
    ensures x / c < p
  {
    var q, r := x / c, x % c;
    assert x * p == (q * c) * p + r * p;
    assert (q * c) * p == q * base;
    MulMonotone(r + 1, c, p);
    DivBound(x, c, p);
  }

  // A left shift of a word loses exactly the bits a right shift by the complement keeps.
  lemma SplitWord(x: Word, s: nat)
    requires s <= 64
    ensures x * Pow2(s) == Shl64(x, s) + BASE * Shr64(x, 64 - s)
    ensures Shl64(x, s) % Pow2(s) == 0 && Shl64(x, s) <= BASE - Pow2(s)
    ensures Shr64(x, 64 - s) < Pow2(s)
  {
    Pow2Word();
    Pow2Add(s, 64 - s);
    var p, c := Pow2(s), Pow2(64 - s);
    SplitAt(x, p, c, BASE);
    MulAtLeast(x % c, p);
    DivModUnique(x * p, BASE, x / c, (x % c) * p);
    DivModUnique((x % c) * p, p, x % c, 0);
  }

  // The limb a left shift by s < 64 bits puts above `low` and in `x`.
  lemma ShiftedLimb(x: Word, low: Word, s: nat)
    requires s <= 64
    ensures BitOr(Shl64(x, s), Shr64(low, 64 - s)) == Shl64(x, s) + Shr64(low, 64 - s) < BASE
  {
    SplitWord(x, s);
    SplitWord(low, s);
    OrDisjoint(Shl64(x, s), Shr64(low, 64 - s), s);
  }

  // ----- the bit part of a shift -----

  // The four low limbs of a shifted left by s < 64 bits ...
  function BitsLeft(a: U256, s: nat): (r: U256)
    requires s <= 64
  {
    ShiftedLimb(a.ml, a.lo, s);
    ShiftedLimb(a.mh, a.ml, s);
    ShiftedLimb(a.hi, a.mh, s);
    U256(Shl64(a.lo, s),
         BitOr(Shl64(a.ml, s), Shr64(a.lo, 64 - s)),
         BitOr(Shl64(a.mh, s), Shr64(a.ml, 64 - s)),
         BitOr(Shl64(a.hi, s), Shr64(a.mh, 64 - s)))
  }

  lemma BitsLeftValue(a: U256, s: nat)
    requires s <= 64
    ensures Nat(a) * Pow2(s) == Nat(BitsLeft(a, s)) + BASE4 * Shr64(a.hi, 64 - s)
  {
    ShiftedLimb(a.ml, a.lo, s);
    ShiftedLimb(a.mh, a.ml, s);
    ShiftedLimb(a.hi, a.mh, s);
    SplitWord(a.lo, s);
    SplitWord(a.ml, s);
    SplitWord(a.mh, s);
    SplitWord(a.hi, s);
    TimesByLimbs(a, Pow2(s));
  }

  // ... and a shifted right by s < 64 bits.
  function BitsRight(a: U256, s: nat): U256
    requires s <= 64
  {
    ShiftedLimb(a.ml, a.lo, 64 - s);
    ShiftedLimb(a.mh, a.ml, 64 - s);
    ShiftedLimb(a.hi, a.mh, 64 - s);
    U256(BitOr(Shl64(a.ml, 64 - s), Shr64(a.lo, s)),
         BitOr(Shl64(a.mh, 64 - s), Shr64(a.ml, s)),
         BitOr(Shl64(a.hi, 64 - s), Shr64(a.mh, s)),
         Shr64(a.hi, s))
  }

  lemma BitsRightValue(a: U256, s: nat)
    requires s <= 64
    ensures Nat(BitsRight(a, s)) == Nat(a) / Pow2(s)
  {
    BitsLeftValue(a, 64 - s);
    ShiftedLimb(a.ml, a.lo, 64 - s);
    ShiftedLimb(a.mh, a.ml, 64 - s);
    ShiftedLimb(a.hi, a.mh, 64 - s);
    SplitWord(a.lo, 64 - s);
    Pow2Word();
    Pow2Add(s, 64 - s);
    var n, r, c := Nat(a), Nat(BitsRight(a, s)), Pow2(64 - s);
    var low := Shl64(a.lo, 64 - s);
    assert n * c == low + BASE * r;
    DivideBoth(n, Pow2(s), c, r, low);
  }

  lemma DivideBoth(n: nat, p: nat, c: nat, q: nat, low: nat)
    requires p >= 1 && c >= 1
    requires n * c == low + (p * c) * q && low < p * c
    ensures n / p == q
  {
    var d := n - p * q;
    assert d * c == low by {
      assert (p * c) * q == (p * q) * c;
    }
    if d >= p {
      MulMonotone(p, d, c);
    }
    if d < 0 {
      MulAtLeast(d, c);
    }
    DivModUnique(n, p, q, d);
  }

  // ----- the word part of a shift -----

  function MovedUp(v: U256, w: nat): U256
    requires w < 4
  {
    if w == 0 then v
    else if w == 1 then U256(0, v.lo, v.ml, v.mh)
    else if w == 2 then U256(0, 0, v.lo, v.ml)
    else U256(0, 0, 0, v.lo)
  }

  function MovedDown(v: U256, w: nat): U256
    requires w < 4
  {
    if w == 0 then v
    else if w == 1 then U256(v.ml, v.mh, v.hi, 0)
    else if w == 2 then U256(v.mh, v.hi, 0, 0)
    else U256(v.hi, 0, 0, 0)
  }

  // Moving limbs up multiplies modulo 2^256, whatever sits above the top limb ...
  lemma MovedUpValue(v: U256, top: nat, y: nat, w: nat)
    requires w < 4
    requires y == Nat(v) + BASE4 * top
    ensures Nat(MovedUp(v, w)) == (y * Pow2(64 * w)) % BASE4
  {
    Pow2Limbs();
    var r := Nat(MovedUp(v, w));
    if w == 0 {
      DivModUnique(y, BASE4, top, r);
    } else if w == 1 {
      DivModUnique(y * BASE, BASE4, v.hi + BASE * top, r);
    } else if w == 2 {
      DivModUnique(y * BASE2, BASE4, v.mh + BASE * v.hi + BASE2 * top, r);
    } else {
      DivModUnique(y * BASE3, BASE4, v.ml + BASE * v.mh + BASE2 * v.hi + BASE3 * top, r);
    }
  }

  lemma ScaleTwice(r: int, x: nat, p: nat, q: nat, m: nat)
    requires r == ((x * p) * q) % BASE4 && m == p * q
    ensures r == (x * m) % BASE4
  {
    MulAssoc(x, p, q);
  }

  // ... and moving them down divides.
  lemma MovedDownValue(v: U256, w: nat)
    requires w < 4
    ensures Nat(MovedDown(v, w)) == Nat(v) / Pow2(64 * w)
  {
    Pow2Limbs();
    var r := Nat(MovedDown(v, w));
    if w == 1 {
      DivModUnique(Nat(v), BASE, r, v.lo);
    } else if w == 2 {
      DivModUnique(Nat(v), BASE2, r, v.lo + BASE * v.ml);
    } else if w == 3 {
      DivModUnique(Nat(v), BASE3, r, v.lo + BASE * v.ml + BASE2 * v.mh);
    }
  }

  lemma ShiftByZero(x: Word)
    ensures Shl64(x, 0) == x && Shr64(x, 0) == x && Shr64(x, 64) == 0 && Shl64(x, 64) == 0
  {
    Pow2Word();
    MultipleMod(x, BASE);
  }

  lemma NoBits(a: U256)
    ensures BitsLeft(a, 0) == a && BitsRight(a, 0) == a
  {
    ShiftByZero(a.lo);
    ShiftByZero(a.ml);
    ShiftByZero(a.mh);
    ShiftByZero(a.hi);
    OrZero(a.ml);
    OrZero(a.mh);
    OrZero(a.hi);
    OrZero(a.lo);
    OrCommutes(a.lo, 0);
    OrCommutes(a.ml, 0);
    OrCommutes(a.mh, 0);
  }

  lemma ShlValue(a: U256, n: nat)
    requires n < 256
    ensures Nat(MovedUp(BitsLeft(a, n % 64), n / 64)) == (Nat(a) * Pow2(n)) % BASE4
  {
    hide Nat;
    var w, s := n / 64, n % 64;
    assert s + 64 * w == n;
    Pow2Add(s, 64 * w);
    BitsLeftValue(a, s);
    MovedUpValue(BitsLeft(a, s), Shr64(a.hi, 64 - s), Nat(a) * Pow2(s), w);
    ScaleTwice(Nat(MovedUp(BitsLeft(a, s), w)), Nat(a), Pow2(s), Pow2(64 * w), Pow2(n));
  }

  lemma ShrValue(a: U256, n: nat)
    requires n < 256
    ensures Nat(MovedDown(BitsRight(a, n % 64), n / 64)) == Nat(a) / Pow2(n)
  {
    hide Nat;
    var w, s := n / 64, n % 64;
    assert s + 64 * w == n;
    var x, p, q := Nat(a), Pow2(s), Pow2(64 * w);
    Pow2Add(s, 64 * w);
    DivDiv(x, p, q);
    BitsRightValue(a, s);
    MovedDownValue(BitsRight(a, s), w);
  }

  // A shift count of 256 or more shifts everything out.
  lemma ShiftedOut(a: U256, n: nat)
    requires n >= 256
    ensures (Nat(a) * Pow2(n)) % BASE4 == 0 && Nat(a) / Pow2(n) == 0 && Nat(ZERO) == 0
  {
    assert Nat(ZERO) == 0;
    hide Nat;
    Pow2Limbs();
    Pow2Add(n - 256, 256);
    var x, p := Nat(a), Pow2(n - 256);
    MulAssoc(x, p, BASE4);
    MultipleMod(x * p, BASE4);
    MulMonotone(1, p, BASE4);
    DivModUnique(x, Pow2(n), 0, x);
  }

  // lu256Shl
  method Shl(a: U256, n: nat) returns (r: U256)
    ensures Nat(r) == (Nat(a) * Pow2(n)) % BASE4
  {
    hide Nat, Pow2, BitOr;
    if n >= 256 {
      ShiftedOut(a, n);
      return ZERO;
    }
    ghost var limbs := MovedUp(BitsLeft(a, n % 64), n / 64);
    ShlValue(a, n);
    if n == 0 {
      NoBits(a);
      return a;
    }
    var words := new Word[4] [a.lo, a.ml, a.mh, a.hi];
    var result := new Word[4] [0, 0, 0, 0];
    var wordShift, bitShift := n / 64, n % 64;
    if bitShift == 0 {
      NoBits(a);
      for i := wordShift to 4
        invariant words[..] == Limbs(a)
        invariant forall k :: 0 <= k < 4 ==> result[k] == if k < i then Limbs(limbs)[k] else 0
      {
        result[i] := words[i - wordShift];
      }
    } else {
      for i := wordShift to 4
        invariant words[..] == Limbs(a)
        invariant forall k :: 0 <= k < 4 ==> result[k] == if k < i then Limbs(limbs)[k] else 0
      {
        result[i] := Shl64(words[i - wordShift], bitShift);
        if i > wordShift {
          ShiftedLimb(words[i - wordShift], words[i - wordShift - 1], bitShift);
          result[i] := BitOr(result[i], Shr64(words[i - wordShift - 1], 64 - bitShift));
        }
      }
    }
    r := U256(result[0], result[1], result[2], result[3]);
  }

  // lu256Shr
  method Shr(a: U256, n: nat) returns (r: U256)
    ensures Nat(r) == Nat(a) / Pow2(n)
  {
    hide Nat, Pow2, BitOr;
    if n >= 256 {
      ShiftedOut(a, n);
      return ZERO;
    }
    ghost var limbs := MovedDown(BitsRight(a, n % 64), n / 64);
    ShrValue(a, n);
    if n == 0 {
      NoBits(a);
      return a;
    }
    var words := new Word[4] [a.lo, a.ml, a.mh, a.hi];
    var result := new Word[4] [0, 0, 0, 0];
    var wordShift, bitShift := n / 64, n % 64;
    if bitShift == 0 {
      NoBits(a);
      for i := 0 to 4 - wordShift
        invariant words[..] == Limbs(a)
        invariant forall k :: 0 <= k < 4 ==> result[k] == if k < i then Limbs(limbs)[k] else 0
      {
        result[i] := words[i + wordShift];
      }
    } else {
      for i := 0 to 4 - wordShift
        invariant words[..] == Limbs(a)
        invariant forall k :: 0 <= k < 4 ==> result[k] == if k < i then Limbs(limbs)[k] else 0
      {
        result[i] := Shr64(words[i + wordShift], bitShift);
        if i + wordShift + 1 < 4 {
          var low, high := words[i + wordShift], words[i + wordShift + 1];
          ShiftedLimb(high, low, 64 - bitShift);
          OrCommutes(Shr64(low, bitShift), Shl64(high, 64 - bitShift));
          result[i] := BitOr(result[i], Shl64(high, 64 - bitShift));
        }
      }
    }
    r := U256(result[0], result[1], result[2], result[3]);
  }
}
