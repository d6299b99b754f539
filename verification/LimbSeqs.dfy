/**
 Little-endian sequences of words as numbers.
 */
module LimbSeqs {
  import opened Words

  function BPow(k: nat): (p: nat)
    ensures p >= 1
  {
    if k == 0 then 1 else BASE * BPow(k - 1)
  }

  function Val(s: seq<Word>): nat
  {
    if s == [] then 0 else s[0] + BASE * Val(s[1..])
  }

  lemma {:induction false} BPowAdd(m: nat, n: nat)
    ensures BPow(m + n) == BPow(m) * BPow(n)
  {
    if m > 0 {
      BPowAdd(m - 1, n);
      MulAssoc(BASE, BPow(m - 1), BPow(n));
    }
  }

  lemma {:induction false} ValAppend(s: seq<Word>, t: seq<Word>)
    ensures Val(s + t) == Val(s) + BPow(|s|) * Val(t)
  {
    if s == [] {
      assert s + t == t;
    } else {
      assert (s + t)[1..] == s[1..] + t;
      ValAppend(s[1..], t);
      MulAssoc(BASE, BPow(|s| - 1), Val(t));
    }
  }

  lemma {:induction false} ValBound(s: seq<Word>)
    ensures Val(s) < BPow(|s|)
  {
    if s != [] {
      ValBound(s[1..]);
    }
  }

  lemma ValOne(x: Word)
    ensures Val([x]) == x
  {
    assert [x][1..] == [];
  }

  lemma QuotientOfSum(x: int, p: int, high: int, low: int)
    requires 0 <= low < p && x == low + p * high
    ensures x / p == high && x % p == low
  {
    DivModUnique(x, p, high, low);
  }

  lemma ValSplit(s: seq<Word>, k: nat)
    requires k <= |s|
    ensures Val(s) == Val(s[..k]) + BPow(k) * Val(s[k..])
    ensures Val(s[..k]) < BPow(k)
    ensures Val(s) / BPow(k) == Val(s[k..])
  {
    assert s == s[..k] + s[k..];
    ValAppend(s[..k], s[k..]);
    ValBound(s[..k]);
    QuotientOfSum(Val(s), BPow(k), Val(s[k..]), Val(s[..k]));
  }

  lemma ValJoin(s: seq<Word>, k: nat)
    requires k <= |s|
    ensures Val(s) == Val(s[..k]) + BPow(k) * Val(s[k..])
  {
    assert s == s[..k] + s[k..];
    ValAppend(s[..k], s[k..]);
  }

  // A limb is a digit of the number.
  lemma LimbAt(s: seq<Word>, k: nat)
    requires k < |s|
    ensures Val(s) / BPow(k) % BASE == s[k]
  {
    ValSplit(s, k);
    var t := s[k..];
    DivModUnique(Val(t), BASE, Val(t[1..]), t[0]);
  }

  lemma TopLimb(s: seq<Word>)
    requires s != []
    ensures Val(s) / BPow(|s| - 1) == s[|s| - 1]
  {
    ValSplit(s, |s| - 1);
    assert s[|s| - 1..] == [s[|s| - 1]];
    ValOne(s[|s| - 1]);
  }

  // Growing a prefix by one limb.
  lemma ValPrefix(s: seq<Word>, i: nat)
    requires i < |s|
    ensures Val(s[..i + 1]) == Val(s[..i]) + BPow(i) * s[i]
  {
    assert s[..i + 1] == s[..i] + [s[i]];
    ValAppend(s[..i], [s[i]]);
    ValOne(s[i]);
  }
}
