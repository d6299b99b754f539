/**
 Printing and parsing numbers: the chunked decimal printer, the positional parser, and the
 fixed-width hexadecimal storage keys.
 */
module Decimal {
  import opened Options
  import opened Words
  import opened Uint256
  import opened Division

  // ----- positional notation -----

  function Power(base: nat, k: nat): (p: nat)
    ensures base >= 1 ==> p >= 1
  {
    if k == 0 then 1 else base * Power(base, k - 1)
  }

  function DigitChar(d: nat): (c: char)
    requires d < 16
  {
    if d < 10 then '0' + d as char else 'a' + (d - 10) as char
  }

  // The digit a character stands for, as the parser's switch reads it.
  function DigitValue(c: char): Option<nat>
  {
    if '0' <= c <= '9' then Some(c as int - '0' as int)
    else if 'a' <= c <= 'f' then Some(c as int - 'a' as int + 10)
    else if 'A' <= c <= 'F' then Some(c as int - 'A' as int + 10)
    else None
  }

  lemma DigitRoundTrip(d: nat)
    requires d < 16
    ensures DigitValue(DigitChar(d)) == Some(d)
  {
  }

  // The number a string of digits stands for, most significant first.
  function Positional(s: string, base: nat): Option<nat>
  {
    if s == "" then Some(0)
    else
      var last := DigitValue(s[|s| - 1]);
      var rest := Positional(s[..|s| - 1], base);
      if last.None? || last.value >= base || rest.None? then None
      else Some(rest.value * base + last.value)
  }

  // The shortest decimal numeral, strconv.FormatUint(n, 10).
  function Numeral(n: nat): (s: string)
    ensures s != ""
  {
    if n < 10 then [DigitChar(n)] else Numeral(n / 10) + [DigitChar(n % 10)]
  }

  // Exactly k digits of n in the given base.
  function Fixed(n: nat, base: nat, k: nat): (s: string)
    requires 2 <= base <= 16
    ensures |s| == k
  {
    if k == 0 then "" else Fixed(n / base, base, k - 1) + [DigitChar(n % base)]
  }

  lemma {:induction false} NumeralValue(n: nat)
    ensures Positional(Numeral(n), 10) == Some(n)
  {
    DigitRoundTrip(n % 10);
    if n >= 10 {
      var s := Numeral(n);
      NumeralValue(n / 10);
      assert s[..|s| - 1] == Numeral(n / 10);
    } else {
      assert Numeral(n)[..0] == "";
    }
  }

  lemma {:induction false} FixedValue(n: nat, base: nat, k: nat)
    requires 2 <= base <= 16 && n < Power(base, k)
    ensures Positional(Fixed(n, base, k), base) == Some(n)
  {
    if k > 0 {
      ScaleBack(n, base, Power(base, k - 1));
      var q, d := n / base, n % base;
      FixedValue(q, base, k - 1);
      DigitRoundTrip(d);
      PositionalStep(Fixed(q, base, k - 1), d, q, base);
    }
  }

  lemma PositionalStep(s: string, d: nat, q: nat, base: nat)
    requires d < base <= 16 && Positional(s, base) == Some(q)
    ensures Positional(s + [DigitChar(d)], base) == Some(q * base + d)
  {
    hide Positional, DigitValue, DigitChar;
    var t := s + [DigitChar(d)];
    DigitRoundTrip(d);
    PositionalLast(t, base);
    assert t[..|t| - 1] == s && t[|t| - 1] == DigitChar(d);
  }

  lemma PositionalLast(s: string, base: nat)
    requires s != ""
    ensures Positional(s, base) ==
            var last := DigitValue(s[|s| - 1]);
            var rest := Positional(s[..|s| - 1], base);
            if last.None? || last.value >= base || rest.None? then None
            else Some(rest.value * base + last.value)
  {
  }

  lemma ScaleBack(n: nat, base: nat, p: nat)
    requires base > 0 && n < base * p
    ensures 0 <= n / base < p && (n / base) * base + n % base == n
  {
    DivBound(n, base, p);
  }

  // A numeral splits at any position into the numeral of the high part and fixed low digits.
  lemma {:induction false} NumeralSplit(q: nat, r: nat, k: nat)
    requires q > 0 && r < Power(10, k)
    ensures Numeral(q * Power(10, k) + r) == Numeral(q) + Fixed(r, 10, k)
  {
    if k > 0 {
      var p := Power(10, k - 1);
      var n := q * (10 * p) + r;
      ScaleBack(r, 10, p);
      MulAssoc(q, p, 10);
      DivModUnique(n, 10, q * p + r / 10, r % 10);
      MulMonotone(1, q, 10 * p);
      NumeralSplit(q, r / 10, k - 1);
    }
  }

  // fmt.Sprintf("%0kd", x): the numeral padded with zeros on the left
  function Padded(x: nat, k: nat): string
  {
    var s := Numeral(x);
    if |s| >= k then s else seq(k - |s|, _ => '0') + s
  }

  lemma {:induction false} PaddedIsFixed(x: nat, k: nat)
    requires k >= 1 && x < Power(10, k)
    ensures Padded(x, k) == Fixed(x, 10, k) && |Numeral(x)| <= k
  {
    if x < 10 {
      FixedZeros(k - 1);
      assert x / 10 == 0;
    } else {
      assert Power(10, 1) == 10 && k > 1;
      ScaleBack(x, 10, Power(10, k - 1));
      PaddedIsFixed(x / 10, k - 1);
    }
  }

  lemma {:induction false} FixedZeros(k: nat)
    ensures Fixed(0, 10, k) == seq(k, _ => '0')
  {
    if k > 0 {
      FixedZeros(k - 1);
    }
  }

  // ----- LUint256.String -----

  const CHUNK := 10_000_000_000_000_000_000

  lemma ChunkPower()
    ensures Power(10, 19) == CHUNK
  {
    assert Power(10, 5) == 100000;
    PowerAdd(10, 5, 5);
    PowerAdd(10, 10, 5);
    PowerAdd(10, 15, 4);
    assert Power(10, 4) == 10000;
  }

  lemma {:induction false} PowerAdd(base: nat, m: nat, n: nat)
    ensures Power(base, m + n) == Power(base, m) * Power(base, n)
  {
    if m > 0 {
      PowerAdd(base, m - 1, n);
      MulAssoc(base, Power(base, m - 1), Power(base, n));
    }
  }

  // Five chunks cover every 256-bit value.
  lemma FiveChunks()
    ensures BASE4 <= Power(CHUNK, 5)
  {
    assert Power(CHUNK, 5) == CHUNK * (CHUNK * (CHUNK * (CHUNK * (CHUNK * 1))));
  }

  lemma SmallNat(v: U256)
    requires Nat(v) < BASE
    ensures v.lo == Nat(v)
  {
  }

  lemma ZeroIff(v: U256)
    ensures v == ZERO <==> Nat(v) == 0
  {
    if Nat(v) == 0 {
      NatInjective(v, ZERO);
    }
  }

  // What is left of N after k chunks.
  function Above(N: nat, k: nat): nat { N / Power(CHUNK, k) }

  // One more chunk off the low end.
  lemma NextChunk(N: nat, k: nat)
    ensures Above(N, k) / CHUNK == Above(N, k + 1)
    ensures Above(N, k) == Above(N, k + 1) * CHUNK + Above(N, k) % CHUNK
  {
    DivDiv(N, Power(CHUNK, k), CHUNK);
  }

  lemma WithinFive(N: nat, n: nat)
    requires N < BASE4 && n <= 5 && Above(N, n) > 0
    ensures n < 5
  {
    FiveChunks();
    if n == 5 {
      DivModUnique(N, Power(CHUNK, 5), 0, N);
    }
  }

  // Appending a padded chunk to a non-empty numeral.
  lemma AppendChunk(q: nat, r: nat)
    requires q > 0 && r < CHUNK
    ensures Numeral(q * CHUNK + r) == Numeral(q) + Padded(r, 19)
  {
    ChunkPower();
    NumeralSplit(q, r, 19);
    PaddedIsFixed(r, 19);
  }

  lemma PrependedChunk(N: nat, i: nat, part: nat)
    requires Above(N, i + 1) > 0 && part == Above(N, i) % CHUNK
    ensures Above(N, i) > 0
    ensures Numeral(Above(N, i)) == Numeral(Above(N, i + 1)) + Padded(part, 19)
  {
    NextChunk(N, i);
    var q, n := Above(N, i + 1), Above(N, i);
    hide Power, Numeral, Padded, Above;
    AppendChunk(q, part);
    assert n == q * CHUNK + part;
  }

  // The first n entries are the low chunks of N.
  ghost predicate LowChunks(N: nat, parts: seq<Word>, n: nat)
  {
    n <= |parts| && forall k :: 0 <= k < n ==> parts[k] == Above(N, k) % CHUNK
  }

  lemma TakeChunk(N: nat, parts: seq<Word>, n: nat, v: U256, q: U256, r: U256)
    requires N < BASE4 && |parts| == 5 && n <= 5 && LowChunks(N, parts, n)
    requires Nat(v) == Above(N, n) > 0 && Nat(q) == Nat(v) / CHUNK && Nat(r) == Nat(v) % CHUNK
    ensures n < 5 && LowChunks(N, parts[n := r.lo], n + 1) && Nat(q) == Above(N, n + 1) < Nat(v)
  {
    hide Nat, Above;
    WithinFive(N, n);
    NextChunk(N, n);
    SmallNat(r);
  }

  // LUint256.String: base 10^19 chunks, which the five-element buffer always holds.
  method ToDecimal(nm: U256) returns (s: string)
    ensures s == Numeral(Nat(nm))
  {
    ghost var N := Nat(nm);
    assert Numeral(0) == "0" && Above(N, 0) == N;
    assert Nat(U256(CHUNK, 0, 0, 0)) == CHUNK;
    hide Nat, Numeral, Padded, Above, LowChunks;
    ZeroIff(nm);
    if nm == ZERO {
      return "0";
    }
    var d := U256(CHUNK, 0, 0, 0);
    var parts := new Word[5] [0, 0, 0, 0, 0];
    var n, v := 0, nm;
    assert LowChunks(N, parts[..], 0) by { NoChunks(N, parts[..]); }
    while v != ZERO
      invariant n <= 5
      invariant Nat(v) == Above(N, n)
      invariant n > 0 ==> Above(N, n - 1) > 0
      invariant LowChunks(N, parts[..], n)
      decreases Nat(v)
    {
      ZeroIff(v);
      var q, r := DivMod(v, d);
      TakeChunk(N, parts[..], n, v, q, r);
      ghost var was := parts[..];
      parts[n] := r.lo;
      assert parts[..] == was[n := r.lo];
      v := q;
      n := n + 1;
    }
    ZeroIff(v);
    TopChunk(N, parts[..], n);
    s := Numeral(parts[n - 1]);
    for i := n - 1 downto 0
      invariant s == Numeral(Above(N, i)) && Above(N, i) > 0
      invariant LowChunks(N, parts[..], n)
    {
      NextPart(N, parts[..], n, i);
      s := s + Padded(parts[i], 19);
    }
  }

  lemma NoChunks(N: nat, parts: seq<Word>)
    ensures LowChunks(N, parts, 0)
  {
  }

  lemma TopChunk(N: nat, parts: seq<Word>, n: nat)
    requires n > 0 && LowChunks(N, parts, n) && Above(N, n) == 0
    ensures n <= |parts| && parts[n - 1] == Above(N, n - 1)
  {
    hide Above;
    NextChunk(N, n - 1);
  }

  lemma NextPart(N: nat, parts: seq<Word>, n: nat, i: nat)
    requires i < n && LowChunks(N, parts, n) && Above(N, i + 1) > 0
    ensures n <= |parts| && Above(N, i) > 0
    ensures Numeral(Above(N, i)) == Numeral(Above(N, i + 1)) + Padded(parts[i], 19)
  {
    hide Above, Numeral, Padded;
    PrependedChunk(N, i, parts[i]);
  }

  // ----- parsing -----

  // parseUint256Base: the positional value modulo 2^256; there is no range check.
  method ParseBase(number: string, base: nat) returns (r: Option<U256>)
    requires 2 <= base <= 16
    ensures var s := StripHexPrefix(number);
            if s == "" || s[0] == '-' || Positional(s, base) == None then r == None
            else r.Some? && Nat(r.value) == Positional(s, base).value % BASE4
  {
    var s := StripHexPrefix(number);
    if s == "" || s[0] == '-' {
      return None;
    }
    assert Nat(ZERO) == 0;
    assert s[..0] == "" && s[..|s|] == s;
    var baseU, result := U256(base, 0, 0, 0), ZERO;
    hide Nat, Mul, Add, Positional, DigitValue;
    PositionalEmpty(base);
    for i := 0 to |s|
      invariant Positional(s[..i], base).Some?
      invariant Nat(result) == Positional(s[..i], base).value % BASE4
    {
      var digit := DigitValue(s[i]);
      PositionalNext(s, i, base);
      if digit.None? || digit.value >= base {
        PrefixInvalid(s, i + 1, base);
        return None;
      }
      HornerStep(result, Positional(s[..i], base).value, base, digit.value);
      result := Add(Mul(result, baseU), U256(digit.value, 0, 0, 0));
    }
    return Some(result);
  }

  lemma PositionalEmpty(base: nat)
    ensures Positional("", base) == Some(0)
  {
  }

  lemma PositionalNext(s: string, i: nat, base: nat)
    requires i < |s|
    ensures var digit, rest := DigitValue(s[i]), Positional(s[..i], base);
            Positional(s[..i + 1], base) ==
              if digit.None? || digit.value >= base || rest.None? then None else Some(rest.value * base + digit.value)
  {
    assert s[..i + 1][..i] == s[..i];
  }

  lemma SmallValue(d: Word)
    ensures Nat(U256(d, 0, 0, 0)) == d
  {
  }

  // Horner's step commutes with reduction modulo 2^256.
  lemma ModStep(v: nat, base: nat, d: nat)
    ensures (((v % BASE4) * base) % BASE4 + d) % BASE4 == (v * base + d) % BASE4
  {
    var q, r := v / BASE4, v % BASE4;
    var q', r' := (r * base) / BASE4, (r * base) % BASE4;
    assert v * base == (q * base) * BASE4 + r * base;
    var t := (r' + d) / BASE4;
    DivModUnique(v * base + d, BASE4, q * base + q' + t, (r' + d) % BASE4);
  }

  lemma HornerStep(result: U256, v: nat, base: Word, d: Word)
    requires Nat(result) == v % BASE4
    ensures Nat(Add(Mul(result, U256(base, 0, 0, 0)), U256(d, 0, 0, 0))) == (v * base + d) % BASE4
  {
    var baseU := U256(base, 0, 0, 0);
    SmallValue(base);
    SmallValue(d);
    MulByWord(result, baseU);
    hide Nat, Mul, Add;
    ModStep(v, base, d);
  }

  // An invalid prefix makes the whole string invalid.
  lemma {:induction false} PrefixInvalid(s: string, i: nat, base: nat)
    requires i <= |s| && Positional(s[..i], base) == None
    ensures Positional(s, base) == None
    decreases |s| - i
  {
    if i == |s| {
      assert s[..i] == s;
    } else {
      assert s[..i + 1][..i] == s[..i];
      PrefixInvalid(s, i + 1, base);
    }
  }

  predicate HasPrefix(s: string, p: string) { |p| <= |s| && s[..|p|] == p }

  function StripHexPrefix(s: string): string
  {
    if HasPrefix(s, "0x") || HasPrefix(s, "0X") then s[2..] else s
  }

  predicate IsSpace(c: char) { c == ' ' || '\t' <= c <= '\r' }

  // strings.TrimSpace, for ASCII input
  function TrimSpace(s: string): string
    decreases |s|
  {
    if s != "" && IsSpace(s[0]) then TrimSpace(s[1..])
    else if s != "" && IsSpace(s[|s| - 1]) then TrimSpace(s[..|s| - 1])
    else s
  }

  // parseUint256
  method Parse(number: string) returns (r: Option<U256>)
    ensures r == ParsedValue(TrimSpace(number))
  {
    var s := TrimSpace(number);
    if s == "" {
      return None;
    }
    var base := 10;
    if HasPrefix(s, "0x") || HasPrefix(s, "0X") {
      s, base := s[2..], 16;
    } else if HasPrefix(s, "0b") || HasPrefix(s, "0B") {
      s, base := s[2..], 2;
    }
    r := ParseBase(s, base);
    if r.Some? {
      var v := Positional(StripHexPrefix(s), base).value % BASE4;
      NatInjective(r.value, FromNat(v));
    }
  }

  // What parsing a trimmed string gives.
  function ParsedValue(s: string): Option<U256>
  {
    var (digits, base) :=
      if HasPrefix(s, "0x") || HasPrefix(s, "0X") then (s[2..], 16)
      else if HasPrefix(s, "0b") || HasPrefix(s, "0B") then (s[2..], 2)
      else (s, 10);
    var t := StripHexPrefix(digits);
    if s == "" || t == "" || t[0] == '-' || Positional(t, base) == None then None
    else Some(FromNat(Positional(t, base).value % BASE4))
  }

  // A numeral is a plain string of decimal digits; it has two characters with a leading zero never.
  lemma {:induction false} NumeralShape(n: nat)
    ensures forall i :: 0 <= i < |Numeral(n)| ==> '0' <= Numeral(n)[i] <= '9'
    ensures |Numeral(n)| >= 2 ==> Numeral(n)[0] != '0'
  {
    if n >= 10 {
      NumeralShape(n / 10);
      if |Numeral(n / 10)| == 1 {
        assert n / 10 < 10;
      }
    }
  }

  // Printing and parsing undo each other.
  lemma ParsePrinted(v: U256)
    ensures ParsedValue(TrimSpace(Numeral(Nat(v)))) == Some(v)
  {
    var n := Nat(v);
    var s := Numeral(n);
    NumeralShape(n);
    assert TrimSpace(s) == s;
    NumeralValue(n);
    DivModUnique(n, BASE4, 0, n);
    NatInjective(FromNat(n), v);
  }

  // A numeral that does not fit is not refused: it wraps around.
  lemma ParseWraps(n: nat)
    ensures var r := ParsedValue(Numeral(n));
            r.Some? && Nat(r.value) == n % BASE4
  {
    NumeralShape(n);
    NumeralValue(n);
    hide Positional, Numeral, Nat;
  }

  // ----- fixed-width hexadecimal keys -----

  type Byte = x: int | 0 <= x < 256

  // binary.BigEndian.PutUint64 and its 32-byte concatenation: k bytes of n, most significant first
  function BytesBE(n: nat, k: nat): (b: seq<Byte>)
    ensures |b| == k
  {
    if k == 0 then [] else BytesBE(n / 256, k - 1) + [n % 256]
  }

  // lu256ToBytes32BE
  function ToBytes32(v: U256): seq<Byte>
  {
    BytesBE(v.hi, 8) + BytesBE(v.mh, 8) + BytesBE(v.ml, 8) + BytesBE(v.lo, 8)
  }

  // hex.EncodeToString
  function HexEncode(b: seq<Byte>): (s: string)
    ensures |s| == 2 * |b|
  {
    if b == [] then ""
    else HexEncode(b[..|b| - 1]) + [DigitChar(b[|b| - 1] / 16), DigitChar(b[|b| - 1] % 16)]
  }

  lemma {:induction false} HexEncodeAppend(a: seq<Byte>, b: seq<Byte>)
    ensures HexEncode(a + b) == HexEncode(a) + HexEncode(b)
  {
    if b == [] {
      assert a + b == a;
    } else {
      assert (a + b)[..|a + b| - 1] == a + b[..|b| - 1];
      HexEncodeAppend(a, b[..|b| - 1]);
    }
  }

  lemma {:induction false} HexOfBytes(n: nat, k: nat)
    ensures HexEncode(BytesBE(n, k)) == Fixed(n, 16, 2 * k)
  {
    if k > 0 {
      HexOfBytes(n / 256, k - 1);
      var b := BytesBE(n, k);
      assert b[..|b| - 1] == BytesBE(n / 256, k - 1);
      DivDiv(n, 16, 16);
      DivModUnique(n % 256, 16, n / 16 % 16, n % 16);
      assert Fixed(n, 16, 2 * k) == Fixed(n / 16 / 16, 16, 2 * k - 2) + [DigitChar(n / 16 % 16)] + [DigitChar(n % 16)];
    }
  }

  // strconv.ParseUint(s, 16, 64)
  function ParseHexWord(s: string): Option<Word>
  {
    var v := Positional(s, 16);
    if s == "" || v.None? || v.value >= BASE then None else Some(v.value)
  }

  // lu256FromHex64
  function FromHex64(s: string): Option<U256>
  {
    if |s| != 64 then None
    else
      var (hi, mh, ml, lo) :=
        (ParseHexWord(s[0..16]), ParseHexWord(s[16..32]), ParseHexWord(s[32..48]), ParseHexWord(s[48..64]));
      if hi.None? || mh.None? || ml.None? || lo.None? then None
      else Some(U256(lo.value, ml.value, mh.value, hi.value))
  }

  lemma HexPower()
    ensures Power(16, 16) == BASE
  {
    assert Power(16, 4) == 0x10000;
    PowerAdd(16, 4, 4);
    PowerAdd(16, 8, 8);
  }

  // The key is the 64-digit hexadecimal numeral, by limbs ...
  lemma HexByLimbs(v: U256)
    ensures HexEncode(ToBytes32(v))
            == Fixed(v.hi, 16, 16) + Fixed(v.mh, 16, 16) + Fixed(v.ml, 16, 16) + Fixed(v.lo, 16, 16)
  {
    HexEncodeAppend(BytesBE(v.hi, 8), BytesBE(v.mh, 8));
    HexEncodeAppend(BytesBE(v.hi, 8) + BytesBE(v.mh, 8), BytesBE(v.ml, 8));
    HexEncodeAppend(BytesBE(v.hi, 8) + BytesBE(v.mh, 8) + BytesBE(v.ml, 8), BytesBE(v.lo, 8));
    HexOfBytes(v.hi, 8);
    HexOfBytes(v.mh, 8);
    HexOfBytes(v.ml, 8);
    HexOfBytes(v.lo, 8);
  }

  // ... and as one number.
  lemma {:induction false} FixedJoin(q: nat, r: nat, j: nat, k: nat)
    requires r < Power(16, k)
    ensures Fixed(q * Power(16, k) + r, 16, j + k) == Fixed(q, 16, j) + Fixed(r, 16, k)
    decreases k
  {
    if k > 0 {
      var p := Power(16, k - 1);
      var n := q * (16 * p) + r;
      ScaleBack(r, 16, p);
      MulAssoc(q, p, 16);
      DivModUnique(n, 16, q * p + r / 16, r % 16);
      FixedJoin(q, r / 16, j, k - 1);
    }
  }

  lemma HexIsFixed(v: U256)
    ensures HexEncode(ToBytes32(v)) == Fixed(Nat(v), 16, 64)
  {
    HexByLimbs(v);
    HexPower();
    hide Fixed, Power, HexEncode, ToBytes32;
    FixedJoin(v.hi, v.mh, 16, 16);
    FixedJoin(v.hi * BASE + v.mh, v.ml, 32, 16);
    FixedJoin((v.hi * BASE + v.mh) * BASE + v.ml, v.lo, 48, 16);
  }

  // Reading a key back gives the value.
  lemma FromHexKey(v: U256)
    ensures FromHex64(HexEncode(ToBytes32(v))) == Some(v)
  {
    HexByLimbs(v);
    HexPower();
    FixedValue(v.hi, 16, 16);
    FixedValue(v.mh, 16, 16);
    FixedValue(v.ml, 16, 16);
    FixedValue(v.lo, 16, 16);
    var s := HexEncode(ToBytes32(v));
    hide Fixed, Power, HexEncode, ToBytes32, Positional;
    assert s[0..16] == Fixed(v.hi, 16, 16) && s[16..32] == Fixed(v.mh, 16, 16);
    assert s[32..48] == Fixed(v.ml, 16, 16) && s[48..64] == Fixed(v.lo, 16, 16);
  }

  // encodeDecimalTo32
  method EncodeDecimalTo32(s: string) returns (key: Option<string>)
    ensures var v := ParsedValue(TrimSpace(TrimSpace(s)));
            key == if v.None? then None else Some(Fixed(Nat(v.value), 16, 64))
  {
    var v := Parse(TrimSpace(s));
    if v.None? {
      return None;
    }
    HexIsFixed(v.value);
    return Some(HexEncode(ToBytes32(v.value)));
  }

  lemma {:induction false} TrimTwice(s: string)
    ensures TrimSpace(TrimSpace(s)) == TrimSpace(s)
    decreases |s|
  {
    if s != "" && IsSpace(s[0]) {
      TrimTwice(s[1..]);
    } else if s != "" && IsSpace(s[|s| - 1]) {
      TrimTwice(s[..|s| - 1]);
    }
  }

  // tolEncodeKey on a number: exactly its 64-digit hexadecimal numeral, which reads back.
  method EncodeKey(v: U256) returns (key: Option<string>)
    ensures key == Some(Fixed(Nat(v), 16, 64))
    ensures FromHex64(key.value) == Some(v)
  {
    var s := ToDecimal(v);
    ParsePrinted(v);
    TrimTwice(s);
    key := EncodeDecimalTo32(s);
    HexIsFixed(v);
    FromHexKey(v);
  }
}
