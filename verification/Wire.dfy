/**
 The wire format of function prototypes: what is written, what is read back, and that reading undoes
 writing.
 */
module Wire {
  import opened Options
  import opened Words
  import opened Uint256
  import opened Opcodes
  import opened Instructions

  // A value and the bytes behind it, or a failure.
  datatype Parsed<T> = Got(value: T, rest: Bytes) | Short {
    predicate IsFailure() { Short? }
    function PropagateFailure<U>(): Parsed<U> { Short }
    function Extract(): (T, Bytes)
      requires Got?
    {
      (value, rest)
    }
  }

  // ----- numbers -----

  // writeU32(uint32(n)), writeI32(int32(n)): the low 32 bits, most significant byte first
  function Put32(n: int): (b: Bytes)
    ensures |b| == 4
  {
    var w := n % WORDS32;
    [w / 0x100_0000, (w / 0x1_0000) % 0x100, (w / 0x100) % 0x100, w % 0x100]
  }

  function Join32(a: int, b: int, c: int, d: int): int { a * 0x100_0000 + b * 0x1_0000 + c * 0x100 + d }

  function Get32(b: Bytes): (r: Parsed<Word32>)
    ensures r.Got? ==> |r.rest| + 4 == |b|
  {
    if |b| < 4 then Short else Got(Join32(b[0], b[1], b[2], b[3]), b[4..])
  }

  function Signed32(w: Word32): int { if w < 0x8000_0000 then w else w - WORDS32 }

  function GetInt(b: Bytes): (r: Parsed<int>)
    ensures r.Got? ==> |r.rest| + 4 == |b|
  {
    var w :- Get32(b);
    Got(Signed32(w.0), w.1)
  }

  predicate IsInt32(n: int) { -0x8000_0000 <= n < 0x8000_0000 }

  lemma Word32RoundTrip(n: int, t: Bytes)
    ensures Get32(Put32(n) + t) == Got(n % WORDS32, t)
  {
    var b := Put32(n) + t;
    assert b[4..] == t;
    Sum32(n % WORDS32);
  }

  lemma Sum32(w: Word32)
    ensures (w / 0x100_0000) * 0x100_0000 + ((w / 0x1_0000) % 0x100) * 0x1_0000 + ((w / 0x100) % 0x100) * 0x100
            + w % 0x100
            == w
  {
    var q1 := w / 0x100;
    var q2 := q1 / 0x100;
    assert q2 == w / 0x1_0000 && q2 / 0x100 == w / 0x100_0000;
    assert w == q1 * 0x100 + w % 0x100 && q1 == q2 * 0x100 + q1 % 0x100 && q2 == (q2 / 0x100) * 0x100 + q2 % 0x100;
  }

  lemma IntRoundTrip(n: int, t: Bytes)
    ensures GetInt(Put32(n) + t).Got? && GetInt(Put32(n) + t).rest == t
    ensures GetInt(Put32(n) + t).value == n <==> IsInt32(n)
  {
    Word32RoundTrip(n, t);
    hide Put32, Get32;
  }

  // binary.LittleEndian.PutUint64
  function Put64(n: nat): (b: Bytes)
    ensures |b| == 8
  {
    PutLittle(n, 8)
  }

  function PutLittle(n: nat, k: nat): (b: Bytes)
    ensures |b| == k
  {
    if k == 0 then [] else [n % 0x100] + PutLittle(n / 0x100, k - 1)
  }

  function GetLittle(b: Bytes): nat
  {
    if b == [] then 0 else b[0] as int + 0x100 * GetLittle(b[1..])
  }

  function Power256(k: nat): nat { if k == 0 then 1 else 0x100 * Power256(k - 1) }

  lemma {:induction false} LittleRoundTrip(n: nat, k: nat)
    requires n < Power256(k)
    ensures GetLittle(PutLittle(n, k)) == n
  {
    if k > 0 {
      LittleRoundTrip(n / 0x100, k - 1);
      assert PutLittle(n, k)[1..] == PutLittle(n / 0x100, k - 1);
    }
  }

  lemma {:induction false} LittleBelow(b: Bytes)
    ensures GetLittle(b) < Power256(|b|)
  {
    if b != [] {
      LittleBelow(b[1..]);
    }
  }

  // ----- strings -----

  // writeString
  function PutString(s: Bytes): Bytes { Put32(|s|) + s }

  // readString; the space left is compared in 32 bits
  function GetString(b: Bytes): (r: Parsed<Bytes>)
    ensures r.Got? ==> |r.rest| + 4 <= |b|
  {
    var n :- Get32(b);
    if n.0 == 0 then Got([], n.1)
    else if n.0 > |n.1| % WORDS32 then Short
    else Got(n.1[..n.0], n.1[n.0..])
  }

  lemma StringRoundTrip(s: Bytes, t: Bytes)
    requires |PutString(s) + t| < WORDS32
    ensures GetString(PutString(s) + t) == Got(s, t)
  {
    hide Put32, Get32;
    var tail := s + t;
    assert PutString(s) + t == Put32(|s|) + tail;
    Word32RoundTrip(|s|, tail);
    SmallRemainder(|s|);
    SmallRemainder(|tail|);
    assert tail[..|s|] == s && tail[|s|..] == t;
  }

  lemma SmallRemainder(n: nat)
    requires n < WORDS32
    ensures n % WORDS32 == n
  {
  }

  lemma StringBelow(b: Bytes)
    ensures GetString(b).Got? ==> |GetString(b).value| < WORDS32
  {
  }

  // ----- lists -----

  function PutAll<T>(xs: seq<T>, put: T -> Bytes): Bytes
  {
    if xs == [] then [] else put(xs[0]) + PutAll(xs[1..], put)
  }

  ghost predicate Shrinks<T(!new)>(get: Bytes -> Parsed<T>)
  {
    forall b :: get(b).Got? ==> |get(b).rest| <= |b|
  }

  ghost function GetAll<T(!new)>(n: nat, b: Bytes, get: Bytes -> Parsed<T>): (r: Parsed<seq<T>>)
    requires Shrinks(get)
    ensures r.Got? ==> |r.rest| <= |b| && |r.value| == n
    decreases n
  {
    if n == 0 then Got([], b)
    else
      var x :- get(b);
      var xs :- GetAll(n - 1, x.1, get);
      Got([x.0] + xs.0, xs.1)
  }

  function PutList<T>(xs: seq<T>, put: T -> Bytes): Bytes { Put32(|xs|) + PutAll(xs, put) }

  ghost function GetList<T(!new)>(b: Bytes, get: Bytes -> Parsed<T>): (r: Parsed<seq<T>>)
    requires Shrinks(get)
    ensures r.Got? ==> |r.rest| + 4 <= |b|
  {
    var n :- Get32(b);
    GetAll(n.0, n.1, get)
  }

  // Reading back x, and exactly its bytes, in front of any t.
  ghost predicate ReadsBack<T(!new)>(x: T, put: T -> Bytes, get: Bytes -> Parsed<T>)
  {
    forall t :: |put(x) + t| < WORDS32 ==> get(put(x) + t) == Got(x, t)
  }

  lemma {:induction false} AllRoundTrip<T(!new)>(xs: seq<T>, put: T -> Bytes, get: Bytes -> Parsed<T>, t: Bytes)
    requires Shrinks(get) && forall i :: 0 <= i < |xs| ==> ReadsBack(xs[i], put, get)
    requires |PutAll(xs, put) + t| < WORDS32
    ensures GetAll(|xs|, PutAll(xs, put) + t, get) == Got(xs, t)
  {
    if xs == [] {
      assert PutAll(xs, put) + t == t;
    } else {
      var rest := PutAll(xs[1..], put) + t;
      assert PutAll(xs, put) + t == put(xs[0]) + rest;
      assert ReadsBack(xs[0], put, get);
      hide ReadsBack;
      AllRoundTrip(xs[1..], put, get, t);
      assert xs == [xs[0]] + xs[1..];
    }
  }

  lemma ListRoundTrip<T(!new)>(xs: seq<T>, put: T -> Bytes, get: Bytes -> Parsed<T>, t: Bytes)
    requires Shrinks(get) && forall i :: 0 <= i < |xs| ==> ReadsBack(xs[i], put, get)
    requires |xs| < WORDS32 && |PutList(xs, put) + t| < WORDS32
    ensures GetList(PutList(xs, put) + t, get) == Got(xs, t)
  {
    hide Put32, Get32, PutAll, GetAll, Shrinks, ReadsBack;
    assert PutList(xs, put) + t == Put32(|xs|) + (PutAll(xs, put) + t);
    Word32RoundTrip(|xs|, PutAll(xs, put) + t);
    assert |xs| % WORDS32 == |xs|;
    AllRoundTrip(xs, put, get, t);
  }

  // What is read has the property every read element has.
  lemma {:induction false} AllHave<T(!new)>(n: nat, b: Bytes, get: Bytes -> Parsed<T>, has: T -> bool)
    requires Shrinks(get) && forall s :: get(s).Got? ==> has(get(s).value)
    ensures var r := GetAll(n, b, get); r.Got? ==> forall i :: 0 <= i < |r.value| ==> has(r.value[i])
    decreases n
  {
    if n > 0 && get(b).Got? {
      AllHave(n - 1, get(b).rest, get, has);
    }
  }

  // ----- constants -----

  const TAG_NIL: Byte := 0
  const TAG_BOOL: Byte := 1
  const TAG_NUMBER: Byte := 2
  const TAG_STRING: Byte := 3
  const TAG_AGENT: Byte := 4

  predicate IsSpace(b: Byte) { b == 32 || 9 <= b <= 13 }

  function TrimLeft(s: Bytes): (t: Bytes)
    ensures |t| <= |s| && (t != [] ==> !IsSpace(t[0]))
  {
    if s != [] && IsSpace(s[0]) then TrimLeft(s[1..]) else s
  }

  function TrimRight(s: Bytes): (t: Bytes)
    ensures |t| <= |s| && (t != [] ==> !IsSpace(t[|t| - 1]))
  {
    if s != [] && IsSpace(s[|s| - 1]) then TrimRight(s[..|s| - 1]) else s
  }

  function LowerByte(b: Byte): Byte { if 65 <= b <= 90 then b + 32 else b }

  function Lower(s: Bytes): (t: Bytes)
    ensures |t| == |s| && forall i :: 0 <= i < |s| ==> t[i] == LowerByte(s[i])
  {
    seq(|s|, i requires 0 <= i < |s| => LowerByte(s[i]))
  }

  predicate IsHexByte(b: Byte) { 48 <= b <= 57 || 97 <= b <= 102 }

  // "0x" and 64 lower-case hexadecimal digits
  predicate CanonicalAgent(s: Bytes)
  {
    |s| == 66 && s[0] == 48 && s[1] == 120 && forall i :: 2 <= i < 66 ==> IsHexByte(s[i])
  }

  // parseAgentString
  function ParseAgent(raw: Bytes): Option<Bytes>
  {
    var norm := Lower(TrimRight(TrimLeft(raw)));
    if CanonicalAgent(norm) then Some(norm) else None
  }

  // An address reads back as written exactly when it is written canonically.
  lemma AgentUnchanged(s: Bytes)
    ensures ParseAgent(s) == Some(s) <==> CanonicalAgent(s)
  {
    if CanonicalAgent(s) {
      assert IsHexByte(s[65]);
      assert TrimLeft(s) == s && TrimRight(s) == s;
      assert Lower(s) == s;
    }
  }

  function PutNumber(n: U256): (b: Bytes)
    ensures |b| == 32
  {
    Put64(n.lo) + Put64(n.ml) + Put64(n.mh) + Put64(n.hi)
  }

  lemma LittleWord(b: Bytes)
    requires |b| == 8
    ensures GetLittle(b) < BASE
  {
    LittleBelow(b);
    assert Power256(8) == BASE by {
      assert Power256(1) == 0x100 && Power256(2) == 0x1_0000 && Power256(4) == 0x1_0000_0000;
    }
  }

  function GetWord(b: Bytes): Word
    requires |b| == 8
  {
    LittleWord(b);
    GetLittle(b)
  }

  function GetNumber(b: Bytes): (r: Parsed<U256>)
    ensures r.Got? ==> |r.rest| + 32 == |b|
  {
    if |b| < 32 then Short
    else Got(U256(GetWord(b[..8]), GetWord(b[8..16]), GetWord(b[16..24]), GetWord(b[24..32])), b[32..])
  }

  lemma WordRoundTrip(w: Word)
    ensures GetWord(Put64(w)) == w
  {
    assert Power256(8) == BASE by {
      assert Power256(1) == 0x100 && Power256(2) == 0x1_0000 && Power256(4) == 0x1_0000_0000;
    }
    LittleRoundTrip(w, 8);
  }

  lemma NumberRoundTrip(n: U256, t: Bytes)
    ensures GetNumber(PutNumber(n) + t) == Got(n, t)
  {
    hide Put64, GetWord;
    var b := PutNumber(n) + t;
    assert b[..8] == Put64(n.lo) && b[8..16] == Put64(n.ml) && b[16..24] == Put64(n.mh) && b[24..32] == Put64(n.hi);
    assert b[32..] == t;
    WordRoundTrip(n.lo);
    WordRoundTrip(n.ml);
    WordRoundTrip(n.mh);
    WordRoundTrip(n.hi);
  }

  // writeConst; constants of other types are refused
  function PutConst(c: Const): Bytes
  {
    match c
    case CNil => [TAG_NIL]
    case CBool(b) => [TAG_BOOL, if b then 1 else 0]
    case CNumber(n) => [TAG_NUMBER] + PutNumber(n)
    case CString(s) => [TAG_STRING] + PutString(s)
    case CAgent(s) => [TAG_AGENT] + PutString(s)
    case COther => []
  }

  function GetByte(b: Bytes): (r: Parsed<Byte>)
    ensures r.Got? ==> |r.rest| + 1 == |b|
  {
    if b == [] then Short else Got(b[0], b[1..])
  }

  // readConst
  function GetConst(b: Bytes): (r: Parsed<Const>)
    ensures r.Got? ==> |r.rest| < |b|
  {
    var tag :- GetByte(b);
    if tag.0 == TAG_NIL then Got(CNil, tag.1)
    else if tag.0 == TAG_BOOL then
      var v :- GetByte(tag.1);
      Got(CBool(v.0 != 0), v.1)
    else if tag.0 == TAG_NUMBER then
      var n :- GetNumber(tag.1);
      Got(CNumber(n.0), n.1)
    else if tag.0 == TAG_STRING then
      var s :- GetString(tag.1);
      Got(CString(s.0), s.1)
    else if tag.0 == TAG_AGENT then
      var s :- GetString(tag.1);
      if ParseAgent(s.0).Some? then Got(CAgent(ParseAgent(s.0).value), s.1) else Short
    else Short
  }

  predicate EncodableConst(c: Const)
  {
    !c.COther? && (c.CString? ==> |c.s| < WORDS32) && (c.CAgent? ==> CanonicalAgent(c.s))
  }

  lemma ConstReadsBack(c: Const)
    requires EncodableConst(c)
    ensures ReadsBack(c, PutConst, GetConst)
  {
    forall t | |PutConst(c) + t| < WORDS32 ensures GetConst(PutConst(c) + t) == Got(c, t) {
      ConstRoundTrip(c, t);
    }
  }

  lemma ConstRoundTrip(c: Const, t: Bytes)
    requires EncodableConst(c) && |PutConst(c) + t| < WORDS32
    ensures GetConst(PutConst(c) + t) == Got(c, t)
  {
    hide PutNumber, GetNumber, PutString, GetString, ParseAgent, CanonicalAgent;
    var b := PutConst(c) + t;
    match c
    case CNil => assert b[1..] == t;
    case CBool(v) => assert b[1..] == [if v then 1 else 0] + t; assert b[1..][1..] == t;
    case CNumber(n) => assert b[1..] == PutNumber(n) + t; NumberRoundTrip(n, t);
    case CString(s) => assert b[1..] == PutString(s) + t; StringRoundTrip(s, t);
    case CAgent(s) => assert b[1..] == PutString(s) + t; StringRoundTrip(s, t); AgentUnchanged(s);
  }

  lemma ConstEncodable(b: Bytes)
    ensures GetConst(b).Got? ==> EncodableConst(GetConst(b).value)
  {
    if b != [] {
      StringBelow(b[1..]);
    }
  }
}
