/**
 The meaning of the ABI encoder and decoder of the generated prelude: 32-byte slots, the head and
 tail layout of a tuple, and what decoding any data gives.
 */
module AbiSpec {
  import opened Options
  import opened Uint256
  import opened Decimal

  type Number = n: nat | n < BASE4

  datatype Value =
    | Nil | Bool(b: bool) | Num(n: Number) | Str(s: string) | Agent(a: string) | Arr(items: seq<Value>) | Other

  // The types with a slot of their own, and arrays of them.
  datatype Base = BoolT | AgentT | BytesT(n: nat) | UintT(n: nat) | IntT(n: nat)
  datatype Type = Static(base: Base) | Array(elem: Base)

  const MAX_LEN := 0x8000_0000_0000_0000

  // ----- characters -----

  predicate IsHexChar(c: char) { '0' <= c <= '9' || 'a' <= c <= 'f' || 'A' <= c <= 'F' }

  predicate AllHex(s: string) { forall i :: 0 <= i < |s| ==> IsHexChar(s[i]) }

  predicate LowerHex(s: string) { forall i :: 0 <= i < |s| ==> '0' <= s[i] <= '9' || 'a' <= s[i] <= 'f' }

  function LowerChar(c: char): char { if 'A' <= c <= 'Z' then 'a' + (c - 'A') else c }

  function Lower(s: string): string { seq(|s|, i requires 0 <= i < |s| => LowerChar(s[i])) }

  function Zeros(k: int): (s: string)
    ensures |s| == if k <= 0 then 0 else k
    ensures forall i :: 0 <= i < |s| ==> s[i] == '0'
  {
    if k <= 0 then "" else seq(k, _ => '0')
  }

  predicate AllZero(s: string) { forall i :: 0 <= i < |s| ==> s[i] == '0' }

  function Prefixed(hex: string): string { "0x" + hex }

  predicate Has0x(s: string) { HasPrefix(s, "0x") }

  // string.format("%064x", n): the low 64 bits of n
  function Hex64(n: nat): (s: string)
    ensures |s| == 64
  {
    Fixed(n % 0x1_0000_0000_0000_0000, 16, 64)
  }

  // tonumber(s, 16), for hexadecimal digits: modulo 2^256
  function HexNumber(s: string): Option<Number>
  {
    if s == "" || Positional(s, 16).None? then None else Some(Positional(s, 16).value % BASE4)
  }

  function OrZero(r: Option<Number>): Number { if r.None? then 0 else r.value }

  // ----- string.sub -----

  // A number as a position: large ones are negative positions or none.
  function Position(v: Number): Option<int>
  {
    var low := v % 0x1_0000_0000_0000_0000;
    if v < BASE4 / 2 then (if v < MAX_LEN then Some(v) else None)
    else if v < BASE4 - 0x1_0000_0000_0000_0000 then None
    else Some(if low < MAX_LEN then low else low - 0x1_0000_0000_0000_0000)
  }

  function StringIndex(len: nat, v: Number, start: bool): nat
  {
    var p := Position(v);
    if p.None? then (if v < BASE4 / 2 then len else 0)
    else
      var i := if start && p.value != 0 then p.value - 1 else p.value;
      var j := if i < 0 then len + i + 1 else i;
      if j < 0 then 0 else if !start && j > len then len else j
  }

  function Sub(s: string, i: Number, j: Number): string
  {
    var start, end := StringIndex(|s|, i, true), StringIndex(|s|, j, false);
    if start >= |s| || end < start then "" else s[start..end]
  }

  // The common case: positions within the string.
  lemma SubWithin(s: string, i: Number, j: Number)
    requires 1 <= i <= j + 1 && j <= |s| < MAX_LEN
    ensures Sub(s, i, j) == s[i - 1..j]
  {
  }

  function Index(i: int): Number { i % BASE4 }

  const LAST: Number := BASE4 - 1

  lemma SubFrom(s: string, i: Number)
    requires 1 <= i <= |s| + 1 && |s| < MAX_LEN
    ensures Sub(s, i, LAST) == s[i - 1..]
  {
  }

  // ----- encoding -----

  function TextHex(s: string): string
  {
    if s == "" then "" else TextHex(s[..|s| - 1]) + Fixed(s[|s| - 1] as int % 256, 16, 2)
  }

  // The last 64 characters, filled up with zeros on the left.
  function RightAligned(hex: string): (s: string)
    ensures |s| == 64
  {
    if |hex| > 64 then hex[|hex| - 64..] else Zeros(64 - |hex|) + hex
  }

  // encodeHexTo32: whole bytes, at most 32 of them
  function AgentKey(s: string): Option<string>
  {
    var hex := StripHexPrefix(s);
    if |hex| % 2 != 0 || !AllHex(hex) || |hex| > 64 then None else Some(RightAligned(Lower(hex)))
  }

  function BoolSlot(b: bool): (s: string)
    ensures |s| == 64
  {
    if b then Zeros(63) + "1" else Zeros(64)
  }

  predicate Truthy(v: Value) { v != Nil && v != Bool(false) }

  function BytesSlot(v: Value, n: nat): string
  {
    var hex := if v.Str? && Has0x(v.s) then Lower(v.s[2..]) else "";
    var cut := if |hex| > 2 * n then hex[..2 * n] else hex + Zeros(2 * n - |hex|);
    cut + Zeros(64 - |cut|)
  }

  // __tol_abi_slot_static; nothing where it raises
  function Slot(v: Value, b: Base): Option<string>
  {
    if b.BoolT? then Some(BoolSlot(Truthy(v)))
    else if b.BytesT? then Some(BytesSlot(v, b.n))
    else if v.Bool? then Some(BoolSlot(v.b))
    else if v.Str? then Some(RightAligned(if Has0x(v.s) then Lower(v.s[2..]) else TextHex(v.s)))
    else if v.Agent? then AgentKey(v.a)
    else if v.Num? then Some(Fixed(v.n, 16, 64))
    else None
  }

  function Slots(items: seq<Value>, b: Base): Option<string>
  {
    if items == [] then Some("")
    else
      var rest, last := Slots(items[..|items| - 1], b), Slot(items[|items| - 1], b);
      if rest.None? || last.None? then None else Some(rest.value + last.value)
  }

  // __tol_abi_tail_dynamic of an array
  function Tail(v: Value, b: Base): Option<string>
  {
    if !v.Arr? then Some("")
    else
      var elems := Slots(v.items, b);
      if elems.None? then None else Some(Hex64(|v.items|) + elems.value)
  }

  // The offset of the next tail, in bytes.
  function Offset(count: nat, tail: string): nat { count * 32 + |tail| / 2 }

  // Head and tail of the first arguments, out of `count`.
  function Layout(args: seq<(Value, Type)>, count: nat): Option<(string, string)>
  {
    if args == [] then Some(("", ""))
    else
      var before, (v, typ) := Layout(args[..|args| - 1], count), args[|args| - 1];
      if before.None? then None
      else if typ.Array? then
        var td := Tail(v, typ.elem);
        if td.None? then None
        else Some((before.value.0 + Hex64(Offset(count, before.value.1)), before.value.1 + td.value))
      else
        var slot := Slot(v, typ.base);
        if slot.None? then None else Some((before.value.0 + slot.value, before.value.1))
  }

  // __tol_abi_encode_v2
  function Encoded(args: seq<(Value, Type)>): Option<string>
  {
    var l := Layout(args, |args|);
    if l.None? then None else Some(Prefixed(l.value.0 + l.value.1))
  }

  // ----- decoding -----

  // __tol_hex_payload
  function Payload(data: string): Option<string>
  {
    if !Has0x(data) || |data| % 2 != 0 || !AllHex(data[2..]) then None else Some(Lower(data[2..]))
  }

  function LastDigits(payload: string, digits: nat): string
  {
    if |payload| > digits then payload[|payload| - digits..] else payload
  }

  predicate Width(n: nat) { 8 <= n <= 256 && n % 8 == 0 }

  // __tol_abi_decode_typed of a type with a slot of its own, on a payload
  function DecodeBase(payload: string, b: Base): Option<Value>
  {
    match b
    case BoolT => Some(Bool(!AllZero(payload)))
    case AgentT => if |payload| != 64 then None else Some(Str(Prefixed(payload)))
    case BytesT(n) =>
      if !(1 <= n <= 32) then None
      else if |payload| == 2 * n then Some(Str(Prefixed(payload)))
      else if |payload| >= 64 then Some(Str(Prefixed(payload[..2 * n])))
      else None
    case UintT(n) =>
      if !Width(n) then None
      else if |payload| > n / 4 && !AllZero(payload[..|payload| - n / 4]) then None
      else ParseDigits(LastDigits(payload, n / 4))
    case IntT(n) =>
      if !Width(n) then None else ParseDigits(LastDigits(payload, n / 4))
  }

  function ParseDigits(digits: string): Option<Value>
  {
    if digits == "" then Some(Num(0))
    else
      var n := HexNumber(digits);
      if n.None? then None else Some(Num(n.value))
  }

  function DecodeSlot(payload: string, i: Number, j: Number, b: Base): Option<Value>
  {
    var part := Payload(Prefixed(Sub(payload, i, j)));
    if part.None? then None else DecodeBase(part.value, b)
  }

  // The first n elements of an array.
  function DecodeItems(payload: string, n: nat, b: Base): Option<seq<Value>>
  {
    if n == 0 then Some([])
    else
      var before := DecodeItems(payload, n - 1, b);
      if before.None? then None
      else
        var last := DecodeSlot(payload, Index(64 + (n - 1) * 64 + 1), Index(64 + n * 64), b);
        if last.None? then None else Some(before.value + [last.value])
  }

  // __tol_abi_decode_typed
  function Decoded(data: string, typ: Type): Option<Value>
  {
    var payload := Payload(data);
    if payload.None? then None
    else if typ.Static? then DecodeBase(payload.value, typ.base)
    else
      var items := DecodeItems(payload.value, OrZero(HexNumber(Sub(payload.value, 1, 64))), typ.elem);
      if items.None? then None else Some(Arr(items.value))
  }

  // Component i of a tuple.
  function Component(payload: string, i: nat, typ: Type): Option<Value>
  {
    var slot := Sub(payload, Index(i * 64 + 1), Index((i + 1) * 64));
    if typ.Static? then Decoded(Prefixed(slot), typ)
    else Decoded(Prefixed(Sub(payload, Index(OrZero(HexNumber(slot)) * 2 % BASE4 + 1), LAST)), typ)
  }

  function Components(payload: string, types: seq<Type>): Option<seq<Value>>
  {
    if types == [] then Some([])
    else
      var i := |types| - 1;
      var before, last := Components(payload, types[..i]), Component(payload, i, types[i]);
      if before.None? || last.None? then None else Some(before.value + [last.value])
  }

  // __tol_abi_decode_tuple
  function DecodedTuple(data: string, types: seq<Type>): Option<seq<Value>>
  {
    if types == [] || Payload(data).None? then None else Components(Payload(data).value, types)
  }

  // ----- canonical values -----

  predicate HexString(v: Value, digits: nat)
  {
    v.Str? && |v.s| == digits + 2 && v.s[0] == '0' && v.s[1] == 'x' && LowerHex(v.s[2..])
  }

  // The form decoding gives the values of a type.
  predicate CanonicalBase(v: Value, b: Base)
  {
    match b
    case BoolT => v.Bool?
    case AgentT => HexString(v, 64)
    case BytesT(n) => 1 <= n <= 32 && HexString(v, 2 * n)
    case UintT(n) => Width(n) && v.Num? && v.n < Power(2, n)
    case IntT(n) => Width(n) && v.Num? && v.n < Power(2, n)
  }

  predicate Canonical(v: Value, typ: Type)
  {
    if typ.Static? then CanonicalBase(v, typ.base)
    else v.Arr? && forall i :: 0 <= i < |v.items| ==> CanonicalBase(v.items[i], typ.elem)
  }
}
