/**
 The loops of the ABI encoder and decoder of the generated prelude, against their meaning.
 */
module Abi {
  import opened Options
  import opened Uint256
  import opened Decimal
  import opened AbiSpec
  import opened AbiLayout

  // ----- helpers -----

  // __tol_hex_payload
  method HexPayload(data: string) returns (r: Option<string>)
    ensures r == Payload(data)
  {
    if !Has0x(data) {
      return None;
    }
    var rest := data[2..];
    if |rest| % 2 != 0 {
      return None;
    }
    for i := 0 to |rest|
      invariant AllHex(rest[..i])
    {
      if !IsHexChar(rest[i]) {
        return None;
      }
    }
    assert rest[..|rest|] == rest;
    return Some(Lower(rest));
  }

  // __tol_all_zero_hex
  method AllZeroHex(s: string) returns (b: bool)
    ensures b == AllZero(s)
  {
    for i := 0 to |s|
      invariant AllZero(s[..i])
    {
      if s[i] != '0' {
        return false;
      }
    }
    return true;
  }

  lemma NoPrefix(s: string)
    requires AllHex(s)
    ensures StripHexPrefix(s) == s && (s != "" ==> s[0] != '-')
  {
    if |s| >= 2 {
      assert s[..2][1] == s[1] && "0x"[1] == 'x' && "0X"[1] == 'X';
    }
  }

  // tonumber(s, 16) of hexadecimal digits
  method ToNumber(s: string) returns (r: Option<Number>)
    requires AllHex(s)
    ensures r == HexNumber(s)
  {
    NoPrefix(s);
    hide Positional, AllHex;
    var v := ParseBase(s, 16);
    r := if v.None? then None else Some(Nat(v.value));
  }

  method TextToHex(v: string) returns (hex: string)
    ensures hex == TextHex(v)
  {
    hex := "";
    for i := 0 to |v|
      invariant hex == TextHex(v[..i])
    {
      assert v[..i + 1][..i] == v[..i];
      hex := hex + Fixed(v[i] as int % 256, 16, 2);
    }
    assert v[..|v|] == v;
  }

  // __tol_enc
  method Enc(v: Value) returns (key: Option<string>)
    requires !v.Bool? && !v.Str?
    ensures key == Slot(v, AgentT)
  {
    if v.Num? {
      key := EncodeKey(FromNat(v.n));
    } else if v.Agent? {
      key := AgentKey(v.a);
    } else {
      key := None;
    }
  }

  // ----- encoding -----

  method BytesSlotOf(v: Value, n: nat) returns (slot: string)
    ensures slot == BytesSlot(v, n)
  {
    var hexVal := "";
    if v.Str? && Has0x(v.s) {
      hexVal := Lower(v.s[2..]);
    }
    hide Lower, Has0x;
    var data := if |hexVal| > 2 * n then hexVal[..2 * n] else hexVal;
    var padData := n * 2 - |data|;
    if padData > 0 {
      data := data + Zeros(padData);
    }
    assert data == if |hexVal| > 2 * n then hexVal[..2 * n] else hexVal + Zeros(2 * n - |hexVal|);
    slot := data + Zeros(64 - |data|);
  }

  method HexOrTextSlot(v: string) returns (slot: string)
    ensures slot == RightAligned(if Has0x(v) then Lower(v[2..]) else TextHex(v))
  {
    var hex;
    if Has0x(v) {
      hex := Lower(v[2..]);
    } else {
      hex := TextToHex(v);
    }
    hide Lower, Has0x, TextHex;
    if |hex| > 64 {
      hex := hex[|hex| - 64..];
      assert Zeros(64 - |hex|) + hex == hex;
    }
    var pad := 64 - |hex|;
    slot := Zeros(pad) + hex;
  }

  // __tol_abi_slot_static
  method SlotStatic(v: Value, b: Base) returns (slot: Option<string>)
    ensures slot == Slot(v, b)
  {
    hide BytesSlot, RightAligned, BoolSlot;
    if b.BoolT? {
      return Some(BoolSlot(Truthy(v)));
    }
    if b.BytesT? {
      var s := BytesSlotOf(v, b.n);
      return Some(s);
    }
    if v.Bool? {
      return Some(BoolSlot(v.b));
    }
    if v.Str? {
      var s := HexOrTextSlot(v.s);
      return Some(s);
    }
    slot := Enc(v);
  }

  lemma {:induction false} SlotsNone(items: seq<Value>, b: Base, k: nat)
    requires k <= |items| && Slots(items[..k], b).None?
    ensures Slots(items, b).None?
  {
    if k == |items| {
      assert items[..k] == items;
    } else {
      assert items[..|items| - 1][..k] == items[..k];
      SlotsNone(items[..|items| - 1], b, k);
    }
  }

  // __tol_abi_tail_dynamic
  method TailDynamic(v: Value, b: Base) returns (tail: Option<string>)
    ensures tail == Tail(v, b)
  {
    if !v.Arr? {
      return Some("");
    }
    var elems := "";
    hide Slot;
    for i := 0 to |v.items|
      invariant Slots(v.items[..i], b) == Some(elems)
    {
      var slot := SlotStatic(v.items[i], b);
      assert v.items[..i + 1][..i] == v.items[..i];
      if slot.None? {
        SlotsNone(v.items, b, i + 1);
        return None;
      }
      elems := elems + slot.value;
    }
    assert v.items[..|v.items|] == v.items;
    return Some(Hex64(|v.items|) + elems);
  }

  // Slots and tails are whole bytes.
  lemma {:induction false} SlotsEven(items: seq<Value>, b: Base)
    ensures Slots(items, b).Some? ==> Even(|Slots(items, b).value|)
  {
    SlotEven();
    assert Even(0);
    hide Slot, Even;
    if items != [] && Slots(items, b).Some? {
      var n := |items| - 1;
      SlotsEven(items[..n], b);
      OneSlotEven(items[n], b);
      EvenSum(|Slots(items[..n], b).value|, |Slot(items[n], b).value|);
    }
  }

  lemma OneSlotEven(v: Value, b: Base)
    requires Slot(v, b).Some?
    ensures Even(|Slot(v, b).value|)
  {
    if b.BytesT? {
      var n := 2 * b.n;
      assert |BytesSlot(v, b.n)| == if n > 64 then n else 64;
    }
  }

  lemma TailEven(v: Value, b: Base)
    requires Tail(v, b).Some?
    ensures Whole(Tail(v, b).value)
  {
    assert Even(0);
    hide Even, Slots;
    if v.Arr? {
      SlotsEven(v.items, b);
      SlotEven();
      EvenSum(64, |Slots(v.items, b).value|);
    }
  }

  function Bytes(hex: string): nat { |hex| / 2 }

  predicate Whole(hex: string) { Even(|hex|) }

  lemma BytesSum(s: string, t: string)
    requires Whole(s) && Whole(t)
    ensures Whole(s + t) && Bytes(s + t) == Bytes(s) + Bytes(t)
  {
  }

  lemma OffsetOf(count: nat, tail: string)
    ensures Offset(count, tail) == count * 32 + Bytes(tail)
  {
  }

  // __tol_abi_encode_v2
  method EncodeV2(args: seq<(Value, Type)>) returns (r: Option<string>)
    ensures r == Encoded(args)
  {
    var nargs := |args|;
    var headBytes := nargs * 32;
    var head, tail := "", "";
    var curTailBytes: nat := 0;
    assert Whole("") && Bytes("") == 0 && Layout([], nargs) == Some(("", ""));
    hide Slot, Tail, Hex64, Even, Layout, Whole, Bytes, Offset;
    for i := 0 to nargs
      invariant Layout(args[..i], nargs) == Some((head, tail))
      invariant Whole(tail) && curTailBytes == Bytes(tail)
    {
      var (v, typ) := args[i];
      assert args[..i + 1] == args[..i] + [args[i]];
      if typ.Array? {
        var offset := headBytes + curTailBytes;
        var td := TailDynamic(v, typ.elem);
        if td.None? {
          LayoutStops(args, nargs, i);
          return None;
        }
        OffsetOf(nargs, tail);
        LayoutDynamic(args[..i], nargs, head, tail, args[i], td.value);
        TailEven(v, typ.elem);
        BytesSum(tail, td.value);
        head := head + Hex64(offset);
        tail := tail + td.value;
        curTailBytes := curTailBytes + Bytes(td.value);
      } else {
        var slot := SlotStatic(v, typ.base);
        if slot.None? {
          LayoutStops(args, nargs, i);
          return None;
        }
        LayoutStatic(args[..i], nargs, head, tail, args[i], slot.value);
        head := head + slot.value;
      }
    }
    assert args[..nargs] == args;
    return Some(Prefixed(head + tail));
  }

  // An argument that cannot be encoded ends the encoding.
  lemma LayoutStops(args: seq<(Value, Type)>, count: nat, i: nat)
    requires i < |args|
    requires if args[i].1.Array? then Tail(args[i].0, args[i].1.elem).None? else Slot(args[i].0, args[i].1.base).None?
    ensures Layout(args, count).None?
  {
    hide Tail, Slot;
    assert args[..i + 1][..i] == args[..i];
    assert Layout(args[..i + 1], count).None?;
    hide Layout;
    if Layout(args, count).Some? {
      LayoutPrefix(args, count, i + 1);
    }
  }

  // ----- decoding -----

  lemma LowerIsHex(s: string)
    requires LowerHex(s)
    ensures AllHex(s)
  {
  }

  lemma LowerSub(s: string, i: Number, j: Number)
    requires LowerHex(s)
    ensures LowerHex(AbiSpec.Sub(s, i, j)) && AllHex(AbiSpec.Sub(s, i, j))
  {
  }

  method ParseInteger(digits: string) returns (r: Option<Value>)
    requires LowerHex(digits)
    ensures r == ParseDigits(digits)
  {
    if digits == "" {
      return Some(Num(0));
    }
    LowerIsHex(digits);
    var n := ToNumber(digits);
    if n.None? {
      return None;
    }
    return Some(Num(n.value));
  }

  // __tol_abi_decode_typed, after the check of the payload, of a type with a slot of its own
  method DecodeStatic(payload: string, b: Base) returns (r: Option<Value>)
    requires LowerHex(payload)
    ensures r == DecodeBase(payload, b)
  {
    hide ParseDigits, Prefixed;
    if b.BoolT? {
      var zero := AllZeroHex(payload);
      return Some(Bool(!zero));
    }
    if b.AgentT? {
      if |payload| != 64 {
        return None;
      }
      return Some(Str(Prefixed(payload)));
    }
    if b.BytesT? {
      if !(1 <= b.n <= 32) {
        return None;
      }
      var wantChars := b.n * 2;
      if |payload| == wantChars {
        return Some(Str(Prefixed(payload)));
      } else if |payload| >= 64 {
        return Some(Str(Prefixed(payload[..wantChars])));
      } else {
        return None;
      }
    }
    if !Width(b.n) {
      return None;
    }
    var digits := b.n / 4;
    if b.UintT? && |payload| > digits {
      var zero := AllZeroHex(payload[..|payload| - digits]);
      if !zero {
        return None;
      }
    }
    var tail := payload;
    if |tail| > digits {
      tail := payload[|payload| - digits..];
    }
    r := ParseInteger(tail);
  }

  lemma {:induction false} ItemsNone(payload: string, k: nat, n: nat, b: Base)
    requires k <= n && DecodeItems(payload, k, b).None?
    ensures DecodeItems(payload, n, b).None?
    decreases n
  {
    hide DecodeSlot, Index;
    if k < n {
      ItemsNone(payload, k, n - 1, b);
    }
  }

  // Element i of an array, by the recursive call.
  method Element(payload: string, i: nat, b: Base) returns (r: Option<Value>)
    requires LowerHex(payload) && i >= 1
    ensures r == DecodeSlot(payload, Index(64 + (i - 1) * 64 + 1), Index(64 + i * 64), b)
  {
    hide DecodeBase, Payload, Prefixed, AbiSpec.Sub, Index, LowerHex;
    var slotHex := AbiSpec.Sub(payload, Index(64 + (i - 1) * 64 + 1), Index(64 + i * 64));
    var p := HexPayload(Prefixed(slotHex));
    if p.None? {
      return None;
    }
    PayloadLower(Prefixed(slotHex));
    r := DecodeStatic(p.value, b);
  }

  method Elements(payload: string, n: nat, b: Base) returns (result: Option<seq<Value>>)
    requires LowerHex(payload)
    ensures result == DecodeItems(payload, n, b)
  {
    hide DecodeSlot, Index, LowerHex;
    var items := [];
    for i := 1 to n + 1
      invariant DecodeItems(payload, i - 1, b) == Some(items)
    {
      var item := Element(payload, i, b);
      if item.None? {
        ItemsNone(payload, i, n, b);
        return None;
      }
      items := items + [item.value];
    }
    return Some(items);
  }

  // __tol_abi_decode_typed
  method DecodeTyped(data: string, typ: Type) returns (r: Option<Value>)
    ensures r == Decoded(data, typ)
  {
    var p := HexPayload(data);
    if p.None? {
      return None;
    }
    PayloadLower(data);
    var payload := p.value;
    hide Payload, DecodeBase, DecodeItems, HexNumber, AbiSpec.Sub, LowerHex, AllHex;
    if typ.Static? {
      r := DecodeStatic(payload, typ.base);
    } else {
      LowerSub(payload, 1, 64);
      var length := ToNumber(AbiSpec.Sub(payload, 1, 64));
      var items := Elements(payload, OrZero(length), typ.elem);
      r := if items.None? then None else Some(Arr(items.value));
    }
  }

  lemma {:induction false} ComponentsNone(payload: string, types: seq<Type>, k: nat)
    requires k <= |types| && Components(payload, types[..k]).None?
    ensures Components(payload, types).None?
  {
    hide Component;
    if k == |types| {
      assert types[..k] == types;
    } else {
      assert types[..|types| - 1][..k] == types[..k];
      ComponentsNone(payload, types[..|types| - 1], k);
    }
  }

  // Component i of a tuple: from its slot, or from where the offset in the slot points.
  method ComponentAt(payload: string, i: nat, typ: Type) returns (item: Option<Value>)
    requires LowerHex(payload)
    ensures item == Component(payload, i, typ)
  {
    hide Decoded, HexNumber, AbiSpec.Sub, LowerHex, AllHex, Index, Prefixed;
    var slotHex := AbiSpec.Sub(payload, Index(i * 64 + 1), Index((i + 1) * 64));
    if typ.Array? {
      LowerSub(payload, Index(i * 64 + 1), Index((i + 1) * 64));
      var offset := ToNumber(slotHex);
      var offsetChars := OrZero(offset) * 2 % BASE4;
      item := DecodeTyped(Prefixed(AbiSpec.Sub(payload, Index(offsetChars + 1), LAST)), typ);
    } else {
      item := DecodeTyped(Prefixed(slotHex), typ);
    }
  }

  // __tol_abi_decode_tuple
  method DecodeTuple(data: string, types: seq<Type>) returns (r: Option<seq<Value>>)
    ensures r == DecodedTuple(data, types)
  {
    if types == [] {
      return None;
    }
    var p := HexPayload(data);
    if p.None? {
      return None;
    }
    PayloadLower(data);
    var payload, results := p.value, [];
    hide Payload, Component, LowerHex;
    for i := 0 to |types|
      invariant Components(payload, types[..i]) == Some(results)
    {
      var item := ComponentAt(payload, i, types[i]);
      assert types[..i + 1][..i] == types[..i];
      if item.None? {
        ComponentsNone(payload, types, i + 1);
        return None;
      }
      results := results + [item.value];
    }
    assert types[..|types|] == types;
    return Some(results);
  }
}
