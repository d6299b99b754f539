/**
 Decoding what was encoded: slots, arrays, and the tuple layout with its offsets.
 */
module AbiLayout {
  import opened Options
  import opened Uint256
  import opened Division
  import opened Decimal
  import opened AbiSpec

  // ----- even lengths -----

  predicate Even(n: nat) { n % 2 == 0 }

  lemma EvenSum(m: nat, n: nat)
    requires Even(m) && Even(n)
    ensures Even(m + n)
  {
  }

  lemma EvenDifference(m: nat, offset: nat, n: nat)
    requires Even(m) && Even(n) && 2 * offset + n <= m
    ensures Even(m - 2 * offset - n)
  {
  }

  lemma HeadEven(count: nat)
    ensures Even(count * 64)
  {
  }

  lemma SlotEven()
    ensures Even(64)
  {
  }

  // ----- hexadecimal numerals -----

  lemma {:induction false} FixedLower(n: nat, k: nat)
    ensures LowerHex(Fixed(n, 16, k))
  {
    if k > 0 {
      FixedLower(n / 16, k - 1);
    }
  }

  lemma {:induction false} FixedZero(k: nat)
    ensures Fixed(0, 16, k) == Zeros(k)
  {
    if k > 0 {
      FixedZero(k - 1);
    }
  }

  // A number of at most d digits.
  lemma FixedSplit(x: nat, d: nat)
    requires d <= 64 && x < Power(16, d)
    ensures Fixed(x, 16, 64) == Zeros(64 - d) + Fixed(x, 16, d)
  {
    FixedZero(64 - d);
    hide Fixed, Power, Zeros;
    FixedJoin(0, x, 64 - d, d);
    assert 0 * Power(16, d) + x == x;
  }

  lemma {:induction false} SixteenIsFourTwos(d: nat)
    ensures Power(16, d) == Power(2, 4 * d)
  {
    if d > 0 {
      SixteenIsFourTwos(d - 1);
      PowerAdd(2, 4, 4 * (d - 1));
      assert Power(2, 4) == 16;
    }
  }

  lemma {:induction false} PowerGrows(base: nat, m: nat, n: nat)
    requires base >= 1 && m <= n
    ensures Power(base, m) <= Power(base, n)
    decreases n
  {
    if m < n {
      PowerGrows(base, m, n - 1);
      GrowsByFactor(base, Power(base, n - 1));
    }
  }

  lemma GrowsByFactor(base: nat, p: nat)
    requires base >= 1
    ensures p <= base * p
  {
  }

  lemma WordPower()
    ensures Power(16, 64) == BASE4
  {
    HexPower();
    PowerAdd(16, 16, 16);
    PowerAdd(16, 32, 32);
  }

  lemma {:induction false} PositionalBound(s: string)
    ensures LowerHex(s) ==> Positional(s, 16).Some? && Positional(s, 16).value < Power(16, |s|)
  {
    if s != "" && LowerHex(s) {
      assert LowerHex(s[..|s| - 1]);
      PositionalBound(s[..|s| - 1]);
    }
  }

  lemma HexNumberOf(x: nat, d: nat)
    requires 0 < d <= 64 && x < Power(16, d)
    ensures HexNumber(Fixed(x, 16, d)) == Some(x)
  {
    hide Fixed, Power, Positional;
    FixedValue(x, 16, d);
    PowerGrows(16, d, 64);
    WordPower();
    assert x % BASE4 == x;
  }

  lemma Hex64Value(n: nat)
    requires n < MAX_LEN
    ensures HexNumber(Hex64(n)) == Some(n) && LowerHex(Hex64(n))
  {
    hide Fixed, Power, HexNumber;
    WordPower();
    HexNumberOf(n, 64);
    FixedLower(n, 64);
    assert n % 0x1_0000_0000_0000_0000 == n;
  }

  lemma Hex64Lower(n: nat)
    ensures LowerHex(Hex64(n))
  {
    FixedLower(n % 0x1_0000_0000_0000_0000, 64);
  }

  lemma LowerKept(s: string)
    requires LowerHex(s)
    ensures Lower(s) == s && AllHex(s)
  {
  }

  lemma PayloadOf(p: string)
    requires LowerHex(p) && Even(|p|)
    ensures Payload(Prefixed(p)) == Some(p)
  {
    LowerKept(p);
    assert Prefixed(p)[2..] == p;
  }

  lemma PayloadLower(data: string)
    requires Payload(data).Some?
    ensures LowerHex(Payload(data).value)
  {
    assert AllHex(data[2..]);
  }

  // ----- one slot -----

  lemma NumberSlot(x: Number, n: nat)
    requires Width(n) && x < Power(2, n)
    ensures var s := Fixed(x, 16, 64);
            && LowerHex(s)
            && AllZero(s[..64 - n / 4])
            && ParseDigits(LastDigits(s, n / 4)) == Some(Num(x))
  {
    hide Fixed, Power, HexNumber;
    var d := n / 4;
    SixteenIsFourTwos(d);
    FixedLower(x, 64);
    FixedSplit(x, d);
    HexNumberOf(x, d);
    var s := Fixed(x, 16, 64);
    assert s[..64 - d] == Zeros(64 - d);
    assert LastDigits(s, d) == Fixed(x, 16, d);
  }

  lemma HexSlot(v: Value, digits: nat)
    requires digits <= 64 && HexString(v, digits)
    ensures Has0x(v.s) && Lower(v.s[2..]) == v.s[2..]
  {
    LowerKept(v.s[2..]);
    assert v.s[..2] == "0x";
  }

  lemma HexWhole(v: Value, digits: nat)
    requires HexString(v, digits)
    ensures v.s == Prefixed(v.s[2..])
  {
    assert v.s[..2] == "0x";
  }

  lemma BytesSlotDecodes(v: Value, n: nat)
    requires 1 <= n <= 32 && HexString(v, 2 * n)
    ensures |BytesSlot(v, n)| == 64 && LowerHex(BytesSlot(v, n))
    ensures DecodeBase(BytesSlot(v, n), BytesT(n)) == Some(v)
  {
    HexSlot(v, 2 * n);
    HexWhole(v, 2 * n);
    hide Prefixed;
    var hex := v.s[2..];
    assert BytesSlot(v, n) == hex + Zeros(64 - 2 * n);
    assert BytesSlot(v, n)[..2 * n] == hex;
  }

  lemma AgentSlot(v: Value)
    requires HexString(v, 64)
    ensures Slot(v, AgentT) == Some(v.s[2..])
  {
    HexSlot(v, 64);
    hide LowerHex, Lower, Fixed, TextHex, AgentKey, BytesSlot;
    assert RightAligned(v.s[2..]) == v.s[2..];
  }

  lemma AgentDecodes(v: Value)
    requires HexString(v, 64)
    ensures DecodeBase(v.s[2..], AgentT) == Some(v) && LowerHex(v.s[2..])
  {
    HexWhole(v, 64);
    hide LowerHex, ParseDigits, LastDigits, Prefixed;
  }

  // Every canonical value has one slot, and is decoded from it.
  lemma SlotDecodes(v: Value, b: Base)
    requires CanonicalBase(v, b)
    ensures Slot(v, b).Some? && |Slot(v, b).value| == 64 && LowerHex(Slot(v, b).value)
    ensures DecodeBase(Slot(v, b).value, b) == Some(v)
  {
    if b.BoolT? {
      assert v.b ==> BoolSlot(true)[63] == '1';
    } else {
      hide HexString, Fixed, Power, ParseDigits, LastDigits;
      if b.BytesT? {
        BytesSlotDecodes(v, b.n);
      } else if b.AgentT? {
        AgentSlot(v);
        AgentDecodes(v);
      } else {
        NumberSlot(v.n, b.n);
      }
    }
  }

  // Whatever is decoded is canonical.
  lemma DecodedBaseCanonical(payload: string, b: Base)
    requires LowerHex(payload) && DecodeBase(payload, b).Some?
    ensures CanonicalBase(DecodeBase(payload, b).value, b)
  {
    if b.UintT? || b.IntT? {
      DigitsSmall(LastDigits(payload, b.n / 4), b.n);
    }
    hide ParseDigits, Power;
  }

  lemma DigitsSmall(digits: string, n: nat)
    requires LowerHex(digits) && Width(n) && |digits| <= n / 4
    ensures ParseDigits(digits).Some? && ParseDigits(digits).value.Num? && ParseDigits(digits).value.n < Power(2, n)
  {
    hide Power, Positional;
    PositionalBound(digits);
    PowerGrows(16, |digits|, n / 4);
    PowerGrows(16, n / 4, 64);
    WordPower();
    SixteenIsFourTwos(n / 4);
    if digits != "" {
      assert Positional(digits, 16).value % BASE4 == Positional(digits, 16).value;
    }
  }

  // ----- arrays -----

  lemma IndexSmall(i: nat)
    requires i <= MAX_LEN
    ensures Index(i) == i
  {
  }

  lemma LowerConcat(s: string, t: string)
    requires LowerHex(s) && LowerHex(t)
    ensures LowerHex(s + t)
  {
  }

  lemma LowerPart(s: string, i: nat, j: nat)
    requires LowerHex(s) && i <= j <= |s|
    ensures LowerHex(s[i..j])
  {
  }

  lemma DecodedSlot(payload: string, at: nat, v: Value, b: Base)
    requires CanonicalBase(v, b) && at + 64 <= |payload| < MAX_LEN
    requires Slot(v, b) == Some(payload[at..at + 64])
    ensures DecodeSlot(payload, Index(at + 1), Index(at + 64), b) == Some(v)
  {
    SlotDecodes(v, b);
    SlotEven();
    hide Slot, DecodeBase, CanonicalBase, Payload, AbiSpec.Sub, Index, LowerHex, Even;
    IndexSmall(at + 1);
    IndexSmall(at + 64);
    SubWithin(payload, at + 1, at + 64);
    PayloadOf(payload[at..at + 64]);
  }

  ghost predicate AllCanonical(items: seq<Value>, b: Base)
  {
    forall i :: 0 <= i < |items| ==> CanonicalBase(items[i], b)
  }

  predicate SlotAt(s: string, items: seq<Value>, b: Base, i: nat)
  {
    i < |items| && (i + 1) * 64 <= |s| && Slot(items[i], b) == Some(s[i * 64..i * 64 + 64])
  }

  lemma SlotAdded(s: string, items: seq<Value>, b: Base, i: nat, item: Value, slot: string)
    requires |s| == |items| * 64 && Slot(item, b) == Some(slot) && |slot| == 64 && i <= |items|
    requires i < |items| ==> SlotAt(s, items, b, i)
    ensures SlotAt(s + slot, items + [item], b, i)
  {
    hide Slot;
    if i < |items| {
      assert (s + slot)[i * 64..i * 64 + 64] == s[i * 64..i * 64 + 64];
    } else {
      assert (s + slot)[i * 64..i * 64 + 64] == slot;
    }
  }

  lemma {:induction false} SlotsShape(items: seq<Value>, b: Base)
    requires AllCanonical(items, b)
    ensures Slots(items, b).Some? && |Slots(items, b).value| == |items| * 64 && LowerHex(Slots(items, b).value)
    ensures forall i :: 0 <= i < |items| ==> SlotAt(Slots(items, b).value, items, b, i)
  {
    if items != [] {
      var n := |items| - 1;
      SlotsShape(items[..n], b);
      SlotDecodes(items[n], b);
      hide Slot, CanonicalBase, DecodeBase, LowerHex, SlotAt;
      var s, slot := Slots(items[..n], b).value, Slot(items[n], b).value;
      assert Slots(items, b) == Some(s + slot);
      LowerConcat(s, slot);
      forall i | 0 <= i < |items| ensures SlotAt(s + slot, items, b, i) {
        assert items == items[..n] + [items[n]];
        SlotAdded(s, items[..n], b, i, items[n], slot);
      }
    }
  }

  lemma PartOfPart(s: string, i: nat, j: nat, k: nat, l: nat)
    requires i <= j <= |s| && k <= l <= j - i
    ensures s[i..j][k..l] == s[i + k..i + l]
  {
    var part, whole := s[i..j][k..l], s[i + k..i + l];
    assert |part| == |whole|;
    assert forall x :: 0 <= x < |part| ==> part[x] == whole[x];
  }

  lemma ElementSlot(payload: string, items: seq<Value>, b: Base, k: nat)
    requires AllCanonical(items, b) && 0 < k <= |items| && (|items| + 1) * 64 <= |payload|
    requires Slots(items, b) == Some(payload[64..(|items| + 1) * 64])
    ensures Slot(items[k - 1], b) == Some(payload[k * 64..k * 64 + 64])
  {
    hide Slots, Slot, CanonicalBase, LowerHex;
    SlotsShape(items, b);
    var s, i := payload[64..(|items| + 1) * 64], k - 1;
    assert SlotAt(s, items, b, i);
    PartOfPart(payload, 64, (|items| + 1) * 64, i * 64, i * 64 + 64);
    assert Slot(items[i], b) == Some(s[i * 64..i * 64 + 64]);
    assert 64 + i * 64 == k * 64 && 64 + (i * 64 + 64) == k * 64 + 64;
    assert payload[64 + i * 64..64 + (i * 64 + 64)] == payload[k * 64..k * 64 + 64];
  }

  lemma ItemsStep(payload: string, k: nat, b: Base, before: seq<Value>, last: Value)
    requires k > 0 && DecodeItems(payload, k - 1, b) == Some(before)
    requires DecodeSlot(payload, Index(k * 64 + 1), Index(k * 64 + 64), b) == Some(last)
    ensures DecodeItems(payload, k, b) == Some(before + [last])
  {
    hide DecodeSlot, Index;
    assert 64 + (k - 1) * 64 + 1 == k * 64 + 1 && 64 + k * 64 == k * 64 + 64;
  }

  lemma {:induction false} ItemsDecode(payload: string, items: seq<Value>, b: Base, k: nat)
    requires AllCanonical(items, b) && k <= |items| && (|items| + 1) * 64 <= |payload| < MAX_LEN
    requires Slots(items, b) == Some(payload[64..(|items| + 1) * 64])
    ensures DecodeItems(payload, k, b) == Some(items[..k])
  {
    hide DecodeSlot, Slots, Slot, CanonicalBase, Index;
    if k == 0 {
      assert items[..0] == [];
    } else {
      ItemsDecode(payload, items, b, k - 1);
      ElementSlot(payload, items, b, k);
      DecodedSlot(payload, k * 64, items[k - 1], b);
      ItemsStep(payload, k, b, items[..k - 1], items[k - 1]);
      assert items[..k] == items[..k - 1] + [items[k - 1]];
    }
  }

  lemma TailShape(v: Value, b: Base)
    requires v.Arr? && AllCanonical(v.items, b)
    ensures Tail(v, b).Some? && LowerHex(Tail(v, b).value) && |Tail(v, b).value| == (|v.items| + 1) * 64
    ensures Even(|Tail(v, b).value|)
    ensures Slots(v.items, b) == Some(Tail(v, b).value[64..]) && Tail(v, b).value[..64] == Hex64(|v.items|)
  {
    hide Slots, LowerHex, Hex64, CanonicalBase, HexNumber, SlotAt, Even;
    SlotsShape(v.items, b);
    HeadEven(|v.items| + 1);
    Hex64Lower(|v.items|);
    LowerConcat(Hex64(|v.items|), Slots(v.items, b).value);
  }

  // An array is decoded from its tail, whatever follows.
  lemma TailDecodes(v: Value, b: Base, tail: string, rest: string)
    requires v.Arr? && AllCanonical(v.items, b) && Tail(v, b) == Some(tail)
    requires LowerHex(rest) && Even(|rest|) && |tail| + |rest| < MAX_LEN
    ensures Decoded(Prefixed(tail + rest), Array(b)) == Some(v)
  {
    hide Tail, Slots, Hex64, CanonicalBase, HexNumber, LowerHex, Payload, DecodeItems, Even, AbiSpec.Sub, Decoded,
      Prefixed;
    var n, payload := |v.items|, tail + rest;
    TailShape(v, b);
    LowerConcat(tail, rest);
    EvenSum(|tail|, |rest|);
    PayloadOf(payload);
    TailParts(tail, rest, n);
    ArrayLength(payload, n);
    ItemsDecode(payload, v.items, b, n);
    assert v.items[..n] == v.items;
    ArrayDecodes(payload, n, v.items, b);
  }

  lemma TailParts(tail: string, rest: string, n: nat)
    requires |tail| == (n + 1) * 64
    ensures (tail + rest)[..64] == tail[..64] && (tail + rest)[64..(n + 1) * 64] == tail[64..]
  {
  }

  lemma ArrayDecodes(payload: string, n: nat, items: seq<Value>, b: Base)
    requires Payload(Prefixed(payload)) == Some(payload) && n < MAX_LEN
    requires HexNumber(AbiSpec.Sub(payload, 1, 64)) == Some(n) && DecodeItems(payload, n, b) == Some(items)
    ensures Decoded(Prefixed(payload), Array(b)) == Some(Arr(items))
  {
    hide Payload, HexNumber, AbiSpec.Sub, DecodeItems;
  }

  lemma ArrayLength(payload: string, n: nat)
    requires n < MAX_LEN && 64 <= |payload| < MAX_LEN && payload[..64] == Hex64(n)
    ensures HexNumber(AbiSpec.Sub(payload, 1, 64)) == Some(n)
  {
    hide Hex64, HexNumber;
    SubWithin(payload, 1, 64);
    Hex64Value(n);
  }

  // ----- tuples -----

  ghost predicate ArgsCanonical(args: seq<(Value, Type)>)
  {
    forall i :: 0 <= i < |args| ==> ArgCanonical(args[i])
  }

  predicate ArgCanonical(arg: (Value, Type)) { Canonical(arg.0, arg.1) }

  // The slots and tails of some arguments.
  ghost predicate LaidOut(args: seq<(Value, Type)>, count: nat, head: string, tail: string)
  {
    && Layout(args, count) == Some((head, tail))
    && |head| == |args| * 64 && Even(|tail|) && LowerHex(head) && LowerHex(tail)
  }

  lemma StaticAdded(args: seq<(Value, Type)>, count: nat, head: string, tail: string, arg: (Value, Type))
    requires LaidOut(args, count, head, tail) && ArgCanonical(arg) && arg.1.Static?
    ensures Slot(arg.0, arg.1.base).Some?
    ensures LaidOut(args + [arg], count, head + Slot(arg.0, arg.1.base).value, tail)
  {
    hide Slot, CanonicalBase, DecodeBase, LowerHex;
    SlotDecodes(arg.0, arg.1.base);
    LowerConcat(head, Slot(arg.0, arg.1.base).value);
    assert (args + [arg])[..|args|] == args;
  }

  lemma LayoutDynamic(args: seq<(Value, Type)>, count: nat, head: string, tail: string, arg: (Value, Type), td: string)
    requires Layout(args, count) == Some((head, tail)) && arg.1.Array? && Tail(arg.0, arg.1.elem) == Some(td)
    ensures Layout(args + [arg], count) == Some((head + Hex64(Offset(count, tail)), tail + td))
  {
    hide Tail, Hex64, Offset;
    assert (args + [arg])[..|args|] == args;
  }

  // The head of an array is the offset of its tail.
  lemma DynamicAdded(args: seq<(Value, Type)>, count: nat, head: string, tail: string, arg: (Value, Type), offset: nat)
    requires LaidOut(args, count, head, tail) && ArgCanonical(arg) && arg.1.Array?
    requires offset == Offset(count, tail)
    ensures Tail(arg.0, arg.1.elem).Some?
    ensures LaidOut(args + [arg], count, head + Hex64(offset), tail + Tail(arg.0, arg.1.elem).value)
  {
    hide Tail, CanonicalBase, LowerHex, Hex64, HexNumber, Layout, Even, Offset;
    Hex64Lower(offset);
    TailShape(arg.0, arg.1.elem);
    var td := Tail(arg.0, arg.1.elem).value;
    LowerConcat(head, Hex64(offset));
    LowerConcat(tail, td);
    EvenSum(|tail|, |td|);
    LayoutDynamic(args, count, head, tail, arg, td);
  }

  lemma LayoutStatic(args: seq<(Value, Type)>, count: nat, head: string, tail: string, arg: (Value, Type), slot: string)
    requires Layout(args, count) == Some((head, tail)) && arg.1.Static? && Slot(arg.0, arg.1.base) == Some(slot)
    ensures Layout(args + [arg], count) == Some((head + slot, tail))
  {
    hide Slot;
    assert (args + [arg])[..|args|] == args;
  }

  lemma {:induction false} LayoutShape(args: seq<(Value, Type)>, count: nat)
    requires ArgsCanonical(args)
    ensures Layout(args, count).Some?
    ensures LaidOut(args, count, Layout(args, count).value.0, Layout(args, count).value.1)
  {
    if args != [] {
      var n := |args| - 1;
      LayoutShape(args[..n], count);
      var (head, tail) := Layout(args[..n], count).value;
      hide Layout, Slot, Tail, CanonicalBase, LowerHex, Hex64, Even, Offset;
      assert ArgCanonical(args[n]);
      if args[n].1.Array? {
        DynamicAdded(args[..n], count, head, tail, args[n], Offset(count, tail));
      } else {
        StaticAdded(args[..n], count, head, tail, args[n]);
      }
      assert args == args[..n] + [args[n]];
    }
  }

  // The layout of some arguments begins with that of the first ones.
  lemma {:induction false} LayoutPrefix(args: seq<(Value, Type)>, count: nat, k: nat)
    requires k <= |args| && Layout(args, count).Some?
    ensures Layout(args[..k], count).Some?
    ensures Layout(args[..k], count).value.0 <= Layout(args, count).value.0
    ensures Layout(args[..k], count).value.1 <= Layout(args, count).value.1
  {
    if k == |args| {
      assert args[..k] == args;
    } else {
      LayoutPrefix(args[..|args| - 1], count, k);
      assert args[..|args| - 1][..k] == args[..k];
    }
  }

  // What the encoding holds for argument i: its slot, or the offset of its tail and the tail there.
  ghost predicate Placed(payload: string, i: nat, count: nat, arg: (Value, Type))
  {
    && i < count && count * 64 <= |payload| && LowerHex(payload) && Even(|payload|)
    && if arg.1.Static? then Slot(arg.0, arg.1.base) == Some(payload[i * 64..i * 64 + 64])
       else exists offset :: PointsAt(payload, i, arg, offset)
  }

  ghost predicate PointsAt(payload: string, i: nat, arg: (Value, Type), offset: nat)
  {
    && arg.1.Array? && (i + 1) * 64 <= |payload| && 2 * offset <= |payload|
    && payload[i * 64..i * 64 + 64] == Hex64(offset)
    && Tail(arg.0, arg.1.elem).Some? && Tail(arg.0, arg.1.elem).value <= payload[2 * offset..]
  }

  lemma OffsetsPoint(args: seq<(Value, Type)>, i: nat)
    requires ArgsCanonical(args) && i < |args|
    ensures Layout(args, |args|).Some?
    ensures Placed(Layout(args, |args|).value.0 + Layout(args, |args|).value.1, i, |args|, args[i])
  {
    hide Slot, Tail, CanonicalBase, LowerHex, Hex64, Even, Offset, Layout;
    var count := |args|;
    LayoutShape(args, count);
    var (head, tail) := Layout(args, count).value;
    LowerConcat(head, tail);
    HeadEven(count);
    EvenSum(|head|, |tail|);
    PrefixPlaced(args, i, head, tail);
  }

  lemma PrefixPlaced(args: seq<(Value, Type)>, i: nat, head: string, tail: string)
    requires ArgsCanonical(args) && i < |args| && LaidOut(args, |args|, head, tail)
    ensures if args[i].1.Static?
            then Slot(args[i].0, args[i].1.base) == Some((head + tail)[i * 64..i * 64 + 64])
            else exists offset :: PointsAt(head + tail, i, args[i], offset)
  {
    hide Slot, Tail, CanonicalBase, LowerHex, Hex64, Even, Offset, Layout, PointsAt;
    var count := |args|;
    LayoutPrefix(args, count, i + 1);
    LayoutShape(args[..i], count);
    var (before, tails) := Layout(args[..i], count).value;
    assert args[..i + 1] == args[..i] + [args[i]];
    assert ArgCanonical(args[i]);
    if args[i].1.Static? {
      SlotDecodes(args[i].0, args[i].1.base);
      var slot := Slot(args[i].0, args[i].1.base).value;
      LayoutStatic(args[..i], count, before, tails, args[i], slot);
      SlotPlaced(head, tail, before, slot);
    } else {
      TailShape(args[i].0, args[i].1.elem);
      var td := Tail(args[i].0, args[i].1.elem).value;
      LayoutDynamic(args[..i], count, before, tails, args[i], td);
      TailPlaced(head, tail, before, tails, args[i], count, i);
    }
  }

  lemma SlotPlaced(head: string, tail: string, before: string, slot: string)
    requires before + slot <= head && |slot| == 64
    ensures (head + tail)[|before|..|before| + 64] == slot
  {
    var n := |before|;
    assert head[..n + 64] == before + slot;
    assert (head + tail)[n..n + 64] == head[..n + 64][n..];
  }

  lemma TailPlaced(head: string, tail: string, before: string, tails: string, arg: (Value, Type), count: nat, i: nat)
    requires arg.1.Array? && Tail(arg.0, arg.1.elem).Some? && tails + Tail(arg.0, arg.1.elem).value <= tail
    requires before + Hex64(Offset(count, tails)) <= head && |head| == count * 64 && Even(|tails|)
    requires |before| == i * 64
    ensures PointsAt(head + tail, i, arg, Offset(count, tails))
  {
    var offset, td, n := Offset(count, tails), Tail(arg.0, arg.1.elem).value, |tails|;
    assert 2 * offset == |head| + n;
    hide Tail, Hex64, Offset, Even;
    SlotPlaced(head, tail, before, Hex64(offset));
    assert tail[..n + |td|] == tails + td;
    assert (head + tail)[|head| + n..] == tail[n..];
    assert tail[n..][..|td|] == tail[..n + |td|][n..];
  }

  // Following the offset.
  lemma TailComponent(payload: string, i: nat, arg: (Value, Type), offset: nat)
    requires PointsAt(payload, i, arg, offset) && LowerHex(payload) && Even(|payload|) && |payload| < MAX_LEN
    requires ArgCanonical(arg)
    ensures HexNumber(payload[i * 64..i * 64 + 64]) == Some(offset)
    ensures Decoded(Prefixed(AbiSpec.Sub(payload, Index(offset * 2 % BASE4 + 1), LAST)), arg.1) == Some(arg.0)
  {
    hide Slot, Tail, CanonicalBase, Decoded, Hex64, HexNumber, LowerHex, Index, AbiSpec.Sub, Even;
    Hex64Value(offset);
    Doubled(offset);
    IndexSmall(2 * offset + 1);
    SubFrom(payload, 2 * offset + 1);
    var rest := payload[2 * offset..];
    var tail := Tail(arg.0, arg.1.elem).value;
    LowerPart(payload, 2 * offset, |payload|);
    assert rest == payload[2 * offset..|payload|];
    LowerPart(rest, |tail|, |rest|);
    assert rest[|tail|..] == rest[|tail|..|rest|];
    TailShape(arg.0, arg.1.elem);
    EvenDifference(|payload|, offset, |tail|);
    assert tail + rest[|tail|..] == rest;
    TailDecodes(arg.0, arg.1.elem, tail, rest[|tail|..]);
  }

  lemma Doubled(offset: nat)
    requires offset < MAX_LEN
    ensures offset * 2 % BASE4 == 2 * offset
  {
  }

  lemma SlotSub(payload: string, i: nat, count: nat)
    requires i < count && count * 64 <= |payload| < MAX_LEN
    ensures AbiSpec.Sub(payload, Index(i * 64 + 1), Index((i + 1) * 64)) == payload[i * 64..i * 64 + 64]
  {
    hide Index, AbiSpec.Sub;
    IndexSmall(i * 64 + 1);
    IndexSmall((i + 1) * 64);
    SubWithin(payload, i * 64 + 1, (i + 1) * 64);
  }

  lemma StaticDecodes(v: Value, b: Base)
    requires CanonicalBase(v, b)
    ensures Slot(v, b).Some? && Decoded(Prefixed(Slot(v, b).value), Static(b)) == Some(v)
  {
    SlotDecodes(v, b);
    hide Slot, CanonicalBase, DecodeBase, LowerHex;
    PayloadOf(Slot(v, b).value);
    hide Payload;
  }

  lemma ComponentDecodes(payload: string, i: nat, count: nat, arg: (Value, Type))
    requires Placed(payload, i, count, arg) && |payload| < MAX_LEN && ArgCanonical(arg)
    ensures Component(payload, i, arg.1) == Some(arg.0)
  {
    hide LowerHex, Slot, Tail, CanonicalBase, Index, AbiSpec.Sub, Decoded, Hex64, HexNumber, Even;
    SlotSub(payload, i, count);
    if arg.1.Static? {
      StaticDecodes(arg.0, arg.1.base);
    } else {
      var offset :| PointsAt(payload, i, arg, offset);
      hide PointsAt;
      TailComponent(payload, i, arg, offset);
    }
  }

  // ----- the round trip -----

  function Types(args: seq<(Value, Type)>): seq<Type> { seq(|args|, i requires 0 <= i < |args| => args[i].1) }

  function Values(args: seq<(Value, Type)>): seq<Value> { seq(|args|, i requires 0 <= i < |args| => args[i].0) }

  lemma {:induction false} ComponentsDecode(payload: string, args: seq<(Value, Type)>, k: nat)
    requires ArgsCanonical(args) && k <= |args| && |payload| < MAX_LEN
    requires forall i :: 0 <= i < |args| ==> Placed(payload, i, |args|, args[i])
    ensures Components(payload, Types(args[..k])) == Some(Values(args[..k]))
  {
    hide Placed, Component, ArgCanonical;
    if k == 0 {
      assert Types(args[..0]) == [] && Values(args[..0]) == [];
    } else {
      ComponentsDecode(payload, args, k - 1);
      ComponentDecodes(payload, k - 1, |args|, args[k - 1]);
      assert Types(args[..k])[..k - 1] == Types(args[..k - 1]);
      assert Values(args[..k]) == Values(args[..k - 1]) + [args[k - 1].0];
    }
  }

  // Whatever is decoded, from any data, is canonical.
  lemma {:induction false} DecodedItemsCanonical(payload: string, n: nat, b: Base)
    requires DecodeItems(payload, n, b).Some?
    ensures AllCanonical(DecodeItems(payload, n, b).value, b)
  {
    if n > 0 {
      DecodedItemsCanonical(payload, n - 1, b);
      var part := Payload(Prefixed(AbiSpec.Sub(payload, Index(64 + (n - 1) * 64 + 1), Index(64 + n * 64))));
      hide AbiSpec.Sub, Index, CanonicalBase, DecodeBase;
      PayloadLower(Prefixed(AbiSpec.Sub(payload, Index(64 + (n - 1) * 64 + 1), Index(64 + n * 64))));
      DecodedBaseCanonical(part.value, b);
    }
  }

  lemma DecodedCanonical(data: string, typ: Type)
    requires Decoded(data, typ).Some?
    ensures Canonical(Decoded(data, typ).value, typ)
  {
    PayloadLower(data);
    var payload := Payload(data).value;
    hide CanonicalBase, DecodeBase, Payload;
    if typ.Static? {
      DecodedBaseCanonical(payload, typ.base);
    } else {
      DecodedItemsCanonical(payload, OrZero(HexNumber(AbiSpec.Sub(payload, 1, 64))), typ.elem);
    }
  }

  lemma {:induction false} DecodedTupleCanonical(payload: string, types: seq<Type>)
    requires Components(payload, types).Some?
    ensures |Components(payload, types).value| == |types|
    ensures forall i :: 0 <= i < |types| ==> Canonical(Components(payload, types).value[i], types[i])
  {
    hide Canonical, Component;
    if types != [] {
      var i := |types| - 1;
      DecodedTupleCanonical(payload, types[..i]);
      ComponentCanonical(payload, i, types[i]);
    }
  }

  lemma ComponentCanonical(payload: string, i: nat, typ: Type)
    requires Component(payload, i, typ).Some?
    ensures Canonical(Component(payload, i, typ).value, typ)
  {
    hide Decoded, Canonical, AbiSpec.Sub, Index;
    var slot := AbiSpec.Sub(payload, Index(i * 64 + 1), Index((i + 1) * 64));
    if typ.Static? {
      DecodedCanonical(Prefixed(slot), typ);
    } else {
      DecodedCanonical(Prefixed(AbiSpec.Sub(payload, Index(OrZero(HexNumber(slot)) * 2 % BASE4 + 1), LAST)), typ);
    }
  }

  // Decoding an encoded tuple gives its values exactly when they all have the form decoding gives.
  lemma TupleRoundTrip(args: seq<(Value, Type)>)
    requires args != [] && (Encoded(args).Some? ==> |Encoded(args).value| < MAX_LEN)
    ensures Encoded(args).Some? && DecodedTuple(Encoded(args).value, Types(args)) == Some(Values(args)) <==>
            forall i :: 0 <= i < |args| ==> Canonical(args[i].0, args[i].1)
  {
    hide Canonical, Encoded, DecodedTuple;
    assert forall i :: 0 <= i < |args| ==> (Canonical(args[i].0, args[i].1) <==> ArgCanonical(args[i]));
    if ArgsCanonical(args) {
      CanonicalRoundTrip(args);
    }
    if Encoded(args).Some? && DecodedTuple(Encoded(args).value, Types(args)) == Some(Values(args)) {
      AgreementCanonical(Encoded(args).value, args);
    }
  }

  lemma AgreementCanonical(data: string, args: seq<(Value, Type)>)
    requires DecodedTuple(data, Types(args)) == Some(Values(args))
    ensures forall i :: 0 <= i < |args| ==> Canonical(args[i].0, args[i].1)
  {
    hide Canonical, Components, Payload;
    DecodedTupleCanonical(Payload(data).value, Types(args));
    assert forall i :: 0 <= i < |args| ==> Types(args)[i] == args[i].1 && Values(args)[i] == args[i].0;
  }

  lemma CanonicalRoundTrip(args: seq<(Value, Type)>)
    requires args != [] && ArgsCanonical(args) && (Encoded(args).Some? ==> |Encoded(args).value| < MAX_LEN)
    ensures Encoded(args).Some? && DecodedTuple(Encoded(args).value, Types(args)) == Some(Values(args))
  {
    hide Layout, Placed, ArgCanonical, LowerHex, Even, Components, Payload;
    LayoutShape(args, |args|);
    var payload := Layout(args, |args|).value.0 + Layout(args, |args|).value.1;
    assert Encoded(args) == Some(Prefixed(payload));
    hide Encoded;
    forall i | 0 <= i < |args| ensures Placed(payload, i, |args|, args[i]) {
      OffsetsPoint(args, i);
    }
    PayloadIsWhole(payload, args);
    ComponentsDecode(payload, args, |args|);
    assert args[..|args|] == args;
  }

  lemma PayloadIsWhole(payload: string, args: seq<(Value, Type)>)
    requires args != [] && Placed(payload, 0, |args|, args[0])
    ensures Payload(Prefixed(payload)) == Some(payload)
  {
    PayloadOf(payload);
  }
}
