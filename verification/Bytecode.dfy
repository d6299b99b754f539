/**
 Encoding whole function prototypes and decoding them again.
 */
module Bytecode {
  import opened Options
  import opened Uint256
  import opened Opcodes
  import opened Instructions
  import opened Wire
  import opened Registers

  // ----- the parts of a prototype -----

  function PutCode(w: Word32): Bytes { Put32(w) }

  function PutInt(n: int): Bytes { Put32(n) }

  function PutLocal(l: Option<Local>): Bytes
  {
    match l
    case None => [0]
    case Some(v) => [1] + (PutString(v.name) + (Put32(v.reg) + ([v.attr] + (Put32(v.startPc) + Put32(v.endPc)))))
  }

  function GetLocal(b: Bytes): (r: Parsed<Option<Local>>)
    ensures r.Got? ==> |r.rest| < |b|
  {
    var present :- GetByte(b);
    if present.0 == 0 then Got(None, present.1)
    else
      var name :- GetString(present.1);
      var reg :- GetInt(name.1);
      var attr :- GetByte(reg.1);
      var startPc :- GetInt(attr.1);
      var endPc :- GetInt(startPc.1);
      Got(Some(Local(name.0, reg.0, attr.0, startPc.0, endPc.0)), endPc.1)
  }

  function PutCall(c: Call): Bytes { PutString(c.name) + Put32(c.pc) }

  function GetCall(b: Bytes): (r: Parsed<Call>)
    ensures r.Got? ==> |r.rest| < |b|
  {
    var name :- GetString(b);
    var pc :- GetInt(name.1);
    Got(Call(name.0, pc.0), pc.1)
  }

  predicate ShortString(s: Bytes) { |s| < WORDS32 }

  predicate EncodableLocal(l: Option<Local>)
  {
    l.Some? ==> ShortString(l.value.name) && IsInt32(l.value.reg) && IsInt32(l.value.startPc) && IsInt32(l.value.endPc)
  }

  predicate EncodableCall(c: Call) { ShortString(c.name) && IsInt32(c.pc) }

  lemma LocalRoundTrip(l: Option<Local>, t: Bytes)
    requires EncodableLocal(l) && |PutLocal(l) + t| < WORDS32
    ensures GetLocal(PutLocal(l) + t) == Got(l, t)
  {
    hide Put32, GetString, GetInt, IsInt32, PutString;
    var b := PutLocal(l) + t;
    match l
    case None => assert b[1..] == t;
    case Some(v) =>
      var r4 := Put32(v.endPc) + t;
      var r3 := Put32(v.startPc) + r4;
      var r2 := [v.attr] + r3;
      var r1 := Put32(v.reg) + r2;
      assert b == [1] + (PutString(v.name) + r1) && b[1..] == PutString(v.name) + r1;
      assert r2[1..] == r3;
      StringRoundTrip(v.name, r1);
      IntRoundTrip(v.reg, r2);
      IntRoundTrip(v.startPc, r4);
      IntRoundTrip(v.endPc, t);
  }

  lemma CallRoundTrip(c: Call, t: Bytes)
    requires EncodableCall(c) && |PutCall(c) + t| < WORDS32
    ensures GetCall(PutCall(c) + t) == Got(c, t)
  {
    hide Put32, GetString, GetInt, IsInt32, PutString;
    var r := Put32(c.pc) + t;
    assert PutCall(c) + t == PutString(c.name) + r;
    StringRoundTrip(c.name, r);
    IntRoundTrip(c.pc, t);
  }

  // ----- a prototype -----

  function PutHead(h: Header): Bytes
  {
    PutString(h.sourceName) + (Put32(h.lineDefined) + (Put32(h.lastLineDefined) +
    [h.numUpvalues, h.numParameters, h.isVarArg, h.numUsedRegs]))
  }

  function PutTail(h: Header): Bytes
  {
    PutList(h.positions, PutInt) + (PutList(h.locals, PutLocal) + (PutList(h.calls, PutCall) +
    PutList(h.upvalues, PutString)))
  }

  // writeProto
  function PutProto(p: Proto): Bytes
  {
    PutHead(p.header) + (PutList(p.code, PutCode) + (PutList(p.header.constants, PutConst) +
    (Put32(|p.children|) + (PutProtos(p.children) + PutTail(p.header)))))
  }

  function PutProtos(ps: seq<Proto>): Bytes
  {
    if ps == [] then [] else PutProto(ps[0]) + PutProtos(ps[1..])
  }

  datatype Head = Head(source: Bytes, line: int, lastLine: int, nup: Byte, nparam: Byte, vararg: Byte, nreg: Byte)

  datatype Tail = Tail(positions: seq<int>, locals: seq<Option<Local>>, calls: seq<Call>, upvalues: seq<Bytes>)

  function GetHead(b: Bytes): (r: Parsed<Head>)
    ensures r.Got? ==> |r.rest| < |b|
  {
    var source :- GetString(b);
    var line :- GetInt(source.1);
    var lastLine :- GetInt(line.1);
    var nup :- GetByte(lastLine.1);
    var nparam :- GetByte(nup.1);
    var vararg :- GetByte(nparam.1);
    var nreg :- GetByte(vararg.1);
    Got(Head(source.0, line.0, lastLine.0, nup.0, nparam.0, vararg.0, nreg.0), nreg.1)
  }

  ghost function GetTail(b: Bytes): (r: Parsed<Tail>)
    ensures r.Got? ==> |r.rest| <= |b|
  {
    var positions :- GetList(b, GetInt);
    var locals :- GetList(positions.1, GetLocal);
    var calls :- GetList(locals.1, GetCall);
    var upvalues :- GetList(calls.1, GetString);
    Got(Tail(positions.0, locals.0, calls.0, upvalues.0), upvalues.1)
  }

  datatype Top = Top(head: Head, code: seq<Word32>, constants: seq<Const>)

  ghost function GetTop(b: Bytes): (r: Parsed<Top>)
    ensures r.Got? ==> |r.rest| < |b|
  {
    var head :- GetHead(b);
    var code :- GetList(head.1, Get32);
    var constants :- GetList(code.1, GetConst);
    Got(Top(head.0, code.0, constants.0), constants.1)
  }

  function Assembled(top: Top, children: seq<Proto>, t: Tail): Proto
  {
    var h, code, constants := top.head, top.code, top.constants;
    Function(Header(h.source, h.line, h.lastLine, h.nup, h.nparam, h.vararg, h.nreg,
                    constants, t.positions, t.locals, t.calls, t.upvalues),
             code, children)
  }

  // readProto
  ghost function GetProto(b: Bytes): (r: Parsed<Proto>)
    ensures r.Got? ==> |r.rest| < |b|
    decreases |b|, 0
  {
    var top :- GetTop(b);
    var n :- Get32(top.1);
    var children :- GetProtos(n.0, n.1);
    var tail :- GetTail(children.1);
    Got(Assembled(top.0, children.0, tail.0), tail.1)
  }

  ghost function GetProtos(n: nat, b: Bytes): (r: Parsed<seq<Proto>>)
    ensures r.Got? ==> |r.rest| <= |b| && |r.value| == n
    decreases |b|, n + 1
  {
    if n == 0 then Got([], b)
    else
      var p :- GetProto(b);
      var ps :- GetProtos(n - 1, p.1);
      Got([p.0] + ps.0, ps.1)
  }

  // ----- reading undoes writing -----

  // What the format can hold: 32-bit lengths and integers, known constants, canonical addresses.
  ghost predicate EncodableHeader(h: Header)
  {
    && ShortString(h.sourceName) && IsInt32(h.lineDefined) && IsInt32(h.lastLineDefined)
    && |h.constants| < WORDS32 && (forall i :: 0 <= i < |h.constants| ==> EncodableConst(h.constants[i]))
    && EncodableDebug(Tail(h.positions, h.locals, h.calls, h.upvalues))
  }

  ghost predicate EncodableDebug(t: Tail)
  {
    && |t.positions| < WORDS32 && (forall i :: 0 <= i < |t.positions| ==> IsInt32(t.positions[i]))
    && |t.locals| < WORDS32 && (forall i :: 0 <= i < |t.locals| ==> EncodableLocal(t.locals[i]))
    && |t.calls| < WORDS32 && (forall i :: 0 <= i < |t.calls| ==> EncodableCall(t.calls[i]))
    && |t.upvalues| < WORDS32 && (forall i :: 0 <= i < |t.upvalues| ==> ShortString(t.upvalues[i]))
  }

  ghost predicate Encodable(p: Proto)
  {
    && EncodableHeader(p.header) && |p.code| < WORDS32 && |p.children| < WORDS32
    && forall i :: 0 <= i < |p.children| ==> Encodable(p.children[i])
  }

  lemma HeadRoundTrip(h: Header, t: Bytes)
    requires ShortString(h.sourceName) && IsInt32(h.lineDefined) && IsInt32(h.lastLineDefined)
    requires |PutHead(h) + t| < WORDS32
    ensures GetHead(PutHead(h) + t) ==
            Got(Head(h.sourceName, h.lineDefined, h.lastLineDefined, h.numUpvalues, h.numParameters, h.isVarArg,
                     h.numUsedRegs), t)
  {
    hide Put32, GetString, GetInt, IsInt32, PutString;
    var r4 := [h.numUpvalues, h.numParameters, h.isVarArg, h.numUsedRegs] + t;
    var r3 := Put32(h.lastLineDefined) + r4;
    var r2 := Put32(h.lineDefined) + r3;
    assert PutHead(h) + t == PutString(h.sourceName) + r2;
    StringRoundTrip(h.sourceName, r2);
    IntRoundTrip(h.lineDefined, r3);
    IntRoundTrip(h.lastLineDefined, r4);
    assert r4[1..][1..][1..][1..] == t;
  }

  lemma PositionsRoundTrip(xs: seq<int>, t: Bytes)
    requires |xs| < WORDS32 && (forall i :: 0 <= i < |xs| ==> IsInt32(xs[i])) && |PutList(xs, PutInt) + t| < WORDS32
    ensures GetList(PutList(xs, PutInt) + t, GetInt) == Got(xs, t)
  {
    hide IsInt32, GetInt, Put32;
    forall i | 0 <= i < |xs| ensures ReadsBack(xs[i], PutInt, GetInt) {
      assert IsInt32(xs[i]);
      forall s: Bytes ensures GetInt(PutInt(xs[i]) + s) == Got(xs[i], s) {
        IntRoundTrip(xs[i], s);
      }
    }
    hide ReadsBack, PutList, GetList;
    ListRoundTrip(xs, PutInt, GetInt, t);
  }

  lemma CodeListRoundTrip(xs: seq<Word32>, t: Bytes)
    requires |xs| < WORDS32 && |PutList(xs, PutCode) + t| < WORDS32
    ensures GetList(PutList(xs, PutCode) + t, Get32) == Got(xs, t)
  {
    forall i | 0 <= i < |xs| ensures ReadsBack(xs[i], PutCode, Get32) {
      forall s: Bytes ensures Get32(PutCode(xs[i]) + s) == Got(xs[i], s) {
        Word32RoundTrip(xs[i], s);
        SmallRemainder(xs[i]);
      }
    }
    hide ReadsBack, PutList, GetList, Get32;
    ListRoundTrip(xs, PutCode, Get32, t);
  }

  lemma ConstantsRoundTrip(xs: seq<Const>, t: Bytes)
    requires |xs| < WORDS32 && (forall i :: 0 <= i < |xs| ==> EncodableConst(xs[i]))
    requires |PutList(xs, PutConst) + t| < WORDS32
    ensures GetList(PutList(xs, PutConst) + t, GetConst) == Got(xs, t)
  {
    hide PutConst, GetConst, PutList, GetList, ReadsBack;
    forall i | 0 <= i < |xs| ensures ReadsBack(xs[i], PutConst, GetConst) {
      ConstReadsBack(xs[i]);
    }
    ListRoundTrip(xs, PutConst, GetConst, t);
  }

  lemma LocalsRoundTrip(xs: seq<Option<Local>>, t: Bytes)
    requires |xs| < WORDS32 && (forall i :: 0 <= i < |xs| ==> EncodableLocal(xs[i]))
    requires |PutList(xs, PutLocal) + t| < WORDS32
    ensures GetList(PutList(xs, PutLocal) + t, GetLocal) == Got(xs, t)
  {
    hide EncodableLocal, PutLocal, PutList, GetList;
    assert Shrinks(GetLocal);
    hide GetLocal;
    forall i | 0 <= i < |xs| ensures ReadsBack(xs[i], PutLocal, GetLocal) {
      forall s: Bytes | |PutLocal(xs[i]) + s| < WORDS32 ensures GetLocal(PutLocal(xs[i]) + s) == Got(xs[i], s) {
        LocalRoundTrip(xs[i], s);
      }
    }
    hide ReadsBack;
    ListRoundTrip(xs, PutLocal, GetLocal, t);
  }

  lemma CallsRoundTrip(xs: seq<Call>, t: Bytes)
    requires |xs| < WORDS32 && (forall i :: 0 <= i < |xs| ==> EncodableCall(xs[i]))
    requires |PutList(xs, PutCall) + t| < WORDS32
    ensures GetList(PutList(xs, PutCall) + t, GetCall) == Got(xs, t)
  {
    hide EncodableCall, PutCall, PutList, GetList;
    assert Shrinks(GetCall);
    hide GetCall;
    forall i | 0 <= i < |xs| ensures ReadsBack(xs[i], PutCall, GetCall) {
      forall s: Bytes | |PutCall(xs[i]) + s| < WORDS32 ensures GetCall(PutCall(xs[i]) + s) == Got(xs[i], s) {
        CallRoundTrip(xs[i], s);
      }
    }
    hide ReadsBack;
    ListRoundTrip(xs, PutCall, GetCall, t);
  }

  lemma NamesRoundTrip(xs: seq<Bytes>, t: Bytes)
    requires |xs| < WORDS32 && (forall i :: 0 <= i < |xs| ==> ShortString(xs[i]))
    requires |PutList(xs, PutString) + t| < WORDS32
    ensures GetList(PutList(xs, PutString) + t, GetString) == Got(xs, t)
  {
    hide PutString, PutList, GetList;
    assert Shrinks(GetString);
    hide GetString;
    forall i | 0 <= i < |xs| ensures ReadsBack(xs[i], PutString, GetString) {
      forall s: Bytes | |PutString(xs[i]) + s| < WORDS32 ensures GetString(PutString(xs[i]) + s) == Got(xs[i], s) {
        StringRoundTrip(xs[i], s);
      }
    }
    hide ReadsBack;
    ListRoundTrip(xs, PutString, GetString, t);
  }

  lemma TailRoundTrip(h: Header, t: Bytes)
    requires EncodableDebug(Tail(h.positions, h.locals, h.calls, h.upvalues)) && |PutTail(h) + t| < WORDS32
    ensures GetTail(PutTail(h) + t) == Got(Tail(h.positions, h.locals, h.calls, h.upvalues), t)
  {
    hide PutList, GetList, EncodableLocal, EncodableCall, ShortString, IsInt32;
    var r3 := PutList(h.upvalues, PutString) + t;
    var r2 := PutList(h.calls, PutCall) + r3;
    var r1 := PutList(h.locals, PutLocal) + r2;
    assert PutTail(h) + t == PutList(h.positions, PutInt) + r1;
    PositionsRoundTrip(h.positions, r1);
    LocalsRoundTrip(h.locals, r2);
    CallsRoundTrip(h.calls, r3);
    NamesRoundTrip(h.upvalues, t);
  }

  // The parts of a written prototype, each in front of the rest.
  lemma ProtoParts(p: Proto, t: Bytes) returns (r1: Bytes, r2: Bytes, r3: Bytes, r4: Bytes, r5: Bytes)
    ensures PutProto(p) + t == PutHead(p.header) + r1
    ensures r1 == PutList(p.code, PutCode) + r2
    ensures r2 == PutList(p.header.constants, PutConst) + r3
    ensures r3 == Put32(|p.children|) + r4
    ensures r4 == PutProtos(p.children) + r5
    ensures r5 == PutTail(p.header) + t
  {
    hide PutHead, PutTail, PutList, Put32, PutProtos;
    r5 := PutTail(p.header) + t;
    r4 := PutProtos(p.children) + r5;
    r3 := Put32(|p.children|) + r4;
    r2 := PutList(p.header.constants, PutConst) + r3;
    r1 := PutList(p.code, PutCode) + r2;
  }

  lemma TopRoundTrip(p: Proto, r1: Bytes, r2: Bytes, r3: Bytes)
    requires EncodableHeader(p.header) && |p.code| < WORDS32 && |PutHead(p.header) + r1| < WORDS32
    requires r1 == PutList(p.code, PutCode) + r2 && r2 == PutList(p.header.constants, PutConst) + r3
    ensures var h := p.header;
            GetTop(PutHead(h) + r1) ==
            Got(Top(Head(h.sourceName, h.lineDefined, h.lastLineDefined, h.numUpvalues, h.numParameters, h.isVarArg,
                         h.numUsedRegs), p.code, h.constants), r3)
  {
    hide PutHead, PutList, GetList, GetHead, EncodableConst, EncodableDebug;
    HeadRoundTrip(p.header, r1);
    CodeListRoundTrip(p.code, r2);
    ConstantsRoundTrip(p.header.constants, r3);
  }

  // Reading a written prototype gives it back and leaves exactly the bytes behind it.
  lemma {:induction false} ProtoReadsBack(p: Proto, t: Bytes)
    requires Encodable(p) && |PutProto(p) + t| < WORDS32
    ensures GetProto(PutProto(p) + t) == Got(p, t)
    decreases p, 0
  {
    var h := p.header;
    var r1, r2, r3, r4, r5 := ProtoParts(p, t);
    hide PutProto, PutHead, PutTail, PutList, Put32, Get32, GetList, GetHead, GetTail, PutProtos, GetProtos;
    TopRoundTrip(p, r1, r2, r3);
    hide GetTop;
    Word32RoundTrip(|p.children|, r4);
    SmallRemainder(|p.children|);
    ProtosReadBack(p.children, r5);
    TailRoundTrip(h, t);
    hide EncodableHeader, Encodable, EncodableDebug;
  }

  lemma {:induction false} ProtosReadBack(ps: seq<Proto>, t: Bytes)
    requires (forall i :: 0 <= i < |ps| ==> Encodable(ps[i])) && |PutProtos(ps) + t| < WORDS32
    ensures GetProtos(|ps|, PutProtos(ps) + t) == Got(ps, t)
    decreases ps, 1
  {
    hide PutProto, GetProto, PutProtos, GetProtos, Encodable;
    ProtosStep(ps, t);
    if ps != [] {
      var rest := PutProtos(ps[1..]) + t;
      ProtoReadsBack(ps[0], rest);
      ProtosReadBack(ps[1..], t);
      assert ps == [ps[0]] + ps[1..];
      GetStep(|ps|, PutProto(ps[0]) + rest);
    } else {
      GetStep(0, t);
    }
  }

  lemma ProtosStep(ps: seq<Proto>, t: Bytes)
    ensures PutProtos(ps) + t == if ps == [] then t else PutProto(ps[0]) + (PutProtos(ps[1..]) + t)
  {
    hide PutProto;
  }

  lemma GetStep(n: nat, b: Bytes)
    ensures n == 0 ==> GetProtos(n, b) == Got([], b)
    ensures n > 0 && GetProto(b).Got? && GetProtos(n - 1, GetProto(b).rest).Got? ==>
              GetProtos(n, b) ==
              Got([GetProto(b).value] + GetProtos(n - 1, GetProto(b).rest).value,
                  GetProtos(n - 1, GetProto(b).rest).rest)
  {
    hide GetProto;
  }

  // So no written prototype is the beginning of another one.
  lemma WrittenApart(p: Proto, q: Proto, s: Bytes, t: Bytes)
    requires Encodable(p) && Encodable(q) && PutProto(p) + s == PutProto(q) + t && |PutProto(p) + s| < WORDS32
    ensures p == q && s == t
  {
    ProtoReadsBack(p, s);
    ProtoReadsBack(q, t);
  }

  // ----- whatever is read can be written -----

  lemma ListHas<T(!new)>(b: Bytes, get: Bytes -> Parsed<T>, has: T -> bool)
    requires Shrinks(get) && forall s :: get(s).Got? ==> has(get(s).value)
    ensures var r := GetList(b, get);
            r.Got? ==> |r.value| < WORDS32 && forall i :: 0 <= i < |r.value| ==> has(r.value[i])
  {
    if Get32(b).Got? {
      AllHave(Get32(b).value, Get32(b).rest, get, has);
    }
  }

  lemma IntIn32(b: Bytes)
    ensures GetInt(b).Got? ==> IsInt32(GetInt(b).value)
  {
  }

  lemma LocalEncodable(b: Bytes)
    ensures GetLocal(b).Got? ==> EncodableLocal(GetLocal(b).value)
  {
    forall s: Bytes ensures GetInt(s).Got? ==> IsInt32(GetInt(s).value) {
      IntIn32(s);
    }
    forall s: Bytes ensures GetString(s).Got? ==> ShortString(GetString(s).value) {
      StringBelow(s);
    }
    hide GetInt, GetString, IsInt32, ShortString;
  }

  lemma CallEncodable(b: Bytes)
    ensures GetCall(b).Got? ==> EncodableCall(GetCall(b).value)
  {
    forall s: Bytes ensures GetInt(s).Got? ==> IsInt32(GetInt(s).value) {
      IntIn32(s);
    }
    StringBelow(b);
    hide GetInt, GetString, IsInt32;
  }

  lemma HeadEncodable(b: Bytes)
    ensures var r := GetHead(b);
            r.Got? ==> ShortString(r.value.source) && IsInt32(r.value.line) && IsInt32(r.value.lastLine)
  {
    forall s: Bytes ensures GetInt(s).Got? ==> IsInt32(GetInt(s).value) {
      IntIn32(s);
    }
    StringBelow(b);
    hide GetInt, GetString, IsInt32;
  }

  lemma TailEncodable(b: Bytes)
    ensures GetTail(b).Got? ==> EncodableDebug(GetTail(b).value)
  {
    forall s: Bytes ensures GetInt(s).Got? ==> IsInt32(GetInt(s).value) {
      IntIn32(s);
    }
    forall s: Bytes ensures GetString(s).Got? ==> ShortString(GetString(s).value) {
      StringBelow(s);
    }
    forall s: Bytes ensures GetLocal(s).Got? ==> EncodableLocal(GetLocal(s).value) {
      LocalEncodable(s);
    }
    forall s: Bytes ensures GetCall(s).Got? ==> EncodableCall(GetCall(s).value) {
      CallEncodable(s);
    }
    assert Shrinks(GetInt) && Shrinks(GetLocal) && Shrinks(GetCall) && Shrinks(GetString);
    hide GetInt, GetString, GetLocal, GetCall, IsInt32, ShortString, EncodableLocal, EncodableCall, GetList;
    var r1 := GetList(b, GetInt);
    ListHas(b, GetInt, IsInt32);
    if r1.Got? {
      ListHas(r1.rest, GetLocal, EncodableLocal);
      var r2 := GetList(r1.rest, GetLocal);
      if r2.Got? {
        ListHas(r2.rest, GetCall, EncodableCall);
        var r3 := GetList(r2.rest, GetCall);
        if r3.Got? {
          ListHas(r3.rest, GetString, ShortString);
        }
      }
    }
  }

  lemma ConstantsEncodable(b: Bytes)
    ensures var r := GetList(b, GetConst);
            r.Got? ==> |r.value| < WORDS32 && forall i :: 0 <= i < |r.value| ==> EncodableConst(r.value[i])
  {
    forall s: Bytes ensures GetConst(s).Got? ==> EncodableConst(GetConst(s).value) {
      ConstEncodable(s);
    }
    assert Shrinks(GetConst);
    hide GetConst, EncodableConst, GetList;
    ListHas(b, GetConst, EncodableConst);
  }

  lemma CodeBelow(b: Bytes)
    ensures GetList(b, Get32).Got? ==> |GetList(b, Get32).value| < WORDS32
  {
  }

  lemma {:induction false} ReadIsEncodable(b: Bytes)
    ensures GetProto(b).Got? ==> Encodable(GetProto(b).value)
    decreases |b|, 0
  {
    hide GetTop, GetTail, GetProtos, EncodableDebug;
    var top := GetTop(b);
    TopEncodable(b);
    if top.Got? {
      var n := Get32(top.rest);
      if n.Got? {
        ReadAreEncodable(n.value, n.rest);
        var children := GetProtos(n.value, n.rest);
        if children.Got? {
          TailEncodable(children.rest);
        }
      }
    }
    hide Get32, EncodableConst, IsInt32, ShortString;
  }

  lemma TopEncodable(b: Bytes)
    ensures var r := GetTop(b);
            r.Got? ==>
              && ShortString(r.value.head.source) && IsInt32(r.value.head.line) && IsInt32(r.value.head.lastLine)
              && |r.value.code| < WORDS32 && |r.value.constants| < WORDS32
              && forall i :: 0 <= i < |r.value.constants| ==> EncodableConst(r.value.constants[i])
  {
    hide GetHead, GetList, EncodableConst, IsInt32, ShortString;
    HeadEncodable(b);
    var head := GetHead(b);
    if head.Got? {
      CodeBelow(head.rest);
      var code := GetList(head.rest, Get32);
      if code.Got? {
        ConstantsEncodable(code.rest);
      }
    }
  }

  lemma {:induction false} ReadAreEncodable(n: nat, b: Bytes)
    ensures var r := GetProtos(n, b); r.Got? ==> forall i :: 0 <= i < |r.value| ==> Encodable(r.value[i])
    decreases |b|, n + 1
  {
    hide GetProto, Encodable;
    if n > 0 {
      ReadIsEncodable(b);
      if GetProto(b).Got? {
        ReadAreEncodable(n - 1, GetProto(b).rest);
      }
    }
  }

  // ----- the file -----

  type Digest = d: Bytes | |d| == 32 witness seq(32, _ => 0)

  const MAGIC: Bytes := [84, 79, 76, 66]
  const VERSION := 1

  function Put16(n: nat): (b: Bytes)
    requires n < 0x1_0000
    ensures |b| == 2
  {
    [n / 0x100, n % 0x100]
  }

  // Constants the writer refuses: tables, functions and the like.
  predicate Supported(p: Proto)
  {
    && (forall i :: 0 <= i < |p.header.constants| ==> !p.header.constants[i].COther?)
    && forall i :: 0 <= i < |p.children| ==> Supported(p.children[i])
  }

  function Framed(payload: Bytes, vmId: Bytes, sha: Bytes -> Digest): Bytes
  {
    MAGIC + (Put16(VERSION) + (PutString(vmId) + (Put32(|payload|) + (payload + sha(payload)))))
  }

  // EncodeFunctionProto
  function Encode(p: Proto, vmId: Bytes, sha: Bytes -> Digest): Option<Bytes>
  {
    if Supported(p) then Some(Framed(PutProto(p), vmId, sha)) else None
  }

  datatype Decoded =
    | Accepted(p: Proto)
    | BadHeader | BadMagic | BadVersion | BadVmId | BadSize | TrailingBytes | BadChecksum
    | BadPayload | TrailingPayload | Invalid(fault: Fault)

  // decodeFunctionProtoV2
  ghost function Decode(data: Bytes, vmId: Bytes, sha: Bytes -> Digest): Decoded
  {
    if |data| < 4 then BadHeader
    else if data[..4] != MAGIC then BadMagic
    else if |data| < 6 then BadHeader
    else if data[4] as int * 0x100 + data[5] != VERSION then BadVersion
    else
      match GetString(data[6..])
      case Short => BadHeader
      case Got(id, r1) =>
        if id != vmId then BadVmId
        else
          match Get32(r1)
          case Short => BadHeader
          case Got(n, r2) => DecodePayload(n, r2, sha)
  }

  // The payload length is compared in 32 bits.
  ghost function DecodePayload(n: nat, r: Bytes, sha: Bytes -> Digest): Decoded
  {
    if n > |r| % WORDS32 || |r| - n < 32 then BadSize
    else if |r| != n + 32 then TrailingBytes
    else if sha(r[..n]) != r[n..] then BadChecksum
    else
      match GetProto(r[..n])
      case Short => BadPayload
      case Got(p, rest) =>
        if rest != [] then TrailingPayload
        else
          match CheckProto(p).reported
          case Some(fault) => Invalid(fault)
          case None => Accepted(p)
  }

  // ----- the round trip of files -----

  // Lengths at which the 32-bit comparisons of the loader do not wrap.
  predicate SizesFit(payload: nat, vmId: nat)
  {
    payload + 32 < WORDS32 && (vmId == 0 || vmId <= (vmId + payload + 36) % WORDS32)
  }

  lemma FramedParts(payload: Bytes, vmId: Bytes, sha: Bytes -> Digest) returns (r1: Bytes, r2: Bytes)
    ensures r2 == payload + sha(payload) && r1 == Put32(|payload|) + r2
    ensures var data := Framed(payload, vmId, sha);
            && |data| == 10 + |vmId| + |r1| && data[..4] == MAGIC && data[4] as int * 0x100 + data[5] == VERSION
            && data[6..] == PutString(vmId) + r1
  {
    hide Put32;
    r2 := payload + sha(payload);
    r1 := Put32(|payload|) + r2;
    var data := Framed(payload, vmId, sha);
    assert data == MAGIC + (Put16(VERSION) + (PutString(vmId) + r1));
    assert (Put16(VERSION) + (PutString(vmId) + r1))[2..] == PutString(vmId) + r1;
    assert data[6..] == (Put16(VERSION) + (PutString(vmId) + r1))[2..];
  }

  // The id reads back unless the space left, in 32 bits, seems too small.
  lemma VmIdReads(s: Bytes, t: Bytes)
    requires |s| < WORDS32
    ensures GetString(PutString(s) + t) ==
            if s == [] || |s| <= (|s| + |t|) % WORDS32 then Got(s, t) else Short
  {
    hide Put32, Get32;
    var tail := s + t;
    assert PutString(s) + t == Put32(|s|) + tail;
    Word32RoundTrip(|s|, tail);
    SmallRemainder(|s|);
    assert tail[..|s|] == s && tail[|s|..] == t;
  }

  lemma DecodeFramed(payload: Bytes, vmId: Bytes, sha: Bytes -> Digest)
    requires |vmId| < WORDS32
    ensures Decode(Framed(payload, vmId, sha), vmId, sha) ==
            if vmId == [] || |vmId| <= (|vmId| + |payload| + 36) % WORDS32
            then DecodePayload(|payload| % WORDS32, payload + sha(payload), sha) else BadHeader
  {
    hide Framed, PutString, Put32, GetString, Get32, DecodePayload;
    var r1, r2 := FramedParts(payload, vmId, sha);
    VmIdReads(vmId, r1);
    Word32RoundTrip(|payload|, r2);
    assert |vmId| + |r1| == |vmId| + |payload| + 36;
  }

  lemma PayloadAccepted(p: Proto, sha: Bytes -> Digest)
    ensures var payload := PutProto(p);
            DecodePayload(|payload| % WORDS32, payload + sha(payload), sha) == Accepted(p) <==>
            |payload| + 32 < WORDS32 && GetProto(payload) == Got(p, []) && CheckProto(p).reported.None?
  {
    hide PutProto, GetProto, CheckProto;
    var payload := PutProto(p);
    var r := payload + sha(payload);
    if |payload| + 32 < WORDS32 {
      SmallRemainder(|payload|);
      SmallRemainder(|r|);
      assert r[..|payload|] == payload && r[|payload|..] == sha(payload);
    } else {
      WrapsSmaller(|payload|);
    }
  }

  // From 32 bytes below 4 GiB on the length check fails.
  lemma WrapsSmaller(n: nat)
    requires n + 32 >= WORDS32
    ensures n % WORDS32 > (n + 32) % WORDS32 || n % WORDS32 != n
  {
  }

  // A supported prototype decodes to itself exactly when its lengths and integers have 32 bits, its
  // addresses are canonical, the sizes do not wrap, and it passes the loader's checks.
  lemma FileRoundTrip(p: Proto, vmId: Bytes, sha: Bytes -> Digest)
    requires Supported(p) && |vmId| < WORDS32
    ensures Decode(Encode(p, vmId, sha).value, vmId, sha) == Accepted(p) <==>
            Encodable(p) && SizesFit(|PutProto(p)|, |vmId|) && CheckProto(p).reported.None?
  {
    var payload := PutProto(p);
    hide PutProto, GetProto, CheckProto, Supported, Encodable, DecodePayload, Decode, Framed;
    DecodeFramed(payload, vmId, sha);
    PayloadAccepted(p, sha);
    if |payload| + 32 < WORDS32 && Encodable(p) {
      assert payload + [] == payload;
      ProtoReadsBack(p, []);
    }
    ReadIsEncodable(payload);
  }
}
