/**
 The packed 32-bit form of instructions, function prototypes in both forms, and the conversions
 between them.
 */
module Instructions {
  import opened Options
  import opened Uint256
  import opened Opcodes

  // ----- operation codes -----

  const OP_CODE_MAX := 48

  function Number(op: Op): (n: int)
    ensures n == -1 <==> op == RAW
    ensures -1 <= n <= OP_CODE_MAX
  {
    match op
    case RAW => -1
    case MOVE => 0 case MOVEN => 1 case LOADK => 2 case LOADBOOL => 3 case LOADNIL => 4 case GETUPVAL => 5
    case GETGLOBAL => 6 case GETTABLE => 7 case GETTABLEKS => 8 case SETGLOBAL => 9 case SETUPVAL => 10
    case SETTABLE => 11
    case SETTABLEKS => 12 case NEWTABLE => 13 case SELF => 14 case ADD => 15 case SUB => 16 case MUL => 17
    case DIV => 18 case MOD => 19 case POW => 20 case UNM => 21 case NOT => 22 case LEN => 23
    case CONCAT => 24 case JMP => 25 case EQ => 26 case LT => 27 case LE => 28 case TEST => 29
    case TESTSET => 30 case CALL => 31 case TAILCALL => 32 case RETURN => 33 case FORLOOP => 34 case FORPREP => 35
    case TFORLOOP => 36 case SETLIST => 37 case CLOSE => 38 case CLOSURE => 39 case VARARG => 40 case BAND => 41
    case BOR => 42 case BXOR => 43 case SHL => 44 case SHR => 45 case IDIV => 46 case BNOT => 47
    case NOP => 48
  }

  function OpOf(n: int): (op: Op)
  {
    match n
    case 0 => MOVE case 1 => MOVEN case 2 => LOADK case 3 => LOADBOOL case 4 => LOADNIL case 5 => GETUPVAL
    case 6 => GETGLOBAL case 7 => GETTABLE case 8 => GETTABLEKS case 9 => SETGLOBAL case 10 => SETUPVAL
    case 11 => SETTABLE
    case 12 => SETTABLEKS case 13 => NEWTABLE case 14 => SELF case 15 => ADD case 16 => SUB case 17 => MUL
    case 18 => DIV case 19 => MOD case 20 => POW case 21 => UNM case 22 => NOT case 23 => LEN
    case 24 => CONCAT case 25 => JMP case 26 => EQ case 27 => LT case 28 => LE case 29 => TEST
    case 30 => TESTSET case 31 => CALL case 32 => TAILCALL case 33 => RETURN case 34 => FORLOOP case 35 => FORPREP
    case 36 => TFORLOOP case 37 => SETLIST case 38 => CLOSE case 39 => CLOSURE case 40 => VARARG case 41 => BAND
    case 42 => BOR case 43 => BXOR case 44 => SHL case 45 => SHR case 46 => IDIV case 47 => BNOT
    case 48 => NOP
    case _ => RAW
  }

  lemma OpOfNumber(op: Op)
    ensures OpOf(Number(op)) == op
  {
    if Number(op) < 16 {
      OpOfSmall(op);
    } else if Number(op) < 32 {
      OpOfMiddle(op);
    } else {
      OpOfLarge(op);
    }
    hide *;
  }

  lemma OpOfSmall(op: Op)
    requires Number(op) < 16
    ensures OpOf(Number(op)) == op
  {
  }

  lemma OpOfMiddle(op: Op)
    requires 16 <= Number(op) < 32
    ensures OpOf(Number(op)) == op
  {
  }

  lemma OpOfLarge(op: Op)
    requires 32 <= Number(op)
    ensures OpOf(Number(op)) == op
  {
  }

  lemma NumberOfOp(n: nat)
    requires n <= OP_CODE_MAX
    ensures Number(OpOf(n)) == n
  {
    if n < 24 {
      NumberOfSmall(n);
    } else {
      NumberOfLarge(n);
    }
    hide *;
  }

  lemma NumberOfSmall(n: nat)
    requires n < 24
    ensures Number(OpOf(n)) == n
  {
  }

  lemma NumberOfLarge(n: nat)
    requires 24 <= n <= OP_CODE_MAX
    ensures Number(OpOf(n)) == n
  {
  }

  datatype Shape = ShapeABC | ShapeABx | ShapeASbx

  // opProps[op].Type
  function ShapeOf(op: Op): Shape
  {
    match op
    case LOADK | GETGLOBAL | SETGLOBAL | CLOSURE => ShapeABx
    case JMP | FORLOOP | FORPREP | NOP => ShapeASbx
    case _ => ShapeABC
  }

  // ----- words -----

  const WORDS32 := 0x1_0000_0000
  type Word32 = w: int | 0 <= w < WORDS32

  // opGetOpCode, opGetArgA, ...: shifts and masks as quotients and remainders
  function OpField(w: Word32): nat { w / 0x400_0000 }
  function AField(w: Word32): nat { (w / 0x4_0000) % 0x100 }
  function CField(w: Word32): nat { (w / 0x200) % 0x200 }
  function BField(w: Word32): nat { w % 0x200 }
  function BxField(w: Word32): nat { w % 0x4_0000 }
  function SbxField(w: Word32): int { BxField(w) - MAX_ARG_SBX }

  // opCreateABC, opCreateABx, opCreateASbx: an argument keeps the bits of its field
  function CreateABC(op: nat, a: int, b: int, c: int): Word32
    requires op < 64
  {
    op * 0x400_0000 + (a % 0x100) * 0x4_0000 + (c % 0x200) * 0x200 + b % 0x200
  }

  function CreateABx(op: nat, a: int, bx: int): Word32
    requires op < 64
  {
    op * 0x400_0000 + (a % 0x100) * 0x4_0000 + bx % 0x4_0000
  }

  function CreateASbx(op: nat, a: int, sbx: int): Word32
    requires op < 64
  {
    CreateABx(op, a, sbx + MAX_ARG_SBX)
  }

  // Each field reads back what was put there, as far as it fits.
  lemma FieldsABC(op: nat, a: int, b: int, c: int)
    requires op < 64
    ensures var w := CreateABC(op, a, b, c);
            OpField(w) == op && AField(w) == a % 0x100 && BField(w) == b % 0x200 && CField(w) == c % 0x200
  {
  }

  lemma FieldsABx(op: nat, a: int, bx: int)
    requires op < 64
    ensures var w := CreateABx(op, a, bx);
            OpField(w) == op && AField(w) == a % 0x100 && BxField(w) == bx % 0x4_0000
  {
  }

  // A word is the sum of its fields.
  lemma WordOfFields(w: Word32)
    ensures CreateABC(OpField(w), AField(w), BField(w), CField(w)) == w
    ensures CreateABx(OpField(w), AField(w), BxField(w)) == w
    ensures CreateASbx(OpField(w), AField(w), SbxField(w)) == w
  {
    HighFields(w);
    LowFields(w);
    assert AField(w) < 0x100 && CField(w) < 0x200 && BField(w) < 0x200 && BxField(w) < 0x4_0000;
    hide OpField, AField, CField, BField, BxField;
  }

  lemma HighFields(w: Word32)
    ensures OpField(w) * 0x400_0000 + AField(w) * 0x4_0000 + BxField(w) == w
  {
    var q := w / 0x4_0000;
    assert w == q * 0x4_0000 + w % 0x4_0000;
    assert q / 0x100 == OpField(w);
    assert q == (q / 0x100) * 0x100 + q % 0x100;
  }

  lemma LowFields(w: Word32)
    ensures BxField(w) == CField(w) * 0x200 + BField(w)
  {
    var q := w / 0x200;
    assert w == q * 0x200 + w % 0x200;
    assert q / 0x200 == w / 0x4_0000;
    assert q == (q / 0x200) * 0x200 + q % 0x200;
  }

  // ----- prototypes -----

  type Byte = b: int | 0 <= b < 256
  type Bytes = seq<Byte>

  datatype Const = CNil | CBool(b: bool) | CNumber(n: U256) | CString(s: Bytes) | CAgent(s: Bytes) | COther

  datatype Local = Local(name: Bytes, reg: int, attr: Byte, startPc: int, endPc: int)

  datatype Call = Call(name: Bytes, pc: int)

  datatype Header = Header(
    sourceName: Bytes, lineDefined: int, lastLineDefined: int,
    numUpvalues: Byte, numParameters: Byte, isVarArg: Byte, numUsedRegs: Byte,
    constants: seq<Const>, positions: seq<int>, locals: seq<Option<Local>>, calls: seq<Call>, upvalues: seq<Bytes>)

  // FunctionProto with words, IRFunction with decoded instructions
  datatype Function<T> = Function(header: Header, code: seq<T>, children: seq<Function<T>>)

  type Proto = Function<Word32>
  type IRFunction = Function<Ins>

  // ----- decoding and encoding code -----

  function Unpack(w: Word32): Ins
  {
    var op := OpOf(OpField(w));
    match ShapeOf(op)
    case ShapeABC => Ins(op, AField(w), BField(w), CField(w), 0, 0, 0)
    case ShapeABx => Ins(op, AField(w), 0, 0, BxField(w), 0, 0)
    case ShapeASbx => Ins(op, AField(w), 0, 0, 0, SbxField(w), 0)
  }

  function RawWord(w: Word32): Ins { Ins(RAW, -1, -1, -1, -1, 0, w) }

  function Pack(i: Ins): Word32
    requires i.op == RAW ==> 0 <= i.raw < WORDS32
  {
    if i.op == RAW then i.raw
    else
      match ShapeOf(i.op)
      case ShapeABC => CreateABC(Number(i.op), i.a, i.b, i.c)
      case ShapeABx => CreateABx(Number(i.op), i.a, i.bx)
      case ShapeASbx => CreateASbx(Number(i.op), i.a, i.sbx)
  }

  predicate Decodable(w: Word32) { OpField(w) <= OP_CODE_MAX }

  lemma PackUnpack(w: Word32)
    requires Decodable(w)
    ensures Pack(Unpack(w)) == w
  {
    NumberOfOp(OpField(w));
    WordOfFields(w);
    hide Number, OpOf, OpField, AField, BField, CField, BxField, CreateABC, CreateABx;
  }

  // Operands that fit their fields survive packing.
  predicate FitsFields(i: Ins)
  {
    && i.op != RAW && 0 <= i.a < 0x100
    && match ShapeOf(i.op)
       case ShapeABC => 0 <= i.b < 0x200 && 0 <= i.c < 0x200
       case ShapeABx => 0 <= i.bx < 0x4_0000
       case ShapeASbx => 0 <= i.sbx + MAX_ARG_SBX < 0x4_0000
  }

  lemma UnpackPack(i: Ins)
    requires FitsFields(i)
    ensures var u := Unpack(Pack(i));
            && u.op == i.op && u.a == i.a && Decodable(Pack(i))
            && match ShapeOf(i.op)
               case ShapeABC => u.b == i.b && u.c == i.c
               case ShapeABx => u.bx == i.bx
               case ShapeASbx => u.sbx == i.sbx
  {
    hide Number, OpOf, OpField, AField, BField, CField, BxField, CreateABC, CreateABx, ShapeOf;
    OpOfNumber(i.op);
    match ShapeOf(i.op)
    case ShapeABC => FieldsABC(Number(i.op), i.a, i.b, i.c);
    case ShapeABx => FieldsABx(Number(i.op), i.a, i.bx);
    case ShapeASbx => FieldsABx(Number(i.op), i.a, i.sbx + MAX_ARG_SBX);
  }

  // irFromProto's loop: the word behind a SETLIST with C = 0 is data.
  function UnpackCode(code: seq<Word32>): (ir: seq<Ins>)
    ensures |ir| == |code|
  {
    if code == [] then []
    else
      var i := Unpack(code[0]);
      if i.op == SETLIST && i.c == 0 && |code| > 1 then [i, RawWord(code[1])] + UnpackCode(code[2..])
      else [i] + UnpackCode(code[1..])
  }

  predicate Packable(ir: seq<Ins>)
  {
    forall k :: 0 <= k < |ir| && ir[k].op == RAW ==> 0 <= ir[k].raw < WORDS32
  }

  // protoFromIR's loop
  function PackCode(ir: seq<Ins>): (code: seq<Word32>)
    requires Packable(ir)
    ensures |code| == |ir|
  {
    if ir == [] then [] else [Pack(ir[0])] + PackCode(ir[1..])
  }

  // Every instruction word, data words aside, has an operation code.
  predicate DecodableCode(code: seq<Word32>)
  {
    if code == [] then true
    else
      && Decodable(code[0])
      && var i := Unpack(code[0]);
      DecodableCode(if i.op == SETLIST && i.c == 0 && |code| > 1 then code[2..] else code[1..])
  }

  // The words the first instruction takes.
  function Head(code: seq<Word32>): (n: nat)
    requires code != []
    ensures 1 <= n <= 2 && n <= |code|
  {
    var i := Unpack(code[0]);
    if i.op == SETLIST && i.c == 0 && |code| > 1 then 2 else 1
  }

  function HeadIR(code: seq<Word32>): (ir: seq<Ins>)
    requires code != []
  {
    if Head(code) == 2 then [Unpack(code[0]), RawWord(code[1])] else [Unpack(code[0])]
  }

  lemma UnpackStep(code: seq<Word32>)
    requires code != []
    ensures UnpackCode(code) == HeadIR(code) + UnpackCode(code[Head(code)..])
    ensures DecodableCode(code) <==> Decodable(code[0]) && DecodableCode(code[Head(code)..])
  {
  }

  lemma HeadPacks(code: seq<Word32>)
    requires code != [] && Decodable(code[0])
    ensures Packable(HeadIR(code)) && PackCode(HeadIR(code)) == code[..Head(code)]
  {
    PackUnpack(code[0]);
    NumberOfOp(OpField(code[0]));
    assert Unpack(code[0]).op != RAW;
    hide Unpack, Decodable;
    if Head(code) == 2 {
      PackRaw(code[1]);
      hide Pack;
      PackTwo(Unpack(code[0]), RawWord(code[1]), []);
      assert [Unpack(code[0]), RawWord(code[1])] + [] == HeadIR(code);
      assert code[..2] == [code[0], code[1]];
    } else {
      hide Pack;
      assert HeadIR(code)[1..] == [];
    }
  }

  lemma {:induction false} PackJoin(a: seq<Ins>, b: seq<Ins>)
    requires Packable(a) && Packable(b)
    ensures Packable(a + b) && PackCode(a + b) == PackCode(a) + PackCode(b)
  {
    hide Pack;
    if a == [] {
      assert a + b == b;
    } else {
      assert (a + b)[1..] == a[1..] + b;
      PackJoin(a[1..], b);
    }
  }

  lemma {:induction false} CodeRoundTrip(code: seq<Word32>)
    requires DecodableCode(code)
    ensures Packable(UnpackCode(code)) && PackCode(UnpackCode(code)) == code
  {
    if code != [] {
      var n := Head(code);
      UnpackStep(code);
      HeadPacks(code);
      hide *;
      CodeRoundTrip(code[n..]);
      PackJoin(HeadIR(code), UnpackCode(code[n..]));
      assert code == code[..n] + code[n..];
    }
  }

  lemma PackRaw(w: Word32)
    ensures Pack(RawWord(w)) == w
  {
  }

  lemma PackTwo(i: Ins, j: Ins, rest: seq<Ins>)
    requires Packable(rest) && (i.op == RAW ==> 0 <= i.raw < WORDS32) && (j.op == RAW ==> 0 <= j.raw < WORDS32)
    ensures Packable([i, j] + rest) && PackCode([i, j] + rest) == [Pack(i), Pack(j)] + PackCode(rest)
  {
    var all := [i, j] + rest;
    assert all[1..] == [j] + rest && all[2..] == rest;
    assert ([j] + rest)[1..] == rest;
  }

  // ----- whole functions -----

  function IrOf(p: Proto): IRFunction
  {
    Function(p.header, UnpackCode(p.code),
             seq(|p.children|, i requires 0 <= i < |p.children| => IrOf(p.children[i])))
  }

  predicate PackableAll(f: IRFunction)
  {
    Packable(f.code) && forall i :: 0 <= i < |f.children| ==> PackableAll(f.children[i])
  }

  function ProtoOf(f: IRFunction): Proto
    requires PackableAll(f)
  {
    Function(f.header, PackCode(f.code),
             seq(|f.children|, i requires 0 <= i < |f.children| => ProtoOf(f.children[i])))
  }

  predicate DecodableAll(p: Proto)
  {
    DecodableCode(p.code) && forall i :: 0 <= i < |p.children| ==> DecodableAll(p.children[i])
  }

  // Decoding a function tree into IR and lowering it back gives the same tree.
  lemma {:induction false} ProtoRoundTrip(p: Proto)
    requires DecodableAll(p)
    ensures PackableAll(IrOf(p)) && ProtoOf(IrOf(p)) == p
  {
    CodeRoundTrip(p.code);
    forall i | 0 <= i < |p.children|
      ensures PackableAll(IrOf(p.children[i])) && ProtoOf(IrOf(p.children[i])) == p.children[i]
    {
      ProtoRoundTrip(p.children[i]);
    }
    hide UnpackCode, PackCode, Packable, DecodableCode;
    assert ProtoOf(IrOf(p)).children == p.children;
  }

  // irFromProto
  method IrFromProto(p: Proto) returns (f: IRFunction)
    ensures f == IrOf(p)
  {
    var code := UnpackInstructions(p.code);
    var children: seq<IRFunction> := [];
    for i := 0 to |p.children|
      invariant |children| == i && forall j :: 0 <= j < i ==> children[j] == IrOf(p.children[j])
    {
      var child := IrFromProto(p.children[i]);
      children := children + [child];
    }
    f := Function(p.header, code, children);
    assert f.children == IrOf(p).children;
  }

  method UnpackInstructions(code: seq<Word32>) returns (ir: seq<Ins>)
    ensures ir == UnpackCode(code)
  {
    hide Unpack, UnpackCode;
    ir := [];
    assert code[0..] == code;
    var i := 0;
    while i < |code|
      invariant 0 <= i <= |code|
      invariant ir + UnpackCode(code[i..]) == UnpackCode(code)
    {
      UnpackAt(code, i, ir);
      var ins := Unpack(code[i]);
      ir := ir + [ins];
      if ins.op == SETLIST && ins.c == 0 && i + 1 < |code| {
        i := i + 1;
        ir := ir + [RawWord(code[i])];
      }
      i := i + 1;
    }
    NothingUnpacked(code);
  }

  lemma NothingUnpacked(code: seq<Word32>)
    ensures UnpackCode(code[|code|..]) == []
  {
  }

  lemma UnpackAt(code: seq<Word32>, i: nat, ir: seq<Ins>)
    requires i < |code|
    ensures var ins := Unpack(code[i]);
            ir + UnpackCode(code[i..]) ==
            if ins.op == SETLIST && ins.c == 0 && i + 1 < |code| then
              ir + [ins] + [RawWord(code[i + 1])] + UnpackCode(code[i + 2..])
            else ir + [ins] + UnpackCode(code[i + 1..])
  {
    hide UnpackCode, Unpack, DecodableCode, Decodable;
    var tail := code[i..];
    UnpackStep(tail);
    var n := Head(tail);
    assert tail[n..] == code[i + n..] && tail[0] == code[i];
    assert ir + (HeadIR(tail) + UnpackCode(tail[n..])) == (ir + HeadIR(tail)) + UnpackCode(tail[n..]);
    if n == 2 {
      assert tail[1] == code[i + 1];
      assert ir + HeadIR(tail) == ir + [Unpack(code[i])] + [RawWord(code[i + 1])];
    }
  }

  // protoFromIR
  method ProtoFromIr(f: IRFunction) returns (p: Proto)
    requires PackableAll(f)
    ensures p == ProtoOf(f)
  {
    var code := PackInstructions(f.code);
    var children: seq<Proto> := [];
    for i := 0 to |f.children|
      invariant |children| == i && forall j :: 0 <= j < i ==> children[j] == ProtoOf(f.children[j])
    {
      var child := ProtoFromIr(f.children[i]);
      children := children + [child];
    }
    p := Function(f.header, code, children);
    assert p.children == ProtoOf(f).children;
  }

  method PackInstructions(ir: seq<Ins>) returns (code: seq<Word32>)
    requires Packable(ir)
    ensures code == PackCode(ir)
  {
    code := [];
    for i := 0 to |ir|
      invariant Packable(ir[..i]) && code == PackCode(ir[..i])
    {
      hide Pack;
      PackJoin(ir[..i], [ir[i]]);
      assert ir[..i + 1] == ir[..i] + [ir[i]] && [ir[i]][1..] == [];
      code := code + [Pack(ir[i])];
    }
    assert ir[..|ir|] == ir;
  }
}
