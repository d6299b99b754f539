/**
 The writer and the reader of prototypes, updating a buffer and a cursor in place, and that they
 follow the wire format.
 */
module BytecodeIO {
  import opened Options
  import opened Uint256
  import opened Opcodes
  import opened Instructions
  import opened Wire
  import opened Registers
  import opened Bytecode

  lemma PutStep<T>(before: Bytes, xs: seq<T>, i: nat, put: T -> Bytes)
    requires i < |xs|
    ensures before + PutAll(xs[i..], put) == (before + put(xs[i])) + PutAll(xs[i + 1..], put)
  {
    assert xs[i..][1..] == xs[i + 1..];
  }

  // A list is written: the count, then every element.
  lemma PutEnds<T>(before: Bytes, xs: seq<T>, put: T -> Bytes)
    ensures xs[0..] == xs && PutAll(xs[|xs|..], put) == []
    ensures (before + Put32(|xs|)) + PutAll(xs, put) == before + PutList(xs, put)
  {
    hide Put32;
  }

  // What a reading method did: got the value and moved behind it, or failed.
  ghost predicate Did<T(!new)>(r: Parsed<T>, v: Option<T>, rest: Bytes)
  {
    if r.Got? then v == Some(r.value) && rest == r.rest else v == None
  }

  // The elements read so far in front of those still to be read.
  ghost function Prepend<T(!new)>(xs: seq<T>, r: Parsed<seq<T>>): Parsed<seq<T>>
  {
    if r.Got? then Got(xs + r.value, r.rest) else Short
  }

  lemma GetAllStep<T(!new)>(xs: seq<T>, n: nat, b: Bytes, get: Bytes -> Parsed<T>)
    requires Shrinks(get) && n > 0
    ensures Prepend(xs, GetAll(n, b, get)) ==
            if get(b).Got? then Prepend(xs + [get(b).value], GetAll(n - 1, get(b).rest, get)) else Short
  {
    var x := get(b);
    if x.Got? && GetAll(n - 1, x.rest, get).Got? {
      var more := GetAll(n - 1, x.rest, get).value;
      assert xs + ([x.value] + more) == (xs + [x.value]) + more;
    }
  }

  lemma GetAllEnds<T(!new)>(xs: seq<T>, n: nat, b: Bytes, get: Bytes -> Parsed<T>)
    requires Shrinks(get)
    ensures Prepend(xs, GetAll(0, b, get)) == Got(xs, b)
    ensures Prepend([], GetAll(n, b, get)) == GetAll(n, b, get)
  {
    assert xs + [] == xs;
    if GetAll(n, b, get).Got? {
      assert [] + GetAll(n, b, get).value == GetAll(n, b, get).value;
    }
  }

  lemma GettersShrink()
    ensures Shrinks(Get32) && Shrinks(GetConst) && Shrinks(GetInt)
    ensures Shrinks(GetLocal) && Shrinks(GetCall) && Shrinks(GetString)
  {
  }

  lemma ListStart<T(!new)>(b: Bytes, get: Bytes -> Parsed<T>)
    requires Shrinks(get)
    ensures GetList(b, get) == if Get32(b).Got? then GetAll(Get32(b).value, Get32(b).rest, get) else Short
  {
  }

  lemma NoMoreProtos(ps: seq<Proto>, n: nat, b: Bytes)
    ensures Prepend(ps, GetProtos(0, b)) == Got(ps, b)
    ensures Prepend([], GetProtos(n, b)) == GetProtos(n, b)
  {
    hide GetProto;
    assert ps + [] == ps;
    if GetProtos(n, b).Got? {
      assert [] + GetProtos(n, b).value == GetProtos(n, b).value;
    }
  }

  lemma GetProtosStep(ps: seq<Proto>, n: nat, b: Bytes)
    requires n > 0
    ensures Prepend(ps, GetProtos(n, b)) ==
            if GetProto(b).Got? then Prepend(ps + [GetProto(b).value], GetProtos(n - 1, GetProto(b).rest)) else Short
  {
    hide GetProto;
    var p := GetProto(b);
    if p.Got? && GetProtos(n - 1, p.rest).Got? {
      var more := GetProtos(n - 1, p.rest).value;
      assert ps + ([p.value] + more) == (ps + [p.value]) + more;
    }
  }

  // bytes.Buffer
  class Buffer {
    var bytes: Bytes

    constructor ()
      ensures bytes == []
    {
      bytes := [];
    }

    method U8(b: Byte)
      modifies this
      ensures bytes == old(bytes) + [b]
    {
      bytes := bytes + [b];
    }

    method U32(n: int)
      modifies this
      ensures bytes == old(bytes) + Put32(n)
    {
      bytes := bytes + Put32(n);
    }

    method Str(s: Bytes)
      modifies this
      ensures bytes == old(bytes) + PutString(s)
    {
      U32(|s|);
      bytes := bytes + s;
    }

    method WriteConst(c: Const) returns (ok: bool)
      modifies this
      ensures ok <==> !c.COther?
      ensures bytes == old(bytes) + PutConst(c)
    {
      hide PutNumber, PutString;
      ok := true;
      match c
      case CNil => U8(TAG_NIL);
      case CBool(b) => U8(TAG_BOOL); U8(if b then 1 else 0);
      case CNumber(n) => U8(TAG_NUMBER); bytes := bytes + PutNumber(n);
      case CString(s) => U8(TAG_STRING); Str(s);
      case CAgent(s) => U8(TAG_AGENT); Str(s);
      case COther => ok := false;
    }

    method WriteCode(xs: seq<Word32>)
      modifies this
      ensures bytes == old(bytes) + PutList(xs, PutCode)
    {
      hide Put32, PutList;
      U32(|xs|);
      ghost var start := bytes;
      PutEnds(old(bytes), xs, PutCode);
      for i := 0 to |xs|
        invariant bytes + PutAll(xs[i..], PutCode) == start + PutAll(xs, PutCode)
      {
        PutStep(bytes, xs, i, PutCode);
        U32(xs[i]);
      }
      assert bytes + PutAll(xs[|xs|..], PutCode) == bytes;
    }

    method WritePositions(xs: seq<int>)
      modifies this
      ensures bytes == old(bytes) + PutList(xs, PutInt)
    {
      hide Put32, PutList;
      U32(|xs|);
      ghost var start := bytes;
      PutEnds(old(bytes), xs, PutInt);
      for i := 0 to |xs|
        invariant bytes + PutAll(xs[i..], PutInt) == start + PutAll(xs, PutInt)
      {
        PutStep(bytes, xs, i, PutInt);
        U32(xs[i]);
      }
      assert bytes + PutAll(xs[|xs|..], PutInt) == bytes;
    }

    method WriteCalls(xs: seq<Call>)
      modifies this
      ensures bytes == old(bytes) + PutList(xs, PutCall)
    {
      hide Put32, PutList;
      U32(|xs|);
      ghost var start := bytes;
      PutEnds(old(bytes), xs, PutCall);
      for i := 0 to |xs|
        invariant bytes + PutAll(xs[i..], PutCall) == start + PutAll(xs, PutCall)
      {
        PutStep(bytes, xs, i, PutCall);
        Str(xs[i].name);
        U32(xs[i].pc);
      }
      assert bytes + PutAll(xs[|xs|..], PutCall) == bytes;
    }

    method WriteNames(xs: seq<Bytes>)
      modifies this
      ensures bytes == old(bytes) + PutList(xs, PutString)
    {
      hide Put32, PutList;
      U32(|xs|);
      ghost var start := bytes;
      PutEnds(old(bytes), xs, PutString);
      for i := 0 to |xs|
        invariant bytes + PutAll(xs[i..], PutString) == start + PutAll(xs, PutString)
      {
        PutStep(bytes, xs, i, PutString);
        Str(xs[i]);
      }
      assert bytes + PutAll(xs[|xs|..], PutString) == bytes;
    }

    method WriteConstants(xs: seq<Const>) returns (ok: bool)
      modifies this
      ensures ok <==> forall i :: 0 <= i < |xs| ==> !xs[i].COther?
      ensures ok ==> bytes == old(bytes) + PutList(xs, PutConst)
    {
      hide Put32, PutConst, PutList;
      U32(|xs|);
      ghost var start := bytes;
      PutEnds(old(bytes), xs, PutConst);
      for i := 0 to |xs|
        invariant forall j :: 0 <= j < i ==> !xs[j].COther?
        invariant bytes + PutAll(xs[i..], PutConst) == start + PutAll(xs, PutConst)
      {
        PutStep(bytes, xs, i, PutConst);
        ok := WriteConst(xs[i]);
        if !ok {
          return;
        }
      }
      assert bytes + PutAll(xs[|xs|..], PutConst) == bytes;
      ok := true;
    }

    method WriteLocal(l: Option<Local>)
      modifies this
      ensures bytes == old(bytes) + PutLocal(l)
    {
      if l.None? {
        U8(0);
        return;
      }
      hide Put32, PutString;
      U8(1);
      Str(l.value.name);
      U32(l.value.reg);
      U8(l.value.attr);
      U32(l.value.startPc);
      U32(l.value.endPc);
    }

    method WriteLocals(xs: seq<Option<Local>>)
      modifies this
      ensures bytes == old(bytes) + PutList(xs, PutLocal)
    {
      hide Put32, PutLocal, PutList;
      U32(|xs|);
      ghost var start := bytes;
      PutEnds(old(bytes), xs, PutLocal);
      for i := 0 to |xs|
        invariant bytes + PutAll(xs[i..], PutLocal) == start + PutAll(xs, PutLocal)
      {
        PutStep(bytes, xs, i, PutLocal);
        WriteLocal(xs[i]);
      }
      assert bytes + PutAll(xs[|xs|..], PutLocal) == bytes;
    }

    method WriteHead(h: Header)
      modifies this
      ensures bytes == old(bytes) + PutHead(h)
    {
      hide Put32, PutString;
      Str(h.sourceName);
      U32(h.lineDefined);
      U32(h.lastLineDefined);
      U8(h.numUpvalues);
      U8(h.numParameters);
      U8(h.isVarArg);
      U8(h.numUsedRegs);
    }

    method WriteDebug(h: Header)
      modifies this
      ensures bytes == old(bytes) + PutTail(h)
    {
      hide PutList;
      WritePositions(h.positions);
      WriteLocals(h.locals);
      WriteCalls(h.calls);
      WriteNames(h.upvalues);
    }

    // writeProto: fails on a constant of another type, and otherwise appends the whole tree.
    method WriteProto(p: Proto) returns (ok: bool)
      modifies this
      ensures ok <==> Supported(p)
      ensures ok ==> bytes == old(bytes) + PutProto(p)
      decreases p, 0
    {
      hide PutHead, PutTail, PutList, Put32, PutProtos;
      WriteHead(p.header);
      WriteCode(p.code);
      ok := WriteConstants(p.header.constants);
      if !ok {
        return;
      }
      U32(|p.children|);
      ok := WriteProtos(p.children);
      if !ok {
        return;
      }
      WriteDebug(p.header);
    }

    method WriteProtos(ps: seq<Proto>) returns (ok: bool)
      modifies this
      ensures ok <==> forall i :: 0 <= i < |ps| ==> Supported(ps[i])
      ensures ok ==> bytes == old(bytes) + PutProtos(ps)
      decreases ps, 1
    {
      hide PutProto;
      ghost var start := bytes;
      assert ps[0..] == ps;
      for i := 0 to |ps|
        invariant forall j :: 0 <= j < i ==> Supported(ps[j])
        invariant bytes + PutProtos(ps[i..]) == start + PutProtos(ps)
      {
        assert ps[i..][1..] == ps[i + 1..];
        ok := WriteProto(ps[i]);
        if !ok {
          return;
        }
      }
      ok := true;
    }
  }

  class ByteReader {
    const b: Bytes
    var n: nat

    ghost predicate Valid()
      reads this
    {
      n <= |b|
    }

    ghost function Rest(): Bytes
      reads this
      requires Valid()
    {
      b[n..]
    }

    constructor (data: Bytes)
      ensures Valid() && b == data && Rest() == data
    {
      b, n := data, 0;
    }

    method ReadU8() returns (v: Option<Byte>)
      requires Valid()
      modifies this
      ensures Valid() && Did(GetByte(old(Rest())), v, Rest())
    {
      if n >= |b| {
        return None;
      }
      v := Some(b[n]);
      n := n + 1;
    }

    method ReadU32() returns (v: Option<Word32>)
      requires Valid()
      modifies this
      ensures Valid() && Did(Get32(old(Rest())), v, Rest())
    {
      if |b| - n < 4 {
        n := |b|;
        return None;
      }
      v := Some(Join32(b[n], b[n + 1], b[n + 2], b[n + 3]));
      n := n + 4;
    }

    method ReadI32() returns (v: Option<int>)
      requires Valid()
      modifies this
      ensures Valid() && Did(GetInt(old(Rest())), v, Rest())
    {
      hide Get32;
      var w := ReadU32();
      v := if w.Some? then Some(Signed32(w.value)) else None;
    }

    method ReadString() returns (v: Option<Bytes>)
      requires Valid()
      modifies this
      ensures Valid() && Did(GetString(old(Rest())), v, Rest())
    {
      hide Get32;
      var len := ReadU32();
      if len.None? {
        return None;
      }
      if len.value == 0 {
        return Some([]);
      }
      if len.value > (|b| - n) % WORDS32 {
        return None;
      }
      ghost var tail := Rest();
      v := Some(b[n..n + len.value]);
      n := n + len.value;
      assert v.value == tail[..len.value] && Rest() == tail[len.value..];
    }

    method ReadNumber() returns (v: Option<U256>)
      requires Valid()
      modifies this
      ensures Valid() && Did(GetNumber(old(Rest())), v, Rest())
    {
      if |b| - n < 32 {
        n := |b|;
        return None;
      }
      var r := b[n..];
      v := Some(U256(GetWord(r[..8]), GetWord(r[8..16]), GetWord(r[16..24]), GetWord(r[24..32])));
      n := n + 32;
    }

    method ReadConst() returns (v: Option<Const>)
      requires Valid()
      modifies this
      ensures Valid() && Did(GetConst(old(Rest())), v, Rest())
    {
      hide GetNumber, GetString, ParseAgent;
      var tag := ReadU8();
      if tag.None? {
        return None;
      }
      if tag.value == TAG_NIL {
        return Some(CNil);
      }
      if tag.value == TAG_BOOL {
        var x := ReadU8();
        v := if x.Some? then Some(CBool(x.value != 0)) else None;
      } else if tag.value == TAG_NUMBER {
        var x := ReadNumber();
        v := if x.Some? then Some(CNumber(x.value)) else None;
      } else if tag.value == TAG_STRING {
        var x := ReadString();
        v := if x.Some? then Some(CString(x.value)) else None;
      } else if tag.value == TAG_AGENT {
        var x := ReadString();
        if x.None? {
          return None;
        }
        var a := ParseAgent(x.value);
        v := if a.Some? then Some(CAgent(a.value)) else None;
      } else {
        v := None;
      }
    }

    method ReadLocal() returns (v: Option<Option<Local>>)
      requires Valid()
      modifies this
      ensures Valid() && Did(GetLocal(old(Rest())), v, Rest())
    {
      hide GetString, GetInt;
      var present := ReadU8();
      if present.None? {
        return None;
      }
      if present.value == 0 {
        return Some(None);
      }
      v := None;
      var name := ReadString();
      if name.None? { return; }
      var reg := ReadI32();
      if reg.None? { return; }
      var attr := ReadU8();
      if attr.None? { return; }
      var startPc := ReadI32();
      if startPc.None? { return; }
      var endPc := ReadI32();
      if endPc.None? { return; }
      v := Some(Some(Local(name.value, reg.value, attr.value, startPc.value, endPc.value)));
    }

    method ReadCall() returns (v: Option<Call>)
      requires Valid()
      modifies this
      ensures Valid() && Did(GetCall(old(Rest())), v, Rest())
    {
      hide GetString, GetInt;
      v := None;
      var name := ReadString();
      if name.None? { return; }
      var pc := ReadI32();
      if pc.None? { return; }
      v := Some(Call(name.value, pc.value));
    }

    method ReadCode() returns (v: Option<seq<Word32>>)
      requires Valid()
      modifies this
      ensures Valid() && Did(GetList(old(Rest()), Get32), v, Rest())
    {
      hide Get32, Shrinks, GetList, GetAll, Prepend;
      GettersShrink();
      ListStart(Rest(), Get32);
      var count := ReadU32();
      if count.None? {
        return None;
      }
      ghost var all := GetAll(count.value, Rest(), Get32);
      GetAllEnds([], count.value, Rest(), Get32);
      var xs: seq<Word32> := [];
      for i := 0 to count.value
        invariant Valid() && |xs| == i
        invariant Prepend(xs, GetAll(count.value - i, Rest(), Get32)) == all
      {
        GetAllStep(xs, count.value - i, Rest(), Get32);
        var x := ReadU32();
        if x.None? {
          return None;
        }
        xs := xs + [x.value];
      }
      GetAllEnds(xs, 0, Rest(), Get32);
      v := Some(xs);
    }

    method ReadConstants() returns (v: Option<seq<Const>>)
      requires Valid()
      modifies this
      ensures Valid() && Did(GetList(old(Rest()), GetConst), v, Rest())
    {
      hide Get32, GetConst, Shrinks, GetList, GetAll, Prepend;
      GettersShrink();
      ListStart(Rest(), GetConst);
      var count := ReadU32();
      if count.None? {
        return None;
      }
      ghost var all := GetAll(count.value, Rest(), GetConst);
      GetAllEnds([], count.value, Rest(), GetConst);
      var xs: seq<Const> := [];
      for i := 0 to count.value
        invariant Valid() && |xs| == i
        invariant Prepend(xs, GetAll(count.value - i, Rest(), GetConst)) == all
      {
        GetAllStep(xs, count.value - i, Rest(), GetConst);
        var x := ReadConst();
        if x.None? {
          return None;
        }
        xs := xs + [x.value];
      }
      GetAllEnds(xs, 0, Rest(), GetConst);
      v := Some(xs);
    }

    method ReadPositions() returns (v: Option<seq<int>>)
      requires Valid()
      modifies this
      ensures Valid() && Did(GetList(old(Rest()), GetInt), v, Rest())
    {
      hide Get32, GetInt, Shrinks, GetList, GetAll, Prepend;
      GettersShrink();
      ListStart(Rest(), GetInt);
      var count := ReadU32();
      if count.None? {
        return None;
      }
      ghost var all := GetAll(count.value, Rest(), GetInt);
      GetAllEnds([], count.value, Rest(), GetInt);
      var xs: seq<int> := [];
      for i := 0 to count.value
        invariant Valid() && |xs| == i
        invariant Prepend(xs, GetAll(count.value - i, Rest(), GetInt)) == all
      {
        GetAllStep(xs, count.value - i, Rest(), GetInt);
        var x := ReadI32();
        if x.None? {
          return None;
        }
        xs := xs + [x.value];
      }
      GetAllEnds(xs, 0, Rest(), GetInt);
      v := Some(xs);
    }

    method ReadLocals() returns (v: Option<seq<Option<Local>>>)
      requires Valid()
      modifies this
      ensures Valid() && Did(GetList(old(Rest()), GetLocal), v, Rest())
    {
      hide Get32, GetLocal, Shrinks, GetList, GetAll, Prepend;
      GettersShrink();
      ListStart(Rest(), GetLocal);
      var count := ReadU32();
      if count.None? {
        return None;
      }
      ghost var all := GetAll(count.value, Rest(), GetLocal);
      GetAllEnds([], count.value, Rest(), GetLocal);
      var xs: seq<Option<Local>> := [];
      for i := 0 to count.value
        invariant Valid() && |xs| == i
        invariant Prepend(xs, GetAll(count.value - i, Rest(), GetLocal)) == all
      {
        GetAllStep(xs, count.value - i, Rest(), GetLocal);
        var x := ReadLocal();
        if x.None? {
          return None;
        }
        xs := xs + [x.value];
      }
      GetAllEnds(xs, 0, Rest(), GetLocal);
      v := Some(xs);
    }

    method ReadCalls() returns (v: Option<seq<Call>>)
      requires Valid()
      modifies this
      ensures Valid() && Did(GetList(old(Rest()), GetCall), v, Rest())
    {
      hide Get32, GetCall, Shrinks, GetList, GetAll, Prepend;
      GettersShrink();
      ListStart(Rest(), GetCall);
      var count := ReadU32();
      if count.None? {
        return None;
      }
      ghost var all := GetAll(count.value, Rest(), GetCall);
      GetAllEnds([], count.value, Rest(), GetCall);
      var xs: seq<Call> := [];
      for i := 0 to count.value
        invariant Valid() && |xs| == i
        invariant Prepend(xs, GetAll(count.value - i, Rest(), GetCall)) == all
      {
        GetAllStep(xs, count.value - i, Rest(), GetCall);
        var x := ReadCall();
        if x.None? {
          return None;
        }
        xs := xs + [x.value];
      }
      GetAllEnds(xs, 0, Rest(), GetCall);
      v := Some(xs);
    }

    method ReadNames() returns (v: Option<seq<Bytes>>)
      requires Valid()
      modifies this
      ensures Valid() && Did(GetList(old(Rest()), GetString), v, Rest())
    {
      hide Get32, GetString, Shrinks, GetList, GetAll, Prepend;
      GettersShrink();
      ListStart(Rest(), GetString);
      var count := ReadU32();
      if count.None? {
        return None;
      }
      ghost var all := GetAll(count.value, Rest(), GetString);
      GetAllEnds([], count.value, Rest(), GetString);
      var xs: seq<Bytes> := [];
      for i := 0 to count.value
        invariant Valid() && |xs| == i
        invariant Prepend(xs, GetAll(count.value - i, Rest(), GetString)) == all
      {
        GetAllStep(xs, count.value - i, Rest(), GetString);
        var x := ReadString();
        if x.None? {
          return None;
        }
        xs := xs + [x.value];
      }
      GetAllEnds(xs, 0, Rest(), GetString);
      v := Some(xs);
    }

    method ReadHead() returns (v: Option<Head>)
      requires Valid()
      modifies this
      ensures Valid() && Did(GetHead(old(Rest())), v, Rest())
    {
      hide GetString, GetInt;
      v := None;
      var source := ReadString();
      if source.None? { return; }
      var line := ReadI32();
      if line.None? { return; }
      var lastLine := ReadI32();
      if lastLine.None? { return; }
      var nup := ReadU8();
      if nup.None? { return; }
      var nparam := ReadU8();
      if nparam.None? { return; }
      var vararg := ReadU8();
      if vararg.None? { return; }
      var nreg := ReadU8();
      if nreg.None? { return; }
      v := Some(Head(source.value, line.value, lastLine.value, nup.value, nparam.value, vararg.value, nreg.value));
    }

    method ReadDebug() returns (v: Option<Tail>)
      requires Valid()
      modifies this
      ensures Valid() && Did(GetTail(old(Rest())), v, Rest())
    {
      hide GetList, Shrinks, GetInt, GetLocal, GetCall, GetString;
      GettersShrink();
      v := None;
      var positions := ReadPositions();
      if positions.None? { return; }
      var locals := ReadLocals();
      if locals.None? { return; }
      var calls := ReadCalls();
      if calls.None? { return; }
      var upvalues := ReadNames();
      if upvalues.None? { return; }
      v := Some(Tail(positions.value, locals.value, calls.value, upvalues.value));
    }

    method ReadTop() returns (v: Option<Top>)
      requires Valid()
      modifies this
      ensures Valid() && Did(GetTop(old(Rest())), v, Rest())
    {
      hide GetHead, GetList, Get32, GetConst, Shrinks;
      GettersShrink();
      v := None;
      var head := ReadHead();
      if head.None? { return; }
      var code := ReadCode();
      if code.None? { return; }
      var constants := ReadConstants();
      if constants.None? { return; }
      v := Some(Top(head.value, code.value, constants.value));
    }

    // readProto
    method ReadProto() returns (v: Option<Proto>)
      requires Valid()
      modifies this
      ensures Valid() && Did(GetProto(old(Rest())), v, Rest())
      decreases |Rest()|, 0
    {
      hide GetTop, GetTail, GetProtos, Get32;
      v := None;
      var top := ReadTop();
      if top.None? { return; }
      var count := ReadU32();
      if count.None? { return; }
      var children := ReadProtos(count.value);
      if children.None? { return; }
      var tail := ReadDebug();
      if tail.None? { return; }
      v := Some(Assembled(top.value, children.value, tail.value));
    }

    method ReadProtos(count: nat) returns (v: Option<seq<Proto>>)
      requires Valid()
      modifies this
      ensures Valid() && Did(GetProtos(count, old(Rest())), v, Rest())
      decreases |Rest()|, count + 1
    {
      hide GetProto, GetProtos, Prepend;
      ghost var all := GetProtos(count, Rest());
      NoMoreProtos([], count, Rest());
      var ps: seq<Proto> := [];
      for i := 0 to count
        invariant Valid() && |ps| == i && |Rest()| <= |old(Rest())|
        invariant i > 0 ==> |Rest()| < |old(Rest())|
        invariant Prepend(ps, GetProtos(count - i, Rest())) == all
      {
        GetProtosStep(ps, count - i, Rest());
        var p := ReadProto();
        if p.None? {
          return None;
        }
        ps := ps + [p.value];
      }
      NoMoreProtos(ps, 0, Rest());
      v := Some(ps);
    }
  }

  method EncodeFunctionProto(p: Proto, vmId: Bytes, sha: Bytes -> Digest) returns (data: Option<Bytes>)
    ensures data == Encode(p, vmId, sha)
  {
    hide Put32, PutString, PutProto, Supported;
    var payload := new Buffer();
    var ok := payload.WriteProto(p);
    if !ok {
      return None;
    }
    var sum := sha(payload.bytes);
    var buf := new Buffer();
    buf.bytes := MAGIC + Put16(VERSION);
    buf.Str(vmId);
    buf.U32(|payload.bytes|);
    buf.bytes := buf.bytes + payload.bytes + sum;
    assert payload.bytes == PutProto(p);
    assert buf.bytes == Framed(payload.bytes, vmId, sha);
    data := Some(buf.bytes);
  }

  // One reader for the header, a second one confined to the payload.
  method DecodeFunctionProto(data: Bytes, vmId: Bytes, sha: Bytes -> Digest) returns (d: Decoded)
    ensures d == Decode(data, vmId, sha)
  {
    hide GetString, Get32, DecodePayload;
    var r := new ByteReader(data);
    if |data| < 4 {
      return BadHeader;
    }
    if data[..4] != MAGIC {
      return BadMagic;
    }
    if |data| < 6 {
      return BadHeader;
    }
    if data[4] as int * 0x100 + data[5] != VERSION {
      return BadVersion;
    }
    r.n := 6;
    var id := r.ReadString();
    if id.None? {
      return BadHeader;
    }
    if id.value != vmId {
      return BadVmId;
    }
    var payloadLen := r.ReadU32();
    if payloadLen.None? {
      return BadHeader;
    }
    d := DecodeRest(r.b[r.n..], payloadLen.value, sha);
  }

  method DecodeRest(data: Bytes, payloadLen: nat, sha: Bytes -> Digest) returns (d: Decoded)
    ensures d == DecodePayload(payloadLen, data, sha)
  {
    hide GetProto, CheckProto;
    if payloadLen > |data| % WORDS32 || |data| - payloadLen < 32 {
      return BadSize;
    }
    if |data| != payloadLen + 32 {
      return TrailingBytes;
    }
    var payload := data[..payloadLen];
    if sha(payload) != data[payloadLen..] {
      return BadChecksum;
    }
    var r := new ByteReader(payload);
    var p := r.ReadProto();
    if p.None? {
      return BadPayload;
    }
    if r.n != |payload| {
      return TrailingPayload;
    }
    var check := ValidateDecodedProto(p.value);
    d := if check.None? then Accepted(p.value) else Invalid(check.value);
  }
}
