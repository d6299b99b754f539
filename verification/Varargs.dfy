/**
 The registry (the value stack) and the call layout built on it: where an entered function finds
 its parameters and surplus arguments.
 */
module Varargs {
  import opened Words
  import opened TableSpec
  import opened LuaTable

  // ----- the layout -----

  // A register that was never written, or its value.
  datatype Slot = Unset | Val(item: Item)

  const NIL := Val(Nil)

  predicate AllSet(s: seq<Slot>) { forall i :: 0 <= i < |s| ==> s[i].Val? }

  datatype Proto = Proto(numParameters: nat, isVarArg: bool, needsArg: bool, numUsed: nat)

  function Blank(n: nat): (s: seq<Slot>)
    ensures |s| == n && forall i :: 0 <= i < n ==> s[i] == NIL
  {
    seq(n, _ => NIL)
  }

  // Cut or filled up with nil to a length.
  function ToLength(s: seq<Slot>, n: nat): (t: seq<Slot>)
    ensures |t| == n
    ensures forall i :: 0 <= i < n ==> t[i] == if i < |s| then s[i] else NIL
  {
    if n <= |s| then s[..n] else s + Blank(n - |s|)
  }

  function AtLeast(args: seq<Slot>, np: nat): seq<Slot> { if |args| < np then ToLength(args, np) else args }

  // The registers between those of the caller and those of the function: cleared parameters and
  // the surplus arguments.
  function Between(args: seq<Slot>, p: Proto): seq<Slot>
  {
    if p.isVarArg then Blank(p.numParameters) + AtLeast(args, p.numParameters)[p.numParameters..] else []
  }

  function Below(caller: seq<Slot>, args: seq<Slot>, p: Proto): seq<Slot> { caller + Between(args, p) }

  // The registers of the function: its parameters, the `arg` table, nil.
  function Own(args: seq<Slot>, p: Proto, arg: Slot): seq<Slot>
  {
    var params := AtLeast(args, p.numParameters)[..p.numParameters];
    ToLength(if p.isVarArg then params + [arg] else params, p.numUsed)
  }

  // The surplus argument at a position, nil behind the last.
  function Surplus(args: seq<Slot>, np: nat, i: nat): Slot
  {
    if np + i < |args| then args[np + i] else NIL
  }

  // The number of arguments an OP_VARARG copies.
  function Wanted(nargs: nat, p: Proto, b: nat): nat
  {
    if b == 0 then Max(nargs - p.numParameters, 0) else b - 1
  }

  // The registers a call needs.
  function Need(lb: nat, nargs: nat, p: Proto): int
  {
    if p.isVarArg then lb + Max(nargs, p.numParameters) + Max(p.numParameters + 1, p.numUsed)
    else lb + Max(nargs, Max(p.numParameters, p.numUsed))
  }

  // What CopyRange leaves i registers into its target: the loop copies upwards, so that a source
  // register behind the start of the target may have been overwritten.
  function Source(live: seq<Slot>, regv: nat, start: int, limit: nat, i: nat): Slot
    requires limit <= |live|
    decreases i
  {
    var src := start + i;
    if src >= limit || src < 0 then NIL
    else if regv <= src < regv + i then Source(live, regv, start, limit, src - regv)
    else live[src]
  }

  // The fields of the `arg` table: the surplus arguments from 1 on, and their number.
  function ArgField(surplus: seq<Slot>, k: Item): Slot
  {
    if k == Str("n") then Val(Num(|surplus|))
    else if k.Num? && 1 <= k.n <= |surplus| then surplus[k.n - 1]
    else NIL
  }

  // A table with the first of some arguments.
  ghost predicate Listing(t: Table, args: seq<Slot>, i: nat)
  {
    && i <= |args|
    && forall k :: Val(Lookup(t, k)) == if k.Num? && 1 <= k.n <= i then args[k.n - 1] else NIL
  }

  lemma EmptyTable()
    ensures Listing(EMPTY, [], 0) && forall args :: Listing(EMPTY, args, 0)
  {
  }

  lemma ListOne(t: Table, args: seq<Slot>, i: nat)
    requires Inv(t) && Listing(t, args, i) && i < |args| && args[i].Val?
    ensures Inv(SetInt(t, i + 1, args[i].item)) && Listing(SetInt(t, i + 1, args[i].item), args, i + 1)
  {
    hide Lookup, SetInt, Inv;
    SetIntIsUpdate(t, i + 1, args[i].item);
  }

  lemma ListCount(t: Table, args: seq<Slot>)
    requires Inv(t) && Listing(t, args, |args|)
    ensures Inv(SetHash(t, Str("n"), FromInt(|args|)))
    ensures Listed(t.hash, t.keys, t.iterated)
    ensures forall k :: Val(Lookup(SetHash(t, Str("n"), FromInt(|args|)), k)) == ArgField(args, k)
  {
    SetHashKeeps(t, Str("n"), FromInt(|args|));
    hide Lookup, SetHash;
  }

  // All registers of a call of `p` with arguments behind `caller`.
  function Entered(caller: seq<Slot>, args: seq<Slot>, p: Proto, arg: Slot): seq<Slot>
  {
    Below(caller, args, p) + Own(args, p, arg)
  }

  lemma Swapped(live: seq<Slot>, wide: seq<Slot>, after: seq<Slot>, lb: nat, nargs: nat, np: nat)
    requires lb + nargs <= |live| && np <= nargs && wide == ToLength(live, lb + nargs + np) && |after| == |wide|
    requires forall j :: 0 <= j < |wide| && !(lb <= j < lb + np) && !(lb + nargs <= j < |wide|) ==> after[j] == wide[j]
    requires forall j :: lb <= j < lb + np ==> after[j] == NIL
    requires forall j :: lb + nargs <= j < |wide| ==> after[j] == wide[j - nargs]
    ensures after == live[..lb] + Blank(np) + live[lb + np..lb + nargs] + live[lb..lb + np]
  {
    assert after[..lb] == live[..lb];
    assert after[lb..lb + np] == Blank(np);
    assert after[lb + np..lb + nargs] == live[lb + np..lb + nargs];
    assert after[lb + nargs..] == live[lb..lb + np];
    assert after == after[..lb] + after[lb..lb + np] + after[lb + np..lb + nargs] + after[lb + nargs..];
  }

  // The parameters with the slot of the `arg` table behind them, cut to the registers used.
  lemma Arranged(head: seq<Slot>, params: seq<Slot>, arg: Slot, final: seq<Slot>, used: nat)
    requires final == ToLength(head + params + [arg], |head| + used)
    ensures final == head + ToLength(params + [arg], used)
  {
    assert head + params + [arg] == head + (params + [arg]);
  }

  lemma PaddedArguments(live: seq<Slot>, lb: nat, nargs: nat, np: nat)
    requires lb + nargs <= |live| && AllSet(live[lb..lb + nargs])
    ensures |AtLeast(live[lb..lb + nargs], np)| == Max(nargs, np)
    ensures AllSet(AtLeast(live[lb..lb + nargs], np))
  {
  }

  // The parts of the padded arguments as the registers hold them.
  lemma PaddedParts(caller: seq<Slot>, args: seq<Slot>, live: seq<Slot>, np: nat)
    requires np <= |args| && |caller| + |args| <= |live| && live[..|caller| + |args|] == caller + args
    ensures live[..|caller|] == caller
    ensures live[|caller|..|caller| + np] == args[..np]
    ensures live[|caller| + np..|caller| + |args|] == args[np..]
    ensures live[|caller|..|caller| + |args|] == args
  {
    var lb := |caller|;
    assert forall i :: 0 <= i < lb + |args| ==> live[i] == (caller + args)[i];
  }

  // The layout of a vararg function, by parts.
  lemma VarargParts(caller: seq<Slot>, args: seq<Slot>, p: Proto, arg: Slot)
    requires p.isVarArg && AllSet(AtLeast(args, p.numParameters))
    ensures var np, padded, head := p.numParameters, AtLeast(args, p.numParameters), Below(caller, args, p);
            && head == caller + Blank(np) + padded[np..] && |head| == |caller| + |padded|
            && head[|caller| + np..] == padded[np..] && AllSet(padded[np..])
            && Entered(caller, args, p, arg) == head + ToLength(padded[..np] + [arg], p.numUsed)
            && np <= |padded|
  {
  }

  // The registers between caller and function hold the surplus arguments.
  lemma SurplusHeld(live: seq<Slot>, caller: seq<Slot>, args: seq<Slot>, p: Proto, i: nat, to: nat)
    requires p.isVarArg && |Below(caller, args, p)| <= |live| && to >= |Below(caller, args, p)|
    requires live[..|Below(caller, args, p)|] == Below(caller, args, p)
    ensures Source(live, to, |caller| + p.numParameters, |Below(caller, args, p)|, i) ==
            Surplus(args, p.numParameters, i)
  {
    var below, src := Below(caller, args, p), |caller| + p.numParameters + i;
    if src < |below| {
      assert live[src] == below[src] == AtLeast(args, p.numParameters)[p.numParameters + i];
    }
  }

  lemma SurplusCopied(live: seq<Slot>, caller: seq<Slot>, args: seq<Slot>, p: Proto, n: nat, to: nat)
    requires p.isVarArg && |Below(caller, args, p)| <= |live| && to >= |Below(caller, args, p)|
    requires live[..|Below(caller, args, p)|] == Below(caller, args, p)
    ensures var start, limit := |caller| + p.numParameters, |Below(caller, args, p)|;
            forall i :: 0 <= i < n ==> Source(live, to, start, limit, i) == Surplus(args, p.numParameters, i)
  {
    forall i | 0 <= i < n
      ensures Source(live, to, |caller| + p.numParameters, |Below(caller, args, p)|, i) ==
            Surplus(args, p.numParameters, i)
    {
      SurplusHeld(live, caller, args, p, i, to);
    }
  }

  // The parameters of an entered function: argument or nil.
  lemma ParameterReads(caller: seq<Slot>, args: seq<Slot>, p: Proto, arg: Slot, i: nat)
    requires i < p.numParameters && i < p.numUsed
    ensures |Entered(caller, args, p, arg)| == |Below(caller, args, p)| + p.numUsed
    ensures Entered(caller, args, p, arg)[|Below(caller, args, p)| + i] == if i < |args| then args[i] else NIL
    ensures Entered(caller, args, p, arg)[..|caller|] == caller
  {
  }

  lemma Shifted(live: seq<Slot>, base: nat, ra: nat, args: seq<Slot>, p: Proto, arg: Slot)
    requires base < ra < |live|
    ensures var frame := Entered(live[..ra + 1], args, p, arg);
            var whole := Entered(live[..base] + [live[ra]], args, p, arg);
            && |whole| > 0 && |frame| > ra
            && frame[..base] + frame[ra..|frame| - 1] == whole[..|whole| - 1]
    ensures |Below(live[..ra + 1], args, p)| - ra == |Below(live[..base] + [live[ra]], args, p)| - base
  {
    var rest := Between(args, p) + Own(args, p, arg);
    hide Between, Own;
    assert Entered(live[..ra + 1], args, p, arg) == live[..ra + 1] + rest;
    assert Entered(live[..base] + [live[ra]], args, p, arg) == live[..base] + [live[ra]] + rest;
  }

  // What the last register of a frame holds, which a tail call loses: nil, unless it is the `arg` table
  // of a function that uses no register behind it.
  lemma LastRegister(caller: seq<Slot>, args: seq<Slot>, p: Proto, arg: Slot)
    requires p.numParameters < p.numUsed
    ensures var whole := Entered(caller, args, p, arg);
            whole[|whole| - 1] == if p.isVarArg && p.numUsed == p.numParameters + 1 then arg else NIL
  {
  }

  // ----- the registry -----

  ghost predicate IsArgTable(t: LTable, surplus: seq<Slot>)
    reads t
  {
    t.Valid() && forall k :: Val(Lookup(t.View(), k)) == ArgField(surplus, k)
  }

  lemma TableParts(t: LTable)
    requires t.Valid()
    ensures t.Consistent() && Inv(t.View()) && Listed(t.View().hash, t.View().keys, t.View().iterated)
  {
  }

  lemma TableWhole(t: LTable, surplus: seq<Slot>)
    requires t.Consistent() && Inv(t.View()) && forall k :: Val(Lookup(t.View(), k)) == ArgField(surplus, k)
    ensures IsArgTable(t, surplus)
  {
  }

  method AddArgument(t: LTable, i: nat, v: Item, ghost args: seq<Slot>)
    requires t.Valid() && Listing(t.View(), args, i) && i < |args| && args[i] == Val(v)
    modifies t
    ensures t.Valid() && Listing(t.View(), args, i + 1)
  {
    TableParts(t);
    ListOne(t.View(), args, i);
    hide *;
    t.RawSetInt(i + 1, v);
  }

  method AddCount(t: LTable, n: nat, ghost args: seq<Slot>)
    requires t.Valid() && Listing(t.View(), args, n) && n == |args|
    modifies t
    ensures IsArgTable(t, args)
  {
    TableParts(t);
    ListCount(t.View(), args);
    hide *;
    t.RawSetString("n", FromInt(n));
    TableWhole(t, args);
  }

  class Registry {
    var arr: array<Slot>
    var top: nat
    const growBy: nat
    const maxSize: nat

    ghost predicate Valid()
      reads this
    {
      top <= arr.Length
    }

    function Live(): seq<Slot>
      reads this, arr
      requires Valid()
    {
      arr[..top]
    }

    ghost function Capacity(): int
      reads this
    {
      Max(arr.Length, maxSize)
    }

    constructor (initialSize: nat, grow: nat, most: nat)
      ensures Valid() && fresh(arr) && Live() == [] && growBy == grow && maxSize == most
      ensures Capacity() == Max(initialSize, most)
    {
      arr, top, growBy, maxSize := new Slot[initialSize](_ => Unset), 0, grow, most;
    }

    // Growing keeps what is below the top; it fails, which ends the program, when there is no room left.
    method CheckSize(requiredSize: nat) returns (ok: bool)
      requires Valid()
      modifies `arr
      ensures Valid() && Live() == old(Live()) && Capacity() == old(Capacity())
      ensures arr == old(arr) || fresh(arr)
      ensures ok <==> requiredSize <= Capacity()
      ensures ok ==> requiredSize <= arr.Length
    {
      if requiredSize <= arr.Length {
        return true;
      }
      var newSize := requiredSize + growBy;
      if newSize > maxSize {
        newSize := maxSize;
      }
      if newSize < requiredSize {
        return false;
      }
      ForceResize(newSize);
      ok := true;
    }

    method ForceResize(newSize: nat)
      requires Valid() && top <= newSize
      modifies `arr
      ensures Valid() && fresh(arr) && arr.Length == newSize && Live() == old(Live())
    {
      var newSlice := new Slot[newSize](_ => Unset);
      forall i | 0 <= i < top {
        newSlice[i] := arr[i];
      }
      assert newSlice[..top] == arr[..top];
      arr := newSlice;
    }

    method Fill(lo: nat, hi: nat, v: Slot)
      requires hi <= arr.Length
      modifies arr
      ensures forall i :: 0 <= i < arr.Length ==> arr[i] == if lo <= i < hi then v else old(arr[i])
    {
      var i := lo;
      while i < hi
        invariant lo <= i <= Max(lo, hi)
        invariant forall j :: 0 <= j < arr.Length ==> arr[j] == if lo <= j < i then v else old(arr[j])
      {
        arr[i] := v;
        i := i + 1;
      }
    }

    method SetTop(topi: nat) returns (ok: bool)
      requires Valid()
      modifies this, arr
      ensures Valid() && Capacity() == old(Capacity()) && (arr == old(arr) || fresh(arr))
      ensures ok <==> topi <= Capacity()
      ensures ok ==> Live() == ToLength(old(Live()), topi)
    {
      ok := CheckSize(topi);
      if !ok {
        return;
      }
      assert forall i :: 0 <= i < top ==> arr[i] == old(Live())[i] by { assert Live() == old(Live()); }
      var oldtop := top;
      top := topi;
      Fill(oldtop, top, NIL);
      Fill(top, oldtop, Unset);
    }

    method Set(regi: nat, v: Item) returns (ok: bool)
      requires Valid()
      modifies this, arr
      ensures Valid() && Capacity() == old(Capacity()) && (arr == old(arr) || fresh(arr))
      ensures ok <==> regi < Capacity()
      ensures ok ==> top == Max(old(top), regi + 1) && Live()[regi] == Val(v)
      ensures ok ==> forall i :: 0 <= i < old(top) && i != regi ==> Live()[i] == old(Live())[i]
    {
      ok := CheckSize(regi + 1);
      if !ok {
        return;
      }
      assert forall i :: 0 <= i < top ==> arr[i] == old(Live())[i] by { assert Live() == old(Live()); }
      arr[regi] := Val(v);
      if regi >= top {
        top := regi + 1;
      }
    }

    method CopyRange(regv: nat, start: int, limit: int, n: nat) returns (ok: bool)
      requires Valid() && -1 <= limit
      modifies this, arr
      ensures Valid() && Capacity() == old(Capacity()) && (arr == old(arr) || fresh(arr))
      ensures ok <==> regv + n <= Capacity()
      ensures ok ==> top == regv + n
      ensures ok ==> forall i :: 0 <= i < regv && i < old(top) ==> Live()[i] == old(Live())[i]
      ensures ok ==> var lim := if limit == -1 || limit > old(top) then old(top) else limit;
                     forall i :: 0 <= i < n ==> Live()[regv + i] == Source(old(Live()), regv, start, lim, i)
    {
      ok := CheckSize(regv + n);
      if !ok {
        return;
      }
      ghost var live := old(Live());
      assert forall i :: 0 <= i < top ==> arr[i] == live[i] by { assert Live() == live; }
      var lim := if limit == -1 || limit > top then top else limit;
      var i := 0;
      ghost var a := arr;
      while i < n
        invariant i <= n && arr == a && top == |live|
        invariant forall j :: 0 <= j < top && !(regv <= j < regv + i) ==> arr[j] == live[j]
        invariant forall j :: 0 <= j < i ==> arr[regv + j] == Source(live, regv, start, lim, j)
      {
        var srcIdx := start + i;
        if srcIdx >= lim || srcIdx < 0 {
          arr[regv + i] := NIL;
        } else {
          arr[regv + i] := arr[srcIdx];
        }
        i := i + 1;
      }
      var oldtop := top;
      top := regv + n;
      Fill(top, oldtop, Unset);
    }

    // ----- entering a function -----

    // Missing arguments are nil.
    method PadArguments(lb: nat, nargs: nat, np: nat) returns (ok: bool, n: nat)
      requires Valid() && lb + nargs <= top
      modifies this, arr
      ensures Valid() && Capacity() == old(Capacity()) && (arr == old(arr) || fresh(arr))
      ensures ok <==> lb + Max(nargs, np) <= Capacity()
      ensures n == Max(nargs, np)
      ensures ok ==> lb + n <= top && Live()[..lb + n] == old(Live())[..lb] + AtLeast(old(Live())[lb..lb + nargs], np)
    {
      ok, n := true, nargs;
      ghost var live := Live();
      if nargs < np {
        n := np;
        ok := CheckSize(lb + np);
        if !ok {
          return;
        }
        assert forall i :: 0 <= i < top ==> arr[i] == live[i] by { assert Live() == live; }
        Fill(lb + nargs, lb + np, NIL);
        top := lb + np;
      }
    }

    // The parameters change places with the surplus arguments.
    method SwapParameters(lb: nat, nargs: nat, np: nat) returns (ok: bool)
      requires Valid() && lb + nargs <= top && np <= nargs
      modifies this, arr
      ensures Valid() && Capacity() == old(Capacity()) && (arr == old(arr) || fresh(arr))
      ensures ok <==> lb + nargs + np <= Capacity()
      ensures ok ==>
        Live() == old(Live())[..lb] + Blank(np) + old(Live())[lb + np..lb + nargs] + old(Live())[lb..lb + np]
    {
      ghost var live := Live();
      ok := SetTop(lb + nargs + np);
      if !ok {
        return;
      }
      ghost var wide, a := Live(), arr;
      var i := 0;
      while i < np
        invariant i <= np && arr == a && top == |wide| == lb + nargs + np
        invariant forall j ::
          0 <= j < top && !(lb <= j < lb + i) && !(lb + nargs <= j < lb + nargs + i) ==> arr[j] == wide[j]
        invariant forall j :: lb <= j < lb + i ==> arr[j] == NIL
        invariant forall j :: lb + nargs <= j < lb + nargs + i ==> arr[j] == wide[j - nargs]
      {
        arr[lb + nargs + i] := arr[lb + i];
        arr[lb + i] := NIL;
        i := i + 1;
      }
      Swapped(live, wide, Live(), lb, nargs, np);
    }

    // The table of the surplus arguments.
    method ArgTable(from: nat, n: nat) returns (t: LTable)
      requires Valid() && from + n <= top && AllSet(Live()[from..from + n])
      ensures fresh(t) && IsArgTable(t, Live()[from..from + n])
    {
      ghost var args := Live()[from..from + n];
      assert forall i :: 0 <= i < n ==> arr[from + i] == args[i];
      t := new LTable();
      EmptyTable();
      hide Listing, LTable.Valid, LTable.View;
      var i := 0;
      while i < n
        invariant i <= n && fresh(t) && t.Valid() && Listing(t.View(), args, i)
      {
        assert arr[from + i] == args[i] && args[i].Val?;
        AddArgument(t, i, arr[from + i].item, args);
        i := i + 1;
      }
      AddCount(t, n, args);
    }

    // The `arg` table behind the parameters, and nil in the registers that follow.
    method PlaceArg(from: nat, to: nat, p: Proto, id: nat, ghost head: seq<Slot>, ghost params: seq<Slot>)
      returns (ok: bool, argtb: LTable?)
      requires Valid() && Live() == head + params
      requires from <= to == |head| && |params| == p.numParameters && AllSet(head[from..])
      modifies this, arr
      ensures Valid() && Capacity() == old(Capacity()) && (arr == old(arr) || fresh(arr))
      ensures ok <==> to + Max(p.numParameters + 1, p.numUsed) <= Capacity()
      ensures ok ==> Live() == head + ToLength(params + [if p.needsArg then Val(Ref(id)) else NIL], p.numUsed)
      ensures ok ==> (argtb != null <==> p.needsArg)
      ensures ok && p.needsArg ==> fresh(argtb) && IsArgTable(argtb, head[from..])
    {
      argtb := null;
      var np := p.numParameters;
      ghost var arg := if p.needsArg then Val(Ref(id)) else NIL;
      ok := SetTop(to + np + 1);
      if !ok {
        return;
      }
      assert Live() == head + params + [NIL];
      if p.needsArg {
        assert Live()[from..from + (to - from)] == head[from..];
        argtb := ArgTable(from, to - from);
        arr[to + np] := Val(Ref(id));
      } else {
        arr[to + np] := NIL;
      }
      assert Live() == head + params + [arg];
      ok := SetTop(to + p.numUsed);
      if ok {
        Arranged(head, params, arg, Live(), p.numUsed);
      }
    }

    method EnterVararg(lb: nat, n: nat, p: Proto, id: nat, ghost caller: seq<Slot>, ghost args: seq<Slot>)
      returns (ok: bool, argtb: LTable?)
      requires p.isVarArg && Valid() && lb == |caller| && n == |AtLeast(args, p.numParameters)| && lb + n <= top
      requires Live()[..lb + n] == caller + AtLeast(args, p.numParameters) && AllSet(AtLeast(args, p.numParameters))
      modifies this, arr
      ensures Valid() && Capacity() == old(Capacity()) && (arr == old(arr) || fresh(arr))
      ensures ok <==> lb + n + Max(p.numParameters + 1, p.numUsed) <= Capacity()
      ensures ok ==> Live() == Entered(caller, args, p, if p.needsArg then Val(Ref(id)) else NIL)
      ensures |Below(caller, args, p)| == lb + n
      ensures ok ==> (argtb != null <==> p.needsArg)
      ensures ok && p.needsArg ==> fresh(argtb) && IsArgTable(argtb, AtLeast(args, p.numParameters)[p.numParameters..])
    {
      hide Below, Entered, IsArgTable, ToLength, AllSet, AtLeast, Between, Own;
      argtb := null;
      var np := p.numParameters;
      ghost var padded := AtLeast(args, np);
      ghost var head := Below(caller, args, p);
      VarargParts(caller, args, p, if p.needsArg then Val(Ref(id)) else NIL);
      PaddedParts(caller, padded, Live(), np);
      ok := SwapParameters(lb, n, np);
      if ok {
        ok, argtb := PlaceArg(lb + np, lb + n, p, id, head, padded[..np]);
      }
    }

    method EnterFixed(lb: nat, n: nat, p: Proto, ghost caller: seq<Slot>, ghost args: seq<Slot>) returns (ok: bool)
      requires !p.isVarArg && Valid() && lb == |caller| && n == |AtLeast(args, p.numParameters)| && lb + n <= top
      requires Live()[..lb + n] == caller + AtLeast(args, p.numParameters)
      modifies this, arr
      ensures Valid() && Capacity() == old(Capacity()) && (arr == old(arr) || fresh(arr))
      ensures ok <==> lb + Max(n, p.numUsed) <= Capacity()
      ensures ok ==> forall arg :: Live() == Entered(caller, args, p, arg)
    {
      PaddedParts(caller, AtLeast(args, p.numParameters), Live(), p.numParameters);
      ghost var params := AtLeast(args, p.numParameters)[..p.numParameters];
      assert Live()[..lb + p.numParameters] == caller + params;
      hide AtLeast;
      var most := if n < p.numUsed then p.numUsed else n;
      ok := CheckSize(lb + most);
      if !ok {
        return;
      }
      ghost var live := Live();
      assert forall i :: 0 <= i < top ==> arr[i] == live[i];
      assert forall i :: 0 <= i < lb + p.numParameters ==> live[i] == (caller + params)[i];
      Fill(lb + p.numParameters, lb + most, NIL);
      top := lb + p.numUsed;
      assert Live() == caller + ToLength(params, p.numUsed);
    }

    // Lays out the registers of an entered function, and moves the base of its registers behind the
    // surplus arguments. `id` stands for the reference to the table made.
    method InitCallFrame(lb: nat, nargs: nat, p: Proto, id: nat) returns (ok: bool, localBase: nat, argtb: LTable?)
      requires Valid() && lb + nargs <= top
      requires AllSet(Live()[lb..lb + nargs])
      modifies this, arr
      ensures Valid() && Capacity() == old(Capacity()) && (arr == old(arr) || fresh(arr))
      ensures ok <==> Need(lb, nargs, p) <= Capacity()
      ensures ok ==>
        var caller, args := old(Live())[..lb], old(Live())[lb..lb + nargs];
        var arg := if p.needsArg then Val(Ref(id)) else NIL;
        Live() == Entered(caller, args, p, arg) && localBase == |Below(caller, args, p)|
      ensures ok ==> (argtb != null <==> p.isVarArg && p.needsArg)
      ensures ok && argtb != null ==> fresh(argtb)
      ensures ok && argtb != null ==>
        IsArgTable(argtb, AtLeast(old(Live())[lb..lb + nargs], p.numParameters)[p.numParameters..])
    {
      localBase, argtb := lb, null;
      var n;
      ghost var caller, args := Live()[..lb], Live()[lb..lb + nargs];
      PaddedArguments(Live(), lb, nargs, p.numParameters);
      ok, n := PadArguments(lb, nargs, p.numParameters);
      if !ok {
        return;
      }
      hide Entered, IsArgTable, AllSet, AtLeast;
      if p.isVarArg {
        ok, argtb := EnterVararg(lb, n, p, id, caller, args);
        localBase := lb + n;
      } else {
        ok := EnterFixed(lb, n, p, caller, args);
      }
    }

    method MoveDown(base: nat, ra: nat)
      requires Valid() && base < ra < top
      modifies this, arr
      ensures Valid() && Capacity() == old(Capacity()) && (arr == old(arr) || fresh(arr))
      ensures Live() == old(Live())[..base] + old(Live())[ra..old(top) - 1]
    {
      ghost var live, n := Live(), top - ra - 1;
      var ok := CopyRange(base, ra, -1, top - ra - 1);
      ghost var moved := live[..base] + live[ra..|live| - 1];
      assert forall i :: 0 <= i < base ==> Live()[i] == moved[i];
      forall i | base <= i < base + n ensures Live()[i] == moved[i] {
        var k := i - base;
        assert Live()[base + k] == Source(live, base, ra, |live|, k);
      }
      assert Live() == moved;
    }

    // OP_TAILCALL of a function in register `ra`: its frame takes the place of the calling one, and is as a
    // call from there would lay it out but for the last register, which is not moved.
    method TailCall(base: nat, ra: nat, nargs: nat, p: Proto, id: nat)
      returns (ok: bool, localBase: nat, argtb: LTable?)
      requires Valid() && base < ra && ra + 1 + nargs <= top
      requires AllSet(Live()[ra + 1..ra + 1 + nargs])
      modifies this, arr
      ensures Valid() && Capacity() == old(Capacity()) && (arr == old(arr) || fresh(arr))
      ensures ok <==> Need(ra + 1, nargs, p) <= Capacity()
      ensures ok ==>
        var caller, args := old(Live())[..base] + [old(Live())[ra]], old(Live())[ra + 1..ra + 1 + nargs];
        var whole := Entered(caller, args, p, if p.needsArg then Val(Ref(id)) else NIL);
        Live() == whole[..|whole| - 1] && localBase == |Below(caller, args, p)|
      ensures ok ==> (argtb != null <==> p.isVarArg && p.needsArg)
      ensures ok && argtb != null ==> fresh(argtb)
      ensures ok && argtb != null ==>
        IsArgTable(argtb, AtLeast(old(Live())[ra + 1..ra + 1 + nargs], p.numParameters)[p.numParameters..])
    {
      hide Entered, Below, IsArgTable, AllSet, AtLeast;
      ghost var live, arg := Live(), if p.needsArg then Val(Ref(id)) else NIL;
      ghost var args := live[ra + 1..ra + 1 + nargs];
      ok, localBase, argtb := InitCallFrame(ra + 1, nargs, p, id);
      if !ok {
        return;
      }
      Shifted(live, base, ra, args, p, arg);
      MoveDown(base, ra);
      localBase := base + (localBase - (ra + 1) + 1);
    }

    // ----- surplus arguments -----

    // OP_VARARG: copies as many surplus arguments as wanted (all for b == 0) to the registers from `a` on.
    method Vararg(base: nat, localBase: nat, nargs: nat, p: Proto, a: nat, b: nat,
                  ghost caller: seq<Slot>, ghost args: seq<Slot>) returns (ok: bool)
      requires Valid() && p.isVarArg && |caller| == base + 1 && |args| == nargs
      requires localBase == |Below(caller, args, p)| <= top && Live()[..localBase] == Below(caller, args, p)
      modifies this, arr
      ensures Valid() && Capacity() == old(Capacity()) && (arr == old(arr) || fresh(arr))
      ensures ok <==> localBase + a + Wanted(nargs, p, b) <= Capacity()
      ensures ok ==> top == localBase + a + Wanted(nargs, p, b)
      ensures ok ==> forall i :: 0 <= i < Wanted(nargs, p, b) ==>
                       Live()[localBase + a + i] == Surplus(args, p.numParameters, i)
      ensures ok ==> forall i :: 0 <= i < localBase + a && i < old(top) ==> Live()[i] == old(Live())[i]
    {
      var nvarargs := nargs - p.numParameters;
      if nvarargs < 0 {
        nvarargs := 0;
      }
      var nwant := b - 1;
      if b == 0 {
        nwant := nvarargs;
      }
      ghost var live, to := Live(), localBase + a;
      SurplusCopied(live, caller, args, p, nwant, to);
      hide Below, Surplus, Source;
      ok := CopyRange(localBase + a, base + p.numParameters + 1, localBase, nwant);
    }
  }
}
