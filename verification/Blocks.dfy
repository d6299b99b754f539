/**
 The compiler of statements.
 */
module Blocks {
  import opened Lang
  import opened Opcodes
  import opened Machine
  import opened Fragments
  import opened Jumps
  import opened Assignments
  import opened Statements
  import opened Branches
  import opened Compiler

  // ----- growing code -----

  // Code, constants and labels before and after.
  datatype Snapshot = Snapshot(code: seq<Ins>, consts: seq<Value>, labels: map<int, int>)

  ghost predicate GrownTo(s: Snapshot, t: Snapshot, n: int)
  {
    Compiler.After(s.code, s.consts, t.code, t.consts) && LabelsAdded(s.labels, t.labels, n)
  }

  lemma GrownTwice(s: Snapshot, t: Snapshot, u: Snapshot, m: int, n: int)
    requires GrownTo(s, t, m) && GrownTo(t, u, n) && m <= n
    ensures GrownTo(s, u, m) && Extends(t.labels, u.labels) && t.consts <= u.consts
    ensures |t.code| <= |u.code| && u.code[..|t.code|] == t.code
  {
    AfterTwo(s.code, s.consts, t.code, t.consts, u.code, u.consts);
  }

  ghost predicate Stretch(ss: seq<Stmt>, s: Snapshot, lo: int, names: seq<string>, f: NumberFn, from: int)
  {
    0 <= from <= |s.code| && Realizes(ss, s.code, s.labels, lo, s.consts, names, f, from, |s.code|)
  }

  lemma BlockStep(done: seq<Stmt>, next: Stmt, s: Snapshot, t: Snapshot, u: Snapshot, m: int, n: int,
                  names: seq<string>, f: NumberFn)
    requires GrownTo(s, t, m) && GrownTo(t, u, n) && m <= n
    requires Stretch(done, t, m, names, f, |s.code|) && Stretch([next], u, n, names, f, |t.code|)
    ensures GrownTo(s, u, m) && Stretch(done + [next], u, m, names, f, |s.code|)
  {
    GrownTwice(s, t, u, m, n);
    hide Realizes, Extends, GrownTo;
    RealizedLater(done, t.code, u.code, t.labels, u.labels, m, m, t.consts, u.consts, names, f, |s.code|, |t.code|);
    SameExtends(u.labels);
    RealizedLater([next], u.code, u.code, u.labels, u.labels, m, n, u.consts, u.consts, names, f, |t.code|, |u.code|);
    SequenceRealized(done, [next], u.code, u.labels, m, u.consts, names, f, |s.code|, |t.code|, |u.code|);
  }

  lemma SameExtends(labels: map<int, int>)
    ensures Extends(labels, labels)
  {
  }

  ghost function Now(c: FuncContext): Snapshot
    reads c
    requires c.pc <= |c.codes|
  {
    Snapshot(c.Code(), c.constants, c.labelPc)
  }

  // ----- statements -----

  method CompileStmt(c: FuncContext, s: Stmt) returns (status: Status)
    requires c.Valid() && ScopedStmt(s, c.names)
    modifies c
    decreases s, 1
    ensures status.Fine? ==>
      && c.Valid() && c.names == old(c.names) && c.regTop == old(c.regTop) && old(c.labelId) <= c.labelId
      && GrownTo(old(Now(c)), Now(c), old(c.labelId))
      && Stretch([s], Now(c), old(c.labelId), c.names, c.arith, old(c.pc))
  {
    if s.If? {
      status := CompileIf(c, s);
    } else {
      status := CompileAssign(c, s);
    }
  }

  method CompileAssign(c: FuncContext, s: Stmt) returns (status: Status)
    requires c.Valid() && s.Assign? && ScopedStmt(s, c.names)
    modifies c
    ensures status.Fine? ==>
      && c.Valid() && c.names == old(c.names) && c.regTop == old(c.regTop) && old(c.labelId) <= c.labelId
      && GrownTo(old(Now(c)), Now(c), old(c.labelId))
      && Stretch([s], Now(c), old(c.labelId), c.names, c.arith, old(c.pc))
  {
    hide Stores, Realizes, Distinct, OneWords;
    :- c.CompileAssignment(s.targets, s.rhs);
    AssignRealized(s.targets, s.rhs, c.Code(), c.labelPc, old(c.labelId), c.constants, c.names, c.arith, old(c.pc),
                   c.regTop);
    status := Fine;
  }

  // compileBlock
  method CompileBlock(c: FuncContext, ss: seq<Stmt>) returns (status: Status)
    requires c.Valid() && forall i :: 0 <= i < |ss| ==> ScopedStmt(ss[i], c.names)
    modifies c
    decreases ss, 0
    ensures status.Fine? ==>
      && c.Valid() && c.names == old(c.names) && c.regTop == old(c.regTop) && old(c.labelId) <= c.labelId
      && GrownTo(old(Now(c)), Now(c), old(c.labelId))
      && Stretch(ss, Now(c), old(c.labelId), c.names, c.arith, old(c.pc))
  {
    ghost var start, l := Now(c), c.labelId;
    NothingRealized(start.code, start.labels, l, start.consts, c.names, c.arith, |start.code|);
    assert GrownTo(start, start, l);
    hide GrownTo, Stretch, ScopedStmt, FuncContext.Valid;
    var i := 0;
    while i < |ss|
      invariant 0 <= i <= |ss| && c.pc <= |c.codes|
      invariant c.Valid() && c.names == old(c.names) && c.regTop == old(c.regTop) && l <= c.labelId
      invariant GrownTo(start, Now(c), l) && Stretch(ss[..i], Now(c), l, c.names, c.arith, |start.code|)
    {
      ghost var before, n := Now(c), c.labelId;
      :- CompileStmt(c, ss[i]);
      BlockStep(ss[..i], ss[i], start, before, Now(c), l, n, c.names, c.arith);
      assert ss[..i + 1] == ss[..i] + [ss[i]];
      i := i + 1;
    }
    assert ss[..i] == ss;
    status := Fine;
  }

  // What compiling the parts of an if statement leaves, before the last label is placed: behind the
  // condition (s1), behind the then block (s2), and, when there is one, behind the else block (s3).
  ghost predicate ThenDone(s: Stmt, s0: Snapshot, s1: Snapshot, s2: Snapshot, l: int, n2: int, names: seq<string>,
                           f: NumberFn, reg: int)
    requires s.If?
  {
    && Below(s0.labels, l) && l + 3 <= n2 && |names| <= reg
    && GrownTo(s0, s1, l + 3) && |s0.code| <= |s1.code|
    && Decides(s.cond, s1.code, s1.labels, l + 3, s1.consts, names, f, |s0.code|, |s1.code|, l, l + 1, false, reg)
    && GrownTo(s1.(labels := s1.labels[l := |s1.code| - 1]), s2, n2)
    && Stretch(s.thn, s2, n2, names, f, |s1.code|)
  }

  lemma NoElseDone(s: Stmt, s0: Snapshot, s1: Snapshot, s2: Snapshot, l: int, n2: int, names: seq<string>,
                   f: NumberFn, reg: int)
    requires s.If? && s.els == [] && ThenDone(s, s0, s1, s2, l, n2, names, f, reg)
    ensures var last := s2.(labels := s2.labels[l + 1 := |s2.code| - 1]);
            GrownTo(s0, last, l) && Stretch([s], last, l, names, f, |s0.code|)
  {
    var labels := s2.labels[l + 1 := |s2.code| - 1];
    SameAdded(labels, n2);
    LabelsPlaced(s0.labels, s1.labels, s2.labels, labels, l, n2, n2, |s1.code| - 1, |s2.code| - 1, 0);
    AfterTwo(s0.code, s0.consts, s1.code, s1.consts, s2.code, s2.consts);
    hide Realizes, Decides, Extends, LabelsAdded, Below;
    DecidedLater(s.cond, s1.code, s2.code, s1.labels, labels, l + 3, s1.consts, s2.consts, names, f, |s0.code|,
                 |s1.code|, l, l + 1, false, reg);
    RealizedLater(s.thn, s2.code, s2.code, s2.labels, labels, l, n2, s2.consts, s2.consts, names, f, |s1.code|,
                  |s2.code|);
    NothingRealized(s2.code, labels, l, s2.consts, names, f, |s2.code|);
    IfRealized(s.cond, s.thn, s.els, s2.code, labels, l, s2.consts, names, f, |s0.code|, |s1.code|, |s2.code|,
               |s2.code|, |s2.code|, reg);
  }

  lemma SameAdded(labels: map<int, int>, n: int)
    ensures LabelsAdded(labels, labels, n)
  {
  }

  // The code behind the then block: the jump over the else block, and the label of that block.
  function WithJump(s2: Snapshot, l: int): Snapshot
  {
    Snapshot(s2.code + [ASbx(JMP, 0, l + 2)], s2.consts, s2.labels[l + 1 := |s2.code|])
  }

  lemma ElseDone(s: Stmt, s0: Snapshot, s1: Snapshot, s2: Snapshot, s3: Snapshot, l: int, n2: int, n3: int,
                 names: seq<string>, f: NumberFn, reg: int)
    requires s.If? && s.els != [] && ThenDone(s, s0, s1, s2, l, n2, names, f, reg) && n2 <= n3
    requires GrownTo(WithJump(s2, l), s3, n3) && Stretch(s.els, s3, n3, names, f, |s2.code| + 1)
    ensures var last := s3.(labels := s3.labels[l + 2 := |s3.code| - 1]);
            GrownTo(s0, last, l) && Stretch([s], last, l, names, f, |s0.code|)
  {
    var labels := s3.labels[l + 2 := |s3.code| - 1];
    ElseGrown(s, s0, s1, s2, s3, l, n2, n3, names, f, reg);
    hide Realizes, Decides, Extends, LabelsAdded, Below, Compiler.After, GrownTo;
    DecidedLater(s.cond, s1.code, s3.code, s1.labels, labels, l + 3, s1.consts, s3.consts, names, f, |s0.code|,
                 |s1.code|, l, l + 1, false, reg);
    RealizedLater(s.thn, s2.code, s3.code, s2.labels, labels, l, n2, s2.consts, s3.consts, names, f, |s1.code|,
                  |s2.code|);
    RealizedLater(s.els, s3.code, s3.code, s3.labels, labels, l, n3, s3.consts, s3.consts, names, f, |s2.code| + 1,
                  |s3.code|);
    IfRealized(s.cond, s.thn, s.els, s3.code, labels, l, s3.consts, names, f, |s0.code|, |s1.code|, |s2.code|,
               |s2.code| + 1, |s3.code|, reg);
  }

  lemma ElseGrown(s: Stmt, s0: Snapshot, s1: Snapshot, s2: Snapshot, s3: Snapshot, l: int, n2: int, n3: int,
                  names: seq<string>, f: NumberFn, reg: int)
    requires s.If? && ThenDone(s, s0, s1, s2, l, n2, names, f, reg) && n2 <= n3
    requires GrownTo(WithJump(s2, l), s3, n3)
    ensures var labels := s3.labels[l + 2 := |s3.code| - 1];
            && GrownTo(s0, s3.(labels := labels), l)
            && Extends(s1.labels, labels) && Extends(s2.labels, labels) && Extends(s3.labels, labels)
            && labels[l] == |s1.code| - 1 && labels[l + 1] == |s2.code|
    ensures |s1.code| <= |s2.code| < |s3.code| && s3.code[..|s1.code|] == s1.code && s3.code[..|s2.code|] == s2.code
    ensures s3.code[|s2.code|] == ASbx(JMP, 0, l + 2) && s1.consts <= s3.consts && s2.consts <= s3.consts
  {
    hide Realizes, Decides, Stretch;
    LabelsPlaced(s0.labels, s1.labels, s2.labels, s3.labels, l, n2, n3, |s1.code| - 1, |s2.code|, |s3.code| - 1);
    hide LabelsAdded, Extends, Below;
    var j := WithJump(s2, l);
    AfterTwo(s0.code, s0.consts, s1.code, s1.consts, s2.code, s2.consts);
    AfterAdd(s0.code, s0.consts, s2.code, s2.consts, ASbx(JMP, 0, l + 2));
    AfterTwo(s0.code, s0.consts, j.code, j.consts, s3.code, s3.consts);
    CodeParts(s1.code, s2.code, s3.code, ASbx(JMP, 0, l + 2));
  }

  lemma CodeParts(code1: seq<Ins>, code2: seq<Ins>, code3: seq<Ins>, i: Ins)
    requires |code1| <= |code2| && code2[..|code1|] == code1
    requires |code2| + 1 <= |code3| && code3[..|code2| + 1] == code2 + [i]
    ensures code3[..|code2|] == code2 && code3[..|code1|] == code1 && code3[|code2|] == i
  {
    assert code3[..|code2|] == code3[..|code2| + 1][..|code2|];
    assert code3[|code2|] == code3[..|code2| + 1][|code2|];
    assert code3[..|code1|] == code2[..|code1|];
  }

  // compileIfStmt
  method CompileIf(c: FuncContext, s: Stmt) returns (status: Status)
    requires c.Valid() && s.If? && ScopedStmt(s, c.names)
    modifies c
    decreases s, 0
    ensures status.Fine? ==>
      && c.Valid() && c.names == old(c.names) && c.regTop == old(c.regTop) && old(c.labelId) <= c.labelId
      && GrownTo(old(Now(c)), Now(c), old(c.labelId))
      && Stretch([s], Now(c), old(c.labelId), c.names, c.arith, old(c.pc))
  {
    hide Decides, Realizes, FuncContext.Valid, Compiler.After, LabelsAdded, Below, Condition, Scoped;
    ValidParts(c);
    ghost var s0, top := Now(c), c.regTop;
    assert forall i :: 0 <= i < |s.els| ==> ScopedStmt(s.els[i], c.names);
    assert forall i :: 0 <= i < |s.thn| ==> ScopedStmt(s.thn[i], c.names);
    hide ScopedStmt;
    var thenLabel := c.NewLabel();
    var elseLabel := c.NewLabel();
    var endLabel := c.NewLabel();
    :- c.CompileBranchCondition(c.regTop, s.cond, thenLabel, elseLabel, false);
    ghost var s1 := Now(c);
    assert Decides(s.cond, s1.code, s1.labels, thenLabel + 3, s1.consts, c.names, c.arith, |s0.code|, |s1.code|,
                   thenLabel, thenLabel + 1, false, top);
    assert GrownTo(s0, s1, thenLabel + 3);
    hide GrownTo, Stretch;
    c.SetLabelPc(thenLabel, c.pc as int - 1);
    assert Now(c) == s1.(labels := s1.labels[thenLabel := |s1.code| - 1]);
    ghost var n2 := c.labelId;
    :- CompileBlock(c, s.thn);
    ValidParts(c);
    assert thenLabel + 3 <= n2 && |s0.code| <= |s1.code| && Below(s0.labels, thenLabel) && c.regTop == top;
    status := CompileElse(c, s, elseLabel, endLabel, s0, s1, n2);
  }

  lemma ValidParts(c: FuncContext)
    requires c.Valid()
    ensures c.pc <= |c.codes| && |c.names| <= c.regTop && Below(c.labelPc, c.labelId)
  {
  }

  method CompileElse(c: FuncContext, s: Stmt, elseLabel: nat, endLabel: nat, ghost s0: Snapshot, ghost s1: Snapshot,
                     ghost n2: nat)
    returns (status: Status)
    requires c.Valid() && s.If? && forall i :: 0 <= i < |s.els| ==> ScopedStmt(s.els[i], c.names)
    requires endLabel == elseLabel + 1 < n2 <= c.labelId && elseLabel >= 1
    requires ThenDone(s, s0, s1, Now(c), elseLabel - 1, n2, c.names, c.arith, c.regTop)
    modifies c
    decreases s.els, 2
    ensures status.Fine? ==>
      && c.Valid() && c.names == old(c.names) && c.regTop == old(c.regTop) && old(c.labelId) <= c.labelId
      && GrownTo(s0, Now(c), elseLabel - 1)
      && Stretch([s], Now(c), elseLabel - 1, c.names, c.arith, |s0.code|)
  {
    hide ThenDone, GrownTo, Stretch, FuncContext.Valid, OneWord, Upward, ScopedStmt;
    ValidParts(c);
    ghost var s2, l := Now(c), elseLabel - 1;
    if s.els == [] {
      NoElseDone(s, s0, s1, s2, l, n2, c.names, c.arith, c.regTop);
      c.SetLabelPc(elseLabel, c.pc as int - 1);
      return Fine;
    }
    JumpOneWord(endLabel);
    c.AddASbx(JMP, 0, endLabel);
    c.SetLabelPc(elseLabel, c.pc as int - 1);
    assert Now(c) == WithJump(s2, l);
    status := CompileLast(c, s, endLabel, s0, s1, s2, n2);
  }

  // The else block, and the label behind it.
  method CompileLast(c: FuncContext, s: Stmt, endLabel: nat, ghost s0: Snapshot, ghost s1: Snapshot, ghost s2: Snapshot,
                     ghost n2: nat)
    returns (status: Status)
    requires c.Valid() && s.If? && s.els != [] && forall i :: 0 <= i < |s.els| ==> ScopedStmt(s.els[i], c.names)
    requires 2 <= endLabel < n2 <= c.labelId
    requires ThenDone(s, s0, s1, s2, endLabel - 2, n2, c.names, c.arith, c.regTop)
    requires Now(c) == WithJump(s2, endLabel - 2)
    modifies c
    decreases s.els, 1
    ensures status.Fine? ==>
      && c.Valid() && c.names == old(c.names) && c.regTop == old(c.regTop) && old(c.labelId) <= c.labelId
      && GrownTo(s0, Now(c), endLabel - 2)
      && Stretch([s], Now(c), endLabel - 2, c.names, c.arith, |s0.code|)
  {
    hide ThenDone, GrownTo, Stretch, FuncContext.Valid, ScopedStmt;
    ValidParts(c);
    :- CompileBlock(c, s.els);
    ValidParts(c);
    ElseDone(s, s0, s1, s2, Now(c), endLabel - 2, n2, old(c.labelId), c.names, c.arith, c.regTop);
    c.SetLabelPc(endLabel, c.pc as int - 1);
    status := Fine;
  }

  lemma JumpOneWord(l: int)
    ensures OneWord(ASbx(JMP, 0, l)) && Upward(ASbx(JMP, 0, l))
  {
  }
}
