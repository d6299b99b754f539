/**
 The code of an if statement, and the labels it places.
 */
module Branches {
  import opened Lang
  import opened Opcodes
  import opened Machine
  import opened Fragments
  import opened Jumps
  import opened Statements

  // The condition up to m1, the then block up to m2, the else block from n: with label l before the
  // then block, l + 1 before the else block, and l + 2 behind it.
  ghost predicate Layout(code: seq<Ins>, labels: map<int, int>, l: int, from: int, m1: int, m2: int, n: int, to: int,
                         hasElse: bool)
  {
    && 0 <= from <= m1 <= m2 <= n <= to <= |code|
    && l in labels && labels[l] == m1 - 1
    && l + 1 in labels && labels[l + 1] == n - 1
    && if hasElse then n == m2 + 1 && code[m2] == ASbx(JMP, 0, l + 2) && l + 2 in labels && labels[l + 2] == to - 1
       else n == m2 == to
  }

  lemma IfClosed(code: seq<Ins>, labels: map<int, int>, l: int, from: int, m1: int, m2: int, n: int, to: int,
                 hasElse: bool)
    requires Layout(code, labels, l, from, m1, m2, n, to, hasElse)
    requires Confined(code, labels, l + 3, from, m1, l, l + 1)
    requires Closed(code, labels, l, m1, m2) && Closed(code, labels, l, n, to)
    ensures Closed(code, labels, l, from, to)
  {
    forall i | from <= i < to ensures Inner(code[i], i, labels, l, to) {
      if i < m1 {
        assert StaysIn(code[i], i, labels, l + 3, m1, l, l + 1);
      } else if i < m2 {
        assert Inner(code[i], i, labels, l, m2);
      } else if i >= n {
        assert Inner(code[i], i, labels, l, to);
      }
    }
  }

  // From behind the condition, the then block and the jump over the else block.
  lemma ThenWalk(code: seq<Ins>, labels: map<int, int>, l: int, from: int, m1: int, m2: int, n: int, to: int,
                 hasElse: bool, k: seq<Value>, f: NumberFn, regs: Regs)
    requires Layout(code, labels, l, from, m1, m2, n, to, hasElse) && Closed(code, labels, l, m1, m2)
    ensures var first := Walk(code, labels, l, k, f, m2, m1, regs);
            (first.Fall? || first.Raised?) ==> Walk(code, labels, l, k, f, to, m1, regs) == first
  {
    hide Closed, Sem;
    ThroughClosed(code, labels, l, l, k, f, m1, m2, to, regs);
  }

  lemma IfAt(c: Expr, thn: seq<Stmt>, els: seq<Stmt>, code: seq<Ins>, labels: map<int, int>, l: int, k: seq<Value>,
             names: seq<string>, f: NumberFn, from: int, m1: int, m2: int, n: int, to: int, reg: int, regs: Regs)
    requires Layout(code, labels, l, from, m1, m2, n, to, els != []) && |names| <= reg
    requires Confined(code, labels, l + 3, from, m1, l, l + 1) && Closed(code, labels, l, m1, m2)
    requires DecidesAt(c, code, labels, l + 3, k, names, f, from, m1, l, l + 1, false, reg, regs)
    requires forall r1 :: RunsAt(thn, code, labels, l, k, names, f, m1, m2, r1)
    requires forall r1 :: RunsAt(els, code, labels, l, k, names, f, n, to, r1)
    ensures RunsAt([If(c, thn, els)], code, labels, l, k, names, f, from, to, regs)
  {
    hide Walk, Closed, Confined, ExecAll, EnvOf, Eval;
    var env, v := EnvOf(names, regs), Eval(c, EnvOf(names, regs), f);
    var first := Walk(code, labels, l + 3, k, f, m1, from, regs);
    WalkThrough(code, labels, l, l + 3, k, f, from, m1, to, l, l + 1, from, regs);
    OneStatement(If(c, thn, els), env, f);
    if v.Ok? {
      EnvAgrees(names, regs, first.regs, reg);
      if Truthy(v.value) {
        assert RunsAt(thn, code, labels, l, k, names, f, m1, m2, first.regs);
        ThenWalk(code, labels, l, from, m1, m2, n, to, els != [], k, f, first.regs);
      } else {
        assert RunsAt(els, code, labels, l, k, names, f, n, to, first.regs);
      }
    }
  }

  lemma IfRealized(c: Expr, thn: seq<Stmt>, els: seq<Stmt>, code: seq<Ins>, labels: map<int, int>, l: int,
                   consts: seq<Value>, names: seq<string>, f: NumberFn, from: int, m1: int, m2: int, n: int, to: int,
                   reg: int)
    requires Layout(code, labels, l, from, m1, m2, n, to, els != []) && |names| <= reg
    requires Decides(c, code, labels, l + 3, consts, names, f, from, m1, l, l + 1, false, reg)
    requires Realizes(thn, code, labels, l, consts, names, f, m1, m2)
    requires Realizes(els, code, labels, l, consts, names, f, n, to)
    ensures Realizes([If(c, thn, els)], code, labels, l, consts, names, f, from, to)
  {
    IfClosed(code, labels, l, from, m1, m2, n, to, els != []);
    hide Closed, Confined, DecidesAt, RunsAt;
    if Fits(code[from..to]) {
      assert code[from..to] == code[from..m1] + code[m1..m2] + code[m2..n] + code[n..to];
      FitsParts(code[from..m1] + code[m1..m2] + code[m2..n], code[n..to]);
      FitsParts(code[from..m1] + code[m1..m2], code[m2..n]);
      FitsParts(code[from..m1], code[m1..m2]);
      forall k, regs | consts <= k
        ensures RunsAt([If(c, thn, els)], code, labels, l, k, names, f, from, to, regs)
      {
        IfAt(c, thn, els, code, labels, l, k, names, f, from, m1, m2, n, to, reg, regs);
      }
    }
  }

  // A condition stays decided in longer code with more labels and constants.
  lemma DecidedLater(c: Expr, code: seq<Ins>, more: seq<Ins>, labels: map<int, int>, moreLabels: map<int, int>,
                     lo: int, consts: seq<Value>, moreConsts: seq<Value>, names: seq<string>, f: NumberFn, from: int,
                     to: int, t: int, e: int, hasNext: bool, reg: int)
    requires Decides(c, code, labels, lo, consts, names, f, from, to, t, e, hasNext, reg)
    requires to <= |more| && more[..to] == code[..to] && Extends(labels, moreLabels) && consts <= moreConsts
    ensures Decides(c, more, moreLabels, lo, moreConsts, names, f, from, to, t, e, hasNext, reg)
  {
    ConfinedFrame(code, more, labels, moreLabels, lo, from, to, t, e);
    hide Confined, Extends, Walk, Settles, Eval;
    if Fits(more[from..to]) {
      assert more[from..to] == more[..to][from..] == code[..to][from..] == code[from..to];
      forall k, regs | moreConsts <= k
        ensures DecidesAt(c, more, moreLabels, lo, k, names, f, from, to, t, e, hasNext, reg, regs)
      {
        assert consts <= k;
        assert DecidesAt(c, code, labels, lo, k, names, f, from, to, t, e, hasNext, reg, regs);
        WalkFrame(code, more, labels, moreLabels, lo, k, f, from, to, t, e, from, regs);
      }
    }
  }

  // ----- the labels -----

  // Labels l, l + 1, l + 2 are new, and are placed one after the other.
  lemma LabelsPlaced(labels0: map<int, int>, labels1: map<int, int>, labels2: map<int, int>, labels3: map<int, int>,
                     l: int, n2: int, n3: int, p1: int, p2: int, p3: int)
    requires Below(labels0, l) && l + 3 <= n2 <= n3
    requires LabelsAdded(labels0, labels1, l + 3)
    requires LabelsAdded(labels1[l := p1], labels2, n2)
    requires LabelsAdded(labels2[l + 1 := p2], labels3, n3)
    ensures var last := labels3[l + 2 := p3];
            && Extends(labels1, last) && Extends(labels2, last) && Extends(labels3, last)
            && LabelsAdded(labels0, last, l)
            && last[l] == p1 && last[l + 1] == p2 && last[l + 2] == p3
    ensures Extends(labels1, labels2[l + 1 := p2]) && Extends(labels2, labels2[l + 1 := p2])
    ensures LabelsAdded(labels0, labels2[l + 1 := p2], l)
    ensures l in labels2 && labels2[l] == p1
  {
    assert l !in labels0 && l + 1 !in labels0 && l + 2 !in labels0;
    assert l !in labels1 && l + 1 !in labels1 && l + 2 !in labels1;
    assert l + 1 !in labels2 && l + 2 !in labels2;
    assert l + 2 !in labels3;
  }
}
