/**
 The pass over finished code: label jumps become distances, jumps to jumps are threaded, a jump to
 the next instruction becomes a no-op, and runs of MOVE are fused into MOVEN.
 */
module Patch {
  import opened Opcodes

  datatype Patched = Done(code: seq<Ins>) | TooLongToJump

  // GetLabelPc: a label without a position reads as 0.
  function LabelPc(labels: map<int, int>, l: int): int { if l in labels then labels[l] else 0 }

  // codeStore.At
  function At(code: seq<Ins>, i: int): Ins
  {
    if 0 <= i < |code| then code[i] else Ins(RAW, -1, -1, -1, -1, 0, 0)
  }

  const MAX_HOPS := 5

  datatype Distance = By(d: int) | TooLong

  // The inner loop: follows jumps from pc as long as they lead to jumps and stay in reach.
  function Thread(code: seq<Ins>, labels: map<int, int>, pc: int, jmp: Ins, count: nat, distance: int): Distance
    requires count <= MAX_HOPS
    decreases MAX_HOPS - count
  {
    if jmp.op == JMP && count < MAX_HOPS then
      var d := LabelPc(labels, jmp.sbx) - pc;
      if d > MAX_ARG_SBX then (if distance == 0 then TooLong else By(distance))
      else Thread(code, labels, pc, At(code, pc + d + 1), count + 1, d)
    else By(distance)
  }

  function Fused(code: seq<Ins>, pc: nat, moven: nat): (fused: seq<Ins>)
    requires moven <= pc <= |code|
    ensures |fused| == |code|
  {
    if moven > 1 then
      code[pc - moven := code[pc - moven].(op := MOVEN, c := if moven - 1 < MAX_ARG_C then moven - 1 else MAX_ARG_C)]
    else code
  }

  function Jump(jmp: Ins, d: int): Ins { if d == 0 then jmp.(op := NOP) else jmp.(sbx := d) }

  // The outer loop from instruction pc on, after a run of `moven` MOVEs.
  function PatchFrom(code: seq<Ins>, labels: map<int, int>, nups: seq<nat>, pc: nat, moven: nat): Patched
    requires moven <= pc
    decreases |code| - pc
  {
    if pc >= |code| then Done(code)
    else if code[pc].op == CLOSURE then PatchFrom(code, labels, nups, pc + Nups(nups, code[pc].bx) + 1, 0)
    else if code[pc].op == MOVE then PatchFrom(code, labels, nups, pc + 1, moven + 1)
    else if code[pc].op == JMP then
      match Thread(code, labels, pc, code[pc], 0, 0)
      case TooLong => TooLongToJump
      case By(d) => PatchFrom(Fused(code[pc := Jump(code[pc], d)], pc, moven), labels, nups, pc + 1, 0)
    else PatchFrom(Fused(code, pc, moven), labels, nups, pc + 1, 0)
  }

  method ThreadJump(code: array<Ins>, labels: map<int, int>, pc: nat) returns (r: Distance)
    requires pc < code.Length
    ensures r == Thread(code[..], labels, pc, code[pc], 0, 0)
  {
    var distance, count, jmp := 0, 0, code[pc];
    while jmp.op == JMP && count < MAX_HOPS
      invariant 0 <= count <= MAX_HOPS
      invariant Thread(code[..], labels, pc, jmp, count, distance) == Thread(code[..], labels, pc, code[pc], 0, 0)
      decreases MAX_HOPS - count
    {
      var d := LabelPc(labels, jmp.sbx) - pc;
      if d > MAX_ARG_SBX {
        if distance == 0 {
          return TooLong;
        }
        break;
      }
      distance := d;
      count := count + 1;
      jmp := At(code[..], pc + distance + 1);
    }
    r := By(distance);
  }

  method FuseMoves(code: array<Ins>, pc: nat, moven: nat)
    requires moven <= pc <= code.Length
    modifies code
    ensures code[..] == Fused(old(code[..]), pc, moven)
  {
    if moven > 1 {
      code[pc - moven] := code[pc - moven].(op := MOVEN, c := if moven - 1 < MAX_ARG_C then moven - 1 else MAX_ARG_C);
    }
  }

  // patchCode, in place
  method PatchCode(code: array<Ins>, labels: map<int, int>, nups: seq<nat>) returns (ok: bool)
    modifies code
    ensures ok <==> PatchFrom(old(code[..]), labels, nups, 0, 0).Done?
    ensures ok ==> code[..] == PatchFrom(old(code[..]), labels, nups, 0, 0).code
  {
    ghost var whole := PatchFrom(code[..], labels, nups, 0, 0);
    var moven: nat, pc: nat := 0, 0;
    while pc < code.Length
      invariant moven <= pc
      invariant PatchFrom(code[..], labels, nups, pc, moven) == whole
      decreases code.Length - pc
    {
      var inst := code[pc];
      PatchStep(code[..], labels, nups, pc, moven);
      hide PatchFrom, Fused, Thread;
      if inst.op == CLOSURE {
        pc := pc + Nups(nups, inst.bx) + 1;
        moven := 0;
        continue;
      }
      if inst.op == JMP {
        ghost var before := code[..];
        var distance := ThreadJump(code, labels, pc);
        if distance.TooLong? {
          return false;
        }
        code[pc] := Jump(inst, distance.d);
        assert code[..] == before[pc := Jump(inst, distance.d)];
      }
      if inst.op == MOVE {
        moven := moven + 1;
      } else {
        FuseMoves(code, pc, moven);
        moven := 0;
      }
      pc := pc + 1;
    }
    ok := true;
  }

  lemma PatchStep(code: seq<Ins>, labels: map<int, int>, nups: seq<nat>, pc: nat, moven: nat)
    requires moven <= pc < |code|
    ensures
      PatchFrom(code, labels, nups, pc, moven) ==
      if code[pc].op == CLOSURE then PatchFrom(code, labels, nups, pc + Nups(nups, code[pc].bx) + 1, 0)
      else if code[pc].op == MOVE then PatchFrom(code, labels, nups, pc + 1, moven + 1)
      else if code[pc].op == JMP then
        match Thread(code, labels, pc, code[pc], 0, 0)
        case TooLong => TooLongToJump
        case By(d) => PatchFrom(Fused(code[pc := Jump(code[pc], d)], pc, moven), labels, nups, pc + 1, 0)
      else PatchFrom(Fused(code, pc, moven), labels, nups, pc + 1, 0)
  {
  }

  // ----- the two machines -----

  // What an instruction other than a jump or a move does: go on, past `offset` instructions, or stop.
  datatype Outcome<S, R> = Go(st: S, offset: int) | Stop(r: R)

  // How a run ends: outside the code, or stopped by an instruction.
  datatype End<S, R> = Left(pc: int, st: S) | Stopped(r: R)

  datatype Config<S, R> = Running(pc: int, st: S) | Over(end: End<S, R>)

  // Data words an instruction consumes.
  function Payload(i: Ins, nups: seq<nat>): nat
  {
    if i.op == CLOSURE then Nups(nups, i.bx) else if i.op == SETLIST && i.c == 0 then 1 else 0
  }

  function Words(code: seq<Ins>, from: int, n: nat): seq<Ins>
  {
    if 0 <= from <= from + n <= |code| then code[from..from + n] else []
  }

  // The MOVEs a MOVEN executes besides its own.
  function MoveMany<S>(code: seq<Ins>, from: int, n: int, mv: (int, int, S) -> S, st: S): S
    decreases n
  {
    if n <= 0 then st
    else MoveMany(code, from + 1, n - 1, mv, mv(At(code, from).a, At(code, from).b, st))
  }

  // One instruction; `labels` is Some for code whose jumps still name labels.
  datatype Labels = ByLabel(labels: map<int, int>) | ByDistance

  function Target(mode: Labels, pc: int, jmp: Ins): int
  {
    if mode.ByLabel? then LabelPc(mode.labels, jmp.sbx) + 1 else pc + 1 + jmp.sbx
  }

  function Step<S, R>(code: seq<Ins>, mode: Labels, nups: seq<nat>, sem: (Ins, seq<Ins>, S) -> Outcome<S, R>,
                      mv: (int, int, S) -> S, c: Config<S, R>): Config<S, R>
  {
    if c.Over? then c
    else if !(0 <= c.pc < |code|) then Over(Left(c.pc, c.st))
    else
      var i, st := code[c.pc], c.st;
      match i.op
      case JMP => Running(Target(mode, c.pc, i), st)
      case NOP => Running(c.pc + 1, st)
      case MOVE => Running(c.pc + 1, mv(i.a, i.b, st))
      case MOVEN => Running(c.pc + 1 + i.c, MoveMany(code, c.pc + 1, i.c, mv, mv(i.a, i.b, st)))
      case _ =>
        match sem(i, Words(code, c.pc + 1, Payload(i, nups)), st)
        case Stop(r) => Over(Stopped(r))
        case Go(s, offset) => Running(c.pc + 1 + Payload(i, nups) + offset, s)
  }

  function Run<S, R>(code: seq<Ins>, mode: Labels, nups: seq<nat>, sem: (Ins, seq<Ins>, S) -> Outcome<S, R>,
                     mv: (int, int, S) -> S, n: nat, c: Config<S, R>): Config<S, R>
  {
    if n == 0 then c else Run(code, mode, nups, sem, mv, n - 1, Step(code, mode, nups, sem, mv, c))
  }

  // ----- what patching keeps -----

  // Data words are what their instruction expects, and nothing is fused yet.
  ghost predicate WellFormed(code: seq<Ins>, nups: seq<nat>)
  {
    forall i :: 0 <= i < |code| ==> WellFormedAt(code, nups, i)
  }

  ghost predicate WellFormedAt(code: seq<Ins>, nups: seq<nat>, i: nat)
    requires i < |code|
  {
    && code[i].op != MOVEN
    && (code[i].op == CLOSURE ==> ClosureWords(code, i, Nups(nups, code[i].bx)))
    && (code[i].op == SETLIST && code[i].c == 0 ==> At(code, i + 1).op == RAW)
  }

  ghost predicate ClosureWords(code: seq<Ins>, i: nat, n: nat)
  {
    i + n < |code| && forall j :: i < j <= i + n ==> code[j].op == MOVE || code[j].op == GETUPVAL
  }

  // No jump goes back to a jump.
  ghost predicate NoJumpBackToJump(code: seq<Ins>, labels: map<int, int>)
  {
    forall i :: 0 <= i < |code| ==> NotBackToJump(code, labels, i)
  }

  predicate NotBackToJump(code: seq<Ins>, labels: map<int, int>, i: nat)
    requires i < |code|
  {
    var target := LabelPc(labels, code[i].sbx) + 1;
    code[i].op == JMP && target < i ==> At(code, target).op != JMP
  }

  // k label jumps lead from i to t.
  predicate Hops(code: seq<Ins>, labels: map<int, int>, i: int, k: nat, t: int)
    decreases k
  {
    if k == 0 then i == t
    else At(code, i).op == JMP && Hops(code, labels, LabelPc(labels, At(code, i).sbx) + 1, k - 1, t)
  }

  ghost predicate Leads(code: seq<Ins>, labels: map<int, int>, i: int, t: int)
  {
    exists k: nat :: 1 <= k && Hops(code, labels, i, k, t)
  }

  lemma {:induction false} HopOnce(code: seq<Ins>, labels: map<int, int>, i: int, k: nat, t: int)
    requires Hops(code, labels, i, k, t) && At(code, t).op == JMP
    ensures Hops(code, labels, i, k + 1, LabelPc(labels, At(code, t).sbx) + 1)
    decreases k
  {
    if k > 0 {
      HopOnce(code, labels, LabelPc(labels, At(code, i).sbx) + 1, k - 1, t);
    }
  }

  // The code from pc on is untouched, and before it no jump appeared.
  ghost predicate Ahead(pre: seq<Ins>, cur: seq<Ins>, pc: int)
  {
    && |cur| == |pre| && 0 <= pc
    && (forall j :: pc <= j < |pre| ==> cur[j] == pre[j])
    && (forall j :: 0 <= j < pc && j < |pre| && cur[j].op == JMP ==> pre[j].op == JMP)
  }

  lemma {:induction false} ThreadLeads(pre: seq<Ins>, cur: seq<Ins>, labels: map<int, int>, pc: int, at: int,
                                       count: nat, distance: int)
    requires 0 <= pc && Ahead(pre, cur, pc) && NoJumpBackToJump(pre, labels) && count <= MAX_HOPS
    requires Hops(pre, labels, pc, count, at)
    requires if count == 0 then at == pc && distance == 0 && At(pre, pc).op == JMP else at == pc + distance + 1
    requires At(cur, at).op == JMP ==> pc <= at
    ensures var r := Thread(cur, labels, pc, At(cur, at), count, distance);
            r.By? ==> Leads(pre, labels, pc, pc + r.d + 1)
    decreases MAX_HOPS - count
  {
    var jmp := At(cur, at);
    if jmp.op == JMP && count < MAX_HOPS {
      assert jmp == At(pre, at);
      var next := LabelPc(labels, jmp.sbx) + 1;
      assert NotBackToJump(pre, labels, at);
      assert At(cur, next).op == JMP ==> pc <= next;
      hide Ahead, NoJumpBackToJump;
      HopOnce(pre, labels, pc, count, at);
      hide Hops;
      if next - 1 - pc <= MAX_ARG_SBX {
        ThreadLeads(pre, cur, labels, pc, next, count + 1, next - 1 - pc);
      }
    }
  }

  // How an instruction of the patched code relates to the one it replaces.
  ghost predicate Related(pre: seq<Ins>, post: seq<Ins>, labels: map<int, int>, nups: seq<nat>, i: nat)
    requires i < |pre| == |post|
  {
    if pre[i].op == JMP then
      || (post[i] == pre[i].(op := NOP) && Leads(pre, labels, i, i + 1))
      || (post[i] == pre[i].(sbx := post[i].sbx) && Leads(pre, labels, i, i + 1 + post[i].sbx))
    else if pre[i].op == MOVE then post[i] == pre[i] || FusedAt(pre, post, i)
    else
      && post[i] == pre[i]
      && (pre[i].op == CLOSURE ==>
        Words(post, i + 1, Nups(nups, pre[i].bx)) == Words(pre, i + 1, Nups(nups, pre[i].bx)))
  }

  ghost predicate FusedAt(pre: seq<Ins>, post: seq<Ins>, i: nat)
    requires i < |pre| == |post|
  {
    && post[i] == pre[i].(op := MOVEN, c := post[i].c)
    && 1 <= post[i].c <= MAX_ARG_C
    && i + post[i].c < |pre|
    && forall j :: i < j <= i + post[i].c ==> pre[j].op == MOVE
  }

  // Patching has reached pc behind a run of `moven` MOVEs.
  ghost predicate Progress(pre: seq<Ins>, cur: seq<Ins>, labels: map<int, int>, nups: seq<nat>, pc: nat, moven: nat)
  {
    && |cur| == |pre| && moven <= pc <= |pre|
    && (forall i :: 0 <= i < pc - moven ==> Related(pre, cur, labels, nups, i))
    && (forall i :: 0 <= i < pc - moven && pre[i].op == CLOSURE ==> i + Nups(nups, pre[i].bx) < pc - moven)
    && (forall i :: pc - moven <= i < |pre| ==> cur[i] == pre[i])
    && (forall i :: pc - moven <= i < pc ==> pre[i].op == MOVE)
  }

  lemma SliceKept(a: seq<Ins>, b: seq<Ins>, m: int, n: int, from: int)
    requires 0 <= m <= n <= from <= |a| && from <= |b| && a[..from] == b[..from]
    ensures a[m..n] == b[m..n]
  {
    assert a[..from][m..n] == a[m..n] && b[..from][m..n] == b[m..n];
  }

  // A change from position `from` on keeps what is settled before it.
  lemma RelatedKept(pre: seq<Ins>, cur: seq<Ins>, next: seq<Ins>, labels: map<int, int>, nups: seq<nat>, from: nat,
                    i: nat)
    requires i < from <= |pre| == |cur| == |next| && next[..from] == cur[..from]
    requires Related(pre, cur, labels, nups, i)
    requires pre[i].op == CLOSURE ==> i + Nups(nups, pre[i].bx) < from
    ensures Related(pre, next, labels, nups, i)
  {
    assert next[i] == next[..from][i] == cur[..from][i] == cur[i];
    if pre[i].op == CLOSURE {
      var end := i + 1 + Nups(nups, pre[i].bx);
      SliceKept(cur, next, i + 1, end, from);
    }
  }

  // The run of MOVEs before pc is fused, and the instruction at pc replaced by a related one.
  lemma RunSettled(pre: seq<Ins>, cur: seq<Ins>, next: seq<Ins>, labels: map<int, int>, nups: seq<nat>, pc: nat,
                   moven: nat)
    requires Progress(pre, cur, labels, nups, pc, moven) && pc < |pre| && pre[pc].op != CLOSURE
    requires |next| == |pre| && next == Fused(cur[pc := next[pc]], pc, moven) && Related(pre, next, labels, nups, pc)
    ensures Progress(pre, next, labels, nups, pc + 1, 0)
  {
    var start := pc - moven;
    assert next[..start] == cur[..start];
    forall i | 0 <= i < pc + 1 ensures Related(pre, next, labels, nups, i) {
      if i < start {
        RelatedKept(pre, cur, next, labels, nups, start, i);
      }
    }
  }

  lemma SameRelated(pre: seq<Ins>, post: seq<Ins>, labels: map<int, int>, nups: seq<nat>, i: nat)
    requires i < |pre| == |post| && post[i] == pre[i] && pre[i].op != JMP
    requires pre[i].op == CLOSURE ==>
               i + Nups(nups, pre[i].bx) < |pre| &&
               forall j :: i < j <= i + Nups(nups, pre[i].bx) ==> post[j] == pre[j]
    ensures Related(pre, post, labels, nups, i)
  {
  }

  lemma ClosureProgress(pre: seq<Ins>, cur: seq<Ins>, labels: map<int, int>, nups: seq<nat>, pc: nat, moven: nat)
    requires Progress(pre, cur, labels, nups, pc, moven) && pc < |pre| && pre[pc].op == CLOSURE
    requires ClosureWords(pre, pc, Nups(nups, pre[pc].bx))
    ensures Progress(pre, cur, labels, nups, pc + Nups(nups, pre[pc].bx) + 1, 0)
  {
    var next := pc + Nups(nups, pre[pc].bx) + 1;
    forall i | pc - moven <= i < next ensures Related(pre, cur, labels, nups, i) {
      SameRelated(pre, cur, labels, nups, i);
    }
  }

  lemma JumpRelated(pre: seq<Ins>, cur: seq<Ins>, next: seq<Ins>, labels: map<int, int>, nups: seq<nat>, pc: nat,
                    d: int)
    requires Ahead(pre, cur, pc) && NoJumpBackToJump(pre, labels) && pc < |pre| == |next|
    requires pre[pc].op == JMP && Thread(cur, labels, pc, pre[pc], 0, 0) == By(d) && next[pc] == Jump(pre[pc], d)
    ensures Related(pre, next, labels, nups, pc)
  {
    assert At(cur, pc) == pre[pc];
    ThreadLeads(pre, cur, labels, pc, pc, 0, 0);
    hide NoJumpBackToJump, Thread, Leads, Ahead;
    assert Leads(pre, labels, pc, pc + 1 + d);
  }

  lemma JumpProgress(pre: seq<Ins>, cur: seq<Ins>, labels: map<int, int>, nups: seq<nat>, pc: nat, moven: nat, d: int)
    requires Progress(pre, cur, labels, nups, pc, moven) && NoJumpBackToJump(pre, labels)
    requires pc < |pre| && pre[pc].op == JMP && Thread(cur, labels, pc, pre[pc], 0, 0) == By(d)
    ensures Progress(pre, Fused(cur[pc := Jump(pre[pc], d)], pc, moven), labels, nups, pc + 1, 0)
  {
    ProgressAhead(pre, cur, labels, nups, pc, moven);
    var next := Fused(cur[pc := Jump(pre[pc], d)], pc, moven);
    assert next[pc] == Jump(pre[pc], d);
    hide Related, NoJumpBackToJump, Progress, Thread, Jump, Ahead, Fused;
    JumpRelated(pre, cur, next, labels, nups, pc, d);
    RunSettled(pre, cur, next, labels, nups, pc, moven);
  }

  lemma ProgressAhead(pre: seq<Ins>, cur: seq<Ins>, labels: map<int, int>, nups: seq<nat>, pc: nat, moven: nat)
    requires Progress(pre, cur, labels, nups, pc, moven)
    ensures Ahead(pre, cur, pc)
  {
    forall j | 0 <= j < pc && cur[j].op == JMP ensures pre[j].op == JMP {
      if j < pc - moven {
        assert Related(pre, cur, labels, nups, j);
      }
    }
  }

  lemma MoveProgress(pre: seq<Ins>, cur: seq<Ins>, labels: map<int, int>, nups: seq<nat>, pc: nat, moven: nat)
    requires Progress(pre, cur, labels, nups, pc, moven) && pc < |pre| && pre[pc].op == MOVE
    ensures Progress(pre, cur, labels, nups, pc + 1, moven + 1)
  {
  }

  lemma OtherProgress(pre: seq<Ins>, cur: seq<Ins>, labels: map<int, int>, nups: seq<nat>, pc: nat, moven: nat)
    requires Progress(pre, cur, labels, nups, pc, moven)
    requires pc < |pre| && pre[pc].op != JMP && pre[pc].op != MOVE && pre[pc].op != CLOSURE
    ensures Progress(pre, Fused(cur, pc, moven), labels, nups, pc + 1, 0)
  {
    assert cur[pc := cur[pc]] == cur;
    RunSettled(pre, cur, Fused(cur, pc, moven), labels, nups, pc, moven);
  }

  lemma ProgressFacts(pre: seq<Ins>, cur: seq<Ins>, labels: map<int, int>, nups: seq<nat>, pc: nat, moven: nat)
    requires Progress(pre, cur, labels, nups, pc, moven)
    ensures |cur| == |pre| && moven <= pc <= |pre| && (pc < |pre| ==> cur[pc] == pre[pc])
  {
  }

  lemma ProgressEnd(pre: seq<Ins>, cur: seq<Ins>, labels: map<int, int>, nups: seq<nat>, moven: nat)
    requires Progress(pre, cur, labels, nups, |pre|, moven)
    ensures forall i :: 0 <= i < |pre| ==> Related(pre, cur, labels, nups, i)
  {
    forall i | |pre| - moven <= i < |pre| ensures Related(pre, cur, labels, nups, i) {
      SameRelated(pre, cur, labels, nups, i);
    }
  }

  lemma NothingPatched(code: seq<Ins>, labels: map<int, int>, nups: seq<nat>)
    ensures Progress(code, code, labels, nups, 0, 0)
  {
  }

  ghost predicate AllRelated(pre: seq<Ins>, post: seq<Ins>, labels: map<int, int>, nups: seq<nat>)
  {
    |post| == |pre| && forall i :: 0 <= i < |pre| ==> Related(pre, post, labels, nups, i)
  }

  lemma {:induction false} PatchRelates(pre: seq<Ins>, cur: seq<Ins>, labels: map<int, int>, nups: seq<nat>, pc: nat,
                                        moven: nat)
    requires Progress(pre, cur, labels, nups, pc, moven) && WellFormed(pre, nups) && NoJumpBackToJump(pre, labels)
    requires PatchFrom(cur, labels, nups, pc, moven).Done?
    ensures AllRelated(pre, PatchFrom(cur, labels, nups, pc, moven).code, labels, nups)
    decreases |pre| - pc
  {
    ProgressFacts(pre, cur, labels, nups, pc, moven);
    hide Progress, Fused, Related, NoJumpBackToJump, Thread, Jump;
    if pc == |pre| {
      ProgressEnd(pre, cur, labels, nups, moven);
    } else {
      PatchStep(cur, labels, nups, pc, moven);
      hide PatchFrom, AllRelated;
      if pre[pc].op == CLOSURE {
        assert WellFormedAt(pre, nups, pc);
        hide WellFormed;
        ClosureProgress(pre, cur, labels, nups, pc, moven);
        PatchRelates(pre, cur, labels, nups, pc + Nups(nups, pre[pc].bx) + 1, 0);
      } else if pre[pc].op == MOVE {
        hide WellFormed;
        MoveProgress(pre, cur, labels, nups, pc, moven);
        PatchRelates(pre, cur, labels, nups, pc + 1, moven + 1);
      } else if pre[pc].op == JMP {
        hide WellFormed;
        var d := Thread(cur, labels, pc, pre[pc], 0, 0).d;
        JumpProgress(pre, cur, labels, nups, pc, moven, d);
        PatchRelates(pre, Fused(cur[pc := Jump(pre[pc], d)], pc, moven), labels, nups, pc + 1, 0);
      } else {
        hide WellFormed;
        OtherProgress(pre, cur, labels, nups, pc, moven);
        PatchRelates(pre, Fused(cur, pc, moven), labels, nups, pc + 1, 0);
      }
    }
  }

  // ----- patched code runs as before -----

  lemma {:induction false} RunTwice<S, R>(code: seq<Ins>, mode: Labels, nups: seq<nat>,
                                          sem: (Ins, seq<Ins>, S) -> Outcome<S, R>, mv: (int, int, S) -> S,
                                          n: nat, m: nat, c: Config<S, R>)
    ensures Run(code, mode, nups, sem, mv, n + m, c) ==
            Run(code, mode, nups, sem, mv, m, Run(code, mode, nups, sem, mv, n, c))
    decreases n
  {
    if n > 0 {
      RunTwice(code, mode, nups, sem, mv, n - 1, m, Step(code, mode, nups, sem, mv, c));
    }
  }

  lemma {:induction false} OverStays<S, R>(code: seq<Ins>, mode: Labels, nups: seq<nat>,
                                           sem: (Ins, seq<Ins>, S) -> Outcome<S, R>, mv: (int, int, S) -> S,
                                           n: nat, c: Config<S, R>)
    requires c.Over?
    ensures Run(code, mode, nups, sem, mv, n, c) == c
  {
    if n > 0 {
      OverStays(code, mode, nups, sem, mv, n - 1, c);
    }
  }

  lemma {:induction false} HopsRun<S, R>(code: seq<Ins>, labels: map<int, int>, nups: seq<nat>,
                                         sem: (Ins, seq<Ins>, S) -> Outcome<S, R>, mv: (int, int, S) -> S,
                                         i: int, k: nat, t: int, st: S)
    requires Hops(code, labels, i, k, t)
    ensures Run(code, ByLabel(labels), nups, sem, mv, k, Running(i, st)) == Running(t, st)
    decreases k
  {
    if k > 0 {
      HopsRun(code, labels, nups, sem, mv, LabelPc(labels, At(code, i).sbx) + 1, k - 1, t, st);
    }
  }

  lemma {:induction false} MovesRun<S, R>(pre: seq<Ins>, post: seq<Ins>, labels: map<int, int>, nups: seq<nat>,
                                          sem: (Ins, seq<Ins>, S) -> Outcome<S, R>, mv: (int, int, S) -> S,
                                          from: nat, n: nat, st: S)
    requires from + n <= |pre| && AllRelated(pre, post, labels, nups)
    requires forall j :: from <= j < from + n ==> pre[j].op == MOVE
    ensures Run(pre, ByLabel(labels), nups, sem, mv, n, Running(from, st)) ==
            Running(from + n, MoveMany(post, from, n, mv, st))
    decreases n
  {
    if n > 0 {
      assert Related(pre, post, labels, nups, from);
      assert At(post, from).a == pre[from].a && At(post, from).b == pre[from].b;
      hide AllRelated, Related;
      MovesRun(pre, post, labels, nups, sem, mv, from + 1, n - 1, mv(pre[from].a, pre[from].b, st));
    }
  }

  lemma WordsKept(pre: seq<Ins>, post: seq<Ins>, labels: map<int, int>, nups: seq<nat>, i: nat)
    requires AllRelated(pre, post, labels, nups) && WellFormed(pre, nups) && i < |pre|
    requires pre[i].op != JMP && pre[i].op != MOVE
    ensures post[i] == pre[i]
    ensures Words(post, i + 1, Payload(pre[i], nups)) == Words(pre, i + 1, Payload(pre[i], nups))
  {
    assert Related(pre, post, labels, nups, i) && WellFormedAt(pre, nups, i);
    if pre[i].op == SETLIST && pre[i].c == 0 && i + 1 < |pre| {
      assert Related(pre, post, labels, nups, i + 1);
      assert At(pre, i + 1) == pre[i + 1];
      assert post[i + 1..i + 2] == [post[i + 1]] && pre[i + 1..i + 2] == [pre[i + 1]];
    }
  }

  lemma JumpSimulated<S, R>(pre: seq<Ins>, post: seq<Ins>, labels: map<int, int>, nups: seq<nat>,
                            sem: (Ins, seq<Ins>, S) -> Outcome<S, R>, mv: (int, int, S) -> S, i: nat, st: S)
    returns (k: nat)
    requires i < |pre| == |post| && Related(pre, post, labels, nups, i) && pre[i].op == JMP
    ensures k >= 1
    ensures Run(pre, ByLabel(labels), nups, sem, mv, k, Running(i, st)) ==
            Step(post, ByDistance, nups, sem, mv, Running(i, st))
  {
    var t := if post[i].op == NOP then i + 1 else i + 1 + post[i].sbx;
    assert Leads(pre, labels, i, t);
    k :| 1 <= k && Hops(pre, labels, i, k, t);
    HopsRun(pre, labels, nups, sem, mv, i, k, t, st);
    hide Run, Hops, Leads;
  }

  lemma MoveSimulated<S, R>(pre: seq<Ins>, post: seq<Ins>, labels: map<int, int>, nups: seq<nat>,
                            sem: (Ins, seq<Ins>, S) -> Outcome<S, R>, mv: (int, int, S) -> S, i: nat, st: S)
    returns (k: nat)
    requires AllRelated(pre, post, labels, nups) && i < |pre| && pre[i].op == MOVE
    ensures k >= 1
    ensures Run(pre, ByLabel(labels), nups, sem, mv, k, Running(i, st)) ==
            Step(post, ByDistance, nups, sem, mv, Running(i, st))
  {
    assert Related(pre, post, labels, nups, i);
    if FusedAt(pre, post, i) {
      k := post[i].c + 1;
      MovesRun(pre, post, labels, nups, sem, mv, i + 1, post[i].c, mv(pre[i].a, pre[i].b, st));
    } else {
      k := 1;
    }
    hide MoveMany, AllRelated;
  }

  // One step of the patched code is one or more steps of the original.
  lemma StepSimulated<S, R>(pre: seq<Ins>, post: seq<Ins>, labels: map<int, int>, nups: seq<nat>,
                            sem: (Ins, seq<Ins>, S) -> Outcome<S, R>, mv: (int, int, S) -> S, c: Config<S, R>)
    returns (k: nat)
    requires AllRelated(pre, post, labels, nups) && WellFormed(pre, nups)
    ensures k >= 1
    ensures Run(pre, ByLabel(labels), nups, sem, mv, k, c) == Step(post, ByDistance, nups, sem, mv, c)
  {
    k := 1;
    assert |post| == |pre|;
    if c.Running? && 0 <= c.pc < |pre| {
      assert Related(pre, post, labels, nups, c.pc);
      assert WellFormedAt(pre, nups, c.pc);
      hide Related, FusedAt;
      if pre[c.pc].op == JMP {
        k := JumpSimulated(pre, post, labels, nups, sem, mv, c.pc, c.st);
      } else if pre[c.pc].op == MOVE {
        k := MoveSimulated(pre, post, labels, nups, sem, mv, c.pc, c.st);
      } else {
        WordsKept(pre, post, labels, nups, c.pc);
        hide AllRelated, WellFormed, Words;
        OneStep(pre, ByLabel(labels), nups, sem, mv, c);
      }
    } else {
      OneStep(pre, ByLabel(labels), nups, sem, mv, c);
    }
    hide *;
  }

  lemma OneStep<S, R>(code: seq<Ins>, mode: Labels, nups: seq<nat>, sem: (Ins, seq<Ins>, S) -> Outcome<S, R>,
                      mv: (int, int, S) -> S, c: Config<S, R>)
    ensures Run(code, mode, nups, sem, mv, 1, c) == Step(code, mode, nups, sem, mv, c)
  {
  }

  lemma {:induction false} PatchedRunIsRun<S, R>(pre: seq<Ins>, post: seq<Ins>, labels: map<int, int>, nups: seq<nat>,
                                                 sem: (Ins, seq<Ins>, S) -> Outcome<S, R>, mv: (int, int, S) -> S,
                                                 n: nat, c: Config<S, R>)
    returns (m: nat)
    requires AllRelated(pre, post, labels, nups) && WellFormed(pre, nups)
    ensures m >= n
    ensures Run(pre, ByLabel(labels), nups, sem, mv, m, c) == Run(post, ByDistance, nups, sem, mv, n, c)
    decreases n
  {
    hide AllRelated, WellFormed, Step;
    m := 0;
    if n > 0 {
      var k := StepSimulated(pre, post, labels, nups, sem, mv, c);
      var rest := PatchedRunIsRun(pre, post, labels, nups, sem, mv, n - 1, Step(post, ByDistance, nups, sem, mv, c));
      RunTwice(pre, ByLabel(labels), nups, sem, mv, k, rest, c);
      m := k + rest;
    }
  }

  // A run ends in e.
  ghost predicate Ends<S(!new), R(!new)>(code: seq<Ins>, mode: Labels, nups: seq<nat>,
                                         sem: (Ins, seq<Ins>, S) -> Outcome<S, R>, mv: (int, int, S) -> S,
                                         c: Config<S, R>, e: End<S, R>)
  {
    exists n: nat :: Run(code, mode, nups, sem, mv, n, c) == Over(e)
  }

  // From every instruction, in the middle of a fused run too, and in every state, patched code ends
  // exactly as the original does, or runs forever when it does; no matter what the other
  // instructions mean, and with loops.
  lemma PatchPreservesRuns<S(!new), R(!new)>(code: seq<Ins>, labels: map<int, int>, nups: seq<nat>,
                                             sem: (Ins, seq<Ins>, S) -> Outcome<S, R>, mv: (int, int, S) -> S,
                                             c: Config<S, R>, e: End<S, R>)
    requires WellFormed(code, nups) && NoJumpBackToJump(code, labels)
    requires PatchFrom(code, labels, nups, 0, 0).Done?
    ensures Ends(PatchFrom(code, labels, nups, 0, 0).code, ByDistance, nups, sem, mv, c, e) <==>
            Ends(code, ByLabel(labels), nups, sem, mv, c, e)
  {
    var post := PatchFrom(code, labels, nups, 0, 0).code;
    hide Related, PatchFrom, NoJumpBackToJump, WellFormed;
    PatchRelates(code, code, labels, nups, 0, 0);
    hide AllRelated, Run;
    if Ends(post, ByDistance, nups, sem, mv, c, e) {
      var n: nat :| Run(post, ByDistance, nups, sem, mv, n, c) == Over(e);
      var m := PatchedRunIsRun(code, post, labels, nups, sem, mv, n, c);
    }
    if Ends(code, ByLabel(labels), nups, sem, mv, c, e) {
      var n: nat :| Run(code, ByLabel(labels), nups, sem, mv, n, c) == Over(e);
      var m := PatchedRunIsRun(code, post, labels, nups, sem, mv, n, c);
      RunTwice(code, ByLabel(labels), nups, sem, mv, n, m - n, c);
      OverStays(code, ByLabel(labels), nups, sem, mv, m - n, Over(e));
    }
  }

  // Forward code, what if statements and conditions compile to, always qualifies.
  lemma ForwardCode(code: seq<Ins>, labels: map<int, int>)
    requires forall i :: 0 <= i < |code| && code[i].op == JMP ==> LabelPc(labels, code[i].sbx) >= i
    ensures NoJumpBackToJump(code, labels)
  {
  }

  // A jump back to a jump that is already a distance reads that distance as a label.
  const MISREAD := [ASbx(JMP, 0, 7), ABC(RETURN, 1, 0, 0), ASbx(JMP, 0, 5), ABC(RETURN, 3, 0, 0)]
  const MISREAD_LABELS := map[2 := 0, 5 := -1, 7 := 2]
  const MISREAD_PATCHED := [ASbx(JMP, 0, 2), ABC(RETURN, 1, 0, 0), ASbx(JMP, 0, -2), ABC(RETURN, 3, 0, 0)]

  lemma MisreadPatched()
    ensures PatchFrom(MISREAD, MISREAD_LABELS, [], 0, 0) == Done(MISREAD_PATCHED)
  {
    var code1 := MISREAD[0 := ASbx(JMP, 0, 2)];
    assert Thread(MISREAD, MISREAD_LABELS, 0, MISREAD[0], 0, 0) == By(2);
    assert Thread(code1, MISREAD_LABELS, 2, code1[2], 0, 0) == By(-2) by {
      assert Thread(code1, MISREAD_LABELS, 2, At(code1, 1), 2, -2) == By(-2);
      assert Thread(code1, MISREAD_LABELS, 2, At(code1, 0), 1, -3) == By(-2);
    }
    hide Thread;
    PatchStep(MISREAD, MISREAD_LABELS, [], 0, 0);
    PatchStep(code1, MISREAD_LABELS, [], 1, 0);
    PatchStep(code1, MISREAD_LABELS, [], 2, 0);
    PatchStep(MISREAD_PATCHED, MISREAD_LABELS, [], 3, 0);
    assert code1[2 := Jump(code1[2], -2)] == MISREAD_PATCHED;
  }

  function StopAtA(i: Ins, words: seq<Ins>, st: int): Outcome<int, int> { Stop(i.a) }

  function NoMove(a: int, b: int, st: int): int { st }

  // The jump at 2 means to go to 0 and on to 3, and is patched to go to 1.
  lemma JumpBackMisread()
    ensures PatchFrom(MISREAD, MISREAD_LABELS, [], 0, 0) == Done(MISREAD_PATCHED)
    ensures Run(MISREAD, ByLabel(MISREAD_LABELS), [], StopAtA, NoMove, 3, Running(2, 0)) == Over(Stopped(3))
    ensures Run(MISREAD_PATCHED, ByDistance, [], StopAtA, NoMove, 2, Running(2, 0)) == Over(Stopped(1))
  {
    MisreadPatched();
    hide PatchFrom;
    var mode := ByLabel(MISREAD_LABELS);
    assert Step(MISREAD, mode, [], StopAtA, NoMove, Running(2, 0)) == Running(0, 0);
    assert Step(MISREAD, mode, [], StopAtA, NoMove, Running(0, 0)) == Running(3, 0);
    assert Step(MISREAD, mode, [], StopAtA, NoMove, Running(3, 0)) == Over(Stopped(3));
    assert Step(MISREAD_PATCHED, ByDistance, [], StopAtA, NoMove, Running(2, 0)) == Running(1, 0);
    assert Step(MISREAD_PATCHED, ByDistance, [], StopAtA, NoMove, Running(1, 0)) == Over(Stopped(1));
    RunTwice(MISREAD, mode, [], StopAtA, NoMove, 1, 2, Running(2, 0));
    RunTwice(MISREAD, mode, [], StopAtA, NoMove, 1, 1, Running(0, 0));
    RunTwice(MISREAD_PATCHED, ByDistance, [], StopAtA, NoMove, 1, 1, Running(2, 0));
    OneStep(MISREAD, mode, [], StopAtA, NoMove, Running(2, 0));
    OneStep(MISREAD, mode, [], StopAtA, NoMove, Running(0, 0));
    OneStep(MISREAD, mode, [], StopAtA, NoMove, Running(3, 0));
    OneStep(MISREAD_PATCHED, ByDistance, [], StopAtA, NoMove, Running(2, 0));
    OneStep(MISREAD_PATCHED, ByDistance, [], StopAtA, NoMove, Running(1, 0));
    hide Run, Step;
  }
}
