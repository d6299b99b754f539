/**
 Variables captured by closures: the sorted list of open upvalues, closing them, and what reading
 a captured variable gives.
 */
module Upvalues {

  // ----- the meaning -----

  // A captured variable lives in a register of the stack, or, once closed, by itself.
  datatype Cell<V> = Open(index: nat) | Closed(value: V)

  // The registers, and every variable captured so far.
  datatype Store<V> = Store(regs: seq<V>, cells: seq<Cell<V>>)

  // Open variables are in distinct registers.
  ghost predicate Inv<V>(s: Store<V>)
  {
    && (forall k :: 0 <= k < |s.cells| && s.cells[k].Open? ==> s.cells[k].index < |s.regs|)
    && (forall j, k :: 0 <= j < k < |s.cells| && s.cells[j].Open? && s.cells[k].Open? ==>
          s.cells[j].index != s.cells[k].index)
  }

  function Read<V>(s: Store<V>, k: nat): V
    requires k < |s.cells| && (s.cells[k].Open? ==> s.cells[k].index < |s.regs|)
  {
    if s.cells[k].Open? then s.regs[s.cells[k].index] else s.cells[k].value
  }

  datatype Event<V> = SetRegister(i: nat, v: V) | SetUpvalue(k: nat, v: V) | Capture(i: nat) | CloseFrom(i: nat)

  predicate InRange<V>(s: Store<V>, e: Event<V>)
  {
    match e
    case SetRegister(i, _) => i < |s.regs|
    case SetUpvalue(k, _) => k < |s.cells|
    case Capture(i) => i < |s.regs|
    case CloseFrom(_) => true
  }

  predicate IsOpenAt<V>(c: Cell<V>, i: nat) { c.Open? && c.index == i }

  // The variable captured from a register that is still open, the number of all when there is none.
  function Captured<V>(cells: seq<Cell<V>>, i: nat): (k: nat)
    ensures k <= |cells|
    ensures k < |cells| ==> IsOpenAt(cells[k], i)
    ensures k == |cells| ==> forall j :: 0 <= j < |cells| ==> !IsOpenAt(cells[j], i)
  {
    if cells == [] then 0
    else if IsOpenAt(cells[0], i) then 0
    else 1 + Captured(cells[1..], i)
  }

  function ClosedAt<V>(regs: seq<V>, c: Cell<V>, i: nat): Cell<V>
  {
    if c.Open? && i <= c.index < |regs| then Closed(regs[c.index]) else c
  }

  function Step<V>(s: Store<V>, e: Event<V>): Store<V>
    requires Inv(s) && InRange(s, e)
  {
    match e
    case SetRegister(i, v) => s.(regs := s.regs[i := v])
    case SetUpvalue(k, v) =>
      if s.cells[k].Open? then s.(regs := s.regs[s.cells[k].index := v]) else s.(cells := s.cells[k := Closed(v)])
    case Capture(i) => if Captured(s.cells, i) < |s.cells| then s else s.(cells := s.cells + [Open(i)])
    case CloseFrom(i) =>
      s.(cells := seq(|s.cells|, k requires 0 <= k < |s.cells| => ClosedAt(s.regs, s.cells[k], i)))
  }

  // The event writes variable k: directly, or through its register while it is open.
  predicate Writes<V>(s: Store<V>, e: Event<V>, k: nat)
    requires k < |s.cells|
  {
    match e
    case SetRegister(i, _) => IsOpenAt(s.cells[k], i)
    case SetUpvalue(j, _) => j == k
    case _ => false
  }

  // Each event keeps the invariant, and each captured variable has the value written last.
  lemma StepKeeps<V>(s: Store<V>, e: Event<V>, k: nat)
    requires Inv(s) && InRange(s, e) && k < |s.cells|
    ensures Inv(Step(s, e)) && k < |Step(s, e).cells| && |Step(s, e).regs| == |s.regs|
    ensures Read(Step(s, e), k) == if Writes(s, e, k) then e.v else Read(s, k)
  {
    assert Inv(Step(s, e)) by {
      StepInv(s, e);
    }
  }

  lemma StepInv<V>(s: Store<V>, e: Event<V>)
    requires Inv(s) && InRange(s, e)
    ensures Inv(Step(s, e)) && |s.cells| <= |Step(s, e).cells| && |Step(s, e).regs| == |s.regs|
  {
    if e.Capture? {
      var k := Captured(s.cells, e.i);
      if k == |s.cells| {
        forall j | 0 <= j < |s.cells| && s.cells[j].Open? ensures s.cells[j].index != e.i {
          assert !IsOpenAt(s.cells[j], e.i);
        }
      }
    }
  }

  // Runs of events.
  ghost predicate AllInRange<V>(s: Store<V>, es: seq<Event<V>>)
    requires Inv(s)
    decreases |es|
  {
    es != [] ==> InRange(s, es[0]) && (StepInv(s, es[0]); AllInRange(Step(s, es[0]), es[1..]))
  }

  ghost function Run<V>(s: Store<V>, es: seq<Event<V>>): Store<V>
    requires Inv(s) && AllInRange(s, es)
    decreases |es|
  {
    if es == [] then s else StepInv(s, es[0]); Run(Step(s, es[0]), es[1..])
  }

  // The value of the last event that wrote variable k, `v` when there is none.
  ghost function LastWritten<V>(s: Store<V>, es: seq<Event<V>>, k: nat, v: V): V
    requires Inv(s) && AllInRange(s, es) && k < |s.cells|
    decreases |es|
  {
    if es == [] then v
    else
      StepInv(s, es[0]);
      LastWritten(Step(s, es[0]), es[1..], k, if Writes(s, es[0], k) then es[0].v else v)
  }

  // Over any run of writes, captures and closings: reading a captured variable, open or closed,
  // gives what was written to it last.
  lemma {:induction false} ReadsLastWritten<V>(s: Store<V>, es: seq<Event<V>>, k: nat)
    requires Inv(s) && AllInRange(s, es) && k < |s.cells|
    ensures Inv(Run(s, es)) && k < |Run(s, es).cells|
    ensures Read(Run(s, es), k) == LastWritten(s, es, k, Read(s, k))
    decreases |es|
  {
    if es != [] {
      StepKeeps(s, es[0], k);
      hide Inv, Step, Writes, InRange;
      ReadsLastWritten(Step(s, es[0]), es[1..], k);
    }
  }

  // ----- the list -----

  class Upvalue<V(0)> {
    var next: Upvalue?<V>
    const reg: array<V>
    const index: nat
    var value: V
    var closed: bool

    constructor (r: array<V>, i: nat, v: V)
      ensures next == null && reg == r && index == i && value == v && !closed
    {
      next, reg, index, value, closed := null, r, i, v, false;
    }

    function Value(): V
      reads this, reg
      requires !closed ==> index < reg.Length
    {
      if closed then value else reg[index]
    }

    method SetValue(v: V)
      requires !closed ==> index < reg.Length
      modifies this`value, reg
      ensures closed ==> value == v && forall i :: 0 <= i < reg.Length ==> reg[i] == old(reg[i])
      ensures !closed ==> value == old(value) && reg[..] == old(reg[..])[index := v]
    {
      if closed {
        value := v;
      } else {
        reg[index] := v;
      }
    }

    method Close()
      requires !closed ==> index < reg.Length
      modifies this`value, this`closed
      ensures closed && value == old(Value())
    {
      var v := Value();
      closed := true;
      value := v;
    }
  }

  class Stack<V(0)> {
    const reg: array<V>
    var uvcache: Upvalue?<V>

    // Every upvalue made so far, and the open ones in list order.
    ghost var all: seq<Upvalue<V>>
    ghost var open: seq<Upvalue<V>>

    constructor (n: nat, zero: V)
      ensures Valid() && fresh(reg) && all == [] && reg.Length == n
    {
      reg := new V[n](_ => zero);
      uvcache, all, open := null, [], [];
    }

    // The list links exactly the open upvalues, strictly sorted by register.
    ghost predicate Valid()
      reads this, all, open
    {
      && Apart(all)
      && (forall i :: 0 <= i < |all| ==> all[i].reg == reg && (all[i].closed || all[i] in open))
      && (forall i :: 0 <= i < |open| ==> open[i] in all && !open[i].closed && open[i].index < reg.Length)
      && Sorted(open)
      && Linked(uvcache, open)
    }

    static ghost predicate Apart(list: seq<Upvalue<V>>)
    {
      forall i, j :: 0 <= i < j < |list| ==> list[i] != list[j]
    }

    static ghost predicate Sorted(list: seq<Upvalue<V>>)
    {
      forall i, j :: 0 <= i < j < |list| ==> list[i].index < list[j].index
    }

    static lemma SortedInsert(list: seq<Upvalue<V>>, p: nat, uv: Upvalue<V>)
      requires Sorted(list) && p <= |list|
      requires forall i :: 0 <= i < p ==> list[i].index < uv.index
      requires forall i :: p <= i < |list| ==> list[i].index > uv.index
      ensures Sorted(list[..p] + [uv] + list[p..])
      ensures forall x :: x in list[..p] + [uv] + list[p..] <==> x in list || x == uv
    {
      var more := list[..p] + [uv] + list[p..];
      forall i, j | 0 <= i < j < |more| ensures more[i].index < more[j].index {
        assert i < p ==> more[i] == list[i];
        assert j < p ==> more[j] == list[j];
        assert i > p ==> more[i] == list[i - 1];
        assert j > p ==> more[j] == list[j - 1];
      }
      assert list == list[..p] + list[p..];
    }

    static lemma ApartInsert(list: seq<Upvalue<V>>, uv: Upvalue<V>)
      requires Apart(list) && uv !in list
      ensures Apart(list + [uv])
    {
    }

    static ghost predicate Linked(first: Upvalue?<V>, list: seq<Upvalue<V>>)
      reads list
    {
      && first == (if list == [] then null else list[0])
      && forall i :: 0 <= i < |list| ==> NextIn(list, i)
    }

    static ghost predicate NextIn(list: seq<Upvalue<V>>, i: nat)
      reads list
      requires i < |list|
    {
      list[i].next == if i + 1 < |list| then list[i + 1] else null
    }

    ghost function CellOf(uv: Upvalue<V>): Cell<V>
      reads uv
    {
      if uv.closed then Closed(uv.value) else Open(uv.index)
    }

    ghost function View(): Store<V>
      reads this, all, reg
    {
      Store(reg[..], seq(|all|, k requires 0 <= k < |all| reads this, all => CellOf(all[k])))
    }

    lemma ViewInv()
      requires Valid()
      ensures Inv(View())
    {
      forall j, k | 0 <= j < k < |all| && !all[j].closed && !all[k].closed ensures all[j].index != all[k].index {
        var a :| 0 <= a < |open| && open[a] == all[j];
        var b :| 0 <= b < |open| && open[b] == all[k];
      }
    }

    method WriteRegister(i: nat, v: V)
      requires Valid() && i < reg.Length
      modifies reg
      ensures Valid() && Inv(old(View())) && View() == Step(old(View()), SetRegister(i, v))
    {
      ViewInv();
      reg[i] := v;
    }

    // Through any closure that shares the variable.
    method WriteUpvalue(uv: Upvalue<V>, ghost k: nat, v: V)
      requires Valid() && k < |all| && all[k] == uv
      modifies uv`value, reg
      ensures Valid() && Inv(old(View())) && View() == Step(old(View()), SetUpvalue(k, v))
    {
      ViewInv();
      assert !uv.closed ==> uv in open;
      uv.SetValue(v);
    }

    method ReadUpvalue(uv: Upvalue<V>, ghost k: nat) returns (v: V)
      requires Valid() && k < |all| && all[k] == uv
      ensures Inv(View()) && v == Read(View(), k)
    {
      ViewInv();
      assert !uv.closed ==> uv in open;
      v := uv.Value();
    }

    // The upvalue of a register: the open one when there is one, and otherwise a new one, linked in order.
    method FindUpvalue(idx: nat) returns (uv: Upvalue<V>, ghost k: nat)
      requires Valid() && idx < reg.Length
      modifies this, open`next
      ensures Valid() && Inv(old(View())) && View() == Step(old(View()), Capture(idx))
      ensures k == Captured(old(View()).cells, idx) < |all| && all[k] == uv && old(all) <= all
    {
      ViewInv();
      var prev: Upvalue?<V>, at: Upvalue?<V>;
      ghost var p: nat;
      prev, at, p := Search(idx);
      if at != null && at.index == idx {
        uv := at;
        k := Captured(View().cells, idx);
        Same(k, p);
        return;
      }
      NotCaptured(idx, p);
      hide Captured, Apart, Sorted, Linked, CellOf, Inv;
      uv := Add(prev, at, idx, p);
      k := |all| - 1;
    }

    // The first list entry at or behind a register, and the entry before it.
    method Search(idx: nat) returns (prev: Upvalue?<V>, at: Upvalue?<V>, ghost p: nat)
      requires Valid()
      ensures p <= |open|
      ensures at == (if p < |open| then open[p] else null) && prev == (if p == 0 then null else open[p - 1])
      ensures forall i :: 0 <= i < p ==> open[i].index < idx
      ensures forall i :: p <= i < |open| ==> open[i].index >= idx
    {
      prev, at, p := null, uvcache, 0;
      while at != null
        invariant 0 <= p <= |open|
        invariant at == (if p < |open| then open[p] else null)
        invariant prev == (if p == 0 then null else open[p - 1])
        invariant forall i :: 0 <= i < p ==> open[i].index < idx
        decreases |open| - p
      {
        if at.index >= idx {
          return;
        }
        assert NextIn(open, p);
        prev := at;
        at := at.next;
        p := p + 1;
      }
    }

    lemma NotCaptured(idx: nat, p: nat)
      requires Valid() && p <= |open|
      requires forall i :: 0 <= i < p ==> open[i].index < idx
      requires forall i :: p <= i < |open| ==> open[i].index >= idx
      requires p < |open| ==> open[p].index != idx
      ensures Captured(View().cells, idx) == |all|
      ensures forall i :: p <= i < |open| ==> open[i].index > idx
    {
      forall j | 0 <= j < |all| ensures !IsOpenAt(View().cells[j], idx) {
        if !all[j].closed {
          var i :| 0 <= i < |open| && open[i] == all[j];
          assert open[i].index != idx;
        }
      }
    }

    // A new upvalue between two entries.
    method Link(prev: Upvalue?<V>, next: Upvalue?<V>, idx: nat, ghost p: nat) returns (uv: Upvalue<V>)
      requires Valid() && p <= |open| && idx < reg.Length
      requires next == (if p < |open| then open[p] else null) && prev == (if p == 0 then null else open[p - 1])
      modifies this`uvcache, open`next
      ensures fresh(uv) && uv.reg == reg && uv.index == idx && !uv.closed
      ensures Linked(uvcache, open[..p] + [uv] + open[p..])
    {
      assert forall i :: 0 <= i < |open| && i + 1 != p ==> open[i] != prev;
      hide Sorted, Apart;
      uv := new Upvalue(reg, idx, reg[idx]);
      if prev != null {
        prev.next := uv;
      } else {
        uvcache := uv;
      }
      uv.next := next;
      forall i | 0 <= i < |open| && i + 1 != p ensures NextIn(open, i) {
        assert old(NextIn(open, i));
      }
      LinkedInsert(open, p, uv);
    }

    method Add(prev: Upvalue?<V>, next: Upvalue?<V>, idx: nat, ghost p: nat) returns (uv: Upvalue<V>)
      requires Valid() && p <= |open| && idx < reg.Length
      requires next == (if p < |open| then open[p] else null) && prev == (if p == 0 then null else open[p - 1])
      requires forall i :: 0 <= i < p ==> open[i].index < idx
      requires forall i :: p <= i < |open| ==> open[i].index > idx
      modifies this, open`next
      ensures Valid() && all == old(all) + [uv] && View() == old(View()).(cells := old(View()).cells + [Open(idx)])
    {
      hide Apart, Sorted, Linked;
      ghost var view := View();
      uv := Link(prev, next, idx, p);
      assert View().cells == view.cells;
      hide View, CellOf;
      Enlist(uv, p);
    }

    ghost method Enlist(uv: Upvalue<V>, p: nat)
      requires uv !in all && uv.reg == reg && !uv.closed && uv.index < reg.Length && p <= |open|
      requires Apart(all) && Sorted(open) && Linked(uvcache, open[..p] + [uv] + open[p..])
      requires forall i :: 0 <= i < |all| ==> all[i].reg == reg && (all[i].closed || all[i] in open)
      requires forall i :: 0 <= i < |open| ==> open[i] in all && !open[i].closed && open[i].index < reg.Length
      requires forall i :: 0 <= i < p ==> open[i].index < uv.index
      requires forall i :: p <= i < |open| ==> open[i].index > uv.index
      modifies this`all, this`open
      ensures Valid() && all == old(all) + [uv] && View() == old(View()).(cells := old(View()).cells + [Open(uv.index)])
    {
      ghost var list, made := open, all;
      SortedInsert(list, p, uv);
      ApartInsert(made, uv);
      hide Sorted, Apart, Linked;
      open := list[..p] + [uv] + list[p..];
      all := made + [uv];
      forall i | 0 <= i < |all| ensures all[i].closed || all[i] in open {
        if i < |made| {
          assert all[i] == made[i];
        }
      }
      forall x | x in open ensures x in all && !x.closed && x.index < reg.Length {
        assert x in list || x == uv;
      }
      assert View().cells == old(View()).cells + [Open(uv.index)];
    }

    // All links are as they were but for those of the new entry and of the one before it.
    lemma LinkedInsert(list: seq<Upvalue<V>>, p: nat, uv: Upvalue<V>)
      requires p <= |list|
      requires forall i :: 0 <= i < |list| && i + 1 != p ==> NextIn(list, i)
      requires p > 0 ==> list[p - 1].next == uv
      requires uv.next == if p < |list| then list[p] else null
      requires uvcache == if p == 0 then uv else list[0]
      ensures Linked(uvcache, list[..p] + [uv] + list[p..])
    {
      var more := list[..p] + [uv] + list[p..];
      forall i | 0 <= i < |more| ensures NextIn(more, i) {
        if i + 1 < p {
          assert NextIn(list, i);
        } else if i > p {
          assert NextIn(list, i - 1);
        }
      }
    }

    // The number of entries for registers below idx.
    static ghost function Below(list: seq<Upvalue<V>>, idx: nat): (m: nat)
      ensures m <= |list|
      ensures forall i :: 0 <= i < m ==> list[i].index < idx
      ensures m < |list| ==> list[m].index >= idx
    {
      if list == [] || list[0].index >= idx then 0 else 1 + Below(list[1..], idx)
    }

    static lemma {:induction false} BelowSplits(list: seq<Upvalue<V>>, idx: nat)
      requires Sorted(list)
      ensures forall i :: 0 <= i < |list| ==> (list[i].index >= idx <==> Below(list, idx) <= i)
    {
      var m := Below(list, idx);
      forall i | m < i < |list| ensures list[i].index >= idx {
        assert list[m].index < list[i].index;
      }
    }

    static lemma SortedApart(list: seq<Upvalue<V>>)
      requires Sorted(list)
      ensures Apart(list)
    {
    }

    // Entries m.. up to p are closed and cut off, the others untouched.
    static ghost predicate Closing(first: Upvalue?<V>, list: seq<Upvalue<V>>, r: array<V>, m: nat, p: nat)
      reads list, r
    {
      && (forall i :: 0 <= i < |list| ==> Entry(list, i, r, m, p))
      && first == if list == [] || m == 0 < p then null else list[0]
    }

    static ghost predicate Entry(list: seq<Upvalue<V>>, i: nat, r: array<V>, m: nat, p: nat)
      reads list, r
    {
      && i < |list| && list[i].reg == r && list[i].index < r.Length
      && (if m <= i < p then list[i].closed && list[i].value == r[list[i].index] else !list[i].closed)
      && list[i].next == if m <= i + 1 < p || i + 1 == |list| then null else list[i + 1]
    }

    // Closes one entry and cuts the link to it.
    method CloseEntry(prev: Upvalue?<V>, uv: Upvalue<V>, ghost list: seq<Upvalue<V>>, ghost m: nat, ghost p: nat,
                      ghost q: nat)
      requires Apart(list) && m <= p < |list| && uv == list[p] && prev == (if p == 0 then null else list[p - 1])
      requires Closing(uvcache, list, reg, m, p) && q == p + 1
      modifies this`uvcache, list`next, uv`value, uv`closed
      ensures Closing(uvcache, list, reg, m, q)
      ensures uv.next == old(uv.next)
    {
      assert forall i :: 0 <= i < |list| && i != p ==> list[i] != uv;
      assert forall i :: 0 <= i < |list| && i + 1 != p ==> list[i] != prev;
      hide Apart;
      assert Entry(list, p, reg, m, p);
      if prev != null {
        prev.next := null;
      } else {
        uvcache := null;
      }
      uv.Close();
      forall i | 0 <= i < |list| ensures Entry(list, i, reg, m, q) {
        assert old(Entry(list, i, reg, m, p));
      }
    }

    lemma ClosingNone(m: nat)
      requires Valid()
      ensures Closing(uvcache, open, reg, m, 0)
    {
      hide Sorted, Apart;
      forall i | 0 <= i < |open| ensures Entry(open, i, reg, m, 0) {
        assert open[i] in all && NextIn(open, i);
      }
    }

    // Below m nothing changes.
    lemma ClosingSkips(list: seq<Upvalue<V>>, m: nat, p: nat, q: nat)
      requires Closing(uvcache, list, reg, m, p) && p < m && q == p + 1
      ensures Closing(uvcache, list, reg, m, q)
    {
      forall i | 0 <= i < |list| ensures Entry(list, i, reg, m, q) {
        assert Entry(list, i, reg, m, p);
      }
    }

    // The loop of closeUpvalues.
    method CloseList(idx: nat)
      requires Valid()
      modifies this`uvcache, open
      ensures Closing(uvcache, open, reg, Below(open, idx), |open|)
    {
      ghost var list, m := open, Below(open, idx);
      ClosingNone(m);
      BelowSplits(list, idx);
      SortedApart(list);
      hide Sorted, Below, Linked, Apart;
      var prev: Upvalue?<V>, uv: Upvalue?<V> := null, uvcache;
      ghost var p := 0;
      while uv != null
        invariant p <= |list|
        invariant uv == (if p < |list| then list[p] else null) && prev == (if p == 0 then null else list[p - 1])
        invariant Closing(uvcache, list, reg, m, p)
        decreases |list| - p
      {
        ghost var q := p + 1;
        assert Entry(list, p, reg, m, p);
        assert uv.next == if q < |list| then list[q] else null;
        hide Closing, Entry;
        if uv.index >= idx {
          CloseEntry(prev, uv, list, m, p, q);
        } else {
          ClosingSkips(list, m, p, q);
        }
        prev := uv;
        uv := uv.next;
        p := q;
      }
    }

    // The list after the loop is its part below idx.
    method CutList(idx: nat)
      requires Valid()
      modifies this`uvcache, this`open, open
      ensures open == old(open)[..Below(old(open), idx)]
      ensures Sorted(open) && Linked(uvcache, open)
      ensures forall i :: 0 <= i < |old(open)| ==> Entry(old(open), i, reg, |open|, |old(open)|)
    {
      ghost var list, m := open, Below(open, idx);
      CloseList(idx);
      hide Below;
      CutLinked(list, m);
      open := list[..m];
    }

    // Closes exactly the variables in registers from idx on; each keeps its value.
    method CloseUpvalues(idx: nat)
      requires Valid()
      modifies this, open
      ensures Valid() && Inv(old(View())) && View() == Step(old(View()), CloseFrom(idx))
      ensures all == old(all) && open == old(open)[..Below(old(open), idx)]
    {
      ViewInv();
      ghost var list, m, cells := open, Below(open, idx), View().cells;
      BelowSplits(list, idx);
      OpenCells();
      CutList(idx);
      hide Inv, Below, Sorted, Apart, CellOf, Linked;
      ClosedCells(list, cells, m, idx);
      hide Entry, ClosedAt;
      assert View().cells == Step(old(View()), CloseFrom(idx)).cells;
    }

    lemma OpenCells()
      requires Valid()
      ensures forall k :: 0 <= k < |all| ==>
                View().cells[k] == if all[k] in open then Open(all[k].index) else Closed(all[k].value)
    {
    }

    lemma CutLinked(list: seq<Upvalue<V>>, m: nat)
      requires Sorted(list) && m <= |list|
      requires Closing(uvcache, list, reg, m, |list|)
      ensures Sorted(list[..m]) && Linked(uvcache, list[..m])
    {
      forall i | 0 <= i < m ensures NextIn(list[..m], i) {
        assert Entry(list, i, reg, m, |list|);
      }
    }

    // What the loop leaves in each cell.
    lemma ClosedCells(list: seq<Upvalue<V>>, cells: seq<Cell<V>>, m: nat, idx: nat)
      requires m <= |list| && open == list[..m] && |cells| == |all|
      requires forall i :: 0 <= i < |list| ==> Entry(list, i, reg, m, |list|)
      requires forall i :: 0 <= i < |list| ==> (list[i].index >= idx <==> m <= i)
      requires forall k :: 0 <= k < |all| ==> all[k] in list || (all[k].closed && cells[k] == CellOf(all[k]))
      requires forall k :: 0 <= k < |all| && all[k] in list ==> cells[k] == Open(all[k].index)
      ensures forall k :: 0 <= k < |all| ==> CellOf(all[k]) == ClosedAt(reg[..], cells[k], idx)
      ensures forall k :: 0 <= k < |all| ==> all[k].closed || all[k] in open
      ensures forall i :: 0 <= i < |open| ==> !open[i].closed && open[i].index < reg.Length
    {
      forall k | 0 <= k < |all|
        ensures CellOf(all[k]) == ClosedAt(reg[..], cells[k], idx) && (all[k].closed || all[k] in open)
      {
        if all[k] in list {
          var j :| 0 <= j < |list| && list[j] == all[k];
          assert Entry(list, j, reg, m, |list|);
          assert j < m ==> open[j] == list[j];
        }
      }
      forall i | 0 <= i < |open| ensures !open[i].closed && open[i].index < reg.Length {
        assert Entry(list, i, reg, m, |list|);
      }
    }

    // The open upvalue of a register is the one the view finds.
    lemma Same(k: nat, p: nat)
      requires Valid() && p < |open| && k == Captured(View().cells, open[p].index)
      ensures k < |all| && all[k] == open[p]
    {
      var j :| 0 <= j < |all| && all[j] == open[p];
      assert IsOpenAt(View().cells[j], open[p].index);
      ViewInv();
    }
  }
}
