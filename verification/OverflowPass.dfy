/** The overflow checker pass: every checked operation gets its block split
    behind it and a chain of check blocks inserted, each of which branches to the
    next one whatever its condition says. */
module OverflowPass {
  import opened Bits
  import opened Exprs
  import opened IR
  import opened OverflowChecks

  // ------------------------------------------------------------ emitting terms

  datatype Code = Code(instrs: seq<Instr>, result: Operand, next: Id)

  function LastInstr(ca: Code, cb: Code, act: Action): (c: Code)
  {
    Code(ca.instrs + cb.instrs + [Instr(cb.next, act)], Reg(cb.next), cb.next + 1)
  }

  function SelectCode(cc: Code, ca: Code, cb: Code): (c: Code)
  {
    Code(cc.instrs + ca.instrs + cb.instrs + [Instr(cb.next, Select(cc.result, ca.result, cb.result))], Reg(cb.next), cb.next + 1)
  }

  /** Instructions for a term, with fresh ids from `next` on. */
  function Emit(t: Term, next: Id): (c: Code)
    ensures c.next >= next
  {
    match t
    case Leaf(o) => Code([], o, next)
    case Op2(op, a, b, w) =>
      var ca := Emit(a, next);
      var cb := Emit(b, ca.next);
      LastInstr(ca, cb, BinOp(op, ca.result, cb.result, w))
    case Rel(p, a, b) =>
      var ca := Emit(a, next);
      var cb := Emit(b, ca.next);
      LastInstr(ca, cb, ICmp(p, ca.result, cb.result))
    case If(c, a, b) =>
      var cc := Emit(c, next);
      var ca := Emit(a, cc.next);
      var cb := Emit(b, ca.next);
      SelectCode(cc, ca, cb)
  }

  predicate OperandBelow(o: Operand, next: Id) { o.Reg? ==> o.id < next }

  predicate OperandsBelow(os: seq<Operand>, next: Id)
  {
    forall k :: 0 <= k < |os| ==> OperandBelow(os[k], next)
  }

  predicate TermBelow(t: Term, next: Id)
  {
    match t
    case Leaf(o) => OperandBelow(o, next)
    case Op2(_, a, b, _) => TermBelow(a, next) && TermBelow(b, next)
    case Rel(_, a, b) => TermBelow(a, next) && TermBelow(b, next)
    case If(c, a, b) => TermBelow(c, next) && TermBelow(a, next) && TermBelow(b, next)
  }

  /** Every operand of the term has a value. */
  predicate Readable(t: Term, regs: map<Id, Val>)
  {
    match t
    case Leaf(o) => Read1(regs, o).Some?
    case Op2(_, a, b, _) => Readable(a, regs) && Readable(b, regs)
    case Rel(_, a, b) => Readable(a, regs) && Readable(b, regs)
    case If(c, a, b) => Readable(c, regs) && Readable(a, regs) && Readable(b, regs)
  }

  /** The events of instructions with ids below `next`. */
  function Own(trace: seq<Event>, next: Id): (r: seq<Event>)
  {
    if trace == [] then []
    else
      var n := |trace| - 1;
      if trace[n].instr.id < next then Own(trace[..n], next) + [trace[n]] else Own(trace[..n], next)
  }

  predicate SameRegs(a: map<Id, Val>, b: map<Id, Val>, next: Id)
  {
    forall id :: 0 <= id < next ==> (id in a <==> id in b) && (id in a ==> a[id] == b[id])
  }

  /** The same memory, position, values below `next` and own events. */
  predicate Same(st: State, st': State, next: Id)
  {
    st.mem == st'.mem && st.pos == st'.pos && SameRegs(st.regs, st'.regs, next) && Own(st.trace, next) == Own(st'.trace, next)
  }

  lemma SameTrans(a: State, b: State, c: State, next: Id, next': Id)
    requires Same(a, b, next) && Same(b, c, next') && next <= next'
    ensures Same(a, c, next)
  {
    hide Own;
    OwnMonotone(b.trace, c.trace, next, next');
  }

  lemma {:induction false} OwnOfOwn(t: seq<Event>, next: Id, next': Id)
    requires next <= next'
    ensures Own(Own(t, next'), next) == Own(t, next)
  {
    if t != [] {
      var n := |t| - 1;
      OwnOfOwn(t[..n], next, next');
      if t[n].instr.id < next' {
        OwnSnoc(Own(t[..n], next'), t[n], next);
      }
    }
  }

  lemma OwnSnoc(t: seq<Event>, e: Event, next: Id)
    ensures Own(t + [e], next) == if e.instr.id < next then Own(t, next) + [e] else Own(t, next)
  {
    assert (t + [e])[..|t|] == t;
  }

  lemma OwnMonotone(t: seq<Event>, t': seq<Event>, next: Id, next': Id)
    requires next <= next' && Own(t, next') == Own(t', next')
    ensures Own(t, next) == Own(t', next)
  {
    OwnOfOwn(t, next, next');
    OwnOfOwn(t', next, next');
  }

  // ------------------------------------------------------------- executing terms

  lemma {:induction false} ExecAppend(l: Layout, file: seq<Byte>, a: seq<Instr>, b: seq<Instr>, st: State)
    ensures ExecBody(l, file, a + b, st)
         == var mid := ExecBody(l, file, a, st); if mid.None? then None else ExecBody(l, file, b, mid.value)
  {
    hide Exec;
    if a == [] {
      assert a + b == b;
    } else {
      assert (a + b)[1..] == a[1..] + b;
      var next := Exec(l, file, a[0], st);
      if next.Some? {
        ExecAppend(l, file, a[1..], b, next.value);
      }
    }
  }

  lemma ReadSame(st: State, st': State, o: Operand, next: Id)
    requires Same(st, st', next) && OperandBelow(o, next)
    ensures Read1(st.regs, o) == Read1(st'.regs, o)
  {
    hide Own;
  }

  /** Appending one fresh pure instruction. */
  lemma ExecOne(l: Layout, file: seq<Byte>, i: Instr, args: seq<Val>, v: Option<Val>, st: State, next: Id)
    requires ReadAll(st.regs, Operands(i.act)) == Some(args) && Perform(l, file, i.act, args, st) == Pure(v, st) && i.id >= next
    ensures v.None? ==> ExecBody(l, file, [i], st) == None
    ensures v.Some? ==> var r := ExecBody(l, file, [i], st);
              r.Some? && Same(st, r.value, next) && Read1(r.value.regs, Reg(i.id)) == v
  {
    hide Perform, Operands, ReadAll, Own;
    OwnSnoc(st.trace, Event(i, args), next);
    assert ExecBody(l, file, [], Commit(st, i, args, Effect(v, st.mem, st.pos))) == Some(Commit(st, i, args, Effect(v, st.mem, st.pos)));
    assert [i][1..] == [];
  }

  /** What running the code of a term must achieve. */
  predicate Computes(r: Option<State>, st: State, v: Option<Val>, result: Operand, next: Id, next': Id)
  {
    if v.None? then r.None?
    else r.Some? && Same(st, r.value, next) && Read1(r.value.regs, result) == v && OperandBelow(result, next')
  }

  lemma ReadsTo(regs: map<Id, Val>, os: seq<Operand>, vs: seq<Val>)
    requires |os| == |vs| && forall k :: 0 <= k < |os| ==> Read1(regs, os[k]) == Some(vs[k])
    ensures ReadAll(regs, os) == Some(vs)
  {
    hide Read1;
    var r := ReadAll(regs, os);
    if r.Some? {
      forall k | 0 <= k < |os|
        ensures r.value[k] == vs[k]
      {
        assert Read1(regs, os[k]) == Some(r.value[k]);
      }
      assert r.value == vs;
    }
  }

  function TermSize(t: Term): (n: nat)
    ensures n >= 1
  {
    match t
    case Leaf(_) => 1
    case Op2(_, a, b, _) => 1 + TermSize(a) + TermSize(b)
    case Rel(_, a, b) => 1 + TermSize(a) + TermSize(b)
    case If(c, a, b) => 1 + TermSize(c) + TermSize(a) + TermSize(b)
  }

  /** A final instruction on top of code that has computed its operands. */
  lemma FinishTerm(l: Layout, file: seq<Byte>, front: seq<Instr>, i: Instr, args: seq<Val>, v: Option<Val>, st: State, next: Id)
    requires i.id >= next
    requires var end := ExecBody(l, file, front, st);
             if end.None? then v.None?
             else Same(st, end.value, next) && ReadAll(end.value.regs, Operands(i.act)) == Some(args)
                  && Perform(l, file, i.act, args, end.value) == Pure(v, end.value)
    ensures Computes(ExecBody(l, file, front + [i], st), st, v, Reg(i.id), next, i.id + 1)
  {
    hide Same, Perform, Operands, ReadAll, ExecBody, Pure;
    var end := ExecBody(l, file, front, st);
    ExecAppend(l, file, front, [i], st);
    if end.Some? {
      ExecOne(l, file, i, args, v, end.value, next);
      if v.Some? {
        SameTrans(st, end.value, ExecBody(l, file, [i], end.value).value, next, next);
      }
    }
  }

  /** Running the code of a term binds its value to fresh registers and touches nothing
      else, or gets stuck exactly when the term has no value. */
  lemma {:induction false} EmitComputes(l: Layout, file: seq<Byte>, t: Term, next: Id, st: State)
    requires TermBelow(t, next) && Readable(t, st.regs)
    ensures Computes(ExecBody(l, file, Emit(t, next).instrs, st), st, EvalTerm(t, st.regs), Emit(t, next).result, next, Emit(t, next).next)
    decreases TermSize(t), 0
  {
    hide Same, Computes, ExecBody, EvalTerm, Emit;
    match t
    case Leaf(o) => LeafComputes(l, file, o, next, st);
    case Op2(op, a, b, w) => OpComputes(l, file, op, a, b, w, next, st);
    case Rel(p, a, b) => RelComputes(l, file, p, a, b, next, st);
    case If(c, a, b) => IfComputes(l, file, c, a, b, next, st);
  }

  lemma LeafComputes(l: Layout, file: seq<Byte>, o: Operand, next: Id, st: State)
    requires OperandBelow(o, next) && Read1(st.regs, o).Some?
    ensures var t := Leaf(o);
            Computes(ExecBody(l, file, Emit(t, next).instrs, st), st, EvalTerm(t, st.regs), Emit(t, next).result, next, Emit(t, next).next)
  {
    hide Same;
    SameRefl(st, next);
  }

  lemma {:induction false} OpComputes(l: Layout, file: seq<Byte>, op: Opcode, a: Term, b: Term, w: nat, next: Id, st: State)
    requires TermBelow(a, next) && TermBelow(b, next) && Readable(a, st.regs) && Readable(b, st.regs)
    ensures var t := Op2(op, a, b, w);
            Computes(ExecBody(l, file, Emit(t, next).instrs, st), st, EvalTerm(t, st.regs), Emit(t, next).result, next, Emit(t, next).next)
    decreases TermSize(a) + TermSize(b), 2
  {
    hide Same, Computes, ExecBody, TermBelow, Readable, BinaryValue, ReadAll, Read1, Perform;
    var ca := Emit(a, next);
    var cb := Emit(b, ca.next);
    var front, i := ca.instrs + cb.instrs, Instr(cb.next, BinOp(op, ca.result, cb.result, w));
    PairComputes(l, file, a, b, next, st);
    var x, y := EvalTerm(a, st.regs), EvalTerm(b, st.regs);
    var end := ExecBody(l, file, front, st);
    if end.Some? {
      ReadsTo(end.value.regs, [ca.result, cb.result], [x.value, y.value]);
      BinOpPerforms(l, file, op, ca.result, cb.result, w, x.value, y.value, end.value);
    }
    FinishTerm(l, file, front, i, if x.Some? && y.Some? then [x.value, y.value] else [], EvalTerm(Op2(op, a, b, w), st.regs), st, next);
  }

  lemma {:induction false} RelComputes(l: Layout, file: seq<Byte>, p: Predicate, a: Term, b: Term, next: Id, st: State)
    requires TermBelow(a, next) && TermBelow(b, next) && Readable(a, st.regs) && Readable(b, st.regs)
    ensures var t := Rel(p, a, b);
            Computes(ExecBody(l, file, Emit(t, next).instrs, st), st, EvalTerm(t, st.regs), Emit(t, next).result, next, Emit(t, next).next)
    decreases TermSize(a) + TermSize(b), 2
  {
    hide Same, Computes, ExecBody, TermBelow, Readable, Comparison, ReadAll, Read1, Perform;
    var ca := Emit(a, next);
    var cb := Emit(b, ca.next);
    var front, i := ca.instrs + cb.instrs, Instr(cb.next, ICmp(p, ca.result, cb.result));
    PairComputes(l, file, a, b, next, st);
    var x, y := EvalTerm(a, st.regs), EvalTerm(b, st.regs);
    var end := ExecBody(l, file, front, st);
    if end.Some? {
      ReadsTo(end.value.regs, [ca.result, cb.result], [x.value, y.value]);
      ICmpPerforms(l, file, p, ca.result, cb.result, x.value, y.value, end.value);
    }
    FinishTerm(l, file, front, i, if x.Some? && y.Some? then [x.value, y.value] else [], EvalTerm(Rel(p, a, b), st.regs), st, next);
  }

  lemma SameRefl(st: State, next: Id)
    ensures Same(st, st, next)
  {
    hide Own;
  }

  lemma {:induction false} TermBelowMore(t: Term, next: Id, next': Id)
    requires TermBelow(t, next) && next <= next'
    ensures TermBelow(t, next')
  {
    match t
    case Leaf(_) =>
    case Op2(_, a, b, _) => TermBelowMore(a, next, next'); TermBelowMore(b, next, next');
    case Rel(_, a, b) => TermBelowMore(a, next, next'); TermBelowMore(b, next, next');
    case If(c, a, b) => TermBelowMore(c, next, next'); TermBelowMore(a, next, next'); TermBelowMore(b, next, next');
  }

  lemma {:induction false} EvalSame(t: Term, st: State, st': State, next: Id)
    requires TermBelow(t, next) && Same(st, st', next)
    ensures EvalTerm(t, st.regs) == EvalTerm(t, st'.regs)
    ensures Readable(t, st.regs) <==> Readable(t, st'.regs)
  {
    hide Same, BinaryValue, Comparison, SelectValue;
    match t
    case Leaf(o) => ReadSame(st, st', o, next);
    case Op2(_, a, b, _) => EvalSame(a, st, st', next); EvalSame(b, st, st', next);
    case Rel(_, a, b) => EvalSame(a, st, st', next); EvalSame(b, st, st', next);
    case If(c, a, b) => EvalSame(c, st, st', next); EvalSame(a, st, st', next); EvalSame(b, st, st', next);
  }

  /** Two terms one after the other: both results are available at the end. */
  lemma {:induction false} PairComputes(l: Layout, file: seq<Byte>, a: Term, b: Term, next: Id, st: State)
    requires TermBelow(a, next) && TermBelow(b, next) && Readable(a, st.regs) && Readable(b, st.regs)
    ensures var ca := Emit(a, next);
            var cb := Emit(b, ca.next);
            var r := ExecBody(l, file, ca.instrs + cb.instrs, st);
            var x, y := EvalTerm(a, st.regs), EvalTerm(b, st.regs);
            if x.None? || y.None? then r.None?
            else r.Some? && Same(st, r.value, next) && Read1(r.value.regs, ca.result) == x && Read1(r.value.regs, cb.result) == y
                 && OperandBelow(ca.result, cb.next) && OperandBelow(cb.result, cb.next)
    decreases TermSize(a) + TermSize(b), 1
  {
    hide Same, EvalTerm, Emit, Readable, TermBelow;
    var ca := Emit(a, next);
    var cb := Emit(b, ca.next);
    EmitComputes(l, file, a, next, st);
    ExecAppend(l, file, ca.instrs, cb.instrs, st);
    var mid := ExecBody(l, file, ca.instrs, st);
    if mid.Some? {
      TermBelowMore(b, next, ca.next);
      EvalSame(b, st, mid.value, next);
      EmitComputes(l, file, b, ca.next, mid.value);
      var end := ExecBody(l, file, cb.instrs, mid.value);
      if end.Some? {
        ReadSame(mid.value, end.value, ca.result, ca.next);
        SameTrans(st, mid.value, end.value, next, ca.next);
      }
    }
  }

  lemma {:induction false} TripleComputes(l: Layout, file: seq<Byte>, c: Term, a: Term, b: Term, next: Id, st: State)
    requires TermBelow(c, next) && TermBelow(a, next) && TermBelow(b, next)
    requires Readable(c, st.regs) && Readable(a, st.regs) && Readable(b, st.regs)
    ensures var cc := Emit(c, next);
            var ca := Emit(a, cc.next);
            var cb := Emit(b, ca.next);
            var r := ExecBody(l, file, cc.instrs + ca.instrs + cb.instrs, st);
            var z, x, y := EvalTerm(c, st.regs), EvalTerm(a, st.regs), EvalTerm(b, st.regs);
            if z.None? || x.None? || y.None? then r.None?
            else r.Some? && Same(st, r.value, next) && Read1(r.value.regs, cc.result) == z
                 && Read1(r.value.regs, ca.result) == x && Read1(r.value.regs, cb.result) == y
    decreases TermSize(c) + TermSize(a) + TermSize(b), 2
  {
    hide Same, EvalTerm, Emit, Readable, TermBelow;
    var cc := Emit(c, next);
    var ca := Emit(a, cc.next);
    var cb := Emit(b, ca.next);
    var front := cc.instrs + ca.instrs;
    PairComputes(l, file, c, a, next, st);
    ExecAppend(l, file, front, cb.instrs, st);
    var mid := ExecBody(l, file, front, st);
    if mid.Some? {
      TermBelowMore(b, next, ca.next);
      EvalSame(b, st, mid.value, next);
      EmitComputes(l, file, b, ca.next, mid.value);
      var end := ExecBody(l, file, cb.instrs, mid.value);
      if end.Some? {
        ReadSame(mid.value, end.value, cc.result, ca.next);
        ReadSame(mid.value, end.value, ca.result, ca.next);
        SameTrans(st, mid.value, end.value, next, ca.next);
      }
    }
  }

  lemma {:induction false} IfComputes(l: Layout, file: seq<Byte>, c: Term, a: Term, b: Term, next: Id, st: State)
    requires TermBelow(c, next) && TermBelow(a, next) && TermBelow(b, next)
    requires Readable(c, st.regs) && Readable(a, st.regs) && Readable(b, st.regs)
    ensures var t := If(c, a, b);
            Computes(ExecBody(l, file, Emit(t, next).instrs, st), st, EvalTerm(t, st.regs), Emit(t, next).result, next, Emit(t, next).next)
    decreases TermSize(c) + TermSize(a) + TermSize(b), 3
  {
    hide Same, Computes, ExecBody, TermBelow, Readable, SelectValue, ReadAll, Read1, Perform;
    var cc := Emit(c, next);
    var ca := Emit(a, cc.next);
    var cb := Emit(b, ca.next);
    var front, i := cc.instrs + ca.instrs + cb.instrs, Instr(cb.next, Select(cc.result, ca.result, cb.result));
    TripleComputes(l, file, c, a, b, next, st);
    var z, x, y := EvalTerm(c, st.regs), EvalTerm(a, st.regs), EvalTerm(b, st.regs);
    var end := ExecBody(l, file, front, st);
    if end.Some? {
      ReadsTo(end.value.regs, [cc.result, ca.result, cb.result], [z.value, x.value, y.value]);
      SelectPerforms(l, file, cc.result, ca.result, cb.result, z.value, x.value, y.value, end.value);
    }
    FinishTerm(l, file, front, i, if z.Some? && x.Some? && y.Some? then [z.value, x.value, y.value] else [],
               EvalTerm(If(c, a, b), st.regs), st, next);
  }

  lemma BinOpPerforms(l: Layout, file: seq<Byte>, op: Opcode, a: Operand, b: Operand, w: nat, x: Val, y: Val, st: State)
    ensures Operands(BinOp(op, a, b, w)) == [a, b]
    ensures Perform(l, file, BinOp(op, a, b, w), [x, y], st) == Pure(if x.width == w then BinaryValue(op, x, y) else None, st)
  {
    hide BinaryValue;
  }

  lemma ICmpPerforms(l: Layout, file: seq<Byte>, p: Predicate, a: Operand, b: Operand, x: Val, y: Val, st: State)
    ensures Operands(ICmp(p, a, b)) == [a, b]
    ensures Perform(l, file, ICmp(p, a, b), [x, y], st) == Pure(Comparison(p, x, y), st)
  {
    hide Comparison;
  }

  lemma SelectPerforms(l: Layout, file: seq<Byte>, c: Operand, a: Operand, b: Operand, z: Val, x: Val, y: Val, st: State)
    ensures Operands(Select(c, a, b)) == [c, a, b]
    ensures Perform(l, file, Select(c, a, b), [z, x, y], st) == Pure(SelectValue(z, x, y), st)
  {
  }
}
