/** What each check behind an operation decides: the overflow check and the six range checks
    of the result. */
module RangeChecks {
  import opened Bits
  import opened Exprs
  import opened IR
  import opened OverflowChecks
  import opened OverflowPass
  import opened OverflowSplit
  import opened OverflowRuns

  /** The check block that is about to run branches on the value of a term. */
  predicate Decides(f: Function, file: seq<Byte>, o: Outcome, here: Label, v: Option<Val>)
  {
    o.At? && o.block == here && here in f.blocks && f.blocks[here].term.CondBr? &&
    var r := ExecBody(f.layout, file, f.blocks[here].body, o.st);
    r.Some? && Read1(r.value.regs, f.blocks[here].term.cond) == v
  }

  /** Check `k` of a chain branches on the value that its term had at the start. */
  lemma {:induction false} ChainDecides(f: Function, file: seq<Byte>, ts: seq<Term>, here: Label, next: Id, cont: Label, pred: Label, st: State, k: nat)
    requires k < |ts| && HasBlocks(f, Chain(ts, here, next, cont)) && BoolTerms(ts, st, next)
    ensures Decides(f, file, Run(f, file, At(here, pred, st), k), here + k, EvalTerm(ts[k], st.regs))
  {
    hide BoolTerm, Same, Emit, RunBlock, EvalTerm, ExecBody;
    var c, target, o := Emit(ts[0], next), if |ts| == 1 then cont else here + 1, At(here, pred, st);
    assert f.blocks[here] == Block([], c.instrs, CondBr(c.result, target, target));
    assert Run(f, file, o, 0) == o;
    if k == 0 {
      HeadDecides(f, file, ts[0], here, next, target, pred, st);
    } else {
      CheckRunsBool(f, file, ts[0], here, next, target, pred, st);
      var o1 := RunBlock(f, file, o);
      assert Run(f, file, o, 1) == o1;
      ChainTail(f, ts, here, next, cont);
      forall j | 0 <= j < |ts| - 1
        ensures BoolTerm(ts[1..][j], o1.st, c.next)
      {
        BoolTermSame(ts[j + 1], st, o1.st, next, c.next);
      }
      ChainDecides(f, file, ts[1..], here + 1, c.next, cont, here, o1.st, k - 1);
      RunPlus(f, file, o, 1, k - 1);
      BoolTermValue(ts[k], st, o1.st, next);
    }
  }

  lemma HeadDecides(f: Function, file: seq<Byte>, t: Term, here: Label, next: Id, target: Label, pred: Label, st: State)
    requires here in f.blocks && BoolTerm(t, st, next)
    requires f.blocks[here] == Block([], Emit(t, next).instrs, CondBr(Emit(t, next).result, target, target))
    ensures Decides(f, file, At(here, pred, st), here, EvalTerm(t, st.regs))
  {
    hide EvalTerm, Emit, ExecBody, Same, Readable, TermBelow;
    EmitComputes(f.layout, file, t, next, st);
  }

  lemma BoolTermValue(t: Term, st: State, st': State, next: Id)
    requires BoolTerm(t, st, next) && Same(st, st', next)
    ensures EvalTerm(t, st'.regs) == EvalTerm(t, st.regs)
  {
    hide EvalTerm, Same, Readable, TermBelow;
    EvalSame(t, st, st', next);
  }

  // ------------------------------------------------------------ what is decided

  function AsSigned(n: int): (z: int) { ToSigned(Wrap(n, 32), 32) }

  function AsUnsigned(n: int): (z: nat) { Wrap(n, 32) }

  /** Check `k` for operands `x` and `y` and the result `z`. */
  predicate Holds(op: Opcode, bounds: Bounds, k: nat, x: nat, y: nat, z: nat)
    requires k < 7 && Fits(x, 32) && Fits(y, 32) && Fits(z, 32)
  {
    var s := ToSigned(z, 32);
    if k == 0 then Overflows(op, x, y, 32)
    else if k == 1 then s > AsSigned(bounds.over)
    else if k == 2 then z > AsUnsigned(bounds.over)
    else if k == 3 then s < AsSigned(bounds.under)
    else if k == 4 then z > AsUnsigned(bounds.max)
    else if k == 5 then s > AsSigned(bounds.signedMax)
    else s < AsSigned(bounds.signedMin)
  }

  lemma BoundValue(p: Predicate, id: Id, n: int, regs: map<Id, Val>)
    requires id in regs && regs[id].width == 32
    ensures EvalTerm(BoundCheck(p, id, n), regs) == Some(BoolVal(Satisfies(p, regs[id].bits, Wrap(n, 32), 32)))
  {
    hide Satisfies, Wrap, Pow2;
    ConstValue(n, 32, regs);
    RelValue(p, Leaf(Reg(id)), regs[id], Number1(n, 32), Value(Wrap(n, 32), 32), regs);
  }

  lemma CheckValue(i: Instr, bounds: Bounds, x: Val, y: Val, k: nat, st: State)
    requires Executed(i, x, y, st) && !TrapEvent(Event(i, [x, y])) && k < 7
    ensures EvalTerm(Checks(i, bounds)[k], st.regs) == Some(BoolVal(Holds(i.act.op, bounds, k, x.bits, y.bits, st.regs[i.id].bits)))
  {
    hide EvalTerm, OverflowTerm, BoundCheck, Overflows, TrapEvent, Wrap, Pow2, ToSigned;
    OverflowTermValue(i, x, y, st);
    BoundValue(SGT, i.id, bounds.over, st.regs);
    BoundValue(UGT, i.id, bounds.over, st.regs);
    BoundValue(SLT, i.id, bounds.under, st.regs);
    BoundValue(UGT, i.id, bounds.max, st.regs);
    BoundValue(SGT, i.id, bounds.signedMax, st.regs);
    BoundValue(SLT, i.id, bounds.signedMin, st.regs);
  }

  /** Behind a checked operation the seven checks run in order, and the branch of each one
      is whether its condition holds of the operands and the result. */
  lemma EveryCheckDecides(f': Function, file: seq<Byte>, ins: Instr, bounds: Bounds, base: Label, next: Id, pred: Label, st: State, x: Val, y: Val, k: nat)
    requires Executed(ins, x, y, st) && InstrBelow(ins, next) && !TrapEvent(Event(ins, [x, y])) && k < 7
    requires HasBlocks(f', Chain(Checks(ins, bounds), base + 1, next, base))
    ensures Decides(f', file, Run(f', file, At(base + 1, pred, st), k), base + 1 + k,
                    Some(BoolVal(Holds(ins.act.op, bounds, k, x.bits, y.bits, st.regs[ins.id].bits))))
  {
    hide Executed, InstrBelow, TrapEvent, Checks, EvalTerm, Chain, Run, HasBlocks, IsChecked, Holds, Decides, BoolTerms;
    ExecutedChecked(ins, x, y, st);
    ChecksHold(ins, bounds, x, y, next, st);
    ChainDecides(f', file, Checks(ins, bounds), base + 1, next, base, pred, st, k);
    CheckValue(ins, bounds, x, y, k, st);
  }

  /** The constants that the two tuning parameters make. */
  function BoundsFor(threshold: int, tolerance: int): (b: Bounds)
  {
    Bounds(threshold, -threshold, 4294967294 - tolerance, tolerance, 2147483646 - tolerance, tolerance - 2147483647)
  }

  /** With parameters in range the checks compare the plain integers. */
  lemma RangeChecksMean(op: Opcode, threshold: nat, tolerance: nat, x: nat, y: nat, z: nat)
    requires Fits(x, 32) && Fits(y, 32) && Fits(z, 32) && threshold <= 2147483647 && tolerance <= 2147483646
    ensures var b, s := BoundsFor(threshold, tolerance), ToSigned(z, 32);
            (Holds(op, b, 1, x, y, z) <==> s > threshold) && (Holds(op, b, 2, x, y, z) <==> z > threshold) &&
            (Holds(op, b, 3, x, y, z) <==> s < 0 - threshold) && (Holds(op, b, 4, x, y, z) <==> z > 4294967294 - tolerance) &&
            (Holds(op, b, 5, x, y, z) <==> s > 2147483646 - tolerance) && (Holds(op, b, 6, x, y, z) <==> s < tolerance - 2147483647)
  {
    hide ToSigned, Wrap, Overflows, Pow2;
    Pow2Of32();
    WrapSigned(threshold, 32);
    WrapSigned(0 - threshold, 32);
    WrapSigned(2147483646 - tolerance, 32);
    WrapSigned(tolerance - 2147483647, 32);
    WrapFits(threshold, 32);
    WrapFits(4294967294 - tolerance, 32);
  }

  lemma Pow2Of32()
    ensures Pow2(32) == 4294967296 && Pow2(31) == 2147483648
  {
    Pow2Of8();
    Pow2Add(8, 8);
    Pow2Add(16, 16);
    Pow2Step(32);
  }

  lemma WrapFits(n: nat, w: nat)
    requires Fits(n, w)
    ensures Wrap(n, w) == n
  {
  }
}
