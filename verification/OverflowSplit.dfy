/** Splitting a block behind a checked operation, and the proof that the split
    function behaves like the original one. */
module OverflowSplit {
  import opened Bits
  import opened Exprs
  import opened IR
  import opened OverflowChecks
  import opened OverflowPass

  /** 32-bit additions, subtractions, multiplications and divisions. */
  predicate IsChecked(act: Action)
  {
    act.BinOp? && act.width == 32 && (act.op.IAdd? || act.op.ISub? || act.op.IMul? || act.op.IUDiv? || act.op.ISDiv?)
  }

  predicate CanOverflow(op: Opcode, x: nat, y: nat) { Fits(x, 32) && Fits(y, 32) && Overflows(op, x, y, 32) }

  /** The checked instructions are the 32-bit operations that can overflow or divide by zero. */
  lemma CheckedExactly(op: Opcode, a: Operand, b: Operand, w: nat)
    ensures IsChecked(BinOp(op, a, b, w)) <==> w == 32 && exists x: nat, y: nat :: CanOverflow(op, x, y)
  {
    hide ToSigned, Pow2;
    var max := Pow2(32) - 1;
    Pow2Monotone(2, 32);
    FourIsPow2();
    if op.IAdd? { assert CanOverflow(op, max, max); }
    if op.ISub? { assert CanOverflow(op, 0, 1); }
    if op.IMul? { assert CanOverflow(op, max, max); }
    if op.IUDiv? || op.ISDiv? { assert CanOverflow(op, 0, 0); }
  }

  lemma FourIsPow2()
    ensures Pow2(2) == 4
  {
    assert Pow2(1) == 2 * Pow2(0);
  }

  function OverflowTerm(act: Action): (t: Term)
    requires IsChecked(act)
  {
    match act.op
    case IAdd => AddCondition(act.a, act.b, 32)
    case ISub => SubCondition(act.a, act.b, 32)
    case IMul => MulCondition(act.a, act.b, 32)
    case _ => DivByZeroCondition(act.b, 32)
  }

  /** The constants of the range checks, whatever the tuning parameters make of them. */
  datatype Bounds = Bounds(over: int, under: int, max: int, min: int, signedMax: int, signedMin: int)

  function BoundCheck(p: Predicate, id: Id, n: int): (t: Term) { Rel(p, Leaf(Reg(id)), Number1(n, 32)) }

  /** The conditions of the chain, in the order in which it is run through. */
  function Checks(i: Instr, bounds: Bounds): (ts: seq<Term>)
    requires IsChecked(i.act)
    ensures |ts| == 7
  {
    [OverflowTerm(i.act), BoundCheck(SGT, i.id, bounds.over), BoundCheck(UGT, i.id, bounds.over), BoundCheck(SLT, i.id, bounds.under),
     BoundCheck(UGT, i.id, bounds.max), BoundCheck(SGT, i.id, bounds.signedMax), BoundCheck(SLT, i.id, bounds.signedMin)]
  }

  /** Blocks `here`, `here + 1`, ... for the checks; the last one goes to `cont`. */
  function Chain(ts: seq<Term>, here: Label, next: Id, cont: Label): (bs: map<Label, Block>)
    ensures forall l :: l in bs <==> here <= l < here + |ts|
  {
    if ts == [] then map[]
    else
      var c, target := Emit(ts[0], next), if |ts| == 1 then cont else here + 1;
      Chain(ts[1..], here + 1, c.next, cont)[here := Block([], c.instrs, CondBr(c.result, target, target))]
  }

  function ChainNext(ts: seq<Term>, next: Id): (n: Id)
    ensures n >= next
  {
    if ts == [] then next else ChainNext(ts[1..], Emit(ts[0], next).next)
  }

  function Renamed(l: Label, from: Label, to: Label): (r: Label) { if l == from then to else l }

  /** A PHI node whose incoming edge from `from` now comes from `to`. */
  function RenamePhi(phi: Phi, from: Label, to: Label): (r: Phi)
  {
    if from in phi.incoming then Phi(phi.id, (phi.incoming - {from})[to := phi.incoming[from]]) else phi
  }

  function RenamePhis(phis: seq<Phi>, from: Label, to: Label): (r: seq<Phi>)
    ensures |r| == |phis| && forall k :: 0 <= k < |phis| ==> r[k] == RenamePhi(phis[k], from, to)
  {
    seq(|phis|, k requires 0 <= k < |phis| => RenamePhi(phis[k], from, to))
  }

  function RenameBlock(b: Block, from: Label, to: Label): (r: Block) { b.(phis := RenamePhis(b.phis, from, to)) }

  /** Labels of the new blocks: the continuation, seven checks, and the check for the
      smallest value, which nothing branches to. */
  const NEW_BLOCKS: nat := 9

  /** Splits block `at` behind its instruction `i`; `base` and `next` are fresh. */
  function Split(f: Function, at: Label, i: nat, base: Label, next: Id, bounds: Bounds): (r: Function)
    requires at in f.blocks && i < |f.blocks[at].body| && IsChecked(f.blocks[at].body[i].act)
  {
    var b := f.blocks[at];
    var checks := Checks(b.body[i], bounds);
    var dead := Emit(BoundCheck(ULT, b.body[i].id, bounds.min), ChainNext(checks, next));
    var kept := map l | l in f.blocks :: RenameBlock(f.blocks[l], at, base);
    var head := Block(RenamePhis(b.phis, at, base), b.body[..i + 1], Br(base + 1));
    var cont := Block([], b.body[i + 1..], b.term);
    var deadBlock := Block([], dead.instrs, CondBr(dead.result, base + 6, base + 6));
    Function(f.layout, f.entry, NewOrder(f.order, at, base),
             kept[at := head][base := cont] + Chain(checks, base + 1, next, base) + map[base + 8 := deadBlock])
  }

  /** The continuation follows its block; the checks go to the end of the function. */
  function NewOrder(order: seq<Label>, at: Label, base: Label): (r: seq<Label>)
  {
    WithCont(order, at, base) + [base + 1, base + 2, base + 3, base + 4, base + 5, base + 8, base + 6, base + 7]
  }

  function WithCont(order: seq<Label>, at: Label, base: Label): (r: seq<Label>)
  {
    if order == [] then []
    else if order[0] == at then [at, base] + order[1..]
    else [order[0]] + WithCont(order[1..], at, base)
  }

  // --------------------------------------------------------------- freshness

  /** Ids are below `next`, and no instruction reads the value it defines. */
  predicate InstrBelow(i: Instr, next: Id)
  {
    i.id < next && OperandsBelow(Operands(i.act), next) && forall k :: 0 <= k < |Operands(i.act)| ==> Operands(i.act)[k] != Reg(i.id)
  }

  predicate BodyBelow(body: seq<Instr>, next: Id)
  {
    forall k :: 0 <= k < |body| ==> InstrBelow(body[k], next)
  }

  predicate PhiBelow(phi: Phi, base: Label, next: Id)
  {
    phi.id < next && forall l :: l in phi.incoming ==> l < base && OperandBelow(phi.incoming[l], next)
  }

  predicate PhisBelow(phis: seq<Phi>, base: Label, next: Id)
  {
    forall k :: 0 <= k < |phis| ==> PhiBelow(phis[k], base, next)
  }

  predicate TermLabelsBelow(t: Terminator, base: Label, next: Id)
  {
    match t
    case Br(l) => l < base
    case CondBr(c, yes, no) => OperandBelow(c, next) && yes < base && no < base
    case Switch(c, cases, default) =>
      OperandBelow(c, next) && default < base && forall k :: 0 <= k < |cases| ==> cases[k].1 < base
    case Ret => true
  }

  predicate BlockBelow(b: Block, base: Label, next: Id)
  {
    PhisBelow(b.phis, base, next) && BodyBelow(b.body, next) && TermLabelsBelow(b.term, base, next)
  }

  predicate FunctionBelow(f: Function, base: Label, next: Id)
  {
    f.entry < base && forall l :: l in f.blocks ==> l < base && BlockBelow(f.blocks[l], base, next)
  }

  // ------------------------------------------------- the same code, the same effect

  lemma ReadAllSame(st: State, st': State, os: seq<Operand>, next: Id)
    requires Same(st, st', next) && OperandsBelow(os, next)
    ensures ReadAll(st.regs, os) == ReadAll(st'.regs, os)
  {
    hide Same;
    if os != [] {
      ReadSame(st, st', os[0], next);
      ReadAllSame(st, st', os[1..], next);
    }
  }

  lemma PerformSame(l: Layout, file: seq<Byte>, act: Action, args: seq<Val>, st: State, st': State)
    requires |args| == |Operands(act)| && st.mem == st'.mem && st.pos == st'.pos
    ensures Perform(l, file, act, args, st) == Perform(l, file, act, args, st')
  {
    hide BinaryValue, Comparison, Convert, Operands;
  }

  predicate SameResults(r: Option<State>, r': Option<State>, next: Id)
  {
    (r.None? <==> r'.None?) && (r.Some? ==> Same(r.value, r'.value, next))
  }

  lemma CommitSame(st: State, st': State, i: Instr, args: seq<Val>, eff: Effect, next: Id)
    requires Same(st, st', next)
    ensures Same(Commit(st, i, args, eff), Commit(st', i, args, eff), next)
  {
    hide Own;
    OwnSnoc(st.trace, Event(i, args), next);
    OwnSnoc(st'.trace, Event(i, args), next);
  }

  lemma ExecSame(l: Layout, file: seq<Byte>, i: Instr, st: State, st': State, next: Id)
    requires InstrBelow(i, next) && Same(st, st', next)
    ensures SameResults(Exec(l, file, i, st), Exec(l, file, i, st'), next)
  {
    hide Perform, Operands, Own, ReadAll, Commit, SameRegs;
    ReadAllSame(st, st', Operands(i.act), next);
    var args := ReadAll(st.regs, Operands(i.act));
    if args.Some? {
      PerformSame(l, file, i.act, args.value, st, st');
      var eff := Perform(l, file, i.act, args.value, st);
      if eff.Some? {
        CommitSame(st, st', i, args.value, eff.value, next);
      }
    }
  }

  lemma {:induction false} BodySame(l: Layout, file: seq<Byte>, body: seq<Instr>, st: State, st': State, next: Id)
    requires BodyBelow(body, next) && Same(st, st', next)
    ensures SameResults(ExecBody(l, file, body, st), ExecBody(l, file, body, st'), next)
  {
    hide Exec, Same, InstrBelow;
    if body != [] {
      ExecSame(l, file, body[0], st, st', next);
      var r, r' := Exec(l, file, body[0], st), Exec(l, file, body[0], st');
      if r.Some? {
        BodySame(l, file, body[1..], r.value, r'.value, next);
      }
    }
  }

  lemma RenamedIncoming(phi: Phi, pred: Label, at: Label, base: Label, next: Id)
    requires PhiBelow(phi, base, next) && pred < base
    ensures pred in phi.incoming <==> Renamed(pred, at, base) in RenamePhi(phi, at, base).incoming
    ensures pred in phi.incoming ==> RenamePhi(phi, at, base).incoming[Renamed(pred, at, base)] == phi.incoming[pred]
  {
  }

  /** Renamed PHI nodes, entered over the renamed edge, pick the same values. */
  lemma {:induction false} PhisSame(phis: seq<Phi>, pred: Label, at: Label, base: Label, next: Id, st: State, st': State)
    requires PhisBelow(phis, base, next) && pred < base && Same(st, st', next)
    ensures PhiValues(RenamePhis(phis, at, base), Renamed(pred, at, base), st'.regs) == PhiValues(phis, pred, st.regs)
    ensures PhiValues(phis, pred, st.regs).Some? ==> forall id :: id in PhiValues(phis, pred, st.regs).value ==> id < next
  {
    hide Same, RenamePhi, Renamed, Read1;
    if phis != [] {
      var phis' := RenamePhis(phis, at, base);
      assert phis'[1..] == RenamePhis(phis[1..], at, base);
      PhisSame(phis[1..], pred, at, base, next, st, st');
      RenamedIncoming(phis[0], pred, at, base, next);
      RenameKeepsId(phis[0], at, base);
      if pred in phis[0].incoming {
        ReadSame(st, st', phis[0].incoming[pred], next);
      }
    }
  }

  lemma RenameKeepsId(phi: Phi, at: Label, base: Label)
    ensures RenamePhi(phi, at, base).id == phi.id
  {
  }

  lemma EnterSame(b: Block, b': Block, pred: Label, at: Label, base: Label, next: Id, st: State, st': State)
    requires b'.phis == RenamePhis(b.phis, at, base) && PhisBelow(b.phis, base, next) && pred < base && Same(st, st', next)
    ensures SameResults(EnterBlock(b, pred, st), EnterBlock(b', Renamed(pred, at, base), st'), next)
  {
    hide PhiValues, RenamePhis, Renamed, Own;
    PhisSame(b.phis, pred, at, base, next, st, st');
  }

  lemma {:induction false} TargetBelow(cases: seq<(Val, Label)>, v: Val, default: Label, base: Label)
    requires default < base && forall k :: 0 <= k < |cases| ==> cases[k].1 < base
    ensures CaseTarget(cases, v, default) < base
  {
    if cases != [] && cases[0].0 != v {
      TargetBelow(cases[1..], v, default, base);
    }
  }

  // ----------------------------------------------------------------- simulation

  /** Matching outcomes: the same block about to be entered over the corresponding edge. */
  predicate Match(o: Outcome, o': Outcome, at: Label, base: Label, next: Id)
  {
    match o
    case At(l, p, st) => o'.At? && o'.block == l && l < base && p < base && o'.pred == Renamed(p, at, base) && Same(st, o'.st, next)
    case Done(st) => o'.Done? && Same(st, o'.st, next)
    case Stuck => o'.Stuck?
  }

  lemma LeaveSame(t: Terminator, here: Label, at: Label, base: Label, next: Id, st: State, st': State)
    requires TermLabelsBelow(t, base, next) && here < base && Same(st, st', next)
    ensures Match(Leave(t, here, st), Leave(t, Renamed(here, at, base), st'), at, base, next)
  {
    hide Same, Read1, CaseTarget;
    match t
    case Br(_) =>
    case Ret =>
    case CondBr(c, _, _) => ReadSame(st, st', c, next);
    case Switch(c, cases, default) =>
      ReadSame(st, st', c, next);
      if Read1(st.regs, c).Some? {
        TargetBelow(cases, Read1(st.regs, c).value, default, base);
      }
  }

  /** A block that was not split. */
  lemma StepElsewhere(f: Function, f': Function, at: Label, base: Label, next: Id, file: seq<Byte>, o: Outcome, o': Outcome)
    requires FunctionBelow(f, base, next) && Match(o, o', at, base, next) && f'.layout == f.layout
    requires o.At? ==> o.block != at && (o.block in f.blocks <==> o.block in f'.blocks)
    requires o.At? && o.block in f.blocks ==> f'.blocks[o.block] == RenameBlock(f.blocks[o.block], at, base)
    ensures Match(RunBlock(f, file, o), RunBlock(f', file, o'), at, base, next)
  {
    hide EnterBlock, ExecBody, Leave, Same, PhisBelow, BodyBelow, TermLabelsBelow, RenamePhis;
    if o.At? && o.block in f.blocks {
      var b, b' := f.blocks[o.block], f'.blocks[o.block];
      EnterSame(b, b', o.pred, at, base, next, o.st, o'.st);
      var e, e' := EnterBlock(b, o.pred, o.st), EnterBlock(b', o'.pred, o'.st);
      if e.Some? {
        BodySame(f.layout, file, b.body, e.value, e'.value, next);
        var r, r' := ExecBody(f.layout, file, b.body, e.value), ExecBody(f.layout, file, b.body, e'.value);
        if r.Some? {
          LeaveSame(b.term, o.block, at, base, next, r.value, r'.value);
        }
      }
    }
  }

  // ------------------------------------------------------------- the check chain

  predicate HasBlocks(f: Function, bs: map<Label, Block>)
  {
    forall l :: l in bs ==> l in f.blocks && f.blocks[l] == bs[l]
  }

  lemma {:induction false} RunPlus(f: Function, file: seq<Byte>, o: Outcome, a: nat, b: nat)
    ensures Run(f, file, o, a + b) == Run(f, file, Run(f, file, o, a), b)
  {
    hide RunBlock;
    if b > 0 {
      RunPlus(f, file, o, a, b - 1);
    }
  }

  lemma EmptyEntry(instrs: seq<Instr>, t: Terminator, pred: Label, st: State)
    ensures EnterBlock(Block([], instrs, t), pred, st) == Some(st)
  {
    assert PhiValues([], pred, st.regs) == Some(map[]);
    assert st.regs + map[] == st.regs;
  }

  predicate BoolTerm(t: Term, st: State, next: Id)
  {
    TermBelow(t, next) && Readable(t, st.regs) && EvalTerm(t, st.regs).Some? && EvalTerm(t, st.regs).value.width == 1
  }

  /** A check block goes to its one successor whatever its condition says. */
  lemma CheckBlockRuns(f: Function, file: seq<Byte>, t: Term, here: Label, next: Id, target: Label, pred: Label, st: State)
    requires here in f.blocks
    requires f.blocks[here] == Block([], Emit(t, next).instrs, CondBr(Emit(t, next).result, target, target))
    requires TermBelow(t, next) && Readable(t, st.regs)
    ensures EvalTerm(t, st.regs).None? ==> RunBlock(f, file, At(here, pred, st)) == Stuck
    ensures BoolTerm(t, st, next) ==>
              var r := RunBlock(f, file, At(here, pred, st));
              r.At? && r.block == target && r.pred == here && Same(st, r.st, next)
  {
    hide EvalTerm, Emit, ExecBody, EnterBlock, Same, Readable, TermBelow;
    var c := Emit(t, next);
    EmptyEntry(c.instrs, CondBr(c.result, target, target), pred, st);
    EmitComputes(f.layout, file, t, next, st);
  }

  lemma BoolTermSame(t: Term, st: State, st': State, next: Id, next': Id)
    requires BoolTerm(t, st, next) && Same(st, st', next) && next <= next'
    ensures BoolTerm(t, st', next')
  {
    hide EvalTerm, Same, Readable, TermBelow;
    EvalSame(t, st, st', next);
    TermBelowMore(t, next, next');
  }

  predicate BoolTerms(ts: seq<Term>, st: State, next: Id)
  {
    forall k :: 0 <= k < |ts| ==> BoolTerm(ts[k], st, next)
  }

  /** The chain is run through once, in order, and leads to the continuation. */
  lemma {:induction false} ChainRuns(f: Function, file: seq<Byte>, ts: seq<Term>, here: Label, next: Id, cont: Label, pred: Label, st: State)
    requires |ts| >= 1 && HasBlocks(f, Chain(ts, here, next, cont)) && BoolTerms(ts, st, next)
    ensures var r := Run(f, file, At(here, pred, st), |ts|);
            r.At? && r.block == cont && Same(st, r.st, next)
    ensures forall k :: 0 <= k < |ts| ==> Run(f, file, At(here, pred, st), k).At? && Run(f, file, At(here, pred, st), k).block == here + k
  {
    hide BoolTerm, Same, Emit, RunBlock;
    var c, target := Emit(ts[0], next), if |ts| == 1 then cont else here + 1;
    var o := At(here, pred, st);
    assert f.blocks[here] == Block([], c.instrs, CondBr(c.result, target, target));
    CheckRunsBool(f, file, ts[0], here, next, target, pred, st);
    var o1 := RunBlock(f, file, o);
    assert Run(f, file, o, 0) == o;
    assert Run(f, file, o, 1) == o1;
    if |ts| > 1 {
      ChainTail(f, ts, here, next, cont);
      forall k | 0 <= k < |ts| - 1
        ensures BoolTerm(ts[1..][k], o1.st, c.next)
      {
        BoolTermSame(ts[k + 1], st, o1.st, next, c.next);
      }
      ChainRuns(f, file, ts[1..], here + 1, c.next, cont, here, o1.st);
      RunPlus(f, file, o, 1, |ts| - 1);
      SameTrans(st, o1.st, Run(f, file, o, |ts|).st, next, c.next);
      forall k | 0 <= k < |ts|
        ensures Run(f, file, o, k).At? && Run(f, file, o, k).block == here + k
      {
        if k > 0 { RunPlus(f, file, o, 1, k - 1); }
      }
    }
  }

  lemma CheckRunsBool(f: Function, file: seq<Byte>, t: Term, here: Label, next: Id, target: Label, pred: Label, st: State)
    requires here in f.blocks
    requires f.blocks[here] == Block([], Emit(t, next).instrs, CondBr(Emit(t, next).result, target, target))
    requires BoolTerm(t, st, next)
    ensures var r := RunBlock(f, file, At(here, pred, st));
            r.At? && r.block == target && r.pred == here && Same(st, r.st, next)
  {
    hide EvalTerm, Emit, RunBlock, Same, Readable, TermBelow;
    CheckBlockRuns(f, file, t, here, next, target, pred, st);
  }

  lemma ChainTail(f: Function, ts: seq<Term>, here: Label, next: Id, cont: Label)
    requires |ts| > 1 && HasBlocks(f, Chain(ts, here, next, cont))
    ensures HasBlocks(f, Chain(ts[1..], here + 1, Emit(ts[0], next).next, cont))
  {
    hide Emit;
    var all, tail := Chain(ts, here, next, cont), Chain(ts[1..], here + 1, Emit(ts[0], next).next, cont);
    forall l | l in tail
      ensures l in f.blocks && f.blocks[l] == tail[l]
    {
      assert l in all && all[l] == tail[l];
    }
  }
}
