/** Whole runs of a function whose block was split behind a checked operation. */
module OverflowRuns {
  import opened Bits
  import opened Exprs
  import opened IR
  import opened OverflowChecks
  import opened OverflowPass
  import opened OverflowSplit

  // --------------------------------------------- the conditions after the operation

  /** A checked multiplication of -1 (on the left) by the smallest integer (on the right):
      its check divides the product, the smallest integer again, by -1. */
  predicate TrapEvent(e: Event)
  {
    e.instr.act.BinOp? && e.instr.act.op.IMul? && e.instr.act.width == 32 && |e.args| == 2 &&
    e.args[0].width == 32 && e.args[1].width == 32 && MulTrap(e.args[0].bits, e.args[1].bits, 32)
  }

  /** What has happened by the time the operation has been executed. */
  predicate Executed(i: Instr, x: Val, y: Val, st: State)
  {
    IsChecked(i.act) && x.width == 32 && y.width == 32 && Read1(st.regs, i.act.a) == Some(x) && Read1(st.regs, i.act.b) == Some(y) &&
    i.id in st.regs && st.regs[i.id].width == 32 && st.trace != [] && st.trace[|st.trace| - 1] == Event(i, [x, y])
  }

  lemma ExecChecked(l: Layout, file: seq<Byte>, i: Instr, next: Id, st: State) returns (x: Val, y: Val)
    requires IsChecked(i.act) && InstrBelow(i, next) && Exec(l, file, i, st).Some?
    ensures Executed(i, x, y, Exec(l, file, i, st).value)
  {
    hide BinaryValue;
    var os := Operands(i.act);
    assert os == [i.act.a, i.act.b];
    var args := ReadAll(st.regs, os).value;
    x, y := args[0], args[1];
    assert args == [x, y];
    assert os[0] != Reg(i.id) && os[1] != Reg(i.id);
    BinaryWidth(i.act.op, x, y);
  }

  lemma BinaryWidth(op: Opcode, x: Val, y: Val)
    ensures BinaryValue(op, x, y).Some? ==> x.width == y.width == BinaryValue(op, x, y).value.width
  {
    hide Calculate, Defined;
  }

  /** The first condition of the chain tells whether the operation overflowed. */
  lemma OverflowTermValue(i: Instr, x: Val, y: Val, st: State)
    requires Executed(i, x, y, st)
    ensures EvalTerm(OverflowTerm(i.act), st.regs)
         == if TrapEvent(Event(i, [x, y])) then None else Some(BoolVal(Overflows(i.act.op, x.bits, y.bits, 32)))
  {
    hide EvalTerm, BoolVal, Overflows, MulTrap, AddCondition, SubCondition, MulCondition, Read1;
    match i.act.op
    case IAdd => AddConditionExact(i.act.a, x, i.act.b, y, st.regs);
    case ISub => SubConditionExact(i.act.a, x, i.act.b, y, st.regs);
    case IMul => MulConditionExact(i.act.a, x, i.act.b, y, st.regs);
    case _ => DivByZeroValue(i.act.op, x, i.act.b, y, st.regs);
  }

  lemma DivByZeroValue(op: Opcode, x: Val, b: Operand, y: Val, regs: map<Id, Val>)
    requires Read1(regs, b) == Some(y) && x.width == y.width == 32 && (op.IUDiv? || op.ISDiv?)
    ensures EvalTerm(DivByZeroCondition(b, 32), regs) == Some(BoolVal(Overflows(op, x.bits, y.bits, 32)))
  {
    hide Wrap, Pow2, BoolVal, Number1;
    WrapZero(32);
    ConstValue(0, 32, regs);
    RelValue(EQ, Leaf(b), y, Number1(0, 32), Value(0, 32), regs);
  }

  // ------------------------------------------------------------ well-formed terms

  predicate Sound(t: Term, regs: map<Id, Val>, next: Id) { TermBelow(t, next) && Readable(t, regs) }

  lemma SoundPair(a: Term, b: Term, regs: map<Id, Val>, next: Id)
    requires Sound(a, regs, next) && Sound(b, regs, next)
    ensures forall op, w :: Sound(Op2(op, a, b, w), regs, next)
    ensures forall p :: Sound(Rel(p, a, b), regs, next)
    ensures forall c :: Sound(c, regs, next) ==> Sound(If(c, a, b), regs, next)
  {
  }

  lemma SoundNumber(n: int, regs: map<Id, Val>, next: Id)
    ensures Sound(Number1(n, 32), regs, next)
  {
  }

  lemma SoundLeaf(o: Operand, regs: map<Id, Val>, next: Id)
    requires OperandBelow(o, next) && Read1(regs, o).Some?
    ensures Sound(Leaf(o), regs, next)
  {
  }

  lemma SoundBound(sign: Predicate, rel: Predicate, op: Opcode, bound: int, a: Operand, b: Operand, regs: map<Id, Val>, next: Id)
    requires Sound(Leaf(a), regs, next) && Sound(Leaf(b), regs, next)
    ensures Sound(BoundTerm(sign, rel, op, bound, a, b, 32), regs, next)
  {
    hide Sound, Number1;
    SoundNumber(0, regs, next);
    SoundNumber(bound, regs, next);
    SoundPair(Leaf(b), Number1(0, 32), regs, next);
    SoundPair(Number1(bound, 32), Leaf(b), regs, next);
    SoundPair(Leaf(a), Op2(op, Number1(bound, 32), Leaf(b), 32), regs, next);
    SoundPair(Rel(sign, Leaf(b), Number1(0, 32)), Rel(rel, Leaf(a), Op2(op, Number1(bound, 32), Leaf(b), 32)), regs, next);
  }

  lemma SoundAddSub(op: Opcode, a: Operand, b: Operand, regs: map<Id, Val>, next: Id)
    requires Sound(Leaf(a), regs, next) && Sound(Leaf(b), regs, next) && (op.IAdd? || op.ISub?)
    ensures Sound(if op.IAdd? then AddCondition(a, b, 32) else SubCondition(a, b, 32), regs, next)
  {
    hide Sound, Number1, Pow2;
    var max, min := Pow2(31) - 1, -Pow2(31);
    var pos := if op.IAdd? then BoundTerm(SGT, SGT, ISub, max, a, b, 32) else BoundTerm(SLT, SGT, IAdd, max, a, b, 32);
    var neg := if op.IAdd? then BoundTerm(SLT, SLT, ISub, min, a, b, 32) else BoundTerm(SGT, SLT, IAdd, min, a, b, 32);
    SoundBound(SGT, SGT, ISub, max, a, b, regs, next);
    SoundBound(SLT, SLT, ISub, min, a, b, regs, next);
    SoundBound(SLT, SGT, IAdd, max, a, b, regs, next);
    SoundBound(SGT, SLT, IAdd, min, a, b, regs, next);
    SoundPair(pos, neg, regs, next);
    SoundPair(Leaf(a), Leaf(b), regs, next);
    SoundPair(Op2(IAdd, Leaf(a), Leaf(b), 32), Leaf(a), regs, next);
    SoundPair(Either(pos, neg), if op.IAdd? then Rel(ULT, Op2(IAdd, Leaf(a), Leaf(b), 32), Leaf(a)) else Rel(ULT, Leaf(a), Leaf(b)), regs, next);
  }

  lemma SoundSafe(a: Operand, regs: map<Id, Val>, next: Id)
    requires Sound(Leaf(a), regs, next)
    ensures Sound(Rel(NE, Leaf(a), Number1(0, 32)), regs, next)
    ensures Sound(If(Rel(NE, Leaf(a), Number1(0, 32)), Leaf(a), Number1(1, 32)), regs, next)
  {
    hide Sound, Number1;
    SoundNumber(0, regs, next);
    SoundNumber(1, regs, next);
    SoundPair(Leaf(a), Number1(0, 32), regs, next);
    SoundPair(Leaf(a), Number1(1, 32), regs, next);
  }

  lemma SoundMul(a: Operand, b: Operand, regs: map<Id, Val>, next: Id)
    requires Sound(Leaf(a), regs, next) && Sound(Leaf(b), regs, next)
    ensures Sound(MulCondition(a, b, 32), regs, next)
  {
    hide Sound, Number1, Pow2;
    SoundSafe(a, regs, next);
    SoundSafe(b, regs, next);
    var zeroA, zeroB := Rel(NE, Leaf(a), Number1(0, 32)), Rel(NE, Leaf(b), Number1(0, 32));
    var safeA, safeB := If(zeroA, Leaf(a), Number1(1, 32)), If(zeroB, Leaf(b), Number1(1, 32));
    SoundPair(Leaf(a), Leaf(b), regs, next);
    var quotient := Op2(ISDiv, Op2(IMul, Leaf(a), Leaf(b), 32), safeA, 32);
    SoundPair(Op2(IMul, Leaf(a), Leaf(b), 32), safeA, regs, next);
    SoundPair(quotient, Leaf(b), regs, next);
    SoundPair(zeroA, Rel(NE, quotient, Leaf(b)), regs, next);
    SoundNumber(Pow2(32) - 1, regs, next);
    var limit := Op2(IUDiv, Number1(Pow2(32) - 1, 32), safeB, 32);
    SoundPair(Number1(Pow2(32) - 1, 32), safeB, regs, next);
    SoundPair(Leaf(a), limit, regs, next);
    SoundPair(zeroB, Rel(UGT, Leaf(a), limit), regs, next);
    SoundPair(SignedMulTerm(a, b, 32), UnsignedMulTerm(a, b, 32), regs, next);
  }

  lemma SoundOverflowTerm(act: Action, regs: map<Id, Val>, next: Id)
    requires IsChecked(act) && Sound(Leaf(act.a), regs, next) && Sound(Leaf(act.b), regs, next)
    ensures Sound(OverflowTerm(act), regs, next)
  {
    hide Sound, Number1, AddCondition, SubCondition, MulCondition;
    if act.op.IAdd? || act.op.ISub? {
      SoundAddSub(act.op, act.a, act.b, regs, next);
    } else if act.op.IMul? {
      SoundMul(act.a, act.b, regs, next);
    } else {
      SoundNumber(0, regs, next);
      SoundPair(Leaf(act.b), Number1(0, 32), regs, next);
    }
  }

  lemma SoundAfter(i: Instr, x: Val, y: Val, next: Id, st: State)
    requires Executed(i, x, y, st) && InstrBelow(i, next)
    ensures Sound(OverflowTerm(i.act), st.regs, next)
  {
    hide Sound, OverflowTerm;
    var a, b := i.act.a, i.act.b;
    assert Operands(i.act) == [a, b];
    assert OperandBelow(Operands(i.act)[0], next) && OperandBelow(Operands(i.act)[1], next);
    SoundLeaf(a, st.regs, next);
    SoundLeaf(b, st.regs, next);
    SoundOverflowTerm(i.act, st.regs, next);
  }

  lemma BoundCheckHolds(p: Predicate, id: Id, n: int, next: Id, st: State)
    requires id < next && id in st.regs && st.regs[id].width == 32
    ensures BoolTerm(BoundCheck(p, id, n), st, next)
  {
    hide Satisfies, Wrap, Pow2;
    ConstValue(n, 32, st.regs);
    RelValue(p, Leaf(Reg(id)), st.regs[id], Number1(n, 32), Value(Wrap(n, 32), 32), st.regs);
    SoundNumber(n, st.regs, next);
    SoundLeaf(Reg(id), st.regs, next);
    SoundPair(Leaf(Reg(id)), Number1(n, 32), st.regs, next);
  }

  lemma ChecksHold(i: Instr, bounds: Bounds, x: Val, y: Val, next: Id, st: State)
    requires Executed(i, x, y, st) && InstrBelow(i, next) && !TrapEvent(Event(i, [x, y]))
    ensures BoolTerms(Checks(i, bounds), st, next)
  {
    hide EvalTerm, TermBelow, Readable, OverflowTerm, BoundCheck, Overflows, TrapEvent;
    OverflowTermValue(i, x, y, st);
    SoundAfter(i, x, y, next, st);
    BoundCheckHolds(SGT, i.id, bounds.over, next, st);
    BoundCheckHolds(UGT, i.id, bounds.over, next, st);
    BoundCheckHolds(SLT, i.id, bounds.under, next, st);
    BoundCheckHolds(UGT, i.id, bounds.max, next, st);
    BoundCheckHolds(SGT, i.id, bounds.signedMax, next, st);
    BoundCheckHolds(SLT, i.id, bounds.signedMin, next, st);
  }

  // ------------------------------------------------------- the blocks of the result

  predicate Splittable(f: Function, at: Label, i: nat, base: Label, next: Id)
  {
    FunctionBelow(f, base, next) && at in f.blocks && i < |f.blocks[at].body| && IsChecked(f.blocks[at].body[i].act)
  }

  function Head(f: Function, at: Label, i: nat, base: Label): (b: Block)
    requires at in f.blocks && i < |f.blocks[at].body|
  {
    Block(RenamePhis(f.blocks[at].phis, at, base), f.blocks[at].body[..i + 1], Br(base + 1))
  }

  function Cont(f: Function, at: Label, i: nat): (b: Block)
    requires at in f.blocks && i < |f.blocks[at].body|
  {
    Block([], f.blocks[at].body[i + 1..], f.blocks[at].term)
  }

  lemma SplitBlocks(f: Function, at: Label, i: nat, base: Label, next: Id, bounds: Bounds)
    requires Splittable(f, at, i, base, next)
    ensures var f', checks := Split(f, at, i, base, next, bounds), Checks(f.blocks[at].body[i], bounds);
            at < base && at in f'.blocks && f'.blocks[at] == Head(f, at, i, base) &&
            base in f'.blocks && f'.blocks[base] == Cont(f, at, i) &&
            HasBlocks(f', Chain(checks, base + 1, next, base)) &&
            forall l :: l < base && l != at ==>
              (l in f'.blocks <==> l in f.blocks) && (l in f.blocks ==> f'.blocks[l] == RenameBlock(f.blocks[l], at, base))
  {
    hide BlockBelow, IsChecked, Checks, RenameBlock, RenamePhis, Chain, NewOrder;
  }

  // ---------------------------------------------------------------- the split block

  /** The state after the checked instruction of the split block, if it gets that far. */
  function AfterHead(f: Function, at: Label, i: nat, file: seq<Byte>, o: Outcome): (r: Option<State>)
    requires at in f.blocks && i < |f.blocks[at].body| && o.At?
  {
    var entered := EnterBlock(f.blocks[at], o.pred, o.st);
    if entered.None? then None else ExecBody(f.layout, file, f.blocks[at].body[..i + 1], entered.value)
  }

  predicate Trapped(f: Function, at: Label, i: nat, file: seq<Byte>, o: Outcome)
    requires at in f.blocks && i < |f.blocks[at].body| && o.At?
  {
    var r := AfterHead(f, at, i, file, o);
    r.Some? && r.value.trace != [] && TrapEvent(r.value.trace[|r.value.trace| - 1])
  }

  lemma {:induction false} ExecLast(l: Layout, file: seq<Byte>, body: seq<Instr>, i: nat, st: State)
    requires i < |body| && ExecBody(l, file, body[..i + 1], st).Some?
    ensures ExecBody(l, file, body[..i], st).Some?
    ensures ExecBody(l, file, body[..i + 1], st) == Exec(l, file, body[i], ExecBody(l, file, body[..i], st).value)
  {
    hide Exec;
    assert body[..i + 1] == body[..i] + [body[i]];
    ExecAppend(l, file, body[..i], [body[i]], st);
    var mid := ExecBody(l, file, body[..i], st);
    if mid.Some? {
      assert [body[i]][1..] == [];
      var r := Exec(l, file, body[i], mid.value);
      if r.Some? { assert ExecBody(l, file, [], r.value) == r; }
    }
  }

  lemma HeadExecuted(l: Layout, file: seq<Byte>, body: seq<Instr>, i: nat, next: Id, st: State) returns (x: Val, y: Val)
    requires i < |body| && BodyBelow(body, next) && IsChecked(body[i].act) && ExecBody(l, file, body[..i + 1], st).Some?
    ensures Executed(body[i], x, y, ExecBody(l, file, body[..i + 1], st).value)
  {
    hide Executed, IsChecked, ExecBody, Exec, InstrBelow;
    ExecLast(l, file, body, i, st);
    x, y := ExecChecked(l, file, body[i], next, ExecBody(l, file, body[..i], st).value);
  }

  /** The head of the split block and the original block agree up to the operation. */
  lemma HeadRuns(f: Function, at: Label, i: nat, base: Label, next: Id, bounds: Bounds, file: seq<Byte>, o: Outcome, o': Outcome)
    requires Splittable(f, at, i, base, next) && Match(o, o', at, base, next) && o.At? && o.block == at
    ensures var f', mid := Split(f, at, i, base, next, bounds), AfterHead(f, at, i, file, o);
            var r' := RunBlock(f', file, o');
            (mid.None? ==> r' == Stuck) && (mid.Some? ==> r'.At? && r'.block == base + 1 && Same(mid.value, r'.st, next))
  {
    hide EnterBlock, ExecBody, Same, PhisBelow, RenamePhis, Split, IsChecked, InstrBelow, Checks;
    SplitBlocks(f, at, i, base, next, bounds);
    var b, b' := f.blocks[at], Head(f, at, i, base);
    assert BlockBelow(b, base, next);
    EnterSame(b, b', o.pred, at, base, next, o.st, o'.st);
    var e, e' := EnterBlock(b, o.pred, o.st), EnterBlock(b', o'.pred, o'.st);
    if e.Some? {
      BodySame(f.layout, file, b'.body, e.value, e'.value, next);
    }
    SplitLayout(f, at, i, base, next, bounds);
  }

  lemma SplitLayout(f: Function, at: Label, i: nat, base: Label, next: Id, bounds: Bounds)
    requires Splittable(f, at, i, base, next)
    ensures var f' := Split(f, at, i, base, next, bounds);
            f'.layout == f.layout && f'.entry == f.entry && f'.order == NewOrder(f.order, at, base)
  {
    hide FunctionBelow, IsChecked, Checks, NewOrder;
  }

  /** The rest of the original block, from the state behind the operation. */
  function Rest(f: Function, at: Label, i: nat, file: seq<Byte>, mid: State): (r: Outcome)
    requires at in f.blocks && i < |f.blocks[at].body|
  {
    var end := ExecBody(f.layout, file, f.blocks[at].body[i + 1..], mid);
    if end.None? then Stuck else Leave(f.blocks[at].term, at, end.value)
  }

  lemma RunBlockInTwo(f: Function, at: Label, i: nat, file: seq<Byte>, o: Outcome)
    requires at in f.blocks && i < |f.blocks[at].body| && o.At? && o.block == at
    ensures RunBlock(f, file, o)
         == var mid := AfterHead(f, at, i, file, o); if mid.None? then Stuck else Rest(f, at, i, file, mid.value)
  {
    hide EnterBlock, ExecBody, Leave;
    var b := f.blocks[at];
    var e := EnterBlock(b, o.pred, o.st);
    assert b.body == b.body[..i + 1] + b.body[i + 1..];
    if e.Some? { ExecAppend(f.layout, file, b.body[..i + 1], b.body[i + 1..], e.value); }
  }

  lemma ContRuns(f: Function, at: Label, i: nat, base: Label, next: Id, bounds: Bounds, file: seq<Byte>, mid: State, o': Outcome)
    requires Splittable(f, at, i, base, next) && o'.At? && o'.block == base && Same(mid, o'.st, next)
    ensures Match(Rest(f, at, i, file, mid), RunBlock(Split(f, at, i, base, next, bounds), file, o'), at, base, next)
  {
    hide EnterBlock, ExecBody, Same, PhisBelow, Split, IsChecked, InstrBelow, TermLabelsBelow, Leave;
    SplitBlocks(f, at, i, base, next, bounds);
    SplitLayout(f, at, i, base, next, bounds);
    var b, c := f.blocks[at], Cont(f, at, i);
    assert BlockBelow(b, base, next);
    EmptyEntry(c.body, c.term, o'.pred, o'.st);
    BodySame(f.layout, file, c.body, mid, o'.st, next);
    var r, r' := ExecBody(f.layout, file, c.body, mid), ExecBody(f.layout, file, c.body, o'.st);
    if r.Some? {
      LeaveSame(b.term, at, at, base, next, r.value, r'.value);
    }
  }

  lemma {:induction false} StaysStuck(f: Function, file: seq<Byte>, o: Outcome, a: nat, n: nat)
    requires Run(f, file, o, a) == Stuck && a <= n
    ensures Run(f, file, o, n) == Stuck
  {
    hide EnterBlock, ExecBody, Leave;
    if a < n { StaysStuck(f, file, o, a, n - 1); }
  }

  /** From the head through the chain: past a multiplication of -1 by the smallest
      integer the checks get stuck, otherwise they lead to the continuation. */
  lemma ChainFollows(f: Function, at: Label, i: nat, base: Label, next: Id, bounds: Bounds, file: seq<Byte>, pred: Label, mid: State, st': State, x: Val, y: Val)
    requires Splittable(f, at, i, base, next) && Executed(f.blocks[at].body[i], x, y, mid) && Same(mid, st', next)
    ensures var r' := Run(Split(f, at, i, base, next, bounds), file, At(base + 1, pred, st'), 7);
            if TrapEvent(Event(f.blocks[at].body[i], [x, y])) then r' == Stuck
            else r'.At? && r'.block == base && Same(mid, r'.st, next)
  {
    hide Executed, Split, TrapEvent, Checks, Same, BoolTerm, RunBlock, IsChecked, OverflowTerm;
    var f', ins := Split(f, at, i, base, next, bounds), f.blocks[at].body[i];
    var ts := Checks(ins, bounds);
    SplitBlocks(f, at, i, base, next, bounds);
    assert BlockBelow(f.blocks[at], base, next) && InstrBelow(ins, next);
    if TrapEvent(Event(ins, [x, y])) {
      FirstCheckTraps(f', file, ins, bounds, base, next, pred, mid, st', x, y);
      StaysStuck(f', file, At(base + 1, pred, st'), 1, 7);
    } else {
      ChecksHold(ins, bounds, x, y, next, mid);
      forall k | 0 <= k < |ts|
        ensures BoolTerm(ts[k], st', next)
      {
        BoolTermSame(ts[k], mid, st', next, next);
      }
      ChainRuns(f', file, ts, base + 1, next, base, pred, st');
      SameTrans(mid, st', Run(f', file, At(base + 1, pred, st'), 7).st, next, next);
    }
  }

  lemma FirstCheckTraps(f': Function, file: seq<Byte>, ins: Instr, bounds: Bounds, base: Label, next: Id, pred: Label, mid: State, st': State, x: Val, y: Val)
    requires Executed(ins, x, y, mid) && InstrBelow(ins, next) && Same(mid, st', next) && TrapEvent(Event(ins, [x, y]))
    requires HasBlocks(f', Chain(Checks(ins, bounds), base + 1, next, base))
    ensures Run(f', file, At(base + 1, pred, st'), 1) == Stuck
  {
    hide Executed, InstrBelow, TrapEvent, Same, OverflowTerm, EvalTerm, Emit, IsChecked, RunBlock, TermBelow, Readable;
    ExecutedChecked(ins, x, y, mid);
    var t := OverflowTerm(ins.act);
    OverflowTermValue(ins, x, y, mid);
    SoundAfter(ins, x, y, next, mid);
    EvalSame(t, mid, st', next);
    FirstBlock(f', ins, bounds, base, next);
    CheckBlockRuns(f', file, t, base + 1, next, base + 2, pred, st');
    assert Run(f', file, At(base + 1, pred, st'), 0) == At(base + 1, pred, st');
  }

  /** The branch of the first check block tells whether the operation overflowed. */
  lemma FirstCheckDecides(f': Function, file: seq<Byte>, ins: Instr, bounds: Bounds, base: Label, next: Id, st: State, x: Val, y: Val)
    requires Executed(ins, x, y, st) && InstrBelow(ins, next) && !TrapEvent(Event(ins, [x, y]))
    requires HasBlocks(f', Chain(Checks(ins, bounds), base + 1, next, base))
    ensures base + 1 in f'.blocks && f'.blocks[base + 1].term.CondBr?
    ensures var b := f'.blocks[base + 1];
            var r := ExecBody(f'.layout, file, b.body, st);
            r.Some? && Read1(r.value.regs, b.term.cond) == Some(BoolVal(Overflows(ins.act.op, x.bits, y.bits, 32)))
  {
    hide Executed, InstrBelow, TrapEvent, Same, OverflowTerm, EvalTerm, Emit, IsChecked, ExecBody, TermBelow, Readable, Overflows;
    ExecutedChecked(ins, x, y, st);
    OverflowTermValue(ins, x, y, st);
    SoundAfter(ins, x, y, next, st);
    FirstBlock(f', ins, bounds, base, next);
    EmitComputes(f'.layout, file, OverflowTerm(ins.act), next, st);
  }

  lemma ExecutedChecked(i: Instr, x: Val, y: Val, st: State)
    requires Executed(i, x, y, st)
    ensures IsChecked(i.act) && x.width == 32 && y.width == 32
  {
  }

  lemma FirstBlock(f': Function, ins: Instr, bounds: Bounds, base: Label, next: Id)
    requires IsChecked(ins.act) && HasBlocks(f', Chain(Checks(ins, bounds), base + 1, next, base))
    ensures base + 1 in f'.blocks
    ensures var c := Emit(OverflowTerm(ins.act), next); f'.blocks[base + 1] == Block([], c.instrs, CondBr(c.result, base + 2, base + 2))
  {
    hide OverflowTerm, BoundCheck, IsChecked, Emit;
  }

  /** One run through the split block takes nine blocks, and ends like the original
      block unless the check itself is undefined; then it gets stuck. */
  lemma StepSplit(f: Function, at: Label, i: nat, base: Label, next: Id, bounds: Bounds, file: seq<Byte>, o: Outcome, o': Outcome)
    requires Splittable(f, at, i, base, next) && Match(o, o', at, base, next) && o.At? && o.block == at
    ensures var f' := Split(f, at, i, base, next, bounds);
            if Trapped(f, at, i, file, o) then Run(f', file, o', 9) == Stuck
            else Match(RunBlock(f, file, o), Run(f', file, o', 9), at, base, next)
  {
    hide Split, AfterHead, Rest, RunBlock, Same, FunctionBelow, IsChecked, TrapEvent;
    var f', mid := Split(f, at, i, base, next, bounds), AfterHead(f, at, i, file, o);
    HeadRuns(f, at, i, base, next, bounds, file, o, o');
    RunBlockInTwo(f, at, i, file, o);
    RunOne(f', file, o');
    if mid.None? {
      StaysStuck(f', file, o', 1, 9);
    } else {
      var o1 := RunBlock(f', file, o');
      var x, y := AfterHeadExecuted(f, at, i, base, next, file, o);
      ChainFollows(f, at, i, base, next, bounds, file, o1.pred, mid.value, o1.st, x, y);
      LastEvent(f.blocks[at].body[i], x, y, mid.value);
      RunPlus(f', file, o', 1, 7);
      if TrapEvent(Event(f.blocks[at].body[i], [x, y])) {
        StaysStuck(f', file, o', 8, 9);
      } else {
        var o8 := Run(f', file, o', 8);
        ContRuns(f, at, i, base, next, bounds, file, mid.value, o8);
        RunPlus(f', file, o', 8, 1);
        RunOne(f', file, o8);
      }
    }
  }

  lemma RunOne(f: Function, file: seq<Byte>, o: Outcome)
    ensures Run(f, file, o, 1) == RunBlock(f, file, o)
  {
    hide RunBlock;
    assert Run(f, file, o, 0) == o;
  }

  lemma LastEvent(i: Instr, x: Val, y: Val, st: State)
    requires Executed(i, x, y, st)
    ensures st.trace != [] && st.trace[|st.trace| - 1] == Event(i, [x, y])
  {
  }

  lemma AfterHeadExecuted(f: Function, at: Label, i: nat, base: Label, next: Id, file: seq<Byte>, o: Outcome) returns (x: Val, y: Val)
    requires Splittable(f, at, i, base, next) && o.At? && AfterHead(f, at, i, file, o).Some?
    ensures Executed(f.blocks[at].body[i], x, y, AfterHead(f, at, i, file, o).value)
  {
    hide Executed, IsChecked, EnterBlock, ExecBody;
    var b := f.blocks[at];
    assert BlockBelow(b, base, next);
    x, y := HeadExecuted(f.layout, file, b.body, i, next, EnterBlock(b, o.pred, o.st).value);
  }

  // ------------------------------------------------------------------ whole runs

  predicate HasTrap(trace: seq<Event>, id: Id)
  {
    exists k :: 0 <= k < |trace| && trace[k].instr.id == id && TrapEvent(trace[k])
  }

  function History(o: Outcome): (t: seq<Event>) { if o.Stuck? then [] else o.st.trace }

  /** Instruction `k` of block `l` defines `id`. */
  predicate Sits(f: Function, l: Label, k: nat, id: Id)
  {
    l in f.blocks && k < |f.blocks[l].body| && f.blocks[l].body[k].id == id
  }

  ghost predicate OnlyAt(f: Function, id: Id, at: Label, i: nat)
  {
    forall l, k :: Sits(f, l, k, id) ==> l == at && k == i
  }

  lemma ExecEvent(l: Layout, file: seq<Byte>, i: Instr, st: State)
    requires Exec(l, file, i, st).Some?
    ensures var r := Exec(l, file, i, st).value; |r.trace| == |st.trace| + 1 && r.trace[..|st.trace|] == st.trace && r.trace[|st.trace|].instr == i
  {
    hide Perform;
  }

  /** Running straight-line code adds one event per instruction. */
  lemma {:induction false} BodyEvents(l: Layout, file: seq<Byte>, body: seq<Instr>, st: State)
    requires ExecBody(l, file, body, st).Some?
    ensures var r, n := ExecBody(l, file, body, st).value.trace, |st.trace|;
            |r| == n + |body| && r[..n] == st.trace && forall k :: 0 <= k < |body| ==> r[n + k].instr == body[k]
  {
    hide Exec;
    if body != [] {
      ExecEvent(l, file, body[0], st);
      var mid := Exec(l, file, body[0], st).value;
      BodyEvents(l, file, body[1..], mid);
      var r, n := ExecBody(l, file, body, st).value.trace, |st.trace|;
      assert r[..n] == r[..n + 1][..n];
      assert r[n] == r[..n + 1][n];
      forall k | 0 <= k < |body|
        ensures r[n + k].instr == body[k]
      {
        if k > 0 { assert r[n + 1 + (k - 1)].instr == body[1..][k - 1]; }
      }
    }
  }

  lemma TrapExtends(t: seq<Event>, t': seq<Event>, id: Id)
    requires |t| <= |t'| && t'[..|t|] == t
    requires forall k :: |t| <= k < |t'| ==> t'[k].instr.id != id
    ensures HasTrap(t', id) <==> HasTrap(t, id)
  {
    hide TrapEvent;
    if HasTrap(t, id) {
      var k :| 0 <= k < |t| && t[k].instr.id == id && TrapEvent(t[k]);
      assert t'[k] == t'[..|t|][k];
    }
    if HasTrap(t', id) {
      var k :| 0 <= k < |t'| && t'[k].instr.id == id && TrapEvent(t'[k]);
      assert t'[k] == t'[..|t|][k];
    }
  }

  lemma BodyTrap(l: Layout, file: seq<Byte>, body: seq<Instr>, st: State, id: Id)
    requires ExecBody(l, file, body, st).Some? && forall k :: 0 <= k < |body| ==> body[k].id != id
    ensures HasTrap(ExecBody(l, file, body, st).value.trace, id) <==> HasTrap(st.trace, id)
  {
    hide ExecBody, HasTrap;
    BodyEvents(l, file, body, st);
    var r, n := ExecBody(l, file, body, st).value.trace, |st.trace|;
    forall k | n <= k < |r|
      ensures r[k].instr.id != id
    {
      assert r[n + (k - n)].instr == body[k - n];
    }
    TrapExtends(st.trace, r, id);
  }

  lemma TrapKept(t: seq<Event>, t': seq<Event>, id: Id)
    requires |t| <= |t'| && t'[..|t|] == t && HasTrap(t, id)
    ensures HasTrap(t', id)
  {
    hide TrapEvent;
    var k :| 0 <= k < |t| && t[k].instr.id == id && TrapEvent(t[k]);
    assert t'[k] == t'[..|t|][k];
  }

  /** What has happened stays in the history. */
  lemma HistoryGrows(f: Function, file: seq<Byte>, o: Outcome)
    requires o.At? && !RunBlock(f, file, o).Stuck?
    ensures var t, t' := o.st.trace, RunBlock(f, file, o).st.trace; |t| <= |t'| && t'[..|t|] == t
  {
    hide ExecBody, PhiValues, CaseTarget;
    BodyEvents(f.layout, file, f.blocks[o.block].body, EnterBlock(f.blocks[o.block], o.pred, o.st).value);
  }

  lemma StepElsewhereTrap(f: Function, file: seq<Byte>, o: Outcome, id: Id)
    requires o.At? && !RunBlock(f, file, o).Stuck? && forall k: nat :: !Sits(f, o.block, k, id)
    ensures HasTrap(RunBlock(f, file, o).st.trace, id) <==> HasTrap(o.st.trace, id)
  {
    hide ExecBody, PhiValues, CaseTarget, HasTrap;
    var b := f.blocks[o.block];
    forall k | 0 <= k < |b.body|
      ensures b.body[k].id != id
    {
      assert !Sits(f, o.block, k, id);
    }
    BodyTrap(f.layout, file, b.body, EnterBlock(b, o.pred, o.st).value, id);
  }

  lemma TrapOfLast(t: seq<Event>, e: Event, id: Id)
    ensures HasTrap(t + [e], id) <==> HasTrap(t, id) || (e.instr.id == id && TrapEvent(e))
  {
    hide TrapEvent;
    var all := t + [e];
    assert all[|t|] == e;
    if HasTrap(t, id) {
      var k :| 0 <= k < |t| && t[k].instr.id == id && TrapEvent(t[k]);
      assert all[k] == t[k];
    }
    if HasTrap(all, id) {
      var k :| 0 <= k < |all| && all[k].instr.id == id && TrapEvent(all[k]);
      assert k < |t| ==> t[k] == all[k];
    }
  }

  /** The only place where the instruction's events come from. */
  lemma HeadTrap(f: Function, at: Label, i: nat, base: Label, next: Id, file: seq<Byte>, o: Outcome)
    requires Splittable(f, at, i, base, next) && o.At? && OnlyAt(f, f.blocks[at].body[i].id, at, i)
    requires AfterHead(f, at, i, file, o).Some? && !HasTrap(o.st.trace, f.blocks[at].body[i].id)
    ensures HasTrap(AfterHead(f, at, i, file, o).value.trace, f.blocks[at].body[i].id) <==> Trapped(f, at, i, file, o)
  {
    hide FunctionBelow, IsChecked, ExecBody, PhiValues, HasTrap, TrapEvent, Exec;
    var body, id := f.blocks[at].body, f.blocks[at].body[i].id;
    var e := EnterBlock(f.blocks[at], o.pred, o.st).value;
    ExecLast(f.layout, file, body, i, e);
    var mid := ExecBody(f.layout, file, body[..i], e).value;
    forall k | 0 <= k < i
      ensures body[..i][k].id != id
    {
      assert !Sits(f, at, k, id);
    }
    BodyTrap(f.layout, file, body[..i], e, id);
    ExecEvent(f.layout, file, body[i], mid);
    var r := Exec(f.layout, file, body[i], mid).value.trace;
    assert r == mid.trace + [r[|mid.trace|]];
    TrapOfLast(mid.trace, r[|mid.trace|], id);
  }

  lemma StepHereTrap(f: Function, at: Label, i: nat, base: Label, next: Id, file: seq<Byte>, o: Outcome)
    requires Splittable(f, at, i, base, next) && o.At? && o.block == at && OnlyAt(f, f.blocks[at].body[i].id, at, i)
    requires !RunBlock(f, file, o).Stuck? && !HasTrap(o.st.trace, f.blocks[at].body[i].id)
    ensures HasTrap(RunBlock(f, file, o).st.trace, f.blocks[at].body[i].id) <==> Trapped(f, at, i, file, o)
  {
    hide FunctionBelow, IsChecked, ExecBody, HasTrap, TrapEvent, RunBlock, AfterHead, Trapped, CaseTarget;
    var body, id := f.blocks[at].body, f.blocks[at].body[i].id;
    RunBlockInTwo(f, at, i, file, o);
    HeadTrap(f, at, i, base, next, file, o);
    var mid := AfterHead(f, at, i, file, o).value;
    var tail := body[i + 1..];
    forall k | 0 <= k < |tail|
      ensures tail[k].id != id
    {
      assert !Sits(f, at, i + 1 + k, id);
    }
    BodyTrap(f.layout, file, tail, mid, id);
  }

  /** Where the split function has to be when the original one is at `o`. */
  predicate Follows(o: Outcome, o': Outcome, id: Id, at: Label, base: Label, next: Id)
  {
    if o.Stuck? || HasTrap(History(o), id) then o'.Stuck? else Match(o, o', at, base, next)
  }

  lemma SplitStep(f: Function, at: Label, i: nat, base: Label, next: Id, bounds: Bounds, file: seq<Byte>, o: Outcome, o': Outcome) returns (d: nat)
    requires Splittable(f, at, i, base, next) && OnlyAt(f, f.blocks[at].body[i].id, at, i)
    requires Follows(o, o', f.blocks[at].body[i].id, at, base, next)
    ensures d >= 1 && Follows(RunBlock(f, file, o), Run(Split(f, at, i, base, next, bounds), file, o', d), f.blocks[at].body[i].id, at, base, next)
  {
    hide FunctionBelow, IsChecked, RunBlock, Split, Trapped, OnlyAt, HasTrap, Match;
    var f', id := Split(f, at, i, base, next, bounds), f.blocks[at].body[i].id;
    d := 1;
    RunOne(f', file, o');
    if !o.At? || HasTrap(History(o), id) {
      EndedStays(f, f', file, o, o', id, at, base, next);
    } else if o.block == at {
      d := 9;
      AtOutcome(o, o', at, base, next);
      StepSplit(f, at, i, base, next, bounds, file, o, o');
      if !RunBlock(f, file, o).Stuck? {
        StepHereTrap(f, at, i, base, next, file, o);
      } else {
        StuckMatch(Run(f', file, o', 9), at, base, next);
      }
    } else {
      SplitElsewhere(f, at, i, base, next, bounds, file, o, o');
    }
  }

  lemma StuckMatch(o': Outcome, at: Label, base: Label, next: Id)
    ensures Match(Stuck, o', at, base, next) <==> o'.Stuck?
  {
  }

  lemma AtOutcome(o: Outcome, o': Outcome, at: Label, base: Label, next: Id)
    requires Match(o, o', at, base, next)
    ensures o.At? <==> o'.At?
    ensures o.Done? <==> o'.Done?
  {
  }

  lemma EndedStays(f: Function, f': Function, file: seq<Byte>, o: Outcome, o': Outcome, id: Id, at: Label, base: Label, next: Id)
    requires Follows(o, o', id, at, base, next) && (!o.At? || HasTrap(History(o), id))
    ensures Follows(RunBlock(f, file, o), RunBlock(f', file, o'), id, at, base, next)
  {
    hide HasTrap, Same, EnterBlock, ExecBody, Leave;
    if HasTrap(History(o), id) && o.At? && !RunBlock(f, file, o).Stuck? {
      HistoryGrows(f, file, o);
      TrapKept(o.st.trace, RunBlock(f, file, o).st.trace, id);
    }
  }

  lemma SplitElsewhere(f: Function, at: Label, i: nat, base: Label, next: Id, bounds: Bounds, file: seq<Byte>, o: Outcome, o': Outcome)
    requires Splittable(f, at, i, base, next) && OnlyAt(f, f.blocks[at].body[i].id, at, i)
    requires Match(o, o', at, base, next) && o.At? && o.block != at && !HasTrap(o.st.trace, f.blocks[at].body[i].id)
    ensures Follows(RunBlock(f, file, o), RunBlock(Split(f, at, i, base, next, bounds), file, o'), f.blocks[at].body[i].id, at, base, next)
  {
    hide FunctionBelow, IsChecked, RunBlock, Split, HasTrap, Same, Checks;
    var f', id := Split(f, at, i, base, next, bounds), f.blocks[at].body[i].id;
    SplitBlocks(f, at, i, base, next, bounds);
    SplitLayout(f, at, i, base, next, bounds);
    StepElsewhere(f, f', at, base, next, file, o, o');
    if !RunBlock(f, file, o).Stuck? {
      StepElsewhereTrap(f, file, o, id);
    }
  }

  /** Every run of the original function is followed by the split one: to the same block
      and the same state, or into the stuck check if the instruction has multiplied -1
      by the smallest integer. */
  lemma {:induction false} SplitSimulates(f: Function, at: Label, i: nat, base: Label, next: Id, bounds: Bounds, file: seq<Byte>, o: Outcome, n: nat) returns (m: nat)
    requires Splittable(f, at, i, base, next) && OnlyAt(f, f.blocks[at].body[i].id, at, i)
    requires Match(o, o, at, base, next) && o.At? && o.st.trace == []
    ensures m >= n
    ensures Follows(Run(f, file, o, n), Run(Split(f, at, i, base, next, bounds), file, o, m), f.blocks[at].body[i].id, at, base, next)
  {
    hide FunctionBelow, IsChecked, RunBlock, Split, OnlyAt, Match;
    if n == 0 {
      m := 0;
    } else {
      var k := SplitSimulates(f, at, i, base, next, bounds, file, o, n - 1);
      var f' := Split(f, at, i, base, next, bounds);
      var d := SplitStep(f, at, i, base, next, bounds, file, Run(f, file, o, n - 1), Run(f', file, o, k));
      m := k + d;
      RunPlus(f', file, o, k, d);
    }
  }
}
