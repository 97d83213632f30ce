/** Whole runs of instrumented functions: PHI nodes, terminators, the walk of the
    pass over a function, and the main theorems. */
module ConcolicRuns {
  import opened Bits
  import opened Exprs
  import opened ShadowMaps
  import opened Intrinsics
  import opened IR
  import opened Symbolizer
  import opened Instrumentation
  import opened Describing
  import opened Addresses
  import opened Concolic
  import opened Saturation

  // --------------------------------------------------------------- PHI nodes

  predicate DistinctPhis(phis: seq<Phi>)
  {
    forall i, j :: 0 <= i < j < |phis| ==> phis[i].id != phis[j].id
  }

  ghost predicate PhisDescribed(vs: map<Id, Val>, es: map<Id, SymExpr>, input: Input)
  {
    forall id :: id in es && es[id].Some? ==> id in vs && Describes(es[id].value, vs[id], input)
  }

  lemma {:induction false} SymPhiKeys(phis: seq<Phi>, known: set<Id>, erased: set<Id>, pred: Label, slots: map<Id, SymExpr>, id: Id)
    requires id in SymPhiValues(FinalPhis(phis, known, erased), pred, slots)
    ensures exists k :: 0 <= k < |phis| && phis[k].id == id
  {
    if phis != [] {
      if OnlyConstants(phis[0], known) {
        SymPhiKeys(phis[1..], known, erased, pred, slots, id);
        var k :| 0 <= k < |phis[1..]| && phis[1..][k].id == id;
        assert phis[k + 1].id == id;
      } else if id == phis[0].id {
        assert phis[0].id == id;
      } else {
        var tail := FinalPhis(phis, known, erased)[1..];
        assert tail == FinalPhis(phis[1..], known, erased);
        SymPhiKeys(phis[1..], known, erased, pred, slots, id);
        var k :| 0 <= k < |phis[1..]| && phis[1..][k].id == id;
        assert phis[k + 1].id == id;
      }
    }
  }

  lemma IncomingDescribed(phi: Phi, known: set<Id>, erased: set<Id>, pred: Label, slots: map<Id, SymExpr>, regs: map<Id, Val>,
                          v: Val, input: Input)
    requires RegistersFaithful(slots, regs, input) && pred in phi.incoming && Read1(regs, phi.incoming[pred]) == Some(v)
    ensures DescribesIfAny(SlotValue(slots, Forget(SlotOf(known, phi.incoming[pred]), erased)), v, input)
  {
    hide Describes;
  }

  /** Each symbolic PHI node picks an expression that describes the value picked by its PHI node. */
  lemma {:induction false} PhisPickDescriptions(phis: seq<Phi>, known: set<Id>, erased: set<Id>, pred: Label,
                                                slots: map<Id, SymExpr>, regs: map<Id, Val>, input: Input)
    requires DistinctPhis(phis) && RegistersFaithful(slots, regs, input) && PhiValues(phis, pred, regs).Some?
    ensures PhisDescribed(PhiValues(phis, pred, regs).value, SymPhiValues(FinalPhis(phis, known, erased), pred, slots), input)
  {
    hide Describes, OnlyConstants, RegistersFaithful, Forget, SlotOf, SlotValue;
    if phis != [] {
      PhisPickDescriptions(phis[1..], known, erased, pred, slots, regs, input);
      var phi, v := phis[0], Read1(regs, phis[0].incoming[pred]).value;
      IncomingDescribed(phi, known, erased, pred, slots, regs, v, input);
      var rest := SymPhiValues(FinalPhis(phis[1..], known, erased), pred, slots);
      if OnlyConstants(phi, known) {
        assert phi.id !in rest by {
          if phi.id in rest {
            SymPhiKeys(phis[1..], known, erased, pred, slots, phi.id);
          }
        }
      } else {
        assert FinalPhis(phis, known, erased)[1..] == FinalPhis(phis[1..], known, erased);
      }
    }
  }

  lemma EnterConsistent(b: TBlock, phis: seq<Phi>, known: set<Id>, erased: set<Id>, pred: Label, ts: TState, input: Input)
    requires b.phis == phis && b.symPhis == FinalPhis(phis, known, erased) && DistinctPhis(phis)
    requires Consistent(ts, input) && TEnter(b, pred, ts).Some?
    ensures Consistent(TEnter(b, pred, ts).value, input)
  {
    hide Describes, FinalPhis, PhiValues, SymPhiValues, Faithful, AllTruthful, DistinctPhis;
    PhisPickDescriptions(phis, known, erased, pred, ts.slots, ts.st.regs, input);
  }

  // -------------------------------------------------------------- terminators

  predicate TermSound(t: TTerm)
  {
    t.slot.Held? ==> Condition(t.term) == Some(Reg(t.slot.id))
  }

  lemma ConditionDescribed(t: TTerm, ts: TState, c: Operand, v: Val, input: Input)
    requires TermSound(t) && Condition(t.term) == Some(c) && Read1(ts.st.regs, c) == Some(v)
    requires RegistersFaithful(ts.slots, ts.st.regs, input)
    ensures DescribesIfAny(SlotValue(ts.slots, t.slot), v, input)
  {
    hide Describes;
  }

  lemma CaseTruthful(e: Expr, v: Val, c: Val, input: Input)
    requires Describes(e, v, input) && c.width == v.width
    ensures Denotes(Compare(Eq, e, ValueExpr(c)), Bool, FlagOf(v == c), input)
  {
    hide ValueExpr, Compare, Eval, SortOf, Holds;
    ValueExprDescribes(c, input);
    RelationDenotes(Eq, e, v.bits, ValueExpr(c), c.bits, SortFor(v.width), input);
    HoldsEq(v.bits, c.bits, SortFor(v.width));
  }

  /** Every constraint of a switch agrees with whether its case is the one taken. */
  lemma {:induction false} CasesTruthful(cases: seq<(Val, Label)>, e: Expr, v: Val, input: Input)
    requires Describes(e, v, input) && forall k :: 0 <= k < |cases| ==> cases[k].0.width == v.width
    ensures AllTruthful(CaseConstraints(cases, e, v), input)
  {
    hide Describes, ValueExpr, Compare, Denotes;
    if cases != [] {
      CaseTruthful(e, v, cases[0].0, input);
      CasesTruthful(cases[1..], e, v, input);
    }
  }

  lemma TruthfulConcat(a: seq<Constraint>, b: seq<Constraint>, input: Input)
    requires AllTruthful(a, input) && AllTruthful(b, input)
    ensures AllTruthful(a + b, input)
  {
    hide Denotes;
  }

  lemma LeaveConsistent(t: TTerm, here: Label, ts: TState, input: Input)
    requires TermSound(t) && Consistent(ts, input) && !TLeave(t, here, ts).TStuck?
    ensures Consistent(TLeave(t, here, ts).ts, input)
  {
    hide Describes, RegistersFaithful, Faithful, AllTruthful, Denotes, CaseConstraints, SlotValue;
    var e := SlotValue(ts.slots, t.slot);
    match t.term
    case CondBr(c, _, _) =>
      var v := Read1(ts.st.regs, c).value;
      ConditionDescribed(t, ts, c, v, input);
      if e.Some? {
        BoolDescribed(e.value, v, input);
        TruthfulSnoc(ts.log, Constraint(e.value, v.bits == 1), input);
      }
    case Switch(c, cases, _) =>
      var v := Read1(ts.st.regs, c).value;
      ConditionDescribed(t, ts, c, v, input);
      if e.Some? {
        CasesTruthful(cases, e.value, v, input);
        TruthfulConcat(ts.log, CaseConstraints(cases, e.value, v), input);
      }
    case _ =>
  }

  lemma LeaveKeeps(t: TTerm, here: Label, ts: TState)
    ensures BeforeLeaving(t, here, ts).st == ts.st && BeforeLeaving(t, here, ts).misled == ts.misled
  {
    hide CaseConstraints, SlotValue;
  }

  // ---------------------------------------------------------- the walk is sound

  /** The instrumented block carries the original one and only sound slots. */
  predicate BlockVisited(tb: TBlock, b: Block)
  {
    tb.phis == b.phis && Originals(tb.body) == b.body && BodySound(tb.body) && tb.term.term == b.term && TermSound(tb.term)
  }

  lemma {:induction false} BodyVisited(l: Layout, body: seq<Instr>, known: set<Id>)
    ensures BodySound(VisitBody(l, body, known).0) && Originals(VisitBody(l, body, known).0) == body
  {
    hide Code, Registers, Operands;
    if body != [] {
      BodyVisited(l, body[1..], VisitInstr(l, body[0], known).1);
      assert InstrSound(VisitInstr(l, body[0], known).0);
      assert body == [body[0]] + body[1..];
    }
  }

  lemma BlockIsVisited(l: Layout, loops: LoopInfo, here: Label, b: Block, known: set<Id>)
    ensures BlockVisited(VisitBlock(l, loops, here, b, known).0, b)
  {
    hide VisitBody, IsLoopCondition, BodySound, VisitPhis;
    BodyVisited(l, b.body, VisitPhis(b.phis, known));
  }

  lemma {:induction false} BlocksVisited(f: Function, loops: LoopInfo, order: seq<Label>, known: set<Id>)
    ensures forall l :: l in VisitBlocks(f, loops, order, known).0 ==>
              l in f.blocks && BlockVisited(VisitBlocks(f, loops, order, known).0[l], f.blocks[l])
    ensures forall l :: l in order && l in f.blocks ==> l in VisitBlocks(f, loops, order, known).0
  {
    hide VisitBlock, BlockVisited;
    if order != [] {
      if order[0] in f.blocks {
        BlockIsVisited(f.layout, loops, order[0], f.blocks[order[0]], known);
        BlocksVisited(f, loops, order[1..], VisitBlock(f.layout, loops, order[0], f.blocks[order[0]], known).1);
      } else {
        BlocksVisited(f, loops, order[1..], known);
      }
    }
  }

  lemma FinalBlockVisited(tb: TBlock, b: Block, known: set<Id>, erased: set<Id>)
    requires BlockVisited(tb, b)
    ensures BlockVisited(FinalBlock(tb, known, erased), b)
  {
    hide FinalPhis, Operands;
    assert Originals(FinalBody(tb.body, erased)) == Originals(tb.body);
    forall k | 0 <= k < |tb.body|
      ensures InstrSound(FinalBody(tb.body, erased)[k])
    {
      assert InstrSound(tb.body[k]);
    }
  }

  /** SSA functions as the pass receives them. */
  predicate WellFormed(f: Function)
  {
    && (forall l :: l in f.blocks ==> l in f.order)
    && (forall l :: l in f.blocks ==> DistinctPhis(f.blocks[l].phis))
  }

  ghost predicate Instruments(tf: TFunction, f: Function, known: set<Id>, erased: set<Id>)
  {
    && tf.layout == f.layout && tf.blocks.Keys == f.blocks.Keys
    && (forall l :: l in f.blocks ==> BlockVisited(tf.blocks[l], f.blocks[l]))
    && (forall l :: l in f.blocks ==> tf.blocks[l].symPhis == FinalPhis(f.blocks[l].phis, known, erased))
  }

  lemma InstrumentSound(f: Function, loops: LoopInfo) returns (known: set<Id>, erased: set<Id>)
    requires WellFormed(f)
    ensures Instruments(Instrument(f, loops), f, known, erased)
  {
    hide VisitBlocks, AllErased, FinalPhis, BodySound, FinalBody, TermSound;
    var visited := VisitBlocks(f, loops, f.order, {});
    known := visited.1;
    erased := AllErased(visited.0, f.order, known);
    BlocksVisited(f, loops, f.order, {});
    forall l | l in f.blocks
      ensures BlockVisited(FinalBlock(visited.0[l], known, erased), f.blocks[l])
    {
      FinalBlockVisited(visited.0[l], f.blocks[l], known, erased);
    }
  }

  // --------------------------------------------------------------- main theorems

  function Erase(o: TOutcome): (r: Outcome)
  {
    match o
    case TAt(l, p, ts) => At(l, p, ts.st)
    case TDone(ts) => Done(ts.st)
    case TStuck => Stuck
  }

  lemma BlockErases(tf: TFunction, f: Function, known: set<Id>, erased: set<Id>, file: seq<Byte>, o: TOutcome)
    requires Instruments(tf, f, known, erased)
    ensures Erase(TRunBlock(tf, file, o)) == RunBlock(f, file, Erase(o))
  {
    hide TExecBody, ExecBody, PhiValues, SymPhiValues, BeforeLeaving, Leave, FinalPhis, BodySound, TermSound;
    if o.TAt? && o.block in f.blocks {
      var tb := tf.blocks[o.block];
      var entered := TEnter(tb, o.pred, o.ts);
      if entered.Some? {
        BodyErases(f.layout, file, tb.body, entered.value);
        var ts := TExecBody(f.layout, file, tb.body, entered.value);
        if ts.Some? {
          LeaveKeeps(tb.term, o.block, ts.value);
          LeaveStays(tb.term.term, o.block, ts.value.st);
        }
      }
    }
  }

  lemma LeaveStays(t: Terminator, here: Label, st: State)
    ensures match Leave(t, here, st) case At(_, _, s) => s == st case Done(s) => s == st case Stuck => true
  {
    hide CaseTarget;
  }

  ghost predicate OutcomeConsistent(o: TOutcome, input: Input)
  {
    o.TStuck? || ConsistentUnlessMisled(o.ts, input)
  }

  lemma BlockConsistent(tf: TFunction, f: Function, known: set<Id>, erased: set<Id>, file: seq<Byte>, o: TOutcome)
    requires WellFormed(f) && Instruments(tf, f, known, erased) && OutcomeConsistent(o, InputOf(file))
    ensures OutcomeConsistent(TRunBlock(tf, file, o), InputOf(file))
  {
    hide TExecBody, TEnter, Leave, BeforeLeaving, FinalPhis, BodySound, TermSound, Consistent, InputOf, DistinctPhis;
    if o.TAt? && o.block in f.blocks {
      var tb := tf.blocks[o.block];
      var entered := TEnter(tb, o.pred, o.ts);
      if entered.Some? {
        EnterTrace(tb, o.pred, o.ts);
        if !o.ts.misled {
          EnterConsistent(tb, f.blocks[o.block].phis, known, erased, o.pred, o.ts, InputOf(file));
        }
        var ts := TExecBody(f.layout, file, tb.body, entered.value);
        if ts.Some? {
          BodyConsistent(f.layout, file, tb.body, entered.value);
          LeaveKeeps(tb.term, o.block, ts.value);
          if !ts.value.misled && !TLeave(tb.term, o.block, ts.value).TStuck? {
            LeaveConsistent(tb.term, o.block, ts.value, InputOf(file));
          }
        }
      }
    }
  }

  lemma EnterTrace(b: TBlock, pred: Label, ts: TState)
    requires TEnter(b, pred, ts).Some?
    ensures TEnter(b, pred, ts).value.st.trace == ts.st.trace && TEnter(b, pred, ts).value.misled == ts.misled
  {
    hide PhiValues, SymPhiValues;
  }

  /** Nothing is symbolic at the start. */
  function Start(st: State): (ts: TState)
  {
    TState(st, map[], map[], {}, [], false)
  }

  lemma {:induction false} RunsAgree(tf: TFunction, f: Function, known: set<Id>, erased: set<Id>, file: seq<Byte>, o: TOutcome, n: nat)
    requires WellFormed(f) && Instruments(tf, f, known, erased) && OutcomeConsistent(o, InputOf(file))
    ensures Erase(TRun(tf, file, o, n)) == Run(f, file, Erase(o), n)
    ensures OutcomeConsistent(TRun(tf, file, o, n), InputOf(file))
  {
    hide TRunBlock, RunBlock, OutcomeConsistent, Erase, Instruments, InputOf;
    if n > 0 {
      RunsAgree(tf, f, known, erased, file, o, n - 1);
      BlockErases(tf, f, known, erased, file, TRun(tf, file, o, n - 1));
      BlockConsistent(tf, f, known, erased, file, TRun(tf, file, o, n - 1));
    }
  }

  // ------------------------------------------------------- when nothing misleads

  /** No executed address computation had an index that its zero extension changes. */
  predicate ExactTrace(l: Layout, trace: seq<Event>)
  {
    forall k :: 0 <= k < |trace| ==> ExactStep(l, trace[k].instr.act, trace[k].args)
  }

  /** The monitor is raised only by an executed inexact address computation. */
  predicate Explained(l: Layout, ts: TState) { ts.misled ==> !ExactTrace(l, ts.st.trace) }

  lemma ExecExplained(l: Layout, file: seq<Byte>, ti: TInstr, ts: TState)
    requires Explained(l, ts) && TExec(l, file, ti, ts).Some?
    ensures Explained(l, TExec(l, file, ti, ts).value)
  {
    hide RunCode, Perform, Code, Operands, ReadAll, ExactStep, Registers, Define;
    var ts', n := TExec(l, file, ti, ts).value, |ts.st.trace|;
    assert ts'.st.trace[..n] == ts.st.trace;
    if ExactTrace(l, ts'.st.trace) {
      assert ExactStep(l, ts'.st.trace[n].instr.act, ts'.st.trace[n].args);
      forall k | 0 <= k < n
        ensures ExactStep(l, ts.st.trace[k].instr.act, ts.st.trace[k].args)
      {
        assert ts'.st.trace[k] == ts.st.trace[k];
      }
    }
  }

  lemma {:induction false} BodyExplained(l: Layout, file: seq<Byte>, body: seq<TInstr>, ts: TState)
    requires Explained(l, ts) && TExecBody(l, file, body, ts).Some?
    ensures Explained(l, TExecBody(l, file, body, ts).value)
  {
    hide TExec, Explained;
    if body != [] {
      ExecExplained(l, file, body[0], ts);
      BodyExplained(l, file, body[1..], TExec(l, file, body[0], ts).value);
    }
  }

  lemma {:induction false} RunExplained(tf: TFunction, file: seq<Byte>, o: TOutcome, n: nat)
    requires o.TStuck? || Explained(tf.layout, o.ts)
    ensures var r := TRun(tf, file, o, n); r.TStuck? || Explained(tf.layout, r.ts)
  {
    hide TExecBody, TEnter, BeforeLeaving, ExactTrace, Leave;
    if n > 0 {
      RunExplained(tf, file, o, n - 1);
      var p := TRun(tf, file, o, n - 1);
      if p.TAt? && !TRunBlock(tf, file, p).TStuck? {
        var b := tf.blocks[p.block];
        EnterTrace(b, p.pred, p.ts);
        var entered := TEnter(b, p.pred, p.ts).value;
        BodyExplained(tf.layout, file, b.body, entered);
        LeaveKeeps(b.term, p.block, TExecBody(tf.layout, file, b.body, entered).value);
      }
    }
  }

  lemma ConsistencyUnlessMisled(f: Function, loops: LoopInfo, file: seq<Byte>, pred: Label, st: State, n: nat)
    requires WellFormed(f)
    ensures var o := TRun(Instrument(f, loops), file, TAt(f.entry, pred, Start(st)), n);
            Erase(o) == Run(f, file, At(f.entry, pred, st), n) &&
            (o.TStuck? || o.ts.misled || Consistent(o.ts, InputOf(file)))
  {
    hide Instrument, TRun, Run, WellFormed, Instruments, InputOf;
    var known, erased := InstrumentSound(f, loops);
    var o := TAt(f.entry, pred, Start(st));
    assert Consistent(Start(st), InputOf(file));
    RunsAgree(Instrument(f, loops), f, known, erased, file, o, n);
  }

  /** Concolic consistency. For every function, loop analysis, input and initial state, and
      after any number of blocks, the instrumented run is in the state of the original run,
      stuck or finished exactly when that is; and if the original run has computed no address
      from an index that zero extension changes, then all expressions and constraints of the
      instrumented run are true of the actual input. */
  lemma ConcolicConsistency(f: Function, loops: LoopInfo, file: seq<Byte>, pred: Label, st: State, n: nat)
    requires WellFormed(f)
    ensures var o, r := TRun(Instrument(f, loops), file, TAt(f.entry, pred, Start(st)), n), Run(f, file, At(f.entry, pred, st), n);
            Erase(o) == r &&
            (!r.Stuck? && ExactTrace(f.layout, r.st.trace) ==> !o.ts.misled && Consistent(o.ts, InputOf(file)))
  {
    hide Instrument, TRun, Run, WellFormed, InputOf, ExactTrace, Consistent;
    ConsistencyUnlessMisled(f, loops, file, pred, st, n);
    InstrumentLayout(f, loops);
    RunExplained(Instrument(f, loops), file, TAt(f.entry, pred, Start(st)), n);
  }

  lemma InstrumentLayout(f: Function, loops: LoopInfo)
    ensures Instrument(f, loops).layout == f.layout && Instrument(f, loops).entry == f.entry
  {
    hide VisitBlocks, AllErased, FinalBlock;
  }

  // ------------------------------------------------------------- a static condition

  /** No index can be skewed: it is as wide as a pointer, or a constant that is not negative. */
  predicate PlainStep(s: Step, ptrBits: nat)
  {
    s.Elem? ==> s.width >= ptrBits || (s.index.Imm? && s.index.value.width >= 1 && ToSigned(s.index.value.bits, s.index.value.width) >= 0)
  }

  /** Intrinsic functions that are built right on all operands. */
  predicate PlainIntrinsic(f: IntrinsicFn, w: nat)
  {
    f.Saturate? ==> (f.op.SatSub? && !f.signed) || (w < 64 && !(f.op.SatShl? && !f.signed))
  }

  predicate PlainAction(act: Action, ptrBits: nat)
  {
    match act
    case Gep(_, steps) => forall k :: 0 <= k < |steps| ==> PlainStep(steps[k], ptrBits)
    case Intrinsic(f, _, _, w) => PlainIntrinsic(f, w)
    case _ => true
  }

  predicate PlainFunction(f: Function)
  {
    forall l :: l in f.blocks ==> forall k :: 0 <= k < |f.blocks[l].body| ==> PlainAction(f.blocks[l].body[k].act, f.layout.ptrBits)
  }

  lemma {:induction false} PlainIndices(steps: seq<Step>, idx: seq<Val>, p: nat)
    requires IndicesFit(steps, idx, p) && forall k :: 0 <= k < |steps| ==> PlainStep(steps[k], p)
    ensures forall k :: 0 <= k < |idx| && idx[k].width < p ==> ToSigned(idx[k].bits, idx[k].width) >= 0
  {
    hide ToSigned, Pow2;
    if steps != [] {
      assert PlainStep(steps[0], p);
      PlainIndices(steps[1..], if steps[0].Elem? then idx[1..] else idx, p);
      if steps[0].Elem? {
        forall k | 0 <= k < |idx| && idx[k].width < p
          ensures ToSigned(idx[k].bits, idx[k].width) >= 0
        {
          if k > 0 { assert idx[k] == idx[1..][k - 1]; }
        }
      }
    }
  }

  lemma PlainIndicesExact(l: Layout, steps: seq<Step>, args: seq<Val>)
    requires forall k :: 0 <= k < |steps| ==> PlainStep(steps[k], l.ptrBits)
    ensures ExactIndices(l, steps, args)
  {
    hide Wrap, Pow2, Skew, PlainStep;
    if args != [] && IndicesFit(steps, args[1..], l.ptrBits) {
      PlainIndices(steps, args[1..], l.ptrBits);
      NoNarrowNegative(steps, args[1..], l.ptrBits);
      WrapZero(l.ptrBits);
    }
  }

  lemma PlainIntrinsicExact(l: Layout, f: IntrinsicFn, w: nat, args: seq<Val>)
    requires PlainIntrinsic(f, w) && (args != [] ==> args[0].width == w)
    ensures ExactIntrinsic(l, f, args)
  {
    hide Wrap, Pow2, SatExact, UShlRight, TopSigned;
    if args != [] && w == args[|args| - 1].width && IntrinsicDefined(f, args[|args| - 1].bits, w) {
      TopSignedIsRight(if w <= 64 then w else 1, Wrap(l.wild, 64));
    }
  }

  /** The trace event of a plain instruction is exact. */
  lemma PlainIsExact(l: Layout, act: Action, args: seq<Val>)
    requires PlainAction(act, l.ptrBits) && (act.Intrinsic? && args != [] ==> args[0].width == act.width)
    ensures ExactStep(l, act, args)
  {
    hide ExactIndices, ExactIntrinsic, PlainStep, PlainIntrinsic;
    match act
    case Gep(_, steps) => PlainIndicesExact(l, steps, args);
    case Intrinsic(f, _, _, w) => PlainIntrinsicExact(l, f, w, args);
    case _ =>
  }

  lemma IntrinsicWidth(l: Layout, file: seq<Byte>, act: Action, args: seq<Val>, st: State)
    requires |args| == |Operands(act)| && Perform(l, file, act, args, st).Some?
    ensures act.Intrinsic? ==> args != [] && args[0].width == act.width
  {
    hide IntrinsicValue;
  }

  lemma ExecExact(l: Layout, file: seq<Byte>, i: Instr, st: State)
    requires PlainAction(i.act, l.ptrBits) && ExactTrace(l, st.trace) && Exec(l, file, i, st).Some?
    ensures ExactTrace(l, Exec(l, file, i, st).value.trace)
  {
    hide Perform, ExactStep, PlainAction, Operands;
    var args := ReadAll(st.regs, Operands(i.act)).value;
    IntrinsicWidth(l, file, i.act, args, st);
    PlainIsExact(l, i.act, args);
  }

  lemma {:induction false} BodyExact(l: Layout, file: seq<Byte>, body: seq<Instr>, st: State)
    requires forall k :: 0 <= k < |body| ==> PlainAction(body[k].act, l.ptrBits)
    requires ExactTrace(l, st.trace) && ExecBody(l, file, body, st).Some?
    ensures ExactTrace(l, ExecBody(l, file, body, st).value.trace)
  {
    hide Exec, PlainAction, ExactTrace;
    if body != [] {
      ExecExact(l, file, body[0], st);
      BodyExact(l, file, body[1..], Exec(l, file, body[0], st).value);
    }
  }

  lemma {:induction false} PlainRuns(f: Function, file: seq<Byte>, o: Outcome, n: nat)
    requires PlainFunction(f) && (o.Stuck? || ExactTrace(f.layout, o.st.trace))
    ensures var r := Run(f, file, o, n); r.Stuck? || ExactTrace(f.layout, r.st.trace)
  {
    hide ExecBody, PhiValues, ExactTrace, PlainAction, CaseTarget;
    if n > 0 {
      PlainRuns(f, file, o, n - 1);
      var p := Run(f, file, o, n - 1);
      if p.At? && !RunBlock(f, file, p).Stuck? {
        var entered := EnterBlock(f.blocks[p.block], p.pred, p.st).value;
        BodyExact(f.layout, file, f.blocks[p.block].body, entered);
      }
    }
  }

  /** For functions whose indices are pointer-wide or constants that are not negative, every
      run is consistent. */
  lemma PlainConsistency(f: Function, loops: LoopInfo, file: seq<Byte>, pred: Label, st: State, n: nat)
    requires WellFormed(f) && PlainFunction(f) && st.trace == []
    ensures var o := TRun(Instrument(f, loops), file, TAt(f.entry, pred, Start(st)), n);
            Erase(o) == Run(f, file, At(f.entry, pred, st), n) && (o.TStuck? || Consistent(o.ts, InputOf(file)))
  {
    hide Instrument, TRun, Run, WellFormed, PlainFunction, InputOf, Consistent;
    ConcolicConsistency(f, loops, file, pred, st, n);
    PlainRuns(f, file, At(f.entry, pred, st), n);
  }

  // -------------------------------------------------------------- inside a block

  /** The state after the first `k` instructions of the block that is entered next. */
  function Within(tf: TFunction, file: seq<Byte>, o: TOutcome, k: nat): (r: Option<TState>)
  {
    if o.TAt? && o.block in tf.blocks && k <= |tf.blocks[o.block].body| && TEnter(tf.blocks[o.block], o.pred, o.ts).Some?
    then TExecBody(tf.layout, file, tf.blocks[o.block].body[..k], TEnter(tf.blocks[o.block], o.pred, o.ts).value)
    else None
  }

  lemma WithinConsistent(f: Function, loops: LoopInfo, file: seq<Byte>, pred: Label, st: State, n: nat, k: nat)
    requires WellFormed(f)
    ensures var tf := Instrument(f, loops);
            var ts := Within(tf, file, TRun(tf, file, TAt(f.entry, pred, Start(st)), n), k);
            ts.Some? ==> (ts.value.misled || Consistent(ts.value, InputOf(file))) && Explained(f.layout, ts.value)
  {
    hide Instrument, TRun, Run, InputOf, TEnter, TExecBody, Consistent, FinalPhis, BodySound, TermSound, DistinctPhis, Explained;
    var known, erased := InstrumentSound(f, loops);
    var tf := Instrument(f, loops);
    ConsistencyUnlessMisled(f, loops, file, pred, st, n);
    var o := TRun(tf, file, TAt(f.entry, pred, Start(st)), n);
    StartExplained(f.layout, st);
    RunExplained(tf, file, TAt(f.entry, pred, Start(st)), n);
    if Within(tf, file, o, k).Some? {
      var tb := tf.blocks[o.block];
      var entered := TEnter(tb, o.pred, o.ts).value;
      EnterTrace(tb, o.pred, o.ts);
      SameExplained(f.layout, o.ts, entered);
      if !o.ts.misled {
        EnterConsistent(tb, f.blocks[o.block].phis, known, erased, o.pred, o.ts, InputOf(file));
      }
      PrefixSound(tb.body, k);
      BodyConsistent(f.layout, file, tb.body[..k], entered);
      BodyExplained(f.layout, file, tb.body[..k], entered);
    }
  }

  lemma StartExplained(l: Layout, st: State)
    ensures Explained(l, Start(st))
  {
  }

  lemma SameExplained(l: Layout, ts: TState, ts': TState)
    requires Explained(l, ts) && ts'.misled == ts.misled && ts'.st.trace == ts.st.trace
    ensures Explained(l, ts')
  {
  }

  /** The same inside a block: after any number of its instructions. */
  lemma ConcolicConsistencyWithin(f: Function, loops: LoopInfo, file: seq<Byte>, pred: Label, st: State, n: nat, k: nat)
    requires WellFormed(f)
    ensures var tf := Instrument(f, loops);
            var ts := Within(tf, file, TRun(tf, file, TAt(f.entry, pred, Start(st)), n), k);
            ts.Some? && ExactTrace(f.layout, ts.value.st.trace) ==> Consistent(ts.value, InputOf(file))
  {
    hide Instrument, TRun, WellFormed, InputOf, ExactTrace, Consistent, Within;
    WithinConsistent(f, loops, file, pred, st, n, k);
  }

  /** Consistent after every instruction of the first `n` blocks. */
  ghost predicate ConsistentThroughout(tf: TFunction, file: seq<Byte>, o: TOutcome, n: nat)
  {
    forall j, k: nat :: 0 <= j < n && Within(tf, file, TRun(tf, file, o, j), k).Some? ==>
      Consistent(Within(tf, file, TRun(tf, file, o, j), k).value, InputOf(file))
  }

  lemma {:induction false} MisledSoFar(l: Layout, file: seq<Byte>, body: seq<TInstr>, k: nat, ts: TState)
    requires k <= |body| && TExecBody(l, file, body, ts).Some?
    ensures TExecBody(l, file, body[..k], ts).Some?
    ensures TExecBody(l, file, body[..k], ts).value.misled ==> TExecBody(l, file, body, ts).value.misled
  {
    hide TExec;
    if k == 0 {
      BodyStaysMisled(l, file, body, ts);
    } else {
      assert body[..k][1..] == body[1..][..k - 1];
      MisledSoFar(l, file, body[1..], k - 1, TExec(l, file, body[0], ts).value);
    }
  }

  lemma {:induction false} BodyStaysMisled(l: Layout, file: seq<Byte>, body: seq<TInstr>, ts: TState)
    requires TExecBody(l, file, body, ts).Some?
    ensures ts.misled ==> TExecBody(l, file, body, ts).value.misled
  {
    hide TExec;
    if body != [] && ts.misled {
      MisledStays(l, file, body[0], ts);
      BodyStaysMisled(l, file, body[1..], TExec(l, file, body[0], ts).value);
    }
  }

  /** The first instruction that raises the monitor leaves an inconsistent state. */
  lemma {:induction false} FirstMisled(l: Layout, file: seq<Byte>, body: seq<TInstr>, ts: TState) returns (k: nat)
    requires BodySound(body) && Consistent(ts, InputOf(file)) && !ts.misled
    requires TExecBody(l, file, body, ts).Some? && TExecBody(l, file, body, ts).value.misled
    ensures k <= |body| && TExecBody(l, file, body[..k], ts).Some? && !Consistent(TExecBody(l, file, body[..k], ts).value, InputOf(file))
  {
    hide TExec, InstrSound, Consistent, InputOf;
    var next := TExec(l, file, body[0], ts).value;
    MisledExactly(l, file, body[0], ts);
    if next.misled {
      k := 1;
      assert body[..1][1..] == [];
      assert TExecBody(l, file, [], next) == Some(next);
    } else {
      var j := FirstMisled(l, file, body[1..], next);
      k := j + 1;
      assert body[..k][1..] == body[1..][..j];
    }
  }

  lemma MisledBlock(f: Function, loops: LoopInfo, file: seq<Byte>, pred: Label, st: State, n: nat) returns (k: nat)
    requires WellFormed(f) && n > 0
    requires var tf := Instrument(f, loops);
             var p, o := TRun(tf, file, TAt(f.entry, pred, Start(st)), n - 1), TRun(tf, file, TAt(f.entry, pred, Start(st)), n);
             !o.TStuck? && o.ts.misled && !p.TStuck? && !p.ts.misled
    ensures var tf := Instrument(f, loops);
            var ts := Within(tf, file, TRun(tf, file, TAt(f.entry, pred, Start(st)), n - 1), k);
            ts.Some? && !Consistent(ts.value, InputOf(file))
  {
    hide Instrument, Run, InputOf, TEnter, TExecBody, Consistent, FinalPhis, BodySound, TermSound, DistinctPhis, BeforeLeaving, Leave;
    var known, erased := InstrumentSound(f, loops);
    var tf := Instrument(f, loops);
    ConsistencyUnlessMisled(f, loops, file, pred, st, n - 1);
    var p := TRun(tf, file, TAt(f.entry, pred, Start(st)), n - 1);
    var tb := tf.blocks[p.block];
    var entered := TEnter(tb, p.pred, p.ts).value;
    EnterTrace(tb, p.pred, p.ts);
    EnterConsistent(tb, f.blocks[p.block].phis, known, erased, p.pred, p.ts, InputOf(file));
    LeaveKeeps(tb.term, p.block, TExecBody(tf.layout, file, tb.body, entered).value);
    k := FirstMisled(tf.layout, file, tb.body, entered);
  }

  /** Over whole runs the monitor is exact: as long as the run is not stuck, it was
      consistent after every instruction if and only if the monitor is down. */
  lemma {:induction false} MisledExactlyOverRuns(f: Function, loops: LoopInfo, file: seq<Byte>, pred: Label, st: State, n: nat)
    requires WellFormed(f)
    ensures var tf, o := Instrument(f, loops), TAt(f.entry, pred, Start(st));
            !TRun(tf, file, o, n).TStuck? ==> (ConsistentThroughout(tf, file, o, n) <==> !TRun(tf, file, o, n).ts.misled)
  {
    hide Instrument, TRunBlock, Run, InputOf, Consistent, WellFormed, Within;
    var tf, o := Instrument(f, loops), TAt(f.entry, pred, Start(st));
    if n > 0 && !TRun(tf, file, o, n).TStuck? {
      MisledExactlyOverRuns(f, loops, file, pred, st, n - 1);
      var p := TRun(tf, file, o, n - 1);
      StuckStays(tf, file, p);
      if p.ts.misled {
        BlockStaysMisled(tf, file, p, 0);
        var j, k: nat :| 0 <= j < n - 1 && Within(tf, file, TRun(tf, file, o, j), k).Some? &&
          !Consistent(Within(tf, file, TRun(tf, file, o, j), k).value, InputOf(file));
      } else if TRun(tf, file, o, n).ts.misled {
        var k := MisledBlock(f, loops, file, pred, st, n);
      } else {
        forall j, k: nat | 0 <= j < n && Within(tf, file, TRun(tf, file, o, j), k).Some?
          ensures Consistent(Within(tf, file, TRun(tf, file, o, j), k).value, InputOf(file))
        {
          if j == n - 1 {
            BlockStaysMisled(tf, file, p, k);
            WithinConsistent(f, loops, file, pred, st, j, k);
          }
        }
      }
    }
  }

  lemma StuckStays(tf: TFunction, file: seq<Byte>, o: TOutcome)
    ensures o.TStuck? ==> TRunBlock(tf, file, o).TStuck?
  {
  }

  lemma BlockStaysMisled(tf: TFunction, file: seq<Byte>, o: TOutcome, k: nat)
    requires !o.TStuck? && !TRunBlock(tf, file, o).TStuck?
    ensures o.ts.misled ==> TRunBlock(tf, file, o).ts.misled
    ensures Within(tf, file, o, k).Some? && Within(tf, file, o, k).value.misled ==> TRunBlock(tf, file, o).ts.misled
  {
    hide TExecBody, TEnter, BeforeLeaving, Leave;
    if o.TAt? {
      var b := tf.blocks[o.block];
      EnterTrace(b, o.pred, o.ts);
      var entered := TEnter(b, o.pred, o.ts).value;
      BodyStaysMisled(tf.layout, file, b.body, entered);
      LeaveKeeps(b.term, o.block, TExecBody(tf.layout, file, b.body, entered).value);
      if k <= |b.body| { MisledSoFar(tf.layout, file, b.body, k, entered); }
    }
  }

  lemma PrefixSound(body: seq<TInstr>, k: nat)
    requires BodySound(body) && k <= |body|
    ensures BodySound(body[..k])
  {
    hide InstrSound;
  }

  /** The monitor is exact: a step out of a consistent state leads to a consistent one if
      and only if it does not raise the monitor. */
  lemma MisledExactly(l: Layout, file: seq<Byte>, ti: TInstr, ts: TState)
    requires InstrSound(ti) && Consistent(ts, InputOf(file)) && !ts.misled && TExec(l, file, ti, ts).Some?
    ensures TExec(l, file, ti, ts).value.misled <==> !Consistent(TExec(l, file, ti, ts).value, InputOf(file))
  {
    hide RegistersFaithful, Faithful, AllTruthful, TExec;
    ExecConsistent(l, file, ti, ts);
    if TExec(l, file, ti, ts).value.misled {
      MisledMeansWrong(l, file, ti, ts);
    }
  }

  lemma SkewedChainIsWrong(l: Layout, steps: seq<Step>, args: seq<Val>, syms: seq<SymExpr>, v: Val, input: Input)
    requires |args| >= 1 && AllDescribed(syms, args, input)
    requires args[0].width == l.ptrBits && l.ptrBits > 1 && IndicesFit(steps, args[1..], l.ptrBits)
    requires Wrap(Skew(steps, args[1..], l.ptrBits), l.ptrBits) != 0
    requires v == Value(Wrap(args[0].bits + Displacement(steps, args[1..], l.ptrBits), l.ptrBits), l.ptrBits)
    ensures ComputationOk(GepChain(Itself(), steps, 1, l.ptrBits), |args|)
    ensures !Describes(Meaning(GepChain(Itself(), steps, 1, l.ptrBits), Completed(args, syms)), v, input)
  {
    hide Meaning, ComputationOk, GepChain, Itself, ValueExpr, Eval, SortOf, Wrap, Skew, Displacement, IndicesFit, Pow2;
    var ops := Completed(args, syms);
    CompletedDescribes(args, syms, input);
    assert IndicesDescribed(ops, 1, args[1..], input);
    GepChainExact(steps, args[0], args[1..], l.ptrBits, ops, input);
  }

  lemma MisledGep(l: Layout, file: seq<Byte>, ti: TInstr, ts: TState)
    requires InstrSound(ti) && Consistent(ts, InputOf(file)) && !ts.misled && ti.instr.act.Gep?
    requires TExec(l, file, ti, ts).Some? && TExec(l, file, ti, ts).value.misled
    ensures !RegistersFaithful(TExec(l, file, ti, ts).value.slots, TExec(l, file, ti, ts).value.st.regs, InputOf(file))
  {
    hide RunCode, ReadAll, InputOf, Faithful, AllTruthful, Describes, AllDescribed, GepChain, ExactIntrinsic,
         Itself, AllNull, AllZero, Wrap, Skew, Displacement, IndicesFit, Meaning, Completed, AllConcrete, ComputationOk;
    var i, input := ti.instr, InputOf(file);
    var args := ReadAll(ts.st.regs, Operands(i.act)).value;
    var eff, syms := Perform(l, file, i.act, args, ts.st).value, SlotValues(ts.slots, ti.slots);
    var s, steps := SymEffect(None, ts.shadow, ts.log), i.act.steps;
    SymsDescribe(ts, Operands(i.act), ti.slots, args, input);
    NoCodeRuns(l, ti.slots, args, syms, ts.st, eff, s);
    if AllZero(steps) {
      ZeroStepsAddNothing(steps, args[1..], l.ptrBits);
      WrapZero(l.ptrBits);
    }
    var c := GepChain(Itself(), steps, 1, l.ptrBits);
    SkewedChainIsWrong(l, steps, args, syms, eff.result.value, input);
    AssignRuns(l, c, ti.slots, args, syms, ts.st, eff, s);
    var ts' := TExec(l, file, ti, ts).value;
    assert ts'.slots[i.id] == Some(Meaning(c, Completed(args, syms))) && ts'.st.regs[i.id] == eff.result.value;
  }

  lemma MisledIntrinsic(l: Layout, file: seq<Byte>, ti: TInstr, ts: TState)
    requires InstrSound(ti) && Consistent(ts, InputOf(file)) && !ts.misled && ti.instr.act.Intrinsic?
    requires TExec(l, file, ti, ts).Some? && TExec(l, file, ti, ts).value.misled
    ensures !RegistersFaithful(TExec(l, file, ti, ts).value.slots, TExec(l, file, ti, ts).value.st.regs, InputOf(file))
  {
    hide RunCode, ReadAll, InputOf, Faithful, AllTruthful, Describes, AllDescribed, ExactIntrinsic, IntrinsicValue,
         IntrinsicCall, AllNull, Meaning, Completed, AllConcrete, ComputationOk, ExactIndices;
    var i, input := ti.instr, InputOf(file);
    var args := ReadAll(ts.st.regs, Operands(i.act)).value;
    var eff, syms := Perform(l, file, i.act, args, ts.st).value, SlotValues(ts.slots, ti.slots);
    var s := SymEffect(None, ts.shadow, ts.log);
    SymsDescribe(ts, Operands(i.act), ti.slots, args, input);
    NoCodeRuns(l, ti.slots, args, syms, ts.st, eff, s);
    var c := IntrinsicCall(l, i.act.fn, i.act.width);
    IntrinsicMeans(l, i.act.fn, i.act.width, args, syms, input);
    AssignRuns(l, c, ti.slots, args, syms, ts.st, eff, s);
    var ts' := TExec(l, file, ti, ts).value;
    assert ts'.slots[i.id] == Some(Meaning(c, Completed(args, syms))) && ts'.st.regs[i.id] == eff.result.value;
  }

  lemma MisledMeansWrong(l: Layout, file: seq<Byte>, ti: TInstr, ts: TState)
    requires InstrSound(ti) && Consistent(ts, InputOf(file)) && !ts.misled
    requires TExec(l, file, ti, ts).Some? && TExec(l, file, ti, ts).value.misled
    ensures !RegistersFaithful(TExec(l, file, ti, ts).value.slots, TExec(l, file, ti, ts).value.st.regs, InputOf(file))
  {
    hide RegistersFaithful, Consistent, InstrSound;
    OnlyTheseMislead(l, file, ti, ts);
    if ti.instr.act.Gep? { MisledGep(l, file, ti, ts); } else { MisledIntrinsic(l, file, ti, ts); }
  }

  lemma OnlyTheseMislead(l: Layout, file: seq<Byte>, ti: TInstr, ts: TState)
    requires !ts.misled && TExec(l, file, ti, ts).Some? && TExec(l, file, ti, ts).value.misled
    ensures ti.instr.act.Gep? || ti.instr.act.Intrinsic?
  {
    hide RunCode, Perform, Code, Operands, ReadAll, Registers, Define, ExactIndices, ExactIntrinsic;
  }
}
