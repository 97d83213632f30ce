/** Whole runs on two inputs: if the second input satisfies every constraint that the run
    on the first one pushed, the program takes the same path on it and ends with the same
    expressions, which evaluate to the values of the second run. */
module ReplayRuns {
  import opened Bits
  import opened Exprs
  import opened ShadowMaps
  import opened IR
  import opened Symbolizer
  import opened Instrumentation
  import opened Concolic
  import opened ConcolicRuns
  import opened Awareness
  import opened Taints
  import opened TaintRuns
  import opened Replays

  // ----------------------------------------------------- logs and traces only grow

  /** A later state of the same run has the earlier log and trace as prefixes. */
  predicate Extends(ts: TState, later: TState)
  {
    ts.log <= later.log && ts.st.trace <= later.st.trace
  }

  lemma ExtendsFurther(a: TState, b: TState, c: TState)
    requires Extends(a, b) && Extends(b, c)
    ensures Extends(a, c)
  {
  }

  lemma {:induction false} CodeLogs(l: Layout, code: seq<Emit>, slots: seq<Slot>, args: seq<Val>, syms: seq<SymExpr>, st: State,
                                    eff: Effect, s: SymEffect)
    requires |slots| == |args| == |syms|
    ensures var r := RunCode(l, code, slots, args, syms, st, eff, s); r.Some? ==> s.log <= r.value.log
  {
    hide RunEmit;
    if code != [] {
      var s' := RunEmit(l, code[0], slots, args, syms, st, eff, s);
      EmitLogs(l, code[0], slots, args, syms, st, eff, s);
      if s'.Some? { CodeLogs(l, code[1..], slots, args, syms, st, eff, s'.value); }
    }
  }

  lemma EmitLogs(l: Layout, e: Emit, slots: seq<Slot>, args: seq<Val>, syms: seq<SymExpr>, st: State, eff: Effect, s: SymEffect)
    requires |slots| == |args| == |syms|
    ensures var r := RunEmit(l, e, slots, args, syms, st, eff, s); r.Some? ==> s.log <= r.value.log
  {
    hide RunGuarded, ComputationOk, Read, Write, Move, Fill, InputShadow, FromMemory, ToMemory, Backed;
  }

  lemma ExecExtends(l: Layout, file: seq<Byte>, ti: TInstr, ts: TState)
    requires TExec(l, file, ti, ts).Some?
    ensures Extends(ts, TExec(l, file, ti, ts).value)
    ensures ReadAll(ts.st.regs, Operands(ti.instr.act)).Some?
    ensures TExec(l, file, ti, ts).value.st.trace == ts.st.trace + [Event(ti.instr, ReadAll(ts.st.regs, Operands(ti.instr.act)).value)]
  {
    hide RunCode, Perform, Code, Operands, ReadAll, ExactStep, Registers, Define;
    var args := ReadAll(ts.st.regs, Operands(ti.instr.act)).value;
    var eff := Perform(l, file, ti.instr.act, args, ts.st).value;
    CodeLogs(l, Code(l, ti.instr.act, ti.visited), ti.slots, args, SlotValues(ts.slots, ti.slots), ts.st, eff, SymEffect(None, ts.shadow, ts.log));
  }

  lemma {:induction false} BodyExtends(l: Layout, file: seq<Byte>, body: seq<TInstr>, ts: TState)
    requires TExecBody(l, file, body, ts).Some?
    ensures Extends(ts, TExecBody(l, file, body, ts).value)
  {
    hide TExec;
    if body != [] {
      var next := TExec(l, file, body[0], ts).value;
      ExecExtends(l, file, body[0], ts);
      BodyExtends(l, file, body[1..], next);
      ExtendsFurther(ts, next, TExecBody(l, file, body, ts).value);
    }
  }

  lemma EnterParts(b: TBlock, pred: Label, ts: TState)
    requires TEnter(b, pred, ts).Some?
    ensures PhiValues(b.phis, pred, ts.st.regs).Some?
    ensures var vs := PhiValues(b.phis, pred, ts.st.regs).value;
            TEnter(b, pred, ts).value == ts.(st := ts.st.(regs := ts.st.regs + vs),
                                             slots := (ts.slots - vs.Keys) + SymPhiValues(b.symPhis, pred, ts.slots))
  {
    hide PhiValues, SymPhiValues;
  }

  lemma LeaveExtends(t: TTerm, here: Label, ts: TState)
    ensures Extends(ts, BeforeLeaving(t, here, ts))
  {
    hide CaseConstraints, SlotValue;
  }

  lemma BlockExtends(tf: TFunction, file: seq<Byte>, o: TOutcome)
    requires !TRunBlock(tf, file, o).TStuck?
    ensures !o.TStuck? && Extends(o.ts, TRunBlock(tf, file, o).ts)
  {
    hide TExecBody, TEnter, BeforeLeaving, Leave, Extends;
    if o.TAt? {
      var b := tf.blocks[o.block];
      var entered := TEnter(b, o.pred, o.ts).value;
      var end := TExecBody(tf.layout, file, b.body, entered).value;
      EnterExtends(b, o.pred, o.ts);
      BodyExtends(tf.layout, file, b.body, entered);
      LeaveExtends(b.term, o.block, end);
      ExtendsFurther(o.ts, entered, end);
      ExtendsFurther(o.ts, end, BeforeLeaving(b.term, o.block, end));
    } else {
      ExtendsItself(o.ts);
    }
  }

  lemma ExtendsItself(ts: TState)
    ensures Extends(ts, ts)
  {
  }

  lemma EnterExtends(b: TBlock, pred: Label, ts: TState)
    requires TEnter(b, pred, ts).Some?
    ensures Extends(ts, TEnter(b, pred, ts).value)
  {
    EnterParts(b, pred, ts);
  }

  // ------------------------------------------------------- instructions of a block

  /** What holds of a trace holds of its beginning. */
  lemma TracePrefix(l: Layout, t: seq<Event>, t': seq<Event>, u: seq<Event>, u': seq<Event>)
    requires Conforms(u, u') && ExactTrace(l, u') && t <= u && t' <= u'
    ensures Conforms(t, t') && ExactTrace(l, t')
  {
    hide SameAddresses, ExactStep;
    forall k | 0 <= k < |t| && k < |t'| && t[k].instr == t'[k].instr
      ensures SameAddresses(t[k].instr.act, t[k].args, t'[k].args)
    {
      assert t[k] == u[k] && t'[k] == u'[k];
    }
    forall k | 0 <= k < |t'|
      ensures ExactStep(l, t'[k].instr.act, t'[k].args)
    {
      assert t'[k] == u'[k];
    }
  }

  lemma AgreeingBefore(log: seq<Constraint>, log': seq<Constraint>, later: seq<Constraint>, later': seq<Constraint>, input: Input)
    requires Agreeing(later, later', input) && log <= later && log' <= later'
    ensures Agreeing(log, log', input)
  {
    hide Truthful;
    if AllTruthful(later, input) {
      forall k | 0 <= k < |log|
        ensures Truthful(log[k], input)
      {
        assert log[k] == later[k];
      }
    }
  }

  lemma LastEvent(l: Layout, t: seq<Event>, t': seq<Event>, i: Instr, args: seq<Val>, args': seq<Val>)
    requires |t| == |t'| && Conforms(t + [Event(i, args)], t' + [Event(i, args')]) && ExactTrace(l, t' + [Event(i, args')])
    ensures SameAddresses(i.act, args, args') && ExactStep(l, i.act, args')
  {
    hide SameAddresses, ExactStep;
    var n := |t|;
    assert (t + [Event(i, args)])[n] == Event(i, args) && (t' + [Event(i, args')])[n] == Event(i, args');
  }

  /** What a replay needs: the second input satisfies the log or goes the same way, and the
      two traces agree on addresses and lengths and compute exactly. */
  ghost predicate Replayed(l: Layout, ts: TState, ts': TState, input: Input)
  {
    Agreeing(ts.log, ts'.log, input) && Conforms(ts.st.trace, ts'.st.trace) && ExactTrace(l, ts'.st.trace)
  }

  lemma ReplayedBefore(l: Layout, ts: TState, ts': TState, later: TState, later': TState, input: Input)
    requires Replayed(l, later, later', input) && Extends(ts, later) && Extends(ts', later')
    ensures Replayed(l, ts, ts', input)
  {
    hide Agreeing, Conforms, ExactTrace;
    AgreeingBefore(ts.log, ts'.log, later.log, later'.log, input);
    TracePrefix(l, ts.st.trace, ts'.st.trace, later.st.trace, later'.st.trace);
  }

  lemma ExecTogether(l: Layout, file: seq<Byte>, file': seq<Byte>, ti: TInstr, ts: TState, ts': TState, usable: set<Id>)
    requires InstrSound(ti) && InstrAware(l, ti, usable) && Invariant(ts, ts', usable, InputOf(file')) && |file| == |file'|
    requires TExec(l, file, ti, ts).Some? && TExec(l, file', ti, ts').Some?
    requires Replayed(l, TExec(l, file, ti, ts).value, TExec(l, file', ti, ts').value, InputOf(file'))
    ensures Invariant(TExec(l, file, ti, ts).value, TExec(l, file', ti, ts').value, usable, InputOf(file'))
  {
    hide TExec, Operands, ReadAll, ExactStep, InstrSound, InstrAware, SlotsWithin, Consistent, RegsAlike, Alike, SameAddresses, Agreeing,
         InputOf, Conforms, ExactTrace;
    ExecExtends(l, file, ti, ts);
    ExecExtends(l, file', ti, ts');
    var os := Operands(ti.instr.act);
    LastEvent(l, ts.st.trace, ts'.st.trace, ti.instr, ReadAll(ts.st.regs, os).value, ReadAll(ts'.st.regs, os).value);
    StepTogether(l, file, file', ti, ts, ts', usable);
  }

  lemma {:induction false} BodyTogether(l: Layout, file: seq<Byte>, file': seq<Byte>, body: seq<TInstr>, ts: TState, ts': TState, usable: set<Id>)
    requires BodySound(body) && BodyAware(l, body, usable) && Invariant(ts, ts', usable, InputOf(file')) && |file| == |file'|
    requires TExecBody(l, file, body, ts).Some? && TExecBody(l, file', body, ts').Some?
    requires Replayed(l, TExecBody(l, file, body, ts).value, TExecBody(l, file', body, ts').value, InputOf(file'))
    ensures Invariant(TExecBody(l, file, body, ts).value, TExecBody(l, file', body, ts').value, usable, InputOf(file'))
  {
    hide TExec, InstrSound, InstrAware, Invariant, Replayed, InputOf, Extends;
    if body != [] {
      var next, next' := TExec(l, file, body[0], ts).value, TExec(l, file', body[0], ts').value;
      BodyExtends(l, file, body[1..], next);
      BodyExtends(l, file', body[1..], next');
      ReplayedBefore(l, next, next', TExecBody(l, file, body, ts).value, TExecBody(l, file', body, ts').value, InputOf(file'));
      ExecTogether(l, file, file', body[0], ts, ts', usable);
      BodyTogether(l, file, file', body[1..], next, next', usable);
    }
  }

  // ------------------------------------------------------------------ PHI nodes

  /** Unmarked values agree in both runs. */
  predicate AgreeUnmarked(marks: set<Id>, regs: map<Id, Val>, regs': map<Id, Val>)
  {
    regs.Keys == regs'.Keys && forall id :: id in regs && id !in marks ==> regs[id] == regs'[id]
  }

  lemma {:induction false} PhisAgree(phis: seq<Phi>, pred: Label, marks: set<Id>, regs: map<Id, Val>, regs': map<Id, Val>)
    requires AgreeUnmarked(marks, regs, regs') && PhiValues(phis, pred, regs).Some? && PhiValues(phis, pred, regs').Some?
    ensures AgreeUnmarked(PhiMarks(phis, pred, marks), PhiValues(phis, pred, regs).value, PhiValues(phis, pred, regs').value)
  {
    if phis != [] { PhisAgree(phis[1..], pred, marks, regs, regs'); }
  }

  function MarkedSlots(slots: map<Id, SymExpr>): (ids: set<Id>)
  {
    set id | id in slots && slots[id].Some?
  }

  lemma PhisTogether(phis: seq<Phi>, known: set<Id>, erased: set<Id>, pred: Label, ts: TState, ts': TState)
    requires Together(ts, ts') && DistinctPhis(phis) && SlotsWithin(ts.slots, known - erased)
    requires PhiValues(phis, pred, ts.st.regs).Some? && PhiValues(phis, pred, ts'.st.regs).Some?
    ensures var vs, vs' := PhiValues(phis, pred, ts.st.regs).value, PhiValues(phis, pred, ts'.st.regs).value;
            RegsAlike((ts.slots - vs.Keys) + SymPhiValues(FinalPhis(phis, known, erased), pred, ts.slots), ts.st.regs + vs, ts'.st.regs + vs')
  {
    hide PhiValues, SymPhiValues, FinalPhis, PhiMarks, SlotsWithin, DistinctPhis, Alike, SameInstrs;
    var vs, vs' := PhiValues(phis, pred, ts.st.regs).value, PhiValues(phis, pred, ts'.st.regs).value;
    var es, marks := SymPhiValues(FinalPhis(phis, known, erased), pred, ts.slots), MarkedSlots(ts.slots);
    PhisAgree(phis, pred, marks, ts.st.regs, ts'.st.regs);
    PhiValueKeys(phis, pred, ts.st.regs);
    forall id | id in es
      ensures id in vs
    {
      SymPhiIsPhi(phis, known, erased, pred, ts.slots, id);
    }
    forall id | id in vs && !(id in es && es[id].Some?)
      ensures vs[id] == vs'[id]
    {
      PhisMarked(phis, known, erased, pred, ts.slots, marks, ts.st.regs, id);
    }
  }

  lemma EnterTogether(tf: TFunction, f: Function, known: set<Id>, erased: set<Id>, l: Label, pred: Label, ts: TState, ts': TState, input: Input)
    requires Aware(tf, f, known, erased) && WellFormed(f) && l in f.blocks && Invariant(ts, ts', known - erased, input)
    requires TEnter(tf.blocks[l], pred, ts).Some? && TEnter(tf.blocks[l], pred, ts').Some?
    ensures Invariant(TEnter(tf.blocks[l], pred, ts).value, TEnter(tf.blocks[l], pred, ts').value, known - erased, input)
  {
    hide PhiValues, SymPhiValues, FinalPhis, Consistent, SlotsWithin, RegsAlike, Alike, SameInstrs, DistinctPhis, BlockAware, BodySound,
         TermSound, OnlyConstants, IsPhi, TEnter;
    var b := tf.blocks[l];
    assert BlockVisited(b, f.blocks[l]) && b.symPhis == FinalPhis(b.phis, known, erased);
    EnterParts(b, pred, ts);
    EnterParts(b, pred, ts');
    PhisTogether(b.phis, known, erased, pred, ts, ts');
    PhiValueKeys(b.phis, pred, ts.st.regs);
    PhiValueKeys(b.phis, pred, ts'.st.regs);
    EnterWithin(tf, f, known, erased, l, pred, ts);
    EnterConsistent(b, b.phis, known, erased, pred, ts', input);
  }

  // ----------------------------------------------------------------- terminators

  /** A condition without an expression has the same value in both runs. */
  lemma ConditionAlike(t: TTerm, c: Operand, ts: TState, ts': TState, usable: set<Id>)
    requires TermSound(t) && TermAware(t, usable) && SlotsWithin(ts.slots, usable) && Condition(t.term) == Some(c)
    requires RegsAlike(ts.slots, ts.st.regs, ts'.st.regs) && Read1(ts.st.regs, c).Some? && Read1(ts'.st.regs, c).Some?
    ensures !(t.visited.Held? && SlotValue(ts.slots, t.slot).Some?) ==> Read1(ts.st.regs, c) == Read1(ts'.st.regs, c)
  {
    assert SlotFits(c, t.visited, usable) && SlotFits(c, t.slot, usable);
  }

  /** The pushed constraint fixes the direction of a branch. */
  lemma SameDirection(log: seq<Constraint>, e: Expr, v: Val, v': Val, input: Input)
    requires Agreeing(log + [Constraint(e, v.bits == 1)], log + [Constraint(e, v'.bits == 1)], input) && v'.width == 1 && Describes(e, v', input)
    ensures v.bits == 1 <==> v'.bits == 1
  {
    hide Agreeing, Describes, Denotes;
    BoolDescribed(e, v', input);
    SameDecision(log + [Constraint(e, v.bits == 1)], log + [Constraint(e, v'.bits == 1)], |log|, e, v.bits == 1, v'.bits == 1, input);
  }

  /** The constraints of a switch fix the case that it takes. */
  lemma {:induction false} SameCase(cases: seq<(Val, Label)>, default: Label, e: Expr, v: Val, v': Val, input: Input)
    requires Agreeing(CaseConstraints(cases, e, v), CaseConstraints(cases, e, v'), input) && Describes(e, v', input)
    requires forall k :: 0 <= k < |cases| ==> cases[k].0.width == v'.width
    ensures CaseConstraints(cases, e, v) == CaseConstraints(cases, e, v')
    ensures CaseTarget(cases, v, default) == CaseTarget(cases, v', default)
  {
    hide Agreeing, Describes, Denotes, ValueExpr, Compare;
    if cases != [] {
      var q := Compare(Eq, e, ValueExpr(cases[0].0));
      var log, log' := CaseConstraints(cases, e, v), CaseConstraints(cases, e, v');
      CaseTruthful(e, v', cases[0].0, input);
      SameDecision(log, log', 0, q, v == cases[0].0, v' == cases[0].0, input);
      AgreeingRest([log[0]], CaseConstraints(cases[1..], e, v), CaseConstraints(cases[1..], e, v'), input);
      SameCase(cases[1..], default, e, v, v', input);
    }
  }

  lemma AgreeingRest(log: seq<Constraint>, more: seq<Constraint>, more': seq<Constraint>, input: Input)
    requires Agreeing(log + more, log + more', input)
    ensures Agreeing(more, more', input)
  {
    hide Truthful;
    if AllTruthful(log + more, input) {
      forall k | 0 <= k < |more|
        ensures Truthful(more[k], input)
      {
        assert (log + more)[|log| + k] == more[k];
      }
    } else {
      forall k | 0 <= k < |more| && k < |more'|
        ensures more[k].taken <==> more'[k].taken
      {
        assert (log + more)[|log| + k] == more[k] && (log + more')[|log| + k] == more'[k];
      }
    }
  }

  /** Where a run goes next, without its state. */
  function Next(o: TOutcome): (r: Option<(bool, Label, Label)>)
  {
    match o
    case TAt(l, p, _) => Some((true, l, p))
    case TDone(_) => Some((false, 0, 0))
    case TStuck => None
  }

  lemma BranchTogether(t: TTerm, here: Label, ts: TState, ts': TState, usable: set<Id>, input: Input)
    requires t.term.CondBr? && TermSound(t) && TermAware(t, usable) && Invariant(ts, ts', usable, input)
    requires !TLeave(t, here, ts).TStuck? && !TLeave(t, here, ts').TStuck?
    requires Agreeing(BeforeLeaving(t, here, ts).log, BeforeLeaving(t, here, ts').log, input)
    requires t.guarded && here in ts.seen ==> Next(TLeave(t, here, ts)) == Next(TLeave(t, here, ts'))
    ensures Next(TLeave(t, here, ts)) == Next(TLeave(t, here, ts'))
    ensures BeforeLeaving(t, here, ts).log == BeforeLeaving(t, here, ts').log && BeforeLeaving(t, here, ts).seen == BeforeLeaving(t, here, ts').seen
  {
    hide Agreeing, AllTruthful, Describes, Denotes, SlotsWithin, RegsAlike, Alike, SameInstrs, SlotValue, Faithful, TermSound, TermAware, RegistersFaithful;
    var c := t.term.cond;
    var e, v, v' := SlotValue(ts.slots, t.slot), Read1(ts.st.regs, c).value, Read1(ts'.st.regs, c).value;
    ConditionAlike(t, c, ts, ts', usable);
    ConditionDescribed(t, ts', c, v', input);
    if t.visited.Held? && e.Some? && !(t.guarded && here in ts.seen) {
      SameDirection(ts.log, e.value, v, v', input);
    }
  }

  lemma SwitchTogether(t: TTerm, here: Label, ts: TState, ts': TState, usable: set<Id>, input: Input)
    requires t.term.Switch? && TermSound(t) && TermAware(t, usable) && Invariant(ts, ts', usable, input)
    requires !TLeave(t, here, ts).TStuck? && !TLeave(t, here, ts').TStuck?
    requires Agreeing(BeforeLeaving(t, here, ts).log, BeforeLeaving(t, here, ts').log, input)
    ensures Next(TLeave(t, here, ts)) == Next(TLeave(t, here, ts'))
    ensures BeforeLeaving(t, here, ts).log == BeforeLeaving(t, here, ts').log && BeforeLeaving(t, here, ts).seen == BeforeLeaving(t, here, ts').seen
  {
    hide Agreeing, AllTruthful, Describes, Denotes, SlotsWithin, RegsAlike, Alike, SameInstrs, SlotValue, Faithful, TermSound, TermAware, RegistersFaithful,
         CaseConstraints, CaseTarget;
    var c, cases := t.term.cond, t.term.cases;
    var e, v, v' := SlotValue(ts.slots, t.slot), Read1(ts.st.regs, c).value, Read1(ts'.st.regs, c).value;
    ConditionAlike(t, c, ts, ts', usable);
    ConditionDescribed(t, ts', c, v', input);
    if t.visited.Held? && e.Some? {
      AgreeingRest(ts.log, CaseConstraints(cases, e.value, v), CaseConstraints(cases, e.value, v'), input);
      SameCase(cases, t.term.default, e.value, v, v', input);
    }
  }

  lemma LeaveTogether(t: TTerm, here: Label, ts: TState, ts': TState, usable: set<Id>, input: Input)
    requires TermSound(t) && TermAware(t, usable) && Invariant(ts, ts', usable, input)
    requires !TLeave(t, here, ts).TStuck? && !TLeave(t, here, ts').TStuck?
    requires Agreeing(BeforeLeaving(t, here, ts).log, BeforeLeaving(t, here, ts').log, input)
    requires t.guarded && here in ts.seen ==> Next(TLeave(t, here, ts)) == Next(TLeave(t, here, ts'))
    ensures Next(TLeave(t, here, ts)) == Next(TLeave(t, here, ts'))
    ensures Invariant(BeforeLeaving(t, here, ts), BeforeLeaving(t, here, ts'), usable, input)
  {
    hide Agreeing, SlotsWithin, RegsAlike, Alike, SameInstrs, SlotValue, TermSound, TermAware, Consistent, BeforeLeaving, TLeave;
    LeaveSlots(t, here, ts);
    LeaveSlots(t, here, ts');
    LeaveKeeps(t, here, ts);
    LeaveKeeps(t, here, ts');
    LeaveConsistent(t, here, ts', input);
    match t.term
    case CondBr(_, _, _) => BranchTogether(t, here, ts, ts', usable, input);
    case Switch(_, _, _) => SwitchTogether(t, here, ts, ts', usable, input);
    case _ => LeavePlainly(t, here, ts); LeavePlainly(t, here, ts');
  }

  lemma LeavePlainly(t: TTerm, here: Label, ts: TState)
    requires t.term.Br? || t.term.Ret?
    ensures BeforeLeaving(t, here, ts) == ts
    ensures Next(TLeave(t, here, ts)) == if t.term.Br? then Some((true, t.term.target, here)) else Some((false, 0, 0))
  {
  }

  // ------------------------------------------------------------------ main theorem

  /** The pass pushes nothing when a loop condition is passed again; this block ends with one
      that was passed before. */
  predicate AnotherRound(tf: TFunction, o: TOutcome)
  {
    o.TAt? && o.block in tf.blocks && tf.blocks[o.block].term.guarded && o.block in o.ts.seen
  }

  /** Both runs are at the same place, with the same symbolic state. */
  ghost predicate SideBySide(o: TOutcome, o': TOutcome, usable: set<Id>, input: Input)
  {
    !o.TStuck? && !o'.TStuck? && Next(o) == Next(o') && Invariant(o.ts, o'.ts, usable, input)
  }

  lemma BodySeen(l: Layout, file: seq<Byte>, body: seq<TInstr>, ts: TState)
    requires TExecBody(l, file, body, ts).Some?
    ensures TExecBody(l, file, body, ts).value.seen == ts.seen
  {
    hide RunCode, Perform, Code, Operands, ReadAll, ExactStep, Registers, Define;
  }

  lemma BlockTogether(tf: TFunction, f: Function, known: set<Id>, erased: set<Id>, file: seq<Byte>, file': seq<Byte>, o: TOutcome, o': TOutcome)
    requires Aware(tf, f, known, erased) && WellFormed(f) && |file| == |file'| && SideBySide(o, o', known - erased, InputOf(file'))
    requires var r, r' := TRunBlock(tf, file, o), TRunBlock(tf, file', o');
             !r.TStuck? && !r'.TStuck? && Replayed(f.layout, r.ts, r'.ts, InputOf(file')) && (AnotherRound(tf, o) ==> Next(r) == Next(r'))
    ensures SideBySide(TRunBlock(tf, file, o), TRunBlock(tf, file', o'), known - erased, InputOf(file'))
  {
    hide TExecBody, TEnter, TLeave, BeforeLeaving, FinalPhis, BodySound, TermSound, BodyAware, TermAware, Invariant, DistinctPhis, IsPhi,
         OnlyConstants, InputOf, Agreeing, Conforms, ExactTrace, Extends, BlockVisited;
    if o.TAt? {
      var l, tb, usable := o.block, tf.blocks[o.block], known - erased;
      BlockParts(tf, f, known, erased, l);
      var entered, entered' := TEnter(tb, o.pred, o.ts).value, TEnter(tb, o.pred, o'.ts).value;
      var end, end' := TExecBody(f.layout, file, tb.body, entered).value, TExecBody(f.layout, file', tb.body, entered').value;
      LeaveSlots(tb.term, l, end);
      LeaveSlots(tb.term, l, end');
      LeaveExtends(tb.term, l, end);
      LeaveExtends(tb.term, l, end');
      EnterTogether(tf, f, known, erased, l, o.pred, o.ts, o'.ts, InputOf(file'));
      ReplayedBefore(f.layout, end, end', BeforeLeaving(tb.term, l, end), BeforeLeaving(tb.term, l, end'), InputOf(file'));
      BodyTogether(f.layout, file, file', tb.body, entered, entered', usable);
      BodySeen(f.layout, file, tb.body, entered);
      EnterParts(tb, o.pred, o.ts);
      LeaveTogether(tb.term, l, end, end', usable, InputOf(file'));
    }
  }

  lemma BlockParts(tf: TFunction, f: Function, known: set<Id>, erased: set<Id>, l: Label)
    requires Aware(tf, f, known, erased) && l in f.blocks
    ensures tf.layout == f.layout && l in tf.blocks && BodySound(tf.blocks[l].body) && TermSound(tf.blocks[l].term) &&
            BodyAware(f.layout, tf.blocks[l].body, known - erased) && TermAware(tf.blocks[l].term, known - erased)
  {
    hide BodySound, BodyAware, TermSound, TermAware, OnlyConstants, IsPhi, FinalPhis;
    assert BlockVisited(tf.blocks[l], f.blocks[l]) && BlockAware(f.layout, tf.blocks[l], known - erased);
  }

  /** Loop conditions that are passed again decide alike in both runs. */
  predicate SameRounds(tf: TFunction, file: seq<Byte>, file': seq<Byte>, o: TOutcome, n: nat)
  {
    forall m: nat :: m < n && AnotherRound(tf, TRun(tf, file, o, m)) ==>
      Next(TRun(tf, file, o, m + 1)) == Next(TRun(tf, file', o, m + 1))
  }

  lemma {:induction false} RunTogether(tf: TFunction, f: Function, known: set<Id>, erased: set<Id>, file: seq<Byte>, file': seq<Byte>, o: TOutcome, n: nat)
    requires Aware(tf, f, known, erased) && WellFormed(f) && |file| == |file'| && SideBySide(o, o, known - erased, InputOf(file'))
    requires SameRounds(tf, file, file', o, n)
    requires var r, r' := TRun(tf, file, o, n), TRun(tf, file', o, n);
             !r.TStuck? && !r'.TStuck? && Replayed(f.layout, r.ts, r'.ts, InputOf(file'))
    ensures SideBySide(TRun(tf, file, o, n), TRun(tf, file', o, n), known - erased, InputOf(file'))
  {
    hide TRunBlock, Aware, WellFormed, SideBySide, AnotherRound, Replayed, Extends, Next, InputOf;
    if n > 0 {
      var p, p' := TRun(tf, file, o, n - 1), TRun(tf, file', o, n - 1);
      BlockExtends(tf, file, p);
      BlockExtends(tf, file', p');
      var r, r' := TRun(tf, file, o, n), TRun(tf, file', o, n);
      ReplayedBefore(f.layout, p.ts, p'.ts, r.ts, r'.ts, InputOf(file'));
      RunTogether(tf, f, known, erased, file, file', o, n - 1);
      assert AnotherRound(tf, TRun(tf, file, o, n - 1)) ==> Next(TRun(tf, file, o, (n - 1) + 1)) == Next(TRun(tf, file', o, (n - 1) + 1));
      BlockTogether(tf, f, known, erased, file, file', p, p');
    }
  }

  /** What the constraints leave open. The pass fixes addresses and lengths to the values of
      the run, pushes nothing when a loop condition is passed again, and departs from some
      instructions; the program may also have undefined behaviour on the other input. */
  ghost predicate Comparable(f: Function, loops: LoopInfo, file: seq<Byte>, file': seq<Byte>, pred: Label, st: State, n: nat)
  {
    var tf, start := Instrument(f, loops), TAt(f.entry, pred, Start(st));
    var o, o' := TRun(tf, file, start, n), TRun(tf, file', start, n);
    SameRounds(tf, file, file', start, n) && !o.TStuck? && !o'.TStuck? && Conforms(o.ts.st.trace, o'.ts.st.trace) &&
    ExactTrace(f.layout, o'.ts.st.trace)
  }

  /** A path and its constraints. An input that satisfies every constraint that the run on
      `file` pushed, or that leads to the same decisions, brings the program to the same block
      with the same expressions in the same places and the same constraints, and every
      expression evaluates to the value that this input leads to. */
  lemma SatisfyingInputsReplay(f: Function, loops: LoopInfo, file: seq<Byte>, file': seq<Byte>, pred: Label, st: State, n: nat)
    requires WellFormed(f) && DefsFirst(f) && |file| == |file'| && Comparable(f, loops, file, file', pred, st, n)
    requires var tf, start := Instrument(f, loops), TAt(f.entry, pred, Start(st));
             Agreeing(TRun(tf, file, start, n).ts.log, TRun(tf, file', start, n).ts.log, InputOf(file'))
    ensures var tf, start := Instrument(f, loops), TAt(f.entry, pred, Start(st));
            var o, o' := TRun(tf, file, start, n), TRun(tf, file', start, n);
            Next(o) == Next(o') && Together(o.ts, o'.ts) && Consistent(o'.ts, InputOf(file'))
  {
    hide Instrument, TRun, WellFormed, DefsFirst, Aware, SameRounds, Agreeing, Conforms, ExactTrace, InputOf, Next;
    var known, erased := InstrumentAware(f, loops);
    var start := TAt(f.entry, pred, Start(st));
    StartTogether(f.entry, pred, st, known - erased, InputOf(file'));
    RunTogether(Instrument(f, loops), f, known, erased, file, file', start, n);
  }

  lemma StartTogether(l: Label, pred: Label, st: State, usable: set<Id>, input: Input)
    ensures SideBySide(TAt(l, pred, Start(st)), TAt(l, pred, Start(st)), usable, input)
  {
  }

  lemma EqualFlags(log: seq<Constraint>, log': seq<Constraint>)
    requires Flags(log) == Flags(log')
    ensures SameFlags(log, log')
  {
    assert |Flags(log)| == |log| && |Flags(log')| == |log'|;
    forall k | 0 <= k < |log| && k < |log'|
      ensures log[k].taken <==> log'[k].taken
    {
      assert Flags(log)[k] == Flags(log')[k];
    }
  }

  /** The pushed constraints are the path condition. Among comparable inputs, exactly those
      satisfy all constraints of a run on which the original program makes the same decisions
      wherever a decision depends on the input. */
  lemma PathConditionIsExact(f: Function, loops: LoopInfo, file: seq<Byte>, file': seq<Byte>, pred: Label, st: State, n: nat)
    requires WellFormed(f) && DefsFirst(f) && |file| == |file'| && Comparable(f, loops, file, file', pred, st, n)
    ensures var o, start := TRun(Instrument(f, loops), file, TAt(f.entry, pred, Start(st)), n), At(f.entry, pred, st);
            AllTruthful(o.ts.log, InputOf(file')) <==>
            TaintRun(f, loops, file, start, n).flags == TaintRun(f, loops, file', start, n).flags
  {
    hide Instrument, TRun, WellFormed, DefsFirst, SameRounds, AllTruthful, SameFlags, Conforms, ExactTrace, InputOf, Next, TaintRun;
    TaintIsExact(f, loops, file, pred, st, n);
    TaintIsExact(f, loops, file', pred, st, n);
    var tf, start := Instrument(f, loops), TAt(f.entry, pred, Start(st));
    var o, o' := TRun(tf, file, start, n), TRun(tf, file', start, n);
    if Flags(o.ts.log) == Flags(o'.ts.log) { EqualFlags(o.ts.log, o'.ts.log); }
    if Agreeing(o.ts.log, o'.ts.log, InputOf(file')) { SatisfyingInputsReplay(f, loops, file, file', pred, st, n); }
  }
}
