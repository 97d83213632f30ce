/** What a decision pushes: exactly one constraint per branch or select and one per case of
    a switch, and what each of them says about any input. */
module Decisions {
  import opened Bits
  import opened Exprs
  import opened Handlers
  import opened IR
  import opened Symbolizer
  import opened Instrumentation
  import opened Concolic
  import opened ConcolicRuns
  import opened Awareness
  import opened Replays
  import opened ReplayRuns

  /** The condition has an expression, and the code in front of the terminator may push it. */
  predicate Pushing(t: TTerm, here: Label, ts: TState)
  {
    t.visited.Held? && SlotValue(ts.slots, t.slot).Some? && !(t.guarded && here in ts.seen)
  }

  /** A branch on a condition with an expression pushes one constraint, unless it is a loop
      condition that was passed before: the condition's expression, with the direction that
      the branch takes. Nothing else is pushed. */
  lemma BranchPushes(t: TTerm, here: Label, ts: TState)
    requires t.term.CondBr? && !TLeave(t, here, ts).TStuck?
    ensures Read1(ts.st.regs, t.term.cond).Some?
    ensures var v, next := Read1(ts.st.regs, t.term.cond).value, TLeave(t, here, ts);
            next.TAt? && next.block == (if v.bits == 1 then t.term.yes else t.term.no) &&
            next.ts.log == ts.log + (if Pushing(t, here, ts) then [Constraint(SlotValue(ts.slots, t.slot).value, v.bits == 1)] else []) &&
            next.ts.seen == (if t.guarded then ts.seen + {here} else ts.seen)
  {
    hide SlotValue;
  }

  /** A pushed branch condition holds of exactly the inputs that go the same way. */
  lemma BranchConstraintMeans(e: Expr, v: Val, v': Val, input: Input)
    requires v.width == v'.width == 1 && Describes(e, v', input)
    ensures Truthful(Constraint(e, v.bits == 1), input) <==> v' == v
  {
    hide Describes, Denotes;
    BoolDescribed(e, v', input);
    BitOfBool(v.bits);
    BitOfBool(v'.bits);
    if Truthful(Constraint(e, v.bits == 1), input) { OneTruth(e, v.bits == 1, v'.bits == 1, input); }
  }

  lemma {:induction false} CaseConstraintAt(cases: seq<(Val, Label)>, e: Expr, v: Val, k: nat)
    requires k < |cases|
    ensures |CaseConstraints(cases, e, v)| == |cases|
    ensures CaseConstraints(cases, e, v)[k] == Constraint(Compare(Eq, e, ValueExpr(cases[k].0)), v == cases[k].0)
  {
    hide Compare, ValueExpr;
    if k > 0 {
      CaseConstraintAt(cases[1..], e, v, k - 1);
    } else if |cases| > 1 {
      CaseConstraintAt(cases[1..], e, v, 0);
    }
  }

  lemma {:induction false} CaseConstraintCount(cases: seq<(Val, Label)>, e: Expr, v: Val)
    ensures |CaseConstraints(cases, e, v)| == |cases|
  {
    hide Compare, ValueExpr;
    if cases != [] { CaseConstraintCount(cases[1..], e, v); }
  }

  /** A switch on a value with an expression pushes one constraint per case, in order, each
      of which holds of exactly the inputs that agree about that case. */
  lemma SwitchPushes(t: TTerm, here: Label, ts: TState, k: nat, v': Val, input: Input)
    requires t.term.Switch? && !TLeave(t, here, ts).TStuck? && k < |t.term.cases|
    requires t.visited.Held? && SlotValue(ts.slots, t.slot).Some?
    requires Describes(SlotValue(ts.slots, t.slot).value, v', input) && t.term.cases[k].0.width == v'.width
    ensures Read1(ts.st.regs, t.term.cond).Some?
    ensures var v, log, c := Read1(ts.st.regs, t.term.cond).value, TLeave(t, here, ts).ts.log, t.term.cases[k].0;
            |log| == |ts.log| + |t.term.cases| && log[..|ts.log|] == ts.log && log[|ts.log| + k].taken == (v == c) &&
            (Truthful(log[|ts.log| + k], input) <==> (v' == c <==> v == c))
  {
    hide SlotValue, CaseConstraints, CaseTarget, Describes, Denotes, ValueExpr, Compare;
    var cases, e := t.term.cases, SlotValue(ts.slots, t.slot).value;
    var v, c := Read1(ts.st.regs, t.term.cond).value, cases[k].0;
    CaseConstraintAt(cases, e, v, k);
    CaseConstraintCount(cases, e, v);
    CaseTruthful(e, v', c, input);
    SwitchLog(t, here, ts);
    var q := Compare(Eq, e, ValueExpr(c));
    if Truthful(Constraint(q, v == c), input) { OneTruth(q, v == c, v' == c, input); }
  }

  lemma SwitchLog(t: TTerm, here: Label, ts: TState)
    requires t.term.Switch? && !TLeave(t, here, ts).TStuck?
    ensures Read1(ts.st.regs, t.term.cond).Some?
    ensures var e, v := SlotValue(ts.slots, t.slot), Read1(ts.st.regs, t.term.cond).value;
            TLeave(t, here, ts).ts.log == ts.log + if t.visited.Held? && e.Some? then CaseConstraints(t.term.cases, e.value, v) else []
  {
    hide SlotValue, CaseConstraints, CaseTarget;
  }

  /** Exactly the inputs that agree about every case satisfy all constraints of a switch, and
      they take the same case. */
  lemma SwitchConstraintsMean(cases: seq<(Val, Label)>, default: Label, e: Expr, v: Val, v': Val, input: Input)
    requires Describes(e, v', input) && forall k :: 0 <= k < |cases| ==> cases[k].0.width == v'.width
    ensures AllTruthful(CaseConstraints(cases, e, v), input) <==> forall k :: 0 <= k < |cases| ==> (v' == cases[k].0 <==> v == cases[k].0)
    ensures AllTruthful(CaseConstraints(cases, e, v), input) ==> CaseTarget(cases, v', default) == CaseTarget(cases, v, default)
  {
    hide Describes, Denotes, CaseConstraints, CaseTarget, ValueExpr, Compare;
    var cs := CaseConstraints(cases, e, v);
    CaseConstraintCount(cases, e, v);
    forall k | 0 <= k < |cases|
      ensures Truthful(cs[k], input) <==> (v' == cases[k].0 <==> v == cases[k].0)
    {
      var q := Compare(Eq, e, ValueExpr(cases[k].0));
      CaseConstraintAt(cases, e, v, k);
      CaseTruthful(e, v', cases[k].0, input);
      if Truthful(cs[k], input) { OneTruth(q, v == cases[k].0, v' == cases[k].0, input); }
    }
    if AllTruthful(cs, input) { SameCase(cases, default, e, v, v', input); }
  }

  // -------------------------------------------------------------- loop conditions

  /** The block that is about to run ends by pushing its branch condition. */
  predicate PushesAt(tf: TFunction, file: seq<Byte>, o: TOutcome, here: Label)
  {
    o.TAt? && o.block == here && here in tf.blocks && TEnter(tf.blocks[here], o.pred, o.ts).Some? &&
    var end := TExecBody(tf.layout, file, tf.blocks[here].body, TEnter(tf.blocks[here], o.pred, o.ts).value);
    end.Some? && Pushing(tf.blocks[here].term, here, end.value)
  }

  /** How often the branch of a block is pushed within `n` blocks. */
  function TimesPushed(tf: TFunction, file: seq<Byte>, o: TOutcome, here: Label, n: nat): (k: nat)
  {
    if n == 0 then 0 else TimesPushed(tf, file, o, here, n - 1) + if PushesAt(tf, file, TRun(tf, file, o, n - 1), here) then 1 else 0
  }

  lemma SeenStays(tf: TFunction, file: seq<Byte>, o: TOutcome)
    requires !TRunBlock(tf, file, o).TStuck?
    ensures !o.TStuck? && o.ts.seen <= TRunBlock(tf, file, o).ts.seen
    ensures o.TAt? ==> o.block in tf.blocks && (tf.blocks[o.block].term.guarded && tf.blocks[o.block].term.term.CondBr? ==> o.block in TRunBlock(tf, file, o).ts.seen)
  {
    hide TExecBody, TEnter, SlotValue, CaseConstraints, CaseTarget;
    if o.TAt? {
      var b := tf.blocks[o.block];
      EnterParts(b, o.pred, o.ts);
      BodySeen(tf.layout, file, b.body, TEnter(b, o.pred, o.ts).value);
    }
  }

  lemma PushedUnseen(tf: TFunction, file: seq<Byte>, o: TOutcome, here: Label)
    requires PushesAt(tf, file, o, here) && tf.blocks[here].term.guarded
    ensures here !in o.ts.seen
  {
    hide TExecBody, TEnter, SlotValue;
    EnterParts(tf.blocks[here], o.pred, o.ts);
    BodySeen(tf.layout, file, tf.blocks[here].body, TEnter(tf.blocks[here], o.pred, o.ts).value);
  }

  /** A loop condition is pushed at most once in a run, however often the loop goes round. */
  lemma {:induction false} LoopConditionOnce(tf: TFunction, file: seq<Byte>, o: TOutcome, here: Label, n: nat)
    requires here in tf.blocks && tf.blocks[here].term.guarded && tf.blocks[here].term.term.CondBr?
    ensures TimesPushed(tf, file, o, here, n) <= 1
    ensures TimesPushed(tf, file, o, here, n) == 1 && !TRun(tf, file, o, n).TStuck? ==> here in TRun(tf, file, o, n).ts.seen
  {
    hide TRunBlock, PushesAt;
    if n > 0 {
      var p := TRun(tf, file, o, n - 1);
      LoopConditionOnce(tf, file, o, here, n - 1);
      if PushesAt(tf, file, p, here) {
        PushesAtBlock(tf, file, p, here);
        PushedUnseen(tf, file, p, here);
      }
      if !TRun(tf, file, o, n).TStuck? { SeenStays(tf, file, p); }
    }
  }

  lemma PushesAtBlock(tf: TFunction, file: seq<Byte>, o: TOutcome, here: Label)
    requires PushesAt(tf, file, o, here)
    ensures o.TAt? && o.block == here
  {
  }

  /** A branch of a loop's header or latch of which exactly one way stays in the loop is
      pushed at most once, whatever happens in the run. */
  lemma LoopBranchOnce(f: Function, loops: LoopInfo, file: seq<Byte>, pred: Label, st: State, here: Label, n: nat)
    requires WellFormed(f) && here in f.blocks && f.blocks[here].term.CondBr? && here in loops
    requires here == loops[here].header || loops[here].latch == Some(here)
    requires f.blocks[here].term.yes in loops[here].members <==> f.blocks[here].term.no !in loops[here].members
    ensures TimesPushed(Instrument(f, loops), file, TAt(f.entry, pred, Start(st)), here, n) <= 1
  {
    hide Instrument, TimesPushed, WellFormed, TRun;
    InstrumentedTerm(f, loops, here);
    LoopConditionOnce(Instrument(f, loops), file, TAt(f.entry, pred, Start(st)), here, n);
  }

  lemma InstrumentedTerm(f: Function, loops: LoopInfo, here: Label)
    requires WellFormed(f) && here in f.blocks
    ensures here in Instrument(f, loops).blocks && Instrument(f, loops).blocks[here].term.term == f.blocks[here].term
    ensures Instrument(f, loops).blocks[here].term.guarded == IsLoopCondition(loops, here, f.blocks[here].term)
  {
    hide Instrument, WellFormed, IsLoopCondition, FinalPhis, BodySound, TermSound;
    var known, erased := InstrumentSound(f, loops);
    InstrumentGuards(f, loops, here);
    assert BlockVisited(Instrument(f, loops).blocks[here], f.blocks[here]);
  }

  /** Every other branch pushes its condition each time that this has an expression. */
  lemma OtherBranchAlways(f: Function, loops: LoopInfo, here: Label, ts: TState)
    requires WellFormed(f) && here in f.blocks && f.blocks[here].term.CondBr?
    requires here !in loops || (here != loops[here].header && loops[here].latch != Some(here)) ||
             (f.blocks[here].term.yes in loops[here].members <==> f.blocks[here].term.no in loops[here].members)
    ensures here in Instrument(f, loops).blocks
    ensures var t := Instrument(f, loops).blocks[here].term;
            !TLeave(t, here, ts).TStuck? && t.visited.Held? && SlotValue(ts.slots, t.slot).Some? ==>
              |TLeave(t, here, ts).ts.log| == |ts.log| + 1 && TLeave(t, here, ts).ts.log[|ts.log|].e == SlotValue(ts.slots, t.slot).value
  {
    hide Instrument, WellFormed, TLeave, SlotValue;
    InstrumentedTerm(f, loops, here);
    var t := Instrument(f, loops).blocks[here].term;
    if !TLeave(t, here, ts).TStuck? { BranchPushes(t, here, ts); }
  }
}
