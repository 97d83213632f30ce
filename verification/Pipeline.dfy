/** All passes and the runtime together: overflow checks first, then symbolic
    instrumentation, and the pushed constraints go to the logging backend. */
module Pipeline {
  import opened Bits
  import opened Exprs
  import opened IR
  import opened OverflowChecks
  import opened OverflowPass
  import opened OverflowSplit
  import opened OverflowRuns
  import OP = OverflowProgram
  import opened Instrumentation
  import opened Concolic
  import opened ShadowMaps
  import CR = ConcolicRuns
  import QueryLog
  import QM = QueryMeaning
  import AW = Awareness
  import Taints
  import RR = ReplayRuns
  import LO = LayoutOrder
  import TR = TaintRuns

  ghost predicate PhisDistinct(f: Function)
  {
    forall l :: l in f.blocks ==> CR.DistinctPhis(f.blocks[l].phis)
  }

  lemma RenamedDistinct(phis: seq<Phi>, at: Label, base: Label)
    requires CR.DistinctPhis(phis)
    ensures CR.DistinctPhis(RenamePhis(phis, at, base))
  {
    hide RenamePhi;
    forall k | 0 <= k < |phis|
      ensures RenamePhi(phis[k], at, base).id == phis[k].id
    {
      RenameKeepsId(phis[k], at, base);
    }
  }

  lemma SplitPhis(f: Function, at: Label, i: nat, base: Label, next: Id, bounds: Bounds)
    requires Splittable(f, at, i, base, next) && PhisDistinct(f)
    ensures PhisDistinct(Split(f, at, i, base, next, bounds))
  {
    hide Split, FunctionBelow, IsChecked, Checks, Chain, ChainNext, OverflowPass.Emit, RenamePhis, CR.DistinctPhis;
    var f', ts := Split(f, at, i, base, next, bounds), Checks(f.blocks[at].body[i], bounds);
    OP.BlockOrigins(f, at, i, base, next, bounds);
    OP.ChainWithoutPhis(ts, base + 1, next, base);
    NoPhis();
    forall l | l in f.blocks
      ensures CR.DistinctPhis(RenamePhis(f.blocks[l].phis, at, base))
    {
      RenamedDistinct(f.blocks[l].phis, at, base);
    }
  }

  lemma NoPhis()
    ensures CR.DistinctPhis([])
  {
  }

  lemma {:induction false} VisitAllPhis(p: OP.Program, ids: seq<Id>, bounds: Bounds, o: Outcome)
    requires OP.WellFormed(p, p.next) && OP.Start(p, o) && PhisDistinct(p.f)
    ensures PhisDistinct(OP.VisitAll(p, ids, bounds).f)
  {
    hide PhisDistinct, Split, OP.Start, OP.Locate, OP.AfterSplit, Checks, IsChecked, FunctionBelow;
    if ids != [] {
      var pre, id := ids[..|ids| - 1], ids[|ids| - 1];
      var q := OP.VisitAll(p, pre, bounds);
      VisitAllPhis(p, pre, bounds, o);
      OP.VisitAllKeeps(p, pre, bounds, o);
      if OP.Splits(q, id) {
        OP.VisitSplits(q, id, bounds, p.next);
        var (at, i) := OP.Locate(q.f, q.f.order, id).value;
        SplitPhis(q.f, at, i, q.base, q.next, bounds);
      }
    }
  }

  // ------------------------------------------ the checks use ordinary actions only

  /** Actions for which the emitted code is always right. */
  predicate Ordinary(act: Action) { !act.Gep? && !act.Intrinsic? }

  predicate AllOrdinary(body: seq<Instr>) { forall k :: 0 <= k < |body| ==> Ordinary(body[k].act) }

  lemma {:induction false} EmitOrdinary(t: Term, next: Id)
    ensures AllOrdinary(OverflowPass.Emit(t, next).instrs)
  {
    match t
    case Leaf(_) =>
    case Op2(_, a, b, _) =>
      EmitOrdinary(a, next);
      EmitOrdinary(b, OverflowPass.Emit(a, next).next);
    case Rel(_, a, b) =>
      EmitOrdinary(a, next);
      EmitOrdinary(b, OverflowPass.Emit(a, next).next);
    case If(c, a, b) =>
      var cc := OverflowPass.Emit(c, next);
      var ca := OverflowPass.Emit(a, cc.next);
      EmitOrdinary(c, next);
      EmitOrdinary(a, cc.next);
      EmitOrdinary(b, ca.next);
  }

  lemma {:induction false} ChainOrdinary(ts: seq<Term>, here: Label, next: Id, cont: Label)
    ensures forall l :: l in Chain(ts, here, next, cont) ==> AllOrdinary(Chain(ts, here, next, cont)[l].body)
  {
    hide OverflowPass.Emit, AllOrdinary;
    if ts != [] {
      EmitOrdinary(ts[0], next);
      ChainOrdinary(ts[1..], here + 1, OverflowPass.Emit(ts[0], next).next, cont);
    }
  }

  /** All other actions are instructions of the original function. */
  ghost predicate OldActions(f: Function, next: Id)
  {
    forall l, k: nat :: l in f.blocks && k < |f.blocks[l].body| && !Ordinary(f.blocks[l].body[k].act) ==> f.blocks[l].body[k].id < next
  }

  lemma SplitOldActions(f: Function, at: Label, i: nat, base: Label, next: Id, bounds: Bounds, next0: Id)
    requires Splittable(f, at, i, base, next) && OldActions(f, next0)
    ensures OldActions(Split(f, at, i, base, next, bounds), next0)
  {
    hide Split, FunctionBelow, IsChecked, Checks, Chain, ChainNext, OverflowPass.Emit, RenamePhis, BoundCheck;
    var f', ts := Split(f, at, i, base, next, bounds), Checks(f.blocks[at].body[i], bounds);
    OP.BlockOrigins(f, at, i, base, next, bounds);
    ChainOrdinary(ts, base + 1, next, base);
    EmitOrdinary(BoundCheck(ULT, f.blocks[at].body[i].id, bounds.min), ChainNext(ts, next));
  }

  lemma {:induction false} VisitAllOldActions(p: OP.Program, ids: seq<Id>, bounds: Bounds, o: Outcome)
    requires OP.WellFormed(p, p.next) && OP.Start(p, o)
    ensures OldActions(OP.VisitAll(p, ids, bounds).f, p.next)
  {
    hide OldActions, Split, OP.Start, OP.Locate, OP.AfterSplit, Checks, IsChecked, FunctionBelow;
    if ids == [] {
      AllOld(p.f, p.base, p.next);
    } else {
      var pre, id := ids[..|ids| - 1], ids[|ids| - 1];
      var q := OP.VisitAll(p, pre, bounds);
      VisitAllOldActions(p, pre, bounds, o);
      OP.VisitAllKeeps(p, pre, bounds, o);
      if OP.Splits(q, id) {
        OP.VisitSplits(q, id, bounds, p.next);
        var (at, i) := OP.Locate(q.f, q.f.order, id).value;
        SplitOldActions(q.f, at, i, q.base, q.next, bounds, p.next);
      }
    }
  }

  lemma AllOld(f: Function, base: Label, next: Id)
    requires FunctionBelow(f, base, next)
    ensures OldActions(f, next)
  {
    hide PhisBelow, TermLabelsBelow;
    forall l, k: nat | l in f.blocks && k < |f.blocks[l].body| && !Ordinary(f.blocks[l].body[k].act)
      ensures f.blocks[l].body[k].id < next
    {
      assert BlockBelow(f.blocks[l], base, next);
      assert InstrBelow(f.blocks[l].body[k], next);
    }
  }

  lemma {:induction false} OwnMembers(t: seq<Event>, e: Event, next: Id)
    ensures e in Own(t, next) <==> e in t && e.instr.id < next
  {
    if t != [] {
      var n := |t| - 1;
      OwnMembers(t[..n], e, next);
      assert e in t <==> e in t[..n] || e == t[n];
    }
  }

  /** If the original run computed only exact addresses, so does the one with the checks. */
  lemma ExactTransfers(f: Function, l: Layout, t: seq<Event>, t': seq<Event>, next: Id)
    requires OP.FromFunction(f, t') && OldActions(f, next) && Own(t, next) == Own(t', next) && CR.ExactTrace(l, t)
    ensures CR.ExactTrace(l, t')
  {
    hide Own, ExactStep;
    forall k | 0 <= k < |t'|
      ensures ExactStep(l, t'[k].instr.act, t'[k].args)
    {
      var e := t'[k];
      if !Ordinary(e.instr.act) {
        assert OP.HasInstr(f, e.instr);
        OwnMembers(t', e, next);
        OwnMembers(t, e, next);
      } else {
        OtherIsExact(l, e.instr.act, e.args);
      }
    }
  }

  lemma OtherIsExact(l: Layout, act: Action, args: seq<Val>)
    requires Ordinary(act)
    ensures ExactStep(l, act, args)
  {
  }

  /** The calls that the instrumented program makes to the backend; `place` tells where
      in the program each constraint comes from. */
  function CallsOf(log: seq<Constraint>, place: nat -> (string, int, int)): (calls: seq<QueryLog.Call>)
    ensures |calls| == |log|
  {
    seq(|log|, k requires 0 <= k < |log| =>
      QueryLog.Push(Some(log[k].e), log[k].taken, place(k).0, place(k).1, place(k).2))
  }

  lemma CallsTruthful(log: seq<Constraint>, place: nat -> (string, int, int), input: Input)
    requires AllTruthful(log, input)
    ensures QueryLog.TruthfulCalls(CallsOf(log, place), input)
  {
    hide Denotes;
  }

  /** The function with its overflow checks. */
  function WithChecks(p: OP.Program, bounds: Bounds): (f: Function)
  {
    OP.VisitAll(p, OP.Snapshot(p.f, p.f.order), bounds).f
  }

  /** The function as it is finally compiled. */
  function Compiled(p: OP.Program, bounds: Bounds, loops: LoopInfo): (tf: TFunction)
  {
    Instrument(WithChecks(p, bounds), loops)
  }

  /** What the backend makes of a log of constraints: no impossible branch, and a log of
      its own that the input satisfies if and only if every entry was fair. */
  ghost predicate BackendAgrees(log: seq<Constraint>, place: nat -> (string, int, int), simplify: Expr -> Expr, input: Input)
  {
    var calls := CallsOf(log, place);
    var s := QueryLog.RunCalls(calls, simplify);
    !s.impossible &&
    (QueryLog.AllSatisfied(s.log, input) <==> forall k :: 0 <= k < |calls| ==> QueryLog.FairEntry(calls, k, simplify))
  }

  lemma BackendIsSound(log: seq<Constraint>, place: nat -> (string, int, int), simplify: Expr -> Expr, input: Input)
    requires AllTruthful(log, input) && QueryLog.Preserves(simplify, input)
    ensures BackendAgrees(log, place, simplify, input)
  {
    hide QueryLog.Preserves, QueryLog.RunCalls, QueryLog.FairEntry, QueryLog.AllSatisfied, CallsOf;
    CallsTruthful(log, place, input);
    QueryLog.RunSound(CallsOf(log, place), simplify, input);
    QueryLog.WholeLogExactly(CallsOf(log, place), simplify, input);
  }

  /** Every run of a function is followed by its compiled form, which reaches the same
      block in the same state, unless the original is stuck or a checked multiplication
      of -1 by the smallest integer was executed. If the original run has computed no address
      from an index that zero extension changes, every expression of the compiled run is true
      of the input, and the backend sees no impossible branch and logs what it should. */
  lemma CompiledRuns(p: OP.Program, bounds: Bounds, loops: LoopInfo, file: seq<Byte>, pred: Label, st: State, n: nat,
                     simplify: Expr -> Expr, place: nat -> (string, int, int)) returns (m: nat)
    requires OP.WellFormed(p, p.next) && OP.Start(p, At(p.f.entry, pred, st)) && PhisDistinct(p.f)
    requires QueryLog.Preserves(simplify, Concolic.InputOf(file))
    ensures m >= n
    ensures var r := Run(p.f, file, At(p.f.entry, pred, st), n);
            var t := TRun(Compiled(p, bounds, loops), file, TAt(p.f.entry, pred, CR.Start(st)), m);
            if r.Stuck? || OP.Trapping(r.st.trace) then t.TStuck?
            else OP.Agrees(r, CR.Erase(t), p.next) &&
                 (CR.ExactTrace(p.f.layout, r.st.trace) ==>
                    Concolic.Consistent(t.ts, Concolic.InputOf(file)) && BackendAgrees(t.ts.log, place, simplify, Concolic.InputOf(file)))
  {
    hide OP.WellFormed, OP.Start, Run, TRun, Instrument, OP.VisitAll, OP.Snapshot, OP.Trapping, QueryLog.Preserves, BackendAgrees,
         PhisDistinct, Concolic.InputOf, CR.ExactTrace, OldActions, OP.FromFunction, OP.HasInstr, SameRegs, Own,
         RegistersFaithful, Faithful, AllTruthful;
    var o, ids := At(p.f.entry, pred, st), OP.Snapshot(p.f, p.f.order);
    m := OP.OverflowPassPreserves(p, bounds, file, o, n);
    var f' := OP.VisitAll(p, ids, bounds).f;
    OP.VisitAllKeeps(p, ids, bounds, o);
    VisitAllPhis(p, ids, bounds, o);
    PassedWellFormed(OP.VisitAll(p, ids, bounds), p.next);
    CR.ConcolicConsistency(f', loops, file, pred, st, m);
    var r, r' := Run(p.f, file, o, n), Run(f', file, o, m);
    if !r.Stuck? && !OP.Trapping(r.st.trace) && CR.ExactTrace(p.f.layout, r.st.trace) {
      OP.StartAt(p, o);
      VisitAllOldActions(p, ids, bounds, o);
      OP.RunFromFunction(f', file, o, m);
      ExactTransfers(f', p.f.layout, r.st.trace, r'.st.trace, p.next);
      var t := TRun(Compiled(p, bounds, loops), file, TAt(p.f.entry, pred, CR.Start(st)), m);
      BackendIsSound(t.ts.log, place, simplify, Concolic.InputOf(file));
    }
  }

  /** For a function whose indices are pointer-wide or constants that are not negative, this
      needs no condition on the run. */
  lemma CompiledPlainRuns(p: OP.Program, bounds: Bounds, loops: LoopInfo, file: seq<Byte>, pred: Label, st: State, n: nat,
                          simplify: Expr -> Expr, place: nat -> (string, int, int)) returns (m: nat)
    requires OP.WellFormed(p, p.next) && OP.Start(p, At(p.f.entry, pred, st)) && PhisDistinct(p.f) && CR.PlainFunction(p.f)
    requires QueryLog.Preserves(simplify, Concolic.InputOf(file))
    ensures m >= n
    ensures var r := Run(p.f, file, At(p.f.entry, pred, st), n);
            var t := TRun(Compiled(p, bounds, loops), file, TAt(p.f.entry, pred, CR.Start(st)), m);
            if r.Stuck? || OP.Trapping(r.st.trace) then t.TStuck?
            else OP.Agrees(r, CR.Erase(t), p.next) &&
                 Concolic.Consistent(t.ts, Concolic.InputOf(file)) && BackendAgrees(t.ts.log, place, simplify, Concolic.InputOf(file))
  {
    hide OP.WellFormed, Run, TRun, Compiled, OP.Trapping, OP.Agrees, QueryLog.Preserves, BackendAgrees, PhisDistinct, Concolic.InputOf,
         CR.ExactTrace, Concolic.Consistent, CR.PlainFunction;
    m := CompiledRuns(p, bounds, loops, file, pred, st, n, simplify, place);
    OP.StartAt(p, At(p.f.entry, pred, st));
    NothingExecuted(p.f.layout);
    CR.PlainRuns(p.f, file, At(p.f.entry, pred, st), n);
  }

  lemma NothingExecuted(l: Layout)
    ensures CR.ExactTrace(l, [])
  {
  }

  lemma PassedWellFormed(p: OP.Program, next0: Id)
    requires OP.WellFormed(p, next0) && PhisDistinct(p.f)
    ensures CR.WellFormed(p.f)
  {
    hide FunctionBelow, OP.Unique;
  }

  // ------------------------------------------------- what the log says of other inputs

  /** No constraint comes from the string comparison header. */
  predicate SingleBranches(log: seq<Constraint>, place: nat -> (string, int, int))
  {
    forall k :: 0 <= k < |log| ==> !QueryLog.Mentions(place(k).0, QueryLog.STRING_HEADER)
  }

  /** A constraint that simplification decides is true of both inputs or of none. */
  lemma DecidedAlike(c: Constraint, simplify: Expr -> Expr, input: Input, input': Input)
    requires Truthful(c, input) && QueryLog.Preserves(simplify, input) && QueryLog.Preserves(simplify, input') && simplify(c.e).Truth?
    ensures Truthful(c, input')
  {
    assert Denotes(simplify(c.e), Bool, Eval(c.e, input), input);
    assert Denotes(simplify(c.e), Bool, Eval(c.e, input'), input');
  }

  lemma EntryAndConstraint(log: seq<Constraint>, place: nat -> (string, int, int), k: nat, simplify: Expr -> Expr, input: Input)
    requires k < |log| && SingleBranches(log, place) && SortOf(log[k].e) == Some(Bool)
    ensures var calls := CallsOf(log, place)[..k + 1];
            (QM.Writes(calls, simplify) <==> !simplify(log[k].e).Truth?) && (QM.EntryHolds(calls, simplify, input) <==> Truthful(log[k], input))
  {
    hide QueryLog.Mentions, QM.Batch, QM.NoneTaken;
    var calls := CallsOf(log, place)[..k + 1];
    var c := CallsOf(log, place)[k];
    assert calls[|calls| - 1] == c && c == QueryLog.Push(Some(log[k].e), log[k].taken, place(k).0, place(k).1, place(k).2);
    assert !QueryLog.FromStringHeader(c);
  }

  /** The backend's log of single branches is satisfied by exactly the inputs that satisfy
      the constraints it was written for. */
  lemma QueriesAreConstraints(log: seq<Constraint>, place: nat -> (string, int, int), simplify: Expr -> Expr, input: Input, input': Input)
    requires AllTruthful(log, input) && SingleBranches(log, place)
    requires QueryLog.Preserves(simplify, input) && QueryLog.Preserves(simplify, input')
    ensures QueryLog.AllSatisfied(QueryLog.RunCalls(CallsOf(log, place), simplify).log, input') <==> AllTruthful(log, input')
  {
    hide QueryLog.Preserves, QueryLog.RunCalls, QueryLog.Satisfied, SingleBranches, Truthful, QM.Writes, QM.EntryHolds, QM.Written, CallsOf;
    var calls := CallsOf(log, place);
    var queries := QueryLog.RunCalls(calls, simplify).log;
    LogIsBoolean(log, place, input);
    QM.LogMeans(calls, simplify, input');
    forall k | 0 <= k < |log|
      ensures QM.Writes(calls[..k + 1], simplify) <==> !simplify(log[k].e).Truth?
      ensures QM.EntryHolds(calls[..k + 1], simplify, input') <==> Truthful(log[k], input')
      ensures simplify(log[k].e).Truth? ==> Truthful(log[k], input')
    {
      ConstraintSort(log[k], input);
      EntryAndConstraint(log, place, k, simplify, input');
      if simplify(log[k].e).Truth? { DecidedAlike(log[k], simplify, input, input'); }
    }
    if AllTruthful(log, input') {
      forall j | 0 <= j < |queries|
        ensures QueryLog.Satisfied(queries[j], input')
      {
        var k := QM.WriterOf(calls, simplify, j);
        assert QM.EntryHolds(calls[..k + 1], simplify, input') <==> Truthful(log[k], input');
      }
    }
    if QueryLog.AllSatisfied(queries, input') {
      forall k | 0 <= k < |log|
        ensures Truthful(log[k], input')
      {
        if !simplify(log[k].e).Truth? { assert QueryLog.Satisfied(queries[QM.Written(calls[..k], simplify)], input'); }
      }
    }
  }

  lemma ConstraintSort(c: Constraint, input: Input)
    requires Truthful(c, input)
    ensures SortOf(c.e) == Some(Bool)
  {
  }

  lemma LogIsBoolean(log: seq<Constraint>, place: nat -> (string, int, int), input: Input)
    requires AllTruthful(log, input)
    ensures QM.BooleanCalls(CallsOf(log, place))
  {
    hide Eval;
    forall k | 0 <= k < |log|
      ensures QM.Boolean(CallsOf(log, place)[k])
    {
      assert Truthful(log[k], input);
    }
  }

  /** The log is the path condition. Among inputs comparable to the actual one, exactly those
      satisfy every query that the backend has logged on which the original program makes the
      same decisions wherever a decision depends on the input. */
  lemma QueriesArePathCondition(f: Function, loops: LoopInfo, file: seq<Byte>, file': seq<Byte>, pred: Label, st: State, n: nat,
                                simplify: Expr -> Expr, place: nat -> (string, int, int))
    requires CR.WellFormed(f) && AW.DefsFirst(f) && |file| == |file'| && RR.Comparable(f, loops, file, file', pred, st, n)
    requires CR.ExactTrace(f.layout, TRun(Instrument(f, loops), file, TAt(f.entry, pred, CR.Start(st)), n).ts.st.trace)
    requires QueryLog.Preserves(simplify, Concolic.InputOf(file)) && QueryLog.Preserves(simplify, Concolic.InputOf(file'))
    requires SingleBranches(TRun(Instrument(f, loops), file, TAt(f.entry, pred, CR.Start(st)), n).ts.log, place)
    ensures var o, start := TRun(Instrument(f, loops), file, TAt(f.entry, pred, CR.Start(st)), n), At(f.entry, pred, st);
            QueryLog.AllSatisfied(QueryLog.RunCalls(CallsOf(o.ts.log, place), simplify).log, Concolic.InputOf(file')) <==>
            Taints.TaintRun(f, loops, file, start, n).flags == Taints.TaintRun(f, loops, file', start, n).flags
  {
    hide CR.WellFormed, AW.DefsFirst, TRun, Run, Instrument, CR.ExactTrace, QueryLog.Preserves, SingleBranches, QueryLog.RunCalls, CallsOf,
         QueryLog.AllSatisfied, Taints.TaintRun, Concolic.InputOf, AllTruthful, RegistersFaithful, Faithful, RR.SameRounds;
    var o := TRun(Instrument(f, loops), file, TAt(f.entry, pred, CR.Start(st)), n);
    CR.ConcolicConsistency(f, loops, file, pred, st, n);
    QueriesAreConstraints(o.ts.log, place, simplify, Concolic.InputOf(file), Concolic.InputOf(file'));
    RR.PathConditionIsExact(f, loops, file, file', pred, st, n);
  }

  /** The overflow checker leaves a function that the second pass handles precisely. */
  lemma ChecksQualify(p: OP.Program, bounds: Bounds, o: Outcome)
    requires OP.WellFormed(p, p.next) && OP.Start(p, o) && PhisDistinct(p.f) && AW.DefsFirst(p.f) && LO.Listed(p.f, p.f.order)
    ensures CR.WellFormed(WithChecks(p, bounds)) && AW.DefsFirst(WithChecks(p, bounds)) && WithChecks(p, bounds).entry == p.f.entry
  {
    hide OP.WellFormed, OP.Start, OP.VisitAll, OP.Snapshot, PhisDistinct, AW.DefsFirst, LO.Listed, CR.WellFormed;
    var ids := OP.Snapshot(p.f, p.f.order);
    OP.VisitAllKeeps(p, ids, bounds, o);
    VisitAllPhis(p, ids, bounds, o);
    PassedWellFormed(OP.VisitAll(p, ids, bounds), p.next);
    LO.PassDefsFirst(p, ids, bounds, o);
  }

  /** Both passes together are precise: the compiled program has expressions and has pushed
      constraints, those of the inserted checks included, exactly where the function with its
      checks depends on the input. */
  lemma CompiledIsPrecise(p: OP.Program, bounds: Bounds, loops: LoopInfo, file: seq<Byte>, pred: Label, st: State, n: nat)
    requires OP.WellFormed(p, p.next) && OP.Start(p, At(p.f.entry, pred, st)) && PhisDistinct(p.f)
    requires AW.DefsFirst(p.f) && LO.Listed(p.f, p.f.order)
    ensures var t := TRun(Compiled(p, bounds, loops), file, TAt(p.f.entry, pred, CR.Start(st)), n);
            t.TStuck? || TR.Exactly(t.ts, Taints.TaintRun(WithChecks(p, bounds), loops, file, At(p.f.entry, pred, st), n))
  {
    hide OP.WellFormed, OP.Start, TRun, Instrument, OP.VisitAll, OP.Snapshot, PhisDistinct, AW.DefsFirst, LO.Listed, CR.WellFormed,
         Taints.TaintRun, TR.Exactly;
    ChecksQualify(p, bounds, At(p.f.entry, pred, st));
    TR.TaintIsExact(WithChecks(p, bounds), loops, file, pred, st, n);
  }

  /** And the log of the backend is the path condition of the function with its checks. */
  lemma CompiledPathCondition(p: OP.Program, bounds: Bounds, loops: LoopInfo, file: seq<Byte>, file': seq<Byte>, pred: Label, st: State, n: nat,
                              simplify: Expr -> Expr, place: nat -> (string, int, int))
    requires OP.WellFormed(p, p.next) && OP.Start(p, At(p.f.entry, pred, st)) && PhisDistinct(p.f)
    requires AW.DefsFirst(p.f) && LO.Listed(p.f, p.f.order)
    requires |file| == |file'| && RR.Comparable(WithChecks(p, bounds), loops, file, file', pred, st, n)
    requires CR.ExactTrace(WithChecks(p, bounds).layout,
                           TRun(Compiled(p, bounds, loops), file, TAt(WithChecks(p, bounds).entry, pred, CR.Start(st)), n).ts.st.trace)
    requires QueryLog.Preserves(simplify, Concolic.InputOf(file)) && QueryLog.Preserves(simplify, Concolic.InputOf(file'))
    requires SingleBranches(TRun(Compiled(p, bounds, loops), file, TAt(WithChecks(p, bounds).entry, pred, CR.Start(st)), n).ts.log, place)
    ensures var f, start := WithChecks(p, bounds), At(p.f.entry, pred, st);
            var t := TRun(Compiled(p, bounds, loops), file, TAt(f.entry, pred, CR.Start(st)), n);
            QueryLog.AllSatisfied(QueryLog.RunCalls(CallsOf(t.ts.log, place), simplify).log, Concolic.InputOf(file')) <==>
            Taints.TaintRun(f, loops, file, start, n).flags == Taints.TaintRun(f, loops, file', start, n).flags
  {
    hide OP.WellFormed, OP.Start, TRun, Instrument, OP.VisitAll, OP.Snapshot, PhisDistinct, AW.DefsFirst, LO.Listed, CR.WellFormed,
         Taints.TaintRun, CR.ExactTrace, QueryLog.Preserves, SingleBranches, QueryLog.RunCalls, CallsOf, QueryLog.AllSatisfied, Concolic.InputOf,
         RR.SameRounds;
    ChecksQualify(p, bounds, At(p.f.entry, pred, st));
    QueriesArePathCondition(WithChecks(p, bounds), loops, file, file', pred, st, n, simplify, place);
  }

  /** A function to which the theorems apply: it adds two constants and returns. */
  const SAMPLE: OP.Program :=
    OP.Program(Function(Layout(64, true, 0), 0, [0],
                        map[0 := Block([], [Instr(0, BinOp(IAdd, Imm(Value(0, 32)), Imm(Value(0, 32)), 32))], Ret)]), 2, 1)

  lemma SampleQualifies(mem: map<nat, Byte>)
    ensures OP.WellFormed(SAMPLE, SAMPLE.next) && OP.Start(SAMPLE, At(0, 1, State(map[], mem, 0, []))) && PhisDistinct(SAMPLE.f)
    ensures OP.Splits(SAMPLE, 0) && AW.DefsFirst(SAMPLE.f) && LO.Listed(SAMPLE.f, SAMPLE.f.order)
  {
    var i := SAMPLE.f.blocks[0].body[0];
    assert Operands(i.act) == [Imm(Value(0, 32)), Imm(Value(0, 32))];
    assert InstrBelow(i, 1);
    var b := SAMPLE.f.blocks[0];
    assert AW.PhiIds([]) == {} && AW.BodyIds([]) == {} && AW.BodyIds(b.body) == {0};
    assert AW.BodyReady([], {0}, {0}) && AW.BodyReady(b.body, {}, {0});
    assert AW.DefinedIn(SAMPLE.f, [0]) == {0} + AW.DefinedIn(SAMPLE.f, []);
    assert AW.BlockReady(b, {}, {0});
    assert AW.Ready(SAMPLE.f, [], {0}, {0});
  }
}
