/** Which values and bytes depend on the input, and which decisions do: a semantics of
    the original program that knows nothing of emitted code. It says exactly where the
    instrumented program has expressions and what it pushes. */
module Taints {
  import opened Bits
  import opened ShadowMaps
  import opened IR
  import opened Instrumentation

  /** Marked values and bytes, the loop conditions passed so far, and the directions of
      the marked decisions. */
  datatype Taint = Taint(regs: set<Id>, mem: set<nat>, seen: set<Label>, flags: seq<bool>)

  function Marks(os: seq<Operand>, regs: set<Id>): (ms: seq<bool>)
    ensures |ms| == |os| && forall k :: 0 <= k < |os| ==> (ms[k] <==> os[k].Reg? && os[k].id in regs)
  {
    seq(|os|, k requires 0 <= k < |os| => os[k].Reg? && os[k].id in regs)
  }

  predicate AnyMark(ms: seq<bool>) { exists k :: 0 <= k < |ms| && ms[k] }

  /** Some byte of a range is marked. */
  predicate AnyByte(mem: set<nat>, a: nat, n: nat) { exists x :: a <= x < a + n && x in mem }

  /** Computed values are marked if an operand is, loaded ones if a byte is, and a select
      takes the mark of the arm it chooses. */
  predicate ResultMark(act: Action, args: seq<Val>, ms: seq<bool>, mem: set<nat>)
    requires |args| == |ms| == |Operands(act)|
  {
    match act
    case BinOp(_, _, _, _) => AnyMark(ms)
    case ICmp(_, _, _) => AnyMark(ms)
    case Cast(_, _, _, _) => AnyMark(ms)
    case Gep(_, _) => AnyMark(ms)
    case Intrinsic(_, _, _, _) => AnyMark(ms)
    case Select(_, _, _) => if args[0].bits == 1 then ms[1] else ms[2]
    case LoadI(_, w) => AnyByte(mem, args[0].bits, StoreSize(w))
    case _ => false
  }

  function SetRange(mem: set<nat>, a: nat, n: nat, mark: bool): (r: set<nat>)
  {
    if mark then mem + Span(a, n) else mem - Span(a, n)
  }

  function MemoryMarks(act: Action, args: seq<Val>, ms: seq<bool>, mem: set<nat>, read: nat): (r: set<nat>)
    requires |args| == |ms| == |Operands(act)|
  {
    match act
    case StoreI(_, _, w) => SetRange(mem, args[0].bits, StoreSize(w), ms[1])
    case MemMoveI(_, _, _) => set x | x in mem + Span(args[0].bits, args[2].bits) && Origin(x, args[0].bits, args[1].bits, args[2].bits) in mem
    case MemSetI(_, _, _) => SetRange(mem, args[0].bits, args[2].bits, ms[1])
    case ReadInput(_, _) => SetRange(mem, args[0].bits, read, true)
    case _ => mem
  }

  function DecisionMarks(act: Action, args: seq<Val>, ms: seq<bool>): (flags: seq<bool>)
    requires |args| == |ms| == |Operands(act)|
  {
    if act.Select? && ms[0] then [args[0].bits == 1] else []
  }

  function SetMark(regs: set<Id>, id: Id, mark: bool): (r: set<Id>) { if mark then regs + {id} else regs - {id} }

  /** One instruction; the operands and the effect are those of the original machine. */
  function TaintInstr(act: Action, id: Id, args: seq<Val>, eff: Effect, pos: nat, t: Taint): (r: Taint)
    requires |args| == |Operands(act)|
  {
    var ms := Marks(Operands(act), t.regs);
    t.(regs := if eff.result.None? then t.regs else SetMark(t.regs, id, ResultMark(act, args, ms, t.mem)),
       mem := MemoryMarks(act, args, ms, t.mem, if eff.pos >= pos then eff.pos - pos else 0),
       flags := t.flags + DecisionMarks(act, args, ms))
  }

  function TaintExec(l: Layout, file: seq<Byte>, i: Instr, st: State, t: Taint): (r: Taint)
  {
    var args := ReadAll(st.regs, Operands(i.act));
    if args.None? then t else
    var eff := Perform(l, file, i.act, args.value, st);
    if eff.None? then t else TaintInstr(i.act, i.id, args.value, eff.value, st.pos, t)
  }

  function TaintBody(l: Layout, file: seq<Byte>, body: seq<Instr>, st: State, t: Taint): (r: Taint)
  {
    if body == [] then t
    else
      var next := Exec(l, file, body[0], st);
      if next.None? then t else TaintBody(l, file, body[1..], next.value, TaintExec(l, file, body[0], st, t))
  }

  /** The marks of PHI nodes, all read before any is written. */
  function PhiMarks(phis: seq<Phi>, pred: Label, regs: set<Id>): (r: set<Id>)
  {
    if phis == [] then {}
    else
      SetMark(PhiMarks(phis[1..], pred, regs), phis[0].id,
              pred in phis[0].incoming && phis[0].incoming[pred].Reg? && phis[0].incoming[pred].id in regs)
  }

  function PhiKeys(phis: seq<Phi>): (r: set<Id>)
  {
    if phis == [] then {} else {phis[0].id} + PhiKeys(phis[1..])
  }

  function TaintEnter(b: Block, pred: Label, t: Taint): (r: Taint)
  {
    t.(regs := (t.regs - PhiKeys(b.phis)) + PhiMarks(b.phis, pred, t.regs))
  }

  function CaseFlags(cases: seq<(Val, Label)>, v: Val): (flags: seq<bool>)
    ensures |flags| == |cases| && forall k :: 0 <= k < |cases| ==> (flags[k] <==> v == cases[k].0)
  {
    seq(|cases|, k requires 0 <= k < |cases| => v == cases[k].0)
  }

  predicate Marked(o: Operand, regs: set<Id>) { o.Reg? && o.id in regs }

  /** A branch is one decision, except that a loop condition counts the first time only; a
      switch is one decision for each of its cases. */
  function TaintLeave(loops: LoopInfo, here: Label, term: Terminator, st: State, t: Taint): (r: Taint)
  {
    match term
    case CondBr(c, _, _) =>
      var v, guarded := Read1(st.regs, c), IsLoopCondition(loops, here, term);
      if guarded && here in t.seen then t
      else
        t.(seen := if guarded then t.seen + {here} else t.seen,
           flags := if v.Some? && Marked(c, t.regs) then t.flags + [v.value.bits == 1] else t.flags)
    case Switch(c, cases, _) =>
      var v := Read1(st.regs, c);
      if v.Some? && Marked(c, t.regs) then t.(flags := t.flags + CaseFlags(cases, v.value)) else t
    case _ => t
  }

  function TaintBlock(f: Function, loops: LoopInfo, file: seq<Byte>, o: Outcome, t: Taint): (r: Taint)
  {
    if !o.At? || o.block !in f.blocks then t
    else
      var b := f.blocks[o.block];
      var entered := EnterBlock(b, o.pred, o.st);
      if entered.None? then t else
      var st, t' := ExecBody(f.layout, file, b.body, entered.value), TaintBody(f.layout, file, b.body, entered.value, TaintEnter(b, o.pred, t));
      if st.None? then t' else TaintLeave(loops, o.block, b.term, st.value, t')
  }

  /** The marks after `n` blocks of the original run; nothing is marked at the start. */
  function TaintRun(f: Function, loops: LoopInfo, file: seq<Byte>, o: Outcome, n: nat): (t: Taint)
  {
    if n == 0 then Taint({}, {}, {}, [])
    else TaintBlock(f, loops, file, Run(f, file, o, n - 1), TaintRun(f, loops, file, o, n - 1))
  }
}
