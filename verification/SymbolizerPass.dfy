/** The compiler pass as it runs: a visitor that records which values have an
    expression, the finalisation of PHI nodes, and the planning of the checks in
    front of each computation; each proved to compute its specification. */
module SymbolizerPass {
  import opened Exprs
  import opened IR
  import opened Symbolizer
  import opened Instrumentation

  // ------------------------------------------------------------------- lemmas

  lemma {:induction false} VisitBodySnoc(l: Layout, body: seq<Instr>, k: nat, known: set<Id>)
    requires k < |body|
    ensures var (front, mid) := VisitBody(l, body[..k], known);
            var (ti, end) := VisitInstr(l, body[k], mid);
            VisitBody(l, body[..k + 1], known) == (front + [ti], end)
  {
    hide VisitInstr;
    if k == 0 {
      var (ti, end) := VisitInstr(l, body[0], known);
      assert body[..1][1..] == [];
      assert VisitBody(l, [], end) == ([], end);
      assert [ti] + [] == [] + [ti];
    } else {
      var (ti, mid) := VisitInstr(l, body[0], known);
      VisitBodySnoc(l, body[1..], k - 1, mid);
      assert body[1..][..k - 1] == body[..k][1..];
      assert body[1..][..k] == body[..k + 1][1..];
      var (front, end) := VisitBody(l, body[1..][..k - 1], mid);
      var (last, final) := VisitInstr(l, body[k], end);
      assert [ti] + (front + [last]) == ([ti] + front) + [last];
    }
  }

  lemma {:induction false} ErasedOfBoth(a: seq<Phi>, b: seq<Phi>, known: set<Id>)
    ensures ErasedPhis(a + b, known) == ErasedPhis(a, known) + ErasedPhis(b, known)
  {
    hide OnlyConstants;
    if a == [] {
      assert a + b == b;
    } else {
      assert (a + b)[1..] == a[1..] + b;
      ErasedOfBoth(a[1..], b, known);
    }
  }

  /** The PHI nodes in the order in which they are visited. */
  function PhiNodes(f: Function, order: seq<Label>): (phis: seq<Phi>)
  {
    if order == [] then []
    else (if order[0] in f.blocks then f.blocks[order[0]].phis else []) + PhiNodes(f, order[1..])
  }

  lemma {:induction false} ErasedEverywhere(f: Function, blocks: map<Label, TBlock>, order: seq<Label>, known: set<Id>)
    requires forall l :: l in order ==> (l in blocks <==> l in f.blocks)
    requires forall l :: l in order && l in blocks ==> blocks[l].phis == f.blocks[l].phis
    ensures AllErased(blocks, order, known) == ErasedPhis(PhiNodes(f, order), known)
  {
    hide ErasedPhis;
    if order == [] {
      NothingErased(known);
    } else {
      ErasedEverywhere(f, blocks, order[1..], known);
      var here := if order[0] in f.blocks then f.blocks[order[0]].phis else [];
      ErasedOfBoth(here, PhiNodes(f, order[1..]), known);
      NothingErased(known);
    }
  }

  lemma NothingErased(known: set<Id>)
    ensures ErasedPhis([], known) == {}
  {
  }

  lemma {:induction false} VisitedBlocks(f: Function, loops: LoopInfo, order: seq<Label>, known: set<Id>)
    ensures var blocks := VisitBlocks(f, loops, order, known).0;
            (forall l :: l in order ==> (l in blocks <==> l in f.blocks)) &&
            (forall l :: l in blocks ==> l in f.blocks && blocks[l].phis == f.blocks[l].phis)
  {
    hide VisitBody, VisitTerm, VisitPhis;
    if order != [] {
      if order[0] in f.blocks {
        VisitedBlocks(f, loops, order[1..], VisitBlock(f.layout, loops, order[0], f.blocks[order[0]], known).1);
      } else {
        VisitedBlocks(f, loops, order[1..], known);
      }
    }
  }

  lemma {:induction false} VisitPhisSnoc(phis: seq<Phi>, k: nat, known: set<Id>)
    requires k < |phis|
    ensures VisitPhis(phis[..k + 1], known) == VisitPhis(phis[..k], known) + {phis[k].id}
  {
    if k == 0 {
      assert phis[..1][1..] == [];
      assert VisitPhis([], known + {phis[0].id}) == known + {phis[0].id};
    } else {
      assert phis[..k + 1][1..] == phis[1..][..k] && phis[..k][1..] == phis[1..][..k - 1];
      VisitPhisSnoc(phis[1..], k - 1, known + {phis[0].id});
    }
  }

  lemma {:induction false} ErasedSnoc(phis: seq<Phi>, k: nat, known: set<Id>)
    requires k < |phis|
    ensures ErasedPhis(phis[..k + 1], known) == ErasedPhis(phis[..k], known) + if OnlyConstants(phis[k], known) then {phis[k].id} else {}
  {
    hide OnlyConstants;
    assert phis[..k + 1] == phis[..k] + [phis[k]];
    ErasedOfBoth(phis[..k], [phis[k]], known);
    assert [phis[k]][1..] == [];
    NothingErased(known);
  }

  // ------------------------------------------------------------------- the pass

  class Pass {
    /** Values with an entry in the map of symbolic expressions. */
    var symbolicExpressions: set<Id>
    var phiNodes: seq<Phi>
    var blocks: map<Label, TBlock>

    constructor ()
      ensures symbolicExpressions == {} && phiNodes == [] && blocks == map[]
    {
      symbolicExpressions, phiNodes, blocks := {}, [], map[];
    }

    method VisitPHINodes(phis: seq<Phi>)
      modifies this`symbolicExpressions, this`phiNodes
      ensures symbolicExpressions == VisitPhis(phis, old(symbolicExpressions)) && phiNodes == old(phiNodes) + phis
    {
      hide VisitPhis;
      NoPhisVisited(symbolicExpressions);
      for k := 0 to |phis|
        invariant symbolicExpressions == VisitPhis(phis[..k], old(symbolicExpressions))
        invariant phiNodes == old(phiNodes) + phis[..k]
      {
        VisitPhisSnoc(phis, k, old(symbolicExpressions));
        symbolicExpressions := symbolicExpressions + {phis[k].id};
        phiNodes := phiNodes + [phis[k]];
      }
      assert phis[..|phis|] == phis;
    }

    method Visit(l: Layout, i: Instr) returns (ti: TInstr)
      modifies this`symbolicExpressions
      ensures (ti, symbolicExpressions) == VisitInstr(l, i, old(symbolicExpressions))
    {
      var slots := SlotsOf(symbolicExpressions, Operands(i.act));
      ti := TInstr(i, slots, slots);
      if Registers(i.act, Code(l, i.act, slots)) {
        symbolicExpressions := symbolicExpressions + {i.id};
      }
    }

    method VisitInstructions(l: Layout, body: seq<Instr>) returns (r: seq<TInstr>)
      modifies this`symbolicExpressions
      ensures (r, symbolicExpressions) == VisitBody(l, body, old(symbolicExpressions))
    {
      hide VisitInstr, VisitBody;
      r := [];
      NothingVisited(l, symbolicExpressions);
      for k := 0 to |body|
        invariant (r, symbolicExpressions) == VisitBody(l, body[..k], old(symbolicExpressions))
      {
        VisitBodySnoc(l, body, k, old(symbolicExpressions));
        var ti := Visit(l, body[k]);
        r := r + [ti];
      }
      assert body[..|body|] == body;
    }

    method VisitBasicBlock(l: Layout, loops: LoopInfo, here: Label, b: Block)
      modifies this
      ensures var (tb, known) := VisitBlock(l, loops, here, b, old(symbolicExpressions));
              blocks == old(blocks)[here := tb] && symbolicExpressions == known
      ensures phiNodes == old(phiNodes) + b.phis
    {
      hide VisitBody, VisitPhis, VisitTerm;
      VisitPHINodes(b.phis);
      var body := VisitInstructions(l, b.body);
      blocks := blocks[here := TBlock(b.phis, [], body, VisitTerm(loops, here, b.term, symbolicExpressions))];
    }

    /** PHI nodes that receive no expression are replaced by null wherever they are used;
        the others get their inputs. */
    method FinalizePHINodes()
      modifies this
      ensures var known := old(symbolicExpressions);
              var erased := ErasedPhis(old(phiNodes), known);
              blocks.Keys == old(blocks.Keys) && forall l :: l in blocks ==> blocks[l] == FinalBlock(old(blocks)[l], known, erased)
      ensures symbolicExpressions == {}
    {
      hide ErasedPhis, FinalBlock, OnlyConstants;
      var nodesToErase: set<Id> := {};
      NothingErased(symbolicExpressions);
      for k := 0 to |phiNodes|
        invariant phiNodes == old(phiNodes) && symbolicExpressions == old(symbolicExpressions) && blocks == old(blocks)
        invariant k <= |phiNodes| && nodesToErase == ErasedPhis(phiNodes[..k], symbolicExpressions)
      {
        ErasedSnoc(phiNodes, k, symbolicExpressions);
        if OnlyConstants(phiNodes[k], symbolicExpressions) {
          nodesToErase := nodesToErase + {phiNodes[k].id};
        }
      }
      assert phiNodes[..|phiNodes|] == phiNodes;
      blocks := map l | l in blocks :: FinalBlock(blocks[l], symbolicExpressions, nodesToErase);
      symbolicExpressions := {};
    }

    method VisitFunction(f: Function, loops: LoopInfo)
      requires symbolicExpressions == {} && phiNodes == [] && blocks == map[]
      modifies this
      ensures (blocks, symbolicExpressions) == VisitBlocks(f, loops, f.order, {}) && phiNodes == PhiNodes(f, f.order)
    {
      hide VisitBlock, VisitBlocks;
      var order := f.order;
      ghost var (all, known) := VisitBlocks(f, loops, order, {});
      assert order[0..] == order;
      assert map[] + all == all;
      for k := 0 to |order|
        invariant Remaining(f, loops, order[k..], blocks, symbolicExpressions, all, known)
        invariant phiNodes + PhiNodes(f, order[k..]) == PhiNodes(f, order)
      {
        VisitNext(f, loops, order, k, blocks, symbolicExpressions, all, known);
        if order[k] in f.blocks {
          VisitBasicBlock(f.layout, loops, order[k], f.blocks[order[k]]);
        }
      }
      assert order[|order|..] == [];
      NoneRemaining(f, loops, blocks, symbolicExpressions, all, known);
    }

    /** Visits all instructions in order, then finalises. */
    method InstrumentFunction(f: Function, loops: LoopInfo) returns (tf: TFunction)
      requires symbolicExpressions == {} && phiNodes == [] && blocks == map[]
      modifies this
      ensures tf == Instrument(f, loops)
    {
      hide VisitBlocks, ErasedPhis, FinalBlock, AllErased;
      VisitFunction(f, loops);
      VisitedBlocks(f, loops, f.order, {});
      ErasedEverywhere(f, blocks, f.order, symbolicExpressions);
      FinalizePHINodes();
      tf := TFunction(f.layout, f.entry, blocks);
    }
  }

  /** What is still to be visited completes what has been. */
  ghost predicate Remaining(f: Function, loops: LoopInfo, order: seq<Label>, blocks: map<Label, TBlock>, known: set<Id>,
                            all: map<Label, TBlock>, final: set<Id>)
  {
    var r := VisitBlocks(f, loops, order, known);
    blocks + r.0 == all && r.1 == final
  }

  lemma VisitNext(f: Function, loops: LoopInfo, order: seq<Label>, k: nat, blocks: map<Label, TBlock>, known: set<Id>,
                  all: map<Label, TBlock>, final: set<Id>)
    requires k < |order| && Remaining(f, loops, order[k..], blocks, known, all, final)
    ensures order[k] !in f.blocks ==> Remaining(f, loops, order[k + 1..], blocks, known, all, final)
    ensures order[k] in f.blocks ==>
              var (tb, mid) := VisitBlock(f.layout, loops, order[k], f.blocks[order[k]], known);
              Remaining(f, loops, order[k + 1..], blocks[order[k] := tb], mid, all, final)
    ensures PhiNodes(f, order[k..]) == (if order[k] in f.blocks then f.blocks[order[k]].phis else []) + PhiNodes(f, order[k + 1..])
  {
    hide VisitBlock;
    assert order[k..][1..] == order[k + 1..];
    if order[k] in f.blocks {
      var (tb, mid) := VisitBlock(f.layout, loops, order[k], f.blocks[order[k]], known);
      var rest := VisitBlocks(f, loops, order[k + 1..], mid).0;
      assert blocks[order[k] := tb] + rest == blocks + (map[order[k] := tb] + rest);
    }
  }

  lemma NoneRemaining(f: Function, loops: LoopInfo, blocks: map<Label, TBlock>, known: set<Id>, all: map<Label, TBlock>, final: set<Id>)
    requires Remaining(f, loops, [], blocks, known, all, final)
    ensures blocks == all && known == final
  {
  }

  lemma NoPhisVisited(known: set<Id>)
    ensures VisitPhis([], known) == known
  {
  }

  lemma NothingVisited(l: Layout, known: set<Id>)
    ensures VisitBody(l, [], known) == ([], known)
  {
  }

  // ---------------------------------------------------------- planning the checks

  /** The loop over the inputs of a computation: count those of unknown concreteness,
      then decide for each input whether to keep it, check it, or build it. */
  method PlanInputs(c: Computation, slots: seq<Slot>) returns (plans: seq<Plan>)
    ensures |plans| == |Inputs(c)|
    ensures forall i :: 0 <= i < |plans| ==> plans[i] == PlanFor(StaticSlot(Inputs(c)[i], slots), CountUnknown(Inputs(c), slots))
  {
    var inputs := Inputs(c);
    var unknown := 0;
    for i := 0 to |inputs|
      invariant unknown == CountUnknown(inputs[..i], slots)
    {
      assert inputs[..i + 1][..i] == inputs[..i];
      if StaticSlot(inputs[i], slots).Held? { unknown := unknown + 1; }
    }
    assert inputs[..|inputs|] == inputs;
    plans := [];
    for i := 0 to |inputs|
      invariant |plans| == i
      invariant forall j :: 0 <= j < i ==> plans[j] == PlanFor(StaticSlot(inputs[j], slots), unknown)
    {
      var needRuntimeCheck := StaticSlot(inputs[i], slots).Held?;
      if needRuntimeCheck && unknown == 1 {
        plans := plans + [Keep];
      } else if needRuntimeCheck {
        plans := plans + [Check];
      } else {
        plans := plans + [Build];
      }
    }
  }

  /** The emitted conjunction of null checks: whether the computation can be skipped. */
  method AllInputsNull(c: Computation, syms: seq<SymExpr>) returns (allConcrete: bool)
    ensures allConcrete <==> AllConcrete(c, syms)
  {
    var inputs := Inputs(c);
    allConcrete := true;
    for i := 0 to |inputs|
      invariant allConcrete <==> forall j :: 0 <= j < i ==> DynamicOperand(inputs[j], syms) == None
    {
      allConcrete := allConcrete && DynamicOperand(inputs[i], syms) == None;
    }
  }

  /** The loop over the indices of an address computation. */
  method BuildAddress(steps: seq<Step>, ptrBits: nat) returns (computation: Computation)
    ensures computation == GepChain(Itself(), steps, 1, ptrBits)
  {
    hide Scale, Merge;
    computation := Itself();
    var operand := 1;
    assert steps[0..] == steps;
    for i := 0 to |steps|
      invariant operand >= 1 && GepChain(computation, steps[i..], operand, ptrBits) == GepChain(Itself(), steps, 1, ptrBits)
    {
      assert steps[i..][1..] == steps[i + 1..];
      match steps[i] {
        case Field(_, off) =>
          computation := Merge(computation, Call(BuildArith(Add), Lit(Immediate(off, ptrBits)), computation.result));
        case Elem(o, w, size) =>
          if !IsZero(o) {
            var scaled := Scale(computation, operand, w, size, ptrBits);
            computation := Merge(scaled, Call(BuildArith(Add), scaled.result, computation.result));
          }
          operand := operand + 1;
      }
    }
  }
}
