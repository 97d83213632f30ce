/** What the pass knows: in SSA functions whose blocks are laid out so that values are
    defined before they are used, an operand that the pass takes for concrete never has an
    expression at run time. */
module Awareness {
  import opened Bits
  import opened Exprs
  import opened IR
  import opened Symbolizer
  import opened Instrumentation
  import opened Concolic
  import opened ConcolicRuns

  // ----------------------------------------------------------------- definitions

  function PhiIds(phis: seq<Phi>): (ids: set<Id>)
  {
    if phis == [] then {} else {phis[0].id} + PhiIds(phis[1..])
  }

  function BodyIds(body: seq<Instr>): (ids: set<Id>)
  {
    if body == [] then {} else {body[0].id} + BodyIds(body[1..])
  }

  function DefinedIn(f: Function, order: seq<Label>): (ids: set<Id>)
  {
    if order == [] then {}
    else
      (if order[0] in f.blocks then PhiIds(f.blocks[order[0]].phis) + BodyIds(f.blocks[order[0]].body) else {}) + DefinedIn(f, order[1..])
  }

  function PhisIn(f: Function, order: seq<Label>): (ids: set<Id>)
  {
    if order == [] then {}
    else (if order[0] in f.blocks then PhiIds(f.blocks[order[0]].phis) else {}) + PhisIn(f, order[1..])
  }

  /** An operand is defined already, or nowhere in the function. */
  predicate OperandReady(o: Operand, seen: set<Id>, all: set<Id>) { o.Reg? && o.id in all ==> o.id in seen }

  predicate BodyReady(body: seq<Instr>, seen: set<Id>, all: set<Id>)
  {
    body == [] ||
    ((forall k :: 0 <= k < |Operands(body[0].act)| ==> OperandReady(Operands(body[0].act)[k], seen, all)) &&
     body[0].id !in seen && BodyReady(body[1..], seen + {body[0].id}, all))
  }

  predicate PhisReady(phis: seq<Phi>, seen: set<Id>)
  {
    phis == [] || (phis[0].id !in seen && PhisReady(phis[1..], seen + {phis[0].id}))
  }

  predicate TermReady(t: Terminator, seen: set<Id>, all: set<Id>)
  {
    Condition(t).Some? ==> OperandReady(Condition(t).value, seen, all)
  }

  predicate BlockReady(b: Block, seen: set<Id>, all: set<Id>)
  {
    PhisReady(b.phis, seen) &&
    BodyReady(b.body, seen + PhiIds(b.phis), all) &&
    TermReady(b.term, seen + PhiIds(b.phis) + BodyIds(b.body), all)
  }

  /** In layout order, every value is defined once, and outside PHI nodes before it is used. */
  predicate Ready(f: Function, order: seq<Label>, seen: set<Id>, all: set<Id>)
  {
    order == [] ||
    (if order[0] in f.blocks then
       BlockReady(f.blocks[order[0]], seen, all) &&
       Ready(f, order[1..], seen + PhiIds(f.blocks[order[0]].phis) + BodyIds(f.blocks[order[0]].body), all)
     else Ready(f, order[1..], seen, all))
  }

  predicate DefsFirst(f: Function) { Ready(f, f.order, {}, DefinedIn(f, f.order)) }

  // ------------------------------------------------------------ what is known when

  /** An operand without a slot never gets an expression. */
  predicate SlotFits(o: Operand, s: Slot, usable: set<Id>) { s.Null? && o.Reg? ==> o.id !in usable }

  predicate SlotsFit(os: seq<Operand>, slots: seq<Slot>, usable: set<Id>)
  {
    |slots| == |os| && forall k :: 0 <= k < |os| ==> SlotFits(os[k], slots[k], usable)
  }

  predicate InstrAware(l: Layout, ti: TInstr, usable: set<Id>)
  {
    SlotsFit(Operands(ti.instr.act), ti.visited, usable) && SlotsFit(Operands(ti.instr.act), ti.slots, usable) &&
    (Registers(ti.instr.act, Code(l, ti.instr.act, ti.visited)) ==> ti.instr.id in usable)
  }

  predicate BodyAware(l: Layout, body: seq<TInstr>, usable: set<Id>)
  {
    forall k :: 0 <= k < |body| ==> InstrAware(l, body[k], usable)
  }

  predicate TermAware(t: TTerm, usable: set<Id>)
  {
    Condition(t.term).Some? ==> SlotFits(Condition(t.term).value, t.visited, usable) && SlotFits(Condition(t.term).value, t.slot, usable)
  }

  predicate BlockAware(l: Layout, tb: TBlock, usable: set<Id>)
  {
    BodyAware(l, tb.body, usable) && TermAware(tb.term, usable)
  }

  lemma {:induction false} BodyGrows(l: Layout, body: seq<Instr>, known: set<Id>)
    ensures known <= VisitBody(l, body, known).1 <= known + BodyIds(body)
  {
    hide Code, Registers, Operands, SlotsOf;
    if body != [] { BodyGrows(l, body[1..], VisitInstr(l, body[0], known).1); }
  }

  lemma {:induction false} PhisGrow(phis: seq<Phi>, known: set<Id>)
    ensures VisitPhis(phis, known) == known + PhiIds(phis)
  {
    if phis != [] { PhisGrow(phis[1..], known + {phis[0].id}); }
  }

  lemma {:induction false} BlocksGrow(f: Function, loops: LoopInfo, order: seq<Label>, known: set<Id>)
    ensures known <= VisitBlocks(f, loops, order, known).1 <= known + DefinedIn(f, order)
  {
    hide VisitBody, VisitPhis, VisitTerm, PhiIds, BodyIds;
    if order != [] {
      if order[0] in f.blocks {
        var b := f.blocks[order[0]];
        PhisGrow(b.phis, known);
        BodyGrows(f.layout, b.body, VisitPhis(b.phis, known));
        BlocksGrow(f, loops, order[1..], VisitBlock(f.layout, loops, order[0], b, known).1);
      } else {
        BlocksGrow(f, loops, order[1..], known);
      }
    }
  }

  /** What is defined later is not defined already. */
  lemma {:induction false} BodyDisjoint(body: seq<Instr>, seen: set<Id>, all: set<Id>)
    requires BodyReady(body, seen, all)
    ensures BodyIds(body) !! seen
  {
    hide Operands;
    if body != [] { BodyDisjoint(body[1..], seen + {body[0].id}, all); }
  }

  lemma {:induction false} PhisDisjoint(phis: seq<Phi>, seen: set<Id>)
    requires PhisReady(phis, seen)
    ensures PhiIds(phis) !! seen
  {
    if phis != [] { PhisDisjoint(phis[1..], seen + {phis[0].id}); }
  }

  lemma {:induction false} OrderDisjoint(f: Function, order: seq<Label>, seen: set<Id>, all: set<Id>)
    requires Ready(f, order, seen, all)
    ensures DefinedIn(f, order) !! seen
  {
    hide BodyReady, PhisReady, TermReady, PhiIds, BodyIds;
    if order != [] {
      if order[0] in f.blocks {
        var b := f.blocks[order[0]];
        PhisDisjoint(b.phis, seen);
        BodyDisjoint(b.body, seen + PhiIds(b.phis), all);
        OrderDisjoint(f, order[1..], seen + PhiIds(b.phis) + BodyIds(b.body), all);
      } else {
        OrderDisjoint(f, order[1..], seen, all);
      }
    }
  }

  // ------------------------------------------------------------- the visit is aware

  /** The final knowledge: nothing that is defined by now is learned later, and only what
      is defined in the function is ever learned. */
  predicate Settled(known: set<Id>, seen: set<Id>, all: set<Id>, final: set<Id>)
  {
    known <= final <= all && forall id :: id in seen && id in final ==> id in known
  }

  lemma SlotReady(o: Operand, known: set<Id>, seen: set<Id>, all: set<Id>, final: set<Id>)
    requires Settled(known, seen, all, final) && OperandReady(o, seen, all)
    ensures SlotFits(o, SlotOf(known, o), final)
  {
  }

  lemma InstrVisitAware(l: Layout, i: Instr, known: set<Id>, seen: set<Id>, all: set<Id>, final: set<Id>)
    requires Settled(known, seen, all, final) && VisitInstr(l, i, known).1 <= final
    requires forall k :: 0 <= k < |Operands(i.act)| ==> OperandReady(Operands(i.act)[k], seen, all)
    ensures InstrAware(l, VisitInstr(l, i, known).0, final)
  {
    hide Code, Registers, Operands, Settled, OperandReady, SlotOf, SlotFits;
    forall k | 0 <= k < |Operands(i.act)|
      ensures SlotFits(Operands(i.act)[k], SlotsOf(known, Operands(i.act))[k], final)
    {
      SlotReady(Operands(i.act)[k], known, seen, all, final);
    }
  }

  lemma {:induction false} BodyVisitAware(l: Layout, body: seq<Instr>, known: set<Id>, seen: set<Id>, all: set<Id>, final: set<Id>)
    requires BodyReady(body, seen, all) && known <= final <= all && VisitBody(l, body, known).1 <= final
    requires forall id :: id in seen && id in final ==> id in known
    requires forall id :: id in BodyIds(body) && id in final ==> id in VisitBody(l, body, known).1
    ensures BodyAware(l, VisitBody(l, body, known).0, final)
  {
    hide InstrAware, Code, Registers, Operands, SlotsOf;
    if body != [] {
      var known' := VisitInstr(l, body[0], known).1;
      BodyGrows(l, body[1..], known');
      InstrVisitAware(l, body[0], known, seen, all, final);
      BodyDisjoint(body[1..], seen + {body[0].id}, all);
      assert forall id :: id in seen + {body[0].id} && id in final ==> id in known';
      BodyVisitAware(l, body[1..], known', seen + {body[0].id}, all, final);
    }
  }

  lemma TermVisitAware(loops: LoopInfo, here: Label, t: Terminator, known: set<Id>, seen: set<Id>, all: set<Id>, final: set<Id>)
    requires Settled(known, seen, all, final) && TermReady(t, seen, all)
    ensures TermAware(VisitTerm(loops, here, t, known), final)
  {
    hide Settled, OperandReady, SlotOf, SlotFits, IsLoopCondition;
    if Condition(t).Some? { SlotReady(Condition(t).value, known, seen, all, final); }
  }

  lemma BlockVisitAware(l: Layout, loops: LoopInfo, here: Label, b: Block, known: set<Id>, seen: set<Id>, all: set<Id>, final: set<Id>)
    requires BlockReady(b, seen, all) && known <= final <= all && VisitBlock(l, loops, here, b, known).1 <= final
    requires forall id :: id in seen && id in final ==> id in known
    requires forall id :: id in PhiIds(b.phis) + BodyIds(b.body) && id in final ==> id in VisitBlock(l, loops, here, b, known).1
    ensures BlockAware(l, VisitBlock(l, loops, here, b, known).0, final)
  {
    hide VisitBody, VisitTerm, VisitPhis, PhiIds, BodyIds, BodyReady, PhisReady, TermReady, BodyAware, TermAware;
    var withPhis := VisitPhis(b.phis, known);
    var end := VisitBody(l, b.body, withPhis).1;
    PhisGrow(b.phis, known);
    BodyGrows(l, b.body, withPhis);
    BodyDisjoint(b.body, seen + PhiIds(b.phis), all);
    BodyVisitAware(l, b.body, withPhis, seen + PhiIds(b.phis), all, final);
    TermVisitAware(loops, here, b.term, end, seen + PhiIds(b.phis) + BodyIds(b.body), all, final);
  }

  lemma {:induction false} BlocksVisitAware(f: Function, loops: LoopInfo, order: seq<Label>, known: set<Id>, seen: set<Id>, all: set<Id>, final: set<Id>)
    requires Ready(f, order, seen, all) && final <= all && final == VisitBlocks(f, loops, order, known).1
    requires forall id :: id in seen && id in final ==> id in known
    ensures forall l :: l in VisitBlocks(f, loops, order, known).0 ==> BlockAware(f.layout, VisitBlocks(f, loops, order, known).0[l], final)
  {
    hide VisitBlock, BlockAware, BlockReady, PhiIds, BodyIds;
    BlocksGrow(f, loops, order, known);
    if order != [] {
      if order[0] in f.blocks {
        var b := f.blocks[order[0]];
        var known', seen' := VisitBlock(f.layout, loops, order[0], b, known).1, seen + PhiIds(b.phis) + BodyIds(b.body);
        BlocksGrow(f, loops, order[1..], known');
        OrderDisjoint(f, order[1..], seen', all);
        BlockVisitAware(f.layout, loops, order[0], b, known, seen, all, final);
        BlocksVisitAware(f, loops, order[1..], known', seen', all, final);
      } else {
        BlocksVisitAware(f, loops, order[1..], known, seen, all, final);
      }
    }
  }

  // --------------------------------------------------------------- after finalisation

  lemma PhisAreDefined(f: Function, order: seq<Label>)
    ensures PhisIn(f, order) <= DefinedIn(f, order)
  {
    hide PhiIds, BodyIds;
    if order != [] { PhisAreDefined(f, order[1..]); }
  }

  lemma {:induction false} BodiesAreDefined(f: Function, order: seq<Label>, l: Label)
    requires l in order && l in f.blocks
    ensures BodyIds(f.blocks[l].body) + PhiIds(f.blocks[l].phis) <= DefinedIn(f, order)
    ensures PhiIds(f.blocks[l].phis) <= PhisIn(f, order)
  {
    hide PhiIds, BodyIds;
    if l != order[0] { BodiesAreDefined(f, order[1..], l); }
  }

  /** No instruction shares its id with a PHI node. */
  lemma {:induction false} InstrIsNoPhi(f: Function, order: seq<Label>, seen: set<Id>, all: set<Id>, l: Label)
    requires Ready(f, order, seen, all) && l in order && l in f.blocks
    ensures BodyIds(f.blocks[l].body) !! PhisIn(f, order)
  {
    hide BodyReady, PhisReady, TermReady, PhiIds, BodyIds;
    if order[0] in f.blocks {
      var b := f.blocks[order[0]];
      var seen' := seen + PhiIds(b.phis) + BodyIds(b.body);
      OrderDisjoint(f, order[1..], seen', all);
      PhisAreDefined(f, order[1..]);
      BodyDisjoint(b.body, seen + PhiIds(b.phis), all);
      if l in order[1..] {
        InstrIsNoPhi(f, order[1..], seen', all, l);
        BodiesAreDefined(f, order[1..], l);
      }
    } else {
      InstrIsNoPhi(f, order[1..], seen, all, l);
    }
  }

  predicate IsPhi(f: Function, l: Label, k: nat, id: Id)
  {
    l in f.blocks && k < |f.blocks[l].phis| && f.blocks[l].phis[k].id == id
  }

  lemma {:induction false} PhiInIds(phis: seq<Phi>, k: nat)
    requires k < |phis|
    ensures phis[k].id in PhiIds(phis)
  {
    if k > 0 { PhiInIds(phis[1..], k - 1); }
  }

  lemma {:induction false} OnePhi(phis: seq<Phi>, seen: set<Id>, j: nat, k: nat)
    requires PhisReady(phis, seen) && j < |phis| && k < |phis| && phis[j].id == phis[k].id
    ensures j == k
  {
    if j > 0 && k > 0 {
      OnePhi(phis[1..], seen + {phis[0].id}, j - 1, k - 1);
    } else if j > 0 {
      PhiInIds(phis[1..], j - 1);
      PhisDisjoint(phis[1..], seen + {phis[0].id});
    } else if k > 0 {
      PhiInIds(phis[1..], k - 1);
      PhisDisjoint(phis[1..], seen + {phis[0].id});
    }
  }

  lemma {:induction false} PhiUnique(f: Function, order: seq<Label>, seen: set<Id>, all: set<Id>, l: Label, k: nat, l': Label, k': nat, id: Id)
    requires Ready(f, order, seen, all) && l in order && l' in order && IsPhi(f, l, k, id) && IsPhi(f, l', k', id)
    ensures f.blocks[l].phis[k] == f.blocks[l'].phis[k']
  {
    hide BodyReady, PhisReady, TermReady, PhiIds, BodyIds;
    PhiInIds(f.blocks[l].phis, k);
    PhiInIds(f.blocks[l'].phis, k');
    if order[0] in f.blocks {
      var b := f.blocks[order[0]];
      var seen' := seen + PhiIds(b.phis) + BodyIds(b.body);
      OrderDisjoint(f, order[1..], seen', all);
      if l in order[1..] { BodiesAreDefined(f, order[1..], l); }
      if l' in order[1..] { BodiesAreDefined(f, order[1..], l'); }
      if l in order[1..] && l' in order[1..] {
        PhiUnique(f, order[1..], seen', all, l, k, l', k', id);
      } else if l == order[0] && l' == order[0] {
        OnePhi(b.phis, seen, k, k');
      }
    } else {
      PhiUnique(f, order[1..], seen, all, l, k, l', k', id);
    }
  }

  lemma {:induction false} ErasedPhiWhere(phis: seq<Phi>, known: set<Id>, id: Id)
    requires id in ErasedPhis(phis, known)
    ensures exists k :: 0 <= k < |phis| && phis[k].id == id && OnlyConstants(phis[k], known)
  {
    hide OnlyConstants;
    if OnlyConstants(phis[0], known) && phis[0].id == id {
    } else {
      ErasedPhiWhere(phis[1..], known, id);
      var k :| 0 <= k < |phis[1..]| && phis[1..][k].id == id && OnlyConstants(phis[1..][k], known);
      assert phis[k + 1].id == id;
    }
  }

  lemma {:induction false} ErasedWhere(f: Function, blocks: map<Label, TBlock>, order: seq<Label>, known: set<Id>, id: Id) returns (l: Label, k: nat)
    requires id in AllErased(blocks, order, known) && forall l :: l in blocks ==> l in f.blocks && blocks[l].phis == f.blocks[l].phis
    ensures l in order && IsPhi(f, l, k, id) && OnlyConstants(f.blocks[l].phis[k], known)
  {
    hide OnlyConstants, ErasedPhis;
    if order[0] in blocks && id in ErasedPhis(blocks[order[0]].phis, known) {
      ErasedPhiWhere(blocks[order[0]].phis, known, id);
      l := order[0];
      k :| 0 <= k < |blocks[l].phis| && blocks[l].phis[k].id == id && OnlyConstants(blocks[l].phis[k], known);
    } else {
      l, k := ErasedWhere(f, blocks, order[1..], known, id);
    }
  }

  /** The instrumented function, where only `known - erased` can ever have an expression. */
  ghost predicate Aware(tf: TFunction, f: Function, known: set<Id>, erased: set<Id>)
  {
    Instruments(tf, f, known, erased) &&
    (forall l :: l in f.blocks ==> BlockAware(f.layout, tf.blocks[l], known - erased)) &&
    (forall l, k: nat, id: nat :: IsPhi(f, l, k, id) && !OnlyConstants(f.blocks[l].phis[k], known) ==> id in known - erased)
  }

  lemma FinalInstrAware(l: Layout, ti: TInstr, known: set<Id>, erased: set<Id>)
    requires InstrAware(l, ti, known) && ti.slots == ti.visited && InstrSound(ti) && ti.instr.id !in erased
    ensures InstrAware(l, FinalInstr(ti, erased), known - erased)
  {
    hide Code, Registers, Operands;
    var os, r := Operands(ti.instr.act), FinalInstr(ti, erased);
    forall k | 0 <= k < |os|
      ensures SlotFits(os[k], r.slots[k], known - erased) && SlotFits(os[k], r.visited[k], known - erased)
    {
      assert SlotFits(os[k], ti.slots[k], known);
    }
  }

  lemma {:induction false} VisitedSlots(l: Layout, body: seq<Instr>, known: set<Id>)
    ensures forall k :: 0 <= k < |body| ==> VisitBody(l, body, known).0[k].slots == VisitBody(l, body, known).0[k].visited
    ensures forall k :: 0 <= k < |body| ==> VisitBody(l, body, known).0[k].instr.id in BodyIds(body)
  {
    hide Code, Registers, Operands, SlotsOf;
    if body != [] { VisitedSlots(l, body[1..], VisitInstr(l, body[0], known).1); }
  }

  lemma FinalBlockAware(l: Layout, tb: TBlock, b: Block, known: set<Id>, erased: set<Id>)
    requires BlockAware(l, tb, known) && BlockVisited(tb, b) && tb.term.slot == tb.term.visited
    requires forall k :: 0 <= k < |tb.body| ==> tb.body[k].slots == tb.body[k].visited && tb.body[k].instr.id !in erased
    ensures BlockAware(l, FinalBlock(tb, known, erased), known - erased)
  {
    hide InstrAware, FinalPhis, InstrSound;
    forall k | 0 <= k < |tb.body|
      ensures InstrAware(l, FinalInstr(tb.body[k], erased), known - erased)
    {
      FinalInstrAware(l, tb.body[k], known, erased);
    }
  }

  lemma {:induction false} FreshBlocks(f: Function, loops: LoopInfo, order: seq<Label>, known: set<Id>, l: Label)
    requires l in VisitBlocks(f, loops, order, known).0
    ensures l in order && l in f.blocks
    ensures var tb := VisitBlocks(f, loops, order, known).0[l];
            tb.phis == f.blocks[l].phis && tb.term.slot == tb.term.visited && tb.term.guarded == IsLoopCondition(loops, l, f.blocks[l].term) &&
            forall k :: 0 <= k < |tb.body| ==> tb.body[k].slots == tb.body[k].visited && tb.body[k].instr.id in BodyIds(f.blocks[l].body)
  {
    hide VisitBody, VisitPhis, BodyIds, IsLoopCondition;
    if order[0] !in f.blocks {
      FreshBlocks(f, loops, order[1..], known, l);
    } else {
      var b := f.blocks[order[0]];
      var known' := VisitBlock(f.layout, loops, order[0], b, known).1;
      if l in VisitBlocks(f, loops, order[1..], known').0 {
        FreshBlocks(f, loops, order[1..], known', l);
      } else {
        VisitedSlots(f.layout, b.body, VisitPhis(b.phis, known));
      }
    }
  }

  lemma ErasedArePhis(f: Function, blocks: map<Label, TBlock>, order: seq<Label>, known: set<Id>)
    requires forall l :: l in blocks ==> l in f.blocks && blocks[l].phis == f.blocks[l].phis
    ensures AllErased(blocks, order, known) <= PhisIn(f, order)
  {
    hide AllErased, PhisIn, OnlyConstants;
    forall id | id in AllErased(blocks, order, known)
      ensures id in PhisIn(f, order)
    {
      var l, k := ErasedWhere(f, blocks, order, known, id);
      PhiInIds(f.blocks[l].phis, k);
      BodiesAreDefined(f, order, l);
    }
  }

  lemma {:induction false} PhiIsKnown(f: Function, loops: LoopInfo, order: seq<Label>, known: set<Id>, l: Label, k: nat)
    requires l in order && l in f.blocks && k < |f.blocks[l].phis|
    ensures f.blocks[l].phis[k].id in VisitBlocks(f, loops, order, known).1
  {
    hide VisitBody, VisitPhis, VisitTerm, PhiIds;
    if order[0] !in f.blocks {
      PhiIsKnown(f, loops, order[1..], known, l, k);
    } else {
      var b := f.blocks[order[0]];
      var known' := VisitBlock(f.layout, loops, order[0], b, known).1;
      if l == order[0] {
        PhiInIds(b.phis, k);
        PhisGrow(b.phis, known);
        BodyGrows(f.layout, b.body, VisitPhis(b.phis, known));
        BlocksGrow(f, loops, order[1..], known');
      } else {
        PhiIsKnown(f, loops, order[1..], known', l, k);
      }
    }
  }

  /** The pass knows of every expression: in functions laid out so that definitions come
      first, an operand taken for concrete never gets an expression. */
  lemma InstrumentAware(f: Function, loops: LoopInfo) returns (known: set<Id>, erased: set<Id>)
    requires WellFormed(f) && DefsFirst(f)
    ensures Aware(Instrument(f, loops), f, known, erased)
  {
    hide VisitBlocks, AllErased, FinalPhis, Ready, DefinedIn, BlockAware, BlockVisited, FinalBlock, OnlyConstants, PhisIn, BodyIds;
    var visited := VisitBlocks(f, loops, f.order, {});
    known := visited.1;
    erased := AllErased(visited.0, f.order, known);
    BlocksVisited(f, loops, f.order, {});
    BlocksGrow(f, loops, f.order, {});
    BlocksVisitAware(f, loops, f.order, {}, {}, DefinedIn(f, f.order), known);
    forall l | l in f.blocks
      ensures visited.0[l].phis == f.blocks[l].phis
    {
      FreshBlocks(f, loops, f.order, {}, l);
    }
    ErasedArePhis(f, visited.0, f.order, known);
    forall l | l in f.blocks
      ensures BlockVisited(FinalBlock(visited.0[l], known, erased), f.blocks[l])
      ensures BlockAware(f.layout, FinalBlock(visited.0[l], known, erased), known - erased)
      ensures FinalBlock(visited.0[l], known, erased).symPhis == FinalPhis(f.blocks[l].phis, known, erased)
    {
      FreshBlocks(f, loops, f.order, {}, l);
      InstrIsNoPhi(f, f.order, {}, DefinedIn(f, f.order), l);
      FinalBlockVisited(visited.0[l], f.blocks[l], known, erased);
      FinalBlockAware(f.layout, visited.0[l], f.blocks[l], known, erased);
      FinalBlockPhis(visited.0[l], known, erased);
    }
    forall l, k: nat, id: nat | IsPhi(f, l, k, id) && !OnlyConstants(f.blocks[l].phis[k], known)
      ensures id in known - erased
    {
      PhiIsKnown(f, loops, f.order, {}, l, k);
      if id in erased {
        var l', k' := ErasedWhere(f, visited.0, f.order, known, id);
        PhiUnique(f, f.order, {}, DefinedIn(f, f.order), l, k, l', k', id);
      }
    }
  }

  /** The loop guards are those of the loop analysis. */
  lemma InstrumentGuards(f: Function, loops: LoopInfo, l: Label)
    requires WellFormed(f) && l in f.blocks
    ensures l in Instrument(f, loops).blocks && Instrument(f, loops).blocks[l].term.guarded == IsLoopCondition(loops, l, f.blocks[l].term)
  {
    hide VisitBlocks, AllErased, FinalPhis, FinalBody, IsLoopCondition, BlockVisited, BodyIds;
    BlocksVisited(f, loops, f.order, {});
    FreshBlocks(f, loops, f.order, {}, l);
  }

  lemma FinalBlockPhis(tb: TBlock, known: set<Id>, erased: set<Id>)
    ensures FinalBlock(tb, known, erased).symPhis == FinalPhis(tb.phis, known, erased)
  {
    hide FinalPhis;
  }

  // -------------------------------------------------------------- what is left out

  /** The operands that decide whether an instruction gets any code. */
  predicate SomeHeld(slots: seq<Slot>) { exists k :: 0 <= k < |slots| && slots[k].Held? }

  /** Arithmetic, comparisons, selects and address computations get no code if and only if
      no operand can have an expression; neither do conversions, except those of Booleans,
      which are always built. Everything that touches memory gets code. */
  lemma EmitsNothingExactly(l: Layout, act: Action, slots: seq<Slot>)
    requires |slots| == |Operands(act)|
    ensures var memory, fromBool := act.LoadI? || act.StoreI? || act.MemMoveI? || act.MemSetI? || act.ReadInput?,
                                    act.Cast? && act.from == 1 && !act.kind.Truncate?;
            Code(l, act, slots) == [] <==> !memory && !fromBool && !SomeHeld(slots)
  {
    hide One, CastChain, GepChain, Itself, IntrinsicCall, AllZero, BinaryFn, ComparisonFn;
    if act.Select? {
      assert Operands(act) == [act.c, act.a, act.b];
      assert SomeHeld(slots) <==> slots[0].Held? || slots[1].Held? || slots[2].Held?;
    }
  }

  lemma {:induction false} ErasedPhiIn(phis: seq<Phi>, known: set<Id>, k: nat)
    requires k < |phis| && OnlyConstants(phis[k], known)
    ensures phis[k].id in ErasedPhis(phis, known)
  {
    hide OnlyConstants;
    if k > 0 { ErasedPhiIn(phis[1..], known, k - 1); }
  }

  lemma {:induction false} ErasedIn(f: Function, blocks: map<Label, TBlock>, order: seq<Label>, known: set<Id>, l: Label, k: nat, id: Id)
    requires forall l :: l in blocks ==> l in f.blocks && blocks[l].phis == f.blocks[l].phis
    requires l in order && l in blocks && IsPhi(f, l, k, id) && OnlyConstants(f.blocks[l].phis[k], known)
    ensures id in AllErased(blocks, order, known)
  {
    hide OnlyConstants, ErasedPhis;
    if l == order[0] { ErasedPhiIn(f.blocks[l].phis, known, k); } else { ErasedIn(f, blocks, order[1..], known, l, k, id); }
  }

  /** A PHI node that only receives values without an expression is erased: no
      instruction or branch of the instrumented function refers to it. */
  lemma ErasedNowhereHeld(f: Function, loops: LoopInfo, l: Label, k: nat, id: Id, here: Label)
    requires WellFormed(f) && IsPhi(f, l, k, id) && here in f.blocks
    requires OnlyConstants(f.blocks[l].phis[k], VisitBlocks(f, loops, f.order, {}).1)
    ensures here in Instrument(f, loops).blocks
    ensures var tb := Instrument(f, loops).blocks[here];
            tb.term.slot != Held(id) &&
            forall j, m :: 0 <= j < |tb.body| && 0 <= m < |tb.body[j].slots| ==> tb.body[j].slots[m] != Held(id)
  {
    hide VisitBlocks, AllErased, FinalPhis, OnlyConstants, BlockVisited;
    var (blocks, known) := VisitBlocks(f, loops, f.order, {});
    BlocksVisited(f, loops, f.order, {});
    VisitedPhis(f, loops);
    ErasedIn(f, blocks, f.order, known, l, k, id);
  }

  lemma VisitedPhis(f: Function, loops: LoopInfo)
    requires WellFormed(f)
    ensures forall l :: l in VisitBlocks(f, loops, f.order, {}).0 ==> l in f.blocks && VisitBlocks(f, loops, f.order, {}).0[l].phis == f.blocks[l].phis
  {
    hide VisitBlocks, BodySound, TermSound;
    BlocksVisited(f, loops, f.order, {});
  }

  // ------------------------------------------------------------------ at run time

  /** Only usable values have expressions. */
  predicate SlotsWithin(slots: map<Id, SymExpr>, usable: set<Id>)
  {
    forall id :: id in slots && slots[id].Some? ==> id in usable
  }

  lemma ExecWithin(l: Layout, file: seq<Byte>, ti: TInstr, ts: TState, usable: set<Id>)
    requires SlotsWithin(ts.slots, usable) && InstrAware(l, ti, usable) && TExec(l, file, ti, ts).Some?
    ensures SlotsWithin(TExec(l, file, ti, ts).value.slots, usable)
  {
    hide RunCode, Perform, Code, Operands, ReadAll, ExactStep, Registers, SlotsFit;
  }

  lemma {:induction false} SymPhisWithin(phis: seq<Phi>, known: set<Id>, erased: set<Id>, pred: Label, slots: map<Id, SymExpr>, id: Id)
    requires id in SymPhiValues(FinalPhis(phis, known, erased), pred, slots)
    ensures exists k :: 0 <= k < |phis| && phis[k].id == id && !OnlyConstants(phis[k], known)
  {
    hide OnlyConstants;
    if phis != [] {
      var rest := FinalPhis(phis[1..], known, erased);
      if OnlyConstants(phis[0], known) {
        SymPhisWithin(phis[1..], known, erased, pred, slots, id);
        var k :| 0 <= k < |phis[1..]| && phis[1..][k].id == id && !OnlyConstants(phis[1..][k], known);
        assert phis[k + 1].id == id;
      } else if id != phis[0].id {
        assert FinalPhis(phis, known, erased)[1..] == rest;
        SymPhisWithin(phis[1..], known, erased, pred, slots, id);
        var k :| 0 <= k < |phis[1..]| && phis[1..][k].id == id && !OnlyConstants(phis[1..][k], known);
        assert phis[k + 1].id == id;
      }
    }
  }

  lemma EnterWithin(tf: TFunction, f: Function, known: set<Id>, erased: set<Id>, l: Label, pred: Label, ts: TState)
    requires Aware(tf, f, known, erased) && l in f.blocks && SlotsWithin(ts.slots, known - erased) && TEnter(tf.blocks[l], pred, ts).Some?
    ensures SlotsWithin(TEnter(tf.blocks[l], pred, ts).value.slots, known - erased)
  {
    hide PhiValues, SymPhiValues, FinalPhis, OnlyConstants, BlockAware, BlockVisited;
    var phis := f.blocks[l].phis;
    forall id | id in SymPhiValues(FinalPhis(phis, known, erased), pred, ts.slots)
      ensures id in known - erased
    {
      SymPhisWithin(phis, known, erased, pred, ts.slots, id);
      var k :| 0 <= k < |phis| && phis[k].id == id && !OnlyConstants(phis[k], known);
      assert IsPhi(f, l, k, id);
    }
  }

  /** Operands taken for concrete are concrete. */
  predicate Covered(os: seq<Operand>, slots: seq<Slot>, held: map<Id, SymExpr>)
  {
    |slots| == |os| && forall k :: 0 <= k < |os| && slots[k].Null? && os[k].Reg? ==> os[k].id !in held || held[os[k].id] == None
  }

  lemma CoveredBy(os: seq<Operand>, slots: seq<Slot>, held: map<Id, SymExpr>, usable: set<Id>)
    requires SlotsWithin(held, usable) && SlotsFit(os, slots, usable)
    ensures Covered(os, slots, held)
  {
    forall k | 0 <= k < |os| && slots[k].Null? && os[k].Reg?
      ensures os[k].id !in held || held[os[k].id] == None
    {
      assert SlotFits(os[k], slots[k], usable);
    }
  }

  const LATE_LOAD: Instr := Instr(0, LoadI(Imm(Value(0, 64)), 8))
  const LATE_USE: Instr := Instr(1, BinOp(IAdd, Reg(0), Reg(0), 8))

  lemma LateVisits(l: Layout)
    ensures VisitBody(l, [LATE_USE], {}) == ([TInstr(LATE_USE, [Null, Null], [Null, Null])], {})
    ensures VisitBody(l, [LATE_LOAD], {}).1 == {0}
    ensures BodyIds([LATE_LOAD]) == {0}
  {
    assert Operands(LATE_USE.act) == [Reg(0), Reg(0)] && Operands(LATE_LOAD.act) == [Imm(Value(0, 64))];
    assert SlotsOf({}, [Reg(0), Reg(0)]) == [Null, Null] by {
      assert [Reg(0), Reg(0)][1..] == [Reg(0)] && [Reg(0)][1..] == [];
      assert SlotsOf({}, []) == [] && SlotsOf({}, [Reg(0)]) == [Null];
    }
    assert AllNull([Null, Null]) && Code(l, LATE_USE.act, [Null, Null]) == [];
    assert [LATE_USE][1..] == [] && [LATE_LOAD][1..] == [];
    assert VisitBody(l, [], {}) == ([], {}) && VisitBody(l, [], {0}) == ([], {0});
    assert VisitInstr(l, LATE_USE, {}) == (TInstr(LATE_USE, [Null, Null], [Null, Null]), {});
    assert BodyIds([]) == {};
    var ti := TInstr(LATE_USE, [Null, Null], [Null, Null]);
    assert VisitBody(l, [LATE_USE], {}) == ([ti] + [], {});
    assert [ti] + [] == [ti];
  }

  /** A block that uses a value and is laid out before the one that defines it: the visitor
      takes the operand for concrete although the value gets an expression. */
  lemma LateDefinitionIsMissed(l: Layout)
    ensures var blocks := map[0 := Block([], [LATE_USE], Ret), 1 := Block([], [LATE_LOAD], Br(0))];
            var (tbs, known) := VisitBlocks(Function(l, 1, [0, 1], blocks), map[], [0, 1], {});
            0 in known && 0 in tbs && |tbs[0].body| == 1 && tbs[0].body[0].visited == [Null, Null] &&
            !DefsFirst(Function(l, 1, [0, 1], blocks))
  {
    hide VisitBody, BodyIds;
    var blocks := map[0 := Block([], [LATE_USE], Ret), 1 := Block([], [LATE_LOAD], Br(0))];
    var f := Function(l, 1, [0, 1], blocks);
    LateVisits(l);
    assert [0, 1][1..] == [1] && [1][1..] == [];
    assert VisitPhis([], {}) == {} && PhiIds([]) == {};
    assert VisitBlocks(f, map[], [], {0}) == (map[], {0});
    assert VisitBlocks(f, map[], [1], {}).1 == {0};
    assert 0 in DefinedIn(f, [1]);
    assert 0 in DefinedIn(f, [0, 1]);
    assert Operands(LATE_USE.act) == [Reg(0), Reg(0)];
    assert !OperandReady(Operands(LATE_USE.act)[0], {}, DefinedIn(f, [0, 1]));
  }
}
