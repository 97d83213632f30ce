/** The logging backend: each path constraint is asserted in a solver scope of its
    own and the solver's contents are written to the log. Constraints from the
    string comparison header are collected and logged as one formula. */
module QueryLog {
  import opened Exprs

  /** One entry of the log: everything asserted at that moment, and where it came from. */
  datatype Query = Query(formulas: seq<Expr>, slot: int, taken: bool, filename: string, line: int)

  /** `scopes` is the solver's stack, the outermost level first. */
  datatype State = State(scopes: seq<seq<Expr>>, eqs: seq<Expr>, notEqs: seq<Expr>, stringTaken: bool, log: seq<Query>,
                         impossible: bool)

  datatype Call =
    | Push(constraint: SymExpr, taken: bool, filename: string, line: int, slot: int)
    | Reset

  const SIZE_CHECK_LINE: int := 13
  const COMPARE_START_LINE: int := 23
  const STRING_HEADER: string := "symros_string.hpp"

  /** `strstr(name, what) != NULL`. */
  predicate Mentions(name: string, what: string)
  {
    what <= name || (name != [] && Mentions(name[1..], what))
  }

  predicate FromStringHeader(c: Call) { c.Push? && Mentions(c.filename, STRING_HEADER) }

  function Fold(con: Connective, es: seq<Expr>): (e: Expr)
  {
    if es == [] then Truth(con.Conj?) else Connect(con, Fold(con, es[..|es| - 1]), es[|es| - 1])
  }

  // ----------------------------------------------------------------- the solver

  function Assertions(scopes: seq<seq<Expr>>): (es: seq<Expr>)
  {
    if scopes == [] then [] else Assertions(scopes[..|scopes| - 1]) + scopes[|scopes| - 1]
  }

  function Assert(scopes: seq<seq<Expr>>, e: Expr): (r: seq<seq<Expr>>)
    requires scopes != []
    ensures |r| == |scopes|
  {
    scopes[..|scopes| - 1] + [scopes[|scopes| - 1] + [e]]
  }

  function Pop(scopes: seq<seq<Expr>>): (r: seq<seq<Expr>>)
    requires scopes != []
  {
    scopes[..|scopes| - 1]
  }

  /** Asserts the formula in the innermost scope, logs, and closes the scope. */
  function Emit(s: State, e: Expr, flag: bool, c: Call): (r: State)
    requires s.scopes != [] && c.Push?
  {
    var scopes := Assert(s.scopes, e);
    s.(scopes := Pop(scopes), log := s.log + [Query(Assertions(scopes), c.slot, flag, c.filename, c.line)])
  }

  // -------------------------------------------------------------- one call

  /** The batch after a constraint from the string header; a size check starts a new one. */
  function Collect(s: State, yes: Expr, no: Expr, c: Call): (r: State)
    requires c.Push?
  {
    var s0 := if c.line == SIZE_CHECK_LINE then s.(eqs := [], notEqs := [], stringTaken := true) else s;
    s0.(stringTaken := s0.stringTaken && !c.taken, eqs := s0.eqs + [no], notEqs := s0.notEqs + [yes])
  }

  /** All comparisons up to this line have been collected. */
  predicate Complete(s: State, c: Call)
    requires c.Push?
  {
    c.line != SIZE_CHECK_LINE && |s.eqs| == c.line - COMPARE_START_LINE + 1
  }

  function BatchFormula(s: State): (e: Expr) { if s.stringTaken then Fold(Conj, s.eqs) else Fold(Disj, s.notEqs) }

  /** A constraint that is not decided already. */
  function PushOpen(s: State, yes: Expr, no: Expr, c: Call): (r: State)
    requires c.Push?
  {
    var s1 := s.(scopes := s.scopes + [[]]);
    if !FromStringHeader(c) then Emit(s1, if c.taken then yes else no, c.taken, c)
    else
      var s2 := Collect(s1, yes, no, c);
      if Complete(s2, c) then Emit(s2, BatchFormula(s2), s2.stringTaken, c) else s2
  }

  function Step(s: State, c: Call, simplify: Expr -> Expr): (r: State)
  {
    match c
    case Reset => s.(scopes := [[]])
    case Push(None, _, _, _, _) => s
    case Push(Some(e), taken, _, _, _) =>
      var yes := simplify(e);
      if yes == Truth(true) then s.(impossible := s.impossible || !taken)
      else if yes == Truth(false) then s.(impossible := s.impossible || taken)
      else PushOpen(s, yes, simplify(Not(yes)), c)
  }

  const START: State := State([[]], [], [], false, [], false)

  function RunCalls(calls: seq<Call>, simplify: Expr -> Expr): (s: State)
  {
    if calls == [] then START else Step(RunCalls(calls[..|calls| - 1], simplify), calls[|calls| - 1], simplify)
  }

  // --------------------------------------------------- what is assumed and promised

  /** The solver's simplifier preserves sort and meaning. */
  ghost predicate Preserves(simplify: Expr -> Expr, input: Input)
  {
    forall e :: SortOf(e) == Some(Bool) ==> Denotes(simplify(e), Bool, Eval(e, input), input)
  }

  /** The constraint evaluates to its taken flag under the actual input. */
  predicate TruthfulCall(c: Call, input: Input)
  {
    c.Push? && c.constraint.Some? ==> Truthful(Constraint(c.constraint.value, c.taken), input)
  }

  predicate TruthfulCalls(calls: seq<Call>, input: Input)
  {
    forall k :: 0 <= k < |calls| ==> TruthfulCall(calls[k], input)
  }

  predicate True(e: Expr, input: Input) { Denotes(e, Bool, 1, input) }

  predicate Satisfied(q: Query, input: Input)
  {
    forall k :: 0 <= k < |q.formulas| ==> True(q.formulas[k], input)
  }

  /** A string comparison whose batch is not finished by it. */
  predicate Incomplete(s: State, c: Call, simplify: Expr -> Expr)
  {
    FromStringHeader(c) && c.constraint.Some? &&
    var yes := simplify(c.constraint.value);
    !yes.Truth? && !Complete(Collect(s, yes, yes, c), c)
  }

  /** Incomplete string events since the last reset. */
  function Pending(calls: seq<Call>, simplify: Expr -> Expr): (n: nat)
  {
    if calls == [] || calls[|calls| - 1].Reset? then 0
    else
      var before, c := calls[..|calls| - 1], calls[|calls| - 1];
      Pending(before, simplify) + if Incomplete(RunCalls(before, simplify), c, simplify) then 1 else 0
  }

  /** A string comparison that was not decided by simplification. */
  predicate Undecided(c: Call, simplify: Expr -> Expr)
  {
    FromStringHeader(c) && c.constraint.Some? && !simplify(c.constraint.value).Truth?
  }

  predicate StartsBatch(c: Call, simplify: Expr -> Expr) { Undecided(c, simplify) && c.line == SIZE_CHECK_LINE }

  predicate TakenCompare(c: Call, simplify: Expr -> Expr) { Undecided(c, simplify) && c.taken }

  /** A size check has started a batch. */
  predicate Checked(calls: seq<Call>, simplify: Expr -> Expr)
  {
    exists k :: 0 <= k < |calls| && StartsBatch(calls[k], simplify)
  }

  /** Some undecided string comparison was taken. */
  predicate TakenSoFar(calls: seq<Call>, simplify: Expr -> Expr)
  {
    exists k :: 0 <= k < |calls| && TakenCompare(calls[k], simplify)
  }

  /** When what the last call logs is true of the input. */
  predicate Fair(calls: seq<Call>, simplify: Expr -> Expr)
    requires calls != []
  {
    !FromStringHeader(calls[|calls| - 1]) || Checked(calls, simplify) || TakenSoFar(calls, simplify)
  }

  // ----------------------------------------------------------------- formulas

  predicate Flags(es: seq<Expr>, fs: seq<bool>, input: Input)
  {
    |es| == |fs| && forall k :: 0 <= k < |es| ==> Denotes(es[k], Bool, FlagOf(fs[k]), input)
  }

  lemma {:induction false} ConjunctionDenotes(es: seq<Expr>, fs: seq<bool>, input: Input)
    requires Flags(es, fs, input)
    ensures Denotes(Fold(Conj, es), Bool, FlagOf(forall k :: 0 <= k < |fs| ==> fs[k]), input)
  {
    hide Denotes, Connect;
    if es == [] {
      TruthDenotes(true, input);
    } else {
      var n := |es| - 1;
      ConjunctionDenotes(es[..n], fs[..n], input);
      assert (forall k :: 0 <= k < |fs| ==> fs[k]) <==> (forall k :: 0 <= k < n ==> fs[..n][k]) && fs[n];
      ConnectDenotes(Conj, Fold(Conj, es[..n]), forall k :: 0 <= k < n ==> fs[..n][k], es[n], fs[n], input);
    }
  }

  lemma {:induction false} DisjunctionDenotes(es: seq<Expr>, fs: seq<bool>, input: Input)
    requires Flags(es, fs, input)
    ensures Denotes(Fold(Disj, es), Bool, FlagOf(exists k :: 0 <= k < |fs| && fs[k]), input)
  {
    hide Denotes, Connect;
    if es == [] {
      TruthDenotes(false, input);
    } else {
      var n := |es| - 1;
      DisjunctionDenotes(es[..n], fs[..n], input);
      if k :| 0 <= k < |fs| && fs[k] { assert k < n ==> fs[..n][k]; }
      if k :| 0 <= k < n && fs[..n][k] { assert fs[k]; }
      ConnectDenotes(Disj, Fold(Disj, es[..n]), exists k :: 0 <= k < n && fs[..n][k], es[n], fs[n], input);
    }
  }

  // ------------------------------------------------------------ the invariant

  predicate NothingAsserted(scopes: seq<seq<Expr>>)
  {
    forall k :: 0 <= k < |scopes| ==> scopes[k] == []
  }

  function Opposite(fs: seq<bool>): (r: seq<bool>)
    ensures |r| == |fs| && forall k :: 0 <= k < |fs| ==> r[k] == !fs[k]
  {
    seq(|fs|, k requires 0 <= k < |fs| => !fs[k])
  }

  predicate Any(fs: seq<bool>) { exists k :: 0 <= k < |fs| && fs[k] }

  lemma AnySnoc(fs: seq<bool>, f: bool)
    ensures Any(fs + [f]) <==> Any(fs) || f
  {
    var r := fs + [f];
    if Any(fs) {
      var k :| 0 <= k < |fs| && fs[k];
      assert r[k];
    }
    if f { assert r[|fs|]; }
  }

  lemma FlagsSnoc(es: seq<Expr>, fs: seq<bool>, e: Expr, f: bool, input: Input)
    requires Flags(es, fs, input) && Denotes(e, Bool, FlagOf(f), input)
    ensures Flags(es + [e], fs + [f], input)
  {
    hide Denotes;
  }

  /** What the calls so far say about string comparisons. */
  datatype Past = Past(checked: bool, taken: bool)

  function PastOf(calls: seq<Call>, simplify: Expr -> Expr): (p: Past)
  {
    Past(Checked(calls, simplify), TakenSoFar(calls, simplify))
  }

  /** One more call. */
  function Later(p: Past, c: Call, simplify: Expr -> Expr): (r: Past)
  {
    Past(p.checked || StartsBatch(c, simplify), p.taken || TakenCompare(c, simplify))
  }

  /** One more undecided string comparison. */
  function Compared(p: Past, c: Call): (r: Past)
    requires c.Push?
  {
    Past(p.checked || c.line == SIZE_CHECK_LINE, p.taken || c.taken)
  }

  /** The batch: `fs` are the taken flags of the collected comparisons. Before any size
      check these are all comparisons so far, and the conjunction is never chosen. */
  predicate BatchOk(s: State, fs: seq<bool>, p: Past, input: Input)
  {
    Flags(s.notEqs, fs, input) && Flags(s.eqs, Opposite(fs), input) &&
    (s.stringTaken ==> !Any(fs)) && (p.checked && !s.stringTaken ==> Any(fs)) &&
    (!p.checked ==> !s.stringTaken && (Any(fs) <==> p.taken))
  }

  /** Between calls no formula is asserted and no impossible branch was seen. */
  ghost predicate Sound(s: State, p: Past, input: Input)
  {
    s.scopes != [] && NothingAsserted(s.scopes) && !s.impossible && exists fs :: BatchOk(s, fs, p, input)
  }

  lemma {:induction false} NoAssertions(scopes: seq<seq<Expr>>)
    requires NothingAsserted(scopes)
    ensures Assertions(scopes) == []
  {
    if scopes != [] {
      NoAssertions(scopes[..|scopes| - 1]);
    }
  }

  /** With all other scopes empty the log shows just the one formula. */
  lemma EmitLogs(s: State, e: Expr, flag: bool, c: Call)
    requires s.scopes != [] && NothingAsserted(s.scopes) && c.Push?
    ensures Emit(s, e, flag, c) == s.(scopes := s.scopes[..|s.scopes| - 1], log := s.log + [Query([e], c.slot, flag, c.filename, c.line)])
  {
    var n, scopes := |s.scopes| - 1, Assert(s.scopes, e);
    assert scopes[..n] == s.scopes[..n];
    assert scopes[n] == [e];
    NoAssertions(s.scopes[..n]);
  }

  lemma CollectOk(s: State, fs: seq<bool>, p: Past, yes: Expr, no: Expr, c: Call, input: Input)
    requires c.Push? && BatchOk(s, fs, p, input)
    requires Denotes(yes, Bool, FlagOf(c.taken), input) && Denotes(no, Bool, FlagOf(!c.taken), input)
    ensures var fs' := (if c.line == SIZE_CHECK_LINE then [] else fs) + [c.taken];
            BatchOk(Collect(s, yes, no, c), fs', Compared(p, c), input)
  {
    hide Denotes, Flags, Any;
    var fs0 := if c.line == SIZE_CHECK_LINE then [] else fs;
    var s0 := if c.line == SIZE_CHECK_LINE then s.(eqs := [], notEqs := [], stringTaken := true) else s;
    EmptyBatch(input);
    assert Opposite(fs0 + [c.taken]) == Opposite(fs0) + [!c.taken];
    FlagsSnoc(s0.notEqs, fs0, yes, c.taken, input);
    FlagsSnoc(s0.eqs, Opposite(fs0), no, !c.taken, input);
    AnySnoc(fs0, c.taken);
  }

  lemma EmptyBatch(input: Input)
    ensures Flags([], [], input) && Opposite([]) == [] && !Any([])
  {
  }

  /** The batch formula is true of the input if and only if a size check has started the
      batch or some comparison was taken. */
  lemma BatchTrue(s: State, fs: seq<bool>, p: Past, input: Input)
    requires BatchOk(s, fs, p, input)
    ensures True(BatchFormula(s), input) <==> p.checked || p.taken
  {
    hide Fold, Denotes;
    DenotesTruth(Fold(Conj, s.eqs), forall k :: 0 <= k < |fs| ==> Opposite(fs)[k], input);
    DenotesTruth(Fold(Disj, s.notEqs), Any(fs), input);
    ConjunctionDenotes(s.eqs, Opposite(fs), input);
    DisjunctionDenotes(s.notEqs, fs, input);
  }

  lemma DenotesTruth(e: Expr, b: bool, input: Input)
    ensures Denotes(e, Bool, FlagOf(b), input) ==> (True(e, input) <==> b)
  {
  }

  lemma OneFormula(e: Expr, slot: int, flag: bool, filename: string, line: int, input: Input)
    ensures Satisfied(Query([e], slot, flag, filename, line), input) <==> True(e, input)
  {
    hide True;
    var q := Query([e], slot, flag, filename, line);
    assert q.formulas[0] == e;
  }

  lemma PushOpenSound(s: State, p: Past, yes: Expr, no: Expr, c: Call, input: Input)
    requires Sound(s, p, input) && c.Push?
    requires Denotes(yes, Bool, FlagOf(c.taken), input) && Denotes(no, Bool, FlagOf(!c.taken), input)
    ensures var s', now := PushOpen(s, yes, no, c), if FromStringHeader(c) then Compared(p, c) else p;
            Sound(s', now, input) &&
            s.log <= s'.log && |s'.log| <= |s.log| + 1 &&
            (|s'.log| > |s.log| ==> (Satisfied(s'.log[|s.log|], input) <==> !FromStringHeader(c) || now.checked || now.taken)) &&
            |s'.scopes| == |s.scopes| + if FromStringHeader(c) && !Complete(Collect(s, yes, no, c), c) then 1 else 0
  {
    hide Denotes, Emit, Collect, BatchFormula, Mentions, BatchOk, Satisfied;
    var fs :| BatchOk(s, fs, p, input);
    var s1 := s.(scopes := s.scopes + [[]]);
    SameBatch(s, s1, fs, p, input);
    assert s1.scopes[..|s.scopes|] == s.scopes;
    if !FromStringHeader(c) {
      var e := if c.taken then yes else no;
      EmitLogs(s1, e, c.taken, c);
      OneFormula(e, c.slot, c.taken, c.filename, c.line, input);
      SameBatch(s, PushOpen(s, yes, no, c), fs, p, input);
    } else {
      CollectOk(s1, fs, p, yes, no, c, input);
      CollectKeeps(s, s1, yes, no, c);
      var s2, fs' := Collect(s1, yes, no, c), (if c.line == SIZE_CHECK_LINE then [] else fs) + [c.taken];
      if Complete(s2, c) {
        EmitLogs(s2, BatchFormula(s2), s2.stringTaken, c);
        OneFormula(BatchFormula(s2), c.slot, s2.stringTaken, c.filename, c.line, input);
        SameBatch(s2, PushOpen(s, yes, no, c), fs', Compared(p, c), input);
        BatchTrue(s2, fs', Compared(p, c), input);
      }
    }
  }

  lemma SameBatch(s: State, s': State, fs: seq<bool>, p: Past, input: Input)
    requires BatchOk(s, fs, p, input) && s'.eqs == s.eqs && s'.notEqs == s.notEqs && s'.stringTaken == s.stringTaken
    ensures BatchOk(s', fs, p, input)
  {
  }

  lemma CollectKeeps(s: State, s1: State, yes: Expr, no: Expr, c: Call)
    requires c.Push? && s1 == s.(scopes := s1.scopes)
    ensures Collect(s1, yes, no, c).scopes == s1.scopes && Collect(s1, yes, no, c).log == s1.log
    ensures Collect(s1, yes, no, c).impossible == s1.impossible
    ensures Complete(Collect(s1, yes, no, c), c) <==> Complete(Collect(s, yes, no, c), c)
  {
  }

  lemma CompleteIgnoresFormulas(s: State, yes: Expr, no: Expr, no': Expr, c: Call)
    requires c.Push?
    ensures Complete(Collect(s, yes, no, c), c) <==> Complete(Collect(s, yes, no', c), c)
  {
  }

  lemma StepSound(s: State, p: Past, c: Call, simplify: Expr -> Expr, input: Input)
    requires Sound(s, p, input) && TruthfulCall(c, input) && Preserves(simplify, input)
    ensures var s', now := Step(s, c, simplify), Later(p, c, simplify);
            Sound(s', now, input) &&
            s.log <= s'.log && |s'.log| <= |s.log| + 1 &&
            (|s'.log| > |s.log| ==> (Satisfied(s'.log[|s.log|], input) <==> !FromStringHeader(c) || now.checked || now.taken)) &&
            |s'.scopes| == if c.Reset? then 1 else |s.scopes| + if Incomplete(s, c, simplify) then 1 else 0
  {
    hide Denotes, PushOpen, Collect, Mentions, BatchOk, Complete, Satisfied;
    var fs :| BatchOk(s, fs, p, input);
    SameBatch(s, s.(scopes := [[]]), fs, p, input);
    SameBatch(s, s.(impossible := false), fs, p, input);
    if c.Push? && c.constraint.Some? {
      var e := c.constraint.value;
      SimplifiedDenotes(simplify, e, c.taken, input);
      var yes := simplify(e);
      if !yes.Truth? {
        PushOpenSound(s, p, yes, simplify(Not(yes)), c, input);
        CompleteIgnoresFormulas(s, yes, simplify(Not(yes)), yes, c);
      }
    }
  }

  lemma SimplifiedDenotes(simplify: Expr -> Expr, e: Expr, taken: bool, input: Input)
    requires Preserves(simplify, input) && Denotes(e, Bool, FlagOf(taken), input)
    ensures Denotes(simplify(e), Bool, FlagOf(taken), input)
    ensures Denotes(simplify(Not(simplify(e))), Bool, FlagOf(!taken), input)
    ensures simplify(e) == Truth(true) ==> taken
    ensures simplify(e) == Truth(false) ==> !taken
  {
    NotDenotes(simplify(e), taken, input);
  }

  lemma StartSound(input: Input)
    ensures Sound(START, Past(false, false), input)
  {
    EmptyBatch(input);
    assert BatchOk(START, [], Past(false, false), input);
  }

  // ---------------------------------------------------------------- main theorems

  lemma CheckedSnoc(calls: seq<Call>, simplify: Expr -> Expr)
    requires calls != []
    ensures Checked(calls, simplify) <==> Checked(calls[..|calls| - 1], simplify) || StartsBatch(calls[|calls| - 1], simplify)
  {
    hide StartsBatch;
    var n := |calls| - 1;
    if Checked(calls, simplify) {
      var k :| 0 <= k < |calls| && StartsBatch(calls[k], simplify);
      assert k < n ==> calls[..n][k] == calls[k];
    }
    if Checked(calls[..n], simplify) {
      var k :| 0 <= k < n && StartsBatch(calls[..n][k], simplify);
      assert calls[k] == calls[..n][k];
    }
  }

  lemma TakenSnoc(calls: seq<Call>, simplify: Expr -> Expr)
    requires calls != []
    ensures TakenSoFar(calls, simplify) <==> TakenSoFar(calls[..|calls| - 1], simplify) || TakenCompare(calls[|calls| - 1], simplify)
  {
    hide TakenCompare;
    var n := |calls| - 1;
    if TakenSoFar(calls, simplify) {
      var k :| 0 <= k < |calls| && TakenCompare(calls[k], simplify);
      assert k < n ==> calls[..n][k] == calls[k];
    }
    if TakenSoFar(calls[..n], simplify) {
      var k :| 0 <= k < n && TakenCompare(calls[..n][k], simplify);
      assert calls[k] == calls[..n][k];
    }
  }

  lemma PastSnoc(calls: seq<Call>, simplify: Expr -> Expr)
    requires calls != []
    ensures PastOf(calls, simplify) == Later(PastOf(calls[..|calls| - 1], simplify), calls[|calls| - 1], simplify)
  {
    hide Checked, TakenSoFar, StartsBatch, TakenCompare;
    CheckedSnoc(calls, simplify);
    TakenSnoc(calls, simplify);
  }

  /** In every run whose constraints are true to their taken flags: no impossible branch
      is ever reported, nothing stays asserted between calls, and the depth of the
      solver's stack is the number of incomplete string events since the last reset. */
  lemma {:induction false} RunSound(calls: seq<Call>, simplify: Expr -> Expr, input: Input)
    requires TruthfulCalls(calls, input) && Preserves(simplify, input)
    ensures Sound(RunCalls(calls, simplify), PastOf(calls, simplify), input)
    ensures |RunCalls(calls, simplify).scopes| == 1 + Pending(calls, simplify)
  {
    hide Sound, Step, TruthfulCall, Preserves, Incomplete, PastOf, Later;
    if calls == [] {
      StartSound(input);
      NoPast(simplify);
    } else {
      var n := |calls| - 1;
      RunSound(calls[..n], simplify, input);
      PastSnoc(calls, simplify);
      StepSound(RunCalls(calls[..n], simplify), PastOf(calls[..n], simplify), calls[n], simplify, input);
    }
  }

  lemma NoPast(simplify: Expr -> Expr)
    ensures PastOf([], simplify) == Past(false, false)
  {
  }

  /** Call `k` writes an entry to the log. */
  predicate Logs(calls: seq<Call>, k: nat, simplify: Expr -> Expr)
    requires k < |calls|
  {
    |RunCalls(calls[..k + 1], simplify).log| > |RunCalls(calls[..k], simplify).log|
  }

  /** What the last call of a truthful run logs is satisfied by the actual input if and
      only if it is a single branch, a size check has started a batch, or some undecided
      string comparison was taken. */
  lemma LoggedExactly(calls: seq<Call>, simplify: Expr -> Expr, input: Input)
    requires calls != [] && TruthfulCalls(calls, input) && Preserves(simplify, input)
    ensures var s, s' := RunCalls(calls[..|calls| - 1], simplify), RunCalls(calls, simplify);
            s.log <= s'.log && |s'.log| <= |s.log| + 1 &&
            (|s'.log| > |s.log| ==> (Satisfied(s'.log[|s.log|], input) <==> Fair(calls, simplify)))
  {
    hide Sound, Step, Preserves, StartsBatch, TakenCompare, Incomplete, Checked, TakenSoFar, Satisfied, TruthfulCall, Mentions;
    var n := |calls| - 1;
    RunSound(calls[..n], simplify, input);
    PastSnoc(calls, simplify);
    StepSound(RunCalls(calls[..n], simplify), PastOf(calls[..n], simplify), calls[n], simplify, input);
  }

  lemma {:induction false} LogGrows(calls: seq<Call>, k: nat, simplify: Expr -> Expr, input: Input)
    requires k <= |calls| && TruthfulCalls(calls, input) && Preserves(simplify, input)
    ensures RunCalls(calls[..k], simplify).log <= RunCalls(calls, simplify).log
  {
    hide TruthfulCall, Preserves, Satisfied, Fair, RunCalls;
    if k == |calls| {
      assert calls[..k] == calls;
    } else {
      var n := |calls| - 1;
      LogGrows(calls[..n], k, simplify, input);
      assert calls[..n][..k] == calls[..k];
      LoggedExactly(calls, simplify, input);
    }
  }

  /** Every single entry of the log of a whole run: satisfied if and only if it was fair
      when it was written. */
  lemma EntryExactly(calls: seq<Call>, k: nat, simplify: Expr -> Expr, input: Input)
    requires k < |calls| && TruthfulCalls(calls, input) && Preserves(simplify, input) && Logs(calls, k, simplify)
    ensures var j, log := |RunCalls(calls[..k], simplify).log|, RunCalls(calls, simplify).log;
            j < |log| && (Satisfied(log[j], input) <==> Fair(calls[..k + 1], simplify))
  {
    hide TruthfulCall, Preserves, Satisfied, Fair, RunCalls;
    assert calls[..k + 1][..k] == calls[..k];
    LoggedExactly(calls[..k + 1], simplify, input);
    LogGrows(calls, k + 1, simplify, input);
  }

  /** Call `k` logs nothing, or something that is true of the input. */
  predicate FairEntry(calls: seq<Call>, k: nat, simplify: Expr -> Expr)
    requires k < |calls|
  {
    Logs(calls, k, simplify) ==> Fair(calls[..k + 1], simplify)
  }

  predicate AllSatisfied(log: seq<Query>, input: Input)
  {
    forall j :: 0 <= j < |log| ==> Satisfied(log[j], input)
  }

  /** The whole log of a truthful run is satisfied by the actual input if and only if every
      entry was fair when it was written. */
  lemma {:induction false} WholeLogExactly(calls: seq<Call>, simplify: Expr -> Expr, input: Input)
    requires TruthfulCalls(calls, input) && Preserves(simplify, input)
    ensures AllSatisfied(RunCalls(calls, simplify).log, input) <==> forall k :: 0 <= k < |calls| ==> FairEntry(calls, k, simplify)
  {
    hide TruthfulCall, Preserves, Satisfied, Fair, RunCalls, FairEntry;
    if calls == [] {
      EmptyLog(simplify);
    } else {
      var n := |calls| - 1;
      var before, log := calls[..n], RunCalls(calls, simplify).log;
      WholeLogExactly(before, simplify, input);
      LoggedExactly(calls, simplify, input);
      LastEntry(calls, simplify);
      var log0 := RunCalls(before, simplify).log;
      assert forall j :: 0 <= j < |log0| ==> log[j] == log0[j];
      forall k | 0 <= k < n
        ensures FairEntry(before, k, simplify) <==> FairEntry(calls, k, simplify)
      {
        SameEntry(calls, n, k, simplify);
      }
    }
  }

  lemma EmptyLog(simplify: Expr -> Expr)
    ensures RunCalls([], simplify).log == []
  {
  }

  lemma LastEntry(calls: seq<Call>, simplify: Expr -> Expr)
    requires calls != []
    ensures FairEntry(calls, |calls| - 1, simplify) <==>
              (|RunCalls(calls, simplify).log| > |RunCalls(calls[..|calls| - 1], simplify).log| ==> Fair(calls, simplify))
  {
    hide Fair, RunCalls;
    assert calls[..|calls| - 1 + 1] == calls;
  }

  lemma SameEntry(calls: seq<Call>, n: nat, k: nat, simplify: Expr -> Expr)
    requires k < n <= |calls|
    ensures FairEntry(calls[..n], k, simplify) <==> FairEntry(calls, k, simplify)
  {
    hide Fair, RunCalls;
    assert calls[..n][..k] == calls[..k];
    assert calls[..n][..k + 1] == calls[..k + 1];
  }

  /** A string comparison before any size check: the first one, not taken, is logged as
      a formula that the input does not satisfy. */
  lemma UncheckedBatchIsWrong(e: Expr, slot: int, simplify: Expr -> Expr, input: Input)
    requires Preserves(simplify, input) && Denotes(e, Bool, 0, input) && !simplify(e).Truth?
    ensures var c := Push(Some(e), false, STRING_HEADER, COMPARE_START_LINE, slot);
            var s := RunCalls([c], simplify);
            TruthfulCall(c, input) && |s.log| == 1 && !Satisfied(s.log[0], input)
  {
    hide Denotes, BatchFormula, Satisfied;
    var c := Push(Some(e), false, STRING_HEADER, COMPARE_START_LINE, slot);
    assert [c][..0] == [] && FromStringHeader(c);
    assert RunCalls([], simplify) == START;
    assert |RunCalls([c], simplify).log| == 1;
    LoggedExactly([c], simplify, input);
  }

  // ------------------------------------------------------------ the backend's state

  class Logger {
    var scopes: seq<seq<Expr>>
    var eqs: seq<Expr>
    var notEqs: seq<Expr>
    var stringTaken: bool
    var log: seq<Query>
    var impossible: bool
    const simplify: Expr -> Expr

    function Current(): (s: State)
      reads this
    {
      State(scopes, eqs, notEqs, stringTaken, log, impossible)
    }

    constructor (simplify: Expr -> Expr)
      ensures Current() == RunCalls([], this.simplify) && this.simplify == simplify
    {
      scopes, eqs, notEqs, stringTaken, log, impossible := [[]], [], [], false, [], false;
      this.simplify := simplify;
    }

    method LogAndPop(e: Expr, flag: bool, c: Call)
      requires scopes != [] && c.Push?
      modifies this
      ensures Current() == Emit(old(Current()), e, flag, c)
    {
      scopes := Assert(scopes, e);
      log := log + [Query(Assertions(scopes), c.slot, flag, c.filename, c.line)];
      scopes := Pop(scopes);
    }

    method PushPathConstraint(c: Call)
      requires c.Push?
      modifies this
      ensures Current() == Step(old(Current()), c, simplify)
    {
      hide Emit, Mentions;
      if c.constraint.None? { return; }
      var constraint := simplify(c.constraint.value);
      if constraint == Truth(true) {
        impossible := impossible || !c.taken;
        return;
      }
      if constraint == Truth(false) {
        impossible := impossible || c.taken;
        return;
      }
      var notConstraint := simplify(Not(constraint));
      scopes := scopes + [[]];
      if Mentions(c.filename, STRING_HEADER) {
        if c.line == SIZE_CHECK_LINE {
          eqs, notEqs := [], [];
          stringTaken := true;
          if c.taken { stringTaken := false; }
          eqs, notEqs := eqs + [notConstraint], notEqs + [constraint];
        } else {
          var condNum := c.line - COMPARE_START_LINE + 1;
          if c.taken { stringTaken := false; }
          eqs, notEqs := eqs + [notConstraint], notEqs + [constraint];
          if |eqs| == condNum {
            if stringTaken {
              LogAndPop(Fold(Conj, eqs), stringTaken, c);
            } else {
              LogAndPop(Fold(Disj, notEqs), stringTaken, c);
            }
          }
        }
      } else {
        LogAndPop(if c.taken then constraint else notConstraint, c.taken, c);
      }
    }

    method ResetConstraints()
      modifies this
      ensures Current() == Step(old(Current()), Reset, simplify)
    {
      scopes := [[]];
    }
  }
}
