/** What the log says under any input, whatever run it was written in: when a call writes an
    entry, and which inputs satisfy it. */
module QueryMeaning {
  import opened Exprs
  import opened QueryLog

  // ------------------------------------------------------------- what is promised

  /** Constraints are Boolean. */
  predicate Boolean(c: Call) { c.Push? && c.constraint.Some? ==> SortOf(c.constraint.value) == Some(Bool) }

  predicate BooleanCalls(calls: seq<Call>) { forall k :: 0 <= k < |calls| ==> Boolean(calls[k]) }

  /** The constraint of the call is true of an input. */
  predicate Says(c: Call, input: Input) { c.Push? && c.constraint.Some? && True(c.constraint.value, input) }

  /** The undecided string comparisons from the last size check on. */
  function Batch(calls: seq<Call>, simplify: Expr -> Expr): (b: seq<Call>)
    ensures |b| <= |calls|
    ensures forall k :: 0 <= k < |b| ==> b[k] in calls
  {
    if calls == [] then []
    else
      var c := calls[|calls| - 1];
      if StartsBatch(c, simplify) then [c]
      else Batch(calls[..|calls| - 1], simplify) + if Undecided(c, simplify) then [c] else []
  }

  /** A size check has started the batch and none of its comparisons was taken. */
  predicate NoneTaken(calls: seq<Call>, simplify: Expr -> Expr)
  {
    Checked(calls, simplify) && forall k :: 0 <= k < |Batch(calls, simplify)| ==> Batch(calls, simplify)[k].Push? && !Batch(calls, simplify)[k].taken
  }

  /** The last call writes an entry: it is not decided by simplification, and if it is a
      string comparison then it stands on the line that completes the batch. */
  predicate Writes(calls: seq<Call>, simplify: Expr -> Expr)
    requires calls != []
  {
    var c := calls[|calls| - 1];
    c.Push? && c.constraint.Some? && !simplify(c.constraint.value).Truth? &&
    (FromStringHeader(c) ==> c.line != SIZE_CHECK_LINE && |Batch(calls, simplify)| == c.line - COMPARE_START_LINE + 1)
  }

  /** The flag of the entry. */
  predicate EntryFlag(calls: seq<Call>, simplify: Expr -> Expr)
    requires calls != []
  {
    if FromStringHeader(calls[|calls| - 1]) then NoneTaken(calls, simplify) else calls[|calls| - 1].Push? && calls[|calls| - 1].taken
  }

  /** The inputs that satisfy the entry. A single branch: those that go the way it went. A
      batch of which no comparison was taken: those for which none is true; any other batch:
      those for which some comparison is. */
  predicate EntryHolds(calls: seq<Call>, simplify: Expr -> Expr, input: Input)
    requires calls != []
  {
    var c, batch := calls[|calls| - 1], Batch(calls, simplify);
    if !FromStringHeader(c) then c.Push? && (Says(c, input) <==> c.taken)
    else if NoneTaken(calls, simplify) then forall k :: 0 <= k < |batch| ==> !Says(batch[k], input)
    else exists k :: 0 <= k < |batch| && Says(batch[k], input)
  }

  // ----------------------------------------------------------------- the invariant

  function Truths(batch: seq<Call>, input: Input): (fs: seq<bool>)
    ensures |fs| == |batch| && forall k :: 0 <= k < |batch| ==> (fs[k] <==> Says(batch[k], input))
  {
    seq(|batch|, k requires 0 <= k < |batch| => Says(batch[k], input))
  }

  /** Nothing is asserted between calls, and the batch is that of the calls so far. */
  predicate Shape(s: State, batch: seq<Call>, noneTaken: bool, input: Input)
  {
    s.scopes != [] && NothingAsserted(s.scopes) && (s.stringTaken <==> noneTaken) &&
    QueryLog.Flags(s.notEqs, Truths(batch, input), input) && QueryLog.Flags(s.eqs, Opposite(Truths(batch, input)), input)
  }

  lemma Simplified(simplify: Expr -> Expr, c: Call, input: Input)
    requires Preserves(simplify, input) && c.Push? && c.constraint.Some? && Boolean(c)
    ensures var yes := simplify(c.constraint.value);
            Denotes(yes, Bool, FlagOf(Says(c, input)), input) && Denotes(simplify(Not(yes)), Bool, FlagOf(!Says(c, input)), input)
  {
    hide Preserves;
    SimplifiedTruth(simplify, c.constraint.value, input);
    NotDenotes(simplify(c.constraint.value), Says(c, input), input);
    SimplifiedTruth(simplify, Not(simplify(c.constraint.value)), input);
  }

  lemma SimplifiedTruth(simplify: Expr -> Expr, e: Expr, input: Input)
    requires Preserves(simplify, input) && SortOf(e) == Some(Bool)
    ensures Denotes(simplify(e), Bool, FlagOf(True(e, input)), input)
  {
  }

  lemma TruthsSnoc(batch: seq<Call>, c: Call, input: Input)
    ensures Truths(batch + [c], input) == Truths(batch, input) + [Says(c, input)]
    ensures Opposite(Truths(batch + [c], input)) == Opposite(Truths(batch, input)) + [!Says(c, input)]
  {
    hide Says;
  }

  /** One more undecided string comparison. */
  lemma CollectShape(s: State, batch: seq<Call>, noneTaken: bool, yes: Expr, no: Expr, c: Call, input: Input)
    requires Shape(s, batch, noneTaken, input) && c.Push?
    requires Denotes(yes, Bool, FlagOf(Says(c, input)), input) && Denotes(no, Bool, FlagOf(!Says(c, input)), input)
    ensures var start := c.line == SIZE_CHECK_LINE;
            Shape(Collect(s, yes, no, c), (if start then [] else batch) + [c], (start || noneTaken) && !c.taken, input)
  {
    hide Denotes, QueryLog.Flags, Says;
    var batch0 := if c.line == SIZE_CHECK_LINE then [] else batch;
    var s0 := if c.line == SIZE_CHECK_LINE then s.(eqs := [], notEqs := [], stringTaken := true) else s;
    EmptyBatch(input);
    assert Truths([], input) == [];
    TruthsSnoc(batch0, c, input);
    FlagsSnoc(s0.notEqs, Truths(batch0, input), yes, Says(c, input), input);
    FlagsSnoc(s0.eqs, Opposite(Truths(batch0, input)), no, !Says(c, input), input);
  }

  /** The formula of the batch. */
  lemma BatchMeans(s: State, batch: seq<Call>, noneTaken: bool, input: Input)
    requires Shape(s, batch, noneTaken, input)
    ensures noneTaken ==> (True(BatchFormula(s), input) <==> forall k :: 0 <= k < |batch| ==> !Says(batch[k], input))
    ensures !noneTaken ==> (True(BatchFormula(s), input) <==> exists k :: 0 <= k < |batch| && Says(batch[k], input))
  {
    hide Fold, Denotes, Says;
    var fs := Truths(batch, input);
    DenotesTruth(Fold(Conj, s.eqs), forall k :: 0 <= k < |fs| ==> Opposite(fs)[k], input);
    DenotesTruth(Fold(Disj, s.notEqs), exists k :: 0 <= k < |fs| && fs[k], input);
    ConjunctionDenotes(s.eqs, Opposite(fs), input);
    DisjunctionDenotes(s.notEqs, fs, input);
    if k :| 0 <= k < |fs| && fs[k] { assert Says(batch[k], input); }
    if k :| 0 <= k < |batch| && Says(batch[k], input) { assert fs[k]; }
    assert forall k :: 0 <= k < |fs| ==> Opposite(fs)[k] == !Says(batch[k], input);
  }

  // -------------------------------------------------------------------- one call

  lemma SingleEntry(s: State, batch: seq<Call>, noneTaken: bool, yes: Expr, no: Expr, c: Call, input: Input)
    requires Shape(s, batch, noneTaken, input) && c.Push? && !FromStringHeader(c)
    requires Denotes(yes, Bool, FlagOf(Says(c, input)), input) && Denotes(no, Bool, FlagOf(!Says(c, input)), input)
    ensures var s' := PushOpen(s, yes, no, c);
            Shape(s', batch, noneTaken, input) && |s'.log| == |s.log| + 1 && s.log <= s'.log &&
            var q := s'.log[|s.log|];
            q.slot == c.slot && q.taken == c.taken && q.filename == c.filename && q.line == c.line &&
            (Satisfied(q, input) <==> (Says(c, input) <==> c.taken))
  {
    hide Denotes, Emit, QueryLog.Flags, Satisfied, Mentions, Says;
    var s1, e := s.(scopes := s.scopes + [[]]), if c.taken then yes else no;
    assert s1.scopes[..|s.scopes|] == s.scopes;
    EmitLogs(s1, e, c.taken, c);
    OneFormula(e, c.slot, c.taken, c.filename, c.line, input);
    DenotesTruth(e, Says(c, input) == c.taken, input);
  }

  lemma StringEntry(s: State, batch: seq<Call>, noneTaken: bool, yes: Expr, no: Expr, c: Call, input: Input)
    requires Shape(s, batch, noneTaken, input) && c.Push? && FromStringHeader(c)
    requires Denotes(yes, Bool, FlagOf(Says(c, input)), input) && Denotes(no, Bool, FlagOf(!Says(c, input)), input)
    ensures var s', start := PushOpen(s, yes, no, c), c.line == SIZE_CHECK_LINE;
            var batch', none' := (if start then [] else batch) + [c], (start || noneTaken) && !c.taken;
            Shape(s', batch', none', input) && s.log <= s'.log &&
            |s'.log| == |s.log| + (if !start && |batch'| == c.line - COMPARE_START_LINE + 1 then 1 else 0) &&
            (|s'.log| > |s.log| ==>
               var q := s'.log[|s.log|];
               q.slot == c.slot && q.taken == none' && q.filename == c.filename && q.line == c.line &&
               (Satisfied(q, input) <==> if none' then forall k :: 0 <= k < |batch'| ==> !Says(batch'[k], input)
                                         else exists k :: 0 <= k < |batch'| && Says(batch'[k], input)))
  {
    hide Denotes, Emit, QueryLog.Flags, Satisfied, Mentions, Says, BatchFormula, Collect, Truths;
    var s1, start := s.(scopes := s.scopes + [[]]), c.line == SIZE_CHECK_LINE;
    var batch', none' := (if start then [] else batch) + [c], (start || noneTaken) && !c.taken;
    assert s1.scopes[..|s.scopes|] == s.scopes;
    CollectKeeps(s, s1, yes, no, c);
    CollectShape(s1, batch, noneTaken, yes, no, c, input);
    var s2 := Collect(s1, yes, no, c);
    ShapeSizes(s2, batch', none', input);
    if Complete(s2, c) {
      EmitLogs(s2, BatchFormula(s2), s2.stringTaken, c);
      OneFormula(BatchFormula(s2), c.slot, s2.stringTaken, c.filename, c.line, input);
      BatchMeans(s2, batch', none', input);
    }
  }

  lemma ShapeSizes(s: State, batch: seq<Call>, noneTaken: bool, input: Input)
    requires Shape(s, batch, noneTaken, input)
    ensures |s.eqs| == |batch|
  {
    hide Denotes;
  }

  // --------------------------------------------------------------------- runs

  lemma NoneTakenSnoc(calls: seq<Call>, simplify: Expr -> Expr)
    requires calls != []
    ensures var c, before := calls[|calls| - 1], NoneTaken(calls[..|calls| - 1], simplify);
            NoneTaken(calls, simplify) <==> if Undecided(c, simplify) then (c.line == SIZE_CHECK_LINE || before) && !c.taken else before
  {
    hide Undecided, Checked;
    var c, b := calls[|calls| - 1], Batch(calls[..|calls| - 1], simplify);
    CheckedSnoc(calls, simplify);
    UndecidedPush(c, simplify);
    if Undecided(c, simplify) {
      var b' := Batch(calls, simplify);
      assert b' == (if c.line == SIZE_CHECK_LINE then [] else b) + [c];
      assert b'[|b'| - 1] == c;
      if c.line != SIZE_CHECK_LINE {
        assert forall k :: 0 <= k < |b| ==> b'[k] == b[k];
      }
    } else {
      assert Batch(calls, simplify) == b + [];
      assert b + [] == b;
    }
  }

  lemma UndecidedPush(c: Call, simplify: Expr -> Expr)
    ensures Undecided(c, simplify) ==> c.Push?
  {
  }

  lemma {:induction false} RunShape(calls: seq<Call>, simplify: Expr -> Expr, input: Input)
    requires BooleanCalls(calls) && Preserves(simplify, input)
    ensures Shape(RunCalls(calls, simplify), Batch(calls, simplify), NoneTaken(calls, simplify), input)
  {
    hide Preserves, Step, Shape, NoneTaken, StartsBatch, Undecided, Boolean;
    if calls == [] {
      StartShape(simplify, input);
    } else {
      RunShape(calls[..|calls| - 1], simplify, input);
      StepMeans(calls, simplify, input);
    }
  }

  lemma StartShape(simplify: Expr -> Expr, input: Input)
    ensures Shape(START, [], NoneTaken([], simplify), input)
  {
    assert Truths([], input) == [] && Opposite([]) == [];
  }

  /** One call, on a state that has the batch of the calls before. */
  lemma StepMeans(calls: seq<Call>, simplify: Expr -> Expr, input: Input)
    requires calls != [] && Boolean(calls[|calls| - 1]) && Preserves(simplify, input)
    requires var before := calls[..|calls| - 1];
             Shape(RunCalls(before, simplify), Batch(before, simplify), NoneTaken(before, simplify), input)
    ensures Shape(RunCalls(calls, simplify), Batch(calls, simplify), NoneTaken(calls, simplify), input)
    ensures EntryOf(RunCalls(calls[..|calls| - 1], simplify), RunCalls(calls, simplify), calls, simplify, input)
  {
    hide Preserves, Shape, NoneTaken, Denotes, PushOpen, Mentions, RunCalls, Satisfied, Says, Checked;
    var before, c := calls[..|calls| - 1], calls[|calls| - 1];
    var s := RunCalls(before, simplify);
    RunLast(calls, simplify);
    NoneTakenSnoc(calls, simplify);
    SameShape(s, s.(scopes := [[]]), Batch(before, simplify), NoneTaken(before, simplify), input);
    if c.Push? && c.constraint.Some? {
      Simplified(simplify, c, input);
      var yes := simplify(c.constraint.value);
      if yes.Truth? {
        SameShape(s, Step(s, c, simplify), Batch(before, simplify), NoneTaken(before, simplify), input);
      } else if FromStringHeader(c) {
        StringEntry(s, Batch(before, simplify), NoneTaken(before, simplify), yes, simplify(Not(yes)), c, input);
      } else {
        SingleEntry(s, Batch(before, simplify), NoneTaken(before, simplify), yes, simplify(Not(yes)), c, input);
      }
    }
    assert Batch(before, simplify) + [] == Batch(before, simplify) && [] + [c] == [c];
  }

  lemma RunLast(calls: seq<Call>, simplify: Expr -> Expr)
    requires calls != []
    ensures RunCalls(calls, simplify) == Step(RunCalls(calls[..|calls| - 1], simplify), calls[|calls| - 1], simplify)
  {
    hide Step;
  }

  lemma SameShape(s: State, s': State, batch: seq<Call>, noneTaken: bool, input: Input)
    requires Shape(s, batch, noneTaken, input) && s'.eqs == s.eqs && s'.notEqs == s.notEqs && s'.stringTaken == s.stringTaken
    ensures s'.scopes == s.scopes || s'.scopes == [[]] ==> Shape(s', batch, noneTaken, input)
  {
    hide QueryLog.Flags;
  }

  /** From one state to the next the log grows by the entry of the last call, if it writes one. */
  predicate EntryOf(s: State, s': State, calls: seq<Call>, simplify: Expr -> Expr, input: Input)
    requires calls != []
  {
    s.log <= s'.log && |s'.log| == |s.log| + (if Writes(calls, simplify) then 1 else 0) &&
    (Writes(calls, simplify) ==>
       var q, c := s'.log[|s.log|], calls[|calls| - 1];
       q.slot == c.slot && q.filename == c.filename && q.line == c.line && (q.taken <==> EntryFlag(calls, simplify)) &&
       (Satisfied(q, input) <==> EntryHolds(calls, simplify, input)))
  }

  /** The meaning of the log. For every run of calls, true to the actual input or not, and
      every input that the simplifier respects: the last call writes exactly one entry or
      none, as `Writes` says, with its own slot, file and line, and an input satisfies the
      entry if and only if it goes the way that the entry stands for. */
  lemma EntryMeans(calls: seq<Call>, simplify: Expr -> Expr, input: Input)
    requires calls != [] && BooleanCalls(calls) && Preserves(simplify, input)
    ensures EntryOf(RunCalls(calls[..|calls| - 1], simplify), RunCalls(calls, simplify), calls, simplify, input)
  {
    hide Preserves, Shape, NoneTaken, RunCalls, EntryOf, Boolean, Batch;
    RunShape(calls[..|calls| - 1], simplify, input);
    StepMeans(calls, simplify, input);
  }

  /** How many of the calls write an entry. */
  function Written(calls: seq<Call>, simplify: Expr -> Expr): (n: nat)
  {
    if calls == [] then 0 else Written(calls[..|calls| - 1], simplify) + if Writes(calls, simplify) then 1 else 0
  }

  predicate EachMeans(calls: seq<Call>, simplify: Expr -> Expr, log: seq<Query>, input: Input)
  {
    forall k :: 0 <= k < |calls| && Writes(calls[..k + 1], simplify) ==>
      Written(calls[..k], simplify) < |log| && (Satisfied(log[Written(calls[..k], simplify)], input) <==> EntryHolds(calls[..k + 1], simplify, input))
  }

  /** The whole log: one entry for each call that writes one, in order, each with the meaning
      of its call under every input. */
  lemma {:induction false} LogMeans(calls: seq<Call>, simplify: Expr -> Expr, input: Input)
    requires BooleanCalls(calls) && Preserves(simplify, input)
    ensures |RunCalls(calls, simplify).log| == Written(calls, simplify)
    ensures EachMeans(calls, simplify, RunCalls(calls, simplify).log, input)
  {
    hide Preserves, RunCalls, Boolean, Satisfied, EntryHolds, Writes, EntryFlag;
    if calls == [] {
      EmptyLog(simplify);
    } else {
      var n := |calls| - 1;
      var before, log, log0 := calls[..n], RunCalls(calls, simplify).log, RunCalls(calls[..n], simplify).log;
      LogMeans(before, simplify, input);
      EntryMeans(calls, simplify, input);
      forall k | 0 <= k < |calls| && Writes(calls[..k + 1], simplify)
        ensures Written(calls[..k], simplify) < |log|
        ensures Satisfied(log[Written(calls[..k], simplify)], input) <==> EntryHolds(calls[..k + 1], simplify, input)
      {
        if k < n {
          assert before[..k + 1] == calls[..k + 1] && before[..k] == calls[..k];
          assert Writes(before[..k + 1], simplify);
        } else {
          assert calls[..k + 1] == calls;
        }
      }
    }
  }

  /** Every entry was written by some call. */
  lemma {:induction false} WriterOf(calls: seq<Call>, simplify: Expr -> Expr, j: nat) returns (k: nat)
    requires j < Written(calls, simplify)
    ensures k < |calls| && Writes(calls[..k + 1], simplify) && Written(calls[..k], simplify) == j
  {
    hide Writes;
    k := |calls| - 1;
    if j < Written(calls[..k], simplify) {
      var n := k;
      k := WriterOf(calls[..n], simplify, j);
      assert calls[..n][..k + 1] == calls[..k + 1] && calls[..n][..k] == calls[..k];
    } else {
      assert calls[..k + 1] == calls;
    }
  }

  // ------------------------------------------------------------- impossible branches

  /** Simplification decides the constraint, against the direction that was taken. */
  predicate Contradicted(c: Call, simplify: Expr -> Expr)
  {
    c.Push? && c.constraint.Some? && simplify(c.constraint.value) == Truth(!c.taken)
  }

  lemma StepImpossible(s: State, c: Call, simplify: Expr -> Expr)
    ensures Step(s, c, simplify).impossible <==> s.impossible || Contradicted(c, simplify)
  {
    hide Mentions, Emit, BatchFormula;
    if c.Push? && c.constraint.Some? && !simplify(c.constraint.value).Truth? {
      var yes := simplify(c.constraint.value);
      OpenPossible(s, yes, simplify(Not(yes)), c);
    }
  }

  lemma OpenPossible(s: State, yes: Expr, no: Expr, c: Call)
    requires c.Push?
    ensures PushOpen(s, yes, no, c).impossible == s.impossible
  {
    hide Mentions, BatchFormula, Assertions;
  }

  /** An impossible branch is reported in exactly those runs with a contradicted constraint. */
  lemma {:induction false} ImpossibleExactly(calls: seq<Call>, simplify: Expr -> Expr)
    ensures RunCalls(calls, simplify).impossible <==> exists k :: 0 <= k < |calls| && Contradicted(calls[k], simplify)
  {
    hide Step, Contradicted;
    if calls != [] {
      var n := |calls| - 1;
      ImpossibleExactly(calls[..n], simplify);
      StepImpossible(RunCalls(calls[..n], simplify), calls[n], simplify);
      assert forall k :: 0 <= k < n ==> calls[..n][k] == calls[k];
    }
  }
}
