/** Symbolic input: the wrappers around `read` and `lseek` follow the position in the
    input file, and each byte position gets a solver variable when it is first read. */
module InputTracker {
  import opened Bits
  import opened Exprs
  import opened ShadowMaps
  import opened ShadowPages
  import opened RuntimeMemory
  import Instrumentation

  // ------------------------------------------------------------- the variables

  /** `_sym_get_input_byte`: `cache` holds the variables by offset. A new variable is
      named after the length of the cache, not after the offset. */
  function Touch(cache: seq<SymExpr>, k: nat): (r: seq<SymExpr>)
    ensures k < |r|
  {
    if k < |cache| then cache else cache + seq(k - |cache|, i => None) + [Some(InputByte(|cache|))]
  }

  function Answer(cache: seq<SymExpr>, k: nat): (e: SymExpr) { Touch(cache, k)[k] }

  function TouchRange(cache: seq<SymExpr>, k: nat, n: nat): (r: seq<SymExpr>)
  {
    if n == 0 then cache else Touch(TouchRange(cache, k, n - 1), k + n - 1)
  }

  /** Any sequence of requests. */
  function TouchAll(offsets: seq<nat>): (cache: seq<SymExpr>)
  {
    if offsets == [] then [] else Touch(TouchAll(offsets[..|offsets| - 1]), offsets[|offsets| - 1])
  }

  /** One past the largest offset requested. */
  function Reach(offsets: seq<nat>): (n: nat)
    ensures forall k :: 0 <= k < |offsets| ==> offsets[k] < n
  {
    if offsets == [] then 0
    else
      var before, last := Reach(offsets[..|offsets| - 1]), offsets[|offsets| - 1];
      assert forall k :: 0 <= k < |offsets| - 1 ==> offsets[..|offsets| - 1][k] == offsets[k];
      if last < before then before else last + 1
  }

  /** No request skips an offset that was never requested. */
  predicate GapFree(offsets: seq<nat>)
  {
    forall k :: 0 <= k < |offsets| ==> offsets[k] <= Reach(offsets[..k])
  }

  lemma {:induction false} CacheReach(offsets: seq<nat>)
    ensures |TouchAll(offsets)| == Reach(offsets)
  {
    if offsets != [] { CacheReach(offsets[..|offsets| - 1]); }
  }

  lemma TouchExtends(cache: seq<SymExpr>, k: nat)
    ensures cache <= Touch(cache, k)
  {
  }

  lemma {:induction false} CacheGrows(offsets: seq<nat>, j: nat)
    requires j <= |offsets|
    ensures TouchAll(offsets[..j]) <= TouchAll(offsets)
  {
    if j < |offsets| {
      var n := |offsets| - 1;
      CacheGrows(offsets[..n], j);
      assert offsets[..n][..j] == offsets[..j];
      TouchExtends(TouchAll(offsets[..n]), offsets[n]);
    } else {
      assert offsets[..j] == offsets;
    }
  }

  /** One offset has one variable: every request for it, at any time, gets the same answer. */
  lemma OneOffsetOneVariable(offsets: seq<nat>, i: nat, j: nat)
    requires i < |offsets| && j < |offsets| && offsets[i] == offsets[j]
    ensures Answer(TouchAll(offsets[..i]), offsets[i]) == Answer(TouchAll(offsets[..j]), offsets[j])
  {
    AnswerIsFinal(offsets, i);
    AnswerIsFinal(offsets, j);
  }

  lemma AnswerIsFinal(offsets: seq<nat>, i: nat)
    requires i < |offsets|
    ensures offsets[i] < |TouchAll(offsets)| && Answer(TouchAll(offsets[..i]), offsets[i]) == TouchAll(offsets)[offsets[i]]
  {
    hide Touch;
    assert offsets[..i + 1][..i] == offsets[..i];
    CacheGrows(offsets, i + 1);
  }

  // -------------------------------------------------------------------- names

  /** Variable numbers grow with the offset and never exceed it. */
  predicate NamesGrow(cache: seq<SymExpr>)
  {
    (forall i :: 0 <= i < |cache| && cache[i].Some? ==> cache[i].value.InputByte? && cache[i].value.index <= i) &&
    (forall i, j :: 0 <= i < j < |cache| && cache[i].Some? && cache[j].Some? && cache[i].value.InputByte? && cache[j].value.InputByte? ==>
       cache[i].value.index < cache[j].value.index)
  }

  lemma TouchNamesGrow(cache: seq<SymExpr>, k: nat)
    requires NamesGrow(cache)
    ensures NamesGrow(Touch(cache, k))
  {
  }

  lemma {:induction false} CacheNamesGrow(offsets: seq<nat>)
    ensures NamesGrow(TouchAll(offsets))
  {
    hide Touch;
    if offsets != [] {
      CacheNamesGrow(offsets[..|offsets| - 1]);
      TouchNamesGrow(TouchAll(offsets[..|offsets| - 1]), offsets[|offsets| - 1]);
    }
  }

  /** Distinct offsets never share a variable. */
  lemma DistinctVariables(offsets: seq<nat>, i: nat, j: nat)
    requires i < |offsets| && j < |offsets| && offsets[i] != offsets[j]
    ensures var a, b := Answer(TouchAll(offsets[..i]), offsets[i]), Answer(TouchAll(offsets[..j]), offsets[j]);
            a.Some? ==> a != b
  {
    hide Touch, TouchAll;
    AnswerIsFinal(offsets, i);
    AnswerIsFinal(offsets, j);
    CacheNamesGrow(offsets);
  }

  /** All variables have the number of their offset. */
  predicate NamedByOffset(cache: seq<SymExpr>)
  {
    forall k :: 0 <= k < |cache| ==> cache[k] == Some(InputByte(k))
  }

  lemma {:induction false} GapFreeNames(offsets: seq<nat>)
    requires GapFree(offsets)
    ensures NamedByOffset(TouchAll(offsets))
  {
    if offsets != [] {
      var n := |offsets| - 1;
      forall k | 0 <= k < n
        ensures offsets[..n][k] <= Reach(offsets[..n][..k])
      {
        assert offsets[..n][..k] == offsets[..k];
      }
      GapFreeNames(offsets[..n]);
      CacheReach(offsets[..n]);
    }
  }

  /** Every request is answered with the variable named after its offset if and only if
      no request leaves a gap. A request behind a gap gets a variable with another name,
      and requests inside a gap get none. */
  lemma NamesExactly(offsets: seq<nat>)
    ensures (forall k :: 0 <= k < |offsets| ==> Answer(TouchAll(offsets[..k]), offsets[k]) == Some(InputByte(offsets[k])))
       <==> GapFree(offsets)
  {
    hide Touch;
    if GapFree(offsets) {
      GapFreeNames(offsets);
      forall k | 0 <= k < |offsets|
        ensures Answer(TouchAll(offsets[..k]), offsets[k]) == Some(InputByte(offsets[k]))
      {
        AnswerIsFinal(offsets, k);
      }
    } else {
      var k :| 0 <= k < |offsets| && offsets[k] > Reach(offsets[..k]);
      CacheReach(offsets[..k]);
      BehindGap(TouchAll(offsets[..k]), offsets[k]);
    }
  }

  lemma BehindGap(cache: seq<SymExpr>, k: nat)
    requires k > |cache|
    ensures Answer(cache, k) == Some(InputByte(|cache|))
  {
  }

  /** Offset 2 first, then offset 0: the first answer is called 0, the second is missing. */
  lemma GapExample()
    ensures Answer([], 2) == Some(InputByte(0)) && Answer(Touch([], 2), 0) == None
  {
  }

  // ------------------------------------------------------------- files and positions

  datatype Whence = FromStart | FromHere | FromEnd

  /** System calls on a descriptor; for opens, whether the name is that of the input file,
      and for reads, what the kernel answered. */
  datatype FileCall =
    | Open(fd: int, isInput: bool)
    | ReadDone(fd: int, addr: nat, got: nat)
    | ReadFailed(fd: int)
    | Seek(fd: int, offset: int, whence: Whence)

  /** The kernel's side: the position of each descriptor; 0 at first. */
  type Positions = map<int, nat>

  function PositionOf(ps: Positions, fd: int): (p: nat) { if fd in ps then ps[fd] else 0 }

  function SeekTarget(pos: nat, size: nat, offset: int, whence: Whence): (r: Option<nat>)
  {
    var target := match whence
      case FromStart => offset
      case FromHere => pos + offset
      case FromEnd => size + offset;
    if target >= 0 then Some(target) else None
  }

  /** The kernel's answer to a seek; `sizes` gives the size of the file behind a descriptor. */
  function SeekAnswer(ps: Positions, sizes: int -> nat, fd: int, offset: int, whence: Whence): (r: Option<nat>)
  {
    SeekTarget(PositionOf(ps, fd), sizes(fd), offset, whence)
  }

  function KernelStep(ps: Positions, sizes: int -> nat, c: FileCall): (r: Positions)
  {
    match c
    case Open(d, _) => ps[d := 0]
    case ReadDone(d, _, got) => ps[d := PositionOf(ps, d) + got]
    case ReadFailed(_) => ps
    case Seek(d, off, w) => if SeekAnswer(ps, sizes, d, off, w).Some? then ps[d := SeekAnswer(ps, sizes, d, off, w).value] else ps
  }

  function KernelRun(sizes: int -> nat, calls: seq<FileCall>): (ps: Positions)
  {
    if calls == [] then map[] else KernelStep(KernelRun(sizes, calls[..|calls| - 1]), sizes, calls[|calls| - 1])
  }

  function Range1(k: nat, n: nat): (s: seq<nat>) { seq(n, i requires 0 <= i < n => k + i) }

  // ---------------------------------------------------------------- the tracker

  /** What the wrappers remember. */
  datatype Tracker = Tracker(fd: int, offset: nat, cache: seq<SymExpr>)

  /** One call as the wrapper handles it; the kernel stands at `ps`. */
  function TrackerStep(t: Tracker, ps: Positions, sizes: int -> nat, c: FileCall): (r: Tracker)
  {
    match c
    case Open(d, isInput) => if isInput then t.(fd := d, offset := 0) else t
    case ReadDone(d, _, got) => if d == t.fd then Tracker(t.fd, t.offset + got, TouchRange(t.cache, t.offset, got)) else t
    case ReadFailed(_) => t
    case Seek(d, off, w) =>
      var result := SeekAnswer(ps, sizes, d, off, w);
      if result.Some? && d == t.fd then t.(offset := result.value) else t
  }

  // ------------------------------------------------------------------- the wrappers

  class Wrappers {
    var inputFileDescriptor: int
    var inputOffset: nat
    var stdinBytes: seq<SymExpr>

    function Current(): (t: Tracker)
      reads this
    {
      Tracker(inputFileDescriptor, inputOffset, stdinBytes)
    }

    constructor (fd: int)
      ensures Current() == Tracker(fd, 0, [])
    {
      inputFileDescriptor, inputOffset, stdinBytes := fd, 0, [];
    }

    method GetInputByte(offset: nat) returns (e: SymExpr)
      modifies this`stdinBytes
      ensures stdinBytes == Touch(old(stdinBytes), offset) && e == Answer(old(stdinBytes), offset)
    {
      if offset < |stdinBytes| {
        return stdinBytes[offset];
      }
      var variable := InputByte(|stdinBytes|);
      stdinBytes := stdinBytes + seq(offset - |stdinBytes|, i => None);
      stdinBytes := stdinBytes + [Some(variable)];
      e := Some(variable);
    }

    method MakeSymbolic(memory: ShadowMemory, data: nat, length: nat, offset: nat)
      requires memory.Valid() && {this as object} !! {memory as object} + memory.repr
      modifies this`stdinBytes, memory, memory.repr
      ensures memory.Valid() && memory.repr >= old(memory.repr) && fresh(memory.repr - old(memory.repr))
      ensures stdinBytes == TouchRange(old(stdinBytes), offset, length)
      ensures RangeOk(old(stdinBytes), offset, length)
      ensures memory.Flat() == Overlay(old(memory.Flat()), data, Answers(old(stdinBytes), offset, length))
    {
      hide ShadowMemory.At, ShadowMemory.Flat, Overlay, Touch;
      var values: seq<SymExpr> := [];
      for i := 0 to length
        invariant stdinBytes == TouchRange(old(stdinBytes), offset, i)
        invariant RangeOk(old(stdinBytes), offset, i) && values == Answers(old(stdinBytes), offset, i)
        modifies this`stdinBytes
      {
        var e := GetInputByte(offset + i);
        AnswersStep(old(stdinBytes), offset, i);
        values := values + [e];
      }
      FillRange(memory, data, values);
    }

    /** A file was opened; `isInput` says whether its name is that of the input file. */
    method MaybeSetInputFile(fd: int, isInput: bool)
      modifies this`inputFileDescriptor, this`inputOffset
      ensures forall ps, sizes :: Current() == TrackerStep(old(Current()), ps, sizes, Open(fd, isInput))
    {
      if !isInput { return; }
      inputFileDescriptor := fd;
      inputOffset := 0;
    }

    /** `read`, given the kernel's answer; `None` is an error. */
    method Read(memory: ShadowMemory, fd: int, buf: nat, result: Option<nat>)
      requires memory.Valid() && {this as object} !! {memory as object} + memory.repr
      modifies this`stdinBytes, this`inputOffset, memory, memory.repr
      ensures memory.Valid()
      ensures var c := if result.Some? then ReadDone(fd, buf, result.value) else ReadFailed(fd);
              forall ps, sizes :: Current() == TrackerStep(old(Current()), ps, sizes, c)
      ensures result.Some? && fd == inputFileDescriptor ==>
                RangeOk(old(stdinBytes), old(inputOffset), result.value) &&
                memory.Flat() == Overlay(old(memory.Flat()), buf, Answers(old(stdinBytes), old(inputOffset), result.value))
      ensures result.None? ==> memory.Flat() == old(memory.Flat())
      ensures result.Some? && fd != inputFileDescriptor ==> memory.Flat() == Clear(old(memory.Flat()), buf, result.value)
    {
      hide ShadowMemory.At, ShadowMemory.Flat, Overlay, Touch, TouchRange, Answers, Clear, Fill;
      if result.None? { return; }
      var n := result.value;
      if fd == inputFileDescriptor {
        MakeSymbolic(memory, buf, n, inputOffset);
        inputOffset := inputOffset + n;
      } else {
        var concrete := IsConcrete(memory, buf, n);
        if concrete {
          ClearConcrete(memory.Flat(), buf, n);
        } else {
          FillIsClear(memory.Flat(), buf, n);
          MemSet(memory, buf, None, n);
        }
      }
    }

    /** `lseek64`, given the kernel's answer. */
    method Lseek(fd: int, offset: int, whence: Whence, result: Option<nat>, ghost ps: Positions, ghost sizes: int -> nat)
      requires fd == inputFileDescriptor ==> result == SeekAnswer(ps, sizes, fd, offset, whence)
      modifies this`inputOffset
      ensures Current() == TrackerStep(old(Current()), ps, sizes, Seek(fd, offset, whence))
    {
      if result.None? { return; }
      if fd == inputFileDescriptor { inputOffset := result.value; }
    }
  }

  lemma FillIsClear(sh: ShadowMap, a: nat, n: nat)
    ensures Fill(sh, a, n, None) == Clear(sh, a, n)
  {
  }

  predicate RangeOk(cache: seq<SymExpr>, k: nat, n: nat) { n == 0 || |TouchRange(cache, k, n)| >= k + n }

  /** The variables handed out for `n` offsets from `k` on. */
  function Answers(cache: seq<SymExpr>, k: nat, n: nat): (s: seq<SymExpr>)
    requires RangeOk(cache, k, n)
    ensures |s| == n
  {
    if n == 0 then [] else TouchRange(cache, k, n)[k..k + n]
  }

  lemma AnswersStep(cache: seq<SymExpr>, k: nat, i: nat)
    requires RangeOk(cache, k, i)
    ensures RangeOk(cache, k, i + 1)
    ensures Answers(cache, k, i + 1) == Answers(cache, k, i) + [Answer(TouchRange(cache, k, i), k + i)]
  {
    hide Touch;
    var before, after := TouchRange(cache, k, i), TouchRange(cache, k, i + 1);
    TouchExtends(before, k + i);
    assert after == Touch(before, k + i);
    if i > 0 { assert after[k..k + i] == before[k..k + i]; }
  }

  // ------------------------------------------------------------------- whole runs

  /** The descriptor is 0 at first when the input is the standard input, else -1. */
  function TrackerRun(sizes: int -> nat, calls: seq<FileCall>, fd: int): (t: Tracker)
  {
    if calls == [] then Tracker(fd, 0, [])
    else
      var n := |calls| - 1;
      TrackerStep(TrackerRun(sizes, calls[..n], fd), KernelRun(sizes, calls[..n]), sizes, calls[n])
  }

  /** The offsets that a run of calls requests, in order. */
  function Requests(sizes: int -> nat, calls: seq<FileCall>, fd: int): (offsets: seq<nat>)
  {
    if calls == [] then []
    else
      var n := |calls| - 1;
      var before, t, c := Requests(sizes, calls[..n], fd), TrackerRun(sizes, calls[..n], fd), calls[n];
      if c.ReadDone? && c.fd == t.fd then before + Range1(t.offset, c.got) else before
  }

  lemma {:induction false} TouchAllAppend(a: seq<nat>, k: nat, n: nat)
    ensures TouchAll(a + Range1(k, n)) == TouchRange(TouchAll(a), k, n)
  {
    hide Touch;
    var all := a + Range1(k, n);
    if n == 0 {
      assert all == a;
    } else {
      TouchAllAppend(a, k, n - 1);
      assert all[..|all| - 1] == a + Range1(k, n - 1);
    }
  }

  /** Over any run the variables are those that the offsets read so far ask for. */
  lemma {:induction false} CacheFollows(sizes: int -> nat, calls: seq<FileCall>, fd: int)
    ensures TrackerRun(sizes, calls, fd).cache == TouchAll(Requests(sizes, calls, fd))
  {
    hide TouchAll, TouchRange, Range1;
    if calls == [] {
      NothingTouched();
    } else {
      var n := |calls| - 1;
      CacheFollows(sizes, calls[..n], fd);
      var t := TrackerRun(sizes, calls[..n], fd);
      if calls[n].ReadDone? && calls[n].fd == t.fd {
        TouchAllAppend(Requests(sizes, calls[..n], fd), t.offset, calls[n].got);
      }
    }
  }

  predicate InStep(t: Tracker, ps: Positions) { t.offset == PositionOf(ps, t.fd) }

  /** Another file gets the number of the tracked descriptor, which is never given up. */
  predicate Mistaken(t: Tracker, c: FileCall) { c.Open? && !c.isInput && c.fd == t.fd && t.offset != 0 }

  lemma StepInStep(t: Tracker, ps: Positions, sizes: int -> nat, c: FileCall)
    requires InStep(t, ps)
    ensures InStep(TrackerStep(t, ps, sizes, c), KernelStep(ps, sizes, c)) <==> !Mistaken(t, c)
  {
    hide TouchRange;
  }

  predicate InStepAt(sizes: int -> nat, calls: seq<FileCall>, fd: int, k: nat)
    requires k <= |calls|
  {
    InStep(TrackerRun(sizes, calls[..k], fd), KernelRun(sizes, calls[..k]))
  }

  predicate MistakenAt(sizes: int -> nat, calls: seq<FileCall>, fd: int, k: nat)
    requires k < |calls|
  {
    Mistaken(TrackerRun(sizes, calls[..k], fd), calls[k])
  }

  lemma PrefixStep(sizes: int -> nat, calls: seq<FileCall>, fd: int, k: nat)
    requires k < |calls| && InStepAt(sizes, calls, fd, k)
    ensures InStepAt(sizes, calls, fd, k + 1) <==> !MistakenAt(sizes, calls, fd, k)
  {
    hide Mistaken;
    assert calls[..k + 1][..k] == calls[..k];
    StepInStep(TrackerRun(sizes, calls[..k], fd), KernelRun(sizes, calls[..k]), sizes, calls[k]);
  }

  lemma {:induction false} InStepUpTo(sizes: int -> nat, calls: seq<FileCall>, fd: int, n: nat)
    requires n <= |calls| && forall k :: 0 <= k < n ==> !MistakenAt(sizes, calls, fd, k)
    ensures forall k :: 0 <= k <= n ==> InStepAt(sizes, calls, fd, k)
  {
    hide MistakenAt;
    if n == 0 {
      assert calls[..0] == [];
    } else {
      InStepUpTo(sizes, calls, fd, n - 1);
      PrefixStep(sizes, calls, fd, n - 1);
    }
  }

  /** Over any run of opens, reads and seeks, whichever descriptor the input file gets, the
      tracked offset is always the position of that descriptor if and only if no other file
      is ever opened under its number while the offset is not 0. */
  lemma TrackerFollows(sizes: int -> nat, calls: seq<FileCall>, fd: int)
    ensures (forall k :: 0 <= k <= |calls| ==> InStepAt(sizes, calls, fd, k))
       <==> (forall k :: 0 <= k < |calls| ==> !MistakenAt(sizes, calls, fd, k))
  {
    hide MistakenAt, InStepAt;
    if forall k :: 0 <= k < |calls| ==> !MistakenAt(sizes, calls, fd, k) {
      InStepUpTo(sizes, calls, fd, |calls|);
    } else {
      var k :| 0 <= k < |calls| && MistakenAt(sizes, calls, fd, k);
      if InStepAt(sizes, calls, fd, k) { PrefixStep(sizes, calls, fd, k); }
    }
  }

  lemma NothingTouched()
    ensures TouchAll([]) == []
  {
  }

  /** What a read of the input leaves in memory and shadow: if the tracker is in step and
      the reads so far and this one leave no gap, every byte is described by the variable of
      its position in the file. */
  lemma SymbolicReadFaithful(sizes: int -> nat, calls: seq<FileCall>, fd: int, addr: nat, got: nat, file: seq<Byte>, sh: ShadowMap,
                             mem: Memory, input: Input)
    requires var t, ps := TrackerRun(sizes, calls, fd), KernelRun(sizes, calls);
             InStep(t, ps) && PositionOf(ps, t.fd) + got <= |file| &&
             GapFree(Requests(sizes, calls + [ReadDone(t.fd, addr, got)], fd))
    requires Faithful(sh, mem, input) && forall k: nat :: k < |file| ==> input(k) == file[k]
    ensures var t := TrackerRun(sizes, calls, fd);
            var o := PositionOf(KernelRun(sizes, calls), t.fd);
            RangeOk(t.cache, o, got) &&
            Faithful(Overlay(sh, addr, Answers(t.cache, o, got)), Store(mem, addr, file[o..o + got]), input)
  {
    hide Overlay, TouchAll, TouchRange, Requests, GapFree, KernelRun, PositionOf, Faithful, Store;
    var t := TrackerRun(sizes, calls, fd);
    var o, all := t.offset, calls + [ReadDone(t.fd, addr, got)];
    AfterRead(sizes, calls, fd, addr, got);
    CacheFollows(sizes, all, fd);
    GapFreeNames(Requests(sizes, all, fd));
    RangeReached(t.cache, o, got);
    AnswersNamed(t.cache, o, got);
    OverlayFaithful(sh, mem, addr, Answers(t.cache, o, got), o, file, input);
  }

  lemma AfterRead(sizes: int -> nat, calls: seq<FileCall>, fd: int, addr: nat, got: nat)
    ensures var t := TrackerRun(sizes, calls, fd);
            TrackerRun(sizes, calls + [ReadDone(t.fd, addr, got)], fd).cache == TouchRange(t.cache, t.offset, got)
  {
    hide TouchRange, KernelRun;
    var all := calls + [ReadDone(TrackerRun(sizes, calls, fd).fd, addr, got)];
    assert all[..|calls|] == calls;
  }

  lemma AnswersNamed(cache: seq<SymExpr>, k: nat, n: nat)
    requires RangeOk(cache, k, n) && NamedByOffset(TouchRange(cache, k, n))
    ensures forall i :: 0 <= i < n ==> Answers(cache, k, n)[i] == Some(InputByte(k + i))
  {
    hide TouchRange;
  }

  /** Reading on where the last read ended, as the machine of the compiler model does, gives
      the shadow that the machine assigns. */
  lemma SequentialReads(sh: ShadowMap, a: nat, cache: seq<SymExpr>, n: nat)
    requires NamedByOffset(cache)
    ensures RangeOk(cache, |cache|, n) && NamedByOffset(TouchRange(cache, |cache|, n))
    ensures |TouchRange(cache, |cache|, n)| == |cache| + n
    ensures Overlay(sh, a, Answers(cache, |cache|, n)) == Instrumentation.InputShadow(sh, a, n, |cache|)
  {
    hide Overlay, Instrumentation.InputShadow, TouchRange, NamedByOffset, Lookup, Answers;
    NextNamed(cache, n);
    AnswersNamed(cache, |cache|, n);
    var m, m' := Overlay(sh, a, Answers(cache, |cache|, n)), Instrumentation.InputShadow(sh, a, n, |cache|);
    forall x: nat
      ensures Lookup(m, x) == Lookup(m', x)
    {
      InputShadowAt(sh, a, n, |cache|, x);
    }
    SameMap(m, m');
  }

  lemma InputShadowAt(sh: ShadowMap, a: nat, n: nat, pos: nat, x: nat)
    ensures Lookup(Instrumentation.InputShadow(sh, a, n, pos), x) == if a <= x < a + n then Some(InputByte(pos + (x - a))) else Lookup(sh, x)
  {
  }

  lemma SameMap(m: ShadowMap, m': ShadowMap)
    requires forall x: nat :: Lookup(m, x) == Lookup(m', x)
    ensures m == m'
  {
    assert forall x :: x in m <==> Lookup(m, x).Some?;
    assert forall x :: x in m' <==> Lookup(m', x).Some?;
  }

  lemma {:induction false} NextNamed(cache: seq<SymExpr>, n: nat)
    requires NamedByOffset(cache)
    ensures NamedByOffset(TouchRange(cache, |cache|, n)) && |TouchRange(cache, |cache|, n)| == |cache| + n
  {
    if n > 0 { NextNamed(cache, n - 1); }
  }

  lemma RangeReached(cache: seq<SymExpr>, k: nat, n: nat)
    ensures RangeOk(cache, k, n)
  {
  }

  lemma OverlayFaithful(sh: ShadowMap, mem: Memory, a: nat, values: seq<SymExpr>, o: nat, file: seq<Byte>, input: Input)
    requires Faithful(sh, mem, input) && o + |values| <= |file| && forall k: nat :: k < |file| ==> input(k) == file[k]
    requires forall i :: 0 <= i < |values| ==> values[i] == Some(InputByte(o + i))
    ensures Faithful(Overlay(sh, a, values), Store(mem, a, file[o..o + |values|]), input)
  {
    hide Overlay;
    var sh', mem' := Overlay(sh, a, values), Store(mem, a, file[o..o + |values|]);
    forall x | x in sh'
      ensures x in mem' && Denotes(sh'[x], BitVec(8), mem'[x], input)
    {
      assert Lookup(sh', x) == Some(sh'[x]);
      if a <= x < a + |values| {
        assert values[x - a] == Some(InputByte(o + (x - a)));
      }
    }
  }
}
