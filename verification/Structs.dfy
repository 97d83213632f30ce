/** Structures held in registers: the expression of a structure constant is the
    image of the structure in memory, and members are read and written at their
    offsets in that image. */
module Structs {
  import opened Bits
  import opened Exprs
  import opened Builders
  import opened IR
  import opened Symbolizer
  import opened Describing

  // ------------------------------------------------------------------ layouts

  /** Integers (and pointers, as integers of their width), structures with the offsets
      that the data layout assigns, and arrays with the distance between elements. */
  datatype Type = IntType(width: nat) | StructType(fields: seq<Member>, size: nat) | ArrayType(element: Type, count: nat, stride: nat)

  datatype Member = Member(ty: Type, offset: nat)

  function Size(ty: Type): (n: nat)
  {
    match ty
    case IntType(w) => StoreSize(w)
    case StructType(_, size) => size
    case ArrayType(_, count, stride) => count * stride
  }

  predicate Composite(ty: Type) { !ty.IntType? }

  function Parts(ty: Type): (n: nat)
    requires Composite(ty)
  {
    if ty.StructType? then |ty.fields| else ty.count
  }

  function PartType(ty: Type, k: nat): (r: Type)
    requires Composite(ty) && k < Parts(ty)
  {
    if ty.StructType? then ty.fields[k].ty else ty.element
  }

  function PartOffset(ty: Type, k: nat): (n: nat)
    requires Composite(ty) && k < Parts(ty)
  {
    if ty.StructType? then ty.fields[k].offset else ty.stride * k
  }

  function PartAt(ty: Type, k: nat): (m: Member)
    requires Composite(ty) && k < Parts(ty)
  {
    Member(PartType(ty, k), PartOffset(ty, k))
  }

  /** Where the bytes of part `k - 1` end. */
  function EndOf(ty: Type, k: nat): (n: nat)
    requires Composite(ty) && k <= Parts(ty)
  {
    if k == 0 then 0 else PartOffset(ty, k - 1) + Size(PartType(ty, k - 1))
  }

  /** A part starts behind the one before and ends inside the whole. */
  predicate PartFits(ty: Type, k: nat)
    requires Composite(ty) && k < Parts(ty)
  {
    EndOf(ty, k) <= PartOffset(ty, k) && EndOf(ty, k + 1) <= Size(ty)
  }

  /** Parts are in order; scalars have a byte count that the byte swap accepts; there are
      no empty structures or arrays. */
  predicate Laid(ty: Type)
  {
    if ty.IntType? then Storable(ty.width) && (StoreSize(ty.width) == 1 || StoreSize(ty.width) % 2 == 0)
    else Parts(ty) >= 1 && forall k :: 0 <= k < Parts(ty) ==> PartFits(ty, k) && Laid(PartType(ty, k))
  }

  /** Elements that fit into the distance between them. */
  lemma ArraysAreLaid(element: Type, count: nat, stride: nat)
    requires Laid(element) && count >= 1 && Size(element) <= stride
    ensures Laid(ArrayType(element, count, stride))
  {
    var ty := ArrayType(element, count, stride);
    forall k | 0 <= k < Parts(ty)
      ensures PartFits(ty, k)
    {
      if k > 0 { assert stride * (k - 1) + stride == stride * k; }
      MulLeq(k + 1, count, stride);
      assert (k + 1) * stride == stride * k + stride;
    }
  }

  /** What the builder for constants accepts. */
  predicate NoArrays(ty: Type)
  {
    !ty.ArrayType? && (ty.StructType? ==> forall k :: 0 <= k < |ty.fields| ==> NoArrays(ty.fields[k].ty))
  }

  /** Structure values; any part may be undefined. */
  datatype StructVal = Scalar(v: Val) | Aggregate(fields: seq<StructVal>) | Undef

  predicate HasType(v: StructVal, ty: Type)
  {
    match v
    case Scalar(x) => ty == IntType(x.width)
    case Aggregate(vs) =>
      Composite(ty) && |vs| == Parts(ty) && forall k :: 0 <= k < |vs| ==> HasType(vs[k], PartType(ty, k))
    case Undef => true
  }

  function Part(v: StructVal, k: nat): (p: StructVal)
    requires v.Aggregate? ==> k < |v.fields|
  {
    if v.Aggregate? then v.fields[k] else Undef
  }

  // ---------------------------------------------------------- building expressions

  function Append1(e: SymExpr, x: Expr): (r: Expr) { if e.None? then x else Concat(e.value, x) }

  /** An integer as bytes in memory order. */
  function ScalarExpr(v: Val, le: bool): (e: Expr)
    requires Storable(v.width)
  {
    var bits := if v.width == 1 then ZExt(BoolToBit(ValueExpr(v)), 7) else ValueExpr(v);
    if le && StoreSize(v.width) > 1 then ByteSwap(bits, StoreSize(v.width)) else bits
  }

  /** The expression for a member; whole structures that are undefined become zeros. */
  function MemberExpr(v: StructVal, ty: Type, le: bool): (e: Expr)
    requires Laid(ty) && HasType(v, ty)
    decreases ty, 1, 0
  {
    if ty.IntType? then ScalarExpr(if v.Scalar? then v.v else Value(0, ty.width), le)
    else if v.Undef? then ZeroBytes(Size(ty))
    else StructExpr(v, ty, le)
  }

  function PartExpr(v: StructVal, ty: Type, k: nat, le: bool): (e: Expr)
    requires Composite(ty) && k < Parts(ty) && Laid(ty) && HasType(v, ty) && v.Aggregate?
    decreases ty, 0, 0
  {
    hide Size;
    Field(ty, k);
    FieldValue(v, ty, k);
    MemberExpr(v.fields[k], PartType(ty, k), le)
  }

  /** The first `k` members with the padding before each of them. */
  function Expressed(v: StructVal, ty: Type, k: nat, le: bool): (e: SymExpr)
    requires Composite(ty) && k <= Parts(ty) && Laid(ty) && HasType(v, ty) && v.Aggregate?
    decreases ty, 0, k + 1
  {
    hide Laid, HasType, Size, PartOffset, PartType;
    if k == 0 then None
    else
      Field(ty, k - 1);
      var before, start, offset := Expressed(v, ty, k - 1, le), PartOffset(ty, k - 1), EndOf(ty, k - 1);
      var padded := if start > offset then Some(Append1(before, ZeroBytes(start - offset))) else before;
      Some(Append1(padded, PartExpr(v, ty, k - 1, le)))
  }

  function StructExpr(v: StructVal, ty: Type, le: bool): (e: Expr)
    requires Laid(ty) && HasType(v, ty) && v.Aggregate?
    decreases ty, 0, if Composite(ty) then Parts(ty) + 2 else 0
  {
    var n := Parts(ty);
    var all, offset := Expressed(v, ty, n, le), EndOf(ty, n);
    if Size(ty) > offset then Append1(all, ZeroBytes(Size(ty) - offset)) else all.value
  }

  lemma ExpressedStep(v: StructVal, ty: Type, k: nat, le: bool)
    requires Laid(ty) && HasType(v, ty) && v.Aggregate? && k < Parts(ty)
    ensures Laid(PartType(ty, k)) && k < |v.fields| && HasType(v.fields[k], PartType(ty, k))
    ensures var before, m := Expressed(v, ty, k, le), PartAt(ty, k);
            m.offset >= EndOf(ty, k) &&
            var padded := if m.offset > EndOf(ty, k) then Some(Append1(before, ZeroBytes(m.offset - EndOf(ty, k)))) else before;
            Expressed(v, ty, k + 1, le) == Some(Append1(padded, MemberExpr(v.fields[k], m.ty, le)))
  {
    hide MemberExpr, Append1, ZeroBytes;
  }

  /** The loop of the pass over the elements of a structure. */
  method CreateValueExpression(v: StructVal, ty: Type, le: bool) returns (e: Expr)
    requires Laid(ty) && HasType(v, ty) && NoArrays(ty)
    ensures e == MemberExpr(v, ty, le)
    decreases ty
  {
    hide ScalarExpr, Append1, ZeroBytes, Expressed;
    if ty.IntType? {
      e := ScalarExpr(if v.Scalar? then v.v else Value(0, ty.width), le);
    } else if v.Undef? {
      e := BuildZeroBytes(Size(ty));
    } else {
      e := CreateStructExpression(v, ty, le);
    }
  }

  method CreateStructExpression(v: StructVal, ty: Type, le: bool) returns (e: Expr)
    requires Laid(ty) && HasType(v, ty) && v.Aggregate? && NoArrays(ty)
    ensures e == StructExpr(v, ty, le)
    decreases ty, 0
  {
    hide Append1, ZeroBytes, Expressed, Laid, HasType, MemberExpr;
    StructFacts(v, ty, le);
    var offset: nat := 0;
    var expr: SymExpr := None;
    for i := 0 to Parts(ty)
      invariant expr == Expressed(v, ty, i, le) && offset == EndOf(ty, i)
    {
      ExpressedStep(v, ty, i, le);
      var m := PartAt(ty, i);
      if m.offset > offset {
        var padding := BuildZeroBytes(m.offset - offset);
        expr := Some(Append1(expr, padding));
      }
      var element := CreateValueExpression(v.fields[i], m.ty, le);
      expr := Some(Append1(expr, element));
      offset := m.offset + Size(m.ty);
    }
    if Size(ty) > offset {
      var padding := BuildZeroBytes(Size(ty) - offset);
      expr := Some(Append1(expr, padding));
    }
    e := expr.value;
  }

  lemma StructFacts(v: StructVal, ty: Type, le: bool)
    requires Laid(ty) && HasType(v, ty) && v.Aggregate?
    ensures Composite(ty) && Parts(ty) >= 1 && Expressed(v, ty, 0, le) == None && Expressed(v, ty, Parts(ty), le).Some?
  {
    hide MemberExpr, Append1, ZeroBytes;
  }

  // ------------------------------------------------------------- the memory image

  function ScalarBytes(v: Val, le: bool): (s: seq<Byte>)
    requires Storable(v.width)
    ensures |s| == StoreSize(v.width)
  {
    Ordered(ValueBytes(v), le)
  }

  /** What a store of the value leaves in zeroed memory. */
  function MemoryImage(v: StructVal, ty: Type, le: bool): (s: seq<Byte>)
    requires Laid(ty) && HasType(v, ty)
    ensures |s| == Size(ty)
    decreases ty, 1, 0
  {
    match v
    case Scalar(x) => ScalarBytes(x, le)
    case Undef => Zeros(Size(ty))
    case Aggregate(_) => Painted(v, ty, Parts(ty), le)
  }

  lemma Field(ty: Type, k: nat)
    requires Laid(ty) && Composite(ty) && k < Parts(ty)
    ensures Laid(PartType(ty, k)) && EndOf(ty, k) <= PartOffset(ty, k) <= EndOf(ty, k + 1) <= Size(ty)
    ensures EndOf(ty, k + 1) == PartOffset(ty, k) + Size(PartType(ty, k))
  {
    hide PartOffset, PartType, Size;
  }

  lemma FieldsFit(ty: Type, k: nat)
    requires Laid(ty) && Composite(ty) && k <= Parts(ty)
    ensures EndOf(ty, k) <= Size(ty)
  {
    hide Laid, PartOffset, PartType, Size;
    if k > 0 { Field(ty, k - 1); }
  }

  lemma FieldValue(v: StructVal, ty: Type, k: nat)
    requires HasType(v, ty) && v.Aggregate? && Composite(ty) && k < Parts(ty)
    ensures k < |v.fields| && HasType(v.fields[k], PartType(ty, k))
  {
  }

  /** Zeros with the first `k` members stored at their offsets. */
  function Painted(v: StructVal, ty: Type, k: nat, le: bool): (s: seq<Byte>)
    requires Composite(ty) && k <= Parts(ty) && Laid(ty) && HasType(v, ty) && v.Aggregate?
    ensures |s| == Size(ty)
    decreases ty, 0, k + 1
  {
    hide Laid, HasType, Size, PartOffset, PartType;
    if k == 0 then Zeros(Size(ty))
    else
      Field(ty, k - 1);
      FieldValue(v, ty, k - 1);
      Overwrite(Painted(v, ty, k - 1, le), PartImage(v, ty, k - 1, le), PartOffset(ty, k - 1))
  }

  function PartImage(v: StructVal, ty: Type, k: nat, le: bool): (s: seq<Byte>)
    requires Composite(ty) && k < Parts(ty) && Laid(ty) && HasType(v, ty) && v.Aggregate?
    ensures |s| == Size(PartType(ty, k))
    decreases ty, 0, 0
  {
    hide Size;
    Field(ty, k);
    FieldValue(v, ty, k);
    MemoryImage(v.fields[k], PartType(ty, k), le)
  }

  lemma SizePositive(ty: Type)
    requires Laid(ty)
    ensures Size(ty) >= 1
  {
    if Composite(ty) {
      SizePositive(PartType(ty, 0));
      FieldsFit(ty, 1);
    }
  }

  lemma IntegerShows(v: Val, input: Input)
    requires Storable(v.width)
    ensures Shows(if v.width == 1 then ZExt(BoolToBit(ValueExpr(v)), 7) else ValueExpr(v), ValueBytes(v), input)
  {
    hide BoolToBit, ZExt, ValueExpr;
    ValueExprDescribes(v, input);
    if v.width == 1 {
      BoolToBitDenotes(ValueExpr(v), v.bits, input);
      BoolByteShows(BoolToBit(ValueExpr(v)), v.bits, input);
    }
  }

  lemma BoolByteShows(e: Expr, x: nat, input: Input)
    requires Denotes(e, BitVec(1), x, input)
    ensures Shows(ZExt(e, 7), Bytes(x, 1), input)
  {
    assert Pow2(1) == 2 * Pow2(0);
  }

  lemma ScalarShows(v: Val, le: bool, input: Input)
    requires Laid(IntType(v.width))
    ensures Shows(ScalarExpr(v, le), ScalarBytes(v, le), input)
  {
    hide Shows, ValueExpr, BoolToBit, ZExt, ByteSwap, ValueBytes;
    IntegerShows(v, input);
    var bits := if v.width == 1 then ZExt(BoolToBit(ValueExpr(v)), 7) else ValueExpr(v);
    ShowsPiece(bits, ValueBytes(v), le, input);
  }

  /** Writing behind everything that is not zero. */
  lemma OverwriteBehind(s: seq<Byte>, end: nat, p: seq<Byte>, off: nat)
    requires end <= off && off + |p| <= |s| && s[end..] == Zeros(|s| - end)
    ensures Overwrite(s, p, off)[off + |p|..] == Zeros(|s| - off - |p|)
    ensures Overwrite(s, p, off)[..off + |p|] == s[..end] + Zeros(off - end) + p
  {
    hide Zeros;
    assert s[off + |p|..] == s[end..][off + |p| - end..];
    assert s[..off] == s[..end] + s[end..][..off - end];
    assert s[end..][..off - end] == Zeros(off - end);
  }

  lemma PaintedOne(v: StructVal, ty: Type, k: nat, le: bool)
    requires Laid(ty) && HasType(v, ty) && v.Aggregate? && k < Parts(ty)
    ensures Laid(PartType(ty, k)) && k < |v.fields| && HasType(v.fields[k], PartType(ty, k))
    ensures EndOf(ty, k + 1) <= Size(ty)
    ensures Painted(v, ty, k + 1, le) == Overwrite(Painted(v, ty, k, le), MemoryImage(v.fields[k], PartType(ty, k), le), PartOffset(ty, k))
  {
    hide MemoryImage, Overwrite;
    FieldsFit(ty, k + 1);
  }

  lemma {:induction false} PaintedRest(v: StructVal, ty: Type, k: nat, le: bool)
    requires Laid(ty) && HasType(v, ty) && v.Aggregate? && Composite(ty) && k <= Parts(ty)
    ensures EndOf(ty, k) <= Size(ty)
    ensures Painted(v, ty, k, le)[EndOf(ty, k)..] == Zeros(Size(ty) - EndOf(ty, k))
  {
    hide MemoryImage, Laid, HasType, Overwrite, Painted;
    if k == 0 {
      PaintedNone(v, ty, le);
    } else {
      PaintedRest(v, ty, k - 1, le);
      Field(ty, k - 1);
      PaintedOne(v, ty, k - 1, le);
      OverwriteBehind(Painted(v, ty, k - 1, le), EndOf(ty, k - 1), MemoryImage(v.fields[k - 1], PartType(ty, k - 1), le), PartOffset(ty, k - 1));
    }
  }

  lemma PaintedNone(v: StructVal, ty: Type, le: bool)
    requires Laid(ty) && HasType(v, ty) && v.Aggregate? && Composite(ty)
    ensures Painted(v, ty, 0, le) == Zeros(Size(ty)) && Painted(v, ty, 0, le)[0..] == Zeros(Size(ty))
  {
  }

  /** One more member behind the first `k`. */
  lemma PaintedStep(v: StructVal, ty: Type, k: nat, le: bool)
    requires Laid(ty) && HasType(v, ty) && v.Aggregate? && Composite(ty) && k < Parts(ty)
    ensures Laid(PartType(ty, k)) && k < |v.fields| && HasType(v.fields[k], PartType(ty, k))
    ensures var m, end := PartAt(ty, k), EndOf(ty, k);
            end <= m.offset && EndOf(ty, k + 1) <= Size(ty) &&
            Painted(v, ty, k + 1, le)[..EndOf(ty, k + 1)]
              == Painted(v, ty, k, le)[..end] + Zeros(m.offset - end) + MemoryImage(v.fields[k], m.ty, le)
  {
    hide MemoryImage, Laid, HasType, Overwrite, Painted;
    PaintedRest(v, ty, k, le);
    Field(ty, k);
    PaintedOne(v, ty, k, le);
    OverwriteBehind(Painted(v, ty, k, le), EndOf(ty, k), MemoryImage(v.fields[k], PartType(ty, k), le), PartOffset(ty, k));
  }

  /** Appending, where nothing stands for no bytes at all. */
  predicate ShowsAny(e: SymExpr, s: seq<Byte>, input: Input)
  {
    if e.None? then s == [] else Shows(e.value, s, input)
  }

  lemma ShowsAppend(e: SymExpr, s: seq<Byte>, x: Expr, t: seq<Byte>, input: Input)
    requires ShowsAny(e, s, input) && Shows(x, t, input)
    ensures Shows(Append1(e, x), s + t, input)
  {
    hide Shows;
    if e.None? { assert s + t == t; } else { ShowsConcat(e.value, s, x, t, input); }
  }

  lemma ShowsPadding(e: SymExpr, s: seq<Byte>, n: nat, input: Input)
    requires ShowsAny(e, s, input)
    ensures ShowsAny(if n > 0 then Some(Append1(e, ZeroBytes(n))) else e, s + Zeros(n), input)
  {
    hide Shows, ZeroBytes, Append1;
    if n > 0 {
      ShowsZeroBytes(n, input);
      ShowsAppend(e, s, ZeroBytes(n), Zeros(n), input);
    } else {
      assert s + Zeros(0) == s;
    }
  }

  lemma {:induction false} ExpressedShows(v: StructVal, ty: Type, k: nat, le: bool, input: Input)
    requires Laid(ty) && HasType(v, ty) && v.Aggregate? && Composite(ty) && k <= Parts(ty)
    ensures EndOf(ty, k) <= Size(ty)
    ensures ShowsAny(Expressed(v, ty, k, le), Painted(v, ty, k, le)[..EndOf(ty, k)], input)
    decreases ty, 0, k
  {
    hide Shows, ZeroBytes, Append1, MemberExpr, MemoryImage, Painted, Laid, HasType, Expressed;
    if k == 0 {
      StructFacts(v, ty, le);
    } else {
      ExpressedShows(v, ty, k - 1, le, input);
      Field(ty, k - 1);
      PaintedStep(v, ty, k - 1, le);
      ExpressedStep(v, ty, k - 1, le);
      var m, offset, e := PartAt(ty, k - 1), EndOf(ty, k - 1), Expressed(v, ty, k - 1, le);
      var s := Painted(v, ty, k - 1, le)[..offset];
      ShowsPadding(e, s, m.offset - offset, input);
      var padded := if m.offset > offset then Some(Append1(e, ZeroBytes(m.offset - offset))) else e;
      StructShows(v.fields[k - 1], m.ty, le, input);
      ShowsAppend(padded, s + Zeros(m.offset - offset), MemberExpr(v.fields[k - 1], m.ty, le), MemoryImage(v.fields[k - 1], m.ty, le), input);
    }
  }

  /** The expression of a structure has the width of the structure in memory and the
      value of its memory image, with zeros for padding. */
  lemma {:induction false} StructShows(v: StructVal, ty: Type, le: bool, input: Input)
    requires Laid(ty) && HasType(v, ty)
    ensures Shows(MemberExpr(v, ty, le), MemoryImage(v, ty, le), input)
    decreases ty, 1, 0
  {
    hide Shows, ZeroBytes, Append1, ScalarExpr, Expressed, Painted, ScalarBytes;
    if ty.IntType? {
      var x := if v.Scalar? then v.v else Value(0, ty.width);
      ScalarShows(x, le, input);
      if v.Undef? { ZeroScalar(ty.width, le); }
    } else if v.Undef? {
      SizePositive(ty);
      ShowsZeroBytes(Size(ty), input);
    } else {
      AllShows(v, ty, le, input);
    }
  }

  lemma {:induction false} AllShows(v: StructVal, ty: Type, le: bool, input: Input)
    requires Composite(ty) && Laid(ty) && HasType(v, ty) && v.Aggregate?
    ensures Shows(StructExpr(v, ty, le), Painted(v, ty, Parts(ty), le), input)
    decreases ty, 0, Parts(ty) + 1
  {
    hide Laid, HasType, Size, Shows, ZeroBytes, Append1, Painted, MemberExpr, MemoryImage, Expressed;
    StructFacts(v, ty, le);
    var n := Parts(ty);
    var all, end, s := Expressed(v, ty, n, le), EndOf(ty, n), Painted(v, ty, n, le);
    ExpressedShows(v, ty, n, le, input);
    PaintedRest(v, ty, n, le);
    ShowsPadding(all, s[..end], Size(ty) - end, input);
    assert s == s[..end] + Zeros(Size(ty) - end);
  }

  lemma ZeroScalar(w: nat, le: bool)
    requires Storable(w)
    ensures ScalarBytes(Value(0, w), le) == Zeros(StoreSize(w))
  {
    hide Reversed, Bytes, Zeros, StoreSize;
    ZeroBytesOf(StoreSize(w));
    ZerosReversed(StoreSize(w));
  }

  lemma ZerosReversed(n: nat)
    ensures Reversed(Zeros(n)) == Zeros(n)
  {
    hide Reversed, Zeros;
  }

  lemma {:induction false} ZeroBytesOf(n: nat)
    ensures Bytes(0, n) == Zeros(n)
  {
    if n > 0 { ZeroBytesOf(n - 1); }
  }

  // ---------------------------------------------------------------- members

  lemma AggregateParts(v: StructVal, ty: Type)
    requires HasType(v, ty) && v.Aggregate?
    ensures Composite(ty) && Parts(ty) == |v.fields| && forall k :: 0 <= k < |v.fields| ==> HasType(v.fields[k], PartType(ty, k))
  {
  }

  predicate PartRepresented(s: seq<Byte>, x: StructVal, ty: Type, k: nat, le: bool)
    requires Laid(ty) && Composite(ty) && k < Parts(ty) && HasType(x, PartType(ty, k)) && |s| == Size(ty)
    decreases ty, 0
  {
    hide Laid, HasType;
    Field(ty, k);
    Represents(s[PartOffset(ty, k)..EndOf(ty, k + 1)], x, PartType(ty, k), le)
  }

  /** The bytes hold the value: every scalar at its place, anything as padding. */
  predicate Represents(s: seq<Byte>, v: StructVal, ty: Type, le: bool)
    requires Laid(ty) && HasType(v, ty)
    decreases ty, 1
  {
    |s| == Size(ty) &&
    match v
    case Scalar(x) => s == ScalarBytes(x, le)
    case Undef => true
    case Aggregate(vs) =>
      AggregateParts(v, ty);
      forall k :: 0 <= k < |vs| ==> PartRepresented(s, vs[k], ty, k, le)
  }

  /** A path of member indices into a type. */
  predicate PathOk(ty: Type, path: seq<nat>)
  {
    path == [] || (Composite(ty) && path[0] < Parts(ty) && PathOk(PartType(ty, path[0]), path[1..]))
  }

  function TypeAt(ty: Type, path: seq<nat>): (r: Type)
    requires PathOk(ty, path)
    ensures Laid(ty) ==> Laid(r)
    decreases |path|
  {
    if path == [] then ty else TypeAt(PartType(ty, path[0]), path[1..])
  }

  /** The byte offset of a nested member: the sum of the offsets along the path. */
  function OffsetAt(ty: Type, path: seq<nat>): (n: nat)
    requires PathOk(ty, path)
    decreases |path|
  {
    if path == [] then 0 else PartOffset(ty, path[0]) + OffsetAt(PartType(ty, path[0]), path[1..])
  }

  method AggregateMemberOffset(ty: Type, path: seq<nat>) returns (offset: nat)
    requires PathOk(ty, path)
    ensures offset == OffsetAt(ty, path)
  {
    offset := 0;
    var indexed := ty;
    for i := 0 to |path|
      invariant PathOk(indexed, path[i..]) && offset + OffsetAt(indexed, path[i..]) == OffsetAt(ty, path)
    {
      assert path[i..][1..] == path[i + 1..];
      if indexed.StructType? {
        offset := offset + indexed.fields[path[i]].offset;
        indexed := indexed.fields[path[i]].ty;
      } else {
        offset := offset + indexed.stride * path[i];
        indexed := indexed.element;
      }
    }
  }

  function MemberAt(v: StructVal, ty: Type, path: seq<nat>): (r: StructVal)
    requires PathOk(ty, path) && HasType(v, ty)
    ensures HasType(r, TypeAt(ty, path))
    decreases |path|
  {
    if path == [] then v else MemberAt(Part(v, path[0]), PartType(ty, path[0]), path[1..])
  }

  /** The parts of a value, undefined ones for an undefined value. */
  function PartsOf(v: StructVal, ty: Type): (vs: seq<StructVal>)
    requires HasType(v, ty) && Composite(ty)
    ensures |vs| == Parts(ty)
    ensures forall k :: 0 <= k < |vs| ==> HasType(vs[k], PartType(ty, k))
    ensures v.Aggregate? ==> vs == v.fields
    ensures forall k :: 0 <= k < |vs| ==> (v.Aggregate? ==> k < |v.fields|) && vs[k] == Part(v, k)
  {
    if v.Aggregate? then v.fields else seq(Parts(ty), k => Undef)
  }

  /** The value with one nested member replaced. */
  function Updated(v: StructVal, ty: Type, path: seq<nat>, x: StructVal): (r: StructVal)
    requires PathOk(ty, path) && HasType(v, ty) && HasType(x, TypeAt(ty, path))
    ensures HasType(r, ty)
    decreases |path|
  {
    if path == [] then x
    else
      hide HasType;
      PartHasType(v, ty, path[0]);
      var part := Updated(Part(v, path[0]), PartType(ty, path[0]), path[1..], x);
      AggregateHasType(PartsOf(v, ty)[path[0] := part], ty);
      Aggregate(PartsOf(v, ty)[path[0] := part])
  }

  /** A member lies inside the structure. */
  lemma {:induction false} MemberInside(ty: Type, path: seq<nat>)
    requires Laid(ty) && PathOk(ty, path)
    ensures OffsetAt(ty, path) + Size(TypeAt(ty, path)) <= Size(ty)
    decreases |path|
  {
    hide Laid, PartOffset, PartType, Size;
    if path != [] {
      Field(ty, path[0]);
      MemberInside(PartType(ty, path[0]), path[1..]);
    }
  }

  lemma FieldRepresented(s: seq<Byte>, v: StructVal, ty: Type, k: nat, le: bool)
    requires Laid(ty) && HasType(v, ty) && Represents(s, v, ty, le) && Composite(ty) && k < Parts(ty)
    ensures EndOf(ty, k + 1) <= |s|
    ensures Represents(s[PartOffset(ty, k)..EndOf(ty, k + 1)], Part(v, k), PartType(ty, k), le)
  {
    FieldsFit(ty, k + 1);
  }

  /** The bytes at a member's offset hold the member. */
  lemma {:induction false} MemberRepresented(s: seq<Byte>, v: StructVal, ty: Type, path: seq<nat>, le: bool)
    requires Laid(ty) && PathOk(ty, path) && HasType(v, ty) && Represents(s, v, ty, le)
    ensures OffsetAt(ty, path) + Size(TypeAt(ty, path)) <= |s|
    ensures Represents(s[OffsetAt(ty, path)..OffsetAt(ty, path) + Size(TypeAt(ty, path))], MemberAt(v, ty, path), TypeAt(ty, path), le)
    decreases |path|
  {
    hide Represents, HasType, Laid, Part;
    RepresentsSize(s, v, ty, le);
    MemberInside(ty, path);
    if path == [] {
      assert s[0..0 + |s|] == s;
    } else {
      var k, m := path[0], PartAt(ty, path[0]);
      Field(ty, k);
      PartHasType(v, ty, k);
      FieldRepresented(s, v, ty, k, le);
      var t := s[m.offset..EndOf(ty, k + 1)];
      MemberRepresented(t, Part(v, k), m.ty, path[1..], le);
      SliceOfSlice(s, m.offset, EndOf(ty, k + 1), OffsetAt(m.ty, path[1..]), Size(TypeAt(ty, path)));
    }
  }

  lemma SliceOfSlice(s: seq<Byte>, i: nat, j: nat, off: nat, n: nat)
    requires i <= j <= |s| && i + off + n <= j
    ensures s[i..j][off..off + n] == s[i + off..i + off + n]
  {
    var a, b := s[i..j][off..off + n], s[i + off..i + off + n];
    assert |a| == |b| && forall k :: 0 <= k < n ==> a[k] == b[k];
  }

  lemma RepresentsSize(s: seq<Byte>, v: StructVal, ty: Type, le: bool)
    requires Laid(ty) && HasType(v, ty) && Represents(s, v, ty, le)
    ensures |s| == Size(ty)
  {
  }

  lemma PartHasType(v: StructVal, ty: Type, k: nat)
    requires HasType(v, ty) && Composite(ty) && k < Parts(ty)
    ensures (v.Aggregate? ==> k < |v.fields|) && HasType(Part(v, k), PartType(ty, k))
  {
  }

  /** The zero-padded image holds the value. */
  lemma {:induction false} ImageRepresents(v: StructVal, ty: Type, le: bool)
    requires Laid(ty) && HasType(v, ty)
    ensures Represents(MemoryImage(v, ty, le), v, ty, le)
    decreases ty
  {
    hide Painted;
    if v.Aggregate? {
      var n, s := Parts(ty), MemoryImage(v, ty, le);
      forall k | 0 <= k < n
        ensures EndOf(ty, k + 1) <= |s| && Represents(s[PartOffset(ty, k)..EndOf(ty, k + 1)], v.fields[k], PartType(ty, k), le)
      {
        FieldsFit(ty, k + 1);
        ImageRepresents(v.fields[k], PartType(ty, k), le);
        PaintedField(v, ty, k, n, le);
      }
    }
  }

  /** Members painted later do not touch the earlier ones. */
  lemma {:induction false} PaintedField(v: StructVal, ty: Type, k: nat, n: nat, le: bool)
    requires Laid(ty) && HasType(v, ty) && v.Aggregate? && Composite(ty) && k < n <= Parts(ty)
    ensures EndOf(ty, k + 1) <= Size(ty)
    ensures Painted(v, ty, n, le)[PartOffset(ty, k)..EndOf(ty, k + 1)] == MemoryImage(v.fields[k], PartType(ty, k), le)
    decreases n
  {
    hide MemoryImage, Laid, HasType, Painted, Overwrite;
    Field(ty, k);
    Field(ty, n - 1);
    FieldValue(v, ty, k);
    PaintedOne(v, ty, n - 1, le);
    var before, p := Painted(v, ty, n - 1, le), MemoryImage(v.fields[n - 1], PartType(ty, n - 1), le);
    if k < n - 1 {
      PaintedField(v, ty, k, n - 1, le);
      EndsInOrder(ty, k + 1, n - 1);
      OverwriteElsewhere(before, p, PartOffset(ty, n - 1), PartOffset(ty, k), EndOf(ty, k + 1));
    } else {
      OverwriteHere(before, p, PartOffset(ty, k));
    }
  }

  lemma OverwriteElsewhere(s: seq<Byte>, p: seq<Byte>, off: nat, i: nat, j: nat)
    requires off + |p| <= |s| && i <= j <= |s| && (j <= off || off + |p| <= i)
    ensures Overwrite(s, p, off)[i..j] == s[i..j]
  {
  }

  lemma OverwriteHere(s: seq<Byte>, p: seq<Byte>, off: nat)
    requires off + |p| <= |s|
    ensures Overwrite(s, p, off)[off..off + |p|] == p
  {
  }

  lemma {:induction false} EndsInOrder(ty: Type, i: nat, j: nat)
    requires Laid(ty) && Composite(ty) && i <= j < Parts(ty)
    ensures EndOf(ty, i) <= EndOf(ty, j) <= PartOffset(ty, j)
  {
    hide Laid;
    Field(ty, j);
    if i < j {
      EndsInOrder(ty, i, j - 1);
      Field(ty, j - 1);
    }
  }

  // ------------------------------------------------------- extractvalue and insertvalue

  predicate SwappedFor(ty: Type, le: bool) { ty.IntType? && le }

  /** The conversion of a member's bits to the kind of its type. */
  function FromBits(e: Expr, ty: Type): (r: Expr)
  {
    if ty == IntType(1) then BitToBool(TruncTo(e, 1)) else e
  }

  function ExtractValue(e: Expr, ty: Type, path: seq<nat>, le: bool): (r: Expr)
    requires Laid(ty) && PathOk(ty, path)
  {
    MemberInside(ty, path);
    SizePositive(TypeAt(ty, path));
    FromBits(ExtractMember(e, Size(ty), OffsetAt(ty, path), Size(TypeAt(ty, path)), SwappedFor(TypeAt(ty, path), le)), TypeAt(ty, path))
  }

  /** Extracting a scalar describes the member of the structure. */
  lemma ExtractValueDescribes(e: Expr, s: seq<Byte>, v: StructVal, ty: Type, path: seq<nat>, le: bool, input: Input)
    requires Laid(ty) && PathOk(ty, path) && HasType(v, ty) && Represents(s, v, ty, le) && Shows(e, s, input)
    requires MemberAt(v, ty, path).Scalar?
    ensures Describes(ExtractValue(e, ty, path, le), MemberAt(v, ty, path).v, input)
  {
    hide Shows, Represents, ExtractMember, MemberAt, TypeAt, OffsetAt, ScalarBytes, FromBits, Laid, HasType, Describes, Ordered;
    var sub, x, off := TypeAt(ty, path), MemberAt(v, ty, path).v, OffsetAt(ty, path);
    MemberRepresented(s, v, ty, path, le);
    RepresentsSize(s, v, ty, le);
    SizePositive(sub);
    var t := s[off..off + Size(sub)];
    ScalarRepresented(t, x, sub, le);
    ShowsExtract(e, s, off, Size(sub), le, input);
    FromBitsDescribes(ExtractMember(e, Size(ty), off, Size(sub), le), x, le, input);
  }

  lemma ScalarRepresented(s: seq<Byte>, x: Val, ty: Type, le: bool)
    requires Laid(ty) && HasType(Scalar(x), ty) && Represents(s, Scalar(x), ty, le)
    ensures ty == IntType(x.width) && Storable(x.width) && s == ScalarBytes(x, le)
  {
  }

  lemma FromBitsDescribes(e: Expr, x: Val, le: bool, input: Input)
    requires Storable(x.width) && Shows(e, Ordered(ScalarBytes(x, le), le), input)
    ensures Describes(FromBits(e, IntType(x.width)), x, input)
  {
    hide Shows, Reversed, BitToBool, TruncTo, Number;
    var s := ValueBytes(x);
    OrderedTwice(s, le);
    ShownValue(e, s, input);
    ValueBytesNumber(x);
    if x.width == 1 {
      TruncDenotes(e, x.bits, 8, 1, input);
      BitToBoolDenotes(TruncTo(e, 1), x.bits, input);
    }
  }

  lemma ValueBytesNumber(x: Val)
    requires Storable(x.width)
    ensures Number(ValueBytes(x)) == x.bits
  {
    if x.width == 1 { Pow2Monotone(1, 8); }
    NumberOfBytes(x.bits, StoreSize(x.width));
  }

  /** A nested structure is extracted as it is. */
  lemma ExtractStructShows(e: Expr, s: seq<Byte>, v: StructVal, ty: Type, path: seq<nat>, le: bool, input: Input)
    requires Laid(ty) && PathOk(ty, path) && HasType(v, ty) && Represents(s, v, ty, le) && Shows(e, s, input)
    requires Composite(TypeAt(ty, path))
    ensures OffsetAt(ty, path) + Size(TypeAt(ty, path)) <= |s|
    ensures var t := s[OffsetAt(ty, path)..OffsetAt(ty, path) + Size(TypeAt(ty, path))];
            Shows(ExtractValue(e, ty, path, le), t, input) && Represents(t, MemberAt(v, ty, path), TypeAt(ty, path), le)
  {
    hide Shows, Represents, ExtractMember, MemberAt, OffsetAt, TypeAt, Laid, HasType;
    var sub := TypeAt(ty, path);
    MemberRepresented(s, v, ty, path, le);
    RepresentsSize(s, v, ty, le);
    SizePositive(sub);
    ShowsExtract(e, s, OffsetAt(ty, path), Size(sub), false, input);
  }

  /** Overwriting a member's bytes updates the member and nothing else. */
  lemma {:induction false} OverwriteUpdates(s: seq<Byte>, v: StructVal, ty: Type, path: seq<nat>, p: seq<Byte>, x: StructVal, le: bool)
    requires Laid(ty) && PathOk(ty, path) && HasType(v, ty) && Represents(s, v, ty, le)
    requires HasType(x, TypeAt(ty, path)) && Represents(p, x, TypeAt(ty, path), le)
    ensures OffsetAt(ty, path) + |p| <= |s|
    ensures Represents(Overwrite(s, p, OffsetAt(ty, path)), Updated(v, ty, path, x), ty, le)
    decreases |path|
  {
    hide Represents, HasType, Overwrite, Laid, Part;
    RepresentsSize(s, v, ty, le);
    RepresentsSize(p, x, TypeAt(ty, path), le);
    MemberInside(ty, path);
    if path == [] {
      OverwriteAll(s, p);
    } else {
      var k, m := path[0], PartAt(ty, path[0]);
      Field(ty, k);
      PartHasType(v, ty, k);
      FieldRepresented(s, v, ty, k, le);
      var t, off := s[m.offset..EndOf(ty, k + 1)], OffsetAt(m.ty, path[1..]);
      MemberInside(m.ty, path[1..]);
      RepresentsSize(t, Part(v, k), m.ty, le);
      OverwriteUpdates(t, Part(v, k), m.ty, path[1..], p, x, le);
      OverwriteInField(s, p, m.offset, t, off);
      OneFieldChanged(s, v, ty, k, Overwrite(t, p, off), Updated(Part(v, k), m.ty, path[1..], x), le);
    }
  }

  lemma OverwriteAll(s: seq<Byte>, p: seq<Byte>)
    requires |s| == |p|
    ensures Overwrite(s, p, 0) == p
  {
  }

  lemma OverwriteInField(s: seq<Byte>, p: seq<Byte>, at: nat, t: seq<Byte>, off: nat)
    requires at + |t| <= |s| && t == s[at..at + |t|] && off + |p| <= |t|
    ensures Overwrite(s, p, at + off) == Overwrite(s, Overwrite(t, p, off), at)
  {
  }

  lemma OneFieldChanged(s: seq<Byte>, v: StructVal, ty: Type, k: nat, t: seq<Byte>, x: StructVal, le: bool)
    requires Laid(ty) && HasType(v, ty) && Represents(s, v, ty, le) && Composite(ty) && k < Parts(ty)
    requires HasType(x, PartType(ty, k)) && Represents(t, x, PartType(ty, k), le)
    ensures PartOffset(ty, k) + |t| <= |s|
    ensures var r := Aggregate(PartsOf(v, ty)[k := x]);
            HasType(r, ty) && Represents(Overwrite(s, t, PartOffset(ty, k)), r, ty, le)
  {
    hide Represents, Overwrite, Laid, HasType, PartOffset, PartType, Size, PartRepresented;
    Field(ty, k);
    RepresentsSize(s, v, ty, le);
    RepresentsSize(t, x, PartType(ty, k), le);
    var s', vs := Overwrite(s, t, PartOffset(ty, k)), PartsOf(v, ty)[k := x];
    AggregateHasType(vs, ty);
    forall j | 0 <= j < |vs|
      ensures PartRepresented(s', vs[j], ty, j, le)
    {
      PartAfterOverwrite(s, v, ty, k, t, x, j, le);
    }
    PartsRepresent(s', vs, ty, le);
  }

  lemma AggregateHasType(vs: seq<StructVal>, ty: Type)
    requires Composite(ty) && |vs| == Parts(ty) && forall j :: 0 <= j < |vs| ==> HasType(vs[j], PartType(ty, j))
    ensures HasType(Aggregate(vs), ty)
  {
  }

  lemma PartAfterOverwrite(s: seq<Byte>, v: StructVal, ty: Type, k: nat, t: seq<Byte>, x: StructVal, j: nat, le: bool)
    requires Laid(ty) && HasType(v, ty) && Represents(s, v, ty, le) && Composite(ty) && k < Parts(ty) && j < Parts(ty)
    requires HasType(x, PartType(ty, k)) && Represents(t, x, PartType(ty, k), le)
    ensures |s| == Size(ty) && PartOffset(ty, k) + |t| <= |s|
    ensures PartRepresented(Overwrite(s, t, PartOffset(ty, k)), PartsOf(v, ty)[k := x][j], ty, j, le)
  {
    hide Represents, Overwrite, Laid, HasType, PartOffset, PartType, Size, Part;
    Field(ty, k);
    Field(ty, j);
    RepresentsSize(s, v, ty, le);
    RepresentsSize(t, x, PartType(ty, k), le);
    FieldRepresented(s, v, ty, j, le);
    FieldAfterOverwrite(s, ty, k, t, j);
  }

  lemma PartsRepresent(s: seq<Byte>, vs: seq<StructVal>, ty: Type, le: bool)
    requires Laid(ty) && Composite(ty) && HasType(Aggregate(vs), ty) && |s| == Size(ty) && |vs| == Parts(ty)
    requires forall j :: 0 <= j < |vs| ==> HasType(vs[j], PartType(ty, j)) && PartRepresented(s, vs[j], ty, j, le)
    ensures Represents(s, Aggregate(vs), ty, le)
  {
    hide Laid, HasType, PartType, Size, PartRepresented;
  }

  lemma FieldAfterOverwrite(s: seq<Byte>, ty: Type, k: nat, t: seq<Byte>, j: nat)
    requires Laid(ty) && Composite(ty) && k < Parts(ty) && j < Parts(ty) && |s| == Size(ty) && |t| == Size(PartType(ty, k))
    ensures EndOf(ty, k + 1) <= |s| && EndOf(ty, j + 1) <= |s|
    ensures Overwrite(s, t, PartOffset(ty, k))[PartOffset(ty, j)..EndOf(ty, j + 1)]
         == if j == k then t else s[PartOffset(ty, j)..EndOf(ty, j + 1)]
  {
    hide Laid, Overwrite;
    Field(ty, k);
    Field(ty, j);
    if j == k {
      OverwriteHere(s, t, PartOffset(ty, k));
    } else {
      if j < k { EndsInOrder(ty, j + 1, k); } else { EndsInOrder(ty, k + 1, j); }
      OverwriteElsewhere(s, t, PartOffset(ty, k), PartOffset(ty, j), EndOf(ty, j + 1));
    }
  }

  /** Inserting a member yields the expression of the updated structure. */
  lemma InsertValueShows(e: Expr, s: seq<Byte>, v: StructVal, ty: Type, path: seq<nat>, piece: Expr, p: seq<Byte>, x: StructVal, le: bool, input: Input)
    requires Laid(ty) && PathOk(ty, path) && HasType(v, ty) && Represents(s, v, ty, le) && Shows(e, s, input)
    requires HasType(x, TypeAt(ty, path)) && Represents(p, x, TypeAt(ty, path), le)
    requires Shows(piece, Ordered(p, SwappedFor(TypeAt(ty, path), le)), input)
    ensures OffsetAt(ty, path) + |p| <= |s| && Insertable(|p|, SwappedFor(TypeAt(ty, path), le))
    ensures var s' := Overwrite(s, p, OffsetAt(ty, path));
            Shows(BuildInsert(e, |s|, piece, |p|, OffsetAt(ty, path), SwappedFor(TypeAt(ty, path), le)), s', input) &&
            Represents(s', Updated(v, ty, path, x), ty, le)
  {
    hide Shows, Represents, BuildInsert, Updated, OffsetAt, Overwrite, Reversed;
    var sub, le' := TypeAt(ty, path), SwappedFor(TypeAt(ty, path), le);
    RepresentsSize(s, v, ty, le);
    RepresentsSize(p, x, sub, le);
    SizePositive(sub);
    OverwriteUpdates(s, v, ty, path, p, x, le);
    OrderedTwice(p, le');
    ShowsInsert(e, s, piece, Ordered(p, le'), OffsetAt(ty, path), le', input);
  }

  /** The round trip: what a structure constant was built from can be read back. */
  lemma ConstantMembers(v: StructVal, ty: Type, path: seq<nat>, le: bool, input: Input)
    requires Laid(ty) && PathOk(ty, path) && HasType(v, ty) && MemberAt(v, ty, path).Scalar?
    ensures HasBytes(MemberExpr(v, ty, le), Size(ty))
    ensures Describes(ExtractValue(MemberExpr(v, ty, le), ty, path, le), MemberAt(v, ty, path).v, input)
  {
    hide Represents, MemberExpr, MemoryImage, ExtractValue, MemberAt, TypeAt;
    StructShows(v, ty, le, input);
    ImageRepresents(v, ty, le);
    ExtractValueDescribes(MemberExpr(v, ty, le), MemoryImage(v, ty, le), v, ty, path, le, input);
  }
}
