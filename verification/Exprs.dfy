/** Symbolic expressions as the solver backend sees them: sorts, and the value
    of an expression under an assignment of bytes to the input variables. */
module Exprs {
  import opened Bits

  datatype Option<+T> = None | Some(value: T)

  datatype BvOp = Add | Sub | Mul | UDiv | SDiv | URem | SRem | Shl | LShr | AShr | And | Or | Xor

  datatype Relation = Eq | Ult | Ule | Ugt | Uge | Slt | Sle | Sgt | Sge

  datatype Connective = Conj | Disj | Parity

  /** The backend keeps Booleans apart from one-bit vectors. */
  datatype Sort = Bool | BitVec(width: nat)

  datatype UnOp = Negate | Cut(hi: nat, lo: nat) | Pad(zeros: nat) | PadSign(copies: nat)

  datatype BinOp = Calc(op: BvOp) | Relate(rel: Relation) | Link(con: Connective) | Join

  datatype Expr =
    | Const(value: nat, width: nat)
    | Truth(holds: bool)
    | InputByte(index: nat)
    | Unary(unop: UnOp, arg: Expr)
    | Binary(binop: BinOp, left: Expr, right: Expr)
    | Ite(cond: Expr, yes: Expr, no: Expr)

  function Arith(op: BvOp, a: Expr, b: Expr): (e: Expr) { Binary(Calc(op), a, b) }
  function Compare(r: Relation, a: Expr, b: Expr): (e: Expr) { Binary(Relate(r), a, b) }
  function Connect(c: Connective, a: Expr, b: Expr): (e: Expr) { Binary(Link(c), a, b) }
  function Concat(a: Expr, b: Expr): (e: Expr) { Binary(Join, a, b) }
  function Not(a: Expr): (e: Expr) { Unary(Negate, a) }
  function Extract(a: Expr, hi: nat, lo: nat): (e: Expr) { Unary(Cut(hi, lo), a) }
  function ZExt(a: Expr, n: nat): (e: Expr) { Unary(Pad(n), a) }
  function SExt(a: Expr, n: nat): (e: Expr) { Unary(PadSign(n), a) }

  /** A null pointer marks a concrete value. */
  type SymExpr = Option<Expr>

  type Input = nat -> Byte

  // ------------------------------------------------------------------ sorts

  predicate IsVector(s: Option<Sort>) { s.Some? && s.value.BitVec? }

  function Vector(w: int): (s: Option<Sort>)
    ensures IsVector(s) ==> s.value.width == w >= 1
  {
    if w >= 1 then Some(BitVec(w)) else None
  }

  function UnarySort(op: UnOp, s: Sort): (r: Option<Sort>)
  {
    match op
    case Negate => if s.Bool? then Some(Bool) else None
    case Cut(hi, lo) => if s.BitVec? && lo <= hi < s.width then Vector(hi - lo + 1) else None
    case Pad(n) => if s.BitVec? then Vector(s.width + n) else None
    case PadSign(n) => if s.BitVec? && s.width >= 1 then Vector(s.width + n) else None
  }

  function BinarySort(op: BinOp, s: Sort, t: Sort): (r: Option<Sort>)
  {
    match op
    case Calc(_) => if s.BitVec? && s.width >= 1 && s == t then Some(s) else None
    case Relate(r) => if s == t && (r.Eq? || (s.BitVec? && s.width >= 1)) then Some(Bool) else None
    case Link(_) => if s.Bool? && t.Bool? then Some(Bool) else None
    case Join => if s.BitVec? && t.BitVec? then Vector(s.width + t.width) else None
  }

  /** The sort of an expression, or `None` when the backend rejects it. */
  function SortOf(e: Expr): (s: Option<Sort>)
    ensures IsVector(s) ==> s.value.width >= 1
  {
    match e
    case Const(v, w) => if Fits(v, w) then Vector(w) else None
    case Truth(_) => Some(Bool)
    case InputByte(_) => Some(BitVec(8))
    case Unary(op, a) =>
      var s := SortOf(a);
      if s.Some? then UnarySort(op, s.value) else None
    case Binary(op, a, b) =>
      var s, t := SortOf(a), SortOf(b);
      if s.Some? && t.Some? then BinarySort(op, s.value, t.value) else None
    case Ite(c, a, b) =>
      var s := SortOf(a);
      if SortOf(c) == Some(Bool) && s.Some? && SortOf(b) == s then s else None
  }

  predicate Range(v: nat, s: Sort)
  {
    match s
    case Bool => v <= 1
    case BitVec(w) => Fits(v, w)
  }

  predicate HasWidth(e: Expr, w: nat) { SortOf(e) == Some(BitVec(w)) }

  // -------------------------------------------------- bit-vector operations

  function FlagOf(b: bool): (v: nat)
  {
    if b then 1 else 0
  }

  function BitwiseBit(op: BvOp, x: nat, y: nat): (z: nat)
    ensures z <= 1
  {
    match op
    case And => FlagOf(x == 1 && y == 1)
    case Or => FlagOf(x == 1 || y == 1)
    case _ => FlagOf(x != y)
  }

  function Bitwise(op: BvOp, x: nat, y: nat, w: nat): (z: nat)
    ensures Fits(z, w)
  {
    if w == 0 then 0
    else 2 * Bitwise(op, x / 2, y / 2, w - 1) + BitwiseBit(op, x % 2, y % 2)
  }

  function Neg(x: nat, w: nat): (z: nat)
    ensures Fits(z, w)
  {
    Wrap(0 - x, w)
  }

  function BvUDiv(x: nat, y: nat, w: nat): (z: nat)
    requires Fits(x, w)
    ensures Fits(z, w)
  {
    if y == 0 then Pow2(w) - 1 else DivNat(x, y); x / y
  }

  function BvURem(x: nat, y: nat, w: nat): (z: nat)
    requires Fits(x, w) && Fits(y, w)
    ensures Fits(z, w)
  {
    if y == 0 then x else x % y
  }

  predicate Negative(x: nat, w: nat)
    requires w >= 1
  {
    x >= Pow2(w - 1)
  }

  /** Signed division of the SMT-LIB theory: divide magnitudes, then fix the sign. */
  function BvSDiv(x: nat, y: nat, w: nat): (z: nat)
    requires w >= 1 && Fits(x, w) && Fits(y, w)
    ensures Fits(z, w)
  {
    match (Negative(x, w), Negative(y, w))
    case (false, false) => BvUDiv(x, y, w)
    case (true, false) => Neg(BvUDiv(Neg(x, w), y, w), w)
    case (false, true) => Neg(BvUDiv(x, Neg(y, w), w), w)
    case (true, true) => BvUDiv(Neg(x, w), Neg(y, w), w)
  }

  /** Signed remainder of the SMT-LIB theory: the sign follows the dividend. */
  function BvSRem(x: nat, y: nat, w: nat): (z: nat)
    requires w >= 1 && Fits(x, w) && Fits(y, w)
    ensures Fits(z, w)
  {
    var d := if Negative(y, w) then Neg(y, w) else y;
    if Negative(x, w) then Neg(BvURem(Neg(x, w), d, w), w) else BvURem(x, d, w)
  }

  function BvShl(x: nat, k: nat, w: nat): (z: nat)
    ensures Fits(z, w)
  {
    if k >= w then 0 else Wrap(x * Pow2(k), w)
  }

  function BvLShr(x: nat, k: nat, w: nat): (z: nat)
    requires Fits(x, w)
    ensures Fits(z, w)
  {
    Shr(x, k)
  }

  /** Arithmetic shift: complement, shift in zeros, complement back. */
  function BvAShr(x: nat, k: nat, w: nat): (z: nat)
    requires w >= 1 && Fits(x, w)
    ensures Fits(z, w)
  {
    var top := Pow2(w) - 1;
    if Negative(x, w) then top - Shr(top - x, k) else Shr(x, k)
  }

  function BvApply(op: BvOp, x: nat, y: nat, w: nat): (z: nat)
    requires w >= 1 && Fits(x, w) && Fits(y, w)
    ensures Fits(z, w)
  {
    match op
    case Add => Wrap(x + y, w)
    case Sub => Wrap(x - y, w)
    case Mul => Wrap(x * y, w)
    case UDiv => BvUDiv(x, y, w)
    case SDiv => BvSDiv(x, y, w)
    case URem => BvURem(x, y, w)
    case SRem => BvSRem(x, y, w)
    case Shl => BvShl(x, y, w)
    case LShr => BvLShr(x, y, w)
    case AShr => BvAShr(x, y, w)
    case _ => Bitwise(op, x, y, w)
  }

  predicate Holds(r: Relation, x: nat, y: nat, s: Sort)
    requires Range(x, s) && Range(y, s)
    requires r.Eq? || (s.BitVec? && s.width >= 1)
  {
    match r
    case Eq => x == y
    case Ult => x < y
    case Ule => x <= y
    case Ugt => x > y
    case Uge => x >= y
    case Slt => ToSigned(x, s.width) < ToSigned(y, s.width)
    case Sle => ToSigned(x, s.width) <= ToSigned(y, s.width)
    case Sgt => ToSigned(x, s.width) > ToSigned(y, s.width)
    case Sge => ToSigned(x, s.width) >= ToSigned(y, s.width)
  }

  predicate Connected(c: Connective, x: bool, y: bool)
  {
    match c
    case Conj => x && y
    case Disj => x || y
    case Parity => x != y
  }

  function ExtractBits(v: nat, hi: nat, lo: nat): (z: nat)
    requires lo <= hi
    ensures Fits(z, hi - lo + 1)
  {
    Wrap(Shr(v, lo), hi - lo + 1)
  }

  function SignExtend(v: nat, w: nat, n: nat): (z: nat)
    requires w >= 1 && Fits(v, w)
    ensures Fits(z, w + n)
  {
    Wrap(ToSigned(v, w), w + n)
  }

  function ConcatBits(x: nat, aw: nat, y: nat, bw: nat): (z: nat)
    requires Fits(x, aw) && Fits(y, bw)
    ensures Fits(z, aw + bw)
  {
    AppendFits(x, aw, y, bw);
    Append(x, y, bw)
  }

  function ZeroExtend(v: nat, w: nat, n: nat): (z: nat)
    requires Fits(v, w)
    ensures z == v && Fits(z, w + n)
  {
    Pow2Monotone(w, w + n);
    v
  }

  // --------------------------------------------------------------- meaning

  function UnaryApply(op: UnOp, v: nat, s: Sort): (z: nat)
    requires UnarySort(op, s).Some? && Range(v, s)
    ensures Range(z, UnarySort(op, s).value)
  {
    match op
    case Negate => 1 - v
    case Cut(hi, lo) => ExtractBits(v, hi, lo)
    case Pad(n) => ZeroExtend(v, s.width, n)
    case PadSign(n) => SignExtend(v, s.width, n)
  }

  function BinaryApply(op: BinOp, x: nat, s: Sort, y: nat, t: Sort): (z: nat)
    requires BinarySort(op, s, t).Some? && Range(x, s) && Range(y, t)
    ensures Range(z, BinarySort(op, s, t).value)
  {
    match op
    case Calc(o) => BvApply(o, x, y, s.width)
    case Relate(r) => FlagOf(Holds(r, x, y, s))
    case Link(c) => FlagOf(Connected(c, x == 1, y == 1))
    case Join => ConcatBits(x, s.width, y, t.width)
  }

  /** The value of a well-sorted expression; a Boolean evaluates to 0 or 1. */
  function Eval(e: Expr, input: Input): (v: nat)
    requires SortOf(e).Some?
    ensures Range(v, SortOf(e).value)
  {
    match e
    case Const(v, _) => v
    case Truth(b) => FlagOf(b)
    case InputByte(i) => ByteFits(input(i)); input(i)
    case Unary(op, a) => UnaryApply(op, Eval(a, input), SortOf(a).value)
    case Binary(op, a, b) => BinaryApply(op, Eval(a, input), SortOf(a).value, Eval(b, input), SortOf(b).value)
    case Ite(c, a, b) => if Eval(c, input) == 1 then Eval(a, input) else Eval(b, input)
  }

  /** `e` has sort `s` and evaluates to `v`. */
  predicate Denotes(e: Expr, s: Sort, v: nat, input: Input)
  {
    SortOf(e) == Some(s) && Eval(e, input) == v
  }

  // --------------------------------------------------------------- constraints

  /** A pushed path constraint with the direction that was taken. */
  datatype Constraint = Constraint(e: Expr, taken: bool)

  /** The constraint evaluates to its taken flag. */
  predicate Truthful(c: Constraint, input: Input) { Denotes(c.e, Bool, FlagOf(c.taken), input) }

  lemma TruthDenotes(b: bool, input: Input)
    ensures Denotes(Truth(b), Bool, FlagOf(b), input)
  {
  }

  lemma NotDenotes(a: Expr, b: bool, input: Input)
    requires Denotes(a, Bool, FlagOf(b), input)
    ensures Denotes(Not(a), Bool, FlagOf(!b), input)
  {
  }

  lemma ConnectDenotes(con: Connective, a: Expr, p: bool, b: Expr, q: bool, input: Input)
    requires Denotes(a, Bool, FlagOf(p), input) && Denotes(b, Bool, FlagOf(q), input)
    ensures Denotes(Connect(con, a, b), Bool, FlagOf(Connected(con, p, q)), input)
  {
  }
}
