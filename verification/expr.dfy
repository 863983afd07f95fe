/** Expressions of `src/ast/expr.rs`: the `Expr` tree, constant folding
    (`const_arithmetic_expr`), and the two folds the parser performs over
    a rule's child list: pairing the tail of a binary chain into
    `(operator, operand)` pairs, and wrapping a primary expression in its
    postfix fixtures from left to right.

    Constant folding works on `u64` with debug-build arithmetic: an
    overflowing `+`, `-` or `*`, a division or remainder by zero and a
    shift by 64 or more panic; an operator without an arm is `todo!()`.
 */
module Exprs {
  import opened Outcome
  import opened Words
  import DTypes
  import Ops

  type Ident = string

  /** The assignment operator, by its token; its enum is not part of
      this model. */
  datatype AssignOp = AssignOp(token: string)

  datatype Expr =
    | Const(v: U64)
    | Var(name: Ident)
    | BinOpExpr(head: Expr, items: seq<(Ops.BinOp, Expr)>)
    | Unary(op: Ops.MonOp, arg: Expr)
    | TypeSize(ty: DTypes.DType)
    | Cast(ty: DTypes.DType, arg: Expr)
    | Cond(cond: Expr, ifTrue: Expr, ifFalse: Expr)
    | Assign(target: Expr, aop: AssignOp, val: Expr)
    | Seq(es: seq<Expr>)
    | InitList(es: seq<Expr>)
    | Indexed(base: Expr, index: Expr)
    | FnCall(base: Expr, args: seq<Expr>)
    | Field(base: Expr, field: Ident)
    | Arrow(base: Expr, field: Ident)
    | Inc(arg: Expr)
    | Dec(arg: Expr)

  const U64_MOD: nat := 0x1_0000_0000_0000_0000
  const U64_MAX: nat := 0xFFFF_FFFF_FFFF_FFFF

  // ---------------------------------------------------------------------
  // u64 arithmetic
  // ---------------------------------------------------------------------

  /** `!v` on `u64`: the bitwise complement, `2^64 - 1 - v`. */
  function Not64(v: U64): U64 {
    U64_MAX - v
  }

  function CheckedAdd(a: U64, b: U64): (r: Result<U64>)
    ensures r.Ok? <==> a + b < U64_MOD
    ensures r.Ok? ==> r.value - a == b
  {
    if a + b >= U64_MOD then Panic("attempt to add with overflow") else Ok(a + b)
  }

  function CheckedSub(a: U64, b: U64): (r: Result<U64>)
    ensures r.Ok? <==> b <= a
    ensures r.Ok? ==> r.value + b == a
  {
    if a < b then Panic("attempt to subtract with overflow") else Ok(a - b)
  }

  function CheckedMul(a: U64, b: U64): (r: Result<U64>)
    ensures r.Ok? <==> a * b < U64_MOD
  {
    if a * b >= U64_MOD then Panic("attempt to multiply with overflow") else Ok(a * b)
  }

  /** Division of unsigned values: the largest `q` with `q * b <= a`. */
  function CheckedDiv(a: U64, b: U64): (r: Result<U64>)
    ensures r.Ok? <==> b != 0
    ensures r.Ok? ==> r.value * b <= a < (r.value + 1) * b
  {
    if b == 0 then Panic("attempt to divide by zero")
    else Ok(FloorDiv(a, b))
  }

  function CheckedRem(a: U64, b: U64): (r: Result<U64>)
    ensures r.Ok? <==> b != 0
    ensures r.Ok? ==> r.value < b && r.value <= a
  {
    if b == 0 then Panic("attempt to calculate the remainder with a divisor of zero") else Result<U64>.Ok(a % b)
  }

  /** `a << b`: the bits shifted past bit 63 are lost. */
  function CheckedShl(a: U64, b: U64): (r: Result<U64>)
    ensures r.Ok? <==> b < 64
  {
    if b >= 64 then Panic("attempt to shift left with overflow") else Ok((a * Pow2(b)) % U64_MOD)
  }

  function CheckedShr(a: U64, b: U64): (r: Result<U64>)
    ensures r.Ok? <==> b < 64
    ensures r.Ok? ==> r.value * Pow2(b) <= a < (r.value + 1) * Pow2(b)
  {
    if b >= 64 then Panic("attempt to shift right with overflow")
    else Ok(FloorDiv(a, Pow2(b)))
  }

  function Bitwise(op: Ops.BinOp, a: U64, b: U64): U64
    requires op.Xor? || op.And? || op.Or?
  {
    var x := a as bv64;
    var y := b as bv64;
    (if op.Xor? then x ^ y else if op.And? then x & y else x | y) as int
  }

  /** One `e_val = match op { … }` step of the chain; the comparison and
      logical operators have no arm and hit `todo!()`. */
  function ApplyBin(op: Ops.BinOp, a: U64, b: U64): (r: Result<U64>)
    ensures op.Eq? || op.Neq? || op.LogicalAnd? || op.LogicalOr? ==> r.Panic?
    ensures op.Xor? || op.And? || op.Or? ==> r.Ok?
  {
    match op
    case Add => CheckedAdd(a, b)
    case Sub => CheckedSub(a, b)
    case Mul => CheckedMul(a, b)
    case Div => CheckedDiv(a, b)
    case Mod => CheckedRem(a, b)
    case LShift => CheckedShl(a, b)
    case RShift => CheckedShr(a, b)
    case Xor => Ok(Bitwise(op, a, b))
    case And => Ok(Bitwise(op, a, b))
    case Or => Ok(Bitwise(op, a, b))
    case _ => Panic(NOT_YET_IMPLEMENTED)
  }

  /** Unsigned division: the largest `q` with `q * d <= a`. */
  function FloorDiv(a: U64, d: nat): (q: U64)
    requires d > 0
    ensures q * d <= a < (q + 1) * d
  {
    DivBounds(a, d);
    a / d
  }

  // ---------------------------------------------------------------------
  // const_arithmetic_expr
  // ---------------------------------------------------------------------

  /** `const_arithmetic_expr`: `Ok(None)` when the expression is not a
      constant, a panic when evaluating it panics. */
  function ConstFold(e: Expr): (r: Result<Option<U64>>)
    ensures e.Const? ==> r == Ok(Some(e.v))
    ensures e.TypeSize? ==> (r.Ok? <==> DTypes.Size(e.ty).Ok?)
    ensures e.TypeSize? && r.Ok? ==> r == Ok(Some(DTypes.Size(e.ty).value))
    ensures !(e.Const? || e.BinOpExpr? || e.Unary? || e.TypeSize?) ==> r == Ok(None)
    decreases e, if e.BinOpExpr? then |e.items| + 1 else 0
  {
    match e
    case Const(v) => Ok(Some(v))
    case BinOpExpr(_, items) => FoldChain(e, |items|)
    case Unary(op, a) =>
      var v :- ConstFold(a);
      if v.None? then Ok(None)
      else if op.BinaryNot? then Ok(Some(Not64(v.value)))
      else Panic(NOT_YET_IMPLEMENTED)
    case TypeSize(t) =>
      var s :- DTypes.Size(t);
      Ok(Some(s))
    case _ => Ok(None)
  }

  /** One round of the `for (op, e) in items` loop: a `None` so far, or
      a `None` operand, returns `None` at once through the `?`. */
  function ChainStep(acc: Result<Option<U64>>, op: Ops.BinOp, x: Result<Option<U64>>): Result<Option<U64>> {
    var a :- acc;
    if a.None? then Ok(None)
    else
      var v :- x;
      if v.None? then Ok(None)
      else
        var w :- ApplyBin(op, a.value, v.value);
        Ok(Some(w))
  }

  /** The loop after its first `n` rounds. */
  function FoldChain(e: Expr, n: nat): (r: Result<Option<U64>>)
    requires e.BinOpExpr? && n <= |e.items|
    decreases e, n
  {
    if n == 0 then ConstFold(e.head)
    else
      assert e.items[n - 1] in e.items;
      ChainStep(FoldChain(e, n - 1), e.items[n - 1].0, ConstFold(e.items[n - 1].1))
  }

  /** The chain written as nested one-operator chains, grouped to the
      left: `((h o1 a1) o2 a2) …`. */
  function Nested(h: Expr, items: seq<(Ops.BinOp, Expr)>): Expr {
    if |items| == 0 then h
    else BinOpExpr(Nested(h, items[..|items| - 1]), [items[|items| - 1]])
  }

  lemma {:induction false} FoldChainNested(h: Expr, items: seq<(Ops.BinOp, Expr)>, n: nat)
    requires n <= |items|
    ensures FoldChain(BinOpExpr(h, items), n) == ConstFold(Nested(h, items[..n]))
  {
    if n > 0 {
      FoldChainNested(h, items, n - 1);
      assert items[..n][..n - 1] == items[..n - 1];
      var inner := Nested(h, items[..n - 1]);
      assert Nested(h, items[..n]) == BinOpExpr(inner, [items[n - 1]]);
      assert FoldChain(BinOpExpr(inner, [items[n - 1]]), 0) == ConstFold(inner);
    }
  }

  /** Folding a chain is folding it grouped strictly to the left. */
  lemma FoldIsLeftAssociative(h: Expr, items: seq<(Ops.BinOp, Expr)>)
    ensures ConstFold(BinOpExpr(h, items)) == ConstFold(Nested(h, items))
  {
    FoldChainNested(h, items, |items|);
    assert items[..|items|] == items;
  }

  /** Once the accumulated value is `None` it stays `None`. */
  lemma {:induction false} FoldChainNoneSticks(e: Expr, k: nat, n: nat)
    requires e.BinOpExpr? && k <= n <= |e.items|
    requires FoldChain(e, k) == Ok(None)
    ensures FoldChain(e, n) == Ok(None)
    decreases n
  {
    if n > k {
      FoldChainNoneSticks(e, k, n - 1);
    }
  }

  /** A non-constant operand makes the whole chain non-constant, unless
      an operator before it has already panicked. */
  lemma NoneOperandAbsorbs(e: Expr, k: nat)
    requires e.BinOpExpr? && k < |e.items|
    requires FoldChain(e, k).Ok? && ConstFold(e.items[k].1) == Ok(None)
    ensures ConstFold(e) == Ok(None)
  {
    assert FoldChain(e, k + 1) == Ok(None);
    FoldChainNoneSticks(e, k + 1, |e.items|);
  }

  /** A non-constant head makes the whole chain non-constant. */
  lemma NoneHeadAbsorbs(e: Expr)
    requires e.BinOpExpr? && ConstFold(e.head) == Ok(None)
    ensures ConstFold(e) == Ok(None)
  {
    FoldChainNoneSticks(e, 0, |e.items|);
  }

  /** A chain with a constant value has constant operands throughout. */
  lemma {:induction false} ConstantChainOperands(e: Expr, n: nat)
    requires e.BinOpExpr? && n <= |e.items|
    requires FoldChain(e, n).Ok? && FoldChain(e, n).value.Some?
    ensures ConstFold(e.head).Ok? && ConstFold(e.head).value.Some?
    ensures forall i :: 0 <= i < n ==> ConstFold(e.items[i].1).Ok? && ConstFold(e.items[i].1).value.Some?
  {
    if n > 0 {
      ConstantChainOperands(e, n - 1);
    }
  }

  /** `~` folds to the complement; applied twice it gives the operand back.
      Any other unary operator on a constant panics. */
  lemma UnaryFold(op: Ops.MonOp, a: Expr)
    ensures ConstFold(a) == Ok(None) ==> ConstFold(Unary(op, a)) == Ok(None)
    ensures ConstFold(a).Ok? && ConstFold(a).value.Some? ==>
      if op.BinaryNot? then ConstFold(Unary(op, a)) == Ok(Some(U64_MAX - ConstFold(a).value.value))
      else ConstFold(Unary(op, a)).Panic?
    ensures ConstFold(a).Ok? ==> ConstFold(Unary(Ops.BinaryNot, Unary(Ops.BinaryNot, a))) == ConstFold(a)
  {
  }

  // ---------------------------------------------------------------------
  // The binary-chain pairing
  // ---------------------------------------------------------------------

  /** `while let Some((op, arg)) = xs.next().zip(xs.next())`: both
      `next` calls happen before the `zip`, so an odd last child is
      consumed and dropped. */
  method PairUp<T>(xs: seq<T>) returns (ps: seq<(T, T)>)
    ensures |ps| == |xs| / 2
    ensures forall k :: 0 <= k < |ps| ==> ps[k] == (xs[2 * k], xs[2 * k + 1])
  {
    ps := [];
    var i := 0;
    while i + 1 < |xs|
      invariant i == 2 * |ps| && i <= |xs|
      invariant forall k :: 0 <= k < |ps| ==> ps[k] == (xs[2 * k], xs[2 * k + 1])
    {
      ps := ps + [(xs[i], xs[i + 1])];
      i := i + 2;
    }
  }

  /** The pairs spread back out into a flat list. */
  function Unpair<T>(ps: seq<(T, T)>): (r: seq<T>)
    ensures |r| == 2 * |ps|
  {
    if |ps| == 0 then [] else Unpair(ps[..|ps| - 1]) + [ps[|ps| - 1].0, ps[|ps| - 1].1]
  }

  /** Pairing loses nothing but an odd last child: spreading the pairs
      back out gives the children in their order. */
  lemma {:induction false} UnpairPairs<T>(xs: seq<T>, ps: seq<(T, T)>)
    requires 2 * |ps| <= |xs|
    requires forall k :: 0 <= k < |ps| ==> ps[k] == (xs[2 * k], xs[2 * k + 1])
    ensures Unpair(ps) == xs[..2 * |ps|]
  {
    if |ps| > 0 {
      var n := |ps|;
      UnpairPairs(xs, ps[..n - 1]);
      assert xs[..2 * n] == xs[..2 * (n - 1)] + [xs[2 * n - 2], xs[2 * n - 1]];
    }
  }

  // ---------------------------------------------------------------------
  // Postfix fixtures
  // ---------------------------------------------------------------------

  /** A postfix fixture: `[i]`, `.f`, `->f`, `++`, `--` or `(args)`. */
  datatype Fixture =
    | IndexF(index: Expr)
    | FieldF(text: Ident)
    | ArrowF(text: Ident)
    | IncF
    | DecF
    | CallF(args: seq<Expr>)

  /** One round of the fixture loop: wrap the expression built so far. */
  function ApplyFixture(base: Expr, f: Fixture): Expr {
    match f
    case IndexF(i) => Indexed(base, i)
    case FieldF(t) => Field(base, t)
    case ArrowF(t) => Arrow(base, t)
    case IncF => Inc(base)
    case DecF => Dec(base)
    case CallF(args) => FnCall(base, args)
  }

  /** `postfix_expr`: the fixtures wrap the primary from left to right. */
  function FoldPostfix(base: Expr, fs: seq<Fixture>): Expr {
    if |fs| == 0 then base else ApplyFixture(FoldPostfix(base, fs[..|fs| - 1]), fs[|fs| - 1])
  }

  /** The outermost fixture of an expression, if it has one. */
  function Peel(e: Expr): (r: Option<(Expr, Fixture)>)
    ensures r.Some? ==> ApplyFixture(r.value.0, r.value.1) == e
  {
    match e
    case Indexed(b, i) => Some((b, IndexF(i)))
    case Field(b, t) => Some((b, FieldF(t)))
    case Arrow(b, t) => Some((b, ArrowF(t)))
    case Inc(b) => Some((b, IncF))
    case Dec(b) => Some((b, DecF))
    case FnCall(b, args) => Some((b, CallF(args)))
    case _ => None
  }

  /** Peel `n` fixtures off, outermost first, returning them in source
      order. */
  function PeelN(e: Expr, n: nat): Option<(Expr, seq<Fixture>)> {
    if n == 0 then Some((e, []))
    else match Peel(e)
      case None => None
      case Some((b, f)) =>
        match PeelN(b, n - 1)
        case None => None
        case Some((b', fs)) => Some((b', fs + [f]))
  }

  lemma PeelApply(b: Expr, f: Fixture)
    ensures Peel(ApplyFixture(b, f)) == Some((b, f))
  {
  }

  /** Folding the fixtures and peeling as many back off recovers the
      primary expression and the fixtures in order; the outermost node is
      the last fixture. */
  lemma {:induction false} PeelFoldPostfix(b: Expr, fs: seq<Fixture>)
    ensures PeelN(FoldPostfix(b, fs), |fs|) == Some((b, fs))
  {
    if |fs| > 0 {
      var n := |fs|;
      PeelApply(FoldPostfix(b, fs[..n - 1]), fs[n - 1]);
      PeelFoldPostfix(b, fs[..n - 1]);
      assert fs[..n - 1] + [fs[n - 1]] == fs;
    }
  }
}
