/** C types of the front end (`src/ast/dtype.rs`): the `DType` tree, the
    pointer constructor, `make_unsigned`, the size table, and the fold
    over the type-specifier keywords of a `specifier_qualifier_list`.

    `size` returns a `Word` (`u16`), so an array size is a 16-bit product;
    in a debug build an overflowing product panics, and so does `size` of
    a function type (`unreachable!`).
 */
module DTypes {
  import opened Outcome
  import Words

  datatype DType =
    | Void
    | U8
    | S8
    | U16
    | S16
    | U32
    | S32
    | U64
    | S64
    | Float
    | Double
    | Pointer(level: nat, base: DType)
    | Array(len: Words.Word, elem: DType)
    | Unsized(elem: DType)
    | Function(params: seq<DType>, ret: DType)

  // ---------------------------------------------------------------------
  // pointer
  // ---------------------------------------------------------------------

  /** The number of pointer levels at the top of `t`. */
  function Level(t: DType): nat {
    if t.Pointer? then t.level else 0
  }

  /** `t` has no pointer directly inside a pointer and no zero-level
      pointer: the shape `pointer` builds. */
  predicate FlatPointer(t: DType) {
    t.Pointer? ==> t.level >= 1 && !t.base.Pointer?
  }

  /** `pointer`: one more level of indirection, folded into an existing
      `Pointer` node instead of nesting a new one. */
  function PointerTo(t: DType): (r: DType)
    ensures r.Pointer? && Level(r) == Level(t) + 1
    ensures FlatPointer(t) ==> FlatPointer(r)
    ensures !t.Pointer? ==> r.base == t
  {
    match t
    case Pointer(n, b) => Pointer(n + 1, b)
    case _ => Pointer(1, t)
  }

  /** The type one dereference away: the partner of `PointerTo`. */
  function Pointee(t: DType): (r: DType)
    requires t.Pointer? && t.level >= 1
    ensures Level(r) == Level(t) - 1 || (t.level == 1 && t.base.Pointer?)
    ensures FlatPointer(t) ==> FlatPointer(r) && PointerTo(r) == t
  {
    if t.level == 1 then t.base else Pointer(t.level - 1, t.base)
  }

  /** Dereferencing undoes `pointer` on every well-formed type. */
  lemma PointeeOfPointerTo(t: DType)
    requires FlatPointer(t)
    ensures Pointee(PointerTo(t)) == t
  {
  }

  /** `n` applications of `pointer` to a non-pointer `b` give the single
      node `Pointer(n, b)`. */
  function PointerN(t: DType, n: nat): (r: DType)
    ensures Level(r) == Level(t) + n
    ensures FlatPointer(t) ==> FlatPointer(r)
  {
    if n == 0 then t else PointerTo(PointerN(t, n - 1))
  }

  lemma {:induction false} PointerNFolds(b: DType, n: nat)
    requires !b.Pointer? && n >= 1
    ensures PointerN(b, n) == Pointer(n, b)
  {
    if n > 1 {
      PointerNFolds(b, n - 1);
    }
  }

  // ---------------------------------------------------------------------
  // make_unsigned
  // ---------------------------------------------------------------------

  predicate IsSigned(t: DType) {
    t.S8? || t.S16? || t.S32? || t.S64?
  }

  predicate IsUnsigned(t: DType) {
    t.U8? || t.U16? || t.U32? || t.U64?
  }

  /** `make_unsigned`: defined on the four signed integer types only. */
  function MakeUnsigned(t: DType): (r: Result<DType>)
    ensures r.Ok? <==> IsSigned(t)
    ensures r.Ok? ==> IsUnsigned(r.value)
  {
    match t
    case S8 => Ok(U8)
    case S16 => Ok(U16)
    case S32 => Ok(U32)
    case S64 => Ok(U64)
    case _ => Panic("internal error: entered unreachable code")
  }

  /** Different signed types stay different, and the width is kept. */
  lemma MakeUnsignedKeepsWidth(a: DType, b: DType)
    requires IsSigned(a) && IsSigned(b)
    ensures MakeUnsigned(a) == MakeUnsigned(b) ==> a == b
    ensures Size(MakeUnsigned(a).value) == Size(a)
  {
  }

  // ---------------------------------------------------------------------
  // size
  // ---------------------------------------------------------------------

  /** The `size` table for the types that are not arrays or functions. */
  function ScalarSize(t: DType): (n: nat)
    requires !t.Array? && !t.Function?
    ensures n <= 8
  {
    match t
    case Void => 0
    case U8 => 1
    case S8 => 1
    case U16 => 1
    case S16 => 1
    case U32 => 4
    case S32 => 4
    case U64 => 8
    case S64 => 8
    case Float => 4
    case Double => 8
    case Pointer(_, _) => 1
    case Unsized(_) => 1
  }

  /** `size`, in words of the target; an array multiplies in `u16`. */
  function Size(t: DType): (r: Result<Words.Word>)
    ensures t.Function? ==> r.Panic?
    ensures IsSigned(t) || IsUnsigned(t) ==> r.Ok? && (r.value == 1 || r.value == 4 || r.value == 8)
    ensures t.Pointer? || t.Unsized? ==> r == Ok(1)
  {
    if t.Function? then Panic("internal error: entered unreachable code")
    else if t.Array? then
      var es :- Size(t.elem);
      Times(t.len, es)
    else Ok(ScalarSize(t))
  }

  /** `n * es` in `u16`: an overflowing product panics. */
  function Times(n: Words.Word, es: Words.Word): (r: Result<Words.Word>)
    ensures r.Ok? <==> n * es < Words.WORD_MOD
    ensures r.Ok? ==> r.value == n * es
  {
    var p: int := n * es;
    Words.MulMono(0, n, es);
    if p >= Words.WORD_MOD then Panic("attempt to multiply with overflow") else Ok(p)
  }

  /** Reference size with unbounded arithmetic: the product of the array
      lengths and the scalar size at the bottom, `None` under a function. */
  function IdealSize(t: DType): Option<nat> {
    match t
    case Array(n, e) =>
      (match IdealSize(e)
       case None => None
       case Some(es) => Some(n * es))
    case Function(_, _) => None
    case _ => Some(Size(t).value)
  }

  /** `size` computes the ideal size whenever it does not panic, and it
      does not panic when the ideal size is a positive 16-bit number (then
      every partial product is at most the whole). */
  lemma {:induction false} SizeIsIdeal(t: DType)
    ensures Size(t).Ok? ==> IdealSize(t) == Some(Size(t).value)
    ensures IdealSize(t).Some? && 0 < IdealSize(t).value < Words.WORD_MOD ==> Size(t) == Ok(IdealSize(t).value)
  {
    if t.Array? {
      SizeIsIdeal(t.elem);
      if IdealSize(t).Some? && 0 < IdealSize(t).value < Words.WORD_MOD {
        FactorBound(t.len, IdealSize(t.elem).value);
      }
    }
  }

  /** A factor of a positive product is positive and at most the product. */
  lemma FactorBound(n: nat, e: nat)
    requires n * e > 0
    ensures 1 <= e <= n * e
  {
  }

  /** An array of `n` elements of a sized type takes `n` times the room. */
  lemma ArraySize(n: Words.Word, e: DType)
    requires Size(e).Ok? && n * Size(e).value < Words.WORD_MOD
    ensures Size(Array(n, e)) == Ok(n * Size(e).value)
  {
  }

  // ---------------------------------------------------------------------
  // The type-specifier fold
  // ---------------------------------------------------------------------

  /** What the fold has seen so far: whether `long` occurred, whether the
      last sign keyword was `signed`, and the current base type. */
  datatype Specs = Specs(long: bool, signed: bool, ty: DType)

  /** The type a type-keyword sets, if it is one.  `long` always sets
      `S32`: the guarded `"long" if long` arm below the unconditional
      `"long"` arm can never be reached. */
  function KeywordType(k: string): Option<DType> {
    if k == "void" then Some(Void)
    else if k == "char" then Some(S8)
    else if k == "short" || k == "int" then Some(S16)
    else if k == "long" then Some(S32)
    else if k == "float" then Some(Float)
    else if k == "double" then Some(Double)
    else None
  }

  predicate IsSpecifier(k: string) {
    KeywordType(k).Some? || k == "unsigned" || k == "signed"
  }

  /** One arm of the `match spec.as_str()`; any other keyword is
      `unreachable!`. */
  function SpecStep(st: Specs, k: string): (r: Result<Specs>)
    ensures r.Ok? <==> IsSpecifier(k)
  {
    if k == "unsigned" then Ok(st.(signed := false))
    else if k == "signed" then Ok(st.(signed := true))
    else if k == "long" then Ok(st.(long := true, ty := S32))
    else match KeywordType(k)
      case Some(t) => Ok(st.(ty := t))
      case None => Panic("internal error: entered unreachable code")
  }

  /** The `for spec in specs` loop over the first `n` keywords. */
  function FoldSpecs(specs: seq<string>, n: nat): Result<Specs>
    requires n <= |specs|
  {
    if n == 0 then Ok(Specs(false, true, S16))
    else
      var st :- FoldSpecs(specs, n - 1);
      SpecStep(st, specs[n - 1])
  }

  /** The whole rule: fold, then `make_unsigned` when the sign is off. */
  function SpecifierType(specs: seq<string>): Result<DType> {
    var st :- FoldSpecs(specs, |specs|);
    if st.signed then Ok(st.ty) else MakeUnsigned(st.ty)
  }

  /** Reference reading of the fold: the base type is the one set by the
      LAST type keyword (`S16` when there is none). */
  function LastType(specs: seq<string>): DType {
    if |specs| == 0 then S16
    else match KeywordType(specs[|specs| - 1])
      case Some(t) => t
      case None => LastType(specs[..|specs| - 1])
  }

  /** The sign is that of the LAST sign keyword (signed when there is none). */
  function LastSigned(specs: seq<string>): bool {
    if |specs| == 0 then true
    else if specs[|specs| - 1] == "unsigned" then false
    else if specs[|specs| - 1] == "signed" then true
    else LastSigned(specs[..|specs| - 1])
  }

  /** The reference readings of a list extended by one keyword. */
  lemma LastAppend(pre: seq<string>, k: string)
    ensures LastType(pre + [k]) == if KeywordType(k).Some? then KeywordType(k).value else LastType(pre)
    ensures LastSigned(pre + [k]) == if k == "unsigned" then false else if k == "signed" then true else LastSigned(pre)
  {
    assert (pre + [k])[..|pre|] == pre;
  }

  lemma {:induction false} FoldSpecsOk(specs: seq<string>, n: nat)
    requires n <= |specs|
    ensures FoldSpecs(specs, n).Ok? <==> forall i :: 0 <= i < n ==> IsSpecifier(specs[i])
  {
    if n > 0 {
      FoldSpecsOk(specs, n - 1);
    }
  }

  lemma {:induction false} FoldSpecsValue(specs: seq<string>, n: nat)
    requires n <= |specs| && FoldSpecs(specs, n).Ok?
    ensures var st := FoldSpecs(specs, n).value;
      && st.ty == LastType(specs[..n])
      && st.signed == LastSigned(specs[..n])
      && (st.long <==> "long" in specs[..n])
  {
    if n > 0 {
      FoldSpecsValue(specs, n - 1);
      LastAppend(specs[..n - 1], specs[n - 1]);
      assert specs[..n] == specs[..n - 1] + [specs[n - 1]];
    }
  }

  /** The fold succeeds on known keywords only; the last type keyword
      and the last sign keyword win, and `long` is remembered. */
  lemma FoldSpecsMeaning(specs: seq<string>, n: nat)
    requires n <= |specs|
    ensures FoldSpecs(specs, n).Ok? <==> forall i :: 0 <= i < n ==> IsSpecifier(specs[i])
    ensures FoldSpecs(specs, n).Ok? ==>
      FoldSpecs(specs, n).value.ty == LastType(specs[..n]) &&
      FoldSpecs(specs, n).value.signed == LastSigned(specs[..n]) &&
      (FoldSpecs(specs, n).value.long <==> "long" in specs[..n])
  {
    FoldSpecsOk(specs, n);
    if FoldSpecs(specs, n).Ok? {
      FoldSpecsValue(specs, n);
    }
  }

  /** The specifier list means: the last type keyword (default `S16`),
      made unsigned when the last sign keyword is `unsigned`; an unknown
      keyword, or `unsigned` on a non-integer type, panics. */
  lemma SpecifierTypeMeaning(specs: seq<string>)
    ensures SpecifierType(specs).Ok? <==>
      (forall i :: 0 <= i < |specs| ==> IsSpecifier(specs[i])) &&
      (LastSigned(specs) || IsSigned(LastType(specs)))
    ensures SpecifierType(specs).Ok? ==>
      SpecifierType(specs).value ==
        (if LastSigned(specs) then LastType(specs) else MakeUnsigned(LastType(specs)).value)
  {
    FoldSpecsMeaning(specs, |specs|);
    assert specs[..|specs|] == specs;
  }

  /** `long long` is `S32`, not `S64`: the `S64` arm is shadowed. */
  lemma LongLongIsS32()
    ensures SpecifierType(["long", "long"]) == Ok(S32)
    ensures SpecifierType(["unsigned", "long", "long"]) == Ok(U32)
  {
    assert FoldSpecs(["long", "long"], 1) == Ok(Specs(true, true, S32));
    assert FoldSpecs(["unsigned", "long", "long"], 1) == Ok(Specs(false, false, S16));
    assert FoldSpecs(["unsigned", "long", "long"], 2) == Ok(Specs(true, false, S32));
    assert FoldSpecs(["unsigned", "long", "long"], 3) == Ok(Specs(true, false, S32));
  }
}
