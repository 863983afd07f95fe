/** Declarators of `src/ast/declarator.rs`: the part of a C declaration
    that wraps the declared name in pointer, array and function
    constructors, written inside out.

    `set_type` inverts a declarator into a type: it walks from the outside
    in, wrapping the base type at each level, so the constructor nearest
    the name ends up outermost in the type.
 */
module Declarators {
  import opened Outcome
  import DTypes
  import Words

  type Ident = string

  /** A parameter: its type and, if written, its name. */
  type ParamDecl = (DTypes.DType, Option<Ident>)

  datatype Declarator =
    | Abstract
    | Var(name: Ident)
    | Deref(n: nat, inner: Declarator)
    | Call(inner: Declarator, params: seq<ParamDecl>)
    | Index(inner: Declarator, size: Words.Word)
    | Unsized(inner: Declarator)

  predicate IsLeaf(d: Declarator) {
    d.Abstract? || d.Var?
  }

  /** `get_name`: the identifier at the innermost leaf, if any. */
  function GetName(d: Declarator): (r: Option<Ident>)
    ensures d.Var? ==> r == Some(d.name)
    ensures d.Abstract? ==> r.None?
  {
    match d
    case Abstract => None
    case Var(v) => Some(v)
    case Deref(_, e) => GetName(e)
    case Call(e, _) => GetName(e)
    case Index(e, _) => GetName(e)
    case Unsized(e) => GetName(e)
  }

  /** `pointed`: one more pointer level, merged into an outer `Deref`. */
  function Pointed(d: Declarator): (r: Declarator)
    ensures r.Deref? && r.n >= 1
    ensures d.Deref? ==> r.n == d.n + 1 && r.inner == d.inner
    ensures !d.Deref? ==> r == Deref(1, d)
  {
    match d
    case Deref(n, e) => Deref(n + 1, e)
    case _ => Deref(1, d)
  }

  /** `set_name`: replace the innermost leaf by `Var(ident)`. */
  function SetName(d: Declarator, ident: Ident): (r: Declarator)
  {
    match d
    case Abstract => Var(ident)
    case Var(_) => Var(ident)
    case Deref(n, e) => Deref(n, SetName(e, ident))
    case Call(e, ps) => Call(SetName(e, ident), ps)
    case Index(e, s) => Index(SetName(e, ident), s)
    case Unsized(e) => Unsized(SetName(e, ident))
  }

  /** The parameter types of a `Call`, in order. */
  function ParamTypes(ps: seq<ParamDecl>): (r: seq<DTypes.DType>)
    ensures |r| == |ps| && forall i :: 0 <= i < |ps| ==> r[i] == ps[i].0
  {
    seq(|ps|, i requires 0 <= i < |ps| => ps[i].0)
  }

  /** `set_type`: the type the declarator gives to a base type.  A
      `Deref(n, _)` adds ONE pointer level whatever `n` is. */
  function SetType(d: Declarator, t: DTypes.DType): (r: DTypes.DType)
    ensures IsLeaf(d) ==> r == t
  {
    match d
    case Abstract => t
    case Var(_) => t
    case Deref(_, e) => SetType(e, DTypes.PointerTo(t))
    case Unsized(e) => SetType(e, DTypes.PointerTo(t))
    case Call(e, ps) => SetType(e, DTypes.Function(ParamTypes(ps), t))
    case Index(e, s) => SetType(e, DTypes.Array(s, t))
  }

  // ---------------------------------------------------------------------
  // Properties
  // ---------------------------------------------------------------------

  /** The declarator with its name erased: its shape. */
  function Shape(d: Declarator): (r: Declarator)
  {
    match d
    case Abstract => Abstract
    case Var(_) => Abstract
    case Deref(n, e) => Deref(n, Shape(e))
    case Call(e, ps) => Call(Shape(e), ps)
    case Index(e, s) => Index(Shape(e), s)
    case Unsized(e) => Unsized(Shape(e))
  }

  /** `set_name` names the declarator with exactly the given identifier. */
  lemma {:induction false} GetSetName(d: Declarator, x: Ident)
    ensures GetName(SetName(d, x)) == Some(x)
  {
    match d
    case Abstract =>
    case Var(_) =>
    case Deref(_, e) => GetSetName(e, x);
    case Call(e, _) => GetSetName(e, x);
    case Index(e, _) => GetSetName(e, x);
    case Unsized(e) => GetSetName(e, x);
  }

  /** `set_name` keeps the shape: only the leaf changes. */
  lemma {:induction false} SetNameKeepsShape(d: Declarator, x: Ident)
    ensures Shape(SetName(d, x)) == Shape(d)
  {
    match d
    case Abstract =>
    case Var(_) =>
    case Deref(_, e) => SetNameKeepsShape(e, x);
    case Call(e, _) => SetNameKeepsShape(e, x);
    case Index(e, _) => SetNameKeepsShape(e, x);
    case Unsized(e) => SetNameKeepsShape(e, x);
  }

  /** The type depends only on the shape, never on the name. */
  lemma {:induction false} SetTypeIgnoresName(d: Declarator, t: DTypes.DType)
    ensures SetType(Shape(d), t) == SetType(d, t)
  {
    match d
    case Abstract =>
    case Var(_) =>
    case Deref(_, e) => SetTypeIgnoresName(e, DTypes.PointerTo(t));
    case Call(e, ps) => SetTypeIgnoresName(e, DTypes.Function(ParamTypes(ps), t));
    case Index(e, s) => SetTypeIgnoresName(e, DTypes.Array(s, t));
    case Unsized(e) => SetTypeIgnoresName(e, DTypes.PointerTo(t));
  }

  /** Naming a declarator does not change the type it declares. */
  lemma SetNameKeepsType(d: Declarator, x: Ident, t: DTypes.DType)
    ensures SetType(SetName(d, x), t) == SetType(d, t)
  {
    SetTypeIgnoresName(SetName(d, x), t);
    SetNameKeepsShape(d, x);
    SetTypeIgnoresName(d, t);
  }

  /** Renaming twice is renaming once with the last name. */
  lemma {:induction false} SetNameTwice(d: Declarator, x: Ident, y: Ident)
    ensures SetName(SetName(d, x), y) == SetName(d, y)
  {
    match d
    case Abstract =>
    case Var(_) =>
    case Deref(_, e) => SetNameTwice(e, x, y);
    case Call(e, _) => SetNameTwice(e, x, y);
    case Index(e, _) => SetNameTwice(e, x, y);
    case Unsized(e) => SetNameTwice(e, x, y);
  }

  /** `pointed` keeps the name. */
  lemma PointedKeepsName(d: Declarator)
    ensures GetName(Pointed(d)) == GetName(d)
  {
  }

  /** The number of pointer-adding nodes (`Deref` or `Unsized`) on a path
      made only of them. */
  function PointerNodes(d: Declarator): nat {
    match d
    case Deref(_, e) => PointerNodes(e) + 1
    case Unsized(e) => PointerNodes(e) + 1
    case _ => 0
  }

  predicate OnlyPointers(d: Declarator) {
    match d
    case Deref(_, e) => OnlyPointers(e)
    case Unsized(e) => OnlyPointers(e)
    case Abstract => true
    case Var(_) => true
    case _ => false
  }

  /** A declarator made only of `Deref` and `Unsized` nodes gives a
      single pointer node whose level counts the NODES, not the `n` of each
      `Deref`: `Deref(3, Var x)` declares a one-level pointer. */
  lemma {:induction false} PointerDeclarator(d: Declarator, t: DTypes.DType)
    requires OnlyPointers(d)
    ensures SetType(d, t) == DTypes.PointerN(t, PointerNodes(d))
  {
    match d
    case Abstract =>
    case Var(_) =>
    case Deref(_, e) =>
      PointerDeclarator(e, DTypes.PointerTo(t));
      PointerNShift(t, PointerNodes(e));
    case Unsized(e) =>
      PointerDeclarator(e, DTypes.PointerTo(t));
      PointerNShift(t, PointerNodes(e));
  }

  lemma {:induction false} PointerNShift(t: DTypes.DType, n: nat)
    ensures DTypes.PointerN(DTypes.PointerTo(t), n) == DTypes.PointerN(t, n + 1)
  {
    if n > 0 {
      PointerNShift(t, n - 1);
    }
  }

  /** Every `Deref(n, d)` gives the same type as `Deref(1, d)`. */
  lemma DerefLevelIgnored(n: nat, d: Declarator, t: DTypes.DType)
    ensures SetType(Deref(n, d), t) == SetType(Deref(1, d), t)
  {
  }

  /** `Index(d, s)` declares an array of `s` of what `d` would declare,
      and `Call(d, ps)` a function returning it. */
  lemma IndexAndCall(x: Ident, s: Words.Word, ps: seq<ParamDecl>, t: DTypes.DType)
    ensures SetType(Index(Var(x), s), t) == DTypes.Array(s, t)
    ensures SetType(Call(Var(x), ps), t).Function? && SetType(Call(Var(x), ps), t).ret == t
    ensures |SetType(Call(Var(x), ps), t).params| == |ps|
  {
  }
}
