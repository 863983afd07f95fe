/** Top-level definitions of `src/ast/definition.rs`, and the
    rewrites the parser applies to them while it builds a declaration:
    `make_static`, `change_base_ty`, `add_def`, and the shapes the
    `init_declarator`, `init_declarator_list`, `vdecl` and
    `function_definition` rules produce.

    Function bodies (`Stmt`) are opaque: the statement module is a stub.
 */
module Definitions {
  import opened Outcome
  import DTypes
  import Declarators
  import Exprs

  type Ident = string

  /** A function body; its contents are not modelled. */
  datatype Stmt = Stmt(id: nat)

  /** One declarator of a variable declaration with its initializer. */
  type InitDecl = (Declarators.Declarator, Option<Exprs.Expr>)

  datatype Defn =
    | Struct(ty: DTypes.DType, tag: Option<Ident>)
    | Union(ty: DTypes.DType, tag: Option<Ident>)
    | Enum(ty: DTypes.DType, tag: Option<Ident>)
    | TypeDef(ty: DTypes.DType, decls: seq<Declarators.Declarator>)
    | Vars(isStatic: bool, ty: DTypes.DType, vars: seq<InitDecl>)
    | FDef(name: Ident, ty: DTypes.DType, params: seq<Declarators.ParamDecl>, body: Stmt)

  const UNREACHABLE := "internal error: entered unreachable code"

  /** `make_static`: sets the flag of a variable declaration; a function
      definition is left alone; anything else is unreachable. */
  function MakeStatic(d: Defn): (r: Result<Defn>)
    ensures r.Ok? <==> d.Vars? || d.FDef?
    ensures d.Vars? ==> r == Ok(d.(isStatic := true))
    ensures d.FDef? ==> r == Ok(d)
  {
    match d
    case Vars(_, t, vs) => Ok(Vars(true, t, vs))
    case FDef(_, _, _, _) => Ok(d)
    case _ => Panic(UNREACHABLE)
  }

  /** Making a definition static twice is making it static once. */
  lemma MakeStaticIdempotent(d: Defn)
    requires d.Vars? || d.FDef?
    ensures MakeStatic(MakeStatic(d).value) == MakeStatic(d)
  {
  }

  /** `change_base_ty`: replaces only the type field. */
  function ChangeBaseTy(d: Defn, ty: DTypes.DType): (r: Result<Defn>)
    ensures r.Ok? <==> d.Vars? || d.FDef?
    ensures r.Ok? ==> r.value.ty == ty && r.value == d.(ty := ty)
  {
    match d
    case Vars(s, _, vs) => Ok(Vars(s, ty, vs))
    case FDef(n, _, ps, b) => Ok(FDef(n, ty, ps, b))
    case _ => Panic(UNREACHABLE)
  }

  /** Changing the type twice keeps the last type, and changing it back
      restores the definition. */
  lemma ChangeBaseTyLastWins(d: Defn, t1: DTypes.DType, t2: DTypes.DType)
    requires d.Vars? || d.FDef?
    ensures ChangeBaseTy(ChangeBaseTy(d, t1).value, t2) == ChangeBaseTy(d, t2)
    ensures ChangeBaseTy(ChangeBaseTy(d, t1).value, d.ty) == Ok(d)
  {
  }

  /** `add_def`: prepend the single declarator of `o` to `self`'s list. */
  function AddDef(self: Defn, o: Defn): (r: Result<Defn>)
    ensures r.Ok? <==> self.Vars? && o.Vars? && |o.vars| == 1
    ensures r.Ok? ==>
      && r.value.Vars? && r.value.isStatic == self.isStatic && r.value.ty == self.ty
      && |r.value.vars| == |self.vars| + 1
      && r.value.vars[0] == o.vars[0] && r.value.vars[1..] == self.vars
  {
    if self.Vars? && o.Vars? && |o.vars| == 1 then Ok(self.(vars := [o.vars[0]] + self.vars))
    else Panic(UNREACHABLE)
  }

  /** `init_declarator`: one declarator, not static, type `Void` until
      `vdecl` sets the real one. */
  function InitDeclarator(d: Declarators.Declarator, init: Option<Exprs.Expr>): (r: Defn)
    ensures r.Vars? && !r.isStatic && r.ty == DTypes.Void && r.vars == [(d, init)]
  {
    Vars(false, DTypes.Void, [(d, init)])
  }

  /** `init_declarator_list`, right-recursive: the first declarator is
      added in front of the list built from the rest.  No children is a
      rule the macro cannot match. */
  function InitDeclaratorList(items: seq<InitDecl>): (r: Result<Defn>)
    decreases |items|
  {
    if |items| == 0 then Panic("not implemented: Unable to match")
    else if |items| == 1 then Ok(InitDeclarator(items[0].0, items[0].1))
    else
      var l :- InitDeclaratorList(items[1..]);
      AddDef(l, InitDeclarator(items[0].0, items[0].1))
  }

  /** The list keeps the declarators in source order. */
  lemma {:induction false} InitDeclaratorListOrder(items: seq<InitDecl>)
    requires |items| > 0
    ensures InitDeclaratorList(items) == Ok(Vars(false, DTypes.Void, items))
    decreases |items|
  {
    if |items| > 1 {
      InitDeclaratorListOrder(items[1..]);
      var head := InitDeclarator(items[0].0, items[0].1);
      assert head.vars[0] == items[0];
      assert [items[0]] + items[1..] == items;
      assert AddDef(Vars(false, DTypes.Void, items[1..]), head) == Ok(Vars(false, DTypes.Void, items));
    } else {
      assert [(items[0].0, items[0].1)] == items;
    }
  }

  /** `vdecl`: the list, given its base type. */
  function Vdecl(ty: DTypes.DType, items: seq<InitDecl>): (r: Result<Defn>) {
    var l :- InitDeclaratorList(items);
    ChangeBaseTy(l, ty)
  }

  /** A declaration is its declarators in order with the declared type;
      a `static` declaration is the same with the flag set. */
  lemma VdeclMeaning(ty: DTypes.DType, items: seq<InitDecl>)
    requires |items| > 0
    ensures Vdecl(ty, items) == Ok(Vars(false, ty, items))
    ensures Vdecl(ty, items).Ok? && MakeStatic(Vdecl(ty, items).value) == Ok(Vars(true, ty, items))
  {
    InitDeclaratorListOrder(items);
  }

  /** `function_definition`: the declarator must be a call on a plain
      name; its parameters become the function's. */
  function FunctionDefinition(ty: DTypes.DType, d: Declarators.Declarator, body: Stmt): (r: Result<Defn>)
    ensures r.Ok? <==> d.Call? && d.inner.Var?
    ensures r.Ok? ==> r.value == FDef(d.inner.name, ty, d.params, body)
  {
    match d
    case Call(n, args) =>
      (match n
       case Var(name) => Ok(FDef(name, ty, args, body))
       case _ => Panic(UNREACHABLE))
    case _ => Panic(UNREACHABLE)
  }
}
