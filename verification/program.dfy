/** The fold of `Program::parse` in `src/ast/program.rs`: a list of
    top-level definitions becomes a function table, a variable table and
    the order in which initialised variables appear.

    The source's two nested loops are modelled as they run: the outer one
    over definitions (`Step`), the inner one over the declarators of a
    `Vars` (`AddItems`).  Hash-map iteration order plays no part here:
    the tables are `map`s and only `order` is a sequence.
 */
module Programs {
  import opened Outcome
  import DTypes
  import Declarators
  import Exprs
  import Definitions

  type Ident = string

  /** What `funs` stores: return type, parameters, body. */
  type FunDef = (DTypes.DType, seq<Declarators.ParamDecl>, Definitions.Stmt)

  /** What `vars` stores: static flag, declared type, initializer. */
  datatype VarDef = VarDef(isStatic: bool, ty: DTypes.DType, init: Option<Exprs.Expr>)

  datatype Program = Program(funs: map<Ident, FunDef>, vars: map<Ident, VarDef>, order: seq<Ident>)

  /** The part of the program the inner loop changes. */
  datatype Globals = Globals(vars: map<Ident, VarDef>, order: seq<Ident>)

  /** One declarator of a `Vars`, tagged with its declaration's flag and
      base type. */
  datatype VarItem = VarItem(isStatic: bool, base: DTypes.DType, decl: Declarators.Declarator, init: Option<Exprs.Expr>)

  function NameOf(it: VarItem): Option<Ident> {
    Declarators.GetName(it.decl)
  }

  /** The table entry an item writes: its type is the declarator applied
      to the base type. */
  function Entry(it: VarItem): VarDef {
    VarDef(it.isStatic, Declarators.SetType(it.decl, it.base), it.init)
  }

  /** One pass of the inner loop. */
  function AddItem(g: Globals, it: VarItem): (r: Result<Globals>)
    ensures r.Ok? <==> NameOf(it).Some?
    ensures r.Ok? ==>
      var n := NameOf(it).value;
      && r.value.order == g.order + (if it.init.Some? then [n] else [])
      && n in r.value.vars
      && (n !in g.vars || it.init.Some? ==> r.value.vars[n] == Entry(it))
      && (n in g.vars && it.init.None? ==> r.value.vars == g.vars)
      && (forall m :: m != n ==> (m in r.value.vars <==> m in g.vars))
      && (forall m :: m != n && m in g.vars ==> r.value.vars[m] == g.vars[m])
  {
    match NameOf(it)
    case None => Panic("Unnamed variable")
    case Some(n) =>
      var order := if it.init.Some? then g.order + [n] else g.order;
      var vars := if n !in g.vars || it.init.Some? then g.vars[n := Entry(it)] else g.vars;
      Ok(Globals(vars, order))
  }

  /** The inner loop over a sequence of items. */
  function AddItems(g: Globals, its: seq<VarItem>): (r: Result<Globals>)
    decreases |its|
  {
    if |its| == 0 then Ok(g)
    else
      var q :- AddItems(g, its[..|its| - 1]);
      AddItem(q, its[|its| - 1])
  }

  /** The declarators of one `Vars` as items. */
  function Tagged(s: bool, ty: DTypes.DType, vs: seq<Definitions.InitDecl>): (r: seq<VarItem>)
    ensures |r| == |vs|
    ensures forall i :: 0 <= i < |vs| ==> r[i] == VarItem(s, ty, vs[i].0, vs[i].1)
  {
    seq(|vs|, i requires 0 <= i < |vs| => VarItem(s, ty, vs[i].0, vs[i].1))
  }

  /** One pass of the outer loop. */
  function Step(p: Program, d: Definitions.Defn): (r: Result<Program>)
    ensures d.FDef? ==> r == Ok(p.(funs := p.funs[d.name := (d.ty, d.params, d.body)]))
    ensures !d.FDef? && !d.Vars? ==> r.Panic?
    ensures d.Vars? && r.Ok? ==> r.value.funs == p.funs
  {
    match d
    case FDef(f, ty, ps, b) => Ok(p.(funs := p.funs[f := (ty, ps, b)]))
    case Vars(s, ty, vs) =>
      var g :- AddItems(Globals(p.vars, p.order), Tagged(s, ty, vs));
      Ok(Program(p.funs, g.vars, g.order))
    case _ => Panic(Definitions.UNREACHABLE)
  }

  /** The outer loop over the first `k` definitions. */
  function ParseUpTo(defs: seq<Definitions.Defn>, k: nat): (r: Result<Program>)
    requires k <= |defs|
  {
    if k == 0 then Ok(Program(map[], map[], []))
    else
      var p :- ParseUpTo(defs, k - 1);
      Step(p, defs[k - 1])
  }

  function ParseProgram(defs: seq<Definitions.Defn>): Result<Program> {
    ParseUpTo(defs, |defs|)
  }

  // ---------------------------------------------------------------------
  // Reference definitions
  // ---------------------------------------------------------------------

  /** The last item named `n` that has an initializer. */
  ghost function LastInit(its: seq<VarItem>, n: Ident): (r: Option<nat>)
    ensures r.Some? ==> r.value < |its| && NameOf(its[r.value]) == Some(n) && its[r.value].init.Some?
    ensures r.Some? ==> forall i :: r.value < i < |its| ==> !(NameOf(its[i]) == Some(n) && its[i].init.Some?)
    ensures r.None? ==> forall i :: 0 <= i < |its| ==> !(NameOf(its[i]) == Some(n) && its[i].init.Some?)
    decreases |its|
  {
    if |its| == 0 then None
    else if NameOf(its[|its| - 1]) == Some(n) && its[|its| - 1].init.Some? then Some(|its| - 1)
    else LastInit(its[..|its| - 1], n)
  }

  /** The first item named `n`. */
  ghost function FirstNamed(its: seq<VarItem>, n: Ident): (r: Option<nat>)
    ensures r.Some? ==> r.value < |its| && NameOf(its[r.value]) == Some(n)
    ensures r.Some? ==> forall i :: 0 <= i < r.value ==> NameOf(its[i]) != Some(n)
    ensures r.None? ==> forall i :: 0 <= i < |its| ==> NameOf(its[i]) != Some(n)
    decreases |its|
  {
    if |its| == 0 then None
    else
      var f := FirstNamed(its[..|its| - 1], n);
      if f.Some? then f
      else if NameOf(its[|its| - 1]) == Some(n) then Some(|its| - 1)
      else None
  }

  /** The names of the initialised items, in order, repeats kept. */
  function InitNames(its: seq<VarItem>): (r: seq<Ident>)
    ensures |r| <= |its|
    decreases |its|
  {
    if |its| == 0 then []
    else
      var it := its[|its| - 1];
      InitNames(its[..|its| - 1]) + (if it.init.Some? && NameOf(it).Some? then [NameOf(it).value] else [])
  }

  /** The declarators of every `Vars` among the first `k` definitions, in
      order. */
  function Flat(defs: seq<Definitions.Defn>, k: nat): seq<VarItem>
    requires k <= |defs|
  {
    if k == 0 then []
    else
      var d := defs[k - 1];
      Flat(defs, k - 1) + (if d.Vars? then Tagged(d.isStatic, d.ty, d.vars) else [])
  }

  /** The last function definition named `f`. */
  ghost function LastFDef(defs: seq<Definitions.Defn>, k: nat, f: Ident): (r: Option<nat>)
    requires k <= |defs|
    ensures r.Some? ==> r.value < k && defs[r.value].FDef? && defs[r.value].name == f
    ensures r.Some? ==> forall i :: r.value < i < k ==> !(defs[i].FDef? && defs[i].name == f)
    ensures r.None? ==> forall i :: 0 <= i < k ==> !(defs[i].FDef? && defs[i].name == f)
  {
    if k == 0 then None
    else if defs[k - 1].FDef? && defs[k - 1].name == f then Some(k - 1)
    else LastFDef(defs, k - 1, f)
  }

  /** A definition the fold accepts. */
  predicate WellFormed(d: Definitions.Defn) {
    d.FDef? || (d.Vars? && forall j :: 0 <= j < |d.vars| ==> Declarators.GetName(d.vars[j].0).Some?)
  }

  // ---------------------------------------------------------------------
  // The inner loop
  // ---------------------------------------------------------------------

  /** The inner loop fails exactly when some declarator has no name. */
  lemma {:induction false} AddItemsOk(g: Globals, its: seq<VarItem>)
    ensures AddItems(g, its).Ok? <==> forall i :: 0 <= i < |its| ==> NameOf(its[i]).Some?
    decreases |its|
  {
    if |its| > 0 {
      var pre := its[..|its| - 1];
      AddItemsOk(g, pre);
      assert forall i :: 0 <= i < |pre| ==> pre[i] == its[i];
    }
  }

  /** `order` gains the names of the initialised declarators, in order. */
  lemma {:induction false} AddItemsOrder(g: Globals, its: seq<VarItem>)
    requires AddItems(g, its).Ok?
    ensures AddItems(g, its).value.order == g.order + InitNames(its)
    decreases |its|
  {
    if |its| > 0 {
      AddItemsOrder(g, its[..|its| - 1]);
    }
  }

  /** What the inner loop leaves in `vars` for a name `n`: the last
      initialised declaration of `n` if there is one; otherwise whatever
      was there before; otherwise the first bare declaration; otherwise
      nothing.  So a bare redeclaration never overwrites an entry. */
  lemma {:induction false} AddItemsVar(g: Globals, its: seq<VarItem>, n: Ident)
    requires AddItems(g, its).Ok?
    ensures var r := AddItems(g, its).value;
      var li := LastInit(its, n);
      var fi := FirstNamed(its, n);
      && (li.Some? ==> n in r.vars && r.vars[n] == Entry(its[li.value]))
      && (li.None? && n in g.vars ==> n in r.vars && r.vars[n] == g.vars[n])
      && (li.None? && n !in g.vars && fi.Some? ==> n in r.vars && r.vars[n] == Entry(its[fi.value]))
      && (li.None? && n !in g.vars && fi.None? ==> n !in r.vars)
    decreases |its|
  {
    if |its| > 0 {
      var pre := its[..|its| - 1];
      AddItemsVar(g, pre, n);
      var fp := FirstNamed(pre, n);
      if fp.Some? {
        assert pre[fp.value] == its[fp.value];
      }
      var lp := LastInit(pre, n);
      if lp.Some? {
        assert pre[lp.value] == its[lp.value];
      }
    }
  }

  /** The inner loop over `a + b` is the loop over `a`, then over `b`. */
  lemma {:induction false} AddItemsAppend(g: Globals, a: seq<VarItem>, b: seq<VarItem>)
    ensures AddItems(g, a + b) ==
      (if AddItems(g, a).Ok? then AddItems(AddItems(g, a).value, b) else AddItems(g, a))
    decreases |b|
  {
    if |b| == 0 {
      assert a + b == a;
    } else {
      assert (a + b)[..|a + b| - 1] == a + b[..|b| - 1];
      AddItemsAppend(g, a, b[..|b| - 1]);
    }
  }

  // ---------------------------------------------------------------------
  // The outer loop
  // ---------------------------------------------------------------------

  /** The fold fails exactly when some definition is neither a function
      nor a declaration of named variables. */
  lemma {:induction false} ParseOk(defs: seq<Definitions.Defn>, k: nat)
    requires k <= |defs|
    ensures ParseUpTo(defs, k).Ok? <==> forall i :: 0 <= i < k ==> WellFormed(defs[i])
  {
    if k > 0 {
      ParseOk(defs, k - 1);
      var d := defs[k - 1];
      if d.Vars? && ParseUpTo(defs, k - 1).Ok? {
        var p := ParseUpTo(defs, k - 1).value;
        AddItemsOk(Globals(p.vars, p.order), Tagged(d.isStatic, d.ty, d.vars));
      }
    }
  }

  /** The function table maps each name to its last definition: a later
      `FDef` replaces an earlier one. */
  lemma {:induction false} ParseFuns(defs: seq<Definitions.Defn>, k: nat, f: Ident)
    requires k <= |defs| && ParseUpTo(defs, k).Ok?
    ensures var p := ParseUpTo(defs, k).value;
      var l := LastFDef(defs, k, f);
      && (f in p.funs <==> l.Some?)
      && (l.Some? ==> p.funs[f] == (defs[l.value].ty, defs[l.value].params, defs[l.value].body))
  {
    if k > 0 {
      ParseFuns(defs, k - 1, f);
    }
  }

  /** Variables and order are the inner loop run over every declarator of
      the program, functions in between playing no part. */
  lemma {:induction false} ParseGlobals(defs: seq<Definitions.Defn>, k: nat)
    requires k <= |defs| && ParseUpTo(defs, k).Ok?
    ensures var p := ParseUpTo(defs, k).value;
      AddItems(Globals(map[], []), Flat(defs, k)) == Ok(Globals(p.vars, p.order))
  {
    if k > 0 {
      ParseGlobals(defs, k - 1);
      var d := defs[k - 1];
      var extra := if d.Vars? then Tagged(d.isStatic, d.ty, d.vars) else [];
      AddItemsAppend(Globals(map[], []), Flat(defs, k - 1), extra);
    }
  }

  /** For the whole program: each variable's entry is its last
      initialised declaration, else its first declaration; `order` lists
      every initialised declarator's name, in source order. */
  lemma ProgramVars(defs: seq<Definitions.Defn>, n: Ident)
    requires ParseProgram(defs).Ok?
    ensures var p := ParseProgram(defs).value;
      var its := Flat(defs, |defs|);
      var li := LastInit(its, n);
      var fi := FirstNamed(its, n);
      && p.order == InitNames(its)
      && (li.Some? ==> n in p.vars && p.vars[n] == Entry(its[li.value]))
      && (li.None? && fi.Some? ==> n in p.vars && p.vars[n] == Entry(its[fi.value]))
      && (fi.None? ==> n !in p.vars)
  {
    var its := Flat(defs, |defs|);
    ParseGlobals(defs, |defs|);
    AddItemsOrder(Globals(map[], []), its);
    AddItemsVar(Globals(map[], []), its, n);
  }
}
