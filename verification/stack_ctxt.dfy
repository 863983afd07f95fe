/** The compile context of `src/stack/ctxt.rs`: a scope from identifiers
    to locations, and the offset of the next free global word.

    `fdecl` numbers functions by the scope size; `global_vdecl` reserves
    whole words for a global (at least one) at the current offset;
    `push_addr` and `push_var` emit the code that pushes a global's address
    or value.  Locals and functions are `todo!()` there.
 */
module StackCtxt {
  import opened Outcome
  import opened Words
  import DTypes
  import StackExec

  type Ident = string

  datatype Location = Global(w: Word) | Local(w: Word) | Function(w: Word)

  datatype Context = Context(globalOffset: nat, scope: map<Ident, Location>)

  /** `fdecl`: the new function is numbered by the size of the scope
      before the insertion (cast to `Word`). */
  function Fdecl(c: Context, f: Ident): (r: Context)
    ensures f in r.scope && r.scope[f] == Function(Wrap16(|c.scope|))
    ensures forall v :: v != f ==> (v in r.scope <==> v in c.scope)
    ensures forall v :: v != f && v in c.scope ==> r.scope[v] == c.scope[v]
    ensures |r.scope| == if f in c.scope then |c.scope| else |c.scope| + 1
    ensures r.globalOffset == c.globalOffset
  {
    c.(scope := c.scope[f := Function(Wrap16(|c.scope|))])
  }

  /** The number of words for `size` bytes: `max(size, WORD_SIZE)` divided
      by `WORD_SIZE`, rounded up. */
  function WordsFor(size: nat): (w: nat)
    ensures w >= 1
    ensures w * WORD_SIZE >= size
    ensures (w - 1) * WORD_SIZE < size || w == 1
  {
    var bytes := if size > WORD_SIZE then size else WORD_SIZE;
    bytes / WORD_SIZE + if bytes % WORD_SIZE != 0 then 1 else 0
  }

  /** `global_vdecl`: `v` is placed at the current offset (cast to
      `Word`), and the offset moves past its words.  A name declared
      again is moved; the old words stay reserved. */
  function GlobalVdecl(c: Context, v: Ident, ty: DTypes.DType): (r: Result<Context>)
    ensures r.Ok? <==> DTypes.Size(ty).Ok?
    ensures r.Ok? ==>
      && r.value.globalOffset == c.globalOffset + WordsFor(DTypes.Size(ty).value)
      && r.value.globalOffset > c.globalOffset
      && r.value.scope.Keys == c.scope.Keys + {v}
      && r.value.scope[v] == Global(Wrap16(c.globalOffset))
      && forall u :: u in c.scope && u != v ==> r.value.scope[u] == c.scope[u]
  {
    var size :- DTypes.Size(ty);
    Ok(Context(c.globalOffset + WordsFor(size), c.scope[v := Global(Wrap16(c.globalOffset))]))
  }

  /** Declaring globals in order: the final context and the offset each
      declaration was placed at (before the cast to `Word`). */
  function GlobalVdecls(c: Context, decls: seq<(Ident, DTypes.DType)>): (r: Result<(Context, seq<nat>)>)
    ensures r.Ok? ==> |r.value.1| == |decls|
    decreases |decls|
  {
    if |decls| == 0 then Ok((c, []))
    else
      var c1 :- GlobalVdecl(c, decls[0].0, decls[0].1);
      var (c2, starts) :- GlobalVdecls(c1, decls[1..]);
      Ok((c2, [c.globalOffset] + starts))
  }

  /** The word ranges handed out are disjoint and increasing: every
      declaration starts where the previous one's words end, the first at
      the initial offset, and all of them before the final offset. */
  lemma {:induction false} GlobalRangesDisjoint(c: Context, decls: seq<(Ident, DTypes.DType)>)
    requires GlobalVdecls(c, decls).Ok?
    ensures var (c', starts) := GlobalVdecls(c, decls).value;
      && (|decls| > 0 ==> starts[0] == c.globalOffset)
      && (forall i :: 0 <= i < |decls| ==> DTypes.Size(decls[i].1).Ok?)
      && (forall i :: 0 <= i < |decls| ==> c.globalOffset <= starts[i] < c'.globalOffset)
      && (forall i :: 0 <= i < |decls| - 1 ==>
            starts[i + 1] == starts[i] + WordsFor(DTypes.Size(decls[i].1).value))
      && (|decls| > 0 ==>
            c'.globalOffset == starts[|decls| - 1] + WordsFor(DTypes.Size(decls[|decls| - 1].1).value))
    decreases |decls|
  {
    if |decls| > 0 {
      var c1 := GlobalVdecl(c, decls[0].0, decls[0].1).value;
      GlobalRangesDisjoint(c1, decls[1..]);
      var (c2, rest) := GlobalVdecls(c1, decls[1..]).value;
      var starts := [c.globalOffset] + rest;
      assert GlobalVdecls(c, decls).value == (c2, starts);
      forall i | 0 <= i < |decls|
        ensures DTypes.Size(decls[i].1).Ok?
      {
        if i > 0 {
          assert decls[i] == decls[1..][i - 1];
        }
      }
      forall i | 0 <= i < |decls| - 1
        ensures starts[i + 1] == starts[i] + WordsFor(DTypes.Size(decls[i].1).value)
      {
        if i > 0 {
          assert decls[i] == decls[1..][i - 1];
        }
      }
      if |decls| > 1 {
        assert decls[|decls| - 1] == decls[1..][|decls| - 2];
      }
    }
  }

  /** Re-declaring a name moves it to the new offset, and the offset
      still advances by both declarations' words. */
  lemma RedeclareOverwrites(c: Context, v: Ident, t1: DTypes.DType, t2: DTypes.DType)
    requires DTypes.Size(t1).Ok? && DTypes.Size(t2).Ok?
    ensures var c1 := GlobalVdecl(c, v, t1).value;
      var c2 := GlobalVdecl(c1, v, t2).value;
      c2.scope[v] == Global(Wrap16(c.globalOffset + WordsFor(DTypes.Size(t1).value))) &&
      c2.globalOffset == c.globalOffset + WordsFor(DTypes.Size(t1).value) + WordsFor(DTypes.Size(t2).value)
  {
    VdeclAt(c, v, t1);
    VdeclAt(GlobalVdecl(c, v, t1).value, v, t2);
  }

  lemma VdeclAt(c: Context, v: Ident, ty: DTypes.DType)
    requires DTypes.Size(ty).Ok?
    ensures GlobalVdecl(c, v, ty) ==
      Ok(Context(c.globalOffset + WordsFor(DTypes.Size(ty).value), c.scope[v := Global(Wrap16(c.globalOffset))]))
  {
  }

  /** `push_addr`: a global pushes its address; a missing name panics on
      the `HashMap` index, locals and functions are `todo!()`. */
  function PushAddr(c: Context, v: Ident, stream: seq<StackExec.StackInst>): (r: Result<seq<StackExec.StackInst>>)
    ensures r.Ok? <==> v in c.scope && c.scope[v].Global?
    ensures r.Ok? ==> r.value == stream + [StackExec.PushW(c.scope[v].w)]
  {
    if v !in c.scope then Panic(NO_ENTRY)
    else match c.scope[v]
      case Global(w) => Ok(stream + [StackExec.PushW(w)])
      case Local(_) => Panic(NOT_YET_IMPLEMENTED)
      case Function(_) => Panic(NOT_YET_IMPLEMENTED)
  }

  /** `push_var`: the address, then `GlobalRead`. */
  function PushVar(c: Context, v: Ident, stream: seq<StackExec.StackInst>): (r: Result<seq<StackExec.StackInst>>)
    ensures r.Ok? <==> v in c.scope && c.scope[v].Global?
    ensures r.Ok? ==> r.value == stream + [StackExec.PushW(c.scope[v].w), StackExec.GlobalRead]
  {
    if v !in c.scope then Panic(NO_ENTRY)
    else match c.scope[v]
      case Global(_) => Ok(PushAddr(c, v, stream).value + [StackExec.GlobalRead])
      case _ => Panic(NOT_YET_IMPLEMENTED)
  }

  /** Running the code `push_var` emits for a global leaves the global's
      word on top of the stack, when the word exists. */
  lemma PushVarReads(c: Context, v: Ident, labels: map<Word, nat>, m: StackExec.Machine)
    requires v in c.scope && c.scope[v].Global? && c.scope[v].w < |m.stack|
    ensures var code := PushVar(c, v, []).value;
      var m1 := StackExec.Exec1(code[0], labels, m).value.m;
      var m2 := StackExec.Exec1(code[1], labels, m1);
      m2.Ok? && m2.value.m.stack == m.stack + [m.stack[c.scope[v].w]]
  {
  }
}
