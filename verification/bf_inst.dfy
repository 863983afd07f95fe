/** Brainfuck instructions as the code generator sees them: the textual
    parser and printer, and the table that turns each (already expanded)
    stack instruction into a fixed Brainfuck snippet.
 */
module BfInst {
  import opened Outcome
  import opened Words

  /** One Brainfuck command, or a debug marker that carries no behaviour. */
  datatype BFInst = Dbg(note: string) | Left | Right | Inc | Dec | In | Out | LBrac | RBrac

  // ---------------------------------------------------------------------
  // Parsing and printing
  // ---------------------------------------------------------------------

  /** The eight characters Brainfuck gives a meaning to. */
  predicate IsCommand(c: char) {
    c == '<' || c == '>' || c == '+' || c == '-' || c == ',' || c == '.' || c == '[' || c == ']'
  }

  /** The instruction a single character stands for, if any. */
  function Decode(c: char): (r: Option<BFInst>)
    ensures r.Some? <==> IsCommand(c)
    ensures r.Some? ==> !r.value.Dbg?
  {
    match c
    case '<' => Some(Left)
    case '>' => Some(Right)
    case '+' => Some(Inc)
    case '-' => Some(Dec)
    case ',' => Some(In)
    case '.' => Some(Out)
    case '[' => Some(LBrac)
    case ']' => Some(RBrac)
    case _ => None
  }

  /** `BFInst::parse`: every command character becomes its instruction,
      every other character is skipped. */
  function Parse(code: string): (r: seq<BFInst>)
    ensures |r| <= |code|
    ensures forall k :: 0 <= k < |r| ==> !r[k].Dbg?
  {
    if |code| == 0 then []
    else (match Decode(code[0]) case Some(i) => [i] case None => []) + Parse(code[1..])
  }

  /** `BFInst::show`: the character of a command; a debug marker has none
      and panics (`unimplemented!`). */
  function Show(i: BFInst): (r: Result<char>)
    ensures r.Ok? <==> !i.Dbg?
    ensures r.Ok? ==> IsCommand(r.value) && Decode(r.value) == Some(i)
  {
    match i
    case Left => Ok('<')
    case Right => Ok('>')
    case Inc => Ok('+')
    case Dec => Ok('-')
    case In => Ok(',')
    case Out => Ok('.')
    case LBrac => Ok('[')
    case RBrac => Ok(']')
    case Dbg(_) => Panic(NOT_IMPLEMENTED)
  }

  /** The text `show_code` prints for a debug marker when debug
      information is requested. */
  function DbgText(note: string): string {
    "\n`" + note + "`: "
  }

  /** `BFInst::show_code`: commands print as their character; a debug
      marker prints `DbgText` when `dbgInfo` holds and nothing otherwise. */
  function ShowCode(code: seq<BFInst>, dbgInfo: bool): string {
    if |code| == 0 then ""
    else
      var piece :=
        if code[0].Dbg? then (if dbgInfo then DbgText(code[0].note) else "")
        else [Show(code[0]).value];
      piece + ShowCode(code[1..], dbgInfo)
  }

  /** `code` with every debug marker removed. */
  function StripDbg(code: seq<BFInst>): (r: seq<BFInst>)
    ensures |r| <= |code|
    ensures forall k :: 0 <= k < |r| ==> !r[k].Dbg?
  {
    if |code| == 0 then []
    else (if code[0].Dbg? then [] else [code[0]]) + StripDbg(code[1..])
  }

  /** The command characters of `s`, in order. */
  function Commands(s: string): (r: string)
    ensures forall k :: 0 <= k < |r| ==> IsCommand(r[k])
  {
    if |s| == 0 then []
    else (if IsCommand(s[0]) then [s[0]] else []) + Commands(s[1..])
  }

  /** No character of `s` is a command. */
  predicate CommandFree(s: string) {
    forall k :: 0 <= k < |s| ==> !IsCommand(s[k])
  }

  lemma {:induction false} ParseAppend(a: string, b: string)
    ensures Parse(a + b) == Parse(a) + Parse(b)
  {
    if |a| == 0 {
      assert a + b == b;
    } else {
      assert (a + b)[1..] == a[1..] + b;
      ParseAppend(a[1..], b);
    }
  }

  lemma {:induction false} ParseCommandFree(s: string)
    requires CommandFree(s)
    ensures Parse(s) == []
  {
    if |s| > 0 {
      ParseCommandFree(s[1..]);
    }
  }

  /** Parsing keeps exactly the command characters, in order: printing the
      parse back gives the command characters of the input. */
  lemma {:induction false} ShowParse(s: string, dbgInfo: bool)
    ensures ShowCode(Parse(s), dbgInfo) == Commands(s)
    ensures |Parse(s)| == |Commands(s)|
  {
    if |s| > 0 {
      ShowParse(s[1..], dbgInfo);
      var head := match Decode(s[0]) case Some(i) => [i] case None => [];
      assert Parse(s) == head + Parse(s[1..]);
      ShowCodeAppend(head, Parse(s[1..]), dbgInfo);
      if IsCommand(s[0]) {
        var i := Decode(s[0]).value;
        assert Show(i) == Ok(s[0]) by {
          assert Decode(Show(i).value) == Some(i);
        }
      }
    }
  }

  /** `show` and `parse` are inverse on single commands. */
  lemma ShowInvertsParse(i: BFInst, c: char)
    ensures !i.Dbg? ==> Parse([Show(i).value]) == [i]
    ensures i.Dbg? ==> Show(i).Panic?
    ensures IsCommand(c) ==> Show(Decode(c).value) == Ok(c)
  {
    if IsCommand(c) {
      var j := Decode(c).value;
      assert Decode(Show(j).value) == Some(j);
    }
  }

  lemma {:induction false} ShowCodeAppend(a: seq<BFInst>, b: seq<BFInst>, dbgInfo: bool)
    ensures ShowCode(a + b, dbgInfo) == ShowCode(a, dbgInfo) + ShowCode(b, dbgInfo)
  {
    if |a| == 0 {
      assert a + b == b;
    } else {
      assert (a + b)[1..] == a[1..] + b;
      ShowCodeAppend(a[1..], b, dbgInfo);
    }
  }

  /** Printing without debug information and parsing back gives the
      program with its debug markers removed. */
  lemma {:induction false} ParseShowCode(code: seq<BFInst>)
    ensures Parse(ShowCode(code, false)) == StripDbg(code)
    ensures |ShowCode(code, false)| == |StripDbg(code)|
  {
    if |code| > 0 {
      ParseShowCode(code[1..]);
      var piece := if code[0].Dbg? then "" else [Show(code[0]).value];
      assert ShowCode(code, false) == piece + ShowCode(code[1..], false);
      ParseAppend(piece, ShowCode(code[1..], false));
      if !code[0].Dbg? {
        ShowInvertsParse(code[0], ' ');
      }
    }
  }

  /** Debug information is invisible to the parser as long as no marker's
      label contains a command character: each marker adds `\n`, two
      backquotes, `:` and a space around its label. */
  lemma {:induction false} ParseShowCodeDbg(code: seq<BFInst>)
    requires forall k :: 0 <= k < |code| && code[k].Dbg? ==> CommandFree(code[k].note)
    ensures Parse(ShowCode(code, true)) == StripDbg(code)
  {
    if |code| > 0 {
      ParseShowCodeDbg(code[1..]);
      var piece :=
        if code[0].Dbg? then DbgText(code[0].note) else [Show(code[0]).value];
      assert ShowCode(code, true) == piece + ShowCode(code[1..], true);
      ParseAppend(piece, ShowCode(code[1..], true));
      if code[0].Dbg? {
        var note := code[0].note;
        assert CommandFree(note);
        assert CommandFree(DbgText(note)) by {
          forall k | 0 <= k < |DbgText(note)|
            ensures !IsCommand(DbgText(note)[k])
          {
            if 2 <= k < 2 + |note| {
              assert DbgText(note)[k] == note[k - 2];
            }
          }
        }
        ParseCommandFree(piece);
      } else {
        ShowInvertsParse(code[0], ' ');
      }
    }
  }

  /** A debug marker printed with debug information contributes exactly
      its label plus five characters, and nothing without. */
  lemma ShowCodeDbgLength(note: string, rest: seq<BFInst>)
    ensures |ShowCode([Dbg(note)] + rest, true)| == |note| + 5 + |ShowCode(rest, true)|
    ensures ShowCode([Dbg(note)] + rest, false) == ShowCode(rest, false)
  {
    assert ([Dbg(note)] + rest)[1..] == rest;
  }

  // ---------------------------------------------------------------------
  // Bracket depth
  // ---------------------------------------------------------------------

  /** Opening brackets minus closing brackets. */
  function Depth(code: seq<BFInst>): int {
    if |code| == 0 then 0
    else (if code[0] == LBrac then 1 else if code[0] == RBrac then -1 else 0) + Depth(code[1..])
  }

  lemma {:induction false} DepthAppend(a: seq<BFInst>, b: seq<BFInst>)
    ensures Depth(a + b) == Depth(a) + Depth(b)
  {
    if |a| == 0 {
      assert a + b == b;
    } else {
      assert (a + b)[1..] == a[1..] + b;
      DepthAppend(a[1..], b);
    }
  }

  lemma {:induction false} DepthRepeat(i: BFInst, n: nat)
    requires i != LBrac && i != RBrac
    ensures Depth(Repeat(i, n)) == 0
  {
    if n > 0 {
      assert Repeat(i, n)[1..] == Repeat(i, n - 1);
      DepthRepeat(i, n - 1);
    }
  }

  // ---------------------------------------------------------------------
  // Snippets
  // ---------------------------------------------------------------------

  /** The bracket-free commands a snippet is made of. */
  datatype Simple = SLeft | SRight | SInc | SDec | SOut

  /** Snippet text as a tree: a command, or a loop `[...]` around a body.
      Writing the generator's snippet strings this way makes their bracket
      structure explicit. */
  datatype Code = Op(op: Simple) | Loop(body: seq<Code>)

  const L: Code := Op(SLeft)
  const R: Code := Op(SRight)
  const P: Code := Op(SInc)
  const M: Code := Op(SDec)
  const O: Code := Op(SOut)

  function SimpleInst(s: Simple): (r: BFInst)
    ensures r != LBrac && r != RBrac && !r.Dbg?
  {
    match s
    case SLeft => Left
    case SRight => Right
    case SInc => Inc
    case SDec => Dec
    case SOut => Out
  }

  /** The instruction sequence a snippet tree spells. */
  function Flatten(cs: seq<Code>): (r: seq<BFInst>)
    ensures forall k :: 0 <= k < |r| ==> !r[k].Dbg?
    decreases cs
  {
    if |cs| == 0 then []
    else
      match cs[0]
      case Op(s) => [SimpleInst(s)] + Flatten(cs[1..])
      case Loop(b) => [LBrac] + Flatten(b) + [RBrac] + Flatten(cs[1..])
  }

  /** Every snippet tree spells a bracket-balanced program. */
  lemma {:induction false} FlattenBalanced(cs: seq<Code>)
    ensures Depth(Flatten(cs)) == 0
    decreases cs
  {
    if |cs| > 0 {
      FlattenBalanced(cs[1..]);
      match cs[0]
      case Op(s) =>
        DepthAppend([SimpleInst(s)], Flatten(cs[1..]));
      case Loop(b) =>
        FlattenBalanced(b);
        DepthAppend([LBrac], Flatten(b));
        DepthAppend([LBrac] + Flatten(b), [RBrac]);
        DepthAppend([LBrac] + Flatten(b) + [RBrac], Flatten(cs[1..]));
    }
  }

  /** Bitwise sum of the two operands, shared by `Xor`, `And` and `Or`. */
  const BitSum: seq<Code> :=
    [R, R, P, R, P, R, P, R, P, R, P, R, P, R, P, R, P, Loop([L]), L,
     Loop([M, R, R, Loop([R]), L, Loop([M, M, Loop([P, P, P, P, Loop([M, R]), R]), P, P, L]), R, M, M, L, L, Loop([L]), L]),
     L, Loop([M, R, P, L]), R, R, R, Loop([R]), P, R, P, R, P, R, P, R, P, R, P, R, P, R, P, Loop([L]), L,
     Loop([M, R, R, Loop([R]), L, Loop([M, M, Loop([P, P, P, P, Loop([M, R]), R]), P, P, L]), R, M, M, L, L, Loop([L]), L]),
     R, R, Loop([R]), P, P, P, P, P, P, P, P,
     Loop([M, L, Loop([M, L, L, L, L, L, L, L, L, P, R, R, R, R, R, R, R, R]), R, Loop([M, L, P, R]), L]),
     L, Loop([L]), L, P, R, R, Loop([R])]

  /** Condensing the bit sums into one cell; `k` decrements select which
      per-bit sum counts as a one bit (3 for xor, 4 for and, 2 for or). */
  function Condense(k: nat): seq<Code> {
    [L, Loop([R, P, L] + Repeat(M, k) +
             [Loop([Loop([M]), R, M, L]), R,
              Loop([M, L, L, Loop([L]), L, Loop([M, L, P, R, R, P, L]), R, Loop([M, L, P, R]), R, Loop([R]), R]),
              L, L, Loop([L]), L, Loop([M, R, P, P, L]), R, Loop([M, L, P, R]), R, R, Loop([R]), L]),
     L, L, L]
  }

  /** Two's-complement style negation used by `Not` and at the end of `Or`. */
  const Negation: seq<Code> := [Loop([M, R, M, L]), R, M, Loop([M, L, P, R]), L]

  /** `[-]`, clearing the current cell. */
  const Clear: Code := Loop([M])

  /** Instructions of the stack machine after expansion, as `asm_to_bf`
      receives them.  `Unexpanded` stands for every instruction expansion
      should have removed; the generator has no snippet for it. */
  datatype StackInst =
    | PushB(b: nat) | DiscardB | SwapB | CopyB | MulB | AddB | SubB
    | Alloc(n: nat) | Dealloc(n: nat) | LclReadB(n: nat) | LclStrB(n: nat)
    | Label(l: Word) | Neq | LNot | GrEq | LAnd | LOr | Xor | And | Or | Not
    | LShift | RShift | Branch(t: Word, f: Word) | Goto | PrintChar
    | Nop | Debug(msg: string) | Comment(text: string) | Unexpanded(name: string)

  /** The name carried by the debug marker pushed before each snippet. */
  function Describe(inst: StackInst): string {
    match inst
    case PushB(_) => "PushB" case DiscardB => "DiscardB" case SwapB => "SwapB"
    case CopyB => "CopyB" case MulB => "MulB" case AddB => "AddB" case SubB => "SubB"
    case Alloc(_) => "Alloc" case Dealloc(_) => "Dealloc" case LclReadB(_) => "LclReadB"
    case LclStrB(_) => "LclStrB" case Label(_) => "Label" case Neq => "Neq" case LNot => "LNot"
    case GrEq => "GrEq" case LAnd => "LAnd" case LOr => "LOr" case Xor => "Xor" case And => "And"
    case Or => "Or" case Not => "Not" case LShift => "LShift" case RShift => "RShift"
    case Branch(_, _) => "Branch" case Goto => "Goto" case PrintChar => "PrintChar"
    case Nop => "Nop" case Debug(_) => "Debug" case Comment(_) => "Comment"
    case Unexpanded(n) => n
  }

  /** The snippet `asm_to_bf` emits for one instruction (after its debug
      marker).  `Label(0)`, `Nop`, `Debug` and `Comment` emit nothing;
      an unexpanded instruction reaches `todo!` and panics. */
  function Snippet(inst: StackInst): Result<seq<BFInst>> {
    match inst
    case PushB(b) => Ok([Right] + Repeat(Inc, b))
    case DiscardB => Ok(Flatten([Clear, L]))
    case SwapB => Ok(Flatten([L, Loop([M, R, R, P, L, L]), R, Loop([M, L, P, R]), R, Loop([M, L, P, R]), L]))
    case CopyB => Ok(Flatten([Loop([M, R, P, R, P, L, L]), R, R, Loop([M, L, L, P, R, R]), L]))
    case MulB => Ok(Flatten(
      [L, Loop([M, R, R, P, L, L]), R,
       Loop([M, R, Loop([M, R, P, R, P, L, L]), R, R, Loop([M, L, L, P, R, R]), L, Loop([M, L, L, L, P, R, R, R]), L, L]),
       R, Clear, L, L]))
    case AddB => Ok(Flatten([Loop([M, L, P, R]), L]))
    case SubB => Ok(Flatten([Loop([M, L, M, R]), L]))
    case Alloc(n) => Ok(Repeat(Right, n))
    case Dealloc(n) => Ok(DeallocCode(n))
    case LclReadB(n) => Ok(Flatten(
      Repeat(L, n) + [Loop([M] + Repeat(R, n) + [R, P, R, P, L, L] + Repeat(L, n))] +
      Repeat(R, n) + [R, R, Loop([M, L, L] + Repeat(L, n) + [P] + Repeat(R, n) + [R, R]), L]))
    case LclStrB(n) => Ok(Flatten(
      Repeat(L, n) + [Clear] + Repeat(R, n) + [Loop([M] + Repeat(L, n) + [P] + Repeat(R, n)), L]))
    case Label(n) =>
      if n == 0 then Ok([])
      else Ok(Flatten([L, Loop([M, R, P, R, P, L, L]), R, R, Loop([M, L, L, P, R, R]), L] + Repeat(M, n) +
                      [R, P, L, Loop([Clear, R, M, L]), R, Loop([M, L, P, R]), L])
              + [LBrac] + Flatten([M, L, Clear, L]))
    case Neq => Ok(Flatten([Loop([M, L, M, R]), L]))
    case LNot => Ok(Flatten([R, P, L, Loop([Clear, R, M, L]), R, Loop([M, L, P, R]), L]))
    case GrEq => Ok(Flatten(
      [R, P, L, Loop([L, Loop([R]), R, Loop([L, P, R, Clear, P, R, Clear, R, R]), L, L, L, M, L, M, R]),
       L, Clear, R, R, Loop([M, L, L, P, R, R]), L, L]))
    case LAnd => Ok(Flatten(
      [R, P, P, L, Loop([Clear, R, M, L]), L, Loop([Clear, R, R, M, L, L]), R, R, Loop([M, Loop([M, L, L, P, R, R])]), L, L]))
    case LOr => Ok(Flatten(
      [Loop([Clear, R, P, L]), L, Loop([Clear, R, R, P, L, L]), R, R, Loop([Clear, L, L, P, R, R]), L, L]))
    case Xor => Ok(Flatten(BitSum + Condense(3)))
    case And => Ok(Flatten(BitSum + Condense(4)))
    case Or => Ok(Flatten(BitSum + Condense(2) + Negation))
    case Not => Ok(Flatten(Negation))
    case LShift => Ok(Flatten(
      [Loop([M, L, Loop([M, R, R, P, R, P, L, L, L]), R, R, Loop([M, L, L, P, R, R]), R, Loop([M, L, L, L, P, R, R, R]), L, L]), L]))
    case RShift => Ok(Flatten(
      [L, Loop([M, R, R, P, L, L]), R,
       Loop([M, R, P, R, P, L, Loop([M, Loop([M, Loop([R, P, R]), R, Loop([R, R]), L]), R, Loop([R, R]), L, L, L]),
             R, M, Loop([M, L, P, R]), L, L]),
       R, Loop([M, L, L, P, R, R]), L, L]))
    case Branch(t, f) => Ok(
      Flatten([R] + Repeat(P, f) + [L, Loop([Clear, R] + Repeat(P, Wrap16(t - f)) + [L]), R, Loop([M, L, P, R]), L, R])
      + [RBrac])
    case Goto => Ok([Right, RBrac])
    case PrintChar => Ok(Flatten([O, Clear, L]))
    case Nop => Ok([])
    case Debug(_) => Ok([])
    case Comment(_) => Ok([])
    case Unexpanded(n) => Panic(NOT_YET_IMPLEMENTED + ": " + n)
  }

  /** `[-]<`: clear the top cell and pop it. */
  const ClearPop: seq<BFInst> := [LBrac, Dec, RBrac, Left]

  /** `n` repetitions of `[-]<`. */
  function DeallocCode(n: nat): (r: seq<BFInst>)
    ensures |r| == 4 * n
  {
    if n == 0 then [] else ClearPop + DeallocCode(n - 1)
  }

  /** The bracket depth a snippet leaves behind: a non-zero `Label` opens
      the block it guards, `Branch` and `Goto` close the block they leave. */
  function SnippetDepth(inst: StackInst): int {
    if inst.Label? && inst.l != 0 then 1
    else if inst.Branch? || inst.Goto? then -1
    else 0
  }

  lemma {:induction false} DeallocBalanced(n: nat)
    ensures Depth(DeallocCode(n)) == 0
  {
    if n > 0 {
      DeallocBalanced(n - 1);
      DepthAppend(ClearPop, DeallocCode(n - 1));
    }
  }

  /** Bracket balance of every snippet. */
  lemma SnippetBalance(inst: StackInst)
    ensures Snippet(inst).Ok? ==> Depth(Snippet(inst).value) == SnippetDepth(inst)
  {
    OperandBalance(inst);
    StackOpsBalance(inst);
    CompareOpsBalance(inst);
    BitOpsBalance(inst);
  }

  /** The snippets that carry an operand, and the empty ones. */
  lemma OperandBalance(inst: StackInst)
    ensures !(inst in {DiscardB, SwapB, CopyB, MulB, AddB, SubB, PrintChar, Neq, LNot, GrEq, LAnd, LOr,
                       Xor, And, Or, Not, LShift, RShift}) ==>
      Snippet(inst).Ok? ==> Depth(Snippet(inst).value) == SnippetDepth(inst)
  {
    match inst
    case PushB(b) =>
      DepthRepeat(Inc, b);
      DepthAppend([Right], Repeat(Inc, b));
    case Alloc(n) => DepthRepeat(Right, n);
    case Dealloc(n) => DeallocBalanced(n);
    case Label(n) => LabelBalance(n);
    case Branch(t, f) => BranchBalance(t, f);
    case LclReadB(n) => LclReadBalance(n);
    case LclStrB(n) => LclStrBalance(n);
    case _ =>
  }

  /** The snippets that only move bytes around the stack top. */
  lemma StackOpsBalance(inst: StackInst)
    ensures inst in {DiscardB, SwapB, CopyB, MulB, AddB, SubB, PrintChar} ==>
      Depth(Snippet(inst).value) == 0
  {
    if inst == DiscardB {
      FlattenBalanced([Clear, L]);
    } else if inst == SwapB {
      FlattenBalanced([L, Loop([M, R, R, P, L, L]), R, Loop([M, L, P, R]), R, Loop([M, L, P, R]), L]);
    } else if inst == CopyB {
      FlattenBalanced([Loop([M, R, P, R, P, L, L]), R, R, Loop([M, L, L, P, R, R]), L]);
    } else if inst == MulB {
      FlattenBalanced(
        [L, Loop([M, R, R, P, L, L]), R,
         Loop([M, R, Loop([M, R, P, R, P, L, L]), R, R, Loop([M, L, L, P, R, R]), L, Loop([M, L, L, L, P, R, R, R]), L, L]),
         R, Clear, L, L]);
    } else if inst == AddB {
      FlattenBalanced([Loop([M, L, P, R]), L]);
    } else if inst == SubB {
      FlattenBalanced([Loop([M, L, M, R]), L]);
    } else if inst == PrintChar {
      FlattenBalanced([O, Clear, L]);
    }
  }

  /** The comparison and logical snippets. */
  lemma CompareOpsBalance(inst: StackInst)
    ensures inst in {Neq, LNot, GrEq, LAnd, LOr} ==> Depth(Snippet(inst).value) == 0
  {
    if inst == Neq {
      FlattenBalanced([Loop([M, L, M, R]), L]);
    } else if inst == LNot {
      FlattenBalanced([R, P, L, Loop([Clear, R, M, L]), R, Loop([M, L, P, R]), L]);
    } else if inst == GrEq {
      FlattenBalanced(
        [R, P, L, Loop([L, Loop([R]), R, Loop([L, P, R, Clear, P, R, Clear, R, R]), L, L, L, M, L, M, R]),
         L, Clear, R, R, Loop([M, L, L, P, R, R]), L, L]);
    } else if inst == LAnd {
      FlattenBalanced(
        [R, P, P, L, Loop([Clear, R, M, L]), L, Loop([Clear, R, R, M, L, L]), R, R, Loop([M, Loop([M, L, L, P, R, R])]), L, L]);
    } else if inst == LOr {
      FlattenBalanced(
        [Loop([Clear, R, P, L]), L, Loop([Clear, R, R, P, L, L]), R, R, Loop([Clear, L, L, P, R, R]), L, L]);
    }
  }

  /** The bitwise and shift snippets. */
  lemma BitOpsBalance(inst: StackInst)
    ensures inst in {Xor, And, Or, Not, LShift, RShift} ==> Depth(Snippet(inst).value) == 0
  {
    if inst == Xor {
      FlattenBalanced(BitSum + Condense(3));
    } else if inst == And {
      FlattenBalanced(BitSum + Condense(4));
    } else if inst == Or {
      FlattenBalanced(BitSum + Condense(2) + Negation);
    } else if inst == Not {
      FlattenBalanced(Negation);
    } else if inst == LShift {
      FlattenBalanced(
        [Loop([M, L, Loop([M, R, R, P, R, P, L, L, L]), R, R, Loop([M, L, L, P, R, R]), R, Loop([M, L, L, L, P, R, R, R]), L, L]), L]);
    } else if inst == RShift {
      FlattenBalanced(
        [L, Loop([M, R, R, P, L, L]), R,
         Loop([M, R, P, R, P, L, Loop([M, Loop([M, Loop([R, P, R]), R, Loop([R, R]), L]), R, Loop([R, R]), L, L, L]),
               R, M, Loop([M, L, P, R]), L, L]),
         R, Loop([M, L, L, P, R, R]), L, L]);
    }
  }

  lemma LabelBalance(n: Word)
    ensures Snippet(Label(n)).Ok? ==> Depth(Snippet(Label(n)).value) == SnippetDepth(Label(n))
  {
    if n != 0 {
      var cs := [L, Loop([M, R, P, R, P, L, L]), R, R, Loop([M, L, L, P, R, R]), L] + Repeat(M, n) +
                [R, P, L, Loop([Clear, R, M, L]), R, Loop([M, L, P, R]), L];
      var a, b := Flatten(cs), Flatten([M, L, Clear, L]);
      FlattenBalanced(cs);
      FlattenBalanced([M, L, Clear, L]);
      DepthAppend(a, [LBrac]);
      DepthAppend(a + [LBrac], b);
    }
  }

  lemma BranchBalance(t: Word, f: Word)
    ensures Snippet(Branch(t, f)).Ok? ==> Depth(Snippet(Branch(t, f)).value) == SnippetDepth(Branch(t, f))
  {
    var cs := [R] + Repeat(P, f) + [L, Loop([Clear, R] + Repeat(P, Wrap16(t - f)) + [L]), R, Loop([M, L, P, R]), L, R];
    FlattenBalanced(cs);
    DepthAppend(Flatten(cs), [RBrac]);
  }

  lemma LclReadBalance(n: nat)
    ensures Snippet(LclReadB(n)).Ok? ==> Depth(Snippet(LclReadB(n)).value) == SnippetDepth(LclReadB(n))
  {
    FlattenBalanced(
      Repeat(L, n) + [Loop([M] + Repeat(R, n) + [R, P, R, P, L, L] + Repeat(L, n))] +
      Repeat(R, n) + [R, R, Loop([M, L, L] + Repeat(L, n) + [P] + Repeat(R, n) + [R, R]), L]);
  }

  lemma LclStrBalance(n: nat)
    ensures Snippet(LclStrB(n)).Ok? ==> Depth(Snippet(LclStrB(n)).value) == SnippetDepth(LclStrB(n))
  {
    FlattenBalanced(
      Repeat(L, n) + [Clear] + Repeat(R, n) + [Loop([M] + Repeat(L, n) + [P] + Repeat(R, n)), L]);
  }

  /** Exact shapes of the parameterised snippets. */
  lemma SnippetShapes(inst: StackInst)
    ensures inst.PushB? ==> var s := Snippet(inst).value;
      |s| == inst.b + 1 && s[0] == Right && forall k :: 1 <= k < |s| ==> s[k] == Inc
    ensures inst.Alloc? ==> var s := Snippet(inst).value;
      |s| == inst.n && forall k :: 0 <= k < |s| ==> s[k] == Right
    ensures inst.Dealloc? ==> var s := Snippet(inst).value;
      |s| == 4 * inst.n && forall k :: 0 <= k < |s| ==> s[k] == [LBrac, Dec, RBrac, Left][k % 4]
    ensures (inst.Nop? || inst.Debug? || inst.Comment? || inst == Label(0)) ==> Snippet(inst) == Ok([])
    ensures Snippet(inst).Panic? <==> inst.Unexpanded?
  {
    if inst.Dealloc? {
      DeallocShape(inst.n);
    }
  }

  lemma {:induction false} DeallocShape(n: nat)
    ensures forall k :: 0 <= k < 4 * n ==> DeallocCode(n)[k] == [LBrac, Dec, RBrac, Left][k % 4]
  {
    if n > 0 {
      DeallocShape(n - 1);
      forall k | 0 <= k < 4 * n
        ensures DeallocCode(n)[k] == [LBrac, Dec, RBrac, Left][k % 4]
      {
        if k >= 4 {
          assert DeallocCode(n)[k] == DeallocCode(n - 1)[k - 4];
          assert (k - 4) % 4 == k % 4;
        }
      }
    }
  }

  /** The body of `asm_to_bf`: a debug marker, then the snippet, for every
      instruction in order. */
  function Translate(stack: seq<StackInst>): (r: Result<seq<BFInst>>)
    ensures r.Panic? <==> exists k :: 0 <= k < |stack| && stack[k].Unexpanded?
  {
    if |stack| == 0 then Ok([])
    else
      var s :- Snippet(stack[0]);
      var rest :- Translate(stack[1..]);
      assert forall k :: 1 <= k < |stack| ==> stack[k] == stack[1..][k - 1];
      Ok([Dbg(Describe(stack[0]))] + s + rest)
  }

  /** The prologue `>+[>`: one spare cell, a 1 to enter the dispatch loop. */
  const Prologue: seq<BFInst> := [Right, Inc, LBrac, Right]
  /** The epilogue `<]` closing the dispatch loop. */
  const Epilogue: seq<BFInst> := [Left, RBrac]

  /** `asm_to_bf` applied to an already expanded program. */
  function AsmToBf(stack: seq<StackInst>): (r: Result<seq<BFInst>>)
    ensures r.Panic? <==> exists k :: 0 <= k < |stack| && stack[k].Unexpanded?
    ensures r.Ok? ==> |r.value| >= 6 && r.value[..4] == Prologue && r.value[|r.value| - 2..] == Epilogue
  {
    var body :- Translate(stack);
    Ok(Prologue + body + Epilogue)
  }

  lemma PrologueParses()
    ensures Parse(">+[>") == Prologue
    ensures Parse("<]") == Epilogue
  {
  }

  /** Blocks opened by labels minus blocks closed by branches and gotos. */
  function NetDepth(stack: seq<StackInst>): int {
    if |stack| == 0 then 0 else SnippetDepth(stack[0]) + NetDepth(stack[1..])
  }

  /** The whole translation's bracket depth is the number of non-zero
      labels minus the number of branches and gotos: the prologue's `[`
      and the epilogue's `]` cancel, and every other snippet is balanced. */
  lemma {:induction false} AsmToBfDepth(stack: seq<StackInst>)
    requires AsmToBf(stack).Ok?
    ensures Depth(AsmToBf(stack).value) == NetDepth(stack)
  {
    TranslateDepth(stack);
    var body := Translate(stack).value;
    DepthAppend(Prologue, body);
    DepthAppend(Prologue + body, Epilogue);
  }

  lemma {:induction false} TranslateDepth(stack: seq<StackInst>)
    requires Translate(stack).Ok?
    ensures Depth(Translate(stack).value) == NetDepth(stack)
  {
    if |stack| > 0 {
      TranslateDepth(stack[1..]);
      SnippetBalance(stack[0]);
      var s := Snippet(stack[0]).value;
      var rest := Translate(stack[1..]).value;
      DepthAppend([Dbg(Describe(stack[0]))], s);
      DepthAppend([Dbg(Describe(stack[0]))] + s, rest);
    }
  }
}
