/** The stack-IR interpreter of `src/stack/exec.rs`.

    The machine keeps one `u32` stack and an instruction pointer.  Labels
    are collected once, before the run, into a map from label value to the
    index of its `Label` instruction; `Goto` pops a label and continues
    there.  The only normal end is `Exit`; running past the end of the code
    is an out-of-bounds index and panics.

    The instruction set is the one this file matches on (it has `CopyDown`,
    `SwapW`, `LocalRead(k)` and `PrintI32`, which the sibling `inst.rs`
    enum lacks).  `PrintI32` records the popped value in `printed`;
    `Debug` dumps the stack to stdout and is a no-op here.
 */
module StackExec {
  import opened Outcome
  import opened Words

  datatype StackInst =
    | Debug(tag: nat)
    | Nop
    | Label(l: Word)
    | Comment(text: string)
    | PushW(w: Word)
    | DiscardW
    | PrintI32
    | StackAlloc
    | StackDealloc
    | CopyDown(d: nat)
    | SwapW
    | GlobalRead
    | GlobalStore
    | LocalRead(k: nat)
    | LocalStore(k: nat)
    | Goto
    | Exit
    | Add
    | Sub
    | Mul
    | Div

  const UNWRAP_NONE := "called `Option::unwrap()` on a `None` value"
  const SUB_OVERFLOW := "attempt to subtract with overflow"

  // ---------------------------------------------------------------------
  // Labels
  // ---------------------------------------------------------------------

  /** The label map built from the first `n` instructions: collecting
      `(label, index)` pairs into a `HashMap` lets a later pair overwrite
      an earlier one with the same key. */
  function LabelsUpTo(code: seq<StackInst>, n: nat): map<Word, nat>
    requires n <= |code|
  {
    if n == 0 then map[]
    else
      var m := LabelsUpTo(code, n - 1);
      match code[n - 1]
      case Label(l) => m[l := n - 1]
      case _ => m
  }

  function LabelMap(code: seq<StackInst>): map<Word, nat> {
    LabelsUpTo(code, |code|)
  }

  /** Reference definition: `i` is the last position of `Label(l)` among
      the first `n` instructions. */
  ghost predicate LastLabelBefore(code: seq<StackInst>, n: nat, l: Word, i: nat)
    requires n <= |code|
  {
    i < n && code[i] == Label(l) && forall j :: i < j < n ==> code[j] != Label(l)
  }

  ghost predicate HasLabelBefore(code: seq<StackInst>, n: nat, l: Word)
    requires n <= |code|
  {
    exists i :: 0 <= i < n && code[i] == Label(l)
  }

  lemma {:induction false} LabelsUpToCorrect(code: seq<StackInst>, n: nat, l: Word)
    requires n <= |code|
    ensures l in LabelsUpTo(code, n) <==> HasLabelBefore(code, n, l)
    ensures l in LabelsUpTo(code, n) ==> LastLabelBefore(code, n, l, LabelsUpTo(code, n)[l])
  {
    if n > 0 {
      LabelsUpToCorrect(code, n - 1, l);
      if code[n - 1] != Label(l) && HasLabelBefore(code, n, l) {
        var i :| 0 <= i < n && code[i] == Label(l);
        assert HasLabelBefore(code, n - 1, l);
      }
    }
  }

  /** Every label value that occurs in the code is in the map, no other
      value is, and it maps to the index of its LAST occurrence. */
  lemma LabelMapCorrect(code: seq<StackInst>, l: Word)
    ensures l in LabelMap(code) <==> exists i :: 0 <= i < |code| && code[i] == Label(l)
    ensures l in LabelMap(code) ==>
      var i := LabelMap(code)[l];
      i < |code| && code[i] == Label(l) && forall j :: i < j < |code| ==> code[j] != Label(l)
  {
    LabelsUpToCorrect(code, |code|, l);
  }

  // ---------------------------------------------------------------------
  // One instruction
  // ---------------------------------------------------------------------

  /** The stack, the instruction pointer and the values `PrintI32` has
      printed so far. */
  datatype Machine = Machine(stack: seq<U32>, ip: nat, printed: seq<U32>)

  /** What one instruction does: carry on from a new state, or `Exit`. */
  datatype Next = Continue(m: Machine) | Stop

  function Top(s: seq<U32>): U32
    requires |s| > 0
  {
    s[|s| - 1]
  }

  function Below(s: seq<U32>): seq<U32>
    requires |s| > 0
  {
    s[..|s| - 1]
  }

  /** `Add`, `Sub`, `Mul` and `Div` on `u32` in a debug build: overflow
      and division by zero panic.  `Mul` adds, as the source does. */
  function Arith(op: StackInst, a: U32, b: U32): (r: Result<U32>)
    requires op.Add? || op.Sub? || op.Mul? || op.Div?
    ensures r.Ok? && (op.Add? || op.Mul?) ==> r.value == a + b
    ensures r.Ok? && op.Sub? ==> r.value + b == a
    ensures r.Ok? && op.Div? ==> r.value * b <= a < (r.value + 1) * b
    ensures r.Panic? <==>
      || ((op.Add? || op.Mul?) && a + b >= 0x1_0000_0000)
      || (op.Sub? && a < b)
      || (op.Div? && b == 0)
  {
    if op.Sub? then
      if a < b then Panic(SUB_OVERFLOW) else Ok(a - b)
    else if op.Div? then
      if b == 0 then Panic("attempt to divide by zero") else Ok(a / b)
    else if a + b >= 0x1_0000_0000 then Panic("attempt to add with overflow")
    else Ok(a + b)
  }

  /** The effect of `inst` on `m`, before the common `ip += 1`; `Goto`
      sets the instruction pointer itself and skips the increment. */
  function Exec1(inst: StackInst, labels: map<Word, nat>, m: Machine): (r: Result<Next>)
    ensures r == Ok(Stop) <==> inst == Exit
    ensures r.Ok? && r.value.Continue? && !inst.Goto? ==> r.value.m.ip == m.ip + 1
    ensures r.Ok? && r.value.Continue? && inst.Goto? ==> r.value.m.ip in labels.Values
    ensures r.Ok? && r.value.Continue? && !inst.PrintI32? ==> r.value.m.printed == m.printed
  {
    var s := m.stack;
    var next := m.ip + 1;
    match inst
    case Debug(_) => Ok(Continue(m.(ip := next)))
    case Nop => Ok(Continue(m.(ip := next)))
    case Label(_) => Ok(Continue(m.(ip := next)))
    case Comment(_) => Ok(Continue(m.(ip := next)))
    case PushW(w) => Ok(Continue(m.(stack := s + [w], ip := next)))
    case DiscardW =>
      var s' := if |s| == 0 then s else Below(s);
      Ok(Continue(m.(stack := s', ip := next)))
    case PrintI32 =>
      if |s| == 0 then Panic(UNWRAP_NONE)
      else Ok(Continue(m.(stack := Below(s), printed := m.printed + [Top(s)], ip := next)))
    case StackAlloc =>
      if |s| == 0 then Panic(UNWRAP_NONE)
      else Ok(Continue(m.(stack := Below(s) + Repeat(0, Top(s)), ip := next)))
    case StackDealloc =>
      if |s| == 0 then Panic(UNWRAP_NONE)
      else if Top(s) > |s| - 1 then Panic(SUB_OVERFLOW)
      else Ok(Continue(m.(stack := s[..|s| - 1 - Top(s)], ip := next)))
    case CopyDown(d) =>
      if |s| == 0 || d > |s| - 1 then Panic(SUB_OVERFLOW)
      else Ok(Continue(m.(stack := s[|s| - 1 - d := Top(s)], ip := next)))
    case SwapW =>
      if |s| < 2 then Panic(UNWRAP_NONE)
      else Ok(Continue(m.(stack := s[..|s| - 2] + [s[|s| - 1], s[|s| - 2]], ip := next)))
    case GlobalRead =>
      if |s| == 0 then Panic("Global read on empty stack")
      else if Top(s) >= |s| - 1 then Panic("Global address does not exist.")
      else Ok(Continue(m.(stack := Below(s) + [s[Top(s)]], ip := next)))
    case GlobalStore =>
      if |s| < 2 then Panic("Global store on empty stack")
      else
        var rest := s[..|s| - 2];
        if Top(s) >= |rest| then Panic("Global address does not exist.")
        else Ok(Continue(m.(stack := rest[Top(s) := s[|s| - 2]], ip := next)))
    case LocalRead(k) =>
      if k + 1 > |s| then Panic(SUB_OVERFLOW)
      else Ok(Continue(m.(stack := s + [s[|s| - 1 - k]], ip := next)))
    case LocalStore(k) =>
      if |s| == 0 then Panic("Local store on empty stack")
      else if k > |s| - 1 then Panic(SUB_OVERFLOW)
      else if k == 0 then Panic("Address does not exist")
      else Ok(Continue(m.(stack := Below(s)[|s| - 1 - k := Top(s)], ip := next)))
    case Goto =>
      if |s| == 0 then Panic("Goto nil")
      else if Top(s) >= WORD_MOD || Top(s) !in labels then Panic(NO_ENTRY)
      else Ok(Continue(m.(stack := Below(s), ip := labels[Top(s)])))
    case Exit => Ok(Stop)
    case Add =>
      if |s| < 2 then Panic(UNWRAP_NONE)
      else var v :- Arith(inst, s[|s| - 2], Top(s)); Ok(Continue(m.(stack := s[..|s| - 2] + [v], ip := next)))
    case Sub =>
      if |s| < 2 then Panic(UNWRAP_NONE)
      else var v :- Arith(inst, s[|s| - 2], Top(s)); Ok(Continue(m.(stack := s[..|s| - 2] + [v], ip := next)))
    case Mul =>
      if |s| < 2 then Panic(UNWRAP_NONE)
      else var v :- Arith(inst, s[|s| - 2], Top(s)); Ok(Continue(m.(stack := s[..|s| - 2] + [v], ip := next)))
    case Div =>
      if |s| < 2 then Panic(UNWRAP_NONE)
      else var v :- Arith(inst, s[|s| - 2], Top(s)); Ok(Continue(m.(stack := s[..|s| - 2] + [v], ip := next)))
  }

  /** `code[ip]`: past the end the index panics. */
  function Step(code: seq<StackInst>, labels: map<Word, nat>, m: Machine): (r: Result<Next>)
    ensures m.ip >= |code| ==> r.Panic?
    ensures r == Ok(Stop) <==> m.ip < |code| && code[m.ip] == Exit
  {
    if m.ip >= |code| then Panic(IndexOutOfBounds(|code|, m.ip))
    else Exec1(code[m.ip], labels, m)
  }

  // ---------------------------------------------------------------------
  // Runs
  // ---------------------------------------------------------------------

  datatype Halt =
    | Finished(final: Machine)
    | Crashed(printed: seq<U32>, reason: string)
    | Exhausted(at: Machine)

  /** The `loop`, with at most `fuel` steps. */
  function Run(code: seq<StackInst>, labels: map<Word, nat>, m: Machine, fuel: nat): (r: Halt)
    ensures r.Finished? ==> r.final.ip < |code| && code[r.final.ip] == Exit
    ensures r.Crashed? ==> m.printed <= r.printed
    decreases fuel
  {
    if fuel == 0 then Exhausted(m)
    else match Step(code, labels, m)
      case Panic(why) => Crashed(m.printed, why)
      case Ok(Stop) => Finished(m)
      case Ok(Continue(m')) =>
        var r := Run(code, labels, m', fuel - 1);
        r
  }

  /** `exec_stack_program`: an empty stack at instruction 0. */
  function ExecStack(code: seq<StackInst>, fuel: nat): (r: Halt)
    ensures r.Finished? ==> Exit in code
  {
    Run(code, LabelMap(code), Machine([], 0, []), fuel)
  }

  // ---------------------------------------------------------------------
  // Properties of single instructions
  // ---------------------------------------------------------------------

  /** `SwapW` exchanges the top two words and keeps the rest; it needs two. */
  lemma SwapWEffect(labels: map<Word, nat>, m: Machine)
    ensures Exec1(SwapW, labels, m).Ok? <==> |m.stack| >= 2
    ensures |m.stack| >= 2 ==>
      var s := m.stack;
      var s' := Exec1(SwapW, labels, m).value.m.stack;
      |s'| == |s| && s'[..|s| - 2] == s[..|s| - 2] && s'[|s| - 1] == s[|s| - 2] && s'[|s| - 2] == s[|s| - 1]
  {
  }

  /** Swapping twice gives back the stack swapped from. */
  lemma SwapWTwice(labels: map<Word, nat>, m: Machine)
    requires |m.stack| >= 2
    ensures var m1 := Exec1(SwapW, labels, m).value.m;
      Exec1(SwapW, labels, m1) == Ok(Continue(m.(ip := m.ip + 2)))
  {
    var s := m.stack;
    var m1 := Exec1(SwapW, labels, m).value.m;
    assert m1.stack[..|s| - 2] == s[..|s| - 2];
    assert m1.stack[..|s| - 2] + [s[|s| - 2], s[|s| - 1]] == s;
  }

  /** The arithmetic ops pop `b` then `a`, push `a op b`, and shrink the
      stack by one; with fewer than two words they panic. */
  lemma ArithEffect(op: StackInst, labels: map<Word, nat>, m: Machine)
    requires op.Add? || op.Sub? || op.Mul? || op.Div?
    ensures |m.stack| < 2 ==> Exec1(op, labels, m).Panic?
    ensures |m.stack| >= 2 ==>
      var s := m.stack;
      var v := Arith(op, s[|s| - 2], s[|s| - 1]);
      (Exec1(op, labels, m).Ok? <==> v.Ok?) &&
      (v.Ok? ==> Exec1(op, labels, m).value.m.stack == s[..|s| - 2] + [v.value])
  {
  }

  /** `StackAlloc` pops `n` and pushes `n` zeros; `StackDealloc` pops `n`
      and removes `n` more words, panicking if there are not that many. */
  lemma AllocEffect(labels: map<Word, nat>, m: Machine)
    requires |m.stack| > 0
    ensures var s := m.stack; var n := s[|s| - 1];
      var a := Exec1(StackAlloc, labels, m).value.m.stack;
      |a| == |s| - 1 + n && a[..|s| - 1] == s[..|s| - 1] && forall i :: |s| - 1 <= i < |a| ==> a[i] == 0
    ensures var s := m.stack; var n := s[|s| - 1];
      var d := Exec1(StackDealloc, labels, m);
      (d.Ok? <==> n <= |s| - 1) &&
      (d.Ok? ==> d.value.m.stack == s[..|s| - 1 - n])
  {
  }

  /** Allocating `n` zero words and then deallocating `n` restores the stack. */
  lemma AllocThenDealloc(labels: map<Word, nat>, m: Machine, n: Word)
    ensures
      var m1 := Exec1(PushW(n), labels, m).value.m;
      var m2 := Exec1(StackAlloc, labels, m1).value.m;
      var m3 := Exec1(PushW(n), labels, m2).value.m;
      Exec1(StackDealloc, labels, m3) == Ok(Continue(m.(ip := m.ip + 4)))
  {
    var s := m.stack;
    var m1 := Exec1(PushW(n), labels, m).value.m;
    assert Below(m1.stack) == s;
    var m2 := Exec1(StackAlloc, labels, m1).value.m;
    assert m2.stack == s + Repeat(0, n);
    var m3 := Exec1(PushW(n), labels, m2).value.m;
    assert m3.stack[..|m3.stack| - 1 - n] == s;
  }

  /** `LocalRead(k)` pushes a copy of the word `k` below the top, and
      needs more than `k` words. */
  lemma LocalReadEffect(k: nat, labels: map<Word, nat>, m: Machine)
    ensures Exec1(LocalRead(k), labels, m).Ok? <==> k < |m.stack|
    ensures k < |m.stack| ==>
      Exec1(LocalRead(k), labels, m).value.m.stack == m.stack + [m.stack[|m.stack| - 1 - k]]
  {
  }

  /** `LocalStore(k)` pops a word and writes it `k` places below the new
      top counting the top as 1, so `LocalStore(0)` always panics. */
  lemma LocalStoreEffect(k: nat, labels: map<Word, nat>, m: Machine)
    ensures Exec1(LocalStore(k), labels, m).Ok? <==> 1 <= k < |m.stack|
    ensures 1 <= k < |m.stack| ==>
      var s := m.stack;
      var s' := Exec1(LocalStore(k), labels, m).value.m.stack;
      |s'| == |s| - 1 && s'[|s| - 1 - k] == s[|s| - 1] &&
      forall i :: 0 <= i < |s'| && i != |s| - 1 - k ==> s'[i] == s[i]
  {
  }

  /** `CopyDown(d)` overwrites the word `d` below the top with the top and
      keeps the length. */
  lemma CopyDownEffect(d: nat, labels: map<Word, nat>, m: Machine)
    ensures Exec1(CopyDown(d), labels, m).Ok? <==> d < |m.stack|
    ensures d < |m.stack| ==>
      var s := m.stack;
      var s' := Exec1(CopyDown(d), labels, m).value.m.stack;
      |s'| == |s| && s'[|s| - 1 - d] == s[|s| - 1] &&
      forall i :: 0 <= i < |s| && i != |s| - 1 - d ==> s'[i] == s[i]
  {
  }

  /** `GlobalRead` and `GlobalStore` address the stack from the bottom:
      the popped address is an index into what remains. */
  lemma GlobalEffect(labels: map<Word, nat>, m: Machine)
    ensures var s := m.stack;
      Exec1(GlobalRead, labels, m).Ok? <==> |s| > 0 && s[|s| - 1] < |s| - 1
    ensures var s := m.stack;
      |s| > 0 && s[|s| - 1] < |s| - 1 ==>
      Exec1(GlobalRead, labels, m).value.m.stack == s[..|s| - 1] + [s[s[|s| - 1]]]
    ensures var s := m.stack;
      Exec1(GlobalStore, labels, m).Ok? <==> |s| >= 2 && s[|s| - 1] < |s| - 2
    ensures var s := m.stack;
      |s| >= 2 && s[|s| - 1] < |s| - 2 ==>
      var s' := Exec1(GlobalStore, labels, m).value.m.stack;
      |s'| == |s| - 2 && s'[s[|s| - 1]] == s[|s| - 2] &&
      forall i :: 0 <= i < |s'| && i != s[|s| - 1] ==> s'[i] == s[i]
  {
  }

  /** Storing a word at a global address and reading it back yields it. */
  lemma GlobalStoreThenRead(labels: map<Word, nat>, m: Machine, addr: Word)
    requires |m.stack| >= 1 && addr < |m.stack| - 1
    ensures
      var m1 := Exec1(PushW(addr), labels, m).value.m;
      var m2 := Exec1(GlobalStore, labels, m1).value.m;
      var m3 := Exec1(PushW(addr), labels, m2).value.m;
      var m4 := Exec1(GlobalRead, labels, m3);
      m4.Ok? && m4.value.m.stack[|m4.value.m.stack| - 1] == m.stack[|m.stack| - 1]
  {
  }

  /** `Goto` pops a label and resumes exactly at the last `Label` with
      that value, without the usual increment; an unknown label panics. */
  lemma GotoEffect(code: seq<StackInst>, m: Machine)
    requires |m.stack| > 0
    ensures var l := m.stack[|m.stack| - 1];
      var r := Exec1(Goto, LabelMap(code), m);
      (r.Ok? <==> exists i :: 0 <= i < |code| && code[i].Label? && code[i].l == l) &&
      (r.Ok? ==>
        var i := r.value.m.ip;
        i < |code| && code[i].Label? && code[i].l == l &&
        (forall j :: i < j < |code| ==> code[j] != code[i]) &&
        r.value.m.stack == m.stack[..|m.stack| - 1])
  {
    var l := m.stack[|m.stack| - 1];
    if l < WORD_MOD {
      LabelMapCorrect(code, l);
    }
  }

  // ---------------------------------------------------------------------
  // Properties of runs
  // ---------------------------------------------------------------------

  /** More fuel does not change a run that has already ended. */
  lemma {:induction false} RunFuel(code: seq<StackInst>, labels: map<Word, nat>, m: Machine, fuel: nat, more: nat)
    requires fuel <= more
    requires !Run(code, labels, m, fuel).Exhausted?
    ensures Run(code, labels, m, more) == Run(code, labels, m, fuel)
    decreases fuel
  {
    var r := Step(code, labels, m);
    if r.Ok? && r.value.Continue? {
      RunFuel(code, labels, r.value.m, fuel - 1, more - 1);
    }
  }

  /** A program without `Exit` never finishes normally: it crashes or
      runs out of fuel. */
  lemma NoExitNoFinish(code: seq<StackInst>, fuel: nat)
    requires Exit !in code
    ensures !ExecStack(code, fuel).Finished?
  {
  }

  /** Straight-line code without `Exit` or `Goto` runs off its end and
      panics there. */
  lemma {:induction false} StraightRunsOff(code: seq<StackInst>, labels: map<Word, nat>, m: Machine, fuel: nat)
    requires Exit !in code && Goto !in code
    requires m.ip <= |code| && fuel > |code| - m.ip
    ensures Run(code, labels, m, fuel).Crashed?
    decreases |code| - m.ip
  {
    var r := Step(code, labels, m);
    if r.Ok? {
      assert code[m.ip] != Goto;
      StraightRunsOff(code, labels, r.value.m, fuel - 1);
    }
  }
}
