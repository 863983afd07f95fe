/** The older straight-line stack machine of `src/stack_machine/exec.rs`.

    Its stack holds bytes (`u8`).  Every instruction runs once, in order:
    there are no jumps.  The arithmetic ops pop `b` then `a` and push
    `a op b` with debug-build `u8` arithmetic (`Mul` adds, as in the
    source); `Print` prints the top without popping it.
 */
module ByteMachine {
  import opened Outcome
  import opened Words

  /** The variants the interpreter matches on: `Byte(b)` pushes a byte. */
  datatype ByteInst = Nop | Byte(b: U8) | Add | Sub | Mul | Div | Print

  /** The stack and the values printed so far. */
  datatype State = State(stack: seq<U8>, printed: seq<U8>)

  predicate IsArith(i: ByteInst) {
    i.Add? || i.Sub? || i.Mul? || i.Div?
  }

  /** `a op b` on `u8`: overflow and division by zero panic. */
  function ArithU8(op: ByteInst, a: U8, b: U8): (r: Result<U8>)
    requires IsArith(op)
    ensures r.Ok? && (op.Add? || op.Mul?) ==> r.value == a + b
    ensures r.Ok? && op.Sub? ==> r.value + b == a
    ensures r.Ok? && op.Div? ==> r.value * b <= a < (r.value + 1) * b
    ensures r.Panic? <==>
      || ((op.Add? || op.Mul?) && a + b >= 0x100)
      || (op.Sub? && a < b)
      || (op.Div? && b == 0)
  {
    if op.Sub? then
      if a < b then Panic("attempt to subtract with overflow") else Ok(a - b)
    else if op.Div? then
      if b == 0 then Panic("attempt to divide by zero")
      else
        DivBounds(a, b);
        Ok(a / b)
    else if a + b >= 0x100 then Panic("attempt to add with overflow")
    else Ok(a + b)
  }

  /** One instruction. */
  function StepByte(inst: ByteInst, st: State): (r: Result<State>)
    ensures IsArith(inst) && |st.stack| < 2 ==> r.Panic?
    ensures IsArith(inst) && r.Ok? ==>
      |r.value.stack| == |st.stack| - 1 && r.value.stack[..|st.stack| - 2] == st.stack[..|st.stack| - 2]
    ensures inst.Print? ==> (r.Ok? <==> |st.stack| > 0)
    ensures inst.Print? && r.Ok? ==>
      r.value.stack == st.stack && r.value.printed == st.printed + [st.stack[|st.stack| - 1]]
    ensures inst.Nop? ==> r == Ok(st)
    ensures inst.Byte? ==> r == Ok(st.(stack := st.stack + [inst.b]))
  {
    var s := st.stack;
    match inst
    case Nop => Ok(st)
    case Byte(b) => Ok(st.(stack := s + [b]))
    case Print =>
      if |s| == 0 then Panic("called `Option::unwrap()` on a `None` value")
      else Ok(st.(printed := st.printed + [s[|s| - 1]]))
    case _ =>
      if |s| < 2 then Panic("called `Option::unwrap()` on a `None` value")
      else
        var v :- ArithU8(inst, s[|s| - 2], s[|s| - 1]);
        Ok(st.(stack := s[..|s| - 2] + [v]))
  }

  /** The `for inst in code` loop over the first `n` instructions. */
  function RunBytes(code: seq<ByteInst>, n: nat): (r: Result<State>)
    requires n <= |code|
  {
    if n == 0 then Ok(State([], []))
    else
      var st :- RunBytes(code, n - 1);
      StepByte(code[n - 1], st)
  }

  /** The number of pushes minus the number of arithmetic ops among the
      first `n` instructions. */
  function Height(code: seq<ByteInst>, n: nat): int
    requires n <= |code|
  {
    if n == 0 then 0
    else Height(code, n - 1) + (if code[n - 1].Byte? then 1 else if IsArith(code[n - 1]) then -1 else 0)
  }

  /** Since each instruction runs exactly once and each op shrinks the
      stack by one, a run that gets through `n` instructions ends with a
      stack of exactly the pushes minus the ops. */
  lemma {:induction false} RunBytesHeight(code: seq<ByteInst>, n: nat)
    requires n <= |code|
    ensures RunBytes(code, n).Ok? ==> |RunBytes(code, n).value.stack| == Height(code, n)
  {
    if n > 0 {
      RunBytesHeight(code, n - 1);
    }
  }

  /** Code made only of pushes never panics and leaves the pushed bytes
      on the stack in order. */
  lemma {:induction false} PushesStack(code: seq<ByteInst>, n: nat)
    requires n <= |code|
    requires forall i :: 0 <= i < n ==> code[i].Byte?
    ensures RunBytes(code, n).Ok?
    ensures |RunBytes(code, n).value.stack| == n
    ensures forall i :: 0 <= i < n ==> RunBytes(code, n).value.stack[i] == code[i].b
  {
    if n > 0 {
      PushesStack(code, n - 1);
    }
  }

  /** `StackMachine::exec`, as the loop it is. */
  method Exec(code: seq<ByteInst>) returns (r: Result<State>)
    ensures r == RunBytes(code, |code|)
  {
    var st := State([], []);
    var i := 0;
    while i < |code|
      invariant 0 <= i <= |code|
      invariant RunBytes(code, i) == Ok(st)
    {
      var next := StepByte(code[i], st);
      if next.Panic? {
        assert RunBytes(code, i + 1) == next;
        RunPanicSticks(code, i + 1);
        return next;
      }
      st := next.value;
      i := i + 1;
    }
    return Ok(st);
  }

  /** A panic stops the run: nothing after it happens. */
  lemma {:induction false} RunPanicSticks(code: seq<ByteInst>, n: nat)
    requires n <= |code| && RunBytes(code, n).Panic?
    ensures RunBytes(code, |code|) == RunBytes(code, n)
    decreases |code| - n
  {
    if n < |code| {
      assert RunBytes(code, n + 1) == RunBytes(code, n);
      RunPanicSticks(code, n + 1);
    }
  }

  /** `Byte(a), Byte(b), op` leaves `a op b` on top, as a postfix
      evaluator should. */
  lemma PostfixOp(st: State, a: U8, b: U8, op: ByteInst)
    requires IsArith(op) && ArithU8(op, a, b).Ok?
    ensures var s1 := StepByte(Byte(a), st).value;
      var s2 := StepByte(Byte(b), s1).value;
      StepByte(op, s2) == Ok(st.(stack := st.stack + [ArithU8(op, a, b).value]))
  {
    var s2 := st.stack + [a] + [b];
    assert s2[..|s2| - 2] == st.stack;
  }
}
