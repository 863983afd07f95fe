/** The two tape interpreters `exec_bf` and `exec_fastbf` and the bracket
    matcher `parse_bracs` they share.  Standard input and output are the
    `input` and `output` byte sequences of the machine state; each run is
    bounded by a fuel count.
 */
module BfExec {
  import opened Outcome
  import opened Words
  import opened BfFast

  // ---------------------------------------------------------------------
  // Bracket matching
  // ---------------------------------------------------------------------

  /** The bracket depth of `code[a..b]`, counted from the back. */
  function DepthRange(code: seq<FastBF>, a: nat, b: nat): int
    requires a <= b <= |code|
    decreases b - a
  {
    if a == b then 0 else DepthRange(code, a, b - 1) + Delta(code[b - 1])
  }

  /** The same count as `BracketDepth` of the slice. */
  lemma {:induction false} DepthRangeSlice(code: seq<FastBF>, a: nat, b: nat)
    requires a <= b <= |code|
    ensures DepthRange(code, a, b) == BracketDepth(code[a..b])
    decreases b - a
  {
    if a < b {
      DepthRangeSlice(code, a, b - 1);
      assert code[a..b] == code[a..b - 1] + [code[b - 1]];
      BracketDepthAppend(code[a..b - 1], [code[b - 1]]);
    } else {
      assert code[a..b] == [];
    }
  }

  /** The bracket depth of the code strictly after `a`, up to `c`. */
  function Inner(code: seq<FastBF>, a: nat, c: nat): int
    requires a + 1 <= c <= |code|
  {
    DepthRange(code, a + 1, c)
  }

  /** The `[` at `a` and the `]` at `b` enclose a balanced body. */
  ghost predicate Matched(code: seq<FastBF>, a: int, b: int) {
    && 0 <= a < b < |code|
    && code[a] == LB && code[b] == RB
    && Inner(code, a, b) == 0
    && forall c :: a + 1 <= c <= b ==> Inner(code, a, c) >= 0
  }

  /** `parse_bracs` after the first `n` instructions: the stack of
      pending `[` positions and the map built so far.  A `]` with no
      pending `[` panics (`bracs.pop().unwrap()`). */
  function Bracs(code: seq<FastBF>, n: nat): Result<(seq<nat>, map<nat, nat>)>
    requires n <= |code|
  {
    if n == 0 then Ok(([], map[]))
    else
      var p :- Bracs(code, n - 1);
      var (open, m) := p;
      var i: nat := n - 1;
      if code[i] == LB then Ok((open + [i], m))
      else if code[i] == RB then
        if |open| == 0 then Panic("called `Option::unwrap()` on a `None` value")
        else
          var start: nat := open[|open| - 1];
          var m': map<nat, nat> := m[i := start][start := i];
          Ok((open[..|open| - 1], m'))
      else Ok((open, m))
  }

  /** `parse_bracs`: the jump map of a whole program. */
  function ParseBracs(code: seq<FastBF>): Result<map<nat, nat>> {
    var p :- Bracs(code, |code|);
    Ok(p.1)
  }

  /** The pending `[` positions: increasing, unpaired, and each still
      open at `n` with all later pending ones nested inside it. */
  ghost predicate OpenOk(code: seq<FastBF>, n: nat, open: seq<nat>, m: map<nat, nat>) {
    && n <= |code|
    && (forall j :: 0 <= j < |open| ==> open[j] < n && code[open[j]] == LB && open[j] !in m)
    && (forall j, k :: 0 <= j < k < |open| ==> open[j] < open[k])
    && (forall j :: 0 <= j < |open| ==> Inner(code, open[j], n) == |open| - 1 - j)
    && (forall j, c :: 0 <= j < |open| && open[j] + 1 <= c <= n ==> Inner(code, open[j], c) >= 0)
  }

  /** The pairs recorded so far. */
  ghost predicate PairsOk(code: seq<FastBF>, n: nat, m: map<nat, nat>) {
    forall a :: a in m ==> a < n && m[a] in m && m[m[a]] == a && (Matched(code, a, m[a]) || Matched(code, m[a], a))
  }

  /** Every bracket seen so far is paired or pending. */
  ghost predicate Covered(code: seq<FastBF>, n: nat, open: seq<nat>, m: map<nat, nat>)
    requires n <= |code|
  {
    && (forall i :: 0 <= i < n && code[i] == RB ==> i in m)
    && (forall i :: 0 <= i < n && code[i] == LB ==> i in m || i in open)
  }

  /** What `Bracs` keeps true after `n` instructions. */
  ghost predicate BracsInv(code: seq<FastBF>, n: nat, open: seq<nat>, m: map<nat, nat>) {
    && OpenOk(code, n, open, m)
    && PairsOk(code, n, m)
    && Covered(code, n, open, m)
    && |open| == DepthRange(code, 0, n)
  }

  /** How the pending stack evolves over instruction `n` when it is not
      the `]` that pops. */
  lemma OpenStepKeep(code: seq<FastBF>, n: nat, open: seq<nat>, m: map<nat, nat>)
    requires n < |code| && code[n] != RB
    requires OpenOk(code, n, open, m) && PairsOk(code, n, m)
    ensures OpenOk(code, n + 1, if code[n] == LB then open + [n] else open, m)
  {
    var open' := if code[n] == LB then open + [n] else open;
    assert n !in m;
    forall j | 0 <= j < |open'| ensures Inner(code, open'[j], n + 1) == |open'| - 1 - j {
      if j < |open| {
        assert open'[j] == open[j];
      }
    }
    forall j, c | 0 <= j < |open'| && open'[j] + 1 <= c <= n + 1 ensures Inner(code, open'[j], c) >= 0 {
      if j < |open| {
        assert open'[j] == open[j];
        if c == n + 1 {
          assert Inner(code, open[j], n + 1) == Inner(code, open[j], n) + Delta(code[n]);
        }
      }
    }
  }

  /** Coverage after an instruction that is not `]`. */
  lemma CoveredStepKeep(code: seq<FastBF>, n: nat, open: seq<nat>, m: map<nat, nat>)
    requires n < |code| && code[n] != RB
    requires Covered(code, n, open, m)
    ensures Covered(code, n + 1, if code[n] == LB then open + [n] else open, m)
  {
    var open' := if code[n] == LB then open + [n] else open;
    forall i | 0 <= i < n + 1 && code[i] == LB ensures i in m || i in open' {
      if i < n && i !in m {
        assert i in open;
      } else if i == n {
        assert open'[|open|] == n;
      }
    }
  }

  /** The step of `Bracs` on an instruction that is not `]`. */
  lemma BracsStepKeep(code: seq<FastBF>, n: nat, open: seq<nat>, m: map<nat, nat>)
    requires n < |code| && code[n] != RB
    requires BracsInv(code, n, open, m)
    ensures BracsInv(code, n + 1, if code[n] == LB then open + [n] else open, m)
  {
    OpenStepKeep(code, n, open, m);
    CoveredStepKeep(code, n, open, m);
    assert PairsOk(code, n + 1, m);
  }

  /** The pending stack after a `]` pops its top. */
  lemma OpenStepPop(code: seq<FastBF>, n: nat, open: seq<nat>, m: map<nat, nat>)
    requires n < |code| && code[n] == RB && |open| > 0
    requires OpenOk(code, n, open, m)
    ensures var k := |open| - 1;
      OpenOk(code, n + 1, open[..k], m[n := open[k]][open[k] := n])
  {
    var k := |open| - 1;
    var open' := open[..k];
    var m' := m[n := open[k]][open[k] := n];
    forall j | 0 <= j < |open'| ensures Inner(code, open'[j], n + 1) == |open'| - 1 - j {
    }
    forall j, c | 0 <= j < |open'| && open'[j] + 1 <= c <= n + 1 ensures Inner(code, open'[j], c) >= 0 {
      if c == n + 1 {
      }
    }
    forall j | 0 <= j < |open'| ensures open'[j] < n + 1 && code[open'[j]] == LB && open'[j] !in m' {
      assert open[j] < open[k];
    }
  }

  /** The pairs after a `]` pops its top. */
  lemma PairsStepPop(code: seq<FastBF>, n: nat, open: seq<nat>, m: map<nat, nat>)
    requires n < |code| && code[n] == RB && |open| > 0
    requires OpenOk(code, n, open, m) && PairsOk(code, n, m)
    ensures Matched(code, open[|open| - 1], n)
    ensures PairsOk(code, n + 1, m[n := open[|open| - 1]][open[|open| - 1] := n])
  {
    var start := open[|open| - 1];
    var m' := m[n := start][start := n];
    assert Inner(code, start, n) == 0;
    assert Matched(code, start, n);
    forall a | a in m' ensures a < n + 1 && m'[a] in m' && m'[m'[a]] == a && (Matched(code, a, m'[a]) || Matched(code, m'[a], a)) {
      if a != n && a != start {
        assert m'[a] == m[a] && m[a] != n && m[a] != start;
      }
    }
  }

  /** The step of `Bracs` on `]` with a pending `[`: the two are paired. */
  lemma BracsStepClose(code: seq<FastBF>, n: nat, open: seq<nat>, m: map<nat, nat>)
    requires n < |code| && code[n] == RB && |open| > 0
    requires BracsInv(code, n, open, m)
    ensures var start := open[|open| - 1];
      BracsInv(code, n + 1, open[..|open| - 1], m[n := start][start := n])
  {
    var k := |open| - 1;
    var start := open[k];
    var open' := open[..k];
    var m' := m[n := start][start := n];
    OpenStepPop(code, n, open, m);
    PairsStepPop(code, n, open, m);
    forall i | 0 <= i < n + 1 && code[i] == LB ensures i in m' || i in open' {
      if i !in m && i != start {
        var j :| 0 <= j < |open| && open[j] == i;
        assert open'[j] == i;
      }
    }
  }

  /** One step of `Bracs` keeps the invariant, and panics only where
      the prefix depth drops below zero. */
  lemma BracsStep(code: seq<FastBF>, n: nat)
    requires n < |code| && Bracs(code, n).Ok?
    requires BracsInv(code, n, Bracs(code, n).value.0, Bracs(code, n).value.1)
    ensures Bracs(code, n + 1).Ok? ==> BracsInv(code, n + 1, Bracs(code, n + 1).value.0, Bracs(code, n + 1).value.1)
    ensures Bracs(code, n + 1).Ok? ==> DepthRange(code, 0, n + 1) >= 0
    ensures Bracs(code, n + 1).Panic? ==> DepthRange(code, 0, n + 1) < 0
  {
    var (open, m) := Bracs(code, n).value;
    if code[n] != RB {
      BracsNextKeep(code, n);
    } else if |open| > 0 {
      BracsNextClose(code, n);
    }
  }

  lemma BracsNextKeep(code: seq<FastBF>, n: nat)
    requires n < |code| && code[n] != RB && Bracs(code, n).Ok?
    requires BracsInv(code, n, Bracs(code, n).value.0, Bracs(code, n).value.1)
    ensures Bracs(code, n + 1).Ok?
    ensures BracsInv(code, n + 1, Bracs(code, n + 1).value.0, Bracs(code, n + 1).value.1)
  {
    var (open, m) := Bracs(code, n).value;
    BracsStepKeep(code, n, open, m);
  }

  lemma BracsNextClose(code: seq<FastBF>, n: nat)
    requires n < |code| && code[n] == RB && Bracs(code, n).Ok? && |Bracs(code, n).value.0| > 0
    requires BracsInv(code, n, Bracs(code, n).value.0, Bracs(code, n).value.1)
    ensures Bracs(code, n + 1).Ok?
    ensures BracsInv(code, n + 1, Bracs(code, n + 1).value.0, Bracs(code, n + 1).value.1)
  {
    var (open, m) := Bracs(code, n).value;
    BracsStepClose(code, n, open, m);
  }

  /** What `Bracs` computes: it panics exactly when some prefix closes
      more brackets than it opens, and otherwise its state satisfies
      `BracsInv`. */
  lemma {:induction false} BracsFacts(code: seq<FastBF>, n: nat)
    requires n <= |code|
    ensures Bracs(code, n).Panic? <==> exists c :: 0 <= c <= n && DepthRange(code, 0, c) < 0
    ensures Bracs(code, n).Ok? ==> BracsInv(code, n, Bracs(code, n).value.0, Bracs(code, n).value.1)
    ensures Bracs(code, n).Ok? ==> forall c :: 0 <= c <= n ==> DepthRange(code, 0, c) >= 0
  {
    if n > 0 {
      BracsFacts(code, n - 1);
      var r := Bracs(code, n - 1);
      if r.Ok? {
        BracsStep(code, n - 1);
        if Bracs(code, n).Panic? {
          assert DepthRange(code, 0, n) < 0;
        } else {
          assert forall c :: 0 <= c <= n ==> DepthRange(code, 0, c) >= 0 by {
            assert forall c :: 0 <= c <= n - 1 ==> DepthRange(code, 0, c) >= 0;
          }
        }
      } else {
        assert Bracs(code, n).Panic?;
        var c :| 0 <= c <= n - 1 && DepthRange(code, 0, c) < 0;
      }
    }
  }

  /** A `[` gets an entry exactly when it is closed at all. */
  lemma OpenIffClosed(code: seq<FastBF>, i: nat)
    requires i < |code| && code[i] == LB
    requires Bracs(code, |code|).Ok?
    requires BracsInv(code, |code|, Bracs(code, |code|).value.0, Bracs(code, |code|).value.1)
    ensures i in Bracs(code, |code|).value.1 <==> exists c :: i + 1 <= c <= |code| && Inner(code, i, c) < 0
  {
    var (open, m) := Bracs(code, |code|).value;
    if i in m {
      assert Matched(code, i, m[i]);
      assert Inner(code, i, m[i] + 1) < 0;
    } else {
      var j :| 0 <= j < |open| && open[j] == i;
      assert forall c :: i + 1 <= c <= |code| ==> Inner(code, i, c) >= 0;
    }
  }

  /** The jump map pairs each `]` with the `[` it closes: both directions
      are recorded, each pair encloses a balanced body, every `]` has an
      entry, and a `[` has one exactly when it is closed at all.  The
      matcher panics exactly when some prefix closes more brackets than
      it opens. */
  lemma ParseBracsCorrect(code: seq<FastBF>)
    ensures ParseBracs(code).Panic? <==> exists c :: 0 <= c <= |code| && DepthRange(code, 0, c) < 0
    ensures ParseBracs(code).Ok? ==> var m := ParseBracs(code).value;
      && (forall a :: a in m ==> m[a] in m && m[m[a]] == a)
      && (forall a :: a in m ==> Matched(code, a, m[a]) || Matched(code, m[a], a))
      && (forall i :: 0 <= i < |code| && code[i] == RB ==> i in m)
      && (forall i :: 0 <= i < |code| && code[i] == LB ==>
            (i in m <==> exists c :: i + 1 <= c <= |code| && Inner(code, i, c) < 0))
  {
    BracsFacts(code, |code|);
    if ParseBracs(code).Ok? {
      forall i | 0 <= i < |code| && code[i] == LB
        ensures i in ParseBracs(code).value <==> exists c :: i + 1 <= c <= |code| && Inner(code, i, c) < 0
      {
        OpenIffClosed(code, i);
      }
    }
  }

  // ---------------------------------------------------------------------
  // Machine state shared by both interpreters
  // ---------------------------------------------------------------------

  /** The tape of 16-bit cells (`stack`), the head, the instruction
      pointer, the input not yet read and the bytes printed so far. */
  datatype Machine = Machine(tape: seq<Word>, head: nat, ip: nat, input: seq<U8>, output: seq<U8>)

  /** The head always addresses an existing cell. */
  predicate Valid(s: Machine) {
    s.head < |s.tape|
  }

  /** `vec![0]`, head 0, instruction 0. */
  function Start(input: seq<U8>): (s: Machine)
    ensures Valid(s)
  {
    Machine([0], 0, 0, input, [])
  }

  /** How a run ends: the instruction pointer ran past the end, a panic
      (with the output printed before it), or the fuel ran out first. */
  datatype Halt =
    | Finished(final: Machine)
    | Crashed(printed: seq<U8>, reason: string)
    | Exhausted(at: Machine)

  /** Two ends agree up to the wording of a panic message. */
  predicate SameHalt(a: Halt, b: Halt) {
    if a.Crashed? then b.Crashed? && a.printed == b.printed else a == b
  }

  /** `map[&ip]`: indexing a `HashMap` with a missing key panics. */
  function Jump(jumps: map<nat, nat>, ip: nat): (r: Result<nat>)
    ensures r.Ok? <==> ip in jumps
  {
    if ip in jumps then Ok(jumps[ip]) else Panic(NO_ENTRY)
  }

  /** `[` on a zero cell and `]` on a non-zero cell jump to the partner
      bracket; the increment that ends every step then moves past it. */
  function Bracket(jumps: map<nat, nat>, s: Machine, taken: bool): (r: Result<Machine>)
    ensures r.Ok? ==> r.value == s.(ip := r.value.ip)
  {
    if taken then
      var target :- Jump(jumps, s.ip);
      Ok(s.(ip := target + 1))
    else Ok(s.(ip := s.ip + 1))
  }

  /** `read_exact` of one byte into the head cell; at the end of input
      the `expect("No input")` panics with the end-of-file error. */
  function ReadByte(s: Machine): (r: Result<Machine>)
    requires Valid(s)
    ensures r.Ok? <==> |s.input| > 0
    ensures r.Ok? ==> r.value.input == s.input[1..] && r.value.tape == s.tape[s.head := s.input[0]]
  {
    if |s.input| == 0 then Panic(NO_INPUT)
    else Ok(s.(tape := s.tape[s.head := s.input[0]], input := s.input[1..], ip := s.ip + 1))
  }

  /** `print!` of the head cell's low byte as a character (`as u8 as
      char`); the output records the characters, not their UTF-8 bytes. */
  function WriteByte(s: Machine): (r: Machine)
    requires Valid(s)
    ensures r.output == s.output + [LowByte(s.tape[s.head])]
  {
    s.(output := s.output + [LowByte(s.tape[s.head])], ip := s.ip + 1)
  }

  // ---------------------------------------------------------------------
  // exec_bf
  // ---------------------------------------------------------------------

  /** One instruction of `exec_bf`.  `Left` on cell 0 is a `usize`
      underflow; `Right` appends a cell when the head reaches the end;
      `Inc`/`Dec` wrap modulo 2^16. */
  function StepBF(code: seq<BF>, jumps: map<nat, nat>, s: Machine): (r: Result<Machine>)
    requires Valid(s) && s.ip < |code|
    ensures r.Ok? ==> Valid(r.value)
    ensures r.Ok? ==> |r.value.tape| >= |s.tape| && s.output <= r.value.output
    ensures r.Panic? <==>
      || (code[s.ip].Left? && s.head == 0)
      || (code[s.ip].Input? && |s.input| == 0)
      || (code[s.ip].LBrac? && s.tape[s.head] == 0 && s.ip !in jumps)
      || (code[s.ip].RBrac? && s.tape[s.head] != 0 && s.ip !in jumps)
  {
    var next := s.ip + 1;
    match code[s.ip]
    case Profile(_) => Ok(s.(ip := next))
    case Dbg(_) => Ok(s.(ip := next))
    case Left =>
      if s.head == 0 then Panic("attempt to subtract with overflow")
      else Ok(s.(head := s.head - 1, ip := next))
    case Right =>
      var tape := if |s.tape| == s.head + 1 then s.tape + [0] else s.tape;
      Ok(s.(tape := tape, head := s.head + 1, ip := next))
    case Inc => Ok(s.(tape := s.tape[s.head := Wrap16(s.tape[s.head] as int + 1)], ip := next))
    case Dec => Ok(s.(tape := s.tape[s.head := Wrap16(s.tape[s.head] as int - 1)], ip := next))
    case Input => ReadByte(s)
    case Output => Ok(WriteByte(s))
    case LBrac => Bracket(jumps, s, s.tape[s.head] == 0)
    case RBrac => Bracket(jumps, s, s.tape[s.head] != 0)
  }

  /** The `while ip < bf.len()` loop, with at most `fuel` steps. */
  function RunBF(code: seq<BF>, jumps: map<nat, nat>, s: Machine, fuel: nat): (r: Halt)
    requires Valid(s)
    ensures r.Finished? ==> Valid(r.final) && r.final.ip >= |code|
    decreases fuel
  {
    if s.ip >= |code| then Finished(s)
    else if fuel == 0 then Exhausted(s)
    else match StepBF(code, jumps, s)
      case Panic(why) => Crashed(s.output, why)
      case Ok(s') => RunBF(code, jumps, s', fuel - 1)
  }

  /** `exec_bf`: convert every instruction (a debug marker panics here,
      before anything runs), match the brackets, then run. */
  function ExecBF(code: seq<BF>, input: seq<U8>, fuel: nat): (r: Halt)
    ensures (exists k :: 0 <= k < |code| && code[k].Dbg?) ==> r.Crashed? && r.printed == []
  {
    match FromBFAll(code)
    case Panic(why) => Crashed([], why)
    case Ok(fast) =>
      match ParseBracs(fast)
      case Panic(why) => Crashed([], why)
      case Ok(jumps) => RunBF(code, jumps, Start(input), fuel)
  }

  // ---------------------------------------------------------------------
  // exec_fastbf
  // ---------------------------------------------------------------------

  const ISIZE_MIN: int := -0x8000_0000_0000_0000
  const ISIZE_MAX: int := 0x7FFF_FFFF_FFFF_FFFF

  /** `Result::expect` appends the `Debug` form of the error that
      `read_exact` returns at the end of input. */
  const NO_INPUT := "No input: Error { kind: UnexpectedEof, message: \"failed to fill whole buffer\" }"

  /** The panic of a `Move` or `AddCell` to position `p < 0`: the
      wrapping cast gives `usize::MAX + 1 + p`, so at -1 the `p + 1` of
      `resize` overflows, and further left `resize` asks for more than a
      `Vec` can hold. */
  function LeftEdgePanic(p: int): (reason: string)
    requires p < 0
    ensures reason == "attempt to add with overflow" <==> p == -1
  {
    if p == -1 then "attempt to add with overflow" else "capacity overflow"
  }

  /** `stack.resize(p + 1, 0)` when `p` is past the end. */
  function Grow(tape: seq<Word>, p: nat): (r: seq<Word>)
    ensures |r| == if p < |tape| then |tape| else p + 1
    ensures forall q :: 0 <= q < |r| ==> r[q] == if q < |tape| then tape[q] else 0
  {
    if p < |tape| then tape else tape + Repeat(0, p + 1 - |tape|)
  }

  /** The cell at `p`, 0 beyond the end of the tape. */
  function CellAt(tape: seq<Word>, p: int): Word {
    if 0 <= p < |tape| then tape[p] else 0
  }

  /** The inner loop of `AddCell`: each offset gains `m * val`.  A
      negative position asks `resize` for an impossible capacity, and
      `m * val` outside `isize` overflows. */
  function AddCells(vs: Offsets, tape: seq<Word>, head: nat, val: Word): (r: Result<seq<Word>>)
    ensures r.Ok? ==> |r.value| >= |tape|
  {
    if |vs| == 0 then Ok(tape)
    else
      var (d, m) := vs[0];
      var p := head + d;
      if p < 0 then Panic(LeftEdgePanic(p))
      else if !(ISIZE_MIN <= m * val <= ISIZE_MAX) then Panic("attempt to multiply with overflow")
      else
        var grown := Grow(tape, p);
        AddCells(vs[1..], grown[p := Wrap16(grown[p] + m * val)], head, val)
  }

  /** `AddCell(vs)`: the offsets gain their multiples of the head cell,
      then the head cell is cleared. */
  function RunAddCellStep(vs: Offsets, s: Machine): (r: Result<Machine>)
    requires Valid(s)
    ensures r.Ok? ==> Valid(r.value) && r.value.output == s.output && r.value.ip == s.ip + 1
  {
    var tape :- AddCells(vs, s.tape, s.head, s.tape[s.head]);
    Ok(s.(tape := tape[s.head := 0], ip := s.ip + 1))
  }

  /** A fused binary operation: the result goes to `head - 1`, the head
      cell is cleared, and the head moves down. */
  function Fuse(s: Machine, v: Word): (r: Machine)
    requires Valid(s) && s.head >= 1
    ensures Valid(r) && r.head == s.head - 1 && |r.tape| == |s.tape|
    ensures r.tape[s.head] == 0 && r.tape[s.head - 1] == v
    ensures forall q :: 0 <= q < |s.tape| && q != s.head && q != s.head - 1 ==> r.tape[q] == s.tape[q]
  {
    s.(tape := s.tape[s.head - 1 := v][s.head := 0], head := s.head - 1, ip := s.ip + 1)
  }

  /** The value a fused operation computes, or the debug-build panic.
      `>>` by 16 or more and `*` past `u16::MAX` overflow; `%` by 0 has
      no result. */
  function FusedValue(op: FastBF, a: Word, b: Word): (r: Result<Word>)
    requires op in {BinAnd, BinOr, BinXor, Rem, Mult, Geq, ShiftR}
    ensures op == Geq ==> r == Ok(if a >= b then 1 else 0)
    ensures r.Panic? <==> (op == Rem && b == 0) || (op == Mult && a * b >= WORD_MOD) || (op == ShiftR && b >= WORD_BITS)
  {
    match op
    case BinAnd => Ok(And16(a, b))
    case BinOr => Ok(Or16(a, b))
    case BinXor => Ok(Xor16(a, b))
    case Rem =>
      if b == 0 then Result<Word>.Panic("attempt to calculate the remainder with a divisor of zero")
      else Ok(a % b)
    case Mult =>
      MulMono(0, a, b);
      if a * b >= WORD_MOD then Panic("attempt to multiply with overflow") else Ok(a * b)
    case Geq => Ok(if a >= b then 1 else 0)
    case ShiftR =>
      if b >= WORD_BITS then Panic("attempt to shift right with overflow")
      else
        DivBounds(a, Pow2(b));
        Ok(a / Pow2(b))
  }

  /** One instruction of `exec_fastbf`. */
  function StepFast(code: seq<FastBF>, jumps: map<nat, nat>, s: Machine): (r: Result<Machine>)
    requires Valid(s) && s.ip < |code|
    ensures r.Ok? ==> Valid(r.value) && s.output <= r.value.output
  {
    var next := s.ip + 1;
    match code[s.ip]
    case Inst(_) => Ok(s.(ip := next))
    case Move(n) =>
      var h := s.head + n;
      if h < 0 then Panic(LeftEdgePanic(h))
      else Ok(s.(tape := Grow(s.tape, h), head := h, ip := next))
    case Const(n) => Ok(s.(tape := s.tape[s.head := Wrap16(s.tape[s.head] + n)], ip := next))
    case AddCell(vs) => RunAddCellStep(vs, s)
    case Read =>
      var addr := s.tape[s.head];
      if addr > s.head then Panic("attempt to subtract with overflow")
      else Ok(s.(tape := s.tape[s.head := s.tape[s.head - addr]], ip := next))
    case Store =>
      if s.head == 0 then Panic("attempt to subtract with overflow")
      else
        var addr := s.tape[s.head];
        var word := s.tape[s.head - 1];
        if addr + 1 > s.head then Panic("attempt to subtract with overflow")
        else if s.head == 1 then Panic("attempt to subtract with overflow")
        else
          var target := s.head - addr - 1;
          Ok(s.(tape := s.tape[s.head := 0][s.head - 1 := 0][target := word], head := s.head - 2, ip := next))
    case In => ReadByte(s)
    case Out => Ok(WriteByte(s))
    case LB => Bracket(jumps, s, s.tape[s.head] == 0)
    case RB => Bracket(jumps, s, s.tape[s.head] != 0)
    case _ => RunFused(code[s.ip], s)
  }

  /** A fused word operation: `head - 1` underflows on the first cell. */
  function RunFused(op: FastBF, s: Machine): (r: Result<Machine>)
    requires Valid(s) && op in {BinAnd, BinOr, BinXor, Rem, Mult, Geq, ShiftR}
    ensures r.Ok? ==> Valid(r.value) && r.value.output == s.output
  {
    if s.head == 0 then Panic("attempt to subtract with overflow")
    else
      var v :- FusedValue(op, s.tape[s.head - 1], s.tape[s.head]);
      Ok(Fuse(s, v))
  }

  /** The `while ip < fast.len()` loop of `exec_fastbf`. */
  function RunFast(code: seq<FastBF>, jumps: map<nat, nat>, s: Machine, fuel: nat): (r: Halt)
    requires Valid(s)
    ensures r.Finished? ==> Valid(r.final) && r.final.ip >= |code|
    decreases fuel
  {
    if s.ip >= |code| then Finished(s)
    else if fuel == 0 then Exhausted(s)
    else match StepFast(code, jumps, s)
      case Panic(why) => Crashed(s.output, why)
      case Ok(s') => RunFast(code, jumps, s', fuel - 1)
  }

  /** `exec_fastbf`: match the brackets, then run. */
  function ExecFast(code: seq<FastBF>, input: seq<U8>, fuel: nat): (r: Halt)
    ensures ParseBracs(code).Panic? ==> r.Crashed? && r.printed == []
  {
    match ParseBracs(code)
    case Panic(why) => Crashed([], why)
    case Ok(jumps) => RunFast(code, jumps, Start(input), fuel)
  }

  // ---------------------------------------------------------------------
  // Properties of the interpreters
  // ---------------------------------------------------------------------

  /** `exec_bf` uses the brackets of the converted program. */
  lemma ConvertedBrackets(code: seq<BF>, fast: seq<FastBF>, k: nat)
    requires FromBFAll(code) == Ok(fast) && k < |code|
    ensures code[k].LBrac? <==> fast[k] == LB
    ensures code[k].RBrac? <==> fast[k] == RB
  {
    assert FromBF(code[k]) == Ok(fast[k]);
  }

  /** A taken `[` resumes just after the `]` that closes it, and panics
      when no `]` closes it; a taken `]` always resumes just after its
      `[`.  Both interpreters take a jump through `Bracket`: `[` on a
      zero cell, `]` on a non-zero one. */
  lemma BracketJumps(fast: seq<FastBF>, jumps: map<nat, nat>, s: Machine)
    requires ParseBracs(fast) == Ok(jumps)
    requires Valid(s) && s.ip < |fast|
    ensures fast[s.ip] == LB ==>
      var r := Bracket(jumps, s, true);
      && (r.Ok? <==> exists c :: s.ip + 1 <= c <= |fast| && Inner(fast, s.ip, c) < 0)
      && (r.Ok? ==> r.value.ip >= 1 && Matched(fast, s.ip, r.value.ip - 1) && r.value.tape == s.tape)
    ensures fast[s.ip] == RB ==>
      var r := Bracket(jumps, s, true);
      r.Ok? && r.value.ip >= 1 && Matched(fast, r.value.ip - 1, s.ip) && r.value.tape == s.tape
  {
    ParseBracsCorrect(fast);
  }

  /** What one step does to the tape in terms of the cells it reads:
      positions past the end read as 0. */
  lemma {:induction false} AddCellsAt(vs: Offsets, tape: seq<Word>, head: nat, val: Word, p: nat)
    requires DistinctKeys(vs)
    requires AddCells(vs, tape, head, val).Ok?
    ensures CellAt(AddCells(vs, tape, head, val).value, p) == Wrap16(CellAt(tape, p) + Lookup(vs, p - head) * val)
  {
    if |vs| > 0 {
      var (d, m) := vs[0];
      var q := head + d;
      var grown := Grow(tape, q);
      var t1 := grown[q := Wrap16(grown[q] + m * val)];
      AddCellsAt(vs[1..], t1, head, val, p);
      AddAllCell(vs, head, CellAt(tape, p), CellAt(t1, p), CellAt(AddCells(vs, tape, head, val).value, p), val, p);
    }
  }

  /** The tape of a machine seen as the position-indexed tape of the
      loop rewrite. */
  function ToTape(s: Machine): (t: Tape)
    ensures t.head == s.head
    ensures forall p :: Get(t, p) == CellAt(s.tape, p)
  {
    Tape(map p | 0 <= p < |s.tape| :: s.tape[p], s.head)
  }

  /** `AddCell` as executed by `exec_fastbf` leaves every cell as the
      loop rewrite's `RunAddCell` does, so (by `LoopIsAddCell`) as the
      replaced loop would have: each offset gains its multiple of the
      head cell and the head cell becomes 0. */
  lemma AddCellStep(vs: Offsets, s: Machine, p: nat)
    requires Valid(s) && DistinctKeys(vs)
    requires RunAddCellStep(vs, s).Ok?
    ensures CellAt(RunAddCellStep(vs, s).value.tape, p) == Get(RunAddCell(vs, ToTape(s)), p)
    ensures CellAt(RunAddCellStep(vs, s).value.tape, p) ==
      if p == s.head then 0 else Wrap16(CellAt(s.tape, p) + Lookup(vs, p - s.head) * s.tape[s.head])
  {
    AddCellCells(vs, s.tape, s.head, p);
    RunAddCellAt(vs, ToTape(s), p);
    assert Get(ToTape(s), s.head) == s.tape[s.head];
  }

  /** The cells after `AddCell`, head cell cleared. */
  lemma AddCellCells(vs: Offsets, tape: seq<Word>, head: nat, p: nat)
    requires head < |tape| && DistinctKeys(vs)
    requires AddCells(vs, tape, head, tape[head]).Ok?
    ensures CellAt(AddCells(vs, tape, head, tape[head]).value[head := 0], p) ==
      if p == head then 0 else Wrap16(CellAt(tape, p) + Lookup(vs, p - head) * tape[head])
  {
    AddCellsAt(vs, tape, head, tape[head], p);
  }

  /** The tape `exec_fastbf` leaves after `AddCell`. */
  lemma AddCellTape(fast: seq<FastBF>, jumps: map<nat, nat>, s: Machine)
    requires Valid(s) && s.ip < |fast| && fast[s.ip].AddCell?
    requires StepFast(fast, jumps, s).Ok?
    ensures AddCells(fast[s.ip].vs, s.tape, s.head, s.tape[s.head]).Ok?
    ensures StepFast(fast, jumps, s).value.tape == AddCells(fast[s.ip].vs, s.tape, s.head, s.tape[s.head]).value[s.head := 0]
  {
  }

  /** The fused word operations combine the two top cells into the lower
      one, clear the upper one and move the head down; nothing else on
      the tape changes. */
  lemma FusedStep(op: FastBF, s: Machine)
    requires Valid(s) && op in {BinAnd, BinOr, BinXor, Rem, Mult, Geq, ShiftR}
    ensures var r := RunFused(op, s);
      && (r.Panic? <==> s.head == 0 || FusedValue(op, s.tape[s.head - 1], s.tape[s.head]).Panic?)
      && (r.Ok? ==>
            && r.value.head == s.head - 1
            && |r.value.tape| == |s.tape|
            && r.value.tape[s.head] == 0
            && r.value.tape[s.head - 1] == FusedValue(op, s.tape[s.head - 1], s.tape[s.head]).value
            && (forall q :: 0 <= q < |s.tape| && q != s.head && q != s.head - 1 ==> r.value.tape[q] == s.tape[q]))
  {
    if s.head > 0 {
      var v := FusedValue(op, s.tape[s.head - 1], s.tape[s.head]);
      if v.Ok? {
        assert RunFused(op, s) == Ok(Fuse(s, v.value));
      }
    }
  }

  /** Results that agree up to the wording of a panic message. */
  predicate SameResult(a: Result<Machine>, b: Result<Machine>) {
    a.Ok? == b.Ok? && (a.Ok? ==> a.value == b.value)
  }

  /** On a converted program `exec_fastbf` takes exactly the steps of
      `exec_bf`: unit `Move`s and `Const`s behave as `<`, `>`, `+`, `-`,
      including the panic at the left end of the tape. */
  lemma StepAgree(code: seq<BF>, fast: seq<FastBF>, jumps: map<nat, nat>, s: Machine)
    requires FromBFAll(code) == Ok(fast)
    requires Valid(s) && s.ip < |code|
    ensures SameResult(StepBF(code, jumps, s), StepFast(fast, jumps, s))
  {
    assert FromBF(code[s.ip]) == Ok(fast[s.ip]);
    if code[s.ip].Right? {
      assert Repeat(0, 1) == [0];
    }
  }

  lemma {:induction false} RunAgree(code: seq<BF>, fast: seq<FastBF>, jumps: map<nat, nat>, s: Machine, fuel: nat)
    requires FromBFAll(code) == Ok(fast)
    requires Valid(s)
    ensures SameHalt(RunBF(code, jumps, s, fuel), RunFast(fast, jumps, s, fuel))
    decreases fuel
  {
    if s.ip < |code| && fuel > 0 {
      StepAgree(code, fast, jumps, s);
      if StepBF(code, jumps, s).Ok? {
        RunAgree(code, fast, jumps, StepBF(code, jumps, s).value, fuel - 1);
      }
    }
  }

  /** `exec_bf` on a program without debug markers behaves as
      `exec_fastbf` on its conversion: same end, same output. */
  lemma ExecAgree(code: seq<BF>, input: seq<U8>, fuel: nat)
    requires forall k :: 0 <= k < |code| ==> !code[k].Dbg?
    ensures FromBFAll(code).Ok?
    ensures SameHalt(ExecBF(code, input, fuel), ExecFast(FromBFAll(code).value, input, fuel))
  {
    var fast := FromBFAll(code).value;
    if ParseBracs(fast).Ok? {
      RunAgree(code, fast, ParseBracs(fast).value, Start(input), fuel);
    }
  }

  /** More fuel does not change a run that has already ended. */
  lemma {:induction false} RunBFFuel(code: seq<BF>, jumps: map<nat, nat>, s: Machine, fuel: nat, more: nat)
    requires Valid(s) && fuel <= more
    requires !RunBF(code, jumps, s, fuel).Exhausted?
    ensures RunBF(code, jumps, s, more) == RunBF(code, jumps, s, fuel)
    decreases fuel
  {
    if s.ip < |code| && StepBF(code, jumps, s).Ok? {
      RunBFFuel(code, jumps, StepBF(code, jumps, s).value, fuel - 1, more - 1);
    }
  }

  /** More fuel does not change a run that has already ended. */
  lemma {:induction false} RunFastFuel(code: seq<FastBF>, jumps: map<nat, nat>, s: Machine, fuel: nat, more: nat)
    requires Valid(s) && fuel <= more
    requires !RunFast(code, jumps, s, fuel).Exhausted?
    ensures RunFast(code, jumps, s, more) == RunFast(code, jumps, s, fuel)
    decreases fuel
  {
    if s.ip < |code| {
      var r := StepFast(code, jumps, s);
      if r.Ok? {
        RunFastFuel(code, jumps, r.value, fuel - 1, more - 1);
      }
    }
  }

  /** Output is only ever appended to: whatever a run prints extends what
      was printed when it started. */
  lemma {:induction false} RunFastOutputGrows(code: seq<FastBF>, jumps: map<nat, nat>, s: Machine, fuel: nat)
    requires Valid(s)
    ensures var h := RunFast(code, jumps, s, fuel);
      s.output <= (if h.Finished? then h.final.output else if h.Exhausted? then h.at.output else h.printed)
    decreases fuel
  {
    if s.ip < |code| && fuel > 0 && StepFast(code, jumps, s).Ok? {
      RunFastOutputGrows(code, jumps, StepFast(code, jumps, s).value, fuel - 1);
    }
  }

  /** The loop rewrite is proved on a tape unbounded to the left, but
      `exec_fastbf` panics on any position below 0, and `AddCell` runs even
      when the head cell is 0.  The loop `[-<+>]` at position 0 is skipped
      because the cell is 0, while its `AddCell` still reaches position
      -1 and panics. */
  lemma OptimizeAddsLeftEdgePanic()
    ensures Optimize([LB, Const(-1), Move(-1), Const(1), Move(1), RB]) == Ok([AddCell([(-1, 1)])])
    ensures ExecFast([LB, Const(-1), Move(-1), Const(1), Move(1), RB], [], 10).Finished?
    ensures ExecFast([AddCell([(-1, 1)])], [], 10) == Crashed([], "attempt to add with overflow")
  {
    var p: seq<FastBF> := [LB, Const(-1), Move(-1), Const(1), Move(1), RB];
    var r := p[1..];
    var acc: Offsets := [(0, -1), (-1, 1)];
    assert AddAt([(0, -1)], -1, 1) == acc;
    assert ScanLoop([RB], 0, acc) == Ok(Some((0, acc)));
    assert ScanLoop([Move(1), RB], -1, acc) == Ok(Some((1, acc)));
    assert r[1..][1..] == [Const(1), Move(1), RB];
    assert ScanLoop(r[1..][1..], -1, [(0, -1)]) == Ok(Some((2, acc)));
    assert ScanLoop(r, 0, []) == Ok(Some((4, acc)));
    assert p[..0] + [AddCell([(-1, 1)])] + p[6..] == [AddCell([(-1, 1)])];
    assert RemoveKey(acc, 0) == [(-1, 1)];
    assert PassStep(p, 0) == Ok(([AddCell([(-1, 1)])], 1));
    assert OptimizeFrom([AddCell([(-1, 1)])], 1) == Ok([AddCell([(-1, 1)])]);

    assert Bracs(p, 0) == Ok(([], map[]));
    var e: seq<nat> := [];
    assert e + [0] == [0];
    assert Bracs(p, 1) == Ok(([0], map[]));
    assert Bracs(p, 5) == Ok(([0], map[]));
    assert ParseBracs(p) == Ok(map[5 := 0, 0 := 5]);
    assert StepFast(p, map[5 := 0, 0 := 5], Start([])) == Ok(Start([]).(ip := 6));
  }

  /** Merging `Move`s keeps only the sum of the steps, so a walk that
      dips below position 0 and comes back, which panics as written,
      becomes one step that does not. */
  lemma MergeHidesLeftEdgePanic()
    ensures Optimize([Move(1), Move(-1), Move(-1), Move(1), Move(1)]) == Ok([Move(1)])
    ensures ExecFast([Move(1), Move(-1), Move(-1), Move(1), Move(1)], [], 10) == Crashed([], "attempt to add with overflow")
    ensures ExecFast([Move(1)], [], 10).Finished?
  {
    var p0: seq<FastBF> := [Move(1), Move(-1), Move(-1), Move(1), Move(1)];
    var p1: seq<FastBF> := [Move(0), Move(-1), Move(1), Move(1)];
    var p2: seq<FastBF> := [Move(-1), Move(1), Move(1)];
    var p3: seq<FastBF> := [Move(0), Move(1)];
    var p4: seq<FastBF> := [Move(1)];
    assert p0[..0] + [Move(0)] + p0[2..] == p1;
    assert p1[..0] + p1[1..] == p2;
    assert p2[..0] + [Move(0)] + p2[2..] == p3;
    assert p3[..0] + p3[1..] == p4;
    assert PassStep(p4, 0) == Ok((p4, 1));
    var none: map<nat, nat> := map[];
    assert Bracs(p0, 0) == Ok(([], none));
    assert Bracs(p0, 3) == Ok(([], none));
    assert Bracs(p0, 5) == Ok(([], none));
    assert Repeat(0, 1) == [0];
    assert Grow([0], 1) == [0, 0];
    var s1 := Start([]).(ip := 1, tape := [0, 0], head := 1);
    assert StepFast(p0, none, Start([])) == Ok(s1);
    var s2 := s1.(ip := 2, head := 0);
    assert StepFast(p0, none, s1) == Ok(s2);
    assert StepFast(p0, none, s2) == Panic("attempt to add with overflow");
  }

  /** `AddCell` that, like the loop it replaces, does nothing when the
      head cell is 0. */
  function GuardedAddCellStep(vs: Offsets, s: Machine): (r: Result<Machine>)
    requires Valid(s)
    ensures r.Ok? ==> Valid(r.value) && r.value.output == s.output && r.value.ip == s.ip + 1
    ensures r.Ok? ==> r.value.head == s.head && r.value.input == s.input
    ensures s.tape[s.head] == 0 ==> r.Ok? && r.value.tape == s.tape
  {
    if s.tape[s.head] == 0 then Ok(s.(ip := s.ip + 1)) else RunAddCellStep(vs, s)
  }

  /** The guarded `AddCell` agrees cell by cell with the loop the
      optimiser replaced, run on the machine's own tape for as many
      rounds as the head cell says, whenever the step does not panic;
      a zero head cell never makes it panic. */
  lemma GuardedAddCellAgrees(body: seq<FastBF>, vs: Offsets, s: Machine, p: nat)
    requires Valid(s)
    requires AllStraight(body) && Drift(body) == 0 && DistinctKeys(vs)
    requires forall d :: Lookup(vs, d) == NetAt(body, 0, d)
    requires Lookup(vs, 0) == -1
    requires GuardedAddCellStep(RemoveKey(vs, 0), s).Ok?
    ensures CellAt(GuardedAddCellStep(RemoveKey(vs, 0), s).value.tape, p) ==
      Get(Iterate(body, ToTape(s), s.tape[s.head]), p)
  {
    var t := ToTape(s);
    assert Get(t, t.head) == s.tape[s.head];
    LoopIsAddCell(body, vs, t);
    if s.tape[s.head] != 0 {
      AddCellStep(RemoveKey(vs, 0), s, p);
    }
  }

  /** Two `Move`s run in turn against the merged one: the pair is safe
      exactly when neither stop is below position 0, the merged step
      only asks it of the last, and when the pair is safe the two agree
      on the head and on every cell. */
  lemma MergeMovesAgree(a: int, b: int, s: Machine, p: int)
    requires Valid(s)
    ensures var two, s0 := [Move(a), Move(b)], s.(ip := 0);
      var r1 := StepFast(two, map[], s0);
      (r1.Ok? && StepFast(two, map[], r1.value).Ok?) <==> (s.head + a >= 0 && s.head + a + b >= 0)
    ensures StepFast([Move(a + b)], map[], s.(ip := 0)).Ok? <==> s.head + a + b >= 0
    ensures var two, s0 := [Move(a), Move(b)], s.(ip := 0);
      var r1 := StepFast(two, map[], s0);
      var one := StepFast([Move(a + b)], map[], s0);
      r1.Ok? && StepFast(two, map[], r1.value).Ok? ==>
        one.Ok? && StepFast(two, map[], r1.value).value.head == one.value.head &&
        CellAt(StepFast(two, map[], r1.value).value.tape, p) == CellAt(one.value.tape, p)
  {
  }
}
