# c2bf in Dafny

c2bf compiles a small subset of C to Brainfuck in two stages. A front end
parses C into an AST of definitions, declarators, types and expressions. A
back end lowers it to a stack IR, and a translation table turns each stack
instruction into a fixed Brainfuck snippet. The repository also carries two
Brainfuck interpreters: a plain one, and a "fast" one that runs a peephole
optimised instruction set with fused loops (`AddCell`) and fused binary
operators. It also carries two stack-IR interpreters and a few C test
programs that the compiler is meant to handle.

This project models that core as pure Dafny functions over algebraic
datatypes and proves properties of it. The modules are:

- Brainfuck layer.
  - `BfInst`: the instruction parser and printer, and the `asm_to_bf`
    snippet table.
  - `BfFast`: the conversion to the fast instruction set, the `optimize`
    pass, and a proof that a replaced loop and its `AddCell` agree on a
    tape unbounded to the left. `exec_fastbf` panics below position 0,
    and there the two can differ.
  - `BfExec`: bracket matching, both tape interpreters as fuelled step
    functions, and their agreement. It also shows the two ways the
    optimiser changes a left-edge panic, and gives a guarded `AddCell`
    that agrees with the replaced loop on the machine's own tape.
- Stack IR.
  - `StackExec`: the `u32` stack machine with labels and `Goto`.
  - `ByteMachine`: the older straight-line `u8` machine.
  - `StackCtxt`: word-rounded global allocation.
- Front end.
  - `DTypes`: C types, `size`, and the specifier fold.
  - `Declarators`: declarator inversion.
  - `Exprs`: constant folding, binary-chain pairing and postfix fixtures.
  - `Definitions`: the definition rewrites.
  - `Programs`: the program fold.
  - `Ops`: the operator token tables.
- C test programs, as integer algorithms: `BfDonut`, `Donut1`, `Squares`.
- Shared definitions: `Outcome` (`Option`, and `Result` whose failure is a
  Rust panic with its message) and `Words` (`Word` is `u16`, `WORD_SIZE`
  is 2, and the wrap-around helpers).

Every Rust panic the modelled code can hit becomes `Result.Panic`, with
the message a debug build panics with. This covers `unwrap`, `expect`,
`unreachable!`, `todo!`, `unimplemented!`, an out-of-range index (with its
length and index), a missing `HashMap` key ("no entry found for key") and
integer overflow. Standard input
is the sequence of bytes not yet read, and standard output is the sequence
of characters printed (each a code point below 256). Both are in the
machine state. Interpreters take a
fuel count and report `Finished`, `Crashed` (with the output printed before
the panic) or `Exhausted`.

Behaviours of the code the model follows as written:

- `long long` is `S32`, not `S64`. The guarded `"long" if long` arm is
  shadowed by the plain `"long"` arm.
- Among the specifier keywords, the last `signed`/`unsigned` keyword wins.
- `Mul` in both stack machines pushes `a + b`, as written.
- The stack machine's labels are `Word` values used as keys of a
  `HashMap<Word, usize>`, while its stack holds `u32`. Label lookup
  compares the values numerically.
- `exec_bf` converts its whole input through `From<BF>` before running, so
  it panics on any program that contains `Dbg`, even an unreachable one.

## Model

| member | source | states |
|---|---|---|
| BfInst.Condense | src/bf/inst.rs:215-217 | the "condense into 1 cell" tail of the `Xor` snippet with 3 decrements, of `And` (lines 230-232) with 4 and of `Or` (lines 246-248) with 2; no contract of its own, `BitOpsBalance` states the snippets are balanced |
| BfInst.Describe | src/bf/inst.rs:84 | the text of the `Dbg` marker pushed before each snippet, the instruction's variant name; no contract of its own, `TranslateDepth` shows the markers do not change bracket depth |
| BfInst.Decode | src/bf/inst.rs:19-37 | a character decodes to an instruction exactly when it is one of the eight command characters, and never to `Dbg` |
| BfInst.Parse | src/bf/inst.rs:19-37 | parsing never lengthens the text and never yields `Dbg` |
| BfInst.ParseAppend | src/bf/inst.rs:19-37 | parsing distributes over concatenation, so characters are kept in order |
| BfInst.ParseCommandFree | src/bf/inst.rs:19-37 | text without command characters parses to nothing |
| BfInst.ShowParse | src/bf/inst.rs:19-68 | printing the parse of any text gives exactly its command characters, in order |
| BfInst.Show | src/bf/inst.rs:39-52 | `show` succeeds exactly on non-`Dbg` instructions and yields the command character that decodes back to the instruction |
| BfInst.ShowInvertsParse | src/bf/inst.rs:23-52 | `show` inverts `parse` on every non-`Dbg` instruction and every command character, and panics on `Dbg` |
| BfInst.StripDbg | src/bf/inst.rs:54-68 | removing the `Dbg` markers never lengthens the code and leaves none behind |
| BfInst.Commands | src/bf/inst.rs:19-37 | the filtered text holds only command characters |
| BfInst.ShowCodeAppend | src/bf/inst.rs:54-68 | `show_code` distributes over concatenation |
| BfInst.ShowCode | src/bf/inst.rs:54-68 | `show_code`: commands print as their character and a `Dbg` prints its note framed when debug information is asked for; no contract of its own, its properties are `ShowCodeAppend`, `ParseShowCode`, `ParseShowCodeDbg` and `ShowCodeDbgLength` |
| BfInst.ParseShowCode | src/bf/inst.rs:54-68 | parsing `show_code(code, false)` gives `code` with every `Dbg` removed |
| BfInst.ParseShowCodeDbg | src/bf/inst.rs:54-68 | with debug notes free of command characters, parsing `show_code(code, true)` also gives `code` without its `Dbg` markers |
| BfInst.ShowCodeDbgLength | src/bf/inst.rs:57-65 | with `dbg_info`, a `Dbg(c)` contributes its note plus five framing characters; without it, nothing |
| BfInst.DepthAppend | src/bf/inst.rs:71-282 | bracket depth adds up over concatenation |
| BfInst.DepthRepeat | src/bf/inst.rs:71-282 | a run of one non-bracket instruction is balanced |
| BfInst.SimpleInst | src/bf/inst.rs:71-282 | the straight-line pieces of a snippet are never brackets or `Dbg` |
| BfInst.Flatten | src/bf/inst.rs:71-282 | a structured snippet flattens to code without `Dbg` |
| BfInst.FlattenBalanced | src/bf/inst.rs:71-282 | a snippet built from straight pieces and whole loops is bracket-balanced |
| BfInst.DeallocCode | src/bf/inst.rs:119-123 | `Dealloc(n)` emits exactly `4n` instructions |
| BfInst.DeallocBalanced | src/bf/inst.rs:119-123 | `Dealloc(n)` is balanced |
| BfInst.DeallocShape | src/bf/inst.rs:119-123 | `Dealloc(n)` is `n` copies of `[-]<` |
| BfInst.SnippetBalance | src/bf/inst.rs:84-275 | each snippet's bracket depth is its table entry: `Label(n)` with n≠0 is +1, `Branch` and `Goto` are -1, all others are 0 |
| BfInst.Snippet | src/bf/inst.rs:86-276 | the code `asm_to_bf` emits for one instruction; no contract of its own, its shapes are stated by `SnippetShapes` and its bracket depths by `SnippetBalance` |
| BfInst.SnippetShapes | src/bf/inst.rs:84-275 | `PushB(b)` is `Right` then `b` copies of `Inc`; `Alloc(n)` is `n` copies of `Right`; `Dealloc(n)` is `n` copies of `[-]<`; `Label(0)`, `Nop`, `Debug` and `Comment` add nothing; only unexpanded instructions panic |
| BfInst.Translate | src/bf/inst.rs:79-277 | translating the instruction list panics exactly when some instruction is not expanded |
| BfInst.TranslateDepth | src/bf/inst.rs:79-277 | the translated body's bracket depth is the sum of the per-instruction entries |
| BfInst.AsmToBf | src/bf/inst.rs:71-282 | `asm_to_bf` panics exactly on unexpanded input, and otherwise starts with `>+[>` and ends with `<]` |
| BfInst.PrologueParses | src/bf/inst.rs:78-279 | the prologue and epilogue are the parses of `>+[>` and `<]` |
| BfInst.AsmToBfDepth | src/bf/inst.rs:71-282 | the whole output's bracket depth is the sum of the per-instruction entries |
| BfFast.FromBF | src/bf/fast.rs:119-136 | the conversion panics exactly on `Dbg` |
| BfFast.FromBFInjective | src/bf/fast.rs:119-136 | conversion is invertible off `Dbg`; `Left`/`Right` become `Move(-1)`/`Move(1)` and `Dec`/`Inc` become `Const(-1)`/`Const(1)` |
| BfFast.FromBFAll | src/bf/exec.rs:7 | converting a program panics exactly when it holds a `Dbg`, and otherwise converts each instruction in place |
| BfFast.AddAt | src/bf/fast.rs:59-65 | adding `n` at offset `d` changes only that offset's coefficient and keeps the offsets distinct |
| BfFast.RemoveKey | src/bf/fast.rs:61-62 | dropping offset 0 zeroes only its coefficient and keeps the other offsets |
| BfFast.ScanLoop | src/bf/fast.rs:48-73 | a successful scan stops inside the code |
| BfFast.ScanLoopSound | src/bf/fast.rs:48-65 | a successful scan found a straight `Move`/`Const` body closed by `]`, with zero drift, offset-0 change -1 and the body's exact net change at every offset |
| BfFast.ScanFound | src/bf/fast.rs:48-65 | an accepted scan from the loop's start found a straight body closed by `]` with zero drift, distinct offsets, the body's net change at every offset and -1 at offset 0 |
| BfFast.ScanFoundAt | src/bf/fast.rs:48-65 | the same for the loop whose `[` sits at `ip`, stated on the window of the whole program |
| BfFast.LoopWindowDepth | src/bf/fast.rs:48-73 | a loop around straight code has bracket depth 0, so replacing it keeps the program's depth |
| BfFast.ScanLoopComplete | src/bf/fast.rs:48-73 | the scan stops at the first non-straight instruction, and succeeds exactly when it is `]` and the drift and offset-0 conditions hold |
| BfFast.ScanIffReplaceable | src/bf/fast.rs:48-73 | a loop is rewritten if and only if it is replaceable |
| BfFast.PassStep | src/bf/fast.rs:26-81 | each pass step strictly decreases the termination measure |
| BfFast.PassStepKeeps | src/bf/fast.rs:34-73 | a pass step leaves no zero step behind the scan position, keeps every `AddCell` free of offset 0 and keeps bracket depth |
| BfFast.OptimizeFromInvariants | src/bf/fast.rs:26-81 | the rest of the pass keeps these invariants |
| BfFast.OptimizeFrom | src/bf/fast.rs:31-78 | the `'outer` loop of `optimize` from scan position `ip`, ending when the scan reaches the end; no contract of its own, `OptimizeFromInvariants` states what it keeps |
| BfFast.OptimizeInvariants | src/bf/fast.rs:26-81 | `optimize` output has no `Move(0)` or `Const(0)`, no `AddCell` with offset 0, and the input's bracket depth |
| BfFast.Optimize | src/bf/fast.rs:26-81 | `optimize` from scan position 0; no contract of its own, `OptimizeInvariants` and `OptimizeStraight` state its output's properties |
| BfFast.SetCell | src/bf/exec.rs:80-92 | writing a tape cell changes that cell only |
| BfFast.RunStraightEffect | src/bf/fast.rs:38-47 | running straight code moves the head by its drift and adds its net change at each offset, modulo 2^16 |
| BfFast.AddAllEffect | src/bf/exec.rs:80-92 | adding `m*val` for each distinct offset adds exactly the offset's coefficient times `val` at every cell |
| BfFast.RunAddCellAt | src/bf/fast.rs:48-65 | the loop rewrite clears the head cell and adds the coefficient times the head cell at every other cell, modulo 2^16 |
| BfFast.IterateEffect | src/bf/fast.rs:48-65 | `n` runs of a zero-drift body add `n` times the body's net change at every offset |
| BfFast.LoopIsAddCell | src/bf/fast.rs:48-65 | on a tape unbounded to the left, a replaceable loop runs exactly `val` times and ends with the same tape as its `AddCell`; positions below 0, where `exec_fastbf` panics, are outside this statement |
| BfFast.ScanMeetsLoopRewrite | src/bf/fast.rs:48-65 | on a tape unbounded to the left, for every loop the scan accepts, running the loop body `val` times gives the tape the produced `AddCell` gives; positions below 0 are outside this statement |
| BfFast.RunStraightAppend | src/bf/fast.rs:38-47 | straight code runs piecewise over concatenation |
| BfFast.ZeroStepSame | src/bf/fast.rs:34-37 | removing `Move(0)` or `Const(0)` does not change the tape |
| BfFast.MergeSame | src/bf/fast.rs:38-47 | on a tape unbounded to the left, merging two `Const` or two `Move` steps does not change the tape; the left-edge panic a merged `Move` can drop is shown by `BfExec.MergeHidesLeftEdgePanic` |
| BfFast.PassStepStraight | src/bf/fast.rs:34-47 | on straight code and a tape unbounded to the left, a pass step succeeds, stays straight and does not change the tape |
| BfFast.OptimizeStraight | src/bf/fast.rs:26-81 | on straight code and a tape unbounded to the left, `optimize` succeeds and does not change the tape |
| BfExec.ParseBracsCorrect | src/bf/exec.rs:167-185 | `parse_bracs` panics exactly when some prefix closes more than it opens; otherwise its map is an involution of matched bracket pairs that covers every `]`, and covers a `[` exactly when that `[` is closed |
| BfExec.ParseBracs | src/bf/exec.rs:167-185 | `parse_bracs`: the map of the bracket walk, or the `unwrap` panic on an unmatched `]`; no contract of its own, `ParseBracsCorrect` characterises it |
| BfExec.BracsFacts | src/bf/exec.rs:171-182 | the loop's running invariant holds after every prefix, and the loop panics exactly at a negative prefix depth |
| BfExec.OpenIffClosed | src/bf/exec.rs:174-179 | an unmatched `[` gets no map entry |
| BfExec.Start | src/bf/exec.rs:10-12 | the initial tape `[0]` with the head on cell 0 is valid |
| BfExec.Jump | src/bf/exec.rs:43 | a jump succeeds exactly when the bracket has a map entry |
| BfExec.ReadByte | src/bf/exec.rs:35-39 | input succeeds exactly when a byte remains, consuming it into the current cell |
| BfExec.WriteByte | src/bf/exec.rs:40 | output gains one character, the low byte of the current cell |
| BfExec.StepBF | src/bf/exec.rs:15-53 | an `exec_bf` step keeps the head on the tape, never shrinks the tape or the output, and panics exactly on `<` at cell 0, input at end of input, or a taken jump with no partner |
| BfExec.RunBF | src/bf/exec.rs:15-53 | a finished run stopped past the last instruction with a valid state |
| BfExec.ExecBF | src/bf/exec.rs:6-9 | a program that holds `Dbg` panics before printing anything |
| BfExec.Grow | src/bf/exec.rs:71-76 | growing keeps every old cell and pads with zeros up to the new head |
| BfExec.AddCells | src/bf/exec.rs:80-92 | applying an `AddCell` never shrinks the tape |
| BfExec.AddCellsAt | src/bf/exec.rs:80-92 | an `AddCell` adds the coefficient times `val` at each offset, modulo 2^16 |
| BfExec.AddCellStep | src/bf/exec.rs:80-92 | when it does not panic, an `AddCell` step zeroes the current cell, adds the offset's coefficient times the old current cell at every other cell, and so agrees cell by cell with the unbounded-tape `RunAddCell`; it can panic at a negative position even when the head cell is 0 (`OptimizeAddsLeftEdgePanic`) |
| BfExec.AddCellTape | src/bf/exec.rs:80-92 | the tape `exec_fastbf` leaves after `AddCell` is the added-to tape with the current cell cleared |
| BfExec.RunAddCellStep | src/bf/exec.rs:80-92 | an `AddCell` step keeps the machine valid, the output unchanged, and advances by one instruction |
| BfExec.FusedValue | src/bf/exec.rs:93-129 | `Geq` yields 1 iff `a >= b`; the fused operators panic exactly on remainder by zero, a product overflowing 16 bits, or a shift of 16 or more |
| BfExec.FusedStep | src/bf/exec.rs:93-129 | a fused binary step panics exactly at cell 0 or when its value panics; otherwise it puts its value into `head-1`, zeroes `head`, moves the head down by one and changes no other cell |
| BfExec.StepFast | src/bf/exec.rs:65-162 | an `exec_fastbf` step keeps the head on the tape and never shrinks the output |
| BfExec.RunFast | src/bf/exec.rs:65-162 | a finished run stopped past the last instruction with a valid state |
| BfExec.ExecFast | src/bf/exec.rs:56-58 | unbalanced code panics before printing anything |
| BfExec.ConvertedBrackets | src/bf/fast.rs:126-129 | conversion maps brackets to brackets, one to one |
| BfExec.BracketJumps | src/bf/exec.rs:150-159 | a taken `[` resumes after its matching `]`, and panics exactly when no `]` closes it; a taken `]` always resumes after its matching `[`; the tape is unchanged |
| BfExec.Bracket | src/bf/exec.rs:41-50 | a bracket step changes nothing but the instruction pointer |
| BfExec.StepAgree | src/bf/exec.rs:6-162 | one step of `exec_bf` and of `exec_fastbf` on the converted code agree |
| BfExec.RunAgree | src/bf/exec.rs:6-162 | the two interpreters agree on every run, up to the wording of panic messages |
| BfExec.ExecAgree | src/bf/exec.rs:6-162 | on `Dbg`-free programs `exec_bf` behaves as `exec_fastbf` on the converted program |
| BfExec.RunBFFuel | src/bf/exec.rs:15-53 | more fuel does not change a run that already ended |
| BfExec.RunFastFuel | src/bf/exec.rs:65-162 | more fuel does not change a run that already ended |
| BfExec.RunFastOutputGrows | src/bf/exec.rs:149 | printed output only grows during a run |
| BfExec.Bracs | src/bf/exec.rs:171-182 | the `for` loop of `parse_bracs` over the first `n` instructions: the pending `[` stack and the map so far, or the `unwrap` panic on a `]` with no pending `[`; no contract of its own, `BracsFacts` and `ParseBracsCorrect` characterise it |
| BfExec.RunFused | src/bf/exec.rs:93-129 | a fused binary step panics at cell 0, keeps the machine valid and the output unchanged; `FusedStep` states its exact effect on the tape |
| BfExec.OptimizeAddsLeftEdgePanic | src/bf/exec.rs:80-92 | `[-<+>]` at position 0 is rewritten to `AddCell([(-1, 1)])`; the loop finishes because the cell is 0, while the `AddCell` panics at position -1 with "attempt to add with overflow", the `p + 1` of `resize` on `usize::MAX` |
| BfExec.MergeHidesLeftEdgePanic | src/bf/fast.rs:43-47 | `> < < > >` is merged into `>`; the original panics when the head reaches -1 ("attempt to add with overflow"), the merged program finishes |
| BfExec.GuardedAddCellStep | src/bf/exec.rs:80-92 | an `AddCell` that skips when the head cell is 0, as the replaced loop does: then it never panics and leaves the tape unchanged; otherwise it is the `AddCell` step; it keeps the machine valid, the head and the output |
| BfExec.GuardedAddCellAgrees | src/bf/fast.rs:48-65 | whenever the guarded `AddCell` does not panic, it leaves every cell of the machine's own tape as `val` runs of the replaced loop body do |
| BfExec.MergeMovesAgree | src/bf/fast.rs:43-47 | two `Move`s run in turn succeed exactly when neither stop is below 0, the merged `Move` exactly when the last is not; when the pair succeeds the merged step agrees with it on the head and every cell |
| StackExec.LabelsUpToCorrect | src/stack/exec.rs:20-27 | the label map from a prefix has a label exactly when the prefix holds it, and maps it to its last occurrence |
| StackExec.LabelsUpTo | src/stack/exec.rs:20-27 | the label table collected from the first `n` instructions, a later pair replacing an earlier one; no contract of its own, `LabelsUpToCorrect` characterises it |
| StackExec.LabelMapCorrect | src/stack/exec.rs:20-27 | each label value maps to the index of its last `Label` occurrence in the code |
| StackExec.LabelMap | src/stack/exec.rs:20-27 | the label table of the whole program; no contract of its own, `LabelMapCorrect` characterises it |
| StackExec.Arith | src/stack/exec.rs:107-118 | `Add` and `Mul` push `a + b`, `Sub` pushes `a - b`, `Div` pushes the floor quotient; overflow, underflow and division by zero panic |
| StackExec.Exec1 | src/stack/exec.rs:31-121 | only `Exit` stops; every other instruction moves to the next one except `Goto`, which lands on a label index; only `PrintI32` prints |
| StackExec.Step | src/stack/exec.rs:30-31 | running past the end of the code panics, and a step stops exactly at `Exit` |
| StackExec.Run | src/stack/exec.rs:30-122 | a finished run ended at an `Exit` instruction, and a crash keeps what was printed |
| StackExec.ExecStack | src/stack/exec.rs:5-9 | a program can finish only if it contains `Exit` |
| StackExec.SwapWEffect | src/stack/exec.rs:60-66 | `SwapW` exchanges the top two elements and leaves the rest, and panics on fewer than two |
| StackExec.SwapWTwice | src/stack/exec.rs:60-66 | two swaps restore the stack |
| StackExec.ArithEffect | src/stack/exec.rs:107-118 | an arithmetic step pops `b` then `a` and pushes `a op b`, and panics on fewer than two elements |
| StackExec.AllocEffect | src/stack/exec.rs:45-54 | `StackAlloc` pops `n` and appends `n` zeros; `StackDealloc` pops `n` and removes `n` elements, panicking when fewer remain |
| StackExec.AllocThenDealloc | src/stack/exec.rs:45-54 | allocating and then deallocating `n` words restores the stack |
| StackExec.LocalReadEffect | src/stack/exec.rs:85-90 | `LocalRead(k)` pushes a copy of the element `k` below the top, and panics when there is none |
| StackExec.LocalStoreEffect | src/stack/exec.rs:91-96 | `LocalStore(k)` pops the top into the element `k` below it and changes nothing else |
| StackExec.CopyDownEffect | src/stack/exec.rs:55-59 | `CopyDown(d)` overwrites the element `d` below the top with the top, and the length is unchanged |
| StackExec.GlobalEffect | src/stack/exec.rs:68-84 | `GlobalRead` and `GlobalStore` address from the bottom of the stack, panicking on a missing address |
| StackExec.GlobalStoreThenRead | src/stack/exec.rs:68-84 | a global store followed by a read of the same address reads back the stored word |
| StackExec.GotoEffect | src/stack/exec.rs:98-102 | `Goto` pops a label and continues at its last `Label` index, without incrementing; an unknown label panics |
| StackExec.RunFuel | src/stack/exec.rs:30-122 | more fuel does not change a run that already ended |
| StackExec.NoExitNoFinish | src/stack/exec.rs:103-105 | without `Exit` no run finishes |
| StackExec.StraightRunsOff | src/stack/exec.rs:30-31 | code without `Exit` and `Goto` runs off its end and panics, given enough fuel |
| StackCtxt.Fdecl | src/stack/ctxt.rs:18-21 | `fdecl` binds `f` to `Function(k)`, `k` being the scope size before insertion, and leaves every other name alone |
| StackCtxt.WordsFor | src/stack/ctxt.rs:26-28 | the word count is the least number of 2-byte words covering the size, and at least one |
| StackCtxt.GlobalVdecl | src/stack/ctxt.rs:23-32 | a global gets `Global(previous offset)` and the offset grows by its word count; the type's size must exist |
| StackCtxt.VdeclAt | src/stack/ctxt.rs:23-32 | a declaration whose type has a size yields exactly the context with the offset advanced and the name bound at the old offset |
| StackCtxt.GlobalVdecls | src/stack/ctxt.rs:23-32 | a run of declarations yields one start offset per declaration |
| StackCtxt.GlobalRangesDisjoint | src/stack/ctxt.rs:30-31 | successive globals get increasing starts, each one word count after the last, so their ranges are disjoint |
| StackCtxt.RedeclareOverwrites | src/stack/ctxt.rs:30-31 | re-declaring a name overwrites its location, but the offset still advances for both |
| StackCtxt.PushAddr | src/stack/ctxt.rs:34-44 | on a global, `push_addr` appends exactly `[PushW(w)]`; other locations panic |
| StackCtxt.PushVar | src/stack/ctxt.rs:46-57 | on a global, `push_var` appends exactly `[PushW(w), GlobalRead]`; other locations panic |
| StackCtxt.PushVarReads | src/stack/ctxt.rs:46-57 | the emitted code, when run, pushes the global's current value |
| ByteMachine.ArithU8 | src/stack_machine/exec.rs:22-33 | `Add` and `Mul` give `a + b`, `Sub` gives `a - b`, `Div` the floor quotient; overflow and division by zero panic |
| ByteMachine.StepByte | src/stack_machine/exec.rs:19-35 | arithmetic shrinks the stack by one and panics on fewer than two; `Print` keeps the stack and prints the top; `Byte(b)` pushes `b`; `Nop` changes nothing |
| ByteMachine.RunBytesHeight | src/stack_machine/exec.rs:17-36 | a successful run leaves the stack at its statically computed height |
| ByteMachine.RunBytes | src/stack_machine/exec.rs:17-36 | the `for inst in code` loop over the first `n` instructions, stopping at the first panic; no contract of its own, `RunBytesHeight`, `PushesStack` and `RunPanicSticks` state its properties |
| ByteMachine.PushesStack | src/stack_machine/exec.rs:20-21 | a run of `Byte` instructions leaves exactly those bytes on the stack, in order |
| ByteMachine.Exec | src/stack_machine/exec.rs:16-37 | the loop runs each instruction once, in order |
| ByteMachine.RunPanicSticks | src/stack_machine/exec.rs:17-36 | once a prefix panics the whole run panics the same way |
| ByteMachine.PostfixOp | src/stack_machine/exec.rs:21-33 | pushing `a`, `b` and then an operator replaces them with `a op b` |
| DTypes.PointerTo | src/ast/dtype.rs:72-78 | `pointer` adds one indirection level, never nests a pointer in a pointer, and keeps a non-pointer as the base |
| DTypes.PointeeOfPointerTo | src/ast/dtype.rs:72-78 | taking a pointer then removing one level gives the type back |
| DTypes.Pointee | src/ast/dtype.rs:72-78 | removing one level lowers the level by one, except when a level-1 pointer wraps a pointer; on a well-formed type the result is well formed and `pointer` of it gives the type back |
| DTypes.PointerN | src/ast/dtype.rs:72-78 | `n` applications of `pointer` add exactly `n` levels and keep a well-formed type well formed |
| DTypes.PointerNFolds | src/ast/dtype.rs:72-78 | `n` applications of `pointer` give `Pointer(n, base)` |
| DTypes.MakeUnsigned | src/ast/dtype.rs:80-89 | `make_unsigned` succeeds exactly on the signed integer types and yields an unsigned one |
| DTypes.MakeUnsignedKeepsWidth | src/ast/dtype.rs:80-89 | `make_unsigned` is injective and keeps the size |
| DTypes.Size | src/ast/dtype.rs:91-104 | integer sizes are 1, 4 or 8; pointers and unsized arrays are 1; functions panic |
| DTypes.ScalarSize | src/ast/dtype.rs:94-101 | the size table's scalar entries are at most 8 words |
| DTypes.SizeIsIdeal | src/ast/dtype.rs:91-104 | `size` agrees with the unbounded size table wherever it succeeds, and succeeds wherever that size fits in a `Word` |
| DTypes.ArraySize | src/ast/dtype.rs:102 | an array's size is its length times its element's size |
| DTypes.SpecStep | src/ast/dtype.rs:42-58 | one keyword step succeeds exactly on a known specifier |
| DTypes.FoldSpecsMeaning | src/ast/dtype.rs:38-59 | the fold succeeds exactly on known keywords; the last type keyword and the last sign keyword win, and `long` is remembered |
| DTypes.FoldSpecs | src/ast/dtype.rs:38-59 | the `for spec in specs` loop over the first `n` keywords, from not-long, signed `S16`; no contract of its own, `FoldSpecsMeaning` characterises it |
| DTypes.KeywordType | src/ast/dtype.rs:44-56 | the type each type keyword sets, `long` always `S32`; no contract of its own, `FoldSpecsMeaning` and `LongLongIsS32` state what it gives |
| DTypes.SpecifierTypeMeaning | src/ast/dtype.rs:38-65 | the specifier type is the last type keyword (default `S16`), made unsigned when the last sign keyword is `unsigned`; an unsigned non-integer panics |
| DTypes.SpecifierType | src/ast/dtype.rs:38-65 | the fold, then `make_unsigned` when the sign is off; no contract of its own, `SpecifierTypeMeaning` characterises it |
| DTypes.LongLongIsS32 | src/ast/dtype.rs:50-54 | `long long` yields `S32` and `unsigned long long` yields `U32` |
| Ops.ParseBinOp | src/ast/op.rs:21-32 | binary tokens parse only to `Add`, `Sub`, `Mul` or `Div` |
| Ops.BinOpRoundTrip | src/ast/op.rs:24-29 | exactly `+ - * /` parse, each to its operator and back; every other token panics |
| Ops.BinOpToken | src/ast/op.rs:24-28 | exactly the four arithmetic operators have a token, and it parses back to the operator |
| Ops.MonOpRoundTrip | src/ast/op.rs:49-58 | each unary operator's token parses back to it, and only that token does |
| Ops.ParseMonOp | src/ast/op.rs:49-58 | exactly the eight unary tokens parse, each to the operator whose token it is; anything else is `unreachable!` |
| Ops.MonOpToken | src/ast/op.rs:49-58 | every unary operator's token is one of the eight the parser accepts |
| Ops.MonOpInjective | src/ast/op.rs:49-58 | distinct accepted unary tokens give distinct operators |
| Declarators.GetName | src/ast/declarator.rs:98-105 | a `Var` names itself and `Abstract` has no name |
| Declarators.Pointed | src/ast/declarator.rs:107-113 | `pointed` turns `Deref(n, d)` into `Deref(n+1, d)` and wraps anything else in `Deref(1, _)` |
| Declarators.PointedKeepsName | src/ast/declarator.rs:107-113 | `pointed` preserves the name |
| Declarators.GetSetName | src/ast/declarator.rs:98-121 | `get_name(set_name(d, x)) == Some(x)` for every declarator |
| Declarators.SetName | src/ast/declarator.rs:115-121 | `set_name`: the innermost leaf becomes `Var(ident)`; no contract of its own, `GetSetName`, `SetNameKeepsShape`, `SetNameTwice` and `SetNameKeepsType` state its properties |
| Declarators.SetNameKeepsShape | src/ast/declarator.rs:115-121 | `set_name` changes only the innermost leaf |
| Declarators.SetNameTwice | src/ast/declarator.rs:115-121 | the last name set wins |
| Declarators.SetNameKeepsType | src/ast/declarator.rs:115-136 | `set_type(set_name(d, x), t) == set_type(d, t)` |
| Declarators.SetTypeIgnoresName | src/ast/declarator.rs:123-136 | `set_type` depends only on the declarator's shape |
| Declarators.ParamTypes | src/ast/declarator.rs:130 | the parameter types are the parameters' first components, in order |
| Declarators.SetType | src/ast/declarator.rs:127 | on `Abstract` and `Var`, `set_type` returns the type unchanged |
| Declarators.DerefLevelIgnored | src/ast/declarator.rs:128 | `set_type` on `Deref(n, d)` adds one pointer level whatever `n` is |
| Declarators.PointerDeclarator | src/ast/declarator.rs:127-128 | a chain of pointer declarators adds one level per node |
| Declarators.PointerNShift | src/ast/dtype.rs:72-78 | one more `pointer` inside equals one more outside |
| Declarators.IndexAndCall | src/ast/declarator.rs:129-134 | `Index(x, s)` gives `Array(s, t)` and `Call(x, ps)` gives a function returning `t` with one parameter per declaration |
| Exprs.CheckedAdd | src/ast/expr.rs:392 | `u64` addition succeeds exactly without overflow and gives the sum |
| Exprs.CheckedSub | src/ast/expr.rs:393 | `u64` subtraction succeeds exactly without underflow and gives the difference |
| Exprs.CheckedMul | src/ast/expr.rs:394 | `u64` multiplication succeeds exactly without overflow |
| Exprs.CheckedDiv | src/ast/expr.rs:395 | division succeeds exactly on a non-zero divisor and gives the floor quotient |
| Exprs.CheckedRem | src/ast/expr.rs:396 | remainder succeeds exactly on a non-zero divisor and is below it |
| Exprs.CheckedShl | src/ast/expr.rs:397 | a left shift succeeds exactly when the amount is below 64 |
| Exprs.CheckedShr | src/ast/expr.rs:398 | a right shift succeeds exactly when the amount is below 64 and divides by 2^amount |
| Exprs.FloorDiv | src/ast/expr.rs:395 | the floor quotient lies between the bounds that define it |
| Exprs.ApplyBin | src/ast/expr.rs:391-403 | the bitwise operators never fail; the comparison and logical operators panic |
| Exprs.ConstFold | src/ast/expr.rs:382-419 | `Const(v)` folds to `v`, `TypeSize(t)` to `size(t)`, and every unlisted variant to `None` |
| Exprs.FoldChainNested | src/ast/expr.rs:386-407 | folding the first `n` links equals folding the left-nested expression |
| Exprs.FoldChain | src/ast/expr.rs:386-407 | the fold of a chain after its first `n` links, `None` as soon as an operand is not constant; no contract of its own, `FoldChainNested`, `FoldIsLeftAssociative` and the absorption lemmas state its properties |
| Exprs.FoldIsLeftAssociative | src/ast/expr.rs:386-407 | a chain folds strictly left to right, `((h o1 a1) o2 a2)…` |
| Exprs.FoldChainNoneSticks | src/ast/expr.rs:389 | once a fold is `None` it stays `None` |
| Exprs.NoneOperandAbsorbs | src/ast/expr.rs:389 | a `None` operand makes the whole fold `None` |
| Exprs.NoneHeadAbsorbs | src/ast/expr.rs:387 | a `None` head makes the whole fold `None` |
| Exprs.ConstantChainOperands | src/ast/expr.rs:386-407 | a chain that folds to a value has constant head and operands |
| Exprs.UnaryFold | src/ast/expr.rs:408-415 | `BinaryNot` gives the 64-bit complement and is an involution; other unary operators on a constant panic; `None` propagates |
| Exprs.PairUp | src/ast/expr.rs:97-106 | the chain tail is paired into consecutive `(op, operand)` pairs, in order |
| Exprs.UnpairPairs | src/ast/expr.rs:97-106 | flattening the pairs gives back the consumed tail |
| Exprs.Unpair | src/ast/expr.rs:97-106 | spreading `n` pairs back out gives `2n` children; `UnpairPairs` states that they are the consumed ones in order |
| Exprs.Peel | src/ast/expr.rs:43-66 | peeling the outermost fixture and re-applying it rebuilds the expression |
| Exprs.PeelApply | src/ast/expr.rs:46-63 | applying a fixture then peeling it gives back the base and the fixture |
| Exprs.PeelFoldPostfix | src/ast/expr.rs:43-66 | the fixture fold is left-nested: peeling it recovers the base and every fixture in order |
| Exprs.FoldPostfix | src/ast/expr.rs:43-66 | the fixture loop of `postfix_expr`; no contract of its own, `PeelFoldPostfix` states that it nests left to right |
| Definitions.MakeStatic | src/ast/definition.rs:73-80 | `make_static` sets the flag on `Vars`, leaves `FDef` unchanged and panics on every other definition |
| Definitions.MakeStaticIdempotent | src/ast/definition.rs:73-80 | `make_static` is idempotent |
| Definitions.ChangeBaseTy | src/ast/definition.rs:82-89 | `change_base_ty` replaces only the type field of `Vars` or `FDef`, and panics otherwise |
| Definitions.ChangeBaseTyLastWins | src/ast/definition.rs:82-89 | the last type set wins, and setting the old type back restores the definition |
| Definitions.AddDef | src/ast/definition.rs:91-100 | `add_def` prepends `o`'s single declarator, so the list grows by one; it panics unless both are `Vars` and `o` has one declarator |
| Definitions.InitDeclarator | src/ast/definition.rs:61-67 | `init_declarator` yields `Vars(false, Void, [(d, init)])` |
| Definitions.InitDeclaratorListOrder | src/ast/definition.rs:54-59 | the right-recursive list and prepend keep the declarators in source order |
| Definitions.InitDeclaratorList | src/ast/definition.rs:54-59 | the right-recursive list, panicking on no children; no contract of its own, `InitDeclaratorListOrder` states its result |
| Definitions.VdeclMeaning | src/ast/definition.rs:35-52 | a declaration is its declarators in order with the declared type; `static` sets the flag |
| Definitions.Vdecl | src/ast/definition.rs:48-52 | the list given its base type; no contract of its own, `VdeclMeaning` states its result |
| Definitions.FunctionDefinition | src/ast/definition.rs:20-30 | a function definition needs a call on a plain name, and takes its name and parameters from it |
| Programs.AddItem | src/ast/program.rs:31-43 | an unnamed declarator panics; an initialised one appends its name to `order`; the entry, stored with `set_type` of the base type, is written only when the name is new or initialised; other names are untouched |
| Programs.Tagged | src/ast/program.rs:30-31 | each declarator of a `Vars` is paired with the definition's flag and base type, in order |
| Programs.Step | src/ast/program.rs:26-46 | an `FDef` replaces any function of the same name; a `Vars` leaves the functions alone; any other definition panics |
| Programs.AddItemsOk | src/ast/program.rs:32 | the declarator loop succeeds exactly when every declarator is named |
| Programs.AddItems | src/ast/program.rs:30-44 | the declarator loop over a sequence of items; no contract of its own, `AddItemsOk`, `AddItemsOrder`, `AddItemsVar` and `AddItemsAppend` characterise it |
| Programs.AddItemsOrder | src/ast/program.rs:35-37 | `order` gains the names of the initialised declarators, in encounter order, duplicates kept |
| Programs.AddItemsVar | src/ast/program.rs:39-42 | a name's entry comes from its last initialised declarator, else stays as it was, else comes from its first declaration |
| Programs.AddItemsAppend | src/ast/program.rs:30-44 | the declarator loop composes over concatenated lists |
| Programs.ParseOk | src/ast/program.rs:24-47 | the fold succeeds exactly when every definition is an `FDef` or a `Vars` with named declarators |
| Programs.ParseProgram | src/ast/program.rs:24-47 | the fold over all definitions from empty maps; no contract of its own, `ParseOk`, `ParseFuns` and `ParseGlobals` characterise it |
| Programs.ParseFuns | src/ast/program.rs:27-29 | each function name maps to its last definition |
| Programs.ParseGlobals | src/ast/program.rs:30-44 | the variables and `order` are those of the declarator loop run over every `Vars`, in order |
| Programs.ProgramVars | src/ast/program.rs:14-50 | in the parsed program, `order` lists the initialised names in order, and each variable is its last initialised declaration, else its first |
| BfDonut.Origin | c_tests/bfdonut.c:44-46 | the ray origin `p0`: the scaled `dz` times the view column, each coordinate `shift(…, 6)`; no contract of its own, `CellRay` uses it |
| BfDonut.Light | c_tests/bfdonut.c:74-76 | the light vector `l0`, each coordinate `shift(…, 2)`; no contract of its own, `CellRay` uses it |
| BfDonut.RowCos | c_tests/bfdonut.c:53-60 | `ycA` and `ysA` after `j` rows of the outer loop; no contract of its own, `RowCosClosedForm` gives its closed form |
| BfDonut.RowCosClosedForm | c_tests/bfdonut.c:53-60 | after `j` rows `ycA` and `ysA` have gained exactly `j` times `yincC` and `yincS` |
| BfDonut.RowStart | c_tests/bfdonut.c:61-66 | the direction `vxi14`, `vyi14`, `vzi14` at the start of row `j`; no contract of its own, `DirClosedForm` starts from it |
| BfDonut.ColStep | c_tests/bfdonut.c:55-57 | the per-column increments `xincX`, `xincY`, `xincZ`; no contract of its own, `DirClosedForm` states the direction after `i` of them |
| BfDonut.CellRay | c_tests/bfdonut.c:68-76 | the ray of cell `(j, i)`: origin plus direction `shift(…, 5)`, the direction, and the light; no contract of its own, `Cell` marches it |
| BfDonut.Shift | c_tests/bfdonut.c:3-5 | `r >> n` is the floor of `r / 2^n` and keeps the sign |
| BfDonut.ShiftMonotone | c_tests/bfdonut.c:3-5 | shifting is monotone |
| BfDonut.CordicStep | c_tests/bfdonut.c:15-29 | every CORDIC iteration on the right half-plane does not decrease `x` |
| BfDonut.IterateXGrows | c_tests/bfdonut.c:15-29 | the iterations never decrease `x` |
| BfDonut.Iterate | c_tests/bfdonut.c:15-29 | the first `k` CORDIC iterations; no contract of its own, `IterateXGrows` states its property |
| BfDonut.LengthAtLeast | c_tests/bfdonut.c:9-34 | the length estimate is at least the scaled absolute value of `x` |
| BfDonut.LengthCordic | c_tests/bfdonut.c:9-34 | `length_cordic`: mirror into the right half-plane, eight iterations, scale by `1/2 + 1/8`; no contract of its own, `LengthAtLeast`, `LengthMirror`, `PathIgnoresCompanion` and `CompanionFollows` state its properties |
| BfDonut.LengthMirror | c_tests/bfdonut.c:11-14 | for negative `x`, both `x` and the companion `x2` are negated first |
| BfDonut.Dirs | c_tests/bfdonut.c:15-29 | one rotation direction per iteration |
| BfDonut.PathIgnoresCompanion | c_tests/bfdonut.c:18-28 | the directions depend only on `y`, never on the companion |
| BfDonut.CompanionFollows | c_tests/bfdonut.c:16-27 | the companion gets the same rotations, its `y2` update using the pre-update `x2` |
| BfDonut.RotInverse | c_tests/bfdonut.c:7 | `R(s, x, y)` is exactly invertible |
| BfDonut.Rot | c_tests/bfdonut.c:7 | the macro `R(s, x, y)`; no contract of its own, `RotInverse` states that `Unrot` undoes it |
| BfDonut.Unrot | c_tests/bfdonut.c:7 | the two shears of `R` undone in reverse order; no contract of its own, `RotInverse` states that it inverts `Rot` on both sides |
| BfDonut.NextAnglesInverse | c_tests/bfdonut.c:106-111 | the six end-of-frame rotations, in order, form a bijection of the carried sines and cosines |
| BfDonut.NextAngles | c_tests/bfdonut.c:106-111 | the six end-of-frame rotations in source order; no contract of its own, `NextAnglesInverse` states that they are a bijection |
| BfDonut.GlyphIndex | c_tests/bfdonut.c:90-91 | the glyph index lies in [0, 11] and equals `lz >> 9` when that is in range |
| BfDonut.GlyphMonotone | c_tests/bfdonut.c:90-91 | the glyph index is monotone in `lz` |
| BfDonut.March | c_tests/bfdonut.c:77-101 | the march ends, with measure `2049 - t`, in a blank or a glyph |
| BfDonut.Distance | c_tests/bfdonut.c:79-83 | the two `length_cordic` calls and the distance to the torus; no contract of its own, it is used by `March` |
| BfDonut.Advance | c_tests/bfdonut.c:96-98 | the step along the ray; no contract of its own, it is used by `March` |
| BfDonut.MarchCell | c_tests/bfdonut.c:69-101 | the loop gives the cell's glyph after at most 768 advancing steps |
| BfDonut.DirClosedForm | c_tests/bfdonut.c:60-68 | the accumulated ray direction is linear in the column |
| BfDonut.Dir | c_tests/bfdonut.c:64-68 | the direction accumulated over the columns; no contract of its own, `DirClosedForm` states its closed form |
| BfDonut.Cell | c_tests/bfdonut.c:68-101 | each cell prints a blank or a glyph |
| BfDonut.Row | c_tests/bfdonut.c:68-103 | a row is 79 cells and byte 10 |
| BfDonut.Rows | c_tests/bfdonut.c:60-104 | `n` rows are `n * 80` bytes |
| BfDonut.RowsIndex | c_tests/bfdonut.c:60-104 | byte `80j + i` of the rows is byte `i` of row `j` |
| BfDonut.FrameLayout | c_tests/bfdonut.c:60-118 | a frame is 23 rows of 79 glyphs and byte 10, followed by bytes 27, 91, '2', '3', 'A' |
| BfDonut.Frame | c_tests/bfdonut.c:60-118 | the bytes one frame prints; no contract of its own, `FrameLayout` states its layout |
| Donut1.OnScreen | c_tests/donut1.c:93 | the guard's bounds `0 < y < 22` and `0 < x < 80`; no contract of its own, `Plot` states that such a position indexes inside the screen |
| Donut1.RotC | c_tests/donut1.c:98 | `c -= shr(m*s, k)`, the cosine half of a rotation step, also at lines 105, 117 and 124; no contract of its own, `RotStep` builds on it |
| Donut1.RotS | c_tests/donut1.c:99 | `s += shr(m*f, k)` with `f` the old cosine, also at lines 106, 118 and 125; no contract of its own, `RotStep` builds on it |
| Donut1.Signed | c_tests/donut1.c:11 | the signed reading of a 16-bit word is in [-2^15, 2^15) and wraps back to it |
| Donut1.NegativeIsTopBit | c_tests/donut1.c:11 | for every 16-bit pattern, the word is negative exactly when masking with bit 15 is non-zero, exactly when its signed reading is below 0 |
| Donut1.Neg16 | c_tests/donut1.c:24 | unsigned negation is `2^16 - x`, and 0 for 0 |
| Donut1.ShlCompose | c_tests/donut1.c:6-8 | shifting by `a` then `b` is shifting by `a + b`, truncated to 16 bits |
| Donut1.Shl | c_tests/donut1.c:6-8 | `x << s` truncated to 16 bits; no contract of its own, `ShlCompose` and `C3IsShl` state its properties |
| Donut1.C3IsShl | c_tests/donut1.c:62-63 | `shl(3, 12)` is `c_3` and `shl(1, 6)` is 64 |
| Donut1.Asr16 | c_tests/donut1.c:10-19 | the arithmetic right shift is floor division of the signed value by 2^s |
| Donut1.ShrPassStep | c_tests/donut1.c:13-16 | one pass of the loop, a shift re-ORing bit 15, is one more arithmetic shift |
| Donut1.ShrPass | c_tests/donut1.c:14-15 | one pass of `shr`'s loop; no contract of its own, `ShrPassStep` states that it is one more arithmetic shift |
| Donut1.Shr | c_tests/donut1.c:10-19 | `shr(x, s)` equals the 16-bit arithmetic right shift |
| Donut1.Div | c_tests/donut1.c:21-28 | `div` truncates toward zero: the quotient's magnitude is the floor of the magnitudes' quotient, with the dividend's sign |
| Donut1.ToChar | c_tests/donut1.c:30-37 | `to_char` keeps the magnitude modulo 256 and restores the sign |
| Donut1.LtAsWritten | c_tests/donut1.c:39-57 | the comparison as written yields 0 or 1 |
| Donut1.LtAsWrittenBothNegative | c_tests/donut1.c:50-54 | as written, two negative words always compare as not less |
| Donut1.LtAsWrittenWrong | c_tests/donut1.c:52 | as written, `lt(-2, -1)` is 0 although -2 < -1 |
| Donut1.LtIsSignedLess | c_tests/donut1.c:39-57 | the corrected `lt` is the signed less-than of the two words |
| Donut1.Lt | c_tests/donut1.c:39-57 | `lt` with line 52 negating `rhs`; no contract of its own, `LtIsSignedLess` states that it is signed less-than |
| Donut1.Display | c_tests/donut1.c:139-168 | 0 and negatives map to '.', 1..11 to `,-~:;!*=#$@` in order, larger values to 0 |
| Donut1.Plot | c_tests/donut1.c:90-96 | with the written `lt` as guard, a cell is written exactly when `0<x<80`, `0<y<22`, `zz` is nearer than `z[o]` and the two depths are not both negative; then `z[o]` becomes `zz` and `buff[o]` the glyph; `o` stays below 1760 |
| Donut1.LtAsWrittenMeaning | c_tests/donut1.c:39-57 | the written `lt` answers 1 exactly for signed less-than where not both words are negative |
| Donut1.PlotCorrected | c_tests/donut1.c:90-96 | with the corrected `lt` as guard, a cell is written exactly when on screen and `zz` is nearer than `z[o]` in the signed reading |
| Donut1.PlotAgreesUnlessBothNegative | c_tests/donut1.c:90-96 | the written and the corrected plot agree whenever the new and the stored depth are not both negative |
| Donut1.PlotKeepsNegativeDepth | c_tests/donut1.c:93 | as written, depth -2 at (40, 10) does not replace the stored -1, while the corrected plot stores it |
| Donut1.PlotNearer | c_tests/donut1.c:93-96 | neither plot ever moves a depth further away |
| Donut1.PrintBuffer | c_tests/donut1.c:112-114 | 1761 bytes: byte 10 when `k % 80 == 0` and `buff[k]` otherwise |
| Donut1.PlottedCellsPrinted | c_tests/donut1.c:93-114 | every cell a plot can write is printed as it is |
| Donut1.RotStep | c_tests/donut1.c:97-102 | the renormalised rotation step is the shear followed by scaling with `f = (c_3 - c² - s²) >> 7` |
| Donut1.RotStepFromUnit | c_tests/donut1.c:97-102 | from the unit vector (64, 0) the step gives (60, 18) |
| Squares.SqMonotone | c_tests/squares.c:3 | squares grow with their root |
| Squares.IsSquare | c_tests/squares.c:1-8 | `is_square(n)` is 1 exactly when `n` is the square of some `i ≥ 1`, 0 otherwise, and 0 for `n < 1` |
| Squares.PrintSquares | c_tests/squares.c:10-15 | the printed values are the squares of 1, 2, …, in order, up to the limit |
| Squares.MainPrints | c_tests/squares.c:11-14 | with limit 100 the output is exactly 1, 4, 9, …, 100 |

## Left out

- The command-line programs in `src/bin/` are not modelled: argument handling, file reading and stdout.
- Pest-driven parsing is not modelled: the grammar, `Pair`/`Rule`, the `parser_rule!` macro and the `ASTNode` trait. The folds are modelled over abstract child lists instead.
- `Expr::compile`, `compile_addr` and `Program::compile` are not modelled. They call context methods that no file in this model defines.
- `StackInst::expand` and `emit_bf` are not part of this model. `asm_to_bf` takes already-expanded input, and an unexpanded instruction panics as `todo!` does. `convert` is left out.
- The statement module is a stub, so function bodies are opaque values.
- Real stdin and stdout are not modelled: input is the byte sequence `read_exact` would deliver, and output is the sequence of printed characters. `PrintI32` records the value it prints, and the stack machine's `Debug` dump is a no-op.
- BfExec.WriteByte: records the character `cell as u8 as char` that `print!` is given, not the bytes on stdout. `print!` encodes characters 0x80-0xFF as two UTF-8 bytes, and that encoding is not modelled.
- The profile histogram of `exec_fastbf` and the `Profile`/`Inst` markers are not modelled. They only count, and do not change the tape.
- `HashMap` iteration order is not modelled. Where it affects results (the order of `AddCell` offsets and the program maps) the model uses an order-insensitive reading: offset coefficients and map lookups.
- The merged `Move`/`Const` amounts of `optimize` are unbounded integers. The source's `isize` arithmetic could in principle overflow.
- The infinite frame loops of the donut programs are modelled as one frame or one cell.
- Floating point does not occur; `Float` and `Double` are only type tags with sizes.
- BfDonut.Shift: C `int` arithmetic is unbounded here. Right shift of a negative `int` is implementation-defined in C and is modelled as floor division by 2^n.
- BfDonut.MarchCell: the `nnormals` counter is not modelled. The termination measure and the `niters` bound are.
- Donut1.RotStep: states the decomposition of one step and checks one concrete step, not an accuracy bound for the renormalisation.
- Donut1.Shr: the per-pass `x | b` is modelled arithmetically, as adding 2^15 exactly when bit 15 was set. After a logical shift right that bit is clear.
- Donut1 does not model the per-point torus arithmetic `x0`..`x7`, `im` and `N` of the inner loops. Plot takes the resulting `x`, `y`, `zz` and `N` as inputs.
- Squares.IsSquare: asks `n < 181 * 181`. For `n` from 32761 to 32767 the source's `i * i` overflows 16 bits one step past the root, and that overflow is not modelled.
- DTypes.SpecifierTypeMeaning: the last `signed`/`unsigned` keyword decides, following the code.
- StackExec.Arith: unsigned overflow and underflow are modelled as debug-build panics.
- The stack-machine stack is `u32` while labels are `Word`. Values are compared as integers.
- A declarator's `Index` size is a `Word`. The declarator enum declares it `u32`, while `DType::Array`, which `set_type` builds from it, takes a `Word`.
- BfFast.LoopIsAddCell: stated on a tape unbounded to the left. `exec_fastbf` panics when `Move` or `AddCell` reaches a position below 0, so the statement says nothing about runs that go there.
- BfFast.ScanMeetsLoopRewrite: stated on a tape unbounded to the left, like `LoopIsAddCell`.
- BfFast.MergeSame: stated on a tape unbounded to the left. Merging `Move`s can remove a panic below position 0 (`BfExec.MergeHidesLeftEdgePanic`); `BfExec.MergeMovesAgree` states when the merge is faithful.
- BfFast.PassStepStraight: stated on a tape unbounded to the left, so the left-edge panics a merge removes are not covered.
- BfFast.OptimizeStraight: stated on a tape unbounded to the left, so the left-edge panics a merge removes are not covered.
- BfExec.AddCellStep: agrees with the unbounded-tape `RunAddCell` only when the step does not panic. No run-level agreement between a program and its `optimize` output is proved.
- BfInst.Describe: the marker holds the instruction's variant name. The expanded instruction type and its `Debug` formatting are not part of this model, so the fields `{:?}` may add are not modelled.
- Donut1.Div: asks for a non-zero divisor. The divisor `x6` at lines 85 and 87 of c_tests/donut1.c can be 0; C leaves that undefined, and c2bf's code for it is not part of this model.

## Findings

| source | as written | input that shows it | evidently intended | confidence | as-written member | corrected member |
|---|---|---|---|---|---|---|
| c_tests/donut1.c:52 | when both words are negative, line 51 negates `lhs` and line 52 `rhs = -lhs` negates it back, so `rhs` is the original `lhs` and line 53 compares the original `lhs` with its negation (`lhs < -lhs` modulo 2^16), which is 0 for every negative `lhs`; the plot guard at line 93 therefore never replaces a negative depth with another negative one (`Donut1.PlotKeepsNegativeDepth`) | `lt(0xFFFE, 0xFFFF)`, i.e. -2 < -1, yields 0 | `rhs = -rhs`, giving signed less-than | not executed | Donut1.LtAsWrittenWrong | Donut1.LtIsSignedLess |
| src/bf/exec.rs:80-92 | `AddCell` runs its offsets without testing the head cell, and `optimize` (src/bf/fast.rs:48-65) puts it where a loop stood; when the head cell is 0 the loop is skipped, but an `AddCell` with a negative offset still reaches a position below 0 and panics | `[-<+>]` as the whole program: the loop finishes, its `AddCell([(-1, 1)])` panics | skip `AddCell` when the head cell is 0, as the loop does | not executed | BfExec.OptimizeAddsLeftEdgePanic | BfExec.GuardedAddCellAgrees |
