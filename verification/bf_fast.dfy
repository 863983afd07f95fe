/** The interpreter-level instruction set: plain Brainfuck (`BF`) and the
    optimised form (`FastBF`) with run-length `Move`/`Const`, `AddCell`
    for simple loops, and fused word operations.  Here live the
    conversion `From<BF> for FastBF` and the peephole pass `optimize`.
 */
module BfFast {
  import opened Outcome
  import opened Words

  /** Plain Brainfuck as the interpreters read it.  `Profile` names the
      stack instruction the following code was generated from (an opaque
      number here); `Dbg` is a debug marker. */
  datatype BF = Profile(tag: nat) | Dbg(note: string)
              | Left | Right | Inc | Dec | Input | Output | LBrac | RBrac

  /** An offset from the head and the multiple of the head cell added there. */
  type Offsets = seq<(int, int)>

  datatype FastBF =
    | Inst(tag: nat) | Move(n: int) | Const(n: int) | LB | RB | In | Out
    | AddCell(vs: Offsets)
    | BinAnd | BinOr | BinXor | Mult | Rem | ShiftR | Store | Read | Geq

  /** `From<BF> for FastBF`: moves and increments become unit `Move` and
      `Const`, brackets and I/O map one to one, `Profile` becomes `Inst`;
      a debug marker has no counterpart and panics (`unimplemented!`). */
  function FromBF(b: BF): (r: Result<FastBF>)
    ensures r.Panic? <==> b.Dbg?
  {
    match b
    case Profile(p) => Ok(Inst(p))
    case Dbg(_) => Panic(NOT_IMPLEMENTED)
    case Left => Ok(Move(-1))
    case Right => Ok(Move(1))
    case Dec => Ok(Const(-1))
    case Inc => Ok(Const(1))
    case LBrac => Ok(LB)
    case RBrac => Ok(RB)
    case Input => Ok(In)
    case Output => Ok(Out)
  }

  /** The plain instruction a unit fast instruction came from. */
  function ToBF(f: FastBF): Option<BF> {
    match f
    case Inst(p) => Some(Profile(p))
    case Move(n) => if n == -1 then Some(Left) else if n == 1 then Some(Right) else None
    case Const(n) => if n == -1 then Some(Dec) else if n == 1 then Some(Inc) else None
    case LB => Some(LBrac)
    case RB => Some(RBrac)
    case In => Some(Input)
    case Out => Some(Output)
    case _ => None
  }

  /** The conversion loses nothing: every converted instruction converts back. */
  lemma FromBFInjective(b: BF)
    ensures !b.Dbg? ==> ToBF(FromBF(b).value) == Some(b)
    ensures b.Left? || b.Right? ==> FromBF(b).value.Move? && FromBF(b).value.n == (if b.Left? then -1 else 1)
    ensures b.Dec? || b.Inc? ==> FromBF(b).value.Const? && FromBF(b).value.n == (if b.Dec? then -1 else 1)
  {
  }

  /** Converting a whole program, as `exec_bf` does first: it panics as soon
      as the program holds a debug marker. */
  function FromBFAll(code: seq<BF>): (r: Result<seq<FastBF>>)
    ensures r.Panic? <==> exists k :: 0 <= k < |code| && code[k].Dbg?
    ensures r.Ok? ==> |r.value| == |code|
    ensures r.Ok? ==> forall k :: 0 <= k < |code| ==> FromBF(code[k]) == Ok(r.value[k])
  {
    if exists k :: 0 <= k < |code| && code[k].Dbg? then Panic(NOT_IMPLEMENTED)
    else Ok(seq(|code|, k requires 0 <= k < |code| => FromBF(code[k]).value))
  }

  // ---------------------------------------------------------------------
  // Offset lists (the `HashMap<isize, isize>` built by `optimize`)
  // ---------------------------------------------------------------------

  /** The amount recorded for offset `d`, 0 when absent. */
  function Lookup(vs: Offsets, d: int): int {
    if |vs| == 0 then 0
    else if vs[0].0 == d then vs[0].1
    else Lookup(vs[1..], d)
  }

  /** The offsets named in the list. */
  function Keys(vs: Offsets): set<int> {
    if |vs| == 0 then {} else {vs[0].0} + Keys(vs[1..])
  }

  /** Each offset is named at most once, as in a map. */
  predicate DistinctKeys(vs: Offsets) {
    |vs| == 0 || (vs[0].0 !in Keys(vs[1..]) && DistinctKeys(vs[1..]))
  }

  /** `*map.entry(d).or_insert(0) += n`. */
  function AddAt(vs: Offsets, d: int, n: int): (r: Offsets)
    ensures forall e :: Lookup(r, e) == Lookup(vs, e) + (if e == d then n else 0)
    ensures Keys(r) == Keys(vs) + {d}
    ensures DistinctKeys(vs) ==> DistinctKeys(r)
  {
    if |vs| == 0 then [(d, n)]
    else if vs[0].0 == d then [(d, vs[0].1 + n)] + vs[1..]
    else
      var rest := AddAt(vs[1..], d, n);
      assert ([vs[0]] + rest)[1..] == rest;
      [vs[0]] + rest
  }

  /** `map.remove(&d)`. */
  function RemoveKey(vs: Offsets, d: int): (r: Offsets)
    ensures forall e :: Lookup(r, e) == (if e == d then 0 else Lookup(vs, e))
    ensures Keys(r) == Keys(vs) - {d}
    ensures DistinctKeys(vs) ==> DistinctKeys(r)
  {
    if |vs| == 0 then []
    else if vs[0].0 == d then RemoveKey(vs[1..], d)
    else
      var rest := RemoveKey(vs[1..], d);
      assert ([vs[0]] + rest)[1..] == rest;
      [vs[0]] + rest
  }

  lemma {:induction false} LookupAbsent(vs: Offsets, d: int)
    requires d !in Keys(vs)
    ensures Lookup(vs, d) == 0
  {
    if |vs| > 0 {
      LookupAbsent(vs[1..], d);
    }
  }

  // ---------------------------------------------------------------------
  // The peephole pass
  // ---------------------------------------------------------------------

  predicate IsZeroStep(f: FastBF) {
    f == Move(0) || f == Const(0)
  }

  predicate IsStraight(f: FastBF) {
    f.Move? || f.Const?
  }

  /** Straight-line code: only moves and constant additions. */
  predicate AllStraight(code: seq<FastBF>) {
    forall j :: 0 <= j < |code| ==> IsStraight(code[j])
  }

  /** Net head displacement of straight-line code. */
  function Drift(code: seq<FastBF>): int {
    if |code| == 0 then 0
    else (if code[0].Move? then code[0].n else 0) + Drift(code[1..])
  }

  /** The total added at offset `d` (relative to the starting head) by
      straight-line code whose head currently sits at offset `drift`. */
  function NetAt(code: seq<FastBF>, drift: int, d: int): int {
    if |code| == 0 then 0
    else if code[0].Move? then NetAt(code[1..], drift + code[0].n, d)
    else if code[0].Const? then (if drift == d then code[0].n else 0) + NetAt(code[1..], drift, d)
    else NetAt(code[1..], drift, d)
  }

  /** The body starting at `rest[0]` may be replaced: it is straight-line
      up to the bracket `rest[k]`, which is `]`, its net drift is 0 and its
      net change at the head is exactly -1. */
  predicate Replaceable(rest: seq<FastBF>, k: nat) {
    && k < |rest|
    && (forall j :: 0 <= j < k ==> IsStraight(rest[j]))
    && rest[k] == RB
    && Drift(rest[..k]) == 0
    && NetAt(rest[..k], 0, 0) == -1
  }

  /** The inner scan of the `[LB, ..]` arm: walks a loop body collecting
      the drift and the per-offset changes.  It gives the index of the
      closing bracket and the offsets when the loop is replaceable, `None`
      when it meets any other instruction first, and panics when it runs
      off the end of the program. */
  function ScanLoop(rest: seq<FastBF>, drift: int, acc: Offsets): (r: Result<Option<(nat, Offsets)>>)
    ensures r.Ok? && r.value.Some? ==> r.value.value.0 < |rest|
  {
    if |rest| == 0 then Panic("index out of bounds")
    else
      match rest[0]
      case Move(n) =>
        var r :- ScanLoop(rest[1..], drift + n, acc);
        Ok(if r.Some? then Some((r.value.0 + 1, r.value.1)) else None)
      case Const(n) =>
        var r :- ScanLoop(rest[1..], drift, AddAt(acc, drift, n));
        Ok(if r.Some? then Some((r.value.0 + 1, r.value.1)) else None)
      case RB =>
        if drift == 0 && Lookup(acc, 0) == -1 then Ok(Some((0, acc))) else Ok(None)
      case _ => Ok(None)
  }

  /** What a successful scan found, in terms of the body it scanned. */
  lemma {:induction false} ScanLoopSound(rest: seq<FastBF>, drift: int, acc: Offsets)
    requires ScanLoop(rest, drift, acc).Ok? && ScanLoop(rest, drift, acc).value.Some?
    ensures var (k, vs) := ScanLoop(rest, drift, acc).value.value;
      && k < |rest|
      && (forall j :: 0 <= j < k ==> IsStraight(rest[j]))
      && rest[k] == RB
      && drift + Drift(rest[..k]) == 0
      && (forall d :: Lookup(vs, d) == Lookup(acc, d) + NetAt(rest[..k], drift, d))
      && Lookup(vs, 0) == -1
      && (DistinctKeys(acc) ==> DistinctKeys(vs))
    decreases |rest|, 1
  {
    if rest[0].Move? || rest[0].Const? {
      ScanStepSound(rest, drift, acc);
    }
  }

  /** `ScanLoopSound` past a `Move` or a `Const`. */
  lemma {:induction false} ScanStepSound(rest: seq<FastBF>, drift: int, acc: Offsets)
    requires ScanLoop(rest, drift, acc).Ok? && ScanLoop(rest, drift, acc).value.Some?
    requires rest[0].Move? || rest[0].Const?
    ensures var (k, vs) := ScanLoop(rest, drift, acc).value.value;
      && k < |rest|
      && (forall j :: 0 <= j < k ==> IsStraight(rest[j]))
      && rest[k] == RB
      && drift + Drift(rest[..k]) == 0
      && (forall d :: Lookup(vs, d) == Lookup(acc, d) + NetAt(rest[..k], drift, d))
      && Lookup(vs, 0) == -1
      && (DistinctKeys(acc) ==> DistinctKeys(vs))
    decreases |rest|, 0
  {
    var drift', acc' := if rest[0].Move? then drift + rest[0].n else drift,
                        if rest[0].Move? then acc else AddAt(acc, drift, rest[0].n);
    ScanLoopSound(rest[1..], drift', acc');
    var (k, vs) := ScanLoop(rest[1..], drift', acc').value.value;
    assert rest[..k + 1][1..] == rest[1..][..k];
  }

  /** The scan from a given state stops at the first instruction that is
      not a `Move` or `Const`; it succeeds exactly when that instruction
      is `]` and drift and head change have come out right. */
  lemma {:induction false} ScanLoopComplete(rest: seq<FastBF>, drift: int, acc: Offsets, k: nat)
    requires k < |rest| && (forall j :: 0 <= j < k ==> IsStraight(rest[j])) && !IsStraight(rest[k])
    ensures ScanLoop(rest, drift, acc).Ok?
    ensures ScanLoop(rest, drift, acc).value.Some? <==>
      rest[k] == RB && drift + Drift(rest[..k]) == 0 && Lookup(acc, 0) + NetAt(rest[..k], drift, 0) == -1
    ensures ScanLoop(rest, drift, acc).value.Some? ==> ScanLoop(rest, drift, acc).value.value.0 == k
  {
    if k > 0 {
      assert rest[..k][1..] == rest[1..][..k - 1];
      match rest[0]
      case Move(n) => ScanLoopComplete(rest[1..], drift + n, acc, k - 1);
      case Const(n) => ScanLoopComplete(rest[1..], drift, AddAt(acc, drift, n), k - 1);
    }
  }

  /** The loop at `[` is replaced exactly when its body is replaceable. */
  lemma ScanIffReplaceable(rest: seq<FastBF>, k: nat)
    requires k < |rest| && (forall j :: 0 <= j < k ==> IsStraight(rest[j])) && !IsStraight(rest[k])
    ensures ScanLoop(rest, 0, []).Ok?
    ensures ScanLoop(rest, 0, []).value.Some? <==> Replaceable(rest, k)
  {
    ScanLoopComplete(rest, 0, [], k);
  }

  /** A scan from the loop's start, in terms of the body it accepted. */
  lemma ScanFound(rest: seq<FastBF>, k: nat, vs: Offsets)
    requires ScanLoop(rest, 0, []) == Ok(Some((k, vs)))
    ensures k < |rest| && AllStraight(rest[..k]) && rest[k] == RB
    ensures Drift(rest[..k]) == 0
    ensures DistinctKeys(vs)
    ensures forall d :: Lookup(vs, d) == NetAt(rest[..k], 0, d)
    ensures Lookup(vs, 0) == -1
  {
    ScanLoopSound(rest, 0, []);
    forall d ensures Lookup(vs, d) == NetAt(rest[..k], 0, d) {
      assert Lookup([], d) == 0;
    }
  }

  /** The same, for the loop whose `[` sits at `ip`. */
  lemma ScanFoundAt(fast: seq<FastBF>, ip: nat, k: nat, vs: Offsets)
    requires ip < |fast| && ScanLoop(fast[ip + 1..], 0, []) == Ok(Some((k, vs)))
    ensures ip + 1 + k < |fast| && fast[ip + 1 + k] == RB
    ensures AllStraight(fast[ip + 1..ip + 1 + k])
    ensures Drift(fast[ip + 1..ip + 1 + k]) == 0
    ensures DistinctKeys(vs)
    ensures forall d :: Lookup(vs, d) == NetAt(fast[ip + 1..ip + 1 + k], 0, d)
    ensures Lookup(vs, 0) == -1
  {
    ScanFound(fast[ip + 1..], k, vs);
    assert fast[ip + 1..ip + 1 + k] == fast[ip + 1..][..k];
  }

  /** One pass of the loop of `optimize` at scan position `ip`: the
      rewritten code and the next scan position.  A zero step is dropped
      and neighbouring `Const`s or `Move`s are merged without advancing;
      a `[` whose loop is replaceable becomes one `AddCell`; anything else
      is skipped. */
  function PassStep(fast: seq<FastBF>, ip: nat): (r: Result<(seq<FastBF>, nat)>)
    requires ip < |fast|
    ensures r.Ok? ==> r.value.1 <= |r.value.0| && 2 * |r.value.0| - r.value.1 < 2 * |fast| - ip
  {
    if IsZeroStep(fast[ip]) then
      Ok((fast[..ip] + fast[ip + 1..], ip))
    else if ip + 1 < |fast| && fast[ip].Const? && fast[ip + 1].Const? then
      Ok((fast[..ip] + [Const(fast[ip].n + fast[ip + 1].n)] + fast[ip + 2..], ip))
    else if ip + 1 < |fast| && fast[ip].Move? && fast[ip + 1].Move? then
      Ok((fast[..ip] + [Move(fast[ip].n + fast[ip + 1].n)] + fast[ip + 2..], ip))
    else if fast[ip] == LB then
      var scan :- WithReason(ScanLoop(fast[ip + 1..], 0, []), IndexOutOfBounds(|fast|, |fast|));
      match scan
      case Some((k, vs)) =>
        Ok((fast[..ip] + [AddCell(RemoveKey(vs, 0))] + fast[ip + k + 2..], ip + 1))
      case None => Ok((fast, ip + 1))
    else Ok((fast, ip + 1))
  }

  /** The loop of `optimize`, from scan position `ip`; it stops when the
      scan position reaches the end. */
  function OptimizeFrom(fast: seq<FastBF>, ip: nat): (r: Result<seq<FastBF>>)
    requires ip <= |fast|
    decreases 2 * |fast| - ip
  {
    if ip == |fast| then Ok(fast)
    else
      var next :- PassStep(fast, ip);
      OptimizeFrom(next.0, next.1)
  }

  /** `optimize` applied to already converted code. */
  function Optimize(fast: seq<FastBF>): Result<seq<FastBF>> {
    OptimizeFrom(fast, 0)
  }

  predicate NoZeroSteps(code: seq<FastBF>) {
    forall k :: 0 <= k < |code| ==> !IsZeroStep(code[k])
  }

  /** A produced `AddCell` never touches the head itself and names each
      offset once. */
  predicate WellFormedAddCells(code: seq<FastBF>) {
    forall k :: 0 <= k < |code| && code[k].AddCell? ==>
      DistinctKeys(code[k].vs) && 0 !in Keys(code[k].vs)
  }

  /** What one instruction adds to the bracket depth. */
  function Delta(f: FastBF): int {
    if f == LB then 1 else if f == RB then -1 else 0
  }

  /** Opening minus closing brackets. */
  function BracketDepth(code: seq<FastBF>): int {
    if |code| == 0 then 0 else Delta(code[0]) + BracketDepth(code[1..])
  }

  lemma {:induction false} BracketDepthAppend(a: seq<FastBF>, b: seq<FastBF>)
    ensures BracketDepth(a + b) == BracketDepth(a) + BracketDepth(b)
  {
    if |a| == 0 {
      assert a + b == b;
    } else {
      assert (a + b)[1..] == a[1..] + b;
      BracketDepthAppend(a[1..], b);
    }
  }

  lemma {:induction false} StraightDepth(code: seq<FastBF>)
    requires AllStraight(code)
    ensures BracketDepth(code) == 0
  {
    if |code| > 0 {
      StraightDepth(code[1..]);
    }
  }

  /** Replacing `fast[ip..ip+n]` by `w` keeps the bracket depth when both
      windows have the same depth. */
  lemma SpliceDepth(fast: seq<FastBF>, ip: nat, n: nat, w: seq<FastBF>)
    requires ip + n <= |fast|
    requires BracketDepth(fast[ip..ip + n]) == BracketDepth(w)
    ensures BracketDepth(fast[..ip] + w + fast[ip + n..]) == BracketDepth(fast)
  {
    assert fast == fast[..ip] + fast[ip..ip + n] + fast[ip + n..];
    BracketDepthAppend(fast[..ip], fast[ip..ip + n]);
    BracketDepthAppend(fast[..ip] + fast[ip..ip + n], fast[ip + n..]);
    BracketDepthAppend(fast[..ip], w);
    BracketDepthAppend(fast[..ip] + w, fast[ip + n..]);
  }

  /** Where an element of a spliced sequence comes from. */
  lemma SpliceIndex(fast: seq<FastBF>, ip: nat, n: nat, w: seq<FastBF>, j: nat)
    requires ip + n <= |fast|
    requires j < |fast[..ip] + w + fast[ip + n..]|
    ensures (fast[..ip] + w + fast[ip + n..])[j] ==
      if j < ip then fast[j] else if j < ip + |w| then w[j - ip] else fast[j - |w| + n]
  {
  }

  lemma SpliceWellFormed(fast: seq<FastBF>, ip: nat, n: nat, w: seq<FastBF>)
    requires ip + n <= |fast|
    requires WellFormedAddCells(fast) && WellFormedAddCells(w)
    ensures WellFormedAddCells(fast[..ip] + w + fast[ip + n..])
  {
    var f' := fast[..ip] + w + fast[ip + n..];
    forall j | 0 <= j < |f'| && f'[j].AddCell?
      ensures DistinctKeys(f'[j].vs) && 0 !in Keys(f'[j].vs)
    {
      SpliceIndex(fast, ip, n, w, j);
    }
  }

  lemma SpliceStraight(fast: seq<FastBF>, ip: nat, n: nat, w: seq<FastBF>)
    requires ip + n <= |fast|
    requires AllStraight(fast)
    requires AllStraight(w)
    ensures AllStraight(fast[..ip] + w + fast[ip + n..])
  {
    var f' := fast[..ip] + w + fast[ip + n..];
    forall j | 0 <= j < |f'| ensures IsStraight(f'[j]) {
      SpliceIndex(fast, ip, n, w, j);
    }
  }

  /** What a splice keeps of the invariants of the pass. */
  lemma SpliceKeeps(fast: seq<FastBF>, ip: nat, n: nat, w: seq<FastBF>)
    requires ip + n <= |fast|
    requires NoZeroSteps(fast[..ip])
    requires WellFormedAddCells(fast) && WellFormedAddCells(w)
    requires BracketDepth(fast[ip..ip + n]) == BracketDepth(w)
    ensures NoZeroSteps((fast[..ip] + w + fast[ip + n..])[..ip])
    ensures NoZeroSteps(w) ==> NoZeroSteps((fast[..ip] + w + fast[ip + n..])[..ip + |w|])
    ensures WellFormedAddCells(fast[..ip] + w + fast[ip + n..])
    ensures BracketDepth(fast[..ip] + w + fast[ip + n..]) == BracketDepth(fast)
  {
    var f' := fast[..ip] + w + fast[ip + n..];
    assert f'[..ip] == fast[..ip];
    assert f'[..ip + |w|] == fast[..ip] + w;
    SpliceDepth(fast, ip, n, w);
    SpliceWellFormed(fast, ip, n, w);
  }

  /** Dropping the zero step at `ip` keeps the invariants of the pass. */
  lemma DropKeeps(fast: seq<FastBF>, ip: nat)
    requires ip < |fast| && IsZeroStep(fast[ip])
    requires NoZeroSteps(fast[..ip])
    requires WellFormedAddCells(fast)
    ensures NoZeroSteps((fast[..ip] + fast[ip + 1..])[..ip])
    ensures WellFormedAddCells(fast[..ip] + fast[ip + 1..])
    ensures BracketDepth(fast[..ip] + fast[ip + 1..]) == BracketDepth(fast)
  {
    assert fast[ip..ip + 1] == [fast[ip]];
    StraightDepth(fast[ip..ip + 1]);
    SpliceKeeps(fast, ip, 1, []);
    assert fast[..ip] + [] + fast[ip + 1..] == fast[..ip] + fast[ip + 1..];
  }

  /** Merging the runs at `ip` and `ip + 1` keeps the invariants. */
  lemma MergeKeeps(fast: seq<FastBF>, ip: nat) returns (w: seq<FastBF>)
    requires ip + 1 < |fast|
    requires (fast[ip].Const? && fast[ip + 1].Const?) || (fast[ip].Move? && fast[ip + 1].Move?)
    requires NoZeroSteps(fast[..ip])
    requires WellFormedAddCells(fast)
    ensures w == [if fast[ip].Const? then Const(fast[ip].n + fast[ip + 1].n) else Move(fast[ip].n + fast[ip + 1].n)]
    ensures NoZeroSteps((fast[..ip] + w + fast[ip + 2..])[..ip])
    ensures WellFormedAddCells(fast[..ip] + w + fast[ip + 2..])
    ensures BracketDepth(fast[..ip] + w + fast[ip + 2..]) == BracketDepth(fast)
  {
    var a, b := fast[ip], fast[ip + 1];
    w := [if a.Const? then Const(a.n + b.n) else Move(a.n + b.n)];
    assert fast[ip..ip + 2] == [a, b];
    StraightDepth(fast[ip..ip + 2]);
    StraightDepth(w);
    SpliceKeeps(fast, ip, 2, w);
  }

  /** The invariants of the pass, for code `f'` scanned up to `ip'` and
      produced from `fast`. */
  predicate PassKept(fast: seq<FastBF>, f': seq<FastBF>, ip': nat) {
    && ip' <= |f'|
    && NoZeroSteps(f'[..ip'])
    && WellFormedAddCells(f')
    && BracketDepth(f') == BracketDepth(fast)
  }

  /** One step of the pass keeps its invariants. */
  lemma PassStepKeeps(fast: seq<FastBF>, ip: nat)
    requires ip < |fast|
    requires NoZeroSteps(fast[..ip])
    requires WellFormedAddCells(fast)
    requires PassStep(fast, ip).Ok?
    ensures var (f', ip') := PassStep(fast, ip).value;
      && NoZeroSteps(f'[..ip'])
      && WellFormedAddCells(f')
      && BracketDepth(f') == BracketDepth(fast)
  {
    var r := PassStep(fast, ip).value;
    if IsZeroStep(fast[ip]) {
      DropKeeps(fast, ip);
      assert r == (fast[..ip] + fast[ip + 1..], ip);
    } else if ip + 1 < |fast| && ((fast[ip].Const? && fast[ip + 1].Const?) || (fast[ip].Move? && fast[ip + 1].Move?)) {
      MergeStepKeeps(fast, ip);
    } else if fast[ip] == LB && ScanLoop(fast[ip + 1..], 0, []).value.Some? {
      LoopStepKeeps(fast, ip);
    } else {
      SkipStepKeeps(fast, ip);
    }
    assert PassKept(fast, r.0, r.1);
  }

  lemma MergeStepKeeps(fast: seq<FastBF>, ip: nat)
    requires ip + 1 < |fast| && !IsZeroStep(fast[ip])
    requires (fast[ip].Const? && fast[ip + 1].Const?) || (fast[ip].Move? && fast[ip + 1].Move?)
    requires NoZeroSteps(fast[..ip])
    requires WellFormedAddCells(fast)
    ensures PassStep(fast, ip).Ok? && PassKept(fast, PassStep(fast, ip).value.0, PassStep(fast, ip).value.1)
  {
    var w := MergeKeeps(fast, ip);
    assert PassStep(fast, ip) == Ok((fast[..ip] + w + fast[ip + 2..], ip));
  }

  lemma LoopStepKeeps(fast: seq<FastBF>, ip: nat)
    requires ip < |fast| && fast[ip] == LB
    requires NoZeroSteps(fast[..ip])
    requires WellFormedAddCells(fast)
    requires ScanLoop(fast[ip + 1..], 0, []).Ok? && ScanLoop(fast[ip + 1..], 0, []).value.Some?
    ensures PassStep(fast, ip).Ok? && PassKept(fast, PassStep(fast, ip).value.0, PassStep(fast, ip).value.1)
  {
    LoopWindowKeeps(fast, ip);
    var (k, vs) := ScanLoop(fast[ip + 1..], 0, []).value.value;
    assert PassStep(fast, ip) == Ok((fast[..ip] + [AddCell(RemoveKey(vs, 0))] + fast[ip + k + 2..], ip + 1));
  }

  lemma SkipStepKeeps(fast: seq<FastBF>, ip: nat)
    requires ip < |fast| && !IsZeroStep(fast[ip])
    requires !(ip + 1 < |fast| && ((fast[ip].Const? && fast[ip + 1].Const?) || (fast[ip].Move? && fast[ip + 1].Move?)))
    requires !(fast[ip] == LB && ScanLoop(fast[ip + 1..], 0, []).Ok? && ScanLoop(fast[ip + 1..], 0, []).value.Some?)
    requires NoZeroSteps(fast[..ip])
    requires WellFormedAddCells(fast)
    requires PassStep(fast, ip).Ok?
    ensures PassKept(fast, PassStep(fast, ip).value.0, PassStep(fast, ip).value.1)
  {
    assert PassStep(fast, ip).value == (fast, ip + 1);
    assert fast[..ip + 1] == fast[..ip] + [fast[ip]];
  }

  /** The pass leaves no zero `Move`/`Const` behind, every `AddCell` it
      produces is well formed, and it never changes the bracket depth:
      merges touch no bracket, and a replaced loop loses one `[` and one
      `]` together. */
  lemma {:induction false} OptimizeFromInvariants(fast: seq<FastBF>, ip: nat)
    requires ip <= |fast|
    requires NoZeroSteps(fast[..ip])
    requires WellFormedAddCells(fast)
    requires OptimizeFrom(fast, ip).Ok?
    ensures NoZeroSteps(OptimizeFrom(fast, ip).value)
    ensures WellFormedAddCells(OptimizeFrom(fast, ip).value)
    ensures BracketDepth(OptimizeFrom(fast, ip).value) == BracketDepth(fast)
    decreases 2 * |fast| - ip
  {
    if ip == |fast| {
      assert fast[..ip] == fast;
    } else {
      PassStepKeeps(fast, ip);
      var (f', ip') := PassStep(fast, ip).value;
      OptimizeFromInvariants(f', ip');
    }
  }

  /** The loop replacement at `ip` keeps the invariants of the pass. */
  lemma LoopWindowKeeps(fast: seq<FastBF>, ip: nat)
    requires ip < |fast| && fast[ip] == LB
    requires NoZeroSteps(fast[..ip])
    requires WellFormedAddCells(fast)
    requires ScanLoop(fast[ip + 1..], 0, []).Ok? && ScanLoop(fast[ip + 1..], 0, []).value.Some?
    ensures var (k, vs) := ScanLoop(fast[ip + 1..], 0, []).value.value;
      var f' := fast[..ip] + [AddCell(RemoveKey(vs, 0))] + fast[ip + k + 2..];
      && ip + k + 2 <= |fast|
      && NoZeroSteps(f'[..ip + 1])
      && WellFormedAddCells(f')
      && BracketDepth(f') == BracketDepth(fast)
  {
    var (k, vs) := ScanLoop(fast[ip + 1..], 0, []).value.value;
    ScanFoundAt(fast, ip, k, vs);
    var w := [AddCell(RemoveKey(vs, 0))];
    LoopWindowDepth(fast, ip, k);
    assert WellFormedAddCells(w);
    SpliceKeeps(fast, ip, k + 2, w);
  }

  /** A loop around straight-line code is bracket-neutral. */
  lemma LoopWindowDepth(fast: seq<FastBF>, ip: nat, k: nat)
    requires ip + 1 + k < |fast| && fast[ip] == LB && fast[ip + 1 + k] == RB
    requires AllStraight(fast[ip + 1..ip + 1 + k])
    ensures BracketDepth(fast[ip..ip + k + 2]) == 0
  {
    var body := fast[ip + 1..ip + 1 + k];
    assert fast[ip..ip + k + 2] == [LB] + body + [RB];
    StraightDepth(body);
    BracketDepthAppend([LB], body);
    BracketDepthAppend([LB] + body, [RB]);
  }

  /** The guarantees of the whole pass. */
  lemma OptimizeInvariants(fast: seq<FastBF>)
    requires WellFormedAddCells(fast)
    requires Optimize(fast).Ok?
    ensures NoZeroSteps(Optimize(fast).value)
    ensures WellFormedAddCells(Optimize(fast).value)
    ensures BracketDepth(Optimize(fast).value) == BracketDepth(fast)
  {
    OptimizeFromInvariants(fast, 0);
  }

  // ---------------------------------------------------------------------
  // Meaning of straight-line code and of `AddCell`
  // ---------------------------------------------------------------------

  /** A tape of 16-bit cells indexed by position, 0 where never written,
      and a head position. */
  datatype Tape = Tape(cells: map<int, Word>, head: int)

  function Get(t: Tape, p: int): Word {
    if p in t.cells then t.cells[p] else 0
  }

  function SetCell(t: Tape, p: int, v: Word): (r: Tape)
    ensures r.head == t.head
    ensures forall q :: Get(r, q) == (if q == p then v else Get(t, q))
  {
    Tape(t.cells[p := v], t.head)
  }

  /** Two tapes agree on every cell and on the head. */
  ghost predicate Same(a: Tape, b: Tape) {
    a.head == b.head && forall p :: Get(a, p) == Get(b, p)
  }

  lemma SameTrans(a: Tape, b: Tape, c: Tape)
    requires Same(a, b) && Same(b, c)
    ensures Same(a, c)
  {
  }

  /** Running straight-line code: `Move(n)` shifts the head, `Const(n)`
      adds `n` to the head cell modulo 2^16. */
  function RunStraight(code: seq<FastBF>, t: Tape): Tape {
    if |code| == 0 then t
    else if code[0].Move? then RunStraight(code[1..], Tape(t.cells, t.head + code[0].n))
    else if code[0].Const? then RunStraight(code[1..], SetCell(t, t.head, Wrap16(Get(t, t.head) + code[0].n)))
    else RunStraight(code[1..], t)
  }

  lemma WrapAdd(a: int, b: int)
    ensures Wrap16(Wrap16(a) + b) == Wrap16(a + b)
  {
  }

  /** The effect of straight-line code in closed form: the head moves by
      the drift and every cell gains the code's net amount at its offset. */
  lemma {:induction false} RunStraightEffect(code: seq<FastBF>, t: Tape, drift: int)
    requires AllStraight(code)
    ensures RunStraight(code, t).head == t.head + Drift(code)
    ensures forall p :: Get(RunStraight(code, t), p) == Wrap16(Get(t, p) + NetAt(code, drift, p - t.head + drift))
    decreases |code|, 1
  {
    if |code| == 0 {
      forall p ensures Get(t, p) == Wrap16(Get(t, p) + NetAt(code, drift, p - t.head + drift)) { }
    } else if code[0].Move? {
      MoveEffect(code, t, drift);
    } else {
      ConstEffect(code, t, drift);
    }
  }

  /** `RunStraightEffect` when the code starts with a `Move`. */
  lemma {:induction false} MoveEffect(code: seq<FastBF>, t: Tape, drift: int)
    requires AllStraight(code) && |code| > 0 && code[0].Move?
    ensures RunStraight(code, t).head == t.head + Drift(code)
    ensures forall p :: Get(RunStraight(code, t), p) == Wrap16(Get(t, p) + NetAt(code, drift, p - t.head + drift))
    decreases |code|, 0
  {
    var t' := Tape(t.cells, t.head + code[0].n);
    RunStraightEffect(code[1..], t', drift + code[0].n);
    forall p ensures Get(RunStraight(code, t), p) == Wrap16(Get(t, p) + NetAt(code, drift, p - t.head + drift)) {
      assert Get(t', p) == Get(t, p);
    }
  }

  /** `RunStraightEffect` when the code starts with a `Const`. */
  lemma {:induction false} ConstEffect(code: seq<FastBF>, t: Tape, drift: int)
    requires AllStraight(code) && |code| > 0 && code[0].Const?
    ensures RunStraight(code, t).head == t.head + Drift(code)
    ensures forall p :: Get(RunStraight(code, t), p) == Wrap16(Get(t, p) + NetAt(code, drift, p - t.head + drift))
    decreases |code|, 0
  {
    var c := code[0].n;
    var t' := SetCell(t, t.head, Wrap16(Get(t, t.head) + c));
    RunStraightEffect(code[1..], t', drift);
    forall p ensures Get(RunStraight(code, t), p) == Wrap16(Get(t, p) + NetAt(code, drift, p - t.head + drift)) {
      ConstCell(Get(t, p), Get(t', p), if p == t.head then c else 0, NetAt(code[1..], drift, p - t.head + drift));
    }
  }

  /** A cell that gained `here` and then `rest` gained their sum. */
  lemma ConstCell(before: Word, cell: Word, here: int, rest: int)
    requires cell == Wrap16(before + here)
    ensures Wrap16(cell + rest) == Wrap16(before + (here + rest))
  {
    WrapAdd(before + here, rest);
  }

  /** `AddCell(vs)`: every listed offset gains its multiple of the head
      cell's value, then the head cell is cleared. */
  function RunAddCell(vs: Offsets, t: Tape): Tape {
    SetCell(AddAll(vs, t, Get(t, t.head)), t.head, 0)
  }

  function AddAll(vs: Offsets, t: Tape, val: int): (r: Tape)
    ensures r.head == t.head
  {
    if |vs| == 0 then t else AddAll(vs[1..], AddFirst(vs, t, val), val)
  }

  /** The first entry of `AddCell`: its offset gains its multiple of `val`. */
  function AddFirst(vs: Offsets, t: Tape, val: int): (r: Tape)
    requires |vs| > 0
    ensures r.head == t.head
    ensures forall q :: Get(r, q) == if q == t.head + vs[0].0 then Wrap16(Get(t, q) + vs[0].1 * val) else Get(t, q)
  {
    var p := t.head + vs[0].0;
    SetCell(t, p, Wrap16(Get(t, p) + vs[0].1 * val))
  }

  /** `AddAll` in closed form, one cell at a time. */
  lemma {:induction false} AddAllEffect(vs: Offsets, t: Tape, val: int, p: int)
    requires DistinctKeys(vs)
    ensures Get(AddAll(vs, t, val), p) == Wrap16(Get(t, p) + Lookup(vs, p - t.head) * val)
  {
    if |vs| > 0 {
      var t' := AddFirst(vs, t, val);
      AddAllEffect(vs[1..], t', val, p);
      AddAllCell(vs, t.head, Get(t, p), Get(t', p), Get(AddAll(vs[1..], t', val), p), val, p);
    }
  }

  /** One step of `AddAllEffect`, for the cell at `p` holding `before`,
      then `cell` once the first offset has been added, and `after` once
      the rest have. */
  lemma AddAllCell(vs: Offsets, h: int, before: Word, cell: Word, after: Word, val: int, p: int)
    requires |vs| > 0 && DistinctKeys(vs)
    requires cell == if p == h + vs[0].0 then Wrap16(before + vs[0].1 * val) else before
    requires after == Wrap16(cell + Lookup(vs[1..], p - h) * val)
    ensures after == Wrap16(before + Lookup(vs, p - h) * val)
  {
    if p == h + vs[0].0 {
      LookupAbsent(vs[1..], vs[0].0);
      assert Lookup(vs[1..], p - h) * val == 0;
      WrapAdd(before + vs[0].1 * val, 0);
    } else {
      assert Lookup(vs, p - h) == Lookup(vs[1..], p - h);
    }
  }

  /** `RunAddCell` in closed form, one cell at a time. */
  lemma RunAddCellAt(vs: Offsets, t: Tape, p: int)
    requires DistinctKeys(vs)
    ensures Get(RunAddCell(vs, t), p) ==
      if p == t.head then 0 else Wrap16(Get(t, p) + Lookup(vs, p - t.head) * Get(t, t.head))
  {
    AddAllEffect(vs, t, Get(t, t.head), p);
  }

  lemma MulPred(n: int, m: int)
    ensures m + (n - 1) * m == n * m
  {
  }

  lemma MulComm(a: int, b: int)
    ensures a * b == b * a
  {
  }

  /** Running a loop body `n` times. */
  function Iterate(body: seq<FastBF>, t: Tape, n: nat): Tape
    decreases n
  {
    if n == 0 then t else Iterate(body, RunStraight(body, t), n - 1)
  }

  lemma {:induction false} IterateEffect(body: seq<FastBF>, t: Tape, n: nat)
    requires AllStraight(body)
    requires Drift(body) == 0
    ensures Iterate(body, t, n).head == t.head
    ensures forall p :: Get(Iterate(body, t, n), p) == Wrap16(Get(t, p) + n * NetAt(body, 0, p - t.head))
    decreases n
  {
    if n == 0 {
      forall p ensures Get(t, p) == Wrap16(Get(t, p) + 0 * NetAt(body, 0, p - t.head)) { }
    } else {
      var t' := RunStraight(body, t);
      RunStraightEffect(body, t, 0);
      IterateEffect(body, t', n - 1);
      forall p ensures Get(Iterate(body, t, n), p) == Wrap16(Get(t, p) + n * NetAt(body, 0, p - t.head)) {
        var m := NetAt(body, 0, p - t.head);
        WrapAdd(Get(t, p) + m, (n - 1) * m);
        MulPred(n, m);
      }
    }
  }

  /** The loop test sees a non-zero head cell before each of the first
      `v` passes of a body that lowers the head cell by one per pass. */
  lemma LoopRunsFullCount(body: seq<FastBF>, t: Tape, n: nat)
    requires AllStraight(body)
    requires Drift(body) == 0 && NetAt(body, 0, 0) == -1
    requires n <= Get(t, t.head)
    ensures Get(Iterate(body, t, n), t.head) == Get(t, t.head) - n
  {
    IterateEffect(body, t, n);
    assert Get(Iterate(body, t, n), t.head) == Wrap16(Get(t, t.head) + n * -1);
  }

  /** After `v` passes a cell away from the head holds what `AddCell`
      leaves there. */
  lemma LoopCellAgrees(body: seq<FastBF>, ws: Offsets, t: Tape, p: int)
    requires AllStraight(body)
    requires Drift(body) == 0
    requires DistinctKeys(ws)
    requires p != t.head && Lookup(ws, p - t.head) == NetAt(body, 0, p - t.head)
    ensures Get(Iterate(body, t, Get(t, t.head)), p) == Get(RunAddCell(ws, t), p)
  {
    var v := Get(t, t.head);
    IterateEffect(body, t, v);
    RunAddCellAt(ws, t, p);
    MulComm(v, NetAt(body, 0, p - t.head));
  }

  /** The rewrite of a simple loop is sound.  For a body that is
      straight-line with drift 0 and net change -1 at the head, started on
      a head cell holding `v`: the loop test sees a non-zero head cell for
      exactly the first `v` passes and a zero one afterwards, and after
      those `v` passes the tape is the one `AddCell` produces from the
      offsets the scan collected (offset 0 removed). */
  lemma LoopIsAddCell(body: seq<FastBF>, vs: Offsets, t: Tape)
    requires AllStraight(body)
    requires Drift(body) == 0
    requires DistinctKeys(vs)
    requires forall d :: Lookup(vs, d) == NetAt(body, 0, d)
    requires Lookup(vs, 0) == -1
    ensures forall n :: 0 <= n < Get(t, t.head) ==> Get(Iterate(body, t, n), t.head) != 0
    ensures Get(Iterate(body, t, Get(t, t.head)), t.head) == 0
    ensures Same(Iterate(body, t, Get(t, t.head)), RunAddCell(RemoveKey(vs, 0), t))
  {
    var v := Get(t, t.head);
    assert NetAt(body, 0, 0) == -1;
    forall n | 0 <= n < v ensures Get(Iterate(body, t, n), t.head) != 0 {
      LoopRunsFullCount(body, t, n);
    }
    LoopRunsFullCount(body, t, v);
    IterateEffect(body, t, v);
    var ws := RemoveKey(vs, 0);
    forall p ensures Get(Iterate(body, t, v), p) == Get(RunAddCell(ws, t), p) {
      if p != t.head {
        LoopCellAgrees(body, ws, t, p);
      }
    }
  }

  /** The loop rewrite performed by `optimize` is sound for the loop at
      `ip`: the body between the brackets, run as many times as the head
      cell says, leaves the tape `AddCell` leaves. */
  lemma ScanMeetsLoopRewrite(fast: seq<FastBF>, ip: nat, t: Tape)
    requires ip < |fast| && fast[ip] == LB
    requires ScanLoop(fast[ip + 1..], 0, []).Ok? && ScanLoop(fast[ip + 1..], 0, []).value.Some?
    ensures var (k, vs) := ScanLoop(fast[ip + 1..], 0, []).value.value;
      var body := fast[ip + 1..ip + 1 + k];
      && fast[ip + 1 + k] == RB
      && Same(Iterate(body, t, Get(t, t.head)), RunAddCell(RemoveKey(vs, 0), t))
  {
    var (k, vs) := ScanLoop(fast[ip + 1..], 0, []).value.value;
    ScanFoundAt(fast, ip, k, vs);
    LoopIsAddCell(fast[ip + 1..ip + 1 + k], vs, t);
  }

  // ---------------------------------------------------------------------
  // Merging runs preserves the meaning of straight-line code
  // ---------------------------------------------------------------------

  lemma {:induction false} RunStraightAppend(a: seq<FastBF>, b: seq<FastBF>, t: Tape)
    ensures RunStraight(a + b, t) == RunStraight(b, RunStraight(a, t))
  {
    if |a| == 0 {
      assert a + b == b;
    } else {
      assert (a + b)[1..] == a[1..] + b;
      if a[0].Move? {
        RunStraightAppend(a[1..], b, Tape(t.cells, t.head + a[0].n));
      } else if a[0].Const? {
        RunStraightAppend(a[1..], b, SetCell(t, t.head, Wrap16(Get(t, t.head) + a[0].n)));
      } else {
        RunStraightAppend(a[1..], b, t);
      }
    }
  }

  /** Straight-line code maps tapes that agree to tapes that agree. */
  lemma {:induction false} RunStraightSame(code: seq<FastBF>, a: Tape, b: Tape)
    requires Same(a, b)
    ensures Same(RunStraight(code, a), RunStraight(code, b))
  {
    if |code| > 0 {
      if code[0].Move? {
        var a' := Tape(a.cells, a.head + code[0].n);
        var b' := Tape(b.cells, b.head + code[0].n);
        forall p ensures Get(a', p) == Get(b', p) {
          assert Get(a', p) == Get(a, p) && Get(b', p) == Get(b, p);
        }
        RunStraightSame(code[1..], a', b');
      } else if code[0].Const? {
        assert Get(a, a.head) == Get(b, b.head);
        RunStraightSame(code[1..], SetCell(a, a.head, Wrap16(Get(a, a.head) + code[0].n)),
                                   SetCell(b, b.head, Wrap16(Get(b, b.head) + code[0].n)));
      } else {
        RunStraightSame(code[1..], a, b);
      }
    }
  }

  /** Replacing the window `fast[ip..ip+n]` by `w` keeps the meaning when
      the two windows mean the same. */
  lemma SpliceSame(fast: seq<FastBF>, ip: nat, n: nat, w: seq<FastBF>, t: Tape)
    requires ip + n <= |fast|
    requires Same(RunStraight(w, RunStraight(fast[..ip], t)), RunStraight(fast[ip..ip + n], RunStraight(fast[..ip], t)))
    ensures Same(RunStraight(fast[..ip] + w + fast[ip + n..], t), RunStraight(fast, t))
  {
    assert fast == fast[..ip] + fast[ip..ip + n] + fast[ip + n..];
    RunStraightAppend(fast[..ip] + fast[ip..ip + n], fast[ip + n..], t);
    RunStraightAppend(fast[..ip], fast[ip..ip + n], t);
    RunStraightAppend(fast[..ip] + w, fast[ip + n..], t);
    RunStraightAppend(fast[..ip], w, t);
    RunStraightSame(fast[ip + n..], RunStraight(w, RunStraight(fast[..ip], t)),
                    RunStraight(fast[ip..ip + n], RunStraight(fast[..ip], t)));
  }

  /** A zero step does nothing. */
  lemma ZeroStepSame(f: FastBF, s: Tape)
    requires IsZeroStep(f)
    ensures Same(RunStraight([], s), RunStraight([f], s))
  {
    assert [f][1..] == [];
    if f.Const? {
      assert RunStraight([f], s) == SetCell(s, s.head, Wrap16(Get(s, s.head) + 0));
    } else {
      assert RunStraight([f], s) == Tape(s.cells, s.head + 0);
    }
  }

  /** Two neighbouring runs mean the same as their merge. */
  lemma MergeSame(a: FastBF, b: FastBF, s: Tape)
    requires (a.Const? && b.Const?) || (a.Move? && b.Move?)
    ensures Same(RunStraight([if a.Const? then Const(a.n + b.n) else Move(a.n + b.n)], s), RunStraight([a, b], s))
  {
    assert [a, b][1..] == [b];
    assert [b][1..] == [];
    var m := if a.Const? then Const(a.n + b.n) else Move(a.n + b.n);
    assert [m][1..] == [];
    if a.Const? {
      var h := s.head;
      var s1 := SetCell(s, h, Wrap16(Get(s, h) + a.n));
      assert RunStraight([a, b], s) == RunStraight([b], s1);
      assert RunStraight([b], s1) == RunStraight([], SetCell(s1, h, Wrap16(Get(s1, h) + b.n)));
      assert RunStraight([m], s) == SetCell(s, h, Wrap16(Get(s, h) + (a.n + b.n)));
      WrapAdd(Get(s, h) + a.n, b.n);
    } else {
      assert RunStraight([a, b], s) == RunStraight([b], Tape(s.cells, s.head + a.n));
      assert RunStraight([b], Tape(s.cells, s.head + a.n)) == RunStraight([], Tape(s.cells, s.head + a.n + b.n));
      assert RunStraight([m], s) == RunStraight([], Tape(s.cells, s.head + (a.n + b.n)));
    }
  }

  /** One step of the pass on straight-line code keeps its meaning. */
  lemma PassStepStraight(fast: seq<FastBF>, ip: nat, t: Tape)
    requires ip < |fast| && AllStraight(fast)
    ensures PassStep(fast, ip).Ok?
    ensures AllStraight(PassStep(fast, ip).value.0)
    ensures Same(RunStraight(PassStep(fast, ip).value.0, t), RunStraight(fast, t))
  {
    if IsZeroStep(fast[ip]) {
      assert fast[..ip] + [] + fast[ip + 1..] == fast[..ip] + fast[ip + 1..];
      SpliceStraight(fast, ip, 1, []);
      assert fast[ip..ip + 1] == [fast[ip]];
      ZeroStepSame(fast[ip], RunStraight(fast[..ip], t));
      SpliceSame(fast, ip, 1, [], t);
    } else if ip + 1 < |fast| && ((fast[ip].Const? && fast[ip + 1].Const?) || (fast[ip].Move? && fast[ip + 1].Move?)) {
      var a, b := fast[ip], fast[ip + 1];
      var w := [if a.Const? then Const(a.n + b.n) else Move(a.n + b.n)];
      SpliceStraight(fast, ip, 2, w);
      assert fast[ip..ip + 2] == [a, b];
      MergeSame(a, b, RunStraight(fast[..ip], t));
      SpliceSame(fast, ip, 2, w, t);
    } else {
      RunStraightSame(fast, t, t);
    }
  }

  /** On straight-line code the pass only drops zero steps and merges
      neighbouring runs, so it never panics and the optimised code moves
      the head by the same amount and leaves every cell the same. */
  lemma {:induction false} OptimizeStraightSame(fast: seq<FastBF>, ip: nat, t: Tape)
    requires ip <= |fast|
    requires AllStraight(fast)
    ensures OptimizeFrom(fast, ip).Ok?
    ensures Same(RunStraight(OptimizeFrom(fast, ip).value, t), RunStraight(fast, t))
    decreases 2 * |fast| - ip
  {
    if ip == |fast| {
      RunStraightSame(fast, t, t);
    } else {
      PassStepStraight(fast, ip, t);
      var (f', ip') := PassStep(fast, ip).value;
      OptimizeStraightSame(f', ip', t);
      SameTrans(RunStraight(OptimizeFrom(f', ip').value, t), RunStraight(f', t), RunStraight(fast, t));
    }
  }

  /** The whole pass on straight-line code. */
  lemma OptimizeStraight(fast: seq<FastBF>, t: Tape)
    requires AllStraight(fast)
    ensures Optimize(fast).Ok?
    ensures Same(RunStraight(Optimize(fast).value, t), RunStraight(fast, t))
  {
    OptimizeStraightSame(fast, 0, t);
  }
}
