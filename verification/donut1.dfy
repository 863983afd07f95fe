/** The 16-bit helpers of the test program `c_tests/donut1.c`, which
    emulates signed fixed-point arithmetic on `unsigned short`: shifts,
    sign-magnitude division, the low byte, comparison, the glyph table,
    the z-buffered plot of one point, the printed frame and the
    renormalised rotation of a sine/cosine pair.

    Every `unsigned short` is a `Word`; a value with bit 15 set stands
    for the negative number `x - 2^16`.  `int` intermediates that the
    source stores back into an `unsigned short` are reduced modulo 2^16.
 */
module Donut1 {
  import opened Words

  const TOP_BIT: nat := 0x8000

  /** `x & (1 << 15)` is non-zero. */
  predicate Negative(x: Word) {
    x >= TOP_BIT
  }

  /** The two's-complement reading of a word. */
  function Signed(x: Word): (v: int)
    ensures -0x8000 <= v < 0x8000
    ensures Wrap16(v) == x
  {
    if Negative(x) then x - WORD_MOD else x
  }

  /** C's `-x` stored back into an `unsigned short`. */
  function Neg16(x: Word): (r: Word)
    ensures x != 0 ==> r == WORD_MOD - x
    ensures x == 0 ==> r == 0
  {
    Wrap16(-(x as int))
  }

  function Abs(v: int): nat {
    if v < 0 then -v else v
  }

  /** The bit test is the sign of the two's-complement reading.  Stated
      for the word whose bit pattern is `b`; every word is one. */
  lemma NegativeIsTopBit(b: bv16)
    ensures Negative(b as int) <==> And16(b as int, TOP_BIT) != 0
    ensures Negative(b as int) <==> Signed(b as int) < 0
  {
    BitsRoundTrip(b);
    TopBitMask(b);
  }

  lemma BitsRoundTrip(b: bv16)
    ensures (b as int) as bv16 == b
  {
  }

  lemma TopBitMask(b: bv16)
    ensures b & 0x8000 == if b >= 0x8000 then 0x8000 else 0
  {
  }

  // ---------------------------------------------------------------------
  // Shifts
  // ---------------------------------------------------------------------

  /** `shl(x, s)`: `x << s` stored back into 16 bits. */
  function Shl(x: Word, s: nat): (r: Word) {
    Wrap16(x * Pow2(s))
  }

  lemma {:induction false} Pow2Split(a: nat, b: nat)
    requires b <= a
    ensures Pow2(a) == Pow2(a - b) * Pow2(b)
    decreases b
  {
    if b > 0 {
      Pow2Split(a - 1, b - 1);
      assert Pow2(a) == 2 * Pow2(a - 1);
      assert Pow2(b) == 2 * Pow2(b - 1);
    }
  }

  /** Reduction commutes with a further multiplication. */
  lemma MulMod(u: int, v: int)
    ensures Wrap16(Wrap16(u) * v) == Wrap16(u * v)
  {
    var q, r := u / WORD_MOD, Wrap16(u);
    MulSplit(q, r, v);
    ModShift(r * v, q * v);
  }

  lemma MulSplit(q: int, r: int, v: int)
    ensures (q * WORD_MOD + r) * v == r * v + (q * v) * WORD_MOD
  {
  }

  /** Adding a multiple of 2^16 does not change the stored word. */
  lemma ModShift(x: int, k: int)
    ensures Wrap16(x + k * WORD_MOD) == Wrap16(x)
  {
    var q := x / WORD_MOD;
    assert x + k * WORD_MOD == (q + k) * WORD_MOD + Wrap16(x);
  }

  /** Two shifts in a row are one shift by the sum. */
  lemma ShlCompose(x: Word, a: nat, b: nat)
    ensures Shl(Shl(x, a), b) == Shl(x, a + b)
  {
    var pa, pb := Pow2(a), Pow2(b);
    Pow2Split(a + b, b);
    assert Pow2(a + b) == pa * pb;
    MulMod(x * pa, pb);
    MulAssoc(x, pa, pb);
  }

  lemma MulAssoc(x: int, y: int, z: int)
    ensures x * y * z == x * (y * z)
  {
  }

  /** The reference arithmetic shift: floor division of the signed value,
      stored back into 16 bits. */
  function Asr16(x: Word, s: nat): (r: Word)
    ensures Signed(r) == Signed(x) / Pow2(s)
  {
    DivBounds(Signed(x), Pow2(s));
    ShrinkBounds(Signed(x), Pow2(s));
    Wrap16(Signed(x) / Pow2(s))
  }

  /** Dividing by at least one keeps a value in the signed range. */
  lemma ShrinkBounds(v: int, d: int)
    requires -0x8000 <= v < 0x8000 && d >= 1
    ensures -0x8000 <= v / d < 0x8000
  {
    DivBounds(v, d);
    if v < 0 {
      MulMono(v / d, -1, d);
      assert v / d * d <= v / d;
    }
  }

  /** Floor division twice is floor division by the product. */
  lemma DivDiv(v: int, d: int)
    requires d > 0
    ensures v / d / 2 == v / (d * 2)
  {
    var q1 := v / d;
    var q2 := q1 / 2;
    DivBounds(v, d);
    DivBounds(q1, 2);
    MulMono(q2 * 2, q1, d);
    MulMono(q1 + 1, q2 * 2 + 2, d);
    assert q2 * (d * 2) <= v < (q2 + 1) * (d * 2);
    DivUnique(v, d * 2, q2);
  }

  lemma DivUnique(v: int, d: int, q: int)
    requires d > 0 && q * d <= v < (q + 1) * d
    ensures v / d == q
  {
    DivBounds(v, d);
    var q' := v / d;
    if q' < q {
      MulMono(q' + 1, q, d);
    } else if q' > q {
      MulMono(q + 1, q', d);
    }
  }

  /** One pass of `shr`'s loop: `(x >> 1) | b`, the unsigned shift by
      one with the original sign bit put back.  The shifted word has bit
      15 clear, so or-ing the sign bit in adds it. */
  function ShrPass(x: Word, negative: bool): Word {
    x / 2 + (if negative then TOP_BIT else 0)
  }

  /** After `i` passes the word is the reference shift by `i`. */
  lemma ShrPassStep(x0: Word, i: nat)
    ensures ShrPass(Asr16(x0, i), Negative(x0)) == Asr16(x0, i + 1)
  {
    var v := Signed(x0) / Pow2(i);
    DivBounds(Signed(x0), Pow2(i));
    ShrinkBounds(Signed(x0), Pow2(i));
    DivDiv(Signed(x0), Pow2(i));
    assert Pow2(i + 1) == Pow2(i) * 2;
    DivBounds(v, 2);
    if Negative(x0) {
      assert Asr16(x0, i) == v + WORD_MOD;
      assert (v + WORD_MOD) / 2 == v / 2 + TOP_BIT;
    } else {
      assert Asr16(x0, i) == v;
    }
  }

  /** `shr(x, s)` as the loop it is: it equals the 16-bit arithmetic
      right shift. */
  method Shr(x: Word, s: Word) returns (r: Word)
    ensures r == Asr16(x, s)
    ensures Signed(r) == Signed(x) / Pow2(s)
  {
    var b := Negative(x);
    r := x;
    var v := 0;
    while v < s
      invariant 0 <= v <= s
      invariant r == Asr16(x, v)
    {
      ShrPassStep(x, v);
      r := ShrPass(r, b);
      v := v + 1;
    }
    assert Wrap16(Signed(x)) == x;
  }

  // ---------------------------------------------------------------------
  // Division and the low byte
  // ---------------------------------------------------------------------

  /** `div(p, q)`: the magnitude divided, the sign restored.  `q` is
      divided by as an unsigned number; dividing by zero is undefined in
      C, so `q` must not be zero. */
  function Div(p: Word, q: Word): (r: Word)
    requires q != 0
    ensures Abs(Signed(r)) * q <= Abs(Signed(p)) < (Abs(Signed(r)) + 1) * q
    ensures Signed(p) >= 0 ==> Signed(r) >= 0
    ensures Signed(p) < 0 ==> Signed(r) <= 0
  {
    if Negative(p) then
      var a := Neg16(p);
      assert a == Abs(Signed(p)) && a <= TOP_BIT;
      DivBounds(a, q);
      var k := a / q;
      NegSmall(k);
      Wrap16(-(k as int))
    else
      DivBounds(p, q);
      p / q
  }

  /** Negating a magnitude of at most 2^15 gives a word whose signed
      reading is the negated magnitude. */
  lemma NegSmall(k: nat)
    requires k <= TOP_BIT
    ensures Signed(Wrap16(-(k as int))) == -(k as int)
  {
    if k > 0 {
      assert Wrap16(-(k as int)) == WORD_MOD - k;
    }
  }

  /** `to_char(p)`: the low byte of the magnitude, the sign restored. */
  function ToChar(p: Word): (r: Word)
    ensures -0x100 < Signed(r) < 0x100
    ensures (Signed(r) - Signed(p)) % 0x100 == 0
    ensures Signed(p) >= 0 ==> Signed(r) >= 0
    ensures Signed(p) < 0 ==> Signed(r) <= 0
  {
    if Negative(p) then
      var m := Neg16(p) % 0x100;
      assert Neg16(p) == -Signed(p);
      Wrap16(-(m as int))
    else p % 0x100
  }

  // ---------------------------------------------------------------------
  // Comparison
  // ---------------------------------------------------------------------

  /** `lt(lhs, rhs)` as written: in the both-negative branch line 52
      assigns `-lhs` to `rhs`, so the original `rhs` is never read. */
  function LtAsWritten(lhs: Word, rhs: Word): (r: Word)
    ensures r == 0 || r == 1
  {
    var lb, rb := Negative(lhs), Negative(rhs);
    if lb && !rb then 1
    else if rb && !lb then 0
    else if lb && rb then
      var l := Neg16(lhs);
      var r := Neg16(l);
      if r < l then 1 else 0
    else if lhs < rhs then 1 else 0
  }

  /** With both arguments negative the written `lt` always answers 0. */
  lemma LtAsWrittenBothNegative(lhs: Word, rhs: Word)
    requires Negative(lhs) && Negative(rhs)
    ensures LtAsWritten(lhs, rhs) == 0
  {
  }

  /** So `lt(-2, -1)` is 0 although -2 < -1. */
  lemma LtAsWrittenWrong()
    ensures Signed(0xFFFE) < Signed(0xFFFF)
    ensures LtAsWritten(0xFFFE, 0xFFFF) == 0
  {
    LtAsWrittenBothNegative(0xFFFE, 0xFFFF);
  }

  /** `lt` with line 52 negating `rhs`, as the comparison of magnitudes
      the branch sets up needs. */
  function Lt(lhs: Word, rhs: Word): (r: Word) {
    var lb, rb := Negative(lhs), Negative(rhs);
    if lb && !rb then 1
    else if rb && !lb then 0
    else if lb && rb then
      var l := Neg16(lhs);
      var r := Neg16(rhs);
      if r < l then 1 else 0
    else if lhs < rhs then 1 else 0
  }

  /** The corrected `lt` is the signed comparison. */
  lemma LtIsSignedLess(lhs: Word, rhs: Word)
    ensures Lt(lhs, rhs) == (if Signed(lhs) < Signed(rhs) then 1 else 0)
  {
    if Negative(lhs) && Negative(rhs) {
      assert Neg16(lhs) == -Signed(lhs);
      assert Neg16(rhs) == -Signed(rhs);
    }
  }

  // ---------------------------------------------------------------------
  // Glyphs, plotting, output
  // ---------------------------------------------------------------------

  const SHADES := ",-~:;!*=#$@"

  /** `display(n)`. */
  function Display(n: Word): (ch: char)
    ensures Signed(n) <= 0 ==> ch == '.'
    ensures 1 <= n <= |SHADES| ==> ch == SHADES[n - 1]
    ensures |SHADES| < n < TOP_BIT ==> ch == 0 as char
  {
    if Negative(n) || n == 0 then '.'
    else if n == 1 then ','
    else if n == 2 then '-'
    else if n == 3 then '~'
    else if n == 4 then ':'
    else if n == 5 then ';'
    else if n == 6 then '!'
    else if n == 7 then '*'
    else if n == 8 then '='
    else if n == 9 then '#'
    else if n == 10 then '$'
    else if n == 11 then '@'
    else 0 as char
  }

  const WIDTH: nat := 80
  const CELLS: nat := 1760

  /** The glyph buffer and the depth buffer. */
  datatype Screen = Screen(buff: seq<Word>, z: seq<Word>)

  predicate Sized(sc: Screen) {
    |sc.buff| == CELLS && |sc.z| == CELLS
  }

  /** The guard's bounds on the screen position (unsigned compares). */
  predicate OnScreen(x: Word, y: Word) {
    0 < y < 22 && 0 < x < WIDTH
  }

  /** What the written `lt` answers: signed less-than, except that two
      negative words never compare as less. */
  lemma LtAsWrittenMeaning(lhs: Word, rhs: Word)
    ensures LtAsWritten(lhs, rhs) == 1 <==>
      Signed(lhs) < Signed(rhs) && !(Negative(lhs) && Negative(rhs))
  {
    if Negative(lhs) && Negative(rhs) {
      LtAsWrittenBothNegative(lhs, rhs);
    }
  }

  /** One point, as line 93 guards it with the written `lt`: stored only
      on screen and nearer than what is there, and never over a negative
      depth when its own depth is negative too. */
  function Plot(sc: Screen, x: Word, y: Word, zz: Word, n: Word): (r: Screen)
    requires Sized(sc)
    ensures Sized(r)
    ensures OnScreen(x, y) ==> x + WIDTH * y < CELLS
    ensures !OnScreen(x, y) ==> r == sc
    ensures OnScreen(x, y) ==>
      var o := x + WIDTH * y;
      if Signed(zz) < Signed(sc.z[o]) && !(Negative(zz) && Negative(sc.z[o])) then
        r == Screen(sc.buff[o := Display(n) as int], sc.z[o := zz])
      else r == sc
  {
    if OnScreen(x, y) then
      var o := Wrap16(x + WIDTH * y);
      LtAsWrittenMeaning(zz, sc.z[o]);
      if LtAsWritten(zz, sc.z[o]) == 1 then Screen(sc.buff[o := Display(n) as int], sc.z[o := zz]) else sc
    else sc
  }

  /** The plot line 93 intends, guarded with the corrected `lt`: a point
      is stored exactly when it is on screen and nearer. */
  function PlotCorrected(sc: Screen, x: Word, y: Word, zz: Word, n: Word): (r: Screen)
    requires Sized(sc)
    ensures Sized(r)
    ensures !OnScreen(x, y) ==> r == sc
    ensures OnScreen(x, y) ==>
      var o := x + WIDTH * y;
      if Signed(zz) < Signed(sc.z[o]) then r == Screen(sc.buff[o := Display(n) as int], sc.z[o := zz])
      else r == sc
  {
    if OnScreen(x, y) then
      var o := Wrap16(x + WIDTH * y);
      LtIsSignedLess(zz, sc.z[o]);
      if Lt(zz, sc.z[o]) == 1 then Screen(sc.buff[o := Display(n) as int], sc.z[o := zz]) else sc
    else sc
  }

  /** The two plots differ only where both depths are negative. */
  lemma PlotAgreesUnlessBothNegative(sc: Screen, x: Word, y: Word, zz: Word, n: Word)
    requires Sized(sc)
    requires OnScreen(x, y) ==> !(Negative(zz) && Negative(sc.z[x + WIDTH * y]))
    ensures Plot(sc, x, y, zz, n) == PlotCorrected(sc, x, y, zz, n)
  {
  }

  /** A depth of -1 at the centre of row 10 is never replaced by the
      nearer -2 as written, while the corrected plot replaces it. */
  lemma PlotKeepsNegativeDepth(sc: Screen, n: Word)
    requires Sized(sc) && sc.z[840] == 0xFFFF
    ensures Plot(sc, 40, 10, 0xFFFE, n) == sc
    ensures PlotCorrected(sc, 40, 10, 0xFFFE, n).z[840] == 0xFFFE
  {
  }

  /** The depth buffer only ever gets nearer. */
  lemma PlotNearer(sc: Screen, x: Word, y: Word, zz: Word, n: Word, k: nat)
    requires Sized(sc) && k < CELLS
    ensures Signed(Plot(sc, x, y, zz, n).z[k]) <= Signed(sc.z[k])
    ensures Signed(PlotCorrected(sc, x, y, zz, n).z[k]) <= Signed(sc.z[k])
  {
  }

  /** The output loop: byte 10 at every multiple of 80, else the buffer;
      `k` runs to 1760 inclusive, where only the newline is read. */
  method PrintBuffer(buff: seq<Word>) returns (out: seq<Word>)
    requires |buff| == CELLS
    ensures |out| == CELLS + 1
    ensures forall k :: 0 <= k <= CELLS ==> out[k] == if k % WIDTH == 0 then 10 else buff[k]
  {
    out := [];
    var k := 0;
    while k < CELLS + 1
      invariant 0 <= k <= CELLS + 1 && |out| == k
      invariant forall i :: 0 <= i < k ==> out[i] == if i % WIDTH == 0 then 10 else buff[i]
    {
      out := out + [if k % WIDTH == 0 then 10 else buff[k]];
      k := k + 1;
    }
  }

  /** Every cell the plot may write is printed at its own position. */
  lemma PlottedCellsPrinted(buff: seq<Word>, out: seq<Word>, x: Word, y: Word)
    requires |buff| == CELLS && |out| == CELLS + 1
    requires forall k :: 0 <= k <= CELLS ==> out[k] == if k % WIDTH == 0 then 10 else buff[k]
    requires OnScreen(x, y)
    ensures out[x + WIDTH * y] == buff[x + WIDTH * y]
  {
    var o := x + WIDTH * y;
    assert o % WIDTH == x;
  }

  // ---------------------------------------------------------------------
  // Rotation of a sine/cosine pair
  // ---------------------------------------------------------------------

  const PRECISION: nat := 6
  const C_3: Word := 3 * 4096

  lemma Pow2Facts()
    ensures Pow2(4) == 16 && Pow2(6) == 64 && Pow2(7) == 128 && Pow2(12) == 4096
  {
    assert Pow2(2) == 4;
    assert Pow2(4) == 16;
    assert Pow2(6) == 64;
    assert Pow2(7) == 128;
    assert Pow2(10) == 1024;
  }

  /** `c_3 = shl(3, 2 * precision)`; the unit `shl(1, precision)` is 64. */
  lemma C3IsShl()
    ensures Shl(3, 2 * PRECISION) == C_3
    ensures Shl(1, PRECISION) == 64
  {
    Pow2Facts();
  }

  /** One step of the `(c, s)` update: rotate by `m / 2^k`, then scale by
      `(3 * 2^12 - c^2 - s^2) >> 7`, which is about 64 when `c^2 + s^2` is
      about 2^12. */
  function RotStep(c: Word, s: Word, m: nat, k: nat): (r: (Word, Word))
    ensures var f := Asr16(Wrap16(C_3 - RotC(c, s, m, k) * RotC(c, s, m, k) - RotS(c, s, m, k) * RotS(c, s, m, k)), PRECISION + 1);
      Signed(r.0) == Signed(Wrap16(RotC(c, s, m, k) * f)) / 64
      && Signed(r.1) == Signed(Wrap16(RotS(c, s, m, k) * f)) / 64
  {
    var c1 := RotC(c, s, m, k);
    var s1 := RotS(c, s, m, k);
    var f := Asr16(Wrap16(C_3 - c1 * c1 - s1 * s1), PRECISION + 1);
    (Asr16(Wrap16(c1 * f), PRECISION), Asr16(Wrap16(s1 * f), PRECISION))
  }

  /** `c -= shr(m * s, k)`. */
  function RotC(c: Word, s: Word, m: nat, k: nat): Word {
    Wrap16(c - Asr16(Wrap16(m * s), k))
  }

  /** `s += shr(m * f, k)` with `f` the old `c`. */
  function RotS(c: Word, s: Word, m: nat, k: nat): Word {
    Wrap16(s + Asr16(Wrap16(m * c), k))
  }

  /** The first step of the inner loop from `(64, 0)` stays near the
      unit circle of radius 64. */
  lemma RotStepFromUnit()
    ensures RotStep(64, 0, 5, PRECISION - 2) == (60, 18)
  {
    Pow2Facts();
    assert Asr16(0, 4) == 0;
    assert RotC(64, 0, 5, 4) == 64;
    assert Asr16(320, 4) == 20;
    assert RotS(64, 0, 5, 4) == 20;
    assert Wrap16(C_3 - 64 * 64 - 20 * 20) == 7792;
    assert Asr16(7792, 7) == 60;
    assert Asr16(3840, 6) == 60;
    assert Asr16(1200, 6) == 18;
  }
}
