/** The integer algorithms of the test program `c_tests/bfdonut.c`, a
    torus renderer that uses only shifts and adds: a CORDIC vector length
    with a companion vector, shear rotations, a sphere-tracing loop per
    screen cell and the frame it prints.

    `int` is unbounded here; the right shift of a negative `int` is
    modelled as floor division by a power of two.
 */
module BfDonut {
  import opened Words

  /** `shift(r, n)`: `r >> n`, rounding toward minus infinity. */
  function Shift(r: int, n: nat): (s: int)
    ensures s * Pow2(n) <= r < (s + 1) * Pow2(n)
    ensures r >= 0 <==> s >= 0
  {
    DivBounds(r, Pow2(n));
    r / Pow2(n)
  }

  /** Shifting keeps the order of its argument. */
  lemma ShiftMonotone(a: int, b: int, n: nat)
    requires a <= b
    ensures Shift(a, n) <= Shift(b, n)
  {
    var d := Pow2(n);
    var qa, qb := Shift(a, n), Shift(b, n);
    if qa > qb {
      MulMono(qb + 1, qa, d);
      assert false;
    }
  }

  // ---------------------------------------------------------------------
  // CORDIC length
  // ---------------------------------------------------------------------

  /** The vector being measured and its companion. */
  datatype Cordic = Cordic(x: int, y: int, x2: int, y2: int)

  /** Iteration `i`: rotate toward the x axis, the direction chosen by
      the sign of `y` alone and applied to both vectors; the `y` updates
      use the `x` values from before the iteration. */
  function CordicStep(c: Cordic, i: nat): (r: Cordic)
    ensures r.x >= c.x
  {
    if c.y < 0 then
      Cordic(c.x - Shift(c.y, i), c.y + Shift(c.x, i), c.x2 - Shift(c.y2, i), c.y2 + Shift(c.x2, i))
    else
      Cordic(c.x + Shift(c.y, i), c.y - Shift(c.x, i), c.x2 + Shift(c.y2, i), c.y2 - Shift(c.x2, i))
  }

  /** The first `k` iterations, with shifts 0, 1, ..., k-1. */
  function Iterate(c: Cordic, k: nat): Cordic {
    if k == 0 then c else CordicStep(Iterate(c, k - 1), k - 1)
  }

  const CORDIC_ITERATIONS: nat := 8

  /** The result of `length_cordic`: the length estimate, and the value
      written back through the companion pointer. */
  datatype Estimate = Estimate(len: int, comp: int)

  /** `(x >> 1) + (x >> 3)`: division by 1.6, near the CORDIC gain. */
  function Scale(x: int): int {
    Shift(x, 1) + Shift(x, 3)
  }

  /** `length_cordic(x, y, &x2, y2)`. */
  function LengthCordic(x: int, y: int, x2: int, y2: int): (r: Estimate) {
    var c0 := if x < 0 then Cordic(-x, y, -x2, y2) else Cordic(x, y, x2, y2);
    var c := Iterate(c0, CORDIC_ITERATIONS);
    Estimate(Scale(c.x), Scale(c.x2))
  }

  /** `x` never decreases across the iterations. */
  lemma {:induction false} IterateXGrows(c: Cordic, k: nat)
    ensures Iterate(c, k).x >= c.x
  {
    if k > 0 {
      IterateXGrows(c, k - 1);
    }
  }

  /** The estimate is never negative, and is at least the scaled `|x|`. */
  lemma LengthAtLeast(x: int, y: int, x2: int, y2: int)
    ensures LengthCordic(x, y, x2, y2).len >= Scale(if x < 0 then -x else x) >= 0
  {
    var c0 := if x < 0 then Cordic(-x, y, -x2, y2) else Cordic(x, y, x2, y2);
    IterateXGrows(c0, CORDIC_ITERATIONS);
    var xf := Iterate(c0, CORDIC_ITERATIONS).x;
    ShiftMonotone(c0.x, xf, 1);
    ShiftMonotone(c0.x, xf, 3);
  }

  /** Negating `x` and the companion's `x` gives the same result: the
      start in the right half-plane. */
  lemma LengthMirror(x: int, y: int, x2: int, y2: int)
    requires x != 0
    ensures LengthCordic(x, y, x2, y2) == LengthCordic(-x, y, -x2, y2)
  {
  }

  /** The rotation directions chosen, `true` for `y < 0`. */
  function Dirs(c: Cordic, k: nat): (r: seq<bool>)
    ensures |r| == k
  {
    if k == 0 then [] else Dirs(c, k - 1) + [Iterate(c, k - 1).y < 0]
  }

  /** The companion rotated by a given list of directions. */
  function Follow(x2: int, y2: int, dirs: seq<bool>): (r: (int, int))
    decreases |dirs|
  {
    if |dirs| == 0 then (x2, y2)
    else
      var p := Follow(x2, y2, dirs[..|dirs| - 1]);
      var i := |dirs| - 1;
      if dirs[i] then (p.0 - Shift(p.1, i), p.1 + Shift(p.0, i))
      else (p.0 + Shift(p.1, i), p.1 - Shift(p.0, i))
  }

  /** The measured vector's path does not depend on the companion ... */
  lemma {:induction false} PathIgnoresCompanion(c: Cordic, a: int, b: int, k: nat)
    ensures Iterate(c.(x2 := a, y2 := b), k).x == Iterate(c, k).x
    ensures Iterate(c.(x2 := a, y2 := b), k).y == Iterate(c, k).y
  {
    if k > 0 {
      PathIgnoresCompanion(c, a, b, k - 1);
    }
  }

  /** ... and the companion undergoes exactly the rotations the measured
      vector chose. */
  lemma {:induction false} CompanionFollows(c: Cordic, k: nat)
    ensures (Iterate(c, k).x2, Iterate(c, k).y2) == Follow(c.x2, c.y2, Dirs(c, k))
  {
    if k > 0 {
      CompanionFollows(c, k - 1);
      assert Dirs(c, k)[..k - 1] == Dirs(c, k - 1);
    }
  }

  // ---------------------------------------------------------------------
  // Shear rotation
  // ---------------------------------------------------------------------

  /** The macro `R(s, x, y)`: `x -= y >> s`, then `y += x >> s` with the
      new `x`. */
  function Rot(s: nat, x: int, y: int): (r: (int, int)) {
    var x' := x - Shift(y, s);
    (x', y + Shift(x', s))
  }

  /** The shears undone in reverse order. */
  function Unrot(s: nat, x: int, y: int): (r: (int, int)) {
    var y0 := y - Shift(x, s);
    (x + Shift(y0, s), y0)
  }

  /** Each rotation step loses nothing: it is exactly invertible. */
  lemma RotInverse(s: nat, x: int, y: int)
    ensures Unrot(s, Rot(s, x, y).0, Rot(s, x, y).1) == (x, y)
    ensures Rot(s, Unrot(s, x, y).0, Unrot(s, x, y).1) == (x, y)
  {
  }

  /** The sines and cosines the main loop carries between frames. */
  datatype Angles = Angles(cA: int, sA: int, cB: int, sB: int, cAsB: int, sAsB: int, cAcB: int, sAcB: int)

  const START := Angles(11583, 11583, 16384, 0, 0, 0, 11583, 11583)

  /** The six rotations at the end of a frame, in source order; the
      fifth uses the `cAcB` the third has just updated. */
  function NextAngles(a: Angles): (r: Angles) {
    var (cA, sA) := Rot(5, a.cA, a.sA);
    var (cAsB, sAsB) := Rot(5, a.cAsB, a.sAsB);
    var (cAcB, sAcB) := Rot(5, a.cAcB, a.sAcB);
    var (cB, sB) := Rot(6, a.cB, a.sB);
    var (cAcB', cAsB') := Rot(6, cAcB, cAsB);
    var (sAcB', sAsB') := Rot(6, sAcB, sAsB);
    Angles(cA, sA, cB, sB, cAsB', sAsB', cAcB', sAcB')
  }

  function PrevAngles(a: Angles): (r: Angles) {
    var (sAcB, sAsB) := Unrot(6, a.sAcB, a.sAsB);
    var (cAcB, cAsB) := Unrot(6, a.cAcB, a.cAsB);
    var (cB, sB) := Unrot(6, a.cB, a.sB);
    var (cAcB0, sAcB0) := Unrot(5, cAcB, sAcB);
    var (cAsB0, sAsB0) := Unrot(5, cAsB, sAsB);
    var (cA, sA) := Unrot(5, a.cA, a.sA);
    Angles(cA, sA, cB, sB, cAsB0, sAsB0, cAcB0, sAcB0)
  }

  /** A frame's rotation is a bijection on the carried state. */
  lemma NextAnglesInverse(a: Angles)
    ensures PrevAngles(NextAngles(a)) == a
  {
    RotInverse(5, a.cA, a.sA);
    RotInverse(5, a.cAsB, a.sAsB);
    RotInverse(5, a.cAcB, a.sAcB);
    RotInverse(6, a.cB, a.sB);
    var (cAcB, sAcB) := Rot(5, a.cAcB, a.sAcB);
    var (cAsB, sAsB) := Rot(5, a.cAsB, a.sAsB);
    RotInverse(6, cAcB, cAsB);
    RotInverse(6, sAcB, sAsB);
  }

  // ---------------------------------------------------------------------
  // One screen cell
  // ---------------------------------------------------------------------

  const GLYPHS := ".,-~:;!*=#$@"

  /** `N > 0 ? (N < 12 ? N : 11) : 0` with `N = lz >> 9`. */
  function GlyphIndex(lz: int): (k: nat)
    ensures k < |GLYPHS|
    ensures 0 <= Shift(lz, 9) < |GLYPHS| ==> k == Shift(lz, 9)
  {
    var n := Shift(lz, 9);
    if n > 0 then (if n < 12 then n else 11) else 0
  }

  /** Brighter light never gives a darker glyph. */
  lemma GlyphMonotone(a: int, b: int)
    requires a <= b
    ensures GlyphIndex(a) <= GlyphIndex(b)
  {
    ShiftMonotone(a, b, 9);
  }

  datatype Vec3 = Vec3(x: int, y: int, z: int)

  /** A ray: start point, direction (scaled by 2^14) and light vector. */
  datatype Ray = Ray(p: Vec3, v: Vec3, l: Vec3)

  const R1I: int := 1 * 256
  const R2I: int := 2 * 256
  const DZ: int := 6

  /** Signed distance from `p` to the torus, and the `lz` the second
      length call writes back. */
  function Distance(p: Vec3, l: Vec3): (r: (int, int)) {
    var e0 := LengthCordic(p.x, p.y, l.x, l.y);
    var t1 := e0.len - R2I;
    var e1 := LengthCordic(p.z, t1, l.z, e0.comp);
    (e1.len - R1I, e1.comp)
  }

  function Advance(p: Vec3, v: Vec3, d: int): Vec3 {
    Vec3(p.x + Shift(d * v.x, 14), p.y + Shift(d * v.y, 14), p.z + Shift(d * v.z, 14))
  }

  const T_START: int := 512
  const T_FAR: int := 8 * 256

  /** The inner `for (;;)` from travelled distance `t`: a miss once `t`
      passes 2048, a hit once the step `d` is below 2.  Every other step
      has `d >= 2`, so `2049 - t` falls each time. */
  function March(ray: Ray, p: Vec3, t: int): (ch: char)
    requires t <= T_FAR
    ensures ch == ' ' || ch in GLYPHS
    decreases T_FAR + 1 - t
  {
    var (d, lz) := Distance(p, ray.l);
    if t + d > T_FAR then ' '
    else if d < 2 then GLYPHS[GlyphIndex(lz)]
    else March(ray, Advance(p, ray.v, d), t + d)
  }

  /** The cell loop as written, counting `niters`: it gives the cell's
      glyph and runs at most 768 advancing steps. */
  method MarchCell(ray: Ray) returns (ch: char, niters: nat)
    ensures ch == March(ray, ray.p, T_START)
    ensures niters <= (T_FAR - T_START) / 2
  {
    var t := T_START;
    var p := ray.p;
    niters := 0;
    while true
      invariant T_START + 2 * niters <= t <= T_FAR
      invariant March(ray, p, t) == March(ray, ray.p, T_START)
      decreases T_FAR + 1 - t
    {
      var (d, lz) := Distance(p, ray.l);
      if t + d > T_FAR {
        return ' ', niters;
      } else if d < 2 {
        return GLYPHS[GlyphIndex(lz)], niters;
      }
      p := Advance(p, ray.v, d);
      t := t + d;
      niters := niters + 1;
    }
  }

  // ---------------------------------------------------------------------
  // The frame
  // ---------------------------------------------------------------------

  const ROWS: nat := 23
  const COLS: nat := 79

  function Origin(a: Angles): Vec3 {
    Vec3(Shift(DZ * a.sB, 6), Shift(DZ * a.sAcB, 6), Shift(-DZ * a.cAcB, 6))
  }

  function Light(a: Angles): Vec3 {
    Vec3(Shift(a.sB, 2), Shift(a.sAcB - a.cA, 2), Shift(-a.cAcB - a.sA, 2))
  }

  /** `ycA` and `ysA` after `j` rows of the outer loop's increments. */
  function RowCos(a: Angles, j: nat): (int, int) {
    if j == 0 then (-(Shift(a.cA, 1) + Shift(a.cA, 4)), -(Shift(a.sA, 1) + Shift(a.sA, 4)))
    else
      var prev := RowCos(a, j - 1);
      (prev.0 + (Shift(a.cA, 6) + Shift(a.cA, 5)), prev.1 + (Shift(a.sA, 6) + Shift(a.sA, 5)))
  }

  /** After `j` rows `ycA` and `ysA` have gained `j` times their
      per-row increments `yincC` and `yincS`. */
  lemma {:induction false} RowCosClosedForm(a: Angles, j: nat)
    ensures RowCos(a, j) == (-(Shift(a.cA, 1) + Shift(a.cA, 4)) + j * (Shift(a.cA, 6) + Shift(a.cA, 5)),
                             -(Shift(a.sA, 1) + Shift(a.sA, 4)) + j * (Shift(a.sA, 6) + Shift(a.sA, 5)))
  {
    if j > 0 {
      RowCosClosedForm(a, j - 1);
      var c, s := Shift(a.cA, 6) + Shift(a.cA, 5), Shift(a.sA, 6) + Shift(a.sA, 5);
      assert (j - 1) * c + c == j * c;
      assert (j - 1) * s + s == j * s;
    }
  }

  /** The direction at the start of row `j`. */
  function RowStart(a: Angles, j: nat): Vec3 {
    var (ycA, ysA) := RowCos(a, j);
    Vec3(Shift(a.cB, 4) - a.cB - a.sB,
         ycA - (Shift(a.sAsB, 4) - a.sAsB) - a.sAcB,
         ysA + (Shift(a.cAsB, 4) - a.cAsB) + a.cAcB)
  }

  /** The per-column increments of the direction. */
  function ColStep(a: Angles): Vec3 {
    Vec3(Shift(a.cB, 7) + Shift(a.cB, 6), Shift(a.sAsB, 7) + Shift(a.sAsB, 6), Shift(a.cAsB, 7) + Shift(a.cAsB, 6))
  }

  /** The direction of cell `(j, i)`, accumulated as the inner loop does. */
  function Dir(a: Angles, j: nat, i: nat): Vec3 {
    if i == 0 then RowStart(a, j)
    else
      var v := Dir(a, j, i - 1);
      var s := ColStep(a);
      Vec3(v.x + s.x, v.y - s.y, v.z + s.z)
  }

  /** The accumulated increments are a linear function of the column. */
  lemma {:induction false} DirClosedForm(a: Angles, j: nat, i: nat)
    ensures var v0, s := RowStart(a, j), ColStep(a);
      Dir(a, j, i) == Vec3(v0.x + i * s.x, v0.y - i * s.y, v0.z + i * s.z)
  {
    if i > 0 {
      DirClosedForm(a, j, i - 1);
      var s := ColStep(a);
      assert (i - 1) * s.x + s.x == i * s.x;
      assert (i - 1) * s.y + s.y == i * s.y;
      assert (i - 1) * s.z + s.z == i * s.z;
    }
  }

  function CellRay(a: Angles, j: nat, i: nat): Ray {
    var v := Dir(a, j, i);
    var o := Origin(a);
    Ray(Vec3(o.x + Shift(v.x, 5), o.y + Shift(v.y, 5), o.z + Shift(v.z, 5)), v, Light(a))
  }

  function Cell(a: Angles, j: nat, i: nat): (ch: char)
    ensures ch == ' ' || ch in GLYPHS
  {
    var r := CellRay(a, j, i);
    March(r, r.p, T_START)
  }

  /** One printed row: its glyphs, then byte 10. */
  function Row(a: Angles, j: nat): (r: seq<char>)
    ensures |r| == COLS + 1
  {
    seq(COLS, i requires 0 <= i < COLS => Cell(a, j, i)) + [10 as char]
  }

  function Rows(a: Angles, n: nat): (r: seq<char>)
    ensures |r| == n * (COLS + 1)
  {
    if n == 0 then [] else Rows(a, n - 1) + Row(a, n - 1)
  }

  /** The cursor-up sequence `ESC [ 2 3 A` that ends a frame. */
  const CURSOR_UP: seq<char> := [27 as char, 91 as char, '2', '3', 'A']

  /** The bytes one pass of the `for (;;)` prints. */
  function Frame(a: Angles): seq<char> {
    Rows(a, ROWS) + CURSOR_UP
  }

  lemma {:induction false} RowsIndex(a: Angles, n: nat, j: nat, i: nat)
    requires j < n && i <= COLS
    ensures Rows(a, n)[j * (COLS + 1) + i] == Row(a, j)[i]
  {
    var pre, row := Rows(a, n - 1), Row(a, n - 1);
    RowStartBound(j, n, i);
    AppendIndex(pre, row, j * (COLS + 1) + i);
    if j < n - 1 {
      RowsIndex(a, n - 1, j, i);
      RowStartBound(j, n - 1, i);
    }
  }

  lemma AppendIndex<T>(x: seq<T>, y: seq<T>, k: nat)
    requires k < |x| + |y|
    ensures (x + y)[k] == if k < |x| then x[k] else y[k - |x|]
  {
  }

  /** A position in row `j` lies before the start of row `m > j`. */
  lemma RowStartBound(j: nat, m: nat, i: nat)
    requires j < m && i <= COLS
    ensures j * (COLS + 1) + i < m * (COLS + 1)
  {
    MulMono(j + 1, m, COLS + 1);
    assert (j + 1) * (COLS + 1) == j * (COLS + 1) + (COLS + 1);
  }

  /** A frame is 23 rows of 79 glyphs and a newline, then the
      cursor-up sequence. */
  lemma FrameLayout(a: Angles, j: nat, i: nat)
    requires j < ROWS && i < COLS
    ensures |Frame(a)| == ROWS * (COLS + 1) + 5
    ensures Frame(a)[j * (COLS + 1) + i] == Cell(a, j, i)
    ensures Frame(a)[j * (COLS + 1) + COLS] == 10 as char
    ensures Frame(a)[ROWS * (COLS + 1)..] == CURSOR_UP
  {
    RowsIndex(a, ROWS, j, i);
    RowsIndex(a, ROWS, j, COLS);
  }
}
