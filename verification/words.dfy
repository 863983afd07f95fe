/** Machine integers of the compiler and its interpreters.

    `Word` is the compiler's cell and stack-slot type (`u16`), and
    `WORD_SIZE` the number of bytes in a word.  Rust's unsigned types are
    modelled as subset types of `int`; every wrap-around the source asks
    for (`wrapping_add`, an `as` cast) is written out with `%`.
 */
module Words {

  const WORD_BITS: nat := 16
  const WORD_MOD: nat := 0x1_0000
  /** Bytes per word: `Word::BITS / 8`. */
  const WORD_SIZE: nat := 2

  type U8 = x: int | 0 <= x < 0x100
  type Word = x: int | 0 <= x < 0x1_0000
  type U32 = x: int | 0 <= x < 0x1_0000_0000
  type U64 = x: int | 0 <= x < 0x1_0000_0000_0000_0000

  /** Reduction modulo 2^16, the effect of `wrapping_add`, `wrapping_sub`
      and of an `as u16` cast. */
  function Wrap16(x: int): (r: Word)
  {
    x % WORD_MOD
  }

  /** The low byte, the effect of an `as u8` cast. */
  function LowByte(x: int): (r: U8)
    ensures (r - x) % 0x100 == 0
  {
    x % 0x100
  }

  function And16(a: Word, b: Word): Word {
    ((a as bv16) & (b as bv16)) as int
  }

  function Or16(a: Word, b: Word): Word {
    ((a as bv16) | (b as bv16)) as int
  }

  function Xor16(a: Word, b: Word): Word {
    ((a as bv16) ^ (b as bv16)) as int
  }

  /** `n` copies of `x`. */
  function Repeat<T>(x: T, n: nat): (r: seq<T>)
    ensures |r| == n
    ensures forall i :: 0 <= i < n ==> r[i] == x
  {
    if n == 0 then [] else [x] + Repeat(x, n - 1)
  }

  /** `2^n`. */
  function Pow2(n: nat): (r: nat)
    ensures r >= 1
  {
    if n == 0 then 1 else 2 * Pow2(n - 1)
  }

  /** Euclidean division by a positive divisor rounds toward minus
      infinity, and never grows a non-negative dividend. */
  lemma DivBounds(r: int, d: int)
    requires d > 0
    ensures (r / d) * d <= r < (r / d + 1) * d
    ensures r >= 0 <==> r / d >= 0
    ensures r >= 0 ==> r / d <= r
  {
    var q, m := r / d, r % d;
    assert r == q * d + m && 0 <= m < d;
    assert (q + 1) * d == q * d + d;
    if q < 0 {
      MulMono(q, -1, d);
    } else {
      MulMono(0, q, d);
      MulMono(1, d, q);
    }
  }

  lemma MulMono(a: int, b: int, d: nat)
    requires a <= b
    ensures a * d <= b * d
  {
  }
}
