/**
 * The string hash folded over the characters of a row's text when no native id
 * exists (content.js:121-124). Each step multiplies the accumulator by 31 and adds the
 * character code, starting from 0. The shift and the bitwise and the source uses work
 * on signed 32-bit integers, so each step wraps modulo 2^32.
 */
module StringHash {

  const TWO_32: int := 0x1_0000_0000
  const TWO_31: int := 0x8000_0000

  predicate IsInt32(x: int) {
    -TWO_31 <= x < TWO_31
  }

  /** ECMAScript ToInt32 on an integral number: the signed 32-bit value congruent to `x`. */
  function ToInt32(x: int): (r: int)
    ensures IsInt32(r)
    ensures (r - x) % TWO_32 == 0
  {
    var m := x % TWO_32;
    if m >= TWO_31 then m - TWO_32 else m
  }

  /**
   * One step of the fold as the source computes it: the accumulator times 32, wrapped to
   * 32 bits, minus the accumulator plus the character code, wrapped again.
   */
  function HashStep(a: int, c: char): int {
    var shifted := ToInt32(a * 32);
    ToInt32(shifted - a + c as int)
  }

  /** The fold of `HashStep` over the characters of `s`, from 0. */
  function Hash(s: string): (h: int)
    ensures IsInt32(h)
  {
    if s == [] then 0 else HashStep(Hash(s[..|s| - 1]), s[|s| - 1])
  }

  /** The unbounded polynomial sum of `code(s[i]) * 31^(|s|-1-i)` that the fold approximates. */
  function Polynomial(s: string): int {
    if s == [] then 0 else 31 * Polynomial(s[..|s| - 1]) + s[|s| - 1] as int
  }

  /** ToInt32 depends only on the residue modulo 2^32. */
  lemma ToInt32Shift(x: int, k: int)
    ensures ToInt32(x + k * TWO_32) == ToInt32(x)
  {
    assert (x + k * TWO_32) % TWO_32 == x % TWO_32;
  }

  /** ToInt32 moves its argument by a whole multiple of 2^32. */
  lemma ToInt32Offset(x: int) returns (k: int)
    ensures ToInt32(x) == x + k * TWO_32
  {
    var m := x % TWO_32;
    assert x == (x / TWO_32) * TWO_32 + m;
    k := if m >= TWO_31 then -(x / TWO_32) - 1 else -(x / TWO_32);
  }

  /** After each character the accumulator is `31 * a + code` wrapped to a signed 32-bit integer. */
  lemma HashStepWraps(a: int, c: char)
    ensures HashStep(a, c) == ToInt32(31 * a + c as int)
    ensures IsInt32(HashStep(a, c))
  {
    var k := ToInt32Offset(a * 32);
    assert ToInt32(a * 32) - a + c as int == (31 * a + c as int) + k * TWO_32;
    ToInt32Shift(31 * a + c as int, k);
  }

  /** The fold equals the polynomial hash reduced once, at the end, to a signed 32-bit value. */
  lemma {:induction false} HashIsWrappedPolynomial(s: string)
    ensures Hash(s) == ToInt32(Polynomial(s))
  {
    if s != [] {
      var p := s[..|s| - 1];
      var c := s[|s| - 1];
      HashIsWrappedPolynomial(p);
      HashStepWraps(Hash(p), c);
      var k := ToInt32Offset(Polynomial(p));
      assert 31 * Hash(p) + c as int == (31 * Polynomial(p) + c as int) + (31 * k) * TWO_32;
      ToInt32Shift(31 * Polynomial(p) + c as int, 31 * k);
    }
  }

  /** Appending a character to the hashed text takes one more step from the previous value. */
  lemma HashSnoc(s: string, c: char)
    ensures Hash(s + [c]) == ToInt32(31 * Hash(s) + c as int)
  {
    assert (s + [c])[..|s|] == s;
    HashStepWraps(Hash(s), c);
  }
}
