/**
 * Offsets and ranges into the source text, as the parser's helpers use them.
 *
 * A `TextSize` is an unsigned 32-bit offset. Overflow and underflow of its
 * arithmetic (a panic with overflow checks on, a wrap-around otherwise)
 * are excluded by a precondition on every operation here that adds or
 * subtracts. A `TextRange` is a half-open pair of offsets whose start
 * never exceeds its end.
 */
module Text {

  /** Largest value of an unsigned 32-bit offset. */
  const MAX_TEXT_SIZE: nat := 0xFFFF_FFFF

  /** An offset into the source text (a `u32`). */
  type TextSize = n: nat | n <= MAX_TEXT_SIZE

  datatype Span = Span(start: TextSize, end: TextSize)

  /** A half-open range `[start, end)`; constructing one with start > end panics. */
  type TextRange = s: Span | s.start <= s.end witness Span(0, 0)

  /** Number of offsets the range covers. */
  function Len(r: TextRange): (n: TextSize)
    ensures r.start + n == r.end
  {
    r.end - r.start
  }

  /** True when `inner` lies within `outer`. */
  predicate ContainsRange(outer: TextRange, inner: TextRange)
  {
    outer.start <= inner.start && inner.end <= outer.end
  }

  /**
   * The range with its start moved right by `amount`. The addition must not
   * overflow and the new start must not pass the end.
   */
  function AddStart(r: TextRange, amount: TextSize): (r': TextRange)
    requires amount <= Len(r)
    ensures r'.end == r.end && r'.start - r.start == amount
    ensures ContainsRange(r, r')
  {
    Span(r.start + amount, r.end)
  }

  /**
   * The range with its end moved left by `amount`. The subtraction must not
   * underflow and the new end must not pass the start.
   */
  function SubEnd(r: TextRange, amount: TextSize): (r': TextRange)
    requires amount <= Len(r)
    ensures r'.start == r.start && r.end - r'.end == amount
    ensures ContainsRange(r, r')
  {
    Span(r.start, r.end - amount)
  }
}
