/** The window-size rule of the filter dialog: the typed integer `k` becomes `k | 1`. */
module MaskSize {

  function Abs(a: int): nat
  {
    if a < 0 then -a else a
  }

  /** Python's `a | b` on unbounded integers, which behave as infinite two's-complement
      bit strings: 0 is all zeros, -1 is all ones, and every other value splits into
      its lowest bit `a % 2` and the rest `a / 2` (both floor-based for divisor 2). */
  function BitOr(a: int, b: int): int
    decreases Abs(a) + Abs(b)
  {
    if (a == 0 || a == -1) && (b == 0 || b == -1) then
      (if a == -1 || b == -1 then -1 else 0)
    else
      2 * BitOr(a / 2, b / 2) + (if a % 2 == 1 || b % 2 == 1 then 1 else 0)
  }

  /** Or-ing with zero sets no bit. */
  lemma {:induction false} BitOrZero(a: int)
    ensures BitOr(a, 0) == a
    decreases Abs(a)
  {
    if a != 0 && a != -1 {
      BitOrZero(a / 2);
    }
  }

  /** Or-ing with one sets only the lowest bit: an even `k` goes up by one, an odd `k` stays. */
  lemma {:induction false} BitOrOne(k: int)
    ensures BitOr(k, 1) == if k % 2 == 0 then k + 1 else k
  {
    BitOrZero(k / 2);
  }

  /** `k = int(entry.get()) | 1`: the window side actually used for a requested `k`.
      It is odd, it is `k` or the next integer, and it is `k` exactly when `k` is odd. */
  function MaskSize(k: int): (r: int)
    ensures r % 2 == 1
    ensures k <= r <= k + 1
    ensures r == k <==> k % 2 == 1
  {
    BitOrOne(k);
    BitOr(k, 1)
  }

  /** Requesting an even size `2m` gives the same window as requesting `2m + 1`
      (a request of 4 behaves like a request of 5). */
  lemma SameWindowForEvenAndNextOdd(m: int)
    ensures MaskSize(2 * m) == MaskSize(2 * m + 1) == 2 * m + 1
  {
  }

  /** The default request "3" stays 3, and a request of 4 becomes 5. */
  lemma {:induction false} MaskSizeExamples()
    ensures MaskSize(3) == 3 && MaskSize(4) == 5
  {
  }
}
