/** The one piece of the binarisation stage of `ProcessImage` that is not a
    call into the vision library: the block size handed to adaptive thresholding. */
module Binarization {
  import opened CSharpInt

  /** `adaptiveThresholdBlockSize + adaptiveThresholdBlockSize % 2 + 1` in C# `int`
      arithmetic. Adaptive thresholding needs an odd block size: the result is
      odd for every `int`, and it is the next odd number above n whenever n is
      not negative (and not the largest `int`, where the sum wraps around). */
  function BlockSize(n: int): (r: int)
    requires IsInt32(n)
    ensures IsInt32(r)
    ensures r % 2 == 1
    ensures 0 <= n < MaxValue ==> r > n && r == (if n % 2 == 0 then n + 1 else n + 2)
    ensures n < 0 ==> r == (if n % 2 == 0 then n + 1 else n)
    ensures n == MaxValue ==> r == MinValue + 1
  {
    Wrap(n + Rem(n, 2) + 1)
  }
}
