/** Cache-line geometry shared by the padded and aligned layouts.

    `CACHE_LINE_SIZE` is a build-time constant for the files under src/ and is
    fixed at 128 in the single-file benchmark; the layouts only rely on it being
    a power of two (a requirement of `std::align`) that holds whole doubles. */
module Geometry {

  predicate IsPowerOfTwo(n: nat)
    decreases n
  {
    n == 1 || (n >= 2 && n % 2 == 0 && IsPowerOfTwo(n / 2))
  }

  /** A cache-line size the layouts can use: a power of two of at least one
      double (`sizeof(double)` is 8 bytes throughout). */
  predicate ValidLineSize(lineSize: nat)
  {
    IsPowerOfTwo(lineSize) && lineSize >= 8
  }

  /** `DOUBLES_PER_CACHE_LINE = CACHE_LINE_SIZE / sizeof(double)`. */
  function DoublesPerLine(lineSize: nat): (r: nat)
    ensures 8 * r <= lineSize < 8 * r + 8
  {
    lineSize / 8
  }

  /** Number of doubles in the shared scratch buffer `common` of the padded and
      aligned layouts: `(DOUBLES_PER_CACHE_LINE + njobs) * nthreads`. */
  function ScratchSize(nthreads: nat, njobs: nat, dpl: nat): (r: nat)
  {
    (dpl + njobs) * nthreads
  }

  /** The scratch buffer is `nthreads` working regions of `njobs` doubles plus
      one line's worth of doubles of slack per thread; with at least one thread
      it holds at least one region and one line. */
  lemma ScratchRegions(nthreads: nat, njobs: nat, dpl: nat)
    ensures ScratchSize(nthreads, njobs, dpl) == nthreads * njobs + nthreads * dpl
    ensures nthreads > 0 ==> njobs + dpl <= ScratchSize(nthreads, njobs, dpl)
  {
    var width := dpl + njobs;
    assert width * nthreads == dpl * nthreads + njobs * nthreads;
    if nthreads > 0 {
      var rest: nat := nthreads - 1;
      assert width * nthreads == width * rest + width;
    }
  }

  /** A valid line is a whole number (at least one) of doubles, so the integer
      division defining `DOUBLES_PER_CACHE_LINE` loses nothing. */
  lemma {:induction false} LineHoldsWholeDoubles(lineSize: nat)
    requires ValidLineSize(lineSize)
    ensures lineSize % 8 == 0
    ensures DoublesPerLine(lineSize) >= 1
    ensures DoublesPerLine(lineSize) * 8 == lineSize
    decreases lineSize
  {
    var half := lineSize / 2;
    if half >= 8 {
      LineHoldsWholeDoubles(half);
    } else {
      // the only power of two in [4, 8) is 4
      assert !IsPowerOfTwo(3);
      assert IsPowerOfTwo(half) && 4 <= half < 8;
    }
  }

  /** Every multiple of a valid line size is a multiple of `sizeof(double)`. */
  lemma LineMultipleIsDoubleMultiple(x: nat, lineSize: nat)
    requires ValidLineSize(lineSize) && x % lineSize == 0
    ensures x % 8 == 0
  {
    LineHoldsWholeDoubles(lineSize);
    var q := x / lineSize;
    var d := DoublesPerLine(lineSize);
    assert x == q * lineSize;
    assert x == (q * d) * 8;
  }

  /** 128 bytes, the line size of the single-file benchmark, is a usable cache
      line of 16 doubles. */
  lemma Line128()
    ensures ValidLineSize(128) && DoublesPerLine(128) == 16
  {
    assert IsPowerOfTwo(1) && IsPowerOfTwo(2) && IsPowerOfTwo(4) && IsPowerOfTwo(8);
    assert IsPowerOfTwo(16) && IsPowerOfTwo(32) && IsPowerOfTwo(64);
  }
}
