/** The benchmark driver `main`: it derives `CONSTANT` from the run parameters,
    gives each of the five layouts its own output buffer of `njobs * nthreads`
    doubles, lets the benchmark harness run each layout one or more times, and
    finally compares the buffers element by element, throwing on a mismatch. */
module Driver {
  import opened Partition
  import opened Geometry
  import Naive
  import Spaced
  import Aligned
  import NewAligned
  import NewVector

  /** How `main` ends: it returns an exit code, or a `std::runtime_error` escapes. */
  datatype Exit = Returned(code: int) | Threw(message: string)

  /** `CONSTANT = niter * nthreads + njobs`: run-time data, so the compiler
      cannot fold the computation away. */
  function Constant(niter: nat, nthreads: nat, njobs: nat): (c: int)
    ensures c >= njobs && c >= niter * nthreads
  {
    niter * nthreads + njobs
  }

  /** The parameters for which `main` stays inside `int` arithmetic and exact
      doubles: `InRange` for the layouts' partitions and values, and the scratch
      buffer's `DOUBLES_PER_CACHE_LINE + njobs` and its size `(DOUBLES_PER_CACHE_LINE
      + njobs) * nthreads` as `int`s (the first is not implied by the second when
      `nthreads` is 0). */
  predicate DriverInRange(niter: nat, nthreads: nat, njobs: nat, lineSize: nat)
  {
    && InRange(nthreads, njobs, niter, Constant(niter, nthreads, njobs))
    && IsInt(DoublesPerLine(lineSize) + njobs)
    && IsInt(ScratchSize(nthreads, njobs, DoublesPerLine(lineSize)))
  }

  /** The element-wise comparison at the end of `main`, as written: index `i` is
      compared for `naive`, `aligned`, `spaced` and again `aligned` against
      `new_vector`; `new_aligned` is passed but never read. It passes iff every
      index of `naive` agrees in those three buffers with `new_vector`. */
  method CrossCheck(naive: array<int>, spaced: array<int>, aligned: array<int>,
                    newAligned: array<int>, newVector: array<int>)
    returns (passed: bool)
    requires spaced.Length >= naive.Length && aligned.Length >= naive.Length
    requires newVector.Length >= naive.Length
    ensures passed <==> forall i :: 0 <= i < naive.Length ==>
      naive[i] == newVector[i] && aligned[i] == newVector[i] && spaced[i] == newVector[i]
  {
    var i := 0;
    while i < naive.Length
      invariant i <= naive.Length
      invariant forall k :: 0 <= k < i ==>
        naive[k] == newVector[k] && aligned[k] == newVector[k] && spaced[k] == newVector[k]
    {
      if naive[i] != newVector[i] || aligned[i] != newVector[i] || spaced[i] != newVector[i] || aligned[i] != newVector[i] {
        return false;
      }
      i := i + 1;
    }
    return true;
  }

  /** The five layouts, in the order `main` benchmarks them. */
  datatype Layout = NaiveLayout | SpacedLayout | AlignedLayout | NewAlignedLayout | NewVectorLayout

  /** Running a layout `runs >= 1` times on a buffer of exactly `njobs * nthreads`
      elements leaves `Output` in it: every run rewrites every element, so later
      runs do not change what the first one produced. */
  method Repeat(layout: Layout, runs: nat, nthreads: nat, njobs: nat, niter: nat, constant: int,
                lineSize: nat, buffer: array<int>)
    requires runs >= 1
    requires ValidLineSize(lineSize)
    requires InRange(nthreads, njobs, niter, constant)
    requires IsInt(DoublesPerLine(lineSize) + njobs) && IsInt(ScratchSize(nthreads, njobs, DoublesPerLine(lineSize)))
    requires buffer.Length == nthreads * njobs
    modifies buffer
    ensures buffer[..] == Output(nthreads, njobs, niter, constant)
  {
    var r := 0;
    while r < runs
      invariant r <= runs
      invariant r > 0 ==> buffer[..] == Output(nthreads, njobs, niter, constant)
    {
      if layout == NaiveLayout {
        Naive.RunNaive(nthreads, njobs, niter, constant, buffer);
      } else if layout == SpacedLayout {
        var _ := Spaced.RunSpaced(nthreads, njobs, niter, constant, lineSize, buffer);
      } else if layout == AlignedLayout {
        var _, _, _ := Aligned.RunAligned(nthreads, njobs, niter, constant, lineSize, buffer);
      } else if layout == NewAlignedLayout {
        NewAligned.RunNewAligned(nthreads, njobs, niter, constant, buffer);
      } else {
        NewVector.RunNewVector(nthreads, njobs, niter, constant, buffer);
      }
      assert buffer[..] == Output(nthreads, njobs, niter, constant);
      r := r + 1;
    }
  }

  /** `main` after option parsing, for a cache line of `lineSize` bytes; `runs[s]`
      is how often the benchmark harness ran layout `s` (naive, spaced, aligned,
      new-aligned, new-vector), at least once each. Every buffer ends up holding
      `Output`, so the check passes and `main` returns 0. */
  method Run(niter: nat, nthreads: nat, njobs: nat, lineSize: nat, runs: seq<nat>)
    returns (exit: Exit, ghost buffers: seq<seq<int>>)
    requires ValidLineSize(lineSize)
    requires DriverInRange(niter, nthreads, njobs, lineSize)
    requires |runs| == 5 && forall s :: 0 <= s < 5 ==> runs[s] >= 1
    ensures exit == Returned(0)
    ensures |buffers| == 5
    ensures forall s :: 0 <= s < 5 ==> buffers[s] == Output(nthreads, njobs, niter, Constant(niter, nthreads, njobs))
  {
    var constant := Constant(niter, nthreads, njobs);
    ghost var expected := Output(nthreads, njobs, niter, constant);
    var size := njobs * nthreads;
    assert size == nthreads * njobs;
    var naive := new int[size](_ => 0);
    Repeat(NaiveLayout, runs[0], nthreads, njobs, niter, constant, lineSize, naive);
    assert naive[..] == expected;
    var spaced := new int[size](_ => 0);
    Repeat(SpacedLayout, runs[1], nthreads, njobs, niter, constant, lineSize, spaced);
    assert spaced[..] == expected;
    var aligned := new int[size](_ => 0);
    Repeat(AlignedLayout, runs[2], nthreads, njobs, niter, constant, lineSize, aligned);
    assert aligned[..] == expected;
    var newAligned := new int[size](_ => 0);
    Repeat(NewAlignedLayout, runs[3], nthreads, njobs, niter, constant, lineSize, newAligned);
    assert newAligned[..] == expected;
    var newVector := new int[size](_ => 0);
    Repeat(NewVectorLayout, runs[4], nthreads, njobs, niter, constant, lineSize, newVector);
    assert newVector[..] == expected;
    assert naive[..] == spaced[..] == aligned[..] == newAligned[..] == newVector[..] == expected;
    buffers := [naive[..], spaced[..], aligned[..], newAligned[..], newVector[..]];
    assert buffers == [expected, expected, expected, expected, expected];
    forall i | 0 <= i < naive.Length
      ensures naive[i] == newVector[i] && aligned[i] == newVector[i] && spaced[i] == newVector[i]
    {
      assert naive[..][i] == aligned[..][i] == spaced[..][i] == newVector[..][i];
    }
    var passed := CrossCheck(naive, spaced, aligned, newAligned, newVector);
    assert passed;
    if !passed {
      return Threw("oops"), buffers;
    }
    return Returned(0), buffers;
  }
}
