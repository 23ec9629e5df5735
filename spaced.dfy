/** `run_spaced`: the threads work in a shared scratch buffer `common` of
    `(DOUBLES_PER_CACHE_LINE + njobs) * nthreads` doubles, thread `t` at the fixed
    stride `t * njobs + DOUBLES_PER_CACHE_LINE * t`, so a full cache line of
    padding separates neighbouring regions; each region is then copied into the
    thread's partition of `output`. */
module Spaced {
  import opened Kernel
  import opened Partition
  import opened Geometry
  import opened Worker

  /** Index in `common` of thread `t`'s region: `start + DOUBLES_PER_CACHE_LINE * t`. */
  function SpacedStart(t: nat, njobs: nat, dpl: nat): (r: nat)
    ensures r == t * (njobs + dpl)
  {
    t * njobs + dpl * t
  }

  predicate InSpacedRegion(k: int, t: nat, njobs: nat, dpl: nat)
  {
    SpacedStart(t, njobs, dpl) <= k < SpacedStart(t, njobs, dpl) + njobs
  }

  /** `k` belongs to no thread's region. */
  predicate IsPadding(k: int, nthreads: nat, njobs: nat, dpl: nat)
  {
    forall u: nat :: u < nthreads ==> !InSpacedRegion(k, u, njobs, dpl)
  }

  /** Thread `t`'s region, followed by its `dpl` elements of padding, lies inside `common`. */
  lemma SpacedRegionInScratch(t: nat, nthreads: nat, njobs: nat, dpl: nat)
    requires t < nthreads
    ensures SpacedStart(t, njobs, dpl) + njobs + dpl <= ScratchSize(nthreads, njobs, dpl)
  {
    MulLeq(t + 1, nthreads, dpl + njobs);
  }

  /** With the scratch size an `int`, so are `DOUBLES_PER_CACHE_LINE * t` and the
      offset `start + DOUBLES_PER_CACHE_LINE * t` of thread `t`'s region. */
  lemma SpacedNoOverflow(t: nat, nthreads: nat, njobs: nat, dpl: nat)
    requires t < nthreads && IsInt(ScratchSize(nthreads, njobs, dpl))
    ensures IsInt(dpl * t) && IsInt(SpacedStart(t, njobs, dpl))
  {
    SpacedRegionInScratch(t, nthreads, njobs, dpl);
    MulLeq(0, t, njobs);
  }

  /** Exactly `dpl` elements separate the end of thread `t`'s region from the start of thread `t + 1`'s. */
  lemma SpacedGap(t: nat, njobs: nat, dpl: nat)
    ensures SpacedStart(t + 1, njobs, dpl) == SpacedStart(t, njobs, dpl) + njobs + dpl
  {
  }

  /** Any earlier thread's region ends at least `dpl` elements before a later thread's starts. */
  lemma SpacedRegionsSeparated(t1: nat, t2: nat, njobs: nat, dpl: nat)
    requires t1 < t2
    ensures SpacedStart(t1, njobs, dpl) + njobs + dpl <= SpacedStart(t2, njobs, dpl)
  {
    MulLeq(t1 + 1, t2, njobs + dpl);
  }

  /** No element lies in two threads' regions. */
  lemma SpacedRegionsDisjoint(k: int, t1: nat, t2: nat, njobs: nat, dpl: nat)
    requires InSpacedRegion(k, t1, njobs, dpl) && InSpacedRegion(k, t2, njobs, dpl)
    ensures t1 == t2
  {
    if t1 < t2 {
      SpacedRegionsSeparated(t1, t2, njobs, dpl);
    } else if t2 < t1 {
      SpacedRegionsSeparated(t2, t1, njobs, dpl);
    }
  }

  /** The scratch buffer after threads `0 .. t - 1`: their regions hold their blocks,
      every other element is still zero. */
  ghost predicate ScratchAfter(scratch: seq<int>, t: nat, njobs: nat, niter: nat, constant: int, dpl: nat)
  {
    forall k :: 0 <= k < |scratch| ==>
      if exists u: nat :: u < t && InSpacedRegion(k, u, njobs, dpl)
      then forall u: nat :: u < t && InSpacedRegion(k, u, njobs, dpl) ==>
             scratch[k] == constant + u * njobs + (k - SpacedStart(u, njobs, dpl)) + niter * u
      else scratch[k] == 0
  }

  /** Thread `t`'s body keeps `ScratchAfter` one thread further. */
  lemma ScratchStep(before: seq<int>, t: nat, nthreads: nat, njobs: nat, niter: nat, constant: int, dpl: nat)
    requires t < nthreads && |before| == ScratchSize(nthreads, njobs, dpl)
    requires ScratchAfter(before, t, njobs, niter, constant, dpl)
    ensures SpacedStart(t, njobs, dpl) + njobs <= |before|
    ensures ScratchAfter(Splice(before, SpacedStart(t, njobs, dpl), Block(t, njobs, niter, constant)),
                         t + 1, njobs, niter, constant, dpl)
  {
    SpacedRegionInScratch(t, nthreads, njobs, dpl);
    var off := SpacedStart(t, njobs, dpl);
    var after := Splice(before, off, Block(t, njobs, niter, constant));
    forall k | 0 <= k < |after|
      ensures if exists u: nat :: u < t + 1 && InSpacedRegion(k, u, njobs, dpl)
              then forall u: nat :: u < t + 1 && InSpacedRegion(k, u, njobs, dpl) ==>
                     after[k] == constant + u * njobs + (k - SpacedStart(u, njobs, dpl)) + niter * u
              else after[k] == 0
    {
      SpliceAt(before, off, Block(t, njobs, niter, constant), k);
      if InSpacedRegion(k, t, njobs, dpl) {
        forall u: nat | u < t + 1 && InSpacedRegion(k, u, njobs, dpl) ensures u == t {
          SpacedRegionsDisjoint(k, u, t, njobs, dpl);
        }
      } else {
        assert after[k] == before[k];
        assert (exists u: nat :: u < t + 1 && InSpacedRegion(k, u, njobs, dpl))
           == (exists u: nat :: u < t && InSpacedRegion(k, u, njobs, dpl));
      }
    }
  }

  /** Once every thread has run, padding elements are still zero and each region
      holds its thread's block. */
  lemma ScratchFinal(scratch: seq<int>, nthreads: nat, njobs: nat, niter: nat, constant: int, dpl: nat)
    requires ScratchAfter(scratch, nthreads, njobs, niter, constant, dpl)
    ensures forall k :: 0 <= k < |scratch| && IsPadding(k, nthreads, njobs, dpl) ==> scratch[k] == 0
    ensures forall k, u: nat :: 0 <= k < |scratch| && u < nthreads && InSpacedRegion(k, u, njobs, dpl) ==>
              scratch[k] == constant + u * njobs + (k - SpacedStart(u, njobs, dpl)) + niter * u
  {
  }

  /** Thread `t`'s body: the kernel runs on its region of `common`, at the fixed
      stride, and the region is copied into the thread's partition of `output`. */
  method SpacedThread(t: nat, nthreads: nat, njobs: nat, niter: nat, constant: int, dpl: nat,
                      common: array<int>, output: array<int>)
    requires t < nthreads && common.Length == ScratchSize(nthreads, njobs, dpl)
    requires t * njobs + njobs <= output.Length && common != output
    requires ScratchAfter(common[..], t, njobs, niter, constant, dpl)
    modifies common, output
    ensures ScratchAfter(common[..], t + 1, njobs, niter, constant, dpl)
    ensures output[..] == ThreadWrite(old(output[..]), t, njobs, niter, constant)
  {
    ScratchStep(common[..], t, nthreads, njobs, niter, constant, dpl);
    var start := t * njobs;
    assert start + dpl * t == SpacedStart(t, njobs, dpl);
    ComputeAndCopy(t, njobs, niter, constant, common, start + dpl * t, output);
  }

  /** `run_spaced`. Besides the output, it reports what the scratch buffer held
      when the threads were done: `(DOUBLES_PER_CACHE_LINE + njobs) * nthreads`
      elements as `ScratchAfter` all threads describes them, so that (`ScratchFinal`)
      the padding between regions was never written (still zero) and each thread's
      region holds that thread's values. */
  method RunSpaced(nthreads: nat, njobs: nat, niter: nat, constant: int, lineSize: nat, output: array<int>)
    returns (ghost scratch: seq<int>)
    requires ValidLineSize(lineSize)
    requires InRange(nthreads, njobs, niter, constant)
    requires IsInt(DoublesPerLine(lineSize) + njobs) && IsInt(ScratchSize(nthreads, njobs, DoublesPerLine(lineSize)))
    requires nthreads * njobs <= output.Length
    modifies output
    ensures output[..] == Output(nthreads, njobs, niter, constant) + old(output[..])[nthreads * njobs..]
    ensures |scratch| == ScratchSize(nthreads, njobs, DoublesPerLine(lineSize))
    ensures ScratchAfter(scratch, nthreads, njobs, niter, constant, DoublesPerLine(lineSize))
  {
    var dpl := DoublesPerLine(lineSize);
    var common := new int[(dpl + njobs) * nthreads](_ => 0);
    ghost var size := ScratchSize(nthreads, njobs, dpl);
    assert common.Length == size;
    var t := 0;
    while t < nthreads
      invariant t <= nthreads && common.Length == size
      invariant output[..] == ApplyThreads(old(output[..]), Range(t), nthreads, njobs, niter, constant)
      invariant ScratchAfter(common[..], t, njobs, niter, constant, dpl)
    {
      SpawnNext(old(output[..]), output[..], t, nthreads, njobs, niter, constant);
      SpacedThread(t, nthreads, njobs, niter, constant, dpl, common, output);
      t := t + 1;
    }
    JoinAll(old(output[..]), output[..], nthreads, njobs, niter, constant);
    scratch := common[..];
  }
}
