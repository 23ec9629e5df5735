/** The new-aligned layout of the single-file benchmark: every thread allocates
    its own block of `njobs` doubles with cache-line aligned `operator new[]`,
    runs the kernel in it, copies it into its partition of the output and
    releases it. The block is not initialised; `std::iota` overwrites all of it
    before it is read. */
module NewAligned {
  import opened Partition
  import opened Worker

  /** Thread `t`'s body. The block starts with whatever contents the allocator
      left; after the kernel it holds thread `t`'s values, which is what the copy
      writes into the output. */
  method NewAlignedThread(t: nat, njobs: nat, niter: nat, constant: int, output: array<int>)
    returns (ghost blockContents: seq<int>)
    requires t * njobs + njobs <= output.Length
    modifies output
    ensures output[..] == ThreadWrite(old(output[..]), t, njobs, niter, constant)
    ensures |blockContents| == njobs
    ensures forall j :: 0 <= j < njobs ==> blockContents[j] == constant + t * njobs + j + niter * t
  {
    var block := new int[njobs];
    ComputeAndCopy(t, njobs, niter, constant, block, 0, output);
    blockContents := block[..];
    assert blockContents == Block(t, njobs, niter, constant);
  }

  /** The new-aligned benchmark body, threads in spawn order: `output` holds
      `Output` on its first `njobs * nthreads` elements, the rest is untouched. */
  method RunNewAligned(nthreads: nat, njobs: nat, niter: nat, constant: int, output: array<int>)
    requires InRange(nthreads, njobs, niter, constant)
    requires nthreads * njobs <= output.Length
    modifies output
    ensures output[..] == Output(nthreads, njobs, niter, constant) + old(output[..])[nthreads * njobs..]
  {
    var t := 0;
    while t < nthreads
      invariant t <= nthreads
      invariant output[..] == ApplyThreads(old(output[..]), Range(t), nthreads, njobs, niter, constant)
    {
      SpawnNext(old(output[..]), output[..], t, nthreads, njobs, niter, constant);
      var _ := NewAlignedThread(t, njobs, niter, constant, output);
      t := t + 1;
    }
    JoinAll(old(output[..]), output[..], nthreads, njobs, niter, constant);
  }
}
