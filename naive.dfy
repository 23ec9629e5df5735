/** `run_naive`: each thread works directly on its partition of `output`,
    so neighbouring partitions can share a cache line. There is no copy step. */
module Naive {
  import opened Kernel
  import opened Partition

  /** Thread `t`'s body: `std::iota` over `output[start, end)` from
      `constant + start`, then `niter` rounds of `output[x] += t`. */
  method NaiveThread(t: nat, njobs: nat, niter: nat, constant: int, output: array<int>)
    requires t * njobs + njobs <= output.Length
    modifies output
    ensures output[..] == ThreadWrite(old(output[..]), t, njobs, niter, constant)
  {
    var start := t * njobs;
    var end := start + njobs;
    ghost var before := output[..];
    Iota(output, start, end - start, constant + start);
    ghost var seeded := output[..];
    assert seeded == Splice(before, start, Ramp(constant + t * njobs, njobs));
    AddRepeatedly(output, start, end - start, t, niter);
    assert output[..] == Splice(seeded, start, Shifted(seeded[start..start + njobs], niter * t));
    KernelLeavesBlock(before, seeded, output[..], start, t, njobs, niter, constant);
  }

  /** The threads run one after another (their partitions are disjoint, so by
      `Partition.AnyOrder` every interleaving leaves the same buffer): `output`
      holds `Output` on its first `njobs * nthreads` elements, the rest is untouched. */
  method RunNaive(nthreads: nat, njobs: nat, niter: nat, constant: int, output: array<int>)
    requires InRange(nthreads, njobs, niter, constant)
    requires nthreads * njobs <= output.Length
    modifies output
    ensures output[..] == Output(nthreads, njobs, niter, constant) + old(output[..])[nthreads * njobs..]
  {
    var t := 0;
    while t < nthreads
      invariant t <= nthreads
      invariant output[..] == ApplyThreads(old(output[..]), Range(t), nthreads, njobs, niter, constant)
    {
      SpawnNext(old(output[..]), output[..], t, nthreads, njobs, niter, constant);
      NaiveThread(t, njobs, niter, constant, output);
      t := t + 1;
    }
    JoinAll(old(output[..]), output[..], nthreads, njobs, niter, constant);
  }
}
