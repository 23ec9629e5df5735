/** The single-file benchmark: the same five layouts written inline in `main`,
    with the cache line fixed at 128 bytes, and the same closing check. */
module Monolith {
  import opened Geometry
  import opened Partition
  import Driver

  /** `CACHE_LINE_SIZE` of the single-file benchmark. */
  const CACHE_LINE_SIZE: nat := 128

  /** `main` of the single-file benchmark after option parsing: it ends by returning
      0, every layout's buffer holding `Output` for `CONSTANT = niter * nthreads + njobs`. */
  method Run(niter: nat, nthreads: nat, njobs: nat, runs: seq<nat>)
    returns (exit: Driver.Exit, ghost buffers: seq<seq<int>>)
    requires Driver.DriverInRange(niter, nthreads, njobs, CACHE_LINE_SIZE)
    requires |runs| == 5 && forall s :: 0 <= s < 5 ==> runs[s] >= 1
    ensures exit == Driver.Returned(0)
    ensures |buffers| == 5
    ensures forall s :: 0 <= s < 5 ==> buffers[s] == Output(nthreads, njobs, niter, niter * nthreads + njobs)
  {
    Line128();
    exit, buffers := Driver.Run(niter, nthreads, njobs, CACHE_LINE_SIZE, runs);
  }
}
