/** `run_new_vector`: every thread allocates its own zero-initialised
    `std::vector<double> payload(njobs)`, runs the kernel in it and copies it
    into its partition of `output`. No two threads share working memory. */
module NewVector {
  import opened Partition
  import opened Worker

  /** Thread `t`'s body. Besides its effect on `output` it reports what the
      payload held before the copy: element `j` is `constant + t * njobs + j + niter * t`. */
  method NewVectorThread(t: nat, njobs: nat, niter: nat, constant: int, output: array<int>)
    returns (ghost payloadContents: seq<int>)
    requires t * njobs + njobs <= output.Length
    modifies output
    ensures output[..] == ThreadWrite(old(output[..]), t, njobs, niter, constant)
    ensures |payloadContents| == njobs
    ensures forall j :: 0 <= j < njobs ==> payloadContents[j] == constant + t * njobs + j + niter * t
  {
    var payload := new int[njobs](_ => 0);
    ComputeAndCopy(t, njobs, niter, constant, payload, 0, output);
    payloadContents := payload[..];
    assert payloadContents == Block(t, njobs, niter, constant);
  }

  /** `run_new_vector`, threads in spawn order: `output` holds `Output` on its first
      `njobs * nthreads` elements, the rest is untouched. */
  method RunNewVector(nthreads: nat, njobs: nat, niter: nat, constant: int, output: array<int>)
    requires InRange(nthreads, njobs, niter, constant)
    requires nthreads * njobs <= output.Length
    modifies output
    ensures output[..] == Output(nthreads, njobs, niter, constant) + old(output[..])[nthreads * njobs..]
  {
    var t := 0;
    while t < nthreads
      invariant t <= nthreads
      invariant output[..] == ApplyThreads(old(output[..]), Range(t), nthreads, njobs, niter, constant)
    {
      SpawnNext(old(output[..]), output[..], t, nthreads, njobs, niter, constant);
      var _ := NewVectorThread(t, njobs, niter, constant, output);
      t := t + 1;
    }
    JoinAll(old(output[..]), output[..], nthreads, njobs, niter, constant);
  }
}
