/** The thread body shared by the layouts that work outside the output
    (spaced, aligned, new-aligned, new-vector): run the kernel on `njobs`
    elements of a working buffer starting at `off`, then `std::copy_n` them
    into the thread's partition of `output`. The layouts differ only in which
    buffer and which `off` they pass. */
module Worker {
  import opened Kernel
  import opened Partition

  method ComputeAndCopy(t: nat, njobs: nat, niter: nat, constant: int,
                        work: array<int>, off: nat, output: array<int>)
    requires work != output
    requires off + njobs <= work.Length
    requires t * njobs + njobs <= output.Length
    modifies work, output
    ensures output[..] == ThreadWrite(old(output[..]), t, njobs, niter, constant)
    ensures work[..] == Splice(old(work[..]), off, Block(t, njobs, niter, constant))
  {
    var start := t * njobs;
    ghost var before := work[..];
    Iota(work, off, njobs, constant + start);
    ghost var seeded := work[..];
    assert seeded == Splice(before, off, Ramp(constant + t * njobs, njobs));
    AddRepeatedly(work, off, njobs, t, niter);
    assert work[..] == Splice(seeded, off, Shifted(seeded[off..off + njobs], niter * t));
    KernelLeavesBlock(before, seeded, work[..], off, t, njobs, niter, constant);
    CopyN(work, off, njobs, output, start);
  }
}
