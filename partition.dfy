/** What the five layouts must compute, independently of where a thread's
    working memory lives.

    Thread `t` of `nthreads` owns the partition `[t * njobs, t * njobs + njobs)`
    of an output of `njobs * nthreads` elements. It seeds its `njobs` values with
    `constant + t * njobs, constant + t * njobs + 1, ...` and adds `t` to each of
    them `niter` times. `Output` is the buffer all layouts leave behind;
    `ThreadWrite` is one thread body's effect on the output, and `ApplyThreads`
    runs thread bodies in a given order. */
module Partition {
  import opened Kernel

  const INT_MIN: int := -0x8000_0000
  const INT_MAX: int := 0x7FFF_FFFF
  /** Up to 2^53 every integer is a double, and a sum of two such doubles is
      exact as long as the sum itself stays within 2^53. */
  const EXACT_DOUBLE: int := 0x20_0000_0000_0000

  /** Fits a C++ `int`. */
  predicate IsInt(x: int)
  {
    INT_MIN <= x <= INT_MAX
  }

  /** The run parameters are `int`s, the `int` arithmetic of a strategy
      (`t * njobs`, `start + njobs`, `constant + start`) does not overflow, and every
      value a strategy stores is an integer that a `double` holds exactly. */
  predicate InRange(nthreads: nat, njobs: nat, niter: nat, constant: int)
  {
    && IsInt(nthreads) && IsInt(njobs) && IsInt(niter) && IsInt(constant)
    && IsInt(nthreads * njobs) && IsInt(constant + nthreads * njobs)
    && constant + nthreads * njobs + niter * nthreads <= EXACT_DOUBLE
  }

  lemma MulLeq(a: nat, b: nat, c: nat)
    requires a <= b
    ensures a * c <= b * c
  {
  }

  lemma MulSucc(a: nat, b: nat)
    ensures (a + 1) * b == a * b + b
  {
  }

  /** `k` lies in thread `t`'s partition `[t * njobs, t * njobs + njobs)`. */
  predicate InPartition(k: int, t: nat, njobs: nat)
  {
    t * njobs <= k < t * njobs + njobs
  }

  /** Every partition of a thread `t < nthreads` lies inside `[0, njobs * nthreads)`. */
  lemma PartitionInBounds(t: nat, nthreads: nat, njobs: nat)
    requires t < nthreads
    ensures t * njobs + njobs <= nthreads * njobs
  {
    MulLeq(t + 1, nthreads, njobs);
  }

  /** No index belongs to two threads' partitions. */
  lemma PartitionsDisjoint(k: int, t1: nat, t2: nat, njobs: nat)
    requires InPartition(k, t1, njobs) && InPartition(k, t2, njobs)
    ensures t1 == t2
  {
    if t1 < t2 {
      MulLeq(t1 + 1, t2, njobs);
    } else if t2 < t1 {
      MulLeq(t2 + 1, t1, njobs);
    }
  }

  /** The thread whose partition holds `k`, for every index of the output. */
  lemma {:induction false} PartitionOwner(k: int, nthreads: nat, njobs: nat) returns (t: nat)
    requires 0 <= k < nthreads * njobs
    ensures t < nthreads && InPartition(k, t, njobs)
    decreases nthreads
  {
    if k < (nthreads - 1) * njobs {
      t := PartitionOwner(k, nthreads - 1, njobs);
    } else {
      t := nthreads - 1;
    }
  }

  /** The partitions of the threads `0 .. nthreads - 1` cover `[0, njobs * nthreads)`
      exactly: an index is in range iff some thread owns it, and then exactly one does. */
  lemma ExactCover(k: int, nthreads: nat, njobs: nat)
    ensures (0 <= k < nthreads * njobs) <==> (exists t: nat :: t < nthreads && InPartition(k, t, njobs))
    ensures forall t1: nat, t2: nat :: InPartition(k, t1, njobs) && InPartition(k, t2, njobs) ==> t1 == t2
  {
    if 0 <= k < nthreads * njobs {
      var t := PartitionOwner(k, nthreads, njobs);
    }
    forall t: nat | t < nthreads && InPartition(k, t, njobs) ensures 0 <= k < nthreads * njobs {
      PartitionInBounds(t, nthreads, njobs);
    }
    forall t1: nat, t2: nat | InPartition(k, t1, njobs) && InPartition(k, t2, njobs) ensures t1 == t2 {
      PartitionsDisjoint(k, t1, t2, njobs);
    }
  }

  /** What thread `t`'s kernel leaves in its region: the seed ramp from
      `constant + t * njobs`, shifted by `niter` additions of `t`. */
  function Block(t: nat, njobs: nat, niter: nat, constant: int): (r: seq<int>)
    ensures |r| == njobs
    ensures forall j :: 0 <= j < njobs ==> r[j] == constant + t * njobs + j + niter * t
  {
    Shifted(Ramp(constant + t * njobs, njobs), niter * t)
  }

  /** The output buffer every layout must produce: the threads' blocks side by side. */
  function Output(nthreads: nat, njobs: nat, niter: nat, constant: int): (r: seq<int>)
    ensures |r| == nthreads * njobs
    decreases nthreads
  {
    if nthreads == 0 then []
    else Output(nthreads - 1, njobs, niter, constant) + Block(nthreads - 1, njobs, niter, constant)
  }

  /** The closed form: element `j` of thread `t`'s partition is
      `constant + t * njobs + j + niter * t`. */
  lemma {:induction false} OutputAt(nthreads: nat, njobs: nat, niter: nat, constant: int, t: nat, j: nat)
    requires t < nthreads && j < njobs
    ensures t * njobs + j < nthreads * njobs
    ensures Output(nthreads, njobs, niter, constant)[t * njobs + j] == constant + t * njobs + j + niter * t
    decreases nthreads
  {
    PartitionInBounds(t, nthreads, njobs);
    if t < nthreads - 1 {
      OutputAt(nthreads - 1, njobs, niter, constant, t, j);
    } else {
      assert |Output(nthreads - 1, njobs, niter, constant)| == t * njobs;
    }
  }

  /** With `niter == 0` the output is the plain increasing sequence from `constant`. */
  lemma OutputWithoutIterations(nthreads: nat, njobs: nat, constant: int, k: int)
    requires 0 <= k < nthreads * njobs
    ensures Output(nthreads, njobs, 0, constant)[k] == constant + k
  {
    var t := PartitionOwner(k, nthreads, njobs);
    OutputAt(nthreads, njobs, 0, constant, t, k - t * njobs);
  }

  /** Seeding a region with the ramp and then shifting what it holds leaves
      thread `t`'s block there, whatever the region held before. */
  lemma KernelLeavesBlock(s0: seq<int>, s1: seq<int>, s2: seq<int>, lo: nat,
                          t: nat, njobs: nat, niter: nat, constant: int)
    requires lo + njobs <= |s0|
    requires s1 == Splice(s0, lo, Ramp(constant + t * njobs, njobs))
    requires s2 == Splice(s1, lo, Shifted(s1[lo..lo + njobs], niter * t))
    ensures s2 == Splice(s0, lo, Block(t, njobs, niter, constant))
  {
    var ramp := Ramp(constant + t * njobs, njobs);
    assert s1[lo..lo + njobs] == ramp;
    SpliceTwice(s0, lo, ramp, Shifted(ramp, niter * t));
  }

  /** One thread body's effect on the output: thread `t` rewrites exactly its own
      partition with its block and leaves every other index alone. */
  function ThreadWrite(s: seq<int>, t: nat, njobs: nat, niter: nat, constant: int): (r: seq<int>)
    requires t * njobs + njobs <= |s|
    ensures |r| == |s|
    ensures forall k :: 0 <= k < |s| ==>
      r[k] == if InPartition(k, t, njobs) then constant + k + niter * t else s[k]
  {
    var r := Splice(s, t * njobs, Block(t, njobs, niter, constant));
    assert forall k :: 0 <= k < |s| ==>
      r[k] == if InPartition(k, t, njobs) then constant + k + niter * t else s[k]
    by {
      forall k | 0 <= k < |s| {
        SpliceAt(s, t * njobs, Block(t, njobs, niter, constant), k);
      }
    }
    r
  }

  /** Threads `0 .. n - 1` in spawn order. */
  function Range(n: nat): seq<nat>
  {
    seq(n, i => i)
  }

  /** The thread bodies of `order` run one after another on `s`. */
  function ApplyThreads(s: seq<int>, order: seq<nat>, nthreads: nat, njobs: nat, niter: nat, constant: int): (r: seq<int>)
    requires nthreads * njobs <= |s|
    requires forall i :: 0 <= i < |order| ==> order[i] < nthreads
    ensures |r| == |s|
    decreases |order|
  {
    if order == [] then s
    else
      var last := order[|order| - 1];
      PartitionInBounds(last, nthreads, njobs);
      ThreadWrite(ApplyThreads(s, order[..|order| - 1], nthreads, njobs, niter, constant), last, njobs, niter, constant)
  }

  /** After the thread bodies of `order`, an index owned by a thread of `order` holds
      that thread's value, and every other index keeps its original value. */
  lemma {:induction false} ApplyThreadsAt(s: seq<int>, order: seq<nat>, nthreads: nat, njobs: nat, niter: nat, constant: int, k: int)
    requires nthreads * njobs <= |s|
    requires forall i :: 0 <= i < |order| ==> order[i] < nthreads
    requires 0 <= k < |s|
    ensures forall t :: t in order && InPartition(k, t, njobs) ==>
      ApplyThreads(s, order, nthreads, njobs, niter, constant)[k] == constant + k + niter * t
    ensures (forall t :: t in order ==> !InPartition(k, t, njobs)) ==>
      ApplyThreads(s, order, nthreads, njobs, niter, constant)[k] == s[k]
    decreases |order|
  {
    if order != [] {
      var prefix := order[..|order| - 1];
      var last := order[|order| - 1];
      assert order == prefix + [last];
      ApplyThreadsAt(s, prefix, nthreads, njobs, niter, constant, k);
      forall t | t in order && InPartition(k, t, njobs)
        ensures ApplyThreads(s, order, nthreads, njobs, niter, constant)[k] == constant + k + niter * t
      {
        if InPartition(k, last, njobs) {
          PartitionsDisjoint(k, t, last, njobs);
        } else {
          assert t in prefix;
        }
      }
    }
  }

  /** One index of `AnyOrder`. */
  lemma AnyOrderAt(s: seq<int>, order: seq<nat>, nthreads: nat, njobs: nat, niter: nat, constant: int, k: int)
    requires nthreads * njobs <= |s|
    requires forall i :: 0 <= i < |order| ==> order[i] < nthreads
    requires forall t :: 0 <= t < nthreads ==> t in order
    requires 0 <= k < |s|
    ensures ApplyThreads(s, order, nthreads, njobs, niter, constant)[k]
         == (Output(nthreads, njobs, niter, constant) + s[nthreads * njobs..])[k]
  {
    ApplyThreadsAt(s, order, nthreads, njobs, niter, constant, k);
    if k < nthreads * njobs {
      var t := PartitionOwner(k, nthreads, njobs);
      OutputAt(nthreads, njobs, niter, constant, t, k - t * njobs);
    } else {
      forall t | t in order ensures !InPartition(k, t, njobs) {
        PartitionInBounds(t, nthreads, njobs);
      }
    }
  }

  /** The result does not depend on the schedule: whatever the order in which the
      thread bodies run, and however often each runs, as long as every thread
      `t < nthreads` runs at least once the output is `Output` followed by the
      untouched tail. */
  lemma AnyOrder(s: seq<int>, order: seq<nat>, nthreads: nat, njobs: nat, niter: nat, constant: int)
    requires nthreads * njobs <= |s|
    requires forall i :: 0 <= i < |order| ==> order[i] < nthreads
    requires forall t :: 0 <= t < nthreads ==> t in order
    ensures ApplyThreads(s, order, nthreads, njobs, niter, constant)
         == Output(nthreads, njobs, niter, constant) + s[nthreads * njobs..]
  {
    forall k | 0 <= k < |s|
      ensures ApplyThreads(s, order, nthreads, njobs, niter, constant)[k]
           == (Output(nthreads, njobs, niter, constant) + s[nthreads * njobs..])[k]
    {
      AnyOrderAt(s, order, nthreads, njobs, niter, constant, k);
    }
  }

  /** Spawn order runs every thread. */
  lemma RangeRunsAll(n: nat)
    ensures forall i :: 0 <= i < |Range(n)| ==> Range(n)[i] < n
    ensures forall t :: 0 <= t < n ==> t in Range(n)
  {
    forall t | 0 <= t < n ensures t in Range(n) {
      assert Range(n)[t] == t;
    }
  }

  /** The spawn loop one thread further: running thread `t`'s body after threads
      `0 .. t - 1` is running threads `0 .. t` in spawn order. */
  lemma SpawnNext(s: seq<int>, current: seq<int>, t: nat, nthreads: nat, njobs: nat, niter: nat, constant: int)
    requires nthreads * njobs <= |s| && t < nthreads
    requires current == ApplyThreads(s, Range(t), nthreads, njobs, niter, constant)
    ensures t * njobs + njobs <= |current|
    ensures ThreadWrite(current, t, njobs, niter, constant) == ApplyThreads(s, Range(t + 1), nthreads, njobs, niter, constant)
  {
    PartitionInBounds(t, nthreads, njobs);
    assert Range(t + 1)[..t] == Range(t);
  }

  /** Once the spawn loop has started every thread and all have been joined, the
      buffer holds `Output` followed by its untouched tail. */
  lemma JoinAll(s: seq<int>, current: seq<int>, nthreads: nat, njobs: nat, niter: nat, constant: int)
    requires nthreads * njobs <= |s|
    requires current == ApplyThreads(s, Range(nthreads), nthreads, njobs, niter, constant)
    ensures current == Output(nthreads, njobs, niter, constant) + s[nthreads * njobs..]
  {
    RangeRunsAll(nthreads);
    AnyOrder(s, Range(nthreads), nthreads, njobs, niter, constant);
  }

  /** Running all threads again on a buffer they already produced changes nothing. */
  lemma RerunChangesNothing(s: seq<int>, nthreads: nat, njobs: nat, niter: nat, constant: int)
    requires nthreads * njobs <= |s|
    ensures var once := ApplyThreads(s, Range(nthreads), nthreads, njobs, niter, constant);
            ApplyThreads(once, Range(nthreads), nthreads, njobs, niter, constant) == once
  {
    var once := ApplyThreads(s, Range(nthreads), nthreads, njobs, niter, constant);
    RangeRunsAll(nthreads);
    AnyOrder(s, Range(nthreads), nthreads, njobs, niter, constant);
    AnyOrder(once, Range(nthreads), nthreads, njobs, niter, constant);
    assert once[nthreads * njobs..] == s[nthreads * njobs..];
  }

  /** No overflow and exact doubles: under `InRange`, thread `t`'s `start`, `end`
      and seed fit an `int`, as does the value `std::iota` leaves its seed at, one
      past the last element it writes; and every value its kernel holds after
      `i <= niter` rounds stays within the exactly representable doubles. */
  lemma NoOverflow(nthreads: nat, njobs: nat, niter: nat, constant: int, t: nat, j: nat, i: nat)
    requires InRange(nthreads, njobs, niter, constant)
    requires t < nthreads && j < njobs && i <= niter
    ensures IsInt(t * njobs) && IsInt(t * njobs + njobs) && IsInt(constant + t * njobs)
    ensures IsInt(constant + t * njobs + njobs)
    ensures -EXACT_DOUBLE <= constant + t * njobs + j + i * t <= EXACT_DOUBLE
  {
    PartitionInBounds(t, nthreads, njobs);
    MulLeq(0, t, njobs);
    MulLeq(i, niter, t);
    MulLeq(t, nthreads, niter);
    MulLeq(0, i, t);
    assert 0 <= i * t <= niter * nthreads;
  }

  /** Two threads with three jobs each, two iterations, seed 100: thread 0 keeps
      its ramp `100, 101, 102`, thread 1 adds `1` twice to `103, 104, 105`. */
  lemma OutputExample()
    ensures Output(2, 3, 2, 100) == [100, 101, 102, 105, 106, 107]
  {
    assert Block(0, 3, 2, 100) == [100, 101, 102];
    assert Block(1, 3, 2, 100) == [105, 106, 107];
    assert Output(1, 3, 2, 100) == [100, 101, 102];
  }

  /** With no threads, or no jobs per thread, no partition is written: the
      buffer a layout leaves behind is the one it was given. */
  lemma NothingToDo(s: seq<int>, nthreads: nat, njobs: nat, niter: nat, constant: int)
    requires nthreads == 0 || njobs == 0
    ensures Output(nthreads, njobs, niter, constant) + s[nthreads * njobs..] == s
  {
  }
}
