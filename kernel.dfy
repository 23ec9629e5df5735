/** The workload every thread body runs on its region of `njobs` doubles:
    `std::iota` from a seed, then `niter` rounds that add the thread index to
    every element, and the `std::copy_n` that moves a region into the output.
    Regions are `[lo, lo + n)` of an array; elements are modelled as `int`. */
module Kernel {

  /** `std::iota`: the increasing sequence `value, value + 1, ...` of length `n`. */
  function Ramp(value: int, n: nat): seq<int>
  {
    seq(n, j => value + j)
  }

  /** Every element of `s` increased by `delta`. */
  function Shifted(s: seq<int>, delta: int): seq<int>
  {
    seq(|s|, j requires 0 <= j < |s| => s[j] + delta)
  }

  /** `s` with the elements from `lo` on replaced by `block`. */
  function Splice(s: seq<int>, lo: nat, block: seq<int>): (r: seq<int>)
    requires lo + |block| <= |s|
    ensures |r| == |s|
    ensures r[lo..lo + |block|] == block
    ensures forall k :: 0 <= k < |s| && !(lo <= k < lo + |block|) ==> r[k] == s[k]
  {
    s[..lo] + block + s[lo + |block|..]
  }

  /** Pointwise reading of a splice. */
  lemma SpliceAt(s: seq<int>, lo: nat, block: seq<int>, k: int)
    requires lo + |block| <= |s| && 0 <= k < |s|
    ensures Splice(s, lo, block)[k] == if lo <= k < lo + |block| then block[k - lo] else s[k]
  {
    if lo <= k < lo + |block| {
      assert Splice(s, lo, block)[k] == Splice(s, lo, block)[lo..lo + |block|][k - lo];
    }
  }

  /** Overwriting the same region twice keeps only the second block. */
  lemma SpliceTwice(s: seq<int>, lo: nat, first: seq<int>, second: seq<int>)
    requires lo + |first| <= |s| && |second| == |first|
    ensures Splice(Splice(s, lo, first), lo, second) == Splice(s, lo, second)
  {
    var a := Splice(Splice(s, lo, first), lo, second);
    var b := Splice(s, lo, second);
    forall k | 0 <= k < |s| ensures a[k] == b[k] {
      SpliceAt(Splice(s, lo, first), lo, second, k);
      SpliceAt(s, lo, second, k);
    }
  }

  /** `std::iota(a + lo, a + lo + n, value)`. */
  method Iota(a: array<int>, lo: nat, n: nat, value: int)
    requires lo + n <= a.Length
    modifies a
    ensures a[..] == Splice(old(a[..]), lo, Ramp(value, n))
  {
    var x := 0;
    while x < n
      invariant x <= n
      invariant forall k :: 0 <= k < a.Length ==>
        a[k] == if lo <= k < lo + x then value + (k - lo) else old(a[k])
    {
      a[lo + x] := value + x;
      x := x + 1;
    }
    forall k | 0 <= k < a.Length ensures a[..][k] == Splice(old(a[..]), lo, Ramp(value, n))[k] {
      SpliceAt(old(a[..]), lo, Ramp(value, n), k);
    }
  }

  /** Adding two shifts in turn is adding their sum. */
  lemma ShiftedTwice(s: seq<int>, d1: int, d2: int)
    ensures Shifted(Shifted(s, d1), d2) == Shifted(s, d1 + d2)
  {
    assert forall j :: 0 <= j < |s| ==> Shifted(Shifted(s, d1), d2)[j] == Shifted(s, d1 + d2)[j];
  }

  /** One round of the inner loop `for (x = 0; x < n; ++x) ptr[x] += t;`
      with `ptr = a + lo`. */
  method AddOnce(a: array<int>, lo: nat, n: nat, t: int)
    requires lo + n <= a.Length
    modifies a
    ensures a[..] == Splice(old(a[..]), lo, Shifted(old(a[lo..lo + n]), t))
  {
    var x := 0;
    while x < n
      invariant x <= n
      invariant forall k :: 0 <= k < a.Length ==>
        a[k] == if lo <= k < lo + x then old(a[k]) + t else old(a[k])
    {
      a[lo + x] := a[lo + x] + t;
      x := x + 1;
    }
    ghost var region := old(a[lo..lo + n]);
    forall k | 0 <= k < a.Length
      ensures a[..][k] == Splice(old(a[..]), lo, Shifted(region, t))[k]
    {
      SpliceAt(old(a[..]), lo, Shifted(region, t), k);
    }
  }

  /** `for (i = 0; i < niter; ++i) for (x = 0; x < n; ++x) ptr[x] += t;`
      with `ptr = a + lo`: every element of the region gains `niter * t`. */
  method AddRepeatedly(a: array<int>, lo: nat, n: nat, t: int, niter: nat)
    requires lo + n <= a.Length
    modifies a
    ensures a[..] == Splice(old(a[..]), lo, Shifted(old(a[lo..lo + n]), niter * t))
  {
    ghost var start := a[..];
    ghost var region := a[lo..lo + n];
    assert Splice(start, lo, Shifted(region, 0)) == start;
    var i := 0;
    ghost var shift := 0;
    while i < niter
      invariant i <= niter && shift == i * t
      invariant a[..] == Splice(start, lo, Shifted(region, shift))
    {
      ghost var before := a[..];
      AddOnce(a, lo, n, t);
      assert before[lo..lo + n] == Shifted(region, shift);
      ShiftedTwice(region, shift, t);
      SpliceTwice(start, lo, Shifted(region, shift), Shifted(region, shift + t));
      shift := shift + t;
      i := i + 1;
    }
  }

  /** `std::copy_n(src + from, n, dst + to)` between two distinct buffers. */
  method CopyN(src: array<int>, from: nat, n: nat, dst: array<int>, to: nat)
    requires from + n <= src.Length && to + n <= dst.Length
    requires src != dst
    modifies dst
    ensures dst[..] == Splice(old(dst[..]), to, src[from..from + n])
  {
    var x := 0;
    while x < n
      invariant x <= n
      invariant forall k :: 0 <= k < dst.Length ==>
        dst[k] == if to <= k < to + x then src[from + (k - to)] else old(dst[k])
    {
      dst[to + x] := src[from + x];
      x := x + 1;
    }
    forall k | 0 <= k < dst.Length ensures dst[..][k] == Splice(old(dst[..]), to, src[from..from + n])[k] {
      SpliceAt(old(dst[..]), to, src[from..from + n], k);
    }
  }
}
