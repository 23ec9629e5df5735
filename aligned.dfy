/** `run_aligned`: the threads work in a shared scratch buffer `common` of
    `(DOUBLES_PER_CACHE_LINE + njobs) * nthreads` doubles, but instead of a fixed
    stride each region starts at the first cache-line boundary at or after a
    cursor `used`. The spawn loop alone moves the cursor, before it hands the
    region to the thread by value; each region is then copied into the thread's
    partition of `output`.

    Addresses are byte addresses: `common.data()` is an arbitrary `base` that
    is a multiple of `sizeof(double)`, and element `i` of `common` lives at
    `base + sizeof(double) * i`. */
module Aligned {
  import opened Kernel
  import opened Partition
  import opened Geometry
  import opened Worker

  /** The first multiple of `alignment` at or after `p`. */
  function RoundUp(p: nat, alignment: nat): (r: nat)
    requires alignment > 0
    ensures r % alignment == 0 && p <= r < p + alignment
  {
    var m := p % alignment;
    if m == 0 then p
    else
      MultipleMod(p / alignment + 1, alignment);
      p - m + alignment
  }

  lemma MultipleMod(q: nat, a: nat)
    requires a > 0
    ensures (q * a) % a == 0
  {
    var d, r := (q * a) / a, (q * a) % a;
    assert (q - d) * a == r;
    if q - d >= 1 {
      assert false;
    } else if q - d <= -1 {
      assert false;
    }
  }

  /** No aligned address lies between `p` and `RoundUp(p, alignment)`: the
      adjustment is the smallest one possible. */
  lemma RoundUpIsFirst(p: nat, alignment: nat, q: nat)
    requires alignment > 0 && p <= q && q % alignment == 0
    ensures RoundUp(p, alignment) <= q
  {
    var r := RoundUp(p, alignment);
    if q < r {
      var qa, ra := q / alignment, r / alignment;
      assert q == qa * alignment && r == ra * alignment;
      if ra <= qa {
        MulLeq(ra, qa, alignment);
      } else {
        MulLeq(qa + 1, ra, alignment);
      }
    }
  }

  /** The pointer and the space left over after `std::align`, and whether it succeeded. */
  datatype AlignResult = AlignResult(ok: bool, ptr: nat, space: nat)

  /** `std::align(alignment, size, ptr, space)`: it succeeds iff the first
      `alignment`-aligned address at or after `ptr` leaves room for `size` bytes
      within the `space` bytes from `ptr`; then it moves `ptr` there and shrinks
      `space` by the adjustment. On failure both are left as they were (and the
      caller here ignores the null result and goes on with the unchanged `ptr`). */
  function StdAlign(alignment: nat, size: nat, ptr: nat, space: nat): (r: AlignResult)
    requires alignment > 0
    ensures r.ok <==> RoundUp(ptr, alignment) + size <= ptr + space
    ensures r.ok ==> r.ptr % alignment == 0 && ptr <= r.ptr < ptr + alignment
                     && r.ptr + size <= ptr + space && r.ptr + r.space == ptr + space
    ensures !r.ok ==> r.ptr == ptr && r.space == space
  {
    if space < size then AlignResult(false, ptr, space)
    else
      var aligned := RoundUp(ptr, alignment);
      var diff := aligned - ptr;
      if diff > space - size then AlignResult(false, ptr, space)
      else AlignResult(true, aligned, space - diff)
  }

  /** The `std::align` call of one spawn iteration, with the cursor at element `used`
      of a `common` of `size` elements at address `base`. */
  function AlignAt(base: nat, used: nat, size: nat, lineSize: nat): (r: AlignResult)
    requires ValidLineSize(lineSize) && used <= size
    ensures r.ok ==> base + 8 * used <= r.ptr && r.ptr + r.space == base + 8 * size
    ensures !r.ok ==> r.ptr == base + 8 * used
  {
    StdAlign(lineSize, 8, base + 8 * used, (size - used) * 8)
  }

  /** One spawn iteration's bookkeeping: the element offset `common_ptr - common.data()`
      of the region handed to the next thread. When `std::align` succeeds the offset
      is cache-line aligned and less than one line's worth of doubles past the
      cursor, and at least one double fits after it; when it fails the offset is
      the cursor itself. */
  function Place(base: nat, used: nat, size: nat, lineSize: nat): (off: nat)
    requires ValidLineSize(lineSize) && base % 8 == 0 && used <= size
    ensures AlignAt(base, used, size, lineSize).ok ==>
      && (base + 8 * off) % lineSize == 0
      && used <= off < used + DoublesPerLine(lineSize)
      && off < size
    ensures !AlignAt(base, used, size, lineSize).ok ==> off == used
  {
    AlignedOffset(base, used, size, lineSize);
    (AlignAt(base, used, size, lineSize).ptr - base) / 8
  }

  /** When `std::align` succeeds, the address it returns is a whole number of doubles past `base`,
      less than one cache line past the cursor, with room for one double. */
  lemma AlignedOffset(base: nat, used: nat, size: nat, lineSize: nat)
    requires ValidLineSize(lineSize) && base % 8 == 0 && used <= size
    ensures AlignAt(base, used, size, lineSize).ok ==>
      var p := AlignAt(base, used, size, lineSize).ptr;
      && base <= p && (p - base) % 8 == 0
      && p % lineSize == 0
      && used <= (p - base) / 8 < used + DoublesPerLine(lineSize)
      && (p - base) / 8 < size
  {
    var r := AlignAt(base, used, size, lineSize);
    if r.ok {
      LineHoldsWholeDoubles(lineSize);
      LineMultipleIsDoubleMultiple(r.ptr, lineSize);
      ElementOffset(base, used, size, DoublesPerLine(lineSize), r.ptr);
    }
  }

  /** A `double`-aligned address less than `dpl` doubles past element `used`, with
      room for one double before element `size`, is element `(p - base) / 8`. */
  lemma ElementOffset(base: nat, used: nat, size: nat, dpl: nat, p: nat)
    requires base % 8 == 0 && p % 8 == 0
    requires base + 8 * used <= p < base + 8 * used + 8 * dpl
    requires p + 8 <= base + 8 * size
    ensures base <= p && (p - base) % 8 == 0
    ensures used <= (p - base) / 8 < used + dpl && (p - base) / 8 < size
  {
  }

  /** The buffer is always large enough: if the cursor has advanced by at most
      `DOUBLES_PER_CACHE_LINE - 1 + njobs` per earlier thread, `std::align` succeeds
      for thread `t < nthreads` (although it only asks for one double) and the
      region of `njobs` elements it yields ends within that same budget, hence
      inside `common`. By induction over the spawn loop this holds for every thread. */
  lemma PlacementInBudget(t: nat, nthreads: nat, njobs: nat, lineSize: nat, base: nat, used: nat)
    requires ValidLineSize(lineSize) && base % 8 == 0
    requires t < nthreads
    requires used <= t * (DoublesPerLine(lineSize) - 1 + njobs)
    ensures used <= ScratchSize(nthreads, njobs, DoublesPerLine(lineSize))
    ensures AlignAt(base, used, ScratchSize(nthreads, njobs, DoublesPerLine(lineSize)), lineSize).ok
    ensures Place(base, used, ScratchSize(nthreads, njobs, DoublesPerLine(lineSize)), lineSize) + njobs
         <= (t + 1) * (DoublesPerLine(lineSize) - 1 + njobs)
         <= ScratchSize(nthreads, njobs, DoublesPerLine(lineSize))
  {
    LineHoldsWholeDoubles(lineSize);
    var dpl := DoublesPerLine(lineSize);
    var size := ScratchSize(nthreads, njobs, dpl);
    BudgetArithmetic(t, nthreads, njobs, dpl, used);
    RoomForALine(base, used, size, lineSize);
  }

  /** The cursor budget in numbers: after `t` threads at most `t * step` elements are
      used, with `step = dpl - 1 + njobs`; a further line and a further step still fit. */
  lemma BudgetArithmetic(t: nat, nthreads: nat, njobs: nat, dpl: nat, used: nat)
    requires dpl >= 1 && t < nthreads
    requires used <= t * (dpl - 1 + njobs)
    ensures used + dpl <= ScratchSize(nthreads, njobs, dpl)
    ensures used + (dpl - 1 + njobs) <= (t + 1) * (dpl - 1 + njobs) <= ScratchSize(nthreads, njobs, dpl)
  {
    var step, width := dpl - 1 + njobs, dpl + njobs;
    MulLeq(step, width, t);
    MulSucc(t, width);
    MulSucc(t, step);
    MulLeq(step, width, t + 1);
    MulLeq(t + 1, nthreads, width);
  }

  /** When a whole cache line of doubles is left after the cursor, `std::align`
      succeeds: the aligned address is at most one line minus one double further. */
  lemma RoomForALine(base: nat, used: nat, size: nat, lineSize: nat)
    requires ValidLineSize(lineSize) && base % 8 == 0
    requires used + DoublesPerLine(lineSize) <= size
    ensures AlignAt(base, used, size, lineSize).ok
  {
    LineHoldsWholeDoubles(lineSize);
    var ptr := base + 8 * used;
    AlignedWithinLine(ptr, lineSize);
    assert lineSize <= (size - used) * 8;
  }

  /** From an address that is a multiple of `sizeof(double)`, the next cache-line
      boundary is at most one line minus one double away. */
  lemma AlignedWithinLine(ptr: nat, lineSize: nat)
    requires ValidLineSize(lineSize) && ptr % 8 == 0
    ensures RoundUp(ptr, lineSize) + 8 <= ptr + lineSize
  {
    LineHoldsWholeDoubles(lineSize);
    var aligned := RoundUp(ptr, lineSize);
    LineMultipleIsDoubleMultiple(aligned, lineSize);
    var pq, aq := ptr / 8, aligned / 8;
    assert ptr == 8 * pq && aligned == 8 * aq;
    assert aq - pq < DoublesPerLine(lineSize);
  }

  /** The regions handed out so far: each cache-line aligned, in increasing order,
      not overlapping, and all before the cursor `used`. */
  ghost predicate PlacedBefore(offsets: seq<nat>, base: nat, lineSize: nat, njobs: nat, used: nat)
    requires lineSize > 0
  {
    && (forall u :: 0 <= u < |offsets| ==> (base + 8 * offsets[u]) % lineSize == 0 && offsets[u] + njobs <= used)
    && (forall u1, u2 :: 0 <= u1 < u2 < |offsets| ==> offsets[u1] + njobs <= offsets[u2])
  }

  /** Handing out an aligned region at or after the cursor keeps `PlacedBefore`
      with the cursor moved past it. */
  lemma PlacedStep(offsets: seq<nat>, base: nat, lineSize: nat, njobs: nat, used: nat, off: nat)
    requires lineSize > 0
    requires PlacedBefore(offsets, base, lineSize, njobs, used)
    requires used <= off && (base + 8 * off) % lineSize == 0
    ensures PlacedBefore(offsets + [off], base, lineSize, njobs, off + njobs)
  {
  }

  /** Where the spawn loop's cursor stands before thread `u`: at 0 for the first
      thread, and just past the previous thread's region after that. */
  ghost function Cursor(offsets: seq<nat>, u: nat, njobs: nat): nat
    requires u <= |offsets|
  {
    if u == 0 then 0 else offsets[u - 1] + njobs
  }

  /** The offset `off` is the one the spawn loop computes from cursor `c`:
      `std::align` succeeded, and `off` is the first cache-line boundary at or
      after `c`, less than one line's worth of doubles further on. */
  ghost predicate ChosenAt(off: nat, c: nat, base: nat, lineSize: nat, size: nat)
    requires ValidLineSize(lineSize) && base % 8 == 0
  {
    && c <= size
    && AlignAt(base, c, size, lineSize).ok
    && off == Place(base, c, size, lineSize)
    && c <= off < c + DoublesPerLine(lineSize)
  }

  /** Every offset handed out so far is the one chosen from the cursor before it. */
  ghost predicate ChosenByAlign(offsets: seq<nat>, base: nat, lineSize: nat, njobs: nat, size: nat)
    requires ValidLineSize(lineSize) && base % 8 == 0
  {
    forall u :: 0 <= u < |offsets| ==> ChosenAt(offsets[u], Cursor(offsets, u, njobs), base, lineSize, size)
  }

  /** Appending an offset keeps every earlier offset's choice. */
  lemma ChosenKept(offsets: seq<nat>, off: nat, u: nat, base: nat, lineSize: nat, njobs: nat, size: nat)
    requires ValidLineSize(lineSize) && base % 8 == 0
    requires u < |offsets|
    requires ChosenAt(offsets[u], Cursor(offsets, u, njobs), base, lineSize, size)
    ensures ChosenAt((offsets + [off])[u], Cursor(offsets + [off], u, njobs), base, lineSize, size)
  {
    CursorKept(offsets, off, u, njobs);
    assert (offsets + [off])[u] == offsets[u];
  }

  /** Appending an offset does not move the cursor of any earlier thread or of the new one. */
  lemma CursorKept(offsets: seq<nat>, off: nat, u: nat, njobs: nat)
    requires u <= |offsets|
    ensures Cursor(offsets + [off], u, njobs) == Cursor(offsets, u, njobs)
  {
    if u > 0 {
      assert (offsets + [off])[u - 1] == offsets[u - 1];
    }
  }

  /** Within the budget, the offset `Place` yields is the one `std::align` chooses
      from the cursor, and its region ends within the budget of the next thread. */
  lemma PlaceChosen(t: nat, nthreads: nat, njobs: nat, lineSize: nat, base: nat, used: nat, size: nat)
    requires ValidLineSize(lineSize) && base % 8 == 0
    requires t < nthreads && size == ScratchSize(nthreads, njobs, DoublesPerLine(lineSize))
    requires used <= t * (DoublesPerLine(lineSize) - 1 + njobs)
    ensures used <= size
    ensures ChosenAt(Place(base, used, size, lineSize), used, base, lineSize, size)
    ensures (base + 8 * Place(base, used, size, lineSize)) % lineSize == 0
    ensures Place(base, used, size, lineSize) + njobs <= (t + 1) * (DoublesPerLine(lineSize) - 1 + njobs) <= size
  {
    PlacementInBudget(t, nthreads, njobs, lineSize, base, used);
  }

  /** The offsets the spawn loop hands to threads `0 .. n - 1`: each thread's
      offset is `Place` from the cursor the previous thread left, starting at 0.
      The cursor stays within `DOUBLES_PER_CACHE_LINE - 1 + njobs` elements per
      thread, so `std::align` is only ever called with room to spare. */
  ghost function Placements(n: nat, nthreads: nat, base: nat, lineSize: nat, njobs: nat): (r: seq<nat>)
    requires ValidLineSize(lineSize) && base % 8 == 0 && n <= nthreads
    ensures |r| == n
    ensures Cursor(r, n, njobs) <= n * (DoublesPerLine(lineSize) - 1 + njobs)
    decreases n
  {
    if n == 0 then []
    else
      var prev := Placements(n - 1, nthreads, base, lineSize, njobs);
      var used := Cursor(prev, n - 1, njobs);
      var size := ScratchSize(nthreads, njobs, DoublesPerLine(lineSize));
      PlaceChosen(n - 1, nthreads, njobs, lineSize, base, used, size);
      prev + [Place(base, used, size, lineSize)]
  }

  /** The last offset of `Placements(n, ...)` is `Place` from the cursor the
      previous threads left: at or after it, and cache-line aligned. */
  lemma PlacementsLast(n: nat, nthreads: nat, base: nat, lineSize: nat, njobs: nat)
    requires ValidLineSize(lineSize) && base % 8 == 0 && 0 < n <= nthreads
    ensures var prev := Placements(n - 1, nthreads, base, lineSize, njobs);
      var used := Cursor(prev, n - 1, njobs);
      var size := ScratchSize(nthreads, njobs, DoublesPerLine(lineSize));
      && used <= size
      && Placements(n, nthreads, base, lineSize, njobs) == prev + [Place(base, used, size, lineSize)]
      && used <= Place(base, used, size, lineSize)
      && (base + 8 * Place(base, used, size, lineSize)) % lineSize == 0
  {
    var prev := Placements(n - 1, nthreads, base, lineSize, njobs);
    var used := Cursor(prev, n - 1, njobs);
    PlaceChosen(n - 1, nthreads, njobs, lineSize, base, used, ScratchSize(nthreads, njobs, DoublesPerLine(lineSize)));
  }

  /** Offset `u` of `Placements(n, ...)` is the one `std::align` chooses from the
      cursor before it; appending later threads does not change it. */
  lemma {:induction false} PlacementAt(n: nat, nthreads: nat, base: nat, lineSize: nat, njobs: nat, u: nat)
    requires ValidLineSize(lineSize) && base % 8 == 0 && u < n <= nthreads
    ensures ChosenAt(Placements(n, nthreads, base, lineSize, njobs)[u],
                     Cursor(Placements(n, nthreads, base, lineSize, njobs), u, njobs),
                     base, lineSize, ScratchSize(nthreads, njobs, DoublesPerLine(lineSize)))
    decreases n
  {
    PlacementsLast(n, nthreads, base, lineSize, njobs);
    var prev := Placements(n - 1, nthreads, base, lineSize, njobs);
    var used := Cursor(prev, n - 1, njobs);
    var size := ScratchSize(nthreads, njobs, DoublesPerLine(lineSize));
    var off := Place(base, used, size, lineSize);
    if u < n - 1 {
      PlacementAt(n - 1, nthreads, base, lineSize, njobs, u);
      ChosenKept(prev, off, u, base, lineSize, njobs, size);
    } else {
      PlaceChosen(n - 1, nthreads, njobs, lineSize, base, used, size);
      CursorKept(prev, off, u, njobs);
      assert (prev + [off])[u] == off;
    }
  }

  /** Every offset of `Placements` is the one `std::align` chooses from the cursor before it. */
  lemma PlacementsChosen(n: nat, nthreads: nat, base: nat, lineSize: nat, njobs: nat)
    requires ValidLineSize(lineSize) && base % 8 == 0 && n <= nthreads
    ensures ChosenByAlign(Placements(n, nthreads, base, lineSize, njobs), base, lineSize, njobs,
                          ScratchSize(nthreads, njobs, DoublesPerLine(lineSize)))
  {
    forall u | 0 <= u < n
      ensures ChosenAt(Placements(n, nthreads, base, lineSize, njobs)[u],
                       Cursor(Placements(n, nthreads, base, lineSize, njobs), u, njobs),
                       base, lineSize, ScratchSize(nthreads, njobs, DoublesPerLine(lineSize)))
    {
      PlacementAt(n, nthreads, base, lineSize, njobs, u);
    }
  }

  /** The regions of `Placements` are aligned, increasing, disjoint and before the final cursor. */
  lemma {:induction false} PlacementsPlaced(n: nat, nthreads: nat, base: nat, lineSize: nat, njobs: nat)
    requires ValidLineSize(lineSize) && base % 8 == 0 && n <= nthreads
    ensures PlacedBefore(Placements(n, nthreads, base, lineSize, njobs), base, lineSize, njobs,
                         Cursor(Placements(n, nthreads, base, lineSize, njobs), n, njobs))
    decreases n
  {
    if n > 0 {
      PlacementsPlaced(n - 1, nthreads, base, lineSize, njobs);
      PlacementsLast(n, nthreads, base, lineSize, njobs);
      var prev := Placements(n - 1, nthreads, base, lineSize, njobs);
      var used := Cursor(prev, n - 1, njobs);
      var off := Place(base, used, ScratchSize(nthreads, njobs, DoublesPerLine(lineSize)), lineSize);
      PlacedExtend(prev, Placements(n, nthreads, base, lineSize, njobs), base, lineSize, njobs, off);
    }
  }

  /** `PlacedStep` with the cursors read off the offsets themselves. */
  lemma PlacedExtend(prev: seq<nat>, all: seq<nat>, base: nat, lineSize: nat, njobs: nat, off: nat)
    requires lineSize > 0 && PlacedBefore(prev, base, lineSize, njobs, Cursor(prev, |prev|, njobs))
    requires Cursor(prev, |prev|, njobs) <= off && (base + 8 * off) % lineSize == 0
    requires all == prev + [off]
    ensures PlacedBefore(all, base, lineSize, njobs, Cursor(all, |all|, njobs))
  {
    PlacedStep(prev, base, lineSize, njobs, Cursor(prev, |prev|, njobs), off);
    assert all[|prev|] == off;
  }

  /** The regions the spawn loop hands out are cache-line aligned, increasing and
      disjoint, and all lie inside `common`. */
  lemma PlacementsRegions(offsets: seq<nat>, nthreads: nat, base: nat, lineSize: nat, njobs: nat)
    requires ValidLineSize(lineSize) && base % 8 == 0
    requires offsets == Placements(nthreads, nthreads, base, lineSize, njobs)
    ensures |offsets| == nthreads
    ensures PlacedBefore(offsets, base, lineSize, njobs, ScratchSize(nthreads, njobs, DoublesPerLine(lineSize)))
  {
    PlacementsPlaced(nthreads, nthreads, base, lineSize, njobs);
    LineHoldsWholeDoubles(lineSize);
    var dpl := DoublesPerLine(lineSize);
    MulLeq(dpl - 1 + njobs, dpl + njobs, nthreads);
    PlacedWithin(offsets, base, lineSize, njobs, Cursor(offsets, nthreads, njobs), ScratchSize(nthreads, njobs, dpl));
  }

  /** Regions placed before a cursor are placed before any later bound. */
  lemma PlacedWithin(offsets: seq<nat>, base: nat, lineSize: nat, njobs: nat, used: nat, bound: nat)
    requires lineSize > 0
    requires PlacedBefore(offsets, base, lineSize, njobs, used) && used <= bound
    ensures PlacedBefore(offsets, base, lineSize, njobs, bound)
  {
  }

  /** On a 128-byte line from an aligned `common`, with three jobs thread 1's
      cursor stands at element 3 and `std::align` moves it to the next line, at
      element 16. */
  lemma PlacementsNextLine()
    ensures Placements(2, 2, 0, 128, 3) == [0, 16]
  {
    var p1 := Placements(1, 2, 0, 128, 3);
    assert p1 == [0] by {
      Line128();
      assert ScratchSize(2, 3, DoublesPerLine(128)) == 38;
      PlacementsLast(1, 2, 0, 128, 3);
      assert RoundUp(0, 128) == 0;
    }
    assert Placements(2, 2, 0, 128, 3) == p1 + [16] by {
      Line128();
      assert ScratchSize(2, 3, DoublesPerLine(128)) == 38;
      assert Cursor(p1, 1, 3) == 3;
      PlacementsLast(2, 2, 0, 128, 3);
      assert RoundUp(24, 128) == 128;
      assert AlignAt(0, 3, 38, 128) == AlignResult(true, 128, 176);
    }
  }

  /** Region `u` of `common`, at `offsets[u]`, holds thread `u`'s block. */
  ghost predicate RegionsHold(scratch: seq<int>, offsets: seq<nat>, njobs: nat, niter: nat, constant: int)
  {
    forall u :: 0 <= u < |offsets| ==>
      offsets[u] + njobs <= |scratch| && scratch[offsets[u]..offsets[u] + njobs] == Block(u, njobs, niter, constant)
  }

  /** A thread body that writes its block at or after the cursor leaves the
      blocks of the earlier threads, all before the cursor, where they were. */
  lemma RegionsKept(scratch: seq<int>, offsets: seq<nat>, base: nat, lineSize: nat, used: nat, off: nat,
                    njobs: nat, niter: nat, constant: int)
    requires lineSize > 0 && PlacedBefore(offsets, base, lineSize, njobs, used)
    requires RegionsHold(scratch, offsets, njobs, niter, constant)
    requires used <= off && off + njobs <= |scratch|
    ensures RegionsHold(Splice(scratch, off, Block(|offsets|, njobs, niter, constant)),
                        offsets + [off], njobs, niter, constant)
  {
    var t := |offsets|;
    var block := Block(t, njobs, niter, constant);
    var after := Splice(scratch, off, block);
    var all := offsets + [off];
    forall u | 0 <= u < |all|
      ensures all[u] + njobs <= |after| && after[all[u]..all[u] + njobs] == Block(u, njobs, niter, constant)
    {
      if u < t {
        var lo := offsets[u];
        forall k | lo <= k < lo + njobs ensures after[k] == scratch[k] {
          SpliceAt(scratch, off, block, k);
        }
        assert after[lo..lo + njobs] == scratch[lo..lo + njobs];
      } else {
        assert all[u] == off;
      }
    }
  }

  /** The spawn loop's state before thread `t`: the threads before it were handed
      the offsets `Placements(t, ...)`, and the cursor `used` stands just past the
      last of their regions. */
  ghost predicate Spawned(t: nat, nthreads: nat, base: nat, lineSize: nat, njobs: nat, offsets: seq<nat>, used: nat)
  {
    && ValidLineSize(lineSize) && base % 8 == 0 && t <= nthreads
    && offsets == Placements(t, nthreads, base, lineSize, njobs)
    && used == Cursor(offsets, t, njobs)
  }

  /** One iteration of the spawn loop, for thread `t`: `std::align` moves the
      cursor to the next cache-line boundary of `common` (at address `base`), the
      region there is the next offset of `Placements`, and the thread body runs on
      it, so that the output receives exactly thread `t`'s write. */
  method SpawnAligned(t: nat, nthreads: nat, njobs: nat, niter: nat, constant: int, lineSize: nat,
                      common: array<int>, base: nat, ghost offsets: seq<nat>, used: nat, output: array<int>)
    returns (commonPtr: nat)
    requires Spawned(t, nthreads, base, lineSize, njobs, offsets, used) && t < nthreads
    requires common.Length == ScratchSize(nthreads, njobs, DoublesPerLine(lineSize))
    requires t * njobs + njobs <= output.Length && common != output
    modifies common, output
    ensures Spawned(t + 1, nthreads, base, lineSize, njobs, offsets + [commonPtr], commonPtr + njobs)
    ensures used <= commonPtr && commonPtr + njobs <= common.Length
    ensures common[..] == Splice(old(common[..]), commonPtr, Block(t, njobs, niter, constant))
    ensures output[..] == ThreadWrite(old(output[..]), t, njobs, niter, constant)
  {
    PlaceChosen(t, nthreads, njobs, lineSize, base, used, common.Length);
    commonPtr := Place(base, used, common.Length, lineSize);
    assert (offsets + [commonPtr])[t] == commonPtr;
    // the thread body, given its region by value
    ComputeAndCopy(t, njobs, niter, constant, common, commonPtr, output);
  }

  /** `run_aligned`. Besides the output, it reports the address `base` that
      `common.data()` happened to have and the offsets handed to the threads:
      they are `Placements`, so each is where `std::align` moved the cursor, which
      never fails (`PlacementsChosen`); each is cache-line aligned, the regions are
      in increasing order and do not overlap, and every region lies inside `common`.
      The final contents `scratch` of `common` hold each thread's block in its region. */
  method RunAligned(nthreads: nat, njobs: nat, niter: nat, constant: int, lineSize: nat, output: array<int>)
    returns (ghost base: nat, ghost offsets: seq<nat>, ghost scratch: seq<int>)
    requires ValidLineSize(lineSize)
    requires InRange(nthreads, njobs, niter, constant)
    requires IsInt(DoublesPerLine(lineSize) + njobs) && IsInt(ScratchSize(nthreads, njobs, DoublesPerLine(lineSize)))
    requires nthreads * njobs <= output.Length
    modifies output
    ensures output[..] == Output(nthreads, njobs, niter, constant) + old(output[..])[nthreads * njobs..]
    ensures base % 8 == 0 && |offsets| == nthreads
    ensures offsets == Placements(nthreads, nthreads, base, lineSize, njobs)
    ensures PlacedBefore(offsets, base, lineSize, njobs, ScratchSize(nthreads, njobs, DoublesPerLine(lineSize)))
    ensures |scratch| == ScratchSize(nthreads, njobs, DoublesPerLine(lineSize))
    ensures RegionsHold(scratch, offsets, njobs, niter, constant)
  {
    var dpl := DoublesPerLine(lineSize);
    var common := new int[(dpl + njobs) * nthreads](_ => 0);
    ghost var size := ScratchSize(nthreads, njobs, dpl);
    assert common.Length == size;
    var data: nat :| data % 8 == 0;  // the address `common.data()`
    base := data;
    var used: nat := 0;
    offsets := [];
    var t := 0;
    while t < nthreads
      invariant t <= nthreads
      invariant Spawned(t, nthreads, data, lineSize, njobs, offsets, used)
      invariant RegionsHold(common[..], offsets, njobs, niter, constant)
      invariant output[..] == ApplyThreads(old(output[..]), Range(t), nthreads, njobs, niter, constant)
    {
      SpawnNext(old(output[..]), output[..], t, nthreads, njobs, niter, constant);
      PlacementsPlaced(t, nthreads, data, lineSize, njobs);
      ghost var before := common[..];
      var commonPtr := SpawnAligned(t, nthreads, njobs, niter, constant, lineSize, common, data, offsets, used, output);
      RegionsKept(before, offsets, data, lineSize, used, commonPtr, njobs, niter, constant);
      used := commonPtr + njobs;
      offsets := offsets + [commonPtr];
      t := t + 1;
    }
    scratch := common[..];
    PlacementsRegions(offsets, nthreads, base, lineSize, njobs);
    JoinAll(old(output[..]), output[..], nthreads, njobs, niter, constant);
  }
}
