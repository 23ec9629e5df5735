# False-sharing benchmark: the layouts and the cross-check

This project models the benchmark in `test-false_sharing`. The benchmark times
five ways for `nthreads` threads to produce the same buffer of
`njobs * nthreads` doubles. It then checks that the buffers agree.

Thread `t` owns the partition `[t * njobs, t * njobs + njobs)`. It writes
`constant + t * njobs, constant + t * njobs + 1, ...` into a working region
(`std::iota`). It adds `t` to each element `niter` times. It then moves the
region into its partition. The layouts differ only in where the working region
lives:

- **naive**: in the output itself.
- **spaced**: in a shared scratch buffer of `(DOUBLES_PER_CACHE_LINE + njobs) * nthreads`
  elements, at the fixed stride `t * njobs + DOUBLES_PER_CACHE_LINE * t`.
- **aligned**: in the same scratch buffer, at the first cache-line boundary at or
  after a cursor `used`, found with `std::align`.
- **new-aligned**: in a fresh cache-line-aligned `new double[njobs]` per thread.
- **new-vector**: in a fresh `std::vector<double>(njobs)` per thread.

Modules, one per source concern:

- `Geometry`: cache-line size, `DOUBLES_PER_CACHE_LINE`, scratch size.
- `Kernel`: `std::iota`, the `+= t` rounds and `std::copy_n` as methods on array regions.
- `Partition`: the partitions and the specification functions `Output`,
  `ThreadWrite` and `ApplyThreads`, with the lemmas about them.
- `Worker`: the thread body shared by the four layouts that copy back.
- `Naive`, `Spaced`, `Aligned`, `NewAligned`, `NewVector`: the layouts.
- `Driver`: `main` of `src/sharing.cpp`.
- `Monolith`: `main` of the single-file `sharing.cpp`, with a 128-byte line.

Each layout method is proved against `Partition.Output`. Its `ensures` says the
output holds `Output` on the first `njobs * nthreads` elements and is untouched
beyond them.

Threads run one after another in spawn order. `Partition.AnyOrder` justifies
this: any schedule in which every thread body runs at least once leaves the same
buffer. The partitions are disjoint (`Partition.ExactCover`), and so are the
working regions (`Spaced.SpacedRegionsDisjoint`, `Aligned.PlacedBefore` with `Aligned.RegionsKept`, fresh
arrays).

The same lemma covers the benchmark harness running a layout repeatedly on the
same buffer (`Partition.RerunChangesNothing`, `Driver.Repeat`).

The cross-check is modelled as written, although a reader would expect it to
compare all five buffers. It compares `naive`, `aligned`, `spaced` and again `aligned` with
`new_vector`, and never reads `new_aligned`. `Driver.CrossCheck` states exactly
this. Since every buffer holds `Output`, the check passes and `main` returns 0
(`Driver.Run`).

The aligned spawn loop of the single-file benchmark (`sharing.cpp:79-98`) is the
same as `src/aligned.cpp:14-31` with a 128-byte line. It is modelled by
`Aligned.RunAligned`, called from `Monolith.Run` through `Driver.Run`. The naive,
spaced and new-vector bodies of `sharing.cpp` likewise match their `src/`
counterparts.

## Model

| member | source | states |
|---|---|---|
| Geometry.LineHoldsWholeDoubles | src/aligned.cpp:10 | a power-of-two line of at least 8 bytes is a whole number, at least one, of doubles: `DOUBLES_PER_CACHE_LINE * 8 == CACHE_LINE_SIZE` |
| Geometry.LineMultipleIsDoubleMultiple | src/aligned.cpp:17 | every cache-line-aligned address is also `double`-aligned |
| Geometry.DoublesPerLine | src/spaced.cpp:9 | `CACHE_LINE_SIZE / sizeof(double)` is the number of whole doubles in a line: `8 * DPL <= CACHE_LINE_SIZE < 8 * DPL + 8` |
| Geometry.ScratchRegions | src/spaced.cpp:10 | the scratch buffer `(DPL + njobs) * nthreads` is `nthreads` regions of `njobs` plus `DPL` elements of slack per thread, so with one thread or more it holds a region and a line |
| Geometry.Line128 | sharing.cpp:47-48 | 128 is a valid line size and `DOUBLES_PER_LINE` is 16 |
| Kernel.Iota | src/naive.cpp:12 | `std::iota` on `[lo, lo + n)` writes `value, value + 1, ...` there and changes no other element |
| Kernel.AddOnce | src/naive.cpp:14-16 | one round of `+= t` shifts exactly the region by `t`; nothing else changes |
| Kernel.ShiftedTwice | src/naive.cpp:13-17 | two successive shifts of a region add up |
| Kernel.AddRepeatedly | src/naive.cpp:13-17 | `niter` rounds of `+= t` shift exactly the region by `niter * t`, element by element; nothing else changes |
| Kernel.CopyN | src/spaced.cpp:22 | `std::copy_n` puts the `n` source elements at `to` in the destination and changes nothing else |
| Partition.PartitionInBounds | src/naive.cpp:11 | the partition `[t * njobs, t * njobs + njobs)` of a thread `t < nthreads` ends within `njobs * nthreads` |
| Partition.PartitionsDisjoint | src/naive.cpp:11 | no index lies in two threads' partitions |
| Partition.PartitionOwner | src/naive.cpp:9-11 | every index below `njobs * nthreads` lies in the partition of some thread `t < nthreads` |
| Partition.ExactCover | src/naive.cpp:9-11 | an index is below `njobs * nthreads` iff some thread owns it, and then exactly one does |
| Partition.Output | src/naive.cpp:9-18 | the expected buffer has exactly `njobs * nthreads` elements |
| Partition.OutputAt | src/naive.cpp:11-17 | closed form: element `t * njobs + j` of the expected buffer is `constant + t * njobs + j + niter * t` |
| Partition.Block | src/naive.cpp:12-17 | the block one thread body computes has `njobs` elements, element `j` being `constant + t * njobs + j + niter * t` |
| Partition.OutputWithoutIterations | src/naive.cpp:12 | with `niter == 0` element `k` is `constant + k` |
| Partition.OutputExample | src/naive.cpp:11-17 | two threads, three jobs, two iterations, seed 100 give `100, 101, 102, 105, 106, 107` |
| Partition.NothingToDo | src/naive.cpp:10 | with no threads or no jobs the buffer is left as it was |
| Partition.ThreadWrite | src/naive.cpp:11-17 | one thread body sets each index of its partition to `constant + k + niter * t` and leaves every other index alone |
| Partition.ApplyThreads | src/naive.cpp:10-18 | running a sequence of thread bodies on a buffer keeps its length (what it leaves at each index is `Partition.ApplyThreadsAt`) |
| Partition.ApplyThreadsAt | src/naive.cpp:10-18 | after a sequence of thread bodies, an index owned by one of them holds that thread's value, and any other index its original value |
| Partition.AnyOrder | src/naive.cpp:10-23 | every schedule that runs each thread `t < nthreads` at least once, in any order and however often, yields `Output` followed by the untouched tail |
| Partition.KernelLeavesBlock | src/naive.cpp:12-17 | `std::iota` followed by the `+= t` rounds leaves exactly thread `t`'s block in the region and nothing else changed |
| Partition.SpawnNext | src/naive.cpp:10-18 | after threads `0 .. t - 1`, thread `t`'s partition is in bounds and running its body gives the state after threads `0 .. t` |
| Partition.JoinAll | src/naive.cpp:10-23 | once all `nthreads` bodies have run in spawn order, the buffer is `Output` followed by the untouched tail |
| Partition.RangeRunsAll | src/naive.cpp:10 | spawn order `0 .. nthreads - 1` runs every thread and only those |
| Partition.RerunChangesNothing | src/sharing.cpp:33-35 | running all thread bodies again on their own result changes nothing (idempotence under the benchmark's repetitions) |
| Partition.NoOverflow | src/naive.cpp:11-17 | under the range precondition `start`, `end`, the seed and the seed `std::iota` ends at (one past the last element) fit an `int`, and every intermediate value is an exact double |
| Worker.ComputeAndCopy | src/spaced.cpp:14-22 | the shared thread body leaves its block in the working region and performs exactly thread `t`'s write on the output |
| Naive.NaiveThread | src/naive.cpp:11-17 | the naive thread body performs exactly thread `t`'s write on the output |
| Naive.RunNaive | src/naive.cpp:6-24 | the output holds `Output` on its first `njobs * nthreads` elements, and the rest is untouched |
| Spaced.SpacedStart | src/spaced.cpp:15 | thread `t`'s region starts `t` strides of `njobs + DPL` into the scratch buffer |
| Spaced.SpacedRegionInScratch | src/spaced.cpp:10-15 | thread `t`'s region at `t * njobs + DPL * t`, followed by `DPL` elements, lies inside the `(DPL + njobs) * nthreads` scratch buffer |
| Spaced.SpacedNoOverflow | src/spaced.cpp:15 | with the scratch size an `int`, so are `DOUBLES_PER_CACHE_LINE * t` and thread `t`'s offset |
| Spaced.SpacedGap | src/spaced.cpp:15 | exactly `DPL` elements separate thread `t`'s region from thread `t + 1`'s |
| Spaced.SpacedRegionsSeparated | src/spaced.cpp:15 | any earlier region ends at least `DPL` elements before a later one starts |
| Spaced.SpacedRegionsDisjoint | src/spaced.cpp:15 | no scratch element lies in two threads' regions |
| Spaced.ScratchStep | src/spaced.cpp:15-20 | one thread body keeps the scratch invariant: regions of finished threads hold their values, everything else is zero |
| Spaced.ScratchFinal | src/spaced.cpp:10-20 | when all threads are done, padding is still zero and each region holds its thread's values |
| Spaced.SpacedThread | src/spaced.cpp:14-22 | one spaced thread body extends the scratch invariant to thread `t` and performs exactly thread `t`'s write on the output |
| Spaced.RunSpaced | src/spaced.cpp:6-29 | the output holds `Output` with the tail untouched; the scratch buffer has `(DPL + njobs) * nthreads` elements and meets the scratch invariant for all threads, so (by `Spaced.ScratchFinal`) its padding is zero and each region holds its thread's values |
| Aligned.RoundUp | src/aligned.cpp:17 | the rounded address is aligned and lies in `[p, p + alignment)` |
| Aligned.RoundUpIsFirst | src/aligned.cpp:17 | no aligned address lies between `p` and the rounded address, so the adjustment is minimal |
| Aligned.StdAlign | src/aligned.cpp:17 | `std::align` succeeds iff the rounded pointer leaves room for `size` bytes; on success the pointer is aligned, moves less than one alignment forward and the space shrinks by the same amount; on failure both are unchanged |
| Aligned.AlignAt | src/aligned.cpp:15-17 | the `std::align` call of one iteration, from the cursor's address with the bytes left in `common`: on success the pointer is at or after the cursor and pointer plus space is the end of `common`; on failure the pointer is the cursor |
| Aligned.Place | src/aligned.cpp:15-19 | the offset handed to thread `t` is cache-line aligned, at least `used` and less than `used + DPL`, or equal to `used` if `std::align` failed |
| Aligned.AlignedOffset | src/aligned.cpp:15-18 | the pointer `std::align` returns is a whole number of doubles past `common.data()`, less than one line past the cursor |
| Aligned.AlignedWithinLine | src/aligned.cpp:17 | from a `double`-aligned address the next line boundary is at most one line minus one double away |
| Aligned.RoomForALine | src/aligned.cpp:16-17 | if a line's worth of doubles is left after the cursor, `std::align` succeeds |
| Aligned.BudgetArithmetic | src/aligned.cpp:11-19 | if the cursor used at most `DPL - 1 + njobs` elements per earlier thread, a further line and a further such step still fit in the scratch buffer |
| Aligned.PlacementInBudget | src/aligned.cpp:11-19 | under that budget `std::align` never fails for `t < nthreads`, and the region it yields ends within `(t + 1) * (DPL - 1 + njobs) <= (DPL + njobs) * nthreads` |
| Aligned.PlacedStep | src/aligned.cpp:19 | advancing the cursor to `offset + njobs` keeps the handed-out regions aligned, increasing, disjoint and before the cursor |
| Aligned.PlaceChosen | src/aligned.cpp:15-19 | within the budget of `DPL - 1 + njobs` elements per earlier thread, the cursor is inside `common`, `std::align` succeeds from it, and the region it yields ends within the next thread's budget |
| Aligned.ChosenKept | src/aligned.cpp:14-19 | handing out a further region does not change how an earlier offset was chosen |
| Aligned.CursorKept | src/aligned.cpp:19 | handing out a further region does not move the cursor any earlier thread started from |
| Aligned.Placements | src/aligned.cpp:12-19 | the spawn loop hands out one offset per thread, and its cursor stays within `DPL - 1 + njobs` elements per thread |
| Aligned.PlacementsLast | src/aligned.cpp:14-19 | the offset of thread `n - 1` is `Place` from the cursor `offset + njobs` that thread `n - 2` left (0 for thread 0); that cursor lies inside `common`, and the offset is at or after it and cache-line aligned |
| Aligned.PlacementAt | src/aligned.cpp:14-19 | each thread's offset is the one `std::align` chooses from that thread's cursor: the call succeeds and the offset is the first line boundary in `[cursor, cursor + DPL)` |
| Aligned.PlacementsChosen | src/aligned.cpp:14-19 | every offset the spawn loop hands out is chosen by a successful `std::align` from the cursor before it |
| Aligned.PlacementsPlaced | src/aligned.cpp:14-19 | the handed-out regions are cache-line aligned, increasing, disjoint and all before the cursor |
| Aligned.PlacedWithin | src/aligned.cpp:11-19 | regions placed before a cursor stay placed before any larger bound |
| Aligned.ElementOffset | src/aligned.cpp:18-19 | a double-aligned address inside `common` between the cursor and one line past it is a whole element offset in that range |
| Aligned.PlacementsRegions | src/aligned.cpp:11-19 | all `nthreads` regions are cache-line aligned, lie inside the `(DPL + njobs) * nthreads` scratch buffer, and are increasing and disjoint |
| Aligned.PlacementsNextLine | src/aligned.cpp:14-19 | with a 128-byte line, an aligned `common` and three jobs, the two threads get offsets 0 and 16: the second cursor, at 3, is moved to the next line |
| Aligned.SpawnAligned | src/aligned.cpp:15-30 | one iteration of the spawn loop hands thread `t` the offset `Placements` prescribes, at or after the cursor and inside `common`, moves the cursor past its region, writes exactly thread `t`'s block there and nothing else in `common`, and performs exactly thread `t`'s write on the output |
| Aligned.RegionsKept | src/aligned.cpp:19-29 | a body writing its block at or after the cursor leaves every earlier thread's block, all before the cursor, in place |
| Aligned.RunAligned | src/aligned.cpp:7-36 | the output holds `Output` with the tail untouched; the offsets handed to the threads are exactly `Placements` (each chosen by `std::align` from the cursor before it, by `Aligned.PlacementsChosen`), cache-line aligned, increasing, disjoint and inside `common`; and the final `common` holds each thread's block in its region |
| NewVector.NewVectorThread | src/new_vector.cpp:12-21 | the fresh payload ends with `constant + t * njobs + j + niter * t` at `j`, and the output receives exactly thread `t`'s write |
| NewVector.RunNewVector | src/new_vector.cpp:6-28 | the output holds `Output` on its first `njobs * nthreads` elements, and the rest is untouched |
| NewAligned.NewAlignedThread | sharing.cpp:113-122 | whatever the uninitialised block held, it ends with `constant + t * njobs + j + niter * t` at `j`, and the output receives exactly thread `t`'s write |
| NewAligned.RunNewAligned | sharing.cpp:107-129 | the output holds `Output` on its first `njobs * nthreads` elements, and the rest is untouched |
| Driver.Constant | src/sharing.cpp:30 | `CONSTANT` is at least `njobs` and at least `niter * nthreads` |
| Driver.CrossCheck | src/sharing.cpp:57-61 | the check passes iff at every index `naive`, `aligned` and `spaced` equal `new_vector`; `new_aligned` plays no part |
| Driver.Repeat | src/sharing.cpp:33-55 | running a layout one or more times on a buffer of `njobs * nthreads` elements leaves exactly `Output` in it |
| Driver.Run | src/sharing.cpp:30-63 | `main` returns 0 and all five buffers hold `Output` for `CONSTANT = niter * nthreads + njobs` |
| Monolith.Run | sharing.cpp:24-162 | the single-file `main` returns 0 and all five buffers hold `Output` |

## Left out

- Thread spawning and joining: the thread bodies run sequentially in spawn order. `Partition.AnyOrder` shows the order does not matter, because the bodies write disjoint indices. Interleavings inside a body are not modelled.
- Timing, cache-line contention and false sharing itself: these are performance effects with no functional counterpart.
- The nanobench harness: how often it runs a layout (including `minEpochIterations(10)`) is a parameter of at least one per layout.
- Command-line parsing and its defaults: `niter`, `nthreads` and `njobs` are non-negative parameters. Negative values, which the `int` options would accept, are not modelled.
- Doubles: elements are integers. `Partition.InRange` keeps every stored value within 2^53, where doubles are exact, and keeps a thread's `start`, `end` and seeds within `int` (`Partition.NoOverflow`). The scratch arithmetic of the spaced and aligned layouts and `main` (`DOUBLES_PER_CACHE_LINE + njobs`, the scratch size, `DOUBLES_PER_CACHE_LINE * t`) is kept within `int` by the separate preconditions `IsInt(DoublesPerLine(lineSize) + njobs)` and `IsInt(ScratchSize(..))` of `Spaced.RunSpaced`, `Aligned.RunAligned`, `Driver.Repeat` and `Driver.DriverInRange` (`Spaced.SpacedNoOverflow`).
- Geometry.ValidLineSize: `CACHE_LINE_SIZE` is taken to be a power of two of at least `sizeof(double)` bytes; the build may set any value, and other values are not modelled.
- Aligned.RunAligned: the address of `common.data()` is an arbitrary multiple of `sizeof(double)`. Pointers are byte addresses, and `reinterpret_cast` is not modelled further.
- NewAligned.NewAlignedThread: the cache-line alignment that `operator new` with `std::align_val_t` gives the block is not modelled, and neither is the `delete[]` after the copy. The block is a fresh array whose initial contents are unknown.
- Allocation failure (`std::bad_alloc`) of any buffer is not modelled.
- The definition of `run_new_aligned` that `src/sharing.cpp` declares is not part of this model. `Driver.Run` uses the inline new-aligned body of `sharing.cpp` in its place.
