# Custom-kernel benchmarks: the integer core of the BFS and Mandelbrot drivers

The TornadoVM custom-kernel examples run a prebuilt OpenCL kernel next to a
sequential Java reference and compare the two. This project models the
integer logic of two of those drivers and proves what it computes.

* **BFS driver** (`BFSCustomBenchmark`):
  * the adjacency-matrix builder (`connect`, `generateRandomGraph`);
  * the vertex initialiser;
  * one level-synchronous sweep (`runBFSSequential`) and the capped loop around it (`runSequentialBFS`);
  * the work-group size loop and the warm-up and measured convergence loops of `benchmarkKernel`;
  * the exact validator;
  * the flow of `main` that ties these together.

  The graph is an n x n 0/1 matrix kept row-major in one `int` buffer. A
  vertex's value is its BFS level: 0 at the root, -1 while unvisited.
  The main theorem, `BfsLevels.SequentialBfsCorrect`, states that the
  reference levels are shortest-path distances from the root.
* **Mandelbrot driver** (`MandelbrotCustomBenchmark`):
  * the integer skeleton of `mandelbrotSequential`: the bounded escape counter `y` and the grey value `(short) ((y * 255) / ITERATIONS)`;
  * the tolerant validator, which compares `short` pixels with a tolerance of one grey level, counts every mismatch and reports the first ten.

Modules:

* `Grid` (`grid.dfy`): lemmas about row-major addressing, `row * n + col`.
* `BfsGraph` (`bfs_graph.dfy`): `connect` and `generateRandomGraph`.
* `BfsLevels` (`bfs_levels.dfy`):
  * `initializeVertices`, `runBFSSequential` and `runSequentialBFS`;
  * the spec function `Converge` for the capped loop;
  * the shortest-path theorem.
* `BfsBenchmark` (`bfs_benchmark.dfy`): the device side of `benchmarkKernel`, `validate` and `main`.
* `Mandelbrot` (`mandelbrot.dfy`): `mandelbrotSequential` and `validate`.

The mutating Java routines are methods over arrays. Each one is proved
against a spec function on sequences: `Connected`, `RandomGraph`,
`InitialLevels`, `Sweep`, `Converge`, `StepsBounded`, `Offending` and
`Collected`. The lemmas state the promised properties about those functions.

Inputs the model cannot see become parameters:

* The values of `new Random(42).ints(_, 0, n)` are a sequence `draws` with values in `[0, n)`. Both random streams the generator takes, the source vertices and `generateIntRandomArray`, are built from a fresh `Random(42)`. They are therefore prefixes of the same sequence, and the model uses one `draws` for both.
* The prebuilt kernel run by `plan.execute()` is a `Kernel` value: a total function from the five bound buffers to the new `vertices` and `modify` contents.
* The single-precision escape test `ZiN + ZrN <= 4.0f` of pixel (i, j) at step ii is an `EscapeTest` predicate.

## Model

| member | source | states |
|---|---|---|
| BfsGraph.Connect | tornado-examples/src/main/java/uk/ac/manchester/tornado/examples/compute/custom/BFSCustomBenchmark.java:125-129 | the matrix after `connect(from, to)` is `Connected` of the matrix before |
| BfsGraph.ConnectedWritesOneCell | tornado-examples/src/main/java/uk/ac/manchester/tornado/examples/compute/custom/BFSCustomBenchmark.java:125-129 | only cell `from * n + to` can change; the matrix changes exactly when from != to and that cell held 0; afterwards the cell is 1 exactly when it was 1, or it was 0 with from != to |
| BfsGraph.ConnectedIdempotent | tornado-examples/src/main/java/uk/ac/manchester/tornado/examples/compute/custom/BFSCustomBenchmark.java:125-129 | connecting the same pair twice equals connecting it once |
| BfsGraph.ConnectedKeepsSimple | tornado-examples/src/main/java/uk/ac/manchester/tornado/examples/compute/custom/BFSCustomBenchmark.java:125-129 | `connect` keeps every entry 0 or 1 and every diagonal entry 0 |
| BfsGraph.GenerateRandomGraph | tornado-examples/src/main/java/uk/ac/manchester/tornado/examples/compute/custom/BFSCustomBenchmark.java:131-155 | after `init(0)` and the nested `connect` loops, the matrix is `RandomGraph`: 1 exactly at (source, target) pairs of distinct vertices |
| BfsGraph.RandomGraphIsSimple | tornado-examples/src/main/java/uk/ac/manchester/tornado/examples/compute/custom/BFSCustomBenchmark.java:138-155 | the generated matrix is 0/1 with a zero diagonal |
| BfsGraph.RandomGraphEdges | tornado-examples/src/main/java/uk/ac/manchester/tornado/examples/compute/custom/BFSCustomBenchmark.java:138-155 | (u, v) is an edge exactly when u != v, u is a drawn source (the root replacing the first draw) and v is one of the min(10, n) targets |
| BfsGraph.RootReachesTargets | tornado-examples/src/main/java/uk/ac/manchester/tornado/examples/compute/custom/BFSCustomBenchmark.java:145-150 | when n / 10 >= 1 the first source is the root, and the root has an edge to exactly the targets other than itself |
| BfsLevels.InitializeVertices | tornado-examples/src/main/java/uk/ac/manchester/tornado/examples/compute/custom/BFSCustomBenchmark.java:157-165 | the first numNodes entries become 0 at the root and -1 elsewhere; later entries are unchanged |
| BfsLevels.RunBfsSweep | tornado-examples/src/main/java/uk/ac/manchester/tornado/examples/compute/custom/BFSCustomBenchmark.java:167-182 | the new levels are `Sweep` of the old levels at the current depth; `modify` becomes 0 exactly when some level changed and is otherwise kept; the matrix and the depth are not written |
| BfsLevels.HasParentIff | tornado-examples/src/main/java/uk/ac/manchester/tornado/examples/compute/custom/BFSCustomBenchmark.java:171-177 | scanning the source rows below k finds a parent of v at depth d exactly when some u < k has an edge to v and level d |
| BfsLevels.SweepAddsOneLevel | tornado-examples/src/main/java/uk/ac/manchester/tornado/examples/compute/custom/BFSCustomBenchmark.java:173-177 | a sweep changes v exactly when v was -1 and has an in-edge from a vertex at the current depth, and a changed level is depth + 1; a vertex set in the sweep never propagates in it |
| BfsLevels.ConvergeBounds | tornado-examples/src/main/java/uk/ac/manchester/tornado/examples/compute/custom/BFSCustomBenchmark.java:193-205 | for any kernel the capped loop runs at least one and at most 50 sweeps, and ends on a quiet sweep or at the cap |
| BfsLevels.RunSequentialBfs | tornado-examples/src/main/java/uk/ac/manchester/tornado/examples/compute/custom/BFSCustomBenchmark.java:184-209 | the final levels, iteration count and done flag are `Converge` of the reference sweep from the initial levels, with sweep k at depth k |
| BfsLevels.SweepExact | tornado-examples/src/main/java/uk/ac/manchester/tornado/examples/compute/custom/BFSCustomBenchmark.java:167-182 | a sweep at depth k turns levels that are exact distances up to k into exact distances up to k + 1 |
| BfsLevels.ReachStable | tornado-examples/src/main/java/uk/ac/manchester/tornado/examples/compute/custom/BFSCustomBenchmark.java:193-205 | once one more edge reaches nothing new, no longer path reaches anything new |
| BfsLevels.ConvergeExact | tornado-examples/src/main/java/uk/ac/manchester/tornado/examples/compute/custom/BFSCustomBenchmark.java:193-205 | the reference loop keeps its levels exact, and a loop that stops on a quiet sweep has levelled every reachable vertex |
| BfsLevels.SequentialBfsCorrect | tornado-examples/src/main/java/uk/ac/manchester/tornado/examples/compute/custom/BFSCustomBenchmark.java:184-209 | the loop stops after 1 to 50 sweeps (quiet or capped); every level is -1 or in [0, iterations]; every level is a shortest-path distance; -1 means no path of at most `iterations` edges, and after a quiet stop -1 means unreachable; a level d >= 1 has an in-edge from a level d - 1 |
| BfsLevels.LevelHasParent | tornado-examples/src/main/java/uk/ac/manchester/tornado/examples/compute/custom/BFSCustomBenchmark.java:173-177 | with exact levels, a vertex at level d >= 1 has an in-edge from a vertex at level d - 1 |
| BfsLevels.GeneratedGraphShallow | tornado-examples/src/main/java/uk/ac/manchester/tornado/examples/compute/custom/BFSCustomBenchmark.java:131-155 | in the generated graph, anything two edges from the root is at most one edge from it |
| BfsLevels.GeneratedBfsStopsEarly | tornado-examples/src/main/java/uk/ac/manchester/tornado/examples/compute/custom/BFSCustomBenchmark.java:71-75 | on the graph `main` builds, the reference loop stops on a quiet sweep after at most two sweeps |
| BfsBenchmark.LocalWorkSize | tornado-examples/src/main/java/uk/ac/manchester/tornado/examples/compute/custom/BFSCustomBenchmark.java:235-241 | the local size is in [1, 16], divides numNodes, and is the largest such divisor; the `localSize < 1` branch is unreachable |
| BfsBenchmark.Execute | tornado-examples/src/main/java/uk/ac/manchester/tornado/examples/compute/custom/BFSCustomBenchmark.java:227-230 | one `plan.execute()` replaces `vertices` and `modify` by the kernel's output on the four transferred buffers and changes nothing else |
| BfsBenchmark.RunOnDevice | tornado-examples/src/main/java/uk/ac/manchester/tornado/examples/compute/custom/BFSCustomBenchmark.java:253-268 | one warm-up or measured run re-initialises the levels and ends in `Converge` of the kernel, the same capped loop as the reference |
| BfsBenchmark.BenchmarkKernel | tornado-examples/src/main/java/uk/ac/manchester/tornado/examples/compute/custom/BFSCustomBenchmark.java:211-295 | the local size is the largest divisor of numNodes up to 16; all 30 measured runs have the same outcome, `Converge` of the kernel; `vertices` ends with its levels |
| BfsBenchmark.AgreeingKernelsConverge | tornado-examples/src/main/java/uk/ac/manchester/tornado/examples/compute/custom/BFSCustomBenchmark.java:255-267 | two kernels that agree on every input drive the capped loop to the same outcome |
| BfsBenchmark.Validate | tornado-examples/src/main/java/uk/ac/manchester/tornado/examples/compute/custom/BFSCustomBenchmark.java:297-306 | true exactly when both arrays agree on [0, numNodes); on false, the reported index is the first one at which they differ; nothing is written |
| BfsBenchmark.CompareKernels | tornado-examples/src/main/java/uk/ac/manchester/tornado/examples/compute/custom/BFSCustomBenchmark.java:53-91 | each kernel is declared valid exactly when its convergence loop, from root 0 on the generated graph, reaches the reference levels |
| Mandelbrot.StepsBounded | tornado-examples/src/main/java/uk/ac/manchester/tornado/examples/compute/custom/MandelbrotCustomBenchmark.java:138-148 | the count is at most the cap, every step before it is bounded, and below the cap the step it names is the first escape |
| Mandelbrot.StepsBoundedUnique | tornado-examples/src/main/java/uk/ac/manchester/tornado/examples/compute/custom/MandelbrotCustomBenchmark.java:138-148 | those properties determine the count |
| Mandelbrot.EscapeSteps | tornado-examples/src/main/java/uk/ac/manchester/tornado/examples/compute/custom/MandelbrotCustomBenchmark.java:136-148 | y lies in [0, ITERATIONS]; the first y steps are bounded, and y < ITERATIONS means step y escapes, so y is `StepsBounded` of the pixel |
| Mandelbrot.PixelValue | tornado-examples/src/main/java/uk/ac/manchester/tornado/examples/compute/custom/MandelbrotCustomBenchmark.java:149 | the grey value lies in [0, 255]; it is 255 exactly when y reaches ITERATIONS, and 0 exactly when y * 255 < ITERATIONS |
| Mandelbrot.PixelValueMonotone | tornado-examples/src/main/java/uk/ac/manchester/tornado/examples/compute/custom/MandelbrotCustomBenchmark.java:149 | more bounded steps never give a smaller grey value |
| Mandelbrot.MandelbrotSequential | tornado-examples/src/main/java/uk/ac/manchester/tornado/examples/compute/custom/MandelbrotCustomBenchmark.java:125-153 | for a positive size, entry `i * size + j` is the grey value of pixel (i, j); otherwise the image is unchanged |
| Mandelbrot.ImageInRange | tornado-examples/src/main/java/uk/ac/manchester/tornado/examples/compute/custom/MandelbrotCustomBenchmark.java:136-150 | every pixel of the reference image is in [0, 255], and it is 255 exactly when the point stays bounded for all ITERATIONS steps |
| Mandelbrot.Offending | tornado-examples/src/main/java/uk/ac/manchester/tornado/examples/compute/custom/MandelbrotCustomBenchmark.java:214-226 | every listed index lies below k |
| Mandelbrot.OffendingExact | tornado-examples/src/main/java/uk/ac/manchester/tornado/examples/compute/custom/MandelbrotCustomBenchmark.java:218 | an index is listed exactly when it is below k and its two values differ by more than 1 |
| Mandelbrot.OffendingStep | tornado-examples/src/main/java/uk/ac/manchester/tornado/examples/compute/custom/MandelbrotCustomBenchmark.java:214-226 | scanning one more index appends it exactly when it is out of tolerance |
| Mandelbrot.OffendingIncreasing | tornado-examples/src/main/java/uk/ac/manchester/tornado/examples/compute/custom/MandelbrotCustomBenchmark.java:214-226 | the offending indices come in strictly increasing order |
| Mandelbrot.NoneOffending | tornado-examples/src/main/java/uk/ac/manchester/tornado/examples/compute/custom/MandelbrotCustomBenchmark.java:225-231 | no index is offending exactly when every pair is within the tolerance |
| Mandelbrot.CollectedAreFirstOffending | tornado-examples/src/main/java/uk/ac/manchester/tornado/examples/compute/custom/MandelbrotCustomBenchmark.java:219-224 | the reported mismatches are those of the first min(10, errors) offending indices, in index order |
| Mandelbrot.Validate | tornado-examples/src/main/java/uk/ac/manchester/tornado/examples/compute/custom/MandelbrotCustomBenchmark.java:212-232 | true exactly when every pixel of [0, size * size) is within one grey level, exactly when `errors` is 0; `errors` counts every offending pixel; the reports are the first ten with Java's row and column; nothing is written |
| Mandelbrot.RowColDecomposition | tornado-examples/src/main/java/uk/ac/manchester/tornado/examples/compute/custom/MandelbrotCustomBenchmark.java:220-221 | for size > 0, `row = i / size` and `col = i % size` lie in [0, size) and `row * size + col == i` |
| Mandelbrot.SingleDifference | tornado-examples/src/main/java/uk/ac/manchester/tornado/examples/compute/custom/MandelbrotCustomBenchmark.java:218 | two images that differ in one pixel pass when it is off by at most 1, and otherwise fail with that pixel as the only mismatch |

## Left out

- Timing: `System.nanoTime` and `LongSummaryStatistics`. The measured runs return their outcomes instead of their durations. The speedup and throughput arithmetic, and the "faster kernel" verdict, are `double` arithmetic for printing only.
- Console output and argument parsing. The mismatch lines that the validators print are returned as values: the first differing index for BFS, and `Mismatch` records for Mandelbrot.
- The TornadoVM runtime: task graphs, accessor parameters, `GridScheduler` and `WorkerGrid2D`. The work-group size is computed but not handed to a scheduler. `plan.execute()` is the `Kernel` parameter; OpenCL source cannot be seen from Java.
- `java.util.Random` itself: its draws are the `draws` parameter. Random.ints throws when the bound is not above the origin, so `GenerateRandomGraph` requires n >= 1.
- The single-precision escape arithmetic of `mandelbrotSequential` is the `EscapeTest` predicate.
- The other drivers, matrix multiplication, matrix-vector product and the Pi series, are floating point only and are not modelled. The Mandelbrot benchmark's device runs are also not modelled.
- 32-bit `int` overflow is not modelled: integers are unbounded. Overflow would matter only beyond the sizes the drivers use. `numNodes * numNodes` and `size * size` overflow for sizes above 46340, and `y * 255` cannot overflow.
- BfsLevels.RunBfsSweep: requires `currentDepth[0] >= 0`. Its only callers pass the loop counter. With depth -1 an unvisited vertex could act as a parent, and the closed form `Sweep` would not apply.
- BfsLevels.RunSequentialBfs: requires the level buffer to hold exactly numNodes entries and the matrix numNodes * numNodes, the sizes `main` allocates.
- BfsBenchmark.Execute: requires a kernel that keeps the length of `vertices` (`PreservesLength`). A device buffer is copied back at its own size, so no kernel can do otherwise.
