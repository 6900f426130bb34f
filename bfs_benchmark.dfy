/** The device side of the BFS benchmark and its check against the
    sequential reference: the work-group size, the convergence loop that
    drives a prebuilt kernel, the warm-up and measured runs, the exact
    validator and the flow of `main` that ties them together. The kernel
    itself is compiled elsewhere and reaches the model as a `Kernel` value. */
module BfsBenchmark {
  import opened Grid
  import opened BfsGraph
  import opened BfsLevels

  const WarmUpIterations := 10
  const BenchmarkIterations := 30
  /** The work-group edge the benchmark tries first. */
  const PreferredLocalSize := 16

  // ---------------------------------------------------------------------
  // The local work size
  // ---------------------------------------------------------------------

  /** The edge of the square work group: the largest divisor of numNodes
      that is at most 16 (1 always divides). Java's `%` truncates, but a
      remainder is zero under truncation exactly when it is zero under
      Dafny's Euclidean `%`, so the test means the same thing. */
  method LocalWorkSize(numNodes: int) returns (localSize: int)
    ensures 1 <= localSize <= PreferredLocalSize
    ensures numNodes % localSize == 0
    ensures forall s :: localSize < s <= PreferredLocalSize ==> numNodes % s != 0
  {
    localSize := PreferredLocalSize;
    while numNodes % localSize != 0 && localSize > 1
      invariant 1 <= localSize <= PreferredLocalSize
      invariant forall s :: localSize < s <= PreferredLocalSize ==> numNodes % s != 0
      decreases localSize
    {
      localSize := localSize - 1;
    }
    if localSize < 1 {
      // the loop stops at 1 at the latest
      assert false;
      localSize := 1;
    }
  }

  // ---------------------------------------------------------------------
  // One execution of the task graph
  // ---------------------------------------------------------------------

  /** A kernel writes into the buffers it is given and cannot resize them. */
  ghost predicate PreservesLength(kernel: Kernel)
  {
    forall lv, adj, n, m, d :: |kernel(lv, adj, n, m, d).vertices| == |lv|
  }

  lemma KernelKeepsLength(kernel: Kernel, lv: seq<int>, adj: seq<int>, n: int, m: int, d: int)
    requires PreservesLength(kernel)
    ensures |kernel(lv, adj, n, m, d).vertices| == |lv|
  {
  }

  /** `plan.execute()`: the four buffers go to the device, the kernel runs,
      and `vertices` and `modify` come back to the host. */
  method Execute(kernel: Kernel, vertices: array<int>, adjacencyMatrix: array<int>, numNodes: int,
                 modifyFlag: array<int>, currentDepth: array<int>)
    requires PreservesLength(kernel)
    requires modifyFlag.Length == 1 && currentDepth.Length == 1
    requires vertices != modifyFlag && vertices != currentDepth && modifyFlag != currentDepth
    requires adjacencyMatrix != vertices && adjacencyMatrix != modifyFlag
    modifies vertices, modifyFlag
    ensures vertices[..] == kernel(old(vertices[..]), adjacencyMatrix[..], numNodes,
                                   old(modifyFlag[0]), currentDepth[0]).vertices
    ensures modifyFlag[0] == kernel(old(vertices[..]), adjacencyMatrix[..], numNodes,
                                    old(modifyFlag[0]), currentDepth[0]).modifyFlag
  {
    var out := kernel(vertices[..], adjacencyMatrix[..], numNodes, modifyFlag[0], currentDepth[0]);
    ghost var adj := adjacencyMatrix[..];
    KernelKeepsLength(kernel, vertices[..], adjacencyMatrix[..], numNodes, modifyFlag[0], currentDepth[0]);
    forall i | 0 <= i < vertices.Length {
      vertices[i] := out.vertices[i];
    }
    modifyFlag[0] := out.modifyFlag;
    assert vertices[..] == out.vertices;
    assert adjacencyMatrix[..] == adj;
  }

  /** One warm-up or measured run: reset the levels, then drive the kernel
      through the capped loop, exactly as the sequential reference does. */
  method RunOnDevice(kernel: Kernel, adjacencyMatrix: array<int>, vertices: array<int>, numNodes: int,
                     root: int, modifyFlag: array<int>, currentDepth: array<int>)
    returns (iterations: int, done: bool)
    requires PreservesLength(kernel)
    requires vertices.Length == numNodes && modifyFlag.Length == 1 && currentDepth.Length == 1
    requires vertices != modifyFlag && vertices != currentDepth && modifyFlag != currentDepth
    requires adjacencyMatrix != vertices && adjacencyMatrix != modifyFlag && adjacencyMatrix != currentDepth
    modifies vertices, modifyFlag, currentDepth
    ensures Outcome(vertices[..], iterations, done) ==
            Converge(kernel, adjacencyMatrix[..], numNodes, InitialLevels(numNodes, root), 0)
  {
    InitializeVertices(vertices, numNodes, root);
    ghost var start := vertices[..];
    assert start == InitialLevels(numNodes, root) by {
      assert vertices[..] == vertices[..numNodes];
    }
    ghost var adj := adjacencyMatrix[..];
    done := false;
    iterations := 0;
    while !done && iterations < MaxBfsIterations
      invariant 0 <= iterations <= MaxBfsIterations
      invariant !done ==> Converge(kernel, adj, numNodes, vertices[..], iterations) ==
                          Converge(kernel, adj, numNodes, start, 0)
      invariant done ==> Outcome(vertices[..], iterations, true) ==
                         Converge(kernel, adj, numNodes, start, 0)
      decreases MaxBfsIterations - iterations
    {
      ghost var lv := vertices[..];
      modifyFlag[0] := 1;
      currentDepth[0] := iterations;
      Execute(kernel, vertices, adjacencyMatrix, numNodes, modifyFlag, currentDepth);
      assert adjacencyMatrix[..] == adj;
      assert Converge(kernel, adj, numNodes, lv, iterations) ==
             if modifyFlag[0] == 1 then Outcome(vertices[..], iterations + 1, true)
             else Converge(kernel, adj, numNodes, vertices[..], iterations + 1);
      if modifyFlag[0] == 1 {
        done := true;
      }
      iterations := iterations + 1;
    }
  }

  /** `benchmarkKernel` without its clock: ten warm-up runs and thirty
      measured runs, each reported by its outcome. Every measured run starts
      from freshly initialised levels, so all thirty reach the same outcome
      and `vertices` keeps the levels of the last one. */
  method BenchmarkKernel(kernel: Kernel, adjacencyMatrix: array<int>, vertices: array<int>,
                         numNodes: int, root: int)
    returns (localSize: int, runs: seq<Outcome>)
    requires PreservesLength(kernel)
    requires vertices.Length == numNodes && adjacencyMatrix != vertices
    modifies vertices
    ensures 1 <= localSize <= PreferredLocalSize && numNodes % localSize == 0
    ensures forall s :: localSize < s <= PreferredLocalSize ==> numNodes % s != 0
    ensures |runs| == BenchmarkIterations
    ensures forall i :: 0 <= i < |runs| ==>
              runs[i] == Converge(kernel, adjacencyMatrix[..], numNodes, InitialLevels(numNodes, root), 0)
    ensures vertices[..] == Converge(kernel, adjacencyMatrix[..], numNodes, InitialLevels(numNodes, root), 0).levels
  {
    InitializeVertices(vertices, numNodes, root);
    var modifyFlag := new int[1];
    var currentDepth := new int[1];
    localSize := LocalWorkSize(numNodes);
    ghost var expected := Converge(kernel, adjacencyMatrix[..], numNodes, InitialLevels(numNodes, root), 0);
    for i := 0 to WarmUpIterations
      invariant i > 0 ==> vertices[..] == expected.levels
    {
      var iterations, done := RunOnDevice(kernel, adjacencyMatrix, vertices, numNodes, root,
                                          modifyFlag, currentDepth);
    }
    runs := [];
    for i := 0 to BenchmarkIterations
      invariant |runs| == i
      invariant forall j :: 0 <= j < i ==> runs[j] == expected
      invariant vertices[..] == expected.levels
    {
      var iterations, done := RunOnDevice(kernel, adjacencyMatrix, vertices, numNodes, root,
                                          modifyFlag, currentDepth);
      runs := runs + [Outcome(vertices[..], iterations, done)];
    }
  }

  /** Two kernels that agree on every input drive the loop to the same outcome. */
  lemma {:induction false} AgreeingKernelsConverge(k1: Kernel, k2: Kernel, adj: seq<int>, n: int,
                                                   lv: seq<int>, k: int)
    requires forall lv', adj', n', m', d' :: k1(lv', adj', n', m', d') == k2(lv', adj', n', m', d')
    ensures Converge(k1, adj, n, lv, k) == Converge(k2, adj, n, lv, k)
    decreases MaxBfsIterations - k
  {
    if k < MaxBfsIterations {
      var out := k1(lv, adj, n, 1, k);
      assert out == k2(lv, adj, n, 1, k);
      if out.modifyFlag != 1 {
        AgreeingKernelsConverge(k1, k2, adj, n, out.vertices, k + 1);
      }
    }
  }

  // ---------------------------------------------------------------------
  // validate
  // ---------------------------------------------------------------------

  /** `validate`: exact equality on the first numNodes entries; on failure it
      reports the first index at which the two differ. */
  method Validate(reference: array<int>, candidate: array<int>, numNodes: int)
    returns (valid: bool, mismatch: int)
    requires numNodes <= reference.Length && numNodes <= candidate.Length
    ensures valid <==> forall i :: 0 <= i < numNodes ==> reference[i] == candidate[i]
    ensures valid ==> mismatch == -1
    ensures !valid ==> 0 <= mismatch < numNodes && reference[mismatch] != candidate[mismatch]
    ensures !valid ==> forall i :: 0 <= i < mismatch ==> reference[i] == candidate[i]
  {
    var i := 0;
    while i < numNodes
      invariant 0 <= i && (i == 0 || i <= numNodes)
      invariant forall j :: 0 <= j < i ==> reference[j] == candidate[j]
    {
      if reference[i] != candidate[i] {
        valid, mismatch := false, i;
        return;
      }
      i := i + 1;
    }
    valid, mismatch := true, -1;
  }

  /** Two arrays of one length hold the same sequence exactly when they agree entry by entry. */
  lemma SameArrays(a: array<int>, b: array<int>)
    requires a.Length == b.Length
    ensures a[..] == b[..] <==> forall i :: 0 <= i < a.Length ==> a[i] == b[i]
  {
    if forall i :: 0 <= i < a.Length ==> a[i] == b[i] {
      assert forall i :: 0 <= i < a.Length ==> a[..][i] == b[..][i];
    }
  }

  // ---------------------------------------------------------------------
  // main
  // ---------------------------------------------------------------------

  /** The flow of `main` without its printing and timing: build the graph
      from root 0, run the sequential reference, benchmark both kernels on
      their own level buffers and validate each against the reference. A
      kernel passes exactly when its loop reaches the reference levels. */
  method CompareKernels(numNodes: int, draws: seq<int>, generated: Kernel, custom: Kernel)
    returns (generatedValid: bool, customValid: bool)
    requires ValidDraws(numNodes, draws)
    requires PreservesLength(generated) && PreservesLength(custom)
    ensures var graph := RandomGraph(numNodes, 0, draws);
            var reference := Converge(SweepKernel, graph, numNodes, InitialLevels(numNodes, 0), 0).levels;
            && (generatedValid <==>
                  Converge(generated, graph, numNodes, InitialLevels(numNodes, 0), 0).levels == reference)
            && (customValid <==>
                  Converge(custom, graph, numNodes, InitialLevels(numNodes, 0), 0).levels == reference)
  {
    MulMonotone(0, numNodes, numNodes);
    var adjacencyMatrix := new int[numNodes * numNodes];
    var verticesSeq := new int[numNodes];
    var verticesGenerated := new int[numNodes];
    var verticesCustom := new int[numNodes];
    var rootNode := 0;
    GenerateRandomGraph(adjacencyMatrix, numNodes, rootNode, draws);
    ghost var graph := adjacencyMatrix[..];
    ghost var init := InitialLevels(numNodes, rootNode);
    var seqIterations, seqDone := RunSequentialBfs(adjacencyMatrix, verticesSeq, numNodes, rootNode);
    ghost var reference := verticesSeq[..];
    assert reference == Converge(SweepKernel, graph, numNodes, init, 0).levels;
    var generatedLocal, generatedRuns := BenchmarkKernel(generated, adjacencyMatrix, verticesGenerated,
                                                         numNodes, rootNode);
    ghost var fromGenerated := verticesGenerated[..];
    assert fromGenerated == Converge(generated, graph, numNodes, init, 0).levels;
    var customLocal, customRuns := BenchmarkKernel(custom, adjacencyMatrix, verticesCustom,
                                                   numNodes, rootNode);
    assert verticesCustom[..] == Converge(custom, graph, numNodes, init, 0).levels;
    assert verticesSeq[..] == reference && verticesGenerated[..] == fromGenerated;
    var at;
    generatedValid, at := Validate(verticesSeq, verticesGenerated, numNodes);
    SameArrays(verticesSeq, verticesGenerated);
    customValid, at := Validate(verticesSeq, verticesCustom, numNodes);
    SameArrays(verticesSeq, verticesCustom);
  }
}
