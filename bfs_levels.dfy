/** The sequential reference of the BFS benchmark: vertex initialisation,
    one level-synchronous sweep (`runBFSSequential`) and the capped
    fixed-point loop around it (`runSequentialBFS`). A vertex's value is its
    BFS level: 0 for the root, -1 for a vertex not reached yet. */
module BfsLevels {
  import opened Grid
  import opened BfsGraph

  /** The cap on sweeps in every convergence loop (MAX_BFS_ITERATIONS). */
  const MaxBfsIterations := 50

  // ---------------------------------------------------------------------
  // initializeVertices
  // ---------------------------------------------------------------------

  /** The levels `initializeVertices` writes: 0 at the root, -1 elsewhere. */
  function InitialLevels(n: nat, root: int): seq<int>
  {
    seq(n, i => if i == root then 0 else -1)
  }

  method InitializeVertices(vertices: array<int>, numNodes: int, root: int)
    requires 0 <= numNodes <= vertices.Length
    modifies vertices
    ensures vertices[..numNodes] == InitialLevels(numNodes, root)
    ensures vertices[numNodes..] == old(vertices[numNodes..])
  {
    for i := 0 to numNodes
      invariant forall j :: 0 <= j < i ==> vertices[j] == if j == root then 0 else -1
      invariant forall j :: numNodes <= j < vertices.Length ==> vertices[j] == old(vertices[j])
    {
      if i == root {
        vertices[i] := 0;
      } else {
        vertices[i] := -1;
      }
    }
  }

  // ---------------------------------------------------------------------
  // runBFSSequential: one sweep
  // ---------------------------------------------------------------------

  /** Some vertex u < k has an edge to v and stands at level d in lv. */
  predicate HasParentBelow(adj: seq<int>, lv: seq<int>, n: int, d: int, v: int, k: int)
    decreases k
  {
    k > 0 && (HasParentBelow(adj, lv, n, d, v, k - 1) || (Edge(adj, n, k - 1, v) && k - 1 < |lv| && lv[k - 1] == d))
  }

  /** The level of v once the rows of the sources below k have been scanned
      at depth d: an unvisited v with a parent at level d gets level d + 1. */
  function LevelAfter(adj: seq<int>, lv: seq<int>, n: int, d: int, v: int, k: int): int
    requires 0 <= v < |lv|
  {
    if lv[v] == -1 && HasParentBelow(adj, lv, n, d, v, k) then d + 1 else lv[v]
  }

  /** One whole sweep at depth d, in terms of the levels BEFORE the sweep:
      a vertex set during the sweep is never read as a parent in it. */
  function Sweep(adj: seq<int>, lv: seq<int>, n: int, d: int): (r: seq<int>)
    ensures |r| == |lv|
  {
    seq(|lv|, v requires 0 <= v < |lv| => LevelAfter(adj, lv, n, d, v, n))
  }

  method RunBfsSweep(vertices: array<int>, adjacencyMatrix: array<int>, numNodes: int,
                     modifyFlag: array<int>, currentDepth: array<int>)
    requires vertices.Length == numNodes && adjacencyMatrix.Length == numNodes * numNodes
    requires modifyFlag.Length == 1 && currentDepth.Length == 1 && currentDepth[0] >= 0
    requires vertices != modifyFlag && vertices != currentDepth && modifyFlag != currentDepth
    requires adjacencyMatrix != vertices && adjacencyMatrix != modifyFlag
    modifies vertices, modifyFlag
    ensures vertices[..] == Sweep(adjacencyMatrix[..], old(vertices[..]), numNodes, currentDepth[0])
    ensures modifyFlag[0] == if vertices[..] != old(vertices[..]) then 0 else old(modifyFlag[0])
  {
    ghost var lv := vertices[..];
    ghost var adj := adjacencyMatrix[..];
    ghost var d := currentDepth[0];
    ghost var changed, w := false, 0;
    for from := 0 to numNodes
      invariant forall v :: 0 <= v < numNodes ==> vertices[v] == LevelAfter(adj, lv, numNodes, d, v, from)
      invariant changed ==> 0 <= w < numNodes && lv[w] == -1 && vertices[w] == d + 1 && modifyFlag[0] == 0
      invariant !changed ==> vertices[..] == lv && modifyFlag[0] == old(modifyFlag[0])
    {
      for to := 0 to numNodes
        invariant forall v :: 0 <= v < to ==> vertices[v] == LevelAfter(adj, lv, numNodes, d, v, from + 1)
        invariant forall v :: to <= v < numNodes ==> vertices[v] == LevelAfter(adj, lv, numNodes, d, v, from)
        invariant changed ==> 0 <= w < numNodes && lv[w] == -1 && vertices[w] == d + 1 && modifyFlag[0] == 0
        invariant !changed ==> vertices[..] == lv && modifyFlag[0] == old(modifyFlag[0])
      {
        CellInRange(numNodes, from, to);
        var elementAccess := from * numNodes + to;
        assert adjacencyMatrix[elementAccess] == Entry(adj, numNodes, from, to);
        if adjacencyMatrix[elementAccess] == 1 {
          var dfirst := vertices[from];
          var dsecond := vertices[to];
          if currentDepth[0] == dfirst && dsecond == -1 {
            vertices[to] := dfirst + 1;
            modifyFlag[0] := 0;
            changed, w := true, to;
          }
        }
      }
    }
    assert vertices[..] == Sweep(adj, lv, numNodes, d);
  }

  /** Both directions of the recursive parent test. */
  lemma {:induction false} HasParentIff(adj: seq<int>, lv: seq<int>, n: int, d: int, v: int, k: int)
    ensures HasParentBelow(adj, lv, n, d, v, k) <==>
            exists u :: 0 <= u < k && Edge(adj, n, u, v) && u < |lv| && lv[u] == d
    decreases k
  {
    if k > 0 {
      HasParentIff(adj, lv, n, d, v, k - 1);
      if HasParentBelow(adj, lv, n, d, v, k) && !HasParentBelow(adj, lv, n, d, v, k - 1) {
        assert Edge(adj, n, k - 1, v) && k - 1 < |lv| && lv[k - 1] == d;
      }
    }
  }

  /** A sweep adds at most one level: it changes only unvisited vertices, each
      to exactly d + 1, and only those with an edge from a vertex at level d. */
  lemma SweepAddsOneLevel(adj: seq<int>, lv: seq<int>, n: int, d: int, v: int)
    requires 0 <= v < |lv| && d >= 0
    ensures Sweep(adj, lv, n, d)[v] != lv[v] <==>
            lv[v] == -1 && exists u :: 0 <= u < n && Edge(adj, n, u, v) && u < |lv| && lv[u] == d
    ensures Sweep(adj, lv, n, d)[v] != lv[v] ==> Sweep(adj, lv, n, d)[v] == d + 1
  {
    HasParentIff(adj, lv, n, d, v, n);
  }

  // ---------------------------------------------------------------------
  // The capped convergence loop
  // ---------------------------------------------------------------------

  /** What the kernel leaves in the two read-write buffers. */
  datatype DeviceOut = DeviceOut(vertices: seq<int>, modifyFlag: int)

  /** A BFS kernel over its five bindings, in their order:
      vertices, adjacencyMatrix, numNodes, modify, currentDepth. */
  type Kernel = (seq<int>, seq<int>, int, int, int) -> DeviceOut

  /** The reference kernel: one sweep, clearing the `modify` flag when a level changed. */
  function SweepKernel(lv: seq<int>, adj: seq<int>, n: int, modifyFlag: int, depth: int): DeviceOut
  {
    var r := Sweep(adj, lv, n, depth);
    DeviceOut(r, if r != lv then 0 else modifyFlag)
  }

  /** The final levels and loop counters of a convergence loop. */
  datatype Outcome = Outcome(levels: seq<int>, iterations: int, done: bool)

  /** The loop `while (!done && iterations < MAX_BFS_ITERATIONS)` started at
      iteration k with levels lv: sweep k runs at depth k with the `modify`
      flag reset to 1, and the loop is done when the kernel leaves it at 1. */
  function Converge(kernel: Kernel, adj: seq<int>, n: int, lv: seq<int>, k: int): Outcome
    decreases MaxBfsIterations - k
  {
    if k >= MaxBfsIterations then Outcome(lv, k, false)
    else
      var out := kernel(lv, adj, n, 1, k);
      if out.modifyFlag == 1 then Outcome(out.vertices, k + 1, true)
      else Converge(kernel, adj, n, out.vertices, k + 1)
  }

  /** Whatever the kernel does, the loop ends after at least one and at most
      MAX_BFS_ITERATIONS sweeps, and it ends either on a quiet sweep or at the cap. */
  lemma {:induction false} ConvergeBounds(kernel: Kernel, adj: seq<int>, n: int, lv: seq<int>, k: int)
    requires 0 <= k < MaxBfsIterations
    ensures k < Converge(kernel, adj, n, lv, k).iterations <= MaxBfsIterations
    ensures Converge(kernel, adj, n, lv, k).done || Converge(kernel, adj, n, lv, k).iterations == MaxBfsIterations
    decreases MaxBfsIterations - k
  {
    var out := kernel(lv, adj, n, 1, k);
    if out.modifyFlag != 1 && k + 1 < MaxBfsIterations {
      ConvergeBounds(kernel, adj, n, out.vertices, k + 1);
    }
  }

  method RunSequentialBfs(adjacencyMatrix: array<int>, vertices: array<int>, numNodes: int, root: int)
    returns (iterations: int, done: bool)
    requires vertices.Length == numNodes && adjacencyMatrix.Length == numNodes * numNodes
    requires adjacencyMatrix != vertices
    modifies vertices
    ensures Outcome(vertices[..], iterations, done) ==
            Converge(SweepKernel, adjacencyMatrix[..], numNodes, InitialLevels(numNodes, root), 0)
  {
    InitializeVertices(vertices, numNodes, root);
    ghost var start := vertices[..];
    assert start == InitialLevels(numNodes, root) by {
      assert vertices[..] == vertices[..numNodes];
    }
    var modifyFlag := new int[1];
    var currentDepth := new int[1];
    ghost var adj := adjacencyMatrix[..];
    done := false;
    iterations := 0;
    while !done && iterations < MaxBfsIterations
      invariant 0 <= iterations <= MaxBfsIterations
      invariant !done ==> Converge(SweepKernel, adj, numNodes, vertices[..], iterations) ==
                          Converge(SweepKernel, adj, numNodes, start, 0)
      invariant done ==> Outcome(vertices[..], iterations, true) ==
                         Converge(SweepKernel, adj, numNodes, start, 0)
      decreases MaxBfsIterations - iterations
    {
      ghost var lv := vertices[..];
      modifyFlag[0] := 1;
      currentDepth[0] := iterations;
      RunBfsSweep(vertices, adjacencyMatrix, numNodes, modifyFlag, currentDepth);
      assert adjacencyMatrix[..] == adj;
      assert SweepKernel(lv, adj, numNodes, 1, iterations) == DeviceOut(vertices[..], modifyFlag[0]);
      assert Converge(SweepKernel, adj, numNodes, lv, iterations) ==
             if modifyFlag[0] == 1 then Outcome(vertices[..], iterations + 1, true)
             else Converge(SweepKernel, adj, numNodes, vertices[..], iterations + 1);
      if modifyFlag[0] == 1 {
        done := true;
      }
      iterations := iterations + 1;
    }
  }

  // ---------------------------------------------------------------------
  // What the levels mean: shortest-path distances from the root
  // ---------------------------------------------------------------------

  /** v can be reached from the root along at most k edges. */
  ghost predicate Reach(adj: seq<int>, n: int, root: int, v: int, k: int)
    decreases k
  {
    if k <= 0 then v == root
    else Reach(adj, n, root, v, k - 1) || exists u :: Edge(adj, n, u, v) && Reach(adj, n, root, u, k - 1)
  }

  /** The shortest path from the root to v has exactly j edges. */
  ghost predicate IsDistance(adj: seq<int>, n: int, root: int, v: int, j: int)
  {
    j >= 0 && Reach(adj, n, root, v, j) && (j == 0 || !Reach(adj, n, root, v, j - 1))
  }

  /** v can be reached from the root at all. */
  ghost predicate Reachable(adj: seq<int>, n: int, root: int, v: int)
  {
    exists j :: j >= 0 && Reach(adj, n, root, v, j)
  }

  /** After the sweeps at depths 0 .. k-1: every vertex within k edges of the
      root carries its distance, and every other vertex carries -1. */
  ghost predicate LevelsExact(adj: seq<int>, n: int, root: int, lv: seq<int>, k: int)
  {
    && |lv| == n
    && forall v :: 0 <= v < n ==>
         if lv[v] == -1 then !Reach(adj, n, root, v, k)
         else 0 <= lv[v] <= k && IsDistance(adj, n, root, v, lv[v])
  }

  lemma {:induction false} ReachMonotone(adj: seq<int>, n: int, root: int, v: int, a: int, b: int)
    requires 0 <= a <= b && Reach(adj, n, root, v, a)
    ensures Reach(adj, n, root, v, b)
    decreases b
  {
    if a < b {
      ReachMonotone(adj, n, root, v, a, b - 1);
    }
  }

  lemma InitialLevelsExact(adj: seq<int>, n: nat, root: int)
    ensures LevelsExact(adj, n, root, InitialLevels(n, root), 0)
  {
  }

  /** A sweep at depth k turns levels exact up to k into levels exact up to k + 1. */
  lemma SweepExact(adj: seq<int>, n: int, root: int, lv: seq<int>, k: int)
    requires k >= 0 && LevelsExact(adj, n, root, lv, k)
    ensures LevelsExact(adj, n, root, Sweep(adj, lv, n, k), k + 1)
  {
    var s := Sweep(adj, lv, n, k);
    forall v | 0 <= v < n
      ensures if s[v] == -1 then !Reach(adj, n, root, v, k + 1)
              else 0 <= s[v] <= k + 1 && IsDistance(adj, n, root, v, s[v])
    {
      if lv[v] != -1 {
        assert s[v] == lv[v];
        ReachMonotone(adj, n, root, v, lv[v], k + 1);
      } else {
        HasParentIff(adj, lv, n, k, v, n);
        if HasParentBelow(adj, lv, n, k, v, n) {
          var u :| 0 <= u < n && Edge(adj, n, u, v) && u < |lv| && lv[u] == k;
          assert Reach(adj, n, root, u, k);
          assert Reach(adj, n, root, v, k + 1);
        } else if Reach(adj, n, root, v, k + 1) {
          var u :| Edge(adj, n, u, v) && Reach(adj, n, root, u, k);
          if lv[u] == -1 {
            assert false;
          } else if lv[u] < k {
            ReachStep(adj, n, root, u, v, lv[u]);
            ReachMonotone(adj, n, root, v, lv[u] + 1, k);
            assert false;
          } else {
            assert false;
          }
        }
      }
    }
  }

  lemma ReachStep(adj: seq<int>, n: int, root: int, u: int, v: int, j: int)
    requires j >= 0 && Edge(adj, n, u, v) && Reach(adj, n, root, u, j)
    ensures Reach(adj, n, root, v, j + 1)
  {
  }

  /** Once no vertex is reachable in k + 1 edges that is not reachable in k,
      no longer path reaches anything new. */
  lemma {:induction false} ReachStable(adj: seq<int>, n: int, root: int, k: int, j: int)
    requires 0 <= k <= j
    requires forall v :: 0 <= v < n && Reach(adj, n, root, v, k + 1) ==> Reach(adj, n, root, v, k)
    ensures forall v :: 0 <= v < n && Reach(adj, n, root, v, j) ==> Reach(adj, n, root, v, k)
    decreases j
  {
    if j > k {
      ReachStable(adj, n, root, k, j - 1);
      forall v | 0 <= v < n && Reach(adj, n, root, v, j)
        ensures Reach(adj, n, root, v, k)
      {
        if !Reach(adj, n, root, v, j - 1) {
          var u :| Edge(adj, n, u, v) && Reach(adj, n, root, u, j - 1);
          ReachStep(adj, n, root, u, v, k);
        }
      }
    }
  }

  /** The reference loop keeps its levels exact, and when it stops on a quiet
      sweep every vertex reachable from the root has been given a level. */
  lemma {:induction false} ConvergeExact(adj: seq<int>, n: int, root: int, lv: seq<int>, k: int)
    requires 0 <= k <= MaxBfsIterations && LevelsExact(adj, n, root, lv, k)
    ensures LevelsExact(adj, n, root, Converge(SweepKernel, adj, n, lv, k).levels,
                        Converge(SweepKernel, adj, n, lv, k).iterations)
    ensures Converge(SweepKernel, adj, n, lv, k).done ==>
            forall v :: 0 <= v < n && Reachable(adj, n, root, v) ==>
              Converge(SweepKernel, adj, n, lv, k).levels[v] != -1
    decreases MaxBfsIterations - k
  {
    if k < MaxBfsIterations {
      var s := Sweep(adj, lv, n, k);
      SweepExact(adj, n, root, lv, k);
      if s == lv {
        forall v | 0 <= v < n && Reach(adj, n, root, v, k + 1)
          ensures Reach(adj, n, root, v, k)
        {
          ReachMonotone(adj, n, root, v, lv[v], k);
        }
        forall v | 0 <= v < n && Reachable(adj, n, root, v)
          ensures lv[v] != -1
        {
          var j :| j >= 0 && Reach(adj, n, root, v, j);
          if j <= k {
            ReachMonotone(adj, n, root, v, j, k);
          } else {
            ReachStable(adj, n, root, k, j);
          }
        }
      } else {
        ConvergeExact(adj, n, root, s, k + 1);
      }
    }
  }

  /** What `runSequentialBFS` computes. Its loop runs between 1 and 50 sweeps
      and stops on a quiet sweep or at the cap. Every level is -1 or lies in
      [0, iterations]. A level is the length of a shortest path from the root,
      and -1 means no path of at most `iterations` edges. When the loop stopped
      on a quiet sweep, -1 means the vertex cannot be reached at all. */
  lemma SequentialBfsCorrect(adj: seq<int>, n: nat, root: int)
    ensures var r := Converge(SweepKernel, adj, n, InitialLevels(n, root), 0);
      && 1 <= r.iterations <= MaxBfsIterations
      && (r.done || r.iterations == MaxBfsIterations)
      && |r.levels| == n
      && (forall v :: 0 <= v < n ==> r.levels[v] == -1 || 0 <= r.levels[v] <= r.iterations)
      && (forall v :: 0 <= v < n && r.levels[v] != -1 ==> IsDistance(adj, n, root, v, r.levels[v]))
      && (forall v :: 0 <= v < n ==> (r.levels[v] == -1 <==> !Reach(adj, n, root, v, r.iterations)))
      && (r.done ==> forall v :: 0 <= v < n ==> (r.levels[v] == -1 <==> !Reachable(adj, n, root, v)))
      && (forall v :: 0 <= v < n && r.levels[v] >= 1 ==>
            exists u :: 0 <= u < n && Edge(adj, n, u, v) && r.levels[u] == r.levels[v] - 1)
  {
    var init := InitialLevels(n, root);
    var r := Converge(SweepKernel, adj, n, init, 0);
    InitialLevelsExact(adj, n, root);
    ConvergeBounds(SweepKernel, adj, n, init, 0);
    ConvergeExact(adj, n, root, init, 0);
    forall v | 0 <= v < n
      ensures r.levels[v] == -1 <==> !Reach(adj, n, root, v, r.iterations)
      ensures r.done ==> (r.levels[v] == -1 <==> !Reachable(adj, n, root, v))
    {
      if r.levels[v] != -1 {
        ReachMonotone(adj, n, root, v, r.levels[v], r.iterations);
      }
    }
    forall v | 0 <= v < n && r.levels[v] >= 1
      ensures exists u :: 0 <= u < n && Edge(adj, n, u, v) && r.levels[u] == r.levels[v] - 1
    {
      LevelHasParent(adj, n, root, r.levels, r.iterations, v);
    }
  }

  /** Every vertex at level d >= 1 has an in-edge from a vertex at level d - 1. */
  lemma LevelHasParent(adj: seq<int>, n: int, root: int, lv: seq<int>, k: int, v: int)
    requires k >= 0 && LevelsExact(adj, n, root, lv, k) && 0 <= v < n && lv[v] >= 1
    ensures exists u :: 0 <= u < n && Edge(adj, n, u, v) && lv[u] == lv[v] - 1
  {
    var d := lv[v];
    assert Reach(adj, n, root, v, d) && !Reach(adj, n, root, v, d - 1);
    var u :| Edge(adj, n, u, v) && Reach(adj, n, root, u, d - 1);
    if lv[u] == -1 {
      ReachMonotone(adj, n, root, u, d - 1, k);
    } else if lv[u] < d - 1 {
      ReachStep(adj, n, root, u, v, lv[u]);
      ReachMonotone(adj, n, root, v, lv[u] + 1, d - 1);
    } else if lv[u] > d - 1 {
      ReachMonotone(adj, n, root, u, d - 1, lv[u] - 1);
    }
  }

  // ---------------------------------------------------------------------
  // The generated graph is shallow
  // ---------------------------------------------------------------------

  /** Every source of the generated graph points at the same targets, and the
      root is a source whenever there is any edge, so whatever is reachable
      from the root is reachable along one edge. */
  lemma GeneratedGraphShallow(n: int, root: int, draws: seq<int>, v: int)
    requires ValidDraws(n, draws) && 0 <= root < n && 0 <= v < n
    requires Reach(RandomGraph(n, root, draws), n, root, v, 2)
    ensures Reach(RandomGraph(n, root, draws), n, root, v, 1)
  {
    var g := RandomGraph(n, root, draws);
    if exists u :: Edge(g, n, u, v) && Reach(g, n, root, u, 1) {
      var u :| Edge(g, n, u, v) && Reach(g, n, root, u, 1);
      RandomGraphEdges(n, root, draws, u, v);
      assert Sources(n, root, draws)[0] == root;
      RandomGraphEdges(n, root, draws, root, v);
      if v != root {
        ReachStep(g, n, root, root, v, 0);
      }
    }
  }

  /** On the generated graph the reference loop stops on a quiet sweep after at
      most two sweeps, far below the cap of 50. */
  lemma GeneratedBfsStopsEarly(n: int, root: int, draws: seq<int>)
    requires ValidDraws(n, draws) && 0 <= root < n
    ensures Converge(SweepKernel, RandomGraph(n, root, draws), n, InitialLevels(n, root), 0).done
    ensures Converge(SweepKernel, RandomGraph(n, root, draws), n, InitialLevels(n, root), 0).iterations <= 2
  {
    var g := RandomGraph(n, root, draws);
    var init := InitialLevels(n, root);
    InitialLevelsExact(g, n, root);
    var s0 := Sweep(g, init, n, 0);
    SweepExact(g, n, root, init, 0);
    if s0 != init {
      var s1 := Sweep(g, s0, n, 1);
      SweepExact(g, n, root, s0, 1);
      forall v | 0 <= v < n
        ensures s1[v] == s0[v]
      {
        if s0[v] == -1 && s1[v] != -1 {
          ReachMonotone(g, n, root, v, s1[v], 2);
          GeneratedGraphShallow(n, root, draws, v);
        }
      }
      assert s1 == s0;
    }
  }
}
