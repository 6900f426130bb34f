/** The graph builder of the BFS benchmark. The graph is an n x n adjacency
    matrix of 0/1 entries kept row-major in one int buffer: entry (from, to)
    sits at index `from * n + to`, and 1 means an edge from `from` to `to`. */
module BfsGraph {
  import opened Grid

  function Min(a: int, b: int): int { if a <= b then a else b }

  /** Entry (u, v) of a row-major n x n matrix. */
  function Entry(g: seq<int>, n: int, u: int, v: int): int
    requires |g| == n * n && 0 <= u < n && 0 <= v < n
  {
    CellInRange(n, u, v);
    g[u * n + v]
  }

  /** There is an edge from u to v: the matrix holds 1 at (u, v). */
  predicate Edge(g: seq<int>, n: int, u: int, v: int)
  {
    |g| == n * n && 0 <= u < n && 0 <= v < n && Entry(g, n, u, v) == 1
  }

  /** A well-formed BFS input: every entry is 0 or 1 and no vertex has a self-loop. */
  predicate IsSimpleMatrix(g: seq<int>, n: int)
  {
    && |g| == n * n
    && (forall c :: 0 <= c < |g| ==> g[c] == 0 || g[c] == 1)
    && (forall i :: 0 <= i < n ==> Entry(g, n, i, i) == 0)
  }

  // ---------------------------------------------------------------------
  // connect
  // ---------------------------------------------------------------------

  /** The matrix after `connect(from, to)`: entry (from, to) becomes 1 when
      from and to differ and the entry holds 0; nothing else changes. */
  function Connected(g: seq<int>, from: int, to: int, n: int): (r: seq<int>)
    requires |g| == n * n && 0 <= from < n && 0 <= to < n
    ensures |r| == |g|
  {
    CellInRange(n, from, to);
    var c := from * n + to;
    if from != to && g[c] == 0 then g[c := 1] else g
  }

  method Connect(from: int, to: int, graph: array<int>, n: int)
    requires graph.Length == n * n && 0 <= from < n && 0 <= to < n
    modifies graph
    ensures graph[..] == Connected(old(graph[..]), from, to, n)
  {
    CellInRange(n, from, to);
    if from != to && graph[from * n + to] == 0 {
      graph[from * n + to] := 1;
    }
  }

  /** `connect` writes at most the one cell (from, to), and it changes the
      matrix exactly when from != to and that cell held 0. */
  lemma ConnectedWritesOneCell(g: seq<int>, from: int, to: int, n: int)
    requires |g| == n * n && 0 <= from < n && 0 <= to < n
    ensures |Connected(g, from, to, n)| == |g|
    ensures forall c :: 0 <= c < |g| && c != from * n + to ==> Connected(g, from, to, n)[c] == g[c]
    ensures Connected(g, from, to, n) != g <==> from != to && Entry(g, n, from, to) == 0
    ensures Entry(Connected(g, from, to, n), n, from, to) == 1 <==>
            Entry(g, n, from, to) == 1 || (from != to && Entry(g, n, from, to) == 0)
  {
    CellInRange(n, from, to);
    var c := from * n + to;
    if from != to && g[c] == 0 {
      assert Connected(g, from, to, n)[c] != g[c];
    }
  }

  /** Connecting the same pair twice has the effect of connecting it once. */
  lemma ConnectedIdempotent(g: seq<int>, from: int, to: int, n: int)
    requires |g| == n * n && 0 <= from < n && 0 <= to < n
    ensures Connected(Connected(g, from, to, n), from, to, n) == Connected(g, from, to, n)
  {
    CellInRange(n, from, to);
    var c := from * n + to;
    var r := Connected(g, from, to, n);
    if from != to && g[c] == 0 {
      assert r == g[c := 1] && r[c] == 1;
    } else {
      assert r == g;
    }
  }

  /** `connect` keeps the matrix 0/1 and free of self-loops. */
  lemma ConnectedKeepsSimple(g: seq<int>, from: int, to: int, n: int)
    requires IsSimpleMatrix(g, n) && 0 <= from < n && 0 <= to < n
    ensures IsSimpleMatrix(Connected(g, from, to, n), n)
  {
    var r := Connected(g, from, to, n);
    forall i | 0 <= i < n
      ensures Entry(r, n, i, i) == 0
    {
      CellInRange(n, i, i);
      CellSplit(n, i, i);
      var d := i * n + i;
      assert Entry(r, n, i, i) == r[d] && Entry(g, n, i, i) == g[d] == 0;
      if d == from * n + to {
        CellSplit(n, from, to);
        assert from == to;
      }
    }
  }

  // ---------------------------------------------------------------------
  // generateRandomGraph
  // ---------------------------------------------------------------------

  /** How many source vertices the generator draws: min(n / 10, 100). */
  function SourceCount(n: int): int
    requires n >= 1
  {
    Min(n / 10, 100)
  }

  /** How many targets `generateIntRandomArray` draws: min(10, n). */
  function TargetCount(n: int): int
  {
    Min(10, n)
  }

  /** Well-formed draws of `new Random(42).ints(_, 0, n)`: enough values for
      both streams the generator takes, each in [0, n). */
  predicate ValidDraws(n: int, draws: seq<int>)
  {
    && n >= 1
    && |draws| >= SourceCount(n)
    && |draws| >= TargetCount(n)
    && (forall k :: 0 <= k < |draws| ==> 0 <= draws[k] < n)
  }

  /** `generateIntRandomArray(n)`: a fresh generator seeded with 42 yields
      the first min(10, n) draws, the same values at every call. */
  function GenerateIntRandomArray(n: int, draws: seq<int>): seq<int>
    requires ValidDraws(n, draws)
  {
    draws[..TargetCount(n)]
  }

  /** The source vertices in the order the generator visits them: the first
      draw is replaced by the root. */
  function Sources(n: int, root: int, draws: seq<int>): seq<int>
    requires ValidDraws(n, draws)
  {
    seq(SourceCount(n), k requires 0 <= k < SourceCount(n) => if k == 0 then root else draws[k])
  }

  /** Entry c of the generated matrix: 1 exactly for an edge from a source
      to a target that is not the source itself. */
  predicate GeneratedEdge(n: int, srcs: seq<int>, tgts: seq<int>, u: int, v: int)
  {
    u != v && u in srcs && v in tgts
  }

  /** The matrix that `generateRandomGraph` produces, cell by cell. */
  function RandomGraph(n: int, root: int, draws: seq<int>): (g: seq<int>)
    requires ValidDraws(n, draws)
    ensures |g| == n * n
  {
    var srcs, tgts := Sources(n, root, draws), GenerateIntRandomArray(n, draws);
    seq(n * n, c requires 0 <= c < n * n => if GeneratedEdge(n, srcs, tgts, c / n, c % n) then 1 else 0)
  }

  method GenerateRandomGraph(adjacencyMatrix: array<int>, numNodes: int, root: int, draws: seq<int>)
    requires ValidDraws(numNodes, draws) && 0 <= root < numNodes
    requires adjacencyMatrix.Length == numNodes * numNodes
    modifies adjacencyMatrix
    ensures adjacencyMatrix[..] == RandomGraph(numNodes, root, draws)
  {
    var n := numNodes;
    forall c | 0 <= c < adjacencyMatrix.Length {
      adjacencyMatrix[c] := 0;
    }
    var bound := Min(n / 10, 100);
    var f := draws[..bound];
    ghost var srcs := Sources(n, root, draws);
    ghost var tgts := GenerateIntRandomArray(n, draws);
    for k := 0 to |f|
      invariant forall c :: 0 <= c < n * n ==>
        adjacencyMatrix[c] == if GeneratedEdge(n, srcs[..k], tgts, c / n, c % n) then 1 else 0
    {
      var from := f[k];
      if k == 0 {
        from := root;
      }
      assert from == srcs[k];
      var toArray := GenerateIntRandomArray(n, draws);
      for i := 0 to |toArray|
        invariant forall c :: 0 <= c < n * n ==>
          adjacencyMatrix[c] ==
            if GeneratedEdge(n, srcs[..k], tgts, c / n, c % n)
               || GeneratedEdge(n, [from], toArray[..i], c / n, c % n)
            then 1 else 0
      {
        ghost var prev := adjacencyMatrix[..];
        var to := toArray[i];
        Connect(from, to, adjacencyMatrix, n);
        CellSplit(n, from, to);
        assert toArray[..i + 1] == toArray[..i] + [to];
        forall c | 0 <= c < n * n
          ensures adjacencyMatrix[c] ==
            if GeneratedEdge(n, srcs[..k], tgts, c / n, c % n)
               || GeneratedEdge(n, [from], toArray[..i + 1], c / n, c % n)
            then 1 else 0
        {
          IndexSplit(n, c);
          assert prev[c] == if GeneratedEdge(n, srcs[..k], tgts, c / n, c % n)
                               || GeneratedEdge(n, [from], toArray[..i], c / n, c % n)
                            then 1 else 0;
        }
      }
      assert toArray[..|toArray|] == tgts;
      assert srcs[..k + 1] == srcs[..k] + [from];
    }
    assert srcs[..|f|] == srcs;
    assert adjacencyMatrix[..] == RandomGraph(n, root, draws);
  }

  /** The generated matrix is a valid BFS input: 0/1 entries and no self-loops. */
  lemma RandomGraphIsSimple(n: int, root: int, draws: seq<int>)
    requires ValidDraws(n, draws)
    ensures IsSimpleMatrix(RandomGraph(n, root, draws), n)
  {
    forall i | 0 <= i < n
      ensures Entry(RandomGraph(n, root, draws), n, i, i) == 0
    {
      CellInRange(n, i, i);
      CellSplit(n, i, i);
      var d := i * n + i;
      assert d / n == i && d % n == i;
      assert Entry(RandomGraph(n, root, draws), n, i, i) == RandomGraph(n, root, draws)[d];
    }
  }

  /** The edges of the generated matrix are exactly the pairs (source, target)
      of distinct vertices. */
  lemma RandomGraphEdges(n: int, root: int, draws: seq<int>, u: int, v: int)
    requires ValidDraws(n, draws) && 0 <= u < n && 0 <= v < n
    ensures Edge(RandomGraph(n, root, draws), n, u, v) <==>
            u != v && u in Sources(n, root, draws) && v in GenerateIntRandomArray(n, draws)
  {
    CellInRange(n, u, v);
    CellSplit(n, u, v);
    var c := u * n + v;
    assert c / n == u && c % n == v;
    assert Entry(RandomGraph(n, root, draws), n, u, v) == RandomGraph(n, root, draws)[c];
  }

  /** When at least one source is drawn (n >= 10) the root is the first one,
      so the root has an edge to every drawn target other than itself. */
  lemma RootReachesTargets(n: int, root: int, draws: seq<int>, v: int)
    requires ValidDraws(n, draws) && 0 <= root < n && 0 <= v < n
    requires n / 10 >= 1
    ensures Sources(n, root, draws)[0] == root
    ensures Edge(RandomGraph(n, root, draws), n, root, v) <==>
            v != root && v in GenerateIntRandomArray(n, draws)
  {
    RandomGraphEdges(n, root, draws, root, v);
    assert Sources(n, root, draws)[0] == root;
  }
}
