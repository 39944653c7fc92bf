/**
 * `VoronoiDiagramGenerator.GenerateVoronoiFromDelaunay`: one graph node per
 * triangle, at its circumcenter and in triangle order, the set of all triangle
 * vertices, and for every triangle a scan of the list that links it to the
 * first three other triangles sharing an edge with it.
 */
module VoronoiDiagramGenerator {
  import opened Geometry
  import opened Seqs
  import opened DataStructures
  import opened Graphs

  /**
   * `Triangle.SharesAnyEdge`. Its definition is not part of this model, so the
   * caller supplies it.
   */
  type EdgeTest = (Triangle, Triangle) -> bool

  /** Every vertex of every triangle. */
  function AllVertices(tris: seq<Triangle>): set<Vec2> {
    set k, r | 0 <= k < |tris| && 0 <= r < 3 :: tris[k].Vertices()[r]
  }

  /**
   * The inner loop for triangle `i` from position `j` on, with `found`
   * neighbours already found: it stops at the end of the list or once three
   * have been found, skips the triangle itself, and records every index whose
   * triangle shares an edge with triangle `i`.
   */
  function ScanFrom(tris: seq<Triangle>, shares: EdgeTest, i: nat, j: nat, found: nat): seq<nat>
    requires i < |tris|
    decreases |tris| - j
  {
    if j >= |tris| || found >= 3 then []
    else if tris[j] == tris[i] then ScanFrom(tris, shares, i, j + 1, found)
    else if shares(tris[i], tris[j]) then [j] + ScanFrom(tris, shares, i, j + 1, found + 1)
    else ScanFrom(tris, shares, i, j + 1, found)
  }

  /** The neighbour indices the scan gives node `i`. */
  function Neighbours(tris: seq<Triangle>, shares: EdgeTest, i: nat): seq<nat>
    requires i < |tris|
  {
    ScanFrom(tris, shares, i, 0, 0)
  }

  /** Every other triangle, from position `j` on, that shares an edge with triangle `i`, uncapped. */
  function Candidates(tris: seq<Triangle>, shares: EdgeTest, i: nat, j: nat): seq<nat>
    requires i < |tris|
    decreases |tris| - j
  {
    if j >= |tris| then []
    else if tris[j] != tris[i] && shares(tris[i], tris[j]) then [j] + Candidates(tris, shares, i, j + 1)
    else Candidates(tris, shares, i, j + 1)
  }

  function Min(a: int, b: int): int {
    if a <= b then a else b
  }

  /** The scan keeps exactly the first `3 - found` candidates, in list order. */
  lemma {:induction false} ScanIsCappedCandidates(tris: seq<Triangle>, shares: EdgeTest, i: nat, j: nat, found: nat)
    requires i < |tris| && found <= 3
    ensures var c := Candidates(tris, shares, i, j);
            ScanFrom(tris, shares, i, j, found) == c[..Min(3 - found, |c|)]
    decreases |tris| - j
  {
    if j < |tris| && found < 3 {
      ScanIsCappedCandidates(tris, shares, i, j + 1, found);
      ScanIsCappedCandidates(tris, shares, i, j + 1, found + 1);
    }
  }

  /** Exactly the other triangles from position `j` on that share an edge with triangle `i` are candidates. */
  lemma {:induction false} CandidatesMembership(tris: seq<Triangle>, shares: EdgeTest, i: nat, j: nat, k: nat)
    requires i < |tris|
    ensures k in Candidates(tris, shares, i, j) <==> j <= k < |tris| && tris[k] != tris[i] && shares(tris[i], tris[k])
    decreases |tris| - j
  {
    if j < |tris| {
      CandidatesMembership(tris, shares, i, j + 1, k);
    }
  }

  predicate StrictlyIncreasing(s: seq<nat>) {
    forall p, q | 0 <= p < q < |s| :: s[p] < s[q]
  }

  /** Candidate indices come in strictly increasing order, from `j` on. */
  lemma {:induction false} CandidatesIncrease(tris: seq<Triangle>, shares: EdgeTest, i: nat, j: nat)
    requires i < |tris|
    ensures StrictlyIncreasing(Candidates(tris, shares, i, j))
    ensures forall k | k in Candidates(tris, shares, i, j) :: j <= k
    decreases |tris| - j
  {
    if j < |tris| {
      CandidatesIncrease(tris, shares, i, j + 1);
      var rest := Candidates(tris, shares, i, j + 1);
      if tris[j] != tris[i] && shares(tris[i], tris[j]) {
        var c := [j] + rest;
        assert c == Candidates(tris, shares, i, j);
        forall p, q | 0 <= p < q < |c|
          ensures c[p] < c[q]
        {
          assert c[q] == rest[q - 1] && rest[q - 1] in rest;
          if p > 0 {
            assert c[p] == rest[p - 1];
          }
        }
      }
    }
  }

  /**
   * What node `i` receives: at most three neighbours, never itself, only
   * triangles that share an edge with it, each index in range and none twice.
   */
  lemma NeighboursProperties(tris: seq<Triangle>, shares: EdgeTest, i: nat)
    requires i < |tris|
    ensures |Neighbours(tris, shares, i)| <= 3
    ensures forall k | k in Neighbours(tris, shares, i) ::
              k < |tris| && tris[k] != tris[i] && shares(tris[i], tris[k])
    ensures Distinct(Neighbours(tris, shares, i))
  {
    var c := Candidates(tris, shares, i, 0);
    ScanIsCappedCandidates(tris, shares, i, 0, 0);
    CandidatesIncrease(tris, shares, i, 0);
    forall k | k in Neighbours(tris, shares, i)
      ensures k < |tris| && tris[k] != tris[i] && shares(tris[i], tris[k])
    {
      CandidatesMembership(tris, shares, i, 0, k);
    }
  }

  /** When the triangles are distinct objects, no node is its own neighbour. */
  lemma NoSelfNeighbour(tris: seq<Triangle>, shares: EdgeTest, i: nat)
    requires i < |tris| && Distinct(tris)
    ensures i !in Neighbours(tris, shares, i)
  {
    NeighboursProperties(tris, shares, i);
  }

  /**
   * When no triangle shares edges with more than three others, the cap never
   * cuts the scan short: node `i` gets exactly its candidates.
   */
  lemma UncappedScanFindsAll(tris: seq<Triangle>, shares: EdgeTest, i: nat)
    requires i < |tris| && |Candidates(tris, shares, i, 0)| <= 3
    ensures Neighbours(tris, shares, i) == Candidates(tris, shares, i, 0)
  {
    ScanIsCappedCandidates(tris, shares, i, 0, 0);
  }

  /**
   * With a symmetric `SharesAnyEdge` and at most three edge-sharing triangles
   * each, adjacency is symmetric: `j` lists `i` exactly when `i` lists `j`.
   */
  lemma AdjacencyIsSymmetric(tris: seq<Triangle>, shares: EdgeTest, i: nat, j: nat)
    requires i < |tris| && j < |tris|
    requires forall s, t :: shares(s, t) == shares(t, s)
    requires forall k | 0 <= k < |tris| :: |Candidates(tris, shares, k, 0)| <= 3
    ensures j in Neighbours(tris, shares, i) <==> i in Neighbours(tris, shares, j)
  {
    UncappedScanFindsAll(tris, shares, i);
    UncappedScanFindsAll(tris, shares, j);
    CandidatesMembership(tris, shares, i, 0, j);
    CandidatesMembership(tris, shares, j, 0, i);
    assert shares(tris[i], tris[j]) == shares(tris[j], tris[i]);
  }

  /** The first loop: one node per triangle at its circumcenter, and every vertex into `allPoints`. */
  method CreateNodes(triangulation: seq<Triangle>, circle: CircumcircleFn)
    returns (allNodes: seq<GraphNode>, allPoints: set<Vec2>)
    ensures |allNodes| == |triangulation|
    ensures forall k | 0 <= k < |triangulation| :: allNodes[k] == GraphNode(triangulation[k].Center(circle), [])
    ensures allPoints == AllVertices(triangulation)
  {
    allNodes := [];
    allPoints := {};
    for i := 0 to |triangulation|
      invariant |allNodes| == i
      invariant forall k | 0 <= k < i :: allNodes[k] == GraphNode(triangulation[k].Center(circle), [])
      invariant allPoints == AllVertices(triangulation[..i])
    {
      var triangle := triangulation[i];
      allNodes := allNodes + [GraphNode(triangle.Center(circle), [])];
      for r := 0 to 3
        invariant allPoints == AllVertices(triangulation[..i]) + set q | 0 <= q < r :: triangle.Vertices()[q]
      {
        allPoints := allPoints + {triangle.Vertices()[r]};
      }
      AllVerticesSnoc(triangulation[..i], triangle);
      assert triangulation[..i + 1] == triangulation[..i] + [triangle];
    }
    assert triangulation[..|triangulation|] == triangulation;
  }

  /** The inner loop for node `i`, with its `edgeCounter` cap: the neighbours it appends. */
  method ScanNeighbours(triangulation: seq<Triangle>, sharesAnyEdge: EdgeTest, i: nat) returns (found: seq<nat>)
    requires i < |triangulation|
    ensures found == Neighbours(triangulation, sharesAnyEdge, i)
  {
    found := [];
    var edgeCounter := 0;
    var j := 0;
    while j < |triangulation| && edgeCounter < 3
      invariant 0 <= j <= |triangulation|
      invariant found + ScanFrom(triangulation, sharesAnyEdge, i, j, edgeCounter) == Neighbours(triangulation, sharesAnyEdge, i)
      decreases |triangulation| - j
    {
      if triangulation[j] == triangulation[i] {
        j := j + 1;
        continue;
      }
      if sharesAnyEdge(triangulation[i], triangulation[j]) {
        found := found + [j];
        edgeCounter := edgeCounter + 1;
      }
      j := j + 1;
    }
  }

  /**
   * The builder. `GraphNode.AddNeighbourPosition` is given the neighbour's
   * position; the model records the neighbour's index, whose node holds that
   * position.
   */
  method GenerateVoronoiFromDelaunay(triangulation: seq<Triangle>, circle: CircumcircleFn, sharesAnyEdge: EdgeTest)
    returns (graph: VoronoiGraph)
    ensures |graph.nodes| == |triangulation|
    ensures forall i | 0 <= i < |triangulation| ::
              && graph.nodes[i].position == triangulation[i].Center(circle)
              && graph.nodes[i].neighbors == Neighbours(triangulation, sharesAnyEdge, i)
    ensures graph.allPoints == AllVertices(triangulation)
    ensures graph.Valid()
  {
    var allNodes, allPoints := CreateNodes(triangulation, circle);
    for i := 0 to |triangulation|
      invariant |allNodes| == |triangulation|
      invariant forall k | 0 <= k < |triangulation| :: allNodes[k].position == triangulation[k].Center(circle)
      invariant forall k | 0 <= k < i :: allNodes[k].neighbors == Neighbours(triangulation, sharesAnyEdge, k)
      invariant forall k | i <= k < |triangulation| :: allNodes[k].neighbors == []
    {
      var found := ScanNeighbours(triangulation, sharesAnyEdge, i);
      allNodes := allNodes[i := allNodes[i].(neighbors := allNodes[i].neighbors + found)];
    }
    graph := VoronoiGraph(allNodes, allPoints);
    forall i | 0 <= i < |triangulation|
      ensures (forall k | 0 <= k < |graph.nodes[i].neighbors| :: graph.nodes[i].neighbors[k] < |graph.nodes|)
      ensures Distinct(graph.nodes[i].neighbors)
    {
      NeighboursProperties(triangulation, sharesAnyEdge, i);
      assert forall k | 0 <= k < |graph.nodes[i].neighbors| :: graph.nodes[i].neighbors[k] in Neighbours(triangulation, sharesAnyEdge, i);
    }
  }

  lemma AllVerticesSnoc(tris: seq<Triangle>, t: Triangle)
    ensures AllVertices(tris + [t]) == AllVertices(tris) + set q | 0 <= q < 3 :: t.Vertices()[q]
  {
    var s := tris + [t];
    forall v | v in AllVertices(s)
      ensures v in AllVertices(tris) + set q | 0 <= q < 3 :: t.Vertices()[q]
    {
      var k, r :| 0 <= k < |s| && 0 <= r < 3 && s[k].Vertices()[r] == v;
      if k < |tris| {
        assert tris[k].Vertices()[r] == v;
      }
    }
    forall v | v in AllVertices(tris)
      ensures v in AllVertices(s)
    {
      var k, r :| 0 <= k < |tris| && 0 <= r < 3 && tris[k].Vertices()[r] == v;
      assert s[k].Vertices()[r] == v;
    }
    forall q | 0 <= q < 3
      ensures t.Vertices()[q] in AllVertices(s)
    {
      assert s[|tris|].Vertices()[q] == t.Vertices()[q];
    }
  }
}
