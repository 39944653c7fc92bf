/**
 * `Pathing.GenerateRandomCircuit`: a random walk over the Voronoi graph that
 * never revisits a node and backtracks out of dead ends. It stops once the path
 * holds 16 nodes, or, when it has backtracked all the way to an empty path,
 * falls back on the longest path it reached. The circuit's positions are the
 * path's node positions with the first one repeated at the end.
 */
module Pathing {
  import opened Geometry
  import opened Seqs
  import opened Wrappers
  import opened Graphs

  /** `testLimit`: the number of nodes a finished path holds. */
  const TestLimit: nat := 16

  /**
   * The random source: `draw(k, n)` is the k-th `Random.Range(0, n)` on
   * integers, a value in [0, n) whenever n > 0.
   */
  type Draw = (nat, nat) -> nat

  /** A path that starts at `start`, visits no node twice and steps only along listed neighbours. */
  ghost predicate SimplePath(graph: VoronoiGraph, p: seq<nat>, start: nat) {
    && (p != [] ==> p[0] == start)
    && Distinct(p)
    && (forall k | 0 <= k < |p| :: p[k] < |graph.nodes|)
    && (forall k | 0 <= k < |p| - 1 :: p[k + 1] in graph.nodes[p[k]].neighbors)
  }

  /** The positions of the nodes of `p`, in path order. */
  function Positions(graph: VoronoiGraph, p: seq<nat>): (r: seq<Vec2>)
    requires forall k | 0 <= k < |p| :: p[k] < |graph.nodes|
    ensures |r| == |p|
    ensures forall k | 0 <= k < |p| :: r[k] == graph.nodes[p[k]].position
    decreases |p|
  {
    if p == [] then [] else Positions(graph, p[..|p| - 1]) + [graph.nodes[p[|p| - 1]].position]
  }

  /** The walk has nowhere to go from `start`: every neighbour it lists is `start` itself. */
  predicate StuckAtStart(graph: VoronoiGraph, start: nat)
    requires start < |graph.nodes|
  {
    Without(graph.nodes[start].neighbors, {start}) == []
  }

  /**
   * `foreach (int index in illegalPoints) neighbourIndexes.Remove(index)`, in
   * whatever order the set is walked: what is left is the list without the
   * illegal indices, in its original order.
   */
  method RemoveIllegal(neighbourIndexes: seq<nat>, illegalPoints: set<nat>) returns (legal: seq<nat>)
    requires Distinct(neighbourIndexes)
    ensures legal == Without(neighbourIndexes, illegalPoints)
  {
    legal := neighbourIndexes;
    var rest := illegalPoints;
    ghost var done: set<nat> := {};
    WithoutNothing(neighbourIndexes);
    while rest != {}
      invariant done + rest == illegalPoints && done !! rest
      invariant legal == Without(neighbourIndexes, done)
      decreases |rest|
    {
      var index :| index in rest;
      RemoveFirstFromWithout(neighbourIndexes, done, index);
      legal := RemoveFirst(legal, index);
      rest := rest - {index};
      done := done + {index};
    }
  }

  /**
   * The walk's position: `path` is a simple path from `start` whose nodes are
   * all illegal; the current node is a neighbour of its last node (or `start`
   * when it is empty) and not on it.
   */
  ghost predicate OnPath(graph: VoronoiGraph, start: nat, illegalPoints: set<nat>, path: seq<nat>, currentIndex: nat) {
    && currentIndex < |graph.nodes|
    && (forall k | k in illegalPoints :: k < |graph.nodes|)
    && SimplePath(graph, path, start)
    && (forall k | 0 <= k < |path| :: path[k] in illegalPoints)
    && currentIndex !in path
    && (path == [] ==> currentIndex == start)
    && (path != [] ==> currentIndex in graph.nodes[path[|path| - 1]].neighbors)
  }

  /** `longestPath` is the longest of the simple paths in `history`, and no shorter than `path`. */
  ghost predicate Recorded(graph: VoronoiGraph, start: nat, path: seq<nat>, longestPath: seq<nat>, history: seq<seq<nat>>) {
    && SimplePath(graph, longestPath, start)
    && |path| <= |longestPath|
    && (forall h | h in history :: SimplePath(graph, h, start) && |h| <= |longestPath|)
    && (longestPath == [] || longestPath in history)
  }

  /**
   * What holds at the head of the walk's loop: its position, the record of
   * the paths it reached, and, until the first advance, that nothing has
   * happened yet.
   */
  ghost predicate WalkState(graph: VoronoiGraph, start: nat, illegalPoints: set<nat>, path: seq<nat>, currentIndex: nat,
                            longestPath: seq<nat>, history: seq<seq<nat>>, advanced: bool)
  {
    && OnPath(graph, start, illegalPoints, path, currentIndex)
    && Recorded(graph, start, path, longestPath, history)
    && (!advanced ==> path == [] && longestPath == [] && illegalPoints == {} && currentIndex == start)
    && (advanced ==> |longestPath| >= 1 && start < |graph.nodes| && !StuckAtStart(graph, start))
  }

  /**
   * An advance to a legal neighbour `next` keeps the walk's invariant: the
   * current node joins the path, the path becomes the longest one if it is
   * longer, and it is recorded.
   */
  lemma AdvanceKeepsWalkState(graph: VoronoiGraph, start: nat, illegalPoints: set<nat>, path: seq<nat>, currentIndex: nat,
                              longestPath: seq<nat>, history: seq<seq<nat>>, advanced: bool, next: nat,
                              newPath: seq<nat>, newLongest: seq<nat>)
    requires graph.Valid()
    requires WalkState(graph, start, illegalPoints, path, currentIndex, longestPath, history, advanced)
    requires next in graph.nodes[currentIndex].neighbors && next !in illegalPoints + {currentIndex}
    requires newPath == path + [currentIndex]
    requires |longestPath| < |newPath| ==> newLongest == newPath
    requires |newPath| <= |longestPath| ==> newLongest == longestPath
    ensures next < |graph.nodes|
    ensures WalkState(graph, start, illegalPoints + {currentIndex}, newPath, next, newLongest, history + [newPath], true)
  {
    var illegal := illegalPoints + {currentIndex};
    ExtendSimplePath(graph, path, start, currentIndex);
    assert forall k | 0 <= k < |newPath| :: newPath[k] in illegal;
    HistoryGrows(graph, start, history, longestPath, newPath, newLongest);
    NeighbourInRange(graph, currentIndex, next);
    if !advanced {
      assert illegal == {start};
      LeavingStart(graph, start, next);
    }
  }

  /** A neighbour of `start` other than `start` itself is somewhere to go. */
  lemma LeavingStart(graph: VoronoiGraph, start: nat, next: nat)
    requires start < |graph.nodes|
    requires next in graph.nodes[start].neighbors && next != start
    ensures !StuckAtStart(graph, start)
  {
    WithoutMembership(graph.nodes[start].neighbors, {start}, next);
  }

  /** Every neighbour a node of a valid graph lists is a node of the graph. */
  lemma NeighbourInRange(graph: VoronoiGraph, i: nat, x: nat)
    requires graph.Valid() && i < |graph.nodes|
    requires x in graph.nodes[i].neighbors
    ensures x < |graph.nodes|
  {
    var k :| 0 <= k < |graph.nodes[i].neighbors| && graph.nodes[i].neighbors[k] == x;
  }

  /** A node that is not yet on a simple path and follows its last node extends it. */
  lemma ExtendSimplePath(graph: VoronoiGraph, p: seq<nat>, start: nat, x: nat)
    requires SimplePath(graph, p, start)
    requires x < |graph.nodes| && x !in p
    requires p == [] ==> x == start
    requires p != [] ==> x in graph.nodes[p[|p| - 1]].neighbors
    ensures SimplePath(graph, p + [x], start)
  {
  }

  /** Recording a new simple path keeps the longest path the longest one in the history. */
  lemma HistoryGrows(graph: VoronoiGraph, start: nat, history: seq<seq<nat>>, longestPath: seq<nat>,
                     newPath: seq<nat>, newLongest: seq<nat>)
    requires forall h | h in history :: SimplePath(graph, h, start) && |h| <= |longestPath|
    requires longestPath == [] || longestPath in history
    requires SimplePath(graph, newPath, start) && newPath != []
    requires |longestPath| < |newPath| ==> newLongest == newPath
    requires |newPath| <= |longestPath| ==> newLongest == longestPath
    ensures forall h | h in history + [newPath] :: SimplePath(graph, h, start) && |h| <= |newLongest|
    ensures newLongest in history + [newPath]
    ensures SimplePath(graph, newLongest, start) && |newPath| <= |newLongest|
  {
  }

  /** Backing out of a dead end keeps the walk's invariant. */
  lemma BacktrackKeepsWalkState(graph: VoronoiGraph, start: nat, illegalPoints: set<nat>, path: seq<nat>, currentIndex: nat,
                                longestPath: seq<nat>, history: seq<seq<nat>>, advanced: bool)
    requires WalkState(graph, start, illegalPoints, path, currentIndex, longestPath, history, advanced)
    requires path != []
    ensures var n := |path| - 1;
            && path[n] in illegalPoints
            && WalkState(graph, start, illegalPoints + {currentIndex}, path[..n], path[n], longestPath, history, advanced)
  {
    var n := |path| - 1;
    assert path[n] !in path[..n];
    if n > 0 {
      assert path[n] in graph.nodes[path[n - 1]].neighbors;
    }
  }

  /** Backing out of a dead end: the last node of the path becomes the current one again. */
  method BackOut(graph: VoronoiGraph, start: nat, ghost illegalPoints: set<nat>, path: seq<nat>, currentIndex: nat,
                 longestPath: seq<nat>, ghost history: seq<seq<nat>>, ghost advanced: bool)
    returns (newIndex: nat, newPath: seq<nat>)
    requires WalkState(graph, start, illegalPoints, path, currentIndex, longestPath, history, advanced)
    requires path != []
    ensures path == newPath + [newIndex]
    ensures newIndex in illegalPoints
    ensures WalkState(graph, start, illegalPoints + {currentIndex}, newPath, newIndex, longestPath, history, advanced)
  {
    BacktrackKeepsWalkState(graph, start, illegalPoints, path, currentIndex, longestPath, history, advanced);
    newIndex := path[|path| - 1];
    newPath := path[..|path| - 1];
  }

  /**
   * The `while (testCount < testLimit)` loop from `start`. It ends with a
   * full path of 16 nodes, or, once it has backed out to an empty path, with
   * the longest path it reached; that one is empty only when the walk could
   * not leave `start`. `history` is every path reached by an advance.
   */
  method Walk(voronoiGraph: VoronoiGraph, start: nat, draw: Draw) returns (path: seq<nat>, ghost history: seq<seq<nat>>)
    requires voronoiGraph.Valid() && start < voronoiGraph.AllNodesCount()
    requires forall k, n | 0 < n :: draw(k, n) < n
    ensures SimplePath(voronoiGraph, path, start) && |path| <= TestLimit
    ensures path == [] <==> StuckAtStart(voronoiGraph, start)
    ensures |path| == TestLimit || ((path != [] ==> path in history) && forall h | h in history :: |h| <= |path|)
    ensures forall h | h in history :: SimplePath(voronoiGraph, h, start)
  {
    var illegalPoints: set<nat> := {};
    path := [];
    var longestPath: seq<nat> := [];
    var currentIndex := start;
    var drawCount := 1;
    var testCount := 0;
    ghost var advanced := false;
    history := [];

    while testCount < TestLimit
      invariant testCount == |path| <= TestLimit
      invariant |longestPath| <= TestLimit
      invariant WalkState(voronoiGraph, start, illegalPoints, path, currentIndex, longestPath, history, advanced)
      invariant path != [] ==> !StuckAtStart(voronoiGraph, start)
      decreases voronoiGraph.AllNodesCount() - |illegalPoints + {currentIndex}|, |path|
    {
      ghost var illegalBefore := illegalPoints;
      illegalPoints := illegalPoints + {currentIndex};
      NodeSetBounded(illegalPoints, voronoiGraph.AllNodesCount());
      var neighbourIndexes := RemoveIllegal(voronoiGraph.GetGraphNodeByIndex(currentIndex).neighbors, illegalPoints);

      if |neighbourIndexes| == 0 {
        // Dead end: back-track.
        if |path| == 0 {
          GiveUpReportsStuckStart(voronoiGraph, start, illegalBefore, currentIndex, longestPath, history, advanced);
          path := longestPath;
          break;
        }
        currentIndex, path := BackOut(voronoiGraph, start, illegalBefore, path, currentIndex, longestPath, history, advanced);
        testCount := testCount - 1;
        AddingMemberChangesNothing(illegalPoints, currentIndex);
      } else {
        var next := neighbourIndexes[draw(drawCount, |neighbourIndexes|)];
        path, longestPath, history := Advance(voronoiGraph, start, illegalBefore, path, currentIndex, longestPath, history, advanced, next);
        advanced := true;
        currentIndex := next;
        drawCount := drawCount + 1;
        testCount := testCount + 1;
      }
    }
  }

  /**
   * The advance to `next`: the current node joins the path, and the path
   * becomes the longest one when it is longer.
   */
  method Advance(graph: VoronoiGraph, start: nat, ghost illegalPoints: set<nat>, path: seq<nat>, currentIndex: nat,
                 longestPath: seq<nat>, ghost history: seq<seq<nat>>, ghost advanced: bool, next: nat)
    returns (newPath: seq<nat>, newLongest: seq<nat>, ghost newHistory: seq<seq<nat>>)
    requires graph.Valid()
    requires WalkState(graph, start, illegalPoints, path, currentIndex, longestPath, history, advanced)
    requires next in Without(graph.nodes[currentIndex].neighbors, illegalPoints + {currentIndex})
    ensures newPath == path + [currentIndex]
    ensures |longestPath| < |newPath| ==> newLongest == newPath
    ensures |newPath| <= |longestPath| ==> newLongest == longestPath
    ensures next < |graph.nodes| && next !in illegalPoints + {currentIndex}
    ensures WalkState(graph, start, illegalPoints + {currentIndex}, newPath, next, newLongest, newHistory, true)
    ensures !StuckAtStart(graph, start)
  {
    newPath := path + [currentIndex];
    newLongest := longestPath;
    if |longestPath| < |newPath| {
      newLongest := newPath;
    }
    newHistory := history + [newPath];
    WithoutMembership(graph.nodes[currentIndex].neighbors, illegalPoints + {currentIndex}, next);
    AdvanceKeepsWalkState(graph, start, illegalPoints, path, currentIndex, longestPath, history, advanced, next, newPath, newLongest);
    PathMeansNotStuck(graph, start, illegalPoints + {currentIndex}, newPath, next, newLongest, newHistory, true);
  }

  /**
   * Giving up with an empty path: the longest path reached is empty exactly
   * when the walk never left `start`, because `start` had no neighbour but
   * itself.
   */
  lemma GiveUpReportsStuckStart(graph: VoronoiGraph, start: nat, illegalPoints: set<nat>, currentIndex: nat,
                                longestPath: seq<nat>, history: seq<seq<nat>>, advanced: bool)
    requires WalkState(graph, start, illegalPoints, [], currentIndex, longestPath, history, advanced)
    requires Without(graph.nodes[currentIndex].neighbors, illegalPoints + {currentIndex}) == []
    ensures start < |graph.nodes|
    ensures longestPath == [] <==> StuckAtStart(graph, start)
  {
    if !advanced {
      assert illegalPoints + {currentIndex} == {start};
    }
  }

  /** A non-empty path means the walk has advanced, so `start` had somewhere to go. */
  lemma PathMeansNotStuck(graph: VoronoiGraph, start: nat, illegalPoints: set<nat>, path: seq<nat>, currentIndex: nat,
                          longestPath: seq<nat>, history: seq<seq<nat>>, advanced: bool)
    requires WalkState(graph, start, illegalPoints, path, currentIndex, longestPath, history, advanced)
    requires path != []
    ensures start < |graph.nodes| && !StuckAtStart(graph, start)
  {
  }

  lemma AddingMemberChangesNothing(s: set<nat>, x: nat)
    requires x in s
    ensures s + {x} == s
  {
  }

  /** A set of node indices of a graph with `n` nodes has at most `n` members. */
  lemma {:induction false} NodeSetBounded(s: set<nat>, n: nat)
    requires forall k | k in s :: k < n
    ensures |s| <= n
  {
    if n == 0 {
      assert s == {};
    } else {
      NodeSetBounded(s - {n - 1}, n - 1);
    }
  }

  /**
   * `GenerateRandomCircuit`. `nodePath` is the path whose positions are
   * returned and `history` every path the walk reached by an advance. The
   * result is `None` where the source throws: on an empty graph, where the
   * start node is looked up, and when the start node has no neighbour but
   * itself, where the final `pathPositions[0]` reads an empty list.
   * `maxLength` and `minLength` only feed `preferredLength`, which is not used.
   */
  method GenerateRandomCircuit(voronoiGraph: VoronoiGraph, maxLength: real, minLength: real, draw: Draw)
    returns (pathPositions: Option<seq<Vec2>>, ghost nodePath: seq<nat>, ghost history: seq<seq<nat>>)
    requires voronoiGraph.Valid()
    requires forall k, n | 0 < n :: draw(k, n) < n
    ensures pathPositions.None? <==>
              || voronoiGraph.AllNodesCount() == 0
              || StuckAtStart(voronoiGraph, draw(0, voronoiGraph.AllNodesCount()))
    ensures pathPositions.Some? ==>
              var start := draw(0, voronoiGraph.AllNodesCount());
              && SimplePath(voronoiGraph, nodePath, start)
              && 1 <= |nodePath| <= TestLimit
              && (|nodePath| == TestLimit || (nodePath in history && forall h | h in history :: |h| <= |nodePath|))
              && (forall h | h in history :: SimplePath(voronoiGraph, h, start))
              && pathPositions.value == Positions(voronoiGraph, nodePath) + [voronoiGraph.nodes[nodePath[0]].position]
              && pathPositions.value[|nodePath|] == pathPositions.value[0]
  {
    var count := voronoiGraph.AllNodesCount();
    if count == 0 {
      // `GetGraphNodeByIndex` on an empty node list.
      return None, [], [];
    }
    var currentIndex := draw(0, count);
    var path;
    path, history := Walk(voronoiGraph, currentIndex, draw);
    pathPositions := ClosedPositions(voronoiGraph, path);
    nodePath := path;
  }

  /**
   * The position list: the path's node positions in order, then the first
   * one again, which needs a non-empty path.
   */
  method ClosedPositions(voronoiGraph: VoronoiGraph, path: seq<nat>) returns (pathPositions: Option<seq<Vec2>>)
    requires forall k | 0 <= k < |path| :: path[k] < |voronoiGraph.nodes|
    ensures pathPositions.None? <==> path == []
    ensures pathPositions.Some? ==>
              && pathPositions.value == Positions(voronoiGraph, path) + [voronoiGraph.nodes[path[0]].position]
              && pathPositions.value[|path|] == pathPositions.value[0]
  {
    var positions: seq<Vec2> := [];
    for i := 0 to |path|
      invariant positions == Positions(voronoiGraph, path[..i])
    {
      assert path[..i + 1][..i] == path[..i];
      positions := positions + [voronoiGraph.GetGraphNodeByIndex(path[i]).position];
    }
    assert path[..|path|] == path;
    if |positions| == 0 {
      // `pathPositions[0]` on an empty list.
      return None;
    }
    positions := positions + [positions[0]];
    pathPositions := Some(positions);
  }

}
