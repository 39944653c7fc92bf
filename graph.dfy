/**
 * The graph the Voronoi builder produces and the circuit walk consumes: a flat
 * list of nodes, each with a position and the indices of its neighbours, plus
 * the set of all triangle vertices.
 */
module Graphs {
  import opened Geometry
  import opened Seqs

  datatype GraphNode = GraphNode(position: Vec2, neighbors: seq<nat>)

  datatype VoronoiGraph = VoronoiGraph(nodes: seq<GraphNode>, allPoints: set<Vec2>) {

    function AllNodesCount(): nat {
      |nodes|
    }

    function GetGraphNodeByIndex(index: nat): GraphNode
      requires index < |nodes|
    {
      nodes[index]
    }

    /** Every neighbour index names a node, and no node lists a neighbour twice. */
    predicate Valid() {
      forall i | 0 <= i < |nodes| ::
        && (forall k | 0 <= k < |nodes[i].neighbors| :: nodes[i].neighbors[k] < |nodes|)
        && Distinct(nodes[i].neighbors)
    }

    /** Node `j` is listed as a neighbour of node `i`. */
    predicate Adjacent(i: nat, j: nat) {
      i < |nodes| && j in nodes[i].neighbors
    }
  }
}
