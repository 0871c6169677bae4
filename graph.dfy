/**
 * The part of networkx's `DiGraph` that `generate_dag` uses: a set of node
 * names and a set of ordered pairs, where adding an edge adds its endpoints.
 */
module Graph {

  class DiGraph {
    var nodes: set<string>
    var edges: set<(string, string)>

    /** Both ends of every edge are nodes. */
    ghost predicate Valid()
      reads this
    {
      forall e | e in edges :: e.0 in nodes && e.1 in nodes
    }

    constructor ()
      ensures Valid() && nodes == {} && edges == {}
    {
      nodes, edges := {}, {};
    }

    /** `add_node(n)`: adding a node twice is the same as adding it once. */
    method AddNode(n: string)
      requires Valid()
      modifies this
      ensures Valid()
      ensures nodes == old(nodes) + {n} && edges == old(edges)
    {
      nodes := nodes + {n};
    }

    /** `add_edge(u, v)`: inserts the edge and, implicitly, both endpoints. */
    method AddEdge(u: string, v: string)
      requires Valid()
      modifies this
      ensures Valid()
      ensures nodes == old(nodes) + {u, v} && edges == old(edges) + {(u, v)}
    {
      nodes := nodes + {u, v};
      edges := edges + {(u, v)};
    }
  }
}
