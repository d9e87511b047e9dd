/** The append-only node arena of src/graph.rs. A node is identified by its
    index (its `id`); its outgoing edges, keyed by the grammar symbol that
    labels them, live in `edges` at the same index and name target nodes by
    index. */
module Graph {
  import opened Grammar

  class Arena<T(==)> {
    var nodes: seq<T>
    var edges: seq<map<Character, nat>>

    /** Every node has exactly one edge map. */
    ghost predicate Valid()
      reads this
    {
      |edges| == |nodes|
    }

    /** `Arena::new`: no nodes. */
    constructor()
      ensures Valid()
      ensures nodes == [] && edges == []
    {
      nodes := [];
      edges := [];
    }

    /** `push`: appends one node holding `v`, with no edges, and leaves every
        earlier node and its edges as they were. */
    method Push(v: T)
      requires Valid()
      modifies this
      ensures Valid()
      ensures nodes == old(nodes) + [v]
      ensures edges == old(edges) + [map[]]
    {
      nodes := nodes + [v];
      edges := edges + [map[]];
    }

    /** `get`: the first node, in id order, whose value equals `v`, or
        nothing when no node holds `v`. */
    method Get(v: T) returns (r: Option<nat>)
      ensures r.Some? ==> r.value < |nodes| && nodes[r.value] == v
      ensures r.Some? ==> forall i :: 0 <= i < r.value ==> nodes[i] != v
      ensures r.None? <==> v !in nodes
    {
      var i := 0;
      while i < |nodes|
        invariant i <= |nodes|
        invariant v !in nodes[..i]
      {
        if nodes[i] == v {
          return Some(i);
        }
        i := i + 1;
      }
      assert nodes[..i] == nodes;
      return None;
    }

    /** `get_mut`: locates the same node as `get` (the lowest id holding
        `v`); handing out the node for writing changes nothing by itself. */
    method GetMut(v: T) returns (r: Option<nat>)
      ensures r.Some? ==> r.value < |nodes| && nodes[r.value] == v
      ensures r.Some? ==> forall i :: 0 <= i < r.value ==> nodes[i] != v
      ensures r.None? <==> v !in nodes
    {
      r := Get(v);
    }
  }
}
