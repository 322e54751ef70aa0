/** Edge.java: one directed half of a road segment between two vertices. */
module Edges {

  /** An edge names the vertex it leads to and carries the length of the segment.
      Both fields are set by the constructor and have no setters, so an edge is a
      value that never changes.  Only `nodeid` is ever read back; `length` is stored
      and never exposed.  Edge.java does not override equals, so two edges with the
      same fields are still two members of an adjacency set: the model keeps that
      by storing a vertex's adjacency as a multiset of edges. */
  datatype Edge = Edge(nodeid: int, length: real)

  /** The distinct ids an adjacency leads to: parallel edges collapse into one id. */
  function Targets(adj: multiset<Edge>): set<int>
  {
    set e | e in adj :: e.nodeid
  }

  /** Adding an edge adds exactly its target id to the targets. */
  lemma TargetsAdd(adj: multiset<Edge>, e: Edge)
    ensures Targets(adj + multiset{e}) == Targets(adj) + {e.nodeid}
  {
    forall id | id in Targets(adj + multiset{e})
      ensures id in Targets(adj) + {e.nodeid}
    {
      var f :| f in adj + multiset{e} && f.nodeid == id;
      if f != e {
        assert f in adj;
      }
    }
    assert e in adj + multiset{e};
  }

  /** A repeated edge changes the multiset (it is a second member) but not the targets. */
  lemma ParallelEdgesCollapse(adj: multiset<Edge>, e: Edge)
    ensures adj + multiset{e, e} != adj + multiset{e}
    ensures Targets(adj + multiset{e, e}) == Targets(adj + multiset{e})
  {
    assert (adj + multiset{e, e})[e] == adj[e] + 2;
    TargetsAdd(adj, e);
    TargetsAdd(adj + multiset{e}, e);
    assert adj + multiset{e, e} == adj + multiset{e} + multiset{e};
  }
}
