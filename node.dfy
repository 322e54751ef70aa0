/** Node.java: a vertex of the road graph. */
module Nodes {

  import opened Wrappers
  import opened Edges

  /** A vertex.  Its id and coordinates have no setters and are constants; its
      display name, its adjacency and its search priority are fields that change
      in place.  `adj` is the node's own set: GraphDB.connect adds to it through
      the reference that adj() hands out, so the edges stay on the node. */
  class Node {
    const id: int
    const lon: real
    const lat: real
    var name: Option<string>
    var adj: multiset<Edge>
    var priority: real

    /** A fresh vertex has no name, no edges and priority 0.0. */
    constructor (id: int, lon: real, lat: real)
      ensures this.id == id && this.lon == lon && this.lat == lat
      ensures name == None && adj == multiset{} && priority == 0.0
    {
      this.id := id;
      this.lon := lon;
      this.lat := lat;
      name := None;
      adj := multiset{};
      priority := 0.0;
    }

    /** Sets the display name and nothing else. */
    method SetName(name: string)
      modifies this`name
      ensures this.name == Some(name)
    {
      this.name := Some(name);
    }

    /** Sets the search priority and nothing else. */
    method SetPriority(priority: real)
      modifies this`priority
      ensures this.priority == priority
    {
      this.priority := priority;
    }

    /** Double.compare on the priorities: the order the search fringe pops by. */
    function CompareTo(other: Node): (r: int)
      reads this, other
      ensures -1 <= r <= 1
      ensures r < 0 <==> priority < other.priority
      ensures r == 0 <==> priority == other.priority
      ensures r > 0 <==> priority > other.priority
    {
      if priority < other.priority then -1
      else if priority > other.priority then 1
      else 0
    }
  }

  /** CompareTo is a total preorder on nodes: it flips sign when the arguments swap
      and it is transitive, which is what a priority queue needs of it. */
  lemma CompareToIsPreorder(a: Node, b: Node, c: Node)
    ensures a.CompareTo(b) == -b.CompareTo(a)
    ensures a.CompareTo(b) <= 0 && b.CompareTo(c) <= 0 ==> a.CompareTo(c) <= 0
    ensures a.CompareTo(a) == 0
  {
  }
}
