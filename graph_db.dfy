/** GraphDB.java: the road graph, a table from vertex id to vertex whose
    adjacencies are filled by connect, plus the queries the router and the
    search front end use. */
module Graph {

  import opened Wrappers
  import opened Edges
  import opened Nodes
  import opened Collections

  // ---------------------------------------------------------------------------
  // Euclidean distance

  function Square(x: real): (r: real)
    ensures 0.0 <= r
  {
    x * x
  }

  /** The product of two non-zero numbers is not zero. */
  lemma NonZeroProduct(x: real, y: real)
    requires x != 0.0 && y != 0.0
    ensures x * y != 0.0
  {
  }

  /** A square is zero exactly when the number squared is. */
  lemma SquareZero(x: real)
    ensures Square(x) == 0.0 <==> x == 0.0
  {
    if x != 0.0 {
      NonZeroProduct(x, x);
      calc { Square(x); == x * x; != 0.0; }
    }
  }

  lemma SquareOfDifference(a: real, b: real)
    ensures Square(a - b) == Square(b - a)
  {
    assert (a - b) * (a - b) == (b - a) * (b - a);
  }

  /** r is the non-negative square root of x. */
  predicate IsSqrt(x: real, r: real)
  {
    0.0 <= r && r * r == x
  }

  /** f returns the square root of every non-negative number, as Math.sqrt
      does. */
  ghost predicate IsSqrtFunction(f: real -> real)
  {
    forall x: real :: 0.0 <= x ==> IsSqrt(x, f(x))
  }

  /** The square root of x is zero exactly when x is. */
  lemma SqrtZero(x: real, r: real)
    requires IsSqrt(x, r)
    ensures r == 0.0 <==> x == 0.0
  {
    if r != 0.0 {
      NonZeroProduct(r, r);
      calc { x; == r * r; != 0.0; }
    }
  }

  // ---------------------------------------------------------------------------
  // Vertex tables

  /** Each vertex is filed under its own id, so distinct ids hold distinct
      nodes. */
  ghost predicate FiledById(m: map<int, Node>)
  {
    forall k :: k in m ==> m[k].id == k
  }

  /** The vertices of a table that have at least one edge: what clean keeps. */
  function NonIsolated(m: map<int, Node>): (r: map<int, Node>)
    reads m.Values`adj
    ensures r.Keys <= m.Keys
  {
    map k | k in m && |m[k].adj| != 0 :: m[k]
  }

  /** clean keeps exactly the vertices with an edge, each still mapped to its
      own node. */
  lemma NonIsolatedKeeps(m: map<int, Node>, k: int)
    ensures k in NonIsolated(m) <==> k in m && |m[k].adj| != 0
    ensures k in NonIsolated(m) ==> NonIsolated(m)[k] == m[k]
  {
  }

  /** Cleaning twice is cleaning once. */
  lemma NonIsolatedIdempotent(m: map<int, Node>)
    ensures NonIsolated(NonIsolated(m)) == NonIsolated(m)
  {
  }

  /** A table whose every vertex has an edge is already clean. */
  lemma NonIsolatedFixes(m: map<int, Node>)
    requires forall k :: k in m ==> |m[k].adj| != 0
    ensures NonIsolated(m) == m
  {
    forall k | k in m
      ensures k in NonIsolated(m)
    {
      NonIsolatedKeeps(m, k);
    }
  }

  /** Every edge of every vertex in the table leads to a vertex of the table
      that itself has an edge.  connect between two vertices of the table keeps
      this (both ends get an edge), and so does clean. */
  ghost predicate EdgesClosed(m: map<int, Node>)
    reads m.Values`adj
  {
    forall k, e :: k in m && e in m[k].adj ==> e.nodeid in m && |m[e.nodeid].adj| != 0
  }

  /** Removing the isolated vertices removes no edge target of a closed table. */
  lemma CleanKeepsEdgesClosed(m: map<int, Node>)
    requires EdgesClosed(m)
    ensures EdgesClosed(NonIsolated(m))
  {
    var c := NonIsolated(m);
    forall k, e | k in c && e in c[k].adj
      ensures e.nodeid in c && |c[e.nodeid].adj| != 0
    {
      NonIsolatedKeeps(m, k);
      NonIsolatedKeeps(m, e.nodeid);
    }
  }

  /** Growing the adjacencies of a closed table keeps it closed when every
      new edge leads to a vertex that has an edge afterwards: what connect
      does to two vertices of the table. */
  twostate lemma GrowingKeepsEdgesClosed(m: map<int, Node>, v: Node, w: Node)
    requires old(EdgesClosed(m))
    requires v.id in m && m[v.id] == v && w.id in m && m[w.id] == w && |v.adj| != 0 && |w.adj| != 0
    requires forall k :: k in m ==> old(m[k].adj) <= m[k].adj
    requires forall k, e :: k in m && e in m[k].adj && e !in old(m[k].adj) ==> e.nodeid == v.id || e.nodeid == w.id
    ensures EdgesClosed(m)
  {
    forall k, e | k in m && e in m[k].adj
      ensures e.nodeid in m && |m[e.nodeid].adj| != 0
    {
      if e in old(m[k].adj) {
        assert old(|m[e.nodeid].adj|) != 0;
        assert old(m[e.nodeid].adj) <= m[e.nodeid].adj;
      }
    }
  }

  /** In a closed table an edge target is itself a vertex. */
  lemma TargetIsVertex(m: map<int, Node>, k: int, t: int)
    requires EdgesClosed(m) && k in m && t in Targets(m[k].adj)
    ensures t in m
  {
    var e :| e in m[k].adj && e.nodeid == t;
  }

  // ---------------------------------------------------------------------------
  // cleanString

  /** The characters the regular expression [^a-zA-Z ] does not remove. */
  predicate IsKept(c: char)
  {
    'a' <= c <= 'z' || 'A' <= c <= 'Z' || c == ' '
  }

  /** s.replaceAll("[^a-zA-Z ]", ""). */
  function RemoveDisallowed(s: string): (r: string)
    ensures |r| <= |s|
    ensures forall i :: 0 <= i < |r| ==> IsKept(r[i])
  {
    if s == [] then []
    else (if IsKept(s[0]) then [s[0]] else []) + RemoveDisallowed(s[1..])
  }

  function LowerChar(c: char): char
  {
    if 'A' <= c <= 'Z' then (c as int + 32) as char else c
  }

  /** toLowerCase on a string of ASCII letters and spaces. */
  function ToLower(s: string): (r: string)
    ensures |r| == |s|
    ensures forall i :: 0 <= i < |s| ==> r[i] == LowerChar(s[i])
  {
    if s == [] then [] else [LowerChar(s[0])] + ToLower(s[1..])
  }

  /** The cleaned form of a string: its letters, lower-cased, and its spaces,
      in their original order; nothing else. */
  function CleanString(s: string): (r: string)
    ensures |r| <= |s|
    ensures forall i :: 0 <= i < |r| ==> 'a' <= r[i] <= 'z' || r[i] == ' '
  {
    ToLower(RemoveDisallowed(s))
  }

  /** What one input character contributes to the cleaned string: itself
      lower-cased if it is a letter or a space, nothing otherwise. */
  lemma {:induction false} CleanStringOfCons(c: char, s: string)
    ensures CleanString([c] + s) == (if IsKept(c) then [LowerChar(c)] else []) + CleanString(s)
  {
    assert ([c] + s)[1..] == s;
    ToLowerAppend(if IsKept(c) then [c] else [], RemoveDisallowed(s));
  }

  lemma {:induction false} RemoveDisallowedAppend(a: string, b: string)
    ensures RemoveDisallowed(a + b) == RemoveDisallowed(a) + RemoveDisallowed(b)
  {
    if a == [] {
      assert a + b == b;
    } else {
      assert (a + b)[1..] == a[1..] + b;
      RemoveDisallowedAppend(a[1..], b);
    }
  }

  lemma {:induction false} ToLowerAppend(a: string, b: string)
    ensures ToLower(a + b) == ToLower(a) + ToLower(b)
  {
  }

  /** Cleaning works character by character: the cleaned form of a
      concatenation is the concatenation of the cleaned forms. */
  lemma CleanStringAppend(a: string, b: string)
    ensures CleanString(a + b) == CleanString(a) + CleanString(b)
  {
    RemoveDisallowedAppend(a, b);
    ToLowerAppend(RemoveDisallowed(a), RemoveDisallowed(b));
  }

  /** A string of lower-case letters and spaces is already clean. */
  lemma {:induction false} CleanStringFixes(s: string)
    requires forall i :: 0 <= i < |s| ==> 'a' <= s[i] <= 'z' || s[i] == ' '
    ensures CleanString(s) == s
  {
    if s != [] {
      assert s == [s[0]] + s[1..];
      CleanStringOfCons(s[0], s[1..]);
      CleanStringFixes(s[1..]);
    }
  }

  /** Cleaning is idempotent. */
  lemma CleanStringIdempotent(s: string)
    ensures CleanString(CleanString(s)) == CleanString(s)
  {
    CleanStringFixes(CleanString(s));
  }

  // ---------------------------------------------------------------------------
  // The graph

  class GraphDB {
    /** The vertex table: HashMap<Long, Node>. */
    var nodes: map<int, Node>
    /** Math.sqrt. */
    const sqrt: real -> real

    /** Each vertex is filed under its own id, and sqrt is a square root. */
    ghost predicate Valid()
      reads this
    {
      IsSqrtFunction(sqrt) && FiledById(nodes)
    }

    /** An empty graph; the XML loading that fills it is not part of this
        model. */
    constructor (sqrt: real -> real)
      requires IsSqrtFunction(sqrt)
      ensures Valid() && nodes == map[]
    {
      this.sqrt := sqrt;
      nodes := map[];
    }

    /** sqrt((lon1 - lon2)^2 + (lat1 - lat2)^2). */
    function Euclid(lon1: real, lat1: real, lon2: real, lat2: real): real
    {
      sqrt(Square(lon1 - lon2) + Square(lat1 - lat2))
    }

    /** distance(Node, Node). */
    function Distance(v: Node, w: Node): real
    {
      Euclid(v.lon, v.lat, w.lon, w.lat)
    }

    /** Distance is symmetric and non-negative, and zero exactly between two
        vertices at the same place. */
    lemma DistanceProperties(v: Node, w: Node)
      requires Valid()
      ensures Distance(v, w) == Distance(w, v)
      ensures 0.0 <= Distance(v, w)
      ensures Distance(v, w) == 0.0 <==> v.lon == w.lon && v.lat == w.lat
    {
      var x := Square(v.lon - w.lon) + Square(v.lat - w.lat);
      SquareOfDifference(v.lon, w.lon);
      SquareOfDifference(v.lat, w.lat);
      SquareZero(v.lon - w.lon);
      SquareZero(v.lat - w.lat);
      assert IsSqrt(x, sqrt(x));
      SqrtZero(x, sqrt(x));
    }

    /** distance(long, long): the distance between the vertices filed under
        two ids. */
    function DistanceById(v: int, w: int): real
      requires v in nodes && w in nodes
      reads this
    {
      Distance(nodes[v], nodes[w])
    }

    /** lon(long). */
    function Lon(v: int): real
      requires v in nodes
      reads this
    {
      nodes[v].lon
    }

    /** lat(long). */
    function Lat(v: int): real
      requires v in nodes
      reads this
    {
      nodes[v].lat
    }

    /** vertices(). */
    function Vertices(): set<int>
      reads this
    {
      nodes.Keys
    }

    /** findNode: the node filed under an id, or None (null) when there is
        none; a found node carries that id. */
    function FindNode(id: int): (r: Option<Node>)
      reads this
      ensures r.Some? <==> id in nodes
      ensures r.Some? ==> r.value == nodes[id]
      ensures r.Some? && FiledById(nodes) ==> r.value.id == id
    {
      if id in nodes then Some(nodes[id]) else None
    }

    /** addNode: files n under its id, replacing any earlier node with that id;
        every other entry stays. */
    method AddNode(n: Node)
      requires Valid()
      modifies this
      ensures Valid()
      ensures nodes == old(nodes)[n.id := n]
      ensures FindNode(n.id) == Some(n)
      ensures forall k :: k != n.id ==> FindNode(k) == old(FindNode(k))
    {
      nodes := nodes[n.id := n];
    }

    /** connect: one new edge from v to w and one from w to v, both as long as
        the distance between them (two edges on v when v and w are the same
        node); afterwards each is adjacent to the other. */
    method Connect(v: Node, w: Node)
      modifies v`adj, w`adj
      ensures v != w ==> v.adj == old(v.adj) + multiset{Edge(w.id, Distance(v, w))}
      ensures v != w ==> w.adj == old(w.adj) + multiset{Edge(v.id, Distance(v, w))}
      ensures v == w ==> v.adj == old(v.adj) + multiset{Edge(v.id, Distance(v, w)), Edge(v.id, Distance(v, w))}
      ensures v != w ==> Targets(v.adj) == old(Targets(v.adj)) + {w.id}
      ensures v != w ==> Targets(w.adj) == old(Targets(w.adj)) + {v.id}
      ensures w.id in Targets(v.adj) && v.id in Targets(w.adj)
    {
      var dist := Distance(v, w);
      var edgeToW := Edge(w.id, dist);
      TargetsAdd(v.adj, edgeToW);
      v.adj := v.adj + multiset{edgeToW};
      var edgeToV := Edge(v.id, dist);
      TargetsAdd(w.adj, edgeToV);
      w.adj := w.adj + multiset{edgeToV};
      assert edgeToW in v.adj && edgeToV in w.adj;
    }

    /** clean: deletes every vertex without edges, in two passes (collect, then
        remove); the other vertices stay, each with its own node. */
    method Clean()
      requires Valid()
      modifies this
      ensures Valid()
      ensures nodes == old(NonIsolated(nodes))
      ensures forall k :: k in nodes ==> |nodes[k].adj| != 0
      ensures old(EdgesClosed(nodes)) ==> EdgesClosed(nodes)
    {
      if EdgesClosed(nodes) {
        CleanKeepsEdgesClosed(nodes);
      }
      var nodesToDelete: set<int> := {};
      var rest := nodes.Keys;
      while rest != {}
        invariant nodes == old(nodes)
        invariant rest <= nodes.Keys
        invariant nodesToDelete == set k | k in nodes.Keys - rest && |nodes[k].adj| == 0
        decreases rest
      {
        var v := Pick(rest);
        if |nodes[v].adj| == 0 {
          nodesToDelete := nodesToDelete + {v};
        }
        rest := rest - {v};
      }
      var pending := nodesToDelete;
      while pending != {}
        invariant pending <= nodesToDelete
        invariant nodes == old(nodes) - (nodesToDelete - pending)
        decreases pending
      {
        var v := Pick(pending);
        nodes := nodes - {v};
        pending := pending - {v};
      }
    }

    /** id is an answer closest may give for (lon, lat) on table m: 0 when no
        vertex is strictly within 1000.0, and otherwise a vertex within 1000.0
        that is no farther than any other vertex. */
    ghost predicate IsClosest(m: map<int, Node>, lon: real, lat: real, id: int)
    {
      && ((forall v :: v in m ==> Euclid(lon, lat, m[v].lon, m[v].lat) >= 1000.0) ==> id == 0)
      && ((exists v :: v in m && Euclid(lon, lat, m[v].lon, m[v].lat) < 1000.0) ==>
            && id in m
            && Euclid(lon, lat, m[id].lon, m[id].lat) < 1000.0
            && forall v :: v in m ==> Euclid(lon, lat, m[id].lon, m[id].lat) <= Euclid(lon, lat, m[v].lon, m[v].lat))
    }

    /** On table m, closest(lon, lat) names a vertex: some vertex is within
        1000.0 of the point, or 0 is itself a vertex.  Otherwise the router's
        findNode(0) is null and the search throws. */
    ghost predicate Resolves(m: map<int, Node>, lon: real, lat: real)
    {
      0 in m || exists v :: v in m && Euclid(lon, lat, m[v].lon, m[v].lat) < 1000.0
    }

    /** Whatever closest answers on a table where the point resolves is a
        vertex of that table. */
    lemma ClosestIsVertex(m: map<int, Node>, lon: real, lat: real, id: int)
      requires Resolves(m, lon, lat) && IsClosest(m, lon, lat, id)
      ensures id in m
    {
    }

    /** closest: after cleaning, the vertex strictly nearest to (lon, lat) among
        those closer than 1000.0, or 0 when no vertex is that close.  Among
        equally near vertices the one met first in the table's (unspecified)
        order wins. */
    method Closest(lon: real, lat: real) returns (id: int)
      requires Valid()
      modifies this
      ensures Valid()
      ensures nodes == old(NonIsolated(nodes))
      ensures forall k :: k in nodes ==> |nodes[k].adj| != 0
      ensures old(EdgesClosed(nodes)) ==> EdgesClosed(nodes)
      ensures IsClosest(nodes, lon, lat, id)
    {
      Clean();
      ghost var cleaned := nodes;
      var minDist := 1000.0;
      var minVertex := 0;
      var vertexOutOfNoWhere := new Node(1111111, lon, lat);
      var rest := nodes.Keys;
      while rest != {}
        invariant nodes == cleaned && Valid()
        invariant rest <= nodes.Keys
        invariant minDist <= 1000.0
        invariant minDist == 1000.0 ==> minVertex == 0
        invariant minDist < 1000.0 ==> minVertex in nodes && minDist == Euclid(lon, lat, nodes[minVertex].lon, nodes[minVertex].lat)
        invariant forall v :: v in nodes.Keys - rest ==> minDist <= Euclid(lon, lat, nodes[v].lon, nodes[v].lat)
        decreases rest
      {
        var v := Pick(rest);
        var dist := Distance(vertexOutOfNoWhere, nodes[v]);
        if dist < minDist {
          minDist := dist;
          minVertex := v;
        }
        rest := rest - {v};
      }
      id := minVertex;
    }

    /** adjacent: the ids that v's edges lead to, each once. */
    method Adjacent(v: int) returns (adjOfV: set<int>)
      requires v in nodes
      ensures adjOfV == Targets(nodes[v].adj)
    {
      adjOfV := {};
      var rest := nodes[v].adj;
      while rest != multiset{}
        invariant rest <= nodes[v].adj
        invariant adjOfV + Targets(rest) == Targets(nodes[v].adj)
        decreases |rest|
      {
        var e :| e in rest;
        TargetsAdd(rest - multiset{e}, e);
        assert rest - multiset{e} + multiset{e} == rest;
        adjOfV := adjOfV + {e.nodeid};
        rest := rest - multiset{e};
      }
    }
  }
}
