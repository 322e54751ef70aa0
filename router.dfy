/** Router.java: A* search over the road graph, from the vertex closest to the
    start point to the vertex closest to the destination. */
module Routing {

  import opened Wrappers
  import opened Edges
  import opened Nodes
  import opened Graph
  import opened Collections

  // ---------------------------------------------------------------------------
  // Walks

  /** The successor sets of a vertex table: each vertex with the ids its
      edges lead to (what adjacent returns). */
  ghost function Successors(m: map<int, Node>): map<int, set<int>>
    reads m.Values`adj
  {
    map k | k in m :: Targets(m[k].adj)
  }

  /** In a closed table every successor is itself a vertex. */
  lemma SuccessorsAreVertices(m: map<int, Node>)
    requires EdgesClosed(m)
    ensures forall k :: k in m ==> Successors(m)[k] <= m.Keys
  {
    forall k, t | k in m && t in Successors(m)[k]
      ensures t in m
    {
      TargetIsVertex(m, k, t);
    }
  }

  /** w is a walk: a non-empty run of vertices, each one a successor of the
      one before. */
  ghost predicate IsWalk(succ: map<int, set<int>>, w: seq<int>)
  {
    && |w| >= 1
    && (forall i :: 0 <= i < |w| ==> w[i] in succ)
    && (forall i :: 0 <= i < |w| - 1 ==> w[i + 1] in succ[w[i]])
  }

  /** Some walk leads from s to t. */
  ghost predicate Reachable(succ: map<int, set<int>>, s: int, t: int)
  {
    exists w :: IsWalk(succ, w) && w[0] == s && w[|w| - 1] == t
  }

  /** Every successor of a vertex of a lies in b. */
  ghost predicate Closed(succ: map<int, set<int>>, a: set<int>, b: set<int>)
  {
    forall p :: p in a && p in succ ==> succ[p] <= b
  }

  lemma ClosedAt(succ: map<int, set<int>>, a: set<int>, b: set<int>, p: int)
    requires Closed(succ, a, b) && p in a && p in succ
    ensures succ[p] <= b
  {
  }

  /** A set that holds the successors of its own vertices traps every walk
      that starts inside it. */
  lemma {:induction false} ClosedSetTrapsWalks(succ: map<int, set<int>>, a: set<int>, w: seq<int>)
    requires IsWalk(succ, w) && w[0] in a
    requires Closed(succ, a, a)
    ensures w[|w| - 1] in a
  {
    if |w| > 1 {
      var rest := w[1..];
      assert forall i :: 0 <= i < |rest| ==> rest[i] == w[i + 1];
      ClosedAt(succ, a, a, w[0]);
      ClosedSetTrapsWalks(succ, a, rest);
    }
  }

  /** So a vertex outside such a set cannot be reached from inside it. */
  lemma Unreachable(succ: map<int, set<int>>, a: set<int>, s: int, t: int)
    requires Closed(succ, a, a) && s in a && t !in a
    ensures !Reachable(succ, s, t)
  {
    forall w | IsWalk(succ, w) && w[0] == s
      ensures w[|w| - 1] != t
    {
      ClosedSetTrapsWalks(succ, a, w);
    }
  }

  /** A walk extends backwards by a predecessor of its first vertex. */
  lemma PrependKeepsWalk(succ: map<int, set<int>>, p: int, w: seq<int>)
    requires IsWalk(succ, w) && p in succ && w[0] in succ[p]
    ensures IsWalk(succ, [p] + w)
  {
    var w' := [p] + w;
    assert forall i :: 0 < i < |w'| ==> w'[i] == w[i - 1];
  }

  /** The length of a walk: the sum of the distances between consecutive
      vertices. */
  ghost function WalkLength(g: GraphDB, nodes: map<int, Node>, w: seq<int>): real
    requires forall i :: 0 <= i < |w| ==> w[i] in nodes
    decreases |w|
  {
    if |w| <= 1 then 0.0 else g.Distance(nodes[w[0]], nodes[w[1]]) + WalkLength(g, nodes, w[1..])
  }

  /** A set closed into b is closed into any superset of b. */
  lemma ClosedGrows(succ: map<int, set<int>>, a: set<int>, b: set<int>, b': set<int>)
    requires Closed(succ, a, b) && b <= b'
    ensures Closed(succ, a, b')
  {
  }

  // ---------------------------------------------------------------------------
  // The search state

  /** previous[n] == Some(p) is justified: p has been evaluated, n is a
      successor of p, and n's score is p's score plus the distance from p to
      n. */
  ghost predicate LinkOk(g: GraphDB, nodes: map<int, Node>, succ: map<int, set<int>>, evaluated: set<int>,
                         gScore: map<int, real>, n: int, p: int)
  {
    && p in evaluated && p in gScore && p in nodes && p in succ
    && n in gScore && n in nodes
    && n in succ[p]
    && gScore[n] == gScore[p] + g.Distance(nodes[p], nodes[n])
  }

  /** The predecessor links of the search: the start maps to None and every
      other recorded vertex to a justified predecessor; rank gives each
      evaluated vertex a number above its predecessor's, so following links
      always ends (at the start). */
  ghost predicate Links(g: GraphDB, nodes: map<int, Node>, succ: map<int, set<int>>, s: int, evaluated: set<int>,
                        gScore: map<int, real>, previous: map<int, Option<int>>, rank: map<int, nat>)
  {
    && previous.Keys == gScore.Keys
    && s in previous && previous[s] == None && gScore[s] == 0.0
    && evaluated <= previous.Keys
    && (forall n {:trigger previous[n]} :: n in previous && previous[n].None? ==> n == s)
    && (forall n {:trigger previous[n]} :: n in previous && previous[n].Some? ==> LinkOk(g, nodes, succ, evaluated, gScore, n, previous[n].value))
    && rank.Keys == evaluated
    && (forall n {:trigger rank[n]} :: n in rank && previous[n].Some? ==> rank[previous[n].value] < rank[n])
  }

  /** The bookkeeping of the main loop: fringe and evaluated are disjoint and
      together are exactly the vertices with a score; the start is evaluated
      as soon as anything is; the destination is never evaluated (reaching it
      stops the search). */
  ghost predicate SearchInv(g: GraphDB, nodes: map<int, Node>, succ: map<int, set<int>>, s: int, e: int,
                            fringe: set<int>, evaluated: set<int>,
                            gScore: map<int, real>, previous: map<int, Option<int>>, rank: map<int, nat>)
  {
    && fringe !! evaluated
    && gScore.Keys == fringe + evaluated
    && gScore.Keys <= nodes.Keys
    && e in nodes && e !in evaluated
    && (evaluated != {} ==> s in evaluated)
    && Links(g, nodes, succ, s, evaluated, gScore, previous, rank)
  }

  /** The score through c improves on what t has: t is not evaluated, and
      is either new to the fringe or has a worse score there. */
  ghost predicate Improves(g: GraphDB, nodes: map<int, Node>, c: int, t: int, fringe: set<int>, evaluated: set<int>,
                           gScore: map<int, real>)
    requires c in nodes && t in nodes && c in gScore && fringe <= gScore.Keys
  {
    t !in evaluated && (t !in fringe || gScore[c] + g.Distance(nodes[c], nodes[t]) < gScore[t])
  }

  /** One relaxation of the edge from c to t, on the search's values: when
      the score through c improves on t's, t joins the fringe with that score
      and c as its predecessor; otherwise nothing changes. */
  ghost predicate RelaxStep(g: GraphDB, nodes: map<int, Node>, c: int, t: int, fringe: set<int>, evaluated: set<int>,
                            gScore: map<int, real>, previous: map<int, Option<int>>,
                            fringe': set<int>, gScore': map<int, real>, previous': map<int, Option<int>>)
    requires c in nodes && t in nodes && c in gScore && fringe <= gScore.Keys
  {
    if Improves(g, nodes, c, t, fringe, evaluated, gScore) then
      && fringe' == fringe + {t}
      && gScore' == gScore[t := gScore[c] + g.Distance(nodes[c], nodes[t])]
      && previous' == previous[t := Some(c)]
    else
      fringe' == fringe && gScore' == gScore && previous' == previous
  }

  /** Relaxing an edge out of an evaluated vertex keeps the search's
      bookkeeping, never drops a fringe vertex, and leaves the edge's target
      in the fringe or evaluated. */
  lemma RelaxKeepsSearchInv(g: GraphDB, nodes: map<int, Node>, succ: map<int, set<int>>, s: int, e: int, c: int, t: int,
                            fringe: set<int>, evaluated: set<int>,
                            gScore: map<int, real>, previous: map<int, Option<int>>, rank: map<int, nat>,
                            fringe': set<int>, gScore': map<int, real>, previous': map<int, Option<int>>)
    requires SearchInv(g, nodes, succ, s, e, fringe, evaluated, gScore, previous, rank)
    requires c in evaluated && c in succ && t in nodes && t in succ[c]
    requires RelaxStep(g, nodes, c, t, fringe, evaluated, gScore, previous, fringe', gScore', previous')
    ensures SearchInv(g, nodes, succ, s, e, fringe', evaluated, gScore', previous', rank)
    ensures fringe <= fringe' && t in fringe' + evaluated
  {
    if Improves(g, nodes, c, t, fringe, evaluated, gScore) {
      RelaxKeepsLinks(g, nodes, succ, s, c, t, evaluated, gScore, previous, rank);
    }
  }

  /** A relaxation never raises a score and never touches the score of an
      evaluated vertex: a recorded score either stays or drops strictly, and
      only for a vertex not yet evaluated.  Afterwards an unevaluated target
      scores no worse than the path through c. */
  lemma RelaxOnlyLowers(g: GraphDB, nodes: map<int, Node>, c: int, t: int, fringe: set<int>, evaluated: set<int>,
                        gScore: map<int, real>, previous: map<int, Option<int>>,
                        fringe': set<int>, gScore': map<int, real>, previous': map<int, Option<int>>)
    requires c in nodes && t in nodes && c in gScore && gScore.Keys == fringe + evaluated
    requires RelaxStep(g, nodes, c, t, fringe, evaluated, gScore, previous, fringe', gScore', previous')
    ensures gScore.Keys <= gScore'.Keys
    ensures forall n :: n in gScore ==> gScore'[n] == gScore[n] || (n !in evaluated && gScore'[n] < gScore[n])
    ensures t !in evaluated ==> t in gScore' && gScore'[t] <= gScore[c] + g.Distance(nodes[c], nodes[t])
  {
    if Improves(g, nodes, c, t, fringe, evaluated, gScore) {
      assert t in gScore ==> t in fringe;
    }
  }

  /** The predecessor links stay justified: t is not evaluated, so no
      evaluated vertex's score or link changes. */
  lemma RelaxKeepsLinks(g: GraphDB, nodes: map<int, Node>, succ: map<int, set<int>>, s: int, c: int, t: int, evaluated: set<int>,
                        gScore: map<int, real>, previous: map<int, Option<int>>, rank: map<int, nat>)
    requires Links(g, nodes, succ, s, evaluated, gScore, previous, rank)
    requires c in evaluated && c in succ && t !in evaluated && t in nodes && c in nodes && t in succ[c]
    requires s in evaluated
    ensures var score := gScore[c] + g.Distance(nodes[c], nodes[t]);
      Links(g, nodes, succ, s, evaluated, gScore[t := score], previous[t := Some(c)], rank)
  {
    var score := gScore[c] + g.Distance(nodes[c], nodes[t]);
    var gScore', previous' := gScore[t := score], previous[t := Some(c)];
    forall n | n in previous' && previous'[n].Some?
      ensures LinkOk(g, nodes, succ, evaluated, gScore', n, previous'[n].value)
    {
      if n != t {
        assert LinkOk(g, nodes, succ, evaluated, gScore, n, previous[n].value);
      }
    }
  }

  /** Evaluating a recorded vertex, ranked one past its predecessor, keeps
      the predecessor links justified; the first vertex evaluated is the
      start. */
  lemma EvaluateKeepsLinks(g: GraphDB, nodes: map<int, Node>, succ: map<int, set<int>>, s: int, evaluated: set<int>,
                           gScore: map<int, real>, previous: map<int, Option<int>>, rank: map<int, nat>,
                           current: int)
    returns (depth: nat)
    requires Links(g, nodes, succ, s, evaluated, gScore, previous, rank)
    requires current in previous && current !in evaluated
    ensures Links(g, nodes, succ, s, evaluated + {current}, gScore, previous, rank[current := depth])
    ensures evaluated == {} ==> current == s
  {
    assert previous[current].Some? ==> LinkOk(g, nodes, succ, evaluated, gScore, current, previous[current].value);
    depth := if previous[current].Some? then rank[previous[current].value] + 1 else 0;
    var evaluated' := evaluated + {current};
    forall n | n in previous && previous[n].Some?
      ensures LinkOk(g, nodes, succ, evaluated', gScore, n, previous[n].value)
    {
      assert LinkOk(g, nodes, succ, evaluated, gScore, n, previous[n].value);
    }
    RankKeepsOrder(g, nodes, succ, s, evaluated, gScore, previous, rank, current, depth);
  }

  /** Ranking a new vertex one past its predecessor keeps every evaluated
      vertex ranked above its predecessor. */
  lemma RankKeepsOrder(g: GraphDB, nodes: map<int, Node>, succ: map<int, set<int>>, s: int, evaluated: set<int>,
                       gScore: map<int, real>, previous: map<int, Option<int>>, rank: map<int, nat>,
                       current: int, depth: nat)
    requires Links(g, nodes, succ, s, evaluated, gScore, previous, rank)
    requires current in previous && current !in evaluated
    requires previous[current].Some? ==> previous[current].value in rank && depth == rank[previous[current].value] + 1
    ensures var rank' := rank[current := depth];
      forall n {:trigger rank'[n]} :: n in rank' && previous[n].Some? ==> rank'[previous[n].value] < rank'[n]
  {
    var rank' := rank[current := depth];
    forall n | n in rank' && previous[n].Some?
      ensures rank'[previous[n].value] < rank'[n]
    {
      assert LinkOk(g, nodes, succ, evaluated, gScore, n, previous[n].value);
    }
  }

  /** Moving a polled fringe vertex other than the destination to the
      evaluated set, ranked one past its predecessor, keeps the search's
      bookkeeping, and leaves fewer vertices unevaluated. */
  lemma EvaluateKeepsSearchInv(g: GraphDB, nodes: map<int, Node>, succ: map<int, set<int>>, s: int, e: int,
                               fringe: set<int>, evaluated: set<int>,
                               gScore: map<int, real>, previous: map<int, Option<int>>, rank: map<int, nat>,
                               current: int)
    returns (depth: nat)
    requires SearchInv(g, nodes, succ, s, e, fringe, evaluated, gScore, previous, rank)
    requires Closed(succ, evaluated, fringe + evaluated)
    requires current in fringe && current != e
    ensures var evaluated', rank' := evaluated + {current}, rank[current := depth];
      && SearchInv(g, nodes, succ, s, e, fringe - {current}, evaluated', gScore, previous, rank')
      && Closed(succ, evaluated' - {current}, (fringe - {current}) + evaluated')
      && current in nodes
      && nodes.Keys - evaluated' < nodes.Keys - evaluated
  {
    depth := EvaluateKeepsLinks(g, nodes, succ, s, evaluated, gScore, previous, rank, current);
    var evaluated' := evaluated + {current};
    assert evaluated' - {current} == evaluated;
    assert (fringe - {current}) + evaluated' == fringe + evaluated;
    assert nodes.Keys - evaluated == (nodes.Keys - evaluated') + {current};
  }

  // ---------------------------------------------------------------------------
  // The search

  /** PriorityQueue.poll on the fringe: a fringe vertex whose priority no other
      fringe vertex undercuts, compared with Node.compareTo; among equal
      priorities any may come out. */
  method Poll(g: GraphDB, fringe: set<int>) returns (c: int)
    requires fringe != {} && fringe <= g.nodes.Keys
    ensures c in fringe
    ensures forall n :: n in fringe ==> g.nodes[c].priority <= g.nodes[n].priority
  {
    var rest := fringe;
    c := Pick(rest);
    rest := rest - {c};
    while rest != {}
      invariant rest <= fringe && c in fringe
      invariant forall n :: n in fringe - rest ==> g.nodes[c].priority <= g.nodes[n].priority
      decreases rest
    {
      var n := Pick(rest);
      if g.nodes[n].CompareTo(g.nodes[c]) < 0 {
        c := n;
      }
      rest := rest - {n};
    }
  }

  /** The body of the neighbour loop for neighbour t of the vertex c just
      evaluated: nothing happens when t is evaluated, or when the fringe holds
      t with a score no worse than the one through c; otherwise t gets the
      score through c, c as predecessor, that score plus its distance to e as
      priority, and a (single) place in the fringe.  nodes is the vertex
      table, which the search does not change. */
  method Relax(g: GraphDB, ghost nodes: map<int, Node>, e: int, c: int, t: int,
               fringe: set<int>, evaluated: set<int>, gScore: map<int, real>, previous: map<int, Option<int>>)
    returns (fringe': set<int>, gScore': map<int, real>, previous': map<int, Option<int>>)
    requires g.nodes == nodes && c in nodes && t in nodes && e in nodes
    requires c in gScore && fringe <= gScore.Keys
    modifies {nodes[t]}`priority
    ensures RelaxStep(g, nodes, c, t, fringe, evaluated, gScore, previous, fringe', gScore', previous')
    ensures nodes[t].priority == if Improves(g, nodes, c, t, fringe, evaluated, gScore)
      then gScore'[t] + g.Distance(nodes[t], nodes[e]) else old(nodes[t].priority)
  {
    fringe', gScore', previous' := fringe, gScore, previous;
    if t in evaluated {
      return;
    }
    var neighborNode := g.FindNode(t).value;
    var gScoreTemp := gScore[c] + g.DistanceById(c, t);
    if t in fringe && gScoreTemp >= gScore[t] {
      return;
    }
    if t in fringe && gScoreTemp < gScore[t] {
      fringe' := fringe' - {t};
    }
    gScore' := gScore'[t := gScoreTemp];
    previous' := previous'[t := Some(c)];
    var newPriority := gScoreTemp + g.DistanceById(t, e);
    neighborNode.SetPriority(newPriority);
    fringe' := fringe' + {t};
  }

  /** The neighbour loop after c has been evaluated: it keeps the search's
      bookkeeping; afterwards every successor of an evaluated vertex, c's
      included, is in the fringe or evaluated, no score has risen, and every
      unevaluated successor of c scores no worse than the path through c. */
  method Expand(g: GraphDB, ghost nodes: map<int, Node>, ghost succ: map<int, set<int>>, ghost s: int, e: int,
                c: int, fringe0: set<int>, evaluated: set<int>,
                gScore0: map<int, real>, previous0: map<int, Option<int>>, ghost rank: map<int, nat>)
    returns (fringe: set<int>, gScore: map<int, real>, previous: map<int, Option<int>>)
    requires g.nodes == nodes
    requires c in evaluated && c in nodes && c in succ && succ[c] == Targets(nodes[c].adj) && succ[c] <= nodes.Keys
    requires SearchInv(g, nodes, succ, s, e, fringe0, evaluated, gScore0, previous0, rank)
    requires Closed(succ, evaluated - {c}, fringe0 + evaluated)
    modifies nodes.Values`priority
    ensures SearchInv(g, nodes, succ, s, e, fringe, evaluated, gScore, previous, rank)
    ensures Closed(succ, evaluated, fringe + evaluated)
    ensures forall n :: n in gScore0 ==> n in gScore && gScore[n] <= gScore0[n]
    ensures forall t :: t in succ[c] && t !in evaluated ==>
      t in gScore && gScore[t] <= gScore0[c] + g.Distance(nodes[c], nodes[t])
  {
    var neighbors := g.Adjacent(c);
    fringe, gScore, previous := fringe0, gScore0, previous0;
    var rest := neighbors;
    while rest != {}
      invariant g.nodes == nodes
      invariant rest <= neighbors == succ[c]
      invariant SearchInv(g, nodes, succ, s, e, fringe, evaluated, gScore, previous, rank)
      invariant Closed(succ, evaluated - {c}, fringe + evaluated)
      invariant neighbors - rest <= fringe + evaluated
      invariant c in gScore && gScore[c] == gScore0[c]
      invariant forall n :: n in gScore0 ==> n in gScore && gScore[n] <= gScore0[n]
      invariant forall t :: t in neighbors - rest && t !in evaluated ==>
        t in gScore && gScore[t] <= gScore0[c] + g.Distance(nodes[c], nodes[t])
      decreases rest
    {
      var t := Pick(rest);
      rest := rest - {t};
      ghost var (fringeBefore, gScoreBefore, previousBefore) := (fringe, gScore, previous);
      fringe, gScore, previous := Relax(g, nodes, e, c, t, fringe, evaluated, gScore, previous);
      RelaxKeepsSearchInv(g, nodes, succ, s, e, c, t, fringeBefore, evaluated, gScoreBefore, previousBefore, rank,
                          fringe, gScore, previous);
      RelaxOnlyLowers(g, nodes, c, t, fringeBefore, evaluated, gScoreBefore, previousBefore, fringe, gScore, previous);
      ClosedGrows(succ, evaluated - {c}, fringeBefore + evaluated, fringe + evaluated);
    }
  }

  /** The search loop of A* from s to e (Router.java:24-58): the fringe starts
      as s with score 0 and no predecessor; each round polls the fringe, stops
      when it polls e, and otherwise evaluates the polled vertex and relaxes
      its neighbours.  Afterwards the predecessor links are justified, e is
      not evaluated, and either e has a link or the evaluated vertices,
      which include s, hold all their successors. */
  method Explore(g: GraphDB, ghost nodes: map<int, Node>, ghost succ: map<int, set<int>>, s: int, e: int)
    returns (evaluated: set<int>, gScore: map<int, real>, previous: map<int, Option<int>>, ghost rank: map<int, nat>)
    requires g.nodes == nodes && succ == Successors(nodes)
    requires forall k :: k in nodes ==> succ[k] <= nodes.Keys
    requires s in nodes && e in nodes
    modifies nodes.Values`priority
    ensures Links(g, nodes, succ, s, evaluated, gScore, previous, rank) && e !in evaluated
    ensures e in previous || (s in evaluated && Closed(succ, evaluated, evaluated))
  {
    evaluated := {};
    var fringe: set<int> := {};
    var startNode := g.FindNode(s).value;
    startNode.SetPriority(g.DistanceById(s, e));
    fringe := fringe + {s};
    gScore := map[s := 0.0];
    previous := map[s := None];
    rank := map[];
    while fringe != {}
      invariant g.nodes == nodes
      invariant unchanged(nodes.Values`adj)
      invariant SearchInv(g, nodes, succ, s, e, fringe, evaluated, gScore, previous, rank)
      invariant Closed(succ, evaluated, fringe + evaluated)
      decreases nodes.Keys - evaluated
    {
      var current := Poll(g, fringe);
      if current == e {
        break;
      }
      ghost var depth := EvaluateKeepsSearchInv(g, nodes, succ, s, e, fringe, evaluated, gScore, previous, rank, current);
      fringe := fringe - {current};
      rank := rank[current := depth];
      evaluated := evaluated + {current};
      fringe, gScore, previous := Expand(g, nodes, succ, s, e, current, fringe, evaluated, gScore, previous, rank);
    }
    assert fringe + evaluated == evaluated || e in previous;
  }

  /** Following the predecessor links back from e (Router.java:59-65): the
      answer is a walk ending at e, which starts at s when e has a link and
      is [e] alone when it has none; a walk from s is as long as e's score. */
  method Reconstruct(ghost g: GraphDB, ghost nodes: map<int, Node>, ghost succ: map<int, set<int>>, ghost s: int, e: int,
                     ghost evaluated: set<int>, ghost gScore: map<int, real>, previous: map<int, Option<int>>,
                     ghost rank: map<int, nat>)
    returns (path: seq<int>)
    requires Links(g, nodes, succ, s, evaluated, gScore, previous, rank) && e in succ && e in nodes
    ensures IsWalk(succ, path) && path[|path| - 1] == e
    ensures if e in previous then path[0] == s else path == [e]
    ensures s == e ==> path == [s]
    ensures forall i :: 0 <= i < |path| ==> path[i] in nodes
    ensures e in previous ==> gScore[e] == WalkLength(g, nodes, path)
  {
    path := [];
    var currId: Option<int> := Some(e);
    while currId.Some?
      invariant path == [] ==> currId == Some(e)
      invariant path != [] ==> IsWalk(succ, path) && path[|path| - 1] == e
      invariant path != [] && currId.Some? ==> path[0] in previous && previous[path[0]] == currId
      invariant path != [] && currId.None? && e in previous ==> path[0] == s
      invariant e !in previous ==> path == [] || (path == [e] && currId.None?)
      invariant s == e ==> path == [] || (path == [e] && currId.None?)
      invariant forall i :: 0 <= i < |path| ==> path[i] in nodes
      invariant path != [] && e in previous ==>
        path[0] in gScore && gScore[e] == gScore[path[0]] + WalkLength(g, nodes, path)
      decreases if currId.Some? && currId.value !in rank then 1 else 0,
                if currId.Some? && currId.value in rank then rank[currId.value] + 1 else 0
    {
      var id := currId.value;
      if path != [] {
        assert LinkOk(g, nodes, succ, evaluated, gScore, path[0], id);
        PrependKeepsWalk(succ, id, path);
        assert ([id] + path)[1..] == path;
      }
      path := [id] + path;
      currId := if id in previous then previous[id] else None;
    }
  }

  /** A* from s to e (Router.java:24-65).  The answer is a walk ending at e;
      it starts at s unless e was never reached, and then it is [e] and no
      walk leads from s to e. */
  method Search(g: GraphDB, s: int, e: int) returns (path: seq<int>)
    requires EdgesClosed(g.nodes)
    requires s in g.nodes && e in g.nodes
    modifies g.nodes.Values`priority
    ensures IsWalk(Successors(g.nodes), path) && path[|path| - 1] == e
    ensures path[0] == s || (path == [e] && !Reachable(Successors(g.nodes), s, e))
    ensures s == e ==> path == [s]
  {
    ghost var nodes := g.nodes;
    ghost var succ := Successors(nodes);
    SuccessorsAreVertices(nodes);
    var evaluated, gScore, previous, rank := Explore(g, nodes, succ, s, e);
    if e !in previous {
      Unreachable(succ, evaluated, s, e);
    }
    path := Reconstruct(g, nodes, succ, s, e, evaluated, gScore, previous, rank);
  }

  /** shortestPath: resolves both points to vertices with closest (which
      cleans the graph), then runs the search between them.  The answer is a
      walk in the cleaned graph ending at the vertex closest to the
      destination; it starts at the vertex closest to the start unless the
      destination vertex is unreachable from it, in which case the answer is
      that single destination vertex. */
  method ShortestPath(g: GraphDB, stlon: real, stlat: real, destlon: real, destlat: real)
    returns (path: seq<int>)
    requires g.Valid() && EdgesClosed(g.nodes)
    requires g.Resolves(NonIsolated(g.nodes), stlon, stlat)
    requires g.Resolves(NonIsolated(g.nodes), destlon, destlat)
    modifies g, g.nodes.Values`priority
    ensures g.nodes == old(NonIsolated(g.nodes))
    ensures IsWalk(Successors(g.nodes), path)
    ensures g.IsClosest(g.nodes, destlon, destlat, path[|path| - 1])
    ensures || g.IsClosest(g.nodes, stlon, stlat, path[0])
            || (&& path == [path[0]]
                && exists s :: g.IsClosest(g.nodes, stlon, stlat, s) && !Reachable(Successors(g.nodes), s, path[0]))
  {
    var startId := g.Closest(stlon, stlat);
    NonIsolatedFixes(g.nodes);
    var endId := g.Closest(destlon, destlat);
    g.ClosestIsVertex(g.nodes, stlon, stlat, startId);
    g.ClosestIsVertex(g.nodes, destlon, destlat, endId);
    path := Search(g, startId, endId);
  }
}
