/**
 * Shortest undirected ACTED_IN paths over the bipartite actor/movie graph.
 *
 * The service asks the database for `shortestPath((a:Actor)-[:ACTED_IN*]-(b:Actor))`.
 * Here that search is a layered breadth-first search over the stored edge set,
 * with a distance map and a predecessor map, followed by a walk back along the
 * predecessors. Its postcondition says that the result is a walk of the graph
 * and that no walk between the same two nodes is shorter.
 */
module PathFinder {
  import opened Wrappers

  /** A node of the graph: actor ids and movie ids live in separate name spaces. */
  datatype Node = ActorNode(id: string) | MovieNode(id: string)

  /** The ACTED_IN relation, as (actorId, movieId) pairs. */
  type Edges = set<(string, string)>

  /** u and v are joined by an ACTED_IN edge, traversed in either direction. */
  predicate Adjacent(edges: Edges, u: Node, v: Node) {
    || (u.ActorNode? && v.MovieNode? && (u.id, v.id) in edges)
    || (u.MovieNode? && v.ActorNode? && (v.id, u.id) in edges)
  }

  /** The nodes one undirected edge away from u. */
  function Neighbors(edges: Edges, u: Node): (ns: set<Node>)
    ensures forall v :: v in ns <==> Adjacent(edges, u, v)
  {
    var ns := if u.ActorNode? then set e | e in edges && e.0 == u.id :: MovieNode(e.1)
              else set e | e in edges && e.1 == u.id :: ActorNode(e.0);
    assert forall v :: Adjacent(edges, u, v) ==> v in ns by {
      forall v | Adjacent(edges, u, v) ensures v in ns {
        if u.ActorNode? { assert (u.id, v.id) in edges; } else { assert (v.id, u.id) in edges; }
      }
    }
    ns
  }

  /** Every node that is an endpoint of some edge. */
  function EdgeNodes(edges: Edges): (ns: set<Node>)
    ensures forall u, v :: Adjacent(edges, u, v) ==> u in ns && v in ns
  {
    var ns := (set e | e in edges :: ActorNode(e.0)) + (set e | e in edges :: MovieNode(e.1));
    assert forall u, v :: Adjacent(edges, u, v) ==> u in ns && v in ns by {
      forall u, v | Adjacent(edges, u, v) ensures u in ns && v in ns {
        if u.ActorNode? {
          var e := (u.id, v.id);
          assert ActorNode(e.0) == u && MovieNode(e.1) == v;
        } else {
          var e := (v.id, u.id);
          assert ActorNode(e.0) == v && MovieNode(e.1) == u;
        }
      }
    }
    ns
  }

  /** p is a non-empty sequence of nodes, each adjacent to the next. */
  ghost predicate IsWalk(edges: Edges, p: seq<Node>) {
    |p| > 0 && forall i :: 0 <= i < |p| - 1 ==> Adjacent(edges, p[i], p[i + 1])
  }

  ghost predicate IsWalkBetween(edges: Edges, p: seq<Node>, from: Node, to: Node) {
    IsWalk(edges, p) && p[0] == from && p[|p| - 1] == to
  }

  /** p joins from to to, and no walk between them has fewer nodes. */
  ghost predicate IsShortestWalk(edges: Edges, p: seq<Node>, from: Node, to: Node) {
    && IsWalkBetween(edges, p, from, to)
    && forall q :: IsWalkBetween(edges, q, from, to) ==> |p| <= |q|
  }

  ghost predicate Reachable(edges: Edges, from: Node, to: Node) {
    exists p :: IsWalkBetween(edges, p, from, to)
  }

  /** The ids of consecutive walk positions are stored edges, read (actor, movie) from even positions. */
  ghost predicate AlternatesOverEdges(edges: Edges, ids: seq<string>) {
    forall i :: 0 <= i < |ids| - 1 ==>
      if i % 2 == 0 then (ids[i], ids[i + 1]) in edges else (ids[i + 1], ids[i]) in edges
  }

  // ---------------------------------------------------------------------------
  // Facts about walks
  // ---------------------------------------------------------------------------

  lemma WalkPrefix(edges: Edges, p: seq<Node>, n: nat)
    requires IsWalk(edges, p) && 0 < n <= |p|
    ensures IsWalk(edges, p[..n])
  {
  }

  /** Along a walk the node kind flips at every step. */
  lemma {:induction false} WalkAlternates(edges: Edges, p: seq<Node>, i: nat)
    requires IsWalk(edges, p) && i < |p|
    ensures p[i].ActorNode? <==> (p[0].ActorNode? <==> i % 2 == 0)
  {
    if i > 0 {
      WalkAlternates(edges, p, i - 1);
      assert Adjacent(edges, p[i - 1], p[i]);
    }
  }

  /**
   * A walk from an actor to an actor has an even number of edges, that is an
   * odd number of nodes, and at least two edges between distinct actors.
   */
  lemma WalkBetweenActorsHasEvenEdges(edges: Edges, p: seq<Node>, a: string, b: string)
    requires IsWalkBetween(edges, p, ActorNode(a), ActorNode(b))
    ensures |p| % 2 == 1
    ensures a != b ==> |p| >= 3
  {
    WalkAlternates(edges, p, |p| - 1);
  }

  /** Reading a walk that starts at an actor as ids gives stored edges, actor first at even positions. */
  lemma WalkIdsAlternate(edges: Edges, p: seq<Node>, ids: seq<string>)
    requires IsWalk(edges, p) && p[0].ActorNode?
    requires |ids| == |p| && forall i :: 0 <= i < |p| ==> ids[i] == p[i].id
    ensures AlternatesOverEdges(edges, ids)
  {
    forall i | 0 <= i < |ids| - 1
      ensures if i % 2 == 0 then (ids[i], ids[i + 1]) in edges else (ids[i + 1], ids[i]) in edges
    {
      WalkAlternates(edges, p, i);
      assert Adjacent(edges, p[i], p[i + 1]);
    }
  }

  /** A walk that starts inside a set closed under adjacency never leaves it. */
  lemma {:induction false} ClosedSetContainsWalk(edges: Edges, s: set<Node>, p: seq<Node>)
    requires IsWalk(edges, p) && p[0] in s
    requires forall u, v :: u in s && Adjacent(edges, u, v) ==> v in s
    ensures p[|p| - 1] in s
  {
    if |p| > 1 {
      WalkPrefix(edges, p, |p| - 1);
      ClosedSetContainsWalk(edges, s, p[..|p| - 1]);
      assert Adjacent(edges, p[|p| - 2], p[|p| - 1]);
    }
  }

  // ---------------------------------------------------------------------------
  // Breadth-first search
  // ---------------------------------------------------------------------------

  /** Every visited node but the source has a predecessor one layer closer to the source. */
  ghost predicate PredecessorsOk(edges: Edges, from: Node, dist: map<Node, nat>, pred: map<Node, Node>) {
    && from in dist && dist[from] == 0
    && forall v :: v in dist && v != from ==>
         v in pred && pred[v] in dist && dist[pred[v]] + 1 == dist[v] && Adjacent(edges, pred[v], v)
  }

  /** Every walk from the source to a node not yet visited has more than d edges. */
  ghost predicate UnvisitedAreFar(edges: Edges, from: Node, dist: map<Node, nat>, d: nat) {
    forall q :: IsWalk(edges, q) && q[0] == from && q[|q| - 1] !in dist ==> |q| - 1 > d
  }

  /** No walk from the source reaches a visited node in fewer edges than its recorded distance. */
  ghost predicate DistancesTight(edges: Edges, from: Node, dist: map<Node, nat>) {
    forall q :: IsWalk(edges, q) && q[0] == from && q[|q| - 1] in dist ==> |q| - 1 >= dist[q[|q| - 1]]
  }

  /** Every neighbour of a node closer than layer d has been visited. */
  ghost predicate InnerClosed(edges: Edges, dist: map<Node, nat>, d: nat) {
    forall u, v :: u in dist && dist[u] < d && Adjacent(edges, u, v) ==> v in dist
  }

  /**
   * Visits every unvisited neighbour of the frontier (the nodes at distance d),
   * giving it distance d + 1 and a frontier node as predecessor.
   */
  method ExpandLayer(edges: Edges, frontier: set<Node>, dist: map<Node, nat>, pred: map<Node, Node>, d: nat)
    returns (dist': map<Node, nat>, pred': map<Node, Node>, next: set<Node>)
    ensures forall v :: v in dist ==> v in dist' && dist'[v] == dist[v]
    ensures forall v :: v in dist && v in pred ==> v in pred' && pred'[v] == pred[v]
    ensures forall v :: v in next <==> v in dist' && v !in dist
    ensures forall v :: v in next ==>
              dist'[v] == d + 1 && v in pred' && pred'[v] in frontier && Adjacent(edges, pred'[v], v)
    ensures forall u, v :: u in frontier && Adjacent(edges, u, v) ==> v in dist'
  {
    dist', pred', next := dist, pred, {};
    var rest := frontier;
    while rest != {}
      invariant rest <= frontier
      invariant forall v :: v in dist ==> v in dist' && dist'[v] == dist[v]
      invariant forall v :: v in dist && v in pred ==> v in pred' && pred'[v] == pred[v]
      invariant forall v :: v in next <==> v in dist' && v !in dist
      invariant forall v :: v in next ==>
                  dist'[v] == d + 1 && v in pred' && pred'[v] in frontier && Adjacent(edges, pred'[v], v)
      invariant forall u, v :: u in frontier && u !in rest && Adjacent(edges, u, v) ==> v in dist'
      decreases rest
    {
      var u :| u in rest;
      var todo := Neighbors(edges, u);
      while todo != {}
        invariant todo <= Neighbors(edges, u)
        invariant forall v :: v in dist ==> v in dist' && dist'[v] == dist[v]
        invariant forall v :: v in dist && v in pred ==> v in pred' && pred'[v] == pred[v]
        invariant forall v :: v in next <==> v in dist' && v !in dist
        invariant forall v :: v in next ==>
                    dist'[v] == d + 1 && v in pred' && pred'[v] in frontier && Adjacent(edges, pred'[v], v)
        invariant forall u', v :: u' in frontier && u' !in rest && Adjacent(edges, u', v) ==> v in dist'
        invariant forall v :: v in Neighbors(edges, u) && v !in todo ==> v in dist'
        decreases todo
      {
        var v :| v in todo;
        if v !in dist' {
          dist' := dist'[v := d + 1];
          pred' := pred'[v := u];
          next := next + {v};
        }
        todo := todo - {v};
      }
      rest := rest - {u};
    }
  }

  /** One more layer leaves every still-unvisited node more than d + 1 edges away. */
  lemma LayerLowerBound(edges: Edges, from: Node, dist: map<Node, nat>, dist': map<Node, nat>,
                        frontier: set<Node>, d: nat)
    requires from in dist
    requires UnvisitedAreFar(edges, from, dist, d)
    requires InnerClosed(edges, dist, d)
    requires forall v :: v in dist ==> dist[v] <= d
    requires forall v :: v in frontier <==> v in dist && dist[v] == d
    requires forall v :: v in dist ==> v in dist'
    requires forall u, v :: u in frontier && Adjacent(edges, u, v) ==> v in dist'
    ensures UnvisitedAreFar(edges, from, dist', d + 1)
  {
    forall q | IsWalk(edges, q) && q[0] == from && q[|q| - 1] !in dist'
      ensures |q| - 1 > d + 1
    {
      var v := q[|q| - 1];
      assert |q| >= 2;
      var u := q[|q| - 2];
      assert Adjacent(edges, u, v);
      assert u !in dist;
      WalkPrefix(edges, q, |q| - 1);
      assert q[..|q| - 1][|q| - 2] == u;
    }
  }

  /** The invariant of the search after d complete layers; `frontier` is layer d. */
  ghost predicate SearchState(edges: Edges, from: Node, universe: set<Node>, dist: map<Node, nat>,
                              pred: map<Node, Node>, frontier: set<Node>, d: nat)
  {
    && dist.Keys <= universe
    && PredecessorsOk(edges, from, dist, pred)
    && (forall v :: v in dist ==> dist[v] <= d)
    && (forall v :: v in frontier <==> v in dist && dist[v] == d)
    && InnerClosed(edges, dist, d)
    && UnvisitedAreFar(edges, from, dist, d)
    && DistancesTight(edges, from, dist)
  }

  /** Expanding the frontier of a search state gives the search state one layer further. */
  lemma LayerStep(edges: Edges, from: Node, universe: set<Node>, dist: map<Node, nat>, pred: map<Node, Node>,
                  frontier: set<Node>, d: nat, dist': map<Node, nat>, pred': map<Node, Node>, next: set<Node>)
    requires EdgeNodes(edges) <= universe
    requires SearchState(edges, from, universe, dist, pred, frontier, d)
    requires forall v :: v in dist ==> v in dist' && dist'[v] == dist[v]
    requires forall v :: v in dist && v in pred ==> v in pred' && pred'[v] == pred[v]
    requires forall v :: v in next <==> v in dist' && v !in dist
    requires forall v :: v in next ==>
               dist'[v] == d + 1 && v in pred' && pred'[v] in frontier && Adjacent(edges, pred'[v], v)
    requires forall u, v :: u in frontier && Adjacent(edges, u, v) ==> v in dist'
    ensures SearchState(edges, from, universe, dist', pred', next, d + 1)
    ensures next == {} ==> dist'.Keys == dist.Keys
  {
    LayerLowerBound(edges, from, dist, dist', frontier, d);
    forall v | v in next ensures v in universe {
      assert Adjacent(edges, pred'[v], v);
    }
    assert PredecessorsOk(edges, from, dist', pred');
    assert InnerClosed(edges, dist', d + 1);
    assert DistancesTight(edges, from, dist');
  }

  /** Follows predecessors back from `to` to the source. */
  method Reconstruct(edges: Edges, from: Node, dist: map<Node, nat>, pred: map<Node, Node>, to: Node)
    returns (p: seq<Node>)
    requires PredecessorsOk(edges, from, dist, pred) && to in dist
    ensures IsWalkBetween(edges, p, from, to) && |p| == dist[to] + 1
  {
    var cur := to;
    p := [to];
    while cur != from
      invariant cur in dist
      invariant IsWalkBetween(edges, p, cur, to)
      invariant |p| == dist[to] - dist[cur] + 1
      decreases dist[cur]
    {
      var prev := pred[cur];
      assert forall i :: 1 <= i < |p| ==> ([prev] + p)[i + 1] == p[i];
      p := [prev] + p;
      cur := prev;
    }
  }

  /**
   * Breadth-first search from `from`, layer by layer, until `to` is visited or
   * the frontier is empty. Returns a shortest walk, or None when none exists.
   */
  method ShortestWalk(edges: Edges, from: Node, to: Node) returns (p: Option<seq<Node>>)
    ensures p.Some? ==> IsShortestWalk(edges, p.value, from, to)
    ensures p.None? <==> !Reachable(edges, from, to)
  {
    var dist: map<Node, nat> := map[from := 0];
    var pred: map<Node, Node> := map[];
    var frontier: set<Node> := {from};
    var d: nat := 0;
    ghost var universe := EdgeNodes(edges) + {from};
    assert UnvisitedAreFar(edges, from, dist, d) by {
      forall q | IsWalk(edges, q) && q[0] == from && q[|q| - 1] !in dist ensures |q| - 1 > 0 {
        assert |q| != 1;
      }
    }
    while to !in dist && frontier != {}
      invariant SearchState(edges, from, universe, dist, pred, frontier, d)
      decreases universe - dist.Keys, frontier
    {
      var dist', pred', next := ExpandLayer(edges, frontier, dist, pred, d);
      LayerStep(edges, from, universe, dist, pred, frontier, d, dist', pred', next);
      dist, pred, frontier, d := dist', pred', next, d + 1;
    }
    if to in dist {
      var walk := Reconstruct(edges, from, dist, pred, to);
      p := Some(walk);
    } else {
      forall q | IsWalk(edges, q) && q[0] == from ensures q[|q| - 1] in dist.Keys {
        ClosedSetContainsWalk(edges, dist.Keys, q);
      }
      p := None;
    }
  }
}
