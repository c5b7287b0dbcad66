/**
 * The graph store behind the HTTP handlers, and the handlers' logic.
 *
 * Each handler runs a short sequence of Cypher queries against one Neo4j
 * database and answers with a status code. The database is modelled as one
 * `Graph` object: the stored actors (actorId to name), the stored movies
 * (movieId to name) and the ACTED_IN edges as (actorId, movieId) pairs.
 * A query parameter that is absent, or a JSON body key that is absent, is
 * `None`.
 */
module Store {
  import opened Wrappers
  import opened Outcomes
  import opened Records
  import opened PathFinder

  /** The actorId the Bacon number and Bacon path are measured to. */
  const KevinBaconId: string := "nm0000102"

  /** The body of a successful get-actor answer. */
  datatype ActorView = ActorView(name: string, actorId: string, movies: seq<string>)

  /** The body of a successful get-movie answer. */
  datatype MovieView = MovieView(name: string, movieId: string, actors: seq<string>)

  class Graph {
    var actors: map<string, string>
    var movies: map<string, string>
    var edges: set<(string, string)>

    /** Every edge joins a stored actor to a stored movie. */
    ghost predicate Valid()
      reads this
    {
      forall e :: e in edges ==> e.0 in actors && e.1 in movies
    }

    /** An empty database. */
    constructor ()
      ensures Valid()
      ensures actors == map[] && movies == map[] && edges == {}
    {
      actors, movies, edges := map[], map[], {};
    }

    // -------------------------------------------------------------------------
    // Mutations
    // -------------------------------------------------------------------------

    /**
     * PUT addActor: the body's "name" and "actorId" keys; a stored actorId is
     * refused, otherwise the actor is created.
     */
    method AddActor(name: Option<string>, actorId: Option<string>) returns (s: Status)
      requires Valid()
      modifies this
      ensures Valid()
      ensures movies == old(movies) && edges == old(edges)
      ensures name.None? || actorId.None? ==> s == InternalError && actors == old(actors)
      ensures name.Some? && actorId.Some? && actorId.value in old(actors) ==>
                s == BadRequest && actors == old(actors)
      ensures name.Some? && actorId.Some? && actorId.value !in old(actors) ==>
                s == Ok && actors == old(actors)[actorId.value := name.value]
    {
      if name.None? || actorId.None? {
        return InternalError;
      }
      if actorId.value in actors {
        s := BadRequest;
      } else {
        actors := actors[actorId.value := name.value];
        s := Ok;
      }
    }

    /**
     * PUT addMovie: the body's "name" and "movieId" keys; a stored movieId is
     * refused, otherwise the movie is created.
     */
    method AddMovie(name: Option<string>, movieId: Option<string>) returns (s: Status)
      requires Valid()
      modifies this
      ensures Valid()
      ensures actors == old(actors) && edges == old(edges)
      ensures name.None? || movieId.None? ==> s == InternalError && movies == old(movies)
      ensures name.Some? && movieId.Some? && movieId.value in old(movies) ==>
                s == BadRequest && movies == old(movies)
      ensures name.Some? && movieId.Some? && movieId.value !in old(movies) ==>
                s == Ok && movies == old(movies)[movieId.value := name.value]
    {
      if name.None? || movieId.None? {
        return InternalError;
      }
      if movieId.value in movies {
        s := BadRequest;
      } else {
        movies := movies[movieId.value := name.value];
        s := Ok;
      }
    }

    /**
     * PUT addRelationship: both endpoints must be stored (else NotFound), then
     * an existing edge is refused (BadRequest), else the edge is created.
     */
    method AddRelationship(actorId: Option<string>, movieId: Option<string>) returns (s: Status)
      requires Valid()
      modifies this
      ensures Valid()
      ensures actors == old(actors) && movies == old(movies)
      ensures actorId.None? || movieId.None? ==> s == InternalError && edges == old(edges)
      ensures actorId.Some? && movieId.Some? ==>
                var a, m := actorId.value, movieId.value;
                && (a !in actors || m !in movies ==> s == NotFound && edges == old(edges))
                && (a in actors && m in movies && (a, m) in old(edges) ==> s == BadRequest && edges == old(edges))
                && (a in actors && m in movies && (a, m) !in old(edges) ==> s == Ok && edges == old(edges) + {(a, m)})
      ensures s == Ok ==> HasRelationship(actorId, movieId) == Ok
      ensures s == Ok ==> movieId.value in MoviesOf(actorId.value) && actorId.value in ActorsOf(movieId.value)
    {
      if actorId.None? || movieId.None? {
        return InternalError;
      }
      var a, m := actorId.value, movieId.value;
      if a !in actors || m !in movies {
        return NotFound;
      }
      if (a, m) in edges {
        s := BadRequest;
      } else {
        edges := edges + {(a, m)};
        s := Ok;
      }
    }

    // -------------------------------------------------------------------------
    // Queries
    // -------------------------------------------------------------------------

    /** The movies an actor is linked to by an ACTED_IN edge. */
    function MoviesOf(actorId: string): (ms: set<string>)
      reads this
      ensures forall m :: m in ms <==> (actorId, m) in edges
    {
      var ms := set e | e in edges && e.0 == actorId :: e.1;
      assert forall m :: (actorId, m) in edges ==> m in ms by {
        forall m | (actorId, m) in edges ensures m in ms {
          var e := (actorId, m);
          assert e in edges && e.0 == actorId;
        }
      }
      ms
    }

    /** The actors linked to a movie by an ACTED_IN edge. */
    function ActorsOf(movieId: string): (as_: set<string>)
      reads this
      ensures forall a :: a in as_ <==> (a, movieId) in edges
    {
      var as_ := set e | e in edges && e.1 == movieId :: e.0;
      assert forall a :: (a, movieId) in edges ==> a in as_ by {
        forall a | (a, movieId) in edges ensures a in as_ {
          var e := (a, movieId);
          assert e in edges && e.1 == movieId;
        }
      }
      as_
    }

    /**
     * GET hasRelationship: both query parameters are required; Ok exactly when
     * the ACTED_IN edge is stored, NotFound otherwise.
     */
    function HasRelationship(actorId: Option<string>, movieId: Option<string>): (s: Status)
      reads this
      ensures s == BadRequest <==> actorId.None? || movieId.None?
      ensures s == Ok <==> actorId.Some? && movieId.Some? && (actorId.value, movieId.value) in edges
      ensures s == NotFound <==> actorId.Some? && movieId.Some? && (actorId.value, movieId.value) !in edges
      ensures Valid() && actorId.Some? && movieId.Some? && (actorId.value !in actors || movieId.value !in movies) ==>
                s == NotFound
    {
      if actorId.Some? && movieId.Some? then
        if (actorId.value, movieId.value) in edges then Ok else NotFound
      else
        BadRequest
    }

    /**
     * GET getActor: the stored name and id of the actor and the ids of every
     * movie it is linked to, each once.
     */
    method GetActor(actorId: Option<string>) returns (s: Status, view: Option<ActorView>)
      ensures actorId.None? ==> s == BadRequest && view.None?
      ensures actorId.Some? && actorId.value !in actors ==> s == NotFound && view.None?
      ensures actorId.Some? && actorId.value in actors ==>
                && s == Ok && view.Some?
                && view.value.name == actors[actorId.value]
                && view.value.actorId == actorId.value
                && (forall m :: m in view.value.movies <==> (actorId.value, m) in edges)
                && Distinct(view.value.movies)
                && |view.value.movies| == |MoviesOf(actorId.value)|
    {
      if actorId.None? {
        return BadRequest, None;
      }
      var a := actorId.value;
      if a !in actors {
        return NotFound, None;
      }
      var column := Collect(MoviesOf(a));
      var ms := NonNullIds(column);
      s, view := Ok, Some(ActorView(actors[a], a, ms));
    }

    /**
     * GET getMovie: the stored name and id of the movie and the ids of every
     * actor linked to it, each once.
     */
    method GetMovie(movieId: Option<string>) returns (s: Status, view: Option<MovieView>)
      ensures movieId.None? ==> s == BadRequest && view.None?
      ensures movieId.Some? && movieId.value !in movies ==> s == NotFound && view.None?
      ensures movieId.Some? && movieId.value in movies ==>
                && s == Ok && view.Some?
                && view.value.name == movies[movieId.value]
                && view.value.movieId == movieId.value
                && (forall a :: a in view.value.actors <==> (a, movieId.value) in edges)
                && Distinct(view.value.actors)
                && |view.value.actors| == |ActorsOf(movieId.value)|
    {
      if movieId.None? {
        return BadRequest, None;
      }
      var m := movieId.value;
      if m !in movies {
        return NotFound, None;
      }
      var column := Collect(ActorsOf(m));
      var as_ := NonNullIds(column);
      s, view := Ok, Some(MovieView(movies[m], m, as_));
    }

    // -------------------------------------------------------------------------
    // Bacon number and Bacon path
    // -------------------------------------------------------------------------

    /**
     * GET computeBaconNumber: 0 for Kevin Bacon himself, without looking at the
     * store; otherwise half the edge count of a shortest undirected ACTED_IN
     * walk to Kevin Bacon, or NotFound when there is none.
     */
    method BaconNumber(actorId: Option<string>) returns (s: Status, number: Option<nat>)
      requires Valid()
      ensures s == Ok <==> number.Some?
      ensures actorId.None? ==> s == BadRequest
      ensures actorId == Some(KevinBaconId) ==> s == Ok && number == Some(0)
      ensures actorId.Some? && actorId.value != KevinBaconId ==>
                && (s == Ok || s == NotFound)
                && (s == Ok <==> Reachable(edges, ActorNode(actorId.value), ActorNode(KevinBaconId)))
                && (actorId.value !in actors || KevinBaconId !in actors ==> s == NotFound)
                && (s == Ok ==> number.value >= 1)
      ensures s == Ok ==>
                exists p :: IsShortestWalk(edges, p, ActorNode(actorId.value), ActorNode(KevinBaconId))
                            && |p| == 2 * number.value + 1
    {
      if actorId.None? {
        return BadRequest, None;
      }
      var x := actorId.value;
      if x == KevinBaconId {
        ghost var p := [ActorNode(x)];
        assert IsShortestWalk(edges, p, ActorNode(x), ActorNode(KevinBaconId));
        return Ok, Some(0);
      }
      var walk := ShortestWalk(edges, ActorNode(x), ActorNode(KevinBaconId));
      if walk.None? {
        s, number := NotFound, None;
      } else {
        var p := walk.value;
        WalkBetweenActorsHasEvenEdges(edges, p, x, KevinBaconId);
        s, number := Ok, Some((|p| - 1) / 2);
      }
      ReachableActorsStored(x, KevinBaconId);
    }

    /**
     * GET computeBaconPath: [Kevin Bacon] for Kevin Bacon himself, without
     * looking at the store; otherwise the ids along a shortest undirected
     * ACTED_IN walk to Kevin Bacon, or NotFound when there is none.
     */
    method BaconPath(actorId: Option<string>) returns (s: Status, path: Option<seq<string>>)
      requires Valid()
      ensures s == Ok <==> path.Some?
      ensures actorId.None? ==> s == BadRequest
      ensures actorId == Some(KevinBaconId) ==> s == Ok && path == Some([KevinBaconId])
      ensures actorId.Some? && actorId.value != KevinBaconId ==>
                && (s == Ok || s == NotFound)
                && (s == Ok <==> Reachable(edges, ActorNode(actorId.value), ActorNode(KevinBaconId)))
                && (actorId.value !in actors || KevinBaconId !in actors ==> s == NotFound)
      ensures s == Ok ==>
                && |path.value| >= 1
                && path.value[0] == actorId.value
                && path.value[|path.value| - 1] == KevinBaconId
                && AlternatesOverEdges(edges, path.value)
                && exists p :: IsShortestWalk(edges, p, ActorNode(actorId.value), ActorNode(KevinBaconId))
                               && |p| == |path.value|
    {
      if actorId.None? {
        return BadRequest, None;
      }
      var x := actorId.value;
      if x == KevinBaconId {
        ghost var p := [ActorNode(x)];
        assert IsShortestWalk(edges, p, ActorNode(x), ActorNode(KevinBaconId));
        return Ok, Some([KevinBaconId]);
      }
      var walk := ShortestWalk(edges, ActorNode(x), ActorNode(KevinBaconId));
      if walk.None? {
        s, path := NotFound, None;
      } else {
        var ids := NodeIds(walk.value);
        WalkIdsAlternate(edges, walk.value, ids);
        s, path := Ok, Some(ids);
      }
      ReachableActorsStored(x, KevinBaconId);
    }

    /**
     * GET computeBaconPath with the path conversion as the handler writes it:
     * the list of path nodes comes from the driver's `asList()`, and only the
     * elements still wrapped as driver values are kept. Statuses are those of
     * BaconPath; on Ok the list holds no id at all, because `asList()` hands
     * back plain node objects.
     */
    method BaconPathAsWritten(actorId: Option<string>) returns (s: Status, path: Option<seq<string>>)
      requires Valid()
      ensures s == Ok <==> path.Some?
      ensures actorId.None? ==> s == BadRequest
      ensures actorId == Some(KevinBaconId) ==> s == Ok && path == Some([KevinBaconId])
      ensures actorId.Some? && actorId.value != KevinBaconId ==>
                && (s == Ok || s == NotFound)
                && (s == Ok <==> Reachable(edges, ActorNode(actorId.value), ActorNode(KevinBaconId)))
                && (actorId.value !in actors || KevinBaconId !in actors ==> s == NotFound)
                && (s == Ok ==> path == Some([]))
    {
      if actorId.None? {
        return BadRequest, None;
      }
      var x := actorId.value;
      if x == KevinBaconId {
        return Ok, Some([KevinBaconId]);
      }
      var walk := ShortestWalk(edges, ActorNode(x), ActorNode(KevinBaconId));
      if walk.None? {
        s, path := NotFound, None;
      } else {
        var ids := KeepWrappedIds(AsList(walk.value));
        s, path := Ok, Some(ids);
      }
      ReachableActorsStored(x, KevinBaconId);
    }

    /** Two distinct actors joined by a walk are both stored. */
    lemma ReachableActorsStored(x: string, y: string)
      requires Valid() && x != y
      ensures Reachable(edges, ActorNode(x), ActorNode(y)) ==> x in actors && y in actors
    {
      if Reachable(edges, ActorNode(x), ActorNode(y)) {
        var p :| IsWalkBetween(edges, p, ActorNode(x), ActorNode(y));
        var n := |p|;
        assert Adjacent(edges, p[0], p[1]);
        assert Adjacent(edges, p[n - 2], p[n - 1]);
      }
    }
  }

  /** Each Actor node of a walk becomes its actorId, each Movie node its movieId. */
  method NodeIds(nodes: seq<Node>) returns (ids: seq<string>)
    ensures |ids| == |nodes|
    ensures forall i :: 0 <= i < |nodes| ==> ids[i] == nodes[i].id
  {
    ids := [];
    for i := 0 to |nodes|
      invariant |ids| == i
      invariant forall j :: 0 <= j < i ==> ids[j] == nodes[j].id
    {
      match nodes[i]
      case ActorNode(actorId) => ids := ids + [actorId];
      case MovieNode(movieId) => ids := ids + [movieId];
    }
  }

  /**
   * One element of the list the driver's `asList()` returns: still wrapped as
   * a driver value, or already converted to a plain node object.
   */
  datatype ListElement = WrappedValue(node: Node) | PlainNode(node: Node)

  /**
   * The driver's `asList()` on a list of path nodes: each element is converted
   * with `asObject()`, so every node arrives as a plain node object.
   */
  function AsList(nodes: seq<Node>): (elements: seq<ListElement>)
    ensures |elements| == |nodes|
    ensures forall i :: 0 <= i < |nodes| ==> elements[i].PlainNode? && elements[i].node == nodes[i]
  {
    seq(|nodes|, i requires 0 <= i < |nodes| => PlainNode(nodes[i]))
  }

  /**
   * The ids the path loop keeps, in order: a wrapped Actor node gives its
   * actorId, a wrapped Movie node its movieId, and a plain node nothing.
   */
  function WrappedIds(elements: seq<ListElement>): (ids: seq<string>)
    ensures |ids| <= |elements|
    ensures (forall i :: 0 <= i < |elements| ==> elements[i].PlainNode?) ==> ids == []
    ensures (forall i :: 0 <= i < |elements| ==> elements[i].WrappedValue?) ==>
              |ids| == |elements| && forall i :: 0 <= i < |ids| ==> ids[i] == elements[i].node.id
  {
    if elements == [] then []
    else
      var init := elements[..|elements| - 1];
      var last := elements[|elements| - 1];
      assert elements == init + [last];
      WrappedIds(init) + (if last.WrappedValue? then [last.node.id] else [])
  }

  /** The path loop as written: copies the ids of the wrapped elements only. */
  method KeepWrappedIds(elements: seq<ListElement>) returns (ids: seq<string>)
    ensures ids == WrappedIds(elements)
  {
    ids := [];
    for i := 0 to |elements|
      invariant ids == WrappedIds(elements[..i])
    {
      assert elements[..i + 1][..i] == elements[..i];
      match elements[i] {
        case WrappedValue(node) =>
          match node {
            case ActorNode(actorId) => ids := ids + [actorId];
            case MovieNode(movieId) => ids := ids + [movieId];
          }
        case PlainNode(_) =>
      }
    }
    assert elements[..|elements|] == elements;
  }
}
