/**
 * Properties that span several handler calls, stated as client code that
 * calls the handlers and proves what it observes from their contracts alone.
 */
module Scenarios {
  import opened Wrappers
  import opened Outcomes
  import opened PathFinder
  import opened Store

  /** Adding an actorId twice: the second call is refused and the first name stays. */
  method AddActorTwice(g: Graph, actorId: string, first: string, second: string)
    returns (s1: Status, s2: Status)
    requires g.Valid() && actorId !in g.actors
    modifies g
    ensures g.Valid()
    ensures s1 == Ok && s2 == BadRequest
    ensures g.actors == old(g.actors)[actorId := first]
    ensures g.movies == old(g.movies) && g.edges == old(g.edges)
  {
    s1 := g.AddActor(Some(first), Some(actorId));
    s2 := g.AddActor(Some(second), Some(actorId));
  }

  /** A freshly added actor reads back with its name, its id and an empty movie list. */
  method AddActorThenGetActor(g: Graph, actorId: string, name: string)
    returns (s1: Status, s2: Status, view: Option<ActorView>)
    requires g.Valid() && actorId !in g.actors
    modifies g
    ensures g.Valid()
    ensures s1 == Ok && s2 == Ok
    ensures view == Some(ActorView(name, actorId, []))
  {
    s1 := g.AddActor(Some(name), Some(actorId));
    s2, view := g.GetActor(Some(actorId));
    assert forall m :: (actorId, m) !in g.edges;
    assert g.MoviesOf(actorId) == {};
  }

  /** A freshly added movie reads back with its name, its id and an empty actor list. */
  method AddMovieThenGetMovie(g: Graph, movieId: string, name: string)
    returns (s1: Status, s2: Status, view: Option<MovieView>)
    requires g.Valid() && movieId !in g.movies
    modifies g
    ensures g.Valid()
    ensures s1 == Ok && s2 == Ok
    ensures view == Some(MovieView(name, movieId, []))
  {
    s1 := g.AddMovie(Some(name), Some(movieId));
    s2, view := g.GetMovie(Some(movieId));
    assert forall a :: (a, movieId) !in g.edges;
    assert g.ActorsOf(movieId) == {};
  }

  /** Adding the same edge twice: the first call creates it, the second is refused. */
  method AddRelationshipTwice(g: Graph, actorId: string, movieId: string)
    returns (s1: Status, s2: Status)
    requires g.Valid() && actorId in g.actors && movieId in g.movies && (actorId, movieId) !in g.edges
    modifies g
    ensures g.Valid()
    ensures s1 == Ok && s2 == BadRequest
    ensures g.edges == old(g.edges) + {(actorId, movieId)}
    ensures g.HasRelationship(Some(actorId), Some(movieId)) == Ok
  {
    s1 := g.AddRelationship(Some(actorId), Some(movieId));
    s2 := g.AddRelationship(Some(actorId), Some(movieId));
  }

  /**
   * The Bacon path of an actor has 2 * n + 1 ids, where n is the Bacon number
   * of the same actor, and one is found exactly when the other is.
   */
  method BaconPathMatchesNumber(g: Graph, actorId: string)
    returns (s1: Status, number: Option<nat>, s2: Status, path: Option<seq<string>>)
    requires g.Valid()
    ensures s1 == s2
    ensures s1 == Ok ==> number.Some? && path.Some? && |path.value| == 2 * number.value + 1
  {
    s1, number := g.BaconNumber(Some(actorId));
    s2, path := g.BaconPath(Some(actorId));
    if s1 == Ok {
      var from, to := ActorNode(actorId), ActorNode(KevinBaconId);
      ghost var p1 :| IsShortestWalk(g.edges, p1, from, to) && |p1| == 2 * number.value + 1;
      ghost var p2 :| IsShortestWalk(g.edges, p2, from, to) && |p2| == |path.value|;
      assert |p1| <= |p2| && |p2| <= |p1|;
    }
  }

  /**
   * For an actor other than Kevin Bacon, the handler's path conversion as
   * written answers Ok exactly when the intended one does, but then with an
   * empty list where the intended one lists at least three ids.
   */
  method BaconPathAsWrittenDropsEveryId(g: Graph, actorId: string)
    returns (s1: Status, written: Option<seq<string>>, s2: Status, intended: Option<seq<string>>)
    requires g.Valid() && actorId != KevinBaconId
    ensures s1 == s2
    ensures s1 == Ok ==> written == Some([]) && intended.Some? && |intended.value| >= 3
  {
    s1, written := g.BaconPathAsWritten(Some(actorId));
    s2, intended := g.BaconPath(Some(actorId));
    if s2 == Ok {
      ghost var p :| IsShortestWalk(g.edges, p, ActorNode(actorId), ActorNode(KevinBaconId))
                     && |p| == |intended.value|;
      WalkBetweenActorsHasEvenEdges(g.edges, p, actorId, KevinBaconId);
    }
  }

  /** The edge set of the small world built below. */
  function SmallWorldEdges(): Edges {
    {("nm1", "tt1"), (KevinBaconId, "tt1")}
  }

  /**
   * Actors nm1 ("Alice"), nm2 ("Bob") and Kevin Bacon, movie tt1 ("Film"),
   * with nm1 and Kevin Bacon both in tt1.
   */
  method BuildSmallWorld() returns (g: Graph)
    ensures fresh(g) && g.Valid()
    ensures g.actors == map["nm1" := "Alice", "nm2" := "Bob", KevinBaconId := "Kevin Bacon"]
    ensures g.movies == map["tt1" := "Film"]
    ensures g.edges == SmallWorldEdges()
  {
    g := new Graph();
    var s := g.AddActor(Some("Alice"), Some("nm1"));
    s := g.AddActor(Some("Bob"), Some("nm2"));
    s := g.AddActor(Some("Kevin Bacon"), Some(KevinBaconId));
    s := g.AddMovie(Some("Film"), Some("tt1"));
    s := g.AddRelationship(Some("nm1"), Some("tt1"));
    s := g.AddRelationship(Some(KevinBaconId), Some("tt1"));
  }

  /** In the small world nm1 has Bacon number 1, and Kevin Bacon has 0. */
  method SmallWorldNumbers(g: Graph) returns (n1: Option<nat>, nb: Option<nat>)
    requires g.Valid() && g.edges == SmallWorldEdges()
    ensures n1 == Some(1) && nb == Some(0)
  {
    var walk := [ActorNode("nm1"), MovieNode("tt1"), ActorNode(KevinBaconId)];
    assert IsWalkBetween(g.edges, walk, ActorNode("nm1"), ActorNode(KevinBaconId));
    var s;
    s, n1 := g.BaconNumber(Some("nm1"));
    s, nb := g.BaconNumber(Some(KevinBaconId));
  }

  /** In the small world the Bacon path of nm1 is [nm1, tt1, nm0000102]. */
  method SmallWorldPath(g: Graph) returns (path: Option<seq<string>>)
    requires g.Valid() && g.edges == SmallWorldEdges()
    ensures path == Some(["nm1", "tt1", KevinBaconId])
  {
    var walk := [ActorNode("nm1"), MovieNode("tt1"), ActorNode(KevinBaconId)];
    assert IsWalkBetween(g.edges, walk, ActorNode("nm1"), ActorNode(KevinBaconId));
    var s;
    s, path := g.BaconPath(Some("nm1"));
    var ids := path.value;
    assert (ids[0], ids[1]) in g.edges;
    assert ids == ["nm1", "tt1", KevinBaconId];
  }

  /** In the small world the path conversion as written answers nm1 with an empty list. */
  method SmallWorldPathAsWritten(g: Graph) returns (path: Option<seq<string>>)
    requires g.Valid() && g.edges == SmallWorldEdges()
    ensures path == Some([])
  {
    var walk := [ActorNode("nm1"), MovieNode("tt1"), ActorNode(KevinBaconId)];
    assert IsWalkBetween(g.edges, walk, ActorNode("nm1"), ActorNode(KevinBaconId));
    var s;
    s, path := g.BaconPathAsWritten(Some("nm1"));
  }

  /** In the small world nm2, in no movie, has no path to Kevin Bacon. */
  method SmallWorldUnlinked(g: Graph) returns (s: Status)
    requires g.Valid() && g.edges == SmallWorldEdges()
    ensures s == NotFound
  {
    forall p | IsWalk(g.edges, p) && p[0] == ActorNode("nm2")
      ensures p[|p| - 1] == ActorNode("nm2")
    {
      ClosedSetContainsWalk(g.edges, {ActorNode("nm2")}, p);
    }
    var number;
    s, number := g.BaconNumber(Some("nm2"));
  }

  /**
   * The small world built by the mutation handlers, then queried: nm1 has
   * Bacon number 1 and path [nm1, tt1, nm0000102], Kevin Bacon has number 0,
   * nm2 has none, and the path conversion as written answers nm1 with [].
   */
  method SmallWorld()
    returns (n1: Option<nat>, nb: Option<nat>, path: Option<seq<string>>,
             unlinked: Status, written: Option<seq<string>>)
    ensures n1 == Some(1) && nb == Some(0)
    ensures path == Some(["nm1", "tt1", KevinBaconId])
    ensures unlinked == NotFound
    ensures written == Some([])
  {
    var g := BuildSmallWorld();
    n1, nb := SmallWorldNumbers(g);
    path := SmallWorldPath(g);
    unlinked := SmallWorldUnlinked(g);
    written := SmallWorldPathAsWritten(g);
  }
}
