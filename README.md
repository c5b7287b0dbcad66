# Actor/movie graph service: a verified model

The service answers HTTP requests about a graph with two node kinds, `Actor` and
`Movie`, and one edge kind, `ACTED_IN`. Every handler runs a few Cypher queries
against a Neo4j database and turns the answer into a status code: 200, 400
(bad request), 404 (not found) or 500 (internal error). The handlers fall into
three groups:

- the mutations add an actor, add a movie and add a relationship;
- the point queries ask whether a relationship exists, and fetch an actor with
  its movies or a movie with its actors;
- the Bacon queries compute the Bacon number and the Bacon path from an actor
  to Kevin Bacon (actorId `nm0000102`).

The model replaces the database with one `Store.Graph` object:

- `actors`: a map from actorId to name;
- `movies`: a map from movieId to name;
- `edges`: a set of (actorId, movieId) pairs.

A map holds each id once, so each kind of id stays unique. A set holds each
pair once, so there is at most one edge per pair. `Graph.Valid()` states that
every edge joins a stored actor to a stored movie. Every mutation preserves it.

The outcome of a handler is `Outcomes.Status` (`Ok`, `BadRequest`, `NotFound`,
`InternalError`), which send 200, 400, 404 and 500. An absent query
parameter is `None` and gives `BadRequest`. An absent JSON body key is `None`
and gives `InternalError`, which is the source's `catch (Exception e)` branch.

The database computes the Bacon number and path with
`shortestPath((a:Actor)-[:ACTED_IN*]-(b:Actor))`. The model computes them with
`PathFinder.ShortestWalk`, a layered breadth-first search over `edges` that
follows edges in both directions. It keeps a distance map and a predecessor
map, and builds the result by walking back along the predecessors. Its
postcondition states that the result is a walk from the query actor to Kevin
Bacon and that no walk between them has fewer nodes. When it finds nothing,
the postcondition states that no walk exists.

The source has several copies of some handlers:

- `AddActorHandler.java` exists in `api/put`, in `handler/put` and in the top
  package;
- `AddMovieHandler.java` exists in `api/put` and in `handler/put`;
- `GetMovieHandler.java` exists in `handler/get` and in the top package.

The copies differ only in logging, and one member models each operation.
The other copies are cited by the client methods in `Scenarios` and by the
functions behind the views.

The code behaves as follows, and the model follows it:

- An edge is directed, Actor to Movie. `addRelationship` creates it that way,
  and `hasRelationship` matches only that direction. Only the Bacon queries
  follow edges both ways.
- Ids and names can be any string, including the empty string. The code does
  not refuse them.
- The actor and movie views list ids in the order the database returns them.
  The model fixes no order but proves that each linked id is listed exactly
  once.
- The code takes no lock between its check and its create. The model runs one
  handler at a time (see "Left out").

## Model

| member | source | states |
|---|---|---|
| `Store.Graph.AddActor` | src/main/java/ca/yorku/eecs/api/put/AddActorHandler.java:24-54 | Without a `name` or `actorId` key the outcome is InternalError and the store does not change. A stored actorId gives BadRequest and the store does not change. Otherwise the outcome is Ok and `actors` gains exactly actorId ↦ name. Movies and edges never change, and `Valid()` is kept. |
| `Scenarios.AddActorTwice` | src/main/java/ca/yorku/eecs/handler/put/AddActorHandler.java:63-78 | Adding one actorId twice gives Ok, then BadRequest. The actor keeps the name from the first call, and nothing else changes. |
| `Scenarios.AddActorThenGetActor` | src/main/java/ca/yorku/eecs/AddActorHandler.java:59-72 | Adding an actorId that is not stored creates exactly (name, actorId): a later get-actor returns that name and id with an empty movie list. |
| `Store.Graph.AddMovie` | src/main/java/ca/yorku/eecs/api/put/AddMovieHandler.java:49-80 | Without a `name` or `movieId` key the outcome is InternalError and the store does not change. A stored movieId gives BadRequest and the store does not change. Otherwise the outcome is Ok and `movies` gains exactly movieId ↦ name. Actors and edges never change, and `Valid()` is kept. |
| `Scenarios.AddMovieThenGetMovie` | src/main/java/ca/yorku/eecs/handler/put/AddMovieHandler.java:64-82 | Adding a movieId that is not stored creates exactly (name, movieId): a later get-movie returns that name and id with an empty actor list. |
| `Store.Graph.AddRelationship` | src/main/java/ca/yorku/eecs/handler/put/AddRelationshipHandler.java:62-102 | Without an `actorId` or `movieId` key the outcome is InternalError and nothing changes. An actor or movie that is not stored gives NotFound, and this check comes before the duplicate check. A stored edge gives BadRequest. Otherwise exactly (actorId, movieId) is added and the outcome is Ok. Actors and movies never change, and `Valid()` is kept. After Ok, has-relationship answers Ok, the movie is among the actor's movies and the actor is among the movie's actors. |
| `Scenarios.AddRelationshipTwice` | src/main/java/ca/yorku/eecs/handler/put/AddRelationshipHandler.java:81-93 | Adding one edge twice between stored endpoints gives Ok, then BadRequest. The edge set gains exactly the one pair. |
| `Store.Graph.HasRelationship` | src/main/java/ca/yorku/eecs/api/get/HasRelationshipHandler.java:46-77 | A missing parameter gives BadRequest. Otherwise the outcome is Ok if and only if (actorId, movieId) is a stored edge, and NotFound if and only if it is not. An endpoint that is not stored gives NotFound, not a separate error. The query changes nothing. |
| `Store.Graph.MoviesOf` | src/main/java/ca/yorku/eecs/handler/get/GetActorHandler.java:69 | The movies matched from an actor are exactly the m with (actorId, m) in `edges`. |
| `Store.Graph.ActorsOf` | src/main/java/ca/yorku/eecs/handler/get/GetMovieHandler.java:69 | The actors matched into a movie are exactly the a with (a, movieId) in `edges`. |
| `Store.Graph.GetActor` | src/main/java/ca/yorku/eecs/handler/get/GetActorHandler.java:60-106 | A missing `actorId` gives BadRequest, and an actorId that is not stored gives NotFound. Otherwise the outcome is Ok with the stored name and the actorId. The movie list holds exactly the movies linked to the actor, each once, so its length is the number of those movies. |
| `Store.Graph.GetMovie` | src/main/java/ca/yorku/eecs/GetMovieHandler.java:40-86 | A missing `movieId` gives BadRequest, and a movieId that is not stored gives NotFound. Otherwise the outcome is Ok with the stored name and the movieId. The actor list holds exactly the actors linked to the movie, each once, so its length is the number of those actors. |
| `Records.Collect` | src/main/java/ca/yorku/eecs/GetMovieHandler.java:49 | `collect(...)` returns a column that lists every id of the set exactly once and holds no null. |
| `Records.Present` | src/main/java/ca/yorku/eecs/handler/get/GetMovieHandler.java:78-84 | Dropping the null entries keeps exactly the ids the column holds. It keeps a column without repeats free of repeats, and it keeps every entry of a column without nulls. |
| `Records.NonNullIds` | src/main/java/ca/yorku/eecs/handler/get/GetActorHandler.java:78-84 | The loop that copies the non-null ids into the JSON array produces exactly `Present(column)`. |
| `PathFinder.Neighbors` | src/main/java/ca/yorku/eecs/api/get/ComputeBaconNumberHandler.java:78 | One undirected `ACTED_IN` step from a node reaches exactly the nodes joined to it by a stored edge, in either direction. |
| `PathFinder.ShortestWalk` | src/main/java/ca/yorku/eecs/api/get/ComputeBaconNumberHandler.java:77-80 | The search returns a walk from `from` to `to` that no other walk between them undercuts. It returns None if and only if no walk exists. |
| `PathFinder.ExpandLayer` | src/main/java/ca/yorku/eecs/api/get/ComputeBaconPathHandler.java:82 | One search layer gives every unvisited neighbour of the frontier distance d + 1 and a frontier node as predecessor. Every neighbour of the frontier ends up visited, and earlier entries are kept. |
| `PathFinder.LayerStep` | src/main/java/ca/yorku/eecs/api/get/ComputeBaconNumberHandler.java:78 | One layer keeps the search invariant: recorded distances are exact and unvisited nodes are farther than the current layer. |
| `PathFinder.Reconstruct` | src/main/java/ca/yorku/eecs/api/get/ComputeBaconPathHandler.java:82-85 | Following predecessors back from a visited node gives a walk from the source to it, with one more node than its recorded distance. |
| `PathFinder.WalkAlternates` | src/main/java/ca/yorku/eecs/api/get/ComputeBaconPathHandler.java:87-97 | Along a walk the node kind alternates: position i has the kind of position 0 if and only if i is even. |
| `PathFinder.WalkBetweenActorsHasEvenEdges` | src/main/java/ca/yorku/eecs/api/get/ComputeBaconNumberHandler.java:78 | A walk between two actors has an even number of edges, so `length(p)/2` is exact. Between distinct actors it has at least two edges. |
| `PathFinder.WalkIdsAlternate` | src/main/java/ca/yorku/eecs/api/get/ComputeBaconPathHandler.java:87-97 | The ids of a walk that starts at an actor are joined by stored edges. The edge at an even position reads (actor, movie) and the one at an odd position reads (movie, actor). |
| `PathFinder.ClosedSetContainsWalk` | src/main/java/ca/yorku/eecs/api/get/ComputeBaconNumberHandler.java:90-94 | A walk that starts in a node set closed under adjacency ends in it. This is why an exhausted search means no path exists. |
| `Store.Graph.ReachableActorsStored` | src/main/java/ca/yorku/eecs/api/get/ComputeBaconNumberHandler.java:77-79 | Two distinct actors joined by a walk are both stored, as both `MATCH` patterns require. |
| `Store.Graph.BaconNumber` | src/main/java/ca/yorku/eecs/api/get/ComputeBaconNumberHandler.java:54-107 | A missing `actorId` gives BadRequest. `nm0000102` gives Ok with 0, whatever the store holds. For any other actor the outcome is Ok if and only if a walk to Kevin Bacon exists, and NotFound otherwise, including when either actor is not stored. On Ok the number n is at least 1, and some shortest walk has 2n + 1 nodes. |
| `Store.Graph.BaconPath` | src/main/java/ca/yorku/eecs/api/get/ComputeBaconPathHandler.java:57-123 | A missing `actorId` gives BadRequest. `nm0000102` gives Ok with [nm0000102], whatever the store holds. For any other actor the outcome is Ok if and only if a walk exists, and NotFound otherwise. On Ok the path starts at the actor and ends at Kevin Bacon. Consecutive ids are stored edges, alternating actor and movie, and the path is as long as a shortest walk. This is the intended conversion of path nodes to ids (see "Findings"). |
| `Store.NodeIds` | src/main/java/ca/yorku/eecs/api/get/ComputeBaconPathHandler.java:85-97 | The intended conversion: the result has one id per path node, and each Actor node gives its actorId and each Movie node its movieId. The loop as written keeps fewer (see "Findings"). |
| `Store.WrappedIds` | src/main/java/ca/yorku/eecs/api/get/ComputeBaconPathHandler.java:87-97 | The loop as written keeps an element only if it is still wrapped as a driver value. A list with no wrapped element gives no id. A list of wrapped elements gives one id per element: the actorId of an Actor node, the movieId of a Movie node. |
| `Store.AsList` | src/main/java/ca/yorku/eecs/api/get/ComputeBaconPathHandler.java:85 | The driver 1.x `asList()` converts each element with `asObject()`, so every path node arrives as a plain node object and not as a `Value`, one element per node and in path order. This is taken from the driver's documentation as a definition, not derived. |
| `Store.KeepWrappedIds` | src/main/java/ca/yorku/eecs/api/get/ComputeBaconPathHandler.java:85-97 | The loop that fills the JSON array produces exactly `WrappedIds` of the element list. |
| `Store.Graph.BaconPathAsWritten` | src/main/java/ca/yorku/eecs/api/get/ComputeBaconPathHandler.java:57-123 | The handler with its path conversion as written. The statuses are those of `BaconPath`: BadRequest, Ok with [nm0000102] for Kevin Bacon, and otherwise Ok if and only if a walk exists. On Ok for any other actor the list is empty, because `asList()` hands back plain node objects. |
| `Scenarios.BaconPathAsWrittenDropsEveryId` | src/main/java/ca/yorku/eecs/api/get/ComputeBaconPathHandler.java:85-97 | For an actor other than Kevin Bacon, the conversion as written and the intended one succeed together. The one as written then gives [], and the intended one gives at least three ids. |
| `Scenarios.BaconPathMatchesNumber` | src/main/java/ca/yorku/eecs/api/get/ComputeBaconPathHandler.java:82-84 | For one actor, the Bacon path and the Bacon number succeed together. The intended path then has 2n + 1 ids, where n is the number. |
| `Scenarios.SmallWorldNumbers` | src/main/java/ca/yorku/eecs/api/get/ComputeBaconNumberHandler.java:62-83 | Take actors nm1, nm2 and Kevin Bacon, and movie tt1 holding nm1 and Kevin Bacon. Then nm1 has Bacon number 1 and Kevin Bacon has 0. |
| `Scenarios.SmallWorldPath` | src/main/java/ca/yorku/eecs/api/get/ComputeBaconPathHandler.java:65-97 | In that graph the intended Bacon path of nm1 is [nm1, tt1, nm0000102]. |
| `Scenarios.SmallWorldPathAsWritten` | src/main/java/ca/yorku/eecs/api/get/ComputeBaconPathHandler.java:85-97 | In that graph the conversion as written answers nm1 with Ok and an empty list. |
| `Scenarios.SmallWorldUnlinked` | src/main/java/ca/yorku/eecs/api/get/ComputeBaconNumberHandler.java:90-94 | In that graph nm2, which is in no movie, has no path, so its Bacon number is NotFound. |
| `Scenarios.SmallWorld` | src/main/java/ca/yorku/eecs/handler/put/AddRelationshipHandler.java:88-93 | `BuildSmallWorld` creates that graph with the mutation handlers. Queried afterwards, nm1 has number 1 and intended path [nm1, tt1, nm0000102], Kevin Bacon has number 0, nm2 is NotFound, and the conversion as written answers nm1 with []. |

## Findings

| source | as written | input that shows it | evidently intended | confidence | as-written member | corrected member |
|---|---|---|---|---|---|---|
| src/main/java/ca/yorku/eecs/api/get/ComputeBaconPathHandler.java:85-88 | The loop keeps a path element only if it is an instance of the driver's `Value`. In driver 1.x, `Value.asList()` converts every element with `asObject()`, so the nodes arrive as plain node objects and none passes the test. | actorId=nm1 in the graph where nm1 and nm0000102 both act in tt1: the answer is 200 with `{"baconPath":[]}` | 200 with `{"baconPath":["nm1","tt1","nm0000102"]}` | medium; not executed; it rests on the documented behaviour of driver 1.x `asList()` | `Store.Graph.BaconPathAsWritten` (with `Store.KeepWrappedIds`; shown by `Scenarios.SmallWorldPathAsWritten` and `Scenarios.BaconPathAsWrittenDropsEveryId`) | `Store.Graph.BaconPath` (with `Store.NodeIds`) |

## Left out

- HTTP plumbing is not modelled: reading the body, splitting the query string,
  writing headers and the response body, closing the stream. Query parameters
  and body keys are `Option` inputs. A present parameter whose value is
  empty or null is left out, because the helper that splits the query string
  is not part of this model.
- JSON parsing by org.json is not modelled. A malformed body, a missing key and
  a non-string value all take the InternalError branch; the model shows that
  branch as a missing key.
- Neo4j driver mechanics are not modelled: sessions, transactions, commit and
  rollback. A driver fault would give 500 in every handler. The model has no
  faults, so the read handlers never answer InternalError.
- Concurrency is not modelled: the server's thread pool and the lack of a lock
  between the existence check and the create. Handlers run one at a time.
- The order of `collect(...)` lists and the choice between shortest paths of
  equal length belong to the database. The model fixes neither and accepts any
  order and any shortest walk.
- Logging is not modelled.
- Server start-up (`App.java`), the HTML root page (`RootHandler.java`), the
  console dump (`RetrieveDataHandler.java`) and the test files are not modelled.
- `PathFinder.ShortestWalk`: the result is a shortest walk, and its contract
  does not state that the walk repeats no node. Neo4j returns a path, which
  never repeats a node. A shortest walk cannot repeat one either, but that is
  not proved here.
- `Store.Graph.BaconNumber`: the number is an unbounded `nat`. The source reads
  it with `asInt()`, which would differ only beyond 2^31 hops.
- `Store.NodeIds`: converts every path node. This is the intended behaviour; the
  loop as written also requires each element to be a driver `Value`, which
  `Store.KeepWrappedIds` models (see "Findings"). Both models assume every node
  has the label Actor or the label Movie, so the label tests at
  ComputeBaconPathHandler.java:91-95 always keep the node.
- `Store.Graph.BaconPath`: its ids on Ok are those of the intended conversion.
  The handler as written answers Ok with an empty list, which
  `Store.Graph.BaconPathAsWritten` models.
- `BaconPathMatchesNumber`: the 2n + 1 length holds for the intended conversion.
  With the conversion as written the path is empty (see "Findings").
- `SmallWorldPath`: [nm1, tt1, nm0000102] is the answer of the intended
  conversion. `Scenarios.SmallWorldPathAsWritten` gives the answer as written, [].
- `Store.AsList`: the conversion of the driver's `asList()` is not derived. It
  is written in from the documentation of driver 1.x, which converts each list
  element with `asObject()`. The driver is not part of this model. The empty
  answer of `Store.Graph.BaconPathAsWritten`, and with it the row in
  "Findings", rests on that assumption.
