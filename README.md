# Room graph of the campus navigation service

The service keeps an in-memory graph of the rooms of an office floor. Each
room has an id, a name and a list of connected rooms. A `RoomGraph` adds
rooms, connects two rooms in both directions, looks rooms up by id or by
case-insensitive name, lists a room's connections by name, and finds a
shortest route between two rooms by breadth-first search. When the module is
loaded it builds a fixed campus graph of twenty rooms and seventeen
connections.

Two variants are modelled:

- `api/room_api.py` (modules `RoomApi`, `RoomApiSeed`): string ids, a name
  index `rooms_by_name` keyed by the lower-cased name, and
  `find_shortest_path`.
- `room_api.py` (modules `LegacyRoomApi`, `LegacyRoomApiSeed`): the older
  variant with integer ids, no name index and no path search.

The other modules are shared by both variants:

- `Outcomes` holds the result types. A raised `ValueError` becomes a
  `Fail`/`Failure` value, and `None` becomes `Option.None`.
- `Adjacency` holds the connection lists. `connected_rooms` is modelled as
  a map `adj` from a room id to the ids of its connected rooms, in the order
  they were appended. `Link` is the two appends of `connect_rooms`.
  `WellFormed` is the invariant: no dangling id, and symmetric
  multiplicities.
- `AdjacencyFold` models a run of `connect_rooms` calls (`Connect`). It also
  says what the run appends to each list (`Partners`).
- `CaseFold` holds `Lower`, the `str.lower` applied to names and queries.
- `Paths` defines paths, reachability and shortest paths.
- `Bfs` holds the loop invariant of `find_shortest_path` and the inner loop
  that enqueues unvisited neighbours.

Each `RoomGraph` is a class whose fields are the dictionaries it updates in
place:

- `rooms`: id → name;
- `adj`: id → list of connected ids;
- `roomsByName`: lower-cased name → id (api variant only).

The state-changing operations are methods that say their whole new state.
The lookups are functions over that state. `find_shortest_path` is a method
with the source's `while` loop, proved against `Paths.ShortestPath` and
`Paths.Reachable`.

The model follows the code where a stricter design would differ:

- `connect_rooms` has no self-loop guard. `connect_rooms(a, a)` appends `a`
  to its own list twice.
- `connect_rooms` has no duplicate-edge guard. Repeating a call appends both
  entries again.
- A room whose name folds to an existing key silently takes the
  `rooms_by_name` entry over, instead of being rejected. The earlier room
  stays in `rooms`.

## Model

| member | source | states |
|---|---|---|
| Adjacency.AddVertex | api/room_api.py:28-29 | a new room gets an empty `connected_rooms` list; the function carries no contract of its own, and its partner Adjacency.AddVertexKeepsWellFormed proves that it adds exactly that key, leaves every other list unchanged and keeps both invariants |
| Adjacency.AddVertexKeepsWellFormed | api/room_api.py:28-29 | a new room with an empty connection list keeps "no dangling id" and symmetry, adds exactly that key, and leaves every other list as it was |
| Adjacency.Link | api/room_api.py:43-44 | the two appends of `connect_rooms` add no room and remove none; its partner Adjacency.LinkAppends says exactly where it appends |
| Adjacency.LinkAppends | api/room_api.py:43-44 | `connect_rooms(a, b)` appends `b` at the end of `a`'s list and `a` at the end of `b`'s list; for `a == b` it appends `a` twice to the one list; no other list changes |
| Adjacency.LinkCount | api/room_api.py:15-16 | each call adds exactly one occurrence of `b` to `a`'s list and one of `a` to `b`'s list, whatever is already there: there is no duplicate-edge guard |
| Adjacency.LinkKeepsNoDangling | room_api.py:32-38 | after a successful connect, every id in every list still names a room |
| Adjacency.LinkKeepsSymmetric | room_api.py:37-38 | after a connect, the number of times `b` occurs in `a`'s list still equals the number of times `a` occurs in `b`'s list, for all `a` and `b` |
| Adjacency.LinkKeepsWellFormed | api/room_api.py:38-44 | a successful connect keeps both invariants |
| Adjacency.NeighbourNames | api/room_api.py:50 | `[r.name for r in connected_rooms]`: one name per list entry, the i-th being the name of the i-th listed room |
| Adjacency.NeighbourNamesAfterLink | api/room_api.py:43-50 | after connecting `a` and `b`, `a`'s connection names are the old ones followed by `b`'s name, and the reverse for `b`; a self-loop adds the room's own name twice |
| AdjacencyFold.Unconnected | api/room_api.py:77-96 | after a run of successful `add_room` calls, there is one list per added room and every list is empty |
| AdjacencyFold.UnconnectedWellFormed | room_api.py:48-67 | rooms with no connections satisfy both invariants |
| AdjacencyFold.Connect | api/room_api.py:99-115 | a run of successful `connect_rooms` calls adds no room and removes none |
| AdjacencyFold.ConnectAppendsPartners | api/room_api.py:99-115 | after a run of calls, each room's list is its old list followed by its partners, in call order |
| AdjacencyFold.PartnersConcat | room_api.py:69-87 | two batches of calls made one after the other append the first batch's partners, then the second's |
| AdjacencyFold.PartnersMembers | api/room_api.py:99-115 | `y` is among `x`'s partners exactly when some call joined `x` and `y`, in either order |
| AdjacencyFold.NoPartners | room_api.py:76-87 | a room that no call of a batch names gets nothing from that batch |
| AdjacencyFold.ConnectKeepsWellFormed | api/room_api.py:99-115 | a run of successful calls keeps "no dangling id" and symmetry |
| CaseFold.LowerChar | api/room_api.py:30 | an upper-case letter (A-Z, or À-Þ without ×) moves 32 code points up to its lower-case form ('A', U+0041, becomes 'a', U+0061); every other character stays; the result has no upper-case letter |
| CaseFold.Lower | api/room_api.py:30 | lower-casing keeps the length of the name |
| CaseFold.LowerAt | api/room_api.py:30 | the i-th character of the folded name is the folded i-th character |
| CaseFold.LowerIdempotent | api/room_api.py:35-36 | folding a folded key again changes nothing |
| CaseFold.LowerIgnoresCase | api/room_api.py:35-36 | two names whose characters agree up to case fold to the same key |
| Paths.PrefixIsPath | api/room_api.py:71 | every non-empty prefix of a path is a path |
| Paths.ClosedSetHoldsPath | api/room_api.py:59-73 | a set that holds the start and every neighbour of each of its rooms holds the end of every path from the start |
| Paths.SelfPathIsShortest | api/room_api.py:61-62 | the only shortest path from a room to itself is `[room]` |
| Paths.UnlistedIsUnreachable | api/room_api.py:73 | a room that is in no connection list cannot be reached from any other room |
| Paths.TwoHops | api/room_api.py:71 | two consecutive connections form a path of three rooms |
| Paths.OnlyMiddle | api/room_api.py:52-73 | when two rooms are not neighbours and share exactly one neighbour, every shortest path between them goes through that neighbour |
| Bfs.InitialInvariant | api/room_api.py:56-57 | the queue `[(start, [start])]` with nothing visited satisfies the loop invariant |
| Bfs.FoundIsShortest | api/room_api.py:60-62 | when the popped room is the target, its path is a shortest path from start to target and repeats no room |
| Bfs.SkipStep | api/room_api.py:64-65 | dropping an entry whose room was already visited keeps the invariant |
| Bfs.ExpandStep | api/room_api.py:67-71 | visiting the popped room and appending its unvisited neighbours, in list order, keeps the invariant |
| Bfs.ExpandKeeps | api/room_api.py:67-71 | the same step, for any appended entries that extend the popped path by one unvisited neighbour and leave no unvisited neighbour out |
| Bfs.FrontierStep | api/room_api.py:59-71 | every room reachable in no more hops than the front entry's path is visited or queued with a path no longer than that; this survives a pop followed by appends one hop longer |
| Bfs.Extensions | api/room_api.py:69-71 | one expansion adds at most one entry per position of the neighbour list; its partner Bfs.ExtensionsShape says which entries, and Bfs.AppendUnvisited is proved equal to it |
| Bfs.ExtensionsShape | api/room_api.py:69-71 | the appended entries are exactly unvisited neighbours, each paired with the popped path extended by it, and every unvisited neighbour gets one |
| Bfs.NewEntryOk | api/room_api.py:71 | `path + [neighbor]` for an unvisited neighbour is still a simple path from the start |
| Bfs.ExhaustedIsUnreachable | api/room_api.py:73 | when the queue runs empty, the target cannot be reached from the start |
| Bfs.AppendUnvisited | api/room_api.py:69-71 | the `for neighbor ...` loop appends, in list order, one `(neighbor, path + [neighbor])` per neighbour not yet visited |
| RoomApi.IndexAfterAdd | api/room_api.py:30 | after `rooms_by_name[name.lower()] = room`, the index stays consistent; a room added earlier whose name folds to the same key loses the entry to the new room |
| RoomApi.ConsistentAfterAdd | api/room_api.py:25-30 | adding a room with a fresh id keeps the graph's invariant: one list per room, no dangling id, symmetry, and a consistent name index |
| RoomApi.ConsistentAfterLink | api/room_api.py:38-44 | connecting two existing rooms keeps the invariant |
| RoomApi.NameLookupFolds | api/room_api.py:35-36 | `get_room_by_name` depends only on the lower-cased query: two queries with the same folded form find the same room |
| RoomApi.IndexFor | api/room_api.py:30 | for any rooms, there is a name index consistent with them: each folded name leads to a room whose name folds to it |
| RoomApi.IndexExists | api/room_api.py:28-30 | any well-formed lists over the rooms, paired with such an index, satisfy the graph's whole invariant |
| RoomApi.RoomGraph.constructor | api/room_api.py:21-23 | a new graph is empty and satisfies the invariant |
| RoomApi.RoomGraph.GetRoom | api/room_api.py:32-33 | `None` exactly for an unknown id; otherwise that room's id, name and connections, all of them rooms of the graph |
| RoomApi.RoomGraph.GetRoomByName | api/room_api.py:35-36 | `None` exactly when no room's name folds to the folded query; otherwise a room whose name folds to it, the same one `get_room` gives for its id |
| RoomApi.RoomGraph.AddRoom | api/room_api.py:25-30 | a duplicate id fails with `DuplicateRoom` and changes nothing; otherwise the room is added with no connections, indexed under its folded name, found by `get_room` and by `get_room_by_name(name)`, and every earlier room looks up as before; the invariant holds |
| RoomApi.RoomGraph.ConnectRooms | api/room_api.py:38-44 | a missing room fails and changes nothing; otherwise the two appends happen (no self-loop or duplicate guard) and the invariant holds |
| RoomApi.RoomGraph.GetConnections | api/room_api.py:46-50 | an unknown id fails with `RoomNotFound`; otherwise one name per list entry, in the order the connections were made |
| RoomApi.RoomGraph.FindShortestPath | api/room_api.py:52-73 | an unknown start or end fails; `start == end` gives `[start]`; otherwise `None` exactly when the end is unreachable, and a returned path leads from start to end along connections, repeats no room, and has the fewest hops |
| RoomApiSeed.CampusRooms | api/room_api.py:77-96 | the twenty `add_room` calls, as the map from id to name they leave; no contract of its own, it is the input of the lemmas below |
| RoomApiSeed.CampusEdges | api/room_api.py:99-115 | the `connect_rooms` calls in the order they are made: seventeen of them |
| RoomApiSeed.CampusAdj | api/room_api.py:99-115 | the seventeen `connect_rooms` calls touch only the twenty added rooms |
| RoomApiSeed.CampusConsistent | api/room_api.py:76-115 | the seed state satisfies the graph's invariant: its lists are well formed and some name index is consistent with its rooms, so the seed lemmas below do not hold vacuously |
| RoomApiSeed.CampusEdgesIn | api/room_api.py:99-115 | every seed `connect_rooms` call names two added rooms, so none of them fails |
| RoomApiSeed.CampusNeighbour | api/room_api.py:99-115 | in the seed graph, `y` is in `x`'s list exactly when a seed call joined them |
| RoomApiSeed.KitchenCafeWalk | api/room_api.py:100-107 | köket → stora skärmrummet → cafét is a path of the seed graph |
| RoomApiSeed.KitchenToCafe | api/room_api.py:99-115 | every shortest path from köket ("0") to cafét ("3") is `["0", "14", "3"]` |
| RoomApiSeed.MontBlancUnreachable | api/room_api.py:82 | mont blanc ("5") is added but never connected, so it cannot be reached from köket |
| RoomApiSeed.CampusRoutes | api/room_api.py:76-115 | on the seed graph, `find_shortest_path("0", "3")` returns `["0", "14", "3"]` and `find_shortest_path("0", "5")` returns `None` |
| RoomApiSeed.KitchenFolds | api/room_api.py:77 | "KÖKET" and "köket" fold to the same index key |
| RoomApiSeed.KitchenByAnyCase | api/room_api.py:35-36 | in a graph holding a room named "köket", `get_room_by_name` finds it both as "KÖKET" and as "köket", and gives the same room |
| LegacyRoomApi.RoomGraph.constructor | room_api.py:21-22 | a new graph is empty and satisfies the invariant |
| LegacyRoomApi.RoomGraph.AddRoom | room_api.py:24-27 | a duplicate id fails with `DuplicateRoom` and changes nothing; otherwise the room is added with no connections and every other room looks up as before; the invariant holds |
| LegacyRoomApi.RoomGraph.GetRoom | room_api.py:29-30 | `None` exactly for an unknown id; otherwise that room's id, name and connections; reads the state without changing it |
| LegacyRoomApi.RoomGraph.ConnectRooms | room_api.py:32-38 | a missing room fails and changes nothing; otherwise the two appends happen, with no guard, and the invariant holds |
| LegacyRoomApi.RoomGraph.GetConnections | room_api.py:40-44 | an unknown id fails with `RoomNotFound`; otherwise one name per list entry, in the order the connections were made |
| LegacyRoomApiSeed.CampusRooms | room_api.py:48-67 | the twenty `add_room` calls, as the map from id to name they leave; no contract of its own, it is the input of the lemmas below |
| LegacyRoomApiSeed.CampusEdges | room_api.py:69-87 | the `connect_rooms` calls in the order they are made: seventeen of them |
| LegacyRoomApiSeed.CampusConsistent | room_api.py:47-87 | the seed state satisfies the graph's invariant, so the seed lemmas below do not hold vacuously |
| LegacyRoomApiSeed.CampusAdj | room_api.py:69-87 | the seventeen seed calls touch only the twenty added rooms |
| LegacyRoomApiSeed.ListByBatches | room_api.py:69-87 | each seed room's list is what the five batches of calls append to it, batch after batch |
| LegacyRoomApiSeed.SmallScreenList | room_api.py:69-75 | room 16's list is `[0, 14, 11, 15, 17, 8]` |
| LegacyRoomApiSeed.SmallScreenNames | room_api.py:48-67 | the rooms 0, 14, 11, 15, 17 and 8 are named köket, stora skärmrummet, akkah, korridoren, glittertind and matterhorn |
| LegacyRoomApiSeed.SmallScreenConnections | room_api.py:69-75 | on the seed graph, `get_connections(16)` returns köket, stora skärmrummet, akkah, korridoren, glittertind, matterhorn |

## Left out

- The Flask application is not modelled: CORS, the `@app.route` handlers, `jsonify`/`abort`, the error handler and `app.run`. It is HTTP plumbing around the graph.
- The web-layer quirks are left out with it: the route's string ids against the legacy integer ids, and `if not room_id` rejecting id 0.
- api/index.py is not part of this model. It writes a fixed message and has no graph logic.
- Exception message texts and `Room.__repr__` are not modelled. A raised `ValueError` is an error value carrying only its kind and id.
- `Room` objects are represented by their ids. `connected_rooms` holds references to `Room` objects whose `room_id` never changes, so a list of ids carries the same information. Object identity and aliasing are not modelled.
- CaseFold.LowerChar: folds only the upper-case letters within U+0000..U+00FF, which include every letter of the seed names. Every character above U+00FF is returned unchanged, while Python's `str.lower` folds many of them (Ā becomes ā; Ÿ, U+0178, becomes ÿ). For those characters the model's key differs from Python's.
- CaseFold.Lower: maps a name character by character through CaseFold.LowerChar, so it agrees with `str.lower` only for names within U+0000..U+00FF. Outside that range Python can also change the length (İ, U+0130, becomes two characters), so the contract `|r| == |s|` holds for Python's `str.lower` only inside the range.
- RoomApi.RoomGraph.GetRoomByName: when several rooms' names fold to the same key, the contract names one of them, not which one. That the last one added holds the entry follows from RoomApi.RoomGraph.AddRoom's postcondition on `roomsByName` and from RoomApi.IndexAfterAdd.
- RoomApi.RoomGraph.FindShortestPath: when several shortest paths exist, the contract does not say which one is returned. It is the first in breadth-first order over the connection lists.
- The cost of `queue.pop(0)` is not modelled. It is linear in Python, and the model pops the front of a sequence.
- RoomApiSeed.CampusRoutes: the seed graph is given as the value the `add_room` and `connect_rooms` calls produce, not replayed call by call through the class methods. `AddRoom` ends in `AddVertex` and `ConnectRooms` ends in `Link`, and `Connect` is the fold of `Link` over the calls, so the replay composes from those postconditions. The seed's name index is not built: the seed routes need only `rooms` and `adj`, and KitchenByAnyCase is stated for any graph holding köket. RoomApiSeed.CampusConsistent shows that the seed maps, together with some name index, satisfy the graph's invariant.
- LegacyRoomApiSeed.SmallScreenConnections: of the seed's connection lists, only room 16's is computed, since that is the documented example.
