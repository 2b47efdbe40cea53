/** The room graph of the navigation service (api/room_api.py): rooms keyed
    by a string id, a secondary index from lower-cased room name to room, the
    connection lists, and the breadth-first shortest-path search. */
module RoomApi {
  import opened Outcomes
  import opened CaseFold
  import opened Adjacency
  import opened Paths
  import Bfs

  type Id = string

  /** Every index key is the lower-cased name of the room it leads to, and
      every room's lower-cased name is a key (possibly of a later room with
      the same folded name). */
  ghost predicate NameIndexed(names: map<Id, string>, byName: map<string, Id>) {
    && (forall k {:trigger byName[k]} :: k in byName ==> byName[k] in names && Lower(names[byName[k]]) == k)
    && (forall id {:trigger names[id]} :: id in names ==> Lower(names[id]) in byName)
  }

  /** `rooms_by_name[name.lower()] = room`: a later room whose name folds to
      the same key takes the entry over; the earlier room loses it. */
  lemma IndexAfterAdd(names: map<Id, string>, byName: map<string, Id>, id: Id, name: string)
    requires NameIndexed(names, byName) && id !in names
    ensures NameIndexed(names[id := name], byName[Lower(name) := id])
    ensures forall other :: other in names && Lower(names[other]) == Lower(name) ==>
      byName[Lower(name) := id][Lower(names[other])] == id
  {
    var names', byName' := names[id := name], byName[Lower(name) := id];
    forall k | k in byName'
      ensures byName'[k] in names' && Lower(names'[byName'[k]]) == k
    {
      if k != Lower(name) {
        assert byName'[k] == byName[k] && byName[k] != id;
      }
    }
  }

  /** The state invariant of the graph: one adjacency list per room, no
      dangling ids, symmetric multiplicities, and a consistent name index. */
  ghost predicate Consistent(names: map<Id, string>, adj: Adj<Id>, byName: map<string, Id>) {
    adj.Keys == names.Keys && WellFormed(adj) && NameIndexed(names, byName)
  }

  lemma ConsistentAfterAdd(names: map<Id, string>, adj: Adj<Id>, byName: map<string, Id>, id: Id, name: string)
    requires Consistent(names, adj, byName) && id !in names
    ensures Consistent(names[id := name], AddVertex(adj, id), byName[Lower(name) := id])
  {
    AddVertexKeepsWellFormed(adj, id);
    IndexAfterAdd(names, byName, id, name);
  }

  lemma ConsistentAfterLink(names: map<Id, string>, adj: Adj<Id>, byName: map<string, Id>, a: Id, b: Id)
    requires Consistent(names, adj, byName) && a in names && b in names
    ensures Consistent(names, Link(adj, a, b), byName)
  {
    LinkKeepsWellFormed(adj, a, b);
    LinkAppends(adj, a, b);
  }

  /** `get_room_by_name` sees only the lower-cased query: two queries that
      fold to the same key find the same room. */
  lemma NameLookupFolds(g: RoomGraph, q1: string, q2: string)
    requires g.Valid() && Lower(q1) == Lower(q2)
    ensures g.GetRoomByName(q1) == g.GetRoomByName(q2)
  {
  }

  /** An index that holds, for each folded name, one room whose name folds
      to it. */
  ghost function IndexFor(names: map<Id, string>): (r: map<string, Id>)
    ensures NameIndexed(names, r)
  {
    map k | k in FoldedNames(names) :: OneNamed(names, k)
  }

  /** The folded names of the rooms. */
  ghost function FoldedNames(names: map<Id, string>): set<string> {
    set id | id in names :: Lower(names[id])
  }

  ghost function OneNamed(names: map<Id, string>, k: string): (id: Id)
    requires k in FoldedNames(names)
    ensures id in names && Lower(names[id]) == k
  {
    var id :| id in names && Lower(names[id]) == k; id
  }

  /** Any well-formed lists over the rooms can be paired with a consistent
      name index. */
  lemma IndexExists(names: map<Id, string>, adj: Adj<Id>)
    requires adj.Keys == names.Keys && WellFormed(adj)
    ensures exists byName :: Consistent(names, adj, byName)
  {
    assert Consistent(names, adj, IndexFor(names));
  }

  class RoomGraph {
    /** `rooms`: id -> the room's name. */
    var rooms: map<Id, string>
    /** id -> the ids in the room's `connected_rooms`, in insertion order. */
    var adj: map<Id, seq<Id>>
    /** `rooms_by_name`: lower-cased name -> the id of the room it names. */
    var roomsByName: map<string, Id>

    ghost predicate Valid()
      reads this
    {
      Consistent(rooms, adj, roomsByName)
    }

    constructor ()
      ensures Valid()
      ensures rooms == map[] && adj == map[] && roomsByName == map[]
    {
      rooms, adj, roomsByName := map[], map[], map[];
    }

    /** `get_room`: the room with this id, or `None`. */
    function GetRoom(id: Id): (r: Option<RoomView<Id>>)
      requires Valid()
      reads this
      ensures r.None? <==> id !in rooms
      ensures r.Some? ==> r.value.id == id && r.value.name == rooms[id] && r.value.connected == adj[id]
      ensures r.Some? ==> forall n :: n in r.value.connected ==> n in rooms
    {
      if id in rooms then Some(RoomView(id, rooms[id], adj[id])) else None
    }

    /** `get_room_by_name`: the room indexed under the lower-cased query. It
        is found exactly when some room's name folds to the same key, and the
        room found is one of those. */
    function GetRoomByName(name: string): (r: Option<RoomView<Id>>)
      requires Valid()
      reads this
      ensures r.None? <==> forall id :: id in rooms ==> Lower(rooms[id]) != Lower(name)
      ensures r.Some? ==> r.value.id in rooms && Lower(r.value.name) == Lower(name)
      ensures r.Some? ==> GetRoom(r.value.id) == r
    {
      var key := Lower(name);
      if key in roomsByName then GetRoom(roomsByName[key]) else None
    }

    /** `add_room`: fails on a duplicate id and then changes nothing;
        otherwise adds the room with no connections and indexes its name. */
    method AddRoom(id: Id, name: string) returns (r: Outcome<GraphError<Id>>)
      requires Valid()
      modifies this
      ensures Valid()
      ensures r == (if id in old(rooms) then Fail(DuplicateRoom(id)) else Pass)
      ensures r.Fail? ==> rooms == old(rooms) && adj == old(adj) && roomsByName == old(roomsByName)
      ensures r.Pass? ==> rooms == old(rooms)[id := name]
      ensures r.Pass? ==> adj == AddVertex(old(adj), id)
      ensures r.Pass? ==> roomsByName == old(roomsByName)[Lower(name) := id]
      ensures r.Pass? ==> GetRoom(id) == Some(RoomView(id, name, []))
      ensures r.Pass? ==> GetRoomByName(name) == GetRoom(id)
      ensures r.Pass? ==> forall other :: other in old(rooms) ==> GetRoom(other) == old(GetRoom(other))
    {
      if id in rooms {
        return Fail(DuplicateRoom(id));
      }
      ConsistentAfterAdd(rooms, adj, roomsByName, id, name);
      rooms := rooms[id := name];
      adj := AddVertex(adj, id);
      roomsByName := roomsByName[Lower(name) := id];
      assert Consistent(rooms, adj, roomsByName);
      forall other | other in old(rooms)
        ensures GetRoom(other) == Some(RoomView(other, old(rooms)[other], old(adj)[other]))
      {
        assert other != id;
      }
      r := Pass;
    }

    /** `connect_rooms`: fails when either room is missing and then changes
        nothing; otherwise appends each id to the other's list. */
    method ConnectRooms(id1: Id, id2: Id) returns (r: Outcome<GraphError<Id>>)
      requires Valid()
      modifies this`adj
      ensures Valid()
      ensures r == (if id1 in rooms && id2 in rooms then Pass else Fail(MissingRooms))
      ensures r.Fail? ==> adj == old(adj)
      ensures r.Pass? ==> adj == Link(old(adj), id1, id2)
    {
      if id1 !in rooms || id2 !in rooms {
        return Fail(MissingRooms);
      }
      ghost var before := adj;
      ConsistentAfterLink(rooms, adj, roomsByName, id1, id2);
      adj := adj[id1 := adj[id1] + [id2]];
      adj := adj[id2 := adj[id2] + [id1]];
      assert adj == Link(before, id1, id2);
      assert Consistent(rooms, adj, roomsByName);
      r := Pass;
    }

    /** `get_connections`: the names of the connected rooms, one per list
        entry and in the order the edges were added; unknown ids fail. */
    function GetConnections(id: Id): (r: Result<seq<string>, GraphError<Id>>)
      requires Valid()
      reads this
      ensures r.Failure? <==> id !in rooms
      ensures r.Failure? ==> r.error == RoomNotFound(id)
      ensures r.Success? ==> |r.value| == |adj[id]|
      ensures r.Success? ==> forall i :: 0 <= i < |r.value| ==> r.value[i] == rooms[adj[id][i]]
    {
      if id !in rooms then Failure(RoomNotFound(id)) else Success(NeighbourNames(rooms, adj[id]))
    }

    /** `find_shortest_path`: fails when either room is missing; otherwise
        returns a shortest simple path from `start` to `end`, or `None`
        exactly when `end` cannot be reached. */
    method FindShortestPath(start: Id, end: Id) returns (r: Result<Option<seq<Id>>, GraphError<Id>>)
      requires Valid()
      ensures r.Failure? <==> start !in rooms || end !in rooms
      ensures r.Failure? ==> r.error == MissingRooms
      ensures r.Success? ==> (r.value.None? <==> !Reachable(adj, start, end))
      ensures r.Success? && r.value.Some? ==> ShortestPath(adj, start, end, r.value.value) && Simple(r.value.value)
      ensures start == end && start in rooms ==> r == Success(Some([start]))
    {
      if start !in rooms || end !in rooms {
        return Failure(MissingRooms);
      }
      var g := adj;
      var queue: seq<Bfs.Entry<Id>> := [(start, [start])];
      var visited: set<Id> := {};
      Bfs.InitialInvariant(g, start, end);
      while queue != []
        invariant Bfs.Invariant(g, start, end, visited, queue)
        decreases g.Keys - visited, |queue|
      {
        ghost var before := queue;
        var (current, path) := queue[0];
        queue := queue[1..];
        if current == end {
          Bfs.FoundIsShortest(g, start, end, visited, before);
          if start == end {
            SelfPathIsShortest(g, start, path);
          }
          return Success(Some(path));
        }
        if current in visited {
          Bfs.SkipStep(g, start, end, visited, before);
          continue;
        }
        assert Bfs.EntryOk(g, start, visited, before[0]);
        Bfs.ExpandStep(g, start, end, visited, before);
        visited := visited + {current};
        queue := Bfs.AppendUnvisited(queue, g[current], path, visited);
      }
      Bfs.ExhaustedIsUnreachable(g, start, end, visited);
      assert start != end by {
        assert PathBetween(g, start, start, [start]);
      }
      return Success(None);
    }
  }
}
