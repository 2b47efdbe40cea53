/** The older room graph (room_api.py): integer room ids, no name index and
    no path search; otherwise the same room and connection bookkeeping. */
module LegacyRoomApi {
  import opened Outcomes
  import opened Adjacency

  type Id = int

  /** One adjacency list per room, no dangling ids, symmetric
      multiplicities. */
  ghost predicate Consistent(names: map<Id, string>, adj: Adj<Id>) {
    adj.Keys == names.Keys && WellFormed(adj)
  }

  class RoomGraph {
    /** `rooms`: id -> the room's name. */
    var rooms: map<Id, string>
    /** id -> the ids in the room's `connected_rooms`, in insertion order. */
    var adj: map<Id, seq<Id>>

    ghost predicate Valid()
      reads this
    {
      Consistent(rooms, adj)
    }

    constructor ()
      ensures Valid()
      ensures rooms == map[] && adj == map[]
    {
      rooms, adj := map[], map[];
    }

    /** `add_room`: fails on a duplicate id and then changes nothing;
        otherwise adds the room with no connections. */
    method AddRoom(id: Id, name: string) returns (r: Outcome<GraphError<Id>>)
      requires Valid()
      modifies this
      ensures Valid()
      ensures r == (if id in old(rooms) then Fail(DuplicateRoom(id)) else Pass)
      ensures r.Fail? ==> rooms == old(rooms) && adj == old(adj)
      ensures r.Pass? ==> rooms == old(rooms)[id := name]
      ensures r.Pass? ==> adj == AddVertex(old(adj), id)
      ensures r.Pass? ==> GetRoom(id) == Some(RoomView(id, name, []))
      ensures r.Pass? ==> forall other :: other in old(rooms) ==> GetRoom(other) == old(GetRoom(other))
    {
      if id in rooms {
        return Fail(DuplicateRoom(id));
      }
      AddVertexKeepsWellFormed(adj, id);
      rooms := rooms[id := name];
      adj := AddVertex(adj, id);
      assert Consistent(rooms, adj);
      r := Pass;
    }

    /** `get_room`: the room with this id, or `None`. */
    function GetRoom(id: Id): (r: Option<RoomView<Id>>)
      requires Valid()
      reads this
      ensures r.None? <==> id !in rooms
      ensures r.Some? ==> r.value.id == id && r.value.name == rooms[id] && r.value.connected == adj[id]
      ensures r.Some? ==> forall n :: n in r.value.connected ==> n in rooms
    {
      if id in rooms then Some(RoomView(id, rooms[id], adj[id])) else None
    }

    /** `connect_rooms`: fails when either room is missing and then changes
        nothing; otherwise appends each id to the other's list, with no guard
        against self-loops or repeated edges. */
    method ConnectRooms(id1: Id, id2: Id) returns (r: Outcome<GraphError<Id>>)
      requires Valid()
      modifies this`adj
      ensures Valid()
      ensures r == (if id1 in rooms && id2 in rooms then Pass else Fail(MissingRooms))
      ensures r.Fail? ==> adj == old(adj)
      ensures r.Pass? ==> adj == Link(old(adj), id1, id2)
    {
      if id1 !in rooms || id2 !in rooms {
        return Fail(MissingRooms);
      }
      ghost var before := adj;
      LinkKeepsWellFormed(adj, id1, id2);
      LinkAppends(adj, id1, id2);
      adj := adj[id1 := adj[id1] + [id2]];
      adj := adj[id2 := adj[id2] + [id1]];
      assert adj == Link(before, id1, id2);
      assert Consistent(rooms, adj);
      r := Pass;
    }

    /** `get_connections`: the names of the connected rooms, one per list
        entry and in the order the edges were added; unknown ids fail. */
    function GetConnections(id: Id): (r: Result<seq<string>, GraphError<Id>>)
      requires Valid()
      reads this
      ensures r.Failure? <==> id !in rooms
      ensures r.Failure? ==> r.error == RoomNotFound(id)
      ensures r.Success? ==> |r.value| == |adj[id]|
      ensures r.Success? ==> forall i :: 0 <= i < |r.value| ==> r.value[i] == rooms[adj[id][i]]
    {
      if id !in rooms then Failure(RoomNotFound(id)) else Success(NeighbourNames(rooms, adj[id]))
    }
  }
}
