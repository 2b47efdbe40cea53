/** Result types shared by both room-graph variants. Every failure here is a
    `ValueError` raised by the Python source; the model returns it instead. */
module Outcomes {

  datatype Option<+T> = None | Some(value: T)

  /** Success or failure of an operation that returns nothing on success. */
  datatype Outcome<+E> = Pass | Fail(error: E)

  datatype Result<+R, +E> = Success(value: R) | Failure(error: E)

  /** The three places where the graph raises. */
  datatype GraphError<Id> =
    | DuplicateRoom(id: Id)   // add_room: "Room with ID .. already exists."
    | MissingRooms            // connect_rooms, find_shortest_path: "Both rooms must exist."
    | RoomNotFound(id: Id)    // get_connections: "Room with ID .. not found."

  /** What `get_room` hands back: the room's id, its name and the ids of the
      rooms in its `connected_rooms` list, in list order. */
  datatype RoomView<Id> = RoomView(id: Id, name: string, connected: seq<Id>)
}
