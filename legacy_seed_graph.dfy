/** The campus graph that room_api.py builds when it is loaded, with integer
    room ids, and the connections it reports. */
module LegacyRoomApiSeed {
  import opened Outcomes
  import opened Adjacency
  import opened AdjacencyFold
  import opened LegacyRoomApi

  /** The rooms, id -> name. */
  function CampusRooms(): map<Id, string> {
    map[0 := "köket", 1 := "mount everest", 2 := "denali", 3 := "cafét",
        4 := "fuji", 5 := "mont blanc", 6 := "k2", 7 := "kilimanjaro",
        8 := "matterhorn", 9 := "sockertoppen", 10 := "kebnekaise", 11 := "akkah",
        12 := "elbrus", 13 := "makkarus", 14 := "stora skärmrummet", 15 := "korridoren",
        16 := "lilla skärmrummet", 17 := "glittertind", 18 := "helag", 19 := "berit"]
  }

  /** The `connect_rooms` calls, in the order they are made, grouped by the
      room they start from. */
  const FromKitchen: seq<(Id, Id)> := [(0, 16), (0, 14)]
  const FromSmallScreen: seq<(Id, Id)> := [(16, 14), (16, 11), (16, 15), (16, 17), (16, 8)]
  const FromLargeScreen: seq<(Id, Id)> := [(14, 15), (14, 3), (14, 12), (14, 2), (14, 18), (14, 19)]
  const FromCorridor: seq<(Id, Id)> := [(15, 3), (15, 6), (15, 4)]
  const FromCafe: seq<(Id, Id)> := [(3, 1)]

  function CampusEdges(): (r: seq<(Id, Id)>)
    ensures |r| == 17
  {
    FromKitchen + FromSmallScreen + FromLargeScreen + FromCorridor + FromCafe
  }

  /** Every call names two rooms that were added: none of them fails. */
  lemma CampusEdgesIn()
    ensures EdgesIn(Unconnected(CampusRooms()), CampusEdges())
  {}

  /** The lists after all the `connect_rooms` calls. */
  function CampusAdj(): (r: Adj<Id>)
    ensures r.Keys == CampusRooms().Keys
  {
    CampusEdgesIn();
    Connect(Unconnected(CampusRooms()), CampusEdges())
  }

  /** The seed state satisfies the graph's invariant. */
  lemma CampusConsistent()
    ensures Consistent(CampusRooms(), CampusAdj())
  {
    CampusEdgesIn();
    UnconnectedWellFormed(CampusRooms());
    ConnectKeepsWellFormed(Unconnected(CampusRooms()), CampusEdges());
  }

  /** A room's list, batch by batch. */
  lemma ListByBatches(x: Id)
    requires x in CampusRooms()
    ensures CampusAdj()[x] == Partners(FromKitchen, x) + Partners(FromSmallScreen, x)
      + Partners(FromLargeScreen, x) + Partners(FromCorridor, x) + Partners(FromCafe, x)
  {
    CampusEdgesIn();
    ConnectAppendsPartners(Unconnected(CampusRooms()), CampusEdges(), x);
    assert CampusAdj()[x] == Partners(CampusEdges(), x);
    PartnersConcat(FromKitchen + FromSmallScreen + FromLargeScreen + FromCorridor, FromCafe, x);
    PartnersConcat(FromKitchen + FromSmallScreen + FromLargeScreen, FromCorridor, x);
    PartnersConcat(FromKitchen + FromSmallScreen, FromLargeScreen, x);
    PartnersConcat(FromKitchen, FromSmallScreen, x);
  }

  /** What each batch of calls appends to room 16's list. */
  lemma KitchenCallsOfSmallScreen()
    ensures Partners(FromKitchen, 16) == [0]
  {}

  lemma OwnCallsOfSmallScreen()
    ensures Partners(FromSmallScreen, 16) == [14, 11, 15, 17, 8]
  {}

  lemma LargeScreenCallsSkipSmallScreen()
    ensures Partners(FromLargeScreen, 16) == []
  {
    NoPartners(FromLargeScreen, 16);
  }

  lemma CorridorCallsSkipSmallScreen()
    ensures Partners(FromCorridor, 16) == []
  {
    NoPartners(FromCorridor, 16);
  }

  lemma CafeCallsSkipSmallScreen()
    ensures Partners(FromCafe, 16) == []
  {
    NoPartners(FromCafe, 16);
  }

  /** Helper: five batches of which only the first two contribute; a
      sequence identity the solver needs spelled out here. */
  lemma FirstTwoBatches<T>(a: seq<T>, b: seq<T>, c: seq<T>, d: seq<T>, e: seq<T>)
    requires c == [] && d == [] && e == []
    ensures a + b + c + d + e == a + b
  {
  }

  /** The batches together. */
  lemma SmallScreenBatches()
    ensures Partners(FromKitchen, 16) + Partners(FromSmallScreen, 16) + Partners(FromLargeScreen, 16)
      + Partners(FromCorridor, 16) + Partners(FromCafe, 16) == [0, 14, 11, 15, 17, 8]
  {
    LargeScreenCallsSkipSmallScreen();
    CorridorCallsSkipSmallScreen();
    CafeCallsSkipSmallScreen();
    FirstTwoBatches(Partners(FromKitchen, 16), Partners(FromSmallScreen, 16), Partners(FromLargeScreen, 16),
      Partners(FromCorridor, 16), Partners(FromCafe, 16));
    KitchenCallsOfSmallScreen();
    OwnCallsOfSmallScreen();
    assert [0] + [14, 11, 15, 17, 8] == [0, 14, 11, 15, 17, 8];
  }

  /** Lilla skärmrummet (16) is joined, in call order, to köket, stora
      skärmrummet, akkah, korridoren, glittertind and matterhorn. */
  lemma SmallScreenList()
    ensures CampusAdj()[16] == [0, 14, 11, 15, 17, 8]
  {
    ListByBatches(16);
    SmallScreenBatches();
  }

  /** The names of those rooms. */
  lemma SmallScreenNames()
    ensures forall n :: n in [0, 14, 11, 15, 17, 8] ==> n in CampusRooms()
    ensures NeighbourNames(CampusRooms(), [0, 14, 11, 15, 17, 8])
      == ["köket", "stora skärmrummet", "akkah", "korridoren", "glittertind", "matterhorn"]
  {
  }

  /** `get_connections(16)` on the campus graph. */
  lemma SmallScreenConnections(g: RoomGraph)
    requires g.Valid() && g.rooms == CampusRooms() && g.adj == CampusAdj()
    ensures g.GetConnections(16) == Success(["köket", "stora skärmrummet", "akkah", "korridoren", "glittertind", "matterhorn"])
  {
    SmallScreenList();
    SmallScreenNames();
    assert g.adj[16] == [0, 14, 11, 15, 17, 8];
  }
}
