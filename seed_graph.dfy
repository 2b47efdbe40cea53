/** The campus graph that api/room_api.py builds when it is loaded: twenty
    rooms and seventeen connections, stated as the value the `add_room` and
    `connect_rooms` calls produce, and the answers it gives. */
module RoomApiSeed {
  import opened Outcomes
  import opened CaseFold
  import opened Adjacency
  import opened AdjacencyFold
  import opened Paths
  import opened RoomApi

  /** The rooms, id -> name. */
  function CampusRooms(): map<Id, string> {
    map["0" := "köket", "1" := "mount everest", "2" := "denali", "3" := "cafét",
        "4" := "fuji", "5" := "mont blanc", "6" := "k2", "7" := "kilimanjaro",
        "8" := "matterhorn", "9" := "sockertoppen", "10" := "kebnekaise", "11" := "akkah",
        "12" := "elbrus", "13" := "makkarus", "14" := "stora skärmrummet", "15" := "korridoren",
        "16" := "lilla skärmrummet", "17" := "glittertind", "18" := "helag", "19" := "berit"]
  }

  /** The `connect_rooms` calls, in the order they are made, grouped by the
      room they start from. */
  const FromKitchen: seq<(Id, Id)> := [("0", "16"), ("0", "14")]
  const FromSmallScreen: seq<(Id, Id)> := [("16", "14"), ("16", "11"), ("16", "15"), ("16", "17"), ("16", "8")]
  const FromLargeScreen: seq<(Id, Id)> := [("14", "15"), ("14", "3"), ("14", "12"), ("14", "2"), ("14", "18"), ("14", "19")]
  const FromCorridor: seq<(Id, Id)> := [("15", "3"), ("15", "6"), ("15", "4")]
  const FromCafe: seq<(Id, Id)> := [("3", "1")]

  function CampusEdges(): (r: seq<(Id, Id)>)
    ensures |r| == 17
  {
    FromKitchen + FromSmallScreen + FromLargeScreen + FromCorridor + FromCafe
  }

  /** The lists after all the `connect_rooms` calls. */
  function CampusAdj(): (r: Adj<Id>)
    ensures r.Keys == CampusRooms().Keys
  {
    CampusEdgesIn();
    Connect(Unconnected(CampusRooms()), CampusEdges())
  }

  /** Every call names two rooms that were added: none of them fails. */
  lemma CampusEdgesIn()
    ensures EdgesIn(Unconnected(CampusRooms()), CampusEdges())
  {}

  /** The seed state satisfies the graph's invariant: the lists are
      well formed, and the names can be indexed. */
  lemma CampusConsistent()
    ensures WellFormed(CampusAdj())
    ensures exists byName :: Consistent(CampusRooms(), CampusAdj(), byName)
  {
    CampusEdgesIn();
    UnconnectedWellFormed(CampusRooms());
    ConnectKeepsWellFormed(Unconnected(CampusRooms()), CampusEdges());
    IndexExists(CampusRooms(), CampusAdj());
  }

  /** Room `y` is in room `x`'s list exactly when a call joined them. */
  lemma CampusNeighbour(x: Id, y: Id)
    requires x in CampusRooms()
    ensures y in CampusAdj()[x] <==> (x, y) in CampusEdges() || (y, x) in CampusEdges()
  {
    CampusEdgesIn();
    ConnectAppendsPartners(Unconnected(CampusRooms()), CampusEdges(), x);
    PartnersMembers(CampusEdges(), x, y);
  }

  /** The calls that join köket ("0") to something join it to lilla
      skärmrummet ("16") or stora skärmrummet ("14"). */
  lemma KitchenCalls(y: Id)
    requires ("0", y) in CampusEdges() || (y, "0") in CampusEdges()
    ensures y == "16" || y == "14"
  {}

  /** The calls that join cafét ("3") to something join it to stora
      skärmrummet ("14"), korridoren ("15") or mount everest ("1"). */
  lemma CafeCalls(y: Id)
    requires (y, "3") in CampusEdges() || ("3", y) in CampusEdges()
    ensures y == "14" || y == "15" || y == "1"
  {}

  /** No call names mont blanc ("5"). */
  lemma NoCallNamesMontBlanc()
    ensures forall e :: e in CampusEdges() ==> e.0 != "5" && e.1 != "5"
  {}

  /** köket ("0"), stora skärmrummet ("14"), cafét ("3") is a walk. */
  lemma KitchenCafeWalk()
    ensures PathBetween(CampusAdj(), "0", "3", ["0", "14", "3"])
  {
    assert ("0", "14") in CampusEdges() && ("14", "3") in CampusEdges();
    CampusNeighbour("0", "14");
    CampusNeighbour("14", "3");
    TwoHops(CampusAdj(), "0", "14", "3");
  }

  /** From köket ("0") the shortest way to cafét ("3") is through stora
      skärmrummet ("14"), and it is the only one of that length. */
  lemma KitchenToCafe(p: seq<Id>)
    requires ShortestPath(CampusAdj(), "0", "3", p)
    ensures p == ["0", "14", "3"]
  {
    var adj := CampusAdj();
    KitchenCafeWalk();
    assert !Edge(adj, "0", "3") by {
      CampusNeighbour("0", "3");
      if ("0", "3") in CampusEdges() || ("3", "0") in CampusEdges() {
        KitchenCalls("3");
      }
    }
    forall y | Edge(adj, "0", y) && Edge(adj, y, "3") ensures y == "14" {
      CampusNeighbour("0", y);
      CampusNeighbour(y, "3");
      KitchenCalls(y);
      CafeCalls(y);
    }
    OnlyMiddle(adj, "0", "14", "3", p);
  }

  /** Mont blanc ("5") is joined to nothing, so it cannot be reached from
      köket ("0"). */
  lemma MontBlancUnreachable()
    ensures !Reachable(CampusAdj(), "0", "5")
  {
    NoCallNamesMontBlanc();
    forall a | a in CampusAdj() ensures "5" !in CampusAdj()[a] {
      CampusNeighbour(a, "5");
    }
    UnlistedIsUnreachable(CampusAdj(), "0", "5");
  }

  /** The routes the service gives on the campus graph: köket to cafét
      through stora skärmrummet, and nothing from köket to mont blanc. */
  method CampusRoutes(g: RoomGraph) returns (toCafe: Result<Option<seq<Id>>, GraphError<Id>>,
                                             toMontBlanc: Result<Option<seq<Id>>, GraphError<Id>>)
    requires g.Valid() && g.rooms == CampusRooms() && g.adj == CampusAdj()
    ensures toCafe == Success(Some(["0", "14", "3"]))
    ensures toMontBlanc == Success(None)
  {
    toCafe := g.FindShortestPath("0", "3");
    KitchenCafeWalk();
    KitchenToCafe(toCafe.value.value);
    toMontBlanc := g.FindShortestPath("0", "5");
    MontBlancUnreachable();
  }

  /** "KÖKET" and "köket" fold to the same index key. */
  lemma KitchenFolds()
    ensures Lower("KÖKET") == Lower("köket")
  {
    LowerIgnoresCase("KÖKET", "köket");
  }

  /** `get_room_by_name` finds köket whatever the case of the query, in any
      graph that holds a room named "köket". */
  lemma KitchenByAnyCase(g: RoomGraph, id: Id)
    requires g.Valid() && id in g.rooms && g.rooms[id] == "köket"
    ensures g.GetRoomByName("KÖKET") == g.GetRoomByName("köket")
    ensures g.GetRoomByName("KÖKET").Some?
  {
    KitchenFolds();
  }
}
