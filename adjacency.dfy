/** The adjacency lists of a room graph, generic in the type of room ids.
    `adj[a]` is the list of ids in room `a`'s `connected_rooms`, in the order
    the edges were added; duplicates and self-loops are kept as the source
    keeps them. */
module Adjacency {

  type Adj<Id> = map<Id, seq<Id>>

  /** Every id in any list names a room of the graph. */
  ghost predicate NoDangling<Id>(adj: Adj<Id>) {
    forall a, b :: a in adj && b in adj[a] ==> b in adj
  }

  /** The number of times `b` occurs in `a`'s list equals the number of
      times `a` occurs in `b`'s list. */
  ghost predicate Symmetric<Id>(adj: Adj<Id>) {
    forall a, b :: a in adj && b in adj ==> multiset(adj[a])[b] == multiset(adj[b])[a]
  }

  ghost predicate WellFormed<Id>(adj: Adj<Id>) {
    NoDangling(adj) && Symmetric(adj)
  }

  /** A new room with an empty `connected_rooms` list. */
  function AddVertex<Id>(adj: Adj<Id>, id: Id): (r: Adj<Id>)
  {
    adj[id := []]
  }

  /** `room1.add_connection(room2); room2.add_connection(room1)`: two
      appends, the second one seeing the first (so `Link(adj, a, a)` appends
      `a` twice to the same list). */
  function Link<Id>(adj: Adj<Id>, a: Id, b: Id): (r: Adj<Id>)
    requires a in adj && b in adj
    ensures r.Keys == adj.Keys
  {
    var first := adj[a := adj[a] + [b]];
    first[b := first[b] + [a]]
  }

  lemma AddVertexKeepsWellFormed<Id>(adj: Adj<Id>, id: Id)
    requires WellFormed(adj) && id !in adj
    ensures WellFormed(AddVertex(adj, id))
    ensures AddVertex(adj, id).Keys == adj.Keys + {id}
    ensures forall k :: k in adj ==> AddVertex(adj, id)[k] == adj[k]
  {
    var r := AddVertex(adj, id);
    forall a, b | a in r && b in r
      ensures multiset(r[a])[b] == multiset(r[b])[a]
    {
      if a == id || b == id {
        assert multiset(r[id]) == multiset{};
        assert a != id ==> b !in adj[a];
        assert b != id ==> a !in adj[b];
      }
    }
  }

  /** Where `Link` appends: `b` at the end of `a`'s list and `a` at the end of
      `b`'s list, and every other list is untouched. */
  lemma LinkAppends<Id>(adj: Adj<Id>, a: Id, b: Id)
    requires a in adj && b in adj
    ensures Link(adj, a, b).Keys == adj.Keys
    ensures a != b ==> Link(adj, a, b)[a] == adj[a] + [b] && Link(adj, a, b)[b] == adj[b] + [a]
    ensures a == b ==> Link(adj, a, b)[a] == adj[a] + [a, a]
    ensures forall c :: c in adj && c != a && c != b ==> Link(adj, a, b)[c] == adj[c]
  {
  }

  /** How many times `y` occurs in `x`'s list after `Link(adj, a, b)`: one
      more for the pair (a, b), one more for the pair (b, a). */
  lemma LinkCount<Id>(adj: Adj<Id>, a: Id, b: Id, x: Id, y: Id)
    requires a in adj && b in adj && x in adj
    ensures multiset(Link(adj, a, b)[x])[y] ==
      multiset(adj[x])[y] + (if x == a && y == b then 1 else 0) + (if x == b && y == a then 1 else 0)
  {
    LinkAppends(adj, a, b);
    if a == b && x == a {
      assert Link(adj, a, b)[x] == adj[x] + [a] + [a];
    } else if x == a {
      assert Link(adj, a, b)[x] == adj[x] + [b];
    } else if x == b {
      assert Link(adj, a, b)[x] == adj[x] + [a];
    }
  }

  lemma LinkKeepsNoDangling<Id>(adj: Adj<Id>, a: Id, b: Id)
    requires NoDangling(adj) && a in adj && b in adj
    ensures NoDangling(Link(adj, a, b))
  {
    var r := Link(adj, a, b);
    LinkAppends(adj, a, b);
    forall x, y | x in r && y in r[x]
      ensures y in r
    {
      if x == a || x == b {
        assert y in adj[x] || y == a || y == b;
      }
    }
  }

  lemma LinkKeepsSymmetric<Id>(adj: Adj<Id>, a: Id, b: Id)
    requires Symmetric(adj) && a in adj && b in adj
    ensures Symmetric(Link(adj, a, b))
  {
    var r := Link(adj, a, b);
    assert r.Keys == adj.Keys;
    forall x, y | x in r && y in r
      ensures multiset(r[x])[y] == multiset(r[y])[x]
    {
      LinkCount(adj, a, b, x, y);
      LinkCount(adj, a, b, y, x);
    }
  }

  lemma LinkKeepsWellFormed<Id>(adj: Adj<Id>, a: Id, b: Id)
    requires WellFormed(adj) && a in adj && b in adj
    ensures WellFormed(Link(adj, a, b))
  {
    LinkKeepsNoDangling(adj, a, b);
    LinkKeepsSymmetric(adj, a, b);
  }

  /** `[r.name for r in room.connected_rooms]`: the names of the listed
      rooms, one per list entry, in list order. */
  function NeighbourNames<Id>(names: map<Id, string>, ns: seq<Id>): (r: seq<string>)
    requires forall n :: n in ns ==> n in names
    ensures |r| == |ns|
    ensures forall i :: 0 <= i < |ns| ==> r[i] == names[ns[i]]
  {
    seq(|ns|, i requires 0 <= i < |ns| => names[ns[i]])
  }

  /** After an edge a-b is added, `a`'s names gain exactly the name of `b`
      at the end (and, for a self-loop, its own name twice). */
  lemma NeighbourNamesAfterLink<Id>(names: map<Id, string>, adj: Adj<Id>, a: Id, b: Id)
    requires adj.Keys == names.Keys && NoDangling(adj) && a in adj && b in adj
    ensures NoDangling(Link(adj, a, b))
    ensures a != b ==> NeighbourNames(names, Link(adj, a, b)[a]) == NeighbourNames(names, adj[a]) + [names[b]]
    ensures a != b ==> NeighbourNames(names, Link(adj, a, b)[b]) == NeighbourNames(names, adj[b]) + [names[a]]
    ensures a == b ==> NeighbourNames(names, Link(adj, a, b)[a]) == NeighbourNames(names, adj[a]) + [names[a], names[a]]
  {
    LinkAppends(adj, a, b);
  }
}

module AdjacencyFold {
  import opened Adjacency

  /** Every endpoint of every edge is a room of the graph. */
  ghost predicate EdgesIn<Id>(adj: Adj<Id>, edges: seq<(Id, Id)>) {
    forall e :: e in edges ==> e.0 in adj && e.1 in adj
  }

  lemma EdgesInAfterLink<Id>(adj: Adj<Id>, edges: seq<(Id, Id)>)
    requires EdgesIn(adj, edges) && edges != []
    ensures EdgesIn(Link(adj, edges[0].0, edges[0].1), edges[1..])
  {
    LinkAppends(adj, edges[0].0, edges[0].1);
    forall e | e in edges[1..] ensures e.0 in adj && e.1 in adj {
      assert e in edges;
    }
  }

  /** The lists just after a run of `add_room` calls that all succeed: one
      empty list per added room. */
  function Unconnected<Id>(names: map<Id, string>): (r: Adj<Id>)
    ensures r.Keys == names.Keys && forall id :: id in r ==> r[id] == []
  {
    map id | id in names :: []
  }

  /** Rooms with no connections satisfy both invariants. */
  lemma UnconnectedWellFormed<Id>(names: map<Id, string>)
    ensures WellFormed(Unconnected(names))
  {
    var r := Unconnected(names);
    forall a, b | a in r && b in r ensures multiset(r[a])[b] == multiset(r[b])[a] {
      assert r[a] == [] && r[b] == [];
    }
  }

  /** A sequence of `connect_rooms` calls that all succeed, applied in
      order. */
  function Connect<Id>(adj: Adj<Id>, edges: seq<(Id, Id)>): (r: Adj<Id>)
    requires EdgesIn(adj, edges)
    ensures r.Keys == adj.Keys
    decreases |edges|
  {
    if edges == [] then adj
    else
      Connect(Link(adj, edges[0].0, edges[0].1), edges[1..])
  }

  /** What the pair `e` appends to `x`'s list: the other end for each end
      that is `x` (so a self-loop on `x` contributes `x` twice). */
  function PartnersIn<Id(==)>(e: (Id, Id), x: Id): seq<Id> {
    (if e.0 == x then [e.1] else []) + (if e.1 == x then [e.0] else [])
  }

  lemma LinkAppendsPartners<Id>(adj: Adj<Id>, e: (Id, Id), x: Id)
    requires e.0 in adj && e.1 in adj && x in adj
    ensures Link(adj, e.0, e.1)[x] == adj[x] + PartnersIn(e, x)
  {
    LinkAppends(adj, e.0, e.1);
  }

  /** The rooms joined to `x` by `edges`, in edge order. */
  function Partners<Id(==)>(edges: seq<(Id, Id)>, x: Id): seq<Id>
    decreases |edges|
  {
    if edges == [] then [] else PartnersIn(edges[0], x) + Partners(edges[1..], x)
  }

  /** After the calls, each room's list is its old list followed by its
      partners in the order the calls were made. */
  lemma {:induction false} ConnectAppendsPartners<Id>(adj: Adj<Id>, edges: seq<(Id, Id)>, x: Id)
    requires EdgesIn(adj, edges) && x in adj
    ensures Connect(adj, edges)[x] == adj[x] + Partners(edges, x)
    decreases |edges|
  {
    if edges != [] {
      var next := Link(adj, edges[0].0, edges[0].1);
      var p0, rest := PartnersIn(edges[0], x), Partners(edges[1..], x);
      LinkAppendsPartners(adj, edges[0], x);
      EdgesInAfterLink(adj, edges);
      ConnectAppendsPartners(next, edges[1..], x);
      assert Connect(adj, edges)[x] == (adj[x] + p0) + rest;
      ConcatAssoc(adj[x], p0, rest);
    }
  }

  /** Helper: associativity of `+` on sequences, which the solver does not
      always find on its own inside the inductions below. */
  lemma ConcatAssoc<T>(a: seq<T>, b: seq<T>, c: seq<T>)
    ensures (a + b) + c == a + (b + c)
  {
  }

  /** Calls made one batch after another append one batch's partners
      after the other's. */
  lemma {:induction false} PartnersConcat<Id>(a: seq<(Id, Id)>, b: seq<(Id, Id)>, x: Id)
    ensures Partners(a + b, x) == Partners(a, x) + Partners(b, x)
    decreases |a|
  {
    if a != [] {
      assert (a + b)[0] == a[0] && (a + b)[1..] == a[1..] + b;
      assert Partners(a + b, x) == PartnersIn(a[0], x) + Partners(a[1..] + b, x);
      PartnersConcat(a[1..], b, x);
      ConcatAssoc(PartnersIn(a[0], x), Partners(a[1..], x), Partners(b, x));
    } else {
      assert a + b == b;
    }
  }

  /** `y` is a partner of `x` exactly when some call joined the two. */
  lemma {:induction false} PartnersMembers<Id>(edges: seq<(Id, Id)>, x: Id, y: Id)
    ensures y in Partners(edges, x) <==> (x, y) in edges || (y, x) in edges
    decreases |edges|
  {
    if edges != [] {
      PartnersMembers(edges[1..], x, y);
      assert edges == [edges[0]] + edges[1..];
    }
  }

  /** A room no call names has no partners. */
  lemma {:induction false} NoPartners<Id>(edges: seq<(Id, Id)>, x: Id)
    requires forall e :: e in edges ==> e.0 != x && e.1 != x
    ensures Partners(edges, x) == []
    decreases |edges|
  {
    if edges != [] {
      assert edges[0] in edges;
      NoPartners(edges[1..], x);
    }
  }

  /** The calls keep every list in the graph and the symmetry invariant. */
  lemma {:induction false} ConnectKeepsWellFormed<Id>(adj: Adj<Id>, edges: seq<(Id, Id)>)
    requires EdgesIn(adj, edges) && WellFormed(adj)
    ensures WellFormed(Connect(adj, edges))
    decreases |edges|
  {
    if edges != [] {
      LinkKeepsWellFormed(adj, edges[0].0, edges[0].1);
      LinkAppends(adj, edges[0].0, edges[0].1);
      ConnectKeepsWellFormed(Link(adj, edges[0].0, edges[0].1), edges[1..]);
    }
  }
}
