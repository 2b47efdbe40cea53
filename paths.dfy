/** Walks through the room graph, and the shortest-path and reachability
    notions that `find_shortest_path` is measured against. A path is a
    non-empty sequence of room ids, each one listed in its predecessor's
    `connected_rooms`; its hop count is its length minus one. */
module Paths {
  import opened Adjacency

  /** `b` is in `a`'s adjacency list. */
  ghost predicate Edge<Id>(adj: Adj<Id>, a: Id, b: Id) {
    a in adj && b in adj[a]
  }

  ghost predicate IsPath<Id>(adj: Adj<Id>, p: seq<Id>) {
    && |p| > 0
    && (forall i :: 0 <= i < |p| ==> p[i] in adj)
    && (forall i :: 0 <= i < |p| - 1 ==> Edge(adj, p[i], p[i + 1]))
  }

  ghost predicate PathBetween<Id>(adj: Adj<Id>, s: Id, t: Id, p: seq<Id>) {
    IsPath(adj, p) && p[0] == s && p[|p| - 1] == t
  }

  /** Two consecutive edges make a walk of three rooms. */
  lemma TwoHops<Id>(adj: Adj<Id>, a: Id, b: Id, c: Id)
    requires Edge(adj, a, b) && Edge(adj, b, c) && c in adj
    ensures PathBetween(adj, a, c, [a, b, c])
  {
    var p := [a, b, c];
    forall i | 0 <= i < |p| - 1 ensures Edge(adj, p[i], p[i + 1]) {
      if i == 0 {
        assert p[i] == a && p[i + 1] == b;
      }
    }
  }

  /** When `s` and `t` are not neighbours and `m` is their only common
      neighbour, a shortest path from `s` to `t` goes through `m`. */
  lemma {:induction false} OnlyMiddle<Id(!new)>(adj: Adj<Id>, s: Id, m: Id, t: Id, p: seq<Id>)
    requires ShortestPath(adj, s, t, p)
    requires PathBetween(adj, s, t, [s, m, t])
    requires s != t && !Edge(adj, s, t)
    requires forall y :: Edge(adj, s, y) && Edge(adj, y, t) ==> y == m
    ensures p == [s, m, t]
  {
    assert |p| <= 3;
    assert Edge(adj, p[0], p[1]);
    assert |p| == 3;
    assert Edge(adj, p[1], p[2]);
  }

  /** No room occurs twice. */
  ghost predicate Simple<Id>(p: seq<Id>) {
    forall i, j :: 0 <= i < j < |p| ==> p[i] != p[j]
  }

  ghost predicate Reachable<Id(!new)>(adj: Adj<Id>, s: Id, t: Id) {
    exists p :: PathBetween(adj, s, t, p)
  }

  /** `p` leads from `s` to `t` with the fewest hops of any such path. */
  ghost predicate ShortestPath<Id(!new)>(adj: Adj<Id>, s: Id, t: Id, p: seq<Id>) {
    PathBetween(adj, s, t, p) && forall q :: PathBetween(adj, s, t, q) ==> |p| <= |q|
  }

  /** A non-empty prefix of a path is a path. */
  lemma PrefixIsPath<Id>(adj: Adj<Id>, p: seq<Id>, n: nat)
    requires IsPath(adj, p) && 0 < n <= |p|
    ensures IsPath(adj, p[..n])
  {
    var front := p[..n];
    forall i | 0 <= i < |front| - 1 ensures Edge(adj, front[i], front[i + 1]) {
      assert Edge(adj, p[i], p[i + 1]);
    }
  }

  /** A set of rooms that contains `s` and every neighbour of each of its
      members contains every room reachable from `s`. */
  lemma {:induction false} ClosedSetHoldsPath<Id>(adj: Adj<Id>, closed: set<Id>, s: Id, p: seq<Id>)
    requires s in closed
    requires forall u, w :: u in closed && Edge(adj, u, w) ==> w in closed
    requires IsPath(adj, p) && p[0] == s
    ensures p[|p| - 1] in closed
  {
    if |p| > 1 {
      PrefixIsPath(adj, p, |p| - 1);
      ClosedSetHoldsPath(adj, closed, s, p[..|p| - 1]);
      assert Edge(adj, p[|p| - 2], p[|p| - 1]);
    }
  }

  /** The one-room path is the shortest path from a room to itself. */
  lemma SelfPathIsShortest<Id(!new)>(adj: Adj<Id>, s: Id, p: seq<Id>)
    requires s in adj
    requires ShortestPath(adj, s, s, p)
    ensures p == [s]
  {
    assert PathBetween(adj, s, s, [s]);
  }

  /** A room that appears in no adjacency list can be reached only from
      itself. */
  lemma UnlistedIsUnreachable<Id(!new)>(adj: Adj<Id>, s: Id, t: Id)
    requires s != t
    requires forall a :: a in adj ==> t !in adj[a]
    ensures !Reachable(adj, s, t)
  {
    forall p | PathBetween(adj, s, t, p)
      ensures Edge(adj, p[|p| - 2], p[|p| - 1])
    {
    }
  }
}
