/** The loop invariant of the breadth-first search in `find_shortest_path`
    and the facts that carry it from one iteration to the next.

    The search keeps a FIFO queue of `(room, path)` entries and a `visited`
    set. Each step pops the front entry; if its room is the target the path
    is returned, if the room was visited the entry is dropped, and otherwise
    the room is marked visited and each of its neighbours not yet visited is
    appended with the path extended by that neighbour. */
module Bfs {
  import opened Adjacency
  import opened Paths

  /** A queue entry: a room id and the path by which it was reached. */
  type Entry<Id> = (Id, seq<Id>)

  /** An entry holds a simple path from `s` to its room, and every room on
      that path before the last one has already been visited. */
  ghost predicate EntryOk<Id>(adj: Adj<Id>, s: Id, visited: set<Id>, e: Entry<Id>) {
    && PathBetween(adj, s, e.0, e.1)
    && Simple(e.1)
    && forall k :: 0 <= k < |e.1| - 1 ==> e.1[k] in visited
  }

  /** Path lengths along the queue never decrease, and the last entry is at
      most one room longer than the first. */
  ghost predicate Layered<Id>(queue: seq<Entry<Id>>) {
    forall i, j :: 0 <= i < j < |queue| ==> |queue[i].1| <= |queue[j].1| <= |queue[i].1| + 1
  }

  ghost predicate Enqueued<Id>(queue: seq<Entry<Id>>, w: Id) {
    exists i :: 0 <= i < |queue| && queue[i].0 == w
  }

  /** Some entry for `w` has a path of at most `n` rooms. */
  ghost predicate EnqueuedWithin<Id>(queue: seq<Entry<Id>>, w: Id, n: int) {
    exists i :: 0 <= i < |queue| && queue[i].0 == w && |queue[i].1| <= n
  }

  /** Every neighbour of a visited room is visited or waiting in the queue. */
  ghost predicate Closed<Id(!new)>(adj: Adj<Id>, visited: set<Id>, queue: seq<Entry<Id>>) {
    forall u, w :: u in visited && Edge(adj, u, w) ==> w in visited || Enqueued(queue, w)
  }

  /** Every room reachable from `s` by a path no longer than the front
      entry's is visited, or is queued with a path no longer than that one. */
  ghost predicate Frontier<Id(!new)>(adj: Adj<Id>, s: Id, visited: set<Id>, queue: seq<Entry<Id>>) {
    queue != [] ==>
      forall q :: IsPath(adj, q) && q[0] == s && |q| <= |queue[0].1| ==>
        q[|q| - 1] in visited || EnqueuedWithin(queue, q[|q| - 1], |q|)
  }

  ghost predicate Invariant<Id(!new)>(adj: Adj<Id>, s: Id, t: Id, visited: set<Id>, queue: seq<Entry<Id>>) {
    && visited <= adj.Keys
    && t !in visited
    && (forall i :: 0 <= i < |queue| ==> EntryOk(adj, s, visited, queue[i]))
    && Layered(queue)
    && (s in visited || Enqueued(queue, s))
    && Closed(adj, visited, queue)
    && Frontier(adj, s, visited, queue)
  }

  /** The queue `[(s, [s])]` with nothing visited. */
  lemma InitialInvariant<Id(!new)>(adj: Adj<Id>, s: Id, t: Id)
    requires s in adj
    ensures Invariant(adj, s, t, {}, [(s, [s])])
  {
    var queue := [(s, [s])];
    assert Enqueued(queue, s) by { assert queue[0].0 == s; }
    forall q | IsPath(adj, q) && q[0] == s && |q| <= 1
      ensures EnqueuedWithin(queue, q[|q| - 1], |q|)
    {
      assert queue[0].0 == q[|q| - 1];
    }
  }

  /** When the front entry is the target, its path is a shortest simple path. */
  lemma FoundIsShortest<Id(!new)>(adj: Adj<Id>, s: Id, t: Id, visited: set<Id>, queue: seq<Entry<Id>>)
    requires Invariant(adj, s, t, visited, queue)
    requires queue != [] && queue[0].0 == t
    ensures ShortestPath(adj, s, t, queue[0].1) && Simple(queue[0].1)
  {
    assert EntryOk(adj, s, visited, queue[0]);
    forall q | PathBetween(adj, s, t, q)
      ensures |queue[0].1| <= |q|
    {
      if |q| <= |queue[0].1| {
        var i :| 0 <= i < |queue| && queue[i].0 == t && |queue[i].1| <= |q|;
        if i > 0 {
          assert |queue[0].1| <= |queue[i].1|;
        }
      }
    }
  }

  /** When the queue runs dry, the target is out of reach. */
  lemma ExhaustedIsUnreachable<Id(!new)>(adj: Adj<Id>, s: Id, t: Id, visited: set<Id>)
    requires Invariant(adj, s, t, visited, [])
    ensures !Reachable(adj, s, t)
  {
    forall p | PathBetween(adj, s, t, p)
      ensures false
    {
      var empty: seq<Entry<Id>> := [];
      assert !Enqueued(empty, s);
      ClosedSetHoldsPath(adj, visited, s, p);
    }
  }

  /** The frontier property survives dropping the front entry and appending
      entries one room longer than it, once the front's room is visited. */
  lemma FrontierStep<Id(!new)>(adj: Adj<Id>, s: Id, visited: set<Id>, queue: seq<Entry<Id>>,
                               visited': set<Id>, queue': seq<Entry<Id>>)
    requires queue != [] && |queue[0].1| > 0 && Layered(queue) && Frontier(adj, s, visited, queue)
    requires visited <= visited' && queue[0].0 in visited'
    requires |queue'| >= |queue| - 1 && queue'[..|queue| - 1] == queue[1..]
    requires Layered(queue') && Closed(adj, visited', queue')
    requires forall j :: 0 <= j < |queue'| ==> |queue[0].1| <= |queue'[j].1| <= |queue[0].1| + 1
    ensures Frontier(adj, s, visited', queue')
  {
    if queue' != [] {
      var m := |queue[0].1|;
      forall q | IsPath(adj, q) && q[0] == s && |q| <= |queue'[0].1|
        ensures q[|q| - 1] in visited' || EnqueuedWithin(queue', q[|q| - 1], |q|)
      {
        var w := q[|q| - 1];
        if |q| <= m {
          if w !in visited' {
            var i :| 0 <= i < |queue| && queue[i].0 == w && |queue[i].1| <= |q|;
            assert i > 0;
            assert queue'[i - 1] == queue[i];
          }
        } else {
          PrefixIsPath(adj, q, |q| - 1);
          var u := q[|q| - 2];
          assert q[..|q| - 1][|q| - 2] == u;
          assert u in visited';
          assert Edge(adj, u, w);
          if w !in visited' {
            var j :| 0 <= j < |queue'| && queue'[j].0 == w;
            assert |queue'[j].1| <= |q|;
          }
        }
      }
    }
  }

  /** Dropping a front entry whose room was already visited. */
  lemma SkipStep<Id(!new)>(adj: Adj<Id>, s: Id, t: Id, visited: set<Id>, queue: seq<Entry<Id>>)
    requires Invariant(adj, s, t, visited, queue)
    requires queue != [] && queue[0].0 in visited
    ensures Invariant(adj, s, t, visited, queue[1..])
  {
    var rest := queue[1..];
    forall i | 0 <= i < |rest| ensures EntryOk(adj, s, visited, rest[i]) {
      assert rest[i] == queue[i + 1];
    }
    assert Layered(rest) by {
      forall i, j | 0 <= i < j < |rest|
        ensures |rest[i].1| <= |rest[j].1| <= |rest[i].1| + 1
      {
        assert rest[i] == queue[i + 1] && rest[j] == queue[j + 1];
      }
    }
    forall w | w !in visited && Enqueued(queue, w) ensures Enqueued(rest, w) {
      var i :| 0 <= i < |queue| && queue[i].0 == w;
      assert i > 0 && rest[i - 1] == queue[i];
    }
    forall j | 0 <= j < |rest|
      ensures |queue[0].1| <= |rest[j].1| <= |queue[0].1| + 1
    {
      assert rest[j] == queue[j + 1];
    }
    FrontierStep(adj, s, visited, queue, visited, rest);
  }

  /** The conditions under which `queue'` is `queue` with its front entry
      popped and the unvisited neighbours of the front room appended, each
      with the front path extended by it, in some order and possibly more
      than once. */
  ghost predicate Expanded<Id>(adj: Adj<Id>, visited: set<Id>, queue: seq<Entry<Id>>, queue': seq<Entry<Id>>)
    requires queue != [] && queue[0].0 in adj
  {
    && |queue'| >= |queue| - 1
    && queue'[..|queue| - 1] == queue[1..]
    && (forall k :: |queue| - 1 <= k < |queue'| ==>
          && queue'[k].0 in adj[queue[0].0]
          && queue'[k].0 !in visited + {queue[0].0}
          && queue'[k].1 == queue[0].1 + [queue'[k].0])
  }

  /** Each room of `ns` is visited or enqueued. */
  ghost predicate Covers<Id>(visited: set<Id>, queue: seq<Entry<Id>>, ns: seq<Id>) {
    forall k :: 0 <= k < |ns| ==> ns[k] in visited || Enqueued(queue, ns[k])
  }

  /** Every entry of `e` is a room of `ns` outside `visited`, paired with
      `path` extended by that room. */
  ghost predicate ExtendsWith<Id>(e: seq<Entry<Id>>, ns: seq<Id>, path: seq<Id>, visited: set<Id>) {
    forall k :: 0 <= k < |e| ==> e[k].0 in ns && e[k].0 !in visited && e[k].1 == path + [e[k].0]
  }

  /** The queue entries one expansion adds: for each room of `ns` outside
      `visited`, taken in the order of `ns`, that room paired with `path`
      extended by it. At most one entry per list position. */
  function Extensions<Id>(ns: seq<Id>, path: seq<Id>, visited: set<Id>): (r: seq<Entry<Id>>)
    ensures |r| <= |ns|
  {
    if ns == [] then []
    else
      var w := ns[|ns| - 1];
      Extensions(ns[..|ns| - 1], path, visited) + (if w in visited then [] else [(w, path + [w])])
  }

  /** Each appended entry is an unvisited room of `ns` with `path` extended
      by it, and each unvisited room of `ns` gets an entry. */
  lemma {:induction false} ExtensionsShape<Id>(ns: seq<Id>, path: seq<Id>, visited: set<Id>)
    ensures ExtendsWith(Extensions(ns, path, visited), ns, path, visited)
    ensures Covers(visited, Extensions(ns, path, visited), ns)
  {
    if ns != [] {
      var front, w := ns[..|ns| - 1], ns[|ns| - 1];
      ExtensionsShape(front, path, visited);
      var e0 := Extensions(front, path, visited);
      var e := Extensions(ns, path, visited);
      assert e == e0 + (if w in visited then [] else [(w, path + [w])]);
      forall k | 0 <= k < |e|
        ensures e[k].0 in ns && e[k].0 !in visited && e[k].1 == path + [e[k].0]
      {
        if k < |e0| {
          assert e[k] == e0[k];
          assert e0[k].0 in front && e0[k].0 !in visited && e0[k].1 == path + [e0[k].0];
          assert e0[k].0 in ns;
        } else {
          assert e[k] == (w, path + [w]);
        }
      }
      forall k | 0 <= k < |ns|
        ensures ns[k] in visited || Enqueued(e, ns[k])
      {
        if k < |front| {
          assert front[k] == ns[k];
          if ns[k] !in visited {
            var i :| 0 <= i < |e0| && e0[i].0 == ns[k];
            assert e[i] == e0[i];
          }
        } else if w !in visited {
          assert e[|e| - 1].0 == w;
        }
      }
    }
  }

  /** The loop of `find_shortest_path` that enqueues the unvisited
      neighbours of the room just visited. */
  method AppendUnvisited<Id(==)>(queue: seq<Entry<Id>>, ns: seq<Id>, path: seq<Id>, visited: set<Id>)
    returns (r: seq<Entry<Id>>)
    ensures r == queue + Extensions(ns, path, visited)
  {
    r := queue;
    for i := 0 to |ns|
      invariant r == queue + Extensions(ns[..i], path, visited)
    {
      assert ns[..i + 1][..i] == ns[..i];
      if ns[i] !in visited {
        r := r + [(ns[i], path + [ns[i]])];
      }
    }
    assert ns[..|ns|] == ns;
  }

  lemma ExpandEntries<Id>(adj: Adj<Id>, s: Id, visited: set<Id>, queue: seq<Entry<Id>>, queue': seq<Entry<Id>>)
    requires NoDangling(adj)
    requires queue != [] && queue[0].0 in adj && Expanded(adj, visited, queue, queue')
    requires forall i :: 0 <= i < |queue| ==> EntryOk(adj, s, visited, queue[i])
    ensures forall i :: 0 <= i < |queue'| ==> EntryOk(adj, s, visited + {queue[0].0}, queue'[i])
  {
    var v, path := queue[0].0, queue[0].1;
    var visited' := visited + {v};
    var n := |queue| - 1;
    assert EntryOk(adj, s, visited, queue[0]);
    forall i | 0 <= i < |queue'| ensures EntryOk(adj, s, visited', queue'[i]) {
      if i < n {
        assert queue'[i] == queue'[..n][i] == queue[i + 1];
        assert EntryOk(adj, s, visited, queue[i + 1]);
      } else {
        NewEntryOk(adj, s, visited, path, queue'[i].0);
        assert queue'[i] == (queue'[i].0, path + [queue'[i].0]);
      }
    }
  }

  /** Extending an entry's path by an unvisited neighbour of its room. */
  lemma NewEntryOk<Id>(adj: Adj<Id>, s: Id, visited: set<Id>, path: seq<Id>, w: Id)
    requires NoDangling(adj)
    requires |path| > 0 && EntryOk(adj, s, visited, (path[|path| - 1], path))
    requires w in adj[path[|path| - 1]] && w !in visited + {path[|path| - 1]}
    ensures EntryOk(adj, s, visited + {path[|path| - 1]}, (w, path + [w]))
  {
    var p := path + [w];
    var m := |path|;
    assert Edge(adj, path[m - 1], w);
    assert IsPath(adj, p) by {
      forall k | 0 <= k < |p| - 1 ensures Edge(adj, p[k], p[k + 1]) {
        if k < m - 1 { assert Edge(adj, path[k], path[k + 1]); }
      }
    }
    assert Simple(p) by {
      forall a, b | 0 <= a < b < |p| ensures p[a] != p[b] {
        if b == m {
          assert p[a] == path[a];
          assert a < m - 1 ==> path[a] in visited;
        }
      }
    }
  }

  lemma ExpandLayers<Id>(adj: Adj<Id>, visited: set<Id>, queue: seq<Entry<Id>>, queue': seq<Entry<Id>>)
    requires queue != [] && queue[0].0 in adj && Expanded(adj, visited, queue, queue')
    requires Layered(queue)
    ensures Layered(queue')
    ensures forall i :: 0 <= i < |queue'| ==> |queue[0].1| <= |queue'[i].1| <= |queue[0].1| + 1
  {
    var m := |queue[0].1|;
    var n := |queue| - 1;
    forall i | 0 <= i < |queue'|
      ensures m <= |queue'[i].1| <= m + 1
    {
      if i < n {
        assert queue'[i] == queue'[..n][i] == queue[i + 1];
      }
    }
    forall i, j | 0 <= i < j < |queue'|
      ensures |queue'[i].1| <= |queue'[j].1| <= |queue'[i].1| + 1
    {
      if j < n {
        assert queue'[i] == queue'[..n][i] == queue[i + 1];
        assert queue'[j] == queue'[..n][j] == queue[j + 1];
      }
    }
  }

  /** Popping the front entry and appending `Extensions` of its room's
      neighbours has the shape `ExpandKeeps` relies on. */
  lemma ExtensionsExpand<Id>(adj: Adj<Id>, visited: set<Id>, queue: seq<Entry<Id>>)
    requires queue != [] && queue[0].0 in adj
    ensures var v := queue[0].0;
      var queue' := queue[1..] + Extensions(adj[v], queue[0].1, visited + {v});
      Expanded(adj, visited, queue, queue') && Covers(visited + {v}, queue', adj[v])
  {
    var v := queue[0].0;
    var visited' := visited + {v};
    var added := Extensions(adj[v], queue[0].1, visited');
    var queue' := queue[1..] + added;
    var n := |queue| - 1;
    ExtensionsShape(adj[v], queue[0].1, visited');
    assert queue'[..n] == queue[1..];
    forall k | n <= k < |queue'|
      ensures queue'[k].0 in adj[v] && queue'[k].0 !in visited' && queue'[k].1 == queue[0].1 + [queue'[k].0]
    {
      assert queue'[k] == added[k - n];
      assert added[k - n].0 in adj[v] && added[k - n].0 !in visited' && added[k - n].1 == queue[0].1 + [added[k - n].0];
    }
    forall k | 0 <= k < |adj[v]| && adj[v][k] !in visited'
      ensures Enqueued(queue', adj[v][k])
    {
      var i :| 0 <= i < |added| && added[i].0 == adj[v][k];
      assert queue'[n + i] == added[i];
    }
  }

  /** Visiting the front entry's room and appending its unvisited
      neighbours keeps the invariant, whatever order they come in. */
  lemma ExpandKeeps<Id(!new)>(adj: Adj<Id>, s: Id, t: Id, visited: set<Id>, queue: seq<Entry<Id>>,
                              queue': seq<Entry<Id>>)
    requires NoDangling(adj)
    requires Invariant(adj, s, t, visited, queue)
    requires queue != [] && queue[0].0 in adj && queue[0].0 !in visited && queue[0].0 != t
    requires Expanded(adj, visited, queue, queue')
    requires Covers(visited + {queue[0].0}, queue', adj[queue[0].0])
    ensures Invariant(adj, s, t, visited + {queue[0].0}, queue')
  {
    var v := queue[0].0;
    var visited' := visited + {v};
    var n := |queue| - 1;
    assert EntryOk(adj, s, visited, queue[0]);
    ExpandEntries(adj, s, visited, queue, queue');
    ExpandLayers(adj, visited, queue, queue');
    forall w | w !in visited && Enqueued(queue, w) ensures w == v || Enqueued(queue', w) {
      var i :| 0 <= i < |queue| && queue[i].0 == w;
      if i > 0 {
        assert queue'[i - 1] == queue'[..n][i - 1] == queue[i];
      }
    }
    assert Closed(adj, visited', queue');
    FrontierStep(adj, s, visited, queue, visited', queue');
  }

  /** One step of the search that visits the front entry's room. */
  lemma ExpandStep<Id(!new)>(adj: Adj<Id>, s: Id, t: Id, visited: set<Id>, queue: seq<Entry<Id>>)
    requires NoDangling(adj)
    requires Invariant(adj, s, t, visited, queue)
    requires queue != [] && queue[0].0 in adj && queue[0].0 !in visited && queue[0].0 != t
    ensures var v := queue[0].0;
      Invariant(adj, s, t, visited + {v}, queue[1..] + Extensions(adj[v], queue[0].1, visited + {v}))
  {
    ExtensionsExpand(adj, visited, queue);
    var v := queue[0].0;
    ExpandKeeps(adj, s, t, visited, queue, queue[1..] + Extensions(adj[v], queue[0].1, visited + {v}));
  }
}
