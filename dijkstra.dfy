/** Single-source shortest path by Dijkstra's algorithm on an adjacency-list
    graph with unsigned edge weights: a min-priority queue of (distance,
    node) entries that skips stale entries instead of decreasing keys, an
    early stop once the target is popped, and the path read back along the
    prev links. */
module MyDijkstra {

  /*------------------------------------------------------------------------
    Data
  ------------------------------------------------------------------------*/

  /** An outgoing edge: its target node and its weight. */
  datatype Edge = Edge(to: nat, weight: nat)

  /** graph[u] lists the edges leaving node u. */
  type Graph = seq<seq<Edge>>

  /** A priority-queue entry: a tentative distance and a node. */
  datatype Entry = Entry(d: nat, v: nat)

  /** INT_MAX, the "not reached" distance. */
  const IntMax: nat := 2147483647

  /** UINT_MAX, the largest value of the 32-bit unsigned weight type. */
  const UIntMax: nat := 4294967295

  /** The "no predecessor" mark of prev (-1 stored in an unsigned slot). */
  const NONE: int := -1

  /** Every edge leads to a node of the graph and is light enough that
      adding it to a distance below INT_MAX cannot wrap around 32 bits. */
  predicate ValidGraph(g: Graph)
  {
    forall u, k :: 0 <= u < |g| && 0 <= k < |g[u]| ==>
      g[u][k].to < |g| && g[u][k].weight <= UIntMax - IntMax
  }

  /*------------------------------------------------------------------------
    Walks and their weights
  ------------------------------------------------------------------------*/

  /** The graph has an edge from u to v of weight w. */
  ghost predicate EdgeIn(g: Graph, u: int, v: int, w: nat)
  {
    0 <= u < |g| && exists k :: 0 <= k < |g[u]| && g[u][k].to == v && g[u][k].weight == w
  }

  /** nodes is a walk through g whose k-th step uses an edge of weight ws[k]. */
  ghost predicate IsWalk(g: Graph, nodes: seq<int>, ws: seq<nat>)
  {
    |nodes| == |ws| + 1
    && forall k :: 0 <= k < |ws| ==> EdgeIn(g, nodes[k], nodes[k + 1], ws[k])
  }

  /** Total of a sequence of weights. */
  function Sum(ws: seq<nat>): nat
  {
    if ws == [] then 0 else Sum(ws[..|ws| - 1]) + ws[|ws| - 1]
  }

  /** No walk from source to target weighs less than bound. */
  ghost predicate NoShorterWalk(g: Graph, source: nat, target: nat, bound: nat)
  {
    forall nodes, ws :: IsWalk(g, nodes, ws) && nodes[0] == source && nodes[|nodes| - 1] == target
      ==> bound <= Sum(ws)
  }

  /** s back to front (std::reverse). */
  function Reversed<T>(s: seq<T>): (r: seq<T>)
    ensures |r| == |s|
    ensures forall k :: 0 <= k < |s| ==> r[k] == s[|s| - 1 - k]
  {
    if s == [] then [] else Reversed(s[1..]) + [s[0]]
  }

  lemma {:induction false} SumCons(x: nat, ws: seq<nat>)
    ensures Sum([x] + ws) == x + Sum(ws)
    decreases |ws|
  {
    if ws != [] {
      assert ([x] + ws)[..|ws|] == [x] + ws[..|ws| - 1];
      SumCons(x, ws[..|ws| - 1]);
    }
  }

  /** Reading the steps of a walk in the other order keeps its weight. */
  lemma {:induction false} SumReversed(ws: seq<nat>)
    ensures Sum(Reversed(ws)) == Sum(ws)
    decreases |ws|
  {
    if ws != [] {
      SumReversed(ws[1..]);
      assert Reversed(ws)[..|ws| - 1] == Reversed(ws[1..]);
      assert ws == [ws[0]] + ws[1..];
      SumCons(ws[0], ws[1..]);
    }
  }

  /** A walk followed backwards: if chain[k] is reached from chain[k+1]
      by an edge of weight cw[k], the reversed chain is a walk. */
  lemma ReversedChain(g: Graph, chain: seq<int>, cw: seq<nat>)
    requires |chain| == |cw| + 1
    requires forall k :: 0 <= k < |cw| ==> EdgeIn(g, chain[k + 1], chain[k], cw[k])
    ensures IsWalk(g, Reversed(chain), Reversed(cw))
    ensures Sum(Reversed(cw)) == Sum(cw)
  {
    var nodes, ws := Reversed(chain), Reversed(cw);
    forall k | 0 <= k < |ws|
      ensures EdgeIn(g, nodes[k], nodes[k + 1], ws[k])
    {
      var j := |cw| - 1 - k;
      assert nodes[k] == chain[j + 1] && nodes[k + 1] == chain[j] && ws[k] == cw[j];
    }
    SumReversed(cw);
  }

  /*------------------------------------------------------------------------
    The priority queue: a multiset of entries, popped in the order of the
    pairs (std::greater turns std::priority_queue into a min-queue)
  ------------------------------------------------------------------------*/

  /** Lexicographic order on (distance, node) pairs: a may come out of the
      queue before b exactly when std::greater does not rank a above b. */
  predicate EntryLe(a: Entry, b: Entry)
    ensures EntryLe(a, b) <==> !(a.d > b.d || (a.d == b.d && a.v > b.v))
  {
    a.d < b.d || (a.d == b.d && a.v <= b.v)
  }

  /** e is the entry pq.top() returns: it is queued and no queued entry has
      a smaller distance, nor the same distance and a smaller node. */
  predicate IsTop(e: Entry, pq: multiset<Entry>)
    ensures IsTop(e, pq) ==> e in pq && forall x :: x in pq ==> e.d <= x.d && (x.d == e.d ==> e.v <= x.v)
  {
    e in pq && forall x :: x in pq ==> EntryLe(e, x)
  }

  /** A non-empty queue has a top entry. */
  lemma {:induction false} TopExists(pq: multiset<Entry>)
    requires |pq| > 0
    ensures exists e :: IsTop(e, pq)
    decreases |pq|
  {
    var x :| x in pq;
    var rest := pq - multiset{x};
    assert pq == rest + multiset{x};
    if |rest| == 0 {
      forall y | y in pq ensures EntryLe(x, y) {
        assert y !in rest;
      }
      assert IsTop(x, pq);
    } else {
      TopExists(rest);
      var m :| IsTop(m, rest);
      var t := if EntryLe(x, m) then x else m;
      forall y | y in pq ensures EntryLe(t, y) {
        if y != x {
          assert y in rest;
          assert EntryLe(m, y);
        }
      }
      assert IsTop(t, pq);
    }
  }

  /** The top entry is unique. */
  lemma TopUnique(e: Entry, f: Entry, pq: multiset<Entry>)
    requires IsTop(e, pq) && IsTop(f, pq)
    ensures e == f
  {
    assert EntryLe(e, f) && EntryLe(f, e);
  }

  /*------------------------------------------------------------------------
    The loop invariant
  ------------------------------------------------------------------------*/

  /** The state of the main loop: dist ds, prev ps, queue pq, the settled
      nodes (the keys of rank, each with the order it was settled in, below
      clock), the largest settled distance L, and the weights pw of the
      edges the prev links stand for.  While node cur is being processed
      only its first upto edges are relaxed. */
  ghost predicate Inv(g: Graph, source: nat, ds: seq<nat>, ps: seq<int>, pq: multiset<Entry>,
                      rank: map<int, nat>, clock: nat, L: nat, pw: seq<nat>, cur: int, upto: nat)
  {
    ValidGraph(g) && |ds| == |g| && |ps| == |g| && |pw| == |g| && source < |g|
    && ds[source] == 0 && ps[source] == NONE
    && QueueOk(g, ds, pq, L)
    && SettledOk(g, ds, rank, clock, L)
    && Relaxed(g, ds, rank, cur, upto)
    && Covered(g, ds, rank, pq)
    && HasPrev(g, source, ds, ps)
    && Links(g, ds, ps, rank, pw)
  }

  /** Distances never exceed INT_MAX, and every queued entry names a node,
      is no nearer than that node's distance and no nearer than L. */
  ghost predicate QueueOk(g: Graph, ds: seq<nat>, pq: multiset<Entry>, L: nat)
    requires |ds| == |g|
  {
    (forall v :: 0 <= v < |g| ==> ds[v] <= IntMax)
    && (forall e :: e in pq ==> e.v < |g| && ds[e.v] <= e.d <= IntMax && L <= e.d)
  }

  /** Settled nodes are nodes of the graph no farther than L, ranked below
      clock. */
  ghost predicate SettledOk(g: Graph, ds: seq<nat>, rank: map<int, nat>, clock: nat, L: nat)
    requires |ds| == |g|
  {
    forall v :: v in rank ==> 0 <= v < |g| && ds[v] <= L && rank[v] < clock
  }

  /** Every edge leaving a settled node u is relaxed: its target is no
      farther than dist[u] plus its weight (only the first upto edges of
      node cur). */
  ghost predicate Relaxed(g: Graph, ds: seq<nat>, rank: map<int, nat>, cur: int, upto: nat)
    requires ValidGraph(g) && |ds| == |g|
  {
    forall u, k :: u in rank && 0 <= u < |g| && 0 <= k < |g[u]| && (u == cur ==> k < upto) ==>
      ds[g[u][k].to] <= ds[u] + g[u][k].weight
  }

  /** A node that is neither settled nor unreached has its current distance
      queued. */
  ghost predicate Covered(g: Graph, ds: seq<nat>, rank: map<int, nat>, pq: multiset<Entry>)
    requires |ds| == |g|
  {
    forall v :: 0 <= v < |g| ==> v in rank || ds[v] == IntMax || Entry(ds[v], v) in pq
  }

  /** Every reached node other than the source has a predecessor. */
  ghost predicate HasPrev(g: Graph, source: nat, ds: seq<nat>, ps: seq<int>)
    requires |ds| == |g| && |ps| == |g|
  {
    forall v :: 0 <= v < |g| && v != source && ds[v] < IntMax ==> ps[v] != NONE
  }

  /** Every prev link is a PrevLink. */
  ghost predicate Links(g: Graph, ds: seq<nat>, ps: seq<int>, rank: map<int, nat>, pw: seq<nat>)
    requires |ds| == |g| && |ps| == |g| && |pw| == |g|
  {
    forall v :: 0 <= v < |g| && ps[v] != NONE ==> PrevLink(g, ds, ps, rank, pw, v)
  }

  /** prev[v] is a settled node, settled before v if v is, with an edge to v
      of weight pw[v] that accounts for dist[v]. */
  ghost predicate PrevLink(g: Graph, ds: seq<nat>, ps: seq<int>, rank: map<int, nat>, pw: seq<nat>, v: nat)
    requires |ds| == |g| && |ps| == |g| && |pw| == |g| && v < |g|
  {
    var u := ps[v];
    0 <= u < |g| && u in rank && (v in rank ==> rank[u] < rank[v])
    && EdgeIn(g, u, v, pw[v]) && ds[u] + pw[v] <= ds[v] && ds[v] < IntMax
  }

  /** The state right after initialisation. */
  lemma Initial(g: Graph, source: nat, ds: seq<nat>, ps: seq<int>, pw: seq<nat>)
    requires ValidGraph(g) && source < |g|
    requires |ds| == |g| && |ps| == |g| && |pw| == |g|
    requires forall v :: 0 <= v < |g| ==> ds[v] == (if v == source then 0 else IntMax)
    requires forall v :: 0 <= v < |g| ==> ps[v] == NONE
    ensures Inv(g, source, ds, ps, multiset{Entry(0, source)}, map[], 0, 0, pw, NONE, 0)
  {
  }

  /** Popping a stale entry, one whose distance exceeds dist[v], keeps the
      invariant. */
  lemma SkipStale(g: Graph, source: nat, ds: seq<nat>, ps: seq<int>, pq: multiset<Entry>,
                  rank: map<int, nat>, clock: nat, L: nat, pw: seq<nat>, e: Entry)
    requires Inv(g, source, ds, ps, pq, rank, clock, L, pw, NONE, 0)
    requires e in pq && e.v < |ds| && e.d > ds[e.v]
    ensures Inv(g, source, ds, ps, pq - multiset{e}, rank, clock, L, pw, NONE, 0)
  {
    forall v | 0 <= v < |g| && v !in rank && ds[v] != IntMax
      ensures Entry(ds[v], v) in pq - multiset{e}
    {
      assert Entry(ds[v], v) != e;
    }
  }

  /** Popping the top entry (d, u) with d <= dist[u] settles u at distance d;
      its edges are then relaxed one by one. */
  lemma Settle(g: Graph, source: nat, ds: seq<nat>, ps: seq<int>, pq: multiset<Entry>,
               rank: map<int, nat>, clock: nat, L: nat, pw: seq<nat>, e: Entry)
    requires Inv(g, source, ds, ps, pq, rank, clock, L, pw, NONE, 0)
    requires IsTop(e, pq) && e.v < |ds| && e.d <= ds[e.v]
    ensures ds[e.v] == e.d
    ensures Inv(g, source, ds, ps, pq - multiset{e},
                if e.v in rank then rank else rank[e.v := clock], clock + 1, e.d, pw, e.v, 0)
  {
    var rank' := if e.v in rank then rank else rank[e.v := clock];
    var pq' := pq - multiset{e};
    assert QueueOk(g, ds, pq', e.d) by {
      forall x | x in pq'
        ensures e.d <= x.d
      {
        assert EntryLe(e, x);
      }
    }
    assert SettledOk(g, ds, rank', clock + 1, e.d);
    assert Covered(g, ds, rank', pq') by {
      forall v | 0 <= v < |g| && v !in rank' && ds[v] != IntMax
        ensures Entry(ds[v], v) in pq'
      {
        assert Entry(ds[v], v) != e;
      }
    }
    assert Links(g, ds, ps, rank', pw) by {
      forall v | 0 <= v < |g| && ps[v] != NONE
        ensures PrevLink(g, ds, ps, rank', pw, v)
      {
        assert PrevLink(g, ds, ps, rank, pw, v);
      }
    }
  }

  /** Following edge k of the node u being processed: when it lowers
      dist[v], v gets the new distance and u as its predecessor, and the
      entry for it is pushed. */
  lemma RelaxEdge(g: Graph, source: nat, ds: seq<nat>, ps: seq<int>, pq: multiset<Entry>,
                  rank: map<int, nat>, clock: nat, L: nat, pw: seq<nat>, u: nat, k: nat, v: nat, w: nat, x: nat,
                  ds': seq<nat>, ps': seq<int>, pq': multiset<Entry>, pw': seq<nat>)
    requires Inv(g, source, ds, ps, pq, rank, clock, L, pw, u, k)
    requires u in rank && ds[u] == L && k < |g[u]| && g[u][k] == Edge(v, w)
    requires x == ds[u] + w < ds[v]
    requires ds' == ds[v := x] && ps' == ps[v := u]
    requires pq' == pq + multiset{Entry(x, v)} && pw' == pw[v := w]
    ensures Inv(g, source, ds', ps', pq', rank, clock, L, pw', u, k + 1)
  {
    assert v !in rank;
    assert v != source && v != u;
    assert EdgeIn(g, u, v, w);
    QueuePush(g, ds, pq, L, v, x);
    RelaxedPush(g, ds, rank, u, k, L);
    CoveredPush(g, ds, rank, pq, v, x);
    LinksPush(g, ds, ps, rank, pw, u, v, w);
    SettledPush(g, ds, rank, clock, L, v, x);
    HasPrevPush(g, source, ds, ps, v, x, u);
  }

  lemma SettledPush(g: Graph, ds: seq<nat>, rank: map<int, nat>, clock: nat, L: nat, v: nat, x: nat)
    requires |ds| == |g| && SettledOk(g, ds, rank, clock, L) && v < |g| && v !in rank
    ensures SettledOk(g, ds[v := x], rank, clock, L)
  {
  }

  lemma HasPrevPush(g: Graph, source: nat, ds: seq<nat>, ps: seq<int>, v: nat, x: nat, u: nat)
    requires |ds| == |g| && |ps| == |g| && HasPrev(g, source, ds, ps) && v < |g|
    ensures HasPrev(g, source, ds[v := x], ps[v := u])
  {
  }

  lemma QueuePush(g: Graph, ds: seq<nat>, pq: multiset<Entry>, L: nat, v: nat, x: nat)
    requires |ds| == |g| && QueueOk(g, ds, pq, L)
    requires v < |g| && L <= x < ds[v]
    ensures QueueOk(g, ds[v := x], pq + multiset{Entry(x, v)}, L)
  {
  }

  lemma RelaxedPush(g: Graph, ds: seq<nat>, rank: map<int, nat>, u: nat, k: nat, L: nat)
    requires ValidGraph(g) && |ds| == |g| && Relaxed(g, ds, rank, u, k)
    requires u < |g| && k < |g[u]| && u in rank && ds[u] == L
    requires g[u][k].to !in rank && g[u][k].to != u
    requires ds[g[u][k].to] > ds[u] + g[u][k].weight
    ensures Relaxed(g, ds[g[u][k].to := ds[u] + g[u][k].weight], rank, u, k + 1)
  {
  }

  lemma CoveredPush(g: Graph, ds: seq<nat>, rank: map<int, nat>, pq: multiset<Entry>, v: nat, x: nat)
    requires |ds| == |g| && Covered(g, ds, rank, pq) && v < |g|
    ensures Covered(g, ds[v := x], rank, pq + multiset{Entry(x, v)})
  {
  }

  lemma LinksPush(g: Graph, ds: seq<nat>, ps: seq<int>, rank: map<int, nat>, pw: seq<nat>, u: nat, v: nat, w: nat)
    requires |ds| == |g| && |ps| == |g| && |pw| == |g| && Links(g, ds, ps, rank, pw)
    requires u < |g| && v < |g| && u in rank && v !in rank && EdgeIn(g, u, v, w)
    requires ds[u] + w < ds[v] <= IntMax
    ensures Links(g, ds[v := ds[u] + w], ps[v := u], rank, pw[v := w])
  {
    var ds', ps', pw' := ds[v := ds[u] + w], ps[v := u], pw[v := w];
    forall y | 0 <= y < |g| && ps'[y] != NONE
      ensures PrevLink(g, ds', ps', rank, pw', y)
    {
      if y != v {
        assert PrevLink(g, ds, ps, rank, pw, y);
      }
    }
  }

  /** Edge k of u that does not lower its target's distance is relaxed
      already. */
  lemma KeepEdge(g: Graph, source: nat, ds: seq<nat>, ps: seq<int>, pq: multiset<Entry>,
                 rank: map<int, nat>, clock: nat, L: nat, pw: seq<nat>, u: nat, k: nat)
    requires Inv(g, source, ds, ps, pq, rank, clock, L, pw, u, k)
    requires u < |g| && k < |g[u]|
    requires ds[g[u][k].to] <= ds[u] + g[u][k].weight
    ensures Inv(g, source, ds, ps, pq, rank, clock, L, pw, u, k + 1)
  {
  }

  /** Once all of u's edges are relaxed, u is an ordinary settled node. */
  lemma Processed(g: Graph, source: nat, ds: seq<nat>, ps: seq<int>, pq: multiset<Entry>,
                  rank: map<int, nat>, clock: nat, L: nat, pw: seq<nat>, u: nat)
    requires Inv(g, source, ds, ps, pq, rank, clock, L, pw, u, if u < |g| then |g[u]| else 0)
    ensures Inv(g, source, ds, ps, pq, rank, clock, L, pw, NONE, 0)
  {
  }

  /*------------------------------------------------------------------------
    Why the distance is the shortest one
  ------------------------------------------------------------------------*/

  /** The distance of the target after a walk is kept by the relaxed edges
      of settled nodes: either the walk's end is no nearer than dist says,
      or the walk weighs at least the frontier bound B, a lower bound of the
      distance of every node not yet settled. */
  lemma {:induction false} WalkBound(g: Graph, source: nat, ds: seq<nat>, rank: map<int, nat>, B: nat,
                                     nodes: seq<int>, ws: seq<nat>)
    requires ValidGraph(g) && |ds| == |g| && source < |g| && ds[source] == 0
    requires Relaxed(g, ds, rank, NONE, 0)
    requires forall v :: 0 <= v < |g| && v !in rank ==> B <= ds[v]
    requires IsWalk(g, nodes, ws) && nodes[0] == source
    ensures 0 <= nodes[|nodes| - 1] < |g|
    ensures ds[nodes[|nodes| - 1]] <= Sum(ws) || B <= Sum(ws)
    decreases |ws|
  {
    if ws != [] {
      var n := |ws|;
      assert IsWalk(g, nodes[..n], ws[..n - 1]) by {
        forall j | 0 <= j < n - 1
          ensures EdgeIn(g, nodes[..n][j], nodes[..n][j + 1], ws[..n - 1][j])
        {
          assert EdgeIn(g, nodes[j], nodes[j + 1], ws[j]);
        }
      }
      WalkBound(g, source, ds, rank, B, nodes[..n], ws[..n - 1]);
      var y, x, w := nodes[n - 1], nodes[n], ws[n - 1];
      assert EdgeIn(g, y, x, w);
      var k :| 0 <= k < |g[y]| && g[y][k].to == x && g[y][k].weight == w;
      if y in rank {
        assert ds[x] <= ds[y] + w;
      } else {
        assert B <= ds[y];
      }
    }
  }

  /** When the main loop ends, through an empty queue or through popping the
      target as top entry e, no walk to the target is shorter than dist. */
  lemma LoopExit(g: Graph, source: nat, end: nat, ds: seq<nat>, ps: seq<int>, pq: multiset<Entry>,
                 rank: map<int, nat>, clock: nat, L: nat, pw: seq<nat>, e: Entry)
    requires Inv(g, source, ds, ps, pq, rank, clock, L, pw, NONE, 0)
    requires end < |g|
    requires pq == multiset{} || (IsTop(e, pq) && e.v == end)
    ensures NoShorterWalk(g, source, end, ds[end])
  {
    var B := if pq == multiset{} then IntMax else e.d;
    forall v | 0 <= v < |g| && v !in rank
      ensures B <= ds[v]
    {
      if ds[v] != IntMax {
        assert Entry(ds[v], v) in pq;
        assert EntryLe(e, Entry(ds[v], v));
      }
    }
    forall nodes, ws | IsWalk(g, nodes, ws) && nodes[0] == source && nodes[|nodes| - 1] == end
      ensures ds[end] <= Sum(ws)
    {
      WalkBound(g, source, ds, rank, B, nodes, ws);
    }
  }

  /*------------------------------------------------------------------------
    Termination of the main loop: every push lowers the total of the
    distances, every pop shrinks the queue
  ------------------------------------------------------------------------*/

  function Total(ds: seq<nat>): nat
  {
    if ds == [] then 0 else Total(ds[..|ds| - 1]) + ds[|ds| - 1]
  }

  lemma {:induction false} TotalLowered(ds: seq<nat>, v: nat, x: nat)
    requires v < |ds| && x < ds[v]
    ensures Total(ds[v := x]) < Total(ds)
    decreases |ds|
  {
    var n := |ds| - 1;
    var ds' := ds[v := x];
    if v == n {
      assert ds'[..n] == ds[..n];
    } else {
      assert ds'[..n] == ds[..n][v := x];
      TotalLowered(ds[..n], v, x);
    }
  }

  /** No distance of ds exceeds the one it had in ds0. */
  ghost predicate NoneRaised(ds: seq<nat>, ds0: seq<nat>)
  {
    |ds| == |ds0| && forall v :: 0 <= v < |ds| ==> ds[v] <= ds0[v]
  }

  /** From ds0 and pq0 to ds and pq no distance went up, and either the
      total went down or nothing changed. */
  ghost predicate Progress(ds: seq<nat>, ds0: seq<nat>, pq: multiset<Entry>, pq0: multiset<Entry>)
  {
    NoneRaised(ds, ds0) && (Total(ds) < Total(ds0) || (ds == ds0 && pq == pq0))
  }

  lemma LoweredProgress(ds1: seq<nat>, ds0: seq<nat>, v: nat, x: nat, pq1: multiset<Entry>, pq0: multiset<Entry>)
    requires v < |ds0| && x < ds0[v] && ds1 == ds0[v := x]
    ensures Progress(ds1, ds0, pq1, pq0)
  {
    TotalLowered(ds0, v, x);
  }

  lemma NoProgress(ds: seq<nat>, pq: multiset<Entry>)
    ensures Progress(ds, ds, pq, pq)
  {
  }

  lemma ProgressTrans(ds2: seq<nat>, ds1: seq<nat>, ds0: seq<nat>,
                      pq2: multiset<Entry>, pq1: multiset<Entry>, pq0: multiset<Entry>)
    requires Progress(ds2, ds1, pq2, pq1) && Progress(ds1, ds0, pq1, pq0)
    ensures Progress(ds2, ds0, pq2, pq0)
  {
  }

  /** Node v after the first n edges of u, settled at distance L, were
      relaxed from ds0 and ps0: if its distance changed, u is now its
      predecessor and the distance is L plus the weight of one of those
      edges into v; otherwise its predecessor is unchanged. */
  ghost predicate FramedAt(g: Graph, u: nat, L: nat, ds0: seq<nat>, ps0: seq<int>, ds: seq<nat>, ps: seq<int>,
                           n: nat, v: nat)
    requires |ds| == |ds0| && |ps| == |ps0| == |ds| && u < |g| && n <= |g[u]| && v < |ds|
  {
    if ds[v] != ds0[v] then
      ps[v] == u && exists k :: 0 <= k < n && g[u][k].to == v && ds[v] == L + g[u][k].weight
    else ps[v] == ps0[v]
  }

  /** FramedAt holds at every node.  The quantifier fires only on FramedAt
      itself, which keeps it out of the way of the loop invariant. */
  ghost predicate Framed(g: Graph, u: nat, L: nat, ds0: seq<nat>, ps0: seq<int>, ds: seq<nat>, ps: seq<int>, n: nat)
  {
    |ds| == |ds0| && |ps| == |ps0| == |ds| && u < |g| && n <= |g[u]| &&
    forall v {:trigger FramedAt(g, u, L, ds0, ps0, ds, ps, n, v)} ::
      0 <= v < |ds| ==> FramedAt(g, u, L, ds0, ps0, ds, ps, n, v)
  }

  /** A lowering step through edge k of u keeps the frame one edge further. */
  lemma FramedLowered(g: Graph, u: nat, L: nat, ds0: seq<nat>, ps0: seq<int>, ds: seq<nat>, ps: seq<int>, k: nat,
                      ds': seq<nat>, ps': seq<int>)
    requires Framed(g, u, L, ds0, ps0, ds, ps, k) && k < |g[u]| && g[u][k].to < |ds|
    requires NoneRaised(ds, ds0) && ds[g[u][k].to] > L + g[u][k].weight
    requires ds' == ds[g[u][k].to := L + g[u][k].weight] && ps' == ps[g[u][k].to := u]
    ensures Framed(g, u, L, ds0, ps0, ds', ps', k + 1)
  {
    var v, n := g[u][k].to, k + 1;
    forall x | 0 <= x < |ds'|
      ensures FramedAt(g, u, L, ds0, ps0, ds', ps', n, x)
    {
      if x == v {
        assert ds'[x] < ds0[x];
        assert g[u][k].to == x && ds'[x] == L + g[u][k].weight;
      } else {
        assert FramedAt(g, u, L, ds0, ps0, ds, ps, k, x);
        assert ds'[x] == ds[x] && ps'[x] == ps[x];
        if ds[x] != ds0[x] {
          var j :| 0 <= j < k && g[u][j].to == x && ds[x] == L + g[u][j].weight;
          assert 0 <= j < k + 1;
        }
      }
    }
  }

  /** A step that changes nothing keeps the frame one edge further. */
  lemma FramedKept(g: Graph, u: nat, L: nat, ds0: seq<nat>, ps0: seq<int>, ds: seq<nat>, ps: seq<int>, k: nat,
                   ds': seq<nat>, ps': seq<int>)
    requires Framed(g, u, L, ds0, ps0, ds, ps, k) && k < |g[u]|
    requires ds' == ds && ps' == ps
    ensures Framed(g, u, L, ds0, ps0, ds', ps', k + 1)
  {
    var n := k + 1;
    forall x | 0 <= x < |ds|
      ensures FramedAt(g, u, L, ds0, ps0, ds, ps, n, x)
    {
      assert FramedAt(g, u, L, ds0, ps0, ds, ps, k, x);
      if ds[x] != ds0[x] {
        var j :| 0 <= j < k && g[u][j].to == x && ds[x] == L + g[u][j].weight;
        assert 0 <= j < k + 1;
      }
    }
  }

  /** pq holds entry e at least as often as pq0 does. */
  ghost predicate KeptAt(pq0: multiset<Entry>, pq: multiset<Entry>, e: Entry)
  {
    pq0[e] <= pq[e]
  }

  /** pq holds every entry of pq0, each at least as often.  As with Framed,
      the quantifier fires only on KeptAt. */
  ghost predicate QueueKept(pq0: multiset<Entry>, pq: multiset<Entry>)
  {
    forall e {:trigger KeptAt(pq0, pq, e)} :: KeptAt(pq0, pq, e)
  }

  /** A step that pushes at most the entry e keeps every entry. */
  lemma KeptGrow(pq0: multiset<Entry>, pq: multiset<Entry>, e: Entry, pq': multiset<Entry>)
    requires QueueKept(pq0, pq) && (pq' == pq || pq' == pq + multiset{e})
    ensures QueueKept(pq0, pq')
  {
    forall x
      ensures KeptAt(pq0, pq', x)
    {
      assert KeptAt(pq0, pq, x);
    }
  }

  /** QueueKept is multiset inclusion. */
  lemma KeptIncluded(pq0: multiset<Entry>, pq: multiset<Entry>)
    requires QueueKept(pq0, pq)
    ensures pq0 <= pq
  {
    forall x
      ensures pq0[x] <= pq[x]
    {
      assert KeptAt(pq0, pq, x);
    }
  }

  /*------------------------------------------------------------------------
    The algorithm
  ------------------------------------------------------------------------*/

  /** Gives v the distance x and the predecessor u. */
  method Lower(dist: array<nat>, prev: array<int>, v: nat, x: nat, u: int, ghost ds: seq<nat>, ghost ps: seq<int>)
    requires v < dist.Length && v < prev.Length && ds == dist[..] && ps == prev[..]
    modifies dist, prev
    ensures dist[..] == ds[v := x]
    ensures prev[..] == ps[v := u]
  {
    dist[v] := x;
    prev[v] := u;
  }

  /** The inner loop: relaxes every edge leaving u, the node just settled at
      distance L, pushing an entry for each target whose distance drops.
      Only those targets change: each now has u as its predecessor and a
      distance L + w along one of u's edges, and the queue only gains
      entries. */
  method Relax(graph: Graph, source: nat, dist: array<nat>, prev: array<int>, u: nat, pq0: multiset<Entry>,
               ghost rank: map<int, nat>, ghost clock: nat, ghost L: nat, ghost pw0: seq<nat>)
    returns (pq: multiset<Entry>, ghost pw: seq<nat>)
    requires Inv(graph, source, dist[..], prev[..], pq0, rank, clock, L, pw0, u, 0)
    requires u in rank && u < |graph| && dist[u] == L
    modifies dist, prev
    ensures Inv(graph, source, dist[..], prev[..], pq, rank, clock, L, pw, NONE, 0)
    ensures Progress(dist[..], old(dist[..]), pq, pq0)
    ensures Framed(graph, u, L, old(dist[..]), old(prev[..]), dist[..], prev[..], |graph[u]|)
    ensures pq0 <= pq
  {
    ghost var ds0, ps0 := dist[..], prev[..];
    pq, pw := pq0, pw0;
    for i := 0 to |graph[u]|
      invariant Inv(graph, source, dist[..], prev[..], pq, rank, clock, L, pw, u, i)
      invariant dist[u] == L
      invariant Progress(dist[..], ds0, pq, pq0)
      invariant Framed(graph, u, L, ds0, ps0, dist[..], prev[..], i)
      invariant QueueKept(pq0, pq)
    {
      ghost var pqi := pq;
      pq, pw := RelaxStep(graph, source, dist, prev, u, i, pq, rank, clock, L, pw, ds0, ps0, pq0);
      KeptGrow(pq0, pqi, Entry(L + graph[u][i].weight, graph[u][i].to), pq);
    }
    Processed(graph, source, dist[..], prev[..], pq, rank, clock, L, pw, u);
    KeptIncluded(pq0, pq);
  }

  /** One pass of the inner loop together with its proof: follows edge i of
      u with RelaxOne and carries the loop's invariants, and what the loop
      has done since ds0, ps0 and pqs, one edge further.  The queue either
      stays as it was or gains the one entry for this edge. */
  method RelaxStep(graph: Graph, source: nat, dist: array<nat>, prev: array<int>, u: nat, i: nat, pqi: multiset<Entry>,
                   ghost rank: map<int, nat>, ghost clock: nat, ghost L: nat, ghost pwi: seq<nat>,
                   ghost ds0: seq<nat>, ghost ps0: seq<int>, ghost pqs: multiset<Entry>)
    returns (pq: multiset<Entry>, ghost pw: seq<nat>)
    requires Inv(graph, source, dist[..], prev[..], pqi, rank, clock, L, pwi, u, i)
    requires u in rank && u < |graph| && i < |graph[u]| && dist[u] == L
    requires Progress(dist[..], ds0, pqi, pqs)
    requires Framed(graph, u, L, ds0, ps0, dist[..], prev[..], i)
    modifies dist, prev
    ensures Inv(graph, source, dist[..], prev[..], pq, rank, clock, L, pw, u, i + 1)
    ensures dist[u] == L
    ensures Progress(dist[..], ds0, pq, pqs)
    ensures Framed(graph, u, L, ds0, ps0, dist[..], prev[..], i + 1)
    ensures pq == pqi || pq == pqi + multiset{Entry(L + graph[u][i].weight, graph[u][i].to)}
  {
    ghost var ds, ps := dist[..], prev[..];
    ghost var v, w := graph[u][i].to, graph[u][i].weight;
    pq := RelaxOne(graph, dist, prev, u, i, pqi, L);
    if ds[v] > L + w {
      pw := pwi[v := w];
      StepLowered(graph, source, ds, ps, pqi, rank, clock, L, pwi, u, i, dist[..], prev[..], pq, pw);
      FramedLowered(graph, u, L, ds0, ps0, ds, ps, i, dist[..], prev[..]);
    } else {
      pw := pwi;
      StepKept(graph, source, ds, ps, pqi, rank, clock, L, pwi, u, i);
      FramedKept(graph, u, L, ds0, ps0, ds, ps, i, dist[..], prev[..]);
    }
    ProgressTrans(dist[..], ds, ds0, pq, pqi, pqs);
  }

  /** When edge k of u lowers its target, the invariant survives the
      update and the total distance drops. */
  lemma StepLowered(g: Graph, source: nat, ds: seq<nat>, ps: seq<int>, pq: multiset<Entry>,
                    rank: map<int, nat>, clock: nat, L: nat, pw: seq<nat>, u: nat, k: nat,
                    ds': seq<nat>, ps': seq<int>, pq': multiset<Entry>, pw': seq<nat>)
    requires Inv(g, source, ds, ps, pq, rank, clock, L, pw, u, k)
    requires u in rank && u < |g| && k < |g[u]| && ds[u] == L
    requires ds[g[u][k].to] > L + g[u][k].weight
    requires ds' == ds[g[u][k].to := L + g[u][k].weight] && ps' == ps[g[u][k].to := u]
    requires pq' == pq + multiset{Entry(L + g[u][k].weight, g[u][k].to)} && pw' == pw[g[u][k].to := g[u][k].weight]
    ensures Inv(g, source, ds', ps', pq', rank, clock, L, pw', u, k + 1)
    ensures Progress(ds', ds, pq', pq)
  {
    var v, w := g[u][k].to, g[u][k].weight;
    RelaxEdge(g, source, ds, ps, pq, rank, clock, L, pw, u, k, v, w, L + w, ds', ps', pq', pw');
    LoweredProgress(ds', ds, v, L + w, pq', pq);
  }

  /** When edge k of u does not lower its target, nothing changes and the
      edge counts as relaxed. */
  lemma StepKept(g: Graph, source: nat, ds: seq<nat>, ps: seq<int>, pq: multiset<Entry>,
                 rank: map<int, nat>, clock: nat, L: nat, pw: seq<nat>, u: nat, k: nat)
    requires Inv(g, source, ds, ps, pq, rank, clock, L, pw, u, k)
    requires u in rank && u < |g| && k < |g[u]| && ds[u] == L
    requires ds[g[u][k].to] <= L + g[u][k].weight
    ensures Inv(g, source, ds, ps, pq, rank, clock, L, pw, u, k + 1)
    ensures Progress(ds, ds, pq, pq)
  {
    KeepEdge(g, source, ds, ps, pq, rank, clock, L, pw, u, k);
    NoProgress(ds, pq);
  }

  /** One pass of the inner loop, following edge i of u: when the edge
      leads to v with weight w and dist[v] > dist[u] + w, dist[v] becomes
      dist[u] + w, prev[v] becomes u and (dist[v], v) is pushed; otherwise
      nothing changes. */
  method RelaxOne(graph: Graph, dist: array<nat>, prev: array<int>, u: nat, i: nat, pq0: multiset<Entry>,
                  ghost L: nat)
    returns (pq: multiset<Entry>)
    requires u < dist.Length && u < |graph| && i < |graph[u]| && dist[u] == L
    requires graph[u][i].to < dist.Length && graph[u][i].to < prev.Length
    modifies dist, prev
    ensures dist[u] == L
    ensures var v, w := graph[u][i].to, graph[u][i].weight;
      if old(dist[v]) > L + w then
        dist[..] == old(dist[..])[v := L + w] && prev[..] == old(prev[..])[v := u] &&
        pq == pq0 + multiset{Entry(L + w, v)}
      else
        dist[..] == old(dist[..]) && prev[..] == old(prev[..]) && pq == pq0
  {
    pq := pq0;
    var v, w := graph[u][i].to, graph[u][i].weight;
    if dist[v] > dist[u] + w {
      var x := dist[u] + w;
      Lower(dist, prev, v, x, u, dist[..], prev[..]);
      pq := pq + multiset{Entry(x, v)};
    }
  }

  /** What the prev links guarantee once the main loop is over. */
  ghost predicate Traceable(g: Graph, source: nat, ds: seq<nat>, ps: seq<int>,
                            rank: map<int, nat>, clock: nat, L: nat, pw: seq<nat>)
  {
    ValidGraph(g) && |ds| == |g| && |ps| == |g| && |pw| == |g| && source < |g|
    && ds[source] == 0 && ps[source] == NONE
    && (forall v :: 0 <= v < |g| ==> ds[v] <= IntMax)
    && SettledOk(g, ds, rank, clock, L)
    && HasPrev(g, source, ds, ps)
    && Links(g, ds, ps, rank, pw)
  }

  /** What a prev link of a traceable state says about node v. */
  lemma LinkAt(g: Graph, source: nat, ds: seq<nat>, ps: seq<int>, rank: map<int, nat>, clock: nat,
               L: nat, pw: seq<nat>, v: nat)
    requires Traceable(g, source, ds, ps, rank, clock, L, pw) && v < |g| && ps[v] != NONE
    ensures 0 <= ps[v] < |g| && ps[v] in rank && (v in rank ==> rank[ps[v]] < rank[v])
    ensures EdgeIn(g, ps[v], v, pw[v]) && ds[ps[v]] + pw[v] <= ds[v] && ds[v] < IntMax
  {
    assert PrevLink(g, ds, ps, rank, pw, v);
  }

  /** Walks the prev links back from target (the loop before std::reverse),
      collecting the nodes and the weights of the edges they stand for. */
  method FollowPrev(graph: Graph, source: nat, target: nat, dist: array<nat>, prev: array<int>,
                    ghost rank: map<int, nat>, ghost clock: nat, ghost L: nat, ghost pw: seq<nat>)
    returns (chain: seq<int>, ghost cw: seq<nat>)
    requires Traceable(graph, source, dist[..], prev[..], rank, clock, L, pw)
    requires target < |graph|
    ensures |chain| == |cw| + 1 && chain[0] == target
    ensures forall k :: 0 <= k < |cw| ==> EdgeIn(graph, chain[k + 1], chain[k], cw[k])
    ensures dist[target] < IntMax ==> chain[|chain| - 1] == source && Sum(cw) <= dist[target]
    ensures dist[target] == IntMax || prev[target] == NONE ==> chain == [target]
  {
    chain, cw := [], [];
    var at: int := target;
    while at != NONE
      invariant at == NONE || 0 <= at < |graph|
      invariant chain == [] ==> at == target && cw == []
      invariant chain != [] ==> |chain| == |cw| + 1 && chain[0] == target
      invariant chain != [] ==> 0 <= chain[|chain| - 1] < |graph| && at == prev[chain[|chain| - 1]]
      invariant forall k :: 0 <= k < |cw| ==> EdgeIn(graph, chain[k + 1], chain[k], cw[k])
      invariant chain != [] ==> Sum(cw) + dist[chain[|chain| - 1]] <= dist[target]
      invariant (dist[target] == IntMax || prev[target] == NONE) && chain != [] ==> chain == [target] && at == NONE
      decreases if at == NONE then 0 else if at in rank then rank[at] + 1 else clock + 1
    {
      if chain != [] {
        var last := chain[|chain| - 1];
        LinkAt(graph, source, dist[..], prev[..], rank, clock, L, pw, last);
        cw := cw + [pw[last]];
      }
      chain := chain + [at];
      at := prev[at];
      if at != NONE {
        LinkAt(graph, source, dist[..], prev[..], rank, clock, L, pw, chain[|chain| - 1]);
      }
    }
  }

  /** The initialisation and the main loop of ShortestPath_Dijkstra: returns
      dist and prev as they are when the target is popped or the queue runs
      empty. */
  method Search(graph: Graph, source: nat, target: nat)
    returns (dist: array<nat>, prev: array<int>, ghost rank: map<int, nat>, ghost clock: nat,
             ghost L: nat, ghost pw: seq<nat>)
    requires ValidGraph(graph) && source < |graph| && target < |graph|
    ensures Traceable(graph, source, dist[..], prev[..], rank, clock, L, pw)
    ensures NoShorterWalk(graph, source, target, dist[target])
  {
    dist := new nat[|graph|](_ => IntMax);
    prev := new int[|graph|](_ => NONE);
    pw := seq(|graph|, _ => 0);
    dist[source] := 0;
    var pq := multiset{Entry(0, source)};
    rank, clock, L := map[], 0, 0;
    ghost var found := false;
    Initial(graph, source, dist[..], prev[..], pw);
    while pq != multiset{}
      invariant Inv(graph, source, dist[..], prev[..], pq, rank, clock, L, pw, NONE, 0)
      invariant !found
      decreases Total(dist[..]), |pq|
    {
      TopExists(pq);
      // By TopUnique exactly one entry satisfies IsTop, so this choice is
      // the entry pq.top() returns.
      var e :| IsTop(e, pq);
      var d, u := e.d, e.v;
      ghost var queued := pq;
      pq := pq - multiset{e};
      if u == target {
        LoopExit(graph, source, target, dist[..], prev[..], queued, rank, clock, L, pw, e);
        found := true;
        break;
      }
      if d > dist[u] {
        SkipStale(graph, source, dist[..], prev[..], queued, rank, clock, L, pw, e);
        continue;
      }
      Settle(graph, source, dist[..], prev[..], queued, rank, clock, L, pw, e);
      rank := if u in rank then rank else rank[u := clock];
      clock := clock + 1;
      L := d;
      pq, pw := Relax(graph, source, dist, prev, u, pq, rank, clock, L, pw);
    }
    if !found {
      LoopExit(graph, source, target, dist[..], prev[..], pq, rank, clock, L, pw, Entry(0, 0));
    }
  }

  /** ShortestPath_Dijkstra: the length of a shortest path from source to
      target (INT_MAX when there is none below INT_MAX) and the path itself,
      with the weights of its edges. */
  method ShortestPathDijkstra(graph: Graph, source: nat, target: nat)
    returns (pathLen: nat, path: seq<int>, ghost weights: seq<nat>)
    requires ValidGraph(graph) && source < |graph| && target < |graph|
    ensures pathLen <= IntMax
    ensures NoShorterWalk(graph, source, target, pathLen)
    ensures pathLen < IntMax ==>
      IsWalk(graph, path, weights) && path[0] == source && path[|path| - 1] == target && Sum(weights) == pathLen
    ensures pathLen == IntMax ==> path == [target]
    ensures source == target ==> pathLen == 0 && path == [source]
  {
    var dist, prev, rank, clock, L, pw := Search(graph, source, target);
    pathLen := dist[target];
    var chain;
    ghost var cw;
    chain, cw := FollowPrev(graph, source, target, dist, prev, rank, clock, L, pw);
    path := Reversed(chain);
    weights := Reversed(cw);
    ReversedChain(graph, chain, cw);
    if pathLen < IntMax {
      assert IsWalk(graph, path, weights) && path[0] == source && path[|path| - 1] == target;
    }
    if source == target {
      assert IsWalk(graph, [source], []);
    }
  }
}
