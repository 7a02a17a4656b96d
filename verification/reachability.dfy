/**
 * Paths in an adjacency structure, visited-flag arrays and what a
 * depth-first search does to them.  An adjacency structure is a sequence
 * with one map per vertex, from neighbour to edge cost, as the map-backed
 * graph keeps it.
 */
module Reachability {

  type Adjacency = seq<map<int, int>>

  /** Every neighbour named in the structure is itself a vertex of it. */
  ghost predicate KeysInRange(adj: Adjacency) {
    forall v, w :: 0 <= v < |adj| && w in adj[v] ==> 0 <= w < |adj|
  }

  /**
   * p is a non-empty walk along edges of adj, from p[0] to its last vertex.
   * (Consecutive positions are named i and j rather than i and i + 1, so
   * that the quantifier does not feed itself new terms.)
   */
  ghost predicate IsPath(adj: Adjacency, p: seq<int>) {
    && |p| > 0
    && (forall i :: 0 <= i < |p| ==> 0 <= p[i] < |adj|)
    && (forall i, j :: 0 <= i && j == i + 1 && j < |p| ==> p[j] in adj[p[i]])
  }

  ghost predicate PathFromTo(adj: Adjacency, p: seq<int>, v: int, u: int) {
    IsPath(adj, p) && p[0] == v && p[|p| - 1] == u
  }

  /** u can be reached from v by following zero or more edges. */
  ghost predicate Reachable(adj: Adjacency, v: int, u: int) {
    exists p :: PathFromTo(adj, p, v, u)
  }

  lemma ReachableSelf(adj: Adjacency, v: int)
    requires 0 <= v < |adj|
    ensures Reachable(adj, v, v)
  {
    assert PathFromTo(adj, [v], v, v);
  }

  /** An edge followed by a path is a path. */
  lemma ReachableStep(adj: Adjacency, v: int, w: int, u: int)
    requires 0 <= v < |adj| && w in adj[v]
    requires Reachable(adj, w, u)
    ensures Reachable(adj, v, u)
  {
    var p :| PathFromTo(adj, p, w, u);
    var q := [v] + p;
    assert forall i :: 0 <= i < |p| ==> q[i + 1] == p[i];
    assert PathFromTo(adj, q, v, u);
  }

  /** In a graph without edges a vertex reaches only itself. */
  lemma {:induction false} ReachableWithoutEdges(adj: Adjacency, v: int, u: int)
    requires forall x :: 0 <= x < |adj| ==> adj[x] == map[]
    requires Reachable(adj, v, u)
    ensures u == v
  {
    var p :| PathFromTo(adj, p, v, u);
    PathFirstEdge(adj, p);
    assert adj[p[0]] == map[];
  }

  lemma PathFirstEdge(adj: Adjacency, p: seq<int>)
    requires IsPath(adj, p)
    ensures |p| > 1 ==> p[1] in adj[p[0]]
  {
    if |p| > 1 {
      assert p[0 + 1] in adj[p[0]];
    }
  }

  /** A visited-flag array is grown from another when no flag was cleared. */
  predicate Grows(before: seq<bool>, after: seq<bool>) {
    |before| == |after| && forall i :: 0 <= i < |before| && before[i] ==> after[i]
  }

  /** Every visited vertex has all its neighbours visited. */
  ghost predicate Closed(adj: Adjacency, visited: seq<bool>) {
    && |visited| == |adj|
    && forall u :: 0 <= u < |adj| && visited[u] ==>
         forall w :: w in adj[u] ==> 0 <= w < |adj| && visited[w]
  }

  /** Every vertex on p is a vertex whose flag is cleared. */
  ghost predicate Unvisited(visited: seq<bool>, p: seq<int>) {
    forall i :: 0 <= i < |p| ==> 0 <= p[i] < |visited| && !visited[p[i]]
  }

  /**
   * u can be reached from v along a path on which every vertex, v and u
   * included, is unvisited.
   */
  ghost predicate ReachableAvoiding(adj: Adjacency, visited: seq<bool>, v: int, u: int) {
    exists p :: PathFromTo(adj, p, v, u) && Unvisited(visited, p)
  }

  /** The vertices v reaches through unvisited vertices. */
  ghost function AvoidingFrom(adj: Adjacency, visited: seq<bool>, v: int): set<int> {
    set u | 0 <= u < |adj| && ReachableAvoiding(adj, visited, v, u)
  }

  /**
   * What one depth-first search from v does to the flags: nothing when v was
   * already visited; otherwise v ends visited, no flag is cleared, the
   * vertices it marks are exactly those v reaches through vertices that were
   * unvisited, and every vertex it marks has all its neighbours visited by
   * the time it returns.
   */
  ghost predicate Explored(adj: Adjacency, v: int, before: seq<bool>, after: seq<bool>) {
    && |before| == |adj| && 0 <= v < |adj|
    && Grows(before, after)
    && after[v]
    && (before[v] ==> after == before)
    && NewlyVisited(before, after) == AvoidingFrom(adj, before, v)
    && (forall u :: 0 <= u < |adj| && !before[u] && after[u] ==>
          forall w :: w in adj[u] ==> 0 <= w < |adj| && after[w])
  }

  /**
   * A search from v that is still running: v is visited, no flag was
   * cleared, every vertex marked so far is reachable from v through
   * vertices that were unvisited, and every one of them except v has all
   * its neighbours visited.
   */
  ghost predicate Exploring(adj: Adjacency, v: int, before: seq<bool>, cur: seq<bool>) {
    && |before| == |adj| && 0 <= v < |adj| && !before[v]
    && Grows(before, cur)
    && cur[v]
    && NewlyVisited(before, cur) <= AvoidingFrom(adj, before, v)
    && (forall u :: 0 <= u < |adj| && !before[u] && cur[u] && u != v ==>
          forall w :: w in adj[u] ==> 0 <= w < |adj| && cur[w])
  }

  /** Every vertex of s is visited. */
  ghost predicate AllVisited(cur: seq<bool>, s: set<int>) {
    forall x :: x in s ==> 0 <= x < |cur| && cur[x]
  }

  /** A search from a visited vertex changes nothing, and there is no path it could take. */
  lemma ExploredVisited(adj: Adjacency, v: int, visited: seq<bool>)
    requires |visited| == |adj| && 0 <= v < |adj| && visited[v]
    ensures Explored(adj, v, visited, visited)
  {
    forall u, p | PathFromTo(adj, p, v, u)
      ensures !Unvisited(visited, p)
    {
      assert visited[p[0]];
    }
  }

  /** Marking v is how a search from an unvisited v begins. */
  lemma ExploringStart(adj: Adjacency, v: int, before: seq<bool>)
    requires |before| == |adj| && 0 <= v < |adj| && !before[v]
    ensures Exploring(adj, v, before, before[v := true])
    ensures NewlyVisited(before, before[v := true]) == {v}
  {
    assert PathFromTo(adj, [v], v, v) && Unvisited(before, [v]);
  }

  /**
   * An edge out of an unvisited v, followed by a path through vertices
   * that are still unvisited after more flags were set, is a path through
   * unvisited vertices.
   */
  lemma AvoidingStep(adj: Adjacency, v: int, w: int, before: seq<bool>, mid: seq<bool>, u: int)
    requires |before| == |adj| && 0 <= v < |adj| && !before[v] && w in adj[v]
    requires Grows(before, mid) && ReachableAvoiding(adj, mid, w, u)
    ensures ReachableAvoiding(adj, before, v, u)
  {
    var p :| PathFromTo(adj, p, w, u) && Unvisited(mid, p);
    var q := [v] + p;
    assert forall i :: 0 <= i < |p| ==> q[i + 1] == p[i];
    assert PathFromTo(adj, q, v, u);
    forall i | 0 <= i < |q|
      ensures 0 <= q[i] < |before| && !before[q[i]]
    {
      if i > 0 {
        assert q[i] == p[i - 1];
      }
    }
  }

  /** A path through unvisited vertices is a path. */
  lemma AvoidingIsReachable(adj: Adjacency, visited: seq<bool>, v: int, u: int)
    requires ReachableAvoiding(adj, visited, v, u)
    ensures Reachable(adj, v, u)
  {
    var p :| PathFromTo(adj, p, v, u) && Unvisited(visited, p);
  }

  /** The search from v goes on with a completed search from one of its neighbours w. */
  lemma ExploringStep(adj: Adjacency, v: int, w: int, before: seq<bool>, mid: seq<bool>, after: seq<bool>,
                      done: set<int>)
    requires Exploring(adj, v, before, mid) && AllVisited(mid, done)
    requires w in adj[v] && Explored(adj, w, mid, after)
    ensures Exploring(adj, v, before, after) && AllVisited(after, done + {w})
  {
    forall u | u in NewlyVisited(before, after)
      ensures u in AvoidingFrom(adj, before, v)
    {
      if !mid[u] {
        assert u in NewlyVisited(mid, after);
        AvoidingStep(adj, v, w, before, mid, u);
      } else {
        assert u in NewlyVisited(before, mid);
      }
    }
  }

  /**
   * Once the running search from v has visited every neighbour of v, it
   * has marked every vertex v reaches through vertices that were unvisited.
   */
  lemma {:induction false} AvoidingMarked(adj: Adjacency, v: int, before: seq<bool>, after: seq<bool>, u: int)
    requires Exploring(adj, v, before, after) && AllVisited(after, adj[v].Keys)
    requires ReachableAvoiding(adj, before, v, u)
    ensures 0 <= u < |adj| && !before[u] && after[u]
  {
    var p :| PathFromTo(adj, p, v, u) && Unvisited(before, p);
    var i := 0;
    while i < |p| - 1
      invariant 0 <= i < |p|
      invariant after[p[i]]
    {
      assert p[i + 1] in adj[p[i]];
      assert !before[p[i]];
      i := i + 1;
    }
    assert !before[p[i]];
  }

  /** A search from v whose neighbours are all visited is complete. */
  lemma ExploringDone(adj: Adjacency, v: int, before: seq<bool>, after: seq<bool>)
    requires Exploring(adj, v, before, after) && AllVisited(after, adj[v].Keys)
    ensures Explored(adj, v, before, after)
  {
    forall u | u in AvoidingFrom(adj, before, v)
      ensures u in NewlyVisited(before, after)
    {
      AvoidingMarked(adj, v, before, after, u);
    }
  }

  /**
   * A search does not go on past a visited vertex: in the chain 0 -> 1 -> 2
   * with 1 already visited, the search from 0 marks 0 and leaves 2 alone.
   */
  lemma SearchStopsAtVisited()
    ensures !Explored([map[1 := 0], map[2 := 0], map[]], 0, [false, true, false], [true, true, true])
    ensures Explored([map[1 := 0], map[2 := 0], map[]], 0, [false, true, false], [true, true, false])
  {
    var adj: Adjacency := [map[1 := 0], map[2 := 0], map[]];
    var before := [false, true, false];
    forall p | PathFromTo(adj, p, 0, 2)
      ensures !Unvisited(before, p)
    {
      PathFirstEdge(adj, p);
      assert p[1] == 1;
    }
    assert 2 !in AvoidingFrom(adj, before, 0);
    assert 2 in NewlyVisited(before, [true, true, true]);
    assert PathFromTo(adj, [0], 0, 0) && Unvisited(before, [0]);
    assert AvoidingFrom(adj, before, 0) == {0};
  }

  /** A closed set of flags that contains v contains everything reachable from v. */
  lemma {:induction false} ClosedContainsReachable(adj: Adjacency, visited: seq<bool>, v: int, u: int)
    requires Closed(adj, visited)
    requires 0 <= v < |adj| && visited[v]
    requires Reachable(adj, v, u)
    ensures 0 <= u < |adj| && visited[u]
  {
    var p :| PathFromTo(adj, p, v, u);
    var i := 0;
    while i < |p| - 1
      invariant 0 <= i < |p|
      invariant visited[p[i]]
    {
      assert p[i + 1] in adj[p[i]];
      i := i + 1;
    }
  }

  /**
   * A depth-first search started on a closed set of flags leaves them closed
   * and visits every vertex reachable from its start.
   */
  lemma ExploredCompletes(adj: Adjacency, v: int, before: seq<bool>, after: seq<bool>)
    requires Explored(adj, v, before, after)
    requires Closed(adj, before)
    ensures Closed(adj, after)
    ensures forall u :: Reachable(adj, v, u) ==> 0 <= u < |adj| && after[u]
  {
    forall u, w | 0 <= u < |adj| && after[u] && w in adj[u]
      ensures 0 <= w < |adj| && after[w]
    {
      if before[u] {
        assert 0 <= w < |adj| && before[w];
      }
    }
    forall u | Reachable(adj, v, u)
      ensures 0 <= u < |adj| && after[u]
    {
      ClosedContainsReachable(adj, after, v, u);
    }
  }

  /** The number of cleared flags. */
  function FalseCount(s: seq<bool>): (r: nat)
    ensures r <= |s|
  {
    if s == [] then 0 else (if s[0] then 0 else 1) + FalseCount(s[1..])
  }

  /** The number of flags that were cleared in before and are set in after. */
  function FlipCount(before: seq<bool>, after: seq<bool>): (r: nat)
    requires |before| == |after|
    ensures r <= |before|
  {
    if before == [] then 0
    else (if !before[0] && after[0] then 1 else 0) + FlipCount(before[1..], after[1..])
  }

  /** Growing the flags trades cleared flags for flipped ones, one for one. */
  lemma {:induction false} FalseCountGrows(before: seq<bool>, after: seq<bool>)
    requires Grows(before, after)
    ensures FalseCount(before) == FalseCount(after) + FlipCount(before, after)
  {
    if before != [] {
      FalseCountGrows(before[1..], after[1..]);
    }
  }

  /** Growing the flags by flipping at least one flag leaves fewer cleared flags. */
  lemma {:induction false} FalseCountDrops(before: seq<bool>, after: seq<bool>, v: int)
    requires Grows(before, after) && 0 <= v < |before| && !before[v] && after[v]
    ensures FalseCount(after) < FalseCount(before)
  {
    FalseCountGrows(before, after);
    if v == 0 {
      FalseCountGrows(before[1..], after[1..]);
    } else {
      FalseCountDrops(before[1..], after[1..], v - 1);
    }
  }

  /** The vertices a search flips from unvisited to visited. */
  function NewlyVisited(before: seq<bool>, after: seq<bool>): set<int>
    requires |before| == |after|
  {
    set u | 0 <= u < |before| && !before[u] && after[u]
  }

  /** What two searches in a row flip is what either flips, and nothing is flipped twice. */
  lemma NewlyVisitedChain(before: seq<bool>, mid: seq<bool>, after: seq<bool>)
    requires Grows(before, mid) && Grows(mid, after)
    ensures NewlyVisited(before, after) == NewlyVisited(before, mid) + NewlyVisited(mid, after)
    ensures |NewlyVisited(before, after)| == |NewlyVisited(before, mid)| + |NewlyVisited(mid, after)|
  {
    assert NewlyVisited(before, mid) * NewlyVisited(mid, after) == {};
  }

  /** u is reachable from one of the given start vertices. */
  ghost predicate ReachedFrom(adj: Adjacency, starts: seq<int>, u: int) {
    exists i :: 0 <= i < |starts| && Reachable(adj, starts[i], u)
  }

  lemma ReachedFromAppend(adj: Adjacency, starts: seq<int>, v: int, u: int)
    ensures ReachedFrom(adj, starts + [v], u) <==> ReachedFrom(adj, starts, u) || Reachable(adj, v, u)
  {
    var t := starts + [v];
    if ReachedFrom(adj, t, u) {
      var i :| 0 <= i < |t| && Reachable(adj, t[i], u);
      if i < |starts| {
        assert t[i] == starts[i];
      }
    }
    if ReachedFrom(adj, starts, u) {
      var i :| 0 <= i < |starts| && Reachable(adj, starts[i], u);
      assert t[i] == starts[i];
    }
    if Reachable(adj, v, u) {
      assert t[|starts|] == v;
    }
  }

  /**
   * The vertices below k at which a scan in ascending order starts a new
   * search: each one that no earlier start reaches.
   */
  ghost function ComponentStarts(adj: Adjacency, k: nat): seq<int>
    requires k <= |adj|
  {
    if k == 0 then []
    else
      var s := ComponentStarts(adj, k - 1);
      if ReachedFrom(adj, s, k - 1) then s else s + [k - 1]
  }

  /**
   * The vertices the search from the k-th start visits: those reachable from
   * it that no earlier start reaches.
   */
  ghost function ComponentOf(adj: Adjacency, starts: seq<int>, k: int): set<int>
    requires 0 <= k < |starts|
  {
    set u | 0 <= u < |adj| && Reachable(adj, starts[k], u) && !ReachedFrom(adj, starts[..k], u)
  }

  /** The starts are increasing vertices, and every vertex below k is reached from one of them. */
  lemma {:induction false} StartsCover(adj: Adjacency, k: nat)
    requires k <= |adj|
    ensures forall i :: 0 <= i < |ComponentStarts(adj, k)| ==> 0 <= ComponentStarts(adj, k)[i] < k
    ensures forall i, j :: 0 <= i < j < |ComponentStarts(adj, k)| ==> ComponentStarts(adj, k)[i] < ComponentStarts(adj, k)[j]
    ensures forall u :: 0 <= u < k ==> ReachedFrom(adj, ComponentStarts(adj, k), u)
  {
    if k > 0 {
      StartsCover(adj, k - 1);
      var s := ComponentStarts(adj, k - 1);
      forall u | 0 <= u < k
        ensures ReachedFrom(adj, ComponentStarts(adj, k), u)
      {
        if !ReachedFrom(adj, s, k - 1) {
          ReachedFromAppend(adj, s, k - 1, u);
          if u == k - 1 {
            ReachableSelf(adj, u);
          }
        }
      }
    }
  }

  /** No start is reachable from the starts before it. */
  lemma {:induction false} StartsUnreached(adj: Adjacency, k: nat)
    requires k <= |adj|
    ensures forall i :: 0 <= i < |ComponentStarts(adj, k)| ==>
      !ReachedFrom(adj, ComponentStarts(adj, k)[..i], ComponentStarts(adj, k)[i])
  {
    if k > 0 {
      StartsUnreached(adj, k - 1);
      var s := ComponentStarts(adj, k - 1);
      if !ReachedFrom(adj, s, k - 1) {
        var t := s + [k - 1];
        forall i | 0 <= i < |t|
          ensures !ReachedFrom(adj, t[..i], t[i])
        {
          if i < |s| {
            assert t[..i] == s[..i];
          } else {
            assert t[..i] == s;
          }
        }
      }
    }
  }

  /**
   * Each start is the smallest vertex that the starts before it do not
   * reach: every vertex below it is reached by an earlier start.
   */
  lemma {:induction false} StartsSmallest(adj: Adjacency, k: nat)
    requires k <= |adj|
    ensures forall i, u :: 0 <= i < |ComponentStarts(adj, k)| && 0 <= u < ComponentStarts(adj, k)[i] ==>
      ReachedFrom(adj, ComponentStarts(adj, k)[..i], u)
  {
    if k > 0 {
      StartsSmallest(adj, k - 1);
      var s := ComponentStarts(adj, k - 1);
      if !ReachedFrom(adj, s, k - 1) {
        StartsCover(adj, k - 1);
        var t := s + [k - 1];
        forall i, u | 0 <= i < |t| && 0 <= u < t[i]
          ensures ReachedFrom(adj, t[..i], u)
        {
          if i < |s| {
            assert t[..i] == s[..i];
          } else {
            assert t[..i] == s;
          }
        }
      }
    }
  }

  /** In a graph without edges every vertex starts a search of its own. */
  lemma {:induction false} StartsWithoutEdges(adj: Adjacency, k: nat)
    requires k <= |adj|
    requires forall x :: 0 <= x < |adj| ==> adj[x] == map[]
    ensures |ComponentStarts(adj, k)| == k
    ensures forall i :: 0 <= i < k ==> ComponentStarts(adj, k)[i] == i
  {
    if k > 0 {
      StartsWithoutEdges(adj, k - 1);
      var s := ComponentStarts(adj, k - 1);
      if ReachedFrom(adj, s, k - 1) {
        var i :| 0 <= i < |s| && Reachable(adj, s[i], k - 1);
        ReachableWithoutEdges(adj, s[i], k - 1);
        assert false;
      }
    }
  }

  /** In a graph without edges the k-th component is the vertex k alone. */
  lemma ComponentsWithoutEdges(adj: Adjacency)
    requires forall x :: 0 <= x < |adj| ==> adj[x] == map[]
    ensures |ComponentStarts(adj, |adj|)| == |adj|
    ensures forall k :: 0 <= k < |adj| ==> ComponentOf(adj, ComponentStarts(adj, |adj|), k) == {k}
  {
    StartsWithoutEdges(adj, |adj|);
    var cs := ComponentStarts(adj, |adj|);
    forall k | 0 <= k < |adj|
      ensures ComponentOf(adj, cs, k) == {k}
    {
      ReachableSelf(adj, k);
      forall u | u in ComponentOf(adj, cs, k)
        ensures u == k
      {
        ReachableWithoutEdges(adj, k, u);
      }
      if ReachedFrom(adj, cs[..k], k) {
        var i :| 0 <= i < k && Reachable(adj, cs[..k][i], k);
        ReachableWithoutEdges(adj, i, k);
        assert false;
      }
    }
  }

  /** There is an edge from vertex v to w. */
  predicate Edge(adj: Adjacency, v: int, w: int) {
    0 <= v < |adj| && w in adj[v]
  }

  /** Every edge has its reverse: the adjacency of an undirected graph. */
  ghost predicate Symmetric(adj: Adjacency) {
    forall v, w :: Edge(adj, v, w) ==> Edge(adj, w, v)
  }

  /** A path without its first vertex is a path. */
  lemma PathTail(adj: Adjacency, p: seq<int>)
    requires IsPath(adj, p) && |p| > 1
    ensures IsPath(adj, p[1..])
  {
    var q := p[1..];
    forall i, j | 0 <= i && j == i + 1 && j < |q|
      ensures q[j] in adj[q[i]]
    {
      assert q[i] == p[i + 1] && q[j] == p[j + 1];
      assert p[j + 1] in adj[p[i + 1]];
    }
  }

  /** Following a path and then reaching on is reaching. */
  lemma {:induction false} PathThenReachable(adj: Adjacency, p: seq<int>, u: int)
    requires IsPath(adj, p) && Reachable(adj, p[|p| - 1], u)
    ensures Reachable(adj, p[0], u)
    decreases |p|
  {
    if |p| > 1 {
      PathTail(adj, p);
      PathThenReachable(adj, p[1..], u);
      PathFirstEdge(adj, p);
      ReachableStep(adj, p[0], p[1], u);
    }
  }

  lemma ReachableTrans(adj: Adjacency, a: int, b: int, c: int)
    requires Reachable(adj, a, b) && Reachable(adj, b, c)
    ensures Reachable(adj, a, c)
  {
    var p :| PathFromTo(adj, p, a, b);
    PathThenReachable(adj, p, c);
  }

  /** In a symmetric adjacency a path can be walked backwards. */
  lemma {:induction false} PathBackwards(adj: Adjacency, p: seq<int>)
    requires Symmetric(adj) && IsPath(adj, p)
    ensures Reachable(adj, p[|p| - 1], p[0])
    decreases |p|
  {
    if |p| == 1 {
      ReachableSelf(adj, p[0]);
    } else {
      PathTail(adj, p);
      PathBackwards(adj, p[1..]);
      PathFirstEdge(adj, p);
      assert Edge(adj, p[0], p[1]);
      ReachableSelf(adj, p[0]);
      ReachableStep(adj, p[1], p[0], p[0]);
      ReachableTrans(adj, p[|p| - 1], p[1], p[0]);
    }
  }

  lemma ReachableSymmetric(adj: Adjacency, a: int, b: int)
    requires Symmetric(adj) && Reachable(adj, a, b)
    ensures Reachable(adj, b, a)
  {
    var p :| PathFromTo(adj, p, a, b);
    PathBackwards(adj, p);
  }

  /**
   * In an undirected graph the k-th component is everything its start
   * reaches: no earlier start reaches any of it.
   */
  lemma ComponentsOfSymmetric(adj: Adjacency)
    requires Symmetric(adj)
    ensures forall k :: 0 <= k < |ComponentStarts(adj, |adj|)| ==>
      ComponentOf(adj, ComponentStarts(adj, |adj|), k) ==
        set u | 0 <= u < |adj| && Reachable(adj, ComponentStarts(adj, |adj|)[k], u)
  {
    var cs := ComponentStarts(adj, |adj|);
    StartsUnreached(adj, |adj|);
    forall k, u | 0 <= k < |cs| && 0 <= u < |adj| && Reachable(adj, cs[k], u)
      ensures !ReachedFrom(adj, cs[..k], u)
    {
      if ReachedFrom(adj, cs[..k], u) {
        var i :| 0 <= i < k && Reachable(adj, cs[..k][i], u);
        ReachableSymmetric(adj, cs[k], u);
        ReachableTrans(adj, cs[..k][i], u, cs[k]);
        assert false;
      }
    }
  }

  /** The k-th component depends only on the starts up to the k-th. */
  lemma ComponentOfPrefix(adj: Adjacency, starts: seq<int>, more: seq<int>, k: int)
    requires 0 <= k < |starts|
    ensures ComponentOf(adj, starts + more, k) == ComponentOf(adj, starts, k)
  {
    assert (starts + more)[..k] == starts[..k];
  }

  /**
   * One step of the ascending scan: a search from a vertex v that no earlier
   * start reaches, on flags that are exactly the vertices those starts reach,
   * visits exactly the vertices reachable from v that the earlier starts do
   * not reach, and leaves the flags closed and equal to what the starts
   * with v appended reach.
   */
  lemma ScanStep(adj: Adjacency, starts: seq<int>, v: int, mid: seq<bool>, after: seq<bool>)
    requires Explored(adj, v, mid, after) && Closed(adj, mid)
    requires forall u :: 0 <= u < |adj| ==> (mid[u] <==> ReachedFrom(adj, starts, u))
    ensures Closed(adj, after)
    ensures forall u :: 0 <= u < |adj| ==> (after[u] <==> ReachedFrom(adj, starts + [v], u))
    ensures forall u :: u in NewlyVisited(mid, after) <==>
      0 <= u < |adj| && Reachable(adj, v, u) && !ReachedFrom(adj, starts, u)
  {
    ExploredCompletes(adj, v, mid, after);
    forall u | u in NewlyVisited(mid, after)
      ensures Reachable(adj, v, u)
    {
      AvoidingIsReachable(adj, mid, v, u);
    }
    forall u | 0 <= u < |adj|
      ensures after[u] <==> ReachedFrom(adj, starts + [v], u)
    {
      ReachedFromAppend(adj, starts, v, u);
    }
  }
}
