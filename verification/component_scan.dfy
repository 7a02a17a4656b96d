/**
 * The depth-first search and the ascending scan over all vertices that
 * both component listings perform: from each vertex that no earlier search
 * has visited, one more search.  The state of each loop is described on
 * plain values (flags and what has been printed or counted so far), so the
 * loops that perform them only have to step it.
 */
module ComponentScan {
  import opened GraphBasics
  import opened Reachability

  /** All printed lines, one after the other. */
  function Flatten(lines: seq<seq<int>>): seq<int> {
    if lines == [] then [] else Flatten(lines[..|lines| - 1]) + lines[|lines| - 1]
  }

  lemma FlattenAppend(lines: seq<seq<int>>, line: seq<int>)
    ensures Flatten(lines + [line]) == Flatten(lines) + line
  {
    assert (lines + [line])[..|lines|] == lines;
  }

  /** The next element handed out lies in keys and extends the prefix handed out so far. */
  lemma NextIsNeighbor(row: seq<int>, pos: int, done: set<int>, keys: set<int>)
    requires 0 <= pos < |row| && Elems(row) == keys && done == Elems(row[..pos])
    ensures row[pos] in keys && done + {row[pos]} == Elems(row[..pos + 1])
  {
    assert row[pos] in row;
    assert row[..pos + 1] == row[..pos] + [row[pos]];
  }

  /** Traces of two searches in a row, the first over visited flags, the second over unvisited ones, do not overlap. */
  lemma NewlyVisitedAppend(trace: seq<int>, sub: seq<int>, mid: seq<bool>)
    requires NoDup(trace) && NoDup(sub)
    requires forall x :: x in Elems(trace) ==> 0 <= x < |mid| && mid[x]
    requires forall x :: x in Elems(sub) ==> 0 <= x < |mid| && !mid[x]
    ensures NoDup(trace + sub) && Elems(trace + sub) == Elems(trace) + Elems(sub)
  {
    forall x | x in trace
      ensures x !in sub
    {
      assert x in Elems(trace);
      assert x !in Elems(sub);
    }
    NoDupAppend(trace, sub);
  }

  /**
   * Each vertex of the trace after the first is a neighbour of a vertex
   * that comes before it: the order in which a search discovers vertices.
   */
  ghost predicate DiscoveryOrder(adj: Adjacency, trace: seq<int>) {
    forall i :: 0 < i < |trace| ==> FollowsEarlier(adj, trace, i)
  }

  /** trace[i] is a neighbour of a vertex that comes before it in trace. */
  ghost predicate FollowsEarlier(adj: Adjacency, trace: seq<int>, i: int)
    requires 0 <= i < |trace|
  {
    exists j :: 0 <= j < i && Edge(adj, trace[j], trace[i])
  }

  /**
   * In the chain 0 -> 1 -> 2, vertex 2 can be discovered only after 1:
   * 0 1 2 is in discovery order and 0 2 1 is not.
   */
  lemma ChainDiscoveryOrder()
    ensures DiscoveryOrder([map[1 := 0], map[2 := 0], map[]], [0, 1, 2])
    ensures !DiscoveryOrder([map[1 := 0], map[2 := 0], map[]], [0, 2, 1])
  {
    var adj: Adjacency := [map[1 := 0], map[2 := 0], map[]];
    assert FollowsEarlier(adj, [0, 1, 2], 1) by {
      assert Edge(adj, [0, 1, 2][0], [0, 1, 2][1]);
    }
    assert FollowsEarlier(adj, [0, 1, 2], 2) by {
      assert Edge(adj, [0, 1, 2][1], [0, 1, 2][2]);
    }
    assert !FollowsEarlier(adj, [0, 2, 1], 1);
  }

  /** The trace of a search from a neighbour of the first vertex, appended, keeps the discovery order. */
  lemma DiscoveryAppend(adj: Adjacency, trace: seq<int>, sub: seq<int>)
    requires DiscoveryOrder(adj, trace) && DiscoveryOrder(adj, sub) && trace != []
    requires sub != [] ==> Edge(adj, trace[0], sub[0])
    ensures DiscoveryOrder(adj, trace + sub)
  {
    var t := trace + sub;
    forall i | 0 < i < |t|
      ensures FollowsEarlier(adj, t, i)
    {
      if i < |trace| {
        assert FollowsEarlier(adj, trace, i);
        var j :| 0 <= j < i && Edge(adj, trace[j], trace[i]);
        assert t[j] == trace[j] && t[i] == trace[i];
      } else if i == |trace| {
        assert t[0] == trace[0] && t[i] == sub[0];
      } else {
        assert FollowsEarlier(adj, sub, i - |trace|);
        var j :| 0 <= j < i - |trace| && Edge(adj, sub[j], sub[i - |trace|]);
        assert t[|trace| + j] == sub[j] && t[i] == sub[i - |trace|];
      }
    }
  }

  /**
   * A search from v that is still running, with what it has printed: the
   * flags are those of a running search, the neighbours in done are
   * visited, and the trace starts with v and holds every vertex the search
   * has marked, once each.
   */
  ghost predicate Tracing(adj: Adjacency, v: int, before: seq<bool>, cur: seq<bool>, done: set<int>, trace: seq<int>) {
    && Exploring(adj, v, before, cur) && AllVisited(cur, done)
    && NoDup(trace) && Elems(trace) == NewlyVisited(before, cur)
    && trace != [] && trace[0] == v
    && DiscoveryOrder(adj, trace)
  }

  /**
   * A completed printing search from v: it explored exactly what Explored
   * says and printed each vertex it visited once, in discovery order, v
   * first; it printed nothing exactly when v was already visited.
   */
  ghost predicate PrintedSearch(adj: Adjacency, v: int, before: seq<bool>, after: seq<bool>, trace: seq<int>) {
    && Explored(adj, v, before, after)
    && NoDup(trace) && Elems(trace) == NewlyVisited(before, after)
    && (trace == [] <==> before[v])
    && (trace != [] ==> trace[0] == v)
    && DiscoveryOrder(adj, trace)
  }

  lemma TracingStart(adj: Adjacency, v: int, before: seq<bool>)
    requires |before| == |adj| && 0 <= v < |adj| && !before[v]
    ensures Tracing(adj, v, before, before[v := true], {}, [v])
  {
    ExploringStart(adj, v, before);
    assert Elems([v]) == {v};
  }

  /** The search from v goes on with the completed search from its neighbour w, which printed sub. */
  lemma TracingStep(adj: Adjacency, v: int, w: int, before: seq<bool>, mid: seq<bool>, after: seq<bool>,
                    done: set<int>, trace: seq<int>, sub: seq<int>)
    requires Tracing(adj, v, before, mid, done, trace)
    requires w in adj[v] && Explored(adj, w, mid, after)
    requires NoDup(sub) && Elems(sub) == NewlyVisited(mid, after)
    requires DiscoveryOrder(adj, sub) && (sub != [] ==> sub[0] == w)
    ensures Tracing(adj, v, before, after, done + {w}, trace + sub)
  {
    DiscoveryAppend(adj, trace, sub);
    ExploringStep(adj, v, w, before, mid, after, done);
    NewlyVisitedChain(before, mid, after);
    NewlyVisitedAppend(trace, sub, mid);
  }

  /**
   * The flags of the scan after the searches from the given starts: closed,
   * and set exactly at the vertices those starts reach.
   */
  ghost predicate ScanFlags(adj: Adjacency, starts: seq<int>, cur: seq<bool>) {
    && Closed(adj, cur)
    && forall u :: 0 <= u < |adj| ==> (cur[u] <==> ReachedFrom(adj, starts, u))
  }

  lemma ScanFlagsStart(adj: Adjacency, cur: seq<bool>)
    requires |cur| == |adj| && forall u :: 0 <= u < |cur| ==> !cur[u]
    ensures ScanFlags(adj, [], cur) && ComponentStarts(adj, 0) == []
  {
  }

  /** Passing over a visited vertex starts no search. */
  lemma ScanFlagsSkip(adj: Adjacency, v: int, starts: seq<int>, cur: seq<bool>)
    requires 0 <= v < |adj| && starts == ComponentStarts(adj, v)
    requires ScanFlags(adj, starts, cur) && cur[v]
    ensures ComponentStarts(adj, v + 1) == starts
  {
  }

  /**
   * A search from an unvisited vertex v makes v the next start and visits
   * exactly its component.
   */
  lemma ScanFlagsStep(adj: Adjacency, v: int, starts: seq<int>, mid: seq<bool>, after: seq<bool>)
    requires 0 <= v < |adj| && starts == ComponentStarts(adj, v)
    requires ScanFlags(adj, starts, mid) && !mid[v]
    requires Explored(adj, v, mid, after)
    ensures ComponentStarts(adj, v + 1) == starts + [v]
    ensures ScanFlags(adj, starts + [v], after)
    ensures NewlyVisited(mid, after) == ComponentOf(adj, starts + [v], |starts|)
  {
    ScanStep(adj, starts, v, mid, after);
    assert (starts + [v])[..|starts|] == starts;
  }

  /** Once every vertex is scanned, every vertex is visited. */
  lemma ScanFlagsEnd(adj: Adjacency, starts: seq<int>, cur: seq<bool>)
    requires starts == ComponentStarts(adj, |adj|) && ScanFlags(adj, starts, cur)
    ensures forall u :: 0 <= u < |adj| ==> cur[u]
  {
    StartsCover(adj, |adj|);
  }

  /**
   * The lines printed by the searches from the given starts: one per
   * start, beginning with it, holding exactly its component in discovery
   * order, and every visited vertex printed exactly once.
   */
  ghost predicate PrintedLines(adj: Adjacency, starts: seq<int>, cur: seq<bool>, lines: seq<seq<int>>) {
    && (forall u :: u in Flatten(lines) <==> 0 <= u < |cur| && cur[u])
    && NoDup(Flatten(lines))
    && |lines| == |starts|
    && (forall k :: 0 <= k < |lines| ==> lines[k] != [] && lines[k][0] == starts[k])
    && (forall k :: 0 <= k < |lines| ==> Elems(lines[k]) == ComponentOf(adj, starts, k))
    && (forall k :: 0 <= k < |lines| ==> DiscoveryOrder(adj, lines[k]))
  }

  /** The line of one more search is printed after the others. */
  lemma PrintedLinesStep(adj: Adjacency, starts: seq<int>, v: int, mid: seq<bool>, after: seq<bool>,
                         lines: seq<seq<int>>, line: seq<int>)
    requires PrintedLines(adj, starts, mid, lines) && Grows(mid, after)
    requires NewlyVisited(mid, after) == ComponentOf(adj, starts + [v], |starts|)
    requires NoDup(line) && Elems(line) == NewlyVisited(mid, after) && line != [] && line[0] == v
    requires DiscoveryOrder(adj, line)
    ensures PrintedLines(adj, starts + [v], after, lines + [line])
  {
    forall k | 0 <= k < |lines|
      ensures ComponentOf(adj, starts + [v], k) == ComponentOf(adj, starts, k)
    {
      ComponentOfPrefix(adj, starts, [v], k);
    }
    FlattenAppend(lines, line);
    forall x | x in Flatten(lines)
      ensures x !in line
    {
      assert x !in Elems(line);
    }
    NoDupAppend(Flatten(lines), line);
    var lines' := lines + [line];
    forall u | u in Flatten(lines')
      ensures 0 <= u < |after| && after[u]
    {
      if u in line {
        assert u in Elems(line);
      }
    }
    forall u | 0 <= u < |after| && after[u]
      ensures u in Flatten(lines')
    {
      if !mid[u] {
        assert u in NewlyVisited(mid, after);
      }
    }
  }

  /**
   * What the whole scan prints: the lines of the searches from all the
   * starts, each in discovery order, which print every vertex exactly once.
   */
  ghost predicate ListsComponents(adj: Adjacency, starts: seq<int>, lines: seq<seq<int>>) {
    && |lines| == |starts|
    && (forall k :: 0 <= k < |lines| ==> lines[k] != [] && lines[k][0] == starts[k])
    && (forall k :: 0 <= k < |lines| ==> Elems(lines[k]) == ComponentOf(adj, starts, k))
    && (forall k :: 0 <= k < |lines| ==> DiscoveryOrder(adj, lines[k]))
    && NoDup(Flatten(lines))
    && (forall u :: u in Flatten(lines) <==> 0 <= u < |adj|)
  }

  lemma PrintedLinesEnd(adj: Adjacency, starts: seq<int>, cur: seq<bool>, lines: seq<seq<int>>)
    requires starts == ComponentStarts(adj, |adj|) && |cur| == |adj|
    requires ScanFlags(adj, starts, cur) && PrintedLines(adj, starts, cur, lines)
    ensures ListsComponents(adj, starts, lines)
  {
    ScanFlagsEnd(adj, starts, cur);
  }

  /** The state of the scan once the vertices below v have been scanned. */
  ghost predicate Scanned(adj: Adjacency, v: int, starts: seq<int>, cur: seq<bool>, lines: seq<seq<int>>) {
    && 0 <= v <= |adj| && |cur| == |adj|
    && starts == ComponentStarts(adj, v)
    && ScanFlags(adj, starts, cur)
    && PrintedLines(adj, starts, cur, lines)
  }

  lemma ScannedStart(adj: Adjacency, cur: seq<bool>)
    requires |cur| == |adj| && forall u :: 0 <= u < |cur| ==> !cur[u]
    ensures Scanned(adj, 0, [], cur, [])
  {
    ScanFlagsStart(adj, cur);
  }

  lemma ScannedSkip(adj: Adjacency, v: int, starts: seq<int>, cur: seq<bool>, lines: seq<seq<int>>)
    requires Scanned(adj, v, starts, cur, lines) && v < |adj| && cur[v]
    ensures Scanned(adj, v + 1, starts, cur, lines)
  {
    ScanFlagsSkip(adj, v, starts, cur);
  }

  lemma ScannedStep(adj: Adjacency, v: int, starts: seq<int>, mid: seq<bool>, after: seq<bool>,
                    lines: seq<seq<int>>, line: seq<int>)
    requires Scanned(adj, v, starts, mid, lines) && v < |adj| && !mid[v]
    requires Explored(adj, v, mid, after)
    requires NoDup(line) && Elems(line) == NewlyVisited(mid, after) && line != [] && line[0] == v
    requires DiscoveryOrder(adj, line)
    ensures Scanned(adj, v + 1, starts + [v], after, lines + [line])
  {
    ScanFlagsStep(adj, v, starts, mid, after);
    PrintedLinesStep(adj, starts, v, mid, after, lines, line);
  }

  lemma ScannedEnd(adj: Adjacency, starts: seq<int>, cur: seq<bool>, lines: seq<seq<int>>)
    requires Scanned(adj, |adj|, starts, cur, lines)
    ensures ListsComponents(adj, ComponentStarts(adj, |adj|), lines)
  {
    PrintedLinesEnd(adj, starts, cur, lines);
  }

  /** The sum of a sequence of integers. */
  function Sum(s: seq<int>): int {
    if s == [] then 0 else Sum(s[..|s| - 1]) + s[|s| - 1]
  }

  /** The vertices whose flag is set. */
  function VisitedSet(cur: seq<bool>): set<int> {
    set u | 0 <= u < |cur| && cur[u]
  }

  /** When every flag is set, every vertex is visited. */
  lemma {:induction false} AllVisitedCard(cur: seq<bool>)
    requires forall u :: 0 <= u < |cur| ==> cur[u]
    ensures |VisitedSet(cur)| == |cur|
  {
    if cur != [] {
      var init := cur[..|cur| - 1];
      AllVisitedCard(init);
      assert VisitedSet(cur) == VisitedSet(init) + {|cur| - 1};
    }
  }

  /** Flipping flags adds exactly the flipped vertices to the visited ones. */
  lemma VisitedSetGrows(mid: seq<bool>, after: seq<bool>)
    requires Grows(mid, after)
    ensures |VisitedSet(after)| == |VisitedSet(mid)| + |NewlyVisited(mid, after)|
  {
    assert VisitedSet(after) == VisitedSet(mid) + NewlyVisited(mid, after);
    assert VisitedSet(mid) * NewlyVisited(mid, after) == {};
  }

  /**
   * A search from v that is still running, with the count of the vertices
   * it has acted on: the flags are those of a running search, the
   * neighbours in done are visited, and the count is the number of vertices
   * the search has marked.
   */
  ghost predicate Counting(adj: Adjacency, v: int, before: seq<bool>, cur: seq<bool>, done: set<int>, count: int) {
    && Exploring(adj, v, before, cur) && AllVisited(cur, done)
    && count == |NewlyVisited(before, cur)|
  }

  /**
   * A completed counting search from v: it explored exactly what Explored
   * says, and the count grew from c to c' by the number of vertices it
   * visited, staying put exactly when v was already visited.
   */
  ghost predicate CountedSearch(adj: Adjacency, v: int, before: seq<bool>, after: seq<bool>, c: int, c': int) {
    && Explored(adj, v, before, after)
    && c' == c + |NewlyVisited(before, after)|
    && (c' == c <==> before[v])
  }

  lemma CountingStart(adj: Adjacency, v: int, before: seq<bool>)
    requires |before| == |adj| && 0 <= v < |adj| && !before[v]
    ensures Counting(adj, v, before, before[v := true], {}, 1)
  {
    ExploringStart(adj, v, before);
  }

  /** The search from v goes on with the completed search from its neighbour w, which counted sub. */
  lemma CountingStep(adj: Adjacency, v: int, w: int, before: seq<bool>, mid: seq<bool>, after: seq<bool>,
                     done: set<int>, count: int, sub: int)
    requires Counting(adj, v, before, mid, done, count)
    requires w in adj[v] && Explored(adj, w, mid, after)
    requires sub == |NewlyVisited(mid, after)|
    ensures Counting(adj, v, before, after, done + {w}, count + sub)
  {
    ExploringStep(adj, v, w, before, mid, after, done);
    NewlyVisitedChain(before, mid, after);
  }

  /**
   * The state of the counting scan once the vertices below v are scanned:
   * one size per start, each the size of its component with the count the
   * scan began with added to the first, and all of them together the
   * number of visited vertices.
   */
  ghost predicate Counted(adj: Adjacency, v: int, starts: seq<int>, cur: seq<bool>, sizes: seq<int>, c0: int) {
    && 0 <= v <= |adj| && |cur| == |adj|
    && starts == ComponentStarts(adj, v)
    && ScanFlags(adj, starts, cur)
    && |sizes| == |starts|
    && (forall k :: 0 <= k < |sizes| ==> sizes[k] == (if k == 0 then c0 else 0) + |ComponentOf(adj, starts, k)|)
    && Sum(sizes) == (if sizes == [] then 0 else c0) + |VisitedSet(cur)|
  }

  lemma CountedStart(adj: Adjacency, cur: seq<bool>, c0: int)
    requires |cur| == |adj| && forall u :: 0 <= u < |cur| ==> !cur[u]
    ensures Counted(adj, 0, [], cur, [], c0)
  {
    ScanFlagsStart(adj, cur);
    assert VisitedSet(cur) == {};
  }

  lemma CountedSkip(adj: Adjacency, v: int, starts: seq<int>, cur: seq<bool>, sizes: seq<int>, c0: int)
    requires Counted(adj, v, starts, cur, sizes, c0) && v < |adj| && cur[v]
    ensures Counted(adj, v + 1, starts, cur, sizes, c0)
  {
    ScanFlagsSkip(adj, v, starts, cur);
  }

  /** A search from an unvisited vertex, counted on top of what is left of c0, adds the size of its component. */
  lemma CountedStep(adj: Adjacency, v: int, starts: seq<int>, mid: seq<bool>, after: seq<bool>,
                    sizes: seq<int>, c0: int, size: int)
    requires Counted(adj, v, starts, mid, sizes, c0) && v < |adj| && !mid[v]
    requires Explored(adj, v, mid, after)
    requires size == (if sizes == [] then c0 else 0) + |NewlyVisited(mid, after)|
    ensures Counted(adj, v + 1, starts + [v], after, sizes + [size], c0)
  {
    ScanFlagsStep(adj, v, starts, mid, after);
    forall k | 0 <= k < |sizes|
      ensures ComponentOf(adj, starts + [v], k) == ComponentOf(adj, starts, k)
    {
      ComponentOfPrefix(adj, starts, [v], k);
    }
    assert (sizes + [size])[..|sizes|] == sizes;
    VisitedSetGrows(mid, after);
  }

  /**
   * What the counting scan leaves: one size per start, each the size of its
   * component (the first with c0 added), summing to c0 plus the number of
   * vertices; no size at all exactly when there is no vertex.
   */
  ghost predicate TalliesComponents(adj: Adjacency, starts: seq<int>, sizes: seq<int>, c0: int) {
    && |sizes| == |starts|
    && (forall k :: 0 <= k < |sizes| ==> sizes[k] == (if k == 0 then c0 else 0) + |ComponentOf(adj, starts, k)|)
    && (sizes == [] <==> |adj| == 0)
    && Sum(sizes) == if |adj| == 0 then 0 else c0 + |adj|
  }

  /** With no edges there are as many tallies as vertices, each of one vertex. */
  lemma TalliesWithoutEdges(adj: Adjacency, sizes: seq<int>, c0: int)
    requires forall x :: 0 <= x < |adj| ==> adj[x] == map[]
    requires TalliesComponents(adj, ComponentStarts(adj, |adj|), sizes, c0)
    ensures |sizes| == |adj|
    ensures forall k :: 0 <= k < |sizes| ==> sizes[k] == (if k == 0 then c0 else 0) + 1
  {
    ComponentsWithoutEdges(adj);
  }

  lemma CountedEnd(adj: Adjacency, starts: seq<int>, cur: seq<bool>, sizes: seq<int>, c0: int)
    requires Counted(adj, |adj|, starts, cur, sizes, c0)
    ensures TalliesComponents(adj, starts, sizes, c0)
  {
    ScanFlagsEnd(adj, starts, cur);
    AllVisitedCard(cur);
    if |adj| > 0 {
      assert ReachedFrom(adj, starts, 0);
    }
  }
}
