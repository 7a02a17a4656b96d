/**
 * Depth-first search over a map-backed graph and the listing of its
 * components, one printed line per search.  The VertexAction that prints a
 * vertex is modelled by recording the vertices it is called with, in order;
 * a printed line is the sequence of vertices written on it.
 */
module GraphAlgorithms {
  import opened GraphBasics
  import opened Reachability
  import opened HashGraphs
  import opened ComponentScan

  /**
   * Visits, depth first from v, every vertex not yet visited that v reaches
   * through unvisited vertices, calling the action on each once.  Returns
   * the vertices the action was called with, in call order.
   */
  method Dfs(g: HashGraph, v: int, visited: array<bool>) returns (trace: seq<int>)
    requires g.Valid() && visited.Length == g.NumVertices() && 0 <= v < visited.Length
    modifies visited
    ensures PrintedSearch(g.Adjacency(), v, old(visited[..]), visited[..], trace)
    decreases FalseCount(visited[..])
  {
    if visited[v] {
      ExploredVisited(g.Adjacency(), v, visited[..]);
      return [];
    }
    ghost var adj := g.Adjacency();
    ghost var before := visited[..];
    ghost var slots := g.edges[..];
    visited[v] := true;
    trace := [v];
    TracingStart(adj, v, before);
    var r := g.Neighbors(v);
    var it := r.value;
    assert it.Items == it.Remaining();
    ghost var done: set<int> := {};
    while it.HasNext()
      invariant it.Valid() && Elems(it.Items) == adj[v].Keys
      invariant g.edges[..] == slots
      invariant done == Elems(it.Items[..it.nextPos])
      invariant Tracing(adj, v, before, visited[..], done, trace)
      decreases it.size - it.nextPos
    {
      ghost var mid := visited[..];
      FalseCountDrops(before, mid, v);
      ghost var pos := it.nextPos;
      var w := it.Next();
      NextIsNeighbor(it.Items, pos, done, adj[v].Keys);
      var sub := Dfs(g, w.value, visited);
      assert g.edges[..] == slots;
      ghost var after := visited[..];
      TracingStep(adj, v, w.value, before, mid, after, done, trace, sub);
      trace := trace + sub;
      done := done + {w.value};
    }
    assert it.Items[..it.nextPos] == it.Items;
    ExploringDone(adj, v, before, visited[..]);
  }

  /**
   * Scans the vertices in ascending order and, from each one not yet
   * visited, runs one search and ends the printed line.  Returns the
   * printed lines.
   */
  method PrintComponents(g: HashGraph) returns (lines: seq<seq<int>>)
    requires g.Valid()
    ensures ListsComponents(g.Adjacency(), ComponentStarts(g.Adjacency(), g.NumVertices()), lines)
  {
    ghost var adj := g.Adjacency();
    var n := g.NumVertices();
    var visited := new bool[n](_ => false);
    lines := [];
    ghost var cur := visited[..];
    ScannedStart(adj, cur);
    ghost var starts: seq<int> := [];
    var v := 0;
    while v < n
      invariant visited.Length == n && g.Adjacency() == adj && visited[..] == cur
      invariant Scanned(adj, v, starts, cur, lines)
    {
      if !visited[v] {
        var line := Dfs(g, v, visited);
        assert g.Adjacency() == adj;
        ghost var after := visited[..];
        ScannedStep(adj, v, starts, cur, after, lines, line);
        cur := after;
        lines := lines + [line];
        starts := starts + [v];
      } else {
        ScannedSkip(adj, v, starts, cur, lines);
      }
      v := v + 1;
    }
    ScannedEnd(adj, starts, cur, lines);
  }
}
