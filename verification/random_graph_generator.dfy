/**
 * The component statistics of the random graph generator: a depth-first
 * search whose action counts the vertices it is called with, and a scan
 * that records the size of every component and returns their number.  The
 * generator keeps the running count and the list of sizes in two static
 * fields; here they are passed in and handed back.
 */
module RandomGraphGenerator {
  import opened GraphBasics
  import opened Reachability
  import opened HashGraphs
  import opened ComponentScan

  /**
   * Visits, depth first from v, every vertex not yet visited that v reaches
   * through unvisited vertices, adding one to the running count for each.
   */
  method Dfs(g: HashGraph, v: int, visited: array<bool>, componentSize: int) returns (componentSize': int)
    requires g.Valid() && visited.Length == g.NumVertices() && 0 <= v < visited.Length
    modifies visited
    ensures CountedSearch(g.Adjacency(), v, old(visited[..]), visited[..], componentSize, componentSize')
    decreases FalseCount(visited[..])
  {
    if visited[v] {
      ExploredVisited(g.Adjacency(), v, visited[..]);
      assert NewlyVisited(visited[..], visited[..]) == {};
      return componentSize;
    }
    ghost var adj := g.Adjacency();
    ghost var before := visited[..];
    ghost var slots := g.edges[..];
    visited[v] := true;
    componentSize' := componentSize + 1;
    CountingStart(adj, v, before);
    var r := g.Neighbors(v);
    var it := r.value;
    assert it.Items == it.Remaining();
    ghost var done: set<int> := {};
    while it.HasNext()
      invariant it.Valid() && Elems(it.Items) == adj[v].Keys
      invariant g.edges[..] == slots
      invariant done == Elems(it.Items[..it.nextPos])
      invariant Counting(adj, v, before, visited[..], done, componentSize' - componentSize)
      decreases it.size - it.nextPos
    {
      ghost var mid := visited[..];
      FalseCountDrops(before, mid, v);
      ghost var pos := it.nextPos;
      var w := it.Next();
      NextIsNeighbor(it.Items, pos, done, adj[v].Keys);
      ghost var counted := componentSize';
      componentSize' := Dfs(g, w.value, visited, componentSize');
      assert g.edges[..] == slots;
      ghost var after := visited[..];
      CountingStep(adj, v, w.value, before, mid, after, done, counted - componentSize, componentSize' - counted);
      done := done + {w.value};
    }
    assert it.Items[..it.nextPos] == it.Items;
    ExploringDone(adj, v, before, visited[..]);
    assert v in NewlyVisited(before, visited[..]);
  }

  /**
   * Scans the vertices in ascending order and, from each one not yet
   * visited, runs one counting search, appends the count to the sizes and
   * starts the next count from zero.  Returns the number of searches run.
   */
  method PrintComponents(g: HashGraph, componentSizes: seq<int>, componentSize: int)
    returns (componentCount: int, componentSizes': seq<int>, componentSize': int)
    requires g.Valid()
    ensures componentCount == |ComponentStarts(g.Adjacency(), g.NumVertices())|
    ensures |componentSizes'| == |componentSizes| + componentCount
    ensures componentSizes'[..|componentSizes|] == componentSizes
    ensures TalliesComponents(g.Adjacency(), ComponentStarts(g.Adjacency(), g.NumVertices()),
                              componentSizes'[|componentSizes|..], componentSize)
    ensures componentSize' == if componentCount == 0 then componentSize else 0
  {
    ghost var adj := g.Adjacency();
    componentCount := 0;
    componentSizes' := componentSizes;
    componentSize' := componentSize;
    var n := g.NumVertices();
    var visited := new bool[n](_ => false);
    ghost var cur := visited[..];
    CountedStart(adj, cur, componentSize);
    ghost var starts: seq<int> := [];
    ghost var sizes: seq<int> := [];
    var v := 0;
    while v < n
      invariant visited.Length == n && g.Adjacency() == adj && visited[..] == cur
      invariant Counted(adj, v, starts, cur, sizes, componentSize)
      invariant componentSizes' == componentSizes + sizes && componentCount == |sizes|
      invariant componentSize' == if sizes == [] then componentSize else 0
    {
      if !visited[v] {
        componentSize' := Dfs(g, v, visited, componentSize');
        ghost var after := visited[..];
        CountedStep(adj, v, starts, cur, after, sizes, componentSize, componentSize');
        cur := after;
        AppendOne(componentSizes, sizes, componentSize');
        componentSizes' := componentSizes' + [componentSize'];
        sizes := sizes + [componentSize'];
        starts := starts + [v];
        componentSize' := 0;
        componentCount := componentCount + 1;
      } else {
        CountedSkip(adj, v, starts, cur, sizes, componentSize);
      }
      v := v + 1;
    }
    CountedEnd(adj, starts, cur, sizes, componentSize);
    assert componentSizes'[|componentSizes|..] == sizes;
  }
}
