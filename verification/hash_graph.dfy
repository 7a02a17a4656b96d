/**
 * A directed graph with a fixed number of vertices, stored as one lazily
 * allocated map per vertex from neighbour to edge cost, together with a
 * counter of the edges.  The abstract value of a graph is its adjacency: a
 * sequence with one map per vertex, where an unallocated slot reads as the
 * empty map.
 */
module HashGraphs {
  import opened GraphBasics
  import opened Reachability
  import opened EdgeText

  /** A slot of the edge array: null until the first edge leaves the vertex. */
  datatype Option<+T> = None | Some(value: T)

  /** The adjacency a slot array stands for. */
  function AdjacencyOf(slots: seq<Option<map<int, int>>>): (adj: Adjacency)
    ensures |adj| == |slots|
    ensures forall v :: 0 <= v < |slots| ==> adj[v] == if slots[v].Some? then slots[v].value else map[]
  {
    seq(|slots|, v requires 0 <= v < |slots| => if slots[v].Some? then slots[v].value else map[])
  }

  /** The number of directed edges: the sum of the sizes of all maps. */
  function TotalEdges(adj: Adjacency): nat {
    if adj == [] then 0 else TotalEdges(adj[..|adj| - 1]) + |adj[|adj| - 1]|
  }

  /** Replacing one map changes the edge count by the difference in size. */
  lemma {:induction false} TotalEdgesUpdate(adj: Adjacency, i: int, m: map<int, int>)
    requires 0 <= i < |adj|
    ensures TotalEdges(adj[i := m]) == TotalEdges(adj) - |adj[i]| + |m|
  {
    var last := |adj| - 1;
    if i == last {
      assert adj[i := m][..last] == adj[..last];
    } else {
      assert adj[i := m][..last] == adj[..last][i := m];
      TotalEdgesUpdate(adj[..last], i, m);
    }
  }

  lemma TotalEdgesPrefix(adj: Adjacency, k: int)
    requires 0 <= k < |adj|
    ensures TotalEdges(adj[..k + 1]) == TotalEdges(adj[..k]) + |adj[k]|
  {
    assert adj[..k + 1][..k] == adj[..k];
  }

  lemma {:induction false} TotalEdgesNone(adj: Adjacency)
    requires forall v :: 0 <= v < |adj| ==> adj[v] == map[]
    ensures TotalEdges(adj) == 0
  {
    if adj != [] {
      TotalEdgesNone(adj[..|adj| - 1]);
    }
  }

  /** The invariants the checks of the public operations keep. */
  ghost predicate WellFormed(adj: Adjacency) {
    && KeysInRange(adj)
    && forall v, w :: 0 <= v < |adj| && w in adj[v] ==> StorableCost(adj[v][w])
  }

  /** adj with the edge (from, to) set to cost c, added or overwritten. */
  function PutEdge(adj: Adjacency, from: int, to: int, c: int): Adjacency
    requires 0 <= from < |adj|
  {
    adj[from := adj[from][to := c]]
  }

  /** adj without the edge (from, to). */
  function DropEdge(adj: Adjacency, from: int, to: int): Adjacency
    requires 0 <= from < |adj|
  {
    adj[from := adj[from] - {to}]
  }

  /** How many of (v, w) and (w, v) are absent from adj: a self-loop is one edge. */
  function NewEdges(adj: Adjacency, v: int, w: int): nat
    requires 0 <= v < |adj| && 0 <= w < |adj|
  {
    (if w in adj[v] then 0 else 1) + (if v != w && v !in adj[w] then 1 else 0)
  }

  /** How many of (v, w) and (w, v) are present in adj: a self-loop is one edge. */
  function OldEdges(adj: Adjacency, v: int, w: int): nat
    requires 0 <= v < |adj| && 0 <= w < |adj|
  {
    (if w in adj[v] then 1 else 0) + (if v != w && v in adj[w] then 1 else 0)
  }

  /** Storing map m in slot i changes the adjacency at vertex i only. */
  lemma AdjacencyOfUpdate(slots: seq<Option<map<int, int>>>, i: int, m: map<int, int>)
    requires 0 <= i < |slots|
    ensures AdjacencyOf(slots[i := Some(m)]) == AdjacencyOf(slots)[i := m]
  {
  }

  /**
   * Putting an edge with a storable cost between two vertices keeps the
   * adjacency well formed and adds one edge exactly when it was absent.
   */
  lemma PutEdgeValid(adj: Adjacency, from: int, to: int, c: int)
    requires WellFormed(adj) && 0 <= from < |adj| && 0 <= to < |adj| && StorableCost(c)
    ensures WellFormed(PutEdge(adj, from, to, c))
    ensures TotalEdges(PutEdge(adj, from, to, c)) == TotalEdges(adj) + if to in adj[from] then 0 else 1
  {
    TotalEdgesUpdate(adj, from, adj[from][to := c]);
  }

  /** Dropping an edge keeps the adjacency well formed and removes one edge exactly when it was present. */
  lemma DropEdgeValid(adj: Adjacency, from: int, to: int)
    requires WellFormed(adj) && 0 <= from < |adj|
    ensures WellFormed(DropEdge(adj, from, to))
    ensures TotalEdges(DropEdge(adj, from, to)) == TotalEdges(adj) - if to in adj[from] then 1 else 0
  {
    TotalEdgesUpdate(adj, from, adj[from] - {to});
  }

  /** Putting (from, to) sets its cost and leaves every other edge and cost as it was. */
  lemma PutEdgeOthers(adj: Adjacency, from: int, to: int, c: int)
    requires 0 <= from < |adj|
    ensures |PutEdge(adj, from, to, c)| == |adj|
    ensures to in PutEdge(adj, from, to, c)[from] && PutEdge(adj, from, to, c)[from][to] == c
    ensures forall v, w :: 0 <= v < |adj| && (v, w) != (from, to) ==>
      (w in PutEdge(adj, from, to, c)[v] <==> w in adj[v]) &&
      (w in adj[v] ==> PutEdge(adj, from, to, c)[v][w] == adj[v][w])
  {
  }

  /** Dropping (from, to) removes it and leaves every other edge and cost as it was. */
  lemma DropEdgeOthers(adj: Adjacency, from: int, to: int)
    requires 0 <= from < |adj|
    ensures |DropEdge(adj, from, to)| == |adj| && to !in DropEdge(adj, from, to)[from]
    ensures forall v, w :: 0 <= v < |adj| && (v, w) != (from, to) ==>
      (w in DropEdge(adj, from, to)[v] <==> w in adj[v]) &&
      (w in adj[v] ==> DropEdge(adj, from, to)[v][w] == adj[v][w])
  {
  }

  /** Removing an edge that was just added undoes the addition; dropping an absent edge changes nothing. */
  lemma DropPutEdge(adj: Adjacency, from: int, to: int, c: int)
    requires 0 <= from < |adj| && to !in adj[from]
    ensures DropEdge(PutEdge(adj, from, to, c), from, to) == adj
    ensures DropEdge(adj, from, to) == adj
  {
    assert adj[from][to := c] - {to} == adj[from];
    assert adj[from] - {to} == adj[from];
    assert adj[from := adj[from]] == adj;
  }

  /** Adding an edge in both directions keeps an undirected graph undirected. */
  lemma PutBothSymmetric(adj: Adjacency, v: int, w: int, c: int)
    requires Symmetric(adj) && 0 <= v < |adj| && 0 <= w < |adj|
    ensures v == w ==> Symmetric(PutEdge(adj, v, v, c))
    ensures Symmetric(PutEdge(PutEdge(adj, v, w, c), w, v, c))
  {
    var b := PutEdge(adj, v, w, c);
    forall x, y | v == w && Edge(b, x, y)
      ensures Edge(b, y, x)
    {
      if (x, y) != (v, v) {
        assert Edge(adj, x, y);
      }
    }
    var a := PutEdge(b, w, v, c);
    forall x, y | Edge(a, x, y)
      ensures Edge(a, y, x)
    {
      if (x, y) == (v, w) {
        assert x in a[y];
      } else if (x, y) == (w, v) {
        assert w in b[v];
      } else {
        assert Edge(adj, x, y);
      }
    }
  }

  /** Removing an edge in both directions keeps an undirected graph undirected. */
  lemma DropBothSymmetric(adj: Adjacency, v: int, w: int)
    requires Symmetric(adj) && 0 <= v < |adj| && 0 <= w < |adj|
    ensures v == w ==> Symmetric(DropEdge(adj, v, v))
    ensures Symmetric(DropEdge(DropEdge(adj, v, w), w, v))
  {
    var b := DropEdge(adj, v, w);
    forall x, y | v == w && Edge(b, x, y)
      ensures Edge(b, y, x)
    {
      assert Edge(adj, x, y) && (x, y) != (v, v);
    }
    var a := DropEdge(b, w, v);
    forall x, y | Edge(a, x, y)
      ensures Edge(a, y, x)
    {
      assert Edge(adj, x, y) && (x, y) != (v, w) && (x, y) != (w, v);
    }
  }

  /** Edges listed vertex by vertex, ascending in the source vertex, each (from, to) once. */
  predicate ByVertex(order: seq<(int, int, int)>) {
    forall i, j :: 0 <= i < j < |order| ==>
      order[i].0 <= order[j].0 && (order[i].0, order[i].1) != (order[j].0, order[j].1)
  }

  /** An edge whose source is at least every listed source, and which is not listed yet, keeps the order. */
  lemma ByVertexAppend(order: seq<(int, int, int)>, e: (int, int, int))
    requires ByVertex(order)
    requires forall x :: x in order ==> x.0 <= e.0 && (x.0, x.1) != (e.0, e.1)
    ensures ByVertex(order + [e])
  {
    var o := order + [e];
    forall i, j | 0 <= i < j < |o|
      ensures o[i].0 <= o[j].0 && (o[i].0, o[i].1) != (o[j].0, o[j].1)
    {
      if j == |order| {
        assert o[i] in order;
      }
    }
  }

  /** order holds exactly the edges of adj that leave the vertices below from, with their costs. */
  ghost predicate Lists(order: seq<(int, int, int)>, adj: Adjacency, from: int) {
    forall e :: e in order <==>
      0 <= e.0 < from && e.0 < |adj| && e.1 in adj[e.0] && e.2 == adj[e.0][e.1]
  }

  /**
   * The state of the text after the vertices below from: order lists their
   * edges vertex by vertex, and the text holds "{" and the tuple of each,
   * each followed by ", ".
   */
  ghost predicate Listed(adj: Adjacency, from: int, order: seq<(int, int, int)>, sb: string) {
    && 0 <= from <= |adj|
    && |order| == TotalEdges(adj[..from])
    && Lists(order, adj, from)
    && ByVertex(order)
    && sb == "{" + Terminated(Tuples(order))
  }

  /**
   * The state of the inner loop of the text: the edges of from whose
   * targets are no longer in rest have been appended, after the edges in
   * order, to both the listing and the text.
   */
  ghost predicate Appending(from: int, out: map<int, int>, order: seq<(int, int, int)>,
                            rest: set<int>, order': seq<(int, int, int)>, sb': string) {
    && (forall e :: e in order ==> e.0 < from)
    && rest <= out.Keys
    && |order'| == |order| + |out| - |rest|
    && AppendedOf(from, out, order, rest, order')
    && ByVertex(order')
    && (forall e :: e in order' ==> e.0 <= from)
    && sb' == "{" + Terminated(Tuples(order'))
  }

  /** The edges of from appended so far, as a condition on one listing. */
  ghost predicate AppendedOf(from: int, out: map<int, int>, order: seq<(int, int, int)>,
                             rest: set<int>, order': seq<(int, int, int)>) {
    forall e :: e in order' <==>
      e in order || (e.0 == from && e.1 in out && e.1 !in rest && e.2 == out[e.1])
  }

  /** The edge to a target still in rest comes after, and differs from, every listed edge. */
  lemma AppendedBefore(from: int, out: map<int, int>, order: seq<(int, int, int)>,
                       rest: set<int>, order': seq<(int, int, int)>, to: int)
    requires AppendedOf(from, out, order, rest, order') && to in rest
    requires forall e :: e in order ==> e.0 < from
    ensures forall x :: x in order' ==> x.0 <= from && (x.0, x.1) != (from, to)
  {
    forall x | x in order'
      ensures x.0 <= from && (x.0, x.1) != (from, to)
    {
      if x.0 == from {
        assert x.1 !in rest;
      }
    }
  }

  /** Appending the edge to a target moves that target out of rest. */
  lemma AppendedMore(from: int, out: map<int, int>, order: seq<(int, int, int)>,
                     rest: set<int>, order': seq<(int, int, int)>, to: int)
    requires AppendedOf(from, out, order, rest, order') && to in rest && to in out
    ensures AppendedOf(from, out, order, rest - {to}, order' + [(from, to, out[to])])
  {
    var o := order' + [(from, to, out[to])];
    forall x
      ensures x in o <==> x in order || (x.0 == from && x.1 in out && x.1 !in rest - {to} && x.2 == out[x.1])
    {
      assert x in o <==> x in order' || x == (from, to, out[to]);
    }
  }

  /** Appending the edge to one more target of rest. */
  lemma AppendingStep(from: int, out: map<int, int>, order: seq<(int, int, int)>,
                      rest: set<int>, order': seq<(int, int, int)>, sb': string, to: int, text: string)
    requires Appending(from, out, order, rest, order', sb') && to in rest
    requires text == Tuple((from, to, out[to])) + ", "
    ensures Appending(from, out, order, rest - {to}, order' + [(from, to, out[to])],
                      sb' + text)
  {
    var e := (from, to, out[to]);
    ListingAppend(order', e, text);
    AppendedBefore(from, out, order, rest, order', to);
    ByVertexAppend(order', e);
    AppendedMore(from, out, order, rest, order', to);
  }

  /** Listing the edges of one more vertex, after the others. */
  lemma ListedStep(adj: Adjacency, from: int, done: seq<(int, int, int)>, sbDone: string,
                   order: seq<(int, int, int)>, sb: string)
    requires from < |adj| && Listed(adj, from, done, sbDone)
    requires forall e :: e in order <==>
      e in done || (e.0 == from && e.1 in adj[from] && e.2 == adj[from][e.1])
    requires |order| == |done| + |adj[from]| && ByVertex(order)
    requires sb == "{" + Terminated(Tuples(order))
    ensures Listed(adj, from + 1, order, sb)
  {
    TotalEdgesPrefix(adj, from);
  }

  /** A vertex without edges adds nothing to the text. */
  lemma ListedSkip(adj: Adjacency, from: int, order: seq<(int, int, int)>, sb: string)
    requires from < |adj| && Listed(adj, from, order, sb) && adj[from] == map[]
    ensures Listed(adj, from + 1, order, sb)
  {
    TotalEdgesPrefix(adj, from);
  }

  /** After the last vertex every edge is listed. */
  lemma ListedEnd(adj: Adjacency, order: seq<(int, int, int)>, sb: string)
    requires Listed(adj, |adj|, order, sb)
    ensures |order| == TotalEdges(adj) && Lists(order, adj, |adj|)
  {
    assert adj[..|adj|] == adj;
  }

  class HashGraph {
    /** edges[v] maps each neighbour w of v to the cost of (v, w); None until needed. */
    const edges: array<Option<map<int, int>>>
    /** The number of edges in the graph. */
    var numEdges: int

    ghost function Adjacency(): Adjacency
      reads edges
    {
      AdjacencyOf(edges[..])
    }

    ghost predicate Valid()
      reads this, edges
    {
      WellFormed(Adjacency()) && numEdges == TotalEdges(Adjacency())
    }

    /** The constructor proper; the check of n is done by Create. */
    constructor (n: int)
      requires n >= 0
      ensures Valid() && fresh(edges)
      ensures edges.Length == n && numEdges == 0
      ensures forall v :: 0 <= v < n ==> edges[v] == None
    {
      edges := new Option<map<int, int>>[n](_ => None);
      numEdges := 0;
      new;
      TotalEdgesNone(Adjacency());
    }

    /** A graph with n vertices and no edges, or InvalidSize when n < 0. */
    static method Create(n: int) returns (r: Result<HashGraph>)
      ensures r.Err? <==> n < 0
      ensures r.Err? ==> r.error == InvalidSize
      ensures r.Ok? ==> fresh(r.value) && fresh(r.value.edges) && r.value.Valid()
      ensures r.Ok? ==> r.value.NumVertices() == n && r.value.NumEdges() == 0
      ensures r.Ok? ==> forall v :: 0 <= v < n ==> r.value.edges[v] == None && r.value.Degree(v) == Ok(0)
    {
      if n < 0 {
        return Err(InvalidSize);
      }
      var g := new HashGraph(n);
      return Ok(g);
    }

    function NumVertices(): nat {
      edges.Length
    }

    /** The vertices are the positions of the adjacency, 0 to NumVertices() - 1. */
    lemma VertexRange()
      ensures NumVertices() == |Adjacency()|
      ensures forall v :: IsVertex(v) <==> 0 <= v < |Adjacency()|
    {
    }

    function NumEdges(): (r: int)
      reads this, edges
      requires Valid()
      ensures r == TotalEdges(Adjacency())
    {
      numEdges
    }

    predicate IsVertex(v: int) {
      0 <= v < NumVertices()
    }

    /** Fails with InvalidVertex exactly when v is not a vertex. */
    function CheckVertexParameter(v: int): (r: Outcome)
      ensures r.Fail? <==> !IsVertex(v)
      ensures r.Fail? ==> r.error == InvalidVertex
    {
      if v < 0 || v >= NumVertices() then Fail(InvalidVertex) else Pass
    }

    /** Fails with InvalidVertex exactly when v or w is not a vertex. */
    function CheckVertexParameters(v: int, w: int): (r: Outcome)
      ensures r.Fail? <==> !(IsVertex(v) && IsVertex(w))
      ensures r.Fail? ==> r.error == InvalidVertex
      ensures r == (match CheckVertexParameter(v) case Pass => CheckVertexParameter(w) case Fail(e) => Fail(e))
    {
      if v < 0 || v >= NumVertices() || w < 0 || w >= NumVertices() then Fail(InvalidVertex) else Pass
    }

    /** Fails with InvalidCost exactly when c is negative; a cost that passes may be stored. */
    static function CheckNonNegativeCost(c: int): (r: Outcome)
      ensures r.Fail? <==> c < 0
      ensures r.Fail? ==> r.error == InvalidCost
      ensures r.Pass? ==> StorableCost(c)
    {
      if c < 0 then Fail(InvalidCost) else Pass
    }

    /** Whether v's map is allocated; a vertex whose slot is null has no edges. */
    predicate ArraySlotIsNotNull(v: int): (r: bool)
      reads edges
      requires IsVertex(v)
      ensures !r ==> Adjacency()[v] == map[]
      ensures r ==> edges[v].Some? && Adjacency()[v] == edges[v].value
    {
      edges[v].Some?
    }

    /** The out-degree of v: how many w there are with an edge (v, w). */
    function Degree(v: int): (r: Result<int>)
      reads this, edges
      requires Valid()
      ensures r.Err? <==> !IsVertex(v)
      ensures r.Err? ==> r.error == InvalidVertex
      ensures r.Ok? ==> r.value == |Adjacency()[v]|
      ensures r.Ok? ==> r.value == |set w | 0 <= w < NumVertices() && w in Adjacency()[v]|
    {
      match CheckVertexParameter(v)
      case Fail(e) => Err(e)
      case Pass =>
        var m := Adjacency()[v];
        assert m.Keys == set w | 0 <= w < NumVertices() && w in m;
        Ok(if ArraySlotIsNotNull(v) then |edges[v].value| else 0)
    }

    function HasEdge(from: int, to: int): (r: Result<bool>)
      reads this, edges
      requires Valid()
      ensures r.Err? <==> !(IsVertex(from) && IsVertex(to))
      ensures r.Err? ==> r.error == InvalidVertex
      ensures r.Ok? ==> (r.value <==> to in Adjacency()[from])
    {
      match CheckVertexParameters(from, to)
      case Fail(e) => Err(e)
      case Pass => Ok(if ArraySlotIsNotNull(from) then to in edges[from].value else false)
    }

    /** The cost of (from, to); NO_COST both for an absent edge and for one added without a cost. */
    function Cost(from: int, to: int): (r: Result<int>)
      reads this, edges
      requires Valid()
      ensures r.Err? <==> !(IsVertex(from) && IsVertex(to))
      ensures r.Err? ==> r.error == InvalidVertex
      ensures r.Ok? ==> r.value == if to in Adjacency()[from] then Adjacency()[from][to] else NO_COST
      ensures r.Ok? ==> StorableCost(r.value)
    {
      match CheckVertexParameters(from, to)
      case Fail(e) => Err(e)
      case Pass =>
        if ArraySlotIsNotNull(from) && to in edges[from].value then Ok(edges[from].value[to])
        else Ok(NO_COST)
    }

    /** Adds or overwrites (from, to) without checking its arguments. */
    method AddEdge(from: int, to: int, cost: int)
      requires Valid() && IsVertex(from) && IsVertex(to) && StorableCost(cost)
      modifies this, edges
      ensures Valid()
      ensures Adjacency() == PutEdge(old(Adjacency()), from, to, cost)
      ensures numEdges == old(numEdges) + if to in old(Adjacency())[from] then 0 else 1
      ensures edges[from].Some?
      ensures forall u :: 0 <= u < edges.Length && u != from ==> edges[u] == old(edges[u])
    {
      ghost var adj := Adjacency();
      if edges[from] == None {
        ghost var slots := edges[..];
        edges[from] := Some(map[]);
        assert edges[..] == slots[from := Some(map[])];
        AdjacencyOfUpdate(slots, from, map[]);
        assert adj[from := map[]] == adj;
      }
      var m := edges[from].value;
      var previous := if to in m then Some(m[to]) else None;
      ghost var slots := edges[..];
      edges[from] := Some(m[to := cost]);
      assert edges[..] == slots[from := Some(m[to := cost])];
      AdjacencyOfUpdate(slots, from, m[to := cost]);
      PutEdgeValid(adj, from, to, cost);
      if previous == None {
        numEdges := numEdges + 1;
      }
    }

    /** Removes (from, to) if present, without checking its arguments. */
    method RemoveEdge(from: int, to: int)
      requires Valid() && IsVertex(from) && IsVertex(to)
      modifies this, edges
      ensures Valid()
      ensures Adjacency() == DropEdge(old(Adjacency()), from, to)
      ensures numEdges == old(numEdges) - if to in old(Adjacency())[from] then 1 else 0
      ensures to !in old(Adjacency())[from] ==> edges[..] == old(edges[..])
      ensures edges[from].Some? == old(edges[from]).Some?
      ensures forall u :: 0 <= u < edges.Length && u != from ==> edges[u] == old(edges[u])
    {
      ghost var adj := Adjacency();
      DropEdgeValid(adj, from, to);
      if ArraySlotIsNotNull(from) {
        if to in edges[from].value {
          var m := edges[from].value;
          ghost var slots := edges[..];
          edges[from] := Some(m - {to});
          assert edges[..] == slots[from := Some(m - {to})];
          AdjacencyOfUpdate(slots, from, m - {to});
          numEdges := numEdges - 1;
        }
      }
      if to !in adj[from] {
        assert adj[from] - {to} == adj[from];
        assert adj[from := adj[from]] == adj;
      }
    }

    /** Adds (from, to) with cost NO_COST. */
    method Add(from: int, to: int) returns (r: Outcome)
      requires Valid()
      modifies this, edges
      ensures Valid()
      ensures r.Fail? <==> !(IsVertex(from) && IsVertex(to))
      ensures r.Fail? ==> r.error == InvalidVertex && edges[..] == old(edges[..]) && numEdges == old(numEdges)
      ensures r.Pass? ==> Adjacency() == PutEdge(old(Adjacency()), from, to, NO_COST)
      ensures r.Pass? ==> numEdges == old(numEdges) + if to in old(Adjacency())[from] then 0 else 1
      ensures r.Pass? ==> HasEdge(from, to) == Ok(true) && Cost(from, to) == Ok(NO_COST)
      ensures r.Pass? ==> edges[from].Some? && forall u :: 0 <= u < edges.Length && u != from ==> edges[u] == old(edges[u])
    {
      r := CheckVertexParameters(from, to);
      if r.Fail? {
        return;
      }
      AddEdge(from, to, NO_COST);
    }

    /** Adds (from, to) with cost c; the vertices are checked before the cost. */
    method AddCost(from: int, to: int, c: int) returns (r: Outcome)
      requires Valid()
      modifies this, edges
      ensures Valid()
      ensures r.Fail? <==> !(IsVertex(from) && IsVertex(to)) || c < 0
      ensures r.Fail? ==> r.error == (if IsVertex(from) && IsVertex(to) then InvalidCost else InvalidVertex)
      ensures r.Fail? ==> edges[..] == old(edges[..]) && numEdges == old(numEdges)
      ensures r.Pass? ==> Adjacency() == PutEdge(old(Adjacency()), from, to, c)
      ensures r.Pass? ==> numEdges == old(numEdges) + if to in old(Adjacency())[from] then 0 else 1
      ensures r.Pass? ==> HasEdge(from, to) == Ok(true) && Cost(from, to) == Ok(c)
      ensures r.Pass? ==> edges[from].Some? && forall u :: 0 <= u < edges.Length && u != from ==> edges[u] == old(edges[u])
    {
      r := CheckVertexParameters(from, to);
      if r.Fail? {
        return;
      }
      r := CheckNonNegativeCost(c);
      if r.Fail? {
        return;
      }
      AddEdge(from, to, c);
    }

    /** Adds (v, w) and (w, v) with cost NO_COST; a self-loop is added once. */
    method AddBi(v: int, w: int) returns (r: Outcome)
      requires Valid()
      modifies this, edges
      ensures Valid()
      ensures r.Fail? <==> !(IsVertex(v) && IsVertex(w))
      ensures r.Fail? ==> r.error == InvalidVertex && edges[..] == old(edges[..]) && numEdges == old(numEdges)
      ensures r.Pass? && v == w ==> Adjacency() == PutEdge(old(Adjacency()), v, v, NO_COST)
      ensures r.Pass? && v != w ==> Adjacency() == PutEdge(PutEdge(old(Adjacency()), v, w, NO_COST), w, v, NO_COST)
      ensures r.Pass? ==> numEdges == old(numEdges) + NewEdges(old(Adjacency()), v, w)
      ensures r.Pass? ==> HasEdge(v, w) == Ok(true) && HasEdge(w, v) == Ok(true)
      ensures r.Pass? ==> edges[v].Some? && edges[w].Some?
      ensures r.Pass? ==> forall u :: 0 <= u < edges.Length && u != v && u != w ==> edges[u] == old(edges[u])
    {
      r := CheckVertexParameters(v, w);
      if r.Fail? {
        return;
      }
      AddEdge(v, w, NO_COST);
      if v == w {
        return;
      }
      AddEdge(w, v, NO_COST);
    }

    /** Adds (v, w) and (w, v) with cost c; the cost is checked before the vertices. */
    method AddBiCost(v: int, w: int, c: int) returns (r: Outcome)
      requires Valid()
      modifies this, edges
      ensures Valid()
      ensures r.Fail? <==> c < 0 || !(IsVertex(v) && IsVertex(w))
      ensures r.Fail? ==> r.error == (if c < 0 then InvalidCost else InvalidVertex)
      ensures r.Fail? ==> edges[..] == old(edges[..]) && numEdges == old(numEdges)
      ensures r.Pass? && v == w ==> Adjacency() == PutEdge(old(Adjacency()), v, v, c)
      ensures r.Pass? && v != w ==> Adjacency() == PutEdge(PutEdge(old(Adjacency()), v, w, c), w, v, c)
      ensures r.Pass? ==> numEdges == old(numEdges) + NewEdges(old(Adjacency()), v, w)
      ensures r.Pass? ==> Cost(v, w) == Ok(c) && Cost(w, v) == Ok(c)
      ensures r.Pass? ==> edges[v].Some? && edges[w].Some?
      ensures r.Pass? ==> forall u :: 0 <= u < edges.Length && u != v && u != w ==> edges[u] == old(edges[u])
    {
      r := CheckNonNegativeCost(c);
      if r.Fail? {
        return;
      }
      r := CheckVertexParameters(v, w);
      if r.Fail? {
        return;
      }
      AddEdge(v, w, c);
      if v == w {
        return;
      }
      AddEdge(w, v, c);
    }

    /** Removes (from, to); removing an absent edge is not an error and changes nothing. */
    method Remove(from: int, to: int) returns (r: Outcome)
      requires Valid()
      modifies this, edges
      ensures Valid()
      ensures r.Fail? <==> !(IsVertex(from) && IsVertex(to))
      ensures r.Fail? ==> r.error == InvalidVertex && edges[..] == old(edges[..]) && numEdges == old(numEdges)
      ensures r.Pass? ==> Adjacency() == DropEdge(old(Adjacency()), from, to)
      ensures r.Pass? ==> numEdges == old(numEdges) - if to in old(Adjacency())[from] then 1 else 0
      ensures r.Pass? && to !in old(Adjacency())[from] ==> edges[..] == old(edges[..])
      ensures r.Pass? ==> HasEdge(from, to) == Ok(false)
      ensures r.Pass? ==> edges[from].Some? == old(edges[from]).Some?
      ensures r.Pass? ==> forall u :: 0 <= u < edges.Length && u != from ==> edges[u] == old(edges[u])
    {
      r := CheckVertexParameters(from, to);
      if r.Fail? {
        return;
      }
      RemoveEdge(from, to);
    }

    /** Removes (v, w) and (w, v); a self-loop is removed once. */
    method RemoveBi(v: int, w: int) returns (r: Outcome)
      requires Valid()
      modifies this, edges
      ensures Valid()
      ensures r.Fail? <==> !(IsVertex(v) && IsVertex(w))
      ensures r.Fail? ==> r.error == InvalidVertex && edges[..] == old(edges[..]) && numEdges == old(numEdges)
      ensures r.Pass? && v == w ==> Adjacency() == DropEdge(old(Adjacency()), v, v)
      ensures r.Pass? && v != w ==> Adjacency() == DropEdge(DropEdge(old(Adjacency()), v, w), w, v)
      ensures r.Pass? ==> numEdges == old(numEdges) - OldEdges(old(Adjacency()), v, w)
      ensures r.Pass? ==> HasEdge(v, w) == Ok(false) && HasEdge(w, v) == Ok(false)
      ensures r.Pass? ==> edges[v].Some? == old(edges[v]).Some? && edges[w].Some? == old(edges[w]).Some?
      ensures r.Pass? ==> forall u :: 0 <= u < edges.Length && u != v && u != w ==> edges[u] == old(edges[u])
    {
      r := CheckVertexParameters(v, w);
      if r.Fail? {
        return;
      }
      RemoveEdge(v, w);
      if v == w {
        return;
      }
      RemoveEdge(w, v);
    }

    /**
     * The text of the graph: "{", the tuples of all edges separated by ", ",
     * then "}".  The edges come out vertex by vertex; within one vertex in
     * the arbitrary order of its map, recorded in order.
     */
    method ToString() returns (s: string, ghost order: seq<(int, int, int)>)
      requires Valid()
      ensures |order| == NumEdges()
      ensures Lists(order, Adjacency(), NumVertices())
      ensures ByVertex(order)
      ensures s == "{" + Join(Tuples(order)) + "}"
      ensures NumEdges() == 0 ==> s == "{}"
      ensures NumEdges() > 0 ==> s[|s| - 2..] == ")}"
    {
      ghost var adj := Adjacency();
      var sb := "{";
      order := [];
      var from := 0;
      while from < NumVertices()
        invariant Listed(adj, from, order, sb)
      {
        if ArraySlotIsNotNull(from) {
          ghost var done, sbDone := order, sb;
          sb, order := AppendOutEdges(from, sb, order);
          ListedStep(adj, from, done, sbDone, order, sb);
        } else {
          ListedSkip(adj, from, order, sb);
        }
        from := from + 1;
      }
      assert from == |adj|;
      ListedEnd(adj, order, sb);
      CloseListing(order, sb);
      ListingEnds(order);
      if numEdges > 0 {
        sb := sb[..|sb| - 2];
      }
      sb := sb + "}";
      s := sb;
    }

    /**
     * The inner loop of ToString: appends the tuple and separator of every
     * edge leaving from, in the arbitrary order of its map's keys.
     */
    method AppendOutEdges(from: int, sb: string, ghost order: seq<(int, int, int)>)
      returns (sb': string, ghost order': seq<(int, int, int)>)
      requires Valid() && IsVertex(from) && ArraySlotIsNotNull(from)
      requires ByVertex(order) && forall e :: e in order ==> e.0 < from
      requires sb == "{" + Terminated(Tuples(order))
      ensures |order'| == |order| + |Adjacency()[from]|
      ensures forall e :: e in order' <==>
        e in order || (e.0 == from && e.1 in Adjacency()[from] && e.2 == Adjacency()[from][e.1])
      ensures ByVertex(order')
      ensures sb' == "{" + Terminated(Tuples(order'))
    {
      var out := edges[from].value;
      var rest := out.Keys;
      sb', order' := sb, order;
      while exists k :: k in rest
        invariant Appending(from, out, order, rest, order', sb')
        decreases |rest|
      {
        var to :| to in rest;
        var value := out[to];
        var text;
        if value == NO_COST {
          text := "(" + IntToString(from) + "," + IntToString(to) + "), ";
        } else {
          text := "(" + IntToString(from) + "," + IntToString(to) + "," + IntToString(value) + "), ";
        }
        TupleText((from, to, value));
        AppendingStep(from, out, order, rest, order', sb', to, text);
        sb' := sb' + text;
        order' := order' + [(from, to, value)];
        rest := rest - {to};
      }
      assert rest == {};
    }

    /** An iterator over the neighbours v has now. */
    method Neighbors(v: int) returns (r: Result<NeighborIterator>)
      requires Valid()
      ensures r.Err? <==> !IsVertex(v)
      ensures r.Err? ==> r.error == InvalidVertex
      ensures r.Ok? ==> fresh(r.value) && fresh(r.value.row) && r.value.Valid()
      ensures r.Ok? ==> Elems(r.value.Remaining()) == Adjacency()[v].Keys
      ensures r.Ok? ==> |r.value.Remaining()| == |Adjacency()[v]|
      ensures r.Ok? ==> r.value.nextPos == 0
    {
      var check := CheckVertexParameter(v);
      if check.Fail? {
        return Err(check.error);
      }
      var it := new NeighborIterator(this, v);
      return Ok(it);
    }
  }

  /**
   * The keys of a map in some order, each once.  The order of a hash map's
   * key set is not modelled: any order may come out.
   */
  method KeysToArray(keys: set<int>) returns (a: array<int>)
    ensures a.Length == |keys| && NoDup(a[..]) && Elems(a[..]) == keys
    ensures fresh(a)
  {
    var s: seq<int> := [];
    var rest := keys;
    while exists k :: k in rest
      invariant rest <= keys
      invariant NoDup(s) && Elems(s) == keys - rest
      invariant |s| + |rest| == |keys|
      decreases |rest|
    {
      var k :| k in rest;
      assert Elems(s + [k]) == Elems(s) + {k};
      s := s + [k];
      rest := rest - {k};
    }
    assert rest == {};
    a := new int[|s|](i requires 0 <= i < |s| => s[i]);
    assert a[..] == s;
  }

  /**
   * An iterator over the neighbours of one vertex.  The neighbours are copied
   * out of the vertex's map when the iterator is made; nextPos is the index
   * of the next one to hand out.
   */
  class NeighborIterator {
    var size: int
    var nextPos: int
    var row: array<int>
    /** The degree of the vertex when the iterator was made, or -1 for a null slot. */
    const n: int
    /** The neighbours copied out, in the order they are handed out. */
    ghost var Items: seq<int>

    ghost predicate Valid()
      reads this, row
    {
      && row.Length == size && 0 <= nextPos <= size
      && row[..] == Items && NoDup(Items)
    }

    /** The neighbours still to be handed out, in order. */
    ghost function Remaining(): seq<int>
      reads this
      requires 0 <= nextPos <= |Items|
    {
      Items[nextPos..]
    }

    constructor (g: HashGraph, v: int)
      requires g.Valid() && g.IsVertex(v)
      ensures Valid() && nextPos == 0 && fresh(row)
      ensures Elems(Items) == g.Adjacency()[v].Keys && size == |g.Adjacency()[v]|
      ensures n == if g.edges[v].Some? then |g.edges[v].value| else -1
    {
      nextPos := -1;
      if g.edges[v] == None {
        n := -1;
        size := 0;
        row := new int[0];
        Items := [];
      } else {
        var m := g.edges[v].value;
        n := |m|;
        size := n;
        var keys := KeysToArray(m.Keys);
        row := keys;
        Items := keys[..];
      }
      new;
      FindNext();
    }

    method FindNext()
      modifies this`nextPos
      ensures nextPos == if old(nextPos) == -1 then 0 else old(nextPos) + 1
    {
      if nextPos == -1 {
        nextPos := 0;
        return;
      }
      nextPos := nextPos + 1;
    }

    function HasNext(): (b: bool)
      reads this, row
      requires Valid()
      ensures b <==> nextPos < |Items|
    {
      nextPos < size
    }

    method Next() returns (r: Result<int>)
      requires Valid()
      modifies this`nextPos
      ensures Valid()
      ensures old(nextPos) < |Items| ==> r == Ok(Items[old(nextPos)]) && nextPos == old(nextPos) + 1
      ensures old(nextPos) == |Items| ==> r == Err(NoSuchElement) && nextPos == old(nextPos)
    {
      var pos := nextPos;
      if pos < size {
        FindNext();
        return Ok(row[pos]);
      }
      return Err(NoSuchElement);
    }
  }
}
