/**
 * The undirected graph of chapter 4: a list of vertices and, per vertex
 * index, the list of edges leaving it. An undirected edge is stored twice,
 * once from each end. List indexing follows Python: an index i with
 * -n <= i < n selects position i (or n + i when negative); any other index
 * raises IndexError. `list.index` raises ValueError for an absent value.
 */
module Graphs {
  import opened Wrappers
  import opened Edges

  datatype GraphError = IndexError | ValueError

  /** Whether Python accepts i as an index into a list of length n. */
  predicate InRange(i: int, n: int)
  {
    -n <= i < n
  }

  /** The position Python selects for an accepted index. */
  function PyIndex(i: int, n: int): (k: int)
    requires InRange(i, n)
    ensures 0 <= k < n && (i >= 0 ==> k == i)
  {
    if i < 0 then n + i else i
  }

  /** `list.index(x)`: the first position holding x. */
  function FirstIndex<V(==)>(s: seq<V>, x: V): (r: Option<nat>)
    ensures r.None? <==> x !in s
    ensures r.Some? ==> r.value < |s| && s[r.value] == x && x !in s[..r.value]
  {
    if s == [] then None
    else if s[0] == x then Some(0)
    else
      match FirstIndex(s[1..], x)
      case None => None
      case Some(k) => assert s[..k + 1] == [s[0]] + s[1..][..k]; Some(k + 1)
  }

  /** `sum(map(len, lists))`. */
  function TotalLength<E>(lists: seq<seq<E>>): (n: nat)
    ensures n == 0 <==> forall i :: 0 <= i < |lists| ==> lists[i] == []
  {
    if lists == [] then 0 else TotalLength(lists[..|lists| - 1]) + |lists[|lists| - 1]|
  }

  lemma {:induction false} TotalLengthAppend<E>(lists: seq<seq<E>>, l: seq<E>)
    ensures TotalLength(lists + [l]) == TotalLength(lists) + |l|
  {
    assert (lists + [l])[..|lists|] == lists;
  }

  /** Replacing one list changes the total by the difference in length. */
  lemma {:induction false} TotalLengthUpdate<E>(lists: seq<seq<E>>, i: int, l: seq<E>)
    requires 0 <= i < |lists|
    ensures TotalLength(lists[i := l]) == TotalLength(lists) - |lists[i]| + |l|
  {
    var last := |lists| - 1;
    if i < last {
      assert lists[i := l][..last] == lists[..last][i := l];
      TotalLengthUpdate(lists[..last], i, l);
    } else {
      assert lists[i := l][..last] == lists[..last];
    }
  }

  /** One empty list per index. */
  function EmptyLists<E>(n: nat): (r: seq<seq<E>>)
    ensures |r| == n && forall i :: 0 <= i < n ==> r[i] == []
  {
    seq(n, _ => [])
  }

  lemma {:induction false} TotalLengthEmpty<E>(n: nat)
    ensures TotalLength(EmptyLists<E>(n)) == 0
  {
    if n > 0 {
      assert EmptyLists<E>(n)[..n - 1] == EmptyLists<E>(n - 1);
      TotalLengthEmpty<E>(n - 1);
    }
  }

  class Graph<V(==)> {
    var vertices: seq<V>
    var edges: seq<seq<Edge>>

    /** There is one edge list per vertex. */
    ghost predicate Valid()
      reads this
    {
      |vertices| == |edges|
    }

    /**
     * Every edge stored in the list of index i leaves i and reaches an
     * existing vertex. This holds as long as edges are added between
     * non-negative indices of existing vertices.
     */
    ghost predicate Anchored()
      reads this
    {
      AnchoredLists(edges, vertices)
    }

    /** `Graph(vertices)`: no edges yet, one empty list per vertex. */
    constructor (vs: seq<V>)
      ensures vertices == vs && edges == EmptyLists(|vs|)
      ensures Anchored() && EdgeCount() == 0
    {
      vertices := vs;
      edges := EmptyLists(|vs|);
      new;
      TotalLengthEmpty<Edge>(|vs|);
    }

    /** `vertex_count`. */
    function VertexCount(): (n: nat)
      reads this
      ensures n == |vertices|
      ensures Valid() ==> n == |edges|
    {
      |vertices|
    }

    /** `edge_count`: the lengths of all edge lists added up. */
    function EdgeCount(): (c: nat)
      reads this
      ensures c == 0 <==> forall i :: 0 <= i < |edges| ==> edges[i] == []
    {
      TotalLength(edges)
    }

    /** `add_vertex(vertex)`: append the vertex and an empty edge list; return its index. */
    method AddVertex(vertex: V) returns (index: nat)
      modifies this
      ensures vertices == old(vertices) + [vertex] && edges == old(edges) + [[]]
      ensures index == old(VertexCount()) && vertices[index] == vertex
      ensures old(Valid()) ==> Valid() && edges[index] == []
      ensures old(Anchored()) ==> Anchored()
      ensures EdgeCount() == old(EdgeCount())
    {
      vertices := vertices + [vertex];
      edges := edges + [[]];
      TotalLengthAppend(old(edges), []);
      index := VertexCount() - 1;
    }

    /**
     * `add_edge(edge)`: append the edge to the list of `edge.u`, then its
     * reversal to the list of `edge.v`. A bad `u` raises IndexError before
     * anything changes; a bad `v` raises it after the first append.
     */
    method AddEdge(edge: Edge) returns (err: Option<GraphError>)
      requires Valid()
      modifies this
      ensures Valid() && vertices == old(vertices)
      ensures !InRange(edge.u, |edges|) ==> err == Some(IndexError) && edges == old(edges)
      ensures InRange(edge.u, |edges|) && !InRange(edge.v, |edges|) ==>
        err == Some(IndexError) && edges == AppendAt(old(edges), edge.u, edge)
      ensures InRange(edge.u, |edges|) && InRange(edge.v, |edges|) ==>
        err == None && edges == AppendAt(AppendAt(old(edges), edge.u, edge), edge.v, Reversed(edge))
    {
      var n := |edges|;
      if !InRange(edge.u, n) {
        return Some(IndexError);
      }
      edges := AppendAt(edges, edge.u, edge);
      if !InRange(edge.v, n) {
        return Some(IndexError);
      }
      edges := AppendAt(edges, edge.v, Reversed(edge));
      return None;
    }

    /** `add_edge_by_indices(u, v)`. */
    method AddEdgeByIndices(u: int, v: int) returns (err: Option<GraphError>)
      requires Valid()
      modifies this
      ensures Valid() && vertices == old(vertices)
      ensures err.None? <==> InRange(u, |edges|) && InRange(v, |edges|)
      ensures err.None? ==> edges == AppendAt(AppendAt(old(edges), u, Edge(u, v)), v, Edge(v, u))
      ensures err.None? ==> EdgeCount() == old(EdgeCount()) + 2
      ensures err.None? && 0 <= u && 0 <= v && old(Anchored()) ==> Anchored()
      ensures err.None? && 0 <= u && 0 <= v && old(Anchored()) ==>
        NeighborsForIndex(u) == Ok(old(NeighborsForIndex(u)).value + [vertices[v]] + (if u == v then [vertices[u]] else []))
      ensures err.None? && 0 <= u && 0 <= v && old(Anchored()) ==>
        vertices[v] in NeighborsForIndex(u).value && vertices[u] in NeighborsForIndex(v).value
    {
      err := AddEdge(Edge(u, v));
      if err.None? {
        AppendAtCount(old(edges), u, Edge(u, v));
        AppendAtCount(AppendAt(old(edges), u, Edge(u, v)), v, Edge(v, u));
        if 0 <= u && 0 <= v && old(Anchored()) {
          AddEdgeAnchored(old(edges), vertices, u, v);
          AddEdgeNeighbors(old(edges), vertices, u, v);
          BothNeighbors(old(edges), vertices, u, v);
        }
      }
    }

    /** `add_edge_by_vertices(first, second)`: look both vertices up, then add the edge. */
    method AddEdgeByVertices(first: V, second: V) returns (err: Option<GraphError>)
      requires Valid()
      modifies this
      ensures Valid() && vertices == old(vertices)
      ensures first !in vertices || second !in vertices ==> err == Some(ValueError) && edges == old(edges)
      ensures first in vertices && second in vertices ==> err == None
      ensures err.None? ==>
        var u := FirstIndex(vertices, first).value;
        var v := FirstIndex(vertices, second).value;
        edges == AppendAt(AppendAt(old(edges), u, Edge(u, v)), v, Edge(v, u))
      ensures err.None? && old(Anchored()) ==> Anchored() && EdgeCount() == old(EdgeCount()) + 2
      ensures err.None? && old(Anchored()) ==>
        second in NeighborsForVertex(first).value && first in NeighborsForVertex(second).value
    {
      var u := IndexOf(first);
      if u.Err? {
        return Some(ValueError);
      }
      var v := IndexOf(second);
      if v.Err? {
        return Some(ValueError);
      }
      err := AddEdgeByIndices(u.value, v.value);
    }

    /** `vertex_at(index)`. */
    function VertexAt(index: int): (r: Result<V, GraphError>)
      reads this
      ensures r.Ok? <==> InRange(index, |vertices|)
      ensures r.Ok? ==> r.value == vertices[PyIndex(index, |vertices|)]
    {
      if InRange(index, |vertices|) then Ok(vertices[PyIndex(index, |vertices|)]) else Err(IndexError)
    }

    /** `index_of(vertex)`: the first index holding the vertex. */
    function IndexOf(vertex: V): (r: Result<nat, GraphError>)
      reads this
      ensures r.Err? <==> vertex !in vertices
      ensures r.Ok? ==> r.value < |vertices| && vertices[r.value] == vertex && vertex !in vertices[..r.value]
    {
      match FirstIndex(vertices, vertex)
      case None => Err(ValueError)
      case Some(k) => Ok(k)
    }

    /** `edges_for_index(index)`. */
    function EdgesForIndex(index: int): (r: Result<seq<Edge>, GraphError>)
      reads this
      ensures r.Ok? <==> InRange(index, |edges|)
      ensures r.Ok? ==> r.value == edges[PyIndex(index, |edges|)]
    {
      if InRange(index, |edges|) then Ok(edges[PyIndex(index, |edges|)]) else Err(IndexError)
    }

    /** `edges_for_vertex(vertex)`. */
    function EdgesForVertex(vertex: V): (r: Result<seq<Edge>, GraphError>)
      reads this
      requires Valid()
      ensures vertex !in vertices ==> r == Err(ValueError)
      ensures vertex in vertices ==> r.Ok? && r.value == edges[FirstIndex(vertices, vertex).value]
    {
      match IndexOf(vertex)
      case Err(e) => Err(e)
      case Ok(i) => EdgesForIndex(i)
    }

    /** `neighbors_for_index(index)`: the vertex at the far end of each edge, in list order. */
    function NeighborsForIndex(index: int): (r: Result<seq<V>, GraphError>)
      reads this
      requires Valid()
      ensures !InRange(index, |edges|) ==> r == Err(IndexError)
      ensures r.Ok? ==> InRange(index, |edges|)
      ensures r.Ok? ==>
        var es := edges[PyIndex(index, |edges|)];
        |r.value| == |es| && forall k :: 0 <= k < |es| ==> Ok(r.value[k]) == VertexAt(es[k].v)
      ensures Anchored() && InRange(index, |vertices|) ==> r.Ok?
    {
      match EdgesForIndex(index)
      case Err(e) => Err(e)
      case Ok(es) => FarEnds(vertices, es)
    }

    /** `neighbors_for_vertex(vertex)`. */
    function NeighborsForVertex(vertex: V): (r: Result<seq<V>, GraphError>)
      reads this
      requires Valid()
      ensures vertex !in vertices ==> r == Err(ValueError)
      ensures Anchored() && vertex in vertices ==> r.Ok? && r == NeighborsForIndex(FirstIndex(vertices, vertex).value)
    {
      match IndexOf(vertex)
      case Err(e) => Err(e)
      case Ok(i) => NeighborsForIndex(i)
    }
  }

  /** `lists[i].append(x)`, with Python's index. */
  function AppendAt<E>(lists: seq<seq<E>>, i: int, x: E): (r: seq<seq<E>>)
    requires InRange(i, |lists|)
    ensures |r| == |lists|
    ensures forall k :: 0 <= k < |lists| ==>
      r[k] == if k == PyIndex(i, |lists|) then lists[k] + [x] else lists[k]
  {
    var k := PyIndex(i, |lists|);
    lists[k := lists[k] + [x]]
  }

  lemma AppendAtCount<E>(lists: seq<seq<E>>, i: int, x: E)
    requires InRange(i, |lists|)
    ensures TotalLength(AppendAt(lists, i, x)) == TotalLength(lists) + 1
  {
    var k := PyIndex(i, |lists|);
    TotalLengthUpdate(lists, k, lists[k] + [x]);
  }

  /** `map(vertex_at, [e.v for e in es])`, failing at the first far end out of range. */
  function FarEnds<V>(vertices: seq<V>, es: seq<Edge>): (r: Result<seq<V>, GraphError>)
    ensures r.Ok? <==> forall k :: 0 <= k < |es| ==> InRange(es[k].v, |vertices|)
    ensures r.Ok? ==>
      && |r.value| == |es|
      && forall k :: 0 <= k < |es| ==> r.value[k] == vertices[PyIndex(es[k].v, |vertices|)]
  {
    if es == [] then Ok([])
    else if !InRange(es[0].v, |vertices|) then Err(IndexError)
    else
      match FarEnds(vertices, es[1..])
      case Err(e) => Err(e)
      case Ok(rest) =>
        assert forall k :: 1 <= k < |es| ==> es[k] == es[1..][k - 1];
        Ok([vertices[PyIndex(es[0].v, |vertices|)]] + rest)
  }

  /** The edge lists of a graph whose stored edges are all anchored. */
  ghost predicate AnchoredLists<V>(edges: seq<seq<Edge>>, vertices: seq<V>)
  {
    && |vertices| == |edges|
    && (forall i, k :: 0 <= i < |edges| && 0 <= k < |edges[i]| ==>
          edges[i][k].u == i && 0 <= edges[i][k].v < |vertices|)
  }

  /** Adding an edge between two existing non-negative indices keeps every edge anchored. */
  lemma AddEdgeAnchored<V>(edges: seq<seq<Edge>>, vertices: seq<V>, u: int, v: int)
    requires AnchoredLists(edges, vertices) && 0 <= u < |edges| && 0 <= v < |edges|
    ensures AnchoredLists(AppendAt(AppendAt(edges, u, Edge(u, v)), v, Edge(v, u)), vertices)
  {
  }

  /** After the edge (u, v) is added, the neighbours of u are the old ones followed by v. */
  lemma AddEdgeNeighbors<V>(edges: seq<seq<Edge>>, vertices: seq<V>, u: int, v: int)
    requires AnchoredLists(edges, vertices) && 0 <= u < |edges| && 0 <= v < |edges|
    ensures FarEnds(vertices, AppendAt(AppendAt(edges, u, Edge(u, v)), v, Edge(v, u))[u]) ==
            Ok(FarEnds(vertices, edges[u]).value + [vertices[v]] + (if u == v then [vertices[u]] else []))
  {
    var e2 := AppendAt(AppendAt(edges, u, Edge(u, v)), v, Edge(v, u));
    assert FarEnds(vertices, edges[u]).Ok?;
    FarEndsSnoc(vertices, edges[u], Edge(u, v));
    if u == v {
      assert e2[u] == (edges[u] + [Edge(u, v)]) + [Edge(v, u)];
      FarEndsSnoc(vertices, edges[u] + [Edge(u, v)], Edge(v, u));
    } else {
      assert e2[u] == edges[u] + [Edge(u, v)];
      assert FarEnds(vertices, edges[u]).value + [vertices[v]] + [] == FarEnds(vertices, edges[u]).value + [vertices[v]];
    }
  }

  /** Appending an edge whose far end is in range appends that vertex to the far ends. */
  lemma FarEndsSnoc<V>(vertices: seq<V>, es: seq<Edge>, e: Edge)
    requires FarEnds(vertices, es).Ok? && 0 <= e.v < |vertices|
    ensures FarEnds(vertices, es + [e]) == Ok(FarEnds(vertices, es).value + [vertices[e.v]])
  {
    var got := FarEnds(vertices, es + [e]);
    assert (es + [e])[|es|] == e;
    assert forall k :: 0 <= k < |es| ==> (es + [e])[k] == es[k];
    assert got.value == FarEnds(vertices, es).value + [vertices[e.v]];
  }

  lemma BothNeighbors<V>(edges: seq<seq<Edge>>, vertices: seq<V>, u: int, v: int)
    requires AnchoredLists(edges, vertices) && 0 <= u < |edges| && 0 <= v < |edges|
    ensures var e2 := AppendAt(AppendAt(edges, u, Edge(u, v)), v, Edge(v, u));
      && FarEnds(vertices, e2[u]).Ok? && vertices[v] in FarEnds(vertices, e2[u]).value
      && FarEnds(vertices, e2[v]).Ok? && vertices[u] in FarEnds(vertices, e2[v]).value
  {
    var e2 := AppendAt(AppendAt(edges, u, Edge(u, v)), v, Edge(v, u));
    AddEdgeAnchored(edges, vertices, u, v);
    assert e2[u][|edges[u]|] == Edge(u, v);
    AnchoredFarEnd(e2, vertices, u, |edges[u]|);
    assert e2[v][|e2[v]| - 1] == Edge(v, u);
    AnchoredFarEnd(e2, vertices, v, |e2[v]| - 1);
  }

  /** In an anchored graph every neighbour list can be read, and its k-th entry is the far end of edge k. */
  lemma AnchoredFarEnd<V>(edges: seq<seq<Edge>>, vertices: seq<V>, i: int, k: int)
    requires AnchoredLists(edges, vertices) && 0 <= i < |edges| && 0 <= k < |edges[i]|
    ensures FarEnds(vertices, edges[i]).Ok?
    ensures vertices[edges[i][k].v] in FarEnds(vertices, edges[i]).value
  {
    assert FarEnds(vertices, edges[i]).value[k] == vertices[edges[i][k].v];
  }
}
