/** The table of chains of a graph, one chain per slot of the fixed vertex
    array, and what insertEdge, removeEdge and the edge loop of buildGraph
    do to it. Callers number vertices from 1; the table is indexed from 0. */
module Adjacency {
  import opened Chains

  /** Capacity of the vertex array: the graph holds at most 100 vertices. */
  const MaxVertices: nat := 100

  /** `u` is the 0-based number of one of the `size` vertices of a graph. */
  predicate IsVertex(size: int, u: int)
  {
    0 <= u < size
  }

  /** areInRange: both 0-based indices name vertices of the graph. */
  function AreInRange(size: int, source: int, destination: int): (r: bool)
    ensures r <==> IsVertex(size, source) && IsVertex(size, destination)
  {
    var sourceInRange := 0 <= source && source < size;
    var destInRange := 0 <= destination && destination < size;
    sourceInRange && destInRange
  }

  /** The guard of insertEdge and removeEdge on their 1-based arguments:
      no self-loop, and both ends in range once converted to 0-based. */
  function Accepts(size: int, source: int, destination: int): (r: bool)
    ensures r <==> source != destination && 1 <= source <= size && 1 <= destination <= size
  {
    source - 1 != destination - 1 && AreInRange(size, source - 1, destination - 1)
  }

  /** The invariant of the table: every record in the chain of a vertex
      names another vertex of the graph, and the slots past `size` hold no
      records. Nothing says a target occurs only once in a chain. */
  ghost predicate WellFormed(g: seq<seq<int>>, size: int)
  {
    0 <= size <= |g| &&
    (forall u, x :: 0 <= u < size && x in g[u] ==> 0 <= x < size && x != u) &&
    (forall u :: size <= u < |g| ==> g[u] == [])
  }

  /** insertEdge on the table. */
  function InsertEdgeInto(g: seq<seq<int>>, size: int, source: int, destination: int): (r: seq<seq<int>>)
    requires 0 <= size <= |g|
    ensures |r| == |g|
    ensures !Accepts(size, source, destination) ==> r == g
    ensures Accepts(size, source, destination) ==> r[source - 1] == g[source - 1] + [destination - 1]
    ensures forall u :: 0 <= u < |g| && u != source - 1 ==> r[u] == g[u]
  {
    var vertexFrom := source - 1;
    var vertexTo := destination - 1;
    if vertexFrom != vertexTo && AreInRange(size, vertexFrom, vertexTo) then
      g[vertexFrom := InsertHelper(g[vertexFrom], vertexTo)]
    else
      g
  }

  /** removeEdge on the table. */
  function RemoveEdgeFrom(g: seq<seq<int>>, size: int, source: int, destination: int): (r: seq<seq<int>>)
    requires 0 <= size <= |g|
    ensures |r| == |g|
    ensures !Accepts(size, source, destination) ==> r == g
    ensures Accepts(size, source, destination) && destination - 1 !in g[source - 1] ==> r == g
    ensures Accepts(size, source, destination) && destination - 1 in g[source - 1] ==>
      var chain := g[source - 1];
      var i := FirstIndex(chain, destination - 1);
      r[source - 1] == chain[..i] + chain[i + 1..]
    ensures forall u :: 0 <= u < |g| && u != source - 1 ==> r[u] == g[u]
  {
    var vertexFrom := source - 1;
    var vertexTo := destination - 1;
    if vertexFrom != vertexTo && AreInRange(size, vertexFrom, vertexTo) then
      if vertexTo in g[vertexFrom] then
        RemoveHelperCutsFirst(g[vertexFrom], vertexTo);
        g[vertexFrom := RemoveHelper(g[vertexFrom], vertexTo)]
      else
        g[vertexFrom := RemoveHelper(g[vertexFrom], vertexTo)]
    else
      g
  }

  /** insertEdge keeps the table well formed. */
  lemma InsertEdgeKeepsWellFormed(g: seq<seq<int>>, size: int, source: int, destination: int)
    requires WellFormed(g, size)
    ensures WellFormed(InsertEdgeInto(g, size, source, destination), size)
  {
    var r := InsertEdgeInto(g, size, source, destination);
    forall u, x | 0 <= u < size && x in r[u]
      ensures 0 <= x < size && x != u
    {
      if u == source - 1 && Accepts(size, source, destination) {
        assert x in g[u] || x == destination - 1;
      }
    }
  }

  /** removeEdge keeps the table well formed. */
  lemma RemoveEdgeKeepsWellFormed(g: seq<seq<int>>, size: int, source: int, destination: int)
    requires WellFormed(g, size)
    ensures WellFormed(RemoveEdgeFrom(g, size, source, destination), size)
  {
    var r := RemoveEdgeFrom(g, size, source, destination);
    forall u, x | 0 <= u < size && x in r[u]
      ensures 0 <= x < size && x != u
    {
      if u == source - 1 && Accepts(size, source, destination) {
        assert r[u] == RemoveHelper(g[u], destination - 1);
        assert x in g[u];
      }
    }
  }

  /** Removing an edge just inserted restores the table exactly, unless the
      same record was already in the source's chain. */
  lemma InsertThenRemoveEdge(g: seq<seq<int>>, size: int, source: int, destination: int)
    requires 0 <= size <= |g|
    requires Accepts(size, source, destination) ==> destination - 1 !in g[source - 1]
    ensures RemoveEdgeFrom(InsertEdgeInto(g, size, source, destination), size, source, destination) == g
  {
    if Accepts(size, source, destination) {
      var u := source - 1;
      var once := InsertEdgeInto(g, size, source, destination);
      InsertThenRemove(g[u], destination - 1);
      assert once[u] == InsertHelper(g[u], destination - 1);
      assert RemoveEdgeFrom(once, size, source, destination) == once[u := RemoveHelper(once[u], destination - 1)];
    }
  }

  /** Inserting the same edge twice leaves two records for it: insertion is
      not idempotent. */
  lemma InsertEdgeTwice(g: seq<seq<int>>, size: int, source: int, destination: int)
    requires 0 <= size <= |g|
    requires Accepts(size, source, destination)
    ensures
      var twice := InsertEdgeInto(InsertEdgeInto(g, size, source, destination), size, source, destination);
      twice[source - 1] == g[source - 1] + [destination - 1, destination - 1]
  {
  }

  /** The edge loop of buildGraph: insert the 1-based pairs in order and
      stop at the first pair whose source is 0 (its destination is not
      looked at) or when the pairs run out. */
  function BuildEdges(g: seq<seq<int>>, size: int, pairs: seq<(int, int)>): (r: seq<seq<int>>)
    requires 0 <= size <= |g|
    ensures |r| == |g|
    decreases |pairs|
  {
    if pairs == [] || pairs[0].0 == 0 then g
    else BuildEdges(InsertEdgeInto(g, size, pairs[0].0, pairs[0].1), size, pairs[1..])
  }

  /** One turn of the edge loop: a pair with a nonzero source is inserted
      and the loop goes on with the rest. */
  lemma BuildEdgesStep(g: seq<seq<int>>, size: int, pair: (int, int), rest: seq<(int, int)>)
    requires 0 <= size <= |g| && pair.0 != 0
    ensures BuildEdges(g, size, [pair] + rest) == BuildEdges(InsertEdgeInto(g, size, pair.0, pair.1), size, rest)
  {
    assert ([pair] + rest)[1..] == rest;
  }

  /** Pairs after the first one with source 0 are never inserted. */
  lemma {:induction false} BuildEdgesStopsAtZeroSource(g: seq<seq<int>>, size: int, before: seq<(int, int)>, destination: int, after: seq<(int, int)>)
    requires 0 <= size <= |g|
    requires forall j :: 0 <= j < |before| ==> before[j].0 != 0
    ensures BuildEdges(g, size, before + [(0, destination)] + after) == BuildEdges(g, size, before)
    decreases |before|
  {
    if before == [] {
      assert (before + [(0, destination)] + after)[0].0 == 0;
    } else {
      var next := InsertEdgeInto(g, size, before[0].0, before[0].1);
      assert (before + [(0, destination)] + after)[1..] == before[1..] + [(0, destination)] + after;
      BuildEdgesStopsAtZeroSource(next, size, before[1..], destination, after);
    }
  }

  /** The edge loop of buildGraph keeps the table well formed, whatever the
      pairs are. */
  lemma {:induction false} BuildEdgesKeepsWellFormed(g: seq<seq<int>>, size: int, pairs: seq<(int, int)>)
    requires WellFormed(g, size)
    ensures WellFormed(BuildEdges(g, size, pairs), size)
    decreases |pairs|
  {
    if pairs != [] && pairs[0].0 != 0 {
      InsertEdgeKeepsWellFormed(g, size, pairs[0].0, pairs[0].1);
      BuildEdgesKeepsWellFormed(InsertEdgeInto(g, size, pairs[0].0, pairs[0].1), size, pairs[1..]);
    }
  }

  /** Vertices A, B, C with the pairs (1,2), (2,3), (0,0): vertex 0 points
      to 1, vertex 1 points to 2, vertex 2 has no records. */
  lemma BuildEdgesThreeVertices()
    ensures BuildEdges([[], [], []], 3, [(1, 2), (2, 3), (0, 0)]) == [[1], [2], []]
  {
    var pairs := [(1, 2), (2, 3), (0, 0)];
    var g1 := InsertEdgeInto([[], [], []], 3, 1, 2);
    assert g1 == [[1], [], []];
    var g2 := InsertEdgeInto(g1, 3, 2, 3);
    assert g2 == [[1], [2], []];
    assert pairs[1..][1..] == [(0, 0)];
  }
}
