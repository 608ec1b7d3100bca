/** The Graph class: a fixed array of vertex slots, each with a payload and
    the chain of its adjacency records, and the operations that build,
    copy, destroy and edit it, and enumerate its connected subgraphs. */
module Graphs {
  import opened Chains
  import opened Adjacency
  import opened Extension
  import opened Enumeration

  /** In a well-formed table, getExtension on a slot's chain only adds
      vertices of the graph. */
  lemma CandidatesInRange(g: seq<seq<int>>, size: int, v: int, extension: seq<int>)
    requires WellFormed(g, size) && 0 <= v < |g|
    requires forall x :: x in extension ==> 0 <= x < size
    ensures forall x :: x in GetExtension(v, g[v], extension) ==> 0 <= x < size
  {
    GetExtensionMembers(v, g[v], extension);
  }

  /** The payload of a vertex: a description, or none (a null pointer). */
  datatype Payload = Null | Data(description: string)

  class Graph {
    /** Number of vertices in use; slots 0 .. size - 1 hold them. */
    var size: int
    /** The edge chain of each slot. */
    const chains: array<seq<int>>
    /** The payload of each slot. */
    const data: array<Payload>

    /** The object invariant: both arrays have the fixed capacity, the
        table of chains is well formed, and unused slots have no payload. */
    ghost predicate Valid()
      reads this, chains, data
    {
      chains.Length == MaxVertices && data.Length == MaxVertices &&
      WellFormed(chains[..], size) &&
      forall u :: size <= u < MaxVertices ==> data[u] == Null
    }

    /** Every slot has no records and no payload. */
    ghost predicate Emptied()
      reads this, chains, data
      requires Valid()
    {
      forall u :: 0 <= u < MaxVertices ==> chains[u] == [] && data[u] == Null
    }

    /** The default constructor: no vertices, every slot empty. */
    constructor ()
      ensures Valid() && fresh(chains) && fresh(data)
      ensures size == 0 && Emptied()
    {
      size := 0;
      chains := new seq<int>[MaxVertices](_ => []);
      data := new Payload[MaxVertices](_ => Null);
    }

    /** The copy constructor with copyAllVertices: the same size, and for
        each vertex a copy of its payload and of its chain, record by
        record, in new arrays. */
    constructor Copy(other: Graph)
      requires other.Valid()
      ensures Valid() && fresh(chains) && fresh(data)
      ensures size == other.size
      ensures chains[..] == other.chains[..] && data[..] == other.data[..]
    {
      size := other.size;
      var newChains := new seq<int>[MaxVertices](_ => []);
      var newData := new Payload[MaxVertices](_ => Null);
      for i := 0 to other.size
        invariant forall u :: 0 <= u < i ==> newChains[u] == other.chains[u] && newData[u] == other.data[u]
        invariant forall u :: i <= u < MaxVertices ==> newChains[u] == [] && newData[u] == Null
      {
        newData[i] := other.data[i];
        newChains[i] := CopyAllEdge(other.chains[i]);
      }
      chains := newChains;
      data := newData;
      new;
      assert forall u :: other.size <= u < MaxVertices ==> other.chains[..][u] == [];
      assert chains[..] == other.chains[..];
    }

    /** The destructor with removeAllEdge: every chain of a vertex emptied
        and every payload released. Slots past `size` are already empty,
        so a second call changes nothing. */
    method Destroy()
      requires Valid()
      modifies chains, data
      ensures Valid() && Emptied()
    {
      for i := 0 to size
        invariant forall u :: 0 <= u < i ==> chains[u] == [] && data[u] == Null
        invariant forall u :: size <= u < MaxVertices ==> chains[u] == [] && data[u] == Null
      {
        chains[i] := [];
        data[i] := Null;
      }
    }

    /** buildGraph on a graph with no vertices yet, from the payload lines
        already read and the stream of 1-based pairs: one vertex per
        payload, then the edge loop. */
    method BuildGraph(payloads: seq<string>, pairs: seq<(int, int)>)
      requires Valid() && size == 0
      requires |payloads| <= MaxVertices
      modifies this, chains, data
      ensures Valid()
      ensures size == |payloads|
      ensures forall u :: 0 <= u < size ==> data[u] == Data(payloads[u])
      ensures chains[..] == BuildEdges(old(chains[..]), size, pairs)
    {
      ghost var initial := chains[..];
      size := |payloads|;
      for v := 0 to size
        modifies data
        invariant forall u :: 0 <= u < v ==> data[u] == Data(payloads[u])
        invariant forall u :: size <= u < MaxVertices ==> data[u] == Null
      {
        data[v] := Data(payloads[v]);
      }
      assert WellFormed(chains[..], size);
      assert pairs[0..] == pairs;
      assert chains[..] == initial;
      var i := 0;
      while i < |pairs|
        modifies chains
        invariant 0 <= i <= |pairs|
        invariant Valid()
        invariant BuildEdges(chains[..], size, pairs[i..]) == BuildEdges(old(chains[..]), size, pairs)
        invariant forall u :: 0 <= u < size ==> data[u] == Data(payloads[u])
        decreases |pairs| - i
      {
        var (src, dest) := pairs[i];
        if src == 0 {
          break;
        }
        InsertEdge(src, dest);
        i := i + 1;
      }
    }

    /** insertEdge with insertHelper. */
    method InsertEdge(source: int, destination: int)
      requires Valid()
      modifies chains
      ensures Valid()
      ensures chains[..] == InsertEdgeInto(old(chains[..]), size, source, destination)
    {
      InsertEdgeKeepsWellFormed(chains[..], size, source, destination);
      var vertexFrom := source - 1;
      var vertexTo := destination - 1;
      if vertexFrom != vertexTo && AreInRange(size, vertexFrom, vertexTo) {
        chains[vertexFrom] := InsertHelper(chains[vertexFrom], vertexTo);
      }
    }

    /** removeEdge with removeHelper. */
    method RemoveEdge(source: int, destination: int)
      requires Valid()
      modifies chains
      ensures Valid()
      ensures chains[..] == RemoveEdgeFrom(old(chains[..]), size, source, destination)
    {
      RemoveEdgeKeepsWellFormed(chains[..], size, source, destination);
      var vertexFrom := source - 1;
      var vertexTo := destination - 1;
      if vertexFrom != vertexTo && AreInRange(size, vertexFrom, vertexTo) {
        chains[vertexFrom] := RemoveHelper(chains[vertexFrom], vertexTo);
      }
    }

    /** extendSubgraph: the printed lines, in order, of every subgraph
        grown from `sub` with the candidates `extension`. The list is
        popped from the front; the subgraph is pushed and popped back
        around each recursive call. The root `v` is passed along unused. */
    method ExtendSubgraph(sub: seq<int>, extension: seq<int>, v: int, k: int) returns (lines: seq<seq<int>>)
      requires Valid()
      requires forall x :: x in extension ==> 0 <= x < size
      ensures lines == PrintedAll(Subgraphs(chains[..], sub, extension, k))
      decreases k - |sub|
    {
      if |sub| == k {
        lines := [Printed(sub)];
        return;
      }
      ghost var g := chains[..];
      lines := [];
      var subgraph := sub;
      var candidates := extension;
      while candidates != [] && |subgraph| < k
        invariant subgraph == sub
        invariant forall x :: x in candidates ==> 0 <= x < size
        invariant lines + PrintedAll(Subgraphs(g, sub, candidates, k)) == PrintedAll(Subgraphs(g, sub, extension, k))
        decreases |candidates|
      {
        var w := candidates[0];
        PrintedStep(g, sub, candidates, k, lines, PrintedAll(Subgraphs(g, sub, extension, k)));
        ghost var before := candidates;
        candidates := candidates[1..];
        assert forall x :: x in candidates ==> x in before;
        assert w in before;
        subgraph := subgraph + [w];
        assert chains[w] == Neighbours(g, w);
        var nextCandidates := GetExtension(w, chains[w], candidates);
        CandidatesInRange(g, size, w, candidates);
        var emitted := ExtendSubgraph(subgraph, nextCandidates, v, k);
        lines := lines + emitted;
        subgraph := subgraph[..|subgraph| - 1];
      }
    }

    /** enumerateSubgraph: for every root 0 .. size (the loop bound is
        `i <= size`, so the empty slot just past the last vertex is a root
        too), the subgraph [root] with candidates getExtension(root, []). */
    method EnumerateSubgraph(k: int) returns (lines: seq<seq<int>>)
      requires Valid()
      requires k >= 1 && size < MaxVertices
      ensures lines == PrintedAll(AllSubgraphs(chains[..], size + 1, k))
      ensures forall line :: line in lines ==>
        |line| == k && 1 <= line[0] <= size + 1 && forall j :: 1 <= j < k ==> line[j] > line[0]
      ensures k == 1 ==> lines == seq(size + 1, i => [i + 1])
    {
      lines := [];
      ghost var g := chains[..];
      for i := 0 to size + 1
        invariant lines == PrintedAll(AllSubgraphs(g, i, k))
      {
        var subgraph := [i];
        var extension := GetExtension(i, chains[i], []);
        assert Neighbours(g, i) == g[i] == chains[i];
        CandidatesInRange(g, size, i, []);
        var emitted := ExtendSubgraph(subgraph, extension, i, k);
        assert emitted == PrintedAll(RootSubgraphs(g, i, k));
        PrintedAllNextRoot(g, i, k);
        lines := lines + emitted;
      }
      assert g == chains[..];
      PrintedAllSubgraphsShape(g, size + 1, k);
      if k == 1 {
        PrintedAllSubgraphsOfSizeOne(g, size + 1);
      }
    }
  }

  /** A copy shares no state with its source: editing the copy's edges
      leaves every chain and payload of the source as it was. */
  method CopyThenEdit(g: Graph, source: int, destination: int) returns (c: Graph)
    requires g.Valid()
    ensures fresh(c) && c.Valid() && c.size == g.size
    ensures c.chains[..] == InsertEdgeInto(g.chains[..], g.size, source, destination)
    ensures g.chains[..] == old(g.chains[..]) && g.data[..] == old(g.data[..])
  {
    c := new Graph.Copy(g);
    c.InsertEdge(source, destination);
  }
}
