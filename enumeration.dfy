/** What enumerateSubgraph and extendSubgraph emit, as functions of the
    table of chains. A subgraph is the list of its 0-based vertices in the
    order they were added; the first one is the root. The lines printed are
    the same lists numbered from 1. */
module Enumeration {
  import opened Extension
  import opened Adjacency

  /** The chain of vertex `u`; a number outside the table has none. */
  function Neighbours(g: seq<seq<int>>, u: int): seq<int>
  {
    if 0 <= u < |g| then g[u] else []
  }

  /** The chain of `a` holds a record for `b`. */
  predicate HasArc(g: seq<seq<int>>, a: int, b: int)
  {
    b in Neighbours(g, a)
  }

  /** extendSubgraph: the subgraphs emitted from the partial subgraph `sub`
      with candidate list `extension`, in emission order. While `sub` is
      short of `k` vertices, the front candidate `w` is popped, `sub` is
      extended by `w` with the candidates getExtension(w, rest) and the
      search then goes on with `sub` itself and the rest of the list. */
  function Subgraphs(g: seq<seq<int>>, sub: seq<int>, extension: seq<int>, k: int): seq<seq<int>>
    decreases k - |sub|, |extension|
  {
    if |sub| == k then [sub]
    else if |sub| > k || extension == [] then []
    else
      var w := extension[0];
      var rest := extension[1..];
      Subgraphs(g, sub + [w], GetExtension(w, Neighbours(g, w), rest), k) + Subgraphs(g, sub, rest, k)
  }

  /** The search from root `i`: the subgraph [i] with the candidates
      getExtension(i, []). */
  function RootSubgraphs(g: seq<seq<int>>, i: int, k: int): seq<seq<int>>
  {
    Subgraphs(g, [i], GetExtension(i, Neighbours(g, i), []), k)
  }

  /** enumerateSubgraph: the searches from roots 0, 1, ..., n - 1, one
      after the other. */
  function AllSubgraphs(g: seq<seq<int>>, n: nat, k: int): seq<seq<int>>
  {
    if n == 0 then [] else AllSubgraphs(g, n - 1, k) + RootSubgraphs(g, n - 1, k)
  }

  /** The printed line of a subgraph: each vertex numbered from 1. */
  function Printed(sub: seq<int>): (line: seq<int>)
    ensures |line| == |sub|
    ensures forall j :: 0 <= j < |sub| ==> line[j] == sub[j] + 1
  {
    seq(|sub|, j requires 0 <= j < |sub| => sub[j] + 1)
  }

  /** The printed lines of a list of subgraphs, in order. */
  function PrintedAll(subs: seq<seq<int>>): seq<seq<int>>
  {
    if subs == [] then [] else [Printed(subs[0])] + PrintedAll(subs[1..])
  }

  /** One printed line per subgraph, in the same order. */
  lemma {:induction false} PrintedAllLines(subs: seq<seq<int>>)
    ensures |PrintedAll(subs)| == |subs|
    ensures forall j :: 0 <= j < |subs| ==> PrintedAll(subs)[j] == Printed(subs[j])
  {
    if subs != [] {
      PrintedAllLines(subs[1..]);
      assert forall j :: 1 <= j < |subs| ==> subs[1..][j - 1] == subs[j];
    }
  }

  /** Printing distributes over concatenation. */
  lemma PrintedAllAppend(a: seq<seq<int>>, b: seq<seq<int>>)
    ensures PrintedAll(a + b) == PrintedAll(a) + PrintedAll(b)
  {
    PrintedAllLines(a + b);
    PrintedAllLines(a);
    PrintedAllLines(b);
    assert forall j :: 0 <= j < |a + b| ==> PrintedAll(a + b)[j] == (PrintedAll(a) + PrintedAll(b))[j];
  }

  /** One turn of the loop of extendSubgraph: the subgraphs grown with
      the front candidate come first, then those of the remaining list. */
  lemma SubgraphsStep(g: seq<seq<int>>, sub: seq<int>, extension: seq<int>, k: int)
    requires |sub| < k && extension != []
    ensures var w := extension[0];
      Subgraphs(g, sub, extension, k) ==
        Subgraphs(g, sub + [w], GetExtension(w, Neighbours(g, w), extension[1..]), k) + Subgraphs(g, sub, extension[1..], k)
  {
  }

  /** One turn of the loop of extendSubgraph, on the printed lines: the
      lines printed so far, then those of the front candidate's search,
      then those still to come from the rest of the list. */
  lemma PrintedStep(g: seq<seq<int>>, sub: seq<int>, extension: seq<int>, k: int, lines: seq<seq<int>>, total: seq<seq<int>>)
    requires |sub| < k && extension != []
    requires lines + PrintedAll(Subgraphs(g, sub, extension, k)) == total
    ensures var w := extension[0];
      (lines + PrintedAll(Subgraphs(g, sub + [w], GetExtension(w, Neighbours(g, w), extension[1..]), k))) +
        PrintedAll(Subgraphs(g, sub, extension[1..], k)) == total
  {
    var w := extension[0];
    var left := Subgraphs(g, sub + [w], GetExtension(w, Neighbours(g, w), extension[1..]), k);
    var right := Subgraphs(g, sub, extension[1..], k);
    SubgraphsStep(g, sub, extension, k);
    PrintedAllAppend(left, right);
  }

  /** The outer loop of enumerateSubgraph prints the lines of root `i`
      after those of the roots before it. */
  lemma PrintedAllNextRoot(g: seq<seq<int>>, i: nat, k: int)
    ensures PrintedAll(AllSubgraphs(g, i + 1, k)) == PrintedAll(AllSubgraphs(g, i, k)) + PrintedAll(RootSubgraphs(g, i, k))
  {
    assert AllSubgraphs(g, i + 1, k) == AllSubgraphs(g, i, k) + RootSubgraphs(g, i, k);
    PrintedAllAppend(AllSubgraphs(g, i, k), RootSubgraphs(g, i, k));
  }

  /** Every vertex after the first is adjacent from some vertex before it:
      the subgraph is grown along arcs of the graph. */
  ghost predicate GrownAlongArcs(g: seq<seq<int>>, sub: seq<int>)
  {
    forall j :: 1 <= j < |sub| ==> ReachedFrom(g, sub[..j], sub[j])
  }

  /** Some vertex of `sub` has an arc to `x`. */
  ghost predicate ReachedFrom(g: seq<seq<int>>, sub: seq<int>, x: int)
  {
    exists m :: 0 <= m < |sub| && HasArc(g, sub[m], x)
  }

  /** The subgraph starts with `root` and every later vertex is greater. */
  ghost predicate RootedAt(sub: seq<int>, root: int)
  {
    |sub| >= 1 && sub[0] == root && forall j :: 1 <= j < |sub| ==> sub[j] > root
  }

  /** Every candidate is greater than the root and adjacent from a vertex
      already in the subgraph. */
  ghost predicate CandidatesFit(g: seq<seq<int>>, sub: seq<int>, extension: seq<int>, root: int)
  {
    forall x :: x in extension ==> x > root && ReachedFrom(g, sub, x)
  }

  /** One step of the search keeps the root: the popped candidate `w` is
      greater than it. */
  lemma StepKeepsRoot(g: seq<seq<int>>, sub: seq<int>, extension: seq<int>, root: int)
    requires extension != []
    requires RootedAt(sub, root) && CandidatesFit(g, sub, extension, root)
    ensures RootedAt(sub + [extension[0]], root)
  {
    assert extension[0] in extension;
  }

  /** One step of the search grows the subgraph along an arc. */
  lemma StepGrowsAlongArc(g: seq<seq<int>>, sub: seq<int>, extension: seq<int>, root: int)
    requires extension != []
    requires GrownAlongArcs(g, sub) && CandidatesFit(g, sub, extension, root)
    ensures GrownAlongArcs(g, sub + [extension[0]])
  {
    var w := extension[0];
    var longer := sub + [w];
    assert w in extension;
    assert longer[..|sub|] == sub;
    forall j | 1 <= j < |longer|
      ensures ReachedFrom(g, longer[..j], longer[j])
    {
      if j < |sub| {
        assert longer[..j] == sub[..j] && longer[j] == sub[j];
      }
    }
  }

  /** After a step, the new candidates fit the extended subgraph: they are
      either left over from the old list or new neighbours of `w`. */
  lemma StepCandidatesFit(g: seq<seq<int>>, sub: seq<int>, extension: seq<int>, root: int)
    requires extension != []
    requires RootedAt(sub + [extension[0]], root) && CandidatesFit(g, sub, extension, root)
    ensures var w := extension[0];
      CandidatesFit(g, sub + [w], GetExtension(w, Neighbours(g, w), extension[1..]), root)
  {
    var w := extension[0];
    var rest := extension[1..];
    var longer := sub + [w];
    var next := GetExtension(w, Neighbours(g, w), rest);
    assert w == longer[|sub|];
    GetExtensionMembers(w, Neighbours(g, w), rest);
    forall x | x in next
      ensures x > root && ReachedFrom(g, longer, x)
    {
      if x in rest {
        assert x in extension;
        var m :| 0 <= m < |sub| && HasArc(g, sub[m], x);
        assert 0 <= m < |longer| && HasArc(g, longer[m], x);
      } else {
        assert HasArc(g, longer[|sub|], x);
      }
    }
  }

  /** The candidates left after popping the front one still fit. */
  lemma RestCandidatesFit(g: seq<seq<int>>, sub: seq<int>, extension: seq<int>, root: int)
    requires extension != []
    requires CandidatesFit(g, sub, extension, root)
    ensures CandidatesFit(g, sub, extension[1..], root)
  {
    assert forall x :: x in extension[1..] ==> x in extension;
  }

  /** Shape of what one search emits: exactly `k` vertices, the root first,
      every later vertex greater than the root, each reached along an arc,
      and the partial subgraph `sub` as a prefix. */
  lemma {:induction false} SubgraphsShape(g: seq<seq<int>>, sub: seq<int>, extension: seq<int>, k: int, root: int)
    requires |sub| <= k
    requires RootedAt(sub, root) && GrownAlongArcs(g, sub) && CandidatesFit(g, sub, extension, root)
    ensures forall s :: s in Subgraphs(g, sub, extension, k) ==>
      |s| == k && s[..|sub|] == sub && RootedAt(s, root) && GrownAlongArcs(g, s)
    decreases k - |sub|, |extension|
  {
    if |sub| < k && extension != [] {
      var w := extension[0];
      var rest := extension[1..];
      var longer := sub + [w];
      var next := GetExtension(w, Neighbours(g, w), rest);
      StepKeepsRoot(g, sub, extension, root);
      StepGrowsAlongArc(g, sub, extension, root);
      StepCandidatesFit(g, sub, extension, root);
      RestCandidatesFit(g, sub, extension, root);
      SubgraphsShape(g, longer, next, k, root);
      SubgraphsShape(g, sub, rest, k, root);
      var left := Subgraphs(g, longer, next, k);
      var right := Subgraphs(g, sub, rest, k);
      assert Subgraphs(g, sub, extension, k) == left + right;
      forall s | s in left + right
        ensures |s| == k && s[..|sub|] == sub && RootedAt(s, root) && GrownAlongArcs(g, s)
      {
        if s in left {
          assert s[..|sub|] == s[..|longer|][..|sub|];
        }
      }
    }
  }

  /** Shape of what the search from root `i` emits. */
  lemma RootSubgraphsShape(g: seq<seq<int>>, i: int, k: int)
    requires k >= 1
    ensures forall s :: s in RootSubgraphs(g, i, k) ==>
      |s| == k && s[0] == i && RootedAt(s, i) && GrownAlongArcs(g, s)
  {
    var extension := GetExtension(i, Neighbours(g, i), []);
    GetExtensionMembers(i, Neighbours(g, i), []);
    assert CandidatesFit(g, [i], extension, i) by {
      forall x | x in extension
        ensures x > i && ReachedFrom(g, [i], x)
      {
        assert HasArc(g, [i][0], x);
      }
    }
    SubgraphsShape(g, [i], extension, k, i);
  }

  /** Whatever enumerateSubgraph emits comes from the search of one of
      the roots 0 .. n - 1. */
  lemma {:induction false} InAllSubgraphs(g: seq<seq<int>>, n: nat, k: int, s: seq<int>)
    requires s in AllSubgraphs(g, n, k)
    ensures exists i :: 0 <= i < n && s in RootSubgraphs(g, i, k)
  {
    assert n > 0;
    if s !in RootSubgraphs(g, n - 1, k) {
      InAllSubgraphs(g, n - 1, k, s);
    }
  }

  /** Shape of everything enumerateSubgraph emits over roots 0 .. n - 1:
      `k` vertices, the root first and below `n`, the others greater, and
      the whole subgraph grown along arcs. */
  lemma AllSubgraphsShape(g: seq<seq<int>>, n: nat, k: int)
    requires k >= 1
    ensures forall s :: s in AllSubgraphs(g, n, k) ==>
      |s| == k && 0 <= s[0] < n && RootedAt(s, s[0]) && GrownAlongArcs(g, s)
  {
    forall s | s in AllSubgraphs(g, n, k)
      ensures |s| == k && 0 <= s[0] < n && RootedAt(s, s[0]) && GrownAlongArcs(g, s)
    {
      InAllSubgraphs(g, n, k, s);
      var i :| 0 <= i < n && s in RootSubgraphs(g, i, k);
      RootSubgraphsShape(g, i, k);
    }
  }

  /** With k == 1 every root emits exactly itself, one line per root. */
  lemma {:induction false} AllSubgraphsOfSizeOne(g: seq<seq<int>>, n: nat)
    ensures AllSubgraphs(g, n, 1) == seq(n, i => [i])
  {
    if n > 0 {
      AllSubgraphsOfSizeOne(g, n - 1);
      assert RootSubgraphs(g, n - 1, 1) == [[n - 1]];
      assert seq(n, i => [i]) == seq(n - 1, i => [i]) + [[n - 1]];
    }
  }

  /** The printed lines: `k` numbers each, the root first (numbered from
      1 up to n), every later number greater than the root's. */
  lemma PrintedAllSubgraphsShape(g: seq<seq<int>>, n: nat, k: int)
    requires k >= 1
    ensures forall line :: line in PrintedAll(AllSubgraphs(g, n, k)) ==>
      |line| == k && 1 <= line[0] <= n && forall j :: 1 <= j < k ==> line[j] > line[0]
  {
    var subs := AllSubgraphs(g, n, k);
    var lines := PrintedAll(subs);
    PrintedAllLines(subs);
    AllSubgraphsShape(g, n, k);
    forall line | line in lines
      ensures |line| == k && 1 <= line[0] <= n && forall j :: 1 <= j < k ==> line[j] > line[0]
    {
      var p :| 0 <= p < |lines| && lines[p] == line;
      assert subs[p] in subs;
    }
  }

  /** With k == 1 the printed lines are [1], [2], ..., [n]. */
  lemma PrintedAllSubgraphsOfSizeOne(g: seq<seq<int>>, n: nat)
    ensures PrintedAll(AllSubgraphs(g, n, 1)) == seq(n, i => [i + 1])
  {
    AllSubgraphsOfSizeOne(g, n);
    var lines := PrintedAll(AllSubgraphs(g, n, 1));
    PrintedAllLines(AllSubgraphs(g, n, 1));
    forall i | 0 <= i < n
      ensures lines[i] == [i + 1]
    {
      assert lines[i] == Printed([i]);
    }
  }

  /** The path 1-2-3-4 with both directions inserted, as a table. */
  function Path(): seq<seq<int>>
  {
    [[1], [0, 2], [1, 3], [2]]
  }

  /** Inserting both directions of the path's three edges into four
      empty chains gives that table. */
  lemma PathInsertions()
    ensures
      var g1 := InsertEdgeInto([[], [], [], []], 4, 1, 2);
      var g2 := InsertEdgeInto(g1, 4, 2, 1);
      var g3 := InsertEdgeInto(g2, 4, 2, 3);
      var g4 := InsertEdgeInto(g3, 4, 3, 2);
      var g5 := InsertEdgeInto(g4, 4, 3, 4);
      InsertEdgeInto(g5, 4, 4, 3) == Path()
  {
    var g1 := InsertEdgeInto([[], [], [], []], 4, 1, 2);
    assert g1 == [[1], [], [], []];
    var g2 := InsertEdgeInto(g1, 4, 2, 1);
    assert g2 == [[1], [0], [], []];
    var g3 := InsertEdgeInto(g2, 4, 2, 3);
    assert g3[1] == [0] + [2] == [0, 2];
    assert g3 == [[1], [0, 2], [], []];
    var g4 := InsertEdgeInto(g3, 4, 3, 2);
    assert g4 == [[1], [0, 2], [1], []];
    var g5 := InsertEdgeInto(g4, 4, 3, 4);
    assert g5[2] == [1] + [3] == [1, 3];
    assert g5 == [[1], [0, 2], [1, 3], []];
  }

  /** The edge loop of buildGraph on four vertices with the pairs (1,2),
      (2,1), (2,3), (3,2), (3,4), (4,3) and the terminating (0,0) builds
      exactly that table. */
  lemma PathIsBuilt()
    ensures BuildEdges([[], [], [], []], 4, [(1, 2), (2, 1), (2, 3), (3, 2), (3, 4), (4, 3), (0, 0)]) == Path()
  {
    var g1 := InsertEdgeInto([[], [], [], []], 4, 1, 2);
    var g2 := InsertEdgeInto(g1, 4, 2, 1);
    var g3 := InsertEdgeInto(g2, 4, 2, 3);
    var g4 := InsertEdgeInto(g3, 4, 3, 2);
    var g5 := InsertEdgeInto(g4, 4, 3, 4);
    var g6 := InsertEdgeInto(g5, 4, 4, 3);
    PathInsertions();
    BuildEdgesStep([[], [], [], []], 4, (1, 2), [(2, 1), (2, 3), (3, 2), (3, 4), (4, 3), (0, 0)]);
    BuildEdgesStep(g1, 4, (2, 1), [(2, 3), (3, 2), (3, 4), (4, 3), (0, 0)]);
    BuildEdgesStep(g2, 4, (2, 3), [(3, 2), (3, 4), (4, 3), (0, 0)]);
    BuildEdgesStep(g3, 4, (3, 2), [(3, 4), (4, 3), (0, 0)]);
    BuildEdgesStep(g4, 4, (3, 4), [(4, 3), (0, 0)]);
    BuildEdgesStep(g5, 4, (4, 3), [(0, 0)]);
  }

  /** Roots 0, 1 and 2 of the path each emit the pair with their next
      vertex. */
  lemma PathRootWithPair(i: int)
    requires 0 <= i < 3
    ensures RootSubgraphs(Path(), i, 2) == [[i, i + 1]]
  {
    var g := Path();
    var chain := Neighbours(g, i);
    if i == 0 {
      assert chain == [1];
    } else if i == 1 {
      assert chain == [0, 2];
    } else {
      assert chain == [1, 3];
    }
    assert GetExtension(i, chain, []) == [i + 1];
    assert [i + 1][1..] == [];
    assert Subgraphs(g, [i], [i + 1], 2) ==
      Subgraphs(g, [i] + [i + 1], GetExtension(i + 1, Neighbours(g, i + 1), []), 2) + Subgraphs(g, [i], [], 2);
    assert [i] + [i + 1] == [i, i + 1];
  }

  /** Root 3 of the path has no greater neighbour and root 4 is past the
      table: neither emits anything. */
  lemma PathRootsWithout()
    ensures RootSubgraphs(Path(), 3, 2) == []
    ensures RootSubgraphs(Path(), 4, 2) == []
  {
    var g := Path();
    assert GetExtension(3, Neighbours(g, 3), []) == [];
    assert GetExtension(4, Neighbours(g, 4), []) == [];
  }

  /** With k == 2 and the outer loop running up to root 4, the search
      finds the three pairs {0,1}, {1,2}, {2,3}, each once. */
  lemma PathSearch()
    ensures AllSubgraphs(Path(), 5, 2) == [[0, 1], [1, 2], [2, 3]]
  {
    var g := Path();
    PathRootWithPair(0);
    PathRootWithPair(1);
    PathRootWithPair(2);
    PathRootsWithout();
    assert AllSubgraphs(g, 1, 2) == [[0, 1]];
    assert AllSubgraphs(g, 2, 2) == [[0, 1], [1, 2]];
    assert AllSubgraphs(g, 3, 2) == [[0, 1], [1, 2], [2, 3]];
    assert AllSubgraphs(g, 4, 2) == AllSubgraphs(g, 3, 2);
  }

  /** The printed line of a pair. */
  lemma PrintedPair(a: int, b: int)
    ensures Printed([a, b]) == [a + 1, b + 1]
  {
    var line := Printed([a, b]);
    assert line[0] == a + 1 && line[1] == b + 1;
  }

  /** The three pairs found in the path, printed. */
  lemma PathPairsPrinted()
    ensures PrintedAll([[0, 1], [1, 2], [2, 3]]) == [[1, 2], [2, 3], [3, 4]]
  {
    PrintedPair(0, 1);
    PrintedPair(1, 2);
    PrintedPair(2, 3);
    var subs: seq<seq<int>> := [[0, 1], [1, 2], [2, 3]];
    assert subs[1..] == [[1, 2], [2, 3]] && subs[1..][1..] == [[2, 3]];
  }

  /** The lines printed for the path: 1 2, 2 3 and 3 4. */
  lemma PathOfFourPairs()
    ensures PrintedAll(AllSubgraphs(Path(), 5, 2)) == [[1, 2], [2, 3], [3, 4]]
  {
    PathSearch();
    PathPairsPrinted();
  }
}
