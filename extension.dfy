/** The candidate lists of the subgraph search: isDuplicate, a linear scan
    of a list, and getExtension, which copies a candidate list and appends
    the new neighbours of one vertex to it. */
module Extension {
  import opened Chains

  /** No value occurs twice in `s`. */
  ghost predicate NoDuplicates(s: seq<int>)
  {
    forall i, j :: 0 <= i < j < |s| ==> s[i] != s[j]
  }

  /** `a` is left once some elements of `b` are deleted: the elements of `a`
      occur in `b` in the same order. */
  ghost predicate IsSubsequence(a: seq<int>, b: seq<int>)
    decreases |b|
  {
    a == [] || (b != [] && ((a[0] == b[0] && IsSubsequence(a[1..], b[1..])) || IsSubsequence(a, b[1..])))
  }

  /** isDuplicate: scan the list from the front for `target`. */
  function IsDuplicate(target: int, list: seq<int>): (r: bool)
    ensures r <==> target in list
  {
    if list == [] then false
    else if list[0] == target then true
    else IsDuplicate(target, list[1..])
  }

  /** getExtension: start from a copy of `extension` and walk the chain of
      vertex `v`, appending each target greater than `v` that the list does
      not hold yet. The comparison is with `v`, the vertex whose chain is
      walked. */
  function GetExtension(v: int, chain: seq<int>, extension: seq<int>): (r: seq<int>)
    ensures |extension| <= |r| && r[..|extension|] == extension
    decreases |chain|
  {
    if chain == [] then extension
    else
      var w := chain[0];
      var next := if w > v && !IsDuplicate(w, extension) then extension + [w] else extension;
      var r := GetExtension(v, chain[1..], next);
      assert r[..|extension|] == r[..|next|][..|extension|];
      r
  }

  /** Every appended element is a target of the chain, greater than `v`,
      and was not in `extension`. */
  lemma {:induction false} GetExtensionAppends(v: int, chain: seq<int>, extension: seq<int>)
    ensures forall j :: |extension| <= j < |GetExtension(v, chain, extension)| ==>
      var x := GetExtension(v, chain, extension)[j];
      x in chain && x > v && x !in extension
    decreases |chain|
  {
    if chain != [] {
      var w := chain[0];
      var next := if w > v && !IsDuplicate(w, extension) then extension + [w] else extension;
      GetExtensionAppends(v, chain[1..], next);
      var r := GetExtension(v, chain[1..], next);
      assert r == GetExtension(v, chain, extension);
      forall j | |extension| <= j < |r|
        ensures r[j] in chain && r[j] > v && r[j] !in extension
      {
        if j < |next| {
          assert r[j] == r[..|next|][j] == w;
        } else {
          assert r[j] in chain[1..];
        }
      }
    }
  }

  /** Nothing is appended twice. */
  lemma {:induction false} GetExtensionAppendsOnce(v: int, chain: seq<int>, extension: seq<int>)
    ensures forall i, j :: |extension| <= i < j < |GetExtension(v, chain, extension)| ==>
      GetExtension(v, chain, extension)[i] != GetExtension(v, chain, extension)[j]
    decreases |chain|
  {
    if chain != [] {
      var w := chain[0];
      var next := if w > v && !IsDuplicate(w, extension) then extension + [w] else extension;
      GetExtensionAppendsOnce(v, chain[1..], next);
      GetExtensionAppends(v, chain[1..], next);
      var r := GetExtension(v, chain[1..], next);
      assert r == GetExtension(v, chain, extension);
      forall i, j | |extension| <= i < j < |r|
        ensures r[i] != r[j]
      {
        if i < |next| {
          assert r[i] == r[..|next|][i] == w;
          assert w in next;
        }
      }
    }
  }

  /** A candidate list without duplicates stays without duplicates. */
  lemma {:induction false} GetExtensionKeepsNoDuplicates(v: int, chain: seq<int>, extension: seq<int>)
    requires NoDuplicates(extension)
    ensures NoDuplicates(GetExtension(v, chain, extension))
    decreases |chain|
  {
    if chain != [] {
      var w := chain[0];
      var next := if w > v && !IsDuplicate(w, extension) then extension + [w] else extension;
      assert NoDuplicates(next);
      GetExtensionKeepsNoDuplicates(v, chain[1..], next);
    }
  }

  /** Every target of the chain greater than `v` ends up in the list. */
  lemma {:induction false} GetExtensionComplete(v: int, chain: seq<int>, extension: seq<int>)
    ensures forall w :: w in chain && w > v ==> w in GetExtension(v, chain, extension)
    decreases |chain|
  {
    if chain != [] {
      var w := chain[0];
      var next := if w > v && !IsDuplicate(w, extension) then extension + [w] else extension;
      GetExtensionComplete(v, chain[1..], next);
      var r := GetExtension(v, chain[1..], next);
      assert r == GetExtension(v, chain, extension);
      if w > v {
        assert w in next;
        assert w in r[..|next|];
      }
    }
  }

  /** The appended elements come in chain order. */
  lemma {:induction false} GetExtensionInChainOrder(v: int, chain: seq<int>, extension: seq<int>)
    ensures var r := GetExtension(v, chain, extension);
      IsSubsequence(r[|extension|..], chain)
    decreases |chain|
  {
    var r := GetExtension(v, chain, extension);
    if chain != [] {
      var w := chain[0];
      var next := if w > v && !IsDuplicate(w, extension) then extension + [w] else extension;
      GetExtensionInChainOrder(v, chain[1..], next);
      assert r == GetExtension(v, chain[1..], next);
      if |next| == |extension| {
        assert r[|extension|..] == r[|next|..];
      } else {
        assert r[|extension|..][0] == r[..|next|][|extension|] == w;
        assert r[|extension|..][1..] == r[|next|..];
      }
    }
  }

  /** The appended elements come in the order of their first occurrence
      in the chain, even when the chain holds a target more than once. */
  lemma {:induction false} GetExtensionFirstOccurrenceOrder(v: int, chain: seq<int>, extension: seq<int>)
    ensures forall i, j :: |extension| <= i < j < |GetExtension(v, chain, extension)| ==>
      GetExtension(v, chain, extension)[i] in chain && GetExtension(v, chain, extension)[j] in chain &&
      FirstIndex(chain, GetExtension(v, chain, extension)[i]) < FirstIndex(chain, GetExtension(v, chain, extension)[j])
    decreases |chain|
  {
    if chain != [] {
      var w := chain[0];
      var next := if w > v && !IsDuplicate(w, extension) then extension + [w] else extension;
      GetExtensionFirstOccurrenceOrder(v, chain[1..], next);
      GetExtensionAppends(v, chain[1..], next);
      var r := GetExtension(v, chain[1..], next);
      assert r == GetExtension(v, chain, extension);
      forall i, j | |extension| <= i < j < |r|
        ensures r[i] in chain && r[j] in chain && FirstIndex(chain, r[i]) < FirstIndex(chain, r[j])
      {
        assert r[j] in chain[1..] && r[j] > v && r[j] !in next;
        assert r[j] != w;
        if i < |next| {
          assert r[i] == r[..|next|][i] == w;
        } else {
          assert r[i] in chain[1..] && r[i] !in next;
          assert r[i] != w;
        }
      }
    } else {
      assert GetExtension(v, chain, extension) == extension;
    }
  }

  /** A chain that repeats a target: the candidates keep first-occurrence
      order, 2 before 3. */
  lemma GetExtensionRepeatedTarget()
    ensures GetExtension(0, [2, 3, 2], []) == [2, 3]
  {
    assert [2, 3, 2][1..] == [3, 2] && [3, 2][1..] == [2];
  }

  /** Every element of the result was in `extension` or is a target of the
      chain greater than `v`. */
  lemma GetExtensionMembers(v: int, chain: seq<int>, extension: seq<int>)
    ensures forall x :: x in GetExtension(v, chain, extension) ==> x in extension || (x in chain && x > v)
  {
    var r := GetExtension(v, chain, extension);
    GetExtensionAppends(v, chain, extension);
    forall x | x in r
      ensures x in extension || (x in chain && x > v)
    {
      var j :| 0 <= j < |r| && r[j] == x;
      if j < |extension| {
        assert r[..|extension|][j] == x;
      }
    }
  }
}
