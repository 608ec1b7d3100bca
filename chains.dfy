/** Adjacency chains. In the C++ each vertex owns a singly linked list of
    EdgeNode records, each holding one target index; here a chain is the
    sequence of those targets, in list order. The three recursive helpers
    that walk a chain (insertHelper, removeHelper, copyAllEdge) keep their
    recursion over the head and the rest of the chain. */
module Chains {

  /** insertHelper: walk to the end of the chain and link the new record
      there. No record is compared with the new one, so a target that is
      already present is appended a second time. */
  function InsertHelper(chain: seq<int>, target: int): (r: seq<int>)
    ensures r == chain + [target]
  {
    if chain == [] then [target]
    else [chain[0]] + InsertHelper(chain[1..], target)
  }

  /** Position of the first record of `chain` whose target is `target`. */
  function FirstIndex(chain: seq<int>, target: int): (i: nat)
    requires target in chain
    ensures i < |chain| && chain[i] == target && target !in chain[..i]
  {
    if chain[0] == target then 0
    else
      var j := FirstIndex(chain[1..], target);
      assert chain[..j + 1] == [chain[0]] + chain[1..][..j];
      j + 1
  }

  /** removeHelper: unlink the first record whose target is `target`; a
      chain without such a record comes back as it was. */
  function RemoveHelper(chain: seq<int>, target: int): (r: seq<int>)
    ensures target !in chain ==> r == chain
    ensures target in chain ==> |r| == |chain| - 1
    ensures forall x :: x in r ==> x in chain
  {
    if chain == [] then []
    else if chain[0] == target then chain[1..]
    else [chain[0]] + RemoveHelper(chain[1..], target)
  }

  /** The record removed is the first one for `target`: the records before
      and after it are kept, in order. */
  lemma {:induction false} RemoveHelperCutsFirst(chain: seq<int>, target: int)
    requires target in chain
    ensures RemoveHelper(chain, target) == chain[..FirstIndex(chain, target)] + chain[FirstIndex(chain, target) + 1..]
  {
    if chain[0] != target {
      var tail := chain[1..];
      RemoveHelperCutsFirst(tail, target);
      var j := FirstIndex(tail, target);
      assert FirstIndex(chain, target) == j + 1;
      assert chain[..j + 1] == [chain[0]] + tail[..j];
      assert chain[j + 2..] == tail[j + 1..];
    }
  }

  /** copyAllEdge: rebuild the chain record by record, in order. */
  function CopyAllEdge(chain: seq<int>): (r: seq<int>)
    ensures r == chain
  {
    if chain == [] then []
    else [chain[0]] + CopyAllEdge(chain[1..])
  }

  /** Removing a target just appended restores the chain, provided the
      target was not in the chain before. */
  lemma {:induction false} InsertThenRemove(chain: seq<int>, target: int)
    requires target !in chain
    ensures RemoveHelper(InsertHelper(chain, target), target) == chain
  {
    var longer := InsertHelper(chain, target);
    RemoveHelperCutsFirst(longer, target);
    var i := FirstIndex(longer, target);
    assert i == |chain|;
    assert longer[..i] == chain;
  }

  /** The helper does not reject a target that is already present: it
      gains one more record. */
  lemma InsertKeepsDuplicate(chain: seq<int>, target: int)
    requires target in chain
    ensures multiset(InsertHelper(chain, target))[target] == multiset(chain)[target] + 1
    ensures multiset(InsertHelper(chain, target))[target] >= 2
  {
  }

  /** When the target occurs twice, removal leaves the later occurrence. */
  lemma {:induction false} RemoveKeepsLaterCopies(chain: seq<int>, target: int)
    requires target in chain
    ensures multiset(RemoveHelper(chain, target))[target] == multiset(chain)[target] - 1
  {
    RemoveHelperCutsFirst(chain, target);
    var i := FirstIndex(chain, target);
    assert chain == chain[..i] + [target] + chain[i + 1..];
  }
}
