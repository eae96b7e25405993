/**
 * The heap entries of tree construction and the min-heap that holds them.
 * Only the priority queue's contract is modelled: pop yields the least entry
 * by (freq, id).
 */
module Heap {
  import opened Trees

  /** `HeapNode`: a subtree with its frequency and its insertion id. */
  datatype HeapNode = HeapNode(freq: nat, id: nat, tree: Tree)

  datatype Ordering = Lt | Eq | Gt

  function CompareNat(x: nat, y: nat): Ordering
  {
    if x < y then Lt else if x > y then Gt else Eq
  }

  /** `HeapNode::cmp`: by frequency, then by id. */
  function Cmp(a: HeapNode, b: HeapNode): (o: Ordering)
    ensures o == Lt <==> a.freq < b.freq || (a.freq == b.freq && a.id < b.id)
    ensures o == Eq <==> a.freq == b.freq && a.id == b.id
    ensures o == Gt <==> a.freq > b.freq || (a.freq == b.freq && a.id > b.id)
  {
    var byFreq := CompareNat(a.freq, b.freq);
    if byFreq != Eq then byFreq else CompareNat(a.id, b.id)
  }

  predicate Less(a: HeapNode, b: HeapNode)
  {
    Cmp(a, b) == Lt
  }

  /** The order is lexicographic on (freq, id), antisymmetric and transitive. */
  lemma CmpIsLexicographicOrder(a: HeapNode, b: HeapNode, c: HeapNode)
    ensures Less(a, b) <==> a.freq < b.freq || (a.freq == b.freq && a.id < b.id)
    ensures Cmp(a, b) == Eq <==> a.freq == b.freq && a.id == b.id
    ensures Cmp(a, b) == Lt <==> Cmp(b, a) == Gt
    ensures Less(a, b) && Less(b, c) ==> Less(a, c)
  {
  }

  ghost predicate DistinctIds(h: seq<HeapNode>)
  {
    forall i, j :: 0 <= i < j < |h| ==> h[i].id != h[j].id
  }

  /** No entry of `h` is less than `h[i]`. */
  ghost predicate IsLeast(h: seq<HeapNode>, i: nat)
  {
    i < |h| && forall k :: 0 <= k < |h| ==> !Less(h[k], h[i])
  }

  /** The position of the least entry (`BinaryHeap<Reverse<HeapNode>>::pop`). */
  function MinIndex(h: seq<HeapNode>): (i: nat)
    requires |h| > 0
    ensures i < |h|
    ensures IsLeast(h, i)
  {
    if |h| == 1 then 0
    else
      var j := MinIndex(h[..|h| - 1]);
      if Less(h[|h| - 1], h[j]) then |h| - 1 else j
  }

  /**
   * With distinct ids the least entry is unique, so any priority queue that
   * pops a least entry pops the one MinIndex names.
   */
  lemma MinimumIsUnique(h: seq<HeapNode>, k: nat)
    requires DistinctIds(h)
    requires IsLeast(h, k)
    ensures k == MinIndex(h)
  {
    var i := MinIndex(h);
    assert !Less(h[i], h[k]) && !Less(h[k], h[i]);
  }

  function RemoveAt(h: seq<HeapNode>, i: nat): (r: seq<HeapNode>)
    requires i < |h|
    ensures |r| == |h| - 1
  {
    h[..i] + h[i + 1..]
  }

  /** The min-heap of tree construction, abstracted to the sequence of its entries. */
  class MinHeap {
    var entries: seq<HeapNode>

    constructor ()
      ensures entries == []
    {
      entries := [];
    }

    function Len(): nat
      reads this
    {
      |entries|
    }

    method Push(e: HeapNode)
      modifies this
      ensures entries == old(entries) + [e]
    {
      entries := entries + [e];
    }

    /** Removes and returns the least entry by (freq, id). */
    method Pop() returns (e: HeapNode)
      requires |entries| > 0
      modifies this
      ensures forall k :: 0 <= k < |old(entries)| ==> !Less(old(entries)[k], e)
      ensures e == old(entries)[MinIndex(old(entries))]
      ensures entries == RemoveAt(old(entries), MinIndex(old(entries)))
    {
      var i := MinIndex(entries);
      e := entries[i];
      entries := RemoveAt(entries, i);
    }
  }
}
