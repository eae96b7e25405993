/** `construct_huffman_tree`: repeated min-merge of heap entries into one tree. */
module Builder {
  import opened Types
  import opened Trees
  import opened Freqs
  import opened Heap

  /**
   * The entries the first loop pushes for the slots below `n`: one leaf per
   * non-zero slot, in ascending byte order, with ids 0, 1, 2, ...
   */
  function LeafEntries(f: seq<U64>, n: nat): seq<HeapNode>
    requires |f| == 256 && n <= 256
  {
    if n == 0 then []
    else
      var h := LeafEntries(f, n - 1);
      if f[n - 1] > 0 then h + [HeapNode(f[n - 1], |h|, Leaf(n - 1, f[n - 1]))] else h
  }

  /**
   * One round of the merge loop: pop the least entry (left), pop the next
   * least (right), push their combination under the fresh id `nextId`.
   */
  function Merge(h: seq<HeapNode>, nextId: nat): (r: seq<HeapNode>)
    requires |h| >= 2
    ensures |r| == |h| - 1
  {
    var i := MinIndex(h);
    var left := h[i];
    var rest := RemoveAt(h, i);
    var j := MinIndex(rest);
    var right := rest[j];
    RemoveAt(rest, j) + [HeapNode(left.freq + right.freq, nextId, NewNode(left.tree, right.tree))]
  }

  /** Merge until one entry remains; its tree is the root. */
  function MergeAll(h: seq<HeapNode>, nextId: nat): Tree
    requires |h| >= 1
    decreases |h|
  {
    if |h| == 1 then h[0].tree else MergeAll(Merge(h, nextId), nextId + 1)
  }

  /** The tree `construct_huffman_tree` returns for table `f`, or its error. */
  function BuildTree(f: seq<U64>): Result<Tree>
    requires |f| == 256
  {
    var h := LeafEntries(f, 256);
    if h == [] then Err(EmptyFrequencyTable) else Ok(MergeAll(h, |h|))
  }

  /** The tokens of all trees in the heap. */
  function HeapTokens(h: seq<HeapNode>): multiset<Byte>
  {
    if h == [] then multiset{} else Tokens(h[0].tree) + HeapTokens(h[1..])
  }

  /** The total frequency of the heap's entries. */
  function HeapFreq(h: seq<HeapNode>): nat
  {
    if h == [] then 0 else h[0].freq + HeapFreq(h[1..])
  }

  /** Every tree in the heap is well formed and its leaves carry the counts of table `f`. */
  ghost predicate TreesOk(h: seq<HeapNode>, f: seq<U64>)
  {
    forall e :: e in h ==> WellFormed(e.tree) && LeafFreqsAre(e.tree, f)
  }

  /** Every entry's key frequency is its tree's frequency. */
  ghost predicate FreqsAgree(h: seq<HeapNode>)
  {
    forall e :: e in h ==> e.freq == e.tree.freq
  }

  /** The ids in the heap are distinct and below the next id to be handed out. */
  ghost predicate IdsFresh(h: seq<HeapNode>, nextId: nat)
  {
    (forall e :: e in h ==> e.id < nextId) && DistinctIds(h)
  }

  lemma {:induction false} TokensConcat(a: seq<HeapNode>, b: seq<HeapNode>)
    ensures HeapTokens(a + b) == HeapTokens(a) + HeapTokens(b)
  {
    if a == [] {
      assert a + b == b;
    } else {
      assert (a + b)[1..] == a[1..] + b;
      TokensConcat(a[1..], b);
    }
  }

  lemma {:induction false} FreqConcat(a: seq<HeapNode>, b: seq<HeapNode>)
    ensures HeapFreq(a + b) == HeapFreq(a) + HeapFreq(b)
  {
    if a == [] {
      assert a + b == b;
    } else {
      assert (a + b)[1..] == a[1..] + b;
      FreqConcat(a[1..], b);
    }
  }

  /** Removing an entry removes exactly its tokens and its frequency. */
  lemma {:induction false} ContentsRemoveAt(h: seq<HeapNode>, i: nat)
    requires i < |h|
    ensures HeapTokens(RemoveAt(h, i)) + Tokens(h[i].tree) == HeapTokens(h)
    ensures HeapFreq(RemoveAt(h, i)) + h[i].freq == HeapFreq(h)
  {
    var x, y := h[..i], h[i + 1..];
    assert h == x + ([h[i]] + y);
    TokensConcat(x, [h[i]] + y);
    TokensConcat(x, y);
    FreqConcat(x, [h[i]] + y);
    FreqConcat(x, y);
    assert ([h[i]] + y)[1..] == y;
  }

  lemma {:induction false} RemoveAtEntries(h: seq<HeapNode>, i: nat)
    requires i < |h|
    ensures forall e :: e in RemoveAt(h, i) ==> e in h
    ensures DistinctIds(h) ==> DistinctIds(RemoveAt(h, i))
  {
    var r := RemoveAt(h, i);
    assert forall k :: 0 <= k < |r| ==> r[k] == h[if k < i then k else k + 1];
  }

  /** The entry a merge round pushes: the two least entries combined, left first, under a fresh id. */
  function MergedEntry(h: seq<HeapNode>, nextId: nat): HeapNode
    requires |h| >= 2
  {
    var i := MinIndex(h);
    var rest := RemoveAt(h, i);
    var j := MinIndex(rest);
    HeapNode(h[i].freq + rest[j].freq, nextId, NewNode(h[i].tree, rest[j].tree))
  }

  /** What a merge round leaves in the heap besides the merged entry. */
  function MergeRest(h: seq<HeapNode>): seq<HeapNode>
    requires |h| >= 2
  {
    var rest := RemoveAt(h, MinIndex(h));
    RemoveAt(rest, MinIndex(rest))
  }

  lemma MergeSplit(h: seq<HeapNode>, nextId: nat)
    requires |h| >= 2
    ensures Merge(h, nextId) == MergeRest(h) + [MergedEntry(h, nextId)]
  {
  }

  lemma {:induction false} MergeEntries(h: seq<HeapNode>, nextId: nat)
    requires |h| >= 2
    ensures forall e :: e in MergeRest(h) ==> e in h
    ensures DistinctIds(h) ==> DistinctIds(MergeRest(h))
    ensures MergedEntry(h, nextId).tree == NewNode(h[MinIndex(h)].tree, RemoveAt(h, MinIndex(h))[MinIndex(RemoveAt(h, MinIndex(h)))].tree)
    ensures h[MinIndex(h)] in h && RemoveAt(h, MinIndex(h))[MinIndex(RemoveAt(h, MinIndex(h)))] in h
  {
    var i := MinIndex(h);
    var rest := RemoveAt(h, i);
    RemoveAtEntries(h, i);
    RemoveAtEntries(rest, MinIndex(rest));
  }

  /** A merge round keeps every tree well formed and faithful to the table. */
  lemma {:induction false} MergeTreesOk(h: seq<HeapNode>, nextId: nat, f: seq<U64>)
    requires |h| >= 2 && TreesOk(h, f)
    ensures TreesOk(Merge(h, nextId), f)
  {
    MergeEntries(h, nextId);
    MergeSplit(h, nextId);
  }

  /** A merge round keeps each entry's key equal to its tree's frequency. */
  lemma {:induction false} MergeFreqsAgree(h: seq<HeapNode>, nextId: nat)
    requires |h| >= 2 && FreqsAgree(h)
    ensures FreqsAgree(Merge(h, nextId))
  {
    MergeEntries(h, nextId);
    MergeSplit(h, nextId);
  }

  /** A merge round hands out a fresh id, larger than every id in the heap. */
  lemma {:induction false} MergeIdsFresh(h: seq<HeapNode>, nextId: nat)
    requires |h| >= 2 && IdsFresh(h, nextId)
    ensures IdsFresh(Merge(h, nextId), nextId + 1)
    ensures Merge(h, nextId)[|h| - 2].id == nextId
  {
    MergeEntries(h, nextId);
    MergeSplit(h, nextId);
    var r := MergeRest(h);
    var m := r + [MergedEntry(h, nextId)];
    forall i, j | 0 <= i < j < |m| ensures m[i].id != m[j].id {
      if j == |r| {
        assert m[i] in r;
      }
    }
  }

  /** A merge round keeps the multiset of tokens. */
  lemma {:induction false} MergeTokens(h: seq<HeapNode>, nextId: nat)
    requires |h| >= 2
    ensures HeapTokens(Merge(h, nextId)) == HeapTokens(h)
  {
    var i := MinIndex(h);
    var rest := RemoveAt(h, i);
    var e := MergedEntry(h, nextId);
    MergeSplit(h, nextId);
    ContentsRemoveAt(h, i);
    ContentsRemoveAt(rest, MinIndex(rest));
    TokensConcat(MergeRest(h), [e]);
    assert HeapTokens([e]) == Tokens(e.tree);
  }

  /** A merge round keeps the total frequency. */
  lemma {:induction false} MergeFreq(h: seq<HeapNode>, nextId: nat)
    requires |h| >= 2
    ensures HeapFreq(Merge(h, nextId)) == HeapFreq(h)
  {
    var i := MinIndex(h);
    var rest := RemoveAt(h, i);
    var e := MergedEntry(h, nextId);
    MergeSplit(h, nextId);
    ContentsRemoveAt(h, i);
    ContentsRemoveAt(rest, MinIndex(rest));
    FreqConcat(MergeRest(h), [e]);
    assert HeapFreq([e]) == e.freq;
  }

  /** The root built from the heap is well formed and faithful to the table. */
  lemma {:induction false} MergeAllShape(h: seq<HeapNode>, nextId: nat, f: seq<U64>)
    requires |h| >= 1 && TreesOk(h, f)
    ensures WellFormed(MergeAll(h, nextId)) && LeafFreqsAre(MergeAll(h, nextId), f)
    ensures |h| == 1 ==> MergeAll(h, nextId) == h[0].tree
    ensures |h| >= 2 ==> MergeAll(h, nextId).Node?
    decreases |h|
  {
    if |h| >= 2 {
      var m := Merge(h, nextId);
      MergeTreesOk(h, nextId, f);
      MergeAllShape(m, nextId + 1, f);
      assert MergeAll(h, nextId) == MergeAll(m, nextId + 1);
      if |m| == 1 {
        MergeSplit(h, nextId);
        assert m[0] == MergedEntry(h, nextId);
      }
    } else {
      assert h[0] in h;
    }
  }

  /** The root holds exactly the heap's tokens. */
  lemma {:induction false} MergeAllTokens(h: seq<HeapNode>, nextId: nat)
    requires |h| >= 1
    ensures Tokens(MergeAll(h, nextId)) == HeapTokens(h)
    decreases |h|
  {
    if |h| == 1 {
      assert h[1..] == [];
    } else {
      var m := Merge(h, nextId);
      MergeTokens(h, nextId);
      MergeAllTokens(m, nextId + 1);
      assert MergeAll(h, nextId) == MergeAll(m, nextId + 1);
    }
  }

  /** The root carries the heap's total frequency. */
  lemma {:induction false} MergeAllFreq(h: seq<HeapNode>, nextId: nat)
    requires |h| >= 1 && FreqsAgree(h)
    ensures MergeAll(h, nextId).freq == HeapFreq(h)
    decreases |h|
  {
    if |h| == 1 {
      assert h[1..] == [] && h[0] in h;
    } else {
      var m := Merge(h, nextId);
      MergeFreqsAgree(h, nextId);
      MergeFreq(h, nextId);
      MergeAllFreq(m, nextId + 1);
      assert MergeAll(h, nextId) == MergeAll(m, nextId + 1);
    }
  }

  /** Appending one entry adds its tokens and frequency. */
  lemma AppendContents(h: seq<HeapNode>, e: HeapNode)
    ensures HeapTokens(h + [e]) == HeapTokens(h) + Tokens(e.tree)
    ensures HeapFreq(h + [e]) == HeapFreq(h) + e.freq
  {
    TokensConcat(h, [e]);
    FreqConcat(h, [e]);
    assert [e][1..] == [];
  }

  /** The first loop's entries: ids are positions, and each is a leaf carrying its slot's count. */
  lemma {:induction false} LeafEntriesInvariants(f: seq<U64>, n: nat)
    requires |f| == 256 && n <= 256
    ensures forall k :: 0 <= k < |LeafEntries(f, n)| ==> LeafEntries(f, n)[k].id == k
    ensures TreesOk(LeafEntries(f, n), f) && FreqsAgree(LeafEntries(f, n))
    ensures IdsFresh(LeafEntries(f, n), |LeafEntries(f, n)|)
  {
    if n > 0 {
      LeafEntriesInvariants(f, n - 1);
      var h := LeafEntries(f, n - 1);
      if f[n - 1] > 0 {
        var h' := h + [HeapNode(f[n - 1], |h|, Leaf(n - 1, f[n - 1]))];
        forall e | e in h' ensures e.id < |h'| {
          var k :| 0 <= k < |h'| && h'[k] == e;
        }
      } else {
        forall e | e in h ensures e.id < |h| {
          var k :| 0 <= k < |h| && h[k] == e;
        }
      }
    }
  }

  /** The first loop pushes one leaf per non-zero slot below `n`, carrying the slots' total. */
  lemma {:induction false} LeafEntriesContents(f: seq<U64>, n: nat)
    requires |f| == 256 && n <= 256
    ensures forall b: Byte :: HeapTokens(LeafEntries(f, n))[b] == if b < n && f[b] > 0 then 1 else 0
    ensures HeapFreq(LeafEntries(f, n)) == Sum(f[..n])
    ensures LeafEntries(f, n) == [] <==> forall b: Byte :: b < n ==> f[b] == 0
  {
    if n > 0 {
      var h := LeafEntries(f, n - 1);
      LeafEntriesContents(f, n - 1);
      assert f[..n][..n - 1] == f[..n - 1];
      if f[n - 1] > 0 {
        AppendContents(h, HeapNode(f[n - 1], |h|, Leaf(n - 1, f[n - 1])));
      }
    }
  }

  /** `construct_huffman_tree` fails, with the empty-table error, exactly when every count is zero. */
  lemma {:induction false} BuildTreeFailsIffEmpty(f: seq<U64>)
    requires |f| == 256
    ensures BuildTree(f).Err? <==> forall b: Byte :: f[b] == 0
    ensures BuildTree(f).Err? ==> BuildTree(f).error == EmptyFrequencyTable
  {
    LeafEntriesContents(f, 256);
  }

  /** The heap the merge loop starts from, and the root it yields. */
  lemma BuildTreeStart(f: seq<U64>)
    requires |f| == 256 && BuildTree(f).Ok?
    ensures |LeafEntries(f, 256)| >= 1
    ensures BuildTree(f).value == MergeAll(LeafEntries(f, 256), |LeafEntries(f, 256)|)
  {
  }

  /** On success the tree is well formed and each leaf carries its byte's count. */
  lemma {:induction false} BuildTreeShape(f: seq<U64>)
    requires |f| == 256 && BuildTree(f).Ok?
    ensures WellFormed(BuildTree(f).value) && LeafFreqsAre(BuildTree(f).value, f)
  {
    BuildTreeStart(f);
    LeafEntriesInvariants(f, 256);
    MergeAllShape(LeafEntries(f, 256), |LeafEntries(f, 256)|, f);
  }

  /** On success the leaves are exactly the bytes with a non-zero count, each once. */
  lemma {:induction false} BuildTreeTokens(f: seq<U64>)
    requires |f| == 256 && BuildTree(f).Ok?
    ensures forall b: Byte :: Tokens(BuildTree(f).value)[b] == if f[b] > 0 then 1 else 0
    ensures UniqueTokens(BuildTree(f).value)
  {
    BuildTreeStart(f);
    LeafEntriesContents(f, 256);
    MergeAllTokens(LeafEntries(f, 256), |LeafEntries(f, 256)|);
  }

  /** On success the root's frequency, and the sum of the leaf frequencies, is the table's total. */
  lemma {:induction false} BuildTreeFreq(f: seq<U64>)
    requires |f| == 256 && BuildTree(f).Ok?
    ensures BuildTree(f).value.freq == Sum(f)
    ensures LeafFreqSum(BuildTree(f).value) == Sum(f)
  {
    BuildTreeStart(f);
    LeafEntriesInvariants(f, 256);
    LeafEntriesContents(f, 256);
    MergeAllFreq(LeafEntries(f, 256), |LeafEntries(f, 256)|);
    assert f[..256] == f;
    BuildTreeShape(f);
    LeafFreqSumIsFreq(BuildTree(f).value);
  }

  /** With a single distinct symbol the result is a bare leaf. */
  lemma {:induction false} SingleSymbolGivesBareLeaf(f: seq<U64>, b: Byte)
    requires |f| == 256 && f[b] > 0
    requires forall c: Byte :: c != b ==> f[c] == 0
    ensures BuildTree(f) == Ok(Leaf(b, f[b]))
  {
    BuildTreeFailsIffEmpty(f);
    BuildTreeShape(f);
    BuildTreeTokens(f);
    var t := BuildTree(f).value;
    assert Tokens(t) == multiset{b};
    TokensSize(t);
  }

  /** With two or more distinct symbols the root is an internal node. */
  lemma {:induction false} SeveralSymbolsGiveNode(f: seq<U64>, b: Byte, c: Byte)
    requires |f| == 256 && b != c && f[b] > 0 && f[c] > 0
    ensures BuildTree(f).Ok? && BuildTree(f).value.Node?
  {
    BuildTreeFailsIffEmpty(f);
    BuildTreeTokens(f);
  }

  /**
   * While ids are fresh and distinct, the least entry is unique, so every pop
   * is forced whatever the heap's layout; a merge round hands the next round
   * ids that are again fresh and distinct.
   */
  lemma {:induction false} MergeOrderIsDetermined(h: seq<HeapNode>, nextId: nat)
    requires |h| >= 2 && IdsFresh(h, nextId)
    ensures forall k :: IsLeast(h, k) ==> k == MinIndex(h)
    ensures IdsFresh(Merge(h, nextId), nextId + 1)
  {
    forall k | IsLeast(h, k) ensures k == MinIndex(h) {
      MinimumIsUnique(h, k);
    }
    MergeIdsFresh(h, nextId);
  }

  /** `construct_huffman_tree`: push the leaves, then merge the two least entries until one is left. */
  method ConstructHuffmanTree(table: FreqsTable) returns (r: Result<Tree>)
    requires table.Valid()
    ensures r == BuildTree(table.freqs[..])
    ensures r.Err? <==> forall b: Byte :: table.freqs[b] == 0
  {
    ghost var f := table.freqs[..];
    var heap := new MinHeap();
    var nextId: nat := 0;
    for token := 0 to 256
      invariant heap.entries == LeafEntries(f, token)
      invariant nextId == |heap.entries|
    {
      var freq := table.freqs[token];
      if freq > 0 {
        var node := HeapNode(freq, nextId, Leaf(token, freq));
        nextId := nextId + 1;
        heap.Push(node);
      }
    }
    BuildTreeFailsIffEmpty(f);
    if heap.Len() == 0 {
      return Err(EmptyFrequencyTable);
    }
    ghost var initial := heap.entries;
    while heap.Len() > 1
      invariant |heap.entries| >= 1
      invariant MergeAll(heap.entries, nextId) == MergeAll(initial, |initial|)
      decreases |heap.entries|
    {
      ghost var before := heap.entries;
      var leftNode := heap.Pop();
      var rightNode := heap.Pop();
      var combinedTree := NewNode(leftNode.tree, rightNode.tree);
      var combinedFreq := leftNode.freq + rightNode.freq;
      heap.Push(HeapNode(combinedFreq, nextId, combinedTree));
      assert heap.entries == Merge(before, nextId);
      nextId := nextId + 1;
    }
    var root := heap.Pop();
    return Ok(root.tree);
  }
}
