/** The Huffman tree and the facts about it that the rest of the codec relies on. */
module Trees {
  import opened Types

  /** A Huffman tree. Convention: bit false (0) selects the left child, true (1) the right one. */
  datatype Tree =
    | Leaf(token: Byte, freq: nat)
    | Node(left: Tree, right: Tree, freq: nat)

  /** Every internal node carries the sum of its children's frequencies. */
  ghost predicate WellFormed(t: Tree)
  {
    match t
    case Leaf(_, _) => true
    case Node(l, r, q) => q == l.freq + r.freq && WellFormed(l) && WellFormed(r)
  }

  /** The tokens at the leaves, with multiplicity. */
  function Tokens(t: Tree): multiset<Byte>
  {
    match t
    case Leaf(b, _) => multiset{b}
    case Node(l, r, _) => Tokens(l) + Tokens(r)
  }

  /** Whether some leaf holds token `b`. */
  predicate Contains(t: Tree, b: Byte)
  {
    match t
    case Leaf(x, _) => x == b
    case Node(l, r, _) => Contains(l, b) || Contains(r, b)
  }

  lemma {:induction false} ContainsIsMembership(t: Tree, b: Byte)
    ensures Contains(t, b) <==> b in Tokens(t)
  {
    match t
    case Leaf(_, _) =>
    case Node(l, r, _) =>
      ContainsIsMembership(l, b);
      ContainsIsMembership(r, b);
  }

  /** No token labels two leaves. */
  ghost predicate UniqueTokens(t: Tree)
  {
    forall b: Byte :: Tokens(t)[b] <= 1
  }

  /** Every leaf carries the frequency that table `f` records for its token. */
  ghost predicate LeafFreqsAre(t: Tree, f: seq<int>)
  {
    match t
    case Leaf(b, q) => b < |f| && q == f[b]
    case Node(l, r, _) => LeafFreqsAre(l, f) && LeafFreqsAre(r, f)
  }

  /** The sum of the leaves' frequencies. */
  function LeafFreqSum(t: Tree): nat
  {
    match t
    case Leaf(_, q) => q
    case Node(l, r, _) => LeafFreqSum(l) + LeafFreqSum(r)
  }

  /** `Tree::new_node`: the node's frequency is the sum of its children's. */
  function NewNode(left: Tree, right: Tree): (t: Tree)
    ensures t.Node? && t.left == left && t.right == right
    ensures t.freq == left.freq + right.freq
    ensures WellFormed(left) && WellFormed(right) ==> WellFormed(t)
    ensures Tokens(t) == Tokens(left) + Tokens(right)
  {
    Node(left, right, left.freq + right.freq)
  }

  lemma {:induction false} LeafFreqSumIsFreq(t: Tree)
    requires WellFormed(t)
    ensures LeafFreqSum(t) == t.freq
  {
    match t
    case Leaf(_, _) =>
    case Node(l, r, _) =>
      LeafFreqSumIsFreq(l);
      LeafFreqSumIsFreq(r);
  }

  /** Every frequency in the tree is at most `m`. */
  ghost predicate FreqsAtMost(t: Tree, m: int)
  {
    match t
    case Leaf(_, q) => q <= m
    case Node(l, r, q) => q <= m && FreqsAtMost(l, m) && FreqsAtMost(r, m)
  }

  /** In a well-formed tree no frequency exceeds the root's. */
  lemma {:induction false} RootFreqIsLargest(t: Tree)
    requires WellFormed(t)
    ensures FreqsAtMost(t, t.freq)
  {
    match t
    case Leaf(_, _) =>
    case Node(l, r, _) =>
      RootFreqIsLargest(l);
      RootFreqIsLargest(r);
      FreqsAtMostMonotone(l, l.freq, t.freq);
      FreqsAtMostMonotone(r, r.freq, t.freq);
  }

  lemma {:induction false} FreqsAtMostMonotone(t: Tree, m: int, m': int)
    requires FreqsAtMost(t, m) && m <= m'
    ensures FreqsAtMost(t, m')
  {
    match t
    case Leaf(_, _) =>
    case Node(l, r, _) =>
      FreqsAtMostMonotone(l, m, m');
      FreqsAtMostMonotone(r, m, m');
  }

  /** A leaf holds one token and an internal node at least two. */
  lemma {:induction false} TokensSize(t: Tree)
    ensures |Tokens(t)| >= 1
    ensures t.Leaf? <==> |Tokens(t)| == 1
  {
    match t
    case Leaf(_, _) =>
    case Node(l, r, _) =>
      TokensSize(l);
      TokensSize(r);
  }

  lemma UniqueTokensChildren(t: Tree)
    requires t.Node? && UniqueTokens(t)
    ensures UniqueTokens(t.left) && UniqueTokens(t.right)
    ensures forall b: Byte :: b in Tokens(t.left) ==> b !in Tokens(t.right)
  {
    forall b: Byte ensures Tokens(t.left)[b] <= 1 && Tokens(t.right)[b] <= 1 {
      assert Tokens(t)[b] == Tokens(t.left)[b] + Tokens(t.right)[b];
    }
    forall b: Byte | b in Tokens(t.left) ensures b !in Tokens(t.right) {
      assert Tokens(t)[b] == Tokens(t.left)[b] + Tokens(t.right)[b];
    }
  }

  /**
   * The root-to-leaf path to token `b`: the bits that lead from the root to
   * the leaf holding `b` (the left subtree is searched first).
   */
  function Path(t: Tree, b: Byte): (p: seq<bool>)
    requires Contains(t, b)
    ensures t.Node? ==> |p| > 0
  {
    match t
    case Leaf(_, _) => []
    case Node(l, r, _) =>
      if Contains(l, b) then [false] + Path(l, b) else [true] + Path(r, b)
  }

  /**
   * Walks from `t` along `bits` until a leaf is reached; yields that leaf's
   * token and the unread rest of `bits`, or None if the bits run out first.
   */
  function ReadSymbol(t: Tree, bits: seq<bool>): Option<(Byte, seq<bool>)>
  {
    match t
    case Leaf(b, _) => Some((b, bits))
    case Node(l, r, _) =>
      if bits == [] then None
      else if bits[0] then ReadSymbol(r, bits[1..])
      else ReadSymbol(l, bits[1..])
  }

  /** Following the path to a token reads exactly that token and leaves the rest untouched. */
  lemma {:induction false} ReadPath(t: Tree, b: Byte, rest: seq<bool>)
    requires Contains(t, b)
    ensures ReadSymbol(t, Path(t, b) + rest) == Some((b, rest))
  {
    match t
    case Leaf(_, _) =>
      assert Path(t, b) + rest == rest;
    case Node(l, r, _) =>
      var bit := !Contains(l, b);
      var child := if bit then r else l;
      ReadPath(child, b, rest);
      PathStep(t, b, rest);
      ReadSymbolStep(t, bit, Path(child, b) + rest);
  }

  lemma PathStep(t: Tree, b: Byte, rest: seq<bool>)
    requires t.Node? && Contains(t, b)
    ensures var bit := !Contains(t.left, b);
      Path(t, b) + rest == [bit] + (Path(if bit then t.right else t.left, b) + rest)
  {
  }

  /** At an internal node one bit selects the child to continue from. */
  lemma ReadSymbolStep(t: Tree, bit: bool, bits: seq<bool>)
    requires t.Node?
    ensures ReadSymbol(t, [bit] + bits) == ReadSymbol(if bit then t.right else t.left, bits)
  {
    assert ([bit] + bits)[1..] == bits;
  }

  /** Bits appended after a complete code do not change the symbol read. */
  lemma {:induction false} ReadSymbolExtend(t: Tree, bits: seq<bool>, extra: seq<bool>)
    requires ReadSymbol(t, bits).Some?
    ensures ReadSymbol(t, bits + extra)
            == Some((ReadSymbol(t, bits).value.0, ReadSymbol(t, bits).value.1 + extra))
  {
    match t
    case Leaf(_, _) =>
    case Node(l, r, _) =>
      assert (bits + extra)[0] == bits[0];
      assert (bits + extra)[1..] == bits[1..] + extra;
      ReadSymbolExtend(if bits[0] then r else l, bits[1..], extra);
  }

  predicate IsPrefix(p: seq<bool>, q: seq<bool>)
  {
    |p| <= |q| && q[..|p|] == p
  }

  lemma PrefixUncons(x: bool, p: seq<bool>, q: seq<bool>)
    ensures IsPrefix([x] + p, [x] + q) ==> IsPrefix(p, q)
  {
    if IsPrefix([x] + p, [x] + q) {
      assert ([x] + q)[..|p| + 1][1..] == q[..|p|];
    }
  }

  /** In a tree whose tokens are unique, no path is a prefix of another. */
  lemma {:induction false} PathsPrefixFree(t: Tree, b: Byte, c: Byte)
    requires UniqueTokens(t)
    requires Contains(t, b) && Contains(t, c) && b != c
    ensures !IsPrefix(Path(t, b), Path(t, c))
  {
    match t
    case Leaf(_, _) =>
    case Node(l, r, _) =>
      UniqueTokensChildren(t);
      ContainsIsMembership(l, b);
      ContainsIsMembership(l, c);
      ContainsIsMembership(r, b);
      ContainsIsMembership(r, c);
      var pb, pc := Path(t, b), Path(t, c);
      if Contains(l, b) && Contains(l, c) {
        PathsPrefixFree(l, b, c);
        PrefixUncons(false, Path(l, b), Path(l, c));
      } else if !Contains(l, b) && !Contains(l, c) {
        PathsPrefixFree(r, b, c);
        PrefixUncons(true, Path(r, b), Path(r, c));
      } else {
        assert pb[0] != pc[0];
      }
  }
}
