/**
 * The encoder table: the code of every byte value, filled in by a
 * depth-first walk over the Huffman tree that shares one path buffer.
 */
module Encoder {
  import opened Types
  import opened Trees

  /** A growable bit vector, used as the walk's path buffer. */
  class BitBuffer {
    var bits: seq<bool>

    constructor()
      ensures bits == []
    {
      bits := [];
    }

    method Push(b: bool)
      modifies this
      ensures bits == old(bits) + [b]
    {
      bits := bits + [b];
    }

    /** Removes and returns the last bit, or None if the buffer is empty. */
    method Pop() returns (b: Option<bool>)
      modifies this
      ensures old(bits) == [] ==> b == None && bits == []
      ensures old(bits) != [] ==>
                b == Some(old(bits)[|old(bits)| - 1]) && bits == old(bits)[..|old(bits)| - 1]
    {
      if bits == [] {
        b := None;
      } else {
        b := Some(bits[|bits| - 1]);
        bits := bits[..|bits| - 1];
      }
    }
  }

  /** The table every code starts from: no byte has a code. */
  function EmptyCodes(): (codes: seq<seq<bool>>)
    ensures |codes| == 256
    ensures forall b: Byte :: codes[b] == []
  {
    seq(256, _ => [])
  }

  /** One code slot per byte value. */
  class EncoderTable {
    const encoder: array<seq<bool>>

    ghost predicate Valid()
      reads this
    {
      encoder.Length == 256
    }

    constructor()
      ensures Valid() && fresh(encoder)
      ensures encoder[..] == EmptyCodes()
    {
      encoder := new seq<bool>[256](_ => []);
    }

    /** The code stored for `token`. */
    function Get(token: Byte): (code: seq<bool>)
      requires Valid()
      reads this, encoder
      ensures code == encoder[..][token]
    {
      encoder[token]
    }

    method Set(token: Byte, code: seq<bool>)
      requires Valid()
      modifies encoder
      ensures encoder[..] == old(encoder[..])[token := code]
    {
      encoder[token] := code;
    }
  }

  /**
   * The table after the walk from `t` with path buffer `p`: each leaf's slot
   * receives the buffer as it stands when the walk reaches that leaf, the
   * left subtree (bit false) being walked before the right one (bit true).
   */
  function Codes(t: Tree, p: seq<bool>, table: seq<seq<bool>>): (r: seq<seq<bool>>)
    requires |table| == 256
    ensures |r| == 256
  {
    match t
    case Leaf(b, _) => table[b := p]
    case Node(l, r, _) => Codes(r, p + [true], Codes(l, p + [false], table))
  }

  /** The encoder table of a tree; a bare leaf gets the one-bit code [false]. */
  function EncoderTableOf(t: Tree): (codes: seq<seq<bool>>)
    ensures |codes| == 256
  {
    if t.Leaf? then EmptyCodes()[t.token := [false]] else Codes(t, [], EmptyCodes())
  }

  /**
   * The recursive walk: a leaf's slot receives a copy of the buffer; at a
   * node, the bit of each child is pushed before and popped after its walk.
   */
  method Traverse(node: Tree, code: BitBuffer, table: EncoderTable)
    requires table.Valid()
    modifies code, table.encoder
    ensures code.bits == old(code.bits)
    ensures table.encoder[..] == Codes(node, old(code.bits), old(table.encoder[..]))
    decreases node
  {
    match node
    case Leaf(token, _) =>
      table.Set(token, code.bits);
    case Node(left, right, _) =>
      code.Push(false);
      Traverse(left, code, table);
      var _ := code.Pop();
      code.Push(true);
      Traverse(right, code, table);
      var _ := code.Pop();
  }

  method ConstructEncoderTable(tree: Tree) returns (table: EncoderTable)
    ensures table.Valid() && fresh(table.encoder)
    ensures table.encoder[..] == EncoderTableOf(tree)
  {
    table := new EncoderTable();
    if tree.Leaf? {
      var code := new BitBuffer();
      code.Push(false);
      assert code.bits == [false];
      table.Set(tree.token, code.bits);
      return;
    }
    var code := new BitBuffer();
    Traverse(tree, code, table);
  }

  /**
   * In a tree with unique tokens the walk gives each of its tokens the
   * buffer followed by the token's root-to-leaf path, and leaves every other
   * slot as it was.
   */
  lemma {:induction false} CodesAt(t: Tree, p: seq<bool>, table: seq<seq<bool>>, b: Byte)
    requires |table| == 256 && UniqueTokens(t)
    ensures Codes(t, p, table)[b] == if Contains(t, b) then p + Path(t, b) else table[b]
  {
    match t
    case Leaf(_, _) =>
      assert p + [] == p;
    case Node(l, r, _) =>
      UniqueTokensChildren(t);
      ContainsIsMembership(l, b);
      ContainsIsMembership(r, b);
      var mid := Codes(l, p + [false], table);
      CodesAt(l, p + [false], table, b);
      CodesAt(r, p + [true], mid, b);
      CodesAtNode(t, p, table, b, mid);
  }

  lemma CodesAtNode(t: Tree, p: seq<bool>, table: seq<seq<bool>>, b: Byte, mid: seq<seq<bool>>)
    requires |table| == 256 && t.Node? && !(Contains(t.left, b) && Contains(t.right, b))
    requires mid == Codes(t.left, p + [false], table)
    requires mid[b] == if Contains(t.left, b) then p + [false] + Path(t.left, b) else table[b]
    requires Codes(t.right, p + [true], mid)[b]
             == if Contains(t.right, b) then p + [true] + Path(t.right, b) else mid[b]
    ensures Codes(t, p, table)[b] == if Contains(t, b) then p + Path(t, b) else table[b]
  {
    if Contains(t.left, b) {
      ConcatAssoc(p, [false], Path(t.left, b));
    } else if Contains(t.right, b) {
      ConcatAssoc(p, [true], Path(t.right, b));
    }
  }

  lemma ConcatAssoc<T>(a: seq<T>, b: seq<T>, c: seq<T>)
    ensures a + b + c == a + (b + c)
  {
  }

  /**
   * The table the encoder builds: tokens absent from the tree have the empty
   * code, a bare leaf's token has [false], and in a larger tree every token
   * has its root-to-leaf path; so every present token has a non-empty code.
   */
  lemma EncoderTableCodes(t: Tree)
    requires UniqueTokens(t)
    ensures forall b: Byte :: !Contains(t, b) ==> EncoderTableOf(t)[b] == []
    ensures t.Leaf? ==> EncoderTableOf(t)[t.token] == [false]
    ensures t.Node? ==> forall b: Byte :: Contains(t, b) ==> EncoderTableOf(t)[b] == Path(t, b)
    ensures forall b: Byte :: Contains(t, b) ==> |EncoderTableOf(t)[b]| > 0
  {
    if t.Node? {
      forall b: Byte
        ensures EncoderTableOf(t)[b] == if Contains(t, b) then Path(t, b) else []
      {
        NodeCodeAt(t, b);
      }
    }
  }

  lemma NodeCodeAt(t: Tree, b: Byte)
    requires t.Node? && UniqueTokens(t)
    ensures EncoderTableOf(t)[b] == if Contains(t, b) then Path(t, b) else []
  {
    assert EncoderTableOf(t) == Codes(t, [], EmptyCodes());
    CodesAt(t, [], EmptyCodes(), b);
    if Contains(t, b) {
      assert [] + Path(t, b) == Path(t, b);
    }
  }

  /** The codes of two different tokens of the tree are never prefixes of each other. */
  lemma EncoderTablePrefixFree(t: Tree, b: Byte, c: Byte)
    requires UniqueTokens(t)
    requires Contains(t, b) && Contains(t, c) && b != c
    ensures !IsPrefix(EncoderTableOf(t)[b], EncoderTableOf(t)[c])
  {
    if t.Node? {
      EncoderTableCodes(t);
      PathsPrefixFree(t, b, c);
    }
  }
}
