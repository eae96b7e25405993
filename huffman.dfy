/**
 * The public codec: `Encode` turns bytes into a message (tree, bit string,
 * original length) and `Decode` turns a message back into bytes.
 */
module Huffman {
  import opened Types
  import opened Trees
  import opened Freqs
  import opened Builder
  import opened Encoder

  /** An encoded message: the tree, the concatenated codes and the input's length. */
  datatype Message = Message(tree: Tree, encodedData: seq<bool>, originalLen: nat)

  /** The codes of `bytes`, one after another. */
  function EncodeBits(table: seq<seq<bool>>, bytes: seq<Byte>): seq<bool>
    requires |table| == 256
  {
    if bytes == [] then [] else table[bytes[0]] + EncodeBits(table, bytes[1..])
  }

  lemma {:induction false} EncodeBitsSnoc(table: seq<seq<bool>>, bytes: seq<Byte>, b: Byte)
    requires |table| == 256
    ensures EncodeBits(table, bytes + [b]) == EncodeBits(table, bytes) + table[b]
    decreases |bytes|
  {
    if bytes == [] {
      assert bytes + [b] == [b];
      assert [b][1..] == [];
    } else {
      assert (bytes + [b])[0] == bytes[0];
      assert (bytes + [b])[1..] == bytes[1..] + [b];
      EncodeBitsSnoc(table, bytes[1..], b);
    }
  }

  /** What encoding yields: the empty message for empty input, otherwise the tree of the input's counts and the codes. */
  function EncodeSpec(bytes: seq<Byte>): Result<Message>
  {
    if |bytes| == 0 then Ok(Message(Leaf(0, 0), [], 0))
    else
      match BuildTree(CountTable(bytes))
      case Err(e) => Err(e)
      case Ok(tree) => Ok(Message(tree, EncodeBits(EncoderTableOf(tree), bytes), |bytes|))
  }

  method Encode(bytes: seq<Byte>) returns (r: Result<Message>)
    ensures r == EncodeSpec(bytes)
  {
    if |bytes| == 0 {
      return Ok(Message(Leaf(0, 0), [], 0));
    }
    var freqTable := ConstructFreqsTable(bytes);
    var tree := ConstructHuffmanTree(freqTable);
    assert tree == BuildTree(CountTable(bytes));
    if tree.Err? {
      return Err(tree.error);
    }
    var encoder := ConstructEncoderTable(tree.value);
    var encoded: seq<bool> := [];
    for i := 0 to |bytes|
      invariant encoder.encoder[..] == EncoderTableOf(tree.value)
      invariant encoded == EncodeBits(encoder.encoder[..], bytes[..i])
    {
      var code := encoder.Get(bytes[i]);
      EncodeBitsSnoc(encoder.encoder[..], bytes[..i], bytes[i]);
      assert bytes[..i + 1] == bytes[..i] + [bytes[i]];
      encoded := encoded + code;
    }
    assert bytes[..|bytes|] == bytes;
    return Ok(Message(tree.value, encoded, |bytes|));
  }

  /**
   * Reads up to `n` symbols from `bits`, each by a walk from the root;
   * stops early when the bits run out in the middle of a code.
   */
  function ReadUpTo(root: Tree, bits: seq<bool>, n: nat): (r: seq<Byte>)
    ensures |r| <= n
    decreases n
  {
    if n == 0 then []
    else
      match ReadSymbol(root, bits)
      case None => []
      case Some((b, rest)) => [b] + ReadUpTo(root, rest, n - 1)
  }

  /** `n` copies of `b`. */
  function Repeat(b: Byte, n: nat): (s: seq<Byte>)
    ensures |s| == n && forall i :: 0 <= i < n ==> s[i] == b
  {
    if n == 0 then [] else [b] + Repeat(b, n - 1)
  }

  /**
   * What decoding yields: nothing for length 0; `originalLen` copies of the
   * token for a bare leaf, whatever the bits; otherwise the first
   * `originalLen` symbols of the bits, or a length mismatch if fewer are there.
   */
  function DecodeSpec(msg: Message): Result<seq<Byte>>
  {
    if msg.originalLen == 0 then Ok([])
    else if msg.tree.Leaf? then Ok(Repeat(msg.tree.token, msg.originalLen))
    else
      var d := ReadUpTo(msg.tree, msg.encodedData, msg.originalLen);
      if |d| == msg.originalLen then Ok(d)
      else Err(DecodedLengthMismatch(msg.originalLen, |d|))
  }

  /** One more symbol read from the current start position. */
  lemma ReadUpToStep(root: Tree, bits: seq<bool>, n: nat, b: Byte, rest: seq<bool>)
    requires n > 0 && ReadSymbol(root, bits) == Some((b, rest))
    ensures ReadUpTo(root, bits, n) == [b] + ReadUpTo(root, rest, n - 1)
  {
  }

  /** Emitting the symbol whose code ended at `i` keeps the decoder's account of what is left to read. */
  lemma EmitStep(root: Tree, bits: seq<bool>, start: nat, i: nat, decoded: seq<Byte>, len: nat, b: Byte)
    requires start <= i <= |bits| && |decoded| < len
    requires ReadSymbol(root, bits[start..]) == Some((b, bits[i..]))
    requires ReadUpTo(root, bits, len) == decoded + ReadUpTo(root, bits[start..], len - |decoded|)
    ensures ReadUpTo(root, bits, len) == decoded + [b] + ReadUpTo(root, bits[i..], len - |decoded + [b]|)
  {
    ReadUpToStep(root, bits[start..], len - |decoded|, b, bits[i..]);
    ConcatAssoc(decoded, [b], ReadUpTo(root, bits[i..], len - |decoded| - 1));
  }

  /** At an internal node, one bit moves the cursor to a child. */
  lemma ReadSymbolAt(node: Tree, bits: seq<bool>, i: nat)
    requires node.Node? && i < |bits|
    ensures ReadSymbol(node, bits[i..])
            == ReadSymbol(if bits[i] then node.right else node.left, bits[i + 1..])
  {
    assert bits[i..][1..] == bits[i + 1..];
  }

  /** For a tree that is not a bare leaf, decoding yields the symbols the bits read. */
  method Decode(msg: Message) returns (r: Result<seq<Byte>>)
    ensures r == DecodeSpec(msg)
    ensures r.Ok? ==> |r.value| == msg.originalLen
    ensures r.Err? ==> msg.tree.Node? && r.error.DecodedLengthMismatch?
                       && r.error.expected == msg.originalLen && r.error.got < msg.originalLen
  {
    if msg.originalLen == 0 {
      return Ok([]);
    }
    if msg.tree.Leaf? {
      return Ok(Repeat(msg.tree.token, msg.originalLen));
    }
    var decoded := DecodeSymbols(msg.tree, msg.encodedData, msg.originalLen);
    if |decoded| != msg.originalLen {
      return Err(DecodedLengthMismatch(msg.originalLen, |decoded|));
    }
    return Ok(decoded);
  }

  /**
   * The bit-by-bit walk of the decoder. The cursor `node` always rests on an
   * internal node: reaching a leaf emits its token and moves the cursor back
   * to the root. `start` (ghost) is where the code under the cursor began.
   */
  method DecodeSymbols(root: Tree, bits: seq<bool>, len: nat) returns (decoded: seq<Byte>)
    requires root.Node? && len > 0
    ensures decoded == ReadUpTo(root, bits, len)
  {
    decoded := [];
    var node := root;
    ghost var start := 0;
    var i := 0;
    assert bits[0..] == bits;
    while i < |bits|
      invariant 0 <= start <= i <= |bits|
      invariant node.Node?
      invariant |decoded| < len
      invariant ReadSymbol(root, bits[start..]) == ReadSymbol(node, bits[i..])
      invariant ReadUpTo(root, bits, len) == decoded + ReadUpTo(root, bits[start..], len - |decoded|)
    {
      var bit := bits[i];
      match node
      case Node(left, right, _) =>
        ReadSymbolAt(node, bits, i);
        node := if bit then right else left;
        i := i + 1;
        if node.Leaf? {
          EmitStep(root, bits, start, i, decoded, len, node.token);
          decoded := decoded + [node.token];
          node := root;
          start := i;
          if |decoded| == len {
            break;
          }
        }
      case Leaf(token, _) =>
        decoded := decoded + [token];
        node := root;
        i := i + 1;
        if |decoded| == len {
          break;
        }
    }
    if |decoded| < len {
      match node
      case Leaf(token, _) =>
        decoded := decoded + [token];
      case Node(_, _, _) =>
    }
  }

  /**
   * Encoding never fails: non-empty input always has a non-zero count, so a
   * tree exists, and its leaves are exactly the bytes that occur.
   */
  lemma EncodeSucceeds(bytes: seq<Byte>)
    ensures EncodeSpec(bytes).Ok?
    ensures EncodeSpec(bytes).value.originalLen == |bytes|
    ensures |bytes| > 0 ==> UniqueTokens(EncodeSpec(bytes).value.tree)
    ensures |bytes| > 0 ==> forall b: Byte :: Contains(EncodeSpec(bytes).value.tree, b) <==> b in bytes
    ensures forall i :: 0 <= i < |bytes| ==> Contains(EncodeSpec(bytes).value.tree, bytes[i])
  {
    if |bytes| > 0 {
      var f := CountTable(bytes);
      CountTablePresence(bytes, bytes[0]);
      BuildTreeFailsIffEmpty(f);
      BuildTreeTokens(f);
      var t := BuildTree(f).value;
      forall b: Byte ensures Contains(t, b) <==> b in bytes {
        ContainsIsMembership(t, b);
        CountTablePresence(bytes, b);
      }
      forall i | 0 <= i < |bytes| ensures Contains(t, bytes[i]) {
        assert bytes[i] in bytes;
      }
    }
  }

  /**
   * Reading the concatenated codes of `bytes` (followed by anything) gives
   * back `bytes` first, and then whatever the rest reads.
   */
  lemma {:induction false} ReadEncoded(t: Tree, bytes: seq<Byte>, rest: seq<bool>, n: nat)
    requires t.Node? && UniqueTokens(t)
    requires forall i :: 0 <= i < |bytes| ==> Contains(t, bytes[i])
    requires n >= |bytes|
    ensures ReadUpTo(t, EncodeBits(EncoderTableOf(t), bytes) + rest, n)
            == bytes + ReadUpTo(t, rest, n - |bytes|)
    decreases |bytes|
  {
    var table := EncoderTableOf(t);
    if bytes == [] {
      assert EncodeBits(table, bytes) + rest == rest;
    } else {
      var b, tail := bytes[0], bytes[1..];
      assert bytes == [b] + tail;
      ReadOneCode(t, b, tail, rest, n);
      ReadEncoded(t, tail, rest, n - 1);
      ConcatAssoc([b], tail, ReadUpTo(t, rest, n - |bytes|));
    }
  }

  /** The first code of the encoded bits reads the first byte. */
  lemma ReadOneCode(t: Tree, b: Byte, tail: seq<Byte>, rest: seq<bool>, n: nat)
    requires t.Node? && UniqueTokens(t) && Contains(t, b) && n > 0
    ensures ReadUpTo(t, EncodeBits(EncoderTableOf(t), [b] + tail) + rest, n)
            == [b] + ReadUpTo(t, EncodeBits(EncoderTableOf(t), tail) + rest, n - 1)
  {
    var table := EncoderTableOf(t);
    var code, more := EncodeBits(table, tail), EncodeBits(table, tail) + rest;
    NodeCodeAt(t, b);
    assert ([b] + tail)[1..] == tail;
    assert EncodeBits(table, [b] + tail) == Path(t, b) + code;
    ConcatAssoc(Path(t, b), code, rest);
    ReadPath(t, b, more);
    ReadUpToStep(t, Path(t, b) + more, n, b, more);
  }

  /** Decoding what was encoded gives back the input, the empty input included. */
  lemma RoundTrip(bytes: seq<Byte>)
    ensures EncodeSpec(bytes).Ok?
    ensures DecodeSpec(EncodeSpec(bytes).value) == Ok(bytes)
  {
    EncodeSucceeds(bytes);
    if |bytes| > 0 {
      var msg := EncodeSpec(bytes).value;
      var t := msg.tree;
      if t.Leaf? {
        assert Repeat(t.token, |bytes|) == bytes;
      } else {
        ReadEncoded(t, bytes, [], |bytes|);
        assert msg.encodedData + [] == msg.encodedData;
        assert ReadUpTo(t, msg.encodedData, |bytes|) == bytes;
      }
    }
  }

  /** Bits appended after the encoded data are never read. */
  lemma TrailingBitsIgnored(bytes: seq<Byte>, extra: seq<bool>)
    ensures EncodeSpec(bytes).Ok?
    ensures var msg := EncodeSpec(bytes).value;
      DecodeSpec(msg.(encodedData := msg.encodedData + extra)) == Ok(bytes)
  {
    EncodeSucceeds(bytes);
    if |bytes| > 0 {
      var msg := EncodeSpec(bytes).value;
      var t := msg.tree;
      if t.Leaf? {
        RoundTrip(bytes);
      } else {
        ReadEncoded(t, bytes, extra, |bytes|);
        assert ReadUpTo(t, msg.encodedData + extra, |bytes|) == bytes;
      }
    }
  }

  /**
   * With a tree that is not a bare leaf, claiming more symbols than were
   * encoded is reported as a length mismatch naming both lengths.
   */
  lemma InflatedLengthMismatch(bytes: seq<Byte>, k: nat)
    requires k > 0
    requires EncodeSpec(bytes).Ok? && EncodeSpec(bytes).value.tree.Node?
    ensures var msg := EncodeSpec(bytes).value;
      DecodeSpec(msg.(originalLen := |bytes| + k)) == Err(DecodedLengthMismatch(|bytes| + k, |bytes|))
  {
    EncodeSucceeds(bytes);
    var msg := EncodeSpec(bytes).value;
    var t := msg.tree;
    ReadEncoded(t, bytes, [], |bytes| + k);
    assert msg.encodedData + [] == msg.encodedData;
    assert ReadUpTo(t, [], k) == [];
  }

  /**
   * With a bare-leaf tree, claiming more symbols than were encoded is not an
   * error: decoding yields that many copies of the leaf's token.
   */
  lemma InflatedLengthBareLeaf(bytes: seq<Byte>, k: nat)
    requires EncodeSpec(bytes).Ok? && EncodeSpec(bytes).value.tree.Leaf?
    ensures var msg := EncodeSpec(bytes).value;
      DecodeSpec(msg.(originalLen := |bytes| + k)) == Ok(bytes + Repeat(msg.tree.token, k))
  {
    EncodeSucceeds(bytes);
    var msg := EncodeSpec(bytes).value;
    var t := msg.tree;
    assert bytes + Repeat(t.token, k) == Repeat(t.token, |bytes| + k);
  }

  /** A bare-leaf tree encodes every input byte as a single false bit. */
  lemma {:induction false} BareLeafEncoding(bytes: seq<Byte>)
    requires |bytes| > 0 && EncodeSpec(bytes).Ok? && EncodeSpec(bytes).value.tree.Leaf?
    ensures var d := EncodeSpec(bytes).value.encodedData;
      |d| == |bytes| && forall i :: 0 <= i < |d| ==> !d[i]
  {
    EncodeSucceeds(bytes);
    var t := EncodeSpec(bytes).value.tree;
    OneBitCodes(EncoderTableOf(t), bytes);
  }

  lemma {:induction false} OneBitCodes(table: seq<seq<bool>>, bytes: seq<Byte>)
    requires |table| == 256
    requires forall i :: 0 <= i < |bytes| ==> table[bytes[i]] == [false]
    ensures |EncodeBits(table, bytes)| == |bytes|
    ensures forall i :: 0 <= i < |bytes| ==> !EncodeBits(table, bytes)[i]
    decreases |bytes|
  {
    if bytes != [] {
      OneBitCodes(table, bytes[1..]);
    }
  }

  /**
   * Encoding and then decoding the same bytes, propagating either error;
   * neither step fails and the bytes come back unchanged.
   */
  method EncodeThenDecode(bytes: seq<Byte>) returns (r: Result<seq<Byte>>)
    ensures r == Ok(bytes)
  {
    var msg := Encode(bytes);
    RoundTrip(bytes);
    r := Decode(msg.value);
  }

  /**
   * For any non-empty input that fits the 64-bit counters, the leaf
   * frequencies (and the root's frequency) add up to the input length.
   */
  lemma FrequencyConservation(bytes: seq<Byte>)
    requires 0 < |bytes| <= U64_MAX
    ensures EncodeSpec(bytes).Ok?
    ensures LeafFreqSum(EncodeSpec(bytes).value.tree) == |bytes|
    ensures EncodeSpec(bytes).value.tree.freq == |bytes|
  {
    EncodeSucceeds(bytes);
    BuildTreeFreq(CountTable(bytes));
    CountTableSum(bytes);
  }

  /**
   * For inputs that fit the 64-bit counters, no frequency in the tree exceeds
   * the largest 64-bit value, so the unsigned additions of tree construction
   * never overflow.
   */
  lemma NoFrequencyOverflow(bytes: seq<Byte>)
    requires 0 < |bytes| <= U64_MAX
    ensures EncodeSpec(bytes).Ok?
    ensures FreqsAtMost(EncodeSpec(bytes).value.tree, U64_MAX)
  {
    FrequencyConservation(bytes);
    var t := EncodeSpec(bytes).value.tree;
    BuildTreeShape(CountTable(bytes));
    RootFreqIsLargest(t);
    FreqsAtMostMonotone(t, t.freq, U64_MAX);
  }

  lemma {:induction false} RepeatCount(b: Byte, n: nat)
    ensures multiset(Repeat(b, n))[b] == n
    ensures forall c: Byte :: c != b ==> c !in Repeat(b, n)
  {
    if n > 0 {
      RepeatCount(b, n - 1);
      assert multiset(Repeat(b, n)) == multiset{b} + multiset(Repeat(b, n - 1));
    }
  }

  /**
   * `n` copies of one byte build the bare leaf of that byte with count `n`,
   * are encoded as `n` false bits, and decode back to the `n` copies.
   */
  lemma SingleSymbolInput(b: Byte, n: nat)
    requires 0 < n <= U64_MAX
    ensures EncodeSpec(Repeat(b, n)).Ok?
    ensures EncodeSpec(Repeat(b, n)).value.tree == Leaf(b, n)
    ensures EncodeSpec(Repeat(b, n)).value.encodedData == seq(n, _ => false)
    ensures DecodeSpec(EncodeSpec(Repeat(b, n)).value) == Ok(Repeat(b, n))
  {
    var bytes := Repeat(b, n);
    var f := CountTable(bytes);
    RepeatCount(b, n);
    OccurrencesIsMultiplicity(bytes, b);
    forall c: Byte | c != b ensures f[c] == 0 {
      CountTablePresence(bytes, c);
    }
    SingleSymbolGivesBareLeaf(f, b);
    BareLeafEncoding(bytes);
    RoundTrip(bytes);
  }
}
