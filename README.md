# Huffman codec: a verified model

A model of the byte-level Huffman codec in `src/huffman.rs`.

Encoding has four steps:

1. Count each byte value in a 256-slot table of saturating 64-bit counters.
2. Build the Huffman tree with a min-heap ordered by (frequency, insertion id).
3. Derive each byte's code with a depth-first walk that shares one push/pop path buffer. Left is `false` and right is `true`. A tree that is a single leaf gives its byte the one-bit code `[false]`.
4. Concatenate the codes into a message that also carries the tree and the input length.

Decoding walks the tree bit by bit. It emits a byte at each leaf and then returns to the root. It stops as soon as `original_len` bytes have been emitted. If fewer bytes are emitted, it reports a length mismatch. This assumes `original_len` is small enough for the output buffer to be allocated.

The model follows the program's structure, one module per concern:

| module (file) | models |
|---|---|
| `Types` (types.dfy) | `u8`/`u64` as subset types; the `Result` and error values |
| `Trees` (trees.dfy) | `Tree`, `new_node`, root-to-leaf paths, reading one symbol |
| `Freqs` (freqs.dfy) | `FreqsTable` (a class over a 256-slot array) and `construct_freqs_table` |
| `Heap` (heap.dfy) | `HeapNode`, its `cmp`, and the min-heap as a class over a sequence of entries |
| `Builder` (builder.dfy) | `construct_huffman_tree`, as a method with loops, proved against the function `BuildTree` |
| `Encoder` (encoder.dfy) | the bit buffer, `EncoderTable` (a class over an array), `traverse`, `construct_encoder_table` |
| `Huffman` (huffman.dfy) | `Message`, `Huffman::encode`, `Huffman::decode`, the tests' round trip |

Each imperative operation is a method. Its `ensures` ties its result or new state to a specification function. The program's promises are then proved about those functions:

- the round trip;
- that encoding never fails;
- that codes are prefix-free and non-empty;
- that the leaves are exactly the bytes that occur, each once, with their counts;
- that frequencies are conserved;
- that the tie-break makes every pop forced;
- what decoding does with extra trailing bits and with an inflated length.

Decoding is proved against `ReadUpTo`, an independent reference: read at most `n` symbols, each by one walk from the root. `ReadUpTo` is connected to encoding by `ReadEncoded`.

A message whose `original_len` is larger than its bits can produce fails with a length mismatch only when the tree has an internal node (`Huffman.InflatedLengthMismatch`). For a bare-leaf tree, the shortcut at `src/huffman.rs:156-158` returns `original_len` copies of the token whatever the bits say (`Huffman.InflatedLengthBareLeaf`). Both statements hold for lengths the program can allocate; see `Huffman.Decode` under "## Left out".

The defensive `Tree::Leaf` arm inside the decoding loop (`src/huffman.rs:181-189`) and the post-loop leaf push (`src/huffman.rs:195-199`) are part of `Huffman.DecodeSymbols`. Its loop invariant shows that neither can run, because the cursor never rests on a leaf.

## Model

| member | source | states |
|---|---|---|
| Trees.NewNode | src/huffman.rs:27-34 | the new node has the given children in order, its frequency is the sum of theirs, its tokens are theirs together, and it is well-formed when they are |
| Trees.LeafFreqSumIsFreq | src/huffman.rs:27-34 | in a tree built with `new_node`, the root frequency is the sum of the leaf frequencies |
| Trees.RootFreqIsLargest | src/huffman.rs:27-34 | in a tree built with `new_node`, no frequency exceeds the root's |
| Trees.TokensSize | src/huffman.rs:10-20 | a tree has at least one token, and it is a leaf exactly when it has one |
| Trees.Path | src/huffman.rs:275-290 | the root-to-leaf path of a token contained in a tree with an internal root is non-empty |
| Trees.ReadPath | src/huffman.rs:163-179 | walking the decoder from the root along a token's path reaches that token's leaf and leaves the following bits unread |
| Trees.ReadSymbolExtend | src/huffman.rs:163-179 | bits after a complete code do not change the symbol read and remain unread |
| Trees.PathsPrefixFree | src/huffman.rs:275-290 | in a tree with unique tokens, the path of one token is never a prefix of another's |
| Freqs.CountTablePresence | src/huffman.rs:214-220 | a slot of the counted table is non-zero exactly when its byte occurs in the input |
| Freqs.CountTableSum | src/huffman.rs:214-220 | for inputs that fit the counters, the slots add up to the input length |
| Freqs.FreqsTable.constructor | src/huffman.rs:73-75 | a fresh table has 256 slots, all zero |
| Freqs.FreqsTable.Add | src/huffman.rs:77-79 | slot `token` becomes the 64-bit saturating sum of its old value and `freq`; no other slot changes |
| Freqs.ConstructFreqsTable | src/huffman.rs:214-220 | slot `t` of the result holds the number of occurrences of `t` in the input, saturated at the largest 64-bit value |
| Heap.Cmp | src/huffman.rs:52-58 | `a` is less than `b` exactly when its frequency is smaller, or equal with a smaller id; the two are equal exactly when both frequency and id agree; otherwise `a` is greater |
| Heap.CmpIsLexicographicOrder | src/huffman.rs:52-58 | entries compare by frequency and then by id; the order is antisymmetric and transitive |
| Heap.MinIndex | src/huffman.rs:248-249 | the position picked is in range and no entry is less than the one there |
| Heap.MinimumIsUnique | src/huffman.rs:44-58 | with distinct ids, any least entry is the one `MinIndex` picks, so the heap's internal layout cannot change what is popped |
| Heap.MinHeap.Push | src/huffman.rs:237 | the entry is added and nothing else changes |
| Heap.MinHeap.Pop | src/huffman.rs:248-249 | the entry returned is not greater than any entry held before, and it is removed |
| Builder.Merge | src/huffman.rs:247-261 | a merge round leaves one entry fewer |
| Builder.MergeTokens | src/huffman.rs:247-261 | a merge round keeps the multiset of tokens held by the heap |
| Builder.MergeFreq | src/huffman.rs:247-261 | a merge round keeps the total frequency held by the heap |
| Builder.MergeIdsFresh | src/huffman.rs:254-259 | the combined entry takes the next id, and all ids stay distinct and below the next id |
| Builder.MergeAllShape | src/huffman.rs:245-263 | the root is well-formed and its leaves carry the table's counts; one entry gives that entry's tree, and two or more give an internal node |
| Builder.MergeAllTokens | src/huffman.rs:247-263 | the root holds exactly the tokens of the heap it was built from |
| Builder.MergeAllFreq | src/huffman.rs:247-263 | the root's frequency is the heap's total frequency |
| Builder.LeafEntriesInvariants | src/huffman.rs:229-239 | the first loop hands out ids 0, 1, 2, ... and every entry is a leaf with its slot's count |
| Builder.LeafEntriesContents | src/huffman.rs:229-239 | the first loop pushes one leaf per non-zero slot carrying the slots' total, and pushes nothing exactly when every slot is zero |
| Builder.BuildTreeFailsIffEmpty | src/huffman.rs:241-243 | construction fails exactly when every count is zero, and then with the empty-table error |
| Builder.BuildTreeShape | src/huffman.rs:224-265 | the tree built is well-formed and each leaf carries its byte's count |
| Builder.BuildTreeTokens | src/huffman.rs:229-239 | the leaves of the tree built are exactly the bytes with a non-zero count, each exactly once |
| Builder.BuildTreeFreq | src/huffman.rs:224-265 | the root's frequency, and the sum of the leaf frequencies, equal the total of the table |
| Builder.SingleSymbolGivesBareLeaf | src/huffman.rs:245-246 | one non-zero slot gives the bare leaf of that byte with its count |
| Builder.SeveralSymbolsGiveNode | src/huffman.rs:247-261 | two or more non-zero slots give a tree whose root is an internal node |
| Builder.MergeOrderIsDetermined | src/huffman.rs:44-58 | while ids are fresh and distinct, the least entry is unique, and a merge round keeps ids fresh and distinct |
| Builder.ConstructHuffmanTree | src/huffman.rs:224-265 | the result equals `BuildTree` of the table, and it is an error exactly when every count is zero |
| Encoder.EmptyCodes | src/huffman.rs:89-93 | the initial table has 256 slots, each with the empty code |
| Encoder.EncoderTable.constructor | src/huffman.rs:89-93 | a fresh encoder table has 256 empty codes |
| Encoder.EncoderTable.Get | src/huffman.rs:95-97 | returns the code stored at slot `token` of the table |
| Encoder.EncoderTable.Set | src/huffman.rs:99-101 | slot `token` receives `code` and no other slot changes |
| Encoder.BitBuffer.Push | src/huffman.rs:281 | the bit is appended |
| Encoder.BitBuffer.Pop | src/huffman.rs:283 | the last bit is removed and returned; an empty buffer gives None |
| Encoder.Codes | src/huffman.rs:275-290 | the walk keeps the table at 256 slots |
| Encoder.Traverse | src/huffman.rs:275-290 | the buffer is left as it was found, and the table becomes what `Codes` says |
| Encoder.ConstructEncoderTable | src/huffman.rs:272-302 | the table built is `EncoderTableOf(tree)` |
| Encoder.CodesAt | src/huffman.rs:275-290 | with unique tokens, each token of the subtree gets the buffer followed by its path, and every other slot keeps its old code |
| Encoder.NodeCodeAt | src/huffman.rs:299-301 | for a tree with an internal root, a token's code is its root-to-leaf path if the token is in the tree, and empty otherwise |
| Encoder.EncoderTableCodes | src/huffman.rs:267-302 | absent tokens have the empty code; a bare leaf's token has `[false]`; otherwise each token has its path; every present token's code is non-empty |
| Encoder.EncoderTablePrefixFree | src/huffman.rs:267-302 | no code of a present token is a prefix of another present token's code |
| Huffman.Encode | src/huffman.rs:121-146 | the result equals `EncodeSpec`: the empty message for empty input, otherwise the tree of the counts and the concatenated codes with the input length |
| Huffman.EncodeSucceeds | src/huffman.rs:121-146 | encoding never fails; the length recorded is the input's; the tree's tokens are unique and are exactly the bytes that occur |
| Huffman.ReadUpTo | src/huffman.rs:163-191 | the reference decoder never yields more than the requested number of symbols |
| Huffman.Repeat | src/huffman.rs:157 | the result is `n` copies of the byte |
| Huffman.DecodeSymbols | src/huffman.rs:160-199 | the bit-by-bit walk (cursor always on an internal node, reset to the root after each leaf, stopping at `original_len`) yields exactly `ReadUpTo` of the bits |
| Huffman.Decode | src/huffman.rs:149-210 | the result equals `DecodeSpec`; success has exactly `original_len` bytes; an error is a length mismatch with an internal-node tree that names the expected length and a smaller count |
| Huffman.ReadEncoded | src/huffman.rs:136-139 | reading the concatenated codes of some bytes, followed by anything, gives those bytes first |
| Huffman.ReadOneCode | src/huffman.rs:163-179 | the first code of the encoded bits reads back the first byte |
| Huffman.RoundTrip | src/huffman.rs:309-334 | for every input, the empty one included, encoding succeeds and decoding the message gives the input back |
| Huffman.TrailingBitsIgnored | src/huffman.rs:176-178 | bits appended after the encoded data do not change what decoding returns |
| Huffman.InflatedLengthMismatch | src/huffman.rs:201-207 | with an internal-node tree, claiming `k > 0` more bytes than were encoded gives a length mismatch naming both lengths, for lengths the program can allocate (see `Huffman.Decode` under "## Left out") |
| Huffman.InflatedLengthBareLeaf | src/huffman.rs:156-158 | with a bare-leaf tree, claiming `k` more bytes gives the input followed by `k` copies of the token, with no error |
| Huffman.BareLeafEncoding | src/huffman.rs:292-297 | with a bare-leaf tree, each input byte is encoded as one false bit |
| Huffman.FrequencyConservation | src/huffman.rs:224-265 | for non-empty inputs that fit the counters, the leaf frequencies and the root frequency add up to the input length |
| Huffman.NoFrequencyOverflow | src/huffman.rs:251-252 | for inputs that fit the counters, no frequency in the tree exceeds the largest 64-bit value, so the additions of construction never overflow |
| Huffman.SingleSymbolInput | src/huffman.rs:245-246 | `n` copies of one byte give the bare leaf of that byte with count `n`, encode as `n` false bits, and decode back to the input |
| Huffman.EncodeThenDecode | src/huffman.rs:308-320 | encoding and then decoding any input returns the input unchanged |

## Left out

- Frequencies in `Tree` and `HeapNode`: modelled as unbounded naturals, not `u64`. `Huffman.NoFrequencyOverflow` shows this is exact for every input of at most 2^64 - 1 bytes. No longer input can exist on a 64-bit target.
- Insertion ids: modelled as unbounded naturals. `saturating_add` on `usize` never saturates, because at most 511 ids are ever issued.
- `BinaryHeap<Reverse<HeapNode>>`: its internal layout is not modelled. The heap is a sequence whose pop yields the least entry by (freq, id). `Heap.MinimumIsUnique` shows any correct priority queue pops the same entry.
- `BitVec`: modelled as a sequence of booleans. Storage packing is not modelled.
- Huffman.Decode: the up-front allocation of `original_len` bytes (`vec![token; original_len]` at `src/huffman.rs:157`, `Vec::with_capacity(original_len)` at `src/huffman.rs:160`) is not modelled. When `original_len` is beyond `isize::MAX` or beyond available memory, the program panics or aborts instead of returning. The model returns a value for every length, and that value is a length mismatch or the repeated token.
- Error values: both errors are values of an `Error` datatype. The message strings are not modelled.
- `serde` serialization of `Message` and `Tree`: not modelled; it is outside the codec.
- `src/main.rs` (command-line handling, file I/O, process exit codes): not part of this model.
- Optimality of the code lengths: the program does not claim it, and it is not modelled.
