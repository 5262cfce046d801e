# Huffman coding with an array-backed min-heap, in Dafny

This project models the algorithmic core of a small Java Huffman coder and proves
what that code promises about itself:

- `MinPQ<Key>` (`src/MinPQ.java`) is a 1-indexed binary min-heap kept in an array. Slot 0 is unused, slots
  1..N hold the keys, and the array doubles when full and halves at a quarter
  full.
- `Huffman` (`src/Huffman.java`) does the following:
  - counts symbols over a 256-character alphabet;
  - queues one leaf per symbol that occurs;
  - merges the two lightest trees until one is left;
  - reads the code table off the tree ('0' for left, '1' for right).

  It then transforms the text in two ways:
  - *encode/decode*: one '0'/'1' character per code digit, read back by walking the tree;
  - *compress/extract*: seven code digits packed into each byte, the last group
    padded with zeros and `bitCount` kept, read back from bit 6 down to bit 0 and
    stopping after `bitCount` digits.

Modules:

| module | file | models |
|---|---|---|
| `Results` | `results.dfy` | `Option` and `Result` |
| `MinPQ` | `min_pq.dfy` | the heap as an immutable value `Heap(pq, n)` |
| `HuffmanTree` | `huffman_tree.dfy` | `Node`, `compareTo`, `createCodeTable`, leaf paths, prefix-freeness |
| `HuffmanBuild` | `huffman_build.dfy` | frequency count, leaf queue, `createHuffmanTree`, `initializeEncodeCompress` |
| `HuffmanCodec` | `huffman_codec.dfy` | the encode, decode, compress and extract loops, and the two round trips |

**How the heap is modelled.**
- The heap is a value. Each Java method that mutates it is a Dafny method that
  returns the new heap. The array is a `seq<Option<K>>`, with null as `None`.
- A function `rank: K -> int` stands in for `compareTo`: `a.compareTo(b) > 0` is
  `rank(a) - rank(b) > 0`. The Huffman queue uses `Weight`, and `Node.compareTo`
  is `a.weight - b.weight`.
- The abstract view of a queue is the multiset of its live keys (`Contents`).
- Every method keeps the invariant that `isMinHeap` checks (`Valid`).
  `IsMinHeapIffValid` proves that the recursive Java check is exactly that
  invariant.

**How the Huffman class is modelled.**
- Its fields (`text`, `root`, `cTable`) become parameters and results.
- Each output loop is lifted out of its file-writing method as a method that
  returns the sequence it would write.
- The Java `assert`s are disabled at run time. Each place where the program would
  otherwise fail becomes an error value of `Initialize`:
  - a character ≥ 256 gives `SymbolOutOfRange`; the Java indexes out of bounds;
  - the empty text gives `EmptyText`; the last `delMin` underflows;
  - a text of one repeated character gives `SingleSymbol`; this is the asserted
    `!root.isLeaf()`.
- The two headline theorems are the asserts of the Java code:
  - `EncodeSession` proves that decoding the encoded text gives the text back
    (`src/Huffman.java:346`).
  - `CompressSession` proves that extracting the compressed bytes gives the text
    back (`src/Huffman.java:460`).

**Where this code departs from a textbook Huffman codec, the model follows the code.**
- A textbook decoder goes right only on '1'. This one goes right on any digit
  other than '0'.
- A textbook decoder rejects input that ends in the middle of a path. This one
  drops the leftover digits and raises no error.
- A textbook packer fills 8 bits per byte. This one packs 7 digits per byte, so
  every byte is below 128. This costs space but does not break the round trip, so
  it is modelled as written and not as a defect.

## Model

| member | source | states |
|---|---|---|
| MinPQ.Empty | src/MinPQ.java:13 | a new queue has a two-slot array, the right layout, and no keys |
| MinPQ.Size | src/MinPQ.java:20 | `size()` is the number of keys the queue holds (the size of its multiset) |
| MinPQ.IsEmpty | src/MinPQ.java:28 | `isEmpty()` holds exactly when the queue holds no key |
| MinPQ.Insert | src/MinPQ.java:35-41 | insert keeps the heap invariant, raises N by one and adds exactly `key` to the multiset of keys; the array doubles exactly when it was full (N == length-1) |
| MinPQ.Min | src/MinPQ.java:49-53 | on an empty queue: Underflow, exactly then; otherwise a key of the queue that ranks at or below every key in it |
| MinPQ.RootIsLeast | src/MinPQ.java:52 | in a valid non-empty heap, slot 1 holds a key of the queue that ranks at or below all of them |
| MinPQ.RootBelow | src/MinPQ.java:52 | slot 1 ranks at or below every live slot, by induction along the parent chain |
| MinPQ.DelMin | src/MinPQ.java:61-72 | on an empty queue: Underflow and no change. Otherwise it returns a least key, removes exactly one occurrence of it, lowers N by one and keeps the heap invariant; the array halves exactly when N > 0 and N == length/4 |
| MinPQ.RemoveLast | src/MinPQ.java:65-67 | moving the last key to slot 1 and nulling the vacated slot keeps the layout, loses exactly the old root, and leaves disorder only below slot 1 |
| MinPQ.RemoveLastContents | src/MinPQ.java:66-67 | the swap-and-null keeps the array layout and takes exactly the old root out of the multiset |
| MinPQ.RemoveLastOrder | src/MinPQ.java:66-67 | after the swap-and-null, heap order holds everywhere except between slot 1 and its children |
| MinPQ.CopyMinPQ | src/MinPQ.java:80-89 | on an empty queue: Underflow, exactly then. Otherwise a valid queue with the same size and the same multiset of keys |
| MinPQ.Swim | src/MinPQ.java:93-100 | from a heap disordered only above slot k, swim restores heap order and keeps N, the array length and the multiset of keys |
| MinPQ.SwimStep | src/MinPQ.java:95-98 | swapping k with a parent that ranks above it moves the only possible disorder to the parent |
| MinPQ.SwimSettled | src/MinPQ.java:95 | when swim stops (at the root, or below a parent that is not greater) the heap is fully ordered |
| MinPQ.Sink | src/MinPQ.java:103-113 | from a heap disordered only below slot k, sink restores heap order and keeps N, the array length and the multiset of keys |
| MinPQ.SmallerChild | src/MinPQ.java:107-108 | the chosen child is 2k, or 2k+1 only when that one ranks strictly below 2k; it never ranks above its sibling |
| MinPQ.SinkStep | src/MinPQ.java:110-111 | swapping k with its smaller child, which ranks below it, moves the only possible disorder down to that child |
| MinPQ.SinkStepAbove | src/MinPQ.java:110-111 | after that swap, every parent-child pair whose parent is not the child slot is in order |
| MinPQ.SinkStepBelow | src/MinPQ.java:110-111 | after that swap, the child slot's parent ranks no higher than the child slot's own children |
| MinPQ.SinkSettled | src/MinPQ.java:109 | when k is not greater than its smaller child, the heap is fully ordered |
| MinPQ.SinkBottom | src/MinPQ.java:105 | when k has no child left, the heap is fully ordered |
| MinPQ.Greater | src/MinPQ.java:116 | `greater(i, j)` holds exactly when the key in slot j ranks strictly below the key in slot i |
| MinPQ.Exch | src/MinPQ.java:119-124 | the two slots trade values, every other slot is unchanged, and the multiset of slots is the same |
| MinPQ.ExchContents | src/MinPQ.java:119-124 | exchanging two live slots keeps the array layout and the multiset of keys |
| MinPQ.Resize | src/MinPQ.java:127-136 | the new array has the requested length, keeps slots 1..N and the layout, and holds the same keys in the same order |
| MinPQ.Drain | src/MinPQ.java:61-72 | repeated delMin hands back every key of the queue (same multiset) in non-decreasing rank order |
| MinPQ.DrainStep | src/MinPQ.java:61-72 | appending the least of the remaining keys keeps the output sorted and below everything left |
| MinPQ.IsMinHeapIffValid | src/MinPQ.java:140-151 | the `isMinHeap` self-check holds exactly when the layout and heap-order invariant hold |
| MinPQ.OrderedMatchesSubtree | src/MinPQ.java:154-165 | `isMinHeapOrdered(k)` holds exactly when every parent-child pair within the subtree at k is ordered |
| MinPQ.OrderedFromSubtree | src/MinPQ.java:154-165 | an ordered subtree passes the recursive check |
| MinPQ.SubtreeFromOrdered | src/MinPQ.java:154-165 | a subtree that passes the recursive check is ordered |
| HuffmanTree.CompareTo | src/Huffman.java:32 | negative, zero or positive exactly as the first node weighs less than, the same as, or more than the second |
| HuffmanTree.CreateCodeTable | src/Huffman.java:266-274 | the table gains an entry for exactly the symbols below the node and keeps every other entry |
| HuffmanTree.CodeTablePaths | src/Huffman.java:266-274 | the code recorded for a symbol is the accumulated prefix followed by a path to a leaf holding that symbol |
| HuffmanTree.PathFromLeft | src/Huffman.java:270 | a code recorded in the left subtree (and not overwritten by the right) is a path through the left child |
| HuffmanTree.PathFromRight | src/Huffman.java:271 | a code recorded in the right subtree is a path through the right child |
| HuffmanTree.LeafPathBinary | src/Huffman.java:270-271 | paths are made of '0' and '1' only |
| HuffmanTree.LeafPathPrefixFree | src/Huffman.java:266-274 | a leaf path that is a prefix of another is the same path, to the same symbol |
| HuffmanTree.CodeTableFacts | src/Huffman.java:266-274 | for an internal root: one entry per symbol of the tree and no others; each code is a non-empty binary path to its symbol; the code of one symbol is never a prefix of another's |
| HuffmanTree.LeafRootHasEmptyCode | src/Huffman.java:273 | a single-leaf tree gives its symbol the empty code |
| HuffmanTree.SymbolsHaveLeaves | src/Huffman.java:9-33 | every symbol of a tree is held by one of its leaves |
| HuffmanBuild.GetFrequencyCount | src/Huffman.java:241-249 | count[c] is the number of occurrences of c in the text, for each of the 256 symbols, and the counts add up to the text's length |
| HuffmanBuild.SumIncrement | src/Huffman.java:246 | one increment raises the total count by one |
| HuffmanBuild.LeafQueue | src/Huffman.java:101-104 | the queue is valid and holds exactly one leaf per symbol with a positive count, weighted by that count |
| HuffmanBuild.QueueLeaf | src/Huffman.java:102-104 | one pass of the loop keeps the heap valid and adds to it exactly the leaf (if any) for symbol c |
| HuffmanBuild.LeafListMembers | src/Huffman.java:102-104 | each symbol with a positive count has exactly one queued leaf, of weight equal to its count, and nothing else is queued |
| HuffmanBuild.LeafListShape | src/Huffman.java:102-104 | no leaf exactly for the empty text; two or more exactly when the text has two different characters; all are well-formed leaves |
| HuffmanBuild.LeafForest | src/Huffman.java:98-104 | the queued leaves weigh as much as the text is long and are their own leaves |
| HuffmanBuild.CreateHuffmanTree | src/Huffman.java:252-263 | Underflow exactly for an empty queue. Otherwise: one well-formed tree (each parent weighs its two children) whose weight is the queue's total and whose leaves are exactly the queued leaves; an internal root whenever two or more trees were queued, the single tree otherwise |
| HuffmanBuild.TakeTwo | src/Huffman.java:256-257 | the two delMin calls take out the lightest tree and the lightest of the rest, and the queue shrinks by two |
| HuffmanBuild.CombineLightest | src/Huffman.java:255-260 | one round takes out of the queue a least-weight tree and a least-weight tree of the rest, and the new queue is the old one with exactly those two replaced by their parent, whose weight is the sum of theirs; the queue shrinks by one and keeps its total weight and its leaves |
| HuffmanBuild.MergeRounds | src/Huffman.java:254-260 | the loop leaves at most one tree; it keeps the total weight and the leaves, leaves a queue of one tree alone, and leaves an internal tree whenever two or more were queued |
| HuffmanBuild.GreaterIsCompareTo | src/Huffman.java:32 | the heap's `greater(i, j)` on nodes is `compareTo(pq[i], pq[j]) > 0`, i.e. the node at i weighs more |
| HuffmanBuild.Merge | src/Huffman.java:258-259 | replacing two trees by their parent keeps the forest well formed, its total weight and its leaves |
| HuffmanBuild.RemovePair | src/Huffman.java:256-257 | taking two trees out of a forest takes exactly their weight and leaves with them |
| HuffmanBuild.LastTree | src/Huffman.java:262 | the last tree taken out is well formed, weighs the total and holds all the leaves |
| HuffmanBuild.BuildTree | src/Huffman.java:98-106 | failure exactly for the empty text. Otherwise a well-formed tree weighing the text's length, whose leaves are the queued ones, with an internal root exactly when the text has two different characters |
| HuffmanBuild.Initialize | src/Huffman.java:91-109 | an out-of-range character, the empty text and a single repeated character are each reported; any other text gets an internal well-formed root weighing the text's length, with exactly the queued leaves, and its code table |
| HuffmanBuild.CodebookSymbols | src/Huffman.java:102-108 | the tree holds a symbol exactly when the text contains it |
| HuffmanCodec.Step | src/Huffman.java:332-340 | one decoding step either leaves the output as it was or appends one symbol, and stays on an internal node |
| HuffmanCodec.WalkAppend | src/Huffman.java:330-341 | reading `a` and then `b` is reading `a + b` |
| HuffmanCodec.WalkLeafPath | src/Huffman.java:332-340 | reading a path to a leaf emits that leaf's symbol and returns to the root |
| HuffmanCodec.CodewordWalk | src/Huffman.java:285-295 | reading the concatenated codes of a text from the root appends that text and ends at the root |
| HuffmanCodec.DecodeEncode | src/Huffman.java:346 | a codebook's table covers its text, its codes are binary, and decoding the codeword gives exactly the text, ending at the root |
| HuffmanCodec.CodewordBinary | src/Huffman.java:285-295 | binary codes give a binary codeword |
| HuffmanCodec.EncodeText | src/Huffman.java:285-295 | the output has one character per code digit, in order, each '0' or '1' as that digit is '0' or not |
| HuffmanCodec.EncodedIsCodeword | src/Huffman.java:290-293 | for binary codes the output is the codeword itself |
| HuffmanCodec.DecodeText | src/Huffman.java:327-341 | the output is what the tree walk from the root emits over the whole input |
| HuffmanCodec.SingleLeafCodewordEmpty | src/Huffman.java:262-273 | for a text of one repeated character the single-leaf tree's table encodes the text to no digits at all |
| HuffmanCodec.SingleLeafLosesText | src/Huffman.java:285-295 | "a" and "aa" get the same empty encoding |
| HuffmanCodec.GroupValue | src/Huffman.java:376-377 | a group of digits read as a binary number is below 2^length |
| HuffmanCodec.PackGroups | src/Huffman.java:381-386 | one byte per whole group of seven digits, each below 128 |
| HuffmanCodec.Padding | src/Huffman.java:390-400 | fewer than seven zeros, and exactly enough to fill the last group |
| HuffmanCodec.PaddingUnique | src/Huffman.java:390-400 | no other count of zeros below seven fills the last group |
| HuffmanCodec.ByteDigits | src/Huffman.java:440-444 | seven digits per byte |
| HuffmanCodec.GroupBits | src/Huffman.java:444 | shifting a group's value right by a digit's distance from the end brings that digit to bit 0 |
| HuffmanCodec.ByteOfGroup | src/Huffman.java:444 | reading bits 6..0 of a group's byte gives the group back |
| HuffmanCodec.UnpackGroups | src/Huffman.java:438-444 | reading back whole groups of binary digits gives the digits |
| HuffmanCodec.PackRoundTrip | src/Huffman.java:369-400 | packing a binary codeword gives ceil(length/7) bytes, each below 128, and reading them back gives the codeword followed by the padding zeros |
| HuffmanCodec.UnpackAt | src/Huffman.java:438-444 | digit k of byte i is read at position 7i+k |
| HuffmanCodec.UnpackByte | src/Huffman.java:438-444 | the seven digits read back from byte i are that byte's digits |
| HuffmanCodec.ShiftIn | src/Huffman.java:376-386 | one digit doubles the buffer and adds the digit; the buffer is written as the next byte and reset exactly when it reaches seven digits. Afterwards the bytes still pack the whole groups of the digits seen and the buffer holds the rest |
| HuffmanCodec.ShiftDigit | src/Huffman.java:376-377 | shifting a group's value left by one and or-ing in a digit gives the value of the group with that digit appended |
| HuffmanCodec.EmitGroup | src/Huffman.java:381-386 | writing a full buffer appends that group's byte to the bytes of the groups before it |
| HuffmanCodec.CompressText | src/Huffman.java:369-400 | bitCount is the length of the codeword, and the bytes are the codeword packed seven digits to a byte with the last group zero-padded |
| HuffmanCodec.Flush | src/Huffman.java:390-400 | the closing loop pads the partial group with zeros and writes it, so the bytes pack everything shifted in |
| HuffmanCodec.Budget | src/Huffman.java:442 | the extractor reads no more digits than there are, and exactly bitCount of them when bitCount is positive and available |
| HuffmanCodec.BudgetBelow | src/Huffman.java:442 | below the available digits, the `count >= bitCount` test is the test against that budget |
| HuffmanCodec.Advance | src/Huffman.java:444-452 | one bit of the extractor is one decoding step on the digit that bit stands for |
| HuffmanCodec.ExtractStep | src/Huffman.java:440-453 | reading bit j of a byte is reading the next digit of the unpacked stream |
| HuffmanCodec.ExtractByte | src/Huffman.java:440-454 | the inner loop walks the tree over this byte's digits until the budget is spent |
| HuffmanCodec.ExtractText | src/Huffman.java:433-455 | the output is what the tree walk emits over the first min(bitCount, 7·bytes) digits read back from the bytes |
| HuffmanCodec.ExtractCompress | src/Huffman.java:369-460 | for a codebook of the text, walking the tree over the first min(bitCount, 7·bytes) digits unpacked from the packed codeword gives the text back |
| HuffmanCodec.EncodeDecode | src/Huffman.java:285-346 | the encoder writes exactly the codeword of the text under the codebook's table, the decoder emits what the tree walk emits over it, and that is the text |
| HuffmanCodec.CompressExtract | src/Huffman.java:369-460 | bitCount is the codeword's length, the bytes are the packed codeword (ceil(bitCount/7) of them, each below 128), and the extractor emits the tree walk over the budgeted unpacked digits, which is the text |
| HuffmanCodec.EncodeSession | src/Huffman.java:128-147 | it fails exactly when initialization does, with the same error. On success it returns the codebook built for the text, the digits are exactly the codeword of the text under that codebook's table, and the decoded text is the tree walk over those digits, which equals the text |
| HuffmanCodec.CompressSession | src/Huffman.java:180-199 | it fails exactly when initialization does, with the same error. On success it returns the codebook built for the text; bitCount is the codeword's length, the bytes are the packed codeword (ceil(bitCount/7) of them, each below 128), and the extracted text is the tree walk over the first min(bitCount, 7·bytes) unpacked digits, which equals the text |

## Left out

- File and console I/O are not modelled: reading the input file, `FileWriter`,
  default output names, `println` and the constructors' blank-name checks. Text
  comes in as a `string` and results are returned as sequences.
  - Each session decodes or extracts from the sequence the encoder produced. The
    source instead writes that sequence to a file and reads it back.
  - The charset effects of `FileWriter.write(int)` and `Files.readString` are not
    modelled. Every packed byte is below 128, so it survives any ASCII-compatible
    charset unchanged.
- `PQIterator` (`src/MinPQ.java:168-189`) is not modelled; the codec never uses it.
- The stubs that only throw `UnsupportedOperationException` are not modelled:
  `outEncodedText`, `outDecodedText`, `outCompressedText` and `outExtractedText`.
  The empty `initializeDecodeExtract` and the public `decode()` and `extract()`
  built on them are left out for the same reason.
- 32-bit `int` arithmetic is not modelled; weights, counts, `bitCount` and
  `2 * pq.length` are unbounded integers. `compareTo`'s subtraction cannot
  overflow for weights bounded by a text's length.
- HuffmanBuild.CreateHuffmanTree: each round's choice is stated by
  `CombineLightest`: a least-weight tree, then a least-weight tree of the rest.
  When several trees share the least weight, the model does not fix which one
  `delMin` returns. So it does not fix the exact tree shape either.
- Huffman optimality of the total code length is not proved. Nothing in the code
  claims it.
- The `'\0'` character stored in internal nodes is never read and is not modelled.
  `isLeaf()` is the `Leaf` constructor.
- Java `assert` statements are not checked at run time. The ones on the text and
  the root (`src/Huffman.java:93`, `133`, `185`) become the errors of
  `Initialize`. The round-trip asserts (`346`, `460`) become the postconditions
  of the two sessions.
- HuffmanCodec.DecodeText: input that stops in the middle of a path is not
  reported as an error. The Java code drops those digits too.

## Findings

| source | as written | input that shows it | evidently intended | confidence | as-written member | corrected member |
|---|---|---|---|---|---|---|
| src/Huffman.java:262-273 | a text with a single distinct character builds a single-leaf root whose code is empty; with assertions off, `encode()` writes no digits and decoding gives back the empty text, so the round trip at line 346 fails | "aa" (and "a") encode to the same empty digit string | such a text is rejected, as the asserted `!root.isLeaf()` at lines 133 and 185 demands | high, not executed | HuffmanCodec.SingleLeafLosesText | HuffmanCodec.EncodeSession |
