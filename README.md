# Huffman coding of text files

A Dafny model of `huffman.py`, a program that compresses a text file with a
Huffman code and decompresses it again.

Compression (`HuffmanCoding.compress`) takes these steps:

- count the characters of the text with `collections.Counter`;
- push one `HuffNode` leaf per character onto a `heapq` min-heap ordered by frequency;
- merge the two cheapest nodes until one root is left;
- walk the tree depth first, left edge `0` and right edge `1`, to fill the dictionaries `codes` (character to code) and `reverseCodes` (code to character);
- concatenate the codes of the text;
- append `p` zero bits, with `p = 8 - len % 8` (so `p` is in 1..8), and put `p` as an eight-digit binary numeral in front;
- pack each eight-character chunk with `int(chunk, 2)` into the payload bytes;
- write the codebook file, one line `code, symbol` per entry of `reverseCodes`.

Decompression (`HuffmanCoding.decompress`) takes these steps:

- unpack each byte with `bin(b)[2:].rjust(8, '0')`;
- drop the header and the `p` trailing bits (`text[8:-p]`);
- read the codebook back with `{rows[0]: rows[1][1:] for rows in reader}`;
- decode greedily: extend a candidate one bit at a time, and whenever the candidate is a key, emit its symbol and reset it.

The model has eight modules:

- `Wrappers` holds `Option`.
- `Collections` has duplicate-free sequences, key enumerations, and `Assign`, which is a sequence of dictionary writes applied in order.
- `Bits` holds bit strings. It has models of `int(s, 2)`, `bin(n)[2:]`, `str.rjust` and `"{0:08b}".format`, and how they relate.
- `Frequency` holds the frequency dictionary.
- `HuffTree` has three parts:
  - the `HuffNode` tree as a datatype, with its root-to-leaf paths (`Walk`, `LeafAt`);
  - the depth-first code entries and the two tables built from them;
  - the heap as a forest of nodes.
- `BitStream` has encoding, padding, removing the padding, packing and unpacking.
- `Decoding` has the greedy decoder.
- `Codebook` has the codebook text and its parsing.

The `Huffman` module holds `class HuffmanCoding`. Its fields are `heap`, `codes` and `reverseCodes`, and its methods update them in place as the Python methods do. Each loop of the source is a `while` loop. Seven of them are proved against the function that specifies them: the loops of `__buildHeap` (`LeafNodes`), `__getEncodedText` (`Encode`), `__getPaddedEncodedText` (`Pad`), `__getBytesArray` (`Pack`), the codebook loop of `compress` (`CodebookText`), the byte loop of `decompress` (`Unpack`) and `__decodeText` (`Decode`). The recursion `__buildCodesHelper` is a recursive method proved against the dictionary writes of `CodeEntries` (`Assign`). The merge loop of `__buildTree` instead carries invariants: the total frequency, the multiset of leaves, and a ghost trace of the heaps it passes through, each obtained from the previous one by one greedy merge.

Some conventions of the model:

- A `heapq.heappop` chooses *some* node of least frequency. Which node `heapq` returns among equal frequencies depends on its sift order, and the model leaves that open.
- Iterating over a dictionary visits its keys in insertion order. For the frequency `Counter` that is the order in which characters first occur in the text. For `reverseCodes` it is the depth-first order in which `__buildCodesHelper` writes the codes (`HuffTree.CodeEntries`). The model does not fix the order: it exposes it as a ghost result, and every property holds for every order that enumerates the keys once. The insertion order is one such order.

Where the program raises, the model returns `None`. This covers:

- a `KeyError` in `__getEncodedText`;
- `int('', 2)` on an empty payload in `__removePadding`;
- a codebook row without a comma, where `rows[1]` does not exist.

The main results:

- `Huffman.CompressThenDecompress` is the program's own sequence: a new instance compresses, and the result is decompressed. For a text with at least two distinct characters and no comma or line break, decompression gives the text back. The codebook line format cannot carry those two characters. A comma symbol splits its line, so it reads back as `""`. A line-break symbol ends its line early, and the empty row that follows raises at `rows[0]`. For a text with a single distinct character it gives the empty text.
- `Huffman.RoundTrip` states the same for any code tree of the text and any iteration order of the codebook. A code tree here is any tree with one leaf per distinct character, carrying its count (`Huffman.CodeTreeOf`), so the round trip does not depend on the greedy choice. The tree that compression builds is also shown to come from greedy merges of two least nodes (`HuffTree.GreedyRun`). It is built from lemmas that each come from one stage:
  - the codes are prefix-free and inverse to the reverse codes (`HuffTree`);
  - decoding undoes encoding (`Decoding.DecodeEncode`);
  - removing the padding undoes padding (`BitStream.PadRoundTrip`);
  - unpacking undoes packing (`BitStream.UnpackPack`);
  - the codebook parses back to the reverse table (`Codebook.CodebookRoundTrip`).

The code behaves differently from what a reader of its design might expect in a few places. The model follows the code in each:

- **A lone distinct character gets the empty code.** When the tree is a single leaf, `__buildCodesHelper` records `""` as its code. The encoded text is then empty, and decompression produces `""` instead of the original text (`Huffman.LoneSymbol`, `HuffTree.LoneLeafCode`). The round trip therefore needs two distinct characters (`Huffman.DistinctIffInternal`).
- **The empty text is not an error.** A new instance compresses it to the two bytes `8, 0` and an empty codebook. Decompressing those gives `""`.
- **Ties are broken by the heap's internal order**, not by a stated rule. The model allows any least node, so every result holds whatever the tie-break.
- **Decoding never fails.** An unmatched candidate left at the end is dropped silently (`Decoding.UnmatchedTailDropped`). A padding header of `0`, or one larger than the text, gives `""` instead of an error (`BitStream.RemovePadding`, `BitStream.ZeroHeaderGivesEmpty`).
- **The codebook keeps short codes intact.** `rows[1][1:]` drops only the space that the writer puts after the comma, so single-bit codes survive (`Codebook.CodebookRoundTrip`).

## Model

| member | source | states |
|---|---|---|
| Huffman.HuffmanCoding.constructor | huffman.py:24-28 | a new instance has an empty heap and empty `codes` and `reverseCodes` |
| Frequency.FrequencyDict | huffman.py:30-32 | the keys are exactly the characters of the text, and each maps to its number of occurrences (at least 1) |
| Frequency.FrequencySum | huffman.py:30-32 | for every order of the keys, the counts add up to `len(text)` |
| Huffman.HuffmanCoding.HeapPush | huffman.py:37 | `heappush`: the heap gains the node; the code dictionaries are unchanged |
| Huffman.HuffmanCoding.HeapPop | huffman.py:41-42 | `heappop` on a non-empty heap removes a node of least frequency; the removed node's frequency and leaves are exactly what the heap loses |
| HuffTree.MinimumExists | huffman.py:15-16 | `__lt__` compares frequencies, and every non-empty heap has a node no other node is less than |
| Huffman.HuffmanCoding.BuildHeap | huffman.py:34-37 | one leaf `(char, freq_dict[char])` per key, in the dictionary's iteration order, is appended to the heap; the order enumerates every key once |
| Huffman.HuffmanCoding.MergeSmallest | huffman.py:41-46 | one iteration of the merge loop: it pops a least node at some index `i`, then a least node of what remains at some index `j`, and the new heap is the remaining nodes followed by their merge (`HuffTree.MergeAt`); the total frequency and the multiset of leaves are unchanged |
| HuffTree.Remove | huffman.py:41-42 | the heap without the node at index `i`: one shorter, with the nodes before `i` in place and those after it shifted down by one |
| HuffTree.MergeAtCheapest | huffman.py:41-46 | the two nodes a greedy merge picks have the least frequency sum of any two distinct nodes of the heap |
| HuffTree.GreedyRunSnoc | huffman.py:40-46 | a trace of greedy merges extended by one more greedy merge of its last heap is again a trace of greedy merges |
| HuffTree.MergeConserves | huffman.py:41-46 | two pops followed by pushing their merge leave the heap's total frequency and multiset of leaves as before |
| HuffTree.MergeStep | huffman.py:43-46 | the merged node's frequency and leaves are those of its two children together |
| Huffman.HuffmanCoding.BuildTree | huffman.py:39-46 | a ghost trace of heaps from the old heap to the new one, each step one greedy merge of two least nodes (`HuffTree.GreedyRun`); a non-empty heap ends with exactly one node and an empty heap stays empty; the total frequency and the multiset of leaves are preserved |
| HuffTree.FreqIsLeafSum | huffman.py:43 | the frequency of every node built by the merge loop is the sum of its leaves' frequencies |
| Huffman.HuffmanCoding.BuildCodesHelper | huffman.py:48-56 | both dictionaries receive the depth-first, left-before-right writes of every leaf's symbol and path, prefixed by `curr_bits` |
| Huffman.HuffmanCoding.BuildCodes | huffman.py:58-60 | an empty heap leaves everything unchanged; otherwise a least node is popped and both dictionaries are filled from it with the empty prefix |
| HuffTree.EntriesWalk | huffman.py:48-56 | every recorded path extends the prefix, and the rest of it leads from the node to the recorded leaf |
| HuffTree.EntriesComplete | huffman.py:48-56 | every root-to-leaf path of the node is recorded |
| HuffTree.UniquePath | huffman.py:51-56 | in a tree with distinct symbols, two paths to the same symbol are equal |
| HuffTree.EntriesFunctional | huffman.py:52-53 | no symbol and no path is written twice with different values, so the order of the writes does not matter |
| HuffTree.CodeTablePaths | huffman.py:52 | `codes` has exactly the tree's symbols as keys, and each code is the path to that symbol's leaf |
| HuffTree.ReverseTablePaths | huffman.py:53 | `reverseCodes` has exactly the root-to-leaf paths as keys, each mapped to the leaf at its end |
| HuffTree.TablesInverse | huffman.py:52-53 | `codes` and `reverseCodes` are mutual inverses, in both directions |
| HuffTree.ReverseTablePrefixFree | huffman.py:55-56 | no key of `reverseCodes` is a proper prefix of another |
| HuffTree.InternalRootCodesNonEmpty | huffman.py:55-56 | under an internal root every code is non-empty |
| HuffTree.LoneLeafCode | huffman.py:51-54 | a root that is a leaf gets the empty code in both tables |
| HuffTree.WalkBits | huffman.py:55-56 | every path is made of `0` and `1` |
| Huffman.HuffmanCoding.GetEncodedText | huffman.py:62-66 | the concatenated codes of the text's characters in order, a bit string; `None` exactly when some character has no code |
| BitStream.EncodeAppend | huffman.py:64-65 | encoding a concatenation concatenates the encodings |
| BitStream.EncodedLength | huffman.py:62-66 | the encoded length is the sum, over the distinct characters, of count times code length |
| Huffman.HuffmanCoding.GetPaddedEncodedText | huffman.py:68-76 | the result is the padding function of the encoded text |
| BitStream.PadFromParts | huffman.py:72-75 | the header `"{0:08b}".format(p)` in front of the text and its `p` zeros is the padded text |
| BitStream.PadShape | huffman.py:68-76 | the padding amount `p` is in 1..8; the result is the eight-bit numeral of `p`, the text, then `p` zeros; its length is a multiple of 8 |
| BitStream.PadAmount | huffman.py:70 | `p` is in 1..8 and makes the length a multiple of 8 |
| Bits.Format08bIsToBits | huffman.py:74 | `"{0:08b}".format(n)`, like `bin(n)[2:].rjust(8, '0')`, is the eight-digit numeral of a byte value |
| Bits.ValueOfToBits | huffman.py:117 | `int(·, 2)` reads back the value of a fixed-width numeral |
| Bits.ToBitsOfValue | huffman.py:83 | a chunk of binary digits is the numeral of `int(chunk, 2)` in its own width |
| Huffman.HuffmanCoding.GetBytesArray | huffman.py:78-84 | the bytes are `int(chunk, 2)` of the consecutive eight-character chunks |
| BitStream.PackLength | huffman.py:78-84 | one byte per started eight characters |
| BitStream.PackChunk | huffman.py:81-83 | each chunk is a byte value below 256 and the next element of the packing |
| Huffman.HuffmanCoding.BuildCodeTables | huffman.py:93-98 | the heap ends empty; from an empty heap: no root exactly for the empty text; otherwise the root is reached from one leaf per distinct character, in the frequency dictionary's order, by greedy merges of two least nodes (`Huffman.GreedyBuild`), and its leaves carry the counts; `codes` and `reverseCodes` are the old dictionaries with the root's depth-first writes applied, and `codes` covers the text; on a new instance they are exactly the root's tables |
| Huffman.AssignedCodesCover | huffman.py:48-56 | writing the text's tree's codes into any dictionary gives one with a code for every character of the text |
| Huffman.BuiltTree | huffman.py:93-98 | what the heap and tree stages leave yields a tree whose root frequency is `len(text)`, with one leaf per distinct character carrying its count |
| Huffman.LeafPairsOfText | huffman.py:34-37 | the heap's leaves are exactly the characters of the text paired with their counts |
| Huffman.CompressedCodes | huffman.py:62-65 | the code table of the text's tree has a code for every character of the text, so no `KeyError` |
| Huffman.HuffmanCoding.WriteCodebook | huffman.py:106-109 | one `code, symbol` line per key of the reverse table, in an order that enumerates every key once |
| Codebook.CodebookTextSnoc | huffman.py:108-109 | each loop iteration appends exactly one line to the codebook |
| Codebook.ParseRow | huffman.py:149 | a row raises exactly when its line has no comma; otherwise its key is the text before the first comma |
| Codebook.ParseCodebook | huffman.py:147-149 | reading the codebook raises exactly when one of its lines has no comma |
| Codebook.ParseLine | huffman.py:149 | a written line parses to its code and its one-character symbol |
| Codebook.CodebookRoundTrip | huffman.py:147-149 | reading the codebook back gives the reverse table, with symbols as strings, for every writing order |
| Huffman.HuffmanCoding.Compress | huffman.py:86-110 | the heap ends empty; from an empty heap, the tree is greedily built from the text (`Huffman.GreedyBuild`), the dictionaries are the old ones with its depth-first writes applied, and no character lacks a code; the payload is the packed, padded encoding of the text under `codes`, and the codebook lists `reverseCodes`; `None` exactly when a character has no code; on a new instance the dictionaries are exactly the tree's tables |
| Huffman.HuffmanCoding.UnpackBits | huffman.py:138-144 | the concatenated eight-digit numerals of the bytes |
| BitStream.UnpackShape | huffman.py:140-144 | unpacking gives a bit string of eight digits per byte |
| BitStream.UnpackPack | huffman.py:78-84 | unpacking the packing of a whole number of bytes' worth of bits gives the bits back |
| BitStream.PackUnpack | huffman.py:140-144 | packing the unpacked bits of any bytes gives the bytes back |
| BitStream.RemovePadding | huffman.py:114-120 | `None` exactly for the empty text (where `int('', 2)` raises); otherwise a prefix of the text after the header |
| BitStream.PadRoundTrip | huffman.py:114-120 | removing the padding from a padded bit string gives that bit string back |
| Huffman.HuffmanCoding.DecodeText | huffman.py:122-131 | the greedy decoding of the bits with the parsed table |
| Decoding.DecodeKey | huffman.py:126-130 | once a key is complete, with no shorter prefix of it a key, its value is emitted and the candidate restarts |
| Decoding.DecodeEncode | huffman.py:122-131 | decoding with a prefix-free table of non-empty codes that inverts the encoder gives the original text, followed by whatever the rest decodes to |
| Decoding.UnmatchedTailDropped | huffman.py:126-131 | a candidate that no remaining bits complete into a key is dropped without error |
| Decoding.DecodeEncodeTrailing | huffman.py:122-131 | an encoding followed by bits that never complete a key decodes to the original text |
| Huffman.HuffmanCoding.Decompress | huffman.py:133-153 | the decompression result; `None` exactly when the payload is empty or a codebook row has no comma |
| Huffman.DecompressPacked | huffman.py:138-151 | decompressing the packed, padded form of a bit string decodes that bit string with the codebook's table |
| Huffman.DecodeTreeEncoding | huffman.py:122-131 | with an internal root, the reverse table as read back decodes the tree's encoding of the text to the text |
| Huffman.RoundTrip | huffman.py:86-153 | with two distinct characters, decompressing what compression writes gives the text back, for any tree the heap may build and any codebook order |
| Huffman.LoneSymbol | huffman.py:51-54 | with one distinct character the encoding is empty and decompression gives `""` |
| Huffman.DistinctIffInternal | huffman.py:39-46 | the text's tree has an internal root exactly when the text has two distinct characters |
| Huffman.NoSymbolsIffEmpty | huffman.py:34-35 | the frequency dictionary has no key to iterate over exactly when the text is empty |
| Huffman.CompressThenDecompress | huffman.py:156-164 | a new instance's compression, decompressed, gives the text when it has two distinct characters and `""` otherwise |

## Left out

- File and console I/O (`open`, `input`, `print`, `os.path.splitext`, the output paths and the fixed name `decoded.csv`): the model takes the text, the payload bytes and the codebook text as parameters and returns them as results.
- `str.rstrip` at line 91: Python's set of whitespace characters is not modelled. `Compress` takes the already stripped text.
- `Huffman.HuffmanCoding.Compress` and `Huffman.HuffmanCoding.BuildCodeTables`: the round trip is stated for a new instance only. A reused instance starts from the empty heap an earlier call leaves, and both contracts state its dictionaries as the old ones with the new tree's writes applied. Those keep the stale entries of earlier calls, since `__buildCodesHelper` only adds and overwrites, and the codebook lists them too. The program never reuses an instance.
- The csv reader's quoting and line-ending rules: only the line shape the writer produces is parsed, with every character of a field taken literally. A symbol follows the space after the comma, so the reader keeps a quote there literally, and the model carries it. Codes are excluded from containing a quote only because quoting is not modelled; they are bit strings anyway. A text containing a comma or a line break is outside the line shape, and the round-trip lemmas require its absence (`PlainText`). The program cannot read such a codebook back correctly either. Before Python 3.11 the csv reader also rejected a line holding a NUL character (`_csv.Error`). The model follows later versions and carries a NUL symbol, so for such a text on an older Python `RoundTrip` and `CompressThenDecompress` promise a result the program does not give.
- The internal order of `heapq` (its sift-up and sift-down): a pop chooses any node of least frequency. The model proves every result for all such choices, not for the one `heapq` makes.
- The insertion order of Python dictionaries: the model leaves it as a ghost result that enumerates the keys, and proves every result for all such orders. The same applies per key to the codebook loop.
- The `root is None` branch of `__buildCodesHelper` (line 49): it is reachable only from `__buildCodes` on an empty heap, and `BuildCodes` handles that case directly.
- The `path` field (set by the constructor, line 25) and the `HuffNode.__eq__` method: neither is used by the algorithm.
- Encoding of the text file and of the bytes written: characters are Dafny `char` values, and the payload is a sequence of byte values.
- `Huffman.HuffmanCoding.GetBytesArray`: it requires a bit string, because `int(chunk, 2)` raises on any other character. The requirement always holds, because every code in the dictionaries is a bit string (part of `Valid`).
