# Huffman coding and N-Queens, modelled in Dafny

This project models the two algorithmic parts of a browser quiz platform's
front end:

- **The Huffman coding engine** of `frontend/src/utils/huffman.js`. Its steps:
  - count the symbols of a text into a `Map`;
  - build the tree by repeatedly merging the two lightest nodes of a queue
    that is kept sorted by weight with a stable sort;
  - walk the tree to give each leaf its path as its code (left `'0'`,
    right `'1'`);
  - encode a text by concatenating codes;
  - decode bits by walking the tree, starting over at the root after every
    symbol.
- **The compression panel** of `frontend/src/components/Compression.jsx` that
  drives that engine.
- **The backtracking N-Queens solver** of
  `frontend/src/components/NQueensVisualizer.jsx`.

Modules, one per file:

| file | module | what it holds |
|---|---|---|
| `sequences.dfy` | `Sequences` | facts about sequences shared by the other modules |
| `wrappers.dfy` | `Wrappers` | the optional value that stands for `undefined` |
| `ordered_maps.dfy` | `OrderedMaps` | a JavaScript `Map` as a value: its keys in insertion order plus a Dafny `map` |
| `huffman_trees.dfy` | `HuffmanTrees` | the tree, its leaves and the path to a symbol |
| `frequency_tables.dfy` | `FrequencyTables` | `buildFrequencyTable` and `getCharacterFrequency` |
| `priority_queue.dfy` | `PriorityQueues` | the array sort with comparator `a.freq - b.freq` |
| `tree_builder.dfy` | `TreeBuilder` | `buildHuffmanTree` |
| `code_maps.dfy` | `CodeMaps` | `buildHuffmanCodeMap` |
| `codec.dfy` | `Codec` | `encodeText` and `decodeText` |
| `single_symbol.dfy` | `SingleSymbol` | the one-symbol defect, and the corrected code and decoder |
| `js_strings.dfy` | `JsStrings` | `String.prototype.trim`, used by the panel's guards |
| `compression.dfy` | `Compression` | the panel's handlers, as a class over the component's state |
| `nqueens.dfy` | `NQueens` | `isSafe`, `solve`, `createBoard`, `startVisualizer` |

How the source's constructs are modelled:

- **Loops become methods.** The loops of `buildFrequencyTable`,
  `buildHuffmanTree`, `decodeText` and `isSafe` are methods with loop
  invariants. Each is proved against a function or predicate that says what
  it computes:
  - `BuildFrequencyTable` against `IsFrequencyTableOf`;
  - `BuildHuffmanTree` against `MergeAll`, the queue its rounds end with;
  - `DecodeText` against the tree walk `Walk`;
  - `IsSafe` against `Safe`.
- **`solve` works in place.** It fills an `array<int>` and resets a row to
  -1 when it backtracks. The model proves that it finds exactly what the
  reference search `Search` finds: the lexicographically first solution.
- **Sorting.** `Array.prototype.sort` is stable, and the model's sort is a
  stable insertion sort (`SortByFreq`). It is proved to sort, to keep the
  same elements, and to keep the nodes of equal weight in their order.
- **The component's state.** The compression component's hook state becomes
  the fields of the class `CompressionPanel`, and each handler is a method
  that updates them.

Four behaviours of the code that a reader might not expect are modelled as
written:

- **Missing symbols.** The encoder drops a symbol that has no code, with no
  error (`EncodeTextDropsMissing`).
- **Trailing bits.** The decoder drops trailing bits that stop inside a
  code, with no error (`TrailingBitsAreDropped`).
- **Bit values.** The decoder descends right on any character other than
  `'0'`, not only on `'1'` (`AnyOtherBitGoesRight`).
- **A single symbol.** A text with one distinct symbol gets the empty code,
  so it cannot be restored. That defect is modelled as written, and the
  corrected version is modelled beside it (see Findings).

## Model

| member | source | states |
|---|---|---|
| OrderedMaps.OrdMap.Set | frontend/src/utils/huffman.js:6 | `map.set`: the key now maps to the value, every other key keeps its value, and a new key is appended to the key order |
| OrderedMaps.EmptyMap | frontend/src/utils/huffman.js:4 | `new Map()` has no keys |
| OrderedMaps.OrdMap.Get | frontend/src/utils/huffman.js:6 | `map.get`: a value exactly for the keys the map lists, `undefined` (`None`) for any other |
| OrderedMaps.GetKeyValuePairs | frontend/src/utils/huffman.js:72-74 | one `{ key, value }` per entry, in the map's key order, each key exactly once, every key present |
| FrequencyTables.Distinct | frontend/src/utils/huffman.js:5-7 | the keys the counting loop inserts: each symbol of the text once, nothing else |
| FrequencyTables.BuildFrequencyTable | frontend/src/utils/huffman.js:3-9 | the table's keys are the distinct symbols in order of first occurrence, each mapped to its number of occurrences (so every count is positive) |
| FrequencyTables.GetCharacterFrequency | frontend/src/utils/huffman.js:77-79 | the stored count, or 0 for an absent symbol |
| FrequencyTables.CharacterFrequencyIsCount | frontend/src/utils/huffman.js:77-79 | on a table built from a text, the frequency of any symbol is its number of occurrences in the text, 0 when absent |
| FrequencyTables.CountsAddUpToLength | frontend/src/utils/huffman.js:5-7 | the counts of the distinct symbols add up to the text's length |
| FrequencyTables.TableOf | frontend/src/utils/huffman.js:3-9 | the table of a text built at once is a frequency table of that text, as `buildFrequencyTable` returns |
| FrequencyTables.FrequencyTableIsUnique | frontend/src/utils/huffman.js:3-9 | a text has one frequency table: the key order and the counts are both fixed by the text |
| FrequencyTables.FrequenciesAddUpToLength | frontend/src/utils/huffman.js:3-9 | the frequencies of a table built from a text add up to its length |
| PriorityQueues.SortByFreq | frontend/src/utils/huffman.js:17 | the sort keeps the length and the elements, and leaves the queue in ascending order of weight |
| PriorityQueues.InsertByFreqPermutes | frontend/src/utils/huffman.js:31 | inserting adds exactly the inserted node |
| PriorityQueues.InsertKeepsSorted | frontend/src/utils/huffman.js:31 | inserting into a sorted queue keeps it sorted |
| PriorityQueues.SortByFreqIsStable | frontend/src/utils/huffman.js:17 | the sort keeps the nodes of every weight in their original order |
| PriorityQueues.InsertByFreqIsStable | frontend/src/utils/huffman.js:31 | an inserted node lands after every node of its own weight |
| PriorityQueues.SortAfterPushIsInsert | frontend/src/utils/huffman.js:28-31 | sorting a sorted queue after a `push` equals inserting the pushed node |
| PriorityQueues.SortingSortedIsIdentity | frontend/src/utils/huffman.js:31 | sorting a sorted queue changes nothing |
| PriorityQueues.InsertByFreqPosition | frontend/src/utils/huffman.js:28-31 | the inserted node is preceded by exactly the nodes no heavier than it and followed by the heavier ones |
| TreeBuilder.LeafQueue | frontend/src/utils/huffman.js:14 | one leaf `{ char, freq }` per entry, in entry order |
| TreeBuilder.LeafQueueForest | frontend/src/utils/huffman.js:14 | the first queue weighs the sum of the table's frequencies and is its own list of leaves |
| TreeBuilder.InitialForest | frontend/src/utils/huffman.js:14-17 | the first sorted queue has one node per key, weighs the table's total, holds the table's leaves and is well weighted |
| TreeBuilder.PushParent | frontend/src/utils/huffman.js:21-28 | shifting two nodes and pushing one shrinks the queue by exactly one |
| TreeBuilder.PushParentKeepsForest | frontend/src/utils/huffman.js:21-28 | the pushed parent carries the weight and the leaves of the two nodes it replaces |
| TreeBuilder.MergeStep | frontend/src/utils/huffman.js:21-31 | the two shifted nodes are the two lightest, the first becoming the left child; after the re-sort the parent stands after every node of weight up to its own and before every heavier one |
| TreeBuilder.MergeKeepsForest | frontend/src/utils/huffman.js:19-32 | one round keeps the total weight and the leaves, shrinks the queue by one, and keeps every node well weighted |
| TreeBuilder.MergeLightestTwo | frontend/src/utils/huffman.js:21-31 | the `shift`, `shift`, `push`, `sort` of one round give the sorted queue after the parent replaces the two lightest nodes |
| TreeBuilder.MergeAll | frontend/src/utils/huffman.js:19-32 | the queue the rounds end with: one node for a non-empty queue, none for an empty one |
| TreeBuilder.MergeRound | frontend/src/utils/huffman.js:21-31 | on a sorted queue, one round as the loop performs it (stable re-sort after the `push`) leads to the same final queue |
| TreeBuilder.MergeKeepsLoopInvariant | frontend/src/utils/huffman.js:19-32 | one round keeps the queue sorted and well weighted, keeps its weight, leaves and final queue, and removes one node |
| TreeBuilder.ThreeEqualWeights | frontend/src/utils/huffman.js:14-35 | for three keys of equal weight (a:1, b:1, c:1) the loop ends with the root `Node(3, c, Node(2, a, b))`: the first two keys merge, and their parent is pushed after the third |
| TreeBuilder.MergeThreeEqual | frontend/src/utils/huffman.js:21-31 | three nodes of equal weight: the first two merge into the right child of the root, the third is its left child |
| TreeBuilder.BuildHuffmanTree | frontend/src/utils/huffman.js:12-36 | the root is exactly the one node `MergeAll` leaves of the sorted first queue, so the tree is fixed by the table and its key order. There is no root (`undefined`) exactly for an empty table. Every internal node weighs its two children together, the root weighs the table's total, and the leaves are exactly the table's entries |
| TreeBuilder.LeavesOfNode | frontend/src/utils/huffman.js:25 | every internal node has two children, so at least two leaves |
| TreeBuilder.BuiltTreeSymbolSet | frontend/src/utils/huffman.js:14-35 | the tree's symbols are exactly the table's keys |
| TreeBuilder.BuiltTreeNoDup | frontend/src/utils/huffman.js:14-35 | each symbol labels exactly one leaf |
| TreeBuilder.BuiltTreeSymbols | frontend/src/utils/huffman.js:14-35 | each key on exactly one leaf, and the root is a bare leaf exactly when the table has one entry |
| HuffmanTrees.PathTo | frontend/src/utils/huffman.js:39-47 | the path to a symbol is made of `'0'` and `'1'`, and is empty exactly when the tree is a bare leaf |
| HuffmanTrees.PathLeadsToLeaf | frontend/src/utils/huffman.js:39-47 | following a symbol's path from the root ends at that symbol's leaf |
| HuffmanTrees.PathsArePrefixFree | frontend/src/utils/huffman.js:39-47 | no symbol's path is a prefix of another symbol's path |
| CodeMaps.BuildHuffmanCodeMap | frontend/src/utils/huffman.js:39-47 | every leaf symbol is recorded with the prefix followed by its path, entries of other symbols are untouched, and with distinct symbols the keys are added leaf by leaf from left to right |
| Codec.CodeOf | frontend/src/utils/huffman.js:53-54 | the code of a symbol, or `''` when the map has none (`undefined` joined) |
| Codec.Codes | frontend/src/utils/huffman.js:51-53 | one code per symbol of the text, in text order |
| Codec.EncodeText | frontend/src/utils/huffman.js:50-55 | `encodeText`: the encoding is as long as the codes of the text's symbols together |
| Codec.EncodeTextAppend | frontend/src/utils/huffman.js:50-55 | encoding a concatenation is concatenating the encodings |
| Codec.EncodeTextIsBits | frontend/src/utils/huffman.js:50-55 | codes made of bits give an encoding made of bits |
| Codec.EncodeTextDropsMissing | frontend/src/utils/huffman.js:53-54 | a symbol with no code vanishes from the encoding |
| Codec.DecodeText | frontend/src/utils/huffman.js:58-69 | the loop computes the tree walk; the empty bit string decodes to `''`; it fails (the `null` child of a leaf) exactly when the tree is a bare leaf and there are bits |
| Codec.WalkFromNodeSucceeds | frontend/src/utils/huffman.js:61-67 | with an internal root, decoding never fails |
| Codec.DecodeFailsExactlyAtLeafRoot | frontend/src/utils/huffman.js:62-63 | the walk fails exactly for a bare-leaf root and at least one bit |
| Codec.Normalize | frontend/src/utils/huffman.js:62 | the bit each character stands for: `'0'` for `'0'`, `'1'` for anything else |
| Codec.AnyOtherBitGoesRight | frontend/src/utils/huffman.js:62 | decoding treats every character other than `'0'` as `'1'` |
| Codec.PathThenRestart | frontend/src/utils/huffman.js:62-66 | a symbol's path emits that symbol and sends the walk back to the root |
| Codec.DecodeEncodeThenRest | frontend/src/utils/huffman.js:58-69 | decoding an encoding followed by more bits gives the text followed by what those bits decode to |
| Codec.DecodeEncode | frontend/src/utils/huffman.js:58-69 | round trip: with an internal root and codes that are the tree's paths, decoding the encoding of a text over the tree's symbols gives the text back |
| Codec.PartialPathIsDropped | frontend/src/utils/huffman.js:61-68 | bits that stop partway down a path emit nothing |
| Codec.TrailingBitsAreDropped | frontend/src/utils/huffman.js:61-68 | trailing bits that stop inside a code are silently dropped |
| SingleSymbol.EmptyCodesEncodeToNothing | frontend/src/utils/huffman.js:50-55 | a text whose symbols all have the empty code encodes to `''` |
| SingleSymbol.SingleSymbolRoundTripFails | frontend/src/utils/huffman.js:40-41 | as written: a bare-leaf tree's symbol gets `''`, so a non-empty text of it encodes to `''` and decodes to `''`, not to itself |
| SingleSymbol.FixedCode | frontend/src/utils/huffman.js:40-41 | corrected: every symbol's code has at least one bit |
| SingleSymbol.BuildFixedCodeMap | frontend/src/utils/huffman.js:39-47 | corrected: the map holds exactly the tree's symbols, each with its corrected code |
| SingleSymbol.OneBitCodesLength | frontend/src/utils/huffman.js:50-55 | one-bit codes give one bit per symbol |
| SingleSymbol.FixedRoundTrip | frontend/src/utils/huffman.js:58-69 | corrected: decoding restores every text over the tree's symbols, bare-leaf tree included |
| JsStrings.TrimStart | frontend/src/components/Compression.jsx:15 | drops exactly the leading white space |
| JsStrings.TrimEnd | frontend/src/components/Compression.jsx:15 | drops exactly the trailing white space |
| JsStrings.Trim | frontend/src/components/Compression.jsx:15 | `trim()`: neither end of the result is white space, and the result is empty (`!text.trim()`) exactly for a text made only of white space |
| Compression.Compress | frontend/src/components/Compression.jsx:14-35 | blank input is refused. Otherwise the tree is the one `buildHuffmanTree(buildFrequencyTable(inputText))` builds (`IsTreeOf`: the last node of the merge rounds on the text's table), so it is fixed by the text. It is well weighted, weighs the text's length, and holds each symbol of the text once. It is a bare leaf exactly for one distinct symbol. The output is the concatenation of the tree paths of the text's symbols, in text order, which is `encodeText` with the code map read off the tree. Those bits decode back to the text, except for a bare leaf, which gets no bits |
| Compression.TreeOfTextIsUnique | frontend/src/components/Compression.jsx:23-24 | a text has exactly one tree: two trees that are both built from its table are equal |
| Compression.TreeOfAB | frontend/src/components/Compression.jsx:23-27 | for `"ab"` the tree is `Node(2, a, b)`, with `a` on the left because it is shifted first, and the output box gets `"01"` |
| Compression.TableOfAB | frontend/src/utils/huffman.js:3-9 | the table of `"ab"` lists `a` then `b`, each with count 1 |
| Compression.TreeOfText | frontend/src/components/Compression.jsx:23-24 | the tree built from a text's table weighs its length and holds its symbols once each |
| Compression.CodesOfTree | frontend/src/components/Compression.jsx:25-26 | encoding with the codes read off the root gives the tree paths of the text's symbols, concatenated. Those bits decode back to the text, or are empty for a bare leaf |
| Compression.RoundTripFixed | frontend/src/components/Compression.jsx:23-26 | corrected pipeline: every non-blank text comes back |
| Compression.FixedCodesOfTree | frontend/src/components/Compression.jsx:23-26 | the corrected codes of a text's own tree restore the text |
| Compression.Decompress | frontend/src/components/Compression.jsx:37-57 | blank bits and a missing tree are refused before decoding; decoding fails exactly for a bare-leaf tree; otherwise the result is the tree walk of the bits |
| Compression.ShowKeyValuePairs | frontend/src/components/Compression.jsx:75-80 | one row per symbol of the tree, in code-map order, with its path and its count in the current input |
| Compression.RowsOfCodeMap | frontend/src/components/Compression.jsx:77-80 | the rows built from a code map's entries list its symbols once each with their codes and counts |
| Compression.RowOfEntry | frontend/src/components/Compression.jsx:77-80 | one row: a symbol of the tree, its path, its count |
| Compression.CompressionPanel.constructor | frontend/src/components/Compression.jsx:6-12 | the initial hook state: empty boxes, no tree, no error |
| Compression.CompressionPanel.HandleCompress | frontend/src/components/Compression.jsx:14-35 | blank input only sets the error. Otherwise the kept tree is the one the text's table builds (`IsTreeOf`), the output box gets the concatenated tree paths of the input's symbols, and the rest is as `Compress` states. The panel invariant is kept |
| Compression.CompressionPanel.HandleDecompress | frontend/src/components/Compression.jsx:37-57 | each guard sets its error. Decoding fills the input box or clears it on failure. On a panel the handlers built, only "no error" or "enter compressed text" can result |
| Compression.CompressionPanel.HandleShowKeyValuePairs | frontend/src/components/Compression.jsx:69-83 | no tree sets the error; otherwise the rows describe the kept tree's codes with the input's counts |
| Compression.CompressionPanel.CompressThenDecompress | frontend/src/components/Compression.jsx:14-57 | pressing Compress then Decompress restores a text with two or more distinct symbols; a text with one distinct symbol ends with the "enter compressed text" error |
| NQueens.IsSafe | frontend/src/components/NQueensVisualizer.jsx:42-53 | true exactly when no queen of rows 0 to `row - 1` shares the column or either diagonal |
| NQueens.CompletesCons | frontend/src/components/NQueensVisualizer.jsx:58-64 | a placement of the remaining rows is a safe queen in this row followed by a placement of the rows below |
| NQueens.SearchIsSound | frontend/src/components/NQueensVisualizer.jsx:55-73 | what the search finds fills every remaining row safely with columns in `[0, n)` |
| NQueens.SearchFindsFirst | frontend/src/components/NQueensVisualizer.jsx:55-73 | when any placement exists from the current column on, the search finds one, and the lexicographically first |
| NQueens.SearchFailsOnlyWithoutCompletion | frontend/src/components/NQueensVisualizer.jsx:58-72 | the search fails only when no placement of the remaining rows exists |
| NQueens.Solve | frontend/src/components/NQueensVisualizer.jsx:55-73 | rows above `row` untouched; returns true exactly when the search succeeds and then holds its placement; on failure every row below is as it was or -1 |
| NQueens.SolutionsAreCompletions | frontend/src/components/NQueensVisualizer.jsx:42-53 | placing every row safely is exactly a board with no two queens sharing a column or diagonal |
| NQueens.CreateBoard | frontend/src/components/NQueensVisualizer.jsx:21-26 | no board below size 4; otherwise a new board of `size` rows, all -1 |
| NQueens.StartVisualizer | frontend/src/components/NQueensVisualizer.jsx:75-88 | `n < 4` is refused; a solved board is a solution, and the lexicographically first; "unsolved" means no solution exists |

## Left out

- Text is one sequence of `char` for both the frequency count and the encoder. The source counts code points (`for…of`) but encodes UTF-16 code units (`split('')`). The two agree only on text without surrogate pairs, and the model assumes they agree.
- JavaScript numbers are modelled as unbounded integers. Counts, weights and board sizes never come near 2^53 here.
- OrderedMaps.OrdMap: a `Map` that the source mutates in place is modelled as a value. `buildHuffmanCodeMap` hands back the map it received, and the model threads it through the recursion in the same order. Aliasing is not modelled, because no caller keeps a second reference.
- The `if (node.left)` / `if (node.right)` guards of `buildHuffmanCodeMap` always hold. An internal node always has both children, so their false branches cannot be reached.
- The `TypeError` that `decodeText` throws on a bare-leaf tree is modelled as the value `Err(NullChild)`. The panel's `catch` is modelled by branching on that value.
- NQueens.CreateBoard takes an integer, so the `isNaN(size)` test has no counterpart. Storing the board in component state and resetting `finished` are not modelled.
- NQueens.IsSafe: requires `row <= board.Length`. `solve` never asks about a row past the board, and reading `undefined` past the end of a JavaScript array is not modelled.
- NQueens.Solve: `drawQueen` (DOM updates) and `await sleep(...)` (animation timing) are left out. The search is synchronous.
- NQueens.StartVisualizer: `alert`, `setRenderKey`, `setFinished` and the initial pause are left out. The result is returned as an `Outcome` instead.
- Compression.CompressionPanel: the `loading` flag, the clear-input and clear-output buttons, and rendering are left out. Clearing the output box keeps the panel invariant, because it only empties the box. Error texts are modelled as the values of `PanelError`.
- Huffman optimality (minimal weighted code length) is not claimed by the source and is not modelled.
- The N-Queens components' other state, the rest of the quiz application, its network calls and its back end are outside this model.

## Findings

| source | as written | input that shows it | evidently intended | confidence | as-written member | corrected member |
|---|---|---|---|---|---|---|
| frontend/src/utils/huffman.js:40-41 | a tree that is a bare leaf gives its only symbol the empty code `''`, and `decodeText` cannot descend from a leaf | compressing `"aaa"` yields `""`, which decodes to `""` (and the panel then refuses to decompress it) | the lone symbol gets the one-bit code `"0"`, and a bare-leaf tree decodes every bit to its symbol, so `"aaa"` ↔ `"000"` | high, not executed | SingleSymbol.SingleSymbolRoundTripFails | SingleSymbol.FixedRoundTrip |
