/**
 * The compression panel of `frontend/src/components/Compression.jsx`, as far
 * as it drives the Huffman engine: compress the input box into the output
 * box, decompress the output box back into the input box, and list the code
 * of every symbol with its frequency. The component's hook state becomes the
 * fields of `CompressionPanel`; each handler is a method that updates them.
 */
module Compression {
  import opened Sequences
  import opened Wrappers
  import opened OrderedMaps
  import opened HuffmanTrees
  import opened PriorityQueues
  import opened FrequencyTables
  import opened TreeBuilder
  import opened CodeMaps
  import opened Codec
  import opened SingleSymbol
  import opened JsStrings

  datatype CompressOutcome =
    | NothingToCompress
    | Compressed(encodedText: string, tree: Tree)

  /**
   * `tree` is what `buildHuffmanTree(buildFrequencyTable(text))` builds: the
   * one node the merge rounds leave of the sorted first queue of the text's
   * table. It is stated for every name `q` of that queue, so that a proof
   * unfolds the rounds only where it names them.
   */
  ghost predicate IsTreeOf(tree: Tree, text: string) {
    forall q :: q == SortByFreq(InitialQueue(TableOf(text))) ==> MergeAll(q) == [tree]
  }

  /** A text has one tree: its table is fixed by the text, and so are the rounds run on it. */
  lemma TreeOfTextIsUnique(t1: Tree, t2: Tree, text: string)
    requires IsTreeOf(t1, text) && IsTreeOf(t2, text)
    ensures t1 == t2
  {
    var q := SortByFreq(InitialQueue(TableOf(text)));
    assert MergeAll(q) == [t1] && MergeAll(q) == [t2];
  }

  /**
   * For `"ab"` both symbols weigh 1 and `a` is shifted first, so the tree is
   * `Node(2, a, b)` and the output box gets `"01"`, not the mirrored `"10"`.
   */
  lemma TreeOfAB(tree: Tree)
    requires IsTreeOf(tree, "ab")
    ensures tree == Node(2, Leaf('a', 1), Leaf('b', 1))
    ensures Join(PathCodes("ab", tree)) == "01"
  {
    var a, b := Leaf('a', 1), Leaf('b', 1);
    var q := SortByFreq(InitialQueue(TableOf("ab")));
    assert q == [a, b] by {
      TableOfAB();
      QueueOfAB();
    }
    assert MergeAll(q) == [Node(2, a, b)] by {
      assert q[2..] == [];
      assert MergeAll(q) == MergeAll([Node(2, a, b)]);
    }
    CodesOfAB();
  }

  /** The sorted first queue of the table of `"ab"`: its two leaves in order of first occurrence. */
  lemma QueueOfAB()
    ensures SortByFreq(InitialQueue(OrdMap("ab", map['a' := 1, 'b' := 1]))) == [Leaf('a', 1), Leaf('b', 1)]
  {
    var table: FreqTable := OrdMap("ab", map['a' := 1, 'b' := 1]);
    var leaves := [Leaf('a', 1), Leaf('b', 1)];
    assert InitialQueue(table) == leaves by {
      assert table.Valid();
      InitialQueueEntries(table);
      assert table.keys[0] == 'a' && table.keys[1] == 'b';
    }
    SortingSortedIsIdentity(leaves);
  }

  /** The table of `"ab"`: both symbols once, in text order. */
  lemma TableOfAB()
    ensures TableOf("ab") == OrdMap("ab", map['a' := 1, 'b' := 1])
  {
    var table: FreqTable := OrdMap("ab", map['a' := 1, 'b' := 1]);
    assert Distinct("ab") == "ab" by {
      assert "ab"[..1] == "a" && "a"[..0] == [];
    }
    assert multiset("ab") == multiset{'a', 'b'};
    assert table.Valid();
    FrequencyTableIsUnique(TableOf("ab"), table, "ab");
  }

  /** The paths of `"ab"` in `Node(2, a, b)`, joined. */
  lemma CodesOfAB()
    ensures Join(PathCodes("ab", Node(2, Leaf('a', 1), Leaf('b', 1)))) == "01"
  {
    var a, b := Leaf('a', 1), Leaf('b', 1);
    var codes := PathCodes("ab", Node(2, a, b));
    assert codes[0] == "0" by {
      assert codes[0] == ['0'] + PathTo(a, 'a');
    }
    assert codes[1] == "1" by {
      assert codes[1] == ['1'] + PathTo(b, 'b');
    }
    assert Join(codes[1..]) == "1" by {
      assert codes[1..] == ["1"] && ["1"][1..] == [];
    }
  }

  /**
   * The guard and the `try` block of `handleCompress`: a blank text is
   * refused, any other goes through the whole pipeline. No step of the
   * pipeline can throw on a non-blank text, so its `catch` is never taken.
   */
  method Compress(inputText: string) returns (outcome: CompressOutcome)
    ensures outcome.NothingToCompress? <==> Blank(inputText)
    ensures outcome.Compressed? ==> IsTreeOf(outcome.tree, inputText)
    ensures outcome.Compressed? ==> WellWeighted(outcome.tree) && outcome.tree.freq == |inputText|
    ensures outcome.Compressed? ==> NoDup(Symbols(outcome.tree))
    ensures outcome.Compressed? ==> forall c :: c in Symbols(outcome.tree) <==> c in inputText
    ensures outcome.Compressed? ==> (outcome.tree.Leaf? <==> |Distinct(inputText)| == 1)
    ensures outcome.Compressed? ==> outcome.encodedText == Join(PathCodes(inputText, outcome.tree))
    ensures outcome.Compressed? ==> IsBits(outcome.encodedText)
    ensures outcome.Compressed? && outcome.tree.Node? ==>
      Walk(outcome.encodedText, outcome.tree, outcome.tree) == Ok(inputText)
    ensures outcome.Compressed? && outcome.tree.Leaf? ==> outcome.encodedText == []
  {
    if Trim(inputText) == [] {
      return NothingToCompress;
    }
    var freqTable := BuildFrequencyTable(inputText);
    var tree := BuildHuffmanTree(freqTable);
    assert inputText[0] in freqTable.keys;
    var root := tree.value;
    FrequencyTableIsUnique(freqTable, TableOf(inputText), inputText);
    TreeOfText(inputText, freqTable, root);
    var codeMap := BuildHuffmanCodeMap(root, "", EmptyMap());
    var encodedText := EncodeText(inputText, codeMap);
    CodesOfTree(inputText, root, codeMap);
    outcome := Compressed(encodedText, root);
  }

  /** The tree built from the frequency table of a text holds the text's symbols once each. */
  lemma TreeOfText(text: string, freqTable: FreqTable, root: Tree)
    requires IsFrequencyTableOf(freqTable, text)
    requires root.freq == Total(freqTable)
    requires multiset(Leaves(root)) == multiset(InitialQueue(freqTable))
    ensures root.freq == |text|
    ensures NoDup(Symbols(root))
    ensures forall c :: c in Symbols(root) <==> c in text
    ensures root.Leaf? <==> |Distinct(text)| == 1
  {
    FrequenciesAddUpToLength(freqTable, text);
    BuiltTreeSymbols(freqTable, root);
  }

  /** The codes recorded from the root encode a text over its symbols to bits the decoder reads back. */
  lemma CodesOfTree(text: string, root: Tree, codeMap: CodeMap)
    requires forall c :: c in Symbols(root) <==> c in text
    requires forall c :: c in Symbols(root) ==> c in codeMap.values && codeMap.values[c] == "" + PathTo(root, c)
    ensures EncodeText(text, codeMap) == Join(PathCodes(text, root))
    ensures IsBits(EncodeText(text, codeMap))
    ensures root.Node? ==> Walk(EncodeText(text, codeMap), root, root) == Ok(text)
    ensures root.Leaf? ==> EncodeText(text, codeMap) == []
  {
    assert CodesArePaths(codeMap, root) by {
      forall c | c in Symbols(root)
        ensures codeMap.values[c] == PathTo(root, c)
      {
        assert "" + PathTo(root, c) == PathTo(root, c);
      }
    }
    assert Codes(text, codeMap) == PathCodes(text, root);
    assert IsBits(EncodeText(text, codeMap)) by {
      EncodeTextIsBits(text, codeMap);
    }
    if root.Node? {
      DecodeEncode(text, codeMap, root);
    } else {
      EmptyCodesEncodeToNothing(text, codeMap);
    }
  }

  /**
   * The same pipeline with the corrected code for a single symbol: every
   * non-blank text, one distinct symbol or many, comes back from its bits.
   */
  method RoundTripFixed(inputText: string) returns (restored: Option<string>)
    ensures restored.None? <==> Blank(inputText)
    ensures restored.Some? ==> restored.value == inputText
  {
    if Trim(inputText) == [] {
      return None;
    }
    var freqTable := BuildFrequencyTable(inputText);
    var tree := BuildHuffmanTree(freqTable);
    assert inputText[0] in freqTable.keys;
    var root := tree.value;
    TreeOfText(inputText, freqTable, root);
    var codeMap := BuildFixedCodeMap(root);
    var encodedText := EncodeText(inputText, codeMap);
    FixedCodesOfTree(inputText, root, codeMap);
    restored := Some(DecodeFixed(encodedText, root).value);
  }

  /** The corrected codes of the tree built from a text restore the text. */
  lemma FixedCodesOfTree(text: string, root: Tree, codeMap: CodeMap)
    requires forall c :: c in Symbols(root) <==> c in text
    requires CodesAreFixedCodes(codeMap, root)
    ensures DecodeFixed(EncodeText(text, codeMap), root) == Ok(text)
  {
    assert forall i :: 0 <= i < |text| ==> text[i] in Symbols(root);
    FixedRoundTrip(text, codeMap, root);
  }

  datatype DecompressOutcome =
    | NothingToDecompress
    | MissingTree
    | DecompressionFailed
    | Decompressed(text: string)

  /** The guards and the `try` block of `handleDecompress`. */
  method Decompress(outputText: string, huffmanTree: Option<Tree>) returns (outcome: DecompressOutcome)
    ensures outcome.NothingToDecompress? <==> Blank(outputText)
    ensures outcome.MissingTree? <==> !Blank(outputText) && huffmanTree.None?
    ensures outcome.DecompressionFailed? <==> !Blank(outputText) && huffmanTree.Some? && huffmanTree.value.Leaf?
    ensures outcome.Decompressed? ==> Walk(outputText, huffmanTree.value, huffmanTree.value) == Ok(outcome.text)
  {
    if Trim(outputText) == [] {
      return NothingToDecompress;
    }
    if huffmanTree.None? {
      return MissingTree;
    }
    var decoded := DecodeText(outputText, huffmanTree.value);
    if decoded.Err? {
      return DecompressionFailed;
    }
    outcome := Decompressed(decoded.value);
  }

  /** `{ ...pair, frequency }`: a code map entry with the frequency of its symbol. */
  datatype CodeRow = CodeRow(key: char, value: string, frequency: nat)

  /**
   * `rows` lists every symbol of `tree` once, in the order of the code map,
   * with its code and its number of occurrences in `text`.
   */
  ghost predicate DescribesCodes(rows: seq<CodeRow>, tree: Tree, text: string) {
    && (forall i :: 0 <= i < |rows| ==>
          && rows[i].key in Symbols(tree)
          && rows[i].value == PathTo(tree, rows[i].key)
          && rows[i].frequency == multiset(text)[rows[i].key])
    && (forall i, j :: 0 <= i < j < |rows| ==> rows[i].key != rows[j].key)
    && (forall c :: c in Symbols(tree) ==> exists i :: 0 <= i < |rows| && rows[i].key == c)
    && (NoDup(Symbols(tree)) ==>
          |rows| == |Symbols(tree)| && forall i :: 0 <= i < |rows| ==> rows[i].key == Symbols(tree)[i])
  }

  /**
   * The body of `handleShowKeyValuePairs` past its guard: the code map of
   * the kept tree, entry by entry, with the frequencies of the current input.
   */
  method ShowKeyValuePairs(inputText: string, huffmanTree: Tree) returns (rows: seq<CodeRow>)
    ensures DescribesCodes(rows, huffmanTree, inputText)
  {
    var freqTable := BuildFrequencyTable(inputText);
    var codeMap := BuildHuffmanCodeMap(huffmanTree, "", EmptyMap());
    var pairs := GetKeyValuePairs(codeMap);
    rows := seq(|pairs|, i requires 0 <= i < |pairs| =>
      CodeRow(pairs[i].key, pairs[i].value, GetCharacterFrequency(freqTable, pairs[i].key)));
    RowsOfCodeMap(inputText, huffmanTree, freqTable, codeMap, pairs, rows);
  }

  /** The rows built from the entries of a code map of `tree` describe its codes. */
  lemma RowsOfCodeMap(text: string, tree: Tree, freqTable: FreqTable, codeMap: CodeMap,
                      pairs: seq<KeyValue<char, string>>, rows: seq<CodeRow>)
    requires IsFrequencyTableOf(freqTable, text)
    requires codeMap.Valid()
    requires forall c :: c in codeMap.values <==> c in Symbols(tree)
    requires forall c :: c in Symbols(tree) ==> codeMap.values[c] == "" + PathTo(tree, c)
    requires NoDup(Symbols(tree)) ==> codeMap.keys == [] + Symbols(tree)
    requires |pairs| == |codeMap.keys|
    requires forall i :: 0 <= i < |pairs| ==>
      pairs[i].key == codeMap.keys[i] && codeMap.Get(pairs[i].key) == Some(pairs[i].value)
    requires |rows| == |pairs|
    requires forall i :: 0 <= i < |rows| ==>
      rows[i] == CodeRow(pairs[i].key, pairs[i].value, GetCharacterFrequency(freqTable, pairs[i].key))
    ensures DescribesCodes(rows, tree, text)
  {
    forall i | 0 <= i < |rows|
      ensures rows[i].key in Symbols(tree)
      ensures rows[i].value == PathTo(tree, rows[i].key)
      ensures rows[i].frequency == multiset(text)[rows[i].key]
    {
      RowOfEntry(text, tree, freqTable, codeMap, pairs[i], rows[i]);
    }
    assert forall i :: 0 <= i < |rows| ==> rows[i].key == codeMap.keys[i];
    assert forall c :: c in Symbols(tree) ==> exists i :: 0 <= i < |rows| && rows[i].key == c by {
      forall c | c in Symbols(tree)
        ensures exists i :: 0 <= i < |rows| && rows[i].key == c
      {
        assert c in codeMap.keys;
        var i :| 0 <= i < |codeMap.keys| && codeMap.keys[i] == c;
        assert rows[i].key == c;
      }
    }
    if NoDup(Symbols(tree)) {
      assert [] + Symbols(tree) == Symbols(tree);
    }
  }

  /** One row: the entry's symbol, its path, and its count in the text. */
  lemma RowOfEntry(text: string, tree: Tree, freqTable: FreqTable, codeMap: CodeMap,
                   pair: KeyValue<char, string>, row: CodeRow)
    requires IsFrequencyTableOf(freqTable, text)
    requires forall c :: c in codeMap.values <==> c in Symbols(tree)
    requires forall c :: c in Symbols(tree) ==> codeMap.values[c] == "" + PathTo(tree, c)
    requires codeMap.Get(pair.key) == Some(pair.value)
    requires row == CodeRow(pair.key, pair.value, GetCharacterFrequency(freqTable, pair.key))
    ensures row.key in Symbols(tree)
    ensures row.value == PathTo(tree, row.key)
    ensures row.frequency == multiset(text)[row.key]
  {
    assert "" + PathTo(tree, pair.key) == PathTo(tree, pair.key);
    CharacterFrequencyIsCount(freqTable, text, pair.key);
  }

  /** The message the panel shows in its error box. */
  datatype PanelError =
    | NoError
    | EnterTextToCompress
    | EnterCompressedText
    | TreeMissing
    | DecompressionFailedMessage

  /** The hook state of the `Compression` component. */
  class CompressionPanel {
    var inputText: string
    var outputText: string
    var huffmanTree: Option<Tree>
    var error: PanelError
    var keyValuePairs: seq<CodeRow>
    var showKeyValuePairs: bool

    /**
     * The output box is read-only, so only the handlers write it: it is
     * empty until a tree is kept, and empty whenever the kept tree is a
     * bare leaf. The kept tree is one the pipeline built.
     */
    ghost predicate Valid()
      reads this
    {
      && (huffmanTree.None? ==> outputText == [])
      && (huffmanTree.Some? ==>
            && WellWeighted(huffmanTree.value)
            && NoDup(Symbols(huffmanTree.value))
            && (huffmanTree.value.Leaf? ==> outputText == []))
    }

    /** The initial `useState` values. */
    constructor()
      ensures Valid()
      ensures inputText == [] && outputText == [] && huffmanTree.None? && error == NoError
      ensures keyValuePairs == [] && !showKeyValuePairs
    {
      inputText := [];
      outputText := [];
      huffmanTree := None;
      error := NoError;
      keyValuePairs := [];
      showKeyValuePairs := false;
    }

    /** `handleCompress`. */
    method HandleCompress()
      requires Valid()
      modifies this
      ensures Valid()
      ensures inputText == old(inputText)
      ensures keyValuePairs == old(keyValuePairs) && showKeyValuePairs == old(showKeyValuePairs)
      ensures Blank(inputText) ==>
        error == EnterTextToCompress && outputText == old(outputText) && huffmanTree == old(huffmanTree)
      ensures !Blank(inputText) ==>
        && error == NoError
        && huffmanTree.Some?
        && IsTreeOf(huffmanTree.value, inputText)
        && huffmanTree.value.freq == |inputText|
        && (forall c :: c in Symbols(huffmanTree.value) <==> c in inputText)
        && (huffmanTree.value.Leaf? <==> |Distinct(inputText)| == 1)
        && outputText == Join(PathCodes(inputText, huffmanTree.value))
        && IsBits(outputText)
        && (huffmanTree.value.Node? ==> Walk(outputText, huffmanTree.value, huffmanTree.value) == Ok(inputText))
    {
      var outcome := Compress(inputText);
      if outcome.NothingToCompress? {
        error := EnterTextToCompress;
        return;
      }
      error := NoError;
      outputText := [];
      outputText := outcome.encodedText;
      huffmanTree := Some(outcome.tree);
    }

    /**
     * `handleDecompress`. On a panel whose state the handlers built, the
     * tree is never missing and never a bare leaf when there are bits to
     * decode, so neither of those errors can show.
     */
    method HandleDecompress()
      modifies this
      ensures outputText == old(outputText) && huffmanTree == old(huffmanTree)
      ensures keyValuePairs == old(keyValuePairs) && showKeyValuePairs == old(showKeyValuePairs)
      ensures old(Valid()) ==> Valid()
      ensures Blank(outputText) ==> error == EnterCompressedText && inputText == old(inputText)
      ensures !Blank(outputText) && huffmanTree.None? ==> error == TreeMissing && inputText == old(inputText)
      ensures !Blank(outputText) && huffmanTree.Some? && huffmanTree.value.Leaf? ==>
        error == DecompressionFailedMessage && inputText == []
      ensures !Blank(outputText) && huffmanTree.Some? && huffmanTree.value.Node? ==>
        error == NoError && Walk(outputText, huffmanTree.value, huffmanTree.value) == Ok(inputText)
      ensures old(Valid()) ==> error == NoError || error == EnterCompressedText
    {
      var outcome := Decompress(outputText, huffmanTree);
      match outcome
      case NothingToDecompress =>
        error := EnterCompressedText;
      case MissingTree =>
        error := TreeMissing;
      case DecompressionFailed =>
        error := DecompressionFailedMessage;
        inputText := [];
      case Decompressed(text) =>
        error := NoError;
        inputText := text;
    }

    /** `handleShowKeyValuePairs`. */
    method HandleShowKeyValuePairs()
      modifies this
      ensures inputText == old(inputText) && outputText == old(outputText) && huffmanTree == old(huffmanTree)
      ensures old(Valid()) ==> Valid()
      ensures huffmanTree.None? ==>
        error == TreeMissing && keyValuePairs == old(keyValuePairs) && showKeyValuePairs == old(showKeyValuePairs)
      ensures huffmanTree.Some? ==>
        error == NoError && showKeyValuePairs && DescribesCodes(keyValuePairs, huffmanTree.value, inputText)
    {
      if huffmanTree.None? {
        error := TreeMissing;
        return;
      }
      error := NoError;
      var pairs := ShowKeyValuePairs(inputText, huffmanTree.value);
      keyValuePairs := pairs;
      showKeyValuePairs := true;
    }

    /**
     * Pressing "Compress" and then "Decompress": a text with two or more
     * distinct symbols comes back unchanged; a non-blank text with one
     * distinct symbol compresses to no bits, which decompression refuses.
     */
    method CompressThenDecompress()
      requires Valid()
      modifies this
      ensures Valid()
      ensures !Blank(old(inputText)) && |Distinct(old(inputText))| >= 2 ==>
        inputText == old(inputText) && error == NoError
      ensures !Blank(old(inputText)) && |Distinct(old(inputText))| == 1 ==>
        inputText == old(inputText) && error == EnterCompressedText
    {
      HandleCompress();
      if !Blank(inputText) && huffmanTree.value.Node? {
        assert inputText != [];
        assert Walk([], huffmanTree.value, huffmanTree.value) == Ok([]);
        assert !IsWhitespace(outputText[0]);
      }
      HandleDecompress();
    }
  }
}
