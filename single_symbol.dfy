/**
 * A text with a single distinct symbol. Its Huffman tree is a bare leaf, which
 * `buildHuffmanCodeMap` gives the empty code, so the text encodes to nothing
 * and cannot be restored. The corrected definitions give the lone symbol the
 * one-bit code "0" and let a bare-leaf tree decode every bit to its symbol.
 */
module SingleSymbol {
  import opened Sequences
  import opened Wrappers
  import opened OrderedMaps
  import opened HuffmanTrees
  import opened CodeMaps
  import opened Codec

  /** Symbols whose codes are all empty encode to nothing. */
  lemma {:induction false} EmptyCodesEncodeToNothing(text: string, codeMap: CodeMap)
    requires forall i :: 0 <= i < |text| ==> CodeOf(codeMap, text[i]) == []
    ensures EncodeText(text, codeMap) == []
    decreases |text|
  {
    if text != [] {
      EmptyCodesEncodeToNothing(text[1..], codeMap);
    }
  }

  /**
   * As written: for a bare-leaf tree the code map holds the empty code, the
   * non-empty text encodes to the empty bitstring, and that decodes to the
   * empty text instead of the original.
   */
  lemma SingleSymbolRoundTripFails(c: char, f: nat, text: string, codeMap: CodeMap)
    requires text != [] && forall i :: 0 <= i < |text| ==> text[i] == c
    requires CodesArePaths(codeMap, Leaf(c, f))
    ensures EncodeText(text, codeMap) == []
    ensures Walk(EncodeText(text, codeMap), Leaf(c, f), Leaf(c, f)) == Ok([])
    ensures Walk(EncodeText(text, codeMap), Leaf(c, f), Leaf(c, f)) != Ok(text)
  {
    assert c in Symbols(Leaf(c, f));
    EmptyCodesEncodeToNothing(text, codeMap);
  }

  /** The corrected code: a bare-leaf tree gives its symbol the code "0". */
  function FixedCode(t: Tree, c: char): (code: string)
    requires c in Symbols(t)
    ensures |code| >= 1
  {
    if t.Leaf? then "0" else PathTo(t, c)
  }

  /** The code map gives every symbol of `t` its corrected code. */
  ghost predicate CodesAreFixedCodes(codeMap: CodeMap, t: Tree) {
    forall c :: c in Symbols(t) ==> c in codeMap.values && codeMap.values[c] == FixedCode(t, c)
  }

  /** The corrected code map: the one-entry map for a bare leaf, the map of paths otherwise. */
  method BuildFixedCodeMap(tree: Tree) returns (codeMap: CodeMap)
    ensures codeMap.Valid()
    ensures CodesAreFixedCodes(codeMap, tree)
    ensures forall c :: c in codeMap.values <==> c in Symbols(tree)
  {
    if tree.Leaf? {
      codeMap := EmptyMap<char, string>().Set(tree.sym, "0");
    } else {
      codeMap := BuildHuffmanCodeMap(tree, "", EmptyMap());
      forall c | c in Symbols(tree)
        ensures codeMap.values[c] == FixedCode(tree, c)
      {
        assert "" + PathTo(tree, c) == PathTo(tree, c);
      }
    }
  }

  /** `s` repeated `n` times. */
  function Repeat(s: char, n: nat): (r: string)
    ensures |r| == n && forall i :: 0 <= i < n ==> r[i] == s
  {
    if n == 0 then [] else [s] + Repeat(s, n - 1)
  }

  /** The corrected decoder: with a bare-leaf tree every bit stands for its symbol. */
  function DecodeFixed(bits: string, root: Tree): Result<string> {
    if root.Leaf? then Ok(Repeat(root.sym, |bits|)) else Walk(bits, root, root)
  }

  /** One-bit codes encode a text to as many bits as it has symbols. */
  lemma {:induction false} OneBitCodesLength(text: string, codeMap: CodeMap)
    requires forall i :: 0 <= i < |text| ==> |CodeOf(codeMap, text[i])| == 1
    ensures |EncodeText(text, codeMap)| == |text|
    decreases |text|
  {
    if text != [] {
      OneBitCodesLength(text[1..], codeMap);
    }
  }

  /** Corrected: every text over the tree's symbols survives encoding and decoding, one symbol or many. */
  lemma FixedRoundTrip(text: string, codeMap: CodeMap, t: Tree)
    requires CodesAreFixedCodes(codeMap, t)
    requires forall i :: 0 <= i < |text| ==> text[i] in Symbols(t)
    ensures DecodeFixed(EncodeText(text, codeMap), t) == Ok(text)
  {
    if t.Leaf? {
      OneBitCodesLength(text, codeMap);
      assert Repeat(t.sym, |text|) == text;
    } else {
      assert CodesArePaths(codeMap, t);
      DecodeEncode(text, codeMap, t);
    }
  }
}
