/**
 * `buildHuffmanCodeMap` of `frontend/src/utils/huffman.js`: a depth-first
 * walk that records, for every leaf, the path taken to it ('0' for left,
 * '1' for right) in a `Map` threaded through the recursion.
 */
module CodeMaps {
  import opened Sequences
  import opened Wrappers
  import opened OrderedMaps
  import opened HuffmanTrees

  type CodeMap = OrdMap<char, string>

  /**
   * `buildHuffmanCodeMap(node, prefix, codeMap)`: the map the JavaScript
   * mutates in place is passed in and handed back. Both children of an
   * internal node are always present, so its `if (node.left)` and
   * `if (node.right)` guards always hold.
   */
  method BuildHuffmanCodeMap(node: Tree, prefix: string, codeMap: CodeMap) returns (result: CodeMap)
    requires codeMap.Valid()
    ensures result.Valid()
    ensures codeMap.keys <= result.keys
    ensures forall c :: c in result.values <==> c in codeMap.values || c in Symbols(node)
    ensures forall c :: c in Symbols(node) ==> result.values[c] == prefix + PathTo(node, c)
    ensures forall c :: c !in Symbols(node) && c in codeMap.values ==> result.values[c] == codeMap.values[c]
    ensures NoDup(Symbols(node)) && (forall c :: c in Symbols(node) ==> c !in codeMap.values) ==>
      result.keys == codeMap.keys + Symbols(node)
    decreases node
  {
    if node.Leaf? {
      result := codeMap.Set(node.sym, prefix);
    } else {
      var left := BuildHuffmanCodeMap(node.left, prefix + "0", codeMap);
      result := BuildHuffmanCodeMap(node.right, prefix + "1", left);
      EntriesOfNode(node, codeMap, left, result);
      CodesOfNode(node, prefix, left, result);
      KeysOfNode(node, codeMap, left, result);
    }
  }

  /** The symbols recorded under an internal node, and those left as they were. */
  lemma EntriesOfNode(node: Tree, codeMap: CodeMap, left: CodeMap, result: CodeMap)
    requires node.Node?
    requires forall c :: c in left.values <==> c in codeMap.values || c in Symbols(node.left)
    requires forall c :: c !in Symbols(node.left) && c in codeMap.values ==> left.values[c] == codeMap.values[c]
    requires forall c :: c in result.values <==> c in left.values || c in Symbols(node.right)
    requires forall c :: c !in Symbols(node.right) && c in left.values ==> result.values[c] == left.values[c]
    ensures forall c :: c in result.values <==> c in codeMap.values || c in Symbols(node)
    ensures forall c :: c !in Symbols(node) && c in codeMap.values ==> result.values[c] == codeMap.values[c]
  {
    assert forall c :: c in Symbols(node) <==> c in Symbols(node.left) || c in Symbols(node.right);
  }

  /** The code recorded under an internal node is its path, the right subtree winning. */
  lemma CodesOfNode(node: Tree, prefix: string, left: CodeMap, result: CodeMap)
    requires node.Node?
    requires forall c :: c in Symbols(node.left) ==> c in left.values && left.values[c] == prefix + "0" + PathTo(node.left, c)
    requires forall c :: c in result.values <==> c in left.values || c in Symbols(node.right)
    requires forall c :: c in Symbols(node.right) ==> result.values[c] == prefix + "1" + PathTo(node.right, c)
    requires forall c :: c !in Symbols(node.right) && c in left.values ==> result.values[c] == left.values[c]
    ensures forall c :: c in Symbols(node) ==> result.values[c] == prefix + PathTo(node, c)
  {
    forall c | c in Symbols(node)
      ensures result.values[c] == prefix + PathTo(node, c)
    {
      if c in Symbols(node.right) {
        ConcatAssoc(prefix, "1", PathTo(node.right, c));
      } else {
        ConcatAssoc(prefix, "0", PathTo(node.left, c));
      }
    }
  }

  /** Under an internal node the keys are added leaf by leaf, left subtree first. */
  lemma KeysOfNode(node: Tree, codeMap: CodeMap, left: CodeMap, result: CodeMap)
    requires node.Node?
    requires NoDup(Symbols(node.left)) && (forall c :: c in Symbols(node.left) ==> c !in codeMap.values) ==>
      left.keys == codeMap.keys + Symbols(node.left)
    requires forall c :: c in left.values <==> c in codeMap.values || c in Symbols(node.left)
    requires NoDup(Symbols(node.right)) && (forall c :: c in Symbols(node.right) ==> c !in left.values) ==>
      result.keys == left.keys + Symbols(node.right)
    ensures NoDup(Symbols(node)) && (forall c :: c in Symbols(node) ==> c !in codeMap.values) ==>
      result.keys == codeMap.keys + Symbols(node)
  {
    if NoDup(Symbols(node)) && (forall c :: c in Symbols(node) ==> c !in codeMap.values) {
      var l, r := Symbols(node.left), Symbols(node.right);
      NoDupSplit(l, r);
      assert left.keys == codeMap.keys + l;
      assert forall c :: c in r ==> c !in left.values;
      assert result.keys == left.keys + r;
      ConcatAssoc(codeMap.keys, l, r);
    }
  }
}
