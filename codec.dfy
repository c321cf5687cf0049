/**
 * `encodeText` and `decodeText` of `frontend/src/utils/huffman.js`: the text
 * becomes the concatenation of its symbols' codes, and the bits are read back
 * by walking the tree from the root, starting over at the root after every
 * symbol emitted.
 */
module Codec {
  import opened Sequences
  import opened Wrappers
  import opened OrderedMaps
  import opened HuffmanTrees
  import opened CodeMaps

  /** `codeMap.get(char)`, where `join('')` turns an `undefined` into `''`. */
  function CodeOf(codeMap: CodeMap, c: char): (code: string)
    ensures c in codeMap.values ==> code == codeMap.values[c]
    ensures c !in codeMap.values ==> code == []
  {
    match codeMap.Get(c)
    case Some(code) => code
    case None => []
  }

  /** `text.split('').map((char) => codeMap.get(char))`. */
  function Codes(text: string, codeMap: CodeMap): (codes: seq<string>)
    ensures |codes| == |text|
    ensures forall i :: 0 <= i < |text| ==> codes[i] == CodeOf(codeMap, text[i])
  {
    if text == [] then [] else [CodeOf(codeMap, text[0])] + Codes(text[1..], codeMap)
  }

  /** The path of each symbol of `text` in `t`, in text order: what a code map read off `t` gives. */
  function PathCodes(text: string, t: Tree): seq<string>
    requires forall i :: 0 <= i < |text| ==> text[i] in Symbols(t)
  {
    seq(|text|, i requires 0 <= i < |text| => PathTo(t, text[i]))
  }

  /** `join('')`. */
  function Join(parts: seq<string>): (joined: string)
    ensures |joined| == TotalLength(parts)
  {
    if parts == [] then [] else parts[0] + Join(parts[1..])
  }

  /** The sum of the lengths of `parts`. */
  function TotalLength(parts: seq<string>): nat {
    if parts == [] then 0 else |parts[0]| + TotalLength(parts[1..])
  }

  /** `encodeText(text, codeMap)`: as long as the codes of the text's symbols together. */
  function EncodeText(text: string, codeMap: CodeMap): (encoded: string)
    ensures |encoded| == TotalLength(Codes(text, codeMap))
  {
    Join(Codes(text, codeMap))
  }

  /** Encoding works symbol by symbol: the code of a concatenation is the concatenation of the codes. */
  lemma {:induction false} EncodeTextAppend(a: string, b: string, codeMap: CodeMap)
    ensures EncodeText(a + b, codeMap) == EncodeText(a, codeMap) + EncodeText(b, codeMap)
    decreases |a|
  {
    if a == [] {
      assert a + b == b;
    } else {
      TailOfConcat(a, b);
      EncodeTextAppend(a[1..], b, codeMap);
      ConcatAssoc(CodeOf(codeMap, a[0]), EncodeText(a[1..], codeMap), EncodeText(b, codeMap));
    }
  }

  /** Every character of `s` is a bit. */
  predicate IsBits(s: string) {
    forall i :: 0 <= i < |s| ==> s[i] == '0' || s[i] == '1'
  }

  /** Codes made of bits encode any text to bits. */
  lemma {:induction false} EncodeTextIsBits(text: string, codeMap: CodeMap)
    requires forall i :: 0 <= i < |text| ==> IsBits(CodeOf(codeMap, text[i]))
    ensures IsBits(EncodeText(text, codeMap))
    decreases |text|
  {
    if text != [] {
      EncodeTextIsBits(text[1..], codeMap);
      TailOfConcat([CodeOf(codeMap, text[0])], Codes(text[1..], codeMap));
      assert EncodeText(text, codeMap) == CodeOf(codeMap, text[0]) + EncodeText(text[1..], codeMap);
    }
  }

  /** A symbol that has no code is dropped from the encoding without a trace. */
  lemma EncodeTextDropsMissing(a: string, c: char, b: string, codeMap: CodeMap)
    requires c !in codeMap.values
    ensures EncodeText(a + [c] + b, codeMap) == EncodeText(a + b, codeMap)
  {
    var ea, eb := EncodeText(a, codeMap), EncodeText(b, codeMap);
    assert EncodeText([c], codeMap) == [] by {
      var none: seq<string> := [[]];
      assert Codes([c], codeMap) == none;
      assert none[1..] == [];
    }
    assert EncodeText(a + [c], codeMap) == ea by {
      EncodeTextAppend(a, [c], codeMap);
      assert ea + [] == ea;
    }
    assert EncodeText(a + [c] + b, codeMap) == ea + eb by {
      EncodeTextAppend(a + [c], b, codeMap);
    }
    assert EncodeText(a + b, codeMap) == ea + eb by {
      EncodeTextAppend(a, b, codeMap);
    }
  }

  /** `decodeText` reads `.char` of the `null` child of a leaf and throws a `TypeError`. */
  datatype DecodeError = NullChild

  datatype Result<T> = Ok(value: T) | Err(error: DecodeError)

  /** `s` in front of the text decoded so far, or the error unchanged. */
  function Prepend(s: string, r: Result<string>): Result<string> {
    match r
    case Ok(v) => Ok(s + v)
    case Err(e) => Err(e)
  }

  /** Prepending nothing changes nothing. */
  lemma PrependNothing(r: Result<string>)
    ensures Prepend([], r) == r
  {
    if r.Ok? {
      assert [] + r.value == r.value;
    }
  }

  /** Two prependings are one prepending of both. */
  lemma PrependPrepend(a: string, b: string, r: Result<string>)
    ensures Prepend(a, Prepend(b, r)) == Prepend(a + b, r)
  {
    if r.Ok? {
      assert a + (b + r.value) == a + b + r.value;
    }
  }

  /**
   * What `decodeText` produces from `bits` when its cursor stands at `cur`:
   * each bit moves to a child, a leaf reached emits its symbol and sends the
   * cursor back to `root`, and a bit read at a leaf fails.
   */
  function Walk(bits: string, root: Tree, cur: Tree): Result<string>
    decreases |bits|
  {
    if bits == [] then Ok([])
    else if cur.Leaf? then Err(NullChild)
    else
      var next := Child(cur, bits[0]);
      if next.Leaf? then Prepend([next.sym], Walk(bits[1..], root, root))
      else Walk(bits[1..], root, next)
  }

  /** `decodeText(encodedText, huffmanTree)`. */
  method DecodeText(encodedText: string, huffmanTree: Tree) returns (r: Result<string>)
    ensures r == Walk(encodedText, huffmanTree, huffmanTree)
    ensures encodedText == [] ==> r == Ok([])
    ensures r.Err? <==> huffmanTree.Leaf? && encodedText != []
  {
    var decodedText := "";
    var currentNode := huffmanTree;
    assert encodedText[0..] == encodedText;
    PrependNothing(Walk(encodedText, huffmanTree, huffmanTree));
    DecodeFailsExactlyAtLeafRoot(encodedText, huffmanTree);
    for i := 0 to |encodedText|
      invariant Walk(encodedText, huffmanTree, huffmanTree)
        == Prepend(decodedText, Walk(encodedText[i..], huffmanTree, currentNode))
    {
      var bit := encodedText[i];
      assert encodedText[i..][0] == bit && encodedText[i..][1..] == encodedText[i + 1..];
      if currentNode.Leaf? {
        // The child taken is `null`, and reading its `char` throws.
        return Err(NullChild);
      }
      currentNode := Child(currentNode, bit);
      if currentNode.Leaf? {
        PrependPrepend(decodedText, [currentNode.sym], Walk(encodedText[i + 1..], huffmanTree, huffmanTree));
        decodedText := decodedText + [currentNode.sym];
        currentNode := huffmanTree;
      }
    }
    assert encodedText[|encodedText|..] == [];
    assert decodedText + [] == decodedText;
    r := Ok(decodedText);
  }

  /** From an internal node of a tree whose root is internal the walk never fails. */
  lemma {:induction false} WalkFromNodeSucceeds(bits: string, root: Tree, cur: Tree)
    requires root.Node? && cur.Node?
    ensures Walk(bits, root, cur).Ok?
    decreases |bits|
  {
    if bits != [] {
      var next := Child(cur, bits[0]);
      if next.Leaf? {
        WalkFromNodeSucceeds(bits[1..], root, root);
      } else {
        WalkFromNodeSucceeds(bits[1..], root, next);
      }
    }
  }

  /** Decoding fails exactly when the tree is a bare leaf and there is a bit to read. */
  lemma DecodeFailsExactlyAtLeafRoot(bits: string, root: Tree)
    ensures Walk(bits, root, root).Err? <==> root.Leaf? && bits != []
  {
    if root.Node? {
      WalkFromNodeSucceeds(bits, root, root);
    }
  }

  /** `bits` with every symbol other than '0' read as '1'. */
  function Normalize(bits: string): (r: string)
    ensures |r| == |bits|
    ensures forall i :: 0 <= i < |bits| ==> r[i] == (if bits[i] == '0' then '0' else '1')
  {
    if bits == [] then [] else [if bits[0] == '0' then '0' else '1'] + Normalize(bits[1..])
  }

  /** The decoder takes any symbol other than '0' for a '1'. */
  lemma {:induction false} AnyOtherBitGoesRight(bits: string, root: Tree, cur: Tree)
    ensures Walk(bits, root, cur) == Walk(Normalize(bits), root, cur)
    decreases |bits|
  {
    if bits != [] && cur.Node? {
      var n := Normalize(bits);
      assert n[1..] == Normalize(bits[1..]);
      assert Child(cur, bits[0]) == Child(cur, n[0]);
      var next := Child(cur, bits[0]);
      if next.Leaf? {
        AnyOtherBitGoesRight(bits[1..], root, root);
      } else {
        AnyOtherBitGoesRight(bits[1..], root, next);
      }
    }
  }

  /**
   * Reading the code of `c` from an internal node `cur` emits `c` and sends
   * the cursor back to the root for the bits that follow.
   */
  lemma {:induction false} PathThenRestart(root: Tree, cur: Tree, c: char, rest: string)
    requires cur.Node? && c in Symbols(cur)
    ensures Walk(PathTo(cur, c) + rest, root, cur) == Prepend([c], Walk(rest, root, root))
    decreases cur
  {
    var path := PathTo(cur, c);
    var sub := if c in Symbols(cur.right) then cur.right else cur.left;
    var bit := if c in Symbols(cur.right) then '1' else '0';
    assert path == [bit] + PathTo(sub, c);
    assert (path + rest)[0] == bit && (path + rest)[1..] == PathTo(sub, c) + rest;
    assert Child(cur, bit) == sub;
    if sub.Leaf? {
      assert PathTo(sub, c) + rest == rest;
    } else {
      PathThenRestart(root, sub, c, rest);
    }
  }

  /** The code map of a tree gives every symbol of the tree its path. */
  ghost predicate CodesArePaths(codeMap: CodeMap, t: Tree) {
    forall c :: c in Symbols(t) ==> c in codeMap.values && codeMap.values[c] == PathTo(t, c)
  }

  /**
   * Round trip: when the tree has an internal root and every symbol of the
   * text is one of its leaves, decoding the encoding gives back the text,
   * followed by whatever the bits after it decode to.
   */
  lemma {:induction false} DecodeEncodeThenRest(text: string, codeMap: CodeMap, t: Tree, rest: string)
    requires t.Node? && CodesArePaths(codeMap, t)
    requires forall i :: 0 <= i < |text| ==> text[i] in Symbols(t)
    ensures Walk(EncodeText(text, codeMap) + rest, t, t) == Prepend(text, Walk(rest, t, t))
    decreases |text|
  {
    if text == [] {
      assert EncodeText(text, codeMap) + rest == rest;
      PrependNothing(Walk(rest, t, t));
    } else {
      var c := text[0];
      var tail := EncodeText(text[1..], codeMap);
      assert Walk(EncodeText(text, codeMap) + rest, t, t) == Walk(PathTo(t, c) + (tail + rest), t, t) by {
        assert EncodeText(text, codeMap) == PathTo(t, c) + tail by {
          assert Codes(text, codeMap) == [PathTo(t, c)] + Codes(text[1..], codeMap);
        }
        ConcatAssoc(PathTo(t, c), tail, rest);
      }
      assert Walk(PathTo(t, c) + (tail + rest), t, t) == Prepend([c], Walk(tail + rest, t, t)) by {
        PathThenRestart(t, t, c, tail + rest);
      }
      assert Walk(tail + rest, t, t) == Prepend(text[1..], Walk(rest, t, t)) by {
        DecodeEncodeThenRest(text[1..], codeMap, t, rest);
      }
      PrependPrepend([c], text[1..], Walk(rest, t, t));
      assert [c] + text[1..] == text;
    }
  }

  /** `decodeText(encodeText(text, codeMap), tree) === text`. */
  lemma DecodeEncode(text: string, codeMap: CodeMap, t: Tree)
    requires t.Node? && CodesArePaths(codeMap, t)
    requires forall i :: 0 <= i < |text| ==> text[i] in Symbols(t)
    ensures Walk(EncodeText(text, codeMap), t, t) == Ok(text)
  {
    DecodeEncodeThenRest(text, codeMap, t, []);
    assert EncodeText(text, codeMap) + [] == EncodeText(text, codeMap);
    assert text + [] == text;
  }

  /** Bits that stop partway down a code, at an internal node, emit nothing. */
  lemma {:induction false} PartialPathIsDropped(root: Tree, cur: Tree, c: char, k: nat)
    requires cur.Node? && c in Symbols(cur) && k < |PathTo(cur, c)|
    ensures Walk(PathTo(cur, c)[..k], root, cur) == Ok([])
    decreases cur
  {
    if k > 0 {
      var path := PathTo(cur, c);
      var sub := if c in Symbols(cur.right) then cur.right else cur.left;
      var bit := if c in Symbols(cur.right) then '1' else '0';
      assert path == [bit] + PathTo(sub, c);
      assert path[..k][0] == bit && path[..k][1..] == PathTo(sub, c)[..k - 1];
      assert Child(cur, bit) == sub;
      PartialPathIsDropped(root, sub, c, k - 1);
    }
  }

  /**
   * Trailing bits that end at an internal node are dropped: the encoding of
   * a text followed by a proper prefix of a code decodes to the text alone.
   */
  lemma TrailingBitsAreDropped(text: string, codeMap: CodeMap, t: Tree, c: char, k: nat)
    requires t.Node? && CodesArePaths(codeMap, t)
    requires forall i :: 0 <= i < |text| ==> text[i] in Symbols(t)
    requires c in Symbols(t) && k < |PathTo(t, c)|
    ensures Walk(EncodeText(text, codeMap) + PathTo(t, c)[..k], t, t) == Ok(text)
  {
    DecodeEncodeThenRest(text, codeMap, t, PathTo(t, c)[..k]);
    PartialPathIsDropped(t, t, c, k);
    assert text + [] == text;
  }
}
