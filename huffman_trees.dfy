/**
 * The Huffman tree of `frontend/src/utils/huffman.js`. A leaf is the object
 * `{ char, freq, left: null, right: null }`, an internal node the object
 * `{ char: null, freq, left, right }`; both children of an internal node are
 * always present, so the tree is strict binary by construction.
 */
module HuffmanTrees {
  import opened Sequences
  import opened Wrappers
  import opened OrderedMaps

  datatype Tree = Leaf(sym: char, freq: nat) | Node(freq: nat, left: Tree, right: Tree)

  /** The symbols of the leaves, from left to right. */
  function Symbols(t: Tree): seq<char> {
    match t
    case Leaf(c, _) => [c]
    case Node(_, l, r) => Symbols(l) + Symbols(r)
  }

  /** The leaves themselves, from left to right. */
  function Leaves(t: Tree): seq<Tree> {
    match t
    case Leaf(_, _) => [t]
    case Node(_, l, r) => Leaves(l) + Leaves(r)
  }

  /** Every internal node weighs as much as its two children together. */
  ghost predicate WellWeighted(t: Tree) {
    match t
    case Leaf(_, _) => true
    case Node(w, l, r) => w == l.freq + r.freq && WellWeighted(l) && WellWeighted(r)
  }

  /** The leaves are listed in the same order as their symbols. */
  lemma {:induction false} LeavesCarrySymbols(t: Tree)
    ensures |Leaves(t)| == |Symbols(t)|
    ensures forall i :: 0 <= i < |Leaves(t)| ==> Leaves(t)[i].Leaf? && Leaves(t)[i].sym == Symbols(t)[i]
  {
    match t
    case Leaf(_, _) =>
    case Node(_, l, r) =>
      LeavesCarrySymbols(l);
      LeavesCarrySymbols(r);
  }

  /** One step of a walk: `bit === '0' ? node.left : node.right`. */
  function Child(t: Tree, bit: char): Tree
    requires t.Node?
  {
    if bit == '0' then t.left else t.right
  }

  /** Follow `bits` down from `t`; `None` when a bit is read at a leaf. */
  function Descend(t: Tree, bits: string): Option<Tree>
    decreases |bits|
  {
    if bits == [] then Some(t)
    else if t.Leaf? then None
    else Descend(Child(t, bits[0]), bits[1..])
  }

  /** Walking `a + b` is walking `a`, then `b` from where `a` stopped. */
  lemma {:induction false} DescendAppend(t: Tree, a: string, b: string)
    ensures Descend(t, a + b) == match Descend(t, a) case None => None case Some(u) => Descend(u, b)
    decreases |a|
  {
    if a == [] {
      assert a + b == b;
    } else if t.Node? {
      assert (a + b)[1..] == a[1..] + b;
      DescendAppend(Child(t, a[0]), a[1..], b);
    }
  }

  /**
   * The code the recursion of `buildHuffmanCodeMap` records for `c`: '0' for
   * each step left, '1' for each step right. The right subtree is visited
   * last, so when a symbol labels several leaves the rightmost one wins.
   */
  function PathTo(t: Tree, c: char): (code: string)
    requires c in Symbols(t)
    ensures forall i :: 0 <= i < |code| ==> code[i] == '0' || code[i] == '1'
    ensures code == [] <==> t.Leaf?
  {
    match t
    case Leaf(_, _) => []
    case Node(_, l, r) =>
      if c in Symbols(r) then ['1'] + PathTo(r, c) else ['0'] + PathTo(l, c)
  }

  /** The code of `c` leads from the root to a leaf that holds `c`. */
  lemma {:induction false} PathLeadsToLeaf(t: Tree, c: char)
    requires c in Symbols(t)
    ensures Descend(t, PathTo(t, c)).Some?
    ensures Descend(t, PathTo(t, c)).value.Leaf?
    ensures Descend(t, PathTo(t, c)).value.sym == c
  {
    match t
    case Leaf(_, _) =>
    case Node(_, l, r) =>
      if c in Symbols(r) {
        PathLeadsToLeaf(r, c);
      } else {
        PathLeadsToLeaf(l, c);
      }
  }

  /** The codes of two different symbols are never prefixes of one another. */
  lemma {:induction false} PathsArePrefixFree(t: Tree, c: char, d: char)
    requires c in Symbols(t) && d in Symbols(t) && c != d
    ensures !(PathTo(t, c) <= PathTo(t, d))
  {
    var p, q := PathTo(t, c), PathTo(t, d);
    if p <= q {
      PathLeadsToLeaf(t, c);
      PathLeadsToLeaf(t, d);
      assert q == p + q[|p|..];
      DescendAppend(t, p, q[|p|..]);
      assert false;
    }
  }
}
