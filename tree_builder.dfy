/**
 * `buildHuffmanTree` of `frontend/src/utils/huffman.js`: one leaf per table
 * entry, then repeatedly merge the two lightest nodes of the sorted queue
 * until a single node, the root, remains.
 */
module TreeBuilder {
  import opened Sequences
  import opened Wrappers
  import opened OrderedMaps
  import opened HuffmanTrees
  import opened PriorityQueues
  import opened FrequencyTables

  /** `{ char, freq, left: null, right: null }` for each entry, in map order. */
  function LeafQueue(pairs: seq<KeyValue<char, nat>>): (q: seq<Tree>)
    ensures |q| == |pairs|
    ensures forall i :: 0 <= i < |q| ==> q[i] == Leaf(pairs[i].key, pairs[i].value)
  {
    if pairs == [] then [] else [Leaf(pairs[0].key, pairs[0].value)] + LeafQueue(pairs[1..])
  }

  /** The queue before its first sort: one leaf per entry of the table. */
  function InitialQueue(table: FreqTable): seq<Tree>
    requires table.Valid()
  {
    LeafQueue(GetKeyValuePairs(table))
  }

  /** The sum of the weights of the queued nodes. */
  function ForestWeight(q: seq<Tree>): nat {
    if q == [] then 0 else q[0].freq + ForestWeight(q[1..])
  }

  /** The leaves of all queued nodes, queue order then left to right. */
  function ForestLeaves(q: seq<Tree>): seq<Tree> {
    if q == [] then [] else Leaves(q[0]) + ForestLeaves(q[1..])
  }

  /** Weight and leaves of a queue distribute over concatenation. */
  lemma {:induction false} ForestAppend(a: seq<Tree>, b: seq<Tree>)
    ensures ForestWeight(a + b) == ForestWeight(a) + ForestWeight(b)
    ensures ForestLeaves(a + b) == ForestLeaves(a) + ForestLeaves(b)
    decreases |a|
  {
    if a == [] {
      assert a + b == b;
    } else {
      TailOfConcat(a, b);
      ForestAppend(a[1..], b);
      ConcatAssoc(Leaves(a[0]), ForestLeaves(a[1..]), ForestLeaves(b));
    }
  }

  /** A queue of one node weighs what the node weighs and holds its leaves. */
  lemma ForestOfOne(x: Tree)
    ensures ForestWeight([x]) == x.freq
    ensures ForestLeaves([x]) == Leaves(x)
  {
    var rest := [x][1..];
    assert rest == [];
    assert ForestLeaves([x]) == Leaves(x) + ForestLeaves(rest);
    assert Leaves(x) + [] == Leaves(x);
  }

  /** Where the leaves of an inserted node land among the leaves of the queue. */
  lemma InsertSplitsLeaves(q: seq<Tree>, x: Tree) returns (la: seq<Tree>, lb: seq<Tree>)
    ensures ForestWeight(InsertByFreq(q, x)) == ForestWeight(q) + x.freq
    ensures ForestLeaves(InsertByFreq(q, x)) == la + Leaves(x) + lb
    ensures ForestLeaves(q) == la + lb
  {
    var k := InsertionPoint(q, x);
    var a, b := q[..k], q[k..];
    InsertByFreqSplits(q, x);
    assert q == a + b;
    ForestAppend(a, b);
    ForestAppend(a + [x], b);
    ForestAppend(a, [x]);
    ForestOfOne(x);
    la, lb := ForestLeaves(a), ForestLeaves(b);
  }

  /** Inserting a node adds its weight and its leaves to the queue's. */
  lemma InsertKeepsForest(q: seq<Tree>, x: Tree)
    ensures ForestWeight(InsertByFreq(q, x)) == ForestWeight(q) + x.freq
    ensures multiset(ForestLeaves(InsertByFreq(q, x))) == multiset(ForestLeaves(q)) + multiset(Leaves(x))
  {
    var la, lb := InsertSplitsLeaves(q, x);
    MultisetOfMiddle(la, Leaves(x), lb);
  }

  /** Sorting the queue changes neither its weight nor its leaves. */
  lemma {:induction false} SortKeepsForest(s: seq<Tree>)
    ensures ForestWeight(SortByFreq(s)) == ForestWeight(s)
    ensures multiset(ForestLeaves(SortByFreq(s))) == multiset(ForestLeaves(s))
    decreases |s|
  {
    if s != [] {
      var p, x := s[..|s| - 1], s[|s| - 1];
      assert s == p + [x];
      SortKeepsForest(p);
      InsertKeepsForest(SortByFreq(p), x);
      ForestAppend(p, [x]);
      ForestOfOne(x);
    }
  }

  /** A queue of leaves weighs the sum of their frequencies and is its own leaf list. */
  lemma {:induction false} LeafQueueForest(pairs: seq<KeyValue<char, nat>>)
    ensures ForestWeight(LeafQueue(pairs)) == SumOfFrequencies(pairs)
    ensures ForestLeaves(LeafQueue(pairs)) == LeafQueue(pairs)
    decreases |pairs|
  {
    if pairs != [] {
      LeafQueueForest(pairs[1..]);
      assert LeafQueue(pairs)[1..] == LeafQueue(pairs[1..]);
    }
  }

  /** A queue of leaves is well weighted. */
  lemma {:induction false} LeafQueueWellWeighted(pairs: seq<KeyValue<char, nat>>)
    ensures AllWellWeighted(LeafQueue(pairs))
    decreases |pairs|
  {
    if pairs != [] {
      LeafQueueWellWeighted(pairs[1..]);
      assert LeafQueue(pairs)[1..] == LeafQueue(pairs[1..]);
    }
  }

  /**
   * One merge step on a sorted queue: the two nodes shifted off are the two
   * lightest, and after the push and the stable re-sort the new parent stands
   * after every node that weighs no more than it.
   */
  lemma MergeStep(q: seq<Tree>) returns (k: nat)
    requires SortedByFreq(q) && |q| >= 2
    ensures forall i :: 1 <= i < |q| ==> q[0].freq <= q[i].freq
    ensures forall i :: 2 <= i < |q| ==> q[1].freq <= q[i].freq
    ensures var parent := Node(q[0].freq + q[1].freq, q[0], q[1]);
      && k <= |q| - 2
      && SortByFreq(q[2..] + [parent]) == q[2..][..k] + [parent] + q[2..][k..]
      && (forall i :: 2 <= i < k + 2 ==> q[i].freq <= parent.freq)
      && (forall i :: k + 2 <= i < |q| ==> parent.freq < q[i].freq)
  {
    var parent := Node(q[0].freq + q[1].freq, q[0], q[1]);
    var rest := q[2..];
    assert SortedByFreq(rest);
    SortAfterPushIsInsert(rest, parent);
    k := InsertByFreqPosition(rest, parent);
    forall i | 2 <= i < |q|
      ensures q[i] == rest[i - 2]
    {
    }
  }

  /** Every queued node is well weighted. */
  ghost predicate AllWellWeighted(q: seq<Tree>) {
    q == [] || (WellWeighted(q[0]) && AllWellWeighted(q[1..]))
  }

  /** The recursive definition, stated index by index. */
  lemma {:induction false} AllWellWeightedMeans(q: seq<Tree>)
    ensures AllWellWeighted(q) <==> forall i :: 0 <= i < |q| ==> WellWeighted(q[i])
    decreases |q|
  {
    if q != [] {
      AllWellWeightedMeans(q[1..]);
      forall i | 1 <= i < |q|
        ensures q[1..][i - 1] == q[i]
      {
      }
    }
  }

  /** Two well-weighted queues make a well-weighted one. */
  lemma {:induction false} AllWellWeightedAppend(a: seq<Tree>, b: seq<Tree>)
    requires AllWellWeighted(a) && AllWellWeighted(b)
    ensures AllWellWeighted(a + b)
    decreases |a|
  {
    if a == [] {
      assert a + b == b;
    } else {
      assert (a + b)[1..] == a[1..] + b;
      AllWellWeightedAppend(a[1..], b);
    }
  }

  /** Sorting the queue neither adds nor drops a node, so it stays well weighted. */
  lemma SortKeepsWellWeighted(s: seq<Tree>)
    requires AllWellWeighted(s)
    ensures AllWellWeighted(SortByFreq(s))
  {
    var r := SortByFreq(s);
    AllWellWeightedMeans(s);
    AllWellWeightedMeans(r);
    forall i | 0 <= i < |r|
      ensures WellWeighted(r[i])
    {
      var j := IndexInSameMultiset(r, s, i);
    }
  }

  /** The queue after the two lightest nodes are shifted off and their parent is pushed. */
  function PushParent(q: seq<Tree>): (pushed: seq<Tree>)
    requires |q| >= 2
    ensures |pushed| == |q| - 1
  {
    q[2..] + [Node(q[0].freq + q[1].freq, q[0], q[1])]
  }

  /** The leaves of a queue of at least two nodes, its first two nodes unfolded. */
  lemma UnfoldTwo(q: seq<Tree>)
    requires |q| >= 2
    ensures ForestWeight(q) == q[0].freq + (q[1].freq + ForestWeight(q[2..]))
    ensures ForestLeaves(q) == Leaves(q[0]) + (Leaves(q[1]) + ForestLeaves(q[2..]))
  {
    TailOfTail(q);
  }

  /** The pushed parent carries the weight and the leaves of the two nodes it replaces. */
  lemma PushParentLeaves(q: seq<Tree>)
    requires |q| >= 2
    ensures ForestWeight(PushParent(q)) == ForestWeight(q)
    ensures ForestLeaves(PushParent(q)) == ForestLeaves(q[2..]) + (Leaves(q[0]) + Leaves(q[1]))
  {
    var parent := Node(q[0].freq + q[1].freq, q[0], q[1]);
    UnfoldTwo(q);
    assert PushParent(q) == q[2..] + [parent];
    ForestAppend(q[2..], [parent]);
    ForestOfOne(parent);
  }

  /** A merge step keeps the total weight, the leaves and the weight sums of the queue. */
  lemma MergeKeepsForest(q: seq<Tree>)
    requires |q| >= 2
    requires AllWellWeighted(q)
    ensures |SortByFreq(PushParent(q))| == |q| - 1
    ensures ForestWeight(SortByFreq(PushParent(q))) == ForestWeight(q)
    ensures multiset(ForestLeaves(SortByFreq(PushParent(q)))) == multiset(ForestLeaves(q))
    ensures AllWellWeighted(SortByFreq(PushParent(q)))
  {
    PushParentKeepsForest(q);
    SortKeepsForest(PushParent(q));
    PushParentKeepsWellWeighted(q);
    SortKeepsWellWeighted(PushParent(q));
  }

  /** Replacing the first two nodes by their parent keeps the weight and the leaves. */
  lemma PushParentKeepsForest(q: seq<Tree>)
    requires |q| >= 2
    ensures ForestWeight(PushParent(q)) == ForestWeight(q)
    ensures multiset(ForestLeaves(PushParent(q))) == multiset(ForestLeaves(q))
  {
    PushParentLeaves(q);
    UnfoldTwo(q);
    MultisetOfRotation(Leaves(q[0]), Leaves(q[1]), ForestLeaves(q[2..]));
  }

  /** The pushed parent is well weighted, as are the nodes it joins. */
  lemma PushParentKeepsWellWeighted(q: seq<Tree>)
    requires |q| >= 2 && AllWellWeighted(q)
    ensures AllWellWeighted(PushParent(q))
  {
    var parent := Node(q[0].freq + q[1].freq, q[0], q[1]);
    TailOfTail(q);
    assert AllWellWeighted([parent]) by {
      assert [parent][1..] == [];
    }
    AllWellWeightedAppend(q[2..], [parent]);
  }

  /**
   * One round of the loop of `buildHuffmanTree`: shift the two lightest nodes
   * off the sorted queue, push their parent, and sort again.
   */
  method MergeLightestTwo(priorityQueue: seq<Tree>) returns (next: seq<Tree>)
    requires |priorityQueue| >= 2
    ensures next == SortByFreq(PushParent(priorityQueue))
  {
    var queue := priorityQueue;
    var left := queue[0];
    queue := queue[1..];
    var right := queue[0];
    queue := queue[1..];
    TailOfTail(priorityQueue);
    var parent := Node(left.freq + right.freq, left, right);
    queue := queue + [parent];
    assert queue == PushParent(priorityQueue);
    next := SortByFreq(queue);
  }

  /** The first sorted queue: leaves only, weighing the table's total. */
  lemma InitialForest(table: FreqTable)
    requires table.Valid()
    ensures |InitialQueue(table)| == |table.keys|
    ensures AllWellWeighted(SortByFreq(InitialQueue(table)))
    ensures ForestWeight(SortByFreq(InitialQueue(table))) == Total(table)
    ensures multiset(ForestLeaves(SortByFreq(InitialQueue(table)))) == multiset(InitialQueue(table))
  {
    var leaves := InitialQueue(table);
    LeafQueueForest(GetKeyValuePairs(table));
    SortKeepsForest(leaves);
    LeafQueueWellWeighted(GetKeyValuePairs(table));
    SortKeepsWellWeighted(leaves);
  }

  /**
   * The queue the merge loop ends with: rounds that replace the two lightest
   * nodes by their parent until at most one node is left. A round puts the
   * parent after every node no heavier than it, which on a sorted queue is
   * exactly what the stable re-sort does (`MergeRound`).
   */
  function MergeAll(q: seq<Tree>): (last: seq<Tree>)
    ensures |last| == if q == [] then 0 else 1
    decreases |q|
  {
    if |q| <= 1 then q else MergeAll(InsertByFreq(q[2..], Node(q[0].freq + q[1].freq, q[0], q[1])))
  }

  /** One `shift`, `shift`, `push`, `sort` round of a sorted queue leaves the final queue as it was. */
  lemma MergeRound(q: seq<Tree>, next: seq<Tree>)
    requires |q| > 1 && SortedByFreq(q) && next == SortByFreq(PushParent(q))
    ensures MergeAll(q) == MergeAll(next)
  {
    var parent := Node(q[0].freq + q[1].freq, q[0], q[1]);
    assert SortedByFreq(q[2..]);
    SortAfterPushIsInsert(q[2..], parent);
  }

  /**
   * What holds of the queue at the head of the merge loop: sorted, every node
   * well weighted, the table's weight and leaves spread over its nodes, and
   * the same final queue ahead.
   */
  ghost predicate MergeLoopInvariant(q: seq<Tree>, weight: nat, leaves: seq<Tree>, merged: seq<Tree>) {
    && SortedByFreq(q)
    && AllWellWeighted(q)
    && ForestWeight(q) == weight
    && multiset(ForestLeaves(q)) == multiset(leaves)
    && MergeAll(q) == merged
  }

  /** One round of the merge loop keeps its invariant and shortens the queue by one node. */
  lemma MergeKeepsLoopInvariant(q: seq<Tree>, weight: nat, leaves: seq<Tree>, merged: seq<Tree>)
    requires |q| > 1 && MergeLoopInvariant(q, weight, leaves, merged)
    ensures |SortByFreq(PushParent(q))| == |q| - 1
    ensures MergeLoopInvariant(SortByFreq(PushParent(q)), weight, leaves, merged)
  {
    MergeKeepsForest(q);
    MergeRound(q, SortByFreq(PushParent(q)));
  }

  /** The first sorted queue meets the loop invariant, and is empty exactly for an empty table. */
  lemma InitialLoopInvariant(table: FreqTable)
    requires table.Valid()
    ensures SortByFreq(InitialQueue(table)) == [] <==> table.keys == []
    ensures MergeLoopInvariant(SortByFreq(InitialQueue(table)), Total(table), InitialQueue(table),
                               MergeAll(SortByFreq(InitialQueue(table))))
  {
    InitialForest(table);
  }

  /** A queue of one node that meets the loop invariant holds the whole tree. */
  lemma FinalQueue(q: seq<Tree>, weight: nat, leaves: seq<Tree>, merged: seq<Tree>)
    requires |q| == 1 && MergeLoopInvariant(q, weight, leaves, merged)
    ensures merged == [q[0]]
    ensures WellWeighted(q[0]) && q[0].freq == weight
    ensures multiset(Leaves(q[0])) == multiset(leaves)
  {
    assert q == [q[0]];
    ForestOfOne(q[0]);
  }

  /** `buildHuffmanTree(freqTable)`: `None` is the `undefined` of `priorityQueue[0]` on an empty queue. */
  method BuildHuffmanTree(freqTable: FreqTable) returns (root: Option<Tree>)
    requires freqTable.Valid()
    ensures MergeAll(SortByFreq(InitialQueue(freqTable))) == if root.Some? then [root.value] else []
    ensures root.None? <==> freqTable.keys == []
    ensures root.Some? ==> WellWeighted(root.value)
    ensures root.Some? ==> root.value.freq == Total(freqTable)
    ensures root.Some? ==> multiset(Leaves(root.value)) == multiset(InitialQueue(freqTable))
  {
    ghost var leaves := InitialQueue(freqTable);
    ghost var weight := Total(freqTable);
    var priorityQueue := SortByFreq(InitialQueue(freqTable));
    ghost var merged := MergeAll(priorityQueue);
    InitialLoopInvariant(freqTable);

    while |priorityQueue| > 1
      invariant MergeLoopInvariant(priorityQueue, weight, leaves, merged)
      invariant priorityQueue == [] <==> freqTable.keys == []
      decreases |priorityQueue|
    {
      MergeKeepsLoopInvariant(priorityQueue, weight, leaves, merged);
      priorityQueue := MergeLightestTwo(priorityQueue);
    }

    if |priorityQueue| > 0 {
      FinalQueue(priorityQueue, weight, leaves, merged);
      root := Some(priorityQueue[0]);
    } else {
      root := None;
    }
  }

  /** The leaves of the first queue carry the table's symbols, each exactly once. */
  lemma InitialQueueEntries(table: FreqTable)
    requires table.Valid()
    ensures |InitialQueue(table)| == |table.keys|
    ensures forall i :: 0 <= i < |table.keys| ==>
      InitialQueue(table)[i] == Leaf(table.keys[i], table.values[table.keys[i]])
    ensures NoDup(InitialQueue(table))
  {
    var q := InitialQueue(table);
    forall i, j | 0 <= i < j < |q|
      ensures q[i] != q[j]
    {
      assert q[i].sym == table.keys[i] && q[j].sym == table.keys[j];
    }
  }

  /** A leaf is its own only leaf; an internal node has at least two. */
  lemma {:induction false} LeavesOfNode(t: Tree)
    ensures t.Leaf? ==> |Leaves(t)| == 1
    ensures t.Node? ==> |Leaves(t)| >= 2
  {
    match t
    case Leaf(_, _) =>
    case Node(_, l, r) =>
      LeavesOfNode(l);
      LeavesOfNode(r);
  }

  /** Every symbol of the tree is a key of the table. */
  lemma SymbolIsKey(table: FreqTable, root: Tree, c: char)
    requires table.Valid()
    requires multiset(Leaves(root)) == multiset(InitialQueue(table))
    requires c in Symbols(root)
    ensures c in table.keys
  {
    var leaves, q := Leaves(root), InitialQueue(table);
    LeavesCarrySymbols(root);
    InitialQueueEntries(table);
    var i :| 0 <= i < |Symbols(root)| && Symbols(root)[i] == c;
    var j := IndexInSameMultiset(leaves, q, i);
    assert table.keys[j] == c;
  }

  /** Every key of the table is a symbol of the tree. */
  lemma KeyIsSymbol(table: FreqTable, root: Tree, c: char)
    requires table.Valid()
    requires multiset(Leaves(root)) == multiset(InitialQueue(table))
    requires c in table.keys
    ensures c in Symbols(root)
  {
    var leaves, q := Leaves(root), InitialQueue(table);
    LeavesCarrySymbols(root);
    InitialQueueEntries(table);
    var j :| 0 <= j < |table.keys| && table.keys[j] == c;
    var i := IndexInSameMultiset(q, leaves, j);
    assert Symbols(root)[i] == c;
  }

  /** A tree whose leaves are those of the first queue holds exactly the table's symbols. */
  lemma BuiltTreeSymbolSet(table: FreqTable, root: Tree)
    requires table.Valid()
    requires multiset(Leaves(root)) == multiset(InitialQueue(table))
    ensures forall c :: c in Symbols(root) <==> c in table.keys
  {
    forall c | c in Symbols(root)
      ensures c in table.keys
    {
      SymbolIsKey(table, root, c);
    }
    forall c | c in table.keys
      ensures c in Symbols(root)
    {
      KeyIsSymbol(table, root, c);
    }
  }

  /** ... and holds each of them once. */
  lemma BuiltTreeNoDup(table: FreqTable, root: Tree)
    requires table.Valid()
    requires multiset(Leaves(root)) == multiset(InitialQueue(table))
    ensures NoDup(Symbols(root))
  {
    var leaves, q := Leaves(root), InitialQueue(table);
    assert |q| == |table.keys| && forall k :: 0 <= k < |q| ==> q[k].Leaf? && q[k].sym == table.keys[k] by {
      InitialQueueEntries(table);
    }
    assert |leaves| == |Symbols(root)| && forall k :: 0 <= k < |leaves| ==>
      leaves[k].Leaf? && leaves[k].sym == Symbols(root)[k] by {
      LeavesCarrySymbols(root);
    }
    DistinctLeafSymbols(table.keys, q, leaves, Symbols(root));
  }

  /** A rearrangement of leaves with distinct symbols has distinct symbols. */
  lemma DistinctLeafSymbols(keys: seq<char>, q: seq<Tree>, leaves: seq<Tree>, syms: seq<char>)
    requires NoDup(keys) && |q| == |keys| && forall k :: 0 <= k < |q| ==> q[k].Leaf? && q[k].sym == keys[k]
    requires multiset(leaves) == multiset(q)
    requires |leaves| == |syms| && forall k :: 0 <= k < |leaves| ==> leaves[k].Leaf? && leaves[k].sym == syms[k]
    ensures NoDup(syms)
  {
    assert NoDup(q) by {
      forall i, j | 0 <= i < j < |q|
        ensures q[i] != q[j]
      {
        assert keys[i] != keys[j];
      }
    }
    NoDupOfSameMultiset(leaves, q);
    forall i, j | 0 <= i < j < |leaves|
      ensures leaves[i].sym != leaves[j].sym
    {
      LeafSymbolsDiffer(keys, q, leaves, i, j);
    }
  }

  /** Two different leaves of a queue whose symbols are distinct carry two different symbols. */
  lemma LeafSymbolsDiffer(keys: seq<char>, q: seq<Tree>, leaves: seq<Tree>, i: int, j: int)
    requires NoDup(keys) && |q| == |keys| && forall k :: 0 <= k < |q| ==> q[k].Leaf? && q[k].sym == keys[k]
    requires multiset(leaves) == multiset(q)
    requires 0 <= i < j < |leaves| && leaves[i] != leaves[j] && leaves[i].Leaf? && leaves[j].Leaf?
    ensures leaves[i].sym != leaves[j].sym
  {
    var a := IndexInSameMultiset(leaves, q, i);
    var b := IndexInSameMultiset(leaves, q, j);
    assert a != b;
    assert keys[a] != keys[b];
  }

  /**
   * A tree whose leaves are those of the first queue holds each symbol of the
   * table exactly once, and is a bare leaf exactly when the table has one entry.
   */
  lemma BuiltTreeSymbols(table: FreqTable, root: Tree)
    requires table.Valid()
    requires multiset(Leaves(root)) == multiset(InitialQueue(table))
    ensures NoDup(Symbols(root))
    ensures forall c :: c in Symbols(root) <==> c in table.keys
    ensures |Symbols(root)| == |table.keys|
    ensures root.Leaf? <==> |table.keys| == 1
  {
    var leaves, q := Leaves(root), InitialQueue(table);
    LeavesCarrySymbols(root);
    InitialQueueEntries(table);
    assert |leaves| == |multiset(leaves)| == |multiset(q)| == |q|;
    BuiltTreeSymbolSet(table, root);
    BuiltTreeNoDup(table, root);
    LeavesOfNode(root);
  }

  /**
   * The tie-break on the table a:1, b:1, c:1 and any other three keys of equal
   * weight: `a` and `b` merge first, and their parent, pushed after `c`, becomes
   * the right child of the root.
   */
  lemma ThreeEqualWeights(table: FreqTable, w: nat)
    requires table.Valid() && |table.keys| == 3
    requires forall k :: k in table.values ==> table.values[k] == w
    ensures MergeAll(SortByFreq(InitialQueue(table))) ==
      [Node(3 * w, Leaf(table.keys[2], w), Node(2 * w, Leaf(table.keys[0], w), Leaf(table.keys[1], w)))]
  {
    var a, b, c := Leaf(table.keys[0], w), Leaf(table.keys[1], w), Leaf(table.keys[2], w);
    assert InitialQueue(table) == [a, b, c] by {
      InitialQueueEntries(table);
    }
    assert SortByFreq([a, b, c]) == [a, b, c] by { SortingSortedIsIdentity([a, b, c]); }
    MergeThreeEqual([a, b, c]);
  }

  /** Three nodes of equal weight: the third is left alone while the first two merge. */
  lemma MergeThreeEqual(q: seq<Tree>)
    requires |q| == 3 && q[0].freq == q[1].freq == q[2].freq
    ensures MergeAll(q) == [Node(3 * q[0].freq, q[2], Node(2 * q[0].freq, q[0], q[1]))]
  {
    var ab := Node(q[0].freq + q[1].freq, q[0], q[1]);
    var abc := Node(q[2].freq + ab.freq, q[2], ab);
    assert MergeAll(q) == MergeAll([q[2], ab]) by {
      assert q[2..] == [q[2]];
      assert InsertByFreq([q[2]], ab) == [q[2], ab];
    }
    assert MergeAll([q[2], ab]) == MergeAll([abc]) by {
      assert [q[2], ab][2..] == [];
    }
    assert MergeAll([abc]) == [abc];
  }
}
