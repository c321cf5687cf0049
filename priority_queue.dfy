/**
 * The priority queue of `buildHuffmanTree`: a JavaScript array kept in order
 * by `priorityQueue.sort((a, b) => a.freq - b.freq)`. `Array.prototype.sort`
 * is stable, so nodes of equal weight keep their relative order; SortByFreq
 * models it as a stable insertion sort.
 */
module PriorityQueues {
  import opened Sequences
  import opened HuffmanTrees

  /** The queue is in ascending order of weight. */
  ghost predicate SortedByFreq(q: seq<Tree>) {
    forall i, j :: 0 <= i < j < |q| ==> q[i].freq <= q[j].freq
  }

  /** Insert `x` after every node that weighs no more than it. */
  function InsertByFreq(q: seq<Tree>, x: Tree): (r: seq<Tree>)
    ensures |r| == |q| + 1
  {
    if q == [] then [x]
    else if q[0].freq <= x.freq then [q[0]] + InsertByFreq(q[1..], x)
    else [x] + q
  }

  /** Inserting adds `x` and loses nothing. */
  lemma {:induction false} InsertByFreqPermutes(q: seq<Tree>, x: Tree)
    ensures multiset(InsertByFreq(q, x)) == multiset(q) + multiset{x}
    decreases |q|
  {
    if q != [] && q[0].freq <= x.freq {
      InsertByFreqPermutes(q[1..], x);
      assert q == [q[0]] + q[1..];
    }
  }

  /** A bound below every queued node and below `x` stays below after insertion. */
  lemma {:induction false} InsertKeepsLowerBound(q: seq<Tree>, x: Tree, w: nat)
    requires forall i :: 0 <= i < |q| ==> w <= q[i].freq
    requires w <= x.freq
    ensures forall i :: 0 <= i < |q| + 1 ==> w <= InsertByFreq(q, x)[i].freq
    decreases |q|
  {
    if q != [] && q[0].freq <= x.freq {
      InsertKeepsLowerBound(q[1..], x, w);
      var r := InsertByFreq(q, x);
      forall i | 1 <= i < |q| + 1
        ensures r[i] == InsertByFreq(q[1..], x)[i - 1]
      {
      }
    }
  }

  /** Inserting into a sorted queue keeps it sorted. */
  lemma {:induction false} InsertKeepsSorted(q: seq<Tree>, x: Tree)
    requires SortedByFreq(q)
    ensures SortedByFreq(InsertByFreq(q, x))
    decreases |q|
  {
    if q != [] && q[0].freq <= x.freq {
      var r', r := InsertByFreq(q[1..], x), InsertByFreq(q, x);
      SortedTail(q);
      InsertKeepsSorted(q[1..], x);
      InsertKeepsLowerBound(q[1..], x, q[0].freq);
      assert r == [q[0]] + r';
      forall i, j | 0 <= i < j < |r|
        ensures r[i].freq <= r[j].freq
      {
        if i > 0 {
          assert r[i] == r'[i - 1] && r[j] == r'[j - 1];
        } else {
          assert r[j] == r'[j - 1];
        }
      }
    } else if q != [] {
      var r := InsertByFreq(q, x);
      forall i, j | 0 <= i < j < |r|
        ensures r[i].freq <= r[j].freq
      {
        if i > 0 {
          assert r[i] == q[i - 1] && r[j] == q[j - 1];
        } else {
          assert r[j] == q[j - 1] && q[0].freq <= q[j - 1].freq;
        }
      }
    }
  }

  /** The result of `sort((a, b) => a.freq - b.freq)` on `s`. */
  function SortByFreq(s: seq<Tree>): (r: seq<Tree>)
    ensures |r| == |s|
    ensures multiset(r) == multiset(s)
    ensures SortedByFreq(r)
    decreases |s|
  {
    if s == [] then []
    else
      assert s == s[..|s| - 1] + [s[|s| - 1]];
      InsertKeepsSorted(SortByFreq(s[..|s| - 1]), s[|s| - 1]);
      InsertByFreqPermutes(SortByFreq(s[..|s| - 1]), s[|s| - 1]);
      InsertByFreq(SortByFreq(s[..|s| - 1]), s[|s| - 1])
  }

  /** The nodes of `s` that weigh exactly `w`, in their order in `s`. */
  function OfWeight(s: seq<Tree>, w: nat): seq<Tree> {
    if s == [] then []
    else (if s[0].freq == w then [s[0]] else []) + OfWeight(s[1..], w)
  }

  /** Selecting by weight distributes over concatenation. */
  lemma {:induction false} OfWeightAppend(a: seq<Tree>, b: seq<Tree>, w: nat)
    ensures OfWeight(a + b, w) == OfWeight(a, w) + OfWeight(b, w)
    decreases |a|
  {
    if a == [] {
      assert a + b == b;
    } else {
      TailOfConcat(a, b);
      OfWeightAppend(a[1..], b, w);
      ConcatAssoc(if a[0].freq == w then [a[0]] else [], OfWeight(a[1..], w), OfWeight(b, w));
    }
  }

  /** A queue with no node of weight `w` selects nothing. */
  lemma {:induction false} OfWeightNone(s: seq<Tree>, w: nat)
    requires forall i :: 0 <= i < |s| ==> s[i].freq != w
    ensures OfWeight(s, w) == []
    decreases |s|
  {
    if s != [] {
      OfWeightNone(s[1..], w);
    }
  }

  /** The nodes of weight `w` in a queue with a node in front. */
  lemma OfWeightCons(y: Tree, s: seq<Tree>, w: nat)
    ensures OfWeight([y] + s, w) == (if y.freq == w then [y] else []) + OfWeight(s, w)
  {
    var t := [y] + s;
    assert t[0] == y && t[1..] == s;
  }

  /** A queue of one node holds it if it weighs `w`. */
  lemma OfWeightOne(y: Tree, w: nat)
    ensures OfWeight([y], w) == if y.freq == w then [y] else []
  {
    assert [y][1..] == [];
    assert (if y.freq == w then [y] else []) + [] == if y.freq == w then [y] else [];
  }

  /** The tail of a sorted queue is sorted, and its head is the lightest. */
  lemma SortedTail(q: seq<Tree>)
    requires SortedByFreq(q) && q != []
    ensures SortedByFreq(q[1..])
    ensures forall i :: 0 <= i < |q| ==> q[0].freq <= q[i].freq
  {
  }

  /** Inserting into a sorted queue puts `x` after every node of its own weight. */
  lemma {:induction false} InsertByFreqIsStable(q: seq<Tree>, x: Tree, w: nat)
    requires SortedByFreq(q)
    ensures OfWeight(InsertByFreq(q, x), w) == OfWeight(q, w) + OfWeight([x], w)
    decreases |q|
  {
    OfWeightOne(x, w);
    if q == [] {
    } else if q[0].freq <= x.freq {
      var r' := InsertByFreq(q[1..], x);
      SortedTail(q);
      InsertByFreqIsStable(q[1..], x, w);
      OfWeightCons(q[0], r', w);
      ConcatAssoc(if q[0].freq == w then [q[0]] else [], OfWeight(q[1..], w), OfWeight([x], w));
    } else {
      OfWeightCons(x, q, w);
      if x.freq == w {
        SortedTail(q);
        OfWeightNone(q, w);
        assert [x] + [] == [] + [x];
      } else {
        assert [] + OfWeight(q, w) == OfWeight(q, w) + [];
      }
    }
  }

  /**
   * SortByFreq is a stable sort: it sorts by weight, is a permutation, and
   * keeps the nodes of each weight in their original relative order.
   */
  lemma {:induction false} SortByFreqIsStable(s: seq<Tree>, w: nat)
    ensures OfWeight(SortByFreq(s), w) == OfWeight(s, w)
    decreases |s|
  {
    if s != [] {
      var p, x := s[..|s| - 1], s[|s| - 1];
      assert s == p + [x];
      SortByFreqIsStable(p, w);
      InsertByFreqIsStable(SortByFreq(p), x, w);
      OfWeightAppend(p, [x], w);
    }
  }

  /** Appending a node to a sorted queue and re-sorting is one stable insertion. */
  lemma {:induction false} SortAfterPushIsInsert(q: seq<Tree>, x: Tree)
    requires SortedByFreq(q)
    ensures SortByFreq(q + [x]) == InsertByFreq(q, x)
    decreases |q|
  {
    assert (q + [x])[..|q|] == q;
    SortingSortedIsIdentity(q);
  }

  /** Sorting a sorted queue changes nothing. */
  lemma {:induction false} SortingSortedIsIdentity(q: seq<Tree>)
    requires SortedByFreq(q)
    ensures SortByFreq(q) == q
    decreases |q|
  {
    if q != [] {
      var p, x := q[..|q| - 1], q[|q| - 1];
      assert q == p + [x];
      SortingSortedIsIdentity(p);
      InsertAtEnd(p, x);
    }
  }

  /** A node no lighter than any queued one is inserted at the end. */
  lemma {:induction false} InsertAtEnd(q: seq<Tree>, x: Tree)
    requires forall i :: 0 <= i < |q| ==> q[i].freq <= x.freq
    ensures InsertByFreq(q, x) == q + [x]
    decreases |q|
  {
    if q != [] {
      InsertAtEnd(q[1..], x);
      assert q == [q[0]] + q[1..];
    }
  }

  /** How many leading nodes of `q` weigh no more than `x`. */
  function InsertionPoint(q: seq<Tree>, x: Tree): (k: nat)
    ensures k <= |q|
  {
    if q == [] || x.freq < q[0].freq then 0 else 1 + InsertionPoint(q[1..], x)
  }

  /** InsertByFreq puts `x` at its insertion point and leaves the rest in order. */
  lemma {:induction false} InsertByFreqSplits(q: seq<Tree>, x: Tree)
    ensures InsertByFreq(q, x) == q[..InsertionPoint(q, x)] + [x] + q[InsertionPoint(q, x)..]
    decreases |q|
  {
    if q != [] && q[0].freq <= x.freq {
      var q' := q[1..];
      var k' := InsertionPoint(q', x);
      assert InsertionPoint(q, x) == k' + 1;
      InsertByFreqSplits(q', x);
      assert InsertByFreq(q, x) == [q[0]] + (q'[..k'] + [x] + q'[k'..]);
      assert q[..k' + 1] == [q[0]] + q'[..k'];
      assert q[k' + 1..] == q'[k'..];
    } else {
      assert q[..0] == [] && q[0..] == q;
    }
  }

  /**
   * Every node before the insertion point weighs at most `x`; in a sorted
   * queue every node from it on is heavier than `x`.
   */
  lemma {:induction false} InsertionPointSeparates(q: seq<Tree>, x: Tree)
    ensures forall i :: 0 <= i < InsertionPoint(q, x) ==> q[i].freq <= x.freq
    ensures SortedByFreq(q) ==> forall i :: InsertionPoint(q, x) <= i < |q| ==> x.freq < q[i].freq
    decreases |q|
  {
    if q != [] && q[0].freq <= x.freq {
      InsertionPointSeparates(q[1..], x);
      forall i | 0 < i < |q|
        ensures q[i] == q[1..][i - 1]
      {
      }
    }
  }

  /**
   * Where the pushed node lands: after every node of weight at most its own,
   * before every heavier one, with the queue otherwise unchanged.
   */
  lemma InsertByFreqPosition(q: seq<Tree>, x: Tree) returns (k: nat)
    requires SortedByFreq(q)
    ensures k <= |q|
    ensures InsertByFreq(q, x) == q[..k] + [x] + q[k..]
    ensures forall i :: 0 <= i < k ==> q[i].freq <= x.freq
    ensures forall i :: k <= i < |q| ==> x.freq < q[i].freq
  {
    k := InsertionPoint(q, x);
    InsertByFreqSplits(q, x);
    InsertionPointSeparates(q, x);
  }
}
