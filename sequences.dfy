/** Facts about sequences that the models below share. */
module Sequences {

  /** No element of `s` occurs twice. */
  ghost predicate NoDup<T>(s: seq<T>) {
    forall i, j :: 0 <= i < j < |s| ==> s[i] != s[j]
  }

  /** A sequence without duplicates holds each element at most once. */
  lemma {:induction false} NoDupCount<T>(s: seq<T>, x: T)
    requires NoDup(s)
    ensures multiset(s)[x] <= 1
    decreases |s|
  {
    if s != [] {
      NoDupCount(s[1..], x);
      assert s == [s[0]] + s[1..];
      if s[0] == x {
        assert x !in s[1..];
      }
    }
  }

  /** Two distinct positions holding the same element make it occur twice. */
  lemma {:induction false} RepeatCount<T>(s: seq<T>, i: int, j: int)
    requires 0 <= i < j < |s| && s[i] == s[j]
    ensures multiset(s)[s[i]] >= 2
  {
    assert s == s[..i] + [s[i]] + s[i + 1..j] + [s[j]] + s[j + 1..];
  }

  /** Concatenation is associative. */
  lemma ConcatAssoc<T>(a: seq<T>, b: seq<T>, c: seq<T>)
    ensures a + b + c == a + (b + c)
  {
  }

  /** The halves of a sequence without duplicates have none and share nothing. */
  lemma NoDupSplit<T>(a: seq<T>, b: seq<T>)
    requires NoDup(a + b)
    ensures NoDup(a) && NoDup(b)
    ensures forall x :: x in a ==> x !in b
  {
    forall i, j | 0 <= i < j < |a|
      ensures a[i] != a[j]
    {
      assert (a + b)[i] == a[i] && (a + b)[j] == a[j];
    }
    forall i, j | 0 <= i < j < |b|
      ensures b[i] != b[j]
    {
      assert (a + b)[|a| + i] == b[i] && (a + b)[|a| + j] == b[j];
    }
    forall x | x in a
      ensures x !in b
    {
      var i :| 0 <= i < |a| && a[i] == x;
      assert (a + b)[i] == x;
      forall j | 0 <= j < |b|
        ensures b[j] != x
      {
        assert (a + b)[|a| + j] == b[j];
      }
    }
  }

  /** A middle part counts as if it came last. */
  lemma MultisetOfMiddle<T>(a: seq<T>, x: seq<T>, b: seq<T>)
    ensures multiset(a + x + b) == multiset(a + b) + multiset(x)
  {
  }

  /** Rotating three parts keeps the elements. */
  lemma MultisetOfRotation<T>(a: seq<T>, b: seq<T>, c: seq<T>)
    ensures multiset(a + (b + c)) == multiset(c + (a + b))
  {
  }

  /** Dropping the head of a concatenation drops the head of its first part. */
  lemma TailOfConcat<T>(a: seq<T>, b: seq<T>)
    requires a != []
    ensures (a + b)[0] == a[0] && (a + b)[1..] == a[1..] + b
  {
  }

  /** An element of `a` is found in any sequence with the same elements. */
  lemma IndexInSameMultiset<T>(a: seq<T>, b: seq<T>, i: int) returns (j: int)
    requires multiset(a) == multiset(b) && 0 <= i < |a|
    ensures 0 <= j < |b| && b[j] == a[i]
  {
    assert a[i] in multiset(b);
    j :| 0 <= j < |b| && b[j] == a[i];
  }

  /** A rearrangement of a sequence without duplicates has none either. */
  lemma NoDupOfSameMultiset<T>(a: seq<T>, b: seq<T>)
    requires multiset(a) == multiset(b) && NoDup(b)
    ensures NoDup(a)
  {
    forall i, j | 0 <= i < j < |a|
      ensures a[i] != a[j]
    {
      if a[i] == a[j] {
        RepeatCount(a, i, j);
        NoDupCount(b, a[i]);
      }
    }
  }

  /** Dropping the head twice drops the first two elements. */
  lemma TailOfTail<T>(a: seq<T>)
    requires |a| >= 2
    ensures a[1..][0] == a[1] && a[1..][1..] == a[2..]
  {
  }
}
