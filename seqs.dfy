/** Generic facts about sequences: distinct elements, and the sort used for every ordering in the output. */
module Seqs {

  /** No element occurs twice. */
  predicate NoDup<T(==)>(s: seq<T>) {
    forall i, j :: 0 <= i < j < |s| ==> s[i] != s[j]
  }

  /** Every adjacent pair is in order. */
  predicate Sorted<T>(s: seq<T>, le: (T, T) -> bool) {
    forall i :: 0 < i < |s| ==> le(s[i - 1], s[i])
  }

  /** `le` compares every two elements of `s` one way or the other. */
  predicate TotalOn<T>(s: seq<T>, le: (T, T) -> bool) {
    forall i, j :: 0 <= i < |s| && 0 <= j < |s| ==> le(s[i], s[j]) || le(s[j], s[i])
  }

  /** Inserts `x` in front of the first element it is `le` to; stable for equal elements. */
  function Insert<T>(x: T, s: seq<T>, le: (T, T) -> bool): (r: seq<T>)
    ensures multiset(r) == multiset(s) + multiset{x}
    ensures |r| == |s| + 1
    ensures r[0] == x || (s != [] && r[0] == s[0])
  {
    if s == [] || le(x, s[0]) then [x] + s
    else
      var t := Insert(x, s[1..], le);
      assert s == [s[0]] + s[1..];
      [s[0]] + t
  }

  /** Inserting an element that compares with every element of a sorted sequence keeps it sorted. */
  lemma {:induction false} InsertSorted<T>(x: T, s: seq<T>, le: (T, T) -> bool)
    requires Sorted(s, le) && forall i :: 0 <= i < |s| ==> le(x, s[i]) || le(s[i], x)
    ensures Sorted(Insert(x, s, le), le)
  {
    if s != [] && !le(x, s[0]) {
      var t := Insert(x, s[1..], le);
      InsertSorted(x, s[1..], le);
      var r := [s[0]] + t;
      assert le(s[0], t[0]) by {
        if |s| > 1 {
          assert le(s[0], s[1]);
        }
      }
      forall i | 1 < i < |r| ensures le(r[i - 1], r[i]) {
        assert r[i - 1] == t[i - 2] && r[i] == t[i - 1];
      }
    }
  }

  /** Insertion sort: a permutation of `s` that is sorted whenever `le` is total on `s`. */
  function Sort<T>(s: seq<T>, le: (T, T) -> bool): (r: seq<T>)
    ensures multiset(r) == multiset(s)
    ensures |r| == |s|
    ensures TotalOn(s, le) ==> Sorted(r, le)
  {
    if s == [] then []
    else
      assert s == [s[0]] + s[1..];
      var t := Sort(s[1..], le);
      HeadComparable(s, t, le);
      if TotalOn(s, le) then
        InsertSorted(s[0], t, le);
        Insert(s[0], t, le)
      else Insert(s[0], t, le)
  }

  /** If `le` is total on `s`, the head of `s` compares with every element of a permutation of its tail. */
  lemma HeadComparable<T>(s: seq<T>, t: seq<T>, le: (T, T) -> bool)
    requires s != [] && multiset(t) == multiset(s[1..])
    ensures TotalOn(s, le) ==> TotalOn(s[1..], le) && forall i :: 0 <= i < |t| ==> le(s[0], t[i]) || le(t[i], s[0])
  {
    if TotalOn(s, le) {
      forall i | 0 <= i < |t| ensures le(s[0], t[i]) || le(t[i], s[0]) {
        assert t[i] in multiset(s[1..]);
        var j :| 0 <= j < |s[1..]| && s[1..][j] == t[i];
        assert s[j + 1] == t[i];
      }
    }
  }

  /** Sequences with the same multiset have the same elements. */
  lemma SameElements<T>(s: seq<T>, r: seq<T>)
    requires multiset(r) == multiset(s)
    ensures forall x :: x in r <==> x in s
  {
    forall x ensures x in r <==> x in s {
      assert x in r <==> x in multiset(r);
      assert x in s <==> x in multiset(s);
    }
  }

  /** Sorting a sequence without repetitions gives one without repetitions. */
  lemma {:induction false} PermutationNoDup<T>(s: seq<T>, r: seq<T>)
    requires multiset(r) == multiset(s) && NoDup(s)
    ensures NoDup(r)
  {
    if !NoDup(r) {
      var i, j :| 0 <= i < j < |r| && r[i] == r[j];
      assert multiset(r)[r[i]] >= 2 by {
        assert r == r[..i] + [r[i]] + r[i + 1..];
        assert r[j] in r[i + 1..];
      }
      CountAtMostOne(s, r[i]);
    }
  }

  lemma {:induction false} CountAtMostOne<T>(s: seq<T>, x: T)
    requires NoDup(s)
    ensures multiset(s)[x] <= 1
  {
    if s != [] {
      assert s == [s[0]] + s[1..];
      assert NoDup(s[1..]);
      CountAtMostOne(s[1..], x);
      if s[0] == x {
        assert x !in s[1..];
      }
    }
  }

  /** A sequence without repetitions has as many elements as the set of its elements. */
  lemma {:induction false} NoDupCardinality(s: seq<string>)
    requires NoDup(s)
    ensures |set x | x in s| == |s|
  {
    if s != [] {
      var init, last := s[..|s| - 1], s[|s| - 1];
      assert s == init + [last];
      NoDupCardinality(init);
      assert (set x | x in s) == (set x | x in init) + {last};
    }
  }

  /** Position of the first occurrence of `x` in `s`. */
  function IndexOf<T(==)>(s: seq<T>, x: T): (i: nat)
    requires x in s
    ensures i < |s| && s[i] == x && x !in s[..i]
  {
    if s[0] == x then 0 else 1 + IndexOf(s[1..], x)
  }

  /** An element occurring only at the end of `s` is first found there. */
  lemma IndexOfLast<T>(s: seq<T>)
    requires s != [] && s[|s| - 1] !in s[..|s| - 1]
    ensures IndexOf(s, s[|s| - 1]) == |s| - 1
  {
  }

  /** The first occurrence of `x` in a prefix of `s` is its first occurrence in `s`. */
  lemma {:induction false} IndexOfPrefix<T>(s: seq<T>, n: nat, x: T)
    requires n <= |s| && x in s[..n]
    ensures x in s && IndexOf(s[..n], x) == IndexOf(s, x)
  {
    var i := IndexOf(s[..n], x);
    assert s[..n][..i] == s[..i];
  }

  /** `b` occurs in `a` as the contiguous run starting at `off`. */
  predicate RunAt<T(==)>(a: seq<T>, off: nat, b: seq<T>) {
    off + |b| <= |a| && forall m :: 0 <= m < |b| ==> a[off + m] == b[m]
  }

  /** A run of the second part of a concatenation is a run of the whole, `|a|` places later. */
  lemma RunInSuffix<T>(ab: seq<T>, a: seq<T>, b: seq<T>, off: nat, c: seq<T>)
    requires ab == a + b && RunAt(b, off, c)
    ensures RunAt(ab, |a| + off, c)
  {
    forall m | 0 <= m < |c| ensures ab[|a| + off + m] == c[m] {
      assert ab[|a| + (off + m)] == b[off + m];
    }
  }

  /** The first part of a concatenation is a run of it, at its start. */
  lemma RunInPrefix<T>(ab: seq<T>, a: seq<T>, b: seq<T>)
    requires ab == a + b
    ensures RunAt(ab, 0, a)
  {
  }

  /** A run of a run is a run of the whole. */
  lemma RunOfRun<T>(a: seq<T>, i: nat, b: seq<T>, j: nat, c: seq<T>)
    requires RunAt(a, i, b) && RunAt(b, j, c)
    ensures RunAt(a, i + j, c)
  {
    forall m | 0 <= m < |c| ensures a[i + j + m] == c[m] {
      assert a[i + (j + m)] == b[j + m];
    }
  }
}
