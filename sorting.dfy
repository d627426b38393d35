/** Ordering of ids. The source sorts cubes with `sort((a, b) => a.id - b.id)`;
    once a cube is reduced to its id, that sort is `SortIds` below. */
module Sorting {

  /** Ascending (non-strictly) order. */
  predicate Sorted(s: seq<nat>)
  {
    forall i, j :: 0 <= i < j < |s| ==> s[i] <= s[j]
  }

  /** Every id occurs at most once. */
  predicate Distinct(s: seq<nat>)
  {
    forall x | x in multiset(s) :: multiset(s)[x] == 1
  }

  /** Inserts `x` into an ascending sequence at the first place where it fits. */
  function Insert(x: nat, s: seq<nat>): (r: seq<nat>)
    requires Sorted(s)
    ensures Sorted(r)
    ensures multiset(r) == multiset(s) + multiset{x}
    ensures |r| == |s| + 1
  {
    if s == [] then [x]
    else if x <= s[0] then [x] + s
    else
      var rest := Insert(x, s[1..]);
      assert s == [s[0]] + s[1..];
      LowerBound(s[0], s[1..], x, rest);
      [s[0]] + rest
  }

  /** A lower bound of `t` and of `x` bounds every element of a sequence holding
      the elements of `t` and `x`. */
  lemma LowerBound(h: nat, t: seq<nat>, x: nat, rest: seq<nat>)
    requires forall k :: 0 <= k < |t| ==> h <= t[k]
    requires h <= x
    requires multiset(rest) == multiset(t) + multiset{x}
    ensures forall k :: 0 <= k < |rest| ==> h <= rest[k]
  {
    forall k | 0 <= k < |rest| ensures h <= rest[k] {
      assert rest[k] in multiset(rest);
      if rest[k] != x {
        assert rest[k] in multiset(t);
        var j :| 0 <= j < |t| && t[j] == rest[k];
      }
    }
  }

  /** The ascending arrangement of a sequence of ids (insertion sort). */
  function SortIds(s: seq<nat>): (r: seq<nat>)
    ensures Sorted(r)
    ensures multiset(r) == multiset(s)
    ensures |r| == |s|
  {
    if s == [] then []
    else
      assert s == [s[0]] + s[1..];
      Insert(s[0], SortIds(s[1..]))
  }

  /** The head of an ascending sequence is its least element. */
  lemma SortedHead(s: seq<nat>, x: nat)
    requires Sorted(s) && x in multiset(s)
    ensures s[0] <= x
  {
    assert x in s;
    var i :| 0 <= i < |s| && s[i] == x;
  }

  /** Two non-empty ascending sequences with the same elements start alike and
      continue with ascending tails holding the same elements. */
  lemma SortedHeadTail(a: seq<nat>, b: seq<nat>)
    requires Sorted(a) && Sorted(b) && multiset(a) == multiset(b) && a != [] && b != []
    ensures a[0] == b[0] && Sorted(a[1..]) && Sorted(b[1..])
    ensures multiset(a[1..]) == multiset(b[1..])
  {
    assert a == [a[0]] + a[1..] && b == [b[0]] + b[1..];
    assert a[0] in multiset(a) && b[0] in multiset(b);
    SortedHead(a, b[0]);
    SortedHead(b, a[0]);
    assert multiset(a[1..]) == multiset(a) - multiset{a[0]};
    assert multiset(b[1..]) == multiset(b) - multiset{b[0]};
  }

  /** Two ascending sequences with the same elements are equal: there is only one
      way to sort a collection of ids. */
  lemma {:induction false} SortedUnique(a: seq<nat>, b: seq<nat>)
    requires Sorted(a) && Sorted(b) && multiset(a) == multiset(b)
    ensures a == b
    decreases |a|
  {
    assert |a| == |multiset(a)| == |multiset(b)| == |b|;
    if a != [] {
      SortedHeadTail(a, b);
      SortedUnique(a[1..], b[1..]);
      assert a == [a[0]] + a[1..] && b == [b[0]] + b[1..];
    }
  }

  /** Sorting an already ascending sequence changes nothing. */
  lemma SortIdsOfSorted(s: seq<nat>)
    requires Sorted(s)
    ensures SortIds(s) == s
  {
    SortedUnique(SortIds(s), s);
  }

  /** Cutting an ascending sequence: nothing before the cut exceeds anything after it. */
  lemma SortedCut(s: seq<nat>, n: nat)
    requires Sorted(s) && n <= |s|
    ensures forall x, y | x in s[..n] && y in s[n..] :: x <= y
  {
    forall x, y | x in s[..n] && y in s[n..] ensures x <= y {
      var i :| 0 <= i < n && s[..n][i] == x;
      var j :| 0 <= j < |s| - n && s[n..][j] == y;
      assert s[i] == x && s[n + j] == y;
    }
  }

  /** Joining two ascending sequences, the first wholly below the second, keeps
      the order. */
  lemma SortedAppend(a: seq<nat>, b: seq<nat>, bound: nat)
    requires Sorted(a) && Sorted(b)
    requires forall x | x in a :: x < bound
    requires forall y | y in b :: bound <= y
    ensures Sorted(a + b)
  {
    var p := a + b;
    forall i, j | 0 <= i < j < |p| ensures p[i] <= p[j] {
      if j < |a| {
        assert p[i] == a[i] && p[j] == a[j];
      } else if i < |a| {
        assert p[i] in a && p[j] in b;
      } else {
        assert p[i] == b[i - |a|] && p[j] == b[j - |a|];
      }
    }
  }

  /** Whether ids are distinct depends only on the multiset of ids. */
  lemma DistinctMultiset(a: seq<nat>, b: seq<nat>)
    requires multiset(a) == multiset(b)
    ensures Distinct(a) <==> Distinct(b)
  {
  }

  /** A prefix of a sequence of distinct ids has distinct ids. */
  lemma DistinctPrefix(s: seq<nat>, n: nat)
    requires Distinct(s) && n <= |s|
    ensures Distinct(s[..n])
  {
    assert s == s[..n] + s[n..];
    assert multiset(s) == multiset(s[..n]) + multiset(s[n..]);
    forall x | x in multiset(s[..n]) ensures multiset(s[..n])[x] == 1 {
      assert x in multiset(s);
    }
  }

  /** Appending an id that is not yet present keeps the ids distinct. */
  lemma DistinctAppend(s: seq<nat>, x: nat)
    requires Distinct(s) && x !in s
    ensures Distinct(s + [x])
  {
    assert multiset(s + [x]) == multiset(s) + multiset{x};
  }
}
