/**
  Stable sorting by a total preorder, and counting.

  The order statistics of a sequence are pinned down by counting: the i-th
  smallest element is at most t exactly when more than i elements are at most t
  (`RankAtMost`). Every robustness argument in this project goes through that
  equivalence rather than through the sorting algorithm.
*/
module Sorting {

  ghost predicate TotalPreorder<T(!new)>(le: (T, T) -> bool) {
    && (forall x, y :: le(x, y) || le(y, x))
    && (forall x, y, z :: le(x, y) && le(y, z) ==> le(x, z))
  }

  ghost predicate SortedBy<T>(s: seq<T>, le: (T, T) -> bool) {
    forall i, j | 0 <= i < j < |s| :: le(s[i], s[j])
  }

  // ---------- counting ----------

  function Count<T>(s: seq<T>, p: T -> bool): (n: nat)
    ensures n <= |s|
  {
    if |s| == 0 then 0 else (if p(s[0]) then 1 else 0) + Count(s[1..], p)
  }

  /** The elements that are at most `t`. */
  function AtMost<T>(le: (T, T) -> bool, t: T): T -> bool { x => le(x, t) }

  /** The elements that are strictly below `t`. */
  function Below<T>(le: (T, T) -> bool, t: T): T -> bool { x => !le(t, x) }

  lemma {:induction false} CountMonotone<S, T>(s: seq<S>, p: S -> bool, t: seq<T>, q: T -> bool)
    requires |s| == |t|
    requires forall i | 0 <= i < |s| :: p(s[i]) ==> q(t[i])
    ensures Count(s, p) <= Count(t, q)
  {
    if |s| > 0 {
      CountMonotone(s[1..], p, t[1..], q);
    }
  }

  lemma {:induction false} CountComplement<T>(s: seq<T>, p: T -> bool, q: T -> bool)
    requires forall i | 0 <= i < |s| :: p(s[i]) <==> !q(s[i])
    ensures Count(s, p) + Count(s, q) == |s|
  {
    if |s| > 0 {
      CountComplement(s[1..], p, q);
    }
  }

  lemma {:induction false} CountAppend<T>(s: seq<T>, t: seq<T>, p: T -> bool)
    ensures Count(s + t, p) == Count(s, p) + Count(t, p)
  {
    if |s| == 0 {
      assert s + t == t;
    } else {
      assert (s + t)[1..] == s[1..] + t;
      CountAppend(s[1..], t, p);
    }
  }

  lemma {:induction false} CountPositive<T>(s: seq<T>, p: T -> bool)
    ensures Count(s, p) > 0 <==> exists i :: 0 <= i < |s| && p(s[i])
  {
    if |s| > 0 {
      CountPositive(s[1..], p);
      if Count(s[1..], p) > 0 {
        var i :| 0 <= i < |s[1..]| && p(s[1..][i]);
        assert p(s[i + 1]);
      }
      if i :| 0 <= i < |s| && p(s[i]) {
        assert i > 0 ==> p(s[1..][i - 1]);
      }
    }
  }

  lemma {:induction false} CountAll<T>(s: seq<T>, p: T -> bool)
    requires forall i | 0 <= i < |s| :: p(s[i])
    ensures Count(s, p) == |s|
  {
    if |s| > 0 {
      CountAll(s[1..], p);
    }
  }

  // ---------- sorting ----------

  /** `x` placed before the first element that is not smaller. */
  function Insert<T>(x: T, s: seq<T>, le: (T, T) -> bool): (r: seq<T>)
    ensures |r| == |s| + 1
  {
    if |s| == 0 || le(x, s[0]) then [x] + s else [s[0]] + Insert(x, s[1..], le)
  }

  /** The stable sorted arrangement of `s`. */
  function Sort<T>(s: seq<T>, le: (T, T) -> bool): (r: seq<T>)
    ensures |r| == |s|
  {
    if |s| == 0 then [] else Insert(s[0], Sort(s[1..], le), le)
  }

  lemma {:induction false} InsertMultiset<T>(x: T, s: seq<T>, le: (T, T) -> bool)
    ensures multiset(Insert(x, s, le)) == multiset{x} + multiset(s)
  {
    if |s| != 0 && !le(x, s[0]) {
      InsertMultiset(x, s[1..], le);
      assert s == [s[0]] + s[1..];
    }
  }

  /** Sorting only rearranges. */
  lemma {:induction false} SortMultiset<T>(s: seq<T>, le: (T, T) -> bool)
    ensures multiset(Sort(s, le)) == multiset(s)
  {
    if |s| > 0 {
      SortMultiset(s[1..], le);
      InsertMultiset(s[0], Sort(s[1..], le), le);
      assert s == [s[0]] + s[1..];
    }
  }

  lemma SortedElement<T>(s: seq<T>, le: (T, T) -> bool, i: nat)
    requires i < |s|
    ensures Sort(s, le)[i] in s
  {
    SortMultiset(s, le);
    assert Sort(s, le)[i] in multiset(Sort(s, le));
  }

  lemma {:induction false} InsertSorted<T(!new)>(x: T, s: seq<T>, le: (T, T) -> bool)
    requires TotalPreorder(le) && SortedBy(s, le)
    ensures SortedBy(Insert(x, s, le), le)
  {
    if |s| != 0 && !le(x, s[0]) {
      InsertSorted(x, s[1..], le);
      var r := Insert(x, s[1..], le);
      InsertMultiset(x, s[1..], le);
      forall j | 0 <= j < |r| ensures le(s[0], r[j]) {
        assert r[j] in multiset(r);
        assert r[j] == x || r[j] in s[1..];
      }
    }
  }

  lemma {:induction false} SortSorted<T(!new)>(s: seq<T>, le: (T, T) -> bool)
    requires TotalPreorder(le)
    ensures SortedBy(Sort(s, le), le)
  {
    if |s| > 0 {
      SortSorted(s[1..], le);
      InsertSorted(s[0], Sort(s[1..], le), le);
    }
  }

  lemma {:induction false} CountInsert<T>(x: T, s: seq<T>, le: (T, T) -> bool, p: T -> bool)
    ensures Count(Insert(x, s, le), p) == (if p(x) then 1 else 0) + Count(s, p)
  {
    if |s| == 0 || le(x, s[0]) {
      assert ([x] + s)[1..] == s;
    } else {
      CountInsert(x, s[1..], le, p);
      assert Insert(x, s, le)[1..] == Insert(x, s[1..], le);
    }
  }

  lemma {:induction false} CountSort<T>(s: seq<T>, le: (T, T) -> bool, p: T -> bool)
    ensures Count(Sort(s, le), p) == Count(s, p)
  {
    if |s| > 0 {
      CountSort(s[1..], le, p);
      CountInsert(s[0], Sort(s[1..], le), le, p);
    }
  }

  /** If `p` holds of a prefix of `s` and of nothing after it, the count is the prefix's length. */
  lemma {:induction false} CountDownClosed<T>(s: seq<T>, p: T -> bool, i: nat)
    requires i < |s|
    requires forall j, k | 0 <= j < k < |s| :: p(s[k]) ==> p(s[j])
    ensures Count(s, p) > i <==> p(s[i])
  {
    if i == 0 {
      CountPositive(s, p);
    } else {
      CountDownClosed(s[1..], p, i - 1);
      assert s[1..][i - 1] == s[i];
    }
  }

  /** The i-th smallest element is at most `t` exactly when more than `i` elements are. */
  lemma RankAtMost<T(!new)>(s: seq<T>, le: (T, T) -> bool, t: T, i: nat)
    requires TotalPreorder(le) && i < |s|
    ensures le(Sort(s, le)[i], t) <==> Count(s, AtMost(le, t)) > i
  {
    SortSorted(s, le);
    CountSort(s, le, AtMost(le, t));
    CountDownClosed(Sort(s, le), AtMost(le, t), i);
  }

  /** The i-th smallest element is strictly below `t` exactly when more than `i` elements are. */
  lemma RankBelow<T(!new)>(s: seq<T>, le: (T, T) -> bool, t: T, i: nat)
    requires TotalPreorder(le) && i < |s|
    ensures !le(t, Sort(s, le)[i]) <==> Count(s, Below(le, t)) > i
  {
    SortSorted(s, le);
    CountSort(s, le, Below(le, t));
    CountDownClosed(Sort(s, le), Below(le, t), i);
  }

  // ---------- the in-place form ----------

  /** Insertion walks past every element smaller than `x`. */
  lemma {:induction false} InsertSkips<T>(x: T, s: seq<T>, n: nat, le: (T, T) -> bool)
    requires n <= |s|
    requires forall k | 0 <= k < n :: !le(x, s[k])
    requires n < |s| ==> le(x, s[n])
    ensures Insert(x, s, le) == s[..n] + [x] + s[n..]
  {
    if n > 0 {
      var tail := s[1..];
      assert forall k | 0 <= k < n - 1 :: tail[k] == s[k + 1];
      InsertSkips(x, tail, n - 1, le);
      assert [s[0]] + tail[..n - 1] == s[..n] && tail[n - 1..] == s[n..];
    }
  }

  /** Moves `a[i]` right, past every later element smaller than it, to position `j`. */
  method ShiftRight<T>(a: array<T>, i: nat, le: (T, T) -> bool) returns (j: nat)
    requires i < a.Length
    modifies a
    ensures i <= j < a.Length
    ensures a[j] == old(a[i])
    ensures j + 1 < a.Length ==> le(a[j], a[j + 1])
    ensures forall k | 0 <= k < i || j < k < a.Length :: a[k] == old(a[k])
    ensures forall k | i <= k < j :: a[k] == old(a[k + 1]) && !le(a[j], a[k])
  {
    var x := a[i];
    j := i;
    while j + 1 < a.Length && !le(x, a[j + 1])
      invariant i <= j < a.Length
      invariant forall k | 0 <= k < i || j < k < a.Length :: a[k] == old(a[k])
      invariant forall k | i <= k < j :: a[k] == old(a[k + 1]) && !le(x, a[k])
    {
      a[j] := a[j + 1];
      j := j + 1;
    }
    a[j] := x;
  }

  lemma InsertMoves<T>(x: T, rest: seq<T>, n: nat, le: (T, T) -> bool, r: seq<T>)
    requires n <= |rest| && |r| == |rest| + 1 && r[n] == x
    requires forall k | 0 <= k < n :: r[k] == rest[k] && !le(x, rest[k])
    requires forall k | n <= k < |rest| :: r[k + 1] == rest[k]
    requires n < |rest| ==> le(x, rest[n])
    ensures r == Insert(x, rest, le)
  {
    InsertSkips(x, rest, n, le);
    assert r == rest[..n] + [x] + rest[n..];
  }

  /** Inserts `a[i]` into the sorted rest of the array. */
  method InsertInPlace<T>(a: array<T>, i: nat, le: (T, T) -> bool)
    requires i < a.Length
    modifies a
    ensures a[..i] == old(a[..i])
    ensures a[i..] == Insert(old(a[i]), old(a[i + 1..]), le)
  {
    ghost var x, rest := a[i], a[i + 1..];
    var j := ShiftRight(a, i, le);
    InsertMoves(x, rest, j - i, le, a[i..]);
  }

  /** Sorts the array in place; the result is the specification's arrangement. */
  method SortInPlace<T>(a: array<T>, le: (T, T) -> bool)
    modifies a
    ensures a[..] == Sort(old(a[..]), le)
  {
    var i := a.Length;
    ghost var was := a[..];
    while i > 0
      invariant 0 <= i <= a.Length
      invariant a[..i] == was[..i]
      invariant a[i..] == Sort(was[i..], le)
    {
      i := i - 1;
      assert was[i..][0] == was[i] == a[..i + 1][i] && was[i..][1..] == was[i + 1..];
      InsertInPlace(a, i, le);
    }
    assert was[0..] == was;
    assert a[0..] == a[..];
  }
}
