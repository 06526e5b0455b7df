/**
 * Sorting by a comparator. The JavaScript engine's `Array.prototype.sort` and
 * pandas' `sort_values` are library code outside the repository; both are
 * modelled by an insertion sort, and what the repository relies on is proved
 * of it: the result is a permutation of the input, ordered by the comparator
 * whenever the comparator is a total preorder. Its stability is not proved.
 */
module Sorting {

  /** Every two values are comparable. */
  ghost predicate Total<T(!new)>(le: (T, T) -> bool)
  {
    forall x, y :: le(x, y) || le(y, x)
  }

  ghost predicate Transitive<T(!new)>(le: (T, T) -> bool)
  {
    forall x, y, z :: le(x, y) && le(y, z) ==> le(x, z)
  }

  ghost predicate TotalPreorder<T(!new)>(le: (T, T) -> bool)
  {
    Total(le) && Transitive(le)
  }

  /** Every earlier element may stand before every later one. */
  ghost predicate Sorted<T>(s: seq<T>, le: (T, T) -> bool)
  {
    forall i, j :: 0 <= i < j < |s| ==> le(s[i], s[j])
  }

  /** `x` placed before the first element of `s` it may precede, or at the end. */
  function Insert<T>(x: T, s: seq<T>, le: (T, T) -> bool): (r: seq<T>)
    ensures multiset(r) == multiset(s) + multiset{x}
    ensures |r| == |s| + 1
  {
    if s == [] then [x]
    else if le(x, s[0]) then [x] + s
    else
      assert s == [s[0]] + s[1..];
      [s[0]] + Insert(x, s[1..], le)
  }

  /** Insertion sort from the back of the sequence. */
  function Sort<T>(s: seq<T>, le: (T, T) -> bool): (r: seq<T>)
    ensures multiset(r) == multiset(s)
    ensures |r| == |s|
  {
    if s == [] then []
    else
      assert s == [s[0]] + s[1..];
      Insert(s[0], Sort(s[1..], le), le)
  }

  lemma {:induction false} InsertSorted<T(!new)>(x: T, s: seq<T>, le: (T, T) -> bool)
    requires TotalPreorder(le) && Sorted(s, le)
    ensures Sorted(Insert(x, s, le), le)
  {
    if s == [] {
    } else if le(x, s[0]) {
    } else {
      var tail := Insert(x, s[1..], le);
      InsertSorted(x, s[1..], le);
      assert le(s[0], x);
      forall k | 0 <= k < |tail| ensures le(s[0], tail[k]) {
        assert tail[k] in multiset(tail);
        assert tail[k] == x || tail[k] in multiset(s[1..]);
        if tail[k] != x {
          var j :| 0 <= j < |s[1..]| && s[1..][j] == tail[k];
          assert s[j + 1] == tail[k];
        }
      }
    }
  }

  /** The sorted result is ordered by `le`. */
  lemma {:induction false} SortSorted<T(!new)>(s: seq<T>, le: (T, T) -> bool)
    requires TotalPreorder(le)
    ensures Sorted(Sort(s, le), le)
  {
    if s != [] {
      SortSorted(s[1..], le);
      InsertSorted(s[0], Sort(s[1..], le), le);
    }
  }

  /**
   * Two positions of a permutation come from two different positions of the
   * original, even when they hold equal values.
   */
  lemma PermutedPositions<T>(t: seq<T>, s: seq<T>, i: int, j: int) returns (a: int, b: int)
    requires multiset(t) == multiset(s) && 0 <= i < j < |t|
    ensures 0 <= a < |s| && 0 <= b < |s| && a != b && s[a] == t[i] && s[b] == t[j]
  {
    assert t[i] in multiset(s);
    a :| 0 <= a < |s| && s[a] == t[i];
    var rest := s[..a] + s[a + 1..];
    RemoveOne(s, a);
    assert t[j] in multiset(rest) by {
      if t[j] == t[i] {
        TwiceCounted(t, i, j);
      }
    }
    var c :| 0 <= c < |rest| && rest[c] == t[j];
    b := if c < a then c else c + 1;
    assert rest[c] == s[b];
  }

  /** Dropping position `a` removes one copy of `s[a]`. */
  lemma RemoveOne<T>(s: seq<T>, a: int)
    requires 0 <= a < |s|
    ensures multiset(s[..a] + s[a + 1..]) == multiset(s) - multiset{s[a]}
  {
    assert s == s[..a] + [s[a]] + s[a + 1..];
  }

  /** A value at two positions is counted at least twice. */
  lemma TwiceCounted<T>(t: seq<T>, i: int, j: int)
    requires 0 <= i < j < |t| && t[i] == t[j]
    ensures multiset(t)[t[i]] >= 2
  {
    assert t == t[..j] + t[j..];
    assert t[i] in multiset(t[..j]) && t[j] in multiset(t[j..]);
  }
}
