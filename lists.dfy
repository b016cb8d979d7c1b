/**
 * The Python list operations the frame loop relies on, on sequences:
 * `list.remove(x)` deletes the first element equal to x (and raises when
 * there is none, which the frame loop never meets).
 */
module Lists {

  /** No element occurs twice: each element is missing from the elements before it. */
  predicate Distinct<T(==)>(s: seq<T>)
  {
    s == [] || (Distinct(s[..|s| - 1]) && s[|s| - 1] !in s[..|s| - 1])
  }

  /** Without repeats, two different slots hold different elements. */
  lemma {:induction false} DistinctPairs<T>(s: seq<T>)
    requires Distinct(s)
    ensures forall a, b :: 0 <= a < b < |s| ==> s[a] != s[b]
  {
    if s != [] {
      var n := |s| - 1;
      DistinctPairs(s[..n]);
      forall a, b | 0 <= a < b < |s|
        ensures s[a] != s[b]
      {
        assert s[..n][a] == s[a];
        if b < n {
          assert s[..n][b] == s[b];
        }
      }
    }
  }

  /** Different slots holding different elements means no repeats. */
  lemma {:induction false} PairsDistinct<T>(s: seq<T>)
    requires forall a, b :: 0 <= a < b < |s| ==> s[a] != s[b]
    ensures Distinct(s)
  {
    if s != [] {
      var n := |s| - 1;
      PairsDistinct(s[..n]);
      forall a | 0 <= a < n
        ensures s[..n][a] != s[n]
      {
        assert s[..n][a] == s[a];
      }
    }
  }

  /** A prefix of a sequence without repeats has none, and the next element is not in it. */
  lemma DistinctPrefix<T>(s: seq<T>, n: nat)
    requires Distinct(s) && n <= |s|
    ensures Distinct(s[..n])
    ensures n < |s| ==> s[n] !in s[..n]
  {
    DistinctPairs(s);
    PairsDistinct(s[..n]);
  }

  /** Appending an element that is not there yet keeps a sequence free of repeats. */
  lemma DistinctSnoc<T>(s: seq<T>, x: T)
    requires Distinct(s) && x !in s
    ensures Distinct(s + [x])
  {
    assert (s + [x])[..|s|] == s;
  }

  /**
   * `list.remove(x)`: the first occurrence of x is deleted. Python raises
   * ValueError when x is missing, so x must be in the list.
   */
  function RemoveFirst<T(==)>(s: seq<T>, x: T): (r: seq<T>)
    requires x in s
    ensures |r| == |s| - 1
  {
    assert s == [s[0]] + s[1..];
    if s[0] == x then s[1..] else [s[0]] + RemoveFirst(s[1..], x)
  }

  /** Removing x takes exactly one copy of x out of the multiset of elements. */
  lemma {:induction false} RemoveFirstMultiset<T>(s: seq<T>, x: T)
    requires x in s
    ensures multiset(RemoveFirst(s, x)) == multiset(s) - multiset{x}
  {
    assert s == [s[0]] + s[1..];
    if s[0] != x {
      RemoveFirstMultiset(s[1..], x);
    }
  }

  /** When x first occurs at index i, removing x deletes exactly slot i. */
  lemma {:induction false} RemoveFirstAt<T>(s: seq<T>, i: nat)
    requires i < |s| && s[i] !in s[..i]
    ensures RemoveFirst(s, s[i]) == s[..i] + s[i + 1..]
  {
    if i > 0 {
      assert s[0] != s[i] by { assert s[0] in s[..i]; }
      assert s[1..][i - 1] == s[i];
      assert s[1..][..i - 1] == s[1..i];
      assert s[i] !in s[1..][..i - 1];
      RemoveFirstAt(s[1..], i - 1);
      assert s[1..][..i - 1] + s[1..][i..] == s[1..i] + s[i + 1..];
      assert [s[0]] + s[1..i] == s[..i];
    }
  }
}
