/** Order-preserving filtering of a sequence by a parallel mask of booleans,
    the shape shared by `Remove`, `RemoveAllMatches` and `GetAllByName`. */
module Seqs {

  predicate Distinct<T(==)>(s: seq<T>)
  {
    forall i, j :: 0 <= i < j < |s| ==> s[i] != s[j]
  }

  /** The elements `s[i]` with `keep[i]`, in their order in `s`. */
  function Filter<T>(s: seq<T>, keep: seq<bool>): (r: seq<T>)
    requires |keep| == |s|
    ensures |r| <= |s|
  {
    if |s| == 0 then []
    else Filter(s[..|s| - 1], keep[..|s| - 1]) + (if keep[|s| - 1] then [s[|s| - 1]] else [])
  }

  /** Filtering distributes over appending one element. */
  lemma FilterSnoc<T>(s: seq<T>, keep: seq<bool>, x: T, b: bool)
    requires |keep| == |s|
    ensures Filter(s + [x], keep + [b]) == Filter(s, keep) + (if b then [x] else [])
  {
    assert (s + [x])[..|s|] == s && (keep + [b])[..|s|] == keep;
  }

  /** An element survives exactly when some kept position holds it. */
  lemma {:induction false} FilterMember<T>(s: seq<T>, keep: seq<bool>, x: T)
    requires |keep| == |s|
    ensures x in Filter(s, keep) <==> exists i :: 0 <= i < |s| && keep[i] && s[i] == x
  {
    if |s| > 0 {
      var n := |s| - 1;
      FilterMember(s[..n], keep[..n], x);
      if x in Filter(s[..n], keep[..n]) {
        var i :| 0 <= i < n && keep[..n][i] && s[..n][i] == x;
        assert keep[i] && s[i] == x;
      }
      if exists i :: 0 <= i < |s| && keep[i] && s[i] == x {
        var i :| 0 <= i < |s| && keep[i] && s[i] == x;
        if i < n {
          assert keep[..n][i] && s[..n][i] == x;
        }
      }
    }
  }

  /** The kept element at position `i` of `s` lands at the position given by
      the number of kept elements before it. */
  lemma {:induction false} FilterPosition<T>(s: seq<T>, keep: seq<bool>, i: nat)
    requires |keep| == |s| && i < |s| && keep[i]
    ensures |Filter(s[..i], keep[..i])| < |Filter(s, keep)|
    ensures Filter(s, keep)[|Filter(s[..i], keep[..i])|] == s[i]
  {
    var n := |s| - 1;
    assert s[..n][..i] == s[..i] && keep[..n][..i] == keep[..i];
    if i < n {
      FilterPosition(s[..n], keep[..n], i);
    } else {
      assert s[..n] == s[..i] && keep[..n] == keep[..i];
    }
  }

  /** Fewer leading positions never keep more elements. */
  lemma {:induction false} FilterPrefixMonotone<T>(s: seq<T>, keep: seq<bool>, i: nat, j: nat)
    requires |keep| == |s| && i <= j <= |s|
    ensures |Filter(s[..i], keep[..i])| + (if i < j && keep[i] then 1 else 0) <= |Filter(s[..j], keep[..j])|
  {
    if i < j {
      var t, m := s[..j], keep[..j];
      assert t[..j - 1] == s[..j - 1] && m[..j - 1] == keep[..j - 1];
      FilterPrefixMonotone(s, keep, i, j - 1);
      if i == j - 1 {
        assert Filter(t, m) == Filter(s[..i], keep[..i]) + (if keep[i] then [s[i]] else []);
      }
    } else {
      assert s[..i] == s[..j];
    }
  }

  /** Two kept elements keep their relative order. */
  lemma FilterKeepsOrder<T>(s: seq<T>, keep: seq<bool>, i: nat, j: nat)
    requires |keep| == |s| && i < j < |s| && keep[i] && keep[j]
    ensures exists p, q :: 0 <= p < q < |Filter(s, keep)| && Filter(s, keep)[p] == s[i] && Filter(s, keep)[q] == s[j]
  {
    FilterPosition(s, keep, i);
    FilterPosition(s, keep, j);
    FilterPrefixMonotone(s, keep, i, j);
    var p, q := |Filter(s[..i], keep[..i])|, |Filter(s[..j], keep[..j])|;
    assert Filter(s, keep)[p] == s[i] && Filter(s, keep)[q] == s[j];
  }

  /** A mask that keeps everything changes nothing. */
  lemma {:induction false} FilterAll<T>(s: seq<T>, keep: seq<bool>)
    requires |keep| == |s| && forall i :: 0 <= i < |s| ==> keep[i]
    ensures Filter(s, keep) == s
  {
    if |s| > 0 {
      FilterAll(s[..|s| - 1], keep[..|s| - 1]);
    }
  }

  lemma {:induction false} FilterDistinct<T>(s: seq<T>, keep: seq<bool>)
    requires |keep| == |s| && Distinct(s)
    ensures Distinct(Filter(s, keep))
  {
    if |s| > 0 {
      var n := |s| - 1;
      assert Distinct(s[..n]);
      FilterDistinct(s[..n], keep[..n]);
      if keep[n] {
        FilterMember(s[..n], keep[..n], s[n]);
      }
    }
  }

  /** Without duplicates, every element occurs once. */
  lemma {:induction false} DistinctCount<T>(s: seq<T>, x: T)
    requires Distinct(s)
    ensures multiset(s)[x] <= 1
  {
    if |s| > 0 {
      var n := |s| - 1;
      assert s == s[..n] + [s[n]];
      assert Distinct(s[..n]);
      DistinctCount(s[..n], x);
      if x == s[n] {
        assert x !in s[..n];
      }
    }
  }

  lemma RepeatedCount<T>(t: seq<T>, i: nat, j: nat)
    requires i < j < |t| && t[i] == t[j]
    ensures multiset(t)[t[i]] >= 2
  {
    assert t == t[..j] + [t[j]] + t[j + 1..];
    assert t[i] in t[..j];
  }

  /** Reordering a sequence without duplicates leaves it without duplicates. */
  lemma DistinctPermutation<T>(s: seq<T>, t: seq<T>)
    requires multiset(s) == multiset(t) && Distinct(s)
    ensures Distinct(t)
  {
    forall i, j | 0 <= i < j < |t|
      ensures t[i] != t[j]
    {
      if t[i] == t[j] {
        RepeatedCount(t, i, j);
        DistinctCount(s, t[i]);
        assert false;
      }
    }
  }

  /** A position at which a member of `s` occurs. */
  lemma IndexOf<T>(s: seq<T>, x: T) returns (i: nat)
    requires x in s
    ensures i < |s| && s[i] == x
  {
    i :| i < |s| && s[i] == x;
  }

  /** The prefix of a sequence's full length is the sequence. */
  lemma TakeAll<T>(s: seq<T>, i: nat)
    requires i == |s|
    ensures s[..i] == s
  { }

  /** Extending a prefix by one element. */
  lemma TakeOneMore<T>(s: seq<T>, i: nat)
    requires i < |s|
    ensures s[..i + 1] == s[..i] + [s[i]]
  { }

  /** A non-empty sequence is its prefix followed by its last element. */
  lemma ButLast<T>(s: seq<T>)
    requires |s| > 0
    ensures s == s[..|s| - 1] + [s[|s| - 1]]
  {
  }

  /** An element of a permutation of `b` sits somewhere in `b`. */
  lemma PermutedFrom<T>(a: seq<T>, b: seq<T>, k: nat) returns (i: nat)
    requires multiset(a) == multiset(b) && k < |a|
    ensures i < |b| && b[i] == a[k]
  {
    assert a[k] in multiset(b);
    assert a[k] in b;
    i :| i < |b| && b[i] == a[k];
  }
}
