/** The stable sort of `Block.sort`: `sort.SliceStable` modelled as a stable
    insertion sort, the algorithm Go's stable sort runs on runs of up to 20
    elements. */
module Sorting {
  import opened Seqs
  import opened Tree
  import opened Ordering

  /** One pass of insertion sort: `x` enters after the run `s` and moves left
      past every element it is less than. */
  function Insert(cmp: Comparator, level: int, s: seq<Node>, x: Node): (r: seq<Node>)
    ensures |r| == |s| + 1
    ensures multiset(r) == multiset(s) + multiset{x}
    ensures r[|s|] == x || (|s| > 0 && r[|s|] == s[|s| - 1])
    decreases |s|
  {
    if |s| == 0 then [x]
    else if cmp(level, x.key, s[|s| - 1].key) then
      assert s == s[..|s| - 1] + [s[|s| - 1]];
      Insert(cmp, level, s[..|s| - 1], x) + [s[|s| - 1]]
    else s + [x]
  }

  /** Sorting always yields a permutation of the siblings. */
  function SortNodes(cmp: Comparator, level: int, s: seq<Node>): (r: seq<Node>)
    ensures |r| == |s| && multiset(r) == multiset(s)
    decreases |s|
  {
    if |s| == 0 then []
    else
      assert s == s[..|s| - 1] + [s[|s| - 1]];
      Insert(cmp, level, SortNodes(cmp, level, s[..|s| - 1]), s[|s| - 1])
  }

  /** No element is less than its left neighbour. */
  ghost predicate AdjacentSorted(cmp: Comparator, level: int, s: seq<Node>)
  {
    forall i :: 0 < i < |s| ==> !cmp(level, s[i].key, s[i - 1].key)
  }

  /** No element is less than any element to its left. */
  ghost predicate Sorted(cmp: Comparator, level: int, s: seq<Node>)
  {
    forall i, j :: 0 <= i < j < |s| ==> !cmp(level, s[j].key, s[i].key)
  }

  ghost predicate AsymmetricOn(cmp: Comparator, level: int, s: seq<Node>)
  {
    forall x, y :: x in s && y in s && cmp(level, x.key, y.key) ==> !cmp(level, y.key, x.key)
  }

  /** The comparator is a strict weak order on the elements of `s`:
      asymmetric, and "not less" is transitive. */
  ghost predicate StrictWeakOn(cmp: Comparator, level: int, s: seq<Node>)
  {
    && AsymmetricOn(cmp, level, s)
    && forall x, y, z {:trigger cmp(level, x.key, y.key), cmp(level, y.key, z.key)} :: x in s && y in s && z in s && !cmp(level, x.key, y.key) && !cmp(level, y.key, z.key) ==> !cmp(level, x.key, z.key)
  }

  /** Every global directive comes before every directive with arguments. */
  ghost predicate Partitioned(s: seq<Node>)
  {
    forall i, j :: 0 <= i < j < |s| && IsGlobal(s[j].key) ==> IsGlobal(s[i].key)
  }

  /** The positions of `s` holding a node with the given sort keys. */
  function TieMask(s: seq<Node>, t: (int, string, seq<string>, string)): (m: seq<bool>)
    ensures |m| == |s|
  {
    seq(|s|, i requires 0 <= i < |s| => TieKey(s[i].key) == t)
  }

  lemma TieMaskSnoc(s: seq<Node>, x: Node, t: (int, string, seq<string>, string))
    ensures TieMask(s + [x], t) == TieMask(s, t) + [TieKey(x.key) == t]
  {
  }

  /** An element not less than the last one stays at the end. */
  lemma InsertAtEnd(cmp: Comparator, level: int, s: seq<Node>, x: Node)
    requires |s| == 0 || !cmp(level, x.key, s[|s| - 1].key)
    ensures Insert(cmp, level, s, x) == s + [x]
  {
  }

  /** Insertion sort leaves a sequence without inversions unchanged. */
  lemma {:induction false} SortFixesSorted(cmp: Comparator, level: int, s: seq<Node>)
    requires AdjacentSorted(cmp, level, s)
    ensures SortNodes(cmp, level, s) == s
  {
    if |s| > 0 {
      var n := |s| - 1;
      var p := s[..n];
      ButLast(s);
      assert AdjacentSorted(cmp, level, p);
      SortFixesSorted(cmp, level, p);
      assert n > 0 ==> p[n - 1] == s[n - 1];
      InsertAtEnd(cmp, level, p, s[n]);
    }
  }

  lemma {:induction false} InsertAdjacentSorted(cmp: Comparator, level: int, s: seq<Node>, x: Node)
    requires AdjacentSorted(cmp, level, s) && AsymmetricOn(cmp, level, s + [x])
    ensures AdjacentSorted(cmp, level, Insert(cmp, level, s, x))
  {
    if |s| > 0 && cmp(level, x.key, s[|s| - 1].key) {
      var n := |s| - 1;
      var s' := s[..n];
      assert AdjacentSorted(cmp, level, s');
      assert forall y :: y in s' + [x] ==> y in s + [x];
      InsertAdjacentSorted(cmp, level, s', x);
      var r' := Insert(cmp, level, s', x);
      assert s[n] in s + [x] && x in s + [x];
      assert r'[n] == x || (n > 0 && r'[n] == s[n - 1]);
    }
  }

  /** When the comparator is asymmetric on the siblings, the sort leaves no
      element less than its left neighbour. */
  lemma {:induction false} SortAdjacentSorted(cmp: Comparator, level: int, s: seq<Node>)
    requires AsymmetricOn(cmp, level, s)
    ensures AdjacentSorted(cmp, level, SortNodes(cmp, level, s))
  {
    if |s| > 0 {
      var n := |s| - 1;
      var s' := s[..n];
      assert forall y :: y in s' ==> y in s;
      SortAdjacentSorted(cmp, level, s');
      var r' := SortNodes(cmp, level, s');
      forall y | y in r' + [s[n]] ensures y in s {
        if y in r' {
          assert y in multiset(r');
        }
      }
      InsertAdjacentSorted(cmp, level, r', s[n]);
    }
  }

  /** Sorting twice is sorting once, whenever the comparator is asymmetric on
      the siblings; transitivity is not needed. */
  lemma SortIdempotent(cmp: Comparator, level: int, s: seq<Node>)
    requires AsymmetricOn(cmp, level, s)
    ensures SortNodes(cmp, level, SortNodes(cmp, level, s)) == SortNodes(cmp, level, s)
  {
    SortAdjacentSorted(cmp, level, s);
    SortFixesSorted(cmp, level, SortNodes(cmp, level, s));
  }

  lemma StrictWeakSubset(cmp: Comparator, level: int, s: seq<Node>, t: seq<Node>)
    requires StrictWeakOn(cmp, level, s) && forall y :: y in t ==> y in s
    ensures StrictWeakOn(cmp, level, t)
  {
  }

  lemma SortedSnoc(cmp: Comparator, level: int, s: seq<Node>, y: Node)
    requires Sorted(cmp, level, s) && forall i :: 0 <= i < |s| ==> !cmp(level, y.key, s[i].key)
    ensures Sorted(cmp, level, s + [y])
  {
  }

  /** The last sibling is not less than any node of the left part after a
      smaller node was inserted there. */
  lemma LastNotBelow(cmp: Comparator, level: int, s: seq<Node>, x: Node, r: seq<Node>)
    requires |s| > 0 && Sorted(cmp, level, s) && AsymmetricOn(cmp, level, s + [x])
    requires cmp(level, x.key, s[|s| - 1].key)
    requires multiset(r) == multiset(s[..|s| - 1]) + multiset{x}
    ensures forall i :: 0 <= i < |r| ==> !cmp(level, s[|s| - 1].key, r[i].key)
  {
    var n := |s| - 1;
    assert s[n] in s + [x] && x in s + [x];
    forall i | 0 <= i < |r|
      ensures !cmp(level, s[n].key, r[i].key)
    {
      var y := r[i];
      assert y in multiset(r);
      if y != x {
        assert y in multiset(s[..n]);
        var k :| 0 <= k < n && s[..n][k] == y;
        assert s[k] == y;
      }
    }
  }

  /** A node not less than the last sibling is not less than any sibling. */
  lemma NotBelowAny(cmp: Comparator, level: int, s: seq<Node>, x: Node)
    requires |s| > 0 && Sorted(cmp, level, s) && StrictWeakOn(cmp, level, s + [x])
    requires !cmp(level, x.key, s[|s| - 1].key)
    ensures forall i :: 0 <= i < |s| ==> !cmp(level, x.key, s[i].key)
  {
    var n := |s| - 1;
    assert s[n] in s + [x] && x in s + [x];
    forall i | 0 <= i < |s|
      ensures !cmp(level, x.key, s[i].key)
    {
      assert s[i] in s + [x];
    }
  }

  lemma {:induction false} InsertSorted(cmp: Comparator, level: int, s: seq<Node>, x: Node)
    requires Sorted(cmp, level, s) && StrictWeakOn(cmp, level, s + [x])
    ensures Sorted(cmp, level, Insert(cmp, level, s, x))
  {
    if |s| > 0 {
      var n := |s| - 1;
      var s', last := s[..n], s[n];
      if cmp(level, x.key, last.key) {
        assert forall y :: y in s' + [x] ==> y in s + [x];
        StrictWeakSubset(cmp, level, s + [x], s' + [x]);
        InsertSorted(cmp, level, s', x);
        var r' := Insert(cmp, level, s', x);
        LastNotBelow(cmp, level, s, x, r');
        SortedSnoc(cmp, level, r', last);
        assert Insert(cmp, level, s, x) == r' + [last];
      } else {
        NotBelowAny(cmp, level, s, x);
        SortedSnoc(cmp, level, s, x);
      }
    }
  }

  /** When the comparator is a strict weak order on the siblings, the sort
      leaves no element less than any element before it. */
  lemma {:induction false} SortSorted(cmp: Comparator, level: int, s: seq<Node>)
    requires StrictWeakOn(cmp, level, s)
    ensures Sorted(cmp, level, SortNodes(cmp, level, s))
  {
    if |s| > 0 {
      var n := |s| - 1;
      var s' := s[..n];
      assert forall y :: y in s' ==> y in s;
      SortSorted(cmp, level, s');
      var r' := SortNodes(cmp, level, s');
      forall y | y in r' + [s[n]] ensures y in s {
        if y in r' {
          assert y in multiset(r');
        }
      }
      InsertSorted(cmp, level, r', s[n]);
    }
  }

  /** Appending a node appends it to the siblings tied with `t` exactly when
      it is tied with `t`. */
  lemma TiesSnoc(s: seq<Node>, x: Node, t: (int, string, seq<string>, string))
    ensures Filter(s + [x], TieMask(s + [x], t)) == Filter(s, TieMask(s, t)) + (if TieKey(x.key) == t then [x] else [])
  {
    TieMaskSnoc(s, x, t);
    FilterSnoc(s, TieMask(s, t), x, TieKey(x.key) == t);
  }

  /** A node less than the last sibling is inserted before it. */
  lemma InsertBeforeLast(cmp: Comparator, level: int, s: seq<Node>, last: Node, x: Node)
    requires cmp(level, x.key, last.key)
    ensures Insert(cmp, level, s + [last], x) == Insert(cmp, level, s, x) + [last]
  {
    assert (s + [last])[..|s|] == s;
  }

  /** Appending `last` to two sequences whose tied nodes differ by `x` at the
      end keeps that difference when `x` and `last` are not both tied. */
  lemma TiesSwap(r: seq<Node>, s: seq<Node>, last: Node, x: Node, t: (int, string, seq<string>, string))
    requires !(TieKey(x.key) == t && TieKey(last.key) == t)
    requires Filter(r, TieMask(r, t)) == Filter(s, TieMask(s, t)) + (if TieKey(x.key) == t then [x] else [])
    ensures Filter(r + [last], TieMask(r + [last], t))
         == Filter(s + [last], TieMask(s + [last], t)) + (if TieKey(x.key) == t then [x] else [])
  {
    TiesSnoc(r, last, t);
    TiesSnoc(s, last, t);
  }

  lemma {:induction false} InsertStable(cmp: Comparator, level: int, s: seq<Node>, x: Node, t: (int, string, seq<string>, string))
    requires RespectsTies(cmp, level)
    ensures Filter(Insert(cmp, level, s, x), TieMask(Insert(cmp, level, s, x), t))
         == Filter(s, TieMask(s, t)) + (if TieKey(x.key) == t then [x] else [])
  {
    if |s| == 0 {
      TiesSnoc([], x, t);
      assert Insert(cmp, level, s, x) == [] + [x];
    } else {
      var n := |s| - 1;
      var s', last := s[..n], s[n];
      assert s == s' + [last];
      if cmp(level, x.key, last.key) {
        InsertStable(cmp, level, s', x, t);
        InsertBeforeLast(cmp, level, s', last, x);
        assert !(TieKey(x.key) == t && TieKey(last.key) == t);
        TiesSwap(Insert(cmp, level, s', x), s', last, x, t);
      } else {
        assert Insert(cmp, level, s, x) == s + [x];
        TiesSnoc(s, x, t);
      }
    }
  }

  /** Siblings that agree on every sort key keep their relative order. This
      holds for any comparator that never orders such siblings, whether or not
      it is a strict weak order. */
  lemma {:induction false} SortStable(cmp: Comparator, level: int, s: seq<Node>, t: (int, string, seq<string>, string))
    requires RespectsTies(cmp, level)
    ensures Filter(SortNodes(cmp, level, s), TieMask(SortNodes(cmp, level, s), t)) == Filter(s, TieMask(s, t))
  {
    if |s| > 0 {
      var n := |s| - 1;
      var s' := s[..n];
      assert s == s' + [s[n]];
      SortStable(cmp, level, s', t);
      InsertStable(cmp, level, SortNodes(cmp, level, s'), s[n], t);
      TieMaskSnoc(s', s[n], t);
      FilterSnoc(s', TieMask(s', t), s[n], TieKey(s[n].key) == t);
    }
  }

  lemma PartitionedSnoc(s: seq<Node>, y: Node)
    requires Partitioned(s) && (IsGlobal(y.key) ==> forall i :: 0 <= i < |s| ==> IsGlobal(s[i].key))
    ensures Partitioned(s + [y])
  {
  }

  /** A permutation of global directives holds only global directives. */
  lemma AllGlobal(r: seq<Node>, s: seq<Node>, x: Node)
    requires multiset(r) == multiset(s) + multiset{x}
    requires IsGlobal(x.key) && forall i :: 0 <= i < |s| ==> IsGlobal(s[i].key)
    ensures forall i :: 0 <= i < |r| ==> IsGlobal(r[i].key)
  {
    forall i | 0 <= i < |r| ensures IsGlobal(r[i].key) {
      assert r[i] in multiset(r);
      if r[i] != x {
        assert r[i] in multiset(s);
        var k :| 0 <= k < |s| && s[k] == r[i];
      }
    }
  }

  lemma {:induction false} InsertPartitioned(cmp: Comparator, s: seq<Node>, x: Node)
    requires GlobalsFirst(cmp) && Partitioned(s)
    ensures Partitioned(Insert(cmp, 0, s, x))
  {
    if |s| > 0 {
      var n := |s| - 1;
      var s', last := s[..n], s[n];
      if cmp(0, x.key, last.key) {
        assert Partitioned(s');
        InsertPartitioned(cmp, s', x);
        var r' := Insert(cmp, 0, s', x);
        if IsGlobal(last.key) {
          assert IsGlobal(x.key);
          AllGlobal(r', s', x);
        }
        PartitionedSnoc(r', last);
        assert Insert(cmp, 0, s, x) == r' + [last];
      } else {
        assert Insert(cmp, 0, s, x) == s + [x];
      }
    }
  }

  /** A comparator that always puts global directives first at level 0 makes
      the sorted top level start with all global directives. */
  lemma {:induction false} SortPartitioned(cmp: Comparator, s: seq<Node>)
    requires GlobalsFirst(cmp)
    ensures Partitioned(SortNodes(cmp, 0, s))
  {
    if |s| > 0 {
      SortPartitioned(cmp, s[..|s| - 1]);
      InsertPartitioned(cmp, SortNodes(cmp, 0, s[..|s| - 1]), s[|s| - 1]);
    }
  }

  /** The as-written comparator is a strict weak order on siblings that all
      have arguments, or all have none. */
  lemma LessStrictWeak(level: int, s: seq<Node>)
    requires (forall x :: x in s ==> |x.key.args| > 0) || (forall x :: x in s ==> |x.key.args| == 0)
    ensures StrictWeakOn(Less, level, s)
  {
    forall x, y | x in s && y in s && Less(level, x.key, y.key)
      ensures !Less(level, y.key, x.key)
    {
      KeyLessAsymmetric(x.key, y.key);
    }
    forall x, y, z | x in s && y in s && z in s && !Less(level, x.key, y.key) && !Less(level, y.key, z.key)
      ensures !Less(level, x.key, z.key)
    {
      KeyLessNegTransitive(x.key, y.key, z.key);
    }
  }

  /** Two siblings swap exactly when the second is less than the first. */
  lemma TwoSiblings(cmp: Comparator, level: int, a: Node, b: Node)
    ensures SortNodes(cmp, level, [a, b]) == if cmp(level, b.key, a.key) then [b, a] else [a, b]
  {
    assert [a, b][..1] == [a];
  }
}
