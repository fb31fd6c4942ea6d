/** What `Block.Write` and `Directive.Write` do to a tree and what text they
    produce, on values. */
module Render {
  import opened Seqs
  import opened Text
  import opened Tree
  import opened Ordering
  import opened Sorting

  /** The tree a directive's `Write` at `level` leaves behind: its block
      sorted at `level + 1`, all the way down. */
  function SortDir(cmp: Comparator, level: int, n: Node): (r: Node)
    ensures r.key == n.key && |r.children| == |n.children|
    decreases n, 2
  {
    Node(n.key, SortBlock(cmp, level + 1, n.children))
  }

  /** The block a `Block.Write` at `level` leaves behind. */
  function SortBlock(cmp: Comparator, level: int, ns: seq<Node>): (r: seq<Node>)
    ensures |r| == |ns|
    decreases ns, 1
  {
    SortNodes(cmp, level, SortEach(cmp, level, ns))
  }

  /** `SortDir` applied to every node of a block, in place. */
  function SortEach(cmp: Comparator, level: int, ns: seq<Node>): (r: seq<Node>)
    ensures |r| == |ns| && forall k :: 0 <= k < |ns| ==> r[k] == SortDir(cmp, level, ns[k])
    decreases ns, 0
  {
    if |ns| == 0 then [] else SortEach(cmp, level, ns[..|ns| - 1]) + [SortDir(cmp, level, ns[|ns| - 1])]
  }

  /** The tokens of a directive's line: its Name, below the top level and
      only when non-empty, then its arguments. */
  function Tokens(level: nat, k: Key): seq<string>
  {
    (if level > 0 && k.name != "" then [k.name] else []) + k.args
  }

  /** The text of one directive at `level`. */
  function RenderDir(level: nat, n: Node): string
    decreases n, 1
  {
    Tabs(level) + Join(Tokens(level, n.key))
    + (if |n.children| > 0
       then (if |Tokens(level, n.key)| > 0 then " " else "") + "{\n" + RenderBlock(level + 1, n.children) + Tabs(level) + "}"
       else "")
    + "\n"
  }

  /** The text of a block at `level`: its directives, one after another. */
  function RenderBlock(level: nat, ns: seq<Node>): string
    decreases ns, 0
  {
    if |ns| == 0 then "" else RenderBlock(level, ns[..|ns| - 1]) + RenderDir(level, ns[|ns| - 1])
  }

  lemma RenderBlockSnoc(level: nat, ns: seq<Node>, n: Node)
    ensures RenderBlock(level, ns + [n]) == RenderBlock(level, ns) + RenderDir(level, n)
  {
    assert (ns + [n])[..|ns|] == ns;
  }

  lemma SortEachSnoc(cmp: Comparator, level: int, ns: seq<Node>, n: Node)
    ensures SortEach(cmp, level, ns + [n]) == SortEach(cmp, level, ns) + [SortDir(cmp, level, n)]
  {
  }

  lemma {:induction false} InsertCommutes(cmp: Comparator, level: int, s: seq<Node>, x: Node)
    ensures Insert(cmp, level, SortEach(cmp, level, s), SortDir(cmp, level, x))
         == SortEach(cmp, level, Insert(cmp, level, s, x))
  {
    if |s| == 0 {
      assert SortEach(cmp, level, [x]) == SortEach(cmp, level, []) + [SortDir(cmp, level, x)];
    } else {
      var n := |s| - 1;
      var e := SortEach(cmp, level, s);
      assert e[..n] == SortEach(cmp, level, s[..n]);
      if cmp(level, x.key, s[n].key) {
        InsertCommutes(cmp, level, s[..n], x);
        SortEachSnoc(cmp, level, Insert(cmp, level, s[..n], x), s[n]);
      } else {
        SortEachSnoc(cmp, level, s, x);
      }
    }
  }

  /** Sorting the siblings before or after sorting inside each of them gives
      the same block: the inner sorts change no sort key. */
  lemma {:induction false} SortCommutes(cmp: Comparator, level: int, s: seq<Node>)
    ensures SortBlock(cmp, level, s) == SortEach(cmp, level, SortNodes(cmp, level, s))
  {
    if |s| > 0 {
      var n := |s| - 1;
      var e := SortEach(cmp, level, s);
      assert e[..n] == SortEach(cmp, level, s[..n]);
      SortCommutes(cmp, level, s[..n]);
      InsertCommutes(cmp, level, SortNodes(cmp, level, s[..n]), s[n]);
    }
  }

  /** Every block of the tree has no sibling less than its left neighbour. */
  ghost predicate SortedTree(cmp: Comparator, level: int, ns: seq<Node>)
    decreases ns
  {
    AdjacentSorted(cmp, level, ns) && forall k :: 0 <= k < |ns| ==> SortedTree(cmp, level + 1, ns[k].children)
  }

  /** The comparator is asymmetric on the siblings of every block. */
  ghost predicate AsymTree(cmp: Comparator, level: int, ns: seq<Node>)
    decreases ns
  {
    AsymmetricOn(cmp, level, ns) && forall k :: 0 <= k < |ns| ==> AsymTree(cmp, level + 1, ns[k].children)
  }

  /** Writing a tree whose blocks are already in order changes nothing. */
  lemma {:induction false} SortBlockFixesSorted(cmp: Comparator, level: int, ns: seq<Node>)
    requires SortedTree(cmp, level, ns)
    ensures SortBlock(cmp, level, ns) == ns
    decreases ns
  {
    forall k | 0 <= k < |ns| ensures SortDir(cmp, level, ns[k]) == ns[k] {
      SortBlockFixesSorted(cmp, level + 1, ns[k].children);
    }
    assert SortEach(cmp, level, ns) == ns;
    SortFixesSorted(cmp, level, ns);
  }

  /** The inner sorts keep every sort key, so asymmetry carries over. */
  lemma SortEachAsymmetric(cmp: Comparator, level: int, ns: seq<Node>)
    requires AsymmetricOn(cmp, level, ns)
    ensures AsymmetricOn(cmp, level, SortEach(cmp, level, ns))
  {
    var e := SortEach(cmp, level, ns);
    forall x, y | x in e && y in e && cmp(level, x.key, y.key)
      ensures !cmp(level, y.key, x.key)
    {
      var i := IndexOf(e, x);
      var j := IndexOf(e, y);
      assert e[i].key == ns[i].key && e[j].key == ns[j].key;
      assert ns[i] in ns && ns[j] in ns;
    }
  }

  /** Writing a tree on which the comparator is asymmetric leaves every block
      in order. */
  lemma {:induction false} SortBlockSortedTree(cmp: Comparator, level: int, ns: seq<Node>)
    requires AsymTree(cmp, level, ns)
    ensures SortedTree(cmp, level, SortBlock(cmp, level, ns))
    decreases ns
  {
    var e := SortEach(cmp, level, ns);
    SortEachAsymmetric(cmp, level, ns);
    SortAdjacentSorted(cmp, level, e);
    var r := SortBlock(cmp, level, ns);
    forall k | 0 <= k < |r| ensures SortedTree(cmp, level + 1, r[k].children) {
      var i := PermutedFrom(r, e, k);
      assert AsymTree(cmp, level + 1, ns[i].children);
      SortBlockSortedTree(cmp, level + 1, ns[i].children);
    }
  }

  /** Writing twice is writing once, whenever the comparator is asymmetric on
      the siblings of every block. */
  lemma SortBlockIdempotent(cmp: Comparator, level: int, ns: seq<Node>)
    requires AsymTree(cmp, level, ns)
    ensures SortBlock(cmp, level, SortBlock(cmp, level, ns)) == SortBlock(cmp, level, ns)
  {
    SortBlockSortedTree(cmp, level, ns);
    SortBlockFixesSorted(cmp, level, SortBlock(cmp, level, ns));
  }

  /** Below the top level the as-written comparator is asymmetric, so only the
      top-level siblings can break asymmetry. */
  lemma {:induction false} LessAsymTree(level: nat, ns: seq<Node>)
    requires level > 0 || AsymmetricOn(Less, level, ns)
    ensures AsymTree(Less, level, ns)
    decreases ns
  {
    if level != 0 {
      LessAsymmetricNested(level);
    }
    forall k | 0 <= k < |ns| ensures AsymTree(Less, level + 1, ns[k].children) {
      LessAsymTree(level + 1, ns[k].children);
    }
  }

  /** A second `Marshal` of an unchanged tree yields the same text and the
      same tree, provided no top-level pair is "less" both ways. */
  lemma MarshalIdempotent(ns: seq<Node>)
    requires AsymmetricOn(Less, 0, ns)
    ensures SortBlock(Less, 0, SortBlock(Less, 0, ns)) == SortBlock(Less, 0, ns)
    ensures RenderBlock(0, SortBlock(Less, 0, SortBlock(Less, 0, ns))) == RenderBlock(0, SortBlock(Less, 0, ns))
  {
    LessAsymTree(0, ns);
    SortBlockIdempotent(Less, 0, ns);
  }

  /** With the mirror clause, a second `Marshal` always yields the same text. */
  lemma {:induction false} IntendedMarshalIdempotent(ns: seq<Node>)
    ensures SortBlock(LessIntended, 0, SortBlock(LessIntended, 0, ns)) == SortBlock(LessIntended, 0, ns)
  {
    IntendedAsymTree(0, ns);
    SortBlockIdempotent(LessIntended, 0, ns);
  }

  lemma {:induction false} IntendedAsymTree(level: int, ns: seq<Node>)
    ensures AsymTree(LessIntended, level, ns)
    decreases ns
  {
    IntendedAsymmetric(level);
    forall k | 0 <= k < |ns| ensures AsymTree(LessIntended, level + 1, ns[k].children) {
      IntendedAsymTree(level + 1, ns[k].children);
    }
  }

  /** With the mirror clause, the written top level lists every global
      directive before every directive with arguments. */
  lemma IntendedGlobalsFirstWritten(ns: seq<Node>)
    ensures Partitioned(SortBlock(LessIntended, 0, ns))
  {
    IntendedGlobalsFirst();
    SortPartitioned(LessIntended, SortEach(LessIntended, 0, ns));
  }

  /** Writing a directive without a block changes nothing. */
  lemma SortLeaf(cmp: Comparator, level: int, n: Node)
    requires n.children == []
    ensures SortDir(cmp, level, n) == n
  {
  }

  /** A directive without a block is one line: indentation, tokens, newline. */
  lemma RenderLeaf(level: nat, n: Node)
    requires n.children == []
    ensures RenderDir(level, n) == Tabs(level) + Join(Tokens(level, n.key)) + "\n"
  {
  }

  lemma SortEachPair(cmp: Comparator, level: int, a: Node, b: Node)
    requires SortDir(cmp, level, a) == a && SortDir(cmp, level, b) == b
    ensures SortEach(cmp, level, [a, b]) == [a, b]
  {
    var e := SortEach(cmp, level, [a, b]);
    assert e[0] == a && e[1] == b;
  }

  /** Two already sorted siblings swap exactly when the second is less. */
  lemma SortPair(cmp: Comparator, level: int, a: Node, b: Node)
    requires SortDir(cmp, level, a) == a && SortDir(cmp, level, b) == b
    ensures SortBlock(cmp, level, [a, b]) == if cmp(level, b.key, a.key) then [b, a] else [a, b]
  {
    SortEachPair(cmp, level, a, b);
    TwoSiblings(cmp, level, a, b);
  }

  lemma SortOne(cmp: Comparator, level: int, a: Node)
    requires SortDir(cmp, level, a) == a
    ensures SortBlock(cmp, level, [a]) == [a]
  {
    assert SortEach(cmp, level, [a]) == [a];
    assert [a][..0] == [];
  }

  lemma RenderOne(level: nat, a: Node)
    ensures RenderBlock(level, [a]) == RenderDir(level, a)
  {
    assert [a][..0] == [];
  }

  lemma RenderPair(level: nat, a: Node, b: Node)
    ensures RenderBlock(level, [a, b]) == RenderDir(level, a) + RenderDir(level, b)
  {
    assert [a, b][..1] == [a] && [a][..0] == [];
    assert RenderBlock(level, [a]) == RenderBlock(level, []) + RenderDir(level, a);
    assert RenderBlock(level, [a, b]) == RenderBlock(level, [a]) + RenderDir(level, b);
  }

  /** A directive whose block holds one directive without a block. */
  lemma RenderWithOneChild(level: nat, k: Key, c: Node)
    requires c.children == []
    ensures RenderDir(level, Node(k, [c]))
         == Tabs(level) + Join(Tokens(level, k))
            + ((if |Tokens(level, k)| > 0 then " " else "") + "{\n" + (Tabs(level + 1) + Join(Tokens(level + 1, c.key)) + "\n") + Tabs(level) + "}")
            + "\n"
  {
    assert [c][..0] == [];
    assert RenderBlock(level + 1, [c]) == RenderDir(level + 1, c);
    RenderLeaf(level + 1, c);
  }

  lemma SortWithOneChild(cmp: Comparator, level: int, k: Key, c: Node)
    requires c.children == []
    ensures SortDir(cmp, level, Node(k, [c])) == Node(k, [c])
  {
    assert SortEach(cmp, level + 1, [c]) == [c];
  }
}
