/** The Caddyfile tree as the writer keeps it: blocks that own a sequence of
    directives, directives that own a block, every edit made in place. */
module Caddyfile {
  import opened Seqs
  import opened Text
  import opened Tree
  import opened Ordering
  import opened Sorting
  import opened Render

  /** `d` has exactly this Name and Discriminator. */
  predicate Matches(d: Directive, name: string, discriminator: string)
    reads d
  {
    d.Name == name && d.Discriminator == discriminator
  }

  /** The position of the first directive of `ds` with this Name and
      Discriminator, or `|ds|` when there is none. */
  function FirstMatch(ds: seq<Directive>, name: string, discriminator: string): (i: nat)
    reads ds
    ensures i <= |ds|
    ensures i < |ds| ==> Matches(ds[i], name, discriminator)
    ensures forall k :: 0 <= k < i ==> !Matches(ds[k], name, discriminator)
  {
    if |ds| == 0 then 0
    else if Matches(ds[0], name, discriminator) then 0
    else 1 + FirstMatch(ds[1..], name, discriminator)
  }

  /** For each directive of `ds`: does it have this Name? */
  function NameMask(ds: seq<Directive>, name: string): (m: seq<bool>)
    reads ds
    ensures |m| == |ds| && forall k :: 0 <= k < |ds| ==> m[k] == (ds[k].Name == name)
  {
    if |ds| == 0 then [] else NameMask(ds[..|ds| - 1], name) + [ds[|ds| - 1].Name == name]
  }

  /** For each directive of `ds`: does it differ from `x`? */
  function OtherMask(ds: seq<Directive>, x: Directive): (m: seq<bool>)
    ensures |m| == |ds| && forall k :: 0 <= k < |ds| ==> m[k] == (ds[k] != x)
  {
    if |ds| == 0 then [] else OtherMask(ds[..|ds| - 1], x) + [ds[|ds| - 1] != x]
  }

  /** For each directive of `ds`: does it differ in Name or Discriminator? */
  function NoMatchMask(ds: seq<Directive>, name: string, discriminator: string): (m: seq<bool>)
    reads ds
    ensures |m| == |ds| && forall k :: 0 <= k < |ds| ==> m[k] == !Matches(ds[k], name, discriminator)
  {
    if |ds| == 0 then [] else NoMatchMask(ds[..|ds| - 1], name, discriminator) + [!Matches(ds[|ds| - 1], name, discriminator)]
  }

  /** Extending the sequence extends each mask by one entry. */
  lemma NameMaskSnoc(ds: seq<Directive>, d: Directive, name: string)
    ensures NameMask(ds + [d], name) == NameMask(ds, name) + [d.Name == name]
  {
    assert (ds + [d])[..|ds|] == ds;
  }

  /** One more child examined by `GetAllByName`. */
  lemma NamedStep(ds: seq<Directive>, i: nat, name: string)
    requires i < |ds|
    ensures Filter(ds[..i + 1], NameMask(ds[..i + 1], name))
         == Filter(ds[..i], NameMask(ds[..i], name)) + (if ds[i].Name == name then [ds[i]] else [])
  {
    TakeOneMore(ds, i);
    NameMaskSnoc(ds[..i], ds[i], name);
    FilterSnoc(ds[..i], NameMask(ds[..i], name), ds[i], ds[i].Name == name);
  }

  lemma OtherMaskSnoc(ds: seq<Directive>, d: Directive, x: Directive)
    ensures OtherMask(ds + [d], x) == OtherMask(ds, x) + [d != x]
  {
    assert (ds + [d])[..|ds|] == ds;
  }

  /** One more child examined by `Remove`. */
  lemma OtherStep(ds: seq<Directive>, i: nat, x: Directive)
    requires i < |ds|
    ensures Filter(ds[..i + 1], OtherMask(ds[..i + 1], x))
         == Filter(ds[..i], OtherMask(ds[..i], x)) + (if ds[i] != x then [ds[i]] else [])
  {
    TakeOneMore(ds, i);
    OtherMaskSnoc(ds[..i], ds[i], x);
    FilterSnoc(ds[..i], OtherMask(ds[..i], x), ds[i], ds[i] != x);
  }

  lemma NoMatchMaskSnoc(ds: seq<Directive>, d: Directive, name: string, discriminator: string)
    ensures NoMatchMask(ds + [d], name, discriminator) == NoMatchMask(ds, name, discriminator) + [!Matches(d, name, discriminator)]
  {
    assert (ds + [d])[..|ds|] == ds;
  }

  /** One directive: a line of the Caddyfile and, when its block is not
      empty, the braces below it. The Go type embeds its block; here the
      directive owns it. */
  class Directive {
    const block: Block
    var Order: int
    var Name: string
    var Discriminator: string
    var Args: seq<string>

    /** The directive's block is well formed. */
    ghost predicate Valid()
      reads block, block.Repr
    {
      block.Valid()
    }

    /** The sort keys of this directive. */
    function KeyOf(): (k: Key)
      reads this
      ensures k.order == Order && k.name == Name && k.disc == Discriminator && k.args == Args
    {
      Key(Order, Name, Discriminator, Args)
    }

    /** The directive as a value: its keys and the values of its block. */
    ghost function Model(): (n: Node)
      reads this, block.Repr, block.Dirs
      requires block.Valid()
      ensures n.key == KeyOf()
      decreases block.Repr, 1
    {
      Node(KeyOf(), block.ModelsOf(block.Children))
    }

    /** A new directive with the given Name and Discriminator, the default
        Order, no arguments and an empty block. */
    constructor (name: string, discriminator: string)
      ensures Valid() && fresh(block) && block.Children == []
      ensures block.Repr == {block} && block.Dirs == {}
      ensures Order == DefaultOrder && Name == name && Discriminator == discriminator && Args == []
    {
      block := new Block();
      Order := DefaultOrder;
      Name := name;
      Discriminator := discriminator;
      Args := [];
    }

    /** The start of the directive's line: the indentation, then the Name
        below the top level when it is not empty, then the arguments, one
        space between tokens. `needsWhitespace` says whether a token was
        written. */
    method Line(level: nat) returns (text: string, needsWhitespace: bool)
      ensures text == Tabs(level) + Join(Tokens(level, KeyOf()))
      ensures needsWhitespace == (|Tokens(level, KeyOf())| > 0)
    {
      text := Tabs(level);
      needsWhitespace := false;
      ghost var toks: seq<string> := [];
      if level > 0 && Name != "" {
        text := text + Name;
        needsWhitespace := true;
        toks := [Name];
      }
      var k := 0;
      while k < |Args|
        invariant 0 <= k <= |Args|
        invariant text == Tabs(level) + Join(toks + Args[..k])
        invariant needsWhitespace == (|toks + Args[..k]| > 0)
      {
        JoinSnoc(toks + Args[..k], Args[k]);
        assert toks + Args[..k + 1] == (toks + Args[..k]) + [Args[k]];
        if needsWhitespace {
          text := text + " ";
        }
        text := text + Args[k];
        needsWhitespace := true;
        k := k + 1;
      }
      assert Args[..k] == Args;
    }

    /** Writes the directive at `level`: its line and, when its block has
        children, the block between braces one level deeper, sorting every
        block below on the way. */
    method Write(cmp: Comparator, level: nat) returns (text: string)
      requires Valid()
      modifies block.Repr
      ensures Valid() && block.Repr == old(block.Repr) && block.Dirs == old(block.Dirs)
      ensures Model() == SortDir(cmp, level, old(Model()))
      ensures text == RenderDir(level, Model())
      decreases block.Repr, 6
    {
      var needsWhitespace;
      text, needsWhitespace := Line(level);
      ModelUnchanged(this);
      var tail := "";
      if |block.Children| > 0 {
        tail := Braces(cmp, level, needsWhitespace);
      }
      text := text + tail + "\n";
    }

    /** The rest of a line whose block has children: a space when a token
        precedes it, the opening brace, the block written one level deeper
        and the closing brace on a line of its own. */
    method Braces(cmp: Comparator, level: nat, needsWhitespace: bool) returns (tail: string)
      requires Valid() && |block.Children| > 0
      requires needsWhitespace == (|Tokens(level, KeyOf())| > 0)
      modifies block.Repr
      ensures Valid() && block.Repr == old(block.Repr) && block.Dirs == old(block.Dirs)
      ensures Model() == SortDir(cmp, level, old(Model()))
      ensures tail == (if needsWhitespace then " " else "") + "{\n" + RenderBlock(level + 1, Model().children) + Tabs(level) + "}"
      decreases block.Repr, 5
    {
      tail := if needsWhitespace then " " else "";
      tail := tail + "{\n";
      var inner := block.Write(cmp, level + 1);
      tail := tail + inner + Tabs(level) + "}";
      assert Model() == Node(KeyOf(), block.Models());
    }

    /** Appends `args` to the arguments, in order and with repetitions. */
    method AddArgs(args: seq<string>)
      modifies this
      ensures Args == old(Args) + args
      ensures Order == old(Order) && Name == old(Name) && Discriminator == old(Discriminator)
    {
      Args := Args + args;
    }
  }

  /** What `Block.Observe` sees of a block. */
  datatype Snapshot = Snapshot(children: seq<Directive>, repr: set<Block>, dirs: set<Directive>, models: seq<Node>)

  /** A sequence of directives, each owning its own sub-tree. */
  class Block {
    var Children: seq<Directive>
    /** This block and every block below it. */
    ghost var Repr: set<Block>
    /** Every directive below this block. */
    ghost var Dirs: set<Directive>

    /** The children form a tree: every child's sub-tree lies inside this
        one's, does not contain this block, and is disjoint from every other
        child's. */
    ghost predicate Valid()
      reads this, Repr
      decreases Repr
    {
      && this in Repr
      && (forall d :: d in Children ==>
            && d in Dirs && d.block in Repr && d.block.Repr <= Repr && this !in d.block.Repr
            && d.block.Dirs <= Dirs && d.block.Valid())
      && Distinct(Children)
      && (forall d, e {:trigger d in Children, e in Children} ::
            d in Children && e in Children && d != e ==> d.block.Repr !! e.block.Repr)
    }

    /** The values of the directives `s`, taken from this block. */
    ghost function ModelsOf(s: seq<Directive>): (r: seq<Node>)
      reads this, Repr, Dirs
      requires Valid() && forall d :: d in s ==> d in Children
      ensures |r| == |s|
      decreases Repr, 0, |s|
    {
      if |s| == 0 then [] else ModelsOf(s[..|s| - 1]) + [s[|s| - 1].Model()]
    }

    /** Position by position, `ModelsOf(s)` holds the values of `s`. */
    lemma {:induction false} ModelsOfEach(s: seq<Directive>)
      requires Valid() && forall d :: d in s ==> d in Children
      ensures forall k :: 0 <= k < |s| ==> ModelsOf(s)[k] == s[k].Model()
      decreases |s|
    {
      if |s| > 0 {
        ModelsOfEach(s[..|s| - 1]);
      }
    }

    /** The block as a value. */
    ghost function Models(): (r: seq<Node>)
      reads this, Repr, Dirs
      requires Valid()
      ensures |r| == |Children| && forall k :: 0 <= k < |Children| ==> r[k] == Children[k].Model()
    {
      ModelsOfEach(Children);
      ModelsOf(Children)
    }

    /** A new empty block. */
    constructor ()
      ensures Valid() && Children == [] && Repr == {this} && Dirs == {}
    {
      Children := [];
      Repr := {this};
      Dirs := {};
    }

    /** Appends `d` as the last child. The tree stays well formed when `d`
        heads a well-formed sub-tree of its own. */
    method AddDirective(d: Directive)
      modifies this
      ensures Children == old(Children) + [d]
      ensures Repr == old(Repr) + d.block.Repr && Dirs == old(Dirs) + {d} + d.block.Dirs
      ensures old(Valid()) && old(d.Valid()) && old(d.block.Repr) !! old(Repr) ==> Valid()
    {
      Children := Children + [d];
      Repr := Repr + d.block.Repr;
      Dirs := Dirs + {d} + d.block.Dirs;
    }
  
    /** Recomputes the footprints from the children. A directive added to a
        child's block after the child was attached leaves this block's
        footprints behind; the Go code keeps none, so this changes nothing it
        can see. */
    ghost method Refresh()
      requires forall d :: d in Children ==> d.block.Valid() && this !in d.block.Repr
      requires Distinct(Children)
      requires forall d, e {:trigger d in Children, e in Children} ::
                 d in Children && e in Children && d != e ==> d.block.Repr !! e.block.Repr
      modifies this
      ensures Valid() && Children == old(Children)
      ensures Repr == {this} + BlocksBelow(Children) && Dirs == DirsBelow(Children)
    {
      BelowCovers(Children);
      Repr := {this} + BlocksBelow(Children);
      Dirs := DirsBelow(Children);
    }

    /** The first child with this Name and Discriminator, or null. */
    method GetFirstMatch(name: string, discriminator: string) returns (d: Directive?)
      ensures var i := FirstMatch(Children, name, discriminator);
              d == if i < |Children| then Children[i] else null
      ensures d == null <==> forall k :: 0 <= k < |Children| ==> !Matches(Children[k], name, discriminator)
    {
      var i := 0;
      while i < |Children|
        invariant 0 <= i <= |Children|
        invariant forall k :: 0 <= k < i ==> !Matches(Children[k], name, discriminator)
      {
        if Children[i].Name == name && Children[i].Discriminator == discriminator {
          return Children[i];
        }
        i := i + 1;
      }
      return null;
    }

    /** The children with this Name, whatever their Discriminator, in order. */
    method GetAllByName(name: string) returns (matched: seq<Directive>)
      ensures matched == Filter(Children, NameMask(Children, name))
      ensures forall d :: d in matched <==> d in Children && d.Name == name
    {
      var cs := Children;
      matched := [];
      var i := 0;
      while i < |cs|
        invariant 0 <= i <= |cs|
        invariant matched == Filter(cs[..i], NameMask(cs[..i], name))
      {
        NamedStep(cs, i, name);
        if cs[i].Name == name {
          matched := matched + [cs[i]];
        }
        i := i + 1;
      }
      TakeAll(cs, i);
      NameMembers(cs, name);
    }
  
    /** Replaces the children by some of them, without repetitions; the tree
        stays well formed. The Go methods assign the slice directly. */
    method SetChildren(cs: seq<Directive>)
      modifies this
      ensures Children == cs && Repr == old(Repr) && Dirs == old(Dirs)
      ensures old(Valid()) && Distinct(cs) && (forall d :: d in cs ==> d in old(Children)) ==> Valid()
    {
      Children := cs;
    }

    /** Replaces the children by a reordering of them: the tree stays well
        formed and every child keeps its value. */
    method Reorder(cs: seq<Directive>)
      requires Valid() && Distinct(cs) && forall d :: d in cs ==> d in Children
      modifies this
      ensures Children == cs && Repr == old(Repr) && Dirs == old(Dirs)
      ensures Valid() && Models() == old(ModelsOf(cs))
    {
      ModelsOfEach(cs);
      Children := cs;
      forall d | d in cs
        ensures d.Valid() && d.Model() == old(d.Model())
      {
        ModelUnchanged(d);
      }
      assert Valid();
    }

    /** Orders the children in place for writing at `level`: a stable sort
        under the sibling comparator `cmp`. The Go code always sorts with
        `Ordering.Less`; `Marshal` passes it, `MarshalGlobalsFirst` passes the
        corrected `Ordering.LessIntended`. */
    method Sort(cmp: Comparator, level: int)
      requires Valid()
      modifies this
      ensures Valid() && Repr == old(Repr) && Dirs == old(Dirs)
      ensures multiset(Children) == multiset(old(Children))
      ensures Models() == SortNodes(cmp, level, old(Models()))
      ensures Children == old(SortDirectives(cmp, level, Children))
    {
      ghost var values := map d | d in Children :: d.Model();
      ghost var m0 := Models();
      MirrorsSort(cmp, level, values, Children, m0);
      var items := SortDirectives(cmp, level, Children);
      DistinctPermutation(Children, items);
      ValuesOf(values, items, SortNodes(cmp, level, m0));
      Reorder(items);
    }

    /** The recorded values of some children are their values. */
    lemma ValuesOf(values: map<Directive, Node>, items: seq<Directive>, ms: seq<Node>)
      requires Valid() && Mirrors(values, items, ms)
      requires forall d :: d in Children ==> d in values && values[d] == d.Model()
      requires multiset(items) == multiset(Children)
      ensures (forall d :: d in items ==> d in Children) && ModelsOf(items) == ms
    {
      forall d | d in items ensures d in Children {
        assert d in multiset(items);
      }
      ModelsOfEach(items);
    }

    /** Sorts the children for `level`, then writes each of them in turn. */
    method Write(cmp: Comparator, level: nat) returns (text: string)
      requires Valid()
      modifies Repr
      ensures Valid() && Repr == old(Repr) && Dirs == old(Dirs)
      ensures Models() == SortBlock(cmp, level, old(Models()))
      ensures Children == old(SortDirectives(cmp, level, Children))
      ensures text == RenderBlock(level, Models())
      decreases Repr, 4
    {
      Sort(cmp, level);
      ghost var S, C := Models(), Children;
      text := WriteChildren(cmp, level, SortEach(cmp, level, S));
      SortCommutes(cmp, level, old(Models()));
      assert Children == C;
    }

    /** The whole Caddyfile: the block written from the top level with the
        comparator as written. `MarshalString` returns the same text. A second
        `Marshal` of the tree it leaves behind writes the same text again
        whenever no two top-level directives are "less" than each other. */
    method Marshal() returns (text: string)
      requires Valid()
      modifies Repr
      ensures Valid() && Repr == old(Repr) && Dirs == old(Dirs)
      ensures Models() == SortBlock(Less, 0, old(Models()))
      ensures Children == old(SortDirectives(Less, 0, Children))
      ensures text == RenderBlock(0, Models())
      ensures AsymmetricOn(Less, 0, old(Models())) ==> SortBlock(Less, 0, Models()) == Models()
    {
      text := Write(Less, 0);
      if AsymmetricOn(Less, 0, old(Models())) {
        MarshalIdempotent(old(Models()));
      }
    }

    /** `Marshal` with the mirror clause at line 156 added: global option
        blocks come first, and a second call writes the same text. */
    method MarshalGlobalsFirst() returns (text: string)
      requires Valid()
      modifies Repr
      ensures Valid() && Repr == old(Repr) && Dirs == old(Dirs)
      ensures Models() == SortBlock(LessIntended, 0, old(Models()))
      ensures Children == old(SortDirectives(LessIntended, 0, Children))
      ensures text == RenderBlock(0, Models())
      ensures Partitioned(Models())
      ensures SortBlock(LessIntended, 0, Models()) == Models()
    {
      text := Write(LessIntended, 0);
      IntendedGlobalsFirstWritten(old(Models()));
      IntendedMarshalIdempotent(old(Models()));
    }

    /** Writes every child in turn, each sorting its own sub-tree. */
    method WriteChildren(cmp: Comparator, level: nat, ghost W: seq<Node>) returns (text: string)
      requires Valid() && |W| == |Children|
      requires forall k :: 0 <= k < |W| ==> W[k] == SortDir(cmp, level, Models()[k])
      modifies Repr
      ensures Valid() && Observe() == Snapshot(old(Children), old(Repr), old(Dirs), W)
      ensures text == RenderBlock(level, W)
      decreases Repr, 3
    {
      ghost var S := Models();
      ghost var R, D := Repr, Dirs;
      var cs := Children;
      text := "";
      var i := 0;
      while i < |cs|
        invariant WrittenUpTo(level, i, S, W, cs, R, D, text)
      {
        text := WriteNext(cmp, level, i, S, W, cs, R, D, text);
        i := i + 1;
      }
      AllWritten(S, W);
    }

    /** `WriteChildren` after `i` children: of the children `cs`, valued `S`
        at the start, the first `i` are written to `text` and now have the
        values `W[..i]`; the rest are untouched. */
    ghost predicate WrittenUpTo(level: nat, i: nat, S: seq<Node>, W: seq<Node>, cs: seq<Directive>,
                                R: set<Block>, D: set<Directive>, text: string)
      reads this, Repr, Dirs
    {
      && i <= |cs| == |S| == |W| && Repr == R && Valid()
      && Observe() == Snapshot(cs, R, D, W[..i] + S[i..])
      && text == RenderBlock(level, W[..i])
    }

    /** The block seen from outside: its children, its footprint and the
        values of its children. */
    ghost function Observe(): Snapshot
      reads this, Repr, Dirs
      requires Valid()
    {
      Snapshot(Children, Repr, Dirs, Models())
    }

    /** Writes the child at position `i` of a block whose first `i` children
        are already written to `buffer`. */
    method WriteNext(cmp: Comparator, level: nat, i: nat, ghost S: seq<Node>, ghost W: seq<Node>, cs: seq<Directive>,
                     ghost R: set<Block>, ghost D: set<Directive>, buffer: string) returns (out: string)
      requires WrittenUpTo(level, i, S, W, cs, R, D, buffer)
      requires i < |cs| && W[i] == SortDir(cmp, level, S[i])
      modifies Repr
      ensures WrittenUpTo(level, i + 1, S, W, cs, R, D, out)
      decreases Repr, 2
    {
      ghost var M := Models();
      assert M[i] == S[i];
      var t := WriteChild(cmp, level, i);
      WriteStep(S, W, i, M, SortDir(cmp, level, S[i]));
      RenderBlockStep(level, W, i);
      out := buffer + t;
    }

    /** Writes the child at position `i`; only its own sub-tree changes. */
    method WriteChild(cmp: Comparator, level: nat, i: nat) returns (t: string)
      requires Valid() && i < |Children|
      modifies Repr
      ensures Valid() && Children == old(Children) && Repr == old(Repr) && Dirs == old(Dirs)
      ensures Models() == old(Models())[i := SortDir(cmp, level, old(Models())[i])]
      ensures t == RenderDir(level, Models()[i])
      decreases Repr, 1
    {
      var d := Children[i];
      t := d.Write(cmp, level);
      ChildRewritten(i);
    }

    /** Rewriting the sub-tree of one child leaves the block well formed and
        every other child with the value it had. */
    twostate lemma ChildRewritten(i: nat)
      requires old(Valid()) && i < |old(Children)| && unchanged(this)
      requires Children[i].Valid()
      requires Children[i].block.Repr == old(Children[i].block.Repr)
      requires Children[i].block.Dirs == old(Children[i].block.Dirs)
      requires unchanged(old(Dirs))
      requires unchanged(old(Repr) - old(Children[i].block.Repr))
      ensures Valid() && Models() == old(Models())[i := Children[i].Model()]
    {
      var d := Children[i];
      forall e | e in Children && e != d
        ensures e.Valid() && e.Model() == old(e.Model())
        ensures e.block.Repr == old(e.block.Repr) && e.block.Dirs == old(e.block.Dirs)
      {
        assert e.block in old(e.block.Repr);
        assert old(e.block.Repr) <= old(Repr) && old(e.block.Repr) !! old(d.block.Repr);
        ModelUnchanged(e);
      }
      assert Valid();
      forall j | 0 <= j < |Children| && j != i
        ensures Models()[j] == old(Models())[j]
      {
        assert Children[j] != d;
      }
    }

    /** Drops every occurrence of `x` from the children, keeping the order of
        the rest. */
    method Remove(x: Directive)
      modifies this
      ensures Children == Filter(old(Children), OtherMask(old(Children), x))
      ensures Repr == old(Repr) && Dirs == old(Dirs)
      ensures old(Valid()) ==> Valid()
    {
      var C := Children;
      var newItems := [];
      var i := 0;
      while i < |C|
        invariant unchanged(this) && 0 <= i <= |C|
        invariant newItems == Filter(C[..i], OtherMask(C[..i], x))
      {
        OtherStep(C, i, x);
        if C[i] != x {
          newItems := newItems + [C[i]];
        }
        i := i + 1;
      }
      TakeAll(C, i);
      if Valid() {
        FilterDistinct(C, OtherMask(C, x));
        RemoveMembers(C, x);
      }
      SetChildren(newItems);
    }

    /** Drops every child with this Name and Discriminator, keeping the order
        of the rest. */
    method RemoveAllMatches(name: string, discriminator: string)
      modifies this
      ensures Children == old(Filter(Children, NoMatchMask(Children, name, discriminator)))
      ensures Repr == old(Repr) && Dirs == old(Dirs)
      ensures old(Valid()) ==> Valid()
    {
      var C := Children;
      var newItems := Unmatched(C, name, discriminator);
      if Valid() {
        FilterDistinct(C, NoMatchMask(C, name, discriminator));
        NoMatchMembers(C, name, discriminator);
      }
      SetChildren(newItems);
    }

    /** The first child with this Name and Discriminator; when there is none,
        a new directive with them is appended and returned. */
    method GetOrCreateDirective(name: string, discriminator: string) returns (d: Directive)
      modifies this
      ensures var i := old(FirstMatch(Children, name, discriminator));
              if i < |old(Children)| then d == old(Children)[i] && Children == old(Children) && Repr == old(Repr) && Dirs == old(Dirs)
              else && fresh(d) && fresh(d.block) && Children == old(Children) + [d]
                   && Repr == old(Repr) + {d.block} && Dirs == old(Dirs) + {d}
                   && d.Name == name && d.Discriminator == discriminator
                   && d.Order == DefaultOrder && d.Args == [] && d.block.Children == []
                   && d.block.Repr == {d.block} && d.block.Dirs == {}
      ensures Matches(d, name, discriminator) && FirstMatch(Children, name, discriminator) < |Children|
      ensures Children[FirstMatch(Children, name, discriminator)] == d
      ensures old(Valid()) ==> Valid()
    {
      var existing := GetFirstMatch(name, discriminator);
      if existing == null {
        existing := new Directive(name, discriminator);
        ghost var C := Children;
        AddDirective(existing);
        FirstMatchSnoc(C, existing, name, discriminator);
      }
      d := existing;
    }
  }

  /** The blocks of the sub-trees of `s`, as `Block.AddDirective` collects
      them. */
  ghost function BlocksBelow(s: seq<Directive>): set<Block>
    reads set d | d in s :: d.block
  {
    if |s| == 0 then {} else BlocksBelow(s[..|s| - 1]) + s[|s| - 1].block.Repr
  }

  /** The directives of `s` and of their sub-trees, as `Block.AddDirective`
      collects them. */
  ghost function DirsBelow(s: seq<Directive>): set<Directive>
    reads set d | d in s :: d.block
  {
    if |s| == 0 then {} else DirsBelow(s[..|s| - 1]) + {s[|s| - 1]} + s[|s| - 1].block.Dirs
  }

  /** Every directive of `s` and its sub-tree lie inside the collected
      footprints. */
  lemma {:induction false} BelowCovers(s: seq<Directive>)
    ensures forall d :: d in s ==> d in DirsBelow(s) && d.block.Repr <= BlocksBelow(s) && d.block.Dirs <= DirsBelow(s)
    decreases |s|
  {
    if |s| > 0 {
      BelowCovers(s[..|s| - 1]);
      forall d | d in s
        ensures d in DirsBelow(s) && d.block.Repr <= BlocksBelow(s) && d.block.Dirs <= DirsBelow(s)
      {
        if d != s[|s| - 1] {
          assert d in s[..|s| - 1];
        }
      }
    }
  }

  /** Appending a match to a sequence without one puts the first match at
      the end. */
  lemma {:induction false} FirstMatchSnoc(ds: seq<Directive>, d: Directive, name: string, discriminator: string)
    requires FirstMatch(ds, name, discriminator) == |ds| && Matches(d, name, discriminator)
    ensures FirstMatch(ds + [d], name, discriminator) == |ds|
    decreases |ds|
  {
    if |ds| > 0 {
      assert (ds + [d])[1..] == ds[1..] + [d];
      FirstMatchSnoc(ds[1..], d, name, discriminator);
    }
  }

  /** `ms` holds the values of `items`, as recorded in `values`. */
  ghost predicate Mirrors(values: map<Directive, Node>, items: seq<Directive>, ms: seq<Node>)
  {
    |ms| == |items| && forall k :: 0 <= k < |items| ==> items[k] in values && ms[k] == values[items[k]]
  }

  /** `Insert` on the directives themselves, comparing their keys. */
  function InsertDirective(cmp: Comparator, level: int, s: seq<Directive>, x: Directive): (r: seq<Directive>)
    reads s, x
    ensures |r| == |s| + 1 && multiset(r) == multiset(s) + multiset{x}
    ensures forall d :: d in r ==> d in s || d == x
    decreases |s|
  {
    if |s| == 0 then [x]
    else if cmp(level, x.KeyOf(), s[|s| - 1].KeyOf()) then
      assert s == s[..|s| - 1] + [s[|s| - 1]];
      InsertDirective(cmp, level, s[..|s| - 1], x) + [s[|s| - 1]]
    else s + [x]
  }

  /** A directive whose fields and sub-tree are untouched keeps its value. */
  twostate lemma ModelUnchanged(d: Directive)
    requires old(d.Valid()) && unchanged(d) && unchanged(old(d.block.Repr)) && unchanged(old(d.block.Dirs))
    ensures d.Valid() && d.Model() == old(d.Model())
  {
  }

  /** One step of `Block.Write`'s loop, on values: writing the child at `i`
      of a block whose first `i` children are already written. */
  lemma WriteStep(S: seq<Node>, W: seq<Node>, i: nat, M: seq<Node>, x: Node)
    requires i < |S| == |W| && M == W[..i] + S[i..] && W[i] == x
    ensures M[i := x] == W[..i + 1] + S[i + 1..]
    ensures (W[..i + 1] + S[i + 1..])[i] == W[i]
  {
  }

  /** The end of `Block.Write`'s loop, on values: every child is written. */
  lemma AllWritten(S: seq<Node>, W: seq<Node>)
    requires |S| == |W|
    ensures W[..|W|] == W && W[..|W|] + S[|S|..] == W
  {
  }

  /** The text of the first `i + 1` written children. */
  lemma RenderBlockStep(level: nat, W: seq<Node>, i: nat)
    requires i < |W|
    ensures RenderBlock(level, W[..i + 1]) == RenderBlock(level, W[..i]) + RenderDir(level, W[i])
  {
    assert W[..i + 1] == W[..i] + [W[i]];
    RenderBlockSnoc(level, W[..i], W[i]);
  }

  /** The stable sort `Block.sort` asks of `sort.SliceStable`, on the
      directives themselves. */
  function SortDirectives(cmp: Comparator, level: int, s: seq<Directive>): (r: seq<Directive>)
    reads s
    ensures |r| == |s| && multiset(r) == multiset(s)
    ensures forall d :: d in r ==> d in s
    decreases |s|
  {
    if |s| == 0 then []
    else
      assert s == s[..|s| - 1] + [s[|s| - 1]];
      var t := SortDirectives(cmp, level, s[..|s| - 1]);
      assert forall i :: 0 <= i < |t| ==> t[i] in s;
      InsertDirective(cmp, level, t, s[|s| - 1])
  }

  /** Two siblings stay in insertion order unless the second is less than
      the first; in particular two directives with tied keys never swap. */
  lemma SortDirectivesPair(cmp: Comparator, level: int, a: Directive, b: Directive)
    ensures SortDirectives(cmp, level, [a, b]) == if cmp(level, b.KeyOf(), a.KeyOf()) then [b, a] else [a, b]
  {
    assert [a, b][..1] == [a] && [a][..0] == [];
    assert SortDirectives(cmp, level, [a]) == [a];
    assert SortDirectives(cmp, level, [a, b]) == InsertDirective(cmp, level, [a], b);
    assert [a][..0] + [a] == [a];
  }

  /** Inserting a directive moves it exactly as inserting its value moves
      the value. */
  lemma {:induction false} MirrorsInsert(cmp: Comparator, level: int, values: map<Directive, Node>, s: seq<Directive>, ms: seq<Node>, x: Directive)
    requires Mirrors(values, s, ms) && x in values
    requires forall d :: d in values ==> values[d].key == d.KeyOf()
    ensures Mirrors(values, InsertDirective(cmp, level, s, x), Insert(cmp, level, ms, values[x]))
    decreases |s|
  {
    if |s| == 0 {
      MirrorsSnoc(values, s, ms, x);
    } else if cmp(level, x.KeyOf(), s[|s| - 1].KeyOf()) {
      MirrorsPrefix(values, s, ms, |s| - 1);
      MirrorsInsert(cmp, level, values, s[..|s| - 1], ms[..|ms| - 1], x);
      InsertMoves(cmp, level, values, s, ms, x);
    } else {
      InsertStays(cmp, level, values, s, ms, x);
    }
  }

  /** `x` moves past the last directive, and its value past the last value. */
  lemma InsertMoves(cmp: Comparator, level: int, values: map<Directive, Node>, s: seq<Directive>, ms: seq<Node>, x: Directive)
    requires Mirrors(values, s, ms) && x in values && |s| > 0
    requires forall d :: d in values ==> values[d].key == d.KeyOf()
    requires cmp(level, x.KeyOf(), s[|s| - 1].KeyOf())
    requires Mirrors(values, InsertDirective(cmp, level, s[..|s| - 1], x), Insert(cmp, level, ms[..|ms| - 1], values[x]))
    ensures Mirrors(values, InsertDirective(cmp, level, s, x), Insert(cmp, level, ms, values[x]))
  {
    var n := |s| - 1;
    assert InsertDirective(cmp, level, s, x) == InsertDirective(cmp, level, s[..n], x) + [s[n]];
    assert ms[n] == values[s[n]];
    assert Insert(cmp, level, ms, values[x]) == Insert(cmp, level, ms[..n], values[x]) + [ms[n]];
    MirrorsSnoc(values, InsertDirective(cmp, level, s[..n], x), Insert(cmp, level, ms[..n], values[x]), s[n]);
  }

  /** `x` stays after the last directive, and its value after the last value. */
  lemma InsertStays(cmp: Comparator, level: int, values: map<Directive, Node>, s: seq<Directive>, ms: seq<Node>, x: Directive)
    requires Mirrors(values, s, ms) && x in values && |s| > 0
    requires forall d :: d in values ==> values[d].key == d.KeyOf()
    requires !cmp(level, x.KeyOf(), s[|s| - 1].KeyOf())
    ensures Mirrors(values, InsertDirective(cmp, level, s, x), Insert(cmp, level, ms, values[x]))
  {
    var n := |s| - 1;
    assert InsertDirective(cmp, level, s, x) == s + [x];
    assert ms[n] == values[s[n]];
    assert Insert(cmp, level, ms, values[x]) == ms + [values[x]];
    MirrorsSnoc(values, s, ms, x);
  }

  /** Mirrored sequences stay mirrored when one more directive is appended
      to both, with its recorded value. */
  lemma MirrorsSnoc(values: map<Directive, Node>, s: seq<Directive>, ms: seq<Node>, x: Directive)
    requires Mirrors(values, s, ms) && x in values
    ensures Mirrors(values, s + [x], ms + [values[x]])
  {
  }

  /** Prefixes of mirrored sequences are mirrored. */
  lemma MirrorsPrefix(values: map<Directive, Node>, s: seq<Directive>, ms: seq<Node>, n: nat)
    requires Mirrors(values, s, ms) && n <= |s|
    ensures Mirrors(values, s[..n], ms[..n])
  {
  }

  /** Sorting the directives sorts their values the same way. */
  lemma {:induction false} MirrorsSort(cmp: Comparator, level: int, values: map<Directive, Node>, s: seq<Directive>, ms: seq<Node>)
    requires Mirrors(values, s, ms)
    requires forall d :: d in values ==> values[d].key == d.KeyOf()
    ensures Mirrors(values, SortDirectives(cmp, level, s), SortNodes(cmp, level, ms))
    decreases |s|
  {
    if |s| > 0 {
      MirrorsPrefix(values, s, ms, |s| - 1);
      MirrorsSort(cmp, level, values, s[..|s| - 1], ms[..|ms| - 1]);
      MirrorsInsert(cmp, level, values, SortDirectives(cmp, level, s[..|s| - 1]), SortNodes(cmp, level, ms[..|ms| - 1]), s[|s| - 1]);
    }
  }

  /** The loop of `RemoveAllMatches`: the directives of `ds` that differ in
      Name or Discriminator, in order. */
  method Unmatched(ds: seq<Directive>, name: string, discriminator: string) returns (r: seq<Directive>)
    ensures r == Filter(ds, NoMatchMask(ds, name, discriminator))
  {
    r := [];
    ghost var keep: seq<bool> := [];
    var i := 0;
    while i < |ds|
      invariant 0 <= i <= |ds| && |keep| == i
      invariant forall k :: 0 <= k < i ==> keep[k] == !Matches(ds[k], name, discriminator)
      invariant r == Filter(ds[..i], keep)
    {
      TakeOneMore(ds, i);
      FilterSnoc(ds[..i], keep, ds[i], !Matches(ds[i], name, discriminator));
      if ds[i].Name != name || ds[i].Discriminator != discriminator {
        r := r + [ds[i]];
      }
      keep := keep + [!Matches(ds[i], name, discriminator)];
      i := i + 1;
    }
    TakeAll(ds, i);
    assert keep == NoMatchMask(ds, name, discriminator);
  }

  /** The directives that survive `Remove`: all but `x`. */
  lemma RemoveMembers(ds: seq<Directive>, x: Directive)
    ensures forall d :: d in Filter(ds, OtherMask(ds, x)) <==> d in ds && d != x
  {
    forall d ensures d in Filter(ds, OtherMask(ds, x)) <==> d in ds && d != x {
      FilterMember(ds, OtherMask(ds, x), d);
    }
  }

  /** The directives that `GetAllByName` returns. */
  lemma NameMembers(ds: seq<Directive>, name: string)
    ensures forall d :: d in Filter(ds, NameMask(ds, name)) <==> d in ds && d.Name == name
  {
    forall d ensures d in Filter(ds, NameMask(ds, name)) <==> d in ds && d.Name == name {
      FilterMember(ds, NameMask(ds, name), d);
    }
  }

  /** `Remove` of a directive that is not a child changes nothing. */
  lemma RemoveAbsent(ds: seq<Directive>, x: Directive)
    requires x !in ds
    ensures Filter(ds, OtherMask(ds, x)) == ds
  {
    FilterAll(ds, OtherMask(ds, x));
  }

  /** The directives that survive `RemoveAllMatches`. */
  lemma NoMatchMembers(ds: seq<Directive>, name: string, discriminator: string)
    ensures forall d :: d in Filter(ds, NoMatchMask(ds, name, discriminator)) <==> d in ds && !Matches(d, name, discriminator)
  {
    forall d ensures d in Filter(ds, NoMatchMask(ds, name, discriminator)) <==> d in ds && !Matches(d, name, discriminator) {
      FilterMember(ds, NoMatchMask(ds, name, discriminator), d);
    }
  }

  /** `Remove` keeps the survivors in their relative order. */
  lemma RemoveKeepsOrder(ds: seq<Directive>, x: Directive, i: nat, j: nat)
    requires i < j < |ds| && ds[i] != x && ds[j] != x
    ensures exists p, q :: 0 <= p < q < |Filter(ds, OtherMask(ds, x))| && Filter(ds, OtherMask(ds, x))[p] == ds[i] && Filter(ds, OtherMask(ds, x))[q] == ds[j]
  {
    FilterKeepsOrder(ds, OtherMask(ds, x), i, j);
  }

  /** `RemoveAllMatches` keeps the survivors in their relative order. */
  lemma NoMatchKeepsOrder(ds: seq<Directive>, name: string, discriminator: string, i: nat, j: nat)
    requires i < j < |ds| && !Matches(ds[i], name, discriminator) && !Matches(ds[j], name, discriminator)
    ensures exists p, q :: 0 <= p < q < |Filter(ds, NoMatchMask(ds, name, discriminator))| && Filter(ds, NoMatchMask(ds, name, discriminator))[p] == ds[i] && Filter(ds, NoMatchMask(ds, name, discriminator))[q] == ds[j]
  {
    FilterKeepsOrder(ds, NoMatchMask(ds, name, discriminator), i, j);
  }

  /** `GetAllByName` lists the directives in their order among the children. */
  lemma NameKeepsOrder(ds: seq<Directive>, name: string, i: nat, j: nat)
    requires i < j < |ds| && ds[i].Name == name && ds[j].Name == name
    ensures exists p, q :: 0 <= p < q < |Filter(ds, NameMask(ds, name))| && Filter(ds, NameMask(ds, name))[p] == ds[i] && Filter(ds, NameMask(ds, name))[q] == ds[j]
  {
    FilterKeepsOrder(ds, NameMask(ds, name), i, j);
  }

  /** Two lookups of the same Name and Discriminator return the same
      directive, whether the first one found or created it. */
  method GetOrCreateTwice(b: Block, name: string, discriminator: string) returns (d1: Directive, d2: Directive)
    modifies b
    ensures d1 == d2
  {
    d1 := b.GetOrCreateDirective(name, discriminator);
    d2 := b.GetOrCreateDirective(name, discriminator);
  }
}
