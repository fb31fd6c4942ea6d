/** Concrete trees and the text they are written as. */
module Scenarios {
  import opened Text
  import opened Tree
  import opened Ordering
  import opened Render
  import opened Caddyfile

  /** A top-level directive whose block holds one directive without a block
      is written on three lines: its tokens and the opening brace, the
      nested directive indented by one tab, and the closing brace. */
  lemma RenderTopWithOneChild(k: Key, c: Node, head: string, line: string)
    requires c.children == []
    requires head == Join(Tokens(0, k)) + (if |Tokens(0, k)| > 0 then " " else "") + "{\n"
    requires line == "\t" + Join(Tokens(1, c.key)) + "\n"
    ensures RenderDir(0, Node(k, [c])) == head + line + "}\n"
  {
    var t, l := Join(Tokens(0, k)), Join(Tokens(1, c.key));
    var sp := if |Tokens(0, k)| > 0 then " " else "";
    RenderWithOneChild(0, k, c);
    assert Tabs(0) == "" && Tabs(1) == "\t";
    assert RenderDir(0, Node(k, [c])) == "" + t + ((sp + "{\n" + ("\t" + l + "\n") + "" + "}") + "\n");
    Regroup(t, sp, l);
  }

  lemma Regroup(t: string, sp: string, l: string)
    ensures "" + t + ((sp + "{\n" + ("\t" + l + "\n") + "" + "}") + "\n") == t + sp + "{\n" + ("\t" + l + "\n") + "}\n"
  {
    assert "}" + "\n" == "}\n";
  }

  /** Two top-level directives without blocks, `reverse_proxy` added before
      `tls`: the explicit Order 1 sorts first, and at the top level only the
      arguments are written, not the Names. */
  lemma ScenarioTopLevel(rp: Node, tls: Node)
    requires rp == Node(Key(DefaultOrder, "reverse_proxy", "", ["localhost:9000"]), [])
    requires tls == Node(Key(1, "tls", "", ["internal"]), [])
    ensures SortBlock(Less, 0, [rp, tls]) == [tls, rp]
    ensures RenderBlock(0, SortBlock(Less, 0, [rp, tls])) == "internal\n" + "localhost:9000\n"
  {
    SortLeaf(Less, 0, rp);
    SortLeaf(Less, 0, tls);
    SortPair(Less, 0, rp, tls);
    RenderPair(0, tls, rp);
    RenderLeaf(0, tls);
    RenderLeaf(0, rp);
    assert Tokens(0, tls.key) == ["internal"] && Tokens(0, rp.key) == ["localhost:9000"];
  }

  lemma RenderHandle(c: Node, h: Node)
    requires c == Node(Key(DefaultOrder, "reverse_proxy", "", ["localhost:9000"]), [])
    requires h == Node(Key(DefaultOrder, "handle", "/api/*", ["/api/*"]), [c])
    ensures RenderDir(0, h) == "/api/* {\n" + "\treverse_proxy localhost:9000\n" + "}\n"
  {
    assert "/api/*" + " " + "{\n" == "/api/* {\n";
    assert "\t" + ("reverse_proxy" + " " + "localhost:9000") + "\n" == "\treverse_proxy localhost:9000\n";
    assert Tokens(0, h.key) == ["/api/*"];
    assert Tokens(1, c.key) == ["reverse_proxy", "localhost:9000"];
    JoinTwo("reverse_proxy", "localhost:9000");
    RenderTopWithOneChild(h.key, c, "/api/* {\n", "\treverse_proxy localhost:9000\n");
  }

  /** A site block with one nested directive: the nested Name is written,
      the top-level one is not. With one directive per block the comparator
      plays no part. */
  lemma ScenarioNested(cmp: Comparator, c: Node, h: Node)
    requires c == Node(Key(DefaultOrder, "reverse_proxy", "", ["localhost:9000"]), [])
    requires h == Node(Key(DefaultOrder, "handle", "/api/*", ["/api/*"]), [c])
    ensures SortBlock(cmp, 0, [h]) == [h]
    ensures RenderBlock(0, SortBlock(cmp, 0, [h])) == "/api/* {\n" + "\treverse_proxy localhost:9000\n" + "}\n"
  {
    SortWithOneChild(cmp, 0, h.key, c);
    SortOne(cmp, 0, h);
    RenderOne(0, h);
    RenderHandle(c, h);
  }

  /** A directive with an empty block is a leaf. */
  lemma LeafModel(d: Directive)
    requires d.Valid() && d.block.Children == []
    ensures d.Model() == Node(d.KeyOf(), [])
  {
  }

  /** A directive whose block holds one directive. */
  lemma OneChildModel(d: Directive)
    requires d.Valid() && |d.block.Children| == 1
    ensures d.Model() == Node(d.KeyOf(), [d.block.Children[0].Model()])
  {
    d.block.ModelsOfEach(d.block.Children);
  }

  /** The `handle` site block with `reverse_proxy localhost:9000` inside,
      built top-down as callers build it: fetch-or-create `handle` in
      an empty root, give it its argument, fetch-or-create `reverse_proxy` in
      its block and give that its argument. */
  method BuildRoot() returns (root: Block, h: Directive, c: Directive)
    ensures fresh(root) && fresh(h.block) && fresh(c.block) && root.Repr == {root, h.block, c.block}
    ensures root.Valid() && root.Models() == [Node(Key(DefaultOrder, "handle", "/api/*", ["/api/*"]),
                                                  [Node(Key(DefaultOrder, "reverse_proxy", "", ["localhost:9000"]), [])])]
  {
    root, h := NewHandle();
    c := AddProxy(root, h);
    root.Refresh();
    assert [h][..0] == [];
    LeafModel(c);
    OneChildModel(h);
  }

  /** An empty root given the `handle` directive and its argument. */
  method NewHandle() returns (root: Block, h: Directive)
    ensures fresh(root) && fresh(h.block) && root.Valid()
    ensures root.Children == [h] && root.Repr == {root, h.block}
    ensures h.block.Repr == {h.block} && h.block.Children == []
    ensures h.KeyOf() == Key(DefaultOrder, "handle", "/api/*", ["/api/*"])
  {
    root := new Block();
    h := root.GetOrCreateDirective("handle", "/api/*");
    h.AddArgs(["/api/*"]);
  }

  /** `reverse_proxy localhost:9000` fetched-or-created in the block of
      `handle`, after `handle` was attached to the root. */
  method AddProxy(root: Block, h: Directive) returns (c: Directive)
    requires root.Valid() && root.Children == [h] && root.Repr == {root, h.block}
    requires h.block.Repr == {h.block} && h.block.Children == []
    modifies h.block
    ensures fresh(c.block) && h.block.Valid() && c.block.Children == []
    ensures h.block.Children == [c] && h.block.Repr == {h.block, c.block}
    ensures root.Children == [h] && root.Repr == old(root.Repr) && root !in h.block.Repr
    ensures h.KeyOf() == old(h.KeyOf())
    ensures c.KeyOf() == Key(DefaultOrder, "reverse_proxy", "", ["localhost:9000"])
  {
    c := h.block.GetOrCreateDirective("reverse_proxy", "");
    c.AddArgs(["localhost:9000"]);
  }

  /** `Marshal` of the root built by `BuildRoot` writes the site block with
      its nested directive. */
  method BuildAndMarshal() returns (text: string)
    ensures text == "/api/* {\n" + "\treverse_proxy localhost:9000\n" + "}\n"
  {
    var root, h, c := BuildRoot();
    ghost var before := root.Models();
    text := root.Marshal();
    WrittenText(before, root.Models(), text);
  }

  /** The text `Marshal` returns for the root built by `BuildRoot`. */
  lemma WrittenText(before: seq<Node>, after: seq<Node>, text: string)
    requires before == [Node(Key(DefaultOrder, "handle", "/api/*", ["/api/*"]),
                             [Node(Key(DefaultOrder, "reverse_proxy", "", ["localhost:9000"]), [])])]
    requires after == SortBlock(Less, 0, before) && text == RenderBlock(0, after)
    ensures text == "/api/* {\n" + "\treverse_proxy localhost:9000\n" + "}\n"
  {
    ScenarioNested(Less, before[0].children[0], before[0]);
  }

  /** The global options block, holding `email admin@example.com`. */
  const GlobalText := "{\n" + "\temail admin@example.com\n" + "}\n"
  /** A site with an explicit Order 1, holding `reverse_proxy app:80`. */
  const SiteText := "example.com {\n" + "\treverse_proxy app:80\n" + "}\n"

  lemma RenderGlobal(e: Node, g: Node)
    requires e == Node(Key(DefaultOrder, "email", "", ["admin@example.com"]), [])
    requires g == Node(Key(DefaultOrder, "", "", []), [e])
    ensures RenderDir(0, g) == GlobalText
  {
    assert "" + "" + "{\n" == "{\n";
    assert "\t" + ("email" + " " + "admin@example.com") + "\n" == "\temail admin@example.com\n";
    assert Tokens(0, g.key) == [];
    assert Tokens(1, e.key) == ["email", "admin@example.com"];
    JoinTwo("email", "admin@example.com");
    RenderTopWithOneChild(g.key, e, "{\n", "\temail admin@example.com\n");
  }

  lemma RenderSite(p: Node, n: Node)
    requires p == Node(Key(DefaultOrder, "reverse_proxy", "", ["app:80"]), [])
    requires n == Node(Key(1, "", "", ["example.com"]), [p])
    ensures RenderDir(0, n) == SiteText
  {
    assert "example.com" + " " + "{\n" == "example.com {\n";
    assert "\t" + ("reverse_proxy" + " " + "app:80") + "\n" == "\treverse_proxy app:80\n";
    assert Tokens(0, n.key) == ["example.com"];
    assert Tokens(1, p.key) == ["reverse_proxy", "app:80"];
    JoinTwo("reverse_proxy", "app:80");
    RenderTopWithOneChild(n.key, p, "example.com {\n", "\treverse_proxy app:80\n");
  }

  /** The as-written comparator says each of the two blocks is less than
      the other, so every sort swaps them. */
  lemma SwapsEachTime(e: Node, g: Node, p: Node, n: Node)
    requires e == Node(Key(DefaultOrder, "email", "", ["admin@example.com"]), [])
    requires g == Node(Key(DefaultOrder, "", "", []), [e])
    requires p == Node(Key(DefaultOrder, "reverse_proxy", "", ["app:80"]), [])
    requires n == Node(Key(1, "", "", ["example.com"]), [p])
    ensures SortBlock(Less, 0, [g, n]) == [n, g]
    ensures SortBlock(Less, 0, [n, g]) == [g, n]
  {
    SortWithOneChild(Less, 0, g.key, e);
    SortWithOneChild(Less, 0, n.key, p);
    assert Less(0, n.key, g.key) && Less(0, g.key, n.key);
    SortPair(Less, 0, g, n);
    SortPair(Less, 0, n, g);
  }

  /** The global options block next to a site with an explicit Order: the
      first `Marshal` puts the site first, the second puts it back, and the
      two texts differ. */
  lemma MarshalTwiceDiffers(e: Node, g: Node, p: Node, n: Node)
    requires e == Node(Key(DefaultOrder, "email", "", ["admin@example.com"]), [])
    requires g == Node(Key(DefaultOrder, "", "", []), [e])
    requires p == Node(Key(DefaultOrder, "reverse_proxy", "", ["app:80"]), [])
    requires n == Node(Key(1, "", "", ["example.com"]), [p])
    ensures SortBlock(Less, 0, [g, n]) == [n, g]
    ensures SortBlock(Less, 0, SortBlock(Less, 0, [g, n])) == [g, n]
    ensures RenderBlock(0, SortBlock(Less, 0, [g, n])) == SiteText + GlobalText
    ensures RenderBlock(0, SortBlock(Less, 0, SortBlock(Less, 0, [g, n]))) == GlobalText + SiteText
    ensures SiteText + GlobalText != GlobalText + SiteText
  {
    SwapsEachTime(e, g, p, n);
    RenderPair(0, n, g);
    RenderPair(0, g, n);
    RenderGlobal(e, g);
    RenderSite(p, n);
    assert (SiteText + GlobalText)[0] == 'e' && (GlobalText + SiteText)[0] == '{';
  }

  /** With the mirror clause the same two blocks are written global options
      first, whatever the order they were added in. */
  lemma IntendedMarshalGlobalsFirst(e: Node, g: Node, p: Node, n: Node)
    requires e == Node(Key(DefaultOrder, "email", "", ["admin@example.com"]), [])
    requires g == Node(Key(DefaultOrder, "", "", []), [e])
    requires p == Node(Key(DefaultOrder, "reverse_proxy", "", ["app:80"]), [])
    requires n == Node(Key(1, "", "", ["example.com"]), [p])
    ensures SortBlock(LessIntended, 0, [g, n]) == [g, n]
    ensures SortBlock(LessIntended, 0, [n, g]) == [g, n]
    ensures RenderBlock(0, SortBlock(LessIntended, 0, [n, g])) == GlobalText + SiteText
  {
    SortWithOneChild(LessIntended, 0, g.key, e);
    SortWithOneChild(LessIntended, 0, n.key, p);
    SortPair(LessIntended, 0, g, n);
    SortPair(LessIntended, 0, n, g);
    RenderPair(0, g, n);
    RenderGlobal(e, g);
    RenderSite(p, n);
  }
}
