/** The sibling comparator of `Block.sort`. */
module Ordering {
  import opened Text
  import opened Tree

  /** `less(level, a, b)`: should `a` come before `b` among siblings at
      nesting level `level`. */
  type Comparator = (int, Key, Key) -> bool

  /** The keys after the level-0 test: Order, then Name, then the first
      argument when both sides have one and they differ, then Discriminator. */
  predicate KeyLess(a: Key, b: Key)
  {
    if a.order != b.order then a.order < b.order
    else if a.name != b.name then StrLess(a.name, b.name)
    else if |a.args| > 0 && |b.args| > 0 && a.args[0] != b.args[0] then StrLess(a.args[0], b.args[0])
    else StrLess(a.disc, b.disc)
  }

  /** The comparator as the source writes it: at level 0 a global directive
      comes before one with arguments; there is no clause for the mirror case,
      which falls through to the other keys. */
  predicate Less(level: int, a: Key, b: Key)
  {
    (level == 0 && IsGlobal(a) && !IsGlobal(b)) || KeyLess(a, b)
  }

  /** The comparator with a mirror clause: at level 0 global status decides
      whenever it differs. */
  predicate LessIntended(level: int, a: Key, b: Key)
  {
    if level == 0 && IsGlobal(a) != IsGlobal(b) then IsGlobal(a) else KeyLess(a, b)
  }

  /** Everything the comparator consults: Order, Name, the first argument if
      any, Discriminator. */
  function TieKey(k: Key): (int, string, seq<string>, string)
  {
    (k.order, k.name, if |k.args| == 0 then [] else [k.args[0]], k.disc)
  }

  /** Directives agreeing on every sort key are never ordered. */
  ghost predicate RespectsTies(cmp: Comparator, level: int)
  {
    forall a, b :: TieKey(a) == TieKey(b) ==> !cmp(level, a, b)
  }

  ghost predicate Asymmetric(cmp: Comparator, level: int)
  {
    forall a, b :: cmp(level, a, b) ==> !cmp(level, b, a)
  }

  /** At level 0 every global directive is strictly before every directive
      with arguments. */
  ghost predicate GlobalsFirst(cmp: Comparator)
  {
    forall a, b :: IsGlobal(a) && !IsGlobal(b) ==> cmp(0, a, b) && !cmp(0, b, a)
  }

  lemma KeyLessAsymmetric(a: Key, b: Key)
    ensures KeyLess(a, b) ==> !KeyLess(b, a)
  {
    StrLessAsymmetric(a.name, b.name);
    if |a.args| > 0 && |b.args| > 0 {
      StrLessAsymmetric(a.args[0], b.args[0]);
    }
    StrLessAsymmetric(a.disc, b.disc);
  }

  /** The as-written comparator answers true both ways exactly at level 0,
      for a global directive and a non-global one that the remaining keys put
      first. */
  lemma LessBothWays(level: int, a: Key, b: Key)
    ensures Less(level, a, b) && Less(level, b, a) <==>
      level == 0 && ((IsGlobal(a) && !IsGlobal(b) && KeyLess(b, a)) || (IsGlobal(b) && !IsGlobal(a) && KeyLess(a, b)))
  {
    KeyLessAsymmetric(a, b);
  }

  /** Below the top level the comparator is asymmetric. */
  lemma LessAsymmetricNested(level: int)
    requires level != 0
    ensures Asymmetric(Less, level)
  {
    forall a, b ensures Less(level, a, b) ==> !Less(level, b, a) {
      KeyLessAsymmetric(a, b);
    }
  }

  lemma LessRespectsTies(level: int)
    ensures RespectsTies(Less, level) && RespectsTies(LessIntended, level)
  {
    forall a: Key, b: Key | TieKey(a) == TieKey(b)
      ensures !Less(level, a, b) && !LessIntended(level, a, b)
    {
      StrLessIrreflexive(a.disc);
    }
  }

  /** An explicit smaller Order wins, all else being equal in global status. */
  lemma OrderDecides(level: int, a: Key, b: Key)
    requires a.order < b.order && IsGlobal(a) == IsGlobal(b)
    ensures Less(level, a, b) && !Less(level, b, a)
  {
  }

  /** Line 156 alone does not put global directives first: with a smaller
      Order, a directive with arguments is also "less" than a global one. */
  lemma LessNotGlobalsFirst()
    ensures !GlobalsFirst(Less)
  {
    var g := Key(DefaultOrder, "", "", []);
    var n := Key(1, "", "", ["example.com"]);
    assert IsGlobal(g) && !IsGlobal(n) && Less(0, n, g);
  }

  lemma IntendedGlobalsFirst()
    ensures GlobalsFirst(LessIntended)
  {
  }

  lemma IntendedAsymmetric(level: int)
    ensures Asymmetric(LessIntended, level)
  {
    forall a, b ensures LessIntended(level, a, b) ==> !LessIntended(level, b, a) {
      KeyLessAsymmetric(a, b);
    }
  }

  /** Among keys that all have arguments, or all have none, the complement of
      `KeyLess` is transitive: ties and order behave as a lexicographic order. */
  lemma KeyLessNegTransitive(a: Key, b: Key, c: Key)
    requires (|a.args| > 0 && |b.args| > 0 && |c.args| > 0) || (|a.args| == 0 && |b.args| == 0 && |c.args| == 0)
    ensures !KeyLess(a, b) && !KeyLess(b, c) ==> !KeyLess(a, c)
  {
    StrLessTotal(a.name, b.name); StrLessTotal(b.name, c.name);
    StrLessTransitive(c.name, b.name, a.name);
    StrLessAsymmetric(a.name, c.name);
    StrLessTotal(a.disc, b.disc); StrLessTotal(b.disc, c.disc);
    StrLessTransitive(c.disc, b.disc, a.disc);
    StrLessAsymmetric(a.disc, c.disc);
    if |a.args| > 0 {
      StrLessTotal(a.args[0], b.args[0]); StrLessTotal(b.args[0], c.args[0]);
      StrLessTransitive(c.args[0], b.args[0], a.args[0]);
      StrLessAsymmetric(a.args[0], c.args[0]);
    }
  }

  /** Mixing siblings with and without arguments breaks transitivity: the
      first argument is compared for A and C but skipped against B. */
  lemma LessNotTransitive()
    ensures exists a, b, c :: Less(1, a, c) && Less(1, c, b) && Less(1, b, a)
  {
    var a := Key(DefaultOrder, "x", "z", ["a"]);
    var b := Key(DefaultOrder, "x", "m", []);
    var c := Key(DefaultOrder, "x", "a", ["b"]);
    assert Less(1, a, c) && Less(1, c, b) && Less(1, b, a);
  }
}
