# Caddyfile tree and writer

This project models the in-memory Caddyfile tree of `plugin/caddyfile/caddyfile.go` and its writer. The tree is made of two kinds of node:

- A **directive** carries an `Order`, a `Name`, a `Discriminator`, a list of `Args`, and a block of nested directives.
- A **block** holds an ordered list of child directives.

The callers build the tree with a small mutation and lookup API (create, add arguments, append, fetch-or-create, first match, all by name, remove, remove all matches). `Marshal` then writes it as tab-indented, brace-delimited text. Before writing a block, the writer sorts that block's children in place. The sort is stable and uses this sibling comparator:

1. At the top level only, a *global* directive is less than one with arguments. A global directive is one without arguments. The reverse comparison has no clause of its own and falls through to the next keys (see Findings).
2. Then `Order`.
3. Then `Name`.
4. Then the first argument, when both sides have one and they differ.
5. Then `Discriminator`.

The model has two layers:

- **Heap layer** (module `Caddyfile`):
  - The classes `Directive` and `Block` hold the same fields as the Go types. A `Directive` owns its `block` by composition, where the Go type embeds it.
  - Every method changes exactly what the Go method changes.
  - The sort and write methods take the sibling comparator as a parameter. `Block.Marshal` passes `Ordering.Less`, the comparator the Go code uses. `Block.MarshalGlobalsFirst` is the corrected writer and passes `Ordering.LessIntended`.
  - `Block.Valid()` states that the blocks form a tree. Two ghost footprints, `Repr` (blocks) and `Dirs` (directives), frame it.
  - `Directive.Model()` and `Block.Models()` read a sub-tree off the heap as a value.
- **Value layer**: the modules `Tree`, `Text`, `Ordering`, `Sorting` and `Render`.
  - A `Node(key, children)` is a directive as a value.
  - `Ordering.Less` is the comparator exactly as the source writes it. `Ordering.LessIntended` is the same comparator with the level-0 mirror clause that the source omits (see Findings).
  - `Sorting.SortNodes` is the stable sort, an insertion sort.
  - `Render.SortBlock`/`SortDir` give the tree a write leaves behind.
  - `Render.RenderBlock`/`RenderDir` give the text it produces.

The heap methods are proved against the value layer. `Block.Write` leaves `Models() == SortBlock(cmp, level, old(Models()))` and returns `RenderBlock(level, Models())`. The lemmas about the value functions state what a write does:

- the sort is a permutation;
- it is sorted and stable when the comparator is a strict weak order;
- a second `Marshal` writes the same text when no two top-level directives are less than each other, and always with the mirror clause;
- with the mirror clause, global directives come first.

`Tree.IsGlobal` is `IsGlobalBlock` (lines 173-175): a directive is global exactly when it has no arguments. `Text.StrLess` is Go's string `<`: lexicographic, with a proper prefix first.

The code writes a `Name` only below the top level (line 131). A top-level `tls` directive with the argument `internal` is therefore written as `internal` (`Scenarios.ScenarioTopLevel`), and a top-level `handle` directive with the argument `/api/*` opens its block as `/api/* {` (`Scenarios.ScenarioNested`, `Scenarios.BuildAndMarshal`).

## Model

| member | source | states |
|---|---|---|
| Caddyfile.Directive.constructor | plugin/caddyfile/caddyfile.go:28-35 | a new directive has the given Name and Discriminator, Order 2147483647, no arguments and a fresh empty, well-formed block |
| Caddyfile.Block.constructor | plugin/caddyfile/caddyfile.go:38-42 | a new block has no children and is well formed |
| Caddyfile.Directive.AddArgs | plugin/caddyfile/caddyfile.go:45-47 | the arguments are appended in the given order, without deduplication; Order, Name and Discriminator are unchanged |
| Caddyfile.Block.AddDirective | plugin/caddyfile/caddyfile.go:50-52 | the directive becomes the last child and nothing else moves; the tree stays well formed when the new sub-tree is disjoint from it |
| Caddyfile.FirstMatch | plugin/caddyfile/caddyfile.go:65-72 | the position of the earliest directive matching both Name and Discriminator, or the length when none does |
| Caddyfile.Block.GetFirstMatch | plugin/caddyfile/caddyfile.go:65-72 | returns the earliest child matching both Name and Discriminator, and null exactly when no child matches |
| Caddyfile.Block.GetAllByName | plugin/caddyfile/caddyfile.go:75-83 | returns, in child order, exactly the children with that Name, whatever their Discriminator |
| Caddyfile.NameMembers | plugin/caddyfile/caddyfile.go:75-83 | a directive is in the result of the name filter exactly when it is a child with that Name |
| Caddyfile.NameKeepsOrder | plugin/caddyfile/caddyfile.go:75-83 | two children with that Name appear in the result in their order among the children |
| Caddyfile.Block.GetOrCreateDirective | plugin/caddyfile/caddyfile.go:55-62 | returns the first matching child and leaves the children alone; otherwise appends exactly one fresh directive with Order 2147483647, no arguments, an empty block and the given keys, and returns it; either way the result is the first match afterwards |
| Caddyfile.GetOrCreateTwice | plugin/caddyfile/caddyfile.go:55-62 | two fetch-or-create calls with the same keys return the same directive |
| Caddyfile.Block.Remove | plugin/caddyfile/caddyfile.go:86-94 | the children become the old children with every occurrence of that reference dropped, in order; the tree stays well formed |
| Caddyfile.RemoveMembers | plugin/caddyfile/caddyfile.go:86-94 | after removal exactly the children other than the removed reference remain |
| Caddyfile.RemoveKeepsOrder | plugin/caddyfile/caddyfile.go:86-94 | two surviving children keep their relative order |
| Caddyfile.RemoveAbsent | plugin/caddyfile/caddyfile.go:86-94 | removing a directive that is not a child changes nothing |
| Caddyfile.Unmatched | plugin/caddyfile/caddyfile.go:97-104 | the loop keeps, in order, exactly the directives that differ in Name or Discriminator |
| Caddyfile.Block.RemoveAllMatches | plugin/caddyfile/caddyfile.go:97-105 | the children become the old children without those matching both Name and Discriminator, in order; the tree stays well formed |
| Caddyfile.NoMatchMembers | plugin/caddyfile/caddyfile.go:97-105 | afterwards no child matches both keys, and every child differing in Name or Discriminator survives |
| Caddyfile.NoMatchKeepsOrder | plugin/caddyfile/caddyfile.go:97-105 | two surviving children keep their relative order |
| Caddyfile.SortDirectives | plugin/caddyfile/caddyfile.go:153-170 | the stable sort over the directive references, under the given comparator, is a permutation of them |
| Caddyfile.SortDirectivesPair | plugin/caddyfile/caddyfile.go:153-170 | two sibling references swap exactly when the second is less than the first, so siblings with tied keys keep their insertion order |
| Caddyfile.MirrorsSort | plugin/caddyfile/caddyfile.go:153-170 | for any comparator, sorting the references moves each directive exactly as sorting their values moves the values |
| Caddyfile.Block.Sort | plugin/caddyfile/caddyfile.go:153-170 | reorders the children in place into a permutation of themselves, whose values are the stable sort of the old values under the given comparator; the directive references end in the order `SortDirectives` gives them, so children with equal keys keep their insertion order; the tree stays well formed |
| Caddyfile.Directive.Line | plugin/caddyfile/caddyfile.go:129-141 | the line starts with level tabs, then the Name below the top level when not empty, then each argument, one space between tokens; reports whether a token was written |
| Caddyfile.Directive.Braces | plugin/caddyfile/caddyfile.go:142-149 | writes a space when a token precedes, then `{`, a newline, the block written one level deeper, level tabs and `}` |
| Caddyfile.Directive.Write | plugin/caddyfile/caddyfile.go:128-151 | the text is the directive's rendering after its sub-tree is sorted, under the given comparator, at every level below; the tree stays well formed |
| Caddyfile.Block.WriteChildren | plugin/caddyfile/caddyfile.go:122-124 | writing each child in turn yields the concatenation of their renderings and leaves each child with its own sub-tree sorted |
| Caddyfile.Block.Write | plugin/caddyfile/caddyfile.go:120-125 | sorts the children, then writes them: the tree becomes the sorted tree of the old one under the given comparator, the children end in the order `SortDirectives` gives them, and the text is the rendering |
| Caddyfile.Block.Marshal | plugin/caddyfile/caddyfile.go:108-117 | writes the whole tree from the top level with the comparator as written: the tree becomes its sorted tree under `Less`, the top-level children end in the order `SortDirectives` gives them under `Less`, and the text is the rendering; writing again reorders nothing when no two top-level directives are less than each other |
| Caddyfile.Block.MarshalGlobalsFirst | plugin/caddyfile/caddyfile.go:108-125 | the corrected writer, with the mirror clause: the top-level children end in the order `SortDirectives` gives them under `LessIntended`; afterwards global directives precede all directives with arguments, and writing again reorders nothing |
| Text.StrLess | plugin/caddyfile/caddyfile.go:163-168 | Go's `<` on strings: lexicographic, a proper prefix first |
| Tree.IsGlobal | plugin/caddyfile/caddyfile.go:173-175 | a directive is global exactly when it has no arguments |
| Ordering.KeyLess | plugin/caddyfile/caddyfile.go:159-168 | Order first, then Name, then the first argument when both sides have one and they differ, then Discriminator |
| Ordering.Less | plugin/caddyfile/caddyfile.go:155-169 | the sibling comparator as written: at level 0 a global directive is less than one with arguments, and otherwise the keys of `KeyLess` decide |
| Text.Tabs | plugin/caddyfile/caddyfile.go:129 | `level` tab characters and nothing else |
| Text.StrLessAsymmetric | plugin/caddyfile/caddyfile.go:162-168 | the string order used by the comparator never holds both ways |
| Text.StrLessTotal | plugin/caddyfile/caddyfile.go:162-168 | any two different strings are ordered one way or the other |
| Text.JoinSnoc | plugin/caddyfile/caddyfile.go:135-141 | appending a token adds one space exactly when a token was already written |
| Ordering.LessBothWays | plugin/caddyfile/caddyfile.go:156-168 | the comparator as written holds both ways exactly at level 0, for a global and a non-global directive that the later keys put first |
| Ordering.LessAsymmetricNested | plugin/caddyfile/caddyfile.go:159-168 | below the top level the comparator never holds both ways |
| Ordering.LessRespectsTies | plugin/caddyfile/caddyfile.go:159-168 | directives agreeing on Order, Name, first argument and Discriminator are never ordered under either comparator |
| Ordering.OrderDecides | plugin/caddyfile/caddyfile.go:159-160 | with equal global status, a smaller Order comes first, so an explicit Order 1 precedes the default |
| Ordering.LessNotGlobalsFirst | plugin/caddyfile/caddyfile.go:156-160 | the comparator as written does not always put global directives first: a site with a smaller Order is also less than the global block |
| Ordering.LessNotTransitive | plugin/caddyfile/caddyfile.go:165-168 | mixing siblings with and without arguments breaks transitivity: three directives are ordered in a cycle |
| Ordering.IntendedGlobalsFirst | plugin/caddyfile/caddyfile.go:156-157 | with the mirror clause, every global directive is strictly before every directive with arguments at level 0 |
| Ordering.IntendedAsymmetric | plugin/caddyfile/caddyfile.go:156-168 | with the mirror clause, the comparator never holds both ways, at any level |
| Sorting.Insert | plugin/caddyfile/caddyfile.go:153-170 | one step of the insertion sort: the new sibling moves left past every sibling it is less than; the result is a permutation of the run plus the new sibling |
| Sorting.SortNodes | plugin/caddyfile/caddyfile.go:153-170 | the stable sort is always a permutation of the siblings, whatever the comparator |
| Sorting.SortSorted | plugin/caddyfile/caddyfile.go:153-170 | when the comparator is a strict weak order on the siblings, no sibling ends up less than one to its left |
| Sorting.LessStrictWeak | plugin/caddyfile/caddyfile.go:156-168 | the comparator as written is a strict weak order on siblings that all have arguments, or none of which has any |
| Sorting.SortStable | plugin/caddyfile/caddyfile.go:155 | siblings that agree on every sort key keep their relative order |
| Sorting.SortFixesSorted | plugin/caddyfile/caddyfile.go:153-170 | a sequence with no sibling less than its left neighbour is left unchanged |
| Sorting.SortAdjacentSorted | plugin/caddyfile/caddyfile.go:153-170 | when the comparator is asymmetric on the siblings, the sort leaves no sibling less than its left neighbour |
| Sorting.SortIdempotent | plugin/caddyfile/caddyfile.go:153-170 | when the comparator is asymmetric on the siblings, sorting twice is sorting once |
| Sorting.SortPartitioned | plugin/caddyfile/caddyfile.go:155-157 | a comparator that puts global directives first yields all global siblings before all others |
| Sorting.TwoSiblings | plugin/caddyfile/caddyfile.go:153-170 | two siblings swap exactly when the second is less than the first |
| Render.RenderDir | plugin/caddyfile/caddyfile.go:128-151 | the text of a directive: indentation, its tokens, and when its block is not empty a space if a token precedes, `{`, a newline, the block one level deeper, indentation and `}`; then a newline |
| Render.RenderBlock | plugin/caddyfile/caddyfile.go:122-124 | the text of a block: the texts of its directives one after another |
| Render.RenderLeaf | plugin/caddyfile/caddyfile.go:128-151 | a directive without children is one line: indentation, tokens, newline |
| Render.RenderWithOneChild | plugin/caddyfile/caddyfile.go:128-151 | a directive whose block holds one leaf is its line, a brace, the child's line one tab deeper, and the closing brace |
| Render.SortCommutes | plugin/caddyfile/caddyfile.go:120-125 | sorting siblings and then writing each one gives the same tree as sorting inside each first, because inner sorts keep every sort key |
| Render.SortBlockFixesSorted | plugin/caddyfile/caddyfile.go:120-125 | writing a tree whose blocks are all in order leaves it unchanged |
| Render.SortBlockSortedTree | plugin/caddyfile/caddyfile.go:120-125 | when the comparator is asymmetric on every block, writing leaves every block in order |
| Render.SortBlockIdempotent | plugin/caddyfile/caddyfile.go:120-125 | under the same condition, writing twice leaves the same tree as writing once |
| Render.LessAsymTree | plugin/caddyfile/caddyfile.go:156-168 | for the comparator as written, only the top-level siblings can break asymmetry |
| Render.MarshalIdempotent | plugin/caddyfile/caddyfile.go:108-125 | with the comparator as written, a second `Marshal` writes the same tree and text, provided no top-level pair is less both ways |
| Render.IntendedMarshalIdempotent | plugin/caddyfile/caddyfile.go:108-125 | with the mirror clause, a second `Marshal` always writes the same tree |
| Render.IntendedGlobalsFirstWritten | plugin/caddyfile/caddyfile.go:108-125 | with the mirror clause, the written top level lists every global directive before every directive with arguments |
| Scenarios.ScenarioTopLevel | plugin/caddyfile/caddyfile.go:128-170 | `tls internal` with Order 1 sorts before a default-Order `reverse_proxy`, and only the arguments are written at the top level |
| Scenarios.ScenarioNested | plugin/caddyfile/caddyfile.go:128-151 | under any comparator, a `handle` directive holding `reverse_proxy localhost:9000` is written as a site block with its nested line |
| Scenarios.BuildRoot | plugin/caddyfile/caddyfile.go:45-62 | fetch-or-create `handle` in an empty root, add its argument, then fetch-or-create `reverse_proxy` in its block and add that argument: the result is a well-formed tree holding exactly that site block |
| Scenarios.BuildAndMarshal | plugin/caddyfile/caddyfile.go:108-151 | `Marshal` of that tree returns `/api/* {`, the nested `reverse_proxy localhost:9000` line one tab deep, and `}` |
| Scenarios.SwapsEachTime | plugin/caddyfile/caddyfile.go:153-170 | a global block and an Order-1 site are less than each other, so every sort swaps them |
| Scenarios.MarshalTwiceDiffers | plugin/caddyfile/caddyfile.go:108-170 | the first `Marshal` writes the site first, the second writes the global block first, and the texts differ |
| Scenarios.IntendedMarshalGlobalsFirst | plugin/caddyfile/caddyfile.go:108-170 | with the mirror clause the same two blocks are written global first, in either insertion order |

## Left out

- `snippetRegex` (line 11) is declared but unused by every function in the file. It is not modelled.
- The `bytes.Buffer` is modelled as a string that the writer methods return and concatenate. Likewise, `strings.Repeat` is modelled as `Text.Tabs`, and the `[]byte`/`string` conversion is dropped. `Marshal` and `MarshalString` return the same text, so one method `Block.Marshal` stands for both.
- `sort.SliceStable` is modelled as a stable insertion sort. Go runs that algorithm on runs of up to 20 elements and merges longer runs with SymMerge. With 20 siblings or fewer, Go runs this same insertion sort; for a strict weak order every stable sort gives the same result. Only for a comparator that is not a strict weak order on more than 20 siblings is the model's output not claimed to equal Go's.
- `Order` is an unbounded integer. The default is the constant 2147483647 (`math.MaxInt32`), and machine-width overflow does not arise in the code.
- Strings are compared as sequences of characters; the code compares UTF-8 bytes, so the model's string order is an abstract lexicographic order.
- Nil pointers: the `Directive` and `Block` types are non-null, so the model rules out nil. Go accepts `AddDirective(nil)` and then panics in `GetFirstMatch`, `sort` or `Write`; a `Directive` literal whose embedded `*Block` is nil panics in `Write` (line 142).
- Caddyfile.Directive.Write: fixes the values of the sub-tree below the directive after the write, not which directive reference sits at which position in the nested blocks. `Block.Sort` states the reference order of the block it sorts.
- Caddyfile.Directive.Braces: the same as `Directive.Write`, for the block it writes.
- Caddyfile.Block.WriteChildren: the same as `Directive.Write`, for the sub-tree of each child.
- Caddyfile.Block.Write: states the reference order of its own children, but only the values of the blocks below them, as `Directive.Write` does.
- Caddyfile.Block.Marshal: the same as `Block.Write`, at the top level.
- Caddyfile.Block.MarshalGlobalsFirst: the same as `Block.Write`, at the top level.
- Aliasing: `Block.Valid()` requires the tree to be tree-shaped, with no directive or block reachable twice. The Go code does not check this. A caller that shares a sub-tree gets behaviour the model does not describe.
- A block's ghost footprints (`Repr`, `Dirs`) grow when a directive is appended to that block, not when one is appended further down. After a caller grows an attached sub-tree, the ghost method `Block.Refresh` recomputes an ancestor's footprints from its children, innermost block first, and the tree is well formed again. `Scenarios.BuildRoot` builds its tree top-down this way. The Go code keeps no footprints.
- Caddyfile.Block.AddDirective: says the tree stays well formed only when the appended sub-tree is well formed and disjoint from the block, because the Go method accepts any pointer.
- Caddyfile.Block.Remove: says the tree stays well formed only when it was well formed before, because the Go method does not look at the tree's shape.
- Caddyfile.Block.RemoveAllMatches: has the same condition as `Remove`, for the same reason.
- Caddyfile.Block.GetOrCreateDirective: has the same condition as `Remove`, for the same reason.
- Sorting.SortSorted: holds only when the comparator is a strict weak order on the siblings, because the comparator as written is not one in general (`Ordering.LessNotTransitive`).
- Parsing Caddyfile text, and the code that decides which directives to create, are not part of this model.

## Findings

| source | as written | input that shows it | evidently intended | confidence | as-written member | corrected member |
|---|---|---|---|---|---|---|
| plugin/caddyfile/caddyfile.go:156 | at level 0 the comparator returns true for a global directive before a non-global one, but it has no mirror clause returning false for a non-global directive before a global one, which falls through to the Order test | a global options block `{ email admin@example.com }` (default Order, no arguments) next to a site `example.com { reverse_proxy app:80 }` with Order 1: each is less than the other, so every `Marshal` swaps them and consecutive `Marshal` calls return different texts | a global directive is always written before directives with arguments, and writing twice gives the same text | not executed | Scenarios.MarshalTwiceDiffers | Render.IntendedMarshalIdempotent |

The as-written comparator is `Ordering.Less`. Three members show the failure:

- `Ordering.LessNotGlobalsFirst` shows that it does not put globals first.
- `Ordering.LessBothWays` characterises exactly when it holds both ways.
- `Scenarios.MarshalTwiceDiffers` shows the two texts that differ.

The corrected comparator is `Ordering.LessIntended`. Four members prove the intended properties:

- `Ordering.IntendedGlobalsFirst`;
- `Ordering.IntendedAsymmetric`;
- `Render.IntendedGlobalsFirstWritten`;
- `Render.IntendedMarshalIdempotent`.

The heap methods `Block.Sort` and `Block.Write` take the comparator as a parameter. `Block.Marshal` sorts with `Ordering.Less`, as the Go code does. `Block.MarshalGlobalsFirst` sorts with `Ordering.LessIntended` and proves that global directives come first and that a second call writes the same text.
