/** The value view of a Caddyfile tree: what a directive holds, with its
    sub-block as a sequence of nodes. */
module Tree {

  /** `math.MaxInt32`, the `Order` a new directive gets. */
  const DefaultOrder: int := 2147483647

  /** The fields of a directive other than its block. */
  datatype Key = Key(order: int, name: string, disc: string, args: seq<string>)

  /** A directive together with the directives of its block. */
  datatype Node = Node(key: Key, children: seq<Node>)

  /** A directive without arguments is a global one (`IsGlobalBlock`). */
  predicate IsGlobal(k: Key)
  {
    |k.args| == 0
  }
}
