/** The node graph the module-extender transform works on, as an arena:
    every node is addressed by a `NodeId`, its owner is an index (`parent`)
    and its symbol table (`locals`) maps each bound name to the ordered
    sequence of node ids that define it. */
module NodeGraph {
  import opened Optional

  type NodeId = nat

  /** The node class, as far as the transform registry distinguishes it:
      `Module` nodes, and every other class by its name. */
  datatype Kind = Module | Other(className: string)

  datatype Node = Node(
    kind: Kind,
    name: string,
    parent: Option<NodeId>,
    locals: map<string, seq<NodeId>>)

  type Arena = map<NodeId, Node>

  /** Every id a node refers to, as owner or in its symbol table, is a node
      of the arena (the object graph of the source has no dangling
      references). */
  ghost predicate WellFormed(a: Arena) {
    forall id | id in a ::
      && (a[id].parent.Some? ==> a[id].parent.value in a)
      && (forall k, x | k in a[id].locals && x in a[id].locals[k] :: x in a)
  }

  /** The ids listed under any name of a symbol table. */
  function Listed(locals: map<string, seq<NodeId>>): (ids: set<NodeId>)
    ensures forall k, id | k in locals && id in locals[k] :: id in ids
    ensures forall id | id in ids :: exists k | k in locals :: id in locals[k]
  {
    set k, id | k in locals && id in locals[k] :: id
  }

  /** The ids occurring in a sequence. */
  function Elems(s: seq<NodeId>): (r: set<NodeId>)
    ensures forall x :: x in r <==> x in s
  {
    set x | x in s
  }
}
