/** The YAML representation model: a node is a scalar (whose value may be
    null), a sequence of nodes, or a mapping from key nodes to value nodes kept
    in insertion order. Node equality is structural over content; tags,
    anchors and styles are not modelled. */
module YamlNodes {
  import opened Wrappers
  import opened Assoc

  datatype Node =
    | Scalar(value: Option<string>)
    | Sequence(items: seq<Node>)
    | Mapping(entries: seq<(Node, Node)>)

  /** Every mapping in the tree has distinct keys, as YamlMappingNode
      enforces. */
  predicate Valid(n: Node) {
    match n
    case Scalar(_) => true
    case Sequence(items) => forall i :: 0 <= i < |items| ==> Valid(items[i])
    case Mapping(entries) =>
      && DistinctKeys(entries)
      && forall i :: 0 <= i < |entries| ==> Valid(entries[i].0) && Valid(entries[i].1)
  }

  /** A scalar node holding the text `s`. */
  function Text(s: string): Node {
    Scalar(Some(s))
  }
}
