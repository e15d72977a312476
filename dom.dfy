/**
 * The document tree that the style stage reads. The HTML parser and the
 * attribute helpers of `src/dom.rs` are not part of this model: an element
 * is given directly by its tag name, its `id` attribute (if any) and the set
 * of names in its `class` attribute.
 */
module Dom {
  import opened Wrappers

  datatype ElementData = ElementData(tagName: string, id: Option<string>, classes: set<string>)

  datatype NodeType = Element(element: ElementData) | Text(text: string)

  /** A node owns its children, in document order. */
  datatype Node = Node(children: seq<Node>, nodeType: NodeType)

  /** Number of nodes in a tree. */
  function NodeCount(n: Node): nat
    decreases n, 1
  {
    1 + NodeCountAll(n.children)
  }

  function NodeCountAll(ns: seq<Node>): nat
    decreases ns, 0
  {
    if ns == [] then 0 else NodeCount(ns[0]) + NodeCountAll(ns[1..])
  }
}
