/** The parsed markup document: element and text nodes (src/content_tree/mod.rs). */
module ContentTree {
  import opened Wrappers

  /** An element's identity for selector matching: its optional id and its class set.
      The class set is a mathematical set, so order and duplicates never matter. */
  datatype ElementData = ElementData(id: Option<string>, classes: set<string>)

  datatype NodeData = Text(text: string) | Element(element: ElementData)

  /** A node owns its children exclusively; a text node never has any. */
  datatype Node = Node(children: seq<Node>, data: NodeData)

  /** `From<String> for Node`: a text leaf. */
  function FromString(s: string): (n: Node)
    ensures n.children == [] && n.data.Text?
    ensures TextOf(n) == Some(s)
  {
    Node([], Text(s))
  }

  /** `Node::new`: an element with exactly the given children, id and classes. */
  function NewElement(children: seq<Node>, id: Option<string>, classes: set<string>): (n: Node)
    ensures TextOf(n) == None
    ensures n.children == children
    ensures n.data.Element? && n.data.element.id == id && n.data.element.classes == classes
  {
    Node(children, Element(ElementData(id, classes)))
  }

  /** `Node::text`: the text of a text node, `None` for an element. */
  function TextOf(n: Node): (r: Option<string>)
    ensures r.Some? <==> n.data.Text?
    ensures r.Some? ==> n.data == Text(r.value)
  {
    match n.data
    case Text(s) => Some(s)
    case Element(_) => None
  }

  /** Derived equality is structural, and the class set is compared as a set: two
      class lists naming the same classes, in any order and with any repetition, give
      equal elements. */
  lemma ClassOrderIrrelevant(children: seq<Node>, id: Option<string>, xs: seq<string>, ys: seq<string>)
    requires forall c :: c in xs <==> c in ys
    ensures NewElement(children, id, set c | c in xs) == NewElement(children, id, set c | c in ys)
  {
    assert (set c | c in xs) == (set c | c in ys);
  }

  /** Equality of elements is exactly equality of children, id and class set. */
  lemma ElementEquality(c1: seq<Node>, i1: Option<string>, k1: set<string>,
                        c2: seq<Node>, i2: Option<string>, k2: set<string>)
    ensures NewElement(c1, i1, k1) == NewElement(c2, i2, k2) <==> c1 == c2 && i1 == i2 && k1 == k2
  {
  }
}
