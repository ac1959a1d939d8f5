/** The parsed XML document the extraction works on: the part of a
    `roxmltree` node that the core reads. Text parsing of the XML, of the
    `transform` attribute, of numbers and of SVG path data happens outside
    the model; each node carries those results already parsed. */
module Document {
  import opened Wrappers

  /** One attribute: its namespace URI (if any), local name and text, and
      the result of parsing the text as an `f64` (`None` when that fails). */
  datatype Attribute = Attribute(ns: Option<string>, name: string, value: string, number: Option<real>)

  /** The first `translate(tx[, ty])` of a node's `transform` attribute. */
  datatype Translate = Translate(tx: real, ty: Option<real>)

  /** A document node. Text and comment nodes have the empty tag.
      `subpath` is the first sub-path decoded from the `d` attribute, `None`
      when the node has no `d` or it decodes to no sub-path. */
  datatype Node = Node(
    tag: string,
    attributes: seq<Attribute>,
    translate: Option<Translate>,
    subpath: Option<seq<(real, real)>>,
    children: seq<Node>)

  /** The namespace of Inkscape's own attributes (`inkscape:label`). */
  const InkscapeNs: string := "http://www.inkscape.org/namespaces/inkscape"

  /** Number of nodes in a node's subtree, itself included. */
  function Size(n: Node): nat
    decreases n, 1
  {
    1 + ForestSize(n.children)
  }

  /** Number of nodes in a sequence of subtrees. */
  function ForestSize(ns: seq<Node>): nat
    decreases ns, 0
  {
    if ns == [] then 0 else Size(ns[0]) + ForestSize(ns[1..])
  }

  /** The first attribute satisfying `matches`, in document order. */
  function FindAttribute(attrs: seq<Attribute>, matches: Attribute -> bool): Option<Attribute> {
    if attrs == [] then None
    else if matches(attrs[0]) then Some(attrs[0])
    else FindAttribute(attrs[1..], matches)
  }

  /** `FindAttribute` finds nothing exactly when no attribute matches, and
      otherwise the first one that does. */
  lemma {:induction false} FindAttributeFirst(attrs: seq<Attribute>, matches: Attribute -> bool)
    ensures FindAttribute(attrs, matches).None? <==> forall i :: 0 <= i < |attrs| ==> !matches(attrs[i])
    ensures FindAttribute(attrs, matches).Some? ==>
      exists i :: && 0 <= i < |attrs|
                  && attrs[i] == FindAttribute(attrs, matches).value
                  && matches(attrs[i])
                  && forall j :: 0 <= j < i ==> !matches(attrs[j])
  {
    if attrs != [] && !matches(attrs[0]) {
      var tail := attrs[1..];
      FindAttributeFirst(tail, matches);
      assert forall i :: 1 <= i < |attrs| ==> attrs[i] == tail[i - 1];
      var r := FindAttribute(tail, matches);
      if r.Some? {
        var i :| 0 <= i < |tail| && tail[i] == r.value && matches(tail[i])
                 && forall j :: 0 <= j < i ==> !matches(tail[j]);
        assert attrs[i + 1] == r.value;
      }
    }
  }

  /** `node.attribute(name)`: an attribute without namespace. */
  function Attr(n: Node, name: string): Option<Attribute> {
    FindAttribute(n.attributes, (a: Attribute) => a.ns == None && a.name == name)
  }

  /** `node.attribute((ns, name))`: an attribute in the namespace `ns`. */
  function AttrNs(n: Node, ns: string, name: string): Option<Attribute> {
    FindAttribute(n.attributes, (a: Attribute) => a.ns == Some(ns) && a.name == name)
  }

  /** `node.attributes().find(|a| a.name() == name)`: any namespace. */
  function AttrAnyNs(n: Node, name: string): Option<Attribute> {
    FindAttribute(n.attributes, (a: Attribute) => a.name == name)
  }

  /** The `inkscape:label` text of a node, if it has one. */
  function Label(n: Node): Option<string> {
    match AttrNs(n, InkscapeNs, "label")
    case Some(a) => Some(a.value)
    case None => None
  }

  /** The parsed value of a namespace-less numeric attribute: `None` when
      the attribute is missing or is not a number. */
  function Number(n: Node, name: string): Option<real> {
    match Attr(n, name)
    case Some(a) => a.number
    case None => None
  }
}
