/** The small slice of the browser document that the image dialog and the
    image bubble look at: element records keyed by node identity. */
module Dom {

  datatype Option<+T> = None | Some(value: T) {
    /** The wrapped value, or `default` when there is none. */
    function GetOr(default: T): T
    {
      match this
      case Some(v) => v
      case None => default
    }
  }

  /** Identity of a node of the document. */
  type NodeId = nat

  /** A node: its upper-case node name (`"IMG"`, `"P"`, `"#text"`), its
      parent, its ordered child list (DOM `childNodes`), and the two
      attributes the plugins read, `src` and `alt` (`None` when the attribute
      is absent, so that `getAttribute` returns null). */
  datatype Element = Element(
    tag: string,
    parent: Option<NodeId>,
    children: seq<NodeId>,
    src: Option<string>,
    alt: Option<string>)

  /** The document, as the nodes it holds. */
  type Document = map<NodeId, Element>
}
