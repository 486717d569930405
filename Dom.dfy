/**
 * The read-only view of the document tree that the serializer walks: one
 * constructor per node type it handles, the attribute record, the namespace
 * constants it compares against and the kinds of failure it can raise.
 */
module Dom {
  import opened Wrappers

  const XmlNamespace: string := "http://www.w3.org/XML/1998/namespace"
  const XmlnsNamespace: string := "http://www.w3.org/2000/xmlns/"
  const HtmlNamespace: string := "http://www.w3.org/1999/xhtml"

  /** Local names of the HTML void elements (serialized without an end tag). */
  const VoidElements: set<string> := {
    "area", "base", "basefont", "bgsound", "br", "col", "embed", "frame", "hr", "img",
    "input", "keygen", "link", "menuitem", "meta", "param", "source", "track", "wbr"
  }

  /** An attribute; `null` namespace and prefix are `None`. */
  datatype Attr = Attr(namespaceURI: Option<string>, prefix: Option<string>, localName: string, value: string)

  /**
   * A node. Documents and fragments carry all their child nodes; the walk
   * visits only the element ones (the `children` collection). An element's
   * `templateContents` are the child nodes of its template content fragment,
   * which the walk visits instead of `childNodes` for an HTML `template`.
   */
  datatype Node =
    | Document(childNodes: seq<Node>)
    | DocumentFragment(childNodes: seq<Node>)
    | Element(namespaceURI: Option<string>, prefix: Option<string>, localName: string,
              attributes: seq<Attr>, childNodes: seq<Node>, templateContents: seq<Node>)
    | Text(data: string)
    | CDataSection(data: string)
    | Comment(data: string)
    | ProcessingInstruction(target: string, data: string)
    | DocumentType(name: string, publicId: string, systemId: string)

  /** `document.documentElement !== null`: some child node is an element. */
  predicate HasDocumentElement(childNodes: seq<Node>) {
    exists i :: 0 <= i < |childNodes| && childNodes[i].Element?
  }

  /** The `children` collection: the element child nodes, in order. */
  function ElementChildren(childNodes: seq<Node>): (r: seq<Node>)
    ensures forall i :: 0 <= i < |r| ==> r[i].Element? && r[i] in childNodes
    ensures HasDocumentElement(childNodes) <==> |r| > 0
  {
    if childNodes == [] then []
    else
      var init := ElementChildren(childNodes[..|childNodes| - 1]);
      var last := childNodes[|childNodes| - 1];
      assert forall i :: 0 <= i < |childNodes| - 1 ==> childNodes[..|childNodes| - 1][i] == childNodes[i];
      if last.Element? then init + [last] else init
  }

  /** `children` of a non-empty run: that of all but the last node, then the last node if it is an element. */
  lemma ElementChildrenSnoc(childNodes: seq<Node>)
    requires childNodes != []
    ensures ElementChildren(childNodes)
         == ElementChildren(childNodes[..|childNodes| - 1])
            + (if childNodes[|childNodes| - 1].Element? then [childNodes[|childNodes| - 1]] else [])
  {
  }

  /** The same filter read front to back: every element child is kept, each once, in order. */
  function ElementsFrom(childNodes: seq<Node>): seq<Node> {
    if childNodes == [] then []
    else (if childNodes[0].Element? then [childNodes[0]] else []) + ElementsFrom(childNodes[1..])
  }

  /** `children` keeps every element child node, once and in order, and nothing else. */
  lemma {:induction false} ElementChildrenInOrder(childNodes: seq<Node>)
    ensures ElementChildren(childNodes) == ElementsFrom(childNodes)
  {
    if childNodes != [] {
      var init := childNodes[..|childNodes| - 1];
      var last := childNodes[|childNodes| - 1];
      ElementChildrenInOrder(init);
      assert childNodes == init + [last];
      ElementsFromSnoc(init, last);
    }
  }

  /** Filtering front to back, one more node at the end adds at most that node. */
  lemma {:induction false} ElementsFromSnoc(cs: seq<Node>, x: Node)
    ensures ElementsFrom(cs + [x]) == ElementsFrom(cs) + (if x.Element? then [x] else [])
  {
    if cs == [] {
      assert [] + [x] == [x] && [x][1..] == [];
    } else {
      assert (cs + [x])[0] == cs[0];
      assert (cs + [x])[1..] == cs[1..] + [x];
      ElementsFromSnoc(cs[1..], x);
    }
  }

  /** The errors the walk raises; the host maps them to DOMException / Error. */
  datatype ErrKind =
    | InvalidElementName      // strict: local name with ':' or not an XML Name
    | ReservedPrefix          // strict: element prefix "xmlns"
    | SystemIdNotWellFormed   // strict: doctype system id with both quote kinds
    | TargetNotWellFormed     // strict: PI target with ':' or matching "xml"
    | DataNotWellFormed       // strict: PI data containing "?>"
    | IllegalHyphens          // strict: comment data with "--" or a trailing '-'
    | NoDocumentElement       // strict: document without an element child
    | MissingPrefixList       // `map[ns].push` on a namespace with no list
    | InvalidAttribute        // raised inside the attribute helpers
}
