/**
 * The DOM library as the serializer sees it.
 *
 * Decoding reads a parsed tree: nodes with a kind, a name, a value, ordered
 * children and ordered attributes, plus the namespace nodes in scope on the
 * document element. Encoding builds a document through createElement,
 * appendChild and the encoder's own buildXml/appendNode; what those do to
 * the tree is not modelled, so a built document is the record of the calls
 * made on it, and serialising it is the uninterpreted term `Serialized`.
 */
module Dom {
  import opened Wrappers
  import opened PhpArrays

  // libxml's node type codes, as PHP exposes them in the XML_*_NODE constants
  const XML_ELEMENT_NODE := 1
  const XML_ATTRIBUTE_NODE := 2
  const XML_TEXT_NODE := 3
  const XML_CDATA_SECTION_NODE := 4
  const XML_ENTITY_REF_NODE := 5
  const XML_ENTITY_NODE := 6
  const XML_PI_NODE := 7
  const XML_COMMENT_NODE := 8
  const XML_DOCUMENT_NODE := 9
  const XML_DOCUMENT_TYPE_NODE := 10
  const XML_DOCUMENT_FRAG_NODE := 11
  const XML_NOTATION_NODE := 12

  datatype NodeKind =
    | Element
    | Attribute
    | Text
    | CDataSection
    | EntityReference
    | Entity
    | ProcessingInstruction
    | Comment
    | DocumentNode
    | DocumentType
    | DocumentFragment
    | Notation
  {
    /** The node's nodeType. */
    function Code(): int {
      match this
      case Element => XML_ELEMENT_NODE
      case Attribute => XML_ATTRIBUTE_NODE
      case Text => XML_TEXT_NODE
      case CDataSection => XML_CDATA_SECTION_NODE
      case EntityReference => XML_ENTITY_REF_NODE
      case Entity => XML_ENTITY_NODE
      case ProcessingInstruction => XML_PI_NODE
      case Comment => XML_COMMENT_NODE
      case DocumentNode => XML_DOCUMENT_NODE
      case DocumentType => XML_DOCUMENT_TYPE_NODE
      case DocumentFragment => XML_DOCUMENT_FRAG_NODE
      case Notation => XML_NOTATION_NODE
    }
  }

  /**
   * An attribute or a namespace node. For an attribute, `name` is the key
   * DOMNamedNodeMap iteration gives it: its local name, without a prefix.
   * For a namespace node it is `xmlns` or `xmlns:prefix`.
   */
  datatype NameValue = NameValue(name: string, value: string)

  /** A parsed node; `value` is its nodeValue as the parser reports it. */
  datatype Node = Node(
    kind: NodeKind,
    name: string,
    value: string,
    children: seq<Node>,
    attributes: seq<NameValue>)

  /** DOMNode::hasChildNodes. */
  predicate HasChildNodes(n: Node) {
    n.children != []
  }

  /** DOMNode::hasAttributes: only an element has attributes. */
  predicate HasAttributes(n: Node): (b: bool)
    ensures b ==> n.kind == Element
  {
    n.kind == Element && n.attributes != []
  }

  /**
   * A parsed document: its top-level nodes, and the namespace nodes the
   * query `namespace::*` yields on its document element, in that order.
   */
  datatype Document = Document(children: seq<Node>, namespaces: seq<NameValue>)

  /** What loading a text gives: a document, and libxml's last error if there was one. */
  datatype ParseResult = ParseResult(document: Document, lastError: Option<string>)

  /** Where a built document came from. */
  datatype Origin =
    | CreatedFor(context: Entries)   // made by the encoder for one call's context
    | Supplied(id: nat)              // built by the caller

  /** A node of a built document: the document itself, or the element created at a step. */
  datatype NodeRef = DocumentRoot | CreatedElement(step: nat)

  /** One call made on a document while it is built. */
  datatype BuildStep =
    | CreateElement(name: Value)
    | AppendChild(parent: NodeRef, child: NodeRef)
    | BuildXml(parent: NodeRef, data: Value, nodeName: Value)
    | AppendNode(parent: NodeRef, data: Value, nodeName: Value)

  /** saveXML of a document in a given state, from its document element or from the whole document. */
  datatype Xml = Serialized(origin: Origin, steps: seq<BuildStep>, fromDocumentElement: bool)

  /** A DOMDocument: it remembers the calls that built it. */
  class DomDocument {
    const origin: Origin
    var steps: seq<BuildStep>

    constructor (origin: Origin)
      ensures this.origin == origin && steps == []
    {
      this.origin := origin;
      steps := [];
    }

    /** DOMDocument::createElement: a new element, not yet in the tree. */
    method CreateElement(name: Value) returns (element: NodeRef)
      modifies this
      ensures steps == old(steps) + [BuildStep.CreateElement(name)]
      ensures element == CreatedElement(|old(steps)|)
    {
      element := CreatedElement(|steps|);
      steps := steps + [BuildStep.CreateElement(name)];
    }

    /** DOMNode::appendChild. */
    method AppendChild(parent: NodeRef, child: NodeRef)
      modifies this
      ensures steps == old(steps) + [BuildStep.AppendChild(parent, child)]
    {
      steps := steps + [BuildStep.AppendChild(parent, child)];
    }

    /** DOMDocument::saveXML, given the document element or null. */
    function SaveXml(fromDocumentElement: bool): Xml
      reads this
    {
      Serialized(origin, steps, fromDocumentElement)
    }
  }
}
