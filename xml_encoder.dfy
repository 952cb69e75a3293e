/**
 * The encoder's configuration and its top-level dispatch.
 *
 * An encoder holds a default context: the built-in options merged with the
 * overrides given at construction. Each call resolves its options from the
 * call's context first and the defaults second, then either serialises a
 * document the caller built, or creates a fresh document and hands the data
 * to buildXml (arrays and objects, under a root element) or appendNode
 * (null and scalars, directly under the document).
 */
module XmlEncoder {
  import opened Wrappers
  import opened PhpArrays
  import opened Dom

  const FORMAT := "xml"

  // option keys
  const AS_COLLECTION := "as_collection"
  const DECODER_IGNORED_NODE_TYPES := "decoder_ignored_node_types"
  const ENCODER_IGNORED_NODE_TYPES := "encoder_ignored_node_types"
  const ENCODING := "xml_encoding"
  const FORMAT_OUTPUT := "xml_format_output"
  const LOAD_OPTIONS := "load_options"
  const REMOVE_EMPTY_TAGS := "remove_empty_tags"
  const ROOT_NODE_NAME := "xml_root_node_name"
  const STANDALONE := "xml_standalone"
  const TYPE_CASE_ATTRIBUTES := "xml_type_cast_attributes"
  const VERSION := "xml_version"

  // libxml parser flags
  const LIBXML_NOBLANKS: bv32 := 0x100
  const LIBXML_NONET: bv32 := 0x800

  /** The built-in default context, in declaration order. */
  const DEFAULT_CONTEXT: Entries := [
    (StrKey(AS_COLLECTION), Bool(false)),
    (StrKey(DECODER_IGNORED_NODE_TYPES), Arr([(IntKey(0), Int(XML_PI_NODE)), (IntKey(1), Int(XML_COMMENT_NODE))])),
    (StrKey(ENCODER_IGNORED_NODE_TYPES), Arr([])),
    (StrKey(LOAD_OPTIONS), Int((LIBXML_NONET | LIBXML_NOBLANKS) as int)),
    (StrKey(REMOVE_EMPTY_TAGS), Bool(false)),
    (StrKey(ROOT_NODE_NAME), Str("response")),
    (StrKey(TYPE_CASE_ATTRIBUTES), Bool(true))
  ]

  /**
   * `$context[$key] ?? $defaults[$key]`: the call's value unless it is
   * missing or null, the default otherwise.
   */
  function ResolveOption(context: Entries, defaults: Entries, key: string): (v: Value)
    ensures Lookup(context, StrKey(key)).Some? && Lookup(context, StrKey(key)).value != Null ==>
      v == Lookup(context, StrKey(key)).value
    ensures !HasKey(context, StrKey(key)) ==> v == Get(defaults, StrKey(key))
    ensures Lookup(context, StrKey(key)) == Some(Null) ==> v == Get(defaults, StrKey(key))
  {
    match Lookup(context, StrKey(key))
    case Some(v) => if v != Null then v else Get(defaults, StrKey(key))
    case None => Get(defaults, StrKey(key))
  }

  /** Whether processing instructions are among the node types the encoder ignores. */
  function IgnorePiNode(context: Entries, defaults: Entries): (b: bool)
    ensures b <==> var ignored := ResolveOption(context, defaults, ENCODER_IGNORED_NODE_TYPES);
      ignored.Arr? && exists i :: 0 <= i < |ignored.entries| && ignored.entries[i].1 == Int(XML_PI_NODE)
  {
    InArrayStrict(Int(XML_PI_NODE), ResolveOption(context, defaults, ENCODER_IGNORED_NODE_TYPES))
  }

  /** What `encode` is given: a document the caller built, or a PHP value. */
  datatype EncodeInput = DomInput(doc: DomDocument) | DataInput(value: Value)

  class XmlEncoder {
    var defaultContext: Entries
    var dom: DomDocument?
    var format: Value
    var context: Option<Entries>

    /** The defaults are the built-in ones overridden by the caller's. */
    constructor (defaultContext: Entries)
      ensures this.defaultContext == Merge(DEFAULT_CONTEXT, defaultContext)
      ensures dom == null && format == Null && context == None
    {
      this.defaultContext := Merge(DEFAULT_CONTEXT, defaultContext);
      dom := null;
      format := Null;
      context := None;
    }

    method Encode(data: EncodeInput, format: Value, context: Entries) returns (xml: Xml)
      modifies this
      ensures defaultContext == old(defaultContext)
      ensures data.DomInput? ==>
        && xml == data.doc.SaveXml(IgnorePiNode(context, defaultContext))
        && dom == old(dom) && this.format == old(this.format) && this.context == old(this.context)
      ensures data.DataInput? ==>
        && dom != null && fresh(dom) && dom.origin == CreatedFor(context)
        && this.format == format && this.context == Some(context)
        && xml == dom.SaveXml(IgnorePiNode(context, defaultContext))
      ensures data.DataInput? && data.value != Null && !IsScalar(data.value) ==>
        var name := ResolveOption(context, defaultContext, ROOT_NODE_NAME);
        dom != null && dom.steps == [
          BuildStep.CreateElement(name),
          BuildStep.AppendChild(DocumentRoot, CreatedElement(0)),
          BuildStep.BuildXml(CreatedElement(0), data.value, name)]
      ensures data.DataInput? && (data.value == Null || IsScalar(data.value)) ==>
        var name := ResolveOption(context, defaultContext, ROOT_NODE_NAME);
        dom != null && dom.steps == [BuildStep.AppendNode(DocumentRoot, data.value, name)]
    {
      var encoderIgnoredNodeTypes := ResolveOption(context, defaultContext, ENCODER_IGNORED_NODE_TYPES);
      var ignorePiNode := InArrayStrict(Int(XML_PI_NODE), encoderIgnoredNodeTypes);

      if data.DomInput? {
        return data.doc.SaveXml(ignorePiNode);
      }

      var xmlRootNodeName := ResolveOption(context, defaultContext, ROOT_NODE_NAME);

      var doc := CreateDomDocument(context);
      dom := doc;
      this.format := format;
      this.context := Some(context);

      if data.value != Null && !IsScalar(data.value) {
        var root := doc.CreateElement(xmlRootNodeName);
        doc.AppendChild(DocumentRoot, root);
        BuildXml(root, data.value, xmlRootNodeName);
      } else {
        AppendNode(DocumentRoot, data.value, xmlRootNodeName);
      }

      xml := doc.SaveXml(ignorePiNode);
    }

    /** createDomDocument: XmlEncoder::createDomDocument is not part of this model beyond giving a fresh, empty document. */
    method CreateDomDocument(context: Entries) returns (doc: DomDocument)
      ensures fresh(doc) && doc.origin == CreatedFor(context) && doc.steps == []
    {
      doc := new DomDocument(CreatedFor(context));
    }

    /** buildXml: XmlEncoder::buildXml is not part of this model; the call is recorded on the document. */
    method BuildXml(parent: NodeRef, data: Value, nodeName: Value)
      requires dom != null
      modifies dom
      ensures dom.steps == old(dom.steps) + [BuildStep.BuildXml(parent, data, nodeName)]
    {
      dom.steps := dom.steps + [BuildStep.BuildXml(parent, data, nodeName)];
    }

    /** appendNode: XmlEncoder::appendNode is not part of this model; the call is recorded on the document. */
    method AppendNode(parent: NodeRef, data: Value, nodeName: Value)
      requires dom != null
      modifies dom
      ensures dom.steps == old(dom.steps) + [BuildStep.AppendNode(parent, data, nodeName)]
    {
      dom.steps := dom.steps + [BuildStep.AppendNode(parent, data, nodeName)];
    }
  }

  /** The built-in defaults, key by key. */
  lemma BuiltInDefaults()
    ensures UniqueKeys(DEFAULT_CONTEXT) && StringKeyed(DEFAULT_CONTEXT)
    ensures Lookup(DEFAULT_CONTEXT, StrKey(AS_COLLECTION)) == Some(Bool(false))
    ensures Lookup(DEFAULT_CONTEXT, StrKey(DECODER_IGNORED_NODE_TYPES)) ==
      Some(Arr([(IntKey(0), Int(XML_PI_NODE)), (IntKey(1), Int(XML_COMMENT_NODE))]))
    ensures Lookup(DEFAULT_CONTEXT, StrKey(ENCODER_IGNORED_NODE_TYPES)) == Some(Arr([]))
    ensures Lookup(DEFAULT_CONTEXT, StrKey(LOAD_OPTIONS)) == Some(Int(2304))
    ensures Lookup(DEFAULT_CONTEXT, StrKey(REMOVE_EMPTY_TAGS)) == Some(Bool(false))
    ensures Lookup(DEFAULT_CONTEXT, StrKey(ROOT_NODE_NAME)) == Some(Str("response"))
    ensures Lookup(DEFAULT_CONTEXT, StrKey(TYPE_CASE_ATTRIBUTES)) == Some(Bool(true))
  {
    assert UniqueKeys(DEFAULT_CONTEXT);
    LookupAt(DEFAULT_CONTEXT, 0);
    LookupAt(DEFAULT_CONTEXT, 1);
    LookupAt(DEFAULT_CONTEXT, 2);
    LookupAt(DEFAULT_CONTEXT, 3);
    LookupAt(DEFAULT_CONTEXT, 4);
    LookupAt(DEFAULT_CONTEXT, 5);
    LookupAt(DEFAULT_CONTEXT, 6);
  }

  /**
   * After construction, an option the caller supplied has the caller's
   * value, every other option keeps its built-in default, and the built-in
   * keys keep their places at the front.
   */
  lemma ConstructedDefaults(overrides: Entries)
    requires UniqueKeys(overrides)
    ensures UniqueKeys(Merge(DEFAULT_CONTEXT, overrides))
    ensures |Merge(DEFAULT_CONTEXT, overrides)| >= |DEFAULT_CONTEXT|
    ensures forall i :: 0 <= i < |DEFAULT_CONTEXT| ==> Merge(DEFAULT_CONTEXT, overrides)[i].0 == DEFAULT_CONTEXT[i].0
    ensures forall s :: (Lookup(Merge(DEFAULT_CONTEXT, overrides), StrKey(s)) ==
      if HasKey(overrides, StrKey(s)) then Lookup(overrides, StrKey(s)) else Lookup(DEFAULT_CONTEXT, StrKey(s)))
  {
    BuiltInDefaults();
    MergeOverrides(DEFAULT_CONTEXT, overrides);
  }

  /**
   * An option neither the call nor the construction sets (or one set to
   * null in the call) resolves to its built-in default.
   */
  lemma ResolvesToBuiltInDefault(overrides: Entries, context: Entries, key: string)
    requires UniqueKeys(overrides) && !HasKey(overrides, StrKey(key))
    requires Get(context, StrKey(key)) == Null
    ensures ResolveOption(context, Merge(DEFAULT_CONTEXT, overrides), key) == Get(DEFAULT_CONTEXT, StrKey(key))
  {
    ConstructedDefaults(overrides);
  }

  /** With the encoder-ignored types left at their default, the whole document is serialised. */
  lemma DefaultKeepsDeclaration(overrides: Entries, context: Entries)
    requires UniqueKeys(overrides) && !HasKey(overrides, StrKey(ENCODER_IGNORED_NODE_TYPES))
    requires Get(context, StrKey(ENCODER_IGNORED_NODE_TYPES)) == Null
    ensures !IgnorePiNode(context, Merge(DEFAULT_CONTEXT, overrides))
  {
    ResolvesToBuiltInDefault(overrides, context, ENCODER_IGNORED_NODE_TYPES);
    BuiltInDefaults();
  }

  /** The root element is called "response" unless the call or the construction names it. */
  lemma DefaultRootName(overrides: Entries, context: Entries)
    requires UniqueKeys(overrides) && !HasKey(overrides, StrKey(ROOT_NODE_NAME))
    requires Get(context, StrKey(ROOT_NODE_NAME)) == Null
    ensures ResolveOption(context, Merge(DEFAULT_CONTEXT, overrides), ROOT_NODE_NAME) == Str("response")
  {
    ResolvesToBuiltInDefault(overrides, context, ROOT_NODE_NAME);
    BuiltInDefaults();
  }

  /** Membership is strict: the string "7" does not stand for the processing-instruction type. */
  lemma IgnorePiNodeIsStrict(defaults: Entries)
    ensures IgnorePiNode([(StrKey(ENCODER_IGNORED_NODE_TYPES), Arr([(IntKey(0), Int(XML_PI_NODE))]))], defaults)
    ensures !IgnorePiNode([(StrKey(ENCODER_IGNORED_NODE_TYPES), Arr([(IntKey(0), Str("7"))]))], defaults)
  {
  }
}
