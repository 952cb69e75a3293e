/**
 * The decoder's top level: from an XML text to a PHP value.
 *
 * Blank input is refused before parsing; a parser error is surfaced with
 * its message; a document type among the top-level nodes is refused; the
 * first top-level node whose type is not ignored is the root. A root with
 * children is handed to parseXml, with the document element's namespace
 * declarations merged in front as `@xmlns:prefix` entries (`@xmlns` for the
 * default namespace); a childless root gives
 * its value, or, when it has attributes, an `@name` entry per attribute and
 * a final `#` entry holding its value.
 *
 * The parser and parseXml are collaborators outside the model and are
 * taken as parameters.
 */
module XmlDecoder {
  import opened Wrappers
  import opened PhpArrays
  import opened Dom
  import XmlEncoder

  const EMPTY_INPUT_MESSAGE := "Invalid XML data, it can not be empty."
  const DOCUMENT_TYPE_MESSAGE := "Document types are not allowed."
  const XML_NAMESPACE_KEY := "@xmlns:xml"
  const TEXT_KEY := "#"

  /** The decoder's failures, one per exception it raises. */
  datatype DecodeError =
    | ArgumentNull(message: string)       // blank input
    | InvalidOperation(message: string)   // the parser reported an error
    | Argument(message: string)           // a document type declaration
    | NoRootNode                          // every top-level node is ignored

  /** The characters PHP's trim strips by default. */
  predicate IsTrimmed(c: char) {
    c == ' ' || c == '\t' || c == '\n' || c == '\r' || c == '\0' || c == '\U{B}'
  }

  function TrimLeft(s: string): (r: string)
    ensures |r| <= |s| && r == s[|s| - |r|..]
    ensures forall i :: 0 <= i < |s| - |r| ==> IsTrimmed(s[i])
    ensures r == [] || !IsTrimmed(r[0])
  {
    if s != [] && IsTrimmed(s[0]) then TrimLeft(s[1..]) else s
  }

  function TrimRight(s: string): (r: string)
    ensures |r| <= |s| && r == s[..|r|]
    ensures forall i :: |r| <= i < |s| ==> IsTrimmed(s[i])
    ensures r == [] || !IsTrimmed(r[|r| - 1])
  {
    if s != [] && IsTrimmed(s[|s| - 1]) then TrimRight(s[..|s| - 1]) else s
  }

  /** PHP's trim: empty exactly when every character is one trim strips. */
  function Trim(s: string): (r: string)
    ensures r == [] <==> forall i :: 0 <= i < |s| ==> IsTrimmed(s[i])
  {
    TrimRight(TrimLeft(s))
  }

  /** The outcome of the scan over the document's top-level nodes. */
  datatype Scan = DocumentTypeFound | Selected(root: Option<Node>)

  predicate Ignored(n: Node, ignored: Value) {
    InArrayStrict(Int(n.kind.Code()), ignored)
  }

  /** The foreach over the top-level nodes, node by node. */
  function ScanTopLevel(nodes: seq<Node>, ignored: Value): (r: Scan)
    ensures r.Selected? && r.root.Some? ==> r.root.value in nodes && !Ignored(r.root.value, ignored)
    decreases |nodes|
  {
    if nodes == [] then Selected(None)
    else
      var child := nodes[|nodes| - 1];
      assert forall n :: n in nodes[..|nodes| - 1] ==> n in nodes;
      match ScanTopLevel(nodes[..|nodes| - 1], ignored)
      case DocumentTypeFound => DocumentTypeFound
      case Selected(root) =>
        if child.kind.Code() == XML_DOCUMENT_TYPE_NODE then DocumentTypeFound
        else if root.None? && !Ignored(child, ignored) then Selected(Some(child))
        else Selected(root)
  }

  /** Node i is the first top-level node whose type is not ignored. */
  predicate IsFirstEligible(nodes: seq<Node>, ignored: Value, i: int) {
    0 <= i < |nodes| && !Ignored(nodes[i], ignored) &&
    forall j :: 0 <= j < i ==> Ignored(nodes[j], ignored)
  }

  /** A document type anywhere among the top-level nodes stops the scan, whatever came before it. */
  lemma {:induction false} ScanFindsDocumentType(nodes: seq<Node>, ignored: Value)
    ensures ScanTopLevel(nodes, ignored).DocumentTypeFound? <==>
      exists i :: 0 <= i < |nodes| && nodes[i].kind == DocumentType
    decreases |nodes|
  {
    if nodes != [] {
      var init := nodes[..|nodes| - 1];
      ScanFindsDocumentType(init, ignored);
      assert forall i :: 0 <= i < |init| ==> init[i] == nodes[i];
      if exists i :: 0 <= i < |nodes| && nodes[i].kind == DocumentType {
        var i :| 0 <= i < |nodes| && nodes[i].kind == DocumentType;
        if i < |init| {
          assert init[i].kind == DocumentType;
        }
      }
    }
  }

  lemma {:induction false} ScanSelection(nodes: seq<Node>, ignored: Value)
    requires forall i :: 0 <= i < |nodes| ==> nodes[i].kind != DocumentType
    ensures ScanTopLevel(nodes, ignored).Selected?
    ensures ScanTopLevel(nodes, ignored).root.None? ==> forall i :: 0 <= i < |nodes| ==> Ignored(nodes[i], ignored)
    ensures ScanTopLevel(nodes, ignored).root.Some? ==>
      exists i :: IsFirstEligible(nodes, ignored, i) && nodes[i] == ScanTopLevel(nodes, ignored).root.value
    decreases |nodes|
  {
    if nodes != [] {
      var init := nodes[..|nodes| - 1];
      assert forall i :: 0 <= i < |init| ==> init[i] == nodes[i];
      ScanSelection(init, ignored);
      var root := ScanTopLevel(init, ignored).root;
      if root.Some? {
        var i :| IsFirstEligible(init, ignored, i) && init[i] == root.value;
        assert IsFirstEligible(nodes, ignored, i);
      } else {
        assert IsFirstEligible(nodes, ignored, |nodes| - 1) || Ignored(nodes[|nodes| - 1], ignored);
      }
    }
  }

  /**
   * Without a document type, the scan selects the first node whose type is
   * not ignored, and nothing when every node is ignored.
   */
  lemma ScanSelectsFirstEligible(nodes: seq<Node>, ignored: Value)
    requires forall i :: 0 <= i < |nodes| ==> nodes[i].kind != DocumentType
    ensures forall i :: IsFirstEligible(nodes, ignored, i) ==> ScanTopLevel(nodes, ignored) == Selected(Some(nodes[i]))
    ensures (forall i :: 0 <= i < |nodes| ==> Ignored(nodes[i], ignored)) <==> ScanTopLevel(nodes, ignored) == Selected(None)
  {
    ScanSelection(nodes, ignored);
    forall i | IsFirstEligible(nodes, ignored, i) ensures ScanTopLevel(nodes, ignored) == Selected(Some(nodes[i])) {
      var root := ScanTopLevel(nodes, ignored).root;
      if root.Some? {
        var k :| IsFirstEligible(nodes, ignored, k) && nodes[k] == root.value;
        assert !(k < i) && !(i < k);
      }
    }
  }

  /** `$data["@" . $name] = $value` for each item in order, into an empty array. */
  function AtEntries(items: seq<NameValue>): (r: Entries)
    ensures StringKeyed(r) && UniqueKeys(r)
    decreases |items|
  {
    if items == [] then []
    else
      var last := items[|items| - 1];
      Assign(AtEntries(items[..|items| - 1]), StrKey("@" + last.name), Str(last.value))
  }

  /** Every key of the `@`-entries starts with `@`, so a key that does not is absent. */
  lemma {:induction false} AtEntriesKeys(items: seq<NameValue>, key: string)
    requires key == [] || key[0] != '@'
    ensures !HasKey(AtEntries(items), StrKey(key))
    decreases |items|
  {
    if items != [] {
      var last := items[|items| - 1];
      AtEntriesKeys(items[..|items| - 1], key);
      assert ("@" + last.name)[0] == '@';
    }
  }

  /** The loop that fills an array from attribute or namespace nodes. */
  method CollectAtEntries(items: seq<NameValue>) returns (entries: Entries)
    ensures entries == AtEntries(items)
  {
    entries := [];
    var k := 0;
    while k < |items|
      invariant 0 <= k <= |items|
      invariant entries == AtEntries(items[..k])
    {
      var item := items[k];
      assert items[..k + 1][..k] == items[..k];
      entries := Assign(entries, StrKey("@" + item.name), Str(item.value));
      k := k + 1;
    }
    assert items[..k] == items;
  }

  predicate DistinctNames(items: seq<NameValue>) {
    forall i, j :: 0 <= i < j < |items| ==> items[i].name != items[j].name
  }

  /** One `"@" + name => value` entry per item, in item order. */
  function AtList(items: seq<NameValue>): (r: Entries)
    ensures |r| == |items|
  {
    seq(|items|, j requires 0 <= j < |items| => (StrKey("@" + items[j].name), Str(items[j].value)))
  }

  /** The namespace nodes other than the `xml` prefix's declaration, in query order. */
  function Declared(namespaces: seq<NameValue>): (r: seq<NameValue>)
    ensures forall n :: n in r <==> n in namespaces && n.name != "xmlns:xml"
    decreases |namespaces|
  {
    if namespaces == [] then []
    else
      var init, last := namespaces[..|namespaces| - 1], namespaces[|namespaces| - 1];
      assert namespaces == init + [last];
      Declared(init) + if last.name == "xmlns:xml" then [] else [last]
  }

  /** Unsetting `@xmlns:xml` from the entry list leaves the entries of the other declarations. */
  lemma {:induction false} UnsetAtList(namespaces: seq<NameValue>)
    ensures Unset(AtList(namespaces), StrKey(XML_NAMESPACE_KEY)) == AtList(Declared(namespaces))
    decreases |namespaces|
  {
    if namespaces != [] {
      var init, last := namespaces[..|namespaces| - 1], namespaces[|namespaces| - 1];
      UnsetAtList(init);
      assert namespaces == init + [last];
      UnsetAtListStep(init, last);
    }
  }

  lemma UnsetAtListStep(init: seq<NameValue>, last: NameValue)
    requires Unset(AtList(init), StrKey(XML_NAMESPACE_KEY)) == AtList(Declared(init))
    ensures Unset(AtList(init + [last]), StrKey(XML_NAMESPACE_KEY)) == AtList(Declared(init + [last]))
  {
    var e := (StrKey("@" + last.name), Str(last.value));
    var k := StrKey(XML_NAMESPACE_KEY);
    AtListSnoc(init, last);
    DeclaredSnoc(init, last);
    UnsetSnoc(AtList(init), e, k);
    XmlNamespaceKey(last.name);
    if last.name == "xmlns:xml" {
      assert Unset(AtList(init + [last]), k) == AtList(Declared(init)) + [];
    } else {
      AtListSnoc(Declared(init), last);
    }
  }

  /** The key of a declaration is `@xmlns:xml` exactly for the `xml` prefix. */
  lemma XmlNamespaceKey(name: string)
    ensures "@" + name == XML_NAMESPACE_KEY <==> name == "xmlns:xml"
  {
    assert ("@" + name)[1..] == name;
    assert XML_NAMESPACE_KEY[1..] == "xmlns:xml";
  }

  lemma DeclaredSnoc(init: seq<NameValue>, last: NameValue)
    ensures Declared(init + [last]) == Declared(init) + if last.name == "xmlns:xml" then [] else [last]
  {
    assert (init + [last])[..|init|] == init;
  }

  lemma AtListSnoc(items: seq<NameValue>, x: NameValue)
    ensures AtList(items + [x]) == AtList(items) + [(StrKey("@" + x.name), Str(x.value))]
  {
  }

  /** With distinct names there is exactly one entry per item, in item order. */
  lemma {:induction false} AtEntriesExact(items: seq<NameValue>)
    requires DistinctNames(items)
    ensures |AtEntries(items)| == |items|
    ensures forall j :: 0 <= j < |items| ==> AtEntries(items)[j] == (StrKey("@" + items[j].name), Str(items[j].value))
    decreases |items|
  {
    if items != [] {
      var init := items[..|items| - 1];
      assert DistinctNames(init) by {
        assert forall j :: 0 <= j < |init| ==> init[j] == items[j];
      }
      AtEntriesExact(init);
      AtEntriesAppend(items);
    }
  }

  /** The last item's name, unused before it, adds its entry at the end. */
  lemma AtEntriesAppend(items: seq<NameValue>)
    requires items != [] && DistinctNames(items)
    requires var init := items[..|items| - 1];
      && |AtEntries(init)| == |init|
      && forall j :: 0 <= j < |init| ==> AtEntries(init)[j] == (StrKey("@" + init[j].name), Str(init[j].value))
    ensures |AtEntries(items)| == |items|
    ensures forall j :: 0 <= j < |items| ==> AtEntries(items)[j] == (StrKey("@" + items[j].name), Str(items[j].value))
  {
    var init, last := items[..|items| - 1], items[|items| - 1];
    var prev := AtEntries(init);
    var key := StrKey("@" + last.name);
    assert !HasKey(prev, key) by {
      forall i | 0 <= i < |prev| ensures prev[i].0 != key {
        assert init[i] == items[i];
        assert ("@" + init[i].name)[1..] == init[i].name;
        assert ("@" + last.name)[1..] == last.name;
      }
    }
    var r := AtEntries(items);
    assert r == prev + [(key, Str(last.value))] by {
      assert r == Assign(prev, key, Str(last.value));
    }
    forall j | 0 <= j < |items| ensures r[j] == (StrKey("@" + items[j].name), Str(items[j].value)) {
      if j < |init| {
        assert init[j] == items[j] && r[j] == prev[j];
      }
    }
  }

  /** With distinct names the `@`-entries are exactly the item list's. */
  lemma AtEntriesIsAtList(items: seq<NameValue>)
    requires DistinctNames(items)
    ensures AtEntries(items) == AtList(items)
  {
    AtEntriesExact(items);
  }

  /** What the decoder makes of the selected root node. */
  function DecodeRoot(doc: Document, root: Node, context: Entries, parseXml: (Node, Entries) -> Value): (r: Value)
    ensures !HasChildNodes(root) ==> r.Str? || r.Arr?
    ensures !HasChildNodes(root) && HasAttributes(root) ==>
      r.Arr? && r.entries != [] && r.entries[|r.entries| - 1] == (StrKey(TEXT_KEY), Str(root.value))
  {
    if HasChildNodes(root) then
      var namespaces := Unset(AtEntries(doc.namespaces), StrKey(XML_NAMESPACE_KEY));
      if namespaces == [] then parseXml(root, context)
      else Arr(Merge(namespaces, ToArray(parseXml(root, context))))
    else if !HasAttributes(root) then Str(root.value)
    else
      var entries := AtEntries(root.attributes);
      AtEntriesKeys(root.attributes, TEXT_KEY);
      Arr(Assign(entries, StrKey(TEXT_KEY), Str(root.value)))
  }

  /** The whole decoder, given the parser and parseXml. */
  function DecodeSpec(
    data: string, context: Entries, defaults: Entries,
    parser: (string, Value) -> ParseResult, parseXml: (Node, Entries) -> Value): (r: Result<Value, DecodeError>)
    ensures r.Success? ==> exists i :: 0 <= i < |data| && !IsTrimmed(data[i])
    ensures r.Success? ==> parser(data, XmlEncoder.ResolveOption(context, defaults, XmlEncoder.LOAD_OPTIONS)).lastError.None?
    ensures r.Failure? && r.error.InvalidOperation? ==>
      parser(data, XmlEncoder.ResolveOption(context, defaults, XmlEncoder.LOAD_OPTIONS)).lastError == Some(r.error.message)
  {
    if Trim(data) == "" then Failure(ArgumentNull(EMPTY_INPUT_MESSAGE))
    else
      var parsed := parser(data, XmlEncoder.ResolveOption(context, defaults, XmlEncoder.LOAD_OPTIONS));
      if parsed.lastError.Some? then Failure(InvalidOperation(parsed.lastError.value))
      else
        var ignored := XmlEncoder.ResolveOption(context, defaults, XmlEncoder.DECODER_IGNORED_NODE_TYPES);
        match ScanTopLevel(parsed.document.children, ignored)
        case DocumentTypeFound => Failure(Argument(DOCUMENT_TYPE_MESSAGE))
        case Selected(None) => Failure(NoRootNode)
        case Selected(Some(root)) => Success(DecodeRoot(parsed.document, root, context, parseXml))
  }

  /**
   * XmlDecoder::decode. The option defaults are a parameter: the decoder
   * declares no defaults of its own; pass `[]` for the code as written,
   * `XmlEncoder.DEFAULT_CONTEXT` for the intended values.
   */
  method Decode(
    data: string, context: Entries, defaults: Entries,
    parser: (string, Value) -> ParseResult, parseXml: (Node, Entries) -> Value)
    returns (r: Result<Value, DecodeError>)
    ensures r == DecodeSpec(data, context, defaults, parser, parseXml)
  {
    if Trim(data) == "" {
      return Failure(ArgumentNull(EMPTY_INPUT_MESSAGE));
    }

    var parsed := parser(data, XmlEncoder.ResolveOption(context, defaults, XmlEncoder.LOAD_OPTIONS));
    if parsed.lastError.Some? {
      return Failure(InvalidOperation(parsed.lastError.value));
    }
    var dom := parsed.document;

    var decoderIgnoredNodeTypes := XmlEncoder.ResolveOption(context, defaults, XmlEncoder.DECODER_IGNORED_NODE_TYPES);
    var scan := ScanNodes(dom.children, decoderIgnoredNodeTypes);
    if scan.DocumentTypeFound? {
      return Failure(Argument(DOCUMENT_TYPE_MESSAGE));
    }
    if scan.root.None? {
      return Failure(NoRootNode);
    }
    var root := scan.root.value;

    if HasChildNodes(root) {
      var entries := CollectAtEntries(dom.namespaces);
      entries := Unset(entries, StrKey(XML_NAMESPACE_KEY));
      if entries == [] {
        return Success(parseXml(root, context));
      }
      return Success(Arr(Merge(entries, ToArray(parseXml(root, context)))));
    }

    if !HasAttributes(root) {
      return Success(Str(root.value));
    }

    var entries := CollectAtEntries(root.attributes);
    entries := Assign(entries, StrKey(TEXT_KEY), Str(root.value));
    return Success(Arr(entries));
  }

  /**
   * The foreach over the top-level nodes: it stops at the first document
   * type, and otherwise keeps the first node whose type is not ignored.
   */
  method ScanNodes(nodes: seq<Node>, ignored: Value) returns (scan: Scan)
    ensures scan == ScanTopLevel(nodes, ignored)
  {
    var rootNode: Option<Node> := None;
    var i := 0;
    while i < |nodes|
      invariant 0 <= i <= |nodes|
      invariant ScanTopLevel(nodes[..i], ignored) == Selected(rootNode)
    {
      var child := nodes[i];
      assert nodes[..i + 1][..i] == nodes[..i];
      if child.kind.Code() == XML_DOCUMENT_TYPE_NODE {
        ScanFindsDocumentType(nodes, ignored);
        assert nodes[i].kind == DocumentType;
        return DocumentTypeFound;
      }
      if rootNode.None? && !InArrayStrict(Int(child.kind.Code()), ignored) {
        rootNode := Some(child);
      }
      i := i + 1;
    }
    assert nodes[..i] == nodes;
    return Selected(rootNode);
  }

  /** Blank input is refused whatever the parser would have made of it. */
  lemma DecodeRejectsBlank(
    data: string, context: Entries, defaults: Entries,
    parser: (string, Value) -> ParseResult, parseXml: (Node, Entries) -> Value)
    requires forall i :: 0 <= i < |data| ==> IsTrimmed(data[i])
    ensures DecodeSpec(data, context, defaults, parser, parseXml) == Failure(ArgumentNull(EMPTY_INPUT_MESSAGE))
  {
  }

  /** A parser error fails the decoder with exactly that error's message and no value. */
  lemma DecodeSurfacesParseError(
    data: string, context: Entries, defaults: Entries,
    parser: (string, Value) -> ParseResult, parseXml: (Node, Entries) -> Value)
    requires exists i :: 0 <= i < |data| && !IsTrimmed(data[i])
    requires parser(data, XmlEncoder.ResolveOption(context, defaults, XmlEncoder.LOAD_OPTIONS)).lastError.Some?
    ensures DecodeSpec(data, context, defaults, parser, parseXml) ==
      Failure(InvalidOperation(parser(data, XmlEncoder.ResolveOption(context, defaults, XmlEncoder.LOAD_OPTIONS)).lastError.value))
  {
  }

  /** A document type anywhere at the top level is refused, even after an eligible root. */
  lemma DecodeRejectsDocumentType(
    data: string, context: Entries, defaults: Entries,
    parser: (string, Value) -> ParseResult, parseXml: (Node, Entries) -> Value, i: nat)
    requires exists c :: 0 <= c < |data| && !IsTrimmed(data[c])
    requires var parsed := parser(data, XmlEncoder.ResolveOption(context, defaults, XmlEncoder.LOAD_OPTIONS));
      parsed.lastError.None? && i < |parsed.document.children| && parsed.document.children[i].kind == DocumentType
    ensures DecodeSpec(data, context, defaults, parser, parseXml) == Failure(Argument(DOCUMENT_TYPE_MESSAGE))
  {
    var parsed := parser(data, XmlEncoder.ResolveOption(context, defaults, XmlEncoder.LOAD_OPTIONS));
    ScanFindsDocumentType(parsed.document.children,
      XmlEncoder.ResolveOption(context, defaults, XmlEncoder.DECODER_IGNORED_NODE_TYPES));
  }

  /** The root is the first top-level node whose type is not ignored. */
  lemma DecodeUsesFirstEligibleRoot(
    data: string, context: Entries, defaults: Entries,
    parser: (string, Value) -> ParseResult, parseXml: (Node, Entries) -> Value, i: nat)
    requires exists c :: 0 <= c < |data| && !IsTrimmed(data[c])
    requires var parsed := parser(data, XmlEncoder.ResolveOption(context, defaults, XmlEncoder.LOAD_OPTIONS));
      && parsed.lastError.None?
      && (forall j :: 0 <= j < |parsed.document.children| ==> parsed.document.children[j].kind != DocumentType)
      && IsFirstEligible(parsed.document.children, XmlEncoder.ResolveOption(context, defaults, XmlEncoder.DECODER_IGNORED_NODE_TYPES), i)
    ensures var parsed := parser(data, XmlEncoder.ResolveOption(context, defaults, XmlEncoder.LOAD_OPTIONS));
      DecodeSpec(data, context, defaults, parser, parseXml) ==
      Success(DecodeRoot(parsed.document, parsed.document.children[i], context, parseXml))
  {
    var parsed := parser(data, XmlEncoder.ResolveOption(context, defaults, XmlEncoder.LOAD_OPTIONS));
    ScanSelectsFirstEligible(parsed.document.children,
      XmlEncoder.ResolveOption(context, defaults, XmlEncoder.DECODER_IGNORED_NODE_TYPES));
  }

  /** When every top-level node is ignored there is no root, and the decoder fails. */
  lemma DecodeWithoutRoot(
    data: string, context: Entries, defaults: Entries,
    parser: (string, Value) -> ParseResult, parseXml: (Node, Entries) -> Value)
    requires exists c :: 0 <= c < |data| && !IsTrimmed(data[c])
    requires var parsed := parser(data, XmlEncoder.ResolveOption(context, defaults, XmlEncoder.LOAD_OPTIONS));
      var ignored := XmlEncoder.ResolveOption(context, defaults, XmlEncoder.DECODER_IGNORED_NODE_TYPES);
      && parsed.lastError.None?
      && forall j :: 0 <= j < |parsed.document.children| ==>
        parsed.document.children[j].kind != DocumentType && Ignored(parsed.document.children[j], ignored)
    ensures DecodeSpec(data, context, defaults, parser, parseXml) == Failure(NoRootNode)
  {
    var parsed := parser(data, XmlEncoder.ResolveOption(context, defaults, XmlEncoder.LOAD_OPTIONS));
    ScanSelectsFirstEligible(parsed.document.children,
      XmlEncoder.ResolveOption(context, defaults, XmlEncoder.DECODER_IGNORED_NODE_TYPES));
  }

  /**
   * With the built-in defaults, a document whose top level holds an element
   * always has a root.
   */
  lemma DefaultsFindElementRoot(nodes: seq<Node>, i: nat)
    requires i < |nodes| && nodes[i].kind == Element
    requires forall j :: 0 <= j < |nodes| ==> nodes[j].kind != DocumentType
    ensures var scan := ScanTopLevel(nodes, Get(XmlEncoder.DEFAULT_CONTEXT, StrKey(XmlEncoder.DECODER_IGNORED_NODE_TYPES)));
      scan.Selected? && scan.root.Some?
  {
    var ignored := Get(XmlEncoder.DEFAULT_CONTEXT, StrKey(XmlEncoder.DECODER_IGNORED_NODE_TYPES));
    assert !Ignored(nodes[i], ignored) by {
      XmlEncoder.BuiltInDefaults();
      ElementNotIgnored(nodes[i], ignored);
    }
    ScanSelection(nodes, ignored);
  }

  lemma ElementNotIgnored(n: Node, ignored: Value)
    requires n.kind == Element
    requires ignored == Arr([(IntKey(0), Int(XML_PI_NODE)), (IntKey(1), Int(XML_COMMENT_NODE))])
    ensures !Ignored(n, ignored)
  {
  }

  /**
   * A root with children: parseXml's result alone when no namespace is
   * declared; otherwise the namespace entries first, in their order, then
   * parseXml's, whose value wins on a shared key. `@xmlns:xml` comes only
   * from parseXml.
   */
  lemma DecodeRootWithChildren(doc: Document, root: Node, context: Entries, parseXml: (Node, Entries) -> Value)
    requires HasChildNodes(root)
    requires UniqueKeys(ToArray(parseXml(root, context)))
    ensures var namespaces := Unset(AtEntries(doc.namespaces), StrKey(XML_NAMESPACE_KEY));
      var child := ToArray(parseXml(root, context));
      var r := DecodeRoot(doc, root, context, parseXml);
      && (namespaces == [] ==> r == parseXml(root, context))
      && (namespaces != [] ==>
        && r.Arr?
        && |r.entries| >= |namespaces|
        && (forall i :: 0 <= i < |namespaces| ==> r.entries[i].0 == namespaces[i].0)
        && (forall s :: (Lookup(r.entries, StrKey(s)) ==
             if HasKey(child, StrKey(s)) then Lookup(child, StrKey(s)) else Lookup(namespaces, StrKey(s))))
        && Lookup(r.entries, StrKey(XML_NAMESPACE_KEY)) == Lookup(child, StrKey(XML_NAMESPACE_KEY))
        && r.entries == Overlay(namespaces, child) + Appended(namespaces, child))
      && (DistinctNames(doc.namespaces) ==> namespaces == AtList(Declared(doc.namespaces)))
  {
    var namespaces := Unset(AtEntries(doc.namespaces), StrKey(XML_NAMESPACE_KEY));
    if namespaces != [] {
      MergeOverrides(namespaces, ToArray(parseXml(root, context)));
    }
    if DistinctNames(doc.namespaces) {
      AtEntriesIsAtList(doc.namespaces);
      UnsetAtList(doc.namespaces);
    }
  }

  /**
   * The namespace entries: one `@`-prefixed entry per namespace node, in
   * query order, with the `xml` prefix's declaration taken out.
   */
  lemma NamespaceEntries(namespaces: seq<NameValue>)
    requires DistinctNames(namespaces)
    ensures var entries := Unset(AtEntries(namespaces), StrKey(XML_NAMESPACE_KEY));
      && Lookup(entries, StrKey(XML_NAMESPACE_KEY)) == None
      && (forall j :: 0 <= j < |namespaces| && namespaces[j].name != "xmlns:xml" ==>
        Lookup(entries, StrKey("@" + namespaces[j].name)) == Some(Str(namespaces[j].value)))
      && |entries| == |Declared(namespaces)|
      && forall j :: 0 <= j < |entries| ==>
        entries[j] == (StrKey("@" + Declared(namespaces)[j].name), Str(Declared(namespaces)[j].value))
  {
    AtEntriesExact(namespaces);
    AtEntriesIsAtList(namespaces);
    UnsetAtList(namespaces);
    var all := AtEntries(namespaces);
    forall j | 0 <= j < |namespaces| && namespaces[j].name != "xmlns:xml"
      ensures Lookup(Unset(all, StrKey(XML_NAMESPACE_KEY)), StrKey("@" + namespaces[j].name)) == Some(Str(namespaces[j].value))
    {
      assert ("@" + namespaces[j].name)[1..] == namespaces[j].name;
      assert StrKey("@" + namespaces[j].name) != StrKey(XML_NAMESPACE_KEY);
      LookupAt(all, j);
    }
  }

  /** A childless root without attributes decodes to its value. */
  lemma DecodeLeafRoot(doc: Document, root: Node, context: Entries, parseXml: (Node, Entries) -> Value)
    requires !HasChildNodes(root) && !HasAttributes(root)
    ensures DecodeRoot(doc, root, context, parseXml) == Str(root.value)
  {
  }

  /**
   * A childless root with attributes decodes to one `@name` entry per
   * attribute, in attribute order, then a `#` entry with its value, and
   * nothing else.
   */
  lemma DecodeAttributedRoot(doc: Document, root: Node, context: Entries, parseXml: (Node, Entries) -> Value)
    requires !HasChildNodes(root) && HasAttributes(root)
    requires DistinctNames(root.attributes)
    ensures var r := DecodeRoot(doc, root, context, parseXml);
      && r.Arr?
      && |r.entries| == |root.attributes| + 1
      && (forall j :: 0 <= j < |root.attributes| ==>
           r.entries[j] == (StrKey("@" + root.attributes[j].name), Str(root.attributes[j].value)))
      && r.entries[|root.attributes|] == (StrKey(TEXT_KEY), Str(root.value))
  {
    AtEntriesExact(root.attributes);
    var entries := AtEntries(root.attributes);
    forall i | 0 <= i < |entries| ensures entries[i].0 != StrKey(TEXT_KEY) {
      assert entries[i].0.s[0] == '@';
    }
  }
}
