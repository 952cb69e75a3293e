# XML serializer: top-level decode and encode

A Dafny model of the top level of an XML ⇄ PHP-array serializer
(`Subsession\Serializers\Xml`).

**Decoding** (`XmlDecoder.Decode`) turns an XML text into a PHP value. It:

- refuses input that `trim` reduces to nothing;
- surfaces libxml's last error as a failure carrying its message;
- scans every top-level node, refusing any document type and taking the
  first node whose type is not ignored as the root;
- for a root with children, hands it to `parseXml`, merging the document
  element's namespace declarations in front as `@xmlns:prefix` entries
  (`@xmlns` for the default namespace), without
  `@xmlns:xml`;
- for a childless root, returns its value, or an `@name` entry per
  attribute plus a final `#` entry.

**Encoding** (`XmlEncoder.XmlEncoder`) holds a default context. That context
is the built-in options merged with the caller's overrides. Each `Encode`
call resolves its options with `??` (the call's value, else the default).
A document the caller built is serialised as it is. Otherwise a fresh
document is created and stored with the call's format and context. Arrays
and objects go to `buildXml` under a root element named by
`xml_root_node_name`. Null and scalars go to `appendNode` on the document
itself. The document is serialised from its document element when
processing instructions are among the encoder-ignored node types.

Modules:

- `Wrappers`: `Option` and `Result`.
- `PhpArrays`: PHP values and ordered PHP arrays. Arrays are key/value
  sequences, so positions are observable. The module has `$a[$k] = $v`,
  `unset`, `in_array(…, true)`, the `(array)` cast and `array_merge`. In
  `array_merge`, string keys overwrite in place and integer keys are
  renumbered and appended.
- `Dom`: the parsed tree the decoder reads, and a `DomDocument` class for
  the document the encoder builds. The class records the builder calls made
  on it. Serialisation is the uninterpreted term `Serialized`.
- `XmlEncoder`: option keys, the built-in defaults, option resolution and
  the `XmlEncoder` class.
- `XmlDecoder`: `trim`, the top-level scan, the `@`-entry loops, the decoder
  method and the lemmas about it.

Collaborators are parameters of `Decode`:

- `parser` is `DOMDocument::loadXML` plus `libxml_get_last_error`. It is
  given the resolved `load_options`.
- `parseXml` is the tree walker for a root with children.

`XmlDecoder` has no option constants or default context of its own. It
reads `self::LOAD_OPTIONS`, `self::DECODER_IGNORED_NODE_TYPES` and
`$this->defaultContext`, which only `XmlEncoder` declares. As written:

- the class constants exist in `XmlDecoder` only if `DecoderInterface`
  (not part of this model) declares them;
- `$this->defaultContext` is an undeclared property, which reads as null.

So the model passes the defaults to `Decode` as a parameter:

- `defaults := []` reproduces the code as written: no node type is ignored
  and no parser flag is set;
- `XmlEncoder.DEFAULT_CONTEXT` gives the intended values.

Two points where the model states what the code does as written:

- The decoder surfaces libxml's last error, not its first. Any reported
  error fails the decoder, even when a document was produced.
- When every top-level node is ignored, the code calls `hasChildNodes()` on
  null, a fatal error. The model returns the explicit error `NoRootNode`.

## Model

| member | source | states |
|---|---|---|
| `PhpArrays.Lookup` | src/XmlEncoder.php:108-109 | an array read finds a value exactly when the key is present, and that value sits in an entry under that key |
| `PhpArrays.LookupAt` | src/XmlDecoder.php:116-117 | in an array with unique keys, the key of any entry reads back that entry's value |
| `PhpArrays.Assign` | src/XmlDecoder.php:98 | `$a[$k] = $v` makes `$k` read `$v` and leaves other keys alone; an existing key keeps its position, a new one is appended; key uniqueness is preserved |
| `PhpArrays.Get` | src/XmlEncoder.php:108-109 | reading `$a[$k]` gives the stored value when the key is present and null when it is missing |
| `PhpArrays.IsScalar` | src/XmlEncoder.php:123 | `is_scalar` holds for every value except null, arrays and objects |
| `PhpArrays.Unset` | src/XmlDecoder.php:101 | after `unset` the key is absent, other keys read as before, no key is added, and uniqueness and string-keyedness are preserved |
| `PhpArrays.UnsetRemovesInPlace` | src/XmlDecoder.php:101 | in a PHP array `unset` removes exactly the one entry with the key; the entries before and after it keep their order |
| `PhpArrays.UnsetSnoc` | src/XmlDecoder.php:101 | unsetting from an array with one more entry at its end gives the unset of the rest, followed by that entry unless it has the key |
| `PhpArrays.NextIndex` | src/XmlDecoder.php:107 | the index `array_merge` appends under is the least valid one: non-negative, above every integer key, and either 0 or one more than an integer key present (so 0 for a string-keyed array) |
| `PhpArrays.InArrayStrict` | src/XmlEncoder.php:111 | strict `in_array` holds exactly when the haystack is an array with an entry identical to the needle |
| `PhpArrays.ToArray` | src/XmlDecoder.php:107 | the `(array)` cast keeps an array, maps null to `[]` and a scalar to `[0 => scalar]` |
| `PhpArrays.Merge` | src/XmlDecoder.php:107 | `array_merge` never produces a duplicate key |
| `PhpArrays.MergeIntoUnique` | src/XmlEncoder.php:100 | merging entries one at a time into a unique-keyed array keeps the keys unique |
| `PhpArrays.MergeIntoKeepsPositions` | src/XmlDecoder.php:107 | keys already in the result keep their positions as further entries are merged in |
| `PhpArrays.MergeIntoLookup` | src/XmlDecoder.php:107 | after merging, a string key has the merged-in value if the merged array has the key, and its earlier value otherwise |
| `PhpArrays.MergeIntoEmptyStringKeyed` | src/XmlEncoder.php:100 | merging a string-keyed array into an empty one gives back that array unchanged |
| `PhpArrays.MergeIntoShape` | src/XmlDecoder.php:107 | merging `$b` entry by entry into a string-keyed array gives exactly the array's entries overridden in place by `$b`'s values (`Overlay`), then `$b`'s other entries in `$b`'s order with integer keys renumbered 0, 1, 2, … (`Appended`); the next free index is then the number of integer keys in `$b` |
| `PhpArrays.MergeOverrides` | src/XmlDecoder.php:107 | `array_merge($a, $b)` with string-keyed `$a`: `$a`'s keys come first in order, a shared string key takes `$b`'s value, and the result is exactly `Overlay(a, b) + Appended(a, b)`, with nothing else added |
| `PhpArrays.MergeAppendsIntegerKeyed` | src/XmlDecoder.php:107 | an integer-keyed entry of the second array is renumbered to 0 and appended after a string-keyed first array |
| `Dom.HasChildNodes` | src/XmlDecoder.php:94 | `hasChildNodes()` on the selected root: it has at least one child (no contract; a plain definition) |
| `Dom.HasAttributes` | src/XmlDecoder.php:110 | `hasAttributes()`: only an element can have attributes |
| `Dom.DomDocument.SaveXml` | src/XmlEncoder.php:114 | `saveXML` of the document in its current state, from the chosen start node (no contract; an uninterpreted term, whose use is stated by `XmlEncoder.XmlEncoder.Encode`) |
| `Dom.DomDocument.CreateElement` | src/XmlEncoder.php:124 | records the element creation and returns a reference to the new element |
| `Dom.DomDocument.AppendChild` | src/XmlEncoder.php:125 | records appending the child under the parent |
| `XmlEncoder.ResolveOption` | src/XmlEncoder.php:108-109 | `??`: the call's value when present and non-null; the default when missing or explicitly null |
| `XmlEncoder.IgnorePiNode` | src/XmlEncoder.php:111 | holds exactly when the resolved encoder-ignored list is an array holding the integer processing-instruction type |
| `XmlEncoder.BuiltInDefaults` | src/XmlEncoder.php:77-85 | the built-in options, key by key: `as_collection` false, decoder-ignored `[PI, Comment]`, encoder-ignored `[]`, `load_options` NONET\|NOBLANKS, `remove_empty_tags` false, root name `"response"`, attribute type-casting true; keys unique |
| `XmlEncoder.ConstructedDefaults` | src/XmlEncoder.php:100 | after construction each supplied option has the caller's value, every other option its built-in default, and the built-in keys stay first |
| `XmlEncoder.ResolvesToBuiltInDefault` | src/XmlEncoder.php:117 | an option set by neither the call (or set to null there) nor the construction resolves to its built-in default |
| `XmlEncoder.DefaultKeepsDeclaration` | src/XmlEncoder.php:131 | with the encoder-ignored list left at its default, the whole document is serialised |
| `XmlEncoder.DefaultRootName` | src/XmlEncoder.php:117 | the root name resolves to `"response"` unless the call or the construction sets it |
| `XmlEncoder.IgnorePiNodeIsStrict` | src/XmlEncoder.php:111 | the integer PI type in the list sets `ignorePiNode`; the string `"7"` does not |
| `XmlEncoder.XmlEncoder.constructor` | src/XmlEncoder.php:97-101 | the default context is `array_merge` of the built-in defaults and the caller's; no document, format or context yet |
| `XmlEncoder.XmlEncoder.Encode` | src/XmlEncoder.php:106-132 | a prebuilt document is serialised directly and nothing changes; otherwise a fresh document for the context is stored with format and context; data that is neither null nor scalar gets create-root/append/buildXml on that root; null or a scalar gets one appendNode on the document; the output is from the document element exactly when `ignorePiNode` holds |
| `XmlEncoder.XmlEncoder.CreateDomDocument` | src/XmlEncoder.php:119 | gives a fresh, empty document made for the call's context |
| `XmlEncoder.XmlEncoder.BuildXml` | src/XmlEncoder.php:126 | records the buildXml call on the current document |
| `XmlEncoder.XmlEncoder.AppendNode` | src/XmlEncoder.php:128 | records the appendNode call on the current document |
| `XmlDecoder.TrimLeft` | src/XmlDecoder.php:59 | the result is a suffix, everything removed is a trim character, and it does not start with one |
| `XmlDecoder.TrimRight` | src/XmlDecoder.php:59 | the result is a prefix, everything removed is a trim character, and it does not end with one |
| `XmlDecoder.Trim` | src/XmlDecoder.php:59 | `trim` yields `""` exactly when every character is space, tab, newline, carriage return, NUL or vertical tab |
| `XmlDecoder.ScanTopLevel` | src/XmlDecoder.php:83-90 | the scan outcome over the top-level nodes; a selected root is one of those nodes and its type is not ignored |
| `XmlDecoder.ScanNodes` | src/XmlDecoder.php:83-90 | the loop over top-level nodes computes the scan outcome |
| `XmlDecoder.ScanFindsDocumentType` | src/XmlDecoder.php:83-86 | the scan stops with a document-type refusal exactly when some top-level node, at any position, is a document type |
| `XmlDecoder.ScanSelection` | src/XmlDecoder.php:87-89 | without a document type the scan selects; no selection means every node is ignored; a selection is the first non-ignored node |
| `XmlDecoder.ScanSelectsFirstEligible` | src/XmlDecoder.php:87-89 | without a document type the selected root is the first non-ignored node, later ones never replace it, and nothing is selected exactly when all are ignored |
| `XmlDecoder.AtEntries` | src/XmlDecoder.php:96-99 | `$data["@" . $name] = $value` for each node in order, into an empty array; the result is string-keyed with unique keys |
| `XmlDecoder.AtEntriesKeys` | src/XmlDecoder.php:116-120 | every `@`-entry key starts with `@`, so the `#` key is never among them and `$data["#"]` is appended last |
| `XmlDecoder.CollectAtEntries` | src/XmlDecoder.php:96-99 | the loop over namespace or attribute nodes yields the `@`-entries of those nodes in order |
| `XmlDecoder.AtEntriesExact` | src/XmlDecoder.php:116-118 | with distinct names there is exactly one `"@"+name → value` entry per node, in node order |
| `XmlDecoder.Declared` | src/XmlDecoder.php:96-101 | the namespace nodes kept after the `xml` prefix's declaration is dropped, as an in-order filter; the contract states membership: a node is kept exactly when the query yields it and its name is not `xmlns:xml` |
| `XmlDecoder.UnsetAtList` | src/XmlDecoder.php:96-101 | removing `@xmlns:xml` from the namespace entry list leaves exactly the entries of the other declarations, in query order |
| `XmlDecoder.DecodeRoot` | src/XmlDecoder.php:94-122 | a childless root decodes to a string or an array; with attributes, the array ends with the `"#" => value` entry |
| `XmlDecoder.DecodeSpec` | src/XmlDecoder.php:57-123 | the decoder as a function: success needs a non-blank input and no parser error, and an `InvalidOperation` failure carries exactly the parser's last error message |
| `XmlDecoder.Decode` | src/XmlDecoder.php:57-123 | the decoder's result is the composed specification: blank check, parse error, scan, then the root's shaping |
| `XmlDecoder.DecodeRejectsBlank` | src/XmlDecoder.php:59-61 | input of trim characters only fails with the "can not be empty" error, whatever the parser would give |
| `XmlDecoder.DecodeSurfacesParseError` | src/XmlDecoder.php:73-77 | a reported parser error fails with exactly its message and no value |
| `XmlDecoder.DecodeRejectsDocumentType` | src/XmlDecoder.php:83-86 | a document type at any top-level position fails decoding, even after an eligible root |
| `XmlDecoder.DecodeUsesFirstEligibleRoot` | src/XmlDecoder.php:87-94 | the value decoded is that of the first top-level node whose type is not ignored |
| `XmlDecoder.DecodeWithoutRoot` | src/XmlDecoder.php:79-94 | when every top-level node is ignored, decoding fails with `NoRootNode` |
| `XmlDecoder.DefaultsFindElementRoot` | src/XmlDecoder.php:80-89 | with the built-in ignored types, a document with a top-level element always selects a root |
| `XmlDecoder.DecodeRootWithChildren` | src/XmlDecoder.php:94-108 | with children and no namespace entries the result is `parseXml(root)`. Otherwise the result is exactly the namespace entries in query order, each overridden in place by `parseXml`'s value for a shared key, followed by `parseXml`'s other entries in order (integer keys renumbered). `@xmlns:xml` appears only if `parseXml` produced it. With distinct names the namespace entries are exactly the `"@" + name => value` entries of the non-`xml` declarations, in query order |
| `XmlDecoder.NamespaceEntries` | src/XmlDecoder.php:97-101 | each namespace node other than `xmlns:xml` reads as `"@"+name → value`, `@xmlns:xml` is absent, and the map is exactly one such entry per remaining node, in query order |
| `XmlDecoder.DecodeLeafRoot` | src/XmlDecoder.php:110-112 | a root with no children and no attributes decodes to its value as a string |
| `XmlDecoder.DecodeAttributedRoot` | src/XmlDecoder.php:114-122 | a childless root with attributes decodes to one `"@"+name → value` entry per attribute in order, then `"#" → value`, and nothing else |

## Left out

- libxml's process-wide state is not modelled: internal-error mode, the entity loader switch and error clearing. Only the outcome "a reported error fails with its message" is kept.
- XML parsing itself, and the meaning of the `load_options` bit flags, are not modelled. The parser is a parameter that receives the resolved flags.
- The XPath `namespace::*` query is not evaluated. The namespace nodes it yields on the document element are a field of the parsed document.
- `parseXml`, `buildXml`, `appendNode` and `createDomDocument` are not among the modelled files. They are parameters, or recorded calls on the document.
- What `createElement`, `appendChild` and `saveXML` do to or with the tree is not modelled. A built document is the record of its calls, and serialisation is an uninterpreted term. Parsed nodes are values and built nodes are step indices (`NodeRef`), so DOM node identity and aliasing are not captured. A `DOMException` for an invalid element name is not modelled.
- The PHP exception classes are not modelled. The three exceptions and the null-dereference fatal error are the four cases of `DecodeError`.
- Strings are sequences of characters. The byte-level encoding of the input and libxml's text handling are not modelled.
- PHP's normalisation of numeric string keys to integers is left to whoever builds a context array. The model's keys are already typed.
- `NextIndex` is computed from the keys present. PHP's internal next-free counter also remembers unset integer keys, which does not matter for the fresh arrays `array_merge` builds.
- `in_array` on a non-array gives false, as under PHP 7 (which warns and returns null). PHP 8 raises a `TypeError` instead.
- `(array)` on an object gives its property entries. Visibility-mangled property names are not modelled.
- `DecodeAttributedRoot` is stated only for distinct attribute local names. Well-formed XML does not guarantee them, because the key is the attribute's local name without its prefix. So `<r xmlns:a="u" xmlns:b="v" a:x="1" b:x="2"/>` gives two `@x` keys, and the later value overwrites the earlier in place. `DecodeRoot` itself models that overwrite.
- `AtEntriesExact` is stated only for distinct names. `AtEntries` itself models the in-place overwrite of a repeated name, as in the attribute example above.
- `NamespaceEntries` is stated for distinct namespace node names. Well-formed XML guarantees these, because the in-scope prefixes are distinct.
- `DecodeRootWithChildren` is stated for a `parseXml` result whose array form has unique keys. Every PHP array has unique keys.
