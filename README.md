# XML serialization walk of w3c-xmlserializer, in Dafny

This project models the core of `w3c-xmlserializer`: the algorithm that turns a
DOM node into XML markup (`lib/XMLSerializer-impl.js`). That core is:

- `asciiCaseInsensitiveMatch`;
- "recording the namespace information" of an element (`recordNamespaceInformation`);
- the recursive `xmlSerialization` walk, with one case per node kind;
- the entry points `produceXmlSerialization` and `XMLSerializer.serializeToString`.

The model has two layers.

- **Specification functions** (modules `Leaves`, `Namespaces`, `Elements`,
  `TreeSerializer`):
  - the markup of each node kind;
  - the namespace scan, as a fold over the attributes;
  - the qualified-name and namespace-declaration decision of an element;
  - the start tag, and the walk over children.

  The walk threads two pieces of state in document order:
  - the shared prefix counter, the `refs` cell;
  - every prefix list allocated so far (`Prefixes.Store`).

  Each element copies the map it inherits (`Object.assign`). That copy is
  shallow, so the lists are shared objects: a `PrefixMap` maps each namespace
  to the *identity* of its list, and a push onto an existing list is seen by
  the parent and by later siblings. New keys stay local to the element's copy.
- **The class `Serializer.Serializer`**, which holds the counter and the store
  and runs the source's loops step by step:
  - the scan over attributes;
  - the children loop;
  - the prefix push and increment.

  Every method is proved to compute exactly what the corresponding
  specification function says and, on success, the state it leaves behind.

The collaborators the core calls are parameters: a `Helpers.Collaborators`
record of function values. They are the helpers in `lib/attributes.js`
(`preferredPrefixString`, `generatePrefix`, `serializeAttributeValue`,
`serializeAttributes`) and the XML Name check of `xml-name-validator`.

- A throw from a collaborator is `None`.
- A helper that records prefixes in the map reports them as a list of
  bindings, which the serializer applies with the same "create the list if
  missing, then push" step that the namespace scan uses.
- `serializeAttributes` reports how many prefixes it minted, so the counter
  only grows.

Some of the code's choices are worth stating plainly:

- The default namespace recorded for an element is the value of its **last**
  `xmlns` attribute, because each one overwrites the variable (lines 27-29).
- A fresh prefix is generated whenever the element's own prefix is a key of
  the element-local prefix map (line 197), whatever namespace that key is
  bound to.
- A document without a document element fails only in strict mode (line 97).
- `serializeToString` always serializes leniently: it passes `false` for `requireWellFormed` (line 287).

## Model

| member | source | states |
|---|---|---|
| Leaves.CaseInsensitiveMatch | lib/XMLSerializer-impl.js:9-21 | the comparison the loop decides: equal lengths and every pair of code units equal once bit 5 is set |
| Leaves.AsciiCaseInsensitiveMatch | lib/XMLSerializer-impl.js:9-21 | the index loop returns true iff the lengths agree and every pair of code units agrees once bit 5 (`\| 32`) is set |
| Leaves.CaseInsensitiveMatchIsEquivalence | lib/XMLSerializer-impl.js:9-21 | the match is reflexive, symmetric and transitive |
| Leaves.MatchesXmlExactly | lib/XMLSerializer-impl.js:15 | against "xml", the `\| 32` comparison accepts exactly the eight upper/lower-case spellings of x, m, l |
| Leaves.SerializeDocumentType | lib/XMLSerializer-impl.js:63-82 | strict mode fails iff the system id holds both quote kinds; otherwise one of the four doctype shapes, chosen by which ids are empty, with quotes left unescaped |
| Examples.DocumentTypeExamples | test/test.js:24-50 | the expected doctype strings of the tests, including ids that contain quotes |
| Leaves.SerializeProcessingInstruction | lib/XMLSerializer-impl.js:83-95 | strict mode fails iff the target holds `:` or matches "xml" (target error first) or the data holds `?>`; otherwise `<?`, the target, one space, the data, then `?>` |
| Leaves.StrictProcessingInstructionData | lib/XMLSerializer-impl.js:92-94 | from the data onward, strict output has no `?>` before the final one |
| Examples.ProcessingInstructionExamples | test/test.js:74-89 | empty data keeps the space; lenient mode accepts the targets `xml` and `x:y` |
| Leaves.EscapeText | lib/XMLSerializer-impl.js:125-130 | the three chained replaces leave no raw `<` or `>` in text markup |
| Leaves.EscapeTextPerChar | lib/XMLSerializer-impl.js:125-130 | the three sequential replaces escape each character independently, so no entity is escaped twice |
| Leaves.UnescapeEscapeText | lib/XMLSerializer-impl.js:125-130 | decoding `&amp;`, `&lt;`, `&gt;` gives the text data back (a round trip) |
| Leaves.EscapedTextIsCharacterData | lib/XMLSerializer-impl.js:125-130 | escaped text has no raw `<` or `>`, and every `&` begins one of the three entities |
| Leaves.PlainTextUnchanged | lib/XMLSerializer-impl.js:125-130 | text without `&`, `<`, `>` is emitted unchanged |
| Leaves.SerializeComment | lib/XMLSerializer-impl.js:131-139 | strict mode fails iff the data holds `--` or ends with `-`; otherwise the data verbatim between `<!--` and `-->` |
| Leaves.StrictCommentIsWellFormed | lib/XMLSerializer-impl.js:133-137 | in strict output no `--` starts inside the data, including one that would run into the closing `-->` |
| Examples.CommentExamples | test/test.js:8-22 | the expected lenient comment strings, and the strict failure on `--` |
| Leaves.SerializeCDataSection | test/test.js:160-167 | a CDATA section is its data verbatim between `<![CDATA[` and `]]>` |
| Leaves.CDataSectionAsWritten | lib/XMLSerializer-impl.js:62-274 | definition only: with no CDATASection case in the switch, the section contributes the text `undefined` to its parent, whatever its data (what that loses is stated by `CDataSectionDataLost`) |
| Leaves.CDataSectionDataLost | lib/XMLSerializer-impl.js:62-274 | as written, sections with different data serialize alike; the intended markup tells them apart |
| Prefixes.Add | lib/XMLSerializer-impl.js:48-51 | recording a prefix creates an empty list for a new namespace (a fresh identity), then pushes; other lists and keys are untouched and the store only grows |
| Namespaces.RecordStep | lib/XMLSerializer-impl.js:26-52 | one attribute of the scan: lists are only appended to or added, and every existing key keeps its list |
| Namespaces.RecordedNamespaces | lib/XMLSerializer-impl.js:23-56 | the scan over all attributes, in order: it only grows the store and keeps every existing key's list |
| Namespaces.RecordStepCases | lib/XMLSerializer-impl.js:25-53 | one attribute changes the map, lists and local map iff it is an `xmlns:p` attribute whose value is not the XML namespace and whose prefix is not yet listed for that value |
| Namespaces.RecordedDefaultIsLast | lib/XMLSerializer-impl.js:24-30 | the recorded default namespace is the value of the last `xmlns` attribute, and it is null iff there is none |
| Namespaces.RecordedPrefixesAreListed | lib/XMLSerializer-impl.js:42-51 | after the scan, every `xmlns:p="v"` with v not the XML namespace has p listed under v |
| Namespaces.RecordedListsStayDuplicateFree | lib/XMLSerializer-impl.js:42-51 | the scan keeps duplicate-free lists duplicate-free |
| Namespaces.RecordedLocalPrefixes | lib/XMLSerializer-impl.js:51-52 | every local-map entry p -> v comes from an `xmlns:p="v"` attribute and is listed under v |
| Namespaces.OtherAttributesChangeNothing | lib/XMLSerializer-impl.js:26 | attributes outside the XMLNS namespace leave the scan unchanged |
| Serializer.Serializer.RecordNamespaceInformation | lib/XMLSerializer-impl.js:23-56 | the attribute loop returns the default namespace, the map and the local map, and leaves the lists as the scan function says; the counter is untouched |
| Elements.ElementNameRejected | lib/XMLSerializer-impl.js:140-149 | strict mode refuses a local name that contains `:` or is not an XML Name (corrected guard) |
| Elements.ElementNameRejectedAsWritten | lib/XMLSerializer-impl.js:141-144 | the guard as written refuses only in strict mode, and always refuses a local name with `:` |
| Elements.ElementNameCheckInverted | lib/XMLSerializer-impl.js:141-144 | as written, for colon-free names the guard refuses exactly the valid names, the opposite of the corrected one |
| Elements.DeclarePrefix | lib/XMLSerializer-impl.js:200 | the intended push: the namespace's list (created if missing) ends with the prefix; existing keys keep their lists |
| Elements.DeclarePrefixAsWritten | lib/XMLSerializer-impl.js:200 | as written, the push fails iff the namespace has no list in the map |
| Elements.UnknownPrefixPush | lib/XMLSerializer-impl.js:200 | for `html:br` under a null-namespace root, the push as written throws; the intended push creates the list `["html"]` |
| Elements.DeclareElementPrefix | lib/XMLSerializer-impl.js:196-200 | the counter advances by exactly one iff the element's prefix is a local-map key; otherwise the element's own prefix is used; the prefix used ends its namespace's list |
| Elements.XmlnsPrefixForced | lib/XMLSerializer-impl.js:179-187 | outside the inherited namespace, the prefix `xmlns` fails with ReservedPrefix in strict mode; in lenient mode the name is `xmlns:` + local name, nothing is declared, and map, store and counter are unchanged |
| Elements.Resolve | lib/XMLSerializer-impl.js:161-226 | the decision fails iff the element is outside the inherited namespace, has prefix `xmlns` and mode is strict; the store only grows, existing keys are kept, the counter moves by at most one |
| Elements.SameNamespaceNeedsNoDeclaration | lib/XMLSerializer-impl.js:161-171 | in the inherited namespace: no declaration, state untouched, children inherit the same namespace, `xml:` prefix iff in the XML namespace, namespace attributes ignored iff a default is declared |
| Elements.DeclarationCases | lib/XMLSerializer-impl.js:172-226 | outside it, exactly one of three things happens, each iff its condition on the candidate prefix, the element prefix and the declared default: reuse a prefix, declare `xmlns:p`, or declare `xmlns` |
| Elements.ChildNamespaceCases | lib/XMLSerializer-impl.js:186-225 | outside the inherited namespace, children inherit: after a reused prefix, the declared default ("" read as null) unless it is the XML namespace, else the parent's; after a declared prefix, the declared default ("" read as null) if any, else the parent's; with no prefix at all, the element's own namespace, and the name is the bare local name |
| Elements.DeclaredPrefix | lib/XMLSerializer-impl.js:196-209 | a declared prefix is generated iff the element's prefix is already bound on the element; the counter moves by one exactly then; the qualified name uses it and its list ends with it |
| Elements.DeclarationMarkup | lib/XMLSerializer-impl.js:202-220 | no declaration gives no markup; a declaration fails iff the attribute-value helper throws, and otherwise is ` xmlns:p="v"` or ` xmlns="v"` |
| Elements.Closing | lib/XMLSerializer-impl.js:237-248 | ` />` iff a childless void XHTML element; `/>` iff a childless non-XHTML element; `>` otherwise |
| Elements.CompleteStartTag | lib/XMLSerializer-impl.js:227-248 | after the decision: the declaration, the attribute markup and the closing form; the store only grows, keys keep their lists, the counter never decreases, the name and child namespace are the decision's |
| Elements.StartTag | lib/XMLSerializer-impl.js:140-248 | the whole start tag: it fails with InvalidElementName iff the (corrected) name check rejects the local name, so a name the check accepts is never refused; the store only grows; existing keys are kept; the counter never decreases; self-closed iff childless and (not XHTML or void) |
| TreeSerializer.Serialization | lib/XMLSerializer-impl.js:61-275 | the walk over one node, per node kind: it only appends to the store and never decreases the counter |
| TreeSerializer.ChildrenSerialization | lib/XMLSerializer-impl.js:100-123 | the children in order, threading the store and counter, stopping at the first failure; it only appends and never decreases the counter |
| Dom.ElementChildren | lib/XMLSerializer-impl.js:97-101 | `children`: only element child nodes, and non-empty iff there is a document element |
| Dom.ElementChildrenInOrder | lib/XMLSerializer-impl.js:101 | `children` equals the front-to-back filter `ElementsFrom`: every element child node is kept, once and in order, and nothing else |
| TreeSerializer.ElementSerialization | lib/XMLSerializer-impl.js:140-273 | the element walk only appends to lists and never decreases the counter |
| TreeSerializer.ElementsOnlyWalksElementChildren | lib/XMLSerializer-impl.js:96-124 | walking `children` equals walking the element child nodes: skipped nodes change neither the markup nor the state |
| TreeSerializer.ProducedSerialization | lib/XMLSerializer-impl.js:277-283 | the entry state (XML namespace bound to `xml`, null namespace, counter 1); in lenient mode it fails only inside the attribute helpers, and never when they are lenient-total |
| TreeSerializer.ChildrenErrorPersists | lib/XMLSerializer-impl.js:99-107 | the first failing child ends the walk: the whole run fails with that child's error and returns no partial markup |
| TreeSerializer.ElementIsWrapped | lib/XMLSerializer-impl.js:249-273 | a self-closed element is its start tag alone; otherwise its markup starts with the start tag and ends with `</` qualified name `>` |
| TreeSerializer.LenientSerialization | lib/XMLSerializer-impl.js:62-274 | lenient mode raises none of the walk's own errors: a lenient walk fails only inside the attribute helpers, and never when they are lenient-total |
| Serializer.Serializer.Push | lib/XMLSerializer-impl.js:48-51 | the in-place create-then-push leaves the map and lists that `Add` specifies |
| Serializer.Serializer.AddBindings | lib/XMLSerializer-impl.js:196-198 | the pushes a helper requests are applied in order, as `AddAll` specifies |
| Serializer.Serializer.DeclarePrefixFor | lib/XMLSerializer-impl.js:196-200 | generating (`refs.prefixIndex++`) and pushing in place computes `DeclareElementPrefix` |
| Serializer.Serializer.DecideQualifiedName | lib/XMLSerializer-impl.js:161-226 | the branch chain computes `Resolve`, and the store and counter it leaves are the decision's |
| Serializer.Serializer.CompleteTag | lib/XMLSerializer-impl.js:172-248 | the declaration, the attribute markup with its pushes and minted prefixes, and the closing form equal `CompleteStartTag` |
| Serializer.Serializer.OpenTag | lib/XMLSerializer-impl.js:140-248 | the element case up to `>` computes `StartTag`, with the state it leaves |
| Serializer.Serializer.XmlSerialization | lib/XMLSerializer-impl.js:61-275 | the node-kind switch returns the walk's result, and on success leaves the store and counter the walk specifies |
| Serializer.Serializer.SerializeElement | lib/XMLSerializer-impl.js:140-273 | start tag, then the children or the template contents, then the end tag, as `ElementSerialization` |
| Serializer.Serializer.SerializeChildren | lib/XMLSerializer-impl.js:99-107 | the children loop appends each child's markup in order, stops at the first failure, and agrees with `ChildrenSerialization` |
| Serializer.ProduceXmlSerialization | lib/XMLSerializer-impl.js:277-283 | a fresh serializer (XML namespace bound to `xml`, null namespace, counter 1) yields `ProducedSerialization` |
| Serializer.SerializeToString | lib/XMLSerializer-impl.js:285-289 | lenient serialization, failing only inside the attribute helpers, and never when they are lenient-total (with the corrected push `Elements.DeclarePrefix` of line 200) |
| Examples.DefaultNamespaceResetExample | test/test.js:109-120 | `child1`, in the null namespace under `urn:foo`, opens as `<child1 xmlns="">` and its children inherit the null namespace |
| Examples.DefaultNamespaceDeclarationExample | test/test.js:109-120 | `another`, in `urn:foo` under the null namespace, opens as `<another xmlns="urn:foo">` and passes `urn:foo` on |
| Examples.UnknownPrefixExample | test/test.js:147-158 | in strict mode, `html:br` under a null-namespace root opens as `<html:br xmlns:html="…xhtml" />`, and the store gains the list `["html"]` |

## Findings

| source | as written | input that shows it | evidently intended | confidence | as-written member | corrected member |
|---|---|---|---|---|---|---|
| lib/XMLSerializer-impl.js:141-144 | strict mode throws when `xnv.name(localName)` is truthy | any valid colon-free name with `requireWellFormed` true, e.g. `root` in the strict test at test/test.js:147-158 | throw when the name is *not* an XML Name | high, not executed | Elements.ElementNameRejectedAsWritten | Elements.ElementNameRejected |
| lib/XMLSerializer-impl.js:200 | `map[ns].push(prefix)` with no list for `ns` is a TypeError | an `html:br` element in the XHTML namespace appended to a null-namespace `root` (test/test.js:147-158) | create the list first, as lines 48-50 do | high, not executed | Elements.DeclarePrefixAsWritten | Elements.DeclarePrefix |
| lib/XMLSerializer-impl.js:62-274 | the switch has no CDATASection case, so the walk returns `undefined` | `<style><![CDATA[ a > b { color: red; } ]]></style>` (test/test.js:160-167) | `<![CDATA[` data `]]>` | high, not executed | Leaves.CDataSectionAsWritten | Leaves.SerializeCDataSection |

The main model (`StartTag`, the walk and the class) uses the corrected member in all three rows.

## Left out

- The helpers of `lib/attributes.js` and `xml-name-validator` are not part of this model. They are uninterpreted parameters. Their effect on the map is a list of bindings and a count of minted prefixes, and a throw of theirs is one error kind, InvalidAttribute.
- Errors are kinds, not exception objects, and the state after a failure is not modelled. The methods state the new store and counter only on success.
- The null namespace key is coalesced to `""` throughout; JavaScript would use the key `"null"` for a null namespace at line 200. Object-prototype key quirks are not modelled.
- Strings are sequences of `char`; UTF-16 surrogates and the XML Char production (the TODOs at lines 64, 91, 126, 132) are not modelled.
- The template element's `content` fragment is represented by its child nodes (`Element.templateContents`), and it is walked with the fragment rule (element children only).
- `Element.attributes` values are strings, so the null check at lines 38-40 (unreachable for DOM attributes) is not modelled.
- The strict processing-instruction check tests the target only for `:` and `xml` (lines 84-90); the target's XML Name production is not checked by the code, so a target holding `?>` passes and `Leaves.StrictProcessingInstructionData` speaks only of the data part.
- `lib/constants.js` is not part of this model: `Dom.VoidElements` and the namespace constants (`XmlNamespace`, `XmlnsNamespace`, `HtmlNamespace`) are written out here: the three standard namespace URIs and the HTML void element names.
- Serializer.ProduceXmlSerialization: whole-document outputs of the tests are stated only as start-tag examples, because the solver cannot evaluate the recursive walk on a literal tree within the resource limit.
- The `serialize(root, { requireWellFormed })` entry that the tests call is not part of this model; `ProduceXmlSerialization` takes the flag directly.
