/**
 * The serializer as the source runs it: one object per call holding the
 * shared prefix counter (the `refs` cell) and every prefix list allocated
 * during the walk, and methods that build the markup step by step. Each
 * method is proved to compute what the walk functions specify.
 */
module Serializer {
  import opened Wrappers
  import opened Strings
  import opened Dom
  import opened Prefixes
  import opened Namespaces
  import opened Leaves
  import opened Helpers
  import opened Elements
  import opened TreeSerializer

  class Serializer {
    /** `refs.prefixIndex`. */
    var prefixIndex: nat
    /** The prefix-list objects, by identity. */
    var lists: Store
    const env: Collaborators

    /** A fresh walk: the XML namespace's list `["xml"]` and counter 1. */
    constructor (env: Collaborators)
      ensures this.env == env && prefixIndex == 1 && lists == [["xml"]]
    {
      this.env := env;
      prefixIndex := 1;
      lists := [["xml"]];
    }

    /** The method's result is the walk's, and on success so is the new state. */
    predicate Agrees(r: Result<string, ErrKind>, w: Walk)
      reads this
    {
      r == w.result && (r.Ok? ==> lists == w.lists && prefixIndex == w.prefixIndex)
    }

    /** `map[key].push(prefix)`, first creating an empty list when the key has none. */
    method Push(m: PrefixMap, key: string, prefix: string) returns (m': PrefixMap)
      requires Valid(m, lists)
      modifies this
      ensures (m', lists) == Add(m, old(lists), Binding(key, prefix))
      ensures prefixIndex == old(prefixIndex)
    {
      m' := m;
      if key !in m' {
        m' := m'[key := |lists|];
        lists := lists + [[]];
      }
      var id := m'[key];
      lists := lists[id := lists[id] + [prefix]];
      if key !in m {
        assert [] + [prefix] == [prefix];
        assert lists == old(lists) + [[prefix]] by {
          assert |lists| == |old(lists)| + 1 && lists[|old(lists)|] == [prefix];
          assert forall i :: 0 <= i < |old(lists)| ==> lists[i] == (old(lists) + [[prefix]])[i];
        }
      }
    }

    /** The prefixes a helper recorded in the map, pushed in order. */
    method AddBindings(m: PrefixMap, bindings: seq<Binding>) returns (m': PrefixMap)
      requires Valid(m, lists)
      modifies this
      ensures (m', lists) == AddAll(m, old(lists), bindings)
      ensures prefixIndex == old(prefixIndex)
    {
      m' := m;
      var i := 0;
      while i < |bindings|
        invariant 0 <= i <= |bindings| && Valid(m', lists) && prefixIndex == old(prefixIndex)
        invariant AddAll(m', lists, bindings[i..]) == AddAll(m, old(lists), bindings)
      {
        assert bindings[i..][1..] == bindings[i + 1..];
        m' := Push(m', bindings[i].namespace, bindings[i].prefix);
        i := i + 1;
      }
    }

    /**
     * "Recording the namespace information": scan the attributes, extend
     * the element's copy `m` of the map and fill the local prefix map.
     */
    method RecordNamespaceInformation(attributes: seq<Attr>, m: PrefixMap)
      returns (defaultNamespace: Option<string>, m': PrefixMap, local: map<string, string>)
      requires Valid(m, lists)
      modifies this
      ensures Scan(defaultNamespace, m', lists, local) == RecordedNamespaces(attributes, m, old(lists))
      ensures prefixIndex == old(prefixIndex)
    {
      defaultNamespace, m', local := None, m, map[];
      ghost var scan := Scan(None, m, lists, map[]);
      var i := 0;
      while i < |attributes|
        invariant 0 <= i <= |attributes| && prefixIndex == old(prefixIndex)
        invariant scan == RecordedNamespaces(attributes[..i], m, old(lists))
        invariant scan == Scan(defaultNamespace, m', lists, local)
      {
        var a := attributes[i];
        RecordedNamespacesStep(attributes, i, m, old(lists));
        ghost var next := RecordStep(scan, a);
        if a.namespaceURI == Some(XmlnsNamespace) {
          if a.prefix.None? {
            defaultNamespace := Some(a.value);
          } else if a.value != XmlNamespace && !(a.value in m' && a.localName in lists[m'[a.value]]) {
            m' := Push(m', a.value, a.localName);
            local := local[a.localName := a.value];
          }
        }
        scan := next;
        i := i + 1;
      }
      assert attributes[..|attributes|] == attributes;
    }

    /**
     * The qualified-name decision on the scan `s` of the element's
     * attributes: may push onto the lists and advance the counter.
     */
    method DecideQualifiedName(e: Node, inherited: Option<string>, s: Scan, requireWellFormed: bool)
      returns (r: Result<Decision, ErrKind>)
      requires e.Element? && Valid(s.m, s.lists) && lists == s.lists
      modifies this
      ensures r == Resolve(e, inherited, s, requireWellFormed, old(prefixIndex), env)
      ensures r.Ok? ==> lists == r.value.lists && prefixIndex == r.value.prefixIndex
    {
      var ns := e.namespaceURI;
      var localDefault := s.defaultNamespace;
      var inheritedNs := inherited;
      if inheritedNs == ns {
        var qualifiedName := if ns == Some(XmlNamespace) then "xml:" + e.localName else e.localName;
        return Ok(Decision(qualifiedName, NoDeclaration, inheritedNs, localDefault.Some?, s.m, lists, prefixIndex));
      }
      var prefix := e.prefix;
      var candidatePrefix := env.preferredPrefixString(View(s.m, lists), ns, prefix);
      if prefix == Some("xmlns") {
        if requireWellFormed {
          return Err(ReservedPrefix);
        }
        candidatePrefix := Some("xmlns");
      }
      if candidatePrefix.Some? {
        if localDefault.Some? && localDefault.value != XmlNamespace {
          inheritedNs := NullIfEmpty(localDefault.value);
        }
        r := Ok(Decision(candidatePrefix.value + ":" + e.localName, NoDeclaration, inheritedNs, false, s.m, lists, prefixIndex));
      } else if prefix.Some? {
        var p, m := DeclarePrefixFor(prefix.value, ns, s);
        if localDefault.Some? {
          inheritedNs := NullIfEmpty(localDefault.value);
        }
        r := Ok(Decision(p + ":" + e.localName, PrefixDeclaration(p), inheritedNs, false, m, lists, prefixIndex));
      } else if localDefault.None? || localDefault != ns {
        r := Ok(Decision(e.localName, DefaultDeclaration, ns, true, s.m, lists, prefixIndex));
      } else {
        r := Ok(Decision(e.localName, NoDeclaration, ns, false, s.m, lists, prefixIndex));
      }
    }

    /** Declare the element's prefix, generating a fresh one when the element already binds it. */
    method DeclarePrefixFor(prefix: string, ns: Option<string>, s: Scan) returns (p: string, m: PrefixMap)
      requires Valid(s.m, s.lists) && lists == s.lists
      modifies this
      ensures Declared(p, m, lists, prefixIndex) == DeclareElementPrefix(prefix, ns, s, old(prefixIndex), env)
    {
      p, m := prefix, s.m;
      if p in s.local {
        var g := env.generatePrefix(View(m, lists), ns, prefixIndex);
        prefixIndex := prefixIndex + 1;
        m := AddBindings(m, g.additions);
        p := g.prefix;
      }
      m := Push(m, NamespaceKey(ns), p);
    }

    /** The element case up to and including the closing form of the start tag. */
    method OpenTag(e: Node, namespace: Option<string>, m: PrefixMap, requireWellFormed: bool)
      returns (r: Result<Opened, ErrKind>)
      requires e.Element? && Valid(m, lists)
      modifies this
      ensures r == StartTag(e, namespace, m, old(lists), requireWellFormed, old(prefixIndex), env)
      ensures r.Ok? ==> lists == r.value.lists && prefixIndex == r.value.prefixIndex
    {
      if requireWellFormed && (':' in e.localName || !env.isName(e.localName)) {
        return Err(InvalidElementName);
      }
      var localDefaultNamespace, map', localPrefixes := RecordNamespaceInformation(e.attributes, m);
      var s := Scan(localDefaultNamespace, map', lists, localPrefixes);
      assert s == RecordedNamespaces(e.attributes, m, old(lists));
      var decision := DecideQualifiedName(e, namespace, s, requireWellFormed);
      if decision.Err? {
        return Err(decision.error);
      }
      r := CompleteTag(e, localPrefixes, decision.value, requireWellFormed);
    }

    /** The declaration, the attributes and the closing form of a decided start tag. */
    method CompleteTag(e: Node, local: map<string, string>, d: Decision, requireWellFormed: bool)
      returns (r: Result<Opened, ErrKind>)
      requires e.Element? && Valid(d.m, d.lists) && lists == d.lists && prefixIndex == d.prefixIndex
      modifies this
      ensures r == CompleteStartTag(e, local, d, requireWellFormed, env)
      ensures r.Ok? ==> lists == r.value.lists && prefixIndex == r.value.prefixIndex
    {
      var declaration := DeclarationMarkup(d.declaration, e.namespaceURI, requireWellFormed, env);
      if declaration.Err? {
        return Err(declaration.error);
      }
      var attributes := env.serializeAttributes(e.attributes, View(d.m, lists), local,
                                                d.ignoreNamespaceDefinitionAttr, requireWellFormed, prefixIndex);
      if attributes.None? {
        return Err(InvalidAttribute);
      }
      var a := attributes.value;
      CompleteStartTagOk(e, local, d, requireWellFormed, env, declaration.value, a);
      var m' := AddBindings(d.m, a.additions);
      prefixIndex := prefixIndex + a.minted;
      var closing := Closing(e.namespaceURI, e.localName, |e.childNodes|);
      r := Ok(Opened(d.qualifiedName, declaration.value + a.markup, closing, d.childNamespace, m', lists, prefixIndex));
    }

    /** `xmlSerialization(node, namespace, map, requireWellFormed, refs)`. */
    method XmlSerialization(node: Node, namespace: Option<string>, m: PrefixMap, requireWellFormed: bool)
      returns (r: Result<string, ErrKind>)
      requires Valid(m, lists)
      modifies this
      ensures Agrees(r, Serialization(node, namespace, m, old(lists), requireWellFormed, old(prefixIndex), env))
      decreases node, 1
    {
      match node
      case DocumentType(name, publicId, systemId) =>
        r := SerializeDocumentType(name, publicId, systemId, requireWellFormed);
      case ProcessingInstruction(target, data) =>
        var matchesXml := AsciiCaseInsensitiveMatch(target, "xml");
        if requireWellFormed && (':' in target || matchesXml) {
          r := Err(TargetNotWellFormed);
        } else if requireWellFormed && Contains(data, "?>") {
          r := Err(DataNotWellFormed);
        } else {
          r := Ok("<?" + target + " " + data + "?>");
        }
      case Document(childNodes) =>
        if requireWellFormed && !HasDocumentElement(childNodes) {
          r := Err(NoDocumentElement);
        } else {
          r := SerializeChildren(childNodes, true, namespace, m, requireWellFormed);
        }
      case DocumentFragment(childNodes) =>
        r := SerializeChildren(childNodes, true, namespace, m, requireWellFormed);
      case Text(data) =>
        r := Ok(EscapeText(data));
      case CDataSection(data) =>
        r := Ok(SerializeCDataSection(data));
      case Comment(data) =>
        r := SerializeComment(data, requireWellFormed);
      case Element(_, _, _, _, _, _) =>
        r := SerializeElement(node, namespace, m, requireWellFormed);
    }

    /** The element case: start tag, then the children (or template contents) and the end tag. */
    method SerializeElement(e: Node, namespace: Option<string>, m: PrefixMap, requireWellFormed: bool)
      returns (r: Result<string, ErrKind>)
      requires e.Element? && Valid(m, lists)
      modifies this
      ensures Agrees(r, ElementSerialization(e, namespace, m, old(lists), requireWellFormed, old(prefixIndex), env))
      decreases e, 0
    {
      var tag := OpenTag(e, namespace, m, requireWellFormed);
      if tag.Err? {
        return Err(tag.error);
      }
      var o := tag.value;
      if o.SelfClosing() {
        return Ok(o.Markup());
      }
      var inner;
      if IsTemplate(e) {
        inner := SerializeChildren(e.templateContents, true, o.childNamespace, o.m, requireWellFormed);
      } else {
        inner := SerializeChildren(e.childNodes, false, o.childNamespace, o.m, requireWellFormed);
      }
      if inner.Err? {
        return inner;
      }
      r := Ok(o.Markup() + inner.value + "</" + o.qualifiedName + ">");
    }

    /**
     * The loop over a node's children, appending each child's markup; the
     * first failure ends the walk. With `elementsOnly` only element children
     * are visited.
     */
    method SerializeChildren(cs: seq<Node>, elementsOnly: bool, namespace: Option<string>, m: PrefixMap,
                             requireWellFormed: bool) returns (r: Result<string, ErrKind>)
      requires Valid(m, lists)
      modifies this
      ensures Agrees(r, ChildrenSerialization(cs, elementsOnly, namespace, m, old(lists), requireWellFormed, old(prefixIndex), env))
      decreases cs, 2
    {
      var markup := "";
      var i := 0;
      ghost var w := Walk(Ok(""), lists, prefixIndex);
      while i < |cs|
        invariant 0 <= i <= |cs| && Valid(m, lists)
        invariant w == ChildrenSerialization(cs[..i], elementsOnly, namespace, m, old(lists), requireWellFormed, old(prefixIndex), env)
        invariant w == Walk(Ok(markup), lists, prefixIndex)
      {
        ghost var v := Serialization(cs[i], namespace, m, lists, requireWellFormed, prefixIndex, env);
        ChildrenStep(cs, i, elementsOnly, namespace, m, old(lists), requireWellFormed, old(prefixIndex), env, w, v);
        if !elementsOnly || cs[i].Element? {
          var child := XmlSerialization(cs[i], namespace, m, requireWellFormed);
          if child.Err? {
            ChildrenErrorPersists(cs, i + 1, elementsOnly, namespace, m, old(lists), requireWellFormed, old(prefixIndex), env);
            return child;
          }
          markup := markup + child.value;
          w := Walk(Ok(markup), lists, prefixIndex);
        }
        i := i + 1;
      }
      assert cs[..|cs|] == cs;
      r := Ok(markup);
    }
  }

  /** `produceXmlSerialization(root, requireWellFormed)`. */
  method ProduceXmlSerialization(root: Node, requireWellFormed: bool, env: Collaborators) returns (r: Result<string, ErrKind>)
    ensures r == ProducedSerialization(root, requireWellFormed, env)
  {
    var serializer := new Serializer(env);
    r := serializer.XmlSerialization(root, None, map[XmlNamespace := 0], requireWellFormed);
  }

  /**
   * `XMLSerializer.serializeToString(root)`: always lenient, so it fails
   * only inside the attribute helpers, and never when they are lenient-total.
   */
  method SerializeToString(root: Node, env: Collaborators) returns (r: Result<string, ErrKind>)
    ensures r == ProducedSerialization(root, false, env)
    ensures r.Err? ==> r.error == InvalidAttribute
    ensures LenientTotal(env) ==> r.Ok?
  {
    r := ProduceXmlSerialization(root, false, env);
  }
}
