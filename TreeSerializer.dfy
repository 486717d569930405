/**
 * The XML serialization walk as functions: one case per node kind, the
 * element case, and the children loop shared by documents, fragments and
 * elements. The walk threads the store of prefix lists and the prefix
 * counter from node to node in document order; each element passes its
 * children its own copy of the map, whose lists are shared with its parent.
 */
module TreeSerializer {
  import opened Wrappers
  import opened Dom
  import opened Prefixes
  import opened Leaves
  import opened Helpers
  import opened Elements

  /** The markup (or the error), with the lists and the counter after the walk. */
  datatype Walk = Walk(result: Result<string, ErrKind>, lists: Store, prefixIndex: nat)

  /** An XHTML `template` element: its content fragment is walked instead of its child nodes. */
  predicate IsTemplate(e: Node)
    requires e.Element?
  {
    e.namespaceURI == Some(HtmlNamespace) && e.localName == "template"
  }

  /** The serialization of `node` in `namespace`, with prefix map `m` over `lists`. */
  function Serialization(node: Node, namespace: Option<string>, m: PrefixMap, lists: Store,
                         requireWellFormed: bool, prefixIndex: nat, env: Collaborators): (w: Walk)
    requires Valid(m, lists)
    ensures Extends(lists, w.lists) && prefixIndex <= w.prefixIndex
    decreases node, 1
  {
    match node
    case DocumentType(name, publicId, systemId) =>
      Walk(SerializeDocumentType(name, publicId, systemId, requireWellFormed), lists, prefixIndex)
    case ProcessingInstruction(target, data) =>
      Walk(SerializeProcessingInstruction(target, data, requireWellFormed), lists, prefixIndex)
    case Document(childNodes) =>
      if requireWellFormed && !HasDocumentElement(childNodes) then Walk(Err(NoDocumentElement), lists, prefixIndex)
      else ChildrenSerialization(childNodes, true, namespace, m, lists, requireWellFormed, prefixIndex, env)
    case DocumentFragment(childNodes) =>
      ChildrenSerialization(childNodes, true, namespace, m, lists, requireWellFormed, prefixIndex, env)
    case Text(data) => Walk(Ok(EscapeText(data)), lists, prefixIndex)
    case CDataSection(data) => Walk(Ok(SerializeCDataSection(data)), lists, prefixIndex)
    case Comment(data) => Walk(SerializeComment(data, requireWellFormed), lists, prefixIndex)
    case Element(_, _, _, _, _, _) =>
      ElementSerialization(node, namespace, m, lists, requireWellFormed, prefixIndex, env)
  }

  /** The element case: start tag, then (unless self-closed) the children and the end tag. */
  function ElementSerialization(e: Node, namespace: Option<string>, m: PrefixMap, lists: Store,
                                requireWellFormed: bool, prefixIndex: nat, env: Collaborators): (w: Walk)
    requires e.Element? && Valid(m, lists)
    ensures Extends(lists, w.lists) && prefixIndex <= w.prefixIndex
    decreases e, 0
  {
    match StartTag(e, namespace, m, lists, requireWellFormed, prefixIndex, env)
    case Err(k) => Walk(Err(k), lists, prefixIndex)
    case Ok(o) =>
      if o.SelfClosing() then Walk(Ok(o.Markup()), o.lists, o.prefixIndex)
      else
        var w :=
          if IsTemplate(e) then
            ChildrenSerialization(e.templateContents, true, o.childNamespace, o.m, o.lists, requireWellFormed, o.prefixIndex, env)
          else
            ChildrenSerialization(e.childNodes, false, o.childNamespace, o.m, o.lists, requireWellFormed, o.prefixIndex, env);
        ExtendsTransitive(lists, o.lists, w.lists);
        match w.result
        case Err(_) => w
        case Ok(inner) => Walk(Ok(o.Markup() + inner + "</" + o.qualifiedName + ">"), w.lists, w.prefixIndex)
  }

  /**
   * The children in order, each in the same namespace and map; a child
   * starts from the lists and counter its previous sibling left. With
   * `elementsOnly` (the `children` collection) non-element nodes are skipped.
   */
  function ChildrenSerialization(cs: seq<Node>, elementsOnly: bool, namespace: Option<string>, m: PrefixMap, lists: Store,
                                 requireWellFormed: bool, prefixIndex: nat, env: Collaborators): (w: Walk)
    requires Valid(m, lists)
    ensures Extends(lists, w.lists) && prefixIndex <= w.prefixIndex
    decreases cs, 2
  {
    if cs == [] then Walk(Ok(""), lists, prefixIndex)
    else
      var w := ChildrenSerialization(cs[..|cs| - 1], elementsOnly, namespace, m, lists, requireWellFormed, prefixIndex, env);
      var last := cs[|cs| - 1];
      if w.result.Err? || (elementsOnly && !last.Element?) then w
      else
        var v := Serialization(last, namespace, m, w.lists, requireWellFormed, w.prefixIndex, env);
        ExtendsTransitive(lists, w.lists, v.lists);
        match v.result
        case Err(_) => v
        case Ok(markup) => Walk(Ok(w.result.value + markup), v.lists, v.prefixIndex)
  }

  /**
   * `produceXmlSerialization`: the XML namespace bound to `xml`, null
   * namespace, counter 1. In lenient mode it fails only inside the attribute
   * helpers, and never when they are lenient-total.
   */
  function ProducedSerialization(root: Node, requireWellFormed: bool, env: Collaborators): (r: Result<string, ErrKind>)
    ensures !requireWellFormed && r.Err? ==> r.error == InvalidAttribute
    ensures !requireWellFormed && LenientTotal(env) ==> r.Ok?
  {
    LenientSerialization(root, None, map[XmlNamespace := 0], [["xml"]], 1, env);
    Serialization(root, None, map[XmlNamespace := 0], [["xml"]], requireWellFormed, 1, env).result
  }

  // ---------------------------------------------------------------------
  // Properties of the walk

  /**
   * Walking the `children` collection is walking the element child nodes:
   * skipping the other nodes changes neither the markup nor the state.
   */
  lemma {:induction false} ElementsOnlyWalksElementChildren(cs: seq<Node>, namespace: Option<string>, m: PrefixMap, lists: Store,
                                                             requireWellFormed: bool, prefixIndex: nat, env: Collaborators)
    requires Valid(m, lists)
    ensures ChildrenSerialization(cs, true, namespace, m, lists, requireWellFormed, prefixIndex, env)
         == ChildrenSerialization(ElementChildren(cs), false, namespace, m, lists, requireWellFormed, prefixIndex, env)
  {
    if cs != [] {
      var i := |cs| - 1;
      var init, last := cs[..i], cs[i];
      ElementsOnlyWalksElementChildren(init, namespace, m, lists, requireWellFormed, prefixIndex, env);
      var w := ChildrenSerialization(init, true, namespace, m, lists, requireWellFormed, prefixIndex, env);
      var v := Serialization(last, namespace, m, w.lists, requireWellFormed, w.prefixIndex, env);
      ChildrenStep(cs, i, true, namespace, m, lists, requireWellFormed, prefixIndex, env, w, v);
      assert cs[..i + 1] == cs;
      var ec, ecInit := ElementChildren(cs), ElementChildren(init);
      ElementChildrenSnoc(cs);
      if last.Element? {
        assert ec[..|ecInit|] == ecInit && ec[|ecInit|] == last && ec[..|ecInit| + 1] == ec;
        ChildrenStep(ec, |ecInit|, false, namespace, m, lists, requireWellFormed, prefixIndex, env, w, v);
      } else {
        assert ec == ecInit;
      }
    }
  }

  /**
   * One more child: the walk of `cs[..i + 1]` continues the walk `w` of
   * `cs[..i]` with the walk `v` of `cs[i]`, unless `w` failed or `cs[i]` is skipped.
   */
  lemma ChildrenStep(cs: seq<Node>, i: nat, elementsOnly: bool, namespace: Option<string>, m: PrefixMap, lists: Store,
                     requireWellFormed: bool, prefixIndex: nat, env: Collaborators, w: Walk, v: Walk)
    requires Valid(m, lists) && i < |cs|
    requires w == ChildrenSerialization(cs[..i], elementsOnly, namespace, m, lists, requireWellFormed, prefixIndex, env)
    requires Valid(m, w.lists) && v == Serialization(cs[i], namespace, m, w.lists, requireWellFormed, w.prefixIndex, env)
    ensures w.result.Err? || (elementsOnly && !cs[i].Element?) ==>
      ChildrenSerialization(cs[..i + 1], elementsOnly, namespace, m, lists, requireWellFormed, prefixIndex, env) == w
    ensures w.result.Ok? && !(elementsOnly && !cs[i].Element?) && v.result.Err? ==>
      ChildrenSerialization(cs[..i + 1], elementsOnly, namespace, m, lists, requireWellFormed, prefixIndex, env) == v
    ensures w.result.Ok? && !(elementsOnly && !cs[i].Element?) && v.result.Ok? ==>
      ChildrenSerialization(cs[..i + 1], elementsOnly, namespace, m, lists, requireWellFormed, prefixIndex, env)
      == Walk(Ok(w.result.value + v.result.value), v.lists, v.prefixIndex)
  {
    assert cs[..i + 1][..i] == cs[..i];
  }

  /**
   * The first failing child ends the walk: once a prefix of the children
   * fails, the whole run fails with that same error.
   */
  lemma {:induction false} ChildrenErrorPersists(cs: seq<Node>, k: nat, elementsOnly: bool, namespace: Option<string>, m: PrefixMap,
                                                 lists: Store, requireWellFormed: bool, prefixIndex: nat, env: Collaborators)
    requires Valid(m, lists) && k <= |cs|
    requires ChildrenSerialization(cs[..k], elementsOnly, namespace, m, lists, requireWellFormed, prefixIndex, env).result.Err?
    ensures ChildrenSerialization(cs, elementsOnly, namespace, m, lists, requireWellFormed, prefixIndex, env).result
         == ChildrenSerialization(cs[..k], elementsOnly, namespace, m, lists, requireWellFormed, prefixIndex, env).result
    decreases |cs|
  {
    if k == |cs| {
      assert cs[..k] == cs;
    } else {
      var init := cs[..|cs| - 1];
      assert init[..k] == cs[..k];
      ChildrenErrorPersists(init, k, elementsOnly, namespace, m, lists, requireWellFormed, prefixIndex, env);
    }
  }

  /**
   * Lenient mode raises none of the walk's own errors: a lenient walk can
   * fail only inside the attribute helpers, and not at all when they never
   * throw in lenient mode.
   */
  lemma {:induction false} LenientSerialization(node: Node, namespace: Option<string>, m: PrefixMap, lists: Store,
                                                prefixIndex: nat, env: Collaborators)
    requires Valid(m, lists)
    ensures var r := Serialization(node, namespace, m, lists, false, prefixIndex, env).result;
      r.Err? ==> r.error == InvalidAttribute
    ensures LenientTotal(env) ==> Serialization(node, namespace, m, lists, false, prefixIndex, env).result.Ok?
    decreases node, 1
  {
    match node
    case Document(childNodes) =>
      LenientChildren(childNodes, true, namespace, m, lists, prefixIndex, env);
    case DocumentFragment(childNodes) =>
      LenientChildren(childNodes, true, namespace, m, lists, prefixIndex, env);
    case Element(_, _, _, _, _, _) =>
      LenientElement(node, namespace, m, lists, prefixIndex, env);
    case _ =>
  }

  /** `LenientSerialization` for the element case. */
  lemma {:induction false} LenientElement(e: Node, namespace: Option<string>, m: PrefixMap, lists: Store,
                                          prefixIndex: nat, env: Collaborators)
    requires e.Element? && Valid(m, lists)
    ensures var r := ElementSerialization(e, namespace, m, lists, false, prefixIndex, env).result;
      r.Err? ==> r.error == InvalidAttribute
    ensures LenientTotal(env) ==> ElementSerialization(e, namespace, m, lists, false, prefixIndex, env).result.Ok?
    decreases e, 0
  {
    var t := StartTag(e, namespace, m, lists, false, prefixIndex, env);
    if t.Ok? && !t.value.SelfClosing() {
      var o := t.value;
      if IsTemplate(e) {
        LenientChildren(e.templateContents, true, o.childNamespace, o.m, o.lists, o.prefixIndex, env);
      } else {
        LenientChildren(e.childNodes, false, o.childNamespace, o.m, o.lists, o.prefixIndex, env);
      }
    }
  }

  /** `LenientSerialization` for a run of children. */
  lemma {:induction false} LenientChildren(cs: seq<Node>, elementsOnly: bool, namespace: Option<string>, m: PrefixMap, lists: Store,
                                           prefixIndex: nat, env: Collaborators)
    requires Valid(m, lists)
    ensures var r := ChildrenSerialization(cs, elementsOnly, namespace, m, lists, false, prefixIndex, env).result;
      r.Err? ==> r.error == InvalidAttribute
    ensures LenientTotal(env) ==> ChildrenSerialization(cs, elementsOnly, namespace, m, lists, false, prefixIndex, env).result.Ok?
    decreases cs, 2
  {
    if cs != [] {
      var init := cs[..|cs| - 1];
      LenientChildren(init, elementsOnly, namespace, m, lists, prefixIndex, env);
      var w := ChildrenSerialization(init, elementsOnly, namespace, m, lists, false, prefixIndex, env);
      if w.result.Ok? {
        LenientSerialization(cs[|cs| - 1], namespace, m, w.lists, w.prefixIndex, env);
      }
    }
  }

  /**
   * An element that is not self-closed is wrapped in its start tag and an
   * end tag naming the same qualified name; a self-closed one is its start
   * tag alone.
   */
  lemma ElementIsWrapped(e: Node, namespace: Option<string>, m: PrefixMap, lists: Store,
                         requireWellFormed: bool, prefixIndex: nat, env: Collaborators, o: Opened, markup: string)
    requires e.Element? && Valid(m, lists)
    requires StartTag(e, namespace, m, lists, requireWellFormed, prefixIndex, env) == Ok(o)
    requires ElementSerialization(e, namespace, m, lists, requireWellFormed, prefixIndex, env).result == Ok(markup)
    ensures o.SelfClosing() ==> markup == o.Markup()
    ensures |o.Markup()| <= |markup| && markup[..|o.Markup()|] == o.Markup()
    ensures markup[..1 + |o.qualifiedName|] == "<" + o.qualifiedName
    ensures !o.SelfClosing() ==>
      |markup| >= |o.Markup()| + |o.qualifiedName| + 3 && markup[|markup| - |o.qualifiedName| - 3..] == "</" + o.qualifiedName + ">"
  {
    var inner := ElementParts(e, namespace, m, lists, requireWellFormed, prefixIndex, env, o, markup);
    WrappedMarkup(o, inner, markup);
  }

  /** The element's markup is its start tag, or its start tag, some inner markup and the end tag. */
  lemma ElementParts(e: Node, namespace: Option<string>, m: PrefixMap, lists: Store,
                     requireWellFormed: bool, prefixIndex: nat, env: Collaborators, o: Opened, markup: string)
    returns (inner: string)
    requires e.Element? && Valid(m, lists)
    requires StartTag(e, namespace, m, lists, requireWellFormed, prefixIndex, env) == Ok(o)
    requires ElementSerialization(e, namespace, m, lists, requireWellFormed, prefixIndex, env).result == Ok(markup)
    ensures o.SelfClosing() ==> markup == o.Markup()
    ensures !o.SelfClosing() ==> markup == o.Markup() + inner + "</" + o.qualifiedName + ">"
  {
    inner := "";
    if !o.SelfClosing() {
      inner :| markup == o.Markup() + inner + "</" + o.qualifiedName + ">";
    }
  }

  /** The string facts behind `ElementIsWrapped`. */
  lemma WrappedMarkup(o: Opened, inner: string, markup: string)
    requires o.SelfClosing() ==> markup == o.Markup()
    requires !o.SelfClosing() ==> markup == o.Markup() + inner + "</" + o.qualifiedName + ">"
    ensures |o.Markup()| <= |markup| && markup[..|o.Markup()|] == o.Markup()
    ensures markup[..1 + |o.qualifiedName|] == "<" + o.qualifiedName
    ensures !o.SelfClosing() ==>
      |markup| >= |o.Markup()| + |o.qualifiedName| + 3 && markup[|markup| - |o.qualifiedName| - 3..] == "</" + o.qualifiedName + ">"
  {
    var start := o.Markup();
    assert start == "<" + o.qualifiedName + (o.attributes + o.closing);
    if !o.SelfClosing() {
      assert markup == start + (inner + ("</" + o.qualifiedName + ">"));
    }
  }
}
