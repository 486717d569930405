/**
 * The start tag of an element: the strict name check, the namespace scan,
 * the choice of qualified name and namespace declaration, the namespace the
 * children inherit, the attribute markup and the closing form.
 */
module Elements {
  import opened Wrappers
  import opened Dom
  import opened Prefixes
  import opened Namespaces
  import opened Helpers

  // ---------------------------------------------------------------------
  // Strict name check

  /** Strict mode refuses a local name with `:` or one that is not an XML Name. */
  predicate ElementNameRejected(localName: string, requireWellFormed: bool, env: Collaborators) {
    requireWellFormed && (':' in localName || !env.isName(localName))
  }

  /** The check as the source writes it: the validator's verdict is not negated. */
  predicate ElementNameRejectedAsWritten(localName: string, requireWellFormed: bool, env: Collaborators)
    ensures ElementNameRejectedAsWritten(localName, requireWellFormed, env) ==> requireWellFormed
    ensures requireWellFormed && ':' in localName ==> ElementNameRejectedAsWritten(localName, requireWellFormed, env)
  {
    requireWellFormed && (':' in localName || env.isName(localName))
  }

  /**
   * As written, strict mode refuses every valid colon-free name and lets
   * every invalid one through: the exact opposite of the intended check.
   */
  lemma ElementNameCheckInverted(localName: string, env: Collaborators)
    requires ':' !in localName
    ensures ElementNameRejectedAsWritten(localName, true, env) <==> env.isName(localName)
    ensures ElementNameRejected(localName, true, env) <==> !env.isName(localName)
    ensures ElementNameRejectedAsWritten(localName, true, env) != ElementNameRejected(localName, true, env)
  {
  }

  // ---------------------------------------------------------------------
  // Qualified name and namespace declaration

  /** The namespace declaration the start tag carries. */
  datatype Declaration = NoDeclaration | PrefixDeclaration(prefix: string) | DefaultDeclaration

  /** The outcome of the qualified-name decision. */
  datatype Decision = Decision(
    qualifiedName: string,
    declaration: Declaration,
    childNamespace: Option<string>,
    ignoreNamespaceDefinitionAttr: bool,
    m: PrefixMap,
    lists: Store,
    prefixIndex: nat)

  /** A declared default namespace as children inherit it: "" is the null namespace. */
  function NullIfEmpty(ns: string): Option<string> {
    if ns == "" then None else Some(ns)
  }

  /** The prefix the element may reuse: "xmlns" is forced, otherwise the helper's choice. */
  function Candidate(e: Node, s: Scan, env: Collaborators): Option<string>
    requires e.Element? && Valid(s.m, s.lists)
  {
    if e.prefix == Some("xmlns") then Some("xmlns")
    else env.preferredPrefixString(View(s.m, s.lists), e.namespaceURI, e.prefix)
  }

  /** `map[ns].push(prefix)`, creating the list when the namespace has none. */
  function DeclarePrefix(m: PrefixMap, lists: Store, key: string, prefix: string): (r: (PrefixMap, Store))
    requires Valid(m, lists)
    ensures Valid(r.0, r.1) && Extends(lists, r.1)
    ensures key in r.0 && r.1[r.0[key]] == (if key in m then lists[m[key]] else []) + [prefix]
    ensures m.Keys <= r.0.Keys && forall k :: k in m ==> r.0[k] == m[k]
  {
    Add(m, lists, Binding(key, prefix))
  }

  /** `map[ns].push(prefix)` as written: a namespace without a list is a TypeError. */
  function DeclarePrefixAsWritten(m: PrefixMap, lists: Store, key: string, prefix: string): (r: Result<(PrefixMap, Store), ErrKind>)
    requires Valid(m, lists)
    ensures r.Err? <==> key !in m
    ensures r.Ok? ==> r.value == DeclarePrefix(m, lists, key, prefix)
  {
    if key !in m then Err(MissingPrefixList) else Ok(Add(m, lists, Binding(key, prefix)))
  }

  /**
   * The example of the XHTML `html:br` element appended to a null-namespace
   * root: its namespace has no list yet, so the push as written throws,
   * while the intended push creates the list `["html"]`.
   */
  lemma UnknownPrefixPush()
    ensures DeclarePrefixAsWritten(map[XmlNamespace := 0], [["xml"]], HtmlNamespace, "html") == Err(MissingPrefixList)
    ensures var (m, lists) := DeclarePrefix(map[XmlNamespace := 0], [["xml"]], HtmlNamespace, "html");
      m == map[XmlNamespace := 0, HtmlNamespace := 1] && lists == [["xml"], ["html"]]
  {
    assert HtmlNamespace != XmlNamespace;
  }

  /** A prefix the element declares, with the map, lists and counter after declaring it. */
  datatype Declared = Declared(prefix: string, m: PrefixMap, lists: Store, prefixIndex: nat)

  /**
   * Declaring the element's own prefix: when it is already bound on the
   * element itself a fresh one is generated (advancing the counter) instead;
   * the prefix used is pushed onto its namespace's list.
   */
  function DeclareElementPrefix(prefix: string, ns: Option<string>, s: Scan, prefixIndex: nat, env: Collaborators): (r: Declared)
    requires Valid(s.m, s.lists)
    ensures Valid(r.m, r.lists) && Extends(s.lists, r.lists)
    ensures s.m.Keys <= r.m.Keys && forall k :: k in s.m ==> r.m[k] == s.m[k]
    ensures r.prefixIndex == if prefix in s.local then prefixIndex + 1 else prefixIndex
    ensures prefix !in s.local ==> r.prefix == prefix
    ensures NamespaceKey(ns) in r.m && |r.lists[r.m[NamespaceKey(ns)]]| > 0
    ensures r.lists[r.m[NamespaceKey(ns)]][|r.lists[r.m[NamespaceKey(ns)]]| - 1] == r.prefix
  {
    var collides := prefix in s.local;
    var g := env.generatePrefix(View(s.m, s.lists), ns, prefixIndex);
    var (m1, lists1) := if collides then AddAll(s.m, s.lists, g.additions) else (s.m, s.lists);
    var p := if collides then g.prefix else prefix;
    var (m2, lists2) := DeclarePrefix(m1, lists1, NamespaceKey(ns), p);
    ExtendsTransitive(s.lists, lists1, lists2);
    Declared(p, m2, lists2, if collides then prefixIndex + 1 else prefixIndex)
  }

  /**
   * The decision for element `e` whose parent passes namespace `inherited`,
   * on the scan `s` of its own attributes.
   */
  function Resolve(e: Node, inherited: Option<string>, s: Scan, requireWellFormed: bool, prefixIndex: nat, env: Collaborators): (r: Result<Decision, ErrKind>)
    requires e.Element? && Valid(s.m, s.lists)
    ensures r.Err? <==> inherited != e.namespaceURI && e.prefix == Some("xmlns") && requireWellFormed
    ensures r.Ok? ==> Valid(r.value.m, r.value.lists) && Extends(s.lists, r.value.lists)
    ensures r.Ok? ==> s.m.Keys <= r.value.m.Keys && forall k :: k in s.m ==> r.value.m[k] == s.m[k]
    ensures r.Ok? ==> prefixIndex <= r.value.prefixIndex <= prefixIndex + 1
  {
    var ns := e.namespaceURI;
    var localDefault := s.defaultNamespace;
    if inherited == ns then
      var qualifiedName := if ns == Some(XmlNamespace) then "xml:" + e.localName else e.localName;
      Ok(Decision(qualifiedName, NoDeclaration, inherited, localDefault.Some?, s.m, s.lists, prefixIndex))
    else if e.prefix == Some("xmlns") && requireWellFormed then
      Err(ReservedPrefix)
    else
      var candidate := Candidate(e, s, env);
      if candidate.Some? then
        var childNamespace :=
          if localDefault.Some? && localDefault.value != XmlNamespace then NullIfEmpty(localDefault.value) else inherited;
        Ok(Decision(candidate.value + ":" + e.localName, NoDeclaration, childNamespace, false, s.m, s.lists, prefixIndex))
      else if e.prefix.Some? then
        var d := DeclareElementPrefix(e.prefix.value, ns, s, prefixIndex, env);
        var childNamespace := if localDefault.Some? then NullIfEmpty(localDefault.value) else inherited;
        Ok(Decision(d.prefix + ":" + e.localName, PrefixDeclaration(d.prefix), childNamespace, false, d.m, d.lists, d.prefixIndex))
      else if localDefault.None? || localDefault != ns then
        Ok(Decision(e.localName, DefaultDeclaration, ns, true, s.m, s.lists, prefixIndex))
      else
        Ok(Decision(e.localName, NoDeclaration, ns, false, s.m, s.lists, prefixIndex))
  }

  /**
   * When the element is in the namespace it inherits, nothing is declared,
   * the map, lists and counter are untouched, children inherit the same
   * namespace, and the name gets the `xml:` prefix exactly in the XML namespace.
   */
  lemma SameNamespaceNeedsNoDeclaration(e: Node, inherited: Option<string>, s: Scan, requireWellFormed: bool, prefixIndex: nat, env: Collaborators)
    requires e.Element? && Valid(s.m, s.lists) && inherited == e.namespaceURI
    ensures Resolve(e, inherited, s, requireWellFormed, prefixIndex, env).Ok?
    ensures var d := Resolve(e, inherited, s, requireWellFormed, prefixIndex, env).value;
      && d.declaration == NoDeclaration && d.childNamespace == inherited
      && d.m == s.m && d.lists == s.lists && d.prefixIndex == prefixIndex
      && d.ignoreNamespaceDefinitionAttr == s.defaultNamespace.Some?
      && (e.namespaceURI == Some(XmlNamespace) ==> d.qualifiedName == "xml:" + e.localName)
      && (e.namespaceURI != Some(XmlNamespace) ==> d.qualifiedName == e.localName)
  {
  }

  /**
   * The prefix `xmlns` on an element outside the inherited namespace is
   * refused in strict mode; in lenient mode it is kept as the qualified
   * name's prefix, nothing is declared and the state is untouched.
   */
  lemma XmlnsPrefixForced(e: Node, inherited: Option<string>, s: Scan, requireWellFormed: bool, prefixIndex: nat, env: Collaborators)
    requires e.Element? && Valid(s.m, s.lists) && inherited != e.namespaceURI && e.prefix == Some("xmlns")
    ensures requireWellFormed ==> Resolve(e, inherited, s, requireWellFormed, prefixIndex, env) == Err(ReservedPrefix)
    ensures !requireWellFormed ==> Resolve(e, inherited, s, requireWellFormed, prefixIndex, env).Ok?
    ensures var r := Resolve(e, inherited, s, requireWellFormed, prefixIndex, env);
      !requireWellFormed ==>
        && r.value.qualifiedName == "xmlns:" + e.localName
        && r.value.declaration == NoDeclaration
        && r.value.m == s.m && r.value.lists == s.lists && r.value.prefixIndex == prefixIndex
  {
  }

  /**
   * In a different namespace exactly one of three things happens, decided
   * by the candidate prefix, the element's own prefix and the declared
   * default namespace: reuse a prefix without a declaration, declare a
   * prefix with `xmlns:p`, or declare the default namespace with `xmlns`.
   */
  lemma DeclarationCases(e: Node, inherited: Option<string>, s: Scan, requireWellFormed: bool, prefixIndex: nat, env: Collaborators)
    requires e.Element? && Valid(s.m, s.lists) && inherited != e.namespaceURI
    requires Resolve(e, inherited, s, requireWellFormed, prefixIndex, env).Ok?
    ensures var d := Resolve(e, inherited, s, requireWellFormed, prefixIndex, env).value;
      && (d.declaration.PrefixDeclaration? <==> Candidate(e, s, env).None? && e.prefix.Some?)
      && (d.declaration == DefaultDeclaration <==>
            Candidate(e, s, env).None? && e.prefix.None? && (s.defaultNamespace.None? || s.defaultNamespace != e.namespaceURI))
      && (d.declaration == NoDeclaration <==>
            Candidate(e, s, env).Some? || (e.prefix.None? && s.defaultNamespace.Some? && s.defaultNamespace == e.namespaceURI))
      && (Candidate(e, s, env).Some? ==> d.qualifiedName == Candidate(e, s, env).value + ":" + e.localName)
      && (d.declaration == DefaultDeclaration <==> d.ignoreNamespaceDefinitionAttr)
      && (!d.declaration.PrefixDeclaration? ==> d.m == s.m && d.lists == s.lists && d.prefixIndex == prefixIndex)
  {
  }

  /**
   * A declared prefix: a fresh prefix is generated, and the counter moves by
   * exactly one, iff the element's prefix is already bound on the element
   * itself; the prefix used is appended to its namespace's list.
   */
  lemma DeclaredPrefix(e: Node, inherited: Option<string>, s: Scan, requireWellFormed: bool, prefixIndex: nat, env: Collaborators)
    requires e.Element? && Valid(s.m, s.lists) && inherited != e.namespaceURI
    requires Candidate(e, s, env).None? && e.prefix.Some?
    ensures Resolve(e, inherited, s, requireWellFormed, prefixIndex, env).Ok?
    ensures var d := Resolve(e, inherited, s, requireWellFormed, prefixIndex, env).value;
      var p := if e.prefix.value in s.local then env.generatePrefix(View(s.m, s.lists), e.namespaceURI, prefixIndex).prefix
               else e.prefix.value;
      && d.declaration == PrefixDeclaration(p)
      && d.qualifiedName == p + ":" + e.localName
      && (d.prefixIndex == prefixIndex + 1 <==> e.prefix.value in s.local)
      && (d.prefixIndex == prefixIndex <==> e.prefix.value !in s.local)
      && NamespaceKey(e.namespaceURI) in d.m
      && |d.lists[d.m[NamespaceKey(e.namespaceURI)]]| > 0
      && d.lists[d.m[NamespaceKey(e.namespaceURI)]][|d.lists[d.m[NamespaceKey(e.namespaceURI)]]| - 1] == p
  {
  }

  /**
   * The namespace the children inherit, and the name, outside the inherited
   * namespace: a declared default (with "" read as the null namespace) takes
   * over after a reused prefix unless it is the XML namespace, and after a
   * declared prefix in every case; otherwise the parent's namespace stays.
   * Without any prefix the element keeps its bare local name and passes its
   * own namespace on.
   */
  lemma ChildNamespaceCases(e: Node, inherited: Option<string>, s: Scan, requireWellFormed: bool, prefixIndex: nat, env: Collaborators)
    requires e.Element? && Valid(s.m, s.lists) && inherited != e.namespaceURI
    requires Resolve(e, inherited, s, requireWellFormed, prefixIndex, env).Ok?
    ensures var d := Resolve(e, inherited, s, requireWellFormed, prefixIndex, env).value;
      Candidate(e, s, env).Some? ==>
        d.childNamespace == (if s.defaultNamespace == Some("") then None
                             else if s.defaultNamespace.Some? && s.defaultNamespace.value != XmlNamespace then s.defaultNamespace
                             else inherited)
    ensures var d := Resolve(e, inherited, s, requireWellFormed, prefixIndex, env).value;
      d.declaration.PrefixDeclaration? ==>
        d.childNamespace == (if s.defaultNamespace == Some("") then None
                             else if s.defaultNamespace.Some? then s.defaultNamespace
                             else inherited)
    ensures var d := Resolve(e, inherited, s, requireWellFormed, prefixIndex, env).value;
      Candidate(e, s, env).None? && e.prefix.None? ==>
        d.childNamespace == e.namespaceURI && d.qualifiedName == e.localName
  {
  }

  /** The declaration's markup; the namespace value comes from the attribute-value helper. */
  function DeclarationMarkup(d: Declaration, ns: Option<string>, requireWellFormed: bool, env: Collaborators): (r: Result<string, ErrKind>)
    ensures r.Err? <==> d != NoDeclaration && env.serializeAttributeValue(ns, requireWellFormed).None?
    ensures d == NoDeclaration ==> r == Ok("")
    ensures r.Ok? && d.PrefixDeclaration? ==> r.value == " xmlns:" + d.prefix + "=\"" + env.serializeAttributeValue(ns, requireWellFormed).value + "\""
    ensures r.Ok? && d == DefaultDeclaration ==> r.value == " xmlns=\"" + env.serializeAttributeValue(ns, requireWellFormed).value + "\""
  {
    match d
    case NoDeclaration => Ok("")
    case PrefixDeclaration(p) =>
      (match env.serializeAttributeValue(ns, requireWellFormed)
       case None => Err(InvalidAttribute)
       case Some(v) => Ok(" xmlns:" + p + "=\"" + v + "\""))
    case DefaultDeclaration =>
      (match env.serializeAttributeValue(ns, requireWellFormed)
       case None => Err(InvalidAttribute)
       case Some(v) => Ok(" xmlns=\"" + v + "\""))
  }

  // ---------------------------------------------------------------------
  // Closing form and start tag

  /** How the start tag ends: ` />` for a childless void XHTML element, `/>` for a childless non-XHTML one, else `>`. */
  function Closing(ns: Option<string>, localName: string, childCount: nat): (r: string)
    ensures r == " />" <==> ns == Some(HtmlNamespace) && childCount == 0 && localName in VoidElements
    ensures r == "/>" <==> ns != Some(HtmlNamespace) && childCount == 0
    ensures r == ">" <==> childCount > 0 || (ns == Some(HtmlNamespace) && localName !in VoidElements)
  {
    if ns == Some(HtmlNamespace) && childCount == 0 && localName in VoidElements then " />"
    else if ns != Some(HtmlNamespace) && childCount == 0 then "/>"
    else ">"
  }

  /**
   * The start tag, kept in its parts (`<`, qualified name, declaration and
   * attributes, closing form), and the state its children are serialized in.
   */
  datatype Opened = Opened(
    qualifiedName: string,
    attributes: string,
    closing: string,
    childNamespace: Option<string>,
    m: PrefixMap,
    lists: Store,
    prefixIndex: nat)
  {
    function Markup(): string {
      "<" + qualifiedName + attributes + closing
    }

    /** A self-closed tag has no children and no end tag. */
    predicate SelfClosing() {
      closing != ">"
    }
  }

  /** The attribute markup, with a throw of the helper as an error. */
  function AttributesOf(r: Option<SerializedAttributes>): Result<SerializedAttributes, ErrKind> {
    match r
    case None => Err(InvalidAttribute)
    case Some(a) => Ok(a)
  }

  /**
   * The rest of the start tag once the name is decided: the declaration, the
   * attributes (which may record and mint prefixes too) and the closing form.
   */
  function CompleteStartTag(e: Node, local: map<string, string>, d: Decision, requireWellFormed: bool, env: Collaborators)
    : (r: Result<Opened, ErrKind>)
    requires e.Element? && Valid(d.m, d.lists)
    ensures r.Ok? ==> Valid(r.value.m, r.value.lists) && Extends(d.lists, r.value.lists)
    ensures r.Ok? ==> d.m.Keys <= r.value.m.Keys && forall k :: k in d.m ==> r.value.m[k] == d.m[k]
    ensures r.Ok? ==> d.prefixIndex <= r.value.prefixIndex
    ensures r.Ok? ==> r.value.qualifiedName == d.qualifiedName && r.value.childNamespace == d.childNamespace
    ensures r.Ok? ==> r.value.closing == Closing(e.namespaceURI, e.localName, |e.childNodes|)
  {
    var declaration :- DeclarationMarkup(d.declaration, e.namespaceURI, requireWellFormed, env);
    var a :- AttributesOf(env.serializeAttributes(e.attributes, View(d.m, d.lists), local,
                                                  d.ignoreNamespaceDefinitionAttr, requireWellFormed, d.prefixIndex));
    var (m', lists') := AddAll(d.m, d.lists, a.additions);
    Ok(Opened(d.qualifiedName, declaration + a.markup, Closing(e.namespaceURI, e.localName, |e.childNodes|),
              d.childNamespace, m', lists', d.prefixIndex + a.minted))
  }

  /** The success case of `CompleteStartTag`, spelled out from the helpers' results. */
  lemma CompleteStartTagOk(e: Node, local: map<string, string>, d: Decision, requireWellFormed: bool, env: Collaborators,
                           declaration: string, a: SerializedAttributes)
    requires e.Element? && Valid(d.m, d.lists)
    requires DeclarationMarkup(d.declaration, e.namespaceURI, requireWellFormed, env) == Ok(declaration)
    requires env.serializeAttributes(e.attributes, View(d.m, d.lists), local, d.ignoreNamespaceDefinitionAttr,
                                     requireWellFormed, d.prefixIndex) == Some(a)
    ensures var (m', lists') := AddAll(d.m, d.lists, a.additions);
      CompleteStartTag(e, local, d, requireWellFormed, env)
      == Ok(Opened(d.qualifiedName, declaration + a.markup, Closing(e.namespaceURI, e.localName, |e.childNodes|),
                   d.childNamespace, m', lists', d.prefixIndex + a.minted))
  {
  }

  /**
   * Everything the element case does before its children: the strict name
   * check, the scan on a copy of the map, the decision, then the rest of the tag.
   */
  function StartTag(e: Node, inherited: Option<string>, m: PrefixMap, lists: Store,
                    requireWellFormed: bool, prefixIndex: nat, env: Collaborators): (r: Result<Opened, ErrKind>)
    requires e.Element? && Valid(m, lists)
    ensures r.Ok? ==> Valid(r.value.m, r.value.lists) && Extends(lists, r.value.lists)
    ensures r.Ok? ==> m.Keys <= r.value.m.Keys && forall k :: k in m ==> r.value.m[k] == m[k]
    ensures r.Ok? ==> prefixIndex <= r.value.prefixIndex
    ensures r == Err(InvalidElementName) <==> ElementNameRejected(e.localName, requireWellFormed, env)
    ensures r.Ok? ==> r.value.closing == Closing(e.namespaceURI, e.localName, |e.childNodes|)
    ensures r.Ok? ==> (r.value.SelfClosing() <==>
                       |e.childNodes| == 0 && (e.namespaceURI != Some(HtmlNamespace) || e.localName in VoidElements))
  {
    if ElementNameRejected(e.localName, requireWellFormed, env) then Err(InvalidElementName)
    else
      var s := RecordedNamespaces(e.attributes, m, lists);
      var d :- Resolve(e, inherited, s, requireWellFormed, prefixIndex, env);
      var r := CompleteStartTag(e, s.local, d, requireWellFormed, env);
      ExtendsTransitive(lists, s.lists, d.lists);
      if r.Ok? then ExtendsTransitive(lists, d.lists, r.value.lists); r else r
  }
}
