/**
 * Expected outputs from the repository's tests, checked against the model:
 * leaf nodes in full, elements one start tag at a time.
 */
module Examples {
  import opened Wrappers
  import opened Strings
  import opened Dom
  import opened Prefixes
  import opened Namespaces
  import opened Leaves
  import opened Helpers
  import opened Elements

  /**
   * Helpers for elements without attributes: no prefix is ever preferred,
   * a namespace value is written as is (null as ""), no attribute markup.
   */
  const PlainHelpers: Collaborators := Collaborators(
    (n: string) => true,
    (v: map<string, seq<string>>, ns: Option<string>, p: Option<string>) => None,
    (v: map<string, seq<string>>, ns: Option<string>, k: nat) => Generated("ns" + [('0' as int + k % 10) as char], []),
    (ns: Option<string>, w: bool) => Some(if ns.Some? then ns.value else ""),
    (a: seq<Attr>, v: map<string, seq<string>>, l: map<string, string>, i: bool, w: bool, k: nat) => Some(SerializedAttributes("", [], 0)))

  /** The map and lists the entry point starts from. */
  const InitialMap: PrefixMap := map[XmlNamespace := 0]
  const InitialLists: Store := [["xml"]]

  /** Comments are emitted verbatim in lenient mode, hyphens and all. */
  lemma CommentExamples()
    ensures SerializeComment("--", false) == Ok("<!------>")
    ensures SerializeComment("- x", false) == Ok("<!--- x-->")
    ensures SerializeComment("x -", false) == Ok("<!--x --->")
    ensures SerializeComment("-->", false) == Ok("<!---->-->")
    ensures SerializeComment("--", true) == Err(IllegalHyphens)
  {
    assert Contains("--", "--") by { ContainsPair("--", 0, '-', '-'); }
    assert "<!--" + "--" + "-->" == "<!------>";
    assert "<!--" + "- x" + "-->" == "<!--- x-->";
    assert "<!--" + "x -" + "-->" == "<!--x --->";
    assert "<!--" + "-->" + "-->" == "<!---->-->";
  }

  /** The four doctype shapes, and quotes left unescaped. */
  lemma DocumentTypeExamples()
    ensures SerializeDocumentType("html", "", "", false) == Ok("<!DOCTYPE html>")
    ensures SerializeDocumentType("html", "a", "", false) == Ok("<!DOCTYPE html PUBLIC \"a\">")
    ensures SerializeDocumentType("html", "", "a", false) == Ok("<!DOCTYPE html SYSTEM \"a\">")
    ensures SerializeDocumentType("html", "a", "b", false) == Ok("<!DOCTYPE html PUBLIC \"a\" \"b\">")
    ensures SerializeDocumentType("html", "\"'", "'\"", false) == Ok("<!DOCTYPE html PUBLIC \"\"'\" \"'\"\">")
  {
    assert "<!DOCTYPE " + "html" + ">" == "<!DOCTYPE html>";
    assert "<!DOCTYPE " + "html" + " PUBLIC \"" + "a" + "\">" == "<!DOCTYPE html PUBLIC \"a\">";
    assert "<!DOCTYPE " + "html" + " SYSTEM \"" + "a" + "\">" == "<!DOCTYPE html SYSTEM \"a\">";
    assert "<!DOCTYPE " + "html" + " PUBLIC \"" + "a" + "\" \"" + "b" + "\">" == "<!DOCTYPE html PUBLIC \"a\" \"b\">";
    assert "<!DOCTYPE " + "html" + " PUBLIC \"" + "\"'" + "\" \"" + "'\"" + "\">" == "<!DOCTYPE html PUBLIC \"\"'\" \"'\"\">";
  }

  /** Processing instructions keep the space before empty data; lenient mode lets `xml` and `x:y` through. */
  lemma ProcessingInstructionExamples()
    ensures SerializeProcessingInstruction("a", "", false) == Ok("<?a ?>")
    ensures SerializeProcessingInstruction("a", "b", false) == Ok("<?a b?>")
    ensures SerializeProcessingInstruction("xml", "b", false) == Ok("<?xml b?>")
    ensures SerializeProcessingInstruction("x:y", "b", false) == Ok("<?x:y b?>")
  {
    assert "<?" + "a" + " " + "" + "?>" == "<?a ?>";
    assert "<?" + "a" + " " + "b" + "?>" == "<?a b?>";
    assert "<?" + "xml" + " " + "b" + "?>" == "<?xml b?>";
    assert "<?" + "x:y" + " " + "b" + "?>" == "<?x:y b?>";
  }

  /** The element `child1` of the default-namespace test, in the null namespace. */
  const Child1: Node := Element(None, None, "child1", [], [Text("value1")], [])

  /** Its decision under a parent in `urn:foo`: declare the null namespace as default. */
  lemma Child1Decision()
    ensures RecordedNamespaces([], InitialMap, InitialLists) == Scan(None, InitialMap, InitialLists, map[])
    ensures Resolve(Child1, Some("urn:foo"), Scan(None, InitialMap, InitialLists, map[]), false, 1, PlainHelpers)
         == Ok(Decision("child1", DefaultDeclaration, None, true, InitialMap, InitialLists, 1))
  {
  }

  /** The declaration of the null namespace as default is `xmlns=""`. */
  lemma NullDefaultDeclaration()
    ensures DeclarationMarkup(DefaultDeclaration, None, false, PlainHelpers) == Ok(" xmlns=\"\"")
  {
    assert PlainHelpers.serializeAttributeValue(None, false) == Some("");
    assert " xmlns=\"" + "" + "\"" == " xmlns=\"\"";
  }

  /**
   * `<child1>` in the null namespace under a parent in `urn:foo`: it
   * declares `xmlns=""` and its children inherit the null namespace.
   */
  lemma DefaultNamespaceResetExample(r: Result<Opened, ErrKind>)
    requires r == StartTag(Child1, Some("urn:foo"), InitialMap, InitialLists, false, 1, PlainHelpers)
    ensures r == Ok(Opened("child1", " xmlns=\"\"", ">", None, InitialMap, InitialLists, 1))
  {
    Child1Decision();
    NullDefaultDeclaration();
    assert AddAll(InitialMap, InitialLists, []) == (InitialMap, InitialLists);
    assert PlainHelpers.serializeAttributes([], View(InitialMap, InitialLists), map[], true, false, 1)
        == Some(SerializedAttributes("", [], 0));
    assert " xmlns=\"\"" + "" == " xmlns=\"\"";
  }

  /** The element `another` of the default-namespace test, in `urn:foo`. */
  const Another: Node := Element(Some("urn:foo"), None, "another", [], [Text("value1")], [])

  /** Its decision under a null-namespace parent: declare `urn:foo` as default. */
  lemma AnotherDecision()
    ensures Resolve(Another, None, Scan(None, InitialMap, InitialLists, map[]), false, 1, PlainHelpers)
         == Ok(Decision("another", DefaultDeclaration, Some("urn:foo"), true, InitialMap, InitialLists, 1))
  {
  }

  /** The declaration of `urn:foo` as default. */
  lemma FooDefaultDeclaration()
    ensures DeclarationMarkup(DefaultDeclaration, Some("urn:foo"), false, PlainHelpers) == Ok(" xmlns=\"urn:foo\"")
  {
    assert PlainHelpers.serializeAttributeValue(Some("urn:foo"), false) == Some("urn:foo");
    assert " xmlns=\"" + "urn:foo" == " xmlns=\"urn:foo";
    assert " xmlns=\"urn:foo" + "\"" == " xmlns=\"urn:foo\"";
  }

  /**
   * `<another>` in `urn:foo` under a null-namespace parent declares its
   * namespace as the default and passes it on.
   */
  lemma DefaultNamespaceDeclarationExample(r: Result<Opened, ErrKind>)
    requires r == StartTag(Another, None, InitialMap, InitialLists, false, 1, PlainHelpers)
    ensures r == Ok(Opened("another", " xmlns=\"urn:foo\"", ">", Some("urn:foo"), InitialMap, InitialLists, 1))
  {
    Child1Decision();
    AnotherDecision();
    FooDefaultDeclaration();
    assert AddAll(InitialMap, InitialLists, []) == (InitialMap, InitialLists);
    assert PlainHelpers.serializeAttributes([], View(InitialMap, InitialLists), map[], true, false, 1)
        == Some(SerializedAttributes("", [], 0));
    assert " xmlns=\"urn:foo\"" + "" == " xmlns=\"urn:foo\"";
  }

  /** The element `html:br` of the unknown-prefix test. */
  const HtmlBr: Node := Element(Some(HtmlNamespace), Some("html"), "br", [], [], [])

  /** The decision for `html:br` under a null-namespace parent: declare `html`, create its list. */
  lemma HtmlBrDecision()
    ensures Resolve(HtmlBr, None, Scan(None, InitialMap, InitialLists, map[]), true, 1, PlainHelpers)
         == Ok(Decision("html:br", PrefixDeclaration("html"), None, false,
                        map[XmlNamespace := 0, HtmlNamespace := 1], [["xml"], ["html"]], 1))
  {
    var s := Scan(None, InitialMap, InitialLists, map[]);
    assert HtmlNamespace != XmlNamespace;
    assert Candidate(HtmlBr, s, PlainHelpers) == None;
    assert DeclarePrefix(InitialMap, InitialLists, HtmlNamespace, "html")
        == (map[XmlNamespace := 0, HtmlNamespace := 1], [["xml"], ["html"]]) by {
      UnknownPrefixPush();
    }
    assert "html" + ":" + "br" == "html:br";
  }

  /** The declaration `html:br` carries binds `html` to the XHTML namespace. */
  lemma HtmlBrDeclaration()
    ensures DeclarationMarkup(PrefixDeclaration("html"), Some(HtmlNamespace), true, PlainHelpers)
         == Ok(" xmlns:html=\"" + HtmlNamespace + "\"")
  {
    assert PlainHelpers.serializeAttributeValue(Some(HtmlNamespace), true) == Some(HtmlNamespace);
    assert " xmlns:" + "html" + "=\"" == " xmlns:html=\"";
  }

  /**
   * A childless `html:br` in the XHTML namespace under a null-namespace
   * parent, in strict mode: the prefix is declared, a list is created for the namespace,
   * and the void element closes with ` />`.
   */
  lemma UnknownPrefixExample(r: Result<Opened, ErrKind>)
    requires r == StartTag(HtmlBr, None, InitialMap, InitialLists, true, 1, PlainHelpers)
    ensures r.Ok?
    ensures r.value.qualifiedName == "html:br"
    ensures r.value.attributes == " xmlns:html=\"" + HtmlNamespace + "\""
    ensures r.value.closing == " />"
    ensures r.value.childNamespace == None
    ensures r.value.lists == [["xml"], ["html"]]
    ensures r.value.prefixIndex == 1
  {
    Child1Decision();
    HtmlBrDecision();
    HtmlBrDeclaration();
    var m', lists' := map[XmlNamespace := 0, HtmlNamespace := 1], [["xml"], ["html"]];
    assert AddAll(m', lists', []) == (m', lists');
    assert !ElementNameRejected("br", true, PlainHelpers);
    assert PlainHelpers.serializeAttributes([], View(m', lists'), map[], false, true, 1) == Some(SerializedAttributes("", [], 0));
    assert " xmlns:html=\"" + HtmlNamespace + "\"" + "" == " xmlns:html=\"" + HtmlNamespace + "\"";
    assert "br" in VoidElements;
    assert Closing(Some(HtmlNamespace), "br", 0) == " />";
  }
}
