/**
 * "Recording the namespace information" of one element: the scan of its
 * `xmlns` and `xmlns:p` attributes that extends the element's copy of the
 * prefix map, fills the element-local prefix map and yields the default
 * namespace the element declares.
 */
module Namespaces {
  import opened Wrappers
  import opened Dom
  import opened Prefixes

  /** The state of the scan after a prefix of the attribute list. */
  datatype Scan = Scan(defaultNamespace: Option<string>, m: PrefixMap, lists: Store, local: map<string, string>)

  /** An `xmlns="…"` attribute. */
  predicate DeclaresDefault(a: Attr) {
    a.namespaceURI == Some(XmlnsNamespace) && a.prefix.None?
  }

  /** An `xmlns:p="…"` attribute that is not a binding of the XML namespace. */
  predicate DeclaresPrefix(a: Attr) {
    a.namespaceURI == Some(XmlnsNamespace) && a.prefix.Some? && a.value != XmlNamespace
  }

  /** The scan step for `a` appends `a.localName` to the list of `a.value`. */
  predicate Appends(s: Scan, a: Attr)
    requires Valid(s.m, s.lists)
  {
    && DeclaresPrefix(a)
    && !(a.value in s.m && a.localName in s.lists[s.m[a.value]])
  }

  /** One loop iteration of the scan. */
  function RecordStep(s: Scan, a: Attr): (r: Scan)
    requires Valid(s.m, s.lists)
    ensures Valid(r.m, r.lists) && Extends(s.lists, r.lists)
    ensures s.m.Keys <= r.m.Keys && forall k :: k in s.m ==> r.m[k] == s.m[k]
  {
    if a.namespaceURI != Some(XmlnsNamespace) then s
    else if a.prefix.None? then s.(defaultNamespace := Some(a.value))
    else if a.value == XmlNamespace then s
    else if a.value in s.m && a.localName in s.lists[s.m[a.value]] then s
    else
      var (m', lists') := Add(s.m, s.lists, Binding(a.value, a.localName));
      Scan(s.defaultNamespace, m', lists', s.local[a.localName := a.value])
  }

  /** What one step changes: only an appending step touches the map, the lists and the local map. */
  lemma RecordStepCases(s: Scan, a: Attr)
    requires Valid(s.m, s.lists)
    ensures var r := RecordStep(s, a);
      && (Appends(s, a) ==> (r.m, r.lists) == Add(s.m, s.lists, Binding(a.value, a.localName)) &&
                            r.local == s.local[a.localName := a.value])
      && (!Appends(s, a) ==> r.m == s.m && r.lists == s.lists && r.local == s.local)
  {
  }

  /**
   * The scan over all attributes, in order. Namespaces already in the map
   * keep their (shared) list; the store is only appended to.
   */
  function RecordedNamespaces(attrs: seq<Attr>, m: PrefixMap, lists: Store): (s: Scan)
    requires Valid(m, lists)
    ensures Valid(s.m, s.lists) && Extends(lists, s.lists)
    ensures m.Keys <= s.m.Keys && forall k :: k in m ==> s.m[k] == m[k]
  {
    if attrs == [] then Scan(None, m, lists, map[])
    else
      var s := RecordedNamespaces(attrs[..|attrs| - 1], m, lists);
      var r := RecordStep(s, attrs[|attrs| - 1]);
      ExtendsTransitive(lists, s.lists, r.lists);
      r
  }

  /** The scan of one more attribute is one more step of the scan. */
  lemma RecordedNamespacesStep(attrs: seq<Attr>, i: nat, m: PrefixMap, lists: Store)
    requires Valid(m, lists) && i < |attrs|
    ensures RecordedNamespaces(attrs[..i + 1], m, lists) == RecordStep(RecordedNamespaces(attrs[..i], m, lists), attrs[i])
  {
    assert attrs[..i + 1][..i] == attrs[..i];
  }

  /**
   * The default namespace found is the value of the LAST `xmlns` attribute,
   * and there is none exactly when no attribute is an `xmlns` one.
   */
  lemma {:induction false} RecordedDefaultIsLast(attrs: seq<Attr>, m: PrefixMap, lists: Store, d: Option<string>)
    requires Valid(m, lists) && d == RecordedNamespaces(attrs, m, lists).defaultNamespace
    ensures d.None? <==> forall i :: 0 <= i < |attrs| ==> !DeclaresDefault(attrs[i])
    ensures d.Some? ==> exists i :: 0 <= i < |attrs| && DeclaresDefault(attrs[i]) && attrs[i].value == d.value &&
                          forall j :: i < j < |attrs| ==> !DeclaresDefault(attrs[j])
  {
    if attrs != [] {
      var init := attrs[..|attrs| - 1];
      var last := attrs[|attrs| - 1];
      RecordedDefaultIsLast(init, m, lists, RecordedNamespaces(init, m, lists).defaultNamespace);
      assert forall i :: 0 <= i < |init| ==> init[i] == attrs[i];
      if DeclaresDefault(last) {
        assert d == Some(last.value);
      } else {
        assert d == RecordedNamespaces(init, m, lists).defaultNamespace;
        if d.Some? {
          var i :| 0 <= i < |init| && DeclaresDefault(init[i]) && init[i].value == d.value &&
                   forall j :: i < j < |init| ==> !DeclaresDefault(init[j]);
          assert forall j :: i < j < |attrs| ==> !DeclaresDefault(attrs[j]);
        }
      }
    }
  }

  /** After the scan every `xmlns:p="v"` (v not the XML namespace) has p listed for v. */
  lemma {:induction false} RecordedPrefixesAreListed(attrs: seq<Attr>, m: PrefixMap, lists: Store, s: Scan)
    requires Valid(m, lists) && s == RecordedNamespaces(attrs, m, lists)
    ensures forall i :: 0 <= i < |attrs| && DeclaresPrefix(attrs[i]) ==>
      attrs[i].value in s.m && attrs[i].localName in s.lists[s.m[attrs[i].value]]
  {
    if attrs != [] {
      var init := attrs[..|attrs| - 1];
      var last := attrs[|attrs| - 1];
      var s0 := RecordedNamespaces(init, m, lists);
      RecordedPrefixesAreListed(init, m, lists, s0);
      assert s == RecordStep(s0, last);
      forall i | 0 <= i < |attrs| && DeclaresPrefix(attrs[i])
        ensures attrs[i].value in s.m && attrs[i].localName in s.lists[s.m[attrs[i].value]]
      {
        if i < |init| {
          assert attrs[i] == init[i];
          var id := s0.m[attrs[i].value];
          assert s.m[attrs[i].value] == id;
          assert s0.lists[id] <= s.lists[id];
        }
      }
    }
  }

  /** A list without repeated entries. */
  predicate NoDuplicates(l: seq<string>) {
    forall i, j :: 0 <= i < j < |l| ==> l[i] != l[j]
  }

  /** Appending a prefix that is not yet listed keeps a list duplicate-free. */
  lemma AppendKeepsNoDuplicates(l: seq<string>, p: string)
    requires NoDuplicates(l) && p !in l
    ensures NoDuplicates(l + [p])
  {
    var l' := l + [p];
    forall i, j | 0 <= i < j < |l'|
      ensures l'[i] != l'[j]
    {
      if j == |l| {
        assert l'[i] == l[i];
      }
    }
  }

  /** The scan never adds a prefix that its namespace's list already holds. */
  lemma {:induction false} RecordedListsStayDuplicateFree(attrs: seq<Attr>, m: PrefixMap, lists: Store, s: Scan)
    requires Valid(m, lists) && s == RecordedNamespaces(attrs, m, lists)
    requires forall id :: 0 <= id < |lists| ==> NoDuplicates(lists[id])
    ensures forall id :: 0 <= id < |s.lists| ==> NoDuplicates(s.lists[id])
  {
    if attrs != [] {
      var init := attrs[..|attrs| - 1];
      var last := attrs[|attrs| - 1];
      var s0 := RecordedNamespaces(init, m, lists);
      RecordedListsStayDuplicateFree(init, m, lists, s0);
      assert s == RecordStep(s0, last);
      RecordStepCases(s0, last);
      if Appends(s0, last) {
        var key := last.value;
        var id := s.m[key];
        var before := if key in s0.m then s0.lists[s0.m[key]] else [];
        assert s.lists[id] == before + [last.localName];
        assert NoDuplicates(before);
        AppendKeepsNoDuplicates(before, last.localName);
        forall k | 0 <= k < |s.lists|
          ensures NoDuplicates(s.lists[k])
        {
          if k != id {
            assert s.lists[k] == s0.lists[k];
          }
        }
      }
    }
  }

  /**
   * Every entry of the element-local map was declared by an `xmlns:p`
   * attribute of the element and is listed under its namespace.
   */
  lemma {:induction false} RecordedLocalPrefixes(attrs: seq<Attr>, m: PrefixMap, lists: Store, s: Scan)
    requires Valid(m, lists) && s == RecordedNamespaces(attrs, m, lists)
    ensures forall p :: p in s.local ==>
      && s.local[p] in s.m && p in s.lists[s.m[s.local[p]]]
      && exists i :: 0 <= i < |attrs| && DeclaresPrefix(attrs[i]) && attrs[i].localName == p && attrs[i].value == s.local[p]
  {
    if attrs != [] {
      var init := attrs[..|attrs| - 1];
      var last := attrs[|attrs| - 1];
      var s0 := RecordedNamespaces(init, m, lists);
      RecordedLocalPrefixes(init, m, lists, s0);
      assert s == RecordStep(s0, last);
      RecordStepCases(s0, last);
      forall p | p in s.local
        ensures s.local[p] in s.m && p in s.lists[s.m[s.local[p]]]
        ensures exists i :: 0 <= i < |attrs| && DeclaresPrefix(attrs[i]) && attrs[i].localName == p && attrs[i].value == s.local[p]
      {
        if Appends(s0, last) && p == last.localName {
          assert s.local[p] == last.value;
          var id := s.m[last.value];
          assert s.lists[id] == (if last.value in s0.m then s0.lists[s0.m[last.value]] else []) + [p];
          assert DeclaresPrefix(attrs[|attrs| - 1]);
        } else {
          assert p in s0.local && s.local[p] == s0.local[p];
          var id := s0.m[s0.local[p]];
          assert s0.lists[id] <= s.lists[id];
          var i :| 0 <= i < |init| && DeclaresPrefix(init[i]) && init[i].localName == p && init[i].value == s0.local[p];
          assert attrs[i] == init[i];
        }
      }
    }
  }

  /** Attributes outside the XMLNS namespace leave the scan where it started. */
  lemma {:induction false} OtherAttributesChangeNothing(attrs: seq<Attr>, m: PrefixMap, lists: Store)
    requires Valid(m, lists)
    requires forall i :: 0 <= i < |attrs| ==> attrs[i].namespaceURI != Some(XmlnsNamespace)
    ensures RecordedNamespaces(attrs, m, lists) == Scan(None, m, lists, map[])
  {
    if attrs != [] {
      var init := attrs[..|attrs| - 1];
      assert forall i :: 0 <= i < |init| ==> init[i] == attrs[i];
      OtherAttributesChangeNothing(init, m, lists);
    }
  }
}
