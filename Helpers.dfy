/**
 * The collaborators the element case calls but whose code is not part of
 * this model: the XML Name check of the name validator and the four
 * attribute helpers. Each is an uninterpreted function value. A helper that
 * can throw returns `None` for the throw; a helper that records prefixes in
 * the element's map returns them as bindings, which the serializer applies
 * with the same append-or-create operation as the namespace scan; a helper
 * that mints prefixes reports how many it minted, so the shared counter can
 * only move forward.
 */
module Helpers {
  import opened Wrappers
  import opened Dom
  import opened Prefixes

  /** What `generatePrefix` yields: the new prefix and what it records in the map. */
  datatype Generated = Generated(prefix: string, additions: seq<Binding>)

  /** What `serializeAttributes` yields: the attribute markup, the prefixes it recorded, the prefixes it minted. */
  datatype SerializedAttributes = SerializedAttributes(markup: string, additions: seq<Binding>, minted: nat)

  datatype Collaborators = Collaborators(
    /** Truthiness of the validator's `name(localName)`. */
    isName: string -> bool,
    /** `preferredPrefixString(map, ns, prefix)`; `None` is null. */
    preferredPrefixString: (map<string, seq<string>>, Option<string>, Option<string>) -> Option<string>,
    /** `generatePrefix(map, ns, index)`. */
    generatePrefix: (map<string, seq<string>>, Option<string>, nat) -> Generated,
    /** `serializeAttributeValue(ns, requireWellFormed)`; `None` is a throw. */
    serializeAttributeValue: (Option<string>, bool) -> Option<string>,
    /** `serializeAttributes(node, map, localPrefixes, ignoreNamespaceDefinitionAttr, requireWellFormed, index)`; `None` is a throw. */
    serializeAttributes: (seq<Attr>, map<string, seq<string>>, map<string, string>, bool, bool, nat) -> Option<SerializedAttributes>
  )

  /** The attribute helpers never throw in lenient mode. */
  ghost predicate LenientTotal(env: Collaborators) {
    && (forall ns :: env.serializeAttributeValue(ns, false).Some?)
    && (forall attrs, m, local, ignore, k :: env.serializeAttributes(attrs, m, local, ignore, false, k).Some?)
  }
}
