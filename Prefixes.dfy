/**
 * The namespace prefix map. Each element works on its own shallow copy of
 * the map it inherits, but the per-namespace prefix lists are shared objects:
 * a push onto an existing list is seen by every map that holds that list.
 * The lists live in a `Store` (indexed by `ListId`, standing for the object
 * identity) and a `PrefixMap` takes each namespace key to the id of its list,
 * so copying a map copies ids, not lists.
 */
module Prefixes {
  import opened Wrappers

  type ListId = nat

  /** Namespace key (the null namespace coalesced to "") to its prefix list. */
  type PrefixMap = map<string, ListId>

  /** Every prefix list allocated during one serialization. */
  type Store = seq<seq<string>>

  /** A request to record `prefix` as a candidate for `namespace`. */
  datatype Binding = Binding(namespace: string, prefix: string)

  /** Every list id in the map denotes an allocated list. */
  predicate Valid(m: PrefixMap, lists: Store) {
    forall k :: k in m ==> m[k] < |lists|
  }

  /** Lists are only appended to: each old list is a prefix of its new value. */
  predicate Extends(before: Store, after: Store) {
    |before| <= |after| && forall i :: 0 <= i < |before| ==> before[i] <= after[i]
  }

  lemma ExtendsTransitive(a: Store, b: Store, c: Store)
    requires Extends(a, b) && Extends(b, c)
    ensures Extends(a, c)
  {
    forall i | 0 <= i < |a|
      ensures a[i] <= c[i]
    {
      assert a[i] <= b[i] && b[i] <= c[i];
      assert forall j :: 0 <= j < |a[i]| ==> a[i][j] == b[i][j] == c[i][j];
    }
  }

  /** The map as the source sees it: namespace key to the current list contents. */
  function View(m: PrefixMap, lists: Store): map<string, seq<string>>
    requires Valid(m, lists)
  {
    map k | k in m :: lists[m[k]]
  }

  /** Map key of a namespace: the null namespace is coalesced to "". */
  function NamespaceKey(ns: Option<string>): string {
    if ns.Some? then ns.value else ""
  }

  /**
   * Record a candidate prefix: push it onto the namespace's list, allocating
   * a fresh empty list first when the namespace has none.
   */
  function Add(m: PrefixMap, lists: Store, b: Binding): (r: (PrefixMap, Store))
    requires Valid(m, lists)
    ensures Valid(r.0, r.1) && Extends(lists, r.1)
    ensures r.0.Keys == m.Keys + {b.namespace}
    ensures forall k :: k in m ==> r.0[k] == m[k]
    ensures b.namespace !in m ==> r.0[b.namespace] == |lists| && |r.1| == |lists| + 1
    ensures b.namespace in m ==> |r.1| == |lists|
    ensures r.1[r.0[b.namespace]] == (if b.namespace in m then lists[m[b.namespace]] else []) + [b.prefix]
    ensures forall i :: 0 <= i < |lists| && i != r.0[b.namespace] ==> r.1[i] == lists[i]
  {
    if b.namespace in m then
      var id := m[b.namespace];
      (m, lists[id := lists[id] + [b.prefix]])
    else
      (m[b.namespace := |lists|], lists + [[b.prefix]])
  }

  /** `Add` for each binding in order. */
  function AddAll(m: PrefixMap, lists: Store, bs: seq<Binding>): (r: (PrefixMap, Store))
    requires Valid(m, lists)
    ensures Valid(r.0, r.1) && Extends(lists, r.1)
    ensures m.Keys <= r.0.Keys && forall k :: k in m ==> r.0[k] == m[k]
    decreases |bs|
  {
    if bs == [] then (m, lists)
    else
      var (m1, lists1) := Add(m, lists, bs[0]);
      var r := AddAll(m1, lists1, bs[1..]);
      ExtendsTransitive(lists, lists1, r.1);
      r
  }
}
