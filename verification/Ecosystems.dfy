/** The version keys of the ecosystem helpers and the contract a helper must keep. */
module Ecosystems {
  import opened Strings
  import opened CoarseVersion

  datatype Option<+T> = None | Some(value: T)

  /** Python's int() on a string, None for its ValueError. */
  type IntParser = string -> Option<int>

  /** VersionKey: '0' is below everything, an invalid version above everything. */
  datatype VersionKey<+K> = Zero | Invalid | Valid(key: K)

  /** Result of coarse_version: a string, ValueError, or NotImplementedError. */
  datatype Coarse = Ok(text: string) | ValueError | NotImplemented

  /** An ecosystem helper: its parser (None for ValueError), the order and equality
      of its keys, and its coarse_version. */
  datatype Helper<!K> = Helper(parse: string -> Option<K>, less: (K, K) -> bool, same: (K, K) -> bool,
    coarse: string -> Coarse)
  {
    function SortKey(version: string): VersionKey<K> {
      if version == "0" then Zero
      else match parse(version) case Some(k) => Valid(k) case None => Invalid
    }

    predicate KeyLt(a: VersionKey<K>, b: VersionKey<K>) {
      if a.Invalid? then false
      else if b.Invalid? then true
      else if a.Zero? then !b.Zero?
      else if b.Zero? then false
      else less(a.key, b.key)
    }

    predicate KeyEq(a: VersionKey<K>, b: VersionKey<K>) {
      if a.Invalid? then b.Invalid?
      else if b.Invalid? then false
      else if a.Zero? then b.Zero?
      else if b.Zero? then false
      else same(a.key, b.key)
    }

    predicate VersionLt(v: string, w: string) { KeyLt(SortKey(v), SortKey(w)) }

    predicate VersionEq(v: string, w: string) { KeyEq(SortKey(v), SortKey(w)) }
  }

  /** A total preorder of keys, with equality as incomparability. */
  ghost predicate OrderedKeys<K(!new)>(h: Helper<K>) {
    && (forall a: K, b: K :: h.less(a, b) ==> !h.less(b, a))
    && (forall a: K, b: K, c: K :: h.less(a, c) ==> h.less(a, b) || h.less(b, c))
    && (forall a: K, b: K :: h.same(a, b) <==> !h.less(a, b) && !h.less(b, a))
  }

  /** The same on the version strings of a domain, with '0' and invalid versions in. */
  ghost predicate OrderedOn<K>(h: Helper<K>, dom: string -> bool) {
    && (forall u, v :: dom(u) && dom(v) && h.VersionLt(u, v) ==> !h.VersionLt(v, u))
    && (forall u, v, w :: dom(u) && dom(v) && dom(w) && h.VersionLt(u, w) ==> h.VersionLt(u, v) || h.VersionLt(v, w))
    && (forall u, v :: dom(u) && dom(v) ==> (h.VersionEq(u, v) <==> !h.VersionLt(u, v) && !h.VersionLt(v, u)))
  }

  /** The documented contract of coarse_version: non-decreasing in the sort order. */
  ghost predicate MonotoneOn<K>(h: Helper<K>, dom: string -> bool) {
    forall v, w ::
      dom(v) && dom(w) && h.coarse(v).Ok? && h.coarse(w).Ok? && !h.VersionLt(w, v)
      ==> Le(h.coarse(v).text, h.coarse(w).text)
  }

  predicate CoarseInRange(coarse: string) { Le(MinCoarse(), coarse) && Le(coarse, MaxCoarse()) }

  /** The documented format: every coarse version lies between the extremes. */
  ghost predicate BoundedCoarse<K>(h: Helper<K>) {
    forall v :: h.coarse(v).Ok? ==> CoarseInRange(h.coarse(v).text)
  }

  ghost predicate LawfulOn<K>(h: Helper<K>, dom: string -> bool) {
    OrderedOn(h, dom) && MonotoneOn(h, dom) && BoundedCoarse(h)
  }

  predicate Every(v: string) { true }

  /** No version is both above and below another, and equal versions are neither. */
  ghost predicate PairwiseOn<K>(h: Helper<K>, dom: string -> bool) {
    && (forall u, v :: dom(u) && dom(v) && h.VersionLt(u, v) ==> !h.VersionLt(v, u))
    && (forall u, v :: dom(u) && dom(v) && h.VersionEq(u, v) ==> h.VersionEq(v, u) && !h.VersionLt(u, v))
  }

  ghost predicate NeverRejects<K>(h: Helper<K>, dom: string -> bool) { forall v :: dom(v) ==> h.coarse(v).Ok? }

  /** What the coarse filter relies on. The order need not be transitive where no version is rejected:
      then the coarse versions carry the order from one event to the next. */
  ghost predicate FilterSafeOn<K>(h: Helper<K>, dom: string -> bool) {
    && PairwiseOn(h, dom) && MonotoneOn(h, dom) && BoundedCoarse(h)
    && (OrderedOn(h, dom) || NeverRejects(h, dom))
  }

  /** The documented contract is more than enough. */
  lemma {:induction false} LawfulIsFilterSafe<K>(h: Helper<K>, dom: string -> bool)
    requires LawfulOn(h, dom)
    ensures FilterSafeOn(h, dom)
  {
  }

  /** Wrapping keys adds '0' and invalid versions without breaking the total preorder. */
  lemma {:induction false} WrappedKeysOrdered<K(!new)>(h: Helper<K>)
    requires OrderedKeys(h)
    ensures OrderedOn(h, Every)
  {
  }

  /** coarse_version rejects a version exactly if it rejects equal ones. */
  ghost predicate RejectsAlike<K>(h: Helper<K>, dom: string -> bool) {
    forall u, v :: dom(u) && dom(v) && h.VersionEq(u, v) ==> (h.coarse(u).Ok? <==> h.coarse(v).Ok?)
  }

  /** A coarse_version that raises exactly on the versions that do not parse. */
  lemma {:induction false} ValidatingHelpersRejectAlike<K>(h: Helper<K>, dom: string -> bool)
    requires h.parse("0").Some? && forall v :: h.coarse(v).Ok? <==> h.parse(v).Some?
    ensures RejectsAlike(h, dom)
  {
  }
}
