/**
 * `set_authority` as written on a reference without the `//` marker: the authority lands
 * straight after the scheme (or at the start of a relative reference) with nothing to
 * introduce it, and the descriptor no longer describes the bytes.
 */
module Findings {
  import opened Wrappers
  import opened Splice
  import opened Parsed
  import opened Reference
  import opened Setters

  /** The empty relative reference: no scheme, authority, path, query or fragment. */
  predicate IsEmptyReference(v: IriRef) {
    && v.data == []
    && v.p.scheme_len.None?
    && v.p.authority.offset == 0 && v.p.authority.Len() == 0
    && v.p.path_len == 0 && v.p.query_len.None? && v.p.fragment_len.None?
  }

  /** The empty reference is valid under a grammar that accepts its empty authority and path. */
  lemma EmptyReferenceValid(g: Grammar, v: IriRef)
    requires IsEmptyReference(v)
    requires g.authority([], 0) == Some(v.p.authority) && g.path([], 0) == Some(0)
    ensures v.Valid(g)
    ensures v.Parts() == Components(None, [], [], [], None, None)
  {
    var x := Components(None, [], [], [], None, None);
    assert x.Text() == [] by {
      assert SchemeText(None) == [] && Introduced(QUESTION_MARK, None) == [] && Introduced(HASH, None) == [];
    }
    assert Fits(v.p, x) && x.Marked();
    PartsOfText(v.p, x);
    assert v == IriRef(v.p, x.Text());
  }

  /**
   * Where a valid reference has no `//` marker, `set_authority` as written accepts any
   * non-empty authority the grammar reads whole, and the result is no longer well formed.
   */
  lemma SetAuthorityWithoutMarker(g: Grammar, v: IriRef, authority: seq<byte>)
    requires v.Valid(g) && v.p.authority.offset == v.p.SchemeEnd() && authority != []
    requires g.authority(authority, 0).Some? && g.authority(authority, 0).value.Len() == |authority|
    ensures var r := WithAuthority(g, v, authority);
      && r.Ok?
      && r.value.data == Spliced(v.data, v.p.SchemeEnd(), v.p.SchemeEnd(), authority)
      && !r.value.WellFormed()
  {
    WithAuthorityAsWritten(g, v, authority);
  }

  /**
   * On the empty relative reference, `set_authority` as written succeeds with any non-empty
   * authority (`ab`, say) and leaves just its bytes: an authority with no `//` in front.
   */
  lemma EmptyReferenceLosesMarker(g: Grammar, v: IriRef, authority: seq<byte>)
    requires IsEmptyReference(v) && authority != []
    requires g.authority([], 0) == Some(v.p.authority) && g.path([], 0) == Some(0)
    requires g.authority(authority, 0).Some? && g.authority(authority, 0).value.Len() == |authority|
    ensures v.Valid(g)
    ensures var r := WithAuthority(g, v, authority);
      r.Ok? && r.value.data == authority && !r.value.WellFormed()
  {
    assert Spliced(v.data, 0, 0, authority) == authority;
    EmptyReferenceValid(g, v);
    SetAuthorityWithoutMarker(g, v, authority);
  }
}
