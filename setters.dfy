/**
 * What each setter of `IriRefBuf` makes of the descriptor and bytes it holds, and what that
 * guarantees: validation happens before any change, the result is again a valid IRI
 * reference, exactly one component is replaced and every other one is kept.
 */
module Setters {
  import opened Wrappers
  import opened Splice
  import opened Parsed
  import opened Reference

  // ----- scheme -----

  /** `scheme ":"` removed, when there is one; the authority moves left with the bytes after it. */
  function DropScheme(v: IriRef): (r: IriRef)
    requires v.WellFormed()
    ensures r.p == v.p.(scheme_len := None, authority := v.p.authority.(offset := v.p.authority.offset - v.p.SchemeEnd()))
    ensures |r.data| == |v.data| - v.p.SchemeEnd()
  {
    var p := v.p;
    match p.scheme_len
    case Some(n) =>
      IriRef(p.(scheme_len := None, authority := p.authority.(offset := p.authority.offset - (n + 1))),
             Spliced(v.data, 0, n + 1, []))
    case None => IriRef(p.(scheme_len := None), v.data)
  }

  /**
   * The scheme bytes replaced by `s`, or `:` and then `s` inserted at the start; the
   * authority moves with the bytes after the scheme.
   */
  function PutScheme(v: IriRef, s: seq<byte>): (r: IriRef)
    requires v.WellFormed()
    ensures r.p == v.p.(scheme_len := Some(|s|), authority := v.p.authority.(offset := v.p.authority.offset - v.p.SchemeEnd() + |s| + 1))
    ensures |r.data| == |v.data| - v.p.SchemeEnd() + |s| + 1
  {
    var p := v.p;
    match p.scheme_len
    case Some(n) =>
      IriRef(p.(scheme_len := Some(|s|), authority := p.authority.(offset := p.authority.offset - n + |s|)),
             Spliced(v.data, 0, n, s))
    case None =>
      IriRef(p.(scheme_len := Some(|s|), authority := p.authority.(offset := p.authority.offset + 1 + |s|)),
             Spliced(Spliced(v.data, 0, 0, [COLON]), 0, 0, s))
  }

  /**
   * `set_raw_scheme`: none removes the scheme; a non-empty scheme accepted whole by the
   * scheme scanner is installed; anything else is `Invalid`.
   */
  function WithRawScheme(g: Grammar, v: IriRef, scheme: Option<seq<byte>>): (r: Result<IriRef, Error>)
    requires v.WellFormed()
    ensures scheme.None? ==> r.Ok?
    ensures r.Ok? ==> r.value.p.scheme_len == LenOf(scheme)
    ensures r.Ok? ==> |r.value.data| - r.value.p.SchemeEnd() == |v.data| - v.p.SchemeEnd()
  {
    match scheme
    case None => Ok(DropScheme(v))
    case Some(s) =>
      if |s| == 0 || g.scheme(s, 0) != Some(|s|) then Err(Invalid) else Ok(PutScheme(v, s))
  }

  /** The text after `scheme ":"`. */
  function AfterScheme(x: Components): (r: seq<byte>)
    ensures x.Text() == SchemeText(x.scheme) + r
  {
    x.marker + x.authority + x.path + Introduced(QUESTION_MARK, x.query) + Introduced(HASH, x.fragment)
  }

  /** Removing `scheme ":"` from the text of components drops their scheme. */
  lemma SchemeDropped(x: Components)
    requires x.scheme.Some?
    ensures Spliced(x.Text(), 0, |x.scheme.value| + 1, []) == x.(scheme := None).Text()
  {
    var rest := AfterScheme(x);
    assert x.Text() == [] + SchemeText(x.scheme) + rest;
    SplicedConcat([], SchemeText(x.scheme), rest, []);
    assert AfterScheme(x.(scheme := None)) == rest;
  }

  /** Replacing the scheme bytes (before the `:`) installs the new scheme. */
  lemma SchemeReplaced(x: Components, s: seq<byte>)
    requires x.scheme.Some?
    ensures Spliced(x.Text(), 0, |x.scheme.value|, s) == x.(scheme := Some(s)).Text()
  {
    var rest := AfterScheme(x);
    assert x.Text() == [] + x.scheme.value + ([COLON] + rest);
    SplicedConcat([], x.scheme.value, [COLON] + rest, s);
    assert AfterScheme(x.(scheme := Some(s))) == rest;
  }

  /** Inserting `:` at the start and then the scheme before it adds the scheme. */
  lemma SchemeInserted(x: Components, s: seq<byte>)
    requires x.scheme.None?
    ensures Spliced(Spliced(x.Text(), 0, 0, [COLON]), 0, 0, s) == x.(scheme := Some(s)).Text()
  {
    PrependDelimited(x.Text(), COLON, s);
    assert AfterScheme(x.(scheme := Some(s))) == AfterScheme(x) == x.Text();
  }

  /** The bytes left by removing the scheme spell the old components without it. */
  lemma DropSchemeText(p: ParsedIriRef, x: Components, t: seq<byte>)
    requires IriRef(p, t).WellFormed() && Fits(p, x) && t == x.Text()
    ensures var w, x' := DropScheme(IriRef(p, t)), x.(scheme := None);
      w.data == x'.Text() && Fits(w.p, x')
  {
    if p.scheme_len.Some? {
      SchemeDropped(x);
    } else {
      assert x.(scheme := None) == x;
    }
  }

  /** The bytes left by installing a scheme spell the old components with it. */
  lemma PutSchemeText(p: ParsedIriRef, x: Components, t: seq<byte>, s: seq<byte>)
    requires IriRef(p, t).WellFormed() && Fits(p, x) && t == x.Text()
    ensures var w, x' := PutScheme(IriRef(p, t), s), x.(scheme := Some(s));
      w.data == x'.Text() && Fits(w.p, x')
  {
    if p.scheme_len.Some? {
      SchemeReplaced(x, s);
    } else {
      SchemeInserted(x, s);
    }
  }

  /**
   * `set_raw_scheme` fails exactly when a scheme is given that is empty or not accepted
   * whole by the scheme scanner; otherwise the result is valid, only its scheme has
   * changed, and the authority descriptor has moved with the bytes after the scheme.
   */
  lemma WithRawSchemeSpec(g: Grammar, v: IriRef, scheme: Option<seq<byte>>)
    requires v.Valid(g)
    ensures WithRawScheme(g, v, scheme).Err? <==>
      scheme.Some? && (|scheme.value| == 0 || g.scheme(scheme.value, 0) != Some(|scheme.value|))
    ensures WithRawScheme(g, v, scheme).Ok? ==>
      var w := WithRawScheme(g, v, scheme).value;
      && w.Valid(g)
      && w.Parts() == v.Parts().(scheme := scheme)
      && w.p.authority == v.p.authority.(offset := v.p.authority.offset - v.p.SchemeEnd() + w.p.SchemeEnd())
  {
    var r := WithRawScheme(g, v, scheme);
    if r.Ok? {
      PartsText(v);
      var x, w := v.Parts(), r.value;
      if scheme.None? {
        DropSchemeText(v.p, v.Parts(), v.data);
      } else {
        PutSchemeText(v.p, v.Parts(), v.data, scheme.value);
      }
      PartsOfText(w.p, x.(scheme := scheme));
      var b := g.authority(x.authority, 0).value;
      assert b.(offset := w.p.authority.offset) == v.p.authority.(offset := w.p.authority.offset);
    }
  }

  // ----- authority -----

  /** The authority bytes replaced by `s`, described by `a` placed at the old authority offset. */
  function PutAuthority(v: IriRef, s: seq<byte>, a: Authority): (r: IriRef)
    requires v.WellFormed()
    ensures r.p.authority.offset == v.p.authority.offset
    ensures |r.data| == |v.data| - v.p.authority.Len() + |s|
  {
    var offset := v.p.authority.offset;
    IriRef(v.p.(authority := a.(offset := offset)), Spliced(v.data, offset, offset + v.p.authority.Len(), s))
  }

  /**
   * `set_authority` as written: an authority accepted whole by the authority scanner replaces
   * the old one, and its parsed descriptor is installed at the old authority offset. No `//`
   * is written in front of it.
   */
  function WithAuthority(g: Grammar, v: IriRef, authority: seq<byte>): (r: Result<IriRef, Error>)
    requires v.WellFormed()
    ensures r.Ok? ==> r.value.p.authority.Len() == |authority|
    ensures r.Ok? ==> |r.value.data| == |v.data| - v.p.authority.Len() + |authority|
  {
    match g.authority(authority, 0)
    case None => Err(Invalid)
    case Some(a) => if a.Len() != |authority| then Err(Invalid) else Ok(PutAuthority(v, authority, a))
  }

  /** Replacing the authority bytes installs the new authority. */
  lemma AuthorityReplaced(x: Components, s: seq<byte>)
    ensures Spliced(x.Text(), |x.Head()|, |x.Head()| + |x.authority|, s) == x.(authority := s).Text()
  {
    var b := x.path + Introduced(QUESTION_MARK, x.query) + Introduced(HASH, x.fragment);
    assert x.Text() == x.Head() + x.authority + b;
    SplicedConcat(x.Head(), x.authority, b, s);
    assert x.(authority := s).Text() == x.Head() + s + b;
  }

  /** The bytes left by installing an authority spell the old components with it. */
  lemma PutAuthorityText(p: ParsedIriRef, x: Components, t: seq<byte>, s: seq<byte>, a: Authority)
    requires IriRef(p, t).WellFormed() && Fits(p, x) && t == x.Text() && a.Len() == |s|
    ensures var w, x' := PutAuthority(IriRef(p, t), s, a), x.(authority := s);
      w.data == x'.Text() && Fits(w.p, x')
  {
    assert |x.Head()| == p.authority.offset;
    AuthorityReplaced(x, s);
  }

  /**
   * `set_authority` as written fails exactly when the authority is not accepted whole by the
   * authority scanner. Otherwise its bytes spell the old components with the new authority,
   * described by the scanner's descriptor at the old offset; the result is well formed
   * exactly when a `//` marker was already there or the new authority is empty, and then it
   * is valid.
   */
  lemma WithAuthorityAsWritten(g: Grammar, v: IriRef, authority: seq<byte>)
    requires v.Valid(g)
    ensures WithAuthority(g, v, authority).Err? <==>
      g.authority(authority, 0).None? || g.authority(authority, 0).value.Len() != |authority|
    ensures WithAuthority(g, v, authority).Ok? ==>
      var w, x' := WithAuthority(g, v, authority).value, v.Parts().(authority := authority);
      && w.data == x'.Text()
      && Fits(w.p, x')
      && w.p.authority == g.authority(authority, 0).value.(offset := v.p.authority.offset)
      && (w.WellFormed() <==> v.Parts().marker != [] || authority == [])
      && (w.WellFormed() ==> w.Valid(g) && w.Parts() == x')
  {
    var r := WithAuthority(g, v, authority);
    if r.Ok? {
      var x := v.Parts();
      PartsText(v);
      PutAuthorityText(v.p, x, v.data, authority, g.authority(authority, 0).value);
      if x.marker != [] || authority == [] {
        PartsOfText(r.value.p, x.(authority := authority));
      }
    }
  }

  /**
   * `set_authority` corrected: as written, except that when there is no `//` marker and the
   * new authority is not empty, `//` is inserted at the authority offset first and the
   * authority follows it.
   */
  function PutMarkedAuthority(v: IriRef, s: seq<byte>, a: Authority): (r: IriRef)
    requires v.WellFormed()
    ensures r.p.authority.offset >= v.p.authority.offset
    ensures |r.data| - r.p.authority.offset == |v.data| - v.p.authority.offset - v.p.authority.Len() + |s|
  {
    var offset := v.p.authority.offset;
    if offset == v.p.SchemeEnd() && |s| > 0 then
      var marked := Spliced(v.data, offset, offset, [SLASH, SLASH]);
      IriRef(v.p.(authority := a.(offset := offset + 2)), Spliced(marked, offset + 2, offset + 2 + v.p.authority.Len(), s))
    else
      PutAuthority(v, s, a)
  }

  /** `set_authority` corrected: validates as written, then installs the authority with its marker. */
  function WithMarkedAuthority(g: Grammar, v: IriRef, authority: seq<byte>): (r: Result<IriRef, Error>)
    requires v.WellFormed()
    ensures r.Ok? ==> r.value.p.authority.Len() == |authority|
    ensures r.Err? <==> WithAuthority(g, v, authority).Err?
  {
    match g.authority(authority, 0)
    case None => Err(Invalid)
    case Some(a) => if a.Len() != |authority| then Err(Invalid) else Ok(PutMarkedAuthority(v, authority, a))
  }

  /** Inserting `//` where there is neither marker nor authority, then the authority after it. */
  lemma AuthorityIntroduced(x: Components, s: seq<byte>)
    requires x.marker == [] && x.authority == []
    ensures var k := |x.Head()|;
      Spliced(Spliced(x.Text(), k, k, [SLASH, SLASH]), k + 2, k + 2, s)
        == x.(marker := [SLASH, SLASH], authority := s).Text()
  {
    var h, b := x.Head(), x.path + Introduced(QUESTION_MARK, x.query) + Introduced(HASH, x.fragment);
    var hm := h + [SLASH, SLASH];
    assert x.Text() == h + [] + b;
    SplicedConcat(h, [], b, [SLASH, SLASH]);
    var first := Spliced(x.Text(), |h|, |h|, [SLASH, SLASH]);
    assert first == hm + [] + b;
    SplicedConcat(hm, [], b, s);
    var y := x.(marker := [SLASH, SLASH], authority := s);
    assert y.Head() == hm;
    assert y.Text() == hm + s + b;
  }

  /** The marker the corrected `set_authority` leaves: `//` in front of a non-empty authority. */
  function MarkerFor(x: Components, s: seq<byte>): seq<byte> {
    if |s| == 0 then x.marker else [SLASH, SLASH]
  }

  /** The bytes left by the corrected `set_authority` spell the old components with the new authority and its marker. */
  lemma PutMarkedAuthorityText(p: ParsedIriRef, x: Components, t: seq<byte>, s: seq<byte>, a: Authority)
    requires IriRef(p, t).WellFormed() && Fits(p, x) && x.Marked() && t == x.Text() && a.Len() == |s|
    ensures var w, x' := PutMarkedAuthority(IriRef(p, t), s, a), x.(marker := MarkerFor(x, s), authority := s);
      w.data == x'.Text() && Fits(w.p, x') && x'.Marked()
  {
    assert |x.Head()| == p.authority.offset;
    if p.authority.offset == p.SchemeEnd() && |s| > 0 {
      AuthorityIntroduced(x, s);
    } else {
      assert x.(marker := MarkerFor(x, s), authority := s) == x.(authority := s);
      AuthorityReplaced(x, s);
    }
  }

  /**
   * The corrected `set_authority` fails exactly when the authority is not accepted whole by
   * the authority scanner; otherwise the result is valid, its authority is the new one,
   * introduced by `//` unless it is empty, described by the scanner's descriptor right after
   * the marker, and every other component is kept.
   */
  lemma WithMarkedAuthoritySpec(g: Grammar, v: IriRef, authority: seq<byte>)
    requires v.Valid(g)
    ensures WithMarkedAuthority(g, v, authority).Err? <==>
      g.authority(authority, 0).None? || g.authority(authority, 0).value.Len() != |authority|
    ensures WithMarkedAuthority(g, v, authority).Ok? ==>
      var w, m := WithMarkedAuthority(g, v, authority).value, MarkerFor(v.Parts(), authority);
      && w.Valid(g)
      && w.Parts() == v.Parts().(marker := m, authority := authority)
      && w.p.authority == g.authority(authority, 0).value.(offset := v.p.authority.offset - |v.Parts().marker| + |m|)
  {
    var r := WithMarkedAuthority(g, v, authority);
    if r.Ok? {
      var x := v.Parts();
      PartsText(v);
      PutMarkedAuthorityText(v.p, x, v.data, authority, g.authority(authority, 0).value);
      PartsOfText(r.value.p, x.(marker := MarkerFor(x, authority), authority := authority));
    }
  }

  // ----- path -----

  /** The path bytes replaced by `s`. */
  function PutPath(v: IriRef, s: seq<byte>): (r: IriRef)
    requires v.WellFormed()
    ensures r.p == v.p.(path_len := |s|)
    ensures |r.data| == |v.data| - v.p.path_len + |s|
  {
    var offset := v.p.PathOffset();
    IriRef(v.p.(path_len := |s|), Spliced(v.data, offset, offset + v.p.path_len, s))
  }

  /** `set_path`: a path accepted whole by the path scanner replaces the old one. */
  function WithPath(g: Grammar, v: IriRef, path: seq<byte>): (r: Result<IriRef, Error>)
    requires v.WellFormed()
    ensures r.Ok? ==> r.value.p == v.p.(path_len := |path|)
    ensures r.Ok? ==> |r.value.data| == |v.data| - v.p.path_len + |path|
  {
    if g.path(path, 0) != Some(|path|) then Err(Invalid) else Ok(PutPath(v, path))
  }

  /** Replacing the path bytes installs the new path. */
  lemma PathReplaced(x: Components, s: seq<byte>)
    ensures var k := |x.Head()| + |x.authority|;
      Spliced(x.Text(), k, k + |x.path|, s) == x.(path := s).Text()
  {
    var a, b := x.Head() + x.authority, Introduced(QUESTION_MARK, x.query) + Introduced(HASH, x.fragment);
    assert x.Text() == a + x.path + b;
    SplicedConcat(a, x.path, b, s);
    assert x.(path := s).Text() == a + s + b;
  }

  /** The bytes left by installing a path spell the old components with it. */
  lemma PutPathText(p: ParsedIriRef, x: Components, t: seq<byte>, s: seq<byte>)
    requires IriRef(p, t).WellFormed() && Fits(p, x) && t == x.Text()
    ensures var w, x' := PutPath(IriRef(p, t), s), x.(path := s);
      w.data == x'.Text() && Fits(w.p, x')
  {
    assert |x.Head()| + |x.authority| == p.PathOffset();
    PathReplaced(x, s);
  }

  /**
   * `set_path` fails exactly when the path is not accepted whole by the path scanner;
   * otherwise the result is valid, its path is the new one and every other byte is kept.
   */
  lemma WithPathSpec(g: Grammar, v: IriRef, path: seq<byte>)
    requires v.Valid(g)
    ensures WithPath(g, v, path).Err? <==> g.path(path, 0) != Some(|path|)
    ensures WithPath(g, v, path).Ok? ==>
      var w := WithPath(g, v, path).value;
      && w.Valid(g)
      && w.Parts() == v.Parts().(path := path)
      && w.p.path_len == |path|
      && w.p.authority == v.p.authority
  {
    var r := WithPath(g, v, path);
    if r.Ok? {
      PartsText(v);
      PutPathText(v.p, v.Parts(), v.data, path);
      PartsOfText(r.value.p, v.Parts().(path := path));
    }
  }

  // ----- query -----

  /** `"?" query` removed, when there is one. */
  function DropQuery(v: IriRef): (r: IriRef)
    requires v.WellFormed()
    ensures r.p == v.p.(query_len := None)
    ensures |r.data| == |v.data| - Delimited(v.p.query_len)
  {
    var p := v.p;
    match p.query_len
    case Some(n) => IriRef(p.(query_len := None), Spliced(v.data, p.QueryOffset() - 1, p.QueryOffset() + n, []))
    case None => IriRef(p.(query_len := None), v.data)
  }

  /** The query bytes replaced by `q`, or `?` and then `q` inserted after the path. */
  function PutQuery(v: IriRef, q: seq<byte>): (r: IriRef)
    requires v.WellFormed()
    ensures r.p == v.p.(query_len := Some(|q|))
    ensures |r.data| == |v.data| - Delimited(v.p.query_len) + |q| + 1
  {
    var p, offset := v.p, v.p.QueryOffset();
    match p.query_len
    case Some(n) => IriRef(p.(query_len := Some(|q|)), Spliced(v.data, offset, offset + n, q))
    case None =>
      IriRef(p.(query_len := Some(|q|)), Spliced(Spliced(v.data, offset, offset, [QUESTION_MARK]), offset + 1, offset + 1, q))
  }

  /**
   * `set_raw_query`: none or an empty query removes the query; a query accepted whole by
   * the query scanner is installed; anything else is `Invalid`.
   */
  function WithRawQuery(g: Grammar, v: IriRef, query: Option<seq<byte>>): (r: Result<IriRef, Error>)
    requires v.WellFormed()
    ensures NonEmpty(query).None? ==> r.Ok?
    ensures r.Ok? ==> r.value.p == v.p.(query_len := LenOf(NonEmpty(query)))
    ensures r.Ok? ==> |r.value.data| - Delimited(r.value.p.query_len) == |v.data| - Delimited(v.p.query_len)
  {
    if query.None? || |query.value| == 0 then Ok(DropQuery(v))
    else if g.query(query.value, 0) != Some(|query.value|) then Err(Invalid)
    else Ok(PutQuery(v, query.value))
  }

  /** Removing `"?" query` from the text of components drops their query. */
  lemma QueryDropped(x: Components)
    requires x.query.Some?
    ensures var k := |x.UpToPath()|;
      Spliced(x.Text(), k, k + 1 + |x.query.value|, []) == x.(query := None).Text()
  {
    SplicedConcat(x.UpToPath(), Introduced(QUESTION_MARK, x.query), Introduced(HASH, x.fragment), []);
  }

  /** Replacing the query bytes (after the `?`) installs the new query. */
  lemma QueryReplaced(x: Components, q: seq<byte>)
    requires x.query.Some?
    ensures var k := |x.UpToPath()| + 1;
      Spliced(x.Text(), k, k + |x.query.value|, q) == x.(query := Some(q)).Text()
  {
    var a, b := x.UpToPath() + [QUESTION_MARK], Introduced(HASH, x.fragment);
    assert x.Text() == a + x.query.value + b;
    SplicedConcat(a, x.query.value, b, q);
  }

  /** Inserting `?` after the path and then the query after it adds the query. */
  lemma QueryInserted(x: Components, q: seq<byte>)
    requires x.query.None?
    ensures var k := |x.UpToPath()|;
      Spliced(Spliced(x.Text(), k, k, [QUESTION_MARK]), k + 1, k + 1, q) == x.(query := Some(q)).Text()
  {
    InsertDelimited(x.UpToPath(), Introduced(HASH, x.fragment), QUESTION_MARK, q);
  }

  /** The bytes left by removing the query spell the old components without it. */
  lemma DropQueryText(p: ParsedIriRef, x: Components, t: seq<byte>)
    requires IriRef(p, t).WellFormed() && Fits(p, x) && t == x.Text()
    ensures var w, x' := DropQuery(IriRef(p, t)), x.(query := None);
      w.data == x'.Text() && Fits(w.p, x')
  {
    assert |x.UpToPath()| == p.PathEnd();
    if p.query_len.Some? {
      QueryDropped(x);
    } else {
      assert x.(query := None) == x;
    }
  }

  /** The bytes left by installing a query spell the old components with it. */
  lemma PutQueryText(p: ParsedIriRef, x: Components, t: seq<byte>, q: seq<byte>)
    requires IriRef(p, t).WellFormed() && Fits(p, x) && t == x.Text()
    ensures var w, x' := PutQuery(IriRef(p, t), q), x.(query := Some(q));
      w.data == x'.Text() && Fits(w.p, x')
  {
    var k := |x.UpToPath()|;
    assert k == p.PathEnd();
    var w := PutQuery(IriRef(p, t), q);
    if p.query_len.Some? {
      assert w.data == Spliced(x.Text(), k + 1, k + 1 + |x.query.value|, q);
      QueryReplaced(x, q);
    } else {
      assert w.data == Spliced(Spliced(x.Text(), k, k, [QUESTION_MARK]), k + 1, k + 1, q);
      QueryInserted(x, q);
    }
  }

  /**
   * `set_raw_query` fails exactly when a non-empty query is not accepted whole by the query
   * scanner; otherwise the result is valid and only its query has changed.
   */
  lemma WithRawQuerySpec(g: Grammar, v: IriRef, query: Option<seq<byte>>)
    requires v.Valid(g)
    ensures WithRawQuery(g, v, query).Err? <==>
      query.Some? && |query.value| > 0 && g.query(query.value, 0) != Some(|query.value|)
    ensures WithRawQuery(g, v, query).Ok? ==>
      var w := WithRawQuery(g, v, query).value;
      && w.Valid(g)
      && w.Parts() == v.Parts().(query := NonEmpty(query))
      && w.p.authority == v.p.authority
  {
    var r := WithRawQuery(g, v, query);
    if r.Ok? {
      PartsText(v);
      if query.None? || |query.value| == 0 {
        DropQueryText(v.p, v.Parts(), v.data);
      } else {
        PutQueryText(v.p, v.Parts(), v.data, query.value);
      }
      PartsOfText(r.value.p, v.Parts().(query := NonEmpty(query)));
    }
  }

  // ----- fragment -----

  /** `"#" fragment` removed, when there is one. */
  function DropFragment(v: IriRef): (r: IriRef)
    requires v.WellFormed()
    ensures r.p == v.p.(fragment_len := None)
    ensures |r.data| == |v.data| - Delimited(v.p.fragment_len)
  {
    var p := v.p;
    match p.fragment_len
    case Some(n) => IriRef(p.(fragment_len := None), Spliced(v.data, p.FragmentOffset() - 1, p.FragmentOffset() + n, []))
    case None => IriRef(p.(fragment_len := None), v.data)
  }

  /** The fragment bytes replaced by `f`, or `#` and then `f` appended. */
  function PutFragment(v: IriRef, f: seq<byte>): (r: IriRef)
    requires v.WellFormed()
    ensures r.p == v.p.(fragment_len := Some(|f|))
    ensures |r.data| == |v.data| - Delimited(v.p.fragment_len) + |f| + 1
  {
    var p, offset := v.p, v.p.FragmentOffset();
    match p.fragment_len
    case Some(n) => IriRef(p.(fragment_len := Some(|f|)), Spliced(v.data, offset, offset + n, f))
    case None =>
      IriRef(p.(fragment_len := Some(|f|)), Spliced(Spliced(v.data, offset, offset, [HASH]), offset + 1, offset + 1, f))
  }

  /**
   * `set_raw_fragment`: none or an empty fragment removes the fragment; a fragment accepted
   * whole by the fragment scanner is installed; anything else is `Invalid`.
   */
  function WithRawFragment(g: Grammar, v: IriRef, fragment: Option<seq<byte>>): (r: Result<IriRef, Error>)
    requires v.WellFormed()
    ensures NonEmpty(fragment).None? ==> r.Ok?
    ensures r.Ok? ==> r.value.p == v.p.(fragment_len := LenOf(NonEmpty(fragment)))
    ensures r.Ok? ==> |r.value.data| - Delimited(r.value.p.fragment_len) == |v.data| - Delimited(v.p.fragment_len)
  {
    if fragment.None? || |fragment.value| == 0 then Ok(DropFragment(v))
    else if g.fragment(fragment.value, 0) != Some(|fragment.value|) then Err(Invalid)
    else Ok(PutFragment(v, fragment.value))
  }

  /** Removing `"#" fragment` from the text of components drops their fragment. */
  lemma FragmentDropped(x: Components)
    requires x.fragment.Some?
    ensures var k := |x.UpToPath()| + |Introduced(QUESTION_MARK, x.query)|;
      Spliced(x.Text(), k, k + 1 + |x.fragment.value|, []) == x.(fragment := None).Text()
  {
    var a := x.UpToPath() + Introduced(QUESTION_MARK, x.query);
    assert x.Text() == a + Introduced(HASH, x.fragment) + [];
    SplicedConcat(a, Introduced(HASH, x.fragment), [], []);
  }

  /** Replacing the fragment bytes (after the `#`) installs the new fragment. */
  lemma FragmentReplaced(x: Components, f: seq<byte>)
    requires x.fragment.Some?
    ensures var k := |x.UpToPath()| + |Introduced(QUESTION_MARK, x.query)| + 1;
      Spliced(x.Text(), k, k + |x.fragment.value|, f) == x.(fragment := Some(f)).Text()
  {
    var a := x.UpToPath() + Introduced(QUESTION_MARK, x.query) + [HASH];
    assert x.Text() == a + x.fragment.value + [];
    SplicedConcat(a, x.fragment.value, [], f);
  }

  /** Inserting `#` at the end and then the fragment after it adds the fragment. */
  lemma FragmentInserted(x: Components, f: seq<byte>)
    requires x.fragment.None?
    ensures var k := |x.UpToPath()| + |Introduced(QUESTION_MARK, x.query)|;
      Spliced(Spliced(x.Text(), k, k, [HASH]), k + 1, k + 1, f) == x.(fragment := Some(f)).Text()
  {
    var a := x.UpToPath() + Introduced(QUESTION_MARK, x.query);
    assert x.Text() == a + [];
    InsertDelimited(a, [], HASH, f);
  }

  /** The bytes left by removing the fragment spell the old components without it. */
  lemma DropFragmentText(p: ParsedIriRef, x: Components, t: seq<byte>)
    requires IriRef(p, t).WellFormed() && Fits(p, x) && t == x.Text()
    ensures var w, x' := DropFragment(IriRef(p, t)), x.(fragment := None);
      w.data == x'.Text() && Fits(w.p, x')
  {
    assert |x.UpToPath()| + |Introduced(QUESTION_MARK, x.query)| == p.PathEnd() + Delimited(p.query_len);
    if p.fragment_len.Some? {
      FragmentDropped(x);
    } else {
      assert x.(fragment := None) == x;
    }
  }

  /** The bytes left by installing a fragment spell the old components with it. */
  lemma PutFragmentText(p: ParsedIriRef, x: Components, t: seq<byte>, f: seq<byte>)
    requires IriRef(p, t).WellFormed() && Fits(p, x) && t == x.Text()
    ensures var w, x' := PutFragment(IriRef(p, t), f), x.(fragment := Some(f));
      w.data == x'.Text() && Fits(w.p, x')
  {
    var k := |x.UpToPath()| + |Introduced(QUESTION_MARK, x.query)|;
    assert k + Delimited(p.fragment_len) == p.Len();
    var w := PutFragment(IriRef(p, t), f);
    if p.fragment_len.Some? {
      assert w.data == Spliced(x.Text(), k + 1, k + 1 + |x.fragment.value|, f);
      FragmentReplaced(x, f);
    } else {
      assert w.data == Spliced(Spliced(x.Text(), k, k, [HASH]), k + 1, k + 1, f);
      FragmentInserted(x, f);
    }
  }

  /**
   * `set_raw_fragment` fails exactly when a non-empty fragment is not accepted whole by the
   * fragment scanner; otherwise the result is valid and only its fragment has changed.
   */
  lemma WithRawFragmentSpec(g: Grammar, v: IriRef, fragment: Option<seq<byte>>)
    requires v.Valid(g)
    ensures WithRawFragment(g, v, fragment).Err? <==>
      fragment.Some? && |fragment.value| > 0 && g.fragment(fragment.value, 0) != Some(|fragment.value|)
    ensures WithRawFragment(g, v, fragment).Ok? ==>
      var w := WithRawFragment(g, v, fragment).value;
      && w.Valid(g)
      && w.Parts() == v.Parts().(fragment := NonEmpty(fragment))
      && w.p.authority == v.p.authority
  {
    var r := WithRawFragment(g, v, fragment);
    if r.Ok? {
      PartsText(v);
      if fragment.None? || |fragment.value| == 0 {
        DropFragmentText(v.p, v.Parts(), v.data);
      } else {
        PutFragmentText(v.p, v.Parts(), v.data, fragment.value);
      }
      PartsOfText(r.value.p, v.Parts().(fragment := NonEmpty(fragment)));
    }
  }

  // ----- repeated and combined edits -----

  /** Removing the scheme always succeeds, and removing it again changes nothing. */
  lemma {:induction false} RemoveSchemeIdempotent(g: Grammar, v: IriRef)
    requires v.Valid(g)
    ensures WithRawScheme(g, v, None).Ok?
    ensures var w := WithRawScheme(g, v, None).value;
      w.WellFormed() && w.p.scheme_len.None? && WithRawScheme(g, w, None) == Ok(w)
  {
    WithRawSchemeSpec(g, v, None);
  }

  /** Inserting a scheme where there was none prefixes `scheme ":"` to the old bytes. */
  lemma {:induction false} InsertSchemeText(g: Grammar, v: IriRef, scheme: seq<byte>)
    requires v.WellFormed() && v.p.scheme_len.None?
    requires WithRawScheme(g, v, Some(scheme)).Ok?
    ensures WithRawScheme(g, v, Some(scheme)).value.data == scheme + [COLON] + v.data
  {
    PrependDelimited(v.data, COLON, scheme);
  }

  /** Replacing an existing scheme rewrites the bytes before its colon and keeps the colon and everything after it. */
  lemma {:induction false} ReplaceSchemeText(g: Grammar, v: IriRef, scheme: seq<byte>)
    requires v.WellFormed() && v.p.scheme_len.Some?
    requires WithRawScheme(g, v, Some(scheme)).Ok?
    ensures WithRawScheme(g, v, Some(scheme)).value.data == scheme + v.data[v.p.scheme_len.value..]
    ensures v.data[v.p.scheme_len.value] == COLON
  {
  }

  /** Removing the query (none or empty given) always succeeds, and removing it again changes nothing. */
  lemma {:induction false} RemoveQueryIdempotent(g: Grammar, v: IriRef, query: Option<seq<byte>>)
    requires v.Valid(g) && (query.None? || |query.value| == 0)
    ensures WithRawQuery(g, v, query).Ok?
    ensures var w := WithRawQuery(g, v, query).value;
      w.WellFormed() && w.p.query_len.None? && WithRawQuery(g, w, query) == Ok(w)
  {
    WithRawQuerySpec(g, v, query);
  }

  /** Removing the fragment (none or empty given) always succeeds, and removing it again changes nothing. */
  lemma {:induction false} RemoveFragmentIdempotent(g: Grammar, v: IriRef, fragment: Option<seq<byte>>)
    requires v.Valid(g) && (fragment.None? || |fragment.value| == 0)
    ensures WithRawFragment(g, v, fragment).Ok?
    ensures var w := WithRawFragment(g, v, fragment).value;
      w.WellFormed() && w.p.fragment_len.None? && WithRawFragment(g, w, fragment) == Ok(w)
  {
    WithRawFragmentSpec(g, v, fragment);
  }

  /** After a successful `set_raw_query`, `query` reads back what was set and the other accessors are unchanged. */
  lemma {:induction false} QueryReadBack(g: Grammar, v: IriRef, query: Option<seq<byte>>)
    requires v.Valid(g) && WithRawQuery(g, v, query).Ok?
    ensures var w := WithRawQuery(g, v, query).value;
      && w.WellFormed()
      && w.Query() == NonEmpty(query)
      && w.Scheme() == v.Scheme() && w.Path() == v.Path() && w.Fragment() == v.Fragment()
      && w.Len() == v.Len() - Delimited(v.p.query_len) + Delimited(LenOf(NonEmpty(query)))
  {
    WithRawQuerySpec(g, v, query);
  }
}
