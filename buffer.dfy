/**
 * The owned IRI reference `IriRefBuf`: a descriptor `p` and the byte vector `data` it
 * describes. Every setter validates its argument with the grammar scanners first and
 * returns `Invalid` with nothing changed; only then does it splice `data` with `replace`
 * and update the descriptor.
 */
module Buffer {
  import opened Wrappers
  import opened Splice
  import opened Parsed
  import opened Reference
  import opened Setters

  class IriRefBuf {
    var p: ParsedIriRef
    const data: Vec
    /** The scanners of the `parsing` module. */
    const parsing: Grammar

    /** The descriptor describes `data` exactly and every component is grammatical. */
    ghost predicate Valid()
      reads this, data
    {
      AsIriRef().Valid(parsing)
    }

    /** `as_iri_ref`: the same descriptor over the same bytes, as a value. */
    function AsIriRef(): IriRef
      reads this, data
    {
      IriRef(p, data.elems)
    }

    /** `new`, given the descriptor the parser produced for `buffer`. */
    constructor (parsing: Grammar, buffer: seq<byte>, p: ParsedIriRef)
      requires IriRef(p, buffer).Valid(parsing)
      ensures Valid() && fresh(data)
      ensures AsIriRef() == IriRef(p, buffer) && this.parsing == parsing
    {
      this.p := p;
      this.parsing := parsing;
      data := new Vec(buffer);
    }

    /** `IriRefBuf::replace`: splices `data` and leaves the descriptor alone. */
    method Replace(start: nat, end: nat, content: seq<byte>)
      requires start <= end <= |data.elems|
      modifies data
      ensures data.elems == Spliced(old(data.elems), start, end, content)
    {
      Splice.Replace(data, start, end, content);
    }

    /** `set_raw_scheme`. */
    method SetRawScheme(scheme: Option<seq<byte>>) returns (r: Result<(), Error>)
      requires Valid()
      modifies this, data
      ensures Valid()
      ensures var e := WithRawScheme(parsing, old(AsIriRef()), scheme);
        && (r.Ok? <==> e.Ok?)
        && (e.Ok? ==> AsIriRef() == e.value)
        && (e.Err? ==> r == Err(Invalid) && AsIriRef() == old(AsIriRef()))
    {
      ghost var v := AsIriRef();
      if scheme.None? {
        if p.scheme_len.Some? {
          var n := p.scheme_len.value;
          Replace(0, n + 1, []);
          // the authority moves left with the bytes after the removed `scheme ":"`
          p := p.(authority := p.authority.(offset := p.authority.offset - (n + 1)));
        }
        p := p.(scheme_len := None);
        assert AsIriRef() == DropScheme(v);
      } else {
        var newScheme := scheme.value;
        var parsed := parsing.scheme(newScheme, 0);
        if parsed.None? {
          return Err(Invalid);
        }
        var newLen := parsed.value;
        if newLen == 0 || newLen != |newScheme| {
          return Err(Invalid);
        }
        if p.scheme_len.Some? {
          var n := p.scheme_len.value;
          Replace(0, n, newScheme);
          p := p.(authority := p.authority.(offset := p.authority.offset - n + newLen));
        } else {
          Replace(0, 0, [COLON]);
          p := p.(authority := p.authority.(offset := p.authority.offset + 1));
          Replace(0, 0, newScheme);
          p := p.(authority := p.authority.(offset := p.authority.offset + newLen));
        }
        p := p.(scheme_len := Some(newLen));
        assert AsIriRef() == PutScheme(v, newScheme);
      }
      WithRawSchemeSpec(parsing, v, scheme);
      r := Ok(());
    }

    /**
     * `set_authority`, with `//` inserted in front of a non-empty authority where the
     * reference has no authority marker yet (the source leaves the marker out).
     */
    method SetAuthority(authority: seq<byte>) returns (r: Result<(), Error>)
      requires Valid()
      modifies this, data
      ensures Valid()
      ensures var e := WithMarkedAuthority(parsing, old(AsIriRef()), authority);
        && (r.Ok? <==> e.Ok?)
        && (e.Ok? ==> AsIriRef() == e.value)
        && (e.Err? ==> r == Err(Invalid) && AsIriRef() == old(AsIriRef()))
    {
      ghost var v := AsIriRef();
      var parsed := parsing.authority(authority, 0);
      if parsed.None? {
        return Err(Invalid);
      }
      var newAuthority := parsed.value;
      if newAuthority.Len() != |authority| {
        return Err(Invalid);
      }
      var offset := p.authority.offset;
      if offset == p.SchemeEnd() && |authority| > 0 {
        Replace(offset, offset, [SLASH, SLASH]);
        offset := offset + 2;
      }
      newAuthority := newAuthority.(offset := offset);
      Replace(offset, offset + p.authority.Len(), authority);
      p := p.(authority := newAuthority);
      assert AsIriRef() == PutMarkedAuthority(v, authority, parsed.value);
      WithMarkedAuthoritySpec(parsing, v, authority);
      r := Ok(());
    }

    /** `set_path`. */
    method SetPath(path: seq<byte>) returns (r: Result<(), Error>)
      requires Valid()
      modifies this, data
      ensures Valid()
      ensures var e := WithPath(parsing, old(AsIriRef()), path);
        && (r.Ok? <==> e.Ok?)
        && (e.Ok? ==> AsIriRef() == e.value)
        && (e.Err? ==> r == Err(Invalid) && AsIriRef() == old(AsIriRef()))
    {
      ghost var v := AsIriRef();
      var parsed := parsing.path(path, 0);
      if parsed.None? {
        return Err(Invalid);
      }
      var newLen := parsed.value;
      if newLen != |path| {
        return Err(Invalid);
      }
      var offset := p.PathOffset();
      Replace(offset, offset + p.path_len, path);
      p := p.(path_len := newLen);
      assert AsIriRef() == PutPath(v, path);
      WithPathSpec(parsing, v, path);
      r := Ok(());
    }

    /** `set_raw_query`. */
    method SetRawQuery(query: Option<seq<byte>>) returns (r: Result<(), Error>)
      requires Valid()
      modifies this, data
      ensures Valid()
      ensures var e := WithRawQuery(parsing, old(AsIriRef()), query);
        && (r.Ok? <==> e.Ok?)
        && (e.Ok? ==> AsIriRef() == e.value)
        && (e.Err? ==> r == Err(Invalid) && AsIriRef() == old(AsIriRef()))
    {
      ghost var v := AsIriRef();
      var offset := p.QueryOffset();
      if query.None? || |query.value| == 0 {
        if p.query_len.Some? {
          Replace(offset - 1, offset + p.query_len.value, []);
          assert data.elems == DropQuery(v).data;
        }
        p := p.(query_len := None);
        assert AsIriRef() == DropQuery(v);
      } else {
        var newQuery := query.value;
        var parsed := parsing.query(newQuery, 0);
        if parsed.None? {
          return Err(Invalid);
        }
        var newLen := parsed.value;
        if newLen != |newQuery| {
          return Err(Invalid);
        }
        if p.query_len.Some? {
          Replace(offset, offset + p.query_len.value, newQuery);
        } else {
          Replace(offset, offset, [QUESTION_MARK]);
          Replace(offset + 1, offset + 1, newQuery);
        }
        assert data.elems == PutQuery(v, newQuery).data;
        p := p.(query_len := Some(newLen));
        assert AsIriRef() == PutQuery(v, newQuery);
      }
      WithRawQuerySpec(parsing, v, query);
      r := Ok(());
    }

    /** `set_raw_fragment`. */
    method SetRawFragment(fragment: Option<seq<byte>>) returns (r: Result<(), Error>)
      requires Valid()
      modifies this, data
      ensures Valid()
      ensures var e := WithRawFragment(parsing, old(AsIriRef()), fragment);
        && (r.Ok? <==> e.Ok?)
        && (e.Ok? ==> AsIriRef() == e.value)
        && (e.Err? ==> r == Err(Invalid) && AsIriRef() == old(AsIriRef()))
    {
      ghost var v := AsIriRef();
      var offset := p.FragmentOffset();
      if fragment.None? || |fragment.value| == 0 {
        if p.fragment_len.Some? {
          Replace(offset - 1, offset + p.fragment_len.value, []);
          assert data.elems == DropFragment(v).data;
        }
        p := p.(fragment_len := None);
        assert AsIriRef() == DropFragment(v);
      } else {
        var newFragment := fragment.value;
        var parsed := parsing.fragment(newFragment, 0);
        if parsed.None? {
          return Err(Invalid);
        }
        var newLen := parsed.value;
        if newLen != |newFragment| {
          return Err(Invalid);
        }
        if p.fragment_len.Some? {
          Replace(offset, offset + p.fragment_len.value, newFragment);
        } else {
          Replace(offset, offset, [HASH]);
          Replace(offset + 1, offset + 1, newFragment);
        }
        p := p.(fragment_len := Some(newLen));
        assert AsIriRef() == PutFragment(v, newFragment);
      }
      WithRawFragmentSpec(parsing, v, fragment);
      r := Ok(());
    }
  }
}
