/**
 * An IRI reference as a value: a descriptor together with the bytes it describes (the
 * pair an `IriRefBuf` holds), its accessors, and what each setter of `IriRefBuf` makes of it.
 */
module Reference {
  import opened Wrappers
  import opened Splice
  import opened Parsed

  const COLON: byte := 0x3a
  const SLASH: byte := 0x2f
  const QUESTION_MARK: byte := 0x3f
  const HASH: byte := 0x23

  /** `scheme ":"`, or nothing. */
  function SchemeText(scheme: Option<seq<byte>>): (r: seq<byte>)
    ensures |r| == Delimited(LenOf(scheme))
  {
    match scheme
    case None => []
    case Some(s) => s + [COLON]
  }

  /** `sep part`, or nothing. */
  function Introduced(sep: byte, part: Option<seq<byte>>): (r: seq<byte>)
    ensures |r| == Delimited(LenOf(part))
  {
    match part
    case None => []
    case Some(x) => [sep] + x
  }

  function LenOf(part: Option<seq<byte>>): Option<nat> {
    match part
    case None => None
    case Some(x) => Some(|x|)
  }

  /** What the accessors report: an absent and an empty component are both `None`. */
  function NonEmpty(part: Option<seq<byte>>): Option<seq<byte>> {
    match part
    case Some(x) => if |x| > 0 then part else None
    case None => None
  }

  /** The bytes `//` that introduce an authority, or nothing. */
  predicate IsMarker(m: seq<byte>) {
    m == [] || m == [SLASH, SLASH]
  }

  /** The components of an IRI reference, each as its own bytes. */
  datatype Components = Components(
    scheme: Option<seq<byte>>,
    marker: seq<byte>,
    authority: seq<byte>,
    path: seq<byte>,
    query: Option<seq<byte>>,
    fragment: Option<seq<byte>>)
  {
    /** The text before the authority: `scheme ":"` and the marker. */
    function Head(): seq<byte> {
      SchemeText(scheme) + marker
    }

    /** The text up to the end of the path. */
    function UpToPath(): seq<byte> {
      Head() + authority + path
    }

    /** The text the components spell, separators included. */
    function Text(): seq<byte> {
      UpToPath() + Introduced(QUESTION_MARK, query) + Introduced(HASH, fragment)
    }

    /** The marker is `//` or nothing, and without it there is no authority. */
    predicate Marked() {
      IsMarker(marker) && (marker == [] ==> authority == [])
    }
  }

  /** The descriptor `p` has exactly the lengths of the components `x`. */
  predicate Fits(p: ParsedIriRef, x: Components) {
    && p.scheme_len == LenOf(x.scheme)
    && p.authority.offset == p.SchemeEnd() + |x.marker|
    && p.authority.Len() == |x.authority|
    && p.path_len == |x.path|
    && p.query_len == LenOf(x.query)
    && p.fragment_len == LenOf(x.fragment)
  }

  /** Every component is accepted, whole, by its scanner; `a` is the parsed authority. */
  predicate Conforms(g: Grammar, x: Components, a: Authority) {
    && (x.scheme.Some? ==> g.scheme(x.scheme.value, 0) == Some(|x.scheme.value|))
    && g.authority(x.authority, 0).Some?
    && g.authority(x.authority, 0).value.(offset := a.offset) == a
    && g.path(x.path, 0) == Some(|x.path|)
    && (x.query.Some? ==> g.query(x.query.value, 0) == Some(|x.query.value|))
    && (x.fragment.Some? ==> g.fragment(x.fragment.value, 0) == Some(|x.fragment.value|))
  }

  /** A descriptor `p` over the bytes `data` (the fields of `IriRefBuf`). */
  datatype IriRef = IriRef(p: ParsedIriRef, data: seq<byte>) {

    /** The descriptor's lengths add up to the buffer, its separators are in place, and a non-empty authority is introduced by `//`. */
    predicate WellFormed() {
      && p.SchemeEnd() <= p.authority.offset
      && |data| == p.Len()
      && (p.scheme_len.Some? ==> data[p.scheme_len.value] == COLON)
      && IsMarker(data[p.SchemeEnd()..p.authority.offset])
      && (p.authority.offset == p.SchemeEnd() ==> p.authority.Len() == 0)
      && (p.query_len.Some? ==> data[p.QueryOffset() - 1] == QUESTION_MARK)
      && (p.fragment_len.Some? ==> data[p.FragmentOffset() - 1] == HASH)
    }

    /** The components, sliced out of `data` through the descriptor. */
    function Parts(): (x: Components)
      requires WellFormed()
      ensures Fits(p, x) && x.Marked()
    {
      Components(
        if p.scheme_len.Some? then Some(data[..p.scheme_len.value]) else None,
        data[p.SchemeEnd()..p.authority.offset],
        data[p.authority.offset..p.PathOffset()],
        data[p.PathOffset()..p.PathEnd()],
        if p.query_len.Some? then Some(data[p.QueryOffset()..p.QueryOffset() + p.query_len.value]) else None,
        if p.fragment_len.Some? then Some(data[p.FragmentOffset()..p.FragmentOffset() + p.fragment_len.value]) else None)
    }

    /** The invariant of `IriRefBuf`: the descriptor describes the bytes, which the grammar accepts. */
    predicate Valid(g: Grammar) {
      WellFormed() && Conforms(g, Parts(), p.authority)
    }

    /** `len`: the descriptor's length is the buffer's. */
    function Len(): (n: nat)
      requires WellFormed()
      ensures n == |data|
    {
      p.Len()
    }

    /** `as_str`: the whole text, which the components spell. */
    function AsStr(): (s: seq<byte>)
      requires WellFormed()
      ensures s == Parts().Text()
    {
      PartsText(this);
      data[0..Len()]
    }

    /** `scheme`: the scheme, unless it is absent or empty. */
    function Scheme(): (r: Option<seq<byte>>)
      requires WellFormed()
      ensures r == NonEmpty(Parts().scheme)
      ensures r.Some? ==> r.value + [COLON] <= AsStr()
    {
      match p.scheme_len
      case Some(n) => if n > 0 then Some(data[0..n]) else None
      case None => None
    }

    /** `path`: the bytes after the authority, `path_len` of them. */
    function Path(): (r: seq<byte>)
      requires WellFormed()
      ensures r == Parts().path && |r| == p.path_len
    {
      var offset := p.authority.offset + p.authority.Len();
      data[offset..offset + p.path_len]
    }

    /** `query`: the query, unless it is absent or empty. */
    function Query(): (r: Option<seq<byte>>)
      requires WellFormed()
      ensures r == NonEmpty(Parts().query)
    {
      match p.query_len
      case Some(n) => if n > 0 then Some(data[p.QueryOffset()..p.QueryOffset() + n]) else None
      case None => None
    }

    /** `fragment`: the fragment, unless it is absent or empty. */
    function Fragment(): (r: Option<seq<byte>>)
      requires WellFormed()
      ensures r == NonEmpty(Parts().fragment)
    {
      match p.fragment_len
      case Some(n) => if n > 0 then Some(data[p.FragmentOffset()..p.FragmentOffset() + n]) else None
      case None => None
    }
  }

  /** Cutting a sequence at five ordered points and gluing the six pieces gives it back. */
  lemma SixCuts(d: seq<byte>, o1: nat, o2: nat, o3: nat, o4: nat, o5: nat)
    requires o1 <= o2 <= o3 <= o4 <= o5 <= |d|
    ensures d == d[..o1] + d[o1..o2] + d[o2..o3] + d[o3..o4] + d[o4..o5] + d[o5..]
  {
    assert d[..o2] == d[..o1] + d[o1..o2];
    assert d[..o3] == d[..o2] + d[o2..o3];
    assert d[..o4] == d[..o3] + d[o3..o4];
    assert d[..o5] == d[..o4] + d[o4..o5];
    assert d == d[..o5] + d[o5..];
  }

  /** The six pieces of a concatenation are found back at their running offsets. */
  lemma SixPieces(a: seq<byte>, b: seq<byte>, c: seq<byte>, d: seq<byte>, e: seq<byte>, f: seq<byte>)
    ensures var t, o1 := a + b + c + d + e + f, |a|;
      var o2 := o1 + |b|; var o3 := o2 + |c|; var o4 := o3 + |d|; var o5 := o4 + |e|;
      && |t| == o5 + |f|
      && t[..o1] == a && t[o1..o2] == b && t[o2..o3] == c
      && t[o3..o4] == d && t[o4..o5] == e && t[o5..] == f
  {
    var t1 := a + b;
    var t2 := t1 + c;
    var t3 := t2 + d;
    var t4 := t3 + e;
    var t := t4 + f;
    assert t[..|t4|] == t4 && t[|t4|..] == f;
    assert t4[..|t3|] == t3 && t4[|t3|..] == e;
    assert t3[..|t2|] == t2 && t3[|t2|..] == d;
    assert t2[..|t1|] == t1 && t2[|t1|..] == c;
    assert t1[..|a|] == a && t1[|a|..] == b;
    assert t[|t3|..|t4|] == t4[|t3|..];
    assert t[|t2|..|t3|] == t3[|t2|..];
    assert t[|t1|..|t2|] == t2[|t1|..];
    assert t[|a|..|t1|] == t1[|a|..];
    assert t[..|a|] == t1[..|a|];
  }

  /** Bytes laid out as the components `x`, at the offsets of a descriptor that fits `x`. */
  predicate LaidOut(p: ParsedIriRef, x: Components, t: seq<byte>)
    requires Fits(p, x)
  {
    && |t| == p.Len()
    && t[..p.SchemeEnd()] == SchemeText(x.scheme)
    && t[p.SchemeEnd()..p.authority.offset] == x.marker
    && t[p.authority.offset..p.PathOffset()] == x.authority
    && t[p.PathOffset()..p.PathEnd()] == x.path
    && t[p.PathEnd()..p.PathEnd() + Delimited(p.query_len)] == Introduced(QUESTION_MARK, x.query)
    && t[p.PathEnd() + Delimited(p.query_len)..] == Introduced(HASH, x.fragment)
  }

  /** A scheme cut off before its colon, with the colon, is the first `n + 1` bytes. */
  lemma SchemeCut(d: seq<byte>, n: nat)
    requires n < |d| && d[n] == COLON
    ensures d[..n + 1] == SchemeText(Some(d[..n]))
  {
    assert d[..n + 1] == d[..n] + [d[n]];
  }

  /** A part cut off after its separator, with the separator, is the bytes `o..e`. */
  lemma SeparatorCut(d: seq<byte>, o: nat, e: nat, sep: byte)
    requires o < e <= |d| && d[o] == sep
    ensures d[o..e] == Introduced(sep, Some(d[o + 1..e]))
  {
    assert d[o..e] == [d[o]] + d[o + 1..e];
  }

  /** The bytes of a well-formed IRI reference are laid out as its components. */
  lemma LayoutOfParts(v: IriRef)
    requires v.WellFormed()
    ensures LaidOut(v.p, v.Parts(), v.data)
  {
    var p, d, x := v.p, v.data, v.Parts();
    if p.scheme_len.Some? {
      SchemeCut(d, p.scheme_len.value);
    }
    assert d[..p.SchemeEnd()] == SchemeText(x.scheme);
    QueryLayout(v);
    FragmentLayout(v);
  }

  lemma QueryLayout(v: IriRef)
    requires v.WellFormed()
    ensures v.data[v.p.PathEnd()..v.p.PathEnd() + Delimited(v.p.query_len)] == Introduced(QUESTION_MARK, v.Parts().query)
  {
    var p, d := v.p, v.data;
    var o4, o5 := p.PathEnd(), p.PathEnd() + Delimited(p.query_len);
    if p.query_len.Some? {
      assert p.QueryOffset() == o4 + 1 && p.QueryOffset() + p.query_len.value == o5;
      SeparatorCut(d, o4, o5, QUESTION_MARK);
    }
  }

  lemma FragmentLayout(v: IriRef)
    requires v.WellFormed()
    ensures v.data[v.p.PathEnd() + Delimited(v.p.query_len)..] == Introduced(HASH, v.Parts().fragment)
  {
    var p, d := v.p, v.data;
    var o5 := p.PathEnd() + Delimited(p.query_len);
    if p.fragment_len.Some? {
      assert p.FragmentOffset() == o5 + 1 && p.FragmentOffset() + p.fragment_len.value == |d|;
      SeparatorCut(d, o5, |d|, HASH);
      assert d[o5..] == d[o5..|d|];
    } else {
      assert o5 == |d|;
    }
  }

  /** Bytes laid out as components are the text those components spell. */
  lemma TextOfLayout(p: ParsedIriRef, x: Components, t: seq<byte>)
    requires Fits(p, x) && LaidOut(p, x, t)
    ensures t == x.Text()
  {
    SixCuts(t, p.SchemeEnd(), p.authority.offset, p.PathOffset(), p.PathEnd(), p.PathEnd() + Delimited(p.query_len));
  }

  /** The components of a well-formed IRI reference spell its bytes exactly. */
  lemma PartsText(v: IriRef)
    requires v.WellFormed()
    ensures v.Parts().Text() == v.data
  {
    LayoutOfParts(v);
    TextOfLayout(v.p, v.Parts(), v.data);
  }

  /** The text of components is laid out at the offsets of a descriptor that fits them. */
  lemma TextPieces(p: ParsedIriRef, x: Components)
    requires Fits(p, x)
    ensures LaidOut(p, x, x.Text())
  {
    SixPieces(SchemeText(x.scheme), x.marker, x.authority, x.path, Introduced(QUESTION_MARK, x.query), Introduced(HASH, x.fragment));
  }

  /** A `scheme ":"` piece at the start of `t` puts the scheme before a colon. */
  lemma SchemeAt(t: seq<byte>, scheme: Option<seq<byte>>)
    requires |SchemeText(scheme)| <= |t| && t[..|SchemeText(scheme)|] == SchemeText(scheme)
    ensures scheme.Some? ==> t[|scheme.value|] == COLON && t[..|scheme.value|] == scheme.value
  {
    if scheme.Some? {
      var n := |scheme.value|;
      assert t[..n] == t[..n + 1][..n];
    }
  }

  /** A `sep part` piece at offset `o` of `t` puts the part right after the separator. */
  lemma IntroducedAt(t: seq<byte>, o: nat, sep: byte, part: Option<seq<byte>>)
    requires o + |Introduced(sep, part)| <= |t| && t[o..o + |Introduced(sep, part)|] == Introduced(sep, part)
    ensures part.Some? ==> t[o] == sep && t[o + 1..o + 1 + |part.value|] == part.value
  {
    if part.Some? {
      var n := |part.value|;
      assert t[o + 1..o + 1 + n] == t[o..o + 1 + n][1..];
    }
  }

  /** Bytes laid out as components, with a proper authority marker, are well formed. */
  lemma WellFormedLayout(p: ParsedIriRef, x: Components, t: seq<byte>)
    requires Fits(p, x) && x.Marked() && LaidOut(p, x, t)
    ensures IriRef(p, t).WellFormed()
  {
    var o4 := p.PathEnd();
    var o5 := o4 + Delimited(p.query_len);
    assert |SchemeText(x.scheme)| == p.SchemeEnd();
    SchemeAt(t, x.scheme);
    IntroducedAt(t, o4, QUESTION_MARK, x.query);
    assert t[o5..] == t[o5..|t|];
    IntroducedAt(t, o5, HASH, x.fragment);
  }

  /** The scheme sliced out of bytes laid out as `x` is the scheme of `x`. */
  lemma SchemeOfLayout(p: ParsedIriRef, x: Components, t: seq<byte>)
    requires Fits(p, x) && LaidOut(p, x, t)
    ensures (if p.scheme_len.Some? then Some(t[..p.scheme_len.value]) else None) == x.scheme
  {
    SchemeAt(t, x.scheme);
  }

  /** The query sliced out of bytes laid out as `x` is the query of `x`. */
  lemma QueryOfLayout(p: ParsedIriRef, x: Components, t: seq<byte>)
    requires Fits(p, x) && LaidOut(p, x, t)
    ensures p.QueryOffset() + Delimited(p.query_len) <= |t| + 1
    ensures (if p.query_len.Some? then Some(t[p.QueryOffset()..p.QueryOffset() + p.query_len.value]) else None) == x.query
  {
    IntroducedAt(t, p.PathEnd(), QUESTION_MARK, x.query);
  }

  /** The fragment sliced out of bytes laid out as `x` is the fragment of `x`. */
  lemma FragmentOfLayout(p: ParsedIriRef, x: Components, t: seq<byte>)
    requires Fits(p, x) && LaidOut(p, x, t)
    ensures p.FragmentOffset() + Delimited(p.fragment_len) <= |t| + 1
    ensures (if p.fragment_len.Some? then Some(t[p.FragmentOffset()..p.FragmentOffset() + p.fragment_len.value]) else None) == x.fragment
  {
    var o5 := p.PathEnd() + Delimited(p.query_len);
    assert o5 + |Introduced(HASH, x.fragment)| == |t|;
    assert t[o5..] == t[o5..|t|];
    IntroducedAt(t, o5, HASH, x.fragment);
  }

  /** Bytes laid out as components are sliced back into exactly those components. */
  lemma PartsOfLayout(p: ParsedIriRef, x: Components, t: seq<byte>)
    requires Fits(p, x) && x.Marked() && LaidOut(p, x, t)
    ensures IriRef(p, t).WellFormed() && IriRef(p, t).Parts() == x
  {
    WellFormedLayout(p, x, t);
    SchemeOfLayout(p, x, t);
    QueryOfLayout(p, x, t);
    FragmentOfLayout(p, x, t);
  }

  /** Bytes spelled by components whose lengths a descriptor has are described by it. */
  lemma PartsOfText(p: ParsedIriRef, x: Components)
    requires Fits(p, x) && x.Marked()
    ensures IriRef(p, x.Text()).WellFormed()
    ensures IriRef(p, x.Text()).Parts() == x
  {
    TextPieces(p, x);
    PartsOfLayout(p, x, x.Text());
  }
}
