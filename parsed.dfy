/**
 * The component descriptor of an IRI reference (`ParsedIriRef` and `ParsedAuthority` of the
 * crate's `parsing` module) and the interface of that module's grammar scanners.
 *
 * The `parsing` module is not part of this model. Its offset helpers are defined here as
 * running sums of the component lengths plus one separator byte per present optional
 * component; its scanners are the function-valued fields of `Grammar`.
 */
module Parsed {
  import opened Wrappers
  import opened Splice

  /** Length of an optional component together with its one-byte separator. */
  function Delimited(len: Option<nat>): nat {
    match len
    case None => 0
    case Some(n) => n + 1
  }

  /** `userinfo "@"`, host, `":" port`, starting at byte `offset` of the buffer. */
  datatype Authority = Authority(offset: nat, userinfo_len: Option<nat>, host_len: nat, port_len: Option<nat>) {
    function Len(): nat {
      Delimited(userinfo_len) + host_len + Delimited(port_len)
    }
  }

  /** `[scheme ":"] ["//" authority] path ["?" query] ["#" fragment]` as lengths. */
  datatype ParsedIriRef = ParsedIriRef(
    scheme_len: Option<nat>,
    authority: Authority,
    path_len: nat,
    query_len: Option<nat>,
    fragment_len: Option<nat>)
  {
    /** First byte after `scheme ":"`. */
    function SchemeEnd(): nat {
      Delimited(scheme_len)
    }

    function PathOffset(): nat {
      authority.offset + authority.Len()
    }

    function PathEnd(): nat {
      PathOffset() + path_len
    }

    /** First byte of the query, after its `?` when there is one. */
    function QueryOffset(): nat {
      PathEnd() + if query_len.Some? then 1 else 0
    }

    /** First byte of the fragment, after its `#` when there is one. */
    function FragmentOffset(): nat {
      PathEnd() + Delimited(query_len) + if fragment_len.Some? then 1 else 0
    }

    function Len(): nat {
      PathEnd() + Delimited(query_len) + Delimited(fragment_len)
    }
  }

  /**
   * The scanners `parse_scheme`, `parse_authority`, `parse_path`, `parse_query` and
   * `parse_fragment`: given bytes and a start offset, the length of the longest match
   * (or the parsed authority), or `None` when nothing matches.
   */
  datatype Grammar = Grammar(
    scheme: (seq<byte>, nat) -> Option<nat>,
    authority: (seq<byte>, nat) -> Option<Authority>,
    path: (seq<byte>, nat) -> Option<nat>,
    query: (seq<byte>, nat) -> Option<nat>,
    fragment: (seq<byte>, nat) -> Option<nat>)
}
