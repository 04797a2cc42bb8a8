# Owned IRI references: `replace` and `IriRefBuf`

A model of the mutable core of the `iref` crate. It has two parts.

- **`replace`** (`splice.dfy`, module `Splice`) is the splice-with-shift primitive.
  - It replaces `buffer[start..end]` of a `Vec<u8>` with `content`, in place.
  - When the content is shorter than the range, it shifts the tail left with a forward copy and then truncates.
  - When the content is longer, it first grows the buffer and then shifts the tail right with a backward copy.
  - In every case it finally writes the content into place.
  - The vector is a class `Vec` whose `elems` field the method reassigns one index at a time.
  - `Replace` is proved against `Spliced(s, start, end, content) == s[..start] + content + s[end..]`.
- **`IriRefBuf`** (`buffer.dfy`, module `Buffer`) is the owned IRI reference: a descriptor `p` plus the byte vector `data`.
  - The descriptor records `scheme_len`, the authority, `path_len`, `query_len` and `fragment_len` (`parsed.dfy`, module `Parsed`).
  - Its invariant `Valid()` says two things. First, the descriptor describes `data` exactly: the lengths add up, the `:`, `?` and `#` separators sit where the descriptor puts them, and a non-empty authority is introduced by `//`. Second, every component is accepted, whole, by its grammar scanner.
  - Each setter validates its argument first and returns `Invalid` with nothing changed. Only then does it splice `data` with `replace` and update the descriptor.

The meaning of an `IriRefBuf` is stated on values (`reference.dfy`, module `Reference`).

- `IriRef(p, data)` is the pair the class holds; `AsIriRef()` returns it.
- `Parts()` slices it into `Components`: the optional scheme, the `//` marker (or nothing), the authority, the path, and the optional query and fragment.
- `Components.Text()` glues them back: `scheme ":"`, the marker, the authority, the path, `"?" query` and `"#" fragment`.
- `PartsText` and `PartsOfText` prove that slicing and gluing are inverse.

Each setter has a specification function on values (`setters.dfy`, module `Setters`).

- `WithRawScheme`, `WithAuthority`, `WithPath`, `WithRawQuery` and `WithRawFragment` each dispatch to one function per case: `DropX` removes the component, `PutX` installs it.
- A `WithXSpec` lemma proves three things about each setter:
  - exactly when it fails;
  - that on success the result is again valid;
  - that its components are the old ones with the one component replaced.
- Each class method ensures that its new state is the value that function computes, or the old state together with `Err(Invalid)`.
- `set_authority` as written does not write `//` in front of a new authority when there was none (see "Findings").
  - `WithAuthority` models it as written; `findings.dfy` (module `Findings`) proves that it can break the invariant.
  - `WithMarkedAuthority` is the corrected version, and the class method `SetAuthority` follows it.

The grammar scanners of the `parsing` module are not part of this model. They are the function-valued fields of a `Grammar` (`parsed.dfy`). Each takes the bytes and a start offset and returns the number of bytes it consumed, or `None` on failure. The class holds its scanners in the constant field `parsing`.

## Model

| member | source | states |
|---|---|---|
| Splice.Replace | src/lib.rs:213-244 | after the call the buffer is the old prefix before `start`, then `content`, then the old tail from `end` on; the shrink and grow copy loops carry invariants showing that neither overwrites a byte it has not yet moved |
| Splice.Spliced | src/lib.rs:219-232 | the spliced buffer has length `|old| - (end - start) + |content|` |
| Splice.SplicedAt | src/lib.rs:221-243 | position by position: bytes before `start` are unchanged, `content` sits at `start..start+|content|`, and the old tail follows it |
| Splice.SplicedInPlace | src/lib.rs:217-243 | when the content is as long as the range, the length is kept and only bytes inside the range change |
| Splice.SplicedUndo | src/lib.rs:213-244 | splicing the replaced bytes back over the content restores the old buffer, so a splice loses nothing outside its range |
| Splice.SplicedConcat | src/lib.rs:213-244 | replacing exactly the middle part of `a + m + b` yields `a + content + b` |
| Splice.Vec.Resize | src/lib.rs:227 | `resize` sets the length, keeps the prefix and fills any new tail with the fill byte |
| Splice.PrependDelimited | src/reference/buffer.rs:84-85 | inserting `:` at 0 and then the scheme at 0 prefixes `scheme ":"` |
| Splice.InsertDelimited | src/reference/buffer.rs:192-193 | inserting the separator at an offset and then the content right after it places `separator content` there |
| Reference.IriRef.Parts | src/reference/buffer.rs:8-11 | the components sliced out of the bytes have exactly the descriptor's lengths, and the marker is empty or `//` |
| Reference.PartsText | src/reference/buffer.rs:8-11 | a well-formed descriptor cuts the bytes into components that spell the bytes again |
| Reference.PartsOfText | src/reference/buffer.rs:8-11 | the text of components whose lengths a descriptor has is well formed under it, and slices back into those same components |
| Reference.IriRef.Len | src/reference/buffer.rs:29-31 | the descriptor's length is the buffer's length |
| Reference.IriRef.AsStr | src/reference/buffer.rs:33-37 | `data[0..len()]` is the whole text that the components spell |
| Reference.IriRef.Scheme | src/reference/buffer.rs:45-57 | the scheme, or none when it is absent or empty; a returned scheme is followed by `:` at the start of the text |
| Reference.IriRef.Path | src/reference/buffer.rs:133-138 | the bytes right after the authority, `path_len` of them, which are the path component |
| Reference.IriRef.Query | src/reference/buffer.rs:158-171 | the query, or none when it is absent or empty |
| Reference.IriRef.Fragment | src/reference/buffer.rs:206-219 | the fragment, or none when it is absent or empty |
| Setters.DropScheme | src/reference/buffer.rs:68-73 | removing the scheme leaves no scheme, moves the authority offset left by the `scheme ":"` bytes, shortens the buffer by as much, and keeps every other length |
| Setters.PutScheme | src/reference/buffer.rs:81-88 | installing scheme `s` records `|s|` as the scheme length, moves the authority offset and changes the buffer length both by the change in `scheme ":"` bytes, and keeps every other length |
| Setters.WithRawScheme | src/reference/buffer.rs:67-92 | removing the scheme never fails; on success the scheme length is that of the given scheme, and the bytes after `scheme ":"` keep their length |
| Setters.DropSchemeText | src/reference/buffer.rs:68-73 | removing `data[0..scheme_len+1]` leaves the text of the old components without a scheme, and the authority offset moves left by the same amount |
| Setters.PutSchemeText | src/reference/buffer.rs:81-88 | replacing `0..scheme_len`, or inserting `:` and then the scheme at 0, leaves the text of the old components with the new scheme |
| Setters.WithRawSchemeSpec | src/reference/buffer.rs:67-92 | fails exactly when a scheme is given that is empty or that the scanner does not accept whole; otherwise the result is valid, only its scheme has changed, and the authority offset moved by the change in scheme length |
| Setters.RemoveSchemeIdempotent | src/reference/buffer.rs:68-73 | removing the scheme always succeeds, leaves `scheme_len` as none, and a second removal changes nothing |
| Setters.InsertSchemeText | src/reference/buffer.rs:84-85 | with no scheme present, the new bytes are `scheme ":"` followed by the old bytes |
| Setters.ReplaceSchemeText | src/reference/buffer.rs:81-82 | with a scheme present, only the bytes before its colon are rewritten; the colon and everything after it are kept |
| Setters.PutAuthority | src/reference/buffer.rs:126-129 | the new authority stays at the old authority offset, and the buffer length changes by the difference between the new and old authority lengths |
| Setters.WithAuthority | src/reference/buffer.rs:120-131 | `set_authority` as written: on success the authority descriptor has the new authority's length, and the buffer length changes by the difference between the authority lengths |
| Setters.PutAuthorityText | src/reference/buffer.rs:126-129 | replacing the authority bytes leaves the text of the old components with the new authority |
| Setters.WithAuthorityAsWritten | src/reference/buffer.rs:120-131 | fails exactly when the scanner rejects the authority or consumes less than all of it. Otherwise the bytes spell the old components with the new authority, and its descriptor is the parsed one at the old offset. The result is well formed exactly when a `//` marker was there already or the new authority is empty, and then it is valid |
| Setters.PutMarkedAuthority | src/reference/buffer.rs:126-129 | the corrected splice: the authority offset never moves left, and the bytes from the new authority offset on are as many as the new authority plus the old bytes after the old authority |
| Setters.WithMarkedAuthority | src/reference/buffer.rs:120-131 | the corrected `set_authority` fails exactly when the as-written one does; on success the authority descriptor has the new authority's length |
| Setters.AuthorityIntroduced | src/reference/buffer.rs:126-128 | with neither marker nor authority, inserting `//` at the authority offset and the authority after it gives the text of the components with both |
| Setters.PutMarkedAuthorityText | src/reference/buffer.rs:126-129 | the corrected splice leaves the text of the old components with the new authority, introduced by `//` unless it is empty |
| Setters.WithMarkedAuthoritySpec | src/reference/buffer.rs:120-131 | the corrected `set_authority` fails exactly when the scanner rejects the authority or consumes less than all of it. Otherwise the result is valid, its authority is the new one with a `//` marker unless it is empty, the descriptor is the parsed one right after the marker, and every other component is kept |
| Findings.EmptyReferenceValid | src/reference/buffer.rs:8-11 | the empty relative reference is valid under any scanners that accept an empty authority and an empty path, and its components are all empty or absent |
| Findings.SetAuthorityWithoutMarker | src/reference/buffer.rs:126-128 | on a valid reference without `//`, `set_authority` as written accepts any non-empty authority the scanner reads whole, writes it straight after the scheme, and leaves a reference that is not well formed |
| Findings.EmptyReferenceLosesMarker | src/reference/buffer.rs:120-131 | on the empty relative reference, `set_authority` as written succeeds with any non-empty authority the scanners accept (`ab`, say) and leaves its bytes alone, which are not well formed under the new descriptor |
| Setters.PutPath | src/reference/buffer.rs:152-154 | the new descriptor differs from the old one only in `path_len`, which is the new path's length; the buffer length changes by the difference between the path lengths |
| Setters.WithPath | src/reference/buffer.rs:146-156 | on success the descriptor differs only in `path_len`, and the buffer length changes by the difference between the path lengths |
| Setters.PutPathText | src/reference/buffer.rs:152-154 | replacing `data[path_offset..path_offset+path_len]` leaves the text of the old components with the new path |
| Setters.WithPathSpec | src/reference/buffer.rs:146-156 | fails exactly when the scanner does not accept the path whole; otherwise the result is valid, only its path has changed, `path_len` is the new length, and the authority is unchanged |
| Setters.DropQuery | src/reference/buffer.rs:176-181 | removing the query changes the descriptor only in `query_len`, now none, and shortens the buffer by the `"?" query` bytes |
| Setters.PutQuery | src/reference/buffer.rs:189-196 | installing query `q` changes the descriptor only in `query_len`, now `|q|`, and the buffer length changes by the difference in `"?" query` bytes |
| Setters.WithRawQuery | src/reference/buffer.rs:173-200 | none or an empty query never fails; on success the descriptor differs only in `query_len`, which is the length of the query reported as non-empty, and the bytes outside `"?" query` keep their length |
| Setters.DropQueryText | src/reference/buffer.rs:176-181 | removing `offset-1..offset+query_len` deletes `?` and the query, leaving the text of the old components without a query |
| Setters.PutQueryText | src/reference/buffer.rs:189-196 | replacing the query bytes, or inserting `?` and then the query after the path, leaves the text of the old components with the new query |
| Setters.WithRawQuerySpec | src/reference/buffer.rs:173-200 | fails exactly when a non-empty query is not accepted whole; otherwise the result is valid and only its query has changed (to none when none or an empty query is given) |
| Setters.RemoveQueryIdempotent | src/reference/buffer.rs:176-181 | removing the query always succeeds, leaves `query_len` as none, and a second removal changes nothing |
| Setters.QueryReadBack | src/reference/buffer.rs:158-200 | after a successful `set_raw_query`, `query()` returns what was set, `scheme()`, `path()` and `fragment()` return what they did before, and the length changes by the difference in query text |
| Setters.DropFragment | src/reference/buffer.rs:224-229 | removing the fragment changes the descriptor only in `fragment_len`, now none, and shortens the buffer by the `"#" fragment` bytes |
| Setters.PutFragment | src/reference/buffer.rs:237-244 | installing fragment `f` changes the descriptor only in `fragment_len`, now `|f|`, and the buffer length changes by the difference in `"#" fragment` bytes |
| Setters.WithRawFragment | src/reference/buffer.rs:221-248 | none or an empty fragment never fails; on success the descriptor differs only in `fragment_len`, which is the length of the fragment reported as non-empty, and the bytes outside `"#" fragment` keep their length |
| Setters.DropFragmentText | src/reference/buffer.rs:224-229 | removing `offset-1..offset+fragment_len` deletes `#` and the fragment, leaving the text of the old components without a fragment |
| Setters.PutFragmentText | src/reference/buffer.rs:237-244 | replacing the fragment bytes, or appending `#` and then the fragment, leaves the text of the old components with the new fragment |
| Setters.WithRawFragmentSpec | src/reference/buffer.rs:221-248 | fails exactly when a non-empty fragment is not accepted whole; otherwise the result is valid and only its fragment has changed (to none when none or an empty fragment is given) |
| Setters.RemoveFragmentIdempotent | src/reference/buffer.rs:224-229 | removing the fragment always succeeds, leaves `fragment_len` as none, and a second removal changes nothing |
| Buffer.IriRefBuf.constructor | src/reference/buffer.rs:14-19 | a buffer built from bytes and the descriptor the parser produced for them is valid, and holds a fresh copy of those bytes |
| Buffer.IriRefBuf.Replace | src/reference/buffer.rs:59-61 | splices `data` exactly as `replace` does and leaves the descriptor alone |
| Buffer.IriRefBuf.SetRawScheme | src/reference/buffer.rs:67-92 | keeps `Valid()`; on success the state is `WithRawScheme` of the old state; on failure it returns `Invalid` and nothing has changed |
| Buffer.IriRefBuf.SetAuthority | src/reference/buffer.rs:120-131 | the corrected `set_authority`: keeps `Valid()`; on success the state is `WithMarkedAuthority` of the old state, with `//` inserted in front of a new non-empty authority where there was no marker; on failure it returns `Invalid` and nothing has changed |
| Buffer.IriRefBuf.SetPath | src/reference/buffer.rs:146-156 | keeps `Valid()`; on success the state is `WithPath` of the old state; on failure it returns `Invalid` and nothing has changed |
| Buffer.IriRefBuf.SetRawQuery | src/reference/buffer.rs:173-200 | keeps `Valid()`; on success the state is `WithRawQuery` of the old state; on failure it returns `Invalid` and nothing has changed |
| Buffer.IriRefBuf.SetRawFragment | src/reference/buffer.rs:221-248 | keeps `Valid()`; on success the state is `WithRawFragment` of the old state; on failure it returns `Invalid` and nothing has changed |

## Left out

- The `parsing` module is not part of this model.
  - `parse_scheme`, `parse_authority`, `parse_path`, `parse_query` and `parse_fragment` are the abstract scanner fields of `Grammar`. Every setter property holds for any scanners.
  - A scanner failure is modelled as `Invalid`, the single error kind of the crate.
- The offset helpers of `ParsedIriRef` (`path_offset`, `query_offset`, `fragment_offset`, `len`) are not part of this model either. They are defined here as running sums of the component lengths. This is a modelling assumption.
  - The query offset is the end of the path plus one, when a query is present.
  - The fragment offset also adds the `"?" query` bytes before it, and likewise adds one only when a fragment is present.
  - The insert branches at `src/reference/buffer.rs:192-193` and `240-241` put `?` or `#` right after the path or query only because these offsets leave out the separator of an absent component. If the real `query_offset()` added one whether or not a query is present, the separator would land one byte too late.
- `Valid()` is weaker than "the bytes re-parse to the descriptor". It checks each component against its scanner on its own, not in the context the grammar gives it.
  - For example, `set_path` may put a path without a leading `/` behind an authority: `http://a` with path `b` becomes `http://ab`, which is valid here but re-parses with authority `ab`.
  - Rules of the path grammar that depend on the surrounding components are not modelled.
- Buffer.IriRefBuf.Replace: `src/reference/buffer.rs:60` passes the authority descriptor to a four-argument `crate::replace`, but `src/lib.rs:213` defines only the three-argument splice. The model therefore uses the three-argument splice, so the descriptor's authority offset is not fixed up inside `replace`.
  - Buffer.IriRefBuf.SetRawScheme shifts the authority offset explicitly after each splice, because splicing the scheme moves the authority. The amount is the change in the bytes before it.
  - The other setters leave the authority offset where it is. They splice at or after that offset, and `set_authority` installs the offset it read itself.
  - A rule "shift every offset at or after the end of the range" would move an empty authority when an empty path is inserted at its offset. That would break the descriptor, so the model does not adopt it.
- `PctStr` and the unchecked UTF-8 conversions are foreign library calls. The accessors return byte sequences, and `as_pct_str` is not modelled.
- `authority`, `authority_mut` and `path_mut` return views (`Authority`, `AuthorityMut`, `PathMut`) whose types are defined in files that are not part of this model. `path` returns the path bytes rather than a `Path` view.
- `new` wraps the parser, which is not part of this model. The constructor instead takes the bytes together with the descriptor the parser produced for them, and requires that pair to be valid.
- `as_iri_ref` is the value `AsIriRef()`, which has no contract of its own.
- `set_scheme`, `set_query` and `set_fragment` only forward a `str` to the raw setters, so they are not modelled separately.
- `Vec` capacity, reallocation and `usize` arithmetic are not modelled: lengths and offsets are unbounded naturals.
- Buffer.IriRefBuf.SetAuthority: models the corrected `set_authority` (see "Findings"), not the one as written. The as-written behaviour is `Setters.WithAuthority`.

## Findings

| source | as written | input that shows it | evidently intended | confidence | as-written member | corrected member |
|---|---|---|---|---|---|---|
| src/reference/buffer.rs:126-128 | `set_authority` splices the new authority in at the old authority offset and writes no `//` marker in front of it | the empty relative reference, or `foo`, with `set_authority("ab")` gives `ab` or `abfoo`, where the new descriptor claims an authority that no `//` introduces | insert `//` before a non-empty authority where the reference has no marker yet | not executed | Setters.WithAuthorityAsWritten, Findings.SetAuthorityWithoutMarker, Findings.EmptyReferenceLosesMarker | Setters.WithMarkedAuthoritySpec |
