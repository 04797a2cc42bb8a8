/**
 * The in-place range replacement of an IRI-reference buffer (`replace` in src/lib.rs).
 *
 * A `Vec<u8>` is modelled by the class `Vec`, whose field `elems` the methods reassign.
 */
module Splice {

  newtype byte = b: int | 0 <= b < 0x100

  /** A growable byte vector. */
  class Vec {
    var elems: seq<byte>

    constructor (elems: seq<byte>)
      ensures this.elems == elems
    {
      this.elems := elems;
    }

    /** `Vec::resize`: truncate, or extend with copies of `value`. */
    method Resize(newLen: nat, value: byte)
      modifies this
      ensures |elems| == newLen
      ensures forall k :: 0 <= k < newLen && k < |old(elems)| ==> elems[k] == old(elems)[k]
      ensures forall k :: |old(elems)| <= k < newLen ==> elems[k] == value
    {
      if newLen <= |elems| {
        elems := elems[..newLen];
      } else {
        elems := elems + seq(newLen - |elems|, _ => value);
      }
    }
  }

  /** What `replace` produces: `s` with the range `start..end` replaced by `content`. */
  function Spliced(s: seq<byte>, start: nat, end: nat, content: seq<byte>): (r: seq<byte>)
    requires start <= end <= |s|
    ensures |r| == |s| - (end - start) + |content|
  {
    s[..start] + content + s[end..]
  }

  /**
   * The splice position by position: the prefix before `start` is kept, `content` follows
   * it, and the old tail from `end` on is relocated right after the content.
   */
  lemma SplicedAt(s: seq<byte>, start: nat, end: nat, content: seq<byte>)
    requires start <= end <= |s|
    ensures var r := Spliced(s, start, end, content);
      && (forall k :: 0 <= k < start ==> r[k] == s[k])
      && (forall k :: start <= k < start + |content| ==> r[k] == content[k - start])
      && (forall k :: start + |content| <= k < |r| ==> r[k] == s[k - |content| - start + end])
  {
  }

  /** A replacement of the same length as the range changes nothing outside the range. */
  lemma SplicedInPlace(s: seq<byte>, start: nat, end: nat, content: seq<byte>)
    requires start <= end <= |s| && |content| == end - start
    ensures |Spliced(s, start, end, content)| == |s|
    ensures forall k :: 0 <= k < |s| && !(start <= k < end) ==> Spliced(s, start, end, content)[k] == s[k]
  {
    SplicedAt(s, start, end, content);
  }

  /** Splicing the replaced bytes back over the content undoes a splice. */
  lemma SplicedUndo(s: seq<byte>, start: nat, end: nat, content: seq<byte>)
    requires start <= end <= |s|
    ensures Spliced(Spliced(s, start, end, content), start, start + |content|, s[start..end]) == s
  {
  }

  /** Replacing exactly the middle part of a concatenation swaps that part alone. */
  lemma SplicedConcat(a: seq<byte>, m: seq<byte>, b: seq<byte>, content: seq<byte>)
    ensures Spliced(a + m + b, |a|, |a| + |m|, content) == a + content + b
  {
    var s := a + m + b;
    assert s[..|a|] == a;
    assert s[|a| + |m|..] == b;
  }

  /** Inserting `sep` at `|a|`, then `content` just after it, puts `[sep] + content` between `a` and `b`. */
  lemma {:induction false} InsertDelimited(a: seq<byte>, b: seq<byte>, sep: byte, content: seq<byte>)
    ensures Spliced(Spliced(a + b, |a|, |a|, [sep]), |a| + 1, |a| + 1, content) == a + ([sep] + content) + b
  {
    var first := Spliced(a + b, |a|, |a|, [sep]);
    assert (a + b)[..|a|] == a && (a + b)[|a|..] == b;
    assert first == (a + [sep]) + b;
    assert first[..|a| + 1] == a + [sep];
    assert first[|a| + 1..] == b;
  }

  /** Inserting `sep` at 0, then `content` at 0, prefixes `content + [sep]`. */
  lemma {:induction false} PrependDelimited(s: seq<byte>, sep: byte, content: seq<byte>)
    ensures Spliced(Spliced(s, 0, 0, [sep]), 0, 0, content) == (content + [sep]) + s
  {
    var first := Spliced(s, 0, 0, [sep]);
    assert first == [sep] + s;
    assert first[..0] == [] && first[0..] == first;
  }

  /**
   * `replace(buffer, start..end, content)`: shifts the tail left (forward copy, then
   * truncate) or right (grow, then backward copy) when the length changes, then writes
   * `content` into place.
   */
  method Replace(buffer: Vec, start: nat, end: nat, content: seq<byte>)
    requires start <= end <= |buffer.elems|
    modifies buffer
    ensures buffer.elems == Spliced(old(buffer.elems), start, end, content)
  {
    ghost var s := buffer.elems;
    var rangeLen := end - start;
    var tailLen := |buffer.elems| - end;
    var newEnd := start + |content|;

    if rangeLen != |content| {
      if rangeLen > |content| {
        // shrink: each source index end + i lies ahead of its destination newEnd + i
        for i := 0 to tailLen
          invariant |buffer.elems| == |s|
          invariant forall k :: 0 <= k < newEnd ==> buffer.elems[k] == s[k]
          invariant forall k :: newEnd <= k < newEnd + i ==> buffer.elems[k] == s[k - newEnd + end]
          invariant forall k :: newEnd + i <= k < |s| ==> buffer.elems[k] == s[k]
        {
          buffer.elems := buffer.elems[newEnd + i := buffer.elems[end + i]];
        }
        buffer.Resize(newEnd + tailLen, 0);
      } else {
        // grow: extend first, then copy from the back so unread source bytes survive
        buffer.Resize(newEnd + tailLen, 0);
        for i := 0 to tailLen
          invariant |buffer.elems| == newEnd + tailLen
          invariant forall k :: 0 <= k < newEnd + tailLen - i && k < |s| ==> buffer.elems[k] == s[k]
          invariant forall k :: newEnd + tailLen - i <= k < newEnd + tailLen ==> buffer.elems[k] == s[k - newEnd + end]
        {
          buffer.elems := buffer.elems[newEnd + tailLen - i - 1 := buffer.elems[end + tailLen - i - 1]];
        }
      }
    }

    // the tail sits at newEnd.., the prefix is untouched
    for i := 0 to |content|
      invariant |buffer.elems| == newEnd + tailLen
      invariant forall k :: 0 <= k < start ==> buffer.elems[k] == s[k]
      invariant forall k :: start <= k < start + i ==> buffer.elems[k] == content[k - start]
      invariant forall k :: newEnd <= k < newEnd + tailLen ==> buffer.elems[k] == s[k - newEnd + end]
    {
      buffer.elems := buffer.elems[start + i := content[i]];
    }

    ghost var r := Spliced(s, start, end, content);
    SplicedAt(s, start, end, content);
    assert forall k :: 0 <= k < |r| ==> buffer.elems[k] == r[k];
  }
}
