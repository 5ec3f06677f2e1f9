/** The two JavaScript string primitives lib/load.ts relies on:
    `String.prototype.slice` (negative indices count from the end, indices
    past either end are clamped) and `String.prototype.split` on a
    one-character separator. */
module Js {

  /** How `slice` turns one argument into a position in a string of length `len`. */
  function ClampIndex(i: int, len: nat): (k: nat)
    ensures k <= len
  {
    if i < 0 then (if len + i < 0 then 0 else len + i)
    else if i > len then len
    else i
  }

  /** `s.slice(start, end)`. */
  function Slice(s: string, start: int, end: int): (r: string)
    ensures |r| <= |s|
    ensures 0 <= start <= end <= |s| ==> r == s[start..end]
    ensures 0 <= start && |s| <= end ==> r == s[if start <= |s| then start else |s|..]
  {
    var a, b := ClampIndex(start, |s|), ClampIndex(end, |s|);
    if a < b then s[a..b] else ""
  }

  /** A slice `[off, off + len)` is never longer than `len`, wherever `off` points. */
  lemma SliceLengthAtMost(s: string, off: int, len: int)
    requires len >= 0
    ensures |Slice(s, off, off + len)| <= len
  {
  }

  /** Comparing the first `|p|` characters with `p` is the prefix test. */
  lemma SlicePrefix(s: string, p: string)
    ensures Slice(s, 0, |p|) == p <==> p <= s
  {
    if |p| <= |s| {
      assert Slice(s, 0, |p|) == s[..|p|];
    } else {
      assert |Slice(s, 0, |p|)| < |p|;
    }
  }

  /** Glues the parts back together, one separator between neighbours. */
  function Join(parts: seq<string>, sep: char): (s: string)
    requires |parts| >= 1
  {
    if |parts| == 1 then parts[0] else parts[0] + [sep] + Join(parts[1..], sep)
  }

  /** Position of the first `c` in `s`. */
  function IndexOf(s: string, c: char): (i: nat)
    requires c in s
    ensures i < |s| && s[i] == c && c !in s[..i]
  {
    if s[0] == c then 0
    else
      assert c in s[1..];
      var j := IndexOf(s[1..], c);
      assert s[..j + 1] == [s[0]] + s[1..][..j];
      j + 1
  }

  /** `s.split(sep)` for a one-character separator: the maximal runs between
      separators, in order; there is one part more than there are
      separators, so the empty string gives one empty part. */
  function Split(s: string, sep: char): (parts: seq<string>)
    ensures |parts| >= 1
    ensures forall i :: 0 <= i < |parts| ==> sep !in parts[i]
    ensures Join(parts, sep) == s
    ensures |parts| == 1 <==> sep !in s
    decreases |s|
  {
    if sep !in s then [s]
    else
      var i := IndexOf(s, sep);
      var rest := Split(s[i + 1..], sep);
      assert s == s[..i] + [sep] + s[i + 1..];
      assert ([s[..i]] + rest)[1..] == rest;
      [s[..i]] + rest
  }

  /** A separator-free first run becomes the first part, and splitting
      goes on after the separator that ends it. */
  lemma SplitCons(head: string, t: string, sep: char)
    requires sep !in head
    ensures Split(head + [sep] + t, sep) == [head] + Split(t, sep)
  {
    var s := head + [sep] + t;
    assert s[|head|] == sep;
    var i := IndexOf(s, sep);
    assert i == |head|;
    assert s[..i] == head;
    assert s[i + 1..] == t;
  }

  /** The first part is the text before the first separator. */
  lemma SplitFirst(head: string, rest: string, sep: char)
    requires sep !in head
    requires rest == "" || rest[0] == sep
    ensures Split(head + rest, sep)[0] == head
  {
    if rest != "" {
      assert head + rest == head + [sep] + rest[1..];
      SplitCons(head, rest[1..], sep);
    }
  }

  /** Splitting what Join glued together gives back the parts, when no part
      contains the separator. */
  lemma {:induction false} SplitJoin(parts: seq<string>, sep: char)
    requires |parts| >= 1
    requires forall i :: 0 <= i < |parts| ==> sep !in parts[i]
    ensures Split(Join(parts, sep), sep) == parts
    decreases |parts|
  {
    if |parts| > 1 {
      SplitJoin(parts[1..], sep);
      SplitCons(parts[0], Join(parts[1..], sep), sep);
      assert [parts[0]] + parts[1..] == parts;
    }
  }
}
