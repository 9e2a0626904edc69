/** The two JavaScript string operations the home page relies on, for a
    single-character separator: `s.split(c)[0]` and `s.replace(c, d)`, which
    replaces the first occurrence only. `FirstIndex` is the helper both are
    defined with; `StripPrefix` reads a query URL back. */
module Text {
  import opened Optional

  /** The index of the first `c` in `s`, or `|s|` when there is none. */
  function FirstIndex(s: string, c: char): (i: nat)
    ensures i <= |s|
    ensures c !in s[..i]
    ensures i < |s| ==> s[i] == c
    decreases |s|
  {
    if s == [] then 0
    else if s[0] == c then 0
    else 1 + FirstIndex(s[1..], c)
  }

  /** `s.split(c)[0]`: everything before the first `c`. */
  function BeforeFirst(s: string, c: char): (r: string)
    ensures r <= s
    ensures c !in r
    ensures |r| < |s| ==> s[|r|] == c
  {
    s[..FirstIndex(s, c)]
  }

  /** `s.replace(c, d)` with a one-character string pattern: only the first
      occurrence of `c` is replaced. */
  function ReplaceFirst(s: string, c: char, d: char): (r: string)
    ensures |r| == |s|
    ensures forall k :: 0 <= k < |s| ==> r[k] == (if k == FirstIndex(s, c) then d else s[k])
  {
    var i := FirstIndex(s, c);
    if i == |s| then s else s[..i] + [d] + s[i + 1..]
  }

  /** In `head + [c] + tail` with no `c` in `head`, the first `c` is the
      one after `head`. */
  lemma FirstIndexOfJoin(head: string, c: char, tail: string)
    requires c !in head
    ensures FirstIndex(head + [c] + tail, c) == |head|
  {
    var s := head + [c] + tail;
    assert s[|head|] == c;
    assert forall k :: 0 <= k < |head| ==> s[k] == head[k] != c;
  }

  /** Whatever follows the first `c` does not change what comes before it. */
  lemma BeforeFirstOfJoin(head: string, c: char, tail: string)
    requires c !in head
    ensures BeforeFirst(head + [c] + tail, c) == head
  {
    FirstIndexOfJoin(head, c, tail);
    assert (head + [c] + tail)[..|head|] == head;
  }

  /** The same when the `c` opens a longer separator. */
  lemma BeforeFirstOfSeparated(head: string, sep: string, tail: string, c: char)
    requires c !in head && sep != [] && sep[0] == c
    ensures BeforeFirst(head + sep + tail, c) == head
  {
    assert head + sep + tail == head + [c] + (sep[1..] + tail);
    BeforeFirstOfJoin(head, c, sep[1..] + tail);
  }

  /** `s` with the prefix `p` removed, when `s` starts with `p`. */
  function StripPrefix(p: string, s: string): (r: Option<string>)
    ensures r.Some? <==> p <= s
    ensures r.Some? ==> s == p + r.value
  {
    if |s| < |p| || s[..|p|] != p then None else Some(s[|p|..])
  }

  /** Stripping a prefix undoes prepending it. */
  lemma StripPrefixOfJoin(p: string, t: string)
    ensures StripPrefix(p, p + t) == Some(t)
  {
    assert (p + t)[..|p|] == p;
    assert (p + t)[|p|..] == t;
  }

  /** Replacing the first `c` in `head + [c] + tail`. */
  lemma ReplaceFirstOfJoin(head: string, c: char, tail: string, d: char)
    requires c !in head
    ensures ReplaceFirst(head + [c] + tail, c, d) == head + [d] + tail
  {
    FirstIndexOfJoin(head, c, tail);
  }

  /** Without a `c` there is nothing to replace. */
  lemma ReplaceFirstAbsent(s: string, c: char, d: char)
    requires c !in s
    ensures ReplaceFirst(s, c, d) == s
  {
    assert FirstIndex(s, c) == |s|;
  }

  /** With at most one `c` in `s`, replacing the first one leaves none. */
  lemma ReplaceOnlyOccurrence(s: string, c: char, d: char)
    requires c != d
    requires forall i, j :: 0 <= i < j < |s| && s[i] == c ==> s[j] != c
    ensures c !in ReplaceFirst(s, c, d)
  {
    var r := ReplaceFirst(s, c, d);
    var i := FirstIndex(s, c);
    forall k | 0 <= k < |r| ensures r[k] != c {
      if k < i {
        assert s[..i][k] == s[k];
      }
    }
  }
}
