/** `matches.sort(comparator)` on the home page (app/page.tsx:72-80).
    `Array.prototype.sort` is stable, so with a consistent comparator its
    result is fully determined: the matches in comparator order, tied
    matches in their original order. The model sorts in place by insertion,
    shifting an element left past every element the comparator puts after
    it, and proves that it yields exactly that result. */
module MatchSort {
  import opened Matches
  import opened MatchOrder

  /** Inserts `x` into `t` from the right: `x` is placed after the last
      element the comparator does not put after it. */
  function Insert(t: seq<Match>, x: Match): (r: seq<Match>)
    ensures |r| == |t| + 1
    decreases |t|
  {
    if t == [] then [x]
    else if Compare(t[|t| - 1], x) > 0 then Insert(t[..|t| - 1], x) + [t[|t| - 1]]
    else t + [x]
  }

  /** The specification of the sort: insert each match in turn, first to last. */
  function SortSpec(s: seq<Match>): (r: seq<Match>)
    ensures |r| == |s|
    decreases |s|
  {
    if s == [] then [] else Insert(SortSpec(s[..|s| - 1]), s[|s| - 1])
  }

  /** The matches of `s` that are tied with `k`, in the order they occur in `s`. */
  function Tied(s: seq<Match>, k: Match): (r: seq<Match>)
    ensures |r| <= |s|
    decreases |s|
  {
    if s == [] then []
    else Tied(s[..|s| - 1], k) + (if SameKey(s[|s| - 1], k) then [s[|s| - 1]] else [])
  }

  /** A reordering is stable when, for every key, the tied matches keep
      their relative order. */
  ghost predicate StableReorder(s: seq<Match>, r: seq<Match>)
  {
    forall k :: Tied(r, k) == Tied(s, k)
  }

  lemma {:induction false} TiedAppend(a: seq<Match>, b: seq<Match>, k: Match)
    ensures Tied(a + b, k) == Tied(a, k) + Tied(b, k)
    decreases |b|
  {
    if b == [] {
      assert a + b == a;
    } else {
      var b' := b[..|b| - 1];
      assert (a + b)[..|a + b| - 1] == a + b';
      TiedAppend(a, b', k);
    }
  }

  lemma {:induction false} InsertPermutes(t: seq<Match>, x: Match)
    ensures multiset(Insert(t, x)) == multiset(t) + multiset{x}
    decreases |t|
  {
    if t != [] && Compare(t[|t| - 1], x) > 0 {
      var t' := t[..|t| - 1];
      InsertPermutes(t', x);
      assert t == t' + [t[|t| - 1]];
    }
  }

  lemma {:induction false} InsertSorted(t: seq<Match>, x: Match)
    requires Sorted(t)
    ensures Sorted(Insert(t, x))
    decreases |t|
  {
    if t == [] {
    } else {
      var last := t[|t| - 1];
      if Compare(last, x) > 0 {
        var t' := t[..|t| - 1];
        InsertSorted(t', x);
        InsertPermutes(t', x);
        var r' := Insert(t', x);
        forall e | e in r' ensures Before(e, last) {
          assert e in multiset(r');
          if e != x {
            assert e in multiset(t');
            var i :| 0 <= i < |t'| && t'[i] == e;
            assert t[i] == e;
          }
        }
        var r := r' + [last];
        forall i, j | 0 <= i < j < |r| ensures Before(r[i], r[j]) {
          if j == |r| - 1 {
            assert r[i] in r';
          } else {
            assert r[i] == r'[i] && r[j] == r'[j];
          }
        }
      } else {
        var r := t + [x];
        forall i, j | 0 <= i < j < |r| ensures Before(r[i], r[j]) {
          if j == |r| - 1 {
            BeforeTotalPreorder(t[i], last, x);
          }
        }
      }
    }
  }

  lemma TiedSingle(e: Match, k: Match)
    ensures Tied([e], k) == if SameKey(e, k) then [e] else []
  {
    assert [e][..0] == [];
  }

  lemma {:induction false} InsertStable(t: seq<Match>, x: Match, k: Match)
    ensures Tied(Insert(t, x), k) == Tied(t + [x], k)
    decreases |t|
  {
    if t != [] && Compare(t[|t| - 1], x) > 0 {
      var last := t[|t| - 1];
      var t' := t[..|t| - 1];
      assert t == t' + [last];
      TiedSingle(last, k);
      TiedSingle(x, k);
      calc {
        Tied(Insert(t, x), k);
        Tied(Insert(t', x) + [last], k);
        { TiedAppend(Insert(t', x), [last], k); }
        Tied(Insert(t', x), k) + Tied([last], k);
        { InsertStable(t', x, k); }
        Tied(t' + [x], k) + Tied([last], k);
        { TiedAppend(t', [x], k); }
        Tied(t', k) + Tied([x], k) + Tied([last], k);
        // `last` and `x` are not tied, so at most one of them is kept
        Tied(t', k) + Tied([last], k) + Tied([x], k);
        { TiedAppend(t', [last], k); }
        Tied(t, k) + Tied([x], k);
        { TiedAppend(t, [x], k); }
        Tied(t + [x], k);
      }
    }
  }

  /** The sort neither adds, drops nor duplicates a match. */
  lemma {:induction false} SortPermutes(s: seq<Match>)
    ensures multiset(SortSpec(s)) == multiset(s)
    decreases |s|
  {
    if s != [] {
      var s', x := s[..|s| - 1], s[|s| - 1];
      calc {
        multiset(SortSpec(s));
        multiset(Insert(SortSpec(s'), x));
        { InsertPermutes(SortSpec(s'), x); }
        multiset(SortSpec(s')) + multiset{x};
        { SortPermutes(s'); }
        multiset(s') + multiset{x};
        multiset(s' + [x]);
        { assert s == s' + [x]; }
        multiset(s);
      }
    }
  }

  /** The sort yields the page's order. */
  lemma {:induction false} SortOrders(s: seq<Match>)
    ensures Sorted(SortSpec(s))
    decreases |s|
  {
    if s != [] {
      SortOrders(s[..|s| - 1]);
      InsertSorted(SortSpec(s[..|s| - 1]), s[|s| - 1]);
    }
  }

  lemma {:induction false} SortStableFor(s: seq<Match>, k: Match)
    ensures Tied(SortSpec(s), k) == Tied(s, k)
    decreases |s|
  {
    if s != [] {
      var s' := s[..|s| - 1];
      var x := s[|s| - 1];
      SortStableFor(s', k);
      InsertStable(SortSpec(s'), x, k);
      TiedAppend(SortSpec(s'), [x], k);
      TiedAppend(s', [x], k);
      assert s == s' + [x];
    }
  }

  /** Tied matches keep their original relative order. */
  lemma SortStable(s: seq<Match>)
    ensures StableReorder(s, SortSpec(s))
  {
    forall k ensures Tied(SortSpec(s), k) == Tied(s, k) {
      SortStableFor(s, k);
    }
  }

  lemma {:induction false} TiedMember(s: seq<Match>, k: Match, e: Match)
    requires e in Tied(s, k)
    ensures e in s && SameKey(e, k)
    decreases |s|
  {
    var s' := s[..|s| - 1];
    if e in Tied(s', k) {
      TiedMember(s', k, e);
      assert s == s' + [s[|s| - 1]];
    }
  }

  lemma SortedLastIsGreatest(t: seq<Match>, e: Match)
    requires Sorted(t) && e in t
    ensures Before(e, t[|t| - 1])
  {
    var i :| 0 <= i < |t| && t[i] == e;
    if i == |t| - 1 {
      BeforeTotalPreorder(e, e, e);
    }
  }

  /** Two sorted lists with the same tied matches for every key end with
      the same match. */
  lemma LastAgrees(t: seq<Match>, u: seq<Match>)
    requires Sorted(t) && Sorted(u) && t != [] && u != []
    requires StableReorder(t, u)
    ensures t[|t| - 1] == u[|u| - 1]
  {
    var tl, ul := t[|t| - 1], u[|u| - 1];
    assert SameKey(tl, ul) by {
      assert tl in Tied(u, tl) by {
        assert Tied(t, tl) == Tied(t[..|t| - 1], tl) + [tl];
      }
      assert ul in Tied(t, ul) by {
        assert Tied(u, ul) == Tied(u[..|u| - 1], ul) + [ul];
      }
      TiedMember(u, tl, tl);
      TiedMember(t, ul, ul);
      SortedLastIsGreatest(u, tl);
      SortedLastIsGreatest(t, ul);
      BeforeTotalPreorder(tl, ul, tl);
    }
    ghost var tied := Tied(t, tl);
    assert tied == Tied(u, tl);
    assert tied == Tied(t[..|t| - 1], tl) + [tl];
    assert tied == Tied(u[..|u| - 1], tl) + [ul];
    assert tied[|tied| - 1] == tl && tied[|tied| - 1] == ul;
  }

  /** Every match is tied with itself, so a non-empty list has a tied match
      for its own last match. */
  lemma NonEmptyHasTied(t: seq<Match>)
    requires t != []
    ensures Tied(t, t[|t| - 1]) != []
  {
    assert Tied(t, t[|t| - 1]) == Tied(t[..|t| - 1], t[|t| - 1]) + [t[|t| - 1]];
  }

  /** Dropping the same last match from both lists keeps every key's tied
      matches equal. */
  lemma DropLastKeepsTied(t: seq<Match>, u: seq<Match>)
    requires t != [] && u != [] && t[|t| - 1] == u[|u| - 1]
    requires StableReorder(t, u)
    ensures StableReorder(t[..|t| - 1], u[..|u| - 1])
  {
    var e := t[|t| - 1];
    var t', u' := t[..|t| - 1], u[..|u| - 1];
    forall k ensures Tied(u', k) == Tied(t', k) {
      var tail := if SameKey(e, k) then [e] else [];
      assert Tied(t, k) == Tied(t', k) + tail;
      assert Tied(u, k) == Tied(u', k) + tail;
      assert Tied(t', k) == Tied(t, k)[..|Tied(t, k)| - |tail|];
      assert Tied(u', k) == Tied(u, k)[..|Tied(u, k)| - |tail|];
    }
  }

  /** There is only one sorted, stable reordering: any stable sort, whatever
      its algorithm, gives the same list as `SortSpec`. */
  lemma {:induction false} StableSortUnique(t: seq<Match>, u: seq<Match>)
    requires Sorted(t) && Sorted(u)
    requires StableReorder(t, u)
    ensures t == u
    decreases |t| + |u|
  {
    if t == [] && u == [] {
    } else if t == [] {
      NonEmptyHasTied(u);
      assert false;
    } else if u == [] {
      NonEmptyHasTied(t);
      assert false;
    } else {
      LastAgrees(t, u);
      DropLastKeepsTied(t, u);
      StableSortUnique(t[..|t| - 1], u[..|u| - 1]);
      assert t == t[..|t| - 1] + [t[|t| - 1]];
      assert u == u[..|u| - 1] + [u[|u| - 1]];
    }
  }

  /** `SortSpec` is a stable sort by the page's order: a permutation, live
      matches first, kickoff times non-decreasing within each group. */
  lemma SortSpecCorrect(s: seq<Match>)
    ensures multiset(SortSpec(s)) == multiset(s)
    ensures Sorted(SortSpec(s))
    ensures StableReorder(s, SortSpec(s))
    ensures LiveFirst(SortSpec(s)) && KickoffOrderedInGroups(SortSpec(s))
  {
    SortPermutes(s);
    SortOrders(s);
    SortStable(s);
    SortedGroups(SortSpec(s));
  }

  /** Where `Insert` puts `x`: after the last element of `t` that the
      comparator does not put after `x`. */
  function InsertPos(t: seq<Match>, x: Match): (pos: nat)
    ensures pos <= |t|
    ensures pos > 0 ==> Compare(t[pos - 1], x) <= 0
    ensures forall k :: pos <= k < |t| ==> Compare(t[k], x) > 0
    decreases |t|
  {
    if t == [] then 0
    else if Compare(t[|t| - 1], x) > 0 then InsertPos(t[..|t| - 1], x)
    else |t|
  }

  /** `Insert` splices `x` in at `InsertPos`. */
  lemma {:induction false} InsertSplices(t: seq<Match>, x: Match)
    ensures Insert(t, x) == t[..InsertPos(t, x)] + [x] + t[InsertPos(t, x)..]
    decreases |t|
  {
    if t != [] && Compare(t[|t| - 1], x) > 0 {
      var t', last := t[..|t| - 1], t[|t| - 1];
      var pos := InsertPos(t', x);
      assert pos == InsertPos(t, x);
      calc {
        Insert(t, x);
        Insert(t', x) + [last];
        { InsertSplices(t', x); }
        t'[..pos] + [x] + t'[pos..] + [last];
        { assert t'[..pos] == t[..pos]; }
        t[..pos] + [x] + t'[pos..] + [last];
        { assert t'[pos..] + [last] == t[pos..]; }
        t[..pos] + [x] + t[pos..];
      }
    } else {
      assert InsertPos(t, x) == |t|;
      assert t[..|t|] == t && t[|t|..] == [];
    }
  }

  /** One step of the insertion loop: when the element before position `j`
      goes after `x`, the insertion point lies before it. */
  lemma InsertPosShift(p: seq<Match>, j: int, x: Match)
    requires 0 < j <= |p|
    requires Compare(p[j - 1], x) > 0
    ensures InsertPos(p[..j], x) == InsertPos(p[..j - 1], x)
  {
    assert p[..j][..j - 1] == p[..j - 1];
  }

  /** Where the insertion loop stops, the hole is the insertion point. */
  lemma InsertPosStop(p: seq<Match>, j: int, x: Match)
    requires 0 <= j <= |p|
    requires j == 0 || Compare(p[j - 1], x) <= 0
    ensures InsertPos(p[..j], x) == j
  {
  }

  /** Scans the sorted prefix `a[..i]` from the right for the place where
      `x` goes: after the last element the comparator does not put after it. */
  method FindSlot(a: array<Match>, i: int, x: Match) returns (j: int)
    requires 0 <= i <= a.Length
    ensures j == InsertPos(a[..i], x)
  {
    ghost var p := a[..i];
    j := i;
    assert p[..j] == p;
    while j > 0 && Compare(a[j - 1], x) > 0
      invariant 0 <= j <= i
      invariant InsertPos(p, x) == InsertPos(p[..j], x)
    {
      InsertPosShift(p, j, x);
      j := j - 1;
    }
    InsertPosStop(p, j, x);
  }

  /** One step of the shift: copying the element before position `k` into it. */
  lemma ShiftStep(s: seq<Match>, k: int, i: int)
    requires 0 < k <= i < |s|
    ensures (s[..k + 1] + s[k..i] + s[i + 1..])[k := s[k - 1]] == s[..k] + s[k - 1..i] + s[i + 1..]
  {
    assert s[k - 1..i] == [s[k - 1]] + s[k..i];
  }

  /** Moves `a[j..i]` one place to the right, over `a[i]`; `a[j]` keeps its value. */
  method ShiftUp(a: array<Match>, j: int, i: int)
    requires 0 <= j <= i < a.Length
    modifies a
    ensures a[..] == old(a[..j + 1]) + old(a[j..i]) + old(a[i + 1..])
  {
    ghost var s := a[..];
    var k := i;
    assert s[k..i] == [] && a[..] == s[..k + 1] + s[k..i] + s[i + 1..];
    while k > j
      invariant j <= k <= i
      invariant a[..] == s[..k + 1] + s[k..i] + s[i + 1..]
    {
      ShiftStep(s, k, i);
      a[k] := a[k - 1];
      k := k - 1;
    }
  }

  lemma UpdateJoin(u: seq<Match>, h: Match, v: seq<Match>, x: Match)
    ensures (u + [h] + v)[|u| := x] == u + [x] + v
  {
  }

  /** Writing `s[i]` into the slot opened at `j` splices it into `s[..i]` there. */
  lemma SpliceSlot(s: seq<Match>, j: int, i: int)
    requires 0 <= j <= i < |s|
    ensures (s[..j + 1] + s[j..i] + s[i + 1..])[j := s[i]] == s[..i][..j] + [s[i]] + s[..i][j..] + s[i + 1..]
  {
    var p, x, rest := s[..i], s[i], s[i + 1..];
    calc {
      (s[..j + 1] + s[j..i] + rest)[j := x];
      { assert s[..j + 1] == s[..j] + [s[j]]; }
      (s[..j] + [s[j]] + s[j..i] + rest)[j := x];
      { assert s[..j] + [s[j]] + s[j..i] + rest == s[..j] + [s[j]] + (s[j..i] + rest); }
      (s[..j] + [s[j]] + (s[j..i] + rest))[j := x];
      { UpdateJoin(s[..j], s[j], s[j..i] + rest, x); }
      s[..j] + [x] + (s[j..i] + rest);
      { assert p[..j] == s[..j] && p[j..] == s[j..i]; }
      p[..j] + [x] + p[j..] + rest;
    }
  }

  /** Inserting `x` at its slot, once the slot has been opened up. */
  lemma FillSlot(s: seq<Match>, j: int, i: int)
    requires 0 <= j <= i < |s| && j == InsertPos(s[..i], s[i])
    ensures (s[..j + 1] + s[j..i] + s[i + 1..])[j := s[i]] == Insert(s[..i], s[i]) + s[i + 1..]
  {
    SpliceSlot(s, j, i);
    InsertSplices(s[..i], s[i]);
  }

  /** Moves `a[i]` into its place in the sorted prefix `a[..i]`. */
  method InsertAt(a: array<Match>, i: int)
    requires 0 <= i < a.Length
    modifies a
    ensures a[..] == Insert(old(a[..i]), old(a[i])) + old(a[i + 1..])
  {
    ghost var s := a[..];
    var x := a[i];
    var j := FindSlot(a, i, x);
    ShiftUp(a, j, i);
    FillSlot(s, j, i);
    a[j] := x;
  }

  /** One round of the outer loop: inserting the next element extends the
      sorted prefix by one. */
  lemma SortStep(s: seq<Match>, i: int, cur: seq<Match>)
    requires 0 <= i < |s| && cur == SortSpec(s[..i]) + s[i..]
    ensures cur[..i] == SortSpec(s[..i]) && cur[i] == s[i] && cur[i + 1..] == s[i + 1..]
    ensures Insert(cur[..i], cur[i]) == SortSpec(s[..i + 1])
  {
    assert s[..i + 1][..i] == s[..i];
  }

  /** Sorts `a` in place by the page's comparator. The new contents are
      `SortSpec` of the old ones: a permutation, live matches first, kickoff
      times non-decreasing within each group, ties in their original order. */
  method SortMatches(a: array<Match>)
    modifies a
    ensures a[..] == SortSpec(old(a[..]))
    ensures multiset(a[..]) == multiset(old(a[..]))
    ensures Sorted(a[..])
    ensures StableReorder(old(a[..]), a[..])
    ensures LiveFirst(a[..]) && KickoffOrderedInGroups(a[..])
  {
    ghost var s := a[..];
    var i := 0;
    while i < a.Length
      invariant 0 <= i <= a.Length
      invariant a[..] == SortSpec(s[..i]) + s[i..]
    {
      SortStep(s, i, a[..]);
      InsertAt(a, i);
      i := i + 1;
    }
    assert s[..a.Length] == s;
    SortSpecCorrect(s);
  }
}
