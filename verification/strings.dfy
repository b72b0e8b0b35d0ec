/**
 String queries used by the address parser: substring search, prefix test,
 and the first two pieces of a split on a separator. A `string` is a
 `seq<char>`; all searches are exact and case-sensitive.
 */
module Strings {
  import opened Wrappers

  /** `pat` occurs in `s` starting at index `i`. */
  predicate OccursAt(s: string, pat: string, i: nat) {
    i + |pat| <= |s| && s[i..i + |pat|] == pat
  }

  /** `s.starts_with(p)`. */
  predicate StartsWith(s: string, p: string) {
    |p| <= |s| && s[..|p|] == p
  }

  /** The index of the first occurrence of `pat` in `s`, if any. */
  function IndexOf(s: string, pat: string): (r: Option<nat>)
    ensures r.Some? ==> OccursAt(s, pat, r.value)
    ensures r.Some? ==> forall j :: 0 <= j < r.value ==> !OccursAt(s, pat, j)
    ensures r.None? ==> forall j :: 0 <= j <= |s| ==> !OccursAt(s, pat, j)
  {
    IndexFrom(s, pat, 0)
  }

  /** The index of the first occurrence of `pat` in `s` at or after `k`. */
  function IndexFrom(s: string, pat: string, k: nat): (r: Option<nat>)
    requires k <= |s|
    ensures r.Some? ==> k <= r.value && OccursAt(s, pat, r.value)
    ensures r.Some? ==> forall j :: k <= j < r.value ==> !OccursAt(s, pat, j)
    ensures r.None? ==> forall j :: k <= j <= |s| ==> !OccursAt(s, pat, j)
    decreases |s| - k
  {
    if OccursAt(s, pat, k) then Some(k)
    else if k == |s| then None
    else IndexFrom(s, pat, k + 1)
  }

  /** `s.contains(pat)`. */
  predicate Contains(s: string, pat: string) {
    IndexOf(s, pat).Some?
  }

  /**
   `s.split(sep).next()`: the text before the first `sep`, or all of `s`
   when `sep` does not occur.
   */
  function FirstField(s: string, sep: string): (r: string)
    ensures |r| <= |s| && r == s[..|r|]
    ensures !Contains(s, sep) ==> r == s
    ensures Contains(s, sep) ==> OccursAt(s, sep, |r|)
    ensures forall j :: 0 <= j < |r| ==> !OccursAt(s, sep, j)
  {
    match IndexOf(s, sep)
    case Some(i) => s[..i]
    case None => s
  }

  /**
   `s.split(sep).collect()[1]` when the split has at least two pieces: the
   text between the first and the second `sep` (or the end of `s`).
   `None` stands for the split having a single piece.
   */
  function SecondField(s: string, sep: string): (r: Option<string>)
    ensures r.Some? <==> Contains(s, sep)
    ensures r.Some? ==>
              var b := IndexOf(s, sep).value + |sep|;
              && b + |r.value| <= |s|
              && s[b..b + |r.value|] == r.value
              && (forall j :: b <= j < b + |r.value| ==> !OccursAt(s, sep, j))
              && (b + |r.value| == |s| || OccursAt(s, sep, b + |r.value|))
  {
    if Contains(s, sep) then
      var i := IndexOf(s, sep).value;
      PieceInside(s, sep, i + |sep|);
      PieceEnd(s, sep, i + |sep|);
      Some(FirstField(s[i + |sep|..], sep))
    else None
  }

  /** Occurrences in a suffix are occurrences in the whole text, shifted. */
  lemma OccursInSuffix(s: string, pat: string, b: nat, j: nat)
    requires b <= |s|
    ensures OccursAt(s[b..], pat, j) <==> OccursAt(s, pat, b + j)
  {
    if b + j + |pat| <= |s| {
      assert s[b..][j..j + |pat|] == s[b + j..b + j + |pat|];
    }
  }

  /** No separator starts inside the first field of a suffix, counted in the whole text. */
  lemma PieceInside(s: string, sep: string, b: nat)
    requires b <= |s|
    ensures var r := FirstField(s[b..], sep);
            && b + |r| <= |s|
            && s[b..b + |r|] == r
            && forall j :: b <= j < b + |r| ==> !OccursAt(s, sep, j)
  {
    var t := s[b..];
    var r := FirstField(t, sep);
    assert s[b..b + |r|] == t[..|r|];
    forall j | b <= j < b + |r|
      ensures !OccursAt(s, sep, j)
    {
      assert !OccursAt(t, sep, j - b);
      OccursInSuffix(s, sep, b, j - b);
    }
  }

  /** The first field of a suffix ends at a separator or at the end of the text. */
  lemma PieceEnd(s: string, sep: string, b: nat)
    requires b <= |s|
    ensures var r := FirstField(s[b..], sep);
            b + |r| == |s| || OccursAt(s, sep, b + |r|)
  {
    var t := s[b..];
    var r := FirstField(t, sep);
    if Contains(t, sep) {
      assert OccursAt(t, sep, |r|);
      OccursInSuffix(s, sep, b, |r|);
    } else {
      assert r == t;
    }
  }

  /** The second field starts right after the first occurrence of the separator. */
  lemma SecondFieldAt(s: string, sep: string, i: nat)
    requires IndexOf(s, sep) == Some(i)
    ensures SecondField(s, sep) == Some(FirstField(s[i + |sep|..], sep))
  {
  }

  /**
   If `pat` occurs at `i` and no earlier character of `s` is the first
   character of `pat`, then `i` is the first occurrence.
   */
  lemma FirstOccurrence(s: string, pat: string, i: nat)
    requires |pat| > 0 && OccursAt(s, pat, i)
    requires forall j :: 0 <= j < i ==> s[j] != pat[0]
    ensures IndexOf(s, pat) == Some(i)
  {
    var k := IndexOf(s, pat).value;
    assert s[k] == pat[0] by { assert s[k..k + |pat|][0] == s[k]; }
  }

  /** A character that does not occur in `s` starts no occurrence in `s`. */
  lemma AbsentChar(s: string, pat: string)
    requires |pat| > 0 && pat[0] !in s
    ensures IndexOf(s, pat) == None
  {
    forall j | 0 <= j <= |s|
      ensures !OccursAt(s, pat, j)
    {
      if j + |pat| <= |s| {
        assert s[j..j + |pat|][0] == s[j];
        assert s[j] in s;
      }
    }
  }

  /**
   When nothing in `u` starts an occurrence of `sep` in `u + t`, searching
   `u + t` is searching `t`, shifted by `|u|`.
   */
  lemma IndexOfSkip(u: string, t: string, sep: string)
    requires forall j :: 0 <= j < |u| ==> !OccursAt(u + t, sep, j)
    ensures IndexOf(u + t, sep).Some? <==> IndexOf(t, sep).Some?
    ensures IndexOf(t, sep).Some? ==> IndexOf(u + t, sep).value == |u| + IndexOf(t, sep).value
  {
    var s := u + t;
    forall i: nat | i <= |t|
      ensures OccursAt(s, sep, |u| + i) <==> OccursAt(t, sep, i)
    {
      if i + |sep| <= |t| {
        assert s[|u| + i..|u| + i + |sep|] == t[i..i + |sep|];
      }
    }
    match IndexOf(t, sep)
    case Some(i) =>
      assert OccursAt(s, sep, |u| + i);
      forall j | |u| <= j < |u| + i
        ensures !OccursAt(s, sep, j)
      {
        assert OccursAt(s, sep, |u| + (j - |u|)) <==> OccursAt(t, sep, j - |u|);
      }
      FirstFrom(s, sep, |u| + i);
    case None =>
      assert forall j :: 0 <= j <= |s| ==> !OccursAt(s, sep, j) by {
        forall j | 0 <= j <= |s|
          ensures !OccursAt(s, sep, j)
        {
          if j >= |u| {
            assert OccursAt(s, sep, |u| + (j - |u|)) <==> OccursAt(t, sep, j - |u|);
          }
        }
      }
  }

  /** An occurrence with no occurrence before it is the first one. */
  lemma FirstFrom(s: string, sep: string, i: nat)
    requires OccursAt(s, sep, i)
    requires forall j :: 0 <= j < i ==> !OccursAt(s, sep, j)
    ensures IndexOf(s, sep) == Some(i)
  {
  }

  /** Under the same condition the first field of `u + t` is `u` followed by the first field of `t`. */
  lemma FirstFieldSkip(u: string, t: string, sep: string)
    requires forall j :: 0 <= j < |u| ==> !OccursAt(u + t, sep, j)
    ensures FirstField(u + t, sep) == u + FirstField(t, sep)
  {
    IndexOfSkip(u, t, sep);
    if IndexOf(t, sep).Some? {
      var i := IndexOf(t, sep).value;
      assert (u + t)[..|u| + i] == u + t[..i];
    }
  }

  /** A text that differs from `p` at some index within both does not start with `p`. */
  lemma DiffersAt(s: string, p: string, i: nat)
    requires i < |p| && i < |s| && s[i] != p[i]
    ensures !StartsWith(s, p)
  {
    if |p| <= |s| {
      assert s[..|p|][i] == s[i];
    }
  }

  /** A text starts with the first character of each non-empty prefix it has. */
  lemma PrefixHead(s: string)
    ensures forall p :: StartsWith(s, p) && |p| > 0 ==> s[0] == p[0]
  {
    forall p | StartsWith(s, p) && |p| > 0
      ensures s[0] == p[0]
    {
      assert s[..|p|][0] == s[0];
    }
  }

  /**
   Searching `u + v` for one character finds what searching `u` finds, or,
   when `u` lacks it and `v` starts with it, the start of `v`.
   */
  lemma CharIndexPrefix(u: string, v: string, c: char)
    ensures IndexOf(u, [c]).Some? ==> IndexOf(u + v, [c]) == IndexOf(u, [c])
    ensures IndexOf(u, [c]).None? && |v| > 0 && v[0] == c ==> IndexOf(u + v, [c]) == Some(|u|)
  {
    var s := u + v;
    forall j | 0 <= j < |u|
      ensures OccursAt(s, [c], j) <==> OccursAt(u, [c], j)
    {
      assert s[j..j + 1] == u[j..j + 1] == [u[j]];
    }
    match IndexOf(u, [c])
    case Some(m) =>
      FirstFrom(s, [c], m);
    case None =>
      if |v| > 0 && v[0] == c {
        assert s[|u|..|u| + 1] == [c];
        FirstFrom(s, [c], |u|);
      }
  }

  /**
   The first field of `u + v` for a one-character separator that starts
   `v` is the first field of `u`.
   */
  lemma FirstFieldStopsAt(u: string, v: string, c: char)
    requires |v| > 0 && v[0] == c
    ensures FirstField(u + v, [c]) == FirstField(u, [c])
  {
    CharIndexPrefix(u, v, c);
    match IndexOf(u, [c])
    case Some(m) =>
      assert (u + v)[..m] == u[..m];
    case None =>
      assert (u + v)[..|u|] == u;
  }
}
