/** The device's path normaliser and its path filter. */
module Paths {
  import opened Text

  // ---------------------------------------------------------------------------------
  // Replacing and collapsing
  // ---------------------------------------------------------------------------------

  /** `replace("\\", "/")` */
  function Slashes(s: string): (r: string)
    ensures |r| == |s| && '\\' !in r
    ensures forall i :: 0 <= i < |s| ==> r[i] == if s[i] == '\\' then '/' else s[i]
  {
    if s == "" then "" else [if s[0] == '\\' then '/' else s[0]] + Slashes(s[1..])
  }

  /** One pass of `replace("//", "/")`: occurrences from left to right, not overlapping. */
  function HalvePairs(s: string): (r: string)
    ensures |r| <= |s|
  {
    if |s| < 2 then s
    else if s[0] == '/' && s[1] == '/' then "/" + HalvePairs(s[2..])
    else [s[0]] + HalvePairs(s[1..])
  }

  /** Every run of slashes reduced to one. */
  function Collapse(s: string): (r: string)
  {
    if |s| < 2 then s
    else if s[0] == '/' && s[1] == '/' then Collapse(s[1..])
    else [s[0]] + Collapse(s[1..])
  }

  predicate NoPair(s: string) {
    forall i :: 0 <= i < |s| - 1 ==> !(s[i] == '/' && s[i + 1] == '/')
  }

  lemma {:induction false} NoPairIsContains(s: string)
    ensures NoPair(s) <==> !Contains(s, "//")
  {
    if Contains(s, "//") {
      var i := IndexOf(s, "//");
      assert s[i..i + 2][0] == s[i] == '/' && s[i..i + 2][1] == s[i + 1] == '/';
    } else {
      forall i | 0 <= i < |s| - 1
        ensures !(s[i] == '/' && s[i + 1] == '/')
      {
        if s[i] == '/' && s[i + 1] == '/' {
          assert s[i..i + 2] == "//";
          IndexOfIsFirst(s, "//", i);
        }
      }
    }
  }

  lemma {:induction false} CollapseOfSlash(s: string)
    requires s != ""
    ensures Collapse(s) != "" && Collapse(s)[0] == s[0]
    ensures s[0] == '/' ==> Collapse("/" + s) == Collapse(s)
    ensures s[0] != '/' ==> Collapse("/" + s) == "/" + Collapse(s)
  {
    assert ("/" + s)[1..] == s;
    if |s| >= 2 && s[0] == '/' && s[1] == '/' {
      CollapseOfSlash(s[1..]);
    }
  }

  /** Putting a character in front and collapsing depends only on the collapsed rest. */
  lemma {:induction false} CollapseCons(c: char, s: string, t: string)
    requires Collapse(s) == Collapse(t)
    ensures Collapse([c] + s) == Collapse([c] + t)
  {
    assert ([c] + s)[1..] == s && ([c] + t)[1..] == t;
    if s != "" {
      CollapseOfSlash(s);
    }
    if t != "" {
      CollapseOfSlash(t);
    }
  }

  /** A pass does not change what the text collapses to. */
  lemma {:induction false} PassKeepsCollapse(s: string)
    ensures Collapse(HalvePairs(s)) == Collapse(s)
    decreases |s|
  {
    if |s| >= 2 {
      if s[0] == '/' && s[1] == '/' {
        PassKeepsCollapse(s[2..]);
        CollapseCons('/', HalvePairs(s[2..]), s[2..]);
        assert s[1..] == "/" + s[2..] && ['/'] + s[2..] == "/" + s[2..];
      } else {
        PassKeepsCollapse(s[1..]);
        CollapseCons(s[0], HalvePairs(s[1..]), s[1..]);
        assert s == [s[0]] + s[1..];
      }
    }
  }

  lemma {:induction false} PassShortens(s: string)
    requires !NoPair(s)
    ensures |HalvePairs(s)| < |s|
    decreases |s|
  {
    if !(s[0] == '/' && s[1] == '/') {
      assert !NoPair(s[1..]) by {
        var i :| 0 <= i < |s| - 1 && s[i] == '/' && s[i + 1] == '/';
        assert s[1..][i - 1] == '/' && s[1..][i] == '/';
      }
      PassShortens(s[1..]);
    }
  }

  lemma {:induction false} CollapseOfNoPair(s: string)
    requires NoPair(s)
    ensures Collapse(s) == s
  {
    if |s| >= 2 {
      assert NoPair(s[1..]) by {
        forall i | 0 <= i < |s[1..]| - 1
          ensures !(s[1..][i] == '/' && s[1..][i + 1] == '/')
        {
          assert !(s[i + 1] == '/' && s[i + 2] == '/');
        }
      }
      CollapseOfNoPair(s[1..]);
      assert s == [s[0]] + s[1..];
    }
  }

  lemma {:induction false} CollapseHasNoPair(s: string)
    ensures NoPair(Collapse(s))
    ensures s != "" ==> Collapse(s) != "" && Collapse(s)[0] == s[0] && Collapse(s)[|Collapse(s)| - 1] == s[|s| - 1]
    ensures '\\' !in s ==> '\\' !in Collapse(s)
  {
    if |s| >= 2 {
      CollapseHasNoPair(s[1..]);
      if !(s[0] == '/' && s[1] == '/') {
        var c := Collapse(s[1..]);
        assert c[0] == s[1];
        forall i | 0 <= i < |[s[0]] + c| - 1
          ensures !(([s[0]] + c)[i] == '/' && ([s[0]] + c)[i + 1] == '/')
        {
          if i > 0 {
            assert !(c[i - 1] == '/' && c[i] == '/');
          }
        }
      }
      assert '\\' !in s ==> '\\' !in s[1..] && s[0] != '\\';
    }
  }

  // ---------------------------------------------------------------------------------
  // Normalising
  // ---------------------------------------------------------------------------------

  function Rooted(s: string): (r: string)
    ensures r != "" && r[0] == '/'
  {
    if "/" <= s then s else "/" + s
  }

  /** The last test of `normalizePath`: a segment that is `.` or `..`. */
  predicate HasDots(s: string) {
    Contains(s, "/../") || EndsWith(s, "/..") || Contains(s, "/./") || EndsWith(s, "/.")
  }

  function Normalize(path: string): string {
    var s := Rooted(Collapse(Slashes(Trim(path))));
    if HasDots(s) then "" else s
  }

  method NormalizePath(path: string) returns (normalized: string)
    ensures normalized == Normalize(path)
  {
    hide HasDots;
    normalized := Trim(path);
    normalized := Slashes(normalized);
    ghost var plain := normalized;
    while Contains(normalized, "//")
      invariant Collapse(normalized) == Collapse(plain)
      decreases |normalized|
    {
      NoPairIsContains(normalized);
      PassShortens(normalized);
      PassKeepsCollapse(normalized);
      normalized := HalvePairs(normalized);
    }
    NoPairIsContains(normalized);
    CollapseOfNoPair(normalized);
    if !("/" <= normalized) {
      normalized := "/" + normalized;
    }
    if HasDots(normalized) {
      return "";
    }
  }

  predicate Allowed(path: string) {
    |path| > 1 && "/" <= path && !Contains(path, "..")
    && !("/device-secret" <= path) && !("/certs/" <= path)
  }

  // ---------------------------------------------------------------------------------
  // Segments
  // ---------------------------------------------------------------------------------

  /** The part of `s` up to its first slash. */
  function Segment(s: string): (r: string)
    ensures r <= s
  {
    if s == "" || s[0] == '/' then "" else [s[0]] + Segment(s[1..])
  }

  /** The parts of a path between its slashes. */
  function Split(s: string): (parts: seq<string>)
    ensures parts != []
    decreases |s|
  {
    var first := Segment(s);
    if |first| == |s| then [first] else [first] + Split(s[|first| + 1..])
  }

  predicate NoSlash(s: string) {
    forall i :: 0 <= i < |s| ==> s[i] != '/'
  }

  lemma {:induction false} SegmentHasNoSlash(s: string)
    ensures NoSlash(Segment(s)) && (|Segment(s)| < |s| ==> s[|Segment(s)|] == '/')
  {
    if s != "" && s[0] != '/' {
      SegmentHasNoSlash(s[1..]);
    }
  }

  /** `d` is a whole segment of `s`, by the tests of `normalizePath`. */
  predicate HasSegment(s: string, d: string) {
    Contains(s, "/" + d + "/") || EndsWith(s, "/" + d)
  }

  lemma {:induction false} PatternSlash(s: string, d: string)
    requires Contains(s, "/" + d + "/")
    ensures exists k :: 0 < k < |s| && s[k] == '/'
  {
    var p, j := "/" + d + "/", IndexOf(s, "/" + d + "/");
    assert s[j..j + |p|][|p| - 1] == '/' && s[j + |p| - 1] == '/';
  }

  lemma {:induction false} SuffixSlash(s: string, d: string)
    requires EndsWith(s, "/" + d)
    ensures |d| < |s| && s[|s| - |d| - 1] == '/' && s[|s| - |d|..] == d
  {
    var j := |s| - |d| - 1;
    assert s[j..] == "/" + d && s[j..][0] == s[j] && s[j..][1..] == s[j + 1..];
  }

  lemma {:induction false} LastSegment(t: string, d: string)
    requires NoSlash(t) && NoSlash(d) && d != ""
    ensures HasSegment("/" + t, d) <==> t == d
  {
    var s := "/" + t;
    assert forall i :: 0 < i < |s| ==> s[i] == t[i - 1];
    if Contains(s, "/" + d + "/") {
      PatternSlash(s, d);
    }
    if EndsWith(s, "/" + d) {
      SuffixSlash(s, d);
    }
    assert s[0..] == s && s[1..] == t;
  }

  lemma {:induction false} FirstSegment(first: string, u: string, d: string)
    requires NoSlash(first) && NoSlash(d) && d != ""
    ensures ("/" + d + "/") <= "/" + first + "/" + u <==> first == d
  {
    var s, p := "/" + first + "/" + u, "/" + d + "/";
    assert forall i :: 0 <= i < |first| ==> s[i + 1] == first[i];
    assert forall i :: 0 <= i < |d| ==> p[i + 1] == d[i];
    assert s[|first| + 1] == '/' && p[|d| + 1] == '/';
    if first == d {
      assert s == p + u;
    } else if |first| < |d| {
      assert s[|first| + 1] != p[|first| + 1];
    } else if |d| < |first| {
      assert s[|d| + 1] != p[|d| + 1];
    } else {
      var i :| 0 <= i < |d| && first[i] != d[i];
      assert s[i + 1] != p[i + 1];
    }
  }

  lemma {:induction false} OccurrencePlace(first: string, u: string, d: string)
    requires NoSlash(first) && NoSlash(d) && d != "" && first != d
    ensures var s, p := "/" + first + "/" + u, "/" + d + "/";
      Contains(s, p) ==> IndexOf(s, p) > |first|
  {
    var s, p := "/" + first + "/" + u, "/" + d + "/";
    FirstSegment(first, u, d);
    assert forall i :: 0 <= i < |first| ==> s[i + 1] == first[i];
    if Contains(s, p) {
      var j := IndexOf(s, p);
      assert s[j..j + |p|][0] == s[j] == '/';
    }
  }

  /** Occurrences of `/d/` in a path lie at its first segment or beyond it. */
  lemma {:induction false} ContainsBeyond(first: string, u: string, d: string)
    requires NoSlash(first) && NoSlash(d) && d != ""
    ensures Contains("/" + first + "/" + u, "/" + d + "/") <==> first == d || Contains("/" + u, "/" + d + "/")
  {
    var s, p, n := "/" + first + "/" + u, "/" + d + "/", |first| + 1;
    FirstSegment(first, u, d);
    assert s[n..] == "/" + u;
    ContainsPrefix(s, p);
    OccurrenceShifts(s, p, n);
    if first != d {
      OccurrencePlace(first, u, d);
      OccurrenceInTail(s, p, n);
    }
  }

  lemma {:induction false} ContainsPrefix(s: string, p: string)
    ensures p <= s ==> Contains(s, p)
  {}

  lemma {:induction false} OccurrenceShifts(s: string, p: string, n: nat)
    requires n <= |s|
    ensures Contains(s[n..], p) ==> Contains(s, p)
  {
    if n == 0 {
      assert s[0..] == s;
    } else {
      assert s[n..] == s[1..][n - 1..];
      OccurrenceShifts(s[1..], p, n - 1);
    }
  }

  lemma {:induction false} OccurrenceInTail(s: string, p: string, n: nat)
    requires n <= |s|
    ensures IndexOf(s, p) >= n ==> Contains(s[n..], p)
  {
    var j := IndexOf(s, p);
    if j >= n {
      assert s[n..][j - n..j - n + |p|] == s[j..j + |p|];
      IndexOfIsFirst(s[n..], p, j - n);
    }
  }

  lemma {:induction false} SuffixChars(s: string, d: string)
    requires EndsWith(s, "/" + d)
    ensures |d| < |s| && forall k :: |s| - |d| <= k < |s| ==> s[k] == d[k - (|s| - |d|)]
  {
    SuffixSlash(s, d);
    assert forall k :: |s| - |d| <= k < |s| ==> s[k] == s[|s| - |d|..][k - (|s| - |d|)];
  }

  lemma {:induction false} EndsBeyond(first: string, u: string, d: string)
    requires NoSlash(d) && d != ""
    ensures EndsWith("/" + first + "/" + u, "/" + d) <==> EndsWith("/" + u, "/" + d)
  {
    var s, t, n := "/" + first + "/" + u, "/" + u, |first| + 1;
    assert s[n..] == t && s[n] == '/';
    if |d| + 1 <= |t| {
      assert t[|t| - |d| - 1..] == s[|s| - |d| - 1..];
    } else if EndsWith(s, "/" + d) {
      SuffixChars(s, d);
    }
  }

  /** The tests for a segment are right: it is one of the parts between slashes. */
  lemma {:induction false} HasSegmentIsMember(t: string, d: string)
    requires NoSlash(d) && d != ""
    ensures HasSegment("/" + t, d) <==> d in Split(t)
    decreases |t|
  {
    var first := Segment(t);
    SegmentHasNoSlash(t);
    if |first| == |t| {
      assert first == t;
      LastSegment(t, d);
    } else {
      var u := t[|first| + 1..];
      assert t == first + "/" + u && "/" + t == "/" + first + "/" + u;
      HasSegmentIsMember(u, d);
      ContainsBeyond(first, u, d);
      EndsBeyond(first, u, d);
    }
  }

  /** No part but the last is empty exactly when no two slashes meet. */
  lemma {:induction false} PartsOfNoPair(t: string)
    requires NoPair("/" + t)
    ensures forall i :: 0 <= i < |Split(t)| - 1 ==> Split(t)[i] != ""
    decreases |t|
  {
    var first := Segment(t);
    SegmentHasNoSlash(t);
    if |first| < |t| {
      var u := t[|first| + 1..];
      assert ("/" + t)[0] == '/' && ("/" + t)[1] == t[0];
      forall i | 0 <= i < |"/" + u| - 1
        ensures !(("/" + u)[i] == '/' && ("/" + u)[i + 1] == '/')
      {
        assert ("/" + u)[i] == ("/" + t)[i + |first| + 1] && ("/" + u)[i + 1] == ("/" + t)[i + |first| + 2];
      }
      PartsOfNoPair(u);
      assert forall i :: 0 < i < |Split(t)| ==> Split(t)[i] == Split(u)[i - 1];
    }
  }

  // ---------------------------------------------------------------------------------
  // The normal form
  // ---------------------------------------------------------------------------------

  /** A rooted path whose segments are neither `.` nor `..`, none empty but perhaps the
      last, with no backslash and nothing to trim. */
  ghost predicate NormalForm(p: string) {
    && p != "" && p[0] == '/' && '\\' !in p && Trim(p) == p
    && (forall i :: 0 <= i < |Split(p[1..])| - 1 ==> Split(p[1..])[i] != "")
    && "." !in Split(p[1..]) && ".." !in Split(p[1..])
  }

  lemma {:induction false} SlashesKeepEnds(s: string)
    ensures s != "" && !Space(s[0]) ==> !Space(Slashes(s)[0])
    ensures s != "" && !Space(s[|s| - 1]) ==> !Space(Slashes(s)[|s| - 1])
  {
    if s != "" {
      SlashesKeepEnds(s[1..]);
    }
  }

  lemma {:induction false} TrimIsTrimmed(s: string)
    ensures Trim(s) != "" ==> !Space(Trim(s)[0]) && !Space(Trim(s)[|Trim(s)| - 1])
  {}

  lemma {:induction false} TrimOfTrimmed(s: string)
    requires s != "" ==> !Space(s[0]) && !Space(s[|s| - 1])
    ensures Trim(s) == s
  {}

  /** The path before its last test, whatever it holds. */
  lemma {:induction false} RootedIsClean(path: string)
    ensures var p := Rooted(Collapse(Slashes(Trim(path))));
      NoPair(p) && '\\' !in p && Trim(p) == p
  {
    var t := Trim(path);
    var s := Slashes(t);
    var c := Collapse(s);
    TrimIsTrimmed(path);
    SlashesKeepEnds(t);
    CollapseHasNoPair(s);
    TrimOfTrimmed(Rooted(c));
    if !("/" <= c) {
      forall i | 0 <= i < |"/" + c| - 1
        ensures !(("/" + c)[i] == '/' && ("/" + c)[i + 1] == '/')
      {
        if i > 0 {
          assert !(c[i - 1] == '/' && c[i] == '/');
        }
      }
    }
  }

  lemma {:induction false} DotsAreSegments(p: string)
    requires p != "" && p[0] == '/'
    ensures HasDots(p) <==> "." in Split(p[1..]) || ".." in Split(p[1..])
  {
    assert p == "/" + p[1..];
    HasSegmentIsMember(p[1..], ".");
    HasSegmentIsMember(p[1..], "..");
    assert "/" + ".." + "/" == "/../" && "/" + "." + "/" == "/./" && "/" + ".." == "/.." && "/" + "." == "/.";
  }

  /** A path that is not refused is in normal form; it is refused exactly when one of its
      segments, after trimming and collapsing, is `.` or `..`. */
  lemma {:induction false} NormalizeGivesNormalForm(path: string)
    ensures Normalize(path) != "" ==> NormalForm(Normalize(path))
    ensures var p := Rooted(Collapse(Slashes(Trim(path))));
      Normalize(path) == "" <==> "." in Split(p[1..]) || ".." in Split(p[1..])
  {
    var p := Rooted(Collapse(Slashes(Trim(path))));
    RootedIsClean(path);
    DotsAreSegments(p);
    assert p == "/" + p[1..];
    PartsOfNoPair(p[1..]);
  }

  lemma {:induction false} SlashesOfClean(s: string)
    requires '\\' !in s
    ensures Slashes(s) == s
  {
    if s != "" {
      assert s[0] != '\\' && '\\' !in s[1..];
      SlashesOfClean(s[1..]);
    }
  }

  /** Normalising again changes nothing. */
  lemma {:induction false} NormalizeIsIdempotent(path: string)
    ensures Normalize(path) != "" ==> Normalize(Normalize(path)) == Normalize(path)
  {
    hide HasDots;
    var p := Rooted(Collapse(Slashes(Trim(path))));
    RootedIsClean(path);
    SlashesOfClean(p);
    CollapseOfNoPair(p);
  }
}
