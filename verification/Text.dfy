/** The parts of Arduino's `String` the device relies on. */
module Text {
  import opened Bytes

  /** `isspace` */
  predicate Space(c: char) {
    c == ' ' || 9 as char <= c <= 13 as char
  }

  /** Tab, line feed, vertical tab, form feed, carriage return and space. */
  lemma {:induction false} SpacesAre(c: char)
    ensures Space(c) <==> c as int in {0x09, 0x0A, 0x0B, 0x0C, 0x0D, 0x20}
  {}

  function SkipSpaces(s: string): (r: string)
    ensures |r| <= |s|
    ensures r != "" ==> !Space(r[0])
  {
    if s != "" && Space(s[0]) then SkipSpaces(s[1..]) else s
  }

  function DropTrailing(s: string): (r: string)
    ensures r <= s
    ensures r != "" ==> !Space(r[|r| - 1])
  {
    if s != "" && Space(s[|s| - 1]) then DropTrailing(s[..|s| - 1]) else s
  }

  function Trim(s: string): string {
    DropTrailing(SkipSpaces(s))
  }

  predicate AllSpace(s: string) {
    forall i :: 0 <= i < |s| ==> Space(s[i])
  }

  /** Trimming takes away spaces at both ends, and leaves none there. */
  lemma {:induction false} TrimTakesSpaces(s: string) returns (before: string, after: string)
    ensures s == before + Trim(s) + after && AllSpace(before) && AllSpace(after)
    ensures Trim(s) != "" ==> !Space(Trim(s)[0]) && !Space(Trim(s)[|Trim(s)| - 1])
  {
    before := SkippedSpaces(s);
    after := DroppedSpaces(SkipSpaces(s));
    assert before + (Trim(s) + after) == before + Trim(s) + after;
  }

  /** Spaces in front are skipped, however many. */
  lemma {:induction false} SkipsSpaces(spaces: string, s: string)
    requires AllSpace(spaces) && (s == "" || !Space(s[0]))
    ensures SkipSpaces(spaces + s) == s
  {
    hide Space;
    if spaces == "" {
      assert spaces + s == s;
    } else {
      assert (spaces + s)[0] == spaces[0] && (spaces + s)[1..] == spaces[1..] + s;
      SkipsSpaces(spaces[1..], s);
    }
  }

  lemma {:induction false} SkippedSpaces(s: string) returns (before: string)
    ensures s == before + SkipSpaces(s) && AllSpace(before)
  {
    before := "";
    if s != "" && Space(s[0]) {
      before := SkippedSpaces(s[1..]);
      assert s == [s[0]] + before + SkipSpaces(s[1..]);
      before := [s[0]] + before;
    }
  }

  lemma {:induction false} DroppedSpaces(s: string) returns (after: string)
    ensures s == DropTrailing(s) + after && AllSpace(after)
  {
    after := "";
    if s != "" && Space(s[|s| - 1]) {
      after := DroppedSpaces(s[..|s| - 1]);
      assert s == DropTrailing(s[..|s| - 1]) + (after + [s[|s| - 1]]);
      after := after + [s[|s| - 1]];
    }
  }

  predicate EndsWith(s: string, suffix: string) {
    |suffix| <= |s| && s[|s| - |suffix|..] == suffix
  }

  /** `indexOf`: the first place `pattern` occurs, or -1. */
  function IndexOf(s: string, pattern: string): (i: int)
    ensures -1 <= i
    ensures i >= 0 ==> i + |pattern| <= |s| && s[i..i + |pattern|] == pattern
  {
    if pattern <= s then 0
    else if s == "" then -1
    else
      var i := IndexOf(s[1..], pattern);
      if i < 0 then -1 else i + 1
  }

  predicate Contains(s: string, pattern: string) {
    IndexOf(s, pattern) >= 0
  }

  lemma {:induction false} IndexOfIsFirst(s: string, pattern: string, j: nat)
    requires j + |pattern| <= |s| && s[j..j + |pattern|] == pattern
    ensures 0 <= IndexOf(s, pattern) <= j
    decreases s
  {
    if !(pattern <= s) {
      assert j > 0;
      assert s[1..][j - 1..j - 1 + |pattern|] == s[j..j + |pattern|];
      IndexOfIsFirst(s[1..], pattern, j - 1);
    } else {
      assert s[0..|pattern|] == pattern;
    }
  }

  /** What follows the first occurrence of `pattern`. */
  function After(s: string, pattern: string): (r: Option<string>)
    ensures r.Some? ==> |r.value| <= |s|
  {
    if pattern <= s then Some(s[|pattern|..])
    else if s == "" then None
    else After(s[1..], pattern)
  }

  lemma {:induction false} AfterIsIndexOf(s: string, pattern: string)
    ensures After(s, pattern) ==
      if IndexOf(s, pattern) < 0 then None else Some(s[IndexOf(s, pattern) + |pattern|..])
  {
    if !(pattern <= s) && s != "" {
      AfterIsIndexOf(s[1..], pattern);
    }
  }
}
