/** What a signature pins down: which messages share the text that is signed. */
module SignedTexts {
  import opened Bytes
  import opened Cbor
  import Decimal
  import opened Envelope
  import opened JsonLookup
  import opened SignedFields
  import opened SignedMessages

  // ---------------------------------------------------------------------------------
  // Reading lines back
  // ---------------------------------------------------------------------------------

  lemma {:induction false} FirstPlace(c: char, a: string, x: string)
    requires c !in a
    ensures var s := a + [c] + x; s[|a|] == c && forall i :: 0 <= i < |a| ==> s[i] != c
  {
    assert forall i :: 0 <= i < |a| ==> (a + [c] + x)[i] == a[i];
  }

  /** The first place of a character decides what is before and after it. */
  lemma {:induction false} SplitsOnce(c: char, a: string, b: string, x: string, y: string)
    requires c !in a && c !in b && a + [c] + x == b + [c] + y
    ensures a == b && x == y
  {
    var s := a + [c] + x;
    FirstPlace(c, a, x);
    FirstPlace(c, b, y);
    assert |a| == |b|;
    assert s[..|a|] == a && s[..|b|] == b;
    assert s[|a| + 1..] == x && s[|b| + 1..] == y;
  }

  lemma {:induction false} WordHasNoEquals(s: string)
    requires Word(s)
    ensures '=' !in s
  {
    forall i | 0 <= i < |s|
      ensures s[i] != '='
    {
      assert NameChar(s[i]);
    }
  }

  predicate StartsWithKey(text: string, keys: seq<string>) {
    exists i :: 0 <= i < |keys| && keys[i] + "=" <= text
  }

  lemma {:induction false} LineStarts(key: string, value: string, rest: string)
    requires value != ""
    ensures Line(key, value) + rest == key + ['='] + (value + ['\n'] + rest)
  {
    assert key + "=" + value + "\n" + rest == key + ['='] + (value + ['\n'] + rest);
  }

  /** Lines that are not empty begin with one of the keys. */
  lemma {:induction false} LinesStart(entries: seq<Entry>, keys: seq<string>)
    requires Flat(entries)
    ensures ControllerLines(entries, keys) == "" || StartsWithKey(ControllerLines(entries, keys), keys)
  {
    hide Flat, SignedText, Line;
    if keys != [] {
      var value, rest := SignedText(entries, keys[0]), ControllerLines(entries, keys[1..]);
      LinesStart(entries, keys[1..]);
      if value == "" {
        NoLine(keys[0], rest);
        if StartsWithKey(rest, keys[1..]) {
          var i :| 0 <= i < |keys[1..]| && keys[1..][i] + "=" <= rest;
          assert keys[i + 1] + "=" <= rest;
        }
      } else {
        LineStarts(keys[0], value, rest);
        assert keys[0] + "=" <= keys[0] + ['='] + (value + ['\n'] + rest);
      }
    }
  }

  lemma {:induction false} NoLine(key: string, rest: string)
    ensures Line(key, "") + rest == rest
  {}

  predicate Distinct(keys: seq<string>) {
    forall i, j :: 0 <= i < j < |keys| ==> keys[i] != keys[j]
  }

  /** No signed value has a line feed. */
  predicate OneLineEach(entries: seq<Entry>, keys: seq<string>)
    requires Flat(entries)
  {
    forall i :: 0 <= i < |keys| ==> '\n' !in SignedText(entries, keys[i])
  }

  predicate SameTexts(a: seq<Entry>, b: seq<Entry>, keys: seq<string>)
    requires Flat(a) && Flat(b)
  {
    forall i :: 0 <= i < |keys| ==> SignedText(a, keys[i]) == SignedText(b, keys[i])
  }

  /** A key's own line and the lines of other keys are never the same text. */
  lemma {:induction false} LineIsItsOwn(key: string, value: string, rest: string,
        entries: seq<Entry>, keys: seq<string>)
    requires Flat(entries) && Word(key) && AllWords(keys) && key !in keys && value != ""
    ensures Line(key, value) + rest != ControllerLines(entries, keys)
  {
    hide Flat, SignedText, Line, Word;
    LineStarts(key, value, rest);
    LinesStart(entries, keys);
    var lines := ControllerLines(entries, keys);
    if Line(key, value) + rest == lines {
      var i :| 0 <= i < |keys| && keys[i] + "=" <= lines;
      assert lines == keys[i] + ['='] + lines[|keys[i]| + 1..];
      WordHasNoEquals(key);
      WordHasNoEquals(keys[i]);
      SplitsOnce('=', key, keys[i], value + ['\n'] + rest, lines[|keys[i]| + 1..]);
    }
  }

  lemma {:induction false} SameLine(key: string, v: string, w: string, x: string, y: string)
    requires '\n' !in v && '\n' !in w && v != "" && w != "" && Line(key, v) + x == Line(key, w) + y
    ensures v == w && x == y
  {
    hide Line;
    LineStarts(key, v, x);
    LineStarts(key, w, y);
    var s := Line(key, v) + x;
    assert s[|key| + 1..] == v + ['\n'] + x && s[|key| + 1..] == w + ['\n'] + y;
    SplitsOnce('\n', v, w, x, y);
  }

  lemma {:induction false} LinesPinTexts(a: seq<Entry>, b: seq<Entry>, keys: seq<string>)
    requires Flat(a) && Flat(b) && AllWords(keys) && Distinct(keys)
    requires OneLineEach(a, keys) && OneLineEach(b, keys)
    requires ControllerLines(a, keys) == ControllerLines(b, keys)
    ensures SameTexts(a, b, keys)
  {
    hide Flat, SignedText, Line, Word;
    if keys != [] {
      var key, rest := keys[0], keys[1..];
      assert forall i :: 0 <= i < |rest| ==> rest[i] == keys[i + 1];
      var v, w := SignedText(a, key), SignedText(b, key);
      var x, y := ControllerLines(a, rest), ControllerLines(b, rest);
      NoLine(key, x);
      NoLine(key, y);
      if v != "" && w != "" {
        SameLine(key, v, w, x, y);
      } else if v != "" {
        LineIsItsOwn(key, v, x, b, rest);
      } else if w != "" {
        LineIsItsOwn(key, w, y, a, rest);
      }
      LinesPinTexts(a, b, rest);
    }
  }

  lemma {:induction false} LinesOfSameTexts(a: seq<Entry>, b: seq<Entry>, keys: seq<string>)
    requires Flat(a) && Flat(b) && SameTexts(a, b, keys)
    ensures ControllerLines(a, keys) == ControllerLines(b, keys)
  {
    hide Flat, SignedText, Line;
    if keys != [] {
      assert forall i :: 0 <= i < |keys[1..]| ==> keys[1..][i] == keys[i + 1];
      LinesOfSameTexts(a, b, keys[1..]);
    }
  }

  lemma {:induction false} AuthFieldsDiffer()
    ensures Distinct(AUTH_FIELDS)
  {
    forall i, j | 0 <= i < j < |AUTH_FIELDS|
      ensures AUTH_FIELDS[i] != AUTH_FIELDS[j]
    {
      assert |AUTH_FIELDS[i]| != |AUTH_FIELDS[j]| || AUTH_FIELDS[i][0] != AUTH_FIELDS[j][0]
        || AUTH_FIELDS[i][1] != AUTH_FIELDS[j][1];
    }
  }

  /** Between messages in which no signed value has a line feed, the signed text determines every
      signed field: the texts are equal if and only if all the fields' texts are. */
  lemma {:induction false} BaseDeterminesFields(a: seq<Entry>, b: seq<Entry>)
    requires Flat(a) && Flat(b) && OneLineEach(a, AUTH_FIELDS) && OneLineEach(b, AUTH_FIELDS)
    ensures ControllerBase(a) == ControllerBase(b) <==> SameTexts(a, b, AUTH_FIELDS)
  {
    hide Flat, OneLineEach, SameTexts, Word, AllWords, Distinct;
    AuthFieldsAreWords();
    AuthFieldsDiffer();
    FieldListsAgree();
    if ControllerBase(a) == ControllerBase(b) {
      LinesPinTexts(a, b, AUTH_FIELDS);
    }
    if SameTexts(a, b, AUTH_FIELDS) {
      LinesOfSameTexts(a, b, AUTH_FIELDS);
    }
  }

  // ---------------------------------------------------------------------------------
  // Where a line feed makes two messages one
  // ---------------------------------------------------------------------------------

  lemma {:induction false} LinesAppend(entries: seq<Entry>, a: seq<string>, b: seq<string>)
    requires Flat(entries)
    ensures ControllerLines(entries, a + b) == ControllerLines(entries, a) + ControllerLines(entries, b)
  {
    hide Flat, SignedText, Line;
    if a == [] {
      assert a + b == b;
    } else {
      assert (a + b)[0] == a[0] && (a + b)[1..] == a[1..] + b;
      LinesAppend(entries, a[1..], b);
    }
  }

  lemma {:induction false} AbsentLines(entries: seq<Entry>, keys: seq<string>)
    requires Flat(entries)
    requires forall i :: 0 <= i < |keys| ==> SignedText(entries, keys[i]) == ""
    ensures ControllerLines(entries, keys) == ""
  {
    hide Flat, SignedText;
    if keys != [] {
      AbsentLines(entries, keys[1..]);
    }
  }

  const SPLIT: seq<Entry> := [Entry("path", Text("a")), Entry("size", Int(5))]
  const MERGED: seq<Entry> := [Entry("path", Text("a\nsize=5"))]

  lemma {:induction false} ExamplesAreFlat()
    ensures Flat(SPLIT) && Flat(MERGED)
    ensures SignedText(SPLIT, "path") == "a" && SignedText(SPLIT, "size") == "5"
    ensures SignedText(MERGED, "path") == "a\nsize=5" && SignedText(MERGED, "size") == ""
  {
    assert Word("path") && Word("size");
    assert "path"[0] != "size"[0];
    assert Decimal.Integer(5) == "5";
    assert SPLIT[1..] == [Entry("size", Int(5))] && MERGED[1..] == [];
    hide Word;
    assert Find(SPLIT, "path") == Some(Text("a")) && Find(SPLIT, "size") == Some(Int(5));
    assert Find(MERGED, "path") == Some(Text("a\nsize=5")) && Find(MERGED, "size") == None;
  }

  lemma {:induction false} OthersAreAbsent(key: string)
    requires key != "path" && key != "size" && Flat(SPLIT) && Flat(MERGED)
    ensures SignedText(SPLIT, key) == "" && SignedText(MERGED, key) == ""
  {
    hide Flat;
    FindNothing(SPLIT, key);
    FindNothing(MERGED, key);
  }

  lemma {:induction false} ExampleBase(entries: seq<Entry>)
    requires entries == SPLIT || entries == MERGED
    ensures Flat(entries) && ControllerBase(entries)
      == Line("path", SignedText(entries, "path")) + Line("size", SignedText(entries, "size"))
  {
    ExamplesAreFlat();
    hide Flat, SignedText, Line;
    AuthFieldsDiffer();
    FieldListsAgree();
    LinesAroundTwo(entries, AUTH_FIELDS, 9);
  }

  lemma {:induction false} LinesAroundTwo(entries: seq<Entry>, keys: seq<string>, n: nat)
    requires (entries == SPLIT || entries == MERGED) && Flat(entries) && Distinct(keys)
    requires n + 1 < |keys| && keys[n] == "path" && keys[n + 1] == "size"
    ensures ControllerLines(entries, keys)
      == Line("path", SignedText(entries, "path")) + Line("size", SignedText(entries, "size"))
  {
    ExamplesAreFlat();
    hide Flat, SignedText, Line;
    var front, mid, back := keys[..n], ["path", "size"], keys[n + 2..];
    forall i | 0 <= i < |keys| && i != n && i != n + 1
      ensures SignedText(entries, keys[i]) == ""
    {
      OthersAreAbsent(keys[i]);
    }
    AbsentLines(entries, front);
    AbsentLines(entries, back);
    assert keys == front + (mid + back);
    LinesAppend(entries, front, mid + back);
    LinesAppend(entries, mid, back);
    TwoLines(entries, "path", "size");
  }

  lemma {:induction false} TwoLines(entries: seq<Entry>, k: string, l: string)
    requires Flat(entries)
    ensures ControllerLines(entries, [k, l]) == Line(k, SignedText(entries, k)) + Line(l, SignedText(entries, l))
  {
    hide Flat, SignedText, Line;
    assert [k, l][1..] == [l] && [l][1..] == [] && ControllerLines(entries, []) == "";
    assert Line(l, SignedText(entries, l)) + "" == Line(l, SignedText(entries, l));
  }

  /** With line feeds it does not: a path that holds a second line signs like a path and a size. */
  lemma {:induction false} LineFeedMergesFields()
    ensures Flat(SPLIT) && Flat(MERGED) && ControllerBase(SPLIT) == ControllerBase(MERGED)
    ensures !SameTexts(SPLIT, MERGED, AUTH_FIELDS)
  {
    hide Flat, SignedText, Line, SameTexts, ControllerBase;
    ExamplesAreFlat();
    ExampleBase(SPLIT);
    ExampleBase(MERGED);
    MergedLines();
    TextsDiffer();
  }

  lemma {:induction false} MergedLines()
    ensures Line("path", "a") + Line("size", "5") == Line("path", "a\nsize=5") + Line("size", "")
  {}

  lemma {:induction false} TextsDiffer()
    requires Flat(SPLIT) && Flat(MERGED)
    ensures !SameTexts(SPLIT, MERGED, AUTH_FIELDS)
  {
    ExamplesAreFlat();
    hide Flat, SignedText;
    assert AUTH_FIELDS[9] == "path" && |"a"| != |"a\nsize=5"|;
  }
}
