/** The device's field lookup: a substring scan for the quoted key, then a read of whatever
    stands after the next colon. */
module JsonLookup {
  import opened Bytes
  import opened Text

  // ---------------------------------------------------------------------------------
  // The scan
  // ---------------------------------------------------------------------------------

  function Marker(key: string): string {
    "\"" + key + "\""
  }

  /** What a backslash followed by `c` stands for. */
  function Undo(c: char): char {
    if c == 'n' then '\n' else if c == 'r' then '\r' else c
  }

  /** The string up to its closing quote; None when there is none. */
  function Quoted(s: string, escaped: bool): Option<string> {
    if s == "" then None
    else if escaped then Cons(Undo(s[0]), Quoted(s[1..], false))
    else if s[0] == '\\' then Quoted(s[1..], true)
    else if s[0] == '"' then Some("")
    else Cons(s[0], Quoted(s[1..], false))
  }

  function Cons(c: char, r: Option<string>): Option<string> {
    match r
    case None => None
    case Some(s) => Some([c] + s)
  }

  predicate Delimiter(c: char) {
    c == ',' || c == '}'
  }

  function Bare(s: string): (r: string)
    ensures r <= s
  {
    if s == "" || Delimiter(s[0]) then "" else [s[0]] + Bare(s[1..])
  }

  /** The value at the front of `s`, spaces already skipped. */
  function ReadValue(s: string): string {
    if s == "" then ""
    else if s[0] == '"' then
      match Quoted(s[1..], false)
      case None => ""
      case Some(value) => value
    else Trim(Bare(s))
  }

  /** `jsonValue` */
  function Lookup(json: string, key: string): string {
    match After(json, Marker(key))
    case None => ""
    case Some(r) =>
      match After(r, ":")
      case None => ""
      case Some(t) => ReadValue(SkipSpaces(t))
  }

  /** A value that is not a string ends before the first comma or brace, and is trimmed. */
  lemma {:induction false} BareReads(text: string, rest: string)
    requires text != "" && text[0] != '"' && forall i :: 0 <= i < |text| ==> text[i] != ',' && text[i] != '}'
    requires rest == "" || rest[0] == ',' || rest[0] == '}'
    ensures ReadValue(text + rest) == Trim(text)
  {
    hide Trim;
    BareStops(text, rest);
    assert (text + rest)[0] == text[0];
  }

  lemma {:induction false} BareStops(text: string, rest: string)
    requires forall i :: 0 <= i < |text| ==> text[i] != ',' && text[i] != '}'
    requires rest == "" || rest[0] == ',' || rest[0] == '}'
    ensures Bare(text + rest) == text
  {
    if text == "" {
      assert text + rest == rest;
    } else {
      assert (text + rest)[0] == text[0] && (text + rest)[1..] == text[1..] + rest;
      BareStops(text[1..], rest);
    }
  }

  /** Between the marker and its value there may be anything without a colon, a colon, and spaces. */
  lemma {:induction false} LookupSkipsSpaces(json: string, key: string, gap: string, spaces: string, value: string)
    requires After(json, Marker(key)) == Some(gap + (":" + (spaces + value)))
    requires ':' !in gap && AllSpace(spaces) && (value == "" || !Space(value[0]))
    ensures Lookup(json, key) == ReadValue(value)
  {
    hide After, ReadValue, SkipSpaces, Space;
    AfterColon(gap, spaces + value);
    SkipsSpaces(spaces, value);
  }

  lemma {:induction false} AfterColon(gap: string, rest: string)
    requires ':' !in gap
    ensures After(gap + (":" + rest), ":") == Some(rest)
  {
    var s := gap + (":" + rest);
    if gap == "" {
      assert s == ":" + rest && s[1..] == rest;
    } else {
      assert s[0] == gap[0] && s[1..] == gap[1..] + (":" + rest);
      AfterColon(gap[1..], rest);
    }
  }

  method JsonValue(json: string, key: string) returns (value: string)
    ensures value == Lookup(json, key)
  {
    hide After, IndexOf, Quoted, Trim;
    var marker := "\"";
    marker := marker + key;
    marker := marker + "\"";
    AfterIsIndexOf(json, marker);
    var keyPos := IndexOf(json, marker);
    if keyPos < 0 {
      return "";
    }
    var from := keyPos + |marker|;
    AfterIsIndexOf(json[from..], ":");
    var colon := IndexOf(json[from..], ":");
    if colon < 0 {
      return "";
    }
    assert json[from..][colon + 1..] == json[from + colon + 1..];
    value := ReadFrom(json, from + colon + 1);
  }

  /** The part of `jsonValue` after the colon: skip spaces, then read a string or a scalar. */
  method ReadFrom(json: string, start: nat) returns (value: string)
    requires start <= |json|
    ensures value == ReadValue(SkipSpaces(json[start..]))
  {
    hide Quoted, Trim, Bare;
    var valueStart := start;
    while valueStart < |json| && Space(json[valueStart])
      invariant start <= valueStart <= |json|
      invariant SkipSpaces(json[valueStart..]) == SkipSpaces(json[start..])
    {
      valueStart := valueStart + 1;
    }
    ghost var text := json[valueStart..];
    if valueStart >= |json| {
      return "";
    }
    assert text[0] == json[valueStart] && text[1..] == json[valueStart + 1..];
    if json[valueStart] == '"' {
      value := ReadQuoted(json, valueStart + 1);
      return;
    }
    value := ReadBare(json, valueStart);
  }

  lemma {:induction false} BareStep(s: string)
    ensures s == "" || Delimiter(s[0]) ==> Bare(s) == ""
    ensures s != "" && !Delimiter(s[0]) ==> Bare(s) == [s[0]] + Bare(s[1..])
  {}

  lemma {:induction false} BareExtends(json: string, start: nat, end: nat)
    requires start <= end < |json| && !Delimiter(json[end])
    ensures json[start..end] + Bare(json[end..]) == json[start..end + 1] + Bare(json[end + 1..])
  {
    hide Bare, Delimiter;
    var before, c, after := json[start..end], [json[end]], Bare(json[end + 1..]);
    assert json[end..][0] == json[end] && json[end..][1..] == json[end + 1..];
    BareStep(json[end..]);
    assert json[start..end + 1] == before + c;
    assert before + (c + after) == before + c + after;
  }

  /** The loop of `jsonValue` over a scalar. */
  method ReadBare(json: string, start: nat) returns (value: string)
    requires start <= |json|
    ensures value == Trim(Bare(json[start..]))
  {
    hide Trim, Bare;
    var end := start;
    ghost var whole := Bare(json[start..]);
    assert json[start..start] + whole == whole;
    while end < |json| && !Delimiter(json[end])
      invariant start <= end <= |json|
      invariant whole == json[start..end] + Bare(json[end..])
    {
      BareExtends(json, start, end);
      end := end + 1;
    }
    BareStep(json[end..]);
    assert json[start..end] + "" == json[start..end];
    value := Trim(json[start..end]);
  }

  /** The loop of `jsonValue` over a quoted value. */
  method ReadQuoted(json: string, start: nat) returns (value: string)
    requires start <= |json|
    ensures value == match Quoted(json[start..], false) case None => "" case Some(v) => v
  {
    value := "";
    var escaped := false;
    ghost var whole := Quoted(json[start..], false);
    PrependNothing(whole);
    for i := start to |json|
      invariant whole == Prepend(value, Quoted(json[i..], escaped))
    {
      var c := json[i];
      ghost var rest := Quoted(json[i + 1..], false);
      PrependCons(value, Undo(c), rest);
      PrependCons(value, c, rest);
      if escaped {
        if c == 'n' {
          value := value + ['\n'];
        } else if c == 'r' {
          value := value + ['\r'];
        } else {
          value := value + [c];
        }
        escaped := false;
      } else if c == '\\' {
        escaped := true;
      } else if c == '"' {
        assert value + "" == value;
        return;
      } else {
        value := value + [c];
      }
    }
    value := "";
  }

  function Prepend(s: string, r: Option<string>): Option<string> {
    match r
    case None => None
    case Some(t) => Some(s + t)
  }

  lemma {:induction false} PrependNothing(r: Option<string>)
    ensures r == Prepend("", r)
  {
    assert r.Some? ==> "" + r.value == r.value;
  }

  lemma {:induction false} PrependCons(s: string, c: char, r: Option<string>)
    ensures Prepend(s, Cons(c, r)) == Prepend(s + [c], r)
  {
    assert r.Some? ==> s + ([c] + r.value) == s + [c] + r.value;
  }

  // ---------------------------------------------------------------------------------
  // Flat objects as text
  // ---------------------------------------------------------------------------------

  /** A value in its rendered form: the inside of a quoted string, or a bare scalar. */
  datatype Token = Quote(content: string) | Plain(text: string)

  datatype Field = Field(key: string, token: Token)

  predicate NameChar(c: char) {
    '0' <= c <= '9' || 'a' <= c <= 'z' || 'A' <= c <= 'Z' || c == '_' || c == '-'
  }

  predicate AllNameChars(s: string) {
    forall i :: 0 <= i < |s| ==> NameChar(s[i])
  }

  /** Field names and bare scalars are words. */
  predicate Word(s: string) {
    s != "" && AllNameChars(s)
  }

  /** Text between quotes in which every quote is escaped and every backslash escapes. */
  predicate Escaped(s: string) {
    s == ""
    || (s[0] == '\\' && |s| >= 2 && Escaped(s[2..]))
    || (s[0] != '\\' && s[0] != '"' && Escaped(s[1..]))
  }

  function Unescape(s: string): string
    requires Escaped(s)
  {
    if s == "" then ""
    else if s[0] == '\\' then [Undo(s[1])] + Unescape(s[2..])
    else [s[0]] + Unescape(s[1..])
  }

  predicate WellFormed(f: Field) {
    Word(f.key) && (if f.token.Quote? then Escaped(f.token.content) else Word(f.token.text))
  }

  predicate AllWellFormed(fs: seq<Field>) {
    forall i :: 0 <= i < |fs| ==> WellFormed(fs[i])
  }

  function TokenText(t: Token): string {
    match t
    case Quote(content) => "\"" + content + "\""
    case Plain(text) => text
  }

  /** What a caller means by a token. */
  function TokenValue(t: Token): string
    requires t.Quote? ==> Escaped(t.content)
  {
    match t
    case Quote(content) => Unescape(content)
    case Plain(text) => text
  }

  /** The fields from some point on, through the closing brace. */
  function Body(fs: seq<Field>, first: bool): (s: string)
    ensures s != ""
    ensures !first || fs == [] ==> Delimiter(s[0])
  {
    if fs == [] then "}"
    else (if first then "" else ",") + Marker(fs[0].key) + ":" + TokenText(fs[0].token) + Body(fs[1..], false)
  }

  function Object(fs: seq<Field>): string {
    "{" + Body(fs, true)
  }

  // ---------------------------------------------------------------------------------
  // Where the scan stops
  // ---------------------------------------------------------------------------------

  /** The rendered string holds the quoted key: it is the key, or ends in a quote and the key. */
  predicate Collides(content: string, key: string) {
    content == key || EndsWith(content, "\"" + key)
  }

  /** The token the scan reads for `key`: its own, unless an earlier string collides with
      the key; then whatever value comes after that string. */
  function Hit(fs: seq<Field>, key: string): Option<Token> {
    if fs == [] then None
    else if fs[0].key == key then Some(fs[0].token)
    else if fs[0].token.Quote? && Collides(fs[0].token.content, key) then
      if |fs| == 1 then None else Some(fs[1].token)
    else Hit(fs[1..], key)
  }

  /** What the lookup is meant to find. */
  function Get(fs: seq<Field>, key: string): Option<Token> {
    if fs == [] then None
    else if fs[0].key == key then Some(fs[0].token)
    else Get(fs[1..], key)
  }

  predicate Misleads(f: Field, key: string) {
    f.key != key && f.token.Quote? && Collides(f.token.content, key)
  }

  /** The first string before the key's own field that collides with the key. */
  function Stray(fs: seq<Field>, key: string): (r: Option<nat>)
    ensures r.Some? ==> r.value < |fs| && Misleads(fs[r.value], key)
  {
    if fs == [] || fs[0].key == key then None
    else if Misleads(fs[0], key) then Some(0)
    else
      match Stray(fs[1..], key)
      case None => None
      case Some(i) => Some(i + 1)
  }

  /** The token of the field after the `i`-th. */
  function TokenAfter(fs: seq<Field>, i: nat): Option<Token> {
    if i + 1 < |fs| then Some(fs[i + 1].token) else None
  }

  /** The scan stops at the key's own token, or else at the one after the first stray string. */
  lemma {:induction false} HitIsGetOrStray(fs: seq<Field>, key: string)
    ensures Hit(fs, key) ==
      match Stray(fs, key)
      case None => Get(fs, key)
      case Some(i) => TokenAfter(fs, i)
  {
    hide Collides;
    if fs != [] {
      HitIsGetOrStray(fs[1..], key);
    }
  }

  /** What the lookup is meant to return is what it returns: nothing strays before the key's
      field, or what comes after the stray string has the same value. */
  predicate Undisturbed(fs: seq<Field>, key: string) {
    && AllWellFormed(fs)
    && (TokensAreWellFormed(fs, key);
        Stray(fs, key).None? || ValueOf(TokenAfter(fs, Stray(fs, key).value)) == ValueOf(Get(fs, key)))
  }

  /** A value as a caller means it; absent fields have none. */
  function ValueOf(t: Option<Token>): string
    requires t.Some? && t.value.Quote? ==> Escaped(t.value.content)
  {
    match t
    case None => ""
    case Some(token) => TokenValue(token)
  }

  lemma {:induction false} TokensAreWellFormed(fs: seq<Field>, key: string)
    requires AllWellFormed(fs)
    ensures Get(fs, key).Some? && Get(fs, key).value.Quote? ==> Escaped(Get(fs, key).value.content)
    ensures forall i: nat ::
      TokenAfter(fs, i).Some? && TokenAfter(fs, i).value.Quote? ==> Escaped(TokenAfter(fs, i).value.content)
  {
    hide Escaped, Word;
    if fs != [] {
      assert forall i :: 0 <= i < |fs[1..]| ==> fs[1..][i] == fs[i + 1];
      TokensAreWellFormed(fs[1..], key);
    }
  }

  /** No string anywhere collides with the key. */
  predicate NoCollision(fs: seq<Field>, key: string) {
    forall i :: 0 <= i < |fs| && fs[i].token.Quote? ==> !Collides(fs[i].token.content, key)
  }

  lemma {:induction false} NoCollisionIsUndisturbed(fs: seq<Field>, key: string)
    requires AllWellFormed(fs) && NoCollision(fs, key)
    ensures Undisturbed(fs, key)
  {}

  // ---------------------------------------------------------------------------------
  // Searching rendered text for a marker
  // ---------------------------------------------------------------------------------

  lemma {:induction false} SkipText(x: string, rest: string, pattern: string)
    requires pattern != "" && forall i :: 0 <= i < |x| ==> x[i] != pattern[0]
    ensures After(x + rest, pattern) == After(rest, pattern)
  {
    if x == "" {
      assert x + rest == rest;
    } else {
      var s := x + rest;
      assert s[0] == x[0] && s[1..] == x[1..] + rest;
      assert !(pattern <= s);
      SkipText(x[1..], rest, pattern);
    }
  }

  /** Every quote, but perhaps the first character, has a backslash before it. */
  predicate QuotesEscaped(x: string) {
    forall i :: 0 < i < |x| && x[i] == '"' ==> x[i - 1] == '\\'
  }

  lemma {:induction false} EscapedQuotes(s: string)
    requires Escaped(s)
    ensures forall i :: 0 <= i < |s| && s[i] == '"' ==> i > 0 && s[i - 1] == '\\'
  {
    if s != "" {
      var k := if s[0] == '\\' then 2 else 1;
      var t := s[k..];
      EscapedQuotes(t);
      forall i | 0 <= i < |s| && s[i] == '"'
        ensures i > 0 && s[i - 1] == '\\'
      {
        if i >= k {
          assert t[i - k] == '"';
          assert t[i - k - 1] == s[i - 1];
        }
      }
    }
  }

  /** A marker that starts at an inner or opening quote can only end at the closing one. */
  lemma {:induction false} MarkerAtQuote(y: string, rest: string, key: string)
    requires Word(key) && QuotesEscaped("\"" + y)
    requires rest != "" && !NameChar(rest[0])
    ensures Marker(key) <= "\"" + y + "\"" + rest <==> y == key
  {
    var s, m, n := "\"" + y + "\"" + rest, Marker(key), |key|;
    assert s[|y| + 1] == '"' && m[n + 1] == '"';
    assert forall i :: 0 <= i < n ==> m[i + 1] == key[i];
    assert forall i :: 0 <= i < |y| ==> s[i + 1] == y[i] == ("\"" + y)[i + 1];
    if y == key {
      assert s == m + rest;
    } else if n < |y| {
      assert y[n] == '"' ==> ("\"" + y)[n] == '\\';
      assert s[n + 1] != m[n + 1] || s[n] != m[n];
    } else if n == |y| {
      var i :| 0 <= i < n && y[i] != key[i];
      assert s[i + 1] != m[i + 1];
    } else {
      assert s[|y| + 1] != m[|y| + 1];
    }
  }

  /** The scan from inside a string. */
  lemma {:induction false} SkipContent(x: string, rest: string, key: string)
    requires Word(key) && QuotesEscaped(x)
    requires rest != "" && !NameChar(rest[0])
    ensures After(x + "\"" + rest, Marker(key)) ==
      if EndsWith(x, "\"" + key) then Some(rest) else After(rest, Marker(key))
  {
    var s, m := x + "\"" + rest, Marker(key);
    if x == "" {
      assert s == "\"" + rest && s[1..] == rest;
      assert m[1] == key[0] && NameChar(key[0]) && s[1] == rest[0];
    } else {
      assert s[0] == x[0] && s[1..] == x[1..] + "\"" + rest;
      assert x == [x[0]] + x[1..];
      SuffixOfTail(x, "\"" + key);
      if x[0] == '"' {
        assert x == "\"" + x[1..] && s == "\"" + x[1..] + "\"" + rest;
        MarkerAtQuote(x[1..], rest, key);
        if x[1..] == key {
          assert s == m + rest;
        }
      }
      SkipContent(x[1..], rest, key);
    }
  }

  lemma {:induction false} SuffixOfTail(x: string, t: string)
    requires x != ""
    ensures EndsWith(x, t) <==> x == t || EndsWith(x[1..], t)
  {
    if |t| < |x| {
      assert x[1..][|x[1..]| - |t|..] == x[|x| - |t|..];
    } else if |t| == |x| {
      assert x[|x| - |t|..] == x;
    }
  }

  /** The scan from the opening quote of a string. */
  lemma {:induction false} SkipString(content: string, rest: string, key: string)
    requires Word(key) && Escaped(content)
    requires rest != "" && !NameChar(rest[0])
    ensures After(Marker(content) + rest, Marker(key)) ==
      if Collides(content, key) then Some(rest) else After(rest, Marker(key))
  {
    var s, m := Marker(content) + rest, Marker(key);
    EscapedQuotes(content);
    assert QuotesEscaped("\"" + content) by {
      forall i | 0 < i < |"\"" + content| && ("\"" + content)[i] == '"'
        ensures ("\"" + content)[i - 1] == '\\'
      {
        assert content[i - 1] == '"';
      }
    }
    assert s == "\"" + content + "\"" + rest && s[1..] == content + "\"" + rest;
    MarkerAtQuote(content, rest, key);
    if content == key {
      assert s == m + rest;
    } else {
      SkipContent(content, rest, key);
    }
  }

  /** A rendered string contains the marker of a key exactly when it collides with it. */
  lemma {:induction false} CollisionIsContainment(content: string, key: string)
    requires Word(key) && Escaped(content)
    ensures Collides(content, key) <==> After(TokenText(Quote(content)) + ",", Marker(key)).Some?
  {
    SkipString(content, ",", key);
    assert After(",", Marker(key)) == None by {
      assert ","[1..] == "";
      assert After("", Marker(key)) == None;
    }
  }

  // ---------------------------------------------------------------------------------
  // The lookup on a rendered object
  // ---------------------------------------------------------------------------------

  lemma {:induction false} SkipToken(t: Token, rest: string, key: string)
    requires Word(key) && (if t.Quote? then Escaped(t.content) else Word(t.text))
    requires rest != "" && Delimiter(rest[0])
    ensures After(TokenText(t) + rest, Marker(key)) ==
      if t.Quote? && Collides(t.content, key) then Some(rest) else After(rest, Marker(key))
  {
    if t.Quote? {
      SkipString(t.content, rest, key);
    } else {
      SkipText(t.text, rest, Marker(key));
    }
  }

  lemma {:induction false} FirstUnit(s: string)
    requires s != ""
    ensures s[0] == '\\' && |s| >= 2 && Escaped(s[2..]) ==>
      Escaped(s) && Unescape(s) == [Undo(s[1])] + Unescape(s[2..])
    ensures s[0] != '\\' && s[0] != '"' && Escaped(s[1..]) ==>
      Escaped(s) && Unescape(s) == [s[0]] + Unescape(s[1..])
    ensures Escaped(s) ==> if s[0] == '\\' then |s| >= 2 && Escaped(s[2..]) else s[0] != '"' && Escaped(s[1..])
  {}

  lemma {:induction false} EscapedAppend(a: string, b: string)
    requires Escaped(a) && Escaped(b)
    ensures Escaped(a + b) && Unescape(a + b) == Unescape(a) + Unescape(b)
    decreases |a|, 1
  {
    if a == "" {
      assert a + b == b;
    } else {
      EscapedAppendUnit(a, b);
    }
  }

  lemma {:induction false} EscapedAppendUnit(a: string, b: string)
    requires a != "" && Escaped(a) && Escaped(b)
    ensures Escaped(a + b) && Unescape(a + b) == Unescape(a) + Unescape(b)
    decreases |a|, 0
  {
    hide Escaped, Unescape, Undo;
    FirstUnit(a);
    FirstUnit(a + b);
    if a[0] == '\\' {
      assert (a + b)[2..] == a[2..] + b;
      EscapedAppend(a[2..], b);
      assert [Undo(a[1])] + (Unescape(a[2..]) + Unescape(b)) == [Undo(a[1])] + Unescape(a[2..]) + Unescape(b);
    } else {
      assert (a + b)[1..] == a[1..] + b;
      EscapedAppend(a[1..], b);
      assert [a[0]] + (Unescape(a[1..]) + Unescape(b)) == [a[0]] + Unescape(a[1..]) + Unescape(b);
    }
  }

  lemma {:induction false} WordIsEscaped(s: string)
    requires AllNameChars(s)
    ensures Escaped(s) && Unescape(s) == s
  {
    if s != "" {
      assert NameChar(s[0]);
      assert AllNameChars(s[1..]) by {
        forall i | 0 <= i < |s[1..]|
          ensures NameChar(s[1..][i])
        {
          assert s[1..][i] == s[i + 1];
        }
      }
      WordIsEscaped(s[1..]);
    }
  }

  lemma {:induction false} WordsCollideWhenEqual(a: string, key: string)
    requires Word(a) && Word(key)
    ensures Collides(a, key) <==> a == key
  {
    if |key| < |a| {
      var i := |a| - |key| - 1;
      assert NameChar(a[i]) && a[i..][0] == a[i];
    }
  }

  /** One field of the object, with the comma before it when it is not the first. */
  function Opening(f: Field, first: bool): string {
    (if first then "" else ",") + Marker(f.key) + ":"
  }

  lemma {:induction false} SkipOpening(f: Field, first: bool, rest: string, key: string)
    requires Word(key) && Word(f.key)
    ensures After(Opening(f, first) + rest, Marker(key)) ==
      if f.key == key then Some(":" + rest) else After(rest, Marker(key))
  {
    var comma := if first then "" else ",";
    var colon := ":" + rest;
    assert Opening(f, first) + rest == comma + (Marker(f.key) + colon);
    SkipText(comma, Marker(f.key) + colon, Marker(key));
    WordIsEscaped(f.key);
    SkipString(f.key, colon, key);
    WordsCollideWhenEqual(f.key, key);
    SkipText(":", rest, Marker(key));
  }

  /** The text on which the search for the colon starts, after the marker of `key`. */
  function Landing(fs: seq<Field>, key: string): Option<string> {
    if fs == [] then None
    else if fs[0].key == key then Some(":" + TokenText(fs[0].token) + Body(fs[1..], false))
    else if fs[0].token.Quote? && Collides(fs[0].token.content, key) then Some(Body(fs[1..], false))
    else Landing(fs[1..], key)
  }

  lemma {:induction false} TailWellFormed(fs: seq<Field>)
    requires fs != [] && AllWellFormed(fs)
    ensures WellFormed(fs[0]) && AllWellFormed(fs[1..])
  {
    forall i | 0 <= i < |fs[1..]|
      ensures WellFormed(fs[1..][i])
    {
      assert fs[1..][i] == fs[i + 1];
    }
  }

  lemma {:induction false} ScanBody(fs: seq<Field>, first: bool, key: string)
    requires AllWellFormed(fs) && Word(key)
    ensures After(Body(fs, first), Marker(key)) == Landing(fs, key)
  {
    hide Marker, Collides, EndsWith;
    if fs == [] {
      NonemptyMarker(key);
      SkipText("}", "", Marker(key));
      assert "}" + "" == "}";
      AfterNothing(Marker(key));
    } else {
      TailWellFormed(fs);
      var tail := Body(fs[1..], false);
      assert Body(fs, first) == Opening(fs[0], first) + (TokenText(fs[0].token) + tail);
      SkipOpening(fs[0], first, TokenText(fs[0].token) + tail, key);
      assert ":" + (TokenText(fs[0].token) + tail) == ":" + TokenText(fs[0].token) + tail;
      SkipToken(fs[0].token, tail, key);
      ScanBody(fs[1..], false, key);
    }
  }

  lemma {:induction false} NonemptyMarker(key: string)
    ensures Marker(key) != "" && Marker(key)[0] == '"'
  {}

  lemma {:induction false} AfterNothing(pattern: string)
    requires pattern != ""
    ensures After("", pattern) == None
  {}

  lemma {:induction false} ReadQuotedToken(content: string, rest: string)
    requires Escaped(content)
    ensures Quoted(content + "\"" + rest, false) == Some(Unescape(content))
  {
    var s := content + "\"" + rest;
    if content == "" {
      assert s[0] == '"';
    } else if content[0] == '\\' {
      assert s[0] == content[0] && s[1..][0] == content[1] && s[1..][1..] == content[2..] + "\"" + rest;
      ReadQuotedToken(content[2..], rest);
    } else {
      assert s[0] == content[0] && s[1..] == content[1..] + "\"" + rest;
      ReadQuotedToken(content[1..], rest);
    }
  }

  lemma {:induction false} ReadBareToken(text: string, rest: string)
    requires AllNameChars(text) && rest != "" && Delimiter(rest[0])
    ensures Bare(text + rest) == text
  {
    if text == "" {
      assert text + rest == rest;
    } else {
      var s := text + rest;
      assert NameChar(text[0]) && s[0] == text[0] && s[1..] == text[1..] + rest;
      assert AllNameChars(text[1..]) by {
        forall i | 0 <= i < |text[1..]|
          ensures NameChar(text[1..][i])
        {
          assert text[1..][i] == text[i + 1];
        }
      }
      ReadBareToken(text[1..], rest);
    }
  }

  lemma {:induction false} TrimWord(s: string)
    requires Word(s)
    ensures Trim(s) == s
  {
    assert NameChar(s[0]) && NameChar(s[|s| - 1]);
  }

  lemma {:induction false} ReadPlain(text: string, rest: string)
    requires Word(text) && rest != "" && Delimiter(rest[0])
    ensures ReadValue(SkipSpaces(text + rest)) == text
  {
    hide Trim, Bare;
    var s := text + rest;
    assert NameChar(text[0]) && s[0] == text[0];
    assert SkipSpaces(s) == s;
    ReadBareToken(text, rest);
    TrimWord(text);
  }

  lemma {:induction false} ReadString(content: string, rest: string)
    requires Escaped(content)
    ensures ReadValue(SkipSpaces(Marker(content) + rest)) == Unescape(content)
  {
    hide Trim, Bare, Quoted, Escaped, Unescape;
    var s := Marker(content) + rest;
    assert s[0] == '"' && s[1..] == content + "\"" + rest;
    assert SkipSpaces(s) == s;
    ReadQuotedToken(content, rest);
  }

  /** A token is read back as what it means. */
  lemma {:induction false} ReadToken(t: Token, rest: string)
    requires if t.Quote? then Escaped(t.content) else Word(t.text)
    requires rest != "" && Delimiter(rest[0])
    ensures ReadValue(SkipSpaces(TokenText(t) + rest)) == TokenValue(t)
  {
    hide ReadValue, SkipSpaces, Escaped, Unescape, Word;
    if t.Quote? {
      ReadString(t.content, rest);
    } else {
      ReadPlain(t.text, rest);
    }
  }

  /** Reading on from an opening finds its colon, since no name holds one. */
  lemma {:induction false} FindColon(f: Field, rest: string)
    requires Word(f.key)
    ensures After(Opening(f, false) + rest, ":") == Some(rest)
  {
    var before, s := "," + Marker(f.key), ":" + rest;
    assert Opening(f, false) + rest == before + s;
    forall i | 0 <= i < |before|
      ensures before[i] != ':'
    {
      if 2 <= i < |before| - 1 {
        assert before[i] == f.key[i - 2] && NameChar(f.key[i - 2]);
      }
    }
    SkipText(before, s, ":");
    assert ":" <= s && s[1..] == rest;
  }

  /** What the lookup returns once it has landed. */
  function FromLanding(landing: Option<string>): string {
    match landing
    case None => ""
    case Some(r) =>
      match After(r, ":")
      case None => ""
      case Some(t) => ReadValue(SkipSpaces(t))
  }

  lemma {:induction false} HitIsWellFormed(fs: seq<Field>, key: string)
    requires AllWellFormed(fs)
    ensures Hit(fs, key).Some? ==>
      var t := Hit(fs, key).value;
      if t.Quote? then Escaped(t.content) else Word(t.text)
    ensures Get(fs, key).Some? ==>
      var t := Get(fs, key).value;
      if t.Quote? then Escaped(t.content) else Word(t.text)
  {
    if fs != [] {
      TailWellFormed(fs);
      HitIsWellFormed(fs[1..], key);
      if |fs| > 1 {
        assert WellFormed(fs[1]);
      }
    }
  }

  lemma {:induction false} LandingReads(fs: seq<Field>, key: string)
    requires AllWellFormed(fs)
    ensures Hit(fs, key).Some? && Hit(fs, key).value.Quote? ==> Escaped(Hit(fs, key).value.content)
    ensures FromLanding(Landing(fs, key)) == ValueOf(Hit(fs, key))
  {
    hide Escaped, Collides, ReadValue, SkipSpaces, Marker;
    HitIsWellFormed(fs, key);
    if fs != [] {
      TailWellFormed(fs);
      var tail := Body(fs[1..], false);
      if fs[0].key == key {
        var token := TokenText(fs[0].token) + tail;
        assert ":" + TokenText(fs[0].token) + tail == ":" + token;
        assert ":" <= ":" + token && (":" + token)[1..] == token;
        ReadToken(fs[0].token, tail);
      } else if fs[0].token.Quote? && Collides(fs[0].token.content, key) {
        LandingAfterCollision(fs[1..]);
      } else {
        LandingReads(fs[1..], key);
      }
    }
  }

  lemma {:induction false} LandingAfterCollision(fs: seq<Field>)
    requires AllWellFormed(fs)
    ensures fs != [] ==> (fs[0].token.Quote? ==> Escaped(fs[0].token.content))
    ensures FromLanding(Some(Body(fs, false))) == if fs == [] then "" else TokenValue(fs[0].token)
  {
    hide Escaped, ReadValue, SkipSpaces, Marker;
    if fs == [] {
      assert "}"[1..] == "" && ":"[0] != "}"[0];
      AfterNothing(":");
    } else {
      TailWellFormed(fs);
      var tail := Body(fs[1..], false);
      assert Body(fs, false) == Opening(fs[0], false) + (TokenText(fs[0].token) + tail);
      FindColon(fs[0], TokenText(fs[0].token) + tail);
      ReadToken(fs[0].token, tail);
    }
  }

  /** What the device reads for any key in any flat object, string values of every kind
      included: the value of the token the scan stops at, unescaped, or nothing. */
  lemma {:induction false} LookupReadsHit(fs: seq<Field>, key: string)
    requires AllWellFormed(fs) && Word(key)
    ensures Hit(fs, key).Some? && Hit(fs, key).value.Quote? ==> Escaped(Hit(fs, key).value.content)
    ensures Lookup(Object(fs), key) == ValueOf(Hit(fs, key))
  {
    ScanBody(fs, true, key);
    LandingReads(fs, key);
    NonemptyMarker(key);
    SkipText("{", Body(fs, true), Marker(key));
  }

  /** Asked for any key of any flat object, the lookup returns the key's own value, or nothing
      when there is no such key, if and only if nothing disturbs it. */
  lemma {:induction false} LookupFindsValueIff(fs: seq<Field>, key: string)
    requires AllWellFormed(fs) && Word(key)
    ensures Get(fs, key).Some? && Get(fs, key).value.Quote? ==> Escaped(Get(fs, key).value.content)
    ensures Lookup(Object(fs), key) == ValueOf(Get(fs, key)) <==> Undisturbed(fs, key)
  {
    hide Lookup, Object, Escaped, Unescape, Word, Collides;
    LookupReadsHit(fs, key);
    HitIsGetOrStray(fs, key);
    TokensAreWellFormed(fs, key);
  }

  /** In particular where no string collides with the key. */
  lemma {:induction false} LookupFindsValue(fs: seq<Field>, key: string)
    requires AllWellFormed(fs) && Word(key) && NoCollision(fs, key)
    ensures Get(fs, key).Some? && Get(fs, key).value.Quote? ==> Escaped(Get(fs, key).value.content)
    ensures Lookup(Object(fs), key) == ValueOf(Get(fs, key))
  {
    hide Lookup, Object, Escaped, Unescape, Word, Undisturbed;
    NoCollisionIsUndisturbed(fs, key);
    LookupFindsValueIff(fs, key);
  }

  /** A collision does mislead the device: asked for the size, it answers with the path. */
  lemma {:induction false} CollisionMisleads()
    ensures var fs := [Field("mode", Quote("size")), Field("path", Quote("x")), Field("size", Plain("5"))];
      Lookup(Object(fs), "size") == "x" && Get(fs, "size") == Some(Plain("5"))
  {
    var fs := [Field("mode", Quote("size")), Field("path", Quote("x")), Field("size", Plain("5"))];
    assert fs[1..] == [fs[1], fs[2]] && fs[1..][1..] == [fs[2]];
    assert "mode"[0] != "size"[0] && "path"[0] != "size"[0];
    assert Word("size") && Word("mode") && Word("path") && Word("5") && Word("x");
    hide Word, AllNameChars, Lookup, Object, EndsWith, Escaped, Unescape;
    WordMeaning("size");
    WordMeaning("x");
    assert AllWellFormed(fs);
    LookupReadsHit(fs, "size");
  }

  lemma {:induction false} WordMeaning(s: string)
    requires Word(s)
    ensures Escaped(s) && Unescape(s) == s
  {
    WordIsEscaped(s);
  }
}
