/** The JSON the device writes itself, and what its own lookup reads in it. */
module DeviceJson {
  import opened Bytes
  import opened Collisions
  import opened JsonLookup
  import Text

  // ---------------------------------------------------------------------------------
  // escapeJson
  // ---------------------------------------------------------------------------------

  function EscapeChar(c: char): string {
    if c == '"' || c == '\\' then ['\\', c]
    else if c == '\n' then "\\n"
    else if c == '\r' then "\\r"
    else if c as int >= 0x20 then [c]
    else ""
  }

  function Escaping(s: string): string {
    if s == "" then "" else EscapeChar(s[0]) + Escaping(s[1..])
  }

  lemma {:induction false} EscapingAppend(a: string, b: string)
    ensures Escaping(a + b) == Escaping(a) + Escaping(b)
  {
    hide EscapeChar;
    if a == "" {
      assert a + b == b;
    } else {
      assert (a + b)[0] == a[0] && (a + b)[1..] == a[1..] + b;
      EscapingAppend(a[1..], b);
    }
  }

  lemma {:induction false} EscapingOne(c: char)
    ensures Escaping([c]) == EscapeChar(c)
  {
    assert [c][1..] == "" && EscapeChar(c) + "" == EscapeChar(c);
  }

  method EscapeJson(value: string) returns (out: string)
    ensures out == Escaping(value)
  {
    out := "";
    for i := 0 to |value|
      invariant out == Escaping(value[..i])
    {
      ghost var before := out;
      var c := value[i];
      assert value[..i + 1] == value[..i] + [c];
      EscapingAppend(value[..i], [c]);
      EscapingOne(c);
      if c == '"' || c == '\\' {
        out := out + "\\";
        out := out + [c];
        assert out == before + ['\\', c];
      } else if c == '\n' {
        out := out + "\\n";
      } else if c == '\r' {
        out := out + "\\r";
      } else if c as int >= 0x20 {
        out := out + [c];
      }
    }
    assert value[..|value|] == value;
  }

  /** Control characters other than line feed and carriage return are dropped. */
  predicate KeptChar(c: char) {
    c as int >= 0x20 || c == '\n' || c == '\r'
  }

  function Kept(s: string): (r: string)
    ensures |r| <= |s|
  {
    if s == "" then "" else (if KeptChar(s[0]) then [s[0]] else "") + Kept(s[1..])
  }

  lemma {:induction false} KeptIsAllIff(s: string)
    ensures Kept(s) == s <==> forall i :: 0 <= i < |s| ==> KeptChar(s[i])
  {
    if s != "" {
      KeptIsAllIff(s[1..]);
      assert s == [s[0]] + s[1..];
      assert forall i :: 0 < i < |s| ==> s[i] == s[1..][i - 1];
      if KeptChar(s[0]) {
        assert Kept(s)[1..] == Kept(s[1..]);
      }
    }
  }

  lemma {:induction false} EscapeCharReads(c: char)
    ensures Escaped(EscapeChar(c)) && Unescape(EscapeChar(c)) == if KeptChar(c) then [c] else ""
  {
    var x := EscapeChar(c);
    if |x| == 2 {
      assert x[2..] == "" && Escaped("") && Unescape("") == "" && [Undo(x[1])] + "" == [Undo(x[1])];
    } else if |x| == 1 {
      assert x[1..] == "" && Escaped("") && Unescape("") == "" && [c] + "" == [c];
    }
  }

  /** The text between the quotes is well formed, and stands for the string without what was
      dropped, for every string. */
  lemma {:induction false} EscapeJsonReads(s: string)
    ensures Escaped(Escaping(s)) && Unescape(Escaping(s)) == Kept(s)
  {
    hide EscapeChar, KeptChar, Escaped, Unescape;
    if s == "" {
      EmptyStands();
    } else {
      EscapeCharReads(s[0]);
      EscapeJsonReads(s[1..]);
      EscapedAppend(EscapeChar(s[0]), Escaping(s[1..]));
    }
  }

  lemma {:induction false} EmptyStands()
    ensures Escaped("") && Unescape("") == ""
  {}

  // ---------------------------------------------------------------------------------
  // Collisions
  // ---------------------------------------------------------------------------------

  lemma {:induction false} EscapingOfKept(s: string)
    ensures Escaping(Kept(s)) == Escaping(s)
  {
    if s != "" {
      EscapingOfKept(s[1..]);
      if KeptChar(s[0]) {
        assert Kept(s)[0] == s[0] && Kept(s)[1..] == Kept(s[1..]);
      } else {
        assert Kept(s) == Kept(s[1..]) && Escaping(s) == Escaping(s[1..]);
      }
    }
  }

  lemma {:induction false} EscapingOfWord(s: string)
    requires AllNameChars(s)
    ensures Escaping(s) == s
  {
    if s != "" {
      assert NameChar(s[0]);
      forall i | 0 <= i < |s[1..]|
        ensures NameChar(s[1..][i])
      {
        assert s[1..][i] == s[i + 1];
      }
      EscapingOfWord(s[1..]);
    }
  }

  /** A rendered string collides with a key if and only if the string, as it will be read, does. */
  lemma {:induction false} CollidesIff(s: string, key: string)
    requires Word(key)
    ensures Collides(Escaping(s), key) <==> Collides(Kept(s), key)
  {
    hide EscapeChar, KeptChar, Escaped, Unescape, Text.EndsWith;
    EscapeJsonReads(s);
    if Collides(Escaping(s), key) {
      CollisionUnescapes(Escaping(s), key);
    }
    if Collides(Kept(s), key) {
      EscapingOfKept(s);
      EscapingOfWord(key);
      if Kept(s) != key {
        SuffixIsRendered(Kept(s), key);
      }
    }
  }

  lemma {:induction false} SuffixIsRendered(t: string, key: string)
    requires AllNameChars(key) && Text.EndsWith(t, "\"" + key)
    ensures Text.EndsWith(Escaping(t), "\"" + key)
  {
    var front, suffix := t[..|t| - |key| - 1], "\"" + key;
    assert t == front + suffix;
    EscapingAppend(front, suffix);
    assert suffix[0] == '"' && suffix[1..] == key;
    EscapingOfWord(key);
    var x := Escaping(front) + "\\" + suffix;
    assert Escaping(t) == x;
    assert x[|x| - |suffix|..] == suffix;
  }

  // ---------------------------------------------------------------------------------
  // Flat objects
  // ---------------------------------------------------------------------------------

  /** A field the device writes: a string through `escapeJson`, or a bare number or word. */
  datatype Value = String(text: string) | Bare(word: string)

  datatype Attribute = Attribute(key: string, value: Value)

  predicate Named(attrs: seq<Attribute>) {
    forall i :: 0 <= i < |attrs| ==> Word(attrs[i].key) && (attrs[i].value.Bare? ==> Word(attrs[i].value.word))
  }

  function TokenOf(v: Value): Token {
    match v
    case String(s) => Quote(Escaping(s))
    case Bare(word) => Plain(word)
  }

  function FieldsOf(attrs: seq<Attribute>): (fs: seq<Field>)
    ensures |fs| == |attrs|
    ensures forall i :: 0 <= i < |fs| ==> fs[i] == Field(attrs[i].key, TokenOf(attrs[i].value))
  {
    seq(|attrs|, i requires 0 <= i < |attrs| => Field(attrs[i].key, TokenOf(attrs[i].value)))
  }

  /** What is meant to be read: a string without its dropped characters, a bare word as it is,
      nothing for an absent key. */
  function Meant(attrs: seq<Attribute>, key: string): string {
    if attrs == [] then ""
    else if attrs[0].key == key then
      match attrs[0].value
      case String(s) => Kept(s)
      case Bare(word) => word
    else Meant(attrs[1..], key)
  }

  lemma {:induction false} FieldsAreWellFormed(attrs: seq<Attribute>)
    requires Named(attrs)
    ensures AllWellFormed(FieldsOf(attrs))
  {
    hide Word, Escaped;
    forall i | 0 <= i < |attrs|
      ensures WellFormed(FieldsOf(attrs)[i])
    {
      if attrs[i].value.String? {
        EscapeJsonReads(attrs[i].value.text);
      }
    }
  }

  lemma {:induction false} GetIsMeant(attrs: seq<Attribute>, key: string)
    requires Named(attrs)
    ensures var t := Get(FieldsOf(attrs), key);
      (t.Some? && t.value.Quote? ==> Escaped(t.value.content)) && ValueOf(t) == Meant(attrs, key)
  {
    hide Word, Escaped, Unescape;
    if attrs != [] {
      assert FieldsOf(attrs)[1..] == FieldsOf(attrs[1..]);
      assert forall i :: 0 <= i < |attrs[1..]| ==> attrs[1..][i] == attrs[i + 1];
      GetIsMeant(attrs[1..], key);
      if attrs[0].value.String? {
        EscapeJsonReads(attrs[0].value.text);
      }
    }
  }

  /** In any flat object rendered with `escapeJson`, strings of every kind included, the lookup
      of any key returns what is meant if and only if no earlier string disturbs it. */
  lemma {:induction false} DeviceLookupIff(attrs: seq<Attribute>, key: string)
    requires Named(attrs) && Word(key)
    ensures Lookup(Object(FieldsOf(attrs)), key) == Meant(attrs, key) <==> Undisturbed(FieldsOf(attrs), key)
  {
    hide Lookup, Object, Undisturbed, Word, Escaped, Unescape, FieldsOf;
    FieldsAreWellFormed(attrs);
    GetIsMeant(attrs, key);
    LookupFindsValueIff(FieldsOf(attrs), key);
  }

  /** In particular if no string in it, without its dropped characters, is the key or ends in a
      quote and the key. */
  lemma {:induction false} DeviceLookup(attrs: seq<Attribute>, key: string)
    requires Named(attrs) && Word(key)
    requires forall i :: 0 <= i < |attrs| && attrs[i].value.String? ==> !Collides(Kept(attrs[i].value.text), key)
    ensures Lookup(Object(FieldsOf(attrs)), key) == Meant(attrs, key)
  {
    hide Lookup, Object, Undisturbed, Word, Escaped, Unescape, Collides;
    forall i | 0 <= i < |attrs| && attrs[i].value.String?
      ensures !Collides(Escaping(attrs[i].value.text), key)
    {
      CollidesIff(attrs[i].value.text, key);
    }
    FieldsAreWellFormed(attrs);
    NoCollisionIsUndisturbed(FieldsOf(attrs), key);
    DeviceLookupIff(attrs, key);
  }
}
