/** The device signs the same text as the controller: exactly which values arrive intact in
    each format, and what follows for whole messages. */
module SignedFields {
  import opened Bytes
  import opened Cbor
  import opened CborJson
  import Decimal
  import opened DeviceReadsCbor
  import opened Envelope
  import Hex
  import opened JsonLookup
  import Utf8

  // ---------------------------------------------------------------------------------
  // Strings through json.dumps
  // ---------------------------------------------------------------------------------

  /** Printable ASCII, line feed or carriage return. */
  predicate JsonCleanChar(c: char) {
    0x20 <= c as int <= 0x7E || c == '\n' || c == '\r'
  }

  predicate JsonClean(s: string) {
    forall i :: 0 <= i < |s| ==> JsonCleanChar(s[i])
  }

  lemma {:induction false} UnicodeEscapeReads(n: nat)
    ensures Escaped(UnicodeEscape(n)) && |Unescape(UnicodeEscape(n))| == 5
  {
    var hex := Hex.Fixed(n, 4);
    assert AllNameChars(hex) by {
      forall i | 0 <= i < |hex|
        ensures NameChar(hex[i])
      {
        assert Hex.Canonical(hex[i]);
      }
    }
    WordIsEscaped(hex);
    assert UnicodeEscape(n)[2..] == hex;
  }

  lemma {:induction false} OneUnit(s: string)
    requires |s| == 2 && s[0] == '\\'
    ensures Escaped(s) && Unescape(s) == [Undo(s[1])]
  {
    assert s[2..] == "" && Escaped("") && Unescape("") == "" && [Undo(s[1])] + "" == [Undo(s[1])];
  }

  lemma {:induction false} OnePlain(c: char)
    requires c != '\\' && c != '"'
    ensures Escaped([c]) && Unescape([c]) == [c]
  {
    assert [c][1..] == "" && Escaped("") && Unescape("") == "" && [c] + "" == [c];
  }

  lemma {:induction false} WireOfChar(c: char)
    ensures Utf8.Wire([c]) == Latin1(Utf8.EncodeChar(c))
    ensures |Utf8.Wire([c])| == |Utf8.EncodeChar(c)|
    ensures c as int < 0x80 ==> Utf8.Wire([c]) == [c]
  {
    assert [c][1..] == "" && Utf8.Encode("") == [] && Utf8.EncodeChar(c) + [] == Utf8.EncodeChar(c);
    if c as int < 0x80 {
      Utf8.WireOfAscii([c]);
    }
  }

  /** The UTF-8 bytes of a character are at most as many as the characters the device reads
      from its escape, and the same exactly when the character is clean. */
  lemma {:induction false} DumpCharReads(c: char)
    ensures Escaped(DumpChar(c))
    ensures Tracks(Utf8.Wire([c]), Unescape(DumpChar(c)), JsonCleanChar(c))
  {
    hide UnicodeEscape, Utf8.Wire, Utf8.EncodeChar, Escaped, Unescape;
    var n := c as int;
    WireOfChar(c);
    if c == '"' || c == '\\' || n == 8 || n == 9 || n == 10 || n == 12 || n == 13 {
      OneUnit(DumpChar(c));
    } else if 0x20 <= n <= 0x7E {
      OnePlain(c);
    } else if n < 0x1_0000 {
      UnicodeEscapeReads(n);
    } else {
      var high, low := 0xD800 + (n - 0x1_0000) / 1024, 0xDC00 + (n - 0x1_0000) % 1024;
      UnicodeEscapeReads(high);
      UnicodeEscapeReads(low);
      EscapedAppend(UnicodeEscape(high), UnicodeEscape(low));
    }
  }

  lemma {:induction false} CleanTail(s: string)
    requires s != ""
    ensures JsonClean(s) <==> JsonCleanChar(s[0]) && JsonClean(s[1..])
    ensures CborClean(s) <==> CborCleanChar(s[0]) && CborClean(s[1..])
  {
    assert forall i :: 0 < i < |s| ==> s[i] == s[1..][i - 1];
  }

  /** A string sent as JSON is read back by the device, as UTF-8, if and only if it is
      printable ASCII with line feeds and carriage returns. */
  lemma {:induction false} DumpStringReads(s: string)
    ensures Escaped(DumpString(s))
    ensures Tracks(Utf8.Wire(s), Unescape(DumpString(s)), JsonClean(s))
  {
    hide DumpChar, Utf8.Wire, Tracks, Escaped, Unescape, JsonCleanChar;
    if s == "" {
      EmptyReads();
    } else {
      DumpCharReads(s[0]);
      DumpStringReads(s[1..]);
      EscapedAppend(DumpChar(s[0]), DumpString(s[1..]));
      assert s == [s[0]] + s[1..];
      Utf8.WireAppend([s[0]], s[1..]);
      TracksConcat(Utf8.Wire([s[0]]), Unescape(DumpChar(s[0])), JsonCleanChar(s[0]),
                   Utf8.Wire(s[1..]), Unescape(DumpString(s[1..])), JsonClean(s[1..]));
      CleanTail(s);
    }
  }

  lemma {:induction false} EmptyReads()
    ensures Escaped("") && Unescape("") == "" && Utf8.Wire("") == ""
    ensures Tracks("", "", true)
  {}

  // ---------------------------------------------------------------------------------
  // Strings through the CBOR envelope
  // ---------------------------------------------------------------------------------

  /** Anything but control characters other than line feed and carriage return. */
  predicate CborCleanChar(c: char) {
    c as int >= 0x20 || c == '\n' || c == '\r'
  }

  predicate CborClean(s: string) {
    forall i :: 0 <= i < |s| ==> CborCleanChar(s[i])
  }

  predicate CleanByte(b: Byte) {
    b >= 0x20 || b == 10 || b == 13
  }

  lemma {:induction false} EscapeByteReads(b: Byte)
    ensures Escaped(EscapeByte(b))
    ensures Tracks(Unescape(EscapeByte(b)), [b as char], CleanByte(b))
  {
    hide Escaped, Unescape;
    if b == '"' as int || b == '\\' as int || b == 9 || b == 10 || b == 13 {
      OneUnit(EscapeByte(b));
    } else if b >= 0x20 {
      OnePlain(b as char);
    } else {
      EmptyReads();
    }
  }

  predicate CleanBytes(bytes: seq<Byte>) {
    forall i :: 0 <= i < |bytes| ==> CleanByte(bytes[i])
  }

  lemma {:induction false} EscapeReads(bytes: seq<Byte>)
    ensures Escaped(Escape(bytes))
    ensures Tracks(Unescape(Escape(bytes)), Latin1(bytes), CleanBytes(bytes))
  {
    hide EscapeByte, Tracks, Escaped, Unescape, CleanByte;
    if bytes == [] {
      EmptyReads();
    } else {
      EscapeByteReads(bytes[0]);
      EscapeReads(bytes[1..]);
      EscapedAppend(EscapeByte(bytes[0]), Escape(bytes[1..]));
      TracksConcat(Unescape(EscapeByte(bytes[0])), [bytes[0] as char], CleanByte(bytes[0]),
                   Unescape(Escape(bytes[1..])), Latin1(bytes[1..]), CleanBytes(bytes[1..]));
      assert forall i :: 0 < i < |bytes| ==> bytes[i] == bytes[1..][i - 1];
    }
  }

  lemma {:induction false} CleanBytesOfChar(c: char)
    ensures CleanBytes(Utf8.EncodeChar(c)) <==> CborCleanChar(c)
  {
    var bytes := Utf8.EncodeChar(c);
    if c as int < 0x80 {
      assert bytes == [c as int] && bytes[0] == c as int;
    }
  }

  lemma {:induction false} CleanBytesAppend(a: seq<Byte>, b: seq<Byte>)
    ensures CleanBytes(a + b) <==> CleanBytes(a) && CleanBytes(b)
  {
    hide CleanByte;
    assert forall i :: 0 <= i < |a| ==> (a + b)[i] == a[i];
    assert forall i :: 0 <= i < |b| ==> (a + b)[|a| + i] == b[i];
  }

  lemma {:induction false} CleanBytesOfString(s: string)
    ensures CleanBytes(Utf8.Encode(s)) <==> CborClean(s)
  {
    hide CborCleanChar, Utf8.EncodeChar, CleanByte;
    if s != "" {
      CleanBytesOfChar(s[0]);
      CleanBytesOfString(s[1..]);
      CleanBytesAppend(Utf8.EncodeChar(s[0]), Utf8.Encode(s[1..]));
      CleanTail(s);
    }
  }

  /** A string sent as CBOR is read back by the device, as UTF-8, if and only if it has no
      control characters other than line feed and carriage return. */
  lemma {:induction false} CborStringReads(s: string)
    ensures Escaped(Escape(Utf8.Encode(s)))
    ensures Unescape(Escape(Utf8.Encode(s))) == Utf8.Wire(s) <==> CborClean(s)
  {
    EscapeReads(Utf8.Encode(s));
    CleanBytesOfString(s);
  }

  lemma {:induction false} WordEscapesToItself(s: string)
    requires AllNameChars(s)
    ensures Escape(Utf8.Encode(s)) == s && Utf8.Wire(s) == s
  {
    assert Utf8.Ascii(s) by {
      forall i | 0 <= i < |s|
        ensures s[i] as int < 0x80
      {
        assert NameChar(s[i]);
      }
    }
    Utf8.WireOfAscii(s);
    if s != "" {
      assert NameChar(s[0]);
      assert AllNameChars(s[1..]) by {
        forall i | 0 <= i < |s[1..]|
          ensures NameChar(s[1..][i])
        {
          assert s[1..][i] == s[i + 1];
        }
      }
      WordEscapesToItself(s[1..]);
      EscapeAppend(Utf8.EncodeChar(s[0]), Utf8.Encode(s[1..]));
      var b: Byte := s[0] as int;
      assert Escape([b]) == [s[0]] by {
        assert [b][1..] == [] && Escape([]) == "" && EscapeByte(b) == [s[0]] && [s[0]] + "" == [s[0]];
      }
      assert s == [s[0]] + s[1..];
    }
  }

  // ---------------------------------------------------------------------------------
  // Numbers
  // ---------------------------------------------------------------------------------

  lemma {:induction false} NaturalIsWord(n: nat)
    ensures Word(Decimal.Natural(n))
  {
    var s := Decimal.Natural(n);
    forall i | 0 <= i < |s|
      ensures NameChar(s[i])
    {
      assert '0' <= s[i] <= '9';
    }
  }

  lemma {:induction false} DigitsAreWords(n: int, exact: bool)
    ensures Word(Digits(n, exact)) && Word(Decimal.Integer(n)) && Digits(n, true) == Decimal.Integer(n)
  {
    hide Decimal.Natural;
    NaturalIsWord(if n >= 0 then n else -n);
    NaturalIsWord((-n) % TWO64);
    var a, b := Digits(n, exact), Decimal.Integer(n);
    if n < 0 {
      var d := Decimal.Natural(if exact then -n else (-n) % TWO64);
      assert a == "-" + d;
      assert forall i :: 0 < i < |a| ==> a[i] == d[i - 1];
      assert forall i :: 0 < i < |b| ==> b[i] == Decimal.Natural(-n)[i - 1];
    }
  }

  // ---------------------------------------------------------------------------------
  // One field, sent as JSON
  // ---------------------------------------------------------------------------------

  lemma {:induction false} JsonTokenWellFormed(v: Value)
    requires FlatValue(v)
    ensures var t := JsonToken(v); if t.Quote? then Escaped(t.content) else Word(t.text)
  {
    hide Escaped, Decimal.Integer, DumpString;
    match v {
      case Null => assert Word("null");
      case Bool(b) => assert Word("true") && Word("false");
      case Int(n) => DigitsAreWords(n, true);
      case Text(s) => DumpStringReads(s);
    }
  }

  lemma {:induction false} JsonFieldsWellFormed(entries: seq<Entry>)
    requires Flat(entries)
    ensures AllWellFormed(JsonFields(entries))
  {
    hide Word, FlatValue, JsonToken, Escaped;
    forall i | 0 <= i < |entries|
      ensures WellFormed(JsonFields(entries)[i])
    {
      JsonTokenWellFormed(entries[i].value);
    }
  }

  lemma {:induction false} GetJson(entries: seq<Entry>, key: string)
    requires forall i :: 0 <= i < |entries| ==> FlatValue(entries[i].value)
    ensures Find(entries, key).Some? ==> FlatValue(Find(entries, key).value)
    ensures Get(JsonFields(entries), key) ==
      if Find(entries, key).Some? then Some(JsonToken(Find(entries, key).value)) else None
  {
    hide JsonToken, FlatValue;
    if entries != [] {
      GetJson(entries[1..], key);
      assert JsonFields(entries)[1..] == JsonFields(entries[1..]);
    }
  }

  /** The value of a field survives the JSON form. */
  predicate JsonSurvives(entries: seq<Entry>, key: string) {
    match Find(entries, key)
    case None => true
    case Some(v) => if v.Text? then JsonClean(v.s) else !v.Null?
  }

  lemma {:induction false} JsonTokenAgrees(v: Value)
    requires FlatValue(v)
    ensures JsonToken(v).Quote? ==> Escaped(JsonToken(v).content)
    ensures TokenValue(JsonToken(v)) == Utf8.Wire(ValueText(v)) <==> if v.Text? then JsonClean(v.s) else !v.Null?
  {
    hide Utf8.Wire, Decimal.Integer, JsonClean, Escaped, Unescape;
    match v {
      case Null => WireIsNothing("");
      case Bool(b) =>
        assert Word("true") && Word("false");
        WordEscapesToItself(if b then "true" else "false");
      case Int(n) =>
        DigitsAreWords(n, true);
        WordEscapesToItself(Decimal.Integer(n));
      case Text(s) => DumpStringReads(s);
    }
  }

  lemma {:induction false} WireIsNothing(s: string)
    ensures Utf8.Wire(s) == "" <==> s == ""
  {
    assert |Utf8.Wire(s)| == |Utf8.Encode(s)| >= |s|;
  }

  /** As JSON, the device reads the text the controller signed if and only if the value is
      not None and, if a string, is printable ASCII with line feeds and carriage returns. */
  lemma {:induction false} JsonFieldAgrees(entries: seq<Entry>, key: string)
    requires Flat(entries) && Word(key) && Undisturbed(JsonFields(entries), key)
    ensures Lookup(Dumps(entries), key) == Utf8.Wire(SignedText(entries, key)) <==> JsonSurvives(entries, key)
  {
    hide Lookup, Object, Undisturbed, Utf8.Wire, JsonClean, JsonToken, TokenValue, ValueText, Word, AllWellFormed;
    JsonFieldsWellFormed(entries);
    LookupFindsValueIff(JsonFields(entries), key);
    GetJson(entries, key);
    WireIsNothing("");
    if Find(entries, key).Some? {
      JsonTokenAgrees(Find(entries, key).value);
    }
  }

  // ---------------------------------------------------------------------------------
  // One field, sent as CBOR
  // ---------------------------------------------------------------------------------

  /** What can stand in a packed flat dictionary. */
  predicate PackedValue(v: Value) {
    FlatValue(v) || v.Raw?
  }

  predicate PackedEntries(entries: seq<Entry>) {
    forall i :: 0 <= i < |entries| ==> Word(entries[i].key) && PackedValue(entries[i].value)
  }

  function CborToken(v: Value): Token
    requires PackedValue(v)
  {
    match v
    case Null => Plain("null")
    case Bool(b) => Plain(if b then "true" else "false")
    case Int(n) => Plain(Digits(n, false))
    case Raw(bytes) => Quote(Hex.Encode(bytes))
    case Text(s) => Quote(Escape(Utf8.Encode(s)))
  }

  /** The fields of the device's text: None entries were not sent. */
  function CborFields(entries: seq<Entry>): seq<Field>
    requires PackedEntries(entries)
  {
    if entries == [] then []
    else if entries[0].value.Null? then CborFields(entries[1..])
    else [Field(entries[0].key, CborToken(entries[0].value))] + CborFields(entries[1..])
  }

  lemma {:induction false} HexIsEscaped(bytes: seq<Byte>)
    ensures Escaped(Hex.Encode(bytes)) && Unescape(Hex.Encode(bytes)) == Hex.Encode(bytes)
    ensures Utf8.Wire(Hex.Encode(bytes)) == Hex.Encode(bytes)
  {
    Hex.EncodeIsCanonical(bytes);
    var s := Hex.Encode(bytes);
    assert AllNameChars(s) by {
      forall i | 0 <= i < |s|
        ensures NameChar(s[i])
      {
        assert Hex.Canonical(s[i]);
      }
    }
    WordIsEscaped(s);
    WordEscapesToItself(s);
  }

  lemma {:induction false} CborTokenWellFormed(v: Value)
    requires PackedValue(v)
    ensures var t := CborToken(v); if t.Quote? then Escaped(t.content) else Word(t.text)
    ensures !v.Null? ==> TokenText(CborToken(v)) == Render(v, false) && !HasFloat(v)
  {
    hide Escaped, Digits, Escape, Utf8.Encode, Hex.Encode;
    match v {
      case Null => assert Word("null");
      case Bool(b) => assert Word("true") && Word("false");
      case Int(n) => DigitsAreWords(n, false);
      case Raw(bytes) => HexIsEscaped(bytes);
      case Text(s) => CborStringReads(s);
    }
  }

  lemma {:induction false} PackedIsWellFormed(entries: seq<Entry>)
    requires PackedEntries(entries)
    ensures AllWellFormed(CborFields(entries)) && !FloatInside(entries)
  {
    hide CborToken, Word, PackedValue, Escaped, HasFloat, Escape, Utf8.Encode;
    if entries != [] {
      var e, rest := entries[0], entries[1..];
      assert forall i :: 0 <= i < |rest| ==> rest[i] == entries[i + 1];
      PackedIsWellFormed(rest);
      if e.value.Null? {
        NoFloatInNull(e.value);
      } else {
        CborTokenWellFormed(e.value);
        var fs := CborFields(entries);
        assert fs[0] == Field(e.key, CborToken(e.value)) && fs[1..] == CborFields(rest);
        forall i | 0 <= i < |fs|
          ensures WellFormed(fs[i])
        {
          if i > 0 {
            assert fs[i] == CborFields(rest)[i - 1];
          }
        }
      }
    }
  }

  lemma {:induction false} TextIsBody(entries: seq<Entry>, first: bool)
    requires PackedEntries(entries)
    ensures RenderEntries(entries, first, false) + "}" == Body(CborFields(entries), first)
  {
    hide CborToken, Render, Word, PackedValue, Marker, TokenText;
    if entries != [] {
      var e, rest := entries[0], entries[1..];
      assert forall i :: 0 <= i < |rest| ==> rest[i] == entries[i + 1];
      if e.value.Null? {
        TextIsBody(rest, first);
      } else {
        TextIsBody(rest, false);
        CborTokenWellFormed(e.value);
        KeyIsMarker(e.key);
        var fs := CborFields(entries);
        assert fs[0] == Field(e.key, CborToken(e.value)) && fs[1..] == CborFields(rest);
        var head := Comma(first) + Marker(e.key) + ":" + Render(e.value, false);
        assert head + RenderEntries(rest, false, false) + "}" == head + (RenderEntries(rest, false, false) + "}");
      }
    }
  }

  lemma {:induction false} RenderIsBody(entries: seq<Entry>, first: bool)
    requires PackedEntries(entries)
    ensures RenderEntries(entries, first, false) + "}" == Body(CborFields(entries), first)
    ensures AllWellFormed(CborFields(entries)) && !FloatInside(entries)
  {
    hide *;
    TextIsBody(entries, first);
    PackedIsWellFormed(entries);
  }

  lemma {:induction false} NoFloatInNull(v: Value)
    requires v.Null?
    ensures !HasFloat(v)
  {}

  lemma {:induction false} KeyIsMarker(key: string)
    requires Word(key)
    ensures Key(key) == Marker(key)
  {
    WordEscapesToItself(key);
  }

  lemma {:induction false} PackedIsPacked(entries: seq<Entry>, hex: bool)
    requires Flat(entries)
    ensures PackedEntries(PackAll(entries, hex))
  {
    hide Word, Hex.FromHex;
  }

  /** A name that occurs once is found where it stands. */
  lemma {:induction false} FindAt(entries: seq<Entry>, i: nat)
    requires i < |entries|
    requires forall j :: 0 <= j < i ==> entries[j].key != entries[i].key
    ensures Find(entries, entries[i].key) == Some(entries[i].value)
  {
    if i > 0 {
      assert entries[1..][i - 1] == entries[i];
      assert forall j :: 0 <= j < i - 1 ==> entries[1..][j] == entries[j + 1];
      FindAt(entries[1..], i - 1);
    }
  }

  lemma {:induction false} FindNothing(entries: seq<Entry>, key: string)
    requires forall i :: 0 <= i < |entries| ==> entries[i].key != key
    ensures Find(entries, key) == None
  {
    if entries != [] {
      assert forall j :: 0 <= j < |entries[1..]| ==> entries[1..][j] == entries[j + 1];
      FindNothing(entries[1..], key);
    }
  }

  lemma {:induction false} FindPacked(entries: seq<Entry>, hex: bool, key: string)
    requires Flat(entries)
    ensures Find(PackAll(entries, hex), key) ==
      if Find(entries, key).Some? then Some(Pack(Entry(key, Find(entries, key).value), hex).value) else None
  {
    hide Word, FlatValue, Hex.FromHex;
    var packed := PackAll(entries, hex);
    if i :| 0 <= i < |entries| && entries[i].key == key {
      FindAt(entries, i);
      FindAt(packed, i);
    } else {
      FindNothing(entries, key);
      FindNothing(packed, key);
    }
  }

  lemma {:induction false} GetCbor(entries: seq<Entry>, key: string)
    requires PackedEntries(entries)
    requires forall i, j :: 0 <= i < j < |entries| ==> entries[i].key != entries[j].key
    ensures Find(entries, key).Some? ==> PackedValue(Find(entries, key).value)
    ensures Get(CborFields(entries), key) ==
      match Find(entries, key)
      case None => None
      case Some(v) => if v.Null? then None else Some(CborToken(v))
  {
    hide CborToken, PackedValue, Word;
    if entries != [] {
      var e, rest := entries[0], entries[1..];
      assert forall i :: 0 <= i < |rest| ==> rest[i] == entries[i + 1];
      GetCbor(rest, key);
      if e.key == key {
        FindNothing(rest, key);
      }
      if !e.value.Null? {
        var fs := CborFields(entries);
        assert fs[0] == Field(e.key, CborToken(e.value)) && fs[1..] == CborFields(rest);
      }
    }
  }

  /** The value of a field survives the CBOR form. */
  predicate CborSurvives(entries: seq<Entry>, key: string) {
    match Find(entries, key)
    case None => true
    case Some(v) =>
      if v.Text? then
        if HexEncoding(entries) && key == "data" && Hex.FromHex(v.s).Some? then Hex.AllCanonical(v.s)
        else CborClean(v.s)
      else v != Int(-(TWO64 as int))
  }

  lemma {:induction false} FromHexIsAscii(s: string)
    requires Hex.FromHex(s).Some?
    ensures Utf8.Ascii(s)
    decreases |s|
  {
    if s != "" {
      var k := if Hex.Space(s[0]) then 1 else 2;
      FromHexIsAscii(s[k..]);
      assert forall i :: k <= i < |s| ==> s[i] == s[k..][i - k];
    }
  }

  lemma {:induction false} PackedDataAgrees(s: string)
    requires Hex.FromHex(s).Some?
    ensures Hex.Encode(Hex.FromHex(s).value) == Utf8.Wire(s) <==> Hex.AllCanonical(s)
  {
    FromHexIsAscii(s);
    Utf8.WireOfAscii(s);
    Hex.PackingIsExact(s);
  }

  lemma {:induction false} IntAgrees(n: int)
    requires -(TWO64 as int) <= n < TWO64
    ensures Digits(n, false) == Utf8.Wire(Decimal.Integer(n)) <==> n != -(TWO64 as int)
  {
    DigitsAreWords(n, true);
    WordEscapesToItself(Decimal.Integer(n));
    DigitsTrack(n);
  }

  lemma {:induction false} CborTokenAgrees(key: string, v: Value, hex: bool)
    requires FlatValue(v) && !v.Null? && Encodable(Pack(Entry(key, v), hex).value)
    ensures var p := Pack(Entry(key, v), hex).value;
      && PackedValue(p) && (CborToken(p).Quote? ==> Escaped(CborToken(p).content))
      && (TokenValue(CborToken(p)) == Utf8.Wire(ValueText(v)) <==>
          if v.Text? then
            if hex && key == "data" && Hex.FromHex(v.s).Some? then Hex.AllCanonical(v.s) else CborClean(v.s)
          else v != Int(-(TWO64 as int)))
  {
    hide Utf8.Wire, Digits, Escaped, Unescape, Escape, Utf8.Encode, Hex.FromHex, Hex.Encode, Hex.AllCanonical,
         CborClean;
    match v {
      case Bool(b) =>
        assert Word("true") && Word("false");
        WordEscapesToItself(if b then "true" else "false");
      case Int(n) => IntAgrees(n);
      case Text(s) =>
        CborStringReads(s);
        if hex && key == "data" && Hex.FromHex(s).Some? {
          HexIsEscaped(Hex.FromHex(s).value);
          PackedDataAgrees(s);
        }
    }
  }

  lemma {:induction false} FindEncodable(entries: seq<Entry>, key: string)
    requires EncodableEntries(entries)
    ensures Find(entries, key).Some? ==> Encodable(Find(entries, key).value)
  {
    hide Encodable;
    if entries != [] {
      FindEncodable(entries[1..], key);
    }
  }

  lemma {:induction false} PackKeepsOthers(e: Entry, hex: bool)
    requires !e.value.Text?
    ensures Pack(e, hex) == e
  {}

  /** The fields the device sees in a CBOR message. */
  function SentFields(entries: seq<Entry>): seq<Field>
    requires Flat(entries)
  {
    PackedIsPacked(entries, HexEncoding(entries));
    CborFields(PackAll(entries, HexEncoding(entries)))
  }

  lemma {:induction false} SentValue(entries: seq<Entry>, key: string)
    requires Flat(entries) && Encodable(Packed(entries)) && Word(key) && Undisturbed(SentFields(entries), key)
    ensures var hex := HexEncoding(entries);
      match Find(entries, key)
      case None => Lookup(Object(SentFields(entries)), key) == ""
      case Some(v) =>
        var p := Pack(Entry(key, v), hex).value;
        Encodable(p) && PackedValue(p) && (CborToken(p).Quote? ==> Escaped(CborToken(p).content))
        && Lookup(Object(SentFields(entries)), key) == if p.Null? then "" else TokenValue(CborToken(p))
  {
    var hex := HexEncoding(entries);
    var packed := PackAll(entries, hex);
    PackedIsPacked(entries, hex);
    RenderIsBody(packed, true);
    LookupFindsValueIff(CborFields(packed), key);
    FindPacked(entries, hex, key);
    hide Lookup, Object, Undisturbed, CborToken, Word, AllWellFormed, Pack, EncodableEntries, Encodable, HexEncoding,
         Escaped, Get;
    assert forall i, j :: 0 <= i < j < |packed| ==> packed[i].key != packed[j].key by {
      KeysOfPacked(entries, hex);
    }
    GetCbor(packed, key);
    EncodableDict(packed);
    FindEncodable(packed, key);
  }

  lemma {:induction false} EncodableDict(entries: seq<Entry>)
    requires Encodable(Dict(entries))
    ensures EncodableEntries(entries)
  {}

  lemma {:induction false} KeysOfPacked(entries: seq<Entry>, hex: bool)
    requires Flat(entries)
    ensures forall i, j :: 0 <= i < j < |entries| ==> PackAll(entries, hex)[i].key != PackAll(entries, hex)[j].key
  {
    hide Word, FlatValue, Hex.FromHex;
  }

  /** As CBOR, the device reads the text the controller signed if and only if a string has
      no control characters but line feeds and carriage returns, hexadecimal file data is
      written in lower case without spaces, and an integer is not -2^64. */
  lemma {:induction false} CborFieldAgrees(entries: seq<Entry>, key: string)
    requires Flat(entries) && Encodable(Packed(entries)) && Word(key) && Undisturbed(SentFields(entries), key)
    ensures Lookup(Object(SentFields(entries)), key) == Utf8.Wire(SignedText(entries, key))
        <==> CborSurvives(entries, key)
  {
    SentValue(entries, key);
    FindIsFlat(entries, key);
    hide Lookup, Object, SentFields, Undisturbed, Utf8.Wire, CborToken, TokenValue, Word, Pack, Encodable, Hex.FromHex,
         CborClean, Hex.AllCanonical, HexEncoding, PackedValue, Escaped;
    WireIsNothing("");
    if Find(entries, key).Some? {
      var v, hex := Find(entries, key).value, HexEncoding(entries);
      if !v.Text? {
        PackKeepsOthers(Entry(key, v), hex);
      }
      if !v.Null? {
        CborTokenAgrees(key, v, hex);
        PackKeepsSome(Entry(key, v), hex);
      }
    }
  }

  lemma {:induction false} PackKeepsSome(e: Entry, hex: bool)
    requires !e.value.Null?
    ensures !Pack(e, hex).value.Null?
  {}
}
