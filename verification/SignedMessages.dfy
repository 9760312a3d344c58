/** Whole messages: in every format, what the controller signs is what the device checks. */
module SignedMessages {
  import opened Bytes
  import Base64Url
  import opened Cbor
  import opened CborJson
  import opened Collisions
  import opened DeviceReadsCbor
  import opened Envelope
  import Hex
  import opened JsonLookup
  import opened SignedFields
  import Utf8

  // ---------------------------------------------------------------------------------
  // The text that arrives
  // ---------------------------------------------------------------------------------

  lemma {:induction false} AsciiAppend(a: string, b: string)
    requires Utf8.Ascii(a) && Utf8.Ascii(b)
    ensures Utf8.Ascii(a + b)
  {}

  lemma {:induction false} WordIsAscii(s: string)
    requires AllNameChars(s)
    ensures Utf8.Ascii(s)
  {
    forall i | 0 <= i < |s|
      ensures s[i] as int < 0x80
    {
      assert NameChar(s[i]);
    }
  }

  lemma {:induction false} HexIsAscii(n: nat, count: nat)
    ensures Utf8.Ascii(Hex.Fixed(n, count))
  {
    var s := Hex.Fixed(n, count);
    forall i | 0 <= i < |s|
      ensures s[i] as int < 0x80
    {
      assert Hex.Canonical(s[i]);
    }
  }

  lemma {:induction false} UnicodeEscapeIsAscii(n: nat)
    ensures Utf8.Ascii(UnicodeEscape(n))
  {
    HexIsAscii(n, 4);
    AsciiAppend("\\u", Hex.Fixed(n, 4));
  }

  lemma {:induction false} DumpCharIsAscii(c: char)
    ensures Utf8.Ascii(DumpChar(c))
  {
    hide UnicodeEscape;
    var n := c as int;
    if n >= 0x1_0000 {
      var high, low := 0xD800 + (n - 0x1_0000) / 1024, 0xDC00 + (n - 0x1_0000) % 1024;
      UnicodeEscapeIsAscii(high);
      UnicodeEscapeIsAscii(low);
      AsciiAppend(UnicodeEscape(high), UnicodeEscape(low));
    } else {
      UnicodeEscapeIsAscii(n);
    }
  }

  lemma {:induction false} DumpStringIsAscii(s: string)
    ensures Utf8.Ascii(DumpString(s))
  {
    if s != "" {
      DumpCharIsAscii(s[0]);
      DumpStringIsAscii(s[1..]);
      AsciiAppend(DumpChar(s[0]), DumpString(s[1..]));
    }
  }

  lemma {:induction false} TokenIsAscii(v: Value)
    requires FlatValue(v)
    ensures Utf8.Ascii(TokenText(JsonToken(v)))
  {
    JsonTokenWellFormed(v);
    match JsonToken(v) {
      case Quote(content) =>
        DumpStringIsAscii(v.s);
        AsciiAppend("\"", content);
        AsciiAppend("\"" + content, "\"");
      case Plain(text) => WordIsAscii(text);
    }
  }

  lemma {:induction false} BodyIsAscii(fs: seq<Field>, first: bool)
    requires forall i :: 0 <= i < |fs| ==> Word(fs[i].key) && Utf8.Ascii(TokenText(fs[i].token))
    ensures Utf8.Ascii(Body(fs, first))
  {
    if fs != [] {
      assert forall i :: 0 <= i < |fs[1..]| ==> fs[1..][i] == fs[i + 1];
      BodyIsAscii(fs[1..], false);
      WordIsAscii(fs[0].key);
      AsciiAppend(if first then "" else ",", Marker(fs[0].key));
      AsciiAppend((if first then "" else ",") + Marker(fs[0].key), ":");
      AsciiAppend((if first then "" else ",") + Marker(fs[0].key) + ":", TokenText(fs[0].token));
      AsciiAppend((if first then "" else ",") + Marker(fs[0].key) + ":" + TokenText(fs[0].token), Body(fs[1..], false));
    }
  }

  /** A JSON message reaches the device's lookup unchanged. */
  lemma {:induction false} JsonArrives(entries: seq<Entry>)
    requires Flat(entries)
    ensures DecodeEnvelope(Utf8.Wire(Dumps(entries))) == Decoded(Dumps(entries))
  {
    hide Utf8.Wire, FlatValue, JsonToken, TokenText, Body, Word, Utf8.Ascii;
    forall i | 0 <= i < |entries|
      ensures Utf8.Ascii(TokenText(JsonFields(entries)[i].token))
    {
      TokenIsAscii(entries[i].value);
    }
    BodyIsAscii(JsonFields(entries), true);
    BraceIsAscii();
    AsciiAppend("{", Body(JsonFields(entries), true));
    Utf8.WireOfAscii(Dumps(entries));
    assert Dumps(entries)[0] == '{' && "~"[0] == '~';
  }

  lemma {:induction false} BraceIsAscii()
    ensures Utf8.Ascii("{") && Utf8.Ascii("~")
  {}

  lemma {:induction false} BlockIsAscii(s: string)
    requires forall i :: 0 <= i < |s| ==> Base64Url.Value(s[i]) >= 0
    ensures Utf8.Ascii(s)
  {}

  lemma {:induction false} Base64IsAscii(bytes: seq<Byte>)
    ensures Utf8.Ascii(Base64Url.Encode(bytes))
  {
    hide Base64Url.Symbol, Base64Url.Value, Utf8.Ascii;
    var s := Base64Url.Encode(bytes);
    if |bytes| < 3 {
      BlockIsAscii(s);
    } else {
      Base64IsAscii(bytes[3..]);
      BlockIsAscii(Base64Url.Block(bytes[0], bytes[1], bytes[2]));
      AsciiAppend(Base64Url.Block(bytes[0], bytes[1], bytes[2]), Base64Url.Encode(bytes[3..]));
    }
  }

  /** A CBOR envelope reaches the device's lookup as the text of its fields. */
  lemma {:induction false} CborArrives(entries: seq<Entry>)
    requires Flat(entries) && Encodable(Packed(entries)) && |Encode(Packed(entries))| < TWO64
    ensures DecodeEnvelope(Utf8.Wire("~" + Base64Url.Encode(Encode(Packed(entries)))))
      == Decoded(Object(SentFields(entries)))
  {
    hide Utf8.Wire, Utf8.Ascii, Encode, Base64Url.Encode, Base64Url.Decode, Scan, Encodable, HexEncoding, Word,
         EncodableEntries, Body;
    var v := Packed(entries);
    var text := Base64Url.Encode(Encode(v));
    Base64IsAscii(Encode(v));
    BraceIsAscii();
    AsciiAppend("~", text);
    Utf8.WireOfAscii("~" + text);
    assert ("~" + text)[1..] == text;
    Base64Url.DecodeOfEncode(Encode(v));
    assert Encode(v) + [] == Encode(v);
    DeviceScans(v, [], 0);
    PackedIsPacked(entries, HexEncoding(entries));
    RenderIsBody(v.entries, true);
    assert "{" + RenderEntries(v.entries, true, false) + "}" == "{" + (RenderEntries(v.entries, true, false) + "}");
  }

  // ---------------------------------------------------------------------------------
  // The signed text
  // ---------------------------------------------------------------------------------

  /** Which form the payload takes. */
  predicate SentAsCbor(entries: seq<Entry>, format: Format)
    requires Flat(entries) && EncodePayload(entries, format).Some?
  {
    EncodePayload(entries, format) != Some(Utf8.Encode(Dumps(entries)))
  }

  /** The fields in the form in which the device's lookup meets them. */
  function FieldsSeen(entries: seq<Entry>, format: Format): seq<Field>
    requires Flat(entries) && EncodePayload(entries, format).Some?
  {
    if SentAsCbor(entries, format) then SentFields(entries) else JsonFields(entries)
  }

  predicate Survives(entries: seq<Entry>, format: Format, key: string)
    requires Flat(entries) && EncodePayload(entries, format).Some?
  {
    if SentAsCbor(entries, format) then CborSurvives(entries, key) else JsonSurvives(entries, key)
  }

  /** What the device makes of the payload. */
  function Received(entries: seq<Entry>, format: Format): string
    requires Flat(entries) && EncodePayload(entries, format).Some?
  {
    DecodeEnvelope(Latin1(EncodePayload(entries, format).value)).text
  }

  /** What the model's fixed-size memory assumes of a message. */
  predicate Fits(entries: seq<Entry>) {
    |Encode(Packed(entries))| < TWO64
  }

  lemma {:induction false} PayloadCases(entries: seq<Entry>, format: Format)
    requires Flat(entries) && EncodePayload(entries, format).Some? && Fits(entries)
    ensures if SentAsCbor(entries, format)
      then Encodable(Packed(entries)) && Received(entries, format) == Object(SentFields(entries))
      else Received(entries, format) == Dumps(entries)
    ensures DecodeEnvelope(Latin1(EncodePayload(entries, format).value)).Decoded?
  {
    hide Dumps, DecodeEnvelope, Encode, Base64Url.Encode, Encodable, HexEncoding, PackAll, SentFields, Flat;
    if SentAsCbor(entries, format) {
      CborArrives(entries);
    } else {
      JsonArrives(entries);
    }
  }

  /** In every format, the device reads for a field the text the controller signed if and
      only if the field's value survives the form it travels in. */
  lemma {:induction false} FieldAgrees(entries: seq<Entry>, format: Format, key: string)
    requires Flat(entries) && EncodePayload(entries, format).Some? && Fits(entries) && Word(key)
    requires Undisturbed(FieldsSeen(entries, format), key)
    ensures Lookup(Received(entries, format), key) == Utf8.Wire(SignedText(entries, key))
       <==> Survives(entries, format, key)
  {
    PayloadCases(entries, format);
    hide Lookup, Object, EncodePayload, Encodable, Flat, Received, Undisturbed, Utf8.Wire, SentFields, JsonFields,
         JsonSurvives, CborSurvives, SignedText, Packed;
    if SentAsCbor(entries, format) {
      CborFieldAgrees(entries, key);
    } else {
      JsonFieldAgrees(entries, key);
    }
  }

  predicate AllWords(keys: seq<string>) {
    forall i :: 0 <= i < |keys| ==> Word(keys[i])
  }

  /** No string disturbs the lookup of a signed field, and every signed field survives. */
  predicate Intact(entries: seq<Entry>, format: Format, keys: seq<string>)
    requires Flat(entries) && EncodePayload(entries, format).Some?
  {
    forall i :: 0 <= i < |keys| ==>
      Undisturbed(FieldsSeen(entries, format), keys[i]) && Survives(entries, format, keys[i])
  }

  lemma {:induction false} WireOfLine(key: string, value: string)
    requires Word(key)
    ensures Utf8.Wire(Line(key, value)) == Line(key, Utf8.Wire(value))
  {
    hide Utf8.Wire;
    WireIsNothing(value);
    if value != "" {
      WordEscapesToItself(key);
      Utf8.WireAppend(key + "=" + value, "\n");
      Utf8.WireAppend(key + "=", value);
      Utf8.WireAppend(key, "=");
      Utf8.WireOfAscii("=");
      Utf8.WireOfAscii("\n");
    } else {
      assert Line(key, value) == "";
    }
  }

  lemma {:induction false} LinesAgree(entries: seq<Entry>, format: Format, keys: seq<string>)
    requires Flat(entries) && EncodePayload(entries, format).Some? && Fits(entries)
    requires AllWords(keys) && Intact(entries, format, keys)
    ensures DeviceLines(Received(entries, format), keys) == Utf8.Wire(ControllerLines(entries, keys))
  {
    hide Lookup, EncodePayload, Flat, Received, Utf8.Wire, SignedText, Fits, Undisturbed, FieldsSeen, Survives, Word,
         Line;
    if keys == [] {
      WireIsNothing("");
    } else {
      var key, rest := keys[0], keys[1..];
      assert forall i :: 0 <= i < |rest| ==> rest[i] == keys[i + 1];
      FieldAgrees(entries, format, key);
      LinesAgree(entries, format, rest);
      WireOfLine(key, SignedText(entries, key));
      Utf8.WireAppend(Line(key, SignedText(entries, key)), ControllerLines(entries, rest));
    }
  }

  lemma {:induction false} FirstFieldsAreWords()
    ensures AllWords(AUTH_FIELDS[..10])
  {
    assert Word("schema") && Word("device_id") && Word("msg_id") && Word("job_id") && Word("op");
    assert Word("session_id") && Word("command_id") && Word("request_id") && Word("mode") && Word("path");
    hide Word;
  }

  lemma {:induction false} LastFieldsAreWords()
    ensures AllWords(AUTH_FIELDS[10..])
  {
    assert Word("size") && Word("crc32") && Word("sha256") && Word("chunk_size") && Word("seq");
    assert Word("offset") && Word("encoding") && Word("data") && Word("url") && Word("compact");
    hide Word;
  }

  lemma {:induction false} AuthFieldsAreWords()
    ensures AllWords(AUTH_FIELDS)
  {
    hide Word;
    FirstFieldsAreWords();
    LastFieldsAreWords();
    forall i | 0 <= i < |AUTH_FIELDS|
      ensures Word(AUTH_FIELDS[i])
    {
      assert AUTH_FIELDS[i] == if i < 10 then AUTH_FIELDS[..10][i] else AUTH_FIELDS[10..][i - 10];
    }
  }

  /** Envelope transparency: in JSON, in CBOR and in whichever is shorter, the device
      rebuilds byte for byte the text the controller signed. */
  lemma {:induction false} BasesAgree(entries: seq<Entry>, format: Format)
    requires Flat(entries) && EncodePayload(entries, format).Some? && Fits(entries)
    requires Intact(entries, format, AUTH_FIELDS)
    ensures DeviceBase(Received(entries, format)) == Utf8.Wire(ControllerBase(entries))
  {
    AuthFieldsAreWords();
    FieldListsAgree();
    LinesAgree(entries, format, AUTH_FIELDS);
  }

  // ---------------------------------------------------------------------------------
  // The signature
  // ---------------------------------------------------------------------------------

  /** HMAC-SHA256 in hexadecimal is left abstract: 64 lower-case digits. */
  ghost predicate IsMac(mac: (string, string) -> string) {
    forall secret, base :: |mac(secret, base)| == 64 && Hex.AllCanonical(mac(secret, base))
  }

  /** A dictionary with an "auth" entry at its end. */
  function Tagged(entries: seq<Entry>, tag: string): seq<Entry> {
    entries + [Entry("auth", Text(tag))]
  }

  /** `sign_payload` with a secret, on a dictionary without an "auth" entry. */
  function Sign(entries: seq<Entry>, secret: string, mac: (string, string) -> string): seq<Entry>
    requires Flat(entries)
  {
    Tagged(entries, mac(secret, Utf8.Wire(ControllerBase(entries))))
  }

  /** `verifyIncomingAuth` */
  predicate Verify(json: string, secret: string, mac: (string, string) -> string) {
    secret != "" && |Lookup(json, "auth")| == 64 && Lookup(json, "auth") == mac(secret, DeviceBase(json))
  }

  lemma {:induction false} FindBefore(entries: seq<Entry>, e: Entry, key: string)
    ensures Find(entries + [e], key) ==
      if Find(entries, key).Some? then Find(entries, key) else if e.key == key then Some(e.value) else None
  {
    if entries == [] {
      assert entries + [e] == [e] && [e][1..] == [];
    } else {
      assert (entries + [e])[0] == entries[0] && (entries + [e])[1..] == entries[1..] + [e];
      FindBefore(entries[1..], e, key);
    }
  }

  lemma {:induction false} SigningKeepsLines(entries: seq<Entry>, e: Entry, keys: seq<string>)
    requires Flat(entries) && Flat(entries + [e]) && e.key !in keys
    ensures ControllerLines(entries + [e], keys) == ControllerLines(entries, keys)
  {
    hide Flat, Line, ValueText, Find;
    if keys != [] {
      FindBefore(entries, e, keys[0]);
      assert e.key != keys[0];
      SigningKeepsLines(entries, e, keys[1..]);
    }
  }

  lemma {:induction false} AuthIsNotSigned()
    ensures "auth" !in AUTH_FIELDS && Word("auth")
  {
    assert |"auth"| == 4;
    forall i | 0 <= i < |AUTH_FIELDS|
      ensures AUTH_FIELDS[i] != "auth"
    {
      assert |AUTH_FIELDS[i]| != 4 || AUTH_FIELDS[i][0] != 'a';
    }
  }

  lemma {:induction false} MacSurvives(entries: seq<Entry>, format: Format, mac: string)
    requires Flat(entries) && EncodePayload(entries, format).Some?
    requires Find(entries, "auth") == Some(Text(mac)) && Hex.AllCanonical(mac)
    ensures Survives(entries, format, "auth") && Utf8.Wire(SignedText(entries, "auth")) == mac
  {
    hide EncodePayload, Flat, SentAsCbor, Find, Utf8.Wire, HexEncoding;
    assert AllNameChars(mac) by {
      forall i | 0 <= i < |mac|
        ensures NameChar(mac[i])
      {
        assert Hex.Canonical(mac[i]);
      }
    }
    WordEscapesToItself(mac);
    forall i | 0 <= i < |mac|
      ensures JsonCleanChar(mac[i]) && CborCleanChar(mac[i])
    {
      assert Hex.Canonical(mac[i]);
    }
    assert "auth"[0] != "data"[0];
  }

  lemma {:induction false} TagIsFound(entries: seq<Entry>, tag: string)
    requires Flat(Tagged(entries, tag))
    ensures Find(Tagged(entries, tag), "auth") == Some(Text(tag))
  {
    hide Word, Find;
    var m, auth := Tagged(entries, tag), Entry("auth", Text(tag));
    FindBefore(entries, auth, "auth");
    forall i | 0 <= i < |entries|
      ensures entries[i].key != "auth"
    {
      assert m[i] == entries[i] && m[|entries|] == auth;
    }
    FindNothing(entries, "auth");
  }

  /** The device's two texts for the check, of a tagged message whose fields arrive intact. */
  lemma {:induction false} TaggedReads(entries: seq<Entry>, tag: string, format: Format)
    requires Flat(entries)
    requires var m := Tagged(entries, tag);
      && Flat(m) && EncodePayload(m, format).Some? && Fits(m) && Intact(m, format, AUTH_FIELDS)
      && Undisturbed(FieldsSeen(m, format), "auth") && Survives(m, format, "auth")
    ensures var json := Received(Tagged(entries, tag), format);
      DeviceBase(json) == Utf8.Wire(ControllerBase(entries)) && Lookup(json, "auth") == Utf8.Wire(tag)
  {
    hide EncodePayload, Received, Undisturbed, FieldsSeen, Survives, Fits, Intact, Lookup, DeviceBase, Utf8.Wire, Word;
    var m, auth := Tagged(entries, tag), Entry("auth", Text(tag));
    BasesAgree(m, format);
    AuthIsNotSigned();
    FieldListsAgree();
    SigningKeepsLines(entries, auth, AUTH_FIELDS);
    TagIsFound(entries, tag);
    FieldAgrees(m, format, "auth");
  }

  /** Of the messages whose fields arrive intact, the check passes exactly those that carry the
      MAC of their own signed text under a secret that is not empty. */
  lemma {:induction false} SignatureVerifiesIff(entries: seq<Entry>, tag: string, format: Format, secret: string,
        mac: (string, string) -> string)
    requires Flat(entries) && IsMac(mac)
    requires var m := Tagged(entries, tag);
      && Flat(m) && EncodePayload(m, format).Some? && Fits(m) && Intact(m, format, AUTH_FIELDS)
      && Undisturbed(FieldsSeen(m, format), "auth") && Survives(m, format, "auth")
    ensures Verify(Received(Tagged(entries, tag), format), secret, mac)
       <==> secret != "" && tag == mac(secret, Utf8.Wire(ControllerBase(entries)))
  {
    hide Flat, EncodePayload, Received, Undisturbed, FieldsSeen, Survives, Fits, Intact, Lookup, DeviceBase, Utf8.Wire,
         ControllerBase, Tagged;
    TaggedReads(entries, tag, format);
    var expected := mac(secret, Utf8.Wire(ControllerBase(entries)));
    MacIsPlain(expected);
    if Utf8.Wire(tag) == expected {
      Utf8.WireInjective(tag, expected);
    }
  }

  lemma {:induction false} MacIsPlain(mac: string)
    requires Hex.AllCanonical(mac)
    ensures Utf8.Wire(mac) == mac
  {
    hide Utf8.Wire;
    forall i | 0 <= i < |mac|
      ensures mac[i] as int < 0x80
    {
      assert Hex.Canonical(mac[i]);
    }
    Utf8.WireOfAscii(mac);
  }

  /** Every signed message whose fields arrive intact passes the device's signature check,
      whatever the secret, the format and the MAC. */
  lemma {:induction false} SignatureVerifies(entries: seq<Entry>, format: Format, secret: string,
        mac: (string, string) -> string)
    requires Flat(entries) && secret != "" && IsMac(mac)
    requires var signed := Sign(entries, secret, mac);
      && Flat(signed) && EncodePayload(signed, format).Some? && Fits(signed)
      && Intact(signed, format, AUTH_FIELDS) && Undisturbed(FieldsSeen(signed, format), "auth")
    ensures Verify(Received(Sign(entries, secret, mac), format), secret, mac)
  {
    hide Flat, EncodePayload, Received, Undisturbed, FieldsSeen, Survives, Fits, Intact, Verify, Utf8.Wire,
         ControllerBase, Find;
    var tag := mac(secret, Utf8.Wire(ControllerBase(entries)));
    TagIsFound(entries, tag);
    MacSurvives(Sign(entries, secret, mac), format, tag);
    SignatureVerifiesIff(entries, tag, format, secret, mac);
  }

  // ---------------------------------------------------------------------------------
  // Messages that are always intact
  // ---------------------------------------------------------------------------------

  /** A value a caller can vouch for: a boolean, an integer above -2^64, or a string of
      printable ASCII with line feeds and carriage returns that neither is the name of a
      signed field nor ends in a quote and such a name; file data in lower-case hexadecimal. */
  predicate CleanValue(v: Value, data: bool, keys: seq<string>) {
    match v
    case Bool(_) => true
    case Int(n) => n > -(TWO64 as int)
    case Text(s) =>
      && JsonClean(s)
      && (forall i :: 0 <= i < |keys| ==> !Collides(s, keys[i]))
      && (data && Hex.FromHex(s).Some? ==> Hex.AllCanonical(s))
    case _ => false
  }

  predicate CleanEntries(entries: seq<Entry>, keys: seq<string>) {
    forall i :: 0 <= i < |entries| ==>
      CleanValue(entries[i].value, HexEncoding(entries) && entries[i].key == "data", keys)
  }

  lemma {:induction false} CleanIsAscii(s: string)
    requires JsonClean(s)
    ensures Utf8.Wire(s) == s && CborClean(s)
  {
    forall i | 0 <= i < |s|
      ensures s[i] as int < 0x80 && CborCleanChar(s[i])
    {
      assert JsonCleanChar(s[i]);
    }
    Utf8.WireOfAscii(s);
  }

  lemma {:induction false} CleanContent(s: string, key: string)
    requires JsonClean(s) && !Collides(s, key) && Word(key)
    ensures !Collides(DumpString(s), key) && !Collides(Escape(Utf8.Encode(s)), key)
  {
    hide Collides, DumpString, Escape, Utf8.Encode, Escaped, Unescape, Word, JsonClean, CborClean, Utf8.Wire;
    CleanIsAscii(s);
    DumpStringReads(s);
    CborStringReads(s);
    if Collides(DumpString(s), key) {
      CollisionUnescapes(DumpString(s), key);
    }
    if Collides(Escape(Utf8.Encode(s)), key) {
      CollisionUnescapes(Escape(Utf8.Encode(s)), key);
    }
  }

  lemma {:induction false} JsonNoCollision(entries: seq<Entry>, keys: seq<string>, key: string)
    requires Flat(entries) && CleanEntries(entries, keys) && key in keys && Word(key)
    ensures NoCollision(JsonFields(entries), key)
  {
    hide HexEncoding, Word, Collides, JsonClean, DumpString, Hex.FromHex, Hex.AllCanonical;
    forall i | 0 <= i < |entries| && JsonFields(entries)[i].token.Quote?
      ensures !Collides(JsonFields(entries)[i].token.content, key)
    {
      var s := entries[i].value.s;
      var j :| 0 <= j < |keys| && keys[j] == key;
      CleanContent(s, key);
    }
  }

  /** What one packed value may not hold. */
  predicate TokenIsSafe(v: Value, key: string)
    requires PackedValue(v)
  {
    CborToken(v).Quote? ==> !Collides(CborToken(v).content, key)
  }

  lemma {:induction false} PackedIsSafe(e: Entry, hex: bool, keys: seq<string>, key: string)
    requires FlatValue(e.value) && CleanValue(e.value, hex && e.key == "data", keys) && key in keys && Word(key)
    ensures PackedValue(Pack(e, hex).value) && TokenIsSafe(Pack(e, hex).value, key)
  {
    hide Word, Collides, JsonClean, Escape, Utf8.Encode, Digits, Hex.FromHex, Hex.AllCanonical, Hex.Encode;
    if e.value.Text? {
      var j :| 0 <= j < |keys| && keys[j] == key;
      CleanContent(e.value.s, key);
      if Hex.FromHex(e.value.s).Some? {
        Hex.PackingIsExact(e.value.s);
      }
    }
  }

  lemma {:induction false} SafeFields(entries: seq<Entry>, key: string)
    requires PackedEntries(entries)
    requires forall i :: 0 <= i < |entries| ==> TokenIsSafe(entries[i].value, key)
    ensures NoCollision(CborFields(entries), key)
  {
    hide Word, Collides, PackedValue, CborToken;
    if entries != [] {
      var e, rest := entries[0], entries[1..];
      assert forall i :: 0 <= i < |rest| ==> rest[i] == entries[i + 1];
      SafeFields(rest, key);
      var fs := CborFields(entries);
      if !e.value.Null? {
        assert fs[0] == Field(e.key, CborToken(e.value)) && fs[1..] == CborFields(rest);
        forall i | 0 <= i < |fs| && fs[i].token.Quote?
          ensures !Collides(fs[i].token.content, key)
        {
          if i > 0 {
            assert fs[i] == CborFields(rest)[i - 1];
          }
        }
      }
    }
  }

  lemma {:induction false} CborNoCollision(entries: seq<Entry>, keys: seq<string>, key: string)
    requires Flat(entries) && CleanEntries(entries, keys) && key in keys && Word(key)
    ensures NoCollision(SentFields(entries), key)
  {
    hide HexEncoding, Word, Pack, CleanValue, NoCollision, FlatValue, PackedValue, TokenIsSafe;
    var hex := HexEncoding(entries);
    PackedIsPacked(entries, hex);
    forall i | 0 <= i < |entries|
      ensures PackedValue(PackAll(entries, hex)[i].value) && TokenIsSafe(PackAll(entries, hex)[i].value, key)
    {
      PackedIsSafe(entries[i], hex, keys, key);
    }
    SafeFields(PackAll(entries, hex), key);
  }

  lemma {:induction false} FoundIsEntry(entries: seq<Entry>, key: string)
    ensures Find(entries, key).Some? ==> Entry(key, Find(entries, key).value) in entries
  {
    if entries != [] {
      FoundIsEntry(entries[1..], key);
      assert forall e :: e in entries[1..] ==> e in entries;
    }
  }

  /** File data are packed exactly where the message's own encoding is "hex" and they are
      hexadecimal; nothing else is touched. */
  lemma {:induction false} PackedIs(entries: seq<Entry>, i: nat)
    requires Flat(entries) && i < |entries|
    ensures var e, packed := entries[i], PackAll(entries, HexEncoding(entries))[i];
      packed ==
        if Find(entries, "encoding") == Some(Text("hex")) && e.key == "data" && e.value.Text?
          && Hex.FromHex(e.value.s).Some?
        then Entry("data", Raw(Hex.FromHex(e.value.s).value))
        else e
  {
    hide Hex.FromHex, Word, Find;
    if HexEncoding(entries) {
      var j :| 0 <= j < |entries| && entries[j] == Entry("encoding", Text("hex"));
      FindAt(entries, j);
    }
    FoundIsEntry(entries, "encoding");
  }

  lemma {:induction false} CleanSurvives(entries: seq<Entry>, keys: seq<string>, key: string)
    requires Flat(entries) && CleanEntries(entries, keys)
    ensures JsonSurvives(entries, key) && CborSurvives(entries, key)
  {
    hide HexEncoding, JsonClean, CborClean, Hex.FromHex, Hex.AllCanonical, Find, Word, Collides;
    FoundIsEntry(entries, key);
    if Find(entries, key).Some? {
      var v := Find(entries, key).value;
      var i :| 0 <= i < |entries| && entries[i] == Entry(key, v);
      if v.Text? {
        CleanIsAscii(v.s);
      }
    }
  }

  /** A message of clean values is intact in every format. */
  lemma {:induction false} CleanIsIntact(entries: seq<Entry>, format: Format, keys: seq<string>)
    requires Flat(entries) && EncodePayload(entries, format).Some? && AllWords(keys) && CleanEntries(entries, keys)
    ensures Intact(entries, format, keys)
  {
    hide EncodePayload, Flat, Undisturbed, SentFields, JsonFields, JsonSurvives, CborSurvives, CleanEntries, Word,
         SentAsCbor;
    forall i | 0 <= i < |keys|
      ensures Undisturbed(FieldsSeen(entries, format), keys[i]) && Survives(entries, format, keys[i])
    {
      CleanIsUndisturbed(entries, keys, keys[i]);
      CleanSurvives(entries, keys, keys[i]);
    }
  }

  lemma {:induction false} CleanIsUndisturbed(entries: seq<Entry>, keys: seq<string>, key: string)
    requires Flat(entries) && CleanEntries(entries, keys) && key in keys && Word(key)
    ensures Undisturbed(JsonFields(entries), key) && Undisturbed(SentFields(entries), key)
  {
    hide Undisturbed, NoCollision, CleanEntries, Word, HexEncoding, FlatValue, PackAll, CborFields, PackedEntries;
    JsonNoCollision(entries, keys, key);
    JsonFieldsWellFormed(entries);
    NoCollisionIsUndisturbed(JsonFields(entries), key);
    CborNoCollision(entries, keys, key);
    PackedIsPacked(entries, HexEncoding(entries));
    PackedIsWellFormed(PackAll(entries, HexEncoding(entries)));
    NoCollisionIsUndisturbed(SentFields(entries), key);
  }

  /** Envelope transparency for every flat payload of clean values. */
  lemma {:induction false} CleanPayloadIsTransparent(entries: seq<Entry>, format: Format)
    requires Flat(entries) && EncodePayload(entries, format).Some? && Fits(entries)
    requires CleanEntries(entries, AUTH_FIELDS)
    ensures DeviceBase(Received(entries, format)) == Utf8.Wire(ControllerBase(entries))
  {
    AuthFieldsAreWords();
    CleanIsIntact(entries, format, AUTH_FIELDS);
    BasesAgree(entries, format);
  }
}
