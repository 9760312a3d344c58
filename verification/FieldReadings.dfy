/** What the device reads for any field of any flat payload, clean or not. */
module FieldReadings {
  import opened Bytes
  import opened Cbor
  import opened CborJson
  import Decimal
  import opened DeviceReadsCbor
  import opened Envelope
  import Hex
  import opened JsonLookup
  import opened SignedFields
  import opened SignedMessages
  import Utf8

  // ---------------------------------------------------------------------------------
  // Strings sent as JSON
  // ---------------------------------------------------------------------------------

  /** A `\u` escape is read without its backslash, and so are `\t`, `\b` and `\f`. */
  function JsonHeardChar(c: char): string {
    var n := c as int;
    if JsonCleanChar(c) then [c]
    else if n == 9 then "t"
    else if n == 12 then "f"
    else if n == 8 then "b"
    else if n < 0x1_0000 then "u" + Hex.Fixed(n, 4)
    else "u" + Hex.Fixed(0xD800 + (n - 0x1_0000) / 1024, 4) + "u" + Hex.Fixed(0xDC00 + (n - 0x1_0000) % 1024, 4)
  }

  function JsonHeard(s: string): string {
    if s == "" then "" else JsonHeardChar(s[0]) + JsonHeard(s[1..])
  }

  lemma {:induction false} UnicodeEscapeIsHeard(n: nat)
    ensures Escaped(UnicodeEscape(n)) && Unescape(UnicodeEscape(n)) == "u" + Hex.Fixed(n, 4)
  {
    var hex := Hex.Fixed(n, 4);
    assert AllNameChars(hex) by {
      forall i | 0 <= i < |hex|
        ensures NameChar(hex[i])
      {
        assert Hex.Canonical(hex[i]);
      }
    }
    WordIsEscaped(hex);
    hide Hex.Fixed;
    assert UnicodeEscape(n)[2..] == hex;
  }

  lemma {:induction false} DumpCharIsHeard(c: char)
    ensures Escaped(DumpChar(c)) && Unescape(DumpChar(c)) == JsonHeardChar(c)
  {
    hide UnicodeEscape, Escaped, Unescape, Hex.Fixed;
    var n := c as int;
    if c == '"' || c == '\\' || n == 8 || n == 9 || n == 10 || n == 12 || n == 13 {
      OneUnit(DumpChar(c));
    } else if 0x20 <= n <= 0x7E {
      OnePlain(c);
    } else if n < 0x1_0000 {
      UnicodeEscapeIsHeard(n);
    } else {
      var high, low := 0xD800 + (n - 0x1_0000) / 1024, 0xDC00 + (n - 0x1_0000) % 1024;
      UnicodeEscapeIsHeard(high);
      UnicodeEscapeIsHeard(low);
      EscapedAppend(UnicodeEscape(high), UnicodeEscape(low));
      assert "u" + Hex.Fixed(high, 4) + ("u" + Hex.Fixed(low, 4)) == JsonHeardChar(c);
    }
  }

  /** What the device reads of any string in `json.dumps` output. */
  lemma {:induction false} JsonStringIsHeard(s: string)
    ensures Escaped(DumpString(s)) && Unescape(DumpString(s)) == JsonHeard(s)
  {
    hide DumpChar, JsonHeardChar, Escaped, Unescape;
    if s == "" {
      EmptyReads();
    } else {
      DumpCharIsHeard(s[0]);
      JsonStringIsHeard(s[1..]);
      EscapedAppend(DumpChar(s[0]), DumpString(s[1..]));
    }
  }

  // ---------------------------------------------------------------------------------
  // Strings sent as CBOR
  // ---------------------------------------------------------------------------------

  /** A tab is read as the letter of its escape; other control characters are dropped. */
  function CborHeardChar(c: char): string {
    if c == '\t' then "t" else if CborCleanChar(c) then [c] else ""
  }

  function CborHeard(s: string): string {
    if s == "" then "" else CborHeardChar(s[0]) + CborHeard(s[1..])
  }

  function HeardByte(b: Byte): string {
    if b == 9 then "t" else if CleanByte(b) then [b as char] else ""
  }

  function HeardBytes(bytes: seq<Byte>): string {
    if bytes == [] then "" else HeardByte(bytes[0]) + HeardBytes(bytes[1..])
  }

  lemma {:induction false} EscapeByteIsHeard(b: Byte)
    ensures Escaped(EscapeByte(b)) && Unescape(EscapeByte(b)) == HeardByte(b)
  {
    hide Escaped, Unescape;
    if b == '"' as int || b == '\\' as int || b == 9 || b == 10 || b == 13 {
      OneUnit(EscapeByte(b));
    } else if b >= 0x20 {
      OnePlain(b as char);
    } else {
      EmptyReads();
    }
  }

  lemma {:induction false} EscapeIsHeard(bytes: seq<Byte>)
    ensures Escaped(Escape(bytes)) && Unescape(Escape(bytes)) == HeardBytes(bytes)
  {
    hide EscapeByte, HeardByte, Escaped, Unescape;
    if bytes == [] {
      EmptyReads();
    } else {
      EscapeByteIsHeard(bytes[0]);
      EscapeIsHeard(bytes[1..]);
      EscapedAppend(EscapeByte(bytes[0]), Escape(bytes[1..]));
    }
  }

  lemma {:induction false} HeardAppend(a: seq<Byte>, b: seq<Byte>)
    ensures HeardBytes(a + b) == HeardBytes(a) + HeardBytes(b)
  {
    hide HeardByte;
    if a == [] {
      assert a + b == b;
    } else {
      assert (a + b)[0] == a[0] && (a + b)[1..] == a[1..] + b;
      HeardAppend(a[1..], b);
    }
  }

  lemma {:induction false} HighBytesAreHeard(bytes: seq<Byte>)
    requires forall i :: 0 <= i < |bytes| ==> bytes[i] >= 0x80
    ensures HeardBytes(bytes) == Latin1(bytes)
  {
    if bytes != [] {
      HighBytesAreHeard(bytes[1..]);
    }
  }

  lemma {:induction false} CharIsHeard(c: char)
    ensures HeardBytes(Utf8.EncodeChar(c)) == Utf8.Wire(CborHeardChar(c))
  {
    var bytes := Utf8.EncodeChar(c);
    WireOfChar(c);
    if c as int < 0x80 {
      assert bytes == [c as int] && [c as int][1..] == [] && HeardBytes([]) == "";
      assert HeardByte(bytes[0]) + "" == HeardByte(bytes[0]);
      Utf8.WireOfAscii(CborHeardChar(c));
    } else {
      HighBytesAreHeard(bytes);
    }
  }

  lemma {:induction false} TextIsHeard(s: string)
    ensures HeardBytes(Utf8.Encode(s)) == Utf8.Wire(CborHeard(s))
  {
    hide HeardBytes, Utf8.EncodeChar, Utf8.Wire, CborHeardChar;
    if s == "" {
      NothingIsHeard();
    } else {
      CharIsHeard(s[0]);
      TextIsHeard(s[1..]);
      HeardAppend(Utf8.EncodeChar(s[0]), Utf8.Encode(s[1..]));
      Utf8.WireAppend(CborHeardChar(s[0]), CborHeard(s[1..]));
    }
  }

  lemma {:induction false} NothingIsHeard()
    ensures HeardBytes([]) == "" && Utf8.Wire("") == ""
  {}

  /** What the device reads of any string in a CBOR envelope. */
  lemma {:induction false} CborStringIsHeard(s: string)
    ensures Escaped(Escape(Utf8.Encode(s))) && Unescape(Escape(Utf8.Encode(s))) == Utf8.Wire(CborHeard(s))
  {
    hide Escape, Utf8.Encode, Utf8.Wire, Escaped, Unescape;
    EscapeIsHeard(Utf8.Encode(s));
    TextIsHeard(s);
  }

  // ---------------------------------------------------------------------------------
  // Fields
  // ---------------------------------------------------------------------------------

  function JsonReading(entries: seq<Entry>, key: string): string
    requires Flat(entries)
  {
    FindIsFlat(entries, key);
    match Find(entries, key)
    case None => ""
    case Some(Null) => "null"
    case Some(Text(s)) => JsonHeard(s)
    case Some(v) => ValueText(v)
  }

  function CborReading(entries: seq<Entry>, key: string): string
    requires Flat(entries)
  {
    FindIsFlat(entries, key);
    match Find(entries, key)
    case None => ""
    case Some(Int(n)) => Digits(n, false)
    case Some(Text(s)) =>
      if HexEncoding(entries) && key == "data" && Hex.FromHex(s).Some? then Hex.Encode(Hex.FromHex(s).value)
      else Utf8.Wire(CborHeard(s))
    case Some(v) => ValueText(v)
  }

  lemma {:induction false} JsonFieldReads(entries: seq<Entry>, key: string)
    requires Flat(entries) && Word(key) && Undisturbed(JsonFields(entries), key)
    ensures Lookup(Dumps(entries), key) == JsonReading(entries, key)
  {
    hide Lookup, Object, Undisturbed, DumpString, JsonHeard, Word, AllWellFormed, Escaped, Unescape, Decimal.Integer;
    JsonFieldsWellFormed(entries);
    LookupFindsValueIff(JsonFields(entries), key);
    GetJson(entries, key);
    FindIsFlat(entries, key);
    if Find(entries, key).Some? && Find(entries, key).value.Text? {
      JsonStringIsHeard(Find(entries, key).value.s);
    }
  }

  lemma {:induction false} CborFieldReads(entries: seq<Entry>, key: string)
    requires Flat(entries) && Encodable(Packed(entries)) && Word(key) && Undisturbed(SentFields(entries), key)
    ensures Lookup(Object(SentFields(entries)), key) == CborReading(entries, key)
  {
    hide Lookup, Object, Undisturbed, SentFields, Escape, Utf8.Encode, Utf8.Wire, CborHeard, Word, Encodable, Packed,
         Hex.FromHex, Hex.Encode, HexEncoding, Digits, Unescape;
    SentValue(entries, key);
    FindIsFlat(entries, key);
    if Find(entries, key).Some? {
      var v := Find(entries, key).value;
      if v.Text? {
        CborStringIsHeard(v.s);
        if Hex.FromHex(v.s).Some? {
          HexIsEscaped(Hex.FromHex(v.s).value);
        }
      }
    }
  }

  /** In every format, for every value: what the device reads for a field. */
  lemma {:induction false} FieldReads(entries: seq<Entry>, format: Format, key: string)
    requires Flat(entries) && EncodePayload(entries, format).Some? && Fits(entries) && Word(key)
    requires Undisturbed(FieldsSeen(entries, format), key)
    ensures Lookup(Received(entries, format), key) ==
      if SentAsCbor(entries, format) then CborReading(entries, key) else JsonReading(entries, key)
  {
    PayloadCases(entries, format);
    hide Lookup, Object, EncodePayload, Encodable, Flat, Received, Undisturbed, SentFields, JsonFields, CborReading,
         JsonReading, Packed, DecodeEnvelope;
    if SentAsCbor(entries, format) {
      CborFieldReads(entries, key);
    } else {
      JsonFieldReads(entries, key);
    }
  }
}
