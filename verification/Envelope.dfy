/** A command from dictionary to signature check: the controller signs and encodes it, the
    device decodes it, looks its fields up and signs again. */
module Envelope {
  import opened Bytes
  import Base64Url
  import opened Cbor
  import opened CborJson
  import Decimal
  import DeviceBounds
  import Hex
  import opened JsonLookup
  import Utf8

  // ---------------------------------------------------------------------------------
  // The controller: json.dumps
  // ---------------------------------------------------------------------------------

  function UnicodeEscape(n: nat): string {
    "\\u" + Hex.Fixed(n, 4)
  }

  /** One character of a string in `json.dumps` output, which is ASCII. */
  function DumpChar(c: char): string {
    var n := c as int;
    if c == '"' || c == '\\' then ['\\', c]
    else if n == 10 then "\\n"
    else if n == 13 then "\\r"
    else if n == 9 then "\\t"
    else if n == 12 then "\\f"
    else if n == 8 then "\\b"
    else if 0x20 <= n <= 0x7E then [c]
    else if n < 0x1_0000 then UnicodeEscape(n)
    else UnicodeEscape(0xD800 + (n - 0x1_0000) / 1024) + UnicodeEscape(0xDC00 + (n - 0x1_0000) % 1024)
  }

  function DumpString(s: string): string {
    if s == "" then "" else DumpChar(s[0]) + DumpString(s[1..])
  }

  predicate FlatValue(v: Value) {
    v.Null? || v.Bool? || v.Int? || v.Text?
  }

  /** A flat dictionary whose names are words. */
  predicate Flat(entries: seq<Entry>) {
    && (forall i :: 0 <= i < |entries| ==> Word(entries[i].key) && FlatValue(entries[i].value))
    && (forall i, j :: 0 <= i < j < |entries| ==> entries[i].key != entries[j].key)
  }

  function JsonToken(v: Value): Token
    requires FlatValue(v)
  {
    match v
    case Null => Plain("null")
    case Bool(b) => Plain(if b then "true" else "false")
    case Int(n) => Plain(Decimal.Integer(n))
    case Text(s) => Quote(DumpString(s))
  }

  function JsonFields(entries: seq<Entry>): (fs: seq<Field>)
    requires forall i :: 0 <= i < |entries| ==> FlatValue(entries[i].value)
    ensures |fs| == |entries|
    ensures forall i :: 0 <= i < |fs| ==> fs[i] == Field(entries[i].key, JsonToken(entries[i].value))
  {
    seq(|entries|, i requires 0 <= i < |entries| => Field(entries[i].key, JsonToken(entries[i].value)))
  }

  /** `json.dumps(payload, separators=(",", ":"))` */
  function Dumps(entries: seq<Entry>): string
    requires Flat(entries)
  {
    Object(JsonFields(entries))
  }

  // ---------------------------------------------------------------------------------
  // The controller: the CBOR envelope
  // ---------------------------------------------------------------------------------

  /** `payload.get("encoding") == "hex"` */
  predicate HexEncoding(entries: seq<Entry>) {
    exists i :: 0 <= i < |entries| && entries[i] == Entry("encoding", Text("hex"))
  }

  /** `_bytes_for_cbor` on one entry: hexadecimal file data is packed into bytes. */
  function Pack(e: Entry, hex: bool): Entry {
    if hex && e.key == "data" && e.value.Text? && Hex.FromHex(e.value.s).Some?
    then Entry(e.key, Raw(Hex.FromHex(e.value.s).value))
    else e
  }

  function PackAll(entries: seq<Entry>, hex: bool): (packed: seq<Entry>)
    ensures |packed| == |entries|
    ensures forall i :: 0 <= i < |entries| ==> packed[i] == Pack(entries[i], hex)
  {
    seq(|entries|, i requires 0 <= i < |entries| => Pack(entries[i], hex))
  }

  function Packed(entries: seq<Entry>): Value {
    Dict(PackAll(entries, HexEncoding(entries)))
  }

  datatype Format = Json | CborEnvelope | Auto

  /** `encode_mqtt_payload`: None where `struct.pack` raises. */
  function EncodePayload(entries: seq<Entry>, format: Format): Option<seq<Byte>>
    requires Flat(entries)
  {
    var json := Utf8.Encode(Dumps(entries));
    if format == Json then Some(json)
    else if !Encodable(Packed(entries)) then None
    else
      var envelope := Utf8.Encode("~" + Base64Url.Encode(Encode(Packed(entries))));
      if format == Auto && |envelope| >= |json| then Some(json) else Some(envelope)
  }

  /** JSON begins with a brace and an envelope with a tilde, and the automatic form is the shorter
      of the two, JSON where they are equally long. */
  lemma {:induction false} FormatIsChosen(entries: seq<Entry>)
    requires Flat(entries) && Encodable(Packed(entries))
    ensures var json, envelope := EncodePayload(entries, Json), EncodePayload(entries, CborEnvelope);
      && json.Some? && json.value != [] && json.value[0] == 0x7B
      && envelope.Some? && envelope.value != [] && envelope.value[0] == 0x7E
      && EncodePayload(entries, Auto) == if |envelope.value| < |json.value| then envelope else json
  {
    hide Encode, Base64Url.Encode, Encodable, Packed, Flat, Body;
    var json, text := Dumps(entries), "~" + Base64Url.Encode(Encode(Packed(entries)));
    FirstOctet(json);
    FirstOctet(text);
    assert json[0] == '{' && text[0] == '~';
  }

  lemma {:induction false} FirstOctet(s: string)
    requires s != "" && s[0] as int < 0x80
    ensures Utf8.Encode(s) != [] && Utf8.Encode(s)[0] == s[0] as int
  {}

  // ---------------------------------------------------------------------------------
  // The device
  // ---------------------------------------------------------------------------------

  /** What `decodePayloadEnvelope` returns; or, where the decoder leaves its buffer, what it had
      written before, since nothing is known of what it reads there. */
  datatype Decoding = Decoded(text: string) | PastBuffer(text: string)

  /** Anything else than an envelope is JSON already; of a bad envelope, the text decoded so far
      is returned. */
  function DecodeEnvelope(payload: string): Decoding {
    if !("~" <= payload) then Decoded(payload)
    else
      match Base64Url.Decode(payload[1..], 0, 0)
      case None => Decoded("")
      case Some(bytes) =>
        var r := Scan(bytes, 0);
        if r.Overrun? then PastBuffer(r.text) else Decoded(r.text)
  }

  method DecodePayloadEnvelope(payload: string) returns (json: Decoding)
    ensures json == DecodeEnvelope(payload)
  {
    if !("~" <= payload) {
      return Decoded(payload);
    }
    var encoded := payload[1..];
    var maxLen := |encoded| * 3 / 4 + 3;
    var buffer := new Byte[maxLen];
    Base64Url.CapacitySuffices(encoded);
    var ok, decodedLen := Base64Url.DecodeBase64Url(encoded, buffer, maxLen);
    if !ok {
      return Decoded("");
    }
    var decoder := new CborJsonDecoder(buffer[..decodedLen]);
    assert decoder.Rest() == buffer[..decodedLen];
    var status, text := decoder.DecodeValue("");
    assert "" + Scan(buffer[..decodedLen], 0).text == Scan(buffer[..decodedLen], 0).text;
    json := if status == OutOfBounds then PastBuffer(text) else Decoded(text);
  }

  /** Anything that does not begin like an envelope is passed on as it is; an envelope with a
      character outside the alphabet of base64url gives nothing. */
  lemma {:induction false} PlainOrBad(payload: string)
    ensures !("~" <= payload) ==> DecodeEnvelope(payload) == Decoded(payload)
    ensures "~" <= payload && (exists i :: 0 < i < |payload| && Base64Url.Value(payload[i]) < 0) ==>
      DecodeEnvelope(payload) == Decoded("")
  {
    hide Base64Url.Decode, Base64Url.Value, Scan;
    if "~" <= payload {
      Base64Url.DecodesIff(payload[1..], 0, 0);
      assert forall i :: 0 < i < |payload| ==> payload[i] == payload[1..][i - 1];
    }
  }

  /** An envelope makes the device leave its buffer if and only if a string head that its
      decoder reaches declares at least 2^64 less its position. */
  lemma {:induction false} EnvelopeOverrunsIff(bytes: seq<Byte>)
    ensures DecodeEnvelope("~" + Base64Url.Encode(bytes)).PastBuffer?
       <==> DeviceBounds.AnyWraps(DeviceBounds.Heads(bytes, 0))
  {
    hide Scan, DeviceBounds.Heads, DeviceBounds.AnyWraps, Base64Url.Encode, Base64Url.Decode;
    var payload := "~" + Base64Url.Encode(bytes);
    assert payload[1..] == Base64Url.Encode(bytes);
    Base64Url.DecodeOfEncode(bytes);
    DeviceBounds.OverrunIff(bytes, 0);
  }

  /** Thirteen characters do. */
  lemma {:induction false} EnvelopeOverruns()
    ensures DecodeEnvelope("~e___________") == PastBuffer("")
  {
    hide Scan, Base64Url.Encode, Base64Url.Decode;
    var bytes := DeviceBounds.HUGE_TEXT;
    HugeTextInBase64();
    Base64Url.DecodeOfEncode(bytes);
    DeviceBounds.HugeTextOverruns();
    assert "~e___________"[1..] == "e___________";
  }

  lemma {:induction false} HugeTextInBase64()
    ensures Base64Url.Encode(DeviceBounds.HUGE_TEXT) == "e___________"
  {
    var bytes := DeviceBounds.HUGE_TEXT;
    assert bytes[3..] == [0xFF, 0xFF, 0xFF, 0xFF, 0xFF, 0xFF] && bytes[3..][3..] == [0xFF, 0xFF, 0xFF];
    assert bytes[3..][3..][3..] == [];
    assert Base64Url.Block(0x7B, 0xFF, 0xFF) == "e___" && Base64Url.Block(0xFF, 0xFF, 0xFF) == "____";
  }

  /** The fields `authBase` goes through on the device. */
  const AUTH_FIELDS: seq<string> := [
    "schema", "device_id", "msg_id", "job_id", "op", "session_id", "command_id",
    "request_id", "mode", "path", "size", "crc32", "sha256", "chunk_size",
    "seq", "offset", "encoding", "data", "url", "compact"]

  /** A field's line in the text that is signed; an empty value has none. */
  function Line(key: string, value: string): string {
    if value == "" then "" else key + "=" + value + "\n"
  }

  function DeviceLines(json: string, keys: seq<string>): string {
    if keys == [] then "" else Line(keys[0], Lookup(json, keys[0])) + DeviceLines(json, keys[1..])
  }

  /** `authBase` on the device */
  function DeviceBase(json: string): string {
    DeviceLines(json, AUTH_FIELDS)
  }

  lemma {:induction false} DeviceLinesAppend(json: string, a: seq<string>, b: seq<string>)
    ensures DeviceLines(json, a + b) == DeviceLines(json, a) + DeviceLines(json, b)
  {
    hide Lookup, Line;
    if a == [] {
      assert a + b == b;
    } else {
      assert (a + b)[0] == a[0] && (a + b)[1..] == a[1..] + b;
      DeviceLinesAppend(json, a[1..], b);
    }
  }

  lemma {:induction false} OneDeviceLine(json: string, key: string)
    ensures DeviceLines(json, [key]) == Line(key, Lookup(json, key))
  {
    hide Lookup, Line;
    assert [key][1..] == [] && DeviceLines(json, []) == "";
    assert Line(key, Lookup(json, key)) + "" == Line(key, Lookup(json, key));
  }

  lemma {:induction false} NextDeviceLine(json: string, keys: seq<string>, i: nat)
    requires i < |keys|
    ensures DeviceLines(json, keys[..i + 1]) == DeviceLines(json, keys[..i]) + Line(keys[i], Lookup(json, keys[i]))
  {
    hide Lookup, Line, DeviceLines;
    assert keys[..i + 1] == keys[..i] + [keys[i]];
    DeviceLinesAppend(json, keys[..i], [keys[i]]);
    OneDeviceLine(json, keys[i]);
  }

  method AuthBase(payload: string) returns (base: string)
    ensures base == DeviceBase(payload)
  {
    hide Lookup, DeviceLines;
    base := "";
    var keys := AUTH_FIELDS;
    NoDeviceLines(payload);
    assert keys[..0] == [];
    for i := 0 to |keys|
      invariant base == DeviceLines(payload, keys[..i])
    {
      ghost var before := base;
      var value := JsonValue(payload, keys[i]);
      NextDeviceLine(payload, keys, i);
      if |value| == 0 {
        assert base + "" == base;
        continue;
      }
      base := base + keys[i];
      base := base + "=";
      base := base + value;
      base := base + "\n";
      assert base == before + (keys[i] + "=" + value + "\n");
    }
    assert keys[..|keys|] == keys;
  }

  lemma {:induction false} NoDeviceLines(json: string)
    ensures DeviceLines(json, []) == ""
  {}

  // ---------------------------------------------------------------------------------
  // The controller's signed text
  // ---------------------------------------------------------------------------------

  function Find(entries: seq<Entry>, key: string): Option<Value> {
    if entries == [] then None
    else if entries[0].key == key then Some(entries[0].value)
    else Find(entries[1..], key)
  }

  /** The text of a value in `auth_base`. */
  function ValueText(v: Value): string
    requires FlatValue(v)
  {
    match v
    case Null => ""
    case Bool(b) => if b then "true" else "false"
    case Int(n) => Decimal.Integer(n)
    case Text(s) => s
  }

  function SignedText(entries: seq<Entry>, key: string): string
    requires Flat(entries)
  {
    FindIsFlat(entries, key);
    match Find(entries, key)
    case None => ""
    case Some(v) => ValueText(v)
  }

  lemma {:induction false} FindIsFlat(entries: seq<Entry>, key: string)
    requires forall i :: 0 <= i < |entries| ==> FlatValue(entries[i].value)
    ensures Find(entries, key).Some? ==> FlatValue(Find(entries, key).value)
  {
    if entries != [] {
      FindIsFlat(entries[1..], key);
    }
  }

  function ControllerLines(entries: seq<Entry>, keys: seq<string>): string
    requires Flat(entries)
  {
    if keys == [] then "" else Line(keys[0], SignedText(entries, keys[0])) + ControllerLines(entries, keys[1..])
  }

  /** The fields `auth_base` goes through on the controller, which has a list of its own. */
  const CONTROLLER_FIELDS: seq<string> := [
    "schema", "device_id", "msg_id", "job_id", "op", "session_id", "command_id",
    "request_id", "mode", "path", "size", "crc32", "sha256", "chunk_size",
    "seq", "offset", "encoding", "data", "url", "compact"]

  lemma {:induction false} FieldListsAgree()
    ensures CONTROLLER_FIELDS == AUTH_FIELDS
  {
    assert CONTROLLER_FIELDS[..10] == AUTH_FIELDS[..10] && CONTROLLER_FIELDS[10..] == AUTH_FIELDS[10..];
  }

  /** `auth_base`, before its final UTF-8 encoding. */
  function ControllerBase(entries: seq<Entry>): string
    requires Flat(entries)
  {
    ControllerLines(entries, CONTROLLER_FIELDS)
  }
}
