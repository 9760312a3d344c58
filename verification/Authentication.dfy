/** The device's signature check on whole messages: what it accepts, and what it refuses. */
module Authentication {
  import opened Cbor
  import opened CleanMessages
  import opened Envelope
  import Hex
  import opened JsonLookup
  import opened SignedFields
  import opened SignedMessages
  import opened SignedTexts
  import Utf8

  // ---------------------------------------------------------------------------------
  // Tags on clean messages
  // ---------------------------------------------------------------------------------

  /** `verifyIncomingAuth`; `mac` is `hmacSha256Hex` on the text to sign. */
  method VerifyIncomingAuth(payload: string, secret: string, mac: (string, string) -> string) returns (ok: bool)
    ensures ok == Verify(payload, secret, mac)
  {
    hide Lookup, DeviceBase;
    if secret == "" {
      return false;
    }
    var received := JsonValue(payload, "auth");
    if |received| != 64 {
      return false;
    }
    var base := AuthBase(payload);
    var expected := mac(secret, base);
    ok := |expected| == 64 && received == expected;
  }

  /** A dictionary of clean values that is not signed yet. */
  predicate Clean(m: seq<Entry>) {
    Flat(m) && CleanEntries(m, KEYS) && forall i :: 0 <= i < |m| ==> m[i].key != "auth"
  }

  /** A message with a tag, as it is sent. */
  predicate Sendable(m: seq<Entry>, tag: string, format: Format) {
    var tagged := Tagged(m, tag);
    Clean(m) && CleanText(tag) && Flat(tagged) && EncodePayload(tagged, format).Some? && Fits(tagged)
  }

  lemma {:induction false} TaggedIsFlat(m: seq<Entry>, tag: string)
    requires Clean(m)
    ensures Flat(Tagged(m, tag))
  {
    hide CleanEntries, Word;
    AuthIsNotSigned();
    var tagged := Tagged(m, tag);
    assert forall i :: 0 <= i < |m| ==> tagged[i] == m[i];
  }

  lemma {:induction false} TaggedIsClean(m: seq<Entry>, tag: string)
    requires Clean(m) && CleanText(tag)
    ensures CleanEntries(Tagged(m, tag), KEYS)
  {
    hide JsonClean, Collides, Hex.FromHex, Hex.AllCanonical, Word;
    var tagged := Tagged(m, tag);
    assert "auth"[0] != "data"[0] && "auth"[0] != "encoding"[0];
    assert HexEncoding(tagged) ==> HexEncoding(m) by {
      if HexEncoding(tagged) {
        var i :| 0 <= i < |tagged| && tagged[i] == Entry("encoding", Text("hex"));
        assert m[i] == tagged[i];
      }
    }
    assert HexEncoding(m) ==> HexEncoding(tagged) by {
      if HexEncoding(m) {
        var i :| 0 <= i < |m| && m[i] == Entry("encoding", Text("hex"));
        assert tagged[i] == m[i];
      }
    }
    forall i | 0 <= i < |tagged|
      ensures CleanValue(tagged[i].value, HexEncoding(tagged) && tagged[i].key == "data", KEYS)
    {
      if i < |m| {
        assert tagged[i] == m[i];
      }
    }
  }

  /** Every tag in lower-case hexadecimal is clean, whatever its length. */
  lemma {:induction false} HexTagIsClean(tag: string)
    requires Hex.AllCanonical(tag)
    ensures CleanText(tag)
  {
    hide Hex.AllCanonical, Collides, JsonClean;
    HexIsClean(tag);
  }

  /** Of the clean messages, in every format: the device accepts exactly those whose tag is the
      MAC of their own signed text under a secret that is not empty. */
  lemma {:induction false} AcceptedIff(m: seq<Entry>, tag: string, format: Format, secret: string,
        mac: (string, string) -> string)
    requires Sendable(m, tag, format) && IsMac(mac)
    ensures Verify(Received(Tagged(m, tag), format), secret, mac)
       <==> secret != "" && tag == mac(secret, Utf8.Wire(ControllerBase(m)))
  {
    hide Flat, EncodePayload, Fits, CleanEntries, Received, Undisturbed, FieldsSeen, Survives, Verify, Tagged, Word,
         ControllerBase, Utf8.Wire, CleanText;
    TaggedIsClean(m, tag);
    KeysAreWords();
    CleanIsIntact(Tagged(m, tag), format, KEYS);
    assert forall i :: 0 <= i < |AUTH_FIELDS| ==> AUTH_FIELDS[i] == KEYS[i];
    assert KEYS[|AUTH_FIELDS|] == "auth";
    SignatureVerifiesIff(m, tag, format, secret, mac);
  }

  /** A message signed by the controller is one of them. */
  lemma {:induction false} OwnTagIsAccepted(m: seq<Entry>, format: Format, secret: string,
        mac: (string, string) -> string)
    requires Flat(m) && secret != "" && IsMac(mac)
    requires var signed := Sign(m, secret, mac);
      Flat(signed) && EncodePayload(signed, format).Some? && Fits(signed) && CleanEntries(signed, KEYS)
    ensures Verify(Received(Sign(m, secret, mac), format), secret, mac)
  {
    hide Flat, EncodePayload, Fits, CleanEntries, Received, Undisturbed, FieldsSeen, Survives, Verify, Sign, Word;
    KeysAreWords();
    CleanIsIntact(Sign(m, secret, mac), format, KEYS);
    assert forall i :: 0 <= i < |AUTH_FIELDS| ==> AUTH_FIELDS[i] == KEYS[i];
    assert KEYS[|AUTH_FIELDS|] == "auth";
    SignatureVerifies(m, format, secret, mac);
  }

  /** A clean message that carries no tag is refused. */
  lemma {:induction false} UntaggedIsRefused(m: seq<Entry>, format: Format, secret: string,
        mac: (string, string) -> string)
    requires Clean(m) && EncodePayload(m, format).Some? && Fits(m)
    ensures !Verify(Received(m, format), secret, mac)
  {
    hide Flat, EncodePayload, Fits, CleanEntries, Received, Undisturbed, FieldsSeen, Survives, Word, Utf8.Wire,
         Lookup, DeviceBase;
    KeysAreWords();
    CleanIsIntact(m, format, KEYS);
    assert KEYS[|AUTH_FIELDS|] == "auth";
    FindNothing(m, "auth");
    FieldAgrees(m, format, "auth");
    WireIsNothing("");
  }

  // ---------------------------------------------------------------------------------
  // Tampering
  // ---------------------------------------------------------------------------------

  /** The MAC tells the signed texts of two messages apart. */
  ghost predicate TellsApart(mac: (string, string) -> string, secret: string, a: seq<Entry>, b: seq<Entry>)
    requires Flat(a) && Flat(b)
  {
    var x, y := Utf8.Wire(ControllerBase(a)), Utf8.Wire(ControllerBase(b));
    mac(secret, x) == mac(secret, y) ==> x == y
  }

  /** The tag of one message under a secret. */
  function TagOf(m: seq<Entry>, secret: string, mac: (string, string) -> string): string
    requires Flat(m)
  {
    mac(secret, Utf8.Wire(ControllerBase(m)))
  }

  /** Tampering: unless the MAC collides on the two signed texts, the tag of one message is
      accepted on another if and only if no signed field differs in its text. */
  lemma {:induction false} TamperingIsRefused(a: seq<Entry>, b: seq<Entry>, format: Format, secret: string,
        mac: (string, string) -> string)
    requires Clean(a) && IsMac(mac) && secret != ""
    requires Sendable(b, TagOf(a, secret, mac), format)
    requires OneLineEach(a, AUTH_FIELDS) && OneLineEach(b, AUTH_FIELDS) && TellsApart(mac, secret, a, b)
    ensures Verify(Received(Tagged(b, TagOf(a, secret, mac)), format), secret, mac)
       <==> SameTexts(a, b, AUTH_FIELDS)
  {
    hide Flat, EncodePayload, Fits, CleanEntries, Received, Verify, Tagged, ControllerBase, Utf8.Wire, CleanText,
         SameTexts, OneLineEach;
    AcceptedIff(b, TagOf(a, secret, mac), format, secret, mac);
    BaseDeterminesFields(a, b);
    if Utf8.Wire(ControllerBase(a)) == Utf8.Wire(ControllerBase(b)) {
      Utf8.WireInjective(ControllerBase(a), ControllerBase(b));
    }
  }

  // ---------------------------------------------------------------------------------
  // What the signature covers
  // ---------------------------------------------------------------------------------

  /** The fields the device's handlers act on. */
  const HANDLED: seq<string> := [
    "request_id", "mode", "session_id", "command_id", "command", "job_id", "op", "path", "size", "crc32",
    "chunk_size", "seq", "data", "url", "sha256"]

  /** Of the fields the handlers act on, all are signed except the text of a console command. */
  lemma {:induction false} HandledFieldsAreSigned()
    ensures forall i :: 0 <= i < |HANDLED| ==> (HANDLED[i] in AUTH_FIELDS <==> HANDLED[i] != "command")
  {
    var at := [7, 8, 5, 6, 0, 3, 4, 9, 10, 11, 13, 14, 17, 18, 12];
    forall i | 0 <= i < |HANDLED|
      ensures HANDLED[i] in AUTH_FIELDS <==> HANDLED[i] != "command"
    {
      if i == 4 {
        CommandIsNotSigned();
      } else {
        assert AUTH_FIELDS[at[i]] == HANDLED[i];
        assert |HANDLED[i]| != 7;
      }
    }
  }

  lemma {:induction false} CommandIsNotSigned()
    ensures "command" !in AUTH_FIELDS
  {
    forall i | 0 <= i < |AUTH_FIELDS|
      ensures AUTH_FIELDS[i] != "command"
    {
      assert |AUTH_FIELDS[i]| != 7 || AUTH_FIELDS[i][3] != 'm';
    }
  }

  lemma {:induction false} FindIgnores(m: seq<Entry>, i: nat, v: Value, key: string)
    requires i < |m| && m[i].key != key
    ensures Find(m[i := Entry(m[i].key, v)], key) == Find(m, key)
  {
    var n := m[i := Entry(m[i].key, v)];
    if i == 0 {
      assert n[1..] == m[1..];
    } else {
      assert n[1..] == m[1..][i - 1 := Entry(m[i].key, v)];
      FindIgnores(m[1..], i - 1, v, key);
    }
  }

  lemma {:induction false} LinesIgnore(m: seq<Entry>, i: nat, v: Value, keys: seq<string>)
    requires i < |m| && m[i].key !in keys && Flat(m) && Flat(m[i := Entry(m[i].key, v)])
    ensures ControllerLines(m[i := Entry(m[i].key, v)], keys) == ControllerLines(m, keys)
  {
    hide Flat, Line, ValueText, Find;
    if keys != [] {
      FindIgnores(m, i, v, keys[0]);
      LinesIgnore(m, i, v, keys[1..]);
    }
  }

  /** So a console message keeps its tag whatever its command is changed to. */
  lemma {:induction false} CommandKeepsTag(m: seq<Entry>, i: nat, command: string, format: Format, secret: string,
        mac: (string, string) -> string)
    requires i < |m| && m[i].key == "command" && Clean(m) && secret != "" && IsMac(mac)
    requires Sendable(m[i := Entry("command", Text(command))], TagOf(m, secret, mac), format)
    ensures var other := m[i := Entry("command", Text(command))];
      Verify(Received(Tagged(other, TagOf(m, secret, mac)), format), secret, mac)
  {
    hide Flat, EncodePayload, Fits, CleanEntries, Received, Verify, Tagged, Utf8.Wire, CleanText, ControllerLines;
    var other := m[i := Entry("command", Text(command))];
    CommandIsNotSigned();
    FieldListsAgree();
    LinesIgnore(m, i, Text(command), AUTH_FIELDS);
    AcceptedIff(other, TagOf(m, secret, mac), format, secret, mac);
  }
}
