/** Messages that are always intact: clean values and the names the device looks up. */
module CleanMessages {
  import opened Cbor
  import Decimal
  import opened Envelope
  import Hex
  import opened JsonLookup
  import opened SignedFields
  import opened SignedMessages
  import Utf8

  /** The fields the device looks up: the signed ones and the signature. */
  const KEYS: seq<string> := AUTH_FIELDS + ["auth"]

  predicate CleanText(s: string) {
    CleanValue(Text(s), false, KEYS)
  }

  lemma {:induction false} KeysAreWords()
    ensures AllWords(KEYS)
  {
    hide Word;
    AuthFieldsAreWords();
    AuthIsNotSigned();
  }

  /** A name without quotes collides only with itself. */
  lemma {:induction false} NameIsClean(s: string)
    requires Word(s) && s !in KEYS
    ensures CleanText(s)
  {
    forall i | 0 <= i < |s|
      ensures JsonCleanChar(s[i])
    {
      assert NameChar(s[i]);
    }
    forall i | 0 <= i < |KEYS|
      ensures !Collides(s, KEYS[i])
    {
      NameEndsPlainly(s, KEYS[i]);
    }
  }

  lemma {:induction false} NameEndsPlainly(s: string, key: string)
    requires AllNameChars(s) && s != key
    ensures !Collides(s, key)
  {
    var t := "\"" + key;
    if |t| <= |s| {
      assert NameChar(s[|s| - |t|]);
      assert s[|s| - |t|..][0] == s[|s| - |t|] && t[0] == '"';
    }
  }

  /** Every field name has a letter that is no hexadecimal digit. */
  lemma {:induction false} KeyIsNotHex(i: nat)
    requires i < |KEYS|
    ensures exists j :: 0 <= j < |KEYS[i]| && !Hex.Canonical(KEYS[i][j])
  {
    var at := [0, 2, 0, 0, 0, 0, 1, 0, 0, 0, 0, 1, 0, 1, 0, 0, 1, 2, 0, 1, 1];
    assert !Hex.Canonical(KEYS[i][at[i]]);
  }

  lemma {:induction false} HexIsClean(s: string)
    requires Hex.AllCanonical(s)
    ensures CleanValue(Text(s), true, KEYS)
  {
    forall i | 0 <= i < |s|
      ensures JsonCleanChar(s[i]) && NameChar(s[i])
    {
      assert Hex.Canonical(s[i]);
    }
    forall i | 0 <= i < |KEYS|
      ensures !Collides(s, KEYS[i])
    {
      KeyIsNotHex(i);
      NameEndsPlainly(s, KEYS[i]);
    }
  }

  /** A constant of the protocol is no field name. */
  lemma {:induction false} ConstantsAreClean()
    ensures CleanText("rdm-1") && CleanText("put_mqtt") && CleanText("hex")
  {
    hide CleanText;
    forall i | 0 <= i < |KEYS|
      ensures KEYS[i] != "rdm-1" && KEYS[i] != "put_mqtt" && KEYS[i] != "hex"
    {
      assert |KEYS[i]| != 5 || KEYS[i][0] != 'r';
      assert |KEYS[i]| != 8 || KEYS[i][0] != 'p';
      assert |KEYS[i]| != 3 || KEYS[i][0] != 'h';
    }
    NameIsClean("rdm-1");
    NameIsClean("put_mqtt");
    NameIsClean("hex");
  }

  predicate CleanEntry(e: Entry) {
    CleanValue(e.value, e.key == "data", KEYS)
  }

  lemma {:induction false} AllEntriesClean(entries: seq<Entry>)
    requires forall i :: 0 <= i < |entries| ==> CleanEntry(entries[i])
    ensures CleanEntries(entries, KEYS)
  {
    hide JsonClean, Collides, HexEncoding;
    forall i | 0 <= i < |entries|
      ensures CleanValue(entries[i].value, HexEncoding(entries) && entries[i].key == "data", KEYS)
    {
      assert CleanEntry(entries[i]);
    }
  }

  /** A clean message brings every field the device looks up. */
  lemma {:induction false} CleanFieldArrives(entries: seq<Entry>, format: Format, i: nat)
    requires Flat(entries) && EncodePayload(entries, format).Some? && Fits(entries)
    requires CleanEntries(entries, KEYS) && i < |entries| && entries[i].key in KEYS
    ensures Lookup(Received(entries, format), entries[i].key) == ValueText(entries[i].value)
  {
    hide EncodePayload, Fits, CleanEntries, Lookup, Received, Word, Undisturbed, FieldsSeen, Survives, Utf8.Wire,
         Decimal.Integer;
    KeysAreWords();
    CleanIsIntact(entries, format, KEYS);
    var j :| 0 <= j < |KEYS| && KEYS[j] == entries[i].key;
    FieldAgrees(entries, format, entries[i].key);
    FindAt(entries, i);
    CleanValueArrives(entries, i);
  }

  lemma {:induction false} BooleansArePlain()
    ensures AllNameChars("true") && AllNameChars("false")
  {}

  lemma {:induction false} CleanValueArrives(entries: seq<Entry>, i: nat)
    requires i < |entries| && FlatValue(entries[i].value) && CleanEntries(entries, KEYS)
    ensures Utf8.Wire(ValueText(entries[i].value)) == ValueText(entries[i].value)
  {
    hide Utf8.Wire, Decimal.Integer, HexEncoding, JsonClean, Word;
    match entries[i].value {
      case Text(s) => CleanIsAscii(s);
      case Int(n) =>
        DigitsAreWords(n, true);
        WordEscapesToItself(Decimal.Integer(n));
      case Bool(b) =>
        BooleansArePlain();
        WordEscapesToItself(if b then "true" else "false");
      case Null => WireIsNothing("");
    }
  }

  lemma {:induction false} FlatPrefix(entries: seq<Entry>, e: Entry)
    requires Flat(entries + [e])
    ensures Flat(entries)
  {
    hide Word;
    var all := entries + [e];
    forall i | 0 <= i < |entries|
      ensures Word(entries[i].key) && FlatValue(entries[i].value)
    {
      assert all[i] == entries[i];
    }
    forall i, j | 0 <= i < j < |entries|
      ensures entries[i].key != entries[j].key
    {
      assert all[i] == entries[i] && all[j] == entries[j];
    }
  }
}
