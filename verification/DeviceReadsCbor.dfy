/** What the device's decoder makes of a value the controller encoded. */
module DeviceReadsCbor {
  import opened Bytes
  import opened Cbor
  import opened CborJson
  import Decimal
  import Hex
  import Utf8

  /** The digits of an integer: exactly, or as the device prints them, whose `value + 1`
      is taken modulo 2^64. */
  function Digits(n: int, exact: bool): string {
    if n >= 0 then Decimal.Natural(n)
    else "-" + Decimal.Natural(if exact then -n else (-n) % TWO64)
  }

  /** The JSON text of a value. `exact` is the reference; otherwise integers are printed
      with the device's arithmetic. Bytes read as hexadecimal text. */
  function Render(v: Value, exact: bool): string
    decreases v
  {
    match v
    case Null => "null"
    case Bool(b) => if b then "true" else "false"
    case Int(n) => Digits(n, exact)
    case Raw(bytes) => "\"" + Hex.Encode(bytes) + "\""
    case Text(s) => "\"" + Escape(Utf8.Encode(s)) + "\""
    case List(items) => "[" + RenderItems(items, true, exact) + "]"
    case Dict(entries) => "{" + RenderEntries(entries, true, exact) + "}"
    case Float(_) => ""
  }

  function RenderItems(items: seq<Value>, first: bool, exact: bool): string
    decreases items
  {
    if items == [] then ""
    else Comma(first) + Render(items[0], exact) + RenderItems(items[1..], false, exact)
  }

  function Key(key: string): string {
    "\"" + Escape(Utf8.Encode(key)) + "\""
  }

  function RenderEntries(entries: seq<Entry>, first: bool, exact: bool): string
    decreases entries
  {
    if entries == [] then ""
    else if entries[0].value.Null? then RenderEntries(entries[1..], first, exact)
    else Comma(first) + Key(entries[0].key) + ":" + Render(entries[0].value, exact)
         + RenderEntries(entries[1..], false, exact)
  }

  predicate HasFloat(v: Value)
    decreases v
  {
    match v
    case Float(_) => true
    case List(items) => AnyFloat(items)
    case Dict(entries) => FloatInside(entries)
    case _ => false
  }

  predicate AnyFloat(items: seq<Value>)
    decreases items
  {
    items != [] && (HasFloat(items[0]) || AnyFloat(items[1..]))
  }

  predicate FloatInside(entries: seq<Entry>)
    decreases entries
  {
    entries != [] && (HasFloat(entries[0].value) || FloatInside(entries[1..]))
  }

  /** The result when a float makes the device reject, and when none does. */
  predicate Expected(r: Outcome, float: bool, text: string, rest: seq<Byte>) {
    if float then r.Rejected? else r == Done(text, rest)
  }

  lemma {:induction false} ScanHeaded(major: nat, value: nat, body: seq<Byte>, pos: nat)
    requires major < 6 && value < TWO64
    ensures Scan(Head(major, value) + body, pos) == ScanBody(major, value, body, pos + |Head(major, value)|)
  {
    hide Head, ReadUint, ScanBody;
    ReadOfHead(major, value, body);
  }

  lemma {:induction false} ScanSized(major: nat, bytes: seq<Byte>, rest: seq<Byte>, pos: nat)
    requires (major == 2 || major == 3) && |bytes| < TWO64
    requires pos + |Head(major, |bytes|)| + |bytes| < TWO64
    ensures Scan(Head(major, |bytes|) + bytes + rest, pos) ==
      Done("\"" + (if major == 2 then Hex.Encode(bytes) else Escape(bytes)) + "\"", rest)
  {
    hide Head, Scan;
    assert Head(major, |bytes|) + bytes + rest == Head(major, |bytes|) + (bytes + rest);
    ScanHeaded(major, |bytes|, bytes + rest, pos);
    assert (bytes + rest)[..|bytes|] == bytes && (bytes + rest)[|bytes|..] == rest;
  }

  lemma {:induction false} ScanSimple(v: Value, rest: seq<Byte>, pos: nat)
    requires v.Null? || v.Bool? || v.Float?
    ensures Expected(Scan(Encode(v) + rest, pos), HasFloat(v), Render(v, false), rest)
  {
    assert v.Null? || v.Bool? ==> (Encode(v) + rest)[1..] == rest;
  }

  lemma {:induction false} ScanInt(n: int, rest: seq<Byte>, pos: nat)
    requires -(TWO64 as int) <= n < TWO64
    ensures Scan(Encode(Int(n)) + rest, pos) == Done(Digits(n, false), rest)
  {
    hide Head, Scan, Decimal.Natural;
    if n >= 0 {
      ScanHeaded(0, n, rest, pos);
      assert n % TWO64 == n;
    } else {
      ScanHeaded(1, -1 - n, rest, pos);
    }
  }

  /** On every value the controller can encode the device either writes the value's text and
      stops at its last byte, or, exactly when there is a float in it, rejects it. */
  lemma {:induction false} DeviceScans(v: Value, rest: seq<Byte>, pos: nat)
    requires Encodable(v) && pos + |Encode(v) + rest| < TWO64
    ensures Expected(Scan(Encode(v) + rest, pos), HasFloat(v), Render(v, false), rest)
    decreases v, 1
  {
    hide Head, Scan, Utf8.Encode, Escape, Hex.Encode;
    match v {
      case Int(n) => ScanInt(n, rest, pos);
      case Raw(bytes) => ScanSized(2, bytes, rest, pos);
      case Text(text) => ScanSized(3, Utf8.Encode(text), rest, pos);
      case List(items) =>
        var head, body := Head(4, |items|), EncodeItems(items) + rest;
        assert Encode(v) + rest == head + body;
        ScanHeaded(4, |items|, body, pos);
        DeviceScansItems(items, rest, pos + |head|, true);
      case Dict(entries) =>
        var head, body := Head(5, CountKept(entries)), EncodeEntries(entries) + rest;
        CountIsPruned(entries);
        assert Encode(v) + rest == head + body;
        ScanHeaded(5, CountKept(entries), body, pos);
        DeviceScansEntries(entries, rest, pos + |head|, true);
      case _ => ScanSimple(v, rest, pos);
    }
  }

  lemma {:induction false} DeviceScansItems(items: seq<Value>, rest: seq<Byte>, pos: nat, first: bool)
    requires forall i :: 0 <= i < |items| ==> Encodable(items[i])
    requires pos + |EncodeItems(items) + rest| < TWO64
    ensures Expected(ScanItems(EncodeItems(items) + rest, pos, |items|, first), AnyFloat(items),
                     RenderItems(items, first, false), rest)
    decreases items, 0
  {
    hide Scan, Encode, Render, Encodable;
    if items == [] {
      assert EncodeItems(items) + rest == rest;
    } else {
      var tail := EncodeItems(items[1..]) + rest;
      var s := EncodeItems(items) + rest;
      assert s == Encode(items[0]) + tail;
      DeviceScans(items[0], tail, pos);
      DeviceScansItems(items[1..], rest, pos + |s| - |tail|, false);
    }
  }

  lemma {:induction false} NullParts(entries: seq<Entry>, first: bool, exact: bool)
    requires entries != [] && entries[0].value.Null?
    ensures EncodeEntries(entries) == EncodeEntries(entries[1..]) && CountKept(entries) == CountKept(entries[1..])
    ensures RenderEntries(entries, first, exact) == RenderEntries(entries[1..], first, exact)
    ensures FloatInside(entries) == FloatInside(entries[1..]) && MinimumInside(entries) == MinimumInside(entries[1..])
  {}

  lemma {:induction false} KeptText(entries: seq<Entry>, first: bool, exact: bool)
    requires entries != [] && !entries[0].value.Null?
    ensures RenderEntries(entries, first, exact) == Comma(first) + Key(entries[0].key) + ":"
      + Render(entries[0].value, exact) + RenderEntries(entries[1..], false, exact)
    ensures FloatInside(entries) == (HasFloat(entries[0].value) || FloatInside(entries[1..]))
    ensures CountKept(entries) == CountKept(entries[1..]) + 1
    ensures Encode(entries[0].value) != [] && EncodeText(entries[0].key) != []
  {
    hide Key, Render, Head, Comma;
  }

  lemma {:induction false} DeviceScansEntries(entries: seq<Entry>, rest: seq<Byte>, pos: nat, first: bool)
    requires EncodableEntries(entries) && pos + |EncodeEntries(entries) + rest| < TWO64
    ensures Expected(ScanPairs(EncodeEntries(entries) + rest, pos, CountKept(entries), first), FloatInside(entries),
                     RenderEntries(entries, first, false), rest)
    decreases entries, 1
  {
    if entries == [] {
      assert EncodeEntries(entries) + rest == rest;
    } else {
      hide *;
      if entries[0].value.Null? {
        EncodableParts(entries);
        NullParts(entries, first, false);
        DeviceScansEntries(entries[1..], rest, pos, first);
      } else {
        DeviceScansKept(entries, rest, pos, first);
      }
    }
  }

  lemma {:induction false} DeviceScansKept(entries: seq<Entry>, rest: seq<Byte>, pos: nat, first: bool)
    requires EncodableEntries(entries) && pos + |EncodeEntries(entries) + rest| < TWO64
    requires entries != [] && !entries[0].value.Null?
    ensures Expected(ScanPairs(EncodeEntries(entries) + rest, pos, CountKept(entries), first), FloatInside(entries),
                     RenderEntries(entries, first, false), rest)
    decreases entries, 0
  {
    hide *;
    var e, others := entries[0], entries[1..];
    var tail := EncodeEntries(others) + rest;
    EncodableParts(entries);
    KeptParts(entries, rest, []);
    var body := Encode(e.value) + tail;
    var s := EncodeText(e.key) + body;
    assert EncodeText(e.key) + Encode(e.value) + tail == s;
    KeptText(entries, first, false);
    ScanKey(e.key, body, pos);
    var p := pos + |s| - |body|;
    DeviceScans(e.value, tail, p);
    var q := p + |body| - |tail|;
    DeviceScansEntries(others, rest, q, false);
    PairsScanned(entries, s, body, tail, rest, pos, first);
  }

  lemma {:induction false} ScanKey(key: string, body: seq<Byte>, pos: nat)
    requires |Utf8.Encode(key)| < TWO64 && pos + |EncodeText(key) + body| < TWO64
    ensures Scan(EncodeText(key) + body, pos) == Done(Key(key), body)
  {
    hide Head, Utf8.Encode;
    ScanSized(3, Utf8.Encode(key), body, pos);
  }

  lemma {:induction false} PairsScanned(entries: seq<Entry>, s: seq<Byte>, body: seq<Byte>, tail: seq<Byte>,
        rest: seq<Byte>, pos: nat, first: bool)
    requires entries != [] && !entries[0].value.Null? && |body| < |s| && |tail| < |body|
    requires Scan(s, pos) == Done(Key(entries[0].key), body)
    requires Expected(Scan(body, pos + |s| - |body|), HasFloat(entries[0].value),
                      Render(entries[0].value, false), tail)
    requires Expected(ScanPairs(tail, pos + |s| - |tail|, CountKept(entries[1..]), false), FloatInside(entries[1..]),
                      RenderEntries(entries[1..], false, false), rest)
    ensures Expected(ScanPairs(s, pos, CountKept(entries), first), FloatInside(entries),
                     RenderEntries(entries, first, false), rest)
  {
    hide *;
    var key, text, float := Key(entries[0].key), Render(entries[0].value, false), HasFloat(entries[0].value);
    var tailText, tailFloat := RenderEntries(entries[1..], false, false), FloatInside(entries[1..]);
    var n := CountKept(entries[1..]);
    KeptText(entries, first, false);
    PairExpected(s, pos, n, first, key, body, text, float, tail, tailText, tailFloat, rest);
  }

  lemma {:induction false} PairExpected(s: seq<Byte>, pos: nat, n: nat, first: bool, key: string, body: seq<Byte>,
        text: string, float: bool, tail: seq<Byte>, tailText: string, tailFloat: bool, rest: seq<Byte>)
    requires |body| < |s| && |tail| < |body|
    requires Scan(s, pos) == Done(key, body)
    requires Expected(Scan(body, pos + |s| - |body|), float, text, tail)
    requires Expected(ScanPairs(tail, pos + |s| - |tail|, n, false), tailFloat, tailText, rest)
    ensures Expected(ScanPairs(s, pos, n + 1, first), float || tailFloat,
                     Comma(first) + key + ":" + text + tailText, rest)
  {
    hide Scan, ScanPairs, Comma;
    PairsStep("", s, pos, n + 1, first);
    PrefixNothing(ScanPairs(s, pos, n + 1, first));
    var c := Comma(first);
    assert "" + c + key + ":" + text == c + key + ":" + text;
  }

  // ---------------------------------------------------------------------------------
  // When the device's text is the value's text
  // ---------------------------------------------------------------------------------

  /** -2^64 is the one integer whose `value + 1` does not fit in 64 bits. */
  predicate HasMinimum(v: Value)
    decreases v
  {
    match v
    case Int(n) => n == -(TWO64 as int)
    case List(items) => AnyMinimum(items)
    case Dict(entries) => MinimumInside(entries)
    case _ => false
  }

  predicate AnyMinimum(items: seq<Value>)
    decreases items
  {
    items != [] && (HasMinimum(items[0]) || AnyMinimum(items[1..]))
  }

  predicate MinimumInside(entries: seq<Entry>)
    decreases entries
  {
    entries != [] && (HasMinimum(entries[0].value) || MinimumInside(entries[1..]))
  }

  /** `a` is never longer than `b`, and equals it exactly when `same`. */
  predicate Tracks(a: string, b: string, same: bool) {
    |a| <= |b| && (a == b <==> same)
  }

  lemma {:induction false} TracksConcat(a: string, b: string, s: bool, c: string, d: string, t: bool)
    requires Tracks(a, b, s) && Tracks(c, d, t)
    ensures Tracks(a + c, b + d, s && t)
  {
    if a + c == b + d {
      assert |a| + |c| == |b| + |d|;
      assert (a + c)[..|a|] == a && (b + d)[..|a|] == b && (a + c)[|a|..] == c && (b + d)[|a|..] == d;
    }
  }

  lemma {:induction false} DigitsTrack(n: int)
    requires -(TWO64 as int) <= n < TWO64
    ensures Tracks(Digits(n, false), Digits(n, true), n != -(TWO64 as int))
  {
    if n == -(TWO64 as int) {
      assert (-n) % TWO64 == 0;
      assert |Decimal.Natural(0)| == 1;
      assert |Decimal.Natural(TWO64)| >= 2 by {
        assert Decimal.Natural(TWO64) == Decimal.Natural(TWO64 / 10) + [Decimal.Digit(TWO64 % 10)];
      }
    }
  }

  /** The device's text is the exact text if and only if -2^64 does not occur. */
  lemma {:induction false} DeviceTextIsExact(v: Value)
    requires Encodable(v)
    ensures Tracks(Render(v, false), Render(v, true), !HasMinimum(v))
    decreases v
  {
    hide Digits, Tracks, Hex.Encode, Utf8.Encode, Escape;
    match v {
      case Int(n) => DigitsTrack(n);
      case List(items) =>
        ItemsTrack(items, true);
        Wrap("[", RenderItems(items, true, false), RenderItems(items, true, true), !AnyMinimum(items), "]");
      case Dict(entries) =>
        EntriesTrack(entries, true);
        Wrap("{", RenderEntries(entries, true, false), RenderEntries(entries, true, true),
             !MinimumInside(entries), "}");
      case _ => Same(Render(v, true));
    }
  }

  lemma {:induction false} Same(a: string)
    ensures Tracks(a, a, true)
  {}

  lemma {:induction false} Wrap(open: string, a: string, b: string, same: bool, close: string)
    requires Tracks(a, b, same)
    ensures Tracks(open + a + close, open + b + close, same)
  {
    Same(open);
    Same(close);
    TracksConcat(open, open, true, a, b, same);
    TracksConcat(open + a, open + b, same, close, close, true);
  }

  lemma {:induction false} ItemsTrack(items: seq<Value>, first: bool)
    requires forall i :: 0 <= i < |items| ==> Encodable(items[i])
    ensures Tracks(RenderItems(items, first, false), RenderItems(items, first, true), !AnyMinimum(items))
    decreases items
  {
    hide Render, Tracks, Encodable, HasMinimum;
    if items == [] {
      Same("");
    } else {
      DeviceTextIsExact(items[0]);
      ItemsTrack(items[1..], false);
      var c, a, b := Comma(first), Render(items[0], false), Render(items[0], true);
      Same(c);
      TracksConcat(c, c, true, a, b, !HasMinimum(items[0]));
      TracksConcat(c + a, c + b, !HasMinimum(items[0]), RenderItems(items[1..], false, false),
                   RenderItems(items[1..], false, true), !AnyMinimum(items[1..]));
    }
  }

  lemma {:induction false} EntriesTrack(entries: seq<Entry>, first: bool)
    requires EncodableEntries(entries)
    ensures Tracks(RenderEntries(entries, first, false), RenderEntries(entries, first, true), !MinimumInside(entries))
    decreases entries
  {
    hide Render, Tracks, Encodable, HasMinimum, Key;
    if entries == [] {
      Same("");
    } else if entries[0].value.Null? {
      EntriesTrack(entries[1..], first);
      NullHasNoMinimum(entries[0].value);
    } else {
      var v := entries[0].value;
      DeviceTextIsExact(v);
      EntriesTrack(entries[1..], false);
      var c, a, b := Comma(first) + Key(entries[0].key) + ":", Render(v, false), Render(v, true);
      Same(c);
      TracksConcat(c, c, true, a, b, !HasMinimum(v));
      TracksConcat(c + a, c + b, !HasMinimum(v), RenderEntries(entries[1..], false, false),
                   RenderEntries(entries[1..], false, true), !MinimumInside(entries[1..]));
    }
  }

  lemma {:induction false} NullHasNoMinimum(v: Value)
    requires v.Null?
    ensures !HasMinimum(v)
  {}
}
