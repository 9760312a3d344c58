/** The controller's CBOR subset (section 3 of RFC 8949): encoder, decoder, round trip. */
module Cbor {
  import opened Bytes
  import Utf8

  const TWO64: nat := 0x1_0000_0000_0000_0000

  /** The Python objects that travel. A float is kept as its eight IEEE 754 bytes. */
  datatype Value =
    | Null
    | Bool(b: bool)
    | Int(n: int)
    | Raw(bytes: seq<Byte>)
    | Text(s: string)
    | List(items: seq<Value>)
    | Dict(entries: seq<Entry>)
    | Float(bits: seq<Byte>)

  /** Dictionaries keep insertion order. */
  datatype Entry = Entry(key: string, value: Value)

  // ---------------------------------------------------------------------------------
  // Heads
  // ---------------------------------------------------------------------------------

  function BigEndian(n: nat, width: nat): (bytes: seq<Byte>)
    ensures |bytes| == width
    decreases width
  {
    if width == 0 then [] else BigEndian(n / 256, width - 1) + [n % 256]
  }

  function FromBigEndian(bytes: seq<Byte>): nat {
    if bytes == [] then 0 else 256 * FromBigEndian(bytes[..|bytes| - 1]) + bytes[|bytes| - 1]
  }

  function Pow256(k: nat): nat {
    if k == 0 then 1 else 256 * Pow256(k - 1)
  }

  lemma {:induction false} BigEndianRoundTrip(n: nat, width: nat)
    requires n < Pow256(width)
    ensures FromBigEndian(BigEndian(n, width)) == n
    decreases width
  {
    if width > 0 {
      BigEndianRoundTrip(n / 256, width - 1);
      var bytes := BigEndian(n, width);
      assert bytes[..width - 1] == BigEndian(n / 256, width - 1);
    }
  }

  lemma {:induction false} FromBigEndianBound(bytes: seq<Byte>)
    ensures FromBigEndian(bytes) < Pow256(|bytes|)
    ensures BigEndian(FromBigEndian(bytes), |bytes|) == bytes
  {
    if bytes != [] {
      FromBigEndianBound(bytes[..|bytes| - 1]);
      assert FromBigEndian(bytes) / 256 == FromBigEndian(bytes[..|bytes| - 1]);
      assert bytes == bytes[..|bytes| - 1] + [bytes[|bytes| - 1]];
    }
  }

  lemma {:induction false} Widths()
    ensures Pow256(1) == 0x100 && Pow256(2) == 0x1_0000 && Pow256(4) == 0x1_0000_0000 && Pow256(8) == TWO64
  {
    assert Pow256(4) == 0x1_0000_0000;
  }

  /** The bytes after the first for an additional-information value, when it has any. */
  function Width(ai: nat): Option<nat> {
    if ai < 24 then Some(0)
    else if ai == 24 then Some(1)
    else if ai == 25 then Some(2)
    else if ai == 26 then Some(4)
    else if ai == 27 then Some(8)
    else None
  }

  /** The additional information `_cbor_uint` chooses. */
  function Choose(value: nat): (ai: nat)
    ensures ai < 28 && Width(ai).Some?
  {
    if value < 24 then value
    else if value <= 0xFF then 24
    else if value <= 0xFFFF then 25
    else if value <= 0xFFFF_FFFF then 26
    else 27
  }

  /** `_cbor_uint` */
  function Head(major: nat, value: nat): (bytes: seq<Byte>)
    requires major < 8
    ensures bytes != []
  {
    var ai := Choose(value);
    [32 * major + ai] + BigEndian(value, Width(ai).value)
  }

  /** `_cbor_read_uint`, on the bytes that follow the first. */
  function ReadUint(ai: nat, s: seq<Byte>): (r: Option<(nat, seq<Byte>)>)
    ensures r.Some? ==> |r.value.1| <= |s|
  {
    match Width(ai)
    case None => None
    case Some(width) =>
      if width == 0 then Some((ai, s))
      else if |s| < width then None
      else Some((FromBigEndian(s[..width]), s[width..]))
  }

  lemma {:induction false} ReadOfHead(major: nat, value: nat, rest: seq<Byte>)
    requires major < 8 && value < TWO64
    ensures var h := Head(major, value) + rest;
      h[0] / 32 == major && ReadUint(h[0] % 32, h[1..]) == Some((value, rest))
  {
    var h, ai := Head(major, value) + rest, Choose(value);
    var width := Width(ai).value;
    assert h[0] == 32 * major + ai;
    assert h[1..] == BigEndian(value, width) + rest;
    if width > 0 {
      Widths();
      BigEndianRoundTrip(value, width);
      assert h[1..][..width] == BigEndian(value, width) && h[1..][width..] == rest;
    }
  }

  lemma {:induction false} ChooseIsNarrow(ai: nat, value: nat, width: nat)
    requires Width(ai) == Some(width) && (if width == 0 then value == ai else value < Pow256(width))
    ensures Width(Choose(value)).value <= width
    ensures Width(Choose(value)).value == width ==> Choose(value) == ai
  {
    Widths();
  }

  /** Every head is the shortest that reads as its value, and the only one that short
      (section 4.1 of RFC 8949). */
  lemma {:induction false} HeadIsShortest(h: seq<Byte>)
    requires h != [] && ReadUint(h[0] % 32, h[1..]).Some? && ReadUint(h[0] % 32, h[1..]).value.1 == []
    ensures var value := ReadUint(h[0] % 32, h[1..]).value.0;
      && |Head(h[0] / 32, value)| <= |h|
      && (|Head(h[0] / 32, value)| == |h| ==> Head(h[0] / 32, value) == h)
  {
    hide Pow256, BigEndian, FromBigEndian, Choose;
    var ai, value := h[0] % 32, ReadUint(h[0] % 32, h[1..]).value.0;
    var width := Width(ai).value;
    assert |h| == width + 1;
    if width > 0 {
      assert h[1..][..width] == h[1..];
      FromBigEndianBound(h[1..]);
    }
    ChooseIsNarrow(ai, value, width);
    assert h == [h[0]] + h[1..];
    if Width(Choose(value)).value == width && width == 0 {
      EmptyBigEndian(value);
    }
  }

  lemma {:induction false} EmptyBigEndian(n: nat)
    ensures BigEndian(n, 0) == []
  {}

  // ---------------------------------------------------------------------------------
  // Encoding
  // ---------------------------------------------------------------------------------

  /** The dictionary entries that are not None. */
  function CountKept(entries: seq<Entry>): nat {
    if entries == [] then 0
    else (if entries[0].value.Null? then 0 else 1) + CountKept(entries[1..])
  }

  function Encode(v: Value): seq<Byte>
    decreases v
  {
    match v
    case Bool(b) => [if b then 0xF5 else 0xF4]
    case Null => [0xF6]
    case Int(n) => if n >= 0 then Head(0, n) else Head(1, -1 - n)
    case Raw(bytes) => Head(2, |bytes|) + bytes
    case Text(s) => Head(3, |Utf8.Encode(s)|) + Utf8.Encode(s)
    case List(items) => Head(4, |items|) + EncodeItems(items)
    case Dict(entries) => Head(5, CountKept(entries)) + EncodeEntries(entries)
    case Float(bits) => [0xFB] + bits
  }

  function EncodeItems(items: seq<Value>): seq<Byte>
    decreases items
  {
    if items == [] then [] else Encode(items[0]) + EncodeItems(items[1..])
  }

  function EncodeText(s: string): seq<Byte> {
    Head(3, |Utf8.Encode(s)|) + Utf8.Encode(s)
  }

  function EncodeEntries(entries: seq<Entry>): seq<Byte>
    decreases entries
  {
    if entries == [] then []
    else if entries[0].value.Null? then EncodeEntries(entries[1..])
    else EncodeText(entries[0].key) + Encode(entries[0].value) + EncodeEntries(entries[1..])
  }

  predicate HasKey(entries: seq<Entry>, key: string) {
    exists i :: 0 <= i < |entries| && entries[i].key == key
  }

  /** What Python can pass to the encoder without `struct.pack` raising: 64-bit sizes and
      magnitudes. Dictionary keys are distinct because it is a dictionary. */
  predicate Encodable(v: Value)
    decreases v
  {
    match v
    case Int(n) => -(TWO64 as int) <= n < TWO64
    case Raw(bytes) => |bytes| < TWO64
    case Text(s) => |Utf8.Encode(s)| < TWO64
    case List(items) => |items| < TWO64 && forall i :: 0 <= i < |items| ==> Encodable(items[i])
    case Dict(entries) => |entries| < TWO64 && EncodableEntries(entries)
    case Float(bits) => |bits| == 8
    case _ => true
  }

  predicate EncodableEntries(entries: seq<Entry>)
    decreases entries
  {
    entries != [] ==>
      && |Utf8.Encode(entries[0].key)| < TWO64
      && Encodable(entries[0].value)
      && !HasKey(entries[1..], entries[0].key)
      && EncodableEntries(entries[1..])
  }

  /** The object without the dictionary entries the encoder drops. */
  function Prune(v: Value): Value
    decreases v
  {
    match v
    case List(items) => List(PruneItems(items))
    case Dict(entries) => Dict(PruneEntries(entries))
    case _ => v
  }

  function PruneItems(items: seq<Value>): (pruned: seq<Value>)
    ensures |pruned| == |items|
    decreases items
  {
    if items == [] then [] else [Prune(items[0])] + PruneItems(items[1..])
  }

  function PruneEntries(entries: seq<Entry>): (pruned: seq<Entry>)
    decreases entries
  {
    if entries == [] then []
    else if entries[0].value.Null? then PruneEntries(entries[1..])
    else [Entry(entries[0].key, Prune(entries[0].value))] + PruneEntries(entries[1..])
  }

  // ---------------------------------------------------------------------------------
  // Decoding
  // ---------------------------------------------------------------------------------

  /** `out[key] = value`: a key already present keeps its place. */
  function Store(entries: seq<Entry>, key: string, value: Value): seq<Entry> {
    if entries == [] then [Entry(key, value)]
    else if entries[0].key == key then [Entry(key, value)] + entries[1..]
    else [entries[0]] + Store(entries[1..], key, value)
  }

  /** `out` is `entries` with `value` under `key` at place `i`, which is the first of that key or
      the end. */
  predicate StoredAt(entries: seq<Entry>, key: string, value: Value, out: seq<Entry>, i: nat) {
    && i < |out| && out[i] == Entry(key, value) && i <= |entries|
    && |out| == (if i < |entries| then |entries| else |entries| + 1)
    && (i < |entries| ==> entries[i].key == key)
    && (forall j :: 0 <= j < i ==> entries[j].key != key && out[j] == entries[j])
    && (forall j :: i < j < |out| ==> out[j] == entries[j])
  }

  lemma {:induction false} StoredBehind(e: Entry, rest: seq<Entry>, key: string, value: Value, out: seq<Entry>, i: nat)
    requires StoredAt(rest, key, value, out, i) && e.key != key
    ensures StoredAt([e] + rest, key, value, [e] + out, i + 1)
  {
    assert forall j :: 0 < j <= |rest| ==> ([e] + rest)[j] == rest[j - 1];
    assert forall j :: 0 < j <= |out| ==> ([e] + out)[j] == out[j - 1];
  }

  /** What is stored under a key takes the key's old place, or else the end; all other entries
      stay as they are. */
  lemma {:induction false} StoreReplaces(entries: seq<Entry>, key: string, value: Value) returns (i: nat)
    ensures StoredAt(entries, key, value, Store(entries, key, value), i)
  {
    i := 0;
    if entries != [] && entries[0].key != key {
      hide StoredAt;
      i := StoreReplaces(entries[1..], key, value);
      StoredBehind(entries[0], entries[1..], key, value, Store(entries[1..], key, value), i);
      assert entries == [entries[0]] + entries[1..];
      i := i + 1;
    }
  }

  /** `_cbor_decode_value`: the value at the front of `s` and the bytes after it; None where
      Python raises. `repr` is Python's `str` on keys that are not text. */
  function Decode(s: seq<Byte>, repr: Value -> string): (r: Option<(Value, seq<Byte>)>)
    ensures r.Some? ==> |r.value.1| < |s|
    decreases |s|, 0
  {
    if s == [] then None
    else
      var major, ai, t := s[0] / 32, s[0] % 32, s[1..];
      if major == 7 then
        if ai == 20 then Some((Bool(false), t))
        else if ai == 21 then Some((Bool(true), t))
        else if ai == 22 || ai == 23 then Some((Null, t))
        else if ai == 27 && |t| >= 8 then Some((Float(t[..8]), t[8..]))
        else None
      else if major == 6 then None
      else
        match ReadUint(ai, t)
        case None => None
        case Some((value, u)) => DecodeBody(major, value, u, repr)
  }

  /** The value whose head says `major` and `value`, from the bytes after the head. */
  function DecodeBody(major: nat, value: nat, u: seq<Byte>, repr: Value -> string)
    : (r: Option<(Value, seq<Byte>)>)
    requires major < 6
    ensures r.Some? ==> |r.value.1| <= |u|
    decreases |u|, value + 2
  {
    if major == 0 then Some((Int(value), u))
    else if major == 1 then Some((Int(-1 - value), u))
    else if major == 2 then
      if |u| < value then None else Some((Raw(u[..value]), u[value..]))
    else if major == 3 then
      if |u| < value then None
      else
        match Utf8.Decode(u[..value])
        case None => None
        case Some(text) => Some((Text(text), u[value..]))
    else if major == 4 then
      match DecodeItems(u, value, repr)
      case None => None
      case Some((items, w)) => Some((List(items), w))
    else
      match DecodePairs(u, value, [], repr)
      case None => None
      case Some((entries, w)) => Some((Dict(entries), w))
  }

  function DecodeItems(s: seq<Byte>, count: nat, repr: Value -> string): (r: Option<(seq<Value>, seq<Byte>)>)
    ensures r.Some? ==> |r.value.1| <= |s|
    decreases |s|, count + 1
  {
    if count == 0 then Some(([], s))
    else
      match Decode(s, repr)
      case None => None
      case Some((v, t)) =>
        match DecodeItems(t, count - 1, repr)
        case None => None
        case Some((items, u)) => Some(([v] + items, u))
  }

  function KeyText(key: Value, repr: Value -> string): string {
    if key.Text? then key.s else repr(key)
  }

  function DecodePairs(s: seq<Byte>, count: nat, acc: seq<Entry>, repr: Value -> string)
    : (r: Option<(seq<Entry>, seq<Byte>)>)
    ensures r.Some? ==> |r.value.1| <= |s|
    decreases |s|, count + 1
  {
    if count == 0 then Some((acc, s))
    else
      match Decode(s, repr)
      case None => None
      case Some((key, t)) =>
        match Decode(t, repr)
        case None => None
        case Some((v, u)) => DecodePairs(u, count - 1, Store(acc, KeyText(key, repr), v), repr)
  }

  // ---------------------------------------------------------------------------------
  // Round trip
  // ---------------------------------------------------------------------------------

  lemma {:induction false} CountIsPruned(entries: seq<Entry>)
    ensures CountKept(entries) == |PruneEntries(entries)| <= |entries|
  {
    if entries != [] {
      CountIsPruned(entries[1..]);
    }
  }

  lemma {:induction false} DecodeHeaded(major: nat, value: nat, body: seq<Byte>, repr: Value -> string)
    requires major < 6 && value < TWO64
    ensures Decode(Head(major, value) + body, repr) == DecodeBody(major, value, body, repr)
  {
    ReadOfHead(major, value, body);
  }

  lemma {:induction false} DecodeSized(major: nat, bytes: seq<Byte>, rest: seq<Byte>, repr: Value -> string)
    requires (major == 2 || major == 3) && |bytes| < TWO64
    ensures Decode(Head(major, |bytes|) + bytes + rest, repr) ==
      if major == 2 then Some((Raw(bytes), rest))
      else match Utf8.Decode(bytes) case None => None case Some(text) => Some((Text(text), rest))
  {
    assert Head(major, |bytes|) + bytes + rest == Head(major, |bytes|) + (bytes + rest);
    DecodeHeaded(major, |bytes|, bytes + rest, repr);
    assert (bytes + rest)[..|bytes|] == bytes && (bytes + rest)[|bytes|..] == rest;
  }

  lemma {:induction false} DecodeText(s: string, rest: seq<Byte>, repr: Value -> string)
    requires |Utf8.Encode(s)| < TWO64
    ensures Decode(EncodeText(s) + rest, repr) == Some((Text(s), rest))
  {
    DecodeSized(3, Utf8.Encode(s), rest, repr);
    Utf8.DecodeOfEncode(s);
  }

  lemma {:induction false} DecodeSimple(v: Value, rest: seq<Byte>, repr: Value -> string)
    requires v.Null? || v.Bool? || (v.Float? && |v.bits| == 8)
    ensures Decode(Encode(v) + rest, repr) == Some((v, rest))
  {
    if v.Float? {
      assert (v.bits + rest)[..8] == v.bits && (v.bits + rest)[8..] == rest;
      assert (Encode(v) + rest)[1..] == v.bits + rest;
    } else {
      assert (Encode(v) + rest)[1..] == rest;
    }
  }

  /** Decoding what was encoded, with anything after it, returns the value without its
      dropped entries and stops at its last byte. */
  lemma {:induction false} RoundTrip(v: Value, rest: seq<Byte>, repr: Value -> string)
    requires Encodable(v)
    ensures Decode(Encode(v) + rest, repr) == Some((Prune(v), rest))
    decreases v, 1
  {
    hide Head;
    match v {
      case Int(n) => DecodeHeaded(if n >= 0 then 0 else 1, if n >= 0 then n else -1 - n, rest, repr);
      case Raw(bytes) => DecodeSized(2, bytes, rest, repr);
      case Text(text) => DecodeText(text, rest, repr);
      case List(items) =>
        var body := EncodeItems(items) + rest;
        assert Encode(v) + rest == Head(4, |items|) + body;
        DecodeHeaded(4, |items|, body, repr);
        RoundTripItems(items, rest, repr);
      case Dict(entries) =>
        var body := EncodeEntries(entries) + rest;
        CountIsPruned(entries);
        assert Encode(v) + rest == Head(5, CountKept(entries)) + body;
        DecodeHeaded(5, CountKept(entries), body, repr);
        RoundTripEntries(entries, [], rest, repr);
        assert [] + PruneEntries(entries) == PruneEntries(entries);
      case _ => DecodeSimple(v, rest, repr);
    }
  }

  lemma {:induction false} RoundTripItems(items: seq<Value>, rest: seq<Byte>, repr: Value -> string)
    requires forall i :: 0 <= i < |items| ==> Encodable(items[i])
    ensures DecodeItems(EncodeItems(items) + rest, |items|, repr) == Some((PruneItems(items), rest))
    decreases items, 0
  {
    if items == [] {
      assert EncodeItems(items) + rest == rest;
    } else {
      var tail := EncodeItems(items[1..]) + rest;
      assert EncodeItems(items) + rest == Encode(items[0]) + tail;
      RoundTrip(items[0], tail, repr);
      RoundTripItems(items[1..], rest, repr);
    }
  }

  lemma {:induction false} StoreAppends(entries: seq<Entry>, key: string, value: Value)
    requires !HasKey(entries, key)
    ensures Store(entries, key, value) == entries + [Entry(key, value)]
  {
    if entries != [] {
      assert entries[0].key != key;
      forall i | 0 <= i < |entries[1..]|
        ensures entries[1..][i].key != key
      {
        assert entries[1..][i] == entries[i + 1];
      }
      StoreAppends(entries[1..], key, value);
      assert entries == [entries[0]] + entries[1..];
    }
  }

  ghost predicate Disjoint(entries: seq<Entry>, acc: seq<Entry>) {
    forall i, j :: 0 <= i < |entries| && 0 <= j < |acc| ==> entries[i].key != acc[j].key
  }

  lemma {:induction false} StoreNext(entries: seq<Entry>, acc: seq<Entry>, value: Value)
    requires entries != [] && !HasKey(entries[1..], entries[0].key) && Disjoint(entries, acc)
    ensures Store(acc, entries[0].key, value) == acc + [Entry(entries[0].key, value)]
    ensures Disjoint(entries[1..], acc + [Entry(entries[0].key, value)])
  {
    var key := entries[0].key;
    StoreAppends(acc, key, value);
    var next := acc + [Entry(key, value)];
    forall i, j | 0 <= i < |entries[1..]| && 0 <= j < |next|
      ensures entries[1..][i].key != next[j].key
    {
      assert entries[1..][i] == entries[i + 1];
    }
  }

  lemma {:induction false} DecodePair(e: Entry, tail: seq<Byte>, count: nat, acc: seq<Entry>, repr: Value -> string)
    requires |Utf8.Encode(e.key)| < TWO64
    requires Decode(Encode(e.value) + tail, repr) == Some((Prune(e.value), tail))
    ensures DecodePairs(EncodeText(e.key) + Encode(e.value) + tail, count + 1, acc, repr)
         == DecodePairs(tail, count, Store(acc, e.key, Prune(e.value)), repr)
  {
    var body := Encode(e.value) + tail;
    assert EncodeText(e.key) + Encode(e.value) + tail == EncodeText(e.key) + body;
    DecodeText(e.key, body, repr);
  }

  lemma {:induction false} DisjointTail(entries: seq<Entry>, acc: seq<Entry>)
    requires entries != [] && Disjoint(entries, acc)
    ensures Disjoint(entries[1..], acc)
  {
    forall i, j | 0 <= i < |entries[1..]| && 0 <= j < |acc|
      ensures entries[1..][i].key != acc[j].key
    {
      assert entries[1..][i] == entries[i + 1];
    }
  }

  lemma {:induction false} RoundTripEntries(entries: seq<Entry>, acc: seq<Entry>, rest: seq<Byte>,
        repr: Value -> string)
    requires EncodableEntries(entries) && Disjoint(entries, acc)
    ensures DecodePairs(EncodeEntries(entries) + rest, CountKept(entries), acc, repr)
         == Some((acc + PruneEntries(entries), rest))
    decreases entries, 1
  {
    if entries == [] {
      assert EncodeEntries(entries) + rest == rest && acc + [] == acc;
    } else if entries[0].value.Null? {
      DisjointTail(entries, acc);
      RoundTripEntries(entries[1..], acc, rest, repr);
    } else {
      RoundTripKept(entries, acc, rest, repr);
    }
  }

  lemma {:induction false} EncodableParts(entries: seq<Entry>)
    requires entries != [] && EncodableEntries(entries)
    ensures |Utf8.Encode(entries[0].key)| < TWO64 && Encodable(entries[0].value)
    ensures !HasKey(entries[1..], entries[0].key) && EncodableEntries(entries[1..])
  {}

  lemma {:induction false} KeptParts(entries: seq<Entry>, rest: seq<Byte>, acc: seq<Entry>)
    requires entries != [] && !entries[0].value.Null?
    ensures var e := entries[0];
      && CountKept(entries) == CountKept(entries[1..]) + 1
      && EncodeEntries(entries) + rest == EncodeText(e.key) + Encode(e.value) + (EncodeEntries(entries[1..]) + rest)
      && acc + PruneEntries(entries) == acc + [Entry(e.key, Prune(e.value))] + PruneEntries(entries[1..])
  {
    hide EncodeText, Encode, Prune;
  }

  lemma {:induction false} RoundTripKept(entries: seq<Entry>, acc: seq<Entry>, rest: seq<Byte>, repr: Value -> string)
    requires EncodableEntries(entries) && Disjoint(entries, acc)
    requires entries != [] && !entries[0].value.Null?
    ensures DecodePairs(EncodeEntries(entries) + rest, CountKept(entries), acc, repr)
         == Some((acc + PruneEntries(entries), rest))
    decreases entries, 0
  {
    hide *;
    var e, others := entries[0], entries[1..];
    var tail, value := EncodeEntries(others) + rest, Prune(e.value);
    EncodableParts(entries);
    KeptParts(entries, rest, acc);
    StoreNext(entries, acc, value);
    RoundTrip(e.value, tail, repr);
    DecodePair(e, tail, CountKept(others), acc, repr);
    RoundTripEntries(others, acc + [Entry(e.key, value)], rest, repr);
  }

  /** No encoding is a prefix of another: a stream of values splits in one way only. */
  lemma {:induction false} EncodingIsUnambiguous(v: Value, w: Value, rest: seq<Byte>, rest': seq<Byte>)
    requires Encodable(v) && Encodable(w)
    requires Encode(v) + rest == Encode(w) + rest'
    ensures Prune(v) == Prune(w) && rest == rest'
  {
    var repr := (key: Value) => "";
    RoundTrip(v, rest, repr);
    RoundTrip(w, rest', repr);
  }

  // ---------------------------------------------------------------------------------
  // Cut short
  // ---------------------------------------------------------------------------------

  lemma {:induction false} ReadUintExtends(ai: nat, s: seq<Byte>, t: seq<Byte>)
    requires ReadUint(ai, s).Some?
    ensures ReadUint(ai, s + t) == Some((ReadUint(ai, s).value.0, ReadUint(ai, s).value.1 + t))
  {
    var width := Width(ai).value;
    assert width > 0 ==> (s + t)[..width] == s[..width] && (s + t)[width..] == s[width..] + t;
  }

  /** What is decoded is decoded from the same bytes whatever comes after them. */
  lemma {:induction false} DecodeExtends(s: seq<Byte>, t: seq<Byte>, repr: Value -> string)
    requires Decode(s, repr).Some?
    ensures var (v, rest) := Decode(s, repr).value; Decode(s + t, repr) == Some((v, rest + t))
    decreases |s|, 0
  {
    hide ReadUint, DecodeBody;
    var major, ai, u := s[0] / 32, s[0] % 32, s[1..];
    assert (s + t)[0] == s[0] && (s + t)[1..] == u + t;
    if major == 7 {
      assert ai == 27 ==> (u + t)[..8] == u[..8] && (u + t)[8..] == u[8..] + t;
    } else {
      ReadUintExtends(ai, u, t);
      var (value, w) := ReadUint(ai, u).value;
      BodyExtends(major, value, w, t, repr);
    }
  }

  lemma {:induction false} BodyExtends(major: nat, value: nat, u: seq<Byte>, t: seq<Byte>, repr: Value -> string)
    requires major < 6 && DecodeBody(major, value, u, repr).Some?
    ensures var (v, rest) := DecodeBody(major, value, u, repr).value;
      DecodeBody(major, value, u + t, repr) == Some((v, rest + t))
    decreases |u|, value + 2
  {
    hide Decode, DecodeItems, DecodePairs;
    if major == 2 || major == 3 {
      assert (u + t)[..value] == u[..value] && (u + t)[value..] == u[value..] + t;
    } else if major == 4 {
      ItemsExtend(u, value, t, repr);
    } else if major == 5 {
      PairsExtend(u, value, [], t, repr);
    }
  }

  lemma {:induction false} ItemsExtend(s: seq<Byte>, count: nat, t: seq<Byte>, repr: Value -> string)
    requires DecodeItems(s, count, repr).Some?
    ensures var (items, rest) := DecodeItems(s, count, repr).value;
      DecodeItems(s + t, count, repr) == Some((items, rest + t))
    decreases |s|, count + 1
  {
    hide Decode;
    if count > 0 {
      DecodeExtends(s, t, repr);
      ItemsExtend(Decode(s, repr).value.1, count - 1, t, repr);
    }
  }

  lemma {:induction false} PairsExtend(s: seq<Byte>, count: nat, acc: seq<Entry>, t: seq<Byte>, repr: Value -> string)
    requires DecodePairs(s, count, acc, repr).Some?
    ensures var (entries, rest) := DecodePairs(s, count, acc, repr).value;
      DecodePairs(s + t, count, acc, repr) == Some((entries, rest + t))
    decreases |s|, count + 1
  {
    hide Decode, Store;
    if count > 0 {
      DecodeExtends(s, t, repr);
      var (key, u) := Decode(s, repr).value;
      DecodeExtends(u, t, repr);
      var (v, w) := Decode(u, repr).value;
      PairsExtend(w, count - 1, Store(acc, KeyText(key, repr), v), t, repr);
    }
  }

  /** An encoding that is cut short is refused, wherever it is cut. */
  lemma {:induction false} CutShortIsRefused(v: Value, n: nat, repr: Value -> string)
    requires Encodable(v) && n < |Encode(v)|
    ensures Decode(Encode(v)[..n], repr) == None
  {
    hide Encode, Decode, Encodable, Prune;
    var all := Encode(v);
    var s, t := all[..n], all[n..];
    if Decode(s, repr).Some? {
      DecodeExtends(s, t, repr);
      assert s + t == all && all + [] == all;
      RoundTrip(v, [], repr);
    }
  }

  // ---------------------------------------------------------------------------------
  // Examples
  // ---------------------------------------------------------------------------------

  lemma {:induction false} HeadExamples()
    ensures Head(0, 23) == [0x17] && Head(0, 24) == [0x18, 0x18] && Head(0, 100) == [0x18, 0x64]
    ensures Head(0, 1000) == [0x19, 0x03, 0xE8] && Head(0, 1_000_000) == [0x1A, 0x00, 0x0F, 0x42, 0x40]
    ensures Head(1, 0) == [0x20] && Head(1, 99) == [0x38, 0x63]
  {
    OneByte(24);
    OneByte(99);
    OneByte(100);
    TwoBytes(1000);
    TwoBytes(1_000_000 / 256 / 256);
    TwoBytes(1_000_000 % 0x1_0000);
    hide BigEndian;
    FourBytes(1_000_000);
    assert 1_000_000 / 0x1_0000 == 15 && 1_000_000 % 0x1_0000 == 0x4240;
    assert [32 * 0 + 23] + BigEndian(23, 0) == [0x17] && [32 * 1 + 0] + BigEndian(0, 0) == [0x20] by {
      NoBytes(23);
      NoBytes(0);
    }
  }

  lemma {:induction false} NoBytes(n: nat)
    ensures BigEndian(n, 0) == []
  {}

  lemma {:induction false} OneByte(n: nat)
    requires n < 256
    ensures BigEndian(n, 1) == [n]
  {
    NoBytes(n / 256);
  }

  lemma {:induction false} TwoBytes(n: nat)
    requires n < 0x1_0000
    ensures BigEndian(n, 2) == [n / 256, n % 256]
  {
    OneByte(n / 256);
  }

  lemma {:induction false} FourBytes(n: nat)
    requires n < 0x1_0000_0000
    ensures BigEndian(n, 4) == BigEndian(n / 0x1_0000, 2) + BigEndian(n % 0x1_0000, 2)
  {
    TwoBytes(n / 0x1_0000);
    TwoBytes(n % 0x1_0000);
    assert BigEndian(n, 4) == BigEndian(n / 256, 3) + [n % 256];
    assert BigEndian(n / 256, 3) == BigEndian(n / 256 / 256, 2) + [n / 256 % 256];
  }

  /** Examples of appendix A of RFC 8949. */
  lemma {:induction false} Examples()
    ensures Encode(Int(1000)) == [0x19, 0x03, 0xE8] && Encode(Int(-100)) == [0x38, 0x63]
    ensures Encode(Bool(false)) == [0xF4] && Encode(Bool(true)) == [0xF5] && Encode(Null) == [0xF6]
    ensures Encode(Raw([1, 2, 3, 4])) == [0x44, 1, 2, 3, 4]
    ensures Encode(Text("a")) == [0x61, 0x61]
  {
    hide BigEndian;
    HeadExamples();
    NoBytes(1);
    NoBytes(4);
    assert Utf8.Encode("a") == [0x61] by {
      assert "a"[1..] == "" && Utf8.Encode("") == [];
    }
    assert Head(2, 4) == [0x44] && Head(3, 1) == [0x61];
  }

  /** Of the simple values and floats the controller takes false, true, null, undefined and a whole
      double; tags and lengths that are indefinite or reserved it refuses. */
  lemma {:induction false} FirstByteDecides(b: Byte, t: seq<Byte>, repr: Value -> string)
    requires b >= 0xC0 || b % 32 >= 28
    ensures Decode([b] + t, repr) ==
      if b == 0xF4 then Some((Bool(false), t))
      else if b == 0xF5 then Some((Bool(true), t))
      else if b == 0xF6 || b == 0xF7 then Some((Null, t))
      else if b == 0xFB && |t| >= 8 then Some((Float(t[..8]), t[8..]))
      else None
  {
    hide DecodeBody;
    assert ([b] + t)[1..] == t;
  }
}
