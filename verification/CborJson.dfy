/** The device's CBOR decoder, which writes the JSON text of the value it reads. */
module CborJson {
  import opened Bytes
  import Cbor
  import Decimal
  import Hex

  /** How a scan ends. `text` is what it has appended so far; `Overrun` stands for the one
      case in which the 64-bit sum of position and length wraps and the bounds check
      no longer protects the buffer. */
  datatype Outcome =
    | Done(text: string, rest: seq<Byte>)
    | Rejected(text: string)
    | Overrun(text: string)

  function Prefix(text: string, r: Outcome): Outcome {
    match r
    case Done(t, rest) => Done(text + t, rest)
    case Rejected(t) => Rejected(text + t)
    case Overrun(t) => Overrun(text + t)
  }

  function Enclose(open: string, r: Outcome, close: string): Outcome {
    match Prefix(open, r)
    case Done(t, rest) => Done(t + close, rest)
    case failed => failed
  }

  /** `appendJsonStringByte`: what one byte of a string becomes. */
  function EscapeByte(b: Byte): string {
    if b == '"' as int || b == '\\' as int then ['\\', b as char]
    else if b == 10 then "\\n"
    else if b == 13 then "\\r"
    else if b == 9 then "\\t"
    else if b >= 0x20 then [b as char]
    else ""
  }

  function Escape(bytes: seq<Byte>): string {
    if bytes == [] then "" else EscapeByte(bytes[0]) + Escape(bytes[1..])
  }

  /** What `decodeText` or `decodeBytesAsHexString` does with a string of `length` bytes at
      position `pos`, where `s` is the rest of the buffer. */
  function ScanString(s: seq<Byte>, pos: nat, length: nat, hex: bool): Outcome {
    if pos + length >= Cbor.TWO64 then Overrun("")
    else if length > |s| then Rejected("")
    else Done("\"" + (if hex then Hex.Encode(s[..length]) else Escape(s[..length])) + "\"", s[length..])
  }

  /** `decodeValue` at position `pos`, where `s` is the rest of the buffer. */
  function Scan(s: seq<Byte>, pos: nat): (r: Outcome)
    ensures r.Done? ==> |r.rest| < |s|
    decreases |s|, 0
  {
    if s == [] then Rejected("")
    else
      var major, ai, t := s[0] / 32, s[0] % 32, s[1..];
      if major == 7 then
        if ai == 20 then Done("false", t)
        else if ai == 21 then Done("true", t)
        else if ai == 22 || ai == 23 then Done("null", t)
        else Rejected("")
      else if major == 6 then Rejected("")
      else
        match Cbor.ReadUint(ai, t)
        case None => Rejected("")
        case Some((value, u)) => ScanBody(major, value, u, pos + |s| - |u|)
  }

  /** The value whose head says `major` and `value`, from the bytes after the head. */
  function ScanBody(major: nat, value: nat, u: seq<Byte>, pos: nat): (r: Outcome)
    requires major < 6
    ensures r.Done? ==> |r.rest| <= |u|
    decreases |u|, value + 2
  {
    if major == 0 then Done(Decimal.Natural(value % Cbor.TWO64), u)
    else if major == 1 then Done("-" + Decimal.Natural((value + 1) % Cbor.TWO64), u)
    else if major == 2 then ScanString(u, pos, value, true)
    else if major == 3 then ScanString(u, pos, value, false)
    else if major == 4 then
      Enclose("[", ScanItems(u, pos, value, true), "]")
    else
      Enclose("{", ScanPairs(u, pos, value, true), "}")
  }

  function Comma(first: bool): string {
    if first then "" else ","
  }

  function ScanItems(s: seq<Byte>, pos: nat, count: nat, first: bool): (r: Outcome)
    ensures r.Done? ==> |r.rest| <= |s|
    decreases |s|, count + 1
  {
    if count == 0 then Done("", s)
    else
      match Prefix(Comma(first), Scan(s, pos))
      case Done(text, t) => Prefix(text, ScanItems(t, pos + |s| - |t|, count - 1, false))
      case r => r
  }

  function ScanPairs(s: seq<Byte>, pos: nat, count: nat, first: bool): (r: Outcome)
    ensures r.Done? ==> |r.rest| <= |s|
    decreases |s|, count + 1
  {
    if count == 0 then Done("", s)
    else
      match Prefix(Comma(first), Scan(s, pos))
      case Done(key, t) =>
        (match Prefix(key + ":", Scan(t, pos + |s| - |t|))
         case Done(text, u) => Prefix(text, ScanPairs(u, pos + |s| - |u|, count - 1, false))
         case r => r)
      case r => r
  }

  // ---------------------------------------------------------------------------------
  // The class
  // ---------------------------------------------------------------------------------

  datatype Status = Ok | Failed | OutOfBounds

  /** A status and the text appended describe an outcome, up to the bytes left. */
  predicate Reports(r: Outcome, status: Status, before: string, after: string) {
    && status == (if r.Done? then Ok else if r.Rejected? then Failed else OutOfBounds)
    && after == before + r.text
  }

  class CborJsonDecoder {
    const data: seq<Byte>
    var pos: nat

    constructor (data: seq<Byte>)
      ensures this.data == data && pos == 0
    {
      this.data := data;
      pos := 0;
    }

    predicate Valid()
      reads this
    {
      pos <= |data|
    }

    function Rest(): seq<Byte>
      requires Valid()
      reads this
    {
      data[pos..]
    }

    /** The outcome of a method that ran from `before`: what it reports, and where it stops. */
    ghost predicate Ran(r: Outcome, status: Status, out0: string, out: string)
      reads this
    {
      Valid() && Reports(r, status, out0, out) && (r.Done? ==> Rest() == r.rest)
    }

    method ReadByte() returns (ok: bool, value: Byte)
      requires Valid()
      modifies this`pos
      ensures Valid() && ok == (old(Rest()) != [])
      ensures ok ==> pos == old(pos) + 1 && value == old(Rest())[0] && Rest() == old(Rest())[1..]
      ensures !ok ==> pos == old(pos)
    {
      if pos >= |data| {
        return false, 0;
      }
      ok, value := true, data[pos];
      pos := pos + 1;
    }

    method ReadUint(ai: nat) returns (ok: bool, value: nat)
      requires Valid()
      modifies this`pos
      ensures Valid() && ok == Cbor.ReadUint(ai, old(Rest())).Some?
      ensures ok ==> Cbor.ReadUint(ai, old(Rest())) == Some((value, Rest())) && pos >= old(pos)
    {
      if ai < 24 {
        return true, ai;
      }
      var bytes := 0;
      if ai == 24 {
        bytes := 1;
      } else if ai == 25 {
        bytes := 2;
      } else if ai == 26 {
        bytes := 4;
      } else if ai == 27 {
        bytes := 8;
      } else {
        return false, 0;
      }
      if pos + bytes > |data| {
        return false, 0;
      }
      value := 0;
      ghost var start := pos;
      for i := 0 to bytes
        invariant pos == start + i && pos + (bytes - i) <= |data|
        invariant value == Cbor.FromBigEndian(data[start..pos]) && value < Cbor.Pow256(i)
      {
        assert data[start..pos + 1] == data[start..pos] + [data[pos]];
        Cbor.Widths();
        value := value * 256 + data[pos];
        pos := pos + 1;
      }
      assert data[start..][..bytes] == data[start..pos] && data[start..][bytes..] == data[pos..];
      ok := true;
    }

    method DecodeText(out0: string, length: nat) returns (status: Status, out: string)
      requires Valid()
      modifies this`pos
      ensures Ran(ScanString(old(Rest()), old(pos), length, false), status, out0, out)
      ensures status == Ok ==> pos >= old(pos)
    {
      assert data[pos..pos] == [] && Escape([]) == "";
      hide EscapeByte, Escape;
      out := out0;
      if pos + length >= Cbor.TWO64 {
        return OutOfBounds, out;
      }
      if pos + length > |data| {
        return Failed, out;
      }
      out := out + "\"";
      ghost var start := pos;
      for i := 0 to length
        invariant pos == start + i
        invariant out == out0 + "\"" + Escape(data[start..pos])
      {
        assert data[start..pos + 1] == data[start..pos] + [data[pos]];
        EscapeNext(data[start..pos], data[pos]);
        Assoc(out0 + "\"", Escape(data[start..pos]), EscapeByte(data[pos]));
        out := out + EscapeByte(data[pos]);
        pos := pos + 1;
      }
      out := out + "\"";
      assert data[start..][..length] == data[start..pos] && data[start..][length..] == data[pos..];
      status := Ok;
    }

    method DecodeBytesAsHexString(out0: string, length: nat) returns (status: Status, out: string)
      requires Valid()
      modifies this`pos
      ensures Ran(ScanString(old(Rest()), old(pos), length, true), status, out0, out)
      ensures status == Ok ==> pos >= old(pos)
    {
      assert data[pos..pos] == [] && Hex.Encode([]) == "";
      hide Hex.EncodeByte, Hex.Encode;
      out := out0;
      if pos + length >= Cbor.TWO64 {
        return OutOfBounds, out;
      }
      if pos + length > |data| {
        return Failed, out;
      }
      out := out + "\"";
      ghost var start := pos;
      for i := 0 to length
        invariant pos == start + i
        invariant out == out0 + "\"" + Hex.Encode(data[start..pos])
      {
        assert data[start..pos + 1] == data[start..pos] + [data[pos]];
        Hex.EncodeNext(data[start..pos], data[pos]);
        Assoc(out0 + "\"", Hex.Encode(data[start..pos]), Hex.EncodeByte(data[pos]));
        out := out + Hex.EncodeByte(data[pos]);
        pos := pos + 1;
      }
      out := out + "\"";
      assert data[start..][..length] == data[start..pos] && data[start..][length..] == data[pos..];
      status := Ok;
    }

    /** The recursive descent. It ends on every input: each value takes at least one byte,
        so even an element count near 2^64 costs no more steps than there are bytes. */
    method DecodeValue(out0: string) returns (status: Status, out: string)
      requires Valid()
      modifies this`pos
      ensures Ran(Scan(old(Rest()), old(pos)), status, out0, out)
      ensures status == Ok ==> pos > old(pos)
      decreases |data| - pos, 0
    {
      out := out0;
      var ok, first := ReadByte();
      if !ok {
        return Failed, out;
      }
      var major, ai := first / 32, first % 32;
      if major == 7 {
        if ai == 20 {
          return Ok, out + "false";
        }
        if ai == 21 {
          return Ok, out + "true";
        }
        if ai == 22 || ai == 23 {
          return Ok, out + "null";
        }
        return Failed, out;
      }
      if major == 6 {
        return Failed, out;
      }
      var read, value := ReadUint(ai);
      if !read {
        return Failed, out;
      }
      if major == 0 {
        return Ok, out + Decimal.Natural(value % Cbor.TWO64);
      } else if major == 1 {
        out := out + "-";
        return Ok, out + Decimal.Natural((value + 1) % Cbor.TWO64);
      } else if major == 2 {
        status, out := DecodeBytesAsHexString(out, value);
      } else if major == 3 {
        status, out := DecodeText(out, value);
      } else if major == 4 {
        status, out := DecodeItems(out, value);
      } else {
        status, out := DecodePairs(out, value);
      }
    }

    method DecodeItems(out0: string, value: nat) returns (status: Status, out: string)
      requires Valid()
      modifies this`pos
      ensures Ran(ScanBody(4, value, old(Rest()), old(pos)), status, out0, out)
      ensures status == Ok ==> pos >= old(pos)
      decreases |data| - pos, 1
    {
      hide Scan, ScanItems, ScanPairs, Prefix, Enclose;
      out := out0 + "[";
      var i := 0;
      ghost var whole, text := ScanItems(Rest(), pos, value, true), "";
      PrefixNothing(whole);
      while i < value
        invariant i <= value && Valid() && old(pos) <= pos
        invariant out == (out0 + "[") + text
        invariant whole == Prefix(text, ScanItems(Rest(), pos, value - i, i == 0))
        decreases value - i
      {
        ghost var r := Scan(Rest(), pos);
        ItemsStep(text, Rest(), pos, value - i, i == 0);
        Assoc(out0 + "[", text, Comma(i == 0));
        if i > 0 {
          out := out + ",";
        }
        text := text + Comma(i == 0);
        EncloseFailed("[", text, r, "]", out0);
        Assoc(out0 + "[", text, r.text);
        status, out := DecodeValue(out);
        if status != Ok {
          return;
        }
        text := text + r.text;
        i := i + 1;
      }
      NoItems(Rest(), pos);
      EncloseDone("[", text, Rest(), "]", out0);
      out := out + "]";
      status := Ok;
    }

    method DecodePairs(out0: string, value: nat) returns (status: Status, out: string)
      requires Valid()
      modifies this`pos
      ensures Ran(ScanBody(5, value, old(Rest()), old(pos)), status, out0, out)
      ensures status == Ok ==> pos >= old(pos)
      decreases |data| - pos, 1
    {
      hide Scan, ScanItems, ScanPairs, Prefix, Enclose;
      out := out0 + "{";
      var i := 0;
      ghost var whole, text := ScanPairs(Rest(), pos, value, true), "";
      PrefixNothing(whole);
      while i < value
        invariant i <= value && Valid() && old(pos) <= pos
        invariant out == (out0 + "{") + text
        invariant whole == Prefix(text, ScanPairs(Rest(), pos, value - i, i == 0))
        decreases value - i
      {
        ghost var k := Scan(Rest(), pos);
        PairsStep(text, Rest(), pos, value - i, i == 0);
        Assoc(out0 + "{", text, Comma(i == 0));
        if i > 0 {
          out := out + ",";
        }
        text := text + Comma(i == 0);
        EncloseFailed("{", text, k, "}", out0);
        Assoc(out0 + "{", text, k.text);
        status, out := DecodeValue(out);
        if status != Ok {
          return;
        }
        Assoc(out0 + "{", text + k.text, ":");
        out := out + ":";
        text := text + k.text + ":";
        ghost var v := Scan(Rest(), pos);
        EncloseFailed("{", text, v, "}", out0);
        Assoc(out0 + "{", text, v.text);
        status, out := DecodeValue(out);
        if status != Ok {
          return;
        }
        text := text + v.text;
        i := i + 1;
      }
      NoItems(Rest(), pos);
      EncloseDone("{", text, Rest(), "}", out0);
      out := out + "}";
      status := Ok;
    }
  }

  lemma {:induction false} Assoc(a: string, b: string, c: string)
    ensures a + b + c == a + (b + c)
  {}

  lemma {:induction false} PrefixNothing(r: Outcome)
    ensures r == Prefix("", r)
  {
    assert "" + r.text == r.text;
  }

  lemma {:induction false} NoItems(s: seq<Byte>, pos: nat)
    ensures ScanItems(s, pos, 0, true) == ScanItems(s, pos, 0, false) == Done("", s)
    ensures ScanPairs(s, pos, 0, true) == ScanPairs(s, pos, 0, false) == Done("", s)
  {}

  lemma {:induction false} EncloseFailed(open: string, text: string, r: Outcome, close: string, before: string)
    ensures var whole := Enclose(open, Prefix(text, r), close);
      !r.Done? ==>
      && !whole.Done? && whole.Rejected? == r.Rejected?
      && before + whole.text == before + open + text + r.text
  {
    assert before + (open + (text + r.text)) == before + open + text + r.text;
  }

  lemma {:induction false} EncloseDone(open: string, text: string, rest: seq<Byte>, close: string, before: string)
    ensures var whole := Enclose(open, Prefix(text, Done("", rest)), close);
      && whole.Done? && whole.rest == rest
      && before + whole.text == before + open + text + close
  {
    assert text + "" == text;
    assert before + (open + text + close) == before + open + text + close;
  }

  lemma {:induction false} PrefixPrefix(a: string, b: string, r: Outcome)
    ensures Prefix(a, Prefix(b, r)) == Prefix(a + b, r)
  {
    assert a + (b + r.text) == a + b + r.text;
  }

  /** One element more, after `text`. */
  lemma {:induction false} ItemsStep(text: string, s: seq<Byte>, pos: nat, count: nat, first: bool)
    requires count > 0
    ensures var r := Scan(s, pos);
      Prefix(text, ScanItems(s, pos, count, first)) ==
      if r.Done? then Prefix(text + Comma(first) + r.text, ScanItems(r.rest, pos + |s| - |r.rest|, count - 1, false))
      else Prefix(text + Comma(first), r)
  {
    hide Scan;
    var r := Scan(s, pos);
    if r.Done? {
      var tail := ScanItems(r.rest, pos + |s| - |r.rest|, count - 1, false);
      PrefixPrefix(text, Comma(first) + r.text, tail);
      assert text + (Comma(first) + r.text) == text + Comma(first) + r.text;
    } else {
      PrefixPrefix(text, Comma(first), r);
    }
  }

  /** One key and value more, after `text`. */
  lemma {:induction false} PairsStep(text: string, s: seq<Byte>, pos: nat, count: nat, first: bool)
    requires count > 0
    ensures var k := Scan(s, pos);
      Prefix(text, ScanPairs(s, pos, count, first)) ==
      if !k.Done? then Prefix(text + Comma(first), k)
      else
        var p := pos + |s| - |k.rest|;
        var v := Scan(k.rest, p);
        if !v.Done? then Prefix(text + Comma(first) + k.text + ":", v)
        else Prefix(text + Comma(first) + k.text + ":" + v.text,
                    ScanPairs(v.rest, p + |k.rest| - |v.rest|, count - 1, false))
  {
    hide Scan;
    var k := Scan(s, pos);
    if !k.Done? {
      PrefixPrefix(text, Comma(first), k);
    } else {
      var p := pos + |s| - |k.rest|;
      var v := Scan(k.rest, p);
      var key := Comma(first) + k.text + ":";
      assert text + key == text + Comma(first) + k.text + ":";
      if !v.Done? {
        PrefixPrefix(text, key, v);
      } else {
        PrefixPrefix(text, key + v.text, ScanPairs(v.rest, p + |k.rest| - |v.rest|, count - 1, false));
        assert text + (key + v.text) == text + Comma(first) + k.text + ":" + v.text;
      }
    }
  }

  lemma {:induction false} EscapeNext(s: seq<Byte>, b: Byte)
    ensures Escape(s + [b]) == Escape(s) + EscapeByte(b)
  {
    hide EscapeByte;
    EscapeAppend(s, [b]);
    assert [b][1..] == [] && EscapeByte(b) + "" == EscapeByte(b);
  }

  lemma {:induction false} EscapeAppend(a: seq<Byte>, b: seq<Byte>)
    ensures Escape(a + b) == Escape(a) + Escape(b)
  {
    hide EscapeByte;
    if a == [] {
      assert a + b == b;
    } else {
      assert (a + b)[0] == a[0] && (a + b)[1..] == a[1..] + b;
      EscapeAppend(a[1..], b);
    }
  }

  // ---------------------------------------------------------------------------------
  // What is not part of the subset
  // ---------------------------------------------------------------------------------

  /** Of the simple values and floats the device takes false, true, null and undefined; tags and
      lengths that are indefinite or reserved (sections 3.3, 3.4 and 3.2 of RFC 8949) it rejects. */
  lemma {:induction false} FirstByteDecides(b: Byte, t: seq<Byte>, pos: nat)
    requires b >= 0xC0 || b % 32 >= 28
    ensures Scan([b] + t, pos) ==
      if b == 0xF4 then Done("false", t)
      else if b == 0xF5 then Done("true", t)
      else if b == 0xF6 || b == 0xF7 then Done("null", t)
      else Rejected("")
  {
    hide ScanBody;
    assert ([b] + t)[1..] == t;
  }
}
