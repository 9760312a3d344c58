/** UTF-8 (RFC 3629), as the controller writes and reads text. */
module Utf8 {
  import opened Bytes

  function EncodeChar(c: char): (bytes: seq<Byte>)
    ensures 1 <= |bytes| <= 4
    ensures c as int < 0x80 ==> bytes == [c as int]
    ensures c as int >= 0x80 ==> forall i :: 0 <= i < |bytes| ==> bytes[i] >= 0x80
  {
    var n := c as int;
    if n < 0x80 then [n]
    else if n < 0x800 then [0xC0 + n / 64, 0x80 + n % 64]
    else if n < 0x1_0000 then [0xE0 + n / 4096, 0x80 + n / 64 % 64, 0x80 + n % 64]
    else [0xF0 + n / 262144, 0x80 + n / 4096 % 64, 0x80 + n / 64 % 64, 0x80 + n % 64]
  }

  function Encode(s: string): (bytes: seq<Byte>)
    ensures |bytes| >= |s|
  {
    if s == "" then [] else EncodeChar(s[0]) + Encode(s[1..])
  }

  predicate Continuation(b: Byte) {
    0x80 <= b < 0xC0
  }

  predicate Scalar(n: int) {
    0 <= n < 0xD800 || 0xE000 <= n < 0x11_0000
  }

  /** The first character, strictly: no overlong form, no surrogate. */
  function DecodeChar(bytes: seq<Byte>): (r: Option<(char, nat)>)
    requires bytes != []
    ensures r.Some? ==> 1 <= r.value.1 <= |bytes|
  {
    var b := bytes[0];
    if b < 0x80 then Some((b as char, 1))
    else if 0xC0 <= b < 0xE0 && |bytes| >= 2 && Continuation(bytes[1]) then
      var n := (b as int - 0xC0) * 64 + (bytes[1] as int - 0x80);
      if n >= 0x80 then Some((n as char, 2)) else None
    else if 0xE0 <= b < 0xF0 && |bytes| >= 3 && Continuation(bytes[1]) && Continuation(bytes[2]) then
      var n := (b as int - 0xE0) * 4096 + (bytes[1] as int - 0x80) * 64 + (bytes[2] as int - 0x80);
      if n >= 0x800 && Scalar(n) then Some((n as char, 3)) else None
    else if 0xF0 <= b < 0xF8 && |bytes| >= 4 && Continuation(bytes[1]) && Continuation(bytes[2])
      && Continuation(bytes[3]) then
      var n := (b as int - 0xF0) * 262144 + (bytes[1] as int - 0x80) * 4096
               + (bytes[2] as int - 0x80) * 64 + (bytes[3] as int - 0x80);
      if n >= 0x1_0000 && Scalar(n) then Some((n as char, 4)) else None
    else None
  }

  function Decode(bytes: seq<Byte>): Option<string>
    decreases |bytes|
  {
    if bytes == [] then Some("")
    else
      match DecodeChar(bytes)
      case None => None
      case Some((c, used)) =>
        match Decode(bytes[used..])
        case None => None
        case Some(rest) => Some([c] + rest)
  }

  lemma {:induction false} DecodeTwoBytes(c: char, rest: seq<Byte>)
    requires 0x80 <= c as int < 0x800
    ensures DecodeChar(EncodeChar(c) + rest) == Some((c, 2))
  {
    var bytes := EncodeChar(c) + rest;
    assert bytes[0] == 0xC0 + c as int / 64 && bytes[1] == 0x80 + c as int % 64;
  }

  lemma {:induction false} DecodeThreeBytes(c: char, rest: seq<Byte>)
    requires 0x800 <= c as int < 0x1_0000
    ensures DecodeChar(EncodeChar(c) + rest) == Some((c, 3))
  {
    var n := c as int;
    var bytes := EncodeChar(c) + rest;
    var x, y, z := n / 4096, n / 64 % 64, n % 64;
    assert n == x * 4096 + y * 64 + z by {
      assert n / 64 == x * 64 + y;
    }
    assert bytes[0] == 0xE0 + x && bytes[1] == 0x80 + y && bytes[2] == 0x80 + z;
  }

  lemma {:induction false} DecodeFourBytes(c: char, rest: seq<Byte>)
    requires 0x1_0000 <= c as int
    ensures DecodeChar(EncodeChar(c) + rest) == Some((c, 4))
  {
    var n := c as int;
    var bytes := EncodeChar(c) + rest;
    var w, x, y, z := n / 262144, n / 4096 % 64, n / 64 % 64, n % 64;
    assert n == w * 262144 + x * 4096 + y * 64 + z by {
      assert n / 4096 == w * 64 + x;
      assert n / 64 == n / 4096 * 64 + y;
    }
    assert bytes[0] == 0xF0 + w && bytes[1] == 0x80 + x && bytes[2] == 0x80 + y && bytes[3] == 0x80 + z;
  }

  lemma {:induction false} DecodeCharOfEncode(c: char, rest: seq<Byte>)
    ensures DecodeChar(EncodeChar(c) + rest) == Some((c, |EncodeChar(c)|))
  {
    var n := c as int;
    if n < 0x80 {
      assert (EncodeChar(c) + rest)[0] == n;
    } else if n < 0x800 {
      DecodeTwoBytes(c, rest);
    } else if n < 0x1_0000 {
      DecodeThreeBytes(c, rest);
    } else {
      DecodeFourBytes(c, rest);
    }
  }

  lemma {:induction false} DecodeOfEncode(s: string)
    ensures Decode(Encode(s)) == Some(s)
  {
    if s != "" {
      var head, tail := EncodeChar(s[0]), Encode(s[1..]);
      DecodeCharOfEncode(s[0], tail);
      assert (head + tail)[|head|..] == tail;
      DecodeOfEncode(s[1..]);
      assert [s[0]] + s[1..] == s;
    }
  }

  /** The bits of a character of four bytes. */
  lemma {:induction false} FourDigits(w: nat, x: nat, y: nat, z: nat, n: nat)
    requires x < 64 && y < 64 && z < 64 && n == w * 262144 + x * 4096 + y * 64 + z
    ensures n / 262144 == w && n / 4096 % 64 == x && n / 64 % 64 == y && n % 64 == z
  {
    assert n / 64 == w * 4096 + x * 64 + y;
    assert n / 4096 == w * 64 + x;
  }

  /** A character is decoded only from its own encoding: no other form is taken. */
  lemma {:induction false} DecodeCharIsStrict(bytes: seq<Byte>)
    requires bytes != [] && DecodeChar(bytes).Some?
    ensures var (c, used) := DecodeChar(bytes).value; bytes[..used] == EncodeChar(c)
  {
    var (c, used) := DecodeChar(bytes).value;
    var b, n := bytes[0], c as int;
    if b < 0x80 {
    } else if b < 0xE0 {
      assert n / 64 == b - 0xC0 && n % 64 == bytes[1] - 0x80;
    } else if b < 0xF0 {
      FourDigits(0, b - 0xE0, bytes[1] - 0x80, bytes[2] - 0x80, n);
      assert n / 4096 == b - 0xE0;
    } else {
      FourDigits(b - 0xF0, bytes[1] - 0x80, bytes[2] - 0x80, bytes[3] - 0x80, n);
    }
  }

  /** Decoding is strict (section 3 of RFC 3629): bytes are taken for a text if and only if they
      are its encoding. */
  lemma {:induction false} DecodesIff(bytes: seq<Byte>, s: string)
    ensures Decode(bytes) == Some(s) <==> Encode(s) == bytes
  {
    if Decode(bytes) == Some(s) {
      DecodeIsStrict(bytes);
    }
    if Encode(s) == bytes {
      DecodeOfEncode(s);
    }
  }

  lemma {:induction false} DecodeIsStrict(bytes: seq<Byte>)
    requires Decode(bytes).Some?
    ensures Encode(Decode(bytes).value) == bytes
    decreases |bytes|
  {
    hide DecodeChar, EncodeChar;
    if bytes != [] {
      DecodeCharIsStrict(bytes);
      var (c, used) := DecodeChar(bytes).value;
      DecodeIsStrict(bytes[used..]);
      var rest := Decode(bytes[used..]).value;
      assert ([c] + rest)[1..] == rest;
      assert bytes[..used] + bytes[used..] == bytes;
    }
  }

  lemma {:induction false} EncodeAppend(a: string, b: string)
    ensures Encode(a + b) == Encode(a) + Encode(b)
  {
    if a == "" {
      assert a + b == b;
    } else {
      assert (a + b)[0] == a[0] && (a + b)[1..] == a[1..] + b;
      EncodeAppend(a[1..], b);
    }
  }

  predicate Ascii(s: string) {
    forall i :: 0 <= i < |s| ==> s[i] as int < 0x80
  }

  /** Text as the device sees it: the UTF-8 bytes, one character each. */
  function Wire(s: string): string {
    Latin1(Encode(s))
  }

  lemma {:induction false} WireAppend(a: string, b: string)
    ensures Wire(a + b) == Wire(a) + Wire(b)
  {
    EncodeAppend(a, b);
    Latin1Append(Encode(a), Encode(b));
  }

  lemma {:induction false} WireInjective(a: string, b: string)
    requires Wire(a) == Wire(b)
    ensures a == b
  {
    hide Encode;
    Latin1Injective(Encode(a), Encode(b));
    DecodeOfEncode(a);
    DecodeOfEncode(b);
  }

  lemma {:induction false} WireOfAscii(s: string)
    requires Ascii(s)
    ensures Wire(s) == s
  {
    if s != "" {
      assert s == [s[0]] + s[1..];
      assert Latin1([s[0] as int]) == [s[0]] by {
        assert [s[0] as int][1..] == [];
      }
      assert Wire([s[0]]) == [s[0]] by {
        assert [s[0]][1..] == "" && Encode("") == [] && EncodeChar(s[0]) + [] == EncodeChar(s[0]);
      }
      WireAppend([s[0]], s[1..]);
      WireOfAscii(s[1..]);
    }
  }
}
