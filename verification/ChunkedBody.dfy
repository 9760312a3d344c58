/** The chunked transfer coding (section 7.1 of RFC 9112) as the firmware updater reads it. */
module ChunkedBody {
  import opened Bytes
  import Hex
  import opened Text

  // ---------------------------------------------------------------------------------
  // Lines and chunk sizes
  // ---------------------------------------------------------------------------------

  /** The outcome of `readLine` and the bytes it left. */
  datatype Line = Line(ok: bool, text: string, rest: seq<Byte>)

  /** `readLine` with `line` read so far, on the bytes that arrive in time. */
  function ReadLine(rx: seq<Byte>, line: string): (r: Line)
    ensures |r.rest| <= |rx| && (r.ok ==> |r.rest| < |rx|)
    decreases |rx|
  {
    if rx == [] then Line(false, line, [])
    else if rx[0] == 10 then Line(true, Trim(line), rx[1..])
    else
      var longer := line + [rx[0] as char];
      if |longer| > 300 then Line(false, longer, rx[1..]) else ReadLine(rx[1..], longer)
  }

  function HexPrefix(s: string, value: nat): nat {
    if s == "" || Hex.Nibble(s[0]) < 0 then value else HexPrefix(s[1..], 16 * value + Hex.Nibble(s[0]))
  }

  function Unsigned16(s: string): nat {
    HexPrefix(if "0x" <= s || "0X" <= s then s[2..] else s, 0)
  }

  /** `strtol(s, nullptr, 16)` for a 32-bit `long`, which saturates. */
  function Strtol16(s: string): int {
    var t := SkipSpaces(s);
    if t != "" && t[0] == '-' then
      var n := Unsigned16(t[1..]);
      if n > 0x8000_0000 then -0x8000_0000 else -(n as int)
    else
      var n := Unsigned16(if t != "" && t[0] == '+' then t[1..] else t);
      if n > 0x7FFF_FFFF then 0x7FFF_FFFF else n
  }

  /** The size on a line, up to its extensions. */
  function SizeOf(line: string): int {
    var semi := IndexOf(line, ";");
    Strtol16(Trim(if semi >= 0 then line[..semi] else line))
  }

  /** `readChunkSize` */
  function ReadSize(rx: seq<Byte>): (r: Option<(int, seq<Byte>)>)
    ensures r.Some? ==> |r.value.1| < |rx|
  {
    var l := ReadLine(rx, "");
    if l.ok then Some((SizeOf(l.text), l.rest)) else None
  }

  function Count(size: int): nat {
    if size < 0 then 0 else size
  }

  // ---------------------------------------------------------------------------------
  // Sizes as servers write them
  // ---------------------------------------------------------------------------------

  /** Hexadecimal without leading zeros. */
  function HexText(n: nat): (s: string)
    ensures s != "" && Hex.AllCanonical(s)
  {
    if n < 16 then [Hex.Digit(n)] else HexText(n / 16) + [Hex.Digit(n % 16)]
  }

  lemma {:induction false} HexPrefixAppend(s: string, c: char, value: nat)
    requires Hex.AllCanonical(s) && Hex.Nibble(c) >= 0
    ensures HexPrefix(s + [c], value) == 16 * HexPrefix(s, value) + Hex.Nibble(c)
    decreases s
  {
    if s == "" {
      assert s + [c] == [c] && [c][1..] == "";
    } else {
      assert Hex.Canonical(s[0]);
      assert (s + [c])[1..] == s[1..] + [c];
      HexPrefixAppend(s[1..], c, 16 * value + Hex.Nibble(s[0]));
    }
  }

  lemma {:induction false} HexTextReads(n: nat)
    ensures HexPrefix(HexText(n), 0) == n
    decreases n
  {
    if n < 16 {
      assert [Hex.Digit(n)][1..] == "";
    } else {
      HexTextReads(n / 16);
      HexPrefixAppend(HexText(n / 16), Hex.Digit(n % 16), 0);
    }
  }

  lemma {:induction false} CanonicalIsPlain(s: string)
    requires s != "" && Hex.AllCanonical(s)
    ensures !Space(s[0]) && s[0] != '-' && s[0] != '+' && !Space(s[|s| - 1])
    ensures !("0x" <= s || "0X" <= s) && forall i :: 0 <= i < |s| ==> s[i] != ';'
  {
    assert Hex.Canonical(s[0]) && Hex.Canonical(s[|s| - 1]);
    assert |s| > 1 ==> Hex.Canonical(s[1]);
  }

  lemma {:induction false} DropTrailingAppend(a: string, b: string)
    requires a != "" && !Space(a[|a| - 1])
    ensures DropTrailing(a + b) == a + DropTrailing(b)
    decreases |b|
  {
    var s := a + b;
    if b == "" {
      assert s == a && a + DropTrailing(b) == a;
    } else if Space(b[|b| - 1]) {
      assert s[|s| - 1] == b[|b| - 1] && s[..|s| - 1] == a + b[..|b| - 1];
      DropTrailingAppend(a, b[..|b| - 1]);
    } else {
      assert s[|s| - 1] == b[|b| - 1];
    }
  }

  lemma {:induction false} TrimAppend(a: string, b: string)
    requires a != "" && !Space(a[0]) && !Space(a[|a| - 1])
    ensures Trim(a + b) == a + DropTrailing(b)
  {
    assert (a + b)[0] == a[0];
    DropTrailingAppend(a, b);
  }

  lemma {:induction false} FirstSemicolon(a: string, b: string)
    requires forall i :: 0 <= i < |a| ==> a[i] != ';'
    ensures IndexOf(a + b, ";") == if IndexOf(b, ";") < 0 then -1 else |a| + IndexOf(b, ";")
    decreases a
  {
    if a == "" {
      assert a + b == b;
    } else {
      assert (a + b)[0] == a[0] && (a + b)[1..] == a[1..] + b;
      FirstSemicolon(a[1..], b);
    }
  }

  /** A size below 2^31, alone or followed by chunk extensions, is read as written. */
  lemma {:induction false} SizeLineReads(n: nat, extensions: string)
    requires n < 0x8000_0000 && (extensions == "" || extensions[0] == ';')
    ensures SizeOf(Trim(HexText(n) + extensions + "\r")) == n
  {
    hide HexText, DropTrailing, SkipSpaces, Strtol16;
    var hex := HexText(n);
    CanonicalIsPlain(hex);
    PlainSize(n);
    assert hex + extensions + "\r" == hex + (extensions + "\r");
    TrimAppend(hex, extensions + "\r");
    var tail := DropTrailing(extensions + "\r");
    FirstSemicolon(hex, tail);
    ExtensionTail(extensions);
    if extensions == "" {
      assert hex + tail == hex;
    } else {
      assert (hex + tail)[..|hex|] == hex;
    }
  }

  lemma {:induction false} ExtensionTail(extensions: string)
    requires extensions == "" || extensions[0] == ';'
    ensures var tail := DropTrailing(extensions + "\r");
      (if extensions == "" then tail == "" else tail != "" && tail[0] == ';')
      && IndexOf(tail, ";") == if extensions == "" then -1 else 0
  {
    if extensions == "" {
      assert "" + "\r" == "\r" && "\r"[..0] == "";
      assert DropTrailing("\r") == DropTrailing("");
    } else {
      assert extensions + "\r" == ";" + (extensions[1..] + "\r");
      DropTrailingAppend(";", extensions[1..] + "\r");
    }
  }

  lemma {:induction false} PlainSize(n: nat)
    requires n < 0x8000_0000
    ensures Trim(HexText(n)) == HexText(n) && Strtol16(HexText(n)) == n
  {
    hide HexText;
    var hex := HexText(n);
    CanonicalIsPlain(hex);
    TrimAppend(hex, "");
    assert hex + "" == hex && hex + DropTrailing("") == hex;
    HexTextReads(n);
  }

  lemma {:induction false} HexPrefixStops(s: string, tail: string, value: nat)
    requires Hex.AllCanonical(s) && (tail == "" || Hex.Nibble(tail[0]) < 0)
    ensures HexPrefix(s + tail, value) == HexPrefix(s, value)
    decreases s
  {
    if s == "" {
      assert s + tail == tail;
    } else {
      assert Hex.Canonical(s[0]) && (s + tail)[1..] == s[1..] + tail;
      HexPrefixStops(s[1..], tail, 16 * value + Hex.Nibble(s[0]));
    }
  }

  lemma {:induction false} UnsignedReads(prefix: string, n: nat, tail: string)
    requires prefix == "" || prefix == "0x" || prefix == "0X"
    requires tail == "" || (Hex.Nibble(tail[0]) < 0 && tail[0] != 'x' && tail[0] != 'X')
    ensures Unsigned16(prefix + (HexText(n) + tail)) == n
  {
    hide HexText, HexPrefix, Hex.Nibble;
    var hex := HexText(n);
    var s := prefix + (hex + tail);
    HexPrefixStops(hex, tail, 0);
    HexTextReads(n);
    CanonicalIsPlain(hex);
    if prefix == "" {
      assert s == hex + tail;
      assert s[0] == hex[0];
      if |hex| > 1 {
        assert s[1] == hex[1] && Hex.Canonical(hex[1]);
      } else if tail != "" {
        assert s[1] == tail[0];
      }
      assert "0x"[1] == 'x' && "0X"[1] == 'X';
      assert !("0x" <= s) && !("0X" <= s);
    } else {
      assert prefix <= s && s[2..] == hex + tail;
    }
  }

  /** `strtol` on a number with a sign and a prefix of C, after spaces and before anything that is
      no digit: the nearest number of 32 bits. */
  lemma {:induction false} StrtolReads(spaces: string, sign: string, prefix: string, n: nat, tail: string)
    requires AllSpace(spaces) && (sign == "" || sign == "+" || sign == "-")
    requires prefix == "" || prefix == "0x" || prefix == "0X"
    requires tail == "" || (Hex.Nibble(tail[0]) < 0 && tail[0] != 'x' && tail[0] != 'X')
    ensures Strtol16(spaces + (sign + (prefix + (HexText(n) + tail)))) ==
      if sign == "-" then (if n > 0x8000_0000 then -0x8000_0000 else 0 - n)
      else if n > 0x7FFF_FFFF then 0x7FFF_FFFF else n
  {
    hide HexText, SkipSpaces, Unsigned16, Hex.Nibble;
    var number := prefix + (HexText(n) + tail);
    UnsignedReads(prefix, n, tail);
    NumberStarts(prefix, n, tail);
    var t := sign + number;
    if sign == "" {
      assert t == number;
    } else {
      assert t[0] == sign[0] && t[1..] == number;
    }
    SkipsSpaces(spaces, t);
  }

  lemma {:induction false} NumberStarts(prefix: string, n: nat, tail: string)
    requires prefix == "" || prefix == "0x" || prefix == "0X"
    ensures var s := prefix + (HexText(n) + tail); s != "" && !Space(s[0]) && s[0] != '-' && s[0] != '+'
  {
    hide HexText;
    var s := prefix + (HexText(n) + tail);
    CanonicalIsPlain(HexText(n));
    if prefix == "" {
      assert s[0] == HexText(n)[0];
    } else {
      assert s[0] == '0';
    }
  }

  // ---------------------------------------------------------------------------------
  // Lines as servers write them
  // ---------------------------------------------------------------------------------

  lemma {:induction false} LineReads(text: seq<Byte>, rest: seq<Byte>, line: string)
    requires 10 !in text && |line| + |text| <= 300
    ensures ReadLine(text + [10] + rest, line) == Line(true, Trim(line + Latin1(text)), rest)
    decreases |text|
  {
    hide Trim;
    var rx := text + [10] + rest;
    if text == [] {
      assert rx[1..] == rest && line + Latin1(text) == line;
    } else {
      assert rx[0] == text[0] && rx[1..] == text[1..] + [10] + rest;
      LineReads(text[1..], rest, line + [text[0] as char]);
      assert line + [text[0] as char] + Latin1(text[1..]) == line + Latin1(text);
    }
  }

  /** A line is read if and only if it ends among the first 301 bytes: then it is what comes before
      its end, trimmed. Else the bytes up to there are lost. */
  lemma {:induction false} LineIsReadIff(rx: seq<Byte>)
    ensures ReadLine(rx, "").ok <==> exists k :: 0 <= k < |rx| && k <= 300 && rx[k] == 10
    ensures forall k :: 0 <= k < |rx| && k <= 300 && rx[k] == 10 && 10 !in rx[..k] ==>
      ReadLine(rx, "") == Line(true, Trim(Latin1(rx[..k])), rx[k + 1..])
    ensures !ReadLine(rx, "").ok ==> ReadLine(rx, "").rest == if |rx| <= 300 then [] else rx[301..]
  {
    hide Trim, ReadLine, Latin1;
    forall k | 0 <= k < |rx| && k <= 300 && rx[k] == 10 && 10 !in rx[..k]
      ensures ReadLine(rx, "") == Line(true, Trim(Latin1(rx[..k])), rx[k + 1..])
    {
      LineReads(rx[..k], rx[k + 1..], "");
      assert rx[..k] + [10] + rx[k + 1..] == rx && "" + Latin1(rx[..k]) == Latin1(rx[..k]);
    }
    if k :| 0 <= k < |rx| && k <= 300 && rx[k] == 10 {
      FirstEnd(rx, k);
    } else {
      LineIsLost(rx, "");
    }
  }

  lemma {:induction false} FirstEnd(rx: seq<Byte>, k: nat)
    requires k < |rx| && rx[k] == 10
    ensures exists j :: 0 <= j <= k && rx[j] == 10 && 10 !in rx[..j]
  {
    if 10 in rx[..k] {
      var j :| 0 <= j < k && rx[..k][j] == 10;
      FirstEnd(rx, j);
    }
  }

  lemma {:induction false} LineIsLost(rx: seq<Byte>, line: string)
    requires |line| <= 300 && forall k :: 0 <= k < |rx| && k <= 300 - |line| ==> rx[k] != 10
    ensures !ReadLine(rx, line).ok
    ensures ReadLine(rx, line).rest == if |rx| <= 300 - |line| then [] else rx[301 - |line|..]
    decreases |rx|
  {
    hide Trim;
    if rx != [] && |line| < 300 {
      var longer := line + [rx[0] as char];
      assert forall k :: 0 <= k < |rx[1..]| ==> rx[1..][k] == rx[k + 1];
      LineIsLost(rx[1..], longer);
    }
  }

  const CRLF: seq<Byte> := [13, 10]

  lemma {:induction false} CrlfReads(rest: seq<Byte>)
    ensures ReadLine(CRLF + rest, "").rest == rest
  {
    hide Trim;
    LineReads([13], rest, "");
    assert CRLF + rest == [13] + [10] + rest;
  }
}
