/** Hexadecimal text: the form in which file bytes and checksums travel. */
module Hex {
  import opened Bytes
  import opened Words

  /** A digit as the device and the controller print it. */
  predicate Canonical(c: char) {
    '0' <= c <= '9' || 'a' <= c <= 'f'
  }

  function Digit(n: nat): (c: char)
    requires n < 16
    ensures Canonical(c) && Nibble(c) == n
  {
    if n < 10 then ('0' as int + n) as char else ('a' as int + n - 10) as char
  }

  /** `hexNibble`: the value of a digit of either case, or -1. */
  function Nibble(c: char): (n: int)
    ensures -1 <= n < 16
    ensures Canonical(c) ==> n >= 0
  {
    if '0' <= c <= '9' then c as int - '0' as int
    else if 'a' <= c <= 'f' then c as int - 'a' as int + 10
    else if 'A' <= c <= 'F' then c as int - 'A' as int + 10
    else -1
  }

  lemma {:induction false} DigitOfNibble(c: char)
    requires Nibble(c) >= 0
    ensures Digit(Nibble(c)) == c <==> Canonical(c)
  {}

  const LOWER := "0123456789abcdef"
  const UPPER := "0123456789ABCDEF"

  predicate IsDigit(c: char) {
    c in LOWER || c in UPPER
  }

  /** Each of the sixteen digits has its value, in either case, and nothing else has one. */
  lemma {:induction false} NibbleValues(c: char, k: nat)
    requires k < 16
    ensures Nibble(c) == k <==> c == LOWER[k] || c == UPPER[k]
    ensures Nibble(c) >= 0 <==> IsDigit(c)
  {
    NibbleIs(c, k);
    if Nibble(c) >= 0 {
      NibbleIs(c, Nibble(c));
    }
    if c in LOWER {
      var i :| 0 <= i < |LOWER| && LOWER[i] == c;
      NibbleIs(c, i);
    }
    if c in UPPER {
      var i :| 0 <= i < |UPPER| && UPPER[i] == c;
      NibbleIs(c, i);
    }
  }

  lemma {:induction false} NibbleIs(c: char, k: nat)
    requires k < 16
    ensures Nibble(c) == k <==> c == LOWER[k] || c == UPPER[k]
  {
    if k < 10 {
      assert LOWER[k] as int == '0' as int + k && UPPER[k] == LOWER[k];
    } else {
      assert LOWER[k] as int == 'a' as int + k - 10 && UPPER[k] as int == 'A' as int + k - 10;
    }
  }

  function EncodeByte(b: Byte): (s: string)
    ensures |s| == 2
  {
    [Digit(b / 16), Digit(b % 16)]
  }

  function Encode(bytes: seq<Byte>): (s: string)
    ensures |s| == 2 * |bytes|
  {
    if bytes == [] then "" else EncodeByte(bytes[0]) + Encode(bytes[1..])
  }

  lemma {:induction false} EncodeAppend(a: seq<Byte>, b: seq<Byte>)
    ensures Encode(a + b) == Encode(a) + Encode(b)
  {
    if a == [] {
      assert a + b == b;
    } else {
      assert (a + b)[0] == a[0] && (a + b)[1..] == a[1..] + b;
      EncodeAppend(a[1..], b);
    }
  }

  lemma {:induction false} EncodeNext(s: seq<Byte>, b: Byte)
    ensures Encode(s + [b]) == Encode(s) + EncodeByte(b)
  {
    hide EncodeByte;
    EncodeAppend(s, [b]);
    assert [b][1..] == [] && EncodeByte(b) + "" == EncodeByte(b);
  }

  method HexEncode(data: array<Byte>, len: nat) returns (out: string)
    requires len <= data.Length
    ensures out == Encode(data[..len])
  {
    out := "";
    for i := 0 to len
      invariant out == Encode(data[..i])
    {
      assert data[..i + 1] == data[..i] + [data[i]];
      EncodeNext(data[..i], data[i]);
      out := out + [Digit(data[i] / 16 % 16)];
      out := out + [Digit(data[i] % 16)];
    }
  }

  /** Pairs of digits, decoded one after the other; anything else fails. */
  function Pairs(hex: string): (r: Option<seq<Byte>>)
    ensures r.Some? ==> |hex| == 2 * |r.value|
  {
    if hex == "" then Some([])
    else if |hex| == 1 || Nibble(hex[0]) < 0 || Nibble(hex[1]) < 0 then None
    else
      match Pairs(hex[2..])
      case None => None
      case Some(rest) => Some([16 * Nibble(hex[0]) + Nibble(hex[1])] + rest)
  }

  /** `decodeHexBytes`: the device's decoder, with the capacity of its buffer. */
  function Decode(hex: string, capacity: nat): Option<seq<Byte>> {
    if |hex| % 2 != 0 || |hex| / 2 > capacity then None else Pairs(hex)
  }

  lemma {:induction false} PairsSplit(hex: string, i: nat)
    requires 2 * i <= |hex|
    ensures Pairs(hex) == match Pairs(hex[..2 * i])
      case None => None
      case Some(a) => (match Pairs(hex[2 * i..]) case None => None case Some(b) => Some(a + b))
    decreases i
  {
    hide Nibble;
    if i == 0 {
      assert hex[..2 * i] == "" && hex[2 * i..] == hex;
      match Pairs(hex) {
        case None =>
        case Some(b) => assert [] + b == b;
      }
    } else {
      PairsSplit(hex[2..], i - 1);
      assert hex[..2 * i][2..] == hex[2..][..2 * (i - 1)];
      assert hex[2 * i..] == hex[2..][2 * (i - 1)..];
      match Pairs(hex[2..][..2 * (i - 1)]) {
        case None =>
        case Some(a) =>
          match Pairs(hex[2 * i..]) {
            case None =>
            case Some(b) =>
              var v := 16 * Nibble(hex[0]) + Nibble(hex[1]);
              if Nibble(hex[0]) >= 0 && Nibble(hex[1]) >= 0 {
                assert [v] + (a + b) == [v] + a + b;
              }
          }
      }
    }
  }

  lemma {:induction false} PairOf(high: char, low: char)
    ensures Pairs([high, low]) ==
      if Nibble(high) < 0 || Nibble(low) < 0 then None else Some([16 * Nibble(high) + Nibble(low)])
  {
    var v := 16 * Nibble(high) + Nibble(low);
    assert [high, low][2..] == "" && Pairs("") == Some([]) && [v] + [] == [v];
  }

  method DecodeHexBytes(hex: string, out: array<Byte>, maxLen: nat) returns (ok: bool, outLen: nat)
    requires maxLen <= out.Length
    modifies out
    ensures ok == Decode(hex, maxLen).Some?
    ensures ok ==> outLen <= maxLen && out[..outLen] == Decode(hex, maxLen).value
  {
    hide Nibble;
    ok, outLen := false, 0;
    if |hex| % 2 != 0 || |hex| / 2 > maxLen {
      return;
    }
    outLen := |hex| / 2;
    for i := 0 to outLen
      invariant Pairs(hex[..2 * i]) == Some(out[..i])
    {
      var high := Nibble(hex[2 * i]);
      var low := Nibble(hex[2 * i + 1]);
      PairsSplit(hex[..2 * (i + 1)], i);
      assert hex[..2 * (i + 1)][..2 * i] == hex[..2 * i];
      assert hex[..2 * (i + 1)][2 * i..] == [hex[2 * i], hex[2 * i + 1]];
      PairOf(hex[2 * i], hex[2 * i + 1]);
      if high < 0 || low < 0 {
        PairsSplit(hex, i + 1);
        return;
      }
      assert Pairs(hex[..2 * (i + 1)]) == Some(out[..i] + [16 * high + low]);
      out[i] := 16 * high + low;
      assert out[..i + 1] == out[..i] + [16 * high + low];
    }
    assert hex[..2 * outLen] == hex;
    ok := true;
  }

  /** A whole number of digit pairs, in either case. */
  predicate AllPairs(hex: string) {
    |hex| % 2 == 0 && forall i :: 0 <= i < |hex| ==> IsDigit(hex[i])
  }

  lemma {:induction false} AllPairsTail(hex: string)
    requires |hex| > 1
    ensures AllPairs(hex) <==> IsDigit(hex[0]) && IsDigit(hex[1]) && AllPairs(hex[2..])
  {
    hide IsDigit;
    var tail := hex[2..];
    assert forall i :: 0 <= i < |tail| ==> tail[i] == hex[i + 2];
    assert forall i :: 2 <= i < |hex| ==> hex[i] == tail[i - 2];
  }

  /** Exactly the texts of digit pairs are decoded. */
  lemma {:induction false} PairsIff(hex: string)
    ensures Pairs(hex).Some? <==> AllPairs(hex)
  {
    hide Nibble, AllPairs;
    if |hex| > 1 {
      NibbleValues(hex[0], 0);
      NibbleValues(hex[1], 0);
      PairsIff(hex[2..]);
      AllPairsTail(hex);
    } else {
      ShortPairs(hex);
    }
  }

  lemma {:induction false} ShortPairs(hex: string)
    requires |hex| <= 1
    ensures AllPairs(hex) <==> hex == ""
  {}

  /** Each pair is decoded to its byte. */
  lemma {:induction false} PairAt(hex: string, i: nat)
    requires Pairs(hex).Some? && i < |Pairs(hex).value|
    ensures Pairs(hex).value[i] == 16 * Nibble(hex[2 * i]) + Nibble(hex[2 * i + 1])
  {
    hide Nibble;
    if i > 0 {
      PairAt(hex[2..], i - 1);
      assert hex[2..][2 * (i - 1)] == hex[2 * i] && hex[2..][2 * (i - 1) + 1] == hex[2 * i + 1];
    }
  }

  lemma {:induction false} ByteReads(b: Byte)
    ensures var s := EncodeByte(b);
      Nibble(s[0]) >= 0 && Nibble(s[1]) >= 0 && 16 * Nibble(s[0]) + Nibble(s[1]) == b && !Space(s[0])
  {}

  lemma {:induction false} PairsOfEncode(bytes: seq<Byte>)
    ensures Pairs(Encode(bytes)) == Some(bytes)
  {
    hide EncodeByte, Nibble;
    if bytes != [] {
      PairsOfEncode(bytes[1..]);
      ByteReads(bytes[0]);
      assert Encode(bytes)[2..] == Encode(bytes[1..]);
      assert [bytes[0]] + bytes[1..] == bytes;
    }
  }

  /** The device recovers exactly the bytes the controller sent, when they fit its buffer. */
  lemma {:induction false} DecodeOfEncode(bytes: seq<Byte>, capacity: nat)
    ensures Decode(Encode(bytes), capacity) == if |bytes| <= capacity then Some(bytes) else None
  {
    PairsOfEncode(bytes);
  }

  predicate Space(c: char) {
    c == ' ' || 9 as char <= c <= 13 as char
  }

  /** Python's `bytes.fromhex`: pairs of digits of either case, spaces allowed between pairs. */
  function FromHex(s: string): Option<seq<Byte>> {
    if s == "" then Some([])
    else if Space(s[0]) then FromHex(s[1..])
    else if |s| == 1 || Nibble(s[0]) < 0 || Nibble(s[1]) < 0 then None
    else
      match FromHex(s[2..])
      case None => None
      case Some(rest) => Some([16 * Nibble(s[0]) + Nibble(s[1])] + rest)
  }

  lemma {:induction false} TextAppend(x: string, n: nat, y: string)
    requires n <= |x|
    ensures (x + y)[n..] == x[n..] + y
    ensures forall i :: 0 <= i < n ==> (x + y)[i] == x[i]
  {}

  /** A space between two whole texts changes nothing. */
  lemma {:induction false} FromHexSkipsSpace(a: string, c: char, b: string)
    requires FromHex(a).Some? && Space(c)
    ensures FromHex(a + ([c] + b)) == FromHex(a + b)
    decreases |a|
  {
    hide Space, Nibble;
    if a == "" {
      assert a + ([c] + b) == [c] + b && ([c] + b)[1..] == b && a + b == b;
    } else {
      var n := if Space(a[0]) then 1 else 2;
      TextAppend(a, n, [c] + b);
      TextAppend(a, n, b);
      FromHexSkipsSpace(a[n..], c, b);
    }
  }

  predicate AllCanonical(s: string) {
    forall i :: 0 <= i < |s| ==> Canonical(s[i])
  }

  lemma {:induction false} EncodeIsCanonical(bytes: seq<Byte>)
    ensures AllCanonical(Encode(bytes))
  {
    if bytes != [] {
      EncodeIsCanonical(bytes[1..]);
    }
  }

  lemma {:induction false} FromHexLength(s: string)
    requires FromHex(s).Some?
    ensures 2 * |FromHex(s).value| <= |s|
    decreases |s|
  {
    if s == "" {
    } else if Space(s[0]) {
      FromHexLength(s[1..]);
    } else {
      FromHexLength(s[2..]);
    }
  }

  lemma {:induction false} CanonicalPair(high: char, low: char)
    requires Canonical(high) && Canonical(low)
    ensures EncodeByte(16 * Nibble(high) + Nibble(low)) == [high, low]
  {
    var b := 16 * Nibble(high) + Nibble(low);
    assert b / 16 == Nibble(high) && b % 16 == Nibble(low);
    DigitOfNibble(high);
    DigitOfNibble(low);
  }

  lemma {:induction false} CanonicalUnpacks(s: string)
    requires FromHex(s).Some? && AllCanonical(s)
    ensures Encode(FromHex(s).value) == s
    decreases |s|
  {
    if s != "" {
      assert Canonical(s[0]) && !Space(s[0]);
      assert AllCanonical(s[2..]) by {
        forall i | 0 <= i < |s[2..]|
          ensures Canonical(s[2..][i])
        {
          assert s[2..][i] == s[i + 2];
        }
      }
      CanonicalUnpacks(s[2..]);
      assert Canonical(s[1]);
      CanonicalPair(s[0], s[1]);
      var bytes := FromHex(s).value;
      assert bytes[0] == 16 * Nibble(s[0]) + Nibble(s[1]) && bytes[1..] == FromHex(s[2..]).value;
      assert s == [s[0], s[1]] + s[2..];
    }
  }

  /** Packing a hex string into bytes loses nothing exactly when it is written in lower
      case without spaces: only then does printing the bytes give it back. */
  lemma {:induction false} PackingIsExact(s: string)
    requires FromHex(s).Some?
    ensures Encode(FromHex(s).value) == s <==> AllCanonical(s)
  {
    EncodeIsCanonical(FromHex(s).value);
    if AllCanonical(s) {
      CanonicalUnpacks(s);
    }
  }

  lemma {:induction false} FromHexOfEncode(bytes: seq<Byte>)
    ensures FromHex(Encode(bytes)) == Some(bytes)
  {
    hide EncodeByte, Nibble, Space;
    if bytes != [] {
      FromHexOfEncode(bytes[1..]);
      ByteReads(bytes[0]);
      assert Encode(bytes)[2..] == Encode(bytes[1..]);
      assert [bytes[0]] + bytes[1..] == bytes;
    }
  }

  // ---------------------------------------------------------------------------------
  // Eight-digit checksums
  // ---------------------------------------------------------------------------------

  /** `count` hexadecimal digits of `n`, most significant first. */
  function Fixed(n: nat, count: nat): (s: string)
    ensures |s| == count
    ensures AllCanonical(s)
    decreases count, n
  {
    if count == 0 then "" else Fixed(n / 16, count - 1) + [Digit(n % 16)]
  }

  /** `%08x` */
  function Checksum(w: Word): (s: string)
    ensures |s| == 8
    ensures AllCanonical(s)
  {
    Fixed(w, 8)
  }

  /** `parseHex32` from a state: the first run of eight digits in the text, else 0. */
  function Scan(s: string, out: Word, digits: nat): Word
    requires digits < 8
    decreases s
  {
    if s == "" then 0
    else if Nibble(s[0]) < 0 then Scan(s[1..], 0, 0)
    else
      var next := (16 * out) % MODULUS + Nibble(s[0]);
      if digits == 7 then next else Scan(s[1..], next, digits + 1)
  }

  function Parse(s: string): Word {
    Scan(s, 0, 0)
  }

  method ParseHex32(value: string) returns (out: Word)
    ensures out == Parse(value)
  {
    out := 0;
    var digits := 0;
    for i := 0 to |value|
      invariant digits < 8
      invariant Scan(value[i..], out, digits) == Parse(value)
    {
      var nibble := Nibble(value[i]);
      if nibble >= 0 {
        out := (16 * out) % MODULUS + nibble;
        digits := digits + 1;
        if digits == 8 {
          return;
        }
      } else {
        out, digits := 0, 0;
      }
    }
    out := 0;
  }

  function Pow16(k: nat): nat {
    if k == 0 then 1 else 16 * Pow16(k - 1)
  }

  lemma {:induction false} Pow16Grows(a: nat, b: nat)
    requires a <= b
    ensures Pow16(a) <= Pow16(b)
    decreases b
  {
    if a < b {
      Pow16Grows(a, b - 1);
    }
  }

  /** `out` with the `count` low hexadecimal digits of `n` written after it. */
  function Extend(out: nat, n: nat, count: nat): nat
    decreases count
  {
    if count == 0 then out else 16 * Extend(out, n / 16, count - 1) + n % 16
  }

  lemma {:induction false} ExtendBound(out: nat, digits: nat, n: nat, count: nat)
    requires out < Pow16(digits)
    ensures Extend(out, n, count) < Pow16(digits + count)
    decreases count
  {
    if count > 0 {
      ExtendBound(out, digits, n / 16, count - 1);
      assert digits + (count - 1) == digits + count - 1;
    }
  }

  lemma {:induction false} ExtendIsSmall(out: nat, digits: nat, n: nat, count: nat)
    requires out < Pow16(digits) && digits + count < 8
    ensures Extend(out, n, count) < 0x1000_0000
  {
    ExtendBound(out, digits, n, count);
    Pow16Grows(digits + count, 7);
    assert Pow16(7) == 0x1000_0000;
  }

  lemma {:induction false} ExtendZero(n: nat, count: nat)
    requires n < Pow16(count)
    ensures Extend(0, n, count) == n
    decreases count
  {
    if count > 0 {
      ExtendZero(n / 16, count - 1);
    }
  }

  lemma {:induction false} ScanDigit(d: nat, rest: string, out: Word, digits: nat)
    requires d < 16 && out < 0x1000_0000 && digits < 8
    ensures Scan([Digit(d)] + rest, out, digits) ==
      if digits == 7 then 16 * out + d else Scan(rest, 16 * out + d, digits + 1)
  {
    hide Digit;
    var s := [Digit(d)] + rest;
    assert s[0] == Digit(d) && s[1..] == rest;
    assert (16 * out) % MODULUS == 16 * out;
  }

  lemma {:induction false} ScanFixed(n: nat, count: nat, rest: string, out: Word, digits: nat)
    requires count + digits < 8 && out < Pow16(digits)
    ensures Extend(out, n, count) < 0x1000_0000
    ensures Scan(Fixed(n, count) + rest, out, digits) == Scan(rest, Extend(out, n, count), digits + count)
    decreases count
  {
    ExtendIsSmall(out, digits, n, count);
    if count == 0 {
      assert Fixed(n, count) + rest == rest;
    } else {
      hide Scan, Digit, Pow16;
      var last := [Digit(n % 16)] + rest;
      assert Fixed(n, count) + rest == Fixed(n / 16, count - 1) + last;
      ScanFixed(n / 16, count - 1, last, out, digits);
      ScanDigit(n % 16, rest, Extend(out, n / 16, count - 1), digits + count - 1);
    }
  }

  /** The device reads back the checksum the controller printed. */
  lemma {:induction false} ParseOfChecksum(w: Word)
    ensures Parse(Checksum(w)) == w
  {
    var high := w / 16;
    assert high < Pow16(7) && Pow16(0) == 1 by {
      assert Pow16(7) == 0x1000_0000;
    }
    assert Checksum(w) == Fixed(high, 7) + [Digit(w % 16)];
    hide *;
    ScanFixed(high, 7, [Digit(w % 16)], 0, 0);
    ExtendZero(high, 7);
    ScanDigit(w % 16, "", high, 7);
    assert [Digit(w % 16)] + "" == [Digit(w % 16)];
    ParseIsScan(Checksum(w));
  }

  lemma {:induction false} ParseIsScan(s: string)
    ensures Parse(s) == Scan(s, 0, 0)
  {}

  // ---------------------------------------------------------------------------------
  // Checksums anywhere in a text
  // ---------------------------------------------------------------------------------

  /** The number some digits stand for. */
  function Number(digits: string): nat
    requires forall i :: 0 <= i < |digits| ==> IsDigit(digits[i])
  {
    if digits == "" then 0
    else
      var last := digits[|digits| - 1];
      NibbleValues(last, 0);
      16 * Number(digits[..|digits| - 1]) + Nibble(last)
  }

  predicate EightAt(s: string, k: nat) {
    k + 8 <= |s| && forall i :: k <= i < k + 8 ==> IsDigit(s[i])
  }

  /** `w` is what the first eight digits in a row stand for, or 0 where there are none. */
  ghost predicate IsFirstEight(s: string, w: nat) {
    || (w == 0 && forall k: nat :: !EightAt(s, k))
    || exists k: nat :: EightAt(s, k) && w == Number(s[k..k + 8]) && forall j: nat :: j < k ==> !EightAt(s, j)
  }

  lemma {:induction false} NumberBound(digits: string)
    requires forall i :: 0 <= i < |digits| ==> IsDigit(digits[i])
    ensures Number(digits) < Pow16(|digits|)
  {
    hide Nibble, IsDigit;
    if digits != "" {
      NumberBound(digits[..|digits| - 1]);
    }
  }

  lemma {:induction false} NumberNext(digits: string, c: char)
    requires IsDigit(c) && forall i :: 0 <= i < |digits| ==> IsDigit(digits[i])
    ensures Nibble(c) >= 0
    ensures forall i :: 0 <= i < |digits + [c]| ==> IsDigit((digits + [c])[i])
    ensures Number(digits + [c]) == 16 * Number(digits) + Nibble(c)
    ensures |digits| < 8 ==> Number(digits + [c]) < MODULUS
    ensures |digits| < 7 ==> 16 * Number(digits + [c]) < MODULUS
  {
    hide Nibble, IsDigit;
    NibbleValues(c, 0);
    assert (digits + [c])[..|digits|] == digits;
    NumberBound(digits + [c]);
    assert Pow16(8) == MODULUS && Pow16(7) == 0x1000_0000;
    if |digits| < 8 {
      Pow16Grows(|digits| + 1, 8);
    }
    if |digits| < 7 {
      Pow16Grows(|digits| + 1, 7);
    }
  }

  /** A character that is no digit ends every run before it. */
  lemma {:induction false} RunsAfter(before: string, c: char, rest: string, w: nat)
    requires |before| < 8 && !IsDigit(c) && IsFirstEight(rest, w)
    ensures IsFirstEight(before + [c] + rest, w)
  {
    hide IsDigit, Number;
    var all, n := before + [c] + rest, |before| + 1;
    assert all[n - 1] == c && all[n..] == rest;
    forall k: nat | EightAt(all, k)
      ensures k >= n && EightAt(rest, k - n)
    {
      assert k < n ==> k <= n - 1 < k + 8;
      assert forall i :: 0 <= i < |rest| ==> rest[i] == all[i + n];
    }
    if k: nat :| EightAt(rest, k) && w == Number(rest[k..k + 8]) && forall j: nat :: j < k ==> !EightAt(rest, j) {
      assert forall i :: 0 <= i < |rest| ==> rest[i] == all[i + n];
      assert all[k + n..k + n + 8] == rest[k..k + 8];
      assert EightAt(all, k + n) by {
        forall i | k + n <= i < k + n + 8
          ensures IsDigit(all[i])
        {
          assert IsDigit(rest[i - n]);
        }
      }
      forall j: nat | j < k + n
        ensures !EightAt(all, j)
      {
        assert j >= n ==> !EightAt(rest, j - n);
      }
    }
  }

  lemma {:induction false} EightFirst(run: string, rest: string)
    requires |run| == 8 && forall i :: 0 <= i < |run| ==> IsDigit(run[i])
    ensures IsFirstEight(run + rest, Number(run))
  {
    hide IsDigit, Number;
    var all := run + rest;
    assert all[0..8] == run && EightAt(all, 0);
  }

  lemma {:induction false} TooFew(run: string)
    requires |run| < 8
    ensures IsFirstEight(run, 0)
  {}

  lemma {:induction false} ScanFindsEight(run: string, s: string)
    requires |run| < 8 && forall i :: 0 <= i < |run| ==> IsDigit(run[i])
    requires Number(run) < MODULUS && (|run| > 0 ==> 16 * Number(run) < MODULUS)
    ensures IsFirstEight(run + s, Scan(s, Number(run), |run|))
    decreases s
  {
    hide Nibble, IsDigit, IsFirstEight, Number;
    if s == "" {
      assert run + s == run;
      TooFew(run);
    } else {
      var c, rest := s[0], s[1..];
      NibbleValues(c, 0);
      NumberOfNothing();
      assert s == [c] + rest;
      if Nibble(c) < 0 {
        assert run + s == run + [c] + rest && "" + rest == rest;
        ScanFindsEight("", rest);
        RunsAfter(run, c, rest, Scan(rest, 0, 0));
      } else {
        var longer := run + [c];
        NumberNext(run, c);
        assert run + s == longer + rest;
        assert |run| == 0 ==> run == "";
        assert (16 * Number(run)) % MODULUS == 16 * Number(run);
        if |run| == 7 {
          EightFirst(longer, rest);
        } else {
          ScanFindsEight(longer, rest);
        }
      }
    }
  }

  lemma {:induction false} NumberOfNothing()
    ensures Number("") == 0
  {}

  /** On any text: the checksum read is the first eight digits in a row, of either case, and 0
      where there are none. */
  lemma {:induction false} ParseFindsEight(s: string)
    ensures IsFirstEight(s, Parse(s))
  {
    hide IsFirstEight, Scan, Number;
    NumberOfNothing();
    assert "" + s == s;
    ScanFindsEight("", s);
  }
}
