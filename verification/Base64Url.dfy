/** Unpadded base64url (section 5 of RFC 4648): the controller's encoder by blocks of three
    bytes, the device's decoder one character at a time through a 32-bit accumulator. */
module Base64Url {
  import opened Bytes
  import opened Words

  function Symbol(v: nat): (c: char)
    requires v < 64
    ensures Value(c) == v
  {
    if v < 26 then ('A' as int + v) as char
    else if v < 52 then ('a' as int + v - 26) as char
    else if v < 62 then ('0' as int + v - 52) as char
    else if v == 62 then '-' else '_'
  }

  /** `base64UrlValue` */
  function Value(c: char): (v: int)
    ensures -1 <= v < 64
  {
    if 'A' <= c <= 'Z' then c as int - 'A' as int
    else if 'a' <= c <= 'z' then c as int - 'a' as int + 26
    else if '0' <= c <= '9' then c as int - '0' as int + 52
    else if c == '-' then 62
    else if c == '_' then 63
    else -1
  }

  /** `urlsafe_b64encode(bytes).rstrip("=")` */
  function Encode(bytes: seq<Byte>): string {
    if bytes == [] then ""
    else if |bytes| == 1 then
      [Symbol(bytes[0] / 4), Symbol(bytes[0] % 4 * 16)]
    else if |bytes| == 2 then
      [Symbol(bytes[0] / 4), Symbol(bytes[0] % 4 * 16 + bytes[1] / 16), Symbol(bytes[1] % 16 * 4)]
    else
      Block(bytes[0], bytes[1], bytes[2]) + Encode(bytes[3..])
  }

  function Block(a: Byte, b: Byte, c: Byte): string {
    [Symbol(a / 4), Symbol(a % 4 * 16 + b / 16), Symbol(b % 16 * 4 + c / 64), Symbol(c % 64)]
  }

  /** 2 to the power `bits`, for the numbers of bits that can be pending. */
  function Unit(bits: nat): (u: nat)
    ensures u > 0
  {
    if bits == 0 then 1 else if bits == 2 then 4 else if bits == 4 then 16 else 64
  }

  predicate Pending(pending: nat, bits: nat) {
    (bits == 0 || bits == 2 || bits == 4 || bits == 6) && pending < Unit(bits)
  }

  /** A number split at bit `bits`. */
  function High(n: nat, bits: nat): nat {
    n / Unit(bits)
  }

  function Low(n: nat, bits: nat): nat {
    n % Unit(bits)
  }

  /** What the text means: each character adds six bits to the `bits` bits pending, and
      eight of them make a byte. Bits left over at the end are ignored. */
  function Decode(s: string, pending: nat, bits: nat): Option<seq<Byte>>
    requires Pending(pending, bits)
    decreases s
  {
    if s == "" then Some([])
    else
      var v := Value(s[0]);
      if v < 0 then None
      else if bits == 0 then Decode(s[1..], v, 6)
      else
        var all := pending * 64 + v;
        Before([High(all, bits - 2)], Decode(s[1..], Low(all, bits - 2), bits - 2))
  }

  /** `r`, with `bytes` in front of it when it is there. */
  function Before(bytes: seq<Byte>, r: Option<seq<Byte>>): Option<seq<Byte>> {
    match r
    case None => None
    case Some(tail) => Some(bytes + tail)
  }

  lemma {:induction false} BeforeBefore(a: seq<Byte>, b: seq<Byte>, r: Option<seq<Byte>>)
    ensures Before(a, Before(b, r)) == Before(a + b, r)
  {
    match r {
      case None =>
      case Some(tail) => assert a + (b + tail) == a + b + tail;
    }
  }

  lemma {:induction false} BeforeNothing(r: Option<seq<Byte>>)
    ensures Before([], r) == r
  {
    match r {
      case None =>
      case Some(tail) => assert [] + tail == tail;
    }
  }

  lemma {:induction false} SecondSymbol(a: Byte, b: Byte, s: string)
    ensures Decode([Symbol(a % 4 * 16 + b / 16)] + s, a / 4, 6) == Before([a], Decode(s, b / 16, 4))
  {
    var v := a % 4 * 16 + b / 16;
    assert ([Symbol(v)] + s)[1..] == s;
    assert (a / 4 * 64 + v) / 16 == a && (a / 4 * 64 + v) % 16 == b / 16;
  }

  lemma {:induction false} ThirdSymbol(b: Byte, c: Byte, s: string)
    ensures Decode([Symbol(b % 16 * 4 + c / 64)] + s, b / 16, 4) == Before([b], Decode(s, c / 64, 2))
  {
    var v := b % 16 * 4 + c / 64;
    assert ([Symbol(v)] + s)[1..] == s;
    assert (b / 16 * 64 + v) / 4 == b && (b / 16 * 64 + v) % 4 == c / 64;
  }

  lemma {:induction false} FourthSymbol(c: Byte, s: string)
    ensures Decode([Symbol(c % 64)] + s, c / 64, 2) == Before([c], Decode(s, 0, 0))
  {
    assert ([Symbol(c % 64)] + s)[1..] == s;
    assert c / 64 * 64 + c % 64 == c;
  }

  lemma {:induction false} FirstSymbol(a: Byte, s: string)
    ensures Decode([Symbol(a / 4)] + s, 0, 0) == Decode(s, a / 4, 6)
  {
    assert ([Symbol(a / 4)] + s)[1..] == s;
  }

  lemma {:induction false} DecodeThree(a: Byte, b: Byte, c: Byte, s: string)
    ensures Decode(Block(a, b, c) + s, 0, 0) == Before([a, b, c], Decode(s, 0, 0))
  {
    var s3 := [Symbol(c % 64)] + s;
    var s2 := [Symbol(b % 16 * 4 + c / 64)] + s3;
    var s1 := [Symbol(a % 4 * 16 + b / 16)] + s2;
    assert Block(a, b, c) + s == [Symbol(a / 4)] + s1;
    FirstSymbol(a, s1);
    SecondSymbol(a, b, s2);
    ThirdSymbol(b, c, s3);
    FourthSymbol(c, s);
    var r := Decode(s, 0, 0);
    BeforeBefore([b], [c], r);
    BeforeBefore([a], [b] + [c], r);
    assert [a] + ([b] + [c]) == [a, b, c];
  }

  lemma {:induction false} DecodeTwo(a: Byte, b: Byte)
    ensures Decode(Encode([a, b]), 0, 0) == Some([a, b])
  {
    var s2 := [Symbol(b % 16 * 4 + 0 / 64)] + "";
    var s1 := [Symbol(a % 4 * 16 + b / 16)] + s2;
    assert Encode([a, b]) == [Symbol(a / 4)] + s1;
    FirstSymbol(a, s1);
    SecondSymbol(a, b, s2);
    ThirdSymbol(b, 0, "");
    assert [a] + ([b] + []) == [a, b];
  }

  lemma {:induction false} DecodeOne(a: Byte)
    ensures Decode(Encode([a]), 0, 0) == Some([a])
  {
    var s1 := [Symbol(a % 4 * 16 + 0 / 16)] + "";
    assert Encode([a]) == [Symbol(a / 4)] + s1;
    FirstSymbol(a, s1);
    SecondSymbol(a, 0, "");
    assert [a] + [] == [a];
  }

  /** Decoding inverts encoding for every byte string. */
  lemma {:induction false} DecodeOfEncode(bytes: seq<Byte>)
    ensures Decode(Encode(bytes), 0, 0) == Some(bytes)
  {
    if bytes == [] {
    } else if |bytes| == 1 {
      assert bytes == [bytes[0]];
      DecodeOne(bytes[0]);
    } else if |bytes| == 2 {
      assert bytes == [bytes[0], bytes[1]];
      DecodeTwo(bytes[0], bytes[1]);
    } else {
      DecodeOfEncode(bytes[3..]);
      DecodeThree(bytes[0], bytes[1], bytes[2], Encode(bytes[3..]));
      assert bytes == [bytes[0], bytes[1], bytes[2]] + bytes[3..];
    }
  }

  /** `n` characters decode to three quarters as many bytes, rounded down. */
  lemma {:induction false} DecodeLength(s: string, pending: nat, bits: nat)
    requires Pending(pending, bits)
    ensures Decode(s, pending, bits).Some? ==> |Decode(s, pending, bits).value| == (6 * |s| + bits) / 8
    decreases s
  {
    if s != "" {
      var v := Value(s[0]);
      if v >= 0 {
        if bits == 0 {
          DecodeLength(s[1..], v, 6);
        } else {
          DecodeLength(s[1..], Low(pending * 64 + v, bits - 2), bits - 2);
        }
      }
    }
  }

  /** Shifting a character into the wrapping accumulator does to its low bits what the
      unbounded one would have. */
  lemma {:induction false} AccumulatorWraps(buffer: Word, v: nat, bits: nat)
    requires v < 64 && (bits == 0 || bits == 2 || bits == 4 || bits == 6)
    ensures var next := (buffer * 64) % MODULUS + v;
      next % (64 * Unit(bits)) == buffer % Unit(bits) * 64 + v
  {
    var next, wraps := (buffer * 64) % MODULUS + v, buffer * 64 / MODULUS;
    var low, high := buffer % Unit(bits), buffer / Unit(bits);
    if bits == 0 {
      Residue(high - wraps * 0x400_0000, 64, v);
    } else if bits == 2 {
      Residue(high - wraps * 0x100_0000, 256, low * 64 + v);
    } else if bits == 4 {
      Residue(high - wraps * 0x40_0000, 1024, low * 64 + v);
    } else {
      Residue(high - wraps * 0x10_0000, 4096, low * 64 + v);
    }
  }

  lemma {:induction false} Residue(q: int, d: nat, r: nat)
    requires r < d
    ensures (q * d + r) % d == r
  {
    var n := q * d + r;
    var p, m := n / d, n % d;
    assert n == p * d + m && m < d;
    assert (p - q) * d == p * d - q * d;
    SmallMultiple(p - q, d);
  }

  lemma {:induction false} SmallMultiple(k: int, d: nat)
    ensures k >= 1 ==> k * d >= d
    ensures k <= -1 ==> k * d <= 0 - d
  {
    assert k * d == d + (k - 1) * d && k * d == (k + 1) * d - d;
  }

  /** `decodeBase64Url`: succeeds exactly on text over the alphabet whose bytes fit. */
  method DecodeBase64Url(input: string, out: array<Byte>, maxLen: nat) returns (ok: bool, outLen: nat)
    requires maxLen <= out.Length
    modifies out
    ensures ok == (Decode(input, 0, 0).Some? && |Decode(input, 0, 0).value| <= maxLen)
    ensures ok ==> outLen <= maxLen && out[..outLen] == Decode(input, 0, 0).value
  {
    hide *;
    ok, outLen := false, 0;
    var buffer: Word, bits := 0, 0;
    StartsEmpty();
    BeforeNothing(Decode(input, 0, 0));
    assert input[0..] == input && out[..0] == [];
    for i := 0 to |input|
      invariant outLen <= maxLen && (bits == 0 || bits == 2 || bits == 4 || bits == 6)
      invariant Pending(Low(buffer, bits), bits)
      invariant Decode(input, 0, 0) == Before(out[..outLen], Decode(input[i..], Low(buffer, bits), bits))
    {
      var value := Value(input[i]);
      assert input[i..][0] == input[i] && input[i..][1..] == input[i + 1..];
      DecodeNext(input[i..], Low(buffer, bits), bits, out[..outLen], maxLen);
      if value < 0 {
        return;
      }
      ghost var all := Low(buffer, bits) * 64 + value;
      Absorbed(buffer, value, bits);
      buffer := (buffer * 64) % 0x1_0000_0000 + value;
      bits := bits + 6;
      if bits >= 8 {
        bits := bits - 8;
        if outLen >= maxLen {
          return;
        }
        var shift := if bits == 0 then 1 else if bits == 2 then 4 else 16;
        out[outLen] := buffer / shift % 256;
        outLen := outLen + 1;
        assert out[..outLen] == out[..outLen - 1] + [High(all, bits)];
      }
    }
    DecodeEnd(Low(buffer, bits), bits, out[..outLen]);
    assert input[|input|..] == "";
    ok := true;
  }

  lemma {:induction false} StartsEmpty()
    ensures Pending(0, 0) && Low(0, 0) == 0
  {}

  /** What one turn of the loop does to the accumulator. */
  lemma {:induction false} Absorbed(buffer: Word, v: nat, bits: nat)
    requires v < 64 && (bits == 0 || bits == 2 || bits == 4 || bits == 6)
    ensures var next := (buffer * 64) % 0x1_0000_0000 + v;
      var all := Low(buffer, bits) * 64 + v;
      next < 0x1_0000_0000 &&
      if bits == 0 then Low(next, 6) == v
      else
        var shift := if bits == 2 then 1 else if bits == 4 then 4 else 16;
        Low(next, bits - 2) == Low(all, bits - 2) && next / shift % 256 == High(all, bits - 2)
  {
    var next := (buffer * 64) % MODULUS + v;
    AccumulatorWraps(buffer, v, bits);
    if bits > 0 {
      Extract(next, bits - 2);
    }
  }

  lemma {:induction false} DecodeEnd(pending: nat, bits: nat, front: seq<Byte>)
    requires Pending(pending, bits)
    ensures Before(front, Decode("", pending, bits)) == Some(front)
  {
    assert front + [] == front;
  }

  /** What one more character does to the bytes decoded so far. */
  lemma {:induction false} DecodeNext(s: string, pending: nat, bits: nat, front: seq<Byte>, maxLen: nat)
    requires s != "" && Pending(pending, bits)
    ensures var v := Value(s[0]);
      var whole := Before(front, Decode(s, pending, bits));
      if v < 0 then whole == None
      else if bits == 0 then Pending(v, 6) && whole == Before(front, Decode(s[1..], v, 6))
      else
        var all := pending * 64 + v;
        && Pending(Low(all, bits - 2), bits - 2) && 0 <= High(all, bits - 2) < 256
        && whole == Before(front + [High(all, bits - 2)], Decode(s[1..], Low(all, bits - 2), bits - 2))
        && (|front| >= maxLen && whole.Some? ==> |whole.value| > maxLen)
  {
    var v := Value(s[0]);
    if v >= 0 && bits > 0 {
      var all := pending * 64 + v;
      BeforeBefore(front, [High(all, bits - 2)], Decode(s[1..], Low(all, bits - 2), bits - 2));
    }
  }

  lemma {:induction false} Extract(buffer: Word, bits: nat)
    requires bits == 0 || bits == 2 || bits == 4
    ensures buffer / Unit(bits) % 256 == buffer % (256 * Unit(bits)) / Unit(bits)
    ensures buffer % Unit(bits) == buffer % (256 * Unit(bits)) % Unit(bits)
  {
    var top, rest := buffer / (256 * Unit(bits)), buffer % (256 * Unit(bits));
    var b, low := rest / Unit(bits), rest % Unit(bits);
    assert b < 256;
    if bits == 0 {
    } else if bits == 2 {
      assert buffer == (top * 256 + b) * 4 + low;
      assert buffer / 4 == top * 256 + b;
    } else {
      assert buffer == (top * 256 + b) * 16 + low;
      assert buffer / 16 == top * 256 + b;
    }
  }

  /** The buffer `decodePayloadEnvelope` allocates is never too small. */
  lemma {:induction false} CapacitySuffices(input: string)
    ensures Decode(input, 0, 0).Some? ==> |Decode(input, 0, 0).value| <= |input| * 3 / 4 + 3
  {
    DecodeLength(input, 0, 0);
  }

  /** Exactly the texts of the alphabet are decoded. */
  lemma {:induction false} DecodesIff(s: string, pending: nat, bits: nat)
    requires Pending(pending, bits)
    ensures Decode(s, pending, bits).Some? <==> forall i :: 0 <= i < |s| ==> Value(s[i]) >= 0
    decreases s
  {
    hide Value;
    if s != "" && Value(s[0]) >= 0 {
      var v, rest := Value(s[0]), s[1..];
      if bits == 0 {
        DecodesIff(rest, v, 6);
      } else {
        DecodesIff(rest, Low(pending * 64 + v, bits - 2), bits - 2);
      }
      assert forall i :: 0 <= i < |rest| ==> rest[i] == s[i + 1];
      assert forall i :: 0 < i < |s| ==> s[i] == rest[i - 1];
    }
  }

  /** The examples of section 10 of RFC 4648, without their padding, and the last two symbols of
      the alphabet (section 5). */
  lemma {:induction false} Examples()
    ensures Encode([0x66]) == "Zg" && Encode([0x66, 0x6F]) == "Zm8" && Encode([0x66, 0x6F, 0x6F]) == "Zm9v"
    ensures Encode([0xFB, 0xFF]) == "-_8"
    ensures Value('+') < 0 && Value('/') < 0 && Value('=') < 0
  {
    assert [0x66, 0x6F, 0x6F][3..] == [] && Encode([]) == "";
    assert Encode([0x66, 0x6F, 0x6F]) == Block(0x66, 0x6F, 0x6F) + "";
  }
}
