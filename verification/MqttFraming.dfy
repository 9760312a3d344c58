/** MQTT packets on a byte stream: the remaining-length code (section 2.2.3 of MQTT Version
    3.1.1), two readers and two writers. */
module MqttFraming {
  import opened Bytes
  import opened Words

  // ---------------------------------------------------------------------------------
  // Remaining length
  // ---------------------------------------------------------------------------------

  function EncodeLength(n: nat): (bytes: seq<Byte>)
    ensures bytes != []
  {
    if n < 128 then [n] else [n % 128 + 128] + EncodeLength(n / 128)
  }

  lemma {:induction false} LengthDigits(n: nat)
    ensures n < 128 ==> EncodeLength(n) == [n]
    ensures n >= 128 ==> EncodeLength(n) == [n % 128 + 128] + EncodeLength(n / 128) && (n % 128 + 128) % 128 == n % 128
  {}

  /** `enclen` */
  method EncLen(length: nat) returns (out: seq<Byte>)
    ensures out == EncodeLength(length)
  {
    hide EncodeLength;
    out := [];
    var rest := length;
    while true
      invariant out + EncodeLength(rest) == EncodeLength(length)
      decreases rest
    {
      LengthDigits(rest);
      ghost var last, tail := out, EncodeLength(rest / 128);
      var digit: Byte := rest % 128;
      rest := rest / 128;
      if rest > 0 {
        digit := digit + 128;
        assert last + ([digit] + tail) == (last + [digit]) + tail;
      }
      out := out + [digit];
      if rest == 0 {
        return;
      }
    }
  }

  /** What `recv_packet` reads: the length and what follows it, unless the bytes run out. */
  function ReadLength(s: seq<Byte>, multiplier: nat, remaining: nat): (r: Option<(nat, seq<Byte>)>)
    ensures r.Some? ==> |r.value.1| < |s|
  {
    if s == [] then None
    else
      var sum := remaining + s[0] % 128 * multiplier;
      if s[0] < 128 then Some((sum, s[1..])) else ReadLength(s[1..], multiplier * 128, sum)
  }

  /** What `readPacket` reads, in 32-bit arithmetic. */
  function ReadLength32(s: seq<Byte>, multiplier: Word, remaining: Word): (r: Option<(Word, seq<Byte>)>)
    ensures r.Some? ==> |r.value.1| < |s|
  {
    if s == [] then None
    else
      var sum: Word := (remaining + s[0] % 128 * multiplier) % MODULUS;
      if s[0] < 128 then Some((sum, s[1..])) else ReadLength32(s[1..], multiplier * 128 % MODULUS, sum)
  }

  lemma {:induction false} ModSum(a: int, b: int, k: nat)
    ensures (a % MODULUS + k * (b % MODULUS)) % MODULUS == (a + k * b) % MODULUS
  {
    var p, q := a / MODULUS, b / MODULUS;
    var x := a % MODULUS + k * (b % MODULUS);
    assert a + k * b == x + (p + k * q) * MODULUS by {
      assert k * b == k * (q * MODULUS) + k * (b % MODULUS);
      assert k * (q * MODULUS) == (k * q) * MODULUS;
    }
    ModPlus(x, p + k * q);
  }

  lemma {:induction false} ModPlus(x: int, t: int)
    ensures (x + t * MODULUS) % MODULUS == x % MODULUS
  {
    var y := x + t * MODULUS;
    var d := y / MODULUS - t - x / MODULUS;
    assert y % MODULUS - x % MODULUS == -d * MODULUS;
  }

  /** On every input the 32-bit reader stops where the unbounded one does, with its result
      modulo 2^32, although its multiplier may wrap to zero. */
  lemma {:induction false} WrappedReaderAgrees(s: seq<Byte>, multiplier: nat, remaining: nat)
    ensures var r := ReadLength(s, multiplier, remaining);
      ReadLength32(s, multiplier % MODULUS, remaining % MODULUS)
      == match r case None => None case Some(p) => Some((p.0 % MODULUS, p.1))
    decreases |s|
  {
    if s != [] {
      ModSum(remaining, multiplier, s[0] % 128);
      ModSum(0, multiplier, 128);
      WrappedReaderAgrees(s[1..], multiplier * 128, remaining + s[0] % 128 * multiplier);
    }
  }

  lemma {:induction false} ReadLengthShifts(n: nat, rest: seq<Byte>, multiplier: nat, remaining: nat)
    ensures ReadLength(EncodeLength(n) + rest, multiplier, remaining) == Some((remaining + n * multiplier, rest))
    decreases n
  {
    hide EncodeLength;
    var s := EncodeLength(n) + rest;
    LengthDigits(n);
    if n < 128 {
      assert s[0] == n && s[1..] == rest;
      assert ReadLength(s, multiplier, remaining) == Some((remaining + n * multiplier, rest));
    } else {
      assert s[0] == n % 128 + 128 && s[1..] == EncodeLength(n / 128) + rest;
      ReadLengthShifts(n / 128, rest, multiplier * 128, remaining + n % 128 * multiplier);
      SplitDigit(n, multiplier);
    }
  }

  lemma {:induction false} SplitDigit(n: nat, m: nat)
    ensures n % 128 * m + n / 128 * (m * 128) == n * m
  {
    var q, r := n / 128, n % 128;
    assert n == 128 * q + r;
    assert q * (m * 128) == (128 * q) * m;
    assert (128 * q + r) * m == (128 * q) * m + r * m;
  }

  /** Both readers undo the encoding, whatever follows: the controller's for every length,
      the device's for every 32-bit length. */
  lemma {:induction false} LengthRoundTrip(n: nat, rest: seq<Byte>)
    ensures ReadLength(EncodeLength(n) + rest, 1, 0) == Some((n, rest))
    ensures n < MODULUS ==> ReadLength32(EncodeLength(n) + rest, 1, 0) == Some((n, rest))
  {
    ReadLengthShifts(n, rest, 1, 0);
    WrappedReaderAgrees(EncodeLength(n) + rest, 1, 0);
  }

  /** No encoding is a prefix of another. */
  lemma {:induction false} LengthIsPrefixFree(m: nat, n: nat, a: seq<Byte>, b: seq<Byte>)
    requires EncodeLength(m) + a == EncodeLength(n) + b
    ensures m == n && a == b
  {
    LengthRoundTrip(m, a);
    LengthRoundTrip(n, b);
  }

  /** Nothing shorter is read as the same length. */
  lemma {:induction false} LengthIsMinimal(s: seq<Byte>, n: nat)
    requires ReadLength(s, 1, 0) == Some((n, []))
    ensures |EncodeLength(n)| <= |s|
  {
    var m := MinimalFrom(s, 1, 0);
    assert n == m;
  }

  /** What a sequence of digits stands for, and how many digits that needs. */
  lemma {:induction false} MinimalFrom(s: seq<Byte>, multiplier: nat, remaining: nat) returns (n: nat)
    requires ReadLength(s, multiplier, remaining).Some? && ReadLength(s, multiplier, remaining).value.1 == []
    ensures ReadLength(s, multiplier, remaining).value.0 == remaining + n * multiplier
    ensures |EncodeLength(n)| <= |s|
    decreases |s|
  {
    var digit := s[0] % 128;
    if s[0] < 128 {
      n := digit;
    } else {
      var high := MinimalFrom(s[1..], multiplier * 128, remaining + digit * multiplier);
      n := digit + 128 * high;
      SplitDigit(n, multiplier);
      assert n / 128 == high && n % 128 == digit;
    }
  }

  /** The table of section 2.2.3: the sizes for which 1, 2, 3 and 4 bytes are used. */
  lemma {:induction false} LengthSizes(n: nat)
    ensures |EncodeLength(n)| == 1 <==> n <= 127
    ensures |EncodeLength(n)| == 2 <==> 128 <= n <= 16383
    ensures |EncodeLength(n)| == 3 <==> 16384 <= n <= 2097151
    ensures |EncodeLength(n)| == 4 <==> 2097152 <= n <= 268435455
  {
    var a, b, c := n / 128, n / 128 / 128, n / 128 / 128 / 128;
    assert n >= 128 ==> |EncodeLength(n)| == 1 + |EncodeLength(a)|;
    assert a >= 128 ==> |EncodeLength(a)| == 1 + |EncodeLength(b)|;
    assert b >= 128 ==> |EncodeLength(b)| == 1 + |EncodeLength(c)|;
  }
}
