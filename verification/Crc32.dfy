/** CRC-32 as the device computes it, checked against polynomial division over GF(2). */
module Crc32 {
  import opened Bytes
  import opened Words

  const POLYNOMIAL: Word := 0xEDB88320

  // ---------------------------------------------------------------------------------
  // The register, one message bit at a time
  // ---------------------------------------------------------------------------------

  /** One turn of the inner loop: shift down, and add the generator when a one falls out.
      The mask `0 - (crc & 1)` is all ones or all zeros. */
  function Shift(crc: Word): Word {
    Xor(crc / 2, And(POLYNOMIAL, Sub(0, crc % 2)))
  }

  function AbsorbBit(crc: Word, bit: bool): Word {
    Shift(Xor(crc, if bit then 1 else 0))
  }

  function Absorb(crc: Word, bits: seq<bool>): Word
    decreases bits
  {
    if bits == [] then crc else Absorb(AbsorbBit(crc, bits[0]), bits[1..])
  }

  /** A message is the bits of its bytes, least significant first. */
  function MessageBits(data: seq<Byte>): (bits: seq<bool>)
    ensures |bits| == 8 * |data|
  {
    if data == [] then [] else Bits(data[0], 8) + MessageBits(data[1..])
  }

  function Update(crc: Word, data: seq<Byte>): Word {
    Not(Absorb(Not(crc), MessageBits(data)))
  }

  /** The checksum the controller announces and the device recomputes. */
  function Crc(data: seq<Byte>): Word {
    Update(0, data)
  }

  lemma {:induction false} AbsorbAppend(crc: Word, a: seq<bool>, b: seq<bool>)
    ensures Absorb(crc, a + b) == Absorb(Absorb(crc, a), b)
    decreases a
  {
    if a == [] {
      assert a + b == b;
    } else {
      assert (a + b)[0] == a[0] && (a + b)[1..] == a[1..] + b;
      AbsorbAppend(AbsorbBit(crc, a[0]), a[1..], b);
    }
  }

  lemma {:induction false} MessageBitsAppend(a: seq<Byte>, b: seq<Byte>)
    ensures MessageBits(a + b) == MessageBits(a) + MessageBits(b)
  {
    if a == [] {
      assert a + b == b;
    } else {
      assert (a + b)[0] == a[0] && (a + b)[1..] == a[1..] + b;
      MessageBitsAppend(a[1..], b);
    }
  }

  /** Chunked updates compose: the running CRC of a transfer is the CRC of the whole. */
  lemma UpdateComposes(crc: Word, a: seq<Byte>, b: seq<Byte>)
    ensures Update(Update(crc, a), b) == Update(crc, a + b)
  {
    var first := Absorb(Not(crc), MessageBits(a));
    assert Not(Not(first)) == first;
    MessageBitsAppend(a, b);
    AbsorbAppend(Not(crc), MessageBits(a), MessageBits(b));
  }

  lemma UpdateNothing(crc: Word)
    ensures Update(crc, []) == crc
  {}

  // ---------------------------------------------------------------------------------
  // What the register operations do to single bits
  // ---------------------------------------------------------------------------------

  lemma ShiftBranches(crc: Word)
    ensures Bit(POLYNOMIAL, 31)
    ensures forall i :: 0 <= i < 32 ==>
      Bit(And(POLYNOMIAL, Sub(0, crc % 2)), i) == (crc % 2 == 1 && Bit(POLYNOMIAL, i))
  {
    AndBits(POLYNOMIAL, Sub(0, crc % 2));
    NotBits(0);
    WordSize();
    forall i | 0 <= i < 32
      ensures !Bit(0, i)
    {
      HighBits(0, 0, i);
    }
    assert Sub(0, 1) == Not(0) && Sub(0, 0) == 0;
    assert Bit(POLYNOMIAL, 31) by {
      TopBit(POLYNOMIAL);
    }
  }

  lemma TopBit(w: Word)
    ensures Bit(w, 31) <==> w >= 0x8000_0000
  {
    WordSize();
    if w < 0x8000_0000 {
      HighBits(w, 31, 31);
    } else {
      ComplementBit(w, 32, 31);
      HighBits(Not(w), 31, 31);
    }
  }

  lemma ShiftBits(crc: Word)
    ensures forall i :: 0 <= i < 32 ==>
      Bit(Shift(crc), i) == ((i < 31 && Bit(crc, i + 1)) != (crc % 2 == 1 && Bit(POLYNOMIAL, i)))
  {
    HalfBits(crc);
    ShiftBranches(crc);
    XorBits(crc / 2, And(POLYNOMIAL, Sub(0, crc % 2)));
  }

  lemma SmallBits(n: nat, i: nat)
    requires n < 2
    ensures Bit(n, i) == (i == 0 && n == 1)
  {
    if i > 0 {
      HighBits(n, 1, i);
    }
  }

  lemma AbsorbBitBits(crc: Word, bit: bool)
    ensures forall i :: 0 <= i < 32 ==>
      Bit(AbsorbBit(crc, bit), i) == ((i < 31 && Bit(crc, i + 1)) != ((Bit(crc, 0) != bit) && Bit(POLYNOMIAL, i)))
  {
    var b: Word := if bit then 1 else 0;
    XorBits(crc, b);
    forall i: nat | i < 32
      ensures Bit(b, i) == (i == 0 && bit)
    {
      SmallBits(b, i);
    }
    ShiftBits(Xor(crc, b));
    assert Bit(Xor(crc, b), 0) == (Xor(crc, b) % 2 == 1);
  }

  /** XORing a whole byte in and then shifting is the same as absorbing its low bit and
      leaving the others pending. */
  lemma ShiftLeavesPending(crc: Word, n: Byte)
    ensures Shift(Xor(crc, n)) == Xor(AbsorbBit(crc, n % 2 == 1), n / 2)
  {
    var left, right := Shift(Xor(crc, n)), Xor(AbsorbBit(crc, n % 2 == 1), n / 2);
    XorBits(crc, n);
    ShiftBits(Xor(crc, n));
    AbsorbBitBits(crc, n % 2 == 1);
    XorBits(AbsorbBit(crc, n % 2 == 1), n / 2);
    HalfBits(n);
    assert Bit(Xor(crc, n), 0) == (Xor(crc, n) % 2 == 1);
    WordsEqual(left, right);
  }

  lemma XorZero(crc: Word)
    ensures Xor(crc, 0) == crc
  {
    XorBits(crc, 0);
    forall i | 0 <= i < 32
      ensures Bit(Xor(crc, 0), i) == Bit(crc, i)
    {
      HighBits(0, 0, i);
    }
    WordsEqual(Xor(crc, 0), crc);
  }

  /** What one turn of the inner loop keeps: the register, seen without the bits still
      pending, has absorbed one more of them. */
  lemma InnerLoopTurn(register: Word, pending: Byte, count: nat)
    requires 0 < count && pending < Pow2(count)
    ensures pending / 2 < Pow2(count - 1)
    ensures Shift(Xor(register, pending)) == Xor(AbsorbBit(register, pending % 2 == 1), pending / 2)
    ensures Absorb(register, Bits(pending, count))
         == Absorb(AbsorbBit(register, pending % 2 == 1), Bits(pending / 2, count - 1))
  {
    ShiftLeavesPending(register, pending);
    assert Bits(pending, count)[0] == (pending % 2 == 1);
    assert Bits(pending, count)[1..] == Bits(pending / 2, count - 1);
  }

  lemma OuterLoopTurn(crc: Word, data: seq<Byte>)
    requires data != []
    ensures Absorb(crc, MessageBits(data)) == Absorb(Absorb(crc, Bits(data[0], 8)), MessageBits(data[1..]))
  {
    AbsorbAppend(crc, Bits(data[0], 8), MessageBits(data[1..]));
  }

  lemma {:induction false} LoopEnds(crc: Word, n: nat)
    ensures Absorb(crc, MessageBits([])) == crc && Absorb(crc, Bits(n, 0)) == crc
    ensures Xor(crc, 0) == crc
    ensures Shift(crc) == Xor(crc / 2, And(0xEDB88320, Sub(0, crc % 2)))
  {
    XorZero(crc);
    assert Bits(n, 0) == [];
  }

  lemma {:induction false} UpdateIs(crc: Word, data: seq<Byte>)
    ensures Update(crc, data) == Not(Absorb(Not(crc), MessageBits(data)))
  {}

  method Crc32Update(start: Word, data: array<Byte>, len: nat) returns (crc: Word)
    requires len <= data.Length
    ensures crc == Update(start, data[..len])
  {
    hide *;
    UpdateIs(start, data[..len]);
    crc := Not(start);
    for i := 0 to len
      invariant Absorb(crc, MessageBits(data[i..len])) == Absorb(Not(start), MessageBits(data[..len]))
    {
      assert data[i..len][0] == data[i] && data[i..len][1..] == data[i + 1..len];
      OuterLoopTurn(crc, data[i..len]);
      ghost var register, pending: Byte := crc, data[i];
      ghost var target := Absorb(crc, Bits(pending, 8));
      WordSize();
      crc := Xor(crc, data[i]);
      for bit := 0 to 8
        invariant crc == Xor(register, pending) && pending < Pow2(8 - bit)
        invariant Absorb(register, Bits(pending, 8 - bit)) == target
      {
        InnerLoopTurn(register, pending, 8 - bit);
        LoopEnds(crc, pending);
        crc := Xor(crc / 2, And(0xEDB88320, Sub(0, crc % 2)));
        register, pending := AbsorbBit(register, pending % 2 == 1), pending / 2;
      }
      assert pending == 0 by {
        PowZero();
      }
      LoopEnds(register, pending);
    }
    assert data[len..len] == [];
    LoopEnds(crc, 0);
    crc := Not(crc);
  }

  lemma {:induction false} PowZero()
    ensures Pow2(0) == 1
  {}

  lemma {:induction false} MessageBitsInjective(a: seq<Byte>, b: seq<Byte>)
    requires MessageBits(a) == MessageBits(b)
    ensures a == b
  {
    if a != [] {
      assert |a| == |b|;
      var s, t := MessageBits(a), MessageBits(b);
      assert s[..8] == Bits(a[0], 8) && s[8..] == MessageBits(a[1..]);
      assert t[..8] == Bits(b[0], 8) && t[8..] == MessageBits(b[1..]);
      WordSize();
      forall i | 0 <= i < 8
        ensures Bit(a[0], i) == Bit(b[0], i)
      {
        assert s[..8][i] == t[..8][i];
      }
      SameBits(a[0], b[0], 8);
      MessageBitsInjective(a[1..], b[1..]);
      assert a == [a[0]] + a[1..] && b == [b[0]] + b[1..];
    }
  }

  // ---------------------------------------------------------------------------------
  // Long division over GF(2), leading coefficient first
  // ---------------------------------------------------------------------------------

  /** The generator x^32+x^26+x^23+x^22+x^16+x^12+x^11+x^10+x^8+x^7+x^5+x^4+x^2+x+1. */
  const EXPONENTS: set<nat> := {32, 26, 23, 22, 16, 12, 11, 10, 8, 7, 5, 4, 2, 1, 0}

  /** Its 32 low coefficients, from x^31 down to x^0. */
  function Generator(): (g: seq<bool>)
    ensures |g| == 32
    ensures forall i :: 0 <= i < 32 ==> g[i] == ((31 - i) in EXPONENTS)
  {
    seq(32, i requires 0 <= i < 32 => (31 - i) in EXPONENTS)
  }

  function Sum(a: seq<bool>, b: seq<bool>): (c: seq<bool>)
    requires |a| == |b|
    ensures |c| == |a|
    ensures forall i :: 0 <= i < |a| ==> c[i] == (a[i] != b[i])
  {
    seq(|a|, i requires 0 <= i < |a| => a[i] != b[i])
  }

  /** One step of long division: cancel the leading term. */
  function Cancel(p: seq<bool>): (q: seq<bool>)
    requires |p| > 32
    ensures |q| == |p| - 1
  {
    if p[0] then Sum(p[1..33], Generator()) + p[33..] else p[1..]
  }

  function Remainder(p: seq<bool>): (r: seq<bool>)
    requires |p| >= 32
    ensures |r| == 32
    decreases |p|
  {
    if |p| == 32 then p else Remainder(Cancel(p))
  }

  /** The constant in the loop is the generator, reflected. */
  lemma PolynomialIsGenerator(i: nat)
    requires i < 32
    ensures Bit(POLYNOMIAL, i) == Generator()[i]
  {
    if i < 8 {
      assert i == 0 || i == 1 || i == 2 || i == 3 || i == 4 || i == 5 || i == 6 || i == 7;
    } else {
      DropByte(POLYNOMIAL, i);
      assert POLYNOMIAL / 256 == 0xEDB883;
      PolynomialSecondByte(i);
    }
  }

  lemma PolynomialSecondByte(i: nat)
    requires 8 <= i < 32
    ensures Bit(0xEDB883, i - 8) == Generator()[i]
  {
    var j := i - 8;
    if j < 8 {
      assert j == 0 || j == 1 || j == 2 || j == 3 || j == 4 || j == 5 || j == 6 || j == 7;
    } else {
      DropByte(0xEDB883, j);
      PolynomialThirdByte(i);
    }
  }

  lemma PolynomialThirdByte(i: nat)
    requires 16 <= i < 32
    ensures Bit(0xEDB8, i - 16) == Generator()[i]
  {
    var j := i - 16;
    if j < 8 {
      assert j == 0 || j == 1 || j == 2 || j == 3 || j == 4 || j == 5 || j == 6 || j == 7;
    } else {
      DropByte(0xEDB8, j);
      var k := j - 8;
      assert k == 0 || k == 1 || k == 2 || k == 3 || k == 4 || k == 5 || k == 6 || k == 7;
    }
  }

  /** The dividend of a message: its bits followed by 32 zeros, with the register's bits
      added to the leading 32 terms. */
  function Dividend(bits: seq<bool>, crc: Word): (p: seq<bool>)
    ensures |p| == |bits| + 32
  {
    Sum(bits + Zeros(32), Bits(crc, 32) + Zeros(|bits|))
  }

  lemma CancelAbsorbs(crc: Word, bits: seq<bool>)
    requires bits != []
    ensures Cancel(Dividend(bits, crc)) == Dividend(bits[1..], AbsorbBit(crc, bits[0]))
  {
    var p := Dividend(bits, crc);
    var q := Cancel(p);
    var next := AbsorbBit(crc, bits[0]);
    AbsorbBitBits(crc, bits[0]);
    forall i | 0 <= i < |q|
      ensures q[i] == Dividend(bits[1..], next)[i]
    {
      assert q[i] == (p[i + 1] != (p[0] && i < 32 && Generator()[i]));
      assert (bits[1..] + Zeros(32))[i] == (bits + Zeros(32))[i + 1];
      if i < 32 {
        PolynomialIsGenerator(i);
      }
    }
  }

  lemma {:induction false} AbsorbDivides(crc: Word, bits: seq<bool>)
    ensures Bits(Absorb(crc, bits), 32) == Remainder(Dividend(bits, crc))
    decreases bits
  {
    if bits == [] {
      assert Dividend(bits, crc) == Bits(crc, 32);
    } else {
      CancelAbsorbs(crc, bits);
      AbsorbDivides(AbsorbBit(crc, bits[0]), bits[1..]);
    }
  }

  function Complement(bits: seq<bool>): (c: seq<bool>)
    ensures |c| == |bits|
    ensures forall i :: 0 <= i < |bits| ==> c[i] == !bits[i]
  {
    seq(|bits|, i requires 0 <= i < |bits| => !bits[i])
  }

  /** Section 8 of RFC 1952: the CRC is the complement of the remainder, modulo the
      generator, of the message followed by 32 zeros with its first 32 terms complemented. */
  lemma CrcIsPolynomialDivision(data: seq<Byte>)
    ensures var p := MessageBits(data) + Zeros(32);
      Bits(Crc(data), 32) == Complement(Remainder(Complement(p[..32]) + p[32..]))
  {
    var bits := MessageBits(data);
    var p := bits + Zeros(32);
    AbsorbDivides(Not(0), bits);
    NotBits(Absorb(Not(0), bits));
    NotBits(0);
    forall i | 0 <= i < 32
      ensures Bit(Not(0), i)
    {
      HighBits(0, 0, i);
    }
    assert Dividend(bits, Not(0)) == Complement(p[..32]) + p[32..];
  }

  // ---------------------------------------------------------------------------------
  // Error detection
  // ---------------------------------------------------------------------------------

  /** Two registers differ at some bit position `from` or above. */
  ghost predicate DifferFrom(x: Word, y: Word, from: nat) {
    exists i :: from <= i < 32 && Bit(x, i) != Bit(y, i)
  }

  /** Absorbing one bit each moves a difference down by at most one place, whatever the
      two bits are: a difference that falls out comes back at the top. */
  lemma DifferenceMovesDown(x: Word, y: Word, a: bool, b: bool, from: nat)
    requires from > 0 && DifferFrom(x, y, from)
    ensures DifferFrom(AbsorbBit(x, a), AbsorbBit(y, b), from - 1)
  {
    AbsorbBitBits(x, a);
    AbsorbBitBits(y, b);
    ShiftBranches(0);
    var i :| from <= i < 32 && Bit(x, i) != Bit(y, i);
    if (Bit(x, 0) != a) != (Bit(y, 0) != b) {
      assert Bit(AbsorbBit(x, a), 31) != Bit(AbsorbBit(y, b), 31);
    } else {
      assert Bit(AbsorbBit(x, a), i - 1) != Bit(AbsorbBit(y, b), i - 1);
    }
  }

  lemma {:induction false} DifferenceSurvivesBurst(x: Word, y: Word, a: seq<bool>, b: seq<bool>)
    requires |a| == |b| < 32 && DifferFrom(x, y, |a|)
    ensures Absorb(x, a) != Absorb(y, b)
    decreases a
  {
    if a != [] {
      DifferenceMovesDown(x, y, a[0], b[0], |a|);
      DifferenceSurvivesBurst(AbsorbBit(x, a[0]), AbsorbBit(y, b[0]), a[1..], b[1..]);
    }
  }

  lemma {:induction false} BurstChangesRegister(crc: Word, a: seq<bool>, b: seq<bool>)
    requires |a| == |b| <= 32 && a != b
    ensures Absorb(crc, a) != Absorb(crc, b)
    decreases a
  {
    var x, y := AbsorbBit(crc, a[0]), AbsorbBit(crc, b[0]);
    if a[0] == b[0] {
      assert a == [a[0]] + a[1..] && b == [b[0]] + b[1..];
      BurstChangesRegister(x, a[1..], b[1..]);
    } else {
      AbsorbBitBits(crc, a[0]);
      AbsorbBitBits(crc, b[0]);
      ShiftBranches(0);
      assert Bit(x, 31) != Bit(y, 31);
      DifferenceSurvivesBurst(x, y, a[1..], b[1..]);
    }
  }

  /** Equal bits absorbed by different registers leave them different. */
  lemma {:induction false} AbsorbInjective(x: Word, y: Word, bits: seq<bool>)
    requires x != y
    ensures Absorb(x, bits) != Absorb(y, bits)
    decreases bits
  {
    if bits != [] {
      var i := DifferentBit(x, y);
      var u, v := AbsorbBit(x, bits[0]), AbsorbBit(y, bits[0]);
      if i == 0 {
        AbsorbBitBits(x, bits[0]);
        AbsorbBitBits(y, bits[0]);
        ShiftBranches(0);
        assert Bit(u, 31) != Bit(v, 31);
      } else {
        DifferenceMovesDown(x, y, bits[0], bits[0], i);
      }
      AbsorbInjective(u, v, bits[1..]);
    }
  }

  /** `a` and `b` differ, and only inside a window of 32 consecutive message bits. */
  ghost predicate BurstAt(a: seq<Byte>, b: seq<Byte>, k: nat) {
    var s, t := MessageBits(a), MessageBits(b);
    |a| == |b| && a != b && k <= |s| &&
    forall i :: 0 <= i < |s| && s[i] != t[i] ==> k <= i < k + 32
  }

  lemma Absorb3(crc: Word, a: seq<bool>, b: seq<bool>, c: seq<bool>)
    ensures Absorb(crc, a + b + c) == Absorb(Absorb(Absorb(crc, a), b), c)
  {
    AbsorbAppend(crc, a + b, c);
    AbsorbAppend(crc, a, b);
  }

  /** Every burst error of up to 32 bits, aligned to bytes or not, changes the CRC. */
  lemma BurstDetected(start: Word, a: seq<Byte>, b: seq<Byte>, k: nat)
    requires BurstAt(a, b, k)
    ensures Update(start, a) != Update(start, b)
  {
    var s, t := MessageBits(a), MessageBits(b);
    var end := if k + 32 <= |s| then k + 32 else |s|;
    assert s[..k] == t[..k] && s[end..] == t[end..];
    assert s == s[..k] + s[k..end] + s[end..] && t == t[..k] + t[k..end] + t[end..];
    if s[k..end] == t[k..end] {
      MessageBitsInjective(a, b);
    }
    var crc := Not(start);
    Absorb3(crc, s[..k], s[k..end], s[end..]);
    Absorb3(crc, t[..k], t[k..end], t[end..]);
    var mid := Absorb(crc, s[..k]);
    BurstChangesRegister(mid, s[k..end], t[k..end]);
    AbsorbInjective(Absorb(mid, s[k..end]), Absorb(mid, t[k..end]), s[end..]);
  }

  /** In particular, damage confined to four consecutive bytes is always seen. */
  lemma FourByteDamageDetected(start: Word, prefix: seq<Byte>, a: seq<Byte>, b: seq<Byte>, suffix: seq<Byte>)
    requires |a| == |b| <= 4 && a != b
    ensures Update(start, prefix + a + suffix) != Update(start, prefix + b + suffix)
  {
    var x, y := prefix + a + suffix, prefix + b + suffix;
    MessageBitsAppend(prefix + a, suffix);
    MessageBitsAppend(prefix, a);
    MessageBitsAppend(prefix + b, suffix);
    MessageBitsAppend(prefix, b);
    assert x[|prefix|..|prefix| + |a|] == a && y[|prefix|..|prefix| + |b|] == b;
    assert BurstAt(x, y, 8 * |prefix|);
    BurstDetected(start, x, y, 8 * |prefix|);
  }

  lemma {:induction false} DifferenceCancels(x: Word, y: Word, a: seq<bool>, b: seq<bool>)
    requires |a| == |b| <= 32
    requires forall i :: 0 <= i < 32 ==> (Bit(x, i) != Bit(y, i)) == (i < |a| && a[i] != b[i])
    ensures Absorb(x, a) == Absorb(y, b)
    decreases a
  {
    if a == [] {
      WordsEqual(x, y);
    } else {
      AbsorbBitBits(x, a[0]);
      AbsorbBitBits(y, b[0]);
      DifferenceCancels(AbsorbBit(x, a[0]), AbsorbBit(y, b[0]), a[1..], b[1..]);
    }
  }

  /** Two 33-bit strings whose difference is the generator itself. */
  ghost predicate GeneratorApart(s: seq<bool>, t: seq<bool>) {
    |s| == |t| == 33 && forall i :: 0 <= i < 33 ==> (s[i] != t[i]) == ((32 - i) in EXPONENTS)
  }

  lemma GeneratorCancels(crc: Word, s: seq<bool>, t: seq<bool>)
    requires GeneratorApart(s, t)
    ensures Absorb(crc, s) == Absorb(crc, t)
  {
    var u, v := AbsorbBit(crc, s[0]), AbsorbBit(crc, t[0]);
    AbsorbBitBits(crc, s[0]);
    AbsorbBitBits(crc, t[0]);
    assert s[0] != t[0];
    forall i | 0 <= i < 32
      ensures (Bit(u, i) != Bit(v, i)) == (s[1..][i] != t[1..][i])
    {
      PolynomialIsGenerator(i);
      assert s[1..][i] == s[i + 1] && t[1..][i] == t[i + 1];
    }
    DifferenceCancels(u, v, s[1..], t[1..]);
  }

  /** The bound of 32 is sharp: a 33-bit burst in the shape of the generator goes unseen,
      wherever it lies and whatever surrounds it. */
  lemma GeneratorBurstMissed(start: Word, a: seq<Byte>, b: seq<Byte>, k: nat)
    requires |a| == |b| && k + 33 <= 8 * |a|
    requires GeneratorApart(MessageBits(a)[k..k + 33], MessageBits(b)[k..k + 33])
    requires MessageBits(a)[..k] == MessageBits(b)[..k] && MessageBits(a)[k + 33..] == MessageBits(b)[k + 33..]
    ensures Update(start, a) == Update(start, b)
  {
    var s, t := MessageBits(a), MessageBits(b);
    assert s == s[..k] + s[k..k + 33] + s[k + 33..] && t == t[..k] + t[k..k + 33] + t[k + 33..];
    var crc := Not(start);
    Absorb3(crc, s[..k], s[k..k + 33], s[k + 33..]);
    Absorb3(crc, t[..k], t[k..k + 33], t[k + 33..]);
    GeneratorCancels(Absorb(crc, s[..k]), s[k..k + 33], t[k..k + 33]);
  }

  // ---------------------------------------------------------------------------------
  // Reaching a chosen checksum
  // ---------------------------------------------------------------------------------

  /** What the register must have looked like one step before it became `target`. */
  function Before(target: Word): (w: Word) {
    Make((i: nat) => i > 0 && Bit(target, i - 1) != (Bit(target, 31) && Bit(POLYNOMIAL, i - 1)))
  }

  lemma StepOnTarget(crc: Word, target: Word, from: nat)
    requires 0 < from <= 32
    requires forall i :: from <= i < 32 ==> Bit(crc, i) == Bit(Before(target), i)
    ensures forall i :: from - 1 <= i < 32 ==> Bit(AbsorbBit(crc, Bit(crc, 0) != Bit(target, 31)), i) == Bit(target, i)
  {
    MakeBits((i: nat) => i > 0 && Bit(target, i - 1) != (Bit(target, 31) && Bit(POLYNOMIAL, i - 1)));
    AbsorbBitBits(crc, Bit(crc, 0) != Bit(target, 31));
    ShiftBranches(0);
    forall i | from - 1 <= i < 32
      ensures Bit(AbsorbBit(crc, Bit(crc, 0) != Bit(target, 31)), i) == Bit(target, i)
    {
      if i < 31 {
        assert Bit(crc, i + 1) == Bit(Before(target), i + 1);
      }
    }
  }

  /** Any register is steered to `target`, one bit position more with every bit absorbed. */
  lemma {:induction false} Steer(crc: Word, target: Word, n: nat) returns (bits: seq<bool>)
    requires n <= 32
    ensures |bits| == n
    ensures forall i :: 32 - n <= i < 32 ==> Bit(Absorb(crc, bits), i) == Bit(target, i)
    decreases n
  {
    bits := [];
    if n > 0 {
      bits := Steer(crc, Before(target), n - 1);
      var register := Absorb(crc, bits);
      StepOnTarget(register, target, 33 - n);
      var bit := Bit(register, 0) != Bit(target, 31);
      AbsorbAppend(crc, bits, [bit]);
      AbsorbOne(register, bit);
      bits := bits + [bit];
    }
  }

  lemma {:induction false} AbsorbOne(crc: Word, bit: bool)
    ensures Absorb(crc, [bit]) == AbsorbBit(crc, bit)
  {
    hide AbsorbBit;
    assert [bit][1..] == [] && Absorb(AbsorbBit(crc, bit), []) == AbsorbBit(crc, bit);
  }

  lemma {:induction false} BytesOf(bits: seq<bool>) returns (data: seq<Byte>)
    requires |bits| % 8 == 0
    ensures MessageBits(data) == bits
  {
    data := [];
    if bits != [] {
      FromBitsBound(bits[..8]);
      WordSize();
      var b: Byte := FromBits(bits[..8]);
      forall i: nat | i < 8
        ensures Bit(b, i) == bits[i]
      {
        BitOfFromBits(bits[..8], i);
      }
      var rest := BytesOf(bits[8..]);
      assert Bits(b, 8) == bits[..8];
      data := [b] + rest;
      assert data[1..] == rest;
    }
  }

  /** Four more bytes bring the checksum to any value whatever. */
  lemma EveryChecksumIsReached(start: Word, prefix: seq<Byte>, target: Word)
    ensures exists tail: seq<Byte> :: |tail| == 4 && Update(start, prefix + tail) == target
  {
    var register := Absorb(Not(start), MessageBits(prefix));
    var bits := Steer(register, Not(target), 32);
    var tail := BytesOf(bits);
    MessageBitsAppend(prefix, tail);
    AbsorbAppend(Not(start), MessageBits(prefix), bits);
    WordsEqual(Absorb(register, bits), Not(target));
    assert Update(start, prefix + tail) == target;
  }
}
