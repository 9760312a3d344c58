/** Unsigned 32-bit words, with the bitwise operators defined by what they do to each bit. */
module Words {
  const MODULUS: nat := 0x1_0000_0000

  type Word = n: nat | n < 0x1_0000_0000

  function Pow2(k: nat): (p: nat)
    ensures p > 0
  {
    if k == 0 then 1 else 2 * Pow2(k - 1)
  }

  /** Bit `i` of `n`, counting from the least significant. */
  function Bit(n: nat, i: nat): bool
    decreases i
  {
    if i == 0 then n % 2 == 1 else Bit(n / 2, i - 1)
  }

  function Bits(n: nat, count: nat): (bits: seq<bool>)
    ensures |bits| == count
    ensures forall i :: 0 <= i < count ==> bits[i] == Bit(n, i)
  {
    seq(count, i requires 0 <= i < count => Bit(n, i))
  }

  function FromBits(bits: seq<bool>): nat {
    if bits == [] then 0 else (if bits[0] then 1 else 0) + 2 * FromBits(bits[1..])
  }

  lemma {:induction false} FromBitsBound(bits: seq<bool>)
    ensures FromBits(bits) < Pow2(|bits|)
  {
    if bits != [] {
      FromBitsBound(bits[1..]);
    }
  }

  lemma {:induction false} BitOfFromBits(bits: seq<bool>, i: nat)
    requires i < |bits|
    ensures Bit(FromBits(bits), i) == bits[i]
    decreases i
  {
    assert FromBits(bits) / 2 == FromBits(bits[1..]);
    if i > 0 {
      BitOfFromBits(bits[1..], i - 1);
    }
  }

  lemma {:induction false} SameBits(a: nat, b: nat, count: nat)
    requires a < Pow2(count) && b < Pow2(count)
    requires forall i :: 0 <= i < count ==> Bit(a, i) == Bit(b, i)
    ensures a == b
    decreases count
  {
    if count > 0 {
      assert Bit(a, 0) == Bit(b, 0);
      forall i | 0 <= i < count - 1
        ensures Bit(a / 2, i) == Bit(b / 2, i)
      {
        assert Bit(a, i + 1) == Bit(b, i + 1);
      }
      SameBits(a / 2, b / 2, count - 1);
    }
  }

  /** Bits above the size of a number are zero. */
  lemma {:induction false} HighBits(n: nat, count: nat, i: nat)
    requires n < Pow2(count) && count <= i
    ensures !Bit(n, i)
    decreases i
  {
    if count == 0 {
      if i > 0 {
        HighBits(n / 2, 0, i - 1);
      }
    } else {
      HighBits(n / 2, count - 1, i - 1);
    }
  }

  /** The low byte may be dropped when a higher bit is read. */
  lemma DropByte(n: nat, i: nat)
    requires i >= 8
    ensures Bit(n, i) == Bit(n / 256, i - 8)
  {
    var q := n / 2 / 2;
    assert Bit(n, i) == Bit(q, i - 2);
    assert Bit(q, i - 2) == Bit(q / 2 / 2, i - 4);
    var r := q / 2 / 2;
    assert Bit(r, i - 4) == Bit(r / 2 / 2, i - 6);
    assert Bit(r / 2 / 2, i - 6) == Bit(r / 2 / 2 / 2 / 2, i - 8);
  }

  lemma WordSize()
    ensures Pow2(32) == MODULUS && Pow2(8) == 256 && Pow2(31) == 0x8000_0000
  {
    assert Pow2(8) == 256;
    assert Pow2(16) == 0x1_0000;
    assert Pow2(24) == 0x100_0000;
  }

  function Pack(bits: seq<bool>): (w: Word)
    requires |bits| == 32
  {
    FromBitsBound(bits);
    WordSize();
    FromBits(bits)
  }

  /** The word whose bit `i` is `f(i)`. */
  function Make(f: nat -> bool): (w: Word) {
    Pack(seq(32, (i: nat) => f(i)))
  }

  lemma MakeBits(f: nat -> bool)
    ensures forall i :: 0 <= i < 32 ==> Bit(Make(f), i) == f(i)
  {
    var bits := seq(32, (i: nat) => f(i));
    forall i | 0 <= i < 32
      ensures Bit(Make(f), i) == f(i)
    {
      BitOfFromBits(bits, i);
    }
  }

  /** `a ^ b` */
  function Xor(a: Word, b: Word): Word {
    Make((i: nat) => Bit(a, i) != Bit(b, i))
  }

  /** `a & b` */
  function And(a: Word, b: Word): Word {
    Make((i: nat) => Bit(a, i) && Bit(b, i))
  }

  /** `~a` */
  function Not(a: Word): Word {
    MODULUS - 1 - a
  }

  /** `a - b`, which wraps. */
  function Sub(a: Word, b: Word): Word {
    (a - b) % MODULUS
  }

  lemma XorBits(a: Word, b: Word)
    ensures forall i :: 0 <= i < 32 ==> Bit(Xor(a, b), i) == (Bit(a, i) != Bit(b, i))
  {
    MakeBits((i: nat) => Bit(a, i) != Bit(b, i));
  }

  lemma AndBits(a: Word, b: Word)
    ensures forall i :: 0 <= i < 32 ==> Bit(And(a, b), i) == (Bit(a, i) && Bit(b, i))
  {
    MakeBits((i: nat) => Bit(a, i) && Bit(b, i));
  }

  lemma {:induction false} ComplementBit(n: nat, count: nat, i: nat)
    requires n < Pow2(count) && i < count
    ensures Bit(Pow2(count) - 1 - n, i) == !Bit(n, i)
    decreases count
  {
    if i > 0 {
      assert (Pow2(count) - 1 - n) / 2 == Pow2(count - 1) - 1 - n / 2;
      ComplementBit(n / 2, count - 1, i - 1);
    }
  }

  lemma NotBits(a: Word)
    ensures forall i :: 0 <= i < 32 ==> Bit(Not(a), i) == !Bit(a, i)
  {
    WordSize();
    forall i | 0 <= i < 32
      ensures Bit(Not(a), i) == !Bit(a, i)
    {
      ComplementBit(a, 32, i);
    }
  }

  lemma WordsEqual(a: Word, b: Word)
    requires forall i :: 0 <= i < 32 ==> Bit(a, i) == Bit(b, i)
    ensures a == b
  {
    WordSize();
    SameBits(a, b, 32);
  }

  lemma DifferentBit(a: Word, b: Word) returns (i: nat)
    requires a != b
    ensures i < 32 && Bit(a, i) != Bit(b, i)
  {
    if forall j :: 0 <= j < 32 ==> Bit(a, j) == Bit(b, j) {
      WordsEqual(a, b);
      assert false;
    }
    i :| 0 <= i < 32 && Bit(a, i) != Bit(b, i);
  }

  /** Shifting right by one drops bit 0 and brings in a zero at the top. */
  lemma HalfBits(a: Word)
    ensures forall i :: 0 <= i < 32 ==> Bit(a / 2, i) == (i < 31 && Bit(a, i + 1))
  {
    WordSize();
    HighBits(a, 32, 32);
    forall i | 0 <= i < 32
      ensures Bit(a / 2, i) == (i < 31 && Bit(a, i + 1))
    {
      assert Bit(a / 2, i) == Bit(a, i + 1);
    }
  }
}
