/** Vocabulary shared by every module: bytes, optional values and the two ways a byte
    string is seen, as numbers (the controller) and as characters (the device). */
module Bytes {
  type Byte = b: int | 0 <= b < 256

  datatype Option<+T> = None | Some(value: T)

  /** The device keeps text in an Arduino `String`, one character per byte. */
  function Latin1(bytes: seq<Byte>): (text: string)
    ensures |text| == |bytes|
  {
    if bytes == [] then "" else [bytes[0] as char] + Latin1(bytes[1..])
  }

  lemma {:induction false} Latin1Append(a: seq<Byte>, b: seq<Byte>)
    ensures Latin1(a + b) == Latin1(a) + Latin1(b)
  {
    if a == [] {
      assert a + b == b;
    } else {
      assert (a + b)[1..] == a[1..] + b;
      Latin1Append(a[1..], b);
    }
  }

  lemma {:induction false} Latin1Injective(a: seq<Byte>, b: seq<Byte>)
    requires Latin1(a) == Latin1(b)
    ensures a == b
  {
    if a != [] {
      assert |a| == |Latin1(a)| == |b|;
      assert Latin1(a)[0] == Latin1(b)[0];
      assert Latin1(a)[1..] == Latin1(b)[1..];
      Latin1Injective(a[1..], b[1..]);
      assert a == [a[0]] + a[1..] && b == [b[0]] + b[1..];
    }
  }

  function Zeros(n: nat): (bits: seq<bool>)
    ensures |bits| == n
    ensures forall i :: 0 <= i < n ==> !bits[i]
  {
    seq(n, _ => false)
  }
}
