/** Decimal numbers in text: Python's `str`, Arduino's `String(n)` and `toInt`. */
module Decimal {
  import opened Text

  function Digit(n: nat): (c: char)
    requires n < 10
    ensures '0' <= c <= '9' && c as int - '0' as int == n
  {
    ('0' as int + n) as char
  }

  function Natural(n: nat): (s: string)
    ensures s != "" && forall i :: 0 <= i < |s| ==> '0' <= s[i] <= '9'
  {
    if n < 10 then [Digit(n)] else Natural(n / 10) + [Digit(n % 10)]
  }

  function Integer(n: int): (s: string)
    ensures s != ""
  {
    if n >= 0 then Natural(n) else "-" + Natural(-n)
  }

  /** The digits a number starts with, read on from `acc`. */
  function Read(s: string, acc: nat): nat
    decreases s
  {
    if s == "" || !('0' <= s[0] <= '9') then acc else Read(s[1..], 10 * acc + (s[0] as int - '0' as int))
  }

  /** The nearest signed 32-bit number. */
  function Saturate(n: int): int {
    if n > 0x7FFF_FFFF then 0x7FFF_FFFF else if n < -0x8000_0000 then -0x8000_0000 else n
  }

  /** `String::toInt`, which is a 32-bit `atol`: spaces, a sign, digits, and whatever follows. */
  function ToInt(s: string): int {
    var t := SkipSpaces(s);
    Saturate(if t != "" && t[0] == '-' then 0 - Read(t[1..], 0)
             else if t != "" && t[0] == '+' then Read(t[1..], 0)
             else Read(t, 0))
  }

  lemma {:induction false} ReadNatural(n: nat, rest: string)
    ensures Read(Natural(n) + rest, 0) == Read(rest, n)
    decreases n
  {
    if n < 10 {
      assert ([Digit(n)] + rest)[1..] == rest;
    } else {
      var last := [Digit(n % 10)] + rest;
      assert Natural(n) + rest == Natural(n / 10) + last;
      ReadNatural(n / 10, last);
      assert last[1..] == rest;
    }
  }

  /** On a number with a sign, after spaces and before anything that is no digit: the nearest one
      of 32 bits. */
  lemma {:induction false} ToIntReads(spaces: string, sign: string, n: nat, tail: string)
    requires AllSpace(spaces) && (sign == "" || sign == "+" || sign == "-")
    requires tail == "" || !('0' <= tail[0] <= '9')
    ensures ToInt(spaces + (sign + (Natural(n) + tail))) == Saturate(if sign == "-" then -(n as int) else n)
  {
    hide Natural, SkipSpaces, Saturate;
    var number := Natural(n) + tail;
    var t := sign + number;
    assert '0' <= number[0] <= '9' by {
      assert number[0] == Natural(n)[0];
    }
    if sign == "" {
      assert t == number;
    } else {
      assert t[0] == sign[0] && t[1..] == number;
    }
    SkipsSpaces(spaces, t);
    ReadNatural(n, tail);
  }

  /** It reads back an integer if and only if 32 bits hold it. */
  lemma {:induction false} ToIntOfInteger(n: int)
    ensures ToInt(Integer(n)) == Saturate(n)
    ensures ToInt(Integer(n)) == n <==> -0x8000_0000 <= n <= 0x7FFF_FFFF
  {
    hide Natural, SkipSpaces, Read;
    var sign, digits := if n >= 0 then "" else "-", Natural(if n >= 0 then n else -n);
    ToIntReads("", sign, if n >= 0 then n else -n, "");
    assert "" + (sign + (digits + "")) == Integer(n);
  }
}
