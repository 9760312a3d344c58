/** The file that tells the updater which checksum to expect. */
module Sidecar {
  import opened Bytes
  import opened Hex
  import opened Words

  /** `parseExpectedCrc` from a state: a run of digits that stops short of eight ends the
      search. */
  function ScanCrc(s: string, value: Word, digits: nat): Option<Word>
    requires digits < 8
    decreases s
  {
    if s == "" then None
    else if Nibble(s[0]) < 0 then (if digits > 0 then None else ScanCrc(s[1..], value, 0))
    else
      var next := (16 * value) % MODULUS + Nibble(s[0]);
      if digits == 7 then Some(next) else ScanCrc(s[1..], next, digits + 1)
  }

  method ParseExpectedCrc(text: string) returns (crc: Option<Word>)
    ensures crc == ScanCrc(text, 0, 0)
  {
    var value: Word, digits := 0, 0;
    for i := 0 to |text|
      invariant digits < 8
      invariant ScanCrc(text[i..], value, digits) == ScanCrc(text, 0, 0)
    {
      var nibble := Nibble(text[i]);
      if nibble < 0 && digits > 0 {
        return None;
      }
      if nibble >= 0 {
        value := (16 * value) % MODULUS + nibble;
        digits := digits + 1;
        if digits == 8 {
          return Some(value);
        }
      }
    }
    crc := None;
  }

  predicate AllDigits(s: string) {
    forall i :: 0 <= i < |s| ==> Nibble(s[i]) >= 0
  }

  predicate NoDigits(s: string) {
    forall i :: 0 <= i < |s| ==> Nibble(s[i]) < 0
  }

  lemma {:induction false} EightDigits(s: string, rest: string, value: Word, digits: nat)
    requires digits < 8 && |s| == 8 - digits && AllDigits(s)
    ensures ScanCrc(s + rest, value, digits) == Some(Scan(s, value, digits))
    decreases s
  {
    var next := (16 * value) % MODULUS + Nibble(s[0]);
    assert (s + rest)[0] == s[0] && (s + rest)[1..] == s[1..] + rest;
    if digits < 7 {
      EightDigits(s[1..], rest, next, digits + 1);
    }
  }

  lemma {:induction false} SkipNoDigits(prefix: string, s: string, value: Word)
    requires NoDigits(prefix)
    ensures ScanCrc(prefix + s, value, 0) == ScanCrc(s, value, 0)
    decreases prefix
  {
    if prefix == "" {
      assert prefix + s == s;
    } else {
      assert (prefix + s)[0] == prefix[0] && (prefix + s)[1..] == prefix[1..] + s;
      SkipNoDigits(prefix[1..], s, value);
    }
  }

  /** A sidecar text gives the checksum printed in it if no hexadecimal digit comes before. */
  lemma {:induction false} SidecarReads(prefix: string, w: Word, rest: string)
    requires NoDigits(prefix)
    ensures ScanCrc(prefix + (Checksum(w) + rest), 0, 0) == Some(w)
  {
    hide ScanCrc, Scan, Checksum, Parse;
    SkipNoDigits(prefix, Checksum(w) + rest, 0);
    ChecksumDigits(w);
    EightDigits(Checksum(w), rest, 0, 0);
    ParseIsScan(Checksum(w));
    ParseOfChecksum(w);
  }

  lemma {:induction false} ChecksumDigits(w: Word)
    ensures AllDigits(Checksum(w))
  {
    var s := Checksum(w);
    forall i | 0 <= i < |s|
      ensures Nibble(s[i]) >= 0
    {
      assert Canonical(s[i]);
    }
  }

  predicate FirstRunIsLong(s: string, k: nat) {
    k + 8 <= |s| && NoDigits(s[..k]) && AllDigits(s[k..k + 8])
  }

  lemma {:induction false} RunContinues(s: string, value: Word, digits: nat)
    requires 0 < digits < 8
    ensures ScanCrc(s, value, digits).Some? <==> 8 - digits <= |s| && AllDigits(s[..8 - digits])
    decreases s
  {
    if s != "" && Nibble(s[0]) >= 0 && digits < 7 {
      var next := (16 * value) % MODULUS + Nibble(s[0]);
      RunContinues(s[1..], next, digits + 1);
      if 8 - digits <= |s| {
        assert s[..8 - digits] == [s[0]] + s[1..][..7 - digits];
      }
    }
  }

  /** It is found if and only if the first run of hexadecimal digits has at least eight. */
  lemma {:induction false} SidecarReadsIff(s: string, value: Word)
    ensures ScanCrc(s, value, 0).Some? <==> exists k: nat :: FirstRunIsLong(s, k)
    decreases s
  {
    if s == "" {
    } else if Nibble(s[0]) < 0 {
      SidecarReadsIff(s[1..], value);
      if k: nat :| FirstRunIsLong(s[1..], k) {
        assert s[..k + 1] == [s[0]] + s[1..][..k] && s[k + 1..k + 9] == s[1..][k..k + 8];
        assert FirstRunIsLong(s, k + 1);
      }
      if k: nat :| FirstRunIsLong(s, k) {
        RunIsNotFirst(s, k);
        assert s[1..][..k - 1] == s[..k][1..] && s[1..][k - 1..k + 7] == s[k..k + 8];
        assert FirstRunIsLong(s[1..], k - 1);
      }
    } else {
      RunContinues(s[1..], (16 * value) % MODULUS + Nibble(s[0]), 1);
      if 8 <= |s| {
        assert s[0..8] == [s[0]] + s[1..][..7] && s[..0] == "";
      }
      assert ScanCrc(s, value, 0).Some? ==> FirstRunIsLong(s, 0);
      forall k: nat | FirstRunIsLong(s, k)
        ensures k == 0
      {
        RunStarts(s, k);
      }
    }
  }

  lemma {:induction false} RunIsNotFirst(s: string, k: nat)
    requires FirstRunIsLong(s, k) && Nibble(s[0]) < 0
    ensures k > 0
  {
    assert s[k..k + 8][0] == s[k];
  }

  lemma {:induction false} RunStarts(s: string, k: nat)
    requires FirstRunIsLong(s, k) && Nibble(s[0]) >= 0
    ensures k == 0
  {
    if k > 0 {
      StartsPlain(s, k);
    }
  }

  lemma {:induction false} StartsPlain(s: string, k: nat)
    requires 0 < k <= |s| && NoDigits(s[..k])
    ensures Nibble(s[0]) < 0
  {
    assert s[..k][0] == s[0];
  }

  /** The prefix of a C literal is a run of one digit: what follows is not found. */
  lemma {:induction false} LiteralIsNotFound()
    ensures ScanCrc("0x1234abcd", 0, 0) == None
  {
    var s := "0x1234abcd";
    assert s[1..][0] == 'x' && Nibble('0') == 0 && Nibble('x') < 0;
    assert ScanCrc(s[1..], 0, 1) == None;
  }
}
