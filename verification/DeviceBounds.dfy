/** Where the device's decoder stops on any bytes at all, and when its bounds check, whose
    64-bit sum of position and length may wrap, lets it read past the buffer. */
module DeviceBounds {
  import opened Bytes
  import opened Cbor
  import opened CborJson
  import DeviceReadsCbor
  import Hex

  // ---------------------------------------------------------------------------------
  // Where a scan ends
  // ---------------------------------------------------------------------------------

  predicate Suffix(t: seq<Byte>, s: seq<Byte>) {
    |t| <= |s| && t == s[|s| - |t|..]
  }

  lemma {:induction false} SuffixTrans(u: seq<Byte>, t: seq<Byte>, s: seq<Byte>)
    requires Suffix(u, t) && Suffix(t, s)
    ensures Suffix(u, s)
  {
    assert s[|s| - |t|..][|t| - |u|..] == s[|s| - |u|..];
  }

  lemma {:induction false} TailIsSuffix(s: seq<Byte>, i: nat)
    requires i <= |s|
    ensures Suffix(s[i..], s)
  {}

  lemma {:induction false} SuffixRefl(s: seq<Byte>)
    ensures Suffix(s, s)
  {}

  lemma {:induction false} PrefixKeeps(text: string, r: Outcome)
    ensures Prefix(text, r).Done? == r.Done? && Prefix(text, r).Rejected? == r.Rejected?
    ensures r.Done? ==> Prefix(text, r).rest == r.rest
  {}

  lemma {:induction false} ReadSuffix(ai: nat, s: seq<Byte>)
    requires ReadUint(ai, s).Some?
    ensures Suffix(ReadUint(ai, s).value.1, s)
  {}

  /** What a scan leaves is the end of what it was given. */
  lemma {:induction false} ScanLeavesSuffix(s: seq<Byte>, pos: nat)
    requires Scan(s, pos).Done?
    ensures Suffix(Scan(s, pos).rest, s)
    decreases |s|, 0
  {
    hide ScanItems, ScanPairs, ReadUint, Suffix;
    var major, ai, t := s[0] / 32, s[0] % 32, s[1..];
    TailIsSuffix(s, 1);
    if major < 6 {
      ReadSuffix(ai, t);
      var (value, u) := ReadUint(ai, t).value;
      var p := pos + |s| - |u|;
      SuffixTrans(u, t, s);
      if major == 4 {
        ItemsLeaveSuffix(u, p, value, true);
      } else if major == 5 {
        PairsLeaveSuffix(u, p, value, true);
      } else {
        TailIsSuffix(u, if major < 2 then 0 else value);
      }
      SuffixTrans(ScanBody(major, value, u, p).rest, u, s);
    }
  }

  lemma {:induction false} ItemsLeaveSuffix(s: seq<Byte>, pos: nat, count: nat, first: bool)
    ensures ScanItems(s, pos, count, first).Done? ==> Suffix(ScanItems(s, pos, count, first).rest, s)
    decreases |s|, count + 1
  {
    hide *;
    NoItems(s, pos);
    SuffixRefl(s);
    if count > 0 {
      ItemsStep("", s, pos, count, first);
      if Scan(s, pos).Done? {
        ScanLeavesSuffix(s, pos);
        var t := Scan(s, pos).rest;
        var p := pos + |s| - |t|;
        ItemsLeaveSuffix(t, p, count - 1, false);
        if ScanItems(t, p, count - 1, false).Done? {
          SuffixTrans(ScanItems(t, p, count - 1, false).rest, t, s);
        }
        PrefixKeeps("" + Comma(first) + Scan(s, pos).text, ScanItems(t, p, count - 1, false));
      } else {
        PrefixKeeps("" + Comma(first), Scan(s, pos));
      }
      PrefixKeeps("", ScanItems(s, pos, count, first));
    }
  }

  lemma {:induction false} PairsLeaveSuffix(s: seq<Byte>, pos: nat, count: nat, first: bool)
    ensures ScanPairs(s, pos, count, first).Done? ==> Suffix(ScanPairs(s, pos, count, first).rest, s)
    decreases |s|, count + 1
  {
    hide *;
    NoItems(s, pos);
    SuffixRefl(s);
    if count > 0 {
      PairsStep("", s, pos, count, first);
      if Scan(s, pos).Done? {
        ScanLeavesSuffix(s, pos);
        var t := Scan(s, pos).rest;
        var p := pos + |s| - |t|;
        if Scan(t, p).Done? {
          ScanLeavesSuffix(t, p);
          var u := Scan(t, p).rest;
          var q := p + |t| - |u|;
          SuffixTrans(u, t, s);
          PairsLeaveSuffix(u, q, count - 1, false);
          if ScanPairs(u, q, count - 1, false).Done? {
            SuffixTrans(ScanPairs(u, q, count - 1, false).rest, u, s);
          }
          PrefixKeeps("" + Comma(first) + Scan(s, pos).text + ":" + Scan(t, p).text, ScanPairs(u, q, count - 1, false));
        } else {
          PrefixKeeps("" + Comma(first) + Scan(s, pos).text + ":", Scan(t, p));
        }
      } else {
        PrefixKeeps("" + Comma(first), Scan(s, pos));
      }
      PrefixKeeps("", ScanPairs(s, pos, count, first));
    }
  }

  // ---------------------------------------------------------------------------------
  // The heads a scan reaches
  // ---------------------------------------------------------------------------------

  /** The head of a text or byte string: the position after it and the length it declares. */
  datatype StringHead = StringHead(at: nat, length: nat)

  /** The heads of text and byte strings that `decodeValue` decodes, in the order in which it
      comes to them; what lies inside a string is never one. */
  function Heads(s: seq<Byte>, pos: nat): seq<StringHead>
    decreases |s|, 0
  {
    if s == [] || s[0] / 32 >= 6 then []
    else
      match ReadUint(s[0] % 32, s[1..])
      case None => []
      case Some((value, u)) =>
        var major, p := s[0] / 32, pos + |s| - |u|;
        if major < 2 then []
        else if major < 4 then [StringHead(p, value)]
        else if major == 4 then HeadsOfItems(u, p, value)
        else HeadsOfPairs(u, p, value)
  }

  function HeadsOfItems(s: seq<Byte>, pos: nat, count: nat): seq<StringHead>
    decreases |s|, count + 1
  {
    if count == 0 then []
    else
      Heads(s, pos)
      + match Scan(s, pos)
        case Done(_, t) => HeadsOfItems(t, pos + |s| - |t|, count - 1)
        case _ => []
  }

  function HeadsOfPairs(s: seq<Byte>, pos: nat, count: nat): seq<StringHead>
    decreases |s|, count + 1
  {
    if count == 0 then []
    else
      Heads(s, pos)
      + match Scan(s, pos)
        case Done(_, t) =>
          (var p := pos + |s| - |t|;
           Heads(t, p)
           + match Scan(t, p)
             case Done(_, u) => HeadsOfPairs(u, p + |t| - |u|, count - 1)
             case _ => [])
        case _ => []
  }

  /** The declared length carries the 64-bit sum past its top. */
  predicate Wraps(h: StringHead) {
    h.at + h.length >= TWO64
  }

  predicate AnyWraps(heads: seq<StringHead>) {
    exists i :: 0 <= i < |heads| && Wraps(heads[i])
  }

  lemma {:induction false} AnyWrapsAppend(a: seq<StringHead>, b: seq<StringHead>)
    ensures AnyWraps(a + b) <==> AnyWraps(a) || AnyWraps(b)
  {
    hide Wraps;
    assert forall i :: 0 <= i < |a| ==> (a + b)[i] == a[i];
    assert forall i :: 0 <= i < |b| ==> (a + b)[|a| + i] == b[i];
    if AnyWraps(a + b) {
      var i :| 0 <= i < |a + b| && Wraps((a + b)[i]);
      assert i >= |a| ==> Wraps(b[i - |a|]);
    }
  }

  lemma {:induction false} NoneWraps()
    ensures !AnyWraps([])
  {}

  lemma {:induction false} OneWraps(h: StringHead)
    ensures AnyWraps([h]) <==> Wraps(h)
  {
    assert [h][0] == h;
  }

  lemma {:induction false} PrefixOverrun(text: string, r: Outcome)
    ensures Prefix(text, r).Overrun? == r.Overrun?
    ensures Enclose(text, r, "]").Overrun? == Enclose(text, r, "}").Overrun? == r.Overrun?
  {}

  /** On any bytes whatever: the decoder reads past its buffer if and only if one of the string
      heads it reaches declares at least 2^64 less its position. */
  lemma {:induction false} OverrunIff(s: seq<Byte>, pos: nat)
    ensures Scan(s, pos).Overrun? <==> AnyWraps(Heads(s, pos))
    decreases |s|, 0
  {
    hide ScanItems, ScanPairs, HeadsOfItems, HeadsOfPairs, ReadUint, AnyWraps, Enclose;
    NoneWraps();
    if s != [] && s[0] / 32 < 6 && ReadUint(s[0] % 32, s[1..]).Some? {
      var (value, u) := ReadUint(s[0] % 32, s[1..]).value;
      var p := pos + |s| - |u|;
      OneWraps(StringHead(p, value));
      ItemsOverrunIff(u, p, value, true);
      PairsOverrunIff(u, p, value, true);
      PrefixOverrun("[", ScanItems(u, p, value, true));
      PrefixOverrun("{", ScanPairs(u, p, value, true));
    }
  }

  lemma {:induction false} ItemsOverrunIff(s: seq<Byte>, pos: nat, count: nat, first: bool)
    ensures ScanItems(s, pos, count, first).Overrun? <==> AnyWraps(HeadsOfItems(s, pos, count))
    decreases |s|, count + 1
  {
    hide Scan, Heads, AnyWraps, Prefix;
    NoneWraps();
    if count > 0 {
      OverrunIff(s, pos);
      var r := Scan(s, pos);
      PrefixOverrun(Comma(first), r);
      PrefixKeeps(Comma(first), r);
      if r.Done? {
        var p := pos + |s| - |r.rest|;
        ItemsOverrunIff(r.rest, p, count - 1, false);
        AnyWrapsAppend(Heads(s, pos), HeadsOfItems(r.rest, p, count - 1));
        PrefixOverrun(Prefix(Comma(first), r).text, ScanItems(r.rest, p, count - 1, false));
      } else {
        assert Heads(s, pos) + [] == Heads(s, pos);
      }
    }
  }

  lemma {:induction false} PairsOverrunIff(s: seq<Byte>, pos: nat, count: nat, first: bool)
    ensures ScanPairs(s, pos, count, first).Overrun? <==> AnyWraps(HeadsOfPairs(s, pos, count))
    decreases |s|, count + 1
  {
    hide Scan, Heads, AnyWraps, Prefix;
    NoneWraps();
    if count > 0 {
      OverrunIff(s, pos);
      var r := Scan(s, pos);
      PrefixOverrun(Comma(first), r);
      PrefixKeeps(Comma(first), r);
      if r.Done? {
        var key, t, p := Prefix(Comma(first), r).text, r.rest, pos + |s| - |r.rest|;
        OverrunIff(t, p);
        var v := Scan(t, p);
        PrefixOverrun(key + ":", v);
        PrefixKeeps(key + ":", v);
        if v.Done? {
          var u, q := v.rest, p + |t| - |v.rest|;
          PairsOverrunIff(u, q, count - 1, false);
          AnyWrapsAppend(Heads(t, p), HeadsOfPairs(u, q, count - 1));
          PrefixOverrun(Prefix(key + ":", v).text, ScanPairs(u, q, count - 1, false));
          AnyWrapsAppend(Heads(s, pos), Heads(t, p) + HeadsOfPairs(u, q, count - 1));
        } else {
          assert Heads(t, p) + [] == Heads(t, p);
          AnyWrapsAppend(Heads(s, pos), Heads(t, p));
        }
      } else {
        assert Heads(s, pos) + [] == Heads(s, pos);
      }
    }
  }

  // ---------------------------------------------------------------------------------
  // The heads are really there
  // ---------------------------------------------------------------------------------

  /** Byte `k` of the buffer's rest `s` begins the head `h`, which declares its length and ends
      where `h` says. */
  predicate StandsAt(h: StringHead, s: seq<Byte>, pos: nat, k: nat) {
    && k < |s| && (s[k] / 32 == 2 || s[k] / 32 == 3)
    && pos + k < h.at <= pos + |s|
    && ReadUint(s[k] % 32, s[k + 1..]) == Some((h.length, s[h.at - pos..]))
  }

  ghost predicate StandsIn(h: StringHead, s: seq<Byte>, pos: nat) {
    exists k: nat :: StandsAt(h, s, pos, k)
  }

  ghost predicate AllStand(heads: seq<StringHead>, s: seq<Byte>, pos: nat) {
    forall i :: 0 <= i < |heads| ==> StandsIn(heads[i], s, pos)
  }

  lemma {:induction false} StandsEarlier(h: StringHead, t: seq<Byte>, s: seq<Byte>, pos: nat)
    requires Suffix(t, s) && StandsIn(h, t, pos + |s| - |t|)
    ensures StandsIn(h, s, pos)
  {
    hide ReadUint;
    var n := |s| - |t|;
    var k: nat :| StandsAt(h, t, pos + n, k);
    assert s[k + n] == t[k] && s[k + n + 1..] == t[k + 1..];
    assert s[h.at - pos..] == t[h.at - (pos + n)..];
    assert StandsAt(h, s, pos, k + n);
  }

  lemma {:induction false} AllStandEarlier(heads: seq<StringHead>, t: seq<Byte>, s: seq<Byte>, pos: nat)
    requires Suffix(t, s) && AllStand(heads, t, pos + |s| - |t|)
    ensures AllStand(heads, s, pos)
  {
    hide Suffix, StandsIn;
    forall i | 0 <= i < |heads|
      ensures StandsIn(heads[i], s, pos)
    {
      StandsEarlier(heads[i], t, s, pos);
    }
  }

  lemma {:induction false} AllStandAppend(a: seq<StringHead>, b: seq<StringHead>, s: seq<Byte>, pos: nat)
    requires AllStand(a, s, pos) && AllStand(b, s, pos)
    ensures AllStand(a + b, s, pos)
  {
    hide StandsIn;
  }

  lemma {:induction false} SuffixLength(t: seq<Byte>, s: seq<Byte>)
    requires Suffix(t, s)
    ensures |t| <= |s| && t == s[|s| - |t|..]
  {}

  /** Every head reached stands in the buffer, at its position, with the length it declares. */
  lemma {:induction false} HeadsStand(s: seq<Byte>, pos: nat)
    ensures AllStand(Heads(s, pos), s, pos)
    decreases |s|, 0
  {
    hide HeadsOfItems, HeadsOfPairs, ReadUint, Suffix;
    if s != [] && s[0] / 32 < 6 && ReadUint(s[0] % 32, s[1..]).Some? {
      var (value, u) := ReadUint(s[0] % 32, s[1..]).value;
      var major, p := s[0] / 32, pos + |s| - |u|;
      ReadSuffix(s[0] % 32, s[1..]);
      TailIsSuffix(s, 1);
      SuffixTrans(u, s[1..], s);
      SuffixLength(u, s);
      if major == 2 || major == 3 {
        assert StandsAt(StringHead(p, value), s, pos, 0);
      } else if major == 4 {
        HeadsOfItemsStand(u, p, value);
        AllStandEarlier(HeadsOfItems(u, p, value), u, s, pos);
      } else if major == 5 {
        HeadsOfPairsStand(u, p, value);
        AllStandEarlier(HeadsOfPairs(u, p, value), u, s, pos);
      }
    }
  }

  lemma {:induction false} HeadsOfItemsStand(s: seq<Byte>, pos: nat, count: nat)
    ensures AllStand(HeadsOfItems(s, pos, count), s, pos)
    decreases |s|, count + 1
  {
    hide Scan, Heads, StandsIn, Suffix;
    if count > 0 {
      HeadsStand(s, pos);
      if Scan(s, pos).Done? {
        ScanLeavesSuffix(s, pos);
        var t := Scan(s, pos).rest;
        var more := HeadsOfItems(t, pos + |s| - |t|, count - 1);
        HeadsOfItemsStand(t, pos + |s| - |t|, count - 1);
        AllStandEarlier(more, t, s, pos);
        AllStandAppend(Heads(s, pos), more, s, pos);
      } else {
        assert Heads(s, pos) + [] == Heads(s, pos);
      }
    }
  }

  lemma {:induction false} HeadsOfPairsStand(s: seq<Byte>, pos: nat, count: nat)
    ensures AllStand(HeadsOfPairs(s, pos, count), s, pos)
    decreases |s|, count + 1
  {
    hide Scan, Heads, StandsIn, Suffix;
    if count > 0 {
      HeadsStand(s, pos);
      if Scan(s, pos).Done? {
        ScanLeavesSuffix(s, pos);
        var t := Scan(s, pos).rest;
        var p := pos + |s| - |t|;
        HeadsStand(t, p);
        if Scan(t, p).Done? {
          ScanLeavesSuffix(t, p);
          var u := Scan(t, p).rest;
          var more := HeadsOfPairs(u, p + |t| - |u|, count - 1);
          HeadsOfPairsStand(u, p + |t| - |u|, count - 1);
          AllStandEarlier(more, u, t, p);
          AllStandAppend(Heads(t, p), more, t, p);
          AllStandEarlier(Heads(t, p) + more, t, s, pos);
          AllStandAppend(Heads(s, pos), Heads(t, p) + more, s, pos);
        } else {
          assert Heads(t, p) + [] == Heads(t, p);
          AllStandEarlier(Heads(t, p), t, s, pos);
          AllStandAppend(Heads(s, pos), Heads(t, p), s, pos);
        }
      } else {
        assert Heads(s, pos) + [] == Heads(s, pos);
      }
    }
  }

  // ---------------------------------------------------------------------------------
  // What a sender can rely on
  // ---------------------------------------------------------------------------------

  const HALF: nat := 0x8000_0000_0000_0000

  /** A buffer of less than 2^63 bytes is never left unless a head that the scan reaches
      declares 2^63 bytes or more, whatever the strings hold. */
  lemma {:induction false} OverrunNeedsHugeLength(s: seq<Byte>, pos: nat)
    requires pos + |s| <= HALF && forall i :: 0 <= i < |Heads(s, pos)| ==> Heads(s, pos)[i].length < HALF
    ensures !Scan(s, pos).Overrun?
  {
    hide Scan, Heads, StandsAt;
    OverrunIff(s, pos);
    HeadsStand(s, pos);
    forall i | 0 <= i < |Heads(s, pos)|
      ensures !Wraps(Heads(s, pos)[i])
    {
      var h := Heads(s, pos)[i];
      var k: nat :| StandsAt(h, s, pos, k);
      StandsInside(h, s, pos, k);
    }
  }

  lemma {:induction false} StandsInside(h: StringHead, s: seq<Byte>, pos: nat, k: nat)
    requires StandsAt(h, s, pos, k)
    ensures h.at <= pos + |s|
  {}

  /** A lone text or byte string with anything after it: the exact lengths. */
  lemma {:induction false} StringOverrunsIff(major: nat, n: nat, rest: seq<Byte>, pos: nat)
    requires (major == 2 || major == 3) && n < TWO64
    ensures Scan(Head(major, n) + rest, pos).Overrun? <==> pos + |Head(major, n)| + n >= TWO64
  {
    hide Head, Scan;
    DeviceReadsCbor.ScanHeaded(major, n, rest, pos);
  }

  /** Nine bytes that declare a text of 2^64 - 1 bytes. */
  const HUGE_TEXT: seq<Byte> := [0x7B, 0xFF, 0xFF, 0xFF, 0xFF, 0xFF, 0xFF, 0xFF, 0xFF]

  lemma {:induction false} HugeTextIsHead()
    ensures Head(3, TWO64 - 1) == HUGE_TEXT
  {
    hide ReadUint;
    var n: nat := 0xFFFF_FFFF_FFFF_FFFF;
    assert BigEndian(n, 8) == [0xFF, 0xFF, 0xFF, 0xFF, 0xFF, 0xFF, 0xFF, 0xFF];
  }

  /** With them the decoder does leave its buffer. */
  lemma {:induction false} HugeTextOverruns()
    ensures Scan(HUGE_TEXT, 0) == Overrun("")
  {
    hide Head, Scan, ReadUint;
    HugeTextIsHead();
    StringOverrunsIff(3, TWO64 - 1, [], 0);
    DeviceReadsCbor.ScanHeaded(3, TWO64 - 1, [], 0);
    assert HUGE_TEXT + [] == HUGE_TEXT;
  }

  /** The same bytes inside a string are harmless. */
  lemma {:induction false} HugeTextInsideIsHarmless()
    ensures Scan([0x49] + HUGE_TEXT, 0) == Done("\"" + Hex.Encode(HUGE_TEXT) + "\"", [])
    ensures Heads([0x49] + HUGE_TEXT, 0) == [StringHead(1, 9)]
  {
    hide Hex.Encode;
    var s: seq<Byte> := [0x49] + HUGE_TEXT;
    assert s[1..] == HUGE_TEXT && HUGE_TEXT[..9] == HUGE_TEXT && HUGE_TEXT[9..] == [];
  }
}
