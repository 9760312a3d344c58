/** The two ends of an MQTT connection (sections 3.1, 3.3 and 3.8 of MQTT Version 3.1.1): what they write and how
    they find the packets in what they read. */
module MqttStream {
  import opened Bytes
  import opened MqttFraming
  import opened Words

  // ---------------------------------------------------------------------------------
  // Packets
  // ---------------------------------------------------------------------------------

  /** A PUBLISH at QoS 0, or any other packet. */
  datatype Packet =
    | Published(flags: nat, topic: seq<Byte>, payload: seq<Byte>)
    | Other(kind: nat, flags: nat, content: seq<Byte>)

  predicate WellFormed(p: Packet) {
    p.flags < 16 && |Body(p)| < MODULUS
    && (if p.Published? then |p.topic| < 0x1_0000 else p.kind < 16 && p.kind != 3)
  }

  /** The 16-bit length that precedes a string; both casts drop the higher bits. */
  function Length16(n: nat): seq<Byte> {
    [n / 256 % 256, n % 256]
  }

  function Text16(s: seq<Byte>): seq<Byte> {
    Length16(|s|) + s
  }

  function Body(p: Packet): seq<Byte> {
    match p
    case Published(_, topic, payload) => Text16(topic) + payload
    case Other(_, _, content) => content
  }

  function FirstByte(p: Packet): nat {
    (if p.Published? then 3 else p.kind) * 16 + p.flags
  }

  function Wire(p: Packet): seq<Byte>
    requires FirstByte(p) < 256
  {
    [FirstByte(p) as Byte] + EncodeLength(|Body(p)|) + Body(p)
  }

  predicate AllWellFormed(ps: seq<Packet>) {
    forall i :: 0 <= i < |ps| ==> WellFormed(ps[i])
  }

  function WireAll(ps: seq<Packet>): seq<Byte>
    requires AllWellFormed(ps)
  {
    if ps == [] then [] else Wire(ps[0]) + WireAll(ps[1..])
  }

  datatype Message = Message(topic: seq<Byte>, payload: seq<Byte>)

  /** The messages among the packets, in order. */
  function Messages(ps: seq<Packet>): seq<Message> {
    if ps == [] then []
    else (if ps[0].Published? then [Message(ps[0].topic, ps[0].payload)] else []) + Messages(ps[1..])
  }

  // ---------------------------------------------------------------------------------
  // The device
  // ---------------------------------------------------------------------------------

  /** One turn of `readPacket`: the message, if it was a whole PUBLISH, and the bytes left. */
  datatype Reading = Reading(message: Option<Message>, rest: seq<Byte>)

  /** The part of `readPacket` after the fixed header; `remaining` wraps below zero. */
  function ReadBody(kind: nat, remaining: Word, s: seq<Byte>): Reading {
    if kind != 3 then Reading(None, if |s| < remaining then [] else s[remaining..])
    else if |s| < 2 then Reading(None, [])
    else
      var topicLen := s[0] as int * 256 + s[1];
      var t := s[2..];
      if |t| < topicLen then Reading(None, [])
      else
        var left := Sub(Sub(remaining, 2), topicLen);
        var u := t[topicLen..];
        if |u| < left then Reading(None, [])
        else Reading(Some(Message(t[..topicLen], u[..left])), u[left..])
  }

  /** `readPacket` on the bytes that will arrive in time. */
  function ReadPacket(rx: seq<Byte>): Reading {
    if rx == [] then Reading(None, [])
    else
      match ReadLength32(rx[1..], 1, 0)
      case None => Reading(None, [])
      case Some((remaining, s)) => ReadBody(rx[0] / 16, remaining, s)
  }

  lemma {:induction false} Text16Size(s: seq<Byte>)
    ensures |Text16(s)| == 2 + |s|
  {}

  lemma {:induction false} Assemble(before: seq<Byte>, a: seq<Byte>, b: seq<Byte>, c: seq<Byte>, d: seq<Byte>)
    ensures before + a + b + c + d == before + (a + b + (c + d))
  {}

  class WiFiMqttTransport {
    var rx: seq<Byte>
    var tx: seq<Byte>
    var packetId: nat

    constructor (arriving: seq<Byte>)
      ensures rx == arriving && tx == [] && packetId == 1
    {
      rx, tx, packetId := arriving, [], 1;
    }

    method ReadByte() returns (ok: bool, value: Byte)
      modifies this`rx
      ensures ok == (old(rx) != [])
      ensures if ok then value == old(rx)[0] && rx == old(rx)[1..] else rx == []
    {
      ok, value := |rx| > 0, 0;
      if ok {
        value, rx := rx[0], rx[1..];
      }
    }

    /** `count` bytes, one at a time; false when they run out. */
    method ReadBytes(count: Word) returns (ok: bool, bytes: seq<Byte>)
      modifies this`rx
      ensures ok == (count <= |old(rx)|)
      ensures if ok then bytes == old(rx)[..count] && rx == old(rx)[count..] else rx == []
    {
      bytes := [];
      while |bytes| < count
        invariant |bytes| <= count && |bytes| <= |old(rx)|
        invariant bytes == old(rx)[..|bytes|] && rx == old(rx)[|bytes|..]
        decreases count - |bytes|
      {
        ghost var before := rx;
        var got, b := ReadByte();
        if !got {
          return false, bytes;
        }
        assert old(rx)[..|bytes| + 1] == old(rx)[..|bytes|] + [old(rx)[|bytes|]];
        assert before[1..] == old(rx)[|bytes| + 1..];
        bytes := bytes + [b];
      }
      ok := true;
    }

    method ReadRemaining() returns (ok: bool, remaining: Word)
      modifies this`rx
      ensures var r := ReadLength32(old(rx), 1, 0);
        if r.None? then !ok && rx == [] else ok && remaining == r.value.0 && rx == r.value.1
    {
      var multiplier: Word := 1;
      remaining := 0;
      while true
        invariant ReadLength32(rx, multiplier, remaining) == ReadLength32(old(rx), 1, 0)
        decreases |rx|
      {
        var got, digit := ReadByte();
        if !got {
          return false, remaining;
        }
        remaining := (remaining + digit % 128 * multiplier) % MODULUS;
        multiplier := multiplier * 128 % MODULUS;
        if digit < 128 {
          return true, remaining;
        }
      }
    }

    method ReadNext() returns (message: Option<Message>)
      modifies this`rx
      ensures Reading(message, rx) == ReadPacket(old(rx))
    {
      hide ReadLength32;
      message := None;
      var ok, first := ReadByte();
      if !ok {
        return;
      }
      var remaining;
      ok, remaining := ReadRemaining();
      if !ok {
        return;
      }
      message := ReadContent(first / 16, remaining);
    }

    method ReadContent(kind: nat, length: Word) returns (message: Option<Message>)
      modifies this`rx
      ensures Reading(message, rx) == ReadBody(kind, length, old(rx))
    {
      message := None;
      var remaining := length;
      if kind == 3 {
        var gotHigh, high := ReadByte();
        if !gotHigh {
          return;
        }
        var gotLow, low := ReadByte();
        if !gotLow {
          return;
        }
        var topicLen: Word := high as int * 256 + low;
        remaining := Sub(remaining, 2);
        assert rx == old(rx)[2..];
        var gotTopic, topic := ReadBytes(topicLen);
        if !gotTopic {
          return;
        }
        remaining := Sub(remaining, topicLen);
        var gotPayload, payload := ReadBytes(remaining);
        if gotPayload {
          message := Some(Message(topic, payload));
        }
        return;
      }
      var _, _ := ReadBytes(remaining);
    }

    method Write(bytes: seq<Byte>)
      modifies this`tx
      ensures tx == old(tx) + bytes
    {
      tx := tx + bytes;
    }

    method WriteRemainingLength(length: Word)
      modifies this`tx
      ensures tx == old(tx) + EncodeLength(length)
    {
      var encoded := EncLen(length);
      Write(encoded);
    }

    method WriteString(value: seq<Byte>)
      modifies this`tx
      ensures tx == old(tx) + Text16(value)
    {
      ghost var before := tx;
      Write([|value| / 256 % 256]);
      Write([|value| % 256]);
      Write(value);
      assert tx == before + Text16(value);
    }

    /** Announces and emits one PUBLISH. */
    method Publish(topic: seq<Byte>, payload: seq<Byte>, retain: bool)
      requires 2 + |topic| + |payload| < MODULUS
      modifies this`tx
      ensures tx == old(tx) + Wire(Published(if retain then 1 else 0, topic, payload))
    {
      hide EncodeLength, Text16;
      ghost var before, p := tx, Published(if retain then 1 else 0, topic, payload);
      Text16Size(topic);
      Write([if retain then 0x31 else 0x30]);
      WriteRemainingLength(2 + |topic| + |payload|);
      WriteString(topic);
      Write(payload);
      Assemble(before, [FirstByte(p) as Byte], EncodeLength(2 + |topic| + |payload|), Text16(topic), payload);
    }

    method Subscribe(topic: seq<Byte>)
      requires 5 + |topic| < MODULUS && packetId < 0x1_0000
      modifies this`tx, this`packetId
      ensures tx == old(tx) + Wire(Other(8, 2, Length16(old(packetId)) + Text16(topic) + [0]))
      ensures packetId == (old(packetId) + 1) % 0x1_0000
    {
      hide EncodeLength;
      ghost var before, p := tx, Other(8, 2, Length16(packetId) + Text16(topic) + [0]);
      var id := packetId;
      packetId := (packetId + 1) % 0x1_0000;
      Write([0x82]);
      WriteRemainingLength(2 + 2 + |topic| + 1);
      Write([id / 256 % 256]);
      Write([id % 256]);
      WriteString(topic);
      Write([0]);
      assert |Body(p)| == 5 + |topic|;
      assert tx == before + ([FirstByte(p) as Byte] + EncodeLength(|Body(p)|) + (Length16(id) + Text16(topic) + [0]));
    }

    /** CONNECT, and the four bytes of the answer. */
    method Connect(client: seq<Byte>, user: seq<Byte>, password: seq<Byte>) returns (ok: bool)
      requires 16 + |client| + |user| + |password| < MODULUS
      modifies this`rx, this`tx
      ensures tx == old(tx) + Wire(Other(1, 0, ConnectBody(client, user, password)))
      ensures ok == Accepted(old(rx)) && (ok ==> rx == old(rx)[4..])
    {
      hide EncodeLength, Text16;
      ghost var before, body := tx, ConnectBody(client, user, password);
      ConnectSize(client, user, password);
      var remaining := 10 + 2 + |client|;
      if user != [] {
        remaining := remaining + 2 + |user|;
      }
      if password != [] {
        remaining := remaining + 2 + |password|;
      }
      Write([0x10]);
      WriteRemainingLength(remaining);
      WriteConnectBody(client, user, password);
      Assemble(before, [0x10], EncodeLength(|body|), body, []);
      assert before + [0x10] + EncodeLength(|body|) + body + [] == before + [0x10] + EncodeLength(|body|) + body;
      assert body + [] == body;
      ok := ReadConnack();
    }

    method WriteConnectHead(user: bool, password: bool)
      modifies this`tx
      ensures tx == old(tx) + ConnectHead(user, password)
    {
      hide Text16;
      ghost var before := tx;
      WriteString(PROTOCOL);
      Write([4]);
      var flags: Byte := 2;
      if user {
        flags := flags + 128;
      }
      if password {
        flags := flags + 64;
      }
      Write([flags]);
      Write([0]);
      Write([30]);
      assert tx == before + (Text16(PROTOCOL) + [4, flags, 0, 30]);
    }

    method WriteConnectBody(client: seq<Byte>, user: seq<Byte>, password: seq<Byte>)
      modifies this`tx
      ensures tx == old(tx) + ConnectBody(client, user, password)
    {
      hide Text16, ConnectHead;
      ghost var before := tx;
      WriteConnectHead(user != [], password != []);
      WriteString(client);
      if user != [] {
        WriteString(user);
      }
      if password != [] {
        WriteString(password);
      }
      assert tx == before + ConnectHead(user != [], password != []) + Text16(client) + Given(user) + Given(password);
    }

    method ReadConnack() returns (ok: bool)
      modifies this`rx
      ensures ok == Accepted(old(rx)) && (ok ==> rx == old(rx)[4..])
    {
      ghost var all := rx;
      var b;
      ok, b := ReadByte();
      if !ok || b != 0x20 {
        return false;
      }
      ok, b := ReadByte();
      if !ok || b != 2 {
        return false;
      }
      ok, b := ReadByte();
      if !ok {
        return false;
      }
      assert rx == all[3..];
      ok, b := ReadByte();
      ok := ok && b == 0;
    }
  }

  // ---------------------------------------------------------------------------------
  // CONNECT
  // ---------------------------------------------------------------------------------

  const PROTOCOL: seq<Byte> := [77, 81, 84, 84]

  function ConnectFlags(user: bool, password: bool): Byte {
    2 + (if user then 128 else 0) + (if password then 64 else 0)
  }

  /** Empty credentials are not sent. */
  function Given(s: seq<Byte>): seq<Byte> {
    if s == [] then [] else Text16(s)
  }

  function ConnectHead(user: bool, password: bool): seq<Byte> {
    Text16(PROTOCOL) + [4, ConnectFlags(user, password), 0, 30]
  }

  function ConnectBody(client: seq<Byte>, user: seq<Byte>, password: seq<Byte>): seq<Byte> {
    ConnectHead(user != [], password != []) + Text16(client) + Given(user) + Given(password)
  }

  lemma {:induction false} ConnectSize(client: seq<Byte>, user: seq<Byte>, password: seq<Byte>)
    ensures |ConnectBody(client, user, password)|
      == 10 + 2 + |client| + (if user != [] then 2 + |user| else 0) + (if password != [] then 2 + |password| else 0)
  {}

  predicate Accepted(answer: seq<Byte>) {
    |answer| >= 4 && answer[0] == 0x20 && answer[1] == 2 && answer[3] == 0
  }

  /** A session without a will. */
  datatype Connection = Connection(client: seq<Byte>, user: Option<seq<Byte>>, password: Option<seq<Byte>>,
                                   clean: bool, keepAlive: nat)

  function ReadText(s: seq<Byte>): Option<(seq<Byte>, seq<Byte>)> {
    if |s| < 2 then None
    else
      var n := s[0] as int * 256 + s[1];
      if |s| < 2 + n then None else Some((s[2..2 + n], s[2 + n..]))
  }

  function ReadGiven(present: bool, s: seq<Byte>): Option<(Option<seq<Byte>>, seq<Byte>)> {
    if !present then Some((None, s))
    else
      match ReadText(s)
      case None => None
      case Some((text, rest)) => Some((Some(text), rest))
  }

  /** A server's reading of a CONNECT without a will: section 3.1 wants the name and the level of
      the protocol, and forbids the reserved flag, a password without a user name, and bytes left
      over. */
  function ReadConnect(body: seq<Byte>): Option<Connection> {
    if |body| < 10 || body[..7] != [0, 4, 0x4D, 0x51, 0x54, 0x54, 4] then None
    else
      var user, password, will := body[7] / 128 == 1, body[7] / 64 % 2 == 1, body[7] / 4 % 16;
      var clean, reserved := body[7] / 2 % 2 == 1, body[7] % 2;
      if (password && !user) || will != 0 || reserved != 0 then None
      else
        match ReadText(body[10..])
        case None => None
        case Some((client, s)) =>
          match ReadGiven(user, s)
          case None => None
          case Some((name, t)) =>
            match ReadGiven(password, t)
            case None => None
            case Some((secret, rest)) =>
              if rest == [] then Some(Connection(client, name, secret, clean, body[8] as int * 256 + body[9])) else None
  }

  lemma {:induction false} TextReads(s: seq<Byte>, rest: seq<Byte>)
    requires |s| < 0x1_0000
    ensures ReadText(Text16(s) + rest) == Some((s, rest))
  {
    var all := Text16(s) + rest;
    assert all[0] as int * 256 + all[1] == |s|;
    assert all[2..2 + |s|] == s && all[2 + |s|..] == rest;
  }

  lemma {:induction false} GivenReads(s: seq<Byte>, rest: seq<Byte>)
    requires |s| < 0x1_0000
    ensures ReadGiven(s != [], Given(s) + rest) == Some((if s == [] then None else Some(s), rest))
  {
    hide Text16, ReadText;
    if s == [] {
      assert Given(s) + rest == rest;
    } else {
      TextReads(s, rest);
    }
  }

  lemma {:induction false} ConnectHeader(client: seq<Byte>, user: seq<Byte>, password: seq<Byte>)
    ensures var body := ConnectBody(client, user, password);
      && |body| >= 10 && body[..7] == [0, 4, 0x4D, 0x51, 0x54, 0x54, 4]
      && body[7] == ConnectFlags(user != [], password != []) && body[8] == 0 && body[9] == 30
      && body[10..] == Text16(client) + (Given(user) + Given(password))
  {
    hide Text16, Given;
    var flags := ConnectFlags(user != [], password != []);
    var head, tail := Text16(PROTOCOL) + [4, flags, 0, 30], Text16(client) + (Given(user) + Given(password));
    ProtocolName();
    assert ConnectBody(client, user, password) == head + tail;
    HeadTail(head, tail);
  }

  lemma {:induction false} ProtocolName()
    ensures Text16(PROTOCOL) == [0, 4, 0x4D, 0x51, 0x54, 0x54]
  {}

  lemma {:induction false} HeadTail(head: seq<Byte>, tail: seq<Byte>)
    requires |head| == 10
    ensures var all := head + tail;
      all[..7] == head[..7] && all[7] == head[7] && all[8] == head[8] && all[9] == head[9] && all[10..] == tail
  {}

  /** The server understands the device's CONNECT if and only if it does not carry a password
      without a user name: a clean session, to be kept alive every 30 seconds. */
  lemma {:induction false} ConnectIsUnderstood(client: seq<Byte>, user: seq<Byte>, password: seq<Byte>)
    requires |client| < 0x1_0000 && |user| < 0x1_0000 && |password| < 0x1_0000
    ensures ReadConnect(ConnectBody(client, user, password)) ==
      if user == [] && password != [] then None
      else
        Some(Connection(client, if user == [] then None else Some(user),
                        if password == [] then None else Some(password), true, 30))
  {
    hide Text16, Given, ReadText, ReadGiven, ConnectBody;
    ConnectHeader(client, user, password);
    TextReads(client, Given(user) + Given(password));
    GivenReads(user, Given(password));
    GivenReads(password, []);
    assert Given(password) + [] == Given(password);
  }

  // ---------------------------------------------------------------------------------
  // CONNACK and SUBSCRIBE
  // ---------------------------------------------------------------------------------

  lemma {:induction false} ShortPacket(p: Packet, rest: seq<Byte>)
    requires WellFormed(p) && FirstByte(p) < 256
    ensures var s := Wire(p) + rest;
      && |s| >= 2 && s[0] == FirstByte(p)
      && (s[1] == 2 <==> |Body(p)| == 2)
      && (|Body(p)| == 2 ==> s == [FirstByte(p) as Byte, 2] + Body(p) + rest)
  {
    hide Body;
    if |Body(p)| < 128 {
      assert EncodeLength(|Body(p)|) == [|Body(p)|];
    }
  }

  /** Of all packets a server may answer with (section 3.2), the device takes for its acceptance
      exactly the CONNACK of two bytes with the return code 0. */
  lemma {:induction false} AcceptedIff(p: Packet, rest: seq<Byte>)
    requires WellFormed(p)
    ensures FirstByte(p) < 256 && (Accepted(Wire(p) + rest) <==>
      p.Other? && p.kind == 2 && p.flags == 0 && |p.content| == 2 && p.content[1] == 0)
  {
    KindReads(p);
    ShortPacket(p, rest);
    hide EncodeLength, Wire;
    var s := Wire(p) + rest;
    if |Body(p)| == 2 {
      assert s[2..4] == Body(p);
      assert s[3] == Body(p)[1];
    }
  }

  /** A server's reading of a SUBSCRIBE with one topic filter (section 3.8): the packet
      identifier, the filter and the quality of service. */
  function ReadSubscribe(content: seq<Byte>): Option<(nat, seq<Byte>, nat)> {
    if |content| < 2 then None
    else
      match ReadText(content[2..])
      case None => None
      case Some((topic, rest)) =>
        if |rest| != 1 || rest[0] > 2 then None else Some((content[0] as int * 256 + content[1], topic, rest[0]))
  }

  /** The server reads the subscription the device asked for. */
  lemma {:induction false} SubscribeIsUnderstood(id: nat, topic: seq<Byte>)
    requires id < 0x1_0000 && |topic| < 0x1_0000
    ensures ReadSubscribe(Length16(id) + Text16(topic) + [0]) == Some((id, topic, 0))
  {
    hide Text16, ReadText;
    var content := Length16(id) + Text16(topic) + [0];
    assert content[2..] == Text16(topic) + [0];
    TextReads(topic, [0]);
    assert id / 256 % 256 * 256 + id % 256 == id;
  }

  // ---------------------------------------------------------------------------------
  // The device stays in step
  // ---------------------------------------------------------------------------------

  lemma {:induction false} LengthReads(first: Byte, n: Word, body: seq<Byte>, rest: seq<Byte>)
    ensures var rx := [first] + EncodeLength(n) + body + rest;
      rx[1..] == EncodeLength(n) + (body + rest) && ReadLength32(rx[1..], 1, 0) == Some((n, body + rest))
  {
    hide EncodeLength, ReadLength32;
    LengthRoundTrip(n, body + rest);
    assert ([first] + EncodeLength(n) + body + rest)[1..] == EncodeLength(n) + (body + rest);
  }

  lemma {:induction false} TopicSplits(topic: seq<Byte>, payload: seq<Byte>, rest: seq<Byte>, n: nat)
    requires n == |topic| % 0x1_0000
    ensures var t := topic + payload + rest;
      && |t| >= n && t[n..][|topic| + |payload| - n..] == rest
      && (|topic| < 0x1_0000 ==> t[..n] == topic && t[n..][..|payload|] == payload)
  {
    var t := topic + payload + rest;
    assert t[n..][|topic| + |payload| - n..] == rest;
    if |topic| < 0x1_0000 {
      assert t[..n] == topic && t[n..][..|payload|] == payload;
    }
  }

  lemma {:induction false} LengthPrefix(topic: seq<Byte>, rest: seq<Byte>)
    ensures var s := Text16(topic) + rest;
      |s| >= 2 && s[0] as int * 256 + s[1] == |topic| % 0x1_0000 && s[2..] == topic + rest
  {
    var n := |topic|;
    assert n / 256 % 256 * 256 + n % 256 == n % 0x1_0000;
  }

  lemma {:induction false} Taken(a: nat, b: nat, n: nat)
    requires 2 + a + b < MODULUS && n <= a
    ensures Sub(Sub(2 + a + b, 2), n) == a + b - n
  {}

  lemma {:induction false} PublishBodyReads(topic: seq<Byte>, payload: seq<Byte>, rest: seq<Byte>)
    requires 2 + |topic| + |payload| < MODULUS
    ensures var r := ReadBody(3, 2 + |topic| + |payload|, Text16(topic) + payload + rest);
      && r.rest == rest && r.message.Some? && |r.message.value.topic| == |topic| % 0x1_0000
      && (|topic| < 0x1_0000 ==> r.message == Some(Message(topic, payload)))
  {
    hide Text16, Sub;
    var n := |topic| % 0x1_0000;
    assert Text16(topic) + payload + rest == Text16(topic) + (payload + rest);
    LengthPrefix(topic, payload + rest);
    assert topic + (payload + rest) == topic + payload + rest;
    TopicSplits(topic, payload, rest, n);
    Taken(|topic|, |payload|, n);
  }

  lemma {:induction false} BodyReads(p: Packet, rest: seq<Byte>)
    requires p.flags < 16 && |Body(p)| < MODULUS && (p.Other? ==> p.kind != 3)
    ensures var kind := if p.Published? then 3 else p.kind;
      var r := ReadBody(kind, |Body(p)|, Body(p) + rest);
      && r.rest == rest
      && (p.Other? ==> r.message == None)
      && (p.Published? ==> r.message.Some? && |r.message.value.topic| == |p.topic| % 0x1_0000)
      && (p.Published? && |p.topic| < 0x1_0000 ==> r.message == Some(Message(p.topic, p.payload)))
  {
    hide Text16;
    match p {
      case Other(_, _, content) =>
        assert (content + rest)[|content|..] == rest;
      case Published(_, topic, payload) =>
        Text16Size(topic);
        hide ReadBody;
        PublishBodyReads(topic, payload, rest);
    }
  }

  lemma {:induction false} KindReads(p: Packet)
    requires p.flags < 16 && (p.Other? ==> p.kind < 16)
    ensures FirstByte(p) < 256 && FirstByte(p) / 16 == if p.Published? then 3 else p.kind
  {}

  /** A packet is read exactly: its message, if it is a PUBLISH, and not a byte more. */
  lemma {:induction false} PacketReads(p: Packet, rest: seq<Byte>)
    requires WellFormed(p)
    ensures ReadPacket(Wire(p) + rest)
      == Reading(if p.Published? then Some(Message(p.topic, p.payload)) else None, rest)
  {
    hide EncodeLength, ReadLength32, ReadBody, Body;
    KindReads(p);
    LengthReads(FirstByte(p), |Body(p)|, Body(p), rest);
    BodyReads(p, rest);
    var rx := [FirstByte(p) as Byte] + EncodeLength(|Body(p)|) + Body(p) + rest;
    assert Wire(p) + rest == rx && rx[0] == FirstByte(p);
  }

  /** A PUBLISH is read back if and only if the length of its topic fits in 16 bits; the
      stream stays in step either way. */
  lemma {:induction false} PublishReadsBackIff(flags: nat, topic: seq<Byte>, payload: seq<Byte>, rest: seq<Byte>)
    requires flags < 16 && 2 + |topic| + |payload| < MODULUS
    ensures var r := ReadPacket(Wire(Published(flags, topic, payload)) + rest);
      r.rest == rest && (r.message == Some(Message(topic, payload)) <==> |topic| < 0x1_0000)
  {
    hide EncodeLength, ReadLength32, ReadBody, Body;
    var p := Published(flags, topic, payload);
    BodySize(p);
    KindReads(p);
    LengthReads(FirstByte(p), |Body(p)|, Body(p), rest);
    BodyReads(p, rest);
    var rx := [FirstByte(p) as Byte] + EncodeLength(|Body(p)|) + Body(p) + rest;
    assert Wire(p) + rest == rx && rx[0] == FirstByte(p);
  }

  lemma {:induction false} BodySize(p: Packet)
    requires p.Published?
    ensures |Body(p)| == 2 + |p.topic| + |p.payload|
  {}

  /** A PUBLISH that announces fewer bytes than its own topic takes: the difference wraps to nearly
      2^32, so the device delivers nothing and loses all that has arrived. */
  lemma {:induction false} UndersizedPublishIsLost(remaining: Word, s: seq<Byte>)
    requires |s| < 0x8000_0000 && (|s| >= 2 ==> remaining < 2 + s[0] as int * 256 + s[1])
    ensures ReadBody(3, remaining, s) == Reading(None, [])
  {
    if |s| >= 2 {
      var topicLen := s[0] as int * 256 + s[1];
      WrapsHigh(remaining, topicLen);
    }
  }

  lemma {:induction false} WrapsHigh(remaining: Word, topicLen: nat)
    requires topicLen < 0x1_0000 && remaining < 2 + topicLen
    ensures Sub(Sub(remaining, 2), topicLen) == MODULUS + remaining - 2 - topicLen
  {}

  /** `n` calls of `poll`: the messages it delivered, and the bytes left. */
  function Poll(rx: seq<Byte>, n: nat): (seq<Message>, seq<Byte>)
    decreases n
  {
    if n == 0 then ([], rx)
    else
      var r := ReadPacket(rx);
      var (more, rest) := Poll(r.rest, n - 1);
      ((if r.message.Some? then [r.message.value] else []) + more, rest)
  }

  /** On any packets, whatever follows them, the device delivers exactly the published
      messages, in order, skips the rest, and stops at the last packet's end. */
  lemma {:induction false} DeviceStaysInStep(ps: seq<Packet>, tail: seq<Byte>)
    requires AllWellFormed(ps)
    ensures Poll(WireAll(ps) + tail, |ps|) == (Messages(ps), tail)
    decreases |ps|
  {
    hide WellFormed, ReadPacket;
    if ps == [] {
      assert WireAll(ps) + tail == tail;
    } else {
      WellFormedFirst(ps);
      DeviceStaysInStep(ps[1..], tail);
      PacketReads(ps[0], WireAll(ps[1..]) + tail);
      assert Wire(ps[0]) + WireAll(ps[1..]) + tail == Wire(ps[0]) + (WireAll(ps[1..]) + tail);
    }
  }

  lemma {:induction false} WellFormedFirst(ps: seq<Packet>)
    requires AllWellFormed(ps) && ps != []
    ensures WellFormed(ps[0]) && AllWellFormed(ps[1..]) && FirstByte(ps[0]) < 256
  {}

  // ---------------------------------------------------------------------------------
  // The controller
  // ---------------------------------------------------------------------------------

  /** What `recv_packet` returns, and the bytes left; None when the connection closes. */
  function RecvPacket(rx: seq<Byte>): Option<(nat, nat, seq<Byte>, seq<Byte>)> {
    if rx == [] then None
    else
      match ReadLength(rx[1..], 1, 0)
      case None => None
      case Some((remaining, s)) =>
        if |s| < remaining then None else Some((rx[0] / 16, rx[0] % 16, s[..remaining], s[remaining..]))
  }

  /** `parse_publish`, before its topic is decoded; slices clamp, but two bytes there must be. */
  function ParsePublish(payload: seq<Byte>): Option<Message> {
    if |payload| < 2 then None
    else
      var end := 2 + payload[0] as int * 256 + payload[1];
      if end <= |payload| then Some(Message(payload[2..end], payload[end..])) else Some(Message(payload[2..], []))
  }

  class MqttClient {
    var rx: seq<Byte>
    var tx: seq<Byte>

    constructor (arriving: seq<Byte>)
      ensures rx == arriving && tx == []
    {
      rx, tx := arriving, [];
    }

    /** `recv_exact` */
    method RecvExact(size: nat) returns (data: Option<seq<Byte>>)
      modifies this`rx
      ensures if size <= |old(rx)| then data == Some(old(rx)[..size]) && rx == old(rx)[size..] else data == None
    {
      if |rx| < size {
        return None;
      }
      data, rx := Some(rx[..size]), rx[size..];
    }

    method RecvLength() returns (remaining: Option<nat>)
      modifies this`rx
      ensures var r := ReadLength(old(rx), 1, 0);
        if r.None? then remaining == None else remaining == Some(r.value.0) && rx == r.value.1
    {
      var multiplier: nat, sum: nat := 1, 0;
      while true
        invariant ReadLength(rx, multiplier, sum) == ReadLength(old(rx), 1, 0)
        decreases |rx|
      {
        var digit := RecvExact(1);
        if digit == None {
          return None;
        }
        sum := sum + digit.value[0] % 128 * multiplier;
        if digit.value[0] < 128 {
          return Some(sum);
        }
        multiplier := multiplier * 128;
      }
    }

    method RecvNext() returns (packet: Option<(nat, nat, seq<Byte>)>)
      modifies this`rx
      ensures match RecvPacket(old(rx))
        case None => packet == None
        case Some((kind, flags, payload, rest)) => packet == Some((kind, flags, payload)) && rx == rest
    {
      hide ReadLength;
      var first := RecvExact(1);
      if first == None {
        return None;
      }
      var remaining := RecvLength();
      if remaining == None {
        return None;
      }
      var payload := RecvExact(remaining.value);
      if payload == None {
        return None;
      }
      packet := Some((first.value[0] / 16, first.value[0] % 16, payload.value));
    }

    /** Refused when the topic's length does not fit in 16 bits. */
    method Publish(topic: seq<Byte>, raw: seq<Byte>, retain: bool) returns (ok: bool)
      modifies this`tx
      ensures ok == (|topic| < 0x1_0000)
      ensures tx == if ok then old(tx) + Wire(Published(if retain then 1 else 0, topic, raw)) else old(tx)
    {
      if |topic| >= 0x1_0000 {
        return false;
      }
      var body := Text16(topic) + raw;
      var size := EncLen(|body|);
      tx := tx + ([if retain then 0x31 else 0x30] + size + body);
      ok := true;
    }
  }

  /** The first `n` packets as `MqttClient.read` returns them; None when it raises. */
  function ReadAll(rx: seq<Byte>, n: nat): Option<(seq<Message>, seq<Byte>)>
    decreases n
  {
    if n == 0 then Some(([], rx))
    else
      match RecvPacket(rx)
      case None => None
      case Some((kind, flags, payload, rest)) =>
        if kind == 3 && ParsePublish(payload) == None then None
        else
          match ReadAll(rest, n - 1)
          case None => None
          case Some((more, left)) => Some(((if kind == 3 then [ParsePublish(payload).value] else []) + more, left))
  }

  lemma {:induction false} PacketReceived(p: Packet, rest: seq<Byte>)
    requires WellFormed(p)
    ensures FirstByte(p) < 256
    ensures RecvPacket(Wire(p) + rest) == Some((if p.Published? then 3 else p.kind, p.flags, Body(p), rest))
  {
    hide EncodeLength, ReadLength, Body;
    KindReads(p);
    var s := Body(p) + rest;
    var rx := [FirstByte(p) as Byte] + EncodeLength(|Body(p)|) + Body(p) + rest;
    assert rx[1..] == EncodeLength(|Body(p)|) + s;
    LengthRoundTrip(|Body(p)|, s);
    assert Wire(p) + rest == rx && rx[0] == FirstByte(p);
    assert s[..|Body(p)|] == Body(p) && s[|Body(p)|..] == rest;
  }

  lemma {:induction false} ReadLengthExtends(s: seq<Byte>, t: seq<Byte>, multiplier: nat, remaining: nat)
    requires ReadLength(s, multiplier, remaining).Some?
    ensures var (n, rest) := ReadLength(s, multiplier, remaining).value;
      ReadLength(s + t, multiplier, remaining) == Some((n, rest + t))
    decreases |s|
  {
    assert (s + t)[0] == s[0] && (s + t)[1..] == s[1..] + t;
    if s[0] >= 128 {
      ReadLengthExtends(s[1..], t, multiplier * 128, remaining + s[0] % 128 * multiplier);
    }
  }

  /** A packet that is cut short is not received: the controller waits for the rest, and fails if
      the connection closes instead. */
  lemma {:induction false} CutPacketIsNotReceived(p: Packet, n: nat)
    requires WellFormed(p) && FirstByte(p) < 256 && n < |Wire(p)|
    ensures RecvPacket(Wire(p)[..n]) == None
  {
    hide EncodeLength, Body, ReadLength;
    var size, head := |Body(p)|, [FirstByte(p) as Byte] + EncodeLength(|Body(p)|);
    var s := Wire(p)[..n];
    if s != [] && ReadLength(s[1..], 1, 0).Some? {
      var t := Wire(p)[n..];
      ReadLengthExtends(s[1..], t, 1, 0);
      assert s[1..] + t == Wire(p)[1..] == EncodeLength(size) + Body(p);
      LengthRoundTrip(size, Body(p));
      assert |t| > 0;
    }
  }

  /** A PUBLISH too short for a topic's length is refused; one too short for the topic it announces
      is all topic. */
  lemma {:induction false} ShortPublishParses(payload: seq<Byte>)
    ensures ParsePublish(payload) == None <==> |payload| < 2
    ensures |payload| >= 2 && |payload| < 2 + payload[0] as int * 256 + payload[1] ==>
      ParsePublish(payload) == Some(Message(payload[2..], []))
  {}

  /** The retain flag arrives as it was set. */
  lemma {:induction false} RetainArrives(topic: seq<Byte>, payload: seq<Byte>, retain: bool, rest: seq<Byte>)
    requires |topic| < 0x1_0000 && 2 + |topic| + |payload| < MODULUS
    ensures var r := RecvPacket(Wire(Published(if retain then 1 else 0, topic, payload)) + rest);
      r.Some? && r.value.0 == 3 && (r.value.1 % 2 == 1 <==> retain)
  {
    hide EncodeLength, ReadLength, RecvPacket, Text16;
    Text16Size(topic);
    PacketReceived(Published(if retain then 1 else 0, topic, payload), rest);
  }

  lemma {:induction false} BodyParses(p: Packet)
    requires p.Published? && |p.topic| < 0x1_0000
    ensures ParsePublish(Body(p)) == Some(Message(p.topic, p.payload))
  {
    var body := Body(p);
    assert body[0] as int * 256 + body[1] == |p.topic|;
    assert body[2..2 + |p.topic|] == p.topic && body[2 + |p.topic|..] == p.payload;
  }

  /** The controller, on the same bytes, delivers the same messages and stops at the same
      place. */
  lemma {:induction false} ControllerStaysInStep(ps: seq<Packet>, tail: seq<Byte>)
    requires AllWellFormed(ps)
    ensures ReadAll(WireAll(ps) + tail, |ps|) == Some((Messages(ps), tail))
    decreases |ps|
  {
    hide RecvPacket, ParsePublish, Body;
    if ps == [] {
      assert WireAll(ps) + tail == tail;
    } else {
      WellFormedFirst(ps);
      ControllerStaysInStep(ps[1..], tail);
      PacketReceived(ps[0], WireAll(ps[1..]) + tail);
      if ps[0].Published? {
        BodyParses(ps[0]);
      }
      assert Wire(ps[0]) + WireAll(ps[1..]) + tail == Wire(ps[0]) + (WireAll(ps[1..]) + tail);
    }
  }
}
