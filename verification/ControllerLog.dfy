/** The controller's memory of what it received: a bounded log, the newest payload of each
    topic, and byte counts by link. */
module ControllerLog {
  import opened Bytes
  import Text

  // ---------------------------------------------------------------------------------
  // State
  // ---------------------------------------------------------------------------------

  /** A decoded payload: a dictionary, its values as `str` gives them and, where `int` takes
      them, as numbers, and which of them are strings; or anything else. */
  datatype Payload =
    | Fields(values: map<string, string>, numbers: map<string, int>, texts: set<string>)
    | Plain(text: string)

  datatype Entry = Entry(topic: string, payload: Payload, retain: bool)

  datatype Traffic = Traffic(up: nat, down: nat)

  datatype State = State(messages: seq<Entry>, retained: map<string, Payload>, traffic: map<string, Traffic>)

  /** A message received, with the size it had on the wire, or one sent. */
  datatype Event = Received(entry: Entry, size: nat) | Sent(size: nat)

  const LOG_LIMIT: nat := 200

  const WIFI := "wifi"
  const LTE := "lte"

  function Start(): State {
    State([], map[], map[WIFI := Traffic(0, 0), LTE := Traffic(0, 0)])
  }

  // ---------------------------------------------------------------------------------
  // Topics and links
  // ---------------------------------------------------------------------------------

  /** `rstrip("/")` */
  function StripSlashes(s: string): string {
    if s != "" && s[|s| - 1] == '/' then StripSlashes(s[..|s| - 1]) else s
  }

  function Topic(prefix: string, suffix: string): string {
    StripSlashes(prefix) + "/" + suffix
  }

  function Suffix(prefix: string, topic: string): string {
    var start := StripSlashes(prefix) + "/";
    if start <= topic then topic[|start|..] else topic
  }

  /** Topics the controller publishes on itself. */
  predicate Own(suffix: string) {
    suffix == "console/cmd" || suffix == "fs/jobs" || suffix == "ota/jobs"
    || suffix == "rdm/alive/request" || suffix == "rdm/transport/set"
  }

  function Lower(s: string): (r: string)
    ensures |r| == |s|
    ensures forall i :: 0 <= i < |s| ==> r[i] == if 'A' <= s[i] <= 'Z' then (s[i] as int + 32) as char else s[i]
  {
    if s == "" then "" else [if 'A' <= s[0] <= 'Z' then (s[0] as int + 32) as char else s[0]] + Lower(s[1..])
  }

  function Get(values: map<string, string>, key: string, default: string): string {
    if key in values then values[key] else default
  }

  /** The link a pair of fields names, if any. */
  function NamedLink(active: string, transport: string): Option<string> {
    if active == WIFI || active == LTE then Some(active)
    else if Text.Contains(transport, LTE) then Some(LTE)
    else if Text.Contains(transport, "cellular") || Text.Contains(transport, "simcom") then Some(LTE)
    else if Text.Contains(transport, WIFI) then Some(WIFI)
    else None
  }

  function PayloadLink(p: Payload): Option<string> {
    if p.Plain? then None
    else NamedLink(Lower(Get(p.values, "active_link", "")), Lower(Get(p.values, "transport", "")))
  }

  function RetainedLink(p: Payload): Option<string> {
    if p.Plain? then None
    else
      NamedLink(Lower(Get(p.values, "active_link", "")),
                Lower(Get(p.values, "transport", Get(p.values, "mqtt_transport", ""))))
  }

  const STATE_TOPICS: seq<string> := ["rdm/alive", "rdm/state", "status"]

  function FirstRetainedLink(retained: map<string, Payload>, prefix: string, suffixes: seq<string>): string {
    if suffixes == [] then WIFI
    else
      var t := Topic(prefix, suffixes[0]);
      var link := if t in retained then RetainedLink(retained[t]) else None;
      if link.Some? then link.value else FirstRetainedLink(retained, prefix, suffixes[1..])
  }

  /** `_infer_link_unlocked` */
  function InferLink(retained: map<string, Payload>, prefix: string, payload: Option<Payload>): string {
    var link := if payload.Some? then PayloadLink(payload.value) else None;
    if link.Some? then link.value else FirstRetainedLink(retained, prefix, STATE_TOPICS)
  }

  // ---------------------------------------------------------------------------------
  // Steps
  // ---------------------------------------------------------------------------------

  function Last<T>(s: seq<T>, n: nat): seq<T> {
    if |s| <= n then s else s[|s| - n..]
  }

  /** `_add_transfer_unlocked` for MQTT */
  function AddTransfer(traffic: map<string, Traffic>, link: string, up: bool, count: nat): map<string, Traffic> {
    if link != WIFI && link != LTE then traffic
    else
      var t := if link in traffic then traffic[link] else Traffic(0, 0);
      traffic[link := if up then t.(up := t.up + count) else t.(down := t.down + count)]
  }

  /** `record` */
  function Record(s: State, prefix: string, e: Entry, size: nat): State {
    var t := State(Last(s.messages + [e], LOG_LIMIT), s.retained[e.topic := e.payload], s.traffic);
    if Own(Suffix(prefix, e.topic)) then t
    else t.(traffic := AddTransfer(t.traffic, InferLink(t.retained, prefix, Some(e.payload)), true, size))
  }

  /** The accounting of a message sent. */
  function Send(s: State, prefix: string, size: nat): State {
    s.(traffic := AddTransfer(s.traffic, InferLink(s.retained, prefix, None), false, size))
  }

  function Step(s: State, prefix: string, e: Event): State {
    match e
    case Received(entry, size) => Record(s, prefix, entry, size)
    case Sent(size) => Send(s, prefix, size)
  }

  function Run(prefix: string, events: seq<Event>): State {
    if events == [] then Start() else Step(Run(prefix, events[..|events| - 1]), prefix, events[|events| - 1])
  }

  /** The payload of the newest message on a topic. */
  function Newest(messages: seq<Entry>, topic: string): Option<Payload> {
    if messages == [] then None
    else
      var e := messages[|messages| - 1];
      if e.topic == topic then Some(e.payload) else Newest(messages[..|messages| - 1], topic)
  }

  /** One test of `wait_for_file_ack`. */
  predicate IsAck(e: Entry, topic: string, job: string, seqNo: int, statuses: set<string>) {
    && e.topic == topic && e.payload.Fields?
    && "job_id" in e.payload.texts && "job_id" in e.payload.values && e.payload.values["job_id"] == job
    && (if "seq" in e.payload.numbers then e.payload.numbers["seq"] else -1) == seqNo
    && Get(e.payload.values, "status", "") in statuses
  }

  /** The newest acknowledgement that passes. */
  function NewestAck(messages: seq<Entry>, topic: string, job: string, seqNo: int,
        statuses: set<string>): Option<Payload> {
    if messages == [] then None
    else
      var e := messages[|messages| - 1];
      if IsAck(e, topic, job, seqNo, statuses) then Some(e.payload)
      else NewestAck(messages[..|messages| - 1], topic, job, seqNo, statuses)
  }

  class AppState {
    const prefix: string
    var messages: seq<Entry>
    var retained: map<string, Payload>
    var traffic: map<string, Traffic>

    constructor (prefix: string)
      ensures this.prefix == prefix && Now() == Start()
    {
      this.prefix := prefix;
      messages, retained, traffic := [], map[], map[WIFI := Traffic(0, 0), LTE := Traffic(0, 0)];
    }

    ghost function Now(): State
      reads this
    {
      State(messages, retained, traffic)
    }

    method InferLinkOf(payload: Option<Payload>) returns (link: string)
      ensures link == InferLink(retained, prefix, payload)
    {
      hide NamedLink, Topic;
      if payload.Some? {
        var named := PayloadLink(payload.value);
        if named.Some? {
          return named.value;
        }
      }
      var suffixes := STATE_TOPICS;
      for i := 0 to |suffixes|
        invariant FirstRetainedLink(retained, prefix, suffixes[i..]) == FirstRetainedLink(retained, prefix, suffixes)
      {
        assert suffixes[i..][1..] == suffixes[i + 1..];
        var t := Topic(prefix, suffixes[i]);
        if t in retained {
          var named := RetainedLink(retained[t]);
          if named.Some? {
            return named.value;
          }
        }
      }
      link := WIFI;
    }

    method AddTransferTo(link: string, up: bool, count: nat)
      modifies this`traffic
      ensures traffic == AddTransfer(old(traffic), link, up, count)
    {
      if link != WIFI && link != LTE {
        return;
      }
      if link !in traffic {
        traffic := traffic[link := Traffic(0, 0)];
      }
      var t := traffic[link];
      traffic := traffic[link := if up then t.(up := t.up + count) else t.(down := t.down + count)];
    }

    method RecordMessage(topic: string, payload: Payload, retain: bool, size: nat)
      modifies this
      ensures Now() == Record(old(Now()), prefix, Entry(topic, payload, retain), size)
    {
      hide InferLink, Suffix, AddTransfer;
      messages := messages + [Entry(topic, payload, retain)];
      messages := if |messages| > 200 then messages[|messages| - 200..] else messages;
      retained := retained[topic := payload];
      var suffix := Suffix(prefix, topic);
      if !Own(suffix) {
        var link := InferLinkOf(Some(payload));
        AddTransferTo(link, true, size);
      }
    }

    method RecordSent(size: nat)
      modifies this`traffic
      ensures Now() == Send(old(Now()), prefix, size)
    {
      hide InferLink, AddTransfer;
      var link := InferLinkOf(None);
      AddTransferTo(link, false, size);
    }

    /** One pass of the loop of `wait_for_file_ack`. */
    method FindFileAck(job: string, seqNo: int, statuses: set<string>) returns (payload: Option<Payload>)
      ensures payload == NewestAck(messages, Topic(prefix, "fs/ack"), job, seqNo, statuses)
      ensures payload.Some? ==>
        exists i :: 0 <= i < |messages| && messages[i].topic == Topic(prefix, "fs/ack")
          && payload == Some(messages[i].payload) && ForJob(payload.value, job, seqNo, statuses)
    {
      hide Topic, IsAck;
      NewestAckIs(messages, Topic(prefix, "fs/ack"), job, seqNo, statuses);
      var topic := Topic(prefix, "fs/ack");
      assert messages[..|messages|] == messages;
      for i := |messages| downto 0
        invariant NewestAck(messages, topic, job, seqNo, statuses)
               == NewestAck(messages[..i], topic, job, seqNo, statuses)
      {
        assert messages[..i + 1][..i] == messages[..i];
        if IsAck(messages[i], topic, job, seqNo, statuses) {
          return Some(messages[i].payload);
        }
      }
      payload := None;
    }

    method LatestPayload(suffix: string) returns (payload: Option<Payload>)
      ensures payload == Newest(messages, Topic(prefix, suffix))
    {
      hide Topic;
      var topic := Topic(prefix, suffix);
      assert messages[..|messages|] == messages;
      for i := |messages| downto 0
        invariant Newest(messages, topic) == Newest(messages[..i], topic)
      {
        assert messages[..i + 1][..i] == messages[..i];
        if messages[i].topic == topic {
          return Some(messages[i].payload);
        }
      }
      payload := None;
    }
  }

  // ---------------------------------------------------------------------------------
  // The indexes agree with everything that ever arrived
  // ---------------------------------------------------------------------------------

  /** Every message ever received. */
  function History(events: seq<Event>): seq<Entry> {
    if events == [] then []
    else
      var e := events[|events| - 1];
      History(events[..|events| - 1]) + (if e.Received? then [e.entry] else [])
  }

  function BytesUp(prefix: string, events: seq<Event>): nat {
    if events == [] then 0
    else
      var e := events[|events| - 1];
      BytesUp(prefix, events[..|events| - 1])
      + (if e.Received? && !Own(Suffix(prefix, e.entry.topic)) then e.size else 0)
  }

  function BytesDown(events: seq<Event>): nat {
    if events == [] then 0
    else
      var e := events[|events| - 1];
      BytesDown(events[..|events| - 1]) + (if e.Sent? then e.size else 0)
  }

  lemma {:induction false} LinkIsKnown(retained: map<string, Payload>, prefix: string, payload: Option<Payload>)
    ensures InferLink(retained, prefix, payload) == WIFI || InferLink(retained, prefix, payload) == LTE
  {
    hide Text.Contains, Lower, Topic, FirstRetainedLink;
    FirstLinkIsKnown(retained, prefix, STATE_TOPICS);
  }

  lemma {:induction false} FirstLinkIsKnown(retained: map<string, Payload>, prefix: string, suffixes: seq<string>)
    ensures var link := FirstRetainedLink(retained, prefix, suffixes); link == WIFI || link == LTE
  {
    hide Text.Contains, Lower, Topic;
    if suffixes != [] {
      FirstLinkIsKnown(retained, prefix, suffixes[1..]);
    }
  }

  ghost predicate Counts(traffic: map<string, Traffic>, up: nat, down: nat) {
    && WIFI in traffic && LTE in traffic
    && traffic[WIFI].up + traffic[LTE].up == up
    && traffic[WIFI].down + traffic[LTE].down == down
  }

  lemma {:induction false} TransferCounts(traffic: map<string, Traffic>, link: string, isUp: bool, count: nat,
        up: nat, down: nat)
    requires Counts(traffic, up, down) && (link == WIFI || link == LTE)
    ensures Counts(AddTransfer(traffic, link, isUp, count),
                   if isUp then up + count else up, if isUp then down else down + count)
  {
    assert WIFI[0] != LTE[0];
  }

  ghost predicate Agrees(s: State, prefix: string, events: seq<Event>) {
    && s.messages == Last(History(events), LOG_LIMIT)
    && (forall t :: t in s.retained <==> Newest(History(events), t).Some?)
    && (forall t :: t in s.retained ==> Newest(History(events), t) == Some(s.retained[t]))
    && Counts(s.traffic, BytesUp(prefix, events), BytesDown(events))
  }

  lemma {:induction false} LastOfLast<T>(s: seq<T>, x: T, n: nat)
    requires n > 0
    ensures Last(Last(s, n) + [x], n) == Last(s + [x], n)
  {}

  lemma {:induction false} NewestNext(messages: seq<Entry>, e: Entry, topic: string)
    ensures Newest(messages + [e], topic) == if e.topic == topic then Some(e.payload) else Newest(messages, topic)
  {
    assert (messages + [e])[..|messages|] == messages;
  }

  lemma {:induction false} RecordAgrees(s: State, prefix: string, before: seq<Event>, e: Entry, size: nat,
        after: seq<Event>)
    requires Agrees(s, prefix, before) && after == before + [Received(e, size)]
    ensures Agrees(Record(s, prefix, e, size), prefix, after)
  {
    hide Suffix, Own, InferLink, AddTransfer, Newest, Counts, Last;
    assert after[..|before|] == before && after[|before|] == Received(e, size);
    LastOfLast(History(before), e, LOG_LIMIT);
    forall t
      ensures Newest(History(after), t) == if e.topic == t then Some(e.payload) else Newest(History(before), t)
    {
      NewestNext(History(before), e, t);
    }
    var retained := s.retained[e.topic := e.payload];
    LinkIsKnown(retained, prefix, Some(e.payload));
    TransferCounts(s.traffic, InferLink(retained, prefix, Some(e.payload)), true, size,
                   BytesUp(prefix, before), BytesDown(before));
  }

  lemma {:induction false} SendAgrees(s: State, prefix: string, before: seq<Event>, size: nat, after: seq<Event>)
    requires Agrees(s, prefix, before) && after == before + [Sent(size)]
    ensures Agrees(Send(s, prefix, size), prefix, after)
  {
    hide Suffix, Own, InferLink, AddTransfer, Newest, Counts, Last;
    assert after[..|before|] == before && after[|before|] == Sent(size);
    assert History(after) == History(before);
    LinkIsKnown(s.retained, prefix, None);
    TransferCounts(s.traffic, InferLink(s.retained, prefix, None), false, size,
                   BytesUp(prefix, before), BytesDown(before));
  }

  /** After any traffic: the log is the last 200 messages received, every topic is indexed
      with the newest payload it ever carried, and the counts of the two links add up to all
      the bytes received, but for the controller's own topics, and to all the bytes sent. */
  lemma {:induction false} IndexesAgree(prefix: string, events: seq<Event>)
    ensures Agrees(Run(prefix, events), prefix, events)
  {
    hide Agrees, Record, Send;
    if events == [] {
      StartAgrees(prefix);
    } else {
      var front, e := events[..|events| - 1], events[|events| - 1];
      assert events == front + [e];
      IndexesAgree(prefix, front);
      match e {
        case Received(entry, size) => RecordAgrees(Run(prefix, front), prefix, front, entry, size, events);
        case Sent(size) => SendAgrees(Run(prefix, front), prefix, front, size, events);
      }
    }
  }

  lemma {:induction false} StartAgrees(prefix: string)
    ensures Agrees(Start(), prefix, [])
  {
    assert WIFI[0] != LTE[0];
  }

  /** Some message from the `k`-th on is on the topic. */
  predicate HeardSince(messages: seq<Entry>, k: int, topic: string) {
    exists i :: 0 <= i < |messages| && k <= i && messages[i].topic == topic
  }

  lemma {:induction false} HeardSinceFirst(messages: seq<Entry>, k: nat, topic: string)
    requires k < |messages|
    ensures HeardSince(messages, k, topic) <==>
      messages[|messages| - 1].topic == topic || HeardSince(messages[..|messages| - 1], k, topic)
  {
    var front := messages[..|messages| - 1];
    if HeardSince(front, k, topic) {
      var i :| 0 <= i < |front| && k <= i && front[i].topic == topic;
      assert messages[i].topic == topic;
    }
    if HeardSince(messages, k, topic) && messages[|messages| - 1].topic != topic {
      var i :| 0 <= i < |messages| && k <= i && messages[i].topic == topic;
      assert front[i].topic == topic;
    }
  }

  lemma {:induction false} NewestOfTail(messages: seq<Entry>, k: nat, topic: string)
    requires k <= |messages|
    ensures Newest(messages[k..], topic).Some? ==> Newest(messages[k..], topic) == Newest(messages, topic)
    ensures Newest(messages[k..], topic).Some? <==> HeardSince(messages, k, topic)
  {
    hide HeardSince;
    if k < |messages| {
      var n := |messages| - 1;
      assert messages[k..][..n - k] == messages[..n][k..];
      NewestOfTail(messages[..n], k, topic);
      HeardSinceFirst(messages, k, topic);
    } else {
      HeardNever(messages, k, topic);
    }
  }

  lemma {:induction false} HeardNever(messages: seq<Entry>, k: int, topic: string)
    ensures |messages| <= k ==> !HeardSince(messages, k, topic)
    ensures k <= 0 ==> (HeardSince(messages, k, topic) <==> HeardSince(messages, 0, topic))
  {}

  /** `latest_payload` finds the retained payload if and only if it is among the last 200
      messages; otherwise it finds nothing, never something older. */
  lemma {:induction false} LatestIsRetainedIff(prefix: string, events: seq<Event>, topic: string)
    ensures var s, all := Run(prefix, events), History(events);
      var recent := HeardSince(all, |all| - LOG_LIMIT, topic);
      && (recent ==> topic in s.retained)
      && Newest(s.messages, topic) == if recent then Some(s.retained[topic]) else None
  {
    hide Newest, Run, History, Counts, BytesUp, BytesDown, HeardSince;
    IndexesAgree(prefix, events);
    var all := History(events);
    var k := if |all| <= LOG_LIMIT then 0 else |all| - LOG_LIMIT;
    assert Last(all, LOG_LIMIT) == all[k..];
    NewestOfTail(all, k, topic);
    HeardNever(all, |all| - LOG_LIMIT, topic);
  }

  /** A dictionary that names this job, has this number, or none where -1 is sought, and one of
      these statuses. */
  predicate ForJob(p: Payload, job: string, seqNo: int, statuses: set<string>) {
    && p.Fields? && "job_id" in p.texts * p.values.Keys && p.values["job_id"] == job
    && ("seq" in p.numbers ==> p.numbers["seq"] == seqNo) && ("seq" !in p.numbers ==> seqNo == -1)
    && exists status :: status in statuses && status == Get(p.values, "status", "")
  }

  lemma {:induction false} IsAckIff(e: Entry, topic: string, job: string, seqNo: int, statuses: set<string>)
    ensures IsAck(e, topic, job, seqNo, statuses) <==> e.topic == topic && ForJob(e.payload, job, seqNo, statuses)
  {}

  /** What is found is a dictionary on the topic with this job, this number and one of these
      statuses; no later message of the log is such a one; and it is found whenever there is
      one. */
  lemma {:induction false} NewestAckIs(messages: seq<Entry>, topic: string, job: string, seqNo: int,
        statuses: set<string>)
    ensures match NewestAck(messages, topic, job, seqNo, statuses)
      case None =>
        forall j :: 0 <= j < |messages| ==>
          !(messages[j].topic == topic && ForJob(messages[j].payload, job, seqNo, statuses))
      case Some(p) =>
        exists i :: 0 <= i < |messages|
          && messages[i].topic == topic && messages[i].payload == p && ForJob(p, job, seqNo, statuses)
          && forall j :: i < j < |messages| ==>
            !(messages[j].topic == topic && ForJob(messages[j].payload, job, seqNo, statuses))
  {
    hide IsAck, ForJob;
    if messages != [] {
      var n := |messages| - 1;
      var front := messages[..n];
      IsAckIff(messages[n], topic, job, seqNo, statuses);
      NewestAckIs(front, topic, job, seqNo, statuses);
      if IsAck(messages[n], topic, job, seqNo, statuses) {
        assert messages[n].payload == NewestAck(messages, topic, job, seqNo, statuses).value;
      } else if NewestAck(front, topic, job, seqNo, statuses).Some? {
        var p := NewestAck(front, topic, job, seqNo, statuses).value;
        var i :| 0 <= i < |front|
          && front[i].topic == topic && front[i].payload == p && ForJob(p, job, seqNo, statuses)
          && forall j :: i < j < |front| ==>
            !(front[j].topic == topic && ForJob(front[j].payload, job, seqNo, statuses));
        assert messages[i].topic == topic && messages[i].payload == p;
        forall j | i < j < |messages|
          ensures !(messages[j].topic == topic && ForJob(messages[j].payload, job, seqNo, statuses))
        {
          assert j < n ==> messages[j] == front[j];
        }
      } else {
        forall j | 0 <= j < |messages|
          ensures !(messages[j].topic == topic && ForJob(messages[j].payload, job, seqNo, statuses))
        {
          assert j < n ==> messages[j] == front[j];
        }
      }
    }
  }

  lemma {:induction false} NewestAckExists(messages: seq<Entry>, topic: string, job: string, seqNo: int,
        statuses: set<string>)
    ensures NewestAck(messages, topic, job, seqNo, statuses).Some?
       <==> exists i :: 0 <= i < |messages| && IsAck(messages[i], topic, job, seqNo, statuses)
  {
    hide IsAck;
    if messages != [] {
      var front := messages[..|messages| - 1];
      NewestAckExists(front, topic, job, seqNo, statuses);
      forall i | 0 <= i < |messages| && IsAck(messages[i], topic, job, seqNo, statuses)
        ensures NewestAck(messages, topic, job, seqNo, statuses).Some?
      {
        assert i < |front| ==> front[i] == messages[i];
      }
      forall i | 0 <= i < |front| && IsAck(front[i], topic, job, seqNo, statuses)
        ensures messages[i] == front[i]
      {}
    }
  }

  /** The acknowledgement waited for was received, and is not yet among the older messages. */
  predicate AckAmongLast(all: seq<Entry>, topic: string, job: string, seqNo: int, statuses: set<string>) {
    exists i :: 0 <= i < |all| && |all| - 200 <= i
      && all[i].topic == topic && ForJob(all[i].payload, job, seqNo, statuses)
  }

  /** A look for an acknowledgement succeeds if and only if it was received and fewer than 200
      messages have come after it. */
  lemma {:induction false} AckIsSeenIff(prefix: string, events: seq<Event>, topic: string, job: string, seqNo: int,
        statuses: set<string>)
    ensures NewestAck(Run(prefix, events).messages, topic, job, seqNo, statuses).Some?
       <==> AckAmongLast(History(events), topic, job, seqNo, statuses)
  {
    hide NewestAck, Run, History, Counts, BytesUp, BytesDown, IsAck, Newest, ForJob;
    IndexesAgree(prefix, events);
    var all := History(events);
    var kept := Last(all, LOG_LIMIT);
    var k := |all| - |kept|;
    NewestAckExists(kept, topic, job, seqNo, statuses);
    forall i | 0 <= i < |all| && |all| - 200 <= i
        && all[i].topic == topic && ForJob(all[i].payload, job, seqNo, statuses)
      ensures IsAck(kept[i - k], topic, job, seqNo, statuses)
    {
      assert kept[i - k] == all[i];
      IsAckIff(all[i], topic, job, seqNo, statuses);
    }
    forall j | 0 <= j < |kept| && IsAck(kept[j], topic, job, seqNo, statuses)
      ensures AckAmongLast(all, topic, job, seqNo, statuses)
    {
      assert all[j + k] == kept[j];
      IsAckIff(all[j + k], topic, job, seqNo, statuses);
    }
  }
}
