/** Which link a message is counted on. */
module LinkAccounting {
  import opened Bytes
  import opened ControllerLog
  import Text

  // ---------------------------------------------------------------------------------
  // Topics
  // ---------------------------------------------------------------------------------

  lemma {:induction false} StripTakesSlashes(base: string, slashes: string)
    requires base == "" || base[|base| - 1] != '/'
    requires forall i :: 0 <= i < |slashes| ==> slashes[i] == '/'
    ensures StripSlashes(base + slashes) == base
    decreases |slashes|
  {
    var s := base + slashes;
    if slashes == "" {
      assert s == base;
    } else {
      assert s[|s| - 1] == slashes[|slashes| - 1] && s[..|s| - 1] == base + slashes[..|slashes| - 1];
      StripTakesSlashes(base, slashes[..|slashes| - 1]);
    }
  }

  /** A topic has one slash between prefix and suffix, however many the prefix ends in. */
  lemma {:induction false} TopicIs(base: string, slashes: string, suffix: string)
    requires base == "" || base[|base| - 1] != '/'
    requires forall i :: 0 <= i < |slashes| ==> slashes[i] == '/'
    ensures Topic(base + slashes, suffix) == base + "/" + suffix
  {
    StripTakesSlashes(base, slashes);
  }

  lemma {:induction false} SuffixOfTopic(prefix: string, suffix: string)
    ensures Suffix(prefix, Topic(prefix, suffix)) == suffix
  {
    var start := StripSlashes(prefix) + "/";
    assert (start + suffix)[|start|..] == suffix;
  }

  /** The controller's own topics, under any prefix: the five it publishes commands on. */
  lemma {:induction false} OwnTopicsAre(prefix: string, suffix: string)
    ensures Own(Suffix(prefix, Topic(prefix, suffix))) <==>
      suffix in {"console/cmd", "fs/jobs", "ota/jobs", "rdm/alive/request", "rdm/transport/set"}
  {
    hide Suffix, Topic;
    SuffixOfTopic(prefix, suffix);
  }

  /** A topic that is not under the prefix is taken whole. */
  lemma {:induction false} ForeignTopic(prefix: string, topic: string)
    requires !(StripSlashes(prefix) + "/" <= topic)
    ensures Own(Suffix(prefix, topic)) <==>
      topic in {"console/cmd", "fs/jobs", "ota/jobs", "rdm/alive/request", "rdm/transport/set"}
  {}

  // ---------------------------------------------------------------------------------
  // Links
  // ---------------------------------------------------------------------------------

  predicate Says(p: Payload, key: string, value: string) {
    p.Fields? && key in p.values && Lower(p.values[key]) == value
  }

  /** A field mentions a name. */
  predicate Mentions(p: Payload, key: string, name: string) {
    p.Fields? && key in p.values && Text.Contains(Lower(p.values[key]), name)
  }

  /** A payload names the link its "active_link" gives, in any case; else LTE if its transport
      mentions lte, cellular or simcom, and WiFi if it mentions wifi; else none. */
  function LinkSaid(p: Payload, transport: string): Option<string> {
    if Says(p, "active_link", "wifi") then Some("wifi")
    else if Says(p, "active_link", "lte") then Some("lte")
    else if Mentions(p, transport, "lte") || Mentions(p, transport, "cellular") || Mentions(p, transport, "simcom")
    then Some("lte")
    else if Mentions(p, transport, "wifi") then Some("wifi")
    else None
  }

  lemma {:induction false} NothingIsContained(name: string)
    requires name != ""
    ensures !Text.Contains("", name)
  {}

  lemma {:induction false} LinkNames()
    ensures WIFI == "wifi" && LTE == "lte" && "wifi" != "lte" && "" != "wifi" && "" != "lte"
  {
    assert "wifi"[0] != "lte"[0];
  }

  lemma {:induction false} LinkOfFields(p: Payload, transport: string)
    requires p.Fields?
    ensures NamedLink(Lower(Get(p.values, "active_link", "")), Lower(Get(p.values, transport, "")))
         == LinkSaid(p, transport)
  {
    hide Text.Contains;
    LinkNames();
    NothingIsContained("lte");
    NothingIsContained("cellular");
    NothingIsContained("simcom");
    NothingIsContained("wifi");
    assert Lower("") == "";
  }

  /** A message just received, and a retained state, in which the transport may be under another
      name. */
  lemma {:induction false} PayloadLinkIs(p: Payload)
    ensures PayloadLink(p) == LinkSaid(p, "transport")
    ensures RetainedLink(p) ==
      LinkSaid(p, if p.Fields? && "transport" in p.values then "transport" else "mqtt_transport")
  {
    hide NamedLink, Lower;
    if p.Fields? {
      LinkOfFields(p, "transport");
      LinkOfFields(p, "mqtt_transport");
    }
  }

  lemma {:induction false} LowerKeeps(s: string)
    requires forall i :: 0 <= i < |s| ==> !('A' <= s[i] <= 'Z')
    ensures Lower(s) == s
  {}

  lemma {:induction false} NotIn(s: string, name: string)
    requires name != "" && name[0] !in s
    ensures !Text.Contains(s, name)
  {}

  lemma {:induction false} TransportWords()
    ensures Lower("simcom-native-mqtt") == "simcom-native-mqtt" && Lower("wifi-mqtt") == "wifi-mqtt"
    ensures 'l' !in "wifi-mqtt" && 'c' !in "wifi-mqtt" && 's' !in "wifi-mqtt"
    ensures "simcom" <= "simcom-native-mqtt" && "wifi" <= "wifi-mqtt"
  {
    hide Lower;
    LowerKeeps("simcom-native-mqtt");
    LowerKeeps("wifi-mqtt");
  }

  lemma {:induction false} PrefixIsContained(s: string, name: string)
    requires name <= s
    ensures Text.Contains(s, name)
  {}

  /** The names of the device's two transports name their links. */
  lemma {:induction false} TransportNames(p: Payload)
    requires p.Fields? && "active_link" !in p.values && "transport" in p.values
    ensures p.values["transport"] == "simcom-native-mqtt" ==> PayloadLink(p) == Some("lte")
    ensures p.values["transport"] == "wifi-mqtt" ==> PayloadLink(p) == Some("wifi")
  {
    hide Lower, Text.Contains, NamedLink;
    PayloadLinkIs(p);
    TransportWords();
    PrefixIsContained("simcom-native-mqtt", "simcom");
    PrefixIsContained("wifi-mqtt", "wifi");
    NotIn("wifi-mqtt", "lte");
    NotIn("wifi-mqtt", "cellular");
    NotIn("wifi-mqtt", "simcom");
  }

  /** The link a retained state names, if there is one. */
  function StateLink(retained: map<string, Payload>, prefix: string, suffix: string): Option<string> {
    if Topic(prefix, suffix) in retained then RetainedLink(retained[Topic(prefix, suffix)]) else None
  }

  lemma {:induction false} FirstStateDecides(retained: map<string, Payload>, prefix: string, suffixes: seq<string>)
    requires suffixes != []
    ensures FirstRetainedLink(retained, prefix, suffixes) ==
      if StateLink(retained, prefix, suffixes[0]).Some? then StateLink(retained, prefix, suffixes[0]).value
      else FirstRetainedLink(retained, prefix, suffixes[1..])
  {
    hide Topic, RetainedLink;
  }

  /** The message itself decides; else the first of the three retained states that names a link;
      else it is WiFi. */
  lemma {:induction false} InferLinkIs(retained: map<string, Payload>, prefix: string, payload: Option<Payload>)
    ensures InferLink(retained, prefix, payload) ==
      if payload.Some? && PayloadLink(payload.value).Some? then PayloadLink(payload.value).value
      else if StateLink(retained, prefix, "rdm/alive").Some? then StateLink(retained, prefix, "rdm/alive").value
      else if StateLink(retained, prefix, "rdm/state").Some? then StateLink(retained, prefix, "rdm/state").value
      else if StateLink(retained, prefix, "status").Some? then StateLink(retained, prefix, "status").value
      else "wifi"
  {
    hide StateLink, PayloadLink;
    var topics := STATE_TOPICS;
    FirstStateDecides(retained, prefix, topics);
    FirstStateDecides(retained, prefix, topics[1..]);
    FirstStateDecides(retained, prefix, topics[1..][1..]);
    assert FirstRetainedLink(retained, prefix, topics[1..][1..][1..]) == "wifi";
    hide FirstRetainedLink;
  }

  // ---------------------------------------------------------------------------------
  // Counting
  // ---------------------------------------------------------------------------------

  /** A message received is counted on its own link, and on no other. */
  lemma {:induction false} ReceivedIsCounted(s: State, prefix: string, e: Entry, size: nat, link: string)
    requires link in s.traffic && WIFI in s.traffic && LTE in s.traffic
    ensures var t := Record(s, prefix, e, size);
      var counted := !Own(Suffix(prefix, e.topic))
        && InferLink(s.retained[e.topic := e.payload], prefix, Some(e.payload)) == link;
      && link in t.traffic && t.traffic[link].down == s.traffic[link].down
      && t.traffic[link].up == s.traffic[link].up + if counted then size else 0
  {
    hide Own, Suffix, InferLink;
    LinkIsKnown(s.retained[e.topic := e.payload], prefix, Some(e.payload));
  }

  /** Likewise a message sent. */
  lemma {:induction false} SentIsCounted(s: State, prefix: string, size: nat, link: string)
    requires link in s.traffic && WIFI in s.traffic && LTE in s.traffic
    ensures var t := Send(s, prefix, size);
      && link in t.traffic && t.traffic[link].up == s.traffic[link].up
      && t.traffic[link].down == s.traffic[link].down + if InferLink(s.retained, prefix, None) == link then size else 0
  {
    hide InferLink;
    LinkIsKnown(s.retained, prefix, None);
  }
}
