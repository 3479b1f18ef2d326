/** The bridge's MQTT topics: the command topic it publishes to, the two
    filters it subscribes with, topic-filter matching by the rules of sections
    4.7.1.1 (topic level separator) and 4.7.1.3 (single-level wildcard) of MQTT
    Version 5.0, and the router's reading of an inbound topic, which splits with
    empty levels dropped. */
module Topics {
  import opened Text

  const DefaultBaseTopic: string := "itechmarine"

  /** A topic level a configuration may use as `BaseTopic` or a kind: non-empty,
      no separator and no wildcard. */
  predicate PlainLevel(s: string) {
    s != "" && '/' !in s && '+' !in s
  }

  lemma NoSeparatorLevels(a: string, b: string)
    requires '/' !in a && '/' !in b
    ensures SplitNonEmpty(a + "/" + b, '/') == RemoveEmpty([a]) + RemoveEmpty([b])
  {
    SplitAppend(a, '/', b);
    SplitNoSeparator(a, '/');
    SplitNoSeparator(b, '/');
    RemoveEmptyAppend([a], [b]);
  }

  /** The topic `PublishCommandAsync` publishes to. */
  function CommandTopic(baseTopic: string, serial: string): string {
    baseTopic + "/device/" + serial + "/cmd"
  }

  lemma {:induction false} SplitFourLevels(a: string, b: string, c: string, d: string, sep: char)
    requires sep !in b && sep !in d
    ensures Split(a + [sep] + b + [sep] + c + [sep] + d, sep) == Split(a, sep) + [b] + Split(c, sep) + [d]
  {
    var tail := c + [sep] + d;
    var mid := b + [sep] + tail;
    assert a + [sep] + b + [sep] + c + [sep] + d == a + [sep] + mid;
    SplitAppend(a, sep, mid);
    SplitAppend(b, sep, tail);
    SplitAppend(c, sep, d);
    SplitNoSeparator(b, sep);
    SplitNoSeparator(d, sep);
  }

  /** Its levels are the base topic's, `device`, the serial's and `cmd`. */
  lemma CommandTopicLevels(baseTopic: string, serial: string)
    ensures Split(CommandTopic(baseTopic, serial), '/') ==
      Split(baseTopic, '/') + ["device"] + Split(serial, '/') + ["cmd"]
  {
    assert CommandTopic(baseTopic, serial) == baseTopic + ['/'] + "device" + ['/'] + serial + ['/'] + "cmd";
    SplitFourLevels(baseTopic, "device", serial, "cmd", '/');
  }

  /** The filters subscribed on connect: `{base}/device/+/status` and `{base}/device/+/ack`. */
  function SubscriptionFilter(baseTopic: string, kind: string): string {
    baseTopic + "/device/+/" + kind
  }

  lemma SubscriptionFilterLevels(baseTopic: string, kind: string)
    requires PlainLevel(baseTopic) && PlainLevel(kind)
    ensures Split(SubscriptionFilter(baseTopic, kind), '/') == [baseTopic, "device", "+", kind]
  {
    var parts := [baseTopic, "device", "+", kind];
    JoinCons("/", kind, []);
    JoinCons("/", "+", [kind]);
    JoinCons("/", "device", ["+", kind]);
    JoinCons("/", baseTopic, ["device", "+", kind]);
    assert [baseTopic] + ["device", "+", kind] == parts;
    assert Join("/", parts) == SubscriptionFilter(baseTopic, kind);
    SplitJoin(parts, '/');
  }

  /** Whether a topic filter's levels match a topic name's levels: a `+` level
      matches exactly one level, which may be empty; any other level matches
      itself only. */
  function MatchLevels(filter: seq<string>, topic: seq<string>): bool
    decreases |filter|
  {
    if |filter| == 0 then |topic| == 0
    else |topic| > 0 && (filter[0] == "+" || filter[0] == topic[0]) && MatchLevels(filter[1..], topic[1..])
  }

  /** Levels are separated by `/`, and empty levels count. */
  predicate Matches(filter: string, topicName: string) {
    MatchLevels(Split(filter, '/'), Split(topicName, '/'))
  }

  lemma {:induction false} MatchLevelsShape(filter: seq<string>, topic: seq<string>)
    requires MatchLevels(filter, topic)
    ensures |topic| == |filter|
    ensures forall i :: 0 <= i < |filter| ==> filter[i] == "+" || filter[i] == topic[i]
    decreases |filter|
  {
    if |filter| > 0 {
      MatchLevelsShape(filter[1..], topic[1..]);
      forall i | 0 < i < |filter| ensures filter[i] == "+" || filter[i] == topic[i] {
        assert filter[1..][i - 1] == filter[i] && topic[1..][i - 1] == topic[i];
      }
    }
  }

  /** What the router makes of an inbound topic. */
  datatype Route = Ignored | Dispatch(serial: string, kind: string)

  /** The topic handling of `HandleIncomingAsync`: split on `/` dropping empty
      entries; fewer than four segments, a first segment other than `BaseTopic` or
      a second other than `device` (both ignoring case) and the message is ignored;
      otherwise the third segment is the serial and the fourth the kind. */
  function RouteTopic(baseTopic: string, topic: string): (r: Route)
    ensures r.Dispatch? ==> r.serial != "" && '/' !in r.serial && r.kind != "" && '/' !in r.kind
  {
    var parts := SplitNonEmpty(topic, '/');
    if |parts| < 4 then Ignored
    else if !EqualsIgnoreCase(parts[0], baseTopic) then Ignored
    else if !EqualsIgnoreCase(parts[1], "device") then Ignored
    else Dispatch(parts[2], parts[3])
  }

  /** Every topic the broker delivers for a subscription reaches the router's
      handler for that kind, except one whose serial level is empty: the
      standard lets `+` match an empty level, but the split drops it and the
      message is ignored. */
  lemma SubscribedTopicRouting(baseTopic: string, kind: string, topic: string)
    requires PlainLevel(baseTopic) && PlainLevel(kind)
    requires Matches(SubscriptionFilter(baseTopic, kind), topic)
    ensures var levels := Split(topic, '/');
      && |levels| == 4
      && RouteTopic(baseTopic, topic) == if levels[2] == "" then Ignored else Dispatch(levels[2], kind)
  {
    SubscriptionFilterLevels(baseTopic, kind);
    var levels := Split(topic, '/');
    MatchLevelsShape([baseTopic, "device", "+", kind], levels);
    assert levels == [baseTopic, "device", levels[2], kind];
    if levels[2] == "" {
      assert levels == [baseTopic, "device"] + [""] + [kind];
      RemoveEmptyAppend([baseTopic, "device"] + [""], [kind]);
      RemoveEmptyAppend([baseTopic, "device"], [""]);
      RemoveEmptyKeepsNonEmpty([baseTopic, "device"]);
      RemoveEmptyKeepsNonEmpty([kind]);
    } else {
      RemoveEmptyKeepsNonEmpty(levels);
    }
  }

  /** A command topic is never matched by the bridge's own subscriptions. */
  lemma CommandTopicNotSubscribed(baseTopic: string, kind: string, serial: string)
    requires PlainLevel(baseTopic) && PlainLevel(kind) && kind != "cmd"
    ensures !Matches(SubscriptionFilter(baseTopic, kind), CommandTopic(baseTopic, serial))
  {
    SubscriptionFilterLevels(baseTopic, kind);
    CommandTopicLevels(baseTopic, serial);
    var levels := Split(CommandTopic(baseTopic, serial), '/');
    assert levels[|levels| - 1] == "cmd";
    if Matches(SubscriptionFilter(baseTopic, kind), CommandTopic(baseTopic, serial)) {
      MatchLevelsShape([baseTopic, "device", "+", kind], levels);
    }
  }

  /** Segments after the fourth play no part in routing. */
  lemma RouteIgnoresTrailingLevels(baseTopic: string, topic: string, extra: string)
    requires |SplitNonEmpty(topic, '/')| >= 4
    ensures RouteTopic(baseTopic, topic + "/" + extra) == RouteTopic(baseTopic, topic)
  {
    SplitAppend(topic, '/', extra);
    RemoveEmptyAppend(Split(topic, '/'), Split(extra, '/'));
    var p := SplitNonEmpty(topic, '/');
    var q := SplitNonEmpty(topic + "/" + extra, '/');
    assert q == p + RemoveEmpty(Split(extra, '/'));
    assert q[0] == p[0] && q[1] == p[1] && q[2] == p[2] && q[3] == p[3];
  }

  /** A `BaseTopic` of more than one level (holding a `/`) can never equal the
      first segment, so every inbound message is ignored. */
  lemma MultiLevelBaseIgnoresAll(baseTopic: string, topic: string)
    requires '/' in baseTopic
    ensures RouteTopic(baseTopic, topic) == Ignored
  {
    var parts := SplitNonEmpty(topic, '/');
    if |parts| >= 4 {
      NotEqualsIgnoreCaseMissingChar(parts[0], baseTopic, '/');
    }
  }

  /** The serial level is matched exactly; the root and `device` ignore case,
      and the kind is passed on as written. */
  lemma RouteOfWellFormedTopic(baseTopic: string, root: string, entity: string, serial: string, kind: string)
    requires PlainLevel(root) && PlainLevel(entity) && PlainLevel(serial) && PlainLevel(kind)
    ensures RouteTopic(baseTopic, root + "/" + entity + "/" + serial + "/" + kind) ==
      if EqualsIgnoreCase(root, baseTopic) && EqualsIgnoreCase(entity, "device") then Dispatch(serial, kind) else Ignored
  {
    var parts := [root, entity, serial, kind];
    JoinCons("/", kind, []);
    JoinCons("/", serial, [kind]);
    JoinCons("/", entity, [serial, kind]);
    JoinCons("/", root, [entity, serial, kind]);
    assert [root] + [entity, serial, kind] == parts;
    assert Join("/", parts) == root + "/" + entity + "/" + serial + "/" + kind;
    SplitJoin(parts, '/');
    RemoveEmptyKeepsNonEmpty(parts);
  }
}
