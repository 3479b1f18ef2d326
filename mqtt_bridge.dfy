/** The bridge's receive side: every accepted inbound message is stored as
    telemetry, a `status` message stamps the device's last-seen time and folds
    its `relays` array into the light channels, and an `ack` message marks the
    command it names delivered. */
module MqttBridge {
  import opened Wrappers
  import opened Text
  import opened Guids
  import opened Clock
  import opened JsonDoc
  import opened Entities
  import opened Store
  import opened Topics
  import DeviceLink

  /** One received message: its topic, its payload text, and the document
      `JsonDocument.Parse` makes of the payload (`None` where parsing throws). */
  datatype Inbound = Inbound(topic: string, payload: string, doc: Option<Json>)

  // ---- Telemetry ----

  /** The row `PersistTelemetryAsync` adds: the serial and payload as received,
      the id of the device with that serial when there is one, and the time. */
  function TelemetryFor(devices: seq<Device>, serial: string, payload: string, now: Ticks): (t: Telemetry)
    ensures t.DeviceSerial == serial && t.Payload == payload && t.Ts == now
    ensures t.DeviceId.None? <==> forall i :: 0 <= i < |devices| ==> devices[i].Serial != serial
    ensures t.DeviceId.Some? ==> exists i :: 0 <= i < |devices| && devices[i].Serial == serial && devices[i].Id == t.DeviceId.value
  {
    match FindDeviceBySerial(devices, serial)
    case None => Telemetry(serial, None, now, payload)
    case Some(i) => Telemetry(serial, Some(devices[i].Id), now, payload)
  }

  method PersistTelemetry(db: Db, serial: string, payload: string, now: Ticks)
    requires db.Valid()
    modifies db
    ensures db.Valid()
    ensures db.Snapshot() == old(db.Snapshot()).(telemetries := old(db.telemetries) + [TelemetryFor(old(db.devices), serial, payload, now)])
  {
    var dev := FindDeviceBySerial(db.devices, serial);
    var deviceId := if dev.Some? then Some(db.devices[dev.value].Id) else None;
    db.telemetries := db.telemetries + [Telemetry(serial, deviceId, now, payload)];
  }

  // ---- Status ----

  /** What the loop over `relays` does with one element. */
  datatype RelayStep =
    | Skip                         // `ch` or `state` is missing: `continue`
    | Fault                        // the element is not an object, or `GetInt32` throws
    | Apply(ch: int, state: int)

  function RelayEntry(r: Json): (s: RelayStep)
    ensures s.Skip? <==> r.Obj? && (Property(r.props, "ch").None? || Property(r.props, "state").None?)
    ensures s.Apply? <==> r.Obj? && Property(r.props, "ch").Some? && Property(r.props, "state").Some?
                          && GetInt32(Property(r.props, "ch").value).Some?
                          && GetInt32(Property(r.props, "state").value).Some?
    ensures s.Apply? ==> s.ch == GetInt32(Property(r.props, "ch").value).value
                         && s.state == GetInt32(Property(r.props, "state").value).value
  {
    if !r.Obj? then Fault
    else
      var ch := Property(r.props, "ch");
      var st := Property(r.props, "state");
      if ch.None? || st.None? then Skip
      else
        var c := GetInt32(ch.value);
        var s := GetInt32(st.value);
        if c.None? || s.None? then Fault else Apply(c.value, s.value)
  }

  /** The elements the loop runs over: the `relays` member of an object payload
      when it is an array. A payload that does not parse, a root that is not an
      object, and a missing or non-array `relays` all leave nothing to fold. */
  function StatusRelays(doc: Option<Json>): (items: seq<Json>)
    ensures items != [] ==> doc.Some? && doc.value.Obj? && Property(doc.value.props, "relays") == Some(Arr(items))
    ensures doc.Some? && doc.value.Obj? && Property(doc.value.props, "relays").Some?
            && Property(doc.value.props, "relays").value.Arr? ==>
              items == Property(doc.value.props, "relays").value.items
  {
    if doc.Some? && doc.value.Obj? then
      match Property(doc.value.props, "relays")
      case Some(Arr(items)) => items
      case _ => []
    else []
  }

  /** One applied element: the channel of this device with that number, if
      any, is switched on exactly when the state is 1, and stamped. */
  function SetLight(lights: seq<LightChannel>, deviceId: Guid, ch: int, state: int, now: Ticks): seq<LightChannel> {
    match FindLight(lights, deviceId, ch)
    case None => lights
    case Some(i) => lights[i := lights[i].(IsOn := state == 1, UpdatedAt := now)]
  }

  /** The loop over `relays`, front to back; a fault ends it with the changes
      so far kept, since the handler's `catch` saves them. */
  function ApplyRelays(lights: seq<LightChannel>, deviceId: Guid, items: seq<Json>, now: Ticks): seq<LightChannel>
    decreases |items|
  {
    if |items| == 0 then lights
    else match RelayEntry(items[0])
      case Fault => lights
      case Skip => ApplyRelays(lights, deviceId, items[1..], now)
      case Apply(ch, st) => ApplyRelays(SetLight(lights, deviceId, ch, st, now), deviceId, items[1..], now)
  }

  /** The state the last applied element for channel `ch` carries, among the
      elements before the first fault. */
  function LastState(items: seq<Json>, ch: int): Option<int>
    decreases |items|
  {
    if |items| == 0 then None
    else match RelayEntry(items[0])
      case Fault => None
      case Skip => LastState(items[1..], ch)
      case Apply(c, s) =>
        var later := LastState(items[1..], ch);
        if later.Some? then later else if c == ch then Some(s) else None
  }

  /** The effect of `ProcessStatusAsync`: nothing for an unknown serial;
      otherwise the device's `LastSeen` becomes `now` and the relays are folded
      into that device's channels, whatever the payload held. */
  function StatusEffect(t: Tables, serial: string, doc: Option<Json>, now: Ticks): Tables {
    match FindDeviceBySerial(t.devices, serial)
    case None => t
    case Some(i) =>
      t.(devices := t.devices[i := t.devices[i].(LastSeen := Some(now))],
         lights := ApplyRelays(t.lights, t.devices[i].Id, StatusRelays(doc), now))
  }

  /** One element changes one row at most, and only its state and time. */
  lemma SetLightRow(lights: seq<LightChannel>, deviceId: Guid, ch: int, state: int, now: Ticks)
    requires LightsValid(lights)
    ensures var r := SetLight(lights, deviceId, ch, state, now);
      && |r| == |lights|
      && forall k :: 0 <= k < |lights| ==>
           r[k] == if lights[k].DeviceId == deviceId && lights[k].ChNo == ch
                   then lights[k].(IsOn := state == 1, UpdatedAt := now) else lights[k]
  {
    match FindLight(lights, deviceId, ch)
    case None =>
    case Some(i) =>
      forall k | 0 <= k < |lights| && lights[k].DeviceId == deviceId && lights[k].ChNo == ch
        ensures k == i
      {
      }
  }

  lemma SetLightKeepsValid(lights: seq<LightChannel>, deviceId: Guid, ch: int, state: int, now: Ticks)
    requires LightsValid(lights)
    ensures LightsValid(SetLight(lights, deviceId, ch, state, now))
  {
    SetLightRow(lights, deviceId, ch, state, now);
    var r := SetLight(lights, deviceId, ch, state, now);
    assert forall k :: 0 <= k < |r| ==>
      r[k].Id == lights[k].Id && r[k].DeviceId == lights[k].DeviceId
      && r[k].ChNo == lights[k].ChNo && r[k].Name == lights[k].Name;
  }

  lemma {:induction false} ApplyRelaysKeepsValid(lights: seq<LightChannel>, deviceId: Guid, items: seq<Json>, now: Ticks)
    requires LightsValid(lights)
    ensures LightsValid(ApplyRelays(lights, deviceId, items, now))
    decreases |items|
  {
    if |items| > 0 {
      match RelayEntry(items[0])
      case Fault =>
      case Skip => ApplyRelaysKeepsValid(lights, deviceId, items[1..], now);
      case Apply(ch, st) =>
        SetLightKeepsValid(lights, deviceId, ch, st, now);
        ApplyRelaysKeepsValid(SetLight(lights, deviceId, ch, st, now), deviceId, items[1..], now);
    }
  }

  /** The whole fold, row by row: a channel of this device ends in the state of
      the last element for it before the first fault, stamped `now`; every
      other row, and every row of another device, is as it was. */
  lemma {:induction false} ApplyRelaysRow(lights: seq<LightChannel>, deviceId: Guid, items: seq<Json>, now: Ticks)
    requires LightsValid(lights)
    ensures var r := ApplyRelays(lights, deviceId, items, now);
      && |r| == |lights|
      && forall k :: 0 <= k < |lights| ==>
           r[k] == if lights[k].DeviceId == deviceId && LastState(items, lights[k].ChNo).Some?
                   then lights[k].(IsOn := LastState(items, lights[k].ChNo).value == 1, UpdatedAt := now)
                   else lights[k]
    decreases |items|
  {
    if |items| > 0 {
      match RelayEntry(items[0])
      case Fault =>
      case Skip => ApplyRelaysRow(lights, deviceId, items[1..], now);
      case Apply(ch, st) =>
        var mid := SetLight(lights, deviceId, ch, st, now);
        SetLightRow(lights, deviceId, ch, st, now);
        SetLightKeepsValid(lights, deviceId, ch, st, now);
        ApplyRelaysRow(mid, deviceId, items[1..], now);
        assert forall k :: 0 <= k < |lights| ==> mid[k].DeviceId == lights[k].DeviceId && mid[k].ChNo == lights[k].ChNo;
    }
  }

  /** Elements after a fault play no part. */
  lemma {:induction false} ApplyRelaysStopsAtFault(lights: seq<LightChannel>, deviceId: Guid, items: seq<Json>, j: nat, now: Ticks)
    requires j < |items| && RelayEntry(items[j]).Fault?
    ensures ApplyRelays(lights, deviceId, items, now) == ApplyRelays(lights, deviceId, items[..j], now)
    decreases j
  {
    if j > 0 {
      assert items[..j][0] == items[0];
      assert items[..j][1..] == items[1..][..j - 1];
      match RelayEntry(items[0])
      case Fault =>
      case Skip => ApplyRelaysStopsAtFault(lights, deviceId, items[1..], j - 1, now);
      case Apply(ch, st) => ApplyRelaysStopsAtFault(SetLight(lights, deviceId, ch, st, now), deviceId, items[1..], j - 1, now);
    }
  }

  lemma ApplyRelaysAtFault(lights: seq<LightChannel>, deviceId: Guid, items: seq<Json>, k: nat, now: Ticks)
    requires k < |items| && RelayEntry(items[k]).Fault?
    ensures ApplyRelays(lights, deviceId, items[k..], now) == lights
  {
    assert items[k..][0] == items[k];
  }

  lemma ApplyRelaysStep(lights: seq<LightChannel>, deviceId: Guid, items: seq<Json>, k: nat, now: Ticks)
    requires k < |items|
    ensures ApplyRelays(lights, deviceId, items[k..], now) ==
      match RelayEntry(items[k])
      case Fault => lights
      case Skip => ApplyRelays(lights, deviceId, items[k + 1..], now)
      case Apply(ch, st) => ApplyRelays(SetLight(lights, deviceId, ch, st, now), deviceId, items[k + 1..], now)
  {
    assert items[k..][0] == items[k];
    assert items[k..][1..] == items[k + 1..];
  }

  lemma StatusKeepsValid(t: Tables, serial: string, doc: Option<Json>, now: Ticks)
    requires TablesValid(t)
    ensures TablesValid(StatusEffect(t, serial, doc, now))
  {
    match FindDeviceBySerial(t.devices, serial)
    case None =>
    case Some(i) =>
      ApplyRelaysKeepsValid(t.lights, t.devices[i].Id, StatusRelays(doc), now);
      var d := t.devices[i := t.devices[i].(LastSeen := Some(now))];
      assert forall k :: 0 <= k < |d| ==> d[k].Id == t.devices[k].Id && d[k].Serial == t.devices[k].Serial;
  }

  /** `ProcessStatusAsync`. The loop stops at the first element that throws;
      what it changed before stays, as the `catch` saves it. */
  method ProcessStatus(db: Db, serial: string, doc: Option<Json>, now: Ticks)
    requires db.Valid()
    modifies db
    ensures db.Valid()
    ensures db.Snapshot() == StatusEffect(old(db.Snapshot()), serial, doc, now)
  {
    StatusKeepsValid(db.Snapshot(), serial, doc, now);
    ghost var target := StatusEffect(db.Snapshot(), serial, doc, now);
    var found := FindDeviceBySerial(db.devices, serial);
    if found.None? {
      return;
    }
    var dev := db.devices[found.value];
    db.devices := db.devices[found.value := dev.(LastSeen := Some(now))];
    var items := StatusRelays(doc);
    var k := 0;
    while k < |items|
      invariant 0 <= k <= |items|
      invariant db.devices == target.devices && db.commands == target.commands && db.telemetries == target.telemetries
      invariant ApplyRelays(db.lights, dev.Id, items[k..], now) == target.lights
      decreases |items| - k
    {
      ApplyRelaysStep(db.lights, dev.Id, items, k, now);
      var step := RelayEntry(items[k]);
      if step.Fault? {
        break;
      }
      if step.Apply? {
        var i := FindLight(db.lights, dev.Id, step.ch);
        if i.Some? {
          db.lights := db.lights[i.value := db.lights[i.value].(IsOn := step.state == 1, UpdatedAt := now)];
        }
      }
      k := k + 1;
    }
  }

  // ---- Acknowledgement ----

  /** The command id an `ack` payload names: the `id` member of an object
      payload, when it is a string that is not blank and parses as a GUID. */
  function AckedCommandId(doc: Option<Json>): (r: Option<Guid>)
    ensures r.Some? <==> doc.Some? && doc.value.Obj? && Property(doc.value.props, "id").Some?
                         && Property(doc.value.props, "id").value.Str?
                         && ParseGuid(Property(doc.value.props, "id").value.s).Some?
    ensures r.Some? ==> r == ParseGuid(Property(doc.value.props, "id").value.s)
  {
    if doc.Some? && doc.value.Obj? then
      match Property(doc.value.props, "id")
      case Some(Str(s)) => if IsBlank(s) then None else ParseGuid(s)
      case _ => None
    else None
  }

  /** The effect of `PushAckAsync` on the command table. */
  function PushAckEffect(cmds: seq<PendingCommand>, serial: string, doc: Option<Json>, now: Ticks): seq<PendingCommand> {
    match AckedCommandId(doc)
    case None => cmds
    case Some(g) => Deliver(cmds, g, serial, now).1
  }

  method PushAck(db: Db, serial: string, doc: Option<Json>, now: Ticks)
    requires db.Valid()
    modifies db
    ensures db.Valid()
    ensures db.Snapshot() == old(db.Snapshot()).(commands := PushAckEffect(old(db.commands), serial, doc, now))
  {
    var id := AckedCommandId(doc);
    if id.None? {
      return;
    }
    DeliverKeepsValid(db.commands, id.value, serial, now);
    var i := FindCommand(db.commands, id.value, serial);
    if i.Some? {
      db.commands := db.commands[i.value := MarkDelivered(db.commands[i.value], now)];
    }
  }

  /** An MQTT `ack` whose payload is `{"id": s}` and an HTTP acknowledgement
      with id `s` from the same serial leave the queue in the same state. */
  lemma PushAckAgreesWithAck(cmds: seq<PendingCommand>, serial: string, s: string, ok: bool, reason: Option<string>, now: Ticks)
    ensures PushAckEffect(cmds, serial, Some(Obj([("id", Str(s))])), now) ==
            DeviceLink.AckEffect(cmds, DeviceLink.AckReq(serial, s, ok, reason), now).1
  {
    assert Property([("id", Str(s))], "id") == Some(Str(s));
  }

  /** An `ack` changes at most the one command with that id, and only when the
      acknowledging serial owns it. */
  lemma PushAckMarksOwnOnly(cmds: seq<PendingCommand>, serial: string, doc: Option<Json>, now: Ticks)
    requires UniqueCommandIds(cmds)
    ensures var r := PushAckEffect(cmds, serial, doc, now);
      && |r| == |cmds|
      && forall i :: 0 <= i < |cmds| ==>
           r[i] == if AckedCommandId(doc) == Some(cmds[i].Id) && cmds[i].DeviceSerial == serial
                   then MarkDelivered(cmds[i], now) else cmds[i]
  {
    match AckedCommandId(doc)
    case None =>
    case Some(g) =>
      var r := Deliver(cmds, g, serial, now);
      forall i | 0 <= i < |cmds| && cmds[i].Id == g && cmds[i].DeviceSerial == serial
        ensures r.1[i] == MarkDelivered(cmds[i], now)
      {
        var k :| 0 <= k < |cmds| && cmds[k].Id == g && r.1[k] == MarkDelivered(cmds[k], now);
        assert k == i;
      }
  }

  // ---- Dispatch ----

  /** The effect of `HandleIncomingAsync`: an ignored topic changes nothing;
      an accepted one stores its telemetry row first, then a `status` or `ack`
      kind (matched exactly) runs its handler, and any other kind stops there. */
  function IncomingEffect(t: Tables, baseTopic: string, msg: Inbound, now: Ticks): Tables {
    match RouteTopic(baseTopic, msg.topic)
    case Ignored => t
    case Dispatch(serial, kind) =>
      var t1 := t.(telemetries := t.telemetries + [TelemetryFor(t.devices, serial, msg.payload, now)]);
      if kind == "status" then StatusEffect(t1, serial, msg.doc, now)
      else if kind == "ack" then t1.(commands := PushAckEffect(t1.commands, serial, msg.doc, now))
      else t1
  }

  lemma IncomingKeepsValid(t: Tables, baseTopic: string, msg: Inbound, now: Ticks)
    requires TablesValid(t)
    ensures TablesValid(IncomingEffect(t, baseTopic, msg, now))
  {
    match RouteTopic(baseTopic, msg.topic)
    case Ignored =>
    case Dispatch(serial, kind) =>
      var t1 := t.(telemetries := t.telemetries + [TelemetryFor(t.devices, serial, msg.payload, now)]);
      StatusKeepsValid(t1, serial, msg.doc, now);
      AckedCommandKeepsValid(t1.commands, serial, msg.doc, now);
  }

  lemma AckedCommandKeepsValid(cmds: seq<PendingCommand>, serial: string, doc: Option<Json>, now: Ticks)
    requires CommandsValid(cmds)
    ensures CommandsValid(PushAckEffect(cmds, serial, doc, now))
  {
    if AckedCommandId(doc).Some? {
      DeliverKeepsValid(cmds, AckedCommandId(doc).value, serial, now);
    }
  }

  /** What each message may touch: exactly one telemetry row is appended for an
      accepted topic and none for an ignored one; only `status` touches devices
      and lights, only `ack` touches commands. */
  lemma IncomingFrame(t: Tables, baseTopic: string, msg: Inbound, now: Ticks)
    ensures var r := IncomingEffect(t, baseTopic, msg, now);
      var route := RouteTopic(baseTopic, msg.topic);
      && (route.Ignored? ==> r == t)
      && (route.Dispatch? ==>
            && r.telemetries == t.telemetries + [TelemetryFor(t.devices, route.serial, msg.payload, now)]
            && (route.kind != "status" ==> r.devices == t.devices && r.lights == t.lights)
            && (route.kind != "ack" ==> r.commands == t.commands))
  {
  }

  /** `HandleIncomingAsync`. */
  method HandleIncoming(db: Db, baseTopic: string, msg: Inbound, now: Ticks)
    requires db.Valid()
    modifies db
    ensures db.Valid()
    ensures db.Snapshot() == IncomingEffect(old(db.Snapshot()), baseTopic, msg, now)
  {
    var route := RouteTopic(baseTopic, msg.topic);
    if route.Ignored? {
      return;
    }
    PersistTelemetry(db, route.serial, msg.payload, now);
    if route.kind == "status" {
      ProcessStatus(db, route.serial, msg.doc, now);
    } else if route.kind == "ack" {
      PushAck(db, route.serial, msg.doc, now);
    }
  }

  /** A status message for a known device whose payload does not parse still
      stamps the device, and changes no light. */
  lemma UnparsedStatusStampsDevice(t: Tables, serial: string, now: Ticks, i: nat)
    requires DevicesValid(t.devices) && i < |t.devices| && t.devices[i].Serial == serial
    ensures var r := StatusEffect(t, serial, None, now);
      && r.devices == t.devices[i := t.devices[i].(LastSeen := Some(now))]
      && r.lights == t.lights && r.commands == t.commands
  {
    var f := FindDeviceBySerial(t.devices, serial);
    assert f.Some?;
    assert f.value == i;
  }
}
