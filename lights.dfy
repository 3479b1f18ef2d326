/** The light switch request of the app: check the channel, the device's
    owner and the channel row, work out the new state, queue a command, try to
    publish it over MQTT (marking it sent when that works), and update the
    channel optimistically. */
module Lights {
  import opened Wrappers
  import opened Text
  import opened Guids
  import opened Clock
  import opened JsonDoc
  import opened Entities
  import opened Store
  import opened Topics
  import MqttBridge
  import DeviceLink

  /** The request body: `{ "state": 0|1 }` or `{ "toggle": true }`. */
  datatype LightSetRequest = LightSetRequest(State: Option<int>, Toggle: Option<bool>)

  /** The responses of `Set`. `Accepted` is the 200 body `{ id, queued, ch, state }`. */
  datatype SetResult =
    | BadRequest(message: string)
    | NotFound
    | Accepted(id: string, queued: bool, ch: int, state: int)

  const InvalidChannel: string := "invalid channel"
  const InvalidState: string := "Provide { state:0|1 } or { toggle:true }"

  /** A message handed to the bridge for publishing. */
  datatype Outgoing = Outgoing(topic: string, payload: Json)

  /** The target state: a toggle inverts the current one and takes precedence;
      otherwise `state` must be 0 or 1. `None` is the 400 response. */
  function NewState(isOn: bool, req: LightSetRequest): (r: Option<int>)
    ensures r.Some? ==> r.value == 0 || r.value == 1
    ensures req.Toggle == Some(true) ==> r == Some(if isOn then 0 else 1)
    ensures req.Toggle != Some(true) ==>
      (r.Some? <==> req.State == Some(0) || req.State == Some(1)) && (r.Some? ==> r == req.State)
  {
    if req.Toggle == Some(true) then Some(if isOn then 0 else 1)
    else if req.State.Some? && (req.State.value == 0 || req.State.value == 1) then req.State
    else None
  }

  /** The command envelope: `{ id, type: "light", ch, state, source: "app", expiry }`
      with the expiry one minute ahead in Unix seconds, members in that order. */
  function Envelope(cmdId: string, ch: int, state: int, now: Ticks): Json {
    Obj([("id", Str(cmdId)),
         ("type", Str("light")),
         ("ch", Num(Integer(ch))),
         ("state", Num(Integer(state))),
         ("source", Str("app")),
         ("expiry", Num(Integer(ToUnixTimeSeconds(AddMinutes(now, 1)))))])
  }

  /** The queued row: a new record for the device's serial, carrying the device
      id and the envelope, expiring two minutes after `now`. */
  function CommandRecord(recordId: Guid, dev: Device, payload: Json, now: Ticks): (c: PendingCommand)
    ensures Consistent(c)
    ensures c.Id == recordId && c.DeviceId == Some(dev.Id) && c.DeviceSerial == dev.Serial && c.Payload == payload
    ensures c.Status == Queued && c.SentAt.None? && c.DeliveredAt.None?
    ensures c.CreatedAt == now && c.ExpiresAt == AddMinutes(now, CommandTtlMinutes)
  {
    NewPendingCommand(recordId, dev.Serial, now).(DeviceId := Some(dev.Id), Payload := payload)
  }

  predicate SameCommand(c: PendingCommand, serial: string, payload: Json) {
    c.DeviceSerial == serial && c.Payload == payload
  }

  /** `OrderByDescending(x => x.CreatedAt).FirstAsync(same serial and payload)`:
      the matching row created last, the later row on a tie. */
  function NewestMatch(cmds: seq<PendingCommand>, serial: string, payload: Json): (r: Option<nat>)
    ensures r.None? <==> forall j :: 0 <= j < |cmds| ==> !SameCommand(cmds[j], serial, payload)
    ensures r.Some? ==> r.value < |cmds| && SameCommand(cmds[r.value], serial, payload)
    ensures r.Some? ==> forall j :: 0 <= j < |cmds| && SameCommand(cmds[j], serial, payload) ==>
      cmds[j].CreatedAt < cmds[r.value].CreatedAt || (cmds[j].CreatedAt == cmds[r.value].CreatedAt && j <= r.value)
    decreases |cmds|
  {
    if |cmds| == 0 then None
    else
      var last := |cmds| - 1;
      var rest := NewestMatch(cmds[..last], serial, payload);
      assert forall j :: 0 <= j < last ==> cmds[..last][j] == cmds[j];
      if SameCommand(cmds[last], serial, payload) && (rest.None? || cmds[rest.value].CreatedAt <= cmds[last].CreatedAt)
      then Some(last)
      else rest
  }

  function MarkSent(c: PendingCommand, now: Ticks): PendingCommand {
    c.(Status := Sent, SentAt := Some(now))
  }

  /** The queue after step 1 (add) and step 2 (publish, then mark the newest
      matching row sent); a failed publish leaves the new row queued. */
  function QueueAfterPublish(cmds: seq<PendingCommand>, rec: PendingCommand, publishOk: bool, now: Ticks): seq<PendingCommand> {
    var added := cmds + [rec];
    if !publishOk then added
    else match NewestMatch(added, rec.DeviceSerial, rec.Payload)
      case None => added
      case Some(i) => added[i := MarkSent(added[i], now)]
  }

  /** The effect of `Set` for user `uid` on device `deviceId`, channel `ch`, at
      `now`, with `recordId` the new record's id, `cmdGuid` the envelope id and
      `publishOk` whether publishing went through: the response, the message
      handed to the bridge, and the tables afterwards. */
  function SetEffect(t: Tables, baseTopic: string, deviceId: Guid, ch: int, req: LightSetRequest, uid: Guid,
                     now: Ticks, recordId: Guid, cmdGuid: Guid, publishOk: bool): (SetResult, Option<Outgoing>, Tables)
  {
    if !ValidChannelNo(ch) then (BadRequest(InvalidChannel), None, t)
    else match FindDeviceById(t.devices, deviceId)
      case None => (NotFound, None, t)
      case Some(d) =>
        var dev := t.devices[d];
        if dev.OwnerId != uid then (NotFound, None, t)
        else match FindLight(t.lights, deviceId, ch)
          case None => (NotFound, None, t)
          case Some(l) =>
            var light := t.lights[l];
            match NewState(light.IsOn, req)
            case None => (BadRequest(InvalidState), None, t)
            case Some(state) =>
              var cmdId := FormatN(cmdGuid);
              var payload := Envelope(cmdId, ch, state, now);
              var rec := CommandRecord(recordId, dev, payload, now);
              var out := if publishOk then Some(Outgoing(CommandTopic(baseTopic, dev.Serial), payload)) else None;
              (Accepted(cmdId, true, ch, state), out,
               t.(commands := QueueAfterPublish(t.commands, rec, publishOk, now),
                  lights := t.lights[l := light.(IsOn := state == 1, UpdatedAt := now)]))
  }

  predicate FreshId(cmds: seq<PendingCommand>, id: Guid) {
    forall i :: 0 <= i < |cmds| ==> cmds[i].Id != id
  }

  lemma QueueAfterPublishKeepsValid(cmds: seq<PendingCommand>, rec: PendingCommand, publishOk: bool, now: Ticks)
    requires CommandsValid(cmds) && FreshId(cmds, rec.Id) && Consistent(rec)
    ensures CommandsValid(QueueAfterPublish(cmds, rec, publishOk, now))
  {
    var added := cmds + [rec];
    assert CommandsValid(added);
    var r := QueueAfterPublish(cmds, rec, publishOk, now);
    assert |r| == |added| && forall k :: 0 <= k < |r| ==> r[k].Id == added[k].Id;
  }

  lemma SetKeepsValid(t: Tables, baseTopic: string, deviceId: Guid, ch: int, req: LightSetRequest, uid: Guid,
                      now: Ticks, recordId: Guid, cmdGuid: Guid, publishOk: bool)
    requires TablesValid(t) && FreshId(t.commands, recordId)
    ensures TablesValid(SetEffect(t, baseTopic, deviceId, ch, req, uid, now, recordId, cmdGuid, publishOk).2)
  {
    var r := SetEffect(t, baseTopic, deviceId, ch, req, uid, now, recordId, cmdGuid, publishOk);
    if r.0.Accepted? {
      var dev := t.devices[FindDeviceById(t.devices, deviceId).value];
      var l := FindLight(t.lights, deviceId, ch).value;
      var payload := Envelope(FormatN(cmdGuid), ch, r.0.state, now);
      QueueAfterPublishKeepsValid(t.commands, CommandRecord(recordId, dev, payload, now), publishOk, now);
      var lights := r.2.lights;
      assert forall k :: 0 <= k < |lights| ==>
        lights[k].Id == t.lights[k].Id && lights[k].DeviceId == t.lights[k].DeviceId
        && lights[k].ChNo == t.lights[k].ChNo && lights[k].Name == t.lights[k].Name;
    }
  }

  /** `Set`. The publish may fail; the command then stays queued for the
      device to poll, and the channel is updated either way. */
  method Set(db: Db, baseTopic: string, deviceId: Guid, ch: int, req: LightSetRequest, uid: Guid,
             now: Ticks, recordId: Guid, cmdGuid: Guid, publishOk: bool)
    returns (result: SetResult, published: Option<Outgoing>)
    requires db.Valid() && FreshId(db.commands, recordId)
    modifies db
    ensures db.Valid()
    ensures (result, published, db.Snapshot()) ==
      SetEffect(old(db.Snapshot()), baseTopic, deviceId, ch, req, uid, now, recordId, cmdGuid, publishOk)
  {
    SetKeepsValid(db.Snapshot(), baseTopic, deviceId, ch, req, uid, now, recordId, cmdGuid, publishOk);
    published := None;
    if !ValidChannelNo(ch) {
      return BadRequest(InvalidChannel), None;
    }
    var d := FindDeviceById(db.devices, deviceId);
    if d.None? || db.devices[d.value].OwnerId != uid {
      return NotFound, None;
    }
    var dev := db.devices[d.value];
    var l := FindLight(db.lights, deviceId, ch);
    if l.None? {
      return NotFound, None;
    }
    var light := db.lights[l.value];
    var state := NewState(light.IsOn, req);
    if state.None? {
      return BadRequest(InvalidState), None;
    }
    var cmdId := FormatN(cmdGuid);
    var payload := Envelope(cmdId, ch, state.value, now);
    // 1) queue
    db.commands := db.commands + [CommandRecord(recordId, dev, payload, now)];
    // 2) publish, and mark the newest matching row sent
    if publishOk {
      published := Some(Outgoing(CommandTopic(baseTopic, dev.Serial), payload));
      var pc := NewestMatch(db.commands, dev.Serial, payload);
      if pc.Some? {
        db.commands := db.commands[pc.value := MarkSent(db.commands[pc.value], now)];
      }
    }
    // 3) optimistic update
    db.lights := db.lights[l.value := light.(IsOn := state.value == 1, UpdatedAt := now)];
    result := Accepted(cmdId, true, ch, state.value);
  }

  /** The guards, in order: channel range, then the device and its owner, then
      the channel row, then the requested state. Every refusal leaves the
      tables unchanged and publishes nothing. */
  lemma SetGuards(t: Tables, baseTopic: string, deviceId: Guid, ch: int, req: LightSetRequest, uid: Guid,
                  now: Ticks, recordId: Guid, cmdGuid: Guid, publishOk: bool)
    requires DevicesValid(t.devices)
    ensures var (res, out, t') := SetEffect(t, baseTopic, deviceId, ch, req, uid, now, recordId, cmdGuid, publishOk);
      && (res == BadRequest(InvalidChannel) <==> ch < 1 || ch > 32)
      && (res == NotFound <==>
            1 <= ch <= 32
            && ((forall i :: 0 <= i < |t.devices| ==> t.devices[i].Id != deviceId || t.devices[i].OwnerId != uid)
                || forall j :: 0 <= j < |t.lights| ==> t.lights[j].DeviceId != deviceId || t.lights[j].ChNo != ch))
      && (res == BadRequest(InvalidState) ==> req.Toggle != Some(true) && req.State != Some(0) && req.State != Some(1))
      && (!res.Accepted? ==> out.None? && t' == t)
  {
    var r := SetEffect(t, baseTopic, deviceId, ch, req, uid, now, recordId, cmdGuid, publishOk);
    if ValidChannelNo(ch) && FindDeviceById(t.devices, deviceId).Some? {
      var d := FindDeviceById(t.devices, deviceId).value;
      forall i | 0 <= i < |t.devices| && t.devices[i].Id == deviceId ensures i == d { }
    }
  }

  /** An accepted request: the response echoes the envelope id, channel and
      state; exactly one record is added, carrying the envelope; the channel
      row takes the new state; devices and telemetry are untouched. */
  lemma SetAccepted(t: Tables, baseTopic: string, deviceId: Guid, ch: int, req: LightSetRequest, uid: Guid,
                    now: Ticks, recordId: Guid, cmdGuid: Guid, publishOk: bool)
    requires SetEffect(t, baseTopic, deviceId, ch, req, uid, now, recordId, cmdGuid, publishOk).0.Accepted?
    ensures var (res, out, t') := SetEffect(t, baseTopic, deviceId, ch, req, uid, now, recordId, cmdGuid, publishOk);
      exists d, l :: 0 <= d < |t.devices| && 0 <= l < |t.lights|
        && t.devices[d].Id == deviceId && t.devices[d].OwnerId == uid
        && t.lights[l].DeviceId == deviceId && t.lights[l].ChNo == ch
        && Some(res.state) == NewState(t.lights[l].IsOn, req)
        && res == Accepted(FormatN(cmdGuid), true, ch, res.state)
        && (out.Some? <==> publishOk)
        && (out.Some? ==> out.value == Outgoing(CommandTopic(baseTopic, t.devices[d].Serial), Envelope(FormatN(cmdGuid), ch, res.state, now)))
        && |t'.commands| == |t.commands| + 1
        && t'.commands[|t.commands|].Id == recordId
        && t'.commands[|t.commands|].DeviceSerial == t.devices[d].Serial
        && t'.commands[|t.commands|].Payload == Envelope(FormatN(cmdGuid), ch, res.state, now)
        && t'.lights == t.lights[l := t.lights[l].(IsOn := res.state == 1, UpdatedAt := now)]
        && t'.devices == t.devices && t'.telemetries == t.telemetries
  {
    var d := FindDeviceById(t.devices, deviceId).value;
    var l := FindLight(t.lights, deviceId, ch).value;
    var r := SetEffect(t, baseTopic, deviceId, ch, req, uid, now, recordId, cmdGuid, publishOk);
    var rec := CommandRecord(recordId, t.devices[d], Envelope(FormatN(cmdGuid), ch, r.0.state, now), now);
    var added := t.commands + [rec];
    assert added[|t.commands|] == rec;
  }

  /** When no earlier row of the serial carries the same envelope, the record
      marked sent is the new one: it is sent exactly when the publish went
      through, with `SentAt` set then, and every earlier row is unchanged. */
  lemma SentIffPublished(cmds: seq<PendingCommand>, rec: PendingCommand, publishOk: bool, now: Ticks)
    requires forall j :: 0 <= j < |cmds| ==> !SameCommand(cmds[j], rec.DeviceSerial, rec.Payload)
    ensures var q := QueueAfterPublish(cmds, rec, publishOk, now);
      && q == cmds + [if publishOk then MarkSent(rec, now) else rec]
      && q[..|cmds|] == cmds
  {
    var added := cmds + [rec];
    if publishOk {
      var m := NewestMatch(added, rec.DeviceSerial, rec.Payload);
      assert SameCommand(added[|cmds|], rec.DeviceSerial, rec.Payload);
      assert m.value == |cmds|;
    }
  }

  /** The channel row is written the same whether or not the publish went through. */
  lemma LightWrittenEitherWay(t: Tables, baseTopic: string, deviceId: Guid, ch: int, req: LightSetRequest, uid: Guid,
                              now: Ticks, recordId: Guid, cmdGuid: Guid)
    ensures var a := SetEffect(t, baseTopic, deviceId, ch, req, uid, now, recordId, cmdGuid, true);
      var b := SetEffect(t, baseTopic, deviceId, ch, req, uid, now, recordId, cmdGuid, false);
      a.0 == b.0 && a.2.lights == b.2.lights && a.2.devices == b.2.devices
  {
  }

  /** The envelope an `ack` message over MQTT echoes, as the bridge reads it. */
  function EchoedAck(cmdGuid: Guid): Json {
    Obj([("id", Str(FormatN(cmdGuid)))])
  }

  lemma EchoedAckNamesEnvelopeId(cmdGuid: Guid)
    ensures MqttBridge.AckedCommandId(Some(EchoedAck(cmdGuid))) == Some(cmdGuid)
  {
    FormatNRoundTrip(cmdGuid);
    FormatNHasNoSpaceOrHyphen(cmdGuid);
    assert !IsWhiteSpace(FormatN(cmdGuid)[0]);
    assert Property([("id", Str(FormatN(cmdGuid)))], "id") == Some(Str(FormatN(cmdGuid)));
  }

  /** The envelope id and the record id are drawn separately, so a device
      echoing the envelope id over MQTT marks the record delivered only when
      the two happen to coincide; otherwise the record keeps its state and the
      device has to acknowledge it over HTTP. */
  lemma MqttAckOfEnvelopeId(cmds: seq<PendingCommand>, k: nat, cmdGuid: Guid, now: Ticks)
    requires UniqueCommandIds(cmds) && k < |cmds|
    ensures var r := MqttBridge.PushAckEffect(cmds, cmds[k].DeviceSerial, Some(EchoedAck(cmdGuid)), now);
      r[k] == if cmds[k].Id == cmdGuid then MarkDelivered(cmds[k], now) else cmds[k]
  {
    EchoedAckNamesEnvelopeId(cmdGuid);
    MqttBridge.PushAckMarksOwnOnly(cmds, cmds[k].DeviceSerial, Some(EchoedAck(cmdGuid)), now);
  }

  /** The envelope expires one minute after `now` and the record one minute later. */
  lemma EnvelopeExpiry(recordId: Guid, dev: Device, cmdId: string, ch: int, state: int, now: Ticks)
    ensures var expiry := ToUnixTimeSeconds(AddMinutes(now, 1));
      && Envelope(cmdId, ch, state, now).props[5] == ("expiry", Num(Integer(expiry)))
      && expiry == ToUnixTimeSeconds(now) + 60
      && ToUnixTimeSeconds(CommandRecord(recordId, dev, Envelope(cmdId, ch, state, now), now).ExpiresAt) == expiry + 60
  {
    UnixSecondsAfterMinutes(now, 1);
    UnixSecondsAfterMinutes(now, CommandTtlMinutes);
  }

  lemma {:induction false} FilterOnlyLast(cmds: seq<PendingCommand>, x: PendingCommand, serial: string, now: Ticks)
    requires forall j :: 0 <= j < |cmds| ==> !DeviceLink.Eligible(cmds[j], serial, now)
    requires DeviceLink.Eligible(x, serial, now)
    ensures DeviceLink.Filter(cmds + [x], serial, now) == [x]
    decreases |cmds|
  {
    if |cmds| > 0 {
      assert (cmds + [x])[1..] == cmds[1..] + [x];
      FilterOnlyLast(cmds[1..], x, serial, now);
    }
  }

  /** A command queued by `Set` for a serial with nothing else pending is what a
      poll by that serial at the same instant returns, whatever the publish did. */
  lemma SetThenPoll(cmds: seq<PendingCommand>, rec: PendingCommand, publishOk: bool, now: Ticks, max: Option<int>)
    requires rec.CreatedAt == now && rec.ExpiresAt == AddMinutes(now, CommandTtlMinutes) && rec.Status == Queued
    requires forall j :: 0 <= j < |cmds| ==> !SameCommand(cmds[j], rec.DeviceSerial, rec.Payload)
    requires forall j :: 0 <= j < |cmds| ==> !DeviceLink.Eligible(cmds[j], rec.DeviceSerial, now)
    ensures DeviceLink.Poll(QueueAfterPublish(cmds, rec, publishOk, now), DeviceLink.PollReq(rec.DeviceSerial, max), now)
            == [DeviceLink.PolledCommand(rec.Id, rec.Payload)]
  {
    SentIffPublished(cmds, rec, publishOk, now);
    var x := if publishOk then MarkSent(rec, now) else rec;
    FilterOnlyLast(cmds, x, rec.DeviceSerial, now);
    assert DeviceLink.SortByCreatedAt([x]) == [x];
    assert DeviceLink.SelectedRows(cmds + [x], DeviceLink.PollReq(rec.DeviceSerial, max), now) == [x];
  }
}
