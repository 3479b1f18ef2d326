/** The database context as the queue uses it: the four tables as sequences in
    a class whose methods reassign them, the keys and unique indexes the schema
    declares, the lookups by those keys, and the delivery step shared by the
    HTTP and the MQTT acknowledgement. */
module Store {
  import opened Wrappers
  import opened Guids
  import opened Clock
  import opened Entities

  /** The primary key of `PendingCommands`. */
  predicate UniqueCommandIds(cmds: seq<PendingCommand>) {
    forall i, j :: 0 <= i < j < |cmds| ==> cmds[i].Id != cmds[j].Id
  }

  predicate CommandsValid(cmds: seq<PendingCommand>) {
    UniqueCommandIds(cmds) && forall i :: 0 <= i < |cmds| ==> Consistent(cmds[i])
  }

  /** The primary key of `LightChannels` and its unique index on (DeviceId, ChNo). */
  predicate LightsValid(lights: seq<LightChannel>) {
    && (forall i :: 0 <= i < |lights| ==> ValidLight(lights[i]))
    && (forall i, j :: 0 <= i < j < |lights| ==> lights[i].Id != lights[j].Id)
    && (forall i, j :: 0 <= i < j < |lights| ==>
          lights[i].DeviceId != lights[j].DeviceId || lights[i].ChNo != lights[j].ChNo)
  }

  /** The primary key of `Devices` and its unique index on `Serial`. */
  predicate DevicesValid(devices: seq<Device>) {
    forall i, j :: 0 <= i < j < |devices| ==> devices[i].Id != devices[j].Id && devices[i].Serial != devices[j].Serial
  }

  function FindCommand(cmds: seq<PendingCommand>, id: Guid, serial: string): Option<nat> {
    FirstIndex(cmds, (c: PendingCommand) => c.Id == id && c.DeviceSerial == serial)
  }

  function FindDeviceBySerial(devices: seq<Device>, serial: string): Option<nat> {
    FirstIndex(devices, (d: Device) => d.Serial == serial)
  }

  function FindDeviceById(devices: seq<Device>, id: Guid): Option<nat> {
    FirstIndex(devices, (d: Device) => d.Id == id)
  }

  function FindLight(lights: seq<LightChannel>, deviceId: Guid, ch: int): Option<nat> {
    FirstIndex(lights, (l: LightChannel) => l.DeviceId == deviceId && l.ChNo == ch)
  }

  /** Under the unique index, the (DeviceId, ChNo) lookup finds the one row with that key. */
  lemma FindLightIsTheRow(lights: seq<LightChannel>, k: nat)
    requires LightsValid(lights) && k < |lights|
    ensures FindLight(lights, lights[k].DeviceId, lights[k].ChNo) == Some(k)
  {
  }

  /** Under the primary key, the (Id, DeviceSerial) lookup finds the record with that id
      exactly when the serial owns it. */
  lemma FindCommandIsTheRow(cmds: seq<PendingCommand>, k: nat, serial: string)
    requires UniqueCommandIds(cmds) && k < |cmds|
    ensures FindCommand(cmds, cmds[k].Id, serial) == if cmds[k].DeviceSerial == serial then Some(k) else None
  {
  }

  function MarkDelivered(c: PendingCommand, now: Ticks): (d: PendingCommand)
    ensures d.Status == Delivered && d.DeliveredAt == Some(now)
    ensures d == c.(Status := d.Status, DeliveredAt := d.DeliveredAt)
  {
    c.(Status := Delivered, DeliveredAt := Some(now))
  }

  /** Find the record by id and serial together and, when there is one, mark it
      delivered at `now`. The flag says whether a record was found; nothing
      else about the record, and no other record, changes. */
  function Deliver(cmds: seq<PendingCommand>, id: Guid, serial: string, now: Ticks): (r: (bool, seq<PendingCommand>))
    ensures r.0 <==> exists i :: 0 <= i < |cmds| && cmds[i].Id == id && cmds[i].DeviceSerial == serial
    ensures !r.0 ==> r.1 == cmds
    ensures |r.1| == |cmds|
    ensures forall i :: 0 <= i < |cmds| ==>
      r.1[i] == cmds[i] || (cmds[i].Id == id && cmds[i].DeviceSerial == serial && r.1[i] == MarkDelivered(cmds[i], now))
    ensures r.0 ==> exists i :: 0 <= i < |cmds| && cmds[i].Id == id && r.1[i] == MarkDelivered(cmds[i], now)
  {
    match FindCommand(cmds, id, serial)
    case None => (false, cmds)
    case Some(i) => (true, cmds[i := MarkDelivered(cmds[i], now)])
  }

  lemma DeliverKeepsValid(cmds: seq<PendingCommand>, id: Guid, serial: string, now: Ticks)
    requires CommandsValid(cmds)
    ensures CommandsValid(Deliver(cmds, id, serial, now).1)
  {
    var r := Deliver(cmds, id, serial, now).1;
    forall i, j | 0 <= i < j < |r| ensures r[i].Id != r[j].Id {
      assert r[i].Id == cmds[i].Id && r[j].Id == cmds[j].Id;
    }
    forall i | 0 <= i < |r| ensures Consistent(r[i]) {
      assert Consistent(cmds[i]);
    }
  }

  /** Acknowledging twice: the record stays delivered and carries the later time. */
  lemma DeliverTwice(cmds: seq<PendingCommand>, id: Guid, serial: string, t1: Ticks, t2: Ticks)
    requires UniqueCommandIds(cmds)
    requires Deliver(cmds, id, serial, t1).0
    ensures var once := Deliver(cmds, id, serial, t1);
      var twice := Deliver(once.1, id, serial, t2);
      && twice.0
      && forall i :: 0 <= i < |cmds| ==>
           if cmds[i].Id == id then twice.1[i] == MarkDelivered(cmds[i], t2) else twice.1[i] == cmds[i]
  {
    var once := Deliver(cmds, id, serial, t1);
    var k :| 0 <= k < |cmds| && cmds[k].Id == id && once.1[k] == MarkDelivered(cmds[k], t1);
    var twice := Deliver(once.1, id, serial, t2);
    assert once.1[k].Id == id && once.1[k].DeviceSerial == serial;
    forall i | 0 <= i < |cmds|
      ensures if cmds[i].Id == id then twice.1[i] == MarkDelivered(cmds[i], t2) else twice.1[i] == cmds[i]
    {
      if cmds[i].Id == id {
        assert i == k;
      }
    }
  }

  /** The four tables at one instant. */
  datatype Tables = Tables(
    devices: seq<Device>,
    lights: seq<LightChannel>,
    commands: seq<PendingCommand>,
    telemetries: seq<Telemetry>)

  /** The keys and unique indexes of the schema, and the lifecycle of every command. */
  predicate TablesValid(t: Tables) {
    DevicesValid(t.devices) && LightsValid(t.lights) && CommandsValid(t.commands)
  }

  /** The tables of the database context; each request's changes are
      committed as one step. */
  class Db {
    var devices: seq<Device>
    var lights: seq<LightChannel>
    var commands: seq<PendingCommand>
    var telemetries: seq<Telemetry>

    function Snapshot(): Tables
      reads this
    {
      Tables(devices, lights, commands, telemetries)
    }

    ghost predicate Valid()
      reads this
    {
      TablesValid(Snapshot())
    }

    constructor ()
      ensures Valid()
      ensures Snapshot() == Tables([], [], [], [])
    {
      devices, lights, commands, telemetries := [], [], [], [];
    }
  }
}
