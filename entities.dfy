/** The records the command queue works on: `PendingCommand` and
    `LightChannel`, with their defaults and field constraints, and the columns
    of `Devices` and `Telemetries` the queue reads and writes. */
module Entities {
  import opened Wrappers
  import opened Guids
  import opened Clock
  import opened JsonDoc

  /** The values the code assigns to `PendingCommand.Status`. The comment on
      the column also names "expired", which nothing assigns. */
  datatype Status = Queued | Sent | Delivered

  /** The stored text of a status; the column is `[MaxLength(16)]`. */
  function StatusText(s: Status): (t: string)
    ensures 0 < |t| <= 16
  {
    match s
    case Queued => "queued"
    case Sent => "sent"
    case Delivered => "delivered"
  }

  lemma StatusTextInjective(s: Status, u: Status)
    requires StatusText(s) == StatusText(u)
    ensures s == u
  {
  }

  /** The default lifetime of a queued command. */
  const CommandTtlMinutes: nat := 2

  /** A row of `PendingCommands`. `DeviceId` is optional, `DeviceSerial` is
      required and is the routing key, `Payload` is the stored JSON document. */
  datatype PendingCommand = PendingCommand(
    Id: Guid,
    DeviceId: Option<Guid>,
    DeviceSerial: string,
    Payload: Json,
    Status: Status,
    CreatedAt: Ticks,
    SentAt: Option<Ticks>,
    DeliveredAt: Option<Ticks>,
    ExpiresAt: Ticks)

  /** What every writer of the table keeps true of a record: it expires after
      it was created, a queued record has been neither sent nor delivered, and a
      sent or delivered record carries the matching timestamp. */
  predicate Consistent(c: PendingCommand) {
    && c.CreatedAt < c.ExpiresAt
    && (c.Status == Queued ==> c.SentAt.None? && c.DeliveredAt.None?)
    && (c.Status == Sent ==> c.SentAt.Some?)
    && (c.Status == Delivered ==> c.DeliveredAt.Some?)
  }

  /** `new PendingCommand { DeviceSerial = serial }` at instant `now` with the
      fresh `Guid.NewGuid()` value `id`: every other field takes its initialiser. */
  function NewPendingCommand(id: Guid, serial: string, now: Ticks): (c: PendingCommand)
    ensures Consistent(c)
    ensures c.Id == id && c.DeviceSerial == serial
    ensures c.ExpiresAt - c.CreatedAt == CommandTtlMinutes * TicksPerMinute
  {
    PendingCommand(id, None, serial, Obj([]), Queued, now, None, None, AddMinutes(now, CommandTtlMinutes))
  }

  /** The initialisers: queued, never sent or delivered, no device id, payload `{}`. */
  lemma NewPendingCommandDefaults(id: Guid, serial: string, now: Ticks)
    ensures var c := NewPendingCommand(id, serial, now);
      && StatusText(c.Status) == "queued"
      && c.SentAt.None? && c.DeliveredAt.None? && c.DeviceId.None?
      && c.Payload == Obj([]) && c.CreatedAt == now
  {
  }

  const MinChannel: int := 1
  const MaxChannel: int := 32
  const MaxLightNameLength: nat := 80

  predicate ValidChannelNo(ch: int) {
    MinChannel <= ch <= MaxChannel
  }

  /** A row of `LightChannels`; `DeviceId` is required. */
  datatype LightChannel = LightChannel(
    Id: Guid,
    DeviceId: Guid,
    ChNo: int,
    Name: Option<string>,
    IsOn: bool,
    UpdatedAt: Ticks)

  /** The field annotations: `[Range(1, 32)]` on `ChNo`, `[MaxLength(80)]` on `Name`. */
  predicate ValidLight(l: LightChannel) {
    ValidChannelNo(l.ChNo) && (l.Name.Some? ==> |l.Name.value| <= MaxLightNameLength)
  }

  /** `new LightChannel { DeviceId = deviceId, ChNo = chNo, Name = name }` at `now`. */
  function NewLightChannel(id: Guid, deviceId: Guid, chNo: int, name: Option<string>, now: Ticks): (l: LightChannel)
    ensures !l.IsOn
    ensures ValidLight(l) <==> ValidChannelNo(chNo) && (name.Some? ==> |name.value| <= MaxLightNameLength)
  {
    LightChannel(id, deviceId, chNo, name, false, now)
  }

  /** The columns of a `Devices` row the queue uses; `OwnerId` is the owner of the
      boat the device belongs to. */
  datatype Device = Device(Id: Guid, Serial: string, OwnerId: Guid, LastSeen: Option<Ticks>)

  /** A row of `Telemetries`: the raw payload of one accepted MQTT message. */
  datatype Telemetry = Telemetry(DeviceSerial: string, DeviceId: Option<Guid>, Ts: Ticks, Payload: string)
}
