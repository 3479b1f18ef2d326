# IMAPI command queue and delivery reconciliation, in Dafny

IMAPI is an ASP.NET Core back end for boats that carry an ESP32 controller.
A user switches a light with `PATCH /api/devices/{deviceId}/lights/{ch}`
(`LightsController.Set`). That request does three things. It queues a
`PendingCommand` row for the device's serial. It publishes the command over
MQTT on `{BaseTopic}/device/{serial}/cmd`, and marks the row `sent` when the
publish goes through. It then updates the channel's state optimistically.

A device gets its commands in one of two ways:

- **HTTP.** It polls `POST /api/device/poll` (`DeviceLinkController.Poll`).
  This returns the oldest undelivered, unexpired commands of that serial,
  at most a clamped batch size. It acknowledges each command with
  `POST /api/device/ack` (`DeviceLinkController.Ack`), which marks the row
  `delivered`.
- **MQTT.** The bridge (`MqttBridge`) subscribes to
  `{BaseTopic}/device/+/status` and `{BaseTopic}/device/+/ack`.
  `HandleIncomingAsync` splits and checks the topic, then stores a telemetry
  row. A `status` message stamps the device's `LastSeen` and folds its
  `relays` array into the light channels (`ProcessStatusAsync`). An `ack`
  message marks the named command `delivered` (`PushAckAsync`).

The HMAC validator for device requests (`DeviceAuthService.ValidateAsync` and
`HmacHex`) checks four things in order: the headers, the timestamp's skew
against the clock, the device's secret, and a lowercase-hex HMAC signature.

## How the model is built

The database is a class, `Store.Db`. It holds one sequence per table (pending
commands, devices, light channels, telemetry). Each controller or bridge
operation that saves changes is a method on it. Each method is proved to leave
the tables equal to a pure effect function of the old tables: `DeviceLink.AckEffect`,
`MqttBridge.StatusEffect`, `MqttBridge.PushAckEffect`, `MqttBridge.IncomingEffect`
and `Lights.SetEffect`. The properties are proved about those functions.

Two operations loop in the source, and the model keeps both as `while` loops
with invariants:

- the `foreach` over `relays` in `ProcessStatusAsync`;
- the `foreach` over the MAC bytes in `HmacHex`.

Poll is a pure query, modelled as a filter, an insertion sort by
`CreatedAt` that keeps rows of the same instant in table order, and a take.

Several things the source gets from its environment become parameters:

- the clock (`DateTime.UtcNow`) is a `now` argument in .NET ticks, read once
  per request;
- new GUIDs are arguments;
- whether the MQTT publish succeeded is a boolean `publishOk`;
- the HMAC-SHA256 primitive and the data-protection `Unprotect` are function
  parameters;
- the parsed JSON document of a payload is an optional `Json` value, `None`
  when the payload is not JSON.

The model follows the source in these respects:

- `int` and `long` wrap-around is written out where the source computes with it;
- `Guid.TryParse` is modelled for the `N`, `D`, `B` and `P` formats;
- `long.TryParse` is modelled with the invariant-culture integer style;
- topic comparison is ordinal and ignores case for ASCII letters.

## Model

| member | source | states |
|---|---|---|
| `Text.Split` | IMAPI/Services/MqttBridge.cs:193 | `Split` yields at least one part, and no part holds the separator. Joining the parts with the separator gives back the input. |
| `Text.SplitJoin` | IMAPI/Services/MqttBridge.cs:193 | Splitting a join of separator-free parts gives back the parts. |
| `Text.SplitAppend` | IMAPI/Services/MqttBridge.cs:193 | Splitting `a + sep + b` is the split of `a` followed by the split of `b`. |
| `Text.SplitNoSeparator` | IMAPI/Services/MqttBridge.cs:193 | A string without the separator splits into itself alone. |
| `Text.RemoveEmpty` | IMAPI/Services/MqttBridge.cs:193 | `RemoveEmptyEntries` keeps exactly the non-empty parts, and never more parts than it was given. |
| `Text.RemoveEmptyAppend` | IMAPI/Services/MqttBridge.cs:193 | Removing empty entries distributes over concatenation. |
| `Text.RemoveEmptyKeepsNonEmpty` | IMAPI/Services/MqttBridge.cs:193 | A list with no empty part is left as it is. |
| `Text.SplitNonEmpty` | IMAPI/Services/MqttBridge.cs:193 | Every segment of a split with `RemoveEmptyEntries` is non-empty and holds no separator. |
| `Text.JoinCons` | IMAPI/Services/DeviceAuthService.cs:39 | `String.Join` of a part followed by more parts is that part, the separator, and the join of the rest. |
| `Text.Trim` | IMAPI/Services/DeviceAuthService.cs:23 | The result is a slice of the input with only white space cut from its front and back, and it neither starts nor ends with white space. It is empty exactly when the input is blank, which is the `IsNullOrWhiteSpace` test. |
| `Text.TrimNothingToTrim` | IMAPI/Services/DeviceAuthService.cs:23 | A string without white space trims to itself. |
| `Text.UpperAscii` | IMAPI/Services/MqttBridge.cs:201-204 | Case folding changes only ASCII lower-case letters, mapping each to its upper-case letter. |
| `Text.NotEqualsIgnoreCaseMissingChar` | IMAPI/Services/MqttBridge.cs:201-202 | Two strings, one containing a non-letter the other lacks, are never equal ignoring case. |
| `Guids.HexValue` | IMAPI/Services/MqttBridge.cs:323 | A character has a hex value exactly when it is a decimal digit or a letter `a`-`f` in either case. |
| `Guids.HexCharValue` | IMAPI/Controllers/LightsController.cs:62 | Each formatted nibble is a lower-case hex digit that parses back to that nibble. |
| `Guids.FormatN` | IMAPI/Controllers/LightsController.cs:62 | `ToString("N")` gives the 32 hex digits of the GUID, in order. |
| `Guids.FormatD` | IMAPI/Services/MqttBridge.cs:323 | The `D` form has 36 characters. |
| `Guids.ParseDigits` | IMAPI/Services/MqttBridge.cs:323 | 32 characters parse exactly when each is a hex digit; the result holds their values, and the input is its `N` form up to case. |
| `Guids.ParseHyphenated` | IMAPI/Services/MqttBridge.cs:323 | A 36-character string that parses is the `D` form of the result, up to case. |
| `Guids.ParseGuid` | IMAPI/Controllers/DeviceLinkController.cs:38 | A blank string never parses. A string that parses is, once trimmed and up to case, the `N`, `D`, `{D}` or `(D)` form of the result. |
| `Guids.FormatNHasNoSpaceOrHyphen` | IMAPI/Controllers/LightsController.cs:62 | Every character of the `N` form is a lower-case hex digit, with no white space and no hyphen. |
| `Guids.FormatNRoundTrip` | IMAPI/Controllers/LightsController.cs:62 | Parsing the `N` form of a GUID gives back that GUID. |
| `Guids.FormatNInjective` | IMAPI/Controllers/LightsController.cs:62 | Two GUIDs with the same `N` form are equal. |
| `Guids.FormatDLayout` | IMAPI/Services/MqttBridge.cs:323 | The `D` form has hyphens at positions 8, 13, 18 and 23, and its hex digits are those of the `N` form. |
| `Guids.FormatDHasNoSpace` | IMAPI/Services/MqttBridge.cs:323 | The `D` form holds no white space. |
| `Guids.FormatDRoundTrip` | IMAPI/Services/MqttBridge.cs:323 | Parsing the `D` form of a GUID gives back that GUID. |
| `JsonDoc.Property` | IMAPI/Services/MqttBridge.cs:266 | `TryGetProperty` fails exactly when no member has the name. On success it returns the value of a member with that name. |
| `JsonDoc.GetInt32` | IMAPI/Services/MqttBridge.cs:274-275 | `GetInt32` succeeds exactly on an integral number within the 32-bit range, and returns that number. |
| `Clock.UnixSecondsAfterMinutes` | IMAPI/Controllers/LightsController.cs:70 | Adding `m` minutes adds `60 * m` to the Unix seconds. |
| `Clock.UnixSecondsBounds` | IMAPI/Services/DeviceAuthService.cs:27 | Every representable instant lies between year 1 and year 9999 in Unix seconds. |
| `Entities.StatusText` | IMAPI/Entities/PendingCommand.cs:14-15 | Every status string is non-empty and fits the 16-character column. |
| `Entities.StatusTextInjective` | IMAPI/Entities/PendingCommand.cs:14-15 | Distinct statuses have distinct strings. |
| `Entities.NewPendingCommand` | IMAPI/Entities/PendingCommand.cs:8-20 | A new row is consistent and has the given id and serial. It expires two minutes after its creation. |
| `Entities.NewPendingCommandDefaults` | IMAPI/Entities/PendingCommand.cs:8-20 | A new row is `queued`, created `now`, with no device id, `{}` as payload, and no sent or delivered time. |
| `Entities.NewLightChannel` | IMAPI/Entities/LightChannel.cs:9-20 | A new channel is off. It is valid exactly when its number is in 1..32 and its name, if any, has at most 80 characters. |
| `Store.FindLightIsTheRow` | IMAPI/Migrations/20251102165939_1.cs:144-148 | Under the unique (DeviceId, ChNo) index, a lookup by a row's keys finds that row. |
| `Store.FindCommandIsTheRow` | IMAPI/Migrations/20251102165939_1.cs:30 | Under the primary key, a lookup by a row's id and a serial finds that row exactly when the serial is the row's. |
| `Store.MarkDelivered` | IMAPI/Controllers/DeviceLinkController.cs:42-43 | Delivery sets the status to `delivered` and `DeliveredAt` to now, and changes nothing else. |
| `Store.Deliver` | IMAPI/Controllers/DeviceLinkController.cs:39-44 | A row is found exactly when one has the id and the serial. Without such a row the table is unchanged. Otherwise only rows with the id change, to their delivered form. |
| `Store.DeliverKeepsValid` | IMAPI/Controllers/DeviceLinkController.cs:39-44 | Delivery keeps ids unique and rows consistent. |
| `Store.DeliverTwice` | IMAPI/Controllers/DeviceLinkController.cs:39-44 | A second delivery of the same command changes only its `DeliveredAt`, to the second time. |
| `Store.Db.constructor` | IMAPI/Migrations/20251102165939_1.cs:14-148 | A new database has four empty tables and is valid. |
| `DeviceLink.BatchSize` | IMAPI/Controllers/DeviceLinkController.cs:23 | The batch size is 4 by default, and otherwise the request's `Max` clamped to 1..16. |
| `DeviceLink.EligibleStatuses` | IMAPI/Controllers/DeviceLinkController.cs:26 | A row is eligible exactly when its serial matches, it is `queued` or `sent`, and it expires after now. |
| `DeviceLink.Filter` | IMAPI/Controllers/DeviceLinkController.cs:26 | The filter keeps exactly the eligible rows, with their multiplicities. |
| `DeviceLink.InsertByCreatedAtSpec` | IMAPI/Controllers/DeviceLinkController.cs:27 | Insertion into a sorted list keeps it sorted and adds the one element. |
| `DeviceLink.SortByCreatedAt` | IMAPI/Controllers/DeviceLinkController.cs:27 | `OrderBy(CreatedAt)` yields a sorted permutation of its input. |
| `DeviceLink.SortKeepsTies` | IMAPI/Controllers/DeviceLinkController.cs:27 | Two rows created at the same instant come out in table order. |
| `DeviceLink.PrefixMultiset` | IMAPI/Controllers/DeviceLinkController.cs:28 | `Take` returns a sub-multiset of its input. |
| `DeviceLink.SelectedRowsSpec` | IMAPI/Controllers/DeviceLinkController.cs:25-28 | The selected rows are eligible and sorted, drawn from the table, and at most a batch. |
| `DeviceLink.OldestTaken` | IMAPI/Controllers/DeviceLinkController.cs:27-28 | No eligible row left out is older than a row taken. |
| `DeviceLink.PollRows` | IMAPI/Controllers/DeviceLinkController.cs:25-30 | Poll returns min(batch, eligible count) rows. They are eligible, sorted by `CreatedAt` and drawn from the table, and any eligible row left out is no older than every row returned. |
| `DeviceLink.Poll` | IMAPI/Controllers/DeviceLinkController.cs:29-32 | Each returned item is the id and payload of the corresponding selected row. |
| `DeviceLink.PollEmptyWhenNothingEligible` | IMAPI/Controllers/DeviceLinkController.cs:26-32 | With no eligible row the response is empty. |
| `DeviceLink.PollFifo` | IMAPI/Controllers/DeviceLinkController.cs:27-28 | A batch of one never returns a newer eligible row while an older one waits. |
| `DeviceLink.UniqueIdsCountOne` | IMAPI/Migrations/20251102165939_1.cs:30 | Under the primary key every row occurs at most once. |
| `DeviceLink.PollDistinct` | IMAPI/Controllers/DeviceLinkController.cs:25-30 | A poll never returns the same command id twice. |
| `DeviceLink.Ack` | IMAPI/Controllers/DeviceLinkController.cs:35-46 | The response and the new tables are those of `AckEffect`: a malformed id is refused, an unknown (id, serial) pair is `NotFound`, otherwise the row is marked delivered. Nothing but the command table changes. |
| `DeviceLink.AckNeedsOwnSerial` | IMAPI/Controllers/DeviceLinkController.cs:38-44 | `Stored` is answered exactly when the id parses and names a row of the acknowledging serial. Any other answer leaves the table unchanged. |
| `DeviceLink.AckMarksOne` | IMAPI/Controllers/DeviceLinkController.cs:39-44 | Acknowledging a row of one's own marks that row delivered at now and leaves every other row as it was. |
| `DeviceLink.AckIgnoresOk` | IMAPI/Controllers/DeviceLinkController.cs:16 | The `Ok` flag and `Reason` of the request do not affect the outcome. |
| `DeviceLink.AckTwice` | IMAPI/Controllers/DeviceLinkController.cs:39-44 | A repeated acknowledgement is answered `Stored` again. The table keeps its length, the row with the acknowledged id is that row re-marked delivered at the later time, and every other row is unchanged. |
| `DeviceLink.NewCommandPollable` | IMAPI/Entities/PendingCommand.cs:15-20 | A freshly created row of a serial is pollable by it exactly until two minutes after its creation. |
| `Topics.NoSeparatorLevels` | IMAPI/Services/MqttBridge.cs:193 | Splitting two separator-free levels joined by `/` gives those that are non-empty. |
| `Topics.SplitFourLevels` | IMAPI/Services/MqttBridge.cs:173 | A four-part path splits into the splits of its parts, with its separator-free parts kept whole. |
| `Topics.CommandTopicLevels` | IMAPI/Services/MqttBridge.cs:173 | The command topic's levels are the base's, then `device`, then the serial's, then `cmd`. |
| `Topics.SubscriptionFilterLevels` | IMAPI/Services/MqttBridge.cs:111-118 | Each subscription filter has the four levels base, `device`, `+` and the kind. |
| `Topics.MatchLevelsShape` | IMAPI/Services/MqttBridge.cs:111-118 | A topic matches a filter without `#` only with as many levels, each equal to the filter's or under a `+`. |
| `Topics.RouteTopic` | IMAPI/Services/MqttBridge.cs:193-204 | A dispatched serial and kind are non-empty single levels. |
| `Topics.SubscribedTopicRouting` | IMAPI/Services/MqttBridge.cs:193-204 | Every topic delivered for a subscription has four levels. It is dispatched to that kind with its serial level, unless that level is empty, in which case it is ignored. |
| `Topics.CommandTopicNotSubscribed` | IMAPI/Services/MqttBridge.cs:111-118 | The bridge never receives its own commands through its subscriptions. |
| `Topics.RouteIgnoresTrailingLevels` | IMAPI/Services/MqttBridge.cs:193-199 | Levels after the fourth do not change the route. |
| `Topics.MultiLevelBaseIgnoresAll` | IMAPI/Services/MqttBridge.cs:201-202 | With a base topic holding `/`, every inbound message is ignored. |
| `Topics.RouteOfWellFormedTopic` | IMAPI/Services/MqttBridge.cs:196-204 | A four-level topic is dispatched exactly when its root equals the base and its entity equals `device`, both ignoring case. The serial and kind pass through as written. |
| `MqttBridge.TelemetryFor` | IMAPI/Services/MqttBridge.cs:230-237 | The telemetry row carries the serial, the payload and now. Its device id is absent exactly when no device has the serial, and otherwise is the id of the device with that serial. |
| `MqttBridge.PersistTelemetry` | IMAPI/Services/MqttBridge.cs:226-245 | Exactly that row is appended to the telemetry table, and nothing else changes. |
| `MqttBridge.RelayEntry` | IMAPI/Services/MqttBridge.cs:269-275 | An element is skipped exactly when it is an object lacking `ch` or `state`. It is applied exactly when both are present and are 32-bit integers, with those values. In every other case it faults. |
| `MqttBridge.StatusRelays` | IMAPI/Services/MqttBridge.cs:265-269 | When the payload is an object whose `relays` member is an array, the elements folded are exactly that array's. Otherwise there is nothing to fold. |
| `MqttBridge.SetLightRow` | IMAPI/Services/MqttBridge.cs:277-283 | One relay entry sets the one row of (device, channel), if it exists, to `IsOn = state == 1` stamped now. Every other row is untouched. |
| `MqttBridge.SetLightKeepsValid` | IMAPI/Services/MqttBridge.cs:277-283 | One relay entry keeps the light table valid. |
| `MqttBridge.ApplyRelaysKeepsValid` | IMAPI/Services/MqttBridge.cs:269-284 | The relay fold keeps the light table valid. |
| `MqttBridge.ApplyRelaysRow` | IMAPI/Services/MqttBridge.cs:269-284 | Each channel of the device ends in the state of the last entry for it before the first fault, stamped now. Every other row is unchanged. |
| `MqttBridge.ApplyRelaysStopsAtFault` | IMAPI/Services/MqttBridge.cs:269-296 | Entries after a faulting one have no effect. |
| `MqttBridge.ApplyRelaysAtFault` | IMAPI/Services/MqttBridge.cs:292-296 | A fold starting at a faulting entry changes nothing. |
| `MqttBridge.ApplyRelaysStep` | IMAPI/Services/MqttBridge.cs:269-284 | The fold from entry `k` is entry `k`'s step followed by the fold from `k + 1`. |
| `MqttBridge.StatusKeepsValid` | IMAPI/Services/MqttBridge.cs:249-296 | A status message keeps every table valid. |
| `MqttBridge.ProcessStatus` | IMAPI/Services/MqttBridge.cs:249-296 | The loop leaves the tables equal to `StatusEffect`: an unknown serial changes nothing; a known one stamps `LastSeen` and folds the relays, keeping what was applied before a fault. |
| `MqttBridge.UnparsedStatusStampsDevice` | IMAPI/Services/MqttBridge.cs:256-296 | A status message that is not JSON still stamps the known device's `LastSeen` and changes no light or command. |
| `MqttBridge.AckedCommandId` | IMAPI/Services/MqttBridge.cs:318-323 | An id is read exactly when the payload is an object whose `id` is a non-blank string that parses as a GUID, and it is that GUID. |
| `MqttBridge.PushAck` | IMAPI/Services/MqttBridge.cs:306-339 | The command table becomes `PushAckEffect` of the old one, and nothing else changes. |
| `MqttBridge.PushAckAgreesWithAck` | IMAPI/Services/MqttBridge.cs:319-333 | An MQTT `{"id": s}` acknowledgement and an HTTP acknowledgement of `s` from the same serial leave the queue in the same state. |
| `MqttBridge.PushAckMarksOwnOnly` | IMAPI/Services/MqttBridge.cs:325-332 | An MQTT acknowledgement marks delivered exactly the row with the acked id and the sender's serial. |
| `MqttBridge.AckedCommandKeepsValid` | IMAPI/Services/MqttBridge.cs:325-332 | An MQTT acknowledgement keeps the command table valid. |
| `MqttBridge.IncomingKeepsValid` | IMAPI/Services/MqttBridge.cs:190-224 | Every inbound message keeps every table valid. |
| `MqttBridge.IncomingFrame` | IMAPI/Services/MqttBridge.cs:190-224 | An ignored topic changes nothing. An accepted one appends exactly one telemetry row. Only `status` touches devices and lights, and only `ack` touches commands. |
| `MqttBridge.HandleIncoming` | IMAPI/Services/MqttBridge.cs:190-224 | The tables become `IncomingEffect` of the old tables: routing, the telemetry row, then the handler picked by the exact kind. |
| `Lights.NewState` | IMAPI/Controllers/LightsController.cs:53-59 | `toggle: true` inverts the current state and takes precedence. Otherwise `state` 0 or 1 is taken as given. Anything else is refused. |
| `Lights.CommandRecord` | IMAPI/Controllers/LightsController.cs:75-82 | The queued row has the device's id and serial and the envelope as payload. It is `queued` with no sent or delivered time, and expires two minutes after now. |
| `Lights.NewestMatch` | IMAPI/Controllers/LightsController.cs:90-92 | The re-lookup finds a row of the serial with the same payload exactly when one exists, and one created no earlier than any other match. |
| `Lights.QueueAfterPublishKeepsValid` | IMAPI/Controllers/LightsController.cs:75-96 | Queuing a fresh record, and marking the newest match sent, keeps the command table valid. |
| `Lights.SetKeepsValid` | IMAPI/Controllers/LightsController.cs:41-108 | A light request keeps every table valid. |
| `Lights.Set` | IMAPI/Controllers/LightsController.cs:41-108 | The response, the published message and the new tables are those of `SetEffect`. |
| `Lights.SetGuards` | IMAPI/Controllers/LightsController.cs:44-59 | The channel range is checked first, then the device and its owner, then the channel row, then the requested state. Each refusal publishes nothing and leaves the tables unchanged. |
| `Lights.SetAccepted` | IMAPI/Controllers/LightsController.cs:62-108 | An accepted request answers the envelope id, `queued = true`, the channel and the new state. It publishes the envelope on the device's command topic exactly when publishing succeeds, and appends exactly one record carrying the envelope. It writes the channel row. |
| `Lights.SentIffPublished` | IMAPI/Controllers/LightsController.cs:86-101 | When no earlier row matches, the new record is `sent` exactly when the publish went through, and earlier rows are unchanged. |
| `Lights.LightWrittenEitherWay` | IMAPI/Controllers/LightsController.cs:98-106 | The response and the channel row do not depend on whether the publish went through. |
| `Lights.EchoedAckNamesEnvelopeId` | IMAPI/Controllers/LightsController.cs:62-65 | An MQTT ack echoing the envelope id is read by the bridge as exactly that GUID. |
| `Lights.MqttAckOfEnvelopeId` | IMAPI/Controllers/LightsController.cs:62-83 | A device echoing the envelope id over MQTT marks a record delivered only when the record's own id equals it. |
| `Lights.EnvelopeExpiry` | IMAPI/Controllers/LightsController.cs:70-81 | The envelope expires 60 seconds after now and the record 60 seconds after that. |
| `Lights.FilterOnlyLast` | IMAPI/Controllers/DeviceLinkController.cs:26 | When only the appended row is eligible, the filter returns just that row. |
| `Lights.SetThenPoll` | IMAPI/Controllers/LightsController.cs:75-96 | A command queued for a serial with nothing else pending is exactly what a poll by that serial returns at the same instant, whether or not the publish succeeded. |
| `DeviceAuth.WrapLong` | IMAPI/Services/DeviceAuthService.cs:28 | 64-bit wrap-around is the identity in range and shifts by 2^64 just outside it. |
| `DeviceAuth.WrapInt` | IMAPI/Services/DeviceAuthService.cs:28 | 32-bit wrap-around is the identity in range. |
| `DeviceAuth.Abs` | IMAPI/Services/DeviceAuthService.cs:28 | The absolute value is non-negative and is the value or its negation. |
| `DeviceAuth.LeadingCount` | IMAPI/Services/DeviceAuthService.cs:26 | The count is the length of the longest prefix whose characters satisfy the predicate. |
| `DeviceAuth.ParseLong` | IMAPI/Services/DeviceAuthService.cs:26 | A parsed timestamp lies in the 64-bit range. |
| `DeviceAuth.DecimalDigits` | IMAPI/Services/DeviceAuthService.cs:26 | A decimal rendering is a non-empty string of digits. |
| `DeviceAuth.DigitsValueOfDecimal` | IMAPI/Services/DeviceAuthService.cs:26 | Reading back a decimal rendering gives the number. |
| `DeviceAuth.ParseFormatLong` | IMAPI/Services/DeviceAuthService.cs:26 | Every `long` written in decimal parses back to itself. |
| `DeviceAuth.LeadingAll` | IMAPI/Services/DeviceAuthService.cs:26 | A string whose characters all satisfy the predicate has them all counted. |
| `DeviceAuth.ParseLongSkipsLeadingWhite` | IMAPI/Services/DeviceAuthService.cs:26 | Leading white space does not change the parse. |
| `DeviceAuth.HexOf` | IMAPI/Services/DeviceAuthService.cs:50 | The hex text is twice as long as the bytes, with each byte's high and low nibble in order. |
| `DeviceAuth.HexOfIsLowerHex` | IMAPI/Services/DeviceAuthService.cs:50 | The hex text is lower-case hex only. |
| `DeviceAuth.HexOfInjective` | IMAPI/Services/DeviceAuthService.cs:50 | Distinct byte strings have distinct hex texts. |
| `DeviceAuth.HmacHex` | IMAPI/Services/DeviceAuthService.cs:45-52 | The loop returns the lower-case hex of the MAC of the data under the key. |
| `DeviceAuth.AsciiBytes` | IMAPI/Services/DeviceAuthService.cs:41 | ASCII encoding keeps the length, keeps ASCII characters and maps the rest to `?`. |
| `DeviceAuth.SignatureComparison` | IMAPI/Services/DeviceAuthService.cs:40-41 | The byte comparison succeeds exactly when the signature header is the lower-case hex MAC. |
| `DeviceAuth.CanonicalFields` | IMAPI/Services/DeviceAuthService.cs:39 | When no field holds a newline, the signed text splits back into method, path, body, timestamp and nonce. |
| `DeviceAuth.ValidateLadder` | IMAPI/Services/DeviceAuthService.cs:16-43 | A request is accepted, with that device's id, exactly when five things hold: the headers are present, the timestamp parses, it is within the skew, the device has a secret, and the signature matches. Each rejection carries `Guid.Empty` and the message of the first failing check. |
| `DeviceAuth.WrappedSkewCheck` | IMAPI/Services/DeviceAuthService.cs:27-28 | The wrapped difference is `long.MinValue` exactly for one timestamp. Otherwise, for a clock in range, the wrapped check agrees with the exact one. |
| `DeviceAuth.AsWrittenDiffersOnlyByOverflow` | IMAPI/Services/DeviceAuthService.cs:26-28 | The source's validator returns what the corrected one does, except that it throws for the one overflowing timestamp. |
| `DeviceAuth.OverflowWitness` | IMAPI/Services/DeviceAuthService.cs:28 | At 2023-11-14T22:13:20Z, with the default skew, the timestamp `-9223372035154775808` makes the source throw, where the corrected validator answers `skew too big`. |

## Left out

- The SignalR broadcasts in `ProcessStatusAsync` and `PushAckAsync` are not
  modelled. They send messages and do not touch the tables.
- The MQTT connection lifecycle is not modelled: connecting, subscribing,
  QoS, reconnection and the managed client's queue. A publish is reduced to
  the message it would send and a `publishOk` flag.
- `PublishCommandAsync` and JSON serialisation are not modelled byte for
  byte. The envelope is a JSON value whose members come in source order, and
  the re-lookup in `Set` compares payloads as values.
- Reading the request body and `Encoding.UTF8` are not modelled. HMAC-SHA256
  is a function parameter.
- `IProtectionService.Unprotect` is a function parameter. A throwing
  `Unprotect` is not modelled.
- `GetUserId` claim parsing is not modelled. The caller's id is a parameter.
- A device's owner is written `Device.OwnerId`. The source reaches it
  through `Device.Boat.OwnerId`.
- The command queue's `DbContext` is not part of this model. The tables
  follow the migration `20251102165939_1`.
- The HMAC validator reads a different `Device` entity, with `DeviceId` and
  `ProtectedSecret`. It is modelled as its own `AuthDevice` table, with the
  unique index on `DeviceId` from `AppDbContext`.
- The clock is read once per request. The source reads `DateTime.UtcNow`
  separately at each use, microseconds apart.
- Every `SaveChangesAsync` is assumed to succeed. A store failure is not
  modelled. This includes the `jsonb` column rejecting a payload that is not
  JSON, which in the source makes the telemetry save fail inside its `catch`
  and leaves the rejected row tracked for the next save.
- The bridge's per-message `try`/`catch` handling of that tracked row is
  not modelled.
- `Lights.NewestMatch` breaks ties in `CreatedAt` by taking the later row.
  The source's `OrderByDescending(...).FirstAsync` leaves the order of equal
  timestamps to the database.
- `Lights.SetEffect` takes a fresh record id. A duplicate primary key, which
  would fail the first save, is excluded by the `FreshId` precondition.
- `Guids.ParseGuid` accepts the `N`, `D`, `B` and `P` formats, after
  trimming white space. The `X` format of `Guid.TryParse` is not modelled.
- `Guids.ParseGuid` does not model the compatibility parsing of .NET for the
  hyphenated formats, where a group may begin with `0x`, `0X` or `+` that
  counts toward its width (so `0x000000-0000-0000-0000-000000000000` reads as
  `Guid.Empty`). Such an id is refused in the model, so `DeviceLink.Ack`
  answers `BadId` and `MqttBridge.AckedCommandId` drops the ack, where the
  source goes on to the lookup.
- `DeviceLink.SortByCreatedAt` keeps rows with equal `CreatedAt` in table
  order. The source's `OrderBy` leaves their order to the database.
- `Text.UpperAscii` folds only ASCII letters. `OrdinalIgnoreCase` also folds
  other letters.
- `DeviceAuth.ParseLong` models the invariant-culture `NumberStyles.Integer`
  rules: white space, a `+` or `-`, digits, white space, then trailing NULs.
  Culture-specific sign strings are not modelled.
- Headers with several values, which `StringValues.ToString()` joins with
  commas, are modelled as single strings.
- `Clock.AddMinutes` does not model the `ArgumentOutOfRangeException` of
  `AddMinutes` past year 9999.
- `DeviceAuth.HexOf` over the `byte` values the MAC parameter returns is
  modelled; the HMAC key and data encodings are not.

## Findings

| source | as written | input that shows it | evidently intended | confidence | as-written member | corrected member |
|---|---|---|---|---|---|---|
| IMAPI/Services/DeviceAuthService.cs:28 | `Math.Abs(now - ts)` subtracts two `long` values unchecked. When the difference wraps to `long.MinValue`, `Math.Abs` throws `OverflowException`, and the request fails with a server error instead of a rejection. | Server clock 2023-11-14T22:13:20Z (Unix 1700000000); all headers present; `X-Timestamp: -9223372035154775808` | Reject the request with `"skew too big"`, as for every other timestamp far from the clock | not executed | `DeviceAuth.ValidateAsWritten` (exhibited by `DeviceAuth.OverflowWitness` and `DeviceAuth.AsWrittenDiffersOnlyByOverflow`) | `DeviceAuth.Validate` (proved by `DeviceAuth.ValidateLadder`) |
