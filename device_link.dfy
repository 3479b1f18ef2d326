/** The HTTP fallback for devices: `Poll` hands out the oldest undelivered,
    unexpired commands of a serial, `Ack` marks one of them delivered. */
module DeviceLink {
  import opened Wrappers
  import opened Guids
  import opened Clock
  import opened JsonDoc
  import opened Entities
  import opened Store

  datatype PollReq = PollReq(Serial: string, Max: Option<int>)

  datatype AckReq = AckReq(Serial: string, Id: string, Ok: bool, Reason: Option<string>)

  /** One element of the poll response: `new { x.Id, x.Payload }`. */
  datatype PolledCommand = PolledCommand(Id: Guid, Payload: Json)

  /** `BadId` is the `FormatException` that `Guid.Parse` throws on a malformed
      id, which ends the request before any lookup. */
  datatype AckResponse = Stored | NotFound | BadId

  const DefaultBatch: int := 4
  const MinBatch: int := 1
  const MaxBatch: int := 16

  function Min(a: int, b: int): int {
    if a <= b then a else b
  }

  /** `Math.Clamp(req.Max ?? 4, 1, 16)`. */
  function BatchSize(max: Option<int>): (n: int)
    ensures MinBatch <= n <= MaxBatch
    ensures max.None? ==> n == DefaultBatch
    ensures max.Some? && MinBatch <= max.value <= MaxBatch ==> n == max.value
    ensures max.Some? && max.value < MinBatch ==> n == MinBatch
    ensures max.Some? && max.value > MaxBatch ==> n == MaxBatch
  {
    var v := match max case None => DefaultBatch case Some(m) => m;
    if v < MinBatch then MinBatch else if v > MaxBatch then MaxBatch else v
  }

  /** The query's filter: the serial's rows that are not delivered and not expired. */
  predicate Eligible(c: PendingCommand, serial: string, now: Ticks) {
    c.DeviceSerial == serial && StatusText(c.Status) != "delivered" && c.ExpiresAt > now
  }

  /** Both queued and sent rows qualify; only delivered ones are excluded. */
  lemma EligibleStatuses(c: PendingCommand, serial: string, now: Ticks)
    ensures Eligible(c, serial, now) <==>
      c.DeviceSerial == serial && (c.Status == Queued || c.Status == Sent) && now < c.ExpiresAt
  {
  }

  /** The eligible rows in table order; each row occurs as often as in the table. */
  function Filter(cmds: seq<PendingCommand>, serial: string, now: Ticks): (r: seq<PendingCommand>)
    ensures forall i :: 0 <= i < |r| ==> Eligible(r[i], serial, now)
    ensures forall c :: multiset(r)[c] == if Eligible(c, serial, now) then multiset(cmds)[c] else 0
    decreases |cmds|
  {
    if |cmds| == 0 then []
    else
      var rest := Filter(cmds[1..], serial, now);
      assert cmds == [cmds[0]] + cmds[1..];
      if Eligible(cmds[0], serial, now) then [cmds[0]] + rest else rest
  }

  predicate SortedByCreatedAt(s: seq<PendingCommand>) {
    forall i, j :: 0 <= i < j < |s| ==> s[i].CreatedAt <= s[j].CreatedAt
  }

  function InsertByCreatedAt(x: PendingCommand, s: seq<PendingCommand>): seq<PendingCommand>
    decreases |s|
  {
    if |s| == 0 then [x]
    else if x.CreatedAt <= s[0].CreatedAt then [x] + s
    else [s[0]] + InsertByCreatedAt(x, s[1..])
  }

  lemma {:induction false} InsertByCreatedAtSpec(x: PendingCommand, s: seq<PendingCommand>)
    requires SortedByCreatedAt(s)
    ensures var r := InsertByCreatedAt(x, s);
      && SortedByCreatedAt(r)
      && multiset(r) == multiset(s) + multiset{x}
      && |r| == |s| + 1
      && (r[0] == x || r[0] == s[0])
    decreases |s|
  {
    if |s| > 0 && x.CreatedAt > s[0].CreatedAt {
      var rest := InsertByCreatedAt(x, s[1..]);
      InsertByCreatedAtSpec(x, s[1..]);
      var r := [s[0]] + rest;
      assert rest[0].CreatedAt >= s[0].CreatedAt;
      forall i, j | 0 <= i < j < |r| ensures r[i].CreatedAt <= r[j].CreatedAt {
        if i == 0 && j > 1 {
          assert r[j] == rest[j - 1];
          assert rest[0].CreatedAt <= rest[j - 1].CreatedAt;
        }
      }
      assert s == [s[0]] + s[1..];
    }
  }

  /** `OrderBy(x => x.CreatedAt)`: ascending creation time, the same rows. */
  function SortByCreatedAt(s: seq<PendingCommand>): (r: seq<PendingCommand>)
    ensures SortedByCreatedAt(r)
    ensures multiset(r) == multiset(s)
    decreases |s|
  {
    if |s| == 0 then []
    else
      var rest := SortByCreatedAt(s[1..]);
      InsertByCreatedAtSpec(s[0], rest);
      assert s == [s[0]] + s[1..];
      InsertByCreatedAt(s[0], rest)
  }

  /** Rows created at the same instant keep their table order. */
  lemma SortKeepsTies(a: PendingCommand, b: PendingCommand)
    requires a.CreatedAt == b.CreatedAt
    ensures SortByCreatedAt([a, b]) == [a, b]
  {
    assert [a, b][1..] == [b];
  }

  lemma PrefixMultiset(s: seq<PendingCommand>, k: nat)
    requires k <= |s|
    ensures multiset(s[..k]) <= multiset(s)
  {
    assert s == s[..k] + s[k..];
  }

  /** `Take(max)` of the sorted eligible rows. */
  function SelectedRows(cmds: seq<PendingCommand>, req: PollReq, now: Ticks): seq<PendingCommand> {
    var sorted := SortByCreatedAt(Filter(cmds, req.Serial, now));
    sorted[..Min(BatchSize(req.Max), |sorted|)]
  }

  lemma SelectedRowsSpec(cmds: seq<PendingCommand>, req: PollReq, now: Ticks)
    ensures var rows := SelectedRows(cmds, req, now);
      && |rows| == Min(BatchSize(req.Max), |Filter(cmds, req.Serial, now)|)
      && (forall i :: 0 <= i < |rows| ==> Eligible(rows[i], req.Serial, now))
      && SortedByCreatedAt(rows)
      && multiset(rows) <= multiset(cmds)
  {
    var eligible := Filter(cmds, req.Serial, now);
    var sorted := SortByCreatedAt(eligible);
    var k := Min(BatchSize(req.Max), |sorted|);
    PrefixMultiset(sorted, k);
    assert multiset(eligible) <= multiset(cmds);
    forall i | 0 <= i < k ensures Eligible(sorted[i], req.Serial, now) {
      assert sorted[i] in multiset(eligible);
    }
  }

  lemma OldestTaken(cmds: seq<PendingCommand>, req: PollReq, now: Ticks)
    ensures var rows := SelectedRows(cmds, req, now);
      forall c :: c in cmds && Eligible(c, req.Serial, now) && c !in rows ==>
        forall i :: 0 <= i < |rows| ==> rows[i].CreatedAt <= c.CreatedAt
  {
    var sorted := SortByCreatedAt(Filter(cmds, req.Serial, now));
    var k := Min(BatchSize(req.Max), |sorted|);
    forall c | c in cmds && Eligible(c, req.Serial, now) && c !in sorted[..k]
      ensures forall i :: 0 <= i < k ==> sorted[i].CreatedAt <= c.CreatedAt
    {
      assert c in multiset(cmds);
      assert c in multiset(sorted);
      var j :| 0 <= j < |sorted| && sorted[j] == c;
    }
  }

  /** The rows `Poll` returns: at most the batch size, all eligible, oldest
      first, none more often than it is stored, and no eligible row left out is
      older than a row returned. */
  function PollRows(cmds: seq<PendingCommand>, req: PollReq, now: Ticks): (rows: seq<PendingCommand>)
    ensures |rows| == Min(BatchSize(req.Max), |Filter(cmds, req.Serial, now)|)
    ensures |rows| <= BatchSize(req.Max)
    ensures forall i :: 0 <= i < |rows| ==> Eligible(rows[i], req.Serial, now)
    ensures SortedByCreatedAt(rows)
    ensures multiset(rows) <= multiset(cmds)
    ensures forall c :: c in cmds && Eligible(c, req.Serial, now) && c !in rows ==>
      forall i :: 0 <= i < |rows| ==> rows[i].CreatedAt <= c.CreatedAt
  {
    SelectedRowsSpec(cmds, req, now);
    OldestTaken(cmds, req, now);
    SelectedRows(cmds, req, now)
  }

  /** `Poll`: reads the table and projects the selected rows to (Id, Payload). */
  function Poll(cmds: seq<PendingCommand>, req: PollReq, now: Ticks): (r: seq<PolledCommand>)
    ensures |r| == |PollRows(cmds, req, now)|
    ensures forall i :: 0 <= i < |r| ==>
      r[i] == PolledCommand(PollRows(cmds, req, now)[i].Id, PollRows(cmds, req, now)[i].Payload)
  {
    var rows := PollRows(cmds, req, now);
    seq(|rows|, i requires 0 <= i < |rows| => PolledCommand(rows[i].Id, rows[i].Payload))
  }

  /** Nothing eligible: the response is the empty list, not an error. */
  lemma {:induction false} PollEmptyWhenNothingEligible(cmds: seq<PendingCommand>, req: PollReq, now: Ticks)
    requires forall i :: 0 <= i < |cmds| ==> !Eligible(cmds[i], req.Serial, now)
    ensures Poll(cmds, req, now) == []
  {
    var eligible := Filter(cmds, req.Serial, now);
    if |eligible| > 0 {
      assert eligible[0] in eligible;
    }
  }

  /** First-in first-out within a serial: with a batch of one, an older eligible
      command is returned before a newer one. */
  lemma PollFifo(cmds: seq<PendingCommand>, serial: string, now: Ticks, a: nat, b: nat)
    requires a < |cmds| && b < |cmds|
    requires Eligible(cmds[a], serial, now) && Eligible(cmds[b], serial, now)
    requires cmds[a].CreatedAt < cmds[b].CreatedAt
    ensures var rows := PollRows(cmds, PollReq(serial, Some(1)), now);
      |rows| == 1 && rows[0] != cmds[b]
  {
    var rows := PollRows(cmds, PollReq(serial, Some(1)), now);
    assert cmds[a] in multiset(cmds);
    assert |Filter(cmds, serial, now)| >= 1 by {
      assert cmds[a] in multiset(Filter(cmds, serial, now));
    }
  }

  lemma CountTwo(s: seq<PendingCommand>, i: nat, j: nat)
    requires i < j < |s| && s[i] == s[j]
    ensures multiset(s)[s[i]] >= 2
  {
    assert s == s[..j] + s[j..];
    assert s[..j][i] == s[i];
    assert s[j..][0] == s[i];
  }

  lemma {:induction false} UniqueIdsCountOne(cmds: seq<PendingCommand>, c: PendingCommand)
    requires UniqueCommandIds(cmds)
    ensures multiset(cmds)[c] <= 1
    decreases |cmds|
  {
    if |cmds| > 0 {
      assert cmds == [cmds[0]] + cmds[1..];
      UniqueIdsCountOne(cmds[1..], c);
      if cmds[0] == c {
        assert c !in cmds[1..];
      }
    }
  }

  /** Under the primary key no command is returned twice. */
  lemma PollDistinct(cmds: seq<PendingCommand>, req: PollReq, now: Ticks)
    requires UniqueCommandIds(cmds)
    ensures var r := Poll(cmds, req, now);
      forall i, j :: 0 <= i < j < |r| ==> r[i].Id != r[j].Id
  {
    var rows := PollRows(cmds, req, now);
    forall i, j | 0 <= i < j < |rows| ensures rows[i].Id != rows[j].Id {
      if rows[i] == rows[j] {
        CountTwo(rows, i, j);
        UniqueIdsCountOne(cmds, rows[i]);
      } else {
        assert rows[i] in multiset(cmds) && rows[j] in multiset(cmds);
        var p :| 0 <= p < |cmds| && cmds[p] == rows[i];
        var q :| 0 <= q < |cmds| && cmds[q] == rows[j];
      }
    }
  }

  /** The effect of `Ack` on the table: a malformed id fails before any
      lookup; otherwise the record with this id and serial, if any, is marked
      delivered at `now`. `Ok` and `Reason` play no part. */
  function AckEffect(cmds: seq<PendingCommand>, req: AckReq, now: Ticks): (r: (AckResponse, seq<PendingCommand>))
  {
    match ParseGuid(req.Id)
    case None => (BadId, cmds)
    case Some(id) =>
      var (found, cmds') := Deliver(cmds, id, req.Serial, now);
      (if found then Stored else NotFound, cmds')
  }

  method Ack(db: Db, req: AckReq, now: Ticks) returns (resp: AckResponse)
    requires db.Valid()
    modifies db
    ensures db.Valid()
    ensures resp == AckEffect(old(db.commands), req, now).0
    ensures db.Snapshot() == old(db.Snapshot()).(commands := AckEffect(old(db.commands), req, now).1)
  {
    var id := ParseGuid(req.Id);
    if id.None? {
      return BadId;
    }
    var i := FindCommand(db.commands, id.value, req.Serial);
    if i.None? {
      return NotFound;
    }
    DeliverKeepsValid(db.commands, id.value, req.Serial, now);
    db.commands := db.commands[i.value := MarkDelivered(db.commands[i.value], now)];
    resp := Stored;
  }

  /** Ack finds the record only with its own serial: any other serial gets
      NotFound and the table is unchanged; a malformed id changes nothing either. */
  lemma AckNeedsOwnSerial(cmds: seq<PendingCommand>, req: AckReq, now: Ticks)
    ensures var (resp, cmds') := AckEffect(cmds, req, now);
      && (resp == Stored <==> exists g, i :: ParseGuid(req.Id) == Some(g) && 0 <= i < |cmds|
                                  && cmds[i].Id == g && cmds[i].DeviceSerial == req.Serial)
      && (resp != Stored ==> cmds' == cmds)
      && (ParseGuid(req.Id).None? <==> resp == BadId)
  {
  }

  /** On a match the record becomes delivered at `now`; every other record is unchanged. */
  lemma AckMarksOne(cmds: seq<PendingCommand>, req: AckReq, now: Ticks, k: nat)
    requires UniqueCommandIds(cmds) && k < |cmds|
    requires ParseGuid(req.Id) == Some(cmds[k].Id) && cmds[k].DeviceSerial == req.Serial
    ensures var (resp, cmds') := AckEffect(cmds, req, now);
      && resp == Stored && |cmds'| == |cmds|
      && StatusText(cmds'[k].Status) == "delivered" && cmds'[k].DeliveredAt == Some(now)
      && cmds'[k] == cmds[k].(Status := Delivered, DeliveredAt := Some(now))
      && forall i :: 0 <= i < |cmds| && i != k ==> cmds'[i] == cmds[i]
  {
    FindCommandIsTheRow(cmds, k, req.Serial);
  }

  /** `Ok` and `Reason` do not change the outcome. */
  lemma AckIgnoresOk(cmds: seq<PendingCommand>, req: AckReq, now: Ticks, ok: bool, reason: Option<string>)
    ensures AckEffect(cmds, req.(Ok := ok, Reason := reason), now) == AckEffect(cmds, req, now)
  {
  }

  /** Re-acking: the record stays delivered, and `DeliveredAt` moves to the later ack's time. */
  lemma AckTwice(cmds: seq<PendingCommand>, req: AckReq, t1: Ticks, t2: Ticks)
    requires UniqueCommandIds(cmds)
    requires AckEffect(cmds, req, t1).0 == Stored
    ensures var once := AckEffect(cmds, req, t1);
      var twice := AckEffect(once.1, req, t2);
      && twice.0 == Stored
      && |twice.1| == |cmds|
      && forall i :: 0 <= i < |cmds| ==>
           twice.1[i] == if cmds[i].Id == ParseGuid(req.Id).value then MarkDelivered(cmds[i], t2) else cmds[i]
  {
    var g := ParseGuid(req.Id).value;
    DeliverTwice(cmds, g, req.Serial, t1, t2);
  }

  /** A command freshly created at `now` is offered by `Poll` until it expires. */
  lemma NewCommandPollable(id: Guid, serial: string, now: Ticks, t: Ticks)
    ensures Eligible(NewPendingCommand(id, serial, now), serial, t) <==> t < AddMinutes(now, CommandTtlMinutes)
  {
  }
}
