/** The HMAC check of the device's HTTP fallback: four headers must be
    present, the timestamp must parse as a 64-bit integer and lie within the
    allowed skew of the server clock, the device must exist and have a secret,
    and the signature must be the lower-case hex HMAC-SHA256, under the
    device's secret, of method, path, body, timestamp and nonce joined by
    newlines. HMAC-SHA256 with the UTF-8 encoding of key and data, and the
    data-protection `Unprotect` of the stored secret, are parameters. */
module DeviceAuth {
  import opened Wrappers
  import opened Text
  import opened Guids
  import opened Clock

  type uint8 = x: int | 0 <= x < 256

  const MinLong: int := -0x8000_0000_0000_0000
  const MaxLong: int := 0x7FFF_FFFF_FFFF_FFFF
  const LongModulus: int := 0x1_0000_0000_0000_0000
  const MinInt: int := -0x8000_0000
  const MaxInt: int := 0x7FFF_FFFF
  const IntModulus: int := 0x1_0000_0000

  /** A C# `int`, the type of the configured skew `_skewMinutes`. */
  type Int32 = x: int | -0x8000_0000 <= x <= 0x7FFF_FFFF

  /** `DeviceHmac:AllowedSkewMinutes` when the configuration does not set it. */
  const DefaultSkewMinutes: Int32 := 5

  const MissingHeaders: string := "missing headers"
  const BadTimestamp: string := "bad timestamp"
  const SkewTooBig: string := "skew too big"
  const DeviceNotFound: string := "device not found"
  const BadSignature: string := "bad signature"

  // ---- Fixed-width arithmetic ----

  /** `long` arithmetic in an unchecked context: the result modulo 2^64. */
  function WrapLong(x: int): (r: int)
    ensures MinLong <= r <= MaxLong
    ensures MinLong <= x <= MaxLong ==> r == x
    ensures MaxLong < x < MaxLong + LongModulus ==> r == x - LongModulus
    ensures MinLong - LongModulus <= x < MinLong ==> r == x + LongModulus
  {
    (x - MinLong) % LongModulus + MinLong
  }

  /** `int` arithmetic in an unchecked context: the result modulo 2^32. */
  function WrapInt(x: int): (r: int)
    ensures MinInt <= r <= MaxInt
    ensures MinInt <= x <= MaxInt ==> r == x
  {
    (x - MinInt) % IntModulus + MinInt
  }

  function Abs(x: int): (r: int)
    ensures r >= 0 && (r == x || r == -x)
  {
    if x < 0 then -x else x
  }

  // ---- long.TryParse ----

  /** The white space `NumberStyles.Integer` allows around a number. */
  predicate IsNumberWhite(c: char) {
    c == ' ' || '\t' <= c <= '\r'
  }

  predicate IsDigit(c: char) {
    '0' <= c <= '9'
  }

  /** The length of the longest prefix of `s` all of whose characters satisfy `p`. */
  function LeadingCount(s: string, p: char -> bool): (n: nat)
    ensures n <= |s|
    ensures forall i :: 0 <= i < n ==> p(s[i])
    ensures n < |s| ==> !p(s[n])
    decreases |s|
  {
    if |s| == 0 || !p(s[0]) then 0 else 1 + LeadingCount(s[1..], p)
  }

  function DigitsValue(s: string): nat
    requires forall i :: 0 <= i < |s| ==> IsDigit(s[i])
    decreases |s|
  {
    if |s| == 0 then 0
    else
      assert IsDigit(s[|s| - 1]);
      10 * DigitsValue(s[..|s| - 1]) + (s[|s| - 1] as int - '0' as int)
  }

  predicate AllNul(s: string) {
    forall i :: 0 <= i < |s| ==> s[i] == '\0'
  }

  /** `long.TryParse(s)` with the invariant signs: white space, an optional
      `+` or `-`, at least one ASCII digit, white space, and any number of
      `'\0'` characters, which .NET ignores at the end; the value must fit in a
      `long`. `None` is a `false` return. */
  function ParseLong(s: string): (r: Option<int>)
    ensures r.Some? ==> MinLong <= r.value <= MaxLong
  {
    var rest := s[LeadingCount(s, IsNumberWhite)..];
    var signLen := if |rest| > 0 && (rest[0] == '-' || rest[0] == '+') then 1 else 0;
    var negative := signLen == 1 && rest[0] == '-';
    var body := rest[signLen..];
    var digits := LeadingCount(body, IsDigit);
    var tail := body[digits..];
    var trailing := LeadingCount(tail, IsNumberWhite);
    if digits == 0 || !AllNul(tail[trailing..]) then None
    else
      var magnitude := DigitsValue(body[..digits]);
      var v: int := if negative then -(magnitude as int) else magnitude;
      if MinLong <= v <= MaxLong then Some(v) else None
  }

  /** The decimal digits of `n`, without leading zeros. */
  function DecimalDigits(n: nat): (s: string)
    ensures |s| >= 1 && forall i :: 0 <= i < |s| ==> IsDigit(s[i])
    decreases n
  {
    if n < 10 then [('0' as int + n) as char]
    else DecimalDigits(n / 10) + [('0' as int + n % 10) as char]
  }

  /** `long.ToString()`. */
  function FormatLong(v: int): string {
    if v < 0 then "-" + DecimalDigits(-v) else DecimalDigits(v)
  }

  lemma {:induction false} DigitsValueOfDecimal(n: nat)
    ensures DigitsValue(DecimalDigits(n)) == n
    decreases n
  {
    if n >= 10 {
      var s := DecimalDigits(n);
      assert s[..|s| - 1] == DecimalDigits(n / 10);
      DigitsValueOfDecimal(n / 10);
    }
  }

  /** A timestamp written by `long.ToString()` parses back to the same value. */
  lemma ParseFormatLong(v: int)
    requires MinLong <= v <= MaxLong
    ensures ParseLong(FormatLong(v)) == Some(v)
  {
    var s := FormatLong(v);
    var magnitude := if v < 0 then -v else v;
    var d := DecimalDigits(magnitude);
    DigitsValueOfDecimal(magnitude);
    assert LeadingCount(s, IsNumberWhite) == 0;
    var body := if v < 0 then s[1..] else s;
    assert body == d;
    assert LeadingCount(d, IsDigit) == |d| by {
      LeadingAll(d, IsDigit);
    }
    assert d[..|d|] == d;
  }

  lemma {:induction false} LeadingAll(s: string, p: char -> bool)
    requires forall i :: 0 <= i < |s| ==> p(s[i])
    ensures LeadingCount(s, p) == |s|
    decreases |s|
  {
    if |s| > 0 {
      LeadingAll(s[1..], p);
    }
  }

  /** Leading white space does not change what a timestamp parses to. */
  lemma ParseLongSkipsLeadingWhite(c: char, s: string)
    requires IsNumberWhite(c)
    ensures ParseLong([c] + s) == ParseLong(s)
  {
    assert ([c] + s)[1..] == s;
    var n := LeadingCount(s, IsNumberWhite);
    assert LeadingCount([c] + s, IsNumberWhite) == 1 + n;
    assert ([c] + s)[1 + n..] == s[n..];
  }

  // ---- The signature ----

  /** One uint8 in the `"x2"` format. */
  function HexByte(b: uint8): string {
    [HexChar(b / 16), HexChar(b % 16)]
  }

  /** The bytes in the `"x2"` format, one after the other. */
  function HexOf(raw: seq<uint8>): (hex: string)
    ensures |hex| == 2 * |raw|
    ensures forall i :: 0 <= i < |raw| ==> hex[2 * i] == HexChar(raw[i] / 16) && hex[2 * i + 1] == HexChar(raw[i] % 16)
    decreases |raw|
  {
    if |raw| == 0 then ""
    else
      var front := HexOf(raw[..|raw| - 1]);
      assert forall i :: 0 <= i < |raw| - 1 ==> raw[..|raw| - 1][i] == raw[i];
      front + HexByte(raw[|raw| - 1])
  }

  /** Every character is a lower-case hexadecimal digit. */
  lemma HexOfIsLowerHex(raw: seq<uint8>)
    ensures forall k :: 0 <= k < |HexOf(raw)| ==> IsLowerHex(HexOf(raw)[k])
  {
    var hex := HexOf(raw);
    forall k | 0 <= k < |hex| ensures IsLowerHex(hex[k]) {
      var i := k / 2;
      HexCharValue(raw[i] / 16);
      HexCharValue(raw[i] % 16);
      assert k == 2 * i || k == 2 * i + 1;
    }
  }

  /** Different MACs give different signatures. */
  lemma HexOfInjective(a: seq<uint8>, b: seq<uint8>)
    requires HexOf(a) == HexOf(b)
    ensures a == b
  {
    forall i | 0 <= i < |a| ensures a[i] == b[i] {
      HexCharValue(a[i] / 16);
      HexCharValue(b[i] / 16);
      HexCharValue(a[i] % 16);
      HexCharValue(b[i] % 16);
      assert HexOf(a)[2 * i] == HexOf(b)[2 * i];
      assert HexOf(a)[2 * i + 1] == HexOf(b)[2 * i + 1];
    }
  }

  /** `HmacHex`: the MAC of `data` under `key`, one `"x2"` pair per uint8. */
  method HmacHex(mac: (string, string) -> seq<uint8>, key: string, data: string) returns (hex: string)
    ensures hex == HexOf(mac(key, data))
  {
    var raw := mac(key, data);
    hex := "";
    var i := 0;
    while i < |raw|
      invariant 0 <= i <= |raw|
      invariant hex == HexOf(raw[..i])
    {
      assert raw[..i + 1][..i] == raw[..i];
      hex := hex + HexByte(raw[i]);
      i := i + 1;
    }
    assert raw[..|raw|] == raw;
  }

  /** `Encoding.ASCII.GetBytes`: a character outside ASCII becomes `?`. */
  function AsciiBytes(s: string): (b: seq<uint8>)
    ensures |b| == |s|
    ensures forall i :: 0 <= i < |s| ==> b[i] == if s[i] as int < 128 then s[i] as int else '?' as int
  {
    seq(|s|, i requires 0 <= i < |s| => if s[i] as int < 128 then s[i] as int else '?' as int)
  }

  /** `CryptographicOperations.FixedTimeEquals`: same length and same bytes. */
  predicate FixedTimeEquals(a: seq<uint8>, b: seq<uint8>) {
    |a| == |b| && forall i :: 0 <= i < |a| ==> a[i] == b[i]
  }

  /** Comparing the ASCII bytes accepts exactly the signature that is the
      computed hex text itself: no other string, non-ASCII ones included, passes. */
  lemma SignatureComparison(raw: seq<uint8>, sig: string)
    ensures FixedTimeEquals(AsciiBytes(HexOf(raw)), AsciiBytes(sig)) <==> sig == HexOf(raw)
  {
    var expected := HexOf(raw);
    if FixedTimeEquals(AsciiBytes(expected), AsciiBytes(sig)) {
      HexOfIsLowerHex(raw);
      forall i | 0 <= i < |sig| ensures sig[i] == expected[i] {
        assert AsciiBytes(expected)[i] == AsciiBytes(sig)[i];
      }
    }
  }

  // ---- ValidateAsync ----

  /** The request as the validator reads it: the four headers (empty when
      absent), the method, the path and the body text. */
  datatype AuthRequest = AuthRequest(
    DeviceIdHeader: string,
    Timestamp: string,
    Nonce: string,
    Signature: string,
    Method: string,
    Path: string,
    Body: string)

  /** The columns of a `Devices` row the validator reads; `DeviceId` is the
      printed label, under a unique index. */
  datatype AuthDevice = AuthDevice(Id: Guid, DeviceId: string, ProtectedSecret: Option<string>)

  predicate AuthDevicesValid(devices: seq<AuthDevice>) {
    forall i, j :: 0 <= i < j < |devices| ==> devices[i].DeviceId != devices[j].DeviceId
  }

  /** `(ok, deviceDbId, err)`. */
  datatype AuthResult = AuthResult(ok: bool, deviceDbId: Guid, err: Option<string>)

  /** How the request ends: a returned tuple, or the `OverflowException` of
      `Math.Abs(long.MinValue)`. */
  datatype Outcome = Returned(result: AuthResult) | Overflow

  function Rejected(err: string): AuthResult {
    AuthResult(false, Empty, Some(err))
  }

  predicate HeadersMissing(req: AuthRequest) {
    IsBlank(req.DeviceIdHeader) || IsBlank(req.Timestamp) || IsBlank(req.Nonce) || IsBlank(req.Signature)
  }

  /** The signed text: method, path, body, timestamp header and nonce, joined by newlines. */
  function Canonical(req: AuthRequest): string {
    Join("\n", [req.Method, req.Path, req.Body, req.Timestamp, req.Nonce])
  }

  /** When no field holds a newline, the signed text determines every field. */
  lemma CanonicalFields(req: AuthRequest)
    requires '\n' !in req.Method && '\n' !in req.Path && '\n' !in req.Body
    requires '\n' !in req.Timestamp && '\n' !in req.Nonce
    ensures Split(Canonical(req), '\n') == [req.Method, req.Path, req.Body, req.Timestamp, req.Nonce]
  {
    SplitJoin([req.Method, req.Path, req.Body, req.Timestamp, req.Nonce], '\n');
  }

  function FindAuthDevice(devices: seq<AuthDevice>, deviceId: string): Option<nat> {
    FirstIndex(devices, (d: AuthDevice) => d.DeviceId == deviceId)
  }

  /** The steps after the clock check: the device and its secret, then the signature. */
  function CheckDevice(devices: seq<AuthDevice>, req: AuthRequest,
                       unprotect: string -> string, mac: (string, string) -> seq<uint8>): AuthResult
  {
    match FindAuthDevice(devices, req.DeviceIdHeader)
    case None => Rejected(DeviceNotFound)
    case Some(i) =>
      var dev := devices[i];
      if dev.ProtectedSecret.None? || dev.ProtectedSecret.value == "" then Rejected(DeviceNotFound)
      else
        var expected := HexOf(mac(unprotect(dev.ProtectedSecret.value), Canonical(req)));
        if FixedTimeEquals(AsciiBytes(expected), AsciiBytes(req.Signature)) then AuthResult(true, dev.Id, None)
        else Rejected(BadSignature)
  }

  /** `ValidateAsync` as written, at server time `now`: the difference of the
      Unix seconds and the timestamp is a wrapping `long` subtraction, whose
      absolute value overflows on `long.MinValue`; the allowed skew is
      `skewMinutes * 60` as a wrapping `int` product. */
  function ValidateAsWritten(devices: seq<AuthDevice>, req: AuthRequest, now: Ticks, skewMinutes: Int32,
                             unprotect: string -> string, mac: (string, string) -> seq<uint8>): Outcome
  {
    if HeadersMissing(req) then Returned(Rejected(MissingHeaders))
    else match ParseLong(req.Timestamp)
      case None => Returned(Rejected(BadTimestamp))
      case Some(ts) =>
        var diff := WrapLong(ToUnixTimeSeconds(now) - ts);
        if diff == MinLong then Overflow
        else if Abs(diff) > WrapInt(skewMinutes * 60) then Returned(Rejected(SkewTooBig))
        else Returned(CheckDevice(devices, req, unprotect, mac))
  }

  /** `ValidateAsync` with the difference taken exactly, so that every
      timestamp too far from the clock gets the `"skew too big"` rejection. */
  function Validate(devices: seq<AuthDevice>, req: AuthRequest, now: Ticks, skewMinutes: Int32,
                    unprotect: string -> string, mac: (string, string) -> seq<uint8>): AuthResult
  {
    if HeadersMissing(req) then Rejected(MissingHeaders)
    else match ParseLong(req.Timestamp)
      case None => Rejected(BadTimestamp)
      case Some(ts) =>
        if Abs(ToUnixTimeSeconds(now) - ts) > WrapInt(skewMinutes * 60) then Rejected(SkewTooBig)
        else CheckDevice(devices, req, unprotect, mac)
  }

  /** The guard ladder: a request is accepted exactly when all four headers are
      present, the timestamp parses within the skew of the clock, the device
      with that label has a secret, and the signature is the hex MAC of the
      signed text under that secret; the accepted id is that device's. Every
      rejection carries `Guid.Empty` and the message of the first failing step. */
  lemma ValidateLadder(devices: seq<AuthDevice>, req: AuthRequest, now: Ticks, skewMinutes: Int32,
                       unprotect: string -> string, mac: (string, string) -> seq<uint8>)
    requires AuthDevicesValid(devices)
    ensures var r := Validate(devices, req, now, skewMinutes, unprotect, mac);
      && (r.ok <==>
            && !HeadersMissing(req)
            && ParseLong(req.Timestamp).Some?
            && Abs(ToUnixTimeSeconds(now) - ParseLong(req.Timestamp).value) <= WrapInt(skewMinutes * 60)
            && exists i :: 0 <= i < |devices| && devices[i].DeviceId == req.DeviceIdHeader
                 && devices[i].ProtectedSecret.Some? && devices[i].ProtectedSecret.value != ""
                 && req.Signature == HexOf(mac(unprotect(devices[i].ProtectedSecret.value), Canonical(req)))
                 && r.deviceDbId == devices[i].Id)
      && (r.ok ==> r.err.None?)
      && (!r.ok ==> r.deviceDbId == Empty && r.err.Some?)
      && (r.err == Some(MissingHeaders) <==> HeadersMissing(req))
      && (r.err == Some(BadTimestamp) <==> !HeadersMissing(req) && ParseLong(req.Timestamp).None?)
      && (r.err == Some(SkewTooBig) <==>
            !HeadersMissing(req) && ParseLong(req.Timestamp).Some?
            && Abs(ToUnixTimeSeconds(now) - ParseLong(req.Timestamp).value) > WrapInt(skewMinutes * 60))
      && (r.err == Some(DeviceNotFound) <==>
            !HeadersMissing(req) && ParseLong(req.Timestamp).Some?
            && Abs(ToUnixTimeSeconds(now) - ParseLong(req.Timestamp).value) <= WrapInt(skewMinutes * 60)
            && forall i :: 0 <= i < |devices| && devices[i].DeviceId == req.DeviceIdHeader ==>
                 devices[i].ProtectedSecret.None? || devices[i].ProtectedSecret.value == "")
      && (r.err == Some(BadSignature) <==>
            !HeadersMissing(req) && ParseLong(req.Timestamp).Some?
            && Abs(ToUnixTimeSeconds(now) - ParseLong(req.Timestamp).value) <= WrapInt(skewMinutes * 60)
            && exists i :: 0 <= i < |devices| && devices[i].DeviceId == req.DeviceIdHeader
                 && devices[i].ProtectedSecret.Some? && devices[i].ProtectedSecret.value != ""
                 && req.Signature != HexOf(mac(unprotect(devices[i].ProtectedSecret.value), Canonical(req))))
  {
    var r := Validate(devices, req, now, skewMinutes, unprotect, mac);
    match FindAuthDevice(devices, req.DeviceIdHeader)
    case None =>
    case Some(k) =>
      var dev := devices[k];
      if dev.ProtectedSecret.Some? && dev.ProtectedSecret.value != "" {
        SignatureComparison(mac(unprotect(dev.ProtectedSecret.value), Canonical(req)), req.Signature);
      }
      forall i | 0 <= i < |devices| && devices[i].DeviceId == req.DeviceIdHeader ensures i == k { }
  }

  /** The one timestamp for which `nowSec - ts` wraps to, or is, `long.MinValue`. */
  function OverflowTimestamp(nowSec: int): int {
    if nowSec >= 0 then nowSec + MinLong else nowSec - MinLong
  }

  /** The wrapped difference is `long.MinValue` for exactly one timestamp,
      and otherwise compares with any `int` limit as the exact one does. */
  lemma WrappedSkewCheck(nowSec: int, ts: int, limit: int)
    requires -UnixEpochSeconds <= nowSec <= 253_402_300_799
    requires MinLong <= ts <= MaxLong && MinInt <= limit <= MaxInt
    ensures WrapLong(nowSec - ts) == MinLong <==> ts == OverflowTimestamp(nowSec)
    ensures WrapLong(nowSec - ts) != MinLong ==>
      (Abs(WrapLong(nowSec - ts)) > limit <==> Abs(nowSec - ts) > limit)
  {
    var exact := nowSec - ts;
    if exact > MaxLong {
      assert WrapLong(exact) == exact - LongModulus;
    } else if exact < MinLong {
      assert WrapLong(exact) == exact + LongModulus;
    }
  }

  /** On a clock inside the range of `DateTime`, the code as written behaves
      like the corrected check except on one timestamp per instant: the one
      whose wrapped difference is `long.MinValue`, where it throws. */
  lemma AsWrittenDiffersOnlyByOverflow(devices: seq<AuthDevice>, req: AuthRequest, now: Ticks, skewMinutes: Int32,
                                       unprotect: string -> string, mac: (string, string) -> seq<uint8>)
    requires now <= MaxTicks
    ensures ValidateAsWritten(devices, req, now, skewMinutes, unprotect, mac) ==
      if !HeadersMissing(req) && ParseLong(req.Timestamp) == Some(OverflowTimestamp(ToUnixTimeSeconds(now)))
      then Overflow
      else Returned(Validate(devices, req, now, skewMinutes, unprotect, mac))
  {
    UnixSecondsBounds(now);
    if !HeadersMissing(req) && ParseLong(req.Timestamp).Some? {
      WrappedSkewCheck(ToUnixTimeSeconds(now), ParseLong(req.Timestamp).value, WrapInt(skewMinutes * 60));
    }
  }

  /** The input that shows it: a timestamp of `long.MinValue` plus the current
      Unix seconds, `-9223372035154775808` at 2023-11-14T22:13:20Z, makes
      the code as written throw instead of rejecting the request. */
  lemma OverflowWitness(devices: seq<AuthDevice>, req: AuthRequest, unprotect: string -> string, mac: (string, string) -> seq<uint8>)
    requires !HeadersMissing(req)
    requires req.Timestamp == FormatLong(1_700_000_000 + MinLong)
    ensures ValidateAsWritten(devices, req, (1_700_000_000 + UnixEpochSeconds) * TicksPerSecond, DefaultSkewMinutes, unprotect, mac) == Overflow
    ensures Validate(devices, req, (1_700_000_000 + UnixEpochSeconds) * TicksPerSecond, DefaultSkewMinutes, unprotect, mac) == Rejected(SkewTooBig)
  {
    ParseFormatLong(1_700_000_000 + MinLong);
    assert ToUnixTimeSeconds((1_700_000_000 + UnixEpochSeconds) * TicksPerSecond) == 1_700_000_000;
  }
}
