/** `System.Guid` as a value and its text forms: the 32 hexadecimal digits in
    "D" order, formatted with `ToString("N")` or `ToString("D")`, and read back by
    `Guid.Parse` / `Guid.TryParse` in the "N", "D", "B" and "P" formats. */
module Guids {
  import opened Wrappers
  import opened Text

  type Nibble = x: int | 0 <= x < 16

  type Guid = s: seq<Nibble> | |s| == 32 witness seq(32, _ => 0 as Nibble)

  /** `Guid.Empty`. */
  const Empty: Guid := [0, 0, 0, 0, 0, 0, 0, 0, 0, 0, 0, 0, 0, 0, 0, 0, 0, 0, 0, 0, 0, 0, 0, 0, 0, 0, 0, 0, 0, 0, 0, 0]

  /** The lower-case hexadecimal digit of a nibble. */
  function HexChar(n: Nibble): char {
    if n < 10 then ('0' as int + n) as char else ('a' as int + n - 10) as char
  }

  predicate IsLowerHex(c: char) {
    '0' <= c <= '9' || 'a' <= c <= 'f'
  }

  /** The value of a hexadecimal digit of either case. */
  function HexValue(c: char): (r: Option<Nibble>)
    ensures r.Some? <==> ('0' <= c <= '9' || 'a' <= c <= 'f' || 'A' <= c <= 'F')
  {
    if '0' <= c <= '9' then Some(c as int - '0' as int)
    else if 'a' <= c <= 'f' then Some(c as int - 'a' as int + 10)
    else if 'A' <= c <= 'F' then Some(c as int - 'A' as int + 10)
    else None
  }

  lemma HexCharValue(n: Nibble)
    ensures IsLowerHex(HexChar(n)) && HexValue(HexChar(n)) == Some(n)
  {
  }

  /** A digit read as `n` is the digit `HexChar(n)` up to case. */
  lemma HexValueIgnoringCase(c: char, n: Nibble)
    requires HexValue(c) == Some(n)
    ensures UpperAscii(c) == UpperAscii(HexChar(n))
  {
  }

  /** `g.ToString("N")`: 32 lower-case hexadecimal digits. */
  function FormatN(g: Guid): (s: string)
    ensures |s| == 32
    ensures forall i :: 0 <= i < 32 ==> s[i] == HexChar(g[i])
  {
    seq(32, i requires 0 <= i < 32 => HexChar(g[i]))
  }

  /** `g.ToString()` ("D"): the digits grouped 8-4-4-4-12 by hyphens. */
  function FormatD(g: Guid): (s: string)
    ensures |s| == 36
  {
    var n := FormatN(g);
    n[..8] + "-" + n[8..12] + "-" + n[12..16] + "-" + n[16..20] + "-" + n[20..]
  }

  /** 32 hexadecimal digits read as a Guid. */
  function ParseDigits(s: string): (r: Option<Guid>)
    requires |s| == 32
    ensures r.Some? <==> forall i :: 0 <= i < 32 ==> HexValue(s[i]).Some?
    ensures r.Some? ==> forall i :: 0 <= i < 32 ==> HexValue(s[i]) == Some(r.value[i])
    ensures r.Some? ==> EqualsIgnoreCase(s, FormatN(r.value))
  {
    if forall i :: 0 <= i < 32 ==> HexValue(s[i]).Some? then
      var g: Guid := seq(32, i requires 0 <= i < 32 => HexValue(s[i]).value);
      assert forall i :: 0 <= i < 32 ==> UpperAscii(s[i]) == UpperAscii(FormatN(g)[i]) by {
        forall i | 0 <= i < 32 ensures UpperAscii(s[i]) == UpperAscii(FormatN(g)[i]) {
          HexValueIgnoringCase(s[i], g[i]);
        }
      }
      Some(g)
    else None
  }

  /** The "D" layout: hyphens at 8, 13, 18 and 23 and hexadecimal digits elsewhere. */
  function ParseHyphenated(s: string): (r: Option<Guid>)
    requires |s| == 36
    ensures r.Some? ==> EqualsIgnoreCase(s, FormatD(r.value))
  {
    if s[8] == '-' && s[13] == '-' && s[18] == '-' && s[23] == '-' then
      var r := ParseDigits(s[..8] + s[9..13] + s[14..18] + s[19..23] + s[24..]);
      if r.Some? then HyphenatedIgnoringCase(s, r.value); r else r
    else None
  }

  /** Hyphens in the "D" places around digits that equal the "N" form up to
      case make the "D" form up to case. */
  lemma HyphenatedIgnoringCase(s: string, g: Guid)
    requires |s| == 36 && s[8] == '-' && s[13] == '-' && s[18] == '-' && s[23] == '-'
    requires EqualsIgnoreCase(s[..8] + s[9..13] + s[14..18] + s[19..23] + s[24..], FormatN(g))
    ensures EqualsIgnoreCase(s, FormatD(g))
  {
    var m := s[..8] + s[9..13] + s[14..18] + s[19..23] + s[24..];
    var n := FormatN(g);
    var d := FormatD(g);
    FormatDLayout(g);
    forall k | 0 <= k < 36 ensures UpperAscii(s[k]) == UpperAscii(d[k]) {
      if k < 8 {
        assert s[k] == m[k] && d[k] == n[k];
      } else if 8 < k < 13 {
        assert s[k] == m[k - 1] && d[k] == n[k - 1];
      } else if 13 < k < 18 {
        assert s[k] == m[k - 2] && d[k] == n[k - 2];
      } else if 18 < k < 23 {
        assert s[k] == m[k - 3] && d[k] == n[k - 3];
      } else if 23 < k {
        assert s[k] == m[k - 4] && d[k] == n[k - 4];
      }
    }
  }

  /** `t` is one of the four text forms of `g`, up to the case of its letters. */
  predicate IsGuidText(t: string, g: Guid) {
    EqualsIgnoreCase(t, FormatN(g)) || EqualsIgnoreCase(t, FormatD(g))
    || EqualsIgnoreCase(t, "{" + FormatD(g) + "}") || EqualsIgnoreCase(t, "(" + FormatD(g) + ")")
  }

  /** A bracketed "D" form, up to case. */
  lemma BracketedIgnoringCase(t: string, g: Guid, open: char, close: char)
    requires |t| == 38 && t[0] == open && t[37] == close
    requires EqualsIgnoreCase(t[1..37], FormatD(g))
    ensures EqualsIgnoreCase(t, [open] + FormatD(g) + [close])
  {
    var b := [open] + FormatD(g) + [close];
    forall k | 1 <= k < 37 ensures UpperAscii(t[k]) == UpperAscii(b[k]) {
      assert t[k] == t[1..37][k - 1];
    }
  }

  /** `Guid.TryParse`: surrounding white space is trimmed; a string holding a
      hyphen is read in the "D", "B" ({D}) or "P" ((D)) format, one without a
      hyphen in the "N" format. `None` is the `false` of `TryParse` and the
      `FormatException` of `Parse`. */
  function ParseGuid(s: string): (r: Option<Guid>)
    ensures r.Some? ==> !IsBlank(s)
    ensures r.Some? ==> IsGuidText(Trim(s), r.value)
  {
    var t := Trim(s);
    if '-' in t then
      if |t| == 36 then ParseHyphenated(t)
      else if |t| == 38 && ((t[0] == '{' && t[37] == '}') || (t[0] == '(' && t[37] == ')')) then
        var r := ParseHyphenated(t[1..37]);
        if r.Some? then BracketedIgnoringCase(t, r.value, t[0], t[37]); r else r
      else None
    else if |t| == 32 then ParseDigits(t)
    else None
  }

  lemma FormatNHasNoSpaceOrHyphen(g: Guid)
    ensures forall i :: 0 <= i < 32 ==> IsLowerHex(FormatN(g)[i]) && !IsWhiteSpace(FormatN(g)[i])
    ensures '-' !in FormatN(g)
  {
    forall i | 0 <= i < 32 ensures IsLowerHex(FormatN(g)[i]) { HexCharValue(g[i]); }
  }

  /** What `ToString("N")` writes, `Parse` reads back. */
  lemma FormatNRoundTrip(g: Guid)
    ensures ParseGuid(FormatN(g)) == Some(g)
  {
    var n := FormatN(g);
    FormatNHasNoSpaceOrHyphen(g);
    TrimNothingToTrim(n);
    forall i | 0 <= i < 32 ensures HexValue(n[i]) == Some(g[i]) { HexCharValue(g[i]); }
    var r := ParseDigits(n);
    assert r.value == g;
  }

  lemma FormatDLayout(g: Guid)
    ensures var d := FormatD(g);
      d[8] == '-' && d[13] == '-' && d[18] == '-' && d[23] == '-'
      && d[..8] + d[9..13] + d[14..18] + d[19..23] + d[24..] == FormatN(g)
  {
    var n := FormatN(g);
    var d := FormatD(g);
    assert d[..8] == n[..8] && d[9..13] == n[8..12] && d[14..18] == n[12..16];
    assert d[19..23] == n[16..20] && d[24..] == n[20..];
    assert n[..8] + n[8..12] + n[12..16] + n[16..20] + n[20..] == n;
  }

  lemma FormatDHasNoSpace(g: Guid)
    ensures forall i :: 0 <= i < 36 ==> !IsWhiteSpace(FormatD(g)[i])
  {
    var n := FormatN(g);
    var d := FormatD(g);
    FormatNHasNoSpaceOrHyphen(g);
    assert forall c :: c in d ==> c == '-' || c in n;
    forall i | 0 <= i < 36 ensures !IsWhiteSpace(d[i]) {
      assert d[i] in d;
    }
  }

  /** What `ToString("D")` writes, `Parse` reads back. */
  lemma FormatDRoundTrip(g: Guid)
    ensures ParseGuid(FormatD(g)) == Some(g)
  {
    var d := FormatD(g);
    FormatDHasNoSpace(g);
    TrimNothingToTrim(d);
    FormatDLayout(g);
    assert d[8] in d;
    assert ParseHyphenated(d) == ParseDigits(FormatN(g));
    FormatNRoundTrip(g);
  }

  /** Two Guids with the same "N" text are the same Guid. */
  lemma FormatNInjective(g: Guid, h: Guid)
    requires FormatN(g) == FormatN(h)
    ensures g == h
  {
    FormatNRoundTrip(g);
    FormatNRoundTrip(h);
  }
}
