/** The .NET string routines the bridge and the device validator rely on:
    white-space classes, `String.Split` on one separator character (with and
    without removing empty entries), `String.Join`, `String.Trim` and the
    ordinal case-insensitive comparison. */
module Text {

  /** `char.IsWhiteSpace`: the characters of the Unicode White_Space property. */
  predicate IsWhiteSpace(c: char) {
    var n := c as int;
    (0x09 <= n <= 0x0D) || n == 0x20 || n == 0x85 || n == 0xA0 || n == 0x1680
    || (0x2000 <= n <= 0x200A) || n == 0x2028 || n == 0x2029 || n == 0x202F
    || n == 0x205F || n == 0x3000
  }

  /** `string.IsNullOrWhiteSpace` of a present string: empty or white space only. */
  predicate IsBlank(s: string) {
    forall i :: 0 <= i < |s| ==> IsWhiteSpace(s[i])
  }

  /** `String.Join(sep, parts)`. */
  function Join(sep: string, parts: seq<string>): string
    decreases |parts|
  {
    if |parts| == 0 then ""
    else if |parts| == 1 then parts[0]
    else parts[0] + sep + Join(sep, parts[1..])
  }

  lemma JoinCons(sep: string, p: string, ps: seq<string>)
    ensures Join(sep, [p] + ps) == if |ps| == 0 then p else p + sep + Join(sep, ps)
  {
    if |ps| > 0 {
      assert ([p] + ps)[1..] == ps;
    }
  }

  /** `s.Split(sep)`: the maximal runs between separators, empty runs included.
      Joining the parts again with the separator gives back `s`. */
  function Split(s: string, sep: char): (parts: seq<string>)
    ensures |parts| >= 1
    ensures forall i :: 0 <= i < |parts| ==> sep !in parts[i]
    ensures Join([sep], parts) == s
    decreases |s|
  {
    if |s| == 0 then [""]
    else
      var rest := Split(s[1..], sep);
      JoinCons([sep], "", rest);
      JoinCons([sep], [s[0]] + rest[0], rest[1..]);
      JoinCons([sep], rest[0], rest[1..]);
      assert rest == [rest[0]] + rest[1..];
      if s[0] == sep then [""] + rest
      else [[s[0]] + rest[0]] + rest[1..]
  }

  lemma {:induction false} SplitNoSeparator(s: string, sep: char)
    requires sep !in s
    ensures Split(s, sep) == [s]
    decreases |s|
  {
    if |s| > 0 {
      SplitNoSeparator(s[1..], sep);
      assert [s[0]] + s[1..] == s;
    }
  }

  /** Splitting at a separator splits the two sides independently. */
  lemma {:induction false} SplitAppend(a: string, sep: char, b: string)
    ensures Split(a + [sep] + b, sep) == Split(a, sep) + Split(b, sep)
    decreases |a|
  {
    if |a| == 0 {
      assert a + [sep] + b == [sep] + b;
      assert ([sep] + b)[1..] == b;
    } else {
      assert (a + [sep] + b)[1..] == a[1..] + [sep] + b;
      SplitAppend(a[1..], sep, b);
    }
  }

  /** `String.Join` and `String.Split` are inverse when no part holds the separator. */
  lemma {:induction false} SplitJoin(parts: seq<string>, sep: char)
    requires |parts| >= 1
    requires forall i :: 0 <= i < |parts| ==> sep !in parts[i]
    ensures Split(Join([sep], parts), sep) == parts
    decreases |parts|
  {
    if |parts| == 1 {
      SplitNoSeparator(parts[0], sep);
    } else {
      SplitJoin(parts[1..], sep);
      SplitNoSeparator(parts[0], sep);
      SplitAppend(parts[0], sep, Join([sep], parts[1..]));
      assert parts[0] + [sep] + Join([sep], parts[1..]) == Join([sep], parts);
      assert parts == [parts[0]] + parts[1..];
    }
  }

  /** The effect of `StringSplitOptions.RemoveEmptyEntries`. */
  function RemoveEmpty(parts: seq<string>): (r: seq<string>)
    ensures |r| <= |parts|
    ensures forall p :: p in r <==> p in parts && p != ""
  {
    if |parts| == 0 then []
    else if parts[0] == "" then RemoveEmpty(parts[1..])
    else [parts[0]] + RemoveEmpty(parts[1..])
  }

  lemma {:induction false} RemoveEmptyAppend(a: seq<string>, b: seq<string>)
    ensures RemoveEmpty(a + b) == RemoveEmpty(a) + RemoveEmpty(b)
    decreases |a|
  {
    if |a| == 0 {
      assert a + b == b;
    } else {
      assert (a + b)[1..] == a[1..] + b;
      RemoveEmptyAppend(a[1..], b);
    }
  }

  lemma {:induction false} RemoveEmptyKeepsNonEmpty(parts: seq<string>)
    requires forall i :: 0 <= i < |parts| ==> parts[i] != ""
    ensures RemoveEmpty(parts) == parts
    decreases |parts|
  {
    if |parts| > 0 {
      RemoveEmptyKeepsNonEmpty(parts[1..]);
      assert parts == [parts[0]] + parts[1..];
    }
  }

  /** `s.Split(sep, StringSplitOptions.RemoveEmptyEntries)`. */
  function SplitNonEmpty(s: string, sep: char): (parts: seq<string>)
    ensures forall i :: 0 <= i < |parts| ==> parts[i] != "" && sep !in parts[i]
  {
    var all := Split(s, sep);
    var parts := RemoveEmpty(all);
    assert forall i :: 0 <= i < |parts| ==> parts[i] in parts;
    parts
  }

  /** `t` is `s` with some white space cut from its front and its back. */
  ghost predicate TrimmedFrom(s: string, t: string) {
    exists i, j :: 0 <= i <= j <= |s| && t == s[i..j]
      && (forall k :: 0 <= k < i ==> IsWhiteSpace(s[k]))
      && (forall k :: j <= k < |s| ==> IsWhiteSpace(s[k]))
  }

  /** Cutting white space from a slice that only white space surrounds is
      cutting it from the whole. */
  lemma TrimmedFromInner(s: string, a: nat, b: nat, t: string)
    requires a <= b <= |s|
    requires forall k :: 0 <= k < a ==> IsWhiteSpace(s[k])
    requires forall k :: b <= k < |s| ==> IsWhiteSpace(s[k])
    requires TrimmedFrom(s[a..b], t)
    ensures TrimmedFrom(s, t)
  {
    var u := s[a..b];
    var i, j :| 0 <= i <= j <= |u| && t == u[i..j]
      && (forall k :: 0 <= k < i ==> IsWhiteSpace(u[k]))
      && (forall k :: j <= k < |u| ==> IsWhiteSpace(u[k]));
    assert forall k :: 0 <= k < j - i ==> t[k] == s[a + i + k];
    assert t == s[a + i..a + j];
    forall k | 0 <= k < a + i ensures IsWhiteSpace(s[k]) {
      if k >= a { assert s[k] == u[k - a]; }
    }
    forall k | a + j <= k < |s| ensures IsWhiteSpace(s[k]) {
      if k < b { assert s[k] == u[k - a]; }
    }
  }

  /** `String.Trim()`: white space removed from both ends, and nothing else. */
  function Trim(s: string): (t: string)
    ensures TrimmedFrom(s, t)
    ensures |t| > 0 ==> !IsWhiteSpace(t[0]) && !IsWhiteSpace(t[|t| - 1])
    ensures t == "" <==> IsBlank(s)
    decreases |s|
  {
    if |s| == 0 then
      assert s == s[0..0];
      s
    else if IsWhiteSpace(s[0]) then
      var t := Trim(s[1..]);
      assert s[1..|s|] == s[1..];
      TrimmedFromInner(s, 1, |s|, t);
      t
    else if IsWhiteSpace(s[|s| - 1]) then
      var t := Trim(s[..|s| - 1]);
      TrimmedFromInner(s, 0, |s| - 1, t);
      t
    else
      assert s == s[0..|s|];
      s
  }

  lemma TrimNothingToTrim(s: string)
    requires forall i :: 0 <= i < |s| ==> !IsWhiteSpace(s[i])
    ensures Trim(s) == s
  {
  }

  /** The letter folding of `StringComparison.OrdinalIgnoreCase`, for ASCII letters. */
  function UpperAscii(c: char): (u: char)
    ensures 'a' <= c <= 'z' ==> 'A' <= u <= 'Z' && u as int == c as int - 32
    ensures !('a' <= c <= 'z') ==> u == c
  {
    if 'a' <= c <= 'z' then (c as int - 32) as char else c
  }

  predicate EqualsIgnoreCase(a: string, b: string) {
    |a| == |b| && forall i :: 0 <= i < |a| ==> UpperAscii(a[i]) == UpperAscii(b[i])
  }

  /** A string with character `c` at some place never equals, ignoring case, one
      without it, when `c` is not a letter. */
  lemma NotEqualsIgnoreCaseMissingChar(a: string, b: string, c: char)
    requires !('a' <= c <= 'z') && !('A' <= c <= 'Z')
    requires c !in a && c in b
    ensures !EqualsIgnoreCase(a, b)
  {
  }
}
