/** The Python 2 string operations the schema relies on: str.isspace, str.strip,
    str.lower, the base-10 int() parse of a string, and str() of an integer. */
module Text {
  import opened Errors

  /** The C isspace set used by Python 2 byte strings: ' ', \t, \n, \v, \f, \r. */
  predicate IsSpace(c: char) { c == ' ' || '\t' <= c <= '\r' }

  predicate IsDigit(c: char) { '0' <= c <= '9' }

  predicate AllSpace(s: string) { forall i :: 0 <= i < |s| ==> IsSpace(s[i]) }

  predicate AllDigits(s: string) { forall i :: 0 <= i < |s| ==> IsDigit(s[i]) }

  /** s with its leading whitespace removed. */
  function TrimLeft(s: string): string
  {
    if s != [] && IsSpace(s[0]) then TrimLeft(s[1..]) else s
  }

  /** s with its trailing whitespace removed. */
  function TrimRight(s: string): string
  {
    if s != [] && IsSpace(s[|s| - 1]) then TrimRight(s[..|s| - 1]) else s
  }

  /** str.strip(): whitespace removed at both ends. */
  function Strip(s: string): string
  {
    TrimRight(TrimLeft(s))
  }

  /** TrimLeft removes a blank prefix and leaves a string that does not start
      with whitespace. */
  lemma {:induction false} TrimLeftShape(s: string)
    ensures |TrimLeft(s)| <= |s| && TrimLeft(s) == s[|s| - |TrimLeft(s)|..]
    ensures AllSpace(s[..|s| - |TrimLeft(s)|])
    ensures TrimLeft(s) != [] ==> !IsSpace(TrimLeft(s)[0])
  {
    if s != [] && IsSpace(s[0]) {
      TrimLeftShape(s[1..]);
      var r := TrimLeft(s);
      var n := |s| - |r|;
      assert s[1..][..n - 1] == s[1..n];
      assert forall j :: 0 <= j < n ==> s[..n][j] == s[j];
      assert forall j :: 1 <= j < n ==> s[j] == s[1..n][j - 1];
    }
  }

  /** TrimRight removes a blank suffix and leaves a string that does not end
      with whitespace. */
  lemma {:induction false} TrimRightShape(s: string)
    ensures |TrimRight(s)| <= |s| && TrimRight(s) == s[..|TrimRight(s)|]
    ensures AllSpace(s[|TrimRight(s)|..])
    ensures TrimRight(s) != [] ==> !IsSpace(TrimRight(s)[|TrimRight(s)| - 1])
  {
    if s != [] && IsSpace(s[|s| - 1]) {
      var t := s[..|s| - 1];
      TrimRightShape(t);
      var n := |TrimRight(s)|;
      assert t[n..] + [s[|s| - 1]] == s[n..];
    }
  }

  /** str.strip() neither starts nor ends with whitespace and is no longer than
      its argument. */
  lemma StripEdges(s: string)
    ensures |Strip(s)| <= |s|
    ensures Strip(s) != [] ==> !IsSpace(Strip(s)[0]) && !IsSpace(Strip(s)[|Strip(s)| - 1])
  {
    TrimLeftShape(s);
    var t := TrimLeft(s);
    TrimRightShape(t);
    if Strip(s) != [] {
      assert Strip(s)[0] == t[0];
    }
  }

  lemma SpacePrefix(s: string, a: int)
    requires 0 <= a <= |s| && AllSpace(s[..a])
    ensures forall j :: 0 <= j < a ==> IsSpace(s[j])
  {
    forall j | 0 <= j < a ensures IsSpace(s[j]) { assert s[..a][j] == s[j]; }
  }

  lemma SpaceSuffix(s: string, b: int)
    requires 0 <= b <= |s| && AllSpace(s[b..])
    ensures forall j :: b <= j < |s| ==> IsSpace(s[j])
  {
    forall j | b <= j < |s| ensures IsSpace(s[j]) { assert s[b..][j - b] == s[j]; }
  }

  lemma {:induction false} TrimLeftSpaces(ws: string, s: string)
    requires AllSpace(ws)
    ensures TrimLeft(ws + s) == TrimLeft(s)
  {
    if ws != [] {
      assert (ws + s)[1..] == ws[1..] + s;
      TrimLeftSpaces(ws[1..], s);
    } else {
      assert ws + s == s;
    }
  }

  lemma {:induction false} TrimRightSpaces(s: string, ws: string)
    requires AllSpace(ws)
    ensures TrimRight(s + ws) == TrimRight(s)
  {
    if ws != [] {
      assert (s + ws)[..|s + ws| - 1] == s + ws[..|ws| - 1];
      TrimRightSpaces(s, ws[..|ws| - 1]);
    } else {
      assert s + ws == s;
    }
  }

  lemma {:induction false} TrimLeftAppend(s: string, ws: string)
    requires AllSpace(ws)
    ensures TrimLeft(s + ws) == if TrimLeft(s) == [] then TrimLeft(ws) else TrimLeft(s) + ws
  {
    if s == [] {
      assert s + ws == ws;
    } else if IsSpace(s[0]) {
      assert (s + ws)[1..] == s[1..] + ws;
      TrimLeftAppend(s[1..], ws);
    }
  }

  /** Whitespace around a string does not change what strip() returns. */
  lemma StripPadded(ws1: string, s: string, ws2: string)
    requires AllSpace(ws1) && AllSpace(ws2)
    ensures Strip(ws1 + s + ws2) == Strip(s)
  {
    assert ws1 + s + ws2 == ws1 + (s + ws2);
    TrimLeftSpaces(ws1, s + ws2);
    TrimLeftAppend(s, ws2);
    if TrimLeft(s) == [] {
      TrimRightSpaces([], ws2);
      assert TrimLeft(ws2) == TrimLeft(ws2 + []) by { assert ws2 + [] == ws2; }
      TrimLeftSpaces(ws2, []);
    } else {
      TrimRightSpaces(TrimLeft(s), ws2);
    }
  }

  /** A string with no whitespace at either end is its own strip(). */
  lemma StripUnpadded(s: string)
    requires s != [] ==> !IsSpace(s[0]) && !IsSpace(s[|s| - 1])
    ensures Strip(s) == s
  {
  }

  /** strip() is idempotent. */
  lemma StripIdempotent(s: string)
    ensures Strip(Strip(s)) == Strip(s)
  {
    StripEdges(s);
    StripUnpadded(Strip(s));
  }

  /** A character that is not whitespace survives strip(). */
  lemma StripKeeps(s: string, i: int)
    requires 0 <= i < |s| && !IsSpace(s[i])
    ensures s[i] in Strip(s)
  {
    var t := TrimLeft(s);
    TrimLeftShape(s);
    var a := |s| - |t|;
    SpacePrefix(s, a);
    assert t[i - a] == s[i];
    var r := TrimRight(t);
    TrimRightShape(t);
    SpaceSuffix(t, |r|);
    assert r[i - a] == s[i];
  }

  function LowerChar(c: char): char
  {
    if 'A' <= c <= 'Z' then (c as int + 32) as char else c
  }

  /** str.lower() on ASCII letters. */
  function Lower(s: string): (r: string)
    ensures |r| == |s|
  {
    seq(|s|, i requires 0 <= i < |s| => LowerChar(s[i]))
  }

  /** The key under which a name is filed: name.lower().strip(). */
  function NormalName(name: string): string
  {
    Strip(Lower(name))
  }

  /** A normalised name is its own strip(). */
  lemma NormalNameStripped(name: string)
    ensures Strip(NormalName(name)) == NormalName(name)
  {
    StripIdempotent(Lower(name));
  }

  function DigitValue(c: char): nat
    requires IsDigit(c)
  {
    c as int - '0' as int
  }

  /** The value of a non-empty run of decimal digits, most significant first. */
  function DigitsValue(d: string): nat
    requires AllDigits(d)
  {
    if d == [] then 0 else 10 * DigitsValue(d[..|d| - 1]) + DigitValue(d[|d| - 1])
  }

  /** An optional sign followed by at least one decimal digit. */
  function ParseSigned(t: string): Option<int>
  {
    if t != [] && (t[0] == '+' || t[0] == '-') then
      var d := t[1..];
      if d != [] && AllDigits(d) then
        var v: int := DigitsValue(d);
        Some(if t[0] == '-' then -v else v)
      else None
    else if t != [] && AllDigits(t) then Some(DigitsValue(t))
    else None
  }

  /** Python 2 int(s) for a string s: None stands for the ValueError it raises. */
  function ParseInt(s: string): Option<int>
  {
    ParseSigned(Strip(s))
  }

  function DigitChar(n: nat): (c: char)
    requires n < 10
    ensures IsDigit(c) && DigitValue(c) == n
  {
    ('0' as int + n) as char
  }

  /** str(n) for n >= 0: decimal digits without leading zeros. */
  function NatString(n: nat): (s: string)
    ensures s != [] && AllDigits(s)
  {
    if n < 10 then [DigitChar(n)] else NatString(n / 10) + [DigitChar(n % 10)]
  }

  /** str(n) for an integer n. */
  function DecimalString(n: int): string
  {
    if n < 0 then "-" + NatString(-n) else NatString(n)
  }

  lemma {:induction false} NatStringValue(n: nat)
    ensures DigitsValue(NatString(n)) == n
  {
    if n >= 10 {
      var s := NatString(n);
      assert s[..|s| - 1] == NatString(n / 10);
      NatStringValue(n / 10);
    }
  }

  lemma ParseDecimal(n: int)
    ensures ParseSigned(DecimalString(n)) == Some(n)
  {
    var s := DecimalString(n);
    if n < 0 {
      assert s[1..] == NatString(-n);
      NatStringValue(-n);
    } else {
      NatStringValue(n);
    }
  }

  /** int(str(n)) == n, also with whitespace around the digits. */
  lemma ParseDecimalRoundTrip(ws1: string, n: int, ws2: string)
    requires AllSpace(ws1) && AllSpace(ws2)
    ensures ParseInt(ws1 + DecimalString(n) + ws2) == Some(n)
  {
    var s := DecimalString(n);
    StripPadded(ws1, s, ws2);
    StripUnpadded(s);
    ParseDecimal(n);
  }

  /** int(str(n)) == n. */
  lemma ParseDecimalString(n: int)
    ensures ParseInt(DecimalString(n)) == Some(n)
  {
    ParseDecimalRoundTrip([], n, []);
    assert [] + DecimalString(n) + [] == DecimalString(n);
  }

  /** A string holding a character that is neither whitespace, a sign nor a
      digit (a decimal point, a letter) is rejected by int(). */
  lemma ParseRejectsForeignChar(s: string, i: int)
    requires 0 <= i < |s|
    requires !IsSpace(s[i]) && !IsDigit(s[i]) && s[i] != '+' && s[i] != '-'
    ensures ParseInt(s) == None
  {
    StripKeeps(s, i);
    var t := Strip(s);
    var j :| 0 <= j < |t| && t[j] == s[i];
    if t[0] == '+' || t[0] == '-' {
      assert t[1..][j - 1] == t[j];
    }
  }

  lemma {:induction false} TrimLeftBlank(s: string)
    requires AllSpace(s)
    ensures TrimLeft(s) == []
  {
    if s != [] {
      TrimLeftBlank(s[1..]);
    }
  }

  /** A blank string is rejected by int(). */
  lemma ParseRejectsBlank(s: string)
    requires AllSpace(s)
    ensures ParseInt(s) == None
  {
    TrimLeftBlank(s);
  }
}
