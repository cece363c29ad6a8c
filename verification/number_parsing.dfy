/**
 * The two ways text becomes an integer in the server:
 *   - JavaScript's `parseInt(s)` (no radix), used on the pagination query
 *     parameters;
 *   - PostgreSQL's text-to-`integer` input conversion, applied to every
 *     path id and vote delta bound as a query parameter.  Its failures are
 *     SQLSTATE 22P02 (invalid text representation) and 22003 (numeric value
 *     out of range).
 */
module NumberParsing {
  import opened Prelude
  import Text

  // ---------------------------------------------------------------------
  // JavaScript parseInt

  /** Number of leading `\s` characters. */
  function LeadingJsSpaces(s: string): (k: nat)
    ensures k <= |s|
    ensures forall i :: 0 <= i < k ==> Text.IsJsSpace(s[i])
    ensures k < |s| ==> !Text.IsJsSpace(s[k])
  {
    if s == [] || !Text.IsJsSpace(s[0]) then 0 else 1 + LeadingJsSpaces(s[1..])
  }

  predicate IsHexDigit(c: char) {
    Text.IsDigit(c) || 'a' <= c <= 'f' || 'A' <= c <= 'F'
  }

  /** A digit of base 16 (`hex`) or base 10. */
  predicate IsDigitIn(c: char, hex: bool) {
    if hex then IsHexDigit(c) else Text.IsDigit(c)
  }

  function DigitIn(c: char, hex: bool): (d: nat)
    requires IsDigitIn(c, hex)
    ensures d < (if hex then 16 else 10)
  {
    if Text.IsDigit(c) then Text.DigitValue(c)
    else if 'a' <= c <= 'f' then c as int - 'a' as int + 10
    else c as int - 'A' as int + 10
  }

  /** Length of the longest prefix made of digits of the base. */
  function DigitRun(s: string, hex: bool): (n: nat)
    ensures n <= |s|
    ensures forall i :: 0 <= i < n ==> IsDigitIn(s[i], hex)
    ensures n < |s| ==> !IsDigitIn(s[n], hex)
  {
    if s == [] || !IsDigitIn(s[0], hex) then 0 else 1 + DigitRun(s[1..], hex)
  }

  /** The value of a digit string in the base, most significant first. */
  function RadixValue(s: string, hex: bool): nat
    requires forall i :: 0 <= i < |s| ==> IsDigitIn(s[i], hex)
  {
    if s == [] then 0
    else if hex then 16 * RadixValue(s[..|s| - 1], hex) + DigitIn(s[|s| - 1], hex)
    else 10 * RadixValue(s[..|s| - 1], hex) + DigitIn(s[|s| - 1], hex)
  }

  /** The value of the longest digit prefix, or `None` when there is none. */
  function DigitPrefix(s: string, hex: bool): Option<nat> {
    var n := DigitRun(s, hex);
    if n == 0 then None else Some(RadixValue(s[..n], hex))
  }

  /** After the sign: a "0x"/"0X" prefix switches to base 16. */
  function ParseUnsigned(u: string): Option<nat> {
    if |u| >= 2 && u[0] == '0' && (u[1] == 'x' || u[1] == 'X') then DigitPrefix(u[2..], true)
    else DigitPrefix(u, false)
  }

  /** `parseInt(s)` with no radix: skip leading white space, take an
      optional sign, then a "0x" prefix and the longest run of digits;
      `None` is `NaN` (no digits at all).  A negative zero reads as 0. */
  function ParseInt(s: string): Option<int> {
    var t := s[LeadingJsSpaces(s)..];
    if |t| > 0 && t[0] == '-' then
      match ParseUnsigned(t[1..])
      case None => None
      case Some(m) => Some(-(m as int))
    else if |t| > 0 && t[0] == '+' then
      match ParseUnsigned(t[1..])
      case None => None
      case Some(m) => Some(m)
    else
      match ParseUnsigned(t)
      case None => None
      case Some(m) => Some(m)
  }

  lemma {:induction false} DecimalDigitsAgree(s: string)
    requires forall i :: 0 <= i < |s| ==> Text.IsDigit(s[i])
    ensures forall i :: 0 <= i < |s| ==> IsDigitIn(s[i], false)
    ensures RadixValue(s, false) == Text.DecimalValue(s)
  {
    if s != [] {
      DecimalDigitsAgree(s[..|s| - 1]);
    }
  }

  lemma {:induction false} DigitRunStops(d: string, rest: string, hex: bool)
    requires forall i :: 0 <= i < |d| ==> IsDigitIn(d[i], hex)
    requires rest == [] || !IsDigitIn(rest[0], hex)
    ensures DigitRun(d + rest, hex) == |d|
    decreases |d|
  {
    if d != [] {
      assert (d + rest)[1..] == d[1..] + rest;
      DigitRunStops(d[1..], rest, hex);
    } else {
      assert d + rest == rest;
    }
  }

  /** The digit prefix of a decimal rendering followed by a non-digit is
      the rendered number. */
  lemma DecimalPrefixOf(n: nat, rest: string)
    requires rest == [] || !Text.IsDigit(rest[0])
    ensures DigitPrefix(Text.NatToDecimal(n) + rest, false) == Some(n)
  {
    var d := Text.NatToDecimal(n);
    DecimalDigitsAgree(d);
    Text.DecimalRoundTrip(n);
    DigitRunStops(d, rest, false);
    assert (d + rest)[..|d|] == d;
  }

  /** Text starting with neither white space nor a sign is read unsigned. */
  lemma ParseIntUnsignedStart(u: string)
    requires u != [] && !Text.IsJsSpace(u[0]) && u[0] != '-' && u[0] != '+'
    ensures ParseInt(u) == ParseUnsigned(u)
  {
    assert LeadingJsSpaces(u) == 0;
    assert u[0..] == u;
  }

  /** A leading minus sign negates what follows it. */
  lemma ParseIntMinus(u: string)
    ensures ParseInt("-" + u) == match ParseUnsigned(u) case None => None case Some(m) => Some(-(m as int))
  {
    var m := "-" + u;
    assert LeadingJsSpaces(m) == 0;
    assert m[0..] == m;
    assert m[1..] == u;
  }

  /** A decimal rendering, even followed by a non-digit, is read unsigned
      as the rendered number, unless a lone "0" starts a hex prefix. */
  lemma UnsignedReadsDecimal(n: nat, rest: string)
    requires rest == [] || !Text.IsDigit(rest[0])
    requires n == 0 ==> rest == [] || (rest[0] != 'x' && rest[0] != 'X')
    ensures ParseUnsigned(Text.NatToDecimal(n) + rest) == Some(n)
  {
    var d := Text.NatToDecimal(n);
    DecimalPrefixOf(n, rest);
    Text.DecimalNoLeadingZero(n);
    var u := d + rest;
    assert u[0] == d[0];
    if n == 0 {
      assert d == "0";
      assert |u| >= 2 ==> u[1] == rest[0];
    }
  }

  /** `parseInt` reads a decimal rendering back, and ignores what follows
      the digits ("5abc" is 5), provided the text after a lone "0" does not
      start a hexadecimal prefix. */
  lemma ParseIntReadsDecimal(n: nat, rest: string)
    requires rest == [] || !Text.IsDigit(rest[0])
    requires n == 0 ==> rest == [] || (rest[0] != 'x' && rest[0] != 'X')
    ensures ParseInt(Text.NatToDecimal(n) + rest) == Some(n)
    ensures ParseInt("-" + Text.NatToDecimal(n) + rest) == Some(-(n as int))
  {
    var d := Text.NatToDecimal(n);
    var u := d + rest;
    UnsignedReadsDecimal(n, rest);
    assert u[0] == d[0] && Text.IsDigit(d[0]);
    ParseIntUnsignedStart(u);
    ParseIntMinus(u);
    assert "-" + d + rest == "-" + u;
  }

  /** Every integer's rendering parses back to it. */
  lemma ParseIntRoundTrip(n: int)
    ensures ParseInt(Text.IntToDecimal(n)) == Some(n)
  {
    if n < 0 {
      ParseIntReadsDecimal(-n, []);
      assert "-" + Text.NatToDecimal(-n) + [] == Text.IntToDecimal(n);
    } else {
      ParseIntReadsDecimal(n, []);
      assert Text.NatToDecimal(n) + [] == Text.IntToDecimal(n);
    }
  }

  /** Text without a single digit (after white space, sign and prefix) is
      NaN: "not-a-number" and "0x" are NaN, while "-5" and "0x1A" are
      numbers. */
  lemma ParseIntExamples()
    ensures ParseInt("not-a-number") == None
    ensures ParseInt("-5") == Some(-5)
    ensures ParseInt("0x1A") == Some(26)
    ensures ParseInt("0x") == None
  {
    ParseIntUnsignedStart("not-a-number");
    assert DigitRun("not-a-number", false) == 0;
    ParseIntReadsDecimal(5, []);
    assert Text.NatToDecimal(5) == "5";
    assert "-" + "5" + [] == "-5";
    ParseIntUnsignedStart("0x1A");
    assert "0x1A"[2..] == "1A";
    assert DigitRun("1A", true) == 2;
    assert "1A"[..2] == "1A" && "1A"[..1] == "1";
    assert RadixValue("1A", true) == 26;
    ParseIntUnsignedStart("0x");
    assert "0x"[2..] == [];
  }

  // ---------------------------------------------------------------------
  // PostgreSQL integer input

  const Int4Min: int := -0x8000_0000
  const Int4Max: int := 0x7FFF_FFFF

  /** Representable in PostgreSQL's `integer`. */
  predicate IsInt4(n: int) {
    Int4Min <= n <= Int4Max
  }

  /** C `isspace` in the "C" locale. */
  predicate IsCSpace(c: char) {
    c == ' ' || c == '\t' || c == '\n' || c == '\r' || c as int == 0x0B || c as int == 0x0C
  }

  function LeadingCSpaces(s: string): (k: nat)
    ensures k <= |s|
    ensures forall i :: 0 <= i < k ==> IsCSpace(s[i])
    ensures k < |s| ==> !IsCSpace(s[k])
  {
    if s == [] || !IsCSpace(s[0]) then 0 else 1 + LeadingCSpaces(s[1..])
  }

  /** `int4in`: optional white space, optional sign, at least one decimal
      digit, optional white space, nothing else. */
  function PgInt4(s: string): (r: Result<int, string>)
    ensures r.Ok? ==> Int4Min <= r.value <= Int4Max
    ensures r.Err? ==> r.error == "22P02" || r.error == "22003"
  {
    var t := s[LeadingCSpaces(s)..];
    var negative := |t| > 0 && t[0] == '-';
    var u := if |t| > 0 && (t[0] == '-' || t[0] == '+') then t[1..] else t;
    PgDigits(u, negative)
  }

  /** The digits after the sign.  A magnitude above 2^31 is out of range as
      soon as the digits are read, before trailing garbage is looked at;
      2^31 itself is out of range only for a positive value. */
  function PgDigits(u: string, negative: bool): (r: Result<int, string>)
    ensures r.Ok? ==> Int4Min <= r.value <= Int4Max
    ensures r.Err? ==> r.error == "22P02" || r.error == "22003"
  {
    var n := DigitRun(u, false);
    if n == 0 then Err("22P02")
    else
      var magnitude: int := RadixValue(u[..n], false);
      var tail := u[n..];
      if magnitude > 0x8000_0000 then Err("22003")
      else if LeadingCSpaces(tail) < |tail| then Err("22P02")
      else if !negative && magnitude == 0x8000_0000 then Err("22003")
      else Ok(if negative then -magnitude else magnitude)
  }

  /** The digits of a rendered magnitude, with nothing after them. */
  lemma PgDigitsOfDecimal(m: nat, negative: bool)
    ensures var v: int := if negative then -(m as int) else m;
      PgDigits(Text.NatToDecimal(m), negative)
      == if Int4Min <= v <= Int4Max then Ok(v) else Err("22003")
  {
    var d := Text.NatToDecimal(m);
    DecimalPrefixOf(m, []);
    assert d + [] == d;
    assert d[|d|..] == [];
  }

  /** A leading minus sign makes the digits negative. */
  lemma PgMinus(u: string)
    ensures PgInt4("-" + u) == PgDigits(u, true)
  {
    var s := "-" + u;
    assert LeadingCSpaces(s) == 0;
    assert s[0..] == s && s[1..] == u;
  }

  /** The rendering of every `integer` value is accepted and means that
      value; the rendering of any other integer is out of range (22003). */
  lemma PgInt4RoundTrip(n: int)
    ensures Int4Min <= n <= Int4Max ==> PgInt4(Text.IntToDecimal(n)) == Ok(n)
    ensures !(Int4Min <= n <= Int4Max) ==> PgInt4(Text.IntToDecimal(n)) == Err("22003")
  {
    var m: nat := if n < 0 then -n else n;
    var d := Text.NatToDecimal(m);
    PgDigitsOfDecimal(m, n < 0);
    if n < 0 {
      PgMinus(d);
      assert Text.IntToDecimal(n) == "-" + d;
    } else {
      assert Text.IntToDecimal(n) == d;
      PgUnsignedStart(d);
    }
  }

  /** Text starting with neither white space nor a sign is read unsigned. */
  lemma PgUnsignedStart(u: string)
    requires u != [] && !IsCSpace(u[0]) && u[0] != '-' && u[0] != '+'
    ensures PgInt4(u) == PgDigits(u, false)
  {
    assert LeadingCSpaces(u) == 0;
    assert u[0..] == u;
  }

  /** Text that is not an integer literal is 22P02, which the error
      handler answers 400. */
  lemma PgInt4Examples()
    ensures PgInt4("not-an-id") == Err("22P02")
    ensures PgInt4("") == Err("22P02")
    ensures PgInt4("12abc") == Err("22P02")
  {
    PgUnsignedStart("not-an-id");
    assert DigitRun("not-an-id", false) == 0;
    PgUnsignedStart("12abc");
    assert DigitRun("12abc", false) == 2;
    assert "12abc"[..2] == "12" && "12"[..1] == "1";
    assert RadixValue("12", false) == 12;
    assert "12abc"[2..] == "abc";
    assert LeadingCSpaces("abc") == 0;
  }

  /** Surrounding white space is allowed. */
  lemma PgInt4Padded()
    ensures PgInt4(" 42 ") == Ok(42)
  {
    assert LeadingCSpaces(" 42 ") == 1 && " 42 "[1..] == "42 ";
    assert DigitRun("42 ", false) == 2;
    assert "42 "[..2] == "42" && "42"[..1] == "4";
    assert RadixValue("42", false) == 42;
    assert "42 "[2..] == " ";
    assert LeadingCSpaces(" ") == 1;
  }
}
