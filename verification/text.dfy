/**
 * JavaScript string primitives the server relies on: the `\s` character
 * class, ASCII case mapping, `includes`, `startsWith`, `split(" ")`,
 * UTF-16 `length` and the decimal rendering of integers.
 */
module Text {

  /** The JavaScript `\s` class (WhiteSpace and LineTerminator code points);
      `String.prototype.trimStart` and `parseInt` skip the same set. */
  predicate IsJsSpace(c: char) {
    var n := c as int;
    n == 0x09 || n == 0x0A || n == 0x0B || n == 0x0C || n == 0x0D || n == 0x20
    || n == 0xA0 || n == 0x1680 || (0x2000 <= n <= 0x200A)
    || n == 0x2028 || n == 0x2029 || n == 0x202F || n == 0x205F
    || n == 0x3000 || n == 0xFEFF
  }

  predicate IsDigit(c: char) { '0' <= c <= '9' }
  predicate IsUpper(c: char) { 'A' <= c <= 'Z' }
  predicate IsLower(c: char) { 'a' <= c <= 'z' }

  predicate NoSpace(s: string) {
    forall i :: 0 <= i < |s| ==> !IsJsSpace(s[i])
  }

  /** ASCII lower-casing of one character. */
  function LowerChar(c: char): char {
    if IsUpper(c) then (c as int + 32) as char else c
  }

  /** `toLowerCase`, restricted to the ASCII letters. */
  function Lower(s: string): (r: string)
    ensures |r| == |s|
    ensures forall i :: 0 <= i < |s| ==> r[i] == LowerChar(s[i])
  {
    seq(|s|, i requires 0 <= i < |s| => LowerChar(s[i]))
  }

  lemma LowerIdempotent(s: string)
    ensures Lower(Lower(s)) == Lower(s)
  {
    assert forall i :: 0 <= i < |s| ==> LowerChar(LowerChar(s[i])) == LowerChar(s[i]);
  }

  /** `s.startsWith(p)`. */
  predicate StartsWith(s: string, p: string) {
    |p| <= |s| && s[..|p|] == p
  }

  /** `s.includes(t)`, scanning left to right. */
  predicate Includes(s: string, t: string)
    decreases |s|
  {
    StartsWith(s, t) || (|s| > 0 && Includes(s[1..], t))
  }

  /** `t` occurs in `s` at offset `i`. */
  ghost predicate OccursAt(s: string, t: string, i: int) {
    0 <= i && i + |t| <= |s| && s[i..i + |t|] == t
  }

  /** The scan finds `t` exactly when some offset holds it. */
  lemma {:induction false} IncludesIff(s: string, t: string)
    ensures Includes(s, t) <==> exists i :: OccursAt(s, t, i)
    decreases |s|
  {
    if StartsWith(s, t) {
      assert OccursAt(s, t, 0);
    } else if |s| > 0 {
      IncludesIff(s[1..], t);
      if Includes(s[1..], t) {
        var i :| OccursAt(s[1..], t, i);
        assert s[i + 1..i + 1 + |t|] == s[1..][i..i + |t|];
        assert OccursAt(s, t, i + 1);
      } else {
        forall i | 1 <= i && OccursAt(s, t, i) ensures OccursAt(s[1..], t, i - 1) {
          assert s[1..][i - 1..i - 1 + |t|] == s[i..i + |t|];
        }
      }
    }
  }

  /** A witnessed occurrence is found by the scan. */
  lemma IncludesAt(s: string, t: string, i: int)
    requires OccursAt(s, t, i)
    ensures Includes(s, t)
  {
    IncludesIff(s, t);
  }

  /** Every character of a found string occurs in the string searched. */
  lemma IncludesChars(s: string, t: string, c: char)
    requires Includes(s, t) && c in t
    ensures c in s
  {
    IncludesIff(s, t);
    var i :| OccursAt(s, t, i);
    var k :| 0 <= k < |t| && t[k] == c;
    assert s[i + k] == s[i..i + |t|][k];
  }

  /** JavaScript's `length`: UTF-16 code units, so a code point above the
      Basic Multilingual Plane counts twice. */
  function Utf16Length(s: string): (n: nat)
    ensures |s| <= n <= 2 * |s|
  {
    if s == [] then 0
    else (if s[0] as int >= 0x10000 then 2 else 1) + Utf16Length(s[1..])
  }

  // ---------------------------------------------------------------------
  // Decimal rendering (`${n}` for an integer)

  function Pow10(k: nat): (p: nat)
    ensures p >= 1
  {
    if k == 0 then 1 else 10 * Pow10(k - 1)
  }

  function DigitChar(d: nat): (c: char)
    requires d < 10
    ensures IsDigit(c)
  {
    ('0' as int + d) as char
  }

  function DigitValue(c: char): (d: nat)
    requires IsDigit(c)
    ensures d < 10
  {
    c as int - '0' as int
  }

  function NatToDecimal(n: nat): (s: string)
    ensures |s| >= 1
    ensures forall i :: 0 <= i < |s| ==> IsDigit(s[i])
  {
    if n < 10 then [DigitChar(n)] else NatToDecimal(n / 10) + [DigitChar(n % 10)]
  }

  function IntToDecimal(n: int): (s: string)
    ensures |s| >= 1
  {
    if n < 0 then "-" + NatToDecimal(-n) else NatToDecimal(n)
  }

  /** The value of a decimal digit string, most significant digit first. */
  function DecimalValue(s: string): nat
    requires forall i :: 0 <= i < |s| ==> IsDigit(s[i])
  {
    if s == [] then 0 else 10 * DecimalValue(s[..|s| - 1]) + DigitValue(s[|s| - 1])
  }

  /** Reading a rendered number back yields the number. */
  lemma {:induction false} DecimalRoundTrip(n: nat)
    ensures DecimalValue(NatToDecimal(n)) == n
  {
    var s := NatToDecimal(n);
    if n >= 10 {
      DecimalRoundTrip(n / 10);
      assert s[..|s| - 1] == NatToDecimal(n / 10);
    }
  }

  /** A decimal rendering starts with a zero only when it is "0". */
  lemma {:induction false} DecimalNoLeadingZero(n: nat)
    ensures NatToDecimal(n)[0] == '0' <==> n == 0
  {
    if n >= 10 {
      DecimalNoLeadingZero(n / 10);
    }
  }

  // ---------------------------------------------------------------------
  // `split(" ")`

  /** Index of the first `sep` in `s`, or `|s|` when there is none. */
  function IndexOf(s: string, sep: char): (i: nat)
    ensures i <= |s|
    ensures forall j :: 0 <= j < i ==> s[j] != sep
    ensures i < |s| ==> s[i] == sep
  {
    if s == [] || s[0] == sep then 0 else 1 + IndexOf(s[1..], sep)
  }

  /** `IndexOf` finds the first occurrence. */
  lemma {:induction false} IndexOfIsFirst(s: string, sep: char, i: nat)
    requires i < |s| && s[i] == sep
    requires forall j :: 0 <= j < i ==> s[j] != sep
    ensures IndexOf(s, sep) == i
  {
    if i > 0 {
      IndexOfIsFirst(s[1..], sep, i - 1);
    }
  }

  /** `s.split(sep)` for a one-character separator. */
  function Split(s: string, sep: char): (parts: seq<string>)
    ensures |parts| >= 1
    ensures forall k :: 0 <= k < |parts| ==> sep !in parts[k]
    decreases |s|
  {
    var i := IndexOf(s, sep);
    if i == |s| then [s] else [s[..i]] + Split(s[i + 1..], sep)
  }

  /** `parts.join(sep)`. */
  function Join(parts: seq<string>, sep: char): string
    requires |parts| >= 1
  {
    if |parts| == 1 then parts[0] else parts[0] + [sep] + Join(parts[1..], sep)
  }

  /** Splitting loses nothing: joining the parts restores the string. */
  lemma {:induction false} SplitJoin(s: string, sep: char)
    ensures Join(Split(s, sep), sep) == s
    decreases |s|
  {
    var i := IndexOf(s, sep);
    if i < |s| {
      SplitJoin(s[i + 1..], sep);
      assert s == s[..i] + [sep] + s[i + 1..];
    }
  }

  /** The second part of a split is what follows the first separator, up
      to the next one. */
  lemma SplitSecond(s: string, sep: char)
    requires sep in s
    ensures |Split(s, sep)| >= 2
    ensures Split(s, sep)[1] == s[IndexOf(s, sep) + 1..][..IndexOf(s[IndexOf(s, sep) + 1..], sep)]
  {
    var i := IndexOf(s, sep);
    var rest := s[i + 1..];
    var j := IndexOf(rest, sep);
    if j == |rest| {
      assert Split(rest, sep) == [rest];
      assert rest[..j] == rest;
    } else {
      assert Split(rest, sep)[0] == rest[..j];
    }
  }
}
