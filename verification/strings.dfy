/**
 * The handful of JavaScript string built-ins the dashboard relies on, over
 * `string == seq<char>`: `trim`, `includes`, `toLowerCase`, `split`/`join`
 * with a one-character separator, `replace(/c/g, d)`, `padStart`, number
 * to decimal text, and `parseInt`.
 */
module Strings {
  import opened Base

  /** White space as `String.prototype.trim` and `parseInt` skip it (WhiteSpace and LineTerminator). */
  const WhitespaceChars: set<char> := {
    ' ', '\t', '\n', '\r', '\U{B}', '\U{C}', '\U{A0}', '\U{1680}',
    '\U{2000}', '\U{2001}', '\U{2002}', '\U{2003}', '\U{2004}', '\U{2005}',
    '\U{2006}', '\U{2007}', '\U{2008}', '\U{2009}', '\U{200A}',
    '\U{2028}', '\U{2029}', '\U{202F}', '\U{205F}', '\U{3000}', '\U{FEFF}'
  }

  predicate IsWhitespace(c: char) {
    c in WhitespaceChars
  }

  predicate AllWhitespace(s: string) {
    forall i :: 0 <= i < |s| ==> IsWhitespace(s[i])
  }

  /** How many white-space characters `s` starts with. */
  function LeadingWhitespace(s: string): (n: nat)
    ensures n <= |s|
    ensures forall i :: 0 <= i < n ==> IsWhitespace(s[i])
    ensures n < |s| ==> !IsWhitespace(s[n])
  {
    if |s| > 0 && IsWhitespace(s[0]) then
      var n := 1 + LeadingWhitespace(s[1..]);
      assert forall i :: 1 <= i < n ==> s[i] == s[1..][i - 1];
      n
    else 0
  }

  /** How many white-space characters `s` ends with. */
  function TrailingWhitespace(s: string): (n: nat)
    ensures n <= |s|
    ensures forall i :: |s| - n <= i < |s| ==> IsWhitespace(s[i])
    ensures n < |s| ==> !IsWhitespace(s[|s| - 1 - n])
  {
    if |s| > 0 && IsWhitespace(s[|s| - 1]) then
      var n := 1 + TrailingWhitespace(s[..|s| - 1]);
      assert forall i :: |s| - n <= i < |s| - 1 ==> s[i] == s[..|s| - 1][i];
      n
    else 0
  }

  /** Drops leading white space. */
  function TrimStart(s: string): string {
    s[LeadingWhitespace(s)..]
  }

  /** `s.trim()`: the input without white space at either end. */
  function Trim(s: string): (r: string)
    ensures |r| <= |s|
    ensures |r| > 0 ==> !IsWhitespace(r[0]) && !IsWhitespace(r[|r| - 1])
    ensures r == "" <==> AllWhitespace(s)
  {
    var t := TrimStart(s);
    var r := t[..|t| - TrailingWhitespace(t)];
    TrimParts(s, t, r);
    r
  }

  lemma TrimParts(s: string, t: string, r: string)
    requires t == TrimStart(s) && r == t[..|t| - TrailingWhitespace(t)]
    ensures r == "" <==> AllWhitespace(s)
    ensures |r| > 0 ==> !IsWhitespace(r[0]) && !IsWhitespace(r[|r| - 1])
  {
    var lead := LeadingWhitespace(s);
    var trail := TrailingWhitespace(t);
    if r == "" {
      assert AllWhitespace(s);
    } else {
      assert r[0] == s[lead];
      assert r[|r| - 1] == t[|t| - 1 - trail];
    }
  }

  /** `!s.trim()`: the string is empty after trimming. */
  predicate IsBlank(s: string) {
    Trim(s) == ""
  }

  predicate IsPrefix(p: string, s: string) {
    |p| <= |s| && s[..|p|] == p
  }

  /** `sub` occurs in `s` starting at index `i`. */
  predicate OccursAt(s: string, sub: string, i: int) {
    0 <= i && i + |sub| <= |s| && s[i..i + |sub|] == sub
  }

  /** `s.includes(sub)`: some window of `s` equals `sub`. */
  function Contains(s: string, sub: string): (r: bool)
    ensures r <==> exists i :: OccursAt(s, sub, i)
    decreases |s|
  {
    if IsPrefix(sub, s) then
      assert OccursAt(s, sub, 0);
      true
    else if |s| == 0 then false
    else
      var r := Contains(s[1..], sub);
      ContainsStep(s, sub, r);
      r
  }

  lemma ContainsStep(s: string, sub: string, r: bool)
    requires |s| > 0 && !IsPrefix(sub, s)
    requires r <==> exists i :: OccursAt(s[1..], sub, i)
    ensures r <==> exists i :: OccursAt(s, sub, i)
  {
    if r {
      var i :| OccursAt(s[1..], sub, i);
      assert s[i + 1..i + 1 + |sub|] == s[1..][i..i + |sub|];
      assert OccursAt(s, sub, i + 1);
    } else {
      forall i | OccursAt(s, sub, i) ensures false {
        if i > 0 {
          assert s[i..i + |sub|] == s[1..][i - 1..i - 1 + |sub|];
          assert OccursAt(s[1..], sub, i - 1);
        }
      }
    }
  }

  /** `toLowerCase` on one character; only the ASCII letters A-Z are folded. */
  function ToLowerChar(c: char): char {
    if 'A' <= c <= 'Z' then (c as int + 32) as char else c
  }

  function ToLower(s: string): string {
    seq(|s|, i requires 0 <= i < |s| => ToLowerChar(s[i]))
  }

  /** `s.replace(/from/g, to)` for a single character. */
  function ReplaceChar(s: string, from: char, to: char): (r: string)
    ensures |r| == |s|
    ensures forall i :: 0 <= i < |s| ==> r[i] == (if s[i] == from then to else s[i])
    ensures from != to ==> from !in r
  {
    seq(|s|, i requires 0 <= i < |s| => if s[i] == from then to else s[i])
  }

  /** `pieces.join(sep)` */
  function Join(pieces: seq<string>, sep: char): string
    requires |pieces| >= 1
  {
    if |pieces| == 1 then pieces[0] else pieces[0] + [sep] + Join(pieces[1..], sep)
  }

  /** `s.split(sep)` for a one-character separator: the maximal runs between separators. */
  function Split(s: string, sep: char): (r: seq<string>)
    ensures |r| >= 1
    ensures forall i :: 0 <= i < |r| ==> sep !in r[i]
    ensures Join(r, sep) == s
  {
    if |s| == 0 then [""]
    else
      var rest := Split(s[1..], sep);
      if s[0] == sep then
        assert s == [sep] + s[1..];
        [""] + rest
      else
        var r := [[s[0]] + rest[0]] + rest[1..];
        assert r[1..] == rest[1..];
        assert s == [s[0]] + s[1..];
        r
  }

  /** A leading separator opens an empty first piece. */
  lemma SplitSep(s: string, sep: char)
    ensures Split([sep] + s, sep) == [""] + Split(s, sep)
  {
    assert ([sep] + s)[1..] == s;
  }

  /** A leading non-separator character joins the first piece. */
  lemma SplitCons(c: char, s: string, sep: char)
    requires c != sep
    ensures Split([c] + s, sep) == [[c] + Split(s, sep)[0]] + Split(s, sep)[1..]
  {
    assert ([c] + s)[1..] == s;
  }

  /** Moving the first character of the first piece out keeps the join and the pieces separator-free. */
  lemma DropFirstChar(pieces: seq<string>, sep: char)
    requires |pieces| >= 1 && |pieces[0]| >= 1
    requires forall i :: 0 <= i < |pieces| ==> sep !in pieces[i]
    ensures var shorter := [pieces[0][1..]] + pieces[1..];
      && (forall i :: 0 <= i < |shorter| ==> sep !in shorter[i])
      && Join(pieces, sep) == [pieces[0][0]] + Join(shorter, sep)
  {
    var p := pieces[0];
    var shorter := [p[1..]] + pieces[1..];
    assert shorter[1..] == pieces[1..];
    forall i | 0 <= i < |shorter| ensures sep !in shorter[i] {
      if i == 0 {
        assert forall c :: c in p[1..] ==> c in p;
      } else {
        assert shorter[i] == pieces[i];
      }
    }
    if |pieces| > 1 {
      assert Join(pieces, sep) == [p[0]] + (p[1..] + [sep] + Join(pieces[1..], sep));
    }
  }

  /** Splitting a join of separator-free pieces gives the pieces back. */
  lemma {:induction false} SplitJoin(pieces: seq<string>, sep: char)
    requires |pieces| >= 1
    requires forall i :: 0 <= i < |pieces| ==> sep !in pieces[i]
    ensures Split(Join(pieces, sep), sep) == pieces
    decreases |pieces|, |pieces[0]|
  {
    var p := pieces[0];
    if |p| == 0 {
      if |pieces| > 1 {
        var rest := Join(pieces[1..], sep);
        assert Join(pieces, sep) == [sep] + rest;
        SplitSep(rest, sep);
        SplitJoin(pieces[1..], sep);
        assert [""] + pieces[1..] == pieces;
      }
    } else {
      var shorter := [p[1..]] + pieces[1..];
      DropFirstChar(pieces, sep);
      SplitJoin(shorter, sep);
      assert p[0] != sep;
      SplitCons(p[0], Join(shorter, sep), sep);
      assert [p[0]] + p[1..] == p;
      assert [[p[0]] + p[1..]] + pieces[1..] == pieces;
    }
  }

  /** The text before the first `sep` (the whole string when there is none): `s.split(sep)[0]`. */
  function FirstPiece(s: string, sep: char): (r: string)
    ensures sep !in r
    ensures IsPrefix(r, s)
    ensures |r| == |s| || s[|r|] == sep
  {
    var pieces := Split(s, sep);
    FirstPieceIsPrefix(pieces, sep);
    pieces[0]
  }

  /** The text before a separator that does not occur earlier is the first piece. */
  lemma {:induction false} FirstPieceOf(a: string, sep: char, b: string)
    requires sep !in a
    ensures FirstPiece(a + [sep] + b, sep) == a
    decreases |a|
  {
    var s := a + [sep] + b;
    if |a| == 0 {
      assert s[0] == sep;
    } else {
      assert s[1..] == a[1..] + [sep] + b;
      FirstPieceOf(a[1..], sep, b);
      assert a == [a[0]] + a[1..];
    }
  }

  lemma FirstPieceIsPrefix(pieces: seq<string>, sep: char)
    requires |pieces| >= 1
    ensures IsPrefix(pieces[0], Join(pieces, sep))
    ensures |pieces| > 1 ==> |Join(pieces, sep)| > |pieces[0]| && Join(pieces, sep)[|pieces[0]|] == sep
    ensures |pieces| == 1 ==> Join(pieces, sep) == pieces[0]
  {
    if |pieces| > 1 {
      var j := Join(pieces, sep);
      assert j == pieces[0] + ([sep] + Join(pieces[1..], sep));
    }
  }

  // ---------------------------------------------------------------------
  // Decimal digits
  // ---------------------------------------------------------------------

  predicate IsDigit(c: char) {
    '0' <= c <= '9'
  }

  predicate AllDigits(s: string) {
    forall i :: 0 <= i < |s| ==> IsDigit(s[i])
  }

  function DigitValue(c: char): nat
    requires IsDigit(c)
  {
    (c as int) - ('0' as int)
  }

  function DigitChar(d: nat): (c: char)
    requires d < 10
    ensures IsDigit(c) && DigitValue(c) == d
  {
    (d + '0' as int) as char
  }

  /** The value of a run of decimal digits (0 for the empty run). */
  function DigitsValue(s: string): nat
    requires AllDigits(s)
  {
    if |s| == 0 then 0 else 10 * DigitsValue(s[..|s| - 1]) + DigitValue(s[|s| - 1])
  }

  /** `n.toString()` for a natural number: shortest decimal text. */
  function NatToString(n: nat): (r: string)
    ensures |r| >= 1 && AllDigits(r)
    ensures DigitsValue(r) == n
    ensures |r| > 1 ==> r[0] != '0'
    decreases n
  {
    if n < 10 then [DigitChar(n)]
    else
      var prefix := NatToString(n / 10);
      var r := prefix + [DigitChar(n % 10)];
      assert r[..|r| - 1] == prefix;
      r
  }

  /** `i.toString()` for an integer. */
  function IntToString(i: int): string {
    if i < 0 then "-" + NatToString(-i) else NatToString(i)
  }

  /** Different numbers are written differently. */
  lemma IntToStringInjective(a: int, b: int)
    requires IntToString(a) == IntToString(b)
    ensures a == b
  {
    var sa, sb := IntToString(a), IntToString(b);
    if a < 0 && b < 0 {
      assert sa[1..] == NatToString(-a) && sb[1..] == NatToString(-b);
    }
  }

  /** The text of a number starts with a digit or a minus sign. */
  lemma IntToStringStart(i: int)
    ensures |IntToString(i)| >= 1
    ensures IsDigit(IntToString(i)[0]) || IntToString(i)[0] == '-'
  {
  }

  /** `s.padStart(width, fill)` */
  function PadLeft(s: string, width: nat, fill: char): (r: string)
    ensures |r| == if |s| < width then width else |s|
    ensures r == seq(|r| - |s|, _ => fill) + s
  {
    if |s| < width then seq(width - |s|, _ => fill) + s else s
  }

  /** Leading zeros do not change a digit run's value. */
  lemma {:induction false} LeadingZeros(z: nat, s: string)
    requires AllDigits(s)
    ensures AllDigits(seq(z, _ => '0') + s)
    ensures DigitsValue(seq(z, _ => '0') + s) == DigitsValue(s)
    decreases |s|
  {
    var zs: string := seq(z, _ => '0');
    if |s| == 0 {
      assert zs + s == zs;
      ZerosValue(z);
    } else {
      var t := zs + s;
      assert t[..|t| - 1] == zs + s[..|s| - 1];
      LeadingZeros(z, s[..|s| - 1]);
    }
  }

  lemma {:induction false} ZerosValue(z: nat)
    ensures DigitsValue(seq(z, _ => '0')) == 0
  {
    if z > 0 {
      var zs: string := seq(z, _ => '0');
      assert zs[..z - 1] == seq(z - 1, _ => '0');
      ZerosValue(z - 1);
    }
  }

  /** `n.toString().padStart(2, "0")` */
  function Pad2(n: nat): (r: string)
    ensures AllDigits(r) && |r| >= 2
    ensures n < 100 ==> |r| == 2
    ensures DigitsValue(r) == n
  {
    var d := NatToString(n);
    assert n < 100 ==> |d| <= 2 by {
      if 10 <= n < 100 {
        assert |NatToString(n / 10)| == 1;
      }
    }
    LeadingZeros(|PadLeft(d, 2, '0')| - |d|, d);
    PadLeft(d, 2, '0')
  }

  // ---------------------------------------------------------------------
  // parseInt
  // ---------------------------------------------------------------------

  /** The longest run of digits at the start of `s`. */
  function LeadingDigits(s: string): (r: string)
    ensures IsPrefix(r, s) && AllDigits(r)
    ensures |r| == |s| || !IsDigit(s[|r|])
  {
    if |s| > 0 && IsDigit(s[0]) then
      var r := [s[0]] + LeadingDigits(s[1..]);
      assert s == [s[0]] + s[1..];
      r
    else ""
  }

  /**
   * `parseInt(s)` with the default radix: leading white space, an optional
   * sign, then the longest run of decimal digits; no digit at all is NaN (None).
   */
  function ParseInt(s: string): (r: Option<int>)
    ensures r.None? <==> |LeadingDigits(UnsignedPart(TrimStart(s)))| == 0
  {
    var t := TrimStart(s);
    var digits := LeadingDigits(UnsignedPart(t));
    if |digits| == 0 then None
    else if |t| > 0 && t[0] == '-' then Some(0 - DigitsValue(digits) as int)
    else Some(DigitsValue(digits))
  }

  function UnsignedPart(t: string): string {
    if |t| > 0 && (t[0] == '-' || t[0] == '+') then t[1..] else t
  }

  /** A digit run followed by a non-digit (or nothing) parses to its value. */
  lemma ParseIntOfDigits(d: string, rest: string)
    requires |d| > 0 && AllDigits(d)
    requires |rest| == 0 || !IsDigit(rest[0])
    ensures ParseInt(d + rest) == Some(DigitsValue(d))
  {
    var s := d + rest;
    assert !IsWhitespace(s[0]);
    assert TrimStart(s) == s;
    assert UnsignedPart(s) == s;
    LeadingDigitsOf(d, rest);
  }

  lemma {:induction false} LeadingDigitsOf(d: string, rest: string)
    requires AllDigits(d)
    requires |rest| == 0 || !IsDigit(rest[0])
    ensures LeadingDigits(d + rest) == d
    decreases |d|
  {
    if |d| > 0 {
      assert (d + rest)[1..] == d[1..] + rest;
      LeadingDigitsOf(d[1..], rest);
      assert d == [d[0]] + d[1..];
    } else {
      assert d + rest == rest;
    }
  }
}
