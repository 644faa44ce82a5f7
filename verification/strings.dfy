/** The JavaScript string operations the modelled code relies on: `trim`,
    `includes`, `split`/`join` on one character, ASCII `toLowerCase`, and the
    decimal rendering of an integer inside a template string. */
module Strings {

  /** The characters `String.prototype.trim` removes and the regular-expression
      class `\s` matches: ECMAScript WhiteSpace and LineTerminator. */
  predicate IsSpace(c: char) {
    || ('\t' <= c <= '\r')
    || c == ' '
    || c == '\U{00A0}'
    || c == '\U{1680}'
    || ('\U{2000}' <= c <= '\U{200A}')
    || c == '\U{2028}'
    || c == '\U{2029}'
    || c == '\U{202F}'
    || c == '\U{205F}'
    || c == '\U{3000}'
    || c == '\U{FEFF}'
  }

  /** Neither end of `s` is a space character. */
  predicate Trimmed(s: string) {
    |s| == 0 || (!IsSpace(s[0]) && !IsSpace(s[|s| - 1]))
  }

  /** Leading spaces removed (`trimStart`, or the `\s*` after an anchor). */
  function TrimStart(s: string): (r: string)
    ensures |r| <= |s| && r == s[|s| - |r|..]
    ensures forall k :: 0 <= k < |s| - |r| ==> IsSpace(s[k])
    ensures |r| > 0 ==> !IsSpace(r[0])
  {
    if |s| > 0 && IsSpace(s[0]) then TrimStart(s[1..]) else s
  }

  /** Trailing spaces removed. */
  function TrimEnd(s: string): (r: string)
    ensures |r| <= |s| && r == s[..|r|]
    ensures forall k :: |r| <= k < |s| ==> IsSpace(s[k])
    ensures |r| > 0 ==> !IsSpace(r[|r| - 1])
  {
    if |s| > 0 && IsSpace(s[|s| - 1]) then TrimEnd(s[..|s| - 1]) else s
  }

  /** `String.prototype.trim`: spaces cut from both ends, one at a time. What
      is left is an infix of `s` (`TrimIsInfix`) that is empty exactly when `s`
      is all spaces (`TrimEmpty`). */
  function Trim(s: string): (r: string)
    ensures Trimmed(r)
    ensures |r| <= |s|
    ensures Trimmed(s) ==> r == s
    decreases |s|
  {
    if |s| > 0 && IsSpace(s[0]) then Trim(s[1..])
    else if |s| > 0 && IsSpace(s[|s| - 1]) then Trim(s[..|s| - 1])
    else s
  }

  /** The trimmed string occurs in the original. */
  lemma {:induction false} TrimIsInfix(s: string)
    ensures exists i :: 0 <= i <= |s| && Trim(s) <= s[i..]
    decreases |s|
  {
    if |s| > 0 && IsSpace(s[0]) {
      TrimIsInfix(s[1..]);
      var i :| 0 <= i <= |s[1..]| && Trim(s[1..]) <= s[1..][i..];
      assert s[1..][i..] == s[i + 1..];
    } else if |s| > 0 && IsSpace(s[|s| - 1]) {
      var t := s[..|s| - 1];
      TrimIsInfix(t);
      var i :| 0 <= i <= |t| && Trim(t) <= t[i..];
      assert Trim(s) <= s[i..];
    } else {
      assert Trim(s) <= s[0..];
    }
  }

  /** `trim` empties a string exactly when every character is a space. */
  lemma {:induction false} TrimEmpty(s: string)
    ensures Trim(s) == "" <==> forall k :: 0 <= k < |s| ==> IsSpace(s[k])
    decreases |s|
  {
    if |s| > 0 && IsSpace(s[0]) {
      TrimEmpty(s[1..]);
      assert forall k :: 1 <= k < |s| ==> s[k] == s[1..][k - 1];
    } else if |s| > 0 && IsSpace(s[|s| - 1]) {
      TrimEmpty(s[..|s| - 1]);
      assert forall k :: 0 <= k < |s| - 1 ==> s[k] == s[..|s| - 1][k];
    }
  }

  /** JavaScript `s.includes(pat)`: `pat` occurs somewhere in `s`. */
  predicate Contains(s: string, pat: string)
    decreases |s|
  {
    pat <= s || (|s| > 0 && Contains(s[1..], pat))
  }

  /** `t` is a suffix of `s`. */
  predicate EndsWith(s: string, t: string) {
    |t| <= |s| && s[|s| - |t|..] == t
  }

  /** An occurrence at a known position is enough to establish `Contains`. */
  lemma {:induction false} ContainsAt(s: string, pat: string, i: nat)
    requires i <= |s| && pat <= s[i..]
    ensures Contains(s, pat)
    decreases i
  {
    if i > 0 {
      assert s[1..][i - 1..] == s[i..];
      ContainsAt(s[1..], pat, i - 1);
    }
  }

  /** Any occurrence that `Contains` reports lies at some position of `s`. */
  lemma {:induction false} ContainsWitness(s: string, pat: string)
    requires Contains(s, pat)
    ensures exists i :: 0 <= i <= |s| && pat <= s[i..]
    decreases |s|
  {
    if pat <= s {
      assert s[0..] == s;
    } else {
      ContainsWitness(s[1..], pat);
      var i :| 0 <= i <= |s[1..]| && pat <= s[1..][i..];
      assert s[1..][i..] == s[i + 1..];
    }
  }

  /** A one-character pattern occurs exactly when the character is in the string. */
  lemma ContainsChar(s: string, c: char)
    ensures Contains(s, [c]) <==> c in s
  {
    if c in s {
      var i :| 0 <= i < |s| && s[i] == c;
      ContainsAt(s, [c], i);
    }
    if Contains(s, [c]) {
      ContainsWitness(s, [c]);
      var i :| 0 <= i <= |s| && [c] <= s[i..];
      assert s[i] == c;
    }
  }

  /** A pattern found in a part of a string is found in the whole. */
  lemma ContainsInfix(s: string, pat: string, lo: nat, hi: nat)
    requires lo <= hi <= |s| && Contains(s[lo..hi], pat)
    ensures Contains(s, pat)
  {
    ContainsWitness(s[lo..hi], pat);
    var i :| 0 <= i <= |s[lo..hi]| && pat <= s[lo..hi][i..];
    assert pat <= s[lo + i..];
    ContainsAt(s, pat, lo + i);
  }

  /** Text found in `s` is still found once something is put before `s`. */
  lemma ContainsAfterPrefix(pre: string, s: string, pat: string)
    requires Contains(s, pat)
    ensures Contains(pre + s, pat)
  {
    assert (pre + s)[|pre|..|pre + s|] == s;
    ContainsInfix(pre + s, pat, |pre|, |pre + s|);
  }

  /** Occurrence is transitive: a pattern inside a piece of `s` is inside `s`. */
  lemma ContainsTrans(s: string, piece: string, pat: string)
    requires Contains(s, piece) && Contains(piece, pat)
    ensures Contains(s, pat)
  {
    ContainsWitness(s, piece);
    var i :| 0 <= i <= |s| && piece <= s[i..];
    ContainsWitness(piece, pat);
    var j :| 0 <= j <= |piece| && pat <= piece[j..];
    assert pat <= s[i + j..];
    ContainsAt(s, pat, i + j);
  }

  /** `toLowerCase` on one character, restricted to ASCII: `A`..`Z` become
      `a`..`z` and every other character is kept. */
  function LowerChar(c: char): char {
    if 'A' <= c <= 'Z' then (c as int - 'A' as int + 'a' as int) as char else c
  }

  /** `toLowerCase` on a string, restricted to ASCII letters. */
  function ToLowerAscii(s: string): (r: string)
    ensures |r| == |s|
    ensures forall i :: 0 <= i < |s| ==> r[i] == LowerChar(s[i])
  {
    seq(|s|, i requires 0 <= i < |s| => LowerChar(s[i]))
  }

  /** `parts.join(sep)` with a one-character separator. */
  function Join(parts: seq<string>, sep: char): string
  {
    if |parts| == 0 then ""
    else if |parts| == 1 then parts[0]
    else parts[0] + [sep] + Join(parts[1..], sep)
  }

  /** Every piece occurs in the joined string. */
  lemma {:induction false} JoinContainsPiece(parts: seq<string>, sep: char, i: nat)
    requires i < |parts|
    ensures Contains(Join(parts, sep), parts[i])
    decreases i
  {
    var whole := Join(parts, sep);
    if i == 0 {
      assert parts[0] <= whole[0..];
      ContainsAt(whole, parts[0], 0);
    } else {
      var tail := Join(parts[1..], sep);
      assert whole == parts[0] + [sep] + tail;
      JoinContainsPiece(parts[1..], sep, i - 1);
      assert whole[|parts[0]| + 1..|whole|] == tail;
      ContainsInfix(whole, parts[i], |parts[0]| + 1, |whole|);
    }
  }

  /** `s.split(sep)` with a one-character separator: the pieces between
      separators, never fewer than one, and joining them back gives `s`. */
  function Split(s: string, sep: char): (parts: seq<string>)
    ensures |parts| >= 1
    ensures forall k :: 0 <= k < |parts| ==> sep !in parts[k]
    ensures Join(parts, sep) == s
    ensures sep !in s ==> parts == [s]
  {
    if |s| == 0 then [""]
    else
      var rest := Split(s[1..], sep);
      if s[0] == sep then
        [""] + rest
      else
        assert [s[0]] + rest[0] + ([sep] + Join(rest[1..], sep)) == [s[0]] + (rest[0] + [sep] + Join(rest[1..], sep));
        [[s[0]] + rest[0]] + rest[1..]
  }

  /** When `s` holds the separator, `split` puts everything before its first
      occurrence in the first piece, and the remaining pieces join back to
      everything after it. */
  lemma SplitFirst(s: string, sep: char)
    requires sep in s
    ensures var parts := Split(s, sep);
            && |parts| >= 2
            && |parts[0]| < |s|
            && s[|parts[0]|] == sep
            && parts[0] == s[..|parts[0]|]
            && sep !in parts[0]
            && Join(parts[1..], sep) == s[|parts[0]| + 1..]
  {
    var parts := Split(s, sep);
    assert s == parts[0] + [sep] + Join(parts[1..], sep);
  }

  /** The decimal digit character of `d`. */
  function DigitChar(d: nat): char
    requires d < 10
  {
    ('0' as int + d) as char
  }

  predicate IsDigit(c: char) {
    '0' <= c <= '9'
  }

  /** The decimal rendering of a natural number, most significant digit first. */
  function NatToDecimal(n: nat): (r: string)
    ensures |r| >= 1
    ensures forall k :: 0 <= k < |r| ==> IsDigit(r[k])
    ensures |r| > 1 ==> r[0] != '0'
  {
    if n < 10 then [DigitChar(n)] else NatToDecimal(n / 10) + [DigitChar(n % 10)]
  }

  /** An integer as a template string renders it: a minus sign, then digits. */
  function IntToDecimal(i: int): string {
    if i < 0 then "-" + NatToDecimal(-i) else NatToDecimal(i)
  }

  /** The value of a string of decimal digits. */
  function DecimalValue(s: string): nat
    requires forall k :: 0 <= k < |s| ==> IsDigit(s[k])
  {
    if |s| == 0 then 0
    else 10 * DecimalValue(s[..|s| - 1]) + DigitValue(s[|s| - 1])
  }

  function DigitValue(c: char): nat
    requires IsDigit(c)
  {
    c as int - '0' as int
  }

  /** Reading back the decimal rendering of `n` gives `n`. */
  lemma {:induction false} DecimalRoundTrip(n: nat)
    ensures DecimalValue(NatToDecimal(n)) == n
  {
    if n >= 10 {
      var r := NatToDecimal(n);
      assert r[..|r| - 1] == NatToDecimal(n / 10);
      DecimalRoundTrip(n / 10);
    }
  }

  /** Distinct integers render as distinct strings. */
  lemma IntToDecimalInjective(a: int, b: int)
    requires IntToDecimal(a) == IntToDecimal(b)
    ensures a == b
  {
    SignOfDecimal(a);
    SignOfDecimal(b);
    var m := if a < 0 then -a else a;
    var n := if b < 0 then -b else b;
    DigitsOfDecimal(a);
    DigitsOfDecimal(b);
    DigitsAgree(m, n);
  }

  /** Past its sign, the rendering of `i` is the digits of its magnitude. */
  lemma DigitsOfDecimal(i: int)
    ensures IntToDecimal(i)[if i < 0 then 1 else 0..] == NatToDecimal(if i < 0 then -i else i)
  {
  }

  /** Equal digit strings have equal values. */
  lemma DigitsAgree(m: nat, n: nat)
    requires NatToDecimal(m) == NatToDecimal(n)
    ensures m == n
  {
    DecimalRoundTrip(m);
    DecimalRoundTrip(n);
  }

  /** The rendering starts with a minus sign exactly for negative integers. */
  lemma SignOfDecimal(i: int)
    ensures |IntToDecimal(i)| > 0 && (IntToDecimal(i)[0] == '-' <==> i < 0)
  {
    if i >= 0 {
      assert IsDigit(NatToDecimal(i)[0]);
    }
  }
}
