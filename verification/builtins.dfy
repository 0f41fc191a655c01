/**
 * The few Python built-ins the tagger relies on, with Python's semantics:
 * clamped slicing of `bytes`/`str`, `str.isspace`, `str.strip`,
 * `str.join` and `str(int)` for non-negative integers.
 */
module Builtins {

  /** One element of a Python `bytes` value. */
  type byte = b: int | 0 <= b < 256

  /** `s[lo:hi]` for non-negative bounds: Python clamps both bounds to `len(s)`. */
  function Slice<T>(s: seq<T>, lo: nat, hi: nat): (r: seq<T>)
    ensures |r| == if lo <= hi && lo <= |s| then (if hi <= |s| then hi else |s|) - lo else 0
    ensures lo <= hi <= |s| ==> r == s[lo..hi]
  {
    var h := if hi <= |s| then hi else |s|;
    if lo <= h then s[lo..h] else []
  }

  /** A slice compares equal to a signature exactly when the signature lies fully inside `s`. */
  lemma SliceEqualsIff<T>(s: seq<T>, lo: nat, sig: seq<T>)
    requires |sig| > 0
    ensures Slice(s, lo, lo + |sig|) == sig <==> lo + |sig| <= |s| && s[lo..lo + |sig|] == sig
  {
  }

  /** `str.isspace()` for a single character (Unicode White_Space with bidi class WS, B or S). */
  predicate IsSpace(c: char) {
    || ('\t' <= c <= '\r')
    || ('\U{1c}' <= c <= '\U{1f}')
    || c == ' '
    || c == '\U{85}'
    || c == '\U{a0}'
    || c == '\U{1680}'
    || ('\U{2000}' <= c <= '\U{200a}')
    || c == '\U{2028}'
    || c == '\U{2029}'
    || c == '\U{202f}'
    || c == '\U{205f}'
    || c == '\U{3000}'
  }

  /** Every character is whitespace (the empty string included). */
  predicate IsBlank(s: string) {
    forall i :: 0 <= i < |s| ==> IsSpace(s[i])
  }

  /** `s.lstrip(chars)` where `drop` says which characters are stripped. */
  function TrimLeft(s: string, drop: char -> bool): (r: string)
    ensures |r| <= |s| && r == s[|s| - |r|..]
    ensures r == [] || !drop(r[0])
    ensures forall i :: 0 <= i < |s| - |r| ==> drop(s[i])
  {
    if |s| > 0 && drop(s[0]) then
      var r := TrimLeft(s[1..], drop);
      assert forall i :: 1 <= i < |s| ==> s[i] == s[1..][i - 1];
      r
    else s
  }

  /** `s.rstrip(chars)` where `drop` says which characters are stripped. */
  function TrimRight(s: string, drop: char -> bool): (r: string)
    ensures |r| <= |s| && r == s[..|r|]
    ensures r == [] || !drop(r[|r| - 1])
    ensures forall i :: |r| <= i < |s| ==> drop(s[i])
  {
    if |s| > 0 && drop(s[|s| - 1]) then
      var r := TrimRight(s[..|s| - 1], drop);
      assert forall i :: 0 <= i < |s| - 1 ==> s[i] == s[..|s| - 1][i];
      r
    else s
  }

  /** `s.strip(chars)`: both ends trimmed. */
  function Trim(s: string, drop: char -> bool): string {
    TrimRight(TrimLeft(s, drop), drop)
  }

  /** Text without whitespace at either end. */
  predicate Stripped(s: string) {
    s == [] || (!IsSpace(s[0]) && !IsSpace(s[|s| - 1]))
  }

  /** `s.strip()` with no argument strips whitespace. */
  function Strip(s: string): string {
    Trim(s, IsSpace)
  }

  /** What `strip()` leaves has no whitespace at either end and is no longer than the input. */
  lemma StripShape(s: string)
    ensures Stripped(Strip(s)) && |Strip(s)| <= |s|
  {
    var l := TrimLeft(s, IsSpace);
    var r := Strip(s);
    assert r != [] ==> r[0] == l[0];
  }

  /** `s.strip()` is empty exactly when `s` is blank, so "non-blank" and "truthy after strip" agree. */
  lemma StripEmptyIffBlank(s: string)
    ensures Strip(s) == [] <==> IsBlank(s)
  {
    var l := TrimLeft(s, IsSpace);
    if Strip(s) == [] {
      assert |l| == 0;
    } else {
      var r := Strip(s);
      assert !IsSpace(r[0]);
      assert r[0] == s[|s| - |l|];
    }
  }

  /** `lstrip` removes exactly a leading run that ends where a kept character (or the end) begins. */
  lemma {:induction false} TrimLeftExact(s: string, drop: char -> bool, c: nat)
    requires c <= |s| && (c == |s| || !drop(s[c]))
    requires forall i :: 0 <= i < c ==> drop(s[i])
    ensures TrimLeft(s, drop) == s[c..]
  {
  }

  /** `rstrip` removes exactly a trailing run that starts after a kept character (or the start). */
  lemma {:induction false} TrimRightExact(s: string, drop: char -> bool, c: nat)
    requires c <= |s| && (c == 0 || !drop(s[c - 1]))
    requires forall i :: c <= i < |s| ==> drop(s[i])
    ensures TrimRight(s, drop) == s[..c]
  {
  }

  /** Stripping text padded with whitespace on both sides gives back the unpadded text. */
  lemma {:induction false} StripPadded(pre: string, body: string, post: string)
    requires IsBlank(pre) && IsBlank(post)
    requires Stripped(body)
    ensures Strip(pre + body + post) == body
  {
    var s := pre + body + post;
    if body == [] {
      assert forall i :: 0 <= i < |s| ==> IsSpace(s[i]) by {
        forall i | 0 <= i < |s| ensures IsSpace(s[i]) {
          if i < |pre| { assert s[i] == pre[i]; } else { assert s[i] == post[i - |pre|]; }
        }
      }
      TrimLeftExact(s, IsSpace, |s|);
      assert s[|s|..] == [];
    } else {
      assert s[|pre|] == body[0];
      TrimLeftExact(s, IsSpace, |pre|);
      var l := s[|pre|..];
      assert l == body + post;
      assert l[|body| - 1] == body[|body| - 1];
      forall i | |body| <= i < |l| ensures IsSpace(l[i]) {
        assert l[i] == post[i - |body|];
      }
      TrimRightExact(l, IsSpace, |body|);
      assert l[..|body|] == body;
    }
  }

  /** Stripping only removes characters: every character left was in the input. */
  lemma StripKeepsChars(s: string)
    ensures forall c :: c in Strip(s) ==> c in s
  {
    var l := TrimLeft(s, IsSpace);
    var r := Strip(s);
    forall c | c in r ensures c in s {
      var i :| 0 <= i < |r| && r[i] == c;
      assert r[i] == l[i];
      assert l[i] == s[|s| - |l| + i];
    }
  }

  /** Strip keeps the inside of a string that has no whitespace at either end. */
  lemma StripOfTrimmed(s: string)
    requires Stripped(s)
    ensures Strip(s) == s
  {
  }

  /** `sep.join(parts)`. */
  function Join(parts: seq<string>, sep: string): (r: string)
    ensures |parts| == 0 ==> r == []
    ensures |parts| > 0 ==> |parts[0]| <= |r| && r[..|parts[0]|] == parts[0]
    ensures |parts| > 0 ==> var last := parts[|parts| - 1];
      |last| <= |r| && r[|r| - |last|..] == last
    ensures |parts| > 1 ==> |parts[0]| + |sep| <= |r| && r[|parts[0]|..|parts[0]| + |sep|] == sep
    decreases |parts|
  {
    if |parts| == 0 then ""
    else if |parts| == 1 then parts[0]
    else parts[0] + sep + Join(parts[1..], sep)
  }

  /**
   * A join is blank exactly when there are no separators in it and every part
   * is blank; with a non-blank separator that means at most one, blank, part.
   */
  lemma {:induction false} JoinBlankIff(parts: seq<string>, sep: string)
    requires !IsBlank(sep)
    ensures IsBlank(Join(parts, sep)) <==> |parts| <= 1 && forall i :: 0 <= i < |parts| ==> IsBlank(parts[i])
  {
    if |parts| >= 2 {
      var j := Join(parts, sep);
      assert j == parts[0] + sep + Join(parts[1..], sep);
      var k :| 0 <= k < |sep| && !IsSpace(sep[k]);
      assert j[|parts[0]| + k] == sep[k];
    }
  }

  predicate IsDigit(c: char) {
    '0' <= c <= '9'
  }

  function DigitChar(d: nat): (c: char)
    requires d < 10
    ensures IsDigit(c)
  {
    ['0', '1', '2', '3', '4', '5', '6', '7', '8', '9'][d]
  }

  function DigitValue(c: char): (d: nat)
    requires IsDigit(c)
    ensures d < 10
  {
    (c as int - '0' as int) as nat
  }

  /** `str(n)` for a non-negative integer: its decimal digits, no sign, no leading zero. */
  function DecimalString(n: nat): (s: string)
    ensures |s| > 0
    ensures forall i :: 0 <= i < |s| ==> IsDigit(s[i])
    ensures |s| > 1 ==> s[0] != '0'
  {
    if n < 10 then [DigitChar(n)] else DecimalString(n / 10) + [DigitChar(n % 10)]
  }

  /** `int(s)` for a string of decimal digits. */
  function ParseDecimal(s: string): nat
    requires forall i :: 0 <= i < |s| ==> IsDigit(s[i])
  {
    if |s| == 0 then 0 else 10 * ParseDecimal(s[..|s| - 1]) + DigitValue(s[|s| - 1])
  }

  /** `int(str(n)) == n`. */
  lemma {:induction false} ParseDecimalInverts(n: nat)
    ensures ParseDecimal(DecimalString(n)) == n
  {
    var s := DecimalString(n);
    if n < 10 {
      assert s[..0] == [];
    } else {
      assert s[..|s| - 1] == DecimalString(n / 10);
      ParseDecimalInverts(n / 10);
    }
  }

  /** `str` is injective on non-negative integers. */
  lemma DecimalStringInjective(m: nat, n: nat)
    requires DecimalString(m) == DecimalString(n)
    ensures m == n
  {
    ParseDecimalInverts(m);
    ParseDecimalInverts(n);
  }
}
