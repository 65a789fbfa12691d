/**
 * The pieces of Python's `str` behaviour the validators and parsers rely on:
 * `isspace`, `strip`, `replace(c, "")`, ASCII `lower`, ASCII digits, and
 * zero-padded decimal output.
 */
module PyText {

  /** `c.isspace()`: the characters Python counts as whitespace. */
  predicate IsSpace(c: char)
  {
    || ('\U{9}' <= c <= '\U{D}') || ('\U{1C}' <= c <= ' ')
    || c == '\U{85}' || c == '\U{A0}' || c == '\U{1680}'
    || ('\U{2000}' <= c <= '\U{200A}') || c == '\U{2028}' || c == '\U{2029}'
    || c == '\U{202F}' || c == '\U{205F}' || c == '\U{3000}'
  }

  predicate AllSpace(s: string)
  {
    forall i | 0 <= i < |s| :: IsSpace(s[i])
  }

  /** How many whitespace characters `s` starts with. */
  function LeadingSpaces(s: string): (n: nat)
    ensures n <= |s| && AllSpace(s[..n]) && (n == |s| || !IsSpace(s[n]))
  {
    if s == [] || !IsSpace(s[0]) then 0
    else
      var n := LeadingSpaces(s[1..]);
      assert s[..n + 1] == [s[0]] + s[1..][..n];
      n + 1
  }

  /** How many whitespace characters `s` ends with. */
  function TrailingSpaces(s: string): (n: nat)
    ensures n <= |s| && AllSpace(s[|s| - n..]) && (n == |s| || !IsSpace(s[|s| - n - 1]))
  {
    if s == [] || !IsSpace(s[|s| - 1]) then 0
    else
      var n := TrailingSpaces(s[..|s| - 1]);
      assert s[|s| - (n + 1)..] == s[..|s| - 1][|s| - 1 - n..] + [s[|s| - 1]];
      n + 1
  }

  /** The leading whitespace run is the only prefix of blanks followed by a non-blank or the end. */
  lemma {:induction false} LeadingSpacesUnique(s: string, n: nat)
    requires n <= |s| && AllSpace(s[..n]) && (n == |s| || !IsSpace(s[n]))
    ensures LeadingSpaces(s) == n
  {
    if n > 0 {
      assert s[..n][0] == s[0];
      assert s[1..][..n - 1] == s[..n][1..];
      LeadingSpacesUnique(s[1..], n - 1);
    }
  }

  lemma {:induction false} TrailingSpacesUnique(s: string, n: nat)
    requires n <= |s| && AllSpace(s[|s| - n..]) && (n == |s| || !IsSpace(s[|s| - n - 1]))
    ensures TrailingSpaces(s) == n
  {
    if n > 0 {
      var t := s[..|s| - 1];
      assert s[|s| - n..][n - 1] == s[|s| - 1];
      assert t[|t| - (n - 1)..] == s[|s| - n..|s| - 1];
      TrailingSpacesUnique(t, n - 1);
    }
  }

  /** `s.lstrip()`. */
  function StripLeft(s: string): (r: string)
    ensures r == [] || !IsSpace(r[0])
  {
    s[LeadingSpaces(s)..]
  }

  /** `s.rstrip()`. */
  function StripRight(s: string): (r: string)
    ensures r == [] || !IsSpace(r[|r| - 1])
  {
    s[..|s| - TrailingSpaces(s)]
  }

  /** `s.strip()`: whitespace removed from both ends. */
  function Strip(s: string): (r: string)
    ensures r == [] || (!IsSpace(r[0]) && !IsSpace(r[|r| - 1]))
  {
    var l := StripLeft(s);
    var r := StripRight(l);
    assert r != [] ==> r[0] == l[0];
    r
  }

  /** Stripping a text that has no whitespace at either end leaves it as it is. */
  lemma StripSinBordes(s: string)
    requires s == [] || (!IsSpace(s[0]) && !IsSpace(s[|s| - 1]))
    ensures Strip(s) == s
  {
    LeadingSpacesUnique(s, 0);
    TrailingSpacesUnique(s, 0);
  }

  /** Stripping surrounding whitespace recovers the text inside it. */
  lemma StripRodeado(a: string, s: string, b: string)
    requires AllSpace(a) && AllSpace(b)
    requires s == [] || (!IsSpace(s[0]) && !IsSpace(s[|s| - 1]))
    ensures Strip(a + s + b) == s
  {
    if s == [] {
      assert a + s + b == (a + b) + [];
      assert AllSpace(a + b);
      StripLeftRodeado(a + b, []);
    } else {
      assert a + s + b == a + (s + b);
      StripLeftRodeado(a, s + b);
      StripRightRodeado(s, b);
    }
  }

  lemma StripLeftRodeado(a: string, t: string)
    requires AllSpace(a) && (t == [] || !IsSpace(t[0]))
    ensures StripLeft(a + t) == t
  {
    var s := a + t;
    assert s[..|a|] == a;
    LeadingSpacesUnique(s, |a|);
    assert s[|a|..] == t;
  }

  lemma StripRightRodeado(t: string, b: string)
    requires AllSpace(b) && (t == [] || !IsSpace(t[|t| - 1]))
    ensures StripRight(t + b) == t
  {
    var s := t + b;
    assert s[|s| - |b|..] == b;
    TrailingSpacesUnique(s, |b|);
    assert s[..|t|] == t;
  }

  /** `s.replace(c, "")`: every `c` removed, everything else kept in order. */
  function Remove(s: string, c: char): (r: string)
    ensures c !in r
    ensures c !in s ==> r == s
  {
    if s == [] then []
    else (if s[0] == c then [] else [s[0]]) + Remove(s[1..], c)
  }

  lemma {:induction false} RemoveConcat(a: string, b: string, c: char)
    ensures Remove(a + b, c) == Remove(a, c) + Remove(b, c)
  {
    if a == [] {
      assert a + b == b;
    } else {
      assert (a + b)[0] == a[0];
      assert (a + b)[1..] == a[1..] + b;
      RemoveConcat(a[1..], b, c);
    }
  }

  /** `s.lower()` on ASCII letters; every other character is kept. */
  function LowerAscii(s: string): (r: string)
    ensures |r| == |s|
    ensures forall i | 0 <= i < |s| :: r[i] == (if 'A' <= s[i] <= 'Z' then (s[i] as int + 32) as char else s[i])
  {
    if s == [] then []
    else [if 'A' <= s[0] <= 'Z' then (s[0] as int + 32) as char else s[0]] + LowerAscii(s[1..])
  }

  predicate NoUpper(s: string)
  {
    forall i | 0 <= i < |s| :: !('A' <= s[i] <= 'Z')
  }

  /** Lower-casing a text with no ASCII capital leaves it as it is. */
  lemma LowerAsciiNoUpper(s: string)
    requires NoUpper(s)
    ensures LowerAscii(s) == s
  {
  }

  lemma NoUpperConcat(a: string, b: string)
    requires NoUpper(a) && NoUpper(b)
    ensures NoUpper(a + b)
  {
  }

  lemma DigitsNoUpper(s: string)
    requires AllDigits(s)
    ensures NoUpper(s)
  {
    forall i | 0 <= i < |s| ensures !('A' <= s[i] <= 'Z') { assert IsDigit(s[i]); }
  }

  predicate IsDigit(c: char)
  {
    '0' <= c <= '9'
  }

  predicate AllDigits(s: string)
  {
    forall i | 0 <= i < |s| :: IsDigit(s[i])
  }

  function DigitValue(c: char): (v: int)
    requires IsDigit(c)
    ensures 0 <= v <= 9
  {
    c as int - '0' as int
  }

  function DigitChar(v: int): (c: char)
    requires 0 <= v <= 9
    ensures IsDigit(c) && DigitValue(c) == v
  {
    ('0' as int + v) as char
  }

  /** `int(s)` on a text of ASCII digits. */
  function Number(s: string): (n: int)
    requires AllDigits(s)
    ensures 0 <= n
    decreases |s|
  {
    if s == [] then 0 else 10 * Number(s[..|s| - 1]) + DigitValue(s[|s| - 1])
  }

  /** A number of at most `width` digits, left-padded with zeros to `width` characters (`%02d`, `%04d`). */
  function Padded(n: nat, width: nat): (s: string)
    ensures |s| == width && AllDigits(s)
    decreases width
  {
    if width == 0 then [] else Padded(n / 10, width - 1) + [DigitChar(n % 10)]
  }

  /** Reading back a zero-padded number gives the number, as long as it fits. */
  lemma {:induction false} NumberPadded(n: nat, width: nat)
    requires n < Pow10(width)
    ensures Number(Padded(n, width)) == n
    decreases width
  {
    if width > 0 {
      var s := Padded(n, width);
      assert s[..|s| - 1] == Padded(n / 10, width - 1);
      NumberPadded(n / 10, width - 1);
    }
  }

  function Pow10(k: nat): (p: nat)
    ensures p >= 1
  {
    if k == 0 then 1 else 10 * Pow10(k - 1)
  }

  lemma Pow10Pequenas()
    ensures Pow10(2) == 100 && Pow10(4) == 10000
  {
    assert Pow10(1) == 10;
    assert Pow10(3) == 1000;
  }
}
