/**
 * The JavaScript string primitives the compiler leans on: `indexOf` for the
 * two-character delimiters, the `\s` class of regular expressions, the
 * whitespace trim `replace(/^\s+|\s+$/g, '')`, and `String(n)` for a natural.
 */
module Strings {

  /** `s[j..j+2]` is the two characters `a`, `b`. */
  predicate PairAt(s: string, j: int, a: char, b: char)
  {
    0 <= j && j + 1 < |s| && s[j] == a && s[j + 1] == b
  }

  /** `s` holds the pair `a`, `b` nowhere. */
  predicate NoPair(s: string, a: char, b: char)
  {
    forall j :: 0 <= j < |s| ==> !PairAt(s, j, a, b)
  }

  /**
   * `s.indexOf(a + b, from)`: the first position at or after `from` where the
   * pair starts, or -1 when there is none.
   */
  function Find(s: string, a: char, b: char, from: nat): (r: int)
    ensures r == -1 || (from <= r && PairAt(s, r, a, b))
    decreases |s| - from
  {
    if from + 1 >= |s| then -1
    else if PairAt(s, from, a, b) then from
    else Find(s, a, b, from + 1)
  }

  /** What `Find` returns is the first occurrence: none lies before it, and -1 means none at all. */
  lemma {:induction false} FindFirst(s: string, a: char, b: char, from: nat)
    ensures Find(s, a, b, from) == -1 ==> forall j :: from <= j ==> !PairAt(s, j, a, b)
    ensures Find(s, a, b, from) != -1 ==> forall j :: from <= j < Find(s, a, b, from) ==> !PairAt(s, j, a, b)
    decreases |s| - from
  {
    if from + 1 < |s| && !PairAt(s, from, a, b) {
      FindFirst(s, a, b, from + 1);
    }
  }

  /** A pair found in `s` is found at the same place in any prefix that still holds it. */
  lemma FindInPrefix(s: string, a: char, b: char, from: nat, m: nat)
    requires m <= |s|
    ensures var k := Find(s, a, b, from);
            Find(s[..m], a, b, from) == if k != -1 && k + 2 <= m then k else -1
  {
    var k := Find(s, a, b, from);
    var k' := Find(s[..m], a, b, from);
    FindFirst(s, a, b, from);
    FindFirst(s[..m], a, b, from);
    forall j | 0 <= j
      ensures PairAt(s[..m], j, a, b) <==> PairAt(s, j, a, b) && j + 2 <= m
    {
    }
    if k' != -1 {
      assert PairAt(s, k', a, b);
    }
  }

  /** The characters matched by `\s` in a JavaScript regular expression. */
  predicate IsSpace(c: char)
  {
    || c == ' ' || c == '\t' || c == '\n' || c == '\r'
    || c == '\U{B}' || c == '\U{C}' || c == '\U{A0}' || c == '\U{1680}'
    || ('\U{2000}' <= c <= '\U{200A}')
    || c == '\U{2028}' || c == '\U{2029}' || c == '\U{202F}' || c == '\U{205F}'
    || c == '\U{3000}' || c == '\U{FEFF}'
  }

  predicate AllSpace(s: string)
  {
    forall i :: 0 <= i < |s| ==> IsSpace(s[i])
  }

  /** Length of the run matched by `^\s+` (zero when it does not match). */
  function LeadingSpaces(s: string): (n: nat)
    ensures n <= |s| && AllSpace(s[..n])
    ensures n < |s| ==> !IsSpace(s[n])
  {
    if |s| > 0 && IsSpace(s[0]) then
      var n := 1 + LeadingSpaces(s[1..]);
      assert s[..n] == [s[0]] + s[1..][..n - 1];
      n
    else 0
  }

  /** Length of the run matched by `\s+$` (zero when it does not match). */
  function TrailingSpaces(s: string): (n: nat)
    ensures n <= |s| && AllSpace(s[|s| - n..])
    ensures n < |s| ==> !IsSpace(s[|s| - 1 - n])
  {
    if |s| > 0 && IsSpace(s[|s| - 1]) then
      var n := 1 + TrailingSpaces(s[..|s| - 1]);
      assert s[|s| - n..] == s[..|s| - 1][|s| - n..] + [s[|s| - 1]];
      n
    else 0
  }

  /**
   * `s.replace(/^\s+|\s+$/g, '')`: the infix of `s` left once the leading and
   * the trailing whitespace runs are cut off. When `s` is all whitespace the
   * leading run takes all of it.
   */
  function Trim(s: string): (r: string)
    ensures r == [] || (!IsSpace(r[0]) && !IsSpace(r[|r| - 1]))
  {
    var i := LeadingSpaces(s);
    var t := s[i..];
    t[..|t| - TrailingSpaces(t)]
  }

  /** What `Trim` removes is whitespace, from the two ends only. */
  lemma TrimIsInfix(s: string)
    ensures exists i :: 0 <= i && i + |Trim(s)| <= |s| && s[i..i + |Trim(s)|] == Trim(s)
                        && AllSpace(s[..i]) && AllSpace(s[i + |Trim(s)|..])
  {
    var i := LeadingSpaces(s);
    var t := s[i..];
    var n := TrailingSpaces(t);
    var r := t[..|t| - n];
    assert r == Trim(s);
    assert s[i..i + |r|] == r;
    assert s[i + |r|..] == t[|t| - n..];
  }

  function DigitChar(d: nat): (c: char)
    requires d < 10
    ensures '0' <= c <= '9'
  {
    ('0' as int + d) as char
  }

  /** `String(n)` for a natural: its decimal digits, without leading zeros. */
  function DecimalString(n: nat): (r: string)
    ensures |r| >= 1
    ensures forall i :: 0 <= i < |r| ==> '0' <= r[i] <= '9'
    ensures r[0] == '0' ==> n == 0
  {
    if n < 10 then [DigitChar(n)] else DecimalString(n / 10) + [DigitChar(n % 10)]
  }

  function DecimalValue(s: string): (n: nat)
    requires forall i :: 0 <= i < |s| ==> '0' <= s[i] <= '9'
  {
    if s == [] then 0
    else 10 * DecimalValue(s[..|s| - 1]) + (s[|s| - 1] as int - '0' as int)
  }

  /** Reading the digits of `String(n)` gives `n` back. */
  lemma {:induction false} DecimalRoundTrip(n: nat)
    ensures DecimalValue(DecimalString(n)) == n
  {
    var r := DecimalString(n);
    if n >= 10 {
      DecimalRoundTrip(n / 10);
      assert r[..|r| - 1] == DecimalString(n / 10);
      assert r[|r| - 1] as int - '0' as int == n % 10;
    }
  }
}
