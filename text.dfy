/** The string operations the program relies on: slicing, substring tests, padding and decimals. */
module Text {

  /** Python's slice `s[:-k]` for k >= 1: all but the last k characters, or "" when s is shorter. */
  function DropLast(s: string, k: nat): (r: string)
    requires k >= 1
    ensures r <= s
    ensures |r| == if |s| >= k then |s| - k else 0
  {
    if |s| >= k then s[..|s| - k] else ""
  }

  /** sub occurs in s starting at index i. */
  predicate OccursAt(s: string, sub: string, i: int)
  {
    0 <= i && i + |sub| <= |s| && s[i..i + |sub|] == sub
  }

  /** Python's `sub in s`. */
  predicate Contains(s: string, sub: string)
  {
    exists i | 0 <= i <= |s| - |sub| :: OccursAt(s, sub, i)
  }

  /** Whatever the raw name, the displayed name "raw Station" contains "Station". */
  lemma SuffixedNameContainsStation(raw: string)
    ensures Contains(raw + " Station", "Station")
  {
    var s := raw + " Station";
    assert OccursAt(s, "Station", |raw| + 1);
  }

  /** A string that ends in `suffix` is the text before the suffix followed by the suffix. */
  lemma EndsWith(s: string, suffix: string)
    requires |s| >= |suffix| && s[|s| - |suffix|..] == suffix
    ensures s == s[..|s| - |suffix|] + suffix
  {
  }

  function Spaces(n: nat): (r: string)
    ensures |r| == n && forall i :: 0 <= i < n ==> r[i] == ' '
  {
    if n == 0 then "" else Spaces(n - 1) + " "
  }

  /** Python's `"{x:w}".format(x=s)` for a string s: left-aligned, padded with spaces to width w. */
  function PadRight(s: string, w: nat): (r: string)
    ensures |r| == if |s| >= w then |s| else w
    ensures s <= r
    ensures forall i :: |s| <= i < |r| ==> r[i] == ' '
  {
    if |s| >= w then s else s + Spaces(w - |s|)
  }

  predicate IsDigit(c: char)
  {
    '0' <= c <= '9'
  }

  function DigitValue(c: char): (d: nat)
    requires IsDigit(c)
    ensures d < 10
  {
    c as int - '0' as int
  }

  function DigitChar(d: nat): (c: char)
    requires d < 10
    ensures IsDigit(c) && DigitValue(c) == d
  {
    ('0' as int + d) as char
  }

  /** The value of a string of decimal digits ("" is 0). */
  function DecimalValue(s: string): nat
    requires forall i :: 0 <= i < |s| ==> IsDigit(s[i])
  {
    if s == [] then 0 else 10 * DecimalValue(s[..|s| - 1]) + DigitValue(s[|s| - 1])
  }

  /** Python's `str(n)` / `"{n}".format(n=n)` for a non-negative int: the shortest decimal numeral. */
  function NatToString(n: nat): (r: string)
    ensures 0 < |r|
    ensures forall i :: 0 <= i < |r| ==> IsDigit(r[i])
    ensures |r| > 1 ==> r[0] != '0'
    ensures DecimalValue(r) == n
  {
    if n < 10 then [DigitChar(n)] else NatToString(n / 10) + [DigitChar(n % 10)]
  }

  /** Python's `sep.join(lines)`. */
  function Join(lines: seq<string>, sep: string): string
  {
    if |lines| == 0 then ""
    else if |lines| == 1 then lines[0]
    else lines[0] + sep + Join(lines[1..], sep)
  }
}
