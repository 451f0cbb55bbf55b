/**
  The text form of a patch entry: the action letter, a space, the index in
  decimal, a space, then the line verbatim.
*/
module PatchFormat {
  import opened EditDistance

  function DigitChar(d: nat): (c: char)
    requires d < 10
  {
    ('0' as int + d) as char
  }

  predicate IsDigit(c: char)
  {
    '0' <= c <= '9'
  }

  /** The decimal digits of n, most significant first, without leading zeros. */
  function Decimal(n: nat): (s: string)
    ensures 0 < |s|
    ensures forall k :: 0 <= k < |s| ==> IsDigit(s[k])
    ensures s[0] == '0' ==> n == 0
    ensures 1 < |s| ==> s[0] != '0'
    decreases n
  {
    if n < 10 then [DigitChar(n)] else Decimal(n / 10) + [DigitChar(n % 10)]
  }

  /** The number a string of decimal digits denotes. */
  function DecimalValue(s: string): (v: int)
  {
    if s == [] then 0
    else 10 * DecimalValue(s[..|s| - 1]) + (s[|s| - 1] as int - '0' as int)
  }

  /** Reading back the digits of n gives n. */
  lemma {:induction false} DecimalRoundTrip(n: nat)
    ensures DecimalValue(Decimal(n)) == n
    decreases n
  {
    if n >= 10 {
      DecimalRoundTrip(n / 10);
      var s := Decimal(n);
      assert s[..|s| - 1] == Decimal(n / 10);
    }
  }

  /** The rendered form of one entry. */
  function EntryLine(e: Entry<string>): (s: string)
  {
    [e.action] + " " + Decimal(e.index) + " " + e.line
  }

  /** A string with no space in it, followed by a space and a rest, can be
      split back at its first space. */
  lemma SplitAtSpace(x: string, u: string, y: string, v: string)
    requires forall k :: 0 <= k < |x| ==> x[k] != ' '
    requires forall k :: 0 <= k < |y| ==> y[k] != ' '
    requires x + " " + u == y + " " + v
    ensures x == y && u == v
  {
    var s, t := x + " " + u, y + " " + v;
    var m := if |x| < |y| then |x| else |y|;
    assert s[m] == t[m];
    if |x| != |y| {
      // at m the shorter part's space meets a non-space of the longer one
      assert false;
    }
    assert x == s[..|x|] && y == t[..|y|];
    assert u == s[|x| + 1..] && v == t[|y| + 1..];
  }

  /** Distinct entries render to distinct lines: the action letter, the
      index and the line content can all be recovered from the text. */
  lemma EntryLineInjective(e1: Entry<string>, e2: Entry<string>)
    requires EntryLine(e1) == EntryLine(e2)
    ensures e1 == e2
  {
    var s1, s2 := EntryLine(e1), EntryLine(e2);
    assert e1.action == s1[0] && e2.action == s2[0];
    var d1, d2 := Decimal(e1.index), Decimal(e2.index);
    assert s1[2..] == d1 + " " + e1.line;
    assert s2[2..] == d2 + " " + e2.line;
    SplitAtSpace(d1, e1.line, d2, e2.line);
    DecimalRoundTrip(e1.index);
    DecimalRoundTrip(e2.index);
  }
}
