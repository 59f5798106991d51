/** Decimal text and the small string rewrites the tools apply to file names. */
module Text {
  import opened Wrappers

  predicate IsDigit(c: char) {
    '0' <= c <= '9'
  }

  predicate AllDigits(s: string) {
    forall i :: 0 <= i < |s| ==> IsDigit(s[i])
  }

  /** Python's `str.isdigit()` on ASCII text: non-empty and every character a digit. */
  predicate IsDigits(s: string) {
    |s| > 0 && AllDigits(s)
  }

  function DigitValue(c: char): nat
    requires IsDigit(c)
  {
    (c as int) - ('0' as int)
  }

  function DigitChar(d: nat): (c: char)
    requires d < 10
    ensures IsDigit(c) && DigitValue(c) == d
  {
    ('0' as int + d) as char
  }

  /** The number a string of decimal digits denotes. */
  function DigitsValue(s: string): nat
    requires AllDigits(s)
  {
    if s == [] then 0 else DigitsValue(s[..|s| - 1]) * 10 + DigitValue(s[|s| - 1])
  }

  /** `str(n)` for a non-negative integer. */
  function NatToString(n: nat): (s: string)
    ensures IsDigits(s)
  {
    if n < 10 then [DigitChar(n)] else NatToString(n / 10) + [DigitChar(n % 10)]
  }

  lemma {:induction false} NatToStringValue(n: nat)
    ensures DigitsValue(NatToString(n)) == n
  {
    if n >= 10 {
      var s := NatToString(n);
      assert s[..|s| - 1] == NatToString(n / 10);
      NatToStringValue(n / 10);
    }
  }

  /** `int(s)`: an optional sign followed by at least one ASCII digit. Anything
      else is Python's ValueError, here None. */
  function ParseInt(s: string): (r: Option<int>)
    ensures r.Some? <==> IsDigits(s) || (|s| > 1 && (s[0] == '-' || s[0] == '+') && IsDigits(s[1..]))
  {
    if IsDigits(s) then Some(DigitsValue(s))
    else if |s| > 1 && s[0] == '+' && IsDigits(s[1..]) then Some(DigitsValue(s[1..]))
    else if |s| > 1 && s[0] == '-' && IsDigits(s[1..]) then Some(0 - DigitsValue(s[1..]) as int)
    else None
  }

  /** `int(str(n)) == n`. */
  lemma ParseNatToString(n: nat)
    ensures ParseInt(NatToString(n)) == Some(n)
  {
    NatToStringValue(n);
  }

  /** `s.replace(":", os.sep)` with the POSIX separator. */
  function ColonsToSlashes(s: string): (r: string)
    ensures |r| == |s|
    ensures forall i :: 0 <= i < |s| ==> r[i] == (if s[i] == ':' then '/' else s[i])
  {
    seq(|s|, i requires 0 <= i < |s| => if s[i] == ':' then '/' else s[i])
  }

  /** The index of the first colon in s, if any. */
  function FirstColon(s: string): (r: Option<nat>)
    ensures r.Some? ==> r.value < |s| && s[r.value] == ':' && ':' !in s[..r.value]
    ensures r.None? ==> ':' !in s
  {
    if s == [] then None
    else if s[0] == ':' then Some(0)
    else match FirstColon(s[1..])
      case None => None
      case Some(k) => assert s[..k + 1] == [s[0]] + s[1..][..k]; Some(k + 1)
  }

  /** `s.split(":", maxsplit=1)[-1]`: what follows the first colon, or all of s. */
  function AfterFirstColon(s: string): (r: string)
  {
    match FirstColon(s)
    case None => s
    case Some(k) => s[k + 1..]
  }

  /** FirstColon is fixed by the first colon. */
  lemma FirstColonIs(s: string, k: nat)
    requires k < |s| && s[k] == ':' && ':' !in s[..k]
    ensures FirstColon(s) == Some(k)
  {
    var r := FirstColon(s);
  }

  /** Only the first colon splits: what follows it is kept whole. */
  lemma AfterFirstColonOf(a: string, b: string)
    requires ':' !in a
    ensures AfterFirstColon(a + ":" + b) == b
  {
    var s := a + ":" + b;
    assert s[..|a|] == a;
    FirstColonIs(s, |a|);
    assert s[|a| + 1..] == b;
  }

  /** A second colon stays in the rest. */
  lemma AfterFirstColonExample()
    ensures AfterFirstColon("a:b:c") == "b:c"
  {
    AfterFirstColonOf("a", "b:c");
    assert "a" + ":" + "b:c" == "a:b:c";
  }
}
