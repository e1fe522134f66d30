/** The two primitive parsers: one that matches a single given character and
    one that reads an unsigned decimal number. */
module Primitives {
  import opened ParseResult

  /** Decimal digits are the ASCII characters '0' to '9'. */
  predicate IsDigit(c: char) {
    '0' <= c <= '9'
  }

  predicate AllDigits(ds: string) {
    forall i :: 0 <= i < |ds| ==> IsDigit(ds[i])
  }

  /** The value of one digit: the character minus '0'. */
  function DigitValue(c: char): (d: nat)
    requires IsDigit(c)
    ensures d < 10
  {
    c as int - '0' as int
  }

  /** The value of a digit string read left to right, each step computing
      value * 10 + digit. */
  function DecimalValue(ds: string): nat
    requires AllDigits(ds)
  {
    if ds == [] then 0
    else DecimalValue(ds[..|ds| - 1]) * 10 + DigitValue(ds[|ds| - 1])
  }

  /** The length of the maximal run of digits at the start of `s`. */
  function DigitRun(s: string): (k: nat)
    ensures k <= |s|
    ensures AllDigits(s[..k])
    ensures k == |s| || !IsDigit(s[k])
  {
    if |s| > 0 && IsDigit(s[0]) then 1 + DigitRun(s[1..]) else 0
  }

  /** Matches exactly the character `ch` at the start of the input. */
  function ParseChar(ch: char, input: string): (r: Result)
    ensures Consistent(r) && IsSuffix(r.leftover, input)
    ensures r.tag == OK <==> |input| > 0 && input[0] == ch
    ensures r.tag == OK ==> r.result == Some(CharNode(ch)) && r.leftover == input[1..]
    ensures r.tag == ERROR ==> r == Result(ERROR, None, input)
  {
    if |input| == 0 then Result(ERROR, None, input)
    else if input[0] == ch then Result(OK, Some(CharNode(ch)), input[1..])
    else Result(ERROR, None, input)
  }

  /** Reads the maximal run of leading digits as a number. It fails, giving
      the input back, when the input does not start with a digit. */
  function ParseNumber(input: string): (r: Result)
    ensures Consistent(r) && IsSuffix(r.leftover, input)
    ensures r.tag == OK <==> |input| > 0 && IsDigit(input[0])
    ensures r.tag == ERROR ==> r == Result(ERROR, None, input)
    ensures r.tag == OK ==>
      var consumed := input[..|input| - |r.leftover|];
      && |r.leftover| < |input|
      && AllDigits(consumed)
      && (r.leftover == [] || !IsDigit(r.leftover[0]))
      && r.result == Some(NumberNode(DecimalValue(consumed)))
  {
    if |input| == 0 || !IsDigit(input[0]) then Result(ERROR, None, input)
    else
      var k := DigitRun(input);
      Result(OK, Some(NumberNode(DecimalValue(input[..k]))), input[k..])
  }

  /** The number parser as the source runs it: a loop that scans digits and
      accumulates result * 10 + digit. */
  method ScanNumber(input: string) returns (r: Result)
    ensures r == ParseNumber(input)
  {
    if |input| == 0 || !IsDigit(input[0]) {
      return Result(ERROR, None, input);
    }
    var i := 0;
    var result := 0;
    while i < |input| && IsDigit(input[i])
      invariant 0 <= i <= |input|
      invariant AllDigits(input[..i])
      invariant result == DecimalValue(input[..i])
    {
      assert input[..i + 1][..i] == input[..i];
      result := result * 10 + DigitValue(input[i]);
      i := i + 1;
    }
    assert i == DigitRun(input);
    r := Result(OK, Some(NumberNode(result)), input[i..]);
  }

  /** The digit character of a value below ten. */
  function DigitChar(d: nat): (c: char)
    requires d < 10
    ensures IsDigit(c) && DigitValue(c) == d
  {
    ('0' as int + d) as char
  }

  /** The decimal text of a natural number, without leading zeros. */
  function DecimalString(n: nat): string
  {
    if n < 10 then [DigitChar(n)] else DecimalString(n / 10) + [DigitChar(n % 10)]
  }

  /** Printing a number in decimal and reading it back gives the number. */
  lemma {:induction false} DecimalStringValue(n: nat)
    ensures |DecimalString(n)| > 0 && AllDigits(DecimalString(n))
    ensures DecimalValue(DecimalString(n)) == n
  {
    var ds := DecimalString(n);
    if n >= 10 {
      DecimalStringValue(n / 10);
      assert ds[..|ds| - 1] == DecimalString(n / 10);
    }
  }

  /** The digit run of a digit string followed by text that does not start
      with a digit is exactly that digit string. */
  lemma {:induction false} DigitRunOfDigits(ds: string, rest: string)
    requires AllDigits(ds)
    requires rest == [] || !IsDigit(rest[0])
    ensures DigitRun(ds + rest) == |ds|
  {
    if ds != [] {
      assert (ds + rest)[1..] == ds[1..] + rest;
      DigitRunOfDigits(ds[1..], rest);
    } else {
      assert ds + rest == rest;
    }
  }

  /** The number parser reads back what DecimalString prints, and leaves over
      exactly the text that follows it. */
  lemma NumberRoundTrip(n: nat, rest: string)
    requires rest == [] || !IsDigit(rest[0])
    ensures ParseNumber(DecimalString(n) + rest) == Result(OK, Some(NumberNode(n)), rest)
  {
    var ds := DecimalString(n);
    DecimalStringValue(n);
    DigitRunOfDigits(ds, rest);
    assert (ds + rest)[..|ds|] == ds;
    assert (ds + rest)[|ds|..] == rest;
  }
}
