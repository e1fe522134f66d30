/** What a parser leaves over is always a suffix of its input: no parser
    reorders, changes or invents text, it only consumes a prefix. */
module Leftovers {
  import opened ParseResult
  import opened Primitives
  import opened Engine

  /** Every parser leaves over a suffix of its input. */
  lemma {:induction false} ParseLeavesSuffix(p: Parser, input: string)
    decreases |input|, Rank(p)
    ensures IsSuffix(Parse(p, input).leftover, input)
  {
    match p
    case CharP(c) =>
    case NumberP =>
    case ConstantExprP => ConstantLeavesSuffix(input);
    case BinaryExprP => BinaryLeavesSuffix(input);
    case ExprP => ExpressionLeavesSuffix(input);
    case ChoiceP(ps) => ChoiceLeavesSuffix(ps, input);
    case SequenceP(ps) => SequenceLeavesSuffix(ps, input);
  }

  /** The constant parser leaves over what the number parser leaves over
      after the optional sign, or the whole input. */
  lemma ConstantLeavesSuffix(input: string)
    ensures IsSuffix(ParseConstant(input).leftover, input)
  {
    var sign := ParseChar('-', input);
    var number := ParseNumber(sign.leftover);
    if number.tag == OK {
      SuffixTransitive(number.leftover, sign.leftover, input);
    } else {
      SuffixReflexive(input);
    }
  }

  /** The constant parser hands the text after an optional '-' to the
      number parser and keeps what that leaves over. */
  lemma ConstantDelegates(input: string)
    ensures var start := if |input| > 0 && input[0] == '-' then 1 else 0;
      var number := ParseNumber(input[start..]);
      && (ParseConstant(input).tag == OK <==> number.tag == OK)
      && (number.tag == OK ==>
            ParseConstant(input).leftover == number.leftover
            && ParseConstant(input).result.value.value == number.result.value.number)
  {
    var sign := ParseChar('-', input);
    assert sign.leftover == input[if |input| > 0 && input[0] == '-' then 1 else 0..];
  }

  /** The constant parser reads the whole run of digits after the sign:
      what it leaves over does not start with a digit. */
  lemma ConstantReadsAllDigits(input: string)
    ensures ParseConstant(input).tag == OK ==>
      ParseConstant(input).leftover == [] || !IsDigit(ParseConstant(input).leftover[0])
  {
    ConstantDelegates(input);
  }

  /** A choice leaves over what its successful alternative leaves over, or
      the whole input. */
  lemma {:induction false} ChoiceLeavesSuffix(ps: seq<Parser>, input: string)
    decreases |input|, ListRank(ps)
    ensures IsSuffix(ParseChoice(ps, input).leftover, input)
  {
    if ps == [] {
      SuffixReflexive(input);
    } else {
      ParseLeavesSuffix(ps[0], input);
      if Parse(ps[0], input).tag == ERROR {
        ChoiceLeavesSuffix(ps[1..], input);
      }
    }
  }

  /** A sequence leaves over a suffix of what each of its steps leaves
      over. */
  lemma {:induction false} SequenceLeavesSuffix(ps: seq<Parser>, input: string)
    decreases |input|, SeqRank(ps)
    ensures IsSuffix(ParseSequence(ps, input).leftover, input)
  {
    if ps == [] {
      SuffixReflexive(input);
    } else {
      var first := Parse(ps[0], input);
      ParseLeavesSuffix(ps[0], input);
      if first.tag == OK {
        var rest := ParseSequence(ps[1..], first.leftover);
        SequenceLeavesSuffix(ps[1..], first.leftover);
        SuffixTransitive(rest.leftover, first.leftover, input);
      }
    }
  }

  /** The binary-expression parser leaves over what its sequence leaves
      over, or the whole input. */
  lemma {:induction false} BinaryLeavesSuffix(input: string)
    decreases |input|, 3
    ensures IsSuffix(ParseBinary(input).leftover, input)
  {
    assert SeqRank(BinarySteps) == 2;
    SequenceLeavesSuffix(BinarySteps, input);
    SuffixReflexive(input);
  }

  /** The top-level parser leaves over what its choice leaves over. */
  lemma {:induction false} ExpressionLeavesSuffix(input: string)
    decreases |input|, 8
    ensures IsSuffix(ParseExpression(input).leftover, input)
  {
    assert ListRank(ExprAlternatives) == 7;
    ChoiceLeavesSuffix(ExprAlternatives, input);
  }
}
