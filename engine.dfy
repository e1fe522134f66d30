/** The parser engine: parsers as values, one interpreter `Parse`, the two
    combinators (ordered choice and ordered sequence) and the grammar parsers
    for signed constants and fully parenthesised binary expressions.

    Every parser is a pure function from the input to a Result. The grammar
    parsers call each other recursively; the recursion terminates because
    every recursive call to the binary-expression parser happens after '('
    has been consumed, so on a strictly shorter input. */
module Engine {
  import opened ParseResult
  import opened Primitives

  /** One constructor per kind of parser of the source. */
  datatype Parser =
    | CharP(ch: char)                    // matches one given character
    | NumberP                            // unsigned decimal number
    | ConstantExprP                      // optional '-' then a number
    | BinaryExprP                        // ( operand op operand )
    | ExprP                              // a whole expression, nothing left over
    | ChoiceP(alternatives: seq<Parser>) // ordered choice
    | SequenceP(steps: seq<Parser>)      // ordered sequence

  /** An operand of a binary expression: a constant, else a binary expression. */
  const Operand: Parser := ChoiceP([ConstantExprP, BinaryExprP])

  /** The operator of a binary expression. */
  const Operator: Parser := ChoiceP([CharP('+'), CharP('-'), CharP('*')])

  /** The five steps of a binary expression. */
  const BinarySteps: seq<Parser> := [CharP('('), Operand, Operator, Operand, CharP(')')]

  /** What the top-level parser tries: a binary expression, else a constant. */
  const ExprAlternatives: seq<Parser> := [BinaryExprP, ConstantExprP]

  /** A parser is consuming when every success leaves a strictly shorter
      leftover. A choice is consuming when all its alternatives are, a
      sequence when one of its steps is. */
  predicate Consuming(p: Parser) {
    match p
    case ChoiceP(ps) => AllConsuming(ps)
    case SequenceP(ps) => SomeConsuming(ps)
    case _ => true
  }

  predicate AllConsuming(ps: seq<Parser>) {
    ps == [] || (Consuming(ps[0]) && AllConsuming(ps[1..]))
  }

  predicate SomeConsuming(ps: seq<Parser>) {
    ps != [] && (Consuming(ps[0]) || SomeConsuming(ps[1..]))
  }

  /** The termination measure of the interpreter, used after the input length.
      A sequence is ranked by its steps up to its first consuming step: once
      that step succeeds the input is shorter, so later steps do not count.
      BinaryExprP ranks above the sequence it runs (SeqRank(BinarySteps) is
      2) and ExprP above the choice it runs (ListRank(ExprAlternatives) is 7). */
  function Rank(p: Parser): nat {
    match p
    case CharP(_) => 1
    case NumberP => 1
    case ConstantExprP => 1
    case BinaryExprP => 4
    case ExprP => 9
    case ChoiceP(ps) => 1 + ListRank(ps)
    case SequenceP(ps) => 1 + SeqRank(ps)
  }

  function ListRank(ps: seq<Parser>): nat {
    if ps == [] then 0 else 1 + Rank(ps[0]) + ListRank(ps[1..])
  }

  function SeqRank(ps: seq<Parser>): nat {
    if ps == [] then 0
    else 1 + Rank(ps[0]) + (if Consuming(ps[0]) then 0 else SeqRank(ps[1..]))
  }

  /** The constant-expression parser: an optional '-' and then a number. If
      no number follows, the '-' is given back with the rest of the input. */
  function ParseConstant(input: string): (r: Result)
    ensures Consistent(r) && |r.leftover| <= |input|
    ensures r.tag == OK <==>
      if |input| > 0 && input[0] == '-' then |input| > 1 && IsDigit(input[1])
      else |input| > 0 && IsDigit(input[0])
    ensures r.tag == OK ==>
      && r.result.value.ConstantNode?
      && r.result.value.negative == (input[0] == '-')
      && |r.leftover| < |input|
    ensures r.tag == ERROR ==> r == Result(ERROR, None, input)
  {
    var sign := ParseChar('-', input);
    var negative := sign.tag == OK;
    var number := ParseNumber(sign.leftover);
    if number.tag == OK then
      Result(OK, Some(ConstantNode(negative, number.result.value.number)), number.leftover)
    else
      Result(ERROR, None, input)
  }

  /** Runs parser `p` on `input`. Every parser gives a consistent record whose
      leftover is no longer than its input, and a consuming parser that
      succeeds leaves strictly less. That the leftover is a suffix of the
      input is proved in module Leftovers, and the shape of the node in
      module Shapes. */
  function Parse(p: Parser, input: string): (r: Result)
    decreases |input|, Rank(p)
    ensures Consistent(r) && |r.leftover| <= |input|
    ensures r.tag == OK && Consuming(p) ==> |r.leftover| < |input|
  {
    match p
    case CharP(c) => ParseChar(c, input)
    case NumberP => ParseNumber(input)
    case ConstantExprP => ParseConstant(input)
    case BinaryExprP => ParseBinary(input)
    case ExprP => ParseExpression(input)
    case ChoiceP(ps) => ParseChoice(ps, input)
    case SequenceP(ps) => ParseSequence(ps, input)
  }

  /** Ordered choice: every alternative is tried on the original input, the
      first success is returned as it is, and if none succeeds the result is
      a failure that gives back the original input. */
  function ParseChoice(ps: seq<Parser>, input: string): (r: Result)
    decreases |input|, ListRank(ps)
    ensures Consistent(r) && |r.leftover| <= |input|
    ensures r.tag == OK && AllConsuming(ps) ==> |r.leftover| < |input|
    ensures r.tag == ERROR ==> r == Result(ERROR, None, input)
  {
    if ps == [] then Result(ERROR, None, input)
    else
      var first := Parse(ps[0], input);
      if first.tag == OK then first
      else
        ParseChoice(ps[1..], input)
  }

  /** Ordered sequence: each step runs on the leftover of the one before. On
      full success the node is a SequenceNode with one child per step, in
      order, and the leftover is the last step's. The first step that fails
      ends the sequence, and its own record is returned as it is. */
  function ParseSequence(ps: seq<Parser>, input: string): (r: Result)
    decreases |input|, SeqRank(ps)
    ensures Consistent(r) && |r.leftover| <= |input|
    ensures r.tag == OK && SomeConsuming(ps) ==> |r.leftover| < |input|
    ensures r.tag == OK ==> r.result.value.SequenceNode? && |r.result.value.children| == |ps|
  {
    if ps == [] then Result(OK, Some(SequenceNode([])), input)
    else
      var first := Parse(ps[0], input);
      if first.tag == ERROR then first
      else
        var rest := ParseSequence(ps[1..], first.leftover);
        if rest.tag == ERROR then rest
        else Result(OK, Some(SequenceNode([first.result.value] + rest.result.value.children)), rest.leftover)
  }

  /** The binary-expression parser: '(' operand operator operand ')' as one
      sequence; on success the operands and the operator are taken from
      positions 1, 2 and 3 of the sequence, and any failure is reported as a
      failure that gives back the original input. */
  function ParseBinary(input: string): (r: Result)
    decreases |input|, 3
    ensures Consistent(r) && |r.leftover| <= |input|
    ensures r.tag == OK ==> |r.leftover| < |input| && r.result.value.BinaryNode?
    ensures r.tag == ERROR ==> r == Result(ERROR, None, input)
  {
    assert SeqRank(BinarySteps) == 2;
    var steps := ParseSequence(BinarySteps, input);
    if steps.tag == OK then
      assert Consuming(BinarySteps[0]);
      var items := steps.result.value.children;
      Result(OK, Some(BinaryNode(items[1], items[2], items[3])), steps.leftover)
    else
      Result(ERROR, None, input)
  }

  /** The top-level parser: a binary expression or a constant that must take
      the whole input. A parse that leaves text over becomes a failure that
      carries that text. */
  function ParseExpression(input: string): (r: Result)
    decreases |input|, 8
    ensures Consistent(r) && |r.leftover| <= |input|
    ensures r.tag == OK ==> r.leftover == [] && |input| > 0
    ensures r.tag == ERROR ==> r.result == None && (r.leftover == input || 0 < |r.leftover| < |input|)
  {
    assert ListRank(ExprAlternatives) == 7;
    var delegate := ParseChoice(ExprAlternatives, input);
    if |delegate.leftover| > 0 then Result(ERROR, None, delegate.leftover)
    else delegate
  }
}
