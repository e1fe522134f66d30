/** The grammar parsers against a printer: an expression tree printed in the
    grammar's concrete syntax is parsed back to the same tree, and the text
    after it is what is left over. */
module RoundTrip {
  import opened ParseResult
  import opened Primitives
  import opened Engine
  import opened Combinators
  import opened Shapes

  /** The concrete syntax of an expression tree: a constant as an optional
      '-' and its decimal digits, a binary node as '(' left op right ')'. */
  function Unparse(e: Node): string
    requires IsExpr(e)
  {
    match e
    case ConstantNode(negative, value) => (if negative then "-" else "") + DecimalString(value)
    case BinaryNode(l, op, r) => "(" + Unparse(l) + [op.ch] + Unparse(r) + ")"
  }

  /** The constant parser reads an optional '-' and hands the text after it
      to the number parser. */
  lemma ConstantOfSign(negative: bool, tail: string)
    requires tail == [] || tail[0] != '-'
    ensures ParseConstant((if negative then "-" else "") + tail)
      == var number := ParseNumber(tail);
         if number.tag == OK then Result(OK, Some(ConstantNode(negative, number.result.value.number)), number.leftover)
         else Result(ERROR, None, (if negative then "-" else "") + tail)
  {
    var input := (if negative then "-" else "") + tail;
    if negative {
      assert input[0] == '-' && input[1..] == tail;
    } else {
      assert input == tail;
    }
  }

  /** The constant parser reads back a printed constant, sign included. */
  lemma ConstantRoundTrip(negative: bool, value: nat, rest: string)
    requires rest == [] || !IsDigit(rest[0])
    ensures ParseConstant(Unparse(ConstantNode(negative, value)) + rest)
      == Result(OK, Some(ConstantNode(negative, value)), rest)
  {
    var digits := DecimalString(value);
    var sign: string := if negative then "-" else "";
    assert Unparse(ConstantNode(negative, value)) + rest == sign + (digits + rest);
    DecimalStringValue(value);
    assert (digits + rest)[0] == digits[0];
    NumberRoundTrip(value, rest);
    ConstantOfSign(negative, digits + rest);
  }

  /** The operator choice reads back a printed operator. */
  lemma OperatorRoundTrip(op: Node, rest: string)
    requires op.CharNode? && IsOperator(op.ch)
    ensures Parse(Operator, [op.ch] + rest) == Result(OK, Some(op), rest)
  {
    var alternatives := [CharP('+'), CharP('-'), CharP('*')];
    var k := if op.ch == '+' then 0 else if op.ch == '-' then 1 else 2;
    assert ([op.ch] + rest)[1..] == rest;
    ChoiceFirstSuccess(alternatives, [op.ch] + rest, k);
  }

  /** The operand choice tries a constant first, then a binary expression. */
  lemma OperandChoice(input: string)
    ensures Parse(Operand, input)
      == if ParseConstant(input).tag == OK then ParseConstant(input) else ParseBinary(input)
  {
    ConstantParser(input);
    BinaryParser(input);
    ChoiceParser([ConstantExprP, BinaryExprP], input);
    ChoiceOfTwo(ConstantExprP, BinaryExprP, input);
  }

  /** An operand (constant first, then binary expression) reads back a
      printed expression tree. A constant must not be followed by a digit,
      which would extend its number. */
  lemma {:induction false} OperandRoundTrip(e: Node, rest: string)
    requires IsExpr(e)
    requires e.ConstantNode? ==> rest == [] || !IsDigit(rest[0])
    ensures Parse(Operand, Unparse(e) + rest) == Result(OK, Some(e), rest)
    decreases e, 1
  {
    var input := Unparse(e) + rest;
    if e.ConstantNode? {
      ConstantRoundTrip(e.negative, e.value, rest);
    } else {
      assert input[0] == '(';
      BinaryRoundTrip(e, rest);
    }
    OperandChoice(input);
  }

  // The five steps are written as nested appends ending in `[]`, the shape
  // `SequenceCons` takes apart one step at a time; `NestFive` ties that shape
  // to the display `[a, b, c, d, e]` once, so no other proof has to.

  /** A five-element list written as nested single-element appends. */
  lemma NestFive<T>(a: T, b: T, c: T, d: T, e: T)
    ensures [a] + ([b] + ([c] + ([d] + ([e] + [])))) == [a, b, c, d, e]
  {
  }

  /** Five steps that succeed one after the other make a sequence that
      succeeds with their five nodes, in order. */
  lemma FiveSteps(p0: Parser, p1: Parser, p2: Parser, p3: Parser, p4: Parser,
                  s0: string, s1: string, s2: string, s3: string, s4: string, rest: string,
                  n0: Node, n1: Node, n2: Node, n3: Node, n4: Node)
    requires Parse(p0, s0) == Result(OK, Some(n0), s1)
    requires Parse(p1, s1) == Result(OK, Some(n1), s2)
    requires Parse(p2, s2) == Result(OK, Some(n2), s3)
    requires Parse(p3, s3) == Result(OK, Some(n3), s4)
    requires Parse(p4, s4) == Result(OK, Some(n4), rest)
    ensures ParseSequence([p0] + ([p1] + ([p2] + ([p3] + ([p4] + [])))), s0)
      == Result(OK, Some(SequenceNode([n0] + ([n1] + ([n2] + ([n3] + ([n4] + [])))))), rest)
  {
    SequenceCons(p4, [], s4, n4, rest, [], rest);
    SequenceCons(p3, [p4] + [], s3, n3, s4, [n4] + [], rest);
    SequenceCons(p2, [p3] + ([p4] + []), s2, n2, s3, [n3] + ([n4] + []), rest);
    SequenceCons(p1, [p2] + ([p3] + ([p4] + [])), s1, n1, s2, [n2] + ([n3] + ([n4] + [])), rest);
    SequenceCons(p0, [p1] + ([p2] + ([p3] + ([p4] + []))), s0, n0, s1, [n1] + ([n2] + ([n3] + ([n4] + []))), rest);
  }

  /** The five steps of a binary expression succeed one after the other,
      so the sequence succeeds with their five nodes. */
  lemma BinaryStepsSucceed(s0: string, s1: string, s2: string, s3: string, s4: string, rest: string,
                           l: Node, op: Node, r: Node)
    requires Parse(CharP('('), s0) == Result(OK, Some(CharNode('(')), s1)
    requires Parse(Operand, s1) == Result(OK, Some(l), s2)
    requires Parse(Operator, s2) == Result(OK, Some(op), s3)
    requires Parse(Operand, s3) == Result(OK, Some(r), s4)
    requires Parse(CharP(')'), s4) == Result(OK, Some(CharNode(')')), rest)
    ensures ParseSequence(BinarySteps, s0)
      == Result(OK, Some(SequenceNode([CharNode('('), l, op, r, CharNode(')')])), rest)
  {
    NestFive(CharP('('), Operand, Operator, Operand, CharP(')'));
    NestFive(CharNode('('), l, op, r, CharNode(')'));
    FiveSteps(CharP('('), Operand, Operator, Operand, CharP(')'), s0, s1, s2, s3, s4, rest,
              CharNode('('), l, op, r, CharNode(')'));
  }

  /** The binary-expression parser builds its node from positions 1, 2 and 3
      of a successful sequence. */
  lemma BinaryOfSteps(input: string, l: Node, op: Node, r: Node, rest: string)
    requires ParseSequence(BinarySteps, input)
      == Result(OK, Some(SequenceNode([CharNode('('), l, op, r, CharNode(')')])), rest)
    ensures ParseBinary(input) == Result(OK, Some(BinaryNode(l, op, r)), rest)
  {
  }

  /** The binary-expression parser reads back a printed binary node, and
      leaves over exactly the text after it, whatever that text is. */
  lemma {:induction false} BinaryRoundTrip(e: Node, rest: string)
    requires IsExpr(e) && e.BinaryNode?
    ensures ParseBinary(Unparse(e) + rest) == Result(OK, Some(e), rest)
    decreases e, 0
  {
    var l, op, r := e.left, e.op, e.right;
    var s4 := ")" + rest;
    var s3 := Unparse(r) + s4;
    var s2 := [op.ch] + s3;
    var s1 := Unparse(l) + s2;
    var s0 := "(" + s1;
    assert Unparse(e) + rest == s0;
    assert s4[0] == ')' && s4[1..] == rest;
    assert s2[0] == op.ch && s2[1..] == s3;
    assert s0[0] == '(' && s0[1..] == s1;
    OperandRoundTrip(r, s4);
    OperatorRoundTrip(op, s3);
    OperandRoundTrip(l, s2);
    BinaryStepsSucceed(s0, s1, s2, s3, s4, rest, l, op, r);
    BinaryOfSteps(s0, l, op, r, rest);
  }

  /** The top-level choice tries a binary expression first, then a constant. */
  lemma ExpressionChoice(input: string)
    ensures ParseChoice(ExprAlternatives, input)
      == if ParseBinary(input).tag == OK then ParseBinary(input)
         else if ParseConstant(input).tag == OK then ParseConstant(input)
         else Result(ERROR, None, input)
  {
    ConstantParser(input);
    BinaryParser(input);
    ChoiceOfTwo(BinaryExprP, ConstantExprP, input);
  }

  /** The top-level parser on any input: its delegate is the binary parser
      if that succeeds, else the constant parser. A delegate that succeeds
      and takes the whole input is returned as it is; one that leaves text
      over becomes a failure carrying that text; if both fail, the input is
      given back. */
  lemma ExpressionCarriesRemainder(input: string)
    ensures var b := ParseBinary(input);
      var c := ParseConstant(input);
      var d := if b.tag == OK then b else c;
      && (d.tag == OK ==>
            ParseExpression(input) == if d.leftover == [] then d else Result(ERROR, None, d.leftover))
      && (b.tag == ERROR && c.tag == ERROR ==> ParseExpression(input) == Result(ERROR, None, input))
  {
    ExpressionChoice(input);
  }

  /** The top-level parser accepts a printed expression tree and returns it;
      with text after it, it fails and carries that text. */
  lemma ExpressionRoundTrip(e: Node, rest: string)
    requires IsExpr(e)
    requires e.ConstantNode? ==> rest == [] || !IsDigit(rest[0])
    ensures ParseExpression(Unparse(e) + rest)
      == if rest == [] then Result(OK, Some(e), []) else Result(ERROR, None, rest)
  {
    var input := Unparse(e) + rest;
    if e.BinaryNode? {
      BinaryRoundTrip(e, rest);
    } else {
      assert input[0] != '(' by {
        if e.negative {
          assert input[0] == '-';
        } else {
          DecimalStringValue(e.value);
          assert input[0] == DecimalString(e.value)[0];
        }
      }
      BinaryStartsWithParen(input);
      ConstantRoundTrip(e.negative, e.value, rest);
    }
    ExpressionChoice(input);
  }
}
