/** The behaviour the repository's own test suite expects of each parser,
    stated as lemmas about the model: the same inputs, and the same tag, node
    and leftover. */
module Scenarios {
  import opened ParseResult
  import opened Primitives
  import opened Engine
  import opened Combinators
  import opened Shapes
  import opened RoundTrip
  import opened Leftovers

  /** The decimal texts the scenarios use. */
  lemma SmallNumbers()
    ensures DecimalString(1) == "1" && DecimalString(2) == "2" && DecimalString(3) == "3"
    ensures DecimalString(4) == "4" && DecimalString(5) == "5" && DecimalString(6) == "6"
    ensures DecimalString(123) == "123"
  {
    assert DecimalString(12) == DecimalString(1) + [DigitChar(2)];
    assert DecimalString(123) == DecimalString(12) + [DigitChar(3)];
  }

  /** The character parser for 'a' on "abc", "a" and "bc". */
  lemma CharScenarios()
    ensures ParseChar('a', "abc") == Result(OK, Some(CharNode('a')), "bc")
    ensures ParseChar('a', "a") == Result(OK, Some(CharNode('a')), "")
    ensures ParseChar('a', "bc") == Result(ERROR, None, "bc")
  {
    assert "abc"[1..] == "bc";
    assert "a"[1..] == "";
  }

  /** The number parser reads "123" and "123abc", and rejects "abc", "abc123"
      and "-123", giving them back. */
  lemma NumberScenarios()
    ensures ParseNumber("123") == Result(OK, Some(NumberNode(123)), "")
    ensures ParseNumber("123abc") == Result(OK, Some(NumberNode(123)), "abc")
    ensures ParseNumber("abc") == Result(ERROR, None, "abc")
    ensures ParseNumber("abc123") == Result(ERROR, None, "abc123")
    ensures ParseNumber("-123") == Result(ERROR, None, "-123")
  {
    SmallNumbers();
    assert "123" == DecimalString(123) + "";
    assert "123abc" == DecimalString(123) + "abc";
    NumberRoundTrip(123, "");
    NumberRoundTrip(123, "abc");
  }

  /** Choice of 'a', 'b' and 'c' takes the first that matches, and gives
      back an input that none matches. */
  lemma ChoiceScenarios()
    ensures ParseChoice([CharP('a'), CharP('b'), CharP('c')], "abc") == Result(OK, Some(CharNode('a')), "bc")
    ensures ParseChoice([CharP('a'), CharP('b'), CharP('c')], "a") == Result(OK, Some(CharNode('a')), "")
    ensures ParseChoice([CharP('a'), CharP('b'), CharP('c')], "bca") == Result(OK, Some(CharNode('b')), "ca")
    ensures ParseChoice([CharP('a'), CharP('b'), CharP('c')], "da") == Result(ERROR, None, "da")
  {
    assert "abc" == ['a'] + "bc" && "a" == ['a'] + "" && "bca" == ['b'] + "ca";
    CharChoiceFirst('a', 'b', 'c', "bc");
    CharChoiceFirst('a', 'b', 'c', "");
    CharChoiceSecond('a', 'b', 'c', "ca");
    CharChoiceNone('a', 'b', 'c', "da");
  }

  /** Choice among three character parsers: the first alternative wins on
      its character, the second on its own when the first does not match,
      and an input that none matches is given back. */
  lemma CharChoiceFirst(a: char, b: char, c: char, rest: string)
    ensures ParseChoice([CharP(a), CharP(b), CharP(c)], [a] + rest) == Result(OK, Some(CharNode(a)), rest)
  {
    assert ([a] + rest)[0] == a && ([a] + rest)[1..] == rest;
    ChoiceFirstSuccess([CharP(a), CharP(b), CharP(c)], [a] + rest, 0);
  }

  lemma CharChoiceSecond(a: char, b: char, c: char, rest: string)
    requires a != b
    ensures ParseChoice([CharP(a), CharP(b), CharP(c)], [b] + rest) == Result(OK, Some(CharNode(b)), rest)
  {
    assert ([b] + rest)[0] == b && ([b] + rest)[1..] == rest;
    ChoiceFirstSuccess([CharP(a), CharP(b), CharP(c)], [b] + rest, 1);
  }

  lemma CharChoiceNone(a: char, b: char, c: char, input: string)
    requires input == [] || (input[0] != a && input[0] != b && input[0] != c)
    ensures ParseChoice([CharP(a), CharP(b), CharP(c)], input) == Result(ERROR, None, input)
  {
    assert [CharP(a), CharP(b), CharP(c)] == [CharP(a)] + ([CharP(b)] + ([CharP(c)] + []));
    ChoiceSkip(CharP(c), [], input);
    ChoiceSkip(CharP(b), [CharP(c)] + [], input);
    ChoiceSkip(CharP(a), [CharP(b)] + ([CharP(c)] + []), input);
  }

  // The step lists below are written as nested appends, `[x] + ([y] + [z])`,
  // rather than as displays `[x, y, z]`: that is the shape `SequenceCons`
  // takes apart one step at a time, so the solver never has to rewrite a
  // display into head and tail on its own.
  /** Sequence of 'a', 'b' and 'c': "abc" gives the three nodes in order; "a"
      fails where 'b' finds nothing; "bca" fails at once; "acc" fails where
      'b' meets "cc". */
  lemma SequenceScenarios()
    ensures ParseSequence([CharP('a')] + ([CharP('b')] + [CharP('c')]), "abc")
      == Result(OK, Some(SequenceNode([CharNode('a')] + ([CharNode('b')] + [CharNode('c')]))), "")
    ensures ParseSequence([CharP('a')] + ([CharP('b')] + [CharP('c')]), "a") == Result(ERROR, None, "")
    ensures ParseSequence([CharP('a')] + ([CharP('b')] + [CharP('c')]), "bca") == Result(ERROR, None, "bca")
    ensures ParseSequence([CharP('a')] + ([CharP('b')] + [CharP('c')]), "acc") == Result(ERROR, None, "cc")
  {
    assert "abc" == ['a'] + (['b'] + (['c'] + ""));
    assert "a" == ['a'] + "" && "acc" == ['a'] + "cc";
    CharSequence('a', 'b', 'c', "");
    CharSequenceSecondFails('a', 'b', 'c', "");
    CharSequenceFirstFails('a', 'b', 'c', "bca");
    CharSequenceSecondFails('a', 'b', 'c', "cc");
  }

  /** Sequence of three character parsers: their characters in order are
      read; a text not starting with the first fails at once, and one whose
      first character is not followed by the second fails after it. */
  lemma CharSequence(a: char, b: char, c: char, rest: string)
    ensures ParseSequence([CharP(a)] + ([CharP(b)] + [CharP(c)]), [a] + ([b] + ([c] + rest)))
      == Result(OK, Some(SequenceNode([CharNode(a)] + ([CharNode(b)] + [CharNode(c)]))), rest)
  {
    var s2 := [c] + rest;
    var s1 := [b] + s2;
    var s0 := [a] + s1;
    assert s2[0] == c && s2[1..] == rest;
    assert s1[0] == b && s1[1..] == s2;
    assert s0[0] == a && s0[1..] == s1;
    ParseSequence3(CharP(a), CharP(b), CharP(c), s0, s1, s2, rest, CharNode(a), CharNode(b), CharNode(c));
  }

  lemma ParseSequence3(p0: Parser, p1: Parser, p2: Parser, s0: string, s1: string, s2: string, rest: string,
                       n0: Node, n1: Node, n2: Node)
    requires Parse(p0, s0) == Result(OK, Some(n0), s1)
    requires Parse(p1, s1) == Result(OK, Some(n1), s2)
    requires Parse(p2, s2) == Result(OK, Some(n2), rest)
    ensures ParseSequence([p0] + ([p1] + [p2]), s0) == Result(OK, Some(SequenceNode([n0] + ([n1] + [n2]))), rest)
  {
    assert [p2] + [] == [p2] && [n2] + [] == [n2];
    SequenceCons(p2, [], s2, n2, rest, [], rest);
    SequenceCons(p1, [p2], s1, n1, s2, [n2], rest);
    SequenceCons(p0, [p1] + [p2], s0, n0, s1, [n1] + [n2], rest);
  }

  lemma CharSequenceFirstFails(a: char, b: char, c: char, input: string)
    requires input == [] || input[0] != a
    ensures ParseSequence([CharP(a)] + ([CharP(b)] + [CharP(c)]), input) == Result(ERROR, None, input)
  {
    SequenceFailsAtFirst(CharP(a), [CharP(b)] + [CharP(c)], input);
  }

  lemma CharSequenceSecondFails(a: char, b: char, c: char, rest: string)
    requires rest == [] || rest[0] != b
    ensures ParseSequence([CharP(a)] + ([CharP(b)] + [CharP(c)]), [a] + rest) == Result(ERROR, None, rest)
  {
    var s := [a] + rest;
    assert s[0] == a && s[1..] == rest;
    assert Parse(CharP(a), s) == Result(OK, Some(CharNode(a)), rest);
    assert Parse(CharP(b), rest) == Result(ERROR, None, rest);
    SequenceFailsAtFirst(CharP(b), [CharP(c)], rest);
    SequenceFailsLater(CharP(a), [CharP(b)] + [CharP(c)], [a] + rest, CharNode(a), rest);
  }

  /** The constant parser on unsigned and signed numbers, with and without
      text after them. */
  lemma ConstantScenarios()
    ensures ParseConstant("123") == Result(OK, Some(ConstantNode(false, 123)), "")
    ensures ParseConstant("123abc") == Result(OK, Some(ConstantNode(false, 123)), "abc")
    ensures ParseConstant("-123") == Result(OK, Some(ConstantNode(true, 123)), "")
    ensures ParseConstant("-123abc") == Result(OK, Some(ConstantNode(true, 123)), "abc")
  {
    SmallNumbers();
    assert "123" == Unparse(ConstantNode(false, 123)) + "";
    assert "123abc" == Unparse(ConstantNode(false, 123)) + "abc";
    assert "-123" == Unparse(ConstantNode(true, 123)) + "";
    assert "-123abc" == Unparse(ConstantNode(true, 123)) + "abc";
    ConstantRoundTrip(false, 123, "");
    ConstantRoundTrip(false, 123, "abc");
    ConstantRoundTrip(true, 123, "");
    ConstantRoundTrip(true, 123, "abc");
  }

  /** The constant parser rejects a text without a number, and a '-' not
      followed by a digit is given back with the rest. */
  lemma ConstantRejections()
    ensures ParseConstant("abc") == Result(ERROR, None, "abc")
    ensures ParseConstant("-abc123") == Result(ERROR, None, "-abc123")
  {
  }

  /** (1+2), as a tree. */
  function OnePlusTwo(): Node {
    BinaryNode(ConstantNode(false, 1), CharNode('+'), ConstantNode(false, 2))
  }

  lemma OnePlusTwoText()
    ensures IsExpr(OnePlusTwo()) && Unparse(OnePlusTwo()) == "(1+2)"
  {
    SmallNumbers();
  }

  /** The binary parser reads "(1+2)" and "(1+-2)", and leaves "))" of
      "(1+2)))". */
  lemma BinaryScenarios()
    ensures ParseBinary("(1+2)") == Result(OK, Some(OnePlusTwo()), "")
    ensures ParseBinary("(1+2)))") == Result(OK, Some(OnePlusTwo()), "))")
    ensures ParseBinary("(1+-2)")
      == Result(OK, Some(BinaryNode(ConstantNode(false, 1), CharNode('+'), ConstantNode(true, 2))), "")
  {
    OnePlusTwoText();
    assert "(1+2)" == Unparse(OnePlusTwo()) + "";
    assert "(1+2)))" == Unparse(OnePlusTwo()) + "))";
    BinaryRoundTrip(OnePlusTwo(), "");
    BinaryRoundTrip(OnePlusTwo(), "))");
    var signed := BinaryNode(ConstantNode(false, 1), CharNode('+'), ConstantNode(true, 2));
    SmallNumbers();
    assert "(1+-2)" == Unparse(signed) + "";
    BinaryRoundTrip(signed, "");
  }

  /** The binary parser rejects text that does not start with '(' and a
      binary expression without its ')', giving back the whole input. */
  lemma BinaryRejections()
    ensures ParseBinary("1+2") == Result(ERROR, None, "1+2")
    ensures ParseBinary("1+2)") == Result(ERROR, None, "1+2)")
    ensures ParseBinary("(1+2") == Result(ERROR, None, "(1+2")
  {
    BinaryStartsWithParen("1+2");
    BinaryStartsWithParen("1+2)");
    UnclosedBinary();
  }

  lemma UnclosedBinary()
    ensures ParseBinary("(1+2").tag == ERROR
  {
    SmallNumbers();
    var s0, s1, s2, s3, s4 := "(1+2", "1+2", "+2", "2", "";
    assert s0[0] == '(' && s0[1..] == s1;
    assert s1 == Unparse(ConstantNode(false, 1)) + s2;
    assert s2 == [CharNode('+').ch] + s3;
    assert s3 == Unparse(ConstantNode(false, 2)) + s4;
    OperandRoundTrip(ConstantNode(false, 1), s2);
    OperatorRoundTrip(CharNode('+'), s3);
    OperandRoundTrip(ConstantNode(false, 2), s4);
    var close, second, op, first, open := CharP(')'), Operand, Operator, Operand, CharP('(');
    NestFive(open, first, op, second, close);
    SequenceFailsAtFirst(close, [], s4);
    SequenceFailsLater(second, [close] + [], s3, ConstantNode(false, 2), s4);
    SequenceFailsLater(op, [second] + ([close] + []), s2, CharNode('+'), s3);
    SequenceFailsLater(first, [op] + ([second] + ([close] + [])), s1, ConstantNode(false, 1), s2);
    SequenceFailsLater(open, [first] + ([op] + ([second] + ([close] + []))), s0, CharNode('('), s1);
  }

  /** ((1+2)*(-3+4)) and (5*-6), as trees. */
  function Product(): Node {
    BinaryNode(OnePlusTwo(), CharNode('*'), BinaryNode(ConstantNode(true, 3), CharNode('+'), ConstantNode(false, 4)))
  }

  function Quotient(): Node {
    BinaryNode(ConstantNode(false, 5), CharNode('*'), ConstantNode(true, 6))
  }

  lemma ProductText()
    ensures IsExpr(Product()) && Unparse(Product()) == "((1+2)*(-3+4))"
  {
    SmallNumbers();
    OnePlusTwoText();
    assert Unparse(BinaryNode(ConstantNode(true, 3), CharNode('+'), ConstantNode(false, 4))) == "(-3+4)";
  }

  lemma QuotientText()
    ensures IsExpr(Quotient()) && Unparse(Quotient()) == "(5*-6)"
  {
    SmallNumbers();
  }

  /** The binary parser reads a deeply nested expression. */
  lemma NestedScenario()
    ensures ParseBinary("(((1+2)*(-3+4))-(5*-6))")
      == Result(OK, Some(BinaryNode(Product(), CharNode('-'), Quotient())), "")
  {
    ProductText();
    QuotientText();
    var e := BinaryNode(Product(), CharNode('-'), Quotient());
    assert Unparse(e) == "(" + "((1+2)*(-3+4))" + "-" + "(5*-6)" + ")";
    assert "(((1+2)*(-3+4))-(5*-6))" == Unparse(e) + "";
    BinaryRoundTrip(e, "");
  }

  /** The top-level parser accepts "(1+2)", "1" and "-123" whole, and
      reports the text left after the expression otherwise. */
  lemma ExpressionScenarios()
    ensures ParseExpression("(1+2)") == Result(OK, Some(OnePlusTwo()), "")
    ensures ParseExpression("1") == Result(OK, Some(ConstantNode(false, 1)), "")
    ensures ParseExpression("-123") == Result(OK, Some(ConstantNode(true, 123)), "")
    ensures ParseExpression("1+2") == Result(ERROR, None, "+2")
    ensures ParseExpression("(1+2))") == Result(ERROR, None, ")")
    ensures ParseExpression("1(1+2)") == Result(ERROR, None, "(1+2)")
  {
    SmallNumbers();
    OnePlusTwoText();
    assert "(1+2)" == Unparse(OnePlusTwo()) + "";
    assert "(1+2))" == Unparse(OnePlusTwo()) + ")";
    assert "1" == Unparse(ConstantNode(false, 1)) + "";
    assert "-123" == Unparse(ConstantNode(true, 123)) + "";
    assert "1+2" == Unparse(ConstantNode(false, 1)) + "+2";
    assert "1(1+2)" == Unparse(ConstantNode(false, 1)) + "(1+2)";
    ExpressionRoundTrip(OnePlusTwo(), "");
    ExpressionRoundTrip(OnePlusTwo(), ")");
    ExpressionRoundTrip(ConstantNode(false, 1), "");
    ExpressionRoundTrip(ConstantNode(true, 123), "");
    ExpressionRoundTrip(ConstantNode(false, 1), "+2");
    ExpressionRoundTrip(ConstantNode(false, 1), "(1+2)");
  }

  /** Text that no printer produces: "01+2" is read as the constant 1 with
      "+2" left over, so the top-level parser fails carrying "+2". */
  lemma LeadingZeroScenario()
    ensures ParseExpression("01+2") == Result(ERROR, None, "+2")
  {
    var input := "01+2";
    assert DigitRun(input) == 2 by {
      assert input[1..] == "1+2" && input[1..][1..] == "+2";
    }
    assert input[2..] == "+2";
    assert ParseNumber(input).leftover == "+2";
    assert input[0..] == input;
    ConstantDelegates(input);
    BinaryStartsWithParen(input);
    ExpressionCarriesRemainder(input);
  }
}
