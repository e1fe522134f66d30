/** The shapes of parse trees: what node a successful parse of each parser
    produces. A character parser gives that character, a constant parser a
    constant, a binary-expression parser a well-formed binary expression
    tree, a choice the node of one of its alternatives and a sequence one
    node per step, each of its step's shape. */
module Shapes {
  import opened ParseResult
  import opened Primitives
  import opened Engine

  /** The shape of the node a successful parse of `p` produces. */
  predicate Produces(p: Parser, n: Node) {
    match p
    case CharP(c) => n == CharNode(c)
    case NumberP => n.NumberNode?
    case ConstantExprP => n.ConstantNode?
    case BinaryExprP => n.BinaryNode? && IsExpr(n)
    case ExprP => IsExpr(n)
    case ChoiceP(ps) => ProducesOneOf(ps, n)
    case SequenceP(ps) => n.SequenceNode? && ProducesEach(ps, n.children)
  }

  /** `n` has the shape of one of the alternatives `ps`. */
  predicate ProducesOneOf(ps: seq<Parser>, n: Node) {
    ps != [] && (Produces(ps[0], n) || ProducesOneOf(ps[1..], n))
  }

  /** `ns` has one node per step of `ps`, each of the shape of its step. */
  predicate ProducesEach(ps: seq<Parser>, ns: seq<Node>) {
    |ps| == |ns| && (ps == [] || (Produces(ps[0], ns[0]) && ProducesEach(ps[1..], ns[1..])))
  }

  lemma {:induction false} ProducesEachAt(ps: seq<Parser>, ns: seq<Node>, i: nat)
    requires ProducesEach(ps, ns) && i < |ps|
    ensures Produces(ps[i], ns[i])
  {
    if i > 0 {
      ProducesEachAt(ps[1..], ns[1..], i - 1);
    }
  }

  /** A node of one of the expression alternatives (constant or binary
      expression, in either order) is an expression tree. */
  lemma ExprAlternativeIsExpr(ps: seq<Parser>, n: Node)
    requires ps == [ConstantExprP, BinaryExprP] || ps == [BinaryExprP, ConstantExprP]
    requires ProducesOneOf(ps, n)
    ensures IsExpr(n)
  {
    if !Produces(ps[0], n) {
      assert ProducesOneOf(ps[1..], n);
      assert ps[1..][1..] == [] && !ProducesOneOf([], n);
      assert Produces(ps[1..][0], n);
    }
  }

  lemma OperatorIsOperatorChar(n: Node)
    requires Produces(Operator, n)
    ensures n.CharNode? && IsOperator(n.ch)
  {
    var ps := [CharP('+'), CharP('-'), CharP('*')];
    assert ProducesOneOf(ps, n);
    if !Produces(ps[0], n) {
      assert ProducesOneOf(ps[1..], n);
      if !Produces(ps[1..][0], n) {
        assert ProducesOneOf(ps[1..][1..], n);
        assert ps[1..][1..][1..] == [] && !ProducesOneOf([], n);
        assert Produces(ps[1..][1..][0], n);
      }
    }
  }

  /** Every successful parse produces a node of the shape its parser
      promises. */
  lemma {:induction false} ParseShape(p: Parser, input: string)
    decreases |input|, Rank(p)
    ensures Parse(p, input).tag == OK ==> Produces(p, Parse(p, input).result.value)
  {
    match p
    case CharP(c) =>
    case NumberP =>
    case ConstantExprP =>
    case BinaryExprP => BinaryShape(input);
    case ExprP => ExpressionShape(input);
    case ChoiceP(ps) => ChoiceShape(ps, input);
    case SequenceP(ps) => SequenceShape(ps, input);
  }

  /** A successful choice returns the node of one of its alternatives. */
  lemma {:induction false} ChoiceShape(ps: seq<Parser>, input: string)
    decreases |input|, ListRank(ps)
    ensures ParseChoice(ps, input).tag == OK ==> ProducesOneOf(ps, ParseChoice(ps, input).result.value)
  {
    if ps != [] {
      ParseShape(ps[0], input);
      if Parse(ps[0], input).tag == ERROR {
        ChoiceShape(ps[1..], input);
      }
    }
  }

  /** A successful sequence returns one node per step, each of the shape of
      its step. */
  lemma {:induction false} SequenceShape(ps: seq<Parser>, input: string)
    decreases |input|, SeqRank(ps)
    ensures ParseSequence(ps, input).tag == OK ==> ProducesEach(ps, ParseSequence(ps, input).result.value.children)
  {
    if ps != [] {
      var first := Parse(ps[0], input);
      ParseShape(ps[0], input);
      if first.tag == OK {
        var rest := ParseSequence(ps[1..], first.leftover);
        SequenceShape(ps[1..], first.leftover);
        if rest.tag == OK {
          var children := [first.result.value] + rest.result.value.children;
          assert children[0] == first.result.value && children[1..] == rest.result.value.children;
        }
      }
    }
  }

  /** A successful binary-expression parse returns a well-formed expression
      tree: its operands are expression trees and its operator is + - or *. */
  lemma {:induction false} BinaryShape(input: string)
    decreases |input|, 3
    ensures ParseBinary(input).tag == OK ==> IsExpr(ParseBinary(input).result.value)
  {
    assert SeqRank(BinarySteps) == 2;
    var steps := ParseSequence(BinarySteps, input);
    SequenceShape(BinarySteps, input);
    if steps.tag == OK {
      var items := steps.result.value.children;
      ProducesEachAt(BinarySteps, items, 1);
      ProducesEachAt(BinarySteps, items, 2);
      ProducesEachAt(BinarySteps, items, 3);
      ExprAlternativeIsExpr([ConstantExprP, BinaryExprP], items[1]);
      OperatorIsOperatorChar(items[2]);
      ExprAlternativeIsExpr([ConstantExprP, BinaryExprP], items[3]);
    }
  }

  /** A successful top-level parse returns a well-formed expression tree. */
  lemma {:induction false} ExpressionShape(input: string)
    decreases |input|, 8
    ensures ParseExpression(input).tag == OK ==> IsExpr(ParseExpression(input).result.value)
  {
    assert ListRank(ExprAlternatives) == 7;
    var delegate := ParseChoice(ExprAlternatives, input);
    ChoiceShape(ExprAlternatives, input);
    if delegate.tag == OK {
      ExprAlternativeIsExpr(ExprAlternatives, delegate.result.value);
    }
  }

  /** A sequence succeeds only if its first step does. */
  lemma SequenceFirstStep(ps: seq<Parser>, input: string)
    requires ps != []
    ensures ParseSequence(ps, input).tag == OK ==> Parse(ps[0], input).tag == OK
  {
  }

  /** A binary expression starts with '('. */
  lemma BinaryStartsWithParen(input: string)
    ensures ParseBinary(input).tag == OK ==> |input| > 0 && input[0] == '('
  {
    SequenceFirstStep(BinarySteps, input);
    assert Parse(BinarySteps[0], input) == ParseChar('(', input);
  }
}
