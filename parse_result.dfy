/** The result model of the parser engine: the outcome tag, the parse-tree
    nodes and the record every parser returns. */
module ParseResult {

  /** The outcome of one parse attempt. */
  datatype Tag = OK | ERROR

  /** Optional value: a parse record carries a node only on success. */
  datatype Option<+T> = None | Some(value: T)

  /** The closed family of parse-tree nodes.
      - CharNode: the character a character parser matched;
      - NumberNode: the value of a run of decimal digits;
      - ConstantNode: a signed literal kept as (sign, magnitude), so that "-0"
        is kept apart from "0";
      - BinaryNode: a parenthesised binary application; `op` is the CharNode
        of the operator;
      - SequenceNode: the scaffold the sequence combinator returns, one child
        per step. */
  datatype Node =
    | CharNode(ch: char)
    | NumberNode(number: nat)
    | ConstantNode(negative: bool, value: nat)
    | BinaryNode(left: Node, op: Node, right: Node)
    | SequenceNode(children: seq<Node>)

  /** The record every parser returns: the tag, the node (on success) and
      the part of the input that was not consumed. */
  datatype Result = Result(tag: Tag, result: Option<Node>, leftover: string)

  /** A record is consistent when it carries a node exactly when it is OK. */
  predicate Consistent(r: Result) {
    r.tag == OK <==> r.result.Some?
  }

  /** `t` is a suffix of `s`: what a parser leaves over is the tail of what it
      was given, never reordered or changed. */
  predicate IsSuffix(t: string, s: string) {
    |t| <= |s| && t == s[|s| - |t|..]
  }

  lemma SuffixReflexive(s: string)
    ensures IsSuffix(s, s)
  {
  }

  lemma SuffixTransitive(a: string, b: string, c: string)
    requires IsSuffix(a, b) && IsSuffix(b, c)
    ensures IsSuffix(a, c)
  {
    assert c[|c| - |b|..][|b| - |a|..] == c[|c| - |a|..];
  }

  /** The operator characters of a binary expression. */
  predicate IsOperator(c: char) {
    c == '+' || c == '-' || c == '*'
  }

  /** A well-formed expression tree: a constant, or a binary node whose
      operator is one of + - * and whose operands are expression trees. */
  predicate IsExpr(n: Node) {
    match n
    case ConstantNode(_, _) => true
    case BinaryNode(l, op, r) => IsExpr(l) && op.CharNode? && IsOperator(op.ch) && IsExpr(r)
    case _ => false
  }
}
