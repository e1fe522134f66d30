/** The two combinators as the source runs them: loops over the list of
    parsers with an early return, each proved to compute the recursive
    definition in Engine, plus the laws of ordered choice and ordered
    sequence. */
module Combinators {
  import opened ParseResult
  import opened Engine

  /** Ordered choice is left-biased: the first alternative that succeeds on
      the input decides the result, verbatim, whatever the later ones would
      do. */
  lemma {:induction false} ChoiceFirstSuccess(ps: seq<Parser>, input: string, k: nat)
    requires k < |ps|
    requires forall j :: 0 <= j < k ==> Parse(ps[j], input).tag == ERROR
    requires Parse(ps[k], input).tag == OK
    ensures ParseChoice(ps, input) == Parse(ps[k], input)
  {
    if k > 0 {
      assert Parse(ps[0], input).tag == ERROR;
      forall j | 0 <= j < k - 1
        ensures Parse(ps[1..][j], input).tag == ERROR
      {
        assert ps[1..][j] == ps[j + 1];
      }
      assert ps[1..][k - 1] == ps[k];
      ChoiceFirstSuccess(ps[1..], input, k - 1);
    }
  }

  /** A choice parser runs ordered choice over its alternatives. */
  lemma ChoiceParser(ps: seq<Parser>, input: string)
    ensures Parse(ChoiceP(ps), input) == ParseChoice(ps, input)
  {
  }

  /** The grammar parsers as parser values run their own functions. */
  lemma ConstantParser(input: string)
    ensures Parse(ConstantExprP, input) == ParseConstant(input)
  {
  }

  lemma BinaryParser(input: string)
    ensures Parse(BinaryExprP, input) == ParseBinary(input)
  {
  }

  /** Ordered choice between two alternatives, written out. */
  lemma ChoiceOfTwo(p: Parser, q: Parser, input: string)
    ensures ParseChoice([p, q], input)
      == if Parse(p, input).tag == OK then Parse(p, input)
         else if Parse(q, input).tag == OK then Parse(q, input)
         else Result(ERROR, None, input)
  {
    assert [p, q][0] == p && [p, q][1..] == [q];
    assert [q][0] == q && [q][1..] == [];
    assert ParseChoice([q], input)
      == if Parse(q, input).tag == OK then Parse(q, input) else ParseChoice([], input);
  }

  /** Ordered choice fails exactly when every alternative fails on the input,
      and then it gives the input back. */
  lemma {:induction false} ChoiceFailsIffAllFail(ps: seq<Parser>, input: string)
    ensures ParseChoice(ps, input).tag == ERROR <==>
      forall j :: 0 <= j < |ps| ==> Parse(ps[j], input).tag == ERROR
    ensures ParseChoice(ps, input).tag == ERROR ==> ParseChoice(ps, input) == Result(ERROR, None, input)
  {
    if ps != [] {
      ChoiceFailsIffAllFail(ps[1..], input);
      assert forall j :: 1 <= j < |ps| ==> ps[1..][j - 1] == ps[j];
    }
  }

  /** An alternative that fails is passed over. */
  lemma ChoiceSkip(p: Parser, ps: seq<Parser>, input: string)
    requires Parse(p, input).tag == ERROR
    ensures ParseChoice([p] + ps, input) == ParseChoice(ps, input)
  {
    ConsParts(p, ps);
  }

  /** One step of the choice loop: the alternatives from `k` on decide as
      alternative `k` does if it succeeds, else as the ones after it. */
  lemma ChoiceStep(ps: seq<Parser>, k: nat, input: string)
    requires k < |ps|
    ensures ParseChoice(ps[k..], input)
      == if Parse(ps[k], input).tag == OK then Parse(ps[k], input) else ParseChoice(ps[k + 1..], input)
  {
    assert ps[k..][0] == ps[k];
    assert ps[k..][1..] == ps[k + 1..];
  }

  /** The choice combinator's loop: try each parser on the original input and
      return the first success. What that result is, is stated of ParseChoice
      by ChoiceFirstSuccess and ChoiceFailsIffAllFail. */
  method RunChoice(parsers: seq<Parser>, input: string) returns (r: Result)
    ensures r == ParseChoice(parsers, input)
  {
    assert parsers[0..] == parsers;
    for k := 0 to |parsers|
      invariant ParseChoice(parsers[k..], input) == ParseChoice(parsers, input)
    {
      ChoiceStep(parsers, k, input);
      var result := Parse(parsers[k], input);
      if result.tag == OK {
        return result;
      }
    }
    assert parsers[|parsers|..] == [];
    return Result(ERROR, None, input);
  }

  /** A sequence whose first step succeeds and whose remaining steps
      succeed after it. */
  lemma SequenceCons(p: Parser, ps: seq<Parser>, input: string, n: Node, next: string, later: seq<Node>, rest: string)
    requires Parse(p, input) == Result(OK, Some(n), next)
    requires ParseSequence(ps, next) == Result(OK, Some(SequenceNode(later)), rest)
    ensures ParseSequence([p] + ps, input) == Result(OK, Some(SequenceNode([n] + later)), rest)
  {
    ConsParts(p, ps);
  }

  lemma ConsParts<T>(x: T, xs: seq<T>)
    ensures ([x] + xs)[0] == x && ([x] + xs)[1..] == xs
  {
  }

  /** A sequence whose first step fails, or whose later step fails, fails
      with the record of the step that failed. */
  lemma SequenceFailsAtFirst(p: Parser, ps: seq<Parser>, input: string)
    requires Parse(p, input).tag == ERROR
    ensures ParseSequence([p] + ps, input) == Parse(p, input)
  {
    ConsParts(p, ps);
  }

  lemma SequenceFailsLater(p: Parser, ps: seq<Parser>, input: string, n: Node, next: string)
    requires Parse(p, input) == Result(OK, Some(n), next)
    requires ParseSequence(ps, next).tag == ERROR
    ensures ParseSequence([p] + ps, input) == ParseSequence(ps, next)
  {
    ConsParts(p, ps);
  }

  /** `r` with the children `prefix` put in front of its sequence node, if it
      is a successful sequence record; any other record is left as it is. */
  function Prepend(prefix: seq<Node>, r: Result): Result {
    if r.tag == OK && r.result.Some? && r.result.value.SequenceNode? then
      Result(OK, Some(SequenceNode(prefix + r.result.value.children)), r.leftover)
    else r
  }

  /** One step of a sequence, after the nodes `done` of the earlier steps: a
      step that fails ends the sequence with its own record; a step that
      succeeds adds its node to `done` and hands its leftover on. */
  lemma SequenceStep(ps: seq<Parser>, k: nat, done: seq<Node>, input: string)
    requires k < |ps|
    ensures Parse(ps[k], input).tag == ERROR ==>
      Prepend(done, ParseSequence(ps[k..], input)) == Parse(ps[k], input)
    ensures Parse(ps[k], input).tag == OK ==>
      Prepend(done, ParseSequence(ps[k..], input))
      == Prepend(done + [Parse(ps[k], input).result.value], ParseSequence(ps[k + 1..], Parse(ps[k], input).leftover))
  {
    assert ps[k..][0] == ps[k];
    assert ps[k..][1..] == ps[k + 1..];
    var first := Parse(ps[k], input);
    if first.tag == OK {
      var rest := ParseSequence(ps[k + 1..], first.leftover);
      if rest.tag == OK {
        assert done + ([first.result.value] + rest.result.value.children)
          == (done + [first.result.value]) + rest.result.value.children;
      }
    }
  }

  /** Before the first step nothing has been collected. */
  lemma SequenceStart(ps: seq<Parser>, input: string)
    ensures Prepend([], ParseSequence(ps[0..], input)) == ParseSequence(ps, input)
  {
    assert ps[0..] == ps;
    var whole := ParseSequence(ps, input);
    if whole.tag == OK {
      assert [] + whole.result.value.children == whole.result.value.children;
    }
  }

  /** After the last step the collected nodes are the whole sequence. */
  lemma SequenceEnd(ps: seq<Parser>, done: seq<Node>, input: string)
    ensures Prepend(done, ParseSequence(ps[|ps|..], input)) == Result(OK, Some(SequenceNode(done)), input)
  {
    assert ps[|ps|..] == [];
    assert done + [] == done;
  }

  /** The sequence combinator's loop: thread each leftover into the next
      parser, collect the nodes, and return the first failure as it is. */
  method RunSequence(parsers: seq<Parser>, input: string) returns (r: Result)
    ensures r == ParseSequence(parsers, input)
  {
    var results: seq<Node> := [];
    var previous := Result(OK, None, input);
    SequenceStart(parsers, input);
    for k := 0 to |parsers|
      invariant ParseSequence(parsers, input) == Prepend(results, ParseSequence(parsers[k..], previous.leftover))
    {
      var result := Parse(parsers[k], previous.leftover);
      SequenceStep(parsers, k, results, previous.leftover);
      if result.tag == ERROR {
        return result;
      }
      results := results + [result.result.value];
      previous := result;
    }
    SequenceEnd(parsers, results, previous.leftover);
    return Result(OK, Some(SequenceNode(results)), previous.leftover);
  }
}
