/** The readable form of parse trees: a character as itself, a number in
    decimal, a constant as "Constant expression " and its signed value on one
    line, and a binary expression as a header, '(' on its own line, both
    operands indented by one tab, the operator on a tabbed line and ')' on the
    last line. */
module Rendering {
  import opened ParseResult
  import opened Primitives
  import opened Engine
  import opened RoundTrip

  /** The nodes that have a readable form of their own: everything but the
      sequence scaffold, with a character as the operator of a binary node. */
  predicate Renderable(n: Node) {
    match n
    case CharNode(_) => true
    case NumberNode(_) => true
    case ConstantNode(_, _) => true
    case BinaryNode(l, op, r) => Renderable(l) && op.CharNode? && Renderable(r)
    case SequenceNode(_) => false
  }

  /** The number of line breaks in `s`. */
  function NewlineCount(s: string): nat {
    if s == [] then 0 else (if s[0] == '\n' then 1 else 0) + NewlineCount(s[1..])
  }

  /** Line breaks add up over concatenation. */
  lemma {:induction false} CountAppend(a: string, b: string)
    ensures NewlineCount(a + b) == NewlineCount(a) + NewlineCount(b)
  {
    if a == [] {
      assert a + b == b;
    } else {
      assert (a + b)[0] == a[0] && (a + b)[1..] == a[1..] + b;
      CountAppend(a[1..], b);
    }
  }

  /** A text without '\n' has no line break. */
  lemma {:induction false} CountNone(s: string)
    requires '\n' !in s
    ensures NewlineCount(s) == 0
  {
    if s != [] {
      assert s == [s[0]] + s[1..];
      CountNone(s[1..]);
    }
  }

  /** The lines of `s`, split at every '\n'; the empty text is one empty
      line, and a text ending in '\n' ends with an empty line. */
  function Lines(s: string): (ls: seq<string>)
    ensures |ls| == NewlineCount(s) + 1
  {
    if s == [] then [""]
    else if s[0] == '\n' then [""] + Lines(s[1..])
    else
      var rest := Lines(s[1..]);
      [[s[0]] + rest[0]] + rest[1..]
  }

  /** Each line prefixed by a tab, joined with '\n'. */
  function JoinIndented(ls: seq<string>): string
    requires |ls| >= 1
  {
    "\t" + ls[0] + if |ls| == 1 then "" else "\n" + JoinIndented(ls[1..])
  }

  /** A text indented by one tab, line by line. */
  function Indent(s: string): string {
    JoinIndented(Lines(s))
  }

  /** The readable form of a node. */
  function Render(n: Node): string
    requires Renderable(n)
  {
    match n
    case CharNode(c) => [c]
    case NumberNode(v) => DecimalString(v)
    case ConstantNode(negative, v) => "Constant expression " + (if negative then "-" else "") + DecimalString(v)
    case BinaryNode(l, op, r) => BinaryLayout(Indent(Render(l)), Render(op), Indent(Render(r)))
  }

  /** The layout of a binary node around its indented operands and its
      operator: a header line, '(' on its own line, the left operand, the
      operator after a tab, the right operand and ')' on the last line. */
  function BinaryLayout(left: string, op: string, right: string): string {
    "Binary expression:\n" + "(\n" + left + "\n" + "\t" + op + "\n" + right + "\n" + ")"
  }

  /** Reference definition of indentation: a tab in front, and a tab after
      every '\n'. */
  function TabAfterNewlines(s: string): string {
    if s == [] then []
    else (if s[0] == '\n' then "\n\t" else [s[0]]) + TabAfterNewlines(s[1..])
  }

  /** Removes the tab after every "\n\t"; the inverse of TabAfterNewlines. */
  function DropTabAfterNewlines(s: string): string {
    if s == [] then []
    else if |s| >= 2 && s[0] == '\n' && s[1] == '\t' then "\n" + DropTabAfterNewlines(s[2..])
    else [s[0]] + DropTabAfterNewlines(s[1..])
  }

  /** Joining lines whose first line gained a character in front gives the
      same text with that character after the leading tab. */
  lemma JoinIndentedCons(c: char, ls: seq<string>)
    requires |ls| >= 1
    ensures JoinIndented([[c] + ls[0]] + ls[1..]) == "\t" + [c] + JoinIndented(ls)[1..]
  {
    var ms := [[c] + ls[0]] + ls[1..];
    assert |ms| == |ls| && ms[0] == [c] + ls[0] && ms[1..] == ls[1..];
    var tail := if |ls| == 1 then "" else "\n" + JoinIndented(ls[1..]);
    assert JoinIndented(ms) == "\t" + ([c] + ls[0]) + tail;
    assert JoinIndented(ls) == "\t" + ls[0] + tail;
    StringShift('\t', c, ls[0], tail);
  }

  lemma StringShift(t: char, c: char, a: string, b: string)
    ensures [t] + ([c] + a) + b == [t] + [c] + ([t] + a + b)[1..]
  {
    assert ([t] + a + b)[1..] == a + b;
  }

  /** Indenting line by line is the same as a leading tab and a tab after
      every newline. */
  lemma {:induction false} IndentIsTabAfterNewlines(s: string)
    ensures Indent(s) == "\t" + TabAfterNewlines(s)
  {
    if s != [] {
      IndentIsTabAfterNewlines(s[1..]);
      if s[0] == '\n' {
        IndentBreakStep(s);
      } else {
        IndentCharStep(s);
      }
    }
  }

  lemma IndentBreakStep(s: string)
    requires s != [] && s[0] == '\n'
    requires Indent(s[1..]) == "\t" + TabAfterNewlines(s[1..])
    ensures Indent(s) == "\t" + TabAfterNewlines(s)
  {
    var rest := Lines(s[1..]);
    var ms := [""] + rest;
    assert |ms| > 1 && ms[0] == "" && ms[1..] == rest;
    assert Lines(s) == ms;
    assert JoinIndented(ms) == "\t" + "" + "\n" + JoinIndented(rest);
    assert TabAfterNewlines(s) == "\n\t" + TabAfterNewlines(s[1..]);
  }

  lemma IndentCharStep(s: string)
    requires s != [] && s[0] != '\n'
    requires Indent(s[1..]) == "\t" + TabAfterNewlines(s[1..])
    ensures Indent(s) == "\t" + TabAfterNewlines(s)
  {
    LinesOfChar(s);
    JoinIndentedCons(s[0], Lines(s[1..]));
    ShiftTab(s[0], Indent(s[1..]), TabAfterNewlines(s[1..]));
  }

  /** A character other than '\n' joins the first line of the rest. */
  lemma LinesOfChar(s: string)
    requires s != [] && s[0] != '\n'
    ensures Lines(s) == [[s[0]] + Lines(s[1..])[0]] + Lines(s[1..])[1..]
    ensures TabAfterNewlines(s) == [s[0]] + TabAfterNewlines(s[1..])
  {
  }

  lemma ShiftTab(c: char, x: string, t: string)
    requires x == "\t" + t
    ensures "\t" + [c] + x[1..] == "\t" + ([c] + t)
  {
    assert x[1..] == t;
  }

  /** Indentation keeps the number of lines. */
  lemma {:induction false} TabAfterNewlinesCount(s: string)
    ensures NewlineCount(TabAfterNewlines(s)) == NewlineCount(s)
  {
    if s != [] {
      TabAfterNewlinesCount(s[1..]);
      var head: string := if s[0] == '\n' then "\n\t" else [s[0]];
      assert TabAfterNewlines(s) == head + TabAfterNewlines(s[1..]);
      CountAppend(head, TabAfterNewlines(s[1..]));
    }
  }

  /** Indentation can be undone: dropping the leading tab and the tab after
      every newline gives the text back. */
  lemma {:induction false} IndentRoundTrip(s: string)
    ensures |Indent(s)| >= 1 && DropTabAfterNewlines(Indent(s)[1..]) == s
  {
    IndentIsTabAfterNewlines(s);
    DropTabAfterNewlinesInverse(s);
  }

  lemma {:induction false} DropTabAfterNewlinesInverse(s: string)
    ensures DropTabAfterNewlines(TabAfterNewlines(s)) == s
  {
    if s != [] {
      DropTabAfterNewlinesInverse(s[1..]);
      var t := TabAfterNewlines(s);
      if s[0] == '\n' {
        assert t == "\n\t" + TabAfterNewlines(s[1..]);
        assert t[2..] == TabAfterNewlines(s[1..]);
      } else {
        assert t == [s[0]] + TabAfterNewlines(s[1..]);
        assert t[1..] == TabAfterNewlines(s[1..]);
      }
    }
  }

  /** The number of binary nodes in a tree. */
  function BinaryCount(n: Node): nat {
    match n
    case BinaryNode(l, _, r) => 1 + BinaryCount(l) + BinaryCount(r)
    case _ => 0
  }

  /** The decimal text of a number has no line break. */
  lemma {:induction false} DecimalStringOneLine(n: nat)
    ensures NewlineCount(DecimalString(n)) == 0
  {
    if n >= 10 {
      DecimalStringOneLine(n / 10);
      CountAppend(DecimalString(n / 10), [DigitChar(n % 10)]);
    }
  }

  /** Indenting a text keeps its line breaks. */
  lemma IndentCount(s: string)
    ensures NewlineCount(Indent(s)) == NewlineCount(s)
  {
    IndentIsTabAfterNewlines(s);
    TabAfterNewlinesCount(s);
  }

  /** The readable form of an expression tree has five more lines for every
      binary node: a constant is one line, and a binary node adds its header,
      '(', the operator and ')' to the lines of its two operands. */
  lemma {:induction false} RenderLineCount(e: Node)
    requires IsExpr(e)
    ensures Renderable(e)
    ensures |Lines(Render(e))| == 5 * BinaryCount(e) + 1
  {
    RenderNewlineCount(e);
  }

  lemma {:induction false} RenderNewlineCount(e: Node)
    requires IsExpr(e)
    ensures Renderable(e)
    ensures NewlineCount(Render(e)) == 5 * BinaryCount(e)
  {
    match e
    case ConstantNode(negative, v) =>
      ConstantNewlineCount(negative, v);
    case BinaryNode(l, op, r) =>
      RenderNewlineCount(l);
      RenderNewlineCount(r);
      BinaryNewlineCount(l, op, r);
  }

  /** A constant renders on one line. */
  lemma ConstantNewlineCount(negative: bool, v: nat)
    ensures NewlineCount(Render(ConstantNode(negative, v))) == 0
  {
    DecimalStringOneLine(v);
    ConstantLayoutCount(if negative then "-" else "", DecimalString(v));
  }

  /** A binary node renders with five line breaks more than its operands. */
  lemma BinaryNewlineCount(l: Node, op: Node, r: Node)
    requires Renderable(l) && Renderable(r) && op.CharNode? && IsOperator(op.ch)
    ensures Renderable(BinaryNode(l, op, r))
    ensures NewlineCount(Render(BinaryNode(l, op, r))) == 5 + NewlineCount(Render(l)) + NewlineCount(Render(r))
  {
    var left := Render(l);
    var right := Render(r);
    assert Render(op) == [op.ch];
    IndentCount(left);
    IndentCount(right);
    BinaryLayoutCount(Indent(left), op.ch, Indent(right));
    assert Render(BinaryNode(l, op, r)) == BinaryLayout(Indent(left), [op.ch], Indent(right));
  }

  /** The binary layout adds five line breaks to those of its operands. */
  lemma BinaryLayoutCount(left: string, op: char, right: string)
    requires op != '\n'
    ensures NewlineCount(BinaryLayout(left, [op], right)) == 5 + NewlineCount(left) + NewlineCount(right)
  {
    var p1 := "Binary expression:\n" + "(\n";
    var p2 := p1 + left;
    var p3 := p2 + "\n";
    var p4 := p3 + "\t";
    var p5 := p4 + [op];
    var p6 := p5 + "\n";
    var p7 := p6 + right;
    var p8 := p7 + "\n";
    assert BinaryLayout(left, [op], right) == p8 + ")";
    HeaderCount();
    BreakCounts(op);
    CountAppend("Binary expression:\n", "(\n");
    CountAppend(p1, left);
    CountAppend(p2, "\n");
    CountAppend(p3, "\t");
    CountAppend(p4, [op]);
    CountAppend(p5, "\n");
    CountAppend(p6, right);
    CountAppend(p7, "\n");
    CountAppend(p8, ")");
  }

  /** The short pieces of the layouts. */
  lemma BreakCounts(op: char)
    requires op != '\n'
    ensures NewlineCount("\n") == 1 && NewlineCount("(\n") == 1
    ensures NewlineCount("\t") == 0 && NewlineCount(")") == 0 && NewlineCount([op]) == 0
    ensures NewlineCount("-") == 0 && NewlineCount("") == 0
  {
    assert "(\n"[1..] == "\n";
  }

  /** The constant layout adds no line break to its sign and digits. */
  lemma ConstantLayoutCount(sign: string, digits: string)
    requires sign == "-" || sign == ""
    ensures NewlineCount("Constant expression " + sign + digits) == NewlineCount(digits)
  {
    LabelOneLine();
    BreakCounts(' ');
    CountAppend("Constant expression ", sign);
    CountAppend("Constant expression " + sign, digits);
  }

  lemma LabelOneLine()
    ensures NewlineCount("Constant expression ") == 0
  {
    LabelNoBreak();
    CountNone("Constant expression ");
  }

  // The facts about the literal labels are kept in lemmas of their own with
  // one ensures each: a fact about a string literal is cheap for the solver
  // alone, but expensive beside the count lemmas that use it.
  lemma LabelNoBreak()
    ensures '\n' !in "Constant expression "
  {
  }

  lemma HeaderCount()
    ensures NewlineCount("Binary expression:\n") == 1
  {
    HeaderSplit();
    HeaderOneLine();
    CountNone("Binary expression:");
    CountAppend("Binary expression:", "\n");
    BreakCounts(' ');
  }

  lemma HeaderSplit()
    ensures "Binary expression:\n" == "Binary expression:" + "\n"
  {
  }

  lemma HeaderOneLine()
    ensures '\n' !in "Binary expression:"
  {
  }

  /** The readable form of a constant is its label followed by the text the
      constant parser reads back as that same constant. */
  lemma ConstantRenderReadsBack(negative: bool, value: nat)
    ensures var text := Render(ConstantNode(negative, value));
      && |text| >= 20
      && text[..20] == "Constant expression "
      && ParseConstant(text[20..]) == Result(OK, Some(ConstantNode(negative, value)), [])
  {
    var text := Render(ConstantNode(negative, value));
    var printed := Unparse(ConstantNode(negative, value));
    assert text == "Constant expression " + printed;
    assert printed + [] == printed;
    ConstantRoundTrip(negative, value, []);
  }

  /** The readable form of a number is the text the number parser reads back
      as that number. */
  lemma NumberRenderReadsBack(value: nat)
    ensures ParseNumber(Render(NumberNode(value))) == Result(OK, Some(NumberNode(value)), [])
  {
    assert DecimalString(value) + [] == DecimalString(value);
    NumberRoundTrip(value, []);
  }
}
