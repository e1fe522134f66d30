# Parser combinators for parenthesised arithmetic, in Dafny

This project models the parser-combinator engine of `src/main/kotlin/Parser.kt`.
The engine parses fully parenthesised binary arithmetic over signed integer
constants, such as `(((1+2)*(-3+4))-(5*-6))`. The model covers these parts:

- **Result model** (module `ParseResult`). The tag `OK`/`ERROR`, the closed family of parse-tree nodes (character, number, constant, binary expression, sequence) and the record `Result(tag, result, leftover)`. The nullable node is an `Option`.
- **Primitive parsers** (module `Primitives`).
  - The character parser matches one given character.
  - The number parser greedily reads the maximal run of leading ASCII digits. It is modelled twice: as the function `ParseNumber`, and as the method `ScanNumber` with the source's `while` loop, proved equal to it.
- **Engine** (module `Engine`).
  - Every parser of the source is a value of the datatype `Parser`: one constructor per parser class, plus `ChoiceP` and `SequenceP` for the two combinators.
  - The interpreter is `Parse(p, input)`.
  - The grammar parsers (constant, binary expression, whole expression) call each other recursively. Recursion ends because the recursive binary-expression call happens only after `(` has been consumed. The measure is the input length first, then a rank of the parser.
- **Combinators** (module `Combinators`).
  - `choice` and `sequence` run as in the source, as loops with early return: `RunChoice` and `RunSequence`.
  - Each loop is proved to compute the recursive definitions `ParseChoice` and `ParseSequence`.
  - The laws of ordered choice and ordered sequence are proved there too.
- **Global invariants.**
  - Module `Leftovers`: every parser leaves over a suffix of its input.
  - Module `Shapes`: every parser returns the kind of node its grammar promises, and the binary and top-level parsers return well-formed expression trees.
- **Round trip** (module `RoundTrip`). `Unparse` prints an expression tree in the grammar's concrete syntax. What each parser makes of a printed tree followed by some text:
  - the operand choice (constant, else binary expression) reads back any printed tree and leaves over exactly the text that follows it, provided that text does not start with a digit when the tree is a constant (a digit would extend the constant's number: `1` followed by `2` reads as `12`);
  - the constant parser reads back printed constants, and the binary-expression parser printed binary trees, in the same way;
  - the top-level parser, under the same condition, accepts a printed tree only when nothing follows it; when text follows, it fails with no tree and carries that text as its leftover.
- **Readable form** (module `Rendering`). `readableForm` is modelled as `Render`, with these properties proved:
  - indentation can be undone;
  - a tree has five more lines per binary node;
  - a rendered constant or number reads back through the parsers.
- **Scenarios** (module `Scenarios`). Every case of `src/test/kotlin/ParserTest.kt` is stated as a lemma about the model: the same inputs, and the same tag, node and leftover.

Design notes:

- The shape and suffix properties are lemmas, not postconditions of the parse functions. They are proved by mutual induction with the same termination measure as the functions.
- Each grammar parser builds its combinator tree afresh on every call. Here those trees are the constants `Operand`, `Operator`, `BinarySteps` and `ExprAlternatives`.
- Numbers are unbounded naturals.

## Model

| member | source | states |
|---|---|---|
| ParseResult.Tag | src/main/kotlin/Parser.kt:3-6 | Datatype, no contract: the outcome tag `OK` or `ERROR`. |
| ParseResult.Node | src/main/kotlin/Parser.kt:8-45 | Datatype, no contract: one constructor per parse-tree node class (character, number, constant, binary expression, sequence). |
| ParseResult.Result | src/main/kotlin/Parser.kt:47-51 | Datatype, no contract: the record of tag, optional node and leftover text. `Engine.Parse` states that every record is consistent. |
| Engine.Parser | src/main/kotlin/Parser.kt:53-55 | Datatype, no contract: one constructor per parser class, plus the two combinators. |
| Primitives.ParseChar | src/main/kotlin/Parser.kt:57-62 | Succeeds iff the input is non-empty and starts with `ch`. Success gives the character node and the input after the first character. Failure gives no node and the input unchanged. The leftover is a suffix of the input. |
| Primitives.IsDigit | src/main/kotlin/Parser.kt:67-70 | Definition, no contract: a digit is one of the ASCII characters `0` to `9`. Kotlin's `isDigit` accepts more; see "Left out". |
| Primitives.DigitRun | src/main/kotlin/Parser.kt:70 | The loop's stopping point: every character before it is a digit, and it is the end of the input or a non-digit. |
| Primitives.ParseNumber | src/main/kotlin/Parser.kt:65-75 | Succeeds iff the input starts with a digit; otherwise gives the input back unchanged. On success the consumed prefix is all digits and the leftover is empty or starts with a non-digit (maximal munch). The value is the left-to-right decimal value of the consumed digits. |
| Primitives.ScanNumber | src/main/kotlin/Parser.kt:65-75 | The `while` loop accumulating `result * 10 + digit` returns exactly `ParseNumber(input)`. |
| Primitives.DecimalStringValue | src/main/kotlin/Parser.kt:70-71 | The decimal text of `n` is a non-empty digit string whose value, read as the loop reads it, is `n`. |
| Primitives.DigitRunOfDigits | src/main/kotlin/Parser.kt:70 | The digit run of digits followed by a non-digit is exactly those digits. |
| Primitives.NumberRoundTrip | src/main/kotlin/Parser.kt:65-75 | The number parser reads back the decimal text of `n` and leaves over exactly the text after it. |
| Primitives.DecimalString | src/main/kotlin/Parser.kt:20 | Definition, no contract: the decimal text of a number without leading zeros, as `Int.toString` prints a non-negative value. Its partner is `Primitives.DecimalStringValue`, which reads the text back as the number. |
| Primitives.DigitValue | src/main/kotlin/Parser.kt:71 | Definition, with only the bound `d < 10` as contract: the value of a digit is the character minus `'0'`. |
| Primitives.DecimalValue | src/main/kotlin/Parser.kt:71 | Definition, no contract: the value of a digit string read left to right, each digit computing `value * 10 + digit`. It is the reference definition that `Primitives.ParseNumber` and `Primitives.ScanNumber` are stated against, and `Primitives.DecimalStringValue` is its partner. |
| Engine.ParseConstant | src/main/kotlin/Parser.kt:78-91 | Succeeds iff the input is a digit, or `-` and a digit, at the start. On success the node is a constant whose sign is whether the input starts with `-`, and the input got shorter. On failure the whole input is given back, the `-` included. |
| Engine.Parse | src/main/kotlin/Parser.kt:53-55 | Every parser returns a consistent record (a node iff OK) with a leftover no longer than its input. A consuming parser that succeeds leaves strictly less. |
| Engine.ParseChoice | src/main/kotlin/Parser.kt:125-135 | Consistent. A choice of consuming parsers that succeeds consumes. A failure carries no node and the original input. |
| Engine.ParseSequence | src/main/kotlin/Parser.kt:137-151 | Consistent. On success the node is a sequence node with exactly one child per step. A sequence with a consuming step that succeeds consumes. |
| Engine.ParseBinary | src/main/kotlin/Parser.kt:94-112 | Success gives a binary node and a strictly shorter leftover. Any failure is normalised to no node and the original input. |
| Engine.ParseExpression | src/main/kotlin/Parser.kt:115-123 | OK implies the whole non-empty input was consumed. A failure carries no node, and its leftover is either the input or a strictly shorter non-empty suffix of it. Which record it returns, for every input, is stated by `RoundTrip.ExpressionCarriesRemainder`. |
| Engine.Operand | src/main/kotlin/Parser.kt:97-99 | Definition, no contract: an operand is a choice of a constant, then a binary expression. Its behaviour is stated by `RoundTrip.OperandChoice` and `RoundTrip.OperandRoundTrip`. |
| Engine.Operator | src/main/kotlin/Parser.kt:98 | Definition, no contract: the operator is a choice of the characters `+`, `-` and `*`. Its behaviour is stated by `Shapes.OperatorIsOperatorChar` and `RoundTrip.OperatorRoundTrip`. |
| Engine.BinarySteps | src/main/kotlin/Parser.kt:96-101 | Definition, no contract: the five steps `(`, operand, operator, operand, `)` of a binary expression. They are stated by `RoundTrip.BinaryStepsSucceed` and `Shapes.BinaryShape`. |
| Engine.ExprAlternatives | src/main/kotlin/Parser.kt:117 | Definition, no contract: the top-level parser tries a binary expression, then a constant. This is stated by `RoundTrip.ExpressionChoice`. |
| Leftovers.ParseLeavesSuffix | src/main/kotlin/Parser.kt:47-51 | For every parser and input, the leftover is a suffix of the input. |
| Leftovers.ConstantLeavesSuffix | src/main/kotlin/Parser.kt:78-91 | The constant parser's leftover is a suffix of its input. |
| Leftovers.ChoiceLeavesSuffix | src/main/kotlin/Parser.kt:125-135 | A choice's leftover is a suffix of its input. |
| Leftovers.SequenceLeavesSuffix | src/main/kotlin/Parser.kt:137-151 | A sequence's leftover is a suffix of its input: each step's leftover is a suffix of the one before. |
| Leftovers.BinaryLeavesSuffix | src/main/kotlin/Parser.kt:94-112 | The binary parser's leftover is a suffix of its input. |
| Leftovers.ExpressionLeavesSuffix | src/main/kotlin/Parser.kt:115-123 | The top-level parser's leftover is a suffix of its input. |
| Leftovers.ConstantDelegates | src/main/kotlin/Parser.kt:80-89 | The constant parser succeeds iff the number parser succeeds after the optional `-`. It then returns that parser's value and leftover. |
| Leftovers.ConstantReadsAllDigits | src/main/kotlin/Parser.kt:78-91 | After a constant, the leftover does not start with a digit. |
| Shapes.ParseShape | src/main/kotlin/Parser.kt:57-151 | Every successful parse returns the node kind of its parser: a character node for a character parser, a number node for the number parser, a constant, a well-formed expression tree for the binary and top-level parsers, one of the alternatives' kinds for a choice, and one child of each step's kind for a sequence. |
| Shapes.ChoiceShape | src/main/kotlin/Parser.kt:125-135 | A successful choice returns a node that one of its alternatives produces. |
| Shapes.SequenceShape | src/main/kotlin/Parser.kt:137-151 | A successful sequence returns, in order, one child of each step's kind. |
| Shapes.BinaryShape | src/main/kotlin/Parser.kt:94-112 | A successful binary parse returns a well-formed expression tree. Its operator is a character node in `+ - *`, and its operands are constants or binary nodes. |
| Shapes.ExpressionShape | src/main/kotlin/Parser.kt:115-123 | A successful top-level parse returns a well-formed expression tree. |
| Shapes.OperatorIsOperatorChar | src/main/kotlin/Parser.kt:98 | What the operator choice produces is a character node holding `+`, `-` or `*`. |
| Shapes.SequenceFirstStep | src/main/kotlin/Parser.kt:142-144 | A sequence succeeds only if its first step succeeds on the original input. |
| Shapes.BinaryStartsWithParen | src/main/kotlin/Parser.kt:96-101 | A binary parse succeeds only on input that starts with `(`. |
| Combinators.ChoiceFirstSuccess | src/main/kotlin/Parser.kt:125-135 | Ordered choice is left-biased. If alternatives before `k` fail on the input and `k` succeeds, the choice returns `k`'s record verbatim. |
| Combinators.ChoiceFailsIffAllFail | src/main/kotlin/Parser.kt:128-132 | A choice fails iff every alternative fails on the original input. It then returns no node and the original input. |
| Combinators.ChoiceSkip | src/main/kotlin/Parser.kt:128-131 | A failing alternative is passed over. |
| Combinators.ChoiceOfTwo | src/main/kotlin/Parser.kt:125-135 | A two-way choice, written out: the first if it succeeds, else the second if it succeeds, else a failure carrying the input. |
| Combinators.ChoiceStep | src/main/kotlin/Parser.kt:128-131 | One iteration of the choice loop: alternative `k` decides if it succeeds, else the alternatives after it decide. |
| Combinators.RunChoice | src/main/kotlin/Parser.kt:125-135 | The `for` loop with early return computes exactly `ParseChoice`. |
| Combinators.SequenceStep | src/main/kotlin/Parser.kt:142-147 | One iteration of the sequence loop. A failing step ends the sequence with its own record. A succeeding step appends its node and hands on its leftover. |
| Combinators.SequenceStart | src/main/kotlin/Parser.kt:140-141 | Before the loop, no nodes have been collected and the whole sequence is still to run. |
| Combinators.SequenceEnd | src/main/kotlin/Parser.kt:148 | After the loop, the collected nodes and the last leftover make the sequence's result. |
| Combinators.SequenceCons | src/main/kotlin/Parser.kt:142-148 | A first step that succeeds, followed by remaining steps that succeed on its leftover, makes a sequence that succeeds with the first node in front. |
| Combinators.SequenceFailsAtFirst | src/main/kotlin/Parser.kt:143-144 | A sequence whose first step fails returns that step's record. |
| Combinators.SequenceFailsLater | src/main/kotlin/Parser.kt:143-146 | A sequence whose first step succeeds and whose rest fails returns the rest's failure. |
| Combinators.RunSequence | src/main/kotlin/Parser.kt:137-151 | The `for` loop that collects nodes and threads leftovers computes exactly `ParseSequence`. |
| RoundTrip.ConstantOfSign | src/main/kotlin/Parser.kt:80-90 | On a sign and a text not starting with `-`, the constant parser returns the number parser's value with that sign and its leftover. Otherwise it fails with the whole input. |
| RoundTrip.ConstantRoundTrip | src/main/kotlin/Parser.kt:78-91 | A printed constant, with or without `-`, followed by a non-digit is read back as the same constant. Exactly the following text is left over. |
| RoundTrip.OperatorRoundTrip | src/main/kotlin/Parser.kt:98 | The operator choice reads back a printed operator and leaves the rest. |
| RoundTrip.OperandChoice | src/main/kotlin/Parser.kt:97 | An operand is a constant if the constant parser succeeds, else a binary expression. |
| RoundTrip.OperandRoundTrip | src/main/kotlin/Parser.kt:97-99 | An operand reads back any printed expression tree and leaves the rest. |
| RoundTrip.FiveSteps | src/main/kotlin/Parser.kt:137-151 | Five steps that succeed in turn make a sequence with their five nodes and the last leftover. |
| RoundTrip.BinaryStepsSucceed | src/main/kotlin/Parser.kt:101 | The five steps `( operand op operand )` succeed in turn, so the sequence succeeds with their nodes. |
| RoundTrip.BinaryOfSteps | src/main/kotlin/Parser.kt:102-109 | The binary node is built from positions 1, 2 and 3 of the successful sequence, with its leftover. |
| RoundTrip.BinaryRoundTrip | src/main/kotlin/Parser.kt:94-112 | The binary parser reads back any printed binary tree, whatever text follows. That text is the leftover. |
| RoundTrip.ExpressionChoice | src/main/kotlin/Parser.kt:117 | The top level tries a binary expression first, then a constant. |
| RoundTrip.ExpressionCarriesRemainder | src/main/kotlin/Parser.kt:115-123 | For every input, the delegate is the binary parser's record if that succeeds, else the constant parser's. A delegate that succeeds with nothing left over is returned as it is. One that leaves text over becomes a failure with no node, carrying exactly that text. If both fail, the input is given back. |
| RoundTrip.ExpressionRoundTrip | src/main/kotlin/Parser.kt:115-123 | The top-level parser returns any printed tree when nothing follows it. Otherwise it fails with no node, carrying the text that follows. |
| Rendering.Lines | src/main/kotlin/Parser.kt:33-34 | Splitting at line breaks gives one line more than there are breaks. |
| Rendering.JoinIndented | src/main/kotlin/Parser.kt:33-34 | Definition, no contract: each line prefixed by a tab, joined with `\n` (the `joinToString("\n") { "\t$it" }` step). |
| Rendering.Indent | src/main/kotlin/Parser.kt:33-34 | Definition, no contract: a text's lines, indented by one tab. Its partners are `Rendering.IndentIsTabAfterNewlines` (an independent definition) and `Rendering.IndentRoundTrip` (its inverse). |
| Rendering.BinaryLayout | src/main/kotlin/Parser.kt:36-41 | Definition, no contract: the header line, `(`, the indented left operand, a tab and the operator, the indented right operand, and `)`, separated by `\n`. Its line count is stated by `Rendering.BinaryLayoutCount`. |
| Rendering.Render | src/main/kotlin/Parser.kt:12-43 | Definition, no contract: the readable form of a character, a number, a constant and a binary node. Its properties are stated by `Rendering.RenderLineCount`, `Rendering.ConstantRenderReadsBack` and `Rendering.NumberRenderReadsBack`. |
| Rendering.IndentIsTabAfterNewlines | src/main/kotlin/Parser.kt:33-34 | Prefixing each line with a tab and joining with `\n` is a leading tab plus a tab after every line break. |
| Rendering.TabAfterNewlinesCount | src/main/kotlin/Parser.kt:33-34 | Indenting keeps the number of line breaks. |
| Rendering.DropTabAfterNewlinesInverse | src/main/kotlin/Parser.kt:33-34 | Dropping the tab after every line break undoes adding one. |
| Rendering.IndentRoundTrip | src/main/kotlin/Parser.kt:33-34 | Indentation can be undone: without its leading tab and the tabs after line breaks, the indented text is the original text. |
| Rendering.IndentCount | src/main/kotlin/Parser.kt:33-34 | An indented text has as many line breaks as the original. |
| Rendering.DecimalStringOneLine | src/main/kotlin/Parser.kt:19-21 | The decimal text of a number has no line break. |
| Rendering.ConstantNewlineCount | src/main/kotlin/Parser.kt:24-28 | A constant renders on one line. |
| Rendering.BinaryNewlineCount | src/main/kotlin/Parser.kt:30-42 | A binary node renders with five line breaks more than its two operands together. |
| Rendering.BinaryLayoutCount | src/main/kotlin/Parser.kt:36-41 | The binary layout adds exactly five line breaks: header, `(`, after the left operand, after the operator, after the right operand. |
| Rendering.ConstantLayoutCount | src/main/kotlin/Parser.kt:26 | The constant label and sign add no line break. |
| Rendering.RenderNewlineCount | src/main/kotlin/Parser.kt:12-43 | An expression tree is renderable, and its text has five line breaks per binary node. |
| Rendering.RenderLineCount | src/main/kotlin/Parser.kt:12-43 | The readable form of an expression tree has `5 * (number of binary nodes) + 1` lines. |
| Rendering.ConstantRenderReadsBack | src/main/kotlin/Parser.kt:24-28 | A constant's readable form is `Constant expression ` followed by text that the constant parser reads back as the same constant. |
| Rendering.NumberRenderReadsBack | src/main/kotlin/Parser.kt:18-22 | A number's readable form is text that the number parser reads back as the same number. |
| Scenarios.CharScenarios | src/test/kotlin/ParserTest.kt:9-25 | The character parser for `a` on `abc`, `a` and `bc`. |
| Scenarios.NumberScenarios | src/test/kotlin/ParserTest.kt:28-54 | The number parser on `abc`, `123`, `123abc`, `abc123` and `-123`. |
| Scenarios.ChoiceScenarios | src/test/kotlin/ParserTest.kt:57-81 | Choice of `a`, `b`, `c` on `abc`, `a`, `bca` and `da`. |
| Scenarios.CharChoiceFirst | src/main/kotlin/Parser.kt:128-130 | A choice of three characters returns the first alternative when the input starts with its character. |
| Scenarios.CharChoiceSecond | src/main/kotlin/Parser.kt:128-130 | If the first alternative fails, the second wins on its own character. |
| Scenarios.CharChoiceNone | src/main/kotlin/Parser.kt:132 | An input matched by none of the three characters is given back. |
| Scenarios.SequenceScenarios | src/test/kotlin/ParserTest.kt:84-108 | Sequence of `a`, `b`, `c`. It succeeds on `abc` and fails on `a` with `""`, on `bca` with `bca`, and on `acc` with `cc`. |
| Scenarios.CharSequence | src/main/kotlin/Parser.kt:137-151 | A sequence of three characters reads them in order. |
| Scenarios.ParseSequence3 | src/main/kotlin/Parser.kt:137-151 | Three steps that succeed in turn make a successful three-node sequence. |
| Scenarios.CharSequenceFirstFails | src/main/kotlin/Parser.kt:143-144 | A text not starting with the first character fails at once, with that text. |
| Scenarios.CharSequenceSecondFails | src/main/kotlin/Parser.kt:143-144 | A text whose first character is not followed by the second fails with the text after the first. |
| Scenarios.ConstantScenarios | src/test/kotlin/ParserTest.kt:111-136 | The constant parser on `123`, `123abc`, `-123` and `-123abc`. |
| Scenarios.ConstantRejections | src/test/kotlin/ParserTest.kt:111-142 | The constant parser rejects `abc` and `-abc123`, giving the whole input back. |
| Scenarios.BinaryScenarios | src/test/kotlin/ParserTest.kt:147-193 | The binary parser on `(1+2)`, `(1+-2)` and `(1+2)))`; the last leaves `))`. |
| Scenarios.BinaryRejections | src/test/kotlin/ParserTest.kt:169-182 | The binary parser rejects `1+2`, `1+2)` and `(1+2`, giving the whole input back. |
| Scenarios.UnclosedBinary | src/test/kotlin/ParserTest.kt:174-177 | `(1+2` fails, because `)` finds nothing. |
| Scenarios.NestedScenario | src/test/kotlin/ParserTest.kt:195-220 | The binary parser reads `(((1+2)*(-3+4))-(5*-6))` as the expected nested tree. |
| Scenarios.ExpressionScenarios | src/test/kotlin/ParserTest.kt:224-261 | The top-level parser accepts `(1+2)`, `1` and `-123`. It fails on `1+2` with `+2`, on `(1+2))` with `)`, and on `1(1+2)` with `(1+2)`. |
| Scenarios.LeadingZeroScenario | src/main/kotlin/Parser.kt:115-123 | On `01+2`, text no printer produces, the constant delegate reads `1` and leaves `+2`, so the top-level parser fails carrying `+2`. |

## Left out

- `main` and its `println` calls (src/main/kotlin/Parser.kt:154-158) are console output and are not part of this model.
- Primitives.ParseNumber: numbers are unbounded naturals. The 32-bit `Int` wrap-around of `result * 10 + digit` on long digit runs is not modelled.
- Primitives.ScanNumber: the same unbounded accumulator as ParseNumber, with no 32-bit wrap-around.
- Primitives.IsDigit: only the ASCII digits `0`-`9` are digits. Kotlin's `isDigit` also accepts other Unicode decimal digits, for which `c - '0'` is not the digit's value.
- Rendering.Render: requires a node without sequence nodes. The source renders a sequence node with the JVM's generated `toString`, which is not meaningful output.
- Rendering.Lines: splits at `\n` only. Kotlin's `lines()` also splits at `\r\n` and `\r`. Neither occurs in the readable form of parse trees.
- Each grammar parser builds its combinator tree afresh on every call. The model uses fixed parser values (`Operand`, `Operator`, `BinarySteps`, `ExprAlternatives`), because the allocation has no observable effect.
- Parser kinds are a closed datatype, so parser subclasses written outside this file cannot be modelled.
- Engine.Parse: its postcondition does not include the suffix property or the node shape. Both are proved for every parser by separate lemmas: `Leftovers.ParseLeavesSuffix` and `Shapes.ParseShape`.
