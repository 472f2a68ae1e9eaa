# LaTeX truth-table engine, in Dafny

This project models the text engine of an Obsidian plugin that turns a LaTeX
logical formula into a Markdown truth table (`main.ts`). The engine works in
four stages:

1. **Normalisation** (`replaceMultiple` with the `replacements` table) rewrites
   LaTeX connectives, braces and constants into operator syntax. The rules run
   one after the other, in table order, and each one replaces every occurrence
   of its key.
2. **Implication elimination** (`replaceImplication`) repeatedly takes the last
   `\to` and trims the text on each side. One bracket counter is shared by a
   backward scan of the left side and then a forward scan of the right side.
   Each side is cut at the first bracket where the counter stops being
   positive. The operands are rewritten as `(!(left) || (right))`, with the
   cut-off text copied around the rewrite. This bracket is not always the
   enclosing one: in `p \to (q)` the right side is cut at the `)` of `(q)`.
3. **Assignment generation** (`generateCombinations`) lists all `2^n` rows of
   truth values. Row `i` holds the bits of `i`, most significant first.
4. **Rendering** (`generateTruthTable`) builds the table:
   - the variables are the distinct lower-case letters, sorted;
   - each row is evaluated by substituting `true`/`false` for every standalone
     variable and handing the text to `eval`;
   - the Markdown is built as one string, then its last three characters are
     cut off.

`generateResult` chains the stages and returns `""` when any step throws.

Modules, one per stage plus helpers:

- `Wrappers`: the `Option` type.
- `Text`: the JavaScript `trim`, `join` and one-character `split`.
- `Normalizer`: stage 1.
- `Implication`: stage 2.
- `Combinations`: stage 3.
- `Substitution`: the variable substitution inside `evaluateExpression`.
- `TruthTable`: stage 4.
- `Pipeline`: `generateResult`.

Each `for`, `while` and `forEach` loop of the source is modelled as a `method`
with the same loop. The `reduce`, `map`/`join` and `Set`/`sort` chains are
functions. Each such
method is proved equal to a function, and the properties are proved about that
function.

`eval` is a parameter of type `string -> Option<bool>`. `None` stands for an
expression that throws.

## Model

| member | source | states |
|---|---|---|
| Normalizer.ReplaceAll | main.ts:52 | defines `result.split(oldValue).join(newValue)`: every occurrence of a non-empty key, found left to right without overlap, becomes the value; an empty key puts the value between every two characters. Its properties are in the ApplyAll lemmas below |
| Normalizer.Replacements | main.ts:57-73 | the fifteen pairs of the `replacements` table, in insertion order. That this is the order JavaScript iterates them is noted under "## Left out" |
| Normalizer.ReplaceMultiple | main.ts:49-55 | the loop leaves in `result` the input with every pair applied once, in table order (each pair sees the previous pairs' output) |
| Normalizer.ApplyAllNoKeys | main.ts:49-55 | a string in which no key of the table occurs comes back unchanged |
| Normalizer.ApplyAllKeepsAbsent | main.ts:49-55 | a character absent from the input that no value writes stays absent |
| Normalizer.ApplyAllRemovesChar | main.ts:49-55 | a character that is the whole key of one rule, and that this rule and no later one writes back, is absent from the result |
| Normalizer.ReplacementsShape | main.ts:57-73 | every key of the table is non-empty, and no value writes a brace, `T` or `F` |
| Normalizer.NormalizeKeyFree | main.ts:49-73 | text containing no key is left unchanged by normalisation, so normalising it twice equals normalising once |
| Normalizer.NormalizeRemovesBracesAndConstants | main.ts:57-73 | after normalisation no `{`, `}`, `T` or `F` remains |
| Normalizer.NormalizeNotIdempotent | main.ts:49-73 | normalisation is not idempotent in general: `\te\textxt` normalises to `\text`, which normalises to the empty string |
| Normalizer.NormalizeConstant | main.ts:57-73 | the constant `T` normalises to `1` |
| Implication.LastArrow | main.ts:114 | `lastIndexOf("\to")`: -1 exactly when there is no arrow; otherwise an arrow starts there and none starts later |
| Implication.ArrowCountZero | main.ts:114-116 | the arrow count is zero exactly when `lastIndexOf` finds no arrow |
| Implication.ArrowCountTrim | main.ts:120-121 | trimming an operand keeps its number of arrows |
| Implication.TrimCount | main.ts:120-121 | trimming keeps the count of every non-space character |
| Text.Trim | main.ts:120-121 | the input is leading white space, then the result unchanged, then trailing white space; the result neither starts nor ends with white space |
| Implication.ScanLeftCounts | main.ts:81-94 | the backward scan stops at the first `(` from the right at which the counter (start value minus the depth read so far) is no longer positive, and leaves the counter there. It runs off the start only when no `(` qualifies, leaving the start value minus the depth of the whole prefix |
| Implication.ScanRightCounts | main.ts:95-107 | the forward scan stops at the first `)` at which the counter (start value plus the depth read so far) is no longer positive, and leaves the counter there. It runs off the end only when no `)` qualifies |
| Implication.SplitOperandsCounts | main.ts:78-107 | the left side is cut at the first `(` from its end whose suffix has depth at least 0, or not at all when there is none. The right scan starts from the counter the left scan left behind, which is minus the depth of the kept left operand. The right side is cut at the first `)` where that counter plus the depth read so far is at most 0, or not at all when there is none |
| Implication.DepthIsBalance | main.ts:81-107 | the depth counted character by character equals the bracket balance (`(` minus `)`) counted as a multiset |
| Implication.ScanLeft | main.ts:82-94 | the backward scan over the left operand stops only at a `(` at or before its start index |
| Implication.ScanRight | main.ts:95-107 | the forward scan over the right operand stops only at a `)` at or after its start index |
| Implication.SplitOperands | main.ts:76-107 | the cut-off prefix followed by the kept left operand is the left side; the kept left operand is the whole side or starts with `(`; likewise the kept right operand followed by the cut-off suffix is the right side, and a cut-off suffix starts with `)` |
| Implication.Rewrite | main.ts:109 | defines the template string around the cut parts. Its properties are RewriteArrowCount, RewriteChars and RewriteParens |
| Implication.NegateLeftSide | main.ts:76-110 | the loops and the template give the rewrite of the two operands |
| Implication.RewriteArrowCount | main.ts:109 | the rewrite adds no arrow: its arrow count is the sum of the operands' counts |
| Implication.RewriteChars | main.ts:109 | the rewrite is a rearrangement of both operands plus exactly the eleven characters of the template: three `(`, three `)`, one `!`, two `\|` and two spaces |
| Implication.RewriteParens | main.ts:109 | the rewrite adds exactly three `(` and three `)` |
| Implication.Round | main.ts:114-123 | defines one pass of the loop: trim the two sides of the arrow at the given index and rewrite them. Its properties are RoundArrowCount, RoundParens, RoundCount and RoundArrowChars |
| Implication.RoundArrowCount | main.ts:114-123 | one pass of the `while (true)` loop removes exactly one arrow |
| Implication.RoundParens | main.ts:114-123 | one pass adds exactly three `(` and three `)`, so it keeps the bracket balance |
| Implication.EliminateImplications | main.ts:112-125 | the loop ends without any arrow, keeps the bracket balance, and returns text with no arrow unchanged |
| Implication.EliminationRounds | main.ts:112-125 | the loop runs exactly once per arrow in its input |
| Implication.EliminateKeepsCount | main.ts:112-125 | every character other than white space, the arrow's letters and the template's punctuation occurs as often after elimination as before |
| Implication.RoundArrowChars | main.ts:114-123 | one pass removes exactly one `\`, one `t` and one `o`, those of the arrow it rewrites |
| Implication.EliminateArrowChars | main.ts:112-125 | elimination lowers the counts of `\`, `t` and `o` by exactly the number of arrows in the input |
| Implication.EliminateLastRound | main.ts:112-125 | when neither trimmed side holds a backslash, one pass is the whole result |
| Implication.ReplaceImplication | main.ts:75-129 | the method's loop computes the elimination function |
| Implication.ExampleSimple | main.ts:75-129 | `p \to q` becomes `(!(p) \|\| (q))` |
| Implication.ExampleBracketedRight | main.ts:95-109 | in `p \to (q)` the right side is cut at the `)` of `(q)`, giving `(!(p) \|\| ((q)))` |
| Implication.ExampleInsideBrackets | main.ts:75-129 | `a && (p \to q)` becomes `a && (!((p) \|\| (q)))`: inside brackets the operands are cut at the enclosing brackets |
| Combinations.GenerateCombinations | main.ts:131-141 | the nested loops build the table of all `2^n` rows, row `i` holding bit `n-1-k` of `i` (shift count modulo 32) at position `k` |
| Combinations.Table | main.ts:131-141 | there are `Math.pow(2, n)` rows of `n` values each |
| Combinations.RowOfIndex | main.ts:135-136 | reading an assignment of at most 32 values as a binary number gives the index of a row equal to it |
| Combinations.IndexOfRow | main.ts:135-136 | reading row `i` back as a binary number gives `i` |
| Combinations.TableEnumerates | main.ts:131-141 | for at most 32 columns the rows are pairwise different and every assignment is one of them |
| Combinations.TableEnds | main.ts:131-141 | the first row is all false and the last all true |
| Substitution.BoolString | main.ts:147 | `values[index].toString()` is a run of at least two word characters |
| Substitution.ReplaceWordFrom | main.ts:147 | defines the global `\bc\b` replace, scanning from the left with the character class before the string. Its properties are the Replace lemmas below |
| Substitution.ReplaceWord | main.ts:147 | defines the replace on a whole string, where nothing precedes the first character |
| Substitution.Substitute | main.ts:146-149 | defines the `reduce`: each variable's replace applied to the previous output, in variable order. Its properties are the Substitute lemmas below |
| Substitution.EvaluateExpression | main.ts:144-152 | defines `eval` of the substituted expression. Its properties are in EvaluateExpressionMeaning |
| Substitution.HasWordIff | main.ts:147 | the scan for a standalone variable finds one exactly when an occurrence with non-word characters (or the string's ends) on both sides exists |
| Substitution.ReplaceRemovesWord | main.ts:147 | after the global `\bv\b` replace, `v` no longer occurs as a standalone word |
| Substitution.ReplaceWordAt | main.ts:147 | a standalone occurrence of `c` becomes `w`, and the text on either side is replaced independently |
| Substitution.ReplaceConcat | main.ts:147 | the replace works piecewise across a junction that no word crosses |
| Substitution.ReplaceKeepsOtherWords | main.ts:147 | the replace does not create or destroy standalone occurrences of any other character |
| Substitution.ReplaceIdentity | main.ts:147 | the replace leaves the text unchanged exactly when the variable does not occur standalone |
| Substitution.SubstituteRemovesVariables | main.ts:146-149 | after the `reduce`, no variable occurs as a standalone word |
| Substitution.SubstituteConcat | main.ts:146-149 | the `reduce` works piecewise across a junction that no word crosses |
| Substitution.SubstituteOneVariable | main.ts:146-149 | for pairwise different variables, variable `vars[k]` on its own becomes `values[k].toString()` |
| Substitution.SubstituteAt | main.ts:146-149 | for pairwise different variables, a standalone occurrence of `vars[k]` becomes `values[k].toString()`, and the text on either side is substituted independently |
| Substitution.SubstituteKeepsOtherWords | main.ts:146-149 | the `reduce` keeps the standalone occurrences of every word character that is not a variable |
| Substitution.SubstituteIdentity | main.ts:146-149 | with no variable present, the `reduce` returns the expression unchanged |
| Substitution.EvaluateExpressionMeaning | main.ts:144-152 | the evaluator is `eval` applied to a text with no variable left standalone and every other word as in the expression. For pairwise different variables, each standalone occurrence of `vars[k]` there stands as `values[k].toString()`, with the text on either side substituted likewise. An expression without standalone variables reaches `eval` unchanged |
| Substitution.ExampleSubstitution | main.ts:147 | only the standalone `p` of `p \|\| up` is replaced: the result is `true \|\| up` |
| TruthTable.Variables | main.ts:158 | the variables are sorted, without duplicates, and are exactly the lower-case letters of the expression |
| TruthTable.EvaluateRows | main.ts:166-167 | when it succeeds, it has one result per row. What each result is, and when it fails, is in EvaluateRowsMeaning |
| TruthTable.EvaluateRowsMeaning | main.ts:166-167 | when every row evaluates, result `i` is row `i`'s value; evaluation fails exactly when some row throws |
| TruthTable.EvaluateRowsAll | main.ts:166-167 | when every row evaluates, the results are those values in row order |
| TruthTable.AppendRows | main.ts:165-169 | the row loop appends each row's text and `" \|\n\| "` in row order, or stops when a row throws |
| TruthTable.Render | main.ts:155-173 | defines the text the method leaves: a leading newline, then the header, the separator and the data lines, joined by newlines. Its shape is in RenderLines and RenderEnds |
| TruthTable.TruthTable | main.ts:155-173 | defines the table of an expression: the rows of `Table(n)` for its `n` variables, evaluated and rendered, or nothing when a row throws. Its properties are TruthTableShape and TruthTableRows |
| TruthTable.GenerateTruthTable | main.ts:155-173 | the method builds the header, the dash line, the rows and the final cut, and gives the rendered table |
| TruthTable.HeaderCells | main.ts:159 | for at least one variable: split at `\|`, the header holds one `$v$` cell per variable, in order, then the Result cell |
| TruthTable.NoVariableHeader | main.ts:159 | with no variable the header still has an empty `$$` cell before the Result cell |
| TruthTable.SeparatorCells | main.ts:160-163 | the separator line holds one `-` cell per variable plus one for the result |
| TruthTable.NoVariableSeparator | main.ts:160-163 | with no variable the separator is a single `-` cell |
| TruthTable.DataLineCells | main.ts:168 | for at least one variable: split at `\|`, a data line holds one ` 0 `/` 1 ` cell per variable, in row order, then the result cell |
| TruthTable.NoVariableDataLine | main.ts:163-170 | without variables, a data line `\|  \| 1 \|` still has a blank cell before the result cell, like the header's empty `$$` cell |
| TruthTable.RenderLines | main.ts:155-173 | the rendered text splits into an empty first line, the header, the separator and one line per row |
| TruthTable.RenderEnds | main.ts:168-170 | the substring at line 170 leaves the text ending in ` \|` |
| TruthTable.TruthTableShape | main.ts:155-173 | a table has `3 + 2^n` lines: the empty line, the header, the separator, and the text ends in ` \|` |
| TruthTable.TruthTableRows | main.ts:155-173 | line `3 + i` of the table is row `i` of the assignments with its evaluated result |
| TruthTable.TruthTableStartsWithNewline | main.ts:156 | the table starts with a newline |
| TruthTable.NoLetters | main.ts:158 | text without a lower-case letter has no variables |
| TruthTable.ConstantTable | main.ts:155-173 | the expression `1` gives the one-row table with an empty variable cell |
| Text.TerminatedJoin | main.ts:166-170 | appending `part + sep` per row is the join with a trailing separator, which is why the final cut is exact |
| Text.SplitJoin | main.ts:168 | splitting at a separator undoes a join when no part contains it |
| Pipeline.Result | main.ts:175-186 | defines the result of a selection: the table of the rewritten selection, or `""` when building it throws. Its properties are ResultEmptyIff, ResultLines and ExampleConstant |
| Pipeline.GenerateResult | main.ts:175-186 | normalise, eliminate implications and render; the empty string when rendering throws |
| Pipeline.ResultEmptyIff | main.ts:175-186 | the result is empty exactly when evaluating some row throws |
| Pipeline.RewrittenShape | main.ts:177 | the rewritten expression has no arrow, brace, `T` or `F` |
| Pipeline.RewrittenVariables | main.ts:177-178 | every letter other than `t` and `o` is a variable of the table exactly when it occurs in the normalised selection |
| Pipeline.RewrittenArrowLetters | main.ts:177-178 | `t` (likewise `o`) is a variable of the table exactly when the normalised selection holds more `t` than `\to` arrows |
| Pipeline.ResultLines | main.ts:175-186 | a non-empty result has `3 + 2^n` lines for `n` variables |
| Pipeline.ExampleConstant | main.ts:175-186 | selecting `T` gives the one-row table whose result is 1 |

## Left out

- `onload` and its editor command (main.ts:17-47) are not modelled. They read the selection and write the table into the editor, which is I/O against the host application.
- `onunload`, `loadSettings` and `saveSettings` (main.ts:188-198) are not modelled. They persist settings and contain no logic.
- The `Notice` pop-ups (main.ts:179, 183) are not modelled. They are user-interface output.
- The JavaScript `eval` is a parameter. The model does not capture its semantics or the values other than booleans it may return. A truthy non-boolean result prints `1` in the source; here only `Some(true)`/`Some(false)`/`None` exist.
- Substitution.EvaluateExpressionMeaning: it states which text reaches `eval`, not what `eval` makes of it. The model does not interpret the operator syntax. Its positional clause assumes pairwise different variables; `generateTruthTable` always passes such variables, because they come out of a `Set`.
- Pipeline.ResultEmptyIff: the model has no bound on string length. The source builds the table by `+=` on one string. Past the engine's maximum string length (in V8, about 2^29 code units, reached from about 23 variables) that append throws a RangeError. The `catch` at main.ts:182-185 then returns `""`, although no evaluation threw. The model renders every table.
- `Math.pow` is the exact natural-number `Pow2`. Floating point is not modelled; it is exact for the at most 26 variables a table can have.
- Combinations.TableEnumerates: `1 << j` is modelled with the shift count taken modulo 32, as JavaScript does. Distinctness and completeness of the rows are proved only for at most 32 columns. That covers every table the engine builds, since there are 26 lower-case letters.
- The regular expression, `Set` and `sort` of line 158 and the `\b` regular expression of line 147 are modelled by explicit scans over characters. Variables are single lower-case letters, so the word boundary is a check on the neighbouring characters.
- Implication.EliminateImplications: no lemma says the rewrite is a logical equivalence, because the source's rewrite is not one. For `a && (p \to q)` the left operand is cut at the enclosing `(`, and the result `a && (!((p) || (q)))` means not (p or q). The model keeps the code's behaviour, as `ExampleInsideBrackets` shows.
- TruthTable.AppendRows: the row loop of `generateTruthTable` is modelled as a separate method that `GenerateTruthTable` calls, rather than inline.
- Normalizer.NormalizeKeyFree: idempotence is stated only for text without keys. In general it does not hold (`NormalizeNotIdempotent`).
- Object-key iteration order of `replacements` is taken as the literal's insertion order. None of its keys is an integer-like string, so JavaScript keeps that order.
