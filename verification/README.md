# math-problem-solver, modelled in Dafny

This project models the three stages of the math problem solver.

1. `NLPProcessor` analyses a natural-language algebra problem:
   - pre-normalises the text;
   - extracts keywords by category;
   - classifies the problem as system, quadratic, linear or unknown, in that order of precedence;
   - extracts variables and numbers;
   - scores its confidence;
   - validates the input.
2. `EquationParser` turns the text into equations:
   - replaces standalone number words by digits;
   - strips instruction phrases;
   - cuts out the first `L = R` span;
   - normalises operators, inserting implicit multiplication;
   - keeps one symbol per variable name in its cache;
   - splits a system into clauses and drops the clauses that fail to parse.
3. `MathSolver` solves the equations:
   - linear equations, with three outcomes (all reals / no real solution / a root);
   - quadratic equations, by factorization or by the discriminant;
   - systems of equations.

   Every entry point returns a step log numbered 1..n.

SymPy objects become small exact values:
- An expression is an `Algebra.Expr` tree.
- A polynomial is a little-endian `real` coefficient list, `Algebra.Poly`.
- A root is a `Surds.Surd`, which stands for `p + q·√d`. That covers real and complex roots exactly, and "verification" is an exact zero test.

The parts of SymPy whose internals are out of scope are parameters of the model:
- `sympify`;
- the `factor` / `gcd_terms` / `factor_list` family;
- the system solver `sp.solve(equations, variables)`.

The parser's functions take a `Parser.Stages` value holding the extraction and normalisation stages and `sympify`. `Parser.Standard` fills it with `Extraction.ExtractMath` and `Extraction.Normalize`.

Modules:
- `Wrappers`: `Option` and `Result`.
- `Strings`: character classes, `str.replace`, `strip`, whitespace collapsing, `split`.
- `Runs`: the text as alternating word and non-word runs. These are the `\b` boundaries of Python's `re`.
- `Patterns`: a small backtracking matcher for the instruction regexes.
- `Nlp`: problem analysis.
- `Extraction`: the text stages of the parser.
- `Parser`: the symbol cache, expressions, equations and systems.
- `Algebra`: expressions and polynomials.
- `Surds`: exact roots.
- `Roots`: single-variable `sp.solve` up to degree 2.
- `Steps`: the step log.
- `Solver`: the solvers.

## Model

| member | source | states |
|---|---|---|
| Strings.Collapse | math_solver/nlp_processor.py:94 | `re.sub(r'\s+', ' ', t).strip()` leaves only single spaces and none at either end; it keeps every non-whitespace character of the input, in order, and splits into the same whitespace-separated words as the input; on text without capitals the result is also free of capitals |
| Strings.CollapseSpaced | math_solver/nlp_processor.py:94 | collapsing whitespace changes nothing in a text whose only whitespace is single spaces, none at either end |
| Strings.SquashWords | math_solver/nlp_processor.py:94 | replacing each whitespace run by one space keeps the whitespace-split words of the text |
| Strings.WordsTrim | math_solver/nlp_processor.py:94 | stripping a text keeps its whitespace-split words |
| Strings.ReplaceOnce | math_solver/equation_parser.py:168-169 | `str.replace` on a text where the old string occurs only once replaces exactly that occurrence and changes nothing else |
| Strings.SwapKeepsAbsent | math_solver/equation_parser.py:168-169 | putting in a replacement that shares no character with a string cannot make that string occur where it did not |
| Strings.ChainOnce | math_solver/equation_parser.py:168-169 | the replacement table, applied in order to a text where just one key occurs once and no later key occurs after it is replaced, replaces exactly that occurrence |
| Strings.SplitOn | math_solver/equation_parser.py:290 | splitting at a character gives one piece more than its occurrences, no piece holds it, and joining the pieces with it gives back the text |
| Strings.SelectCollapse | math_solver/nlp_processor.py:94 | collapsing whitespace keeps every non-whitespace character the caller selects, in order |
| Nlp.Preprocess | math_solver/nlp_processor.py:80-106 | the pre-normalised text is lower case, single-spaced and trimmed, and keeps in order every character that is not whitespace, not a character of a replaced phrase (a letter, a space, `×`, `÷`, `²`, `³`) and not a replacement symbol (`*`, `/`, `^`, `+`, `-`, `=`, `2`, `3`); letters are not tracked here, Nlp.PreprocessReplacesOne states what happens around a phrase |
| Nlp.PreprocessRemovesPhrases | math_solver/nlp_processor.py:96-104 | the pre-normalised text contains none of the phrases and symbols the substitutions replace (plus, minus, times, multiplied by, divided by, over, equals, is equal to, ×, ÷, ², ³) |
| Nlp.PreprocessIdempotent | math_solver/nlp_processor.py:91-104 | pre-normalising twice gives the same text as pre-normalising once |
| Nlp.PreprocessFixes | math_solver/nlp_processor.py:91-104 | a canonical text free of the replaced phrases is a fixed point of pre-normalisation |
| Nlp.PreprocessReplacesOne | math_solver/nlp_processor.py:96-104 | a canonical text in which exactly one phrase occurs, once, is pre-normalised by replacing that occurrence by its symbol; every letter and character around it is kept |
| Nlp.PreprocessPlus | math_solver/nlp_processor.py:100 | `x plus y` is pre-normalised to `x + y` |
| Nlp.Hits | math_solver/nlp_processor.py:126-129 | a token is listed exactly when it occurs in the text and equals a keyword or contains one as a substring; a matching token is listed as many times as it occurs among the tokens, and the list is no longer than the token list |
| Nlp.ExtractKeywords | math_solver/nlp_processor.py:108-131 | every category of the table is a key, and a token is listed under a category exactly when it is a whitespace-split token of the text matching one of that category's keywords, as many times as it occurs among the tokens |
| Nlp.Classify | math_solver/nlp_processor.py:133-161 | system exactly when a token matches a system keyword (which includes `and`) or the text holds both `and` and `=`; quadratic exactly when not system and there is a quadratic keyword, `^2` or `²`; linear exactly when neither and there is a linear keyword or one of the four linear regex shapes; otherwise unknown |
| Nlp.ExtractVariables | math_solver/nlp_processor.py:163-174 | the result is the set of single letters standing alone as words (`\b[a-zA-Z]\b`), each such letter is in it, and it is non-empty exactly when the text has a standalone letter |
| Nlp.NumeralsOf | math_solver/nlp_processor.py:50 | every lexeme found has the shape digits or digits.digits, and none is found exactly when no word run of the text is all digits |
| Nlp.NumberLexemes | math_solver/nlp_processor.py:186 | the `\b(\d+(?:\.\d+)?)\b` matches are numerals; cut at their points they are exactly the all-digit word runs of the text, in order; they group the runs as the regex does (Nlp.Grouping: each match starts at a digit run, is a decimal exactly when a `.` run and a digit run follow it, starts after the runs the previous one used, and no digit run is left out); there is one exactly when `\b\d+\b` would match |
| Nlp.NumeralsPieces | math_solver/nlp_processor.py:186 | the numerals the scan finds, cut at their points, are the all-digit word runs of the text, in order, none skipped and none repeated |
| Nlp.NumeralsGrouped | math_solver/nlp_processor.py:186 | the scan over the runs yields an increasing choice of start runs under which every numeral is the lexeme the regex takes there, a decimal exactly when a `.` run and a digit run follow, and every digit run is used |
| Nlp.ExtractNumbers | math_solver/nlp_processor.py:176-187 | one value per `\b(\d+(?:\.\d+)?)\b` match: the k-th value is the exact decimal value of the k-th match, repetitions kept; the list is non-empty exactly when the text has a standalone integer |
| Nlp.Confidence | math_solver/nlp_processor.py:227-256 | the score in tenths lies in 0..10. It is at least 4 when a standalone letter and a standalone integer are present. It is below 3 exactly when there is no operator, the type is unknown and the letter/integer pair is missing. It is 10 exactly when all four signals are present |
| Nlp.Analyze | math_solver/nlp_processor.py:202-225 | every field of the analysis is computed from the pre-normalised text, which is canonical; variables and numbers are non-empty exactly when a standalone letter, respectively a standalone integer, is present |
| Nlp.Validate | math_solver/nlp_processor.py:268-282 | the guards in order, each as an exact condition: too short exactly when the stripped length is below 5; otherwise not mathematical exactly when the confidence is below 0.3; otherwise no variables exactly when no letter stands alone; otherwise no numbers exactly when no integer stands alone |
| Nlp.ValidMeans | math_solver/nlp_processor.py:258-282 | validation succeeds exactly when the stripped text has at least 5 characters and the pre-normalised text has a standalone letter and a standalone integer; the 0.3 confidence guard is implied by those two |
| Nlp.NotMathematicalMeans | math_solver/nlp_processor.py:271-274 | the confidence guard rejects a text of at least 5 characters exactly when it has no operator, an unknown type, and lacks a standalone letter or a standalone integer |
| Runs.SubWordRuns | math_solver/equation_parser.py:66 | a standalone-word substitution replaces exactly the word runs equal to the word and keeps every other run |
| Runs.StandaloneLetters | math_solver/equation_parser.py:183-194 | `extract_variables` returns exactly the letters that stand alone as words, without duplicates |
| Runs.SelectSubWord | math_solver/equation_parser.py:66 | substituting a standalone word by another word keeps every non-word character, in order |
| Patterns.MatchIff | math_solver/equation_parser.py:89-97 | the backtracking matcher finds a match at a position exactly when some string of the regex's language starts there |
| Patterns.Remove | math_solver/equation_parser.py:89-97 | deleting every match only deletes characters: the result is a subsequence of the text; a text in which the regex matches nowhere is returned unchanged |
| Patterns.SelectRemove | math_solver/equation_parser.py:89-97 | deleting the matches of an instruction regex keeps, in order, every character that is not whitespace, a letter or one of the regex's literals |
| Patterns.SubstituteAbsent | math_solver/equation_parser.py:286-287 | a text without the pattern's leading word is left as it is |
| Extraction.ReplaceWordsRuns | math_solver/equation_parser.py:64-66 | the sequential substitutions act on the word runs all at once: each run is looked up in the table, the first entry wins, and a digit string put in by an earlier entry is never rewritten by a later one |
| Extraction.ReplaceWordsNoKeys | math_solver/equation_parser.py:64-66 | after the substitutions no key stands alone; the run count is unchanged; every key run became digits and every other run is unchanged |
| Extraction.NoKeysKeepText | math_solver/equation_parser.py:64-66 | when no run is a key the substitutions leave the text unchanged |
| Extraction.NumberWordsReplaced | math_solver/equation_parser.py:54-67 | after `replace_number_words`, `contains_non_numeric_words` is false. Every standalone number word became digits. A number word inside a longer word, and every other run, is untouched |
| Extraction.RemoveEach | math_solver/equation_parser.py:89-97 | removing the instruction phrases in order leaves a subsequence of the text; a text in which none of them matches is returned unchanged |
| Extraction.DropQuestion | math_solver/equation_parser.py:98 | `\?$` deletes exactly the `?` at the end, or the one before a final newline, as `$` allows; a text with neither is unchanged |
| Extraction.DropSolve | math_solver/equation_parser.py:100 | `^solve\s+` removes a prefix, and removes one exactly when the text starts with `solve` and whitespace; then the prefix is `solve` with the whole whitespace run after it, at least one character, and what remains does not start with whitespace |
| Extraction.SelectDropQuestion | math_solver/equation_parser.py:98 | dropping the final `?` keeps every other character, in order |
| Extraction.SelectDropSolve | math_solver/equation_parser.py:100 | dropping a leading `solve` keeps every character that is neither whitespace nor a letter, in order |
| Extraction.PrepareKeeps | math_solver/equation_parser.py:74-100 | lower-casing, the phrase removals and the question and `solve` removals keep in order every character that is not a word character, whitespace, `,`, `^`, `:`, `?`, `-`, `*`, `/` or a glyph |
| Extraction.Tidy | math_solver/equation_parser.py:102-108 | the result is single-spaced and trimmed, has no `,`, `²` or `³`, and keeps in order every character that is not a word character, whitespace, `,` or `^`; letters and digits are not tracked, Extraction.TidyFixes states when the text is left as it is |
| Extraction.Clean | math_solver/equation_parser.py:74-108 | the text the equation search looks at is single-spaced and trimmed, has no `,`, `²` or `³`, and keeps in order every character that is not a word character, whitespace, `,`, `^`, `:`, `?`, `-`, `*`, `/` or a glyph; letters and digits are not tracked, Extraction.CleanFixes states when the text is left as it is |
| Extraction.PrepareFixes | math_solver/equation_parser.py:74-100 | a lower-case text without glyphs, instruction phrases, a final `?` or a leading `solve` is left unchanged by those steps |
| Extraction.TidyFixes | math_solver/equation_parser.py:102-108 | a single-spaced, trimmed text without a standalone number word, `,`, `²` or `³` is left unchanged by the tidying steps |
| Extraction.CleanFixes | math_solver/equation_parser.py:74-108 | a text the cleaning steps have nothing to do to (Extraction.Settled) is returned unchanged |
| Extraction.FirstSplit | math_solver/equation_parser.py:111 | the leftmost `=` with a non-`=` character on each side is found, and there is none before it |
| Extraction.EquationSpan | math_solver/equation_parser.py:110-115 | `([^=]+)\s*=\s*([^=]+)` matches exactly when some `=` has a non-`=` neighbour on each side; its stripped groups contain no `=` and have no whitespace at either end |
| Extraction.EquationSpanIsFirst | math_solver/equation_parser.py:111-114 | the groups are the maximal `=`-free segments around the first such `=`; any later `=` segments are dropped |
| Extraction.JoinedSidesSplit | math_solver/equation_parser.py:254-258 | the `L = R` text that extraction produces splits on `=` into exactly two parts, which strip back to `L` and `R` |
| Extraction.Keep | math_solver/equation_parser.py:126-128 | the joined `findall` is exactly the subsequence of the class characters: it is a subsequence of the text, as long as the count of class characters, and made only of them; nothing when none belongs, everything when all belong |
| Extraction.MathContentAsWritten | math_solver/equation_parser.py:125-130 | with the class as written, no decimal point survives the filter unless the filter finds nothing at all |
| Extraction.MathContent | math_solver/equation_parser.py:125-130 | with `.` in the class, the result is a subsequence of the text; when some class character occurs, it is exactly the class characters of the text, in order, stripped; otherwise it is the text stripped. A text made only of class characters is returned stripped |
| Extraction.FinishSpan | math_solver/equation_parser.py:110-115 | when the span regex matches, the result is `L = R` and neither side holds an `=` |
| Extraction.FinishSplit | math_solver/equation_parser.py:117-122 | without a span, the text is cut at the index `IndexOf` gives for `=` (the first one: none comes before it), and both halves are stripped |
| Extraction.FinishFilter | math_solver/equation_parser.py:124-130 | a text without any `=` has no span and goes straight to the character filter |
| Extraction.ExtractMath | math_solver/equation_parser.py:69-130 | when the cleaned text holds a span, the result is `L = R` with `=`-free sides; without any `=` it is the cleaned text's mathematical characters |
| Extraction.DecimalPointDropped | math_solver/equation_parser.py:126 | as written, extraction turns `2.5` into `25`; the corrected extraction returns `2.5` |
| Extraction.DecimalSurvives | math_solver/equation_parser.py:126-128 | every decimal numeral survives the corrected extraction unchanged |
| Extraction.InsertStar | math_solver/equation_parser.py:171-172 | after one `*` insertion pass, no digit is followed by a letter (or no letter by a digit); the other kind of pair is not created, and a text without such pairs is unchanged |
| Extraction.SelectInsertStar | math_solver/equation_parser.py:171-172 | the pass only inserts `*`: with every `*` dropped, the result is the text with every `*` dropped |
| Extraction.StripTight | math_solver/equation_parser.py:174 | after whitespace around operators is removed, no whitespace touches an operator |
| Extraction.StripNoGlue | math_solver/equation_parser.py:174 | removing whitespace around operators never glues a digit to a letter |
| Extraction.SpaceOpsShape | math_solver/equation_parser.py:176 | every operator gets a space on each side, and no digit is glued to a letter |
| Extraction.DedupOpsNoGlue | math_solver/equation_parser.py:178 | removing a doubled operator (an operator, whitespace, the same operator) never places a digit directly before a letter that the input kept apart |
| Extraction.DedupNothing | math_solver/equation_parser.py:178 | without a doubled operator the text is unchanged |
| Extraction.SelectDedup | math_solver/equation_parser.py:178 | removing doubled operators keeps, in order, every character that is neither whitespace nor an operator |
| Extraction.Tighten | math_solver/equation_parser.py:167-181 | the normalised text is single-spaced and trimmed, no digit is adjacent to a letter in either order, and its letters, digits and `.` are, in order, those of the text after the operator-word replacements of lines 168-169 |
| Extraction.Normalize | math_solver/equation_parser.py:145-181 | raises exactly when a standalone number word survives extraction, with the source's message; otherwise the result is single-spaced and trimmed with no digit adjacent to a letter, and its letters, digits and `.` are, in order, those of the extracted, glyph-free text after the operator-word replacements |
| Parser.CreateSymbols | math_solver/equation_parser.py:196-211 | the returned map's keys are exactly the requested names. The cache only grows, keeps every symbol it had, and gains exactly the new names. Each returned symbol is the cache's. On a well-named cache, every symbol is the symbol of its own name |
| Parser.RenamingChangesNothing | math_solver/equation_parser.py:228-231 | the loop putting symbol names back into the text leaves it unchanged, since each symbol is named after its variable |
| Parser.ParseNormalized | math_solver/equation_parser.py:223-238 | a normalisation error propagates and leaves the cache alone. A `sympify` failure gives the source's message. Otherwise the result is `sympify`'s tree with one symbol per standalone letter, independent of the cache. The cache gains exactly those letters, even when `sympify` fails |
| Parser.ParseExpression | math_solver/equation_parser.py:213-238 | the reading depends only on the text and the stages, and the cache gains exactly the letters of the normalised text |
| Parser.ParseSides | math_solver/equation_parser.py:258-270 | left side first: the left side's letters reach the cache even when the right side fails. On success the symbols are the union of both sides' letters |
| Parser.ParseEquation | math_solver/equation_parser.py:240-270 | any extracted text that is not split by exactly one `=` is an `Invalid equation format` error that leaves the cache alone; otherwise both sides are parsed; the cache only grows |
| Parser.SpanIsTwoSided | math_solver/equation_parser.py:250-258 | when the cleaned text has an `L = R` span, `parse_equation` never reports a format error and parses exactly `L` and `R` |
| Parser.Pieces | math_solver/equation_parser.py:284-290 | the system text splits into at least one clause, no clause contains the separator, and joining the clauses with `&` gives back the lowered text with the heading removed and each `and` separator made `&` |
| Parser.Candidate | math_solver/equation_parser.py:292-302 | a clause is handed to `parse_equation` exactly when its stripped text holds an `=` with a non-`=` character on each side |
| Parser.PresentPicks | math_solver/equation_parser.py:304-308 | collecting the successful results keeps exactly the successes, in their original order |
| Parser.ParsePieces | math_solver/equation_parser.py:292-310 | the loop returns exactly the equations of the clauses that parse, and the cache only grows |
| Parser.ExtractEquations | math_solver/equation_parser.py:272-310 | the equations found are those of the clauses that parse, and the cache only grows |
| Parser.FoundPicks | math_solver/equation_parser.py:292-310 | the equations found come from an increasing choice of clauses, each of which parses to that equation, and every clause left out fails to parse |
| Parser.Merge | math_solver/equation_parser.py:345-351 | the union of well-named symbol maps is well named |
| Parser.MergeKeys | math_solver/equation_parser.py:349-351 | a name is in the union exactly when some clause's symbols hold it |
| Parser.ParseSystem | math_solver/equation_parser.py:330-353 | an error exactly when no clause parses, with the source's message; otherwise the equations in clause order and the union of their symbols |
| Parser.FoundWellNamed | math_solver/equation_parser.py:349-351 | every symbol map found names each symbol after its variable |
| Steps.AddStep | math_solver/solver.py:337-350 | the log keeps its entries and gains one at the end carrying the next number, so it stays numbered 1..n |
| Steps.AddSteps | math_solver/solver.py:337-350 | appending several steps keeps the log numbered and adds the descriptions in order |
| Steps.NumberedByDescriptions | math_solver/solver.py:345-350 | a numbered log is determined by its descriptions |
| Steps.NatToString | math_solver/solver.py:211 | the step label's numeral is non-empty and made of digits, with no leading zero |
| Steps.NatToStringRoundTrip | math_solver/solver.py:211 | reading back the printed numeral gives the number |
| Algebra.ToPolySound | math_solver/solver.py:51-55 | the polynomial of an expression agrees with the expression's value at every real, so `lhs - rhs` is exactly its standard form |
| Algebra.PadFront | math_solver/solver.py:146-149 | the coefficients are left-padded with zeros to at least three, and the original ones end the list |
| Algebra.AbcAreLowCoefficients | math_solver/solver.py:145-150 | `a, b, c` are the coefficients of x², x and 1 |
| Surds.SEvalAt | math_solver/solver.py:209-210 | exact evaluation at a surd agrees with evaluation at any real it stands for |
| Surds.VerifiedIsRoot | math_solver/solver.py:222 | a root whose exact substitution is zero is a real root for every choice of square root |
| Surds.LinearRootIsZero | math_solver/solver.py:94-97 | `-b/a` substituted into `a·x + b` gives exactly zero |
| Surds.FormulaRootIsZero | math_solver/solver.py:185-194 | both quadratic-formula roots substitute to exactly zero |
| Surds.DoubleRootIsZero | math_solver/solver.py:196-200 | with Δ = 0 the root `-b/(2a)` substitutes to exactly zero |
| Surds.FormulaSolves | math_solver/solver.py:187 | for any `t` with `t·t == Δ`, `(-b + t)/(2a)` solves `a·x² + b·x + c = 0` |
| Roots.QuadraticRoots | math_solver/solver.py:185-206 | one root when Δ = 0, otherwise two, each substituting to exactly zero |
| Roots.SolvePoly | math_solver/solver.py:60 | roots are listed exactly for degree at most 2: none for a constant, `-b/a` for a linear polynomial; every listed root is exact |
| Roots.SolvePolySound | math_solver/solver.py:60 | every real a listed root stands for is a root |
| Roots.SolvePolyComplete | math_solver/solver.py:60 | every real root of a degree-1 or degree-2 polynomial is the value of a listed root, taking the non-negative square root |
| Roots.DenotesUnique | math_solver/solver.py:185-200 | with the square root taken non-negative, a root stands for at most one real |
| Roots.FormulaRootsDistinct | math_solver/solver.py:185-194 | with Δ > 0 the `+` and `-` formula roots stand for two different reals, and both are roots of the quadratic |
| Roots.FormulaDenotesRoot | math_solver/solver.py:185-200 | a real root of a quadratic is `-b/(2a)` when Δ = 0, and otherwise the value of the `+` formula root when `2ax + b ≥ 0` and of the `-` one when it is negative, taking √Δ ≥ 0 |
| Solver.SidesMeet | math_solver/solver.py:51-56 | the two sides are equal at `x` exactly when the standard form vanishes there |
| Solver.SolveLinear | math_solver/solver.py:30-117 | errs exactly without a variable; the log is numbered and starts with the three preamble steps; for a standard form of degree at most 2 the report's outcome follows the linear outcome rules for the first variable |
| Solver.LinearConclusion | math_solver/solver.py:58-107 | all reals for the zero form (verified), no real x for a non-zero constant (not verified), otherwise a root that substitutes to zero (verified); 4 or 5 steps |
| Solver.LinearIdentity | math_solver/solver.py:62-71 | `all real x` means the two sides agree at every real |
| Solver.LinearContradiction | math_solver/solver.py:73-83 | `no real x` means the two sides differ at every real |
| Solver.LinearRootSolves | math_solver/solver.py:94-107 | the reported root makes the two sides equal at every real it stands for |
| Solver.LinearRootUnique | math_solver/solver.py:94-107 | a degree-1 equation has no solution besides the reported `-b/a` |
| Solver.SolveQuadratic | math_solver/solver.py:119-234 | errs exactly without a variable; the log is numbered. A quadratic report carries the padded `a, b, c` of the standard form with `a ≠ 0`, and is verified exactly when every root substitutes to zero. A constant standard form (so `a = 0`) ends in the error report `Original equation`, `Error`, whose message is that a `BooleanTrue`/`BooleanFalse` has no `lhs` |
| Solver.Quadratic | math_solver/solver.py:158-223 | a factorization takes the factor path and its absence the formula path; both keep the first three steps and verify exactly when every root is exact |
| Solver.Conclude | math_solver/solver.py:208-223 | one verification step per root, and `verification` is the AND over all roots |
| Solver.Repeat | math_solver/solver.py:170-175 | solving a factor `exp` times lists its roots `exp` times over, in order: position i holds root i mod (number of roots); nothing else is listed |
| Solver.FactorRoots | math_solver/solver.py:168-176 | the roots collected are exactly the roots of the factors visited at least once; they are defined exactly when every such factor has degree at most 2 |
| Solver.FactorRootsSnoc | math_solver/solver.py:168-176 | visiting one more factor appends its roots, repeated `exp` times, to those collected so far; once a visited factor has degree above 2 the collection is undefined |
| Solver.FactorRootsCount | math_solver/solver.py:168-176 | the number of roots collected is the sum over the factors of `exp` times the number of that factor's roots |
| Solver.FactorPath | math_solver/solver.py:159-176 | the factor path has no discriminant, its solutions are the collected factor roots, and its step count is 4 + [GCD step] + total multiplicity + roots |
| Solver.FormulaPath | math_solver/solver.py:177-206 | Δ > 0 gives the two formula roots in 9 steps; Δ = 0 the single root in 7; Δ < 0 takes the complex branch. The discriminant is recorded on every path |
| Solver.QuadraticDegenerate | math_solver/solver.py:153-156 | with `a = 0` and a standard form that still mentions the variable, the result is exactly the linear solver's on `standard_form = 0`, whose log restarts at step 1 |
| Solver.QuadraticFormulaVerified | math_solver/solver.py:177-222 | without a factorization a genuine quadratic is verified, with one root when Δ = 0 and two otherwise |
| Solver.TwoRealRootsVerified | math_solver/solver.py:185-194 | with Δ > 0 the report lists the `+` formula root, then the `-` one, and both substitute to zero |
| Solver.RepeatedRootVerified | math_solver/solver.py:196-200 | with Δ = 0 the report lists `-b/(2a)` alone, and it substitutes to zero |
| Solver.ComplexRootsVerified | math_solver/solver.py:202-206 | with Δ < 0 the report lists the two complex conjugate formula roots, and both substitute to zero |
| Solver.QuadraticRootsSolve | math_solver/solver.py:177-222 | every real a formula-path root stands for solves the equation |
| Solver.QuadraticRootsComplete | math_solver/solver.py:177-206 | every real solution of a genuine quadratic without factorization is the value of a formula-path root, taking √Δ ≥ 0: of `-b/(2a)` when Δ = 0, otherwise of the root whose sign is that of `2ax + b` |
| Solver.ProductVanishes | math_solver/solver.py:168-175 | a product of factor powers vanishes where a factor with positive multiplicity does |
| Solver.FactorRootsVanish | math_solver/solver.py:168-176 | with a faithful factorization, every collected root is a root of the standard form |
| Solver.FactorRootsSolve | math_solver/solver.py:158-176 | with a faithful factorization, every factor-path root solves the equation |
| Solver.Labels | math_solver/solver.py:209-212 | the labels `Verify solution 1` .. `Verify solution n`, `Solution 1` .. `Solution k` and `Verify equation 1` .. `Verify equation n`: the i-th label is the prefix followed by the numeral of i |
| Solver.PairLabels | math_solver/solver.py:270-275 | one label per equation and solution pair, n·k in all |
| Solver.PairLabelsIndex | math_solver/solver.py:270-275 | the label at position i·k + j is `Verify equation i+1, solution j+1`: equation by equation, and solution by solution within one |
| Solver.SolveSystem | math_solver/solver.py:236-309 | a raised solver gives an error report of 2 steps carrying its message. An empty answer is reported with solutions None and not verified; any other report carries the answer and is verified. A list of k mappings gives 2 + k + n·k steps and a single mapping 2 + n. A non-empty list of k tuples fails at the first substitution: an error report of 3 + k steps when there is an equation |
| Solver.SolutionSteps | math_solver/solver.py:259-264 | a non-empty list answer is logged as `Solutions` followed by `Solution 1` .. `Solution k`, before any substitution |
| Solver.NoSystemSolution | math_solver/solver.py:289-298 | an empty answer is reported unverified with the steps `Original system`, `No solution` |
| Solver.SolveProblem | math_solver/solver.py:311-335 | an unknown type gives `Unknown problem type: …` with empty steps; each known type runs its solver, whose log is numbered |

## Left out

- NLTK is not modelled: its downloads, the stop words and `word_tokenize`. Tokenisation is the whitespace-split fallback of `extract_keywords`.
- `_load_keywords` is not modelled, because it reads a file. The keyword table is the built-in one.
- `extract_equations` of `NLPProcessor` is not modelled, and neither is the `equations` field of the analysis. No other part of the core uses that field.
- Case folding, `\s`, `\w` and `\d` are ASCII only, except that `²` and `³` count as word characters, as they do in Python. Whitespace is space, tab, newline, `\x0b`, `\x0c` and carriage return. Python's `\s` and `str.split()` also treat the separators `\x1c` to `\x1f`, and non-ASCII spaces, as whitespace; these, non-ASCII upper-case letters and other Unicode word characters are outside the model.
- Nlp.Confidence: the float sum is modelled in integer tenths. A score below 0.3 is a score below 3 tenths.
- Nlp.ExtractNumbers: each value is the exact decimal value of its numeral, a `real`. The source's `float(num)` is the nearest double instead: `0.1` is not exactly 1/10, and a numeral of about 400 digits becomes `inf`.
- Nlp.ExtractVariables: `list(set(...))` has an unspecified order, so variables are a set. Runs.StandaloneLetters is used the same way for `EquationParser.extract_variables`.
- The alternative `\s+and\s+` in the system splitter is not modelled. After `and\s+` has become `&` it can no longer match, so splitting on `&` is the whole split. The whitespace `\s*&\s*` also consumes is removed by the `strip` of each part on line 293, so Parser.Pieces splits at `&` alone and keeps it.
- Parser.ExtractEquations: the warning printed for a clause that fails to parse is not modelled. The clause is dropped.
- Parser.CreateSymbols: the solver assumes the cache names each symbol after its variable (`WellNamed`). `create_symbols` is the only code that writes `self.variables`, and it keeps that property.
- `sympify`, `simplify`, `expand`, `factor`, `gcd_terms`, `factor_list` and the system `sp.solve` are abstracted:
  - `sympify` is a parameter that returns a tree or an error message;
  - `expand`, `simplify` and single-variable `solve` are exact polynomial arithmetic;
  - the factor family is an `Option<Factorization>` parameter;
  - the system solver is a `SystemAnswer` parameter.
- The step content strings are not modelled. They are SymPy's printing of intermediate expressions. Only the step descriptions are kept, and a description that embeds a printed expression keeps only its fixed part: `Solve factor: {factor}` is logged as `Solve factor`.
- The `error` key of a failed linear or quadratic solve is not modelled, except for the degenerate quadratic whose standard form is a constant. Such failures come from SymPy, for example a non-polynomial expression.
- Solver.SolveLinear: a standard form that is not a polynomial in the variable, or has degree above 2, gives `Unmodelled`. This includes a form that mentions a second variable: for `x + y = 5` SymPy treats `y` as a coefficient and reports the root `5 - y`, while the model reports `Unmodelled`.
- Solver.SolveQuadratic: a standard form that is not a polynomial in the variable gives `Unmodelled`, and so does a factor or complex branch needing degree above 2. SymPy's `PolynomialError` path is inside `Unmodelled`. This includes a form that mentions a second variable. For `x^2 = y`, solved for `x`, `sp.Poly` takes `-y` as the constant coefficient, so the source goes on to the formula path with Δ = `4*y`. There `4*y > 0` raises a `TypeError`, since the sign of an unconstrained symbol is unknown, and lines 225-234 turn it into an error report whose last step is `Error`. The model's polynomials have real coefficients only, so it reports `Unmodelled` as soon as the form mentions a variable other than the one solved for.
- Solver.LinearConclusion: the `None` outcome of lines 84-93 has no constructor. A form in one variable of degree 0 without roots is a non-zero constant, which the contradiction branch takes, and one of degree 1 or 2 has a root SymPy lists.
- A root `p + q·√d` (Roots.Denotes) stands for the real it has when `√d` is the non-negative square root, as SymPy's `sqrt` means it. A negative `d` stands for no real.
- The order in which SymPy lists roots is not modelled. The formula path lists `+` before `-`, as the source does.
- `verification == 0` is modelled as an exact zero test of the surd. SymPy's `==` is structural: it compares the substituted expression with 0 without simplifying it. For a rational root the two agree. For an irrational or complex root with `b ≠ 0` SymPy's comparison is `False`. For example, `x² + 3x + 1 = 0` substitutes `(-3/2 + √5/2)**2 + 3·(-3/2 + √5/2) + 1`, which SymPy leaves unsimplified. The ten members listed next therefore promise `verification` True where the source reports False.
- Solver.Quadratic: "verified exactly when every root is exact" is the exact test, not SymPy's structural one.
- Solver.Conclude: `verification` is the AND of exact zero tests, so a root is counted as verified where SymPy's unsimplified comparison is `False`.
- Solver.FactorPath: the factor roots are verified by the exact test. For `2x² + 6x + 2 = 0`, a factorization as `2·(x² + 3x + 1)` gives the roots `-3/2 ± √5/2`; the source's check at line 222 is `False` for them, while the model reports them verified.
- Solver.FormulaPath: the formula roots are verified by the exact test, so with `b ≠ 0` and Δ not a square, or Δ < 0, the model reports verified where the source does not.
- Solver.QuadraticFormulaVerified: a genuine quadratic without factorization is verified; the source is not, when its roots are irrational or complex and `b ≠ 0`.
- Solver.TwoRealRootsVerified: with Δ > 0 both roots substitute to zero; in the source they are irrational unless Δ is a square, so its check fails whenever `b ≠ 0` and Δ is not a square.
- Solver.ComplexRootsVerified: with Δ < 0 both roots substitute to zero; the source's check of complex roots fails whenever `b ≠ 0`.
- Solver.SolveQuadratic: `verified` is the exact test on every path.
- Solver.SolveLinear: the root of a degree-2 form reaching the linear solver is verified exactly; the source's check fails for an irrational root with a linear term.
- Solver.LinearConclusion: the same, for the root branch.
- Solver.SolveSystem: the substitution results are not computed. A mapping answer is verified unconditionally, as in the source. A tuple answer (what `sp.solve` returns for several solutions of a nonlinear system) makes `eq.subs` raise at line 273; the text of that TypeError comes from SymPy and is a field of the answer.
- Extraction.Normalize: the whole parsing pipeline (`Normalize`, and through it `Parser.Standard`) is built on the corrected extraction of the Findings table. So `2.5` stays `2.5`, where the source's `normalize_expression` gives `25`. And `f.ive x` is accepted, where the source's filter turns it into `five x` and raises the number-word error.
- Parser.ParseEquation: SymPy evaluates `sp.Eq(l, r)` to `BooleanTrue` or `BooleanFalse` when `l - r` is automatically a number, as in `x + 1 = x + 2` or `x = x`. The model always builds `Eq(l, r)`. In the source the linear solver then raises `AttributeError` at `equation.lhs` (line 51), outside its `try`, so `solve_problem` raises too. The model instead reaches Solver.LinearIdentity or Solver.LinearContradiction, which hold where `sp.Eq` stays symbolic because SymPy does not expand the difference, as in `(x + 1)^2 = x^2 + 2x + 1`. Only the quadratic solver's own `sp.Eq(standard_form, 0)` at line 156 is modelled as a Boolean.
- The thin SymPy wrappers are not modelled:
  - `validate_expression`, `simplify_expression`, `factor_expression`, `expand_expression`, `get_expression_info`;
  - `parse_quadratic_equation`, which is `parse_equation` followed by `expand`;
  - `verify_solution`;
  - `get_solution_summary`.
- Also out of scope:
  - the visualizer, the Streamlit UI and the demo and debug scripts;
  - `self.solution_steps`, modelled as a value returned by each call, since the shared mutable state is not needed;
  - concurrency.

## Findings

| source | as written | input that shows it | evidently intended | confidence | as-written member | corrected member |
|---|---|---|---|---|---|---|
| math_solver/equation_parser.py:126 | the fallback filter's class `[a-zA-Z0-9+\-*/^()=\s]` has no `.`, so a decimal point is dropped whenever the text has no `=` | `x = 2.5`: `parse_equation` re-extracts its right side `2.5`, which becomes `25` | decimal numerals such as `2.5` survive extraction (the number pattern on line 32 accepts them) | not executed | Extraction.ExtractMathAsWritten, shown by Extraction.DecimalPointDropped | Extraction.ExtractMath, with Extraction.DecimalSurvives |
