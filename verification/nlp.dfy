/**
 * Problem analysis (`NLPProcessor`): text pre-normalisation, keyword
 * extraction, problem classification with fixed precedence, variable and
 * number extraction, a confidence score, and input validation.
 */
module Nlp {
  import opened Strings
  import opened Runs

  // ---------------------------------------------------------------------------
  // Pre-normalisation

  /** The `replace` calls of `preprocess_text`, in the order they run. */
  const Substitutions: seq<(string, string)> := [
    ("×", "*"), ("÷", "/"), ("²", "^2"), ("³", "^3"),
    ("plus", "+"), ("minus", "-"),
    ("times", "*"), ("multiplied by", "*"),
    ("divided by", "/"), ("over", "/"),
    ("equals", "="), ("is equal to", "=")
  ]

  /** Characters the phrases are made of; no replacement uses them. */
  predicate PhraseChar(c: char) {
    IsAlpha(c) || c == ' ' || c == '×' || c == '÷' || c == '²' || c == '³'
  }

  /** Replacement characters are operators and the digits 2 and 3. */
  predicate SymbolChar(c: char) {
    c == '*' || c == '/' || c == '^' || c == '2' || c == '3' || c == '+' || c == '-' || c == '='
  }

  /** Phrases are made of phrase characters and replacements of symbols. */
  lemma SubstitutionClasses()
    ensures forall k, i | 0 <= k < |Substitutions| && 0 <= i < |Substitutions[k].0| :: PhraseChar(Substitutions[k].0[i])
    ensures forall k, i | 0 <= k < |Substitutions| && 0 <= i < |Substitutions[k].1| :: SymbolChar(Substitutions[k].1[i])
  {
    forall k | 0 <= k < |Substitutions|
      ensures (forall i | 0 <= i < |Substitutions[k].0| :: PhraseChar(Substitutions[k].0[i]))
      ensures forall i | 0 <= i < |Substitutions[k].1| :: SymbolChar(Substitutions[k].1[i])
    {
    }
  }

  lemma SubstitutionsAreSafe()
    ensures SafeTable(Substitutions) && Separated(Substitutions)
  {
    SubstitutionClasses();
    SeparatedByClass(Substitutions, PhraseChar);
  }

  /**
   * A character pre-normalisation never touches: not whitespace, not in any
   * phrase, not produced by any replacement (digits other than 2 and 3,
   * brackets, the decimal point and the like).
   */
  predicate Plain(c: char) {
    !PhraseChar(c) && !SymbolChar(c) && !IsWs(c)
  }

  /**
   * `preprocess_text`: lower-case, collapse whitespace, then the
   * substitutions. The result is canonical and keeps every plain character
   * of the input, in order.
   */
  function Preprocess(text: string): (r: string)
    ensures Canonical(r)
    ensures Select(r, Plain) == Select(text, Plain)
  {
    var lowered := Lower(text);
    var collapsed := Collapse(lowered);
    SubstitutionsAreSafe();
    ChainKeepsCanonical(collapsed, Substitutions);
    SelectLower(text, Plain);
    SelectSolid(lowered, Plain);
    SelectSolid(collapsed, Plain);
    SubstitutionClasses();
    SelectChain(collapsed, Substitutions, Plain);
    ReplaceChain(collapsed, Substitutions)
  }

  /** No phrase of the table survives pre-normalisation. */
  lemma PreprocessRemovesPhrases(text: string)
    ensures forall k | 0 <= k < |Substitutions| :: !Contains(Preprocess(text), Substitutions[k].0)
  {
    SubstitutionsAreSafe();
    ChainRemoves(Collapse(Lower(text)), Substitutions);
  }

  /** Pre-normalising twice gives what pre-normalising once gives. */
  lemma PreprocessIdempotent(text: string)
    ensures Preprocess(Preprocess(text)) == Preprocess(text)
  {
    PreprocessRemovesPhrases(text);
    PreprocessFixes(Preprocess(text));
  }

  /** A canonical text free of the phrases is left as it is. */
  lemma PreprocessFixes(t: string)
    requires Canonical(t)
    requires forall k | 0 <= k < |Substitutions| :: !Contains(t, Substitutions[k].0)
    ensures Preprocess(t) == t
  {
    assert NoUpper(t);
    LowerIdempotent(t);
    CollapseSpaced(t);
    SubstitutionsAreSafe();
    ChainOfAbsentIsIdentity(t, Substitutions);
  }

  /**
   * A canonical text whose one phrase occurrence is entry `k`'s phrase at
   * `|x|`: pre-normalisation swaps that phrase for its symbol and leaves
   * the text on both sides as it is.
   */
  lemma {:induction false} PreprocessReplacesOne(x: string, y: string, k: nat)
    requires k < |Substitutions| && Canonical(x + Substitutions[k].0 + y)
    requires forall j, i: nat | 0 <= j < |Substitutions| && OccursAt(x + Substitutions[k].0 + y, Substitutions[j].0, i) ::
               j == k && i == |x|
    ensures Preprocess(x + Substitutions[k].0 + y) == x + Substitutions[k].1 + y
  {
    var p, q := Substitutions[k].0, Substitutions[k].1;
    var s := x + p + y;
    assert NoUpper(s);
    LowerIdempotent(s);
    CollapseSpaced(s);
    SubstitutionsAreSafe();
    forall j | k < j < |Substitutions| ensures !Contains(x + q + y, Substitutions[j].0) {
      assert !Contains(s, Substitutions[j].0);
      SwapKeepsAbsent(x, p, q, y, Substitutions[j].0);
    }
    ChainOnce(x, y, Substitutions, k);
  }

  /** "x plus y" becomes "x + y". */
  lemma {:induction false} PreprocessPlus()
    ensures Preprocess("x plus y") == "x + y"
  {
    assert Substitutions[4] == ("plus", "+");
    assert "x " + "plus" + " y" == "x plus y";
    assert "x " + "+" + " y" == "x + y";
    PlusOccursOnce();
    PreprocessReplacesOne("x ", " y", 4);
  }

  /** In "x plus y" the only phrase is the "plus" at 2. */
  lemma {:induction false} PlusOccursOnce()
    ensures forall j, i: nat | 0 <= j < |Substitutions| && OccursAt("x plus y", Substitutions[j].0, i) :: j == 4 && i == 2
  {
    var text := "x plus y";
    forall j, i: nat | 0 <= j < |Substitutions| && OccursAt(text, Substitutions[j].0, i)
      ensures j == 4 && i == 2
    {
      var w := Substitutions[j].0;
      assert text[i..i + |w|][0] == w[0] == text[i];
      if j != 4 {
        PhraseHeads(j);
      }
    }
  }

  lemma {:induction false} PhraseHeads(j: nat)
    requires j < |Substitutions| && j != 4
    ensures |Substitutions[j].0| > 0 && Substitutions[j].0[0] !in "x plus y"
  {
    if j == 0 {} else if j == 1 {} else if j == 2 {} else if j == 3 {} else if j == 5 {}
    else if j == 6 {} else if j == 7 {} else if j == 8 {} else if j == 9 {} else if j == 10 {} else {}
  }

  // ---------------------------------------------------------------------------
  // Keywords

  /** The built-in keyword table, category by category. */
  const Categories: seq<(string, seq<string>)> := [
    ("linear", ["linear", "first degree", "simple equation"]),
    ("quadratic", ["quadratic", "second degree", "squared", "x²", "x^2"]),
    ("system", ["system", "simultaneous", "both", "and", "together"]),
    ("solve", ["solve", "find", "calculate", "determine", "what is"]),
    ("roots", ["roots", "solutions", "zeros", "x-intercepts"]),
    ("variables", ["x", "y", "z", "a", "b", "c", "variable"]),
    ("operations", ["plus", "minus", "times", "divided by", "equals", "="]),
    ("numbers", ["zero", "one", "two", "three", "four", "five", "six", "seven", "eight", "nine", "ten"])
  ]

  const LinearKeywords: seq<string> := Categories[0].1
  const QuadraticKeywords: seq<string> := Categories[1].1
  const SystemKeywords: seq<string> := Categories[2].1

  /** `token in keywords or any(keyword in token for keyword in keywords)`. */
  predicate Matches(token: string, keywords: seq<string>) {
    token in keywords || exists k | 0 <= k < |keywords| :: Contains(token, keywords[k])
  }

  /** The tokens that match, in order and with repetitions. */
  function Hits(tokens: seq<string>, keywords: seq<string>): (r: seq<string>)
    ensures |r| <= |tokens|
    ensures forall t :: t in r <==> t in tokens && Matches(t, keywords)
    ensures forall t :: multiset(r)[t] == if Matches(t, keywords) then multiset(tokens)[t] else 0
    decreases |tokens|
  {
    if |tokens| == 0 then []
    else
      assert tokens == [tokens[0]] + tokens[1..];
      (if Matches(tokens[0], keywords) then [tokens[0]] else []) + Hits(tokens[1..], keywords)
  }

  /** The keyword list of a category name of the table. */
  function KeywordsOf(name: string): seq<string> {
    KeywordsFrom(Categories, name)
  }

  function KeywordsFrom(table: seq<(string, seq<string>)>, name: string): seq<string>
    decreases |table|
  {
    if |table| == 0 then [] else if table[0].0 == name then table[0].1 else KeywordsFrom(table[1..], name)
  }

  function CategoryNames(): set<string> {
    set k | 0 <= k < |Categories| :: Categories[k].0
  }

  /**
   * `extract_keywords` with the whitespace-split tokeniser: every category
   * is present, and a token is listed under a category exactly when it
   * matches one of the category's keywords.
   */
  function ExtractKeywords(text: string): (r: map<string, seq<string>>)
    ensures r.Keys == CategoryNames()
    ensures forall c, t | c in r :: t in r[c] <==> t in Words(text) && Matches(t, KeywordsOf(c))
    ensures forall c, t | c in r :: multiset(r[c])[t] == if Matches(t, KeywordsOf(c)) then multiset(Words(text))[t] else 0
  {
    map c | c in CategoryNames() :: Hits(Words(text), KeywordsOf(c))
  }

  lemma CategoryLookups()
    ensures KeywordsOf("linear") == LinearKeywords
    ensures KeywordsOf("quadratic") == QuadraticKeywords
    ensures KeywordsOf("system") == SystemKeywords
    ensures "linear" in CategoryNames() && "quadratic" in CategoryNames() && "system" in CategoryNames()
  {
    assert Categories[0].0 == "linear";
    assert Categories[1].0 == "quadratic";
    assert Categories[2].0 == "system";
  }

  // ---------------------------------------------------------------------------
  // Classification

  datatype ProblemType = Linear | Quadratic | System | Unknown

  /** First index at or after `i` that is not whitespace (`\s*` taken greedily). */
  function SkipWs(s: string, i: nat): (j: nat)
    ensures i <= j || j == |s|
    ensures j <= |s| || j == i
    ensures j < |s| ==> !IsWs(s[j])
    ensures forall k | i <= k < j :: IsWs(s[k])
    decreases |s| - i
  {
    if i < |s| && IsWs(s[i]) then SkipWs(s, i + 1) else i
  }

  /**
   * `[a-zA-Z]\s*[ops]\s*\d` (when `letterFirst`) or `\d\s*[ops]\s*[a-zA-Z]`
   * matches with its first character at `i`.
   */
  predicate LinkedAt(s: string, i: nat, ops: string, letterFirst: bool) {
    && i < |s|
    && (if letterFirst then IsAlpha(s[i]) else IsDigit(s[i]))
    && var j := SkipWs(s, i + 1);
    && j < |s| && s[j] in ops
    && var k := SkipWs(s, j + 1);
    && k < |s| && (if letterFirst then IsDigit(s[k]) else IsAlpha(s[k]))
  }

  /** End of the run of letters starting at `i`. */
  function LettersEnd(s: string, i: nat): (e: nat)
    ensures i <= e
    ensures e <= |s| || e == i
    ensures forall k | i <= k < e :: IsAlpha(s[k])
    decreases |s| - i
  {
    if i < |s| && IsAlpha(s[i]) then LettersEnd(s, i + 1) else i
  }

  /**
   * The words of `lead` at `i`, each followed by `\s+`; the position after
   * the last run of whitespace, if they are there.
   */
  function AfterLead(s: string, i: nat, lead: seq<string>): (r: Cursor)
    ensures r.At? && |lead| > 0 ==> i < r.pos
    decreases |lead|
  {
    if |lead| == 0 then At(i)
    else if OccursAt(s, lead[0], i) && |lead[0]| > 0 then
      var j := SkipWs(s, i + |lead[0]|);
      if j > i + |lead[0]| then AfterLead(s, j, lead[1..]) else Stuck
    else Stuck
  }

  /** A position in the text reached by a partial match, or no match. */
  datatype Cursor = Stuck | At(pos: nat)

  /**
   * `LEAD\s+[a-zA-Z]+\s*if` matches at `i`: the letter run may give back
   * characters, so `xif` after `find ` matches with `x` as the name.
   */
  predicate LeadNameIfAt(s: string, i: nat, lead: seq<string>) {
    && |lead| > 0
    && AfterLead(s, i, lead).At?
    && var k := AfterLead(s, i, lead).pos;
    && exists e: nat | k < e <= LettersEnd(s, k) :: OccursAt(s, "if", SkipWs(s, e))
  }

  /** The four linear-shape regexes of `classify_problem_type`. */
  predicate LinearShape(s: string) {
    exists i: nat | i < |s| ::
      || LinkedAt(s, i, "+-*/", true) || LinkedAt(s, i, "+-*/", false)
      || LeadNameIfAt(s, i, ["find"]) || LeadNameIfAt(s, i, ["what", "is"])
      || LinkedAt(s, i, "=", true) || LinkedAt(s, i, "=", false)
  }

  predicate SystemSignal(text: string) {
    (exists t | t in Words(text) :: Matches(t, SystemKeywords)) || (Contains(text, "and") && Contains(text, "="))
  }

  predicate QuadraticSignal(text: string) {
    (exists t | t in Words(text) :: Matches(t, QuadraticKeywords)) || Contains(text, "^2") || Contains(text, "²")
  }

  predicate LinearSignal(text: string) {
    (exists t | t in Words(text) :: Matches(t, LinearKeywords)) || LinearShape(text)
  }

  /** `classify_problem_type`: system before quadratic before linear. */
  function Classify(text: string): (r: ProblemType)
    ensures r == System <==> SystemSignal(text)
    ensures r == Quadratic <==> !SystemSignal(text) && QuadraticSignal(text)
    ensures r == Linear <==> !SystemSignal(text) && !QuadraticSignal(text) && LinearSignal(text)
    ensures r == Unknown <==> !SystemSignal(text) && !QuadraticSignal(text) && !LinearSignal(text)
  {
    var kw := ExtractKeywords(text);
    CategoryLookups();
    if |kw["system"]| > 0 || (Contains(text, "and") && Contains(text, "=")) then
      assert |kw["system"]| > 0 ==> kw["system"][0] in kw["system"];
      System
    else if |kw["quadratic"]| > 0 || Contains(text, "^2") || Contains(text, "²") then
      assert |kw["quadratic"]| > 0 ==> kw["quadratic"][0] in kw["quadratic"];
      Quadratic
    else if |kw["linear"]| > 0 || LinearShape(text) then
      assert |kw["linear"]| > 0 ==> kw["linear"][0] in kw["linear"];
      Linear
    else
      Unknown
  }

  // ---------------------------------------------------------------------------
  // Variables and numbers

  /** `re.search(r'\b[a-zA-Z]\b', text)`. */
  predicate HasStandaloneLetter(text: string) {
    exists i: nat | i < |text| :: LetterStandsAlone(text, i)
  }

  /** `extract_variables`: the distinct single letters standing alone. */
  function ExtractVariables(text: string): (r: set<string>)
    ensures forall v | v in r :: |v| == 1 && exists i: nat :: LetterStandsAlone(text, i) && text[i] == v[0]
    ensures forall i: nat | LetterStandsAlone(text, i) :: [text[i]] in r
    ensures |r| > 0 <==> HasStandaloneLetter(text)
  {
    var r := StandaloneLetters(text);
    assert |r| > 0 <==> HasStandaloneLetter(text) by {
      if HasStandaloneLetter(text) {
        var i: nat :| i < |text| && LetterStandsAlone(text, i);
        assert [text[i]] in r;
      }
      if |r| > 0 {
        var v :| v in r;
      }
    }
    r
  }

  /** A lexeme `re.findall(r'\b(\d+(?:\.\d+)?)\b', ...)` returns: digits, or digits, a dot and digits. */
  predicate Numeral(w: string) {
    AllDigits(w) || exists n | 0 < n < |w| - 1 :: w[n] == '.' && AllDigits(w[..n]) && AllDigits(w[n + 1..])
  }

  /**
   * The numerals of a run sequence: a digit run followed by a `.` run and a
   * digit run gives one decimal numeral; any other digit run is an integer.
   */
  function NumeralsOf(runs: seq<string>): (r: seq<string>)
    ensures forall k | 0 <= k < |r| :: Numeral(r[k])
    ensures |r| == 0 <==> forall k | 0 <= k < |runs| :: !AllDigits(runs[k])
    decreases |runs|
  {
    if |runs| == 0 then []
    else if AllDigits(runs[0]) then
      if |runs| >= 3 && runs[1] == "." && AllDigits(runs[2]) then
        var w := runs[0] + "." + runs[2];
        assert w[..|runs[0]|] == runs[0] && w[|runs[0]| + 1..] == runs[2];
        [w] + NumeralsOf(runs[3..])
      else
        [runs[0]] + NumeralsOf(runs[1..])
    else
      assert forall k | 1 <= k < |runs| :: runs[k] == runs[1..][k - 1];
      NumeralsOf(runs[1..])
  }

  /** Cut at their points, the numerals of a run sequence are exactly its digit runs, in order. */
  lemma {:induction false} NumeralsPieces(runs: seq<string>)
    ensures LexemePieces(NumeralsOf(runs)) == DigitRuns(runs)
    decreases |runs|
  {
    if |runs| > 0 && AllDigits(runs[0]) {
      if |runs| >= 3 && runs[1] == "." && AllDigits(runs[2]) {
        NumeralsPieces(runs[3..]);
        DecimalStep(runs, runs[0] + "." + runs[2], NumeralsOf(runs[3..]));
      } else {
        NumeralsPieces(runs[1..]);
        IntegerStep(runs, NumeralsOf(runs[1..]));
      }
    } else if |runs| > 0 {
      NumeralsPieces(runs[1..]);
    }
  }

  /** The runs of digits, in order. */
  function DigitRuns(runs: seq<string>): (r: seq<string>)
    ensures forall k | 0 <= k < |r| :: AllDigits(r[k])
    decreases |runs|
  {
    if |runs| == 0 then []
    else (if AllDigits(runs[0]) then [runs[0]] else []) + DigitRuns(runs[1..])
  }

  /** A numeral cut at its point: the one or two digit strings it is written with. */
  function NumeralPieces(w: string): seq<string> {
    var n := IndexOf(w, '.');
    if n == |w| then [w] else [w[..n], w[n + 1..]]
  }

  function LexemePieces(ws: seq<string>): seq<string>
    decreases |ws|
  {
    if |ws| == 0 then [] else NumeralPieces(ws[0]) + LexemePieces(ws[1..])
  }

  lemma DecimalStep(runs: seq<string>, w: string, rest: seq<string>)
    requires |runs| >= 3 && AllDigits(runs[0]) && runs[1] == "." && AllDigits(runs[2])
    requires w == runs[0] + "." + runs[2]
    requires LexemePieces(rest) == DigitRuns(runs[3..])
    ensures LexemePieces([w] + rest) == DigitRuns(runs)
  {
    DecimalPieces(runs[0], runs[2]);
    LexemePiecesCons(w, rest);
    DigitRunsDecimal(runs);
  }

  /** A decimal numeral spans three runs, and two of them are digit runs. */
  lemma DigitRunsDecimal(runs: seq<string>)
    requires |runs| >= 3 && AllDigits(runs[0]) && runs[1] == "." && AllDigits(runs[2])
    ensures DigitRuns(runs) == [runs[0], runs[2]] + DigitRuns(runs[3..])
  {
    var tail1, tail2 := runs[1..], runs[2..];
    assert tail1[1..] == tail2 && tail2[1..] == runs[3..];
    assert !AllDigits(tail1[0]) by {
      assert tail1[0][0] == '.';
    }
    assert DigitRuns(tail2) == [runs[2]] + DigitRuns(runs[3..]);
  }

  lemma IntegerStep(runs: seq<string>, rest: seq<string>)
    requires |runs| > 0 && AllDigits(runs[0])
    requires LexemePieces(rest) == DigitRuns(runs[1..])
    ensures LexemePieces([runs[0]] + rest) == DigitRuns(runs)
  {
    assert IndexOf(runs[0], '.') == |runs[0]|;
    LexemePiecesCons(runs[0], rest);
  }

  lemma LexemePiecesCons(w: string, rest: seq<string>)
    ensures LexemePieces([w] + rest) == NumeralPieces(w) + LexemePieces(rest)
  {
    assert ([w] + rest)[1..] == rest;
  }

  lemma DecimalPieces(a: string, b: string)
    requires AllDigits(a)
    ensures NumeralPieces(a + "." + b) == [a, b]
  {
    var w := a + "." + b;
    assert w[|a|] == '.';
    assert IndexOf(w, '.') == |a|;
    assert w[..|a|] == a && w[|a| + 1..] == b;
  }

  /** A `.` run and a digit run follow the run at `i`: with a digit run at `i` they make one decimal numeral. */
  predicate DecimalAt(runs: seq<string>, i: nat) {
    i + 2 < |runs| && runs[i + 1] == "." && AllDigits(runs[i + 2])
  }

  /** The numeral that starts at the digit run `i`. */
  function LexemeAt(runs: seq<string>, i: nat): string
    requires i < |runs|
  {
    if DecimalAt(runs, i) then runs[i] + "." + runs[i + 2] else runs[i]
  }

  /** Where the search resumes after the numeral that starts at `i`. */
  function After(runs: seq<string>, i: nat): nat {
    if DecimalAt(runs, i) then i + 3 else i + 1
  }

  /** Each numeral `r[k]` starts at the digit run `idx[k]` and is the lexeme found there. */
  predicate Placed(runs: seq<string>, idx: seq<nat>, r: seq<string>) {
    |idx| == |r| &&
    forall k | 0 <= k < |idx| :: idx[k] < |runs| && AllDigits(runs[idx[k]]) && r[k] == LexemeAt(runs, idx[k])
  }

  /** Each numeral starts after the runs the one before it used. */
  predicate Ordered(runs: seq<string>, idx: seq<nat>) {
    forall k | 0 < k < |idx| :: After(runs, idx[k - 1]) <= idx[k]
  }

  /** The digit run `j` starts a numeral, or is the fraction of one. */
  predicate CoveredBy(runs: seq<string>, idx: seq<nat>, j: nat) {
    exists k | 0 <= k < |idx| :: idx[k] == j || (DecimalAt(runs, idx[k]) && idx[k] + 2 == j)
  }

  /** Every digit run from `from` on is used by some numeral. */
  predicate Covers(runs: seq<string>, idx: seq<nat>, from: nat) {
    forall j: nat | from <= j < |runs| && AllDigits(runs[j]) :: CoveredBy(runs, idx, j)
  }

  /**
   * `r` groups the runs the way the number pattern does: numerals start at
   * increasing digit runs, each is a decimal exactly when a `.` run and a
   * digit run follow, and no digit run is left out.
   */
  predicate Grouping(runs: seq<string>, idx: seq<nat>, r: seq<string>) {
    Placed(runs, idx, r) && Ordered(runs, idx) && Covers(runs, idx, 0)
  }

  function Shift(idx: seq<nat>, d: nat): (r: seq<nat>)
    ensures |r| == |idx| && forall k | 0 <= k < |idx| :: r[k] == idx[k] + d
  {
    seq(|idx|, k requires 0 <= k < |idx| => idx[k] + d)
  }

  /** Positions in a tail of the runs are positions in the runs, `d` further on. */
  lemma {:induction false} AtShift(runs: seq<string>, d: nat, i: nat)
    requires d + i < |runs|
    ensures DecimalAt(runs[d..], i) == DecimalAt(runs, i + d)
    ensures LexemeAt(runs[d..], i) == LexemeAt(runs, i + d)
    ensures After(runs[d..], i) + d == After(runs, i + d)
  {
  }

  /** A grouping of a tail of the runs, shifted, places and orders the same numerals in the runs. */
  lemma {:induction false} GroupingShift(runs: seq<string>, d: nat, idx: seq<nat>, r: seq<string>)
    requires d <= |runs| && Grouping(runs[d..], idx, r)
    ensures Placed(runs, Shift(idx, d), r) && Ordered(runs, Shift(idx, d)) && Covers(runs, Shift(idx, d), d)
  {
    PlacedShift(runs, d, idx, r);
    OrderedShift(runs, d, idx);
    CoversShift(runs, d, idx);
  }

  lemma {:induction false} PlacedShift(runs: seq<string>, d: nat, idx: seq<nat>, r: seq<string>)
    requires d <= |runs| && Placed(runs[d..], idx, r)
    ensures Placed(runs, Shift(idx, d), r)
  {
    var moved := Shift(idx, d);
    forall k | 0 <= k < |idx|
      ensures moved[k] < |runs| && AllDigits(runs[moved[k]]) && r[k] == LexemeAt(runs, moved[k])
    {
      AtShift(runs, d, idx[k]);
    }
  }

  lemma {:induction false} OrderedShift(runs: seq<string>, d: nat, idx: seq<nat>)
    requires d <= |runs| && Ordered(runs[d..], idx)
    requires forall k | 0 <= k < |idx| :: idx[k] < |runs| - d
    ensures Ordered(runs, Shift(idx, d))
  {
    var moved := Shift(idx, d);
    forall k | 0 < k < |idx| ensures After(runs, moved[k - 1]) <= moved[k] {
      AtShift(runs, d, idx[k - 1]);
    }
  }

  lemma {:induction false} CoversShift(runs: seq<string>, d: nat, idx: seq<nat>)
    requires d <= |runs| && Covers(runs[d..], idx, 0)
    requires forall k | 0 <= k < |idx| :: idx[k] < |runs| - d
    ensures Covers(runs, Shift(idx, d), d)
  {
    var tail, moved := runs[d..], Shift(idx, d);
    forall j: nat | d <= j < |runs| && AllDigits(runs[j]) ensures CoveredBy(runs, moved, j) {
      assert tail[j - d] == runs[j];
      assert CoveredBy(tail, idx, j - d);
      var k :| 0 <= k < |idx| && (idx[k] == j - d || (DecimalAt(tail, idx[k]) && idx[k] + 2 == j - d));
      AtShift(runs, d, idx[k]);
      assert moved[k] == j || (DecimalAt(runs, moved[k]) && moved[k] + 2 == j);
    }
  }

  /** A numeral in front of a shifted grouping keeps every run it covered covered. */
  lemma {:induction false} CoveredCons(runs: seq<string>, i: nat, idx: seq<nat>, j: nat)
    requires CoveredBy(runs, idx, j)
    ensures CoveredBy(runs, [i] + idx, j)
  {
    var k :| 0 <= k < |idx| && (idx[k] == j || (DecimalAt(runs, idx[k]) && idx[k] + 2 == j));
    assert ([i] + idx)[k + 1] == idx[k];
  }

  /** The numerals of a run sequence are grouped the way the number pattern groups them. */
  lemma {:induction false} NumeralsGrouped(runs: seq<string>) returns (idx: seq<nat>)
    ensures Grouping(runs, idx, NumeralsOf(runs))
    decreases |runs|
  {
    if |runs| == 0 {
      idx := [];
    } else if !AllDigits(runs[0]) {
      var rest := NumeralsGrouped(runs[1..]);
      GroupingShift(runs, 1, rest, NumeralsOf(runs[1..]));
      idx := Shift(rest, 1);
    } else {
      var d := After(runs, 0);
      assert d == 3 <==> |runs| >= 3 && runs[1] == "." && AllDigits(runs[2]);
      var rest := NumeralsGrouped(runs[d..]);
      assert NumeralsOf(runs) == [LexemeAt(runs, 0)] + NumeralsOf(runs[d..]);
      GroupedHead(runs, rest, NumeralsOf(runs[d..]));
      idx := [0] + Shift(rest, d);
    }
  }

  /** A numeral at the first run, in front of a grouping of the runs after it. */
  lemma {:induction false} GroupedHead(runs: seq<string>, rest: seq<nat>, r: seq<string>)
    requires |runs| > 0 && AllDigits(runs[0])
    requires After(runs, 0) <= |runs| && Grouping(runs[After(runs, 0)..], rest, r)
    ensures Grouping(runs, [0] + Shift(rest, After(runs, 0)), [LexemeAt(runs, 0)] + r)
  {
    var d := After(runs, 0);
    GroupingShift(runs, d, rest, r);
    var moved := Shift(rest, d);
    var idx := [0] + moved;
    assert Placed(runs, idx, [LexemeAt(runs, 0)] + r);
    assert d == 3 ==> !AllDigits(runs[1]) by {
      if d == 3 {
        assert runs[1][0] == '.';
      }
    }
    forall j: nat | 0 <= j < |runs| && AllDigits(runs[j]) ensures CoveredBy(runs, idx, j) {
      if j >= d {
        CoveredCons(runs, 0, moved, j);
      } else if j != 1 {
        assert idx[0] == 0;
      }
    }
  }

  /**
   * `re.findall` of the number pattern, as lexemes. Cut at their points,
   * the lexemes are exactly the digit runs of the text, in order.
   */
  function NumberLexemes(text: string): (r: seq<string>)
    ensures forall k | 0 <= k < |r| :: Numeral(r[k])
    ensures |r| > 0 <==> HasStandaloneInteger(text)
    ensures LexemePieces(r) == DigitRuns(Split(text))
    ensures exists idx :: Grouping(Split(text), idx, r)
  {
    NumeralsPieces(Split(text));
    assert exists idx :: Grouping(Split(text), idx, NumeralsOf(Split(text))) by {
      var idx := NumeralsGrouped(Split(text));
    }
    NumeralsOf(Split(text))
  }

  function Pow10(n: nat): (p: nat)
    ensures p >= 1
  {
    if n == 0 then 1 else 10 * Pow10(n - 1)
  }

  /** `float(lexeme)` on a numeral, exactly. */
  function NumeralValue(w: string): (v: real)
    ensures v >= 0.0
  {
    var n := IndexOf(w, '.');
    if n == |w| then DigitsValue(w) as real
    else DigitsValue(w[..n]) as real + DigitsValue(w[n + 1..]) as real / Pow10(|w| - n - 1) as real
  }

  /** `extract_numbers`: the values of the numerals in order. */
  function ExtractNumbers(text: string): (r: seq<real>)
    ensures |r| == |NumberLexemes(text)|
    ensures forall k | 0 <= k < |r| :: r[k] == NumeralValue(NumberLexemes(text)[k])
    ensures |r| > 0 <==> HasStandaloneInteger(text)
  {
    var lexemes := NumberLexemes(text);
    seq(|lexemes|, k requires 0 <= k < |lexemes| => NumeralValue(lexemes[k]))
  }

  // ---------------------------------------------------------------------------
  // Confidence and validation

  // `re.search(r'[+\-*/=]', text)`: some operator character or `=`.
  predicate HasOperator(text: string) {
    exists i | 0 <= i < |text| :: text[i] in "+-*/="
  }

  /**
   * `_calculate_confidence` in tenths: 3 for an operator, 2 for a
   * standalone letter, 2 for a standalone integer, 3 for a known problem
   * type, capped at 10.
   */
  function Confidence(text: string): (r: nat)
    ensures r <= 10
    ensures HasStandaloneLetter(text) && HasStandaloneInteger(text) ==> r >= 4
    ensures r < 3 <==>
      !HasOperator(text) && Classify(text) == Unknown && !(HasStandaloneLetter(text) && HasStandaloneInteger(text))
    ensures r == 10 <==>
      HasOperator(text) && HasStandaloneLetter(text) && HasStandaloneInteger(text) && Classify(text) != Unknown
  {
    var total := (if HasOperator(text) then 3 else 0)
               + (if HasStandaloneLetter(text) then 2 else 0)
               + (if HasStandaloneInteger(text) then 2 else 0)
               + (if Classify(text) != Unknown then 3 else 0);
    if total < 10 then total else 10
  }

  /** The record `analyze_problem` returns (without the `equations` field). */
  datatype Analysis = Analysis(
    original: string,
    preprocessed: string,
    problemType: ProblemType,
    keywords: map<string, seq<string>>,
    variables: set<string>,
    numbers: seq<real>,
    confidence: nat)

  /** `analyze_problem`: every field is computed from the pre-normalised text. */
  function Analyze(text: string): (a: Analysis)
    ensures a.original == text
    ensures a.preprocessed == Preprocess(text) && Canonical(a.preprocessed)
    ensures a.problemType == Classify(a.preprocessed)
    ensures a.keywords == ExtractKeywords(a.preprocessed)
    ensures a.variables == ExtractVariables(a.preprocessed)
    ensures a.numbers == ExtractNumbers(a.preprocessed)
    ensures a.confidence == Confidence(a.preprocessed) <= 10
    ensures |a.variables| > 0 <==> HasStandaloneLetter(a.preprocessed)
    ensures |a.numbers| > 0 <==> HasStandaloneInteger(a.preprocessed)
  {
    var p := Preprocess(text);
    Analysis(text, p, Classify(p), ExtractKeywords(p), ExtractVariables(p), ExtractNumbers(p), Confidence(p))
  }

  datatype Verdict = Valid | TooShort | NotMathematical | NoVariables | NoNumbers {
    function Message(): string {
      match this
      case Valid => "Valid mathematical problem"
      case TooShort => "Input text is too short"
      case NotMathematical => "Text doesn't appear to contain a mathematical problem"
      case NoVariables => "No variables found in the problem"
      case NoNumbers => "No numbers found in the problem"
    }
  }

  /**
   * `validate_input`: the guards in the order the Python code checks them;
   * each verdict holds exactly when its guard fires and every earlier one
   * passed. Of the analysis only the confidence, the variables and the
   * numbers are read, and `Analyze` computes each from the pre-normalised
   * text.
   */
  function Validate(text: string): (v: Verdict)
    ensures v == TooShort <==> |Trim(text)| < 5
    ensures v == NotMathematical <==> |Trim(text)| >= 5 && Confidence(Preprocess(text)) < 3
    ensures v == NoVariables <==>
      |Trim(text)| >= 5 && Confidence(Preprocess(text)) >= 3 && !HasStandaloneLetter(Preprocess(text))
    ensures v == NoNumbers <==>
      && |Trim(text)| >= 5 && Confidence(Preprocess(text)) >= 3
      && HasStandaloneLetter(Preprocess(text)) && !HasStandaloneInteger(Preprocess(text))
  {
    if |Trim(text)| < 5 then TooShort
    else
      var p := Preprocess(text);
      var confidence, variables, numbers := Confidence(p), ExtractVariables(p), ExtractNumbers(p);
      GuardSignals(p, confidence, variables, numbers);
      if confidence < 3 then NotMathematical
      else if |variables| == 0 then NoVariables
      else if |numbers| == 0 then NoNumbers
      else Valid
  }

  /**
   * A problem is valid exactly when its trimmed text has five characters and
   * its pre-normalised text has a standalone letter and a standalone
   * integer; the confidence guard never decides on its own, since those two
   * already score 4 tenths.
   */
  lemma ValidMeans(text: string)
    ensures Validate(text) == Valid <==>
      |Trim(text)| >= 5 && HasStandaloneLetter(Preprocess(text)) && HasStandaloneInteger(Preprocess(text))
  {
  }

  /** What the guards after the length test read from the analysis of `p`. */
  lemma GuardSignals(p: string, confidence: nat, variables: set<string>, numbers: seq<real>)
    requires confidence == Confidence(p) && variables == ExtractVariables(p) && numbers == ExtractNumbers(p)
    ensures |variables| > 0 <==> HasStandaloneLetter(p)
    ensures |numbers| > 0 <==> HasStandaloneInteger(p)
  {
  }

  /**
   * A long enough text is rejected as not mathematical exactly when its
   * pre-normalised text has no operator, no known problem type, and not both
   * a standalone letter and a standalone integer.
   */
  lemma NotMathematicalMeans(text: string)
    ensures Validate(text) == NotMathematical <==>
      && |Trim(text)| >= 5
      && !HasOperator(Preprocess(text)) && Classify(Preprocess(text)) == Unknown
      && !(HasStandaloneLetter(Preprocess(text)) && HasStandaloneInteger(Preprocess(text)))
  {
  }
}
