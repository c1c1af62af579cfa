/**
 * The text stages of `EquationParser`: number words to digits,
 * `extract_math_expression` (clean the sentence, then cut out the first
 * `L = R` span) and `normalize_expression` (operator words, implicit
 * multiplication, whitespace around operators).
 */
module Extraction {
  import opened Wrappers
  import opened Strings
  import opened Runs
  import opened Patterns

  // ---------------------------------------------------------------------------
  // Number words

  /** `number_map`, in its insertion order. */
  const NumberWords: seq<(string, string)> := [
    ("zero", "0"), ("one", "1"), ("two", "2"), ("three", "3"), ("four", "4"),
    ("five", "5"), ("six", "6"), ("seven", "7"), ("eight", "8"), ("nine", "9"),
    ("ten", "10"), ("eleven", "11"), ("twelve", "12"), ("thirteen", "13"),
    ("fourteen", "14"), ("fifteen", "15"), ("sixteen", "16"), ("seventeen", "17"),
    ("eighteen", "18"), ("nineteen", "19"), ("twenty", "20")
  ]

  /** Every key is a word of letters and every value a word of digits. */
  predicate WordTable(table: seq<(string, string)>) {
    forall k | 0 <= k < |table| :: AllAlpha(table[k].0) && AllDigits(table[k].1)
  }

  lemma NumberWordsTable()
    ensures WordTable(NumberWords)
  {
    forall k | 0 <= k < |NumberWords| ensures AllAlpha(NumberWords[k].0) && AllDigits(NumberWords[k].1) {
      if k < 7 {
        NumberWordsFrom(0, k);
      } else if k < 14 {
        NumberWordsFrom(7, k);
      } else {
        NumberWordsFrom(14, k);
      }
    }
  }

  /** The entries in one block of seven are letter words mapped to digit words. */
  lemma NumberWordsFrom(lo: nat, k: nat)
    requires lo == 0 || lo == 7 || lo == 14
    requires lo <= k < lo + 7 && k < |NumberWords|
    ensures AllAlpha(NumberWords[k].0) && AllDigits(NumberWords[k].1)
  {
  }

  lemma AlphaIsWordRun(w: string)
    requires AllAlpha(w) || AllDigits(w)
    ensures IsWordRun(w)
  {
  }

  /** The digits a run stands for under `table` (its first entry wins), or the run itself. */
  function Lookup(table: seq<(string, string)>, w: string): string
    decreases |table|
  {
    if |table| == 0 then w
    else if table[0].0 == w then table[0].1
    else Lookup(table[1..], w)
  }

  /** The loop of `replace_number_words`: one standalone-word substitution per entry, in order. */
  function ReplaceWords(s: string, table: seq<(string, string)>): string
    decreases |table|
  {
    if |table| == 0 then s
    else ReplaceWords(SubWord(s, table[0].0, table[0].1), table[1..])
  }

  /** `replace_number_words`. */
  function ReplaceNumberWords(s: string): string {
    ReplaceWords(s, NumberWords)
  }

  /**
   * The sequential substitutions act on the runs of the text all at once:
   * each run is looked up in the table and every other run is left alone.
   * A digit string put in by an earlier entry is never matched by a later one.
   */
  lemma {:induction false} ReplaceWordsRuns(s: string, table: seq<(string, string)>)
    requires WordTable(table)
    ensures Split(ReplaceWords(s, table)) == seq(|Split(s)|, k requires 0 <= k < |Split(s)| => Lookup(table, Split(s)[k]))
    decreases |table|
  {
    var runs := Split(s);
    if |table| == 0 {
      assert Split(ReplaceWords(s, table)) == runs;
    } else {
      var w, d := table[0].0, table[0].1;
      AlphaIsWordRun(w);
      AlphaIsWordRun(d);
      var s1 := SubWord(s, w, d);
      SubWordRuns(s, w, d);
      ReplaceWordsRuns(s1, table[1..]);
      forall k | 0 <= k < |runs|
        ensures Lookup(table[1..], Split(s1)[k]) == Lookup(table, runs[k])
      {
        if runs[k] == w {
          DigitsNotKey(table[1..], d);
        }
      }
    }
  }

  /** A string of digits is not a key, so the lookup keeps it. */
  lemma {:induction false} DigitsNotKey(table: seq<(string, string)>, d: string)
    requires WordTable(table) && AllDigits(d)
    ensures Lookup(table, d) == d
    decreases |table|
  {
    if |table| > 0 {
      assert !IsAlpha(d[0]);
      assert table[0].0 != d;
      DigitsNotKey(table[1..], d);
    }
  }

  /** A run found in the table maps to digits. */
  lemma {:induction false} LookupHit(table: seq<(string, string)>, w: string)
    requires WordTable(table) && HasKey(table, w)
    ensures AllDigits(Lookup(table, w))
    decreases |table|
  {
    if table[0].0 != w {
      var k :| 0 <= k < |table| && table[k].0 == w;
      assert table[1..][k - 1].0 == w;
      LookupHit(table[1..], w);
    }
  }

  /** A run missing from the table maps to itself. */
  lemma {:induction false} LookupMiss(table: seq<(string, string)>, w: string)
    requires !HasKey(table, w)
    ensures Lookup(table, w) == w
    decreases |table|
  {
    if |table| > 0 {
      assert table[0].0 != w;
      forall j | 0 <= j < |table| - 1 ensures table[1..][j].0 != w {
        assert table[j + 1].0 != w;
      }
      LookupMiss(table[1..], w);
    }
  }

  /** `w` is a key of `table`. */
  predicate HasKey(table: seq<(string, string)>, w: string) {
    exists j | 0 <= j < |table| :: table[j].0 == w
  }

  /** Some run of `t` is a key of `table`. */
  predicate ContainsKey(table: seq<(string, string)>, t: string) {
    exists k | 0 <= k < |Split(t)| :: HasKey(table, Split(t)[k])
  }

  /** `contains_non_numeric_words`: some number word stands alone (`\bword\b`). */
  predicate ContainsNumberWord(t: string) {
    ContainsKey(NumberWords, t)
  }

  /**
   * After the substitutions of a word table no key stands alone, every key
   * run became digits, and every run that is not a key is unchanged.
   */
  lemma ReplaceWordsNoKeys(s: string, table: seq<(string, string)>)
    requires WordTable(table)
    ensures !ContainsKey(table, ReplaceWords(s, table))
    ensures |Split(ReplaceWords(s, table))| == |Split(s)|
    ensures forall k | 0 <= k < |Split(s)| ::
              if HasKey(table, Split(s)[k]) then AllDigits(Split(ReplaceWords(s, table))[k])
              else Split(ReplaceWords(s, table))[k] == Split(s)[k]
  {
    var runs := Split(s);
    var out := Split(ReplaceWords(s, table));
    ReplaceWordsRuns(s, table);
    forall k | 0 <= k < |runs|
      ensures !HasKey(table, out[k])
      ensures if HasKey(table, runs[k]) then AllDigits(out[k]) else out[k] == runs[k]
    {
      if HasKey(table, runs[k]) {
        LookupHit(table, runs[k]);
        DigitsNotAKey(table, out[k]);
      } else {
        LookupMiss(table, runs[k]);
      }
    }
  }

  /** A string of digits is none of the keys of a word table. */
  lemma DigitsNotAKey(table: seq<(string, string)>, d: string)
    requires WordTable(table) && AllDigits(d)
    ensures !HasKey(table, d)
  {
    LetterFirst(table, d);
  }

  /** Every key of a word table starts with a letter. */
  lemma LetterFirst(table: seq<(string, string)>, w: string)
    requires WordTable(table) && (|w| == 0 || !IsAlpha(w[0]))
    ensures !HasKey(table, w)
  {
    forall j | 0 <= j < |table| ensures table[j].0 != w {
      assert IsAlpha(table[j].0[0]);
    }
  }

  /** When no run is a key, the substitutions leave the text as it is. */
  lemma NoKeysKeepText(s: string, table: seq<(string, string)>)
    requires WordTable(table)
    requires forall k | 0 <= k < |Split(s)| :: !HasKey(table, Split(s)[k])
    ensures ReplaceWords(s, table) == s
  {
    ReplaceWordsNoKeys(s, table);
    assert Split(ReplaceWords(s, table)) == Split(s);
    SplitJoin(s);
    SplitJoin(ReplaceWords(s, table));
  }

  /**
   * After `replace_number_words` no number word stands alone, and every run
   * that is not a number word (a number word inside a longer word, say)
   * is unchanged.
   */
  lemma NumberWordsReplaced(s: string)
    ensures !ContainsNumberWord(ReplaceNumberWords(s))
    ensures |Split(ReplaceNumberWords(s))| == |Split(s)|
    ensures forall k | 0 <= k < |Split(s)| ::
              if HasKey(NumberWords, Split(s)[k]) then AllDigits(Split(ReplaceNumberWords(s))[k])
              else Split(ReplaceNumberWords(s))[k] == Split(s)[k]
  {
    NumberWordsTable();
    ReplaceWordsNoKeys(s, NumberWords);
  }

  // ---------------------------------------------------------------------------
  // Cleaning the sentence (lines 75-108 of `extract_math_expression`)

  /** Unicode dashes and minus signs, `×` and `÷`, each replaced in turn. */
  const Glyphs: seq<(string, string)> := [
    ("\U{2212}", "-"), ("\U{2013}", "-"), ("\U{2014}", "-"), ("\U{2010}", "-"),
    ("\U{2011}", "-"), ("\U{2012}", "-"), ("\U{2015}", "-"), ("\U{207B}", "-"),
    ("\U{FE63}", "-"), ("\U{FF0D}", "-"), ("\U{00D7}", "*"), ("\U{00F7}", "/")
  ]

  /** Lines 75-86 (and 151-162): each glyph replaced in turn. */
  function Unglyph(t: string): string {
    TablesWellFormed();
    ReplaceChain(t, Glyphs)
  }

  /** Lines 104-105: `²` and `³` become `^2` and `^3`. */
  function Superscripts(t: string): string {
    TablesWellFormed();
    ReplaceChain(t, Exponents)
  }

  /** The instruction phrases removed anywhere in the text, in order. */
  const Instructions: seq<Pattern> := [
    [Lit("solve"), Spaces(1), Lit("for"), Spaces(1), Letters, Spaces(0), Opt(':')],
    [Lit("find"), Spaces(1), Letters, Spaces(0), Lit("if"), Spaces(0)],
    [Lit("find"), Spaces(1), Lit("the"), Spaces(1), Lit("root"), Opt('s'), Spaces(1), Lit("of"), Spaces(0)],
    [Lit("what"), Spaces(1), Lit("is"), Spaces(1), Letters, Spaces(0), Lit("if"), Spaces(0)],
    [Lit("what"), Spaces(1), Lit("is"), Spaces(1)],
    [Lit("calculate"), Spaces(1)],
    [Lit("determine"), Spaces(1)],
    SystemHeading,
    [Lit("find"), Spaces(1), Letters, Lit(":")]
  ]

  /** `solve\s+the\s+system\s*:`, also removed by the system splitter. */
  const SystemHeading: Pattern := [Lit("solve"), Spaces(1), Lit("the"), Spaces(1), Lit("system"), Spaces(0), Lit(":")]

  /** `^solve\s+`. */
  const SolvePrefix: Pattern := [Lit("solve"), Spaces(1)]

  /** The superscript exponents. */
  const Exponents: seq<(string, string)> := [("²", "^2"), ("³", "^3")]

  function RemoveEach(s: string, pats: seq<Pattern>): (r: string)
    requires forall k | 0 <= k < |pats| :: Anchored(pats[k])
    ensures forall j | 0 <= j < |r| :: r[j] in s
    ensures Subsequence(r, s)
    ensures (forall k | 0 <= k < |pats| :: Nowhere(s, pats[k])) ==> r == s
    decreases |pats|
  {
    if |pats| == 0 then
      SubsequenceRefl(s);
      s
    else
      var once := Remove(s, pats[0]);
      var r := RemoveEach(once, pats[1..]);
      SubsequenceTrans(r, once, s);
      r
  }

  /** `\?$` matches at `k`: a `?` at the very end, or just before a final newline. */
  predicate QuestionAtEnd(t: string, k: nat) {
    k < |t| && t[k] == '?' && (k == |t| - 1 || (k == |t| - 2 && t[k + 1] == '\n'))
  }

  /**
   * `re.sub(r'\?$', '', t)`: the `?` where `\?$` matches is deleted and
   * nothing else; without such a `?` the text is unchanged.
   */
  function DropQuestion(t: string): (r: string)
    ensures |r| <= |t|
    ensures forall k: nat | QuestionAtEnd(t, k) :: r == t[..k] + t[k + 1..]
    ensures (forall k: nat :: !QuestionAtEnd(t, k)) ==> r == t
  {
    if |t| > 0 && t[|t| - 1] == '?' then
      assert QuestionAtEnd(t, |t| - 1) && t[..|t| - 1] + t[|t|..] == t[..|t| - 1];
      t[..|t| - 1]
    else if |t| > 1 && t[|t| - 2] == '?' && t[|t| - 1] == '\n' then
      assert QuestionAtEnd(t, |t| - 2) && t[|t| - 1..] == "\n";
      t[..|t| - 2] + "\n"
    else
      t
  }

  /**
   * `re.sub(r'^solve\s+', '', t)`: when the text starts with "solve" and a
   * whitespace character, that word and the whole whitespace run after it
   * are cut off the front; otherwise the text is unchanged.
   */
  function DropSolve(t: string): (r: string)
    ensures |r| <= |t| && r == t[|t| - |r|..]
    ensures |r| < |t| <==> LeadingSolve(t)
    ensures LeadingSolve(t) ==> |t| - |r| > 5 && (forall i | 5 <= i < |t| - |r| :: IsWs(t[i])) && (|r| > 0 ==> !IsWs(r[0]))
  {
    SolvePrefixMatch(t);
    match Match(t, 0, SolvePrefix)
    case At(e) => t[e..]
    case Stuck => t
  }

  /** The text starts with "solve" followed by whitespace. */
  predicate LeadingSolve(t: string) {
    StartsWith(t, "solve") && |t| > 5 && IsWs(t[5])
  }

  /** Where the match of `^solve\s+` ends: after the whole whitespace run. */
  lemma SolvePrefixMatch(t: string)
    ensures Match(t, 0, SolvePrefix) == if LeadingSolve(t) then At(5 + Avail(t, 5, Spaces(1))) else Stuck
  {
    assert SolvePrefix[0] == Lit("solve") && SolvePrefix[1..] == [Spaces(1)] && SolvePrefix[1..][1..] == [];
    assert OccursAt(t, "solve", 0) <==> StartsWith(t, "solve") by {
      if 5 <= |t| {
        assert t[0..5] == t[..5];
      }
    }
    if StartsWith(t, "solve") {
      var n := Avail(t, 5, Spaces(1));
      assert n >= 1 <==> |t| > 5 && IsWs(t[5]);
      assert Match(t, 5 + n, []) == At(5 + n);
    }
  }

  lemma TablesWellFormed()
    ensures forall k | 0 <= k < |Glyphs| :: |Glyphs[k].0| > 0
    ensures forall k | 0 <= k < |Exponents| :: |Exponents[k].0| > 0
    ensures forall k | 0 <= k < |Instructions| :: Anchored(Instructions[k]) && IsAlpha(Instructions[k][0].text[0])
    ensures forall k | 0 <= k < |Replacements| :: |Replacements[k].0| > 0
  {
  }

  /** Lines 75-100: glyphs, case, instruction phrases, a final `?` and a leading "solve". */
  function Prepare(text: string): string {
    TablesWellFormed();
    var t := Unglyph(text);
    var t := Lower(t);
    var t := RemoveEach(t, Instructions);
    var t := DropQuestion(t);
    DropSolve(t)
  }

  /**
   * Lines 102-108: number words, superscripts, commas and whitespace. No
   * comma or superscript is left, and every character none of these steps
   * touches is kept, in order.
   */
  function Tidy(t: string): (r: string)
    ensures Spaced(r)
    ensures ',' !in r && '²' !in r && '³' !in r
    ensures Select(r, TidyResidue) == Select(t, TidyResidue)
  {
    TablesWellFormed();
    var t1 := ReplaceNumberWords(t);
    var t2 := Superscripts(t1);
    var t3 := ReplaceAll(t2, ",", "");
    TidyStages(t, t1, t2, t3);
    CollapseStage(t3);
    Collapse(t3)
  }

  /** The whitespace collapse keeps the residue and brings in no comma or superscript. */
  lemma CollapseStage(t: string)
    ensures Select(Collapse(t), TidyResidue) == Select(t, TidyResidue)
    ensures ',' !in t && '²' !in t && '³' !in t ==> ',' !in Collapse(t) && '²' !in Collapse(t) && '³' !in Collapse(t)
  {
    SelectCollapse(t, TidyResidue);
    InCollapse(t, ',');
    InCollapse(t, '²');
    InCollapse(t, '³');
  }

  /** What the steps of `Tidy` leave alone: all but word characters, whitespace, `,` and the `^` of the exponents. */
  predicate TidyResidue(c: char) {
    !IsWordChar(c) && !IsWs(c) && c != ',' && c != '^'
  }

  /**
   * What the steps of `Clean` leave alone: moreover not the `:` and `?` the
   * phrase and question removals take, nor a glyph or the `-`, `*`, `/` it
   * becomes.
   */
  predicate CleanResidue(c: char) {
    && TidyResidue(c)
    && c != ':' && c != '?' && c != '-' && c != '*' && c != '/'
    && forall k | 0 <= k < |Glyphs| :: c !in Glyphs[k].0
  }

  /** Lines 75-108: the text the equation search looks at. */
  function Clean(text: string): (r: string)
    ensures Spaced(r)
    ensures ',' !in r && '²' !in r && '³' !in r
    ensures Select(r, CleanResidue) == Select(text, CleanResidue)
  {
    var t := Prepare(text);
    PrepareKeeps(text);
    SelectSelect(Tidy(t), TidyResidue, CleanResidue);
    SelectSelect(t, TidyResidue, CleanResidue);
    Tidy(t)
  }

  /** The three steps of `Tidy` before the whitespace collapse. */
  lemma TidyStages(t: string, t1: string, t2: string, t3: string)
    requires t1 == ReplaceNumberWords(t)
    requires t2 == Superscripts(t1)
    requires t3 == ReplaceAll(t2, ",", "")
    ensures ',' !in t3 && '²' !in t3 && '³' !in t3
    ensures Select(t3, TidyResidue) == Select(t, TidyResidue)
  {
    NumberWordsTable();
    SelectReplaceWords(t, NumberWords, TidyResidue);
    ExponentsKeep(t1);
    SelectReplace(t2, ",", "", TidyResidue);
    ExponentsGone(t1);
    ReplaceKeepsOut(t2, ",", "", '²');
    ReplaceKeepsOut(t2, ",", "", '³');
    ReplaceCharGone(t2, ',', "");
  }

  /** The superscripts and their `^2`, `^3` are outside the residue. */
  lemma ExponentsKeep(t: string)
    ensures Select(Superscripts(t), TidyResidue) == Select(t, TidyResidue)
  {
    TablesWellFormed();
    assert forall k, i | 0 <= k < |Exponents| && 0 <= i < |Exponents[k].0| :: Exponents[k].0[i] in "²³";
    assert forall k, i | 0 <= k < |Exponents| && 0 <= i < |Exponents[k].1| :: Exponents[k].1[i] in "^23";
    SelectChain(t, Exponents, TidyResidue);
  }

  lemma ExponentsGone(t: string)
    ensures '²' !in Superscripts(t) && '³' !in Superscripts(t)
  {
    TablesWellFormed();
    var u := ReplaceAll(t, "²", "^2");
    assert Exponents[0] == ("²", "^2") && Exponents[1..] == [("³", "^3")] && Exponents[1..][1..] == [];
    assert Superscripts(t) == ReplaceAll(u, "³", "^3");
    ReplaceCharGone(t, '²', "^2");
    ReplaceKeepsOut(u, "³", "^3", '²');
    ReplaceCharGone(u, '³', "^3");
  }

  lemma {:induction false} SelectReplaceWords(s: string, table: seq<(string, string)>, keep: char -> bool)
    requires WordTable(table)
    requires forall c: char :: IsWordChar(c) ==> !keep(c)
    ensures Select(ReplaceWords(s, table), keep) == Select(s, keep)
    decreases |table|
  {
    if |table| > 0 {
      AlphaIsWordRun(table[0].0);
      AlphaIsWordRun(table[0].1);
      SelectSubWord(s, table[0].0, table[0].1, keep);
      assert WordTable(table[1..]) by {
        forall k | 0 <= k < |table| - 1 ensures table[1..][k] == table[k + 1] { }
      }
      SelectReplaceWords(SubWord(s, table[0].0, table[0].1), table[1..], keep);
    }
  }

  /** The steps of `Prepare` leave the residue of `Clean` in place. */
  lemma PrepareKeeps(text: string)
    ensures Select(Prepare(text), CleanResidue) == Select(text, CleanResidue)
  {
    TablesWellFormed();
    GlyphTargets();
    SelectChain(text, Glyphs, CleanResidue);
    var t1 := Unglyph(text);
    SelectLower(t1, CleanResidue);
    var t2 := Lower(t1);
    InstructionLiterals();
    SelectRemoveEach(t2, Instructions, CleanResidue);
    var t3 := RemoveEach(t2, Instructions);
    SelectDropQuestion(t3, CleanResidue);
    SelectDropSolve(DropQuestion(t3), CleanResidue);
  }

  /** Every glyph becomes `-`, `*` or `/`. */
  lemma GlyphTargets()
    ensures forall k | 0 <= k < |Glyphs| :: Glyphs[k].1 in {"-", "*", "/"}
  {
  }

  /** An instruction phrase spells only letters and `:` (besides its whitespace and letter runs). */
  lemma InstructionLiterals()
    ensures forall k | 0 <= k < |Instructions| :: LiteralsIn(Instructions[k], PhraseLiteral)
  {
  }

  predicate PhraseLiteral(c: char) {
    IsAlpha(c) || c == ':'
  }

  lemma {:induction false} SelectRemoveEach(s: string, pats: seq<Pattern>, keep: char -> bool)
    requires forall k | 0 <= k < |pats| :: Anchored(pats[k]) && LiteralsIn(pats[k], PhraseLiteral)
    requires forall c: char :: (PhraseLiteral(c) || IsWs(c) || IsAlpha(c)) ==> !keep(c)
    ensures Select(RemoveEach(s, pats), keep) == Select(s, keep)
    decreases |pats|
  {
    if |pats| > 0 {
      SelectRemove(s, pats[0], PhraseLiteral, keep);
      SelectRemoveEach(Remove(s, pats[0]), pats[1..], keep);
    }
  }

  lemma SelectDropQuestion(t: string, keep: char -> bool)
    requires !keep('?')
    ensures Select(DropQuestion(t), keep) == Select(t, keep)
  {
    if |t| > 0 && t[|t| - 1] == '?' {
      assert t == t[..|t| - 1] + "?";
      SelectConcat(t[..|t| - 1], "?", keep);
    } else if |t| > 1 && t[|t| - 2] == '?' && t[|t| - 1] == '\n' {
      assert t == t[..|t| - 2] + "?" + "\n";
      SelectConcat(t[..|t| - 2] + "?", "\n", keep);
      SelectConcat(t[..|t| - 2], "?", keep);
      SelectConcat(t[..|t| - 2], "\n", keep);
    }
  }

  lemma SelectDropSolve(t: string, keep: char -> bool)
    requires forall c: char :: (IsWs(c) || IsAlpha(c)) ==> !keep(c)
    ensures Select(DropSolve(t), keep) == Select(t, keep)
  {
    var r := DropSolve(t);
    var n := |t| - |r|;
    assert t == t[..n] + r;
    SelectConcat(t[..n], r, keep);
    if n > 0 {
      assert t[..5] == "solve";
      forall i | 0 <= i < n ensures !keep(t[..n][i]) {
        if i < 5 {
          assert t[..n][i] == t[..5][i];
        }
      }
    }
    SelectNone(t[..n], keep);
  }

  // ---------------------------------------------------------------------------
  // The equation span: `re.search(r'([^=]+)\s*=\s*([^=]+)', t)`

  /**
   * The `=` at `q` has a non-`=` character on each side. The search finds a
   * match exactly around such an `=`.
   */
  predicate Splittable(t: string, q: nat) {
    0 < q < |t| - 1 && t[q] == '=' && t[q - 1] != '=' && t[q + 1] != '='
  }

  /** The first splittable `=` at or after `from`. */
  function FirstSplit(t: string, from: nat): (r: Option<nat>)
    ensures r.Some? ==> from <= r.value && Splittable(t, r.value)
    ensures r.Some? ==> forall q | from <= q < r.value :: !Splittable(t, q)
    ensures r.None? ==> forall q | from <= q :: !Splittable(t, q)
    decreases |t| - from
  {
    if from >= |t| then None
    else if Splittable(t, from) then Some(from)
    else FirstSplit(t, from + 1)
  }

  /** Start of the `=`-free segment that ends at `q`. */
  function SegmentStart(t: string, q: nat): (a: nat)
    requires q <= |t|
    ensures a <= q
    ensures forall i | a <= i < q :: t[i] != '='
    ensures a > 0 ==> t[a - 1] == '='
  {
    if q == 0 || t[q - 1] == '=' then q else SegmentStart(t, q - 1)
  }

  /** End of the `=`-free segment that starts at `q`. */
  function SegmentEnd(t: string, q: nat): (e: nat)
    requires q <= |t|
    ensures q <= e <= |t|
    ensures forall i | q <= i < e :: t[i] != '='
    ensures e < |t| ==> t[e] == '='
    decreases |t| - q
  {
    if q == |t| || t[q] == '=' then q else SegmentEnd(t, q + 1)
  }

  predicate NoEquals(s: string) {
    forall i | 0 <= i < |s| :: s[i] != '='
  }

  /** No whitespace at either end: what `strip` leaves. */
  predicate Stripped(s: string) {
    |s| > 0 ==> !IsWs(s[0]) && !IsWs(s[|s| - 1])
  }

  lemma TrimStripped(s: string)
    ensures Stripped(Trim(s)) && |Trim(s)| <= |s|
    ensures forall i | 0 <= i < |Trim(s)| :: Trim(s)[i] in s
  {
    var i, j := TrimSlice(s);
    forall k | 0 <= k < |Trim(s)| ensures Trim(s)[k] in s {
      assert Trim(s)[k] == s[i + k];
    }
  }

  lemma TrimNoEquals(s: string)
    requires NoEquals(s)
    ensures NoEquals(Trim(s))
  {
    var i, j := TrimSlice(s);
  }

  /**
   * The two stripped groups of the leftmost match: the segment before the
   * first splittable `=` and the segment after it, each up to the
   * neighbouring `=`. Anything after the second segment is dropped.
   */
  function EquationSpan(t: string): (r: Option<(string, string)>)
    ensures r.Some? <==> exists q: nat :: Splittable(t, q)
    ensures r.Some? ==> NoEquals(r.value.0) && NoEquals(r.value.1)
    ensures r.Some? ==> Stripped(r.value.0) && Stripped(r.value.1)
  {
    FirstSplitFinds(t);
    match FirstSplit(t, 0)
    case None => None
    case Some(q) =>
      var left := t[SegmentStart(t, q)..q];
      var right := t[q + 1..SegmentEnd(t, q + 1)];
      SegmentsFree(t, q);
      TrimStripped(left);
      TrimStripped(right);
      TrimNoEquals(left);
      TrimNoEquals(right);
      Some((Trim(left), Trim(right)))
  }

  lemma FirstSplitFinds(t: string)
    ensures FirstSplit(t, 0).Some? <==> exists q: nat :: Splittable(t, q)
  {
    if FirstSplit(t, 0).Some? {
      var q := FirstSplit(t, 0).value;
      assert Splittable(t, q);
    }
  }

  /** The segments on either side of an `=` hold no `=`. */
  lemma SegmentsFree(t: string, q: nat)
    requires q < |t|
    ensures NoEquals(t[SegmentStart(t, q)..q]) && NoEquals(t[q + 1..SegmentEnd(t, q + 1)])
  {
    var left := t[SegmentStart(t, q)..q];
    var right := t[q + 1..SegmentEnd(t, q + 1)];
    assert forall i | 0 <= i < |left| :: left[i] == t[SegmentStart(t, q) + i];
    assert forall i | 0 <= i < |right| :: right[i] == t[q + 1 + i];
  }

  /** The groups come from the first splittable `=`: they are the two sides around it. */
  lemma EquationSpanIsFirst(t: string) returns (q: nat)
    requires EquationSpan(t).Some?
    ensures Splittable(t, q) && forall q': nat | q' < q :: !Splittable(t, q')
    ensures EquationSpan(t).value == (Trim(t[SegmentStart(t, q)..q]), Trim(t[q + 1..SegmentEnd(t, q + 1)]))
  {
    q := FirstSplit(t, 0).value;
  }

  /**
   * The format `L = R` that extraction produces splits on `=` into exactly
   * `L` and `R` again once the parts are stripped.
   */
  lemma {:induction false} JoinedSidesSplit(left: string, right: string)
    requires NoEquals(left) && NoEquals(right) && Stripped(left) && Stripped(right)
    ensures |SplitOn(left + " = " + right, '=')| == 2
    ensures Trim(SplitOn(left + " = " + right, '=')[0]) == left
    ensures Trim(SplitOn(left + " = " + right, '=')[1]) == right
  {
    var s := left + " = " + right;
    var k := IndexOf(s, '=');
    assert s[|left| + 1] == '=';
    assert k == |left| + 1;
    assert s[..k] == left + " ";
    assert s[k + 1..] == " " + right;
    assert IndexOf(s[k + 1..], '=') == |s[k + 1..]|;
    TrimPadded(left, right);
  }

  lemma TrimPadded(left: string, right: string)
    requires Stripped(left) && Stripped(right)
    ensures Trim(left + " ") == left
    ensures Trim(" " + right) == right
  {
    StrippedTrim(left);
    StrippedTrim(right);
    assert TrimLeft(" " + right) == TrimLeft(right);
    if |left| > 0 {
      assert TrimLeft(left + " ") == left + " ";
      assert (left + " ")[..|left + " "| - 1] == left;
    } else {
      assert TrimLeft(left + " ") == "";
    }
  }

  lemma StrippedTrim(s: string)
    requires Stripped(s)
    ensures TrimLeft(s) == s && TrimRight(s) == s && Trim(s) == s
  {
  }

  // ---------------------------------------------------------------------------
  // The fallback filter `re.findall(r'[a-zA-Z0-9+\-*/^()=\s]+', t)`

  /** The character class of the filter as the source writes it. */
  predicate MathCharAsWritten(c: char) {
    IsAlpha(c) || IsDigit(c) || IsWs(c)
    || c == '+' || c == '-' || c == '*' || c == '/' || c == '^' || c == '(' || c == ')' || c == '='

  }

  /** The class with the decimal point added. */
  predicate MathChar(c: char) {
    MathCharAsWritten(c) || c == '.'
  }

  /** The filter's class: as written, or with the decimal point. */
  function FilterClass(point: bool): char -> bool {
    if point then MathChar else MathCharAsWritten
  }

  /**
   * `''.join(re.findall(...))`: the characters of the class, in order. The
   * result is a subsequence of `t` made of class characters and as long as
   * the number of class characters in `t`, which leaves no other choice
   * (`SelectUnique`).
   */
  function Keep(t: string, point: bool): (r: string)
    ensures Subsequence(r, t) && |r| == Tally(t, FilterClass(point))
    ensures |r| <= |t|
    ensures forall i | 0 <= i < |r| :: if point then MathChar(r[i]) else MathCharAsWritten(r[i])
    ensures (forall i | 0 <= i < |t| :: if point then MathChar(t[i]) else MathCharAsWritten(t[i])) ==> r == t
    ensures |r| == 0 <==> forall i | 0 <= i < |t| :: !(if point then MathChar(t[i]) else MathCharAsWritten(t[i]))
  {
    var keep := FilterClass(point);
    var r := Select(t, keep);
    assert (forall i | 0 <= i < |t| :: keep(t[i])) ==> r == t by {
      if forall i | 0 <= i < |t| :: keep(t[i]) {
        SelectAll(t, keep);
      }
    }
    assert |r| == 0 <==> forall i | 0 <= i < |t| :: !keep(t[i]) by {
      if forall i | 0 <= i < |t| :: !keep(t[i]) {
        SelectNone(t, keep);
      } else {
        var i :| 0 <= i < |t| && keep(t[i]);
        TallyPositive(t, keep, i);
      }
    }
    r
  }

  /** Lines 126-130 as written: the class drops the decimal point. */
  function MathContentAsWritten(t: string): (r: string)
    ensures forall i | 0 <= i < |r| :: r[i] != '.' || NoneKept(t)
  {
    var kept := Keep(t, false);
    KeptHasNoPoint(t);
    if |kept| > 0 then Trim(kept) else Trim(t)
  }

  lemma KeptHasNoPoint(t: string)
    ensures forall i | 0 <= i < |Trim(Keep(t, false))| :: Trim(Keep(t, false))[i] != '.'
    ensures |Keep(t, false)| == 0 ==> NoneKept(t)
  {
    var kept := Keep(t, false);
    var a, b := TrimSlice(kept);
    NoPointInSlice(kept, a, b);
  }

  lemma NoPointInSlice(s: string, a: nat, b: nat)
    requires a <= b <= |s|
    requires forall i | 0 <= i < |s| :: MathCharAsWritten(s[i])
    ensures forall i | 0 <= i < b - a :: s[a..b][i] != '.'
  {
    forall i | 0 <= i < b - a ensures s[a..b][i] != '.' {
      assert s[a..b][i] == s[a + i];
    }
  }

  /** A character of the corrected class that is not whitespace. */
  predicate SolidMathChar(c: char) {
    MathChar(c) && !IsWs(c)
  }

  /**
   * Lines 126-130 with `.` in the class, so decimal numerals survive. The
   * result only deletes characters of `t`; when the class occurs in `t` it
   * holds, up to whitespace, exactly the class characters of `t` in order,
   * and otherwise it is `t` stripped.
   */
  function MathContent(t: string): (r: string)
    ensures (forall i | 0 <= i < |t| :: MathChar(t[i])) ==> r == Trim(t)
    ensures forall i | 0 <= i < |r| :: MathChar(r[i]) || NoneKeptFixed(t)
    ensures Subsequence(r, t)
    ensures !NoneKeptFixed(t) ==> Solid(r) == Select(t, SolidMathChar)
    ensures !NoneKeptFixed(t) ==> r == Trim(Select(t, MathChar))
    ensures NoneKeptFixed(t) ==> r == Trim(t)
  {
    var kept := Keep(t, true);
    if |kept| > 0 then
      TrimStripped(kept);
      TrimmedKeep(t, kept);
      Trim(kept)
    else
      SubsequenceTrim(t);
      Trim(t)
  }

  /** The stripped filter output only deletes, and keeps every solid class character. */
  lemma TrimmedKeep(t: string, kept: string)
    requires kept == Keep(t, true)
    ensures Subsequence(Trim(kept), t) && Solid(Trim(kept)) == Select(t, SolidMathChar)
  {
    SubsequenceTrim(kept);
    SubsequenceTrans(Trim(kept), kept, t);
    SolidTrim(kept);
    SolidOfSelect(t, FilterClass(true), SolidMathChar);
  }

  predicate NoneKept(t: string) {
    forall i | 0 <= i < |t| :: !MathCharAsWritten(t[i])
  }

  predicate NoneKeptFixed(t: string) {
    forall i | 0 <= i < |t| :: !MathChar(t[i])
  }

  /**
   * What the search finds after cleaning: the span `L = R` when there is a
   * splittable `=`; otherwise a split at the first `=`; otherwise the filter.
   * `FinishSpan`, `FinishSplit` and `FinishFilter` state the three cases.
   */
  function Finish(t: string, point: bool): string {
    match EquationSpan(t)
    case Some((l, r)) => l + " = " + r
    case None =>
      var q := IndexOf(t, '=');
      if q < |t| then Trim(t[..q]) + " = " + Trim(t[q + 1..])
      else if point then MathContent(t)
      else MathContentAsWritten(t)
  }

  /** With a splittable `=` the span is the result, and its sides are `=`-free. */
  lemma {:induction false} FinishSpan(t: string, point: bool)
    requires EquationSpan(t).Some?
    ensures var (left, right) := EquationSpan(t).value;
            Finish(t, point) == left + " = " + right && NoEquals(left) && NoEquals(right)
  {
  }

  /**
   * Without a splittable `=`, the text is cut at `IndexOf(t, '=')`, its
   * first `=`, and both halves are stripped.
   */
  lemma {:induction false} FinishSplit(t: string, point: bool, q: nat)
    requires EquationSpan(t).None? && q == IndexOf(t, '=') && q < |t|
    ensures Finish(t, point) == Trim(t[..q]) + " = " + Trim(t[q + 1..])
  {
  }

  /** A character of the text is found before its end. */
  lemma IndexOfPresent(t: string, c: char)
    requires c in t
    ensures IndexOf(t, c) < |t| && t[IndexOf(t, c)] == c && forall i | 0 <= i < IndexOf(t, c) :: t[i] != c
  {
    var i :| 0 <= i < |t| && t[i] == c;
  }

  /** Without any `=`, no span is found and the result is the filtered text. */
  lemma {:induction false} FinishFilter(t: string, point: bool)
    requires !('=' in t)
    ensures Finish(t, point) == if point then MathContent(t) else MathContentAsWritten(t)
  {
    NoSplitWithoutEquals(t);
  }

  lemma NoSplitWithoutEquals(t: string)
    requires !('=' in t)
    ensures EquationSpan(t).None? && IndexOf(t, '=') == |t|
  {
    forall q: nat
      ensures !Splittable(t, q)
    {
      if 0 <= q < |t| {
        assert t[q] in t;
      }
    }
  }

  /** `extract_math_expression` as written. */
  function ExtractMathAsWritten(text: string): string {
    Finish(Clean(text), false)
  }

  /**
   * `extract_math_expression` with the decimal point kept. When the cleaned
   * text has a splittable `=`, the result is `L = R` with stripped,
   * `=`-free sides; without any `=` it is the cleaned text's mathematical
   * characters.
   */
  function ExtractMath(text: string): (r: string)
    ensures EquationSpan(Clean(text)).Some? ==>
              var (left, right) := EquationSpan(Clean(text)).value;
              r == left + " = " + right && NoEquals(left) && NoEquals(right)
    ensures !('=' in Clean(text)) ==> r == MathContent(Clean(text))
  {
    var t := Clean(text);
    if EquationSpan(t).Some? then
      FinishSpan(t, true);
      Finish(t, true)
    else if '=' in t then
      Finish(t, true)
    else
      FinishFilter(t, true);
      Finish(t, true)
  }

  /**
   * A text the cleaning steps have nothing to do to: single-spaced and
   * trimmed, no capital, no glyph, no instruction phrase, no final `?`, no
   * leading "solve", no standalone number word, no comma or superscript.
   */
  predicate Settled(t: string) {
    && Spaced(t) && NoUpper(t)
    && (forall k | 0 <= k < |Glyphs| :: !Contains(t, Glyphs[k].0))
    && (forall k | 0 <= k < |Instructions| :: Nowhere(t, Instructions[k]))
    && (forall k | 0 <= k < |t| :: !QuestionAtEnd(t, k))
    && !LeadingSolve(t)
    && !ContainsNumberWord(t)
    && ',' !in t && '²' !in t && '³' !in t
  }

  /** Cleaning a settled text gives it back unchanged. */
  lemma {:induction false} CleanFixes(t: string)
    requires Settled(t)
    ensures Clean(t) == t
  {
    PrepareFixes(t);
    TidyFixes(t);
  }

  /** With nothing to replace, lower, remove or drop, `Prepare` is the identity. */
  lemma {:induction false} PrepareFixes(t: string)
    requires NoUpper(t)
    requires forall k | 0 <= k < |Glyphs| :: !Contains(t, Glyphs[k].0)
    requires forall k | 0 <= k < |Instructions| :: Nowhere(t, Instructions[k])
    requires forall k | 0 <= k < |t| :: !QuestionAtEnd(t, k)
    requires !LeadingSolve(t)
    ensures Prepare(t) == t
  {
    TablesWellFormed();
    ChainOfAbsentIsIdentity(t, Glyphs);
    LowerIdempotent(t);
    assert RemoveEach(t, Instructions) == t;
    assert DropQuestion(t) == t;
    assert |DropSolve(t)| == |t|;
  }

  /** A single-spaced text without number words, commas or superscripts is its own tidy form. */
  lemma {:induction false} TidyFixes(t: string)
    requires Spaced(t) && !ContainsNumberWord(t)
    requires ',' !in t && '²' !in t && '³' !in t
    ensures Tidy(t) == t
  {
    NumberWordsTable();
    NoKeysKeepText(t, NumberWords);
    TablesWellFormed();
    AbsentChar(t, "²", '²');
    AbsentChar(t, "³", '³');
    ChainOfAbsentIsIdentity(t, Exponents);
    AbsentChar(t, ",", ',');
    ReplaceAbsentIsIdentity(t, ",", "");
    CollapseSpaced(t);
  }

  // ---------------------------------------------------------------------------
  // The decimal point

  /** Characters of a decimal numeral such as `2.5`. */
  predicate DecimalText(s: string) {
    |s| > 0 && forall i | 0 <= i < |s| :: IsDigit(s[i]) || s[i] == '.'
  }

  /** A numeral goes through cleaning unchanged. */
  lemma CleanDecimal(s: string)
    requires DecimalText(s)
    ensures Clean(s) == s
  {
    PrepareDecimal(s);
    TidyDecimal(s);
  }

  lemma PrepareDecimal(s: string)
    requires DecimalText(s)
    ensures Prepare(s) == s
  {
    NoGlyphs(s);
    DecimalLower(s);
    TablesWellFormed();
    NoInstructions(s, Instructions);
    DecimalEnds(s);
  }

  lemma DecimalLower(s: string)
    requires DecimalText(s)
    ensures Lower(s) == s
  {
    LowerIdempotent(s);
  }

  lemma DecimalEnds(s: string)
    requires DecimalText(s)
    ensures DropQuestion(s) == s && DropSolve(s) == s
  {
    assert s[0] != 's';
  }

  lemma TidyDecimal(s: string)
    requires DecimalText(s)
    ensures Tidy(s) == s
  {
    NumeralsKeepRuns(s);
    DecimalPlain(s);
    CollapseSpaced(s);
  }

  /** A numeral has no superscript and no comma, and is already collapsed. */
  lemma DecimalPlain(s: string)
    requires DecimalText(s)
    ensures ReplaceChain(s, Exponents) == s && ReplaceAll(s, ",", "") == s && Canonical(s)
  {
    NoExponents(s);
    AbsentChar(s, ",", ',');
    ReplaceAbsentIsIdentity(s, ",", "");
  }

  lemma NoExponents(s: string)
    requires DecimalText(s)
    ensures ReplaceChain(s, Exponents) == s
  {
    AbsentChar(s, "²", '²');
    AbsentChar(s, "³", '³');
    ChainOfAbsentIsIdentity(s, Exponents);
  }

  lemma AbsentChar(s: string, p: string, c: char)
    requires c in p && !(c in s)
    ensures !Contains(s, p)
  {
  }

  lemma NoGlyphs(s: string)
    requires DecimalText(s)
    ensures Unglyph(s) == s
  {
    forall k | 0 <= k < |Glyphs| ensures |Glyphs[k].0| > 0 && !Contains(s, Glyphs[k].0) {
      AbsentChar(s, Glyphs[k].0, Glyphs[k].0[0]);
    }
    ChainOfAbsentIsIdentity(s, Glyphs);
  }

  lemma {:induction false} NoInstructions(s: string, pats: seq<Pattern>)
    requires DecimalText(s)
    requires forall k | 0 <= k < |pats| :: Anchored(pats[k]) && IsAlpha(pats[k][0].text[0])
    ensures RemoveEach(s, pats) == s
    decreases |pats|
  {
    if |pats| > 0 {
      AbsentChar(s, pats[0][0].text, pats[0][0].text[0]);
      SubstituteAbsent(s, pats[0], "");
      NoInstructions(s, pats[1..]);
    }
  }

  /** A text without letters has no number word to replace. */
  lemma NumeralsKeepRuns(s: string)
    requires DecimalText(s)
    ensures ReplaceNumberWords(s) == s
  {
    var runs := Split(s);
    NumberWordsTable();
    SplitJoin(s);
    forall k | 0 <= k < |runs| ensures !HasKey(NumberWords, runs[k]) {
      if |runs[k]| > 0 {
        RunCharsFromText(runs, k);
        assert runs[k][0] in s;
      }
      LetterFirst(NumberWords, runs[k]);
    }
    NoKeysKeepText(s, NumberWords);
  }

  lemma {:induction false} RunCharsFromText(runs: seq<string>, k: nat)
    requires k < |runs| && |runs[k]| > 0
    ensures runs[k][0] in Join(runs)
    decreases k
  {
    if k == 0 {
      assert Join(runs)[0] == runs[0][0];
    } else {
      RunCharsFromText(runs[1..], k - 1);
      assert Join(runs) == runs[0] + Join(runs[1..]);
    }
  }

  /**
   * The filter as written turns `2.5` into `25`; with the point in the class
   * the numeral survives extraction.
   */
  lemma DecimalPointDropped()
    ensures ExtractMathAsWritten("2.5") == "25"
    ensures ExtractMath("2.5") == "2.5"
  {
    var t := "2.5";
    assert DecimalText(t);
    CleanDecimal(t);
    DecimalSurvives(t);
    DecimalContent(t);
    WithoutEqualsAsWritten(t);
    PointFiltered();
  }

  /** Without `=` after cleaning, extraction as written is the filter's output. */
  lemma WithoutEqualsAsWritten(text: string)
    requires !('=' in Clean(text))
    ensures ExtractMathAsWritten(text) == MathContentAsWritten(Clean(text))
  {
    FinishFilter(Clean(text), false);
  }

  lemma PointFiltered()
    ensures MathContentAsWritten("2.5") == "25"
  {
    var t := "2.5";
    assert Keep(t[2..], false) == "5";
    assert Keep(t[1..], false) == "5";
    assert Keep(t, false) == "25";
    StrippedTrim("25");
  }

  /** Every decimal numeral survives the corrected extraction. */
  lemma DecimalSurvives(s: string)
    requires DecimalText(s)
    ensures ExtractMath(s) == s
  {
    CleanDecimal(s);
    DecimalContent(s);
  }

  /** A numeral has no `=`, and the fallback filter keeps all of it. */
  lemma DecimalContent(s: string)
    requires DecimalText(s)
    ensures !('=' in s) && MathContent(s) == s
  {
    assert forall i | 0 <= i < |s| :: MathChar(s[i]);
    StrippedTrim(s);
  }

  // ---------------------------------------------------------------------------
  // `normalize_expression`

  /** `self.replacements`, in insertion order. */
  const Replacements: seq<(string, string)> := [
    ("plus", "+"), ("minus", "-"), ("times", "*"), ("multiplied by", "*"),
    ("divided by", "/"), ("over", "/"), ("equals", "="), ("is equal to", "="),
    ("squared", "^2"), ("cubed", "^3"), ("to the power of", "^"),
    ("x²", "x^2"), ("x³", "x^3")
  ]

  /** The operator class of the normalisation regexes: `+ - * / = ^ ( )`. */
  predicate IsOp(c: char) {
    c == '+' || c == '-' || c == '*' || c == '/' || c == '=' || c == '^' || c == '(' || c == ')'
  }

  /** A digit followed by a letter (`digitFirst`) or a letter followed by a digit. */
  predicate Pair(a: char, b: char, digitFirst: bool) {
    if digitFirst then IsDigit(a) && IsAlpha(b) else IsAlpha(a) && IsDigit(b)
  }

  predicate NoPairs(s: string, digitFirst: bool) {
    forall i | 0 <= i < |s| - 1 :: !Pair(s[i], s[i + 1], digitFirst)
  }

  /** No digit touches a letter on either side. */
  predicate NoGlue(s: string) {
    NoPairs(s, true) && NoPairs(s, false)
  }

  /**
   * `re.sub(r'(\d)([a-zA-Z])', r'\1*\2', t)` (or the letter-digit variant):
   * a `*` goes between every such pair, so none is left, pairs of the other
   * kind are not created, and a text without such a pair is unchanged.
   */
  function InsertStar(s: string, digitFirst: bool): (r: string)
    ensures NoPairs(r, digitFirst)
    ensures NoPairs(s, !digitFirst) ==> NoPairs(r, !digitFirst)
    ensures NoPairs(s, digitFirst) ==> r == s
    ensures |r| > 0 <==> |s| > 0
    ensures |s| > 0 ==> r[0] == s[0]
    decreases |s|
  {
    if |s| <= 1 then s
    else
      var rest := InsertStar(s[1..], digitFirst);
      ConsPairs(s[0], s[1..], digitFirst);
      ConsPairs(s[0], s[1..], !digitFirst);
      if Pair(s[0], s[1], digitFirst) then
        StarCons(s[0], rest, digitFirst);
        [s[0], '*'] + rest
      else
        ConsPairs(s[0], rest, digitFirst);
        ConsPairs(s[0], rest, !digitFirst);
        [s[0]] + rest
  }

  /** `InsertStar` only adds `*`: every other character stays, in order. */
  lemma {:induction false} SelectInsertStar(s: string, digitFirst: bool)
    ensures Select(InsertStar(s, digitFirst), NotStar) == Select(s, NotStar)
    decreases |s|
  {
    if |s| > 1 {
      var rest := InsertStar(s[1..], digitFirst);
      SelectInsertStar(s[1..], digitFirst);
      if Pair(s[0], s[1], digitFirst) {
        assert InsertStar(s, digitFirst) == [s[0], '*'] + rest;
        StarStep(s, rest);
      } else {
        assert InsertStar(s, digitFirst) == [s[0]] + rest;
        PlainStep(s, rest);
      }
    }
  }

  lemma {:induction false} StarStep(s: string, rest: string)
    requires |s| > 0 && Select(rest, NotStar) == Select(s[1..], NotStar)
    ensures Select([s[0], '*'] + rest, NotStar) == Select(s, NotStar)
  {
    assert [s[0], '*'] + rest == [s[0]] + (['*'] + rest);
    SelectConcat([s[0]], ['*'] + rest, NotStar);
    SelectConcat(['*'], rest, NotStar);
    SelectNone(['*'], NotStar);
    PlainStep(s, rest);
  }

  lemma {:induction false} PlainStep(s: string, rest: string)
    requires |s| > 0 && Select(rest, NotStar) == Select(s[1..], NotStar)
    ensures Select([s[0]] + rest, NotStar) == Select(s, NotStar)
  {
    SelectConcat([s[0]], rest, NotStar);
    SelectConcat([s[0]], s[1..], NotStar);
    assert [s[0]] + s[1..] == s;
  }

  /** Every character but the `*` that `InsertStar` adds. */
  predicate NotStar(c: char) {
    c != '*'
  }

  /** A letter, a digit or a decimal point: what the normalisation stages never drop. */
  predicate Operand(c: char) {
    IsAlpha(c) || IsDigit(c) || c == '.'
  }

  /** A character put in front adds only the pair it makes with the old head. */
  lemma ConsPairs(c: char, t: string, digitFirst: bool)
    ensures NoPairs([c] + t, digitFirst) <==> NoPairs(t, digitFirst) && (|t| == 0 || !Pair(c, t[0], digitFirst))
  {
    var u := [c] + t;
    if NoPairs(u, digitFirst) {
      forall i | 0 <= i < |t| - 1 ensures !Pair(t[i], t[i + 1], digitFirst) {
        assert u[i + 1] == t[i] && u[i + 2] == t[i + 1];
        assert !Pair(u[i + 1], u[i + 2], digitFirst);
      }
      if |t| > 0 {
        assert u[1] == t[0] && !Pair(u[0], u[1], digitFirst);
      }
    }
    if NoPairs(t, digitFirst) && (|t| == 0 || !Pair(c, t[0], digitFirst)) {
      forall i | 0 <= i < |u| - 1 ensures !Pair(u[i], u[i + 1], digitFirst) {
        if i > 0 {
          assert u[i] == t[i - 1] && u[i + 1] == t[i];
        }
      }
    }
  }

  /** `c` then `*` in front of `t`: a `*` pairs with nothing. */
  lemma StarCons(c: char, t: string, digitFirst: bool)
    ensures NoPairs(t, digitFirst) ==> NoPairs([c, '*'] + t, digitFirst)
    ensures NoPairs(t, !digitFirst) ==> NoPairs([c, '*'] + t, !digitFirst)
  {
    assert [c, '*'] + t == [c] + (['*'] + t);
    ConsPairs('*', t, digitFirst);
    ConsPairs('*', t, !digitFirst);
    ConsPairs(c, ['*'] + t, digitFirst);
    ConsPairs(c, ['*'] + t, !digitFirst);
  }

  /** The first character that is not whitespace is an operator. */
  predicate OpAhead(s: string)
    decreases |s|
  {
    |s| > 0 && (IsOp(s[0]) || (IsWs(s[0]) && OpAhead(s[1..])))
  }

  /**
   * `re.sub(r'\s*(OP)\s*', r'\1', t)` for an operator OP: the whitespace on
   * both sides of every operator goes; nothing else changes. `afterOp` says
   * the scan is inside the whitespace that follows an operator.
   */
  function StripFrom(s: string, afterOp: bool): (r: string)
    ensures Solid(r) == Solid(s)
    decreases |s|
  {
    if |s| == 0 then ""
    else
      SolidHead(s);
      if IsWs(s[0]) then
        if afterOp || OpAhead(s[1..]) then StripFrom(s[1..], afterOp)
        else [s[0]] + StripFrom(s[1..], false)
      else [s[0]] + StripFrom(s[1..], IsOp(s[0]))
  }

  function StripOps(s: string): (r: string)
    ensures Solid(r) == Solid(s)
  {
    StripFrom(s, false)
  }

  /** What `StripFrom` puts first. */
  lemma {:induction false} StripHead(s: string, afterOp: bool)
    ensures |s| > 0 && !IsWs(s[0]) ==> |StripFrom(s, afterOp)| > 0 && StripFrom(s, afterOp)[0] == s[0]
    ensures OpAhead(s) ==> |StripFrom(s, afterOp)| > 0 && IsOp(StripFrom(s, afterOp)[0])
    ensures |StripFrom(s, afterOp)| > 0 && !OpAhead(s) ==> !IsOp(StripFrom(s, afterOp)[0])
    ensures |StripFrom(s, afterOp)| > 0 && IsWs(StripFrom(s, afterOp)[0]) ==> !afterOp && IsWs(s[0])
    decreases |s|
  {
    if |s| > 0 {
      StripHead(s[1..], afterOp);
      StripHead(s[1..], false);
    }
  }

  /** After `StripOps` no whitespace touches an operator. */
  lemma {:induction false} StripTight(s: string, afterOp: bool)
    ensures Tight(StripFrom(s, afterOp))
    decreases |s|
  {
    if |s| > 0 {
      var r := StripFrom(s, afterOp);
      if IsWs(s[0]) {
        if afterOp || OpAhead(s[1..]) {
          StripTight(s[1..], afterOp);
        } else {
          StripTight(s[1..], false);
          StripHead(s[1..], false);
          WsThenTight([s[0]], StripFrom(s[1..], false));
        }
      } else {
        StripTight(s[1..], IsOp(s[0]));
        StripHead(s[1..], IsOp(s[0]));
        if IsOp(s[0]) {
          OpThenTight(s[0], StripFrom(s[1..], true));
        } else {
          PlainThenTight(s[0], StripFrom(s[1..], false));
        }
      }
    }
  }

  /** `StripOps` keeps digits and letters apart. */
  lemma {:induction false} StripNoGlue(s: string, afterOp: bool)
    requires NoGlue(s)
    ensures NoGlue(StripFrom(s, afterOp))
    decreases |s|
  {
    if |s| > 0 {
      NoGlueSuffix(s, 1);
      StripNoGlue(s[1..], false);
      StripNoGlue(s[1..], true);
      StripHead(s[1..], false);
      StripHead(s[1..], true);
      if !IsWs(s[0]) || !(afterOp || OpAhead(s[1..])) {
        NoGlueConcat([s[0]], StripFrom(s[1..], if IsWs(s[0]) then false else IsOp(s[0])));
      }
    }
  }

  /** No whitespace on either side of an operator. */
  predicate Tight(r: string) {
    forall i | 0 <= i && i + 1 < |r| :: TightAt(r, i)
  }

  predicate TightAt(r: string, i: int)
    requires 0 <= i && i + 1 < |r|
  {
    IsOp(r[i]) || IsOp(r[i + 1]) ==> !IsWs(r[i]) && !IsWs(r[i + 1])
  }

  lemma OpThenTight(c: char, r: string)
    requires IsOp(c) && Tight(r) && (|r| > 0 ==> !IsWs(r[0]))
    ensures Tight([c] + r)
  {
    var x := [c] + r;
    forall i | 0 <= i && i + 1 < |x| ensures TightAt(x, i) {
      if i > 0 { assert TightAt(r, i - 1); assert x[i] == r[i - 1] && x[i + 1] == r[i]; }
      else { assert x[0] == c && x[1] == r[0]; }
    }
  }

  lemma PlainThenTight(c: char, r: string)
    requires !IsOp(c) && !IsWs(c) && Tight(r)
    ensures Tight([c] + r)
  {
    var x := [c] + r;
    forall i | 0 <= i && i + 1 < |x| ensures TightAt(x, i) {
      if i > 0 { assert TightAt(r, i - 1); assert x[i] == r[i - 1] && x[i + 1] == r[i]; }
      else { assert x[0] == c && x[1] == r[0]; }
    }
  }

  lemma WsThenTight(w: string, r: string)
    requires forall i | 0 <= i < |w| :: IsWs(w[i])
    requires Tight(r) && (|r| > 0 ==> !IsOp(r[0]))
    ensures Tight(w + r)
  {
    var x := w + r;
    forall i | 0 <= i && i + 1 < |x| ensures TightAt(x, i) {
      if i >= |w| { assert TightAt(r, i - |w|); assert x[i] == r[i - |w|] && x[i + 1] == r[i + 1 - |w|]; }
      else if i + 1 < |w| { assert x[i] == w[i] && x[i + 1] == w[i + 1]; }
      else { assert x[i] == w[i] && x[i + 1] == r[0]; }
    }
  }

  /** `re.sub(r'(OP)', r' \1 ', t)`: a space either side of every operator. */
  function SpaceOps(s: string): (r: string)
    ensures Solid(r) == Solid(s)
    decreases |s|
  {
    if |s| == 0 then ""
    else
      var rest := SpaceOps(s[1..]);
      SolidHead(s);
      if IsOp(s[0]) then
        SolidConcat([' ', s[0], ' '], rest);
        SolidOp(s[0]);
        [' ', s[0], ' '] + rest
      else
        SolidConcat([s[0]], rest);
        [s[0]] + rest
  }

  /** Every operator `SpaceOps` leaves has a space on each side. */
  predicate Padded(r: string) {
    forall i | 0 <= i < |r| :: IsOp(r[i]) ==> 0 < i < |r| - 1 && r[i - 1] == ' ' && r[i + 1] == ' '
  }

  lemma SpaceOpsShape(s: string)
    ensures Padded(SpaceOps(s))
    ensures |SpaceOps(s)| > 0 <==> |s| > 0
    ensures |s| > 0 ==> SpaceOps(s)[0] == (if IsOp(s[0]) then ' ' else s[0])
    ensures NoGlue(s) ==> NoGlue(SpaceOps(s))
  {
    SpaceOpsPadded(s);
    SpaceOpsNoGlue(s);
  }

  lemma {:induction false} SpaceOpsPadded(s: string)
    ensures Padded(SpaceOps(s))
    decreases |s|
  {
    if |s| > 0 {
      var rest := SpaceOps(s[1..]);
      SpaceOpsPadded(s[1..]);
      if IsOp(s[0]) {
        assert SpaceOps(s) == [' ', s[0], ' '] + rest;
        PaddedOpCons(s[0], rest);
      } else {
        assert SpaceOps(s) == [s[0]] + rest;
        PaddedCons(s[0], rest);
      }
    }
  }

  lemma {:induction false} SpaceOpsNoGlue(s: string)
    ensures NoGlue(s) ==> NoGlue(SpaceOps(s))
    decreases |s|
  {
    if |s| > 0 && NoGlue(s) {
      var rest := SpaceOps(s[1..]);
      NoGlueSuffix(s, 1);
      SpaceOpsNoGlue(s[1..]);
      if IsOp(s[0]) {
        assert SpaceOps(s) == [' ', s[0], ' '] + rest;
        NoGlueConcat([' ', s[0], ' '], rest);
      } else {
        assert SpaceOps(s) == [s[0]] + rest;
        NoGlueConcat([s[0]], rest);
      }
    }
  }

  /** An operator padded on both sides extends a padded text. */
  lemma PaddedOpCons(c: char, rest: string)
    requires IsOp(c) && Padded(rest)
    ensures Padded([' ', c, ' '] + rest)
  {
    var x := [' ', c, ' '] + rest;
    forall i | 0 <= i < |x| && IsOp(x[i]) ensures 0 < i < |x| - 1 && x[i - 1] == ' ' && x[i + 1] == ' ' {
      if i >= 3 {
        assert x[i] == rest[i - 3] && x[i - 1] == rest[i - 4];
      }
    }
  }

  /** Any other character in front keeps a text padded. */
  lemma PaddedCons(c: char, rest: string)
    requires !IsOp(c) && Padded(rest)
    ensures Padded([c] + rest)
  {
    var x := [c] + rest;
    forall i | 0 <= i < |x| && IsOp(x[i]) ensures 0 < i < |x| - 1 && x[i - 1] == ' ' && x[i + 1] == ' ' {
      assert x[i] == rest[i - 1];
      assert i - 1 > 0;
      assert x[i - 1] == rest[i - 2] && x[i + 1] == rest[i];
    }
  }

  /**
   * `re.sub(r'(OP)\s+\1', r'\1', t)`: an operator, whitespace and the same
   * operator again become one operator; scanning resumes after the second.
   */
  function DedupOps(s: string): (r: string)
    ensures |r| <= |s|
    ensures |r| > 0 <==> |s| > 0
    ensures |s| > 0 ==> r[0] == s[0]
    decreases |s|
  {
    if |s| == 0 then ""
    else if Doubled(s) then [s[0]] + DedupOps(TrimLeft(s[1..])[1..])
    else [s[0]] + DedupOps(s[1..])
  }

  /** `s` starts with an operator, whitespace and the same operator. */
  predicate Doubled(s: string) {
    |s| > 0 &&
    var t := TrimLeft(s[1..]);
    IsOp(s[0]) && |t| < |s| - 1 && |t| > 0 && t[0] == s[0]
  }

  /** No position of `s` starts a doubled operator. */
  predicate Undoubled(s: string)
    decreases |s|
  {
    |s| == 0 || (!Doubled(s) && Undoubled(s[1..]))
  }

  /** Removing doubled operators never glues a digit to a letter. */
  lemma {:induction false} DedupOpsNoGlue(s: string)
    requires NoGlue(s)
    ensures NoGlue(DedupOps(s))
    decreases |s|
  {
    if |s| > 0 {
      if Doubled(s) {
        var t := TrimLeft(s[1..]);
        var k := |s| - |t|;
        assert t[1..] == s[k + 1..];
        NoGlueSuffix(s, k + 1);
        DedupOpsNoGlue(t[1..]);
        NoGlueConcat([s[0]], DedupOps(t[1..]));
      } else {
        NoGlueSuffix(s, 1);
        DedupOpsNoGlue(s[1..]);
        NoGlueConcat([s[0]], DedupOps(s[1..]));
      }
    }
  }

  lemma UndoubledStep(s: string)
    requires |s| > 0 && Undoubled(s)
    ensures !Doubled(s) && Undoubled(s[1..])
  {
  }

  lemma DedupPlain(s: string)
    requires |s| > 0 && !Doubled(s)
    ensures DedupOps(s) == [s[0]] + DedupOps(s[1..])
  {
  }

  /** Without a doubled operator there is nothing to remove. */
  lemma {:induction false} DedupNothing(s: string)
    requires Undoubled(s)
    ensures DedupOps(s) == s
    decreases |s|
  {
    if |s| > 0 {
      UndoubledStep(s);
      DedupPlain(s);
      DedupNothing(s[1..]);
      assert s == [s[0]] + s[1..];
    }
  }

  /** `DedupOps` drops only whitespace and operators. */
  lemma {:induction false} SelectDedup(s: string, keep: char -> bool)
    requires forall c: char :: IsWs(c) || IsOp(c) ==> !keep(c)
    ensures Select(DedupOps(s), keep) == Select(s, keep)
    decreases |s|
  {
    if |s| > 0 {
      if Doubled(s) {
        var t := TrimLeft(s[1..]);
        SelectDedup(t[1..], keep);
        DoubledStep(s, DedupOps(t[1..]), keep);
      } else {
        SelectDedup(s[1..], keep);
        PlainSelectStep(s, DedupOps(s[1..]), keep);
      }
    }
  }

  lemma {:induction false} PlainSelectStep(s: string, rest: string, keep: char -> bool)
    requires |s| > 0 && Select(rest, keep) == Select(s[1..], keep)
    ensures Select([s[0]] + rest, keep) == Select(s, keep)
  {
    SelectConcat([s[0]], rest, keep);
    SelectConcat([s[0]], s[1..], keep);
    assert [s[0]] + s[1..] == s;
  }

  /** The whitespace and the second operator of a doubled operator hold nothing kept. */
  lemma {:induction false} DoubledStep(s: string, rest: string, keep: char -> bool)
    requires forall c: char :: IsWs(c) || IsOp(c) ==> !keep(c)
    requires Doubled(s)
    requires Select(rest, keep) == Select(TrimLeft(s[1..])[1..], keep)
    ensures Select([s[0]] + rest, keep) == Select(s, keep)
  {
    var t := TrimLeft(s[1..]);
    SelectTrimLeft(s[1..], keep);
    PlainSelectStep(t, rest, keep);
    SelectConcat([t[0]], rest, keep);
    SelectNone([t[0]], keep);
    PlainSelectStep(s, rest, keep);
  }

  lemma {:induction false} SelectTrimLeft(x: string, keep: char -> bool)
    requires forall c: char :: IsWs(c) ==> !keep(c)
    ensures Select(TrimLeft(x), keep) == Select(x, keep)
  {
    SolidAfterBlanks(x, |x| - |TrimLeft(x)|);
    SelectSolid(TrimLeft(x), keep);
    SelectSolid(x, keep);
  }

  lemma {:induction false} StarsKeepOperands(s: string, r: string, digitFirst: bool)
    requires r == InsertStar(s, digitFirst)
    ensures Select(r, Operand) == Select(s, Operand)
  {
    SelectInsertStar(s, digitFirst);
    SelectSelect(r, NotStar, Operand);
    SelectSelect(s, NotStar, Operand);
  }

  /** The message `normalize_expression` raises for a spelled-out number. */
  const NumberWordsError := "Input contains non-numeric words (e.g., 'five x'). Please use digits only."

  /** `normalize_expression`, on the corrected extraction. */
  function Normalize(text: string): (r: Result<string>)
    ensures r.Err? <==> ContainsNumberWord(Unglyph(ExtractMath(text)))
    ensures r.Err? ==> r.message == NumberWordsError
    ensures r.Ok? ==> Spaced(r.value) && NoGlue(r.value)
    ensures r.Ok? ==> Select(r.value, Operand) == Select(OperatorWords(Unglyph(ExtractMath(text))), Operand)
  {
    var t := Unglyph(ExtractMath(text));
    if ContainsNumberWord(t) then
      Err(NumberWordsError)
    else
      Ok(Tighten(t))
  }

  /**
   * Lines 168-180: operator words, `*` between digits and letters, operators
   * padded by exactly one space, no operator doubled, whitespace collapsed.
   */
  function Tighten(t: string): (r: string)
    ensures Spaced(r) && NoGlue(r)
    ensures Select(r, Operand) == Select(OperatorWords(t), Operand)
  {
    var t0 := OperatorWords(t);
    var g1 := InsertStar(t0, true);
    var g2 := InsertStar(g1, false);
    var t1 := StripOps(g2);
    var t2 := SpaceOps(t1);
    var t3 := DedupOps(t2);
    StripNoGlue(g2, false);
    SpaceOpsShape(t1);
    DedupOpsNoGlue(t2);
    CollapseNoGlue(t3);
    StarsKeepOperands(t0, g1, true);
    StarsKeepOperands(g1, g2, false);
    StagesKeepOperands(g2, t1, t2, t3);
    Collapse(t3)
  }

  /** Lines 168-169: each operator word or phrase replaced by its symbol, in table order. */
  function OperatorWords(t: string): string {
    TablesWellFormed();
    ReplaceChain(t, Replacements)
  }

  /** Stripping and padding operators and dropping doubled ones keep every operand character. */
  lemma {:induction false} StagesKeepOperands(g: string, t1: string, t2: string, t3: string)
    requires t1 == StripOps(g) && t2 == SpaceOps(t1) && t3 == DedupOps(t2)
    ensures Select(Collapse(t3), Operand) == Select(g, Operand)
  {
    SelectCollapse(t3, Operand);
    SelectDedup(t2, Operand);
    SelectSolid(t2, Operand);
    SelectSolid(t1, Operand);
    SelectSolid(g, Operand);
  }

  // ---------------------------------------------------------------------------
  // Helpers about whitespace and pairs

  lemma SolidOp(c: char)
    requires IsOp(c)
    ensures Solid([' ', c, ' ']) == [c]
  {
    SolidHead([' ', c, ' ']);
    assert [' ', c, ' '][1..] == [c, ' '];
    SolidHead([c, ' ']);
    assert [c, ' '][1..] == [' '];
    SolidHead([' ']);
    assert [' '][1..] == [];
  }

  lemma NoGlueConcat(a: string, b: string)
    requires NoGlue(a) && NoGlue(b)
    requires |a| > 0 && |b| > 0 ==> !Pair(a[|a| - 1], b[0], true) && !Pair(a[|a| - 1], b[0], false)
    ensures NoGlue(a + b)
  {
    var x := a + b;
    forall i | 0 <= i < |x| - 1 ensures !Pair(x[i], x[i + 1], true) && !Pair(x[i], x[i + 1], false) {
      if i + 1 < |a| { assert x[i] == a[i] && x[i + 1] == a[i + 1]; }
      else if i >= |a| { assert x[i] == b[i - |a|] && x[i + 1] == b[i + 1 - |a|]; }
      else { assert x[i] == a[|a| - 1] && x[i + 1] == b[0]; }
    }
  }

  lemma NoGlueSuffix(s: string, k: nat)
    requires k <= |s|
    ensures NoGlue(s) ==> NoGlue(s[k..])
  {
    if NoGlue(s) {
      forall i | 0 <= i < |s[k..]| - 1 ensures !Pair(s[k..][i], s[k..][i + 1], true) && !Pair(s[k..][i], s[k..][i + 1], false) {
        assert s[k..][i] == s[k + i] && s[k..][i + 1] == s[k + i + 1];
      }
    }
  }

  /** Collapsing whitespace and stripping keeps digits and letters apart. */
  lemma CollapseNoGlue(s: string)
    requires NoGlue(s)
    ensures NoGlue(Collapse(s))
  {
    SquashNoGlue(s);
    TrimNoGlue(Squash(s));
  }

  lemma TrimNoGlue(q: string)
    requires NoGlue(q)
    ensures NoGlue(Trim(q))
  {
    var l := TrimLeft(q);
    NoGlueSuffix(q, |q| - |l|);
    NoGluePrefix(l, |TrimRight(l)|);
  }

  lemma NoGluePrefix(s: string, k: nat)
    requires k <= |s|
    ensures NoGlue(s) ==> NoGlue(s[..k])
  {
    if NoGlue(s) {
      forall i | 0 <= i < |s[..k]| - 1 ensures !Pair(s[..k][i], s[..k][i + 1], true) && !Pair(s[..k][i], s[..k][i + 1], false) {
        assert s[..k][i] == s[i] && s[..k][i + 1] == s[i + 1];
      }
    }
  }

  lemma {:induction false} SquashNoGlue(s: string)
    requires NoGlue(s)
    ensures NoGlue(Squash(s))
    ensures |Squash(s)| > 0 ==> Squash(s)[0] == s[0] || Squash(s)[0] == ' '
    decreases |s|
  {
    if |s| > 0 {
      if IsWs(s[0]) {
        var t := TrimLeft(s);
        NoGlueSuffix(s, |s| - |t|);
        if |t| > 0 {
          SquashNoGlue(t);
        }
        SquashSpaceStep(s);
      } else {
        NoGlueSuffix(s, 1);
        SquashNoGlue(s[1..]);
        SquashCharStep(s);
      }
    }
  }

  lemma SquashSpaceStep(s: string)
    requires |s| > 0 && IsWs(s[0]) && NoGlue(Squash(TrimLeft(s)))
    ensures NoGlue(Squash(s)) && Squash(s)[0] == ' '
  {
    NoGlueConcat(" ", Squash(TrimLeft(s)));
  }

  lemma SquashCharStep(s: string)
    requires |s| > 0 && !IsWs(s[0]) && NoGlue(s) && NoGlue(Squash(s[1..]))
    requires |s| > 1 ==> Squash(s[1..])[0] == s[1] || Squash(s[1..])[0] == ' '
    ensures NoGlue(Squash(s)) && Squash(s)[0] == s[0]
  {
    NoGlueConcat([s[0]], Squash(s[1..]));
  }
}
