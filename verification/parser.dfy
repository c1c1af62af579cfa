/**
 * `EquationParser` from text to SymPy objects: variables, the symbol cache,
 * `parse_expression`, `parse_equation`, the system splitter and
 * `parse_system_of_equations`. The text stages and `sympify` are reached
 * through a `Stages` value; `Standard` holds the stages of `Extraction`.
 */
module Parser {
  import opened Wrappers
  import opened Strings
  import opened Runs
  import opened Patterns
  import opened Algebra
  import opened Extraction

  /** `sp.Symbol(name)`. */
  datatype Symbol = Symbol(name: string)

  /** A dictionary from variable names to symbols (`self.variables` and every `symbols_dict`). */
  type Symbols = map<string, Symbol>

  /** Each name is mapped to the symbol of that name. */
  predicate WellNamed(m: Symbols) {
    forall v | v in m :: m[v] == Symbol(v)
  }

  /** The symbols of a set of names. */
  function Named(names: set<string>): (m: Symbols)
    ensures m.Keys == names && WellNamed(m)
  {
    map v | v in names :: Symbol(v)
  }

  /**
   * What the parser calls besides itself: the two text stages of
   * `EquationParser` and SymPy's `sympify`, which maps the normalized text to
   * an expression tree or to the message of the exception it raises.
   */
  datatype Stages = Stages(extract: string -> string, normalize: string -> Result<string>, sympify: string -> Result<Expr>)

  /** The stages of `Extraction`, with `sympify` left as a parameter. */
  function Standard(sympify: string -> Result<Expr>): Stages {
    Stages(ExtractMath, Normalize, sympify)
  }

  /**
   * `create_symbols`: a name missing from the cache gets a new symbol there;
   * the dictionary returned takes every symbol from the updated cache.
   */
  function CreateSymbols(cache: Symbols, names: set<string>): (r: (Symbols, Symbols))
    ensures r.0.Keys == names
    ensures r.1.Keys == cache.Keys + names
    ensures forall v | v in cache :: r.1[v] == cache[v]
    ensures forall v | v in names :: r.0[v] == r.1[v]
    ensures WellNamed(cache) ==> WellNamed(r.1) && r.0 == Named(names)
  {
    var added := map v | v in names && v !in cache :: Symbol(v);
    var cache' := cache + added;
    (map v | v in names :: cache'[v], cache')
  }

  /**
   * The symbol names put back into the text are the variables themselves, so
   * the renaming loop of `parse_expression` leaves the text as it is.
   */
  lemma RenamingChangesNothing(s: string, symbols: Symbols)
    requires WellNamed(symbols)
    ensures forall v | v in symbols && |v| > 0 :: ReplaceAll(s, v, symbols[v].name) == s
  {
    forall v | v in symbols && |v| > 0 ensures ReplaceAll(s, v, symbols[v].name) == s {
      ReplaceSelf(s, v);
    }
  }

  // ---------------------------------------------------------------------------
  // Expressions

  /**
   * What `parse_expression` returns for `text` once `normalize_expression`
   * has given `normalized`, without the cache: the normalization error, or
   * `sympify`'s reading with one symbol per letter standing alone.
   */
  function Reading(text: string, normalized: Result<string>, st: Stages): Result<(Expr, Symbols)> {
    match normalized
    case Err(message) => Err(message)
    case Ok(n) =>
      match st.sympify(n)
      case Err(e) => Err("Failed to parse expression '" + text + "': " + e)
      case Ok(expr) => Ok((expr, Named(StandaloneLetters(n))))
  }

  /** The variables `extract_variables` finds in a normalized text; none when normalization failed. */
  function Letters(normalized: Result<string>): set<string> {
    match normalized
    case Err(_) => {}
    case Ok(n) => StandaloneLetters(n)
  }

  /**
   * Lines 224-238 of `parse_expression` for the normalized text. A
   * normalization error leaves the cache alone; otherwise the letters reach
   * the cache even when `sympify` then fails, and the result does not depend
   * on the cache.
   */
  function ParseNormalized(cache: Symbols, text: string, normalized: Result<string>, st: Stages): (r: (Result<(Expr, Symbols)>, Symbols))
    requires WellNamed(cache)
    ensures r.0 == Reading(text, normalized, st)
    ensures normalized.Err? ==> r == (Err(normalized.message), cache)
    ensures normalized.Ok? && st.sympify(normalized.value).Err? ==>
              r.0 == Err("Failed to parse expression '" + text + "': " + st.sympify(normalized.value).message)
    ensures r.0.Ok? ==> r.0.value.0 == st.sympify(normalized.value).value && r.0.value.1.Keys == Letters(normalized)
    ensures WellNamed(r.1) && r.1.Keys == cache.Keys + Letters(normalized)
  {
    match normalized
    case Err(message) => (Err(message), cache)
    case Ok(n) =>
      var (symbols, cache') := CreateSymbols(cache, StandaloneLetters(n));
      RenamingChangesNothing(n, symbols);
      match st.sympify(n)
      case Err(e) => (Err("Failed to parse expression '" + text + "': " + e), cache')
      case Ok(expr) => (Ok((expr, symbols)), cache')
  }

  /** `parse_expression`: normalize, then parse the normalized text. */
  function ParseExpression(cache: Symbols, text: string, st: Stages): (r: (Result<(Expr, Symbols)>, Symbols))
    requires WellNamed(cache)
    ensures r.0 == Reading(text, st.normalize(text), st)
    ensures WellNamed(r.1) && r.1.Keys == cache.Keys + Letters(st.normalize(text))
  {
    ParseNormalized(cache, text, st.normalize(text), st)
  }

  // ---------------------------------------------------------------------------
  // Equations

  /** `math_text.split('=')` has exactly two parts. */
  predicate TwoSided(m: string) {
    CountChar(m, '=') == 1
  }

  /** What `parse_equation` returns for the stripped sides once they are normalized, without the cache. */
  function SidesReading(left: string, right: string, normalizedLeft: Result<string>, normalizedRight: Result<string>,
                        st: Stages): Result<(Equation, Symbols)> {
    match Reading(left, normalizedLeft, st)
    case Err(e) => Err(e)
    case Ok((l, leftSymbols)) =>
      match Reading(right, normalizedRight, st)
      case Err(e) => Err(e)
      case Ok((r, rightSymbols)) => Ok((Eq(l, r), leftSymbols + rightSymbols))
  }

  /**
   * Lines 262-270 of `parse_equation`: parse the left side and then the
   * right side, so the left side's letters reach the cache first and stay
   * there when the right side fails, and merge the two symbol dictionaries.
   */
  function ParseSides(cache: Symbols, left: string, right: string, normalizedLeft: Result<string>, normalizedRight: Result<string>,
                      st: Stages): (r: (Result<(Equation, Symbols)>, Symbols))
    requires WellNamed(cache)
    ensures r.0 == SidesReading(left, right, normalizedLeft, normalizedRight, st)
    ensures r.0.Ok? ==> r.0.value.1.Keys == Letters(normalizedLeft) + Letters(normalizedRight) && WellNamed(r.0.value.1)
    ensures Reading(left, normalizedLeft, st).Err? ==> r.1.Keys == cache.Keys + Letters(normalizedLeft)
    ensures Reading(left, normalizedLeft, st).Ok? ==>
              r.1.Keys == cache.Keys + Letters(normalizedLeft) + Letters(normalizedRight)
    ensures WellNamed(r.1)
  {
    var (leftParsed, cache1) := ParseNormalized(cache, left, normalizedLeft, st);
    match leftParsed
    case Err(e) => (Err(e), cache1)
    case Ok((l, leftSymbols)) =>
      var (rightParsed, cache2) := ParseNormalized(cache1, right, normalizedRight, st);
      match rightParsed
      case Err(e) => (Err(e), cache2)
      case Ok((rr, rightSymbols)) => (Ok((Eq(l, rr), leftSymbols + rightSymbols)), cache2)
  }

  /** What `parse_equation` returns, without the cache. */
  function EquationReading(text: string, st: Stages): Result<(Equation, Symbols)> {
    var parts := SplitOn(st.extract(text), '=');
    if |parts| != 2 then Err("Invalid equation format: " + text)
    else
      var left, right := Trim(parts[0]), Trim(parts[1]);
      SidesReading(left, right, st.normalize(left), st.normalize(right), st)
  }

  /**
   * `parse_equation`: extract the mathematical text and split it on `=`.
   * Any number of `=` but one is a format error that leaves the cache alone.
   */
  function ParseEquation(cache: Symbols, text: string, st: Stages): (r: (Result<(Equation, Symbols)>, Symbols))
    requires WellNamed(cache)
    ensures r.0 == EquationReading(text, st)
    ensures !TwoSided(st.extract(text)) ==> r == (Err("Invalid equation format: " + text), cache)
    ensures WellNamed(r.1) && cache.Keys <= r.1.Keys
  {
    var parts := SplitOn(st.extract(text), '=');
    if |parts| != 2 then (Err("Invalid equation format: " + text), cache)
    else
      var left, right := Trim(parts[0]), Trim(parts[1]);
      ParseSides(cache, left, right, st.normalize(left), st.normalize(right), st)
  }

  /**
   * When the cleaned text holds an `L = R` span, the extracted text splits
   * into exactly those two sides, so `parse_equation` never reports a
   * format error for it and parses `L` and `R`.
   */
  lemma SpanIsTwoSided(text: string)
    requires EquationSpan(Clean(text)).Some?
    ensures TwoSided(ExtractMath(text))
    ensures var (left, right) := EquationSpan(Clean(text)).value;
            var parts := SplitOn(ExtractMath(text), '=');
            Trim(parts[0]) == left && Trim(parts[1]) == right
  {
    var (left, right) := EquationSpan(Clean(text)).value;
    JoinedSidesSplit(left, right);
  }

  // ---------------------------------------------------------------------------
  // Systems

  /** `and\s+`, which the splitter turns into `&`. */
  const AndSeparator: Pattern := [Lit("and"), Spaces(1)]

  /**
   * Lines 284-290: lower case, drop the system heading, turn `and` followed
   * by whitespace into `&`, split on `&`. The `\s+and\s+` alternative of the
   * split can no longer match after that substitution.
   */
  function Pieces(text: string): (r: seq<string>)
    ensures |r| > 0
    ensures forall k | 0 <= k < |r| :: !('&' in r[k])
    ensures JoinWith(r, '&') == Marked(text)
  {
    var r := SplitOn(Marked(text), '&');
    assert forall k | 0 <= k < |r| :: forall i | 0 <= i < |r[k]| :: r[k][i] != '&';
    r
  }

  /** The system text before the split: lowered, without its heading, `&` for each `and` separator. */
  function Marked(text: string): string {
    var t := Lower(text);
    var t := Remove(t, SystemHeading);
    Substitute(t, AndSeparator, "&")
  }

  /** The text handed to `parse_equation` for one piece: its `L = R` span, if any. */
  function Candidate(piece: string): (r: Option<string>)
    ensures r.Some? <==> exists q: nat :: Splittable(Trim(piece), q)
  {
    var p := Trim(piece);
    if |p| == 0 then None
    else
      match EquationSpan(p)
      case None => None
      case Some((left, right)) => Some(left + " = " + right)
  }

  /** What one piece contributes: the equation `parse_equation` makes of its span, if both succeed. */
  function Attempt(piece: string, st: Stages): Option<(Equation, Symbols)> {
    match Candidate(piece)
    case None => None
    case Some(equation) =>
      match EquationReading(equation, st)
      case Err(_) => None
      case Ok(parsed) => Some(parsed)
  }

  /** The values present in `xs` from position `i` on, in order. */
  function PresentFrom<T>(xs: seq<Option<T>>, i: nat): seq<T>
    requires i <= |xs|
    decreases |xs| - i
  {
    if i == |xs| then []
    else if xs[i].Some? then [xs[i].value] + PresentFrom(xs, i + 1)
    else PresentFrom(xs, i + 1)
  }

  /** The positions of `Some` entries from position `i` on, in order. */
  function PositionsFrom<T>(xs: seq<Option<T>>, i: nat): seq<nat>
    requires i <= |xs|
    decreases |xs| - i
  {
    if i == |xs| then []
    else if xs[i].Some? then [i] + PositionsFrom(xs, i + 1)
    else PositionsFrom(xs, i + 1)
  }

  /** The values present in a sequence of options, in order. */
  function Present<T>(xs: seq<Option<T>>): seq<T> {
    PresentFrom(xs, 0)
  }

  lemma {:induction false} PositionsLength<T>(xs: seq<Option<T>>, i: nat)
    requires i <= |xs|
    ensures |PositionsFrom(xs, i)| == |PresentFrom(xs, i)|
    decreases |xs| - i
  {
    if i < |xs| {
      PositionsLength(xs, i + 1);
    }
  }

  lemma {:induction false} PositionsHold<T>(xs: seq<Option<T>>, i: nat)
    requires i <= |xs|
    ensures |PositionsFrom(xs, i)| == |PresentFrom(xs, i)|
    ensures forall j | 0 <= j < |PositionsFrom(xs, i)| ::
      i <= PositionsFrom(xs, i)[j] < |xs| && xs[PositionsFrom(xs, i)[j]] == Some(PresentFrom(xs, i)[j])
    decreases |xs| - i
  {
    PositionsLength(xs, i);
    if i < |xs| {
      PositionsHold(xs, i + 1);
    }
  }

  lemma {:induction false} PositionsIncrease<T>(xs: seq<Option<T>>, i: nat)
    requires i <= |xs|
    ensures forall j | 0 <= j < |PositionsFrom(xs, i)| :: i <= PositionsFrom(xs, i)[j]
    ensures forall j, k | 0 <= j < k < |PositionsFrom(xs, i)| :: PositionsFrom(xs, i)[j] < PositionsFrom(xs, i)[k]
    decreases |xs| - i
  {
    if i < |xs| {
      PositionsIncrease(xs, i + 1);
    }
  }

  lemma {:induction false} PositionsComplete<T>(xs: seq<Option<T>>, i: nat)
    requires i <= |xs|
    ensures forall k | i <= k < |xs| && xs[k].Some? :: k in PositionsFrom(xs, i)
    decreases |xs| - i
  {
    if i < |xs| {
      PositionsComplete(xs, i + 1);
    }
  }

  /**
   * The present values are exactly those of the `Some` entries: an
   * increasing choice of positions, each giving its value, with every
   * position left out holding `None`.
   */
  lemma PresentPicks<T>(xs: seq<Option<T>>) returns (picks: seq<nat>)
    ensures |picks| == |Present(xs)|
    ensures forall j | 0 <= j < |picks| :: picks[j] < |xs| && xs[picks[j]] == Some(Present(xs)[j])
    ensures forall j, k | 0 <= j < k < |picks| :: picks[j] < picks[k]
    ensures forall i | 0 <= i < |xs| && xs[i].Some? :: i in picks
  {
    picks := PositionsFrom(xs, 0);
    PositionsHold(xs, 0);
    PositionsIncrease(xs, 0);
    PositionsComplete(xs, 0);
  }

  /** Every present value satisfies what every `Some` entry satisfies. */
  lemma PresentAll<T>(xs: seq<Option<T>>, p: T -> bool)
    requires forall i | 0 <= i < |xs| && xs[i].Some? :: p(xs[i].value)
    ensures forall j | 0 <= j < |Present(xs)| :: p(Present(xs)[j])
  {
    var picks := PresentPicks(xs);
    forall j | 0 <= j < |Present(xs)| ensures p(Present(xs)[j]) {
      assert xs[picks[j]] == Some(Present(xs)[j]);
    }
  }

  function Attempts(pieces: seq<string>, st: Stages): (r: seq<Option<(Equation, Symbols)>>)
    ensures |r| == |pieces| && forall i | 0 <= i < |pieces| :: r[i] == Attempt(pieces[i], st)
  {
    seq(|pieces|, i requires 0 <= i < |pieces| => Attempt(pieces[i], st))
  }

  /** The equations the pieces yield, in order, each piece's failure skipped. */
  function Found(pieces: seq<string>, st: Stages): seq<(Equation, Symbols)> {
    Present(Attempts(pieces, st))
  }

  /** The loop of `extract_equations_from_text` over the pieces from `i` on, threading the cache. */
  function ParsePieces(cache: Symbols, pieces: seq<string>, i: nat, st: Stages): (r: (seq<(Equation, Symbols)>, Symbols))
    requires WellNamed(cache) && i <= |pieces|
    ensures r.0 == PresentFrom(Attempts(pieces, st), i)
    ensures WellNamed(r.1) && cache.Keys <= r.1.Keys
    decreases |pieces| - i
  {
    if i == |pieces| then ([], cache)
    else
      match Candidate(pieces[i])
      case None => ParsePieces(cache, pieces, i + 1, st)
      case Some(equation) =>
        var (parsed, cache1) := ParseEquation(cache, equation, st);
        var (rest, cache2) := ParsePieces(cache1, pieces, i + 1, st);
        if parsed.Ok? then ([parsed.value] + rest, cache2) else (rest, cache2)
  }

  /** `extract_equations_from_text`. */
  function ExtractEquations(cache: Symbols, text: string, st: Stages): (r: (seq<(Equation, Symbols)>, Symbols))
    requires WellNamed(cache)
    ensures r.0 == Found(Pieces(text), st)
    ensures WellNamed(r.1) && cache.Keys <= r.1.Keys
  {
    ParsePieces(cache, Pieces(text), 0, st)
  }

  /**
   * The equations found are exactly those of the pieces that yield one: an
   * increasing choice of pieces, each giving its equation, with every piece
   * left out failing.
   */
  lemma FoundPicks(pieces: seq<string>, st: Stages) returns (picks: seq<nat>)
    ensures |picks| == |Found(pieces, st)|
    ensures forall j | 0 <= j < |picks| :: picks[j] < |pieces| && Attempt(pieces[picks[j]], st) == Some(Found(pieces, st)[j])
    ensures forall j, k | 0 <= j < k < |picks| :: picks[j] < picks[k]
    ensures forall i | 0 <= i < |pieces| && Attempt(pieces[i], st).Some? :: i in picks
  {
    picks := PresentPicks(Attempts(pieces, st));
  }

  /** The union of the symbol dictionaries, later ones winning (`all_symbols.update`). */
  function Merge(found: seq<(Equation, Symbols)>): (r: Symbols)
    ensures (forall j | 0 <= j < |found| :: WellNamed(found[j].1)) ==> WellNamed(r)
    decreases |found|
  {
    if |found| == 0 then map[]
    else Merge(found[..|found| - 1]) + found[|found| - 1].1
  }

  /** A name is in the union exactly when some dictionary holds it. */
  lemma {:induction false} MergeKeys(found: seq<(Equation, Symbols)>, v: string)
    ensures v in Merge(found) <==> exists j | 0 <= j < |found| :: v in found[j].1
    decreases |found|
  {
    if |found| > 0 {
      var init := found[..|found| - 1];
      MergeKeys(init, v);
      assert forall j | 0 <= j < |found| - 1 :: init[j] == found[j];
    }
  }

  /**
   * `parse_system_of_equations`: the equations found and the union of their
   * symbols, or an error when the text yields none.
   */
  function ParseSystem(cache: Symbols, text: string, st: Stages): (r: (Result<(seq<Equation>, Symbols)>, Symbols))
    requires WellNamed(cache)
    ensures var found := Found(Pieces(text), st);
            && (r.0.Err? <==> |found| == 0)
            && (r.0.Err? ==> r.0.message == "No valid equations found in text")
            && (r.0.Ok? ==> |r.0.value.0| == |found| && forall j | 0 <= j < |found| :: r.0.value.0[j] == found[j].0)
            && (r.0.Ok? ==> r.0.value.1 == Merge(found) && WellNamed(r.0.value.1))
    ensures WellNamed(r.1) && cache.Keys <= r.1.Keys
  {
    var (found, cache') := ExtractEquations(cache, text, st);
    FoundWellNamed(Pieces(text), st);
    if |found| == 0 then (Err("No valid equations found in text"), cache')
    else (Ok((Equations(found), Merge(found))), cache')
  }

  /** The equations of the readings, in order. */
  function Equations(found: seq<(Equation, Symbols)>): (r: seq<Equation>)
    ensures |r| == |found| && forall j | 0 <= j < |found| :: r[j] == found[j].0
  {
    seq(|found|, j requires 0 <= j < |found| => found[j].0)
  }

  /** A symbol dictionary `parse_equation` returns names its symbols after their variables. */
  lemma EquationReadingWellNamed(text: string, st: Stages)
    ensures EquationReading(text, st).Ok? ==> WellNamed(EquationReading(text, st).value.1)
  {
    var parts := SplitOn(st.extract(text), '=');
    if |parts| == 2 {
      var left, right := Trim(parts[0]), Trim(parts[1]);
      var parsed := ParseSides(map[], left, right, st.normalize(left), st.normalize(right), st);
    }
  }

  /** Every symbol dictionary found names its symbols after their variables. */
  lemma FoundWellNamed(pieces: seq<string>, st: Stages)
    ensures forall j | 0 <= j < |Found(pieces, st)| :: WellNamed(Found(pieces, st)[j].1)
  {
    var xs := Attempts(pieces, st);
    forall i | 0 <= i < |xs| && xs[i].Some? ensures WellNamed(xs[i].value.1) {
      EquationReadingWellNamed(Candidate(pieces[i]).value, st);
    }
    PresentAll(xs, (found: (Equation, Symbols)) => WellNamed(found.1));
  }
}
