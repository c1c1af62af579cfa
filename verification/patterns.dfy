/**
 * A small backtracking regular-expression matcher for the instruction
 * phrases the parser strips (`solve\s+for\s+[a-zA-Z]+\s*:?` and the like),
 * and `re.sub(pattern, '', text)` on top of it. Quantifiers are greedy and
 * give characters back one at a time, as Python's `re` does, so the end of
 * a match is the one Python finds, not merely some end.
 */
module Patterns {
  import opened Strings

  /** One element of a pattern. */
  datatype Atom =
    | Lit(text: string)   // the characters themselves
    | Spaces(min: nat)    // `\s*` (min 0) or `\s+` (min 1)
    | Letters             // `[a-zA-Z]+`
    | Opt(c: char)        // `c?`

  type Pattern = seq<Atom>

  /** Number of characters of the class of `a` available from `i` on. */
  function Avail(s: string, i: nat, a: Atom): (n: nat)
    requires a.Spaces? || a.Letters?
    ensures i + n <= |s| || n == 0
    ensures forall j | i <= j < i + n :: InClass(s[j], a)
    ensures i + n < |s| ==> !InClass(s[i + n], a)
    decreases |s| - i
  {
    if i < |s| && InClass(s[i], a) then 1 + Avail(s, i + 1, a) else 0
  }

  predicate InClass(c: char, a: Atom)
    requires a.Spaces? || a.Letters?
  {
    if a.Spaces? then IsWs(c) else IsAlpha(c)
  }

  function MinCount(a: Atom): nat
    requires a.Spaces? || a.Letters?
  {
    if a.Spaces? then a.min else 1
  }

  /**
   * Declarative meaning: `s[i..e]` is a string of the language of `pat`.
   */
  predicate Accepts(s: string, i: nat, e: nat, pat: Pattern)
    decreases |pat|
  {
    i <= e <= |s| &&
    if |pat| == 0 then i == e
    else match pat[0]
      case Lit(t) => i + |t| <= e && OccursAt(s, t, i) && Accepts(s, i + |t|, e, pat[1..])
      case Opt(c) => Accepts(s, i, e, pat[1..]) || (i < e && s[i] == c && Accepts(s, i + 1, e, pat[1..]))
      case Spaces(_) => exists k: nat | MinCount(pat[0]) <= k <= e - i :: ClassRun(s, i, k, pat[0]) && Accepts(s, i + k, e, pat[1..])
      case Letters => exists k: nat | MinCount(pat[0]) <= k <= e - i :: ClassRun(s, i, k, pat[0]) && Accepts(s, i + k, e, pat[1..])
  }

  /** The `k` characters from `i` on are of the class of `a`. */
  predicate ClassRun(s: string, i: nat, k: nat, a: Atom)
    requires a.Spaces? || a.Letters?
  {
    i + k <= |s| && forall j | i <= j < i + k :: InClass(s[j], a)
  }

  /**
   * `re.match(pat, s[i:])`: the end of the match the backtracking search
   * finds first, trying longer runs before shorter ones.
   */
  function Match(s: string, i: nat, pat: Pattern): (r: Cursor)
    requires i <= |s|
    ensures r.At? ==> i <= r.pos <= |s|
    ensures r.At? && |pat| > 0 && pat[0].Lit? ==> i + |pat[0].text| <= r.pos
    decreases |pat|, 0
  {
    if |pat| == 0 then At(i)
    else match pat[0]
      case Lit(t) => if OccursAt(s, t, i) then Match(s, i + |t|, pat[1..]) else Stuck
      case Opt(c) =>
        if i < |s| && s[i] == c && Match(s, i + 1, pat[1..]).At? then Match(s, i + 1, pat[1..])
        else Match(s, i, pat[1..])
      case Spaces(_) => TryCounts(s, i, Avail(s, i, pat[0]), MinCount(pat[0]), pat[1..])
      case Letters => TryCounts(s, i, Avail(s, i, pat[0]), MinCount(pat[0]), pat[1..])
  }

  /** Try the rest of the pattern after `k`, `k - 1`, …, `min` characters. */
  function TryCounts(s: string, i: nat, k: nat, min: nat, rest: Pattern): (r: Cursor)
    requires i + k <= |s|
    ensures r.At? ==> i <= r.pos <= |s|
    decreases |rest|, k + 1
  {
    if k < min then Stuck
    else if Match(s, i + k, rest).At? then Match(s, i + k, rest)
    else if k == 0 then Stuck
    else TryCounts(s, i, k - 1, min, rest)
  }

  datatype Cursor = Stuck | At(pos: nat)

  // ---------------------------------------------------------------------------
  // The matcher agrees with the declarative meaning

  lemma {:induction false} MatchSound(s: string, i: nat, pat: Pattern)
    requires i <= |s|
    requires Match(s, i, pat).At?
    ensures Accepts(s, i, Match(s, i, pat).pos, pat)
    decreases |pat|, 0
  {
    var e := Match(s, i, pat).pos;
    if |pat| > 0 {
      match pat[0]
      case Lit(t) =>
        MatchSound(s, i + |t|, pat[1..]);
      case Opt(c) =>
        if i < |s| && s[i] == c && Match(s, i + 1, pat[1..]).At? {
          MatchSound(s, i + 1, pat[1..]);
        } else {
          MatchSound(s, i, pat[1..]);
        }
      case Spaces(_) =>
        var k := TrySound(s, i, Avail(s, i, pat[0]), pat[0], pat[1..]);
      case Letters =>
        var k := TrySound(s, i, Avail(s, i, pat[0]), pat[0], pat[1..]);
    }
  }

  lemma {:induction false} TrySound(s: string, i: nat, k: nat, a: Atom, rest: Pattern) returns (n: nat)
    requires a.Spaces? || a.Letters?
    requires i + k <= |s| && ClassRun(s, i, k, a)
    requires TryCounts(s, i, k, MinCount(a), rest).At?
    ensures MinCount(a) <= n <= k && ClassRun(s, i, n, a)
    ensures Match(s, i + n, rest).At? && TryCounts(s, i, k, MinCount(a), rest) == Match(s, i + n, rest)
    ensures Accepts(s, i + n, TryCounts(s, i, k, MinCount(a), rest).pos, rest)
    decreases |rest|, k + 1
  {
    if Match(s, i + k, rest).At? {
      n := k;
      MatchSound(s, i + k, rest);
    } else {
      n := TrySound(s, i, k - 1, a, rest);
    }
  }

  lemma {:induction false} MatchComplete(s: string, i: nat, e: nat, pat: Pattern)
    requires Accepts(s, i, e, pat)
    ensures Match(s, i, pat).At?
    decreases |pat|, 0
  {
    if |pat| > 0 {
      match pat[0]
      case Lit(t) =>
        MatchComplete(s, i + |t|, e, pat[1..]);
      case Opt(c) =>
        if Accepts(s, i, e, pat[1..]) {
          MatchComplete(s, i, e, pat[1..]);
        } else {
          MatchComplete(s, i + 1, e, pat[1..]);
        }
      case Spaces(_) =>
        var k: nat :| MinCount(pat[0]) <= k <= e - i && ClassRun(s, i, k, pat[0]) && Accepts(s, i + k, e, pat[1..]);
        MatchComplete(s, i + k, e, pat[1..]);
        RunWithinAvail(s, i, k, pat[0]);
        TryComplete(s, i, Avail(s, i, pat[0]), k, pat[0], pat[1..]);
      case Letters =>
        var k: nat :| MinCount(pat[0]) <= k <= e - i && ClassRun(s, i, k, pat[0]) && Accepts(s, i + k, e, pat[1..]);
        MatchComplete(s, i + k, e, pat[1..]);
        RunWithinAvail(s, i, k, pat[0]);
        TryComplete(s, i, Avail(s, i, pat[0]), k, pat[0], pat[1..]);
    }
  }

  /** Trying counts from `k` down reaches a count `n` that works. */
  lemma {:induction false} TryComplete(s: string, i: nat, k: nat, n: nat, a: Atom, rest: Pattern)
    requires a.Spaces? || a.Letters?
    requires i + k <= |s|
    requires MinCount(a) <= n <= k
    requires Match(s, i + n, rest).At?
    ensures TryCounts(s, i, k, MinCount(a), rest).At?
    decreases k
  {
    if k > n && !Match(s, i + k, rest).At? {
      TryComplete(s, i, k - 1, n, a, rest);
    }
  }

  /** The `k` characters of a class run lie inside the maximal run. */
  lemma {:induction false} RunWithinAvail(s: string, i: nat, k: nat, a: Atom)
    requires a.Spaces? || a.Letters?
    requires ClassRun(s, i, k, a)
    ensures k <= Avail(s, i, a)
    decreases k
  {
    if k > 0 {
      RunWithinAvail(s, i + 1, k - 1, a);
    }
  }

  /** A match exists at `i` exactly when some string of the language starts there. */
  lemma MatchIff(s: string, i: nat, pat: Pattern)
    requires i <= |s|
    ensures Match(s, i, pat).At? <==> exists e: nat | i <= e <= |s| :: Accepts(s, i, e, pat)
  {
    if Match(s, i, pat).At? {
      MatchSound(s, i, pat);
      var e := Match(s, i, pat).pos;
      assert i <= e <= |s| && Accepts(s, i, e, pat);
    }
    if exists e: nat | i <= e <= |s| :: Accepts(s, i, e, pat) {
      var e: nat :| i <= e <= |s| && Accepts(s, i, e, pat);
      MatchComplete(s, i, e, pat);
    }
  }

  // ---------------------------------------------------------------------------
  // `re.sub(pat, rep, s)`

  /** A pattern whose every string is non-empty: it starts with a non-empty literal. */
  predicate Anchored(pat: Pattern) {
    |pat| > 0 && pat[0].Lit? && |pat[0].text| > 0
  }

  /**
   * Scan from `i`: each match is replaced by `rep` and scanning resumes
   * after it; a character where no match starts is kept.
   */
  function SubFrom(s: string, i: nat, pat: Pattern, rep: string): (r: string)
    requires i <= |s| && Anchored(pat)
    ensures forall j | 0 <= j < |r| :: r[j] in s[i..] || r[j] in rep
    decreases |s| - i
  {
    if i == |s| then ""
    else match Match(s, i, pat)
      case At(e) => rep + SubFrom(s, e, pat, rep)
      case Stuck => [s[i]] + SubFrom(s, i + 1, pat, rep)
  }

  /** `re.sub(pat, rep, s)`. */
  function Substitute(s: string, pat: Pattern, rep: string): (r: string)
    requires Anchored(pat)
    ensures forall j | 0 <= j < |r| :: r[j] in s || r[j] in rep
  {
    assert s[0..] == s;
    SubFrom(s, 0, pat, rep)
  }

  /** `re.sub(pat, '', s)`. */
  function Remove(s: string, pat: Pattern): (r: string)
    requires Anchored(pat)
    ensures |r| <= |s|
    ensures forall j | 0 <= j < |r| :: r[j] in s
    ensures Subsequence(r, s)
    ensures Nowhere(s, pat) ==> r == s
  {
    RemoveShrinks(s, 0, pat);
    RemoveDeletes(s, 0, pat);
    assert s[0..] == s;
    assert Nowhere(s, pat) ==> Substitute(s, pat, "") == s by {
      if Nowhere(s, pat) {
        SubstituteNothing(s, 0, pat, "");
      }
    }
    Substitute(s, pat, "")
  }

  /** No string of the pattern's language occurs anywhere in `s`. */
  predicate Nowhere(s: string, pat: Pattern) {
    forall j, e | 0 <= j <= e <= |s| :: !Accepts(s, j, e, pat)
  }

  /** With nothing put in its place, each match is cut out and every other character stays, in order. */
  lemma {:induction false} RemoveDeletes(s: string, i: nat, pat: Pattern)
    requires i <= |s| && Anchored(pat)
    ensures Subsequence(SubFrom(s, i, pat, ""), s[i..])
    decreases |s| - i
  {
    if i < |s| {
      match Match(s, i, pat)
      case At(e) =>
        var rest := SubFrom(s, e, pat, "");
        RemoveDeletes(s, e, pat);
        SubsequenceOfLater(rest, s, i, e);
        assert "" + rest == rest;
      case Stuck =>
        RemoveDeletes(s, i + 1, pat);
        SubsequenceKeepAt(SubFrom(s, i + 1, pat, ""), s, i);
    }
  }

  /** The literal characters of `pat` (its `Lit` texts and `Opt` characters) all satisfy `ok`. */
  predicate LiteralsIn(pat: Pattern, ok: char -> bool) {
    forall k | 0 <= k < |pat| ::
      && (pat[k].Lit? ==> forall i | 0 <= i < |pat[k].text| :: ok(pat[k].text[i]))
      && (pat[k].Opt? ==> ok(pat[k].c))
  }

  /** A string of the language of `pat` consists of its literal characters, whitespace and letters. */
  lemma {:induction false} AcceptsChars(s: string, i: nat, e: nat, pat: Pattern, ok: char -> bool)
    requires Accepts(s, i, e, pat) && LiteralsIn(pat, ok)
    ensures forall j | i <= j < e :: ok(s[j]) || IsWs(s[j]) || IsAlpha(s[j])
    decreases |pat|
  {
    if |pat| > 0 {
      assert LiteralsIn(pat[1..], ok) by {
        forall k | 0 <= k < |pat[1..]| ensures pat[1..][k] == pat[k + 1] { }
      }
      match pat[0]
      case Lit(t) =>
        AcceptsChars(s, i + |t|, e, pat[1..], ok);
        forall j | i <= j < i + |t| ensures ok(s[j]) {
          assert s[j] == s[i..i + |t|][j - i] == t[j - i];
        }
      case Opt(c) =>
        if Accepts(s, i, e, pat[1..]) {
          AcceptsChars(s, i, e, pat[1..], ok);
        } else {
          AcceptsChars(s, i + 1, e, pat[1..], ok);
        }
      case Spaces(_) =>
        var k: nat :| MinCount(pat[0]) <= k <= e - i && ClassRun(s, i, k, pat[0]) && Accepts(s, i + k, e, pat[1..]);
        AcceptsChars(s, i + k, e, pat[1..], ok);
      case Letters =>
        var k: nat :| MinCount(pat[0]) <= k <= e - i && ClassRun(s, i, k, pat[0]) && Accepts(s, i + k, e, pat[1..]);
        AcceptsChars(s, i + k, e, pat[1..], ok);
    }
  }

  /**
   * Removing the matches of a pattern whose language `keep` rejects
   * leaves every character `keep` takes, in order.
   */
  lemma SelectRemove(s: string, pat: Pattern, ok: char -> bool, keep: char -> bool)
    requires Anchored(pat) && LiteralsIn(pat, ok)
    requires forall c: char :: (ok(c) || IsWs(c) || IsAlpha(c)) ==> !keep(c)
    ensures Select(Remove(s, pat), keep) == Select(s, keep)
  {
    SelectRemoveFrom(s, 0, pat, ok, keep);
    assert s[0..] == s;
  }

  lemma {:induction false} SelectRemoveFrom(s: string, i: nat, pat: Pattern, ok: char -> bool, keep: char -> bool)
    requires i <= |s| && Anchored(pat) && LiteralsIn(pat, ok)
    requires forall c: char :: (ok(c) || IsWs(c) || IsAlpha(c)) ==> !keep(c)
    ensures Select(SubFrom(s, i, pat, ""), keep) == Select(s[i..], keep)
    decreases |s| - i
  {
    if i < |s| {
      match Match(s, i, pat)
      case At(e) =>
        var rest := SubFrom(s, e, pat, "");
        SelectRemoveFrom(s, e, pat, ok, keep);
        MatchSound(s, i, pat);
        AcceptsChars(s, i, e, pat, ok);
        SelectCutSpan(s, i, e, ok, keep);
        assert "" + rest == rest;
      case Stuck =>
        var rest := SubFrom(s, i + 1, pat, "");
        SelectRemoveFrom(s, i + 1, pat, ok, keep);
        SelectStep(s, i, keep);
        SelectConcat([s[i]], rest, keep);
    }
  }

  /** A span of characters `keep` rejects contributes nothing to the selection. */
  lemma SelectCutSpan(s: string, i: nat, e: nat, ok: char -> bool, keep: char -> bool)
    requires i <= e <= |s|
    requires forall j | i <= j < e :: ok(s[j]) || IsWs(s[j]) || IsAlpha(s[j])
    requires forall c: char :: (ok(c) || IsWs(c) || IsAlpha(c)) ==> !keep(c)
    ensures Select(s[i..], keep) == Select(s[e..], keep)
  {
    assert s[i..] == s[i..e] + s[e..];
    SelectConcat(s[i..e], s[e..], keep);
    assert forall j | 0 <= j < e - i :: s[i..e][j] == s[i + j];
    SelectNone(s[i..e], keep);
  }

  lemma SelectStep(s: string, i: nat, keep: char -> bool)
    requires i < |s|
    ensures Select(s[i..], keep) == Select([s[i]], keep) + Select(s[i + 1..], keep)
  {
    assert s[i..] == [s[i]] + s[i + 1..];
    SelectConcat([s[i]], s[i + 1..], keep);
  }

  lemma {:induction false} RemoveShrinks(s: string, i: nat, pat: Pattern)
    requires i <= |s| && Anchored(pat)
    ensures |SubFrom(s, i, pat, "")| <= |s| - i
    decreases |s| - i
  {
    if i < |s| {
      match Match(s, i, pat)
      case At(e) => RemoveShrinks(s, e, pat);
      case Stuck => RemoveShrinks(s, i + 1, pat);
    }
  }

  /** Where no string of the pattern's language starts, substitution changes nothing. */
  lemma {:induction false} SubstituteNothing(s: string, i: nat, pat: Pattern, rep: string)
    requires i <= |s| && Anchored(pat)
    requires forall j, e | i <= j <= e <= |s| :: !Accepts(s, j, e, pat)
    ensures SubFrom(s, i, pat, rep) == s[i..]
    decreases |s| - i
  {
    if i < |s| {
      MatchIff(s, i, pat);
      SubstituteNothing(s, i + 1, pat, rep);
    }
  }

  /** A text without the pattern's leading literal is left as it is. */
  lemma SubstituteAbsent(s: string, pat: Pattern, rep: string)
    requires Anchored(pat) && !Contains(s, pat[0].text)
    ensures Substitute(s, pat, rep) == s
  {
    forall j, e | 0 <= j <= e <= |s|
      ensures !Accepts(s, j, e, pat)
    {
      assert !OccursAt(s, pat[0].text, j);
    }
    SubstituteNothing(s, 0, pat, rep);
  }
}
