/**
 * Word runs: a text cut into maximal runs of word characters (`\w`) and of
 * other characters. A regex `\bLIT\b` whose literal consists of word
 * characters matches exactly the word runs equal to `LIT`, so the
 * standalone-word searches and substitutions of both text stages are stated
 * over runs.
 */
module Runs {
  import opened Strings

  /** Length of the leading run of characters of the same class as `s[0]`. */
  function RunLen(s: string): (n: nat)
    requires |s| > 0
    ensures 1 <= n <= |s|
    ensures forall i | 0 <= i < n :: IsWordChar(s[i]) == IsWordChar(s[0])
    ensures n < |s| ==> IsWordChar(s[n]) != IsWordChar(s[0])
    decreases |s|
  {
    if |s| > 1 && IsWordChar(s[1]) == IsWordChar(s[0]) then 1 + RunLen(s[1..]) else 1
  }

  /** The maximal runs of `s`, in order. */
  function Split(s: string): seq<string>
    decreases |s|
  {
    if |s| == 0 then [] else var n := RunLen(s); [s[..n]] + Split(s[n..])
  }

  function Join(runs: seq<string>): string {
    if |runs| == 0 then "" else runs[0] + Join(runs[1..])
  }

  /** A non-empty string whose characters are all of one class. */
  predicate Uniform(w: string) {
    |w| > 0 && forall i | 0 <= i < |w| :: IsWordChar(w[i]) == IsWordChar(w[0])
  }

  predicate IsWordRun(w: string) {
    Uniform(w) && IsWordChar(w[0])
  }

  /** Runs as `Split` produces them: uniform, and neighbours of different class. */
  predicate WellFormed(runs: seq<string>) {
    && (forall k | 0 <= k < |runs| :: Uniform(runs[k]))
    && (forall k | 0 <= k < |runs| - 1 :: IsWordChar(runs[k][0]) != IsWordChar(runs[k + 1][0]))
  }

  /** Cutting into runs loses nothing, and the runs are maximal. */
  lemma SplitJoin(s: string)
    ensures Join(Split(s)) == s
    ensures WellFormed(Split(s))
  {
    JoinSplitRuns(s);
    SplitWellFormed(s);
  }

  lemma {:induction false} JoinSplitRuns(s: string)
    ensures Join(Split(s)) == s
    decreases |s|
  {
    if |s| > 0 {
      var n := RunLen(s);
      var head, tail := s[..n], s[n..];
      JoinSplitRuns(tail);
      var rest := Split(tail);
      assert Split(s) == [head] + rest;
      assert head + tail == s;
      JoinStep(Split(s), head, rest, tail, s);
    }
  }

  /** Joining a first run and the rest, given what the rest joins to. */
  lemma JoinStep(runs: seq<string>, head: string, rest: seq<string>, tail: string, s: string)
    requires runs == [head] + rest && Join(rest) == tail && head + tail == s
    ensures Join(runs) == s
  {
    JoinCons(head, rest);
  }

  lemma {:induction false} SplitWellFormed(s: string)
    ensures WellFormed(Split(s))
    decreases |s|
  {
    if |s| > 0 {
      var n := RunLen(s);
      var head, tail := s[..n], s[n..];
      SplitWellFormed(tail);
      var rest := Split(tail);
      assert Split(s) == [head] + rest;
      LeadingRunUniform(s);
      if |rest| > 0 {
        SplitFirst(tail);
      }
      WellFormedCons(head, rest);
    }
  }

  /** The leading run is uniform. */
  lemma LeadingRunUniform(s: string)
    requires |s| > 0
    ensures Uniform(s[..RunLen(s)])
  {
    var n := RunLen(s);
    forall i | 0 <= i < n ensures IsWordChar(s[..n][i]) == IsWordChar(s[..n][0]) {
      assert s[..n][i] == s[i];
    }
  }

  /** The first run starts with the first character. */
  lemma SplitFirst(s: string)
    requires |s| > 0
    ensures |Split(s)| > 0 && Split(s)[0][0] == s[0]
  {
  }

  lemma JoinCons(w: string, rest: seq<string>)
    ensures Join([w] + rest) == w + Join(rest)
  {
    assert ([w] + rest)[1..] == rest;
  }

  /** A uniform run of the other class than the first run extends well-formed runs. */
  lemma WellFormedCons(w: string, rest: seq<string>)
    requires Uniform(w) && WellFormed(rest)
    requires |rest| > 0 ==> IsWordChar(rest[0][0]) != IsWordChar(w[0])
    ensures WellFormed([w] + rest)
  {
    var runs := [w] + rest;
    forall k | 0 <= k < |runs| ensures Uniform(runs[k]) {
      if k > 0 {
        assert runs[k] == rest[k - 1];
      }
    }
    forall k | 0 <= k < |runs| - 1 ensures IsWordChar(runs[k][0]) != IsWordChar(runs[k + 1][0]) {
      if k > 0 {
        assert runs[k] == rest[k - 1] && runs[k + 1] == rest[k];
      }
    }
  }

  /** The leading run of `a + b` is `a` when `a` is uniform and `b` starts in the other class. */
  lemma {:induction false} RunLenConcat(a: string, b: string)
    requires Uniform(a)
    requires |b| > 0 ==> IsWordChar(b[0]) != IsWordChar(a[0])
    ensures RunLen(a + b) == |a|
    decreases |a|
  {
    if |a| > 1 {
      assert Uniform(a[1..]);
      RunLenConcat(a[1..], b);
      assert (a + b)[1..] == a[1..] + b;
    }
  }

  lemma {:induction false} JoinSplit(runs: seq<string>)
    requires WellFormed(runs)
    ensures Split(Join(runs)) == runs
    decreases |runs|
  {
    if |runs| > 0 {
      var a := runs[0];
      var b := Join(runs[1..]);
      assert WellFormed(runs[1..]);
      if |runs| > 1 {
        assert b == runs[1] + Join(runs[2..]);
        assert b[0] == runs[1][0];
      }
      RunLenConcat(a, b);
      assert (a + b)[..|a|] == a;
      assert (a + b)[|a|..] == b;
      JoinSplit(runs[1..]);
    }
  }

  // ---------------------------------------------------------------------------
  // Standalone-word substitution: `re.sub(r'\b' + w + r'\b', d, s)`

  /** Every run equal to `w` becomes `d`; the others are kept. */
  function MapRuns(runs: seq<string>, w: string, d: string): (r: seq<string>)
    ensures |r| == |runs|
    ensures forall k | 0 <= k < |runs| :: r[k] == if runs[k] == w then d else runs[k]
  {
    seq(|runs|, k requires 0 <= k < |runs| => if runs[k] == w then d else runs[k])
  }

  /** `re.sub(r'\b' + w + r'\b', d, s)` for a word `w`: replace the word runs equal to `w`. */
  function SubWord(s: string, w: string, d: string): string {
    Join(MapRuns(Split(s), w, d))
  }

  /** Substituting a word run by a word run leaves the run structure in place. */
  lemma SubWordRuns(s: string, w: string, d: string)
    requires IsWordRun(w) && IsWordRun(d)
    ensures Split(SubWord(s, w, d)) == MapRuns(Split(s), w, d)
  {
    SplitWellFormed(s);
    var m := MapRuns(Split(s), w, d);
    MapRunsWellFormed(Split(s), w, d);
    JoinSplit(m);
  }

  /** Swapping one word run for another leaves every non-word character, in order. */
  lemma SelectSubWord(s: string, w: string, d: string, keep: char -> bool)
    requires IsWordRun(w) && IsWordRun(d)
    requires forall c: char :: IsWordChar(c) ==> !keep(c)
    ensures Select(SubWord(s, w, d), keep) == Select(s, keep)
  {
    JoinSplitRuns(s);
    SelectMapRuns(Split(s), w, d, keep);
  }

  lemma {:induction false} SelectMapRuns(runs: seq<string>, w: string, d: string, keep: char -> bool)
    requires IsWordRun(w) && IsWordRun(d)
    requires forall c: char :: IsWordChar(c) ==> !keep(c)
    ensures Select(Join(MapRuns(runs, w, d)), keep) == Select(Join(runs), keep)
    decreases |runs|
  {
    if |runs| > 0 {
      var m := MapRuns(runs, w, d);
      assert m[1..] == MapRuns(runs[1..], w, d);
      SelectMapRuns(runs[1..], w, d, keep);
      SelectConcat(m[0], Join(m[1..]), keep);
      SelectConcat(runs[0], Join(runs[1..]), keep);
      if runs[0] == w {
        SelectNone(w, keep);
        SelectNone(d, keep);
      }
    }
  }

  /** Replacing word runs by word runs keeps the runs well formed. */
  lemma MapRunsWellFormed(runs: seq<string>, w: string, d: string)
    requires WellFormed(runs) && IsWordRun(w) && IsWordRun(d)
    ensures WellFormed(MapRuns(runs, w, d))
  {
    var m := MapRuns(runs, w, d);
    forall k | 0 <= k < |m| - 1
      ensures IsWordChar(m[k][0]) != IsWordChar(m[k + 1][0])
    {
      assert IsWordChar(m[k][0]) == IsWordChar(runs[k][0]);
      assert IsWordChar(m[k + 1][0]) == IsWordChar(runs[k + 1][0]);
    }
  }

  // ---------------------------------------------------------------------------
  // Searches expressed over runs

  predicate AllDigits(w: string) {
    |w| > 0 && forall i | 0 <= i < |w| :: IsDigit(w[i])
  }

  predicate AllAlpha(w: string) {
    |w| > 0 && forall i | 0 <= i < |w| :: IsAlpha(w[i])
  }

  /** The regex `\b[a-zA-Z]\b` matches at `i`: a letter with no word character on either side. */
  predicate LetterStandsAlone(s: string, i: nat) {
    && i < |s|
    && IsAlpha(s[i])
    && (i == 0 || !IsWordChar(s[i - 1]))
    && (i + 1 == |s| || !IsWordChar(s[i + 1]))
  }

  /** A standalone letter is a run of its own. */
  lemma {:induction false} LetterIsRun(s: string, i: nat)
    requires LetterStandsAlone(s, i)
    ensures [s[i]] in Split(s)
    decreases |s|
  {
    var n := RunLen(s);
    assert Split(s) == [s[..n]] + Split(s[n..]);
    if i == 0 {
      assert s[..n] == [s[0]];
    } else {
      assert i >= n;
      assert s[n..][i - n] == s[i];
      if i - n > 0 {
        assert s[n..][i - n - 1] == s[i - 1];
      }
      LetterIsRun(s[n..], i - n);
    }
  }

  /** A single-letter run is a standalone letter of the text. */
  lemma {:induction false} RunIsLetter(s: string, v: string) returns (i: nat)
    requires v in Split(s) && |v| == 1 && IsAlpha(v[0])
    ensures LetterStandsAlone(s, i) && s[i] == v[0]
    decreases |s|
  {
    var n := RunLen(s);
    assert Split(s) == [s[..n]] + Split(s[n..]);
    if v == s[..n] {
      i := 0;
    } else {
      var j := RunIsLetter(s[n..], v);
      i := n + j;
      assert s[i] == s[n..][j];
      if j == 0 {
        assert IsWordChar(s[n - 1]) == IsWordChar(s[0]) != IsWordChar(s[n]);
      } else {
        assert s[i - 1] == s[n..][j - 1];
      }
      if i + 1 < |s| {
        assert s[i + 1] == s[n..][j + 1];
      }
    }
  }

  /**
   * `re.findall(r'\b([a-zA-Z])\b', s)` as a set (the Python code applies
   * `list(set(...))`): exactly the letters standing alone in the text.
   */
  function StandaloneLetters(s: string): (r: set<string>)
    ensures forall v | v in r :: |v| == 1 && exists i: nat :: LetterStandsAlone(s, i) && s[i] == v[0]
    ensures forall i: nat | LetterStandsAlone(s, i) :: [s[i]] in r
  {
    var r := set v | v in Split(s) && |v| == 1 && IsAlpha(v[0]);
    assert forall v | v in r :: |v| == 1 && exists i: nat :: LetterStandsAlone(s, i) && s[i] == v[0] by {
      forall v | v in r
        ensures exists i: nat :: LetterStandsAlone(s, i) && s[i] == v[0]
      {
        var i := RunIsLetter(s, v);
      }
    }
    assert forall i: nat | LetterStandsAlone(s, i) :: [s[i]] in r by {
      forall i: nat | LetterStandsAlone(s, i)
        ensures [s[i]] in r
      {
        LetterIsRun(s, i);
      }
    }
    r
  }

  /** `re.search(r'\b\d+\b', s)`: some word run consists of digits only. */
  predicate HasStandaloneInteger(s: string) {
    exists k | 0 <= k < |Split(s)| :: AllDigits(Split(s)[k])
  }
}
