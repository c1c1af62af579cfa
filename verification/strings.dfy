/**
 * Character classes and the string operations the Python code uses through
 * `str` methods and simple regular expressions: `lower`, `replace`, `split`,
 * `strip`, and the whitespace collapse `re.sub(r'\s+', ' ', t).strip()`.
 */
module Strings {

  /** The whitespace characters matched by `\s` (the ASCII ones). */
  predicate IsWs(c: char) {
    c == ' ' || c == '\t' || c == '\n' || c == '\r' || c == '\U{000B}' || c == '\U{000C}'
  }

  predicate IsUpper(c: char) { 'A' <= c <= 'Z' }

  /** The regex class `[a-zA-Z]`. */
  predicate IsAlpha(c: char) { 'A' <= c <= 'Z' || 'a' <= c <= 'z' }

  /** The regex class `\d` (ASCII digits). */
  predicate IsDigit(c: char) { '0' <= c <= '9' }

  /**
   * The regex class `\w`: letters, digits and underscore; Python also counts
   * the superscripts `²` and `³` as word characters (`str.isalnum`).
   */
  predicate IsWordChar(c: char) { IsAlpha(c) || IsDigit(c) || c == '_' || c == '²' || c == '³' }

  // ---------------------------------------------------------------------------
  // Case folding

  function LowerChar(c: char): (r: char)
    ensures !IsUpper(r)
    ensures !IsUpper(c) ==> r == c
    ensures IsWs(r) <==> IsWs(c)
  {
    if IsUpper(c) then (c as int + 32) as char else c
  }

  /** `str.lower` on the ASCII letters. */
  function Lower(s: string): (r: string)
    ensures |r| == |s|
    ensures forall i | 0 <= i < |s| :: r[i] == LowerChar(s[i])
  {
    seq(|s|, i requires 0 <= i < |s| => LowerChar(s[i]))
  }

  predicate NoUpper(s: string) {
    forall i | 0 <= i < |s| :: !IsUpper(s[i])
  }

  lemma LowerIdempotent(s: string)
    ensures NoUpper(Lower(s))
    ensures NoUpper(s) ==> Lower(s) == s
  {
  }

  // ---------------------------------------------------------------------------
  // Occurrences

  predicate StartsWith(s: string, p: string) {
    |p| <= |s| && s[..|p|] == p
  }

  predicate OccursAt(s: string, p: string, i: nat) {
    i + |p| <= |s| && s[i..i + |p|] == p
  }

  /** Python's `p in s`. */
  predicate Contains(s: string, p: string) {
    exists i: nat | i <= |s| :: OccursAt(s, p, i)
  }

  /** No character of `a` occurs in `b`. */
  predicate NoSharedChar(a: string, b: string) {
    forall i, j | 0 <= i < |a| && 0 <= j < |b| :: a[i] != b[j]
  }

  // ---------------------------------------------------------------------------
  // `str.replace(pat, rep)`: leftmost, non-overlapping, all occurrences

  function ReplaceAll(s: string, pat: string, rep: string): (r: string)
    requires |pat| > 0
    decreases |s|
  {
    if |s| == 0 then ""
    else if StartsWith(s, pat) then rep + ReplaceAll(s[|pat|..], pat, rep)
    else [s[0]] + ReplaceAll(s[1..], pat, rep)
  }

  /** Replacing a string by itself changes nothing. */
  lemma {:induction false} ReplaceSelf(s: string, pat: string)
    requires |pat| > 0
    ensures ReplaceAll(s, pat, pat) == s
    decreases |s|
  {
    if |s| > 0 {
      if StartsWith(s, pat) {
        ReplaceSelf(s[|pat|..], pat);
        assert s == pat + s[|pat|..];
      } else {
        ReplaceSelf(s[1..], pat);
        assert s == [s[0]] + s[1..];
      }
    }
  }

  /**
   * Replacement never manufactures a prefix that avoids the first character
   * of `rep`: such a prefix of the result was already a prefix of the input.
   */
  lemma {:induction false} PrefixNotManufactured(s: string, pat: string, rep: string, u: string)
    requires |pat| > 0 && |rep| > 0
    requires forall k | 0 <= k < |u| :: u[k] != rep[0]
    requires !StartsWith(s, u)
    ensures !StartsWith(ReplaceAll(s, pat, rep), u)
    decreases |s|
  {
    var r := ReplaceAll(s, pat, rep);
    if |s| == 0 {
    } else if StartsWith(s, pat) {
      assert r[0] == rep[0] != u[0];
    } else if u[0] != s[0] {
      assert r[0] == s[0];
    } else {
      var t := ReplaceAll(s[1..], pat, rep);
      assert r == [s[0]] + t;
      assert !StartsWith(s[1..], u[1..]) by {
        if |u| - 1 <= |s| - 1 {
          assert s[..|u|] == [s[0]] + s[1..][..|u| - 1];
          assert u == [u[0]] + u[1..];
        }
      }
      PrefixNotManufactured(s[1..], pat, rep, u[1..]);
      if |u| <= |r| {
        assert r[..|u|] == [s[0]] + t[..|u| - 1];
        assert u == [u[0]] + u[1..];
      }
    }
  }

  /** Occurrences in `head + t` lie in `t` once the first `|head|` start positions are excluded. */
  lemma NoOccurrenceInTail(head: string, t: string, q: string)
    requires !Contains(t, q)
    requires forall i: nat | i < |head| :: !OccursAt(head + t, q, i)
    ensures !Contains(head + t, q)
  {
    forall i: nat | |head| <= i && i + |q| <= |head + t|
      ensures !OccursAt(head + t, q, i)
    {
      assert (head + t)[i..i + |q|] == t[i - |head|..i - |head| + |q|];
      assert !OccursAt(t, q, i - |head|);
    }
  }

  /** A suffix of a string without `q` has no `q` either. */
  lemma NoOccurrenceInSuffix(s: string, k: nat, q: string)
    requires k <= |s|
    requires !Contains(s, q)
    ensures !Contains(s[k..], q)
  {
    forall i: nat | i + |q| <= |s| - k
      ensures !OccursAt(s[k..], q, i)
    {
      assert s[k..][i..i + |q|] == s[k + i..k + i + |q|];
      assert !OccursAt(s, q, k + i);
    }
  }

  /** After `replace(pat, rep)` the pattern is gone, when `rep` shares no character with it. */
  lemma {:induction false} ReplaceRemoves(s: string, pat: string, rep: string)
    requires |pat| > 0 && |rep| > 0
    requires NoSharedChar(pat, rep)
    ensures !Contains(ReplaceAll(s, pat, rep), pat)
    decreases |s|
  {
    if |s| == 0 {
    } else if StartsWith(s, pat) {
      var t := ReplaceAll(s[|pat|..], pat, rep);
      ReplaceRemoves(s[|pat|..], pat, rep);
      forall i: nat | i < |rep|
        ensures !OccursAt(rep + t, pat, i)
      {
        if i + |pat| <= |rep + t| {
          assert (rep + t)[i..i + |pat|][0] == rep[i] != pat[0];
        }
      }
      NoOccurrenceInTail(rep, t, pat);
    } else {
      var t := ReplaceAll(s[1..], pat, rep);
      ReplaceRemoves(s[1..], pat, rep);
      PrefixNotManufactured(s, pat, rep, pat);
      NoOccurrenceInTail([s[0]], t, pat);
    }
  }

  /** A string `q` absent before `replace(pat, rep)` stays absent, when `rep` shares no character with `q`. */
  lemma {:induction false} ReplaceKeepsAbsent(s: string, pat: string, rep: string, q: string)
    requires |pat| > 0 && |rep| > 0 && |q| > 0
    requires NoSharedChar(q, rep)
    requires !Contains(s, q)
    ensures !Contains(ReplaceAll(s, pat, rep), q)
    decreases |s|
  {
    if |s| > 0 {
      assert !StartsWith(s, q) by {
        assert !OccursAt(s, q, 0);
      }
      if StartsWith(s, pat) {
        var t := ReplaceAll(s[|pat|..], pat, rep);
        NoOccurrenceInSuffix(s, |pat|, q);
        ReplaceKeepsAbsent(s[|pat|..], pat, rep, q);
        forall i: nat | i < |rep|
          ensures !OccursAt(rep + t, q, i)
        {
          if i + |q| <= |rep + t| {
            assert (rep + t)[i..i + |q|][0] == rep[i] != q[0];
          }
        }
        NoOccurrenceInTail(rep, t, q);
      } else {
        var t := ReplaceAll(s[1..], pat, rep);
        NoOccurrenceInSuffix(s, 1, q);
        ReplaceKeepsAbsent(s[1..], pat, rep, q);
        PrefixNotManufactured(s, pat, rep, q);
        NoOccurrenceInTail([s[0]], t, q);
      }
    }
  }

  /** `replace` of an absent pattern changes nothing. */
  lemma {:induction false} ReplaceAbsentIsIdentity(s: string, pat: string, rep: string)
    requires |pat| > 0
    requires !Contains(s, pat)
    ensures ReplaceAll(s, pat, rep) == s
    decreases |s|
  {
    if |s| > 0 {
      assert !StartsWith(s, pat) by {
        if StartsWith(s, pat) { assert OccursAt(s, pat, 0); }
      }
      assert !Contains(s[1..], pat) by {
        forall i: nat | OccursAt(s[1..], pat, i) ensures false {
          assert s[1..][i..i + |pat|] == s[1 + i..1 + i + |pat|];
          assert OccursAt(s, pat, 1 + i);
        }
      }
      ReplaceAbsentIsIdentity(s[1..], pat, rep);
    }
  }

  /** What `replace(pat, rep)` keeps: its ends come from the input or from `rep`, and so do its characters. */
  lemma {:induction false} ReplaceShape(s: string, pat: string, rep: string)
    requires |pat| > 0 && |rep| > 0
    requires forall k | 0 <= k < |rep| :: CanonChar(rep[k]) && rep[k] != ' '
    ensures var r := ReplaceAll(s, pat, rep);
      && (|r| > 0 <==> |s| > 0)
      && (|r| > 0 ==> r[0] == s[0] || r[0] == rep[0])
      && (|r| > 0 ==> r[|r| - 1] == s[|s| - 1] || r[|r| - 1] == rep[|rep| - 1])
      && ((forall k | 0 <= k < |s| :: CanonChar(s[k])) ==> forall k | 0 <= k < |r| :: CanonChar(r[k]))
      && (NoDoubleSpace(s) ==> NoDoubleSpace(r))
    decreases |s|
  {
    if |s| > 0 {
      var n := if StartsWith(s, pat) then |pat| else 1;
      var head := if StartsWith(s, pat) then rep else [s[0]];
      var t := ReplaceAll(s[n..], pat, rep);
      assert ReplaceAll(s, pat, rep) == head + t;
      ReplaceShape(s[n..], pat, rep);
      if NoDoubleSpace(s) {
        assert NoDoubleSpace(s[n..]);
        forall i | 0 <= i < |head + t| - 1
          ensures !((head + t)[i] == ' ' && (head + t)[i + 1] == ' ')
        {
          if i + 1 < |head| {
          } else if i + 1 == |head| {
            if !StartsWith(s, pat) && |t| > 0 {
              assert t[0] == s[1] || t[0] == rep[0];
            }
          } else {
            assert (head + t)[i] == t[i - |head|];
          }
        }
      }
    }
  }

  // ---------------------------------------------------------------------------
  // Deleting characters

  /** `r` is `s` with some characters deleted; the others stay in order. */
  predicate Subsequence(r: string, s: string)
    decreases |s|
  {
    |r| <= |s| && (|r| == 0 || (r[0] == s[0] && Subsequence(r[1..], s[1..])) || Subsequence(r, s[1..]))
  }

  lemma {:induction false} SubsequenceRefl(s: string)
    ensures Subsequence(s, s)
    decreases |s|
  {
    if |s| > 0 {
      SubsequenceRefl(s[1..]);
    }
  }

  /** Whatever is left after deleting from a suffix was deleted from the whole text. */
  lemma {:induction false} SubsequenceOfSuffix(r: string, s: string, k: nat)
    requires k <= |s| && Subsequence(r, s[k..])
    ensures Subsequence(r, s)
    decreases k
  {
    if k == 0 {
      assert s[k..] == s;
    } else {
      assert s[1..][k - 1..] == s[k..];
      SubsequenceOfSuffix(r, s[1..], k - 1);
    }
  }

  lemma SubsequenceCons(c: char, r: string, s: string)
    requires Subsequence(r, s)
    ensures Subsequence([c] + r, [c] + s)
  {
    assert ([c] + r)[1..] == r && ([c] + s)[1..] == s;
  }

  /** What is left of `s[e..]` is left of any longer suffix `s[i..]`. */
  lemma SubsequenceOfLater(r: string, s: string, i: nat, e: nat)
    requires i <= e <= |s| && Subsequence(r, s[e..])
    ensures Subsequence(r, s[i..])
  {
    assert s[i..][e - i..] == s[e..];
    SubsequenceOfSuffix(r, s[i..], e - i);
  }

  /** Keeping `s[i]` in front of what is left of `s[i + 1..]`. */
  lemma SubsequenceKeepAt(r: string, s: string, i: nat)
    requires i < |s| && Subsequence(r, s[i + 1..])
    ensures Subsequence([s[i]] + r, s[i..])
  {
    SubsequenceCons(s[i], r, s[i + 1..]);
    assert [s[i]] + s[i + 1..] == s[i..];
  }

  /** Deleting twice is deleting once. */
  lemma {:induction false} SubsequenceTrans(a: string, b: string, c: string)
    requires Subsequence(a, b) && Subsequence(b, c)
    ensures Subsequence(a, c)
    decreases |c|
  {
    if |a| > 0 {
      if b[0] == c[0] && Subsequence(b[1..], c[1..]) {
        if a[0] == b[0] && Subsequence(a[1..], b[1..]) {
          SubsequenceTrans(a[1..], b[1..], c[1..]);
        } else {
          SubsequenceTrans(a, b[1..], c[1..]);
        }
      } else {
        SubsequenceTrans(a, b, c[1..]);
      }
    }
  }

  /** How many characters of `s` `keep` accepts. */
  function Tally(s: string, keep: char -> bool): nat
    decreases |s|
  {
    if |s| == 0 then 0 else (if keep(s[0]) then 1 else 0) + Tally(s[1..], keep)
  }

  /**
   * The characters of `s` that `keep` accepts, in order: a subsequence of
   * `s`, made of accepted characters only, and as long as there are such
   * characters in `s`.
   */
  function Select(s: string, keep: char -> bool): (r: string)
    ensures Subsequence(r, s)
    ensures forall i | 0 <= i < |r| :: keep(r[i])
    ensures |r| == Tally(s, keep)
    decreases |s|
  {
    if |s| == 0 then ""
    else
      var rest := Select(s[1..], keep);
      if keep(s[0]) then
        SubsequenceCons(s[0], rest, s[1..]);
        assert [s[0]] + s[1..] == s;
        [s[0]] + rest
      else
        SubsequenceOfSuffix(rest, s, 1);
        rest
  }

  /** The three properties of `Select` leave no other choice. */
  lemma {:induction false} SelectUnique(s: string, keep: char -> bool, r: string)
    requires Subsequence(r, s) && |r| == Tally(s, keep)
    requires forall i | 0 <= i < |r| :: keep(r[i])
    ensures r == Select(s, keep)
    decreases |s|
  {
    if |s| > 0 && |r| > 0 {
      TallyBound(r, s[1..], keep);
      if keep(s[0]) {
        SelectUnique(s[1..], keep, r[1..]);
        assert r == [r[0]] + r[1..];
      } else {
        assert keep(r[0]);
        SelectUnique(s[1..], keep, r);
      }
    }
  }

  /** A subsequence made of accepted characters is no longer than the selection. */
  lemma {:induction false} TallyBound(r: string, s: string, keep: char -> bool)
    requires forall i | 0 <= i < |r| :: keep(r[i])
    ensures Subsequence(r, s) ==> |r| <= Tally(s, keep)
    decreases |s|
  {
    if |r| > 0 && Subsequence(r, s) {
      if r[0] == s[0] && Subsequence(r[1..], s[1..]) {
        TallyBound(r[1..], s[1..], keep);
      } else {
        TallyBound(r, s[1..], keep);
      }
    }
  }

  /** A text whose characters are all kept is its own selection. */
  lemma {:induction false} SelectAll(s: string, keep: char -> bool)
    requires forall i | 0 <= i < |s| :: keep(s[i])
    ensures Select(s, keep) == s
    decreases |s|
  {
    if |s| > 0 {
      assert forall i | 0 <= i < |s| - 1 :: s[1..][i] == s[i + 1];
      SelectAll(s[1..], keep);
      assert s == [s[0]] + s[1..];
    }
  }

  /** One kept character makes the selection non-empty. */
  lemma {:induction false} TallyPositive(s: string, keep: char -> bool, i: nat)
    requires i < |s| && keep(s[i])
    ensures Tally(s, keep) > 0
    decreases i
  {
    if i > 0 {
      assert s[1..][i - 1] == s[i];
      TallyPositive(s[1..], keep, i - 1);
    }
  }

  lemma {:induction false} SubsequencePrefix(s: string, j: nat)
    requires j <= |s|
    ensures Subsequence(s[..j], s)
    decreases j
  {
    if j == 0 {
      assert s[..j] == "";
    } else {
      SubsequencePrefix(s[1..], j - 1);
      SubsequenceCons(s[0], s[1..][..j - 1], s[1..]);
      assert s[..j] == [s[0]] + s[1..][..j - 1] && [s[0]] + s[1..] == s;
    }
  }

  /** `strip` only deletes. */
  lemma SubsequenceTrim(s: string)
    ensures Subsequence(Trim(s), s)
  {
    var i, j := TrimSlice(s);
    SubsequenceSlice(s, i, j);
  }

  lemma SubsequenceSlice(s: string, i: nat, j: nat)
    requires i <= j <= |s|
    ensures Subsequence(s[i..j], s)
  {
    SubsequencePrefix(s[i..], j - i);
    assert s[i..][..j - i] == s[i..j];
    SubsequenceOfLater(s[i..j], s, 0, i);
    assert s[0..] == s;
  }

  lemma {:induction false} SelectConcat(a: string, b: string, keep: char -> bool)
    ensures Select(a + b, keep) == Select(a, keep) + Select(b, keep)
    decreases |a|
  {
    if |a| == 0 {
      assert a + b == b;
    } else {
      assert (a + b)[0] == a[0] && (a + b)[1..] == a[1..] + b;
      SelectConcat(a[1..], b, keep);
    }
  }

  /** Nothing is selected from a text of dropped characters. */
  lemma {:induction false} SelectNone(s: string, keep: char -> bool)
    requires forall i | 0 <= i < |s| :: !keep(s[i])
    ensures Select(s, keep) == ""
    decreases |s|
  {
    if |s| > 0 {
      assert forall i | 0 <= i < |s| - 1 :: s[1..][i] == s[i + 1];
      SelectNone(s[1..], keep);
    }
  }

  /**
   * Two texts that agree on which positions are kept, and on the kept
   * characters themselves, select the same.
   */
  lemma {:induction false} SelectPointwise(a: string, b: string, keep: char -> bool)
    requires |a| == |b|
    requires forall i | 0 <= i < |a| :: keep(a[i]) == keep(b[i]) && (keep(a[i]) ==> a[i] == b[i])
    ensures Select(a, keep) == Select(b, keep)
    decreases |a|
  {
    if |a| > 0 {
      assert forall i | 0 <= i < |a| - 1 :: a[1..][i] == a[i + 1] && b[1..][i] == b[i + 1];
      SelectPointwise(a[1..], b[1..], keep);
    }
  }

  /** Replacing a pattern of dropped characters by dropped characters changes no selection. */
  lemma {:induction false} SelectReplace(s: string, pat: string, rep: string, keep: char -> bool)
    requires |pat| > 0
    requires forall i | 0 <= i < |pat| :: !keep(pat[i])
    requires forall i | 0 <= i < |rep| :: !keep(rep[i])
    ensures Select(ReplaceAll(s, pat, rep), keep) == Select(s, keep)
    decreases |s|
  {
    if |s| > 0 {
      if StartsWith(s, pat) {
        var rest := s[|pat|..];
        SelectReplace(rest, pat, rep, keep);
        assert s == pat + rest;
        SelectConcat(pat, rest, keep);
        SelectNone(pat, keep);
        SelectConcat(rep, ReplaceAll(rest, pat, rep), keep);
        SelectNone(rep, keep);
      } else {
        var tail := ReplaceAll(s[1..], pat, rep);
        SelectReplace(s[1..], pat, rep, keep);
        assert ([s[0]] + tail)[0] == s[0] && ([s[0]] + tail)[1..] == tail;
      }
    }
  }

  lemma {:induction false} SelectChain(s: string, table: seq<(string, string)>, keep: char -> bool)
    requires forall k | 0 <= k < |table| :: |table[k].0| > 0
    requires forall k, i | 0 <= k < |table| && 0 <= i < |table[k].0| :: !keep(table[k].0[i])
    requires forall k, i | 0 <= k < |table| && 0 <= i < |table[k].1| :: !keep(table[k].1[i])
    ensures Select(ReplaceChain(s, table), keep) == Select(s, keep)
    decreases |table|
  {
    if |table| > 0 {
      SelectReplace(s, table[0].0, table[0].1, keep);
      SelectChain(ReplaceAll(s, table[0].0, table[0].1), table[1..], keep);
    }
  }

  /** Lowering changes no selection that drops every letter. */
  lemma SelectLower(s: string, keep: char -> bool)
    requires forall c: char :: IsAlpha(c) ==> !keep(c)
    ensures Select(Lower(s), keep) == Select(s, keep)
  {
    SelectPointwise(Lower(s), s, keep);
  }

  /** The text without its whitespace. */
  function Solid(s: string): (r: string)
    ensures |r| <= |s|
    decreases |s|
  {
    if |s| == 0 then "" else if IsWs(s[0]) then Solid(s[1..]) else [s[0]] + Solid(s[1..])
  }

  lemma SolidHead(s: string)
    requires |s| > 0
    ensures Solid(s) == (if IsWs(s[0]) then "" else [s[0]]) + Solid(s[1..])
  {
  }

  lemma {:induction false} SolidConcat(a: string, b: string)
    ensures Solid(a + b) == Solid(a) + Solid(b)
    decreases |a|
  {
    if |a| > 0 {
      assert (a + b)[0] == a[0];
      assert (a + b)[1..] == a[1..] + b;
      SolidHead(a + b);
      SolidHead(a);
      SolidConcat(a[1..], b);
    } else {
      assert a + b == b;
    }
  }

  /** Whitespace in front does not count. */
  lemma {:induction false} SolidAfterBlanks(s: string, k: nat)
    requires k <= |s| && forall i | 0 <= i < k :: IsWs(s[i])
    ensures Solid(s[k..]) == Solid(s)
    decreases k
  {
    if k == 0 {
      assert s[k..] == s;
    } else {
      assert s[1..][k - 1..] == s[k..];
      SolidAfterBlanks(s[1..], k - 1);
    }
  }

  /** `strip` removes whitespace only. */
  lemma SolidTrim(s: string)
    ensures Solid(Trim(s)) == Solid(s)
  {
    var i, j := TrimSlice(s);
    SolidSlice(s, i, j);
  }

  /** Cutting whitespace off both ends keeps the solid text. */
  lemma SolidSlice(s: string, i: nat, j: nat)
    requires i <= j <= |s|
    requires forall k | 0 <= k < i :: IsWs(s[k])
    requires forall k | j <= k < |s| :: IsWs(s[k])
    ensures Solid(s[i..j]) == Solid(s)
  {
    assert s == s[..j] + s[j..];
    SolidConcat(s[..j], s[j..]);
    SolidAfterBlanks(s[j..], |s| - j);
    assert s[j..][|s| - j..] == "";
    SolidAfterBlanks(s[..j], i);
    assert s[..j][i..] == s[i..j];
  }

  /** The solid part of a selection selects the kept characters that are not whitespace. */
  lemma {:induction false} SolidOfSelect(s: string, keep: char -> bool, solidKeep: char -> bool)
    requires forall c: char :: solidKeep(c) == (keep(c) && !IsWs(c))
    ensures Solid(Select(s, keep)) == Select(s, solidKeep)
    decreases |s|
  {
    if |s| > 0 {
      var rest := Select(s[1..], keep);
      SolidOfSelect(s[1..], keep, solidKeep);
      if keep(s[0]) {
        SolidHead([s[0]] + rest);
        assert ([s[0]] + rest)[0] == s[0] && ([s[0]] + rest)[1..] == rest;
      }
    }
  }

  /** With whitespace never kept, a selection sees only the solid characters. */
  lemma {:induction false} SelectSolid(s: string, keep: char -> bool)
    requires forall c: char :: IsWs(c) ==> !keep(c)
    ensures Select(Solid(s), keep) == Select(s, keep)
    decreases |s|
  {
    if |s| > 0 {
      SolidHead(s);
      SelectSolid(s[1..], keep);
      if !IsWs(s[0]) {
        assert ([s[0]] + Solid(s[1..]))[0] == s[0] && ([s[0]] + Solid(s[1..]))[1..] == Solid(s[1..]);
      }
    }
  }

  // ---------------------------------------------------------------------------
  /** Selecting twice is selecting by the narrower class. */
  lemma {:induction false} SelectSelect(s: string, wide: char -> bool, narrow: char -> bool)
    requires forall c: char :: narrow(c) ==> wide(c)
    ensures Select(Select(s, wide), narrow) == Select(s, narrow)
    decreases |s|
  {
    if |s| > 0 {
      SelectSelect(s[1..], wide, narrow);
      SelectConcat([s[0]], s[1..], wide);
      SelectConcat([s[0]], s[1..], narrow);
      assert s == [s[0]] + s[1..];
      var w := Select(s[1..], wide);
      if wide(s[0]) {
        SelectConcat([s[0]], w, narrow);
      }
    }
  }

  /** Replacing the one-character pattern `[c]` by a text without `c` leaves no `c`. */
  lemma {:induction false} ReplaceCharGone(s: string, c: char, rep: string)
    requires c !in rep
    ensures c !in ReplaceAll(s, [c], rep)
    decreases |s|
  {
    if |s| > 0 {
      ReplaceCharGone(s[1..], c, rep);
      assert StartsWith(s, [c]) <==> s[0] == c by {
        assert s[..1] == [s[0]];
      }
    }
  }

  /** A replacement without `c` does not bring `c` into a text without it. */
  lemma {:induction false} ReplaceKeepsOut(s: string, pat: string, rep: string, c: char)
    requires |pat| > 0 && c !in s && c !in rep
    ensures c !in ReplaceAll(s, pat, rep)
    decreases |s|
  {
    if |s| > 0 {
      if StartsWith(s, pat) {
        assert c !in s[|pat|..] by {
          forall i | 0 <= i < |s[|pat|..]| ensures s[|pat|..][i] != c {
            assert s[|pat|..][i] == s[|pat| + i];
          }
        }
        ReplaceKeepsOut(s[|pat|..], pat, rep, c);
      } else {
        assert c !in s[1..] by {
          forall i | 0 <= i < |s[1..]| ensures s[1..][i] != c {
            assert s[1..][i] == s[1 + i];
          }
        }
        ReplaceKeepsOut(s[1..], pat, rep, c);
      }
    }
  }

  // Whitespace: `strip` and `re.sub(r'\s+', ' ', t).strip()`

  /** `str.lstrip()`. */
  function TrimLeft(s: string): (r: string)
    ensures |r| <= |s| && r == s[|s| - |r|..]
    ensures |r| > 0 ==> !IsWs(r[0])
    ensures |s| > 0 && IsWs(s[0]) ==> |r| < |s|
    ensures forall i | 0 <= i < |s| - |r| :: IsWs(s[i])
    decreases |s|
  {
    if |s| > 0 && IsWs(s[0]) then
      var r := TrimLeft(s[1..]);
      assert forall i | 1 <= i < |s| :: s[i] == s[1..][i - 1];
      r
    else s
  }

  /** `str.rstrip()`. */
  function TrimRight(s: string): (r: string)
    ensures |r| <= |s| && r == s[..|r|]
    ensures |r| > 0 ==> !IsWs(r[|r| - 1])
    ensures forall i | |r| <= i < |s| :: IsWs(s[i])
    decreases |s|
  {
    if |s| > 0 && IsWs(s[|s| - 1]) then TrimRight(s[..|s| - 1]) else s
  }

  /** `str.strip()`. */
  function Trim(s: string): string {
    TrimRight(TrimLeft(s))
  }

  /** `strip` cuts a slice out of its input, removing only whitespace. */
  lemma TrimSlice(s: string) returns (i: nat, j: nat)
    ensures i <= j <= |s| && Trim(s) == s[i..j]
    ensures forall k | 0 <= k < i :: IsWs(s[k])
    ensures forall k | j <= k < |s| :: IsWs(s[k])
    ensures i < j ==> !IsWs(s[i]) && !IsWs(s[j - 1])
  {
    var l := TrimLeft(s);
    var r := TrimRight(l);
    i := |s| - |l|;
    j := i + |r|;
    SliceWithin(s, l, r, i, j);
  }

  /** `r`, a prefix of the suffix `l` of `s`, is the slice `s[i..j]`, with whitespace only outside it. */
  lemma SliceWithin(s: string, l: string, r: string, i: nat, j: nat)
    requires i <= |s| && l == s[i..] && |r| <= |l| && r == l[..|r|] && j == i + |r|
    requires |l| > 0 ==> !IsWs(l[0])
    requires |r| > 0 ==> !IsWs(r[|r| - 1])
    requires forall k | |r| <= k < |l| :: IsWs(l[k])
    ensures j <= |s| && r == s[i..j]
    ensures forall k | j <= k < |s| :: IsWs(s[k])
    ensures i < j ==> !IsWs(s[i]) && !IsWs(s[j - 1])
  {
    forall k | j <= k < |s| ensures IsWs(s[k]) {
      assert s[k] == l[k - i];
    }
    if i < j {
      assert s[i] == l[0] && s[j - 1] == r[|r| - 1];
    }
  }

  predicate CanonChar(c: char) {
    !IsUpper(c) && (IsWs(c) ==> c == ' ')
  }

  predicate NoDoubleSpace(s: string) {
    forall i | 0 <= i < |s| - 1 :: !(s[i] == ' ' && s[i + 1] == ' ')
  }

  /**
   * The shape `preprocess_text` produces: lower case, single spaces only,
   * no space at either end.
   */
  predicate Canonical(s: string) {
    && (forall i | 0 <= i < |s| :: CanonChar(s[i]))
    && NoDoubleSpace(s)
    && (|s| > 0 ==> s[0] != ' ' && s[|s| - 1] != ' ')
  }

  /** Single spaces only, none at either end; any case. */
  predicate Spaced(s: string) {
    && (forall i | 0 <= i < |s| :: IsWs(s[i]) ==> s[i] == ' ')
    && NoDoubleSpace(s)
    && (|s| > 0 ==> s[0] != ' ' && s[|s| - 1] != ' ')
  }

  /** `re.sub(r'\s+', ' ', s)`: every whitespace run becomes one space. */
  function Squash(s: string): (r: string)
    ensures |r| == 0 <==> |s| == 0
    ensures |r| > 0 ==> (r[0] == ' ' <==> IsWs(s[0]))
    ensures NoDoubleSpace(r)
    ensures forall i | 0 <= i < |r| :: IsWs(r[i]) ==> r[i] == ' ' 
    ensures (forall i | 0 <= i < |s| :: IsWs(s[i]) || CanonChar(s[i])) ==> forall i | 0 <= i < |r| :: CanonChar(r[i])
    ensures Solid(r) == Solid(s)
    decreases |s|
  {
    if |s| == 0 then ""
    else if IsWs(s[0]) then
      var rest := Squash(TrimLeft(s));
      SolidAfterBlanks(s, |s| - |TrimLeft(s)|);
      SolidHead(" " + rest);
      assert (" " + rest)[1..] == rest;
      " " + rest
    else
      var rest := Squash(s[1..]);
      SolidHead(s);
      SolidHead([s[0]] + rest);
      assert ([s[0]] + rest)[1..] == rest;
      [s[0]] + rest
  }

  /** `re.sub(r'\s+', ' ', s).strip()`. */
  function Collapse(s: string): (r: string)
    ensures Spaced(r)
    ensures Solid(r) == Solid(s)
    ensures Words(r) == Words(s)
    ensures (forall i | 0 <= i < |s| :: IsWs(s[i]) || !IsUpper(s[i])) ==> Canonical(r)
  {
    var q := Squash(s);
    SquashWords(s);
    WordsTrim(q);
    TrimmedSquashIsSpaced(q);
    SolidTrim(q);
    assert (forall k | 0 <= k < |s| :: IsWs(s[k]) || !IsUpper(s[k])) ==> Canonical(Trim(q)) by {
      if forall k | 0 <= k < |s| :: IsWs(s[k]) || !IsUpper(s[k]) {
        assert forall k | 0 <= k < |s| :: IsWs(s[k]) || CanonChar(s[k]);
        TrimmedSquashIsCanonical(q);
      }
    }
    Trim(q)
  }

  /** Collapsing whitespace keeps every other character, in order. */
  lemma SelectCollapse(s: string, keep: char -> bool)
    requires forall c: char :: IsWs(c) ==> !keep(c)
    ensures Select(Collapse(s), keep) == Select(s, keep)
  {
    SelectSolid(Collapse(s), keep);
    SelectSolid(s, keep);
  }

  lemma InCollapse(s: string, c: char)
    requires !IsWs(c)
    ensures c in Collapse(s) <==> c in s
  {
    InSolid(Collapse(s), c);
    InSolid(s, c);
  }

  lemma {:induction false} InSolid(s: string, c: char)
    requires !IsWs(c)
    ensures c in Solid(s) <==> c in s
    decreases |s|
  {
    if |s| > 0 {
      InSolid(s[1..], c);
      SolidHead(s);
      assert s == [s[0]] + s[1..];
    }
  }

  lemma TrimmedSquashIsCanonical(q: string)
    requires NoDoubleSpace(q)
    requires forall k | 0 <= k < |q| :: CanonChar(q[k])
    ensures Canonical(Trim(q))
  {
    var i, j := TrimSlice(q);
    CanonicalSlice(q, i, j, Trim(q));
  }

  lemma TrimmedSquashIsSpaced(q: string)
    requires NoDoubleSpace(q)
    requires forall k | 0 <= k < |q| :: IsWs(q[k]) ==> q[k] == ' '
    ensures Spaced(Trim(q))
  {
    var i, j := TrimSlice(q);
    SpacedSlice(q, i, j, Trim(q));
  }

  /** A slice that starts and ends on non-whitespace keeps the canonical shape. */
  lemma CanonicalSlice(q: string, i: nat, j: nat, r: string)
    requires i <= j <= |q| && r == q[i..j]
    requires i < j ==> !IsWs(q[i]) && !IsWs(q[j - 1])
    requires NoDoubleSpace(q) && forall k | 0 <= k < |q| :: CanonChar(q[k])
    ensures Canonical(r)
  {
    SliceNoDoubleSpace(q, i, j);
    forall k | 0 <= k < |r| ensures CanonChar(r[k]) {
      assert r[k] == q[i + k];
    }
  }

  /** A slice that starts and ends on non-whitespace keeps single spacing. */
  lemma SpacedSlice(q: string, i: nat, j: nat, r: string)
    requires i <= j <= |q| && r == q[i..j]
    requires i < j ==> !IsWs(q[i]) && !IsWs(q[j - 1])
    requires NoDoubleSpace(q) && forall k | 0 <= k < |q| :: IsWs(q[k]) ==> q[k] == ' '
    ensures Spaced(r)
  {
    SliceNoDoubleSpace(q, i, j);
    forall k | 0 <= k < |r| ensures IsWs(r[k]) ==> r[k] == ' ' {
      assert r[k] == q[i + k];
    }
  }

  /** A slice of a text without double spaces has none either. */
  lemma SliceNoDoubleSpace(q: string, i: nat, j: nat)
    requires i <= j <= |q| && NoDoubleSpace(q)
    ensures NoDoubleSpace(q[i..j])
  {
    var r := q[i..j];
    forall k | 0 <= k < |r| - 1 ensures !(r[k] == ' ' && r[k + 1] == ' ') {
      assert r[k] == q[i + k] && r[k + 1] == q[i + k + 1];
    }
  }

  /** A text already single-spaced and trimmed is its own collapse. */
  lemma {:induction false} CollapseSpaced(s: string)
    requires Spaced(s)
    ensures Collapse(s) == s
  {
    SquashSpaced(s);
    assert TrimLeft(s) == s;
  }

  lemma {:induction false} SquashSpaced(s: string)
    requires forall i | 0 <= i < |s| :: IsWs(s[i]) ==> s[i] == ' '
    requires NoDoubleSpace(s)
    ensures Squash(s) == s
    decreases |s|
  {
    if |s| > 0 {
      if IsWs(s[0]) {
        if |s| > 1 {
          assert !IsWs(s[1]);
        }
        assert TrimLeft(s) == s[1..];
      }
      SquashSpaced(s[1..]);
    }
  }

  // ---------------------------------------------------------------------------
  // Decimal numerals

  /** Value of a string of decimal digits, as `int` reads it; each character counts modulo 10. */
  function DigitsValue(w: string): (v: nat)
    ensures |w| == 0 ==> v == 0
    decreases |w|
  {
    if |w| == 0 then 0 else 10 * DigitsValue(w[..|w| - 1]) + (w[|w| - 1] as int - '0' as int) % 10
  }

  // ---------------------------------------------------------------------------
  // Splitting

  /** Length of the leading run of non-whitespace characters. */
  function WordLen(s: string): (n: nat)
    ensures n <= |s|
    ensures forall i | 0 <= i < n :: !IsWs(s[i])
    ensures n < |s| ==> IsWs(s[n])
    decreases |s|
  {
    if |s| == 0 || IsWs(s[0]) then 0 else 1 + WordLen(s[1..])
  }

  /** `str.split()` with no separator: the maximal runs of non-whitespace. */
  function Words(s: string): seq<string>
    decreases |s|
  {
    var t := TrimLeft(s);
    if |t| == 0 then []
    else
      var n := WordLen(t);
      [t[..n]] + Words(t[n..])
  }

  /** A whitespace character in front changes no word. */
  lemma {:induction false} WordsWsCons(w: char, y: string)
    requires IsWs(w)
    ensures Words([w] + y) == Words(y)
  {
    assert ([w] + y)[1..] == y;
  }

  /** A non-whitespace character in front starts a word, or joins the first one. */
  lemma {:induction false} WordsCons(c: char, y: string)
    requires !IsWs(c)
    ensures Words([c] + y) == if |y| == 0 || IsWs(y[0]) then [[c]] + Words(y) else [[c] + Words(y)[0]] + Words(y)[1..]
  {
    var s := [c] + y;
    assert s[1..] == y;
    assert TrimLeft(s) == s;
    var n := WordLen(s);
    assert n == 1 + WordLen(y);
    if |y| > 0 && !IsWs(y[0]) {
      assert TrimLeft(y) == y;
      var m := WordLen(y);
      assert Words(y) == [y[..m]] + Words(y[m..]);
      assert s[..n] == [c] + y[..m] && s[n..] == y[m..];
    } else {
      assert s[..n] == [c] && s[n..] == y;
    }
  }

  lemma {:induction false} WordsTrimLeft(s: string)
    ensures Words(TrimLeft(s)) == Words(s)
  {
    var t := TrimLeft(s);
    assert TrimLeft(t) == t;
  }

  /** Whitespace at the end changes no word. */
  lemma {:induction false} WordsTrailing(x: string, w: string)
    requires forall i | 0 <= i < |w| :: IsWs(w[i])
    ensures Words(x + w) == Words(x)
    decreases |x|
  {
    if |x| == 0 {
      assert x + w == w;
      assert |TrimLeft(w)| == 0;
    } else {
      assert x + w == [x[0]] + (x[1..] + w) && x == [x[0]] + x[1..];
      WordsTrailing(x[1..], w);
      if IsWs(x[0]) {
        WordsWsCons(x[0], x[1..] + w);
        WordsWsCons(x[0], x[1..]);
      } else {
        WordsCons(x[0], x[1..] + w);
        WordsCons(x[0], x[1..]);
      }
    }
  }

  /** `strip` changes no word. */
  lemma {:induction false} WordsTrim(s: string)
    ensures Words(Trim(s)) == Words(s)
  {
    WordsTrimLeft(s);
    WordsTrimRight(TrimLeft(s));
  }

  lemma {:induction false} WordsTrimRight(l: string)
    ensures Words(TrimRight(l)) == Words(l)
  {
    WordsPrefix(l, |TrimRight(l)|);
  }

  /** Cutting off a whitespace tail changes no word. */
  lemma {:induction false} WordsPrefix(l: string, n: nat)
    requires n <= |l|
    requires forall i | n <= i < |l| :: IsWs(l[i])
    ensures Words(l[..n]) == Words(l)
  {
    var w := l[n..];
    SplitAt(l, n);
    forall i | 0 <= i < |w| ensures IsWs(w[i]) {
      assert w[i] == l[n + i];
    }
    WordsTrailing(l[..n], w);
  }

  lemma {:induction false} SplitAt(l: string, n: nat)
    requires n <= |l|
    ensures l == l[..n] + l[n..]
  {
  }

  /** Squashing whitespace runs changes no word. */
  lemma {:induction false} SquashWords(s: string)
    ensures Words(Squash(s)) == Words(s)
    decreases |s|
  {
    if |s| > 0 {
      if IsWs(s[0]) {
        SquashWords(TrimLeft(s));
        SquashWordsBlank(s);
      } else {
        SquashWords(s[1..]);
        SquashWordsSolid(s);
      }
    }
  }

  lemma {:induction false} SquashWordsBlank(s: string)
    requires |s| > 0 && IsWs(s[0])
    requires Words(Squash(TrimLeft(s))) == Words(TrimLeft(s))
    ensures Words(Squash(s)) == Words(s)
  {
    var q := Squash(TrimLeft(s));
    assert Squash(s) == [' '] + q;
    WordsWsCons(' ', q);
    WordsTrimLeft(s);
  }

  lemma {:induction false} SquashWordsSolid(s: string)
    requires |s| > 0 && !IsWs(s[0])
    requires Words(Squash(s[1..])) == Words(s[1..])
    ensures Words(Squash(s)) == Words(s)
  {
    var y := s[1..];
    SquashSolidHead(s);
    WordsConsSame(s[0], Squash(y), y);
  }

  lemma {:induction false} SquashSolidHead(s: string)
    requires |s| > 0 && !IsWs(s[0])
    ensures s == [s[0]] + s[1..] && Squash(s) == [s[0]] + Squash(s[1..])
  {
    SplitAt(s, 1);
    assert s[..1] == [s[0]];
  }

  /** Two tails with the same words, both starting a new word or neither, give the same words behind `c`. */
  lemma {:induction false} WordsConsSame(c: char, y1: string, y2: string)
    requires !IsWs(c) && Words(y1) == Words(y2)
    requires (|y1| == 0 || IsWs(y1[0])) == (|y2| == 0 || IsWs(y2[0]))
    ensures Words([c] + y1) == Words([c] + y2)
  {
    WordsCons(c, y1);
    WordsCons(c, y2);
  }

  function CountChar(s: string, c: char): nat
    decreases |s|
  {
    if |s| == 0 then 0 else (if s[0] == c then 1 else 0) + CountChar(s[1..], c)
  }

  /** Index of the first `c`, or `|s|` when there is none. */
  function IndexOf(s: string, c: char): (k: nat)
    ensures k <= |s|
    ensures forall i | 0 <= i < k :: s[i] != c
    ensures k < |s| ==> s[k] == c
    decreases |s|
  {
    if |s| == 0 || s[0] == c then 0 else 1 + IndexOf(s[1..], c)
  }

  /** `str.split(c)`: the pieces between the separators, one more piece than separators. */
  function SplitOn(s: string, c: char): (r: seq<string>)
    ensures |r| == CountChar(s, c) + 1
    ensures forall k | 0 <= k < |r| :: forall i | 0 <= i < |r[k]| :: r[k][i] != c
    ensures JoinWith(r, c) == s
    decreases |s|
  {
    var k := IndexOf(s, c);
    if k == |s| then
      CountNone(s, c);
      [s]
    else
      CountSplit(s, c, k);
      var rest := SplitOn(s[k + 1..], c);
      assert s == s[..k] + [c] + s[k + 1..];
      JoinWithCons(s[..k], rest, c);
      [s[..k]] + rest
  }

  /** `c.join(pieces)`: the pieces with `c` between neighbours. */
  function JoinWith(pieces: seq<string>, c: char): string
    decreases |pieces|
  {
    if |pieces| == 0 then ""
    else if |pieces| == 1 then pieces[0]
    else pieces[0] + [c] + JoinWith(pieces[1..], c)
  }

  lemma JoinWithCons(w: string, rest: seq<string>, c: char)
    requires |rest| > 0
    ensures JoinWith([w] + rest, c) == w + [c] + JoinWith(rest, c)
  {
    assert ([w] + rest)[1..] == rest;
  }

  lemma {:induction false} CountNone(s: string, c: char)
    requires forall i | 0 <= i < |s| :: s[i] != c
    ensures CountChar(s, c) == 0
    decreases |s|
  {
    if |s| > 0 { CountNone(s[1..], c); }
  }

  lemma {:induction false} CountSplit(s: string, c: char, k: nat)
    requires k < |s| && s[k] == c
    requires forall i | 0 <= i < k :: s[i] != c
    ensures CountChar(s, c) == 1 + CountChar(s[k + 1..], c)
    decreases k
  {
    if k > 0 {
      CountSplit(s[1..], c, k - 1);
      assert s[1..][k..] == s[k + 1..];
    }
  }

  // ---------------------------------------------------------------------------
  // A chain of `str.replace` calls, applied in table order

  function ReplaceChain(s: string, table: seq<(string, string)>): string
    requires forall k | 0 <= k < |table| :: |table[k].0| > 0
    decreases |table|
  {
    if |table| == 0 then s else ReplaceChain(ReplaceAll(s, table[0].0, table[0].1), table[1..])
  }

  /** Every replacement is non-empty and made of canonical, non-space characters. */
  predicate SafeTable(table: seq<(string, string)>) {
    forall k | 0 <= k < |table| ::
      && |table[k].0| > 0
      && |table[k].1| > 0
      && forall i | 0 <= i < |table[k].1| :: CanonChar(table[k].1[i]) && table[k].1[i] != ' '
  }

  /** No replacement shares a character with any pattern. */
  predicate Separated(table: seq<(string, string)>) {
    forall k, j | 0 <= k < |table| && 0 <= j < |table| :: NoSharedChar(table[k].0, table[j].1)
  }

  lemma {:induction false} ChainKeepsAbsent(s: string, table: seq<(string, string)>, q: string)
    requires SafeTable(table)
    requires |q| > 0 && !Contains(s, q)
    requires forall j | 0 <= j < |table| :: NoSharedChar(q, table[j].1)
    ensures !Contains(ReplaceChain(s, table), q)
    decreases |table|
  {
    if |table| > 0 {
      ReplaceKeepsAbsent(s, table[0].0, table[0].1, q);
      ChainKeepsAbsent(ReplaceAll(s, table[0].0, table[0].1), table[1..], q);
    }
  }

  /** After the chain no pattern of the table occurs. */
  lemma {:induction false} ChainRemoves(s: string, table: seq<(string, string)>)
    requires SafeTable(table) && Separated(table)
    ensures forall k | 0 <= k < |table| :: !Contains(ReplaceChain(s, table), table[k].0)
    decreases |table|
  {
    if |table| > 0 {
      var s1 := ReplaceAll(s, table[0].0, table[0].1);
      ReplaceRemoves(s, table[0].0, table[0].1);
      ChainKeepsAbsent(s1, table[1..], table[0].0);
      ChainRemoves(s1, table[1..]);
      forall k | 1 <= k < |table|
        ensures !Contains(ReplaceChain(s, table), table[k].0)
      {
        assert table[k] == table[1..][k - 1];
      }
    }
  }

  lemma {:induction false} ChainKeepsCanonical(s: string, table: seq<(string, string)>)
    requires SafeTable(table)
    requires Canonical(s)
    ensures Canonical(ReplaceChain(s, table))
    decreases |table|
  {
    if |table| > 0 {
      ReplaceShape(s, table[0].0, table[0].1);
      ChainKeepsCanonical(ReplaceAll(s, table[0].0, table[0].1), table[1..]);
    }
  }

  lemma {:induction false} ChainOfAbsentIsIdentity(s: string, table: seq<(string, string)>)
    requires forall k | 0 <= k < |table| :: |table[k].0| > 0 && !Contains(s, table[k].0)
    ensures ReplaceChain(s, table) == s
    decreases |table|
  {
    if |table| > 0 {
      ReplaceAbsentIsIdentity(s, table[0].0, table[0].1);
      ChainOfAbsentIsIdentity(s, table[1..]);
    }
  }

  /** When the only occurrence of `p` in `x + p + y` is the one at `|x|`, replacing swaps just that one. */
  lemma {:induction false} ReplaceOnce(x: string, p: string, q: string, y: string)
    requires |p| > 0
    requires forall i: nat | OccursAt(x + p + y, p, i) :: i == |x|
    ensures ReplaceAll(x + p + y, p, q) == x + q + y
    decreases |x|
  {
    if |x| == 0 {
      assert x + p + y == p + y && x + q + y == q + y;
      ReplaceAtFront(p, q, y);
    } else {
      ShiftOccurrences(x, p, y);
      ReplaceOnce(x[1..], p, q, y);
      ReplacePastHead(x, p, q, y);
    }
  }

  lemma {:induction false} ReplaceAtFront(p: string, q: string, y: string)
    requires |p| > 0
    requires forall i: nat | OccursAt(p + y, p, i) :: i == 0
    ensures ReplaceAll(p + y, p, q) == q + y
  {
    var s := p + y;
    assert s[..|p|] == p && s[|p|..] == y;
    assert !Contains(y, p) by {
      forall i: nat | OccursAt(y, p, i) ensures false {
        assert s[|p| + i..|p| + i + |p|] == y[i..i + |p|];
        assert OccursAt(s, p, |p| + i);
      }
    }
    ReplaceAbsentIsIdentity(y, p, q);
  }

  /** Occurrences in `x + p + y` one further on than in its tail. */
  lemma {:induction false} ShiftOccurrences(x: string, p: string, y: string)
    requires |x| > 0
    requires forall i: nat | OccursAt(x + p + y, p, i) :: i == |x|
    ensures forall i: nat | OccursAt(x[1..] + p + y, p, i) :: i == |x[1..]|
  {
    var s, s' := x + p + y, x[1..] + p + y;
    forall i: nat | OccursAt(s', p, i) ensures i == |x[1..]| {
      assert s[1 + i..1 + i + |p|] == s'[i..i + |p|];
      assert OccursAt(s, p, 1 + i);
    }
  }

  lemma {:induction false} ReplacePastHead(x: string, p: string, q: string, y: string)
    requires |x| > 0 && |p| > 0
    requires forall i: nat | OccursAt(x + p + y, p, i) :: i == |x|
    requires ReplaceAll(x[1..] + p + y, p, q) == x[1..] + q + y
    ensures ReplaceAll(x + p + y, p, q) == x + q + y
  {
    var s := x + p + y;
    assert !StartsWith(s, p) by {
      if StartsWith(s, p) {
        assert OccursAt(s, p, 0);
      }
    }
    assert s[1..] == x[1..] + p + y;
    assert x + q + y == [x[0]] + (x[1..] + q + y);
  }

  /** Swapping `p` for a non-empty `q` that shares no character with `u` creates no occurrence of `u`. */
  lemma {:induction false} SwapKeepsAbsent(x: string, p: string, q: string, y: string, u: string)
    requires |q| > 0 && NoSharedChar(u, q)
    requires !Contains(x + p + y, u)
    ensures !Contains(x + q + y, u)
  {
    var s, t := x + p + y, x + q + y;
    assert |u| > 0 by {
      if |u| == 0 {
        assert OccursAt(s, u, 0);
      }
    }
    forall i: nat | OccursAt(t, u, i) ensures false {
      if i + |u| <= |x| {
        assert t[i..i + |u|] == s[i..i + |u|];
        assert OccursAt(s, u, i);
      } else if i >= |x| + |q| {
        var i' := i - |q| + |p|;
        assert t[i..i + |u|] == s[i'..i' + |u|];
        assert OccursAt(s, u, i');
      } else {
        OverlapShares(x, q, y, u, i);
      }
    }
  }

  /** An occurrence of `u` that overlaps `q` shares a character with it. */
  lemma {:induction false} OverlapShares(x: string, q: string, y: string, u: string, i: nat)
    requires |u| > 0 && |q| > 0
    requires OccursAt(x + q + y, u, i) && i < |x| + |q| && |x| < i + |u|
    ensures !NoSharedChar(u, q)
  {
    var t := x + q + y;
    var m := if i < |x| then |x| else i;
    assert t[m] == q[m - |x|];
    assert u[m - i] == t[i..i + |u|][m - i] == t[m];
  }

  /**
   * A text whose only table match is entry `k`'s pattern at `|x|`: the
   * chain swaps that one occurrence, provided no later pattern appears once
   * it is swapped.
   */
  lemma {:induction false} ChainOnce(x: string, y: string, table: seq<(string, string)>, k: nat)
    requires k < |table| && forall j | 0 <= j < |table| :: |table[j].0| > 0
    requires forall j, i: nat | 0 <= j < |table| && OccursAt(x + table[k].0 + y, table[j].0, i) :: j == k && i == |x|
    requires forall j | k < j < |table| :: !Contains(x + table[k].1 + y, table[j].0)
    ensures ReplaceChain(x + table[k].0 + y, table) == x + table[k].1 + y
    decreases k
  {
    var s := x + table[k].0 + y;
    if k == 0 {
      ReplaceOnce(x, table[0].0, table[0].1, y);
      ChainOfAbsentIsIdentity(x + table[0].1 + y, table[1..]);
    } else {
      assert !Contains(s, table[0].0);
      ReplaceAbsentIsIdentity(s, table[0].0, table[0].1);
      assert table[1..][k - 1] == table[k];
      ChainOnce(x, y, table[1..], k - 1);
    }
  }

  /** Patterns drawn from one class of characters and replacements from its complement are separated. */
  lemma SeparatedByClass(table: seq<(string, string)>, inPattern: char -> bool)
    requires forall k, i | 0 <= k < |table| && 0 <= i < |table[k].0| :: inPattern(table[k].0[i])
    requires forall k, i | 0 <= k < |table| && 0 <= i < |table[k].1| :: !inPattern(table[k].1[i])
    ensures Separated(table)
  {
  }
}
