/**
 * The solver's step log: every entry point starts from an empty log and
 * appends numbered entries, so the log it returns is numbered 1, 2, ..., n.
 * Only the description of a step is kept; its content is SymPy's printing of
 * intermediate expressions.
 */
module Steps {
  import opened Strings

  datatype Step = Step(number: nat, description: string)

  type Log = seq<Step>

  /** Entry `i` carries the number `i + 1`. */
  predicate Numbered(log: Log) {
    forall i | 0 <= i < |log| :: log[i].number == i + 1
  }

  /** `_add_step`: bump the counter and append. */
  function AddStep(log: Log, description: string): (r: Log)
    requires Numbered(log)
    ensures Numbered(r)
    ensures |r| == |log| + 1 && r[..|log|] == log
    ensures r[|log|] == Step(|log| + 1, description)
  {
    log + [Step(|log| + 1, description)]
  }

  /** Appends one step per description, in order. */
  function AddSteps(log: Log, descriptions: seq<string>): (r: Log)
    requires Numbered(log)
    ensures Numbered(r)
    ensures |r| == |log| + |descriptions| && r[..|log|] == log
    ensures forall k | 0 <= k < |descriptions| :: r[|log| + k].description == descriptions[k]
    decreases |descriptions|
  {
    if |descriptions| == 0 then log
    else
      var next := AddStep(log, descriptions[0]);
      var r := AddSteps(next, descriptions[1..]);
      assert r[..|log|] == next[..|log|];
      r
  }

  /** The descriptions of a log, in order. */
  function Descriptions(log: Log): (r: seq<string>)
    ensures |r| == |log|
    ensures forall i | 0 <= i < |log| :: r[i] == log[i].description
  {
    seq(|log|, i requires 0 <= i < |log| => log[i].description)
  }

  /** A log started afresh reads back the descriptions it was given. */
  lemma FreshLogDescriptions(descriptions: seq<string>)
    ensures Descriptions(AddSteps([], descriptions)) == descriptions
  {
  }

  /** A log is determined by its descriptions once it is numbered. */
  lemma NumberedByDescriptions(a: Log, b: Log)
    requires Numbered(a) && Numbered(b) && Descriptions(a) == Descriptions(b)
    ensures a == b
  {
    assert |a| == |b|;
    forall i | 0 <= i < |a|
      ensures a[i] == b[i]
    {
      assert a[i].description == Descriptions(a)[i];
    }
  }

  // ---------------------------------------------------------------------------
  // Decimal numerals for "Solution 2", "Verify equation 1, solution 3"

  function DigitChar(d: nat): char
    requires d < 10
  {
    "0123456789"[d]
  }

  /** `str(n)` for a natural number. */
  function NatToString(n: nat): (r: string)
    ensures |r| > 0
    ensures forall i | 0 <= i < |r| :: '0' <= r[i] <= '9'
    ensures n > 0 ==> r[0] != '0'
  {
    if n < 10 then [DigitChar(n)] else NatToString(n / 10) + [DigitChar(n % 10)]
  }

  /** Printing a number and reading it back gives the number. */
  lemma {:induction false} NatToStringRoundTrip(n: nat)
    ensures DigitsValue(NatToString(n)) == n
  {
    if n >= 10 {
      var r := NatToString(n);
      NatToStringRoundTrip(n / 10);
      assert r[..|r| - 1] == NatToString(n / 10);
    }
  }
}
