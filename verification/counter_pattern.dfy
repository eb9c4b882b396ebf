/** The regular expression `\(\d+\)` that `renameNode` searches for in a file stem, with
    leftmost-match semantics. Because a digit is never `)`, the greedy `\d+` is decided by
    the first non-digit after `(`, so a match is fixed by where it opens. */
module CounterPattern {
  import opened Common
  import opened Decimal

  /** `\d` and `CharacterSet.decimalDigits`: Unicode decimal digits (category Nd). ASCII
      digits and a few other blocks of that category are listed. */
  predicate IsDecimalDigit(c: char)
  {
    || IsAsciiDigit(c)
    || '\U{0660}' <= c <= '\U{0669}'  // Arabic-Indic
    || '\U{06F0}' <= c <= '\U{06F9}'  // Extended Arabic-Indic
    || '\U{0966}' <= c <= '\U{096F}'  // Devanagari
    || '\U{09E6}' <= c <= '\U{09EF}'  // Bengali
    || '\U{FF10}' <= c <= '\U{FF19}'  // Fullwidth
  }

  /** The first position at or after `from` that does not hold a decimal digit. */
  function DigitRunEnd(s: string, from: nat): (e: nat)
    requires from <= |s|
    ensures from <= e <= |s|
    ensures forall k :: from <= k < e ==> IsDecimalDigit(s[k])
    ensures e < |s| ==> !IsDecimalDigit(s[e])
    decreases |s| - from
  {
    if from == |s| || !IsDecimalDigit(s[from]) then from else DigitRunEnd(s, from + 1)
  }

  /** `\(\d+\)` matches at `i`: an opening parenthesis, one or more digits, a closing one. */
  predicate MatchAt(s: string, i: nat)
    requires i < |s|
  {
    && s[i] == '('
    && var e := DigitRunEnd(s, i + 1);
    && i + 1 < e < |s|
    && s[e] == ')'
  }

  /** Leftmost match at or after `from`. */
  function FirstMatchFrom(s: string, from: nat): (r: Option<nat>)
    requires from <= |s|
    ensures r.Some? ==> from <= r.value < |s| && MatchAt(s, r.value)
    ensures r.Some? ==> forall k :: from <= k < r.value ==> !MatchAt(s, k)
    ensures r.None? ==> forall k :: from <= k < |s| ==> !MatchAt(s, k)
    decreases |s| - from
  {
    if from == |s| then None
    else if MatchAt(s, from) then Some(from)
    else FirstMatchFrom(s, from + 1)
  }

  /** `String.range(of: #"\(\d+\)"#, options: .regularExpression)`: the opening index. */
  function FirstMatch(s: string): (r: Option<nat>)
    ensures r.Some? ==> r.value < |s| && MatchAt(s, r.value)
    ensures r.Some? ==> forall k :: 0 <= k < r.value ==> !MatchAt(s, k)
    ensures r.None? ==> forall k :: 0 <= k < |s| ==> !MatchAt(s, k)
  {
    FirstMatchFrom(s, 0)
  }

  /** The closing parenthesis of the match opening at `i`. */
  function CloseOf(s: string, i: nat): (e: nat)
    requires i < |s| && MatchAt(s, i)
    ensures i + 1 < e < |s| && s[e] == ')'
    ensures forall k :: i + 1 <= k < e ==> IsDecimalDigit(s[k])
  {
    DigitRunEnd(s, i + 1)
  }

  /** The match found is the one opening at `i` exactly when nothing matches before `i`. */
  lemma FirstMatchIs(s: string, i: nat)
    requires i < |s| && MatchAt(s, i)
    requires forall k :: 0 <= k < i ==> !MatchAt(s, k)
    ensures FirstMatch(s) == Some(i)
  {
  }

  /** A digit run is determined by its characters and the non-digit that ends it. */
  lemma {:induction false} RunEndIs(s: string, from: nat, e: nat)
    requires from <= e <= |s|
    requires forall k :: from <= k < e ==> IsDecimalDigit(s[k])
    requires e < |s| ==> !IsDecimalDigit(s[e])
    ensures DigitRunEnd(s, from) == e
    decreases e - from
  {
    if from < e {
      RunEndIs(s, from + 1, e);
    }
  }

  /** Position `i` cannot extend or close a match opened before it. */
  predicate Barrier(s: string, i: nat)
    requires i <= |s|
  {
    i == |s| || (!IsDecimalDigit(s[i]) && s[i] != ')')
  }

  /** Two strings that agree before a barrier at `i` have the same digit runs there. */
  lemma {:induction false} RunEndAgree(s: string, t: string, i: nat, from: nat)
    requires from <= i <= |s| && i <= |t|
    requires s[..i] == t[..i]
    requires Barrier(s, i) && Barrier(t, i)
    ensures DigitRunEnd(s, from) == DigitRunEnd(t, from) <= i
    decreases i - from
  {
    if from < i {
      assert s[from] == s[..i][from] == t[..i][from] == t[from];
      if IsDecimalDigit(s[from]) {
        RunEndAgree(s, t, i, from + 1);
      }
    }
  }

  /** Two strings that agree before a barrier at `i` have the same matches before `i`. */
  lemma MatchesAgree(s: string, t: string, i: nat)
    requires i <= |s| && i <= |t|
    requires s[..i] == t[..i]
    requires Barrier(s, i) && Barrier(t, i)
    ensures forall k :: 0 <= k < i ==> (MatchAt(s, k) <==> MatchAt(t, k))
  {
    forall k | 0 <= k < i
      ensures MatchAt(s, k) <==> MatchAt(t, k)
    {
      assert s[k] == s[..i][k] == t[..i][k] == t[k];
      RunEndAgree(s, t, i, k + 1);
      var e := DigitRunEnd(s, k + 1);
      if e < i {
        assert s[e] == s[..i][e] == t[..i][e] == t[e];
      }
    }
  }
}
