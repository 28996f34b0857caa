/** The pattern that finds ADR references in a document, `.?<prefix>.+.md`
    with the global flag, and the way JavaScript's `RegExp.prototype.exec`
    walks a text with it.

    The pattern is fixed apart from its literal part, so its matching is
    written out directly instead of through a general regular-expression
    engine. `.` matches any character except a line terminator (`\n`, `\r`,
    U+2028, U+2029); in `.+.md` the dot before `md` is unescaped and is a
    wildcard too, so a match ends at an `md` that follows at least two
    characters of the same line. */
module AdrRegex {
  import opened Wrappers
  import opened JsStrings
  import SecurityValidator

  /** The prefix used when the configured one is refused. The source writes
      this literal here and again in the file-name generator
      (`SecurityValidator.DefaultPrefix`). */
  const FallbackPrefix := "adr_"

  /** The compiled pattern, identified by its literal part. */
  datatype Matcher = Matcher(literal: string)
  {
    /** The pattern text handed to `new RegExp`. */
    function Source(): string {
      ".?" + SecurityValidator.EscapeRegex(literal) + ".+.md"
    }
  }

  /** One result of `exec`: where the match starts and the matched text. */
  datatype RegexMatch = RegexMatch(index: nat, text: string)
  {
    function End(): nat {
      index + |text|
    }
  }

  /** The match's text is what `text` holds from the match's start. This is
      the slice `text[m.index..m.End()]` (see `TextFromIsSlice`), written
      pointwise because the solver reasons about it much more cheaply. */
  predicate TextFrom(text: string, m: RegexMatch) {
    m.End() <= |text| && forall t :: 0 <= t < |m.text| ==> m.text[t] == text[m.index + t]
  }

  /** Reading the text from the start is taking the slice up to its end. */
  lemma TextFromIsSlice(text: string, m: RegexMatch)
    ensures TextFrom(text, m) <==> m.End() <= |text| && m.text == text[m.index..m.End()]
  {
    if m.End() <= |text| && !TextFrom(text, m) {
      var t :| 0 <= t < |m.text| && m.text[t] != text[m.index + t];
      assert text[m.index..m.End()][t] == text[m.index + t];
    }
  }

  /** `adrRegexBuilder` with the configured prefix as a parameter: a refused
      prefix falls back to `adr_`. */
  function AdrRegexBuilder(adrFilePrefix: string): (m: Matcher)
    ensures SecurityValidator.ValidateAdrPrefix(m.literal)
    ensures SecurityValidator.ValidateAdrPrefix(adrFilePrefix) ==> m.literal == adrFilePrefix
    ensures !SecurityValidator.ValidateAdrPrefix(adrFilePrefix) ==> m.literal == FallbackPrefix
  {
    assert SecurityValidator.ValidateAdrPrefix(FallbackPrefix);
    if SecurityValidator.ValidateAdrPrefix(adrFilePrefix) then Matcher(adrFilePrefix)
    else Matcher(FallbackPrefix)
  }

  /** The pattern's middle part reads back as the prefix, character for
      character: the escaping makes the prefix match only itself. */
  lemma SourceMatchesLiteral(m: Matcher)
    ensures m.Source()[..2] == ".?"
    ensures m.Source()[|m.Source()| - 5..] == ".+.md"
    ensures SecurityValidator.PatternLiteral(m.Source()[2..|m.Source()| - 5]) == Some(m.literal)
  {
    var e := SecurityValidator.EscapeRegex(m.literal);
    assert m.Source()[2..|m.Source()| - 5] == e;
    SecurityValidator.EscapeRegexRoundTrip(m.literal);
  }

  /** A literal made of prefix characters holds no line terminator. */
  lemma ValidLiteralHasNoTerminator(m: Matcher)
    requires SecurityValidator.ValidateAdrPrefix(m.literal)
    ensures forall k :: 0 <= k < |m.literal| ==> !IsLineTerminator(m.literal[k])
  {
    forall k | 0 <= k < |m.literal| ensures !IsLineTerminator(m.literal[k]) {
      assert SecurityValidator.IsSafeNameChar(m.literal[k]);
    }
  }

  // ---------------------------------------------------- reference semantics

  /** The literal part of the pattern matches `text` from `j`, character by
      character. This is `OccursAt` (see `LiteralAtOccurs`), written pointwise
      because the solver reasons about it much more cheaply than a slice. */
  predicate LiteralAt(text: string, j: nat, literal: string) {
    j + |literal| <= |text| && forall t :: 0 <= t < |literal| ==> text[j + t] == literal[t]
  }

  /** Matching the literal at `j` is finding it there as a substring. */
  lemma LiteralAtOccurs(text: string, j: nat, literal: string)
    ensures LiteralAt(text, j, literal) <==> OccursAt(text, j, literal)
  {
    if j + |literal| <= |text| {
      if LiteralAt(text, j, literal) {
        assert text[j..j + |literal|] == literal;
      } else {
        var t :| 0 <= t < |literal| && text[j + t] != literal[t];
        assert text[j..j + |literal|][t] != literal[t];
      }
    }
  }

  predicate MdEndsAt(text: string, e: nat) {
    2 <= e <= |text| && text[e - 2] == 'm' && text[e - 1] == 'd'
  }

  /** The end of the line holding position `j`: the first line terminator
      at or after `j`, or the end of the text. */
  function LineEnd(text: string, j: nat): (r: nat)
    requires j <= |text|
    ensures j <= r <= |text|
    decreases |text| - j
  {
    if j == |text| || IsLineTerminator(text[j]) then j else LineEnd(text, j + 1)
  }

  /** No line terminator lies between `j` and the end of its line, and the
      line ends at a terminator or at the end of the text. */
  lemma {:induction false} LineEndSpec(text: string, j: nat)
    requires j <= |text|
    ensures forall k :: j <= k < LineEnd(text, j) ==> !IsLineTerminator(text[k])
    ensures LineEnd(text, j) < |text| ==> IsLineTerminator(text[LineEnd(text, j)])
    decreases |text| - j
  {
    if j < |text| && !IsLineTerminator(text[j]) {
      LineEndSpec(text, j + 1);
    }
  }

  /** `text[j..e]` is matched by `.+.md`: at least one character before
      `.md`, none of them a line terminator, and `md` at the end. */
  predicate TailFits(text: string, j: nat, e: nat) {
    && j + 4 <= e <= |text|
    && e <= LineEnd(text, j)
    && MdEndsAt(text, e)
  }

  /** `text[i..e]` is matched by `.?<literal>.+.md`, with or without the
      optional leading character. */
  predicate IsMatch(text: string, i: nat, e: nat, literal: string) {
    || (i < |text| && !IsLineTerminator(text[i]) && LiteralAt(text, i + 1, literal)
        && TailFits(text, i + 1 + |literal|, e))
    || (LiteralAt(text, i, literal) && TailFits(text, i + |literal|, e))
  }

  // ------------------------------------------------------- backtracking

  /** The greedy search of `.+.md` from the top of `[lo, hi]` down. */
  function LastMdEnd(text: string, lo: nat, hi: nat): (r: Option<nat>)
    requires hi <= |text|
    ensures r.Some? ==> lo <= r.value <= hi
  {
    if hi < lo then None
    else if MdEndsAt(text, hi) then Some(hi)
    else if hi == 0 then None
    else LastMdEnd(text, lo, hi - 1)
  }

  /** The greedy search finds the last `md` end in `[lo, hi]`, and fails
      exactly when there is none. */
  lemma {:induction false} LastMdEndSpec(text: string, lo: nat, hi: nat)
    requires hi <= |text|
    ensures LastMdEnd(text, lo, hi).Some? ==>
              && MdEndsAt(text, LastMdEnd(text, lo, hi).value)
              && forall e :: LastMdEnd(text, lo, hi).value < e <= hi ==> !MdEndsAt(text, e)
    ensures LastMdEnd(text, lo, hi).None? ==> forall e :: lo <= e <= hi ==> !MdEndsAt(text, e)
    decreases hi
  {
    if lo <= hi && !MdEndsAt(text, hi) && hi > 0 {
      LastMdEndSpec(text, lo, hi - 1);
    }
  }

  /** Where `.+.md` started at `j` ends: the `.+` runs to the end of the line
      and gives characters back until `.md` fits. */
  function TailEnd(text: string, j: nat): (r: Option<nat>)
    requires j <= |text|
    ensures r.Some? ==> j + 4 <= r.value <= |text|
  {
    LastMdEnd(text, j + 4, LineEnd(text, j))
  }

  /** The tail found is one `.+.md` can match, the longest one, and none is
      found exactly when none fits. */
  lemma TailEndSpec(text: string, j: nat)
    requires j <= |text|
    ensures TailEnd(text, j).Some? ==> TailFits(text, j, TailEnd(text, j).value)
    ensures TailEnd(text, j).Some? ==> forall e: nat :: TailFits(text, j, e) ==> e <= TailEnd(text, j).value
    ensures TailEnd(text, j).None? ==> forall e: nat :: !TailFits(text, j, e)
  {
    LastMdEndSpec(text, j + 4, LineEnd(text, j));
  }

  /** The end of the match of the pattern at `i`, if any. `.?` first tries
      to take one character and falls back to taking none. */
  function MatchAt(text: string, i: nat, literal: string): (r: Option<nat>)
    requires i <= |text|
    ensures r.Some? ==> i < r.value <= |text|
  {
    if i < |text| && !IsLineTerminator(text[i]) && LiteralAt(text, i + 1, literal)
       && TailEnd(text, i + 1 + |literal|).Some?
    then TailEnd(text, i + 1 + |literal|)
    else if LiteralAt(text, i, literal) then TailEnd(text, i + |literal|)
    else None
  }

  /** The backtracking result at `i` is a match, the longest one there, and
      is absent exactly when nothing matches at `i`. */
  lemma MatchAtSpec(text: string, i: nat, literal: string)
    requires i <= |text|
    ensures MatchAt(text, i, literal).Some? ==> IsMatch(text, i, MatchAt(text, i, literal).value, literal)
    ensures MatchAt(text, i, literal).Some? ==>
              forall e: nat :: IsMatch(text, i, e, literal) ==> e <= MatchAt(text, i, literal).value
    ensures MatchAt(text, i, literal).None? <==> forall e: nat :: !IsMatch(text, i, e, literal)
  {
    var r := MatchAt(text, i, literal);
    if i < |text| && !IsLineTerminator(text[i]) && LiteralAt(text, i + 1, literal)
       && TailEnd(text, i + 1 + |literal|).Some?
    {
      var j := i + 1 + |literal|;
      TailEndSpec(text, j);
      TailEndSpec(text, i + |literal|);
      assert IsMatch(text, i, r.value, literal);
      forall e: nat | IsMatch(text, i, e, literal) ensures e <= r.value {
        if j + 4 <= e {
          assert TailFits(text, j, e);
        }
      }
    } else if LiteralAt(text, i, literal) {
      TailEndSpec(text, i + |literal|);
      if i < |text| && LiteralAt(text, i + 1, literal) {
        TailEndSpec(text, i + 1 + |literal|);
      }
      forall e: nat | IsMatch(text, i, e, literal) ensures TailFits(text, i + |literal|, e) {
      }
      if r.Some? {
        assert IsMatch(text, i, r.value, literal);
      }
    } else {
      if i < |text| && LiteralAt(text, i + 1, literal) {
        TailEndSpec(text, i + 1 + |literal|);
      }
      forall e: nat ensures !IsMatch(text, i, e, literal) {
      }
    }
  }

  /** `regex.exec(text)` with `lastIndex == from`: the first position at
      or after `from` where the pattern matches, with the text it matches
      there. */
  function Exec(text: string, from: nat, literal: string): (r: Option<RegexMatch>)
    requires from <= |text|
    decreases |text| - from
    ensures r.Some? ==> && from <= r.value.index <= |text|
                        && MatchAt(text, r.value.index, literal) == Some(r.value.End())
                        && TextFrom(text, r.value)
                        && forall k :: from <= k < r.value.index ==> MatchAt(text, k, literal).None?
    ensures r.None? ==> forall k :: from <= k <= |text| ==> MatchAt(text, k, literal).None?
  {
    match MatchAt(text, from, literal)
    case Some(e) =>
      var m := RegexMatch(from, text[from..e]);
      assert m.End() == e;
      Some(m)
    case None =>
      if from == |text| then None
      else Exec(text, from + 1, literal)
  }

  /** The search returns the leftmost match at or after `from`, and at its
      start the longest one; it finds nothing only when no match starts at
      or after `from`. */
  lemma ExecIsLeftmostLongest(text: string, from: nat, literal: string)
    requires from <= |text|
    ensures Exec(text, from, literal).Some? ==>
              && from <= Exec(text, from, literal).value.index
              && Exec(text, from, literal).value.index < Exec(text, from, literal).value.End() <= |text|
              && IsMatch(text, Exec(text, from, literal).value.index, Exec(text, from, literal).value.End(), literal)
              && (forall e: nat :: IsMatch(text, Exec(text, from, literal).value.index, e, literal) ==>
                                     e <= Exec(text, from, literal).value.End())
              && forall k: nat, e: nat :: from <= k < Exec(text, from, literal).value.index ==> !IsMatch(text, k, e, literal)
    ensures Exec(text, from, literal).None? ==> forall k: nat, e: nat :: from <= k ==> !IsMatch(text, k, e, literal)
  {
    var r := Exec(text, from, literal);
    if r.Some? {
      MatchAtSpec(text, r.value.index, literal);
      forall k: nat, e: nat | from <= k < r.value.index ensures !IsMatch(text, k, e, literal) {
        MatchAtSpec(text, k, literal);
      }
    } else {
      forall k: nat, e: nat | from <= k ensures !IsMatch(text, k, e, literal) {
        if k <= |text| {
          MatchAtSpec(text, k, literal);
        }
      }
    }
  }

  /** The matches the `exec` loop sees from `from`, at most `budget` of
      them: each search starts where the previous match ended. */
  function AllMatches(text: string, literal: string, from: nat, budget: nat): (ms: seq<RegexMatch>)
    requires from <= |text|
    decreases budget
    ensures |ms| <= budget
  {
    if budget == 0 then []
    else match Exec(text, from, literal)
      case None => []
      case Some(m) => [m] + AllMatches(text, literal, m.End(), budget - 1)
  }

  /** `ms` are matches of the pattern at or after `from`, each holding the
      text at its place, in order and without overlap. */
  ghost predicate MatchList(text: string, literal: string, from: nat, ms: seq<RegexMatch>) {
    && (forall n :: 0 <= n < |ms| ==>
          && from <= ms[n].index < ms[n].End() <= |text|
          && TextFrom(text, ms[n])
          && IsMatch(text, ms[n].index, ms[n].End(), literal))
    && (forall a, b :: 0 <= a < b < |ms| ==> ms[a].End() <= ms[b].index)
  }

  /** Every match the loop sees is a match of the pattern at or after
      `from`, holding the text at its place, and the matches are in order
      without overlap. */
  lemma {:induction false} AllMatchesSound(text: string, literal: string, from: nat, budget: nat)
    requires from <= |text|
    ensures MatchList(text, literal, from, AllMatches(text, literal, from, budget))
    decreases budget
  {
    if budget > 0 && Exec(text, from, literal).Some? {
      var m := Exec(text, from, literal).value;
      AllMatchesSound(text, literal, m.End(), budget - 1);
      MatchAtSpec(text, m.index, literal);
      AllMatchesStep(text, literal, from, budget);
      MatchListCons(text, literal, from, m, AllMatches(text, literal, m.End(), budget - 1));
    }
  }

  /** A match followed by matches that start after it is an ordered list of
      matches. */
  lemma MatchListCons(text: string, literal: string, from: nat, m: RegexMatch, rest: seq<RegexMatch>)
    requires from <= m.index < m.End() <= |text| && TextFrom(text, m)
    requires IsMatch(text, m.index, m.End(), literal)
    requires MatchList(text, literal, m.End(), rest)
    ensures MatchList(text, literal, from, [m] + rest)
  {
    var ms := [m] + rest;
    forall n | 0 <= n < |ms|
      ensures && from <= ms[n].index < ms[n].End() <= |text|
              && TextFrom(text, ms[n])
              && IsMatch(text, ms[n].index, ms[n].End(), literal)
    {
      if n > 0 { assert ms[n] == rest[n - 1]; }
    }
    forall a, b | 0 <= a < b < |ms| ensures ms[a].End() <= ms[b].index {
      assert ms[b] == rest[b - 1];
      if a > 0 { assert ms[a] == rest[a - 1]; }
    }
  }

  /** One round of the loop: the found match, then the rest. */
  lemma AllMatchesStep(text: string, literal: string, from: nat, budget: nat)
    requires from <= |text| && budget > 0 && Exec(text, from, literal).Some?
    ensures AllMatches(text, literal, from, budget)
            == [Exec(text, from, literal).value]
               + AllMatches(text, literal, Exec(text, from, literal).value.End(), budget - 1)
  {
  }

  /** The matches seen so far, then the ones still to come, across one
      round of the loop. */
  lemma AllMatchesAdvance(text: string, literal: string, from: nat, budget: nat, done: seq<RegexMatch>)
    requires from <= |text| && budget > 0 && Exec(text, from, literal).Some?
    ensures done + AllMatches(text, literal, from, budget)
            == (done + [Exec(text, from, literal).value])
               + AllMatches(text, literal, Exec(text, from, literal).value.End(), budget - 1)
  {
    AllMatchesStep(text, literal, from, budget);
    var m := Exec(text, from, literal).value;
    var rest := AllMatches(text, literal, m.End(), budget - 1);
    assert done + ([m] + rest) == (done + [m]) + rest;
  }

  /** The loop stops when the search fails or the budget is spent. */
  lemma AllMatchesStop(text: string, literal: string, from: nat, budget: nat)
    requires from <= |text| && (budget == 0 || Exec(text, from, literal).None?)
    ensures AllMatches(text, literal, from, budget) == []
  {
  }

  /** Position `k` lies inside one of the matches `ms`. */
  ghost predicate Covered(ms: seq<RegexMatch>, k: nat) {
    exists n :: 0 <= n < |ms| && ms[n].index <= k < ms[n].End()
  }

  /** `k` lies inside one of `ms`, or `ms` used the whole budget and `k`
      comes after all of them. */
  ghost predicate CoveredOrExhausted(ms: seq<RegexMatch>, budget: nat, k: nat) {
    Covered(ms, k) || (|ms| == budget && (ms == [] || Last(ms).End() <= k))
  }

  /** Walking the matches in order: `k` falls inside one of them, or every
      one ends at or before `k` and there are exactly `budget` of them. */
  ghost predicate CoverWalk(ms: seq<RegexMatch>, budget: nat, k: nat)
    decreases |ms|
  {
    if ms == [] then budget == 0
    else (ms[0].index <= k < ms[0].End())
         || (budget > 0 && ms[0].End() <= k && CoverWalk(ms[1..], budget - 1, k))
  }

  /** The walk is the plain statement: covered, or exhausted before `k`. */
  lemma {:induction false} CoverWalkCovers(ms: seq<RegexMatch>, budget: nat, k: nat)
    requires CoverWalk(ms, budget, k)
    ensures CoveredOrExhausted(ms, budget, k)
    decreases |ms|
  {
    if ms != [] && !(ms[0].index <= k < ms[0].End()) {
      var rest := ms[1..];
      CoverWalkCovers(rest, budget - 1, k);
      if Covered(rest, k) {
        var n :| 0 <= n < |rest| && rest[n].index <= k < rest[n].End();
        assert ms[n + 1] == rest[n];
      } else if rest != [] {
        assert Last(ms) == Last(rest);
      }
    }
  }

  /** No match is skipped: every position where a match starts lies inside
      a match the loop found, unless the budget ran out before it. */
  lemma AllMatchesCover(text: string, literal: string, from: nat, budget: nat, k: nat)
    requires from <= k <= |text| && MatchAt(text, k, literal).Some?
    ensures CoveredOrExhausted(AllMatches(text, literal, from, budget), budget, k)
  {
    AllMatchesWalk(text, literal, from, budget, k);
    CoverWalkCovers(AllMatches(text, literal, from, budget), budget, k);
  }

  /** The loop's matches walk up to `k`. */
  lemma {:induction false} AllMatchesWalk(text: string, literal: string, from: nat, budget: nat, k: nat)
    requires from <= k <= |text| && MatchAt(text, k, literal).Some?
    ensures CoverWalk(AllMatches(text, literal, from, budget), budget, k)
    decreases budget
  {
    if budget == 0 {
      AllMatchesStop(text, literal, from, budget);
    } else {
      var e := AllMatchesHead(text, literal, from, budget, k);
      if e <= k {
        AllMatchesWalk(text, literal, e, budget - 1, k);
      }
    }
  }

  /** While the budget lasts, the loop's first match starts no later than
      any match start `k`: it covers `k`, or it ends at `e <= k` and the
      walk goes on from `e`. */
  lemma AllMatchesHead(text: string, literal: string, from: nat, budget: nat, k: nat) returns (e: nat)
    requires from <= k <= |text| && MatchAt(text, k, literal).Some? && budget > 0
    ensures e <= |text|
    ensures k < e ==> CoverWalk(AllMatches(text, literal, from, budget), budget, k)
    ensures e <= k && CoverWalk(AllMatches(text, literal, e, budget - 1), budget - 1, k)
            ==> CoverWalk(AllMatches(text, literal, from, budget), budget, k)
  {
    var m := Exec(text, from, literal).value;
    e := m.End();
    var rest := AllMatches(text, literal, e, budget - 1);
    AllMatchesStep(text, literal, from, budget);
    var ms := AllMatches(text, literal, from, budget);
    assert ms[0] == m && ms[1..] == rest;
  }

  function Last<T>(s: seq<T>): T
    requires s != []
  {
    s[|s| - 1]
  }

  /** Every match contains the literal, so a text without it has none: the
      cheap `includes` test before the scan only skips scans that find
      nothing, as long as it tests for the pattern's own literal. */
  lemma ProbeSound(text: string, literal: string, from: nat, budget: nat)
    requires from <= |text|
    requires !Contains(text, literal)
    ensures AllMatches(text, literal, from, budget) == []
  {
    forall k: nat ensures !LiteralAt(text, k, literal) {
      LiteralAtOccurs(text, k, literal);
    }
    if budget > 0 {
      assert Exec(text, from, literal).None?;
    }
  }

  /** Every character of a match is on one line. */
  lemma MatchHasNoTerminator(text: string, i: nat, e: nat, literal: string)
    requires IsMatch(text, i, e, literal)
    requires forall k :: 0 <= k < |literal| ==> !IsLineTerminator(literal[k])
    ensures i < e <= |text|
    ensures forall k :: i <= k < e ==> !IsLineTerminator(text[k])
  {
    var j := if i < |text| && !IsLineTerminator(text[i]) && LiteralAt(text, i + 1, literal)
                && TailFits(text, i + 1 + |literal|, e) then i + 1 else i;
    assert LiteralAt(text, j, literal) && TailFits(text, j + |literal|, e);
    LineEndSpec(text, j + |literal|);
    forall k | i <= k < e ensures !IsLineTerminator(text[k]) {
      if k < j {
        assert k == i && j == i + 1;
      } else if k < j + |literal| {
        assert text[j + (k - j)] == literal[k - j];
      } else {
        assert j + |literal| <= k < e;
      }
    }
  }
}
