/** The JavaScript string built-ins the extension relies on, stated over
    sequences of characters: the `\s` class (also the set `trim` removes),
    the characters a regular-expression `.` refuses, `startsWith`, `indexOf`,
    `includes`, `trim`, `replace(/\s+/g, rep)` and an ASCII `toLowerCase`. */
module JsStrings {
  import opened Wrappers

  /** The ECMAScript WhiteSpace and LineTerminator code points: what `\s`
      matches and what `String.prototype.trim` strips. */
  predicate IsWhitespace(c: char) {
    c == '\t' || c == '\n' || c == '\U{000B}' || c == '\U{000C}' || c == '\r' || c == ' ' ||
    c == '\U{00A0}' || c == '\U{1680}' || ('\U{2000}' <= c <= '\U{200A}') ||
    c == '\U{2028}' || c == '\U{2029}' || c == '\U{202F}' || c == '\U{205F}' ||
    c == '\U{3000}' || c == '\U{FEFF}'
  }

  /** The characters a `.` in a regular expression without the `s` flag does not match. */
  predicate IsLineTerminator(c: char) {
    c == '\n' || c == '\r' || c == '\U{2028}' || c == '\U{2029}'
  }

  predicate IsAsciiLetter(c: char) { ('a' <= c <= 'z') || ('A' <= c <= 'Z') }

  predicate IsAsciiDigit(c: char) { '0' <= c <= '9' }

  /** A regular expression `^[class]*$` tested character by character. */
  function All(s: string, p: char -> bool): (r: bool)
    ensures r <==> forall i :: 0 <= i < |s| ==> p(s[i])
  {
    s == [] || (p(s[0]) && All(s[1..], p))
  }

  lemma AllAppend(a: string, b: string, p: char -> bool)
    ensures All(a + b, p) <==> All(a, p) && All(b, p)
  {
    if All(a, p) && All(b, p) {
      forall i | 0 <= i < |a + b|
        ensures p((a + b)[i])
      {
        if i < |a| { assert (a + b)[i] == a[i]; } else { assert (a + b)[i] == b[i - |a|]; }
      }
    }
    if All(a + b, p) {
      forall i | 0 <= i < |a| ensures p(a[i]) { assert (a + b)[i] == a[i]; }
      forall i | 0 <= i < |b| ensures p(b[i]) { assert (a + b)[|a| + i] == b[i]; }
    }
  }

  /** Number of characters of `s` in the class `p`. */
  function CountWhere(s: string, p: char -> bool): (n: nat)
    ensures n <= |s|
    ensures n == 0 <==> forall i :: 0 <= i < |s| ==> !p(s[i])
  {
    if s == [] then 0 else (if p(s[0]) then 1 else 0) + CountWhere(s[1..], p)
  }

  lemma {:induction false} CountWhereAppend(a: string, b: string, p: char -> bool)
    ensures CountWhere(a + b, p) == CountWhere(a, p) + CountWhere(b, p)
  {
    if a != [] {
      assert (a + b)[0] == a[0];
      assert (a + b)[1..] == a[1..] + b;
      CountWhereAppend(a[1..], b, p);
      assert CountWhere(a + b, p) == (if p(a[0]) then 1 else 0) + CountWhere(a[1..] + b, p);
    } else {
      assert a + b == b;
    }
  }

  predicate StartsWith(s: string, prefix: string) {
    |prefix| <= |s| && s[..|prefix|] == prefix
  }

  predicate OccursAt(s: string, k: nat, needle: string) {
    k + |needle| <= |s| && s[k..k + |needle|] == needle
  }

  /** `s.indexOf(needle, from)`: the first occurrence at or after `from`. */
  function IndexOfFrom(s: string, needle: string, from: nat): (r: Option<nat>)
    requires from <= |s|
    decreases |s| - from
    ensures r.Some? ==> from <= r.value && OccursAt(s, r.value, needle) &&
                        forall k :: from <= k < r.value ==> !OccursAt(s, k, needle)
    ensures r.None? ==> forall k :: from <= k ==> !OccursAt(s, k, needle)
  {
    if OccursAt(s, from, needle) then Some(from)
    else if from == |s| then None
    else IndexOfFrom(s, needle, from + 1)
  }

  /** `s.indexOf(needle)`, with `-1` as `None`. */
  function IndexOf(s: string, needle: string): (r: Option<nat>)
    ensures r.Some? ==> OccursAt(s, r.value, needle) && forall k: nat :: k < r.value ==> !OccursAt(s, k, needle)
    ensures r.None? <==> forall k: nat :: !OccursAt(s, k, needle)
  {
    IndexOfFrom(s, needle, 0)
  }

  /** `s.includes(needle)`. */
  predicate Contains(s: string, needle: string) {
    IndexOf(s, needle).Some?
  }

  /** The first position at or after `from` whose character is in `p`, or `|s|`. */
  function NextWhere(s: string, from: nat, p: char -> bool): (r: nat)
    requires from <= |s|
    decreases |s| - from
    ensures from <= r <= |s|
    ensures forall k {:trigger p(s[k])} :: from <= k < r ==> !p(s[k])
    ensures r < |s| ==> p(s[r])
  {
    if from == |s| || p(s[from]) then from else NextWhere(s, from + 1, p)
  }

  /** The position just after the last character in `p` before `upTo`, or 0. */
  function PrevWhere(s: string, upTo: nat, p: char -> bool): (r: nat)
    requires upTo <= |s|
    ensures r <= upTo
    ensures forall k :: r <= k < upTo ==> !p(s[k])
    ensures 0 < r ==> p(s[r - 1])
  {
    if upTo == 0 || p(s[upTo - 1]) then upTo else PrevWhere(s, upTo - 1, p)
  }

  /** `s.trimStart()`: the suffix left after the leading whitespace. */
  function TrimStart(s: string): (r: string)
    ensures |r| <= |s| && r == s[|s| - |r|..]
    ensures forall i :: 0 <= i < |s| - |r| ==> IsWhitespace(s[i])
    ensures r != [] ==> !IsWhitespace(r[0])
  {
    if s != [] && IsWhitespace(s[0]) then TrimStart(s[1..]) else s
  }

  /** `s.trimEnd()`: the prefix left before the trailing whitespace. */
  function TrimEnd(s: string): (r: string)
    ensures |r| <= |s| && r == s[..|r|]
    ensures forall i :: |r| <= i < |s| ==> IsWhitespace(s[i])
    ensures r != [] ==> !IsWhitespace(r[|r| - 1])
  {
    if s != [] && IsWhitespace(s[|s| - 1]) then TrimEnd(s[..|s| - 1]) else s
  }

  /** `s.trim()`. */
  function Trim(s: string): string {
    TrimEnd(TrimStart(s))
  }

  /** `s.replace(/\s+/g, rep)`: every maximal whitespace run becomes `rep`. */
  function ReplaceWhitespaceRuns(s: string, rep: string): string
    decreases |s|
  {
    if s == [] then []
    else if IsWhitespace(s[0]) then rep + ReplaceWhitespaceRuns(TrimStart(s[1..]), rep)
    else [s[0]] + ReplaceWhitespaceRuns(s[1..], rep)
  }

  /** `s.replace(/\s+/g, ' ')`. */
  function CollapseRuns(s: string): string {
    ReplaceWhitespaceRuns(s, " ")
  }

  /** `s.replace(/x/g, y)` for a single character `x`. */
  function ReplaceAllChar(s: string, x: char, y: char): (r: string)
    ensures |r| == |s|
    ensures forall i :: 0 <= i < |s| ==> r[i] == if s[i] == x then y else s[i]
  {
    if s == [] then [] else [if s[0] == x then y else s[0]] + ReplaceAllChar(s[1..], x, y)
  }

  function AsciiLowerChar(c: char): char {
    if 'A' <= c <= 'Z' then (c as int + 32) as char else c
  }

  /** `s.toLowerCase()` on the ASCII letters. */
  function AsciiLower(s: string): (r: string)
    ensures |r| == |s|
    ensures forall i :: 0 <= i < |s| ==> r[i] == AsciiLowerChar(s[i])
  {
    if s == [] then [] else [AsciiLowerChar(s[0])] + AsciiLower(s[1..])
  }

  /** The characters of `s` that are not whitespace, in order. */
  function NonWhitespace(s: string): string {
    if s == [] then [] else (if IsWhitespace(s[0]) then [] else [s[0]]) + NonWhitespace(s[1..])
  }

  lemma {:induction false} NonWhitespaceAppend(a: string, b: string)
    ensures NonWhitespace(a + b) == NonWhitespace(a) + NonWhitespace(b)
  {
    if a != [] {
      assert (a + b)[0] == a[0];
      assert (a + b)[1..] == a[1..] + b;
      NonWhitespaceAppend(a[1..], b);
      assert NonWhitespace(a + b) == (if IsWhitespace(a[0]) then [] else [a[0]]) + NonWhitespace(a[1..] + b);
    } else {
      assert a + b == b;
    }
  }

  lemma {:induction false} NonWhitespaceOfBlank(s: string)
    requires forall i :: 0 <= i < |s| ==> IsWhitespace(s[i])
    ensures NonWhitespace(s) == []
  {
    if s != [] { NonWhitespaceOfBlank(s[1..]); }
  }

  lemma {:induction false} NonWhitespaceMembers(s: string, c: char)
    ensures c in NonWhitespace(s) <==> c in s && !IsWhitespace(c)
  {
    if s != [] {
      NonWhitespaceMembers(s[1..], c);
      assert s == [s[0]] + s[1..];
    }
  }

  lemma TrimStartKeepsNonWhitespace(s: string)
    ensures NonWhitespace(TrimStart(s)) == NonWhitespace(s)
  {
    var t := TrimStart(s);
    var k := |s| - |t|;
    assert s == s[..k] + t;
    NonWhitespaceOfBlank(s[..k]);
    NonWhitespaceAppend(s[..k], t);
  }

  lemma TrimEndKeepsNonWhitespace(s: string)
    ensures NonWhitespace(TrimEnd(s)) == NonWhitespace(s)
  {
    var u := TrimEnd(s);
    assert s == u + s[|u|..];
    NonWhitespaceOfBlank(s[|u|..]);
    NonWhitespaceAppend(u, s[|u|..]);
  }

  /** Trimming removes only whitespace. */
  lemma TrimKeepsNonWhitespace(s: string)
    ensures NonWhitespace(Trim(s)) == NonWhitespace(s)
  {
    TrimStartKeepsNonWhitespace(s);
    TrimEndKeepsNonWhitespace(TrimStart(s));
  }

  /** No two whitespace characters stand next to each other. */
  ghost predicate NoAdjacentWhitespace(s: string) {
    forall i, j :: 0 <= i && j == i + 1 && j < |s| ==> !IsWhitespace(s[i]) || !IsWhitespace(s[j])
  }

  /** The shape of `trim().replace(/\s+/g, ' ')`: only plain spaces, no
      leading or trailing space, never two spaces in a row. */
  ghost predicate IsCollapsed(s: string) {
    && (forall i :: 0 <= i < |s| && IsWhitespace(s[i]) ==> s[i] == ' ')
    && (s != [] ==> !IsWhitespace(s[0]) && !IsWhitespace(s[|s| - 1]))
    && NoAdjacentWhitespace(s)
  }

  /** Replacing each run by one character never lengthens the string and
      empties only the empty string. */
  lemma {:induction false} ReplaceRunsLength(s: string, c: char)
    ensures |ReplaceWhitespaceRuns(s, [c])| <= |s|
    ensures ReplaceWhitespaceRuns(s, [c]) == [] <==> s == []
    decreases |s|
  {
    if s == [] {
    } else if IsWhitespace(s[0]) {
      ReplaceRunsLength(TrimStart(s[1..]), c);
    } else {
      ReplaceRunsLength(s[1..], c);
    }
  }

  /** Collapsing the runs into spaces keeps every other character, in order. */
  lemma {:induction false} CollapseRunsKeepsNonWhitespace(s: string)
    ensures NonWhitespace(CollapseRuns(s)) == NonWhitespace(s)
    decreases |s|
  {
    if s == [] {
    } else if IsWhitespace(s[0]) {
      var t := TrimStart(s[1..]);
      var rt := CollapseRuns(t);
      CollapseRunsKeepsNonWhitespace(t);
      TrimStartKeepsNonWhitespace(s[1..]);
      assert s == [s[0]] + s[1..];
      NonWhitespaceAppend([s[0]], s[1..]);
      NonWhitespaceAppend(" ", rt);
    } else {
      var rt := CollapseRuns(s[1..]);
      CollapseRunsKeepsNonWhitespace(s[1..]);
      assert s == [s[0]] + s[1..];
      NonWhitespaceAppend([s[0]], s[1..]);
      NonWhitespaceAppend([s[0]], rt);
    }
  }

  /** After collapsing, the only whitespace left is plain spaces. */
  lemma {:induction false} CollapseRunsOnlySpaces(s: string)
    ensures forall i :: 0 <= i < |CollapseRuns(s)| && IsWhitespace(CollapseRuns(s)[i]) ==>
                          CollapseRuns(s)[i] == ' '
    decreases |s|
  {
    if s == [] {
    } else if IsWhitespace(s[0]) {
      var rt := CollapseRuns(TrimStart(s[1..]));
      CollapseRunsOnlySpaces(TrimStart(s[1..]));
      var r := " " + rt;
      assert r == CollapseRuns(s);
      forall i | 0 <= i < |r| && IsWhitespace(r[i])
        ensures r[i] == ' '
      {
        if i == 0 {
          assert r[0] == ' ';
        } else {
          assert r[i] == rt[i - 1];
          assert IsWhitespace(rt[i - 1]);
        }
      }
    } else {
      var rt := CollapseRuns(s[1..]);
      CollapseRunsOnlySpaces(s[1..]);
      var r := [s[0]] + rt;
      assert r == CollapseRuns(s);
      forall i | 0 <= i < |r| && IsWhitespace(r[i])
        ensures r[i] == ' '
      {
        if i > 0 { assert r[i] == rt[i - 1]; }
      }
    }
  }

  /** The collapsed string starts with whitespace exactly when the input does. */
  lemma {:induction false} CollapseRunsFirst(s: string)
    ensures CollapseRuns(s) != [] ==> s != [] && (IsWhitespace(CollapseRuns(s)[0]) <==> IsWhitespace(s[0]))
  {
    if s != [] && !IsWhitespace(s[0]) {
      assert CollapseRuns(s)[0] == s[0];
    }
  }

  /** The collapsed string ends with whitespace exactly when the input does. */
  lemma {:induction false} CollapseRunsLast(s: string)
    ensures CollapseRuns(s) != [] ==>
              s != [] && (IsWhitespace(CollapseRuns(s)[|CollapseRuns(s)| - 1]) <==> IsWhitespace(s[|s| - 1]))
    decreases |s|
  {
    if s != [] {
      var t := if IsWhitespace(s[0]) then TrimStart(s[1..]) else s[1..];
      CollapseRunsLast(t);
      ReplaceRunsLength(t, ' ');
      var c := CollapseRuns(s);
      var rt := CollapseRuns(t);
      if IsWhitespace(s[0]) {
        CollapseRunsAfterRun(s, t);
      } else {
        CollapseRunsAfterChar(s, t);
      }
      if t == [] {
        assert |c| == 1;
      } else {
        assert c[|c| - 1] == rt[|rt| - 1];
      }
    }
  }

  /** A leading run: one space, then the collapsed rest after the run. */
  lemma CollapseRunsAfterRun(s: string, t: string)
    requires s != [] && IsWhitespace(s[0]) && t == TrimStart(s[1..])
    ensures CollapseRuns(s) == [' '] + CollapseRuns(t)
    ensures t != [] ==> t[|t| - 1] == s[|s| - 1]
    ensures t == [] ==> IsWhitespace(s[|s| - 1])
  {
    var u := s[1..];
    assert |s| > 1 ==> u[|u| - 1] == s[|s| - 1];
    TrimStartLast(u);
  }

  /** A leading other character is kept, then the collapsed rest. */
  lemma CollapseRunsAfterChar(s: string, t: string)
    requires s != [] && !IsWhitespace(s[0]) && t == s[1..]
    ensures CollapseRuns(s) == [s[0]] + CollapseRuns(t)
    ensures t != [] ==> t[|t| - 1] == s[|s| - 1]
    ensures t == [] ==> s[|s| - 1] == s[0]
  {
  }

  /** Trimming the start keeps the last character, or removes it only when
      it is whitespace. */
  lemma TrimStartLast(s: string)
    ensures s != [] ==> (TrimStart(s) == [] ==> IsWhitespace(s[|s| - 1]))
    ensures TrimStart(s) != [] ==> TrimStart(s)[|TrimStart(s)| - 1] == s[|s| - 1]
  {
    var r := TrimStart(s);
    if r != [] {
      assert r == s[|s| - |r|..];
      assert r[|r| - 1] == s[|s| - |r|..][|r| - 1];
    }
  }

  /** After collapsing, no two whitespace characters are adjacent. */
  lemma {:induction false} CollapseRunsNoDoubleSpace(s: string)
    ensures NoAdjacentWhitespace(CollapseRuns(s))
    decreases |s|
  {
    if s == [] {
    } else if IsWhitespace(s[0]) {
      var t := TrimStart(s[1..]);
      var rt := CollapseRuns(t);
      CollapseRunsNoDoubleSpace(t);
      CollapseRunsFirst(t);
      ReplaceRunsLength(t, ' ');
      var r := " " + rt;
      assert r == CollapseRuns(s);
      assert t != [] ==> rt != [] && !IsWhitespace(rt[0]);
      forall i, j | 0 <= i && j == i + 1 && j < |r|
        ensures !IsWhitespace(r[i]) || !IsWhitespace(r[j])
      {
        if i == 0 { assert r[1] == rt[0]; } else { assert r[i] == rt[i - 1] && r[j] == rt[j - 1]; }
      }
    } else {
      var rt := CollapseRuns(s[1..]);
      CollapseRunsNoDoubleSpace(s[1..]);
      var r := [s[0]] + rt;
      assert r == CollapseRuns(s);
      forall i, j | 0 <= i && j == i + 1 && j < |r|
        ensures !IsWhitespace(r[i]) || !IsWhitespace(r[j])
      {
        if i == 0 {
          assert r[0] == s[0];
        } else {
          assert r[i] == rt[i - 1] && r[j] == rt[j - 1];
        }
      }
    }
  }

  /** A string already in collapsed form is left alone by the collapse. */
  lemma {:induction false} CollapseRunsFixesCollapsed(s: string)
    requires forall i :: 0 <= i < |s| && IsWhitespace(s[i]) ==> s[i] == ' '
    requires NoAdjacentWhitespace(s)
    ensures CollapseRuns(s) == s
  {
    if s != [] {
      NoAdjacentWhitespaceTail(s);
      CollapseRunsFixesCollapsed(s[1..]);
      if IsWhitespace(s[0]) {
        assert TrimStart(s[1..]) == s[1..];
      }
    }
  }

  /** Dropping the first character keeps whitespace apart, and a leading
      whitespace character is followed by another character or nothing. */
  lemma NoAdjacentWhitespaceTail(s: string)
    requires s != [] && NoAdjacentWhitespace(s)
    ensures NoAdjacentWhitespace(s[1..])
    ensures IsWhitespace(s[0]) && |s| > 1 ==> !IsWhitespace(s[1..][0])
  {
    var t := s[1..];
    forall i, j | 0 <= i && j == i + 1 && j < |t|
      ensures !IsWhitespace(t[i]) || !IsWhitespace(t[j])
    {
      assert t[i] == s[i + 1] && t[j] == s[j + 1];
    }
    if |s| > 1 {
      assert t[0] == s[1];
    }
  }

  /** On a string with no two adjacent whitespace characters, replacing the
      runs by one character `c` replaces each whitespace character by `c`. */
  lemma {:induction false} ReplaceSingleRunsPointwise(s: string, c: char)
    requires NoAdjacentWhitespace(s)
    ensures |ReplaceWhitespaceRuns(s, [c])| == |s|
    ensures forall i :: 0 <= i < |s| ==> ReplaceWhitespaceRuns(s, [c])[i] == if IsWhitespace(s[i]) then c else s[i]
  {
    if s != [] {
      var t := s[1..];
      NoAdjacentWhitespaceTail(s);
      ReplaceSingleRunsPointwise(t, c);
      var rt := ReplaceWhitespaceRuns(t, [c]);
      var r := ReplaceWhitespaceRuns(s, [c]);
      var head := if IsWhitespace(s[0]) then c else s[0];
      if IsWhitespace(s[0]) {
        assert TrimStart(t) == t;
      }
      assert r == [head] + rt;
      forall i | 0 <= i < |s| ensures r[i] == if IsWhitespace(s[i]) then c else s[i] {
        if i > 0 {
          assert r[i] == rt[i - 1];
        }
      }
    }
  }

  /** Trimming a string that neither starts nor ends with whitespace is the identity. */
  lemma TrimFixesUnpadded(s: string)
    requires s != [] ==> !IsWhitespace(s[0]) && !IsWhitespace(s[|s| - 1])
    ensures Trim(s) == s
  {
  }

  /** Trimming leaves nothing exactly when the string is all whitespace. */
  lemma TrimEmptyIffBlank(s: string)
    ensures Trim(s) == [] <==> forall i :: 0 <= i < |s| ==> IsWhitespace(s[i])
  {
    var t := TrimStart(s);
    if t != [] {
      assert !IsWhitespace(t[0]);
      assert s[|s| - |t|] == t[0];
    }
  }

  /** `trim().replace(/\s+/g, ' ')` yields the words of the text joined by
      single spaces: the collapsed form, with every other character kept in
      order, never longer than the text. */
  lemma CollapseTrimmed(s: string)
    ensures CollapseRuns(Trim(s)) == JoinWords(Words(s))
    ensures IsCollapsed(CollapseRuns(Trim(s)))
    ensures NonWhitespace(CollapseRuns(Trim(s))) == NonWhitespace(s)
    ensures |CollapseRuns(Trim(s))| <= |s|
  {
    var t := Trim(s);
    CollapseTrimmedShape(t);
    TrimKeepsNonWhitespace(s);
    CollapseRunsKeepsNonWhitespace(t);
    WordsOfTrim(s);
    WordsOfCollapse(t);
    CollapsedIsJoinedWords(CollapseRuns(t));
  }

  /** Collapsing a trimmed text gives the collapsed form, never longer. */
  lemma CollapseTrimmedShape(t: string)
    requires t != [] ==> !IsWhitespace(t[0]) && !IsWhitespace(t[|t| - 1])
    ensures IsCollapsed(CollapseRuns(t))
    ensures |CollapseRuns(t)| <= |t|
  {
    CollapseRunsOnlySpaces(t);
    CollapseRunsNoDoubleSpace(t);
    CollapseRunsFirst(t);
    CollapseRunsLast(t);
    ReplaceRunsLength(t, ' ');
  }

  // ------------------------------------------------------------------ words

  /** The words of `s`: its maximal runs of characters other than
      whitespace, in order. Defined one character at a time: a character
      that is not whitespace starts a new word, unless the next character
      continues the same run. */
  function Words(s: string): (r: seq<string>)
    ensures s != [] && !IsWhitespace(s[0]) ==> r != []
    decreases |s|
  {
    if s == [] then []
    else if IsWhitespace(s[0]) then Words(s[1..])
    else
      var w := Words(s[1..]);
      if |s| > 1 && !IsWhitespace(s[1]) then [[s[0]] + w[0]] + w[1..]
      else [[s[0]]] + w
  }

  /** The words joined by single spaces. */
  function JoinWords(ws: seq<string>): string
    decreases |ws|
  {
    if ws == [] then []
    else if |ws| == 1 then ws[0]
    else ws[0] + " " + JoinWords(ws[1..])
  }

  /** Whitespace before a string adds no word. */
  lemma {:induction false} WordsAfterBlank(b: string, s: string)
    requires forall i :: 0 <= i < |b| ==> IsWhitespace(b[i])
    ensures Words(b + s) == Words(s)
    decreases |b|
  {
    if b != [] {
      assert (b + s)[1..] == b[1..] + s;
      WordsAfterBlank(b[1..], s);
    } else {
      assert b + s == s;
    }
  }

  /** Whitespace after a string adds no word. */
  lemma {:induction false} WordsBeforeBlank(s: string, b: string)
    requires forall i :: 0 <= i < |b| ==> IsWhitespace(b[i])
    ensures Words(s + b) == Words(s)
    decreases |s|
  {
    if s == [] {
      assert s + b == b;
      WordsAfterBlank(b, []);
      assert b + [] == b;
    } else {
      assert (s + b)[0] == s[0];
      assert (s + b)[1..] == s[1..] + b;
      WordsBeforeBlank(s[1..], b);
      if |s| > 1 {
        assert (s + b)[1] == s[1];
      }
    }
  }

  /** Trimming keeps the words. */
  lemma WordsOfTrim(s: string)
    ensures Words(Trim(s)) == Words(s)
  {
    WordsOfTrimStart(s);
    WordsOfTrimEnd(TrimStart(s));
  }

  /** Dropping the leading whitespace keeps the words. */
  lemma WordsOfTrimStart(s: string)
    ensures Words(TrimStart(s)) == Words(s)
  {
    var t := TrimStart(s);
    var lead := s[..|s| - |t|];
    assert s == lead + t;
    forall i | 0 <= i < |lead| ensures IsWhitespace(lead[i]) {
      assert lead[i] == s[i];
    }
    WordsAfterBlank(lead, t);
  }

  /** Dropping the trailing whitespace keeps the words. */
  lemma WordsOfTrimEnd(t: string)
    ensures Words(TrimEnd(t)) == Words(t)
  {
    var u := TrimEnd(t);
    var trail := t[|u|..];
    assert t == u + trail;
    forall i | 0 <= i < |trail| ensures IsWhitespace(trail[i]) {
      assert trail[i] == t[|u| + i];
    }
    WordsBeforeBlank(u, trail);
  }

  /** Replacing each whitespace run by one space keeps the words. */
  lemma {:induction false} WordsOfCollapse(s: string)
    ensures Words(CollapseRuns(s)) == Words(s)
    decreases |s|
  {
    if s == [] {
    } else if IsWhitespace(s[0]) {
      var t := TrimStart(s[1..]);
      WordsOfCollapse(t);
      CollapseRunsAfterRun(s, t);
      assert (" " + CollapseRuns(t))[1..] == CollapseRuns(t);
      assert s[1..] == s[1..][..|s[1..]| - |t|] + t;
      WordsAfterBlank(s[1..][..|s[1..]| - |t|], t);
    } else {
      var t := s[1..];
      var rt := CollapseRuns(t);
      WordsOfCollapse(t);
      CollapseRunsAfterChar(s, t);
      CollapseRunsFirst(t);
      ReplaceRunsLength(t, ' ');
      var c := [s[0]] + rt;
      assert c[1..] == rt;
      if |s| > 1 {
        assert c[1] == rt[0] && s[1] == t[0];
      }
    }
  }

  /** A character glued to the first word of a list. */
  lemma JoinWordsExtend(c: char, ws: seq<string>)
    requires ws != []
    ensures JoinWords([[c] + ws[0]] + ws[1..]) == [c] + JoinWords(ws)
  {
    var vs := [[c] + ws[0]] + ws[1..];
    assert vs[1..] == ws[1..];
  }

  /** A string in collapsed form is its own words joined by single spaces. */
  lemma {:induction false} CollapsedIsJoinedWords(s: string)
    requires IsCollapsed(s)
    ensures JoinWords(Words(s)) == s
    decreases |s|
  {
    if |s| == 1 {
      assert Words(s[1..]) == [];
    } else if |s| > 1 {
      var t := s[1..];
      NoAdjacentWhitespaceTail(s);
      if !IsWhitespace(s[1]) {
        assert t[0] == s[1] && t[|t| - 1] == s[|s| - 1];
        CollapsedIsJoinedWords(t);
        JoinWordsExtend(s[0], Words(t));
        assert s == [s[0]] + t;
      } else {
        var u := s[2..];
        NoAdjacentWhitespaceTail(t);
        assert t[1..] == u;
        assert u[0] == s[2] && u[|u| - 1] == s[|s| - 1];
        assert Words(t) == Words(u);
        CollapsedIsJoinedWords(u);
        var ws := [[s[0]]] + Words(u);
        assert ws[1..] == Words(u);
        assert s == [s[0]] + " " + u;
      }
    }
  }

  /** Every word is non-empty and holds no whitespace. */
  lemma {:induction false} WordsAreRuns(s: string)
    ensures forall n :: 0 <= n < |Words(s)| ==> Words(s)[n] != []
    ensures forall n, j :: 0 <= n < |Words(s)| && 0 <= j < |Words(s)[n]| ==> !IsWhitespace(Words(s)[n][j])
    decreases |s|
  {
    if s != [] {
      WordsAreRuns(s[1..]);
      var w := Words(s[1..]);
      if !IsWhitespace(s[0]) {
        var ws := Words(s);
        if |s| > 1 && !IsWhitespace(s[1]) {
          assert ws == [[s[0]] + w[0]] + w[1..];
          forall n, j | 0 <= n < |ws| && 0 <= j < |ws[n]| ensures !IsWhitespace(ws[n][j]) {
            if n == 0 {
              if j > 0 { assert ws[0][j] == w[0][j - 1]; }
            } else {
              assert ws[n] == w[n];
            }
          }
        } else {
          assert ws == [[s[0]]] + w;
          forall n, j | 0 <= n < |ws| && 0 <= j < |ws[n]| ensures !IsWhitespace(ws[n][j]) {
            if n > 0 { assert ws[n] == w[n - 1]; }
          }
        }
      }
    }
  }
}
