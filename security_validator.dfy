/** The input validation layer (`SecurityValidator` in
    src/security-validator.ts): allow-list validators for titles, prefixes and
    directory names, the fail-closed title sanitiser, the escaper for
    regular-expression syntax characters, the path validator and the builder
    of record file names.

    Every member is a total function. The two things the source reads from
    its host are parameters here: the workspace roots (`workspaceFolders`,
    each given by its `fsPath`) and the current date. */
module SecurityValidator {
  import opened Wrappers
  import opened JsStrings

  const MaxTitleLength := 100
  const MaxPrefixLength := 20
  const MaxDirectoryNameLength := 50
  const MaxPathLength := 500
  /** The prefix of generated file names when the given one is refused.
      The scanner's pattern falls back to the same text, which the source
      writes out separately (`AdrRegex.FallbackPrefix`). */
  const DefaultPrefix := "adr_"

  /** `[\x00-\x1F\x7F]` */
  predicate IsControl(c: char) {
    c <= '\U{001F}' || c == '\U{007F}'
  }

  /** `[a-zA-Z0-9\s_-]` */
  predicate IsTitleChar(c: char) {
    IsAsciiLetter(c) || IsAsciiDigit(c) || IsWhitespace(c) || c == '_' || c == '-'
  }

  /** `[a-zA-Z0-9_-]` */
  predicate IsSafeNameChar(c: char) {
    IsAsciiLetter(c) || IsAsciiDigit(c) || c == '_' || c == '-'
  }

  // ---------------------------------------------------------------- titles

  /** `validateAdrTitle`: refuse the empty title, then any control character,
      then anything outside the allow-list or longer than 100 characters. */
  function ValidateAdrTitle(title: string): (ok: bool)
    ensures ok <==> && 1 <= |title| <= MaxTitleLength
                    && forall i :: 0 <= i < |title| ==> IsTitleChar(title[i]) && !IsControl(title[i])
  {
    if title == [] then false
    else if !All(title, c => !IsControl(c)) then false
    else All(title, IsTitleChar) && 1 <= |title| && |title| <= MaxTitleLength
  }

  /** `sanitizeAdrTitle`: fail-closed; a title that does not validate gives
      `None`, a valid one is trimmed and its whitespace runs collapsed. */
  function SanitizeAdrTitle(title: string): (r: Option<string>)
    ensures r.None? <==> !ValidateAdrTitle(title)
    ensures r.Some? ==> r.value == JoinWords(Words(title))
    ensures r.Some? ==> && IsCollapsed(r.value)
                        && NonWhitespace(r.value) == NonWhitespace(title)
                        && |r.value| <= |title|
  {
    if !ValidateAdrTitle(title) then None
    else
      CollapseTrimmed(title);
      Some(CollapseRuns(Trim(title)))
  }

  /** A sanitised title that is not empty is itself a valid title. */
  lemma SanitizedTitleIsValid(title: string)
    requires SanitizeAdrTitle(title).Some? && SanitizeAdrTitle(title).value != []
    ensures ValidateAdrTitle(SanitizeAdrTitle(title).value)
  {
    var s := SanitizeAdrTitle(title).value;
    forall i | 0 <= i < |s|
      ensures IsTitleChar(s[i]) && !IsControl(s[i])
    {
      if !IsWhitespace(s[i]) {
        NonWhitespaceMembers(s, s[i]);
        NonWhitespaceMembers(title, s[i]);
      }
    }
  }

  /** Sanitising a non-empty sanitised title changes nothing. */
  lemma SanitizeIdempotent(title: string)
    requires SanitizeAdrTitle(title).Some? && SanitizeAdrTitle(title).value != []
    ensures SanitizeAdrTitle(SanitizeAdrTitle(title).value) == SanitizeAdrTitle(title)
  {
    var s := SanitizeAdrTitle(title).value;
    SanitizedTitleIsValid(title);
    TrimFixesUnpadded(s);
    CollapseRunsFixesCollapsed(s);
  }

  /** The non-empty case is needed: a blank title passes validation and
      sanitises to the empty title, which validation then refuses. */
  lemma SanitizeBlankOnce()
    ensures SanitizeAdrTitle("   ") == Some("")
    ensures SanitizeAdrTitle("") == None
  {
  }

  /** A valid title sanitises to the empty string exactly when it is all
      whitespace (such a title passes `validateAdrTitle`). */
  lemma SanitizeBlankTitle(title: string)
    requires ValidateAdrTitle(title)
    ensures SanitizeAdrTitle(title) == Some([]) <==> forall i :: 0 <= i < |title| ==> IsWhitespace(title[i])
  {
    TrimEmptyIffBlank(title);
    ReplaceRunsLength(Trim(title), ' ');
  }

  // ------------------------------------------------------- pattern escaping

  /** `[.*+?^${}()|[\]\\-]`: the characters `escapeRegex` escapes. */
  predicate IsRegexSyntaxChar(c: char) {
    c in ".*+?^${}()|[]\\-"
  }

  /** `escapeRegex`: a backslash before every syntax character. */
  function EscapeRegex(s: string): (r: string)
    ensures |r| == |s| + CountWhere(s, IsRegexSyntaxChar)
  {
    if s == [] then []
    else (if IsRegexSyntaxChar(s[0]) then ['\\', s[0]] else [s[0]]) + EscapeRegex(s[1..])
  }

  /** The text a pattern made only of ordinary characters and escaped syntax
      characters stands for (`\.` stands for `.`); `None` as soon as the
      pattern uses a syntax character as an operator. */
  function PatternLiteral(p: string): Option<string>
  {
    if p == [] then Some([])
    else if p[0] == '\\' then
      if |p| >= 2 && IsRegexSyntaxChar(p[1]) then
        match PatternLiteral(p[2..])
        case Some(t) => Some([p[1]] + t)
        case None => None
      else None
    else if IsRegexSyntaxChar(p[0]) then None
    else
      match PatternLiteral(p[1..])
      case Some(t) => Some([p[0]] + t)
      case None => None
  }

  /** The escaped text, read as a pattern, stands for exactly the original text. */
  lemma {:induction false} EscapeRegexRoundTrip(s: string)
    ensures PatternLiteral(EscapeRegex(s)) == Some(s)
  {
    if s != [] {
      EscapeRegexRoundTrip(s[1..]);
      var e := EscapeRegex(s[1..]);
      if IsRegexSyntaxChar(s[0]) {
        var p := ['\\', s[0]] + e;
        assert EscapeRegex(s) == p;
        assert p[0] == '\\' && p[1] == s[0] && |p| >= 2;
        assert p[2..] == e;
        assert [s[0]] + s[1..] == s;
      } else {
        assert s[0] != '\\';
        assert EscapeRegex(s) == [s[0]] + e;
        assert ([s[0]] + e)[1..] == e;
        assert [s[0]] + s[1..] == s;
      }
    }
  }

  /** Text without syntax characters comes back unchanged. */
  lemma {:induction false} EscapeRegexPlain(s: string)
    requires forall i :: 0 <= i < |s| ==> !IsRegexSyntaxChar(s[i])
    ensures EscapeRegex(s) == s
  {
    if s != [] {
      EscapeRegexPlain(s[1..]);
    }
  }

  // ------------------------------------------------------------------ paths

  /** `normalizePath`: every backslash becomes a slash. */
  function NormalizePath(filePath: string): (r: string)
    ensures |r| == |filePath| && '\\' !in r
    ensures forall i :: 0 <= i < |filePath| ==> r[i] == if filePath[i] == '\\' then '/' else filePath[i]
  {
    ReplaceAllChar(filePath, '\\', '/')
  }

  /** Normalising twice is normalising once. */
  lemma NormalizePathIdempotent(filePath: string)
    ensures NormalizePath(NormalizePath(filePath)) == NormalizePath(filePath)
  {
  }

  /** `path.isAbsolute` on a POSIX host. */
  predicate IsAbsolute(n: string) {
    StartsWith(n, "/")
  }

  /** `/^[A-Z]:<sep>/` */
  predicate HasDrivePrefix(n: string, sep: char) {
    |n| >= 3 && 'A' <= n[0] <= 'Z' && n[1] == ':' && n[2] == sep
  }

  /** The deny-list of lines 85-97, tested on the normalised path. */
  predicate IsDeniedPath(n: string) {
    Contains(n, "..") ||
    Contains(n, "~") ||
    StartsWith(n, "/etc/") ||
    StartsWith(n, "/var/") ||
    StartsWith(n, "/usr/") ||
    StartsWith(n, "/bin/") ||
    StartsWith(n, "/sbin/") ||
    StartsWith(n, "/tmp/") ||
    StartsWith(n, "/dev/") ||
    StartsWith(n, "/proc/") ||
    StartsWith(n, "/sys/") ||
    Contains(n, "<script>") ||
    Contains(n, "alert(")
  }

  /** What the path validator accepts when no workspace folder is open. */
  predicate AcceptedWithoutWorkspace(n: string) {
    StartsWith(n, "/test/") ||
    StartsWith(n, "/some/") ||
    StartsWith(n, "test/") ||
    StartsWith(n, "some/") ||
    HasDrivePrefix(n, '/') ||
    HasDrivePrefix(n, '\\') ||
    !IsAbsolute(n)
  }

  /** The loop over the workspace folders: some folder path, normalised, is
      a prefix of the path when both are lower-cased. */
  function UnderSomeRoot(n: string, roots: seq<string>): (r: bool)
    ensures r <==> exists i :: 0 <= i < |roots| && StartsWith(AsciiLower(n), AsciiLower(NormalizePath(roots[i])))
  {
    if roots == [] then false
    else if StartsWith(AsciiLower(n), AsciiLower(NormalizePath(roots[0]))) then true
    else
      var rest := UnderSomeRoot(n, roots[1..]);
      assert rest ==> exists i :: 0 <= i < |roots| && StartsWith(AsciiLower(n), AsciiLower(NormalizePath(roots[i]))) by {
        if rest {
          var j :| 0 <= j < |roots[1..]| && StartsWith(AsciiLower(n), AsciiLower(NormalizePath(roots[1..][j])));
          assert roots[1..][j] == roots[j + 1];
        }
      }
      assert (exists i :: 0 <= i < |roots| && StartsWith(AsciiLower(n), AsciiLower(NormalizePath(roots[i])))) ==> rest by {
        if exists i :: 0 <= i < |roots| && StartsWith(AsciiLower(n), AsciiLower(NormalizePath(roots[i]))) {
          var j :| 0 <= j < |roots| && StartsWith(AsciiLower(n), AsciiLower(NormalizePath(roots[j])));
          assert j != 0;
          assert roots[1..][j - 1] == roots[j];
        }
      }
      rest
  }

  /** `validateFilePath`. Without workspace roots the test-mode fallback
      amounts to: relative, or under `/test/` or `/some/`. With roots, the
      path must lie under one of them, compared case-insensitively. */
  function ValidateFilePath(filePath: string, workspaceRoots: seq<string>): (ok: bool)
    ensures |workspaceRoots| == 0 ==>
      (ok <==> && 1 <= |filePath| <= MaxPathLength
               && !IsDeniedPath(NormalizePath(filePath))
               && (|| !IsAbsolute(NormalizePath(filePath))
                   || StartsWith(NormalizePath(filePath), "/test/")
                   || StartsWith(NormalizePath(filePath), "/some/")))
    ensures |workspaceRoots| > 0 ==>
      (ok <==> && 1 <= |filePath| <= MaxPathLength
               && !IsDeniedPath(NormalizePath(filePath))
               && exists i :: 0 <= i < |workspaceRoots| &&
                    StartsWith(AsciiLower(NormalizePath(filePath)), AsciiLower(NormalizePath(workspaceRoots[i]))))
  {
    if filePath == [] then false
    else if |filePath| > MaxPathLength then false
    else
      var normalizedPath := NormalizePath(filePath);
      if IsDeniedPath(normalizedPath) then false
      else if |workspaceRoots| == 0 then
        assert AcceptedWithoutWorkspace(normalizedPath) <==>
               !IsAbsolute(normalizedPath) || StartsWith(normalizedPath, "/test/") || StartsWith(normalizedPath, "/some/") by {
          var n := normalizedPath;
          if StartsWith(n, "test/") || StartsWith(n, "some/") || HasDrivePrefix(n, '/') || HasDrivePrefix(n, '\\') {
            assert n[..1] != "/" by { assert n[..1][0] == n[0]; }
          }
        }
        AcceptedWithoutWorkspace(normalizedPath)
      else
        UnderSomeRoot(normalizedPath, workspaceRoots)
  }

  /** A needle without backslashes found in a path is still found, at the
      same place, once the path is normalised. */
  lemma NormalizeKeepsOccurrence(filePath: string, k: nat, needle: string)
    requires '\\' !in needle && OccursAt(filePath, k, needle)
    ensures OccursAt(NormalizePath(filePath), k, needle)
  {
    var n := NormalizePath(filePath);
    forall j | 0 <= j < |needle|
      ensures n[k + j] == needle[j]
    {
      assert filePath[k + j] == filePath[k..k + |needle|][j];
    }
    assert n[k..k + |needle|] == needle;
  }

  lemma NormalizeKeepsContains(filePath: string, needle: string)
    requires '\\' !in needle
    ensures Contains(filePath, needle) ==> Contains(NormalizePath(filePath), needle)
  {
    if Contains(filePath, needle) {
      NormalizeKeepsOccurrence(filePath, IndexOf(filePath, needle).value, needle);
    }
  }

  /** An accepted path, as the caller wrote it, has no parent-directory or
      home shorthand and no script marker, whatever its separators. */
  lemma AcceptedPathIsSafe(filePath: string, workspaceRoots: seq<string>)
    requires ValidateFilePath(filePath, workspaceRoots)
    ensures 1 <= |filePath| <= MaxPathLength
    ensures !Contains(filePath, "..") && !Contains(filePath, "~")
    ensures !Contains(filePath, "<script>") && !Contains(filePath, "alert(")
  {
    NormalizeKeepsContains(filePath, "..");
    NormalizeKeepsContains(filePath, "~");
    NormalizeKeepsContains(filePath, "<script>");
    NormalizeKeepsContains(filePath, "alert(");
  }

  /** Traversal is refused whatever the workspace. */
  lemma TraversalRefused(filePath: string, workspaceRoots: seq<string>)
    requires Contains(filePath, "..") || Contains(filePath, "~")
    ensures !ValidateFilePath(filePath, workspaceRoots)
  {
    if ValidateFilePath(filePath, workspaceRoots) {
      AcceptedPathIsSafe(filePath, workspaceRoots);
    }
  }

  // ------------------------------------------------- prefixes and folders

  /** `validateAdrPrefix` */
  function ValidateAdrPrefix(prefix: string): (ok: bool)
    ensures ok <==> 1 <= |prefix| <= MaxPrefixLength && forall i :: 0 <= i < |prefix| ==> IsSafeNameChar(prefix[i])
  {
    if prefix == [] then false
    else All(prefix, IsSafeNameChar) && 1 <= |prefix| && |prefix| <= MaxPrefixLength
  }

  /** `validateAdrDirectoryName` */
  function ValidateAdrDirectoryName(dirName: string): (ok: bool)
    ensures ok <==> 1 <= |dirName| <= MaxDirectoryNameLength && forall i :: 0 <= i < |dirName| ==> IsSafeNameChar(dirName[i])
  {
    if dirName == [] then false
    else All(dirName, IsSafeNameChar) && 1 <= |dirName| && |dirName| <= MaxDirectoryNameLength
  }

  /** The prefix rule is the directory-name rule with the tighter bound. */
  lemma PrefixRuleIsDirectoryRuleWithinTwenty(s: string)
    ensures ValidateAdrPrefix(s) <==> ValidateAdrDirectoryName(s) && |s| <= MaxPrefixLength
  {
  }

  /** A valid prefix holds no path separator, no dot and no whitespace. */
  lemma ValidPrefixHasNoSeparator(prefix: string)
    requires ValidateAdrPrefix(prefix)
    ensures '/' !in prefix && '\\' !in prefix && '.' !in prefix
    ensures forall i :: 0 <= i < |prefix| ==> !IsWhitespace(prefix[i])
  {
  }

  // ------------------------------------------------------------ file names

  datatype FileNameError = InvalidTitle

  /** `/^\d{8}$/` */
  predicate IsEightDigitDate(date: string) {
    |date| == 8 && All(date, IsAsciiDigit)
  }

  /** The prefix `generateSecureFileName` uses: the given one if valid, else `adr_`. */
  function FilePrefix(prefix: string): (p: string)
    ensures ValidateAdrPrefix(p)
    ensures ValidateAdrPrefix(prefix) ==> p == prefix
    ensures !ValidateAdrPrefix(prefix) ==> p == DefaultPrefix
  {
    if ValidateAdrPrefix(prefix) then prefix else DefaultPrefix
  }

  /** `generateSecureFileName(title, prefix, date)` with the current date
      passed in. A bad prefix or date is replaced; a title that does not
      sanitise to a non-empty string raises. */
  function GenerateSecureFileName(title: string, prefix: string, date: string, currentDate: string)
    : (r: Result<string, FileNameError>)
    ensures r.Failure? <==> !ValidateAdrTitle(title) || forall i :: 0 <= i < |title| ==> IsWhitespace(title[i])
  {
    var sanitizedTitle := SanitizeAdrTitle(title);
    var sanitizedPrefix := FilePrefix(prefix);
    var sanitizedDate := if IsEightDigitDate(date) then date else currentDate;
    if sanitizedTitle.None? || sanitizedTitle.value == [] then
      if sanitizedTitle.Some? then SanitizeBlankTitle(title); Failure(InvalidTitle)
      else Failure(InvalidTitle)
    else
      assert ValidateAdrTitle(title);
      SanitizeBlankTitle(title);
      var fileName := ReplaceWhitespaceRuns(sanitizedTitle.value, "_");
      Success(sanitizedPrefix + fileName + "_" + sanitizedDate + ".md")
  }

  /** The name is `<prefix><title>_<date>.md`, where the prefix is valid,
      the date is the given one when it has eight digits, and the title part
      is the sanitised title with each space turned into `_`. */
  lemma FileNameShape(title: string, prefix: string, date: string, currentDate: string)
    requires GenerateSecureFileName(title, prefix, date, currentDate).Success?
    ensures exists t: string ::
      && GenerateSecureFileName(title, prefix, date, currentDate).value
         == FilePrefix(prefix) + t + "_" + (if IsEightDigitDate(date) then date else currentDate) + ".md"
      && |t| == |SanitizeAdrTitle(title).value|
      && forall i :: 0 <= i < |t| ==>
           t[i] == if SanitizeAdrTitle(title).value[i] == ' ' then '_' else SanitizeAdrTitle(title).value[i]
  {
    var st := SanitizeAdrTitle(title);
    assert st.Some? && st.value != [];
    var s := st.value;
    var d := if IsEightDigitDate(date) then date else currentDate;
    ReplaceSingleRunsPointwise(s, '_');
    assert "_" == ['_'];
    var t := ReplaceWhitespaceRuns(s, "_");
    assert GenerateSecureFileName(title, prefix, date, currentDate) == Success(FilePrefix(prefix) + t + "_" + d + ".md");
    forall i | 0 <= i < |t|
      ensures t[i] == if s[i] == ' ' then '_' else s[i]
    {
      assert IsWhitespace(s[i]) ==> s[i] == ' ';
    }
  }

  /** A name whose stem is made of `[A-Za-z0-9_-]` and which ends in `.md`
      holds no `..`. */
  lemma SafeStemHasNoDoubleDot(name: string)
    requires |name| >= 3 && name[|name| - 3..] == ".md"
    requires forall i :: 0 <= i < |name| - 3 ==> IsSafeNameChar(name[i])
    ensures !Contains(name, "..")
  {
    forall k: nat | k + 2 <= |name|
      ensures !OccursAt(name, k, "..")
    {
      if k < |name| - 3 {
        assert IsSafeNameChar(name[k]);
        assert name[k..k + 2][0] == name[k];
      } else {
        assert name[k + 1] == name[|name| - 3..][k + 1 - (|name| - 3)];
        assert name[k..k + 2][1] == name[k + 1];
      }
    }
  }

  /** A prefix, a title part and a date, all made of name characters, give a
      name of 14 to 132 characters whose stem is made of name characters. */
  lemma SafePartsGiveSafeName(p: string, t: string, d: string)
    requires ValidateAdrPrefix(p) && IsEightDigitDate(d)
    requires 1 <= |t| <= MaxTitleLength && All(t, IsSafeNameChar)
    ensures 14 <= |p + t + "_" + d + ".md"| <= MaxPrefixLength + MaxTitleLength + 12
    ensures (p + t + "_" + d + ".md")[|p + t + "_" + d + ".md"| - 3..] == ".md"
    ensures forall i :: 0 <= i < |p + t + "_" + d + ".md"| - 3 ==> IsSafeNameChar((p + t + "_" + d + ".md")[i])
    ensures !Contains(p + t + "_" + d + ".md", "..")
  {
    forall i | 0 <= i < |d| ensures IsSafeNameChar(d[i]) { assert IsAsciiDigit(d[i]); }
    AllAppend(p, t, IsSafeNameChar);
    AllAppend(p + t, "_", IsSafeNameChar);
    AllAppend(p + t + "_", d, IsSafeNameChar);
    var stem := p + t + "_" + d;
    var name := stem + ".md";
    forall i | 0 <= i < |name| - 3 ensures IsSafeNameChar(name[i]) { assert name[i] == stem[i]; }
    assert name[|name| - 3..] == ".md";
    SafeStemHasNoDoubleDot(name);
  }

  /** With a well-formed current date, every generated name is made of
      `[A-Za-z0-9_-]` followed by `.md`: no separator, no whitespace, no
      `..`, and at most 132 characters. */
  lemma FileNameIsSafe(title: string, prefix: string, date: string, currentDate: string)
    requires GenerateSecureFileName(title, prefix, date, currentDate).Success?
    requires IsEightDigitDate(currentDate)
    ensures 14 <= |GenerateSecureFileName(title, prefix, date, currentDate).value| <= MaxPrefixLength + MaxTitleLength + 12
    ensures GenerateSecureFileName(title, prefix, date, currentDate).value[|GenerateSecureFileName(title, prefix, date, currentDate).value| - 3..] == ".md"
    ensures forall i :: 0 <= i < |GenerateSecureFileName(title, prefix, date, currentDate).value| - 3 ==>
                          IsSafeNameChar(GenerateSecureFileName(title, prefix, date, currentDate).value[i])
    ensures !Contains(GenerateSecureFileName(title, prefix, date, currentDate).value, "..")
  {
    SanitizeBlankTitle(title);
    var s := SanitizeAdrTitle(title).value;
    SanitizedTitleIsValid(title);
    var d := if IsEightDigitDate(date) then date else currentDate;
    FileNameShape(title, prefix, date, currentDate);
    var t :| GenerateSecureFileName(title, prefix, date, currentDate).value == FilePrefix(prefix) + t + "_" + d + ".md"
             && |t| == |s| && forall i :: 0 <= i < |t| ==> t[i] == if s[i] == ' ' then '_' else s[i];
    forall i | 0 <= i < |t|
      ensures IsSafeNameChar(t[i])
    {
      assert IsTitleChar(s[i]);
      assert IsWhitespace(s[i]) ==> s[i] == ' ';
    }
    SafePartsGiveSafeName(FilePrefix(prefix), t, d);
  }
}
