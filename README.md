# ADR Utilities: validation layer and reference navigation, in Dafny

This project models the core of the ADR Utilities editor extension. The extension keeps
architecture decision records (ADRs) as Markdown files and links references to them in any open
document. The model covers three parts:

- **The input validator** (`SecurityValidator`, in `security_validator.dfy`). It holds the
  allow-list checks for titles, prefixes and directory names, and the fail-closed title sanitiser.
  It also holds the escaper for regular-expression syntax characters, path normalisation, and the
  path validator with its deny-list and workspace containment. Finally, it builds record file
  names of the form `<prefix><title>_<YYYYMMDD>.md`.
- **The reference scanner and its cache** (`AdrRegex` in `adr_regex.dfy`, and
  `AdrCodelensNavigation` in `navigation_provider.dfy`):
  - The pattern `.?<prefix>.+.md` is built from the configured prefix, falling back to `adr_`.
  - The global `exec` loop registers at most 1000 matches.
  - Each match whose range is found becomes a lens. A match whose text is not found on its line,
    or at whose column the editor gives no word range, is dropped.
  - A per-document cache is keyed by the document URI and stamped with the document version. After
    a cache miss, a quick `includes` test skips the scan and caches an empty entry. The periodic
    cleanup wipes the cache.
  - Each lens is resolved to the first listed ADR path that contains its trimmed text.
- **Separator conversion** (`AdrFilePath` in `adr_filepath.dfy`).

`js_strings.dfy` (`JsStrings`) defines the JavaScript string built-ins the source relies on. These
are the `\s` class, `trim`, `replace(/\s+/g, …)`, `indexOf`, `includes`, `startsWith` and
`toLowerCase`. `wrappers.dfy` defines `Option` and `Result`.

Four things the source reads from its host are parameters of the model:

- the workspace folders;
- the current date;
- the settings under `adrutilities`;
- the editor's document services (`positionAt`, `lineAt`, `getWordRangeAtPosition`) and the ADR
  listing.

`TextDocument` carries the editor services as functions. The ghost predicate `LinesAgree` states
when its lines agree with its text.

The regular expression is not run through a general engine. Its matching is written out for this
one pattern:

- `MatchAt` is the backtracking order: `.?` first takes one character, and `.+` is greedy.
- `IsMatch` is a declarative reference.
- `Exec` is proved to return the leftmost match, and at that position the longest one.

## Model

| member | source | states |
|---|---|---|
| SecurityValidator.ValidateAdrTitle | src/security-validator.ts:14-28 | a title is accepted exactly when it has 1 to 100 characters, each in `[a-zA-Z0-9\s_-]`, none of them a control character |
| SecurityValidator.SanitizeAdrTitle | src/security-validator.ts:35-42 | `None` exactly for titles that fail validation; otherwise the result is the title's words (maximal runs of non-whitespace) joined by single spaces: no leading or trailing whitespace, the same non-whitespace characters in the same order, no longer than the title |
| JsStrings.CollapseTrimmed | src/security-validator.ts:41 | trimming then replacing each whitespace run by one space gives exactly the words of the string joined by single spaces; the result is collapsed, keeps the non-whitespace characters and is never longer |
| JsStrings.WordsAreRuns | src/security-validator.ts:41 | every word is non-empty and holds no whitespace |
| JsStrings.WordsOfTrim | src/security-validator.ts:41 | trimming does not change the words of a string |
| JsStrings.WordsOfCollapse | src/security-validator.ts:41 | replacing each whitespace run by one space does not change the words of a string |
| JsStrings.CollapsedIsJoinedWords | src/security-validator.ts:41 | a collapsed string is its own words joined by single spaces |
| SecurityValidator.SanitizedTitleIsValid | src/security-validator.ts:35-42 | a non-empty sanitised title passes the title validator again |
| SecurityValidator.SanitizeIdempotent | src/security-validator.ts:35-42 | sanitising a non-empty sanitised title changes nothing |
| SecurityValidator.SanitizeBlankOnce | src/security-validator.ts:35-42 | the non-empty case is needed: `"   "` passes validation and sanitises to `""`, which validation then refuses (`None`) |
| SecurityValidator.SanitizeBlankTitle | src/security-validator.ts:35-42 | a valid title sanitises to the empty string exactly when it is all whitespace |
| SecurityValidator.EscapeRegex | src/security-validator.ts:49-54 | the escaped text is longer by exactly the number of syntax characters in the input |
| SecurityValidator.EscapeRegexRoundTrip | src/security-validator.ts:49-54 | read back as a pattern, the escaped text stands for exactly the original text |
| SecurityValidator.EscapeRegexPlain | src/security-validator.ts:49-54 | text without syntax characters is left unchanged |
| SecurityValidator.NormalizePath | src/security-validator.ts:61-64 | same length, every backslash becomes `/` and every other character is kept in place, so no backslash is left |
| SecurityValidator.NormalizePathIdempotent | src/security-validator.ts:61-64 | normalising twice is normalising once |
| SecurityValidator.UnderSomeRoot | src/security-validator.ts:119-125 | true exactly when some normalised workspace folder, lower-cased, is a prefix of the lower-cased path |
| SecurityValidator.ValidateFilePath | src/security-validator.ts:71-128 | without folders: accepted iff 1 to 500 characters, not denied, and relative or under `/test/` or `/some/`; with folders: accepted iff 1 to 500 characters, not denied, and under some folder (case-insensitive) |
| SecurityValidator.NormalizeKeepsContains | src/security-validator.ts:82-97 | a backslash-free needle found in the raw path is still found after normalisation |
| SecurityValidator.AcceptedPathIsSafe | src/security-validator.ts:85-97 | an accepted raw path contains no `..`, `~`, `<script>` or `alert(` |
| SecurityValidator.TraversalRefused | src/security-validator.ts:85-86 | a path containing `..` or `~` is refused with or without workspace folders |
| SecurityValidator.ValidateAdrPrefix | src/security-validator.ts:135-143 | accepted exactly when 1 to 20 characters, all in `[a-zA-Z0-9_-]` |
| SecurityValidator.ValidateAdrDirectoryName | src/security-validator.ts:150-158 | accepted exactly when 1 to 50 characters, all in `[a-zA-Z0-9_-]` |
| SecurityValidator.PrefixRuleIsDirectoryRuleWithinTwenty | src/security-validator.ts:135-158 | the prefix rule is the directory-name rule bounded at 20 characters |
| SecurityValidator.ValidPrefixHasNoSeparator | src/security-validator.ts:135-143 | a valid prefix has no `/`, `\`, `.` or whitespace |
| SecurityValidator.FilePrefix | src/security-validator.ts:169 | the prefix used is always valid: the given one when it is valid, `adr_` otherwise |
| SecurityValidator.GenerateSecureFileName | src/security-validator.ts:167-179 | raises exactly when the title is invalid or all whitespace |
| SecurityValidator.FileNameShape | src/security-validator.ts:176-178 | the name is prefix, then the sanitised title with each space turned into `_`, then `_`, the date and `.md`; the given date is used when it has eight digits |
| SecurityValidator.FileNameIsSafe | src/security-validator.ts:167-179 | with a well-formed current date the name has 14 to 132 characters, ends in `.md`, is `[A-Za-z0-9_-]` before it and contains no `..` |
| JsStrings.ReplaceSingleRunsPointwise | src/security-validator.ts:177 | on a string without adjacent whitespace, replacing runs maps each whitespace character to the replacement and keeps the rest |
| AdrFilePath.ConvertSeparators | src/adr-filepath.ts:5-7 | same length; only the first backslash becomes `/`, every other character is kept |
| AdrFilePath.ConvertWithoutBackslash | src/adr-filepath.ts:5-7 | a path without backslashes is unchanged |
| AdrFilePath.ConvertRemovesOneBackslash | src/adr-filepath.ts:5-7 | one call removes exactly one backslash when there is one |
| AdrFilePath.ConvertKeepsLaterBackslash | src/adr-filepath.ts:5-7 | of two backslashes the later one survives, so the result differs from converting all of them |
| AdrFilePath.ConvertSeparatorsMissesLaterBackslashes | src/test/suite/adr-filepath.test.ts:7-10 | on the test's own path the result keeps a backslash and is not the expected `Some/path/To/Convert` |
| AdrFilePath.ConvertAllSeparators | src/adr-filepath.ts:5-7 | corrected conversion: same length, every backslash becomes `/`, nothing else changes, no backslash left |
| AdrFilePath.ConvertAllIdempotent | src/adr-filepath.ts:5-7 | converting all separators twice is converting them once |
| AdrFilePath.ConvertAgreesWithCorrectedIff | src/adr-filepath.ts:5-7 | the as-written and corrected conversions agree exactly when the path holds at most one backslash |
| AdrFilePath.ConvertAllJoins | src/adr-filepath.ts:5-7 | segments joined by backslashes come out joined by slashes |
| AdrRegex.AdrRegexBuilder | src/adr-codelens-navigation-provider.ts:7-19 | the literal is always a valid prefix: the configured one when it is valid, `adr_` otherwise |
| AdrRegex.SourceMatchesLiteral | src/adr-codelens-navigation-provider.ts:13-18 | the pattern text is `.?`, then a part that stands for exactly the literal, then `.+.md` |
| AdrRegex.ValidLiteralHasNoTerminator | src/adr-codelens-navigation-provider.ts:11-18 | a valid literal holds no line terminator |
| AdrRegex.TailEndSpec | src/adr-codelens-navigation-provider.ts:18 | `.+.md` from a position ends at the last `md` of the line that leaves room for two characters, and fails exactly when there is none |
| AdrRegex.MatchAtSpec | src/adr-codelens-navigation-provider.ts:18 | the backtracking result at a position is a match, the longest one there, and is absent exactly when there is no match there |
| AdrRegex.LineEndSpec | src/adr-codelens-navigation-provider.ts:18 | `.` stops at the first line terminator: none lies before the end of the line, and the line ends at one or at the end of the text |
| AdrRegex.LastMdEndSpec | src/adr-codelens-navigation-provider.ts:18 | giving back characters from the end of the line stops at the last place where `md` ends, and fails only when there is none in range |
| AdrRegex.MatchHasNoTerminator | src/adr-codelens-navigation-provider.ts:18 | a match with a single-line literal lies on one line |
| AdrRegex.Exec | src/adr-codelens-navigation-provider.ts:71 | `exec` from `lastIndex` returns the first position at or after it where the backtracking matcher succeeds, with the end it reaches and the text it covers; nothing only when it succeeds nowhere from there on |
| AdrRegex.ExecIsLeftmostLongest | src/adr-codelens-navigation-provider.ts:71 | the match `exec` returns is the leftmost match at or after `lastIndex` and the longest at its start; it returns nothing only when no match starts there or later |
| AdrRegex.AllMatches | src/adr-codelens-navigation-provider.ts:64-74 | the loop sees at most the budget of matches |
| AdrRegex.AllMatchesSound | src/adr-codelens-navigation-provider.ts:64-74 | every match the loop sees is a genuine match at or after the start, with its own text, and the matches are in order and do not overlap |
| AdrRegex.AllMatchesCover | src/adr-codelens-navigation-provider.ts:71-74 | every match start lies inside a match found, unless the budget was used up before it |
| AdrRegex.ProbeSound | src/adr-codelens-navigation-provider.ts:57-61 | a text without the literal yields no match |
| AdrCodelensNavigation.IsNavigationActivated | src/adr-codelens-navigation-provider.ts:88-90 | navigation is on unless the setting is explicitly `false` |
| AdrCodelensNavigation.CalculateRange | src/adr-codelens-navigation-provider.ts:103-119 | a range is returned only when the matched text is found in the match's line; when it is found, the result is the editor's word range at the first column holding it |
| AdrCodelensNavigation.ColumnSearchFindsMatch | src/adr-codelens-navigation-provider.ts:105-110 | when the editor's lines agree with the text, the column search finds a single-line match at or before its own column |
| AdrCodelensNavigation.ScanKeepsColumns | src/adr-codelens-navigation-provider.ts:103-119 | with a valid literal, every match of a scan is found by the column search, and it gets a lens exactly when the editor gives a word range at that column |
| AdrCodelensNavigation.LensFor | src/adr-codelens-navigation-provider.ts:92-101 | a match adds one lens exactly when its range is found, and that lens carries the range found |
| AdrCodelensNavigation.ScanLenses | src/adr-codelens-navigation-provider.ts:63-74 | a full scan yields at most 1000 lenses |
| AdrCodelensNavigation.ProbeSkipsOnlyEmptyScans | src/adr-codelens-navigation-provider.ts:55-61 | with a valid configured prefix, the quick test skips only documents whose scan finds nothing |
| AdrCodelensNavigation.ProbeMissesFallbackMatches | src/adr-codelens-navigation-provider.ts:55-61 | with a refused prefix, a document holding an `adr_` match and not the configured text would yield matches, although the quick test returns none |
| AdrCodelensNavigation.ProbeMissExample | src/adr-codelens-navigation-provider.ts:55-61 | such a document exists: prefix `my adr`, text `adr_1.md` |
| AdrCodelensNavigation.FirstContaining | src/adr-codelens-navigation-provider.ts:156-163 | the index of the first listed path containing the text, or none when no path does |
| AdrCodelensNavigation.FindAdrUri | src/adr-codelens-navigation-provider.ts:146-168 | none when the trimmed text is empty or longer than 200 characters or no path contains it; otherwise the first listed path that contains it |
| AdrCodelensNavigation.ResolveCodeLens | src/adr-codelens-navigation-provider.ts:121-144 | no command when enabled but no editor is open; a navigation command exactly when enabled, an editor is open and a path is found, and then it is the path `findAdrUri` returns (a listed path containing the trimmed text); the empty command otherwise |
| AdrCodelensNavigation.AdrCodelensNavigationProvider.constructor | src/adr-codelens-navigation-provider.ts:27-30 | the pattern is built from the configured prefix, and the cache and lens list start empty |
| AdrCodelensNavigation.AdrCodelensNavigationProvider.ClearCache | src/adr-codelens-navigation-provider.ts:35-40 | the cache is emptied and nothing else changes |
| AdrCodelensNavigation.AdrCodelensNavigationProvider.RegisterInCodeLensArray | src/adr-codelens-navigation-provider.ts:92-101 | the lens list grows by the match's lens, if its range is found; the cache is untouched |
| AdrCodelensNavigation.AdrCodelensNavigationProvider.ScanDocument | src/adr-codelens-navigation-provider.ts:63-74 | the loop leaves exactly the lenses of the first (at most 1000) successive matches |
| AdrCodelensNavigation.AdrCodelensNavigationProvider.ProvideCodeLenses | src/adr-codelens-navigation-provider.ts:42-86 | disabled: nothing, state untouched; fresh cache entry: the cached lenses, state untouched; quick test fails: nothing, with an empty entry cached; otherwise a full scan, which becomes the lens list and is cached under the document version; at most 1000 lenses and every cache entry stays within that bound |
| AdrCodelensNavigation.AdrCodelensNavigationProvider.ProvideTwice | src/adr-codelens-navigation-provider.ts:44-61 | two calls in a row on the same document and settings return the same lenses |

## Left out

- Strings are sequences of code points. JavaScript lengths and regular-expression `.` count
  UTF-16 code units, so the length bounds (100, 20, 50, 500, 200) and the matches differ only for
  characters outside the Basic Multilingual Plane.
- `toLowerCase` is modelled on ASCII letters only (`AsciiLower`). Paths with non-ASCII letters are
  still compared with the workspace folders, but those letters are not case-folded (`É` and `é`
  count as different).
- `path.isAbsolute` is taken on a POSIX host (the path starts with `/`). Windows absolute-path
  rules are not modelled.
- `getCurrentDate` reads the clock, and it is a parameter (`currentDate`). The model does not
  compute the date from a clock.
- The arguments are never `undefined` or non-strings. This covers the `typeof` guards, and an
  `adrFilePrefix` setting that is missing (the quick test would then look for the text
  `undefined`).
- The `try`/`catch` blocks and `console` logging are left out. Every modelled operation is total,
  so no exception can reach them.
- The `setInterval` timer of `setupCacheCleanup` is left out. The clearing it performs is
  `ClearCache`; when it fires is not modelled.
- The cached copy `[...this.codeLenses]` (src/adr-codelens-navigation-provider.ts:77) is shallow:
  it shares the `CodeLens` objects with the returned array. `resolveCodeLens` writes
  `codeLens.command` into those objects (lines 133 and 137), so a later cache hit returns lenses
  that already carry a command, possibly a stale one. Lenses are values here, and the model keeps
  each `Resolution` apart from the cached lenses, so this sharing is not modelled.
- `getWordRangeAtPosition` and the document's `positionAt` and `lineAt` belong to the editor. They
  are functions given with the document, and the ghost predicate `LinesAgree` states how the lines
  relate to the text.
- `list()` (the ADR listing) and the `Uri` values are inputs. `findAdrUri` receives the listed
  paths as strings and returns the matching path.
- `convertSeparatorsOnUri` (src/adr-filepath.ts:9-11) rebuilds a `Uri` with `Uri.file`. On the path
  string it is the same `replace` call as `ConvertSeparators`. The `Uri` construction is not
  modelled.
- `resolveCodeLens` sets `token.isCancellationRequested = true` when no editor is open
  (src/adr-codelens-navigation-provider.ts:126). The cancellation token is not modelled, so this
  write is dropped; the lens is returned without a command (`Unresolved`).
- ScanDocument is a separate method holding the `exec` loop of `provideCodeLenses` (lines 63-74).
  `ProvideCodeLenses` calls it at the point where the loop stands.

## Findings

| source | as written | input that shows it | evidently intended | confidence | as-written member | corrected member |
|---|---|---|---|---|---|---|
| src/adr-filepath.ts:6 | `path.replace('\\', '/')` with a string pattern replaces only the first backslash | `Some\path\To\Convert` gives `Some/path\To\Convert`; the test at src/test/suite/adr-filepath.test.ts:7-10 expects `Some/path/To/Convert` | every backslash becomes `/` (a global replace, as `normalizePath` does) | high, not executed | AdrFilePath.ConvertSeparatorsMissesLaterBackslashes | AdrFilePath.ConvertAllSeparators |
