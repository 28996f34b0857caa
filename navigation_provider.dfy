/** The CodeLens provider that marks ADR references in an open document and
    resolves each one to the ADR file it names. */
module AdrCodelensNavigation {
  import opened Wrappers
  import opened JsStrings
  import opened AdrRegex
  import SecurityValidator

  /** Most matches registered by one scan. */
  const MaxMatches: nat := 1000

  /** Longest reference text, once trimmed, that is looked up. */
  const MaxReferenceLength: nat := 200

  datatype Position = Position(line: nat, character: nat)

  datatype Range = Range(start: Position, end: Position)

  datatype TextLine = TextLine(lineNumber: nat, text: string)

  /** A lens as the provider creates it: a range with no command yet. */
  datatype CodeLens = CodeLens(range: Range)

  /** The editor's view of a document. `positionAt`, `lineAt` and
      `wordRangeAt` are the editor's own services (the last one with the
      provider's pattern), given with the document. */
  datatype TextDocument = TextDocument(
    uri: string,
    version: int,
    text: string,
    positionAt: nat -> Position,
    lineAt: nat -> TextLine,
    wordRangeAt: Position -> Option<Range>)

  /** The `adrutilities` settings read at each call; a missing
      `enableCodeLensNavigation` reads as `true`. */
  datatype Configuration = Configuration(adrFilePrefix: string, enableCodeLensNavigation: Option<bool>)

  datatype CacheEntry = CacheEntry(codeLenses: seq<CodeLens>, version: int)

  /** The command a resolved lens carries. */
  datatype Resolution = Unresolved | Navigate(uri: string) | EmptyCommand

  /** `isCodeLensNavigationActivated` */
  function IsNavigationActivated(config: Configuration): (on: bool)
    ensures on <==> config.enableCodeLensNavigation != Some(false)
  {
    match config.enableCodeLensNavigation
    case None => true
    case Some(b) => b
  }

  predicate IsLineBreak(c: char) {
    c == '\n' || c == '\r'
  }

  /** The editor's lines agree with the text: the line holding a character
      that is not a line break is the run of characters around it up to the
      nearest breaks. */
  ghost predicate LinesAgree(doc: TextDocument) {
    forall o: nat :: o < |doc.text| && !IsLineBreak(doc.text[o]) ==>
      && doc.positionAt(o).character == o - PrevWhere(doc.text, o, IsLineBreak)
      && doc.lineAt(doc.positionAt(o).line).text
           == doc.text[PrevWhere(doc.text, o, IsLineBreak)..NextWhere(doc.text, o, IsLineBreak)]
  }

  /** `calculateRange`: find the matched text in the line the match starts
      on, and ask the editor for the range at that column. */
  function CalculateRange(doc: TextDocument, m: RegexMatch): (r: Option<Range>)
    ensures r.Some? ==> IndexOf(doc.lineAt(doc.positionAt(m.index).line).text, m.text).Some?
    ensures var line := doc.lineAt(doc.positionAt(m.index).line);
            IndexOf(line.text, m.text).Some? ==>
              r == doc.wordRangeAt(Position(line.lineNumber, IndexOf(line.text, m.text).value))
  {
    var line := doc.lineAt(doc.positionAt(m.index).line);
    match IndexOf(line.text, m.text)
    case None => None
    case Some(column) => doc.wordRangeAt(Position(line.lineNumber, column))
  }

  /** The lenses one match adds. */
  function LensFor(doc: TextDocument, m: RegexMatch): (ls: seq<CodeLens>)
    ensures |ls| <= 1
    ensures ls != [] <==> CalculateRange(doc, m).Some?
    ensures CalculateRange(doc, m).Some? ==> ls == [CodeLens(CalculateRange(doc, m).value)]
  {
    match CalculateRange(doc, m)
    case None => []
    case Some(range) => [CodeLens(range)]
  }

  /** The lenses a sequence of matches adds, in order. */
  function LensesFor(doc: TextDocument, ms: seq<RegexMatch>): (ls: seq<CodeLens>)
    ensures |ls| <= |ms|
  {
    if ms == [] then [] else LensesFor(doc, ms[..|ms| - 1]) + LensFor(doc, ms[|ms| - 1])
  }

  /** The lenses a full scan of `doc` with `regex` produces. */
  function ScanLenses(doc: TextDocument, regex: Matcher): (ls: seq<CodeLens>)
    ensures |ls| <= MaxMatches
  {
    LensesFor(doc, AllMatches(doc.text, regex.literal, 0, MaxMatches))
  }

  /** On a document whose lines agree with its text, the column search of
      `calculateRange` always finds the match, at or before its own column:
      the `-1` case is never taken for a pattern whose literal stays on one
      line. */
  lemma ColumnSearchFindsMatch(doc: TextDocument, m: RegexMatch, literal: string)
    requires LinesAgree(doc)
    requires forall k :: 0 <= k < |literal| ==> !IsLineTerminator(literal[k])
    requires m.End() <= |doc.text| && m.text == doc.text[m.index..m.End()]
    requires IsMatch(doc.text, m.index, m.End(), literal)
    ensures IndexOf(doc.lineAt(doc.positionAt(m.index).line).text, m.text).Some?
    ensures IndexOf(doc.lineAt(doc.positionAt(m.index).line).text, m.text).value
            <= doc.positionAt(m.index).character
  {
    var text := doc.text;
    MatchHasNoTerminator(text, m.index, m.End(), literal);
    var s := PrevWhere(text, m.index, IsLineBreak);
    var t := NextWhere(text, m.index, IsLineBreak);
    NoBreakBefore(text, m.index, m.End());
    var lineText := doc.lineAt(doc.positionAt(m.index).line).text;
    assert lineText == text[s..t] && doc.positionAt(m.index).character == m.index - s;
    SliceOccurs(text, s, t, m.index, m.End());
  }

  /** A run with no line terminator holds no line break either, so the line
      reaches past its end. */
  lemma NoBreakBefore(text: string, i: nat, e: nat)
    requires i < e <= |text|
    requires forall k :: i <= k < e ==> !IsLineTerminator(text[k])
    ensures !IsLineBreak(text[i])
    ensures e <= NextWhere(text, i, IsLineBreak)
  {
    assert forall k :: i <= k < e ==> !IsLineBreak(text[k]);
  }

  /** A piece of a slice occurs in the slice at its shifted position. */
  lemma SliceOccurs(text: string, s: nat, t: nat, i: nat, e: nat)
    requires s <= i <= e <= t <= |text|
    ensures OccursAt(text[s..t], i - s, text[i..e])
  {
    forall j | 0 <= j < e - i ensures text[s..t][i - s..e - s][j] == text[i..e][j] {
      assert text[s..t][i - s..e - s][j] == text[i + j];
    }
  }

  /** With the provider's own pattern, no match found by a scan is dropped
      at the column search: the match gets a lens exactly when the editor
      gives a word range at the column found. */
  lemma ScanKeepsColumns(doc: TextDocument, regex: Matcher, n: nat)
    requires LinesAgree(doc) && SecurityValidator.ValidateAdrPrefix(regex.literal)
    requires n < |AllMatches(doc.text, regex.literal, 0, MaxMatches)|
    ensures var m := AllMatches(doc.text, regex.literal, 0, MaxMatches)[n];
            var line := doc.lineAt(doc.positionAt(m.index).line);
            && IndexOf(line.text, m.text).Some?
            && (LensFor(doc, m) == [] <==>
                  doc.wordRangeAt(Position(line.lineNumber, IndexOf(line.text, m.text).value)).None?)
  {
    ValidLiteralHasNoTerminator(regex);
    AllMatchesSound(doc.text, regex.literal, 0, MaxMatches);
    var m := AllMatches(doc.text, regex.literal, 0, MaxMatches)[n];
    TextFromIsSlice(doc.text, m);
    ColumnSearchFindsMatch(doc, m, regex.literal);
  }

  lemma LensesForSnoc(doc: TextDocument, ms: seq<RegexMatch>, m: RegexMatch)
    ensures LensesFor(doc, ms + [m]) == LensesFor(doc, ms) + LensFor(doc, m)
  {
    assert (ms + [m])[..|ms|] == ms;
  }

  /** With a valid configured prefix the quick `includes` test skips only
      documents whose scan would find nothing. */
  lemma ProbeSkipsOnlyEmptyScans(doc: TextDocument, adrFilePrefix: string)
    requires SecurityValidator.ValidateAdrPrefix(adrFilePrefix)
    requires !Contains(doc.text, adrFilePrefix)
    ensures ScanLenses(doc, AdrRegexBuilder(adrFilePrefix)) == []
  {
    ProbeSound(doc.text, adrFilePrefix, 0, MaxMatches);
  }

  /** With a refused configured prefix the pattern falls back to `adr_`,
      but the quick test still looks for the configured text: a document
      that holds an `adr_` reference and not the configured text is given
      no lens, although the scan would have found the reference. */
  lemma ProbeMissesFallbackMatches(text: string, adrFilePrefix: string, k: nat, e: nat)
    requires !SecurityValidator.ValidateAdrPrefix(adrFilePrefix)
    requires !Contains(text, adrFilePrefix)
    requires IsMatch(text, k, e, FallbackPrefix)
    ensures AllMatches(text, AdrRegexBuilder(adrFilePrefix).literal, 0, MaxMatches) != []
  {
    MatchAtSpec(text, k, FallbackPrefix);
    AllMatchesCover(text, FallbackPrefix, 0, MaxMatches, k);
  }

  /** Such a document exists: the prefix `my adr` is refused (it holds a
      space) and `adr_1.md` does not contain it. */
  lemma ProbeMissExample()
    ensures !SecurityValidator.ValidateAdrPrefix("my adr")
    ensures !Contains("adr_1.md", "my adr")
    ensures IsMatch("adr_1.md", 0, 8, FallbackPrefix)
  {
    assert !SecurityValidator.IsSafeNameChar("my adr"[2]);
    assert forall k: nat :: !OccursAt("adr_1.md", k, "my adr");
    LiteralAtOccurs("adr_1.md", 0, FallbackPrefix);
    assert "adr_1.md"[0..4] == FallbackPrefix;
  }

  /** The cached entry for `doc` is up to date. */
  predicate CacheHit(cache: map<string, CacheEntry>, doc: TextDocument) {
    doc.uri in cache && cache[doc.uri].version == doc.version
  }

  /** `findAdrUri` with the reference text and the listed ADR paths as
      parameters: the first listed path holding the trimmed text, unless
      that text is empty or longer than 200 characters. */
  function FindAdrUri(rangeText: string, candidates: seq<string>): (r: Option<string>)
    ensures var ref := Trim(rangeText);
            r.Some? ==> && 1 <= |ref| <= MaxReferenceLength
                        && exists n :: 0 <= n < |candidates| && candidates[n] == r.value
                                       && Contains(candidates[n], ref)
                                       && forall j :: 0 <= j < n ==> !Contains(candidates[j], ref)
    ensures var ref := Trim(rangeText);
            r.None? <==> || ref == [] || |ref| > MaxReferenceLength
                         || forall n :: 0 <= n < |candidates| ==> !Contains(candidates[n], ref)
  {
    var ref := Trim(rangeText);
    if ref == [] || |ref| > MaxReferenceLength then None
    else
      match FirstContaining(candidates, ref)
      case None => None
      case Some(n) => Some(candidates[n])
  }

  /** `Array.prototype.find` with an `indexOf(text) >= 0` test. */
  function FirstContaining(candidates: seq<string>, ref: string): (r: Option<nat>)
    ensures r.Some? ==> r.value < |candidates| && Contains(candidates[r.value], ref)
                        && forall j :: 0 <= j < r.value ==> !Contains(candidates[j], ref)
    ensures r.None? ==> forall n :: 0 <= n < |candidates| ==> !Contains(candidates[n], ref)
  {
    if candidates == [] then None
    else if Contains(candidates[0], ref) then Some(0)
    else match FirstContaining(candidates[1..], ref)
      case None => None
      case Some(n) => Some(n + 1)
  }

  /** `resolveCodeLens`: a lens points at the ADR its text names; with no
      open editor it is left without a command. */
  function ResolveCodeLens(config: Configuration, editorOpen: bool, rangeText: string, candidates: seq<string>)
    : (r: Resolution)
    ensures r == Unresolved <==> IsNavigationActivated(config) && !editorOpen
    ensures r.Navigate? <==> IsNavigationActivated(config) && editorOpen && FindAdrUri(rangeText, candidates).Some?
    ensures r.Navigate? ==> FindAdrUri(rangeText, candidates) == Some(r.uri)
    ensures r.Navigate? ==> r.uri in candidates && Contains(r.uri, Trim(rangeText))
  {
    if IsNavigationActivated(config) && !editorOpen then Unresolved
    else if IsNavigationActivated(config) then
      match FindAdrUri(rangeText, candidates)
      case Some(uri) => Navigate(uri)
      case None => EmptyCommand
    else EmptyCommand
  }

  /** The provider: the lenses of the last scan, the pattern built at
      construction, and the per-document cache. */
  class AdrCodelensNavigationProvider {
    var codeLenses: seq<CodeLens>
    const regex: Matcher
    var documentCache: map<string, CacheEntry>

    /** Every cached entry holds at most one scan's worth of lenses. */
    ghost predicate Valid()
      reads this
    {
      forall uri :: uri in documentCache ==> |documentCache[uri].codeLenses| <= MaxMatches
    }

    /** `constructor`, with the configured prefix as a parameter. */
    constructor(adrFilePrefix: string)
      ensures Valid()
      ensures regex == AdrRegexBuilder(adrFilePrefix)
      ensures codeLenses == [] && documentCache == map[]
    {
      regex := AdrRegexBuilder(adrFilePrefix);
      codeLenses := [];
      documentCache := map[];
    }

    /** What the periodic cleanup set up by `setupCacheCleanup` does. */
    method ClearCache()
      modifies this
      ensures Valid()
      ensures documentCache == map[] && codeLenses == old(codeLenses)
    {
      documentCache := map[];
    }

    /** `registerInCodelLensArray` */
    method RegisterInCodeLensArray(doc: TextDocument, m: RegexMatch)
      modifies this
      ensures codeLenses == old(codeLenses) + LensFor(doc, m)
      ensures documentCache == old(documentCache)
    {
      var range := CalculateRange(doc, m);
      if range.Some? {
        codeLenses := codeLenses + [CodeLens(range.value)];
      }
    }

    /** `provideCodeLenses` with the settings as a parameter. */
    method ProvideCodeLenses(doc: TextDocument, config: Configuration) returns (lenses: seq<CodeLens>)
      requires Valid()
      modifies this
      ensures Valid()
      ensures |lenses| <= MaxMatches
      ensures !IsNavigationActivated(config) ==>
                lenses == [] && codeLenses == old(codeLenses) && documentCache == old(documentCache)
      ensures IsNavigationActivated(config) && CacheHit(old(documentCache), doc) ==>
                && lenses == old(documentCache)[doc.uri].codeLenses
                && codeLenses == old(codeLenses) && documentCache == old(documentCache)
      ensures IsNavigationActivated(config) && !CacheHit(old(documentCache), doc)
              && !Contains(doc.text, config.adrFilePrefix) ==>
                && lenses == [] && codeLenses == old(codeLenses)
                && documentCache == old(documentCache)[doc.uri := CacheEntry([], doc.version)]
      ensures IsNavigationActivated(config) && !CacheHit(old(documentCache), doc)
              && Contains(doc.text, config.adrFilePrefix) ==>
                && lenses == ScanLenses(doc, regex) && codeLenses == lenses
                && documentCache == old(documentCache)[doc.uri := CacheEntry(lenses, doc.version)]
    {
      if !IsNavigationActivated(config) {
        return [];
      }
      if CacheHit(documentCache, doc) {
        return documentCache[doc.uri].codeLenses;
      }
      var text := doc.text;
      if !Contains(text, config.adrFilePrefix) {
        documentCache := documentCache[doc.uri := CacheEntry([], doc.version)];
        return [];
      }
      ScanDocument(doc);
      documentCache := documentCache[doc.uri := CacheEntry(codeLenses, doc.version)];
      lenses := codeLenses;
    }

    /** The `exec` loop of `provideCodeLenses`: at most 1000 matches are
        registered, each search starting where the previous match ended. */
    method ScanDocument(doc: TextDocument)
      modifies this
      ensures codeLenses == ScanLenses(doc, regex)
      ensures documentCache == old(documentCache)
    {
      var text := doc.text;
      codeLenses := [];
      ghost var done: seq<RegexMatch> := [];
      var lastIndex: nat := 0;
      var matchCount: nat := 0;
      var matches := Exec(text, lastIndex, regex.literal);
      while matches.Some? && matchCount < MaxMatches
        invariant lastIndex <= |text| && matchCount <= MaxMatches
        invariant matches == Exec(text, lastIndex, regex.literal)
        invariant AllMatches(text, regex.literal, 0, MaxMatches)
                  == done + AllMatches(text, regex.literal, lastIndex, MaxMatches - matchCount)
        invariant codeLenses == LensesFor(doc, done)
        invariant documentCache == old(documentCache)
        decreases MaxMatches - matchCount
      {
        ghost var m := matches.value;
        AllMatchesAdvance(text, regex.literal, lastIndex, MaxMatches - matchCount, done);
        RegisterInCodeLensArray(doc, matches.value);
        LensesForSnoc(doc, done, m);
        done := done + [m];
        matchCount := matchCount + 1;
        lastIndex := matches.value.End();
        matches := Exec(text, lastIndex, regex.literal);
      }
      AllMatchesStop(text, regex.literal, lastIndex, MaxMatches - matchCount);
      assert done + [] == done;
      assert done == AllMatches(text, regex.literal, 0, MaxMatches);
    }

    /** Asking twice in a row gives the same lenses: the cache never changes
        an answer. */
    method ProvideTwice(doc: TextDocument, config: Configuration) returns (first: seq<CodeLens>, second: seq<CodeLens>)
      requires Valid()
      modifies this
      ensures Valid()
      ensures first == second
    {
      first := ProvideCodeLenses(doc, config);
      second := ProvideCodeLenses(doc, config);
    }
  }
}
