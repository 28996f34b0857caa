/** Path separator conversion used when ADR paths are built and shown. */
module AdrFilePath {
  import opened JsStrings
  import SecurityValidator

  /** The separator every converted path should use. */
  const Separator: char := '/'

  predicate IsBackslash(c: char) {
    c == '\\'
  }

  /** Index of the first backslash of `path`, or `|path|` when there is none. */
  function FirstBackslash(path: string): (k: nat)
    ensures k <= |path|
    ensures forall i :: 0 <= i < k ==> path[i] != '\\'
    ensures k < |path| ==> path[k] == '\\'
  {
    var k := NextWhere(path, 0, IsBackslash);
    assert forall i :: 0 <= i < k ==> !IsBackslash(path[i]);
    k
  }

  /** `convertSeparators` as written: `path.replace('\\', '/')` with a string
      pattern, which replaces the FIRST backslash only. */
  function ConvertSeparators(path: string): (r: string)
    ensures |r| == |path|
    ensures forall i :: 0 <= i < |path| ==>
              r[i] == if i == FirstBackslash(path) then Separator else path[i]
  {
    var k := FirstBackslash(path);
    if k == |path| then path else path[..k] + [Separator] + path[k + 1..]
  }

  /** A path without backslashes is left as it is. */
  lemma ConvertWithoutBackslash(path: string)
    requires '\\' !in path
    ensures ConvertSeparators(path) == path
  {
    assert FirstBackslash(path) == |path|;
  }

  /** One call removes exactly one backslash, when there is one. */
  lemma ConvertRemovesOneBackslash(path: string)
    ensures CountWhere(ConvertSeparators(path), IsBackslash)
            == if '\\' in path then CountWhere(path, IsBackslash) - 1 else CountWhere(path, IsBackslash)
  {
    var k := FirstBackslash(path);
    var r := ConvertSeparators(path);
    if k < |path| {
      assert path == path[..k] + [path[k]] + path[k + 1..];
      assert r == path[..k] + [Separator] + path[k + 1..];
      CountWhereAppend(path[..k] + [path[k]], path[k + 1..], IsBackslash);
      CountWhereAppend(path[..k], [path[k]], IsBackslash);
      CountWhereAppend(path[..k] + [Separator], path[k + 1..], IsBackslash);
      CountWhereAppend(path[..k], [Separator], IsBackslash);
    } else {
      assert '\\' !in path;
    }
  }

  /** The corrected conversion: every backslash becomes a slash. It is the
      same operation as the path normalisation of the security validator. */
  function ConvertAllSeparators(path: string): (r: string)
    ensures |r| == |path| && '\\' !in r
    ensures forall i :: 0 <= i < |path| ==> r[i] == if path[i] == '\\' then Separator else path[i]
  {
    SecurityValidator.NormalizePath(path)
  }

  /** Converting all separators twice is converting them once. */
  lemma ConvertAllIdempotent(path: string)
    ensures ConvertAllSeparators(ConvertAllSeparators(path)) == ConvertAllSeparators(path)
  {
    var r := ConvertAllSeparators(path);
    assert forall i :: 0 <= i < |r| ==> r[i] != '\\';
  }

  /** The two conversions agree exactly when the path holds at most one
      backslash. */
  lemma ConvertAgreesWithCorrectedIff(path: string)
    ensures ConvertSeparators(path) == ConvertAllSeparators(path) <==> CountWhere(path, IsBackslash) <= 1
  {
    ConvertRemovesOneBackslash(path);
    var all := ConvertAllSeparators(path);
    assert CountWhere(all, IsBackslash) == 0;
    if CountWhere(path, IsBackslash) <= 1 {
      var k := FirstBackslash(path);
      forall i | 0 <= i < |path| && i != k
        ensures path[i] != '\\'
      {
      }
      assert ConvertSeparators(path) == all;
    }
  }

  /** Of two backslashes, the call as written keeps the later one. */
  lemma ConvertKeepsLaterBackslash(path: string, j: nat, k: nat)
    requires j < k < |path| && path[j] == '\\' && path[k] == '\\'
    ensures ConvertSeparators(path)[k] == '\\'
    ensures ConvertSeparators(path) != ConvertAllSeparators(path)
  {
    assert FirstBackslash(path) <= j;
    assert ConvertAllSeparators(path)[k] == '/';
  }

  /** The path of the source's own test case: the call as written converts
      only the first of its three backslashes, where the test expects all of
      them converted. */
  lemma ConvertSeparatorsMissesLaterBackslashes()
    ensures ConvertSeparators("Some\\path\\To\\Convert")[9] == '\\'
    ensures ConvertSeparators("Some\\path\\To\\Convert") != "Some/path/To/Convert"
  {
    var p := "Some\\path\\To\\Convert";
    ConvertKeepsLaterBackslash(p, 4, 9);
    assert "Some/path/To/Convert"[9] == '/';
  }

  /** Segments joined by backslashes come out joined by slashes. */
  lemma ConvertAllJoins(a: string, b: string)
    requires '\\' !in a
    ensures ConvertAllSeparators(a + "\\" + b) == a + "/" + ConvertAllSeparators(b)
  {
    var x := a + "\\" + b;
    var y := a + "/" + ConvertAllSeparators(b);
    forall i | 0 <= i < |x| ensures ConvertAllSeparators(x)[i] == y[i] {
      if i > |a| { assert x[i] == b[i - |a| - 1]; }
    }
  }
}
