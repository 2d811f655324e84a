/**
  The filename sanitiser of the sync script: delete every character that
  Windows forbids in a file name, then strip surrounding whitespace
  (`re.sub(r'[<>:"/\\|?*]', '', name).strip()`).
 */
module Filenames {
  import opened Text

  /** The nine characters of the regular-expression class `[<>:"/\\|?*]`. */
  predicate IsForbidden(c: char) {
    c == '<' || c == '>' || c == ':' || c == '"' || c == '/' || c == '\\' || c == '|' || c == '?' || c == '*'
  }

  predicate NoForbidden(s: string) {
    forall k :: 0 <= k < |s| ==> !IsForbidden(s[k])
  }

  /** The `re.sub` step: the result holds no forbidden character. */
  function RemoveForbidden(s: string): (r: string)
    ensures NoForbidden(r)
  {
    if s == [] then []
    else if IsForbidden(s[0]) then RemoveForbidden(s[1..])
    else [s[0]] + RemoveForbidden(s[1..])
  }

  /**
    The `re.sub` step keeps every other character as often as the input has
    it, and in the input's order, so it deletes the forbidden ones and nothing else.
   */
  lemma {:induction false} RemoveForbiddenKeepsOthers(s: string)
    ensures forall c :: !IsForbidden(c) ==> multiset(RemoveForbidden(s))[c] == multiset(s)[c]
    ensures IsSubsequence(RemoveForbidden(s), s)
  {
    if s != [] {
      RemoveForbiddenKeepsOthers(s[1..]);
      assert s == [s[0]] + s[1..];
      var rest := RemoveForbidden(s[1..]);
      if !IsForbidden(s[0]) {
        assert ([s[0]] + rest)[1..] == rest;
      }
    }
  }

  /** `_sanitize_filename`. */
  function SanitizeFilename(name: string): (r: string)
    ensures NoForbidden(r)
    ensures r == [] || (!IsSpace(r[0]) && !IsSpace(r[|r| - 1]))
  {
    var cleaned := RemoveForbidden(name);
    var t := TrimStart(cleaned);
    NoForbiddenSlice(cleaned, |cleaned| - |t|, |cleaned| - |t| + |TrimEnd(t)|);
    Strip(cleaned)
  }

  /** Every slice of a string without forbidden characters has none either. */
  lemma NoForbiddenSlice(s: string, i: nat, j: nat)
    requires NoForbidden(s) && i <= j <= |s|
    ensures NoForbidden(s[i..j])
  {
    assert forall k :: 0 <= k < j - i ==> s[i..j][k] == s[i + k];
  }

  /** A string with no forbidden character passes the `re.sub` step unchanged. */
  lemma {:induction false} RemoveForbiddenKeeps(s: string)
    requires NoForbidden(s)
    ensures RemoveForbidden(s) == s
  {
    if s != [] {
      RemoveForbiddenKeeps(s[1..]);
    }
  }

  /** The `re.sub` step works character by character, so it distributes over concatenation. */
  lemma {:induction false} RemoveForbiddenConcat(a: string, b: string)
    ensures RemoveForbidden(a + b) == RemoveForbidden(a) + RemoveForbidden(b)
  {
    if a == [] {
      assert a + b == b;
    } else {
      assert (a + b)[0] == a[0] && (a + b)[1..] == a[1..] + b;
      RemoveForbiddenConcat(a[1..], b);
      if !IsForbidden(a[0]) {
        var x, y := RemoveForbidden(a[1..]), RemoveForbidden(b);
        assert [a[0]] + (x + y) == ([a[0]] + x) + y;
      }
    }
  }

  /** The sanitiser only deletes characters. */
  lemma SanitizeIsSubsequence(name: string)
    ensures IsSubsequence(SanitizeFilename(name), name)
  {
    RemoveForbiddenKeepsOthers(name);
    StripIsSubsequence(RemoveForbidden(name));
    SubsequenceTransitive(SanitizeFilename(name), RemoveForbidden(name), name);
  }

  /** Sanitising a sanitised name changes nothing. */
  lemma SanitizeIdempotent(name: string)
    ensures SanitizeFilename(SanitizeFilename(name)) == SanitizeFilename(name)
  {
    var once := SanitizeFilename(name);
    RemoveForbiddenKeeps(once);
    StripTrimmed(once);
  }

  /** Sanitising keeps a clean suffix that starts and ends with non-space characters. */
  lemma SanitizeKeepsSuffix(stem: string, suffix: string)
    requires suffix != [] && NoForbidden(suffix)
    requires !IsSpace(suffix[0]) && !IsSpace(suffix[|suffix| - 1])
    ensures var r := SanitizeFilename(stem + suffix);
      |r| >= |suffix| && r[|r| - |suffix|..] == suffix
  {
    RemoveForbiddenConcat(stem, suffix);
    RemoveForbiddenKeeps(suffix);
    StripKeepsSuffix(RemoveForbidden(stem), suffix);
    var kept := TrimStart(RemoveForbidden(stem));
    assert (kept + suffix)[|kept|..] == suffix;
  }

  /** The name built as `artist - name.flac` keeps its `.flac` extension. */
  lemma SanitizeKeepsFlac(artist: string, title: string)
    ensures var r := SanitizeFilename(artist + " - " + title + ".flac");
      |r| >= 5 && r[|r| - 5..] == ".flac"
  {
    assert NoForbidden(".flac");
    SanitizeKeepsSuffix(artist + " - " + title, ".flac");
  }
}
