/**
 * The boundary extractor of app.py: `extract_json_from_text` isolates the
 * JSON array inside pasted free-form text by taking everything from the
 * first '[' to the last ']', inclusive, and falls back to the whole text.
 */
module JsonExtract {

  /** Python's `str.find` for one character: the index of its first occurrence, or -1. */
  function Find(s: string, c: char): (r: int)
    ensures -1 <= r < |s|
    ensures r == -1 <==> c !in s
    ensures r >= 0 ==> s[r] == c && c !in s[..r]
    decreases |s|
  {
    if s == [] then -1
    else if s[0] == c then 0
    else
      var k := Find(s[1..], c);
      assert s == [s[0]] + s[1..];
      if k == -1 then -1
      else
        assert s[..k + 1] == [s[0]] + s[1..][..k];
        k + 1
  }

  /** Python's `str.rfind` for one character: the index of its last occurrence, or -1. */
  function RFind(s: string, c: char): (r: int)
    ensures -1 <= r < |s|
    ensures r == -1 <==> c !in s
    ensures r >= 0 ==> s[r] == c && c !in s[r + 1..]
    decreases |s|
  {
    if s == [] then -1
    else if s[|s| - 1] == c then |s| - 1
    else
      var k := RFind(s[..|s| - 1], c);
      assert s == s[..|s| - 1] + [s[|s| - 1]];
      if k >= 0 then
        assert s[k + 1..] == s[..|s| - 1][k + 1..] + [s[|s| - 1]];
        k
      else k
  }

  /**
   * `extract_json_from_text(text)`: "" for empty input; the inclusive slice
   * from the first '[' to the last ']' when that ']' lies after that '[';
   * otherwise the text unchanged.
   */
  function ExtractJsonFromText(text: string): (r: string)
    ensures text == [] ==> r == []
    ensures r == text || (|r| >= 2 && r[0] == '[' && r[|r| - 1] == ']')
  {
    if text == [] then []
    else
      var start := Find(text, '[');
      var end := RFind(text, ']');
      if start != -1 && end != -1 && end > start then text[start..end + 1]
      else text
  }

  /** `a` is the first '[' of `text` and `b` its last ']', with `a` before `b`. */
  predicate OuterBrackets(text: string, a: int, b: int) {
    && 0 <= a < b < |text|
    && text[a] == '[' && '[' !in text[..a]
    && text[b] == ']' && ']' !in text[b + 1..]
  }

  /** Some '[' of `text` comes before some ']' of it. */
  predicate HasBracketPair(text: string) {
    exists i, j :: 0 <= i < j < |text| && text[i] == '[' && text[j] == ']'
  }

  /** `Find` stops at the first occurrence. */
  lemma FindFirst(s: string, c: char, a: int)
    requires 0 <= a < |s| && s[a] == c && c !in s[..a]
    ensures Find(s, c) == a
  {
    var r := Find(s, c);
    assert s[a] in s;
    assert forall k :: 0 <= k < a ==> s[k] != c by { assert forall k :: 0 <= k < a ==> s[k] == s[..a][k]; }
    assert forall k :: 0 <= k < r ==> s[k] != c by { assert forall k :: 0 <= k < r ==> s[k] == s[..r][k]; }
  }

  /** `RFind` stops at the last occurrence. */
  lemma RFindLast(s: string, c: char, b: int)
    requires 0 <= b < |s| && s[b] == c && c !in s[b + 1..]
    ensures RFind(s, c) == b
  {
    var r := RFind(s, c);
    assert s[b] in s;
    assert forall k :: b < k < |s| ==> s[k] != c by { assert forall k :: b < k < |s| ==> s[k] == s[b + 1..][k - b - 1]; }
    assert forall k :: r < k < |s| ==> s[k] != c by { assert forall k :: r < k < |s| ==> s[k] == s[r + 1..][k - r - 1]; }
  }

  /** When the first '[' precedes the last ']', the result is exactly the slice between them. */
  lemma ExtractIsOuterSlice(text: string, a: int, b: int)
    requires OuterBrackets(text, a, b)
    ensures ExtractJsonFromText(text) == text[a..b + 1]
  {
    FindFirst(text, '[', a);
    RFindLast(text, ']', b);
  }

  /**
   * Whenever some '[' precedes some ']', the result is a contiguous slice of
   * the input that starts at its first '[' and ends at its last ']', and it
   * covers that pair.
   */
  lemma ExtractSliceCase(text: string, i: int, j: int) returns (a: int, b: int)
    requires 0 <= i < j < |text| && text[i] == '[' && text[j] == ']'
    ensures OuterBrackets(text, a, b) && a <= i && j <= b
    ensures ExtractJsonFromText(text) == text[a..b + 1]
  {
    a := Find(text, '[');
    b := RFind(text, ']');
    assert text[i] in text && text[j] in text;
    assert forall k :: 0 <= k < a ==> text[k] != '[' by { assert forall k :: 0 <= k < a ==> text[k] == text[..a][k]; }
    assert forall k :: b < k < |text| ==> text[k] != ']' by { assert forall k :: b < k < |text| ==> text[k] == text[b + 1..][k - b - 1]; }
    ExtractIsOuterSlice(text, a, b);
  }

  /**
   * The fallback: when there is no '[', no ']', or no ']' after a '[' (so the
   * last ']' is not after the first '['), the text comes back unchanged.
   */
  lemma ExtractFallback(text: string)
    requires !HasBracketPair(text)
    ensures ExtractJsonFromText(text) == text
  {
    if text != [] {
      var start := Find(text, '[');
      var end := RFind(text, ']');
      assert start != -1 && end != -1 ==> text[start] == '[' && text[end] == ']';
    }
  }

  /** The two cases are exhaustive: either the array slice or the unchanged text. */
  lemma ExtractChangesOnlyWithPair(text: string)
    ensures ExtractJsonFromText(text) != text ==> HasBracketPair(text)
  {
    if !HasBracketPair(text) {
      ExtractFallback(text);
    }
  }

  /** Extraction is idempotent: extracting from an extracted span changes nothing. */
  lemma ExtractIdempotent(text: string)
    ensures ExtractJsonFromText(ExtractJsonFromText(text)) == ExtractJsonFromText(text)
  {
    var r := ExtractJsonFromText(text);
    if r != text {
      assert |r| >= 2 && r[0] == '[' && r[|r| - 1] == ']';
      ExtractIsOuterSlice(r, 0, |r| - 1);
      assert r[0..|r|] == r;
    }
  }

  /**
   * A well-formed array surrounded by prose without '[' before it and without
   * ']' after it is isolated exactly.
   */
  lemma ExtractSurroundedArray(prefix: string, span: string, suffix: string)
    requires '[' !in prefix && ']' !in suffix
    requires |span| >= 2 && span[0] == '[' && span[|span| - 1] == ']'
    ensures ExtractJsonFromText(prefix + span + suffix) == span
  {
    var text := prefix + span + suffix;
    var a, b := |prefix|, |prefix| + |span| - 1;
    assert text[..a] == prefix;
    assert text[b + 1..] == suffix;
    assert text[a] == span[0];
    assert text[b] == span[|span| - 1];
    ExtractIsOuterSlice(text, a, b);
    assert text[a..b + 1] == span;
  }
}
